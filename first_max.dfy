/**
 * The root-move scans of both searches (`select_move`, `minimax_move`)
 * start `best_score` at `-math.inf` and replace it only on a strictly
 * greater score, so they keep the first position of greatest score.
 */
module FirstMax {
  import opened Extended

  /**
   * The invariant of a loop that keeps the first strictly greatest of
   * `scores`, after scanning the first `i`: position `bi` holds the
   * greatest score seen, and every earlier position scores strictly less.
   */
  predicate FirstMaxSoFar(scores: seq<ExtInt>, i: nat, bi: nat, best: ExtInt)
    requires i <= |scores|
  {
    && bi < i
    && best == scores[bi]
    && (forall j :: 0 <= j < i ==> Le(scores[j], best))
    && (forall j :: 0 <= j < bi ==> Lt(scores[j], best))
  }

  /** One iteration (`if score > best_score: ...`) keeps the invariant. */
  lemma FirstMaxStep(scores: seq<ExtInt>, i: nat, bi: nat, best: ExtInt)
    requires i < |scores| && scores[i].Fin?
    requires (i == 0 && best == NegInf) || FirstMaxSoFar(scores, i, bi, best)
    ensures if Lt(best, scores[i]) then FirstMaxSoFar(scores, i + 1, i, scores[i])
            else FirstMaxSoFar(scores, i + 1, bi, best)
  {
    if Lt(best, scores[i]) {
      forall j | 0 <= j < i ensures Le(scores[j], scores[i]) {
        LeTrans(scores[j], best, scores[i]);
      }
    }
  }
}
