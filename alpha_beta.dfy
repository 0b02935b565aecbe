/**
 * The search of the session application (app.py): minimax with alpha-beta
 * pruning and depth-sensitive scores (a win found at depth d scores
 * 10 - d, a loss d - 10, a draw 0). It places each move on the board list
 * in place and clears the cell again after the recursive call.
 *
 * `MinimaxScore` is the unpruned reference: the same recursion with the
 * alpha/beta updates and the cut-offs removed. `AlphaBetaValue` follows the
 * pruned code step by step and specifies the in-place methods `AlphaBeta`
 * and `MinimaxMove`. `FailSoft` proves the pruning sound: with the full
 * window the pruned search returns the reference value.
 */
module AlphaBeta {
  import opened Wrappers
  import opened Extended
  import opened FirstMax
  import opened Board

  // ---------------------------------------------------------------------
  // The unpruned reference
  // ---------------------------------------------------------------------

  /** Minimax with depth-sensitive scores and no pruning. */
  function MinimaxScore(b: Board, depth: nat, isMax: bool, agent: int): int
    requires IsPlayer(agent)
    decreases Empties(b), 1
  {
    if CheckWin(b, agent) then 10 - depth
    else if CheckWin(b, -agent) then depth - 10
    else if AvailableActions(b) == [] then 0
    else if isMax then MaxScores(b, depth, agent, AvailableActions(b), NegInf).n
    else MinScores(b, depth, agent, AvailableActions(b), PosInf).n
  }

  /**
   * The reference score of the child reached by marking the empty cell `m`:
   * the agent moves when `isMax`, the opponent otherwise.
   */
  function ChildScore(b: Board, depth: nat, isMax: bool, agent: int, m: Index): int
    requires IsPlayer(agent) && b[m] == 0
    decreases Empties(b), 0, 0
  {
    var p := if isMax then agent else -agent;
    PlaceDecreasesEmpties(b, m, p);
    MinimaxScore(b[m := p], depth + 1, !isMax, agent)
  }

  /** `best = max(best, score)` over the agent's moves `ms`, with no cut-off. */
  function MaxScores(b: Board, depth: nat, agent: int, ms: seq<Index>, best: ExtInt): (r: ExtInt)
    requires IsPlayer(agent)
    requires forall m :: m in ms ==> b[m] == 0
    ensures best != PosInf && (best.Fin? || ms != []) ==> r.Fin?
    decreases Empties(b), 0, |ms|
  {
    if ms == [] then best
    else MaxScores(b, depth, agent, ms[1..], Max(best, Fin(ChildScore(b, depth, true, agent, ms[0]))))
  }

  /** `best = min(best, score)` over the opponent's moves `ms`, with no cut-off. */
  function MinScores(b: Board, depth: nat, agent: int, ms: seq<Index>, best: ExtInt): (r: ExtInt)
    requires IsPlayer(agent)
    requires forall m :: m in ms ==> b[m] == 0
    ensures best != NegInf && (best.Fin? || ms != []) ==> r.Fin?
    decreases Empties(b), 0, |ms|
  {
    if ms == [] then best
    else MinScores(b, depth, agent, ms[1..], Min(best, Fin(ChildScore(b, depth, false, agent, ms[0]))))
  }

  // ---------------------------------------------------------------------
  // The pruned search, as a function
  // ---------------------------------------------------------------------

  /** `minimax(board, depth, is_max, agent_player, alpha, beta)`. */
  function AlphaBetaValue(b: Board, depth: nat, isMax: bool, agent: int, alpha: ExtInt, beta: ExtInt): int
    requires IsPlayer(agent)
    decreases Empties(b), 1
  {
    if CheckWin(b, agent) then 10 - depth
    else if CheckWin(b, -agent) then depth - 10
    else if AvailableActions(b) == [] then 0
    else if isMax then MaxLoop(b, depth, agent, AvailableActions(b), alpha, beta, NegInf).n
    else MinLoop(b, depth, agent, AvailableActions(b), alpha, beta, PosInf).n
  }

  /** The pruned value of the child reached by marking the empty cell `m`, in the window (`alpha`, `beta`). */
  function ChildValue(b: Board, depth: nat, isMax: bool, agent: int, alpha: ExtInt, beta: ExtInt, m: Index): int
    requires IsPlayer(agent) && b[m] == 0
    decreases Empties(b), 0, 0
  {
    var p := if isMax then agent else -agent;
    PlaceDecreasesEmpties(b, m, p);
    AlphaBetaValue(b[m := p], depth + 1, !isMax, agent, alpha, beta)
  }

  /**
   * The maximizing loop from the move `ms[0]` on: raise `best`, raise
   * `alpha` to it, stop as soon as `beta <= alpha`.
   */
  function MaxLoop(b: Board, depth: nat, agent: int, ms: seq<Index>, alpha: ExtInt, beta: ExtInt, best: ExtInt): (r: ExtInt)
    requires IsPlayer(agent)
    requires forall m :: m in ms ==> b[m] == 0
    ensures best != PosInf && (best.Fin? || ms != []) ==> r.Fin?
    decreases Empties(b), 0, |ms|
  {
    if ms == [] then best
    else
      var best' := Max(best, Fin(ChildValue(b, depth, true, agent, alpha, beta, ms[0])));
      var alpha' := Max(alpha, best');
      if Le(beta, alpha') then best'
      else MaxLoop(b, depth, agent, ms[1..], alpha', beta, best')
  }

  /**
   * The minimizing loop from the move `ms[0]` on: lower `best`, lower
   * `beta` to it, stop as soon as `beta <= alpha`.
   */
  function MinLoop(b: Board, depth: nat, agent: int, ms: seq<Index>, alpha: ExtInt, beta: ExtInt, best: ExtInt): (r: ExtInt)
    requires IsPlayer(agent)
    requires forall m :: m in ms ==> b[m] == 0
    ensures best != NegInf && (best.Fin? || ms != []) ==> r.Fin?
    decreases Empties(b), 0, |ms|
  {
    if ms == [] then best
    else
      var best' := Min(best, Fin(ChildValue(b, depth, false, agent, alpha, beta, ms[0])));
      var beta' := Min(beta, best');
      if Le(beta', alpha) then best'
      else MinLoop(b, depth, agent, ms[1..], alpha, beta', best')
  }

  // ---------------------------------------------------------------------
  // Pruning does not change the value
  // ---------------------------------------------------------------------

  /**
   * The fail-soft contract of a search value `r` against the true value
   * `m` in the window (`lo`, `hi`): a result at or below `lo` bounds the
   * true value from above, one at or above `hi` bounds it from below, and
   * one strictly inside the window is exact.
   */
  predicate FailSoftWithin(r: ExtInt, m: ExtInt, lo: ExtInt, hi: ExtInt) {
    && (Le(r, lo) ==> Le(m, r))
    && (Le(hi, r) ==> Le(r, m))
    && (Lt(lo, r) && Lt(r, hi) ==> r == m)
  }

  /** A cut-off in the maximizing loop returns a value that bounds the true one from below. */
  lemma MaxStepCut(A0: ExtInt, a: ExtInt, beta: ExtInt, best: ExtInt, P: ExtInt, v: ExtInt, mc: ExtInt, X: ExtInt)
    requires Lt(a, beta) && a == Max(A0, best)
    requires Le(P, best) && (Lt(A0, best) ==> P == best)
    requires FailSoftWithin(v, mc, a, beta)
    requires Le(beta, Max(a, Max(best, v))) && Le(Max(P, mc), X)
    ensures FailSoftWithin(Max(best, v), X, A0, beta)
  {
  }

  /** Without a cut-off the maximizing loop's invariant carries to the next move. */
  lemma MaxStepContinue(A0: ExtInt, a: ExtInt, beta: ExtInt, best: ExtInt, P: ExtInt, v: ExtInt, mc: ExtInt)
    requires Lt(a, beta) && a == Max(A0, best)
    requires Le(P, best) && (Lt(A0, best) ==> P == best)
    requires FailSoftWithin(v, mc, a, beta)
    requires !Le(beta, Max(a, Max(best, v)))
    ensures var best', P' := Max(best, v), Max(P, mc);
      && Lt(Max(a, best'), beta) && Max(a, best') == Max(A0, best')
      && Le(P', best') && (Lt(A0, best') ==> P' == best')
  {
  }

  /** A cut-off in the minimizing loop returns a value that bounds the true one from above. */
  lemma MinStepCut(alpha: ExtInt, B0: ExtInt, bt: ExtInt, best: ExtInt, P: ExtInt, v: ExtInt, mc: ExtInt, X: ExtInt)
    requires Lt(alpha, bt) && bt == Min(B0, best)
    requires Le(best, P) && (Lt(best, B0) ==> P == best)
    requires FailSoftWithin(v, mc, alpha, bt)
    requires Le(Min(bt, Min(best, v)), alpha) && Le(X, Min(P, mc))
    ensures FailSoftWithin(Min(best, v), X, alpha, B0)
  {
  }

  /** Without a cut-off the minimizing loop's invariant carries to the next move. */
  lemma MinStepContinue(alpha: ExtInt, B0: ExtInt, bt: ExtInt, best: ExtInt, P: ExtInt, v: ExtInt, mc: ExtInt)
    requires Lt(alpha, bt) && bt == Min(B0, best)
    requires Le(best, P) && (Lt(best, B0) ==> P == best)
    requires FailSoftWithin(v, mc, alpha, bt)
    requires !Le(Min(bt, Min(best, v)), alpha)
    ensures var best', P' := Min(best, v), Min(P, mc);
      && Lt(alpha, Min(bt, best')) && Min(bt, best') == Min(B0, best')
      && Le(best', P') && (Lt(best', B0) ==> P' == best')
  {
  }

  lemma {:induction false} MaxScoresAtLeast(b: Board, depth: nat, agent: int, ms: seq<Index>, best: ExtInt)
    requires IsPlayer(agent)
    requires forall m :: m in ms ==> b[m] == 0
    ensures Le(best, MaxScores(b, depth, agent, ms, best))
    decreases |ms|
  {
    if ms != [] {
      var best' := Max(best, Fin(ChildScore(b, depth, true, agent, ms[0])));
      MaxScoresAtLeast(b, depth, agent, ms[1..], best');
      LeTrans(best, best', MaxScores(b, depth, agent, ms, best));
    }
  }

  lemma {:induction false} MinScoresAtMost(b: Board, depth: nat, agent: int, ms: seq<Index>, best: ExtInt)
    requires IsPlayer(agent)
    requires forall m :: m in ms ==> b[m] == 0
    ensures Le(MinScores(b, depth, agent, ms, best), best)
    decreases |ms|
  {
    if ms != [] {
      var best' := Min(best, Fin(ChildScore(b, depth, false, agent, ms[0])));
      MinScoresAtMost(b, depth, agent, ms[1..], best');
      LeTrans(MinScores(b, depth, agent, ms, best), best', best);
    }
  }

  /** A child's pruned value is fail-soft against its unpruned score. */
  lemma {:induction false} ChildFailSoft(b: Board, depth: nat, isMax: bool, agent: int, alpha: ExtInt, beta: ExtInt, m: Index)
    requires IsPlayer(agent) && b[m] == 0 && Lt(alpha, beta)
    ensures FailSoftWithin(Fin(ChildValue(b, depth, isMax, agent, alpha, beta, m)), Fin(ChildScore(b, depth, isMax, agent, m)), alpha, beta)
    decreases Empties(b), 0, 0
  {
    var p := if isMax then agent else -agent;
    PlaceDecreasesEmpties(b, m, p);
    FailSoft(b[m := p], depth + 1, !isMax, agent, alpha, beta);
  }

  /**
   * The maximizing loop against the unpruned one. `A0` is the alpha the
   * node was called with, `a` the current alpha, `best` the pruned and `P`
   * the unpruned running maximum over the moves already scanned; `P` never
   * exceeds `best`, and they agree once `best` rises above `A0`.
   */
  lemma {:induction false} MaxLoopFailSoft(b: Board, depth: nat, agent: int, ms: seq<Index>,
                                           A0: ExtInt, a: ExtInt, beta: ExtInt, best: ExtInt, P: ExtInt)
    requires IsPlayer(agent)
    requires forall m :: m in ms ==> b[m] == 0
    requires Lt(a, beta) && a == Max(A0, best)
    requires Le(P, best) && (Lt(A0, best) ==> P == best)
    ensures FailSoftWithin(MaxLoop(b, depth, agent, ms, a, beta, best), MaxScores(b, depth, agent, ms, P), A0, beta)
    decreases Empties(b), 0, |ms|
  {
    if ms != [] {
      ChildFailSoft(b, depth, true, agent, a, beta, ms[0]);
      var v := Fin(ChildValue(b, depth, true, agent, a, beta, ms[0]));
      var mc := Fin(ChildScore(b, depth, true, agent, ms[0]));
      var best' := Max(best, v);
      var a' := Max(a, best');
      var P' := Max(P, mc);
      if Le(beta, a') {
        MaxScoresAtLeast(b, depth, agent, ms[1..], P');
        MaxStepCut(A0, a, beta, best, P, v, mc, MaxScores(b, depth, agent, ms[1..], P'));
      } else {
        MaxStepContinue(A0, a, beta, best, P, v, mc);
        MaxLoopFailSoft(b, depth, agent, ms[1..], A0, a', beta, best', P');
      }
    }
  }

  /**
   * The minimizing loop against the unpruned one, symmetrically: `B0` is
   * the beta the node was called with, `bt` the current beta.
   */
  lemma {:induction false} MinLoopFailSoft(b: Board, depth: nat, agent: int, ms: seq<Index>,
                                           alpha: ExtInt, B0: ExtInt, bt: ExtInt, best: ExtInt, P: ExtInt)
    requires IsPlayer(agent)
    requires forall m :: m in ms ==> b[m] == 0
    requires Lt(alpha, bt) && bt == Min(B0, best)
    requires Le(best, P) && (Lt(best, B0) ==> P == best)
    ensures FailSoftWithin(MinLoop(b, depth, agent, ms, alpha, bt, best), MinScores(b, depth, agent, ms, P), alpha, B0)
    decreases Empties(b), 0, |ms|
  {
    if ms != [] {
      ChildFailSoft(b, depth, false, agent, alpha, bt, ms[0]);
      var v := Fin(ChildValue(b, depth, false, agent, alpha, bt, ms[0]));
      var mc := Fin(ChildScore(b, depth, false, agent, ms[0]));
      var best' := Min(best, v);
      var bt' := Min(bt, best');
      var P' := Min(P, mc);
      if Le(bt', alpha) {
        MinScoresAtMost(b, depth, agent, ms[1..], P');
        MinStepCut(alpha, B0, bt, best, P, v, mc, MinScores(b, depth, agent, ms[1..], P'));
      } else {
        MinStepContinue(alpha, B0, bt, best, P, v, mc);
        MinLoopFailSoft(b, depth, agent, ms[1..], alpha, B0, bt', best', P');
      }
    }
  }

  /**
   * Alpha-beta is fail-soft: called with any window `alpha` < `beta`, its
   * value bounds the unpruned value from above when at most `alpha`, from
   * below when at least `beta`, and equals it in between.
   */
  lemma {:induction false} FailSoft(b: Board, depth: nat, isMax: bool, agent: int, alpha: ExtInt, beta: ExtInt)
    requires IsPlayer(agent) && Lt(alpha, beta)
    ensures FailSoftWithin(Fin(AlphaBetaValue(b, depth, isMax, agent, alpha, beta)),
                           Fin(MinimaxScore(b, depth, isMax, agent)), alpha, beta)
    decreases Empties(b), 1
  {
    if !CheckWin(b, agent) && !CheckWin(b, -agent) && AvailableActions(b) != [] {
      var ms := AvailableActions(b);
      if isMax {
        MaxLoopFailSoft(b, depth, agent, ms, alpha, alpha, beta, NegInf, NegInf);
      } else {
        MinLoopFailSoft(b, depth, agent, ms, alpha, beta, beta, PosInf, PosInf);
      }
    }
  }

  /**
   * Pruning does not change the value: with alpha = -inf and beta = +inf
   * (the defaults) the pruned search returns exactly the unpruned value.
   */
  lemma FullWindow(b: Board, depth: nat, isMax: bool, agent: int)
    requires IsPlayer(agent)
    ensures AlphaBetaValue(b, depth, isMax, agent, NegInf, PosInf) == MinimaxScore(b, depth, isMax, agent)
  {
    FailSoft(b, depth, isMax, agent, NegInf, PosInf);
  }

  // ---------------------------------------------------------------------
  // The scores are depth-sensitive
  // ---------------------------------------------------------------------

  /** Folding children whose values lie in [`lo`, `hi`] stays in [`lo`, `hi`]. */
  lemma {:induction false} MaxScoresWithin(b: Board, depth: nat, agent: int, ms: seq<Index>, best: ExtInt, lo: int, hi: int)
    requires IsPlayer(agent)
    requires forall m :: m in ms ==> b[m] == 0
    requires forall m :: m in ms ==> lo <= ChildScore(b, depth, true, agent, m) <= hi
    requires best == NegInf || (best.Fin? && lo <= best.n <= hi)
    requires best.Fin? || ms != []
    ensures MaxScores(b, depth, agent, ms, best).Fin?
    ensures lo <= MaxScores(b, depth, agent, ms, best).n <= hi
    decreases |ms|
  {
    if ms != [] {
      assert ms[0] in ms;
      var best' := Max(best, Fin(ChildScore(b, depth, true, agent, ms[0])));
      MaxScoresWithin(b, depth, agent, ms[1..], best', lo, hi);
    }
  }

  lemma {:induction false} MinScoresWithin(b: Board, depth: nat, agent: int, ms: seq<Index>, best: ExtInt, lo: int, hi: int)
    requires IsPlayer(agent)
    requires forall m :: m in ms ==> b[m] == 0
    requires forall m :: m in ms ==> lo <= ChildScore(b, depth, false, agent, m) <= hi
    requires best == PosInf || (best.Fin? && lo <= best.n <= hi)
    requires best.Fin? || ms != []
    ensures MinScores(b, depth, agent, ms, best).Fin?
    ensures lo <= MinScores(b, depth, agent, ms, best).n <= hi
    decreases |ms|
  {
    if ms != [] {
      assert ms[0] in ms;
      var best' := Min(best, Fin(ChildScore(b, depth, false, agent, ms[0])));
      MinScoresWithin(b, depth, agent, ms[1..], best', lo, hi);
    }
  }

  /**
   * Every score of a node at `depth` lies between `depth - 10` and
   * `10 - depth`; the top is reached exactly when the agent already holds a
   * line and the bottom exactly when only the opponent does, so a win found
   * sooner always outscores one found later, and a loss found later always
   * outscores one found sooner. A game has at most nine moves, hence the
   * bound on `depth`.
   */
  lemma {:induction false} ScoreBounds(b: Board, depth: nat, isMax: bool, agent: int)
    requires IsPlayer(agent) && depth + Empties(b) <= 9
    ensures depth - 10 <= MinimaxScore(b, depth, isMax, agent) <= 10 - depth
    ensures MinimaxScore(b, depth, isMax, agent) == 10 - depth <==> CheckWin(b, agent)
    ensures MinimaxScore(b, depth, isMax, agent) == depth - 10 <==> !CheckWin(b, agent) && CheckWin(b, -agent)
    decreases Empties(b), 1
  {
    var ms := AvailableActions(b);
    if !CheckWin(b, agent) && !CheckWin(b, -agent) && ms != [] {
      forall m | m in ms
        ensures depth - 9 <= ChildScore(b, depth, isMax, agent, m) <= 9 - depth
      {
        ChildScoreBounds(b, depth, isMax, agent, m);
      }
      if isMax {
        MaxScoresWithin(b, depth, agent, ms, NegInf, depth - 9, 9 - depth);
      } else {
        MinScoresWithin(b, depth, agent, ms, PosInf, depth - 9, 9 - depth);
      }
    }
  }

  /** A child is one level deeper, so its score lies one step inside its parent's bounds. */
  lemma {:induction false} ChildScoreBounds(b: Board, depth: nat, isMax: bool, agent: int, m: Index)
    requires IsPlayer(agent) && b[m] == 0 && depth + Empties(b) <= 9
    ensures depth - 9 <= ChildScore(b, depth, isMax, agent, m) <= 9 - depth
    decreases Empties(b), 0
  {
    var p := if isMax then agent else -agent;
    PlaceDecreasesEmpties(b, m, p);
    ScoreBounds(b[m := p], depth + 1, !isMax, agent);
  }

  /** No board has more than nine empty cells. */
  lemma EmptiesAtMostNine(b: Board)
    ensures Empties(b) <= 9
  {
    assert |ZerosFrom(b, 0)| <= 9;
  }

  // ---------------------------------------------------------------------
  // The in-place search
  // ---------------------------------------------------------------------

  /**
   * `minimax` on the board list itself: each move is written into the
   * board, searched, and cleared again, so the board comes back unchanged,
   * and the value is the pruned value of the board it was called with.
   */
  method AlphaBeta(board: array<int>, depth: nat, isMax: bool, agent: int, alpha: ExtInt := NegInf, beta: ExtInt := PosInf)
    returns (v: int)
    requires board.Length == 9 && IsPlayer(agent)
    modifies board
    ensures board[..] == old(board[..])
    ensures v == AlphaBetaValue(old(board[..]), depth, isMax, agent, alpha, beta)
    decreases Empties(board[..]), 1
  {
    var b: Board := board[..];
    if CheckWin(b, agent) {
      return 10 - depth;
    }
    if CheckWin(b, -agent) {
      return depth - 10;
    }
    var moves := AvailableActions(b);
    if moves == [] {
      return 0;
    }
    var best: ExtInt;
    if isMax {
      best := MaxSearch(board, b, depth, agent, moves, alpha, beta);
    } else {
      best := MinSearch(board, b, depth, agent, moves, alpha, beta);
    }
    v := best.n;
  }

  /** The `is_max` loop of `minimax` over `moves`, on the board in place. */
  method MaxSearch(board: array<int>, ghost b: Board, depth: nat, agent: int, moves: seq<Index>, alpha: ExtInt, beta: ExtInt)
    returns (best: ExtInt)
    requires board[..] == b && IsPlayer(agent)
    requires forall m :: m in moves ==> b[m] == 0
    modifies board
    ensures board[..] == b
    ensures best == MaxLoop(b, depth, agent, moves, alpha, beta, NegInf)
    decreases Empties(b), 0
  {
    var a := alpha;
    best := NegInf;
    var i := 0;
    while i < |moves|
      invariant 0 <= i <= |moves|
      invariant board[..] == b
      invariant MaxLoop(b, depth, agent, moves[i..], a, beta, best) == MaxLoop(b, depth, agent, moves, alpha, beta, NegInf)
    {
      var m := moves[i];
      assert m in moves;
      board[m] := agent;
      assert board[..] == b[m := agent];
      PlaceDecreasesEmpties(b, m, agent);
      var score := AlphaBeta(board, depth + 1, false, agent, a, beta);
      assert score == ChildValue(b, depth, true, agent, a, beta, m);
      board[m] := 0;
      assert board[..] == b;
      assert moves[i..][1..] == moves[i + 1..];
      best := Max(best, Fin(score));
      a := Max(a, best);
      if Le(beta, a) {
        return;
      }
      i := i + 1;
    }
  }

  /** The minimizing loop of `minimax` over `moves`, on the board in place. */
  method MinSearch(board: array<int>, ghost b: Board, depth: nat, agent: int, moves: seq<Index>, alpha: ExtInt, beta: ExtInt)
    returns (best: ExtInt)
    requires board[..] == b && IsPlayer(agent)
    requires forall m :: m in moves ==> b[m] == 0
    modifies board
    ensures board[..] == b
    ensures best == MinLoop(b, depth, agent, moves, alpha, beta, PosInf)
    decreases Empties(b), 0
  {
    var bt := beta;
    best := PosInf;
    var i := 0;
    while i < |moves|
      invariant 0 <= i <= |moves|
      invariant board[..] == b
      invariant MinLoop(b, depth, agent, moves[i..], alpha, bt, best) == MinLoop(b, depth, agent, moves, alpha, beta, PosInf)
    {
      var m, o := moves[i], -agent;
      assert m in moves;
      board[m] := o;
      assert board[..] == b[m := o];
      PlaceDecreasesEmpties(b, m, o);
      var score := AlphaBeta(board, depth + 1, true, agent, alpha, bt);
      assert score == ChildValue(b, depth, false, agent, alpha, bt, m);
      board[m] := 0;
      assert board[..] == b;
      assert moves[i..][1..] == moves[i + 1..];
      best := Min(best, Fin(score));
      bt := Min(bt, best);
      if Le(bt, alpha) {
        return;
      }
      i := i + 1;
    }
  }

  // ---------------------------------------------------------------------
  // The move choice
  // ---------------------------------------------------------------------

  /** The score `minimax_move` gives to the agent marking `m`: the opponent moves next, at depth 0. */
  function RootScore(b: Board, m: Index, agent: int): int
    requires IsPlayer(agent)
  {
    MinimaxScore(b[m := agent], 0, false, agent)
  }

  /**
   * `m` is what `minimax_move` picks: an empty cell of greatest score, and
   * every empty cell before it scores strictly less (only a strictly
   * greater score replaces the best, so ties go to the lowest index).
   */
  predicate IsBestMove(b: Board, agent: int, m: Index)
    requires IsPlayer(agent)
  {
    && b[m] == 0
    && (forall k: Index :: b[k] == 0 ==> RootScore(b, k, agent) <= RootScore(b, m, agent))
    && (forall k: Index :: k < m && b[k] == 0 ==> RootScore(b, k, agent) < RootScore(b, m, agent))
  }

  /** The scores of `moves`, in order, as the choice loop sees them. */
  function RootScores(b: Board, agent: int, moves: seq<Index>): (r: seq<ExtInt>)
    requires IsPlayer(agent)
    ensures |r| == |moves|
    ensures forall j :: 0 <= j < |moves| ==> r[j] == Fin(RootScore(b, moves[j], agent))
  {
    if moves == [] then [] else [Fin(RootScore(b, moves[0], agent))] + RootScores(b, agent, moves[1..])
  }

  /** Once every empty cell is scanned, the first strict maximum is the best move. */
  lemma FirstMaxIsBestMove(b: Board, agent: int, moves: seq<Index>, bi: nat, best: ExtInt)
    requires IsPlayer(agent) && moves == AvailableActions(b)
    requires FirstMaxSoFar(RootScores(b, agent, moves), |moves|, bi, best)
    ensures IsBestMove(b, agent, moves[bi])
  {
    var scores := RootScores(b, agent, moves);
    assert moves[bi] in moves;
    forall k: Index | b[k] == 0 ensures RootScore(b, k, agent) <= RootScore(b, moves[bi], agent) {
      assert k in moves;
      var j :| 0 <= j < |moves| && moves[j] == k;
      assert Le(scores[j], best);
    }
    forall k: Index | k < moves[bi] && b[k] == 0 ensures RootScore(b, k, agent) < RootScore(b, moves[bi], agent) {
      assert k in moves;
      var j :| 0 <= j < |moves| && moves[j] == k;
      assert j < bi;
      assert Lt(scores[j], best);
    }
  }

  /**
   * `minimax_move`: scores each empty cell by marking it, running the
   * pruned search with the full window, and clearing it again. The board
   * comes back unchanged; there is no move exactly when the board is full,
   * and otherwise the move is the best one by the unpruned scores.
   */
  method MinimaxMove(board: array<int>, agent: int) returns (move: Option<Index>)
    requires board.Length == 9 && IsPlayer(agent)
    modifies board
    ensures board[..] == old(board[..])
    ensures move.None? <==> CheckDraw(old(board[..]))
    ensures move.Some? ==> IsBestMove(old(board[..]), agent, move.value)
  {
    var b: Board := board[..];
    var bestScore := NegInf;
    move := None;
    var moves := AvailableActions(b);
    ghost var scores := RootScores(b, agent, moves);
    ghost var bi := 0;
    for i := 0 to |moves|
      invariant board[..] == b
      invariant move.None? <==> i == 0
      invariant move.None? ==> bestScore == NegInf
      invariant move.Some? ==> FirstMaxSoFar(scores, i, bi, bestScore) && move.value == moves[bi]
    {
      var m := moves[i];
      assert m in moves;
      board[m] := agent;
      assert board[..] == b[m := agent];
      var score := AlphaBeta(board, 0, false, agent);
      board[m] := 0;
      assert board[..] == b;
      FullWindow(b[m := agent], 0, false, agent);
      assert Fin(score) == scores[i];
      FirstMaxStep(scores, i, bi, bestScore);
      if Lt(bestScore, Fin(score)) {
        bestScore := Fin(score);
        move := Some(m);
        bi := i;
      }
    }
    if move.Some? {
      FirstMaxIsBestMove(b, agent, moves, bi, bestScore);
    }
  }

  /**
   * The search takes an immediate win: if marking some empty cell gives the
   * agent a line, the chosen move gives the agent a line, and no empty cell
   * before it does.
   */
  lemma ImmediateWinChosen(b: Board, agent: int, m: Index, k: Index)
    requires IsPlayer(agent) && IsBestMove(b, agent, m)
    requires b[k] == 0 && CheckWin(b[k := agent], agent)
    ensures CheckWin(b[m := agent], agent)
    ensures forall j: Index :: j < m && b[j] == 0 ==> !CheckWin(b[j := agent], agent)
  {
    EmptiesAtMostNine(b[k := agent]);
    ScoreBounds(b[k := agent], 0, false, agent);
    EmptiesAtMostNine(b[m := agent]);
    ScoreBounds(b[m := agent], 0, false, agent);
    forall j: Index | j < m && b[j] == 0 ensures !CheckWin(b[j := agent], agent) {
      EmptiesAtMostNine(b[j := agent]);
      ScoreBounds(b[j := agent], 0, false, agent);
    }
  }
}
