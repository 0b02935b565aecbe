/**
 * minimax.py: exhaustive minimax over environment states, each branch on a
 * clone, scoring a finished game +1 / -1 / 0 from the agent's side. The
 * recursion `_minimax` is a function on environment values; `select_move`
 * is a method that clones and steps the engine object it is given.
 */
module Minimax {
  import opened Wrappers
  import opened Extended
  import opened FirstMax
  import opened Board
  import opened Env

  /** `_evaluate`: +1 exactly when the agent won, -1 exactly when its opponent did, else 0. */
  function Evaluate(e: Env, agent: int): (r: int)
    requires IsPlayer(agent)
    ensures -1 <= r <= 1
    ensures r == 1 <==> e.winner == Some(agent)
    ensures r == -1 <==> e.winner == Some(-agent)
  {
    if e.winner == Some(agent) then 1
    else if e.winner == Some(-agent) then -1
    else 0
  }

  /** The clone after `step(m, p)`. */
  function Child(e: Env, m: Index, p: int): Env {
    Transition(e, m, p).1
  }

  /** `_minimax(env, maximizing)`. */
  function Minimax(e: Env, maximizing: bool, agent: int): ExtInt
    requires IsPlayer(agent)
    decreases Empties(e.board), 1
  {
    if e.done then Fin(Evaluate(e, agent))
    else if maximizing then MaxOver(e, agent, AvailableActions(e.board), NegInf)
    else MinOver(e, agent, AvailableActions(e.board), PosInf)
  }

  /** The maximizing loop: `best = max(best, _minimax(child, False))` over the moves `ms`. */
  function MaxOver(e: Env, agent: int, ms: seq<Index>, best: ExtInt): ExtInt
    requires IsPlayer(agent) && !e.done
    requires forall m :: m in ms ==> e.board[m] == 0
    decreases Empties(e.board), 0, |ms|
  {
    if ms == [] then best
    else
      PlaceDecreasesEmpties(e.board, ms[0], agent);
      MaxOver(e, agent, ms[1..], Max(best, Minimax(Child(e, ms[0], agent), false, agent)))
  }

  /** The minimizing loop: `best = min(best, _minimax(child, True))`, the opponent moving. */
  function MinOver(e: Env, agent: int, ms: seq<Index>, best: ExtInt): ExtInt
    requires IsPlayer(agent) && !e.done
    requires forall m :: m in ms ==> e.board[m] == 0
    decreases Empties(e.board), 0, |ms|
  {
    if ms == [] then best
    else
      PlaceDecreasesEmpties(e.board, ms[0], -agent);
      MinOver(e, agent, ms[1..], Min(best, Minimax(Child(e, ms[0], -agent), true, agent)))
  }

  /** The score of a child, as the loops read it. */
  function ChildValue(e: Env, m: Index, maximizing: bool, agent: int): ExtInt
    requires IsPlayer(agent) && !e.done && e.board[m] == 0
  {
    PlaceDecreasesEmpties(e.board, m, if maximizing then agent else -agent);
    Minimax(Child(e, m, if maximizing then agent else -agent), !maximizing, agent)
  }

  /** The maximizing loop returns the greatest of `best` and the children's values. */
  lemma {:induction false} MaxOverIsMax(e: Env, agent: int, ms: seq<Index>, best: ExtInt)
    requires IsPlayer(agent) && !e.done
    requires forall m :: m in ms ==> e.board[m] == 0
    ensures var r := MaxOver(e, agent, ms, best);
      && Le(best, r)
      && (forall m :: m in ms ==> Le(ChildValue(e, m, true, agent), r))
      && (r == best || exists m :: m in ms && r == ChildValue(e, m, true, agent))
    decreases |ms|
  {
    if ms != [] {
      var best' := Max(best, ChildValue(e, ms[0], true, agent));
      MaxOverIsMax(e, agent, ms[1..], best');
      var r := MaxOver(e, agent, ms[1..], best');
      assert r == MaxOver(e, agent, ms, best);
      forall m | m in ms ensures Le(ChildValue(e, m, true, agent), r) {
        if m == ms[0] {
          LeTrans(ChildValue(e, m, true, agent), best', r);
        } else {
          assert m in ms[1..];
        }
      }
      LeTrans(best, best', r);
      if r != best' {
        var m :| m in ms[1..] && r == ChildValue(e, m, true, agent);
        assert m in ms;
      } else if best' != best {
        assert best' == ChildValue(e, ms[0], true, agent);
      }
    }
  }

  /** The minimizing loop returns the least of `best` and the children's values. */
  lemma {:induction false} MinOverIsMin(e: Env, agent: int, ms: seq<Index>, best: ExtInt)
    requires IsPlayer(agent) && !e.done
    requires forall m :: m in ms ==> e.board[m] == 0
    ensures var r := MinOver(e, agent, ms, best);
      && Le(r, best)
      && (forall m :: m in ms ==> Le(r, ChildValue(e, m, false, agent)))
      && (r == best || exists m :: m in ms && r == ChildValue(e, m, false, agent))
    decreases |ms|
  {
    if ms != [] {
      var best' := Min(best, ChildValue(e, ms[0], false, agent));
      MinOverIsMin(e, agent, ms[1..], best');
      var r := MinOver(e, agent, ms[1..], best');
      assert r == MinOver(e, agent, ms, best);
      forall m | m in ms ensures Le(r, ChildValue(e, m, false, agent)) {
        if m == ms[0] {
          LeTrans(r, best', ChildValue(e, m, false, agent));
        } else {
          assert m in ms[1..];
        }
      }
      LeTrans(r, best', best);
      if r != best' {
        var m :| m in ms[1..] && r == ChildValue(e, m, false, agent);
        assert m in ms;
      } else if best' != best {
        assert best' == ChildValue(e, ms[0], false, agent);
      }
    }
  }

  /**
   * On a running game with a free cell, `_minimax` is the maximum (agent to
   * move) or the minimum (opponent to move) of the children's values.
   */
  lemma MinimaxIsMaxMin(e: Env, maximizing: bool, agent: int)
    requires IsPlayer(agent) && !e.done && !CheckDraw(e.board)
    ensures var r := Minimax(e, maximizing, agent);
      && (forall m: Index :: e.board[m] == 0 ==>
            if maximizing then Le(ChildValue(e, m, true, agent), r) else Le(r, ChildValue(e, m, false, agent)))
      && (exists m: Index :: e.board[m] == 0 && r == ChildValue(e, m, maximizing, agent))
  {
    var ms := AvailableActions(e.board);
    var r := Minimax(e, maximizing, agent);
    assert ms[0] in ms;
    if maximizing {
      MaxOverIsMax(e, agent, ms, NegInf);
      if r == NegInf {
        assert Le(ChildValue(e, ms[0], true, agent), r);
      }
    } else {
      MinOverIsMin(e, agent, ms, PosInf);
      if r == PosInf {
        assert Le(r, ChildValue(e, ms[0], false, agent));
      }
    }
  }

  /**
   * `_minimax` returns a finite score in {-1, 0, 1} from every finished game
   * and every running game with a free cell, which includes every state the
   * step rule produces.
   */
  lemma {:induction false} MinimaxInRange(e: Env, maximizing: bool, agent: int)
    requires IsPlayer(agent) && Live(e)
    ensures Minimax(e, maximizing, agent).Fin?
    ensures -1 <= Minimax(e, maximizing, agent).n <= 1
    decreases Empties(e.board)
  {
    if !e.done {
      forall m: Index | e.board[m] == 0
        ensures ChildValue(e, m, maximizing, agent).Fin?
        ensures -1 <= ChildValue(e, m, maximizing, agent).n <= 1
      {
        var p := if maximizing then agent else -agent;
        PlaceDecreasesEmpties(e.board, m, p);
        StepLive(e, m, p);
        MinimaxInRange(Child(e, m, p), !maximizing, agent);
      }
      MinimaxIsMaxMin(e, maximizing, agent);
    }
  }

  /** The score `select_move` gives to the agent playing `m`. */
  function RootScore(e: Env, m: Index, agent: int): ExtInt
    requires IsPlayer(agent) && !e.done && e.board[m] == 0
  {
    ChildValue(e, m, true, agent)
  }

  /**
   * `m` is what `select_move` picks: an empty cell whose score is maximal,
   * and every empty cell before it scores strictly less (ties go to the
   * lowest index, because only a strictly greater score replaces the best).
   */
  predicate IsBestRootMove(e: Env, agent: int, m: Index)
    requires IsPlayer(agent) && !e.done
  {
    && e.board[m] == 0
    && (forall k: Index :: e.board[k] == 0 ==> Le(RootScore(e, k, agent), RootScore(e, m, agent)))
    && (forall k: Index :: k < m && e.board[k] == 0 ==> Lt(RootScore(e, k, agent), RootScore(e, m, agent)))
  }

  /** On a running game every root move scores a finite value. */
  lemma RootScoreFinite(e: Env, agent: int, m: Index)
    requires IsPlayer(agent) && !e.done && e.board[m] == 0
    ensures RootScore(e, m, agent).Fin?
  {
    StepLive(e, m, agent);
    PlaceDecreasesEmpties(e.board, m, agent);
    MinimaxInRange(Child(e, m, agent), false, agent);
  }

  /** The scores `select_move` computes for the moves `moves`, in order. */
  function RootScores(e: Env, agent: int, moves: seq<Index>): (r: seq<ExtInt>)
    requires IsPlayer(agent) && !e.done
    requires forall m :: m in moves ==> e.board[m] == 0
    ensures |r| == |moves|
    ensures forall j :: 0 <= j < |moves| ==> r[j] == RootScore(e, moves[j], agent)
  {
    if moves == [] then [] else [RootScore(e, moves[0], agent)] + RootScores(e, agent, moves[1..])
  }

  /** Once all moves are scanned, the best so far is the best root move. */
  lemma FirstMaxIsBest(e: Env, agent: int, moves: seq<Index>, bi: nat, best: ExtInt)
    requires IsPlayer(agent) && !e.done && moves == AvailableActions(e.board)
    requires FirstMaxSoFar(RootScores(e, agent, moves), |moves|, bi, best)
    ensures IsBestRootMove(e, agent, moves[bi])
  {
    var scores := RootScores(e, agent, moves);
    forall k: Index | e.board[k] == 0 ensures Le(RootScore(e, k, agent), best) {
      assert k in moves;
      var j :| 0 <= j < |moves| && moves[j] == k;
      assert Le(scores[j], best);
    }
    forall k: Index | k < moves[bi] && e.board[k] == 0 ensures Lt(RootScore(e, k, agent), best) {
      assert k in moves;
      var j :| 0 <= j < |moves| && moves[j] == k;
      assert j < bi;
      assert Lt(scores[j], best);
    }
  }

  /**
   * `select_move`: every branch steps a clone, so `env` itself is not
   * modified. It returns None exactly when no cell is empty, and otherwise
   * the best root move. It is called on a running game (on a finished one
   * with a free cell the clone's `step` raises).
   */
  method SelectMove(env: TicTacToeEnv, agent: int) returns (move: Option<Index>)
    requires IsPlayer(agent)
    requires !env.done || AvailableActions(env.board) == []
    ensures move.None? <==> AvailableActions(env.board) == []
    ensures move.Some? ==> !env.done && IsBestRootMove(env.State(), agent, move.value)
  {
    var bestScore := NegInf;
    move := None;
    var moves := AvailableActions(env.board);
    ghost var e := env.State();
    ghost var scores := if e.done then [] else RootScores(e, agent, moves);
    ghost var bi := 0;
    for i := 0 to |moves|
      invariant env.State() == e
      invariant moves != [] ==> !e.done && |scores| == |moves|
      invariant move.None? <==> i == 0
      invariant move.None? ==> bestScore == NegInf
      invariant move.Some? ==> FirstMaxSoFar(scores, i, bi, bestScore) && move.value == moves[bi]
    {
      var m := moves[i];
      var envCopy := env.Clone();
      var _ := envCopy.Step(m, agent);
      var score := Minimax(envCopy.State(), false, agent);
      assert score == scores[i];
      RootScoreFinite(e, agent, m);
      FirstMaxStep(scores, i, bi, bestScore);
      if Lt(bestScore, score) {
        bestScore := score;
        move := Some(m);
        bi := i;
      }
    }
    if move.Some? {
      FirstMaxIsBest(e, agent, moves, bi, bestScore);
    }
  }
}
