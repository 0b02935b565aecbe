/**
 * The tabular Q-learning agent of agent.py (and its twin in app.py): a
 * table from a state (the board as a tuple) to a table from action to
 * value, where a pair never written reads as 0.0; an epsilon-greedy choice
 * of action; and the one-step update `Q[s][a] += alpha * (target - Q[s][a])`.
 *
 * Values and rates are reals. The draws of `random.random()` and
 * `random.choice` are parameters.
 */
module QLearning {
  import opened Wrappers

  /** `Q[state][action]`, for the pairs written so far. */
  type QTable = map<seq<int>, map<int, real>>

  /** Reading `Q[s][a]` through the two default dictionaries: 0.0 when unseen. */
  function Lookup(q: QTable, s: seq<int>, a: int): real {
    if s in q && a in q[s] then q[s][a] else 0.0
  }

  /** The greatest value of the actions `xs` in state `s`. */
  function MaxQ(q: QTable, s: seq<int>, xs: seq<int>): (r: real)
    requires xs != []
    ensures forall a :: a in xs ==> Lookup(q, s, a) <= r
    ensures exists a :: a in xs && Lookup(q, s, a) == r
  {
    if |xs| == 1 then Lookup(q, s, xs[0])
    else
      var m := MaxQ(q, s, xs[..|xs| - 1]);
      var v := Lookup(q, s, xs[|xs| - 1]);
      assert xs == xs[..|xs| - 1] + [xs[|xs| - 1]];
      if v > m then v else m
  }

  /** The actions of `xs` whose value is `m`, in list order. */
  function Ties(q: QTable, s: seq<int>, xs: seq<int>, m: real): (r: seq<int>)
    ensures forall a {:trigger a in r} {:trigger a in xs} :: a in r <==> a in xs && Lookup(q, s, a) == m
  {
    if xs == [] then []
    else
      var last := xs[|xs| - 1];
      assert xs == xs[..|xs| - 1] + [last];
      Ties(q, s, xs[..|xs| - 1], m) + (if Lookup(q, s, last) == m then [last] else [])
  }

  /** `best_actions` at the end of the exploit loop: the actions of greatest value. */
  function BestActions(q: QTable, s: seq<int>, xs: seq<int>): seq<int>
    requires xs != []
  {
    Ties(q, s, xs, MaxQ(q, s, xs))
  }

  /**
   * The greedy set is never empty, holds exactly the actions of greatest
   * value, and every one of them is worth at least as much as any action.
   */
  lemma BestActionsAreGreedy(q: QTable, s: seq<int>, xs: seq<int>)
    requires xs != []
    ensures BestActions(q, s, xs) != []
    ensures forall a :: a in BestActions(q, s, xs) <==> a in xs && Lookup(q, s, a) == MaxQ(q, s, xs)
    ensures forall a, b :: a in BestActions(q, s, xs) && b in xs ==> Lookup(q, s, b) <= Lookup(q, s, a)
  {
    var m := MaxQ(q, s, xs);
    var a :| a in xs && Lookup(q, s, a) == m;
    assert a in BestActions(q, s, xs);
  }

  /** `max(actions, key=lambda a: q[a])`: the position of the first action of greatest value. */
  function FirstMaxIndex(q: QTable, s: seq<int>, xs: seq<int>): (i: nat)
    requires xs != []
    ensures i < |xs|
    ensures forall j :: 0 <= j < |xs| ==> Lookup(q, s, xs[j]) <= Lookup(q, s, xs[i])
    ensures forall j :: 0 <= j < i ==> Lookup(q, s, xs[j]) < Lookup(q, s, xs[i])
  {
    if |xs| == 1 then 0
    else
      var k := FirstMaxIndex(q, s, xs[..|xs| - 1]);
      if Lookup(q, s, xs[|xs| - 1]) > Lookup(q, s, xs[k]) then |xs| - 1 else k
  }

  /** The first greatest action (app.py) is one of the greedy choices (agent.py). */
  lemma FirstMaxIsGreedy(q: QTable, s: seq<int>, xs: seq<int>)
    requires xs != []
    ensures xs[FirstMaxIndex(q, s, xs)] in BestActions(q, s, xs)
  {
    var i := FirstMaxIndex(q, s, xs);
    var m := MaxQ(q, s, xs);
    var a :| a in xs && Lookup(q, s, a) == m;
    var j :| 0 <= j < |xs| && xs[j] == a;
    assert Lookup(q, s, xs[j]) <= Lookup(q, s, xs[i]);
  }

  /** The target: the reward alone on a terminal step, else plus the discounted best next value. */
  function Target(q: QTable, gamma: real, reward: real, nextState: seq<int>, nextActions: seq<int>): real {
    if nextActions == [] then reward else reward + gamma * MaxQ(q, nextState, nextActions)
  }

  /** The new value: `cur` moved the fraction `alpha` of the way towards `target`. */
  function Blend(cur: real, alpha: real, target: real): real {
    cur + alpha * (target - cur)
  }

  /**
   * With a learning rate in [0, 1] the new value lies between the old value
   * and the target; rate 1 gives the target and rate 0 the old value.
   */
  lemma BlendBetween(cur: real, alpha: real, target: real)
    requires 0.0 <= alpha <= 1.0
    ensures cur <= target ==> cur <= Blend(cur, alpha, target) <= target
    ensures target <= cur ==> target <= Blend(cur, alpha, target) <= cur
    ensures alpha == 1.0 ==> Blend(cur, alpha, target) == target
    ensures alpha == 0.0 ==> Blend(cur, alpha, target) == cur
  {
    var d := target - cur;
    if d >= 0.0 {
      assert 0.0 <= alpha * d <= d by {
        assert alpha * d <= 1.0 * d;
      }
    } else {
      assert d <= alpha * d <= 0.0 by {
        assert alpha * d >= 1.0 * d;
      }
    }
  }

  /** The table after `update`: only `Q[state][action]` is written. */
  function Updated(q: QTable, alpha: real, gamma: real, s: seq<int>, a: int, reward: real,
                   nextState: seq<int>, nextActions: seq<int>): QTable
  {
    var row := if s in q then q[s] else map[];
    q[s := row[a := Blend(Lookup(q, s, a), alpha, Target(q, gamma, reward, nextState, nextActions))]]
  }

  /**
   * `update` writes the blend of the old value and the target, computed on
   * the table before the write, at (`s`, `a`), and every other pair reads
   * as before (an unseen pair still reads 0.0). On a terminal step the new
   * value does not depend on `gamma` or the next state.
   */
  lemma UpdateChangesOnePair(q: QTable, alpha: real, gamma: real, s: seq<int>, a: int, reward: real,
                             nextState: seq<int>, nextActions: seq<int>)
    ensures var q' := Updated(q, alpha, gamma, s, a, reward, nextState, nextActions);
      && Lookup(q', s, a) == Lookup(q, s, a) + alpha * (Target(q, gamma, reward, nextState, nextActions) - Lookup(q, s, a))
      && (nextActions == [] ==> Lookup(q', s, a) == Lookup(q, s, a) + alpha * (reward - Lookup(q, s, a)))
      && (nextActions != [] ==> Target(q, gamma, reward, nextState, nextActions)
                                == reward + gamma * MaxQ(q, nextState, nextActions))
      && forall s', a' :: (s', a') != (s, a) ==> Lookup(q', s', a') == Lookup(q, s', a')
  {
  }

  /** The learner's table and its three rates. */
  class QLearningAgent {
    var Q: QTable
    var alpha: real
    var gamma: real
    var epsilon: real

    /**
     * `__init__`: an empty table, in which every pair reads 0.0. The
     * defaults are agent.py's; app.py's differ only in `epsilon`, 0.0.
     */
    constructor (alpha: real := 0.5, gamma: real := 0.9, epsilon: real := 0.1)
      ensures this.alpha == alpha && this.gamma == gamma && this.epsilon == epsilon
      ensures forall s, a :: Lookup(Q, s, a) == 0.0
    {
      Q := map[];
      this.alpha := alpha;
      this.gamma := gamma;
      this.epsilon := epsilon;
    }

    /**
     * `choose_action` of agent.py. `draw` is the value `random.random()`
     * returned and `pick` the position `random.choice` draws, reduced modulo
     * the length of the list it chooses from. Below `epsilon` the choice is
     * among all available actions; otherwise the exploit loop collects the
     * actions of greatest value and the choice is among them. The list must
     * not be empty: `random.choice` raises on an empty list in both branches.
     */
    method ChooseAction(state: seq<int>, actions: seq<int>, draw: real, pick: nat) returns (action: int)
      requires actions != [] && 0.0 <= draw < 1.0
      ensures action in actions
      ensures draw < epsilon ==> action == actions[pick % |actions|]
      ensures draw >= epsilon ==> action in BestActions(Q, state, actions)
      ensures draw >= epsilon ==> action == BestActions(Q, state, actions)[pick % |BestActions(Q, state, actions)|]
      ensures epsilon <= 0.0 ==> action in BestActions(Q, state, actions)
    {
      if draw < epsilon {
        return actions[pick % |actions|];
      }
      var best := GreedyActions(state, actions);
      BestActionsAreGreedy(Q, state, actions);
      action := best[pick % |best|];
    }

    /**
     * The exploit loop of `choose_action`: `max_q` starts below every value
     * (`None` here), a greater value restarts `best_actions`, an equal one
     * is appended. It ends with the actions of greatest value, in list order.
     */
    method GreedyActions(state: seq<int>, actions: seq<int>) returns (best: seq<int>)
      requires actions != []
      ensures best == BestActions(Q, state, actions)
    {
      var maxQ: Option<real> := None;
      best := [];
      for i := 0 to |actions|
        invariant maxQ.None? <==> i == 0
        invariant maxQ.Some? ==> maxQ.value == MaxQ(Q, state, actions[..i])
        invariant maxQ.Some? ==> best == Ties(Q, state, actions[..i], maxQ.value)
      {
        var value := Lookup(Q, state, actions[i]);
        assert actions[..i + 1] == actions[..i] + [actions[i]];
        if maxQ.None? || value > maxQ.value {
          if maxQ.Some? {
            NoTiesAbove(Q, state, actions[..i], value);
            MaxQSnoc(Q, state, actions[..i], actions[i]);
          }
          TiesSnoc(Q, state, actions[..i], actions[i], value);
          maxQ := Some(value);
          best := [actions[i]];
        } else {
          MaxQSnoc(Q, state, actions[..i], actions[i]);
          TiesSnoc(Q, state, actions[..i], actions[i], maxQ.value);
          if value == maxQ.value {
            best := best + [actions[i]];
          }
        }
      }
      assert actions[..|actions|] == actions;
    }

    /**
     * `choose_action` of app.py: the same explore branch, and otherwise the
     * first action of greatest value.
     */
    method ChooseActionFirstMax(state: seq<int>, actions: seq<int>, draw: real, pick: nat) returns (action: int)
      requires actions != [] && 0.0 <= draw < 1.0
      ensures action in actions
      ensures draw < epsilon ==> action == actions[pick % |actions|]
      ensures draw >= epsilon ==> action == actions[FirstMaxIndex(Q, state, actions)]
    {
      if draw < epsilon {
        action := actions[pick % |actions|];
      } else {
        action := actions[FirstMaxIndex(Q, state, actions)];
      }
    }

    /** `update`: one Bellman step on the table, in place. */
    method Update(state: seq<int>, action: int, reward: real, nextState: seq<int>, nextActions: seq<int>)
      modifies this`Q
      ensures Q == Updated(old(Q), alpha, gamma, state, action, reward, nextState, nextActions)
    {
      var cur := Lookup(Q, state, action);
      var target: real;
      if nextActions == [] {
        target := reward;
      } else {
        target := reward + gamma * MaxQ(Q, nextState, nextActions);
      }
      ghost var q := Q;
      var row := if state in Q then Q[state] else map[];
      assert cur + alpha * (target - cur) == Blend(Lookup(q, state, action), alpha, Target(q, gamma, reward, nextState, nextActions));
      Q := Q[state := row[action := cur + alpha * (target - cur)]];
    }
  }

  /** The maximum after one more action. */
  lemma MaxQSnoc(q: QTable, s: seq<int>, xs: seq<int>, x: int)
    requires xs != []
    ensures MaxQ(q, s, xs + [x]) == if Lookup(q, s, x) > MaxQ(q, s, xs) then Lookup(q, s, x) else MaxQ(q, s, xs)
  {
    assert (xs + [x])[..|xs|] == xs;
  }

  /** The ties after one more action. */
  lemma TiesSnoc(q: QTable, s: seq<int>, xs: seq<int>, x: int, m: real)
    ensures Ties(q, s, xs + [x], m) == Ties(q, s, xs, m) + if Lookup(q, s, x) == m then [x] else []
  {
    assert (xs + [x])[..|xs|] == xs;
  }

  /** No action reaches a value above all of theirs, so none ties with it. */
  lemma {:induction false} NoTiesAbove(q: QTable, s: seq<int>, xs: seq<int>, v: real)
    requires forall a :: a in xs ==> Lookup(q, s, a) < v
    ensures Ties(q, s, xs, v) == []
  {
    if xs != [] {
      var pre := xs[..|xs| - 1];
      assert forall a :: a in pre ==> a in xs;
      NoTiesAbove(q, s, pre, v);
      assert xs[|xs| - 1] in xs;
    }
  }
}
