/**
 * The game engine of env.py: a board, a `done` flag and a `winner`,
 * changed in place by `reset` and `step`. `Transition` is the step rule
 * on values; the class `TicTacToeEnv` holds the mutable fields and its
 * `Step` is proved to follow that rule.
 */
module Env {
  import opened Wrappers
  import opened Board

  /** The observable state of an environment: board, done flag, winner. */
  datatype Env = Env(board: Board, done: bool, winner: Option<int>)

  /** The dictionary `step` returns beside the reward. */
  datatype Info =
    | Invalid       // {"invalid": True}: the mover chose an occupied cell
    | Won(player: int)  // {"winner": player}
    | Draw          // {"draw": True}
    | Ongoing       // {}

  /** What `step` hands back: the ValueError, or (state, reward, done, info). */
  datatype StepResult =
    | GameOver
    | Stepped(state: seq<int>, reward: int, done: bool, info: Info)

  /** The state `reset` produces. */
  const Initial: Env := Env(EmptyBoard, false, None)

  /**
   * The step rule. A finished game refuses the move and changes nothing.
   * A move onto an occupied cell forfeits: the game ends, the other player
   * wins and the mover gets -1, the board stays as it was. Otherwise the
   * marker is placed, and a line for the mover is checked before a full
   * board.
   */
  function Transition(e: Env, action: Index, player: int): (StepResult, Env) {
    if e.done then (GameOver, e)
    else if e.board[action] != 0 then
      (Stepped(e.board, -1, true, Invalid), Env(e.board, true, Some(-player)))
    else
      var b := e.board[action := player];
      if CheckWin(b, player) then (Stepped(b, 1, true, Won(player)), Env(b, true, Some(player)))
      else if CheckDraw(b) then (Stepped(b, 0, true, Draw), Env(b, true, Some(0)))
      else (Stepped(b, 0, false, Ongoing), Env(b, false, e.winner))
  }

  /**
   * What holds of every state reachable from `reset` by `step`: cells hold
   * 1, -1 or 0; a winner is recorded exactly when the game is over, and it
   * is a player or 0; a game still running has no line for either player
   * and at least one empty cell.
   */
  predicate Consistent(e: Env) {
    && (forall i :: 0 <= i < 9 ==> e.board[i] == 0 || IsPlayer(e.board[i]))
    && (e.done <==> e.winner.Some?)
    && (e.winner.Some? ==> e.winner.value == 0 || IsPlayer(e.winner.value))
    && (!e.done ==> !CheckWin(e.board, 1) && !CheckWin(e.board, -1) && !CheckDraw(e.board))
  }

  lemma InitialConsistent()
    ensures Consistent(Initial)
  {
    assert Initial.board[0] == 0;
    assert !CheckDraw(Initial.board);
    assert !CheckWin(Initial.board, 1) by {
      forall k | 0 <= k < |Wins| ensures !Holds(Initial.board, Wins[k], 1) { }
    }
    assert !CheckWin(Initial.board, -1) by {
      forall k | 0 <= k < |Wins| ensures !Holds(Initial.board, Wins[k], -1) { }
    }
  }

  /** Every step by a player keeps a reachable state reachable. */
  lemma StepPreservesConsistent(e: Env, action: Index, player: int)
    requires Consistent(e) && IsPlayer(player)
    ensures Consistent(Transition(e, action, player).1)
  {
    if !e.done && e.board[action] == 0 {
      PlaceKeepsOtherLines(e.board, action, player, -player);
    }
  }

  /**
   * The outcome of a step, read from the reward and the info: +1 exactly
   * when the mover now holds a line (even on a full board), -1 exactly on a
   * forfeit, in which case the other player wins and the board is kept;
   * 0 with `done` exactly on a draw, and 0 without `done` when the move
   * neither completes a line nor fills the board; on an empty cell only
   * that cell changes, to the mover's marker. The info names the outcome.
   */
  lemma StepOutcome(e: Env, action: Index, player: int)
    requires !e.done
    ensures var (r, e') := Transition(e, action, player);
      && r.Stepped? && r.state == e'.board && r.done == e'.done
      && (r.reward == -1 <==> e.board[action] != 0)
      && (r.reward == -1 ==> e'.board == e.board && e'.done && e'.winner == Some(-player) && r.info == Invalid)
      && (e.board[action] == 0 ==>
            e'.board[action] == player && forall i :: 0 <= i < 9 && i != action ==> e'.board[i] == e.board[i])
      && (r.reward == 1 <==> e.board[action] == 0 && CheckWin(e'.board, player))
      && (r.reward == 1 ==> e'.done && e'.winner == Some(player) && r.info == Won(player))
      && (r.reward == 0 && r.done <==> e.board[action] == 0 && !CheckWin(e'.board, player) && CheckDraw(e'.board))
      && (r.reward == 0 && r.done ==> e'.winner == Some(0) && r.info == Draw)
      && (e.board[action] == 0 && !CheckWin(e'.board, player) && !CheckDraw(e'.board) ==>
            r.reward == 0 && !r.done && !e'.done && r.info == Ongoing)
      && (!r.done ==> e'.winner == e.winner)
  {
  }

  /**
   * A running game has a free cell. The step rule ends every game that fills
   * the board, so whatever it is applied to, its result is of this kind.
   */
  predicate Live(e: Env) {
    e.done || !CheckDraw(e.board)
  }

  lemma StepLive(e: Env, action: Index, player: int)
    ensures Live(Transition(e, action, player).1)
  {
  }

  /**
   * The search explores only cells from `available_actions`, so it never
   * reaches the forfeit branch: the step places the marker and nothing else
   * on the board changes.
   */
  lemma AvailableMoveNeverForfeits(e: Env, m: Index, p: int)
    requires !e.done && m in AvailableActions(e.board) && IsPlayer(p)
    ensures Transition(e, m, p).0.Stepped? && Transition(e, m, p).0.info != Invalid
    ensures Transition(e, m, p).1.board == e.board[m := p]
    ensures Empties(Transition(e, m, p).1.board) == Empties(e.board) - 1
  {
    PlaceDecreasesEmpties(e.board, m, p);
  }

  /** `TicTacToeEnv`: the engine object with its three mutable fields. */
  class TicTacToeEnv {
    var board: Board
    var done: bool
    var winner: Option<int>

    /** The abstract value of the object. */
    function State(): Env
      reads this
    {
      Env(board, done, winner)
    }

    /** The object is in a state reachable by `reset` and `step`. */
    ghost predicate Valid()
      reads this
    {
      Consistent(State())
    }

    /** `__init__` calls `reset`. */
    constructor ()
      ensures State() == Initial && Valid()
    {
      board := EmptyBoard;
      done := false;
      winner := None;
      InitialConsistent();
    }

    /** `reset`: empties the board, clears `done` and `winner`, returns the board. */
    method Reset() returns (state: seq<int>)
      modifies this
      ensures State() == Initial && Valid()
      ensures state == EmptyBoard
    {
      board := EmptyBoard;
      done := false;
      winner := None;
      InitialConsistent();
      state := board;
    }

    /** `step`: applies the step rule in place. */
    method Step(action: Index, player: int) returns (r: StepResult)
      modifies this
      ensures (r, State()) == Transition(old(State()), action, player)
      ensures old(Valid()) && IsPlayer(player) ==> Valid()
    {
      ghost var e := State();
      if IsPlayer(player) && Consistent(e) {
        StepPreservesConsistent(e, action, player);
      }
      if done {
        return GameOver;
      }
      if board[action] != 0 {
        done := true;
        winner := Some(-player);
        return Stepped(board, -1, true, Invalid);
      }
      board := board[action := player];
      if CheckWin(board, player) {
        done := true;
        winner := Some(player);
        return Stepped(board, 1, true, Won(player));
      }
      if CheckDraw(board) {
        done := true;
        winner := Some(0);
        return Stepped(board, 0, true, Draw);
      }
      r := Stepped(board, 0, false, Ongoing);
    }

    /** `clone`: a new object with the same board, `done` and `winner`. */
    method Clone() returns (c: TicTacToeEnv)
      ensures fresh(c) && c.State() == State()
    {
      c := new TicTacToeEnv();
      c.board := board;
      c.done := done;
      c.winner := winner;
    }
  }

  /** Stepping a clone leaves the original as it was. */
  method StepOnClone(env: TicTacToeEnv, action: Index, player: int) returns (c: TicTacToeEnv, r: StepResult)
    ensures fresh(c) && c != env
    ensures env.State() == old(env.State())
    ensures (r, c.State()) == Transition(env.State(), action, player)
  {
    c := env.Clone();
    r := c.Step(action, player);
  }
}
