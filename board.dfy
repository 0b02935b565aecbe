/**
 * The 3x3 board shared by the environment (env.py) and the session
 * application (app.py): nine cells indexed
 *
 *     0 | 1 | 2
 *     3 | 4 | 5
 *     6 | 7 | 8
 *
 * holding 1 (X), -1 (O) or 0 (empty), the table of the eight winning
 * lines, and the pure queries over a board.
 */
module Board {
  import opened Wrappers

  /** A cell index. */
  type Index = i: int | 0 <= i < 9

  /** A board is always nine cells long. */
  type Board = b: seq<int> | |b| == 9 witness [0, 0, 0, 0, 0, 0, 0, 0, 0]

  const EmptyBoard: Board := [0, 0, 0, 0, 0, 0, 0, 0, 0]

  /** The two markers a player can place. */
  predicate IsPlayer(p: int) {
    p == 1 || p == -1
  }

  /** The eight winning lines: three rows, three columns, two diagonals (WINS). */
  const Wins: seq<(Index, Index, Index)> :=
    [(0, 1, 2), (3, 4, 5), (6, 7, 8),
     (0, 3, 6), (1, 4, 7), (2, 5, 8),
     (0, 4, 8), (2, 4, 6)]

  /**
   * Three cells in a straight line across the grid, read in index order:
   * each step moves one column right (a row), one row down (a column), or
   * one row down and one column right or left (a diagonal).
   */
  predicate StraightLine(a: Index, b: Index, c: Index) {
    var dr, dc := b / 3 - a / 3, b % 3 - a % 3;
    && ((dr == 0 && dc == 1) || (dr == 1 && dc == 0) || (dr == 1 && dc == 1) || (dr == 1 && dc == -1))
    && c / 3 - b / 3 == dr && c % 3 - b % 3 == dc
  }

  /** The table lists every straight line of the grid, each exactly once, and nothing else. */
  lemma WinsAreTheLines()
    ensures |Wins| == 8
    ensures forall i, j :: 0 <= i < j < |Wins| ==> Wins[i] != Wins[j]
    ensures forall k :: 0 <= k < |Wins| ==> StraightLine(Wins[k].0, Wins[k].1, Wins[k].2)
    ensures forall a: Index, b: Index, c: Index :: StraightLine(a, b, c) ==> (a, b, c) in Wins
  {
  }

  /** All three cells of `line` hold `p`. */
  predicate Holds(b: Board, line: (Index, Index, Index), p: int) {
    b[line.0] == p && b[line.1] == p && b[line.2] == p
  }

  /** `p` holds one of the eight lines (`_check_win`, `check_win`). */
  predicate CheckWin(b: Board, p: int) {
    exists k :: 0 <= k < |Wins| && Holds(b, Wins[k], p)
  }

  /** Every cell is taken (`_check_draw`, `check_draw`). */
  predicate CheckDraw(b: Board) {
    forall i :: 0 <= i < 9 ==> b[i] != 0
  }

  /** The position of the first line of the table, from `k` on, that `p` holds; `|Wins|` if none. */
  function FirstLineFrom(b: Board, p: int, k: nat): (r: nat)
    requires k <= |Wins|
    ensures k <= r <= |Wins|
    ensures r < |Wins| ==> Holds(b, Wins[r], p)
    ensures forall i :: k <= i < r ==> !Holds(b, Wins[i], p)
    decreases |Wins| - k
  {
    if k == |Wins| || Holds(b, Wins[k], p) then k
    else FirstLineFrom(b, p, k + 1)
  }

  /**
   * `winning_combo`: a line is returned exactly when `p` has won, and it is
   * the first line of the table that `p` holds.
   */
  function WinningCombo(b: Board, p: int): (r: Option<(Index, Index, Index)>)
    ensures r.Some? <==> CheckWin(b, p)
    ensures r.Some? ==> exists j :: 0 <= j < |Wins| && r.value == Wins[j] && Holds(b, Wins[j], p)
                                    && forall i :: 0 <= i < j ==> !Holds(b, Wins[i], p)
  {
    var j := FirstLineFrom(b, p, 0);
    if j < |Wins| then Some(Wins[j]) else None
  }

  /** The indices, from `i` on, of the empty cells, in ascending order. */
  function ZerosFrom(b: Board, i: nat): (r: seq<Index>)
    requires i <= 9
    ensures forall k: int {:trigger k in r} :: k in r <==> i <= k < 9 && b[k] == 0
    ensures forall x :: 0 <= x < |r| ==> i <= r[x]
    ensures forall x, y :: 0 <= x < y < |r| ==> r[x] < r[y]
    ensures |r| <= 9 - i
    decreases 9 - i
  {
    if i == 9 then []
    else if b[i] == 0 then [i as Index] + ZerosFrom(b, i + 1)
    else ZerosFrom(b, i + 1)
  }

  /**
   * `available_actions`: exactly the empty cells, strictly ascending (so
   * without duplicates); there are none exactly when the board is full.
   */
  function AvailableActions(b: Board): (r: seq<Index>)
    ensures forall k: int {:trigger k in r} :: k in r <==> 0 <= k < 9 && b[k] == 0
    ensures forall x, y :: 0 <= x < y < |r| ==> r[x] < r[y]
    ensures r == [] <==> CheckDraw(b)
  {
    ZerosFrom(b, 0)
  }

  /** The number of empty cells: the measure every search recursion decreases. */
  function Empties(b: Board): nat {
    |AvailableActions(b)|
  }

  lemma {:induction false} ZerosFromPlace(b: Board, m: Index, p: int, i: nat)
    requires i <= 9 && b[m] == 0 && p != 0
    ensures |ZerosFrom(b[m := p], i)| == |ZerosFrom(b, i)| - (if i <= m then 1 else 0)
    decreases 9 - i
  {
    if i < 9 {
      ZerosFromPlace(b, m, p, i + 1);
    }
  }

  /** Marking an empty cell with a player leaves one empty cell fewer. */
  lemma PlaceDecreasesEmpties(b: Board, m: Index, p: int)
    requires b[m] == 0 && p != 0
    ensures Empties(b[m := p]) == Empties(b) - 1
  {
    ZerosFromPlace(b, m, p, 0);
  }

  /** Placing `p` never gives a different marker `q` a line it did not hold. */
  lemma PlaceKeepsOtherLines(b: Board, m: Index, p: int, q: int)
    requires p != q
    ensures CheckWin(b[m := p], q) ==> CheckWin(b, q)
  {
    if CheckWin(b[m := p], q) {
      var k :| 0 <= k < |Wins| && Holds(b[m := p], Wins[k], q);
      assert Holds(b, Wins[k], q);
    }
  }
}
