/** Analysis of a single tic-tac-toe board: the nine cells, the eight fixed
    winning lines, win and draw detection (`calculateWinner`) and the
    cell-by-cell difference between two boards (`boardDiff`). */
module BoardAnalysis {

  datatype Option<T> = None | Some(value: T)

  /** A cell is empty (JavaScript's `null` in `index.js`) or holds one of the two markers. */
  datatype Cell = Empty | X | O

  /** An index into the board, row by row. */
  type Index = i: nat | i < 9

  /** A board snapshot: always nine cells, as the game creates it with `Array(9)`. */
  type Board = b: seq<Cell> | |b| == 9 witness [Empty, Empty, Empty, Empty, Empty, Empty, Empty, Empty, Empty]

  const EmptyBoard: Board := [Empty, Empty, Empty, Empty, Empty, Empty, Empty, Empty, Empty]

  /** The board is three cells wide. */
  const Side: nat := 3

  // ---------------------------------------------------------------------
  // Win and draw detection
  // ---------------------------------------------------------------------

  /** The winning lines in the order they are scanned: three rows, three
      columns, the main diagonal and the anti-diagonal. */
  const Lines: seq<(Index, Index, Index)> :=
    [(0, 1, 2), (3, 4, 5), (6, 7, 8),
     (0, 3, 6), (1, 4, 7), (2, 5, 8),
     (0, 4, 8), (2, 4, 6)]

  /** Line `k` is filled with one marker. */
  predicate LineComplete(s: Board, k: nat)
    requires k < |Lines|
  {
    var (a, b, c) := Lines[k];
    s[a] != Empty && s[a] == s[b] && s[a] == s[c]
  }

  /** Every cell holds a marker (the `every` over the squares in `index.js`). */
  predicate Full(s: Board) {
    forall i :: 0 <= i < |s| ==> s[i] != Empty
  }

  /** The outcome of analysing a board: `done` says the game is over,
      `winner` is the winning marker (`Empty` for none) and `cells` the
      winning line (empty for none). */
  datatype WinResult = WinResult(done: bool, winner: Cell, cells: seq<Index>)

  /** The first complete line at position `from` or later, in scan order. */
  function FirstCompleteLine(s: Board, from: nat): (r: Option<nat>)
    requires from <= |Lines|
    ensures r.Some? ==> from <= r.value < |Lines| && LineComplete(s, r.value)
    ensures r.Some? ==> forall j :: from <= j < r.value ==> !LineComplete(s, j)
    ensures r.None? ==> forall j :: from <= j < |Lines| ==> !LineComplete(s, j)
    decreases |Lines| - from
  {
    if from == |Lines| then None
    else if LineComplete(s, from) then Some(from)
    else FirstCompleteLine(s, from + 1)
  }

  /** The specification of `calculateWinner`: the first complete line in
      scan order decides the winner; otherwise a full board is a draw and
      any other board is undecided. */
  function Evaluate(s: Board): (r: WinResult)
    ensures r.winner != Empty <==> r.cells != []
    ensures r.winner != Empty ==> r.done
    ensures r.done <==> r.winner != Empty || Full(s)
  {
    match FirstCompleteLine(s, 0)
    case Some(k) =>
      var (a, b, c) := Lines[k];
      WinResult(true, s[a], [a, b, c])
    case None => WinResult(Full(s), Empty, [])
  }

  /** `calculateWinner`: scan the lines in order and return on the first
      complete one; with no complete line, report a draw on a full board. */
  method CalculateWinner(squares: Board) returns (r: WinResult)
    ensures r == Evaluate(squares)
  {
    var i := 0;
    while i < |Lines|
      invariant 0 <= i <= |Lines|
      invariant forall j :: 0 <= j < i ==> !LineComplete(squares, j)
    {
      var (a, b, c) := Lines[i];
      if squares[a] != Empty && squares[a] == squares[b] && squares[a] == squares[c] {
        return WinResult(true, squares[a], [a, b, c]);
      }
      i := i + 1;
    }
    if Full(squares) {
      return WinResult(true, Empty, []);
    }
    return WinResult(false, Empty, []);
  }

  /** The first complete line in scan order wins, with its own cells. */
  lemma EvaluateFirstLine(s: Board, k: nat)
    requires k < |Lines| && LineComplete(s, k)
    requires forall j :: 0 <= j < k ==> !LineComplete(s, j)
    ensures Evaluate(s) == WinResult(true, s[Lines[k].0], [Lines[k].0, Lines[k].1, Lines[k].2])
  {
  }

  /** There is a winner exactly when some line is complete; the winner then
      holds all three cells of the reported line. */
  lemma EvaluateWinnerIffLine(s: Board)
    ensures Evaluate(s).winner != Empty <==> exists k :: 0 <= k < |Lines| && LineComplete(s, k)
    ensures Evaluate(s).winner != Empty ==>
      |Evaluate(s).cells| == 3 &&
      forall j :: 0 <= j < 3 ==> s[Evaluate(s).cells[j]] == Evaluate(s).winner
  {
  }

  /** With no complete line a full board is a draw and any other board is
      undecided; neither has a winner or winning cells. */
  lemma EvaluateNoLine(s: Board)
    requires forall k :: 0 <= k < |Lines| ==> !LineComplete(s, k)
    ensures Full(s) ==> Evaluate(s) == WinResult(true, Empty, [])
    ensures !Full(s) ==> Evaluate(s) == WinResult(false, Empty, [])
  {
  }

  /** The empty board is undecided. */
  lemma EmptyBoardUndecided()
    ensures Evaluate(EmptyBoard) == WinResult(false, Empty, [])
  {
  }

  /** X at 0, 1, 2 (after O at 3 and 4) completes the top row: X wins on cells 0, 1, 2. */
  lemma TopRowWin()
    ensures Evaluate([X, X, X, O, O, Empty, Empty, Empty, Empty]) == WinResult(true, X, [0, 1, 2])
  {
  }

  /** X, O, X along the top row is not a win, and the game goes on. */
  lemma MixedTopRowUndecided()
    ensures Evaluate([X, O, X, Empty, Empty, Empty, Empty, Empty, Empty]) == WinResult(false, Empty, [])
  {
  }

  // ---------------------------------------------------------------------
  // Board difference
  // ---------------------------------------------------------------------

  /** A reported change: the `(x, y)` position of the cell and its new value. */
  datatype DiffEntry = DiffEntry(pos: (nat, nat), val: Cell)

  /** Column and row of index `i`: `(i mod 3, i div 3)`. */
  function Pos(i: Index): (p: (nat, nat))
    ensures p.0 < Side && p.1 < Side
  {
    (i % Side, i / Side)
  }

  /** The index a position stands for. */
  function IndexOf(p: (nat, nat)): nat {
    p.1 * Side + p.0
  }

  /** The indices below `n` at which the two boards differ, in ascending order. */
  function ChangedIndices(curr: Board, prev: Board, n: nat): seq<Index>
    requires n <= |curr|
  {
    if n == 0 then []
    else ChangedIndices(curr, prev, n - 1) + (if curr[n - 1] != prev[n - 1] then [n - 1] else [])
  }

  /** One entry per changed index, carrying the index's position and the new value. */
  function Entries(curr: Board, idx: seq<Index>): seq<DiffEntry> {
    seq(|idx|, k requires 0 <= k < |idx| => DiffEntry(Pos(idx[k]), curr[idx[k]]))
  }

  /** The specification of `boardDiff(curr, prev)`: at most one entry per
      cell, and no entry at all exactly when the boards are equal. */
  function Diff(curr: Board, prev: Board): (r: seq<DiffEntry>)
    ensures |r| <= |curr|
    ensures r == [] <==> curr == prev
  {
    ChangedIndicesSpec(curr, prev, |curr|);
    ChangedIndicesIdentical(curr, |curr|);
    ChangedIndicesLength(curr, prev, |curr|);
    Entries(curr, ChangedIndices(curr, prev, |curr|))
  }

  lemma {:induction false} ChangedIndicesLength(curr: Board, prev: Board, n: nat)
    requires n <= |curr|
    ensures |ChangedIndices(curr, prev, n)| <= n
  {
    if n > 0 {
      ChangedIndicesLength(curr, prev, n - 1);
    }
  }

  /** `boardDiff`: scan the indices in ascending order and push an entry for
      every index at which the boards differ. */
  method BoardDiff(curr: Board, prev: Board) returns (ret: seq<DiffEntry>)
    ensures ret == Diff(curr, prev)
  {
    ret := [];
    var i := 0;
    while i < |curr|
      invariant 0 <= i <= |curr|
      invariant ret == Entries(curr, ChangedIndices(curr, prev, i))
    {
      if curr[i] != prev[i] {
        ret := ret + [DiffEntry(Pos(i), curr[i])];
      }
      i := i + 1;
    }
  }

  /** A position determines its index. */
  lemma PosInjective(i: Index)
    ensures IndexOf(Pos(i)) == i
  {
  }

  /** `ChangedIndices` holds exactly the differing indices below `n`, strictly ascending. */
  lemma {:induction false} ChangedIndicesSpec(curr: Board, prev: Board, n: nat)
    requires n <= |curr|
    ensures forall i :: 0 <= i < n ==> (i in ChangedIndices(curr, prev, n) <==> curr[i] != prev[i])
    ensures forall k :: 0 <= k < |ChangedIndices(curr, prev, n)| ==> ChangedIndices(curr, prev, n)[k] < n
    ensures forall k, l :: 0 <= k < l < |ChangedIndices(curr, prev, n)| ==>
      ChangedIndices(curr, prev, n)[k] < ChangedIndices(curr, prev, n)[l]
  {
    if n > 0 {
      ChangedIndicesSpec(curr, prev, n - 1);
    }
  }

  /** The diff lists every differing cell, and only those, in ascending
      index order, each with its position and the value in `curr`. */
  lemma DiffContents(curr: Board, prev: Board)
    ensures forall i: Index :: curr[i] != prev[i] <==> DiffEntry(Pos(i), curr[i]) in Diff(curr, prev)
    ensures forall k :: 0 <= k < |Diff(curr, prev)| ==>
      var i := IndexOf(Diff(curr, prev)[k].pos);
      i < 9 && curr[i] != prev[i] && Diff(curr, prev)[k] == DiffEntry(Pos(i), curr[i])
    ensures forall k, l :: 0 <= k < l < |Diff(curr, prev)| ==>
      IndexOf(Diff(curr, prev)[k].pos) < IndexOf(Diff(curr, prev)[l].pos)
  {
    var idx := ChangedIndices(curr, prev, |curr|);
    ChangedIndicesSpec(curr, prev, |curr|);
    var d := Diff(curr, prev);
    forall i: Index ensures curr[i] != prev[i] <==> DiffEntry(Pos(i), curr[i]) in d {
      if curr[i] != prev[i] {
        var k :| 0 <= k < |idx| && idx[k] == i;
        assert d[k] == DiffEntry(Pos(i), curr[i]);
      }
      if DiffEntry(Pos(i), curr[i]) in d {
        var k :| 0 <= k < |d| && d[k] == DiffEntry(Pos(i), curr[i]);
        PosInjective(i);
        PosInjective(idx[k]);
        assert idx[k] == i;
      }
    }
    forall k | 0 <= k < |d| ensures IndexOf(d[k].pos) == idx[k] {
      PosInjective(idx[k]);
    }
  }

  /** Identical boards have an empty diff. */
  lemma DiffIdentical(s: Board)
    ensures Diff(s, s) == []
  {
  }

  lemma {:induction false} ChangedIndicesIdentical(s: Board, n: nat)
    requires n <= |s|
    ensures ChangedIndices(s, s, n) == []
  {
    if n > 0 {
      ChangedIndicesIdentical(s, n - 1);
    }
  }

  /** Swapping the arguments reports the same positions in the same order;
      only the values change. */
  lemma DiffSymmetricPositions(a: Board, b: Board)
    ensures |Diff(a, b)| == |Diff(b, a)|
    ensures forall k :: 0 <= k < |Diff(a, b)| ==> Diff(a, b)[k].pos == Diff(b, a)[k].pos
  {
    ChangedIndicesSymmetric(a, b, |a|);
  }

  lemma {:induction false} ChangedIndicesSymmetric(a: Board, b: Board, n: nat)
    requires n <= |a|
    ensures ChangedIndices(a, b, n) == ChangedIndices(b, a, n)
  {
    if n > 0 {
      ChangedIndicesSymmetric(a, b, n - 1);
    }
  }

  /** A board changed in exactly one cell has a one-entry diff naming that cell. */
  lemma DiffSingleChange(prev: Board, i: Index, v: Cell)
    requires prev[i] != v
    ensures Diff(prev[i := v], prev) == [DiffEntry(Pos(i), v)]
  {
    ChangedIndicesSingle(prev, i, v, |prev|);
  }

  lemma {:induction false} ChangedIndicesSingle(prev: Board, i: Index, v: Cell, n: nat)
    requires prev[i] != v && n <= |prev|
    ensures ChangedIndices(prev[i := v], prev, n) == if i < n then [i] else []
  {
    if n > 0 {
      ChangedIndicesSingle(prev, i, v, n - 1);
    }
  }
}
