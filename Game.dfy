/** The game timeline: the history of board snapshots, the cursor into it,
    whose turn it is and the display order of the move list, with the
    three commands that change them and the move list derived from them. */
module TicTacToe {
  import opened BoardAnalysis

  /** The marker placed next: `'X'` when `xIsNext`, otherwise `'O'`. */
  function Marker(xIsNext: bool): (m: Cell)
    ensures m != Empty
  {
    if xIsNext then X else O
  }

  /** `next` is `prev` with one empty cell now holding `m`. */
  ghost predicate MoveOf(prev: Board, next: Board, m: Cell) {
    exists i: Index :: prev[i] == Empty && next == prev[i := m]
  }

  /** Step `k` of a game: board `prev` was undecided and `next` is `prev`
      with one empty cell taken by the marker whose turn it was. */
  ghost predicate Transition(prev: Board, next: Board, k: nat) {
    !Evaluate(prev).done && MoveOf(prev, next, Marker(k % 2 == 0))
  }

  /** The timeline invariant: the history starts from the empty board, the
      cursor is in range, `xIsNext` follows the parity of the cursor, and
      each snapshot follows from its predecessor by one move. */
  ghost predicate WellFormed(history: seq<Board>, stepNumber: nat, xIsNext: bool) {
    && |history| > 0
    && stepNumber < |history|
    && history[0] == EmptyBoard
    && xIsNext == (stepNumber % 2 == 0)
    && forall k :: 0 <= k < |history| - 1 ==> Transition(history[k], history[k + 1], k)
  }

  /** The initial timeline is well formed. */
  lemma InitialWellFormed()
    ensures WellFormed([EmptyBoard], 0, true)
  {
  }

  /** An accepted move keeps the timeline well formed. */
  lemma ClickWellFormed(history: seq<Board>, stepNumber: nat, xIsNext: bool, i: Index)
    requires WellFormed(history, stepNumber, xIsNext)
    requires !Evaluate(history[stepNumber]).done && history[stepNumber][i] == Empty
    ensures WellFormed(history[..stepNumber + 1] + [history[stepNumber][i := Marker(xIsNext)]], stepNumber + 1, !xIsNext)
  {
  }

  /** Moving the cursor to any recorded step keeps the timeline well formed. */
  lemma JumpWellFormed(history: seq<Board>, stepNumber: nat, xIsNext: bool, step: nat)
    requires WellFormed(history, stepNumber, xIsNext)
    requires step < |history|
    ensures WellFormed(history, step, step % 2 == 0)
  {
  }

  /** Each step of a well-formed timeline changes exactly one cell, from
      empty to the marker of the player who moved. */
  lemma ConsecutiveDiffSingle(history: seq<Board>, stepNumber: nat, xIsNext: bool, p: nat)
    requires WellFormed(history, stepNumber, xIsNext)
    requires 1 <= p < |history|
    ensures |Diff(history[p], history[p - 1])| == 1
    ensures var e := Diff(history[p], history[p - 1])[0];
      e.val == Marker((p - 1) % 2 == 0) && IndexOf(e.pos) < 9 && history[p - 1][IndexOf(e.pos)] == Empty
  {
    assert Transition(history[p - 1], history[p], p - 1);
    var i: Index :| history[p - 1][i] == Empty && history[p] == history[p - 1][i := Marker((p - 1) % 2 == 0)];
    DiffSingleChange(history[p - 1], i, Marker((p - 1) % 2 == 0));
    PosInjective(i);
  }

  // ---------------------------------------------------------------------
  // The move list and the displayed board (`render`)
  // ---------------------------------------------------------------------

  /** A move-list button label: "Go to game start" or "Go to move #n". */
  datatype Label = GameStart | GoToMove(n: nat)

  /** One move-list entry: its label, the step its button jumps to, the
      change that led to that step (if any), and whether it is highlighted. */
  datatype MoveEntry = MoveEntry(desc: Label, target: nat, lastMove: Option<DiffEntry>, isCurrent: bool)

  /** What `render` computes from the state: the board shown, its analysis
      and the move list. */
  datatype View = View(board: Board, result: WinResult, moves: seq<MoveEntry>)

  function Reverse<T>(s: seq<T>): seq<T> {
    seq(|s|, i requires 0 <= i < |s| => s[|s| - 1 - i])
  }

  /** The history in display order: as recorded, or a reversed copy. */
  function Shown(history: seq<Board>, increasingOrder: bool): seq<Board> {
    if increasingOrder then history else Reverse(history)
  }

  /** Where the current step sits in display order. */
  function CurrIndex(history: seq<Board>, stepNumber: nat, increasingOrder: bool): (c: nat)
    requires stepNumber < |history|
    ensures c < |history| && Shown(history, increasingOrder)[c] == history[stepNumber]
  {
    if increasingOrder then stepNumber else |history| - 1 - stepNumber
  }

  /** `diff[0]`, or nothing when the boards are equal. */
  function FirstChange(curr: Board, prev: Board): (r: Option<DiffEntry>)
    ensures r.Some? <==> curr != prev
  {
    var d := Diff(curr, prev);
    if |d| > 0 then Some(d[0]) else None
  }

  /** The entry `render` builds for position `move` of the displayed history:
      in ascending order it diffs against the entry before, in descending
      order against the entry after. */
  function EntryAt(shown: seq<Board>, move: nat, currIndex: nat, increasingOrder: bool): (e: MoveEntry)
    requires move < |shown|
    ensures e.target < |shown|
    ensures e.desc == GameStart <==> e.target == 0
    ensures e.desc.GoToMove? ==> e.desc.n == e.target
    ensures e.isCurrent <==> move == currIndex
  {
    if increasingOrder then
      if move != 0 then
        MoveEntry(GoToMove(move), move, FirstChange(shown[move], shown[move - 1]), move == currIndex)
      else
        MoveEntry(GameStart, move, None, move == currIndex)
    else
      var presentationNumber := |shown| - 1 - move;
      if move < |shown| - 1 then
        MoveEntry(GoToMove(presentationNumber), presentationNumber, FirstChange(shown[move], shown[move + 1]), move == currIndex)
      else
        MoveEntry(GameStart, presentationNumber, None, move == currIndex)
  }

  /** The move list: `history.map(...)` over the displayed history. */
  function Moves(history: seq<Board>, stepNumber: nat, increasingOrder: bool): (moves: seq<MoveEntry>)
    requires stepNumber < |history|
    ensures |moves| == |history|
    ensures forall m :: 0 <= m < |moves| ==> moves[m].target < |history|
  {
    var shown := Shown(history, increasingOrder);
    var currIndex := CurrIndex(history, stepNumber, increasingOrder);
    seq(|shown|, move requires 0 <= move < |shown| => EntryAt(shown, move, currIndex, increasingOrder))
  }

  /** The entry for original step `p`, described independently of the display order. */
  function StepEntry(history: seq<Board>, stepNumber: nat, p: nat): MoveEntry
    requires p < |history|
  {
    if p == 0 then MoveEntry(GameStart, 0, None, p == stepNumber)
    else MoveEntry(GoToMove(p), p, FirstChange(history[p], history[p - 1]), p == stepNumber)
  }

  /** In ascending order entry `m` describes step `m`; in descending order
      it describes step `|history| - 1 - m`. So every entry jumps to its
      original step, is labelled "game start" exactly for step 0, is
      highlighted exactly for the current step, and reports as last move the
      change into its step, whatever the display order. */
  lemma MovesDescribeSteps(history: seq<Board>, stepNumber: nat, increasingOrder: bool)
    requires stepNumber < |history|
    ensures |Moves(history, stepNumber, increasingOrder)| == |history|
    ensures forall m :: 0 <= m < |history| ==>
      Moves(history, stepNumber, increasingOrder)[m] ==
        StepEntry(history, stepNumber, if increasingOrder then m else |history| - 1 - m)
  {
  }

  /** Toggling the display order exactly reverses the move list. */
  lemma ToggleReversesMoves(history: seq<Board>, stepNumber: nat)
    requires stepNumber < |history|
    ensures Moves(history, stepNumber, false) == Reverse(Moves(history, stepNumber, true))
  {
  }

  /** The board `render` shows and analyses. */
  function ViewOf(history: seq<Board>, stepNumber: nat, increasingOrder: bool): (v: View)
    requires stepNumber < |history|
    ensures v.board == history[stepNumber]
    ensures v.result == Evaluate(history[stepNumber])
    ensures v.moves == Moves(history, stepNumber, increasingOrder)
  {
    var current := Shown(history, increasingOrder)[CurrIndex(history, stepNumber, increasingOrder)];
    View(current, Evaluate(current), Moves(history, stepNumber, increasingOrder))
  }

  /** A move-list entry reports a last move exactly when it is not the
      start, and that move placed the marker of the player whose turn it was. */
  predicate ReportsMover(e: MoveEntry) {
    && (e.target == 0 <==> e.lastMove.None?)
    && (e.lastMove.Some? ==> e.lastMove.value.val == Marker((e.target - 1) % 2 == 0))
  }

  lemma StepEntryReportsMover(history: seq<Board>, stepNumber: nat, xIsNext: bool, p: nat)
    requires WellFormed(history, stepNumber, xIsNext)
    requires p < |history|
    ensures ReportsMover(StepEntry(history, stepNumber, p))
  {
    if p >= 1 {
      ConsecutiveDiffSingle(history, stepNumber, xIsNext, p);
    }
  }

  /** In a well-formed timeline every entry but the start reports a last
      move, and it is the marker of the player who made that move. */
  lemma WellFormedLastMoves(history: seq<Board>, stepNumber: nat, xIsNext: bool, increasingOrder: bool)
    requires WellFormed(history, stepNumber, xIsNext)
    ensures forall m :: 0 <= m < |history| ==> ReportsMover(Moves(history, stepNumber, increasingOrder)[m])
  {
    MovesDescribeSteps(history, stepNumber, increasingOrder);
    var moves := Moves(history, stepNumber, increasingOrder);
    forall m | 0 <= m < |history| ensures ReportsMover(moves[m]) {
      var p := if increasingOrder then m else |history| - 1 - m;
      assert moves[m] == StepEntry(history, stepNumber, p);
      StepEntryReportsMover(history, stepNumber, xIsNext, p);
    }
  }

  // ---------------------------------------------------------------------
  // The game state and its commands
  // ---------------------------------------------------------------------

  class Game {
    var history: seq<Board>
    var stepNumber: nat
    var xIsNext: bool
    var increasingOrder: bool

    ghost predicate Valid()
      reads this
    {
      WellFormed(history, stepNumber, xIsNext)
    }

    /** A new game: one empty board, cursor at the start, X to move, ascending order. */
    constructor ()
      ensures Valid()
      ensures history == [EmptyBoard] && stepNumber == 0 && xIsNext && increasingOrder
    {
      history := [EmptyBoard];
      stepNumber := 0;
      xIsNext := true;
      increasingOrder := true;
      InitialWellFormed();
    }

    /** `handleClick(i)`: ignored on a decided board or an occupied cell;
        otherwise drops the future, appends the current board with cell `i`
        taken by the player to move, advances the cursor and passes the turn. */
    method HandleClick(i: Index)
      requires Valid()
      modifies this
      ensures Valid()
      ensures increasingOrder == old(increasingOrder)
      ensures var current := old(history[stepNumber]);
        if Evaluate(current).done || current[i] != Empty then
          history == old(history) && stepNumber == old(stepNumber) && xIsNext == old(xIsNext)
        else
          && history == old(history[..stepNumber + 1]) + [current[i := Marker(old(xIsNext))]]
          && stepNumber == old(stepNumber) + 1 == |history| - 1
          && xIsNext == !old(xIsNext)
    {
      var past := history[..stepNumber + 1];
      var current := past[|past| - 1];
      assert current == history[stepNumber];
      var squares := new Cell[9](k requires 0 <= k < 9 => current[k]);
      assert squares[..] == current;
      var result := CalculateWinner(squares[..]);
      if result.done || squares[i] != Empty {
        return;
      }
      var marker := Marker(xIsNext);
      squares[i] := marker;
      var next: Board := squares[..];
      assert next == current[i := marker];
      ClickWellFormed(history, stepNumber, xIsNext, i);
      history, stepNumber, xIsNext := past + [next], |past|, !xIsNext;
    }

    /** `jumpTo(step)`: move the cursor and recompute whose turn it is. */
    method JumpTo(step: nat)
      requires Valid() && step < |history|
      modifies this
      ensures Valid()
      ensures history == old(history) && increasingOrder == old(increasingOrder)
      ensures stepNumber == step && xIsNext == (step % 2 == 0)
    {
      JumpWellFormed(history, stepNumber, xIsNext, step);
      stepNumber := step;
      xIsNext := step % 2 == 0;
    }

    /** `reverseOrdering`: flip the display order of the move list. */
    method ReverseOrdering()
      requires Valid()
      modifies this
      ensures Valid()
      ensures history == old(history) && stepNumber == old(stepNumber) && xIsNext == old(xIsNext)
      ensures increasingOrder == !old(increasingOrder)
    {
      increasingOrder := !increasingOrder;
    }

    /** What `render` shows: the board at the cursor, its analysis, and
        one move-list entry per step of the history. */
    function Render(): (v: View)
      reads this
      requires Valid()
      ensures v.board == history[stepNumber] && v.result == Evaluate(history[stepNumber])
      ensures |v.moves| == |history|
      ensures forall m :: 0 <= m < |v.moves| ==> (v.moves[m].isCurrent <==> v.moves[m].target == stepNumber)
      ensures v.moves == Moves(history, stepNumber, increasingOrder)
    {
      MovesDescribeSteps(history, stepNumber, increasingOrder);
      ViewOf(history, stepNumber, increasingOrder)
    }
  }

  /** Centre, then corner, then the centre again: the third click is ignored. */
  method CentreCornerScenario() {
    var g := new Game();
    g.HandleClick(4);
    assert g.history[1][4] == X && !g.xIsNext && |g.history| == 2 by {
      EmptyBoardUndecided();
    }
    var afterCentre := g.history[1];
    assert !Evaluate(afterCentre).done by {
      assert afterCentre == EmptyBoard[4 := X];
      forall k | 0 <= k < |Lines| ensures !LineComplete(afterCentre, k) {
      }
      assert afterCentre[0] == Empty;
      EvaluateNoLine(afterCentre);
    }
    g.HandleClick(0);
    assert g.history[2][0] == O && |g.history| == 3;
    g.HandleClick(4);
    assert |g.history| == 3 && g.stepNumber == 2;
  }
}
