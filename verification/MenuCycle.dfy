/** Next and Previous walk one single cycle through the cells of the selectable rows. */
module MenuCycle {
  import opened Options
  import opened MenuTree

  datatype Position = Position(row: nat, cell: nat)

  /** How many stops a row contributes to the cycle. */
  function Stops(r: Row): nat {
    if Selectable(r) && ItemsLen(r).Some? then ItemsLen(r).value else 0
  }

  /** The number of stops in rows[..i]. */
  function StopsBefore(rows: seq<Row>, i: nat): nat
    requires i <= |rows|
  {
    if i == 0 then 0 else StopsBefore(rows, i - 1) + Stops(rows[i - 1])
  }

  function CycleLength(rows: seq<Row>): nat {
    StopsBefore(rows, |rows|)
  }

  predicate IsStop(rows: seq<Row>, p: Position) {
    p.row < |rows| && p.cell < Stops(rows[p.row])
  }

  /** The place of a stop in reading order: rows top to bottom, cells left to right. */
  function Rank(rows: seq<Row>, p: Position): nat
    requires p.row <= |rows|
  {
    StopsBefore(rows, p.row) + p.cell
  }

  /** A menu whose selection is at `p`. */
  predicate SelectedAt(n: Node, p: Position) {
    n.row == Some(p.row) && n.cell == Some(p.cell)
  }

  lemma {:induction false} SelectableHasStop(r: Row)
    ensures Selectable(r) <==> Stops(r) > 0
    ensures Selectable(r) ==> LastCell(r) == Stops(r) - 1
  {
    match r
    case ItemsRow(cells) =>
      if Selectable(r) {
        var i :| 0 <= i < |cells| && Interactive(cells[i]);
      }
    case _ =>
  }

  /** The stops, kind of row by kind of row. */
  lemma StopIff(rows: seq<Row>, p: Position)
    ensures IsStop(rows, p) <==>
      && p.row < |rows|
      && match rows[p.row]
         case Item(fields) => !fields.disabled && !fields.noInteractionOnHover && p.cell == 0
         case Separator => false
         case ItemsRow(cells) =>
           p.cell < |cells| && exists i :: 0 <= i < |cells| && !cells[i].disabled && !cells[i].noInteractionOnHover
         case Submenu(_, menu) => menu.rows != [] && p.cell <= |menu.rows|
         case Header(_, clickable) => clickable && p.cell == 0
  {
    if p.row < |rows| && rows[p.row].ItemsRow? {
      var cells := rows[p.row].cells;
      assert Selectable(rows[p.row]) <==> exists i :: 0 <= i < |cells| && Interactive(cells[i]);
    }
  }

  /** What is passed through in a row that cannot be selected: the cells of a row of cells, and nothing else. */
  lemma CellsOfUnselectable(r: Row)
    requires !Selectable(r)
    ensures LastCell(r) == if r.ItemsRow? && r.cells != [] then |r.cells| - 1 else 0
  {
  }

  lemma {:induction false} StopsBeforeMonotone(rows: seq<Row>, i: nat, j: nat)
    requires i <= j <= |rows|
    ensures StopsBefore(rows, i) <= StopsBefore(rows, j)
    ensures (forall k :: i <= k < j ==> !Selectable(rows[k])) ==> StopsBefore(rows, i) == StopsBefore(rows, j)
    decreases j
  {
    if i < j {
      StopsBeforeMonotone(rows, i, j - 1);
      SelectableHasStop(rows[j - 1]);
    }
  }

  /** Ranks are below the cycle length, and distinct stops have distinct ranks. */
  lemma RankInRange(rows: seq<Row>, p: Position)
    requires IsStop(rows, p)
    ensures Rank(rows, p) < CycleLength(rows)
  {
    StopsBeforeMonotone(rows, p.row + 1, |rows|);
  }

  lemma RankInjective(rows: seq<Row>, p: Position, q: Position)
    requires IsStop(rows, p) && IsStop(rows, q)
    requires Rank(rows, p) == Rank(rows, q)
    ensures p == q
  {
    if p.row < q.row {
      StopsBeforeMonotone(rows, p.row + 1, q.row);
    } else if q.row < p.row {
      StopsBeforeMonotone(rows, q.row + 1, p.row);
    }
  }

  // ---------------------------------------------------------------- one step

  lemma NextRowFacts(rows: seq<Row>, from: nat)
    requires from < |rows| && Selectable(rows[from])
    ensures NextRow(rows, from) < |rows| && Selectable(rows[NextRow(rows, from)])
    ensures from < NextRow(rows, from) ==> forall j :: from < j < NextRow(rows, from) ==> !Selectable(rows[j])
    ensures NextRow(rows, from) <= from ==>
              && (forall j :: from < j < |rows| ==> !Selectable(rows[j]))
              && (forall j :: 0 <= j < NextRow(rows, from) ==> !Selectable(rows[j]))
  {
    hide Selectable;
    WrappedSuccessor(from, |rows|);
    var start := if from + 1 < |rows| then from + 1 else 0;
    var up, again := SearchUp(rows, start, |rows|), SearchUp(rows, 0, start);
    assert NextRow(rows, from) == if up.Some? then up.value else again.value;
  }

  lemma WrappedSuccessor(i: nat, n: nat)
    requires i < n
    ensures (i + 1) % n == if i + 1 < n then i + 1 else 0
  {
  }

  lemma PreviousRowFacts(rows: seq<Row>, from: nat)
    requires from < |rows| && Selectable(rows[from])
    ensures PreviousRow(rows, from) < |rows| && Selectable(rows[PreviousRow(rows, from)])
    ensures PreviousRow(rows, from) < from ==> forall j :: PreviousRow(rows, from) < j < from ==> !Selectable(rows[j])
    ensures from <= PreviousRow(rows, from) ==>
              && (forall j :: 0 <= j < from ==> !Selectable(rows[j]))
              && (forall j :: PreviousRow(rows, from) < j < |rows| ==> !Selectable(rows[j]))
  {
  }

  /** The next row's first stop is one past the last stop of `from`, or the first of all. */
  lemma NextRowRank(rows: seq<Row>, from: nat)
    requires from < |rows| && Selectable(rows[from])
    ensures var r := NextRow(rows, from);
      && r < |rows| && Selectable(rows[r])
      && StopsBefore(rows, r) == Wrap(StopsBefore(rows, from + 1), CycleLength(rows))
  {
    NextRowFacts(rows, from);
    var r := NextRow(rows, from);
    SelectableHasStop(rows[r]);
    if from < r {
      StopsBeforeMonotone(rows, from + 1, r);
      StopsBeforeMonotone(rows, r + 1, |rows|);
    } else {
      StopsBeforeMonotone(rows, 0, r);
      StopsBeforeMonotone(rows, from + 1, |rows|);
    }
  }

  /** The previous row's stops end where those of `from` begin, or at the end of the cycle. */
  lemma PreviousRowRank(rows: seq<Row>, from: nat)
    requires from < |rows| && Selectable(rows[from])
    ensures var r := PreviousRow(rows, from);
      && r < |rows| && Selectable(rows[r])
      && Wrap(StopsBefore(rows, r + 1), CycleLength(rows)) == StopsBefore(rows, from)
  {
    PreviousRowFacts(rows, from);
    SelectableHasStop(rows[from]);
    var r := PreviousRow(rows, from);
    StopsBeforeMonotone(rows, from + 1, |rows|);
    if r < from {
      StopsBeforeMonotone(rows, r + 1, from);
    } else {
      StopsBeforeMonotone(rows, 0, from);
      StopsBeforeMonotone(rows, r + 1, |rows|);
    }
  }

  /** A count of presses reduced to a rank, for counts of at most one lap. */
  function Wrap(x: nat, len: nat): nat {
    if x < len then x else x - len
  }

  /** The stop `Next` selects from a stop. */
  function StopAfter(rows: seq<Row>, p: Position): (q: Position)
    requires IsStop(rows, p)
  {
    if p.cell + 1 < Stops(rows[p.row]) then Position(p.row, p.cell + 1) else Position(NextRow(rows, p.row), 0)
  }

  /** Next moves from the stop of rank k to the stop of rank k + 1, or from the last to the first. */
  lemma NextAdvancesRank(n: Node, p: Position)
    requires SelectedAt(n, p) && IsStop(n.rows, p)
    ensures !SelectPanics(n, Next)
    ensures SelectedAt(SelectInternal(n, Next), StopAfter(n.rows, p)) && IsStop(n.rows, StopAfter(n.rows, p))
    ensures Rank(n.rows, StopAfter(n.rows, p)) == Wrap(Rank(n.rows, p) + 1, CycleLength(n.rows))
  {
    var q := StopAfter(n.rows, p);
    SelectableHasStop(n.rows[p.row]);
    RankInRange(n.rows, p);
    assert Target(n, Next) == (q.row, q.cell);
    if q.row == p.row && q.cell == p.cell + 1 {
      RankInRange(n.rows, q);
    } else {
      NextRowRank(n.rows, p.row);
      SelectableHasStop(n.rows[q.row]);
      assert StopsBefore(n.rows, p.row + 1) == Rank(n.rows, p) + 1;
    }
  }

  /** Previous moves to the stop that Next came from. */
  lemma PreviousRetreatsRank(n: Node, p: Position) returns (q: Position)
    requires SelectedAt(n, p) && IsStop(n.rows, p)
    ensures !SelectPanics(n, Previous)
    ensures SelectedAt(SelectInternal(n, Previous), q) && IsStop(n.rows, q)
    ensures Wrap(Rank(n.rows, q) + 1, CycleLength(n.rows)) == Rank(n.rows, p)
  {
    SelectableHasStop(n.rows[p.row]);
    PreviousRowRank(n.rows, p.row);
    RankInRange(n.rows, p);
    if p.cell > 0 {
      q := Position(p.row, p.cell - 1);
    } else {
      var r := PreviousRow(n.rows, p.row);
      SelectableHasStop(n.rows[r]);
      q := Position(r, LastCell(n.rows[r]));
      assert Rank(n.rows, q) + 1 == StopsBefore(n.rows, r + 1);
    }
    assert Target(n, Previous) == (q.row, q.cell);
  }

  // ---------------------------------------------------------------- the whole cycle

  /** Two row lists with the same number of stops in each row. */
  ghost predicate SameStops(rows: seq<Row>, rows': seq<Row>) {
    |rows| == |rows'| && forall i :: 0 <= i < |rows| ==> Stops(rows'[i]) == Stops(rows[i])
  }

  lemma {:induction false} SameStopsSameRanks(rows: seq<Row>, rows': seq<Row>, i: nat)
    requires SameStops(rows, rows') && i <= |rows|
    ensures StopsBefore(rows', i) == StopsBefore(rows, i)
  {
    if i > 0 {
      SameStopsSameRanks(rows, rows', i - 1);
    }
  }

  /** Changing a selection never changes how many stops any row has. */
  lemma SelectingKeepsStops(n: Node, a: SelectAction)
    requires !SelectPanics(n, a)
    ensures SameStops(n.rows, SelectInternal(n, a).rows)
  {
    ClearingKeepsStops(n.rows);
  }

  lemma ClearingKeepsStops(rows: seq<Row>)
    ensures SameStops(rows, ClearRows(rows))
  {
    forall i | 0 <= i < |rows|
      ensures Stops(ClearRow(rows[i])) == Stops(rows[i])
    {
      match rows[i]
      case Submenu(_, menu) =>
        assert |ClearRows(menu.rows)| == |menu.rows|;
        assert ClearRows(menu.rows) == [] <==> menu.rows == [];
      case _ =>
    }
  }

  /** `k` presses of the same arrow key; None once a press has panicked. */
  function Press(n: Node, a: SelectAction, k: nat): Option<Node> {
    if k == 0 then Some(n)
    else
      var before := Press(n, a, k - 1);
      if before.None? || SelectPanics(before.value, a) then None
      else Some(SelectInternal(before.value, a))
  }

  /** After `k` presses of Next, at most one lap, the selection is `k` stops further on. */
  lemma {:induction false} NextPresses(n: Node, p: Position, k: nat) returns (q: Position)
    requires SelectedAt(n, p) && IsStop(n.rows, p) && k <= CycleLength(n.rows)
    ensures Press(n, Next, k).Some?
    ensures SameStops(n.rows, Press(n, Next, k).value.rows)
    ensures SelectedAt(Press(n, Next, k).value, q) && IsStop(n.rows, q)
    ensures Rank(n.rows, q) == Wrap(Rank(n.rows, p) + k, CycleLength(n.rows))
  {
    hide SelectInternal, StopsBefore, NextRow, Stops, SelectPanics;
    RankInRange(n.rows, p);
    q := p;
    if k > 0 {
      var s := NextPresses(n, p, k - 1);
      var m := Press(n, Next, k - 1).value;
      q := StopAfter(m.rows, s);
      NextAdvancesRank(m, s);
      SelectingKeepsStops(m, Next);
      SameStopsSameRanks(n.rows, m.rows, s.row);
      SameStopsSameRanks(n.rows, m.rows, q.row);
      SameStopsSameRanks(n.rows, m.rows, |n.rows|);
    }
  }

  /** `k` presses from `n` happen without a panic and leave the selection at `q`. */
  predicate PressedTo(n: Node, a: SelectAction, k: nat, q: Position) {
    Press(n, a, k).Some? && SelectedAt(Press(n, a, k).value, q)
  }

  lemma NextReaches(n: Node, p: Position, q: Position) returns (k: nat)
    requires SelectedAt(n, p) && IsStop(n.rows, p) && IsStop(n.rows, q)
    ensures k < CycleLength(n.rows) && PressedTo(n, Next, k, q)
  {
    RankInRange(n.rows, p);
    RankInRange(n.rows, q);
    k := Wrap(Rank(n.rows, q) + CycleLength(n.rows) - Rank(n.rows, p), CycleLength(n.rows));
    var s := NextPresses(n, p, k);
    RankInjective(n.rows, s, q);
  }

  lemma NextReachesOnce(n: Node, p: Position, q: Position, j: nat, k: nat)
    requires SelectedAt(n, p) && IsStop(n.rows, p)
    requires j < k < CycleLength(n.rows)
    ensures !(PressedTo(n, Next, j, q) && PressedTo(n, Next, k, q))
  {
    RankInRange(n.rows, p);
    var s := NextPresses(n, p, j);
    var t := NextPresses(n, p, k);
    assert Rank(n.rows, s) != Rank(n.rows, t);
  }

  /** From any stop, pressing Next as often as there are stops comes back to it, and every stop
      is selected after exactly one number of presses below that: one single cycle. */
  lemma NextIsOneCycle(n: Node, p: Position)
    requires SelectedAt(n, p) && IsStop(n.rows, p)
    ensures PressedTo(n, Next, CycleLength(n.rows), p)
    ensures forall q :: IsStop(n.rows, q) ==> exists k: nat :: k < CycleLength(n.rows) && PressedTo(n, Next, k, q)
    ensures forall q, j: nat, k: nat :: j < k < CycleLength(n.rows) ==>
              !(PressedTo(n, Next, j, q) && PressedTo(n, Next, k, q))
  {
    var home := NextPresses(n, p, CycleLength(n.rows));
    RankInRange(n.rows, p);
    RankInjective(n.rows, home, p);
    forall q | IsStop(n.rows, q)
      ensures exists k: nat :: k < CycleLength(n.rows) && PressedTo(n, Next, k, q)
    {
      var k := NextReaches(n, p, q);
    }
    forall q, j: nat, k: nat | j < k < CycleLength(n.rows)
      ensures !(PressedTo(n, Next, j, q) && PressedTo(n, Next, k, q))
    {
      NextReachesOnce(n, p, q, j, k);
    }
  }

  /** Previous undoes Next and Next undoes Previous, at every stop, wrap-around included. */
  lemma NextAndPreviousAreInverse(n: Node, p: Position)
    requires SelectedAt(n, p) && IsStop(n.rows, p)
    ensures !SelectPanics(n, Next) && !SelectPanics(SelectInternal(n, Next), Previous)
    ensures SelectedAt(SelectInternal(SelectInternal(n, Next), Previous), p)
    ensures !SelectPanics(n, Previous) && !SelectPanics(SelectInternal(n, Previous), Next)
    ensures SelectedAt(SelectInternal(SelectInternal(n, Previous), Next), p)
  {
    NextThenPrevious(n, p);
    PreviousThenNext(n, p);
  }

  lemma NextThenPrevious(n: Node, p: Position)
    requires SelectedAt(n, p) && IsStop(n.rows, p)
    ensures !SelectPanics(n, Next) && !SelectPanics(SelectInternal(n, Next), Previous)
    ensures SelectedAt(SelectInternal(SelectInternal(n, Next), Previous), p)
  {
    var q := StopAfter(n.rows, p);
    NextAdvancesRank(n, p);
    SelectingKeepsStops(n, Next);
    var m := SelectInternal(n, Next);
    var s := PreviousRetreatsRank(m, q);
    SameStopsSameRanks(n.rows, m.rows, q.row);
    SameStopsSameRanks(n.rows, m.rows, s.row);
    SameStopsSameRanks(n.rows, m.rows, |n.rows|);
    RankInRange(n.rows, p);
    RankInRange(n.rows, s);
    RankInjective(n.rows, p, s);
  }

  lemma PreviousThenNext(n: Node, p: Position)
    requires SelectedAt(n, p) && IsStop(n.rows, p)
    ensures !SelectPanics(n, Previous) && !SelectPanics(SelectInternal(n, Previous), Next)
    ensures SelectedAt(SelectInternal(SelectInternal(n, Previous), Next), p)
  {
    var q := PreviousRetreatsRank(n, p);
    SelectingKeepsStops(n, Previous);
    var m := SelectInternal(n, Previous);
    NextAdvancesRank(m, q);
    var s := StopAfter(m.rows, q);
    SameStopsSameRanks(n.rows, m.rows, q.row);
    SameStopsSameRanks(n.rows, m.rows, s.row);
    SameStopsSameRanks(n.rows, m.rows, |n.rows|);
    RankInjective(n.rows, p, s);
  }

  // ---------------------------------------------------------------- joining the cycle

  /** The first Next on a menu without a selection takes row 0, selectable or not: it lands on a
      stop exactly when row 0 is selectable. */
  lemma FirstNextIsStopIff(n: Node)
    requires n.row.None? && n.rows != []
    ensures SelectedAt(SelectInternal(n, Next), Position(0, 0))
    ensures IsStop(n.rows, Position(0, 0)) <==> Selectable(n.rows[0])
  {
    SelectableHasStop(n.rows[0]);
  }

  /** Pressing Next inside a row, selectable or not, walks its cells and changes nothing else. */
  lemma {:induction false} WalksTheRow(n: Node, p: Position, k: nat)
    requires SelectedAt(n, p) && p.row < |n.rows| && p.cell + k <= LastCell(n.rows[p.row])
    ensures Press(n, Next, k).Some?
    ensures Press(n, Next, k).value.rows == n.rows && SelectedAt(Press(n, Next, k).value, Position(p.row, p.cell + k))
  {
    if k > 0 {
      WalksTheRow(n, p, k - 1);
    }
  }

  lemma NextRowIsSelectable(rows: seq<Row>, from: nat)
    requires from < |rows| && exists i :: 0 <= i < |rows| && Selectable(rows[i])
    ensures NextRow(rows, from) < |rows| && Selectable(rows[NextRow(rows, from)])
  {
    hide Selectable;
    var i :| 0 <= i < |rows| && Selectable(rows[i]);
    var start := (from + 1) % |rows|;
    assert start <= i < |rows| || 0 <= i < start;
  }

  lemma LeavesTheRow(n: Node, p: Position)
    requires SelectedAt(n, p) && p.row < |n.rows| && p.cell >= LastCell(n.rows[p.row])
    requires exists i :: 0 <= i < |n.rows| && Selectable(n.rows[i])
    ensures var q := Position(NextRow(n.rows, p.row), 0);
      !SelectPanics(n, Next) && SelectedAt(SelectInternal(n, Next), q) && IsStop(n.rows, q)
  {
    hide NextRow, Selectable, LastCell;
    NextRowIsSelectable(n.rows, p.row);
    SelectableHasStop(n.rows[NextRow(n.rows, p.row)]);
  }

  /** From any selection in range, on a menu with something selectable, Next joins the cycle:
      after the rest of the current row's cells, the next press lands on a stop. */
  lemma NextJoinsTheCycle(n: Node, p: Position) returns (k: nat, q: Position)
    requires SelectedAt(n, p) && p.row < |n.rows|
    requires exists i :: 0 <= i < |n.rows| && Selectable(n.rows[i])
    ensures k == 1 + (if p.cell < LastCell(n.rows[p.row]) then LastCell(n.rows[p.row]) - p.cell else 0)
    ensures PressedTo(n, Next, k, q) && IsStop(n.rows, q)
  {
    hide SelectInternal, SelectPanics, Selectable, LastCell, NextRow, Stops;
    var last := LastCell(n.rows[p.row]);
    var walk := if p.cell < last then last - p.cell else 0;
    k, q := walk + 1, Position(NextRow(n.rows, p.row), 0);
    if p.cell < last {
      WalksTheRow(n, p, walk);
    } else {
      assert Press(n, Next, 0) == Some(n);
    }
    LeavesTheRow(Press(n, Next, walk).value, Position(p.row, p.cell + walk));
  }

  /** Nothing between `from` and `r` is selectable, going down and around. */
  predicate SkippedDown(rows: seq<Row>, from: nat, r: nat)
    requires from < |rows| && r < |rows|
  {
    if from < r then forall j :: from < j < r ==> !Selectable(rows[j])
    else (forall j :: from < j < |rows| ==> !Selectable(rows[j])) && forall j :: 0 <= j < r ==> !Selectable(rows[j])
  }

  /** From any row, selectable or not, the next row is the nearest selectable one down and around, and the
      previous row the nearest one the other way; if nothing is selectable, both are the row itself. */
  lemma NearestRows(rows: seq<Row>, from: nat)
    requires from < |rows|
    ensures (exists i :: 0 <= i < |rows| && Selectable(rows[i])) ==>
      && NextRow(rows, from) < |rows| && Selectable(rows[NextRow(rows, from)])
      && SkippedDown(rows, from, NextRow(rows, from))
      && PreviousRow(rows, from) < |rows| && Selectable(rows[PreviousRow(rows, from)])
      && SkippedDown(rows, PreviousRow(rows, from), from)
    ensures (forall i :: 0 <= i < |rows| ==> !Selectable(rows[i])) ==>
      NextRow(rows, from) == from && PreviousRow(rows, from) == from
  {
    hide Selectable;
    WrappedSuccessor(from, |rows|);
    var start := if from + 1 < |rows| then from + 1 else 0;
    assert NextRow(rows, from) ==
      match SearchUp(rows, start, |rows|)
      case Some(i) => i
      case None => match SearchUp(rows, 0, start) case Some(i) => i case None => from;
    hide NextRow;
  }

  /** A previous row looked for from a missing one is the last that can be selected. */
  lemma PreviousOfMissingRow(rows: seq<Row>, from: nat)
    requires from >= |rows|
    ensures var r := PreviousRow(rows, from);
      && (r < |rows| ==> Selectable(rows[r]) && forall j :: r < j < |rows| ==> !Selectable(rows[j]))
      && (r >= |rows| ==> r == from && forall j :: 0 <= j < |rows| ==> !Selectable(rows[j]))
  {
    hide Selectable;
  }

  // ---------------------------------------------------------------- panics

  /** A selection that names an existing row. */
  predicate InRange(n: Node) {
    (n.row.Some? ==> n.row.value < |n.rows|) && (n.row.Some? <==> n.cell.Some?)
  }

  /** Selecting from an in-range selection never panics, and leaves it in range exactly when
      the action does not name a missing row and does not start on an empty menu. */
  lemma InRangeSelectionIsSafe(n: Node, a: SelectAction)
    requires InRange(n)
    ensures !SelectPanics(n, a)
    ensures InRange(SelectInternal(n, a)) <==> if a.Index? then a.row < |n.rows| else n.rows != []
  {
  }

  /** Previous panics exactly when it has to leave a missing row and there is nothing to leave it for. */
  lemma PreviousPanicsIff(n: Node)
    ensures SelectPanics(n, Previous) <==>
      && n.row.Some? && n.row.value >= |n.rows| && (n.cell.None? || n.cell.value == 0)
      && forall i :: 0 <= i < |n.rows| ==> !Selectable(n.rows[i])
  {
    hide Selectable;
  }

  /** A second arrow key on a menu without a selection panics if and only if the menu is empty. */
  lemma SecondPressPanicsIff(n: Node, a: SelectAction)
    requires n.row.None? && !a.Index?
    ensures !SelectPanics(n, Next)
    ensures SelectPanics(SelectInternal(n, Next), a) <==> n.rows == []
  {
    hide Selectable;
    assert |ClearRows(n.rows)| == |n.rows|;
  }

  /** On an empty menu the first Next selects the missing row 0, and the second one panics. */
  lemma EmptyMenuPanicsOnSecondNext(n: Node)
    requires n.rows == [] && n.row == None && n.cell == None
    ensures !SelectPanics(n, Next)
    ensures SelectInternal(n, Next).row == Some(0)
    ensures SelectPanics(SelectInternal(n, Next), Next)
    ensures SelectPanics(SelectInternal(n, Next), Previous)
  {
    assert ClearRows([]) == [];
  }
}
