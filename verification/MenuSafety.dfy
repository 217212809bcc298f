/** Runs in which every selection names an existing row never make the menu panic. */
module MenuSafety {
  import opened Options
  import opened MenuTree
  import opened MenuCycle
  import opened MenuPaths

  /** Every selection in the tree names an existing row. */
  predicate AllInRange(n: Node)
    decreases n
  {
    InRange(n) && forall i :: 0 <= i < |n.rows| && n.rows[i].Submenu? ==> AllInRange(n.rows[i].menu)
  }

  /** The action names an existing row, or moves within a menu that has rows. */
  predicate Fits(n: Node, a: SelectAction) {
    if a.Index? then a.row < |n.rows| else n.rows != []
  }

  predicate KeyFits(n: Node, a: MenuAction) {
    a.Select? ==> Fits(ActiveMenu(n), a.selection)
  }

  /** The action fits the open submenu it is addressed to. */
  predicate PointerFits(n: Node, a: MenuAction)
    requires IsPointer(a)
    decreases n
  {
    if Delegates(n, a.depth) then PointerFits(SelectedSubmenu(n), a)
    else a.depth == n.depth && a.HoverSubmenuWithChildren? ==> Fits(n, a.selection)
  }

  /** What a careful owner does: rows that exist, and added submenus that are fresh. */
  predicate Sensible(n: Node, op: Op) {
    match op
    case Act(a, _) => (IsPointer(a) ==> PointerFits(n, a)) && (IsKey(a) ==> KeyFits(n, a))
    case SelectHere(selection) => Fits(n, selection)
    case AddRows(rows) => FreshRows(rows)
    case _ => true
  }

  lemma {:induction false} QuietIsInRange(n: Node)
    requires Quiet(n)
    ensures AllInRange(n)
    decreases n
  {
    forall i | 0 <= i < |n.rows| && n.rows[i].Submenu?
      ensures AllInRange(n.rows[i].menu)
    {
      QuietIsInRange(n.rows[i].menu);
    }
  }

  lemma ClearedIsInRange(n: Node)
    ensures AllInRange(ClearSelection(n))
  {
    ClearedIsQuiet(n);
    QuietIsInRange(ClearSelection(n));
  }

  lemma SelectStaysInRange(n: Node, a: SelectAction, source: Source)
    requires AllInRange(n) && Fits(n, a)
    ensures !SelectPanics(n, a) && AllInRange(SelectFrom(n, a, source))
  {
    InRangeSelectionIsSafe(n, a);
    var n' := SelectFrom(n, a, source);
    ClearedIsInRange(n);
    assert n'.rows == n.rows || n'.rows == ClearSelection(n).rows;
  }

  lemma FirstSelectableStaysInRange(n: Node)
    requires AllInRange(n)
    ensures AllInRange(SelectFirstSelectable(n).menu)
  {
    var found := SearchUp(n.rows, 0, |n.rows|);
    if found.Some? {
      SelectStaysInRange(n, Index(found.value, 0), KeyboardOrProgrammatic);
    }
  }

  lemma WithSubmenuInRange(n: Node, m: Node)
    requires AllInRange(n) && HasSelectedSubmenu(n) && AllInRange(m)
    ensures AllInRange(WithSelectedSubmenu(n, m))
  {
    var n' := WithSelectedSubmenu(n, m);
    assert forall i :: 0 <= i < |n'.rows| && i != n.row.value ==> n'.rows[i] == n.rows[i];
  }

  lemma {:induction false} KeyStaysInRange(n: Node, a: MenuAction, dispatch: bool)
    requires AllInRange(n) && IsKey(a) && KeyFits(n, a)
    ensures !KeyPanics(n, a) && AllInRange(HandleKey(n, a, dispatch).menu)
    decreases n
  {
    if Descends(n) {
      KeyStaysInRange(SelectedSubmenu(n), a, dispatch);
      WithSubmenuInRange(n, HandleKey(SelectedSubmenu(n), a, dispatch).menu);
    } else if a.Select? {
      SelectStaysInRange(n, a.selection, KeyboardOrProgrammatic);
    } else if HasSelectedSubmenu(n) {
      FirstSelectableStaysInRange(SelectedSubmenu(n));
      WithSubmenuInRange(n, SelectFirstSelectable(SelectedSubmenu(n)).menu);
    }
  }

  lemma PointerHereStaysInRange(n: Node, a: MenuAction)
    requires AllInRange(n) && IsPointer(a) && (a.HoverSubmenuWithChildren? ==> Fits(n, a.selection))
    ensures a.HoverSubmenuWithChildren? ==> !SelectPanics(n, a.selection)
    ensures AllInRange(PointerHere(n, a).menu)
  {
    match a
    case UnhoverSubmenuParent(_, _) =>
    case HoverSubmenuWithChildren(_, selection) => SelectStaysInRange(n, selection, Pointer);
    case HoverSubmenuLeafNode(_, row, _, select) =>
      var hovered := n.(hovered := Some(row));
      assert AllInRange(hovered);
      if row < |n.rows| {
        SelectStaysInRange(hovered, Index(row, 0), Pointer);
      }
    case CloseSubmenu(_) => ClearedIsInRange(n);
  }

  lemma {:induction false} PointerStaysInRange(n: Node, a: MenuAction)
    requires AllInRange(n) && IsPointer(a) && PointerFits(n, a)
    ensures !PointerPanics(n, a) && AllInRange(HandlePointer(n, a).menu)
    decreases n
  {
    if Delegates(n, a.depth) {
      PointerStaysInRange(SelectedSubmenu(n), a);
      WithSubmenuInRange(n, HandlePointer(SelectedSubmenu(n), a).menu);
    } else if a.depth == n.depth {
      PointerHereStaysInRange(n, a);
    }
  }

  lemma {:induction false} DepthsStayInRange(rows: seq<Row>, parent: nat)
    requires forall i :: 0 <= i < |rows| && rows[i].Submenu? ==> AllInRange(rows[i].menu)
    ensures forall i :: 0 <= i < |rows| && rows[i].Submenu? ==> AllInRange(AssignDepths(rows, parent)[i].menu)
    decreases rows, 0
  {
    forall i | 0 <= i < |rows| && rows[i].Submenu?
      ensures AllInRange(AssignDepths(rows, parent)[i].menu)
    {
      DepthStaysInRange(rows[i], parent);
    }
  }

  lemma {:induction false} DepthStaysInRange(r: Row, parent: nat)
    requires r.Submenu? && AllInRange(r.menu)
    ensures AllInRange(AssignRowDepth(r, parent).menu)
    decreases r, 0
  {
    DepthsStayInRange(r.menu.rows, parent + 1);
  }

  lemma AddItemsStaysInRange(n: Node, rows: seq<Row>)
    requires AllInRange(n) && FreshRows(rows)
    ensures AllInRange(AddItems(n, rows))
  {
    var all := n.rows + rows;
    forall i | 0 <= i < |all| && all[i].Submenu?
      ensures AllInRange(all[i].menu)
    {
      if i >= |n.rows| {
        QuietIsInRange(rows[i - |n.rows|].menu);
      }
    }
    DepthsStayInRange(all, n.depth);
  }

  /** A sensible operation does not panic, and leaves every selection in range. */
  lemma SensibleStep(n: Node, op: Op)
    requires AllInRange(n) && Sensible(n, op)
    ensures Allowed(n, op) && AllInRange(Step(n, op))
  {
    match op
    case Act(a, dispatch) =>
      if IsPointer(a) {
        PointerStaysInRange(n, a);
      } else if IsKey(a) {
        KeyStaysInRange(n, a, dispatch);
      }
    case SetRows(rows) => ClearedIsInRange(n.(rows := AssignDepths(rows, n.depth)));
    case AddRows(rows) => AddItemsStaysInRange(n, rows);
    case SelectHere(selection) => SelectStaysInRange(n, selection, KeyboardOrProgrammatic);
    case SelectFirst => FirstSelectableStaysInRange(n);
    case ResetSelection => ClearedIsInRange(n);
  }

  predicate SensibleRun(ops: seq<Op>) {
    ops == []
    || (var before := ops[..|ops| - 1];
        SensibleRun(before) && (Run(before).Some? ==> Sensible(Run(before).value, ops[|ops| - 1])))
  }

  /** No sensible run ever panics. */
  lemma {:induction false} SensibleRunsNeverPanic(ops: seq<Op>)
    requires SensibleRun(ops)
    ensures Run(ops).Some? && AllInRange(Run(ops).value)
  {
    if ops != [] {
      var before := ops[..|ops| - 1];
      SensibleRunsNeverPanic(before);
      SensibleStep(Run(before).value, ops[|ops| - 1]);
    }
  }
}
