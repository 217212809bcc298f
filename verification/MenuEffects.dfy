/** What each action does to the menu, in terms of the rows themselves: no action changes the items, and
    opening, entering and pointing have exactly the effects the user sees. */
module MenuEffects {
  import opened Options
  import opened MenuTree
  import opened MenuCycle
  import opened MenuPaths
  import opened MenuKeys

  // ---------------------------------------------------------------- the items stay

  /** The same items, whatever the selections and depths. */
  predicate SameItems(rows: seq<Row>, rows': seq<Row>)
    decreases rows, 0
  {
    |rows| == |rows'| && forall i :: 0 <= i < |rows| ==> SameItem(rows[i], rows'[i])
  }

  predicate SameItem(r: Row, r': Row)
    decreases r, 0
  {
    if r.Submenu? then r'.Submenu? && r'.title == r.title && SameItems(r.menu.rows, r'.menu.rows) else r' == r
  }

  lemma {:induction false} ItemsAreThemselves(rows: seq<Row>)
    ensures SameItems(rows, rows)
    decreases rows, 0
  {
    forall i | 0 <= i < |rows|
      ensures SameItem(rows[i], rows[i])
    {
      ItemIsItself(rows[i]);
    }
  }

  lemma {:induction false} ItemIsItself(r: Row)
    ensures SameItem(r, r)
    decreases r, 0
  {
    if r.Submenu? {
      ItemsAreThemselves(r.menu.rows);
    }
  }

  lemma {:induction false} SameItemsTwice(a: seq<Row>, b: seq<Row>, c: seq<Row>)
    requires SameItems(a, b) && SameItems(b, c)
    ensures SameItems(a, c)
    decreases a, 0
  {
    forall i | 0 <= i < |a|
      ensures SameItem(a[i], c[i])
    {
      assert SameItem(a[i], b[i]) && SameItem(b[i], c[i]);
      SameItemTwice(a[i], b[i], c[i]);
    }
  }

  lemma {:induction false} SameItemTwice(a: Row, b: Row, c: Row)
    requires SameItem(a, b) && SameItem(b, c)
    ensures SameItem(a, c)
    decreases a, 0
  {
    if a.Submenu? {
      SameItemsTwice(a.menu.rows, b.menu.rows, c.menu.rows);
    }
  }

  lemma {:induction false} ClearingKeepsItems(rows: seq<Row>)
    ensures SameItems(rows, ClearRows(rows))
    decreases rows, 0
  {
    forall i | 0 <= i < |rows|
      ensures SameItem(rows[i], ClearRows(rows)[i])
    {
      ClearingKeepsItem(rows[i]);
    }
  }

  lemma {:induction false} ClearingKeepsItem(r: Row)
    ensures SameItem(r, ClearRow(r))
    decreases r, 0
  {
    if r.Submenu? {
      ClearingKeepsItems(r.menu.rows);
    }
  }

  lemma {:induction false} PlacingKeepsItems(rows: seq<Row>, parent: nat)
    ensures SameItems(rows, AssignDepths(rows, parent))
    decreases rows, 0
  {
    forall i | 0 <= i < |rows|
      ensures SameItem(rows[i], AssignDepths(rows, parent)[i])
    {
      PlacingKeepsItem(rows[i], parent);
    }
  }

  lemma {:induction false} PlacingKeepsItem(r: Row, parent: nat)
    ensures SameItem(r, AssignRowDepth(r, parent))
    decreases r, 0
  {
    if r.Submenu? {
      PlacingKeepsItems(r.menu.rows, parent + 1);
    }
  }

  lemma ReplacingKeepsItems(n: Node, m: Node)
    requires HasSelectedSubmenu(n) && SameItems(SelectedSubmenu(n).rows, m.rows)
    ensures SameItems(n.rows, WithSelectedSubmenu(n, m).rows)
  {
    ItemsAreThemselves(n.rows);
  }

  lemma SelectingKeepsItems(n: Node, a: SelectAction)
    requires !SelectPanics(n, a)
    ensures SameItems(n.rows, SelectInternal(n, a).rows)
  {
    hide SelectPanics, Target, SameItems;
    ItemsAreThemselves(n.rows);
    ClearingKeepsItems(n.rows);
  }

  lemma OpeningKeepsItems(n: Node)
    ensures SameItems(n.rows, SelectFirstSelectable(n).menu.rows)
  {
    hide SameItems, SelectInternal;
    ItemsAreThemselves(n.rows);
    var found := SearchUp(n.rows, 0, |n.rows|);
    if found.Some? {
      SelectingKeepsItems(n, Index(found.value, 0));
    }
  }

  lemma {:induction false} KeyKeepsItems(n: Node, a: MenuAction, dispatch: bool)
    requires IsKey(a) && !KeyPanics(n, a)
    ensures SameItems(n.rows, HandleKey(n, a, dispatch).menu.rows)
    decreases n
  {
    hide SameItems, SelectFirstSelectable, SelectInternal;
    ItemsAreThemselves(n.rows);
    if Descends(n) {
      KeyKeepsItems(SelectedSubmenu(n), a, dispatch);
      ReplacingKeepsItems(n, HandleKey(SelectedSubmenu(n), a, dispatch).menu);
    } else if a.Select? {
      SelectingKeepsItems(n, a.selection);
    } else if HasSelectedSubmenu(n) {
      OpeningKeepsItems(SelectedSubmenu(n));
      ReplacingKeepsItems(n, SelectFirstSelectable(SelectedSubmenu(n)).menu);
    }
  }

  lemma {:induction false} PointerKeepsItems(n: Node, a: MenuAction)
    requires IsPointer(a) && !PointerPanics(n, a)
    ensures SameItems(n.rows, HandlePointer(n, a).menu.rows)
    decreases n
  {
    hide SameItems, SelectInternal;
    ItemsAreThemselves(n.rows);
    ClearingKeepsItems(n.rows);
    if Delegates(n, a.depth) {
      PointerKeepsItems(SelectedSubmenu(n), a);
      ReplacingKeepsItems(n, HandlePointer(SelectedSubmenu(n), a).menu);
    } else if a.depth == n.depth {
      match a
      case HoverSubmenuWithChildren(_, selection) => SelectingKeepsItems(n, selection);
      case HoverSubmenuLeafNode(_, row, _, _) => SelectingKeepsItems(n.(hovered := Some(row)), Index(row, 0));
      case _ =>
    }
  }

  /** No action adds, drops or alters an item, at any level. */
  lemma HandleKeepsItems(n: Node, a: MenuAction, dispatch: bool)
    requires !Panics(n, a)
    ensures SameItems(n.rows, Handle(n, a, dispatch).menu.rows)
  {
    hide SameItems, HandleKey, HandlePointer, KeyPanics, PointerPanics;
    if IsPointer(a) {
      PointerKeepsItems(n, a);
    } else if IsKey(a) {
      KeyKeepsItems(n, a, dispatch);
    } else {
      ItemsAreThemselves(n.rows);
    }
  }

  /** The items given to a menu: those set last, and those added since. */
  function Given(ops: seq<Op>): seq<Row> {
    if ops == [] then []
    else
      match ops[|ops| - 1]
      case SetRows(rows) => rows
      case AddRows(rows) => Given(ops[..|ops| - 1]) + rows
      case _ => Given(ops[..|ops| - 1])
  }

  /** After any run, the menu has the items it was given. */
  lemma {:induction false} RunsKeepItems(ops: seq<Op>)
    requires Run(ops).Some?
    ensures SameItems(Given(ops), Run(ops).value.rows)
  {
    hide SameItems, Handle, SelectInternal, SelectPanics, Panics, SelectFirstSelectable;
    if ops == [] {
      ItemsAreThemselves([]);
    } else {
      var before := ops[..|ops| - 1];
      var n := Run(before).value;
      RunsKeepItems(before);
      match ops[|ops| - 1]
      case Act(a, dispatch) =>
        HandleKeepsItems(n, a, dispatch);
        SameItemsTwice(Given(before), n.rows, Run(ops).value.rows);
      case SetRows(rows) => SettingKeepsItems(n, rows);
      case AddRows(rows) =>
        ItemsAreThemselves(rows);
        SameItemsTogether(Given(before), n.rows, rows, rows);
        PlacingKeepsItems(n.rows + rows, n.depth);
        SameItemsTwice(Given(ops), n.rows + rows, Run(ops).value.rows);
      case SelectHere(selection) =>
        SelectingKeepsItems(n, selection);
        SameItemsTwice(Given(before), n.rows, Run(ops).value.rows);
      case SelectFirst =>
        OpeningKeepsItems(n);
        SameItemsTwice(Given(before), n.rows, Run(ops).value.rows);
      case ResetSelection =>
        ClearingKeepsItems(n.rows);
        SameItemsTwice(Given(before), n.rows, Run(ops).value.rows);
    }
  }

  lemma SettingKeepsItems(n: Node, rows: seq<Row>)
    ensures SameItems(rows, SetItems(n, rows).rows)
  {
    hide SameItems;
    PlacingKeepsItems(rows, n.depth);
    ClearingKeepsItems(AssignDepths(rows, n.depth));
    SameItemsTwice(rows, AssignDepths(rows, n.depth), SetItems(n, rows).rows);
  }

  lemma SameItemsTogether(a: seq<Row>, a': seq<Row>, b: seq<Row>, b': seq<Row>)
    requires SameItems(a, a') && SameItems(b, b')
    ensures SameItems(a + b, a' + b')
  {
    hide SameItem;
  }

  lemma {:induction false} PlacedRowsStay(rows: seq<Row>, parent: nat)
    requires forall i :: 0 <= i < |rows| && rows[i].Submenu? ==>
               rows[i].menu.depth == parent + 1 && DepthsNested(rows[i].menu)
    ensures AssignDepths(rows, parent) == rows
    decreases rows, 0
  {
    forall i | 0 <= i < |rows|
      ensures AssignDepths(rows, parent)[i] == rows[i]
    {
      PlacedRowStays(rows[i], parent);
    }
  }

  lemma {:induction false} PlacedRowStays(r: Row, parent: nat)
    requires r.Submenu? ==> r.menu.depth == parent + 1 && DepthsNested(r.menu)
    ensures AssignRowDepth(r, parent) == r
    decreases r, 0
  {
    if r.Submenu? {
      PlacedRowsStay(r.menu.rows, parent + 1);
    }
  }

  /** Adding items leaves the rows that are there, and the selection, exactly as they are; the new ones keep
      their items and carry no selection. */
  lemma AddingKeepsTheRest(n: Node, rows: seq<Row>)
    requires DepthsNested(n) && FreshRows(rows)
    ensures var n' := AddItems(n, rows);
      && SameLocal(n', n) && |n'.rows| == |n.rows| + |rows|
      && n'.rows[..|n.rows|] == n.rows
      && SameItems(rows, n'.rows[|n.rows|..]) && FreshRows(n'.rows[|n.rows|..])
  {
    hide SameItems, FreshRows, DepthsNested, AssignRowDepth;
    PlacingOneByOne(n.rows, rows, n.depth);
    PlacedUnder(n);
    PlacedRowsStay(n.rows, n.depth);
    PlacingKeepsItems(rows, n.depth);
    PlacedFresh(rows, n.depth);
  }

  lemma PlacedUnder(n: Node)
    requires DepthsNested(n)
    ensures forall i :: 0 <= i < |n.rows| && n.rows[i].Submenu? ==>
              n.rows[i].menu.depth == n.depth + 1 && DepthsNested(n.rows[i].menu)
  {
  }

  lemma PlacingOneByOne(rows: seq<Row>, more: seq<Row>, parent: nat)
    ensures AssignDepths(rows + more, parent) == AssignDepths(rows, parent) + AssignDepths(more, parent)
  {
    hide AssignRowDepth, AssignDepths;
    forall i | 0 <= i < |rows + more|
      ensures AssignDepths(rows + more, parent)[i] == (AssignDepths(rows, parent) + AssignDepths(more, parent))[i]
    {
      assert (rows + more)[i] == if i < |rows| then rows[i] else more[i - |rows|];
    }
  }

  lemma PlacedFresh(rows: seq<Row>, parent: nat)
    requires FreshRows(rows)
    ensures FreshRows(AssignDepths(rows, parent))
  {
    hide Quiet, DepthsNested, OnePath;
    AssignedDepths(rows, parent);
  }

  // ---------------------------------------------------------------- selecting

  /** What any selection does: the new row is selected and hovered; the submenus are left as they are if the
      row was selected already, and all closed otherwise; the rest stays. */
  lemma SelectingIs(n: Node, a: SelectAction)
    requires !SelectPanics(n, a)
    ensures var n' := SelectInternal(n, a);
      && n'.depth == n.depth && n'.source == n.source && SameItems(n.rows, n'.rows)
      && n'.row.Some? && n'.cell.Some? && n'.hovered == n'.row
      && (if n'.row == n.row then n'.rows == n.rows else FreshRows(n'.rows))
      && (a.Index? ==> SelectedAt(n', Position(a.row, a.item)))
      && (!a.Index? && n.row.None? ==> SelectedAt(n', Position(0, 0)))
  {
    SelectingKeepsItems(n, a);
    ClearedIsQuiet(n);
  }

  // ---------------------------------------------------------------- opening and entering

  /** `r` is the first row that can be selected. */
  predicate FirstSelectable(rows: seq<Row>, r: nat) {
    r < |rows| && Selectable(rows[r]) && forall j :: 0 <= j < r ==> !Selectable(rows[j])
  }

  /** The submenu of the active menu's selected row. */
  function SubmenuToOpen(n: Node): Option<Node> {
    if HasSelectedSubmenu(ActiveMenu(n)) then Some(SelectedSubmenu(ActiveMenu(n))) else None
  }

  lemma OpeningSelectsFirst(n: Node, r: nat)
    requires n.row.None? && FirstSelectable(n.rows, r)
    ensures SelectFirstSelectable(n) == Outcome(SelectFrom(n, Index(r, 0), KeyboardOrProgrammatic), [ItemSelected])
  {
    hide Selectable;
  }

  /** OpenSubmenu and Enter on a submenu's row open it at its first selectable row: the active menu moves one
      level down, and nothing else changes. */
  lemma {:induction false} OpensAtFirstSelectable(n: Node, a: MenuAction, dispatch: bool, r: nat)
    requires a.OpenSubmenu? || a.Enter?
    requires SubmenuToOpen(n).Some? && FirstSelectable(SubmenuToOpen(n).value.rows, r)
    ensures !KeyPanics(n, a)
    ensures var submenu, out := SubmenuToOpen(n).value, HandleKey(n, a, dispatch);
      && out.events == [ItemSelected]
      && ActivePath(out.menu) == ActivePath(n) + [ActiveMenu(n).row.value]
      && var m' := ActiveMenu(out.menu);
        && SelectedAt(m', Position(r, 0)) && m'.hovered == Some(r)
        && m'.source == Some(KeyboardOrProgrammatic) && m'.depth == submenu.depth
        && SameItems(submenu.rows, m'.rows) && FreshRows(m'.rows)
    ensures HandleKey(n, a, dispatch).menu.row == n.row
    decreases n
  {
    hide FirstSelectable, SameItems, SelectInternal;
    if Descends(n) {
      var child := SelectedSubmenu(n);
      OpensAtFirstSelectable(child, a, dispatch, r);
      var n' := HandleKey(n, a, dispatch).menu;
      assert SelectedSubmenu(n') == HandleKey(child, a, dispatch).menu;
      assert [n.row.value] + (ActivePath(child) + [ActiveMenu(child).row.value])
          == [n.row.value] + ActivePath(child) + [ActiveMenu(child).row.value];
    } else {
      var child := SelectedSubmenu(n);
      OpeningSelectsFirst(child, r);
      SelectingIs(child, Index(r, 0));
      var child' := SelectFrom(child, Index(r, 0), KeyboardOrProgrammatic);
      var n' := HandleKey(n, a, dispatch).menu;
      assert SelectedSubmenu(n') == child';
      SelectedIsClosed(child');
    }
  }

  lemma SelectedIsClosed(n: Node)
    requires FreshRows(n.rows)
    ensures !Descends(n)
  {
  }

  /** A submenu with nothing to select does not open. */
  lemma {:induction false} NothingToOpen(n: Node, a: MenuAction, dispatch: bool)
    requires a.OpenSubmenu? || a.Enter?
    requires SubmenuToOpen(n).Some?
    requires forall i :: 0 <= i < |SubmenuToOpen(n).value.rows| ==> !Selectable(SubmenuToOpen(n).value.rows[i])
    ensures !KeyPanics(n, a) && HandleKey(n, a, dispatch) == Outcome(n, [])
    decreases n
  {
    hide Selectable;
    var child := SelectedSubmenu(n);
    if Descends(n) {
      NothingToOpen(child, a, dispatch);
    }
    assert WithSelectedSubmenu(n, child) == n;
  }

  /** The action of the selected row or cell. */
  predicate Chooses(m: Node, action: Action) {
    && m.row.Some? && m.row.value < |m.rows|
    && match m.rows[m.row.value]
       case Item(fields) => fields.onSelect == Some(action)
       case ItemsRow(cells) =>
         var c := if m.cell.Some? then m.cell.value else 0;
         c < |cells| && cells[c].onSelect == Some(action)
       case Header(fields, clickable) => clickable && fields.onSelect == Some(action)
       case _ => false
  }

  /** Away from submenus, Enter dispatches the action of the selected cell and closes the menu, or does
      nothing if there is none; OpenSubmenu does nothing. Neither changes the menu. */
  lemma {:induction false} EnterIs(n: Node, dispatch: bool)
    requires SubmenuToOpen(n).None?
    ensures !KeyPanics(n, Enter) && !KeyPanics(n, OpenSubmenu)
    ensures HandleKey(n, OpenSubmenu, dispatch) == Outcome(n, [])
    ensures HandleKey(n, Enter, dispatch).menu == n
    ensures forall action :: Chooses(ActiveMenu(n), action) ==>
      HandleKey(n, Enter, dispatch).events == [if dispatch then Dispatched(action) else ItemSelected, Closed(true)]
    ensures (forall action :: !Chooses(ActiveMenu(n), action)) ==> HandleKey(n, Enter, dispatch).events == []
    decreases n
  {
    if Descends(n) {
      EnterIs(SelectedSubmenu(n), dispatch);
      assert WithSelectedSubmenu(n, SelectedSubmenu(n)) == n;
    } else {
      var chosen := EnterAction(n);
      if chosen.Some? {
        assert Chooses(n, chosen.value);
      }
    }
  }

  // ---------------------------------------------------------------- pointing

  lemma {:induction false} AtReplaced(n: Node, path: Address, m: Node)
    requires At(n, path).Some?
    ensures At(ReplaceAt(n, path, m), path) == Some(m)
    decreases |path|
  {
    if path != [] {
      AtReplaced(n.rows[path[0]].menu, path[1..], m);
    }
  }

  /** What a pointer event does to the submenu it is for. */
  predicate PointedAt(a: MenuAction, m: Node, m': Node, events: seq<Event>)
    requires IsPointer(a) && (a.HoverSubmenuWithChildren? ==> !SelectPanics(m, a.selection))
  {
    match a
    case UnhoverSubmenuParent(_, row) =>
      events == [] && m' == m.(hovered := if m.hovered == Some(row) then None else m.hovered)
    case HoverSubmenuWithChildren(_, selection) =>
      && events == [ItemSelected] && m'.(source := m.source) == SelectInternal(m, selection)
      && m'.source == Some(Pointer) && m'.row.Some? && m'.hovered == m'.row
      && (selection.Index? ==> SelectedAt(m', Position(selection.row, selection.item)))
      && (if m'.row == m.row then m'.rows == m.rows else FreshRows(m'.rows))
    case HoverSubmenuLeafNode(_, row, _, select) =>
      && events == [ItemHovered] && m'.hovered == Some(row)
      && if select && row < |m.rows| && Selectable(m.rows[row])
         then SelectedAt(m', Position(row, 0)) && m'.source == Some(Pointer)
              && (if m'.row == m.row then m'.rows == m.rows else FreshRows(m'.rows))
         else m' == m.(hovered := Some(row))
    case CloseSubmenu(_) => events == [] && Quiet(m')
  }

  /** A pointer event of depth d has its effect on the depth-d submenu of the selected path. */
  lemma PointerIs(n: Node, a: MenuAction)
    requires IsPointer(a) && DepthsNested(n) && !PointerPanics(n, a) && PointerTarget(n, a.depth).Some?
    ensures var path, out := PointerTarget(n, a.depth).value, HandlePointer(n, a);
      && At(n, path).Some? && At(out.menu, path).Some?
      && (a.HoverSubmenuWithChildren? ==> !SelectPanics(At(n, path).value, a.selection))
      && PointedAt(a, At(n, path).value, At(out.menu, path).value, out.events)
  {
    hide DepthsNested, PointerPanics, HandlePointer, Selectable, At, ReplaceAt;
    PointerActsAtItsDepth(n, a);
    var path := PointerTarget(n, a.depth).value;
    var m := At(n, path).value;
    AtReplaced(n, path, PointerHere(m, a).menu);
    PointerHereIs(m, a);
  }

  lemma PointerHereIs(m: Node, a: MenuAction)
    requires IsPointer(a) && (a.HoverSubmenuWithChildren? ==> !SelectPanics(m, a.selection))
    ensures PointedAt(a, m, PointerHere(m, a).menu, PointerHere(m, a).events)
  {
    hide Selectable, SelectInternal, SameItems, Quiet;
    match a
    case HoverSubmenuWithChildren(_, selection) => SelectingIs(m, selection);
    case HoverSubmenuLeafNode(_, row, _, _) => SelectingIs(m.(hovered := Some(row)), Index(row, 0));
    case CloseSubmenu(_) => ClearedIsQuiet(m);
    case UnhoverSubmenuParent(_, _) =>
  }

  /** Close emits its event and changes nothing; a selection by key is announced. */
  lemma CloseAndSelectEvents(n: Node, via: bool, selection: SelectAction, dispatch: bool)
    ensures Handle(n, Close(via), dispatch) == Outcome(n, [Closed(via)])
    ensures !KeyPanics(n, Select(selection)) ==> Handle(n, Select(selection), dispatch).events == [ItemSelected]
  {
    if !KeyPanics(n, Select(selection)) {
      KeyActsAtActiveMenu(n, Select(selection), dispatch);
    }
  }
}
