/** What every run of menu actions keeps: one open path, and pointer events that stay at
    their own depth. Nodes of the tree are named by addresses, the row indices that lead to
    them from the root. */
module MenuPaths {
  import opened Options
  import opened MenuTree

  type Address = seq<nat>

  /** The submenu at an address. */
  function At(n: Node, path: Address): Option<Node>
    decreases |path|
  {
    if path == [] then Some(n)
    else if path[0] < |n.rows| && n.rows[path[0]].Submenu? then At(n.rows[path[0]].menu, path[1..])
    else None
  }

  /** The addresses of the open submenus: follow the selected rows. */
  function SelectedPath(n: Node): Address
    decreases n
  {
    if HasSelectedSubmenu(n) then [n.row.value] + SelectedPath(SelectedSubmenu(n)) else []
  }

  /** The address of the active menu. */
  function ActivePath(n: Node): Address
    decreases n
  {
    if Descends(n) then [n.row.value] + ActivePath(SelectedSubmenu(n)) else []
  }

  /** No selection, hover or selection source in this node itself. */
  predicate Blank(n: Node) {
    n.row.None? && n.cell.None? && n.hovered.None? && n.source.None?
  }

  /** Blank everywhere in the subtree. */
  predicate Quiet(n: Node)
    decreases n
  {
    Blank(n) && forall i :: 0 <= i < |n.rows| && n.rows[i].Submenu? ==> Quiet(n.rows[i].menu)
  }

  /** Only the selected row of each open node leads to a subtree that is not quiet. */
  predicate OnePath(n: Node)
    decreases n
  {
    forall i :: 0 <= i < |n.rows| && n.rows[i].Submenu? ==>
      if n.row == Some(i) then OnePath(n.rows[i].menu) else Quiet(n.rows[i].menu)
  }

  /** Every submenu is one deeper than its parent. */
  predicate DepthsNested(n: Node)
    decreases n
  {
    forall i :: 0 <= i < |n.rows| && n.rows[i].Submenu? ==>
      n.rows[i].menu.depth == n.depth + 1 && DepthsNested(n.rows[i].menu)
  }

  // ---------------------------------------------------------------- reading addresses

  /** Under `OnePath`, whatever is not blank lies on the selected path. */
  lemma {:induction false} OffPathIsBlank(n: Node, path: Address)
    requires OnePath(n) && At(n, path).Some? && !Blank(At(n, path).value)
    ensures path <= SelectedPath(n)
    decreases |path|
  {
    if path != [] {
      var child := n.rows[path[0]].menu;
      if n.row == Some(path[0]) {
        OffPathIsBlank(child, path[1..]);
        assert path == [path[0]] + path[1..];
      } else {
        QuietIsBlank(child, path[1..]);
      }
    }
  }

  lemma {:induction false} QuietIsBlank(n: Node, path: Address)
    requires Quiet(n) && At(n, path).Some?
    ensures Blank(At(n, path).value)
    decreases |path|
  {
    if path != [] {
      QuietIsBlank(n.rows[path[0]].menu, path[1..]);
    }
  }

  /** `active_menu_mut` returns the node at `ActivePath`, which lies on the selected path; a
      non-root active menu holds a selection; and every node of the tree that holds a selection
      is at or above it: the active menu is the unique deepest one. */
  lemma {:induction false} ActiveMenuIsDeepestSelection(n: Node)
    requires OnePath(n)
    ensures At(n, ActivePath(n)) == Some(ActiveMenu(n))
    ensures ActivePath(n) <= SelectedPath(n)
    ensures ActivePath(n) != [] ==> ActiveMenu(n).row.Some?
    ensures forall path :: At(n, path).Some? && At(n, path).value.row.Some? ==> path <= ActivePath(n)
    decreases n
  {
    if Descends(n) {
      ActiveMenuIsDeepestSelection(SelectedSubmenu(n));
      assert ActivePath(n)[1..] == ActivePath(SelectedSubmenu(n));
    }
    forall path | At(n, path).Some? && At(n, path).value.row.Some?
      ensures path <= ActivePath(n)
    {
      SelectionIsAboveActive(n, path);
    }
  }

  lemma {:induction false} SelectionIsAboveActive(n: Node, path: Address)
    requires OnePath(n) && At(n, path).Some? && At(n, path).value.row.Some?
    ensures path <= ActivePath(n)
    decreases |path|
  {
    if path != [] {
      OffPathIsBlank(n, path);
      var child := n.rows[path[0]].menu;
      assert n.row == Some(path[0]);
      assert SelectedPath(n)[1..] == SelectedPath(child);
      SelectionIsAboveActive(child, path[1..]);
      assert path == [path[0]] + path[1..];
    }
  }

  // ---------------------------------------------------------------- acting at an address

  function ReplaceAt(n: Node, path: Address, m: Node): Node
    requires At(n, path).Some?
    decreases |path|
  {
    if path == [] then m
    else
      var r := n.rows[path[0]];
      n.(rows := n.rows[path[0] := Submenu(r.title, ReplaceAt(r.menu, path[1..], m))])
  }

  /** What a node holds besides its rows. */
  predicate SameLocal(n: Node, m: Node) {
    n.depth == m.depth && n.row == m.row && n.cell == m.cell && n.hovered == m.hovered && n.source == m.source
  }

  /** Replacing at an address leaves every node elsewhere and above as it was. */
  lemma {:induction false} ReplaceAtIsLocal(n: Node, path: Address, m: Node, other: Address)
    requires At(n, path).Some? && !(path <= other)
    ensures At(ReplaceAt(n, path, m), other).Some? <==> At(n, other).Some?
    ensures At(n, other).Some? ==> SameLocal(At(ReplaceAt(n, path, m), other).value, At(n, other).value)
    ensures At(n, other).Some? && !(other <= path) ==> At(ReplaceAt(n, path, m), other) == At(n, other)
    decreases |path|
  {
    if other != [] && other[0] == path[0] {
      if path[1..] <= other[1..] {
        assert path == [path[0]] + path[1..] && other == [other[0]] + other[1..];
      }
      if other[1..] <= path[1..] {
        assert path == [path[0]] + path[1..] && other == [other[0]] + other[1..];
      }
      ReplaceAtIsLocal(n.rows[path[0]].menu, path[1..], m, other[1..]);
    }
  }

  /** Where a pointer event of the given depth lands, counted along the selected path. */
  function PointerTarget(n: Node, depth: nat): Option<Address> {
    if n.depth <= depth <= n.depth + |SelectedPath(n)| then Some(SelectedPath(n)[..depth - n.depth]) else None
  }

  lemma {:induction false} SelectedPathIsInTree(n: Node, k: nat)
    requires k <= |SelectedPath(n)| && DepthsNested(n)
    ensures At(n, SelectedPath(n)[..k]).Some?
    ensures At(n, SelectedPath(n)[..k]).value.depth == n.depth + k
    decreases n
  {
    if k > 0 {
      SelectedPathIsInTree(SelectedSubmenu(n), k - 1);
      assert SelectedPath(n)[..k][1..] == SelectedPath(SelectedSubmenu(n))[..k - 1];
    }
  }

  /** A pointer event of depth d acts at the depth-d node of the selected path and nowhere else;
      when the path does not reach depth d, nothing happens. */
  lemma {:induction false} PointerActsAtItsDepth(n: Node, a: MenuAction)
    requires IsPointer(a) && DepthsNested(n) && !PointerPanics(n, a)
    ensures PointerTarget(n, a.depth).None? ==> HandlePointer(n, a) == Outcome(n, [])
    ensures PointerTarget(n, a.depth).Some? ==>
      var path := PointerTarget(n, a.depth).value;
      && At(n, path).Some? && At(n, path).value.depth == a.depth
      && (a.HoverSubmenuWithChildren? ==> !SelectPanics(At(n, path).value, a.selection))
      && HandlePointer(n, a).menu == ReplaceAt(n, path, PointerHere(At(n, path).value, a).menu)
      && HandlePointer(n, a).events == PointerHere(At(n, path).value, a).events
    decreases n
  {
    if Delegates(n, a.depth) {
      var child := SelectedSubmenu(n);
      PointerActsAtItsDepth(child, a);
      if PointerTarget(child, a.depth).Some? {
        var path := PointerTarget(n, a.depth).value;
        assert path[1..] == PointerTarget(child, a.depth).value;
      } else {
        assert WithSelectedSubmenu(n, child) == n;
      }
    } else if a.depth == n.depth {
      assert PointerTarget(n, a.depth).value == [];
    }
  }

  /** A pointer event of depth d leaves every node outside the depth-d open submenu alone. */
  lemma PointerLeavesTheRestAlone(n: Node, a: MenuAction, other: Address)
    requires IsPointer(a) && DepthsNested(n) && !PointerPanics(n, a)
    requires PointerTarget(n, a.depth).Some? ==> !(PointerTarget(n, a.depth).value <= other)
    ensures At(HandlePointer(n, a).menu, other).Some? <==> At(n, other).Some?
    ensures At(n, other).Some? ==> SameLocal(At(HandlePointer(n, a).menu, other).value, At(n, other).value)
  {
    PointerActsAtItsDepth(n, a);
    if PointerTarget(n, a.depth).Some? {
      var path := PointerTarget(n, a.depth).value;
      ReplaceAtIsLocal(n, path, PointerHere(At(n, path).value, a).menu, other);
    }
  }

  /** A keyboard action acts at the active menu and nowhere else. */
  lemma {:induction false} KeyActsAtActiveMenu(n: Node, a: MenuAction, dispatch: bool)
    requires IsKey(a) && !KeyPanics(n, a)
    ensures At(n, ActivePath(n)) == Some(ActiveMenu(n))
    ensures a.Select? ==> !SelectPanics(ActiveMenu(n), a.selection)
    ensures HandleKey(n, a, dispatch).menu == ReplaceAt(n, ActivePath(n), KeyHere(ActiveMenu(n), a, dispatch).menu)
    ensures HandleKey(n, a, dispatch).events == KeyHere(ActiveMenu(n), a, dispatch).events
    decreases n
  {
    if Descends(n) {
      KeyActsAtActiveMenu(SelectedSubmenu(n), a, dispatch);
      assert ActivePath(n)[1..] == ActivePath(SelectedSubmenu(n));
    }
  }

  // ---------------------------------------------------------------- what each step keeps

  lemma {:induction false} ClearedIsQuiet(n: Node)
    ensures Quiet(ClearSelection(n))
    ensures DepthsNested(n) ==> DepthsNested(ClearSelection(n))
    decreases n
  {
    var c := ClearSelection(n);
    forall i | 0 <= i < |c.rows| && c.rows[i].Submenu?
      ensures Quiet(c.rows[i].menu)
      ensures DepthsNested(n) ==> c.rows[i].menu.depth == n.depth + 1 && DepthsNested(c.rows[i].menu)
    {
      ClearedIsQuiet(n.rows[i].menu);
    }
  }

  lemma {:induction false} QuietIsOnePath(n: Node)
    requires Quiet(n)
    ensures OnePath(n)
  {
  }

  /** Selecting in a node keeps both invariants. */
  lemma SelectKeeps(n: Node, a: SelectAction)
    requires OnePath(n) && DepthsNested(n) && !SelectPanics(n, a)
    ensures OnePath(SelectInternal(n, a)) && DepthsNested(SelectInternal(n, a))
    ensures SelectInternal(n, a).depth == n.depth
  {
    var n' := SelectInternal(n, a);
    ClearedIsQuiet(n);
    if n.row != n'.row {
      assert n'.rows == ClearSelection(n).rows;
      forall i | 0 <= i < |n'.rows| && n'.rows[i].Submenu?
        ensures Quiet(n'.rows[i].menu) && OnePath(n'.rows[i].menu)
        ensures n'.rows[i].menu.depth == n.depth + 1 && DepthsNested(n'.rows[i].menu)
      {
        QuietIsOnePath(n'.rows[i].menu);
      }
    }
  }

  lemma SelectFromKeeps(n: Node, a: SelectAction, source: Source)
    requires OnePath(n) && DepthsNested(n) && !SelectPanics(n, a)
    ensures OnePath(SelectFrom(n, a, source)) && DepthsNested(SelectFrom(n, a, source))
    ensures SelectFrom(n, a, source).depth == n.depth
  {
    SelectKeeps(n, a);
    LocalsDoNotMatter(SelectInternal(n, a), SelectFrom(n, a, source));
  }

  /** Both invariants depend on a node's rows, selected row and depth alone. */
  lemma LocalsDoNotMatter(n: Node, m: Node)
    requires OnePath(n) && DepthsNested(n)
    requires n.rows == m.rows && n.row == m.row && n.depth == m.depth
    ensures OnePath(m) && DepthsNested(m)
  {
  }

  lemma FirstSelectableKeeps(n: Node)
    requires OnePath(n) && DepthsNested(n)
    ensures OnePath(SelectFirstSelectable(n).menu) && DepthsNested(SelectFirstSelectable(n).menu)
    ensures SelectFirstSelectable(n).menu.depth == n.depth
  {
    var found := SearchUp(n.rows, 0, |n.rows|);
    if found.Some? {
      SelectFromKeeps(n, Index(found.value, 0), KeyboardOrProgrammatic);
    }
  }

  lemma WithSubmenuKeeps(n: Node, m: Node)
    requires OnePath(n) && DepthsNested(n) && HasSelectedSubmenu(n)
    requires OnePath(m) && DepthsNested(m) && m.depth == SelectedSubmenu(n).depth
    ensures OnePath(WithSelectedSubmenu(n, m)) && DepthsNested(WithSelectedSubmenu(n, m))
  {
    var n' := WithSelectedSubmenu(n, m);
    forall i | 0 <= i < |n'.rows| && n'.rows[i].Submenu?
      ensures if n'.row == Some(i) then OnePath(n'.rows[i].menu) else Quiet(n'.rows[i].menu)
      ensures n'.rows[i].menu.depth == n'.depth + 1 && DepthsNested(n'.rows[i].menu)
    {
      assert i != n.row.value ==> n'.rows[i] == n.rows[i];
    }
  }

  lemma {:induction false} KeyKeeps(n: Node, a: MenuAction, dispatch: bool)
    requires OnePath(n) && DepthsNested(n)
    requires IsKey(a) && !KeyPanics(n, a)
    ensures var n' := HandleKey(n, a, dispatch).menu; OnePath(n') && DepthsNested(n') && n'.depth == n.depth
    decreases n
  {
    if Descends(n) {
      KeyKeeps(SelectedSubmenu(n), a, dispatch);
      WithSubmenuKeeps(n, HandleKey(SelectedSubmenu(n), a, dispatch).menu);
    } else if a.Select? {
      SelectFromKeeps(n, a.selection, KeyboardOrProgrammatic);
    } else if HasSelectedSubmenu(n) {
      FirstSelectableKeeps(SelectedSubmenu(n));
      WithSubmenuKeeps(n, SelectFirstSelectable(SelectedSubmenu(n)).menu);
    }
  }

  lemma PointerHereKeeps(n: Node, a: MenuAction)
    requires OnePath(n) && DepthsNested(n)
    requires IsPointer(a) && (a.HoverSubmenuWithChildren? ==> !SelectPanics(n, a.selection))
    ensures var n' := PointerHere(n, a).menu; OnePath(n') && DepthsNested(n') && n'.depth == n.depth
  {
    match a
    case UnhoverSubmenuParent(_, _) => LocalsDoNotMatter(n, PointerHere(n, a).menu);
    case HoverSubmenuWithChildren(_, selection) => SelectFromKeeps(n, selection, Pointer);
    case HoverSubmenuLeafNode(_, row, _, select) =>
      var hovered := n.(hovered := Some(row));
      LocalsDoNotMatter(n, hovered);
      SelectFromKeeps(hovered, Index(row, 0), Pointer);
    case CloseSubmenu(_) =>
      ClearedIsQuiet(n);
      QuietIsOnePath(ClearSelection(n));
  }

  lemma {:induction false} PointerKeeps(n: Node, a: MenuAction)
    requires OnePath(n) && DepthsNested(n)
    requires IsPointer(a) && !PointerPanics(n, a)
    ensures var n' := HandlePointer(n, a).menu; OnePath(n') && DepthsNested(n') && n'.depth == n.depth
    decreases n
  {
    if Delegates(n, a.depth) {
      PointerKeeps(SelectedSubmenu(n), a);
      WithSubmenuKeeps(n, HandlePointer(SelectedSubmenu(n), a).menu);
    } else if a.depth == n.depth {
      PointerHereKeeps(n, a);
    }
  }

  lemma HandleKeeps(n: Node, a: MenuAction, dispatch: bool)
    requires OnePath(n) && DepthsNested(n) && !Panics(n, a)
    ensures var n' := Handle(n, a, dispatch).menu; OnePath(n') && DepthsNested(n') && n'.depth == n.depth
  {
    if IsPointer(a) {
      PointerKeeps(n, a);
    } else if IsKey(a) {
      KeyKeeps(n, a, dispatch);
    }
  }

  // ---------------------------------------------------------------- construction

  /** A submenu placed under a parent: its depths nest, and its selections are as they were. */
  ghost predicate Placed(m: Node, m': Node, parent: nat) {
    && m'.depth == parent + 1 && DepthsNested(m')
    && (Quiet(m) ==> Quiet(m')) && (OnePath(m) ==> OnePath(m'))
  }

  lemma {:induction false} AssignedDepths(rows: seq<Row>, parent: nat)
    ensures forall i :: 0 <= i < |rows| && rows[i].Submenu? ==>
              Placed(rows[i].menu, AssignDepths(rows, parent)[i].menu, parent)
    decreases rows, 0
  {
    forall i | 0 <= i < |rows| && rows[i].Submenu?
      ensures Placed(rows[i].menu, AssignDepths(rows, parent)[i].menu, parent)
    {
      AssignedRowDepth(rows[i], parent);
    }
  }

  lemma {:induction false} AssignedRowDepth(r: Row, parent: nat)
    requires r.Submenu?
    ensures Placed(r.menu, AssignRowDepth(r, parent).menu, parent)
    decreases r, 0
  {
    AssignedDepths(r.menu.rows, parent + 1);
  }

  /** Rows whose submenus have never been touched. */
  predicate FreshRows(rows: seq<Row>) {
    forall i :: 0 <= i < |rows| && rows[i].Submenu? ==> Quiet(rows[i].menu)
  }

  lemma SetItemsKeeps(n: Node, rows: seq<Row>)
    ensures OnePath(SetItems(n, rows)) && DepthsNested(SetItems(n, rows)) && SetItems(n, rows).depth == n.depth
  {
    AssignedDepths(rows, n.depth);
    var placed := n.(rows := AssignDepths(rows, n.depth));
    assert DepthsNested(placed);
    ClearedIsQuiet(placed);
    QuietIsOnePath(SetItems(n, rows));
  }

  lemma AddItemsKeeps(n: Node, rows: seq<Row>)
    requires OnePath(n) && DepthsNested(n) && FreshRows(rows)
    ensures OnePath(AddItems(n, rows)) && DepthsNested(AddItems(n, rows)) && AddItems(n, rows).depth == n.depth
  {
    var all := n.rows + rows;
    var n' := AddItems(n, rows);
    AssignedDepths(all, n.depth);
    forall i | 0 <= i < |n'.rows| && n'.rows[i].Submenu?
      ensures if n.row == Some(i) then OnePath(n'.rows[i].menu) else Quiet(n'.rows[i].menu)
      ensures n'.rows[i].menu.depth == n'.depth + 1 && DepthsNested(n'.rows[i].menu)
    {
      assert all[i].Submenu?;
      if i >= |n.rows| {
        assert all[i] == rows[i - |n.rows|];
        QuietIsOnePath(all[i].menu);
      } else {
        assert all[i] == n.rows[i];
      }
    }
  }

  // ---------------------------------------------------------------- whole runs

  /** Everything a `Menu`'s owner can do to it. */
  datatype Op =
    | Act(action: MenuAction, dispatch: bool)
    | SetRows(rows: seq<Row>)
    | AddRows(rows: seq<Row>)
    | SelectHere(selection: SelectAction)
    | SelectFirst
    | ResetSelection

  /** The call does not panic, and rows added to a live menu carry no selection of their own. */
  predicate Allowed(n: Node, op: Op) {
    match op
    case Act(action, _) => !Panics(n, action)
    case AddRows(rows) => FreshRows(rows)
    case SelectHere(selection) => !SelectPanics(n, selection)
    case _ => true
  }

  function Step(n: Node, op: Op): Node
    requires Allowed(n, op)
  {
    match op
    case Act(action, dispatch) => Handle(n, action, dispatch).menu
    case SetRows(rows) => SetItems(n, rows)
    case AddRows(rows) => AddItems(n, rows)
    case SelectHere(selection) => SelectFrom(n, selection, KeyboardOrProgrammatic)
    case SelectFirst => SelectFirstSelectable(n).menu
    case ResetSelection => ClearSelection(n)
  }

  const EMPTY_MENU := Node(0, [], None, None, None, None)

  /** The state after a run; None when some call in it was not allowed. */
  function Run(ops: seq<Op>): Option<Node> {
    if ops == [] then Some(EMPTY_MENU)
    else
      var before := Run(ops[..|ops| - 1]);
      var op := ops[|ops| - 1];
      if before.Some? && Allowed(before.value, op) then Some(Step(before.value, op)) else None
  }

  /** After any run, there is one open path and every depth is the parent's plus one. */
  lemma {:induction false} RunsKeepOnePath(ops: seq<Op>)
    requires Run(ops).Some?
    ensures OnePath(Run(ops).value) && DepthsNested(Run(ops).value) && Run(ops).value.depth == 0
  {
    if ops != [] {
      var before := Run(ops[..|ops| - 1]).value;
      RunsKeepOnePath(ops[..|ops| - 1]);
      match ops[|ops| - 1]
      case Act(action, dispatch) => HandleKeeps(before, action, dispatch);
      case SetRows(rows) => SetItemsKeeps(before, rows);
      case AddRows(rows) => AddItemsKeeps(before, rows);
      case SelectHere(selection) => SelectFromKeeps(before, selection, KeyboardOrProgrammatic);
      case SelectFirst => FirstSelectableKeeps(before);
      case ResetSelection =>
        ClearedIsQuiet(before);
        QuietIsOnePath(ClearSelection(before));
    }
  }

  /** After any run, a node that holds a selection, hover or selection source is on the selected
      path, and the active menu is the deepest node that holds a selection. */
  lemma RunsHaveOneActiveMenu(ops: seq<Op>)
    requires Run(ops).Some?
    ensures var n := Run(ops).value;
      && (forall path :: At(n, path).Some? && !(path <= SelectedPath(n)) ==> Blank(At(n, path).value))
      && (forall path :: At(n, path).Some? && At(n, path).value.row.Some? ==> path <= ActivePath(n))
      && At(n, ActivePath(n)) == Some(ActiveMenu(n))
      && (ActivePath(n) == [] || ActiveMenu(n).row.Some?)
  {
    RunsKeepOnePath(ops);
    var n := Run(ops).value;
    ActiveMenuIsDeepestSelection(n);
    forall path | At(n, path).Some? && !(path <= SelectedPath(n))
      ensures Blank(At(n, path).value)
    {
      if !Blank(At(n, path).value) {
        OffPathIsBlank(n, path);
      }
    }
  }
}
