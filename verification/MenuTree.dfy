/** The nested menu as a value: rows, selection state, and what one action does to it.

    A `Node` is everything one submenu holds that navigation reads or writes. `Handle` is the
    specification that the in-place implementation in `MenuObjects` is proved against; the
    theorems about it are in `MenuCycle` (cyclic search) and `MenuPaths` (the tree). */
module MenuTree {
  import opened Options
  import S = SafeTriangles

  /** The identity of the action a row dispatches. */
  type Action = int

  datatype Fields = Fields(disabled: bool, noInteractionOnHover: bool, onSelect: Option<Action>)

  datatype Row =
    | Item(fields: Fields)
    | Separator
    | ItemsRow(cells: seq<Fields>)
    | Submenu(title: Fields, menu: Node)
    | Header(fields: Fields, clickable: bool)

  datatype Source = KeyboardOrProgrammatic | Pointer

  datatype Node = Node(
    depth: nat,
    rows: seq<Row>,
    row: Option<nat>,
    cell: Option<nat>,
    hovered: Option<nat>,
    source: Option<Source>)

  datatype SelectAction = Previous | Next | Index(row: nat, item: nat)

  datatype MenuAction =
    | Select(selection: SelectAction)
    | OpenSubmenu
    | UnhoverSubmenuParent(depth: nat, row: nat)
    | HoverSubmenuWithChildren(depth: nat, selection: SelectAction)
    | HoverSubmenuLeafNode(depth: nat, row: nat, position: S.Point, select: bool)
    | CloseSubmenu(depth: nat)
    | Close(viaSelectItem: bool)
    | Enter

  datatype Event = ItemSelected | ItemHovered | Closed(viaSelectItem: bool) | Dispatched(action: Action)

  datatype Outcome = Outcome(menu: Node, events: seq<Event>)

  // ---------------------------------------------------------------- rows

  predicate Interactive(f: Fields) {
    !f.disabled && !f.noInteractionOnHover
  }

  /** How many cells a row has; a submenu row counts its children and its title. */
  function ItemsLen(r: Row): Option<nat> {
    match r
    case Item(_) => Some(1)
    case Separator => None
    case ItemsRow(cells) => Some(|cells|)
    case Submenu(_, menu) => Some(|menu.rows| + 1)
    case Header(_, clickable) => Some(if clickable then 1 else 0)
  }

  /** The last cell of a row: `items_len().map_or(0, |l| l.saturating_sub(1))`. */
  function LastCell(r: Row): nat {
    match ItemsLen(r)
    case None => 0
    case Some(l) => if l == 0 then 0 else l - 1
  }

  predicate Selectable(r: Row) {
    match r
    case Item(fields) => Interactive(fields)
    case Separator => false
    case ItemsRow(cells) => exists i :: 0 <= i < |cells| && Interactive(cells[i])
    case Submenu(_, menu) => menu.rows != []
    case Header(_, clickable) => clickable
  }

  // ---------------------------------------------------------------- clearing

  function ClearSelection(n: Node): Node
    decreases n, 0
  {
    Node(n.depth, ClearRows(n.rows), None, None, None, None)
  }

  function ClearRow(r: Row): Row
    decreases r, 0
  {
    match r
    case Submenu(title, menu) => Submenu(title, ClearSelection(menu))
    case _ => r
  }

  function ClearRows(rows: seq<Row>): (cleared: seq<Row>)
    ensures |cleared| == |rows|
    ensures forall i :: 0 <= i < |rows| ==> cleared[i] == ClearRow(rows[i])
    decreases rows, 0
  {
    if rows == [] then [] else [ClearRow(rows[0])] + ClearRows(rows[1..])
  }

  // ---------------------------------------------------------------- cyclic search

  /** The first selectable row of `rows[lo..hi]`, if any. */
  function SearchUp(rows: seq<Row>, lo: nat, hi: nat): (found: Option<nat>)
    requires lo <= hi <= |rows|
    ensures found.Some? ==> lo <= found.value < hi && Selectable(rows[found.value])
    ensures found.Some? ==> forall j :: lo <= j < found.value ==> !Selectable(rows[j])
    ensures found.None? ==> forall j :: lo <= j < hi ==> !Selectable(rows[j])
    decreases hi - lo
  {
    if lo == hi then None
    else if Selectable(rows[lo]) then Some(lo)
    else SearchUp(rows, lo + 1, hi)
  }

  /** The last selectable row of `rows[lo..hi]`, if any. */
  function SearchDown(rows: seq<Row>, lo: nat, hi: nat): (found: Option<nat>)
    requires lo <= hi <= |rows|
    ensures found.Some? ==> lo <= found.value < hi && Selectable(rows[found.value])
    ensures found.Some? ==> forall j :: found.value < j < hi ==> !Selectable(rows[j])
    ensures found.None? ==> forall j :: lo <= j < hi ==> !Selectable(rows[j])
    decreases hi - lo
  {
    if lo == hi then None
    else if Selectable(rows[hi - 1]) then Some(hi - 1)
    else SearchDown(rows, lo, hi - 1)
  }

  /** One lap over the rows, upwards, starting just after `from`. */
  function NextRow(rows: seq<Row>, from: nat): nat {
    if rows == [] then from
    else
      var start := (from + 1) % |rows|;
      match SearchUp(rows, start, |rows|)
      case Some(i) => i
      case None =>
        match SearchUp(rows, 0, start)
        case Some(i) => i
        case None => from
  }

  /** One lap over the rows, downwards, starting just before `from`; a `from` past the end
      starts at the last row. */
  function PreviousRow(rows: seq<Row>, from: nat): nat {
    var top := if 0 < from < |rows| then from else |rows|;
    match SearchDown(rows, 0, top)
    case Some(i) => i
    case None =>
      match SearchDown(rows, top, |rows|)
      case Some(i) => i
      case None => from
  }

  // ---------------------------------------------------------------- selecting

  /** The inputs on which `select_internal` indexes past the end of its rows and panics. */
  predicate SelectPanics(n: Node, a: SelectAction) {
    match a
    case Index(_, _) => false
    case Next => n.row.Some? && n.cell.Some? && n.row.value >= |n.rows|
    case Previous =>
      && n.row.Some?
      && !(n.cell.Some? && n.cell.value > 0)
      && PreviousRow(n.rows, n.row.value) >= |n.rows|
  }

  function Target(n: Node, a: SelectAction): (nat, nat)
    requires !SelectPanics(n, a)
  {
    match a
    case Index(row, item) => (row, item)
    case Previous =>
      if n.row.None? then (0, 0)
      else if n.cell.Some? && n.cell.value > 0 then (n.row.value, n.cell.value - 1)
      else
        var r := PreviousRow(n.rows, n.row.value);
        (r, LastCell(n.rows[r]))
    case Next =>
      if n.row.None? then (0, 0)
      else if n.cell.Some? && n.cell.value < LastCell(n.rows[n.row.value])
      then (n.row.value, n.cell.value + 1)
      else (NextRow(n.rows, n.row.value), 0)
  }

  function SelectInternal(n: Node, a: SelectAction): Node
    requires !SelectPanics(n, a)
  {
    var (r, c) := Target(n, a);
    Node(n.depth, if n.row != Some(r) then ClearRows(n.rows) else n.rows,
         Some(r), Some(c), Some(r), n.source)
  }

  function SelectFrom(n: Node, a: SelectAction, source: Source): Node
    requires !SelectPanics(n, a)
  {
    SelectInternal(n, a).(source := Some(source))
  }

  // ---------------------------------------------------------------- keyboard

  predicate HasSelectedSubmenu(n: Node) {
    && n.row.Some?
    && n.row.value < |n.rows|
    && n.rows[n.row.value].Submenu?
  }

  function SelectedSubmenu(n: Node): (m: Node)
    requires HasSelectedSubmenu(n)
    ensures m < n
  {
    assert n.rows[n.row.value] in n.rows;
    n.rows[n.row.value].menu
  }

  function WithSelectedSubmenu(n: Node, m: Node): Node
    requires HasSelectedSubmenu(n)
  {
    n.(rows := n.rows[n.row.value := Submenu(n.rows[n.row.value].title, m)])
  }

  predicate Descends(n: Node) {
    HasSelectedSubmenu(n) && SelectedSubmenu(n).row.Some?
  }

  /** `active_menu_mut`: follow selected submenus for as long as they hold a selection. */
  function ActiveMenu(n: Node): Node
    decreases n
  {
    if Descends(n) then ActiveMenu(SelectedSubmenu(n)) else n
  }

  function SelectFirstSelectable(n: Node): Outcome {
    match SearchUp(n.rows, 0, |n.rows|)
    case None => Outcome(n, [])
    case Some(r) => Outcome(SelectFrom(n, Index(r, 0), KeyboardOrProgrammatic), [ItemSelected])
  }

  predicate IsKey(a: MenuAction) {
    a.Select? || a.OpenSubmenu? || a.Enter?
  }

  /** What the active menu's selected row dispatches on Enter. */
  function EnterAction(n: Node): Option<Action> {
    if n.row.None? || n.row.value >= |n.rows| then None
    else
      match n.rows[n.row.value]
      case Item(fields) => fields.onSelect
      case Separator => None
      case ItemsRow(cells) =>
        var c := if n.cell.Some? then n.cell.value else 0;
        if c < |cells| then cells[c].onSelect else None
      case Submenu(_, _) => None
      case Header(fields, clickable) => if clickable then fields.onSelect else None
  }

  function EnterEvents(chosen: Option<Action>, dispatch: bool): seq<Event> {
    match chosen
    case None => []
    case Some(action) => [if dispatch then Dispatched(action) else ItemSelected, Closed(true)]
  }

  predicate KeyPanics(n: Node, a: MenuAction)
    requires IsKey(a)
    decreases n
  {
    if Descends(n) then KeyPanics(SelectedSubmenu(n), a)
    else a.Select? && SelectPanics(n, a.selection)
  }

  /** What a keyboard action does at the active menu. */
  function KeyHere(n: Node, a: MenuAction, dispatch: bool): Outcome
    requires IsKey(a) && (a.Select? ==> !SelectPanics(n, a.selection))
  {
    if a.Select? then
      Outcome(SelectFrom(n, a.selection, KeyboardOrProgrammatic), [ItemSelected])
    else if HasSelectedSubmenu(n) then
      var out := SelectFirstSelectable(SelectedSubmenu(n));
      Outcome(WithSelectedSubmenu(n, out.menu), out.events)
    else if a.Enter? then
      Outcome(n, EnterEvents(EnterAction(n), dispatch))
    else
      Outcome(n, [])
  }

  /** A keyboard action is carried down to the active menu. */
  function HandleKey(n: Node, a: MenuAction, dispatch: bool): Outcome
    requires IsKey(a) && !KeyPanics(n, a)
    decreases n
  {
    if Descends(n) then
      var out := HandleKey(SelectedSubmenu(n), a, dispatch);
      Outcome(WithSelectedSubmenu(n, out.menu), out.events)
    else
      KeyHere(n, a, dispatch)
  }

  // ---------------------------------------------------------------- pointer

  predicate IsPointer(a: MenuAction) {
    a.UnhoverSubmenuParent? || a.HoverSubmenuWithChildren? || a.HoverSubmenuLeafNode? || a.CloseSubmenu?
  }

  /** The event goes one level down: it is not for this depth, and the selected submenu is not
      already past the event's depth. */
  predicate Delegates(n: Node, depth: nat) {
    depth != n.depth && HasSelectedSubmenu(n) && SelectedSubmenu(n).depth <= depth
  }

  predicate PointerPanics(n: Node, a: MenuAction)
    requires IsPointer(a)
    decreases n
  {
    if Delegates(n, a.depth) then PointerPanics(SelectedSubmenu(n), a)
    else a.depth == n.depth && a.HoverSubmenuWithChildren? && SelectPanics(n, a.selection)
  }

  function PointerHere(n: Node, a: MenuAction): Outcome
    requires IsPointer(a)
    requires a.HoverSubmenuWithChildren? ==> !SelectPanics(n, a.selection)
  {
    match a
    case UnhoverSubmenuParent(_, row) =>
      Outcome(if n.hovered == Some(row) then n.(hovered := None) else n, [])
    case HoverSubmenuWithChildren(_, selection) =>
      Outcome(SelectFrom(n, selection, Pointer), [ItemSelected])
    case HoverSubmenuLeafNode(_, row, _, select) =>
      var hovered := n.(hovered := Some(row));
      Outcome(
        if select && row < |n.rows| && Selectable(n.rows[row])
        then SelectFrom(hovered, Index(row, 0), Pointer)
        else hovered,
        [ItemHovered])
    case CloseSubmenu(_) => Outcome(ClearSelection(n), [])
  }

  /** A pointer event walks down the selected submenus to its depth, or is dropped. */
  function HandlePointer(n: Node, a: MenuAction): Outcome
    requires IsPointer(a) && !PointerPanics(n, a)
    decreases n
  {
    if Delegates(n, a.depth) then
      var out := HandlePointer(SelectedSubmenu(n), a);
      Outcome(WithSelectedSubmenu(n, out.menu), out.events)
    else if a.depth == n.depth then PointerHere(n, a)
    else Outcome(n, [])
  }

  predicate Panics(n: Node, a: MenuAction) {
    if IsPointer(a) then PointerPanics(n, a)
    else if IsKey(a) then KeyPanics(n, a)
    else false
  }

  function Handle(n: Node, a: MenuAction, dispatch: bool): Outcome
    requires !Panics(n, a)
  {
    if IsPointer(a) then HandlePointer(n, a)
    else if IsKey(a) then HandleKey(n, a, dispatch)
    else Outcome(n, [Closed(a.viaSelectItem)])
  }

  // ---------------------------------------------------------------- building

  function AssignDepths(rows: seq<Row>, parent: nat): (placed: seq<Row>)
    ensures |placed| == |rows|
    ensures forall i :: 0 <= i < |rows| ==> placed[i] == AssignRowDepth(rows[i], parent)
    decreases rows, 0
  {
    if rows == [] then [] else [AssignRowDepth(rows[0], parent)] + AssignDepths(rows[1..], parent)
  }

  function AssignRowDepth(r: Row, parent: nat): Row
    decreases r, 0
  {
    match r
    case Submenu(title, menu) =>
      Submenu(title, menu.(depth := parent + 1, rows := AssignDepths(menu.rows, parent + 1)))
    case _ => r
  }

  function SetItems(n: Node, rows: seq<Row>): Node {
    ClearSelection(n.(rows := AssignDepths(rows, n.depth)))
  }

  function AddItems(n: Node, rows: seq<Row>): Node {
    n.(rows := AssignDepths(n.rows + rows, n.depth))
  }
}
