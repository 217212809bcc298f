/** The menu as the program keeps it: a tree of `SubMenu` objects updated in place. Every method
    is proved to change the abstract value `View` exactly as `MenuTree` says. */
module MenuObjects {
  import opened Options
  import T = MenuTree

  datatype MenuItem =
    | Item(fields: T.Fields)
    | Separator
    | ItemsRow(cells: seq<T.Fields>)
    | Submenu(title: T.Fields, menu: SubMenu)
    | Header(fields: T.Fields, clickable: bool)

  /** The row a menu item stands for. */
  ghost function RowOf(item: MenuItem): T.Row
    reads if item.Submenu? then {item.menu} else {}
  {
    match item
    case Item(fields) => T.Item(fields)
    case Separator => T.Separator
    case ItemsRow(cells) => T.ItemsRow(cells)
    case Submenu(title, menu) => T.Submenu(title, menu.View)
    case Header(fields, clickable) => T.Header(fields, clickable)
  }

  ghost function MenusOf(items: seq<MenuItem>): set<SubMenu> {
    set i | 0 <= i < |items| && items[i].Submenu? :: items[i].menu
  }

  ghost function RowsOf(items: seq<MenuItem>): (rows: seq<T.Row>)
    reads MenusOf(items)
    ensures |rows| == |items|
    ensures forall i :: 0 <= i < |items| ==> rows[i] == RowOf(items[i])
  {
    if items == [] then [] else
      assert forall i :: 0 <= i < |items| - 1 && items[1..][i].Submenu? ==> items[i + 1].menu in MenusOf(items);
      [RowOf(items[0])] + RowsOf(items[1..])
  }

  lemma {:induction false} RowsOfAppend(items: seq<MenuItem>, more: seq<MenuItem>)
    ensures RowsOf(items + more) == RowsOf(items) + RowsOf(more)
  {
    hide RowOf, RowsOf;
    var all := items + more;
    forall i | 0 <= i < |all|
      ensures RowsOf(all)[i] == (RowsOf(items) + RowsOf(more))[i]
    {
      assert all[i] == if i < |items| then items[i] else more[i - |items|];
    }
  }

  /** Submenus that are valid, share no objects, and live in `footprint`: what Rust's ownership
      guarantees of a vector of items. */
  ghost predicate Owned(items: seq<MenuItem>, footprint: set<object>)
    reads footprint
  {
    && (forall i :: 0 <= i < |items| && items[i].Submenu? ==>
          items[i].menu in footprint && items[i].menu.Repr <= footprint && items[i].menu.Valid())
    && (forall i, j :: 0 <= i < j < |items| && items[i].Submenu? && items[j].Submenu? ==>
          items[i].menu.Repr !! items[j].menu.Repr)
  }

  ghost function WithRow(n: T.Node, i: nat, r: T.Row): T.Node
    requires i < |n.rows|
  {
    n.(rows := n.rows[i := r])
  }

  predicate ItemSelectable(item: MenuItem)
    reads if item.Submenu? then {item.menu} else {}
  {
    match item
    case Item(fields) => T.Interactive(fields)
    case Separator => false
    case ItemsRow(cells) => exists i :: 0 <= i < |cells| && T.Interactive(cells[i])
    case Submenu(_, menu) => menu.items != []
    case Header(_, clickable) => clickable
  }

  function ItemLen(item: MenuItem): Option<nat>
    reads if item.Submenu? then {item.menu} else {}
  {
    match item
    case Item(_) => Some(1)
    case Separator => None
    case ItemsRow(cells) => Some(|cells|)
    case Submenu(_, menu) => Some(|menu.items| + 1)
    case Header(_, clickable) => Some(if clickable then 1 else 0)
  }

  function ItemLastCell(item: MenuItem): nat
    reads if item.Submenu? then {item.menu} else {}
  {
    match ItemLen(item)
    case None => 0
    case Some(l) => if l == 0 then 0 else l - 1
  }

  class SubMenu {
    var depth: nat
    var items: seq<MenuItem>
    var selectedRowIndex: Option<nat>
    var selectedItemIndex: Option<nat>
    var hoveredRowIndex: Option<nat>
    var lastSelectionSource: Option<T.Source>
    ghost var View: T.Node
    ghost var Repr: set<object>

    /** The submenus below are valid, pairwise disjoint, and do not contain this one. */
    ghost predicate Wired()
      reads this, Repr
      decreases Repr, 0
    {
      && this in Repr
      && (forall i :: 0 <= i < |items| && items[i].Submenu? ==>
            && items[i].menu in Repr && items[i].menu.Repr <= Repr && this !in items[i].menu.Repr
            && items[i].menu.Valid())
      && (forall i, j :: 0 <= i < j < |items| && items[i].Submenu? && items[j].Submenu? ==>
            items[i].menu.Repr !! items[j].menu.Repr)
    }

    /** `View` is the value of this menu and of everything below it. */
    ghost predicate Valid()
      reads this, Repr
      ensures Valid() ==> this in Repr
      decreases Repr, 1
    {
      && Wired()
      && View.depth == depth
      && View.row == selectedRowIndex
      && View.cell == selectedItemIndex
      && View.hovered == hoveredRowIndex
      && View.source == lastSelectionSource
      && |View.rows| == |items|
      && (forall i :: 0 <= i < |items| ==> View.rows[i] == RowOf(items[i]))
    }

    /** The pure reading of a row agrees with the reading through the objects. */
    lemma RowAgrees(i: nat)
      requires Valid() && i < |items|
      ensures ItemSelectable(items[i]) == T.Selectable(View.rows[i])
      ensures ItemLastCell(items[i]) == T.LastCell(View.rows[i])
    {
      if items[i].Submenu? {
        assert items[i].menu.Valid();
        assert |items[i].menu.View.rows| == |items[i].menu.items|;
      }
    }

    /** Changing one submenu, within its own objects, changes that one row and no other. */
    twostate lemma ChildChanged(i: nat)
      requires old(Wired()) && unchanged(this)
      requires i < |items| && items[i].Submenu?
      requires items[i].menu.Valid() && items[i].menu.Repr == old(items[i].menu.Repr)
      requires forall o :: o in Repr && o !in items[i].menu.Repr ==> unchanged(o)
      ensures Wired()
      ensures forall j :: 0 <= j < |items| && j != i ==> RowOf(items[j]) == old(RowOf(items[j]))
      ensures RowOf(items[i]) == T.Submenu(items[i].title, items[i].menu.View)
    {
      forall j | 0 <= j < |items| && j != i && items[j].Submenu?
        ensures items[j].menu.Valid() && items[j].menu.Repr == old(items[j].menu.Repr)
        ensures items[j].menu.View == old(items[j].menu.View)
      {
        assert items[j].menu.Repr !! items[i].menu.Repr by {
          if i < j {} else {}
        }
      }
    }

    /** Brings `View` up to date with the row of a submenu that has changed. */
    ghost method Adopt(i: nat)
      requires Wired() && i < |items| && items[i].Submenu?
      requires View ==
        T.Node(depth, View.rows, selectedRowIndex, selectedItemIndex, hoveredRowIndex, lastSelectionSource)
      requires |View.rows| == |items|
      requires forall j :: 0 <= j < |items| && j != i ==> View.rows[j] == RowOf(items[j])
      modifies this`View
      ensures Valid()
      ensures View == WithRow(old(View), i, T.Submenu(items[i].title, items[i].menu.View))
    {
      View := WithRow(View, i, RowOf(items[i]));
    }

    /** `SubMenu::new`. */
    constructor (newItems: seq<MenuItem>, ghost footprint: set<object>)
      requires Owned(newItems, footprint)
      modifies footprint
      ensures Valid() && Repr == {this} + footprint && items == newItems
      ensures View == T.Node(0, T.AssignDepths(old(RowsOf(newItems)), 0), None, None, None, None)
    {
      depth := 0;
      items := newItems;
      selectedRowIndex, selectedItemIndex, hoveredRowIndex, lastSelectionSource := None, None, None, None;
      View := T.Node(0, RowsOf(newItems), None, None, None, None);
      Repr := {this} + footprint;
      new;
      AssignNestedDepths();
    }

    method SetDepth(d: nat)
      requires Valid()
      modifies this
      ensures Valid() && Repr == old(Repr) && View == old(View).(depth := d)
    {
      depth := d;
      View := View.(depth := d);
    }

    method ClearOwnSelection()
      requires Valid()
      modifies this
      ensures Valid() && Repr == old(Repr) && items == old(items)
      ensures View == T.Node(old(View).depth, old(View).rows, None, None, None, None)
    {
      selectedRowIndex := None;
      selectedItemIndex := None;
      hoveredRowIndex := None;
      lastSelectionSource := None;
      View := T.Node(View.depth, View.rows, None, None, None, None);
    }

    method AssignNestedDepths()
      requires Valid()
      modifies Repr
      ensures Valid() && Repr == old(Repr) && items == old(items)
      ensures View == old(View).(rows := T.AssignDepths(old(View).rows, depth))
      decreases Repr, 1
    {
      var i := 0;
      while i < |items|
        invariant 0 <= i <= |items|
        invariant Valid() && Repr == old(Repr) && items == old(items)
        invariant View == old(View).(rows := View.rows)
        invariant forall j :: 0 <= j < i ==> View.rows[j] == T.AssignRowDepth(old(View).rows[j], depth)
        invariant forall j :: i <= j < |items| ==> View.rows[j] == old(View).rows[j]
      {
        if items[i].Submenu? {
          AssignDepthOf(i);
        }
        i := i + 1;
      }
      assert View.rows == T.AssignDepths(old(View).rows, depth);
    }

    method AssignDepthOf(i: nat)
      requires Valid() && i < |items| && items[i].Submenu?
      modifies Repr
      ensures Valid() && Repr == old(Repr) && items == old(items)
      ensures View == old(View).(rows := old(View).rows[i := T.AssignRowDepth(old(View).rows[i], depth)])
      decreases Repr, 0
    {
      var menu := items[i].menu;
      menu.SetDepth(depth + 1);
      menu.AssignNestedDepths();
      ChildChanged(i);
      Adopt(i);
    }

    method ClearNestedSubmenuSelections()
      requires Valid()
      modifies Repr
      ensures Valid() && Repr == old(Repr) && items == old(items)
      ensures View == old(View).(rows := T.ClearRows(old(View).rows))
      decreases Repr, 1
    {
      var i := 0;
      while i < |items|
        invariant 0 <= i <= |items|
        invariant Valid() && Repr == old(Repr) && items == old(items)
        invariant View == old(View).(rows := View.rows)
        invariant forall j :: 0 <= j < i ==> View.rows[j] == T.ClearRow(old(View).rows[j])
        invariant forall j :: i <= j < |items| ==> View.rows[j] == old(View).rows[j]
      {
        if items[i].Submenu? {
          ClearSubmenu(i);
        }
        i := i + 1;
      }
      assert View.rows == T.ClearRows(old(View).rows);
    }

    method ClearSubmenu(i: nat)
      requires Valid() && i < |items| && items[i].Submenu?
      modifies Repr
      ensures Valid() && Repr == old(Repr) && items == old(items)
      ensures View == old(View).(rows := old(View).rows[i := T.ClearRow(old(View).rows[i])])
      decreases Repr, 0
    {
      var menu := items[i].menu;
      menu.ClearOwnSelection();
      menu.ClearNestedSubmenuSelections();
      ChildChanged(i);
      Adopt(i);
    }

    method ResetSelection()
      requires Valid()
      modifies Repr
      ensures Valid() && Repr == old(Repr) && items == old(items)
      ensures View == T.ClearSelection(old(View))
    {
      ClearOwnSelection();
      ClearNestedSubmenuSelections();
    }

    /** The first selectable item of items[lo..hi]. */
    method FindUp(lo: nat, hi: nat) returns (found: Option<nat>)
      requires Valid() && lo <= hi <= |items|
      ensures found == T.SearchUp(View.rows, lo, hi)
    {
      var i := lo;
      while i < hi && !ItemSelectable(items[i])
        invariant lo <= i <= hi
        invariant T.SearchUp(View.rows, lo, hi) == T.SearchUp(View.rows, i, hi)
      {
        RowAgrees(i);
        i := i + 1;
      }
      if i < hi {
        RowAgrees(i);
      }
      found := if i < hi then Some(i) else None;
    }

    /** The last selectable item of items[lo..hi]. */
    method FindDown(lo: nat, hi: nat) returns (found: Option<nat>)
      requires Valid() && lo <= hi <= |items|
      ensures found == T.SearchDown(View.rows, lo, hi)
    {
      var i := hi;
      while lo < i && !ItemSelectable(items[i - 1])
        invariant lo <= i <= hi
        invariant T.SearchDown(View.rows, lo, hi) == T.SearchDown(View.rows, lo, i)
      {
        RowAgrees(i - 1);
        i := i - 1;
      }
      if lo < i {
        RowAgrees(i - 1);
      }
      found := if lo < i then Some(i - 1) else None;
    }

    /** One lap of the cyclic iterator, forwards. */
    method FindNext(from: nat) returns (r: nat)
      requires Valid()
      ensures r == T.NextRow(View.rows, from)
    {
      r := from;
      if |items| > 0 {
        var start := (from + 1) % |items|;
        var found := FindUp(start, |items|);
        if found.None? {
          found := FindUp(0, start);
        }
        if found.Some? {
          r := found.value;
        }
      }
    }

    /** One lap of the cyclic iterator, backwards. */
    method FindPrevious(from: nat) returns (r: nat)
      requires Valid()
      ensures r == T.PreviousRow(View.rows, from)
    {
      var top := if 0 < from < |items| then from else |items|;
      var found := FindDown(0, top);
      if found.None? {
        found := FindDown(top, |items|);
      }
      r := if found.Some? then found.value else from;
    }

    /** The row and cell an action selects. */
    method ChooseTarget(action: T.SelectAction) returns (row: nat, item: nat)
      requires Valid() && !T.SelectPanics(View, action)
      ensures (row, item) == T.Target(View, action)
    {
      row, item := 0, 0;
      if action.Index? {
        return action.row, action.item;
      }
      if selectedRowIndex.None? {
        return;
      }
      var current := selectedRowIndex.value;
      if action.Previous? {
        if selectedItemIndex.Some? && selectedItemIndex.value > 0 {
          return current, selectedItemIndex.value - 1;
        }
        row := FindPrevious(current);
        RowAgrees(row);
        item := ItemLastCell(items[row]);
      } else {
        if selectedItemIndex.Some? {
          RowAgrees(current);
          if selectedItemIndex.value < ItemLastCell(items[current]) {
            return current, selectedItemIndex.value + 1;
          }
        }
        row := FindNext(current);
      }
    }

    method SelectInternal(action: T.SelectAction)
      requires Valid() && !T.SelectPanics(View, action)
      modifies Repr
      ensures Valid() && Repr == old(Repr) && items == old(items)
      ensures View == T.SelectInternal(old(View), action)
    {
      var row, item := ChooseTarget(action);
      var rowChanged := selectedRowIndex != Some(row);
      SetSelection(row, item);
      if rowChanged {
        ClearNestedSubmenuSelections();
      }
    }

    method SetSelection(row: nat, item: nat)
      requires Valid()
      modifies this
      ensures Valid() && Repr == old(Repr) && items == old(items)
      ensures View == T.Node(old(View).depth, old(View).rows, Some(row), Some(item), Some(row), old(View).source)
    {
      selectedRowIndex := Some(row);
      selectedItemIndex := Some(item);
      hoveredRowIndex := Some(row);
      View := T.Node(View.depth, View.rows, Some(row), Some(item), Some(row), View.source);
    }

    method SelectWithSource(action: T.SelectAction, source: T.Source) returns (events: seq<T.Event>)
      requires Valid() && !T.SelectPanics(View, action)
      modifies Repr
      ensures Valid() && Repr == old(Repr) && items == old(items)
      ensures View == T.SelectFrom(old(View), action, source) && events == [T.ItemSelected]
    {
      SelectInternal(action);
      lastSelectionSource := Some(source);
      View := View.(source := Some(source));
      events := [T.ItemSelected];
    }

    method SelectFirstSelectable() returns (events: seq<T.Event>)
      requires Valid()
      modifies Repr
      ensures Valid() && Repr == old(Repr) && items == old(items)
      ensures T.Outcome(View, events) == T.SelectFirstSelectable(old(View))
    {
      var found := FindUp(0, |items|);
      if found.None? {
        return [];
      }
      events := SelectWithSource(T.Index(found.value, 0), T.KeyboardOrProgrammatic);
    }

    /** The selected row's submenu, if it has one. */
    method SelectedSubmenu() returns (menu: SubMenu?)
      requires Valid()
      ensures menu != null <==> T.HasSelectedSubmenu(View)
      ensures menu != null ==>
                && selectedRowIndex.Some? && selectedRowIndex.value < |items|
                && items[selectedRowIndex.value].Submenu? && items[selectedRowIndex.value].menu == menu
                && menu.Valid() && menu.View == T.SelectedSubmenu(View)
    {
      menu := null;
      if selectedRowIndex.Some? && selectedRowIndex.value < |items| && items[selectedRowIndex.value].Submenu? {
        menu := items[selectedRowIndex.value].menu;
      }
    }

    /** A keyboard action, carried down the selected submenus to the active menu. */
    method ActAtActiveMenu(action: T.MenuAction, dispatch: bool) returns (events: seq<T.Event>)
      requires Valid() && T.IsKey(action) && !T.KeyPanics(View, action)
      modifies Repr
      ensures Valid() && Repr == old(Repr) && items == old(items)
      ensures T.Outcome(View, events) == T.HandleKey(old(View), action, dispatch)
      decreases Repr
    {
      var submenu := SelectedSubmenu();
      if submenu != null && submenu.selectedRowIndex.Some? {
        assert T.Descends(View);
        events := submenu.ActAtActiveMenu(action, dispatch);
        ChildChanged(selectedRowIndex.value);
        Adopt(selectedRowIndex.value);
      } else {
        assert !T.Descends(View);
        events := ActHere(action, dispatch);
      }
    }

    /** A keyboard action at the active menu itself. */
    method ActHere(action: T.MenuAction, dispatch: bool) returns (events: seq<T.Event>)
      requires Valid() && T.IsKey(action) && (action.Select? ==> !T.SelectPanics(View, action.selection))
      modifies Repr
      ensures Valid() && Repr == old(Repr) && items == old(items)
      ensures T.Outcome(View, events) == T.KeyHere(old(View), action, dispatch)
    {
      if action.Select? {
        events := SelectWithSource(action.selection, T.KeyboardOrProgrammatic);
        return;
      }
      var submenu := SelectedSubmenu();
      if submenu != null {
        events := submenu.SelectFirstSelectable();
        ChildChanged(selectedRowIndex.value);
        Adopt(selectedRowIndex.value);
      } else if action.Enter? {
        var chosen := SelectedAction();
        events := T.EnterEvents(chosen, dispatch);
      } else {
        events := [];
      }
    }

    /** What the selected row dispatches on Enter when it is not a submenu. */
    method SelectedAction() returns (chosen: Option<T.Action>)
      requires Valid()
      ensures chosen == T.EnterAction(View)
    {
      if selectedRowIndex.None? || selectedRowIndex.value >= |items| {
        return None;
      }
      var cell := if selectedItemIndex.Some? then selectedItemIndex.value else 0;
      match items[selectedRowIndex.value]
      case Item(fields) => chosen := fields.onSelect;
      case Separator => chosen := None;
      case ItemsRow(cells) => chosen := if cell < |cells| then cells[cell].onSelect else None;
      case Submenu(_, _) => chosen := None;
      case Header(fields, clickable) => chosen := if clickable then fields.onSelect else None;
    }

    /** Hands a pointer event to the selected submenu when it is meant for a deeper level. */
    method DelegatePointerAction(action: T.MenuAction, dispatch: bool) returns (handled: bool, events: seq<T.Event>)
      requires Valid() && !T.Panics(View, action)
      modifies Repr
      ensures Valid() && Repr == old(Repr) && items == old(items)
      ensures handled <==> T.IsPointer(action) && T.Delegates(old(View), action.depth)
      ensures handled ==> T.Outcome(View, events) == T.HandlePointer(old(View), action)
      ensures !handled ==> View == old(View)
      decreases Repr, 0
    {
      handled, events := false, [];
      if !T.IsPointer(action) || action.depth == depth {
        return;
      }
      var submenu := SelectedSubmenu();
      if submenu == null || submenu.depth > action.depth {
        return;
      }
      events := submenu.HandleAction(action, dispatch);
      ChildChanged(selectedRowIndex.value);
      Adopt(selectedRowIndex.value);
      handled := true;
    }

    method HandleAction(action: T.MenuAction, dispatch: bool) returns (events: seq<T.Event>)
      requires Valid() && !T.Panics(View, action)
      modifies Repr
      ensures Valid() && Repr == old(Repr) && items == old(items)
      ensures T.Outcome(View, events) == T.Handle(old(View), action, dispatch)
      decreases Repr, 1
    {
      var handled;
      handled, events := DelegatePointerAction(action, dispatch);
      if handled {
        return;
      }
      if T.IsPointer(action) {
        events := [];
        if action.depth == depth {
          events := PointerHere(action);
        }
      } else if action.Close? {
        events := [T.Closed(action.viaSelectItem)];
      } else {
        events := ActAtActiveMenu(action, dispatch);
      }
    }

    /** A pointer event that has reached its own depth. */
    method PointerHere(action: T.MenuAction) returns (events: seq<T.Event>)
      requires Valid() && T.IsPointer(action)
      requires action.HoverSubmenuWithChildren? ==> !T.SelectPanics(View, action.selection)
      modifies Repr
      ensures Valid() && Repr == old(Repr) && items == old(items)
      ensures T.Outcome(View, events) == T.PointerHere(old(View), action)
    {
      events := [];
      match action
      case HoverSubmenuWithChildren(_, selection) =>
        events := SelectWithSource(selection, T.Pointer);
      case UnhoverSubmenuParent(_, row) =>
        if hoveredRowIndex == Some(row) {
          SetHovered(None);
        }
      case HoverSubmenuLeafNode(_, row, _, select) =>
        SetHovered(Some(row));
        var selects := false;
        if select && row < |items| {
          RowAgrees(row);
          selects := ItemSelectable(items[row]);
        }
        if selects {
          events := SelectWithSource(T.Index(row, 0), T.Pointer);
        }
        events := [T.ItemHovered];
      case CloseSubmenu(_) =>
        ResetSelection();
    }

    method SetHovered(row: Option<nat>)
      requires Valid()
      modifies this
      ensures Valid() && Repr == old(Repr) && items == old(items)
      ensures View == old(View).(hovered := row)
    {
      hoveredRowIndex := row;
      View := View.(hovered := row);
    }

    /** Installs a vector of items, without touching anything below. */
    method PutItems(newItems: seq<MenuItem>, ghost footprint: set<object>)
      requires Valid() && Owned(newItems, footprint) && this !in footprint
      modifies this
      ensures Valid() && Repr == {this} + footprint && items == newItems
      ensures View == old(View).(rows := old(RowsOf(newItems)))
    {
      hide RowsOf;
      View := View.(rows := RowsOf(newItems));
      items := newItems;
      Repr := {this} + footprint;
    }

    /** `Menu::set_items`, on the menu that holds the rows. */
    method SetItems(newItems: seq<MenuItem>, ghost footprint: set<object>)
      requires Valid() && Owned(newItems, footprint) && this !in footprint
      modifies this, footprint
      ensures Valid() && Repr == {this} + footprint && items == newItems
      ensures View == T.SetItems(old(View), old(RowsOf(newItems)))
    {
      PutItems(newItems, footprint);
      AssignNestedDepths();
      ResetSelection();
    }

    /** `Menu::add_items`. */
    method AddItems(newItems: seq<MenuItem>, ghost footprint: set<object>)
      requires Valid() && Owned(newItems, footprint) && Repr !! footprint
      modifies Repr, footprint
      ensures Valid() && Repr == old(Repr) + footprint && items == old(items) + newItems
      ensures View == T.AddItems(old(View), old(RowsOf(newItems)))
    {
      OwnedTogether(newItems, footprint);
      RowsTogether(newItems);
      PutItems(items + newItems, (Repr - {this}) + footprint);
      assert View.rows == old(View).rows + old(RowsOf(newItems));
      AssignNestedDepths();
    }

    lemma OwnedTogether(newItems: seq<MenuItem>, footprint: set<object>)
      requires Valid() && Owned(newItems, footprint) && Repr !! footprint
      ensures Owned(items + newItems, (Repr - {this}) + footprint)
    {
      var all := items + newItems;
      forall i, j | 0 <= i < j < |all| && all[i].Submenu? && all[j].Submenu?
        ensures all[i].menu.Repr !! all[j].menu.Repr
      {
        if i < |items| {
          assert all[i].menu.Repr <= Repr;
        }
        if j >= |items| {
          assert all[j] == newItems[j - |items|];
          assert all[j].menu.Repr <= footprint;
        }
      }
    }

    lemma ViewHasTheRows()
      requires Valid()
      ensures View.rows == RowsOf(items)
    {
      hide Wired, RowOf;
    }

    lemma RowsTogether(newItems: seq<MenuItem>)
      requires Valid()
      ensures RowsOf(items + newItems) == View.rows + RowsOf(newItems)
    {
      ViewHasTheRows();
      hide Valid;
      RowsOfAppend(items, newItems);
    }
  }
}
