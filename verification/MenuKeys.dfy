/** The arrow keys on a whole menu: they walk the cycle of the active menu, wherever it is. */
module MenuKeys {
  import opened Options
  import opened MenuTree
  import opened MenuCycle
  import opened MenuPaths

  lemma {:induction false} KeyPanicsIff(n: Node, a: SelectAction)
    ensures KeyPanics(n, Select(a)) <==> SelectPanics(ActiveMenu(n), a)
    decreases n
  {
    if Descends(n) {
      KeyPanicsIff(SelectedSubmenu(n), a);
    }
  }

  /** A selection does not open the submenu it moves to. */
  lemma SelectingStaysHere(n: Node, a: SelectAction, source: Source)
    requires !SelectPanics(n, a) && !Descends(n)
    ensures !Descends(SelectFrom(n, a, source))
  {
    var n' := SelectFrom(n, a, source);
    if HasSelectedSubmenu(n') && n.row != n'.row {
      var r := n.rows[n'.row.value];
      assert n'.rows[n'.row.value] == ClearRow(r);
      assert r.Submenu? && ClearRow(r).menu == ClearSelection(r.menu);
    }
  }

  /** A selection by key takes place in the active menu, which stays the active menu. */
  lemma {:induction false} KeySelectsInActiveMenu(n: Node, a: SelectAction, dispatch: bool)
    requires !KeyPanics(n, Select(a))
    ensures !SelectPanics(ActiveMenu(n), a)
    ensures var n' := HandleKey(n, Select(a), dispatch).menu;
      && ActivePath(n') == ActivePath(n)
      && ActiveMenu(n') == SelectFrom(ActiveMenu(n), a, KeyboardOrProgrammatic)
    ensures Descends(n) ==> HandleKey(n, Select(a), dispatch).menu.row == n.row
    ensures HandleKey(n, Select(a), dispatch).menu.row.Some?
    decreases n
  {
    if Descends(n) {
      KeySelectsInActiveMenu(SelectedSubmenu(n), a, dispatch);
      var n' := HandleKey(n, Select(a), dispatch).menu;
      assert SelectedSubmenu(n') == HandleKey(SelectedSubmenu(n), Select(a), dispatch).menu;
      assert Descends(n');
    } else {
      SelectingStaysHere(n, a, KeyboardOrProgrammatic);
    }
  }

  /** `k` presses of the same arrow key on the whole menu; None once a press has panicked. */
  function PressKey(n: Node, a: SelectAction, dispatch: bool, k: nat): Option<Node> {
    if k == 0 then Some(n)
    else
      var before := PressKey(n, a, dispatch, k - 1);
      if before.None? || Panics(before.value, Select(a)) then None
      else Some(Handle(before.value, Select(a), dispatch).menu)
  }

  predicate SameButSource(n: Node, m: Node) {
    n == m.(source := n.source)
  }

  lemma SelectingIgnoresSource(n: Node, m: Node, a: SelectAction)
    requires SameButSource(n, m)
    ensures SelectPanics(n, a) <==> SelectPanics(m, a)
    ensures !SelectPanics(n, a) ==> SameButSource(SelectFrom(n, a, KeyboardOrProgrammatic), SelectInternal(m, a))
  {
    hide PreviousRow, NextRow, ClearRows;
  }

  /** Keys pressed on the whole menu are keys pressed on its active menu. */
  lemma {:induction false} KeysPressTheActiveMenu(n: Node, a: SelectAction, dispatch: bool, k: nat)
    ensures PressKey(n, a, dispatch, k).Some? <==> Press(ActiveMenu(n), a, k).Some?
    ensures PressKey(n, a, dispatch, k).Some? ==>
      var n' := PressKey(n, a, dispatch, k).value;
      && ActivePath(n') == ActivePath(n)
      && SameButSource(ActiveMenu(n'), Press(ActiveMenu(n), a, k).value)
  {
    hide SelectInternal, SelectPanics, KeyPanics, HandleKey;
    if k > 0 {
      KeysPressTheActiveMenu(n, a, dispatch, k - 1);
      var before := PressKey(n, a, dispatch, k - 1);
      if before.Some? {
        KeyPanicsIff(before.value, a);
        SelectingIgnoresSource(ActiveMenu(before.value), Press(ActiveMenu(n), a, k - 1).value, a);
        if !Panics(before.value, Select(a)) {
          KeySelectsInActiveMenu(before.value, a, dispatch);
        }
      }
    }
  }

  /** `k` key presses leave the same submenu active, with its selection at `q`. */
  predicate KeysLeadTo(n: Node, a: SelectAction, dispatch: bool, k: nat, q: Position) {
    var n' := PressKey(n, a, dispatch, k);
    n'.Some? && ActivePath(n'.value) == ActivePath(n) && SelectedAt(ActiveMenu(n'.value), q)
  }

  lemma KeysLeadToIff(n: Node, a: SelectAction, dispatch: bool, k: nat, q: Position)
    ensures KeysLeadTo(n, a, dispatch, k, q) <==> PressedTo(ActiveMenu(n), a, k, q)
  {
    hide PressKey, Press, ActiveMenu;
    KeysPressTheActiveMenu(n, a, dispatch, k);
  }

  /** On any menu whose active submenu has a stop selected, the Next key walks that submenu's cells in
      one single cycle, and the submenu stays the active one. */
  lemma NextKeyIsOneCycle(n: Node, p: Position, dispatch: bool)
    requires SelectedAt(ActiveMenu(n), p) && IsStop(ActiveMenu(n).rows, p)
    ensures var rows := ActiveMenu(n).rows;
      && KeysLeadTo(n, Next, dispatch, CycleLength(rows), p)
      && (forall q :: IsStop(rows, q) ==> exists k: nat :: k < CycleLength(rows) && KeysLeadTo(n, Next, dispatch, k, q))
      && (forall q, j: nat, k: nat :: j < k < CycleLength(rows) ==>
            !(KeysLeadTo(n, Next, dispatch, j, q) && KeysLeadTo(n, Next, dispatch, k, q)))
  {
    hide KeysLeadTo, PressedTo, IsStop, CycleLength;
    var rows := ActiveMenu(n).rows;
    NextIsOneCycle(ActiveMenu(n), p);
    KeysLeadToIff(n, Next, dispatch, CycleLength(rows), p);
    forall q | IsStop(rows, q)
      ensures exists k: nat :: k < CycleLength(rows) && KeysLeadTo(n, Next, dispatch, k, q)
    {
      var k: nat :| k < CycleLength(rows) && PressedTo(ActiveMenu(n), Next, k, q);
      KeysLeadToIff(n, Next, dispatch, k, q);
    }
    forall q, j: nat, k: nat | j < k < CycleLength(rows)
      ensures !(KeysLeadTo(n, Next, dispatch, j, q) && KeysLeadTo(n, Next, dispatch, k, q))
    {
      KeysLeadToIff(n, Next, dispatch, j, q);
      KeysLeadToIff(n, Next, dispatch, k, q);
    }
  }

  /** On the whole menu, the Previous key undoes the Next key at every stop, and Next undoes Previous. */
  lemma NextAndPreviousKeysAreInverse(n: Node, p: Position, dispatch: bool)
    requires SelectedAt(ActiveMenu(n), p) && IsStop(ActiveMenu(n).rows, p)
    ensures KeyGoesBack(n, Next, Previous, dispatch, p)
    ensures KeyGoesBack(n, Previous, Next, dispatch, p)
  {
    hide SelectInternal, SelectPanics, KeyPanics, HandleKey, ActiveMenu, ActivePath, Stops;
    NextAndPreviousAreInverse(ActiveMenu(n), p);
    BackThroughTheActiveMenu(n, Next, Previous, dispatch, p);
    BackThroughTheActiveMenu(n, Previous, Next, dispatch, p);
  }

  /** The first key and then the second lead back to `p`, in the same active menu. */
  predicate KeyGoesBack(n: Node, first: SelectAction, second: SelectAction, dispatch: bool, p: Position) {
    && !Panics(n, Select(first))
    && var n1 := Handle(n, Select(first), dispatch).menu;
      && !Panics(n1, Select(second))
      && var n2 := Handle(n1, Select(second), dispatch).menu;
        ActivePath(n2) == ActivePath(n) && SelectedAt(ActiveMenu(n2), p)
  }

  lemma BackThroughTheActiveMenu(n: Node, first: SelectAction, second: SelectAction, dispatch: bool, p: Position)
    requires !SelectPanics(ActiveMenu(n), first)
    requires !SelectPanics(SelectInternal(ActiveMenu(n), first), second)
    requires SelectedAt(SelectInternal(SelectInternal(ActiveMenu(n), first), second), p)
    ensures KeyGoesBack(n, first, second, dispatch, p)
  {
    hide SelectInternal, SelectPanics, KeyPanics, HandleKey, ActiveMenu, ActivePath;
    KeyPanicsIff(n, first);
    KeySelectsInActiveMenu(n, first, dispatch);
    var n1 := Handle(n, Select(first), dispatch).menu;
    KeyPanicsIff(n1, second);
    SelectingIgnoresSource(ActiveMenu(n1), SelectInternal(ActiveMenu(n), first), second);
    KeySelectsInActiveMenu(n1, second, dispatch);
  }
}
