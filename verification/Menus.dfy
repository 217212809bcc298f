/** The whole menu: the tree of submenus behind the safe triangle. */
module Menus {
  import opened Options
  import T = MenuTree
  import O = MenuObjects
  import S = SafeTriangles

  /** A menu's tree and, when it tracks one, its safe triangle. */
  datatype State = State(root: T.Node, triangle: Option<S.State>)

  /** The hover is on its way to the side panel, so the menu ignores it. */
  predicate Suppresses(s: State, a: T.MenuAction) {
    a.HoverSubmenuLeafNode? && s.triangle.Some? && S.AfterHover(s.triangle.value, a.position).suppressing
  }

  function AfterTriangle(s: State, a: T.MenuAction): State {
    if !a.HoverSubmenuLeafNode? || s.triangle.None? then s
    else
      var t := S.AfterHover(s.triangle.value, a.position);
      s.(triangle := Some(if t.suppressing then t else t.(last := Some(a.position))))
  }

  function Handle(s: State, a: T.MenuAction, dispatch: bool): (State, seq<T.Event>)
    requires !T.Panics(s.root, a)
  {
    if Suppresses(s, a) then (AfterTriangle(s, a), [])
    else
      var out := T.Handle(s.root, a, dispatch);
      (AfterTriangle(s, a).(root := out.menu), out.events)
  }

  class Menu {
    const menu: O.SubMenu
    const safeTriangle: S.SafeTriangle?
    const dispatchItemActions: bool

    ghost predicate Valid()
      reads this, menu, menu.Repr, safeTriangle
    {
      && menu.Valid() && this !in menu.Repr
      && (safeTriangle != null ==> safeTriangle !in menu.Repr && safeTriangle.Valid())
    }

    ghost function Contents(): State
      reads menu, safeTriangle
    {
      State(menu.View, if safeTriangle == null then None else Some(safeTriangle.Contents()))
    }

    constructor (menu: O.SubMenu, safeTriangle: S.SafeTriangle?, dispatch: bool)
      requires menu.Valid()
      requires safeTriangle != null ==> safeTriangle !in menu.Repr && safeTriangle.Valid()
      ensures Valid() && this.menu == menu && this.safeTriangle == safeTriangle && dispatchItemActions == dispatch
    {
      this.menu := menu;
      this.safeTriangle := safeTriangle;
      this.dispatchItemActions := dispatch;
    }

    /** `set_safe_zone_target`. */
    method SetSafeZoneTarget(rect: Option<S.Rect>)
      requires Valid()
      modifies safeTriangle
      ensures Valid() && menu.View == old(menu.View)
      ensures safeTriangle != null ==>
                safeTriangle.Contents() == if rect.None? then S.State(None, None, false)
                                           else old(safeTriangle.Contents()).(target := rect)
    {
      if safeTriangle != null {
        safeTriangle.SetTargetRect(rect);
      }
    }

    method HandleAction(action: T.MenuAction) returns (events: seq<T.Event>)
      requires Valid() && !T.Panics(menu.View, action)
      modifies menu.Repr, safeTriangle
      ensures Valid() && menu.Repr == old(menu.Repr)
      ensures (Contents(), events) == Handle(old(Contents()), action, dispatchItemActions)
    {
      if action.HoverSubmenuLeafNode? && safeTriangle != null {
        var suppress := safeTriangle.ShouldSuppressHover(action.position);
        if suppress {
          return [];
        }
        safeTriangle.UpdatePosition(action.position);
      }
      events := menu.HandleAction(action, dispatchItemActions);
    }
  }

  // ---------------------------------------------------------------- suppressed runs

  /** A leaf hover never panics. */
  lemma {:induction false} LeafHoversAreSafe(n: T.Node, a: T.MenuAction)
    requires a.HoverSubmenuLeafNode?
    ensures !T.Panics(n, a)
    decreases n
  {
    if T.Delegates(n, a.depth) {
      LeafHoversAreSafe(T.SelectedSubmenu(n), a);
    }
  }

  /** The state after a run of leaf hovers, or None if one of them was not suppressed. */
  function AfterSuppressed(s: State, hovers: seq<T.MenuAction>): Option<State>
    requires forall a :: a in hovers ==> a.HoverSubmenuLeafNode?
    decreases |hovers|
  {
    if hovers == [] then Some(s)
    else
      LeafHoversAreSafe(s.root, hovers[0]);
      if Suppresses(s, hovers[0]) then AfterSuppressed(Handle(s, hovers[0], true).0, hovers[1..]) else None
  }

  /** Where a hover can be suppressed from a given apex. */
  predicate NearApex(target: S.Rect, apex: S.Point, p: S.Point) {
    S.InSafeTriangle(target, apex, p) || S.DistanceSquared(p, apex) < S.MIN_MOVEMENT_SQUARED
  }

  /** Over any run of suppressed hovers, the tree, the target and the apex do not change, and every
      hover is in the triangle of that one apex or within two units of it. */
  lemma {:induction false} SuppressedRunsFreezeTheMenu(s: State, hovers: seq<T.MenuAction>)
    requires forall a :: a in hovers ==> a.HoverSubmenuLeafNode?
    requires hovers != [] && AfterSuppressed(s, hovers).Some?
    ensures s.triangle.Some? && s.triangle.value.target.Some? && s.triangle.value.last.Some?
    ensures AfterSuppressed(s, hovers).value == s.(triangle := Some(s.triangle.value.(suppressing := true)))
    ensures forall a :: a in hovers ==> NearApex(s.triangle.value.target.value, s.triangle.value.last.value, a.position)
    decreases |hovers|
  {
    var s' := AfterTriangle(s, hovers[0]);
    assert s' == s.(triangle := Some(s.triangle.value.(suppressing := true)));
    if |hovers| > 1 {
      SuppressedRunsFreezeTheMenu(s', hovers[1..]);
    }
    forall a | a in hovers
      ensures NearApex(s.triangle.value.target.value, s.triangle.value.last.value, a.position)
    {
      assert a == hovers[0] || a in hovers[1..];
    }
  }

  /** What the menu does with an action, in every state: a leaf hover that its triangle suppresses leaves the
      tree, the target and the apex alone and emits nothing; every other action does to the tree what it does
      without a triangle, and only a leaf hover touches the triangle. */
  lemma SuppressedOrHandled(s: State, a: T.MenuAction, dispatch: bool)
    requires !T.Panics(s.root, a)
    ensures var (s', events) := Handle(s, a, dispatch);
      && (if Suppresses(s, a) then s'.root == s.root && events == []
          else T.Outcome(s'.root, events) == T.Handle(s.root, a, dispatch))
      && (!a.HoverSubmenuLeafNode? || s.triangle.None? ==> s'.triangle == s.triangle)
      && (Suppresses(s, a) ==> s'.triangle == Some(s.triangle.value.(suppressing := true)))
  {
    hide T.Handle, T.Panics, S.InSafeTriangle, S.ContainsPoint, S.DistanceSquared;
  }

  /** A hover that gets through becomes the new apex, and the flag is off. */
  lemma AdmittedHoverMovesTheApex(s: State, a: T.MenuAction, dispatch: bool)
    requires a.HoverSubmenuLeafNode? && s.triangle.Some? && !Suppresses(s, a)
    ensures !T.Panics(s.root, a)
    ensures Handle(s, a, dispatch).0.triangle == Some(S.State(s.triangle.value.target, Some(a.position), false))
  {
    LeafHoversAreSafe(s.root, a);
  }
}
