/**
 * The `Navigation` component's menu logic: switching the active menu, and the
 * breadth-first walk over a menu and its descendants that decides whether a
 * menu is empty. The navigation tree is a finite map from ids to menus plus a
 * map from a menu to the ids of its child menus; the child lists may form
 * cycles and may name ids that are not menus.
 */
module Navigation {
  import opened Wrappers

  type MenuId = string

  /** A registered menu: its own id (`menu`) and whether it has no items. */
  datatype Menu = Menu(menu: MenuId, isEmpty: bool)

  /** `navigationTree`: `getMenu` as a finite map, and `parentMenuToMenu`. */
  datatype NavigationTree = NavigationTree(menus: map<MenuId, Menu>, parentMenuToMenu: map<MenuId, seq<MenuId>>)

  /** Every menu is stored under its own id. */
  predicate WellFormed(tree: NavigationTree) {
    forall id :: id in tree.menus ==> tree.menus[id].menu == id
  }

  /** `navigationTree.parentMenuToMenu[ menu ] || []`: a menu without an entry has no children. */
  function Kids(tree: NavigationTree, menu: MenuId): (kids: seq<MenuId>)
    ensures menu !in tree.parentMenuToMenu ==> kids == []
    ensures menu in tree.parentMenuToMenu ==> kids == tree.parentMenuToMenu[menu]
  {
    if menu in tree.parentMenuToMenu then tree.parentMenuToMenu[menu] else []
  }

  // ---------------------------------------------------------------------------
  // Switching the active menu
  // ---------------------------------------------------------------------------

  /** The component state `setActiveMenu` updates: the shown menu and the slide origin. */
  datatype NavState = NavState(menu: MenuId, slideOrigin: Option<string>)

  /** The slide origin `setActiveMenu` uses when none is passed. */
  const DEFAULT_SLIDE_ORIGIN: string := "left"

  /**
   * `setActiveMenu( menuId, slideInOrigin = 'left' )`: the new state, and the
   * id passed to `onActivateMenu` if it is called. An id that is not a menu
   * changes nothing and calls nothing. `None` stands for an omitted origin.
   */
  function SetActiveMenu(tree: NavigationTree, state: NavState, menuId: MenuId,
                         slideInOrigin: Option<string>): (r: (NavState, Option<MenuId>))
    ensures menuId !in tree.menus ==> r == (state, None)
    ensures menuId in tree.menus ==> r.0.menu == menuId && r.1 == Some(menuId)
    ensures menuId in tree.menus && slideInOrigin.Some? ==> r.0.slideOrigin == slideInOrigin
    ensures menuId in tree.menus && slideInOrigin.None? ==> r.0.slideOrigin == Some(DEFAULT_SLIDE_ORIGIN)
  {
    if menuId !in tree.menus then (state, None)
    else
      var origin := if slideInOrigin.Some? then slideInOrigin.value else DEFAULT_SLIDE_ORIGIN;
      (NavState(menuId, Some(origin)), Some(menuId))
  }

  /** The shown menu stays a registered menu once it is one; activating the same menu twice is like once. */
  lemma ActiveMenuStaysKnown(tree: NavigationTree, state: NavState, menuId: MenuId, origin: Option<string>)
    requires state.menu in tree.menus
    ensures SetActiveMenu(tree, state, menuId, origin).0.menu in tree.menus
    ensures var s1 := SetActiveMenu(tree, state, menuId, origin).0;
            SetActiveMenu(tree, s1, menuId, origin).0 == s1
  {
  }

  // ---------------------------------------------------------------------------
  // Reachability
  // ---------------------------------------------------------------------------

  /** A chain of ids, each a child of the menu stored under the one before. */
  ghost predicate IsPath(tree: NavigationTree, path: seq<MenuId>) {
    && |path| > 0
    && forall k :: 0 <= k < |path| - 1 ==>
         path[k] in tree.menus && path[k + 1] in Kids(tree, tree.menus[path[k]].menu)
  }

  ghost predicate Reachable(tree: NavigationTree, start: MenuId, id: MenuId) {
    exists path :: IsPath(tree, path) && path[0] == start && path[|path| - 1] == id
  }

  lemma ReachableStart(tree: NavigationTree, start: MenuId)
    ensures Reachable(tree, start, start)
  {
    assert IsPath(tree, [start]);
  }

  /** A child of a reachable menu is reachable. */
  lemma ReachableStep(tree: NavigationTree, start: MenuId, id: MenuId, kid: MenuId)
    requires Reachable(tree, start, id) && id in tree.menus
    requires kid in Kids(tree, tree.menus[id].menu)
    ensures Reachable(tree, start, kid)
  {
    var path :| IsPath(tree, path) && path[0] == start && path[|path| - 1] == id;
    var longer := path + [kid];
    assert IsPath(tree, longer) by {
      forall k | 0 <= k < |longer| - 1
        ensures longer[k] in tree.menus && longer[k + 1] in Kids(tree, tree.menus[longer[k]].menu)
      {
        if k < |path| - 1 {
          assert longer[k] == path[k] && longer[k + 1] == path[k + 1];
        }
      }
    }
  }

  // ---------------------------------------------------------------------------
  // The walk
  // ---------------------------------------------------------------------------

  /** The ids of the menus passed to the callback, in call order. */
  function Names(calls: seq<Menu>): (names: seq<MenuId>)
    ensures |names| == |calls|
    ensures forall i :: 0 <= i < |calls| ==> names[i] == calls[i].menu
  {
    seq(|calls|, i requires 0 <= i < |calls| => calls[i].menu)
  }

  /** The ids stored in the map, as the menus name themselves. */
  function KnownNames(tree: NavigationTree): set<MenuId> {
    set id | id in tree.menus :: tree.menus[id].menu
  }

  /** An id needs no further visit: it is not a menu, or its menu has been passed to the callback. */
  ghost predicate Handled(tree: NavigationTree, calls: seq<Menu>, id: MenuId) {
    id !in tree.menus || tree.menus[id].menu in Names(calls)
  }

  /**
   * Nothing is left to visit: the start is handled, and so is every child of
   * every menu passed to the callback.
   */
  ghost predicate Closed(tree: NavigationTree, start: MenuId, calls: seq<Menu>) {
    && Handled(tree, calls, start)
    && forall i, kid :: 0 <= i < |calls| && kid in Kids(tree, calls[i].menu) ==> Handled(tree, calls, kid)
  }

  /**
   * What the walk keeps true between iterations: the menus passed so far are
   * distinct, reachable, and led by the start menu; everything still queued
   * is reachable; and every child of a menu passed so far, like the start
   * itself, is still queued or already handled. `ids` are the ids the passed
   * menus were found under.
   */
  ghost predicate WalkInvariant(tree: NavigationTree, start: MenuId, queue: seq<MenuId>,
                                calls: seq<Menu>, ids: seq<MenuId>)
  {
    && |ids| == |calls|
    && (forall i, j :: 0 <= i < j < |calls| ==> calls[i].menu != calls[j].menu)
    && (forall i :: 0 <= i < |calls| ==>
          ids[i] in tree.menus && tree.menus[ids[i]] == calls[i] && Reachable(tree, start, ids[i]))
    && (forall x :: x in queue ==> Reachable(tree, start, x))
    && (calls == [] ==> queue == [start] || queue == [])
    && (calls != [] ==> start in tree.menus && calls[0] == tree.menus[start])
    && (start in queue || Handled(tree, calls, start))
    && (forall i, kid :: 0 <= i < |calls| && kid in Kids(tree, calls[i].menu) ==>
          kid in queue || Handled(tree, calls, kid))
  }

  /** Dropping the head of the queue when it is not a menu or its menu was already passed. */
  lemma SkipKeepsInvariant(tree: NavigationTree, start: MenuId, queue: seq<MenuId>,
                           calls: seq<Menu>, ids: seq<MenuId>)
    requires WalkInvariant(tree, start, queue, calls, ids) && |queue| > 0
    requires Handled(tree, calls, queue[0])
    ensures WalkInvariant(tree, start, queue[1..], calls, ids)
  {
    forall x | x in queue[1..]
      ensures x in queue
    {
    }
    forall i, kid | 0 <= i < |calls| && kid in Kids(tree, calls[i].menu)
      ensures kid in queue[1..] || Handled(tree, calls, kid)
    {
      if kid !in queue[1..] && kid != queue[0] {
        assert kid !in queue by {
          assert queue == [queue[0]] + queue[1..];
        }
      }
    }
    if start !in queue[1..] && start != queue[0] {
      assert queue == [queue[0]] + queue[1..];
    }
  }

  /** Passing the head's menu to the callback and queueing its children. */
  lemma VisitKeepsInvariant(tree: NavigationTree, start: MenuId, queue: seq<MenuId>,
                            calls: seq<Menu>, ids: seq<MenuId>)
    requires WalkInvariant(tree, start, queue, calls, ids) && |queue| > 0
    requires queue[0] in tree.menus && tree.menus[queue[0]].menu !in Names(calls)
    ensures var current := tree.menus[queue[0]];
            WalkInvariant(tree, start, queue[1..] + Kids(tree, current.menu), calls + [current], ids + [queue[0]])
  {
    var id := queue[0];
    var current := tree.menus[id];
    var queue' := queue[1..] + Kids(tree, current.menu);
    var calls' := calls + [current];
    assert Names(calls') == Names(calls) + [current.menu];
    forall x | Handled(tree, calls, x)
      ensures Handled(tree, calls', x)
    {
    }
    forall kid | kid in Kids(tree, current.menu)
      ensures Reachable(tree, start, kid)
    {
      ReachableStep(tree, start, id, kid);
    }
    assert queue == [id] + queue[1..];
    if calls == [] {
      assert id == start;
    }
    forall i, kid | 0 <= i < |calls'| && kid in Kids(tree, calls'[i].menu)
      ensures kid in queue' || Handled(tree, calls', kid)
    {
      if i < |calls| && kid !in queue && !Handled(tree, calls, kid) {
        assert false;
      }
    }
  }

  /** Pushing a menu's id onto `visited` keeps it the list of names of the passed menus. */
  lemma AppendName(calls: seq<Menu>, visited: seq<MenuId>, m: Menu)
    requires visited == Names(calls)
    ensures visited + [m.menu] == Names(calls + [m])
    ensures (set x | x in visited + [m.menu]) == (set x | x in visited) + {m.menu}
  {
  }

  /**
   * `traverseMenu( startMenu, callback )`; the result is the sequence of menus
   * the callback receives. Each menu is passed at most once, cycles
   * notwithstanding; ids that are not menus are skipped; every menu passed
   * is reachable from the start, and no reachable menu is missed.
   */
  method TraverseMenu(tree: NavigationTree, startMenu: MenuId) returns (calls: seq<Menu>)
    ensures forall i, j :: 0 <= i < j < |calls| ==> calls[i].menu != calls[j].menu
    ensures forall i :: 0 <= i < |calls| ==> calls[i] in tree.menus.Values
    ensures calls != [] <==> startMenu in tree.menus
    ensures calls != [] ==> calls[0] == tree.menus[startMenu]
    ensures Closed(tree, startMenu, calls)
    ensures forall i :: 0 <= i < |calls| ==>
              exists id :: id in tree.menus && tree.menus[id] == calls[i] && Reachable(tree, startMenu, id)
  {
    var visited: seq<MenuId> := [];
    var queue := [startMenu];
    calls := [];
    ghost var ids: seq<MenuId> := [];
    ReachableStart(tree, startMenu);
    while |queue| > 0
      invariant visited == Names(calls)
      invariant WalkInvariant(tree, startMenu, queue, calls, ids)
      decreases KnownNames(tree) - (set x | x in visited), |queue|
    {
      var id := queue[0];
      if id !in tree.menus || tree.menus[id].menu in visited {
        SkipKeepsInvariant(tree, startMenu, queue, calls, ids);
        queue := queue[1..];
        continue;
      }
      var current := tree.menus[id];
      VisitKeepsInvariant(tree, startMenu, queue, calls, ids);
      assert current.menu in KnownNames(tree);
      AppendName(calls, visited, current);
      visited := visited + [current.menu];
      queue := queue[1..] + Kids(tree, current.menu);
      calls := calls + [current];
      ids := ids + [id];
    }
    forall i | 0 <= i < |calls|
      ensures exists id :: id in tree.menus && tree.menus[id] == calls[i] && Reachable(tree, startMenu, id)
    {
      assert tree.menus[ids[i]] == calls[i];
    }
  }

  /** Every menu reachable from the start is passed to the callback, as its id shows. */
  lemma {:induction false} ClosedCoversReachable(tree: NavigationTree, start: MenuId, calls: seq<Menu>,
                                                 path: seq<MenuId>)
    requires Closed(tree, start, calls)
    requires IsPath(tree, path) && path[0] == start
    ensures Handled(tree, calls, path[|path| - 1])
    decreases |path|
  {
    if |path| > 1 {
      var prefix := path[..|path| - 1];
      assert IsPath(tree, prefix) by {
        forall k | 0 <= k < |prefix| - 1
          ensures prefix[k] in tree.menus && prefix[k + 1] in Kids(tree, tree.menus[prefix[k]].menu)
        {
          assert prefix[k] == path[k] && prefix[k + 1] == path[k + 1];
        }
      }
      ClosedCoversReachable(tree, start, calls, prefix);
      var parent := path[|path| - 2];
      assert parent == prefix[|prefix| - 1];
      var i :| 0 <= i < |calls| && Names(calls)[i] == tree.menus[parent].menu;
      assert path[|path| - 1] in Kids(tree, calls[i].menu);
    }
  }

  /** The number of menus in `calls` that are not empty (the `count` of `isMenuEmpty`). */
  function CountNonEmpty(calls: seq<Menu>): (n: nat)
    ensures n <= |calls|
    ensures n == 0 <==> forall i :: 0 <= i < |calls| ==> calls[i].isEmpty
  {
    if calls == [] then 0
    else CountNonEmpty(calls[..|calls| - 1]) + (if calls[|calls| - 1].isEmpty then 0 else 1)
  }

  /**
   * `isMenuEmpty( menuToCheck )`: true when every reachable menu is empty.
   * The converse needs every menu to be stored under its own id, since the
   * walk tells menus apart by the id they carry.
   */
  method IsMenuEmpty(tree: NavigationTree, menuToCheck: MenuId) returns (empty: bool)
    ensures (forall id :: Reachable(tree, menuToCheck, id) && id in tree.menus ==> tree.menus[id].isEmpty)
            ==> empty
    ensures WellFormed(tree) && empty ==>
              forall id :: Reachable(tree, menuToCheck, id) && id in tree.menus ==> tree.menus[id].isEmpty
  {
    var calls := TraverseMenu(tree, menuToCheck);
    var count := 0;
    var k := 0;
    while k < |calls|
      invariant 0 <= k <= |calls|
      invariant count == CountNonEmpty(calls[..k])
    {
      assert calls[..k + 1][..k] == calls[..k];
      if !calls[k].isEmpty {
        count := count + 1;
      }
      k := k + 1;
    }
    assert calls[..k] == calls;
    empty := count == 0;
    if WellFormed(tree) && empty {
      forall id | Reachable(tree, menuToCheck, id) && id in tree.menus
        ensures tree.menus[id].isEmpty
      {
        var path :| IsPath(tree, path) && path[0] == menuToCheck && path[|path| - 1] == id;
        ClosedCoversReachable(tree, menuToCheck, calls, path);
        var i :| 0 <= i < |calls| && Names(calls)[i] == tree.menus[id].menu;
        var other :| other in tree.menus && tree.menus[other] == calls[i] && Reachable(tree, menuToCheck, other);
        assert other == id;
      }
    }
  }
}
