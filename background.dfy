/**
 * The state the background service worker keeps: the `lastState` slot of local
 * storage, which holds at most one undo snapshot, and the in-memory
 * `domainColorCache`. The `chrome.*` calls the operations make are returned as
 * plans; what the host reports is passed in.
 */
module Background {
  import opened Wrappers
  import opened Tabs
  import opened Partition
  import opened Sorting
  import opened Domain
  import opened Colors
  import opened Restore
  import opened Collapse

  class Background {
    /** `chrome.storage.local`'s `lastState` entry; `None` once removed. */
    var lastState: Option<Snapshot>
    /** `domainColorCache`: domain to colour name. */
    var colorCache: map<string, string>

    /** Every cached colour is the one the hash gives its domain. */
    ghost predicate Valid()
      reads this
    {
      forall d | d in colorCache :: colorCache[d] == ColorOf(d)
    }

    /**
     * The worker starting up: the colour cache is a module-level `Map` and starts
     * empty, while `lastState` is whatever local storage still holds from before
     * (it survives restarts of the worker and of the browser).
     */
    constructor (stored: Option<Snapshot>)
      ensures Valid()
      ensures lastState == stored && colorCache == map[]
    {
      lastState := stored;
      colorCache := map[];
    }

    /**
     * `getColorForDomain`: the cached colour if there is one, otherwise the
     * colour of the hash, which is then cached. Either way it is the hash's colour.
     */
    method GetColorForDomain(domain: string) returns (color: string)
      requires Valid()
      modifies this`colorCache
      ensures Valid()
      ensures color == ColorOf(domain) && color in GROUP_COLORS
      ensures colorCache == old(colorCache)[domain := color]
    {
      if domain in colorCache {
        color := colorCache[domain];
        assert colorCache == colorCache[domain := color];
        return;
      }
      var colorIndex := GetColorIndex(domain);
      color := GROUP_COLORS[colorIndex];
      colorCache := colorCache[domain := color];
    }

    /** `saveStateForUndo({ scope: 'window', windowId })`: the capture overwrites the slot. */
    method SaveWindowState(timestamp: int, windowId: Option<int>, tabs: seq<HostTab>, groups: seq<HostGroup>)
      returns (state: Snapshot)
      modifies this`lastState
      ensures state == WindowSnapshot(timestamp, windowId, Some(CaptureTabs(tabs)), Some(CaptureGroups(groups)))
      ensures lastState == Some(state)
    {
      state := WindowSnapshot(timestamp, windowId, Some(CaptureTabs(tabs)), Some(CaptureGroups(groups)));
      lastState := Some(state);
    }

    /** `saveStateForUndo()` with any other scope: every window is captured. */
    method SaveAllState(timestamp: int, windows: seq<HostWindow>) returns (state: Snapshot)
      modifies this`lastState
      ensures state == AllSnapshot(timestamp, CaptureWindows(windows))
      ensures lastState == Some(state)
    {
      state := AllSnapshot(timestamp, CaptureWindows(windows));
      lastState := Some(state);
    }

    /**
     * `restoreFromUndo`: fails and keeps the slot when there is nothing restorable
     * in it; otherwise plans the restore and removes the snapshot.
     */
    method RestoreFromUndo(currentTabs: seq<HostTab>, tabsAfterMove: seq<HostTab>)
      returns (success: bool, plan: Option<RestorePlan>)
      modifies this`lastState
      ensures success <==> old(lastState).Some? && Restorable(old(lastState).value)
      ensures !success ==> lastState == old(lastState) && plan == None
      ensures success ==> lastState == None &&
                          plan == Some(SnapshotRestorePlan(old(lastState).value, currentTabs, tabsAfterMove))
    {
      if lastState.None? {
        return false, None;
      }
      var state := lastState.value;
      if state.WindowSnapshot? {
        var windowId, tabStates := state.windowId, state.tabs;
        if windowId.None? || windowId.value == 0 || tabStates.None? {
          return false, None;
        }
        var p := PlanWindowRestore(windowId.value, tabStates.value, state.groups, currentTabs, tabsAfterMove);
        plan := Some(p);
      } else {
        plan := Some(RecreateWindows(state.windows));
      }
      lastState := None;
      success := true;
    }

    /** `closeEverything` first removes the undo snapshot: the action cannot be undone. */
    method CloseEverything()
      modifies this`lastState
      ensures lastState == None
    {
      lastState := None;
    }

    /** The `hasUndoState` message: whether the slot holds a snapshot. */
    method HasUndoState() returns (hasState: bool)
      ensures hasState <==> lastState.Some?
    {
      hasState := lastState.Some?;
    }

    /**
     * `collapseTabsInCurrentWindow`. Nothing happens when the current window has
     * no (or a zero) id; otherwise the window is captured for undo, its tabs are
     * ungrouped and regrouped by domain.
     */
    method CollapseTabsInCurrentWindow(currentWindowId: Option<int>, timestamp: int,
                                       tabs: seq<HostTab>, groups: seq<HostGroup>)
      returns (plan: Option<WindowCollapse>)
      requires Valid()
      modifies this
      ensures Valid()
      ensures currentWindowId.None? || currentWindowId.value == 0 ==>
                plan == None && lastState == old(lastState) && colorCache == old(colorCache)
      ensures currentWindowId.Some? && currentWindowId.value != 0 ==>
                plan == Some(WindowCollapsePlan(tabs)) &&
                lastState == Some(WindowSnapshot(timestamp, currentWindowId, Some(CaptureTabs(tabs)),
                                                 Some(CaptureGroups(groups)))) &&
                colorCache.Keys == old(colorCache).Keys + Titles(plan.value.groups)
    {
      if currentWindowId.None? || currentWindowId.value == 0 {
        return None;
      }
      var snapshot := SaveWindowState(timestamp, currentWindowId, tabs, groups);
      var tabsToUngroup := UngroupIds(tabs);

      var tabsByDomain: Buckets<string, TabId> := Buckets([], map[]);
      for i := 0 to |tabs|
        invariant tabsByDomain == TabsByDomain(tabs[..i])
      {
        assert tabs[..i + 1][..i] == tabs[..i];
        var tab := tabs[i];
        if tab.id == Some(TAB_ID_NONE) { continue; }
        if tab.pinned { continue; }
        var domain := GetDomain(tab.host);
        tabsByDomain := Push(tabsByDomain, domain, tab.id);
      }
      assert tabs[..|tabs|] == tabs;

      var ops := CreateGroups(tabsByDomain.keys, tabsByDomain.members);
      plan := Some(WindowCollapse(tabsToUngroup, ops));
    }

    /**
     * The loop both collapses end with: each domain whose list has at least two
     * ids is grouped, titled with the domain, coloured through the cache and collapsed.
     */
    method CreateGroups(keys: seq<string>, ids: map<string, seq<TabId>>) returns (ops: seq<GroupOp>)
      requires Valid()
      requires forall k | k in keys :: k in ids
      modifies this`colorCache
      ensures Valid()
      ensures ops == DomainGroups(keys, ids)
      ensures colorCache.Keys == old(colorCache).Keys + Titles(ops)
    {
      ops := [];
      for j := 0 to |keys|
        invariant Valid()
        invariant ops == DomainGroups(keys[..j], ids)
        invariant colorCache.Keys == old(colorCache).Keys + Titles(ops)
      {
        assert keys[..j + 1][..j] == keys[..j];
        var domain := keys[j];
        var tabIds := ids[domain];
        if |tabIds| < 2 { continue; }
        var color := GetColorForDomain(domain);
        var op := GroupOp(tabIds, domain, color, true);
        assert Titles(ops + [op]) == Titles(ops) + {domain};
        ops := ops + [op];
      }
      assert keys[..|keys|] == keys;
    }

    /**
     * `collapseTabsAcrossAllWindowsIntoFocusedWindow`. Every window is captured
     * for undo; then, when there is a window at all, every tab is moved into the
     * focused window and the domains are regrouped there. `windows` is what the
     * host reports both for the capture and for the collapse; `focusedTabsNow`
     * is what the focused window holds after the moves.
     */
    method CollapseTabsAcrossAllWindows(timestamp: int, windows: seq<HostWindow>, focusedTabsNow: seq<HostTab>)
      returns (plan: Option<AcrossCollapse>)
      requires Valid()
      modifies this
      ensures Valid()
      ensures lastState == Some(AllSnapshot(timestamp, CaptureWindows(windows)))
      ensures plan == AcrossCollapsePlan(windows, focusedTabsNow)
      ensures plan.None? ==> colorCache == old(colorCache)
      ensures plan.Some? ==> colorCache.Keys == old(colorCache).Keys + Titles(plan.value.groups)
    {
      var snapshot := SaveAllState(timestamp, windows);
      var focusedWindow := FindFocused(windows);
      if focusedWindow.None? {
        return None;
      }
      var focusedId := focusedWindow.value.id;

      var tabsByDomain := BucketAcross(windows);
      var moves;
      tabsByDomain, moves := SortAndMove(tabsByDomain, focusedId);

      var focusedToUngroup := UngroupIds(focusedTabsNow);

      var groupable := map k | k in tabsByDomain.members :: UnpinnedIds(tabsByDomain.members[k]);
      var ops := CreateGroups(tabsByDomain.keys, groupable);
      plan := Some(AcrossCollapse(focusedId, moves, focusedToUngroup, ops));
    }
  }

  /** The nested bucketing loop: every tab with a real id, tagged with its window, under its domain. */
  method BucketAcross(windows: seq<HostWindow>) returns (tabsByDomain: Buckets<string, Placed>)
    ensures tabsByDomain == TabsByDomainAcross(windows)
  {
    tabsByDomain := Buckets([], map[]);
    for w := 0 to |windows|
      invariant tabsByDomain == GroupBy(Flatten(windows[..w]), HasTabId, PlacedDomain, PlacedSelf)
    {
      var window := windows[w];
      FlattenPrefix(windows, w);
      if window.tabs.None? {
        assert Flatten(windows[..w + 1]) == Flatten(windows[..w]);
        continue;
      }
      tabsByDomain := BucketWindow(tabsByDomain, Flatten(windows[..w]), window.tabs.value, window.id);
    }
    assert windows[..|windows|] == windows;
  }

  /** The inner loop, over the tabs of one window, continuing the buckets built from `before`. */
  method BucketWindow(tabsByDomain: Buckets<string, Placed>, ghost before: seq<Placed>, tabs: seq<HostTab>, windowId: int)
    returns (result: Buckets<string, Placed>)
    requires tabsByDomain == GroupBy(before, HasTabId, PlacedDomain, PlacedSelf)
    ensures result == GroupBy(before + PlaceAll(tabs, windowId), HasTabId, PlacedDomain, PlacedSelf)
  {
    result := tabsByDomain;
    assert before + PlaceAll(tabs[..0], windowId) == before;
    for i := 0 to |tabs|
      invariant result == GroupBy(before + PlaceAll(tabs[..i], windowId), HasTabId, PlacedDomain, PlacedSelf)
    {
      var placed := Placed(tabs[i], windowId);
      ghost var xs := before + PlaceAll(tabs[..i + 1], windowId);
      assert xs == (before + PlaceAll(tabs[..i], windowId)) + [placed];
      assert xs[..|xs| - 1] == before + PlaceAll(tabs[..i], windowId);
      if tabs[i].id == Some(TAB_ID_NONE) { continue; }
      var domain := GetDomain(tabs[i].host);
      result := Push(result, domain, placed);
    }
    assert tabs[..|tabs|] == tabs;
  }

  /**
   * The move loop: each domain's list is sorted in place in the map, then its
   * tabs outside the focused window are moved, domain after domain.
   */
  method SortAndMove(tabsByDomain: Buckets<string, Placed>, focusedId: int)
    returns (sortedByDomain: Buckets<string, Placed>, moves: seq<Move>)
    requires WellFormed(tabsByDomain)
    ensures sortedByDomain == Buckets(tabsByDomain.keys, SortedLists(tabsByDomain))
    ensures moves == AllMoves(tabsByDomain.keys, SortedLists(tabsByDomain), focusedId)
  {
    var b0 := tabsByDomain;
    sortedByDomain := tabsByDomain;
    moves := [];
    for j := 0 to |b0.keys|
      invariant sortedByDomain == Buckets(b0.keys, PartlySorted(b0, j))
      invariant moves == AllMoves(b0.keys[..j], SortedLists(b0), focusedId)
    {
      var domain := b0.keys[j];
      PartlySortedAt(b0, j, j);
      AllMovesPrefix(b0.keys, SortedLists(b0), focusedId, j);
      var sorted := SortDomainTabs(sortedByDomain.members[domain]);
      sortedByDomain := Buckets(sortedByDomain.keys, sortedByDomain.members[domain := sorted]);
      var domainMoves := MovesInto(sorted, focusedId);
      moves := moves + domainMoves;
    }
    assert b0.keys[..|b0.keys|] == b0.keys;
    PartlySortedEnd(b0);
  }

  /** The map after `j` rounds of the move loop: the lists of the first `j` domains sorted in place. */
  ghost function PartlySorted(b0: Buckets<string, Placed>, j: nat): (m: map<string, seq<Placed>>)
    requires WellFormed(b0) && j <= |b0.keys|
    ensures m.Keys == b0.members.Keys
  {
    if j == 0 then b0.members
    else
      var k := b0.keys[j - 1];
      PartlySorted(b0, j - 1)[k := InsertionSorted(b0.members[k], PlacedLe)]
  }

  /** After `j` rounds, the list of the `i`-th domain is sorted exactly when `i < j`. */
  lemma {:induction false} PartlySortedAt(b0: Buckets<string, Placed>, j: nat, i: nat)
    requires WellFormed(b0) && j <= |b0.keys| && i < |b0.keys|
    ensures PartlySorted(b0, j)[b0.keys[i]] ==
              if i < j then SortedLists(b0)[b0.keys[i]] else b0.members[b0.keys[i]]
  {
    if j > 0 && i != j - 1 {
      PartlySortedAt(b0, j - 1, i);
    }
  }

  lemma PartlySortedEnd(b0: Buckets<string, Placed>)
    requires WellFormed(b0)
    ensures PartlySorted(b0, |b0.keys|) == SortedLists(b0)
  {
    forall k | k in b0.members
      ensures PartlySorted(b0, |b0.keys|)[k] == SortedLists(b0)[k]
    {
      var i :| 0 <= i < |b0.keys| && b0.keys[i] == k;
      PartlySortedAt(b0, |b0.keys|, i);
    }
  }

  lemma AllMovesPrefix(keys: seq<string>, lists: map<string, seq<Placed>>, focusedId: int, j: nat)
    requires forall k | k in keys :: k in lists
    requires j < |keys|
    ensures AllMoves(keys[..j + 1], lists, focusedId) == AllMoves(keys[..j], lists, focusedId) + MovesOf(lists[keys[j]], focusedId)
  {
    assert keys[..j + 1][..j] == keys[..j];
  }

  lemma FlattenPrefix(windows: seq<HostWindow>, w: nat)
    requires w < |windows|
    ensures Flatten(windows[..w + 1]) == Flatten(windows[..w]) +
              match windows[w].tabs case None => [] case Some(ts) => PlaceAll(ts, windows[w].id)
  {
    assert windows[..w + 1][..w] == windows[..w];
  }

  /** `tabs.sort(...)` on one domain's list: by original window, then by index, in place. */
  method SortDomainTabs(tabs: seq<Placed>) returns (sorted: seq<Placed>)
    ensures sorted == InsertionSorted(tabs, PlacedLe)
  {
    var a := new Placed[|tabs|](i requires 0 <= i < |tabs| => tabs[i]);
    assert a[..] == tabs;
    SortInPlace(a, PlacedLe);
    sorted := a[..];
  }

  /** The inner move loop: each tab not already in the focused window goes to its end. */
  method MovesInto(tabs: seq<Placed>, focusedId: int) returns (moves: seq<Move>)
    ensures moves == MovesOf(tabs, focusedId)
  {
    moves := [];
    for i := 0 to |tabs|
      invariant moves == MovesOf(tabs[..i], focusedId)
    {
      assert tabs[..i + 1][..i] == tabs[..i];
      if tabs[i].tab.windowId != focusedId {
        moves := moves + [Move(tabs[i].tab.id, focusedId, -1)];
      }
    }
    assert tabs[..|tabs|] == tabs;
  }

  // ---------------------------------------------------------------------------
  // The undo slot across several messages

  /** An undo is consumed: right after a restore, a second one reports failure. */
  method RestoreTwice(bg: Background, currentTabs: seq<HostTab>, tabsAfterMove: seq<HostTab>)
    returns (first: bool, second: bool)
    modifies bg
    ensures first <==> old(bg.lastState).Some? && Restorable(old(bg.lastState).value)
    ensures !second
    ensures bg.lastState == if first then None else old(bg.lastState)
  {
    var plan;
    first, plan := bg.RestoreFromUndo(currentTabs, tabsAfterMove);
    second, plan := bg.RestoreFromUndo(currentTabs, tabsAfterMove);
  }

  /** After `closeEverything` the popup is told there is nothing to undo. */
  method CloseThenAsk(bg: Background) returns (hasState: bool)
    modifies bg
    ensures !hasState && bg.lastState == None
  {
    bg.CloseEverything();
    hasState := bg.HasUndoState();
  }

  /**
   * Two collapses in a row: the second capture replaces the first, so an undo
   * restores the state just before the second collapse.
   */
  method CollapseTwice(bg: Background, windowId: int, t1: int, tabs1: seq<HostTab>, groups1: seq<HostGroup>,
                       t2: int, tabs2: seq<HostTab>, groups2: seq<HostGroup>)
    requires bg.Valid() && windowId != 0
    modifies bg
    ensures bg.Valid()
    ensures bg.lastState == Some(WindowSnapshot(t2, Some(windowId), Some(CaptureTabs(tabs2)), Some(CaptureGroups(groups2))))
  {
    var plan := bg.CollapseTabsInCurrentWindow(Some(windowId), t1, tabs1, groups1);
    plan := bg.CollapseTabsInCurrentWindow(Some(windowId), t2, tabs2, groups2);
  }

  /**
   * Collapsing the current window and then undoing succeeds, empties the slot and
   * restores from exactly the capture the collapse took.
   */
  method CollapseThenUndo(bg: Background, windowId: int, timestamp: int, tabs: seq<HostTab>, groups: seq<HostGroup>,
                          currentTabs: seq<HostTab>, tabsAfterMove: seq<HostTab>)
    returns (success: bool, plan: Option<RestorePlan>)
    requires bg.Valid() && windowId != 0
    modifies bg
    ensures success && bg.lastState == None
    ensures plan == Some(WindowRestorePlan(windowId, CaptureTabs(tabs), Some(CaptureGroups(groups)),
                                           currentTabs, tabsAfterMove))
  {
    var collapsed := bg.CollapseTabsInCurrentWindow(Some(windowId), timestamp, tabs, groups);
    success, plan := bg.RestoreFromUndo(currentTabs, tabsAfterMove);
  }
}
