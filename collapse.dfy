/**
 * The decisions of the two collapse operations: which tabs are ungrouped, which
 * tabs are moved into the focused window, and which domain groups are created.
 */
module Collapse {
  import opened Wrappers
  import opened Tabs
  import opened Partition
  import opened Sorting
  import opened Domain
  import opened Colors

  /** `chrome.tabs.group({ tabIds })`, then `chrome.tabGroups.update(group, { title, color, collapsed })`. */
  datatype GroupOp = GroupOp(tabIds: seq<TabId>, title: string, color: string, collapsed: bool)

  /**
   * The loop over the domain map's entries: every domain whose list has at least
   * two ids becomes a group titled with the domain, in the domain's colour, collapsed.
   */
  function DomainGroups(keys: seq<string>, ids: map<string, seq<TabId>>): seq<GroupOp>
    requires forall k | k in keys :: k in ids
  {
    if keys == [] then []
    else
      var k := keys[|keys| - 1];
      DomainGroups(keys[..|keys| - 1], ids)
        + (if |ids[k]| < 2 then [] else [GroupOp(ids[k], k, ColorOf(k), true)])
  }

  lemma {:induction false} DomainGroupsSound(keys: seq<string>, ids: map<string, seq<TabId>>, j: nat)
    requires forall k | k in keys :: k in ids
    requires j < |DomainGroups(keys, ids)|
    ensures DomainGroups(keys, ids)[j].title in keys
    ensures DomainGroups(keys, ids)[j].tabIds == ids[DomainGroups(keys, ids)[j].title]
    ensures |DomainGroups(keys, ids)[j].tabIds| >= 2
    ensures DomainGroups(keys, ids)[j].color == ColorOf(DomainGroups(keys, ids)[j].title)
    ensures DomainGroups(keys, ids)[j].collapsed
  {
    var init := keys[..|keys| - 1];
    var r0 := DomainGroups(init, ids);
    if j < |r0| {
      DomainGroupsSound(init, ids, j);
      assert DomainGroups(keys, ids)[j] == r0[j];
    }
  }

  lemma {:induction false} DomainGroupsComplete(keys: seq<string>, ids: map<string, seq<TabId>>, k: string)
    requires forall k | k in keys :: k in ids
    requires k in keys && |ids[k]| >= 2
    ensures exists j :: 0 <= j < |DomainGroups(keys, ids)| && DomainGroups(keys, ids)[j].title == k
  {
    var init := keys[..|keys| - 1];
    var r0 := DomainGroups(init, ids);
    var r := DomainGroups(keys, ids);
    if k in init {
      DomainGroupsComplete(init, ids, k);
      var j :| 0 <= j < |r0| && r0[j].title == k;
      assert r[j] == r0[j];
    } else {
      assert keys[|keys| - 1] == k;
      assert r == r0 + [GroupOp(ids[k], k, ColorOf(k), true)];
      assert r[|r| - 1].title == k;
    }
  }

  lemma {:induction false} DomainGroupsOrder(keys: seq<string>, ids: map<string, seq<TabId>>, i: nat, j: nat)
    requires forall k | k in keys :: k in ids
    requires i < j < |DomainGroups(keys, ids)|
    ensures exists p, q :: 0 <= p < q < |keys| && keys[p] == DomainGroups(keys, ids)[i].title
                                              && keys[q] == DomainGroups(keys, ids)[j].title
  {
    var init := keys[..|keys| - 1];
    var r0 := DomainGroups(init, ids);
    var r := DomainGroups(keys, ids);
    if j < |r0| {
      DomainGroupsOrder(init, ids, i, j);
      var p, q :| 0 <= p < q < |init| && init[p] == r0[i].title && init[q] == r0[j].title;
      assert r[i] == r0[i] && r[j] == r0[j];
      assert keys[p] == r[i].title && keys[q] == r[j].title;
    } else {
      DomainGroupsSound(init, ids, i);
      assert r[i] == r0[i];
      var p :| 0 <= p < |init| && init[p] == r0[i].title;
      assert keys[p] == r[i].title && keys[|keys| - 1] == r[j].title;
    }
  }

  /** The domains that received a group, which are the domains whose colour was looked up. */
  function Titles(ops: seq<GroupOp>): set<string> {
    set op | op in ops :: op.title
  }

  // ---------------------------------------------------------------------------
  // Collapse within the current window

  /** The bucketing loop skips tabs whose id is `TAB_ID_NONE` and pinned tabs. */
  predicate Groupable(t: HostTab) {
    t.id != Some(TAB_ID_NONE) && !t.pinned
  }

  function DomainOf(t: HostTab): string {
    GetDomain(t.host)
  }

  function TabIdOf(t: HostTab): TabId {
    t.id
  }

  /** `tabsByDomain` once the loop is done, each list reduced to its ids (`domainTabs.map(t => t.id)`). */
  function TabsByDomain(tabs: seq<HostTab>): Buckets<string, TabId> {
    GroupBy(tabs, Groupable, DomainOf, TabIdOf)
  }

  /** The groups `collapseTabsInCurrentWindow` creates. */
  function WindowGroups(tabs: seq<HostTab>): seq<GroupOp> {
    var b := TabsByDomain(tabs);
    DomainGroups(b.keys, b.members)
  }

  datatype WindowCollapse = WindowCollapse(ungroup: seq<TabId>, groups: seq<GroupOp>)

  /** The host calls `collapseTabsInCurrentWindow` issues after its capture. */
  function WindowCollapsePlan(tabs: seq<HostTab>): WindowCollapse {
    WindowCollapse(UngroupIds(tabs), WindowGroups(tabs))
  }

  /**
   * Every group holds the ids of all the non-pinned tabs of one domain (tabs
   * without a real id excluded), in window order, at least two of them; it is
   * titled with the domain, has the domain's colour and is collapsed.
   */
  lemma WindowGroupsSound(tabs: seq<HostTab>, j: nat)
    requires j < |WindowGroups(tabs)|
    ensures |WindowGroups(tabs)[j].tabIds| >= 2
    ensures WindowGroups(tabs)[j].tabIds == Members(tabs, Groupable, DomainOf, TabIdOf, WindowGroups(tabs)[j].title)
    ensures WindowGroups(tabs)[j].color == ColorOf(WindowGroups(tabs)[j].title)
    ensures WindowGroups(tabs)[j].collapsed
  {
    var b := TabsByDomain(tabs);
    DomainGroupsSound(b.keys, b.members, j);
    GroupByMembers(tabs, Groupable, DomainOf, TabIdOf, WindowGroups(tabs)[j].title);
  }

  /** No pinned tab is put in a group: each grouped id is that of a non-pinned tab of the group's domain. */
  lemma WindowGroupsNoPinned(tabs: seq<HostTab>, j: nat, id: TabId)
    requires j < |WindowGroups(tabs)|
    requires id in WindowGroups(tabs)[j].tabIds
    ensures exists i :: 0 <= i < |tabs| && tabs[i].id == id && !tabs[i].pinned &&
                        tabs[i].id != Some(TAB_ID_NONE) && DomainOf(tabs[i]) == WindowGroups(tabs)[j].title
  {
    WindowGroupsSound(tabs, j);
    MembersElement(tabs, Groupable, DomainOf, TabIdOf, WindowGroups(tabs)[j].title, id);
  }

  /** Every domain with at least two groupable tabs gets a group. */
  lemma WindowGroupsComplete(tabs: seq<HostTab>, d: string)
    requires |Members(tabs, Groupable, DomainOf, TabIdOf, d)| >= 2
    ensures exists j :: 0 <= j < |WindowGroups(tabs)| && WindowGroups(tabs)[j].title == d
  {
    var b := TabsByDomain(tabs);
    GroupByMembers(tabs, Groupable, DomainOf, TabIdOf, d);
    assert d in b.keys;
    DomainGroupsComplete(b.keys, b.members, d);
    var j :| 0 <= j < |DomainGroups(b.keys, b.members)| && DomainGroups(b.keys, b.members)[j].title == d;
    assert WindowGroups(tabs)[j].title == d;
  }

  /** Groups are created once per domain, in the order the domains first appear in the window. */
  lemma WindowGroupsOrder(tabs: seq<HostTab>, i: nat, j: nat)
    requires i < j < |WindowGroups(tabs)|
    ensures Members(tabs, Groupable, DomainOf, TabIdOf, WindowGroups(tabs)[i].title) != []
    ensures Members(tabs, Groupable, DomainOf, TabIdOf, WindowGroups(tabs)[j].title) != []
    ensures FirstIndex(tabs, Groupable, DomainOf, TabIdOf, WindowGroups(tabs)[i].title)
            < FirstIndex(tabs, Groupable, DomainOf, TabIdOf, WindowGroups(tabs)[j].title)
  {
    var b := TabsByDomain(tabs);
    DomainGroupsOrder(b.keys, b.members, i, j);
    var p, q :| 0 <= p < q < |b.keys| && b.keys[p] == WindowGroups(tabs)[i].title
                                    && b.keys[q] == WindowGroups(tabs)[j].title;
    GroupByOrder(tabs, Groupable, DomainOf, TabIdOf, p, q);
  }

  // ---------------------------------------------------------------------------
  // Collapse across all windows into the focused one

  /** `{ ...tab, originalWindowId: window.id }`. */
  datatype Placed = Placed(tab: HostTab, originalWindowId: int)

  function PlaceAll(tabs: seq<HostTab>, windowId: int): seq<Placed> {
    seq(|tabs|, i requires 0 <= i < |tabs| => Placed(tabs[i], windowId))
  }

  /** The tabs of every window in turn, windows without a tab list skipped. */
  function Flatten(windows: seq<HostWindow>): seq<Placed> {
    if windows == [] then []
    else
      var w := windows[|windows| - 1];
      Flatten(windows[..|windows| - 1]) + (match w.tabs case None => [] case Some(ts) => PlaceAll(ts, w.id))
  }

  /** This loop skips only tabs whose id is `TAB_ID_NONE`; pinned tabs are kept. */
  predicate HasTabId(p: Placed) {
    p.tab.id != Some(TAB_ID_NONE)
  }

  function PlacedDomain(p: Placed): string {
    GetDomain(p.tab.host)
  }

  function PlacedSelf(p: Placed): Placed {
    p
  }

  function TabsByDomainAcross(windows: seq<HostWindow>): Buckets<string, Placed> {
    GroupBy(Flatten(windows), HasTabId, PlacedDomain, PlacedSelf)
  }

  /** The comparator: by original window id, then by index. */
  predicate PlacedLe(a: Placed, b: Placed) {
    a.originalWindowId < b.originalWindowId ||
    (a.originalWindowId == b.originalWindowId && a.tab.index <= b.tab.index)
  }

  lemma PlacedLeIsTotalPreorder()
    ensures TotalPreorder(PlacedLe)
  {
  }

  /** Every list of the map after `tabs.sort(...)` has run on it in place. */
  function SortedLists(b: Buckets<string, Placed>): map<string, seq<Placed>> {
    map k | k in b.members :: InsertionSorted(b.members[k], PlacedLe)
  }

  /** The moves of one sorted list: each tab not already in the focused window goes to its end. */
  function MovesOf(ps: seq<Placed>, focusedId: int): seq<Move> {
    if ps == [] then []
    else
      var p := ps[|ps| - 1];
      MovesOf(ps[..|ps| - 1], focusedId)
        + (if p.tab.windowId != focusedId then [Move(p.tab.id, focusedId, -1)] else [])
  }

  function AllMoves(keys: seq<string>, lists: map<string, seq<Placed>>, focusedId: int): seq<Move>
    requires forall k | k in keys :: k in lists
  {
    if keys == [] then []
    else AllMoves(keys[..|keys| - 1], lists, focusedId) + MovesOf(lists[keys[|keys| - 1]], focusedId)
  }

  /** `tabs.filter(t => !t.pinned).map(t => t.id)`. */
  function UnpinnedIds(ps: seq<Placed>): (ids: seq<TabId>)
    ensures forall id :: id in ids ==> exists i :: 0 <= i < |ps| && !ps[i].tab.pinned && ps[i].tab.id == id
    ensures forall i :: 0 <= i < |ps| && !ps[i].tab.pinned ==> ps[i].tab.id in ids
  {
    if ps == [] then []
    else
      var init, p := ps[..|ps| - 1], ps[|ps| - 1];
      assert forall i :: 0 <= i < |init| ==> init[i] == ps[i];
      UnpinnedIds(init) + (if !p.tab.pinned then [p.tab.id] else [])
  }

  lemma {:induction false} UnpinnedIdsAppend(a: seq<Placed>, b: seq<Placed>)
    ensures UnpinnedIds(a + b) == UnpinnedIds(a) + UnpinnedIds(b)
  {
    if b == [] {
      assert a + b == a;
    } else {
      var init := b[..|b| - 1];
      assert (a + b)[..|a + b| - 1] == a + init;
      assert (a + b)[|a + b| - 1] == b[|b| - 1];
      UnpinnedIdsAppend(a, init);
    }
  }

  /** The filter keeps the order: of two non-pinned tabs, the earlier one's id comes first. */
  lemma {:induction false} UnpinnedIdsOrder(ps: seq<Placed>, i: nat, j: nat)
    requires i < j < |ps| && !ps[i].tab.pinned && !ps[j].tab.pinned
    ensures exists p, q :: 0 <= p < q < |UnpinnedIds(ps)| &&
                           UnpinnedIds(ps)[p] == ps[i].tab.id && UnpinnedIds(ps)[q] == ps[j].tab.id
  {
    var init := ps[..|ps| - 1];
    var r0 := UnpinnedIds(init);
    var r := UnpinnedIds(ps);
    assert r[..|r0|] == r0;
    if j < |ps| - 1 {
      UnpinnedIdsOrder(init, i, j);
      var p, q :| 0 <= p < q < |r0| && r0[p] == init[i].tab.id && r0[q] == init[j].tab.id;
      assert r[p] == r0[p] && r[q] == r0[q];
    } else {
      assert init[i] == ps[i];
      var p :| 0 <= p < |r0| && r0[p] == ps[i].tab.id;
      assert r[p] == r0[p];
      assert r[|r0|] == ps[j].tab.id;
    }
  }

  /** The filter sees only the multiset of its input: reordering the tabs reorders the ids. */
  lemma {:induction false} UnpinnedIdsPermutation(ps: seq<Placed>, qs: seq<Placed>)
    requires multiset(ps) == multiset(qs)
    ensures multiset(UnpinnedIds(ps)) == multiset(UnpinnedIds(qs))
    decreases |ps|
  {
    if ps == [] {
      assert |qs| == |multiset(qs)| == 0;
    } else {
      var init, x := ps[..|ps| - 1], ps[|ps| - 1];
      assert ps == init + [x];
      assert x in multiset(qs);
      var k :| 0 <= k < |qs| && qs[k] == x;
      var rest := qs[..k] + qs[k + 1..];
      assert qs == qs[..k] + [x] + qs[k + 1..];
      assert multiset(qs) == multiset(qs[..k]) + multiset{x} + multiset(qs[k + 1..]);
      assert multiset(ps) == multiset(init) + multiset{x};
      assert multiset(rest) == multiset(qs[..k]) + multiset(qs[k + 1..]);
      assert multiset(rest) == multiset(qs) - multiset{x};
      assert multiset(init) == multiset(ps) - multiset{x};
      UnpinnedIdsPermutation(init, rest);
      UnpinnedIdsAppend(init, [x]);
      UnpinnedIdsAppend(qs[..k] + [x], qs[k + 1..]);
      UnpinnedIdsAppend(qs[..k], [x]);
      UnpinnedIdsAppend(qs[..k], qs[k + 1..]);
    }
  }

  /** The loop's grouping test across windows: a real id and not pinned. */
  predicate GroupableAcross(p: Placed) {
    HasTabId(p) && !p.tab.pinned
  }

  function PlacedId(p: Placed): TabId {
    p.tab.id
  }

  /** Filtering a domain's list for non-pinned tabs is selecting its groupable tabs' ids directly. */
  lemma {:induction false} UnpinnedMembers(xs: seq<Placed>, d: string)
    ensures UnpinnedIds(Members(xs, HasTabId, PlacedDomain, PlacedSelf, d))
            == Members(xs, GroupableAcross, PlacedDomain, PlacedId, d)
  {
    if xs != [] {
      var init, x := xs[..|xs| - 1], xs[|xs| - 1];
      UnpinnedMembers(init, d);
      UnpinnedIdsAppend(Members(init, HasTabId, PlacedDomain, PlacedSelf, d),
                        if HasTabId(x) && PlacedDomain(x) == d then [x] else []);
    }
  }

  function GroupableLists(lists: map<string, seq<Placed>>): map<string, seq<TabId>> {
    map k | k in lists :: UnpinnedIds(lists[k])
  }

  function AcrossMoves(windows: seq<HostWindow>, focusedId: int): seq<Move> {
    var b := TabsByDomainAcross(windows);
    AllMoves(b.keys, SortedLists(b), focusedId)
  }

  function AcrossGroups(windows: seq<HostWindow>): seq<GroupOp> {
    var b := TabsByDomainAcross(windows);
    DomainGroups(b.keys, GroupableLists(SortedLists(b)))
  }

  lemma {:induction false} MovesOfElement(ps: seq<Placed>, focusedId: int, m: Move)
    ensures m in MovesOf(ps, focusedId) <==>
            exists p :: p in ps && p.tab.windowId != focusedId && m == Move(p.tab.id, focusedId, -1)
  {
    if ps != [] {
      var init, last := ps[..|ps| - 1], ps[|ps| - 1];
      MovesOfElement(init, focusedId, m);
      assert ps == init + [last];
    }
  }

  lemma {:induction false} AllMovesElement(keys: seq<string>, lists: map<string, seq<Placed>>, focusedId: int, m: Move)
    requires forall k | k in keys :: k in lists
    ensures m in AllMoves(keys, lists, focusedId) <==>
            exists k :: k in keys && m in MovesOf(lists[k], focusedId)
  {
    if keys != [] {
      var init, last := keys[..|keys| - 1], keys[|keys| - 1];
      AllMovesElement(init, lists, focusedId, m);
      assert keys == init + [last];
    }
  }

  /** A list of the sorted map holds exactly the domain's tabs, ordered by window and then by index. */
  lemma SortedListsSpec(windows: seq<HostWindow>, d: string)
    requires d in SortedLists(TabsByDomainAcross(windows))
    ensures SortedBy(SortedLists(TabsByDomainAcross(windows))[d], PlacedLe)
    ensures multiset(SortedLists(TabsByDomainAcross(windows))[d])
            == multiset(Members(Flatten(windows), HasTabId, PlacedDomain, PlacedSelf, d))
  {
    var b := TabsByDomainAcross(windows);
    PlacedLeIsTotalPreorder();
    SortedBySort(b.members[d], PlacedLe);
    SortPermutes(b.members[d], PlacedLe);
    GroupByMembers(Flatten(windows), HasTabId, PlacedDomain, PlacedSelf, d);
  }

  /** A tab is in a sorted list exactly when it has a real id and is of that list's domain. */
  lemma SortedListsElement(windows: seq<HostWindow>, d: string, p: Placed)
    ensures d in SortedLists(TabsByDomainAcross(windows)) && p in SortedLists(TabsByDomainAcross(windows))[d]
            <==> p in Flatten(windows) && HasTabId(p) && PlacedDomain(p) == d
  {
    var xs := Flatten(windows);
    var b := TabsByDomainAcross(windows);
    var lists := SortedLists(b);
    GroupByMembers(xs, HasTabId, PlacedDomain, PlacedSelf, d);
    MembersElement(xs, HasTabId, PlacedDomain, PlacedSelf, d, p);
    if d in lists && p in lists[d] {
      SortPermutes(b.members[d], PlacedLe);
      assert p in multiset(b.members[d]);
    }
    if p in xs && HasTabId(p) && PlacedDomain(p) == d {
      var i :| 0 <= i < |xs| && xs[i] == p;
      assert p in b.members[d];
      SortPermutes(b.members[d], PlacedLe);
      assert p in multiset(lists[d]);
    }
  }

  /**
   * Every tab with a real id that is not already in the focused window is moved
   * to the end of the focused window; pinned tabs are moved too.
   */
  lemma AcrossMovesComplete(windows: seq<HostWindow>, focusedId: int, p: Placed)
    requires p in Flatten(windows) && HasTabId(p) && p.tab.windowId != focusedId
    ensures Move(p.tab.id, focusedId, -1) in AcrossMoves(windows, focusedId)
  {
    var b := TabsByDomainAcross(windows);
    var d := PlacedDomain(p);
    SortedListsElement(windows, d, p);
    assert d in b.keys;
    MovesOfElement(SortedLists(b)[d], focusedId, Move(p.tab.id, focusedId, -1));
    AllMovesElement(b.keys, SortedLists(b), focusedId, Move(p.tab.id, focusedId, -1));
  }

  /** Nothing else is moved: every move takes such a tab to the end of the focused window. */
  lemma AcrossMovesSound(windows: seq<HostWindow>, focusedId: int, m: Move)
    requires m in AcrossMoves(windows, focusedId)
    ensures exists p :: p in Flatten(windows) && HasTabId(p) && p.tab.windowId != focusedId &&
                        m == Move(p.tab.id, focusedId, -1)
  {
    var b := TabsByDomainAcross(windows);
    AllMovesElement(b.keys, SortedLists(b), focusedId, m);
    var d :| d in b.keys && m in MovesOf(SortedLists(b)[d], focusedId);
    MovesOfElement(SortedLists(b)[d], focusedId, m);
    var p :| p in SortedLists(b)[d] && p.tab.windowId != focusedId && m == Move(p.tab.id, focusedId, -1);
    SortedListsElement(windows, d, p);
  }

  lemma {:induction false} AllMovesAppend(k1: seq<string>, k2: seq<string>, lists: map<string, seq<Placed>>, focusedId: int)
    requires forall k | k in k1 :: k in lists
    requires forall k | k in k2 :: k in lists
    ensures forall k | k in k1 + k2 :: k in lists
    ensures AllMoves(k1 + k2, lists, focusedId) == AllMoves(k1, lists, focusedId) + AllMoves(k2, lists, focusedId)
  {
    if k2 == [] {
      assert k1 + k2 == k1;
    } else {
      var init, last := k2[..|k2| - 1], k2[|k2| - 1];
      var ks := k1 + k2;
      assert ks[..|ks| - 1] == k1 + init && ks[|ks| - 1] == last;
      assert forall k | k in init :: k in k2;
      AllMovesAppend(k1, init, lists, focusedId);
      var m := MovesOf(lists[last], focusedId);
      calc {
        AllMoves(ks, lists, focusedId);
        AllMoves(k1 + init, lists, focusedId) + m;
        (AllMoves(k1, lists, focusedId) + AllMoves(init, lists, focusedId)) + m;
        AllMoves(k1, lists, focusedId) + (AllMoves(init, lists, focusedId) + m);
      }
    }
  }

  /** The moves of the `c`-th domain start right after those of the domains before it. */
  lemma AllMovesAt(keys: seq<string>, lists: map<string, seq<Placed>>, focusedId: int, c: nat, a: nat)
    requires forall k | k in keys :: k in lists
    requires c < |keys| && a < |MovesOf(lists[keys[c]], focusedId)|
    ensures |AllMoves(keys[..c], lists, focusedId)| + a < |AllMoves(keys, lists, focusedId)|
    ensures AllMoves(keys, lists, focusedId)[|AllMoves(keys[..c], lists, focusedId)| + a]
            == MovesOf(lists[keys[c]], focusedId)[a]
  {
    assert keys == keys[..c + 1] + keys[c + 1..];
    AllMovesAppend(keys[..c + 1], keys[c + 1..], lists, focusedId);
    assert keys[..c + 1][..c] == keys[..c];
  }

  /** The moves of an earlier domain all come before those of a later one. */
  lemma AllMovesBefore(keys: seq<string>, lists: map<string, seq<Placed>>, focusedId: int, c: nat, d: nat)
    requires forall k | k in keys :: k in lists
    requires c < d <= |keys|
    ensures |AllMoves(keys[..c], lists, focusedId)| + |MovesOf(lists[keys[c]], focusedId)|
            <= |AllMoves(keys[..d], lists, focusedId)|
  {
    assert keys[..d] == keys[..c + 1] + keys[c + 1..d];
    AllMovesAppend(keys[..c + 1], keys[c + 1..d], lists, focusedId);
    assert keys[..c + 1][..c] == keys[..c];
  }

  /** Of two tabs of one list that both move, the earlier one's move comes first. */
  lemma {:induction false} MovesOfOrder(ps: seq<Placed>, focusedId: int, i: nat, j: nat)
    requires i < j < |ps| && ps[i].tab.windowId != focusedId && ps[j].tab.windowId != focusedId
    ensures exists a, b :: 0 <= a < b < |MovesOf(ps, focusedId)| &&
                           MovesOf(ps, focusedId)[a] == Move(ps[i].tab.id, focusedId, -1) &&
                           MovesOf(ps, focusedId)[b] == Move(ps[j].tab.id, focusedId, -1)
  {
    var init := ps[..|ps| - 1];
    var r0 := MovesOf(init, focusedId);
    var r := MovesOf(ps, focusedId);
    assert r[..|r0|] == r0;
    if j < |ps| - 1 {
      MovesOfOrder(init, focusedId, i, j);
      var a, b :| 0 <= a < b < |r0| && r0[a] == Move(init[i].tab.id, focusedId, -1) &&
                  r0[b] == Move(init[j].tab.id, focusedId, -1);
      assert r[a] == r0[a] && r[b] == r0[b];
    } else {
      assert init[i] == ps[i];
      MovesOfElement(init, focusedId, Move(ps[i].tab.id, focusedId, -1));
      var a :| 0 <= a < |r0| && r0[a] == Move(ps[i].tab.id, focusedId, -1);
      assert r[a] == r0[a];
      assert r[|r0|] == Move(ps[j].tab.id, focusedId, -1);
    }
  }

  /** Some tab of domain `d1` with a real id comes before every such tab of domain `d2`. */
  ghost predicate DomainFirstBefore(xs: seq<Placed>, d1: string, d2: string) {
    exists i :: 0 <= i < |xs| && HasTabId(xs[i]) && PlacedDomain(xs[i]) == d1 &&
                forall k :: 0 <= k < i ==> !(HasTabId(xs[k]) && PlacedDomain(xs[k]) == d2)
  }

  /**
   * Of two tabs that move, one in the `cp`-th list and one in the `cq`-th, the
   * move of the first comes first when its list is earlier, or when both are in
   * the same list and it is earlier there.
   */
  lemma AllMovesOrder(keys: seq<string>, lists: map<string, seq<Placed>>, focusedId: int,
                      cp: nat, i: nat, cq: nat, j: nat)
    requires forall k | k in keys :: k in lists
    requires cp < |keys| && i < |lists[keys[cp]]| && lists[keys[cp]][i].tab.windowId != focusedId
    requires cq < |keys| && j < |lists[keys[cq]]| && lists[keys[cq]][j].tab.windowId != focusedId
    requires cp < cq || (cp == cq && i < j)
    ensures exists a, b :: 0 <= a < b < |AllMoves(keys, lists, focusedId)| &&
                           AllMoves(keys, lists, focusedId)[a] == Move(lists[keys[cp]][i].tab.id, focusedId, -1) &&
                           AllMoves(keys, lists, focusedId)[b] == Move(lists[keys[cq]][j].tab.id, focusedId, -1)
  {
    var lp, lq := lists[keys[cp]], lists[keys[cq]];
    var mp, mq := Move(lp[i].tab.id, focusedId, -1), Move(lq[j].tab.id, focusedId, -1);
    if cp == cq {
      MovesOfOrder(lp, focusedId, i, j);
      var a, b :| 0 <= a < b < |MovesOf(lp, focusedId)| &&
                  MovesOf(lp, focusedId)[a] == mp && MovesOf(lp, focusedId)[b] == mq;
      AllMovesAt(keys, lists, focusedId, cp, a);
      AllMovesAt(keys, lists, focusedId, cp, b);
    } else {
      MovesOfElement(lp, focusedId, mp);
      MovesOfElement(lq, focusedId, mq);
      var a :| 0 <= a < |MovesOf(lp, focusedId)| && MovesOf(lp, focusedId)[a] == mp;
      var b :| 0 <= b < |MovesOf(lq, focusedId)| && MovesOf(lq, focusedId)[b] == mq;
      AllMovesAt(keys, lists, focusedId, cp, a);
      AllMovesAt(keys, lists, focusedId, cq, b);
      AllMovesBefore(keys, lists, focusedId, cp, cq);
    }
  }

  /**
   * The order of the moves, which decides where the tabs end up since each goes
   * to the end of the focused window: within a domain by original window and
   * then index, and domain after domain in order of first appearance.
   */
  lemma AcrossMovesOrder(windows: seq<HostWindow>, focusedId: int, p: Placed, q: Placed)
    requires p in Flatten(windows) && HasTabId(p) && p.tab.windowId != focusedId
    requires q in Flatten(windows) && HasTabId(q) && q.tab.windowId != focusedId
    requires PlacedDomain(p) == PlacedDomain(q) ==> !PlacedLe(q, p)
    requires PlacedDomain(p) != PlacedDomain(q) ==> DomainFirstBefore(Flatten(windows), PlacedDomain(p), PlacedDomain(q))
    ensures exists a, b :: 0 <= a < b < |AcrossMoves(windows, focusedId)| &&
                           AcrossMoves(windows, focusedId)[a] == Move(p.tab.id, focusedId, -1) &&
                           AcrossMoves(windows, focusedId)[b] == Move(q.tab.id, focusedId, -1)
  {
    var b := TabsByDomainAcross(windows);
    var lists := SortedLists(b);
    var cp, i := PositionInLists(windows, p);
    var cq, j := PositionInLists(windows, q);
    if PlacedDomain(p) == PlacedDomain(q) {
      assert cp == cq;
      SameDomainOrder(windows, PlacedDomain(p), i, j);
    } else {
      DomainsInOrder(windows, PlacedDomain(p), PlacedDomain(q), cp, cq);
    }
    var moves := AllMoves(b.keys, lists, focusedId);
    assert moves == AcrossMoves(windows, focusedId);
    AllMovesOrder(b.keys, lists, focusedId, cp, i, cq, j);
    var x, y :| 0 <= x < y < |moves| && moves[x] == Move(p.tab.id, focusedId, -1) &&
                moves[y] == Move(q.tab.id, focusedId, -1);
  }

  /** Where a tab with a real id sits: the key of its domain and its place in that domain's sorted list. */
  lemma PositionInLists(windows: seq<HostWindow>, p: Placed) returns (c: nat, i: nat)
    requires p in Flatten(windows) && HasTabId(p)
    ensures c < |TabsByDomainAcross(windows).keys| && TabsByDomainAcross(windows).keys[c] == PlacedDomain(p)
    ensures i < |SortedLists(TabsByDomainAcross(windows))[PlacedDomain(p)]|
    ensures SortedLists(TabsByDomainAcross(windows))[PlacedDomain(p)][i] == p
  {
    var b := TabsByDomainAcross(windows);
    SortedListsElement(windows, PlacedDomain(p), p);
    assert PlacedDomain(p) in b.keys;
    c :| 0 <= c < |b.keys| && b.keys[c] == PlacedDomain(p);
    var ps := SortedLists(b)[PlacedDomain(p)];
    i :| 0 <= i < |ps| && ps[i] == p;
  }

  /** In a sorted list, a tab ranked strictly after another comes after it. */
  lemma SameDomainOrder(windows: seq<HostWindow>, d: string, i: nat, j: nat)
    requires d in SortedLists(TabsByDomainAcross(windows))
    requires i < |SortedLists(TabsByDomainAcross(windows))[d]| && j < |SortedLists(TabsByDomainAcross(windows))[d]|
    requires !PlacedLe(SortedLists(TabsByDomainAcross(windows))[d][j], SortedLists(TabsByDomainAcross(windows))[d][i])
    ensures i < j
  {
    SortedListsSpec(windows, d);
  }

  /** A domain that first appears earlier has the earlier key in the map. */
  lemma DomainsInOrder(windows: seq<HostWindow>, d1: string, d2: string, c1: nat, c2: nat)
    requires d1 != d2 && DomainFirstBefore(Flatten(windows), d1, d2)
    requires c1 < |TabsByDomainAcross(windows).keys| && TabsByDomainAcross(windows).keys[c1] == d1
    requires c2 < |TabsByDomainAcross(windows).keys| && TabsByDomainAcross(windows).keys[c2] == d2
    ensures c1 < c2
  {
    if c2 < c1 {
      GroupByOrder(Flatten(windows), HasTabId, PlacedDomain, PlacedSelf, c2, c1);
    }
  }

  /** The tabs the bucketing loop keeps, in input order. */
  function TabsWithId(xs: seq<Placed>): (r: seq<Placed>)
    ensures forall p :: p in r <==> p in xs && HasTabId(p)
  {
    if xs == [] then []
    else
      var init, x := xs[..|xs| - 1], xs[|xs| - 1];
      assert xs == init + [x];
      TabsWithId(init) + (if HasTabId(x) then [x] else [])
  }

  lemma {:induction false} MovesOfAppend(a: seq<Placed>, b: seq<Placed>, focusedId: int)
    ensures MovesOf(a + b, focusedId) == MovesOf(a, focusedId) + MovesOf(b, focusedId)
  {
    if b == [] {
      assert a + b == a;
    } else {
      var init := b[..|b| - 1];
      var ab := a + b;
      assert ab[..|ab| - 1] == a + init && ab[|ab| - 1] == b[|b| - 1];
      MovesOfAppend(a, init, focusedId);
    }
  }

  /** Reordering a list only reorders its moves. */
  lemma {:induction false} MovesOfPermutation(ps: seq<Placed>, qs: seq<Placed>, focusedId: int)
    requires multiset(ps) == multiset(qs)
    ensures multiset(MovesOf(ps, focusedId)) == multiset(MovesOf(qs, focusedId))
    decreases |ps|
  {
    if ps == [] {
      assert |qs| == |multiset(qs)| == 0;
    } else {
      var init, x := ps[..|ps| - 1], ps[|ps| - 1];
      assert ps == init + [x];
      assert x in multiset(qs);
      var k :| 0 <= k < |qs| && qs[k] == x;
      var rest := qs[..k] + qs[k + 1..];
      assert qs == qs[..k] + [x] + qs[k + 1..];
      assert multiset(qs) == multiset(qs[..k]) + multiset{x} + multiset(qs[k + 1..]);
      assert multiset(rest) == multiset(qs[..k]) + multiset(qs[k + 1..]);
      assert multiset(rest) == multiset(qs) - multiset{x};
      assert multiset(init) == multiset(ps) - multiset{x};
      MovesOfPermutation(init, rest, focusedId);
      MovesOfAppend(init, [x], focusedId);
      MovesOfAppend(qs[..k] + [x], qs[k + 1..], focusedId);
      MovesOfAppend(qs[..k], [x], focusedId);
      MovesOfAppend(qs[..k], qs[k + 1..], focusedId);
    }
  }

  /** The moves only read the lists of the keys they visit. */
  lemma {:induction false} AllMovesFrame(keys: seq<string>, l1: map<string, seq<Placed>>, l2: map<string, seq<Placed>>, focusedId: int)
    requires forall k | k in keys :: k in l1 && k in l2 && l1[k] == l2[k]
    ensures AllMoves(keys, l1, focusedId) == AllMoves(keys, l2, focusedId)
  {
    if keys != [] {
      var init := keys[..|keys| - 1];
      assert forall k | k in init :: k in keys;
      AllMovesFrame(init, l1, l2, focusedId);
    }
  }

  /** Appending to the list of one key, listed once, adds the moves of what was appended. */
  lemma {:induction false} AllMovesUpdate(keys: seq<string>, lists: map<string, seq<Placed>>, k: string,
                                          extra: seq<Placed>, focusedId: int)
    requires forall k' | k' in keys :: k' in lists
    requires k in keys && forall i, j :: 0 <= i < j < |keys| ==> keys[i] != keys[j]
    ensures multiset(AllMoves(keys, lists[k := lists[k] + extra], focusedId))
            == multiset(AllMoves(keys, lists, focusedId)) + multiset(MovesOf(extra, focusedId))
  {
    var lists' := lists[k := lists[k] + extra];
    var init, last := keys[..|keys| - 1], keys[|keys| - 1];
    assert forall k' | k' in init :: k' in keys;
    if last == k {
      assert k !in init;
      AllMovesFrame(init, lists', lists, focusedId);
      MovesOfAppend(lists[k], extra, focusedId);
    } else {
      assert keys == init + [last];
      AllMovesUpdate(init, lists, k, extra, focusedId);
    }
  }

  /** Sorting every list only reorders the moves. */
  lemma {:induction false} SortedMoves(keys: seq<string>, b: Buckets<string, Placed>, focusedId: int)
    requires forall k | k in keys :: k in b.members
    ensures multiset(AllMoves(keys, SortedLists(b), focusedId)) == multiset(AllMoves(keys, b.members, focusedId))
  {
    if keys != [] {
      var init, last := keys[..|keys| - 1], keys[|keys| - 1];
      assert forall k | k in init :: k in keys;
      SortedMoves(init, b, focusedId);
      SortPermutes(b.members[last], PlacedLe);
      MovesOfPermutation(SortedLists(b)[last], b.members[last], focusedId);
    }
  }

  /** Before the sort, the moves of all the lists are those of the kept tabs, in some order. */
  lemma {:induction false} GroupedMoves(xs: seq<Placed>, focusedId: int)
    ensures var b := GroupBy(xs, HasTabId, PlacedDomain, PlacedSelf);
            multiset(AllMoves(b.keys, b.members, focusedId)) == multiset(MovesOf(TabsWithId(xs), focusedId))
  {
    if xs != [] {
      var init, x := xs[..|xs| - 1], xs[|xs| - 1];
      GroupedMoves(init, focusedId);
      var b0 := GroupBy(init, HasTabId, PlacedDomain, PlacedSelf);
      if HasTabId(x) {
        var k := PlacedDomain(x);
        var b := GroupBy(xs, HasTabId, PlacedDomain, PlacedSelf);
        assert b == Push(b0, k, x);
        assert TabsWithId(xs) == TabsWithId(init) + [x];
        MovesOfAppend(TabsWithId(init), [x], focusedId);
        if k in b0.members {
          assert b.keys == b0.keys;
          assert b.members == b0.members[k := b0.members[k] + [x]];
          AllMovesUpdate(b0.keys, b0.members, k, [x], focusedId);
        } else {
          assert b.keys == b0.keys + [k];
          assert b.keys[..|b.keys| - 1] == b0.keys;
          assert b.members[k] == [x];
          AllMovesFrame(b0.keys, b.members, b0.members, focusedId);
          assert AllMoves(b.keys, b.members, focusedId)
                 == AllMoves(b0.keys, b0.members, focusedId) + MovesOf([x], focusedId);
        }
      } else {
        assert GroupBy(xs, HasTabId, PlacedDomain, PlacedSelf) == b0;
        assert TabsWithId(xs) == TabsWithId(init);
      }
    }
  }

  /**
   * Each tab with a real id outside the focused window is moved exactly once:
   * the moves are those of the kept tabs, each counted as often as it occurs.
   */
  lemma AcrossMovesCount(windows: seq<HostWindow>, focusedId: int)
    ensures multiset(AcrossMoves(windows, focusedId)) == multiset(MovesOf(TabsWithId(Flatten(windows)), focusedId))
  {
    var b := TabsByDomainAcross(windows);
    SortedMoves(b.keys, b, focusedId);
    GroupedMoves(Flatten(windows), focusedId);
  }

  /**
   * Every cross-window group is the ids of the non-pinned tabs of its domain's
   * list after the sort, so in (window, index) order; they are the ids of
   * exactly the domain's groupable tabs, at least two of them, and the group is
   * titled, coloured and collapsed as in one window.
   */
  lemma AcrossGroupsSound(windows: seq<HostWindow>, j: nat)
    requires j < |AcrossGroups(windows)|
    ensures |AcrossGroups(windows)[j].tabIds| >= 2
    ensures AcrossGroups(windows)[j].title in SortedLists(TabsByDomainAcross(windows))
    ensures AcrossGroups(windows)[j].tabIds
            == UnpinnedIds(SortedLists(TabsByDomainAcross(windows))[AcrossGroups(windows)[j].title])
    ensures multiset(AcrossGroups(windows)[j].tabIds)
            == multiset(Members(Flatten(windows), GroupableAcross, PlacedDomain, PlacedId, AcrossGroups(windows)[j].title))
    ensures AcrossGroups(windows)[j].color == ColorOf(AcrossGroups(windows)[j].title)
    ensures AcrossGroups(windows)[j].collapsed
    ensures forall id | id in AcrossGroups(windows)[j].tabIds ::
              exists p :: p in Flatten(windows) && HasTabId(p) && !p.tab.pinned && p.tab.id == id &&
                          PlacedDomain(p) == AcrossGroups(windows)[j].title
  {
    var b := TabsByDomainAcross(windows);
    var lists := SortedLists(b);
    DomainGroupsSound(b.keys, GroupableLists(lists), j);
    var op := AcrossGroups(windows)[j];
    GroupableListsIds(windows, op.title);
    forall id | id in op.tabIds
      ensures exists p :: p in Flatten(windows) && HasTabId(p) && !p.tab.pinned && p.tab.id == id &&
                          PlacedDomain(p) == op.title
    {
      var ps := lists[op.title];
      var i :| 0 <= i < |ps| && !ps[i].tab.pinned && ps[i].tab.id == id;
      SortedListsElement(windows, op.title, ps[i]);
    }
  }

  /** The ids a domain's group would get are, as a multiset, those of the domain's groupable tabs. */
  lemma GroupableListsIds(windows: seq<HostWindow>, d: string)
    requires d in SortedLists(TabsByDomainAcross(windows))
    ensures multiset(UnpinnedIds(SortedLists(TabsByDomainAcross(windows))[d]))
            == multiset(Members(Flatten(windows), GroupableAcross, PlacedDomain, PlacedId, d))
  {
    SortedListsSpec(windows, d);
    UnpinnedIdsPermutation(SortedLists(TabsByDomainAcross(windows))[d],
                           Members(Flatten(windows), HasTabId, PlacedDomain, PlacedSelf, d));
    UnpinnedMembers(Flatten(windows), d);
  }

  /** Every domain with at least two groupable tabs across the windows gets a group. */
  lemma AcrossGroupsComplete(windows: seq<HostWindow>, d: string)
    requires |Members(Flatten(windows), GroupableAcross, PlacedDomain, PlacedId, d)| >= 2
    ensures exists j :: 0 <= j < |AcrossGroups(windows)| && AcrossGroups(windows)[j].title == d
  {
    var b := TabsByDomainAcross(windows);
    var ids := GroupableLists(SortedLists(b));
    GroupableListLong(windows, d);
    DomainGroupsComplete(b.keys, ids, d);
    var j :| 0 <= j < |DomainGroups(b.keys, ids)| && DomainGroups(b.keys, ids)[j].title == d;
    assert AcrossGroups(windows)[j].title == d;
  }

  /** A domain with two groupable tabs is a key whose filtered list has at least two ids. */
  lemma GroupableListLong(windows: seq<HostWindow>, d: string)
    requires |Members(Flatten(windows), GroupableAcross, PlacedDomain, PlacedId, d)| >= 2
    ensures d in TabsByDomainAcross(windows).keys
    ensures |GroupableLists(SortedLists(TabsByDomainAcross(windows)))[d]| >= 2
  {
    var xs := Flatten(windows);
    var b := TabsByDomainAcross(windows);
    MembersEmpty(xs, GroupableAcross, PlacedDomain, PlacedId, d);
    MembersEmpty(xs, HasTabId, PlacedDomain, PlacedSelf, d);
    GroupByMembers(xs, HasTabId, PlacedDomain, PlacedSelf, d);
    assert d in b.keys;
    GroupableListsIds(windows, d);
    var ids := GroupableLists(SortedLists(b))[d];
    assert |ids| == |multiset(ids)|;
  }

  /**
   * Cross-window groups are created once per domain, in the order the domains
   * first appear among the tabs with a real id, window after window (pinned tabs
   * count here: they enter the map even though they are never grouped).
   */
  lemma AcrossGroupsOrder(windows: seq<HostWindow>, i: nat, j: nat)
    requires i < j < |AcrossGroups(windows)|
    ensures Members(Flatten(windows), HasTabId, PlacedDomain, PlacedSelf, AcrossGroups(windows)[i].title) != []
    ensures Members(Flatten(windows), HasTabId, PlacedDomain, PlacedSelf, AcrossGroups(windows)[j].title) != []
    ensures FirstIndex(Flatten(windows), HasTabId, PlacedDomain, PlacedSelf, AcrossGroups(windows)[i].title)
            < FirstIndex(Flatten(windows), HasTabId, PlacedDomain, PlacedSelf, AcrossGroups(windows)[j].title)
  {
    var b := TabsByDomainAcross(windows);
    var ids := GroupableLists(SortedLists(b));
    DomainGroupsOrder(b.keys, ids, i, j);
    var p, q :| 0 <= p < q < |b.keys| && b.keys[p] == AcrossGroups(windows)[i].title
                                    && b.keys[q] == AcrossGroups(windows)[j].title;
    GroupByOrder(Flatten(windows), HasTabId, PlacedDomain, PlacedSelf, p, q);
  }

  /** `windows.find(w => w.focused) || windows[0]`. */
  function FindFocused(windows: seq<HostWindow>): (r: Option<HostWindow>)
    ensures r.None? <==> windows == []
    ensures r.Some? ==> r.value in windows
    ensures r.Some? && !r.value.focused ==> r.value == windows[0] && forall w :: w in windows ==> !w.focused
    ensures r.Some? && r.value.focused ==>
              exists i :: 0 <= i < |windows| && windows[i] == r.value && forall k :: 0 <= k < i ==> !windows[k].focused
  {
    if windows == [] then None
    else if windows[0].focused then Some(windows[0])
    else
      var r := FindFocused(windows[1..]);
      if r.Some? && r.value.focused then r else Some(windows[0])
  }

  datatype AcrossCollapse = AcrossCollapse(focusedId: int, moves: seq<Move>, ungroup: seq<TabId>, groups: seq<GroupOp>)

  /**
   * The host calls `collapseTabsAcrossAllWindowsIntoFocusedWindow` issues after its
   * capture; `focusedTabsNow` is what the focused window holds after the moves.
   */
  function AcrossCollapsePlan(windows: seq<HostWindow>, focusedTabsNow: seq<HostTab>): Option<AcrossCollapse> {
    match FindFocused(windows)
    case None => None
    case Some(w) => Some(AcrossCollapse(w.id, AcrossMoves(windows, w.id), UngroupIds(focusedTabsNow), AcrossGroups(windows)))
  }
}
