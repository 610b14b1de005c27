/**
 * The decisions `restoreFromUndo` takes for a window-scoped snapshot: which tabs
 * are ungrouped, where each captured tab is moved, which original groups are
 * rebuilt and with what metadata, and which tab is activated again.
 */
module Restore {
  import opened Wrappers
  import opened Tabs
  import opened Partition
  import opened Sorting

  /** `typeof t.id === 'number'`: the filter applied before the moves. */
  predicate HasNumericId(r: TabRecord) {
    r.id.Some?
  }

  function WithNumericId(recs: seq<TabRecord>): (r: seq<TabRecord>)
    ensures forall i :: 0 <= i < |r| ==> HasNumericId(r[i])
  {
    if recs == [] then []
    else
      var last := recs[|recs| - 1];
      WithNumericId(recs[..|recs| - 1]) + (if HasNumericId(last) then [last] else [])
  }

  /** The filter keeps every record with a numeric id as often as it occurs, and no other. */
  lemma {:induction false} WithNumericIdCount(recs: seq<TabRecord>, x: TabRecord)
    ensures multiset(WithNumericId(recs))[x] == if HasNumericId(x) then multiset(recs)[x] else 0
  {
    if recs != [] {
      var init := recs[..|recs| - 1];
      WithNumericIdCount(init, x);
      assert recs == init + [recs[|recs| - 1]];
    }
  }

  /** The comparator `(a, b) => a.index - b.index`. */
  predicate IndexLe(a: TabRecord, b: TabRecord) {
    a.index <= b.index
  }

  lemma IndexLeIsTotalPreorder()
    ensures TotalPreorder(IndexLe)
  {
  }

  /** `existingStates`: the records with numeric ids, sorted by captured index. */
  function MoveOrder(recs: seq<TabRecord>): seq<TabRecord> {
    InsertionSorted(WithNumericId(recs), IndexLe)
  }

  /** The k-th record of `order` is moved to position k of the window. */
  function MovePlan(windowId: int, order: seq<TabRecord>): seq<Move> {
    seq(|order|, k requires 0 <= k < |order| => Move(order[k].id, windowId, k))
  }

  /**
   * The move order holds every record with a numeric id exactly as often as the
   * snapshot does, nothing else, in ascending order of captured index.
   */
  lemma RestoreMoveOrder(recs: seq<TabRecord>)
    ensures var order := MoveOrder(recs);
            && (forall k :: 0 <= k < |order| ==> HasNumericId(order[k]))
            && (forall i, j :: 0 <= i < j < |order| ==> order[i].index <= order[j].index)
            && (forall x :: multiset(order)[x] == if HasNumericId(x) then multiset(recs)[x] else 0)
  {
    var order := MoveOrder(recs);
    IndexLeIsTotalPreorder();
    SortedBySort(WithNumericId(recs), IndexLe);
    SortPermutes(WithNumericId(recs), IndexLe);
    forall x ensures multiset(order)[x] == if HasNumericId(x) then multiset(recs)[x] else 0 {
      WithNumericIdCount(recs, x);
    }
    forall k | 0 <= k < |order| ensures HasNumericId(order[k]) {
      assert order[k] in multiset(order);
      WithNumericIdCount(recs, order[k]);
    }
  }

  /**
   * Undoing a capture of a window whose tabs all have ids and sit at positions
   * 0..n-1 in query order moves every tab back to its captured index.
   */
  lemma CapturedOrderRestored(windowId: int, tabs: seq<HostTab>)
    requires forall k :: 0 <= k < |tabs| ==> tabs[k].id.Some? && tabs[k].index == k
    ensures var moves := MovePlan(windowId, MoveOrder(CaptureTabs(tabs)));
            && |moves| == |tabs|
            && forall k :: 0 <= k < |tabs| ==> moves[k] == Move(tabs[k].id, windowId, tabs[k].index)
  {
    var recs := CaptureTabs(tabs);
    AllNumeric(recs);
    assert SortedBy(recs, IndexLe);
    SortOfSorted(recs, IndexLe);
  }

  lemma {:induction false} AllNumeric(recs: seq<TabRecord>)
    requires forall k :: 0 <= k < |recs| ==> HasNumericId(recs[k])
    ensures WithNumericId(recs) == recs
  {
    if recs != [] {
      AllNumeric(recs[..|recs| - 1]);
    }
  }

  /** The loop that rebuilds groups skips ungrouped and pinned records. */
  predicate Regroupable(r: TabRecord) {
    r.groupId != UNGROUPED && !r.pinned
  }

  function OriginalGroupId(r: TabRecord): int {
    r.groupId
  }

  function RecordId(r: TabRecord): TabId {
    r.id
  }

  /** `tabsByOriginalGroup` once the loop over the captured records is done. */
  function OriginalGroups(recs: seq<TabRecord>): Buckets<int, TabId> {
    GroupBy(recs, Regroupable, OriginalGroupId, RecordId)
  }

  /** `ids.filter(id => existingTabIdSet.has(id))`. */
  function Surviving(ids: seq<TabId>, live: set<TabId>): (r: seq<TabId>)
    ensures |r| <= |ids|
    ensures forall id :: id in r <==> id in ids && id in live
  {
    if ids == [] then []
    else
      var init, last := ids[..|ids| - 1], ids[|ids| - 1];
      assert ids == init + [last];
      Surviving(init, live) + (if last in live then [last] else [])
  }

  /** `new Set(tabsAfterMove.map(t => t.id))`. */
  function LiveIds(tabs: seq<HostTab>): set<TabId> {
    set t | t in tabs :: t.id
  }

  /** `(groupStates || []).find(g => g.id === originalGroupId)`: the first captured group with that id. */
  function FindGroup(groups: seq<GroupRecord>, id: int): (r: Option<GroupRecord>)
    ensures r.None? <==> forall i :: 0 <= i < |groups| ==> groups[i].id != id
    ensures r.Some? ==> exists i :: 0 <= i < |groups| && groups[i] == r.value && r.value.id == id &&
                                    forall j :: 0 <= j < i ==> groups[j].id != id
  {
    if groups == [] then None
    else if groups[0].id == id then Some(groups[0])
    else
      var r := FindGroup(groups[1..], id);
      assert forall i :: 1 <= i < |groups| ==> groups[i] == groups[1..][i - 1];
      r
  }

  /** A group to create: `tabIds` are grouped and, when `meta` is present, given its title, colour and collapsed flag. */
  datatype Regroup = Regroup(origin: int, tabIds: seq<TabId>, meta: Option<GroupRecord>)

  /** The loop over `tabsByOriginalGroup.entries()`: only lists with at least two surviving ids become groups. */
  function Regroups(keys: seq<int>, members: map<int, seq<TabId>>, live: set<TabId>,
                    groups: seq<GroupRecord>): seq<Regroup>
    requires forall k | k in keys :: k in members
  {
    if keys == [] then []
    else
      var k := keys[|keys| - 1];
      var ids := Surviving(members[k], live);
      Regroups(keys[..|keys| - 1], members, live, groups)
        + (if |ids| < 2 then [] else [Regroup(k, ids, FindGroup(groups, k))])
  }

  /** Every group created has at least two surviving ids of its original group and that group's captured metadata. */
  lemma {:induction false} RegroupsSound(keys: seq<int>, members: map<int, seq<TabId>>,
                                         live: set<TabId>, groups: seq<GroupRecord>, j: nat)
    requires forall k | k in keys :: k in members
    requires j < |Regroups(keys, members, live, groups)|
    ensures var op := Regroups(keys, members, live, groups)[j];
            && op.origin in keys
            && op.tabIds == Surviving(members[op.origin], live)
            && |op.tabIds| >= 2
            && op.meta == FindGroup(groups, op.origin)
  {
    var init, last := keys[..|keys| - 1], keys[|keys| - 1];
    var r0 := Regroups(init, members, live, groups);
    if j < |r0| {
      RegroupsSound(init, members, live, groups, j);
      assert Regroups(keys, members, live, groups)[j] == r0[j];
    }
  }

  /** Every original group with at least two surviving ids is rebuilt. */
  lemma {:induction false} RegroupsComplete(keys: seq<int>, members: map<int, seq<TabId>>,
                                            live: set<TabId>, groups: seq<GroupRecord>, k: int)
    requires forall k | k in keys :: k in members
    requires k in keys && |Surviving(members[k], live)| >= 2
    ensures exists j :: 0 <= j < |Regroups(keys, members, live, groups)| &&
                        Regroups(keys, members, live, groups)[j].origin == k
  {
    var init := keys[..|keys| - 1];
    if k in init {
      RegroupsComplete(init, members, live, groups, k);
      var j :| 0 <= j < |Regroups(init, members, live, groups)| && Regroups(init, members, live, groups)[j].origin == k;
      assert Regroups(keys, members, live, groups)[j].origin == k;
    } else {
      assert keys[|keys| - 1] == k;
      var r0 := Regroups(init, members, live, groups);
      var r := Regroups(keys, members, live, groups);
      assert r == r0 + [Regroup(k, Surviving(members[k], live), FindGroup(groups, k))];
      assert r[|r| - 1].origin == k;
    }
  }

  /** Groups are created in the order of `keys`. */
  lemma {:induction false} RegroupsOrder(keys: seq<int>, members: map<int, seq<TabId>>,
                                         live: set<TabId>, groups: seq<GroupRecord>, i: nat, j: nat)
    requires forall k | k in keys :: k in members
    requires i < j < |Regroups(keys, members, live, groups)|
    ensures var r := Regroups(keys, members, live, groups);
            exists p, q :: 0 <= p < q < |keys| && keys[p] == r[i].origin && keys[q] == r[j].origin
  {
    var init := keys[..|keys| - 1];
    var r0 := Regroups(init, members, live, groups);
    var r := Regroups(keys, members, live, groups);
    if j < |r0| {
      RegroupsOrder(init, members, live, groups, i, j);
      var p, q :| 0 <= p < q < |init| && init[p] == r0[i].origin && init[q] == r0[j].origin;
      assert keys[p] == r[i].origin && keys[q] == r[j].origin;
    } else {
      RegroupsSound(init, members, live, groups, i);
      assert r[i] == r0[i];
      var p :| 0 <= p < |init| && init[p] == r0[i].origin;
      assert keys[p] == r[i].origin && keys[|keys| - 1] == r[j].origin;
    }
  }

  /** `tabStates.find(t => t.active)`, reduced to the id that is then activated. */
  function FindActive(recs: seq<TabRecord>): (r: Option<TabId>)
    ensures r.None? <==> forall i :: 0 <= i < |recs| ==> !recs[i].active
    ensures r.Some? ==> exists i :: 0 <= i < |recs| && recs[i].active && recs[i].id == r.value &&
                                    forall j :: 0 <= j < i ==> !recs[j].active
  {
    if recs == [] then None
    else if recs[0].active then Some(recs[0].id)
    else
      var r := FindActive(recs[1..]);
      assert forall i :: 1 <= i < |recs| ==> recs[i] == recs[1..][i - 1];
      r
  }

  /** The host calls a restore issues, in order. */
  datatype RestorePlan =
    | WindowRestore(ungroup: seq<TabId>, moves: seq<Move>, regroups: seq<Regroup>, activate: Option<TabId>)
    | RecreateWindows(windows: seq<WindowRecord>)

  function GroupsOrEmpty(groups: Option<seq<GroupRecord>>): seq<GroupRecord> {
    match groups
    case None => []
    case Some(gs) => gs
  }

  /**
   * The window-scoped restore of `recs` into window `windowId`. `currentTabs` is what
   * the window holds before, `tabsAfterMove` what it holds after the moves.
   */
  function WindowRestorePlan(windowId: int, recs: seq<TabRecord>, groups: Option<seq<GroupRecord>>,
                             currentTabs: seq<HostTab>, tabsAfterMove: seq<HostTab>): RestorePlan
  {
    var b := OriginalGroups(recs);
    WindowRestore(
      UngroupIds(currentTabs),
      MovePlan(windowId, MoveOrder(recs)),
      Regroups(b.keys, b.members, LiveIds(tabsAfterMove), GroupsOrEmpty(groups)),
      FindActive(recs))
  }

  /**
   * Whether `restoreFromUndo` goes ahead with a stored snapshot: a window-scoped
   * one needs a truthy `windowId` (present and not 0) and a `tabs` array.
   */
  predicate Restorable(s: Snapshot) {
    match s
    case WindowSnapshot(_, windowId, tabs, _) => windowId.Some? && windowId.value != 0 && tabs.Some?
    case AllSnapshot(_, _) => true
  }

  /** What a restore of `s` issues; the all-windows case hands the captured windows on unchanged. */
  function SnapshotRestorePlan(s: Snapshot, currentTabs: seq<HostTab>, tabsAfterMove: seq<HostTab>): RestorePlan
    requires Restorable(s)
  {
    match s
    case WindowSnapshot(_, windowId, tabs, groups) =>
      WindowRestorePlan(windowId.value, tabs.value, groups, currentTabs, tabsAfterMove)
    case AllSnapshot(_, windows) => RecreateWindows(windows)
  }

  /**
   * Every group a restore rebuilds holds the surviving ids of the non-pinned
   * records of one original group, at least two of them, all alive after the
   * moves, and carries that group's captured metadata when there is one.
   */
  lemma RestoreRegroupsSound(windowId: int, recs: seq<TabRecord>, groups: Option<seq<GroupRecord>>,
                             currentTabs: seq<HostTab>, tabsAfterMove: seq<HostTab>, j: nat)
    requires j < |WindowRestorePlan(windowId, recs, groups, currentTabs, tabsAfterMove).regroups|
    ensures var op := WindowRestorePlan(windowId, recs, groups, currentTabs, tabsAfterMove).regroups[j];
            var live := LiveIds(tabsAfterMove);
            && op.origin != UNGROUPED
            && op.tabIds == Surviving(Members(recs, Regroupable, OriginalGroupId, RecordId, op.origin), live)
            && |op.tabIds| >= 2
            && (forall id :: id in op.tabIds ==> id in live)
            && op.meta == FindGroup(GroupsOrEmpty(groups), op.origin)
  {
    var b := OriginalGroups(recs);
    var live := LiveIds(tabsAfterMove);
    var gs := GroupsOrEmpty(groups);
    var r := Regroups(b.keys, b.members, live, gs);
    RegroupsSound(b.keys, b.members, live, gs, j);
    var g := r[j].origin;
    GroupByMembers(recs, Regroupable, OriginalGroupId, RecordId, g);
    var ms := Members(recs, Regroupable, OriginalGroupId, RecordId, g);
    MembersElement(recs, Regroupable, OriginalGroupId, RecordId, g, ms[0]);
  }

  /** Every original group with at least two surviving ids is rebuilt. */
  lemma RestoreRegroupsComplete(windowId: int, recs: seq<TabRecord>, groups: Option<seq<GroupRecord>>,
                                currentTabs: seq<HostTab>, tabsAfterMove: seq<HostTab>, g: int)
    requires |Surviving(Members(recs, Regroupable, OriginalGroupId, RecordId, g), LiveIds(tabsAfterMove))| >= 2
    ensures exists j :: 0 <= j < |WindowRestorePlan(windowId, recs, groups, currentTabs, tabsAfterMove).regroups| &&
                        WindowRestorePlan(windowId, recs, groups, currentTabs, tabsAfterMove).regroups[j].origin == g
  {
    var b := OriginalGroups(recs);
    GroupByMembers(recs, Regroupable, OriginalGroupId, RecordId, g);
    RegroupsComplete(b.keys, b.members, LiveIds(tabsAfterMove), GroupsOrEmpty(groups), g);
    var r := Regroups(b.keys, b.members, LiveIds(tabsAfterMove), GroupsOrEmpty(groups));
    assert r == WindowRestorePlan(windowId, recs, groups, currentTabs, tabsAfterMove).regroups;
  }

  /** No original group is rebuilt twice, and they are rebuilt in order of first appearance. */
  lemma RestoreRegroupsOrder(windowId: int, recs: seq<TabRecord>, groups: Option<seq<GroupRecord>>,
                             currentTabs: seq<HostTab>, tabsAfterMove: seq<HostTab>, i: nat, j: nat)
    requires i < j < |WindowRestorePlan(windowId, recs, groups, currentTabs, tabsAfterMove).regroups|
    ensures var r := WindowRestorePlan(windowId, recs, groups, currentTabs, tabsAfterMove).regroups;
            && Members(recs, Regroupable, OriginalGroupId, RecordId, r[i].origin) != []
            && Members(recs, Regroupable, OriginalGroupId, RecordId, r[j].origin) != []
            && FirstIndex(recs, Regroupable, OriginalGroupId, RecordId, r[i].origin)
               < FirstIndex(recs, Regroupable, OriginalGroupId, RecordId, r[j].origin)
  {
    var b := OriginalGroups(recs);
    var live := LiveIds(tabsAfterMove);
    var gs := GroupsOrEmpty(groups);
    var r := Regroups(b.keys, b.members, live, gs);
    RegroupsOrder(b.keys, b.members, live, gs, i, j);
    var p, q :| 0 <= p < q < |b.keys| && b.keys[p] == r[i].origin && b.keys[q] == r[j].origin;
    GroupByOrder(recs, Regroupable, OriginalGroupId, RecordId, p, q);
  }

  /** Each id a rebuilt group receives is the id of a non-pinned record captured in that group. */
  lemma RegroupedIdsFromGroup(recs: seq<TabRecord>, live: set<TabId>, g: int, id: TabId)
    requires id in Surviving(Members(recs, Regroupable, OriginalGroupId, RecordId, g), live)
    ensures exists i :: 0 <= i < |recs| && recs[i].id == id && recs[i].groupId == g && !recs[i].pinned
  {
    MembersElement(recs, Regroupable, OriginalGroupId, RecordId, g, id);
  }

  /** The planning steps of `restoreFromUndo` for a window-scoped snapshot, with its loops. */
  method PlanWindowRestore(windowId: int, tabStates: seq<TabRecord>, groupStates: Option<seq<GroupRecord>>,
                           currentTabs: seq<HostTab>, tabsAfterMove: seq<HostTab>)
    returns (plan: RestorePlan)
    ensures plan == WindowRestorePlan(windowId, tabStates, groupStates, currentTabs, tabsAfterMove)
  {
    var ungroup := UngroupIds(currentTabs);

    var numeric := WithNumericId(tabStates);
    var existing := new TabRecord[|numeric|](i requires 0 <= i < |numeric| => numeric[i]);
    assert existing[..] == numeric;
    SortInPlace(existing, IndexLe);
    var moves := [];
    for desiredIndex := 0 to existing.Length
      invariant |moves| == desiredIndex
      invariant forall k :: 0 <= k < desiredIndex ==> moves[k] == Move(existing[k].id, windowId, k)
    {
      moves := moves + [Move(existing[desiredIndex].id, windowId, desiredIndex)];
    }
    assert moves == MovePlan(windowId, existing[..]);

    var byGroup: Buckets<int, TabId> := Buckets([], map[]);
    for i := 0 to |tabStates|
      invariant byGroup == OriginalGroups(tabStates[..i])
    {
      assert tabStates[..i + 1][..i] == tabStates[..i];
      var tabState := tabStates[i];
      if tabState.groupId == UNGROUPED { continue; }
      if tabState.pinned { continue; }
      byGroup := Push(byGroup, tabState.groupId, tabState.id);
    }
    assert tabStates[..|tabStates|] == tabStates;

    var live := LiveIds(tabsAfterMove);
    var metas := GroupsOrEmpty(groupStates);
    var regroups := [];
    for j := 0 to |byGroup.keys|
      invariant regroups == Regroups(byGroup.keys[..j], byGroup.members, live, metas)
    {
      assert byGroup.keys[..j + 1][..j] == byGroup.keys[..j];
      var originalGroupId := byGroup.keys[j];
      var tabIds := Surviving(byGroup.members[originalGroupId], live);
      if |tabIds| < 2 { continue; }
      regroups := regroups + [Regroup(originalGroupId, tabIds, FindGroup(metas, originalGroupId))];
    }
    assert byGroup.keys[..|byGroup.keys|] == byGroup.keys;

    plan := WindowRestore(ungroup, moves, regroups, FindActive(tabStates));
  }
}
