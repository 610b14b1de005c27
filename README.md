# Collapse — a verified model of the tab-collapsing core

Collapse is a browser extension. It gathers the open tabs into one collapsed
tab group per web domain, either within the current window or across all
windows into the focused one. Before each collapse it stores a single undo
snapshot, and a later "undo" uses it to put the tabs back in order and rebuild
the original groups. Each group gets a colour from a 32-bit string hash of its
domain, memoised in a cache. A content script picks a favicon's dominant
colour by counting the opaque pixels of each colour.

This project models that core in Dafny.

- The decisions the background script makes become values. These are which
  tabs are ungrouped, which tabs move where, which groups are created with what
  title, colour and collapsed flag, and which tab is re-activated. The
  `chrome.*` calls are issued from these values.
- Whatever the browser reports becomes a parameter: query results, the URL
  parser's hostname, timestamps and image bytes.
- The loops and in-place updates of the source stay imperative: methods with
  loop invariants, an in-place array sort, and a `Background` class whose fields
  are the `lastState` storage slot and the colour cache. Each method is proved
  equal to a specification function, and the promised properties are proved
  about those functions.

Modules:

- `Wrappers`: `Option`.
- `Partition`: the JavaScript `Map`-of-arrays grouping idiom, with keys kept in
  first-insertion order.
- `Sorting`: an insertion sort, both as a function and in place on an array.
  It is proved sorted, a permutation and stable, the three properties that
  `Array.prototype.sort` promises for a consistent comparator.
- `Domain`: the `www.` strip.
- `Colors`: `ToInt32`, the hash, the colour index.
- `Tabs`: host and snapshot records, the capture projections.
- `Restore`: the undo planner.
- `Collapse`: both collapse planners.
- `Background`: the stateful class and its loops.
- `Favicon`: the dominant-colour loop.

Where the code and its description differ, the model follows the code:

- `getDomain` deletes the first `"www."` anywhere in the hostname, not only a
  leading label. For example, `"awww.b.com"` becomes `"ab.com"`.
- The cross-window collapse moves every tab outside the focused window into
  that window, skipping only tabs whose id is `TAB_ID_NONE` (a tab reported
  without an id is moved too). This includes tabs of single-tab domains and
  pinned tabs, not only tabs of domains with several tabs.
- The restore move list keeps records whose `id` is a number
  (`typeof t.id === 'number'`). It does not check whether those tabs are still
  open.

## Model

| member | source | states |
|---|---|---|
| Domain.IndexOf | extension-build/background.js:14 | Returns the first position at or after `from` where the pattern occurs, or none when it occurs nowhere from there on. |
| Domain.RemoveFirst | extension-build/background.js:14 | A string in which the pattern never occurs is returned unchanged. |
| Domain.GetDomain | extension-build/background.js:12-19 | A URL that fails to parse gives `""`. A hostname without `"www."` comes back unchanged. |
| Domain.GetDomainRemovesFirstWww | extension-build/background.js:14 | Exactly the first `"www."` is removed, wherever it sits. The result is the text before it followed by the text after it, four characters shorter. |
| Colors.ToInt32 | extension-build/background.js:29 | `hash \|= 0` yields a signed 32-bit integer congruent to its input modulo 2^32. |
| Colors.HashStep | extension-build/background.js:28-29 | One step of the hash loop, without a contract of its own. HashStepTimes31 states its value. |
| Colors.HashStepTimes31 | extension-build/background.js:28-29 | The shift-and-subtract step `(h << 5) - h + c`, truncated, equals `ToInt32(31*h + c)`. |
| Colors.Hash | extension-build/background.js:26-30 | The hash after each character is a 32-bit signed integer. |
| Colors.HashIsWrappedPolynomial | extension-build/background.js:26-30 | The hash equals the unbounded polynomial `sum code(s[i]) * 31^(n-1-i)` wrapped to 32 bits once, at the end. |
| Colors.ColorIndex | extension-build/background.js:22-33 | The index is always below 9, so the palette lookup is in bounds. The empty domain gets index 0 (grey). |
| Colors.ColorOf | extension-build/background.js:41-42 | The selected colour is one of the nine palette colours. |
| Colors.GetColorIndex | extension-build/background.js:22-33 | The loop with its early return for the empty domain computes `ColorIndex(domain)`, which is below 9. |
| Partition.Push | extension-build/background.js:137-140 | One `set`/`push` step. It creates the key's list on first sight and appends the value. Other lists are unchanged. A new key is appended to the insertion order, which otherwise stays as it was. |
| Partition.GroupBy | extension-build/background.js:133-141 | The grouping loop yields a well-formed map: every key listed once, each with its list. |
| Partition.Members | extension-build/background.js:133-141 | A key's list is never longer than the input. |
| Partition.MembersElement | extension-build/background.js:133-141 | A value is in key `k`'s list exactly when some kept element has key `k` and that value. |
| Partition.MembersEmpty | extension-build/background.js:133-141 | A key's list is empty exactly when no kept element has that key. |
| Partition.GroupByMembers | extension-build/background.js:133-141 | A key is in the map exactly when some kept element has it. Its list is that key's members in input order. |
| Partition.FirstIndex | extension-build/background.js:137-138 | The element that creates a key's list is kept and has that key, and no kept element before it has that key. |
| Partition.GroupByOrder | extension-build/background.js:144 | `Map.entries()` visits keys in the order of their first kept element. |
| Sorting.Insert | extension-build/background.js:120 | Inserting one element makes the sequence one longer. What it inserts is stated by InsertPermutes, InsertKeepsSorted and InsertEquivalents. |
| Sorting.InsertionSorted | extension-build/background.js:120 | Sorting keeps the length. |
| Sorting.InsertPermutes | extension-build/background.js:120 | Inserting adds exactly that element to the multiset. |
| Sorting.SortPermutes | extension-build/background.js:120 | The sorted sequence is a permutation of the input. |
| Sorting.InsertKeepsSorted | extension-build/background.js:120 | Under a total preorder, inserting into a sorted sequence keeps it sorted. |
| Sorting.SortedBySort | extension-build/background.js:120 | Under a total preorder, the result is sorted. |
| Sorting.SortOfSorted | extension-build/background.js:120 | A sequence already sorted is left unchanged, so sorting twice is sorting once. |
| Sorting.Equivalents | extension-build/background.js:120 | The elements the comparator ranks equal to a given one, in their order. Every element listed is in the input and ranked equal. |
| Sorting.InsertEquivalents | extension-build/background.js:120 | Inserting an element puts it after every element ranked equal to it already there, and changes no other class's order. |
| Sorting.SortIsStable | extension-build/background.js:120 | The sort is stable: for every element, the elements ranked equal to it keep their input order. |
| Sorting.SortInPlace | extension-build/background.js:120 | The in-place array sort leaves the array equal to the stable sort of its old contents. |
| Sorting.InsertAt | extension-build/background.js:120 | Shifting one element left into the sorted prefix gives the stable insertion of that element. The rest of the array is untouched. |
| Tabs.CaptureTabs | extension-build/background.js:59-66 | The per-tab records of the window capture, one per tab in query order, without a contract of its own. CapturedOrderRestored and CollapseThenUndo state what the capture lets undo restore. |
| Tabs.CaptureGroups | extension-build/background.js:67-72 | The per-group records of the window capture, without a contract of its own. RestoreRegroupsSound states that a rebuilt group gets its captured title, colour and collapsed flag. |
| Tabs.CaptureWindows | extension-build/background.js:86-96 | The all-windows capture, `[]` for a window without tabs, without a contract of its own. SaveAllState stores it. |
| Tabs.UngroupIds | extension-build/background.js:112 | The ids to ungroup are those of all tabs in a group, and only those. |
| Restore.WithNumericId | extension-build/background.js:119 | Every kept record has a numeric id. |
| Restore.WithNumericIdCount | extension-build/background.js:119 | Exactly the records with numeric ids are kept, each as often as it occurs. |
| Restore.IndexLeIsTotalPreorder | extension-build/background.js:120 | The comparator `a.index - b.index` is a total preorder. |
| Restore.MoveOrder | extension-build/background.js:118-120 | The records to move, filtered and sorted by captured index, without a contract of its own. RestoreMoveOrder states its properties. |
| Restore.MovePlan | extension-build/background.js:122-129 | One move per record, to the record's position in the move order, without a contract of its own. RestoreMoveOrder and CapturedOrderRestored state its properties. |
| Restore.RestoreMoveOrder | extension-build/background.js:118-129 | The move order holds exactly the records with numeric ids, in ascending captured index. |
| Restore.CapturedOrderRestored | extension-build/background.js:118-129 | Take a capture whose tabs had ids and indexes 0..n-1. Move k sends captured tab k back to index k of the window. |
| Restore.OriginalGroups | extension-build/background.js:131-141 | The map from original group to its non-pinned ids, without a contract of its own. RestoreRegroupsSound, RestoreRegroupsComplete and RestoreRegroupsOrder state its properties. |
| Restore.Regroups | extension-build/background.js:143-157 | The regroup loop over the map's keys, without a contract of its own. RegroupsSound, RegroupsComplete and RegroupsOrder state its properties. |
| Restore.Surviving | extension-build/background.js:145 | An id is kept exactly when it was in the group and is present after the moves. |
| Restore.FindGroup | extension-build/background.js:149 | Returns the first captured group with that id, or nothing when there is none. |
| Restore.RegroupsSound | extension-build/background.js:144-157 | Each rebuilt group comes from an original group. It holds that group's surviving ids, at least two of them, with the captured metadata found for it. |
| Restore.RegroupsComplete | extension-build/background.js:144-157 | Every original group with at least two surviving ids is rebuilt. |
| Restore.RegroupsOrder | extension-build/background.js:144-157 | Groups are rebuilt in the map's key order. |
| Restore.FindActive | extension-build/background.js:159-166 | The re-activated id is that of the first captured active record. There is none exactly when no record was active. |
| Restore.WindowRestorePlan | extension-build/background.js:110-166 | The window restore: ungroup, moves, regroups, re-activation. It has no contract of its own. RestoreMoveOrder, CapturedOrderRestored, RestoreRegroupsSound, RestoreRegroupsComplete, RestoreRegroupsOrder and FindActive state its parts, and PlanWindowRestore computes it. |
| Restore.Restorable | extension-build/background.js:105-109 | The guard of the restore, without a contract of its own: a window snapshot needs a truthy `windowId` and a `tabs` array. Background.Background.RestoreFromUndo states that undo succeeds exactly when it holds. |
| Restore.SnapshotRestorePlan | extension-build/background.js:105-170 | What a restore issues for a restorable snapshot, without a contract of its own. Background.Background.RestoreFromUndo states that it is issued. |
| Restore.RestoreRegroupsSound | extension-build/background.js:133-157 | Each rebuilt group is an original `groupId` other than -1. It holds the surviving ids of its non-pinned records, at least two of them, all present after the moves, with the captured metadata when there is any. |
| Restore.RestoreRegroupsComplete | extension-build/background.js:133-157 | Every original group with at least two surviving non-pinned ids is rebuilt. |
| Restore.RestoreRegroupsOrder | extension-build/background.js:133-157 | Groups are rebuilt in the order their first non-pinned record appears in the capture. |
| Restore.RegroupedIdsFromGroup | extension-build/background.js:134-140 | Every regrouped id belongs to a non-pinned captured record of that original group. |
| Restore.PlanWindowRestore | extension-build/background.js:111-166 | The window-scoped restore, with its sort, move, grouping and regroup loops, issues exactly the planned ungroup, moves, regroups and activation. |
| Collapse.DomainGroups | extension-build/background.js:221-227 | The grouping loop over the map's domains, without a contract of its own. DomainGroupsSound, DomainGroupsComplete and DomainGroupsOrder state its properties. |
| Collapse.DomainGroupsSound | extension-build/background.js:221-227 | Each group is titled with a domain and holds that domain's list, at least two ids. It has the domain's colour and is collapsed. |
| Collapse.DomainGroupsComplete | extension-build/background.js:221-227 | Every domain whose list has at least two ids gets a group. |
| Collapse.DomainGroupsOrder | extension-build/background.js:221-227 | Groups follow the order of the domains in the map. |
| Collapse.TabsByDomain | extension-build/background.js:211-219 | The one-window buckets, without a contract of its own. WindowGroupsSound and WindowGroupsNoPinned state which tabs they hold. |
| Collapse.WindowGroups | extension-build/background.js:211-227 | The groups of the one-window collapse, without a contract of its own. WindowGroupsSound, WindowGroupsNoPinned, WindowGroupsComplete and WindowGroupsOrder state its properties. |
| Collapse.WindowCollapsePlan | extension-build/background.js:205-227 | The ungroup and the groups of the one-window collapse, without a contract of its own. UngroupIds and the WindowGroups lemmas state its parts, and Background.Background.CollapseTabsInCurrentWindow issues it. |
| Collapse.WindowGroupsSound | extension-build/background.js:211-227 | In one window, each group holds, in window order, the ids of all non-pinned tabs of its domain that have a real id. It has at least two tabs, the domain's colour, and is collapsed. |
| Collapse.WindowGroupsNoPinned | extension-build/background.js:213-214 | No pinned tab and no tab with `TAB_ID_NONE` is put in a group. |
| Collapse.WindowGroupsComplete | extension-build/background.js:211-227 | Every domain with at least two groupable tabs gets a group. |
| Collapse.WindowGroupsOrder | extension-build/background.js:211-227 | Groups are created in the order their domains first appear among the window's tabs. |
| Collapse.TabsByDomainAcross | extension-build/background.js:241-249 | The cross-window buckets, without a contract of its own. SortedListsElement states which tabs they hold. |
| Collapse.SortedLists | extension-build/background.js:253-257 | Every bucket after its in-place sort, without a contract of its own. SortedListsSpec and SortIsStable state its properties. |
| Collapse.MovesOf | extension-build/background.js:258-263 | The moves of one list, without a contract of its own. MovesOfElement, MovesOfOrder and MovesOfPermutation state its properties. |
| Collapse.AllMoves | extension-build/background.js:252-264 | The moves of every list, domain after domain, without a contract of its own. AllMovesElement and AllMovesOrder state its properties. |
| Collapse.AcrossMoves | extension-build/background.js:241-264 | The moves of the cross-window collapse, without a contract of its own. AcrossMovesComplete, AcrossMovesSound, AcrossMovesOrder and AcrossMovesCount state its properties. |
| Collapse.AcrossGroups | extension-build/background.js:273-281 | The groups of the cross-window collapse, without a contract of its own. AcrossGroupsSound, AcrossGroupsComplete and AcrossGroupsOrder state its properties. |
| Collapse.PlacedLeIsTotalPreorder | extension-build/background.js:254-257 | The comparator on (original window id, index) is a total preorder. |
| Collapse.UnpinnedIds | extension-build/background.js:275 | An id is kept exactly when it is that of a non-pinned tab of the list. |
| Collapse.UnpinnedIdsOrder | extension-build/background.js:275 | The filter keeps the list's order: of two non-pinned tabs, the earlier one's id comes first. |
| Collapse.UnpinnedIdsPermutation | extension-build/background.js:275 | Reordering a list only reorders the ids the filter keeps. |
| Collapse.UnpinnedMembers | extension-build/background.js:243-248 | Filtering a domain's bucket for non-pinned tabs gives the ids of exactly that domain's groupable tabs, in input order. |
| Collapse.GroupableListsIds | extension-build/background.js:253-257 | After the in-place sort, a domain's non-pinned ids are, as a multiset, those of its groupable tabs. |
| Collapse.MovesOfElement | extension-build/background.js:258-262 | A list issues a move to the end of the focused window exactly for its tabs whose `windowId` differs from the focused window's. |
| Collapse.AllMovesElement | extension-build/background.js:253-264 | The move list is the moves of each domain's list, for every domain. |
| Collapse.SortedListsSpec | extension-build/background.js:253-257 | After the in-place sort, each domain's list is ordered by window and then index, and is a permutation of that domain's tabs. |
| Collapse.SortedListsElement | extension-build/background.js:241-248 | A tab is in a domain's list exactly when it has a real id and that domain. |
| Collapse.AcrossMovesComplete | extension-build/background.js:251-264 | Every tab with a real id outside the focused window, pinned or not, is moved to its end. |
| Collapse.AcrossMovesSound | extension-build/background.js:251-264 | Nothing else is moved. |
| Collapse.MovesOfOrder | extension-build/background.js:258-263 | Of two tabs of one list that both move, the earlier one's move comes first. |
| Collapse.AllMovesOrder | extension-build/background.js:252-264 | A move from an earlier domain's list, or from earlier in the same list, comes before the other. |
| Collapse.PositionInLists | extension-build/background.js:252-257 | A tab with a real id sits at some position of its domain's sorted list, and that domain is a key of the map. |
| Collapse.SameDomainOrder | extension-build/background.js:254-257 | In a domain's sorted list, a tab strictly earlier by (window, index) sits at a smaller position. |
| Collapse.DomainsInOrder | extension-build/background.js:241-249 | A domain whose first tab with a real id comes before the other domain's first such tab is an earlier key of the map. |
| Collapse.AcrossMovesOrder | extension-build/background.js:252-264 | Of two tabs outside the focused window, the move of one comes before the other's when they share a domain and it is strictly earlier by (window, index), or when its domain's first tab with a real id comes first. |
| Collapse.TabsWithId | extension-build/background.js:244 | The tabs that have a real id, in input order. |
| Collapse.MovesOfPermutation | extension-build/background.js:258-263 | Reordering a list only reorders its moves. |
| Collapse.AllMovesUpdate | extension-build/background.js:246-247 | Appending tabs to one domain's list adds exactly their moves to the multiset of all moves. |
| Collapse.GroupedMoves | extension-build/background.js:241-249 | The moves of all the buckets are, as a multiset, the moves of the tabs with a real id. |
| Collapse.SortedMoves | extension-build/background.js:252-257 | Sorting every bucket leaves the multiset of moves unchanged. |
| Collapse.AcrossMovesCount | extension-build/background.js:241-264 | As a multiset, the moves are exactly one per tab with a real id outside the focused window, so each such tab is moved exactly once. |
| Collapse.AcrossGroupsSound | extension-build/background.js:273-281 | Across windows, each group holds the non-pinned ids of its domain's list after the (window, index) sort, in that order. As a multiset they are exactly the ids of the domain's non-pinned tabs not carrying `TAB_ID_NONE`, at least two. The group has the domain's colour and is collapsed. |
| Collapse.AcrossGroupsComplete | extension-build/background.js:273-281 | Every domain with at least two non-pinned tabs across the windows, ids other than `TAB_ID_NONE`, gets a group. |
| Collapse.AcrossGroupsOrder | extension-build/background.js:241-281 | Groups are created once per domain, in the order the domains first appear among the tabs with a real id, window after window, pinned tabs included. |
| Collapse.GroupableListLong | extension-build/background.js:273-281 | A domain with at least two non-pinned tabs with real ids has a bucket whose filtered list holds at least two ids. |
| Collapse.FindFocused | extension-build/background.js:235-236 | Returns the first focused window (no earlier window is focused), else the first window, and nothing when there are no windows. |
| Collapse.AcrossCollapsePlan | extension-build/background.js:230-281 | The focused window, the moves, the ungroup and the groups of the cross-window collapse, and nothing without windows. It has no contract of its own: FindFocused and the AcrossMoves and AcrossGroups lemmas state its parts, and Background.Background.CollapseTabsAcrossAllWindows issues it. |
| Background.Background.constructor | extension-build/background.js:9 | A worker (re)start begins with an empty colour cache, while the slot keeps whatever local storage holds. |
| Background.Background.GetColorForDomain | extension-build/background.js:36-45 | Cached or not, the colour is the hash's colour. Afterwards the cache maps the domain to it and every other entry is unchanged. |
| Background.Background.SaveWindowState | extension-build/background.js:48-76 | The window capture holds one record per tab and per group, in query order, with the listed fields copied. It replaces whatever the slot held. |
| Background.Background.SaveAllState | extension-build/background.js:79-99 | The all-windows capture records every window, with `[]` for a window without tabs. It replaces the slot's contents. |
| Background.Background.RestoreFromUndo | extension-build/background.js:103-170 | When every host call succeeds, undo succeeds exactly when the slot holds a snapshot that is all-scope or has a truthy `windowId` and a `tabs` array. On failure the slot is untouched. On success it issues that snapshot's plan and empties the slot. |
| Background.Background.CloseEverything | extension-build/background.js:304-306 | The slot is emptied. |
| Background.Background.HasUndoState | extension-build/background.js:376-380 | Reports whether the slot holds a snapshot. |
| Background.Background.CollapseTabsInCurrentWindow | extension-build/background.js:198-228 | Without a truthy window id, nothing changes. Otherwise the window is captured first, then its grouped tabs are ungrouped and the domain groups created. The cache gains exactly the grouped domains. |
| Background.Background.CreateGroups | extension-build/background.js:221-227 | The grouping loop creates the domain groups, colours them through the cache, and caches exactly their domains. |
| Background.Background.CollapseTabsAcrossAllWindows | extension-build/background.js:230-281 | All windows are captured first. With at least one window, the planned moves, ungroup and cross-window groups are issued, and the cache gains exactly the grouped domains. |
| Background.BucketAcross | extension-build/background.js:238-249 | The nested loop buckets every tab with a real id, tagged with its window, under its domain. |
| Background.BucketWindow | extension-build/background.js:243-248 | The inner loop extends the buckets with one window's tabs. |
| Background.SortAndMove | extension-build/background.js:252-264 | Each domain's list ends up sorted in place, and the moves are those of the sorted lists, domain after domain. |
| Background.SortDomainTabs | extension-build/background.js:254-257 | Sorting one list in place yields its stable sort by (window, index). |
| Background.MovesInto | extension-build/background.js:258-263 | The inner loop issues the moves of one sorted list. |
| Background.RestoreTwice | extension-build/background.js:103-170 | An undo is consumed: a second restore right after the first always fails. |
| Background.CloseThenAsk | extension-build/background.js:304-306 | After `closeEverything`, `hasUndoState` reports false. |
| Background.CollapseTwice | extension-build/background.js:48-76 | Of two collapses in a row, only the second capture remains in the slot. |
| Background.CollapseThenUndo | extension-build/background.js:198-203 | Undo right after a collapse succeeds, empties the slot and restores from the capture the collapse took. |
| Favicon.Count | content.js:30-40 | The counts after a prefix of the pixels, without a contract of its own. CountSkipped, CountCounted and CountMonotone state its steps. |
| Favicon.IsDominant | content.js:42-45 | The colour the loop settles on, without a contract of its own. DominantUnique and CountColors state its properties. |
| Favicon.CountMonotone | content.js:39-40 | A colour's count never decreases as the loop goes on. |
| Favicon.CountSkipped | content.js:32 | A pixel with alpha below 128 changes no count. |
| Favicon.CountCounted | content.js:34-40 | An opaque pixel adds one to its own colour's count and to no other. |
| Favicon.DominantUnique | content.js:42-45 | At most one colour has the largest count and reached it first, so the result is determined by the pixels. |
| Favicon.CountColors | content.js:26-48 | Each colour's entry equals the number of its opaque pixels. `maxCount` is the largest count. No colour is returned exactly when no pixel is opaque. Otherwise the returned colour has the largest count, and ties go to the colour that reached it first. |
| Favicon.ExtractFaviconColor | content.js:2-53 | A missing or empty URL, or an image that fails to load, gives no colour. Otherwise the result is the dominant opaque colour, or none when no pixel is opaque. |

## Left out

- The `chrome.*` calls are not modelled: `tabs.query/move/group/ungroup/update/create`, `tabGroups.*`, `windows.*` and `storage.local`. Their results are parameters and their arguments are planned values. Host behaviour is outside the model: index clamping, whether an id is still alive, group-id assignment.
- In the window restore, failed moves and a failed re-activation are swallowed (extension-build/background.js:124-128, 161-165). The plan simply lists every move, so one failure has no effect on the others. The cross-window collapse does not guard its moves (:260).
- Background.Background.RestoreFromUndo: the plans assume every unguarded host call succeeds. In the source, a rejected `storage.local.get`, `tabs.ungroup`, `tabs.group` or `tabGroups.update` (extension-build/background.js:104, 114, 148, 151) ends the restore before the snapshot is removed. The slot then keeps its snapshot and the `undo` message gets no answer. The model does not capture that path. The same holds for an unguarded call that fails in either collapse: the operation stops part-way.
- Colors.Hash: hashes Dafny characters, which are Unicode scalar values, whereas `charCodeAt` yields UTF-16 code units. The two agree for every character of the Basic Multilingual Plane. `URL.hostname` is ASCII, because international names come out in punycode, so the domains hashed here always agree.
- `new URL(url).hostname` is a foreign parser. Its outcome is the `host` field of a tab, `None` when it throws.
- The all-scope restore branch (extension-build/background.js:173-195) is not modelled. It closes every window and recreates tabs. The model only checks that it succeeds and returns the captured windows as `RecreateWindows`.
- The window work of `closeEverything` (extension-build/background.js:308-339) is not modelled: ungrouping every window, opening the timeline page and closing the other windows. Only its removal of `lastState` is.
- Two steps of the cross-window collapse are not modelled: closing emptied windows and making sure a tab is active (extension-build/background.js:283-301). `movedTabIds` (:252, :262) is written but never read, so it is not modelled either.
- Each collapse queries the host twice: once in its capture and once again to plan. The model takes one value for both.
- Concurrency is not modelled: nothing locks `lastState`, so overlapping collapses race. In the model, operations run one after another.
- `Date.now()` is not modelled; the timestamp is a parameter.
- Event wiring is not modelled: the `chrome.tabs.onRemoved` listener and the `runtime.onMessage` dispatch, where `mode` defaults to `'current'`.
- Tab ids and indexes are integers. Non-integer numbers (NaN, fractions) are not modelled.
- Image loading, canvas drawing and `getImageData` in `content.js` are not modelled. The image bytes are a parameter, `None` when loading fails.
- Favicon.ExtractFaviconColor: requires the image data to be a multiple of four bytes long, which `ImageData` always is. The canvas size fallback (`img.width || 16`) is not modelled.
- The message listener in `content.js` (:56-74) is not part of this model.
- `popup.js`, `new-timeline.js` and the icon build scripts are not part of this model. They are UI, floating-point randomness and build-time file I/O.
