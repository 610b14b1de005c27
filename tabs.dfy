/**
 * What the host reports about tabs, groups and windows, the snapshot the
 * background script stores under `lastState`, and the calls it issues.
 */
module Tabs {
  import opened Wrappers

  /** `chrome.tabs.TAB_ID_NONE`: the id the host gives tabs that are not browser tabs. */
  const TAB_ID_NONE: int := -1

  /** The `groupId` of a tab that is in no group. */
  const UNGROUPED: int := -1

  /** `tab.id`: a number, or absent (`None`) for the tabs the host gives no id. */
  type TabId = Option<int>

  /**
   * A tab as `chrome.tabs.query` reports it. `host` is the outcome of the URL
   * parser on `url` (`new URL(url).hostname`), `None` when the parser throws.
   */
  datatype HostTab = HostTab(
    id: TabId, url: string, host: Option<string>, pinned: bool,
    index: int, groupId: int, active: bool, windowId: int)

  /** A tab group as `chrome.tabGroups.query` reports it. */
  datatype HostGroup = HostGroup(id: int, title: string, color: string, collapsed: bool)

  /** A window as `chrome.windows.getAll({ populate: true })` reports it; `tabs` may be missing. */
  datatype HostWindow = HostWindow(id: int, focused: bool, tabs: Option<seq<HostTab>>)

  /** One captured tab; `windowId` is recorded only by the all-windows capture. */
  datatype TabRecord = TabRecord(
    id: TabId, url: string, pinned: bool, index: int,
    groupId: int, active: bool, windowId: Option<int>)

  datatype GroupRecord = GroupRecord(id: int, title: string, color: string, collapsed: bool)

  datatype WindowRecord = WindowRecord(id: int, focused: bool, tabs: seq<TabRecord>)

  /**
   * The value in the `lastState` slot. It is read back from storage, so the
   * window-scoped fields that restore checks (`windowId`, `tabs`, `groups`) may be
   * missing; a capture always fills `tabs` and `groups`.
   */
  datatype Snapshot =
    | WindowSnapshot(timestamp: int, windowId: Option<int>,
                     tabs: Option<seq<TabRecord>>, groups: Option<seq<GroupRecord>>)
    | AllSnapshot(timestamp: int, windows: seq<WindowRecord>)

  /** `chrome.tabs.move(tabId, { windowId, index })`; index -1 means "at the end". */
  datatype Move = Move(tabId: TabId, windowId: int, index: int)

  function CaptureTab(t: HostTab): TabRecord {
    TabRecord(t.id, t.url, t.pinned, t.index, t.groupId, t.active, None)
  }

  function CaptureTabOfWindow(t: HostTab): TabRecord {
    TabRecord(t.id, t.url, t.pinned, t.index, t.groupId, t.active, Some(t.windowId))
  }

  function CaptureGroup(g: HostGroup): GroupRecord {
    GroupRecord(g.id, g.title, g.color, g.collapsed)
  }

  /** `tabs.map(...)` in the window-scoped capture: one record per tab, in query order. */
  function CaptureTabs(tabs: seq<HostTab>): seq<TabRecord> {
    seq(|tabs|, i requires 0 <= i < |tabs| => CaptureTab(tabs[i]))
  }

  function CaptureGroups(groups: seq<HostGroup>): seq<GroupRecord> {
    seq(|groups|, i requires 0 <= i < |groups| => CaptureGroup(groups[i]))
  }

  /** `window.tabs?.map(...) || []` in the all-windows capture. */
  function CaptureWindow(w: HostWindow): WindowRecord {
    var tabs := match w.tabs
      case None => []
      case Some(ts) => seq(|ts|, i requires 0 <= i < |ts| => CaptureTabOfWindow(ts[i]));
    WindowRecord(w.id, w.focused, tabs)
  }

  function CaptureWindows(windows: seq<HostWindow>): seq<WindowRecord> {
    seq(|windows|, i requires 0 <= i < |windows| => CaptureWindow(windows[i]))
  }

  /** `tabs.filter(t => t.groupId !== -1).map(t => t.id)`: the tabs to ungroup. */
  function UngroupIds(tabs: seq<HostTab>): (ids: seq<TabId>)
    ensures forall i :: 0 <= i < |tabs| && tabs[i].groupId != UNGROUPED ==> tabs[i].id in ids
    ensures forall id :: id in ids ==>
              exists i :: 0 <= i < |tabs| && tabs[i].groupId != UNGROUPED && tabs[i].id == id
  {
    if tabs == [] then []
    else
      var init, t := tabs[..|tabs| - 1], tabs[|tabs| - 1];
      assert forall i :: 0 <= i < |init| ==> init[i] == tabs[i];
      UngroupIds(init) + (if t.groupId != UNGROUPED then [t.id] else [])
  }
}
