/**
 Saving the workspaces of a session and restoring them. Saving groups the workspaces by window, in the order of the
 window ids; restoring walks the groups, drops what is empty, and draws new ids for windows and workspaces.
 */
module Session {
  import opened Common
  import opened WorkspaceModel
  import opened ManagerModel
  import opened Snapshot
  import SnapshotHeap

  /** The order of the keys of the window map: no window first, then by id. */
  predicate Before(a: Option<Id>, b: Option<Id>) {
    b.Some? && (a.None? || a.value < b.value)
  }

  ghost predicate Ascending(keys: seq<Option<Id>>) {
    forall i, j | 0 <= i < j < |keys| :: Before(keys[i], keys[j])
  }

  /** The workspaces of one window, in order. */
  function Group(ws: seq<Workspace>, key: Option<Id>): seq<Workspace> {
    if ws == [] then []
    else
      var n := |ws| - 1;
      Group(ws[..n], key) + if ws[n].windowId == key then [ws[n]] else []
  }

  /** The workspaces that hold a panel, in order. */
  function Live(ws: seq<Workspace>): seq<Workspace> {
    if ws == [] then []
    else
      var n := |ws| - 1;
      Live(ws[..n]) + if ws[n].panels != map[] then [ws[n]] else []
  }

  // ----- saving

  type WindowSnapshot = seq<WorkspaceSnapshot>

  ghost predicate Snapshots(list: WindowSnapshot, ws: seq<Workspace>, keepRatios: bool) {
    |list| == |ws| && forall i | 0 <= i < |ws| :: IsSnapshot(list[i], ws[i], keepRatios)
  }

  /** `windows` saves `ws`, one window for each of `keys`. */
  ghost predicate IsSession(ws: seq<Workspace>, keys: seq<Option<Id>>, windows: seq<WindowSnapshot>, keepRatios: bool) {
    && Ascending(keys) && |windows| == |keys|
    && (forall k :: k in keys <==> Group(ws, k) != [])
    && forall i | 0 <= i < |keys| :: Snapshots(windows[i], Group(ws, keys[i]), keepRatios)
  }

  method Least(s: set<Option<Id>>) returns (least: Option<Id>)
    requires s != {}
    ensures least in s && forall k | k in s :: k == least || Before(least, k)
  {
    least :| least in s;
    var left := s - {least};
    while left != {}
      invariant left <= s && least in s
      invariant forall k | k in s && k !in left :: k == least || Before(least, k)
      decreases |left|
    {
      var k :| k in left;
      left := left - {k};
      if Before(k, least) {
        least := k;
      }
    }
  }

  method SnapshotWorkspace(w: Workspace, keepRatios: bool) returns (s: WorkspaceSnapshot)
    requires KeyedById(w.panels)
    ensures IsSnapshot(s, w, keepRatios)
  {
    var panels := ListPanels(w.panels);
    var layout := SnapshotHeap.SaveLayout(w.layout, keepRatios);
    s := WorkspaceSnapshot(w.isPinned, w.directory, w.focused, layout, panels);
  }

  method GroupByWindow(ws: seq<Workspace>, keepRatios: bool) returns (byWindow: map<Option<Id>, WindowSnapshot>)
    requires forall i | 0 <= i < |ws| :: KeyedById(ws[i].panels)
    ensures forall k :: k in byWindow <==> Group(ws, k) != []
    ensures forall k | k in byWindow :: Snapshots(byWindow[k], Group(ws, k), keepRatios)
  {
    byWindow := map[];
    for i := 0 to |ws|
      invariant forall k :: k in byWindow <==> Group(ws[..i], k) != []
      invariant forall k | k in byWindow :: Snapshots(byWindow[k], Group(ws[..i], k), keepRatios)
    {
      var s := SnapshotWorkspace(ws[i], keepRatios);
      var key := ws[i].windowId;
      assert ws[..i + 1][..i] == ws[..i];
      var listed := if key in byWindow then byWindow[key] else [];
      byWindow := byWindow[key := listed + [s]];
    }
    assert ws[..|ws|] == ws;
  }

  /** Windows saved so far: those of `keys`, which come before all of `left`. */
  ghost predicate SavedSoFar(
    ws: seq<Workspace>, keys: seq<Option<Id>>, left: set<Option<Id>>, windows: seq<WindowSnapshot>, keepRatios: bool)
  {
    && |windows| == |keys| && Ascending(keys)
    && (forall i, k | 0 <= i < |keys| && k in left :: Before(keys[i], k))
    && (forall k :: Group(ws, k) != [] <==> k in keys || k in left)
    && forall i | 0 <= i < |keys| :: Snapshots(windows[i], Group(ws, keys[i]), keepRatios)
  }

  lemma OneMoreSaved(
    ws: seq<Workspace>, keys: seq<Option<Id>>, left: set<Option<Id>>, windows: seq<WindowSnapshot>, keepRatios: bool,
    key: Option<Id>, window: WindowSnapshot)
    requires SavedSoFar(ws, keys, left, windows, keepRatios)
    requires key in left && (forall k | k in left :: k == key || Before(key, k))
    requires Snapshots(window, Group(ws, key), keepRatios)
    ensures SavedSoFar(ws, keys + [key], left - {key}, windows + [window], keepRatios)
  {
    var more := keys + [key];
    assert forall k :: k in more <==> k in keys || k == key;
  }

  method CreateSnapshot(ws: seq<Workspace>, keepRatios: bool) returns (windows: seq<WindowSnapshot>)
    requires forall i | 0 <= i < |ws| :: KeyedById(ws[i].panels)
    ensures exists keys :: IsSession(ws, keys, windows, keepRatios)
  {
    var byWindow := GroupByWindow(ws, keepRatios);
    windows := [];
    ghost var keys: seq<Option<Id>> := [];
    var left := byWindow.Keys;
    while left != {}
      invariant left <= byWindow.Keys && SavedSoFar(ws, keys, left, windows, keepRatios)
      decreases |left|
    {
      var key := Least(left);
      OneMoreSaved(ws, keys, left, windows, keepRatios, key, byWindow[key]);
      windows, keys, left := windows + [byWindow[key]], keys + [key], left - {key};
    }
    assert IsSession(ws, keys, windows, keepRatios);
  }

  // ----- restoring

  /** What one window restores: `n` workspaces have been restored before it. */
  function RestoreWindow(list: WindowSnapshot, n: nat, window: Id, ids: nat -> Id): seq<Workspace> {
    if list == [] then []
    else if list[0].panels == [] then RestoreWindow(list[1..], n, window, ids)
    else [RestoreWorkspace(list[0], ids(n), window)] + RestoreWindow(list[1..], n + 1, window, ids)
  }

  predicate HasPanels(list: WindowSnapshot) {
    exists i :: 0 <= i < |list| && list[i].panels != []
  }

  /** What the windows restore: `k` windows and `n` workspaces have been restored before them. */
  function RestoreWindows(
    windows: seq<WindowSnapshot>, k: nat, n: nat, windowIds: nat -> Id, ids: nat -> Id): seq<Workspace>
  {
    if windows == [] then []
    else if !HasPanels(windows[0]) then RestoreWindows(windows[1..], k, n, windowIds, ids)
    else
      var here := RestoreWindow(windows[0], n, windowIds(k), ids);
      here + RestoreWindows(windows[1..], k + 1, n + |here|, windowIds, ids)
  }

  function CountWorkspaces(windows: seq<WindowSnapshot>): nat {
    if windows == [] then 0 else |windows[0]| + CountWorkspaces(windows[1..])
  }

  /** The tab manager after a restore; a session without any workspace leaves it as it was. */
  function Restored(windows: seq<WindowSnapshot>, current: Manager, windowIds: nat -> Id, ids: nat -> Id): Manager {
    if CountWorkspaces(windows) == 0 then current
    else
      var back := RestoreWindows(windows, 0, 0, windowIds, ids);
      Manager(back, if back == [] then None else Some(|back| - 1))
  }

  method BuildWorkspace(s: WorkspaceSnapshot, id: Id, window: Id) returns (w: Workspace)
    ensures w == RestoreWorkspace(s, id, window)
  {
    var panels := CollectPanels(s.panels);
    w := Workspace(id, s.isPinned, Some(window), s.directory, s.focused, None, None, ToLayout(s.layout), panels);
  }

  lemma NextWorkspace(list: WindowSnapshot, i: nat, done: seq<Workspace>, window: Id, ids: nat -> Id)
    requires i < |list|
    ensures
      var now := if list[i].panels == [] then done else done + [RestoreWorkspace(list[i], ids(|done|), window)];
      done + RestoreWindow(list[i..], |done|, window, ids) == now + RestoreWindow(list[i + 1..], |now|, window, ids)
  {
    assert list[i..][1..] == list[i + 1..];
  }

  lemma NextWindow(
    windows: seq<WindowSnapshot>, i: nat, k: nat, done: seq<Workspace>, windowIds: nat -> Id, ids: nat -> Id)
    requires i < |windows|
    ensures
      var live := HasPanels(windows[i]);
      var now := if live then done + RestoreWindow(windows[i], |done|, windowIds(k), ids) else done;
      done + RestoreWindows(windows[i..], k, |done|, windowIds, ids) ==
        now + RestoreWindows(windows[i + 1..], if live then k + 1 else k, |now|, windowIds, ids)
  {
    assert windows[i..][1..] == windows[i + 1..];
  }

  lemma PlacedLast(m: Manager, w: Workspace)
    requires m.selected.Some? ==> m.selected.value < |m.workspaces|
    ensures Place(m, w, End) == Manager(m.workspaces + [w], Some(|m.workspaces|))
  {
  }

  /** Adds the workspaces of one window; `goal` is what all of them and those before will be. */
  method AddWorkspaces(list: WindowSnapshot, window: Id, ids: nat -> Id, before: Manager) returns (tm: Manager)
    requires before.selected == if before.workspaces == [] then None else Some(|before.workspaces| - 1)
    ensures tm.workspaces == before.workspaces + RestoreWindow(list, |before.workspaces|, window, ids)
    ensures tm.selected == if tm.workspaces == [] then None else Some(|tm.workspaces| - 1)
  {
    tm := before;
    ghost var goal := before.workspaces + RestoreWindow(list, |before.workspaces|, window, ids);
    assert list[0..] == list;
    for i := 0 to |list|
      invariant goal == tm.workspaces + RestoreWindow(list[i..], |tm.workspaces|, window, ids)
      invariant tm.selected == if tm.workspaces == [] then None else Some(|tm.workspaces| - 1)
    {
      NextWorkspace(list, i, tm.workspaces, window, ids);
      if list[i].panels == [] {
        continue;
      }
      var w := BuildWorkspace(list[i], ids(|tm.workspaces|), window);
      PlacedLast(tm, w);
      tm := Place(tm, w, End);
    }
  }

  method Restore(windows: seq<WindowSnapshot>, current: Manager, windowIds: nat -> Id, ids: nat -> Id)
    returns (tm: Manager)
    ensures tm == Restored(windows, current, windowIds, ids)
  {
    if windows == [] || CountWorkspaces(windows) == 0 {
      return current;
    }
    tm := EMPTY;
    var k := 0;
    ghost var goal := RestoreWindows(windows, 0, 0, windowIds, ids);
    assert windows[0..] == windows;
    for i := 0 to |windows|
      invariant goal == tm.workspaces + RestoreWindows(windows[i..], k, |tm.workspaces|, windowIds, ids)
      invariant tm.selected == if tm.workspaces == [] then None else Some(|tm.workspaces| - 1)
    {
      NextWindow(windows, i, k, tm.workspaces, windowIds, ids);
      if HasPanels(windows[i]) {
        tm := AddWorkspaces(windows[i], windowIds(k), ids, tm);
        k := k + 1;
      }
    }
  }
}
