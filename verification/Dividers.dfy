/** Dividers over whole runs: they stay where a snapshot can bring them back. */
module Dividers {
  import opened Common
  import opened Layout
  import opened Retiling
  import opened Tabs
  import opened WorkspaceModel
  import opened ManagerModel
  import opened ManagerRuns
  import opened Snapshot
  import opened Session
  import opened SessionLaws

  // ----- trees

  lemma RemoveKeepsRange(n: Node, id: Id)
    requires DividersInRange(n)
    ensures DividersInRange(Remove(n, id))
  {
  }

  lemma InsertKeepsRange(n: Node, target: Id, id: Id, o: Orientation, newFirst: bool)
    requires DividersInRange(n)
    ensures DividersInRange(InsertBeside(n, target, id, o, newFirst))
  {
  }

  lemma TabKeepsRange(n: Node, target: Id, id: Id)
    requires DividersInRange(n)
    ensures DividersInRange(AddToPane(n, target, id))
  {
  }

  lemma SelectKeepsRange(n: Node, id: Id)
    requires DividersInRange(n)
    ensures DividersInRange(SelectPanel(n, id))
  {
  }

  lemma EqualizeGivesRange(n: Node)
    ensures DividersInRange(Equalize(n))
  {
  }

  lemma SetDividerKeepsRange(n: Node, a: seq<Id>, b: seq<Id>, v: real)
    requires DividersInRange(n)
    ensures DividersInRange(SetDivider(n, a, b, v))
  {
  }

  lemma ResizeKeepsRange(n: Node, id: Id, amount: real)
    requires DividersInRange(n)
    ensures DividersInRange(Resize(n, id, amount))
  {
  }

  lemma ReorderKeepsRange(n: Node, id: Id, index: nat)
    requires DividersInRange(n)
    ensures DividersInRange(Reorder(n, id, index))
  {
  }

  lemma SwapKeepsRange(n: Node, x: Id, y: Id)
    requires DividersInRange(n)
    ensures DividersInRange(Swap(n, x, y))
  {
  }

  lemma RetilingKeepsRange(n: Node, r: Retile)
    requires DividersInRange(n)
    ensures DividersInRange(Retiled(n, r))
  {
    match r
    case Equal => EqualizeGivesRange(n);
    case MoveDivider(a, b, v) => SetDividerKeepsRange(n, a, b, v);
    case ResizePane(id, amount) => ResizeKeepsRange(n, id, amount);
    case ReorderTab(id, index) => ReorderKeepsRange(n, id, index);
    case SwapPanels(x, y) => SwapKeepsRange(n, x, y);
  }

  // ----- workspaces

  lemma {:induction false} DropKeepsRange(w: Workspace, ids: seq<Id>)
    requires DividersInRange(w.layout)
    ensures DividersInRange(DropPanels(w, ids).layout)
    decreases |ids|
  {
    if ids != [] {
      RemoveKeepsRange(w.layout, ids[0]);
      DropKeepsRange(w.(panels := w.panels - {ids[0]}, layout := Remove(w.layout, ids[0])), ids[1..]);
    }
  }

  lemma AddKeepsRange(w: Workspace, panel: Panel, o: Orientation)
    requires DividersInRange(w.layout)
    ensures DividersInRange(AddPanel(w, panel, o).layout)
  {
    if w.focused.Some? {
      InsertKeepsRange(w.layout, w.focused.value, panel.id, o, false);
    }
  }

  lemma DragKeepsRange(w: Workspace, id: Id, d: Direction)
    requires DividersInRange(w.layout)
    ensures DividersInRange(DragToSplit(w, id, d).layout)
  {
    if CanDrag(w, id) {
      var bare, target := Remove(w.layout, id), DragTarget(w, id).value;
      RemoveKeepsRange(w.layout, id);
      InsertKeepsRange(bare, target, id, AxisOf(d), !Forward(d));
      TabKeepsRange(bare, target, id);
    }
  }

  lemma MarkdownKeepsRange(w: Workspace, panel: Panel, split: Option<Orientation>)
    requires DividersInRange(w.layout)
    ensures DividersInRange(AddMarkdown(w, panel, split).layout)
  {
    var target := OrElse(w.focused, HeadOpt(PanelIds(w.layout)));
    if split.Some? && w.focused.Some? {
      InsertKeepsRange(w.layout, w.focused.value, panel.id, split.value, false);
    }
    if target.Some? {
      TabKeepsRange(w.layout, target.value, panel.id);
    }
  }

  lemma WithinKeepsRange(w: Workspace, s: WorkspaceStep)
    requires DividersInRange(w.layout)
    ensures DividersInRange(Within(w, s).layout)
  {
    match s
    case SplitFocused(o, t, newId) => AddKeepsRange(w, NewPanel(newId, t), o);
    case InsertPanel(panel, o) => AddKeepsRange(w, panel, o);
    case NewTab(target, panel) => TabKeepsRange(w.layout, target, panel.id);
    case NewSurface(panel) => if w.focused.Some? { TabKeepsRange(w.layout, w.focused.value, panel.id); }
    case NewMarkdown(panel, split) => MarkdownKeepsRange(w, panel, split);
    case RemoveOne(id) => RemoveKeepsRange(w.layout, id);
    case DetachOne(id) => RemoveKeepsRange(w.layout, id);
    case Focus(id) => SelectKeepsRange(w.layout, id);
    case Drag(id, d) => DragKeepsRange(w, id, d);
    case CloseFocused => if w.focused.Some? { RemoveKeepsRange(w.layout, w.focused.value); }
    case CloseTabsBesideFocused =>
      if w.focused.Some? && PaneOf(w.layout, w.focused.value).Some? {
        DropKeepsRange(w, Filter(PaneOf(w.layout, w.focused.value).value, x => x != w.focused.value));
      }
    case Rearrange(r) => RetilingKeepsRange(w.layout, r);
  }

  // ----- the manager

  ghost predicate AllInRange(ws: seq<Workspace>) {
    forall w | w in ws :: DividersInRange(w.layout)
  }

  lemma FilterKeepsRange(ws: seq<Workspace>, keep: Workspace -> bool)
    requires AllInRange(ws)
    ensures AllInRange(Filter(ws, keep))
  {
    FilterMembers(ws, keep);
  }

  lemma DetachedKeepsRange(m: Manager, i: nat, panelId: Id)
    requires AllInRange(m.workspaces) && i < |m.workspaces|
    ensures AllInRange(Detached(m, i, panelId).workspaces)
  {
    var left := DetachPanel(m.workspaces[i], panelId);
    assert m.workspaces[i] in m.workspaces;
    RemoveKeepsRange(m.workspaces[i].layout, panelId);
    assert AllInRange(m.workspaces[i := left]);
  }

  lemma GivenKeepsRange(m: Manager, panel: Panel, target: Id)
    requires AllInRange(m.workspaces)
    ensures AllInRange(Given(m, panel, target).0.workspaces)
  {
    var t := IndexOfId(m.workspaces, target);
    if t.Some? {
      assert m.workspaces[t.value] in m.workspaces;
      AddKeepsRange(m.workspaces[t.value], panel, Horizontal);
    }
  }

  lemma SendKeepsRange(m: Manager, panelId: Id, target: Id)
    requires AllInRange(m.workspaces)
    ensures AllInRange(MovePanel(m, panelId, target).0.workspaces)
  {
    var k := MoveSource(m, panelId, target);
    if k.Some? {
      DetachedKeepsRange(m, k.value, panelId);
      GivenKeepsRange(Detached(m, k.value, panelId), m.workspaces[k.value].panels[panelId], target);
    }
  }

  lemma BreakKeepsRange(m: Manager, newId: Id)
    requires AllInRange(m.workspaces)
    ensures AllInRange(BreakPane(m, newId).workspaces)
  {
    if SelectedId(m).Some? && m.workspaces[m.selected.value].focused.Some? {
      DetachedKeepsRange(m, m.selected.value, m.workspaces[m.selected.value].focused.value);
    }
  }

  lemma PinnedKeepsRange(ws: seq<Workspace>)
    requires AllInRange(ws)
    ensures AllInRange(Pinned(ws))
  {
    FilterKeepsRange(ws, (w: Workspace) => w.isPinned);
  }

  lemma CloseAboveKeepsRange(m: Manager, id: Id)
    requires AllInRange(m.workspaces)
    ensures AllInRange(CloseAbove(m, id).workspaces)
  {
    var i := IndexOfId(m.workspaces, id);
    if i.Some? {
      PinnedKeepsRange(m.workspaces[..i.value]);
    }
  }

  lemma CloseBelowKeepsRange(m: Manager, id: Id)
    requires AllInRange(m.workspaces)
    ensures AllInRange(CloseBelow(m, id).workspaces)
  {
    var i := IndexOfId(m.workspaces, id);
    if i.Some? {
      PinnedKeepsRange(m.workspaces[i.value + 1..]);
    }
  }

  lemma MoveKeepsRange(m: Manager, from: nat, to: nat)
    requires AllInRange(m.workspaces)
    ensures AllInRange(MoveWorkspace(m, from, to).workspaces)
  {
    assert from < |m.workspaces| ==> m.workspaces[from] in m.workspaces;
  }

  lemma InWorkspaceKeepsRange(m: Manager, index: nat, step: WorkspaceStep)
    requires AllInRange(m.workspaces) && index < |m.workspaces|
    ensures AllInRange(m.workspaces[index := Within(m.workspaces[index], step)])
  {
    assert m.workspaces[index] in m.workspaces;
    WithinKeepsRange(m.workspaces[index], step);
  }

  lemma CloseKeepsRange(m: Manager, panelId: Id)
    requires AllInRange(m.workspaces)
    ensures AllInRange(ClosePanel(m, panelId).workspaces)
  {
    var i := IndexWithPanel(m.workspaces, panelId);
    ClosePanelInSteps(m, panelId);
    if i.Some? {
      InWorkspaceKeepsRange(m, i.value, RemoveOne(panelId));
    }
  }

  lemma DoKeepsRange(m: Manager, s: Step)
    requires AllInRange(m.workspaces) && Enabled(m, s) && (m.selected.Some? ==> m.selected.value < |m.workspaces|)
    ensures AllInRange(Do(m, s).workspaces)
  {
    match s
    case NewWorkspace(_, _, _, _) =>
    case RemoveWorkspace(_) =>
    case MoveTo(from, to) => MoveKeepsRange(m, from, to);
    case KeepOnly(id) => FilterKeepsRange(m.workspaces, (w: Workspace) => w.id == id || w.isPinned);
    case DropAbove(id) => CloseAboveKeepsRange(m, id);
    case DropBelow(id) => CloseBelowKeepsRange(m, id);
    case Select(_) =>
    case Next(_) =>
    case Previous(_) =>
    case InWorkspace(index, step) => InWorkspaceKeepsRange(m, index, step);
    case SendPanel(panelId, target) => SendKeepsRange(m, panelId, target);
    case BreakOut(newId) => BreakKeepsRange(m, newId);
    case Close(panelId) => CloseKeepsRange(m, panelId);
  }

  /** Dividers that start in range stay there, in every state of every run. */
  lemma {:induction false} RunKeepsRange(states: seq<Manager>, steps: seq<Step>, k: nat)
    requires IsRun(states, steps) && AllInRange(states[0].workspaces) && k < |states|
    ensures AllInRange(states[k].workspaces)
  {
    if k > 0 {
      RunKeepsRange(states, steps, k - 1);
      DoKeepsRange(states[k - 1], steps[k - 1]);
    }
  }

  // ----- restarts

  lemma {:induction false} WindowGivesRange(list: WindowSnapshot, n: nat, window: Id, ids: nat -> Id)
    ensures AllInRange(RestoreWindow(list, n, window, ids))
  {
    if list != [] {
      AnySnapshotIsRepaired(list[0].layout);
      WindowGivesRange(list[1..], if list[0].panels == [] then n else n + 1, window, ids);
    }
  }

  lemma {:induction false} WindowsGiveRange(
    windows: seq<WindowSnapshot>, k: nat, n: nat, windowIds: nat -> Id, ids: nat -> Id)
    ensures AllInRange(RestoreWindows(windows, k, n, windowIds, ids))
  {
    if windows != [] {
      if HasPanels(windows[0]) {
        var here := RestoreWindow(windows[0], n, windowIds(k), ids);
        WindowGivesRange(windows[0], n, windowIds(k), ids);
        WindowsGiveRange(windows[1..], k + 1, n + |here|, windowIds, ids);
      } else {
        WindowsGiveRange(windows[1..], k, n, windowIds, ids);
      }
    }
  }

  /** After a restart from whatever file, dividers are in range; so a run may begin there as well as with a new
      manager. */
  lemma RestartGivesRange(windows: seq<WindowSnapshot>, current: Manager, windowIds: nat -> Id, ids: nat -> Id)
    requires AllInRange(current.workspaces)
    ensures AllInRange(Restored(windows, current, windowIds, ids).workspaces)
  {
    WindowsGiveRange(windows, 0, 0, windowIds, ids);
  }

  /** In every state of every run, a session saved with its ratios brings back each workspace with the identical layout,
      panels and focus. */
  lemma RatiosComeBack(
    states: seq<Manager>, steps: seq<Step>, k: nat, keys: seq<Option<Id>>, windows: seq<WindowSnapshot>,
    current: Manager, windowIds: nat -> Id, ids: nat -> Id)
    requires IsRun(states, steps) && AllInRange(states[0].workspaces) && k < |states|
    requires states[k].workspaces != [] && IsSession(states[k].workspaces, keys, windows, true)
    requires NeverRepeats(windowIds)
    ensures
      var kept, back := Regrouped(states[k].workspaces, keys), Restored(windows, current, windowIds, ids).workspaces;
      && StablyGrouped(kept, Live(states[k].workspaces)) && |back| == |kept|
      && forall i | 0 <= i < |kept| ::
           && back[i].layout == kept[i].layout && back[i].panels == kept[i].panels
           && back[i].focused == kept[i].focused
  {
    var ws := states[k].workspaces;
    RunKeepsInvariant(states, steps, k);
    RunKeepsRange(states, steps, k);
    forall i | 0 <= i < |ws| ensures KeyedById(ws[i].panels) {
      assert ws[i] in ws;
    }
    SessionComesBack(ws, keys, windows, true, current, windowIds, ids);
    RegroupedMembers(ws, keys);
    var kept, back := Regrouped(ws, keys), Restored(windows, current, windowIds, ids).workspaces;
    forall i | 0 <= i < |kept|
      ensures
        && back[i].layout == kept[i].layout && back[i].panels == kept[i].panels
        && back[i].focused == kept[i].focused
    {
      assert kept[i] in kept;
      assert Surviving(true)(kept[i], back[i]);
    }
  }
}
