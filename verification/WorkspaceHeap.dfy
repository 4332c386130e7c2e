/** A workspace whose fields are updated in place. Each method takes State() where Workspace.dfy says. */
module WorkspaceHeap {
  import opened Common
  import opened Layout
  import opened LayoutHeap
  import opened LayoutLaws
  import opened Retiling
  import M = WorkspaceModel
  import opened ManagerModel

  class Workspace {
    const id: Id
    var isPinned: bool
    var windowId: Option<Id>
    var directory: string
    var focused: Option<Id>
    var previous: Option<Id>
    var zoomed: Option<Id>
    /** The root node, which every change of the tree overwrites in place. */
    const layout: LayoutNode
    var panels: map<Id, M.Panel>

    ghost function Footprint(): set<object>
      reads this, layout
    {
      {this} + layout.Repr
    }

    ghost predicate Valid()
      reads this, layout, layout.Repr
    {
      layout.Valid() && this !in layout.Repr
    }

    ghost function State(): M.Workspace
      reads this, layout
    {
      M.Workspace(id, isPinned, windowId, directory, focused, previous, zoomed, layout.Tree, panels)
    }

    /** A new workspace holding one new panel. */
    constructor (id: Id, panel: M.Panel, directory: string)
      ensures Valid() && fresh(Footprint()) && State() == M.Holding(id, panel, directory)
    {
      var pane := new LayoutNode.SinglePane(panel.id);
      this.id, isPinned, windowId, this.directory := id, false, None, directory;
      focused, previous, zoomed := Some(panel.id), None, None;
      layout, panels := pane, map[panel.id := panel];
    }

    /** A new workspace that gives up its first panel for another one. */
    constructor BrokenOut(id: Id, placeholder: Id, panelId: Id, panel: M.Panel, directory: string)
      requires placeholder != panelId
      ensures Valid() && fresh(Footprint())
      ensures State() == Alone(id, panelId, panel, directory)
    {
      var pane := new LayoutNode.SinglePane(panelId);
      this.id, isPinned, windowId, this.directory := id, false, None, directory;
      focused, previous, zoomed := Some(placeholder), None, None;
      layout, panels := pane, map[placeholder := M.NewPanel(placeholder, M.Terminal)];
      new;
      panels := panels - {placeholder};
      panels := panels[panelId := panel];
      focused := Some(panelId);
      assert panels == map[panelId := panel];
    }

    /** The panel joins the map and takes the focus. */
    method Welcome(panel: M.Panel)
      modifies this`panels, this`previous, this`focused
      ensures panels == old(panels)[panel.id := panel] && previous == old(focused) && focused == Some(panel.id)
    {
      panels, previous, focused := panels[panel.id := panel], focused, Some(panel.id);
    }

    /** The tree part of an insertion. */
    method LayBeside(id: Id, o: Orientation)
      requires Valid()
      modifies layout.Repr
      ensures Valid() && fresh(layout.Repr - old(layout.Repr))
      ensures layout.Tree == M.LaidBeside(old(layout.Tree), focused, id, o)
    {
      var splitDone := false;
      if focused.Some? {
        AbsentInsertion(layout.Tree, focused.value, id, o, false);
        splitDone := layout.SplitPaneWithPanel(focused.value, id, o, false);
      }
      if !splitDone {
        layout.SplitHere(id, o, false);
      }
    }

    method InsertPanel(panel: M.Panel, o: Orientation)
      requires Valid()
      modifies this, layout.Repr
      ensures Valid() && fresh(Footprint() - old(Footprint()))
      ensures State() == M.AddPanel(old(State()), panel, o)
    {
      LayBeside(panel.id, o);
      Welcome(panel);
    }

    method Split(o: Orientation, t: M.PanelType, newId: Id)
      requires Valid()
      modifies this, layout.Repr
      ensures Valid() && fresh(Footprint() - old(Footprint()))
      ensures State() == M.AddPanel(old(State()), M.NewPanel(newId, t), o)
    {
      InsertPanel(M.NewPanel(newId, t), o);
    }

    /** Adds the panel to the map and as the tab right after `target`. */
    method AddTab(target: Id, panel: M.Panel) returns (added: bool)
      requires Valid()
      modifies this, layout.Repr
      ensures Valid() && Footprint() <= old(Footprint())
      ensures added == (target in PanelIds(old(layout.Tree))) && State() == Tabs.AddTab(old(State()), target, panel)
    {
      AbsentTab(layout.Tree, target, panel.id);
      added := layout.AddPanelToPane(target, panel.id);
      Welcome(panel);
    }

    method LaySurface(id: Id)
      requires Valid()
      modifies layout.Repr
      ensures Valid() && fresh(layout.Repr - old(layout.Repr))
      ensures layout.Tree == Tabs.LaidAsSurface(old(layout.Tree), focused, id)
    {
      var added := false;
      if focused.Some? {
        AbsentTab(layout.Tree, focused.value, id);
        added := layout.AddPanelToPane(focused.value, id);
      }
      if !added {
        var pane := new LayoutNode.SinglePane(id);
        layout.Become(pane);
      }
    }

    /** Adds the panel beside the focused tab, or replaces the tree by a single pane. */
    method AddSurface(panel: M.Panel)
      requires Valid()
      modifies this, layout.Repr
      ensures Valid() && fresh(Footprint() - old(Footprint()))
      ensures State() == Tabs.AddSurface(old(State()), panel)
    {
      LaySurface(panel.id);
      Welcome(panel);
    }

    method LayTab(target: Option<Id>, id: Id)
      requires Valid()
      modifies layout.Repr
      ensures Valid() && fresh(layout.Repr - old(layout.Repr))
      ensures layout.Tree == if target.Some? then AddToPane(old(layout.Tree), target.value, id) else old(layout.Tree)
    {
      if target.Some? {
        AbsentTab(layout.Tree, target.value, id);
        var added := layout.AddPanelToPane(target.value, id);
      }
    }

    method LayMarkdown(id: Id, split: Option<Orientation>)
      requires Valid()
      modifies layout.Repr
      ensures Valid() && fresh(layout.Repr - old(layout.Repr))
      ensures layout.Tree == Tabs.LaidAsMarkdown(old(layout.Tree), focused, id, split)
    {
      var target := focused;
      if target.None? {
        var all := layout.AllPanelIds();
        target := HeadOpt(all);
      }
      var placed := false;
      if split.Some? && focused.Some? {
        AbsentInsertion(layout.Tree, focused.value, id, split.value, false);
        placed := layout.SplitPaneWithPanel(focused.value, id, split.value, false);
      }
      if !placed {
        LayTab(target, id);
      }
    }

    /** Splits the focused pane if asked to, or else adds a tab beside the focused panel or the first one. */
    method AddMarkdown(panel: M.Panel, split: Option<Orientation>)
      requires Valid()
      modifies this, layout.Repr
      ensures Valid() && fresh(Footprint() - old(Footprint()))
      ensures State() == Tabs.AddMarkdown(old(State()), panel, split)
    {
      LayMarkdown(panel.id, split);
      Welcome(panel);
    }

    /** Takes the panel out of map and tree, and off the focus. */
    method RemovePanel(panelId: Id) returns (existed: bool)
      requires Valid()
      modifies this, layout.Repr
      ensures Valid() && Footprint() <= old(Footprint())
      ensures existed == (panelId in old(panels)) && State() == M.RemovePanel(old(State()), panelId)
    {
      existed := panelId in panels;
      if existed {
        panels := panels - {panelId};
        var inTree := layout.RemovePanel(panelId);
        if focused == Some(panelId) {
          var left := layout.AllPanelIds();
          focused := HeadOpt(left);
        }
      }
    }

    method DetachPanel(panelId: Id) returns (panel: Option<M.Panel>)
      requires Valid()
      modifies this, layout.Repr
      ensures Valid() && Footprint() <= old(Footprint())
      ensures panel == if panelId in old(panels) then Some(old(panels)[panelId]) else None
      ensures State() == M.DetachPanel(old(State()), panelId)
    {
      if panelId !in panels {
        return None;
      }
      panel := Some(panels[panelId]);
      var existed := RemovePanel(panelId);
      if previous == Some(panelId) { previous := None; }
      if zoomed == Some(panelId) { zoomed := None; }
    }

    method DragToSplit(panelId: Id, d: Direction) returns (moved: bool)
      requires Valid()
      modifies this, layout.Repr
      ensures Valid() && fresh(Footprint() - old(Footprint()))
      ensures moved == M.CanDrag(old(State()), panelId) && State() == M.DragToSplit(old(State()), panelId, d)
    {
      if panelId !in panels {
        return false;
      }
      var target := focused;
      if focused == Some(panelId) {
        var all := layout.AllPanelIds();
        target := M.FirstOther(all, panelId);
      }
      if target.None? {
        return false;
      }
      MoveBeside(panelId, target.value, d);
      previous := focused;
      focused := Some(panelId);
      moved := true;
    }

    /** The tree part of a drag, with the tab as its last resort. */
    method MoveBeside(panelId: Id, target: Id, d: Direction)
      requires Valid()
      modifies layout.Repr
      ensures Valid() && fresh(layout.Repr - old(layout.Repr))
      ensures layout.Tree == M.Dragged(old(layout.Tree), panelId, target, d)
    {
      var inTree := layout.RemovePanel(panelId);
      AbsentInsertion(layout.Tree, target, panelId, M.AxisOf(d), !Forward(d));
      var split := layout.SplitPaneWithPanel(target, panelId, M.AxisOf(d), !Forward(d));
      if !split {
        var added := layout.AddPanelToPane(target, panelId);
      }
    }

    method FocusPanel(panelId: Id) returns (done: bool)
      requires Valid()
      modifies this, layout.Repr
      ensures Valid() && Footprint() <= old(Footprint())
      ensures done == (panelId in old(panels) && panelId in PanelIds(old(layout.Tree)))
      ensures State() == M.FocusPanel(old(State()), panelId)
    {
      if panelId !in panels {
        return false;
      }
      AbsentSelection(layout.Tree, panelId);
      done := layout.SelectPanel(panelId);
      if done {
        if focused != Some(panelId) { previous := focused; }
        focused := Some(panelId);
      }
    }

    /** Takes the panels out of map and tree, one after another. */
    method DropTabs(toClose: seq<Id>)
      requires Valid()
      modifies this`panels, layout.Repr
      ensures Valid() && Footprint() <= old(Footprint())
      ensures State() == M.DropPanels(old(State()), toClose)
    {
      ghost var goal := M.DropPanels(State(), toClose);
      var k := 0;
      while k < |toClose|
        invariant k <= |toClose| && Valid() && Footprint() <= old(Footprint())
        invariant M.DropPanels(State(), toClose[k..]) == goal
      {
        M.DropFirst(State(), toClose[k..]);
        assert toClose[k..][1..] == toClose[k + 1..];
        panels := panels - {toClose[k]};
        var inTree := layout.RemovePanel(toClose[k]);
        k := k + 1;
      }
    }

    /** Closes the other tabs of the focused pane. */
    method CloseOtherTabs()
      requires Valid()
      modifies this, layout.Repr
      ensures Valid() && Footprint() <= old(Footprint())
      ensures State() == M.CloseOtherTabs(old(State()))
    {
      if focused.None? {
        return;
      }
      var pane := layout.PaneWithPanel(focused.value);
      if pane.None? {
        return;
      }
      var keep := focused.value;
      DropTabs(Filter(pane.value, x => x != keep));
    }

    method Rearrange(r: Retile)
      requires Valid()
      modifies layout.Repr
      ensures Valid() && Footprint() <= old(Footprint())
      ensures layout.Tree == Retiled(old(layout.Tree), r)
    {
      match r
      case Equal => var changed := layout.EqualizeAll();
      case MoveDivider(a, b, position) => var found := layout.SetDividerPositionForSplit(a, b, position);
      case ResizePane(id, amount) => var found := layout.ResizePanel(id, amount);
      case ReorderTab(id, index) => var found := layout.ReorderPanelInPane(id, index);
      case SwapPanels(x, y) => var changed := layout.SwapPanels(x, y);
    }

    method CloseFocused()
      requires Valid()
      modifies this, layout.Repr
      ensures Valid() && fresh(Footprint() - old(Footprint()))
      ensures State() == Within(old(State()), WorkspaceStep.CloseFocused)
    {
      if focused.Some? {
        var existed := RemovePanel(focused.value);
      }
    }

    /** Two panels are swapped only if the workspace holds both. */
    method RearrangeIfHeld(r: Retile)
      requires Valid()
      modifies layout.Repr
      ensures Valid() && Footprint() <= old(Footprint())
      ensures State() == Within(old(State()), WorkspaceStep.Rearrange(r))
    {
      if r.SwapPanels? && (r.x !in panels || r.y !in panels) {
        return;
      }
      Rearrange(r);
    }

    /** Any step inside this workspace. */
    method Perform(s: WorkspaceStep)
      requires Valid()
      modifies this, layout.Repr
      ensures Valid() && fresh(Footprint() - old(Footprint()))
      ensures State() == Within(old(State()), s)
    {
      match s
      case SplitFocused(o, t, newId) => Split(o, t, newId);
      case InsertPanel(panel, o) => InsertPanel(panel, o);
      case NewTab(target, panel) => var added := AddTab(target, panel);
      case NewSurface(panel) => AddSurface(panel);
      case NewMarkdown(panel, split) => AddMarkdown(panel, split);
      case RemoveOne(panelId) => var existed := RemovePanel(panelId);
      case DetachOne(panelId) => var panel := DetachPanel(panelId);
      case Focus(panelId) => var done := FocusPanel(panelId);
      case Drag(panelId, d) => var moved := DragToSplit(panelId, d);
      case CloseFocused => CloseFocused();
      case CloseTabsBesideFocused => CloseOtherTabs();
      case Rearrange(r) => RearrangeIfHeld(r);
    }
  }
}
