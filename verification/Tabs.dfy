/** Adding a panel as a tab: beside a given one, as the surface handler does, and as the markdown handler does. */
module Tabs {
  import opened Common
  import opened Layout
  import opened LayoutLaws
  import opened Retiling
  import opened WorkspaceModel

  /** Adds the panel as the tab right after `target`. */
  function AddTab(w: Workspace, target: Id, panel: Panel): Workspace {
    WithPanelAt(w, panel, AddToPane(w.layout, target, panel.id))
  }

  /** Beside the focused tab; without one, the tree becomes a single pane. */
  function LaidAsSurface(n: Node, focused: Option<Id>, id: Id): Node {
    if focused.Some? && focused.value in PanelIds(n) then AddToPane(n, focused.value, id) else SinglePane(id)
  }

  function AddSurface(w: Workspace, panel: Panel): Workspace {
    WithPanelAt(w, panel, LaidAsSurface(w.layout, w.focused, panel.id))
  }

  /** Splits the focused pane if asked to, or else adds a tab beside the focused panel or the first one. */
  function LaidAsMarkdown(n: Node, focused: Option<Id>, id: Id, split: Option<Orientation>): Node {
    var target := OrElse(focused, HeadOpt(PanelIds(n)));
    if split.Some? && focused.Some? && focused.value in PanelIds(n) then
      InsertBeside(n, focused.value, id, split.value, false)
    else if target.Some? then AddToPane(n, target.value, id)
    else n
  }

  function AddMarkdown(w: Workspace, panel: Panel, split: Option<Orientation>): Workspace {
    WithPanelAt(w, panel, LaidAsMarkdown(w.layout, w.focused, panel.id, split))
  }

  lemma TabMatches(n: Node, panels: map<Id, Panel>, target: Id, panel: Panel)
    requires TreeMatches(n, panels) && target in panels && panel.id !in panels
    ensures TreeMatches(AddToPane(n, target, panel.id), panels[panel.id := panel])
  {
    TabIsMember(n, target, panel.id);
    DistinctWithOneMore(PanelIds(n), PanelIds(AddToPane(n, target, panel.id)), panel.id);
    TabKeepsPanesFilled(n, target, panel.id);
    MapGains(panels, panel, PanelIds(n), PanelIds(AddToPane(n, target, panel.id)));
  }

  /** A panel put in the map and not in the tree. */
  lemma LostPanelIsInconsistent(w: Workspace, panel: Panel)
    requires Consistent(w) && panel.id !in w.panels
    ensures !Consistent(WithPanelAt(w, panel, w.layout))
  {
    assert panel.id in WithPanelAt(w, panel, w.layout).panels;
  }

  /** A tab added keeps map and tree in agreement if and only if its target is a panel of the workspace. */
  lemma AddTabKeepsConsistent(w: Workspace, target: Id, panel: Panel)
    requires Consistent(w) && panel.id !in w.panels
    ensures Consistent(AddTab(w, target, panel)) <==> target in w.panels
    ensures target in w.panels && Tidy(w) ==> Tidy(AddTab(w, target, panel))
  {
    if target in w.panels {
      TabMatches(w.layout, w.panels, target, panel);
      TabKeepsPanesFilled(w.layout, target, panel.id);
      assert panel.id in AddTab(w, target, panel).panels;
    } else {
      AbsentTab(w.layout, target, panel.id);
      LostPanelIsInconsistent(w, panel);
    }
  }

  /** The surface handler always keeps them in agreement, and even an emptied workspace free of empty panes. */
  lemma AddSurfaceKeepsConsistent(w: Workspace, panel: Panel)
    requires Consistent(w) && panel.id !in w.panels
    ensures Consistent(AddSurface(w, panel)) && (Tidy(w) ==> Tidy(AddSurface(w, panel)))
  {
    if w.focused.Some? {
      AddTabKeepsConsistent(w, w.focused.value, panel);
    } else {
      assert w.panels == map[] && panel.id in AddSurface(w, panel).panels;
    }
  }

  /** The markdown handler does so if and only if the workspace holds a panel: otherwise the new panel is in the map and
      has the focus, but is in no pane. */
  lemma AddMarkdownKeepsConsistent(w: Workspace, panel: Panel, split: Option<Orientation>)
    requires Consistent(w) && panel.id !in w.panels
    ensures Consistent(AddMarkdown(w, panel, split)) <==> w.panels != map[]
    ensures w.panels != map[] && Tidy(w) ==> Tidy(AddMarkdown(w, panel, split))
    ensures w.panels == map[] ==> AddMarkdown(w, panel, split) == WithPanelAt(w, panel, w.layout)
  {
    NoPanelsNoIds(w.layout, w.panels);
    if w.panels == map[] {
      LostPanelIsInconsistent(w, panel);
    } else {
      AddTabKeepsConsistent(w, w.focused.value, panel);
      if split.Some? {
        InsertionMatches(w.layout, w.panels, w.focused.value, panel, split.value, false);
        assert panel.id in AddMarkdown(w, panel, split).panels;
      }
    }
  }
}
