/**
 A workspace as a value: a layout tree, the map of its panels, and its focus.
 WorkspaceHeap.dfy performs the same operations on fields updated in place.
 */
module WorkspaceModel {
  import opened Common
  import opened Layout
  import opened LayoutLaws
  import opened Geometry

  datatype PanelType = Terminal | Browser | Markdown

  datatype Panel = Panel(id: Id, panelType: PanelType, title: Option<string>, directory: Option<string>)

  datatype Workspace = Workspace(
    id: Id,
    isPinned: bool,
    windowId: Option<Id>,
    directory: string,
    focused: Option<Id>,
    previous: Option<Id>,
    zoomed: Option<Id>,
    layout: Node,
    panels: map<Id, Panel>)

  function NewPanel(id: Id, t: PanelType): Panel {
    Panel(id, t, None, None)
  }

  /** A workspace holding one panel, freshly created. */
  function Holding(id: Id, panel: Panel, directory: string): Workspace {
    Workspace(id, false, None, directory, Some(panel.id), None, None, SinglePane(panel.id), map[panel.id := panel])
  }

  /** Splits the focused pane, or the whole layout when no pane is focused. */
  function LaidBeside(n: Node, focused: Option<Id>, id: Id, o: Orientation): Node {
    if focused.Some? && focused.value in PanelIds(n) then InsertBeside(n, focused.value, id, o, false)
    else Beside(n, id, o, false)
  }

  /** The panel joins map and focus, and the layout becomes `laid`. */
  function WithPanelAt(w: Workspace, panel: Panel, laid: Node): Workspace {
    w.(panels := w.panels[panel.id := panel], layout := laid, previous := w.focused, focused := Some(panel.id))
  }

  /** Adds a panel in a pane of its own. */
  function AddPanel(w: Workspace, panel: Panel, o: Orientation): Workspace {
    WithPanelAt(w, panel, LaidBeside(w.layout, w.focused, panel.id, o))
  }

  function RemovePanel(w: Workspace, id: Id): Workspace {
    if id !in w.panels then w
    else
      var laid := Remove(w.layout, id);
      w.(panels := w.panels - {id}, layout := laid,
         focused := if w.focused == Some(id) then HeadOpt(PanelIds(laid)) else w.focused)
  }

  /** Like RemovePanel, but also forgets `id` as previous focus and as zoomed panel. */
  function DetachPanel(w: Workspace, id: Id): Workspace {
    if id !in w.panels then w
    else
      RemovePanel(w, id).(
        previous := if w.previous == Some(id) then None else w.previous,
        zoomed := if w.zoomed == Some(id) then None else w.zoomed)
  }

  function FirstOther(ids: seq<Id>, id: Id): Option<Id> {
    HeadOpt(Filter(ids, x => x != id))
  }

  function DragTarget(w: Workspace, id: Id): Option<Id> {
    if w.focused == Some(id) then FirstOther(PanelIds(w.layout), id) else w.focused
  }

  function AxisOf(d: Direction): Orientation {
    if d.Left? || d.Right? then Horizontal else Vertical
  }

  predicate CanDrag(w: Workspace, id: Id) {
    id in w.panels && DragTarget(w, id).Some?
  }

  /** `id` out of its pane and into a new split beside the target; as a tab, if the target pane were gone. */
  function Dragged(n: Node, id: Id, target: Id, d: Direction): Node {
    var bare := Remove(n, id);
    if target in PanelIds(bare) then InsertBeside(bare, target, id, AxisOf(d), !Forward(d))
    else AddToPane(bare, target, id)
  }

  function DragToSplit(w: Workspace, id: Id, d: Direction): Workspace {
    if !CanDrag(w, id) then w
    else w.(layout := Dragged(w.layout, id, DragTarget(w, id).value, d), previous := w.focused, focused := Some(id))
  }

  function FocusPanel(w: Workspace, id: Id): Workspace {
    if id !in w.panels || id !in PanelIds(w.layout) then w
    else
      w.(layout := SelectPanel(w.layout, id), focused := Some(id),
         previous := if w.focused != Some(id) then w.focused else w.previous)
  }

  /** Drops the listed panels from map and tree, leaving the focus alone. */
  function DropPanels(w: Workspace, ids: seq<Id>): Workspace
    decreases |ids|
  {
    if ids == [] then w
    else DropPanels(w.(panels := w.panels - {ids[0]}, layout := Remove(w.layout, ids[0])), ids[1..])
  }

  lemma DropFirst(w: Workspace, ids: seq<Id>)
    requires ids != []
    ensures DropPanels(w, ids)
         == DropPanels(w.(panels := w.panels - {ids[0]}, layout := Remove(w.layout, ids[0])), ids[1..])
  {
  }

  /** Closes the other tabs of the focused pane. */
  function CloseOtherTabs(w: Workspace): Workspace {
    if w.focused.None? || PaneOf(w.layout, w.focused.value).None? then w
    else DropPanels(w, Filter(PaneOf(w.layout, w.focused.value).value, x => x != w.focused.value))
  }

  // ----- the invariant

  ghost predicate KeyedById(panels: map<Id, Panel>) {
    forall x | x in panels :: panels[x].id == x
  }

  /** The tree lists each panel of the map once, and every pane shows one of its own. */
  ghost predicate TreeMatches(n: Node, panels: map<Id, Panel>) {
    && Distinct(PanelIds(n))
    && (forall x :: x in PanelIds(n) <==> x in panels)
    && SelectionsInPanes(n)
    && KeyedById(panels)
  }

  ghost predicate FocusMatches(focused: Option<Id>, panels: map<Id, Panel>) {
    if panels == map[] then focused == None else focused.Some? && focused.value in panels
  }

  ghost predicate Consistent(w: Workspace) {
    TreeMatches(w.layout, w.panels) && FocusMatches(w.focused, w.panels)
  }

  /** No split holds an empty pane, unless every panel is gone. */
  ghost predicate TidyTree(n: Node, panels: map<Id, Panel>) {
    if panels == map[] then n == Pane([], None) else NoEmptyPane(n)
  }

  ghost predicate Tidy(w: Workspace) {
    TidyTree(w.layout, w.panels)
  }

  lemma NoPanelsNoIds(n: Node, panels: map<Id, Panel>)
    requires TreeMatches(n, panels)
    ensures panels == map[] <==> PanelIds(n) == []
  {
    if PanelIds(n) != [] {
      assert PanelIds(n)[0] in panels;
    } else {
      assert forall x :: x !in panels;
    }
  }

  /** A panel that joins the map and the list of ids. */
  lemma MapGains(panels: map<Id, Panel>, panel: Panel, before: seq<Id>, after: seq<Id>)
    requires KeyedById(panels) && forall x :: x in before <==> x in panels
    requires forall x :: x in after <==> x in before || x == panel.id
    ensures KeyedById(panels[panel.id := panel]) && forall x :: x in after <==> x in panels[panel.id := panel]
  {
  }

  lemma InsertionMatches(n: Node, panels: map<Id, Panel>, target: Id, panel: Panel, o: Orientation, newFirst: bool)
    requires TreeMatches(n, panels) && target in panels && panel.id !in panels
    ensures TreeMatches(InsertBeside(n, target, panel.id, o, newFirst), panels[panel.id := panel])
    ensures NoEmptyPane(n) ==> NoEmptyPane(InsertBeside(n, target, panel.id, o, newFirst))
  {
    InsertAddsOneId(n, target, panel.id, o, newFirst);
    InsertKeepsDistinct(n, target, panel.id, o, newFirst);
    InsertKeepsPanesFilled(n, target, panel.id, o, newFirst);
    MapGains(panels, panel, PanelIds(n), PanelIds(InsertBeside(n, target, panel.id, o, newFirst)));
  }

  lemma RemovalMatches(n: Node, panels: map<Id, Panel>, id: Id)
    requires TreeMatches(n, panels)
    ensures TreeMatches(Remove(n, id), panels - {id})
  {
    RemoveDeletesOneId(n, id);
    RemoveFirstMembers(PanelIds(n), id);
    RemoveKeepsSelections(n, id);
  }

  lemma RemovalKeepsTidy(n: Node, panels: map<Id, Panel>, id: Id)
    requires TreeMatches(n, panels) && TidyTree(n, panels) && id in panels
    ensures TidyTree(Remove(n, id), panels - {id})
  {
    RemoveKeepsPanesFilled(n, id);
    RemovalMatches(n, panels, id);
    NoPanelsNoIds(Remove(n, id), panels - {id});
    EmptyMeansNoIds(Remove(n, id));
  }

  lemma HoldingIsConsistent(id: Id, panel: Panel, directory: string)
    ensures Consistent(Holding(id, panel, directory)) && Tidy(Holding(id, panel, directory))
    ensures Holding(id, panel, directory) ==
              Workspace(id, false, None, directory, Some(panel.id), None, None, Pane([panel.id], Some(panel.id)),
                        map[panel.id := panel])
  {
    assert panel.id in Holding(id, panel, directory).panels;
  }

  /** A panel added to a tidy workspace is placed beside an empty pane exactly when no panel was left. */
  lemma AddPanelKeepsConsistent(w: Workspace, panel: Panel, o: Orientation)
    requires Consistent(w) && panel.id !in w.panels
    ensures Consistent(AddPanel(w, panel, o))
    ensures Tidy(w) ==> (Tidy(AddPanel(w, panel, o)) <==> w.panels != map[])
  {
    var v := AddPanel(w, panel, o);
    assert panel.id in v.panels;
    if w.focused.Some? {
      InsertionMatches(w.layout, w.panels, w.focused.value, panel, o, false);
    } else {
      NoPanelsNoIds(w.layout, w.panels);
      DistinctParts(PanelIds(w.layout), [panel.id]);
      assert Tidy(w) ==> !NoEmptyPane(v.layout.first);
    }
  }

  lemma RemovePanelKeepsConsistent(w: Workspace, id: Id)
    requires Consistent(w)
    ensures Consistent(RemovePanel(w, id)) && (Tidy(w) ==> Tidy(RemovePanel(w, id)))
    ensures RemovePanel(w, id).panels == w.panels - {id}
  {
    if id in w.panels {
      var v := RemovePanel(w, id);
      RemovalMatches(w.layout, w.panels, id);
      NoPanelsNoIds(v.layout, v.panels);
      if w.focused == Some(id) {
        assert PanelIds(v.layout) != [] ==> PanelIds(v.layout)[0] in v.panels;
      } else {
        assert w.focused.value in v.panels;
      }
      if Tidy(w) { RemovalKeepsTidy(w.layout, w.panels, id); }
    }
  }

  /** The previous focus and the zoomed panel are panels of the workspace. */
  predicate MarksInPanels(w: Workspace) {
    (w.previous.Some? ==> w.previous.value in w.panels) && (w.zoomed.Some? ==> w.zoomed.value in w.panels)
  }

  /** Removing a panel leaves a mark dangling exactly when it was on that panel; detaching never does. */
  lemma RemovalMayLeaveMarks(w: Workspace, id: Id)
    requires MarksInPanels(w) && id in w.panels
    ensures MarksInPanels(RemovePanel(w, id)) <==> w.previous != Some(id) && w.zoomed != Some(id)
    ensures MarksInPanels(DetachPanel(w, id))
  {
  }

  lemma DetachPanelKeepsConsistent(w: Workspace, id: Id)
    requires Consistent(w)
    ensures Consistent(DetachPanel(w, id)) && (Tidy(w) ==> Tidy(DetachPanel(w, id)))
    ensures DetachPanel(w, id).panels == w.panels - {id}
    ensures DetachPanel(w, id).id == w.id
  {
    RemovePanelKeepsConsistent(w, id);
  }

  lemma {:induction false} FilterMembers<T>(s: seq<T>, keep: T -> bool)
    ensures forall x :: x in Filter(s, keep) <==> x in s && keep(x)
    ensures Distinct(s) ==> Distinct(Filter(s, keep))
  {
    if s != [] {
      var h := if keep(s[0]) then [s[0]] else [];
      FilterMembers(s[1..], keep);
      assert s == [s[0]] + s[1..];
      DistinctParts([s[0]], s[1..]);
      DistinctParts(h, Filter(s[1..], keep));
    }
  }

  /** Dragging succeeds exactly when the workspace holds the panel and another one. */
  lemma CanDragMeansTwoPanels(w: Workspace, id: Id)
    requires Consistent(w)
    ensures CanDrag(w, id) <==> id in w.panels && exists x :: x in w.panels && x != id
    ensures CanDrag(w, id) ==> DragTarget(w, id).value in w.panels && DragTarget(w, id).value != id
  {
    var others := Filter(PanelIds(w.layout), x => x != id);
    FilterMembers(PanelIds(w.layout), x => x != id);
    if others != [] {
      assert others[0] in others;
    }
  }

  /** Removing the dragged panel, whatever splits that collapses, leaves the target in the tree. */
  lemma DragTargetSurvives(w: Workspace, id: Id)
    requires Consistent(w) && CanDrag(w, id)
    ensures
      var target := DragTarget(w, id).value;
      var bare := Remove(w.layout, id);
      && target in PanelIds(bare) && id !in PanelIds(bare) && Distinct(PanelIds(bare))
      && multiset(PanelIds(w.layout)) == multiset(PanelIds(bare)) + multiset{id}
  {
    CanDragMeansTwoPanels(w, id);
    RemoveDeletesOneId(w.layout, id);
    RemoveFirstMembers(PanelIds(w.layout), id);
  }

  /** A successful drag puts the panel alone in a pane where navigation from the target finds it. */
  lemma DragMovesPanelBesideTarget(w: Workspace, id: Id, d: Direction)
    requires Consistent(w) && CanDrag(w, id)
    ensures
      var v := DragToSplit(w, id, d);
      && DragTarget(w, id).value in PanelIds(Remove(w.layout, id))
      && multiset(PanelIds(v.layout)) == multiset(PanelIds(w.layout))
      && PaneOf(v.layout, id) == Some([id])
      && Neighbor(v.layout, DragTarget(w, id).value, d) == Some(id)
  {
    var target, bare := DragTarget(w, id).value, Remove(w.layout, id);
    DragTargetSurvives(w, id);
    InsertAddsOneId(bare, target, id, AxisOf(d), !Forward(d));
    InsertedIsNeighbor(bare, target, id, AxisOf(d), d);
    InsertedSitsAlone(bare, target, id, AxisOf(d), !Forward(d));
  }

  lemma DragKeepsConsistent(w: Workspace, id: Id, d: Direction)
    requires Consistent(w)
    ensures Consistent(DragToSplit(w, id, d)) && (Tidy(w) ==> Tidy(DragToSplit(w, id, d)))
    ensures DragToSplit(w, id, d).panels == w.panels
    ensures CanDrag(w, id) ==> DragToSplit(w, id, d).focused == Some(id)
  {
    if CanDrag(w, id) {
      var target, rest := DragTarget(w, id).value, w.panels - {id};
      CanDragMeansTwoPanels(w, id);
      DragTargetSurvives(w, id);
      RemovalMatches(w.layout, w.panels, id);
      InsertionMatches(Remove(w.layout, id), rest, target, w.panels[id], AxisOf(d), !Forward(d));
      assert rest[id := w.panels[id]] == w.panels;
      if Tidy(w) { RemovalKeepsTidy(w.layout, w.panels, id); }
    }
  }

  lemma {:induction false} SelectKeepsPanes(n: Node, id: Id)
    ensures PanelIds(SelectPanel(n, id)) == PanelIds(n)
    ensures SelectionsInPanes(n) ==> SelectionsInPanes(SelectPanel(n, id))
    ensures NoEmptyPane(n) ==> NoEmptyPane(SelectPanel(n, id))
  {
    if n.Split? {
      SelectKeepsPanes(n.first, id);
      SelectKeepsPanes(n.second, id);
    }
  }

  /** Focusing a panel of the workspace focuses it and has its pane show it. */
  lemma FocusKeepsConsistent(w: Workspace, id: Id)
    requires Consistent(w)
    ensures Consistent(FocusPanel(w, id)) && (Tidy(w) ==> Tidy(FocusPanel(w, id)))
    ensures FocusPanel(w, id).panels == w.panels
    ensures id in w.panels ==> FocusPanel(w, id).focused == Some(id) && Shown(FocusPanel(w, id).layout, id) == Some(id)
  {
    SelectKeepsPanes(w.layout, id);
    if id in w.panels {
      SelectedIsShown(w.layout, id);
    }
  }

  lemma DropOneKeepsConsistent(w: Workspace, id: Id)
    requires Consistent(w) && w.focused.Some? && w.focused.value != id && id in w.panels
    ensures
      var v := w.(panels := w.panels - {id}, layout := Remove(w.layout, id));
      Consistent(v) && (Tidy(w) ==> Tidy(v))
  {
    RemovePanelKeepsConsistent(w, id);
  }

  lemma {:induction false} DropKeepsConsistent(w: Workspace, ids: seq<Id>)
    requires Consistent(w) && Distinct(ids) && w.focused.Some? && w.focused.value !in ids
    requires forall x | x in ids :: x in w.panels
    ensures Consistent(DropPanels(w, ids)) && (Tidy(w) ==> Tidy(DropPanels(w, ids)))
    decreases |ids|
  {
    if ids != [] {
      var v, t := w.(panels := w.panels - {ids[0]}, layout := Remove(w.layout, ids[0])), ids[1..];
      DropOneKeepsConsistent(w, ids[0]);
      assert ids == [ids[0]] + t;
      DistinctParts([ids[0]], t);
      assert forall x | x in t :: x in v.panels;
      DropKeepsConsistent(v, t);
    }
  }

  lemma {:induction false} DropLeavesTheRest(w: Workspace, ids: seq<Id>)
    ensures DropPanels(w, ids) == w.(panels := DropPanels(w, ids).panels, layout := DropPanels(w, ids).layout)
    ensures DropPanels(w, ids).panels == map x | x in w.panels && x !in ids :: w.panels[x]
    decreases |ids|
  {
    if ids != [] {
      DropLeavesTheRest(w.(panels := w.panels - {ids[0]}, layout := Remove(w.layout, ids[0])), ids[1..]);
    }
  }

  lemma {:induction false} PaneIsDistinct(n: Node, id: Id)
    requires Distinct(PanelIds(n))
    ensures PaneOf(n, id).Some? ==> Distinct(PaneOf(n, id).value)
  {
    if n.Split? {
      DistinctSides(n);
      PaneIsDistinct(n.first, id);
      PaneIsDistinct(n.second, id);
    }
  }

  /** Closing the other tabs keeps the focus and leaves exactly the panels outside the pane, and the focus. */
  lemma CloseOtherTabsKeepsConsistent(w: Workspace)
    requires Consistent(w)
    ensures Consistent(CloseOtherTabs(w)) && (Tidy(w) ==> Tidy(CloseOtherTabs(w)))
    ensures CloseOtherTabs(w).focused == w.focused && CloseOtherTabs(w).id == w.id
    ensures w.focused.None? ==> CloseOtherTabs(w) == w
    ensures w.focused.Some? ==>
              && PaneOf(w.layout, w.focused.value).Some?
              && CloseOtherTabs(w).panels == map x | x in w.panels &&
                (x == w.focused.value || x !in PaneOf(w.layout, w.focused.value).value) :: w.panels[x]
  {
    if w.focused.Some? {
      var pane := OtherTabs(w);
      DropKeepsConsistent(w, pane);
      DropLeavesTheRest(w, pane);
    }
  }

  lemma OtherTabs(w: Workspace) returns (others: seq<Id>)
    requires Consistent(w) && w.focused.Some?
    ensures PaneOf(w.layout, w.focused.value).Some?
    ensures others == Filter(PaneOf(w.layout, w.focused.value).value, x => x != w.focused.value)
    ensures Distinct(others) && w.focused.value !in others && forall x | x in others :: x in w.panels
    ensures forall x :: x in others <==> x in PaneOf(w.layout, w.focused.value).value && x != w.focused.value
  {
    PaneOfMember(w.layout, w.focused.value);
    PaneIsDistinct(w.layout, w.focused.value);
    var pane := PaneOf(w.layout, w.focused.value).value;
    FilterMembers(pane, x => x != w.focused.value);
    others := Filter(pane, x => x != w.focused.value);
  }

  /** Adding a panel and removing it again restores tree and map; the focus goes to the first panel. */
  lemma RemoveUndoesAdd(w: Workspace, panel: Panel, o: Orientation)
    requires Consistent(w) && Tidy(w) && panel.id !in w.panels && w.panels != map[]
    ensures RemovePanel(AddPanel(w, panel, o), panel.id) ==
            w.(previous := w.focused, focused := HeadOpt(PanelIds(w.layout)))
  {
    RemoveUndoesInsert(w.layout, w.focused.value, panel.id, o, false);
    NoEmptyPaneIsFilledBeside(w.layout, w.focused.value);
    assert w.panels[panel.id := panel] - {panel.id} == w.panels;
  }
}
