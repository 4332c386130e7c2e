/** Where panels come to stand: which pane is split, beside which tab, and what all other panes keep. */
module Placing {
  import opened Common
  import opened Layout
  import opened LayoutLaws
  import opened Geometry
  import opened Places
  import opened Tabs
  import opened WorkspaceModel

  /** The direction in which the second side of a split lies. */
  function Onward(o: Orientation): Direction {
    match o
    case Horizontal => Right
    case Vertical => Down
  }

  /** Adding a panel puts it in the map, gives it the focus, and replaces the focused pane by a split of that pane, as
      it was, and a new one; everything else in the workspace stays. */
  lemma AddedBesideFocus(w: Workspace, panel: Panel, o: Orientation) returns (p: Path)
    requires Consistent(w) && panel.id !in w.panels && w.focused.Some?
    ensures HoldsAt(w.layout, p, w.focused.value)
    ensures AddPanel(w, panel, o) ==
              w.(panels := w.panels[panel.id := panel], previous := w.focused, focused := Some(panel.id),
                 layout := WithNode(w.layout, p, Split(o, 0.5, PaneAt(w.layout, p), Pane([panel.id], Some(panel.id)))))
  {
    p := PlaceOf(w.layout, w.focused.value);
    InsertedAt(w.layout, p, w.focused.value, panel.id, o, false);
  }

  /** Without a focus the whole tree becomes the first side of a split. */
  lemma AddedBesideAll(w: Workspace, panel: Panel, o: Orientation)
    requires w.focused.None?
    ensures AddPanel(w, panel, o) ==
              w.(panels := w.panels[panel.id := panel], previous := None, focused := Some(panel.id),
                 layout := Split(o, 0.5, w.layout, Pane([panel.id], Some(panel.id))))
  {
  }

  /** What the panes of a tree are to a panel: which tabs share its pane, and which of them is shown. */
  ghost predicate SameView(n: Node, m: Node, x: Id) {
    PaneOf(m, x) == PaneOf(n, x) && Shown(m, x) == Shown(n, x)
  }

  /** Replacing the pane at `p` by a tree that holds the pane's tabs as one pane, and one panel more, is not seen from
      any other panel. */
  lemma {:induction false} InsertionIsUnseen(n: Node, target: Id, id: Id, o: Orientation, newFirst: bool, x: Id)
    requires Distinct(PanelIds(n)) && target in PanelIds(n) && id !in PanelIds(n) && x in PanelIds(n)
    ensures SameView(n, InsertBeside(n, target, id, o, newFirst), x)
  {
    if n.Split? {
      DistinctSides(n);
      var side := if target in PanelIds(n.first) then n.first else n.second;
      InsertAddsOneId(side, target, id, o, newFirst);
      PaneOfMember(n.first, x);
      PaneOfMember(InsertBeside(n.first, target, id, o, newFirst), x);
      if x in PanelIds(side) {
        InsertionIsUnseen(side, target, id, o, newFirst, x);
      }
    }
  }

  /** The focused pane keeps its tabs; the new panel is alone in a pane that navigation from the focused one finds, to
      the right of it or below it; and every other panel sees the pane it saw. */
  lemma AddedIsFoundFromFocus(w: Workspace, panel: Panel, o: Orientation, x: Id)
    requires Consistent(w) && panel.id !in w.panels && w.focused.Some? && x in w.panels
    ensures
      var n, m := w.layout, AddPanel(w, panel, o).layout;
      && PaneOf(m, panel.id) == Some([panel.id]) && Shown(m, panel.id) == Some(panel.id)
      && Neighbor(m, w.focused.value, Onward(o)) == Some(panel.id)
      && SameView(n, m, x)
  {
    var n, f := w.layout, w.focused.value;
    InsertedSitsAlone(n, f, panel.id, o, false);
    InsertedIsNeighbor(n, f, panel.id, o, Onward(o));
    InsertionIsUnseen(n, f, panel.id, o, false, x);
    NewcomerIsShown(n, f, panel.id, o, false);
  }

  lemma {:induction false} NewcomerIsShown(n: Node, target: Id, id: Id, o: Orientation, newFirst: bool)
    requires target in PanelIds(n) && id !in PanelIds(n)
    ensures Shown(InsertBeside(n, target, id, o, newFirst), id) == Some(id)
  {
    if n.Split? {
      var side := if target in PanelIds(n.first) then n.first else n.second;
      NewcomerIsShown(side, target, id, o, newFirst);
      if target in PanelIds(side) {
        InsertAddsOneId(side, target, id, o, newFirst);
      }
    }
  }

  /** As rectangles: the new panel has the second half of the focused pane's region, along the orientation asked for,
      the focused pane the first; the region of every other pane is as it was. */
  lemma AddedHalvesFocusedRegion(w: Workspace, panel: Panel, o: Orientation, r: Rect, x: Id)
    requires Consistent(w) && panel.id !in w.panels && w.focused.Some? && x in w.panels
    requires ProperDividers(w.layout) && Solid(r)
    ensures
      var n, m, f := w.layout, AddPanel(w, panel, o).layout, w.focused.value;
      && ProperDividers(m) && f in PanelIds(m) && panel.id in PanelIds(m) && x in PanelIds(m)
      && Halved(Region(n, r, f), Region(m, r, f), Region(m, r, panel.id), o)
      && PaneOf(n, f).Some?
      && Region(m, r, x) == if x in PaneOf(n, f).value then Region(m, r, f) else Region(n, r, x)
  {
    InsertionHalvesTheRegion(w.layout, r, w.focused.value, panel.id, o, false);
    InsertionLeavesOtherRegions(w.layout, r, w.focused.value, panel.id, o, false, x);
  }

  // ----- tabs

  /** A tab added goes right after its target in the target's pane, which shows it; it gets the focus, and everything
      else stays. */
  lemma TabbedAfterTarget(w: Workspace, target: Id, panel: Panel) returns (p: Path, k: nat)
    requires Consistent(w) && panel.id !in w.panels && target in w.panels
    ensures HoldsAt(w.layout, p, target) && k < |PaneAt(w.layout, p).ids| && PaneAt(w.layout, p).ids[k] == target
    ensures
      var ids := PaneAt(w.layout, p).ids;
      AddTab(w, target, panel) ==
        w.(panels := w.panels[panel.id := panel], previous := w.focused, focused := Some(panel.id),
           layout := WithNode(w.layout, p, Pane(ids[..k + 1] + [panel.id] + ids[k + 1..], Some(panel.id))))
  {
    p := PlaceOf(w.layout, target);
    k :| 0 <= k < |PaneAt(w.layout, p).ids| && PaneAt(w.layout, p).ids[k] == target;
    TabAddedAt(w.layout, p, target, panel.id, k);
  }

  /** A surface is a tab after the focused one, or, in an emptied workspace, the only pane. */
  lemma SurfaceIsTabAfterFocus(w: Workspace, panel: Panel)
    requires Consistent(w) && panel.id !in w.panels
    ensures AddSurface(w, panel) ==
              if w.focused.Some? then AddTab(w, w.focused.value, panel)
              else w.(panels := w.panels[panel.id := panel], previous := None, focused := Some(panel.id),
                      layout := Pane([panel.id], Some(panel.id)))
  {
  }

  /** A markdown panel is a split of the focused pane if one is asked for, or else a tab after the focused one. */
  lemma MarkdownIsSplitOrTab(w: Workspace, panel: Panel, split: Option<Orientation>)
    requires Consistent(w) && panel.id !in w.panels && w.focused.Some?
    ensures AddMarkdown(w, panel, split) ==
              if split.Some? then AddPanel(w, panel, split.value) else AddTab(w, w.focused.value, panel)
  {
  }

  // ----- removing, focusing, dragging

  /** Removing a panel leaves the focus where it is, unless it was on that panel; then it goes to the first one left.
      All else but map and tree stays. Detaching clears the marks on the panel, too. */
  lemma FocusAfterRemoval(w: Workspace, id: Id)
    requires Consistent(w) && id in w.panels
    ensures
      var v, u := RemovePanel(w, id), DetachPanel(w, id);
      && v == w.(panels := w.panels - {id}, layout := v.layout, focused := v.focused)
      && v.layout == Remove(w.layout, id) == u.layout
      && (w.focused != Some(id) ==> v.focused == w.focused)
      && (w.focused == Some(id) ==> v.focused == if PanelIds(v.layout) == [] then None else Some(PanelIds(v.layout)[0]))
      && u == v.(previous := u.previous, zoomed := u.zoomed)
      && u.previous == (if w.previous == Some(id) then None else w.previous)
      && u.zoomed == (if w.zoomed == Some(id) then None else w.zoomed)
  {
  }

  /** Focusing a panel changes what its pane shows, the focus, and, if the focus moves, the previous focus. */
  lemma FocusShowsPanel(w: Workspace, id: Id) returns (p: Path)
    requires Consistent(w) && id in w.panels
    ensures HoldsAt(w.layout, p, id)
    ensures FocusPanel(w, id) ==
              w.(layout := WithNode(w.layout, p, Pane(PaneAt(w.layout, p).ids, Some(id))), focused := Some(id),
                 previous := if w.focused == Some(id) then w.previous else w.focused)
  {
    p := PlaceOf(w.layout, id);
    SelectedAt(w.layout, p, id);
  }

  lemma {:induction false} FirstOtherIs(ids: seq<Id>, id: Id)
    requires Distinct(ids)
    ensures FirstOther(ids, id) ==
              if ids == [] || ids == [id] then None else if ids[0] != id then Some(ids[0]) else Some(ids[1])
  {
    if ids != [] && ids[0] == id && |ids| > 1 {
      assert ids[1] != id;
      assert Filter(ids, x => x != id) == Filter(ids[1..], x => x != id);
    }
  }

  /** A panel is dragged beside the focused one; the focused one itself beside the first other one in the tree. */
  lemma DraggedBeside(w: Workspace, id: Id)
    requires Consistent(w) && id in w.panels && PanelIds(w.layout) != [id]
    ensures
      var ids := PanelIds(w.layout);
      && CanDrag(w, id) && |ids| > 1
      && DragTarget(w, id).value ==
         if w.focused != Some(id) then w.focused.value else if ids[0] != id then ids[0] else ids[1]
  {
    assert id in PanelIds(w.layout);
    FirstOtherIs(PanelIds(w.layout), id);
  }

  /** Dragging takes the panel out of the tree, and then replaces the target's pane by a split of that pane and one that
      holds the panel, on the side the direction points to; map and marks other than the focus stay. */
  lemma DraggedAt(w: Workspace, id: Id, d: Direction) returns (p: Path)
    requires Consistent(w) && CanDrag(w, id)
    ensures HoldsAt(Remove(w.layout, id), p, DragTarget(w, id).value)
    ensures
      var bare, added := Remove(w.layout, id), Pane([id], Some(id));
      var pane := PaneAt(bare, p);
      DragToSplit(w, id, d) ==
        w.(previous := w.focused, focused := Some(id),
           layout := WithNode(bare, p, match d
                                       case Left => Split(Horizontal, 0.5, added, pane)
                                       case Right => Split(Horizontal, 0.5, pane, added)
                                       case Up => Split(Vertical, 0.5, added, pane)
                                       case Down => Split(Vertical, 0.5, pane, added)))
  {
    DragTargetSurvives(w, id);
    var bare, target := Remove(w.layout, id), DragTarget(w, id).value;
    p := PlaceOf(bare, target);
    InsertedAt(bare, p, target, id, AxisOf(d), !Forward(d));
  }

  // ----- closing the other tabs

  /** The pane of `x` is what is left of `tabs` when the ids go, in whatever order they go. */
  ghost predicate LeftOf(tabs: seq<Id>, ids: seq<Id>, left: seq<Id>) {
    Distinct(left) && forall y :: y in left <==> y in tabs && y !in ids
  }

  /** What dropping panels leaves in view of one that stays. */
  lemma {:induction false} DropKeepsView(w: Workspace, ids: seq<Id>, x: Id)
    requires Distinct(PanelIds(w.layout)) && x in PanelIds(w.layout) && x !in ids
    ensures
      var n, m := w.layout, DropPanels(w, ids).layout;
      && PaneOf(n, x).Some? && PaneOf(m, x).Some? && LeftOf(PaneOf(n, x).value, ids, PaneOf(m, x).value)
      && ((forall y | y in ids :: y !in PaneOf(n, x).value) ==> SameView(n, m, x))
    decreases |ids|
  {
    PaneOfMember(w.layout, x);
    PaneIsDistinct(w.layout, x);
    if ids != [] {
      var v := w.(panels := w.panels - {ids[0]}, layout := Remove(w.layout, ids[0]));
      RemoveKeepsShown(w.layout, ids[0], x);
      RemoveDeletesOneId(w.layout, ids[0]);
      RemoveFirstMembers(PanelIds(w.layout), ids[0]);
      RemoveFirstMembers(PaneOf(w.layout, x).value, ids[0]);
      RemoveFirstAbsent(PaneOf(w.layout, x).value, ids[0]);
      DropKeepsView(v, ids[1..], x);
    }
  }

  /** Closing the other tabs leaves the focused panel alone in its pane, which shows it; panels of other panes see what
      they saw. */
  lemma OtherTabsAreClosed(w: Workspace, x: Id)
    requires Consistent(w) && w.focused.Some? && x in w.panels && PaneOf(w.layout, w.focused.value).Some?
    requires x !in PaneOf(w.layout, w.focused.value).value
    ensures
      var n, m, f := w.layout, CloseOtherTabs(w).layout, w.focused.value;
      && PaneOf(m, f) == Some([f]) && Shown(m, f) == Some(f) && SameView(n, m, x)
  {
    FocusedIsAlone(w);
    var others := OtherTabs(w);
    PaneOfMember(w.layout, x);
    SamePaneBothWays(w.layout, w.focused.value, x);
    DropKeepsView(w, others, x);
  }

  lemma SelectionsStay(w: Workspace)
    requires Consistent(w)
    ensures SelectionsInPanes(CloseOtherTabs(w).layout)
  {
    CloseOtherTabsKeepsConsistent(w);
  }

  lemma FocusedIsAlone(w: Workspace)
    requires Consistent(w) && w.focused.Some?
    ensures
      var m, f := CloseOtherTabs(w).layout, w.focused.value;
      PaneOf(m, f) == Some([f]) && Shown(m, f) == Some(f)
  {
    AloneInPane(w);
    SelectionsStay(w);
    ShownInOnly(CloseOtherTabs(w).layout, w.focused.value);
  }

  lemma AloneInPane(w: Workspace)
    requires Consistent(w) && w.focused.Some?
    ensures PaneOf(CloseOtherTabs(w).layout, w.focused.value) == Some([w.focused.value])
  {
    var f := w.focused.value;
    var others := OtherTabs(w);
    PaneOfMember(w.layout, f);
    var m := DropPanels(w, others).layout;
    DropKeepsView(w, others, f);
    OnlyOneLeft(PaneOf(w.layout, f).value, others, PaneOf(m, f).value, f);
  }

  lemma OnlyOneLeft(tabs: seq<Id>, others: seq<Id>, left: seq<Id>, x: Id)
    requires LeftOf(tabs, others, left) && x in tabs && forall y :: y in others <==> y in tabs && y != x
    ensures left == [x]
  {
    assert x in left;
    forall y | y in left ensures y == x {
      assert y in tabs && y !in others;
    }
    assert left[0] in left && left[|left| - 1] in left;
    assert left[0] == left[|left| - 1];
  }

  lemma ShownInOnly(n: Node, x: Id)
    requires SelectionsInPanes(n) && PaneOf(n, x) == Some([x])
    ensures Shown(n, x) == Some(x)
  {
    PaneOfMember(n, x);
    ShownIsMember(n, x);
  }

  /** What a pane shows is one of its tabs. */
  lemma {:induction false} ShownIsMember(n: Node, x: Id)
    requires SelectionsInPanes(n) && x in PanelIds(n)
    ensures PaneOf(n, x).Some? && Shown(n, x).Some? && Shown(n, x).value in PaneOf(n, x).value
  {
    if n.Split? {
      PaneOfMember(n.first, x);
      ShownIsMember(if x in PanelIds(n.first) then n.first else n.second, x);
    }
  }

  /** Sharing a pane is mutual. */
  lemma {:induction false} SamePaneBothWays(n: Node, x: Id, y: Id)
    requires Distinct(PanelIds(n)) && PaneOf(n, x).Some? && PaneOf(n, y).Some?
    ensures y in PaneOf(n, x).value <==> PaneOf(n, x) == PaneOf(n, y)
    ensures forall z | z in PaneOf(n, x).value && z in PaneOf(n, y).value :: PaneOf(n, x) == PaneOf(n, y)
  {
    PaneOfMember(n, x);
    PaneOfMember(n, y);
    if n.Split? {
      DistinctSides(n);
      PaneOfMember(n.first, x);
      PaneOfMember(n.first, y);
      PaneOfMember(n.second, x);
      PaneOfMember(n.second, y);
      if PaneOf(n.first, x).Some? && PaneOf(n.first, y).Some? {
        SamePaneBothWays(n.first, x, y);
      } else if PaneOf(n.first, x).None? && PaneOf(n.first, y).None? {
        SamePaneBothWays(n.second, x, y);
      }
    }
  }
}
