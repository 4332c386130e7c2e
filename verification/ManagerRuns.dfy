/** Panels crossing workspaces, and every run of manager steps. */
module ManagerRuns {
  import opened Common
  import opened Layout
  import opened Retiling
  import opened Tabs
  import opened WorkspaceModel
  import opened ManagerModel
  import opened ManagerLaws

  // ----- the panels of all workspaces

  ghost function Bag(ws: seq<Workspace>): multiset<(Id, Panel)> {
    if ws == [] then multiset{} else multiset(ws[0].panels.Items) + Bag(ws[1..])
  }

  lemma {:induction false} BagConcat(a: seq<Workspace>, b: seq<Workspace>)
    ensures Bag(a + b) == Bag(a) + Bag(b)
  {
    if a == [] {
      assert a + b == b;
    } else {
      assert (a + b)[1..] == a[1..] + b;
      BagConcat(a[1..], b);
    }
  }

  lemma BagCons(w: Workspace, b: seq<Workspace>)
    ensures Bag([w] + b) == multiset(w.panels.Items) + Bag(b)
  {
    assert ([w] + b)[1..] == b;
  }

  lemma BagOfOne(w: Workspace)
    ensures Bag([w]) == multiset(w.panels.Items)
  {
    assert [w] + [] == [w];
    BagCons(w, []);
  }

  lemma BagSplit(ws: seq<Workspace>, k: nat)
    requires k < |ws|
    ensures Bag(ws) == Bag(RemoveAt(ws, k)) + multiset(ws[k].panels.Items)
  {
    SplitAround(ws, k);
    BagAround(ws[..k], ws[k], ws[k + 1..]);
  }

  lemma SplitAround<T>(s: seq<T>, k: nat)
    requires k < |s|
    ensures s == s[..k] + ([s[k]] + s[k + 1..]) && RemoveAt(s, k) == s[..k] + s[k + 1..]
  {
  }

  lemma BagAround(a: seq<Workspace>, w: Workspace, b: seq<Workspace>)
    ensures Bag(a + ([w] + b)) == Bag(a + b) + multiset(w.panels.Items)
  {
    BagConcat(a, [w] + b);
    BagCons(w, b);
    BagConcat(a, b);
    Shuffle(Bag(a), multiset(w.panels.Items), Bag(b));
  }

  lemma Shuffle<T>(a: multiset<T>, b: multiset<T>, c: multiset<T>)
    ensures a + (b + c) == (a + c) + b
  {
  }

  lemma BagReplace(ws: seq<Workspace>, k: nat, w: Workspace)
    requires k < |ws|
    ensures Bag(ws[k := w]) == Bag(RemoveAt(ws, k)) + multiset(w.panels.Items)
  {
    BagSplit(ws[k := w], k);
    assert RemoveAt(ws[k := w], k) == RemoveAt(ws, k);
  }

  lemma ItemsWithout(panels: map<Id, Panel>, id: Id)
    requires id in panels
    ensures multiset(panels.Items) == multiset((panels - {id}).Items) + multiset{(id, panels[id])}
  {
    var rest, e := panels - {id}, (id, panels[id]);
    assert e !in rest.Items;
    forall x ensures x in panels.Items <==> x in rest.Items + {e} {
      assert x in rest.Items <==> x.0 in rest && rest[x.0] == x.1;
      assert x in panels.Items <==> x.0 in panels && panels[x.0] == x.1;
    }
    assert panels.Items == rest.Items + {e};
  }

  lemma ItemsWith(panels: map<Id, Panel>, panel: Panel)
    requires panel.id !in panels
    ensures multiset(panels[panel.id := panel].Items) == multiset(panels.Items) + multiset{(panel.id, panel)}
  {
    var more := panels[panel.id := panel];
    assert more - {panel.id} == panels;
    ItemsWithout(more, panel.id);
  }

  // ----- moving a panel to another workspace

  lemma DetachedIsSound(m: Manager, i: nat, panelId: Id)
    requires Invariant(m) && i < |m.workspaces| && panelId in m.workspaces[i].panels
    ensures
      var w := m.workspaces[i];
      var left := DetachPanel(w, panelId);
      var kept := Detached(m, i, panelId);
      && Invariant(kept) && FreshPanel(kept, panelId)
      && kept.workspaces == (if left.panels == map[] then RemoveAt(m.workspaces, i) else m.workspaces[i := left])
      && (w.panels.Keys != {panelId} <==> left.panels != map[])
  {
    var w := m.workspaces[i];
    var left := DetachPanel(w, panelId);
    DetachPanelKeepsConsistent(w, panelId);
    DetachReplacementIsSound(m, i, panelId);
    var detached := m.(workspaces := m.workspaces[i := left]);
    FoundById(detached.workspaces, i);
    RemoveKeepsSelection(detached, i);
    assert RemoveAt(detached.workspaces, i) == RemoveAt(m.workspaces, i);
    OnlyPanel(w.panels, panelId);
    forall v | v in Detached(m, i, panelId).workspaces ensures panelId !in v.panels {
      if v != left {
        var j :| 0 <= j < |m.workspaces| && j != i && m.workspaces[j] == v;
        OthersAreApart(m.workspaces, i, j);
      }
    }
  }

  lemma OnlyPanel(panels: map<Id, Panel>, id: Id)
    requires id in panels
    ensures panels - {id} == map[] <==> panels.Keys == {id}
  {
    if panels.Keys != {id} {
      var x :| x in panels && x != id;
      assert x in panels - {id};
    }
  }

  lemma DetachedBag(m: Manager, i: nat, panelId: Id)
    requires Invariant(m) && i < |m.workspaces| && panelId in m.workspaces[i].panels
    ensures Bag(m.workspaces) ==
            Bag(Detached(m, i, panelId).workspaces) + multiset{(panelId, m.workspaces[i].panels[panelId])}
  {
    var left := DetachPanel(m.workspaces[i], panelId);
    DetachedIsSound(m, i, panelId);
    ItemsWithout(m.workspaces[i].panels, panelId);
    BagSplit(m.workspaces, i);
    if left.panels == map[] {
      assert multiset(left.panels.Items) == multiset{};
    } else {
      BagReplace(m.workspaces, i, left);
    }
  }

  lemma AddedIsSound(m: Manager, t: nat, panel: Panel, o: Orientation)
    requires Invariant(m) && t < |m.workspaces| && FreshPanel(m, panel.id)
    ensures Invariant(m.(workspaces := m.workspaces[t := AddPanel(m.workspaces[t], panel, o)]))
  {
    var w := m.workspaces[t];
    AddPanelKeepsConsistent(w, panel, o);
    forall j | 0 <= j < |m.workspaces| && j != t
      ensures m.workspaces[j].panels.Keys !! AddPanel(w, panel, o).panels.Keys
    {
      OthersAreApart(m.workspaces, t, j);
    }
    ReplacementIsSound(m.workspaces, t, AddPanel(w, panel, o));
  }

  lemma AddedBag(ws: seq<Workspace>, t: nat, panel: Panel, o: Orientation)
    requires t < |ws| && panel.id !in ws[t].panels
    ensures Bag(ws[t := AddPanel(ws[t], panel, o)]) == Bag(ws) + multiset{(panel.id, panel)}
  {
    BagReplace(ws, t, AddPanel(ws[t], panel, o));
    BagSplit(ws, t);
    ItemsWith(ws[t].panels, panel);
  }

  lemma RemoveAtLeaves<T>(s: seq<T>, i: nat, j: nat)
    requires i < |s| && j < |s| && i != j
    ensures s[j] in RemoveAt(s, i)
  {
    assert RemoveAt(s, i)[if j < i then j else j - 1] == s[j];
  }

  /** The move in terms of its two halves: which workspace gives the panel, which takes it. */
  lemma MovePanelHalves(m: Manager, panelId: Id, target: Id)
    requires Invariant(m)
    ensures
      var i := IndexWithPanel(m.workspaces, panelId);
      if i.None? || m.workspaces[i.value].id == target || IndexOfId(m.workspaces, target).None?
      then MovePanel(m, panelId, target) == (m, None)
      else
        var kept := Detached(m, i.value, panelId);
        var t := IndexOfId(kept.workspaces, target);
        && t.Some?
        && MovePanel(m, panelId, target) ==
           (kept.(workspaces := kept.workspaces[t.value :=
              AddPanel(kept.workspaces[t.value], m.workspaces[i.value].panels[panelId], Horizontal)]), Some(target))
  {
    var i := IndexWithPanel(m.workspaces, panelId);
    if i.Some? && m.workspaces[i.value].id != target && IndexOfId(m.workspaces, target).Some? {
      FoundById(m.workspaces, i.value);
      DetachedIsSound(m, i.value, panelId);
      var kept := Detached(m, i.value, panelId).workspaces;
      var t := IndexOfId(m.workspaces, target).value;
      RemoveAtLeaves(m.workspaces, i.value, t);
      assert kept == RemoveAt(m.workspaces, i.value) || kept[t] == m.workspaces[t];
      assert m.workspaces[t] in kept;
    }
  }

  ghost predicate Movable(m: Manager, panelId: Id, target: Id) {
    && IndexWithPanel(m.workspaces, panelId).Some?
    && m.workspaces[IndexWithPanel(m.workspaces, panelId).value].id != target
    && IndexOfId(m.workspaces, target).Some?
  }

  lemma MovePanelSound(m: Manager, panelId: Id, target: Id)
    requires Invariant(m) && Movable(m, panelId, target)
    ensures Invariant(MovePanel(m, panelId, target).0)
    ensures Bag(MovePanel(m, panelId, target).0.workspaces) == Bag(m.workspaces)
  {
    MovePanelHalves(m, panelId, target);
    var i := IndexWithPanel(m.workspaces, panelId).value;
    var kept := Detached(m, i, panelId);
    var t := IndexOfId(kept.workspaces, target).value;
    var panel := m.workspaces[i].panels[panelId];
    assert Consistent(m.workspaces[i]) && panel.id == panelId;
    DetachedIsSound(m, i, panelId);
    DetachedBag(m, i, panelId);
    AddedIsSound(kept, t, panel, Horizontal);
    assert kept.workspaces[t] in kept.workspaces;
    AddedBag(kept.workspaces, t, panel, Horizontal);
  }

  /** Moving a panel is all or nothing. The call fails exactly when no workspace holds the panel, its workspace is
      the target, or there is no target; then nothing changes. In any case no panel is lost or doubled. */
  lemma MovePanelIsAllOrNothing(m: Manager, panelId: Id, target: Id)
    requires Invariant(m)
    ensures MovePanel(m, panelId, target).1 == if Movable(m, panelId, target) then Some(target) else None
    ensures !Movable(m, panelId, target) ==> MovePanel(m, panelId, target).0 == m
    ensures Invariant(MovePanel(m, panelId, target).0)
    ensures Bag(MovePanel(m, panelId, target).0.workspaces) == Bag(m.workspaces)
  {
    MovePanelHalves(m, panelId, target);
    if Movable(m, panelId, target) { MovePanelSound(m, panelId, target); }
  }

  lemma MovedPanelIsFocused(m: Manager, panelId: Id, target: Id)
    requires Invariant(m) && Movable(m, panelId, target)
    ensures
      var v := MovePanel(m, panelId, target).0;
      exists w :: w in v.workspaces && w.id == target && panelId in w.panels && w.focused == Some(panelId)
  {
    MovePanelHalves(m, panelId, target);
    var i := IndexWithPanel(m.workspaces, panelId).value;
    var t := IndexOfId(Detached(m, i, panelId).workspaces, target).value;
    assert Consistent(m.workspaces[i]);
    assert MovePanel(m, panelId, target).0.workspaces[t] in MovePanel(m, panelId, target).0.workspaces;
  }

  /** A moved panel is focused in the target, and its source goes exactly when the panel was its last. */
  lemma MovedPanelArrives(m: Manager, panelId: Id, target: Id)
    requires Invariant(m) && Movable(m, panelId, target)
    ensures
      var v := MovePanel(m, panelId, target).0;
      var source := m.workspaces[IndexWithPanel(m.workspaces, panelId).value];
      && (exists w :: w in v.workspaces && w.id == target && panelId in w.panels && w.focused == Some(panelId))
      && (IndexOfId(v.workspaces, source.id).None? <==> source.panels.Keys == {panelId})
      && |v.workspaces| == if source.panels.Keys == {panelId} then |m.workspaces| - 1 else |m.workspaces|
  {
    MovedPanelIsFocused(m, panelId, target);
    MovePanelHalves(m, panelId, target);
    var i := IndexWithPanel(m.workspaces, panelId).value;
    var t := IndexOfId(Detached(m, i, panelId).workspaces, target).value;
    DetachedIsSound(m, i, panelId);
    SourceGoesWhenEmptied(m, i, panelId, MovePanel(m, panelId, target).0, t);
  }

  /** A move changes its source and its target, and no other workspace: the panel is detached from the one and added to
      the right of the other's focus; a source left empty goes, and all others stay in place. */
  lemma MoveChangesTwo(m: Manager, panelId: Id, target: Id, i: nat, t: nat)
    requires Invariant(m) && i < |m.workspaces| && t < |m.workspaces| && i != t
    requires panelId in m.workspaces[i].panels && m.workspaces[t].id == target
    ensures
      var ws := m.workspaces;
      var left, grown := DetachPanel(ws[i], panelId), AddPanel(ws[t], ws[i].panels[panelId], Horizontal);
      MovePanel(m, panelId, target).0.workspaces ==
        if left.panels == map[] then RemoveAt(ws[i := left][t := grown], i) else ws[i := left][t := grown]
  {
    var ws := m.workspaces;
    FoundById(ws, t);
    HolderIsFound(ws, i, panelId);
    OthersAreApart(ws, i, t);
    MovePanelHalves(m, panelId, target);
    TargetIsLeft(m, panelId, i, t);
    RemoveThenReplace(ws[i := DetachPanel(ws[i], panelId)], i, t, AddPanel(ws[t], ws[i].panels[panelId], Horizontal));
  }

  /** After a panel left its workspace, every other workspace is found by its id. */
  lemma TargetIsLeft(m: Manager, panelId: Id, i: nat, t: nat)
    requires Invariant(m) && i < |m.workspaces| && t < |m.workspaces| && i != t
    requires panelId in m.workspaces[i].panels
    ensures
      var ws, left := m.workspaces, DetachPanel(m.workspaces[i], panelId);
      var kept, gone := Detached(m, i, panelId).workspaces, left.panels == map[];
      var s := if gone && t > i then t - 1 else t;
      && kept == (if gone then RemoveAt(ws[i := left], i) else ws[i := left])
      && s < |kept| && kept[s] == ws[t] && IndexOfId(kept, ws[t].id) == Some(s)
  {
    var ws, left := m.workspaces, DetachPanel(m.workspaces[i], panelId);
    DetachedIsSound(m, i, panelId);
    RemoveForgets(ws, i, left);
    PlaceAfterRemoval(ws, i, t);
    FoundById(Detached(m, i, panelId).workspaces, if left.panels == map[] && t > i then t - 1 else t);
  }

  lemma RemoveForgets<T>(s: seq<T>, i: nat, x: T)
    requires i < |s|
    ensures RemoveAt(s[i := x], i) == RemoveAt(s, i)
  {
  }

  lemma PlaceAfterRemoval<T>(s: seq<T>, i: nat, t: nat)
    requires i < |s| && t < |s| && i != t
    ensures |RemoveAt(s, i)| == |s| - 1 && RemoveAt(s, i)[if t > i then t - 1 else t] == s[t]
  {
  }

  /** After a move the selection is where it was, or where removing the emptied source puts it. */
  lemma MoveSelects(m: Manager, panelId: Id, target: Id)
    requires Invariant(m) && Movable(m, panelId, target)
    ensures
      var i := IndexWithPanel(m.workspaces, panelId).value;
      MovePanel(m, panelId, target).0.selected ==
        if m.workspaces[i].panels.Keys == {panelId} then RemoveIndex(m, i).selected else m.selected
  {
    var i := IndexWithPanel(m.workspaces, panelId).value;
    MovePanelHalves(m, panelId, target);
    DetachedSelects(m, i, panelId);
  }

  lemma DetachedSelects(m: Manager, i: nat, panelId: Id)
    requires Invariant(m) && i < |m.workspaces| && panelId in m.workspaces[i].panels
    ensures Detached(m, i, panelId).selected ==
              if m.workspaces[i].panels.Keys == {panelId} then RemoveIndex(m, i).selected else m.selected
  {
    var left := DetachPanel(m.workspaces[i], panelId);
    OnlyPanel(m.workspaces[i].panels, panelId);
    DetachPanelKeepsConsistent(m.workspaces[i], panelId);
    DetachReplacementIsSound(m, i, panelId);
    FoundById(m.workspaces[i := left], i);
    RemoveForgets(m.workspaces, i, left);
  }

  lemma RemoveThenReplace<T>(s: seq<T>, i: nat, t: nat, x: T)
    requires i < |s| && t < |s| && i != t
    ensures RemoveAt(s[t := x], i) == RemoveAt(s, i)[if t > i then t - 1 else t := x]
  {
  }

  /** A panel is found where it is. */
  lemma HolderIsFound(ws: seq<Workspace>, i: nat, panelId: Id)
    requires Sound(ws) && i < |ws| && panelId in ws[i].panels
    ensures IndexWithPanel(ws, panelId) == Some(i)
  {
    var k := IndexWithPanel(ws, panelId).value;
    OthersAreApart(ws, i, k);
  }

  /** Closing a panel wherever it is changes its workspace, and no other. */
  lemma CloseChangesHolder(m: Manager, panelId: Id, i: nat)
    requires Invariant(m)
    ensures i < |m.workspaces| && panelId in m.workspaces[i].panels ==>
              ClosePanel(m, panelId) == m.(workspaces := m.workspaces[i := RemovePanel(m.workspaces[i], panelId)])
    ensures (forall w | w in m.workspaces :: panelId !in w.panels) ==> ClosePanel(m, panelId) == m
  {
    if i < |m.workspaces| && panelId in m.workspaces[i].panels {
      HolderIsFound(m.workspaces, i, panelId);
    }
  }

  lemma SameIdsFound(a: seq<Workspace>, b: seq<Workspace>, id: Id)
    requires |a| == |b| && forall j | 0 <= j < |a| :: a[j].id == b[j].id
    ensures IndexOfId(a, id).None? <==> IndexOfId(b, id).None?
  {
  }

  /** After a detachment the source is in the list exactly if it still holds a panel. */
  lemma SourceStaysUnlessEmptied(m: Manager, i: nat, panelId: Id)
    requires Invariant(m) && i < |m.workspaces| && panelId in m.workspaces[i].panels
    ensures IndexOfId(Detached(m, i, panelId).workspaces, m.workspaces[i].id).None? <==>
              m.workspaces[i].panels.Keys == {panelId}
  {
    DetachedIsSound(m, i, panelId);
    if m.workspaces[i].panels.Keys == {panelId} {
      RemovedIsGone(m.workspaces, i);
    } else {
      var kept := Detached(m, i, panelId).workspaces;
      assert kept[i].id == m.workspaces[i].id;
    }
  }

  lemma RemovedIsGone(ws: seq<Workspace>, i: nat)
    requires Sound(ws) && i < |ws|
    ensures IndexOfId(RemoveAt(ws, i), ws[i].id).None?
  {
    RemovalIsSound(ws, i);
    var rest := RemoveAt(ws, i);
    assert forall j | 0 <= j < |rest| :: rest[j] in rest;
  }

  lemma SourceGoesWhenEmptied(m: Manager, i: nat, panelId: Id, v: Manager, t: nat)
    requires Invariant(m) && i < |m.workspaces| && panelId in m.workspaces[i].panels
    requires var kept := Detached(m, i, panelId).workspaces;
             t < |kept| && |v.workspaces| == |kept| && v.workspaces[t].id == kept[t].id
             && forall j | 0 <= j < |kept| && j != t :: v.workspaces[j] == kept[j]
    ensures IndexOfId(v.workspaces, m.workspaces[i].id).None? <==> m.workspaces[i].panels.Keys == {panelId}
  {
    SourceStaysUnlessEmptied(m, i, panelId);
    SameIdsFound(v.workspaces, Detached(m, i, panelId).workspaces, m.workspaces[i].id);
  }

  /** Unless the selected workspace was emptied by the move, it stays selected. */
  lemma MovePanelKeepsSelection(m: Manager, panelId: Id, target: Id)
    requires Invariant(m) && m.workspaces != []
    requires m.workspaces[m.selected.value].panels.Keys != {panelId}
    ensures SelectedId(MovePanel(m, panelId, target).0) == SelectedId(m)
  {
    MovePanelHalves(m, panelId, target);
    if Movable(m, panelId, target) {
      var i := IndexWithPanel(m.workspaces, panelId).value;
      DetachedKeepsSelection(m, i, panelId);
      var kept := Detached(m, i, panelId);
      var t := IndexOfId(kept.workspaces, target).value;
      ReplacementKeepsSelection(kept, t, AddPanel(kept.workspaces[t], m.workspaces[i].panels[panelId], Horizontal));
    }
  }

  lemma ReplacementKeepsSelection(m: Manager, t: nat, w: Workspace)
    requires t < |m.workspaces| && w.id == m.workspaces[t].id
    ensures SelectedId(m.(workspaces := m.workspaces[t := w])) == SelectedId(m)
  {
  }

  lemma DetachedKeepsSelection(m: Manager, i: nat, panelId: Id)
    requires Invariant(m) && i < |m.workspaces| && panelId in m.workspaces[i].panels
    requires m.workspaces[m.selected.value].panels.Keys != {panelId}
    ensures SelectedId(Detached(m, i, panelId)) == SelectedId(m)
  {
    var left := DetachPanel(m.workspaces[i], panelId);
    var detached := m.(workspaces := m.workspaces[i := left]);
    DetachPanelKeepsConsistent(m.workspaces[i], panelId);
    DetachReplacementIsSound(m, i, panelId);
    FoundById(detached.workspaces, i);
    OnlyPanel(m.workspaces[i].panels, panelId);
    RemoveKeepsSelection(detached, i);
  }

  lemma DetachReplacementIsSound(m: Manager, i: nat, panelId: Id)
    requires Invariant(m) && i < |m.workspaces|
    ensures Invariant(m.(workspaces := m.workspaces[i := DetachPanel(m.workspaces[i], panelId)]))
  {
    var left := DetachPanel(m.workspaces[i], panelId);
    DetachPanelKeepsConsistent(m.workspaces[i], panelId);
    forall j | 0 <= j < |m.workspaces| && j != i ensures m.workspaces[j].panels.Keys !! left.panels.Keys {
      OthersAreApart(m.workspaces, i, j);
    }
    ReplacementIsSound(m.workspaces, i, left);
  }

  // ----- breaking a panel out

  lemma PlacedAtEnd(m: Manager, w: Workspace)
    requires Invariant(m) && Consistent(w) && forall v | v in m.workspaces :: Apart(v, w)
    ensures Invariant(Manager(m.workspaces + [w], Some(|m.workspaces|)))
    ensures Bag(m.workspaces + [w]) == Bag(m.workspaces) + multiset(w.panels.Items)
  {
    assert Sound([w]);
    SoundParts(m.workspaces, [w]);
    BagConcat(m.workspaces, [w]);
    BagOfOne(w);
  }

  ghost predicate Breakable(m: Manager) {
    && m.selected.Some? && m.selected.value < |m.workspaces|
    && |m.workspaces[m.selected.value].panels| > 1
  }

  /** Breaking out detaches the focused panel of the selected workspace and appends a workspace of its own for it, which
      is selected; no other workspace changes. */
  lemma BreakPaneHalves(m: Manager, newId: Id)
    requires Invariant(m) && Breakable(m)
    ensures
      var w := m.workspaces[m.selected.value];
      && w.focused.Some? && w.focused.value in w.panels
      && DetachPanel(w, w.focused.value).panels != map[]
      && var kept := m.workspaces[m.selected.value := DetachPanel(w, w.focused.value)];
         BreakPane(m, newId) ==
         Manager(kept + [Holding(newId, w.panels[w.focused.value], w.directory)], Some(|kept|))
  {
    var w := m.workspaces[m.selected.value];
    assert Consistent(w);
    assert w.panels[w.focused.value].id == w.focused.value;
    OnlyPanel(w.panels, w.focused.value);
    assert w.panels.Keys == {w.focused.value} ==> |w.panels.Keys| == 1;
    DetachPanelKeepsConsistent(w, w.focused.value);
  }

  lemma BrokenOutIsApart(ws: seq<Workspace>, alone: Workspace)
    requires (forall v | v in ws :: v.id != alone.id && alone.focused.Some? && alone.focused.value !in v.panels)
    requires alone.focused.Some? && alone.panels.Keys == {alone.focused.value}
    ensures forall v | v in ws :: Apart(v, alone)
  {
  }

  lemma ItemsOfOne(panel: Panel)
    ensures multiset(map[panel.id := panel].Items) == multiset{(panel.id, panel)}
  {
    var none: map<Id, Panel> := map[];
    ItemsWith(none, panel);
    assert none[panel.id := panel] == map[panel.id := panel];
    assert none.Items == {};
  }

  lemma BreakPaneBag(m: Manager, newId: Id)
    requires Invariant(m)
    ensures Bag(BreakPane(m, newId).workspaces) == Bag(m.workspaces)
  {
    if Breakable(m) {
      BreakPaneHalves(m, newId);
      var i := m.selected.value;
      var w := m.workspaces[i];
      var panel := w.panels[w.focused.value];
      assert Consistent(w);
      DetachedIsSound(m, i, w.focused.value);
      DetachedBag(m, i, w.focused.value);
      BagConcat(Detached(m, i, w.focused.value).workspaces, [Holding(newId, panel, w.directory)]);
      BagOfOne(Holding(newId, panel, w.directory));
      ItemsOfOne(panel);
    }
  }

  /** Breaking out happens exactly when the selected workspace holds several panels; it moves the focused one
      to a new, selected workspace, and the workspace it came from always stays. */
  lemma BreakPaneMovesFocused(m: Manager, newId: Id)
    requires Invariant(m) && FreshWorkspace(m, newId)
    ensures Invariant(BreakPane(m, newId))
    ensures !Breakable(m) ==> BreakPane(m, newId) == m
    ensures Breakable(m) ==>
              && |BreakPane(m, newId).workspaces| == |m.workspaces| + 1
              && SelectedId(BreakPane(m, newId)) == Some(newId)
              && m.workspaces[m.selected.value].focused.Some?
              && BreakPane(m, newId).workspaces[|m.workspaces|].panels.Keys
                 == {m.workspaces[m.selected.value].focused.value}
  {
    if Breakable(m) {
      BreakPaneHalves(m, newId);
      var i := m.selected.value;
      var w := m.workspaces[i];
      var alone := Holding(newId, w.panels[w.focused.value], w.directory);
      assert Consistent(w);
      DetachedIsSound(m, i, w.focused.value);
      HoldingIsConsistent(newId, w.panels[w.focused.value], w.directory);
      BrokenOutIsApart(Detached(m, i, w.focused.value).workspaces, alone);
      PlacedAtEnd(Detached(m, i, w.focused.value), alone);
    }
  }

  // ----- every step

  /** A step inside a workspace keeps tree, map and focus in agreement if and only if it finds a pane for the panel
      it brings; and it leaves no empty pane in a split unless it splits an emptied workspace. */
  lemma WithinKeepsConsistent(w: Workspace, s: WorkspaceStep)
    requires Consistent(w) && (Newcomer(s).Some? ==> Newcomer(s).value !in w.panels)
    ensures Consistent(Within(w, s)) <==> FindsPane(w, s)
    ensures Within(w, s).id == w.id
    ensures Within(w, s).panels.Keys <= w.panels.Keys + if Newcomer(s).Some? then {Newcomer(s).value} else {}
    ensures Tidy(w) && FindsPane(w, s) && !((s.SplitFocused? || s.InsertPanel?) && w.panels == map[]) ==>
              Tidy(Within(w, s))
  {
    match s
    case SplitFocused(o, t, newId) => AddPanelKeepsConsistent(w, NewPanel(newId, t), o);
    case InsertPanel(panel, o) => AddPanelKeepsConsistent(w, panel, o);
    case NewTab(target, panel) => AddTabKeepsConsistent(w, target, panel);
    case NewSurface(panel) => AddSurfaceKeepsConsistent(w, panel);
    case NewMarkdown(panel, split) => AddMarkdownKeepsConsistent(w, panel, split);
    case RemoveOne(id) => RemovePanelKeepsConsistent(w, id);
    case DetachOne(id) => DetachPanelKeepsConsistent(w, id);
    case Focus(id) => FocusKeepsConsistent(w, id);
    case Drag(id, d) => DragKeepsConsistent(w, id, d);
    case CloseFocused => if w.focused.Some? { RemovePanelKeepsConsistent(w, w.focused.value); }
    case CloseTabsBesideFocused => CloseOtherTabsKeepsConsistent(w);
    case Rearrange(r) => RearrangeKeepsConsistent(w, r);
  }

  lemma RearrangeKeepsConsistent(w: Workspace, r: Retile)
    requires Consistent(w)
    ensures Consistent(Within(w, Rearrange(r))) && (Tidy(w) ==> Tidy(Within(w, Rearrange(r))))
    ensures Within(w, Rearrange(r)) == w.(layout := Within(w, Rearrange(r)).layout)
  {
    if !(r.SwapPanels? && (r.x !in w.panels || r.y !in w.panels)) {
      RetilingKeepsPanels(w.layout, r);
      if w.panels == map[] && Tidy(w) { EmptyRetiled(w.layout, r); }
    }
  }

  lemma EmptyRetiled(n: Node, r: Retile)
    requires n == Pane([], None) && !r.SwapPanels?
    ensures Retiled(n, r) == n
  {
  }

  lemma InWorkspaceKeepsInvariant(m: Manager, s: Step)
    requires Invariant(m) && s.InWorkspace? && Enabled(m, s)
    ensures Invariant(Do(m, s))
  {
    var w := m.workspaces[s.index];
    WithinKeepsConsistent(w, s.step);
    forall j | 0 <= j < |m.workspaces| && j != s.index
      ensures m.workspaces[j].panels.Keys !! Within(w, s.step).panels.Keys
    {
      OthersAreApart(m.workspaces, s.index, j);
    }
    ReplacementIsSound(m.workspaces, s.index, Within(w, s.step));
  }

  lemma CloseKeepsInvariant(m: Manager, panelId: Id)
    requires Invariant(m)
    ensures Invariant(ClosePanel(m, panelId))
  {
    var i := IndexWithPanel(m.workspaces, panelId);
    if i.Some? {
      InWorkspaceKeepsInvariant(m, InWorkspace(i.value, RemoveOne(panelId)));
    }
  }

  /** Every enabled step keeps the invariant. */
  lemma StepKeepsInvariant(m: Manager, s: Step)
    requires Invariant(m) && Enabled(m, s)
    ensures Invariant(Do(m, s))
  {
    match s
    case NewWorkspace(id, panel, directory, at) =>
      HoldingIsConsistent(id, panel, directory);
      PlaceSelectsNewcomer(m, Holding(id, panel, directory), at);
    case RemoveWorkspace(index) => RemoveKeepsSelection(m, index);
    case MoveTo(from, to) => MoveKeepsInvariant(m, from, to);
    case KeepOnly(id) => CloseOthersKeepsNamedAndPinned(m, id);
    case DropAbove(id) => CloseAboveSelectsNamed(m, id);
    case DropBelow(id) => CloseBelowKeepsInvariant(m, id);
    case Select(_) =>
    case Next(_) =>
    case Previous(_) =>
    case InWorkspace(_, _) => InWorkspaceKeepsInvariant(m, s);
    case SendPanel(panelId, target) => MovePanelIsAllOrNothing(m, panelId, target);
    case BreakOut(newId) => BreakPaneMovesFocused(m, newId);
    case Close(panelId) => CloseKeepsInvariant(m, panelId);
  }

  /** A history of the manager: each state follows from the one before by an enabled step. */
  ghost predicate IsRun(states: seq<Manager>, steps: seq<Step>) {
    && |states| == |steps| + 1
    && Invariant(states[0])
    && forall k | 0 <= k < |steps| ::
         && (states[k].selected.Some? ==> states[k].selected.value < |states[k].workspaces|)
         && Enabled(states[k], steps[k])
         && states[k + 1] == Do(states[k], steps[k])
  }

  /** The invariant holds in every state of every run. */
  lemma {:induction false} RunKeepsInvariant(states: seq<Manager>, steps: seq<Step>, k: nat)
    requires IsRun(states, steps) && k < |states|
    ensures Invariant(states[k])
  {
    if k > 0 {
      RunKeepsInvariant(states, steps, k - 1);
      StepKeepsInvariant(states[k - 1], steps[k - 1]);
    }
  }

  lemma InitialStatesAreSound(id: Id, panel: Panel, directory: string)
    ensures Invariant(EMPTY) && Invariant(Manager([Holding(id, panel, directory)], Some(0)))
  {
    HoldingIsConsistent(id, panel, directory);
  }
}
