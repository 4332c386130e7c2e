/** What every run of manager steps keeps, and what the list operations do to the selection. */
module ManagerLaws {
  import opened Common
  import opened WorkspaceModel
  import opened ManagerModel

  // ----- the invariant

  /** Two workspaces with different ids that share no panel. */
  ghost predicate Apart(v: Workspace, w: Workspace) {
    v.id != w.id && v.panels.Keys !! w.panels.Keys
  }

  ghost predicate Sound(ws: seq<Workspace>) {
    && (forall w | w in ws :: Consistent(w))
    && (forall i, j :: 0 <= i < j < |ws| ==> Apart(ws[i], ws[j]))
  }

  ghost predicate SelectionValid(m: Manager) {
    if m.workspaces == [] then m.selected == None
    else m.selected.Some? && m.selected.value < |m.workspaces|
  }

  ghost predicate Invariant(m: Manager) {
    Sound(m.workspaces) && SelectionValid(m)
  }

  lemma SoundParts(a: seq<Workspace>, b: seq<Workspace>)
    ensures Sound(a + b) <==> Sound(a) && Sound(b) && forall v, w | v in a && w in b :: Apart(v, w)
  {
    var c := a + b;
    assert forall i | 0 <= i < |a| :: c[i] == a[i];
    assert forall j | 0 <= j < |b| :: c[|a| + j] == b[j];
    if Sound(c) {
      forall i, j | 0 <= i < j < |b| ensures Apart(b[i], b[j]) {
        assert Apart(c[|a| + i], c[|a| + j]);
      }
      forall i, j | 0 <= i < j < |a| ensures Apart(a[i], a[j]) {
        assert Apart(c[i], c[j]);
      }
      forall i, j | 0 <= i < |a| && 0 <= j < |b| ensures Apart(a[i], b[j]) {
        assert Apart(c[i], c[|a| + j]);
      }
      assert forall v | v in a :: v in c;
      assert forall w | w in b :: w in c;
    }
    if Sound(a) && Sound(b) && forall v, w | v in a && w in b :: Apart(v, w) {
      forall i, j | 0 <= i < j < |c| ensures Apart(c[i], c[j]) {
        if j < |a| { assert Apart(a[i], a[j]); }
        else if i >= |a| { assert Apart(b[i - |a|], b[j - |a|]); }
        else { assert a[i] in a && b[j - |a|] in b; }
      }
    }
  }

  lemma RemovalIsSound(ws: seq<Workspace>, k: nat)
    requires Sound(ws) && k < |ws|
    ensures Sound(RemoveAt(ws, k))
    ensures forall v | v in RemoveAt(ws, k) :: Apart(v, ws[k]) && v in ws
  {
    assert ws == ws[..k] + ([ws[k]] + ws[k + 1..]);
    SoundParts(ws[..k], [ws[k]] + ws[k + 1..]);
    SoundParts([ws[k]], ws[k + 1..]);
    SoundParts(ws[..k], ws[k + 1..]);
  }

  lemma InsertionIsSound(ws: seq<Workspace>, k: nat, w: Workspace)
    requires Sound(ws) && k <= |ws| && Consistent(w) && forall v | v in ws :: Apart(v, w)
    ensures Sound(InsertAt(ws, k, w))
  {
    assert ws == ws[..k] + ws[k..];
    var a, b := ws[..k], ws[k..];
    SoundParts(a, b);
    forall v | v in a + b ensures Apart(v, w) && Apart(w, v) {
      assert v in ws;
    }
    assert Sound([w]);
    SoundParts([w], b);
    SoundParts(a, [w] + b);
    assert a + ([w] + b) == InsertAt(ws, k, w);
  }

  lemma ReplacementIsSound(ws: seq<Workspace>, k: nat, w: Workspace)
    requires Sound(ws) && k < |ws| && Consistent(w) && w.id == ws[k].id
    requires forall j | 0 <= j < |ws| && j != k :: ws[j].panels.Keys !! w.panels.Keys
    ensures Sound(ws[k := w])
  {
    var c := ws[k := w];
    forall i, j | 0 <= i < j < |c| ensures Apart(c[i], c[j]) {
      assert Apart(ws[i], ws[j]);
    }
  }

  lemma {:induction false} FilterIsSound(ws: seq<Workspace>, keep: Workspace -> bool)
    requires Sound(ws)
    ensures Sound(Filter(ws, keep))
  {
    if ws != [] {
      assert ws == [ws[0]] + ws[1..];
      SoundParts([ws[0]], ws[1..]);
      FilterIsSound(ws[1..], keep);
      FilterMembers(ws[1..], keep);
      SoundParts(if keep(ws[0]) then [ws[0]] else [], Filter(ws[1..], keep));
    }
  }

  /** Different positions of a sound list hold different ids and no common panel. */
  lemma OthersAreApart(ws: seq<Workspace>, i: nat, j: nat)
    requires Sound(ws) && i < |ws| && j < |ws|
    ensures i != j ==> Apart(ws[i], ws[j])
  {
    assert i < j ==> Apart(ws[i], ws[j]);
    assert j < i ==> Apart(ws[j], ws[i]);
  }

  /** In a sound list an id leads to its one workspace. */
  lemma FoundById(ws: seq<Workspace>, i: nat)
    requires Sound(ws) && i < |ws|
    ensures IndexOfId(ws, ws[i].id) == Some(i)
  {
    var k := IndexOfId(ws, ws[i].id);
    assert ws[i] in ws;
    OthersAreApart(ws, i, k.value);
  }

  // ----- list operations

  /** Removal keeps the selected workspace unless it is the one removed. */
  lemma RemoveKeepsSelection(m: Manager, index: nat)
    requires Invariant(m)
    ensures Invariant(RemoveIndex(m, index))
    ensures m.selected != Some(index) ==> SelectedId(RemoveIndex(m, index)) == SelectedId(m)
  {
    if index < |m.workspaces| {
      RemovalIsSound(m.workspaces, index);
    }
  }

  /** Removal takes the one workspace out of the list. If it was the selected one, the one after it is selected, or the
      last. Removal by id is removal of the workspace with that id, if there is one. */
  lemma RemoveTakesOnlyThatOne(m: Manager, index: nat, id: Id)
    requires Invariant(m)
    ensures index >= |m.workspaces| ==> RemoveIndex(m, index) == m
    ensures index < |m.workspaces| ==>
              var v := RemoveIndex(m, index);
              && v.workspaces == m.workspaces[..index] + m.workspaces[index + 1..]
              && (m.selected == Some(index) && v.workspaces != [] ==>
                    v.selected == Some(if index + 1 < |m.workspaces| then index else index - 1))
    ensures (forall w | w in m.workspaces :: w.id != id) ==> RemoveById(m, id) == m
    ensures index < |m.workspaces| && m.workspaces[index].id == id ==> RemoveById(m, id) == RemoveIndex(m, index)
  {
    if index < |m.workspaces| {
      FoundById(m.workspaces, index);
    }
  }

  /** Where moving puts each workspace. */
  lemma MovedIndex<T>(s: seq<T>, from: nat, to: nat, k: nat)
    requires from < |s| && to < |s| && k < |s|
    ensures
      var t := InsertAt(RemoveAt(s, from), to, s[from]);
      var at := if k == from then to
                else if from < to && k > from && k <= to then k - 1
                else if from > to && k >= to && k < from then k + 1
                else k;
      |t| == |s| && at < |t| && t[at] == s[k]
  {
  }

  lemma RemoveBag<T>(s: seq<T>, k: nat)
    requires k < |s|
    ensures multiset(s) == multiset(RemoveAt(s, k)) + multiset{s[k]}
  {
    assert s == s[..k] + [s[k]] + s[k + 1..];
  }

  lemma InsertBag<T>(s: seq<T>, k: nat, x: T)
    requires k <= |s|
    ensures multiset(InsertAt(s, k, x)) == multiset(s) + multiset{x}
  {
    assert s == s[..k] + s[k..];
  }

  lemma MoveKeepsInvariant(m: Manager, from: nat, to: nat)
    requires Invariant(m)
    ensures Invariant(MoveWorkspace(m, from, to))
  {
    if from < |m.workspaces| && to < |m.workspaces| && from != to {
      RemovalIsSound(m.workspaces, from);
      InsertionIsSound(RemoveAt(m.workspaces, from), to, m.workspaces[from]);
    }
  }

  /** Moving is a permutation that puts the moved workspace where it was asked to go and keeps the others in order. */
  lemma MoveIsPermutation(m: Manager, from: nat, to: nat)
    ensures multiset(MoveWorkspace(m, from, to).workspaces) == multiset(m.workspaces)
    ensures from < |m.workspaces| && to < |m.workspaces| ==>
              |MoveWorkspace(m, from, to).workspaces| == |m.workspaces| &&
              MoveWorkspace(m, from, to).workspaces[to] == m.workspaces[from] &&
              RemoveAt(MoveWorkspace(m, from, to).workspaces, to) == RemoveAt(m.workspaces, from)
    ensures from >= |m.workspaces| || to >= |m.workspaces| ==> MoveWorkspace(m, from, to) == m
  {
    if from < |m.workspaces| && to < |m.workspaces| && from != to {
      RemoveBag(m.workspaces, from);
      InsertBag(RemoveAt(m.workspaces, from), to, m.workspaces[from]);
      RemoveUndoesInsertAt(RemoveAt(m.workspaces, from), to, m.workspaces[from]);
    }
  }

  lemma RemoveUndoesInsertAt<T>(s: seq<T>, k: nat, x: T)
    requires k <= |s|
    ensures |InsertAt(s, k, x)| == |s| + 1 && InsertAt(s, k, x)[k] == x && RemoveAt(InsertAt(s, k, x), k) == s
  {
  }

  /** The same workspace stays selected. */
  lemma MoveKeepsSelection(m: Manager, from: nat, to: nat)
    requires Invariant(m)
    ensures SelectedId(MoveWorkspace(m, from, to)) == SelectedId(m)
  {
    if from < |m.workspaces| && to < |m.workspaces| && from != to {
      MovedIndex(m.workspaces, from, to, m.selected.value);
    }
  }

  /** A new workspace is selected, comes where it was asked to, and leaves the others as they were. */
  lemma PlaceSelectsNewcomer(m: Manager, w: Workspace, p: Placement)
    requires Invariant(m) && Consistent(w) && forall v | v in m.workspaces :: Apart(v, w)
    ensures Invariant(Place(m, w, p)) && SelectedId(Place(m, w, p)) == Some(w.id)
    ensures
      var v := Place(m, w, p);
      && RemoveAt(v.workspaces, v.selected.value) == m.workspaces && v.workspaces[v.selected.value] == w
      && (p == End ==> LastOpt(v.workspaces) == Some(w)) && (p == Top ==> HeadOpt(v.workspaces) == Some(w))
      && (p == AfterCurrent && m.workspaces != [] ==>
            v.selected.value > 0 && Some(v.workspaces[v.selected.value - 1].id) == SelectedId(m))
  {
    var at := Place(m, w, p).selected.value;
    assert Place(m, w, p).workspaces == InsertAt(m.workspaces, at, w);
    InsertionIsSound(m.workspaces, at, w);
    RemoveUndoesInsertAt(m.workspaces, at, w);
    EndsOfInsertAt(m.workspaces, at, w);
  }

  lemma EndsOfInsertAt<T>(s: seq<T>, k: nat, x: T)
    requires k <= |s|
    ensures
      var t := InsertAt(s, k, x);
      && t != [] && (k == |s| ==> LastOpt(t) == Some(x)) && (k == 0 ==> HeadOpt(t) == Some(x))
      && (k > 0 ==> t[k - 1] == s[k - 1])
  {
  }

  /** Closing the others leaves the named workspace and the pinned ones, in order, and selects it if it exists. */
  lemma CloseOthersKeepsNamedAndPinned(m: Manager, id: Id)
    requires Invariant(m)
    ensures Invariant(CloseOthers(m, id))
    ensures forall w :: w in CloseOthers(m, id).workspaces <==> w in m.workspaces && (w.id == id || w.isPinned)
    ensures (exists w | w in m.workspaces :: w.id == id) ==> SelectedId(CloseOthers(m, id)) == Some(id)
  {
    var keep := (w: Workspace) => w.id == id || w.isPinned;
    FilterIsSound(m.workspaces, keep);
    FilterMembers(m.workspaces, keep);
  }

  /** Closing above drops the unpinned workspaces before the named one, which it selects. */
  lemma CloseAboveSelectsNamed(m: Manager, id: Id)
    requires Invariant(m)
    ensures Invariant(CloseAbove(m, id))
    ensures match IndexOfId(m.workspaces, id)
            case None => CloseAbove(m, id) == m
            case Some(i) =>
              && CloseAbove(m, id).workspaces == Pinned(m.workspaces[..i]) + m.workspaces[i..]
              && SelectedId(CloseAbove(m, id)) == Some(id)
  {
    match IndexOfId(m.workspaces, id)
    case None =>
    case Some(i) =>
      var a, b := m.workspaces[..i], m.workspaces[i..];
      assert m.workspaces == a + b;
      SoundParts(a, b);
      FilterIsSound(a, (w: Workspace) => w.isPinned);
      FilterMembers(a, (w: Workspace) => w.isPinned);
      SoundParts(Pinned(a), b);
      assert b[0] in Pinned(a) + b;
  }

  lemma CloseBelowKeepsInvariant(m: Manager, id: Id)
    requires Invariant(m)
    ensures Invariant(CloseBelow(m, id))
  {
    match IndexOfId(m.workspaces, id)
    case None =>
    case Some(i) =>
      var a, b := m.workspaces[..i + 1], m.workspaces[i + 1..];
      assert m.workspaces == a + b;
      SoundParts(a, b);
      FilterIsSound(b, (w: Workspace) => w.isPinned);
      FilterMembers(b, (w: Workspace) => w.isPinned);
      SoundParts(a, Pinned(b));
  }

  lemma {:induction false} PinnedLength(ws: seq<Workspace>)
    ensures |Pinned(ws)| <= |ws|
    ensures (forall w | w in ws :: w.isPinned) <==> |Pinned(ws)| == |ws|
    ensures (forall w | w in ws :: !w.isPinned) <==> |Pinned(ws)| == 0
    ensures forall w | w in Pinned(ws) :: w in ws && w.isPinned
  {
    if ws != [] {
      assert ws == [ws[0]] + ws[1..];
      PinnedLength(ws[1..]);
    }
  }

  /** CloseBelow seen from the selected workspace: what stays before it and what after. */
  lemma CloseBelowParts(m: Manager, i: nat, sel: nat)
    requires i < sel < |m.workspaces|
    ensures
      var ws := m.workspaces;
      ws[..i + 1] + Pinned(ws[i + 1..]) ==
      ws[..i + 1] + Pinned(ws[i + 1..sel]) + (if ws[sel].isPinned then [ws[sel]] else []) + Pinned(ws[sel + 1..])
  {
    var ws, p := m.workspaces, (w: Workspace) => w.isPinned;
    var mid, one, tail := ws[i + 1..sel], [ws[sel]], ws[sel + 1..];
    assert ws[i + 1..] == mid + (one + tail);
    FilterConcat(mid, one + tail, p);
    FilterConcat(one, tail, p);
    assert one[1..] == [];
    assert Pinned(one) == if ws[sel].isPinned then one else [];
  }

  /** What closing below leaves, and the place then selected in it. */
  function LeftBelow(ws: seq<Workspace>, i: nat): seq<Workspace>
    requires i < |ws|
  {
    ws[..i + 1] + Pinned(ws[i + 1..])
  }

  function ClampedTo(n: nat, sel: nat): int {
    if sel < n then sel else n - 1
  }

  lemma CloseBelowSelects(m: Manager, id: Id, i: nat)
    requires Invariant(m) && IndexOfId(m.workspaces, id) == Some(i)
    ensures
      var left, sel := LeftBelow(m.workspaces, i), m.selected.value;
      && Sound(left) && left != []
      && SelectedId(CloseBelow(m, id)) == Some(left[ClampedTo(|left|, sel)].id)
      && SelectedId(m) == Some(m.workspaces[sel].id)
      && (sel <= i ==> left[ClampedTo(|left|, sel)] == m.workspaces[sel])
  {
    CloseBelowKeepsInvariant(m, id);
  }

  lemma ClampedSelection(left: seq<Workspace>, k: nat, sel: nat)
    requires Sound(left) && k < |left| && k <= sel
    ensures left[ClampedTo(|left|, sel)].id == left[k].id <==> k == sel || k == |left| - 1
  {
    OthersAreApart(left, ClampedTo(|left|, sel), k);
  }

  /** A pinned selection below the named workspace stays exactly when it did not move up, or is now the last one. */
  lemma PinnedDrift(m: Manager, i: nat, sel: nat)
    requires i < sel < |m.workspaces| && m.workspaces[sel].isPinned && Sound(LeftBelow(m.workspaces, i))
    ensures
      var ws, left := m.workspaces, LeftBelow(m.workspaces, i);
      && left != []
      && (left[ClampedTo(|left|, sel)].id == ws[sel].id <==>
            |Pinned(ws[i + 1..sel])| == sel - i - 1 || |Pinned(ws[sel + 1..])| == 0)
  {
    var ws, left := m.workspaces, LeftBelow(m.workspaces, i);
    PinnedMovesUp(m, i, sel);
    PinnedLength(ws[i + 1..sel]);
    ClampedSelection(left, i + 1 + |Pinned(ws[i + 1..sel])|, sel);
  }

  /** Closing below may let the selection drift. It stays on its workspace exactly when that comes no later than
      the named one, or is pinned with either nothing unpinned between the two or nothing pinned after it. */
  lemma CloseBelowDrift(m: Manager, id: Id)
    requires Invariant(m) && IndexOfId(m.workspaces, id).Some?
    ensures
      var ws, i, sel := m.workspaces, IndexOfId(m.workspaces, id).value, m.selected.value;
      SelectedId(CloseBelow(m, id)) == SelectedId(m) <==>
        (sel <= i || (ws[sel].isPinned &&
          ((forall w | w in ws[i + 1..sel] :: w.isPinned) || (forall w | w in ws[sel + 1..] :: !w.isPinned))))
  {
    var ws, i, sel := m.workspaces, IndexOfId(m.workspaces, id).value, m.selected.value;
    CloseBelowSelects(m, id, i);
    if sel > i {
      if ws[sel].isPinned {
        PinnedDrift(m, i, sel);
        PinnedLength(ws[i + 1..sel]);
        PinnedLength(ws[sel + 1..]);
      } else {
        SurvivorsKeepTheirIds(ws, i, sel, ClampedTo(|LeftBelow(ws, i)|, sel));
      }
    }
  }

  /** Where a pinned workspace ends up, and how many come after it. */
  lemma PinnedMovesUp(m: Manager, i: nat, sel: nat)
    requires i < sel < |m.workspaces| && m.workspaces[sel].isPinned
    ensures
      var ws := m.workspaces;
      var left, k := LeftBelow(ws, i), i + 1 + |Pinned(ws[i + 1..sel])|;
      && |left| == k + 1 + |Pinned(ws[sel + 1..])| && left[k] == ws[sel]
  {
    CloseBelowParts(m, i, sel);
  }

  /** No workspace left by CloseBelow has the id of one it closed. */
  lemma SurvivorsKeepTheirIds(ws: seq<Workspace>, i: nat, sel: nat, at: nat)
    requires Sound(ws) && i < sel < |ws| && !ws[sel].isPinned
    requires at < |LeftBelow(ws, i)|
    ensures LeftBelow(ws, i)[at].id != ws[sel].id
  {
    var w := LeftBelow(ws, i)[at];
    if at <= i {
      OthersAreApart(ws, at, sel);
    } else {
      PinnedLength(ws[i + 1..]);
      assert w in Pinned(ws[i + 1..]);
      var k :| 0 <= k < |ws| && ws[k] == w;
      OthersAreApart(ws, k, sel);
    }
  }

  /** A selection that drifts although its workspace survives: with the first of four workspaces named and the third,
      pinned one selected, closing the unpinned second leaves the index on the fourth. */
  lemma SelectionMayDrift(m: Manager, id: Id)
    requires Invariant(m) && |m.workspaces| == 4 && m.selected == Some(2) && m.workspaces[0].id == id
    requires !m.workspaces[1].isPinned && m.workspaces[2].isPinned && m.workspaces[3].isPinned
    ensures SelectedId(m) == Some(m.workspaces[2].id) && m.workspaces[2] in CloseBelow(m, id).workspaces
    ensures SelectedId(CloseBelow(m, id)) == Some(m.workspaces[3].id) != SelectedId(m)
  {
    var ws := m.workspaces;
    FoundById(ws, 0);
    PinnedPair(ws[2..]);
    assert ws[1..][1..] == ws[2..];
    assert CloseBelow(m, id).workspaces == [ws[0], ws[2], ws[3]];
    OthersAreApart(ws, 2, 3);
  }

  lemma PinnedPair(ws: seq<Workspace>)
    requires |ws| == 2 && ws[0].isPinned && ws[1].isPinned
    ensures Pinned(ws) == ws
  {
    var last := ws[1..];
    assert last[1..] == [];
    assert Pinned(last[1..]) == [];
    assert Pinned(last) == [ws[1]];
  }

  // ----- what closing leaves, and in which order

  /** Closing the others leaves, in order, the workspaces that have the id or are pinned; without one that has it, the
      first of them is selected. */
  lemma CloseOthersLeaves(m: Manager, id: Id) returns (at: seq<nat>)
    ensures KeptAt(m.workspaces, CloseOthers(m, id).workspaces, at)
    ensures forall j | 0 <= j < |m.workspaces| ::
              j in at <==> m.workspaces[j].id == id || m.workspaces[j].isPinned
    ensures (forall w | w in m.workspaces :: w.id != id) ==>
              CloseOthers(m, id).selected == if CloseOthers(m, id).workspaces == [] then None else Some(0)
  {
    at := FilterKeepsOrder(m.workspaces, (w: Workspace) => w.id == id || w.isPinned);
    FilterMembers(m.workspaces, (w: Workspace) => w.id == id || w.isPinned);
  }

  /** Closing above leaves, in order, the workspaces from the named one on and the pinned ones. */
  lemma CloseAboveLeaves(m: Manager, id: Id, k: nat) returns (at: seq<nat>)
    requires IndexOfId(m.workspaces, id) == Some(k)
    ensures KeptAt(m.workspaces, CloseAbove(m, id).workspaces, at)
    ensures forall j | 0 <= j < |m.workspaces| :: j in at <==> j >= k || m.workspaces[j].isPinned
  {
    at := FilteredBefore(m.workspaces, k, (w: Workspace) => w.isPinned);
  }

  /** Closing below leaves, in order, the workspaces up to the named one and the pinned ones; the selected place stays,
      unless the list has become too short: then the last one is selected. */
  lemma CloseBelowLeaves(m: Manager, id: Id, k: nat) returns (at: seq<nat>)
    requires IndexOfId(m.workspaces, id) == Some(k)
    ensures KeptAt(m.workspaces, CloseBelow(m, id).workspaces, at)
    ensures forall j | 0 <= j < |m.workspaces| :: j in at <==> j <= k || m.workspaces[j].isPinned
    ensures CloseBelow(m, id).workspaces != []
    ensures m.selected.Some? ==>
              var n := |CloseBelow(m, id).workspaces|;
              CloseBelow(m, id).selected == Some(if m.selected.value < n then m.selected.value else n - 1)
  {
    at := PinnedFrom(m.workspaces, k + 1);
  }

  lemma PinnedFrom(ws: seq<Workspace>, k: nat) returns (at: seq<nat>)
    requires k <= |ws|
    ensures KeptAt(ws, ws[..k] + Pinned(ws[k..]), at)
    ensures forall j | 0 <= j < |ws| :: j in at <==> j < k || ws[j].isPinned
  {
    at := FilteredFrom(ws, k, (w: Workspace) => w.isPinned);
  }

  /** Closing above or below an id that no workspace has does nothing. */
  lemma CloseAroundNone(m: Manager, id: Id)
    requires forall w | w in m.workspaces :: w.id != id
    ensures CloseAbove(m, id) == m && CloseBelow(m, id) == m
  {
    assert forall i | 0 <= i < |m.workspaces| :: m.workspaces[i] in m.workspaces;
  }

  // ----- stepping through the list

  /** Selecting picks the workspace at the place, if there is one. */
  lemma SelectPicks(m: Manager, index: nat)
    ensures index < |m.workspaces| ==>
              && SelectedId(SelectIndex(m, index)) == Some(m.workspaces[index].id)
              && SelectIndex(m, index).workspaces == m.workspaces && SelectIndex(m, index).selected == Some(index)
    ensures index >= |m.workspaces| ==> SelectIndex(m, index) == m
  {
  }

  /** The selection after stepping forward `k` times, wrapping. */
  function Nexts(m: Manager, k: nat): Manager {
    if k == 0 then m else SelectNext(Nexts(m, k - 1), true)
  }

  /** Stepping forward and back, wrapping, undo each other, and only the selection moves. */
  lemma NextAndPreviousUndo(m: Manager)
    requires SelectionValid(m)
    ensures SelectPrevious(SelectNext(m, true), true) == m && SelectNext(SelectPrevious(m, true), true) == m
    ensures SelectNext(m, true).workspaces == SelectPrevious(m, true).workspaces == m.workspaces
  {
  }

  /** `k` steps forward, wrapping, lead `k` places on around the list. */
  lemma {:induction false} NextsGoAround(m: Manager, k: nat)
    requires SelectionValid(m) && m.workspaces != [] && k <= |m.workspaces|
    ensures
      var to := m.selected.value + k;
      Nexts(m, k) == m.(selected := Some(if to < |m.workspaces| then to else to - |m.workspaces|))
  {
    if k > 0 {
      NextsGoAround(m, k - 1);
    }
  }

  lemma NextsReach(m: Manager, at: nat) returns (k: nat)
    requires SelectionValid(m) && at < |m.workspaces|
    ensures k < |m.workspaces| && Nexts(m, k).selected == Some(at)
  {
    var n, sel := |m.workspaces|, m.selected.value;
    k := if at >= sel then at - sel else at + n - sel;
    NextsGoAround(m, k);
  }

  /** As many steps as there are workspaces lead back to the start, and visit every workspace on the way. */
  lemma NextsVisitAll(m: Manager, at: nat)
    requires SelectionValid(m) && at < |m.workspaces|
    ensures Nexts(m, |m.workspaces|) == m
    ensures exists k: nat :: k < |m.workspaces| && Nexts(m, k).selected == Some(at)
  {
    NextsGoAround(m, |m.workspaces|);
    var k := NextsReach(m, at);
  }

  /** Without wrapping, stepping stops at the ends: otherwise it leads to the place after or before. */
  lemma StepsStopAtTheEnds(m: Manager)
    requires SelectionValid(m) && m.workspaces != []
    ensures
      var n, sel := |m.workspaces|, m.selected.value;
      && (SelectNext(m, false) == m <==> sel == n - 1)
      && (SelectPrevious(m, false) == m <==> sel == 0)
      && (sel < n - 1 ==> SelectPrevious(SelectNext(m, false), false) == m && SelectNext(m, false) != m)
      && (sel > 0 ==> SelectNext(SelectPrevious(m, false), false) == m && SelectPrevious(m, false) != m)
  {
  }
}
