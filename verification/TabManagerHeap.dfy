/** The workspace list held by shared objects. Each method takes State() where TabManager.dfy says. */
module TabManagerHeap {
  import opened Common
  import opened Layout
  import opened WorkspaceHeap
  import M = ManagerModel
  import W = WorkspaceModel

  /** The elements at the positions marked to keep. */
  ghost function Kept<T>(s: seq<T>, keep: seq<bool>): seq<T>
    requires |s| == |keep|
  {
    if s == [] then [] else (if keep[0] then [s[0]] else []) + Kept(s[1..], keep[1..])
  }

  lemma {:induction false} KeptIsFilter<T>(s: seq<T>, keep: seq<bool>, p: T -> bool)
    requires |s| == |keep| && forall i | 0 <= i < |s| :: keep[i] == p(s[i])
    ensures Kept(s, keep) == Filter(s, p)
  {
    if s != [] { KeptIsFilter(s[1..], keep[1..], p); }
  }

  lemma {:induction false} KeptOfAll<T>(s: seq<T>, keep: seq<bool>)
    requires |s| == |keep| && forall i | 0 <= i < |s| :: keep[i]
    ensures Kept(s, keep) == s
  {
    if s != [] { KeptOfAll(s[1..], keep[1..]); }
  }

  lemma {:induction false} KeptConcat<T>(s: seq<T>, t: seq<T>, k: seq<bool>, l: seq<bool>)
    requires |s| == |k| && |t| == |l|
    ensures Kept(s + t, k + l) == Kept(s, k) + Kept(t, l)
  {
    if s == [] {
      assert s + t == t && k + l == l;
    } else {
      var h := if k[0] then [s[0]] else [];
      assert (s + t)[1..] == s[1..] + t && (k + l)[1..] == k[1..] + l;
      assert (s + t)[0] == s[0] && (k + l)[0] == k[0];
      KeptConcat(s[1..], t, k[1..], l);
      assert Kept(s, k) == h + Kept(s[1..], k[1..]);
      assert h + (Kept(s[1..], k[1..]) + Kept(t, l)) == (h + Kept(s[1..], k[1..])) + Kept(t, l);
    }
  }

  lemma KeptRange(vs: seq<W.Workspace>, keep: seq<bool>, lo: nat, hi: nat)
    requires |vs| == |keep| && lo <= hi <= |vs|
    requires forall i | 0 <= i < |vs| :: keep[i] == (lo <= i < hi ==> vs[i].isPinned)
    ensures Kept(vs, keep) == M.DroppedBetween(vs, lo, hi)
  {
    KeptSplit(vs, keep, hi);
    KeptOfAll(vs[hi..], keep[hi..]);
    KeptOfFirst(vs[..hi], keep[..hi], lo);
    assert vs[..hi][..lo] == vs[..lo] && vs[..hi][lo..] == vs[lo..hi];
  }

  lemma KeptOfFirst(vs: seq<W.Workspace>, keep: seq<bool>, lo: nat)
    requires |vs| == |keep| && lo <= |vs|
    requires forall i | 0 <= i < |vs| :: keep[i] == (lo <= i ==> vs[i].isPinned)
    ensures Kept(vs, keep) == vs[..lo] + M.Pinned(vs[lo..])
  {
    KeptSplit(vs, keep, lo);
    KeptOfAll(vs[..lo], keep[..lo]);
    KeptIsFilter(vs[lo..], keep[lo..], (w: W.Workspace) => w.isPinned);
  }

  lemma KeptSplit<T>(s: seq<T>, keep: seq<bool>, k: nat)
    requires |s| == |keep| && k <= |s|
    ensures Kept(s, keep) == Kept(s[..k], keep[..k]) + Kept(s[k..], keep[k..])
  {
    KeptConcat(s[..k], s[k..], keep[..k], keep[k..]);
    assert s == s[..k] + s[k..] && keep == keep[..k] + keep[k..];
  }

  /** Dropping position `i` and keeping those between it and `j`. */
  lemma KeptFrom<T>(s: seq<T>, keep: seq<bool>, i: nat, j: nat)
    requires |s| == |keep| && i < j <= |s| && !keep[i] && forall k | i < k < j :: keep[k]
    ensures Kept(s[i..], keep[i..]) == s[i + 1..j] + Kept(s[j..], keep[j..])
  {
    var mid := s[i + 1..j];
    TailSplit(s, i, j);
    TailSplit(keep, i, j);
    KeptConcat(mid, s[j..], keep[i + 1..j], keep[j..]);
    KeptOfAll(mid, keep[i + 1..j]);
  }

  /** One deletion of the reverse loop: everything between the deleted position and `j` is kept. */
  lemma KeptStep<T>(s: seq<T>, keep: seq<bool>, i: nat, j: nat)
    requires |s| == |keep| && i < j <= |s| && !keep[i] && forall k | i < k < j :: keep[k]
    ensures RemoveAt(s[..j] + Kept(s[j..], keep[j..]), i) == s[..i] + Kept(s[i..], keep[i..])
  {
    var mid, rest := s[i + 1..j], Kept(s[j..], keep[j..]);
    KeptFrom(s, keep, i, j);
    HeadSplit(s, i, j, rest);
    RemoveAtSpliced(s[..i], s[i], mid, rest);
  }

  lemma TailSplit<T>(s: seq<T>, i: nat, j: nat)
    requires i < j <= |s|
    ensures s[i..][1..] == s[i + 1..j] + s[j..]
  {
  }

  lemma HeadSplit<T>(s: seq<T>, i: nat, j: nat, rest: seq<T>)
    requires i < j <= |s|
    ensures s[..j] + rest == s[..i] + [s[i]] + (s[i + 1..j] + rest)
  {
  }

  lemma RemoveAtSpliced<T>(a: seq<T>, x: T, b: seq<T>, c: seq<T>)
    ensures RemoveAt(a + [x] + (b + c), |a|) == a + (b + c)
  {
  }

  /** The positions in `doomed`, in order, are those not kept below `j`. */
  ghost predicate DoomsBelow(doomed: seq<nat>, keep: seq<bool>, j: nat) {
    && j <= |keep|
    && (forall i | 0 <= i < |doomed| :: doomed[i] < j && !keep[doomed[i]])
    && (forall i | 0 <= i < j && !keep[i] :: i in doomed)
    && (forall i, k | 0 <= i < k < |doomed| :: doomed[i] < doomed[k])
  }

  /** Everything between the last doomed position and `j` is kept, and the rest of the list dooms what is below it. */
  lemma LastDoomed(doomed: seq<nat>, keep: seq<bool>, j: nat)
    requires DoomsBelow(doomed, keep, j) && doomed != []
    ensures
      var n := |doomed| - 1;
      var i := doomed[n];
      i < j && !keep[i] && (forall x | i < x < j :: keep[x]) && DoomsBelow(doomed[..n], keep, i)
  {
    var n := |doomed| - 1;
    forall x | 0 <= x < j && !keep[x] && x != doomed[n] ensures x in doomed[..n] && x < doomed[n] {
      var k :| 0 <= k < |doomed| && doomed[k] == x;
      assert doomed[..n][k] == x;
    }
  }

  lemma DoomsNothing(keep: seq<bool>, j: nat)
    requires j <= |keep| && forall i | 0 <= i < j :: keep[i]
    ensures DoomsBelow([], keep, j)
  {
  }

  lemma DoomsOneMore(doomed: seq<nat>, keep: seq<bool>, j: nat)
    requires DoomsBelow(doomed, keep, j) && j < |keep|
    ensures DoomsBelow(if keep[j] then doomed else doomed + [j], keep, j + 1)
  {
    forall i | 0 <= i < j && !keep[i] ensures i in doomed + [j] {
      assert i in doomed;
    }
  }

  lemma DoomsNoMore(doomed: seq<nat>, keep: seq<bool>, j: nat)
    requires DoomsBelow(doomed, keep, j) && forall i | j <= i < |keep| :: keep[i]
    ensures DoomsBelow(doomed, keep, |keep|)
  {
  }

  predicate IsClosable(w: W.Workspace, spared: Option<Id>) {
    spared != Some(w.id) && !w.isPinned
  }

  /** Everything is marked to be kept but what may be closed from `lo` up to `hi`. */
  ghost predicate Spares(vs: seq<W.Workspace>, lo: nat, hi: nat, spared: Option<Id>, keep: seq<bool>) {
    |keep| == |vs| && forall i | 0 <= i < |vs| :: keep[i] <==> !(lo <= i < hi && IsClosable(vs[i], spared))
  }

  lemma NoneDoomed<T>(s: seq<T>, keep: seq<bool>, j: nat)
    requires |s| == |keep| && DoomsBelow([], keep, j)
    ensures s[..j] + Kept(s[j..], keep[j..]) == Kept(s, keep)
  {
    KeptOfAll(s[..j], keep[..j]);
    KeptSplit(s, keep, j);
  }

  /** The list with everything from `j` on that is not kept gone. */
  ghost function KeptAbove<T>(s: seq<T>, keep: seq<bool>, j: nat): seq<T>
    requires |s| == |keep| && j <= |s|
  {
    s[..j] + Kept(s[j..], keep[j..])
  }

  /** What the reverse loop has left when the positions still to be deleted are those not kept below `j`. */
  ghost predicate Deleting<T>(s: seq<T>, keep: seq<bool>, doomed: seq<nat>, j: nat, left: seq<T>) {
    |s| == |keep| && DoomsBelow(doomed, keep, j) && left == KeptAbove(s, keep, j)
  }

  lemma NothingDeleted<T>(s: seq<T>, keep: seq<bool>, doomed: seq<nat>)
    requires |s| == |keep| && DoomsBelow(doomed, keep, |s|)
    ensures Deleting(s, keep, doomed, |s|, s)
  {
  }

  lemma DeletionStep<T>(s: seq<T>, keep: seq<bool>, doomed: seq<nat>, j: nat, left: seq<T>)
    requires doomed != [] && Deleting(s, keep, doomed, j, left)
    ensures
      var n := |doomed| - 1;
      doomed[n] < |left| && Deleting(s, keep, doomed[..n], doomed[n], RemoveAt(left, doomed[n]))
  {
    LastDoomed(doomed, keep, j);
    KeptStep(s, keep, doomed[|doomed| - 1], j);
  }

  lemma AllDeleted<T>(s: seq<T>, keep: seq<bool>, j: nat, left: seq<T>)
    requires Deleting(s, keep, [], j, left)
    ensures left == Kept(s, keep)
  {
    NoneDoomed(s, keep, j);
  }

  /** Deletes the listed positions, last first, so that none of them shifts before its turn. */
  method DeleteInReverse<T>(s: seq<T>, doomed: seq<nat>, ghost keep: seq<bool>) returns (left: seq<T>)
    requires |keep| == |s| && DoomsBelow(doomed, keep, |s|)
    ensures left == Kept(s, keep) && |left| + |doomed| == |s|
  {
    left := s;
    var k := |doomed|;
    ghost var j: nat := |s|;
    NothingDeleted(s, keep, doomed);
    assert doomed[..k] == doomed;
    while k > 0
      invariant 0 <= k <= |doomed|
      invariant Deleting(s, keep, doomed[..k], j, left) && |left| + (|doomed| - k) == |s|
    {
      DeletionStep(s, keep, doomed[..k], j, left);
      assert doomed[..k][..k - 1] == doomed[..k - 1];
      k := k - 1;
      left := RemoveAt(left, doomed[k]);
      j := doomed[k];
    }
    AllDeleted(s, keep, j, left);
  }

  /** Different, valid workspaces that share no object and touch only what `own` holds. */
  ghost predicate Owned(ws: seq<Workspace>, own: set<object>)
    reads own
  {
    && Distinct(ws)
    && (forall w | w in ws :: w in own && w.layout in own && w.Footprint() <= own && w.Valid())
    && (forall v, w | v in ws && w in ws && v != w :: v.Footprint() !! w.Footprint())
  }

  ghost predicate Values(ws: seq<Workspace>, vs: seq<W.Workspace>)
    reads ws, set w | w in ws :: w.layout
  {
    |ws| == |vs| && forall i | 0 <= i < |ws| :: vs[i] == ws[i].State()
  }

  /** The workspaces `ws`, owned by `own`, have the values `vs`. */
  ghost predicate Holds(ws: seq<Workspace>, vs: seq<W.Workspace>, own: set<object>)
    reads own
  {
    Owned(ws, own) && Values(ws, vs)
  }

  lemma ValuesWithout(ws: seq<Workspace>, vs: seq<W.Workspace>, k: nat)
    requires Values(ws, vs) && k < |ws|
    ensures Values(RemoveAt(ws, k), RemoveAt(vs, k))
  {
  }

  lemma ValuesWith(ws: seq<Workspace>, vs: seq<W.Workspace>, k: nat, w: Workspace)
    requires Values(ws, vs) && k <= |ws|
    ensures Values(InsertAt(ws, k, w), InsertAt(vs, k, w.State()))
  {
  }

  lemma SubsetOwned(ws: seq<Workspace>, own: set<object>, some: seq<Workspace>)
    requires Owned(ws, own) && Distinct(some) && forall w | w in some :: w in ws
    ensures Owned(some, own)
  {
  }

  lemma RemoveAtMembers<T>(s: seq<T>, k: nat)
    requires k < |s| && Distinct(s)
    ensures Distinct(RemoveAt(s, k)) && forall x | x in RemoveAt(s, k) :: x in s && x != s[k]
  {
    DistinctParts(s[..k], s[k..]);
    DistinctParts([s[k]], s[k + 1..]);
    assert s == s[..k] + s[k..] && s[k..] == [s[k]] + s[k + 1..];
    DistinctParts(s[..k], s[k + 1..]);
  }

  lemma InsertAtMembers<T>(s: seq<T>, k: nat, x: T)
    requires k <= |s| && Distinct(s) && x !in s
    ensures Distinct(InsertAt(s, k, x)) && forall y :: y in InsertAt(s, k, x) <==> y in s || y == x
  {
    var a, b := s[..k], s[k..];
    assert s == a + b && InsertAt(s, k, x) == a + ([x] + b);
    DistinctParts(a, b);
    DistinctParts([x], b);
    DistinctParts(a, [x] + b);
  }

  lemma HoldsWithout(ws: seq<Workspace>, vs: seq<W.Workspace>, own: set<object>, k: nat)
    requires Holds(ws, vs, own) && k < |ws|
    ensures Holds(RemoveAt(ws, k), RemoveAt(vs, k), own)
  {
    RemoveAtMembers(ws, k);
    SubsetOwned(ws, own, RemoveAt(ws, k));
    ValuesWithout(ws, vs, k);
  }

  lemma OwnedWith(ws: seq<Workspace>, own: set<object>, k: nat, w: Workspace)
    requires Owned(ws, own) && k <= |ws| && w.Valid() && w.layout in w.Footprint() && w.Footprint() !! own
    ensures Owned(InsertAt(ws, k, w), own + w.Footprint())
  {
    InsertAtMembers(ws, k, w);
  }

  lemma HoldsWith(ws: seq<Workspace>, vs: seq<W.Workspace>, own: set<object>, k: nat, w: Workspace)
    requires Holds(ws, vs, own) && k <= |ws| && w.Valid() && w.layout in w.Footprint() && w.Footprint() !! own
    ensures Holds(InsertAt(ws, k, w), InsertAt(vs, k, w.State()), own + w.Footprint())
  {
    OwnedWith(ws, own, k, w);
    ValuesWith(ws, vs, k, w);
  }

  lemma HoldsMoved(ws: seq<Workspace>, vs: seq<W.Workspace>, own: set<object>, from: nat, to: nat)
    requires Holds(ws, vs, own) && from < |ws| && to < |ws|
    ensures Holds(InsertAt(RemoveAt(ws, from), to, ws[from]), InsertAt(RemoveAt(vs, from), to, vs[from]), own)
  {
    RemoveAtMembers(ws, from);
    InsertAtMembers(RemoveAt(ws, from), to, ws[from]);
    SubsetOwned(ws, own, InsertAt(RemoveAt(ws, from), to, ws[from]));
    ValuesWithout(ws, vs, from);
    ValuesWith(RemoveAt(ws, from), RemoveAt(vs, from), to, ws[from]);
  }

  lemma {:induction false} KeptMembers<T>(s: seq<T>, keep: seq<bool>)
    requires |s| == |keep| && Distinct(s)
    ensures Distinct(Kept(s, keep)) && forall x | x in Kept(s, keep) :: x in s
  {
    if s != [] {
      KeptMembers(s[1..], keep[1..]);
      assert s == [s[0]] + s[1..];
      DistinctParts([s[0]], s[1..]);
      DistinctParts([s[0]], Kept(s[1..], keep[1..]));
    }
  }

  lemma {:induction false} KeptValues(ws: seq<Workspace>, vs: seq<W.Workspace>, keep: seq<bool>)
    requires Values(ws, vs) && |ws| == |keep|
    ensures Values(Kept(ws, keep), Kept(vs, keep))
  {
    if ws != [] {
      KeptValues(ws[1..], vs[1..], keep[1..]);
    }
  }

  lemma HoldsKept(ws: seq<Workspace>, vs: seq<W.Workspace>, own: set<object>, keep: seq<bool>)
    requires Holds(ws, vs, own) && |ws| == |keep|
    ensures |vs| == |keep| && Holds(Kept(ws, keep), Kept(vs, keep), own)
  {
    KeptMembers(ws, keep);
    KeptValues(ws, vs, keep);
    SubsetOwned(ws, own, Kept(ws, keep));
  }

  predicate IsListStep(step: M.Step) {
    !step.NewWorkspace? && !step.InWorkspace? && !step.SendPanel? && !step.BreakOut? && !step.Close?
  }

  class TabManager {
    var workspaces: seq<Workspace>
    var selected: Option<nat>
    ghost var Repr: set<object>
    ghost var Model: M.Manager

    ghost predicate Valid()
      reads this, Repr
    {
      this !in Repr && Holds(workspaces, Model.workspaces, Repr) && Model.selected == selected
    }

    constructor Empty()
      ensures Valid() && Model == M.EMPTY && Repr == {}
    {
      workspaces, selected, Repr, Model := [], None, {}, M.EMPTY;
    }

    method IndexOfId(id: Id) returns (k: Option<nat>)
      requires Valid()
      ensures k == M.IndexOfId(Model.workspaces, id)
    {
      var i := 0;
      while i < |workspaces|
        invariant i <= |workspaces|
        invariant forall j | 0 <= j < i :: Model.workspaces[j].id != id
      {
        if workspaces[i].id == id {
          return Some(i);
        }
        i := i + 1;
      }
      return None;
    }

    method IndexWithPanel(panelId: Id) returns (k: Option<nat>)
      requires Valid()
      ensures k == M.IndexWithPanel(Model.workspaces, panelId)
    {
      var i := 0;
      while i < |workspaces|
        invariant i <= |workspaces|
        invariant forall j | 0 <= j < i :: panelId !in Model.workspaces[j].panels
      {
        if panelId in workspaces[i].panels {
          return Some(i);
        }
        i := i + 1;
      }
      return None;
    }

    /** Puts a workspace into the list and selects it. */
    method InsertSelected(at: nat, w: Workspace)
      requires Valid() && w.Valid() && w.Footprint() !! Repr && this !in w.Footprint() && at <= |workspaces|
      modifies this
      ensures Valid() && Repr == old(Repr) + w.Footprint()
      ensures Model == M.Manager(InsertAt(old(Model).workspaces, at, w.State()), Some(at))
    {
      HoldsWith(workspaces, Model.workspaces, Repr, at, w);
      workspaces, selected := InsertAt(workspaces, at, w), Some(at);
      Repr, Model := Repr + w.Footprint(), M.Manager(InsertAt(Model.workspaces, at, w.State()), selected);
      assert Holds(workspaces, Model.workspaces, Repr);
    }

    method Place(w: Workspace, p: M.Placement)
      requires Valid() && w.Valid() && w.Footprint() !! Repr && this !in w.Footprint()
      requires selected.Some? ==> selected.value < |workspaces|
      modifies this
      ensures Valid() && Repr == old(Repr) + w.Footprint()
      ensures Model == M.Place(old(Model), w.State(), p)
    {
      var at := match p
        case End => |workspaces|
        case AfterCurrent => if selected.Some? then selected.value + 1 else 0
        case Top => 0;
      InsertSelected(at, w);
    }

    method Select(index: Option<nat>)
      requires Valid()
      modifies this`selected, this`Model
      ensures Valid() && Model == old(Model).(selected := index) && selected == index
    {
      selected := index;
      Model := Model.(selected := index);
      assert Holds(workspaces, Model.workspaces, Repr);
    }

    /** Takes a workspace off the list; the selected index stays as it is. */
    method DeleteAt(index: nat)
      requires Valid() && index < |workspaces|
      modifies this`workspaces, this`Model
      ensures Valid() && workspaces == RemoveAt(old(workspaces), index)
      ensures Model == old(Model).(workspaces := RemoveAt(old(Model).workspaces, index))
    {
      HoldsWithout(workspaces, Model.workspaces, Repr, index);
      workspaces := RemoveAt(workspaces, index);
      Model := Model.(workspaces := RemoveAt(Model.workspaces, index));
      assert Holds(workspaces, Model.workspaces, Repr);
    }

    method Remove(index: nat) returns (gone: Option<Workspace>)
      requires Valid()
      modifies this
      ensures Valid() && Repr == old(Repr) && Model == M.RemoveIndex(old(Model), index)
      ensures gone == if index < |old(workspaces)| then Some(old(workspaces)[index]) else None
    {
      if index >= |workspaces| {
        return None;
      }
      gone := Some(workspaces[index]);
      DeleteAt(index);
      if workspaces == [] {
        Select(None);
      } else if selected.Some? {
        if selected.value >= |workspaces| {
          Select(Some(|workspaces| - 1));
        } else if selected.value > index {
          Select(Some(selected.value - 1));
        }
      }
    }

    method RemoveById(id: Id)
      requires Valid()
      modifies this
      ensures Valid() && Repr == old(Repr) && Model == M.RemoveById(old(Model), id)
    {
      var i := IndexOfId(id);
      if i.Some? {
        var gone := Remove(i.value);
      }
    }

    /** Moves a workspace within the list; the selected index stays as it is. */
    method MoveWithin(from: nat, to: nat)
      requires Valid() && from < |workspaces| && to < |workspaces|
      modifies this`workspaces, this`Model
      ensures Valid()
      ensures var vs := old(Model).workspaces;
              Model == old(Model).(workspaces := InsertAt(RemoveAt(vs, from), to, vs[from]))
    {
      HoldsMoved(workspaces, Model.workspaces, Repr, from, to);
      workspaces := InsertAt(RemoveAt(workspaces, from), to, workspaces[from]);
      Model := Model.(workspaces := InsertAt(RemoveAt(Model.workspaces, from), to, Model.workspaces[from]));
      assert Holds(workspaces, Model.workspaces, Repr);
    }

    method MoveWorkspace(from: nat, to: nat) returns (moved: bool)
      requires Valid()
      modifies this
      ensures Valid() && Repr == old(Repr) && Model == M.MoveWorkspace(old(Model), from, to)
      ensures moved == (from < |old(workspaces)| && to < |old(workspaces)|)
    {
      if from >= |workspaces| || to >= |workspaces| || from == to {
        return from == to && from < |workspaces|;
      }
      MoveWithin(from, to);
      if selected.Some? {
        var sel := selected.value;
        Select(if sel == from then Some(to)
                 else if from < to && sel > from && sel <= to then Some(sel - 1)
                 else if from > to && sel >= to && sel < from then Some(sel + 1)
                 else Some(sel));
      }
      moved := true;
    }

    method SelectNext(wrap: bool)
      requires Valid()
      modifies this
      ensures Valid() && Repr == old(Repr) && Model == M.SelectNext(old(Model), wrap)
    {
      if workspaces == [] {
        return;
      }
      if selected.None? {
        selected := Some(0);
      } else if selected.value + 1 < |workspaces| {
        selected := Some(selected.value + 1);
      } else if wrap {
        selected := Some(0);
      }
      Model := M.SelectNext(Model, wrap);
    }

    method SelectPrevious(wrap: bool)
      requires Valid()
      modifies this
      ensures Valid() && Repr == old(Repr) && Model == M.SelectPrevious(old(Model), wrap)
    {
      if workspaces == [] {
        return;
      }
      if selected.None? {
        selected := Some(|workspaces| - 1);
      } else if selected.value > 0 {
        selected := Some(selected.value - 1);
      } else if wrap {
        selected := Some(|workspaces| - 1);
      }
      Model := M.SelectPrevious(Model, wrap);
    }

    /** Records what the workspaces have become. */
    ghost method Adopt(own: set<object>, vs: seq<W.Workspace>)
      requires this !in own && Holds(workspaces, vs, own) && Model.selected == selected
      modifies this`Repr, this`Model
      ensures Valid() && Repr == own && Model == old(Model).(workspaces := vs)
    {
      Repr, Model := own, Model.(workspaces := vs);
    }

    /** Any step inside the workspace at `i`; the others are untouched. */
    method PerformWithin(i: nat, step: M.WorkspaceStep)
      requires Valid() && i < |workspaces|
      modifies this`Repr, this`Model, Repr
      ensures Valid() && workspaces == old(workspaces) && fresh(Repr - old(Repr))
      ensures Model == old(Model).(workspaces := old(Model).workspaces[i := M.Within(old(Model).workspaces[i], step)])
    {
      var w := workspaces[i];
      assert w in workspaces;
      w.Perform(step);
      forall v | v in workspaces && v != w
        ensures v.Footprint() == old(v.Footprint()) && v.Valid() && v.State() == old(v.State())
      {
        assert old(v.Footprint() !! w.Footprint());
        assert unchanged(v) && unchanged(v.layout);
      }
      ghost var own, vs := Repr + w.Footprint(), Model.workspaces[i := w.State()];
      assert Owned(workspaces, own);
      assert Values(workspaces, vs);
      Adopt(own, vs);
    }

    /** Closes a panel wherever it is. */
    method ClosePanel(panelId: Id) returns (closed: bool)
      requires Valid()
      modifies this`Repr, this`Model, Repr
      ensures Valid() && fresh(Repr - old(Repr)) && Model == M.ClosePanel(old(Model), panelId)
      ensures closed == M.IndexWithPanel(old(Model).workspaces, panelId).Some?
    {
      M.ClosePanelInSteps(Model, panelId);
      var i := IndexWithPanel(panelId);
      closed := i.Some?;
      if closed {
        PerformWithin(i.value, M.RemoveOne(panelId));
      }
    }

    /** Takes the panel out of the workspace at `i`, and that workspace out of the list if it is left empty. */
    method Detach(i: nat, panelId: Id)
      requires Valid() && i < |workspaces|
      modifies this, Repr
      ensures Valid() && fresh(Repr - old(Repr)) && Model == M.Detached(old(Model), i, panelId)
    {
      M.DetachedInSteps(Model, i, panelId);
      var source := workspaces[i].id;
      PerformWithin(i, M.DetachOne(panelId));
      if workspaces[i].panels == map[] {
        RemoveById(source);
      }
    }

    method Give(panel: W.Panel, target: Id) returns (given: Option<Id>)
      requires Valid()
      modifies this`Repr, this`Model, Repr
      ensures Valid() && fresh(Repr - old(Repr)) && (Model, given) == M.Given(old(Model), panel, target)
    {
      var t := IndexOfId(target);
      if t.None? {
        return None;
      }
      PerformWithin(t.value, M.InsertPanel(panel, Horizontal));
      given := Some(target);
    }

    method FindMoveSource(panelId: Id, target: Id) returns (k: Option<nat>)
      requires Valid()
      ensures k == M.MoveSource(Model, panelId, target)
    {
      var i := IndexWithPanel(panelId);
      if i.None? {
        return None;
      }
      var source := workspaces[i.value].id;
      if source == target {
        return None;
      }
      var found := IndexOfId(target);
      if found.None? {
        return None;
      }
      k := IndexOfId(source);
      if k.Some? && panelId !in workspaces[k.value].panels {
        k := None;
      }
    }

    /** Hands a panel of the workspace at `k` to the target. */
    method HandOver(k: nat, panelId: Id, target: Id) returns (given: Option<Id>)
      requires Valid() && k < |workspaces| && k < |Model.workspaces| && panelId in Model.workspaces[k].panels
      modifies this, Repr
      ensures Valid() && fresh(Repr - old(Repr))
      ensures (Model, given) ==
                M.Given(M.Detached(old(Model), k, panelId), old(Model).workspaces[k].panels[panelId], target)
    {
      assert Model.workspaces[k] == workspaces[k].State();
      var panel := workspaces[k].panels[panelId];
      Detach(k, panelId);
      given := Give(panel, target);
    }

    method MovePanelToWorkspace(panelId: Id, target: Id) returns (moved: Option<Id>)
      requires Valid()
      modifies this, Repr
      ensures Valid() && fresh(Repr - old(Repr)) && (Model, moved) == M.MovePanel(old(Model), panelId, target)
    {
      var k := FindMoveSource(panelId, target);
      if k.None? {
        return None;
      }
      moved := HandOver(k.value, panelId, target);
    }

    /** Appends and selects a new workspace that holds the panel alone. */
    method AppendAlone(newId: Id, placeholder: Id, panelId: Id, panel: W.Panel, directory: string)
      requires Valid() && placeholder != panelId
      modifies this
      ensures Valid() && fresh(Repr - old(Repr))
      ensures Model == M.Manager(old(Model).workspaces + [M.Alone(newId, panelId, panel, directory)],
                                 Some(|old(Model).workspaces|))
    {
      var alone := new Workspace.BrokenOut(newId, placeholder, panelId, panel, directory);
      assert Holds(workspaces, Model.workspaces, Repr);
      selected, Model := None, Model.(selected := None);
      Place(alone, M.End);
    }

    /** The panel to break out of the selected workspace, if it has company there. */
    method PanelToBreak() returns (panelId: Option<Id>)
      requires Valid()
      ensures panelId.Some? ==>
                && selected.Some? && selected.value < |workspaces|
                && panelId.value in workspaces[selected.value].panels
      ensures forall newId :: M.BreakPane(Model, newId) ==
                if panelId.None? then Model
                else
                  var w := Model.workspaces[selected.value];
                  var kept := M.Detached(Model, selected.value, panelId.value);
                  M.Manager(kept.workspaces + [M.Alone(newId, panelId.value, w.panels[panelId.value], w.directory)],
                            Some(|kept.workspaces|))
    {
      if selected.None? || selected.value >= |workspaces| {
        return None;
      }
      var w := workspaces[selected.value];
      panelId := if w.focused.None? || |w.panels| <= 1 || w.focused.value !in w.panels then None else w.focused;
    }

    /** Breaks the focused panel of the selected workspace out into a workspace of its own. */
    method BreakPane(newId: Id, placeholder: Id)
      requires Valid()
      requires forall w | w in workspaces :: placeholder !in w.panels
      modifies this, Repr
      ensures Valid() && fresh(Repr - old(Repr)) && Model == M.BreakPane(old(Model), newId)
    {
      var panelId := PanelToBreak();
      if panelId.Some? {
        var i := selected.value;
        var panel, directory := workspaces[i].panels[panelId.value], workspaces[i].directory;
        assert workspaces[i] in workspaces;
        Detach(i, panelId.value);
        AppendAlone(newId, placeholder, panelId.value, panel, directory);
      }
    }

    /** Keeps the workspaces marked so and drops the others, last first. */
    method DropUnmarked(doomed: seq<nat>, ghost keep: seq<bool>)
      requires Valid() && |keep| == |workspaces| && DoomsBelow(doomed, keep, |workspaces|)
      modifies this`workspaces, this`Model
      ensures Valid() && Model == old(Model).(workspaces := Kept(old(Model).workspaces, keep))
      ensures |workspaces| + |doomed| == |old(workspaces)|
    {
      HoldsKept(workspaces, Model.workspaces, Repr, keep);
      workspaces := DeleteInReverse(workspaces, doomed, keep);
      Model := Model.(workspaces := Kept(Model.workspaces, keep));
      assert Holds(workspaces, Model.workspaces, Repr);
    }

    method MayClose(i: nat, spared: Option<Id>) returns (may: bool)
      requires Valid() && i < |workspaces|
      ensures i < |Model.workspaces| && may == IsClosable(Model.workspaces[i], spared)
    {
      may := spared != Some(workspaces[i].id) && !workspaces[i].isPinned;
      assert Model.workspaces[i] == workspaces[i].State();
    }

    /** The positions from `lo` up to `hi` of the workspaces that may be closed: those not marked to be kept. */
    method Closable(lo: nat, hi: nat, spared: Option<Id>, ghost keep: seq<bool>) returns (doomed: seq<nat>)
      requires Valid() && lo <= hi <= |workspaces| == |keep| && Spares(Model.workspaces, lo, hi, spared, keep)
      ensures DoomsBelow(doomed, keep, |workspaces|)
    {
      doomed := [];
      var i := lo;
      DoomsNothing(keep, lo);
      while i < hi
        invariant lo <= i <= hi && DoomsBelow(doomed, keep, i)
      {
        DoomsOneMore(doomed, keep, i);
        var may := MayClose(i, spared);
        assert may == !keep[i];
        if may {
          doomed := doomed + [i];
        }
        i := i + 1;
      }
      DoomsNoMore(doomed, keep, i);
    }

    method CloseOthers(id: Id) returns (count: nat)
      requires Valid()
      modifies this
      ensures Valid() && Repr == old(Repr) && Model == M.CloseOthers(old(Model), id)
      ensures |workspaces| + count == |old(workspaces)|
    {
      ghost var p, vs := (w: W.Workspace) => w.id == id || w.isPinned, Model.workspaces;
      ghost var keep := seq(|vs|, i requires 0 <= i < |vs| => p(vs[i]));
      var doomed := Closable(0, |workspaces|, Some(id), keep);
      count := |doomed|;
      DropUnmarked(doomed, keep);
      KeptIsFilter(vs, keep, p);
      SelectFound(id);
    }

    /** Drops the unpinned workspaces among those from `lo` up to `hi`. */
    method DropUnpinned(lo: nat, hi: nat) returns (count: nat)
      requires Valid() && lo <= hi <= |workspaces|
      modifies this`workspaces, this`Model
      ensures Valid()
      ensures Model == old(Model).(workspaces := M.DroppedBetween(old(Model).workspaces, lo, hi))
      ensures |workspaces| + count == |old(workspaces)|
    {
      ghost var vs := Model.workspaces;
      ghost var keep := seq(|vs|, i requires 0 <= i < |vs| => lo <= i < hi ==> vs[i].isPinned);
      var doomed := Closable(lo, hi, None, keep);
      count := |doomed|;
      DropUnmarked(doomed, keep);
      KeptRange(vs, keep, lo, hi);
    }

    method CloseAbove(id: Id) returns (count: nat)
      requires Valid()
      modifies this
      ensures Valid() && Repr == old(Repr) && Model == M.CloseAbove(old(Model), id)
      ensures |workspaces| + count == |old(workspaces)|
    {
      var target := IndexOfId(id);
      if target.None? {
        return 0;
      }
      M.CloseAboveInSteps(Model, id, target.value);
      count := DropUnpinned(0, target.value);
      var k := IndexOfId(id);
      if k.Some? {
        Select(k);
      }
    }

    method CloseBelow(id: Id) returns (count: nat)
      requires Valid()
      modifies this
      ensures Valid() && Repr == old(Repr) && Model == M.CloseBelow(old(Model), id)
      ensures |workspaces| + count == |old(workspaces)|
    {
      var target := IndexOfId(id);
      if target.None? {
        return 0;
      }
      M.CloseBelowInSteps(Model, id, target.value);
      count := DropUnpinned(target.value + 1, |workspaces|);
      ClampSelection();
    }

    method ClampSelection()
      requires Valid()
      modifies this`selected, this`Model
      ensures Valid() && Model == M.Clamped(old(Model))
    {
      if selected.Some? && selected.value >= |workspaces| {
        Select(Some(if |workspaces| == 0 then 0 else |workspaces| - 1));
      }
    }

    method SelectFound(id: Id)
      requires Valid()
      modifies this`selected, this`Model
      ensures Valid() && Model == M.SelectFound(old(Model), old(Model).workspaces, id)
    {
      var k := IndexOfId(id);
      Select(if k.Some? then k else if workspaces == [] then None else Some(0));
    }

    method SelectIndex(index: nat) returns (done: bool)
      requires Valid()
      modifies this`selected, this`Model
      ensures Valid() && Model == M.SelectIndex(old(Model), index)
      ensures done == (index < |workspaces|)
    {
      done := index < |workspaces|;
      if done {
        Select(Some(index));
      }
    }

    /** Creates a workspace that holds the panel, and selects it. */
    method PlaceNew(id: Id, panel: W.Panel, directory: string, at: M.Placement)
      requires Valid() && (selected.Some? ==> selected.value < |workspaces|)
      modifies this
      ensures Valid() && fresh(Repr - old(Repr))
      ensures Model == M.Place(old(Model), W.Holding(id, panel, directory), at)
    {
      var w := new Workspace(id, panel, directory);
      Place(w, at);
    }

    /** The steps that only rearrange or shorten the list. */
    method PerformOnList(step: M.Step)
      requires Valid() && IsListStep(step) && (selected.Some? ==> selected.value < |workspaces|)
      modifies this
      ensures Valid() && Repr == old(Repr) && Model == M.Do(old(Model), step)
    {
      match step
      case RemoveWorkspace(index) => var gone := Remove(index);
      case MoveTo(from, to) => var moved := MoveWorkspace(from, to);
      case KeepOnly(id) => var count := CloseOthers(id);
      case DropAbove(id) => var count := CloseAbove(id);
      case DropBelow(id) => var count := CloseBelow(id);
      case Select(index) => var done := SelectIndex(index);
      case Next(wrap) => SelectNext(wrap);
      case Previous(wrap) => SelectPrevious(wrap);
    }

    /** The steps that bring, move or change panels. */
    method PerformOnPanels(step: M.Step, placeholder: Id)
      requires Valid() && !IsListStep(step) && (selected.Some? ==> selected.value < |workspaces|)
      requires step.InWorkspace? ==> step.index < |workspaces|
      requires forall w | w in workspaces :: placeholder !in w.panels
      modifies this, Repr
      ensures Valid() && fresh(Repr - old(Repr)) && Model == M.Do(old(Model), step)
    {
      match step
      case NewWorkspace(id, panel, directory, at) => PlaceNew(id, panel, directory, at);
      case InWorkspace(index, inner) => PerformWithin(index, inner);
      case SendPanel(panelId, target) => var moved := MovePanelToWorkspace(panelId, target);
      case BreakOut(newId) => BreakPane(newId, placeholder);
      case Close(panelId) => var closed := ClosePanel(panelId);
    }

    /** Any step of the manager's runs. A workspace broken out is created with a panel of the id `placeholder`. */
    method Perform(step: M.Step, placeholder: Id)
      requires Valid() && (selected.Some? ==> selected.value < |workspaces|)
      requires step.InWorkspace? ==> step.index < |workspaces|
      requires forall w | w in workspaces :: placeholder !in w.panels
      modifies this, Repr
      ensures Valid() && fresh(Repr - old(Repr)) && Model == M.Do(old(Model), step)
    {
      if IsListStep(step) {
        PerformOnList(step);
      } else {
        PerformOnPanels(step, placeholder);
      }
    }
  }
}
