/** What a save and a restore do to the workspaces of a session. */
module SessionLaws {
  import opened Common
  import opened LayoutLaws
  import opened WorkspaceModel
  import opened ManagerModel
  import opened ManagerLaws
  import opened Snapshot
  import opened Session

  /** The workspaces with panels, window by window. */
  function Regrouped(ws: seq<Workspace>, keys: seq<Option<Id>>): seq<Workspace> {
    if keys == [] then [] else Live(Group(ws, keys[0])) + Regrouped(ws, keys[1..])
  }

  // ----- what grouping picks, and in which order

  lemma OneMoreKept(ws: seq<Workspace>, part: seq<Workspace>, at: seq<nat>, keep: bool)
    requires ws != [] && KeptAt(ws[..|ws| - 1], part, at)
    ensures
      var n := |ws| - 1;
      KeptAt(ws, part + (if keep then [ws[n]] else []), at + if keep then [n] else [])
  {
  }

  lemma OneMorePlace(ws: seq<Workspace>, part: seq<Workspace>, at: seq<nat>, keep: bool, j: nat)
    requires j < |ws| && KeptAt(ws[..|ws| - 1], part, at)
    ensures
      var n := |ws| - 1;
      j in at + (if keep then [n] else []) <==> if j < n then j in at else keep
  {
  }

  /** The group of a window is, in order, the workspaces in that window. */
  lemma {:induction false} GroupPicks(ws: seq<Workspace>, key: Option<Id>) returns (at: seq<nat>)
    ensures KeptAt(ws, Group(ws, key), at) && forall j | 0 <= j < |ws| :: j in at <==> ws[j].windowId == key
  {
    at := [];
    if ws != [] {
      var n := |ws| - 1;
      var rest := GroupPicks(ws[..n], key);
      OneMoreKept(ws, Group(ws[..n], key), rest, ws[n].windowId == key);
      at := rest + if ws[n].windowId == key then [n] else [];
      forall j | 0 <= j < |ws| ensures j in at <==> ws[j].windowId == key {
        OneMorePlace(ws, Group(ws[..n], key), rest, ws[n].windowId == key, j);
        assert j < n ==> ws[..n][j] == ws[j];
      }
    }
  }

  /** The live ones are, in order, the workspaces with panels. */
  lemma {:induction false} LivePicks(ws: seq<Workspace>) returns (at: seq<nat>)
    ensures KeptAt(ws, Live(ws), at) && forall j | 0 <= j < |ws| :: j in at <==> ws[j].panels != map[]
  {
    at := [];
    if ws != [] {
      var n := |ws| - 1;
      var rest := LivePicks(ws[..n]);
      OneMoreKept(ws, Live(ws[..n]), rest, ws[n].panels != map[]);
      at := rest + if ws[n].panels != map[] then [n] else [];
      forall j | 0 <= j < |ws| ensures j in at <==> ws[j].panels != map[] {
        OneMorePlace(ws, Live(ws[..n]), rest, ws[n].panels != map[], j);
        assert j < n ==> ws[..n][j] == ws[j];
      }
    }
  }

  // ----- the grouping is stable

  lemma {:induction false} GroupConcat(a: seq<Workspace>, b: seq<Workspace>, key: Option<Id>)
    ensures Group(a + b, key) == Group(a, key) + Group(b, key)
  {
    if b == [] {
      assert a + b == a;
    } else {
      var n := |b| - 1;
      assert (a + b)[..|a + b| - 1] == a + b[..n];
      GroupConcat(a, b[..n], key);
    }
  }

  lemma {:induction false} GroupMembers(ws: seq<Workspace>, key: Option<Id>)
    ensures forall w :: w in Group(ws, key) <==> w in ws && w.windowId == key
  {
    if ws != [] {
      var n := |ws| - 1;
      GroupMembers(ws[..n], key);
      assert ws == ws[..n] + [ws[n]];
    }
  }

  lemma {:induction false} LiveMembers(ws: seq<Workspace>)
    ensures forall w :: w in Live(ws) <==> w in ws && w.panels != map[]
  {
    if ws != [] {
      var n := |ws| - 1;
      LiveMembers(ws[..n]);
      assert ws == ws[..n] + [ws[n]];
    }
  }

  lemma {:induction false} LiveOfGroup(ws: seq<Workspace>, key: Option<Id>)
    ensures Live(Group(ws, key)) == Group(Live(ws), key)
  {
    if ws != [] {
      var n := |ws| - 1;
      var rest, last := ws[..n], ws[n];
      LiveOfGroup(rest, key);
      LiveConcat(Group(rest, key), if last.windowId == key then [last] else []);
      GroupConcat(Live(rest), if last.panels != map[] then [last] else [], key);
      OneAlone(last, key);
    }
  }

  lemma OneAlone(w: Workspace, key: Option<Id>)
    ensures Group([w], key) == if w.windowId == key then [w] else []
    ensures Live([w]) == if w.panels != map[] then [w] else []
  {
    assert [w][..0] == [];
  }

  lemma {:induction false} LiveConcat(a: seq<Workspace>, b: seq<Workspace>)
    ensures Live(a + b) == Live(a) + Live(b)
  {
    if b == [] {
      assert a + b == a;
    } else {
      var n := |b| - 1;
      assert (a + b)[..|a + b| - 1] == a + b[..n];
      LiveConcat(a, b[..n]);
    }
  }

  /** A group of a group is itself or nothing. */
  lemma {:induction false} GroupOfGroup(ws: seq<Workspace>, key: Option<Id>, other: Option<Id>)
    ensures Group(Group(ws, key), other) == if key == other then Group(ws, key) else []
  {
    if ws != [] {
      var n := |ws| - 1;
      GroupOfGroup(ws[..n], key, other);
      GroupConcat(Group(ws[..n], key), if ws[n].windowId == key then [ws[n]] else [], other);
      OneAlone(ws[n], other);
    }
  }

  lemma {:induction false} GroupOfRegrouped(ws: seq<Workspace>, keys: seq<Option<Id>>, key: Option<Id>)
    requires Ascending(keys)
    ensures Group(Regrouped(ws, keys), key) == if key in keys then Group(Live(ws), key) else []
  {
    if keys != [] {
      assert keys[0] !in keys[1..];
      GroupOfRegrouped(ws, keys[1..], key);
      LiveOfGroup(ws, keys[0]);
      GroupConcat(Live(Group(ws, keys[0])), Regrouped(ws, keys[1..]), key);
      GroupOfGroup(Live(ws), keys[0], key);
    }
  }

  lemma {:induction false} RegroupedMembers(ws: seq<Workspace>, keys: seq<Option<Id>>)
    ensures forall w :: w in Regrouped(ws, keys) <==> w in ws && w.panels != map[] && w.windowId in keys
  {
    if keys != [] {
      RegroupedMembers(ws, keys[1..]);
      GroupMembers(ws, keys[0]);
      LiveMembers(Group(ws, keys[0]));
    }
  }

  ghost predicate InOrder(ws: seq<Workspace>) {
    forall i, j | 0 <= i < j < |ws| :: !Before(ws[j].windowId, ws[i].windowId)
  }

  ghost predicate SameGroups(a: seq<Workspace>, b: seq<Workspace>) {
    forall key :: Group(a, key) == Group(b, key)
  }

  /** Ordered by window, with the workspaces of each window in their old order. */
  ghost predicate StablyGrouped(kept: seq<Workspace>, ws: seq<Workspace>) {
    InOrder(kept) && SameGroups(kept, ws)
  }

  lemma InOrderConcat(a: seq<Workspace>, b: seq<Workspace>, key: Option<Id>)
    requires InOrder(b) && forall w | w in a :: w.windowId == key
    requires forall w | w in b :: Before(key, w.windowId)
    ensures InOrder(a + b)
  {
    var c := a + b;
    forall i, j | 0 <= i < j < |c| ensures !Before(c[j].windowId, c[i].windowId) {
      if i < |a| {
        assert c[i] in a;
        assert j < |a| ==> c[j] in a;
        assert j >= |a| ==> c[j] in b;
      }
    }
  }

  lemma {:induction false} RegroupedInOrder(ws: seq<Workspace>, keys: seq<Option<Id>>)
    requires Ascending(keys)
    ensures InOrder(Regrouped(ws, keys))
  {
    if keys != [] {
      RegroupedInOrder(ws, keys[1..]);
      RegroupedMembers(ws, keys[1..]);
      GroupMembers(ws, keys[0]);
      LiveMembers(Group(ws, keys[0]));
      InOrderConcat(Live(Group(ws, keys[0])), Regrouped(ws, keys[1..]), keys[0]);
    }
  }

  lemma RegroupedIsStable(ws: seq<Workspace>, keys: seq<Option<Id>>)
    requires Ascending(keys) && forall k :: k in keys <==> Group(ws, k) != []
    ensures StablyGrouped(Regrouped(ws, keys), Live(ws))
    ensures
      var kept := Regrouped(ws, keys);
      forall i, j | 0 <= i < j < |kept| && kept[i].windowId.Some? ::
        kept[j].windowId.Some? && kept[i].windowId.value <= kept[j].windowId.value
  {
    RegroupedInOrder(ws, keys);
    forall key ensures Group(Regrouped(ws, keys), key) == Group(Live(ws), key) {
      GroupOfRegrouped(ws, keys, key);
      LiveOfGroup(ws, key);
    }
  }

  lemma LastOfGroup(ws: seq<Workspace>)
    requires ws != []
    ensures
      var x := ws[|ws| - 1];
      LastOpt(Group(ws, x.windowId)) == Some(x)
  {
  }

  /** In an ordered list, no window comes after that of the last workspace. */
  lemma LastIsLatest(ws: seq<Workspace>, w: Workspace)
    requires InOrder(ws) && w in ws
    ensures !Before(ws[|ws| - 1].windowId, w.windowId)
  {
    var i :| 0 <= i < |ws| && ws[i] == w;
  }

  lemma LastIsShared(a: seq<Workspace>, b: seq<Workspace>)
    requires SameGroups(a, b) && a != []
    ensures a[|a| - 1] in b
  {
    var x := a[|a| - 1];
    LastOfGroup(a);
    GroupMembers(b, x.windowId);
    assert Group(a, x.windowId) == Group(b, x.windowId);
  }

  lemma SameLast(a: seq<Workspace>, b: seq<Workspace>)
    requires InOrder(a) && InOrder(b) && SameGroups(a, b) && a != []
    ensures b != [] && a[|a| - 1] == b[|b| - 1]
  {
    var x := a[|a| - 1];
    LastIsShared(a, b);
    LastIsShared(b, a);
    LastIsLatest(a, b[|b| - 1]);
    LastIsLatest(b, x);
    LastOfGroup(a);
    LastOfGroup(b);
    assert Group(a, x.windowId) == Group(b, x.windowId);
  }

  lemma GroupWithLast(ws: seq<Workspace>, key: Option<Id>)
    requires ws != []
    ensures
      var w, rest := ws[|ws| - 1], Group(ws[..|ws| - 1], key);
      Group(ws, key) == if w.windowId == key then rest + [w] else rest
  {
  }

  lemma CancelLast<T>(x: seq<T>, y: seq<T>, w: T)
    requires x + [w] == y + [w]
    ensures x == y
  {
    assert x == (x + [w])[..|x + [w]| - 1];
    assert y == (y + [w])[..|y + [w]| - 1];
  }

  lemma WithoutLast(a: seq<Workspace>, b: seq<Workspace>, key: Option<Id>)
    requires a != [] && b != [] && a[|a| - 1] == b[|b| - 1] && Group(a, key) == Group(b, key)
    ensures Group(a[..|a| - 1], key) == Group(b[..|b| - 1], key)
  {
    GroupWithLast(a, key);
    GroupWithLast(b, key);
    var w := a[|a| - 1];
    if w.windowId == key {
      CancelLast(Group(a[..|a| - 1], key), Group(b[..|b| - 1], key), w);
    }
  }

  /** There is only one way to group stably. */
  lemma {:induction false} StableGroupingIsUnique(a: seq<Workspace>, b: seq<Workspace>)
    requires InOrder(a) && InOrder(b) && SameGroups(a, b)
    ensures a == b
  {
    if a == [] && b == [] {
    } else if a == [] {
      SameLast(b, a);
      assert false;
    } else {
      SameLast(a, b);
      var i, j := |a| - 1, |b| - 1;
      forall key ensures Group(a[..i], key) == Group(b[..j], key) {
        WithoutLast(a, b, key);
      }
      StableGroupingIsUnique(a[..i], b[..j]);
      assert a == a[..i] + [a[i]] && b == b[..j] + [b[j]];
    }
  }

  // ----- what is restored

  type Relation = (Workspace, Workspace) -> bool

  /** `back` restores `kept`, in order. */
  ghost predicate Matches(kept: seq<Workspace>, back: seq<Workspace>, rel: Relation) {
    |kept| == |back| && forall i | 0 <= i < |kept| :: rel(kept[i], back[i])
  }

  ghost predicate ShareWindow(ws: seq<Workspace>, i: nat, j: nat)
    requires i < |ws| && j < |ws|
  {
    ws[i].windowId == ws[j].windowId
  }

  /** Matched, and two share a window afterwards exactly when they did before. */
  ghost predicate ComesBack(kept: seq<Workspace>, back: seq<Workspace>, rel: Relation) {
    && Matches(kept, back, rel)
    && forall i, j | 0 <= i < j < |kept| :: ShareWindow(kept, i, j) <==> ShareWindow(back, i, j)
  }

  ghost predicate AllIn(ws: seq<Workspace>, window: Option<Id>) {
    forall i | 0 <= i < |ws| :: ws[i].windowId == window
  }

  ghost predicate NoneIn(ws: seq<Workspace>, window: Option<Id>) {
    forall i | 0 <= i < |ws| :: ws[i].windowId != window
  }

  ghost predicate NeverRepeats(ids: nat -> Id) {
    forall i: nat, j: nat :: i < j ==> ids(i) != ids(j)
  }

  /** Two parts: within the first all share a window, before and after; across the parts none do. */
  lemma PartsComeBack(
    a: seq<Workspace>, b: seq<Workspace>, x: seq<Workspace>, y: seq<Workspace>,
    key: Option<Id>, window: Option<Id>, rel: Relation)
    requires Matches(a, x, rel) && ComesBack(b, y, rel)
    requires AllIn(a, key) && AllIn(x, window) && NoneIn(b, key) && NoneIn(y, window)
    ensures ComesBack(a + b, x + y, rel)
  {
    forall i, j | 0 <= i < j < |a + b| ensures ShareWindow(a + b, i, j) <==> ShareWindow(x + y, i, j) {
      if i >= |a| {
        assert ShareWindow(b, i - |a|, j - |a|) <==> ShareWindow(y, i - |a|, j - |a|);
      }
    }
  }

  // one window

  lemma LiveHead(ws: seq<Workspace>)
    requires ws != []
    ensures Live(ws) == (if ws[0].panels != map[] then [ws[0]] else []) + Live(ws[1..])
  {
    assert ws == [ws[0]] + ws[1..];
    LiveConcat([ws[0]], ws[1..]);
    OneAlone(ws[0], None);
  }

  lemma HasPanelsHead(list: WindowSnapshot)
    requires list != []
    ensures HasPanels(list) <==> list[0].panels != [] || HasPanels(list[1..])
  {
    assert forall i | 1 <= i < |list| :: list[1..][i - 1] == list[i];
    assert forall i | 0 <= i < |list| - 1 :: list[i + 1] == list[1..][i];
  }

  lemma {:induction false} WindowIsLive(list: WindowSnapshot, n: nat, window: Id, ids: nat -> Id)
    ensures HasPanels(list) <==> RestoreWindow(list, n, window, ids) != []
  {
    if list != [] {
      HasPanelsHead(list);
      WindowIsLive(list[1..], n, window, ids);
    }
  }

  /** What one window restores is all in that window. */
  lemma {:induction false} WindowIsOne(list: WindowSnapshot, n: nat, window: Id, ids: nat -> Id)
    ensures AllIn(RestoreWindow(list, n, window, ids), Some(window))
  {
    if list != [] {
      WindowIsOne(list[1..], if list[0].panels == [] then n else n + 1, window, ids);
    }
  }

  ghost function Surviving(keepRatios: bool): Relation {
    (w: Workspace, back: Workspace) => ComesBackAs(w, back, keepRatios)
  }

  lemma MatchesCons(v: Workspace, kept: seq<Workspace>, w: Workspace, back: seq<Workspace>, rel: Relation)
    requires rel(v, w) && Matches(kept, back, rel)
    ensures Matches([v] + kept, [w] + back, rel)
  {
  }

  /** One window: its workspaces with panels come back. */
  lemma {:induction false} WindowComesBack(
    list: WindowSnapshot, group: seq<Workspace>, keepRatios: bool, n: nat, window: Id, ids: nat -> Id)
    requires Snapshots(list, group, keepRatios) && forall i | 0 <= i < |group| :: KeyedById(group[i].panels)
    ensures Matches(Live(group), RestoreWindow(list, n, window, ids), Surviving(keepRatios))
  {
    if list != [] {
      WorkspaceComesBack(list[0], group[0], keepRatios, ids(n), window);
      LiveHead(group);
      if list[0].panels == [] {
        WindowComesBack(list[1..], group[1..], keepRatios, n, window, ids);
      } else {
        WindowComesBack(list[1..], group[1..], keepRatios, n + 1, window, ids);
        MatchesCons(group[0], Live(group[1..]), RestoreWorkspace(list[0], ids(n), window),
                    RestoreWindow(list[1..], n + 1, window, ids), Surviving(keepRatios));
      }
    }
  }

  // all windows

  ghost predicate IsDrawn(window: Option<Id>, k: nat, windowIds: nat -> Id) {
    exists m: nat :: m >= k && window == Some(windowIds(m))
  }

  /** The windows of `back` are drawn from the `k`th on. */
  ghost predicate DrawnFrom(back: seq<Workspace>, k: nat, windowIds: nat -> Id) {
    forall i | 0 <= i < |back| :: IsDrawn(back[i].windowId, k, windowIds)
  }

  lemma {:induction false} DrawnInTurn(
    windows: seq<WindowSnapshot>, k: nat, n: nat, windowIds: nat -> Id, ids: nat -> Id)
    ensures DrawnFrom(RestoreWindows(windows, k, n, windowIds, ids), k, windowIds)
  {
    if windows != [] {
      if !HasPanels(windows[0]) {
        DrawnInTurn(windows[1..], k, n, windowIds, ids);
      } else {
        var here := RestoreWindow(windows[0], n, windowIds(k), ids);
        WindowIsOne(windows[0], n, windowIds(k), ids);
        DrawnInTurn(windows[1..], k + 1, n + |here|, windowIds, ids);
        DrawnConcat(here, RestoreWindows(windows[1..], k + 1, n + |here|, windowIds, ids), k, windowIds);
      }
    }
  }

  lemma DrawnConcat(here: seq<Workspace>, rest: seq<Workspace>, k: nat, windowIds: nat -> Id)
    requires AllIn(here, Some(windowIds(k))) && DrawnFrom(rest, k + 1, windowIds)
    ensures DrawnFrom(here + rest, k, windowIds)
  {
    var id := windowIds(k);
    assert IsDrawn(Some(id), k, windowIds);
    forall i | 0 <= i < |rest| ensures IsDrawn(rest[i].windowId, k, windowIds) {
      assert IsDrawn(rest[i].windowId, k + 1, windowIds);
    }
  }

  /** The groups after the first are in other windows, before and after. */
  lemma RestIsElsewhere(
    ws: seq<Workspace>, keys: seq<Option<Id>>, windows: seq<WindowSnapshot>,
    k: nat, n: nat, windowIds: nat -> Id, ids: nat -> Id)
    requires keys != [] && Ascending(keys) && NeverRepeats(windowIds)
    ensures NoneIn(Regrouped(ws, keys[1..]), keys[0])
    ensures NoneIn(RestoreWindows(windows, k + 1, n, windowIds, ids), Some(windowIds(k)))
  {
    var kept := Regrouped(ws, keys[1..]);
    RegroupedMembers(ws, keys[1..]);
    assert forall i | 0 <= i < |kept| :: kept[i] in kept;
    DrawnInTurn(windows, k + 1, n, windowIds, ids);
  }

  lemma GroupIsOne(ws: seq<Workspace>, key: Option<Id>)
    ensures AllIn(Live(Group(ws, key)), key)
  {
    var kept := Live(Group(ws, key));
    GroupMembers(ws, key);
    LiveMembers(Group(ws, key));
    assert forall i | 0 <= i < |kept| :: kept[i] in kept;
  }

  /** Wherever it is restored, the window brings back what its group keeps. */
  ghost predicate Brings(list: WindowSnapshot, kept: seq<Workspace>, rel: Relation, ids: nat -> Id) {
    forall n: nat, window: Id :: Matches(kept, RestoreWindow(list, n, window, ids), rel)
  }

  lemma GroupComesBack(
    ws: seq<Workspace>, key: Option<Id>, list: WindowSnapshot, keepRatios: bool, ids: nat -> Id)
    requires forall i | 0 <= i < |ws| :: KeyedById(ws[i].panels)
    requires Snapshots(list, Group(ws, key), keepRatios)
    ensures Brings(list, Live(Group(ws, key)), Surviving(keepRatios), ids)
  {
    var group := Group(ws, key);
    GroupMembers(ws, key);
    assert forall i | 0 <= i < |group| :: group[i] in group && group[i] in ws;
    forall n: nat, window: Id ensures Matches(Live(group), RestoreWindow(list, n, window, ids), Surviving(keepRatios)) {
      WindowComesBack(list, group, keepRatios, n, window, ids);
    }
  }

  /** A window without panels brings nothing back, nor does its group. */
  lemma DeadWindow(
    ws: seq<Workspace>, keys: seq<Option<Id>>, windows: seq<WindowSnapshot>,
    k: nat, n: nat, windowIds: nat -> Id, ids: nat -> Id)
    requires keys != [] && windows != [] && Live(Group(ws, keys[0])) == [] && !HasPanels(windows[0])
    ensures Regrouped(ws, keys) == Regrouped(ws, keys[1..])
    ensures RestoreWindows(windows, k, n, windowIds, ids) == RestoreWindows(windows[1..], k, n, windowIds, ids)
  {
  }

  lemma LiveWindow(
    windows: seq<WindowSnapshot>, k: nat, n: nat, windowIds: nat -> Id, ids: nat -> Id, here: seq<Workspace>)
    requires windows != [] && HasPanels(windows[0]) && here == RestoreWindow(windows[0], n, windowIds(k), ids)
    ensures RestoreWindows(windows, k, n, windowIds, ids) ==
              here + RestoreWindows(windows[1..], k + 1, n + |here|, windowIds, ids)
  {
  }

  /** A window with panels comes back ahead of the later ones. */
  lemma FirstWindowComesBack(
    ws: seq<Workspace>, keys: seq<Option<Id>>, windows: seq<WindowSnapshot>, rel: Relation,
    k: nat, n: nat, windowIds: nat -> Id, ids: nat -> Id, here: seq<Workspace>, rest: seq<Workspace>)
    requires keys != [] && windows != [] && Ascending(keys) && NeverRepeats(windowIds)
    requires here == RestoreWindow(windows[0], n, windowIds(k), ids)
    requires rest == RestoreWindows(windows[1..], k + 1, n + |here|, windowIds, ids)
    requires Matches(Live(Group(ws, keys[0])), here, rel) && ComesBack(Regrouped(ws, keys[1..]), rest, rel)
    ensures ComesBack(Regrouped(ws, keys), here + rest, rel)
  {
    RestIsElsewhere(ws, keys, windows[1..], k, n + |here|, windowIds, ids);
    GroupIsOne(ws, keys[0]);
    WindowIsOne(windows[0], n, windowIds(k), ids);
    PartsComeBack(
      Live(Group(ws, keys[0])), Regrouped(ws, keys[1..]), here, rest, keys[0], Some(windowIds(k)), rel);
  }

  ghost predicate EachBrings(
    ws: seq<Workspace>, keys: seq<Option<Id>>, windows: seq<WindowSnapshot>, rel: Relation, ids: nat -> Id)
  {
    |windows| == |keys| && forall i | 0 <= i < |keys| :: Brings(windows[i], Live(Group(ws, keys[i])), rel, ids)
  }

  lemma EachOfRest(
    ws: seq<Workspace>, keys: seq<Option<Id>>, windows: seq<WindowSnapshot>, rel: Relation, ids: nat -> Id)
    requires keys != [] && EachBrings(ws, keys, windows, rel, ids)
    ensures EachBrings(ws, keys[1..], windows[1..], rel, ids)
    ensures forall n: nat, window: Id ::
              Matches(Live(Group(ws, keys[0])), RestoreWindow(windows[0], n, window, ids), rel)
  {
    assert Brings(windows[0], Live(Group(ws, keys[0])), rel, ids);
  }

  /** The windows of a session come back, one for each group that holds a panel. */
  lemma {:induction false} WindowsComeBack(
    ws: seq<Workspace>, keys: seq<Option<Id>>, windows: seq<WindowSnapshot>, rel: Relation,
    k: nat, n: nat, windowIds: nat -> Id, ids: nat -> Id)
    requires Ascending(keys) && NeverRepeats(windowIds) && EachBrings(ws, keys, windows, rel, ids)
    ensures ComesBack(Regrouped(ws, keys), RestoreWindows(windows, k, n, windowIds, ids), rel)
  {
    if keys != [] {
      var here := RestoreWindow(windows[0], n, windowIds(k), ids);
      EachOfRest(ws, keys, windows, rel, ids);
      WindowIsLive(windows[0], n, windowIds(k), ids);
      if !HasPanels(windows[0]) {
        WindowsComeBack(ws, keys[1..], windows[1..], rel, k, n, windowIds, ids);
        DeadWindow(ws, keys, windows, k, n, windowIds, ids);
      } else {
        WindowsComeBack(ws, keys[1..], windows[1..], rel, k + 1, n + |here|, windowIds, ids);
        LiveWindow(windows, k, n, windowIds, ids, here);
        FirstWindowComesBack(ws, keys, windows, rel, k, n, windowIds, ids, here,
                             RestoreWindows(windows[1..], k + 1, n + |here|, windowIds, ids));
      }
    }
  }

  /** A saved session comes back as the workspaces that held a panel, stably grouped by window; the last is selected. */
  lemma SessionComesBack(
    ws: seq<Workspace>, keys: seq<Option<Id>>, windows: seq<WindowSnapshot>, keepRatios: bool,
    current: Manager, windowIds: nat -> Id, ids: nat -> Id)
    requires ws != [] && forall i | 0 <= i < |ws| :: KeyedById(ws[i].panels)
    requires IsSession(ws, keys, windows, keepRatios) && NeverRepeats(windowIds)
    ensures
      var kept := Regrouped(ws, keys);
      var tm := Restored(windows, current, windowIds, ids);
      && StablyGrouped(kept, Live(ws))
      && ComesBack(kept, tm.workspaces, Surviving(keepRatios))
      && tm.selected == if kept == [] then None else Some(|kept| - 1)
  {
    RegroupedIsStable(ws, keys);
    forall i | 0 <= i < |keys| ensures Brings(windows[i], Live(Group(ws, keys[i])), Surviving(keepRatios), ids) {
      GroupComesBack(ws, keys[i], windows[i], keepRatios, ids);
    }
    WindowsComeBack(ws, keys, windows, Surviving(keepRatios), 0, 0, windowIds, ids);
    SomethingSaved(ws, keys, windows, keepRatios);
  }

  lemma SomethingSaved(ws: seq<Workspace>, keys: seq<Option<Id>>, windows: seq<WindowSnapshot>, keepRatios: bool)
    requires ws != [] && IsSession(ws, keys, windows, keepRatios)
    ensures CountWorkspaces(windows) > 0
  {
    GroupMembers(ws, ws[0].windowId);
    assert ws[0] in Group(ws, ws[0].windowId);
    assert ws[0].windowId in keys && keys[0] in keys;
    assert Snapshots(windows[0], Group(ws, keys[0]), keepRatios);
  }

  /** Nothing saved, nothing restored: the tab manager stays as it is. */
  lemma EmptySessionChangesNothing(
    keys: seq<Option<Id>>, windows: seq<WindowSnapshot>, keepRatios: bool,
    current: Manager, windowIds: nat -> Id, ids: nat -> Id)
    requires IsSession([], keys, windows, keepRatios)
    ensures Restored(windows, current, windowIds, ids) == current
  {
    assert forall key :: Group([], key) == [];
    assert forall i | 0 <= i < |keys| :: keys[i] in keys;
  }

  // ----- the invariant over a restart

  lemma SoundWithLast(ws: seq<Workspace>)
    requires Sound(ws) && ws != []
    ensures
      var n := |ws| - 1;
      Sound(ws[..n]) && Sound([ws[n]]) && forall v | v in ws[..n] :: Apart(v, ws[n])
  {
    var n := |ws| - 1;
    assert ws == ws[..n] + [ws[n]];
    SoundParts(ws[..n], [ws[n]]);
  }

  lemma {:induction false} GroupIsSound(ws: seq<Workspace>, key: Option<Id>)
    requires Sound(ws)
    ensures Sound(Group(ws, key))
  {
    if ws != [] {
      var n := |ws| - 1;
      SoundWithLast(ws);
      GroupIsSound(ws[..n], key);
      GroupMembers(ws[..n], key);
      SoundParts(Group(ws[..n], key), if ws[n].windowId == key then [ws[n]] else []);
    }
  }

  lemma {:induction false} LiveIsSound(ws: seq<Workspace>)
    requires Sound(ws)
    ensures Sound(Live(ws))
  {
    if ws != [] {
      var n := |ws| - 1;
      SoundWithLast(ws);
      LiveIsSound(ws[..n]);
      LiveMembers(ws[..n]);
      SoundParts(Live(ws[..n]), if ws[n].panels != map[] then [ws[n]] else []);
    }
  }

  lemma DifferentAreApart(ws: seq<Workspace>, v: Workspace, w: Workspace)
    requires Sound(ws) && v in ws && w in ws && v != w
    ensures Apart(v, w)
  {
    var i :| 0 <= i < |ws| && ws[i] == v;
    var j :| 0 <= j < |ws| && ws[j] == w;
    OthersAreApart(ws, i, j);
  }

  lemma {:induction false} RegroupedIsSound(ws: seq<Workspace>, keys: seq<Option<Id>>)
    requires Sound(ws) && Ascending(keys)
    ensures Sound(Regrouped(ws, keys))
  {
    if keys != [] {
      var here, rest := Live(Group(ws, keys[0])), Regrouped(ws, keys[1..]);
      RegroupedIsSound(ws, keys[1..]);
      GroupIsSound(ws, keys[0]);
      LiveIsSound(Group(ws, keys[0]));
      GroupMembers(ws, keys[0]);
      LiveMembers(Group(ws, keys[0]));
      RegroupedMembers(ws, keys[1..]);
      forall v, w | v in here && w in rest ensures Apart(v, w) {
        DifferentAreApart(ws, v, w);
      }
      SoundParts(here, rest);
    }
  }

  /** The ids of `back` are those drawn from the `n`th on. */
  ghost predicate Numbered(back: seq<Workspace>, n: nat, ids: nat -> Id) {
    forall i | 0 <= i < |back| :: back[i].id == ids(n + i)
  }

  lemma NumberedConcat(a: seq<Workspace>, b: seq<Workspace>, n: nat, ids: nat -> Id)
    requires Numbered(a, n, ids) && Numbered(b, n + |a|, ids)
    ensures Numbered(a + b, n, ids)
  {
    forall i | 0 <= i < |a + b| ensures (a + b)[i].id == ids(n + i) {
      if i >= |a| {
        var j := i - |a|;
        assert b[j].id == ids(n + |a| + j) && n + |a| + j == n + i;
      }
    }
  }

  lemma {:induction false} WindowIsNumbered(list: WindowSnapshot, n: nat, window: Id, ids: nat -> Id)
    ensures Numbered(RestoreWindow(list, n, window, ids), n, ids)
  {
    if list != [] {
      if list[0].panels == [] {
        WindowIsNumbered(list[1..], n, window, ids);
      } else {
        WindowIsNumbered(list[1..], n + 1, window, ids);
        var first := [RestoreWorkspace(list[0], ids(n), window)];
        assert first[0].id == ids(n + 0);
        NumberedConcat(first, RestoreWindow(list[1..], n + 1, window, ids), n, ids);
      }
    }
  }

  lemma {:induction false} AllNumbered(
    windows: seq<WindowSnapshot>, k: nat, n: nat, windowIds: nat -> Id, ids: nat -> Id)
    ensures Numbered(RestoreWindows(windows, k, n, windowIds, ids), n, ids)
  {
    if windows != [] {
      if !HasPanels(windows[0]) {
        AllNumbered(windows[1..], k, n, windowIds, ids);
      } else {
        var here := RestoreWindow(windows[0], n, windowIds(k), ids);
        WindowIsNumbered(windows[0], n, windowIds(k), ids);
        AllNumbered(windows[1..], k + 1, n + |here|, windowIds, ids);
        NumberedConcat(here, RestoreWindows(windows[1..], k + 1, n + |here|, windowIds, ids), n, ids);
      }
    }
  }

  lemma SurvivorIsConsistent(w: Workspace, back: Workspace, keepRatios: bool)
    requires Consistent(w) && ComesBackAs(w, back, keepRatios)
    ensures Consistent(back) && (Tidy(w) ==> Tidy(back))
  {
    EqualizeKeepsPanes(w.layout);
    EqualizeKeepsPanes(back.layout);
  }

  lemma MatchedIsSound(kept: seq<Workspace>, back: seq<Workspace>, keepRatios: bool, ids: nat -> Id)
    requires Sound(kept) && Matches(kept, back, Surviving(keepRatios))
    requires Numbered(back, 0, ids) && NeverRepeats(ids)
    ensures Sound(back)
  {
    forall i | 0 <= i < |back| ensures Consistent(back[i]) {
      assert kept[i] in kept;
      SurvivorIsConsistent(kept[i], back[i], keepRatios);
    }
    forall i, j | 0 <= i < j < |back| ensures Apart(back[i], back[j]) {
      assert Apart(kept[i], kept[j]);
      assert ComesBackAs(kept[i], back[i], keepRatios) && ComesBackAs(kept[j], back[j], keepRatios);
      assert back[i].id == ids(0 + i) && back[j].id == ids(0 + j);
    }
  }

  /** A restart keeps the invariant of the tab manager. */
  lemma RestartKeepsInvariant(
    m: Manager, keys: seq<Option<Id>>, windows: seq<WindowSnapshot>, keepRatios: bool,
    current: Manager, windowIds: nat -> Id, ids: nat -> Id)
    requires Invariant(m) && Invariant(current)
    requires IsSession(m.workspaces, keys, windows, keepRatios) && NeverRepeats(windowIds) && NeverRepeats(ids)
    ensures Invariant(Restored(windows, current, windowIds, ids))
  {
    var ws := m.workspaces;
    if ws == [] {
      EmptySessionChangesNothing(keys, windows, keepRatios, current, windowIds, ids);
    } else {
      assert forall i | 0 <= i < |ws| :: ws[i] in ws;
      SessionComesBack(ws, keys, windows, keepRatios, current, windowIds, ids);
      SomethingSaved(ws, keys, windows, keepRatios);
      RegroupedIsSound(ws, keys);
      AllNumbered(windows, 0, 0, windowIds, ids);
      MatchedIsSound(Regrouped(ws, keys), Restored(windows, current, windowIds, ids).workspaces, keepRatios, ids);
    }
  }
}
