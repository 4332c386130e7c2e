/** Operations that rearrange a tree without adding or dropping a panel. */
module Retiling {
  import opened Common
  import opened Layout
  import opened LayoutLaws

  datatype Retile =
    | Equal
    | MoveDivider(a: seq<Id>, b: seq<Id>, position: real)
    | ResizePane(id: Id, amount: real)
    | ReorderTab(id: Id, index: nat)
    | SwapPanels(x: Id, y: Id)

  function Retiled(n: Node, r: Retile): Node {
    match r
    case Equal => Equalize(n)
    case MoveDivider(a, b, v) => SetDivider(n, a, b, v)
    case ResizePane(id, amount) => Resize(n, id, amount)
    case ReorderTab(id, index) => Reorder(n, id, index)
    case SwapPanels(x, y) => Swap(n, x, y)
  }

  lemma {:induction false} SetDividerMovesDividersOnly(n: Node, a: seq<Id>, b: seq<Id>, v: real)
    ensures Equalize(SetDivider(n, a, b, v)) == Equalize(n)
  {
    if n.Split? {
      SetDividerMovesDividersOnly(n.first, a, b, v);
      SetDividerMovesDividersOnly(n.second, a, b, v);
    }
  }

  /** Trees that differ in dividers alone hold the same panels, shown the same way. */
  lemma DividersHoldNoPanels(n: Node, m: Node)
    requires Equalize(m) == Equalize(n)
    ensures PanelIds(m) == PanelIds(n)
    ensures (SelectionsInPanes(m) <==> SelectionsInPanes(n)) && (NoEmptyPane(m) <==> NoEmptyPane(n))
  {
    EqualizeKeepsPanes(n);
    EqualizeKeepsPanes(m);
  }

  /** A split with the pane of `id` right under it. */
  predicate InnermostAround(n: Node, id: Id) {
    n.Split? && ((n.first.Pane? && id in n.first.ids) || (n.second.Pane? && id in n.second.ids))
  }

  /** Resizing moves the divider of the innermost split around the panel, away from the panel's pane by the amount,
      kept inside [0.05, 0.95], and nothing else. */
  lemma {:induction false} ResizeMovesOneDivider(n: Node, id: Id, amount: real)
    ensures Equalize(Resize(n, id, amount)) == Equalize(n)
    ensures n.Pane? || id !in PanelIds(n) ==> Resize(n, id, amount) == n
    ensures n.Split? && id in PanelIds(n) ==>
              exists p :: IsSplitAt(n, p) && InnermostAround(SplitAt(n, p), id)
                 && Resize(n, id, amount) == Resized(n, p, id, amount)
  {
    if n.Split? && id in PanelIds(n) {
      var inFirst := id in PanelIds(n.first) && n.first.Split?;
      var side := if inFirst then n.first else n.second;
      if side.Split? && id in PanelIds(side) {
        ResizeMovesOneDivider(side, id, amount);
        var p :| IsSplitAt(side, p) && InnermostAround(SplitAt(side, p), id) &&
                 Resize(side, id, amount) == Resized(side, p, id, amount);
        var q := if inFirst then InFirst(p) else InSecond(p);
        assert IsSplitAt(n, q) && SplitAt(n, q) == SplitAt(side, p);
        assert Resize(n, id, amount) == Resized(n, q, id, amount);
      } else {
        assert IsSplitAt(n, Here) && Resize(n, id, amount) == Resized(n, Here, id, amount);
      }
    }
  }

  /** The pane of `id` grows by the amount: its divider moves right or down if the pane is first, else left or up. */
  ghost function Resized(n: Node, p: Path, id: Id, amount: real): Node
    requires IsSplitAt(n, p)
  {
    var split := SplitAt(n, p);
    WithDivider(n, p, Clamp(split.divider + if id in PanelIds(split.first) then amount else -amount, 0.05, 0.95))
  }

  lemma TabMoved(ids: seq<Id>, id: Id, index: nat)
    requires id in ids
    ensures var rest := RemoveFirst(ids, id);
            multiset(InsertAt(rest, if index < |rest| then index else |rest|, id)) == multiset(ids)
  {
    RemoveFirstCount(ids, id);
    var rest := RemoveFirst(ids, id);
    var k := if index < |rest| then index else |rest|;
    assert rest == rest[..k] + rest[k..];
  }

  lemma {:induction false} RemoveFirstCount<T>(s: seq<T>, x: T)
    requires x in s
    ensures multiset(s) == multiset(RemoveFirst(s, x)) + multiset{x}
  {
    assert s == [s[0]] + s[1..];
    if s[0] != x { RemoveFirstCount(s[1..], x); }
  }

  lemma {:induction false} ReorderKeepsPanels(n: Node, id: Id, index: nat)
    ensures multiset(PanelIds(Reorder(n, id, index))) == multiset(PanelIds(n))
    ensures SelectionsInPanes(n) ==> SelectionsInPanes(Reorder(n, id, index))
    ensures NoEmptyPane(n) ==> NoEmptyPane(Reorder(n, id, index))
  {
    match n
    case Pane(ids, sel) =>
      if id in ids {
        TabMoved(ids, id, index);
        SameMultisetSameMembers(PanelIds(Reorder(n, id, index)), ids);
      }
    case Split(_, _, f, s) =>
      ReorderKeepsPanels(f, id, index);
      ReorderKeepsPanels(s, id, index);
  }

  /** A moved tab stands at the position asked for, or last, and the other tabs keep their order. */
  lemma {:induction false} ReorderPutsTabThere(n: Node, id: Id, index: nat)
    requires PaneOf(n, id).Some?
    ensures
      var before, after := PaneOf(n, id).value, PaneOf(Reorder(n, id, index), id);
      && after.Some? && |after.value| == |before| && before != []
      && after.value[if index < |before| then index else |before| - 1] == id
      && RemoveAt(after.value, if index < |before| then index else |before| - 1) == RemoveFirst(before, id)
  {
    match n
    case Pane(ids, _) =>
      TabLands(ids, id, if index < |ids| then index else |ids| - 1);
    case Split(_, _, f, s) =>
      ReorderInSide(n, id, index);
      ReorderPutsTabThere(if id in PanelIds(f) then f else s, id, index);
  }

  lemma TabLands(ids: seq<Id>, id: Id, k: nat)
    requires id in ids && k < |ids|
    ensures |RemoveFirst(ids, id)| == |ids| - 1
    ensures InsertAt(RemoveFirst(ids, id), k, id)[k] == id
    ensures RemoveAt(InsertAt(RemoveFirst(ids, id), k, id), k) == RemoveFirst(ids, id)
  {
    RemoveFirstLength(ids, id);
  }

  lemma ReorderInSide(n: Node, id: Id, index: nat)
    requires n.Split? && PaneOf(n, id).Some?
    ensures
      var side := if id in PanelIds(n.first) then n.first else n.second;
      PaneOf(n, id) == PaneOf(side, id) && PaneOf(Reorder(n, id, index), id) == PaneOf(Reorder(side, id, index), id)
  {
    PaneOfMember(n.first, id);
    var f := Reorder(n.first, id, index);
    ReorderKeepsPanels(n.first, id, index);
    assert id in multiset(PanelIds(f)) <==> id in multiset(PanelIds(n.first));
    PaneOfMember(f, id);
  }

  lemma {:induction false} RemoveFirstLength<T>(s: seq<T>, x: T)
    requires x in s
    ensures |RemoveFirst(s, x)| == |s| - 1
  {
    if s[0] != x {
      RemoveFirstLength(s[1..], x);
    }
  }

  /** The panes of target and newcomer, before and after a tab is added, in the side of a split that
      the target is in. */
  lemma TabInSide(n: Node, target: Id, id: Id)
    requires n.Split? && target in PanelIds(n) && id !in PanelIds(n)
    ensures
      var first := target in PanelIds(n.first);
      var side, m := if first then n.first else n.second, AddToPane(n, target, id);
      && target in PanelIds(side) && id !in PanelIds(side)
      && PaneOf(n, target) == PaneOf(side, target)
      && PaneOf(m, id) == PaneOf(AddToPane(side, target, id), id)
      && Shown(m, id) == Shown(AddToPane(side, target, id), id)
  {
    var first := target in PanelIds(n.first);
    PaneOfMember(n.first, target);
    PaneOfMember(n.first, id);
    var side := if first then n.first else n.second;
    TabIsMember(side, target, id);
    PaneOfMember(AddToPane(n.first, target, id), id);
  }

  lemma TabInPane(ids: seq<Id>, sel: Option<Id>, target: Id, id: Id)
    requires target in ids
    ensures
      var k := IndexOf(ids, target) + 1;
      && AddToPane(Pane(ids, sel), target, id) == Pane(InsertAt(ids, k, id), Some(id))
      && id in InsertAt(ids, k, id)
  {
    var k := IndexOf(ids, target) + 1;
    assert InsertAt(ids, k, id)[k] == id;
  }

  lemma {:induction false} TabStandsAfterTarget(n: Node, target: Id, id: Id)
    requires target in PanelIds(n) && id !in PanelIds(n)
    ensures PaneOf(n, target).Some? && target in PaneOf(n, target).value
    ensures
      var before := PaneOf(n, target).value;
      PaneOf(AddToPane(n, target, id), id) == Some(InsertAt(before, IndexOf(before, target) + 1, id))
    ensures Shown(AddToPane(n, target, id), id) == Some(id)
  {
    match n
    case Pane(ids, sel) => TabInPane(ids, sel, target, id);
    case Split(_, _, f, s) =>
      TabInSide(n, target, id);
      TabStandsAfterTarget(if target in PanelIds(f) then f else s, target, id);
  }

  lemma {:induction false} TabDropsOut(n: Node, target: Id, id: Id)
    requires target in PanelIds(n) && id !in PanelIds(n)
    ensures RemoveFirst(PanelIds(AddToPane(n, target, id)), id) == PanelIds(n)
  {
    match n
    case Pane(ids, _) =>
      InsertedOnce(ids, IndexOf(ids, target) + 1, id);
    case Split(_, _, f, s) =>
      var first := target in PanelIds(f);
      TabDropsOut(if first then f else s, target, id);
      TabIsMember(if first then f else s, target, id);
      if first {
        RemoveFirstConcat(PanelIds(AddToPane(f, target, id)), PanelIds(s), id);
      } else {
        RemoveFirstConcat(PanelIds(f), PanelIds(AddToPane(s, target, id)), id);
      }
  }

  /** A panel added to a pane becomes the tab right after its target, and the one shown; removing it brings back the
      list of ids. */
  lemma TabIsAddedAfterTarget(n: Node, target: Id, id: Id)
    requires PaneOf(n, target).Some? && id !in PanelIds(n)
    ensures
      var before, after := PaneOf(n, target).value, PaneOf(AddToPane(n, target, id), id);
      && after.Some? && RemoveFirst(after.value, id) == before && target in before
      && IndexOf(before, target) + 1 < |after.value| && after.value[IndexOf(before, target) + 1] == id
    ensures Shown(AddToPane(n, target, id), id) == Some(id)
    ensures PanelIds(Remove(AddToPane(n, target, id), id)) == PanelIds(n)
  {
    PaneOfMember(n, target);
    TabStandsAfterTarget(n, target, id);
    var before := PaneOf(n, target).value;
    InsertedOnce(before, IndexOf(before, target) + 1, id);
    TabIsRemovedAgain(n, target, id);
  }

  lemma TabIsRemovedAgain(n: Node, target: Id, id: Id)
    requires target in PanelIds(n) && id !in PanelIds(n)
    ensures PanelIds(Remove(AddToPane(n, target, id), id)) == PanelIds(n)
  {
    TabDropsOut(n, target, id);
    RemoveDeletesOneId(AddToPane(n, target, id), id);
  }

  lemma {:induction false} TabIsMember(n: Node, target: Id, id: Id)
    requires target in PanelIds(n)
    ensures multiset(PanelIds(AddToPane(n, target, id))) == multiset(PanelIds(n)) + multiset{id}
    ensures id in PanelIds(AddToPane(n, target, id))
  {
    var m := AddToPane(n, target, id);
    match n
    case Pane(ids, _) =>
      var k := IndexOf(ids, target) + 1;
      assert ids == ids[..k] + ids[k..];
    case Split(_, _, f, s) =>
      TabIsMember(if target in PanelIds(f) then f else s, target, id);
      assert PanelIds(m) == PanelIds(m.first) + PanelIds(m.second);
  }

  lemma {:induction false} TabKeepsPanesFilled(n: Node, target: Id, id: Id)
    ensures SelectionsInPanes(n) ==> SelectionsInPanes(AddToPane(n, target, id))
    ensures NoEmptyPane(n) ==> NoEmptyPane(AddToPane(n, target, id))
  {
    match n
    case Pane(ids, _) =>
      if target in ids {
        var k := IndexOf(ids, target) + 1;
        assert InsertAt(ids, k, id)[k] == id;
      }
    case Split(_, _, f, s) =>
      TabKeepsPanesFilled(f, target, id);
      TabKeepsPanesFilled(s, target, id);
  }

  lemma {:induction false} InsertedOnce<T>(s: seq<T>, k: nat, x: T)
    requires k <= |s| && x !in s
    ensures RemoveFirst(InsertAt(s, k, x), x) == s
  {
    if k > 0 {
      InsertedOnce(s[1..], k - 1, x);
      assert InsertAt(s, k, x)[1..] == InsertAt(s[1..], k - 1, x);
      assert InsertAt(s, k, x)[0] == s[0] && s[0] in s;
    } else {
      assert InsertAt(s, 0, x)[1..] == s;
    }
  }

  lemma {:induction false} SwapExchangesIds(n: Node, a: Id, b: Id)
    ensures PanelIds(Swap(n, a, b)) == AllExchanged(PanelIds(n), a, b)
    ensures SelectionsInPanes(n) ==> SelectionsInPanes(Swap(n, a, b))
    ensures NoEmptyPane(n) ==> NoEmptyPane(Swap(n, a, b))
  {
    match n
    case Pane(ids, sel) =>
      if SelectionsInPanes(n) && ids != [] {
        var i :| 0 <= i < |ids| && ids[i] == sel.value;
        assert AllExchanged(ids, a, b)[i] == Exchanged(sel.value, a, b);
      }
    case Split(_, _, f, s) =>
      SwapExchangesIds(f, a, b);
      SwapExchangesIds(s, a, b);
  }

  /** Swapping twice restores the tree. */
  lemma {:induction false} SwapTwice(n: Node, a: Id, b: Id)
    ensures Swap(Swap(n, a, b), a, b) == n
  {
    match n
    case Pane(ids, _) =>
      assert AllExchanged(AllExchanged(ids, a, b), a, b) == ids;
    case Split(_, _, f, s) =>
      SwapTwice(f, a, b);
      SwapTwice(s, a, b);
  }

  lemma ExchangedMembers(s: seq<Id>, a: Id, b: Id)
    requires a in s && b in s
    ensures forall x :: x in AllExchanged(s, a, b) <==> x in s
    ensures Distinct(s) ==> Distinct(AllExchanged(s, a, b))
  {
    var t := AllExchanged(s, a, b);
    forall x | x in s ensures x in t {
      var i :| 0 <= i < |s| && s[i] == Exchanged(x, a, b);
      assert t[i] == x;
    }
  }

  /** No retiling adds, drops or repeats a panel, hides a selection or empties a pane. */
  lemma RetilingKeepsPanels(n: Node, r: Retile)
    requires Distinct(PanelIds(n))
    requires r.SwapPanels? ==> r.x in PanelIds(n) && r.y in PanelIds(n)
    ensures Distinct(PanelIds(Retiled(n, r)))
    ensures forall x :: x in PanelIds(Retiled(n, r)) <==> x in PanelIds(n)
    ensures SelectionsInPanes(n) ==> SelectionsInPanes(Retiled(n, r))
    ensures NoEmptyPane(n) ==> NoEmptyPane(Retiled(n, r))
  {
    match r
    case Equal => EqualizeKeepsPanes(n);
    case MoveDivider(a, b, v) =>
      SetDividerMovesDividersOnly(n, a, b, v);
      DividersHoldNoPanels(n, SetDivider(n, a, b, v));
    case ResizePane(id, amount) =>
      ResizeMovesOneDivider(n, id, amount);
      DividersHoldNoPanels(n, Resize(n, id, amount));
    case ReorderTab(id, index) => ReorderKeepsMembers(n, id, index);
    case SwapPanels(x, y) =>
      SwapExchangesIds(n, x, y);
      ExchangedMembers(PanelIds(n), x, y);
  }

  lemma ReorderKeepsMembers(n: Node, id: Id, index: nat)
    requires Distinct(PanelIds(n))
    ensures Distinct(PanelIds(Reorder(n, id, index)))
    ensures forall x :: x in PanelIds(Reorder(n, id, index)) <==> x in PanelIds(n)
    ensures SelectionsInPanes(n) ==> SelectionsInPanes(Reorder(n, id, index))
    ensures NoEmptyPane(n) ==> NoEmptyPane(Reorder(n, id, index))
  {
    ReorderKeepsPanels(n, id, index);
    SameMultisetSameMembers(PanelIds(Reorder(n, id, index)), PanelIds(n));
    DistinctByCount(PanelIds(n));
    DistinctByCount(PanelIds(Reorder(n, id, index)));
  }
}
