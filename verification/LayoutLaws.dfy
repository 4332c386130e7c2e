/** What the layout operations promise, for every tree unless a clause says otherwise. */
module LayoutLaws {
  import opened Common
  import opened Layout

  lemma EmptyMeansNoIds(n: Node)
    ensures IsEmpty(n) <==> PanelIds(n) == []
    ensures NoEmptyPane(n) ==> !IsEmpty(n)
  {
  }

  lemma DistinctSides(n: Node)
    requires n.Split? && Distinct(PanelIds(n))
    ensures Distinct(PanelIds(n.first)) && Distinct(PanelIds(n.second))
    ensures forall x | x in PanelIds(n.first) :: x !in PanelIds(n.second)
  {
    DistinctParts(PanelIds(n.first), PanelIds(n.second));
  }

  lemma AbsentTab(n: Node, target: Id, id: Id)
    ensures target !in PanelIds(n) ==> AddToPane(n, target, id) == n
  {
  }

  // ----- removal

  lemma {:induction false} RemoveDeletesOneId(n: Node, id: Id)
    ensures PanelIds(Remove(n, id)) == RemoveFirst(PanelIds(n), id)
  {
    match n
    case Pane(ids, _) =>
      RemoveFirstAbsent(ids, id);
    case Split(_, _, f, s) =>
      RemoveFirstConcat(PanelIds(f), PanelIds(s), id);
      RemoveDeletesOneId(f, id);
      RemoveDeletesOneId(s, id);
      RemoveFirstAbsent(PanelIds(s), id);
      var g := if id in PanelIds(f) then Remove(f, id) else f;
      var t := if id in PanelIds(f) then s else Remove(s, id);
      EmptyMeansNoIds(g);
      EmptyMeansNoIds(t);
  }

  lemma RemoveFirstAbsent<T>(s: seq<T>, x: T)
    ensures x !in s ==> RemoveFirst(s, x) == s
    ensures forall y | y in s && y != x :: y in RemoveFirst(s, x)
    ensures forall y | y in RemoveFirst(s, x) :: y in s
  {
  }

  lemma {:induction false} RemoveKeepsSelections(n: Node, id: Id)
    requires SelectionsInPanes(n)
    ensures SelectionsInPanes(Remove(n, id))
  {
    match n
    case Pane(ids, _) =>
      RemoveFirstAbsent(ids, id);
    case Split(_, _, f, s) =>
      RemoveKeepsSelections(f, id);
      RemoveKeepsSelections(s, id);
  }

  lemma {:induction false} RemoveKeepsPanesFilled(n: Node, id: Id)
    requires NoEmptyPane(n)
    ensures if PanelIds(n) == [id] then Remove(n, id).Pane? && PanelIds(Remove(n, id)) == []
            else NoEmptyPane(Remove(n, id))
  {
    RemoveDeletesOneId(n, id);
    match n
    case Pane(ids, _) =>
    case Split(_, _, f, s) =>
      EmptyMeansNoIds(f);
      EmptyMeansNoIds(s);
      RemoveKeepsPanesFilled(f, id);
      RemoveKeepsPanesFilled(s, id);
      EmptyMeansNoIds(Remove(f, id));
      EmptyMeansNoIds(Remove(s, id));
  }

  /** The panes left when `id` goes: the pane that held it loses it, and goes too if that empties it. */
  ghost function PanesWithout(ps: seq<Node>, id: Id): seq<Node>
    requires forall p | p in ps :: p.Pane?
  {
    if ps == [] then []
    else if id !in ps[0].ids then [ps[0]] + PanesWithout(ps[1..], id)
    else if ps[0].ids == [id] then ps[1..]
    else
      var others := RemoveFirst(ps[0].ids, id);
      [Pane(others, if ps[0].selected == Some(id) then HeadOpt(others) else ps[0].selected)] + ps[1..]
  }

  ghost predicate HeldIn(ps: seq<Node>, id: Id)
    requires forall p | p in ps :: p.Pane?
  {
    ps != [] && (id in ps[0].ids || HeldIn(ps[1..], id))
  }

  lemma {:induction false} PanesWithoutConcat(a: seq<Node>, b: seq<Node>, id: Id)
    requires forall p | p in a + b :: p.Pane?
    ensures PanesWithout(a + b, id) == if HeldIn(a, id) then PanesWithout(a, id) + b else a + PanesWithout(b, id)
  {
    if a == [] {
      assert a + b == b;
    } else {
      var t := a[1..];
      assert (a + b)[1..] == t + b && (a + b)[0] == a[0];
      PanesWithoutConcat(t, b, id);
      assert a == [a[0]] + t;
    }
  }

  lemma {:induction false} HeldInConcat(a: seq<Node>, b: seq<Node>, id: Id)
    requires forall p | p in a + b :: p.Pane?
    ensures HeldIn(a + b, id) <==> HeldIn(a, id) || HeldIn(b, id)
  {
    if a == [] {
      assert a + b == b;
    } else {
      assert (a + b)[1..] == a[1..] + b;
      HeldInConcat(a[1..], b, id);
    }
  }

  lemma {:induction false} PanesHoldIds(n: Node, id: Id)
    ensures forall p | p in Panes(n) :: p.Pane?
    ensures id in PanelIds(n) <==> HeldIn(Panes(n), id)
  {
    if n.Split? {
      PanesHoldIds(n.first, id);
      PanesHoldIds(n.second, id);
      HeldInConcat(Panes(n.first), Panes(n.second), id);
    } else {
      assert Panes(n)[1..] == [];
    }
  }

  lemma {:induction false} RemoveLeavesOtherPanes(n: Node, id: Id)
    requires NoEmptyPane(n) && PanelIds(n) != [id] && id in PanelIds(n)
    ensures forall p | p in Panes(n) :: p.Pane?
    ensures Panes(Remove(n, id)) == PanesWithout(Panes(n), id)
  {
    PanesHoldIds(n, id);
    match n
    case Pane(ids, _) =>
    case Split(_, _, f, s) =>
      EmptyMeansNoIds(f);
      EmptyMeansNoIds(s);
      PanesHoldIds(f, id);
      PanesHoldIds(s, id);
      PanesWithoutConcat(Panes(f), Panes(s), id);
      var side := if id in PanelIds(f) then f else s;
      RemoveKeepsPanesFilled(side, id);
      EmptyMeansNoIds(Remove(side, id));
      if PanelIds(side) == [id] {
        OnePaneOfOneId(side, id);
      } else {
        RemoveLeavesOtherPanes(side, id);
      }
  }

  lemma OnePaneOfOneId(n: Node, id: Id)
    requires NoEmptyPane(n) && PanelIds(n) == [id]
    ensures Panes(n) == [n] && n.Pane?
  {
    if n.Split? {
      EmptyMeansNoIds(n.first);
      EmptyMeansNoIds(n.second);
      assert false;
    }
  }

  // ----- insertion

  lemma {:induction false} InsertCounts(n: Node, target: Id, id: Id, o: Orientation, newFirst: bool)
    requires target in PanelIds(n)
    ensures multiset(PanelIds(InsertBeside(n, target, id, o, newFirst))) == multiset(PanelIds(n)) + multiset{id}
  {
    var m := InsertBeside(n, target, id, o, newFirst);
    match n
    case Pane(ids, _) =>
      assert PanelIds(m) == if newFirst then [id] + ids else ids + [id];
    case Split(_, _, f, s) =>
      InsertCounts(if target in PanelIds(f) then f else s, target, id, o, newFirst);
      assert PanelIds(m) == PanelIds(m.first) + PanelIds(m.second);
  }

  lemma InsertAddsOneId(n: Node, target: Id, id: Id, o: Orientation, newFirst: bool)
    requires target in PanelIds(n)
    ensures multiset(PanelIds(InsertBeside(n, target, id, o, newFirst))) == multiset(PanelIds(n)) + multiset{id}
    ensures forall x :: x in PanelIds(InsertBeside(n, target, id, o, newFirst)) <==> x in PanelIds(n) || x == id
  {
    InsertCounts(n, target, id, o, newFirst);
    SameMultisetSameMembers(PanelIds(InsertBeside(n, target, id, o, newFirst)), PanelIds(n) + [id]);
  }

  lemma {:induction false} InsertThenDropId(n: Node, target: Id, id: Id, o: Orientation, newFirst: bool)
    requires target in PanelIds(n) && id !in PanelIds(n)
    ensures RemoveFirst(PanelIds(InsertBeside(n, target, id, o, newFirst)), id) == PanelIds(n)
  {
    match n
    case Pane(ids, _) =>
      RemoveFirstConcat(ids, [id], id);
    case Split(_, _, f, s) =>
      var side := if target in PanelIds(f) then f else s;
      var grown := PanelIds(InsertBeside(side, target, id, o, newFirst));
      InsertAddsOneId(side, target, id, o, newFirst);
      InsertThenDropId(side, target, id, o, newFirst);
      if target in PanelIds(f) {
        RemoveFirstConcat(grown, PanelIds(s), id);
      } else {
        RemoveFirstConcat(PanelIds(f), grown, id);
      }
  }

  lemma InsertKeepsPanesFilled(n: Node, target: Id, id: Id, o: Orientation, newFirst: bool)
    ensures SelectionsInPanes(n) ==> SelectionsInPanes(InsertBeside(n, target, id, o, newFirst))
    ensures NoEmptyPane(n) ==> NoEmptyPane(InsertBeside(n, target, id, o, newFirst))
  {
  }

  lemma InsertKeepsDistinct(n: Node, target: Id, id: Id, o: Orientation, newFirst: bool)
    requires Distinct(PanelIds(n)) && target in PanelIds(n) && id !in PanelIds(n)
    ensures Distinct(PanelIds(InsertBeside(n, target, id, o, newFirst)))
  {
    InsertAddsOneId(n, target, id, o, newFirst);
    DistinctWithOneMore(PanelIds(n), PanelIds(InsertBeside(n, target, id, o, newFirst)), id);
  }

  /** A list with one new element more than a distinct one is distinct. */
  lemma DistinctWithOneMore(a: seq<Id>, b: seq<Id>, id: Id)
    requires Distinct(a) && id !in a && multiset(b) == multiset(a) + multiset{id}
    ensures Distinct(b) && forall x :: x in b <==> x in a || x == id
  {
    var plain := a + [id];
    assert multiset(plain) == multiset(a) + multiset{id};
    DistinctParts(a, [id]);
    DistinctByCount(plain);
    SameMultisetSameMembers(b, plain);
    DistinctByCount(b);
  }

  lemma SameMultisetSameMembers<T>(a: seq<T>, b: seq<T>)
    requires multiset(a) == multiset(b)
    ensures forall x :: x in a <==> x in b
    ensures |a| == |b|
  {
    forall x ensures x in a <==> x in b {
      assert x in a <==> x in multiset(a);
    }
    assert |multiset(a)| == |a|;
  }

  lemma {:induction false} DistinctByCount<T>(s: seq<T>)
    ensures Distinct(s) <==> forall x | x in s :: multiset(s)[x] == 1
  {
    if s != [] {
      var h, t := s[0], s[1..];
      assert s == [h] + t;
      DistinctParts([h], t);
      DistinctByCount(t);
      forall x ensures multiset(s)[x] == multiset(t)[x] + if x == h then 1 else 0 {
        assert multiset(s) == multiset{h} + multiset(t);
      }
      if h in t {
        assert h in multiset(t);
        assert multiset(s)[h] != 1;
      } else {
        assert h !in multiset(t);
        if Distinct(t) {
          assert forall x | x in s :: multiset(s)[x] == 1;
        } else {
          var x :| x in t && multiset(t)[x] != 1;
          assert multiset(s)[x] != 1;
        }
      }
    }
  }

  /** Each split on the way down to `target` has a panel on its other side. */
  ghost predicate FilledBeside(n: Node, target: Id) {
    match n
    case Pane(_, _) => true
    case Split(_, _, f, s) =>
      if target in PanelIds(f) then !IsEmpty(s) && FilledBeside(f, target)
      else !IsEmpty(f) && FilledBeside(s, target)
  }

  ghost function Size(n: Node): nat {
    if n.Pane? then 1 else 1 + Size(n.first) + Size(n.second)
  }

  lemma CollapseNeverGrows(n: Node)
    requires n.Split?
    ensures Size(Collapse(n)) <= Size(n)
  {
  }

  lemma {:induction false} UndoneIsNoBigger(n: Node, target: Id, id: Id, o: Orientation, newFirst: bool)
    requires target in PanelIds(n) && id !in PanelIds(n)
    ensures Size(Remove(InsertBeside(n, target, id, o, newFirst), id)) <= Size(n)
  {
    match n
    case Pane(_, _) =>
      assert Remove(SinglePane(id), id) == Pane([], None);
    case Split(_, _, f, s) =>
      var side := if target in PanelIds(f) then f else s;
      UndoneIsNoBigger(side, target, id, o, newFirst);
      RootRemoval(n, target, id, o, newFirst);
      var left := Remove(InsertBeside(side, target, id, o, newFirst), id);
      CollapseNeverGrows(if target in PanelIds(f) then n.(first := left) else n.(second := left));
  }

  /** How removal at a split follows from removal in the side that grew. */
  lemma RootRemoval(n: Node, target: Id, id: Id, o: Orientation, newFirst: bool)
    requires n.Split? && target in PanelIds(n) && id !in PanelIds(n)
    ensures Remove(InsertBeside(n, target, id, o, newFirst), id) ==
            if target in PanelIds(n.first)
            then Collapse(n.(first := Remove(InsertBeside(n.first, target, id, o, newFirst), id)))
            else Collapse(n.(second := Remove(InsertBeside(n.second, target, id, o, newFirst), id)))
  {
    InsertAddsOneId(if target in PanelIds(n.first) then n.first else n.second, target, id, o, newFirst);
  }

  /** Removing a freshly inserted panel restores the tree, except where a collapse also drops an empty pane. */
  lemma {:induction false} RemoveUndoesInsert(n: Node, target: Id, id: Id, o: Orientation, newFirst: bool)
    requires target in PanelIds(n) && id !in PanelIds(n)
    ensures Remove(InsertBeside(n, target, id, o, newFirst), id) == n <==> FilledBeside(n, target)
  {
    match n
    case Pane(_, _) =>
      assert Remove(SinglePane(id), id) == Pane([], None);
    case Split(_, _, f, s) =>
      var side := if target in PanelIds(f) then f else s;
      RemoveUndoesInsert(side, target, id, o, newFirst);
      UndoneIsNoBigger(side, target, id, o, newFirst);
      var grown := InsertBeside(side, target, id, o, newFirst);
      RemoveDeletesOneId(grown, id);
      InsertThenDropId(side, target, id, o, newFirst);
      EmptyMeansNoIds(Remove(grown, id));
      RootRemoval(n, target, id, o, newFirst);
  }

  lemma NoEmptyPaneIsFilledBeside(n: Node, target: Id)
    requires NoEmptyPane(n)
    ensures FilledBeside(n, target)
  {
    if n.Split? {
      EmptyMeansNoIds(n.first);
      EmptyMeansNoIds(n.second);
    }
  }

  /** A tree with an empty pane, which goes along when the panel inserted beside the other pane is removed. */
  lemma RemovalMayDropAnEmptyPane(a: Id, b: Id, o: Orientation)
    requires a != b
    ensures
      var n := Split(Horizontal, 0.5, Pane([], None), SinglePane(a));
      && a in PanelIds(n) && b !in PanelIds(n)
      && Remove(InsertBeside(n, a, b, o, false), b) == SinglePane(a) != n
  {
    var n := Split(Horizontal, 0.5, Pane([], None), SinglePane(a));
    var grown := Beside(SinglePane(a), b, o, false);
    assert PanelIds(n.first) == [] && PanelIds(grown) == [a, b];
    assert Remove(SinglePane(b), b) == Pane([], None);
    assert Remove(grown, b) == SinglePane(a);
    assert InsertBeside(n, a, b, o, false) == n.(second := grown);
  }

  // ----- panes

  /** A panel has a pane exactly when it is in the tree; the pane holds it, and only panels of the tree. */
  lemma {:induction false} PaneOfMember(n: Node, id: Id)
    ensures PaneOf(n, id).Some? <==> id in PanelIds(n)
    ensures PaneOf(n, id).Some? ==> id in PaneOf(n, id).value && forall x | x in PaneOf(n, id).value :: x in PanelIds(n)
  {
    if n.Split? {
      PaneOfMember(n.first, id);
      PaneOfMember(n.second, id);
    }
  }

  /** What the pane holding `id` shows. */
  function Shown(n: Node, id: Id): Option<Id> {
    match n
    case Pane(ids, selected) => if id in ids then selected else None
    case Split(_, _, f, s) => if id in PanelIds(f) then Shown(f, id) else Shown(s, id)
  }

  lemma {:induction false} SelectedIsShown(n: Node, id: Id)
    requires id in PanelIds(n)
    ensures Shown(SelectPanel(n, id), id) == Some(id)
    ensures PanelIds(SelectPanel(n, id)) == PanelIds(n)
  {
    if n.Split? {
      SelectedIsShown(if id in PanelIds(n.first) then n.first else n.second, id);
    }
  }

  // ----- dividers

  /** The way down from the root to a subtree. */
  datatype Path = Here | InFirst(rest: Path) | InSecond(rest: Path)

  ghost predicate IsSplitAt(n: Node, p: Path) {
    n.Split? &&
    match p
    case Here => true
    case InFirst(q) => IsSplitAt(n.first, q)
    case InSecond(q) => IsSplitAt(n.second, q)
  }

  ghost function SplitAt(n: Node, p: Path): (m: Node)
    requires IsSplitAt(n, p)
    ensures m.Split?
  {
    match p
    case Here => n
    case InFirst(q) => SplitAt(n.first, q)
    case InSecond(q) => SplitAt(n.second, q)
  }

  /** `n` with the one divider at `p` replaced. */
  ghost function WithDivider(n: Node, p: Path, v: real): Node
    requires IsSplitAt(n, p)
  {
    match p
    case Here => n.(divider := v)
    case InFirst(q) => n.(first := WithDivider(n.first, q, v))
    case InSecond(q) => n.(second := WithDivider(n.second, q, v))
  }

  ghost predicate TargetAt(n: Node, p: Path, a: seq<Id>, b: seq<Id>) {
    IsSplitAt(n, p) && IsTarget(SplitAt(n, p), a, b)
  }

  lemma {:induction false} SidesAreWithin(n: Node, p: Path)
    requires NoEmptyPane(n) && IsSplitAt(n, p)
    ensures forall x | x in PanelIds(SplitAt(n, p)) :: x in PanelIds(n)
    ensures PanelIds(SplitAt(n, p).first) != [] && PanelIds(SplitAt(n, p).second) != []
  {
    EmptyMeansNoIds(n.first);
    EmptyMeansNoIds(n.second);
    match p
    case Here =>
    case InFirst(q) => SidesAreWithin(n.first, q);
    case InSecond(q) => SidesAreWithin(n.second, q);
  }

  lemma TargetHolds(n: Node, p: Path, a: seq<Id>, b: seq<Id>)
    requires NoEmptyPane(n) && TargetAt(n, p, a, b)
    ensures a != [] && b != [] && a[0] in PanelIds(n) && b[0] in PanelIds(n)
  {
    var m := SplitAt(n, p);
    SidesAreWithin(n, p);
    SameMultisetSameMembers(PanelIds(m.first), a);
    SameMultisetSameMembers(PanelIds(m.second), b);
  }

  lemma RootTargetIsDeepest(n: Node, p: Path, a: seq<Id>, b: seq<Id>)
    requires Distinct(PanelIds(n)) && NoEmptyPane(n) && IsTarget(n, a, b) && TargetAt(n, p, a, b)
    ensures p == Here
  {
    DistinctSides(n);
    TargetHolds(n, Here, a, b);
    SameMultisetSameMembers(PanelIds(n.first), a);
    SameMultisetSameMembers(PanelIds(n.second), b);
    assert a[0] in PanelIds(n.first) && b[0] in PanelIds(n.second);
    match p
    case Here =>
    case InFirst(q) => TargetHolds(n.first, q, a, b);
    case InSecond(q) => TargetHolds(n.second, q, a, b);
  }

  /** Two splits of a tree never hold the same pair of panel sets. */
  lemma {:induction false} AtMostOneTarget(n: Node, p: Path, q: Path, a: seq<Id>, b: seq<Id>)
    requires Distinct(PanelIds(n)) && NoEmptyPane(n)
    requires TargetAt(n, p, a, b) && TargetAt(n, q, a, b)
    ensures p == q
  {
    if IsTarget(n, a, b) {
      RootTargetIsDeepest(n, p, a, b);
      RootTargetIsDeepest(n, q, a, b);
    } else {
      DistinctSides(n);
      if p.InFirst? && q.InFirst? {
        AtMostOneTarget(n.first, p.rest, q.rest, a, b);
      } else if p.InSecond? && q.InSecond? {
        AtMostOneTarget(n.second, p.rest, q.rest, a, b);
      } else {
        TargetHolds(n.first, if p.InFirst? then p.rest else q.rest, a, b);
        TargetHolds(n.second, if p.InFirst? then q.rest else p.rest, a, b);
      }
    }
  }

  lemma {:induction false} FindTarget(n: Node, a: seq<Id>, b: seq<Id>) returns (p: Path)
    requires HasTarget(n, a, b)
    ensures TargetAt(n, p, a, b)
  {
    if IsTarget(n, a, b) {
      p := Here;
    } else if HasTarget(n.first, a, b) {
      var q := FindTarget(n.first, a, b);
      p := InFirst(q);
    } else {
      var q := FindTarget(n.second, a, b);
      p := InSecond(q);
    }
  }

  lemma TargetIsFound(n: Node, p: Path, a: seq<Id>, b: seq<Id>)
    requires TargetAt(n, p, a, b)
    ensures HasTarget(n, a, b)
  {
    match p
    case Here =>
    case InFirst(q) => TargetIsFound(n.first, q, a, b);
    case InSecond(q) => TargetIsFound(n.second, q, a, b);
  }

  /** The call succeeds exactly when some split holds the given pair of panel sets. */
  lemma HasTargetMeansTargetAt(n: Node, a: seq<Id>, b: seq<Id>)
    ensures HasTarget(n, a, b) <==> exists p :: TargetAt(n, p, a, b)
  {
    if HasTarget(n, a, b) {
      var p := FindTarget(n, a, b);
    }
    if p :| TargetAt(n, p, a, b) {
      TargetIsFound(n, p, a, b);
    }
  }

  /** Moving the matching divider, clamped to [0, 1], is all that SetDivider does. */
  lemma {:induction false} SetDividerMovesOnlyTheTarget(n: Node, p: Path, a: seq<Id>, b: seq<Id>, v: real)
    requires Distinct(PanelIds(n)) && NoEmptyPane(n) && TargetAt(n, p, a, b)
    ensures SetDivider(n, a, b, v) == WithDivider(n, p, Clamp(v, 0.0, 1.0))
  {
    TargetIsFound(n, p, a, b);
    DistinctSides(n);
    if IsTarget(n, a, b) {
      RootTargetIsDeepest(n, p, a, b);
    } else {
      var inFirst := HasTarget(n.first, a, b);
      var q := FindTarget(if inFirst then n.first else n.second, a, b);
      AtMostOneTarget(n, p, if inFirst then InFirst(q) else InSecond(q), a, b);
      SetDividerMovesOnlyTheTarget(if inFirst then n.first else n.second, q, a, b, v);
    }
  }

  lemma NoTargetNoChange(n: Node, a: seq<Id>, b: seq<Id>, v: real)
    ensures !HasTarget(n, a, b) ==> SetDivider(n, a, b, v) == n
  {
  }

  /** Replacing one divider touches no other divider, no orientation and no pane. */
  lemma {:induction false} WithDividerTouchesNothingElse(n: Node, p: Path, q: Path, v: real)
    requires IsSplitAt(n, p)
    ensures Equalize(WithDivider(n, p, v)) == Equalize(n) && Panes(WithDivider(n, p, v)) == Panes(n)
    ensures IsSplitAt(n, q) <==> IsSplitAt(WithDivider(n, p, v), q)
    ensures IsSplitAt(n, q) ==>
              SplitAt(WithDivider(n, p, v), q).divider == if p == q then v else SplitAt(n, q).divider
  {
    var m := WithDivider(n, p, v);
    match p
    case Here =>
    case InFirst(p') =>
      var q' := if q.InFirst? then q.rest else p';
      WithDividerTouchesNothingElse(n.first, p', q', v);
      assert q.InFirst? && IsSplitAt(n, q) ==> SplitAt(m, q) == SplitAt(m.first, q');
    case InSecond(p') =>
      var q' := if q.InSecond? then q.rest else p';
      WithDividerTouchesNothingElse(n.second, p', q', v);
      assert q.InSecond? && IsSplitAt(n, q) ==> SplitAt(m, q) == SplitAt(m.second, q');
  }

  /** Trees that differ in nothing but dividers hold the same panes. */
  lemma {:induction false} EqualizeKeepsPanes(n: Node)
    ensures Panes(Equalize(n)) == Panes(n) && PanelIds(Equalize(n)) == PanelIds(n)
    ensures SelectionsInPanes(Equalize(n)) == SelectionsInPanes(n) && NoEmptyPane(Equalize(n)) == NoEmptyPane(n)
    ensures Equalize(Equalize(n)) == Equalize(n)
  {
    if n.Split? {
      EqualizeKeepsPanes(n.first);
      EqualizeKeepsPanes(n.second);
    }
  }
}
