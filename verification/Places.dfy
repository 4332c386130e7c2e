/** Where in a tree an operation acts: at one pane, found by the way down to it, or at every pane alike. */
module Places {
  import opened Common
  import opened Layout
  import opened LayoutLaws

  // ----- panes by the way down to them

  ghost predicate IsPaneAt(n: Node, p: Path) {
    match p
    case Here => n.Pane?
    case InFirst(q) => n.Split? && IsPaneAt(n.first, q)
    case InSecond(q) => n.Split? && IsPaneAt(n.second, q)
  }

  ghost function PaneAt(n: Node, p: Path): (m: Node)
    requires IsPaneAt(n, p)
    ensures m.Pane?
  {
    match p
    case Here => n
    case InFirst(q) => PaneAt(n.first, q)
    case InSecond(q) => PaneAt(n.second, q)
  }

  /** `n` with the pane at `p` replaced by `m`. */
  ghost function WithNode(n: Node, p: Path, m: Node): Node
    requires IsPaneAt(n, p)
  {
    match p
    case Here => m
    case InFirst(q) => n.(first := WithNode(n.first, q, m))
    case InSecond(q) => n.(second := WithNode(n.second, q, m))
  }

  /** `n` without the pane at `p`, whose neighbor in the split above takes the place of that split. */
  ghost function WithoutPane(n: Node, p: Path): Node
    requires IsPaneAt(n, p) && p != Here
  {
    match p
    case InFirst(q) => if q == Here then n.second else n.(first := WithoutPane(n.first, q))
    case InSecond(q) => if q == Here then n.first else n.(second := WithoutPane(n.second, q))
  }

  /** The pane at `p` holds `id`. */
  ghost predicate HoldsAt(n: Node, p: Path, id: Id) {
    IsPaneAt(n, p) && id in PaneAt(n, p).ids
  }

  lemma {:induction false} PlaceOf(n: Node, id: Id) returns (p: Path)
    requires id in PanelIds(n)
    ensures HoldsAt(n, p, id)
  {
    if n.Pane? {
      p := Here;
    } else if id in PanelIds(n.first) {
      var q := PlaceOf(n.first, id);
      p := InFirst(q);
    } else {
      var q := PlaceOf(n.second, id);
      p := InSecond(q);
    }
  }

  lemma {:induction false} HeldIsInTree(n: Node, p: Path, id: Id)
    requires HoldsAt(n, p, id)
    ensures id in PanelIds(n)
  {
    match p
    case Here =>
    case InFirst(q) => HeldIsInTree(n.first, q, id);
    case InSecond(q) => HeldIsInTree(n.second, q, id);
  }

  /** With distinct ids a panel has one place, and its pane is the one there. */
  lemma {:induction false} OnePlace(n: Node, p: Path, q: Path, id: Id)
    requires Distinct(PanelIds(n)) && HoldsAt(n, p, id) && HoldsAt(n, q, id)
    ensures p == q && PaneOf(n, id) == Some(PaneAt(n, p).ids) && Shown(n, id) == PaneAt(n, p).selected
  {
    if n.Split? {
      SideOfPlace(n, p, id);
      SideOfPlace(n, q, id);
      if p.InFirst? {
        OnePlace(n.first, p.rest, q.rest, id);
      } else {
        OnePlace(n.second, p.rest, q.rest, id);
        PaneOfMember(n.first, id);
      }
    }
  }

  /** The way down to a panel goes to the side that holds it. */
  lemma SideOfPlace(n: Node, p: Path, id: Id)
    requires n.Split? && Distinct(PanelIds(n)) && HoldsAt(n, p, id)
    ensures Distinct(PanelIds(n.first)) && Distinct(PanelIds(n.second))
    ensures (p.InFirst? && id in PanelIds(n.first) && id !in PanelIds(n.second) && HoldsAt(n.first, p.rest, id)) ||
            (p.InSecond? && id in PanelIds(n.second) && id !in PanelIds(n.first) && HoldsAt(n.second, p.rest, id))
  {
    DistinctSides(n);
    match p
    case InFirst(q) => HeldIsInTree(n.first, q, id);
    case InSecond(q) => HeldIsInTree(n.second, q, id);
  }

  /** Replacing one pane leaves every other pane, and every split with its orientation and divider, where it was. */
  lemma {:induction false} WithNodeTouchesNothingElse(n: Node, p: Path, m: Node, q: Path)
    requires IsPaneAt(n, p)
    ensures IsPaneAt(n, q) && q != p ==> IsPaneAt(WithNode(n, p, m), q) && PaneAt(WithNode(n, p, m), q) == PaneAt(n, q)
    ensures IsSplitAt(n, q) ==>
              && IsSplitAt(WithNode(n, p, m), q)
              && SplitAt(WithNode(n, p, m), q).orientation == SplitAt(n, q).orientation
              && SplitAt(WithNode(n, p, m), q).divider == SplitAt(n, q).divider
  {
    match p
    case Here =>
    case InFirst(r) => if q.InFirst? { WithNodeTouchesNothingElse(n.first, r, m, q.rest); }
    case InSecond(r) => if q.InSecond? { WithNodeTouchesNothingElse(n.second, r, m, q.rest); }
  }

  // ----- operations on one pane

  /** Selecting changes what the panel's pane shows, and nothing else. */
  lemma {:induction false} SelectedAt(n: Node, p: Path, id: Id)
    requires Distinct(PanelIds(n)) && HoldsAt(n, p, id)
    ensures SelectPanel(n, id) == WithNode(n, p, Pane(PaneAt(n, p).ids, Some(id)))
  {
    if n.Split? {
      SideOfPlace(n, p, id);
      SelectedAt(if p.InFirst? then n.first else n.second, p.rest, id);
    }
  }

  /** A tab goes right after its target and is shown; nothing else changes. */
  lemma {:induction false} TabAddedAt(n: Node, p: Path, target: Id, id: Id, k: nat)
    requires Distinct(PanelIds(n)) && HoldsAt(n, p, target)
    requires k < |PaneAt(n, p).ids| && PaneAt(n, p).ids[k] == target
    ensures var ids := PaneAt(n, p).ids;
            AddToPane(n, target, id) == WithNode(n, p, Pane(ids[..k + 1] + [id] + ids[k + 1..], Some(id)))
  {
    if n.Split? {
      SideOfPlace(n, p, target);
      TabAddedAt(if p.InFirst? then n.first else n.second, p.rest, target, id, k);
    } else {
      assert IndexOf(n.ids, target) == k;
    }
  }

  /** A split takes the place of the target's pane: that pane, tabs and selection as they were, and a new one. */
  lemma {:induction false} InsertedAt(n: Node, p: Path, target: Id, id: Id, o: Orientation, newFirst: bool)
    requires Distinct(PanelIds(n)) && HoldsAt(n, p, target)
    ensures
      var pane, added := PaneAt(n, p), Pane([id], Some(id));
      InsertBeside(n, target, id, o, newFirst) ==
        WithNode(n, p, if newFirst then Split(o, 0.5, added, pane) else Split(o, 0.5, pane, added))
  {
    if n.Split? {
      SideOfPlace(n, p, target);
      InsertedAt(if p.InFirst? then n.first else n.second, p.rest, target, id, o, newFirst);
    }
  }

  lemma {:induction false} RemoveFirstAt<T>(s: seq<T>, x: T, k: nat)
    requires Distinct(s) && k < |s| && s[k] == x
    ensures RemoveFirst(s, x) == s[..k] + s[k + 1..]
  {
    if k > 0 {
      RemoveFirstAt(s[1..], x, k - 1);
      assert s[..k] == [s[0]] + s[1..][..k - 1];
    }
  }

  lemma {:induction false} PaneIdsAreDistinct(n: Node, p: Path)
    requires Distinct(PanelIds(n)) && IsPaneAt(n, p)
    ensures Distinct(PaneAt(n, p).ids)
  {
    if n.Split? {
      DistinctSides(n);
      PaneIdsAreDistinct(if p.InFirst? then n.first else n.second, p.rest);
    }
  }

  /** Moving a tab takes it out of its pane's tabs and puts it back at the index asked for, or last; the pane shows what
      it showed, and nothing else changes. */
  lemma {:induction false} ReorderedAt(n: Node, p: Path, id: Id, index: nat, k: nat)
    requires Distinct(PanelIds(n)) && HoldsAt(n, p, id)
    requires k < |PaneAt(n, p).ids| && PaneAt(n, p).ids[k] == id
    ensures
      var ids := PaneAt(n, p).ids;
      var others := ids[..k] + ids[k + 1..];
      var j := if index < |others| then index else |others|;
      Reorder(n, id, index) == WithNode(n, p, Pane(others[..j] + [id] + others[j..], PaneAt(n, p).selected))
  {
    if n.Split? {
      SideOfPlace(n, p, id);
      ReorderedAt(if p.InFirst? then n.first else n.second, p.rest, id, index, k);
    } else {
      RemoveFirstAt(n.ids, id, k);
    }
  }

  /** What a pane is left with when the tab at `k` goes: the other tabs, and the same one shown, unless that was the one
      that went; then the first of the others. */
  ghost function WithoutTab(pane: Node, k: nat): Node
    requires pane.Pane? && k < |pane.ids|
  {
    var others := pane.ids[..k] + pane.ids[k + 1..];
    Pane(others, if pane.selected != Some(pane.ids[k]) then pane.selected
                 else if others == [] then None else Some(others[0]))
  }

  /** A tree that loses one of several panels, none of its panes being empty, is not empty then. */
  lemma StaysFilled(n: Node, id: Id)
    requires NoEmptyPane(n) && id in PanelIds(n) && PanelIds(n) != [id]
    ensures !IsEmpty(Remove(n, id))
  {
    RemoveKeepsPanesFilled(n, id);
    EmptyMeansNoIds(Remove(n, id));
  }

  lemma TwoSidesTwoPanels(n: Node, id: Id)
    requires n.Split? && NoEmptyPane(n)
    ensures PanelIds(n) != [id]
  {
    EmptyMeansNoIds(n.first);
    EmptyMeansNoIds(n.second);
    assert |PanelIds(n)| >= 2;
  }

  /** Removal takes the tab out of its pane, or, if the pane had no other, the pane out of the tree; nothing else
      changes. */
  lemma {:induction false} RemovedAt(n: Node, p: Path, id: Id, k: nat)
    requires Distinct(PanelIds(n)) && NoEmptyPane(n) && HoldsAt(n, p, id)
    requires k < |PaneAt(n, p).ids| && PaneAt(n, p).ids[k] == id
    ensures Remove(n, id) ==
              if PaneAt(n, p).ids != [id] || p == Here then WithNode(n, p, WithoutTab(PaneAt(n, p), k))
              else WithoutPane(n, p)
  {
    if n.Pane? {
      RemoveFirstAt(n.ids, id, k);
    } else {
      SideOfPlace(n, p, id);
      var side, other := if p.InFirst? then n.first else n.second, if p.InFirst? then n.second else n.first;
      RemovedAt(side, p.rest, id, k);
      EmptyMeansNoIds(other);
      if PaneAt(n, p).ids == [id] && p.rest == Here {
        assert IsEmpty(Remove(side, id));
      } else {
        if side.Split? { TwoSidesTwoPanels(side, id); }
        StaysFilled(side, id);
      }
    }
  }

  // ----- what a removal leaves in view

  /** Seen from a panel that stays, a removal at a split is one in its side, or none. */
  lemma RemoveInSides(n: Node, id: Id, x: Id)
    requires n.Split? && Distinct(PanelIds(n)) && x in PanelIds(n) && x != id
    ensures
      var side := if x in PanelIds(n.first) then n.first else n.second;
      var left := if id in PanelIds(side) then Remove(side, id) else side;
      && x in PanelIds(side) && Distinct(PanelIds(side))
      && PaneOf(n, x) == PaneOf(side, x) && Shown(n, x) == Shown(side, x)
      && PaneOf(Remove(n, id), x) == PaneOf(left, x) && Shown(Remove(n, id), x) == Shown(left, x)
  {
    DistinctSides(n);
    PaneOfMember(n.first, x);
    if id in PanelIds(n) {
      var inFirst := id in PanelIds(n.first);
      var cut := Remove(if inFirst then n.first else n.second, id);
      RemoveDeletesOneId(if inFirst then n.first else n.second, id);
      RemoveFirstAbsent(PanelIds(if inFirst then n.first else n.second), id);
      EmptyMeansNoIds(cut);
      EmptyMeansNoIds(n.first);
      EmptyMeansNoIds(n.second);
      PaneOfMember(cut, x);
    }
  }

  /** After a removal every other panel still has its pane, less the panel removed, and the pane shows what it showed;
      if it showed the panel removed, it shows the first of its tabs that is left. */
  lemma {:induction false} RemoveKeepsShown(n: Node, id: Id, x: Id)
    requires Distinct(PanelIds(n)) && x in PanelIds(n) && x != id
    ensures
      var tabs := PaneOf(n, x);
      && tabs.Some? && x in tabs.value
      && PaneOf(Remove(n, id), x) == Some(RemoveFirst(tabs.value, id))
      && Shown(Remove(n, id), x) ==
         if id in tabs.value && Shown(n, x) == Some(id) then HeadOpt(RemoveFirst(tabs.value, id)) else Shown(n, x)
  {
    PaneOfMember(n, x);
    RemoveFirstAbsent(PaneOf(n, x).value, id);
    if n.Split? {
      RemoveInSides(n, id, x);
      var side := if x in PanelIds(n.first) then n.first else n.second;
      if id in PanelIds(side) {
        RemoveKeepsShown(side, id, x);
      } else {
        PaneOfMember(side, x);
      }
    }
  }

  // ----- operations on every pane or split

  /** `t` is `s` with the two ids exchanged, place by place. */
  ghost predicate ExchangedIn(s: seq<Id>, t: seq<Id>, a: Id, b: Id) {
    |t| == |s| && forall k | 0 <= k < |s| :: t[k] == if s[k] == a then b else if s[k] == b then a else s[k]
  }

  /** Swapping exchanges the two panels place by place in every pane, and in what panes show; splits stay as they
      are. */
  lemma {:induction false} SwappedAt(n: Node, p: Path, a: Id, b: Id)
    ensures IsPaneAt(n, p) ==>
              && IsPaneAt(Swap(n, a, b), p)
              && ExchangedIn(PaneAt(n, p).ids, PaneAt(Swap(n, a, b), p).ids, a, b)
              && PaneAt(Swap(n, a, b), p).selected ==
                 match PaneAt(n, p).selected
                 case None => None
                 case Some(x) => Some(if x == a then b else if x == b then a else x)
    ensures IsSplitAt(n, p) ==>
              && IsSplitAt(Swap(n, a, b), p)
              && SplitAt(Swap(n, a, b), p).orientation == SplitAt(n, p).orientation
              && SplitAt(Swap(n, a, b), p).divider == SplitAt(n, p).divider
  {
    match p
    case Here =>
    case InFirst(q) => if n.Split? { SwappedAt(n.first, q, a, b); }
    case InSecond(q) => if n.Split? { SwappedAt(n.second, q, a, b); }
  }

  /** Equalizing centres every divider; panes and orientations stay as they are. */
  lemma {:induction false} EqualizedAt(n: Node, p: Path)
    ensures IsPaneAt(n, p) ==> IsPaneAt(Equalize(n), p) && PaneAt(Equalize(n), p) == PaneAt(n, p)
    ensures IsSplitAt(n, p) ==>
              && IsSplitAt(Equalize(n), p) && SplitAt(Equalize(n), p).divider == 0.5
              && SplitAt(Equalize(n), p).orientation == SplitAt(n, p).orientation
  {
    match p
    case Here =>
    case InFirst(q) => if n.Split? { EqualizedAt(n.first, q); }
    case InSecond(q) => if n.Split? { EqualizedAt(n.second, q); }
  }

  ghost predicate OffCentre(n: Node, p: Path) {
    IsSplitAt(n, p) && var d := SplitAt(n, p).divider; d < 0.5 - EPSILON || d > 0.5 + EPSILON
  }

  /** A tree is uneven exactly if some divider is off the middle by more than the tolerance. */
  lemma {:induction false} UnevenMeansOffCentre(n: Node)
    ensures Uneven(n) <==> exists p :: OffCentre(n, p)
  {
    if n.Split? {
      UnevenMeansOffCentre(n.first);
      UnevenMeansOffCentre(n.second);
      if p :| OffCentre(n.first, p) {
        assert OffCentre(n, InFirst(p));
      }
      if p :| OffCentre(n.second, p) {
        assert OffCentre(n, InSecond(p));
      }
      assert OffCentre(n, Here) <==> Distance(n.divider, 0.5) > EPSILON;
      forall p | OffCentre(n, p) ensures Uneven(n) {
        match p
        case Here =>
        case InFirst(q) => assert OffCentre(n.first, q);
        case InSecond(q) => assert OffCentre(n.second, q);
      }
    }
  }

  /** Clamping gives the nearest number in range. */
  lemma ClampIsNearest(v: real, lo: real, hi: real, x: real)
    requires lo <= x <= hi
    ensures lo <= Clamp(v, lo, hi) <= hi && Distance(v, Clamp(v, lo, hi)) <= Distance(v, x)
  {
  }
}
