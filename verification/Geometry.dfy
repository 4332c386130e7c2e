/** The layout tree read as a subdivision of a rectangle, and what directional navigation means there. */
module Geometry {
  import opened Common
  import opened Layout
  import opened LayoutLaws

  /** x grows to the right, y downwards. */
  datatype Rect = Rect(left: real, top: real, right: real, bottom: real)

  const UNIT_SQUARE := Rect(0.0, 0.0, 1.0, 1.0)

  ghost predicate Solid(r: Rect) {
    r.left < r.right && r.top < r.bottom
  }

  function Edge(r: Rect, d: Direction): real {
    match d
    case Left => r.left
    case Right => r.right
    case Up => r.top
    case Down => r.bottom
  }

  function Opposite(d: Direction): Direction {
    match d
    case Left => Right
    case Right => Left
    case Up => Down
    case Down => Up
  }

  /** Dividers lie strictly between the edges they divide. */
  ghost predicate ProperDividers(n: Node) {
    n.Split? ==> 0.0 < n.divider < 1.0 && ProperDividers(n.first) && ProperDividers(n.second)
  }

  /** A proper share of a width. */
  function Share(width: real, v: real): (w: real)
    requires 0.0 < width && 0.0 < v < 1.0
    ensures 0.0 < w < width
  {
    var w, rest := width * v, width * (1.0 - v);
    PositiveProduct(w, width, v);
    PositiveProduct(rest, width, 1.0 - v);
    SharesAddUp(w, rest, width, v);
    w
  }

  lemma PositiveProduct(p: real, x: real, y: real)
    requires 0.0 < x && 0.0 < y && p == x * y
    ensures 0.0 < p
  {
  }

  lemma SharesAddUp(p: real, q: real, width: real, v: real)
    requires p == width * v && q == width * (1.0 - v)
    ensures p + q == width
  {
  }

  /** The part of `r` that the first or second side of split `n` covers. */
  function Half(n: Node, r: Rect, first: bool): (h: Rect)
    requires n.Split? && 0.0 < n.divider < 1.0 && Solid(r)
    ensures Solid(h)
    ensures r.left <= h.left && h.right <= r.right && r.top <= h.top && h.bottom <= r.bottom
  {
    match n.orientation
    case Horizontal =>
      var m := r.left + Share(r.right - r.left, n.divider);
      if first then r.(right := m) else r.(left := m)
    case Vertical =>
      var m := r.top + Share(r.bottom - r.top, n.divider);
      if first then r.(bottom := m) else r.(top := m)
  }

  /** The part of `r` covered by the pane that holds `id`. */
  function Region(n: Node, r: Rect, id: Id): (a: Rect)
    requires id in PanelIds(n) && ProperDividers(n) && Solid(r)
    ensures Solid(a)
    ensures r.left <= a.left && a.right <= r.right && r.top <= a.top && a.bottom <= r.bottom
  {
    match n
    case Pane(_, _) => r
    case Split(_, _, f, s) =>
      if id in PanelIds(f) then Region(f, Half(n, r, true), id) else Region(s, Half(n, r, false), id)
  }

  ghost predicate Contains(r: Rect, x: real, y: real) {
    r.left <= x < r.right && r.top <= y < r.bottom
  }

  /** Regions tile the rectangle: each of its points lies in the region of some panel, and two panels
      whose regions share a point share their pane. */
  lemma {:induction false} RegionsCover(n: Node, r: Rect, x: real, y: real) returns (id: Id)
    requires NoEmptyPane(n) && Distinct(PanelIds(n)) && ProperDividers(n) && Solid(r) && Contains(r, x, y)
    ensures id in PanelIds(n) && Contains(Region(n, r, id), x, y)
  {
    match n
    case Pane(ids, _) =>
      id := ids[0];
    case Split(_, _, f, s) =>
      DistinctSides(n);
      if Contains(Half(n, r, true), x, y) {
        id := RegionsCover(f, Half(n, r, true), x, y);
      } else {
        id := RegionsCover(s, Half(n, r, false), x, y);
      }
  }

  lemma {:induction false} RegionsDisjoint(n: Node, r: Rect, p: Id, q: Id, x: real, y: real)
    requires Distinct(PanelIds(n)) && ProperDividers(n) && Solid(r)
    requires p in PanelIds(n) && q in PanelIds(n)
    requires Contains(Region(n, r, p), x, y) && Contains(Region(n, r, q), x, y)
    ensures PaneOf(n, p) == PaneOf(n, q) && PaneOf(n, p).Some? && q in PaneOf(n, p).value
  {
    match n
    case Pane(_, _) =>
    case Split(_, _, f, s) =>
      DistinctSides(n);
      PaneOfMember(f, p);
      PaneOfMember(f, q);
      if p in PanelIds(f) && q in PanelIds(f) {
        RegionsDisjoint(f, Half(n, r, true), p, q, x, y);
      } else if p !in PanelIds(f) && q !in PanelIds(f) {
        RegionsDisjoint(s, Half(n, r, false), p, q, x, y);
      }
  }

  /** The first panel lies in the top left corner of its tree, the last in the bottom right one. */
  lemma {:induction false} CornerPanels(n: Node, r: Rect)
    requires NoEmptyPane(n) && Distinct(PanelIds(n)) && ProperDividers(n) && Solid(r)
    ensures PanelIds(n) != []
    ensures Region(n, r, PanelIds(n)[0]).left == r.left && Region(n, r, PanelIds(n)[0]).top == r.top
    ensures Region(n, r, PanelIds(n)[|PanelIds(n)| - 1]).right == r.right
    ensures Region(n, r, PanelIds(n)[|PanelIds(n)| - 1]).bottom == r.bottom
  {
    if n.Split? {
      DistinctSides(n);
      CornerPanels(n.first, Half(n, r, true));
      CornerPanels(n.second, Half(n, r, false));
    }
  }

  /** The edges of the halves: the two meet inside `r`, and keep its edges elsewhere. */
  lemma HalfEdges(n: Node, r: Rect, near: bool, d: Direction)
    requires n.Split? && 0.0 < n.divider < 1.0 && Solid(r)
    ensures AlongAxis(n.orientation, d) && near == Forward(d) ==>
              && Edge(Half(n, r, near), d) == Edge(Half(n, r, !near), Opposite(d))
              && (if Forward(d) then Edge(Half(n, r, near), d) < Edge(r, d) else Edge(Half(n, r, near), d) > Edge(r, d))
    ensures !(AlongAxis(n.orientation, d) && near == Forward(d)) ==> Edge(Half(n, r, near), d) == Edge(r, d)
  {
  }

  /** Which neighbor a split finds, given what the side holding the panel finds. */
  lemma NeighborAtSplit(n: Node, id: Id, d: Direction)
    requires n.Split? && id in PanelIds(n) && NoEmptyPane(n)
    requires forall x | x in PanelIds(n.first) :: x !in PanelIds(n.second)
    ensures
      var near := id in PanelIds(n.first);
      var inside := Neighbor(if near then n.first else n.second, id, d);
      && PanelIds(n.first) != [] && PanelIds(n.second) != []
      && Neighbor(n, id, d) ==
         if AlongAxis(n.orientation, d) && near == Forward(d) && inside.None?
         then Some(if near then PanelIds(n.second)[0] else PanelIds(n.first)[|PanelIds(n.first)| - 1])
         else inside
  {
    EmptyMeansNoIds(n.first);
    EmptyMeansNoIds(n.second);
  }

  /** Navigation stops exactly at the outer edge; otherwise it lands on a pane flush with the edge crossed. */
  lemma {:induction false} NeighborIsAcrossTheEdge(n: Node, r: Rect, id: Id, d: Direction)
    requires NoEmptyPane(n) && Distinct(PanelIds(n)) && ProperDividers(n) && Solid(r)
    requires id in PanelIds(n)
    ensures Neighbor(n, id, d).None? <==> Edge(Region(n, r, id), d) == Edge(r, d)
    ensures Neighbor(n, id, d).Some? ==>
              var q := Neighbor(n, id, d).value;
              q in PanelIds(n) && Edge(Region(n, r, q), Opposite(d)) == Edge(Region(n, r, id), d)
  {
    if n.Split? {
      DistinctSides(n);
      var near := id in PanelIds(n.first);
      var side, other := if near then n.first else n.second, if near then n.second else n.first;
      var h, k := Half(n, r, near), Half(n, r, !near);
      NeighborIsAcrossTheEdge(side, h, id, d);
      NeighborAtSplit(n, id, d);
      RegionInSide(n, r, id, near);
      HalfEdges(n, r, near, d);
      RegionEdgeWithin(side, h, id, d);
      if Neighbor(side, id, d).Some? {
        RegionInSide(n, r, Neighbor(side, id, d).value, near);
      } else {
        CornerPanels(other, k);
        RegionInSide(n, r, PanelIds(other)[if near then 0 else |PanelIds(other)| - 1], !near);
      }
    }
  }

  /** Regions of a split are regions of its sides. */
  lemma RegionInSide(n: Node, r: Rect, x: Id, first: bool)
    requires n.Split? && ProperDividers(n) && Solid(r) && (first <==> x in PanelIds(n.first))
    requires x in PanelIds(if first then n.first else n.second)
    ensures Region(n, r, x) == Region(if first then n.first else n.second, Half(n, r, first), x)
  {
  }

  lemma RegionEdgeWithin(n: Node, r: Rect, id: Id, d: Direction)
    requires id in PanelIds(n) && ProperDividers(n) && Solid(r)
    ensures if Forward(d) then Edge(Region(n, r, id), d) <= Edge(r, d) else Edge(Region(n, r, id), d) >= Edge(r, d)
  {
  }

  function Quarters(a: Id, b: Id, c: Id, d: Id): Node {
    Split(Horizontal, 0.5, Split(Vertical, 0.5, SinglePane(a), SinglePane(b)),
          Split(Vertical, 0.5, SinglePane(c), SinglePane(d)))
  }

  /** Flush is not face to face: from the lower left quarter, Right lands on the upper right quarter. */
  lemma NeighborMayMissTheFacingPane(a: Id, b: Id, c: Id, d: Id)
    requires Distinct([a, b, c, d])
    ensures PanelIds(Quarters(a, b, c, d)) == [a, b, c, d] && ProperDividers(Quarters(a, b, c, d))
    ensures Neighbor(Quarters(a, b, c, d), b, Right) == Some(c)
    ensures Region(Quarters(a, b, c, d), UNIT_SQUARE, b) == Rect(0.0, 0.5, 0.5, 1.0)
    ensures Region(Quarters(a, b, c, d), UNIT_SQUARE, c) == Rect(0.5, 0.0, 1.0, 0.5)
  {
    assert [a, b, c, d][0] != [a, b, c, d][1] && [a, b, c, d][0] != [a, b, c, d][2];
    assert [a, b, c, d][1] != [a, b, c, d][2] && [a, b, c, d][1] != [a, b, c, d][3];
    var l, r := Rect(0.0, 0.0, 0.5, 1.0), Rect(0.5, 0.0, 1.0, 1.0);
    StackedPair(a, b, l);
    StackedPair(c, d, r);
    var n := Quarters(a, b, c, d);
    assert Share(1.0, 0.5) == 0.5;
    assert Half(n, UNIT_SQUARE, true) == l && Half(n, UNIT_SQUARE, false) == r;
  }

  lemma StackedPair(a: Id, b: Id, r: Rect)
    requires a != b && r.left < r.right && r.top == 0.0 && r.bottom == 1.0
    ensures
      var n := Split(Vertical, 0.5, SinglePane(a), SinglePane(b));
      && PanelIds(n) == [a, b] && ProperDividers(n) && Neighbor(n, b, Right) == None
      && Region(n, r, a) == r.(bottom := 0.5) && Region(n, r, b) == r.(top := 0.5)
  {
    var n := Split(Vertical, 0.5, SinglePane(a), SinglePane(b));
    assert ProperDividers(n.first) && ProperDividers(n.second);
    assert PanelIds(n.first) == [a] && PanelIds(n.second) == [b];
    assert Share(1.0, 0.5) == 0.5;
    assert Half(n, r, true) == r.(bottom := 0.5) && Half(n, r, false) == r.(top := 0.5);
  }

  lemma NeighborFoundInside(n: Node, id: Id, d: Direction, q: Id)
    requires n.Split? && (id in PanelIds(n.first) <==> id !in PanelIds(n.second))
    requires Neighbor(if id in PanelIds(n.first) then n.first else n.second, id, d) == Some(q)
    ensures Neighbor(n, id, d) == Some(q)
  {
  }

  /** A panel placed beside `target` is what navigation from `target` finds in that direction. */
  lemma {:induction false} InsertedIsNeighbor(n: Node, target: Id, id: Id, o: Orientation, d: Direction)
    requires Distinct(PanelIds(n)) && target in PanelIds(n) && id !in PanelIds(n) && AlongAxis(o, d)
    ensures Neighbor(InsertBeside(n, target, id, o, !Forward(d)), target, d) == Some(id)
  {
    match n
    case Pane(ids, _) =>
    case Split(_, _, f, s) =>
      DistinctSides(n);
      var side := if target in PanelIds(f) then f else s;
      InsertAddsOneId(side, target, id, o, !Forward(d));
      InsertedIsNeighbor(side, target, id, o, d);
      NeighborFoundInside(InsertBeside(n, target, id, o, !Forward(d)), target, d, id);
  }

  lemma {:induction false} InsertedSitsAlone(n: Node, target: Id, id: Id, o: Orientation, newFirst: bool)
    requires target in PanelIds(n) && id !in PanelIds(n)
    ensures PaneOf(InsertBeside(n, target, id, o, newFirst), id) == Some([id])
  {
    match n
    case Pane(_, _) =>
    case Split(_, _, f, s) =>
      PaneOfMember(f, id);
      InsertedSitsAlone(if target in PanelIds(f) then f else s, target, id, o, newFirst);
  }

  /** `a` and `b` are the halves of `whole`, in order. */
  ghost predicate Halved(whole: Rect, a: Rect, b: Rect, o: Orientation) {
    match o
    case Horizontal =>
      var mid := (whole.left + whole.right) / 2.0;
      a == whole.(right := mid) && b == whole.(left := mid)
    case Vertical =>
      var mid := (whole.top + whole.bottom) / 2.0;
      a == whole.(bottom := mid) && b == whole.(top := mid)
  }

  lemma HalfOfHalf(width: real)
    requires 0.0 < width
    ensures Share(width, 0.5) == width / 2.0
  {
  }

  lemma BesideHalves(pane: Node, r: Rect, id: Id, target: Id, o: Orientation, newFirst: bool)
    requires pane.Pane? && target in pane.ids && id !in pane.ids && Solid(r)
    ensures
      var m := Beside(pane, id, o, newFirst);
      && ProperDividers(m) && target in PanelIds(m) && id in PanelIds(m)
      && Halved(r, Region(m, r, if newFirst then id else target), Region(m, r, if newFirst then target else id), o)
  {
    HalfOfHalf(if o == Horizontal then r.right - r.left else r.bottom - r.top);
  }

  /** Splitting a pane gives the new panel one half of its rectangle, on the side asked for, and the
      target the other. */
  lemma {:induction false} InsertionHalvesTheRegion(
    n: Node, r: Rect, target: Id, id: Id, o: Orientation, newFirst: bool)
    requires Distinct(PanelIds(n)) && ProperDividers(n) && Solid(r) && target in PanelIds(n) && id !in PanelIds(n)
    ensures
      var m := InsertBeside(n, target, id, o, newFirst);
      && ProperDividers(m) && target in PanelIds(m) && id in PanelIds(m)
      && Halved(Region(n, r, target), Region(m, r, if newFirst then id else target),
                Region(m, r, if newFirst then target else id), o)
  {
    match n
    case Pane(_, _) =>
      BesideHalves(n, r, id, target, o, newFirst);
    case Split(_, _, f, s) =>
      DistinctSides(n);
      var first := target in PanelIds(f);
      var side := if first then f else s;
      InsertionHalvesTheRegion(side, Half(n, r, first), target, id, o, newFirst);
      var m := InsertBeside(n, target, id, o, newFirst);
      assert Half(m, r, first) == Half(n, r, first);
  }

  /** Where `x` lies after the insertion: with the target if it shares its pane, else where it was. */
  ghost predicate StaysOrFollows(
    n: Node, r: Rect, target: Id, id: Id, o: Orientation, newFirst: bool, x: Id)
    requires ProperDividers(n) && Solid(r) && target in PanelIds(n) && x in PanelIds(n)
  {
    var m := InsertBeside(n, target, id, o, newFirst);
    && ProperDividers(m) && target in PanelIds(m) && x in PanelIds(m) && PaneOf(n, target).Some?
    && Region(m, r, x) == if x in PaneOf(n, target).value then Region(m, r, target) else Region(n, r, x)
  }

  /** The side of a split that the target is not in stays as it is. */
  lemma OtherSideStays(n: Node, r: Rect, target: Id, id: Id, o: Orientation, newFirst: bool, x: Id)
    requires n.Split? && Distinct(PanelIds(n)) && ProperDividers(n) && Solid(r)
    requires target in PanelIds(n) && id !in PanelIds(n) && x in PanelIds(n)
    requires x !in PanelIds(if target in PanelIds(n.first) then n.first else n.second)
    ensures StaysOrFollows(n, r, target, id, o, newFirst, x)
  {
    var first := target in PanelIds(n.first);
    InsertionInSide(n, r, target, id, o, newFirst, x);
    TargetsPaneInSide(n, target, x);
    RegionInSide(n, r, x, !first);
    RegionInSide(InsertBeside(n, target, id, o, newFirst), r, x, !first);
  }

  lemma TargetsPaneInSide(n: Node, target: Id, x: Id)
    requires n.Split? && target in PanelIds(n)
    requires x !in PanelIds(if target in PanelIds(n.first) then n.first else n.second)
    ensures PaneOf(n, target).Some? && x !in PaneOf(n, target).value
  {
    PaneOfMember(n.first, target);
    PaneOfMember(if target in PanelIds(n.first) then n.first else n.second, target);
  }

  /** An insertion changes one side of a split only, and the other keeps its half. */
  lemma InsertionInSide(n: Node, r: Rect, target: Id, id: Id, o: Orientation, newFirst: bool, x: Id)
    requires n.Split? && Distinct(PanelIds(n)) && ProperDividers(n) && Solid(r)
    requires target in PanelIds(n) && id !in PanelIds(n) && x in PanelIds(n)
    requires x !in PanelIds(if target in PanelIds(n.first) then n.first else n.second)
    ensures
      var m, first := InsertBeside(n, target, id, o, newFirst), target in PanelIds(n.first);
      && m.Split? && ProperDividers(m) && target in PanelIds(m) && (!first <==> x in PanelIds(m.first))
      && (if first then m.second == n.second else m.first == n.first)
      && x in PanelIds(if first then n.second else n.first)
      && Half(m, r, !first) == Half(n, r, !first)
  {
    DistinctSides(n);
    var first := target in PanelIds(n.first);
    var side := if first then n.first else n.second;
    InsertionHalvesTheRegion(side, Half(n, r, first), target, id, o, newFirst);
    InsertionBringsOnly(side, target, id, o, newFirst, x);
  }

  lemma InsertionBringsOnly(n: Node, target: Id, id: Id, o: Orientation, newFirst: bool, x: Id)
    requires target in PanelIds(n)
    ensures x in PanelIds(InsertBeside(n, target, id, o, newFirst)) <==> x in PanelIds(n) || x == id
  {
    InsertAddsOneId(n, target, id, o, newFirst);
    assert x in multiset(PanelIds(InsertBeside(n, target, id, o, newFirst))) <==>
           x in multiset(PanelIds(n)) + multiset{id};
  }

  lemma SameSideFollows(n: Node, r: Rect, target: Id, id: Id, o: Orientation, newFirst: bool, x: Id)
    requires n.Split? && Distinct(PanelIds(n)) && ProperDividers(n) && Solid(r)
    requires target in PanelIds(n) && id !in PanelIds(n) && x in PanelIds(n)
    requires
      var first := target in PanelIds(n.first);
      var side := if first then n.first else n.second;
      target in PanelIds(side) && x in PanelIds(side) &&
      StaysOrFollows(side, Half(n, r, first), target, id, o, newFirst, x)
    ensures StaysOrFollows(n, r, target, id, o, newFirst, x)
  {
    DistinctSides(n);
    var first := target in PanelIds(n.first);
    var side := if first then n.first else n.second;
    var m := InsertBeside(n, target, id, o, newFirst);
    InsertAddsOneId(side, target, id, o, newFirst);
    PaneOfMember(n.first, target);
    assert Half(m, r, first) == Half(n, r, first);
  }

  /** Every other pane keeps its rectangle; the tabs of the split pane go along with the target. */
  lemma {:induction false} InsertionLeavesOtherRegions(
    n: Node, r: Rect, target: Id, id: Id, o: Orientation, newFirst: bool, x: Id)
    requires Distinct(PanelIds(n)) && ProperDividers(n) && Solid(r)
    requires target in PanelIds(n) && id !in PanelIds(n) && x in PanelIds(n)
    ensures StaysOrFollows(n, r, target, id, o, newFirst, x)
  {
    if n.Split? {
      DistinctSides(n);
      var first := target in PanelIds(n.first);
      var side := if first then n.first else n.second;
      if x in PanelIds(side) {
        InsertionLeavesOtherRegions(side, Half(n, r, first), target, id, o, newFirst, x);
        SameSideFollows(n, r, target, id, o, newFirst, x);
      } else {
        OtherSideStays(n, r, target, id, o, newFirst, x);
      }
    } else {
      BesideHalves(n, r, id, target, o, newFirst);
    }
  }
}
