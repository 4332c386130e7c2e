/** When the pane that navigation lands on lies across from the pane it started from. */
module Facing {
  import opened Common
  import opened Layout
  import opened LayoutLaws
  import opened Geometry

  /** The edge to the left of or above the way that `d` goes. */
  function Low(d: Direction): Direction {
    if AlongAxis(Horizontal, d) then Up else Left
  }

  function High(d: Direction): Direction {
    Opposite(Low(d))
  }

  /** The two rectangles share a stretch of the axis that `d` does not go along. */
  ghost predicate Overlap(a: Rect, b: Rect, d: Direction) {
    Edge(a, Low(d)) < Edge(b, High(d)) && Edge(b, Low(d)) < Edge(a, High(d))
  }

  /** Navigation from `id` lands on a pane across from it. */
  ghost predicate Faces(n: Node, r: Rect, id: Id, d: Direction)
    requires id in PanelIds(n) && ProperDividers(n) && Solid(r)
  {
    && Neighbor(n, id, d).Some? && Neighbor(n, id, d).value in PanelIds(n)
    && Overlap(Region(n, r, id), Region(n, r, Neighbor(n, id, d).value), d)
  }

  /** The edge that the pane found has in common with the side of the deciding split it was found in. */
  function Aligned(d: Direction): Direction {
    if Forward(d) then Low(d) else High(d)
  }

  /** `a` does not reach as far towards the aligned edge as `b` reaches away from it. */
  ghost predicate Beyond(a: Rect, b: Rect, d: Direction) {
    if Forward(d) then Edge(a, Low(d)) < Edge(b, High(d)) else Edge(b, Low(d)) < Edge(a, High(d))
  }

  predicate LinedUp(a: real, b: real, d: Direction) {
    if Forward(d) then a <= b else b <= a
  }

  /** The panel that navigation finds on the other side of a split. */
  function Corner(n: Node, d: Direction): Id
    requires PanelIds(n) != []
  {
    if Forward(d) then PanelIds(n)[0] else PanelIds(n)[|PanelIds(n)| - 1]
  }

  lemma CornerIsFlush(n: Node, r: Rect, d: Direction)
    requires NoEmptyPane(n) && Distinct(PanelIds(n)) && ProperDividers(n) && Solid(r)
    ensures PanelIds(n) != [] && Edge(Region(n, r, Corner(n, d)), Aligned(d)) == Edge(r, Aligned(d))
  {
    CornerPanels(n, r);
  }

  lemma RegionWithin(n: Node, r: Rect, id: Id, d: Direction)
    requires id in PanelIds(n) && ProperDividers(n) && Solid(r)
    ensures
      var a := Region(n, r, id);
      && Edge(a, Low(d)) < Edge(a, High(d))
      && Edge(r, Low(d)) <= Edge(a, Low(d)) && Edge(a, High(d)) <= Edge(r, High(d))
  {
  }

  /** The halves of a split along `d` span all of its other axis. */
  lemma AlongHalvesSpan(n: Node, r: Rect, first: bool, d: Direction)
    requires n.Split? && 0.0 < n.divider < 1.0 && Solid(r) && AlongAxis(n.orientation, d)
    ensures Edge(Half(n, r, first), Low(d)) == Edge(r, Low(d)) && Edge(Half(n, r, first), High(d)) == Edge(r, High(d))
  {
  }

  /** Where a split finds the neighbor: on the side of the panel, or at the near corner of the other side. */
  lemma WhereFound(n: Node, id: Id, d: Direction)
    requires n.Split? && NoEmptyPane(n) && Distinct(PanelIds(n)) && id in PanelIds(n) && Neighbor(n, id, d).Some?
    ensures
      var first := id in PanelIds(n.first);
      var side, other := if first then n.first else n.second, if first then n.second else n.first;
      && id in PanelIds(side) && Distinct(PanelIds(side)) && Distinct(PanelIds(other))
      && NoEmptyPane(side) && NoEmptyPane(other) && PanelIds(other) != []
      && (forall x | x in PanelIds(other) :: x !in PanelIds(side))
      && (if Neighbor(side, id, d).Some? then Neighbor(n, id, d) == Neighbor(side, id, d)
          else AlongAxis(n.orientation, d) && Neighbor(n, id, d) == Some(Corner(other, d)))
  {
    DistinctSides(n);
    NeighborAtSplit(n, id, d);
    EmptyMeansNoIds(n.first);
    EmptyMeansNoIds(n.second);
  }

  lemma {:induction false} NeighborIsInTree(n: Node, id: Id, d: Direction)
    requires NoEmptyPane(n) && Distinct(PanelIds(n)) && id in PanelIds(n) && Neighbor(n, id, d).Some?
    ensures Neighbor(n, id, d).value in PanelIds(n)
  {
    if n.Split? {
      WhereFound(n, id, d);
      var side := if id in PanelIds(n.first) then n.first else n.second;
      if Neighbor(side, id, d).Some? {
        NeighborIsInTree(side, id, d);
      }
    }
  }

  /** The pane found is lined up with the pane left or reaches past it, at the aligned edge; so the two face each other
      exactly when the pane left begins before the one found ends. */
  lemma {:induction false} FacesExactlyWhenBeyond(n: Node, r: Rect, id: Id, d: Direction)
    requires NoEmptyPane(n) && Distinct(PanelIds(n)) && ProperDividers(n) && Solid(r)
    requires id in PanelIds(n) && Neighbor(n, id, d).Some?
    ensures
      var q := Neighbor(n, id, d).value;
      && q in PanelIds(n)
      && LinedUp(Edge(Region(n, r, q), Aligned(d)), Edge(Region(n, r, id), Aligned(d)), d)
      && (Faces(n, r, id, d) <==> Beyond(Region(n, r, id), Region(n, r, q), d))
  {
    NeighborIsInTree(n, id, d);
    var q := Neighbor(n, id, d).value;
    RegionWithin(n, r, id, d);
    RegionWithin(n, r, q, d);
    if n.Split? {
      WhereFound(n, id, d);
      var first := id in PanelIds(n.first);
      var side, other := if first then n.first else n.second, if first then n.second else n.first;
      RegionInSide(n, r, id, first);
      if Neighbor(side, id, d).Some? {
        FacesExactlyWhenBeyond(side, Half(n, r, first), id, d);
        RegionInSide(n, r, q, first);
      } else {
        RegionInSide(n, r, q, !first);
        AlongHalvesSpan(n, r, first, d);
        AlongHalvesSpan(n, r, !first, d);
        CornerIsFlush(other, Half(n, r, !first), d);
        RegionWithin(side, Half(n, r, first), id, d);
      }
    }
  }

  lemma {:induction false} CornerIsEndTab(n: Node, d: Direction)
    requires NoEmptyPane(n) && Distinct(PanelIds(n)) && PanelIds(n) != []
    ensures
      var tabs := PaneOf(n, Corner(n, d));
      && tabs.Some? && tabs.value != []
      && Corner(n, d) == if Forward(d) then tabs.value[0] else tabs.value[|tabs.value| - 1]
  {
    if n.Split? {
      DistinctSides(n);
      EmptyMeansNoIds(n.first);
      EmptyMeansNoIds(n.second);
      CornerIsEndTab(if Forward(d) then n.first else n.second, d);
      PaneOfMember(n.first, Corner(n.second, d));
    }
  }

  /** Of the pane it lands on, navigation names the first tab, going right or down, and else the last. */
  lemma {:induction false} NeighborIsEndTab(n: Node, id: Id, d: Direction)
    requires NoEmptyPane(n) && Distinct(PanelIds(n)) && id in PanelIds(n) && Neighbor(n, id, d).Some?
    ensures
      var q := Neighbor(n, id, d).value;
      var tabs := PaneOf(n, q);
      tabs.Some? && tabs.value != [] && q == if Forward(d) then tabs.value[0] else tabs.value[|tabs.value| - 1]
  {
    if n.Split? {
      DistinctSides(n);
      WhereFound(n, id, d);
      var first := id in PanelIds(n.first);
      var side, other := if first then n.first else n.second, if first then n.second else n.first;
      if Neighbor(side, id, d).Some? {
        NeighborIsEndTab(side, id, d);
        NeighborIsInTree(side, id, d);
      } else {
        CornerIsEndTab(other, d);
      }
      PaneOfMember(n.first, Neighbor(n, id, d).value);
    }
  }

  // ----- what the shape of the tree alone decides

  /** The way down to `id` never leaves the aligned edge. */
  predicate KeepsEdge(n: Node, id: Id, d: Direction) {
    n.Split? ==>
      var first := id in PanelIds(n.first);
      (AlongAxis(n.orientation, d) || first == Forward(d)) && KeepsEdge(if first then n.first else n.second, id, d)
  }

  /** The way down to the corner panel meets no split across `d`. */
  predicate Spans(n: Node, d: Direction) {
    n.Split? ==> AlongAxis(n.orientation, d) && Spans(if Forward(d) then n.first else n.second, d)
  }

  /** At the split that decides where navigation lands, the way down to `id` keeps the aligned edge, or the corner panel
      on the other side spans that side. */
  predicate AlwaysFaces(n: Node, id: Id, d: Direction) {
    n.Split? ==>
      var first := id in PanelIds(n.first);
      var side, other := if first then n.first else n.second, if first then n.second else n.first;
      if Neighbor(side, id, d).Some? then AlwaysFaces(side, id, d)
      else KeepsEdge(side, id, d) || Spans(other, d)
  }

  lemma {:induction false} FlushExactlyWhenKept(n: Node, r: Rect, id: Id, d: Direction)
    requires Distinct(PanelIds(n)) && ProperDividers(n) && Solid(r) && id in PanelIds(n)
    ensures Edge(Region(n, r, id), Aligned(d)) == Edge(r, Aligned(d)) <==> KeepsEdge(n, id, d)
  {
    if n.Split? {
      DistinctSides(n);
      var first := id in PanelIds(n.first);
      var side, h := if first then n.first else n.second, Half(n, r, first);
      FlushExactlyWhenKept(side, h, id, d);
      RegionInSide(n, r, id, first);
      RegionWithin(side, h, id, d);
      HalfEdges(n, r, first, Aligned(d));
    }
  }

  lemma {:induction false} SpanningCorner(n: Node, r: Rect, d: Direction)
    requires NoEmptyPane(n) && Distinct(PanelIds(n)) && ProperDividers(n) && Solid(r) && Spans(n, d)
    ensures PanelIds(n) != []
    ensures Edge(Region(n, r, Corner(n, d)), Low(d)) == Edge(r, Low(d))
    ensures Edge(Region(n, r, Corner(n, d)), High(d)) == Edge(r, High(d))
  {
    EmptyMeansNoIds(n);
    if n.Split? {
      CornerOfSide(n, d);
      var first := Forward(d);
      SpanningCorner(if first then n.first else n.second, Half(n, r, first), d);
      RegionInSide(n, r, Corner(n, d), first);
      AlongHalvesSpan(n, r, first, d);
    }
  }

  lemma CornerOfSide(n: Node, d: Direction)
    requires n.Split? && NoEmptyPane(n) && Distinct(PanelIds(n))
    ensures
      var side, other := if Forward(d) then n.first else n.second, if Forward(d) then n.second else n.first;
      && PanelIds(side) != [] && PanelIds(n) != [] && Distinct(PanelIds(side)) && NoEmptyPane(side)
      && Corner(n, d) == Corner(side, d) && Corner(n, d) in PanelIds(side) && Corner(n, d) !in PanelIds(other)
  {
    DistinctSides(n);
    EmptyMeansNoIds(n.first);
    EmptyMeansNoIds(n.second);
    assert forall x | x in PanelIds(n.second) :: x !in PanelIds(n.first);
  }

  /** With such a shape the panes face each other wherever the dividers are. */
  lemma {:induction false} ShapeMakesItFace(n: Node, r: Rect, id: Id, d: Direction)
    requires NoEmptyPane(n) && Distinct(PanelIds(n)) && ProperDividers(n) && Solid(r)
    requires id in PanelIds(n) && Neighbor(n, id, d).Some? && AlwaysFaces(n, id, d)
    ensures Faces(n, r, id, d)
  {
    NeighborIsInTree(n, id, d);
    if n.Split? {
      WhereFound(n, id, d);
      var q, first := Neighbor(n, id, d).value, id in PanelIds(n.first);
      var side, other := if first then n.first else n.second, if first then n.second else n.first;
      var h, k := Half(n, r, first), Half(n, r, !first);
      RegionInSide(n, r, id, first);
      if Neighbor(side, id, d).Some? {
        ShapeMakesItFace(side, h, id, d);
        NeighborIsInTree(side, id, d);
        RegionInSide(n, r, q, first);
      } else {
        RegionInSide(n, r, q, !first);
        DecidedHere(side, other, h, k, id, d);
        AlongHalvesSpan(n, r, first, d);
        AlongHalvesSpan(n, r, !first, d);
      }
    }
  }

  lemma DecidedHere(side: Node, other: Node, h: Rect, k: Rect, id: Id, d: Direction)
    requires NoEmptyPane(side) && NoEmptyPane(other) && Distinct(PanelIds(side)) && Distinct(PanelIds(other))
    requires ProperDividers(side) && ProperDividers(other) && Solid(h) && Solid(k) && id in PanelIds(side)
    requires Edge(h, Low(d)) == Edge(k, Low(d)) && Edge(h, High(d)) == Edge(k, High(d))
    requires KeepsEdge(side, id, d) || Spans(other, d)
    ensures PanelIds(other) != [] && Overlap(Region(side, h, id), Region(other, k, Corner(other, d)), d)
  {
    CornerIsFlush(other, k, d);
    RegionWithin(side, h, id, d);
    RegionWithin(other, k, Corner(other, d), d);
    if KeepsEdge(side, id, d) {
      FlushExactlyWhenKept(side, h, id, d);
    } else {
      SpanningCorner(other, k, d);
    }
  }

  // ----- and dividers that make it miss otherwise

  /** Every divider at `v`. */
  function Uniform(n: Node, v: real): Node {
    match n
    case Pane(_, _) => n
    case Split(_, _, f, s) => n.(divider := v, first := Uniform(f, v), second := Uniform(s, v))
  }

  lemma {:induction false} UniformIsAlike(n: Node, v: real)
    requires 0.0 < v < 1.0
    ensures Equalize(Uniform(n, v)) == Equalize(n) && ProperDividers(Uniform(n, v))
  {
    if n.Split? {
      UniformIsAlike(n.first, v);
      UniformIsAlike(n.second, v);
    }
  }

  /** What navigation finds in a tree does not depend on dividers. */
  lemma {:induction false} ShapeDecidesNeighbor(n: Node, id: Id, d: Direction)
    ensures PanelIds(Equalize(n)) == PanelIds(n) && Neighbor(Equalize(n), id, d) == Neighbor(n, id, d)
  {
    EqualizeKeepsPanes(n);
    if n.Split? {
      ShapeDecidesNeighbor(n.first, id, d);
      ShapeDecidesNeighbor(n.second, id, d);
    }
  }

  lemma {:induction false} ShapeDecidesEdges(n: Node, id: Id, d: Direction)
    ensures KeepsEdge(Equalize(n), id, d) == KeepsEdge(n, id, d) && Spans(Equalize(n), d) == Spans(n, d)
  {
    if n.Split? {
      EqualizeKeepsPanes(n.first);
      ShapeDecidesEdges(n.first, id, d);
      ShapeDecidesEdges(n.second, id, d);
    }
  }

  lemma {:induction false} ShapeDecides(n: Node, id: Id, d: Direction)
    ensures AlwaysFaces(Equalize(n), id, d) == AlwaysFaces(n, id, d)
  {
    if n.Split? {
      EqualizeKeepsPanes(n.first);
      var first := id in PanelIds(n.first);
      var side, other := if first then n.first else n.second, if first then n.second else n.first;
      ShapeDecidesNeighbor(side, id, d);
      ShapeDecidesEdges(side, id, d);
      ShapeDecidesEdges(other, id, d);
      ShapeDecides(side, id, d);
    }
  }

  lemma AlikeTrees(m: Node, n: Node, id: Id, d: Direction)
    requires Equalize(m) == Equalize(n)
    ensures PanelIds(m) == PanelIds(n) && NoEmptyPane(m) == NoEmptyPane(n)
    ensures Neighbor(m, id, d) == Neighbor(n, id, d) && Spans(m, d) == Spans(n, d)
    ensures AlwaysFaces(m, id, d) == AlwaysFaces(n, id, d)
  {
    EqualizeKeepsPanes(m);
    EqualizeKeepsPanes(n);
    ShapeDecidesNeighbor(m, id, d);
    ShapeDecidesNeighbor(n, id, d);
    ShapeDecidesEdges(m, id, d);
    ShapeDecidesEdges(n, id, d);
    ShapeDecides(m, id, d);
    ShapeDecides(n, id, d);
  }

  /** A corner panel that does not span its tree can be made as thin as one likes, across `d`. */
  lemma {:induction false} ThinCorner(n: Node, r: Rect, d: Direction, v: real)
    requires NoEmptyPane(n) && Distinct(PanelIds(n)) && Solid(r) && 0.0 < v < 1.0 && !Spans(n, d)
    ensures
      var m := Uniform(n, if Forward(d) then v else 1.0 - v);
      var thin := Share(Edge(r, High(d)) - Edge(r, Low(d)), v);
      && PanelIds(m) == PanelIds(n) != [] && ProperDividers(m)
      && (Forward(d) ==> Edge(Region(m, r, Corner(n, d)), High(d)) <= Edge(r, Low(d)) + thin)
      && (!Forward(d) ==> Edge(Region(m, r, Corner(n, d)), Low(d)) >= Edge(r, High(d)) - thin)
  {
    var w := if Forward(d) then v else 1.0 - v;
    var m := Uniform(n, w);
    CornerOfSide(n, d);
    UniformIsAlike(n, w);
    AlikeTrees(m, n, Corner(n, d), d);
    var first := Forward(d);
    var side, h := if first then n.first else n.second, Half(m, r, first);
    UniformIsAlike(side, w);
    AlikeTrees(Uniform(side, w), side, Corner(n, d), d);
    UniformIsAlike(n.first, w);
    AlikeTrees(Uniform(n.first, w), n.first, Corner(n, d), d);
    RegionInSide(m, r, Corner(n, d), first);
    if AlongAxis(n.orientation, d) {
      ThinCorner(side, h, d, v);
      AlongHalvesSpan(m, r, first, d);
    } else {
      RegionWithin(Uniform(side, w), h, Corner(n, d), d);
      ThinHalf(m, r, d, v);
    }
  }

  /** A split across `d` gives the side of the corner panel the share `v`. */
  lemma ThinHalf(m: Node, r: Rect, d: Direction, v: real)
    requires m.Split? && Solid(r) && 0.0 < v < 1.0 && !AlongAxis(m.orientation, d)
    requires m.divider == if Forward(d) then v else 1.0 - v
    ensures
      var thin := Share(Edge(r, High(d)) - Edge(r, Low(d)), v);
      && (Forward(d) ==> Edge(Half(m, r, true), High(d)) == Edge(r, Low(d)) + thin)
      && (!Forward(d) ==> Edge(Half(m, r, false), Low(d)) == Edge(r, High(d)) - thin)
  {
    var width := Edge(r, High(d)) - Edge(r, Low(d));
    SharesAddUp(width * v, width * (1.0 - v), width, v);
  }

  lemma Ratio(gap: real, width: real) returns (v: real)
    requires 0.0 < gap < width
    ensures 0.0 < v < 1.0 && Share(width, v) == gap
  {
    v := gap / width;
    ShareOfRatio(gap, width, v);
  }

  lemma ShareOfRatio(gap: real, width: real, v: real)
    requires 0.0 < gap < width && v == gap / width
    ensures width * v == gap && 0.0 < v < 1.0
  {
    var p := v * width;
    assert p == gap;
    if v <= 0.0 {
      ProductShrinks(p, width, v);
      assert false;
    }
    if v >= 1.0 {
      ProductGrows(p, width, v);
      assert false;
    }
  }

  lemma ProductGrows(p: real, x: real, v: real)
    requires x > 0.0 && v >= 1.0 && p == v * x
    ensures p >= x
  {
  }

  lemma ProductShrinks(p: real, x: real, v: real)
    requires x > 0.0 && v <= 0.0 && p == v * x
    ensures p <= 0.0
  {
  }

  /** The pane left off the aligned edge and the corner panel thinned until they miss each other. */
  lemma MissedHere(side: Node, other: Node, h: Rect, k: Rect, id: Id, d: Direction) returns (thin: Node)
    requires NoEmptyPane(other) && Distinct(PanelIds(side)) && Distinct(PanelIds(other))
    requires ProperDividers(side) && Solid(h) && Solid(k) && id in PanelIds(side)
    requires Edge(h, Low(d)) == Edge(k, Low(d)) && Edge(h, High(d)) == Edge(k, High(d))
    requires !KeepsEdge(side, id, d) && !Spans(other, d)
    ensures Equalize(thin) == Equalize(other) && ProperDividers(thin)
    ensures PanelIds(thin) == PanelIds(other) != []
    ensures !Overlap(Region(side, h, id), Region(thin, k, Corner(other, d)), d)
  {
    var a := Region(side, h, id);
    FlushExactlyWhenKept(side, h, id, d);
    RegionWithin(side, h, id, d);
    var gap := if Forward(d) then Edge(a, Low(d)) - Edge(h, Low(d)) else Edge(h, High(d)) - Edge(a, High(d));
    var v := Ratio(gap, Edge(k, High(d)) - Edge(k, Low(d)));
    var w := if Forward(d) then v else 1.0 - v;
    thin := Uniform(other, w);
    UniformIsAlike(other, w);
    ThinCorner(other, k, d, v);
  }

  /** The tree with one side replaced. */
  function WithSide(n: Node, first: bool, side: Node): Node
    requires n.Split?
  {
    if first then n.(first := side) else n.(second := side)
  }

  lemma WithSideIsAlike(n: Node, r: Rect, first: bool, side: Node)
    requires n.Split? && ProperDividers(n) && ProperDividers(side) && Solid(r)
    requires Equalize(side) == Equalize(if first then n.first else n.second)
    ensures
      var m := WithSide(n, first, side);
      && Equalize(m) == Equalize(n) && ProperDividers(m)
      && Half(m, r, true) == Half(n, r, true) && Half(m, r, false) == Half(n, r, false)
  {
  }

  /** The split decides, and its other side is replaced by one whose corner misses. */
  lemma MissedAcross(n: Node, r: Rect, id: Id, d: Direction, thin: Node)
    requires n.Split? && NoEmptyPane(n) && Distinct(PanelIds(n)) && ProperDividers(n) && Solid(r) && id in PanelIds(n)
    requires Neighbor(n, id, d).Some? && ProperDividers(thin)
    requires
      var first := id in PanelIds(n.first);
      var side, other := if first then n.first else n.second, if first then n.second else n.first;
      && id in PanelIds(side) && Neighbor(side, id, d).None?
      && Equalize(thin) == Equalize(other) && PanelIds(thin) == PanelIds(other) != []
      && !Overlap(Region(side, Half(n, r, first), id), Region(thin, Half(n, r, !first), Corner(other, d)), d)
    ensures
      var first := id in PanelIds(n.first);
      var m := WithSide(n, !first, thin);
      && Equalize(m) == Equalize(n) && ProperDividers(m) && PanelIds(m) == PanelIds(n) && !Faces(m, r, id, d)
  {
    var first := id in PanelIds(n.first);
    var other := if first then n.second else n.first;
    var m := WithSide(n, !first, thin);
    WithSideIsAlike(n, r, !first, thin);
    AlikeTrees(m, n, id, d);
    WhereFound(n, id, d);
    RegionInSide(m, r, id, first);
    RegionInSide(m, r, Corner(other, d), !first);
  }

  /** With any other shape there are dividers for which navigation lands on a pane that is not across. */
  lemma {:induction false} OtherShapesMayMiss(n: Node, r: Rect, id: Id, d: Direction) returns (m: Node)
    requires NoEmptyPane(n) && Distinct(PanelIds(n)) && ProperDividers(n) && Solid(r)
    requires id in PanelIds(n) && Neighbor(n, id, d).Some? && !AlwaysFaces(n, id, d)
    ensures Equalize(m) == Equalize(n) && ProperDividers(m) && PanelIds(m) == PanelIds(n)
    ensures !Faces(m, r, id, d)
  {
    WhereFound(n, id, d);
    var first := id in PanelIds(n.first);
    var side, other := if first then n.first else n.second, if first then n.second else n.first;
    if Neighbor(side, id, d).Some? {
      var s := OtherShapesMayMiss(side, Half(n, r, first), id, d);
      m := WithSide(n, first, s);
      WithSideIsAlike(n, r, first, s);
      AlikeTrees(s, side, id, d);
      AlikeTrees(m, n, id, d);
      SideMisses(m, r, id, d, first);
    } else {
      AlongHalvesSpan(n, r, first, d);
      AlongHalvesSpan(n, r, !first, d);
      var thin := MissedHere(side, other, Half(n, r, first), Half(n, r, !first), id, d);
      m := WithSide(n, !first, thin);
      MissedAcross(n, r, id, d, thin);
    }
  }

  lemma SideMisses(m: Node, r: Rect, id: Id, d: Direction, first: bool)
    requires m.Split? && NoEmptyPane(m) && Distinct(PanelIds(m)) && ProperDividers(m) && Solid(r) && id in PanelIds(m)
    requires (first <==> id in PanelIds(m.first)) && id in PanelIds(if first then m.first else m.second)
    requires
      var side := if first then m.first else m.second;
      Neighbor(side, id, d).Some? && Neighbor(m, id, d) == Neighbor(side, id, d) &&
      !Faces(side, Half(m, r, first), id, d)
    ensures !Faces(m, r, id, d)
  {
    DistinctSides(m);
    var side := if first then m.first else m.second;
    NeighborIsInTree(side, id, d);
    RegionInSide(m, r, id, first);
    RegionInSide(m, r, Neighbor(m, id, d).value, first);
  }

  /** Navigation lands on a pane across from the one it started from, wherever the dividers are, if and only if the
      shape of the tree says so. */
  lemma FacesForAllDividersExactly(n: Node, r: Rect, id: Id, d: Direction)
    requires NoEmptyPane(n) && Distinct(PanelIds(n)) && ProperDividers(n) && Solid(r)
    requires id in PanelIds(n) && Neighbor(n, id, d).Some?
    ensures
      (forall m | Equalize(m) == Equalize(n) && ProperDividers(m) :: id in PanelIds(m) && Faces(m, r, id, d)) <==>
        AlwaysFaces(n, id, d)
  {
    if AlwaysFaces(n, id, d) {
      forall m | Equalize(m) == Equalize(n) && ProperDividers(m) ensures id in PanelIds(m) && Faces(m, r, id, d) {
        AlikeTrees(m, n, id, d);
        ShapeMakesItFace(m, r, id, d);
      }
    } else {
      var m := OtherShapesMayMiss(n, r, id, d);
      assert Equalize(m) == Equalize(n) && !Faces(m, r, id, d);
    }
  }
}
