/** A layout snapshot as boxed nodes, of which the dividers are overwritten in place before it is written out. */
module SnapshotHeap {
  import opened Common
  import opened Layout
  import opened Snapshot

  class SnapshotNode {
    const isSplit: bool
    const ids: seq<Id>
    const selected: Option<Id>
    const orientation: Orientation
    const first: SnapshotNode?
    const second: SnapshotNode?
    var divider: Position
    ghost const Repr: set<object>

    ghost predicate Valid()
      reads this, Repr
      decreases Repr
    {
      && this in Repr
      && (isSplit ==>
            && first != null && second != null
            && first in Repr && second in Repr && first.Repr <= Repr && second.Repr <= Repr
            && this !in first.Repr && this !in second.Repr && first.Repr !! second.Repr
            && first.Valid() && second.Valid())
    }

    /** The snapshot that these nodes are. */
    function Tree(): LayoutSnapshot
      requires Valid()
      reads this, Repr
      decreases Repr
    {
      if isSplit then SplitSnapshot(orientation, divider, first.Tree(), second.Tree()) else PaneSnapshot(ids, selected)
    }

    constructor OfPane(ids: seq<Id>, selected: Option<Id>)
      ensures Valid() && fresh(Repr) && Tree() == PaneSnapshot(ids, selected)
    {
      isSplit, this.ids, this.selected := false, ids, selected;
      orientation, divider, first, second := Horizontal, Finite(0.5), null, null;
      Repr := {this};
    }

    constructor OfSplit(o: Orientation, d: Position, f: SnapshotNode, s: SnapshotNode)
      requires f.Valid() && s.Valid() && f.Repr !! s.Repr
      ensures Valid() && Repr == {this} + f.Repr + s.Repr && Tree() == SplitSnapshot(o, d, f.Tree(), s.Tree())
    {
      isSplit, ids, selected := true, [], None;
      orientation, divider, first, second := o, d, f, s;
      Repr := {this} + f.Repr + s.Repr;
    }

    /** Overwrites every divider with one half. */
    method NormalizeDividers()
      requires Valid()
      modifies Repr
      ensures Valid() && Tree() == Normalized(old(Tree()))
      decreases Repr
    {
      if isSplit {
        divider := Finite(0.5);
        first.NormalizeDividers();
        second.NormalizeDividers();
      }
    }
  }

  /** Boxes the snapshot of a layout. */
  method Boxed(n: Node) returns (box: SnapshotNode)
    ensures box.Valid() && fresh(box.Repr) && box.Tree() == FromLayout(n)
  {
    if n.Split? {
      var first := Boxed(n.first);
      var second := Boxed(n.second);
      box := new SnapshotNode.OfSplit(n.orientation, Finite(n.divider), first, second);
    } else {
      box := new SnapshotNode.OfPane(n.ids, n.selected);
    }
  }

  /** The layout part of a workspace snapshot. */
  method SaveLayout(n: Node, keepRatios: bool) returns (s: LayoutSnapshot)
    ensures s == if keepRatios then FromLayout(n) else Normalized(FromLayout(n))
  {
    var box := Boxed(n);
    if !keepRatios {
      box.NormalizeDividers();
    }
    s := box.Tree();
  }
}
