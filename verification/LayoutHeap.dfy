/** The layout tree as nodes updated in place. Every method does to the nodes what Layout.dfy says of values. */
module LayoutHeap {
  import opened Common
  import opened Layout
  import opened LayoutLaws

  class LayoutNode {
    var isSplit: bool
    var ids: seq<Id>
    var selected: Option<Id>
    var orientation: Orientation
    var divider: real
    var first: LayoutNode?
    var second: LayoutNode?
    ghost var Repr: set<object>
    ghost var Tree: Node

    ghost predicate Valid()
      reads this, Repr
      decreases Repr
    {
      && this in Repr
      && if isSplit then
           && first != null && second != null
           && first in Repr && second in Repr && first.Repr <= Repr && second.Repr <= Repr
           && this !in first.Repr && this !in second.Repr && first.Repr !! second.Repr
           && first.Valid() && second.Valid()
           && Tree == Split(orientation, divider, first.Tree, second.Tree)
         else
           Tree == Pane(ids, selected)
    }

    /** A pane with a single panel. */
    constructor SinglePane(id: Id)
      ensures Valid() && Repr == {this} && Tree == Layout.SinglePane(id)
    {
      isSplit, ids, selected := false, [id], Some(id);
      orientation, divider, first, second := Horizontal, 0.5, null, null;
      Repr, Tree := {this}, Pane([id], Some(id));
    }

    /** A node that takes over the contents of `n`. */
    constructor TakeOver(n: LayoutNode)
      requires n.Valid()
      ensures Valid() && Tree == n.Tree && Repr == {this} + (n.Repr - {n})
      ensures n.isSplit == isSplit && n.first == first && n.second == second
    {
      isSplit, ids, selected := n.isSplit, n.ids, n.selected;
      orientation, divider, first, second := n.orientation, n.divider, n.first, n.second;
      Repr, Tree := {this} + (n.Repr - {n}), n.Tree;
    }

    /** This node as a split of its two children, whatever it recorded before. */
    ghost method Seal()
      requires isSplit && first != null && second != null && first.Valid() && second.Valid()
      requires this !in first.Repr && this !in second.Repr && first.Repr !! second.Repr
      modifies this`Repr, this`Tree
      ensures Valid() && Tree == Split(orientation, divider, first.Tree, second.Tree)
      ensures Repr == {this} + first.Repr + second.Repr
    {
      Repr, Tree := {this} + first.Repr + second.Repr, Split(orientation, divider, first.Tree, second.Tree);
    }

    /** Overwrites this node with the contents of `n`. */
    method Become(n: LayoutNode)
      requires n.Valid() && this !in n.Repr
      modifies this
      ensures Valid() && Tree == old(n.Tree) && Repr <= {this} + old(n.Repr)
    {
      isSplit, ids, selected := n.isSplit, n.ids, n.selected;
      orientation, divider, first, second := n.orientation, n.divider, n.first, n.second;
      if n.isSplit {
        Seal();
      } else {
        Repr, Tree := {this}, Pane(ids, selected);
      }
    }

    method AllPanelIds() returns (all: seq<Id>)
      requires Valid()
      ensures all == PanelIds(Tree)
      decreases Repr
    {
      if isSplit {
        all := first.AllPanelIds();
        var more := second.AllPanelIds();
        all := all + more;
      } else {
        all := ids;
      }
    }

    method Empty() returns (empty: bool)
      requires Valid()
      ensures empty == IsEmpty(Tree)
      decreases Repr
    {
      if isSplit {
        empty := first.Empty();
        if empty { empty := second.Empty(); }
      } else {
        empty := ids == [];
      }
    }

    /** The tabs of the pane that holds `id`. */
    method PaneWithPanel(id: Id) returns (tabs: Option<seq<Id>>)
      requires Valid()
      ensures tabs == PaneOf(Tree, id)
      decreases Repr
    {
      if isSplit {
        tabs := first.PaneWithPanel(id);
        if tabs.None? { tabs := second.PaneWithPanel(id); }
      } else {
        tabs := if id in ids then Some(ids) else None;
      }
    }

    method SelectPanel(id: Id) returns (found: bool)
      requires Valid()
      modifies Repr
      ensures Valid() && Repr <= old(Repr)
      ensures found == (id in PanelIds(old(Tree))) && Tree == Layout.SelectPanel(old(Tree), id)
      decreases Repr
    {
      if isSplit {
        AbsentSelection(first.Tree, id);
        found := first.SelectPanel(id);
        if !found {
          found := second.SelectPanel(id);
        }
        Seal();
      } else {
        found := id in ids;
        if found { selected := Some(id); }
        Tree := Pane(ids, selected);
      }
    }

    /** Gives way to one child when the other holds no panel. */
    method CollapseHere()
      requires Valid() && isSplit
      modifies this
      ensures Valid() && Tree == Collapse(old(Tree)) && Repr <= old(Repr)
    {
      var firstEmpty := first.Empty();
      if firstEmpty {
        Become(second);
      } else {
        var secondEmpty := second.Empty();
        if secondEmpty {
          Become(first);
        }
      }
    }

    method RemovePanel(id: Id) returns (removed: bool)
      requires Valid()
      modifies Repr
      ensures Valid() && Repr <= old(Repr)
      ensures removed == (id in PanelIds(old(Tree))) && Tree == Remove(old(Tree), id)
      decreases Repr
    {
      if isSplit {
        AbsentRemoval(first.Tree, id);
        AbsentRemoval(second.Tree, id);
        removed := first.RemovePanel(id);
        if !removed {
          removed := second.RemovePanel(id);
        }
        Seal();
        if removed {
          CollapseHere();
        }
      } else {
        removed := RemoveTab(id);
      }
    }

    method RemoveTab(id: Id) returns (removed: bool)
      requires Valid() && !isSplit
      modifies this
      ensures Valid() && Repr == old(Repr)
      ensures removed == (id in PanelIds(old(Tree))) && Tree == Remove(old(Tree), id)
    {
      removed := id in ids;
      if removed {
        RemoveAtIndexOf(ids, id);
        ids := RemoveAt(ids, IndexOf(ids, id));
        if selected == Some(id) { selected := HeadOpt(ids); }
        Tree := Pane(ids, selected);
      }
    }

    /** Puts this node's contents and a new pane side by side under it. */
    method SplitHere(id: Id, o: Orientation, newFirst: bool)
      requires Valid()
      modifies this
      ensures Valid() && fresh(Repr - old(Repr)) && Tree == Beside(old(Tree), id, o, newFirst)
    {
      var existing := new LayoutNode.TakeOver(this);
      var pane := new LayoutNode.SinglePane(id);
      isSplit, orientation, divider := true, o, 0.5;
      first, second := if newFirst then pane else existing, if newFirst then existing else pane;
      Seal();
    }

    method SplitPaneWithPanel(target: Id, id: Id, o: Orientation, newFirst: bool) returns (found: bool)
      requires Valid()
      modifies Repr
      ensures Valid() && fresh(Repr - old(Repr))
      ensures found == (target in PanelIds(old(Tree))) && Tree == InsertBeside(old(Tree), target, id, o, newFirst)
      decreases Repr
    {
      if isSplit {
        AbsentInsertion(first.Tree, target, id, o, newFirst);
        found := first.SplitPaneWithPanel(target, id, o, newFirst);
        if !found {
          found := second.SplitPaneWithPanel(target, id, o, newFirst);
        }
        Seal();
      } else {
        found := target in ids;
        if found {
          SplitHere(id, o, newFirst);
        }
      }
    }

    method AddPanelToPane(target: Id, id: Id) returns (found: bool)
      requires Valid()
      modifies Repr
      ensures Valid() && Repr <= old(Repr)
      ensures found == (target in PanelIds(old(Tree))) && Tree == AddToPane(old(Tree), target, id)
      decreases Repr
    {
      if isSplit {
        AbsentTab(first.Tree, target, id);
        found := first.AddPanelToPane(target, id);
        if !found {
          found := second.AddPanelToPane(target, id);
        }
        Seal();
      } else {
        found := target in ids;
        if found {
          ids, selected := InsertAt(ids, IndexOf(ids, target) + 1, id), Some(id);
          Tree := Pane(ids, selected);
        }
      }
    }

    method ReorderPanelInPane(id: Id, index: nat) returns (found: bool)
      requires Valid()
      modifies Repr
      ensures Valid() && Repr <= old(Repr)
      ensures found == (id in PanelIds(old(Tree))) && Tree == Reorder(old(Tree), id, index)
      decreases Repr
    {
      if isSplit {
        AbsentReorder(first.Tree, id, index);
        found := first.ReorderPanelInPane(id, index);
        if !found {
          found := second.ReorderPanelInPane(id, index);
        }
        Seal();
      } else {
        found := id in ids;
        if found {
          RemoveAtIndexOf(ids, id);
          ids := RemoveAt(ids, IndexOf(ids, id));
          ids := InsertAt(ids, if index < |ids| then index else |ids|, id);
          Tree := Pane(ids, selected);
        }
      }
    }

    method SwapPanels(a: Id, b: Id) returns (changed: bool)
      requires Valid()
      modifies Repr
      ensures Valid() && Repr <= old(Repr)
      ensures changed == (a in PanelIds(old(Tree)) || b in PanelIds(old(Tree))) && Tree == Swap(old(Tree), a, b)
      decreases Repr
    {
      if isSplit {
        changed := first.SwapPanels(a, b);
        var more := second.SwapPanels(a, b);
        changed := changed || more;
        Seal();
      } else {
        changed := SwapTabs(a, b);
      }
    }

    /** Walks over the tabs of a pane, exchanging the two ids. */
    method SwapTabs(a: Id, b: Id) returns (changed: bool)
      requires Valid() && !isSplit
      modifies this
      ensures Valid() && Repr == old(Repr)
      ensures changed == (a in PanelIds(old(Tree)) || b in PanelIds(old(Tree))) && Tree == Swap(old(Tree), a, b)
    {
      changed := false;
      var k := 0;
      while k < |ids|
        invariant k <= |ids| == |old(ids)| && !isSplit && selected == old(selected) && Repr == old(Repr)
        invariant forall i | 0 <= i < k :: ids[i] == Exchanged(old(ids)[i], a, b)
        invariant forall i | k <= i < |ids| :: ids[i] == old(ids)[i]
        invariant changed == (a in old(ids)[..k] || b in old(ids)[..k])
        modifies this`ids
      {
        if ids[k] == a {
          ids, changed := ids[k := b], true;
        } else if ids[k] == b {
          ids, changed := ids[k := a], true;
        }
        k := k + 1;
      }
      assert old(ids)[..k] == old(ids);
      if selected.Some? { selected := Some(Exchanged(selected.value, a, b)); }
      Tree := Pane(ids, selected);
    }

    method SetDividerPositionForSplit(a: seq<Id>, b: seq<Id>, position: real) returns (found: bool)
      requires Valid()
      modifies Repr
      ensures Valid() && Repr <= old(Repr)
      ensures found == HasTarget(old(Tree), a, b) && Tree == SetDivider(old(Tree), a, b, position)
      decreases Repr
    {
      if isSplit {
        var firstIds := first.AllPanelIds();
        var secondIds := second.AllPanelIds();
        if multiset(firstIds) == multiset(a) && multiset(secondIds) == multiset(b) {
          divider, found := Clamp(position, 0.0, 1.0), true;
        } else {
          SetBelow(first.Tree, second.Tree, a, b, position);
          found := first.SetDividerPositionForSplit(a, b, position);
          if !found {
            found := second.SetDividerPositionForSplit(a, b, position);
          }
        }
        Seal();
      } else {
        found := false;
      }
    }

    method ResizePanel(id: Id, amount: real) returns (found: bool)
      requires Valid()
      modifies Repr
      ensures Valid() && Repr <= old(Repr)
      ensures found == (isSplit && id in PanelIds(old(Tree))) && Tree == Resize(old(Tree), id, amount)
      ensures isSplit == old(isSplit)
      decreases Repr
    {
      if isSplit {
        var firstIds := first.AllPanelIds();
        var secondIds := second.AllPanelIds();
        var inFirst, inSecond := id in firstIds, id in secondIds;
        found := false;
        if inFirst { found := first.ResizePanel(id, amount); }
        if !found && inSecond { found := second.ResizePanel(id, amount); }
        if !found && (inFirst || inSecond) {
          divider, found := Clamp(divider + (if inFirst then amount else -amount), 0.05, 0.95), true;
        }
        Seal();
      } else {
        found := false;
      }
    }

    method EqualizeAll() returns (changed: bool)
      requires Valid()
      modifies Repr
      ensures Valid() && Repr <= old(Repr)
      ensures changed == Uneven(old(Tree)) && Tree == Equalize(old(Tree))
      decreases Repr
    {
      if isSplit {
        changed := Distance(divider, 0.5) > EPSILON;
        divider := 0.5;
        var inFirst := first.EqualizeAll();
        var inSecond := second.EqualizeAll();
        changed := changed || inFirst || inSecond;
        Seal();
      } else {
        changed := false;
      }
    }
  }

  lemma AbsentSelection(n: Node, id: Id)
    ensures id !in PanelIds(n) ==> Layout.SelectPanel(n, id) == n
  {
  }

  lemma AbsentRemoval(n: Node, id: Id)
    ensures id !in PanelIds(n) ==> Remove(n, id) == n
  {
  }

  lemma AbsentInsertion(n: Node, target: Id, id: Id, o: Orientation, newFirst: bool)
    ensures target !in PanelIds(n) ==> InsertBeside(n, target, id, o, newFirst) == n
  {
  }

  lemma AbsentReorder(n: Node, id: Id, index: nat)
    ensures id !in PanelIds(n) ==> Reorder(n, id, index) == n
  {
  }

  /** Trying the first side, then the second if it had no match, is setting the divider in the side that has it. */
  lemma SetBelow(f: Node, s: Node, a: seq<Id>, b: seq<Id>, v: real)
    ensures
      var tried := SetDivider(f, a, b, v);
      && (HasTarget(f, a, b) ==> forall o, d | !IsTarget(Split(o, d, f, s), a, b) ::
            SetDivider(Split(o, d, f, s), a, b, v) == Split(o, d, tried, s))
      && (!HasTarget(f, a, b) ==> tried == f && forall o, d | !IsTarget(Split(o, d, f, s), a, b) ::
            SetDivider(Split(o, d, f, s), a, b, v) == Split(o, d, f, SetDivider(s, a, b, v)))
  {
    NoTargetNoChange(f, a, b, v);
  }
}
