/**
 The layout tree of a workspace as a value: binary splits over panes of tabbed panels.
 The functions here say what each tree operation yields; LayoutHeap.dfy performs the same
 operations in place, and LayoutLaws.dfy proves what they promise.
 */
module Layout {
  import opened Common

  datatype Orientation = Horizontal | Vertical
  datatype Direction = Left | Right | Up | Down

  datatype Node =
    | Pane(ids: seq<Id>, selected: Option<Id>)
    | Split(orientation: Orientation, divider: real, first: Node, second: Node)

  function SinglePane(id: Id): Node {
    Pane([id], Some(id))
  }

  /** All panel ids, in layout order. */
  function PanelIds(n: Node): seq<Id> {
    match n
    case Pane(ids, _) => ids
    case Split(_, _, f, s) => PanelIds(f) + PanelIds(s)
  }

  predicate IsEmpty(n: Node) {
    match n
    case Pane(ids, _) => ids == []
    case Split(_, _, f, s) => IsEmpty(f) && IsEmpty(s)
  }

  /** The panes, in layout order. */
  function Panes(n: Node): seq<Node> {
    match n
    case Pane(_, _) => [n]
    case Split(_, _, f, s) => Panes(f) + Panes(s)
  }

  /** Every pane holds a panel. */
  ghost predicate NoEmptyPane(n: Node) {
    match n
    case Pane(ids, _) => ids != []
    case Split(_, _, f, s) => NoEmptyPane(f) && NoEmptyPane(s)
  }

  /** A pane that holds panels shows one of them; a pane without panels shows none. */
  ghost predicate SelectionsInPanes(n: Node) {
    match n
    case Pane(ids, sel) => if ids == [] then sel == None else sel.Some? && sel.value in ids
    case Split(_, _, f, s) => SelectionsInPanes(f) && SelectionsInPanes(s)
  }

  /** The ids sharing a pane with `id`. */
  function PaneOf(n: Node, id: Id): Option<seq<Id>> {
    match n
    case Pane(ids, _) => if id in ids then Some(ids) else None
    case Split(_, _, f, s) => OrElse(PaneOf(f, id), PaneOf(s, id))
  }

  function SelectPanel(n: Node, id: Id): Node {
    match n
    case Pane(ids, _) => if id in ids then n.(selected := Some(id)) else n
    case Split(_, _, f, s) =>
      if id in PanelIds(f) then n.(first := SelectPanel(f, id)) else n.(second := SelectPanel(s, id))
  }

  /** A split that lost a panel gives way to the other side when one side holds none. */
  function Collapse(n: Node): Node
    requires n.Split?
  {
    if IsEmpty(n.first) then n.second else if IsEmpty(n.second) then n.first else n
  }

  function Remove(n: Node, id: Id): Node {
    match n
    case Pane(ids, sel) =>
      if id in ids then
        var rest := RemoveFirst(ids, id);
        Pane(rest, if sel == Some(id) then HeadOpt(rest) else sel)
      else n
    case Split(_, _, f, s) =>
      if id in PanelIds(f) then Collapse(n.(first := Remove(f, id)))
      else if id in PanelIds(s) then Collapse(n.(second := Remove(s, id)))
      else n
  }

  /** `pane` and a pane holding only `id`, side by side or stacked. */
  function Beside(pane: Node, id: Id, o: Orientation, newFirst: bool): Node {
    if newFirst then Split(o, 0.5, SinglePane(id), pane) else Split(o, 0.5, pane, SinglePane(id))
  }

  /** Splits the pane holding `target`, giving `id` a pane of its own beside it. */
  function InsertBeside(n: Node, target: Id, id: Id, o: Orientation, newFirst: bool): Node {
    match n
    case Pane(ids, _) => if target in ids then Beside(n, id, o, newFirst) else n
    case Split(_, _, f, s) =>
      if target in PanelIds(f) then n.(first := InsertBeside(f, target, id, o, newFirst))
      else n.(second := InsertBeside(s, target, id, o, newFirst))
  }

  /** Adds `id` as a selected tab right after `target`. */
  function AddToPane(n: Node, target: Id, id: Id): Node {
    match n
    case Pane(ids, _) =>
      if target in ids then Pane(InsertAt(ids, IndexOf(ids, target) + 1, id), Some(id)) else n
    case Split(_, _, f, s) =>
      if target in PanelIds(f) then n.(first := AddToPane(f, target, id))
      else n.(second := AddToPane(s, target, id))
  }

  /** Moves a tab to another position of its pane. */
  function Reorder(n: Node, id: Id, index: nat): Node {
    match n
    case Pane(ids, _) =>
      if id in ids then
        var rest := RemoveFirst(ids, id);
        n.(ids := InsertAt(rest, if index < |rest| then index else |rest|, id))
      else n
    case Split(_, _, f, s) =>
      if id in PanelIds(f) then n.(first := Reorder(f, id, index)) else n.(second := Reorder(s, id, index))
  }

  function Exchanged(x: Id, a: Id, b: Id): Id {
    if x == a then b else if x == b then a else x
  }

  function AllExchanged(s: seq<Id>, a: Id, b: Id): seq<Id> {
    seq(|s|, i requires 0 <= i < |s| => Exchanged(s[i], a, b))
  }

  /** Exchanges two ids wherever they occur. */
  function Swap(n: Node, a: Id, b: Id): Node {
    match n
    case Pane(ids, sel) =>
      Pane(AllExchanged(ids, a, b), if sel.Some? then Some(Exchanged(sel.value, a, b)) else None)
    case Split(_, _, f, s) => n.(first := Swap(f, a, b), second := Swap(s, a, b))
  }

  function Clamp(v: real, lo: real, hi: real): real
    requires lo <= hi
  {
    if v < lo then lo else if v > hi then hi else v
  }

  /** Sorted copies of two id lists are equal exactly when the lists have the same multiset. */
  predicate SamePanelSet(n: Node, expected: seq<Id>) {
    multiset(PanelIds(n)) == multiset(expected)
  }

  predicate IsTarget(n: Node, a: seq<Id>, b: seq<Id>) {
    n.Split? && SamePanelSet(n.first, a) && SamePanelSet(n.second, b)
  }

  predicate HasTarget(n: Node, a: seq<Id>, b: seq<Id>) {
    n.Split? && (IsTarget(n, a, b) || HasTarget(n.first, a, b) || HasTarget(n.second, a, b))
  }

  /** Moves the divider of the first split, in preorder, whose sides hold exactly `a` and `b`. */
  function SetDivider(n: Node, a: seq<Id>, b: seq<Id>, v: real): Node {
    match n
    case Pane(_, _) => n
    case Split(_, _, f, s) =>
      if IsTarget(n, a, b) then n.(divider := Clamp(v, 0.0, 1.0))
      else if HasTarget(f, a, b) then n.(first := SetDivider(f, a, b, v))
      else n.(second := SetDivider(s, a, b, v))
  }

  /** Moves the divider of the innermost split around `id`. */
  function Resize(n: Node, id: Id, amount: real): Node {
    match n
    case Pane(_, _) => n
    case Split(_, d, f, s) =>
      if id in PanelIds(f) && f.Split? then n.(first := Resize(f, id, amount))
      else if id in PanelIds(s) && s.Split? then n.(second := Resize(s, id, amount))
      else if id in PanelIds(f) then n.(divider := Clamp(d + amount, 0.05, 0.95))
      else if id in PanelIds(s) then n.(divider := Clamp(d - amount, 0.05, 0.95))
      else n
  }

  function Equalize(n: Node): Node {
    match n
    case Pane(_, _) => n
    case Split(_, _, f, s) => n.(divider := 0.5, first := Equalize(f), second := Equalize(s))
  }

  /** The gap between 1 and the next 64-bit float. */
  const EPSILON := 1.0 / 4503599627370496.0

  function Distance(a: real, b: real): real {
    if a < b then b - a else a - b
  }

  /** Some divider is away from the middle. */
  predicate Uneven(n: Node) {
    n.Split? && (Distance(n.divider, 0.5) > EPSILON || Uneven(n.first) || Uneven(n.second))
  }

  predicate AlongAxis(o: Orientation, d: Direction) {
    if o.Horizontal? then d.Left? || d.Right? else d.Up? || d.Down?
  }

  predicate Forward(d: Direction) {
    d.Right? || d.Down?
  }

  function Neighbor(n: Node, id: Id, d: Direction): Option<Id> {
    match n
    case Pane(_, _) => None
    case Split(o, _, f, s) =>
      var inFirst := id in PanelIds(f);
      var inSecond := id in PanelIds(s);
      if AlongAxis(o, d) then
        if inFirst && Forward(d) then OrElse(Neighbor(f, id, d), HeadOpt(PanelIds(s)))
        else if inSecond && !Forward(d) then OrElse(Neighbor(s, id, d), LastOpt(PanelIds(f)))
        else if inFirst then Neighbor(f, id, d)
        else Neighbor(s, id, d)
      else if inFirst then Neighbor(f, id, d)
      else if inSecond then Neighbor(s, id, d)
      else None
  }
}
