/** Snapshots of layouts, panels and workspaces, and what comes back from them. */
module Snapshot {
  import opened Common
  import opened Layout
  import opened LayoutLaws
  import opened Places
  import opened WorkspaceModel

  /** A divider position read from a file: a number in the finite range, or not. */
  datatype Position = Finite(at: real) | NotFinite

  datatype LayoutSnapshot =
    | PaneSnapshot(ids: seq<Id>, selected: Option<Id>)
    | SplitSnapshot(orientation: Orientation, divider: Position, first: LayoutSnapshot, second: LayoutSnapshot)

  function FromLayout(n: Node): LayoutSnapshot {
    match n
    case Pane(ids, selected) => PaneSnapshot(ids, selected)
    case Split(o, d, f, s) => SplitSnapshot(o, Finite(d), FromLayout(f), FromLayout(s))
  }

  function ToLayout(s: LayoutSnapshot): Node {
    match s
    case PaneSnapshot(ids, selected) => Pane(ids, selected)
    case SplitSnapshot(o, d, f, g) =>
      Split(o, if d.Finite? then Clamp(d.at, 0.0, 1.0) else 0.5, ToLayout(f), ToLayout(g))
  }

  /** All dividers reset to the middle. */
  function Normalized(s: LayoutSnapshot): LayoutSnapshot {
    match s
    case PaneSnapshot(_, _) => s
    case SplitSnapshot(_, _, f, g) => s.(divider := Finite(0.5), first := Normalized(f), second := Normalized(g))
  }

  predicate DividersInRange(n: Node) {
    n.Split? ==> 0.0 <= n.divider <= 1.0 && DividersInRange(n.first) && DividersInRange(n.second)
  }

  /** A layout comes back unchanged exactly when its dividers lie between 0 and 1. */
  lemma {:induction false} LayoutComesBack(n: Node)
    ensures ToLayout(FromLayout(n)) == n <==> DividersInRange(n)
  {
    if n.Split? {
      LayoutComesBack(n.first);
      LayoutComesBack(n.second);
    }
  }

  /** Normalising first brings back the equalized layout. */
  lemma {:induction false} NormalizedComesBackEqualized(n: Node)
    ensures ToLayout(Normalized(FromLayout(n))) == Equalize(n)
  {
    if n.Split? {
      NormalizedComesBackEqualized(n.first);
      NormalizedComesBackEqualized(n.second);
    }
  }

  /** Only dividers may change on the way. */
  lemma {:induction false} OnlyDividersChange(n: Node)
    ensures Equalize(ToLayout(FromLayout(n))) == Equalize(n) && Equalize(Equalize(n)) == Equalize(n)
  {
    if n.Split? {
      OnlyDividersChange(n.first);
      OnlyDividersChange(n.second);
    }
  }

  /** Whatever a file holds, the layout read has its dividers in range, and reads back the same from then on. */
  lemma {:induction false} AnySnapshotIsRepaired(s: LayoutSnapshot)
    ensures DividersInRange(ToLayout(s)) && ToLayout(FromLayout(ToLayout(s))) == ToLayout(s)
  {
    if s.SplitSnapshot? {
      AnySnapshotIsRepaired(s.first);
      AnySnapshotIsRepaired(s.second);
    }
  }

  /** The part of a snapshot at the end of a way down. */
  ghost function PartAt(s: LayoutSnapshot, p: Path): Option<LayoutSnapshot> {
    match p
    case Here => Some(s)
    case InFirst(q) => if s.SplitSnapshot? then PartAt(s.first, q) else None
    case InSecond(q) => if s.SplitSnapshot? then PartAt(s.second, q) else None
  }

  /** Each pane and each split is saved where it stands, with its tabs and selection, orientation and divider. */
  lemma {:induction false} SavedInPlace(n: Node, p: Path)
    ensures IsPaneAt(n, p) ==> PartAt(FromLayout(n), p) == Some(PaneSnapshot(PaneAt(n, p).ids, PaneAt(n, p).selected))
    ensures IsSplitAt(n, p) ==>
              && PartAt(FromLayout(n), p).Some? && PartAt(FromLayout(n), p).value.SplitSnapshot?
              && PartAt(FromLayout(n), p).value.orientation == SplitAt(n, p).orientation
              && PartAt(FromLayout(n), p).value.divider == Finite(SplitAt(n, p).divider)
  {
    match p
    case Here =>
    case InFirst(q) => if n.Split? { SavedInPlace(n.first, q); }
    case InSecond(q) => if n.Split? { SavedInPlace(n.second, q); }
  }

  /** And it is read back there, a divider out of range being put to the nearer end of the range, and one that is no
      number in the middle. */
  lemma {:induction false} ReadInPlace(s: LayoutSnapshot, p: Path)
    ensures PartAt(s, p).Some? ==>
              match PartAt(s, p).value
              case PaneSnapshot(ids, selected) =>
                IsPaneAt(ToLayout(s), p) && PaneAt(ToLayout(s), p) == Pane(ids, selected)
              case SplitSnapshot(o, d, _, _) =>
                && IsSplitAt(ToLayout(s), p) && SplitAt(ToLayout(s), p).orientation == o
                && SplitAt(ToLayout(s), p).divider ==
                   match d
                   case NotFinite => 0.5
                   case Finite(v) => if v < 0.0 then 0.0 else if v > 1.0 then 1.0 else v
  {
    match p
    case Here =>
    case InFirst(q) => if s.SplitSnapshot? { ReadInPlace(s.first, q); }
    case InSecond(q) => if s.SplitSnapshot? { ReadInPlace(s.second, q); }
  }

  // ----- panels

  datatype PanelSnapshot = PanelSnapshot(id: Id, typeName: string, title: Option<string>, directory: Option<string>)

  function TypeName(t: PanelType): string {
    match t
    case Terminal => "terminal"
    case Browser => "browser"
    case Markdown => "markdown"
  }

  /** Names that are not known are terminals. */
  function TypeNamed(name: string): PanelType {
    if name == "browser" then Browser else if name == "markdown" then Markdown else Terminal
  }

  function FromPanel(p: Panel): PanelSnapshot {
    PanelSnapshot(p.id, TypeName(p.panelType), p.title, p.directory)
  }

  function ToPanel(s: PanelSnapshot): Panel {
    Panel(s.id, TypeNamed(s.typeName), s.title, s.directory)
  }

  lemma PanelComesBack(p: Panel)
    ensures ToPanel(FromPanel(p)) == p
    ensures FromPanel(p).id == p.id && FromPanel(p).title == p.title && FromPanel(p).directory == p.directory
  {
    match p.panelType
    case Terminal => assert TypeName(p.panelType)[0] == 't';
    case Browser =>
    case Markdown => assert TypeName(p.panelType)[0] == 'm';
  }

  /** The names that panel types have in a file; any other name is read as that of a terminal. */
  lemma NamesInFile(name: string)
    ensures TypeName(Terminal) == "terminal" && TypeName(Browser) == "browser" && TypeName(Markdown) == "markdown"
    ensures TypeNamed("browser") == Browser && TypeNamed("markdown") == Markdown
    ensures name != "browser" && name != "markdown" ==> TypeNamed(name) == Terminal
  {
    assert "markdown"[0] == 'm';
  }

  /** The panels inserted one after the other. */
  function PanelMap(panels: seq<PanelSnapshot>): map<Id, Panel> {
    if panels == [] then map[]
    else
      var p := ToPanel(panels[|panels| - 1]);
      PanelMap(panels[..|panels| - 1])[p.id := p]
  }

  ghost predicate Listed(panels: seq<PanelSnapshot>, id: Id) {
    exists i :: 0 <= i < |panels| && panels[i].id == id
  }

  /** A listing of a panel map, in whichever order. */
  ghost predicate Lists(panels: seq<PanelSnapshot>, m: map<Id, Panel>) {
    && (forall i | 0 <= i < |panels| :: panels[i].id in m && panels[i] == FromPanel(m[panels[i].id]))
    && (forall id | id in m :: Listed(panels, id))
  }

  lemma {:induction false} PanelMapPart(panels: seq<PanelSnapshot>, m: map<Id, Panel>)
    requires KeyedById(m)
    requires forall i | 0 <= i < |panels| :: panels[i].id in m && panels[i] == FromPanel(m[panels[i].id])
    ensures forall id | id in PanelMap(panels) :: id in m && PanelMap(panels)[id] == m[id]
    ensures forall i | 0 <= i < |panels| :: panels[i].id in PanelMap(panels)
  {
    if panels != [] {
      var n := |panels| - 1;
      var rest, last := panels[..n], panels[n];
      PanelMapPart(rest, m);
      assert forall i | 0 <= i < n :: panels[i].id == rest[i].id;
      PanelComesBack(m[last.id]);
      assert ToPanel(last) == m[last.id];
      assert PanelMap(panels) == PanelMap(rest)[last.id := m[last.id]];
    }
  }

  /** Listed in any order, the panels come back. */
  lemma PanelsComeBack(panels: seq<PanelSnapshot>, m: map<Id, Panel>)
    requires KeyedById(m) && Lists(panels, m)
    ensures PanelMap(panels) == m
  {
    PanelMapPart(panels, m);
  }

  method ListPanels(m: map<Id, Panel>) returns (panels: seq<PanelSnapshot>)
    requires KeyedById(m)
    ensures Lists(panels, m)
  {
    panels := [];
    var left := m.Keys;
    while left != {}
      invariant left <= m.Keys
      invariant forall i | 0 <= i < |panels| :: panels[i].id in m && panels[i] == FromPanel(m[panels[i].id])
      invariant forall x | x in m && x !in left :: Listed(panels, x)
      decreases |left|
    {
      var id :| id in left;
      ghost var before := panels;
      panels, left := panels + [FromPanel(m[id])], left - {id};
      assert panels[|before|].id == id;
      forall x | Listed(before, x) ensures Listed(panels, x) {
        var i :| 0 <= i < |before| && before[i].id == x;
        assert panels[i].id == x;
      }
    }
    assert left == {};
  }

  method CollectPanels(panels: seq<PanelSnapshot>) returns (m: map<Id, Panel>)
    ensures m == PanelMap(panels)
  {
    m := map[];
    for i := 0 to |panels|
      invariant m == PanelMap(panels[..i])
    {
      var p := ToPanel(panels[i]);
      m := m[p.id := p];
      assert panels[..i + 1][..i] == panels[..i];
    }
    assert panels[..|panels|] == panels;
  }

  // ----- workspaces

  datatype WorkspaceSnapshot = WorkspaceSnapshot(
    isPinned: bool,
    directory: string,
    focused: Option<Id>,
    layout: LayoutSnapshot,
    panels: seq<PanelSnapshot>)

  /** Some snapshot of `w`: the panels may be listed in any order. */
  ghost predicate IsSnapshot(s: WorkspaceSnapshot, w: Workspace, keepRatios: bool) {
    && s.isPinned == w.isPinned && s.directory == w.directory && s.focused == w.focused
    && s.layout == (if keepRatios then FromLayout(w.layout) else Normalized(FromLayout(w.layout)))
    && Lists(s.panels, w.panels)
  }

  function RestoreWorkspace(s: WorkspaceSnapshot, id: Id, window: Id): Workspace {
    Workspace(id, s.isPinned, Some(window), s.directory, s.focused, None, None, ToLayout(s.layout), PanelMap(s.panels))
  }

  /** What survives a save and a restore: everything but the identity, the window, and the marks on other panels. */
  ghost predicate ComesBackAs(w: Workspace, back: Workspace, keepRatios: bool) {
    && back.isPinned == w.isPinned && back.directory == w.directory && back.focused == w.focused
    && back.panels == w.panels && back.previous == None && back.zoomed == None
    && Equalize(back.layout) == Equalize(w.layout)
    && (keepRatios && DividersInRange(w.layout) ==> back.layout == w.layout)
    && (!keepRatios ==> back.layout == Equalize(w.layout))
  }

  lemma WorkspaceComesBack(s: WorkspaceSnapshot, w: Workspace, keepRatios: bool, id: Id, window: Id)
    requires IsSnapshot(s, w, keepRatios) && KeyedById(w.panels)
    ensures ComesBackAs(w, RestoreWorkspace(s, id, window), keepRatios)
    ensures RestoreWorkspace(s, id, window).id == id && RestoreWorkspace(s, id, window).windowId == Some(window)
    ensures s.panels == [] <==> w.panels == map[]
  {
    PanelsComeBack(s.panels, w.panels);
    LayoutComesBack(w.layout);
    OnlyDividersChange(w.layout);
    NormalizedComesBackEqualized(w.layout);
    if s.panels != [] {
      assert s.panels[0].id in w.panels;
    }
    if w.panels != map[] {
      var i :| i in w.panels;
      assert Listed(s.panels, i);
    }
  }
}
