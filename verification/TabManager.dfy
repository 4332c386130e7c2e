/**
 The ordered list of workspaces and the selected index, as a value, with every step
 that changes them. TabManagerHeap.dfy performs the steps on shared objects.
 */
module ManagerModel {
  import opened Common
  import opened Layout
  import opened Retiling
  import opened Tabs
  import opened WorkspaceModel

  datatype Manager = Manager(workspaces: seq<Workspace>, selected: Option<nat>)

  datatype Placement = End | AfterCurrent | Top

  const EMPTY := Manager([], None)

  /** The first workspace with the given id. */
  function IndexOfId(ws: seq<Workspace>, id: Id): (k: Option<nat>)
    ensures k.Some? ==> k.value < |ws| && ws[k.value].id == id && forall i | 0 <= i < k.value :: ws[i].id != id
    ensures k.None? ==> forall i | 0 <= i < |ws| :: ws[i].id != id
  {
    if ws == [] then None
    else if ws[0].id == id then Some(0)
    else match IndexOfId(ws[1..], id)
         case None => None
         case Some(k) => Some(k + 1)
  }

  /** The first workspace that holds the panel. */
  function IndexWithPanel(ws: seq<Workspace>, panelId: Id): (k: Option<nat>)
    ensures k.Some? ==> k.value < |ws| && panelId in ws[k.value].panels &&
                        forall i | 0 <= i < k.value :: panelId !in ws[i].panels
    ensures k.None? ==> forall i | 0 <= i < |ws| :: panelId !in ws[i].panels
  {
    if ws == [] then None
    else if panelId in ws[0].panels then Some(0)
    else match IndexWithPanel(ws[1..], panelId)
         case None => None
         case Some(k) => Some(k + 1)
  }

  function SelectedId(m: Manager): Option<Id> {
    if m.selected.Some? && m.selected.value < |m.workspaces| then Some(m.workspaces[m.selected.value].id) else None
  }

  // ----- the list

  function Place(m: Manager, w: Workspace, p: Placement): Manager
    requires m.selected.Some? ==> m.selected.value < |m.workspaces|
  {
    var at := match p
      case End => |m.workspaces|
      case AfterCurrent => if m.selected.Some? then m.selected.value + 1 else 0
      case Top => 0;
    Manager(InsertAt(m.workspaces, at, w), Some(at))
  }

  function RemoveIndex(m: Manager, index: nat): Manager {
    if index >= |m.workspaces| then m
    else
      var rest := RemoveAt(m.workspaces, index);
      Manager(rest,
        if rest == [] then None
        else match m.selected
          case None => None
          case Some(sel) =>
            if sel >= |rest| then Some(|rest| - 1) else if sel > index then Some(sel - 1) else Some(sel))
  }

  function RemoveById(m: Manager, id: Id): Manager {
    match IndexOfId(m.workspaces, id)
    case None => m
    case Some(i) => RemoveIndex(m, i)
  }

  function MoveWorkspace(m: Manager, from: nat, to: nat): Manager {
    if from >= |m.workspaces| || to >= |m.workspaces| || from == to then m
    else
      Manager(InsertAt(RemoveAt(m.workspaces, from), to, m.workspaces[from]),
        match m.selected
        case None => None
        case Some(sel) =>
          if sel == from then Some(to)
          else if from < to && sel > from && sel <= to then Some(sel - 1)
          else if from > to && sel >= to && sel < from then Some(sel + 1)
          else Some(sel))
  }

  function SelectFound(m: Manager, ws: seq<Workspace>, id: Id): Manager {
    Manager(ws,
      match IndexOfId(ws, id)
      case Some(i) => Some(i)
      case None => if ws == [] then None else Some(0))
  }

  function CloseOthers(m: Manager, id: Id): Manager {
    SelectFound(m, Filter(m.workspaces, (w: Workspace) => w.id == id || w.isPinned), id)
  }

  function Pinned(ws: seq<Workspace>): seq<Workspace> {
    Filter(ws, (w: Workspace) => w.isPinned)
  }

  function CloseAbove(m: Manager, id: Id): Manager {
    match IndexOfId(m.workspaces, id)
    case None => m
    case Some(i) =>
      var ws := Pinned(m.workspaces[..i]) + m.workspaces[i..];
      match IndexOfId(ws, id)
      case None => m.(workspaces := ws)
      case Some(k) => Manager(ws, Some(k))
  }

  function CloseBelow(m: Manager, id: Id): Manager {
    match IndexOfId(m.workspaces, id)
    case None => m
    case Some(i) =>
      var ws := m.workspaces[..i + 1] + Pinned(m.workspaces[i + 1..]);
      Manager(ws,
        if m.selected.Some? && m.selected.value >= |ws| then Some(if |ws| == 0 then 0 else |ws| - 1) else m.selected)
  }

  /** The list without the unpinned workspaces from `lo` up to `hi`. */
  function DroppedBetween(ws: seq<Workspace>, lo: nat, hi: nat): seq<Workspace>
    requires lo <= hi <= |ws|
  {
    ws[..lo] + Pinned(ws[lo..hi]) + ws[hi..]
  }

  lemma CloseAboveInSteps(m: Manager, id: Id, i: nat)
    requires IndexOfId(m.workspaces, id) == Some(i)
    ensures
      var v := m.(workspaces := DroppedBetween(m.workspaces, 0, i));
      CloseAbove(m, id) ==
        match IndexOfId(v.workspaces, id)
        case None => v
        case Some(k) => v.(selected := Some(k))
  {
    var ws := m.workspaces;
    assert ws[0..i] == ws[..i];
    assert ws[..0] + Pinned(ws[..i]) + ws[i..] == Pinned(ws[..i]) + ws[i..];
  }

  /** The selection brought back into the list. */
  function Clamped(m: Manager): Manager {
    if m.selected.Some? && m.selected.value >= |m.workspaces|
    then m.(selected := Some(if |m.workspaces| == 0 then 0 else |m.workspaces| - 1))
    else m
  }

  lemma CloseBelowInSteps(m: Manager, id: Id, i: nat)
    requires IndexOfId(m.workspaces, id) == Some(i)
    ensures CloseBelow(m, id) == Clamped(m.(workspaces := DroppedBetween(m.workspaces, i + 1, |m.workspaces|)))
  {
    var ws := m.workspaces;
    assert ws[i + 1..|ws|] == ws[i + 1..] && ws[|ws|..] == [];
    assert ws[..i + 1] + Pinned(ws[i + 1..]) + [] == ws[..i + 1] + Pinned(ws[i + 1..]);
  }

  function SelectIndex(m: Manager, index: nat): Manager {
    if index < |m.workspaces| then m.(selected := Some(index)) else m
  }

  function SelectNext(m: Manager, wrap: bool): Manager {
    if m.workspaces == [] then m
    else match m.selected
      case None => m.(selected := Some(0))
      case Some(i) =>
        if i + 1 < |m.workspaces| then m.(selected := Some(i + 1))
        else if wrap then m.(selected := Some(0)) else m
  }

  function SelectPrevious(m: Manager, wrap: bool): Manager {
    if m.workspaces == [] then m
    else match m.selected
      case None => m.(selected := Some(|m.workspaces| - 1))
      case Some(i) =>
        if i > 0 then m.(selected := Some(i - 1))
        else if wrap then m.(selected := Some(|m.workspaces| - 1)) else m
  }

  // ----- steps inside one workspace

  datatype WorkspaceStep =
    | SplitFocused(o: Orientation, panelType: PanelType, newId: Id)
    | InsertPanel(panel: Panel, o: Orientation)
    | NewTab(target: Id, panel: Panel)
    | NewSurface(panel: Panel)
    | NewMarkdown(panel: Panel, split: Option<Orientation>)
    | RemoveOne(id: Id)
    | DetachOne(id: Id)
    | Focus(id: Id)
    | Drag(id: Id, d: Direction)
    | CloseFocused
    | CloseTabsBesideFocused
    | Rearrange(r: Retile)

  function Within(w: Workspace, s: WorkspaceStep): Workspace {
    match s
    case SplitFocused(o, t, newId) => AddPanel(w, NewPanel(newId, t), o)
    case InsertPanel(panel, o) => AddPanel(w, panel, o)
    case NewTab(target, panel) => AddTab(w, target, panel)
    case NewSurface(panel) => AddSurface(w, panel)
    case NewMarkdown(panel, split) => AddMarkdown(w, panel, split)
    case RemoveOne(id) => RemovePanel(w, id)
    case DetachOne(id) => DetachPanel(w, id)
    case Focus(id) => FocusPanel(w, id)
    case Drag(id, d) => DragToSplit(w, id, d)
    case CloseFocused => if w.focused.Some? then RemovePanel(w, w.focused.value) else w
    case CloseTabsBesideFocused => CloseOtherTabs(w)
    case Rearrange(r) =>
      if r.SwapPanels? && (r.x !in w.panels || r.y !in w.panels) then w
      else w.(layout := Retiled(w.layout, r))
  }

  /** The id of the panel that a step brings. */
  function Newcomer(s: WorkspaceStep): Option<Id> {
    match s
    case SplitFocused(_, _, newId) => Some(newId)
    case InsertPanel(panel, _) => Some(panel.id)
    case NewTab(_, panel) => Some(panel.id)
    case NewSurface(panel) => Some(panel.id)
    case NewMarkdown(panel, _) => Some(panel.id)
    case _ => None
  }

  /** The step finds a pane for the panel it brings: a tab's target is there, and a document's workspace has a panel. */
  predicate FindsPane(w: Workspace, s: WorkspaceStep) {
    match s
    case NewTab(target, _) => target in w.panels
    case NewMarkdown(_, _) => w.panels != map[]
    case _ => true
  }

  // ----- steps across workspaces

  /** The panel leaves its workspace, and the workspace leaves the list if that was its last panel. */
  function Detached(m: Manager, i: nat, panelId: Id): Manager
    requires i < |m.workspaces|
  {
    var left := DetachPanel(m.workspaces[i], panelId);
    var detached := m.(workspaces := m.workspaces[i := left]);
    if left.panels == map[] then RemoveById(detached, left.id) else detached
  }

  lemma DetachedInSteps(m: Manager, i: nat, panelId: Id)
    requires i < |m.workspaces|
    ensures
      var v := m.(workspaces := m.workspaces[i := Within(m.workspaces[i], DetachOne(panelId))]);
      Detached(m, i, panelId) ==
        if v.workspaces[i].panels == map[] then RemoveById(v, m.workspaces[i].id) else v
  {
  }

  /** The panel joins the target workspace, if that is there. */
  function Given(m: Manager, panel: Panel, target: Id): (Manager, Option<Id>) {
    match IndexOfId(m.workspaces, target)
    case None => (m, None)
    case Some(t) =>
      (m.(workspaces := m.workspaces[t := AddPanel(m.workspaces[t], panel, Horizontal)]), Some(target))
  }

  /** Where to take the panel from, if the move is to go ahead. */
  function MoveSource(m: Manager, panelId: Id, target: Id): (k: Option<nat>)
    ensures k.Some? ==> k.value < |m.workspaces| && panelId in m.workspaces[k.value].panels
  {
    match IndexWithPanel(m.workspaces, panelId)
    case None => None
    case Some(i) =>
      var source := m.workspaces[i].id;
      if source == target || IndexOfId(m.workspaces, target).None? then None
      else match IndexOfId(m.workspaces, source)
        case None => None
        case Some(k) => if panelId in m.workspaces[k].panels then Some(k) else None
  }

  /** The manager after the call, and what the call returned. */
  function MovePanel(m: Manager, panelId: Id, target: Id): (Manager, Option<Id>) {
    match MoveSource(m, panelId, target)
    case None => (m, None)
    case Some(k) => Given(Detached(m, k, panelId), m.workspaces[k].panels[panelId], target)
  }

  /** Moves the focused panel of the selected workspace, if it has company, to a workspace of its own. */
  function BreakPane(m: Manager, newId: Id): Manager {
    if SelectedId(m).None? then m
    else
      var i := m.selected.value;
      var w := m.workspaces[i];
      if w.focused.None? || |w.panels| <= 1 || w.focused.value !in w.panels then m
      else
        var kept := Detached(m, i, w.focused.value);
        Manager(kept.workspaces + [Alone(newId, w.focused.value, w.panels[w.focused.value], w.directory)],
                Some(|kept.workspaces|))
  }

  /** A new workspace stripped of the panel it was created with and given another. */
  function Alone(newId: Id, panelId: Id, panel: Panel, directory: string): Workspace {
    Holding(newId, panel, directory)
      .(layout := SinglePane(panelId), panels := map[panelId := panel], focused := Some(panelId))
  }

  /** Closes a panel wherever it is; the workspace stays even when that empties it. */
  function ClosePanel(m: Manager, panelId: Id): Manager {
    match IndexWithPanel(m.workspaces, panelId)
    case None => m
    case Some(i) => m.(workspaces := m.workspaces[i := RemovePanel(m.workspaces[i], panelId)])
  }

  lemma ClosePanelInSteps(m: Manager, panelId: Id)
    ensures ClosePanel(m, panelId) ==
              match IndexWithPanel(m.workspaces, panelId)
              case None => m
              case Some(i) => m.(workspaces := m.workspaces[i := Within(m.workspaces[i], RemoveOne(panelId))])
  {
  }

  // ----- steps

  datatype Step =
    | NewWorkspace(id: Id, panel: Panel, directory: string, at: Placement)
    | RemoveWorkspace(index: nat)
    | MoveTo(from: nat, to: nat)
    | KeepOnly(id: Id)
    | DropAbove(id: Id)
    | DropBelow(id: Id)
    | Select(index: nat)
    | Next(wrap: bool)
    | Previous(wrap: bool)
    | InWorkspace(index: nat, step: WorkspaceStep)
    | SendPanel(panelId: Id, target: Id)
    | BreakOut(newId: Id)
    | Close(panelId: Id)

  ghost predicate FreshPanel(m: Manager, id: Id) {
    forall w | w in m.workspaces :: id !in w.panels
  }

  ghost predicate FreshWorkspace(m: Manager, id: Id) {
    forall w | w in m.workspaces :: w.id != id
  }

  /** Ids drawn by a step are new, the workspace it works on exists, and there is a pane for the panel it brings. */
  ghost predicate Enabled(m: Manager, s: Step) {
    match s
    case NewWorkspace(id, panel, _, _) => FreshWorkspace(m, id) && FreshPanel(m, panel.id)
    case BreakOut(newId) => FreshWorkspace(m, newId)
    case InWorkspace(index, step) =>
      && index < |m.workspaces| && FindsPane(m.workspaces[index], step)
      && (Newcomer(step).Some? ==> FreshPanel(m, Newcomer(step).value))
    case _ => true
  }

  function Do(m: Manager, s: Step): Manager
    requires m.selected.Some? ==> m.selected.value < |m.workspaces|
    requires s.InWorkspace? ==> s.index < |m.workspaces|
  {
    match s
    case NewWorkspace(id, panel, directory, at) => Place(m, Holding(id, panel, directory), at)
    case RemoveWorkspace(index) => RemoveIndex(m, index)
    case MoveTo(from, to) => MoveWorkspace(m, from, to)
    case KeepOnly(id) => CloseOthers(m, id)
    case DropAbove(id) => CloseAbove(m, id)
    case DropBelow(id) => CloseBelow(m, id)
    case Select(index) => SelectIndex(m, index)
    case Next(wrap) => SelectNext(m, wrap)
    case Previous(wrap) => SelectPrevious(m, wrap)
    case InWorkspace(index, step) => m.(workspaces := m.workspaces[index := Within(m.workspaces[index], step)])
    case SendPanel(panelId, target) => MovePanel(m, panelId, target).0
    case BreakOut(newId) => BreakPane(m, newId)
    case Close(panelId) => ClosePanel(m, panelId)
  }
}
