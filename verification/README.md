# cmux-gtk, verified

A Dafny model of the parts of cmux-gtk whose correctness is hardest to see: the split-layout tree and the workspaces
built on it, the byte-stream protocols of the proxy and of the socket server, the RPC client and the wakeup flag under
every interleaving, session save and restore, scrollback truncation, and two small text machines. Every statement
below is proved by `dafny verify dfyconfig.toml`.

How the files hang together:

- **Layout and workspaces.** `Layout.dfy`, `Workspace.dfy`, `Tabs.dfy` and `TabManager.dfy` give each operation as a
  function on values; `LayoutLaws.dfy`, `Geometry.dfy`, `Facing.dfy`, `Retiling.dfy`, `TabManagerLaws.dfy` and
  `ManagerRuns.dfy` prove what the operations are for. `Places.dfy` and `Placing.dfy` say where in the tree each of them
  acts, and that it leaves the rest alone. `LayoutHeap.dfy`, `WorkspaceHeap.dfy` and `TabManagerHeap.dfy` perform them
  on objects updated in place (tree nodes overwritten by a child or by a split, a shared list of workspaces with
  reverse-order deletions), and each method's contract is that the object's value becomes the function's result.
- **Byte streams.** `Streams.dfy` is a connection whose reads return arbitrary non-empty pieces. `Socks.dfy`,
  `HttpConnect.dfy`, `Relay.dfy` and `Proxy.dfy` are the proxy, `Delivery.dfy` joins it to the subscriptions of the
  RPC client; `Framing.dfy` is the socket server's line reader.
- **Step systems.** `Rpc.dfy` and `Wakeup.dfy` list the atomic steps of the concurrent parts; runs interleave them
  freely. `RpcHeap.dfy` performs the steps on the state the threads share; `Subscribing.dfy` says what a subscriber
  misses.
- **Sessions.** `Snapshot.dfy` says what is saved and what comes back, `SnapshotHeap.dfy` normalises a boxed layout
  snapshot in place, `Session.dfy` groups and restores, `SessionLaws.dfy` proves what that does, `Dividers.dfy`
  follows dividers through runs and restarts, and `Scrollback.dfy` is the truncation.
- **Text machines.** `Jsonc.dfy`, `Args.dfy`, with `Text.dfy` for white space and numbers.

Identifiers are natural numbers with equality (and, for windows in a saved session, the order of the window map); a
fresh UUID is an id that nothing in the state has yet. Dividers are reals.

Where the code falls short of a tempting claim, the claim is proved under its exact condition:

- A SOCKS5 request is understood whatever reads it arrives in, unless the first read ends after one byte, or a read
  ends right before a domain's length byte (the byte is indexed before it has arrived). `Socks.ChunkingMatters` is an
  equivalence; `Socks.FirstByteAlone` and `Socks.LengthByteLate` are two such divisions. End of stream in the middle
  of an address makes the address loops spin; that is an outcome of the model.
- An HTTP CONNECT request is understood whatever reads it arrives in, unless the first read is shorter than the method
  name and the space after it, or a read stops past 65536 bytes inside the header. `Proxy.DivisionDecides` is an
  equivalence for any two divisions of a stream; `Proxy.MethodInTwoReads` and `Proxy.DivisionThatMatters` are
  divisions that fail.
- Removing a panel undoes inserting it exactly when the pane beside it is not dropped by the collapse
  (`LayoutLaws.RemoveUndoesInsert`); with no empty pane that always holds, and with one it may fail
  (`LayoutLaws.RemovalMayDropAnEmptyPane`).
- Adding a panel to an emptied workspace, which the program keeps alive, leaves an empty pane beside the new one
  (`WorkspaceModel.AddPanelKeepsConsistent`). The markdown handler puts a panel added to such a workspace into no pane
  at all, though it focuses it: it keeps map and tree in agreement exactly when the workspace holds a panel
  (`Tabs.AddMarkdownKeepsConsistent`). Runs of the manager take a step that brings a panel only where it finds a pane;
  `ManagerRuns.WithinKeepsConsistent` shows that this restriction is needed and is the only one.
- `remove_panel` leaves the previous focus and the zoom mark dangling exactly when they were on that panel
  (`WorkspaceModel.RemovalMayLeaveMarks`).
- `close_below` keeps the selection on its workspace exactly under the condition of `ManagerLaws.CloseBelowDrift`;
  `ManagerLaws.SelectionMayDrift` is a selection that moves.
- Directional navigation lands on a pane flush with the edge crossed, which need not be across from the pane it
  started from (`Geometry.NeighborMayMissTheFacingPane`). It is exactly when the pane it started from begins before
  the one found ends (`Facing.FacesExactlyWhenBeyond`); and it is wherever the dividers are exactly for the shapes of
  `Facing.FacesForAllDividersExactly`: at the split that decides, the way down to the pane keeps to the edge where the
  search on the other side begins, or that search meets no split across the direction.
- The wakeup flag stands for exactly one outstanding callback until the shutdown clears it under one, and only until
  then (`Wakeup.FlagIsExactUnlessShutdownFindsItSet`, with the run `Wakeup.ShutdownUnderCallback`). Callbacks that
  look at the app pointer after it was nulled, and only those, skip their tick (`Wakeup.SkipsExactlyAfterNulling`).
- An RPC call can lose its table entry to another one, but only to one with the same id; ids repeat after 2^64 draws.
  `Rpc.EntriesAreKeptUnlessDisplaced` says exactly when entries stay, `Rpc.FreeDrawsLoseNothing` that they do as long
  as no id is drawn that an open call holds, and `Rpc.SharedIdLosesEntry` is a run where one is lost.
- A push that is handled after a subscription was acknowledged and before it entered the table is never sent to the
  subscriber. It misses nothing else, so it sees all pushes since the acknowledgement exactly when there is none in
  between (`Subscribing.MissesPushesBeforeInsertion`, with the run `Subscribing.PushBeforeInsertionIsMissed`).
- A control sequence that the scrollback cut would split is kept whole exactly when it began among the 32 bytes looked
  back on (`Scrollback.SplitSequenceIsKept`); `Scrollback.LongSequenceIsSplit` is a longer one.
- The final slice of the scrollback truncation panics exactly under the condition of `Scrollback.PanicsExactlyWhen`;
  `Scrollback.UnluckyTextPanics` is such a text.

## Model

| member | source | states |
|---|---|---|
| `LayoutLaws.RemoveDeletesOneId` | cmux/src/model/panel.rs:284-313 | removing a panel deletes exactly that id from the ordered list of all ids of the tree |
| `LayoutLaws.RemoveKeepsSelections` | cmux/src/model/panel.rs:284-313 | every pane's selected tab is still one of its tabs after a removal |
| `LayoutLaws.RemoveKeepsPanesFilled` | cmux/src/model/panel.rs:284-313 | a removal leaves no empty pane, except that of the last panel, where an empty root pane is left |
| `LayoutLaws.RemoveLeavesOtherPanes` | cmux/src/model/panel.rs:284-313 | the panes after a removal are the panes before, in order, with the id gone from its own, which shows what it showed or its first tab, and that pane gone if emptied |
| `LayoutLaws.InsertAddsOneId` | cmux/src/model/panel.rs:580-627 | splitting a pane adds the new id once and loses none |
| `LayoutLaws.InsertThenDropId` | cmux/src/model/panel.rs:580-627 | splitting keeps the order of the ids that were there |
| `LayoutLaws.InsertKeepsPanesFilled` | cmux/src/model/panel.rs:580-627 | splitting empties no pane and hides no selection |
| `LayoutLaws.InsertKeepsDistinct` | cmux/src/model/panel.rs:580-627 | splitting with a fresh id keeps ids distinct |
| `LayoutLaws.RemoveUndoesInsert` | cmux/src/model/panel.rs:284-313 | inserting a fresh panel beside a target, on either side, and removing it gives back the identical tree if and only if the collapse drops no empty pane around the target |
| `LayoutLaws.NoEmptyPaneIsFilledBeside` | cmux/src/model/panel.rs:284-313 | the condition of the inverse law holds in every tree without empty panes |
| `LayoutLaws.RemovalMayDropAnEmptyPane` | cmux/src/model/panel.rs:284-313 | in a split of an empty pane and another, inserting a panel beside the other and removing it drops the empty pane |
| `LayoutLaws.AtMostOneTarget` | cmux/src/model/panel.rs:316-347 | with distinct ids and no empty pane, two splits never have the same pair of child panel sets |
| `LayoutLaws.HasTargetMeansTargetAt` | cmux/src/model/panel.rs:316-347 | the divider call succeeds if and only if a split with that pair of panel sets exists somewhere in the tree |
| `LayoutLaws.SetDividerMovesOnlyTheTarget` | cmux/src/model/panel.rs:316-347 | the divider call sets the divider of the matching split, clamped to [0, 1], and changes nothing else |
| `LayoutLaws.NoTargetNoChange` | cmux/src/model/panel.rs:316-347 | without a matching split the tree is unchanged |
| `LayoutLaws.WithDividerTouchesNothingElse` | cmux/src/model/panel.rs:316-347 | replacing the divider at one path leaves every pane, orientation and other divider as it was |
| `LayoutLaws.EqualizeKeepsPanes` | cmux/src/model/panel.rs:631-647 | equalizing keeps panes, ids and selections, and is idempotent |
| `Places.SelectedAt` | cmux/src/model/panel.rs:263-280 | selecting a panel changes what its pane shows, and no other pane, split or divider |
| `Places.TabAddedAt` | cmux/src/model/panel.rs:559-577 | a tab is put right after its target and shown, in the one pane that holds the target |
| `Places.InsertedAt` | cmux/src/model/panel.rs:580-627 | the target's pane, tabs and selection as they were, becomes one side of a split at its place, a pane with the new panel alone the other |
| `Places.ReorderedAt` | cmux/src/model/panel.rs:544-555 | the tab leaves its place among the tabs of its pane and is put back at the index asked for, or last; the pane shows what it showed |
| `Places.RemovedAt` | cmux/src/model/panel.rs:284-313 | a removal takes the tab out of its pane, or a pane left without tabs out of the tree, its neighbor taking the place of the split above; nothing else changes |
| `Places.RemoveKeepsShown` | cmux/src/model/panel.rs:284-313 | after a removal every other panel has the pane it had, less the panel removed, and that pane shows what it showed, or its first tab if it showed the panel removed |
| `Places.WithNodeTouchesNothingElse` | cmux/src/model/panel.rs:580-627 | what happens at one pane leaves every other pane, and every split with its orientation and divider, where it was |
| `Places.SwappedAt` | cmux/src/model/panel.rs:400-438 | swapping exchanges the two panels place by place in every pane and in what it shows, and leaves every split as it was |
| `Places.EqualizedAt` | cmux/src/model/panel.rs:631-647 | equalizing puts every divider in the middle and leaves every pane and orientation |
| `Places.UnevenMeansOffCentre` | cmux/src/model/panel.rs:631-647 | a change is reported if and only if some divider is off the middle by more than the tolerance |
| `Places.ClampIsNearest` | cmux/src/model/panel.rs:316-379 | a clamped divider is the number in range nearest to the one asked for |
| `Geometry.RegionsCover` | cmux/src/model/panel.rs:486-540 | read as a subdivision of a rectangle, every point of it lies in the region of some panel |
| `Geometry.RegionsDisjoint` | cmux/src/model/panel.rs:486-540 | two panels whose regions share a point share their pane |
| `Geometry.CornerPanels` | cmux/src/model/panel.rs:486-540 | the first panel of a tree is flush with its top left corner, the last with its bottom right one |
| `Geometry.NeighborIsAcrossTheEdge` | cmux/src/model/panel.rs:486-540 | navigation finds nothing if and only if the pane touches the outer edge in that direction; otherwise the pane found is flush with the edge crossed, on its other side |
| `Geometry.NeighborMayMissTheFacingPane` | cmux/src/model/panel.rs:486-540 | a concrete tree where the pane found is flush with the edge but not face to face |
| `Facing.FacesExactlyWhenBeyond` | cmux/src/model/panel.rs:486-540 | for all four directions, the pane found shares a stretch of the cross axis with the one left if and only if the pane left begins before the one found ends; at the other edge the two are always lined up or overlap |
| `Facing.FacesForAllDividersExactly` | cmux/src/model/panel.rs:486-540 | navigation lands on a facing pane whatever the dividers if and only if, at the deciding split, the way down to the pane takes the leading (right, down) or trailing (left, up) side at every cross-axis split, or the way to the corner panel meets none |
| `Facing.ShapeMakesItFace` | cmux/src/model/panel.rs:486-540 | with such a shape the pane found faces the one left |
| `Facing.OtherShapesMayMiss` | cmux/src/model/panel.rs:486-540 | for any other shape, dividers exist in the same tree for which it does not |
| `Facing.NeighborIsEndTab` | cmux/src/model/panel.rs:486-540 | of the pane it lands on, navigation names the first tab going right or down, and the last going left or up |
| `Geometry.InsertedIsNeighbor` | cmux/src/model/panel.rs:580-627 | after a split towards a direction, navigating from the target that way finds exactly the new panel |
| `Geometry.InsertedSitsAlone` | cmux/src/model/panel.rs:580-627 | the new panel has a pane of its own |
| `Geometry.InsertionHalvesTheRegion` | cmux/src/model/panel.rs:580-627 | a split gives the new panel one half of the target's rectangle, on the side asked for, and leaves the target the other |
| `Geometry.InsertionLeavesOtherRegions` | cmux/src/model/panel.rs:580-627 | a split leaves the rectangle of every other pane as it was; the target's tabs go along with it |
| `Retiling.ResizeMovesOneDivider` | cmux/src/model/panel.rs:352-379 | resizing moves the divider of the innermost split around the panel, in the direction that grows its pane, kept inside [0.05, 0.95], and nothing else |
| `Retiling.ReorderKeepsPanels` | cmux/src/model/panel.rs:544-555 | reordering a tab loses and doubles no panel, hides no selection and empties no pane |
| `Retiling.ReorderPutsTabThere` | cmux/src/model/panel.rs:544-555 | the tab stands at the index asked for, or last, and the other tabs keep their order |
| `Retiling.TabIsAddedAfterTarget` | cmux/src/model/panel.rs:559-577 | a panel added to a pane is the tab right after its target and the one its pane shows, and removing it restores the list of ids |
| `Retiling.SwapExchangesIds` | cmux/src/model/panel.rs:400-438 | swapping exchanges the two ids in the ordered id list and in the selections |
| `Retiling.SwapTwice` | cmux/src/model/panel.rs:400-438 | swapping twice restores the tree |
| `Retiling.RetilingKeepsPanels` | cmux/src/socket/v2/pane.rs:240-268 | no rearrangement (equalize, divider, resize, reorder, guarded swap) adds, drops or repeats a panel |
| `WorkspaceModel.AddPanelKeepsConsistent` | cmux/src/model/workspace.rs:214-254 | splitting or inserting keeps tree, panel map, selections and focus in agreement, and keeps the tree free of empty panes if and only if the workspace was not empty |
| `WorkspaceModel.RemovePanelKeepsConsistent` | cmux/src/model/workspace.rs:257-269 | removing keeps the agreement, removes exactly that panel from the map, and leaves no empty pane in a split |
| `WorkspaceModel.DetachPanelKeepsConsistent` | cmux/src/model/workspace.rs:274-290 | the same for detaching |
| `WorkspaceModel.RemovalMayLeaveMarks` | cmux/src/model/workspace.rs:257-290 | removal leaves the previous focus or zoom mark dangling exactly when it was on the removed panel; detaching never does |
| `WorkspaceModel.CanDragMeansTwoPanels` | cmux/src/model/workspace.rs:332-350 | a drag succeeds if and only if the workspace holds the panel and another one |
| `WorkspaceModel.DragTargetSurvives` | cmux/src/model/workspace.rs:332-374 | removing the dragged panel leaves the target in the tree whatever splits collapse, so the tab fallback is never taken |
| `WorkspaceModel.DragMovesPanelBesideTarget` | cmux/src/model/workspace.rs:332-374 | after a drag the ids are a permutation, the panel is alone in a pane, and navigating from the target finds exactly it |
| `WorkspaceModel.DragKeepsConsistent` | cmux/src/model/workspace.rs:332-374 | a drag keeps the agreement and the panel map, and focuses the dragged panel |
| `WorkspaceModel.FocusKeepsConsistent` | cmux/src/model/workspace.rs:630-645 | focusing keeps the agreement, focuses any panel of the workspace, and has its pane show it |
| `WorkspaceModel.CloseOtherTabsKeepsConsistent` | cmux/src/ui/command_palette.rs:834-851 | closing the other tabs keeps focus and agreement, and leaves exactly the panels outside the focused pane and the focused one |
| `WorkspaceModel.RemoveUndoesAdd` | cmux/src/model/workspace.rs:214-269 | removing the panel just added restores tree and map; the focus goes to the first panel |
| `Placing.AddedBesideFocus` | cmux/src/model/workspace.rs:214-254 | a panel added enters the map and takes the focus; the focused pane, as it was, becomes the first side of a split at its place, the new panel's pane the second; nothing else changes |
| `Placing.AddedBesideAll` | cmux/src/model/workspace.rs:214-254 | without a focus the old tree becomes the first side of a split, the new panel the second |
| `Placing.AddedIsFoundFromFocus` | cmux/src/model/workspace.rs:214-254 | after a split the new panel is alone in its pane, navigating right or down from the focused one finds exactly it, and every other panel shares its pane with the tabs it did, the same one shown |
| `Placing.AddedHalvesFocusedRegion` | cmux/src/model/workspace.rs:214-254 | the new panel has the second half, along the orientation asked for, of the focused pane's old region; every other region is as it was |
| `Placing.FocusAfterRemoval` | cmux/src/model/workspace.rs:257-290 | the focus stays put when another panel goes, and else goes to the first panel left; detaching clears just the marks on that panel |
| `Placing.DraggedBeside` | cmux/src/model/workspace.rs:343-354 | the panel dragged goes beside the focused one, or, being that itself, beside the first other one in the tree |
| `Placing.DraggedAt` | cmux/src/model/workspace.rs:332-374 | a drag takes the panel out of the tree and splits the target's pane at its place, the panel alone on the side the direction points to; map and zoom mark stay |
| `Placing.FocusShowsPanel` | cmux/src/model/workspace.rs:630-645 | focusing changes what the panel's pane shows, the focus, and, if the focus moves, the previous focus, and nothing else |
| `Placing.OtherTabsAreClosed` | cmux/src/ui/command_palette.rs:834-851 | closing the other tabs leaves the focused panel alone and shown in its pane; panels of other panes keep pane and shown tab |
| `Tabs.AddTabKeepsConsistent` | cmux/src/socket/v2/tab.rs:106-112 | a tab added beside a given one keeps tree, map and focus in agreement if and only if that one is a panel of the workspace |
| `Tabs.AddSurfaceKeepsConsistent` | cmux/src/socket/v2/surface.rs:573-586 | a surface added by the handler always keeps the agreement, and leaves no empty pane even in an emptied workspace |
| `Tabs.AddMarkdownKeepsConsistent` | cmux/src/socket/v2/markdown.rs:41-70 | a markdown panel added by the handler, split or not, keeps the agreement if and only if the workspace holds a panel; otherwise the tree stays as it is |
| `Placing.TabbedAfterTarget` | cmux/src/socket/v2/tab.rs:106-112 | a tab added stands right after its target, is shown and focused, and nothing else in the workspace changes |
| `Placing.SurfaceIsTabAfterFocus` | cmux/src/socket/v2/surface.rs:573-586 | a surface is a tab after the focused one, or in an emptied workspace the only pane |
| `Placing.MarkdownIsSplitOrTab` | cmux/src/socket/v2/markdown.rs:41-70 | a markdown panel is a split of the focused pane if one is asked for, else a tab after the focused one |
| `ManagerLaws.RemoveKeepsSelection` | cmux/src/model/tab_manager.rs:171-189 | removing a workspace keeps the selected one selected unless it is the one removed, and keeps the selection valid |
| `ManagerLaws.MoveIsPermutation` | cmux/src/model/tab_manager.rs:249-270 | moving puts the workspace at the position asked for and keeps the others in order; an index out of range changes nothing |
| `ManagerLaws.MoveKeepsSelection` | cmux/src/model/tab_manager.rs:249-270 | the same workspace stays selected after a move |
| `ManagerLaws.MoveKeepsInvariant` | cmux/src/model/tab_manager.rs:249-270 | a move keeps the invariant of the manager |
| `ManagerLaws.PlaceSelectsNewcomer` | cmux/src/model/tab_manager.rs:130-168 | a new workspace is selected, stands where the placement says, and leaves the others as they were |
| `ManagerLaws.SelectPicks` | cmux/src/model/tab_manager.rs:65-72 | selecting picks the workspace at the index, and does nothing for an index out of range |
| `ManagerLaws.RemoveTakesOnlyThatOne` | cmux/src/model/tab_manager.rs:171-195 | removing takes the one workspace out of the list; if it was selected, the next one is, or the last |
| `ManagerLaws.CloseOthersKeepsNamedAndPinned` | cmux/src/model/tab_manager.rs:278-299 | what is left is exactly the named workspace and the pinned ones, and the named one is selected |
| `ManagerLaws.CloseAboveSelectsNamed` | cmux/src/model/tab_manager.rs:302-321 | only unpinned workspaces before the named one go, and the named one is selected |
| `ManagerLaws.CloseBelowKeepsInvariant` | cmux/src/model/tab_manager.rs:324-345 | closing below keeps the invariant, the selection in range included |
| `ManagerLaws.CloseOthersLeaves` | cmux/src/model/tab_manager.rs:278-299 | what is left is, in order, the workspaces named or pinned; if none is named, the first of them is selected |
| `ManagerLaws.CloseAboveLeaves` | cmux/src/model/tab_manager.rs:302-321 | what is left is, in order, the workspaces from the named one on and the pinned ones |
| `ManagerLaws.CloseBelowLeaves` | cmux/src/model/tab_manager.rs:324-345 | what is left is, in order, the workspaces up to the named one and the pinned ones; the selected index stays, or is the last |
| `ManagerLaws.CloseAroundNone` | cmux/src/model/tab_manager.rs:302-345 | closing above or below an unknown workspace does nothing |
| `ManagerLaws.CloseBelowDrift` | cmux/src/model/tab_manager.rs:324-345 | the same workspace stays selected if and only if it comes no later than the named one, or is pinned with either nothing unpinned between the two or nothing pinned after it |
| `ManagerLaws.SelectionMayDrift` | cmux/src/model/tab_manager.rs:324-345 | with the first of four workspaces named and the third, pinned one selected, closing the unpinned second leaves the fourth selected |
| `ManagerLaws.NextAndPreviousUndo` | cmux/src/model/tab_manager.rs:104-120 | stepping to the next and to the previous workspace, wrapping, undo each other and touch nothing but the selection |
| `ManagerLaws.NextsVisitAll` | cmux/src/model/tab_manager.rs:85-101 | stepping forward, wrapping, comes to every workspace and, after as many steps as there are workspaces, back to the start |
| `ManagerLaws.NextsGoAround` | cmux/src/model/tab_manager.rs:85-101 | any number of wrapping steps up to the length of the list leads that many places on around it |
| `ManagerLaws.StepsStopAtTheEnds` | cmux/src/model/tab_manager.rs:85-120 | without wrapping, a step stays put exactly at the end it leads to, and elsewhere the opposite step undoes it |
| `ManagerRuns.MovePanelIsAllOrNothing` | cmux/src/model/tab_manager.rs:369-403 | moving a panel between workspaces fails exactly when there is no source, no target or they coincide, and then changes nothing; no panel is lost or doubled over all workspaces |
| `ManagerRuns.MovedPanelArrives` | cmux/src/model/tab_manager.rs:369-403 | a moved panel is in the target, focused, and the source is dropped if and only if the panel was its last |
| `ManagerRuns.MovePanelKeepsSelection` | cmux/src/model/tab_manager.rs:369-403 | unless the selected workspace was emptied by the move it stays selected |
| `ManagerRuns.MoveChangesTwo` | cmux/src/model/tab_manager.rs:369-403 | a move detaches the panel from its workspace, adds it to the right of the focus of the target, drops an emptied source, and changes no other workspace |
| `ManagerRuns.MoveSelects` | cmux/src/model/tab_manager.rs:369-403 | the selected index after a move is the one before, or the one that removing the emptied source leaves |
| `ManagerRuns.CloseChangesHolder` | cmux/src/app.rs:182-198 | closing a panel changes the workspace that holds it, and no other |
| `ManagerRuns.BreakPaneBag` | cmux/src/ui/command_palette.rs:605-630 | breaking a pane out loses and doubles no panel over all workspaces |
| `ManagerRuns.BreakPaneMovesFocused` | cmux/src/ui/command_palette.rs:605-630 | breaking out happens exactly when the selected workspace holds several panels; the focused one moves alone to a new, selected workspace and the source is never dropped |
| `ManagerRuns.BreakPaneHalves` | cmux/src/ui/command_palette.rs:605-630 | breaking out detaches the focused panel and puts a workspace with it alone, in the same directory, last and selected; no other workspace changes |
| `ManagerRuns.WithinKeepsConsistent` | cmux/src/model/workspace.rs:214-374 | a step inside a workspace keeps its agreement of tree, map and focus if and only if it finds a pane for the panel it brings, if any |
| `ManagerRuns.StepKeepsInvariant` | cmux/src/model/tab_manager.rs:130-403 | every step of the manager that finds a pane for the panel it brings keeps the whole invariant: ids distinct, tree and map equal, focus valid, selections in panes, panel sets disjoint, selected index valid |
| `ManagerRuns.RunKeepsInvariant` | cmux/src/model/tab_manager.rs:130-403 | the invariant holds in every state of every run of these steps |
| `ManagerRuns.InitialStatesAreSound` | cmux/src/model/tab_manager.rs:18-33 | the two initial managers satisfy the invariant |
| `Dividers.RunKeepsRange` | cmux/src/model/tab_manager.rs:130-403 | dividers that start between 0 and 1 stay there in every state of every run |
| `Dividers.RestartGivesRange` | cmux/src/session/snapshot.rs:189-206 | after a restart from whatever file, every divider is in range |
| `Dividers.RatiosComeBack` | cmux/src/app.rs:748-885 | in every state of every run, a session saved with its ratios brings back each workspace with the identical layout, panels and focus, stably grouped by window |
| `LayoutHeap.LayoutNode.AllPanelIds` | cmux/src/model/panel.rs:219-228 | collecting ids over the heap tree gives the ids of its value |
| `LayoutHeap.LayoutNode.Empty` | cmux/src/model/panel.rs:682-687 | emptiness of the heap tree |
| `LayoutHeap.LayoutNode.PaneWithPanel` | cmux/src/model/panel.rs:247-260 | the ids of the pane holding a panel |
| `LayoutHeap.LayoutNode.SelectPanel` | cmux/src/model/panel.rs:263-280 | in-place selection refines the function on values |
| `LayoutHeap.LayoutNode.RemovePanel` | cmux/src/model/panel.rs:284-313 | in-place removal, a split overwritten by its remaining child, refines the function and reports whether the panel was there |
| `LayoutHeap.LayoutNode.SplitPaneWithPanel` | cmux/src/model/panel.rs:580-627 | in-place splitting, a pane overwritten by a split of itself, refines the function and reports whether the target was there |
| `LayoutHeap.LayoutNode.AddPanelToPane` | cmux/src/model/panel.rs:559-577 | in-place adding of a tab refines the function |
| `LayoutHeap.LayoutNode.ReorderPanelInPane` | cmux/src/model/panel.rs:544-555 | in-place reordering refines the function |
| `LayoutHeap.LayoutNode.SwapPanels` | cmux/src/model/panel.rs:400-438 | in-place swapping refines the function and reports whether either id was there |
| `LayoutHeap.LayoutNode.SetDividerPositionForSplit` | cmux/src/model/panel.rs:316-347 | in-place divider setting refines the function and returns true exactly when a split matches |
| `LayoutHeap.LayoutNode.ResizePanel` | cmux/src/model/panel.rs:352-379 | in-place resizing refines the function |
| `LayoutHeap.LayoutNode.EqualizeAll` | cmux/src/model/panel.rs:631-647 | in-place equalizing refines the function; the result says whether a divider was off by more than the tolerance |
| `WorkspaceHeap.Workspace.constructor` | cmux/src/model/workspace.rs:157-206 | a new workspace holds its first panel |
| `WorkspaceHeap.Workspace.InsertPanel` | cmux/src/model/workspace.rs:294-327 | in-place insertion has the value of the function |
| `WorkspaceHeap.Workspace.Split` | cmux/src/model/workspace.rs:214-254 | in-place splitting has the value of the function |
| `WorkspaceHeap.Workspace.RemovePanel` | cmux/src/model/workspace.rs:257-269 | in-place removal has the value of the function |
| `WorkspaceHeap.Workspace.DetachPanel` | cmux/src/model/workspace.rs:274-290 | in-place detaching has the value of the function and hands out the panel |
| `WorkspaceHeap.Workspace.DragToSplit` | cmux/src/model/workspace.rs:332-374 | in-place dragging has the value of the function and reports success |
| `WorkspaceHeap.Workspace.FocusPanel` | cmux/src/model/workspace.rs:631-645 | in-place focusing has the value of the function |
| `WorkspaceHeap.Workspace.CloseOtherTabs` | cmux/src/ui/command_palette.rs:834-851 | closing tabs one after another has the value of the function |
| `WorkspaceHeap.Workspace.AddTab` | cmux/src/socket/v2/tab.rs:106-112 | adding a tab in place has the value of the function and reports whether a pane took it |
| `WorkspaceHeap.Workspace.AddSurface` | cmux/src/socket/v2/surface.rs:573-586 | adding a surface in place, the tree replaced if no pane takes it, has the value of the function |
| `WorkspaceHeap.Workspace.AddMarkdown` | cmux/src/socket/v2/markdown.rs:41-70 | adding a markdown panel in place has the value of the function |
| `WorkspaceHeap.Workspace.Perform` | cmux/src/model/workspace.rs:214-374 | any of the steps inside a workspace, performed on the objects, has the value of the step on values |
| `TabManagerHeap.DeleteInReverse` | cmux/src/model/tab_manager.rs:278-321 | deleting the listed positions last to first leaves exactly the elements not listed, in order |
| `TabManagerHeap.TabManager.Place` | cmux/src/model/tab_manager.rs:130-168 | in-place insertion into the shared list has the value of the function |
| `TabManagerHeap.TabManager.Remove` | cmux/src/model/tab_manager.rs:171-189 | in-place removal has the value of the function and hands out the workspace |
| `TabManagerHeap.TabManager.RemoveById` | cmux/src/model/tab_manager.rs:192-195 | in-place removal by id has the value of the function |
| `TabManagerHeap.TabManager.MoveWorkspace` | cmux/src/model/tab_manager.rs:249-270 | in-place moving has the value of the function |
| `TabManagerHeap.TabManager.ClosePanel` | cmux/src/app.rs:182-198 | closing a panel wherever it is changes that workspace only, which stays even when emptied |
| `TabManagerHeap.TabManager.MovePanelToWorkspace` | cmux/src/model/tab_manager.rs:369-403 | moving a panel between shared workspace objects has the value and the result of the function |
| `TabManagerHeap.TabManager.BreakPane` | cmux/src/ui/command_palette.rs:605-630 | breaking a pane out into a new object has the value of the function |
| `TabManagerHeap.TabManager.Perform` | cmux/src/model/tab_manager.rs:85-403 | any step of the manager's runs, performed on the shared objects, has the value of the step, and only new objects join those owned |
| `TabManagerHeap.TabManager.CloseOthers` | cmux/src/model/tab_manager.rs:278-299 | the reverse-order deletion loop realises the filter and counts what it closed |
| `TabManagerHeap.TabManager.CloseAbove` | cmux/src/model/tab_manager.rs:302-321 | the same for the unpinned workspaces above, with their count |
| `TabManagerHeap.TabManager.CloseBelow` | cmux/src/model/tab_manager.rs:324-345 | the same for the unpinned workspaces below, with their count, and the selection clamped |
| `Streams.Connection.Fill` | cmux/src/remote/proxy.rs:160-168 | reading until enough bytes are buffered takes a prefix of the pieces, the shortest that suffices |
| `Socks.HandleSocks5` | cmux/src/remote/proxy.rs:146-285 | the handshake comes to the outcome told by the bytes and the read ends, with unread payload still to come, and writes back exactly the replies for it |
| `Socks.HandleRequest` | cmux/src/remote/proxy.rs:184-216 | the request part, of which some bytes came with the greeting |
| `Socks.ReadAddress` | cmux/src/remote/proxy.rs:201-250 | address and port in the three forms; end of stream makes the loops spin |
| `Socks.ChunkingMatters` | cmux/src/remote/proxy.rs:146-250 | the outcome is that of the bytes alone if and only if the first read has two bytes and no read of a domain request ends right before its length byte |
| `Socks.FirstByteAlone` | cmux/src/remote/proxy.rs:152-154 | a greeting read one byte first is refused as malformed, though its bytes in one read are accepted |
| `Socks.LengthByteLate` | cmux/src/remote/proxy.rs:218-227 | a read that ends right before the length byte of a domain request makes the handler index out of bounds |
| `Socks.EncodedIsConnect` | cmux/src/remote/proxy.rs:201-257 | a request laid out as in RFC 1928 section 4 followed by any payload is read as that host, port and payload |
| `Socks.WellDividedRequestIsUnderstood` | cmux/src/remote/proxy.rs:146-257 | a greeting, an encoded request and any payload, divided into reads within that condition, give the host, the port and the payload sent |
| `Socks.OnlyEncodedIsConnect` | cmux/src/remote/proxy.rs:184-257 | what is read as a connection is, reserved byte aside, the layout of that host and port as in RFC 1928 section 4, followed by that payload |
| `Socks.RefusedExactly` | cmux/src/remote/proxy.rs:184-212 | a request is refused for its command if and only if that is not connecting, and for its address type if and only if that is none of the three |
| `Socks.RepliesAsLaidOut` | cmux/src/remote/proxy.rs:146-285 | the bytes written back: the method selection once the greeting is in, then the refusal with its code, or nothing; and those that announce success |
| `HttpConnect.HandleConnect` | cmux/src/remote/proxy.rs:288-345 | the header loop comes to the outcome told by the bytes and the read ends, with unread payload still to come |
| `HttpConnect.ChunkingMatters` | cmux/src/remote/proxy.rs:294-304 | two divisions of the same bytes come to the same outcome of the header loop if and only if the bytes hold no whole header, or both have a read that stops past the limit inside it, or neither has; without such a read the outcome is that of the bytes |
| `HttpConnect.TargetIsUnderstood` | cmux/src/remote/proxy.rs:311-338 | a request line naming host and port is read back as sent, split at the last colon; a port of more than 16 bits is refused |
| `HttpConnect.TargetWithoutPort` | cmux/src/remote/proxy.rs:326-338 | without a colon the whole target is the host and the port is 80 |
| `HttpConnect.RequestedExactly` | cmux/src/remote/proxy.rs:311-338 | a request line is understood if and only if it has two words, the first CONNECT, and after the last colon of the second, if any, a 16-bit port; host and port are the parts around that colon |
| `Relay.RelayStreams` | cmux/src/remote/proxy.rs:369-437 | over any schedule the loop forwards whole local pieces in order, delivers what the channel yields, and closes the remote stream exactly for the ends that do |
| `Relay.ForwardsAPrefix` | cmux/src/remote/proxy.rs:369-437 | only local bytes are forwarded, in order, and all of them once the local end of stream was seen |
| `Relay.EndsExactly` | cmux/src/remote/proxy.rs:369-437 | which turn ends the loop, in which way, and which one keeps it going |
| `Relay.QuietTurn` | cmux/src/remote/proxy.rs:369-437 | a turn in which neither side has anything changes nothing |
| `Relay.ClosedExactly` | cmux/src/remote/proxy.rs:369-437 | the remote stream is closed from here at the local end of stream, after a failure on the local side, and on an error of the remote side, and for no other end |
| `Proxy.Forward` | cmux/src/remote/proxy.rs:252-285 | the remote stream is opened to the address given; the payload that came with the request goes first, then the relayed bytes; the client gets the replies so far, the announcement, then what the relay delivers |
| `Proxy.ServeSocks5` | cmux/src/remote/proxy.rs:146-285 | the remote stream is opened to the host and port asked for, if it can be, and takes a prefix of the payload, all of it if the client was seen to finish; nothing happens there for a request not understood; the client gets the replies for the request, the announcement, and what the relay delivers |
| `Proxy.ServeConnect` | cmux/src/remote/proxy.rs:288-366 | the same for HTTP CONNECT |
| `Proxy.Serve` | cmux/src/remote/proxy.rs:120-143 | the same for a whole connection, the front end being told by the first read |
| `Proxy.ServeSocks5WellDivided` | cmux/src/remote/proxy.rs:120-285 | for a request laid out as in RFC 1928 and divided into reads as it must be, the remote stream is opened to the very port and a host that reads as the one sent (four numbers in order for IPv4), and takes the very payload sent |
| `Proxy.HostTextNames` | cmux/src/remote/proxy.rs:201-246 | the text of an IPv4 address, split at its dots, is its four bytes in order as decimal numbers; those of a domain name and an IPv6 address are what the library makes of all their bytes |
| `Proxy.ServeConnectWellDivided` | cmux/src/remote/proxy.rs:120-366 | for a CONNECT request naming host and port, divided into reads as it must be, the remote stream is opened to the very host and port and takes the very payload sent |
| `Proxy.DivisionDecides` | cmux/src/remote/proxy.rs:120-304 | a stream that begins like a CONNECT request is taken for what its bytes ask for if the first read has the method name and no read stops past the limit inside the header, and refused otherwise; so two divisions agree if and only if nothing is asked for, or both are such, or neither is |
| `Proxy.MethodInTwoReads` | cmux/src/remote/proxy.rs:124-142 | a first read shorter than the method name has any CONNECT request refused |
| `Proxy.DivisionThatMatters` | cmux/src/remote/proxy.rs:294-304 | two divisions of one request into reads of at most 4096 bytes, one understood and the other too large |
| `Proxy.NeitherFrontEnd` | cmux/src/remote/proxy.rs:120-143 | a first read that begins neither with version 5 nor with the method name leads to no request |
| `Proxy.AnnouncementAsText` | cmux/src/remote/proxy.rs:347-349 | what a CONNECT client is told, as text |
| `Proxy.MarksAsText` | cmux/src/remote/proxy.rs:124-304 | how a CONNECT request begins and how its header ends, as text |
| `Framing.ChunkReader.FillBuf` | cmux/src/socket/server.rs:178-188 | buffering loses no byte and reports the end of the stream only there |
| `Framing.ReadLine` | cmux/src/socket/server.rs:177-214 | the inner loop yields the next line up to the limit whatever the chunks |
| `Framing.ServeLine` | cmux/src/socket/server.rs:172-258 | one pass dispatches exactly the next request; the later length check is dead code |
| `Framing.HandleClient` | cmux/src/socket/server.rs:164-262 | for every chunking, what is dispatched is the stream split on newlines, each line decoded and trimmed, blank and undecodable lines dropped, up to the first overlong line |
| `Framing.LinesOfJoined` | cmux/src/socket/server.rs:177-218 | lines sent with a newline each, and perhaps an unterminated one, are split as they were sent |
| `Framing.NothingAfterAnOverlongLine` | cmux/src/socket/server.rs:188-212 | an overlong line stops the dispatch of everything from it on and of nothing before it |
| `Framing.ShortIsCutThere` | cmux/src/socket/server.rs:188-212 | the lines that count are those before the first of more than a mebibyte |
| `Framing.RequestsAreSpoken` | cmux/src/socket/server.rs:216-230 | the requests are, in order, the trimmed texts of exactly the lines that decode to some |
| `Rpc.ResponsesReachTheirCallOnly` | cmux/src/remote/rpc.rs:162-303 | over every interleaving a call is answered only by a response to the id it drew, gets at most one, and has no entry in the table once it is over, however it ended |
| `Rpc.QuiescentTableIsEmpty` | cmux/src/remote/rpc.rs:250-303 | when every call is over the pending table is empty |
| `Rpc.IdsAreUnique` | cmux/src/remote/rpc.rs:255-255 | two calls of a run draw different tickets, share an id if and only if those are a multiple of 2^64 apart, and so never within the first 2^64 draws |
| `Rpc.IdsRepeatAfterWrap` | cmux/src/remote/rpc.rs:255-255 | two draws give the same id if and only if they are a multiple of 2^64 draws apart |
| `Rpc.FirstAndLastIds` | cmux/src/remote/rpc.rs:255-255 | ids count from 1, and 2^64 - 1 is followed by 0 |
| `Rpc.RunKeepsInvariant` | cmux/src/remote/rpc.rs:162-303 | the invariant behind these holds in every state of every run |
| `Rpc.EntriesAreKeptUnlessDisplaced` | cmux/src/remote/rpc.rs:255-303 | up to any point of any run, every waiting call has had its entry all along if and only if no call entered the table over another's entry or took another's off |
| `Rpc.FreeDrawsLoseNothing` | cmux/src/remote/rpc.rs:162-303 | as long as no id is drawn while an open call holds it, a waiting call has its entry, and a response to its id is handed to it |
| `Rpc.NoCallAfterDeath` | cmux/src/remote/rpc.rs:250-253 | after the reader exited, the write lock was found poisoned or the client was shut down, every call that begins is refused, in every later state, without id or entry |
| `Rpc.SharedIdLosesEntry` | cmux/src/remote/rpc.rs:255-266 | a run in which two open calls share an id and the first has lost its entry to the second |
| `RpcStreams.ReceiversSeeTheirWindow` | cmux/src/remote/rpc.rs:188-393 | over every interleaving a receiver sees exactly its stream's pushes from its insertion to the first removal or replacement, in order, without gaps or repeats |
| `RpcStreams.HubRunKeepsInvariant` | cmux/src/remote/rpc.rs:188-393 | the invariant behind this holds in every state of every run |
| `RpcStreams.FinishSubscribesOrCloses` | cmux/src/remote/rpc.rs:369-393 | a subscribing call told of success takes over its stream, a closing call leaves it to nobody whatever it was told, no other call touches the subscriptions |
| `Subscribing.MissesPushesBeforeInsertion` | cmux/src/remote/rpc.rs:380-393 | over every interleaving a receiver's subscription was acknowledged exactly once, before its insertion; all pushes since then, up to the end of its window, are those handled before the insertion and those it got, so it got all of them if and only if none was handled in between |
| `Subscribing.PushBeforeInsertionIsMissed` | cmux/src/remote/rpc.rs:380-393 | a run in which a push between acknowledgement and insertion is sent to nobody |
| `Delivery.ClientGetsWhatWasPushed` | cmux/src/remote/proxy.rs:402-435 | over every interleaving and every schedule of the relay, the client is sent the payloads of the first so many events of its subscription's window, all of them if the channel was found closed |
| `Delivery.ForwardSubscribed` | cmux/src/remote/proxy.rs:252-285 | the client of a connection gets the announcement, and then those payloads |
| `RpcHeap.SharedState.Begin` | cmux/src/remote/rpc.rs:250-253 | the load at the start of a call performs the step and tells whether the call is let in |
| `RpcHeap.SharedState.Draw` | cmux/src/remote/rpc.rs:255-255 | drawing an id from the shared counter, which wraps, performs the step |
| `RpcHeap.SharedState.Insert` | cmux/src/remote/rpc.rs:262-266 | entering the shared table performs the step |
| `RpcHeap.SharedState.Respond` | cmux/src/remote/rpc.rs:162-168 | the reader's lookup and removal performs the step and names the call |
| `RpcHeap.SharedState.TakeOff` | cmux/src/remote/rpc.rs:280-301 | a failed call's removal performs the step |
| `RpcHeap.SharedState.Push` | cmux/src/remote/rpc.rs:219-223 | a push event is sent on the channel of the call subscribed to its stream, and on no other |
| `RpcHeap.SharedState.Finish` | cmux/src/remote/rpc.rs:369-393 | subscribing and closing update the shared subscriptions as the step says |
| `Wakeup.FlagIsRaisedInRuns` | cmux/src/app.rs:1330-1359 | in every state of every run, the shutdown included, the flag is set exactly while a callback is outstanding whose call set it and for which nobody has cleared it since |
| `Wakeup.FlagIsExactUnlessShutdownFindsItSet` | cmux/src/app.rs:567-570 | up to any point of a run, the flag is set exactly while one callback has not cleared it, and never more than one is, if and only if the shutdown did not find the flag set |
| `Wakeup.ShutdownUnderCallback` | cmux/src/app.rs:567-570 | a run in which the shutdown clears the flag under a posted callback, which then skips its tick |
| `Wakeup.SkipsExactlyAfterNulling` | cmux/src/app.rs:1341-1352 | in every run a callback skips its tick exactly when its look at the pointer follows the nulling, and ticks exactly when it comes before |
| `Wakeup.NoWakeupIsLost` | cmux/src/app.rs:1330-1359 | once things are quiet the flag is clear, and each wakeup that reached it was followed by a callback's look at the pointer; until the pointer is nulled that look started a tick and no callback skipped |
| `Wakeup.EveryPassedCallIsLogged` | cmux/src/app.rs:1337-1339 | every call past the flag is one of those wakeups |
| `Snapshot.LayoutComesBack` | cmux/src/session/snapshot.rs:159-207 | a layout comes back from its snapshot identical if and only if its dividers lie in [0, 1] |
| `Snapshot.SavedInPlace` | cmux/src/session/snapshot.rs:159-186 | each pane and each split is saved where it stands, with tabs and selection, orientation and divider |
| `Snapshot.ReadInPlace` | cmux/src/session/snapshot.rs:189-206 | each is read back there, a divider out of range put to the nearer end, one that is no number in the middle |
| `Snapshot.NormalizedComesBackEqualized` | cmux/src/session/store.rs:318-325 | normalising the snapshot first brings back exactly the equalized layout |
| `Snapshot.OnlyDividersChange` | cmux/src/session/snapshot.rs:159-207 | nothing but dividers can change on the way |
| `Snapshot.AnySnapshotIsRepaired` | cmux/src/session/snapshot.rs:189-206 | whatever a file holds, not-a-number included, the layout read has dividers in range and is stable from then on |
| `Snapshot.PanelsComeBack` | cmux/src/app.rs:797-862 | panels listed in any order rebuild the same map |
| `Snapshot.ListPanels` | cmux/src/session/store.rs:221-243 | the panels are listed completely, in whichever order |
| `Snapshot.NamesInFile` | cmux/src/app.rs:797-862 | the names of panel types in a file; an unknown one is read as a terminal |
| `SnapshotHeap.SnapshotNode.NormalizeDividers` | cmux/src/session/store.rs:318-325 | overwriting the dividers of the boxed snapshot in place gives the normalised value |
| `SnapshotHeap.SaveLayout` | cmux/src/session/store.rs:245-251 | the layout part of a snapshot, normalised unless ratios are kept |
| `Session.SnapshotWorkspace` | cmux/src/session/store.rs:220-267 | the snapshot of a workspace holds its layout, focus, directory and pin, and lists every panel |
| `Snapshot.WorkspaceComesBack` | cmux/src/app.rs:780-867 | a restored workspace has the same panels, focus, directory and pin, the same layout (or the equalized one), and no marks |
| `Session.GroupByWindow` | cmux/src/session/store.rs:269-280 | pushing into the window map collects, for each window id, its workspaces in order |
| `Session.CreateSnapshot` | cmux/src/session/store.rs:269-307 | the saved windows are the groups in ascending order of window id |
| `Session.AddWorkspaces` | cmux/src/app.rs:776-868 | the inner restore loop skips workspaces without panels and adds the others last |
| `Session.Restore` | cmux/src/app.rs:731-885 | the restore loops rebuild the manager told by the saved windows; a session without workspaces leaves the manager alone |
| `SessionLaws.RegroupedIsStable` | cmux/src/session/store.rs:269-307 | the workspaces kept are ordered by window, those of no window first, with those of each window in their old order |
| `SessionLaws.GroupPicks` | cmux/src/session/store.rs:269-280 | the group of a window is, in order, exactly its workspaces |
| `SessionLaws.LivePicks` | cmux/src/app.rs:776-868 | what is kept is, in order, exactly the workspaces with panels |
| `SessionLaws.StableGroupingIsUnique` | cmux/src/session/store.rs:269-307 | only one list is ordered by window and has the same workspaces per window in the same order |
| `SessionLaws.SessionComesBack` | cmux/src/app.rs:748-885 | save then restore yields the stable grouping of the workspaces with panels; two share a window afterwards exactly when they did before; each survives; the last is selected |
| `SessionLaws.EmptySessionChangesNothing` | cmux/src/app.rs:731-746 | with nothing saved the manager stays as it is |
| `SessionLaws.RestartKeepsInvariant` | cmux/src/app.rs:748-885 | a restart keeps the invariant of the manager |
| `Scrollback.AtMostMaxLines` | cmux/src/session/store.rs:109-117 | after the first step the text has at most the maximum number of lines |
| `Scrollback.LinesComeBack` | cmux/src/session/store.rs:109-117 | lines written with a newline, or a carriage return and a newline, after each are read back as they were |
| `Scrollback.LastLinesAreKept` | cmux/src/session/store.rs:109-117 | of lines so written the last 4000 are kept, joined by newlines; up to 4000 stay as written |
| `Scrollback.KeptLinesAreTheEnd` | cmux/src/session/store.rs:109-117 | without carriage returns what is kept is, but for one final newline, the end of the text from the beginning of a line on, where 4000 lines begin or all there are |
| `Scrollback.TruncateScrollback` | cmux/src/session/store.rs:109-170 | the three loops compute the cut |
| `Scrollback.ScanEscape` | cmux/src/session/store.rs:135-152 | the scan finds exactly the last escape byte after which nothing terminates the sequence |
| `Scrollback.KeptIsABoundedSuffix` | cmux/src/session/store.rs:119-170 | a text within the cap is kept; of a longer one a suffix is, over the cap by at most the lookback, and, when no sequence is open, from the first character within the cap on, at most three bytes short of it |
| `Scrollback.OpenSequenceIsKept` | cmux/src/session/store.rs:154-170 | a sequence the scan found open is kept whole, from the start of its line as far as it was looked at |
| `Scrollback.SplitSequenceIsKept` | cmux/src/session/store.rs:106-108 | a control sequence (introducer, then parameter and intermediate bytes only, up to the cut) is kept whole if and only if it began among the bytes looked back on |
| `Scrollback.LongSequenceIsSplit` | cmux/src/session/store.rs:130-133 | a text with a longer control sequence, which is cut off after forty bytes |
| `Scrollback.CompleteSequenceKeepsNothingBack` | cmux/src/session/store.rs:145-149 | a control sequence finished before the cut, with no escape after it, keeps nothing back |
| `Scrollback.PanicsExactlyWhen` | cmux/src/session/store.rs:154-169 | the slice panics if and only if a sequence is open, its line began before the lookback, and the first byte looked at continues a character |
| `Scrollback.UnluckyTextPanics` | cmux/src/session/store.rs:109-170 | a concrete text for which it panics |
| `Scrollback.LastLinesAreTextLike` | cmux/src/session/store.rs:109-117 | cutting to lines keeps what UTF-8 guarantees of neighbouring bytes |
| `Jsonc.StripJsoncComments` | cmux/src/settings/mod.rs:824-885 | the nested loops compute the character-by-character specification |
| `Jsonc.CodeIsCopied` | cmux/src/settings/mod.rs:873-880 | code without quotes and slashes is copied as it is, whatever follows |
| `Jsonc.SlashIsCopied` | cmux/src/settings/mod.rs:841-880 | a slash followed by neither a slash nor a star, or by nothing, is copied |
| `Jsonc.Idempotent` | cmux/src/settings/mod.rs:824-885 | stripping twice is stripping once, on every input |
| `Jsonc.StringsAreVerbatim` | cmux/src/settings/mod.rs:830-840 | a string literal, whatever it contains, is copied as it is |
| `Jsonc.BlockCommentIsRemoved` | cmux/src/settings/mod.rs:857-872 | a block comment in code leaves its newlines only |
| `Jsonc.LineCommentIsRemoved` | cmux/src/settings/mod.rs:847-856 | a line comment in code leaves its newline only |
| `Jsonc.UnclosedBlockComment` | cmux/src/settings/mod.rs:857-872 | a block comment never closed leaves exactly its newlines |
| `Jsonc.UnclosedLineComment` | cmux/src/settings/mod.rs:847-856 | a line comment that ends the input leaves nothing |
| `Jsonc.UnclosedStringIsCopied` | cmux/src/settings/mod.rs:830-840 | a string never closed is copied to the end |
| `Jsonc.SurvivorsKeepTheirLine` | cmux/src/settings/mod.rs:824-885 | every surviving character keeps its value and its line number, on every input |
| `Jsonc.NewlinesSurvive` | cmux/src/settings/mod.rs:824-885 | every newline survives |
| `Jsonc.RankGrows` | cmux/src/settings/mod.rs:824-885 | the survivors stay in order |
| `Jsonc.OnlySurvivorsAreCopied` | cmux/src/settings/mod.rs:824-885 | the result holds the survivors and nothing else |
| `Args.ParseArgs` | cmux/src/socket/v1.rs:777-826 | the nested loops over the iterator compute the tokens and what they add up to, and terminate |
| `Args.TokensComeBack` | cmux/src/socket/v1.rs:781-813 | tokens written quoted or bare are read back as written |
| `Args.ArgumentsComeBack` | cmux/src/socket/v1.rs:777-826 | arguments and flags written that way are read back: arguments in order, the last value of each flag |
| `Args.QuotedComesBack` | cmux/src/socket/v1.rs:781-813 | a quoted word is read back, whatever follows |
| `Args.BareComesBack` | cmux/src/socket/v1.rs:781-813 | a bare word is read back up to the next blank |
| `Args.UnclosedQuote` | cmux/src/socket/v1.rs:781-813 | a quote never closed takes in everything to the end |
| `Args.FlagWithoutValue` | cmux/src/socket/v1.rs:814-826 | a flag without an equals sign has an empty value |
| `Text.ParseDecimal` | cmux/src/remote/proxy.rs:329-333 | a printed number is read back if it is below the limit and refused otherwise |
| `Text.ParsedExactly` | cmux/src/remote/proxy.rs:329-333 | what is read as a number is one or more digits, perhaps after a plus sign, of a value below the limit, and nothing else is |
| `Text.LeadingZero` | cmux/src/remote/proxy.rs:329-333 | leading zeros do not count |
| `Text.WordsStep` | cmux/src/remote/proxy.rs:314-318 | a word and white space are split off the front of a request line |
| `Text.SkipOne` | cmux/src/remote/proxy.rs:314-318 | white space before a word does not count |
| `Text.TrimTakesWhiteEnds` | cmux/src/socket/server.rs:216-221 | trimming takes away white space at both ends, all of it and nothing else |

## Left out

- GTK, WebKit and terminal widgets, files, processes, SSH, sockets beyond the bytes they carry: foreign calls.
- JSON parsing and printing, base64 and checksums: library code; messages and snapshots are taken as parsed values.
- Clocks and time-outs as durations: a time-out is a step that may happen whenever it can.
- Read errors and the read time-out during the proxy handshake: they end the connection with nothing forwarded.
- Fixed read-buffer sizes: reads may end anywhere, which includes every division those sizes allow.
- The text rendering of IPv6 addresses and the lossy decoding of domain names: library functions, any of them.
- UTF-8 decoding in the line reader and in the HTTP request line: any function, the same for all chunkings.
- A failing response write in the socket server: it ends the connection early.
- A failing write to the proxy's client may have sent part of its bytes; in the model it sends none.
- Scrollback.CompleteSequenceKeepsNothingBack: not for a sequence whose final byte is `[`, which the scan takes for an introducer and so for unfinished.
- Rounding and not-a-number in dividers: reals; only the snapshot has a not-finite case. The tolerance of equalize is that of 64-bit floats.
- Panel and workspace metadata (titles, status and log entries, notifications, git state, ports, agent commands, scrollback and browser history in snapshots): carried along without logic; panels keep id, type, title and directory.
- Window geometry in snapshots, and the sidebar.
- The zoom toggle and the selection of the latest unread workspace: small steps that touch none of the invariant's parts but an index or a mark.
- Building without the WebKit feature, which would skip browser panels on restore.
- Session.Restore: builds the new manager as a value; the program builds it as a local object and swaps it in.
- LayoutHeap.LayoutNode.SplitPaneWithPanel: also stands for the lookup of a pane followed by its replacement in `Workspace::split` and `insert_panel`, which the program writes in two steps; clones made in between are not modelled.
- Socks.HandleSocks5: an index out of bounds and an endless loop are outcomes of the model; the code has no such results.
- A poisoned lock around the app pointer, which the wakeup treats like a null pointer.
- Socket authorisation, and everything in `cmux-cli`.
