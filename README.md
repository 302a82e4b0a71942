# Tiled window manager: workspace and tiling state machine

This project models the tiling policy `TiledWindowManager` of a compositor built on Mir/miral.
The policy keeps a registry of workspaces and the index of the current one. It spills a fifth
window into a fresh workspace. It erases a workspace that empties out, unless it is the only one.
After each change it retiles: every window outside the current workspace is minimized, and the
current workspace's windows get the slots of a fixed layout for 1 to 4 windows. The first of
them gets the focus. Ctrl+Alt chords close windows, cycle the focus, move the active window to a
new workspace and switch workspaces. Client requests to maximize, minimize or restore are
swallowed.

The project has five modules:

- `Layout` (layout.dfy): the constant tables behind `position_for` and `size_for`.
  - Fractions of the output are counted in halves (0, 1 or 2).
  - A pixel value is that fraction of the output extent, truncated.
  - Lemmas prove that the lookup stays inside the filled part of the size table.
  - Lemmas prove that the slots of every layout partition the output: exactly in half-cells,
    and exactly in pixels when width and height are even.
- `Seqs` (seqs.dfy): sequences without duplicates, and `Without`, which removes every occurrence
  of a value and keeps the order of the rest. `Without` is what `std::erase` does to the registry.
- `Host` (host.dfy): the compositor as the policy sees it (`tools`).
  - It holds a map from workspace handle to its windows in host order, the active window (none
    at all, at startup for instance), the output size, and a counter for fresh workspace handles.
  - It also holds the log of every command the policy has sent: Hide, Show, Resize, Move, Select
    and Close.
- `Policy` (policy.dfy): the registry as a value `State` together with its invariant `Valid`.
  - Valid means: at least one workspace, the index in range, no workspace twice, and no
    workspace over 4 windows.
  - Each hook is a pure transition function on `State`.
- `PolicyProperties` (policy_properties.dfy): the lemmas about those transitions.
- `Manager` (manager.dfy): the class `TiledWindowManager`.
  - Its fields are `workspaces` and `currentIndex` (include/tiled_window_manager.h:47-48) and the host state.
  - Its methods run the loops of the source: the three loops of `update_windows`, the counting
    and collecting helpers, the Tab scan and the close-all loop.
  - Each hook is proved against its `Policy` transition: `Abs() == F(old(Abs()))`, or the pair
    of result and new state for the keyboard handler.
  - Each hook keeps `Valid()`.

The model follows the code where the design description says otherwise:

- The m chord refuses only a workspace of exactly one window (src/tiled_window_manager.cpp:218).
  On an empty current workspace it goes ahead: a new workspace is created and made current, and
  the active window, if there is one, is added there. That window belongs to some other
  workspace, and it also stays in the workspace it was in.
- The m chord does not retile by itself.
- Pixel coordinates are truncated. A single window is given the whole output at every size
  (`Layout.SingleWindowTilesAnySize`). With two or more windows an odd width leaves the last pixel
  column to no slot (`Layout.OddWidthLeavesColumn`). With three or more windows an odd height
  leaves the bottom pixel row of the right half to no slot (`Layout.OddHeightLeavesRow`). Even
  sizes are tiled exactly (`Layout.LayoutTilesPixels`).
- The test at src/tiled_window_manager.cpp:127 is a `size_t` subtraction. It is modelled with its
  wrap-around (`Policy.SizeDifference`), not excluded by a precondition: every input is handled,
  and the result is zero exactly when the two counts are equal.

## Model

| member | source | states |
|---|---|---|
| Layout.SizeIndex | src/tiled_window_manager.cpp:58-60 | `start_index[total-1] + index` is total·(total−1)/2 + index, inside the 24-entry table, and below 10 (the populated entries) whenever index < total |
| Layout.Scale | src/tiled_window_manager.cpp:37 | a fraction of 0, ½ or 1 of an extent, truncated, lies between 0 and the extent and is 0 or the whole extent at the ends |
| Layout.PositionFor | src/tiled_window_manager.cpp:26-38 | the origin of a slot depends only on the slot, never on the total, and lies in the top-left half of each axis |
| Layout.SizeFor | src/tiled_window_manager.cpp:40-63 | a slot's size never exceeds the output, and for a placed slot (index < total) it is at least half the output in each direction |
| Layout.LayoutTilesOutput | src/tiled_window_manager.cpp:26-63 | for every total 1..4 the slots 0..total−1 are non-empty rectangles inside the output, pairwise disjoint and covering every half-cell |
| Layout.SlotFits | src/tiled_window_manager.cpp:28-56 | one placed slot is a non-empty rectangle inside the 2×2 half grid |
| Layout.CellOwnerCovers | src/tiled_window_manager.cpp:28-56 | every half-cell is covered by some placed slot |
| Layout.SlotsDisjoint | src/tiled_window_manager.cpp:28-56 | no two placed slots share a half-cell |
| Layout.PixelInCell | src/tiled_window_manager.cpp:37-62 | on an even-sized output, a slot covers a pixel exactly when it covers that pixel's half-cell |
| Layout.LayoutTilesPixels | src/tiled_window_manager.cpp:26-63 | on an even-sized output every pixel is covered by exactly one placed slot and no slot reaches outside |
| Layout.OddWidthLeavesColumn | src/tiled_window_manager.cpp:37-62 | with an odd width the truncated halves leave the last column to no slot (two windows, width 3) |
| Layout.OddHeightLeavesRow | src/tiled_window_manager.cpp:37-62 | with an odd height the truncated halves leave the bottom row of the right half to no slot (three windows, height 3) |
| Layout.SingleWindowTilesAnySize | src/tiled_window_manager.cpp:37-62 | one window covers exactly the output's pixels at every width and height |
| Seqs.Without | src/tiled_window_manager.cpp:129 | erasing keeps exactly the other values, never grows the sequence, and changes nothing when the value is absent |
| Seqs.WithoutAt | src/tiled_window_manager.cpp:129 | erasing the value at position p of a duplicate-free registry removes exactly position p |
| Seqs.WithoutDistinct | src/tiled_window_manager.cpp:129 | erasing shortens a duplicate-free registry by one exactly when the value occurs, and keeps it duplicate-free |
| Host.Tools.Windows | src/tiled_window_manager.cpp:253-254 | the windows `for_each_window_in_workspace` visits, in host order; a workspace the host has not created yet has none |
| Host.Tools.CreateWorkspace | src/tiled_window_manager.cpp:68 | a created workspace is fresh and empty, and every other workspace keeps its windows |
| Host.Tools.AddTree | src/tiled_window_manager.cpp:106 | the window joins the end of the workspace unless it is a member already; other workspaces are unchanged |
| Host.Tools.RemoveTree | src/tiled_window_manager.cpp:219 | the window leaves the workspace, the rest stay, and other workspaces are unchanged |
| Host.Tools.SelectActiveWindow | src/tiled_window_manager.cpp:284 | the window becomes active and one Select is sent |
| Policy.Current | src/tiled_window_manager.cpp:331-334 | the lookup of the current workspace never fails and yields a registered workspace of at most 4 windows |
| Policy.AppendFresh | src/tiled_window_manager.cpp:98-100 | appending a freshly created workspace and making it current keeps the registry invariant |
| Policy.Initial | src/tiled_window_manager.cpp:65-69 | the constructor's registry is one empty workspace, current, satisfying the invariant |
| Policy.NewWindow | src/tiled_window_manager.cpp:91-107 | the overflow rule keeps the invariant, in particular the cap of 4 windows |
| Policy.Hides | src/tiled_window_manager.cpp:253-254 | the sweep of one workspace sends one Hide per window and nothing else |
| Policy.Closes | src/tiled_window_manager.cpp:181-183 | close-all sends one Close per window and nothing else |
| Policy.HideAll | src/tiled_window_manager.cpp:288-293 | a sweep over several workspaces, workspace by workspace, sends only Hides |
| Policy.Kept | src/tiled_window_manager.cpp:267-270 | the tiling loop skips the ignored windows, so it never tiles more windows than the workspace has |
| Policy.Tile | src/tiled_window_manager.cpp:274-277 | one tiled window gets three commands (show, resize, move), all about that window |
| Policy.Selection | src/tiled_window_manager.cpp:282-285 | one Select when some window was tiled and none otherwise, and it selects a tiled window |
| Policy.Placement | src/tiled_window_manager.cpp:274-277 | placing windows sends only Show, Resize and Move |
| Policy.KeptMembers | src/tiled_window_manager.cpp:267-270 | the windows the tiling loop does not skip are exactly the members not on the ignore list, and all members when none is ignored |
| Policy.WindowsCountAsWritten | src/tiled_window_manager.cpp:259-260 | the count as written: never above the member count, and negative when the ignore list is longer than the workspace |
| Policy.TileCount | src/tiled_window_manager.cpp:259-260 | the corrected window count never exceeds the members, and equals them when nothing of the workspace is ignored |
| Policy.RetileCommands | src/tiled_window_manager.cpp:249-293 | the commands of one run of update_windows, in order: hides before, placement, select, hides after; none of them is a Close |
| Policy.Retile | src/tiled_window_manager.cpp:242-294 | a retile keeps the invariant, the registry and the memberships, and only appends the retile commands |
| Policy.SizeDifference | src/tiled_window_manager.cpp:127 | the `size_t` difference wraps into range and is zero exactly when the two counts are equal |
| Policy.RemovalUpdate | src/tiled_window_manager.cpp:126-139 | the registry change made by removal keeps the invariant and leaves the host untouched |
| Policy.RemovingFromWorkspace | src/tiled_window_manager.cpp:119-140 | removal followed by its retile keeps the invariant |
| Policy.AddingToWorkspace | src/tiled_window_manager.cpp:109-117 | adding retiles with nothing ignored and keeps the invariant |
| Policy.HandleModifyWindow | src/tiled_window_manager.cpp:152-163 | a request is swallowed exactly when it asks for the maximized, minimized or restored state; every other request goes to the base policy |
| Policy.IndexOf | src/tiled_window_manager.cpp:193-201 | the scan yields −1 exactly when the window is absent, and otherwise the first position holding it |
| Policy.ActiveIndex | src/tiled_window_manager.cpp:193-201 | the position the Tab scan leaves: −1 exactly when there is no active window or it is not listed, otherwise the first position holding it |
| Policy.TabTarget | src/tiled_window_manager.cpp:203-210 | the window Tab selects is always a window of the workspace |
| Policy.SwitchIndex | src/tiled_window_manager.cpp:230-234 | the switched index stays in range |
| Policy.MoveToNewWorkspace | src/tiled_window_manager.cpp:216-227 | the m move keeps the invariant, also when no window is active |
| Policy.HandleKeyboard | src/tiled_window_manager.cpp:165-240 | every key event keeps the invariant, and an event not consumed changes nothing |
| PolicyProperties.NewWindowOverflow | src/tiled_window_manager.cpp:93-106 | at ≥4 windows exactly one fresh workspace is appended, becomes current and holds only the new window, and the full workspace keeps its windows; otherwise the registry and index stay and the window joins the current workspace; other workspaces, the log and the active window are unchanged |
| PolicyProperties.RemovalKeepsRegistry | src/tiled_window_manager.cpp:126-139 | removal never erases the only workspace, erases at most the given one, decrements the index only when it equals the new length, and keeps ≥1 workspace with the index in range |
| PolicyProperties.RemovalErasesExactly | src/tiled_window_manager.cpp:126-129 | a workspace is erased exactly when it is registered, is not the only one and the removed windows are as many as it holds; otherwise registry, index and ignore list are left as they are |
| PolicyProperties.RemovalErasesPosition | src/tiled_window_manager.cpp:129-134 | erasing the emptied workspace at position p drops exactly that position, and the index is decremented exactly when it was the last |
| PolicyProperties.RemovalMovesCurrent | src/tiled_window_manager.cpp:129-136 | which workspace is current after an erase: unchanged for a later or the last one; the following one when an earlier one is erased (the index keeps its value); the following or previous one when the current one is erased |
| PolicyProperties.RemovalIgnoreList | src/tiled_window_manager.cpp:131-139 | the retile after removal ignores the removed windows, except after the decrement, when it ignores nothing |
| PolicyProperties.HostRemovalKeepsValid | src/tiled_window_manager.cpp:219 | the host removing a window from a workspace keeps the registry invariant |
| PolicyProperties.KeptAgrees | src/tiled_window_manager.cpp:269-270 | ignore lists that agree on the workspace's windows skip the same windows |
| PolicyProperties.AsWrittenCountAgrees | src/tiled_window_manager.cpp:259-260 | the count as written equals the number of windows placed when the ignore list is duplicate-free and inside the workspace |
| PolicyProperties.AsWrittenCountLeavesTable | src/tiled_window_manager.cpp:259-260 | a reachable removal where the count as written is 0 while one window is placed |
| PolicyProperties.ExampleRemoval | src/tiled_window_manager.cpp:126-139 | in that example, the current middle workspace is erased and the index keeps pointing at position 1 |
| PolicyProperties.HidesAt | src/tiled_window_manager.cpp:253-254 | the k-th Hide of a workspace sweep is for its k-th window |
| PolicyProperties.HidesMembership | src/tiled_window_manager.cpp:253-254 | a workspace sweep hides exactly its windows |
| PolicyProperties.ClosesAt | src/tiled_window_manager.cpp:181-183 | the k-th Close of close-all is for the k-th window |
| PolicyProperties.HideAllMembership | src/tiled_window_manager.cpp:249-255 | a sweep over several workspaces hides exactly their windows |
| PolicyProperties.HideAllMembersOnly | src/tiled_window_manager.cpp:288-293 | a sweep depends only on the memberships, so focus and earlier commands do not change it |
| PolicyProperties.PlacementLength | src/tiled_window_manager.cpp:274-277 | placing v sends three commands per window |
| PolicyProperties.PlacementAt | src/tiled_window_manager.cpp:274-277 | window k is shown, resized to slot k's size and moved to slot k's origin, at positions 3k, 3k+1 and 3k+2 |
| PolicyProperties.PlacementMembership | src/tiled_window_manager.cpp:274-277 | placing shows exactly the placed windows |
| PolicyProperties.RetileHidesOthers | src/tiled_window_manager.cpp:249-293 | a window is hidden by a retile exactly when it belongs to a workspace other than the current one |
| PolicyProperties.OthersAround | src/tiled_window_manager.cpp:249-293 | the two sweeps, before and after the current index, together visit every other position |
| PolicyProperties.RetilePlacesCurrent | src/tiled_window_manager.cpp:262-285 | the non-ignored windows of the current workspace, in host order, get Show, the size of slot k of N and the origin of slot k, with N their number, followed by a Select of the first |
| PolicyProperties.PlacedSlots | src/tiled_window_manager.cpp:274-284 | the slot commands of a placement sit at their positions after any prefix, followed by the Select |
| PolicyProperties.PlacementSnoc | src/tiled_window_manager.cpp:274-279 | placing one more window appends its three commands in the next slot |
| PolicyProperties.KeptUpTo | src/tiled_window_manager.cpp:267-270 | the loop's front-to-back collection of kept windows never exceeds the windows scanned |
| PolicyProperties.KeptUpToPrefix | src/tiled_window_manager.cpp:267-270 | after j windows the loop has kept exactly the kept windows of the first j |
| PolicyProperties.KeptUpToGrows | src/tiled_window_manager.cpp:267-279 | the slot the loop reaches is never beyond the total number of kept windows |
| PolicyProperties.Tiling | src/tiled_window_manager.cpp:262-280 | the loop's slot counter after j windows is the number of windows kept so far |
| PolicyProperties.TilingPlacesKept | src/tiled_window_manager.cpp:262-280 | after j windows the loop has placed the windows kept so far in slots 0, 1, … and remembered the first of them |
| PolicyProperties.RetileSplit | src/tiled_window_manager.cpp:242-294 | a retile changes only the log and the active window, sending the hides before, the placement, the select and the hides after, in that order |
| PolicyProperties.RetileShowsAndSelects | src/tiled_window_manager.cpp:267-285 | a retile shows exactly the non-ignored windows of the current workspace, selects at most the first of them, which becomes active; with none, the focus stays |
| PolicyProperties.RetileIdempotent | src/tiled_window_manager.cpp:242-294 | a second retile with nothing changed in between sends the same commands and leaves the same window active |
| PolicyProperties.ModBelowTwice | src/tiled_window_manager.cpp:230-234 | the remainder of a value below twice the size needs at most one subtraction |
| PolicyProperties.SwitchIsModular | src/tiled_window_manager.cpp:228-235 | q goes to the previous index and e to the next, both wrapping around; with one workspace neither moves |
| PolicyProperties.SwitchRoundTrip | src/tiled_window_manager.cpp:228-235 | q then e, and e then q, restore the index |
| PolicyProperties.KeyboardGuard | src/tiled_window_manager.cpp:167-171 | events other than key-down with both Ctrl and Alt, and unbound keys, are not consumed and change nothing |
| PolicyProperties.CloseAllSnapshot | src/tiled_window_manager.cpp:179-184 | v sends one Close per window of the current workspace, in order, after the earlier log, and changes nothing else |
| PolicyProperties.CloseAllKey | src/tiled_window_manager.cpp:179-184 | the v chord is consumed and appends the Closes of the current workspace |
| PolicyProperties.CloseKey | src/tiled_window_manager.cpp:185-188 | the c chord is consumed and sends a Close for the active window only, and nothing when no window is active |
| PolicyProperties.IndexOfFirst | src/tiled_window_manager.cpp:194-201 | the scan stops at the first position holding the active window |
| PolicyProperties.TabCycles | src/tiled_window_manager.cpp:203-210 | Tab selects `windows[(pos+1) mod N]`, and the first window when there is no active window or it is not in the workspace |
| PolicyProperties.TabVisitsNext | src/tiled_window_manager.cpp:191-212 | over distinct windows, Tab from position p lands on position p+1 mod N |
| PolicyProperties.TabOnlyMovesFocus | src/tiled_window_manager.cpp:189-215 | Tab is consumed, selects the Tab target and changes nothing else |
| PolicyProperties.MoveKey | src/tiled_window_manager.cpp:216-227 | the m chord is the move to a new workspace |
| PolicyProperties.MoveToNewWorkspaceEffect | src/tiled_window_manager.cpp:218-225 | with exactly one window m is refused and changes nothing; otherwise the active window leaves the current workspace for a fresh, appended, current workspace that holds only it (or nothing, when no window is active); the current workspace loses exactly the active window, and other workspaces, the log and the active window are unchanged |
| PolicyProperties.SwitchKey | src/tiled_window_manager.cpp:228-236 | q and e are consumed, change only the index to the switched one, and retile with nothing ignored |
| PolicyProperties.SwitchKeys | src/tiled_window_manager.cpp:228-236 | q keeps the registry and the memberships, and q followed by e returns to the original workspace |
| Manager.TiledWindowManager.constructor | src/tiled_window_manager.cpp:65-69 | the object starts in the initial registry |
| Manager.TiledWindowManager.CountWindowsInWorkspace | src/tiled_window_manager.cpp:312-318 | the counting loop returns the number of windows of the workspace |
| Manager.TiledWindowManager.GetWorkspaceWindows | src/tiled_window_manager.cpp:320-329 | the collecting loop returns the windows of the workspace in host order |
| Manager.TiledWindowManager.HideWindow | src/tiled_window_manager.cpp:296-302 | one Hide is sent and nothing else changes |
| Manager.TiledWindowManager.ShowWindow | src/tiled_window_manager.cpp:304-310 | one Show is sent and nothing else changes |
| Manager.TiledWindowManager.PlaceWindow | src/tiled_window_manager.cpp:274-277 | Show, the slot's size and the slot's origin are sent, in that order |
| Manager.TiledWindowManager.HideWorkspace | src/tiled_window_manager.cpp:253-254 | one Hide per window of the workspace, in host order |
| Manager.TiledWindowManager.HideWorkspaces | src/tiled_window_manager.cpp:249-255 | the outer sweep sends the hides of every swept workspace, workspace by workspace |
| Manager.TiledWindowManager.TileWindows | src/tiled_window_manager.cpp:262-281 | the tiling loop sends exactly the placement of the kept windows and returns the first of them |
| Manager.TiledWindowManager.TileNext | src/tiled_window_manager.cpp:267-280 | one pass of the tiling loop advances it from j to j+1 windows |
| Manager.TiledWindowManager.TileCurrent | src/tiled_window_manager.cpp:259-285 | the current workspace's kept windows are placed and the first is selected and becomes active |
| Manager.TiledWindowManager.UpdateWindows | src/tiled_window_manager.cpp:242-294 | the object ends in the state of one retile and keeps the invariant |
| Manager.TiledWindowManager.AdviseNewWindow | src/tiled_window_manager.cpp:91-107 | the object performs the overflow rule and keeps the invariant |
| Manager.TiledWindowManager.AdviseAddingToWorkspace | src/tiled_window_manager.cpp:109-117 | the object retiles with nothing ignored |
| Manager.TiledWindowManager.AdviseRemovingFromWorkspace | src/tiled_window_manager.cpp:119-140 | the object performs the erase, the index rebalance and the matching retile, and keeps the invariant |
| Manager.TiledWindowManager.CloseWorkspace | src/tiled_window_manager.cpp:181-183 | one Close per window of the workspace as it is when the chord is handled |
| Manager.TiledWindowManager.FocusNext | src/tiled_window_manager.cpp:191-212 | the scan-and-wrap selects the Tab target and sends one Select |
| Manager.TiledWindowManager.MoveActiveToNewWorkspace | src/tiled_window_manager.cpp:218-227 | the object performs the m move, with its refusal, and keeps the invariant |
| Manager.TiledWindowManager.SwitchWorkspace | src/tiled_window_manager.cpp:230-235 | the object moves to the switched index and retiles with nothing ignored |
| Manager.TiledWindowManager.HandleKeyboardEvent | src/tiled_window_manager.cpp:165-240 | the object consumes or passes on the event and changes state exactly as the dispatcher specifies |

## Left out

- src/main.cpp is not part of this model: it sets up the runner, an event filter and startup applications.
- The logging to standard output is left out; it changes no state.
- Floating point: the product of a `float` fraction and an output extent is modelled as the exact fraction, truncated toward zero. For fractions 0, ½ and 1 and extents of the size of a screen this is the same value.
- The destructor, `place_new_window`, `handle_request_resize` and `handle_request_move` are left out: they only ask clients to close, pass their input through, or do nothing.
- Everything delegated to the `MinimalWindowManager` base class is a call into code outside the model; `HandleModifyWindow` only says whether a request is passed on.
- `advise_new_window` also calls the base class's `advise_new_window` first; that call is left out for the same reason.
- The host's callbacks are not modelled, whatever their timing. `add_tree_to_workspace` (src/tiled_window_manager.cpp:106, 225) leads to `advise_adding_to_workspace`, and `remove_tree_from_workspace` (src/tiled_window_manager.cpp:219) and closing a window lead to `advise_removing_from_workspace`. Each hook is a separate method, and no hook runs another from inside it.
- Host.Tools.AddTree: it adds the window alone, not the subtree of windows that `add_tree_to_workspace` moves with it; `Host.Tools.RemoveTree` likewise removes the window alone.
- Policy.MoveToNewWorkspace: what the host does with a call about no window is not modelled. When no window is active, the model sends nothing for remove, add and close. Under m it still creates an empty workspace and makes it current.
- The focus pointer `first_valid_window` points at a loop-local copy (src/tiled_window_manager.cpp:265-284). The model selects the first non-ignored window, which is what the code evidently means.
- Close-all iterates the workspace while asking its clients to close. The model sends a Close for each window of the workspace as it is when the chord is handled; interleaved host callbacks are not modelled.
- Policy.KeyboardDefined: Tab on an empty workspace reads `windows[0]` of an empty vector (src/tiled_window_manager.cpp:205-210), so the keyboard handler is specified only for events other than that one.
- Window ids are not assumed to be unique across workspaces; `TabVisitsNext` assumes distinct windows within its workspace.
- Manager.TiledWindowManager.TileCurrent: it uses the corrected window count `Policy.TileCount`, not members minus ignore-list length (see Findings).
- Manager.TiledWindowManager.TileWindows: the body of the tiling loop is the separate method `TileNext`.
- Manager.TiledWindowManager.HideWorkspaces: it receives the slice of workspaces to sweep rather than running on the shared index `i`; `UpdateWindows` passes the slices before and after the current index.
- Manager.TiledWindowManager.SwitchWorkspace: it computes the new index with `Policy.SwitchIndex`, the same `size_t` sum and remainder.
- Integer widths: output width and height are natural numbers, and window counts never exceed 4, so the `int` counters of the source cannot overflow and are modelled as unbounded integers.

## Findings

| source | as written | input that shows it | evidently intended | confidence | as-written member | corrected member |
|---|---|---|---|---|---|---|
| src/tiled_window_manager.cpp:259-260 | `windows_count` is the member count of the current workspace minus the length of the ignore list, whether or not the ignored windows belong to that workspace | workspaces [0, 1, 2], current index 1, workspace 1 holds only window 11 and workspace 2 holds window 12; window 11 leaves workspace 1. Workspace 1 is erased, the index stays 1, so workspace 2 is current, and `update_windows([11])` computes 1 − 1 = 0 while it places window 12, so `size_for(0, 0, …)` reads `start_index[-1]` | the count is the number of windows that are placed: the members not on the ignore list | not executed | Policy.WindowsCountAsWritten, PolicyProperties.AsWrittenCountLeavesTable | Policy.TileCount |
