/**
 * The window manager object: its registry of workspaces and current index,
 * and the host tools it drives, updated in place by each hook. Every hook
 * is proved to leave the object in exactly the state the matching
 * transition of module Policy computes from the old one, so the
 * guarantees proved in module PolicyProperties hold of the object.
 */
module Manager {
  import opened Layout
  import opened Seqs
  import opened Host
  import opened Policy
  import opened PolicyProperties

  class TiledWindowManager {
    var workspaces: seq<WorkspaceId>
    var currentIndex: nat
    var tools: Tools

    /** The object's state as a value. */
    function Abs(): State
      reads this
    {
      State(workspaces, currentIndex, tools)
    }

    ghost predicate Valid()
      reads this
    {
      Policy.Valid(Abs())
    }

    /** Creates the first workspace and makes it current. */
    constructor (t: Tools)
      requires t.WellFormed()
      ensures Valid() && Abs() == Initial(t)
    {
      var (t', ws) := t.CreateWorkspace();
      tools := t';
      workspaces := [ws];
      currentIndex := 0;
    }

    /** count_windows_in_workspace: visits the windows of `ws` and counts them. */
    method CountWindowsInWorkspace(ws: WorkspaceId) returns (count: int)
      ensures count == |tools.Windows(ws)|
    {
      var windows := tools.Windows(ws);
      count := 0;
      var i := 0;
      while i < |windows|
        invariant 0 <= i <= |windows| && count == i
      {
        count := count + 1;
        i := i + 1;
      }
    }

    /** get_workspace_windows: collects the windows of `ws` in host order. */
    method GetWorkspaceWindows(ws: WorkspaceId) returns (windows: seq<WindowId>)
      ensures windows == tools.Windows(ws)
    {
      var all := tools.Windows(ws);
      windows := [];
      var i := 0;
      while i < |all|
        invariant 0 <= i <= |all| && windows == all[..i]
      {
        windows := windows + [all[i]];
        i := i + 1;
      }
    }

    /** hide_window: asks the host to minimize `w`. */
    method HideWindow(w: WindowId)
      modifies this
      ensures tools == old(tools).(log := tools.log) && tools.log == old(tools.log) + [Hide(w)]
      ensures workspaces == old(workspaces) && currentIndex == old(currentIndex)
    {
      tools := tools.Emit(Hide(w));
    }

    /** show_window: asks the host to restore `w`. */
    method ShowWindow(w: WindowId)
      modifies this
      ensures tools == old(tools).(log := tools.log) && tools.log == old(tools.log) + [Show(w)]
      ensures workspaces == old(workspaces) && currentIndex == old(currentIndex)
    {
      tools := tools.Emit(Show(w));
    }

    /** Shows `w`, gives it the size of slot `slot` out of `total` and moves it to the slot's origin. */
    method PlaceWindow(w: WindowId, slot: nat, total: int, width: nat, height: nat)
      requires slot < total <= MaxWindows
      modifies this
      ensures tools == old(tools).(log := tools.log)
      ensures tools.log == old(tools.log) + Tile(w, slot, total, width, height)
      ensures workspaces == old(workspaces) && currentIndex == old(currentIndex)
    {
      ShowWindow(w);
      tools := tools.Emit(Resize(w, SizeFor(slot, total, width, height)));
      tools := tools.Emit(Move(w, PositionFor(slot, width, height)));
    }

    /** Hides every window of `ws`, in host order. */
    method HideWorkspace(ws: WorkspaceId)
      modifies this
      ensures tools == old(tools).(log := tools.log)
      ensures tools.log == old(tools.log) + old(Hides(tools.Windows(ws)))
      ensures workspaces == old(workspaces) && currentIndex == old(currentIndex)
    {
      var windows := tools.Windows(ws);
      ghost var t0 := tools;
      var i := 0;
      while i < |windows|
        invariant 0 <= i <= |windows|
        invariant tools == t0.(log := tools.log)
        invariant tools.log == t0.log + Hides(windows[..i])
        invariant workspaces == old(workspaces) && currentIndex == old(currentIndex)
      {
        assert windows[..i + 1][..i] == windows[..i];
        HideWindow(windows[i]);
        i := i + 1;
      }
      assert windows[..i] == windows;
    }

    /** The middle part of update_windows: shows, sizes and places the windows of the current
        workspace that are not ignored, slot by slot, and selects the first of them. */
    method TileCurrent(ignorable: seq<WindowId>)
      requires Valid()
      modifies this
      ensures var windows := old(tools.Windows(Current(Abs())));
        var kept := Kept(windows, ignorable);
        tools == old(tools).(log := tools.log, active := tools.active) &&
        tools.log == old(tools.log) + Placement(kept, TileCount(windows, ignorable), old(tools.width), old(tools.height))
          + Selection(kept) &&
        tools.active == (if |kept| == 0 then old(tools.active) else Some(kept[0]))
      ensures workspaces == old(workspaces) && currentIndex == old(currentIndex)
    {
      var windows := GetWorkspaceWindows(workspaces[currentIndex]);
      var first := TileWindows(windows, ignorable, TileCount(windows, ignorable), tools.width, tools.height);
      if first.Some? {
        tools := tools.SelectActiveWindow(first.value);
      }
    }

    /** The loop over the windows of the current workspace: every window not on the ignore list
        gets the next slot of a `count`-window layout. */
    method TileWindows(windows: seq<WindowId>, ignorable: seq<WindowId>, count: int, width: nat, height: nat)
      returns (first: Option<WindowId>)
      requires count == |Kept(windows, ignorable)| <= MaxWindows
      modifies this
      ensures var kept := Kept(windows, ignorable);
        tools == old(tools).(log := tools.log) &&
        tools.log == old(tools.log) + Placement(kept, count, width, height) &&
        first == (if |kept| == 0 then None else Some(kept[0]))
      ensures workspaces == old(workspaces) && currentIndex == old(currentIndex)
    {
      ghost var t0 := tools;
      var slot := 0;
      first := None;
      var j := 0;
      while j < |windows|
        invariant j <= |windows|
        invariant workspaces == old(workspaces) && currentIndex == old(currentIndex)
        invariant tools == t0.(log := tools.log)
        invariant var p := Tiling(windows, ignorable, j, count, width, height);
          tools.log == t0.log + p.sent && slot == p.slot && first == p.first
      {
        slot, first := TileNext(windows, ignorable, j, count, width, height, slot, first, t0.log);
        j := j + 1;
      }
      TilingPlacesKept(windows, ignorable, j, count, width, height);
      KeptUpToPrefix(windows, ignorable, j);
      assert windows[..j] == windows;
    }

    /** One pass of the tiling loop: skips `windows[j]` if it is ignored, and otherwise remembers
        it if it is the first, and places it in the next slot. */
    method TileNext(windows: seq<WindowId>, ignorable: seq<WindowId>, j: nat, count: int, width: nat, height: nat,
                    slot: nat, first: Option<WindowId>, ghost start: seq<Command>)
      returns (slot': nat, first': Option<WindowId>)
      requires j < |windows| && count == |Kept(windows, ignorable)| <= MaxWindows
      requires var p := Tiling(windows, ignorable, j, count, width, height);
        tools.log == start + p.sent && slot == p.slot && first == p.first
      modifies this
      ensures tools == old(tools).(log := tools.log)
      ensures var p := Tiling(windows, ignorable, j + 1, count, width, height);
        tools.log == start + p.sent && slot' == p.slot && first' == p.first
      ensures workspaces == old(workspaces) && currentIndex == old(currentIndex)
    {
      var w := windows[j];
      slot', first' := slot, first;
      if w !in ignorable {
        if slot == 0 {
          first' := Some(w);
        }
        KeptUpToGrows(windows, ignorable, j + 1);
        ghost var sent := Tiling(windows, ignorable, j, count, width, height).sent;
        assert start + (sent + Tile(w, slot, count, width, height)) == start + sent + Tile(w, slot, count, width, height);
        PlaceWindow(w, slot, count, width, height);
        slot' := slot + 1;
      }
    }

    /** One of the two outer loops of update_windows: hides the windows of the workspaces `wss`,
        workspace by workspace. */
    method HideWorkspaces(wss: seq<WorkspaceId>)
      modifies this
      ensures tools == old(tools).(log := tools.log)
      ensures tools.log == old(tools.log) + old(HideAll(tools, wss))
      ensures workspaces == old(workspaces) && currentIndex == old(currentIndex)
    {
      ghost var t0 := tools;
      var j := 0;
      while j < |wss|
        invariant j <= |wss|
        invariant workspaces == old(workspaces) && currentIndex == old(currentIndex)
        invariant tools == t0.(log := tools.log)
        invariant tools.log == t0.log + HideAll(t0, wss[..j])
      {
        assert wss[..j + 1][..j] == wss[..j];
        HideWorkspace(wss[j]);
        j := j + 1;
      }
      assert wss[..j] == wss;
    }

    /** update_windows: hides the workspaces before the current one, tiles the current one,
        selects its first placed window, and hides the workspaces after it. */
    method UpdateWindows(ignorable: seq<WindowId>)
      requires Valid()
      modifies this
      ensures Abs() == Retile(old(Abs()), ignorable)
      ensures Valid()
    {
      ghost var s := Abs();
      ghost var windows := s.tools.Windows(Current(s));
      ghost var kept := Kept(windows, ignorable);
      ghost var pre := HideAll(s.tools, workspaces[..currentIndex]);
      ghost var place := Placement(kept, TileCount(windows, ignorable), s.tools.width, s.tools.height);
      ghost var post := HideAll(s.tools, workspaces[currentIndex + 1..]);
      HideWorkspaces(workspaces[..currentIndex]);
      TileCurrent(ignorable);
      assert tools.log == s.tools.log + pre + place + Selection(kept);
      ghost var t2 := tools;
      HideWorkspaces(workspaces[currentIndex + 1..]);
      HideAllMembersOnly(s.tools, t2, workspaces[currentIndex + 1..]);
      assert tools.log == t2.log + post;
      RetileSplit(s, ignorable);
      ghost var r := Retile(s, ignorable);
      assert tools.log == r.tools.log;
      assert tools == r.tools;
    }

    /** advise_new_window: a full current workspace makes a new one current first; the window then
        joins the current workspace. */
    method AdviseNewWindow(w: WindowId)
      requires Valid()
      modifies this
      ensures Abs() == NewWindow(old(Abs()), w)
      ensures Valid()
    {
      var current := workspaces[currentIndex];
      var count := CountWindowsInWorkspace(current);
      if count >= MaxWindows {
        var (t, created) := tools.CreateWorkspace();
        tools := t;
        workspaces := workspaces + [created];
        currentIndex := |workspaces| - 1;
        current := created;
      }
      tools := tools.AddTree(w, current);
    }

    /** advise_adding_to_workspace: retiles with nothing ignored. */
    method AdviseAddingToWorkspace(ws: WorkspaceId, windows: seq<WindowId>)
      requires Valid()
      modifies this
      ensures Abs() == AddingToWorkspace(old(Abs()))
      ensures Valid()
    {
      UpdateWindows([]);
    }

    /** advise_removing_from_workspace: `windows` are leaving `ws`; an emptied workspace is erased
        unless it is the only one, and the current workspace is retiled. */
    method AdviseRemovingFromWorkspace(ws: WorkspaceId, windows: seq<WindowId>)
      requires Valid()
      modifies this
      ensures Abs() == RemovingFromWorkspace(old(Abs()), ws, windows)
      ensures Valid()
    {
      var members := GetWorkspaceWindows(ws);
      if |workspaces| != 1 && SizeDifference(|members|, |windows|) == 0 {
        WithoutDistinct(workspaces, ws);
        workspaces := Without(workspaces, ws);
        if currentIndex == |workspaces| {
          currentIndex := currentIndex - 1;
          UpdateWindows([]);
          return;
        }
      }
      UpdateWindows(windows);
    }

    /** Asks the client of every window of `ws` to close, over the windows as they are when the
        request is made. */
    method CloseWorkspace(ws: WorkspaceId)
      modifies this
      ensures tools == old(tools).(log := tools.log)
      ensures tools.log == old(tools.log + Closes(tools.Windows(ws)))
      ensures workspaces == old(workspaces) && currentIndex == old(currentIndex)
    {
      var windows := tools.Windows(ws);
      ghost var t0 := tools;
      var i := 0;
      while i < |windows|
        invariant 0 <= i <= |windows|
        invariant tools == t0.(log := tools.log)
        invariant tools.log == t0.log + Closes(windows[..i])
        invariant workspaces == old(workspaces) && currentIndex == old(currentIndex)
      {
        assert windows[..i + 1][..i] == windows[..i];
        tools := tools.Emit(Close(windows[i]));
        i := i + 1;
      }
      assert windows[..i] == windows;
    }

    /** The Tab chord: scans the current workspace for the active window and selects the one
        after it, wrapping around. */
    method FocusNext(windows: seq<WindowId>)
      requires |windows| > 0
      modifies this
      ensures tools == old(tools).(log := tools.log, active := tools.active)
      ensures tools.active == Some(old(TabTarget(windows, tools.active)))
      ensures tools.log == old(tools.log) + [Select(old(TabTarget(windows, tools.active)))]
      ensures workspaces == old(workspaces) && currentIndex == old(currentIndex)
    {
      var active := tools.active;
      var index := -1;
      var i := 0;
      while i < |windows|
        invariant 0 <= i <= |windows| && index == -1
        invariant active.None? || active.value !in windows[..i]
      {
        if active == Some(windows[i]) {
          index := i;
          break;
        }
        assert windows[..i + 1] == windows[..i] + [windows[i]];
        i := i + 1;
      }
      if index == -1 {
        assert windows[..i] == windows;
      } else {
        IndexOfFirst(windows, active.value, index);
      }
      index := index + 1;
      if index == |windows| {
        index := 0;
      }
      tools := tools.SelectActiveWindow(windows[index]);
    }

    /** The m chord: unless the current workspace holds exactly one window, the active window
        moves to a new workspace, which becomes current; with no active window the new workspace
        stays empty. */
    method MoveActiveToNewWorkspace() returns (handled: bool)
      requires Valid()
      modifies this
      ensures (handled, Abs()) == MoveToNewWorkspace(old(Abs()))
      ensures Valid()
    {
      var current := workspaces[currentIndex];
      var active := tools.active;
      var count := CountWindowsInWorkspace(current);
      if count == 1 {
        return false;
      }
      if active.Some? {
        tools := tools.RemoveTree(active.value, current);
      }
      var (t, created) := tools.CreateWorkspace();
      tools := t;
      workspaces := workspaces + [created];
      currentIndex := |workspaces| - 1;
      if active.Some? {
        tools := tools.AddTree(active.value, created);
      }
      return true;
    }

    /** The q and e chords: the previous or the next workspace, wrapping around, becomes current
        and is retiled with nothing ignored. */
    method SwitchWorkspace(previous: bool)
      requires Valid()
      modifies this
      ensures Abs() == Retile(old(Abs()).(currentIndex := SwitchIndex(old(currentIndex), old(|workspaces|), previous)), [])
      ensures Valid()
    {
      ghost var s := Abs();
      currentIndex := SwitchIndex(currentIndex, |workspaces|, previous);
      assert Abs() == s.(currentIndex := currentIndex);
      UpdateWindows([]);
    }

    /** handle_keyboard_event: Ctrl+Alt chords on key-down; the result says whether the event
        was consumed. */
    method HandleKeyboardEvent(ev: KeyboardEvent) returns (handled: bool)
      requires Valid() && KeyboardDefined(Abs(), ev)
      modifies this
      ensures (handled, Abs()) == HandleKeyboard(old(Abs()), ev)
      ensures Valid()
    {
      ghost var s := Abs();
      if ev.action != Down || !ev.alt || !ev.ctrl {
        KeyboardGuard(s, ev);
        return false;
      }
      var current := workspaces[currentIndex];
      var active := tools.active;
      var k := ev.keysym;
      if k == KeyV || k == Keyv {
        CloseAllKey(s, ev);
        CloseWorkspace(current);
        return true;
      } else if k == KeyC || k == Keyc {
        CloseKey(s, ev);
        if active.Some? {
          tools := tools.Emit(Close(active.value));
        }
        return true;
      } else if k == KeyTab {
        TabOnlyMovesFocus(s, ev);
        var windows := GetWorkspaceWindows(current);
        FocusNext(windows);
        return true;
      } else if k == Keym || k == KeyM {
        MoveKey(s, ev);
        handled := MoveActiveToNewWorkspace();
        return;
      } else if k == Keyq || k == Keye {
        SwitchKey(s, ev);
        SwitchWorkspace(k == Keyq);
        return true;
      }
      KeyboardGuard(s, ev);
      return false;
    }
  }
}
