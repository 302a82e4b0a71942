/**
 * The tiling policy as a state machine over values: the registry of
 * workspaces with its current index, together with the host state. Each
 * hook of the window manager is a function from the old state to the new
 * one; the class in module Manager is proved to perform exactly these
 * transitions, and the lemmas in module PolicyProperties state what they
 * guarantee.
 */
module Policy {
  import opened Layout
  import opened Seqs
  import opened Host

  datatype State = State(workspaces: seq<WorkspaceId>, currentIndex: nat, tools: Tools)

  /** The registry invariant: at least one workspace, the index in range, no workspace
      listed twice, every listed workspace created by the host, none holding more than
      MaxWindows windows. */
  ghost predicate Valid(s: State)
  {
    |s.workspaces| >= 1 && s.currentIndex < |s.workspaces| && Distinct(s.workspaces) &&
    s.tools.WellFormed() &&
    (forall ws :: ws in s.workspaces ==> ws < s.tools.nextWorkspace && |s.tools.Windows(ws)| <= MaxWindows)
  }

  /** get_current_workspace: the lookup `workspaces.at(current_workspace_index)` never fails. */
  function Current(s: State): (ws: WorkspaceId)
    requires Valid(s)
    ensures ws in s.workspaces && |s.tools.Windows(ws)| <= MaxWindows
  {
    s.workspaces[s.currentIndex]
  }

  /** Appending a newly created workspace keeps the registry invariant. */
  lemma AppendFresh(s: State, t: Tools, created: WorkspaceId, n: nat)
    requires Valid(s) && t.WellFormed()
    requires created == s.tools.nextWorkspace < t.nextWorkspace && |t.Windows(created)| <= n <= MaxWindows
    requires forall ws :: ws in s.workspaces ==> |t.Windows(ws)| <= |s.tools.Windows(ws)|
    ensures Valid(State(s.workspaces + [created], |s.workspaces|, t))
  {
    var wss := s.workspaces + [created];
    forall i, j | 0 <= i < j < |wss| ensures wss[i] != wss[j] {
      if j == |wss| - 1 {
        assert wss[i] in s.workspaces;
      } else {
        assert wss[i] == s.workspaces[i] && wss[j] == s.workspaces[j];
      }
    }
    forall ws | ws in wss ensures ws < t.nextWorkspace && |t.Windows(ws)| <= MaxWindows {
      if ws != created {
        assert ws in s.workspaces;
      }
    }
  }

  /** The constructor: one new, empty workspace, and it is current. */
  function Initial(t: Tools): (s: State)
    requires t.WellFormed()
    ensures Valid(s) && |s.workspaces| == 1 && s.currentIndex == 0
    ensures s.tools.Windows(Current(s)) == [] && s.tools.log == t.log
  {
    var (t', ws) := t.CreateWorkspace();
    State([ws], 0, t')
  }

  /** advise_new_window: a full current workspace spills the new window into a new one. */
  function NewWindow(s: State, w: WindowId): (r: State)
    requires Valid(s)
    ensures Valid(r)
  {
    var cur := Current(s);
    if |s.tools.Windows(cur)| >= MaxWindows then
      var (t, created) := s.tools.CreateWorkspace();
      var t' := t.AddTree(w, created);
      AppendFresh(s, t', created, 1);
      State(s.workspaces + [created], |s.workspaces|, t')
    else
      s.(tools := s.tools.AddTree(w, cur))
  }

  // ---- Retiling (update_windows) ----

  /** A Hide command for each window, in order. */
  function Hides(windows: seq<WindowId>): (r: seq<Command>)
    ensures |r| == |windows|
    ensures forall c :: c in r ==> c.Hide?
  {
    if |windows| == 0 then [] else Hides(windows[..|windows| - 1]) + [Hide(windows[|windows| - 1])]
  }

  /** A Close command for each window, in order. */
  function Closes(windows: seq<WindowId>): (r: seq<Command>)
    ensures |r| == |windows|
    ensures forall c :: c in r ==> c.Close?
  {
    if |windows| == 0 then [] else Closes(windows[..|windows| - 1]) + [Close(windows[|windows| - 1])]
  }

  /** Hide commands for the windows of the workspaces `wss`, workspace by workspace. */
  function HideAll(t: Tools, wss: seq<WorkspaceId>): (r: seq<Command>)
    ensures forall c :: c in r ==> c.Hide?
  {
    if |wss| == 0 then [] else HideAll(t, wss[..|wss| - 1]) + Hides(t.Windows(wss[|wss| - 1]))
  }

  /** The windows that are not on the ignore list, in their original order (what they are is
      stated by KeptMembers). */
  function Kept(windows: seq<WindowId>, ignorable: seq<WindowId>): (r: seq<WindowId>)
    ensures |r| <= |windows|
  {
    if |windows| == 0 then []
    else
      var init, last := windows[..|windows| - 1], windows[|windows| - 1];
      assert windows == init + [last];
      var rest := Kept(init, ignorable);
      if last in ignorable then rest else rest + [last]
  }

  /** Kept keeps exactly the windows that are not ignored, and with nothing of the list ignored,
      the whole list. */
  lemma {:induction false} KeptMembers(windows: seq<WindowId>, ignorable: seq<WindowId>)
    ensures forall w :: w in Kept(windows, ignorable) <==> w in windows && w !in ignorable
    ensures (forall w :: w in windows ==> w !in ignorable) ==> Kept(windows, ignorable) == windows
    decreases |windows|
  {
    if |windows| > 0 {
      var init, last := windows[..|windows| - 1], windows[|windows| - 1];
      assert windows == init + [last];
      KeptMembers(init, ignorable);
    }
  }

  /** The commands that place window `w` in slot `slot` of a `total`-window layout. */
  function Tile(w: WindowId, slot: nat, total: int, width: nat, height: nat): (r: seq<Command>)
    requires slot < total <= MaxWindows
    ensures |r| == 3 && forall c :: c in r ==> c.window == w
  {
    [Show(w), Resize(w, SizeFor(slot, total, width, height)), Move(w, PositionFor(slot, width, height))]
  }

  /** Tile commands for `v`, its k-th window in slot k. */
  function Placement(v: seq<WindowId>, total: int, width: nat, height: nat): (r: seq<Command>)
    requires |v| <= total <= MaxWindows
    ensures forall c :: c in r ==> c.Show? || c.Resize? || c.Move?
  {
    if |v| == 0 then []
    else Placement(v[..|v| - 1], total, width, height) + Tile(v[|v| - 1], |v| - 1, total, width, height)
  }

  /** windows_count as update_windows computes it: every entry of the ignore list is
      subtracted, whether or not it belongs to the workspace. */
  function WindowsCountAsWritten(windows: seq<WindowId>, ignorable: seq<WindowId>): (n: int)
    ensures n <= |windows|
    ensures |ignorable| > |windows| ==> n < 0
  {
    |windows| - |ignorable|
  }

  /** The number of windows update_windows places: those not on the ignore list. */
  function TileCount(windows: seq<WindowId>, ignorable: seq<WindowId>): (n: nat)
    ensures n <= |windows|
    ensures (forall w :: w in windows ==> w !in ignorable) ==> n == |windows|
  {
    KeptMembers(windows, ignorable);
    |Kept(windows, ignorable)|
  }

  /** A Select for the first placed window, if there is one. */
  function Selection(kept: seq<WindowId>): (r: seq<Command>)
    ensures |r| == (if |kept| == 0 then 0 else 1)
    ensures forall c :: c in r ==> c.Select? && c.window in kept
  {
    if |kept| == 0 then [] else [Select(kept[0])]
  }

  /** The commands one run of update_windows sends, in order; a retile never closes a window. */
  function RetileCommands(s: State, ignorable: seq<WindowId>): (r: seq<Command>)
    requires Valid(s)
    ensures forall c :: c in r ==> !c.Close?
  {
    var windows := s.tools.Windows(Current(s));
    var kept := Kept(windows, ignorable);
    HideAll(s.tools, s.workspaces[..s.currentIndex])
      + Placement(kept, TileCount(windows, ignorable), s.tools.width, s.tools.height)
      + Selection(kept)
      + HideAll(s.tools, s.workspaces[s.currentIndex + 1..])
  }

  /** update_windows: sends the retile commands; the first placed window becomes active. */
  function Retile(s: State, ignorable: seq<WindowId>): (r: State)
    requires Valid(s)
    ensures Valid(r)
    ensures r.workspaces == s.workspaces && r.currentIndex == s.currentIndex
    ensures r.tools.members == s.tools.members && r.tools.log == s.tools.log + RetileCommands(s, ignorable)
  {
    var kept := Kept(s.tools.Windows(Current(s)), ignorable);
    var active := if |kept| == 0 then s.tools.active else Some(kept[0]);
    s.(tools := s.tools.(log := s.tools.log + RetileCommands(s, ignorable), active := active))
  }

  // ---- Removal (advise_removing_from_workspace) ----

  /** One more than the largest size_t value. */
  const SizeTModulus: int := 0x1_0000_0000_0000_0000

  /** `a - b` on size_t: the difference wraps around instead of going negative. */
  function SizeDifference(a: nat, b: nat): (d: nat)
    ensures d < SizeTModulus
    ensures a < SizeTModulus && b < SizeTModulus ==> (d == 0 <==> a == b)
  {
    (a - b) % SizeTModulus
  }

  /** The registry change advise_removing_from_workspace makes before it retiles, and the
      ignore list it retiles with. */
  function RemovalUpdate(s: State, ws: WorkspaceId, windows: seq<WindowId>): (r: (State, seq<WindowId>))
    requires Valid(s)
    ensures Valid(r.0) && r.0.tools == s.tools
  {
    if |s.workspaces| != 1 && SizeDifference(|s.tools.Windows(ws)|, |windows|) == 0 then
      var rest := Without(s.workspaces, ws);
      WithoutDistinct(s.workspaces, ws);
      if s.currentIndex == |rest| then
        (State(rest, s.currentIndex - 1, s.tools), [])
      else
        (State(rest, s.currentIndex, s.tools), windows)
    else
      (s, windows)
  }

  /** advise_removing_from_workspace: erase an emptied workspace if it is not the only one,
      keep the index in range, retile. */
  function RemovingFromWorkspace(s: State, ws: WorkspaceId, windows: seq<WindowId>): (r: State)
    requires Valid(s)
    ensures Valid(r)
  {
    var (t, ignorable) := RemovalUpdate(s, ws, windows);
    Retile(t, ignorable)
  }

  /** advise_adding_to_workspace: retile with nothing ignored. */
  function AddingToWorkspace(s: State): (r: State)
    requires Valid(s)
    ensures Valid(r)
  {
    Retile(s, [])
  }

  // ---- Modify requests (handle_modify_window) ----

  datatype WindowState =
    | Unknown | Restored | Minimized | Maximized | VertMaximized | Fullscreen | HorizMaximized | Hidden | Attached

  datatype ModifyOutcome = Swallowed | DelegatedToBase

  /** handle_modify_window: a client's request for the maximized, minimized or restored state is
      dropped; every other request (including one that asks for no state) goes to the base policy. */
  function HandleModifyWindow(requested: Option<WindowState>): (r: ModifyOutcome)
    ensures r == Swallowed <==> requested.Some? && requested.value in {Maximized, Minimized, Restored}
  {
    match requested
    case Some(Maximized) => Swallowed
    case Some(Minimized) => Swallowed
    case Some(Restored) => Swallowed
    case _ => DelegatedToBase
  }

  // ---- Keyboard (handle_keyboard_event) ----

  datatype KeyboardAction = Up | Down | Repeat

  /** A key event: its action, whether Alt and Ctrl are held, and its XKB keysym. */
  datatype KeyboardEvent = KeyboardEvent(action: KeyboardAction, alt: bool, ctrl: bool, keysym: int)

  const KeyC: int := 0x0043
  const Keyc: int := 0x0063
  const Keye: int := 0x0065
  const KeyM: int := 0x004d
  const Keym: int := 0x006d
  const Keyq: int := 0x0071
  const KeyTab: int := 0xff09
  const KeyV: int := 0x0056
  const Keyv: int := 0x0076

  /** The position of the first `x` in `s`, or -1. */
  function IndexOf(s: seq<WindowId>, x: WindowId): (i: int)
    ensures -1 <= i < |s|
    ensures i == -1 <==> x !in s
    ensures i >= 0 ==> s[i] == x && x !in s[..i]
  {
    if |s| == 0 then -1
    else if s[0] == x then 0
    else
      var j := IndexOf(s[1..], x);
      if j == -1 then -1
      else
        assert s[..j + 1] == [s[0]] + s[1..][..j];
        j + 1
  }

  /** Where the Tab scan finds the active window: -1 when there is none or it is not listed. */
  function ActiveIndex(windows: seq<WindowId>, active: Option<WindowId>): (i: int)
    ensures -1 <= i < |windows|
    ensures i == -1 <==> active.None? || active.value !in windows
    ensures i >= 0 ==> active == Some(windows[i]) && windows[i] !in windows[..i]
  {
    if active.None? then -1 else IndexOf(windows, active.value)
  }

  /** The window Tab moves focus to: the one after the active window, wrapping to the first. */
  function TabTarget(windows: seq<WindowId>, active: Option<WindowId>): (r: WindowId)
    requires |windows| > 0
    ensures r in windows
  {
    var next := ActiveIndex(windows, active) + 1;
    windows[if next == |windows| then 0 else next]
  }

  /** The index q (previous) or e (next) switches to, in size_t arithmetic. */
  function SwitchIndex(i: nat, n: nat, previous: bool): (j: nat)
    requires i < n
    ensures j < n
  {
    (i + (if previous then n - 1 else 1)) % n
  }

  /** The m key: the active window leaves the current workspace for a new one, which becomes current;
      refused when the current workspace holds exactly one window. With no active window the new
      workspace is created and made current all the same, and stays empty. */
  function MoveToNewWorkspace(s: State): (r: (bool, State))
    requires Valid(s)
    ensures Valid(r.1)
  {
    var cur := Current(s);
    var active := s.tools.active;
    if |s.tools.Windows(cur)| == 1 then (false, s)
    else
      var t := if active.Some? then s.tools.RemoveTree(active.value, cur) else s.tools;
      var (t', created) := t.CreateWorkspace();
      var t'' := if active.Some? then t'.AddTree(active.value, created) else t';
      AppendFresh(s, t'', created, 1);
      (true, State(s.workspaces + [created], |s.workspaces|, t''))
  }

  /** The single case handle_keyboard_event cannot handle: Tab on an empty workspace. */
  ghost predicate KeyboardDefined(s: State, ev: KeyboardEvent)
    requires Valid(s)
  {
    ev.action == Down && ev.alt && ev.ctrl && ev.keysym == KeyTab ==> |s.tools.Windows(Current(s))| > 0
  }

  /** handle_keyboard_event: whether the event was consumed, and the new state. */
  function HandleKeyboard(s: State, ev: KeyboardEvent): (r: (bool, State))
    requires Valid(s) && KeyboardDefined(s, ev)
    ensures Valid(r.1)
    ensures !r.0 ==> r.1 == s
  {
    if ev.action != Down then (false, s)
    else if !ev.alt || !ev.ctrl then (false, s)
    else
      var cur := Current(s);
      var active := s.tools.active;
      var k := ev.keysym;
      if k == KeyV || k == Keyv then
        (true, s.(tools := s.tools.(log := s.tools.log + Closes(s.tools.Windows(cur)))))
      else if k == KeyC || k == Keyc then
        (true, if active.Some? then s.(tools := s.tools.Emit(Close(active.value))) else s)
      else if k == KeyTab then
        (true, s.(tools := s.tools.SelectActiveWindow(TabTarget(s.tools.Windows(cur), active))))
      else if k == Keym || k == KeyM then
        MoveToNewWorkspace(s)
      else if k == Keyq || k == Keye then
        (true, Retile(s.(currentIndex := SwitchIndex(s.currentIndex, |s.workspaces|, k == Keyq)), []))
      else
        (false, s)
  }
}
