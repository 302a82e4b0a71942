/**
 * What the transitions of module Policy guarantee: the registry invariant
 * and the overflow rule, how removal erases and rebalances, the modular
 * switch, what one retile sends, and the keyboard commands.
 */
module PolicyProperties {
  import opened Layout
  import opened Seqs
  import opened Host
  import opened Policy

  // ---- Overflow (advise_new_window) ----

  /** A full current workspace makes advise_new_window append exactly one new workspace, make it
      current and put the window there alone; otherwise the registry stays as it is and the window
      joins the current workspace. The other workspaces keep their windows either way, and the
      cap of MaxWindows holds afterwards (the ensures of NewWindow). */
  lemma NewWindowOverflow(s: State, w: WindowId)
    requires Valid(s)
    ensures var r := NewWindow(s, w);
      var cur := Current(s);
      (|s.tools.Windows(cur)| >= MaxWindows ==>
        |r.workspaces| == |s.workspaces| + 1 && r.workspaces[..|s.workspaces|] == s.workspaces &&
        r.currentIndex == |r.workspaces| - 1 && Current(r) !in s.workspaces &&
        r.tools.Windows(Current(r)) == [w] && r.tools.Windows(cur) == s.tools.Windows(cur)) &&
      (|s.tools.Windows(cur)| < MaxWindows ==>
        r.workspaces == s.workspaces && r.currentIndex == s.currentIndex &&
        w in r.tools.Windows(cur) &&
        r.tools.Windows(cur) == (if w in s.tools.Windows(cur) then s.tools.Windows(cur) else s.tools.Windows(cur) + [w])) &&
      (forall ws :: ws in s.workspaces && ws != cur ==> r.tools.Windows(ws) == s.tools.Windows(ws)) &&
      r.tools.log == s.tools.log && r.tools.active == s.tools.active
  {
    var cur := Current(s);
    if |s.tools.Windows(cur)| >= MaxWindows {
      var r := NewWindow(s, w);
      assert r.workspaces[..|s.workspaces|] == s.workspaces;
      assert Current(r) == s.tools.nextWorkspace;
    }
  }

  // ---- Removal (advise_removing_from_workspace) ----

  /** Removal never erases the only workspace, erases at most one, and moves the index only by the
      one-step decrement, and only when the index equals the new length. */
  lemma RemovalKeepsRegistry(s: State, ws: WorkspaceId, windows: seq<WindowId>)
    requires Valid(s)
    ensures var r := RemovingFromWorkspace(s, ws, windows);
      |r.workspaces| >= 1 && r.currentIndex < |r.workspaces| &&
      (|s.workspaces| == 1 ==> r.workspaces == s.workspaces && r.currentIndex == s.currentIndex) &&
      (r.workspaces == s.workspaces || (|r.workspaces| == |s.workspaces| - 1 && ws in s.workspaces && ws !in r.workspaces)) &&
      (r.currentIndex == s.currentIndex || (r.currentIndex == s.currentIndex - 1 && s.currentIndex == |r.workspaces|)) &&
      (forall x :: x in r.workspaces <==> x in s.workspaces && (x != ws || r.workspaces == s.workspaces))
  {
    if |s.workspaces| != 1 && SizeDifference(|s.tools.Windows(ws)|, |windows|) == 0 {
      WithoutDistinct(s.workspaces, ws);
    }
  }

  /** Removal erases a workspace exactly when it is registered, is not the only one, and the
      removed windows are as many as it holds; in every other case the registry and the index stay
      as they are and the removed windows are the ignore list. */
  lemma RemovalErasesExactly(s: State, ws: WorkspaceId, windows: seq<WindowId>)
    requires Valid(s)
    requires |s.tools.Windows(ws)| < SizeTModulus && |windows| < SizeTModulus
    ensures var erased := |s.workspaces| > 1 && |s.tools.Windows(ws)| == |windows| && ws in s.workspaces;
      (RemovalUpdate(s, ws, windows).0.workspaces != s.workspaces <==> erased) &&
      (!erased ==> RemovalUpdate(s, ws, windows) == (s, windows))
  {
    WithoutDistinct(s.workspaces, ws);
  }

  /** Erasing the emptied workspace at position `p` drops exactly that position, and the index
      is decremented exactly when the current workspace was the last one (the retile that follows
      keeps both, by the ensures of Retile). */
  lemma RemovalErasesPosition(s: State, p: nat, windows: seq<WindowId>)
    requires Valid(s) && |s.workspaces| > 1 && p < |s.workspaces|
    requires |s.tools.Windows(s.workspaces[p])| == |windows| < SizeTModulus
    ensures var r := RemovalUpdate(s, s.workspaces[p], windows).0;
      r.workspaces == s.workspaces[..p] + s.workspaces[p + 1..] &&
      r.currentIndex == if s.currentIndex == |s.workspaces| - 1 then s.currentIndex - 1 else s.currentIndex
  {
    WithoutAt(s.workspaces, p);
    WithoutDistinct(s.workspaces, s.workspaces[p]);
  }

  /** Which workspace is current after the erase at position `p`. It is kept when the erased one
      lies after it, or when the current one was the last; when an earlier workspace is erased and
      the current one was not the last, the unchanged index now designates the workspace that
      followed the current one. Erasing the current workspace moves to the following one, or to
      the previous one if it was the last. */
  lemma RemovalMovesCurrent(s: State, p: nat, windows: seq<WindowId>)
    requires Valid(s) && |s.workspaces| > 1 && p < |s.workspaces|
    requires |s.tools.Windows(s.workspaces[p])| == |windows| < SizeTModulus
    ensures var r := RemovalUpdate(s, s.workspaces[p], windows).0;
      var n, i := |s.workspaces|, s.currentIndex;
      (p > i ==> Current(r) == Current(s)) &&
      (p < i && i == n - 1 ==> Current(r) == Current(s)) &&
      (p < i < n - 1 ==> r.currentIndex == i && Current(r) == s.workspaces[i + 1]) &&
      (p == i < n - 1 ==> Current(r) == s.workspaces[i + 1]) &&
      (p == i == n - 1 ==> Current(r) == s.workspaces[i - 1])
  {
    var r := RemovalUpdate(s, s.workspaces[p], windows).0;
    RemovalErasesPosition(s, p, windows);
    var n, i := |s.workspaces|, s.currentIndex;
    var rest := s.workspaces[..p] + s.workspaces[p + 1..];
    assert forall j :: 0 <= j < p ==> rest[j] == s.workspaces[j];
    assert forall j :: p <= j < n - 1 ==> rest[j] == s.workspaces[j + 1];
    assert Current(r) == rest[r.currentIndex];
  }

  /** The ignore list update_windows receives: the removed windows, except after the decrement,
      when nothing is ignored. */
  lemma RemovalIgnoreList(s: State, ws: WorkspaceId, windows: seq<WindowId>)
    requires Valid(s)
    ensures var (t, ignorable) := RemovalUpdate(s, ws, windows);
      (t.currentIndex == s.currentIndex ==> ignorable == windows) &&
      (t.currentIndex != s.currentIndex ==> ignorable == [])
  {
  }

  /** The host's own removal of a window from a workspace keeps the registry invariant. */
  lemma HostRemovalKeepsValid(s: State, w: WindowId, ws: WorkspaceId)
    requires Valid(s)
    ensures Valid(s.(tools := s.tools.RemoveTree(w, ws)))
  {
    var t := s.tools.RemoveTree(w, ws);
    forall x | x in s.workspaces ensures |t.Windows(x)| <= MaxWindows {
      if x == ws {
        assert |t.Windows(x)| <= |s.tools.Windows(x)|;
      } else {
        assert t.Windows(x) == s.tools.Windows(x);
      }
    }
  }

  // ---- The retile count (finding) ----

  /** Entries that behave alike on every window of the list filter alike. */
  lemma {:induction false} KeptAgrees(windows: seq<WindowId>, ign1: seq<WindowId>, ign2: seq<WindowId>)
    requires forall x :: x in windows ==> (x in ign1 <==> x in ign2)
    ensures Kept(windows, ign1) == Kept(windows, ign2)
    decreases |windows|
  {
    if |windows| > 0 {
      var init := windows[..|windows| - 1];
      assert forall x :: x in init ==> x in windows;
      KeptAgrees(init, ign1, ign2);
    }
  }

  /** A non-empty sequence holds its first element. Stated apart so that the empty case of
      AsWrittenCountAgrees gets its witness without a check in a branch that cannot happen. */
  lemma FirstIsMember(s: seq<WindowId>)
    ensures |s| > 0 ==> s[0] in s
  {
  }

  /** When the ignore list holds distinct windows that are all members of the workspace, the count
      update_windows uses (members minus ignore-list length) is the number of windows it places. */
  lemma {:induction false} AsWrittenCountAgrees(windows: seq<WindowId>, ignorable: seq<WindowId>)
    requires Distinct(windows) && Distinct(ignorable)
    requires forall x :: x in ignorable ==> x in windows
    ensures WindowsCountAsWritten(windows, ignorable) == TileCount(windows, ignorable)
    decreases |windows|
  {
    var n := |windows|;
    if n == 0 {
      FirstIsMember(ignorable);
    } else {
      var init, last := windows[..n - 1], windows[n - 1];
      assert windows == init + [last];
      assert Distinct(init) by {
        forall i, j | 0 <= i < j < |init| ensures init[i] != init[j] { assert init[i] == windows[i] && init[j] == windows[j]; }
      }
      assert last !in init by {
        forall i | 0 <= i < |init| ensures init[i] != last { assert init[i] == windows[i]; }
      }
      if last in ignorable {
        var rest := Without(ignorable, last);
        WithoutDistinct(ignorable, last);
        forall x | x in rest ensures x in init {
          assert x in windows && x != last;
        }
        KeptAgrees(init, ignorable, rest);
        AsWrittenCountAgrees(init, rest);
      } else {
        forall x | x in ignorable ensures x in init {
          assert x in windows && x != last;
        }
        AsWrittenCountAgrees(init, ignorable);
      }
    }
  }

  /** A registry of three workspaces whose middle one, the current one, holds the single window 11. */
  function ErasingCurrentExample(): State
  {
    State([0, 1, 2], 1, Tools(map[0 := [10], 1 := [11], 2 := [12]], Some(11), 1920, 1080, 3, []))
  }

  /** When window 11 leaves the current workspace, that workspace is erased and the index now
      designates workspace 2, but update_windows still receives [11] as its ignore list: the count
      it computes is 0, outside the 1..MaxWindows the size table is indexed by (size_for would read
      start_index[-1]), although window 12 is to be placed. */
  lemma AsWrittenCountLeavesTable()
    ensures Valid(ErasingCurrentExample())
    ensures var (t, ignorable) := RemovalUpdate(ErasingCurrentExample(), 1, [11]);
      Current(t) == 2 && ignorable == [11] &&
      WindowsCountAsWritten(t.tools.Windows(Current(t)), ignorable) == 0 &&
      TileCount(t.tools.Windows(Current(t)), ignorable) == 1
  {
    ExampleRemoval();
    assert ErasingCurrentExample().tools.Windows(2) == [12];
    assert Kept([12], [11]) == [12] by {
      assert [12][..0] == [];
    }
  }

  /** In the example, the middle workspace is erased and the index stays at 1. */
  lemma ExampleRemoval()
    ensures Valid(ErasingCurrentExample())
    ensures RemovalUpdate(ErasingCurrentExample(), 1, [11]) == (State([0, 2], 1, ErasingCurrentExample().tools), [11])
  {
    var s := ErasingCurrentExample();
    ExampleValid();
    assert s.tools.Windows(1) == [11] && SizeDifference(1, 1) == 0;
    assert Without(s.workspaces, 1) == [0, 2] by {
      WithoutAt(s.workspaces, 1);
    }
  }

  lemma ExampleValid()
    ensures Valid(ErasingCurrentExample())
  {
    var s := ErasingCurrentExample();
    assert Distinct(s.workspaces);
    forall ws | ws in s.workspaces ensures ws < s.tools.nextWorkspace && |s.tools.Windows(ws)| <= MaxWindows {
      assert ws == 0 || ws == 1 || ws == 2;
    }
  }

  // ---- Retiling (update_windows) ----

  /** The k-th hide of a workspace is for its k-th window. */
  lemma {:induction false} HidesAt(windows: seq<WindowId>)
    ensures forall k :: 0 <= k < |windows| ==> Hides(windows)[k] == Hide(windows[k])
    decreases |windows|
  {
    if |windows| > 0 {
      HidesAt(windows[..|windows| - 1]);
    }
  }

  lemma HidesMembership(windows: seq<WindowId>)
    ensures forall x :: Hide(x) in Hides(windows) <==> x in windows
  {
    HidesAt(windows);
    forall x | x in windows ensures Hide(x) in Hides(windows) {
      var i :| 0 <= i < |windows| && windows[i] == x;
      assert Hides(windows)[i] == Hide(x);
    }
  }

  /** The k-th close of a workspace is for its k-th window. */
  lemma {:induction false} ClosesAt(windows: seq<WindowId>)
    ensures forall k :: 0 <= k < |windows| ==> Closes(windows)[k] == Close(windows[k])
    decreases |windows|
  {
    if |windows| > 0 {
      ClosesAt(windows[..|windows| - 1]);
    }
  }

  /** The hides of a sweep are exactly the windows of the swept workspaces. */
  lemma {:induction false} HideAllMembership(t: Tools, wss: seq<WorkspaceId>)
    ensures forall x :: Hide(x) in HideAll(t, wss) <==> exists j :: 0 <= j < |wss| && x in t.Windows(wss[j])
    decreases |wss|
  {
    if |wss| > 0 {
      var init, last := wss[..|wss| - 1], wss[|wss| - 1];
      HideAllMembership(t, init);
      HidesMembership(t.Windows(last));
      forall x ensures Hide(x) in HideAll(t, wss) <==> exists j :: 0 <= j < |wss| && x in t.Windows(wss[j]) {
        if exists j :: 0 <= j < |wss| && x in t.Windows(wss[j]) {
          var j :| 0 <= j < |wss| && x in t.Windows(wss[j]);
          if j < |wss| - 1 {
            assert init[j] == wss[j];
          }
        }
        if Hide(x) in HideAll(t, init) {
          var j :| 0 <= j < |init| && x in t.Windows(init[j]);
          assert wss[j] == init[j];
        }
      }
    }
  }

  /** A sweep reads only the membership of the host. */
  lemma {:induction false} HideAllMembersOnly(t1: Tools, t2: Tools, wss: seq<WorkspaceId>)
    requires t1.members == t2.members
    ensures HideAll(t1, wss) == HideAll(t2, wss)
    decreases |wss|
  {
    if |wss| > 0 {
      HideAllMembersOnly(t1, t2, wss[..|wss| - 1]);
    }
  }

  lemma {:induction false} PlacementLength(v: seq<WindowId>, total: int, width: nat, height: nat)
    requires |v| <= total <= MaxWindows
    ensures |Placement(v, total, width, height)| == 3 * |v|
    decreases |v|
  {
    if |v| > 0 {
      PlacementLength(v[..|v| - 1], total, width, height);
    }
  }

  /** The k-th placed window is shown, resized to slot k's size and moved to slot k's origin. */
  lemma {:induction false} PlacementAt(v: seq<WindowId>, total: int, width: nat, height: nat, k: nat)
    requires |v| <= total <= MaxWindows && k < |v|
    ensures |Placement(v, total, width, height)| == 3 * |v|
    ensures Placement(v, total, width, height)[3 * k] == Show(v[k])
    ensures Placement(v, total, width, height)[3 * k + 1] == Resize(v[k], SizeFor(k, total, width, height))
    ensures Placement(v, total, width, height)[3 * k + 2] == Move(v[k], PositionFor(k, width, height))
    decreases |v|
  {
    var init := v[..|v| - 1];
    PlacementLength(v, total, width, height);
    PlacementLength(init, total, width, height);
    var p := Placement(init, total, width, height);
    var tile := Tile(v[|v| - 1], |v| - 1, total, width, height);
    assert Placement(v, total, width, height) == p + tile;
    if k < |v| - 1 {
      PlacementAt(init, total, width, height, k);
      assert init[k] == v[k];
    }
  }

  /** Placement shows exactly the windows it places. */
  lemma {:induction false} PlacementMembership(v: seq<WindowId>, total: int, width: nat, height: nat)
    requires |v| <= total <= MaxWindows
    ensures forall x :: Show(x) in Placement(v, total, width, height) <==> x in v
    decreases |v|
  {
    if |v| > 0 {
      var init := v[..|v| - 1];
      PlacementMembership(init, total, width, height);
      assert v == init + [v[|v| - 1]];
    }
  }

  /** Every window of every workspace other than the current one is hidden, and only those are. */
  lemma RetileHidesOthers(s: State, ignorable: seq<WindowId>, x: WindowId)
    requires Valid(s)
    ensures Hide(x) in RetileCommands(s, ignorable) <==>
      exists j :: 0 <= j < |s.workspaces| && j != s.currentIndex && x in s.tools.Windows(s.workspaces[j])
  {
    var i := s.currentIndex;
    var before, after := s.workspaces[..i], s.workspaces[i + 1..];
    var windows := s.tools.Windows(Current(s));
    var kept := Kept(windows, ignorable);
    var place := Placement(kept, TileCount(windows, ignorable), s.tools.width, s.tools.height);
    HideAllMembership(s.tools, before);
    HideAllMembership(s.tools, after);
    var hb, sel, ha := HideAll(s.tools, before), Selection(kept), HideAll(s.tools, after);
    assert RetileCommands(s, ignorable) == hb + place + sel + ha;
    assert Hide(x) !in place && Hide(x) !in sel;
    assert Hide(x) in hb + place + sel + ha <==> Hide(x) in hb || Hide(x) in ha;
    OthersAround(s.tools, s.workspaces, i, x);
  }

  /** The positions other than `i` are those before it and those after it. */
  lemma OthersAround(t: Tools, wss: seq<WorkspaceId>, i: nat, x: WindowId)
    requires i < |wss|
    ensures var before, after := wss[..i], wss[i + 1..];
      ((exists j :: 0 <= j < |before| && x in t.Windows(before[j])) ||
       (exists j :: 0 <= j < |after| && x in t.Windows(after[j]))) <==>
      exists j :: 0 <= j < |wss| && j != i && x in t.Windows(wss[j])
  {
    var before, after := wss[..i], wss[i + 1..];
    if exists j :: 0 <= j < |wss| && j != i && x in t.Windows(wss[j]) {
      var j :| 0 <= j < |wss| && j != i && x in t.Windows(wss[j]);
      if j < i {
        assert before[j] == wss[j];
      } else {
        assert after[j - i - 1] == wss[j];
      }
    }
    if exists j :: 0 <= j < |before| && x in t.Windows(before[j]) {
      var j :| 0 <= j < |before| && x in t.Windows(before[j]);
      assert before[j] == wss[j];
    }
    if exists j :: 0 <= j < |after| && x in t.Windows(after[j]) {
      var j :| 0 <= j < |after| && x in t.Windows(after[j]);
      assert after[j] == wss[i + 1 + j];
    }
  }

  /** Starting at position `start` of `cmds`, window k of `kept` gets Show, the size of slot k
      of n and the origin of slot k, for k = 0 .. n-1; right after them the first window is
      selected. */
  ghost predicate SlotsPlaced(cmds: seq<Command>, start: int, kept: seq<WindowId>, n: int, width: nat, height: nat)
  {
    |kept| == n <= MaxWindows && 0 <= start &&
    start + 3 * n + (if n > 0 then 1 else 0) <= |cmds| &&
    (forall k :: 0 <= k < n ==>
      cmds[start + 3 * k] == Show(kept[k]) &&
      cmds[start + 3 * k + 1] == Resize(kept[k], SizeFor(k, n, width, height)) &&
      cmds[start + 3 * k + 2] == Move(kept[k], PositionFor(k, width, height))) &&
    (n > 0 ==> cmds[start + 3 * n] == Select(kept[0]))
  }

  /** The current workspace's windows that are not ignored, in host order, get Show, the size of
      slot k of N and the origin of slot k, for k = 0, 1, ..., where N counts exactly those
      windows; right after them the first of them is selected. */
  lemma RetilePlacesCurrent(s: State, ignorable: seq<WindowId>)
    requires Valid(s)
    ensures var windows := s.tools.Windows(Current(s));
      var kept := Kept(windows, ignorable);
      var n := TileCount(windows, ignorable);
      var cmds := RetileCommands(s, ignorable);
      var start := |HideAll(s.tools, s.workspaces[..s.currentIndex])|;
      (forall w :: w in kept <==> w in windows && w !in ignorable) &&
      SlotsPlaced(cmds, start, kept, n, s.tools.width, s.tools.height)
  {
    var i := s.currentIndex;
    var windows := s.tools.Windows(Current(s));
    var kept := Kept(windows, ignorable);
    var n := TileCount(windows, ignorable);
    var width, height := s.tools.width, s.tools.height;
    var pre := HideAll(s.tools, s.workspaces[..i]);
    var place := Placement(kept, n, width, height);
    var rest := Selection(kept) + HideAll(s.tools, s.workspaces[i + 1..]);
    KeptMembers(windows, ignorable);
    assert pre + place + rest == pre + place + Selection(kept) + HideAll(s.tools, s.workspaces[i + 1..]);
    PlacedSlots(RetileCommands(s, ignorable), pre, kept, n, width, height, rest);
  }

  /** The slot commands of a placement, found after any prefix `pre` and before any suffix. */
  lemma PlacedSlots(cmds: seq<Command>, pre: seq<Command>, kept: seq<WindowId>, n: int, width: nat, height: nat,
                    rest: seq<Command>)
    requires |kept| == n <= MaxWindows && cmds == pre + Placement(kept, n, width, height) + rest
    requires n > 0 ==> |rest| > 0 && rest[0] == Select(kept[0])
    ensures SlotsPlaced(cmds, |pre|, kept, n, width, height)
  {
    var place := Placement(kept, n, width, height);
    PlacementLength(kept, n, width, height);
    forall k | 0 <= k < n
      ensures cmds[|pre| + 3 * k] == Show(kept[k])
      ensures cmds[|pre| + 3 * k + 1] == Resize(kept[k], SizeFor(k, n, width, height))
      ensures cmds[|pre| + 3 * k + 2] == Move(kept[k], PositionFor(k, width, height))
    {
      PlacementAt(kept, n, width, height, k);
      assert cmds[|pre| + 3 * k] == place[3 * k];
      assert cmds[|pre| + 3 * k + 1] == place[3 * k + 1];
      assert cmds[|pre| + 3 * k + 2] == place[3 * k + 2];
    }
    if n > 0 {
      assert cmds[|pre| + 3 * n] == rest[0];
    }
  }

  /** A placement grows by one window's tile commands, in the next slot. */
  lemma PlacementSnoc(v: seq<WindowId>, w: WindowId, total: int, width: nat, height: nat)
    requires |v| < total <= MaxWindows
    ensures Placement(v + [w], total, width, height) ==
      Placement(v, total, width, height) + Tile(w, |v|, total, width, height)
  {
    assert (v + [w])[..|v|] == v;
  }

  // ---- The tiling loop of update_windows, front to back ----

  /** The windows of `windows[..j]` that are not ignored, collected front to back. */
  function KeptUpTo(windows: seq<WindowId>, ignorable: seq<WindowId>, j: nat): (r: seq<WindowId>)
    requires j <= |windows|
    ensures |r| <= j
  {
    if j == 0 then []
    else if windows[j - 1] in ignorable then KeptUpTo(windows, ignorable, j - 1)
    else KeptUpTo(windows, ignorable, j - 1) + [windows[j - 1]]
  }

  /** Collected front to back, the kept windows of a prefix are Kept of that prefix. */
  lemma {:induction false} KeptUpToPrefix(windows: seq<WindowId>, ignorable: seq<WindowId>, j: nat)
    requires j <= |windows|
    ensures KeptUpTo(windows, ignorable, j) == Kept(windows[..j], ignorable)
  {
    if j > 0 {
      KeptUpToPrefix(windows, ignorable, j - 1);
      assert windows[..j][..j - 1] == windows[..j - 1];
    }
  }

  /** A prefix keeps no more windows than the whole list. */
  lemma {:induction false} KeptUpToGrows(windows: seq<WindowId>, ignorable: seq<WindowId>, j: nat)
    requires j <= |windows|
    ensures |KeptUpTo(windows, ignorable, j)| <= |Kept(windows, ignorable)|
    decreases |windows| - j
  {
    if j < |windows| {
      KeptUpToGrows(windows, ignorable, j + 1);
    } else {
      KeptUpToPrefix(windows, ignorable, j);
      assert windows[..j] == windows;
    }
  }

  /** Where the tiling loop stands: the commands it has sent, the next free slot, and the
      first window it placed. */
  datatype Progress = Progress(sent: seq<Command>, slot: nat, first: Option<WindowId>)

  /** The tiling loop after its first `j` windows: each window not on the ignore list is shown,
      sized and moved into the next slot of a `count`-window layout, and the first such window
      is remembered. */
  function Tiling(windows: seq<WindowId>, ignorable: seq<WindowId>, j: nat, count: int, width: nat, height: nat)
    : (p: Progress)
    requires j <= |windows| && count == |Kept(windows, ignorable)| <= MaxWindows
    ensures p.slot == |KeptUpTo(windows, ignorable, j)|
  {
    if j == 0 then Progress([], 0, None)
    else
      var p := Tiling(windows, ignorable, j - 1, count, width, height);
      var w := windows[j - 1];
      if w in ignorable then p
      else
        KeptUpToGrows(windows, ignorable, j);
        Progress(p.sent + Tile(w, p.slot, count, width, height), p.slot + 1, if p.slot == 0 then Some(w) else p.first)
  }

  /** The tiling loop places the kept windows slot by slot, and remembers the first of them. */
  lemma {:induction false} TilingPlacesKept(windows: seq<WindowId>, ignorable: seq<WindowId>, j: nat,
                                            count: int, width: nat, height: nat)
    requires j <= |windows| && count == |Kept(windows, ignorable)| <= MaxWindows
    ensures var v := KeptUpTo(windows, ignorable, j);
      var p := Tiling(windows, ignorable, j, count, width, height);
      |v| <= count && p.sent == Placement(v, count, width, height) &&
      p.first == (if |v| == 0 then None else Some(v[0]))
  {
    KeptUpToGrows(windows, ignorable, j);
    if j > 0 {
      TilingPlacesKept(windows, ignorable, j - 1, count, width, height);
      var v := KeptUpTo(windows, ignorable, j - 1);
      if windows[j - 1] !in ignorable {
        PlacementSnoc(v, windows[j - 1], count, width, height);
      }
    }
  }

  /** One retile field by field: its commands in their four parts, and the active window it leaves. */
  lemma RetileSplit(s: State, ignorable: seq<WindowId>)
    requires Valid(s)
    ensures var windows := s.tools.Windows(Current(s));
      var kept := Kept(windows, ignorable);
      var r := Retile(s, ignorable);
      r.workspaces == s.workspaces && r.currentIndex == s.currentIndex &&
      r.tools == s.tools.(log := r.tools.log, active := r.tools.active) &&
      r.tools.log == s.tools.log + HideAll(s.tools, s.workspaces[..s.currentIndex])
        + Placement(kept, TileCount(windows, ignorable), s.tools.width, s.tools.height)
        + Selection(kept)
        + HideAll(s.tools, s.workspaces[s.currentIndex + 1..]) &&
      r.tools.active == if |kept| == 0 then s.tools.active else Some(kept[0])
  {
    var windows := s.tools.Windows(Current(s));
    var kept := Kept(windows, ignorable);
    var pre := HideAll(s.tools, s.workspaces[..s.currentIndex]);
    var place := Placement(kept, TileCount(windows, ignorable), s.tools.width, s.tools.height);
    var sel := Selection(kept);
    var post := HideAll(s.tools, s.workspaces[s.currentIndex + 1..]);
    var cmds := RetileCommands(s, ignorable);
    assert cmds == pre + place + sel + post;
    assert Retile(s, ignorable).tools.log == s.tools.log + cmds;
    assert s.tools.log + (pre + place + sel + post) == s.tools.log + pre + place + sel + post;
  }

  /** One retile shows exactly the current workspace's windows that are not ignored, selects at most
      the first of them, and that window becomes active; with none, the active window stays. */
  lemma RetileShowsAndSelects(s: State, ignorable: seq<WindowId>)
    requires Valid(s)
    ensures var kept := Kept(s.tools.Windows(Current(s)), ignorable);
      var cmds := RetileCommands(s, ignorable);
      (forall x :: Show(x) in cmds <==> x in kept) &&
      (forall x :: Select(x) in cmds <==> |kept| > 0 && x == kept[0]) &&
      Retile(s, ignorable).tools.active == (if |kept| > 0 then Some(kept[0]) else s.tools.active)
  {
    var i := s.currentIndex;
    var windows := s.tools.Windows(Current(s));
    var kept := Kept(windows, ignorable);
    var n := TileCount(windows, ignorable);
    var pre, post := HideAll(s.tools, s.workspaces[..i]), HideAll(s.tools, s.workspaces[i + 1..]);
    var place := Placement(kept, n, s.tools.width, s.tools.height);
    var cmds := RetileCommands(s, ignorable);
    assert cmds == pre + place + Selection(kept) + post;
    HideAllMembership(s.tools, s.workspaces[..i]);
    HideAllMembership(s.tools, s.workspaces[i + 1..]);
    PlacementMembership(kept, n, s.tools.width, s.tools.height);
    forall x ensures Show(x) in cmds <==> x in kept {
      if Show(x) in cmds {
        assert Show(x) in pre || Show(x) in place || Show(x) in Selection(kept) || Show(x) in post;
      }
    }
    forall x ensures Select(x) in cmds <==> |kept| > 0 && x == kept[0] {
      if Select(x) in cmds {
        assert Select(x) in pre || Select(x) in place || Select(x) in Selection(kept) || Select(x) in post;
      }
    }
  }

  /** A second retile with no change in between sends the same commands again. */
  lemma RetileIdempotent(s: State, ignorable: seq<WindowId>)
    requires Valid(s)
    ensures RetileCommands(Retile(s, ignorable), ignorable) == RetileCommands(s, ignorable)
    ensures Retile(Retile(s, ignorable), ignorable).tools.active == Retile(s, ignorable).tools.active
  {
    var r := Retile(s, ignorable);
    HideAllMembersOnly(r.tools, s.tools, s.workspaces[..s.currentIndex]);
    HideAllMembersOnly(r.tools, s.tools, s.workspaces[s.currentIndex + 1..]);
  }

  // ---- Switch (keys q and e) ----

  lemma ModBelowTwice(x: int, n: int)
    requires 0 < n && 0 <= x < 2 * n
    ensures x % n == if x < n then x else x - n
  {
    if x >= n {
      assert (x - n) % n == x % n by {
        assert x == (x - n) + n;
      }
    }
  }

  /** q steps back and e steps forward, both wrapping around; with one workspace neither moves. */
  lemma SwitchIsModular(i: nat, n: nat)
    requires i < n
    ensures SwitchIndex(i, n, true) == if i == 0 then n - 1 else i - 1
    ensures SwitchIndex(i, n, false) == if i == n - 1 then 0 else i + 1
    ensures n == 1 ==> SwitchIndex(i, n, true) == i && SwitchIndex(i, n, false) == i
  {
    ModBelowTwice(i + n - 1, n);
    ModBelowTwice(i + 1, n);
  }

  /** q then e, and e then q, come back to the original index. */
  lemma SwitchRoundTrip(i: nat, n: nat)
    requires i < n
    ensures SwitchIndex(SwitchIndex(i, n, true), n, false) == i
    ensures SwitchIndex(SwitchIndex(i, n, false), n, true) == i
  {
    SwitchIsModular(i, n);
    SwitchIsModular(SwitchIndex(i, n, true), n);
    SwitchIsModular(SwitchIndex(i, n, false), n);
  }

  // ---- Keyboard (handle_keyboard_event) ----

  predicate Chord(ev: KeyboardEvent)
  {
    ev.action == Down && ev.alt && ev.ctrl
  }

  predicate Bound(k: int)
  {
    k in {KeyV, Keyv, KeyC, Keyc, KeyTab, Keym, KeyM, Keyq, Keye}
  }

  /** Events that are not a key press with both Ctrl and Alt, and unbound keys, are not consumed
      and change nothing. */
  lemma KeyboardGuard(s: State, ev: KeyboardEvent)
    requires Valid(s) && KeyboardDefined(s, ev)
    requires !Chord(ev) || !Bound(ev.keysym)
    ensures HandleKeyboard(s, ev) == (false, s)
  {
  }

  /** v asks every window of the current workspace, as listed when the key is handled, to close,
      and changes nothing else. */
  lemma CloseAllSnapshot(s: State, ev: KeyboardEvent)
    requires Valid(s) && Chord(ev) && (ev.keysym == KeyV || ev.keysym == Keyv)
    ensures var (handled, r) := HandleKeyboard(s, ev);
      var windows := s.tools.Windows(Current(s));
      handled && r.workspaces == s.workspaces && r.currentIndex == s.currentIndex &&
      r.tools.members == s.tools.members && r.tools.active == s.tools.active &&
      |r.tools.log| == |s.tools.log| + |windows| && r.tools.log[..|s.tools.log|] == s.tools.log &&
      forall k :: 0 <= k < |windows| ==> r.tools.log[|s.tools.log| + k] == Close(windows[k])
  {
    var r := HandleKeyboard(s, ev).1;
    ClosesAt(s.tools.Windows(Current(s)));
    assert r.tools.log == s.tools.log + Closes(s.tools.Windows(Current(s)));
  }

  /** The v chord sends a Close for every window of the current workspace. */
  lemma CloseAllKey(s: State, ev: KeyboardEvent)
    requires Valid(s) && Chord(ev) && (ev.keysym == KeyV || ev.keysym == Keyv)
    ensures HandleKeyboard(s, ev) ==
      (true, s.(tools := s.tools.(log := s.tools.log + Closes(s.tools.Windows(Current(s))))))
  {
  }

  /** The c chord sends a Close for the active window, and nothing when there is none; it is
      consumed either way. */
  lemma CloseKey(s: State, ev: KeyboardEvent)
    requires Valid(s) && Chord(ev) && (ev.keysym == KeyC || ev.keysym == Keyc)
    ensures s.tools.active.Some? ==>
      HandleKeyboard(s, ev) == (true, s.(tools := s.tools.Emit(Close(s.tools.active.value))))
    ensures s.tools.active.None? ==> HandleKeyboard(s, ev) == (true, s)
  {
  }

  /** A position holding `x` with no earlier `x` is the position IndexOf finds. */
  lemma IndexOfFirst(s: seq<WindowId>, x: WindowId, i: nat)
    requires i < |s| && s[i] == x && x !in s[..i]
    ensures IndexOf(s, x) == i
  {
  }

  /** Tab selects the window after the active one in host order, wrapping to the first;
      when there is no active window or it is not in the workspace, the first window. */
  lemma TabCycles(windows: seq<WindowId>, active: Option<WindowId>)
    requires |windows| > 0
    ensures active.Some? && active.value in windows ==>
      TabTarget(windows, active) == windows[(IndexOf(windows, active.value) + 1) % |windows|]
    ensures active.None? || active.value !in windows ==> TabTarget(windows, active) == windows[0]
  {
    var next := ActiveIndex(windows, active) + 1;
    ModBelowTwice(next, |windows|);
  }

  /** Over distinct windows, Tab from the window at position p lands on position p + 1 mod N. */
  lemma TabVisitsNext(windows: seq<WindowId>, p: nat)
    requires Distinct(windows) && p < |windows|
    ensures TabTarget(windows, Some(windows[p])) == windows[(p + 1) % |windows|]
  {
    TabCycles(windows, Some(windows[p]));
  }

  /** Tab only moves the focus: it selects the Tab target and changes nothing else. */
  lemma TabOnlyMovesFocus(s: State, ev: KeyboardEvent)
    requires Valid(s) && KeyboardDefined(s, ev) && Chord(ev) && ev.keysym == KeyTab
    ensures var target := TabTarget(s.tools.Windows(Current(s)), s.tools.active);
      HandleKeyboard(s, ev) == (true, s.(tools := s.tools.(active := Some(target), log := s.tools.log + [Select(target)])))
  {
  }

  /** The m chord is the move to a new workspace. */
  lemma MoveKey(s: State, ev: KeyboardEvent)
    requires Valid(s) && Chord(ev) && (ev.keysym == Keym || ev.keysym == KeyM)
    ensures HandleKeyboard(s, ev) == MoveToNewWorkspace(s)
  {
  }

  /** m on a workspace of exactly one window is refused and changes nothing; otherwise the
      active window leaves the current workspace for a fresh one appended to the registry, which
      becomes current and holds only that window (nothing, when no window is active), and every
      other workspace keeps its windows. */
  lemma MoveToNewWorkspaceEffect(s: State)
    requires Valid(s)
    ensures var (handled, r) := MoveToNewWorkspace(s);
      var cur, a := Current(s), s.tools.active;
      (|s.tools.Windows(cur)| == 1 ==> !handled && r == s) &&
      (|s.tools.Windows(cur)| != 1 ==>
        handled && |r.workspaces| == |s.workspaces| + 1 && r.workspaces[..|s.workspaces|] == s.workspaces &&
        r.currentIndex == |r.workspaces| - 1 && Current(r) !in s.workspaces &&
        r.tools.Windows(Current(r)) == (if a.Some? then [a.value] else []) &&
        (forall x :: x in r.tools.Windows(cur) <==> x in s.tools.Windows(cur) && a != Some(x)) &&
        (a.None? ==> r.tools.Windows(cur) == s.tools.Windows(cur)) &&
        (a.Some? ==> r.tools.Windows(cur) == Without(s.tools.Windows(cur), a.value)) &&
        r.tools.log == s.tools.log && r.tools.active == s.tools.active &&
        (forall ws :: ws in s.workspaces && ws != cur ==> r.tools.Windows(ws) == s.tools.Windows(ws)))
  {
    var cur := Current(s);
    if |s.tools.Windows(cur)| != 1 {
      var r := MoveToNewWorkspace(s).1;
      assert r.workspaces[..|s.workspaces|] == s.workspaces;
      assert Current(r) == s.tools.nextWorkspace;
    }
  }

  /** The q chord and the e chord change only the index, to the previous and to the next
      workspace, and retile with nothing ignored. */
  lemma SwitchKey(s: State, ev: KeyboardEvent)
    requires Valid(s) && Chord(ev) && (ev.keysym == Keyq || ev.keysym == Keye)
    ensures HandleKeyboard(s, ev) ==
      (true, Retile(s.(currentIndex := SwitchIndex(s.currentIndex, |s.workspaces|, ev.keysym == Keyq)), []))
  {
  }

  /** q retiles the previous workspace without touching the registry or the window membership,
      and q followed by e returns to the original workspace. */
  lemma SwitchKeys(s: State, q: KeyboardEvent, e: KeyboardEvent)
    requires Valid(s) && Chord(q) && q.keysym == Keyq && Chord(e) && e.keysym == Keye
    ensures var (handled, r) := HandleKeyboard(s, q);
      handled && r == Retile(s.(currentIndex := SwitchIndex(s.currentIndex, |s.workspaces|, true)), []) &&
      r.workspaces == s.workspaces && r.tools.members == s.tools.members
    ensures var r := HandleKeyboard(HandleKeyboard(s, q).1, e).1;
      r.workspaces == s.workspaces && r.currentIndex == s.currentIndex
  {
    SwitchKey(s, q);
    var r1 := HandleKeyboard(s, q).1;
    SwitchKey(r1, e);
    SwitchRoundTrip(s.currentIndex, |s.workspaces|);
  }
}
