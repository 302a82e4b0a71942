/**
 * The compositor as the window manager sees it (the `tools` capability):
 * which windows each workspace holds, in the order the host reports them,
 * which window is active (if any), the size of the active output, and the commands
 * the policy has sent so far, in order. Windows and workspaces are opaque
 * handles, modelled as numbers; workspace handles are handed out fresh.
 */
module Host {
  import opened Layout
  import Seqs

  type WindowId = nat
  type WorkspaceId = nat

  /** A command the policy sends to the host. Hide and Show are modify_window requests
      for the minimized and the restored state. */
  datatype Command =
    | Hide(window: WindowId)
    | Show(window: WindowId)
    | Resize(window: WindowId, size: Size)
    | Move(window: WindowId, position: Point)
    | Select(window: WindowId)
    | Close(window: WindowId)

  datatype Option<T> = None | Some(value: T)

  /** The host state. `active` is None while no window has the focus (at startup, for one). */
  datatype Tools = Tools(
    members: map<WorkspaceId, seq<WindowId>>,
    active: Option<WindowId>,
    width: nat,
    height: nat,
    nextWorkspace: WorkspaceId,
    log: seq<Command>)
  {
    /** Every workspace the host knows was created before `nextWorkspace`. */
    predicate WellFormed()
    {
      forall ws :: ws in members ==> ws < nextWorkspace
    }

    /** for_each_window_in_workspace: the windows of `ws`, in host order (none for an unknown workspace). */
    function Windows(ws: WorkspaceId): (r: seq<WindowId>)
      ensures WellFormed() && ws >= nextWorkspace ==> r == []
    {
      if ws in members then members[ws] else []
    }

    /** create_workspace: a fresh, empty workspace. */
    function CreateWorkspace(): (r: (Tools, WorkspaceId))
      ensures r.0.Windows(r.1) == [] && r.1 == nextWorkspace < r.0.nextWorkspace
      ensures WellFormed() ==> r.0.WellFormed()
      ensures WellFormed() ==> forall ws :: ws != r.1 ==> r.0.Windows(ws) == Windows(ws)
      ensures r.0.active == active && r.0.log == log && r.0.width == width && r.0.height == height
    {
      (this.(members := members[nextWorkspace := []], nextWorkspace := nextWorkspace + 1), nextWorkspace)
    }

    /** add_tree_to_workspace: `w` joins `ws` at the end, unless it is already a member. */
    function AddTree(w: WindowId, ws: WorkspaceId): (t: Tools)
      requires ws < nextWorkspace
      ensures t.Windows(ws) == if w in Windows(ws) then Windows(ws) else Windows(ws) + [w]
      ensures forall other :: other != ws ==> t.Windows(other) == Windows(other)
      ensures WellFormed() ==> t.WellFormed()
      ensures t.active == active && t.log == log && t.nextWorkspace == nextWorkspace
      ensures t.width == width && t.height == height
    {
      this.(members := members[ws := if w in Windows(ws) then Windows(ws) else Windows(ws) + [w]])
    }

    /** remove_tree_from_workspace: `w` leaves `ws`; nothing happens if it was not a member. */
    function RemoveTree(w: WindowId, ws: WorkspaceId): (t: Tools)
      ensures w !in t.Windows(ws) && t.Windows(ws) == Seqs.Without(Windows(ws), w)
      ensures forall x :: x in t.Windows(ws) <==> x in Windows(ws) && x != w
      ensures |t.Windows(ws)| <= |Windows(ws)|
      ensures forall other :: other != ws ==> t.Windows(other) == Windows(other)
      ensures WellFormed() ==> t.WellFormed()
      ensures t.active == active && t.log == log && t.nextWorkspace == nextWorkspace
      ensures t.width == width && t.height == height
    {
      if ws in members then this.(members := members[ws := Seqs.Without(members[ws], w)]) else this
    }

    /** Sends one command that changes nothing the policy reads back. */
    function Emit(c: Command): (t: Tools)
      ensures t.log == log + [c] && t.members == members && t.active == active
      ensures t.nextWorkspace == nextWorkspace && t.width == width && t.height == height
    {
      this.(log := log + [c])
    }

    /** select_active_window: `w` becomes the active window. */
    function SelectActiveWindow(w: WindowId): (t: Tools)
      ensures t.active == Some(w) && t.log == log + [Select(w)] && t.members == members
      ensures t.nextWorkspace == nextWorkspace && t.width == width && t.height == height
    {
      this.(active := Some(w), log := log + [Select(w)])
    }
  }
}
