/** An abstract disk below the destination directory: named nodes, inodes, and directory handles. */
module Disk {
  import opened Octets
  import opened Components

  datatype Node = DirNode(id: nat) | FileNode(id: nat) | LinkNode(target: seq<Byte>)

  datatype FileData = FileData(contents: seq<Byte>, executable: bool)

  /** `dirs` finds the directory an open handle stands for; a removed directory has no entry. */
  datatype DiskState = DiskState(nodes: map<Path, Node>, dirs: map<nat, Path>, files: map<nat, FileData>, nextId: nat)

  datatype IoError = AlreadyExists | NotFound | NotADirectory | IsADirectory | DirectoryNotEmpty | NotAFile

  function ParentOf(path: Path): Path
    requires path != []
  {
    path[..|path| - 1]
  }

  predicate IsDirectory(d: DiskState, path: Path) { path in d.nodes && d.nodes[path].DirNode? }

  predicate IsFile(d: DiskState, path: Path) { path in d.nodes && d.nodes[path].FileNode? }

  /** Every node lies in a directory, and ids, handles and inodes are consistent. */
  ghost predicate DiskValid(d: DiskState)
  {
    && IsDirectory(d, [])
    && (forall p :: p in d.nodes && p != [] ==> IsDirectory(d, ParentOf(p)))
    && (forall p :: p in d.nodes ==> NodeValid(d, p))
    && (forall id :: id in d.dirs ==> d.dirs[id] in d.nodes && d.nodes[d.dirs[id]] == DirNode(id))
    && (forall id :: id in d.files ==> id < d.nextId)
  }

  ghost predicate NodeValid(d: DiskState, p: Path)
    requires p in d.nodes
  {
    match d.nodes[p]
    case DirNode(id) => id < d.nextId && id in d.dirs && d.dirs[id] == p
    case FileNode(id) => id in d.files
    case LinkNode(_) => true
  }

  /** Whether a new name may be made here. */
  predicate CanHold(d: DiskState, path: Path) { path != [] && IsDirectory(d, ParentOf(path)) }

  predicate IsEmptyDirectory(d: DiskState, path: Path)
  {
    IsDirectory(d, path) && forall q :: q in d.nodes && q != [] ==> ParentOf(q) != path
  }

  /** What keeps a new name from being made. */
  function Obstacle(d: DiskState, path: Path): Option<IoError>
  {
    if !CanHold(d, path) then Some(NotFound) else if path in d.nodes then Some(AlreadyExists) else None
  }

  function CreateNew(d: DiskState, path: Path, executable: bool): (r: Result<DiskState, IoError>)
    ensures r.Ok? <==> Obstacle(d, path).None?
    ensures DiskValid(d) && r.Ok? ==> DiskValid(r.value) && IsFile(r.value, path)
  {
    match Obstacle(d, path)
    case Some(e) => Err(e)
    case None =>
      Ok(d.(nodes := d.nodes[path := FileNode(d.nextId)], files := d.files[d.nextId := FileData([], executable)],
            nextId := d.nextId + 1))
  }

  /** Writes behind what the file at `path` holds, seen through every name of the file. */
  function Append(d: DiskState, path: Path, bytes: seq<Byte>): (r: DiskState)
    requires IsFile(d, path)
    ensures DiskValid(d) ==> DiskValid(r)
    ensures r.nodes == d.nodes
  {
    var id := d.nodes[path].id;
    if id in d.files then d.(files := d.files[id := d.files[id].(contents := d.files[id].contents + bytes)]) else d
  }

  function Truncate(d: DiskState, path: Path): (r: Result<DiskState, IoError>)
    ensures r.Ok? <==> IsFile(d, path)
    ensures DiskValid(d) && r.Ok? ==> DiskValid(r.value) && r.value.nodes == d.nodes
  {
    if !IsFile(d, path) then Err(NotAFile)
    else
      var id := d.nodes[path].id;
      if id in d.files then Ok(d.(files := d.files[id := d.files[id].(contents := [])])) else Ok(d)
  }

  function CreateDir(d: DiskState, path: Path): (r: Result<DiskState, IoError>)
    ensures r.Ok? <==> Obstacle(d, path).None?
    ensures DiskValid(d) && r.Ok? ==> DiskValid(r.value) && IsDirectory(r.value, path)
  {
    match Obstacle(d, path)
    case Some(e) => Err(e)
    case None => Ok(d.(nodes := d.nodes[path := DirNode(d.nextId)], dirs := d.dirs[d.nextId := path], nextId := d.nextId + 1))
  }

  function RemoveDir(d: DiskState, path: Path): (r: Result<DiskState, IoError>)
    ensures r.Ok? <==> path != [] && IsEmptyDirectory(d, path)
    ensures DiskValid(d) && r.Ok? ==> DiskValid(r.value) && r.value.nodes == d.nodes - {path}
  {
    hide DiskValid;
    if !IsDirectory(d, path) then Err(NotADirectory)
    else if path == [] || !IsEmptyDirectory(d, path) then Err(DirectoryNotEmpty)
    else
      DirectoryRemoved(d, path);
      Ok(d.(nodes := d.nodes - {path}, dirs := d.dirs - {d.nodes[path].id}))
  }

  lemma DirectoryRemoved(d: DiskState, path: Path)
    requires path != [] && IsEmptyDirectory(d, path)
    ensures DiskValid(d) ==> DiskValid(d.(nodes := d.nodes - {path}, dirs := d.dirs - {d.nodes[path].id}))
  {
    if DiskValid(d) {
      var d' := d.(nodes := d.nodes - {path}, dirs := d.dirs - {d.nodes[path].id});
      forall p | p in d'.nodes ensures NodeValid(d', p) && (p != [] ==> IsDirectory(d', ParentOf(p))) {
        assert NodeValid(d, p) && NodeValid(d, path);
      }
      forall id | id in d'.dirs ensures d'.dirs[id] in d'.nodes && d'.nodes[d'.dirs[id]] == DirNode(id) {
        assert d.nodes[d.dirs[id]] == DirNode(id);
      }
    }
  }

  /** Removes a file's name or a link; the file's data stays reachable through its other names. */
  function RemoveFile(d: DiskState, path: Path): (r: Result<DiskState, IoError>)
    ensures r.Ok? <==> path in d.nodes && !d.nodes[path].DirNode?
    ensures DiskValid(d) && r.Ok? ==> DiskValid(r.value) && r.value.nodes == d.nodes - {path}
  {
    if path !in d.nodes then Err(NotFound)
    else if d.nodes[path].DirNode? then Err(IsADirectory)
    else Ok(d.(nodes := d.nodes - {path}))
  }

  function HardLink(d: DiskState, target: Path, path: Path): (r: Result<DiskState, IoError>)
    ensures r.Ok? <==> IsFile(d, target) && Obstacle(d, path).None?
    ensures DiskValid(d) && r.Ok? ==> DiskValid(r.value) && IsFile(r.value, path)
  {
    if !IsFile(d, target) then Err(NotAFile)
    else
      match Obstacle(d, path)
      case Some(e) => Err(e)
      case None => Ok(d.(nodes := d.nodes[path := d.nodes[target]]))
  }

  function MakeLink(d: DiskState, path: Path, target: seq<Byte>): (r: Result<DiskState, IoError>)
    ensures r.Ok? <==> Obstacle(d, path).None?
    ensures DiskValid(d) && r.Ok? ==> DiskValid(r.value) && r.value.nodes == d.nodes[path := LinkNode(target)]
  {
    match Obstacle(d, path)
    case Some(e) => Err(e)
    case None => Ok(d.(nodes := d.nodes[path := LinkNode(target)]))
  }

  // ------------------------------------------------------------ capabilities

  /** A directory handle and a path below it; no handle is the destination root. */
  datatype Capability = Capability(handle: Option<nat>, relative: Path)

  /** The path a capability names now; none through the handle of a removed directory. */
  function Locate(d: DiskState, cap: Capability): Option<Path>
  {
    match cap.handle
    case None => Some(cap.relative)
    case Some(id) => if id in d.dirs then Some(d.dirs[id] + cap.relative) else None
  }

  /** Handles to directories other than the one at `p` stay what they were. */
  ghost predicate SameDirsElsewhere(d: DiskState, d': DiskState, p: Path)
  {
    forall id :: id in d.dirs && d.dirs[id] != p ==> id in d'.dirs && d'.dirs[id] == d.dirs[id]
  }

  lemma DirsKept(d: DiskState, p: Path, executable: bool, bytes: seq<Byte>)
    requires DiskValid(d)
    ensures CreateNew(d, p, executable).Ok? ==> SameDirsElsewhere(d, CreateNew(d, p, executable).value, p)
    ensures CreateDir(d, p).Ok? ==> SameDirsElsewhere(d, CreateDir(d, p).value, p)
    ensures RemoveDir(d, p).Ok? ==> SameDirsElsewhere(d, RemoveDir(d, p).value, p)
    ensures RemoveFile(d, p).Ok? ==> SameDirsElsewhere(d, RemoveFile(d, p).value, p)
  {
    RemovalKeepsDirs(d, p);
    hide Obstacle, IsEmptyDirectory, RemoveDir;
  }

  lemma RemovalKeepsDirs(d: DiskState, p: Path)
    requires DiskValid(d)
    ensures RemoveDir(d, p).Ok? ==> SameDirsElsewhere(d, RemoveDir(d, p).value, p)
  {
    if RemoveDir(d, p).Ok? {
      assert NodeValid(d, p);
      hide DiskValid;
    }
  }

  /** A change at one name. */
  datatype DiskChange =
    | NewFile(executable: bool)
    | NewDirectory
    | DropDirectory
    | DropFile
    | EmptyFile
    | NewLink(target: seq<Byte>)

  function Change(d: DiskState, path: Path, change: DiskChange): Result<DiskState, IoError>
  {
    match change
    case NewFile(executable) => CreateNew(d, path, executable)
    case NewDirectory => CreateDir(d, path)
    case DropDirectory => RemoveDir(d, path)
    case DropFile => RemoveFile(d, path)
    case EmptyFile => Truncate(d, path)
    case NewLink(target) => MakeLink(d, path, target)
  }

  /** A change at the path a capability names; through a stale handle nothing is found. */
  function ChangeAt(d: DiskState, cap: Capability, change: DiskChange): Result<DiskState, IoError>
  {
    match Locate(d, cap)
    case None => Err(NotFound)
    case Some(p) => Change(d, p, change)
  }

  /** The disk as a mutable object; every operation names its node through a capability. */
  class FileSystem {
    var state: DiskState

    constructor (initial: DiskState)
      ensures state == initial
    {
      state := initial;
    }

    /** What is at a name, not following a link there. */
    function Stat(cap: Capability): (node: Option<Node>)
      reads this
      ensures Locate(state, cap).Some? ==>
                var p := Locate(state, cap).value; node == if p in state.nodes then Some(state.nodes[p]) else None
    {
      match Locate(state, cap)
      case None => None
      case Some(p) => if p in state.nodes then Some(state.nodes[p]) else None
    }

    predicate DirectoryIsEmpty(cap: Capability)
      reads this
      ensures Locate(state, cap).Some? ==> (DirectoryIsEmpty(cap) <==> IsEmptyDirectory(state, Locate(state, cap).value))
    {
      match Locate(state, cap)
      case None => false
      case Some(p) => IsEmptyDirectory(state, p)
    }

    /** One change takes effect whole or reports why not. */
    method Perform(cap: Capability, change: DiskChange) returns (error: Option<IoError>)
      modifies this
      ensures match ChangeAt(old(state), cap, change)
              case Ok(d) => error.None? && state == d
              case Err(e) => error == Some(e) && state == old(state)
    {
      match ChangeAt(state, cap, change)
      case Ok(d) =>
        state := d;
        return None;
      case Err(e) => return Some(e);
    }

    method AppendFile(cap: Capability, bytes: seq<Byte>)
      modifies this
      ensures Locate(old(state), cap).Some? ==>
                var p := Locate(old(state), cap).value;
                state == if IsFile(old(state), p) then Append(old(state), p, bytes) else old(state)
    {
      match Locate(state, cap)
      case None =>
      case Some(p) => if IsFile(state, p) { state := Append(state, p, bytes); }
    }

    /** Makes a directory and opens it. */
    method CreateAndOpen(cap: Capability) returns (handle: Result<nat, IoError>)
      modifies this
      ensures match ChangeAt(old(state), cap, NewDirectory)
              case Ok(d) => handle == Ok(old(state).nextId) && state == d
              case Err(e) => handle == Err(e) && state == old(state)
    {
      var id := state.nextId;
      var error := Perform(cap, NewDirectory);
      return if error.None? then Ok(id) else Err(error.value);
    }

    /** Opens an existing directory. */
    method OpenDir(cap: Capability) returns (handle: Result<nat, IoError>)
      ensures handle.Ok? <==> Locate(state, cap).Some? && IsDirectory(state, Locate(state, cap).value)
      ensures handle.Ok? ==> state.nodes[Locate(state, cap).value] == DirNode(handle.value)
    {
      match Locate(state, cap)
      case None => return Err(NotFound);
      case Some(p) =>
        if IsDirectory(state, p) {
          return Ok(state.nodes[p].id);
        }
        return Err(NotADirectory);
    }

    method LinkFile(target: Path, path: Path) returns (error: Option<IoError>)
      modifies this
      ensures match HardLink(old(state), target, path)
              case Ok(d) => error.None? && state == d
              case Err(e) => error == Some(e) && state == old(state)
    {
      match HardLink(state, target, path)
      case Ok(d) =>
        state := d;
        return None;
      case Err(e) => return Some(e);
    }
  }
}
