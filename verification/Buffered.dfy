/** Ordered batches of validated small files waiting to be written. */
module Buffered {
  import opened Octets
  import opened Components
  import opened Disk
  import opened Extraction

  /** One small file, with the capability its leaf will be written through. */
  datatype BufferedFile = BufferedFile(
    cap: Capability, path: Path, executable: bool, contents: seq<Byte>, replacement: Replacement)

  /** The capability names the file's own path. */
  ghost predicate NamesPath(d: DiskState, cap: Capability, path: Path)
  {
    cap.relative != [] && Locate(d, cap) == Some(path)
  }

  function WriteBufferedAt(d: DiskState, f: BufferedFile): WriteOutcome
  {
    match Locate(d, f.cap)
    case None => WriteOutcome(d, Some(Filesystem(CreateFile, f.path, NotFound)))
    case Some(p) => WriteBuffered(d, p, f.executable, f.contents, f.replacement)
  }

  /** The disk once the batch is written, up to its first error. */
  function Settle(d: DiskState, files: seq<BufferedFile>): WriteOutcome
    decreases |files|
  {
    if files == [] then WriteOutcome(d, None)
    else
      var first := WriteBufferedAt(d, files[0]);
      if first.error.Some? then first else Settle(first.disk, files[1..])
  }

  /** Each file's capability still names its path when its turn comes. */
  ghost predicate PendingLocated(d: DiskState, files: seq<BufferedFile>)
    decreases |files|
  {
    files == [] ||
    (&& NamesPath(d, files[0].cap, files[0].path)
     && var first := WriteBufferedAt(d, files[0]);
        first.error.None? ==> PendingLocated(first.disk, files[1..]))
  }

  function TotalBytes(files: seq<BufferedFile>): nat
  {
    if files == [] then 0 else TotalBytes(files[..|files| - 1]) + |files[|files| - 1].contents|
  }

  /** A file behind a batch is written where the batch leaves off, unless the batch fails. */
  lemma {:induction false} SettleMore(d: DiskState, files: seq<BufferedFile>, f: BufferedFile)
    ensures Settle(d, files + [f]) ==
            if Settle(d, files).error.Some? then Settle(d, files) else WriteBufferedAt(Settle(d, files).disk, f)
    decreases |files|
  {
    hide WriteBufferedAt;
    if files == [] {
      assert files + [f] == [f] && [f][1..] == [];
    } else {
      assert (files + [f])[1..] == files[1..] + [f];
      var first := WriteBufferedAt(d, files[0]);
      if first.error.None? { SettleMore(first.disk, files[1..], f); }
    }
  }

  lemma {:induction false} LocatedMore(d: DiskState, files: seq<BufferedFile>, f: BufferedFile)
    requires PendingLocated(d, files)
    requires Settle(d, files).error.None? ==> NamesPath(Settle(d, files).disk, f.cap, f.path)
    ensures PendingLocated(d, files + [f])
    decreases |files|
  {
    hide WriteBufferedAt;
    if files == [] {
      assert files + [f] == [f] && [f][1..] == [];
    } else {
      assert (files + [f])[1..] == files[1..] + [f];
      var first := WriteBufferedAt(d, files[0]);
      if first.error.None? { LocatedMore(first.disk, files[1..], f); }
    }
  }

  /** Changing the node at `p` does not move a capability that names something in another directory. */
  lemma StillNames(d: DiskState, d': DiskState, cap: Capability, path: Path, p: Path)
    requires NamesPath(d, cap, path) && SameDirsElsewhere(d, d', p) && p == path
    ensures NamesPath(d', cap, path)
  {
    if cap.handle.Some? {
      assert d.dirs[cap.handle.value] != path;
    }
  }

  /** A disk error as extraction reports it. */
  function Reported(operation: Operation, path: Path, io: Option<IoError>): Option<ExtractError>
  {
    if io.None? then None else Some(Filesystem(operation, path, io.value))
  }

  /** Removes the leaf a buffered file is to replace. */
  method RemoveBufferedLeaf(disk: FileSystem, cap: Capability, path: Path, node: Node) returns (error: Option<ExtractError>)
    requires DiskValid(disk.state) && NamesPath(disk.state, cap, path) && path in disk.state.nodes && disk.state.nodes[path] == node
    modifies disk
    ensures match RemoveLeaf(old(disk.state), path)
            case Ok(d) => error.None? && disk.state == d
            case Err(e) => error == Some(e) && disk.state == old(disk.state)
    ensures DiskValid(disk.state) && SameDirsElsewhere(old(disk.state), disk.state, path)
  {
    hide DiskValid, IsEmptyDirectory;
    DirsKept(disk.state, path, false, []);
    if node.DirNode? {
      if !disk.DirectoryIsEmpty(cap) {
        return Some(PathCollision(path));
      }
      var io := disk.Perform(cap, DropDirectory);
      return Reported(RemoveDirectoryLeaf, path, io);
    }
    var io := disk.Perform(cap, DropFile);
    return Reported(RemoveFileLeaf, path, io);
  }

  /** Opens a new file and writes it. */
  method OpenAndWrite(disk: FileSystem, cap: Capability, path: Path, executable: bool, contents: seq<Byte>)
    returns (error: Option<ExtractError>)
    requires DiskValid(disk.state) && NamesPath(disk.state, cap, path)
    modifies disk
    ensures WriteOutcome(disk.state, error) == CreateAndWrite(old(disk.state), path, executable, contents)
    ensures DiskValid(disk.state) && SameDirsElsewhere(old(disk.state), disk.state, path)
  {
    hide DiskValid;
    DirsKept(disk.state, path, executable, contents);
    var io := disk.Perform(cap, NewFile(executable));
    if io.Some? {
      return Some(Filesystem(CreateFile, path, io.value));
    }
    StillNames(old(disk.state), disk.state, cap, path, path);
    disk.AppendFile(cap, contents);
    return None;
  }

  /** Creates or safely replaces one small file. */
  method WriteBufferedFile(disk: FileSystem, f: BufferedFile) returns (error: Option<ExtractError>)
    requires DiskValid(disk.state) && NamesPath(disk.state, f.cap, f.path)
    modifies disk
    ensures WriteOutcome(disk.state, error) == WriteBufferedAt(old(disk.state), f)
    ensures DiskValid(disk.state) && SameDirsElsewhere(old(disk.state), disk.state, f.path)
  {
    hide DiskValid, CreateAndWrite, RemoveLeaf, RemoveFile, CreateNew;
    ghost var before := disk.state;
    FileSteps(before, f.path, f.executable, f.contents);
    if f.replacement == ExpectedFile {
      var removed := disk.Perform(f.cap, DropFile);
      if removed.None? {
        StillNames(before, disk.state, f.cap, f.path, f.path);
        error := OpenAndWrite(disk, f.cap, f.path, f.executable, f.contents);
        return;
      }
    }
    var created := disk.Perform(f.cap, NewFile(f.executable));
    if created.None? {
      StillNames(before, disk.state, f.cap, f.path, f.path);
      disk.AppendFile(f.cap, f.contents);
      return None;
    }
    var node := disk.Stat(f.cap);
    if node.None? {
      return Some(Filesystem(CreateFile, f.path, created.value));
    }
    if f.replacement == Disallowed {
      return Some(PathCollision(f.path));
    }
    error := RemoveBufferedLeaf(disk, f.cap, f.path, node.value);
    if error.Some? {
      return;
    }
    StillNames(before, disk.state, f.cap, f.path, f.path);
    error := OpenAndWrite(disk, f.cap, f.path, f.executable, f.contents);
  }

  /** The single steps of a buffered write, and what they keep. */
  lemma FileSteps(d: DiskState, p: Path, executable: bool, contents: seq<Byte>)
    requires DiskValid(d)
    ensures RemoveFile(d, p).Ok? ==> DiskValid(RemoveFile(d, p).value) && SameDirsElsewhere(d, RemoveFile(d, p).value, p)
    ensures CreateNew(d, p, executable).Ok? ==>
              var d' := CreateNew(d, p, executable).value;
              && DiskValid(d') && SameDirsElsewhere(d, d', p) && IsFile(d', p)
              && CreateAndWrite(d, p, executable, contents) == WriteOutcome(Append(d', p, contents), None)
              && Append(d', p, contents).dirs == d'.dirs
  {
    hide DiskValid;
    DirsKept(d, p, executable, contents);
  }

  /** A buffered write touches no directory but one it replaces. */
  lemma WriteBufferedDirs(d: DiskState, p: Path, executable: bool, contents: seq<Byte>, replacement: Replacement)
    requires DiskValid(d)
    ensures SameDirsElsewhere(d, WriteBuffered(d, p, executable, contents, replacement).disk, p)
  {
    hide DiskValid, IsEmptyDirectory, Obstacle;
    DirsKept(d, p, executable, contents);
    if RemoveFile(d, p).Ok? { DirsKept(RemoveFile(d, p).value, p, executable, contents); }
    if p in d.nodes && RemoveLeaf(d, p).Ok? { DirsKept(RemoveLeaf(d, p).value, p, executable, contents); }
  }

  /** Writes a batch in order; after the first error nothing more is written. */
  method WriteBufferedFiles(disk: FileSystem, files: seq<BufferedFile>) returns (error: Option<ExtractError>)
    requires DiskValid(disk.state) && PendingLocated(disk.state, files)
    modifies disk
    ensures WriteOutcome(disk.state, error) == Settle(old(disk.state), files)
    ensures DiskValid(disk.state)
  {
    hide DiskValid, WriteBufferedAt;
    error := None;
    assert files[0..] == files;
    for i := 0 to |files|
      invariant DiskValid(disk.state)
      invariant error.None? ==> PendingLocated(disk.state, files[i..]) && Settle(old(disk.state), files) == Settle(disk.state, files[i..])
      invariant error.Some? ==> WriteOutcome(disk.state, error) == Settle(old(disk.state), files)
    {
      if error.None? {
        assert files[i..][0] == files[i] && files[i..][1..] == files[i + 1..];
        error := WriteBufferedFile(disk, files[i]);
      }
    }
    assert files[|files|..] == [];
  }
}
