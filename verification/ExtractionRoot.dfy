/** The extraction engine: an arena of owned paths, a cached directory handle and a delayed batch of small files. */
module ExtractionRoot {
  import opened Octets
  import opened Components
  import opened Paths
  import opened Disk
  import opened Extraction
  import opened Buffered
  import opened ComponentTree
  import opened Links

  /** A deferred link with the arena nodes of its leaf and its directory. */
  datatype PendingSymlink = PendingSymlink(entry: nat, parent: nat, link: PendingLink)

  function LinksOf(symlinks: seq<PendingSymlink>): (links: seq<PendingLink>)
    ensures |links| == |symlinks|
  {
    seq(|symlinks|, i requires 0 <= i < |symlinks| => symlinks[i].link)
  }

  class ExtractionRoot {
    const disk: FileSystem
    /** The last directory made or opened: its arena node and its open handle. */
    var directoryHandle: Option<(nat, nat)>
    const allowOverwrites: bool
    const maxEntries: nat
    const maxBytes: nat
    const entries: ComponentTree<Component, ExtractedEntry>
    var symlinks: seq<PendingSymlink>
    var bufferedFiles: seq<BufferedFile>
    var bufferedFileBytes: nat
    /** Where one-at-a-time extraction of the same members stands. */
    ghost var now: Outcome

    /** The world with a given disk under this tree and these links. */
    ghost function On(d: DiskState): World
      reads this, entries
    {
      World(d, entries.Contents(), LinksOf(symlinks))
    }

    ghost function Here(): World
      reads this, entries, disk
    {
      On(disk.state)
    }

    /** The cached handle is open on the directory its node names. */
    ghost predicate HandleFits(d: DiskState)
      reads this, entries
    {
      directoryHandle.Some? ==>
        var (entry, id) := directoryHandle.value;
        entry < |entries.paths| && id in d.dirs && d.dirs[id] == entries.paths[entry]
    }

    /** Each deferred link remembers the nodes of its own path and directory. */
    ghost predicate LinkNodes()
      reads this, entries
    {
      forall i :: 0 <= i < |symlinks| ==> NodesOf(symlinks[i])
    }

    ghost predicate NodesOf(s: PendingSymlink)
      reads entries
    {
      && s.link.path != []
      && s.entry < |entries.paths| && entries.paths[s.entry] == s.link.path
      && s.parent < |entries.paths| && entries.paths[s.parent] == ParentOf(s.link.path)
    }

    /** Nothing is pending, and disk, tree, links and cache agree. */
    ghost predicate Settled()
      reads this, entries, disk
    {
      && entries.Valid() && LinkNodes() && bufferedFiles == [] && bufferedFileBytes == 0
      && Coherent(Here()) && HandleFits(disk.state)
    }

    /** The pending batch is bounded, and writing it leads to where one-at-a-time extraction stands, error included. */
    ghost predicate Agrees()
      reads this, entries, disk
    {
      && entries.Valid() && LinkNodes() && 0 < maxEntries && BUFFERED_PAYLOAD_MAX_BYTES <= maxBytes
      && bufferedFileBytes == TotalBytes(bufferedFiles) <= maxBytes && |bufferedFiles| <= maxEntries
      && DiskValid(disk.state) && PendingLocated(disk.state, bufferedFiles)
      && var settled := Settle(disk.state, bufferedFiles);
         match settled.error
         case Some(e) => now == Stopped(settled.disk, e)
         case None => now == Going(On(settled.disk)) && Coherent(On(settled.disk)) && HandleFits(settled.disk)
    }

    /** Between members the batch has room left. */
    ghost predicate Valid()
      reads this, entries, disk
    {
      Agrees() && |bufferedFiles| < maxEntries
    }

    constructor (disk: FileSystem, allowOverwrites: bool, maxEntries: nat, maxBytes: nat)
      requires DiskValid(disk.state) && 0 < maxEntries && BUFFERED_PAYLOAD_MAX_BYTES <= maxBytes
      ensures Valid() && this.disk == disk && this.allowOverwrites == allowOverwrites && fresh(entries)
      ensures now == Going(Opened(disk.state))
    {
      this.disk := disk;
      this.allowOverwrites, this.maxEntries, this.maxBytes := allowOverwrites, maxEntries, maxBytes;
      directoryHandle, symlinks, bufferedFiles, bufferedFileBytes := None, [], [], 0;
      entries := new ComponentTree(Some(AmbientDirectory));
      now := Going(Opened(disk.state));
      new;
      assert LinksOf(symlinks) == [];
    }

    /** What a settled step came to. */
    ghost function Result(error: Option<ExtractError>): Outcome
      reads this, entries, disk
    {
      if error.Some? then Stopped(disk.state, error.value) else Going(Here())
    }

    // ------------------------------------------------------------- the batch

    /** Writes the pending batch; whatever it meets is what one-at-a-time extraction met. */
    method FlushBufferedFiles() returns (error: Option<ExtractError>)
      requires Agrees()
      modifies this`bufferedFiles, this`bufferedFileBytes, disk
      ensures bufferedFiles == [] && bufferedFileBytes == 0
      ensures error.Some? ==> now == Stopped(disk.state, error.value)
      ensures error.None? ==> Valid() && Settled() && now == Going(Here())
    {
      hide ComponentTree.Valid, ComponentTree.Contents, Coherent, DiskValid, WriteBufferedAt;
      if bufferedFiles == [] {
        return None;
      }
      bufferedFileBytes := 0;
      var files := bufferedFiles;
      bufferedFiles := [];
      error := WriteBufferedFiles(disk, files);
    }

    // ---------------------------------------------------------- capabilities

    /** A node's name through the nearest directory at hand: the root, the cached directory, or the whole path from the root. */
    function EntryCapability(path: Path, parent: nat): (cap: Capability)
      requires path != []
      reads this
      ensures cap.relative != []
    {
      if parent == ROOT_NODE then Capability(None, [path[|path| - 1]])
      else if directoryHandle.Some? && directoryHandle.value.0 == parent then
        Capability(Some(directoryHandle.value.1), [path[|path| - 1]])
      else Capability(None, path)
    }

    /** Whichever way it is formed, the capability names the path. */
    lemma CapabilityNames(d: DiskState, path: Path, parent: nat)
      requires HandleFits(d) && path != [] && |entries.paths| > 0 && entries.paths[ROOT_NODE] == []
      requires parent < |entries.paths| && entries.paths[parent] == ParentOf(path)
      ensures NamesPath(d, EntryCapability(path, parent), path)
    {
      assert path == ParentOf(path) + [path[|path| - 1]];
      if parent == ROOT_NODE {
        assert path == [path[|path| - 1]];
      }
    }

    /** A node of the arena at a path below an owned directory's node. */
    ghost predicate At(path: Path, entry: nat, parent: nat)
      reads entries
    {
      && path != []
      && entry < |entries.paths| && entries.paths[entry] == path
      && parent < |entries.paths| && entries.paths[parent] == ParentOf(path)
    }

    // ------------------------------------------------------- replacing a leaf

    /** Whether policy and owned children allow replacing a node. */
    predicate CanReplaceEntry(entry: nat)
      requires entries.Valid()
      reads this, entries
      ensures entry < |entries.paths| && Coherent(Here()) ==>
                (CanReplaceEntry(entry) <==> CanReplace(Here(), allowOverwrites, entries.paths[entry]))
    {
      assert entry < |entries.paths| ==>
          (entries.HasActiveChildren(entry) <==> HasActiveChildren(entries.Contents(), entries.paths[entry])) by {
        if entry < |entries.paths| { ChildrenByComponent(entries.Contents(), entries.paths[entry]); }
      }
      allowOverwrites && !entries.HasActiveChildren(entry)
    }

    /** Removes a leaf; a directory's cached handle goes with it. */
    method RemoveLeafAt(path: Path, entry: nat, parent: nat, node: Disk.Node) returns (error: Option<ExtractError>)
      requires Settled() && At(path, entry, parent)
      requires path in disk.state.nodes && disk.state.nodes[path] == node
      modifies this`directoryHandle, disk
      ensures match RemoveLeaf(old(disk.state), path)
              case Ok(d) => error.None? && disk.state == d && HandleFits(disk.state) && SameDirsElsewhere(old(disk.state), d, path)
              case Err(e) => error == Some(e) && disk.state == old(disk.state)
    {
      hide ComponentTree.Valid, ComponentTree.Contents, DiskValid, IsEmptyDirectory;
      entries.Sizes();
      CapabilityNames(disk.state, path, parent);
      DirsKept(disk.state, path, false, []);
      HandleElsewhere(path, entry);
      if node.DirNode? {
        if !disk.DirectoryIsEmpty(EntryCapability(path, parent)) {
          return Some(PathCollision(path));
        }
        var cap := EntryCapability(path, parent);
        if directoryHandle.Some? && directoryHandle.value.0 == entry {
          directoryHandle := None;
        }
        CapabilityNames(disk.state, path, parent);
        var io := disk.Perform(EntryCapability(path, parent), DropDirectory);
        return Reported(RemoveDirectoryLeaf, path, io);
      }
      var io := disk.Perform(EntryCapability(path, parent), DropFile);
      return Reported(RemoveFileLeaf, path, io);
    }

    /** A handle cached for another node is open on another directory, and none is open on a node that is not one. */
    lemma HandleElsewhere(path: Path, entry: nat)
      requires Settled() && entry < |entries.paths| && entries.paths[entry] == path
      ensures directoryHandle.Some? && (directoryHandle.value.0 != entry || !IsDirectory(disk.state, path)) ==>
                disk.state.dirs[directoryHandle.value.1] != path
    {
      entries.SameId(if directoryHandle.Some? then directoryHandle.value.0 else entry, entry);
    }

    /** Clears a leaf for something else, if there is anything and policy allows it. */
    method ReplaceLeafAt(path: Path, entry: nat, parent: nat) returns (error: Option<ExtractError>, replaced: bool)
      requires Settled() && At(path, entry, parent)
      modifies this`directoryHandle, disk, entries`nodes
      ensures match ReplaceLeaf(old(Here()), allowOverwrites, path)
              case NothingThere => error.None? && !replaced && Settled() && Here() == old(Here())
              case NotReplaced(e) => error == Some(e) && disk.state == old(disk.state)
              case Replaced(w) => error.None? && replaced && Settled() && Here() == w
    {
      hide ComponentTree.Valid, ComponentTree.Contents, DiskValid, Coherent, RemoveLeaf, HasActiveChildren;
      entries.Sizes();
      CapabilityNames(disk.state, path, parent);
      ReplaceLeafKeeps(Here(), allowOverwrites, path);
      var node := disk.Stat(EntryCapability(path, parent));
      if node.None? && entries.State(entry).None? {
        return None, false;
      }
      if !CanReplaceEntry(entry) {
        return Some(PathCollision(path)), false;
      }
      if node.Some? {
        error := RemoveLeafAt(path, entry, parent, node.value);
        if error.Some? {
          return error, false;
        }
      }
      entries.ClearState(entry);
      return None, true;
    }

    // ------------------------------------------------------------ directories

    /** Records a directory just made or opened, keeping its handle. */
    method RecordDirectory(path: Path, entry: nat, id: nat, state: ExtractedEntry)
      requires entries.Valid() && LinkNodes() && bufferedFiles == [] && bufferedFileBytes == 0
      requires entry < |entries.paths| && entries.paths[entry] == path
      requires id in disk.state.dirs && disk.state.dirs[id] == path
      requires Coherent(World(disk.state, entries.Contents()[path := state], LinksOf(symlinks)))
      modifies this`directoryHandle, entries`nodes
      ensures Settled() && Here() == World(disk.state, old(entries.Contents())[path := state], LinksOf(symlinks))
    {
      hide ComponentTree.Valid, ComponentTree.Contents, DiskValid, Coherent;
      directoryHandle := Some((entry, id));
      entries.SetState(entry, state);
    }

    method CreateInPlaceAt(path: Path, entry: nat, parent: nat) returns (error: Option<ExtractError>)
      requires Settled() && At(path, entry, parent) && OwnedDirectory(entries.Contents(), ParentOf(path))
      modifies this`directoryHandle, disk, entries`nodes
      ensures CreateInPlace(old(Here()), path) == Result(error)
      ensures error.None? ==> Settled()
    {
      hide ComponentTree.Valid, ComponentTree.Contents, DiskValid, Coherent;
      entries.Sizes();
      CapabilityNames(disk.state, path, parent);
      CreateInPlaceKeeps(Here(), path);
      CoherentDisk(Here());
      NewDirectoryId(disk.state, path);
      ghost var before := Here();
      var created := disk.CreateAndOpen(EntryCapability(path, parent));
      match created
      case Err(e) => return Some(Filesystem(CreateDirectory, path, e));
      case Ok(id) =>
        RecordDirectory(path, entry, id, CreatedDirectory);
        return None;
    }

    method MakeDirectoryAt(path: Path, entry: nat, parent: nat, explicit: bool) returns (error: Option<ExtractError>)
      requires Settled() && At(path, entry, parent) && OwnedDirectory(entries.Contents(), ParentOf(path))
      requires path !in entries.Contents()
      modifies this`directoryHandle, disk, entries`nodes
      ensures MakeDirectory(old(Here()), allowOverwrites, path, explicit) == Result(error)
      ensures error.None? ==> Settled()
    {
      hide ComponentTree.Valid, ComponentTree.Contents, DiskValid, Coherent, ReplaceLeaf, CreateInPlace, EntryCapability;
      entries.Sizes();
      CapabilityNames(disk.state, path, parent);
      MakeDirectoryKeeps(Here(), allowOverwrites, path, explicit);
      CoherentDisk(Here());
      NewDirectoryId(disk.state, path);
      var created := disk.CreateAndOpen(EntryCapability(path, parent));
      if created.Ok? {
        RecordDirectory(path, entry, created.value, CreatedDirectory);
        return None;
      }
      var node := disk.Stat(EntryCapability(path, parent));
      if node.Some? && node.value.DirNode? {
        error := AdoptDirectory(path, entry, parent);
        return;
      }
      if node.None? {
        return Some(Filesystem(CreateDirectory, path, created.error));
      }
      if !explicit {
        return Some(PathCollision(path));
      }
      ReplaceLeafKeeps(Here(), allowOverwrites, path);
      var replaced;
      error, replaced := ReplaceLeafAt(path, entry, parent);
      if error.Some? { return; }
      error := CreateInPlaceAt(path, entry, parent);
    }

    /** An existing directory is opened and used as it is. */
    method AdoptDirectory(path: Path, entry: nat, parent: nat) returns (error: Option<ExtractError>)
      requires Settled() && At(path, entry, parent) && OwnedDirectory(entries.Contents(), ParentOf(path))
      requires IsDirectory(disk.state, path)
      modifies this`directoryHandle, entries`nodes
      ensures Result(error) == Going(old(Here()).(tree := old(Here()).tree[path := AmbientDirectory]))
      ensures error.None? ==> Settled()
    {
      hide ComponentTree.Valid, ComponentTree.Contents, DiskValid;
      entries.Sizes();
      CapabilityNames(disk.state, path, parent);
      CoherentSet(Here(), path, AmbientDirectory, disk.state);
      HandleOfDirectory(disk.state, path);
      var handle := disk.OpenDir(EntryCapability(path, parent));
      if handle.Err? {
        return Some(Filesystem(OpenDirectory, path, NotADirectory));
      }
      RecordDirectory(path, entry, handle.value, AmbientDirectory);
      return None;
    }

    method EnsureDirectoryAt(path: Path, entry: nat, parent: nat, explicit: bool) returns (error: Option<ExtractError>)
      requires Settled() && At(path, entry, parent) && OwnedDirectory(entries.Contents(), ParentOf(path))
      modifies this`directoryHandle, disk, entries`nodes
      ensures EnsureDirectory(old(Here()), allowOverwrites, path, explicit) == Result(error)
      ensures error.None? ==> Settled()
    {
      hide ComponentTree.Valid, ComponentTree.Contents, DiskValid, Coherent, ReplaceLeaf, MakeDirectory;
      var state := entries.State(entry);
      if state.Some? && IsDir(state.value) {
        return None;
      }
      if state.Some? {
        if !explicit {
          return Some(PathCollision(path));
        }
        ReplaceLeafKeeps(Here(), allowOverwrites, path);
        var replaced;
        error, replaced := ReplaceLeafAt(path, entry, parent);
        if error.Some? { return; }
      }
      error := MakeDirectoryAt(path, entry, parent, explicit);
    }

    /** A child node of a settled tree; making one owns nothing. */
    method ChildNode(parent: nat, component: Component) returns (entry: nat)
      requires Settled() && parent < |entries.paths|
      modifies entries
      ensures Settled() && Here() == old(Here())
      ensures |old(entries.paths)| <= |entries.paths| && forall i :: 0 <= i < |old(entries.paths)| ==> entries.paths[i] == old(entries.paths)[i]
      ensures entry < |entries.paths| && entries.paths[entry] == entries.paths[parent] + [component]
    {
      hide ComponentTree.Valid, ComponentTree.Contents, Coherent;
      entries.Sizes();
      entry := entries.EnsureChild(parent, component);
      if directoryHandle.Some? {
        assert entries.paths[directoryHandle.value.0] == old(entries.paths)[directoryHandle.value.0];
      }
      assert LinkNodes() by { assert forall i :: 0 <= i < |symlinks| ==> old(NodesOf(symlinks[i])); }
    }

    /** Makes every directory above the path, outermost first. */
    method EnsureParentsAt(path: Path) returns (error: Option<ExtractError>, parent: nat)
      requires Settled() && path != []
      modifies this`directoryHandle, disk, entries
      ensures EnsureParents(old(Here()), allowOverwrites, path, |path| - 1) == Result(error)
      ensures error.None? ==> Settled() && parent < |entries.paths| && entries.paths[parent] == ParentOf(path)
    {
      hide ComponentTree.Valid, ComponentTree.Contents, DiskValid, Coherent, EnsureDirectory;
      entries.Sizes();
      parent := ROOT_NODE;
      for i := 0 to |path| - 1
        invariant Settled() && parent < |entries.paths| && entries.paths[parent] == path[..i]
        invariant EnsureParents(old(Here()), allowOverwrites, path, i) == Going(Here())
      {
        assert path[..i] + [path[i]] == path[..i + 1] && ParentOf(path[..i + 1]) == path[..i];
        EnsureParentsKeeps(old(Here()), allowOverwrites, path, i);
        var entry := ChildNode(parent, path[i]);
        assert entries.paths[parent] == path[..i];
        error := EnsureDirectoryAt(path[..i + 1], entry, parent, false);
        if error.Some? {
          ParentsStop(old(Here()), allowOverwrites, path, i + 1, |path| - 1);
          return;
        }
        parent := entry;
      }
      return None, parent;
    }

    /** The node of the directory a path lies in, when all of them are owned already. */
    method KnownParent(path: Path) returns (parent: Option<nat>)
      requires entries.Valid() && path != []
      ensures parent.Some? ==> parent.value < |entries.paths| && entries.paths[parent.value] == ParentOf(path)
      ensures parent.Some? ==> forall k :: 0 < k < |path| ==> OwnedDirectory(entries.Contents(), path[..k])
    {
      hide ComponentTree.Valid, ComponentTree.Contents;
      entries.Sizes();
      var entry: nat := ROOT_NODE;
      for i := 0 to |path| - 1
        invariant entry < |entries.paths| && entries.paths[entry] == path[..i]
        invariant forall k :: 0 < k <= i ==> OwnedDirectory(entries.Contents(), path[..k])
      {
        assert path[..i] + [path[i]] == path[..i + 1];
        var child := entries.Child(entry, path[i]);
        if child.None? {
          return None;
        }
        entries.IndexedPath(path[..i + 1]);
        entry := child.value;
        var state := entries.State(entry);
        if state.None? || !IsDir(state.value) {
          return None;
        }
      }
      return Some(entry);
    }

    // ------------------------------------------------------------------ files

    /** Puts one validated small file into the batch. The batch is written first whenever something must be looked at. */
    method QueueBufferedFile(path: Path, executable: bool, contents: seq<Byte>) returns (error: Option<ExtractError>)
      requires Valid() && path != [] && |contents| <= BUFFERED_PAYLOAD_MAX_BYTES
      modifies this`directoryHandle, this`bufferedFiles, this`bufferedFileBytes, this`now, disk, entries
      ensures error.None? ==> Valid() && now == SmallFileNext(old(now), allowOverwrites, path, executable, contents)
      ensures error.Some? ==>
                bufferedFiles == [] && SmallFileNext(old(now), allowOverwrites, path, executable, contents) == Stopped(disk.state, error.value)
    {
      hide ComponentTree.Valid, ComponentTree.Contents, DiskValid, Coherent, Settle, PendingLocated, PlaceSmallFile, EnsureParents;
      var parent := KnownParent(path);
      var parentNode;
      if parent.Some? {
        parentNode := parent.value;
        if now.Going? {
          KnownParentsNeedNothing(now.world, allowOverwrites, path, |path| - 1);
          EnsureParentsKeeps(now.world, allowOverwrites, path, |path| - 1);
        }
      } else {
        error := FlushBufferedFiles();
        if error.Some? { return; }
        EnsureParentsKeeps(Here(), allowOverwrites, path, |path| - 1);
        error, parentNode := EnsureParentsAt(path);
        if error.Some? { return; }
        now := Going(Here());
        SettledIsValid();
      }
      assert path[..|path| - 1] == ParentOf(path);
      error := QueueAt(path, parentNode, executable, contents);
    }

    /** With nothing pending, a settled world is where one-at-a-time extraction stands. */
    lemma SettledIsValid()
      requires Settled() && now == Going(Here()) && 0 < maxEntries && BUFFERED_PAYLOAD_MAX_BYTES <= maxBytes
      ensures Valid()
    {
      CoherentDisk(Here());
    }

    method QueueAt(path: Path, parent: nat, executable: bool, contents: seq<Byte>) returns (error: Option<ExtractError>)
      requires Valid() && path != [] && |contents| <= BUFFERED_PAYLOAD_MAX_BYTES
      requires parent < |entries.paths| && entries.paths[parent] == ParentOf(path)
      requires now.Going? ==> OwnedDirectory(now.world.tree, ParentOf(path))
      modifies this`directoryHandle, this`bufferedFiles, this`bufferedFileBytes, this`now, disk, entries
      ensures error.None? ==> Valid() && now == PlaceNext(old(now), allowOverwrites, path, executable, contents)
      ensures error.Some? ==>
                bufferedFiles == [] && PlaceNext(old(now), allowOverwrites, path, executable, contents) == Stopped(disk.state, error.value)
    {
      hide ComponentTree.Valid, ComponentTree.Contents, DiskValid, Coherent, Settle, PendingLocated, WriteSmallFile, ReplaceLeaf;
      var entry := PendingChild(path, parent);
      var state := entries.State(entry);
      if state.Some? && state.value.SymlinkEntry? {
        error := FlushBufferedFiles();
        if error.Some? { return; }
        ReplaceLeafKeeps(Here(), allowOverwrites, path);
        var replaced;
        error, replaced := ReplaceLeafAt(path, entry, parent);
        if error.Some? { return; }
        now := Going(Here());
        SettledIsValid();
      }
      error := QueueLeaf(path, entry, parent, executable, contents);
    }

    /** The leaf's node, made if need be; whatever is pending stays as it is. */
    method PendingChild(path: Path, parent: nat) returns (entry: nat)
      requires Valid() && path != [] && parent < |entries.paths| && entries.paths[parent] == ParentOf(path)
      modifies entries
      ensures Valid() && At(path, entry, parent) && entries.Contents() == old(entries.Contents())
    {
      hide ComponentTree.Valid, ComponentTree.Contents, DiskValid, Coherent, Settle, PendingLocated;
      entries.Sizes();
      entry := entries.EnsureChild(parent, path[|path| - 1]);
      if now.Going? && directoryHandle.Some? {
        assert entries.paths[directoryHandle.value.0] == old(entries.paths)[directoryHandle.value.0];
      }
      assert LinkNodes() by { assert forall i :: 0 <= i < |symlinks| ==> old(NodesOf(symlinks[i])); }
      assert path == ParentOf(path) + [path[|path| - 1]];
    }

    method QueueLeaf(path: Path, entry: nat, parent: nat, executable: bool, contents: seq<Byte>) returns (error: Option<ExtractError>)
      requires Valid() && At(path, entry, parent) && |contents| <= BUFFERED_PAYLOAD_MAX_BYTES
      requires now.Going? ==> OwnedDirectory(now.world.tree, ParentOf(path))
      requires now.Going? && path in now.world.tree ==> !now.world.tree[path].SymlinkEntry?
      modifies this`directoryHandle, this`bufferedFiles, this`bufferedFileBytes, this`now, disk, entries`nodes
      ensures error.None? ==> Valid() && now == WriteNext(old(now), allowOverwrites, path, executable, contents)
      ensures error.Some? ==>
                bufferedFiles == [] && WriteNext(old(now), allowOverwrites, path, executable, contents) == Stopped(disk.state, error.value)
    {
      hide ComponentTree.Valid, ComponentTree.Contents, DiskValid, Coherent, Settle, PendingLocated, WriteSmallFile;
      if bufferedFiles != [] && bufferedFileBytes + |contents| > maxBytes {
        error := FlushBufferedFiles();
        if error.Some? { return; }
      }
      NothingPendingNoBytes(bufferedFiles);
      Enqueue(path, entry, parent, executable, contents);
      if |bufferedFiles| >= maxEntries || bufferedFileBytes >= maxBytes {
        error := FlushBufferedFiles();
        return;
      }
      return None;
    }

    /** Adds the file to the batch and records it as a file, whether or not its write is bound to fail. */
    method Enqueue(path: Path, entry: nat, parent: nat, executable: bool, contents: seq<Byte>)
      requires Valid() && At(path, entry, parent) && bufferedFileBytes + |contents| <= maxBytes && |bufferedFiles| < maxEntries
      requires now.Going? ==> OwnedDirectory(now.world.tree, ParentOf(path))
      requires now.Going? && path in now.world.tree ==> !now.world.tree[path].SymlinkEntry?
      modifies this`directoryHandle, this`bufferedFiles, this`bufferedFileBytes, this`now, entries`nodes
      ensures Agrees() && now == WriteNext(old(now), allowOverwrites, path, executable, contents)
    {
      hide ComponentTree.Valid, ComponentTree.Contents, DiskValid, Coherent, Settle, PendingLocated, WriteBuffered;
      hide EntryCapability, NamesPath, WriteNext, TotalBytes, OwnedDirectory, ReplacementFor;
      entries.Sizes();
      var replacement := ReplacementOf(path, entry);
      if directoryHandle.Some? && directoryHandle.value.0 == entry {
        directoryHandle := None;
      }
      ghost var settled := Settle(disk.state, bufferedFiles);
      if settled.error.None? { CapabilityNames(settled.disk, path, parent); }
      var file := BufferedFile(EntryCapability(path, parent), path, executable, contents, replacement);
      EnqueuedFits(path, entry, file);
      bufferedFileBytes := bufferedFileBytes + |contents|;
      bufferedFiles := bufferedFiles + [file];
      entries.SetState(entry, FileEntry);
      now := WriteNext(now, allowOverwrites, path, executable, contents);
    }

    /** How the leaf may be replaced, by the tree as it is now. */
    method ReplacementOf(path: Path, entry: nat) returns (replacement: Replacement)
      requires Valid() && entry < |entries.paths| && entries.paths[entry] == path
      ensures now.Going? ==> replacement == ReplacementFor(now.world, allowOverwrites, path)
    {
      hide ComponentTree.Valid, ComponentTree.Contents, DiskValid, Settle, PendingLocated, HasActiveChildren;
      ChildrenByComponent(entries.Contents(), path);
      if !(allowOverwrites && !entries.HasActiveChildren(entry)) {
        return Disallowed;
      }
      if entries.State(entry) == Some(FileEntry) {
        return ExpectedFile;
      }
      return Allowed;
    }

    /** A file behind the batch is written where the batch leaves off, and leaves disk, tree and cache in agreement. */
    lemma EnqueuedFits(path: Path, entry: nat, file: BufferedFile)
      requires Valid() && entry < |entries.paths| && entries.paths[entry] == path && path != []
      requires directoryHandle.Some? ==> directoryHandle.value.0 != entry
      requires now.Going? ==>
                 && OwnedDirectory(now.world.tree, ParentOf(path)) && (path in now.world.tree ==> !now.world.tree[path].SymlinkEntry?)
                 && NamesPath(now.world.disk, file.cap, path)
                 && file.replacement == ReplacementFor(now.world, allowOverwrites, path)
      requires file.path == path
      ensures PendingLocated(disk.state, bufferedFiles + [file])
      ensures TotalBytes(bufferedFiles + [file]) == TotalBytes(bufferedFiles) + |file.contents|
      ensures var after := Settle(disk.state, bufferedFiles + [file]);
              var next := WriteNext(now, allowOverwrites, path, file.executable, file.contents);
              match after.error
              case Some(e) => next == Stopped(after.disk, e)
              case None =>
                && next == Going(World(after.disk, entries.Contents()[path := FileEntry], LinksOf(symlinks)))
                && Coherent(next.world) && HandleFits(after.disk)
    {
      hide ComponentTree.Valid, ComponentTree.Contents, DiskValid, Coherent, Settle, PendingLocated, WriteBuffered;
      SettleMore(disk.state, bufferedFiles, file);
      LocatedMore(disk.state, bufferedFiles, file);
      assert (bufferedFiles + [file])[..|bufferedFiles|] == bufferedFiles;
      if now.Going? {
        WriteSmallFileKeeps(now.world, allowOverwrites, path, file.executable, file.contents);
        CoherentDisk(now.world);
        WriteBufferedDirs(now.world.disk, path, file.executable, file.contents, file.replacement);
        entries.SameId(if directoryHandle.Some? then directoryHandle.value.0 else entry, entry);
      }
    }

    /** Streams a payload into an open file, by chunks of any sizes. */
    method WritePayloadAt(path: Path, cap: Capability, payload: Payload) returns (error: Option<ExtractError>)
      requires NamesPath(disk.state, cap, path)
      modifies disk
      ensures disk.state == if IsFile(old(disk.state), path) then Append(old(disk.state), path, payload.bytes) else old(disk.state)
      ensures error == if payload.fails then Some(PayloadFailed) else None
    {
      hide Append;
      ghost var before := disk.state;
      var at := 0;
      assert payload.bytes[..0] == [];
      AppendNothing(before, path);
      while at < |payload.bytes|
        invariant at <= |payload.bytes| && NamesPath(disk.state, cap, path) && disk.state.nodes == before.nodes
        invariant disk.state == if IsFile(before, path) then Append(before, path, payload.bytes[..at]) else before
      {
        var n: nat :| 0 < n && at + n <= |payload.bytes|;
        AppendTwice(before, path, payload.bytes[..at], payload.bytes[at..at + n]);
        AppendKeepsDirs(disk.state, path, payload.bytes[at..at + n]);
        assert payload.bytes[..at] + payload.bytes[at..at + n] == payload.bytes[..at + n];
        disk.AppendFile(cap, payload.bytes[at..at + n]);
        at := at + n;
      }
      assert payload.bytes[..at] == payload.bytes;
      return if payload.fails then Some(PayloadFailed) else None;
    }

    /** Makes a new file at a leaf, putting it in place of what is there if that is allowed. */
    method OpenOrReplaceAt(path: Path, entry: nat, parent: nat, executable: bool) returns (error: Option<ExtractError>)
      requires Settled() && At(path, entry, parent) && OwnedDirectory(entries.Contents(), ParentOf(path))
      modifies this`directoryHandle, disk, entries`nodes
      ensures OpenOrReplace(old(Here()), allowOverwrites, path, executable) == Result(error)
      ensures error.None? ==> Settled()
    {
      hide ComponentTree.Valid, ComponentTree.Contents, DiskValid, Coherent, ReplaceLeaf, CreateNew, Settled, HandleFits;
      var created := CreateLeafAt(path, entry, parent, executable);
      if created.Some? {
        HereIsCoherent();
        ReplaceLeafKeeps(Here(), allowOverwrites, path);
        var replaced;
        error, replaced := ReplaceLeafAt(path, entry, parent);
        if error.Some? { return; }
        if !replaced {
          return Some(Filesystem(CreateFile, path, created.value));
        }
        created := CreateLeafAt(path, entry, parent, executable);
        if created.Some? {
          return Some(Filesystem(CreateFile, path, created.value));
        }
      }
      return None;
    }

    lemma HereIsCoherent()
      requires Settled()
      ensures Coherent(Here())
    {
    }

    /** Makes a new file where nothing is, and records it. */
    method CreateLeafAt(path: Path, entry: nat, parent: nat, executable: bool) returns (io: Option<IoError>)
      requires Settled() && At(path, entry, parent) && OwnedDirectory(entries.Contents(), ParentOf(path))
      modifies disk, entries`nodes
      ensures Settled() && At(path, entry, parent)
      ensures match CreateNew(old(disk.state), path, executable)
              case Err(e) => io == Some(e) && Here() == old(Here())
              case Ok(d) => io.None? && Here() == World(d, old(entries.Contents())[path := FileEntry], LinksOf(symlinks))
    {
      hide ComponentTree.Valid, ComponentTree.Contents, DiskValid, Coherent, ReplaceLeaf, CreateNew, EntryCapability, OwnedDirectory;
      entries.Sizes();
      CapabilityNames(disk.state, path, parent);
      CoherentDisk(Here());
      OpenOrReplaceKeeps(Here(), allowOverwrites, path, executable);
      DirsKept(disk.state, path, executable, []);
      HandleElsewhere(path, entry);
      NewFileIsNoDirectory(disk.state, path, executable);
      io := disk.Perform(EntryCapability(path, parent), NewFile(executable));
      if io.None? {
        entries.SetState(entry, FileEntry);
      }
    }

    method CreateFileFor(path: Path, executable: bool) returns (error: Option<ExtractError>, parent: nat)
      requires Settled() && path != []
      modifies this`directoryHandle, disk, entries
      ensures CreateFileAt(old(Here()), allowOverwrites, path, executable) == Result(error)
      ensures error.None? ==> Settled() && parent < |entries.paths| && entries.paths[parent] == ParentOf(path)
    {
      hide ComponentTree.Valid, ComponentTree.Contents, DiskValid, Coherent, ReplaceLeaf, EnsureParents, OpenOrReplace;
      EnsureParentsKeeps(Here(), allowOverwrites, path, |path| - 1);
      error, parent := EnsureParentsAt(path);
      if error.Some? { return; }
      assert path[..|path| - 1] == ParentOf(path) && path == ParentOf(path) + [path[|path| - 1]];
      var entry := ChildNode(parent, path[|path| - 1]);
      assert At(path, entry, parent);
      var state := entries.State(entry);
      if state.Some? && state.value.SymlinkEntry? {
        ReplaceLeafKeeps(Here(), allowOverwrites, path);
        var replaced;
        error, replaced := ReplaceLeafAt(path, entry, parent);
        if error.Some? { return; }
      }
      error := OpenOrReplaceAt(path, entry, parent, executable);
    }

    /** What a member operation has to come to. */
    ghost predicate Did(before: Outcome, item: Item, error: Option<ExtractError>)
      requires ItemValid(item)
      reads this, entries, disk
    {
      if error.Some? then bufferedFiles == [] && Next(before, allowOverwrites, item) == Stopped(disk.state, error.value)
      else Valid() && now == Next(before, allowOverwrites, item)
    }

    method ExtractFile(path: Path, size: nat, executable: bool, payload: Payload) returns (error: Option<ExtractError>)
      requires Valid() && ItemValid(FileItem(path, size, executable, payload))
      modifies this`directoryHandle, this`bufferedFiles, this`bufferedFileBytes, this`now, disk, entries
      ensures Did(old(now), FileItem(path, size, executable, payload), error)
    {
      hide ComponentTree.Valid, ComponentTree.Contents, DiskValid, Coherent, Settle, PendingLocated, CreateFileAt, ExtractSmallFile;
      if size <= BUFFERED_PAYLOAD_MAX_BYTES {
        if payload.fails {
          error := FlushBufferedFiles();
          if error.None? { error := Some(PayloadFailed); }
          return;
        }
        error := QueueBufferedFile(path, executable, payload.bytes);
        return;
      }
      error := FlushBufferedFiles();
      if error.Some? { return; }
      ghost var start := Here();
      CreateFileAtKeeps(start, allowOverwrites, path, executable);
      var parent;
      error, parent := CreateFileFor(path, executable);
      if error.Some? { return; }
      entries.Sizes();
      CapabilityNames(disk.state, path, parent);
      WritePayloadKeeps(Here(), path, payload);
      AppendKeepsDirs(disk.state, path, payload.bytes);
      error := WritePayloadAt(path, EntryCapability(path, parent), payload);
      if error.None? {
        now := Going(Here());
        SettledIsValid();
      }
    }

    method ExtractDirectoryMember(path: Path) returns (error: Option<ExtractError>)
      requires Valid()
      modifies this`directoryHandle, this`bufferedFiles, this`bufferedFileBytes, this`now, disk, entries
      ensures Did(old(now), DirectoryItem(path), error)
    {
      hide ComponentTree.Valid, ComponentTree.Contents, DiskValid, Coherent, Settle, PendingLocated, EnsureParents, EnsureDirectory;
      error := FlushBufferedFiles();
      if error.Some? { return; }
      if path != [] {
        EnsureParentsKeeps(Here(), allowOverwrites, path, |path| - 1);
        var parent;
        error, parent := EnsureParentsAt(path);
        if error.Some? { return; }
        assert path[..|path| - 1] == ParentOf(path) && path == ParentOf(path) + [path[|path| - 1]];
        var entry := ChildNode(parent, path[|path| - 1]);
        error := EnsureDirectoryAt(path, entry, parent, true);
        if error.Some? { return; }
        now := Going(Here());
        SettledIsValid();
      }
    }

    /** Reserves a path for a link that will be made at the end. */
    method ReserveSymlinkMember(position: nat, path: Path, target: seq<Byte>) returns (error: Option<ExtractError>)
      requires Valid() && path != []
      modifies this`directoryHandle, this`bufferedFiles, this`bufferedFileBytes, this`symlinks, this`now, disk, entries
      ensures Did(old(now), SymlinkItem(position, path, target), error)
    {
      hide ComponentTree.Valid, ComponentTree.Contents, DiskValid, Coherent, Settle, PendingLocated, EnsureParents, ReplaceLeaf,
           LinkTarget, SplitPath, RequiresDirectory;
      error := FlushBufferedFiles();
      if error.Some? { return; }
      ghost var start := Here();
      var resolved := LinkTarget(ParentOf(path), target, true);
      if resolved.Err? {
        return Some(UnsafePath(position, resolved.error));
      }
      ReserveSymlinkKeeps(start, allowOverwrites, position, path, target);
      EnsureParentsKeeps(start, allowOverwrites, path, |path| - 1);
      var parent;
      error, parent := EnsureParentsAt(path);
      if error.Some? { return; }
      assert path[..|path| - 1] == ParentOf(path) && path == ParentOf(path) + [path[|path| - 1]];
      var entry := ChildNode(parent, path[|path| - 1]);
      ReplaceLeafKeeps(Here(), allowOverwrites, path);
      var replaced;
      error, replaced := ReplaceLeafAt(path, entry, parent);
      if error.Some? { return; }
      RecordLink(entry, parent, PendingLink(path, position, target, resolved.value, RequiresDirectory(SplitPath(target))));
    }

    method RecordLink(entry: nat, parent: nat, link: PendingLink)
      requires Settled() && At(link.path, entry, parent) && Coherent(Reserved(Here(), link.path, link))
      requires 0 < maxEntries && BUFFERED_PAYLOAD_MAX_BYTES <= maxBytes
      modifies this`symlinks, this`now, entries`nodes
      ensures Valid() && now == Going(old(Reserved(Here(), link.path, link)))
    {
      hide ComponentTree.Valid, ComponentTree.Contents, DiskValid, Coherent;
      var index := |symlinks|;
      entries.SetState(entry, SymlinkEntry(index));
      ghost var before := symlinks;
      symlinks := symlinks + [PendingSymlink(entry, parent, link)];
      LinksMore(before, PendingSymlink(entry, parent, link));
      now := Going(Here());
      SettledIsValid();
    }

    /** Another name for a file extracted before, whose contents this member may replace under both names. */
    method ExtractHardLinkMember(position: nat, path: Path, target: seq<Byte>, size: nat, payload: Payload)
      returns (error: Option<ExtractError>)
      requires Valid() && path != []
      modifies this`directoryHandle, this`bufferedFiles, this`bufferedFileBytes, this`now, disk, entries
      ensures Did(old(now), HardLinkItem(position, path, target, size, payload), error)
    {
      hide ComponentTree.Valid, ComponentTree.Contents, DiskValid, Coherent, Settle, PendingLocated, EnsureParents, ReplaceLeaf,
           LinkTarget, LinkAndWrite;
      error := FlushBufferedFiles();
      if error.Some? { return; }
      ghost var start := Here();
      var resolved := LinkTarget([], target, false);
      if resolved.Err? {
        return Some(UnsafePath(position, resolved.error));
      }
      var fault := HardLinkCheck(path, resolved.value);
      if fault.Some? {
        return Some(InvalidLink(position, path, fault.value));
      }
      ExtractHardLinkKeeps(start, allowOverwrites, position, path, target, size, payload);
      EnsureParentsKeeps(start, allowOverwrites, path, |path| - 1);
      var parent;
      error, parent := EnsureParentsAt(path);
      if error.Some? { return; }
      assert path[..|path| - 1] == ParentOf(path) && path == ParentOf(path) + [path[|path| - 1]];
      var entry := ChildNode(parent, path[|path| - 1]);
      ReplaceLeafKeeps(Here(), allowOverwrites, path);
      var replaced;
      error, replaced := ReplaceLeafAt(path, entry, parent);
      if error.Some? { return; }
      error := LinkAndWriteAt(path, entry, parent, resolved.value, size, payload);
    }

    /** The target must be a file this extraction made, and neither the member nor above it. */
    method HardLinkCheck(path: Path, target: Path) returns (fault: Option<LinkReason>)
      requires Settled()
      ensures fault == HardLinkFault(Here(), path, target)
    {
      hide ComponentTree.Valid, ComponentTree.Contents, DiskValid, Coherent;
      var state := StateForPath(target);
      if state != Some(FileEntry) {
        return Some(TargetNotExtracted);
      }
      if target == path {
        return Some(TargetIsMember);
      }
      if target <= path {
        return Some(TargetIsAncestor);
      }
      return None;
    }

    /** Walks the arena to a path's state. */
    method StateForPath(path: Path) returns (state: Option<ExtractedEntry>)
      requires entries.Valid()
      ensures state == if path in entries.Contents() then Some(entries.Contents()[path]) else None
    {
      hide ComponentTree.Valid, ComponentTree.Contents;
      entries.Sizes();
      var entry: nat := ROOT_NODE;
      for i := 0 to |path|
        invariant entry < |entries.paths| && entries.paths[entry] == path[..i]
      {
        assert path[..i] + [path[i]] == path[..i + 1];
        var child := entries.Child(entry, path[i]);
        if child.None? {
          entries.PrefixesIndexed(path, i + 1);
          entries.OnlyIndexed(path);
          return None;
        }
        entries.IndexedPath(path[..i + 1]);
        entry := child.value;
      }
      assert path[..|path|] == path;
      return entries.State(entry);
    }

    method LinkAndWriteAt(path: Path, entry: nat, parent: nat, target: Path, size: nat, payload: Payload)
      returns (error: Option<ExtractError>)
      requires Settled() && At(path, entry, parent)
      requires 0 < maxEntries && BUFFERED_PAYLOAD_MAX_BYTES <= maxBytes
      requires LinkAndWrite(Here(), path, target, size, payload).Going? ==>
                 Coherent(LinkAndWrite(Here(), path, target, size, payload).world)
      modifies this`now, disk, entries`nodes
      ensures error.Some? ==> LinkAndWrite(old(Here()), path, target, size, payload) == Stopped(disk.state, error.value)
      ensures error.Some? ==> bufferedFiles == []
      ensures error.None? ==> Valid() && now == LinkAndWrite(old(Here()), path, target, size, payload)
    {
      hide ComponentTree.Valid, ComponentTree.Contents, DiskValid, Coherent, HardLink, Truncate, EntryCapability;
      entries.Sizes();
      CapabilityNames(disk.state, path, parent);
      FileDirs(disk.state, path, target, payload.bytes);
      var io := disk.LinkFile(target, path);
      if io.Some? {
        return Some(Filesystem(CreateHardLink, path, io.value));
      }
      entries.SetState(entry, FileEntry);
      if size == 0 {
        if payload.fails {
          return Some(PayloadFailed);
        }
      } else {
        CapabilityNames(disk.state, path, parent);
        io := disk.Perform(EntryCapability(path, parent), EmptyFile);
        error := Reported(TruncateFile, path, io);
        if error.Some? { return; }
        CapabilityNames(disk.state, path, parent);
        error := WritePayloadAt(path, EntryCapability(path, parent), payload);
        if error.Some? { return; }
      }
      now := Going(Here());
      SettledIsValid();
      return None;
    }

    method ExtractMember(item: Item) returns (error: Option<ExtractError>)
      requires Valid() && ItemValid(item) && !item.RefusedItem?
      modifies this`directoryHandle, this`bufferedFiles, this`bufferedFileBytes, this`symlinks, this`now, disk, entries
      ensures Did(old(now), item, error)
    {
      hide ComponentTree.Valid, ComponentTree.Contents, DiskValid, Coherent, Settle, PendingLocated, ExtractItem;
      SkippedChangesNothing(now, allowOverwrites);
      match item
      case FileItem(path, size, executable, payload) => error := ExtractFile(path, size, executable, payload);
      case DirectoryItem(path) => error := ExtractDirectoryMember(path);
      case SymlinkItem(position, path, target) => error := ReserveSymlinkMember(position, path, target);
      case HardLinkItem(position, path, target, size, payload) =>
        error := ExtractHardLinkMember(position, path, target, size, payload);
      case SkippedItem => return None;
    }

    /**
     * Extracts members up to the first error, which is reported after the batch before it has been written.
     * Whatever the batch limits, disk and error are those of one-at-a-time extraction.
     */
    method ExtractAll(items: seq<Item>) returns (error: Option<ExtractError>)
      requires Valid() && forall i :: 0 <= i < |items| ==> ItemValid(items[i])
      modifies this`directoryHandle, this`bufferedFiles, this`bufferedFileBytes, this`symlinks, this`now, disk, entries
      ensures old(now).Going? ==> ExtractItems(old(now).world, allowOverwrites, items) == Result(error)
      ensures error.None? && old(now).Going? ==> Settled() && now == Going(Here())
    {
      hide ComponentTree.Valid, ComponentTree.Contents, DiskValid, Coherent, Settle, PendingLocated, Next;
      ghost var start := now;
      assert items[..0] == [];
      for i := 0 to |items|
        invariant Valid()
        invariant start.Going? ==> now == ExtractItems(start.world, allowOverwrites, items[..i])
      {
        assert items[..i + 1][..i] == items[..i] && items[..i + 1][i] == items[i];
        if start.Going? { StopsForGood(start.world, allowOverwrites, items, i + 1, |items|); }
        assert items[..|items|] == items;
        match items[i]
        case RefusedItem(refusal) =>
          RefusedStops(now, allowOverwrites, refusal);
          error := FlushBufferedFiles();
          if error.None? { error := Some(refusal); }
          return;
        case _ =>
          error := ExtractMember(items[i]);
          if error.Some? { return; }
      }
      assert items[..|items|] == items;
      error := FlushBufferedFiles();
    }

    // ----------------------------------------------------------------- links

    /** The work of one more path, prefix by prefix. */
    method ChargePath(work: nat, path: Path) returns (charged: Option<nat>)
      ensures charged == Charge(work, path)
    {
      var prefixBytes, workBytes := 0, 2 * |JoinPath(path)|;
      assert path[..0] == [];
      for k := 0 to |path|
        invariant prefixBytes == NameBytes(path[..k])
        invariant workBytes == 2 * |JoinPath(path)| + PrefixBytes(path[..k])
      {
        assert path[..k + 1][..k] == path[..k];
        prefixBytes := prefixBytes + |path[k]| + 1;
        workBytes := workBytes + prefixBytes;
      }
      assert path[..|path|] == path;
      if work + workBytes > MAX_SYMLINK_RESOLUTION_WORK_BYTES {
        return None;
      }
      return Some(work + workBytes);
    }

    /** One pass down the arena along a path, and the state at its end. */
    method PassOver(path: Path) returns (pass: Pass, state: Option<ExtractedEntry>)
      requires Settled()
      ensures pass == PassFrom(Here(), path, 0)
      ensures pass.Through? ==> state == if path in entries.Contents() then Some(entries.Contents()[path]) else None
    {
      hide ComponentTree.Valid, ComponentTree.Contents, DiskValid, Coherent;
      entries.Sizes();
      var entry: Option<nat> := Some(ROOT_NODE);
      for k := 0 to |path|
        invariant PassFrom(Here(), path, 0) == PassFrom(Here(), path, k)
        invariant entry.Some? ==> entry.value < |entries.paths| && entries.paths[entry.value] == path[..k]
        invariant entry.None? ==> path[..k] !in entries.index
      {
        assert path[..k] + [path[k]] == path[..k + 1] && path[..k + 1][..k] == path[..k];
        entries.PrefixesIndexed(path[..k + 1], k);
        entries.OnlyIndexed(path[..k + 1]);
        entries.IndexedPath(path[..k + 1]);
        if entry.Some? {
          entry := entries.Child(entry.value, path[k]);
        }
        if entry.Some? {
          match entries.State(entry.value)
          case Some(SymlinkEntry(index)) =>
            if index < |symlinks| {
              return Substituted(symlinks[index].link.resolved + path[k + 1..]), None;
            }
          case Some(FileEntry) =>
            if k + 1 < |path| {
              return FileInTheWay, None;
            }
          case _ =>
        }
      }
      assert path[..|path|] == path;
      entries.OnlyIndexed(path);
      return Through, if entry.Some? then entries.State(entry.value) else None;
    }

    /** Rewrites a path until it is terminal, repeats, or runs into a limit. */
    method ResolveTerminal(start: Path, workBefore: nat) returns (result: Result<ResolvedTarget, LinkReason>, work: nat)
      requires Settled()
      ensures Evaluation(result, work) == Evaluate(Here(), start, {}, MAX_SYMLINK_EXPANSIONS + 1, workBefore)
    {
      hide ComponentTree.Valid, ComponentTree.Contents, DiskValid, Coherent, Charge, PassFrom;
      var path := start;
      var visited: set<Path> := {};
      work := workBefore;
      for i := 0 to MAX_SYMLINK_EXPANSIONS + 1
        invariant Evaluate(Here(), start, {}, MAX_SYMLINK_EXPANSIONS + 1, workBefore)
                  == Evaluate(Here(), path, visited, MAX_SYMLINK_EXPANSIONS + 1 - i, work)
      {
        var charged := ChargePath(work, path);
        if charged.None? {
          return Err(WorkLimit), work;
        }
        work := charged.value;
        if path in visited {
          return Err(TargetCycle), work;
        }
        visited := visited + {path};
        var pass, state := PassOver(path);
        match pass
        case Substituted(q) => path := q;
        case FileInTheWay => return Ok(Known(Dangling)), work;
        case Through =>
          if path == [] {
            return Ok(Known(TerminalKind.Directory)), work;
          }
          match state
          case Some(CreatedDirectory) => return Ok(Known(TerminalKind.Directory)), work;
          case Some(FileEntry) => return Ok(Known(NonDirectory)), work;
          case Some(SymlinkEntry(_)) =>
          case _ => return Ok(Unowned(path)), work;
      }
      return Err(ExpansionLimit), work;
    }

    /** Checks every live link before any is made, then makes them in order. */
    method FinalizeSymlinks(policy: LinkPolicy, inspect: Inspection) returns (error: Option<ExtractError>)
      requires Settled()
      modifies disk
      ensures FinalizeLinks(old(Here()), policy, inspect) == Result(error)
    {
      hide ComponentTree.Valid, ComponentTree.Contents, DiskValid, Coherent, CheckUpTo, MakeUpTo, MakeOne;
      ghost var start := Here();
      CheckedInRange(start, policy, inspect, |start.links|);
      var live;
      error, live := CheckSymlinks(policy, inspect);
      if error.Some? { return; }
      CheckUpToChecksOut(start, policy, inspect, |start.links|);
      forall n | 0 <= n <= |live| ensures MakeUpTo(start, live, n).Going? && SameDirs(start, MakeUpTo(start, live, n)) {
        MakeUpToSucceeds(start, live, n);
        MakingKeepsDirs(start, live, n);
      }
      error := MakeSymlinks(live);
    }

    method CheckSymlinks(policy: LinkPolicy, inspect: Inspection) returns (error: Option<ExtractError>, live: seq<nat>)
      requires Settled()
      ensures match CheckUpTo(Here(), policy, inspect, |Here().links|)
              case CheckFailed(e) => error == Some(e)
              case Checked(l, _) => error.None? && live == l
    {
      hide ComponentTree.Valid, ComponentTree.Contents, DiskValid, Coherent, Evaluate;
      hide CheckNext;
      live := [];
      var work := 0;
      for index := 0 to |symlinks|
        invariant CheckUpTo(Here(), policy, inspect, index) == Checked(live, work)
      {
        CheckStopsForGood(Here(), policy, inspect, index + 1, |symlinks|);
        error, live, work := CheckLinkAt(policy, inspect, index, live, work);
        if error.Some? { return; }
      }
      return None, live;
    }

    /** One link: skipped unless its node still holds it, otherwise resolved and judged. */
    method CheckLinkAt(policy: LinkPolicy, inspect: Inspection, index: nat, live: seq<nat>, work: nat)
      returns (error: Option<ExtractError>, more: seq<nat>, after: nat)
      requires Settled() && index < |symlinks|
      ensures match CheckNext(Here(), policy, inspect, index, Checked(live, work))
              case CheckFailed(e) => error == Some(e)
              case Checked(l, w) => error.None? && more == l && after == w
    {
      hide ComponentTree.Valid, ComponentTree.Contents, DiskValid, Coherent, Evaluate, CheckTarget;
      more, after := live, work;
      var link := symlinks[index].link;
      assert NodesOf(symlinks[index]);
      if entries.State(symlinks[index].entry) == Some(SymlinkEntry(index)) {
        var fault;
        fault, after := CheckSymlink(link, policy, inspect, work);
        if fault.Some? {
          return Some(InvalidLink(link.position, link.path, fault.value)), more, after;
        }
        more := live + [index];
      }
      return None, more, after;
    }

    method CheckSymlink(link: PendingLink, policy: LinkPolicy, inspect: Inspection, work: nat)
      returns (fault: Option<LinkReason>, after: nat)
      requires Settled()
      ensures Verdict(fault, after) == CheckTarget(Here(), policy, inspect, link, work)
    {
      hide ComponentTree.Valid, ComponentTree.Contents, DiskValid, Coherent, Evaluate;
      var target;
      target, after := ResolveTerminal(link.resolved, work);
      match target
      case Err(reason) => return Some(reason), after;
      case Ok(Known(kind)) => return KindFault(policy, link, kind), after;
      case Ok(Unowned(path)) => return UnownedFault(policy, inspect, link, path), after;
    }

    /** Makes the checked links through their directories' capabilities. */
    method MakeSymlinks(live: seq<nat>) returns (error: Option<ExtractError>)
      requires Settled() && InRange(Here(), live)
      requires forall n :: 0 <= n <= |live| ==> MakeUpTo(Here(), live, n).Going? && SameDirs(Here(), MakeUpTo(Here(), live, n))
      modifies disk
      ensures MakeUpTo(old(Here()), live, |live|) == Result(error)
    {
      hide ComponentTree.Valid, ComponentTree.Contents, DiskValid, Coherent, MakeOne;
      ghost var start := Here();
      entries.Sizes();
      for k := 0 to |live|
        invariant MakeUpTo(start, live, k) == Going(Here())
      {
        var link := symlinks[live[k]].link;
        assert NodesOf(symlinks[live[k]]);
        CapabilityNames(disk.state, link.path, symlinks[live[k]].parent);
        assert MakeUpTo(start, live, k + 1).Going?;
        error := MakeSymlink(link, symlinks[live[k]].parent);
        if error.Some? { return; }
      }
      return None;
    }

    method MakeSymlink(link: PendingLink, parent: nat) returns (error: Option<ExtractError>)
      requires link.path != [] && NamesPath(disk.state, EntryCapability(link.path, parent), link.path)
      modifies disk
      ensures MakeOne(old(Here()), link) == Result(error)
    {
      var io := disk.Perform(EntryCapability(link.path, parent), NewLink(link.target));
      return Reported(CreateSymbolicLink, link.path, io);
    }
  }

  /** A small file against a run that may already have stopped. */
  function SmallFileNext(o: Outcome, overwrites: bool, p: Path, executable: bool, contents: seq<Byte>): Outcome
    requires p != []
  {
    match o
    case Stopped(_, _) => o
    case Going(w) => ExtractSmallFile(w, overwrites, p, executable, contents)
  }

  function PlaceNext(o: Outcome, overwrites: bool, p: Path, executable: bool, contents: seq<Byte>): Outcome
  {
    match o
    case Stopped(_, _) => o
    case Going(w) => PlaceSmallFile(w, overwrites, p, executable, contents)
  }

  function WriteNext(o: Outcome, overwrites: bool, p: Path, executable: bool, contents: seq<Byte>): Outcome
  {
    match o
    case Stopped(_, _) => o
    case Going(w) => WriteSmallFile(w, overwrites, p, executable, contents)
  }

  lemma NothingPendingNoBytes(files: seq<BufferedFile>)
    ensures files == [] ==> TotalBytes(files) == 0
  {
  }

  /** An error at one implicit parent is the error of all of them. */
  lemma {:induction false} ParentsStop(w: World, overwrites: bool, p: Path, n: nat, m: nat)
    requires n <= m <= |p| && EnsureParents(w, overwrites, p, n).Stopped?
    ensures EnsureParents(w, overwrites, p, m) == EnsureParents(w, overwrites, p, n)
    decreases m
  {
    hide EnsureDirectory;
    if n < m { ParentsStop(w, overwrites, p, n, m - 1); }
  }

  /** Where every directory above is owned, nothing is made. */
  lemma {:induction false} KnownParentsNeedNothing(w: World, overwrites: bool, p: Path, n: nat)
    requires n <= |p| && forall k :: 0 < k <= n ==> OwnedDirectory(w.tree, p[..k])
    ensures EnsureParents(w, overwrites, p, n) == Going(w)
    decreases n
  {
    if n > 0 { KnownParentsNeedNothing(w, overwrites, p, n - 1); }
  }

  lemma AppendNothing(d: DiskState, p: Path)
    ensures IsFile(d, p) ==> Append(d, p, []) == d
  {
    if IsFile(d, p) && d.nodes[p].id in d.files {
      var id := d.nodes[p].id;
      assert d.files[id].contents + [] == d.files[id].contents;
      assert d.files[id := d.files[id].(contents := d.files[id].contents + [])] == d.files;
    }
  }

  lemma AppendTwice(d: DiskState, p: Path, a: seq<Byte>, b: seq<Byte>)
    ensures IsFile(d, p) ==> IsFile(Append(d, p, a), p) && Append(Append(d, p, a), p, b) == Append(d, p, a + b)
    ensures IsFile(d, p) ==> Append(d, p, a).dirs == d.dirs
  {
    if IsFile(d, p) && d.nodes[p].id in d.files {
      var id := d.nodes[p].id;
      assert d.files[id].contents + a + b == d.files[id].contents + (a + b);
    }
  }

  lemma AppendKeepsDirs(d: DiskState, p: Path, bytes: seq<Byte>)
    ensures IsFile(d, p) ==> Append(d, p, bytes).dirs == d.dirs
  {
  }

  lemma NewFileIsNoDirectory(d: DiskState, path: Path, executable: bool)
    ensures CreateNew(d, path, executable).Ok? ==> !IsDirectory(d, path)
  {
  }

  lemma LinksMore(symlinks: seq<PendingSymlink>, s: PendingSymlink)
    ensures LinksOf(symlinks + [s]) == LinksOf(symlinks) + [s.link]
  {
  }

  lemma FileDirs(d: DiskState, path: Path, target: Path, bytes: seq<Byte>)
    ensures HardLink(d, target, path).Ok? ==>
              var linked := HardLink(d, target, path).value;
              && linked.dirs == d.dirs && IsFile(linked, path)
              && (Truncate(linked, path).Ok? ==>
                    var empty := Truncate(linked, path).value;
                    empty.dirs == d.dirs && (IsFile(empty, path) ==> Append(empty, path, bytes).dirs == d.dirs))
  {
  }

  lemma SkippedChangesNothing(o: Outcome, overwrites: bool)
    ensures Next(o, overwrites, SkippedItem) == o
  {
  }

  lemma RefusedStops(o: Outcome, overwrites: bool, refusal: ExtractError)
    ensures Next(o, overwrites, RefusedItem(refusal)) == match o case Going(w) => Stopped(w.disk, refusal) case Stopped(_, _) => o
  {
  }

  /** Nothing after the first error changes what extraction came to. */
  lemma {:induction false} StopsForGood(w: World, overwrites: bool, items: seq<Item>, n: nat, m: nat)
    requires n <= m <= |items| && forall i :: 0 <= i < |items| ==> ItemValid(items[i])
    ensures ExtractItems(w, overwrites, items[..n]).Stopped? ==>
              ExtractItems(w, overwrites, items[..m]) == ExtractItems(w, overwrites, items[..n])
    decreases m
  {
    hide ExtractItem;
    if n < m {
      StopsForGood(w, overwrites, items, n, m - 1);
      assert items[..m][..m - 1] == items[..m - 1] && items[..m][m - 1] == items[m - 1];
    }
  }

  /** The directories' handles are as they were. */
  ghost predicate SameDirs(w: World, o: Outcome)
  {
    o.Going? ==> o.world.disk.dirs == w.disk.dirs && o.world.tree == w.tree && o.world.links == w.links
  }

  lemma {:induction false} MakingKeepsDirs(w: World, live: seq<nat>, n: nat)
    requires InRange(w, live) && n <= |live|
    ensures SameDirs(w, MakeUpTo(w, live, n))
  {
    if n > 0 { MakingKeepsDirs(w, live, n - 1); }
  }

  lemma {:induction false} CheckStopsForGood(w: World, policy: LinkPolicy, inspect: Inspection, n: nat, m: nat)
    requires n <= m <= |w.links|
    ensures CheckUpTo(w, policy, inspect, n).CheckFailed? ==> CheckUpTo(w, policy, inspect, m) == CheckUpTo(w, policy, inspect, n)
    decreases m
  {
    hide CheckTarget;
    if n < m { CheckStopsForGood(w, policy, inspect, n, m - 1); }
  }

  lemma CoherentDisk(w: World)
    requires Coherent(w)
    ensures DiskValid(w.disk)
  {
  }

  lemma NewDirectoryId(d: DiskState, path: Path)
    requires DiskValid(d)
    ensures CreateDir(d, path).Ok? ==> d.nextId in CreateDir(d, path).value.dirs && CreateDir(d, path).value.dirs[d.nextId] == path
  {
  }

  lemma HandleOfDirectory(d: DiskState, path: Path)
    requires DiskValid(d) && IsDirectory(d, path)
    ensures d.nodes[path].id in d.dirs && d.dirs[d.nodes[path].id] == path
  {
    assert NodeValid(d, path);
  }

  lemma ChildrenByComponent(tree: map<Path, ExtractedEntry>, p: Path)
    ensures HasActiveChildren(tree, p) <==> exists c :: p + [c] in tree
  {
    if q :| q in tree && q != [] && ParentOf(q) == p {
      assert q == p + [q[|q| - 1]];
    }
    if c :| p + [c] in tree {
      assert ParentOf(p + [c]) == p;
    }
  }
}
