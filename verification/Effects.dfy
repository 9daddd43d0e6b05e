/** What each member leaves on the disk, and that later members leave it alone. */
module Effects {
  import opened Octets
  import opened Components
  import opened Paths
  import opened Disk
  import opened Extraction
  import opened Conditions

  /** A file's data through one of its names. */
  function FileAt(d: DiskState, p: Path): Option<FileData>
  {
    if IsFile(d, p) && d.nodes[p].id in d.files then Some(d.files[d.nodes[p].id]) else None
  }

  /** The same inode under the same name, with the same data. */
  ghost predicate SameFile(d: DiskState, d': DiskState, q: Path)
  {
    q in d.nodes && q in d'.nodes && d'.nodes[q] == d.nodes[q] && FileAt(d', q) == FileAt(d, q)
  }

  /** Every file but the one named `p` is what it was. */
  ghost predicate KeepsFilesBut(d: DiskState, d': DiskState, p: Path)
  {
    forall q :: q != p && FileAt(d, q).Some? ==> SameFile(d, d', q)
  }

  ghost predicate KeepsFiles(d: DiskState, d': DiskState)
  {
    forall q :: FileAt(d, q).Some? ==> SameFile(d, d', q)
  }

  lemma NothingChanged(d: DiskState)
    ensures KeepsFiles(d, d)
  {
  }

  lemma CreatedFile(d: DiskState, p: Path, executable: bool, bytes: seq<Byte>)
    requires DiskValid(d) && CreateNew(d, p, executable).Ok?
    ensures var d' := CreateNew(d, p, executable).value;
            && KeepsFiles(d, d') && FileAt(d', p) == Some(FileData([], executable))
            && KeepsFiles(d, Append(d', p, bytes)) && FileAt(Append(d', p, bytes), p) == Some(FileData(bytes, executable))
  {
    assert [] + bytes == bytes;
    forall q | FileAt(d, q).Some? ensures d.nodes[q].id < d.nextId && q != p {
      assert NodeValid(d, q);
    }
  }

  lemma RemovedLeaf(d: DiskState, p: Path)
    requires p in d.nodes && RemoveLeaf(d, p).Ok?
    ensures KeepsFilesBut(d, RemoveLeaf(d, p).value, p)
  {
  }

  lemma CreatedAndWritten(d: DiskState, p: Path, executable: bool, contents: seq<Byte>)
    requires DiskValid(d) && CreateAndWrite(d, p, executable, contents).error.None?
    ensures var d' := CreateAndWrite(d, p, executable, contents).disk;
            KeepsFiles(d, d') && FileAt(d', p) == Some(FileData(contents, executable))
  {
    hide DiskValid, FileAt;
    CreatedFile(d, p, executable, contents);
  }

  /** A buffered write that succeeds leaves exactly its contents, and every other file as it was. */
  lemma BufferedWriteEffect(d: DiskState, p: Path, executable: bool, contents: seq<Byte>, replacement: Replacement)
    requires DiskValid(d) && WriteBuffered(d, p, executable, contents, replacement).error.None?
    ensures var d' := WriteBuffered(d, p, executable, contents, replacement).disk;
            KeepsFilesBut(d, d', p) && FileAt(d', p) == Some(FileData(contents, executable))
  {
    hide DiskValid, CreateAndWrite, FileAt;
    RemovedFile(d, p);
    if replacement == ExpectedFile && RemoveFile(d, p).Ok? {
      CreatedAndWritten(RemoveFile(d, p).value, p, executable, contents);
    } else if CreateNew(d, p, executable).Ok? {
      CreatedAndWritten(d, p, executable, contents);
    } else if p in d.nodes && RemoveLeaf(d, p).Ok? {
      RemovedLeaf(d, p);
      CreatedAndWritten(RemoveLeaf(d, p).value, p, executable, contents);
    }
  }

  lemma RemovedFile(d: DiskState, p: Path)
    ensures RemoveFile(d, p).Ok? ==> KeepsFilesBut(d, RemoveFile(d, p).value, p)
  {
  }

  lemma ReplacedLeaf(w: World, overwrites: bool, p: Path)
    ensures ReplaceLeaf(w, overwrites, p).Replaced? ==> KeepsFilesBut(w.disk, ReplaceLeaf(w, overwrites, p).world.disk, p)
  {
    hide FileAt;
    NothingChanged(w.disk);
    if p in w.disk.nodes && RemoveLeaf(w.disk, p).Ok? { RemovedLeaf(w.disk, p); }
  }

  lemma CreatedDirectoryKeeps(d: DiskState, p: Path)
    ensures CreateDir(d, p).Ok? ==> KeepsFiles(d, CreateDir(d, p).value)
  {
  }

  /** Making a directory touches no file, except one it is explicitly put in place of. */
  lemma DirectoryEffect(w: World, overwrites: bool, p: Path, explicit: bool)
    requires EnsureDirectory(w, overwrites, p, explicit).Going?
    ensures var d := EnsureDirectory(w, overwrites, p, explicit).world.disk;
            KeepsFilesBut(w.disk, d, p) && (!explicit ==> KeepsFiles(w.disk, d))
  {
    hide FileAt, ReplaceLeaf, CreateDir;
    NothingChanged(w.disk);
    CreatedDirectoryKeeps(w.disk, p);
    var r := ReplaceLeaf(w, overwrites, p);
    ReplacedLeaf(w, overwrites, p);
    if r.Replaced? {
      CreatedDirectoryKeeps(r.world.disk, p);
      ReplacedLeaf(r.world, overwrites, p);
      var again := ReplaceLeaf(r.world, overwrites, p);
      if again.Replaced? { CreatedDirectoryKeeps(again.world.disk, p); }
    }
  }

  /** Implicit parents touch no file at all. */
  lemma {:induction false} ParentsEffect(w: World, overwrites: bool, p: Path, n: nat)
    requires n <= |p| && EnsureParents(w, overwrites, p, n).Going?
    ensures KeepsFiles(w.disk, EnsureParents(w, overwrites, p, n).world.disk)
    decreases n
  {
    hide FileAt, EnsureDirectory;
    NothingChanged(w.disk);
    if n > 0 {
      ParentsEffect(w, overwrites, p, n - 1);
      DirectoryEffect(EnsureParents(w, overwrites, p, n - 1).world, overwrites, p[..n], false);
    }
  }

  /** A small file that is extracted holds exactly the member's payload, with its executable bit, and is owned. */
  lemma SmallFileEffect(w: World, overwrites: bool, p: Path, executable: bool, contents: seq<Byte>)
    requires Coherent(w) && p != [] && ExtractSmallFile(w, overwrites, p, executable, contents).Going?
    ensures var w' := ExtractSmallFile(w, overwrites, p, executable, contents).world;
            && FileAt(w'.disk, p) == Some(FileData(contents, executable)) && p in w'.tree && w'.tree[p] == FileEntry
            && KeepsFilesBut(w.disk, w'.disk, p)
  {
    hide Coherent, EnsureParents, ReplaceLeaf, FileAt, WriteBuffered;
    ParentsEffect(w, overwrites, p, |p| - 1);
    EnsureParentsKeeps(w, overwrites, p, |p| - 1);
    var w1 := EnsureParents(w, overwrites, p, |p| - 1).world;
    ReplacedLeaf(w1, overwrites, p);
    ReplaceLeafKeeps(w1, overwrites, p);
    var w2 := if p in w1.tree && w1.tree[p].SymlinkEntry? && ReplaceLeaf(w1, overwrites, p).Replaced?
              then ReplaceLeaf(w1, overwrites, p).world else w1;
    DiskOf(w2);
    BufferedWriteEffect(w2.disk, p, executable, contents, ReplacementFor(w2, overwrites, p));
  }

  lemma DiskOf(w: World)
    requires Coherent(w)
    ensures DiskValid(w.disk)
  {
  }

  lemma OpenedEffect(w: World, overwrites: bool, p: Path, executable: bool)
    requires Coherent(w) && p != [] && OpenOrReplace(w, overwrites, p, executable).Going?
    ensures var w' := OpenOrReplace(w, overwrites, p, executable).world;
            && FileAt(w'.disk, p) == Some(FileData([], executable)) && p in w'.tree && w'.tree[p] == FileEntry
            && KeepsFilesBut(w.disk, w'.disk, p)
  {
    hide Coherent, ReplaceLeaf, FileAt, CreateNew;
    DiskOf(w);
    if CreateNew(w.disk, p, executable).Ok? {
      CreatedFile(w.disk, p, executable, []);
    } else {
      ReplacedLeaf(w, overwrites, p);
      ReplaceLeafKeeps(w, overwrites, p);
      DiskOf(ReplaceLeaf(w, overwrites, p).world);
      CreatedFile(ReplaceLeaf(w, overwrites, p).world.disk, p, executable, []);
    }
  }

  lemma AppendedEffect(d: DiskState, p: Path, bytes: seq<Byte>)
    requires FileAt(d, p).Some?
    ensures FileAt(Append(d, p, bytes), p) == Some(FileAt(d, p).value.(contents := FileAt(d, p).value.contents + bytes))
  {
  }

  /** A large file that is extracted holds exactly what its payload delivered. */
  lemma LargeFileEffect(w: World, overwrites: bool, p: Path, executable: bool, payload: Payload)
    requires Coherent(w) && p != [] && ExtractLargeFile(w, overwrites, p, executable, payload).Going?
    ensures var w' := ExtractLargeFile(w, overwrites, p, executable, payload).world;
            FileAt(w'.disk, p) == Some(FileData(payload.bytes, executable)) && p in w'.tree && w'.tree[p] == FileEntry
  {
    hide Coherent, EnsureParents, ReplaceLeaf, FileAt, OpenOrReplace, Append;
    EnsureParentsKeeps(w, overwrites, p, |p| - 1);
    var w1 := EnsureParents(w, overwrites, p, |p| - 1).world;
    ReplaceLeafKeeps(w1, overwrites, p);
    var w2 := if p in w1.tree && w1.tree[p].SymlinkEntry? && ReplaceLeaf(w1, overwrites, p).Replaced?
              then ReplaceLeaf(w1, overwrites, p).world else w1;
    OpenedEffect(w2, overwrites, p, executable);
    var w3 := OpenOrReplace(w2, overwrites, p, executable).world;
    FileIsFile(w3.disk, p);
    AppendedEffect(w3.disk, p, payload.bytes);
    assert [] + payload.bytes == payload.bytes;
  }

  lemma FileIsFile(d: DiskState, p: Path)
    requires FileAt(d, p).Some?
    ensures IsFile(d, p)
  {
  }

  /** The link itself: one more name of the target's inode, whose contents the member's own payload replaces, if it has one. */
  lemma LinkAndWriteEffect(w: World, p: Path, target: Path, size: nat, payload: Payload)
    requires Coherent(w) && target != p && p !in w.disk.nodes && FileAt(w.disk, target).Some?
    requires LinkAndWrite(w, p, target, size, payload).Going?
    ensures LinkedTo(w.disk, LinkAndWrite(w, p, target, size, payload).world.disk, p, target, size, payload.bytes)
    ensures var w' := LinkAndWrite(w, p, target, size, payload).world;
            w'.tree == w.tree[p := FileEntry] && w'.links == w.links
  {
    hide DiskValid;
    assert [] + payload.bytes == payload.bytes;
  }

  /**
   * `p` has become a name of the file at `target`. With a payload, that file's contents are the payload under every
   * name it has; without one nothing is rewritten. All other files are what they were.
   */
  ghost predicate LinkedTo(d: DiskState, d': DiskState, p: Path, target: Path, size: nat, bytes: seq<Byte>)
  {
    && target in d.nodes && target in d'.nodes && p in d'.nodes && d'.nodes[p] == d'.nodes[target] == d.nodes[target]
    && FileAt(d, target).Some?
    && (forall q :: q in d'.nodes && d'.nodes[q] == d.nodes[target] ==>
          FileAt(d', q) == Some(if size == 0 then FileAt(d, target).value else FileAt(d, target).value.(contents := bytes)))
    && (forall q :: q != p && FileAt(d, q).Some? && (size == 0 || d.nodes[q] != d.nodes[target]) ==> SameFile(d, d', q))
  }

  lemma TargetIsFile(w: World, target: Path)
    requires Coherent(w) && target in w.tree && w.tree[target] == FileEntry
    ensures FileAt(w.disk, target).Some?
  {
    assert EntryOnDisk(w, target) && NodeValid(w.disk, target);
  }

  /** Linking after changes that kept every file but `p` is linking on the disk before them. */
  lemma LinkedFromBefore(d: DiskState, d1: DiskState, d': DiskState, p: Path, target: Path, size: nat, bytes: seq<Byte>)
    requires KeepsFilesBut(d, d1, p) && target != p && FileAt(d, target).Some?
    requires LinkedTo(d1, d', p, target, size, bytes)
    ensures LinkedTo(d, d', p, target, size, bytes)
  {
    hide FileAt;
    assert SameFile(d, d1, target);
    forall q | q != p && FileAt(d, q).Some? && (size == 0 || d.nodes[q] != d.nodes[target]) ensures SameFile(d, d', q) {
      assert SameFile(d, d1, q);
    }
  }

  /**
   * A whole hard-link member: its target was a file made by this extraction, and after parents are made and an old
   * leaf is replaced, the member is one more name of that very file.
   */
  lemma HardLinkEffect(w: World, overwrites: bool, position: nat, p: Path, text: seq<Byte>, size: nat, payload: Payload)
    requires Coherent(w) && p != [] && ExtractHardLink(w, overwrites, position, p, text, size, payload).Going?
    ensures var w' := ExtractHardLink(w, overwrites, position, p, text, size, payload).world;
            && LinkTarget([], text, false).Ok?
            && var target := LinkTarget([], text, false).value;
            && HardLinkFault(w, p, target).None?
            && LinkedTo(w.disk, w'.disk, p, target, size, payload.bytes)
            && p in w'.tree && w'.tree[p] == FileEntry && target in w'.tree && w'.tree[target] == FileEntry
  {
    hide Coherent, EnsureParents, ReplaceLeaf, FileAt, LinkAndWrite, KeepsFiles, KeepsFilesBut, LinkedTo, LinkTarget;
    var target := LinkTarget([], text, false).value;
    TargetIsFile(w, target);
    ParentsEffect(w, overwrites, p, |p| - 1);
    var w1 := EnsureParents(w, overwrites, p, |p| - 1).world;
    HardLinkTargetLives(w, overwrites, p, target, w1);
    ReplacedLeaf(w1, overwrites, p);
    ReplaceLeafKeeps(w1, overwrites, p);
    KeptThrough(w.disk, w1.disk, w1.disk, p);
    var w2 := if ReplaceLeaf(w1, overwrites, p).Replaced? then ReplaceLeaf(w1, overwrites, p).world else w1;
    if ReplaceLeaf(w1, overwrites, p).Replaced? { KeptThrough(w.disk, w1.disk, w2.disk, p); }
    TargetIsFile(w2, target);
    LinkAndWriteEffect(w2, p, target, size, payload);
    LinkedFromBefore(w.disk, w2.disk, LinkAndWrite(w2, p, target, size, payload).world.disk, p, target, size, payload.bytes);
  }

  lemma KeptThrough(d: DiskState, d1: DiskState, d2: DiskState, p: Path)
    requires KeepsFiles(d, d1) && (d1 == d2 || KeepsFilesBut(d1, d2, p))
    ensures KeepsFilesBut(d, d2, p)
  {
    hide FileAt;
    forall q | q != p && FileAt(d, q).Some? ensures SameFile(d, d2, q) {
      assert SameFile(d, d1, q);
    }
  }

  /** A directory member that succeeds is an owned directory. */
  lemma DirectoryMemberEffect(w: World, overwrites: bool, p: Path)
    requires Coherent(w) && p != [] && ExtractDirectory(w, overwrites, p).Going?
    ensures var w' := ExtractDirectory(w, overwrites, p).world; OwnedDirectory(w'.tree, p) && IsDirectory(w'.disk, p)
  {
    hide Coherent, EnsureParents, EnsureDirectory;
    EnsureParentsKeeps(w, overwrites, p, |p| - 1);
    assert p[..|p| - 1] == ParentOf(p);
    var w1 := EnsureParents(w, overwrites, p, |p| - 1).world;
    EnsureDirectoryKeeps(w1, overwrites, p, true);
    OnDisk(EnsureDirectory(w1, overwrites, p, true).world, p);
  }

  lemma LargeFileKeeps(w: World, overwrites: bool, p: Path, executable: bool, payload: Payload)
    requires Coherent(w) && p != [] && ExtractLargeFile(w, overwrites, p, executable, payload).Going?
    ensures KeepsFilesBut(w.disk, ExtractLargeFile(w, overwrites, p, executable, payload).world.disk, p)
  {
    hide Coherent, EnsureParents, ReplaceLeaf, FileAt, OpenOrReplace, Append;
    ParentsEffect(w, overwrites, p, |p| - 1);
    EnsureParentsKeeps(w, overwrites, p, |p| - 1);
    var w1 := EnsureParents(w, overwrites, p, |p| - 1).world;
    ReplacedLeaf(w1, overwrites, p);
    ReplaceLeafKeeps(w1, overwrites, p);
    var w2 := if p in w1.tree && w1.tree[p].SymlinkEntry? && ReplaceLeaf(w1, overwrites, p).Replaced?
              then ReplaceLeaf(w1, overwrites, p).world else w1;
    DiskOf(w2);
    OpenedAppendKeeps(w2, overwrites, p, executable, payload.bytes);
    OpenedEffect(w2, overwrites, p, executable);
    FileIsFile(OpenOrReplace(w2, overwrites, p, executable).world.disk, p);
  }

  lemma OpenedAppendKeeps(w: World, overwrites: bool, p: Path, executable: bool, bytes: seq<Byte>)
    requires Coherent(w) && p != [] && OpenOrReplace(w, overwrites, p, executable).Going?
    ensures var d := OpenOrReplace(w, overwrites, p, executable).world.disk;
            IsFile(d, p) ==> KeepsFilesBut(w.disk, Append(d, p, bytes), p)
  {
    hide Coherent, ReplaceLeaf, FileAt, CreateNew, Append;
    DiskOf(w);
    if CreateNew(w.disk, p, executable).Ok? {
      CreatedFile(w.disk, p, executable, bytes);
    } else {
      ReplacedLeaf(w, overwrites, p);
      ReplaceLeafKeeps(w, overwrites, p);
      DiskOf(ReplaceLeaf(w, overwrites, p).world);
      CreatedFile(ReplaceLeaf(w, overwrites, p).world.disk, p, executable, bytes);
    }
  }

  /** A hard link that carries a payload, to a file that `p` is also a name of. */
  ghost predicate Rewrites(w: World, item: Item, p: Path)
  {
    && item.HardLinkItem? && item.size > 0 && LinkTarget([], item.target, false).Ok?
    && var target := LinkTarget([], item.target, false).value;
    && target in w.disk.nodes && p in w.disk.nodes && w.disk.nodes[target] == w.disk.nodes[p]
  }

  lemma LinkKeepsOthers(w: World, overwrites: bool, item: Item, q: Path)
    requires Coherent(w) && ItemValid(item) && item.HardLinkItem? && ExtractItem(w, overwrites, item).Going?
    requires item.path != q && !Rewrites(w, item, q) && FileAt(w.disk, q).Some?
    ensures SameFile(w.disk, ExtractItem(w, overwrites, item).world.disk, q)
  {
    hide Coherent, FileAt, ExtractHardLink, LinkTarget;
    HardLinkEffect(w, overwrites, item.position, item.path, item.target, item.size, item.payload);
    FileIsFile(w.disk, q);
  }

  /** A member touches no file but at its own path, except that a hard link with a payload rewrites its target. */
  lemma ItemKeepsOthers(w: World, overwrites: bool, item: Item, q: Path)
    requires Coherent(w) && ItemValid(item) && ExtractItem(w, overwrites, item).Going?
    requires Touches(item) != Some(q) && !Rewrites(w, item, q) && FileAt(w.disk, q).Some?
    ensures SameFile(w.disk, ExtractItem(w, overwrites, item).world.disk, q)
  {
    if item.HardLinkItem? {
      LinkKeepsOthers(w, overwrites, item, q);
      return;
    }
    hide Coherent, FileAt, ExtractSmallFile, ExtractLargeFile, ExtractDirectory, ReserveSymlink;
    NothingChanged(w.disk);
    match item
    case FileItem(path, size, executable, payload) =>
      if size > BUFFERED_PAYLOAD_MAX_BYTES {
        LargeFileKeeps(w, overwrites, path, executable, payload);
      } else {
        SmallFileEffect(w, overwrites, path, executable, payload.bytes);
      }
    case DirectoryItem(path) => DirectoryKeeps(w, overwrites, path);
    case SymlinkItem(position, path, target) => SymlinkKeeps(w, overwrites, position, path, target);
    case _ =>
  }

  lemma DirectoryKeeps(w: World, overwrites: bool, p: Path)
    requires Coherent(w) && ExtractDirectory(w, overwrites, p).Going?
    ensures KeepsFilesBut(w.disk, ExtractDirectory(w, overwrites, p).world.disk, p)
  {
    hide Coherent, FileAt, EnsureParents, EnsureDirectory, SameFile;
    NothingChanged(w.disk);
    if p != [] {
      ParentsEffect(w, overwrites, p, |p| - 1);
      var w1 := EnsureParents(w, overwrites, p, |p| - 1).world;
      DirectoryEffect(w1, overwrites, p, true);
      KeptThrough(w.disk, w1.disk, EnsureDirectory(w1, overwrites, p, true).world.disk, p);
    }
  }

  lemma SymlinkKeeps(w: World, overwrites: bool, position: nat, p: Path, target: seq<Byte>)
    requires Coherent(w) && p != [] && ReserveSymlink(w, overwrites, position, p, target).Going?
    ensures KeepsFilesBut(w.disk, ReserveSymlink(w, overwrites, position, p, target).world.disk, p)
  {
    hide Coherent, FileAt, EnsureParents, ReplaceLeaf, LinkTarget, SameFile;
    ParentsEffect(w, overwrites, p, |p| - 1);
    var w1 := EnsureParents(w, overwrites, p, |p| - 1).world;
    ReplacedLeaf(w1, overwrites, p);
    KeptThrough(w.disk, w1.disk, w1.disk, p);
    var r := ReplaceLeaf(w1, overwrites, p);
    if r.Replaced? { KeptThrough(w.disk, w1.disk, r.world.disk, p); }
  }

  /** A file member leaves its payload at its path. */
  lemma FileItemEffect(w: World, overwrites: bool, item: Item)
    requires Coherent(w) && ItemValid(item) && item.FileItem? && ExtractItem(w, overwrites, item).Going?
    ensures FileAt(ExtractItem(w, overwrites, item).world.disk, item.path) == Some(FileData(item.payload.bytes, item.executable))
  {
    hide Coherent, FileAt, ExtractSmallFile, ExtractLargeFile;
    if item.size > BUFFERED_PAYLOAD_MAX_BYTES {
      LargeFileEffect(w, overwrites, item.path, item.executable, item.payload);
    } else {
      SmallFileEffect(w, overwrites, item.path, item.executable, item.payload.bytes);
    }
  }

  /** Item `j` of a run rewrites the file at `p` through another name. */
  ghost predicate RewrittenBy(d: DiskState, overwrites: bool, items: seq<Item>, j: nat, p: Path)
    requires j < |items| && forall k :: 0 <= k < |items| ==> ItemValid(items[k])
  {
    var before := ExtractItems(Opened(d), overwrites, items[..j]);
    before.Going? && Rewrites(before.world, items[j], p)
  }

  /** A link extracted with this text: where it is owned, and what is recorded of it. */
  ghost predicate HoldsLink(w: World, p: Path, position: nat, text: seq<Byte>)
    requires p != []
  {
    && p in w.tree && w.tree[p].SymlinkEntry? && w.tree[p].index < |w.links|
    && var link := w.links[w.tree[p].index];
    && link.path == p && link.position == position && link.target == text
    && Some(link.resolved) == Resolve(ParentOf(p), SplitPath(text))
    && (link.requiresDirectory <==> var all := SplitPath(text); all[|all| - 1] in [[], [DOT], [DOT, DOT]])
  }

  /**
   * A whole symbolic-link member: its own text is recorded for its own path, with where that text leads from there;
   * nothing stands at the path until the end, and no other name is touched.
   */
  lemma SymlinkEffect(w: World, overwrites: bool, position: nat, p: Path, text: seq<Byte>)
    requires Coherent(w) && p != [] && ReserveSymlink(w, overwrites, position, p, text).Going?
    ensures var w' := ReserveSymlink(w, overwrites, position, p, text).world;
            && HoldsLink(w', p, position, text) && w'.tree[p] == SymlinkEntry(|w.links|) && |w'.links| == |w.links| + 1
            && p !in w'.disk.nodes && OnlyOn(w, w', p) && KeepsFilesBut(w.disk, w'.disk, p)
  {
    hide Coherent, EnsureParents, ReplaceLeaf, SplitPath, OnlyOn, KeepsFilesBut, LinkTarget, Resolve;
    SymlinkOnly(w, overwrites, position, p, text);
    SymlinkKeeps(w, overwrites, position, p, text);
    TargetIff(ParentOf(p), text, true);
    var w1 := EnsureParents(w, overwrites, p, |p| - 1).world;
    EnsureParentsKeeps(w, overwrites, p, |p| - 1);
    ReplaceLeafKeeps(w1, overwrites, p);
  }

  lemma RootOwned(w: World)
    requires Coherent(w)
    ensures OwnedDirectory(w.tree, []) && IsDirectory(w.disk, [])
  {
  }

  lemma KeptItself(w: World, overwrites: bool)
    ensures ExtractDirectory(w, overwrites, []) == Going(w)
  {
  }

  /** What each kind of member leaves at its path. */
  ghost predicate Left(w: World, w': World, item: Item)
  {
    match item
    case FileItem(p, _, executable, payload) =>
      p in w'.tree && w'.tree[p] == FileEntry && FileAt(w'.disk, p) == Some(FileData(payload.bytes, executable))
    case DirectoryItem(p) => OwnedDirectory(w'.tree, p) && IsDirectory(w'.disk, p)
    case SymlinkItem(position, p, text) => p != [] && HoldsLink(w', p, position, text) && p !in w'.disk.nodes
    case HardLinkItem(_, p, text, size, payload) =>
      && Resolve([], SplitPath(text)).Some?
      && LinkedTo(w.disk, w'.disk, p, Resolve([], SplitPath(text)).value, size, payload.bytes)
    case SkippedItem => w' == w
    case RefusedItem(_) => false
  }

  lemma ItemEffect(w: World, overwrites: bool, item: Item)
    requires Coherent(w) && ItemValid(item) && ExtractItem(w, overwrites, item).Going?
    ensures Left(w, ExtractItem(w, overwrites, item).world, item)
  {
    hide Coherent, FileAt, ExtractSmallFile, ExtractLargeFile, ExtractDirectory, ReserveSymlink, ExtractHardLink, SplitPath, Resolve,
         LinkedTo, HoldsLink, OnlyOn, KeepsFilesBut, LinkTarget;
    match item
    case FileItem(path, size, executable, payload) =>
      if size > BUFFERED_PAYLOAD_MAX_BYTES {
        LargeFileEffect(w, overwrites, path, executable, payload);
      } else {
        SmallFileEffect(w, overwrites, path, executable, payload.bytes);
      }
    case DirectoryItem(path) =>
      if path == [] {
        RootOwned(w);
        KeptItself(w, overwrites);
      } else {
        DirectoryMemberEffect(w, overwrites, path);
      }
    case SymlinkItem(position, path, text) => SymlinkEffect(w, overwrites, position, path, text);
    case HardLinkItem(position, path, text, size, payload) =>
      HardLinkEffect(w, overwrites, position, path, text, size, payload);
      TargetIff([], text, false);
    case _ =>
  }

  // --------------------------------------------------------------- whole runs
  // --------------------------------------------------------------- whole runs

  lemma {:induction false} PrefixGoes(d: DiskState, overwrites: bool, items: seq<Item>, i: nat)
    requires i <= |items| && forall j :: 0 <= j < |items| ==> ItemValid(items[j])
    requires ExtractItems(Opened(d), overwrites, items).Going?
    ensures ExtractItems(Opened(d), overwrites, items[..i]).Going?
    decreases |items|
  {
    hide ExtractItem;
    if i == |items| {
      assert items[..i] == items;
    } else {
      var init := items[..|items| - 1];
      assert init[..i] == items[..i];
      PrefixGoes(d, overwrites, init, i);
    }
  }

  /** What is owned stays as it is, on the disk too, until a member is extracted at that very path; links are only added. */
  lemma {:induction false} OwnedStays(d: DiskState, overwrites: bool, items: seq<Item>, i: nat, q: Path)
    requires DiskValid(d) && i <= |items| && forall j :: 0 <= j < |items| ==> ItemValid(items[j])
    requires ExtractItems(Opened(d), overwrites, items).Going? && ExtractItems(Opened(d), overwrites, items[..i]).Going?
    requires forall j :: i <= j < |items| ==> Touches(items[j]) != Some(q)
    ensures var early, late := ExtractItems(Opened(d), overwrites, items[..i]).world, ExtractItems(Opened(d), overwrites, items).world;
            KeptAt(early, late, q) && early.links <= late.links
    decreases |items|
  {
    hide Coherent, ExtractItem, DiskValid;
    if i == |items| {
      assert items[..i] == items;
    } else {
      var init, last := items[..|items| - 1], items[|items| - 1];
      assert init[..i] == items[..i];
      RunsStayCoherent(d, overwrites, init);
      OwnedStays(d, overwrites, init, i, q);
      var w := ExtractItems(Opened(d), overwrites, init).world;
      ItemOnly(w, overwrites, last);
      if Touches(last).Some? { assert KeptAt(w, ExtractItem(w, overwrites, last).world, q); }
    }
  }

  /** A file stays the same file with the same data until a member is extracted at its path or rewrites it through another name. */
  lemma {:induction false} FileStays(d: DiskState, overwrites: bool, items: seq<Item>, i: nat, p: Path)
    requires DiskValid(d) && i <= |items| && forall j :: 0 <= j < |items| ==> ItemValid(items[j])
    requires forall j :: i <= j < |items| ==> Touches(items[j]) != Some(p) && !RewrittenBy(d, overwrites, items, j, p)
    requires ExtractItems(Opened(d), overwrites, items).Going? && ExtractItems(Opened(d), overwrites, items[..i]).Going?
    requires FileAt(ExtractItems(Opened(d), overwrites, items[..i]).world.disk, p).Some?
    ensures SameFile(ExtractItems(Opened(d), overwrites, items[..i]).world.disk,
                     ExtractItems(Opened(d), overwrites, items).world.disk, p)
    decreases |items|
  {
    hide Coherent, FileAt, ExtractItem, DiskValid, Rewrites;
    if i == |items| {
      assert items[..i] == items;
      FileIsFile(ExtractItems(Opened(d), overwrites, items).world.disk, p);
    } else {
      var init, last := items[..|items| - 1], items[|items| - 1];
      assert init[..i] == items[..i];
      RunsStayCoherent(d, overwrites, init);
      forall j | i <= j < |init| ensures !RewrittenBy(d, overwrites, init, j, p) {
        assert init[..j] == items[..j];
        assert !RewrittenBy(d, overwrites, items, j, p);
      }
      FileStays(d, overwrites, init, i, p);
      assert !RewrittenBy(d, overwrites, items, |items| - 1, p);
      ItemKeepsOthers(ExtractItems(Opened(d), overwrites, init).world, overwrites, last, p);
    }
  }

  /** The worlds before and after one item of a run. */
  lemma AroundItem(d: DiskState, overwrites: bool, items: seq<Item>, i: nat) returns (before: World)
    requires DiskValid(d) && i < |items| && forall j :: 0 <= j < |items| ==> ItemValid(items[j])
    requires ExtractItems(Opened(d), overwrites, items).Going?
    ensures Coherent(before) && ExtractItems(Opened(d), overwrites, items[..i]) == Going(before)
    ensures ExtractItem(before, overwrites, items[i]).Going?
    ensures ExtractItems(Opened(d), overwrites, items[..i + 1]) == ExtractItem(before, overwrites, items[i])
  {
    hide Coherent, ExtractItem, DiskValid;
    PrefixGoes(d, overwrites, items, i + 1);
    PrefixGoes(d, overwrites, items, i);
    RunsStayCoherent(d, overwrites, items[..i]);
    before := ExtractItems(Opened(d), overwrites, items[..i]).world;
    assert items[..i + 1][..i] == items[..i];
  }

  /**
   * At the end of a run, every path whose last member is a file holds that member's payload and executable bit,
   * whatever came before and whatever came after elsewhere, unless a later hard link carried a payload for that
   * very file.
   */
  lemma LastFileMemberStays(d: DiskState, overwrites: bool, items: seq<Item>, i: nat)
    requires DiskValid(d) && i < |items| && items[i].FileItem?
    requires forall j :: 0 <= j < |items| ==> ItemValid(items[j])
    requires forall j :: i < j < |items| ==>
               Touches(items[j]) != Some(items[i].path) && !RewrittenBy(d, overwrites, items, j, items[i].path)
    requires ExtractItems(Opened(d), overwrites, items).Going?
    ensures FileAt(ExtractItems(Opened(d), overwrites, items).world.disk, items[i].path)
            == Some(FileData(items[i].payload.bytes, items[i].executable))
  {
    hide Coherent, FileAt, ExtractItem, DiskValid, RewrittenBy, ExtractItems;
    var before := AroundItem(d, overwrites, items, i);
    FileItemEffect(before, overwrites, items[i]);
    FileStays(d, overwrites, items, i + 1, items[i].path);
  }

  /** At the end of a run, every path whose last member is a directory is an owned directory on the disk. */
  lemma LastDirectoryMemberStays(d: DiskState, overwrites: bool, items: seq<Item>, i: nat)
    requires DiskValid(d) && i < |items| && items[i].DirectoryItem?
    requires forall j :: 0 <= j < |items| ==> ItemValid(items[j])
    requires forall j :: i < j < |items| ==> Touches(items[j]) != Some(items[i].path)
    requires ExtractItems(Opened(d), overwrites, items).Going?
    ensures var w := ExtractItems(Opened(d), overwrites, items).world;
            OwnedDirectory(w.tree, items[i].path) && IsDirectory(w.disk, items[i].path)
  {
    hide Coherent, ExtractDirectory, DiskValid, ExtractItems;
    var before := AroundItem(d, overwrites, items, i);
    if items[i].path == [] {
      RootOwned(before);
      KeptItself(before, overwrites);
    } else {
      DirectoryMemberEffect(before, overwrites, items[i].path);
    }
    OwnedStays(d, overwrites, items, i + 1, items[i].path);
  }

  /** At the end of a run, every path whose last member is a symbolic link holds that member's own text. */
  lemma LastSymlinkMemberStays(d: DiskState, overwrites: bool, items: seq<Item>, i: nat)
    requires DiskValid(d) && i < |items| && items[i].SymlinkItem?
    requires forall j :: 0 <= j < |items| ==> ItemValid(items[j])
    requires forall j :: i < j < |items| ==> Touches(items[j]) != Some(items[i].path)
    requires ExtractItems(Opened(d), overwrites, items).Going?
    ensures items[i].path != []
    ensures HoldsLink(ExtractItems(Opened(d), overwrites, items).world, items[i].path, items[i].position, items[i].target)
  {
    hide Coherent, ReserveSymlink, DiskValid, ExtractItems, SplitPath, Resolve, OnlyOn, KeepsFilesBut;
    var before := AroundItem(d, overwrites, items, i);
    SymlinkEffect(before, overwrites, items[i].position, items[i].path, items[i].target);
    OwnedStays(d, overwrites, items, i + 1, items[i].path);
  }

  /**
   * At the end of a run, every path whose last member is a hard link is a name of the file its text names, as long as
   * no later member came to either path; with a payload of its own, that file holds the payload, unless it was
   * rewritten again.
   */
  lemma LastHardLinkMemberStays(d: DiskState, overwrites: bool, items: seq<Item>, i: nat, target: Path)
    requires DiskValid(d) && i < |items| && items[i].HardLinkItem? && Resolve([], SplitPath(items[i].target)) == Some(target)
    requires forall j :: 0 <= j < |items| ==> ItemValid(items[j])
    requires forall j :: i < j < |items| ==> Touches(items[j]) != Some(items[i].path)
    requires ExtractItems(Opened(d), overwrites, items).Going?
    ensures var after := ExtractItems(Opened(d), overwrites, items).world.disk;
            && IsFile(after, items[i].path)
            && ((forall j :: i < j < |items| ==> Touches(items[j]) != Some(target)) ==>
                  target in after.nodes && after.nodes[items[i].path] == after.nodes[target])
            && (items[i].size > 0 && (forall j :: i < j < |items| ==> !RewrittenBy(d, overwrites, items, j, items[i].path)) ==>
                  FileAt(after, items[i].path).Some? && FileAt(after, items[i].path).value.contents == items[i].payload.bytes)
  {
    hide Coherent, ExtractHardLink, DiskValid, ExtractItems, SplitPath, Resolve, RewrittenBy, FileAt, LinkTarget;
    var item := items[i];
    var before := AroundItem(d, overwrites, items, i);
    HardLinkEffect(before, overwrites, item.position, item.path, item.target, item.size, item.payload);
    TargetIff([], item.target, false);
    var linked := ExtractItem(before, overwrites, item).world;
    LinkedName(before.disk, linked.disk, item.path, target, item.size, item.payload.bytes);
    OwnedStays(d, overwrites, items, i + 1, item.path);
    if forall j :: i < j < |items| ==> Touches(items[j]) != Some(target) { OwnedStays(d, overwrites, items, i + 1, target); }
    if forall j :: i < j < |items| ==> !RewrittenBy(d, overwrites, items, j, item.path) {
      FileStays(d, overwrites, items, i + 1, item.path);
    }
  }

  lemma LinkedName(d: DiskState, d': DiskState, p: Path, target: Path, size: nat, bytes: seq<Byte>)
    requires LinkedTo(d, d', p, target, size, bytes)
    ensures IsFile(d', p) && FileAt(d', p).Some? && target in d'.nodes && d'.nodes[p] == d'.nodes[target]
    ensures size > 0 ==> FileAt(d', p).value.contents == bytes
  {
    assert FileAt(d', p) == Some(if size == 0 then FileAt(d, target).value else FileAt(d, target).value.(contents := bytes));
  }
}
