/** What extracting one member at a time means: the disk, the archive-owned paths and the deferred links after each. */
module Extraction {
  import opened Octets
  import opened Components
  import opened Paths
  import opened Disk

  datatype ExtractedEntry = FileEntry | CreatedDirectory | AmbientDirectory | SymlinkEntry(index: nat)

  /** A symbolic link to be created once every member has been extracted. */
  datatype PendingLink = PendingLink(path: Path, position: nat, target: seq<Byte>, resolved: Path, requiresDirectory: bool)

  datatype Operation =
    | OpenDirectory | CreateFile | CreateDirectory | CreateHardLink | CreateSymbolicLink | RemoveFileLeaf | RemoveDirectoryLeaf
    | TruncateFile

  datatype LinkReason =
    | TargetNotExtracted | TargetIsMember | TargetIsAncestor
    | TargetCycle | ExpansionLimit | WorkLimit
    | TargetEmpty
    | TargetNotOwned | AmbientTarget | TargetMissing | TargetNotDirectory

  datatype ExtractError =
    | PathCollision(path: Path)
    | Filesystem(operation: Operation, path: Path, io: IoError)
    | InvalidLink(position: nat, path: Path, reason: LinkReason)
    | UnsafePath(position: nat, fault: PathError)
    | PayloadFailed
    | LinksNotAllowed(position: nat)
    | NameRejected(position: nat, value: seq<Byte>)
    | UnsupportedMember(position: nat, path: Path)
    | ArchiveFailed

  datatype World = World(disk: DiskState, tree: map<Path, ExtractedEntry>, links: seq<PendingLink>)

  /** Extraction goes on, or has stopped at its first error. */
  datatype Outcome = Going(world: World) | Stopped(disk: DiskState, error: ExtractError)

  predicate IsDir(e: ExtractedEntry) { e.CreatedDirectory? || e.AmbientDirectory? }

  predicate OwnedDirectory(tree: map<Path, ExtractedEntry>, p: Path) { p in tree && IsDir(tree[p]) }

  predicate HasActiveChildren(tree: map<Path, ExtractedEntry>, p: Path)
  {
    exists q :: q in tree && q != [] && ParentOf(q) == p
  }

  // ------------------------------------------------------------- invariants

  /** A link's recorded resolution is its own target walked from its own directory. */
  ghost predicate LinkValid(l: PendingLink)
  {
    && l.path != [] && ValidateExtractionPath(l.target).None?
    && UpsFirst(SplitPath(l.target))
    && Resolve(ParentOf(l.path), SplitPath(l.target)) == Some(l.resolved)
    && l.requiresDirectory == RequiresDirectory(SplitPath(l.target))
  }

  ghost predicate EntryOnDisk(w: World, p: Path)
    requires p in w.tree
  {
    match w.tree[p]
    case FileEntry => IsFile(w.disk, p)
    case CreatedDirectory => IsDirectory(w.disk, p)
    case AmbientDirectory => IsDirectory(w.disk, p)
    case SymlinkEntry(i) => p !in w.disk.nodes && i < |w.links| && w.links[i].path == p
  }

  /** Owned paths lie in owned directories and match the disk; each live link is owned at its own path, where nothing is yet. */
  ghost predicate Coherent(w: World)
  {
    && DiskValid(w.disk)
    && [] in w.tree && w.tree[[]] == AmbientDirectory
    && (forall p :: p in w.tree && p != [] ==> OwnedDirectory(w.tree, ParentOf(p)))
    && (forall p :: p in w.tree ==> EntryOnDisk(w, p))
    && (forall i :: 0 <= i < |w.links| ==> LinkValid(w.links[i]))
  }

  /** Only the node at `p` may differ. */
  ghost predicate SameElsewhere(d: DiskState, d': DiskState, p: Path)
  {
    forall q :: q != p ==> (q in d.nodes <==> q in d'.nodes) && (q in d.nodes ==> d'.nodes[q] == d.nodes[q])
  }

  lemma CoherentSet(w: World, p: Path, entry: ExtractedEntry, d: DiskState)
    requires Coherent(w) && DiskValid(d) && SameElsewhere(w.disk, d, p)
    requires p != [] && OwnedDirectory(w.tree, ParentOf(p)) && (IsDir(entry) || !HasActiveChildren(w.tree, p))
    requires EntryOnDisk(World(d, w.tree[p := entry], w.links), p)
    ensures Coherent(World(d, w.tree[p := entry], w.links))
  {
    hide DiskValid;
    var after := World(d, w.tree[p := entry], w.links);
    forall q | q in after.tree ensures EntryOnDisk(after, q) {
      if q != p { assert EntryOnDisk(w, q); }
    }
  }

  lemma CoherentCleared(w: World, p: Path, d: DiskState)
    requires Coherent(w) && DiskValid(d) && SameElsewhere(w.disk, d, p)
    requires p != [] && !HasActiveChildren(w.tree, p)
    ensures Coherent(World(d, w.tree - {p}, w.links))
  {
    hide DiskValid;
    var after := World(d, w.tree - {p}, w.links);
    forall q | q in after.tree ensures EntryOnDisk(after, q) {
      assert EntryOnDisk(w, q);
    }
    forall q | q in after.tree && q != [] ensures OwnedDirectory(after.tree, ParentOf(q)) {
      assert OwnedDirectory(w.tree, ParentOf(q));
    }
  }

  /** Everything above an owned path is an owned directory, and really one on the disk. */
  lemma {:induction false} OwnedAbove(w: World, p: Path, k: nat)
    requires Coherent(w) && p in w.tree && k < |p|
    ensures OwnedDirectory(w.tree, p[..k]) && IsDirectory(w.disk, p[..k])
    decreases |p|
  {
    assert OwnedDirectory(w.tree, ParentOf(p));
    if k < |p| - 1 {
      OwnedAbove(w, ParentOf(p), k);
      assert ParentOf(p)[..k] == p[..k];
    } else {
      assert p[..k] == ParentOf(p);
      assert EntryOnDisk(w, ParentOf(p));
    }
  }

  /** Nothing is owned below a path that is not owned. */
  lemma NothingOwnedBelow(w: World, p: Path, q: Path)
    requires Coherent(w) && p !in w.tree && p <= q
    ensures q !in w.tree
  {
    assert p == q[..|p|] && q == q[..|q|];
    if q in w.tree && |p| < |q| {
      OwnedAbove(w, q, |p|);
    }
  }

  /** Each live link is owned by exactly one path. */
  lemma LinkOwner(w: World, p: Path, q: Path)
    requires Coherent(w) && p in w.tree && q in w.tree
    requires w.tree[p].SymlinkEntry? && w.tree[p] == w.tree[q]
    ensures p == q
  {
    assert EntryOnDisk(w, p) && EntryOnDisk(w, q);
  }

  // ------------------------------------------------------- replacing a leaf

  predicate CanReplace(w: World, overwrites: bool, p: Path) { overwrites && !HasActiveChildren(w.tree, p) }

  /** Removes what is there without following it; a directory only when it is empty. */
  function RemoveLeaf(d: DiskState, p: Path): (r: Result<DiskState, ExtractError>)
    requires p in d.nodes
    ensures DiskValid(d) && r.Ok? ==> DiskValid(r.value) && r.value.nodes == d.nodes - {p}
  {
    if IsDirectory(d, p) then
      if !IsEmptyDirectory(d, p) then Err(PathCollision(p))
      else
        match RemoveDir(d, p)
        case Ok(d') => Ok(d')
        case Err(e) => Err(Filesystem(RemoveDirectoryLeaf, p, e))
    else
      match RemoveFile(d, p)
      case Ok(d') => Ok(d')
      case Err(e) => Err(Filesystem(RemoveFileLeaf, p, e))
  }

  datatype Replacing = NothingThere | Replaced(world: World) | NotReplaced(error: ExtractError)

  function ReplaceLeaf(w: World, overwrites: bool, p: Path): (r: Replacing)
    ensures r.NothingThere? <==> p !in w.disk.nodes && p !in w.tree
  {
    if p !in w.disk.nodes && p !in w.tree then NothingThere
    else if !CanReplace(w, overwrites, p) then NotReplaced(PathCollision(p))
    else if p !in w.disk.nodes then Replaced(w.(tree := w.tree - {p}))
    else
      match RemoveLeaf(w.disk, p)
      case Err(e) => NotReplaced(e)
      case Ok(d) => Replaced(w.(disk := d, tree := w.tree - {p}))
  }

  /** A replaced leaf is gone from the disk and from the owned paths. */
  lemma ReplaceLeafKeeps(w: World, overwrites: bool, p: Path)
    requires Coherent(w) && p != []
    ensures ReplaceLeaf(w, overwrites, p).Replaced? ==>
              var w' := ReplaceLeaf(w, overwrites, p).world;
              && Coherent(w') && p !in w'.disk.nodes && p !in w'.tree && overwrites
              && !HasActiveChildren(w.tree, p) && w'.tree == w.tree - {p} && w'.links == w.links
              && SameElsewhere(w.disk, w'.disk, p)
  {
    hide DiskValid;
    var r := ReplaceLeaf(w, overwrites, p);
    if r.Replaced? {
      CoherentCleared(w, p, r.world.disk);
    }
  }

  // ------------------------------------------------------------- directories

  function EnsureDirectory(w: World, overwrites: bool, p: Path, explicit: bool): Outcome
  {
    if OwnedDirectory(w.tree, p) then Going(w)
    else if p !in w.tree then MakeDirectory(w, overwrites, p, explicit)
    else if !explicit then Stopped(w.disk, PathCollision(p))
    else
      match ReplaceLeaf(w, overwrites, p)
      case NotReplaced(e) => Stopped(w.disk, e)
      case NothingThere => MakeDirectory(w, overwrites, p, explicit)
      case Replaced(w') => MakeDirectory(w', overwrites, p, explicit)
  }

  /** A directory where nothing is owned: created, adopted, or put in place of an ambient leaf. */
  function MakeDirectory(w: World, overwrites: bool, p: Path, explicit: bool): Outcome
  {
    match CreateDir(w.disk, p)
    case Ok(d) => Going(w.(disk := d, tree := w.tree[p := CreatedDirectory]))
    case Err(e) =>
      if IsDirectory(w.disk, p) then Going(w.(tree := w.tree[p := AmbientDirectory]))
      else if p !in w.disk.nodes && p !in w.tree then Stopped(w.disk, Filesystem(CreateDirectory, p, e))
      else if !explicit then Stopped(w.disk, PathCollision(p))
      else
        match ReplaceLeaf(w, overwrites, p)
        case NotReplaced(e') => Stopped(w.disk, e')
        case NothingThere => CreateInPlace(w, p)
        case Replaced(w') => CreateInPlace(w', p)
  }

  function CreateInPlace(w: World, p: Path): Outcome
  {
    match CreateDir(w.disk, p)
    case Ok(d) => Going(w.(disk := d, tree := w.tree[p := CreatedDirectory]))
    case Err(e) => Stopped(w.disk, Filesystem(CreateDirectory, p, e))
  }

  /** The implicit directories above `p`, the first `n` of them, outermost first. */
  function EnsureParents(w: World, overwrites: bool, p: Path, n: nat): Outcome
    requires n <= |p|
    decreases n
  {
    if n == 0 then Going(w)
    else
      match EnsureParents(w, overwrites, p, n - 1)
      case Stopped(d, e) => Stopped(d, e)
      case Going(w') => EnsureDirectory(w', overwrites, p[..n], false)
  }

  /** What a step that keeps other owned paths did. */
  ghost predicate Extends(w: World, w': World, p: Path)
  {
    w'.links == w.links && forall q :: q != p && q in w.tree ==> q in w'.tree && w'.tree[q] == w.tree[q]
  }

  lemma CreateInPlaceKeeps(w: World, p: Path)
    requires Coherent(w) && p != [] && OwnedDirectory(w.tree, ParentOf(p))
    ensures CreateInPlace(w, p).Going? ==>
              var w' := CreateInPlace(w, p).world; Coherent(w') && OwnedDirectory(w'.tree, p) && Extends(w, w', p)
  {
    hide DiskValid;
    var r := CreateInPlace(w, p);
    if r.Going? {
      CoherentSet(w, p, CreatedDirectory, r.world.disk);
    }
  }

  lemma MakeDirectoryKeeps(w: World, overwrites: bool, p: Path, explicit: bool)
    requires Coherent(w) && p != [] && OwnedDirectory(w.tree, ParentOf(p))
    ensures MakeDirectory(w, overwrites, p, explicit).Going? ==>
              var w' := MakeDirectory(w, overwrites, p, explicit).world;
              Coherent(w') && OwnedDirectory(w'.tree, p) && Extends(w, w', p)
  {
    hide DiskValid, Coherent, CreateInPlace, ReplaceLeaf, CreateDir, HasActiveChildren;
    CreateInPlaceKeeps(w, p);
    ReplaceLeafKeeps(w, overwrites, p);
    var replaced := ReplaceLeaf(w, overwrites, p);
    if replaced.Replaced? {
      CreateInPlaceKeeps(replaced.world, p);
    }
    NewDirectoryKeeps(w, p);
  }

  /** A directory just made, or found, can be owned. */
  lemma NewDirectoryKeeps(w: World, p: Path)
    requires Coherent(w) && p != [] && OwnedDirectory(w.tree, ParentOf(p))
    ensures CreateDir(w.disk, p).Ok? ==> Coherent(World(CreateDir(w.disk, p).value, w.tree[p := CreatedDirectory], w.links))
    ensures IsDirectory(w.disk, p) ==> Coherent(World(w.disk, w.tree[p := AmbientDirectory], w.links))
  {
    hide DiskValid;
    if CreateDir(w.disk, p).Ok? {
      CoherentSet(w, p, CreatedDirectory, CreateDir(w.disk, p).value);
    } else if IsDirectory(w.disk, p) {
      CoherentSet(w, p, AmbientDirectory, w.disk);
    }
  }

  lemma EnsureDirectoryKeeps(w: World, overwrites: bool, p: Path, explicit: bool)
    requires Coherent(w) && p != [] && OwnedDirectory(w.tree, ParentOf(p))
    ensures EnsureDirectory(w, overwrites, p, explicit).Going? ==>
              var w' := EnsureDirectory(w, overwrites, p, explicit).world;
              Coherent(w') && OwnedDirectory(w'.tree, p) && Extends(w, w', p)
  {
    hide Coherent, MakeDirectory;
    MakeDirectoryKeeps(w, overwrites, p, explicit);
    ReplaceLeafKeeps(w, overwrites, p);
    var replaced := ReplaceLeaf(w, overwrites, p);
    if replaced.Replaced? {
      MakeDirectoryKeeps(replaced.world, overwrites, p, explicit);
    }
  }

  /** Implicit parents are never put in place of anything, so every path already owned stays as it was. */
  lemma {:induction false} EnsureParentsKeeps(w: World, overwrites: bool, p: Path, n: nat)
    requires Coherent(w) && n <= |p|
    ensures EnsureParents(w, overwrites, p, n).Going? ==>
              var w' := EnsureParents(w, overwrites, p, n).world;
              && Coherent(w') && OwnedDirectory(w'.tree, p[..n]) && w'.links == w.links
              && forall q :: q in w.tree ==> q in w'.tree && w'.tree[q] == w.tree[q]
    decreases n
  {
    hide DiskValid, EnsureDirectory;
    if n == 0 {
      assert p[..0] == [];
    } else {
      EnsureParentsKeeps(w, overwrites, p, n - 1);
      var above := EnsureParents(w, overwrites, p, n - 1);
      if above.Going? {
        assert ParentOf(p[..n]) == p[..n - 1];
        EnsureDirectoryKeeps(above.world, overwrites, p[..n], false);
        ImplicitKeepsItself(above.world, overwrites, p[..n]);
      }
    }
  }

  lemma ImplicitKeepsItself(w: World, overwrites: bool, p: Path)
    ensures EnsureDirectory(w, overwrites, p, false).Going? && p in w.tree ==>
              EnsureDirectory(w, overwrites, p, false).world.tree[p] == w.tree[p]
              && p in EnsureDirectory(w, overwrites, p, false).world.tree
  {
  }

  // ------------------------------------------------------------------- files

  datatype Replacement = Disallowed | Allowed | ExpectedFile

  /** What one buffered write leaves on the disk, and its error. */
  datatype WriteOutcome = WriteOutcome(disk: DiskState, error: Option<ExtractError>)

  function CreateAndWrite(d: DiskState, p: Path, executable: bool, contents: seq<Byte>): WriteOutcome
  {
    match CreateNew(d, p, executable)
    case Err(e) => WriteOutcome(d, Some(Filesystem(CreateFile, p, e)))
    case Ok(d') => if IsFile(d', p) then WriteOutcome(Append(d', p, contents), None) else WriteOutcome(d', None)
  }

  /** Creates or replaces one small file. */
  function WriteBuffered(d: DiskState, p: Path, executable: bool, contents: seq<Byte>, replacement: Replacement): WriteOutcome
  {
    if replacement == ExpectedFile && RemoveFile(d, p).Ok? then CreateAndWrite(RemoveFile(d, p).value, p, executable, contents)
    else
      match CreateNew(d, p, executable)
      case Ok(_) => CreateAndWrite(d, p, executable, contents)
      case Err(e) =>
        if p !in d.nodes then WriteOutcome(d, Some(Filesystem(CreateFile, p, e)))
        else if replacement == Disallowed then WriteOutcome(d, Some(PathCollision(p)))
        else
          match RemoveLeaf(d, p)
          case Err(e') => WriteOutcome(d, Some(e'))
          case Ok(d') => CreateAndWrite(d', p, executable, contents)
  }

  function ReplacementFor(w: World, overwrites: bool, p: Path): Replacement
  {
    if !CanReplace(w, overwrites, p) then Disallowed
    else if p in w.tree && w.tree[p] == FileEntry then ExpectedFile
    else Allowed
  }

  /** A small file, written at once. */
  function ExtractSmallFile(w: World, overwrites: bool, p: Path, executable: bool, contents: seq<Byte>): Outcome
    requires p != []
  {
    match EnsureParents(w, overwrites, p, |p| - 1)
    case Stopped(d, e) => Stopped(d, e)
    case Going(w') => PlaceSmallFile(w', overwrites, p, executable, contents)
  }

  /** A deferred link at the path gives way first. */
  function PlaceSmallFile(w: World, overwrites: bool, p: Path, executable: bool, contents: seq<Byte>): Outcome
  {
    if p in w.tree && w.tree[p].SymlinkEntry? then
      match ReplaceLeaf(w, overwrites, p)
      case NotReplaced(e) => Stopped(w.disk, e)
      case NothingThere => WriteSmallFile(w, overwrites, p, executable, contents)
      case Replaced(w') => WriteSmallFile(w', overwrites, p, executable, contents)
    else WriteSmallFile(w, overwrites, p, executable, contents)
  }

  function WriteSmallFile(w: World, overwrites: bool, p: Path, executable: bool, contents: seq<Byte>): Outcome
  {
    match WriteBuffered(w.disk, p, executable, contents, ReplacementFor(w, overwrites, p))
    case WriteOutcome(d, Some(e)) => Stopped(d, e)
    case WriteOutcome(d, None) => Going(w.(disk := d, tree := w.tree[p := FileEntry]))
  }

  lemma CreateAndWriteKeeps(d: DiskState, p: Path, executable: bool, contents: seq<Byte>)
    requires DiskValid(d)
    ensures var r := CreateAndWrite(d, p, executable, contents);
            && DiskValid(r.disk) && SameElsewhere(d, r.disk, p)
            && (r.error.None? ==> IsFile(r.disk, p))
  {
    hide DiskValid;
  }

  lemma WriteBufferedKeeps(d: DiskState, p: Path, executable: bool, contents: seq<Byte>, replacement: Replacement)
    requires DiskValid(d)
    ensures var r := WriteBuffered(d, p, executable, contents, replacement);
            && DiskValid(r.disk) && SameElsewhere(d, r.disk, p)
            && (r.error.None? ==> IsFile(r.disk, p))
            && (replacement == Disallowed && p in d.nodes ==> r.error == Some(PathCollision(p)))
  {
    hide DiskValid, CreateAndWrite;
    CreateAndWriteKeeps(d, p, executable, contents);
    var removed := RemoveFile(d, p);
    if removed.Ok? { CreateAndWriteKeeps(removed.value, p, executable, contents); }
    if p in d.nodes {
      var leaf := RemoveLeaf(d, p);
      if leaf.Ok? { CreateAndWriteKeeps(leaf.value, p, executable, contents); }
    }
  }

  lemma WriteSmallFileKeeps(w: World, overwrites: bool, p: Path, executable: bool, contents: seq<Byte>)
    requires Coherent(w) && p != [] && OwnedDirectory(w.tree, ParentOf(p))
    requires p in w.tree ==> !w.tree[p].SymlinkEntry?
    ensures WriteSmallFile(w, overwrites, p, executable, contents).Going? ==>
              Coherent(WriteSmallFile(w, overwrites, p, executable, contents).world)
  {
    hide DiskValid, WriteBuffered;
    var replacement := ReplacementFor(w, overwrites, p);
    var r := WriteBuffered(w.disk, p, executable, contents, replacement);
    WriteBufferedKeeps(w.disk, p, executable, contents, replacement);
    if r.error.None? {
      if HasActiveChildren(w.tree, p) {
        ParentOnDisk(w, p);
      }
      CoherentSet(w, p, FileEntry, r.disk);
    }
  }

  /** A path with owned children is on the disk, so a file may not be written over it. */
  lemma ParentOnDisk(w: World, p: Path)
    requires Coherent(w) && HasActiveChildren(w.tree, p)
    ensures p in w.disk.nodes && OwnedDirectory(w.tree, p)
  {
    hide DiskValid;
    var q :| q in w.tree && q != [] && ParentOf(q) == p;
    assert EntryOnDisk(w, p);
  }

  lemma ExtractSmallFileKeeps(w: World, overwrites: bool, p: Path, executable: bool, contents: seq<Byte>)
    requires Coherent(w) && p != []
    ensures ExtractSmallFile(w, overwrites, p, executable, contents).Going? ==>
              Coherent(ExtractSmallFile(w, overwrites, p, executable, contents).world)
  {
    hide Coherent, WriteSmallFile, EnsureParents;
    EnsureParentsKeeps(w, overwrites, p, |p| - 1);
    var parents := EnsureParents(w, overwrites, p, |p| - 1);
    if parents.Going? {
      var w1 := parents.world;
      assert p[..|p| - 1] == ParentOf(p);
      if p in w1.tree && w1.tree[p].SymlinkEntry? {
        ReplaceLeafKeeps(w1, overwrites, p);
        var r := ReplaceLeaf(w1, overwrites, p);
        if r.Replaced? { WriteSmallFileKeeps(r.world, overwrites, p, executable, contents); }
      } else {
        WriteSmallFileKeeps(w1, overwrites, p, executable, contents);
      }
    }
  }

  /** The bytes a member's payload delivers before it ends or fails. */
  datatype Payload = Payload(bytes: seq<Byte>, fails: bool)

  function WritePayload(w: World, p: Path, payload: Payload): Outcome
  {
    var d := if IsFile(w.disk, p) then Append(w.disk, p, payload.bytes) else w.disk;
    if payload.fails then Stopped(d, PayloadFailed) else Going(w.(disk := d))
  }

  /** A large file is created first and then written as its payload arrives. */
  function ExtractLargeFile(w: World, overwrites: bool, p: Path, executable: bool, payload: Payload): Outcome
    requires p != []
  {
    match CreateFileAt(w, overwrites, p, executable)
    case Stopped(d, e) => Stopped(d, e)
    case Going(w') => WritePayload(w', p, payload)
  }

  function CreateFileAt(w: World, overwrites: bool, p: Path, executable: bool): Outcome
    requires p != []
  {
    match EnsureParents(w, overwrites, p, |p| - 1)
    case Stopped(d, e) => Stopped(d, e)
    case Going(w1) =>
      if p in w1.tree && w1.tree[p].SymlinkEntry? then
        match ReplaceLeaf(w1, overwrites, p)
        case NotReplaced(e) => Stopped(w1.disk, e)
        case NothingThere => OpenOrReplace(w1, overwrites, p, executable)
        case Replaced(w2) => OpenOrReplace(w2, overwrites, p, executable)
      else OpenOrReplace(w1, overwrites, p, executable)
  }

  function OpenOrReplace(w: World, overwrites: bool, p: Path, executable: bool): Outcome
  {
    match CreateNew(w.disk, p, executable)
    case Ok(d) => Going(w.(disk := d, tree := w.tree[p := FileEntry]))
    case Err(e) =>
      match ReplaceLeaf(w, overwrites, p)
      case NotReplaced(e') => Stopped(w.disk, e')
      case NothingThere => Stopped(w.disk, Filesystem(CreateFile, p, e))
      case Replaced(w') =>
        match CreateNew(w'.disk, p, executable)
        case Err(e') => Stopped(w'.disk, Filesystem(CreateFile, p, e'))
        case Ok(d) => Going(w'.(disk := d, tree := w'.tree[p := FileEntry]))
  }

  function ExtractDirectory(w: World, overwrites: bool, p: Path): Outcome
  {
    if p == [] then Going(w)
    else
      match EnsureParents(w, overwrites, p, |p| - 1)
      case Stopped(d, e) => Stopped(d, e)
      case Going(w') => EnsureDirectory(w', overwrites, p, true)
  }

  function ReserveSymlink(w: World, overwrites: bool, position: nat, p: Path, target: seq<Byte>): Outcome
    requires p != []
  {
    match LinkTarget(ParentOf(p), target, true)
    case Err(fault) => Stopped(w.disk, UnsafePath(position, fault))
    case Ok(resolved) =>
      var link := PendingLink(p, position, target, resolved, RequiresDirectory(SplitPath(target)));
      match EnsureParents(w, overwrites, p, |p| - 1)
      case Stopped(d, e) => Stopped(d, e)
      case Going(w') =>
        match ReplaceLeaf(w', overwrites, p)
        case NotReplaced(e) => Stopped(w'.disk, e)
        case NothingThere => Going(Reserved(w', p, link))
        case Replaced(w'') => Going(Reserved(w'', p, link))
  }

  function Reserved(w: World, p: Path, link: PendingLink): World
  {
    w.(tree := w.tree[p := SymlinkEntry(|w.links|)], links := w.links + [link])
  }

  /** What forbids a hard link's target. */
  function HardLinkFault(w: World, p: Path, target: Path): Option<LinkReason>
  {
    if !(target in w.tree && w.tree[target] == FileEntry) then Some(TargetNotExtracted)
    else if target == p then Some(TargetIsMember)
    else if target <= p then Some(TargetIsAncestor)
    else None
  }

  function ExtractHardLink(w: World, overwrites: bool, position: nat, p: Path, target: seq<Byte>, size: nat, payload: Payload): Outcome
    requires p != []
  {
    match LinkTarget([], target, false)
    case Err(fault) => Stopped(w.disk, UnsafePath(position, fault))
    case Ok(resolved) =>
      if HardLinkFault(w, p, resolved).Some? then Stopped(w.disk, InvalidLink(position, p, HardLinkFault(w, p, resolved).value))
      else
        match EnsureParents(w, overwrites, p, |p| - 1)
        case Stopped(d, e) => Stopped(d, e)
        case Going(w') =>
          match ReplaceLeaf(w', overwrites, p)
          case NotReplaced(e) => Stopped(w'.disk, e)
          case NothingThere => LinkAndWrite(w', p, resolved, size, payload)
          case Replaced(w'') => LinkAndWrite(w'', p, resolved, size, payload)
  }

  function LinkAndWrite(w: World, p: Path, target: Path, size: nat, payload: Payload): Outcome
  {
    match HardLink(w.disk, target, p)
    case Err(e) => Stopped(w.disk, Filesystem(CreateHardLink, p, e))
    case Ok(d) =>
      var w' := w.(disk := d, tree := w.tree[p := FileEntry]);
      if size == 0 then (if payload.fails then Stopped(d, PayloadFailed) else Going(w'))
      else
        match Truncate(d, p)
        case Err(e) => Stopped(d, Filesystem(TruncateFile, p, e))
        case Ok(d') => WritePayload(w'.(disk := d'), p, payload)
  }

  lemma WritePayloadKeeps(w: World, p: Path, payload: Payload)
    requires Coherent(w)
    ensures WritePayload(w, p, payload).Going? ==> Coherent(WritePayload(w, p, payload).world)
  {
    hide DiskValid;
    var r := WritePayload(w, p, payload);
    if r.Going? {
      forall q | q in w.tree ensures EntryOnDisk(r.world, q) {
        assert EntryOnDisk(w, q);
      }
    }
  }

  lemma OpenOrReplaceKeeps(w: World, overwrites: bool, p: Path, executable: bool)
    requires Coherent(w) && p != [] && OwnedDirectory(w.tree, ParentOf(p))
    ensures OpenOrReplace(w, overwrites, p, executable).Going? ==> Coherent(OpenOrReplace(w, overwrites, p, executable).world)
  {
    hide DiskValid, Coherent, CreateNew, ReplaceLeaf, HasActiveChildren;
    if CreateNew(w.disk, p, executable).Ok? {
      NewFileKeeps(w, p, executable);
    } else {
      ReplaceLeafKeeps(w, overwrites, p);
      var r := ReplaceLeaf(w, overwrites, p);
      if r.Replaced? && CreateNew(r.world.disk, p, executable).Ok? {
        NewFileKeeps(r.world, p, executable);
      }
    }
  }

  /** A file made where nothing was can be owned. */
  lemma NewFileKeeps(w: World, p: Path, executable: bool)
    requires Coherent(w) && p != [] && OwnedDirectory(w.tree, ParentOf(p)) && CreateNew(w.disk, p, executable).Ok?
    ensures Coherent(World(CreateNew(w.disk, p, executable).value, w.tree[p := FileEntry], w.links))
  {
    hide DiskValid;
    if HasActiveChildren(w.tree, p) { ParentOnDisk(w, p); }
    CoherentSet(w, p, FileEntry, CreateNew(w.disk, p, executable).value);
  }

  lemma ChildrenLeft(tree: map<Path, ExtractedEntry>, p: Path)
    ensures !HasActiveChildren(tree, p) ==> !HasActiveChildren(tree - {p}, p)
  {
  }

  lemma CreateFileAtKeeps(w: World, overwrites: bool, p: Path, executable: bool)
    requires Coherent(w) && p != []
    ensures CreateFileAt(w, overwrites, p, executable).Going? ==> Coherent(CreateFileAt(w, overwrites, p, executable).world)
  {
    hide Coherent, OpenOrReplace, EnsureParents;
    EnsureParentsKeeps(w, overwrites, p, |p| - 1);
    var parents := EnsureParents(w, overwrites, p, |p| - 1);
    if parents.Going? {
      assert p[..|p| - 1] == ParentOf(p);
      OpenOrReplaceKeeps(parents.world, overwrites, p, executable);
      ReplaceLeafKeeps(parents.world, overwrites, p);
      var r := ReplaceLeaf(parents.world, overwrites, p);
      if r.Replaced? {
        OpenOrReplaceKeeps(r.world, overwrites, p, executable);
      }
    }
  }

  lemma ExtractDirectoryKeeps(w: World, overwrites: bool, p: Path)
    requires Coherent(w)
    ensures ExtractDirectory(w, overwrites, p).Going? ==> Coherent(ExtractDirectory(w, overwrites, p).world)
  {
    hide Coherent, EnsureDirectory, EnsureParents;
    if p != [] {
      EnsureParentsKeeps(w, overwrites, p, |p| - 1);
      var parents := EnsureParents(w, overwrites, p, |p| - 1);
      if parents.Going? {
        assert p[..|p| - 1] == ParentOf(p);
        EnsureDirectoryKeeps(parents.world, overwrites, p, true);
      }
    }
  }

  lemma ReservedKeeps(w: World, p: Path, link: PendingLink)
    requires Coherent(w) && p != [] && OwnedDirectory(w.tree, ParentOf(p)) && !HasActiveChildren(w.tree, p)
    requires p !in w.disk.nodes && link.path == p && LinkValid(link)
    ensures Coherent(Reserved(w, p, link))
  {
    hide DiskValid, LinkValid;
    var more := w.(links := w.links + [link]);
    assert Coherent(more) by {
      forall q | q in w.tree ensures EntryOnDisk(more, q) {
        assert EntryOnDisk(w, q);
      }
    }
    CoherentSet(more, p, SymlinkEntry(|w.links|), w.disk);
  }

  lemma ReserveSymlinkKeeps(w: World, overwrites: bool, position: nat, p: Path, target: seq<Byte>)
    requires Coherent(w) && p != []
    ensures ReserveSymlink(w, overwrites, position, p, target).Going? ==>
              Coherent(ReserveSymlink(w, overwrites, position, p, target).world)
  {
    hide Coherent, EnsureParents, SplitPath;
    var t := LinkTarget(ParentOf(p), target, true);
    if t.Ok? {
      WalkTargetMeans(ParentOf(p), SplitPath(target), true, false);
      var link := PendingLink(p, position, target, t.value, RequiresDirectory(SplitPath(target)));
      assert LinkValid(link);
      EnsureParentsKeeps(w, overwrites, p, |p| - 1);
      var parents := EnsureParents(w, overwrites, p, |p| - 1);
      if parents.Going? {
        var w' := parents.world;
        assert p[..|p| - 1] == ParentOf(p);
        ReplaceLeafKeeps(w', overwrites, p);
        var r := ReplaceLeaf(w', overwrites, p);
        if r.Replaced? {
          ChildrenLeft(w'.tree, p);
          ReservedKeeps(r.world, p, link);
        } else if r.NothingThere? {
          NoChildrenOfNothing(w', p);
          ReservedKeeps(w', p, link);
        }
      }
    }
  }

  lemma NoChildrenOfNothing(w: World, p: Path)
    requires Coherent(w) && p !in w.tree
    ensures !HasActiveChildren(w.tree, p)
  {
    hide DiskValid;
  }

  /** A hard link's checked target is still an extracted file, and on the disk, when the link is made. */
  lemma HardLinkTargetLives(w: World, overwrites: bool, p: Path, target: Path, w': World)
    requires Coherent(w) && p != [] && HardLinkFault(w, p, target).None?
    requires EnsureParents(w, overwrites, p, |p| - 1) == Going(w')
    ensures Coherent(w') && target in w'.tree && w'.tree[target] == FileEntry && IsFile(w'.disk, target)
    ensures ReplaceLeaf(w', overwrites, p).Replaced? ==>
              var w'' := ReplaceLeaf(w', overwrites, p).world;
              target in w''.tree && w''.tree[target] == FileEntry && IsFile(w''.disk, target)
  {
    hide Coherent, EnsureParents;
    EnsureParentsKeeps(w, overwrites, p, |p| - 1);
    OnDisk(w', target);
    ReplaceLeafKeeps(w', overwrites, p);
    var r := ReplaceLeaf(w', overwrites, p);
    if r.Replaced? { OnDisk(r.world, target); }
  }

  lemma OnDisk(w: World, p: Path)
    requires Coherent(w) && p in w.tree
    ensures EntryOnDisk(w, p)
  {
  }

  lemma LinkAndWriteKeeps(w: World, p: Path, target: Path, size: nat, payload: Payload)
    requires Coherent(w) && p != [] && OwnedDirectory(w.tree, ParentOf(p)) && !HasActiveChildren(w.tree, p)
    ensures LinkAndWrite(w, p, target, size, payload).Going? ==> Coherent(LinkAndWrite(w, p, target, size, payload).world)
  {
    hide DiskValid;
    var linked := HardLink(w.disk, target, p);
    if linked.Ok? {
      CoherentSet(w, p, FileEntry, linked.value);
      var w' := w.(disk := linked.value, tree := w.tree[p := FileEntry]);
      var truncated := Truncate(linked.value, p);
      if truncated.Ok? {
        CoherentSet(w, p, FileEntry, truncated.value);
        WritePayloadKeeps(w'.(disk := truncated.value), p, payload);
      }
    }
  }

  lemma ExtractHardLinkKeeps(w: World, overwrites: bool, position: nat, p: Path, target: seq<Byte>, size: nat, payload: Payload)
    requires Coherent(w) && p != []
    ensures ExtractHardLink(w, overwrites, position, p, target, size, payload).Going? ==>
              Coherent(ExtractHardLink(w, overwrites, position, p, target, size, payload).world)
  {
    hide Coherent, EnsureParents, LinkAndWrite, LinkTarget;
    var t := LinkTarget([], target, false);
    if t.Ok? && HardLinkFault(w, p, t.value).None? {
      EnsureParentsKeeps(w, overwrites, p, |p| - 1);
      var parents := EnsureParents(w, overwrites, p, |p| - 1);
      if parents.Going? {
        var w' := parents.world;
        assert p[..|p| - 1] == ParentOf(p);
        ReplaceLeafKeeps(w', overwrites, p);
        var r := ReplaceLeaf(w', overwrites, p);
        if r.Replaced? {
          ChildrenLeft(w'.tree, p);
          LinkAndWriteKeeps(r.world, p, t.value, size, payload);
        } else if r.NothingThere? {
          NoChildrenOfNothing(w', p);
          LinkAndWriteKeeps(w', p, t.value, size, payload);
        }
      }
    }
  }

  // ------------------------------------------------------------ whole archives

  const BUFFERED_PAYLOAD_MAX_BYTES: nat := 1024 * 1024

  /** One decoded member, or the error its decoding met. */
  datatype Item =
    | FileItem(path: Path, size: nat, executable: bool, payload: Payload)
    | DirectoryItem(path: Path)
    | SymlinkItem(position: nat, path: Path, target: seq<Byte>)
    | HardLinkItem(position: nat, path: Path, target: seq<Byte>, size: nat, payload: Payload)
    | SkippedItem
    | RefusedItem(error: ExtractError)

  /** Only directories may name the destination itself, and a payload that ends has its declared size. */
  predicate ItemValid(item: Item)
  {
    match item
    case FileItem(path, size, _, payload) => path != [] && (!payload.fails ==> |payload.bytes| == size)
    case SymlinkItem(_, path, _) => path != []
    case HardLinkItem(_, path, _, _, _) => path != []
    case _ => true
  }

  function ExtractItem(w: World, overwrites: bool, item: Item): Outcome
    requires ItemValid(item)
  {
    match item
    case FileItem(path, size, executable, payload) =>
      if size > BUFFERED_PAYLOAD_MAX_BYTES then ExtractLargeFile(w, overwrites, path, executable, payload)
      else if payload.fails then Stopped(w.disk, PayloadFailed)
      else ExtractSmallFile(w, overwrites, path, executable, payload.bytes)
    case DirectoryItem(path) => ExtractDirectory(w, overwrites, path)
    case SymlinkItem(position, path, target) => ReserveSymlink(w, overwrites, position, path, target)
    case HardLinkItem(position, path, target, size, payload) =>
      ExtractHardLink(w, overwrites, position, path, target, size, payload)
    case SkippedItem => Going(w)
    case RefusedItem(e) => Stopped(w.disk, e)
  }

  function Next(o: Outcome, overwrites: bool, item: Item): Outcome
    requires ItemValid(item)
  {
    match o
    case Stopped(d, e) => o
    case Going(w) => ExtractItem(w, overwrites, item)
  }

  /** Every member in order, up to the first error. */
  function ExtractItems(w: World, overwrites: bool, items: seq<Item>): Outcome
    requires forall i :: 0 <= i < |items| ==> ItemValid(items[i])
    decreases |items|
  {
    if items == [] then Going(w)
    else Next(ExtractItems(w, overwrites, items[..|items| - 1]), overwrites, items[|items| - 1])
  }

  lemma ExtractItemKeeps(w: World, overwrites: bool, item: Item)
    requires Coherent(w) && ItemValid(item)
    ensures ExtractItem(w, overwrites, item).Going? ==> Coherent(ExtractItem(w, overwrites, item).world)
  {
    hide Coherent, ExtractSmallFile, ExtractDirectory, ReserveSymlink, ExtractHardLink, CreateFileAt, WritePayload;
    match item
    case FileItem(path, size, executable, payload) =>
      if size > BUFFERED_PAYLOAD_MAX_BYTES {
        CreateFileAtKeeps(w, overwrites, path, executable);
        var created := CreateFileAt(w, overwrites, path, executable);
        if created.Going? { WritePayloadKeeps(created.world, path, payload); }
      } else {
        ExtractSmallFileKeeps(w, overwrites, path, executable, payload.bytes);
      }
    case DirectoryItem(path) => ExtractDirectoryKeeps(w, overwrites, path);
    case SymlinkItem(position, path, target) => ReserveSymlinkKeeps(w, overwrites, position, path, target);
    case HardLinkItem(position, path, target, size, payload) =>
      ExtractHardLinkKeeps(w, overwrites, position, path, target, size, payload);
    case _ =>
  }

  /** The start: the destination is a directory the extraction did not make; whatever lies below it is not owned. */
  function Opened(d: DiskState): World { World(d, map[[] := AmbientDirectory], []) }

  /** Tree and disk agree after any members, whatever was on the disk before. */
  lemma {:induction false} RunsStayCoherent(d: DiskState, overwrites: bool, items: seq<Item>)
    requires DiskValid(d) && forall i :: 0 <= i < |items| ==> ItemValid(items[i])
    ensures ExtractItems(Opened(d), overwrites, items).Going? ==> Coherent(ExtractItems(Opened(d), overwrites, items).world)
    decreases |items|
  {
    hide ExtractItem;
    if items == [] {
    } else {
      hide Coherent;
      RunsStayCoherent(d, overwrites, items[..|items| - 1]);
      var before := ExtractItems(Opened(d), overwrites, items[..|items| - 1]);
      if before.Going? { ExtractItemKeeps(before.world, overwrites, items[|items| - 1]); }
    }
  }
}
