/** Exactly when a member can be extracted, said of the disk and the archive-owned paths alone, and what it leaves unchanged. */
module Conditions {
  import opened Octets
  import opened Components
  import opened Paths
  import opened Disk
  import opened Extraction

  // ------------------------------------------------------------- conditions

  /** No file and no link, extracted or there before, stands where a directory has to be. */
  predicate Passable(w: World, q: Path)
  {
    (q in w.tree ==> IsDir(w.tree[q])) && (q in w.disk.nodes ==> w.disk.nodes[q].DirNode?)
  }

  /** Directories or nothing, all the way down to where `p` goes. */
  predicate WayClear(w: World, p: Path)
  {
    forall k :: 0 < k < |p| ==> Passable(w, p[..k])
  }

  predicate Free(w: World, p: Path) { p !in w.disk.nodes && p !in w.tree }

  /** Overwrites are allowed, nothing extracted lies below, and what is on the disk is not a directory with something in it. */
  ghost predicate Replaceable(w: World, overwrites: bool, p: Path)
  {
    && overwrites
    && (forall q :: q in w.tree && p <= q ==> q == p)
    && (p in w.disk.nodes && w.disk.nodes[p].DirNode? ==> forall q :: q in w.disk.nodes && p <= q ==> q == p)
  }

  ghost predicate Room(w: World, overwrites: bool, p: Path) { Free(w, p) || Replaceable(w, overwrites, p) }

  /** A relative target with forward slashes that never leaves the destination. */
  predicate StaysBelow(base: Path, text: seq<Byte>)
  {
    BACKSLASH !in text && (text != [] ==> text[0] != SLASH) && Resolve(base, SplitPath(text)).Some?
  }

  /** An extracted file that is neither the member's own path nor above it. */
  predicate LinkableFile(w: World, p: Path, target: Path)
  {
    target in w.tree && w.tree[target] == FileEntry && !(target <= p)
  }

  /** What the disk, the extracted paths and the overwrite policy must be like for a member to be extracted. */
  ghost predicate Succeeds(w: World, overwrites: bool, item: Item)
    requires ItemValid(item)
  {
    match item
    case FileItem(p, _, _, payload) => !payload.fails && WayClear(w, p) && Room(w, overwrites, p)
    case DirectoryItem(p) => p == [] || (WayClear(w, p) && (Passable(w, p) || Replaceable(w, overwrites, p)))
    case SymlinkItem(_, p, text) =>
      StaysBelow(ParentOf(p), text) && UpsFirst(SplitPath(text)) && WayClear(w, p) && Room(w, overwrites, p)
    case HardLinkItem(_, p, text, _, payload) =>
      && !payload.fails && StaysBelow([], text) && LinkableFile(w, p, Resolve([], SplitPath(text)).value)
      && WayClear(w, p) && Room(w, overwrites, p)
    case SkippedItem => true
    case RefusedItem(_) => false
  }

  // ------------------------------------------------------------------ frames

  /** What was at `q` still is. */
  predicate KeptAt(w: World, w': World, q: Path)
  {
    && (q in w.tree ==> q in w'.tree && w'.tree[q] == w.tree[q])
    && (q in w.disk.nodes ==> q in w'.disk.nodes && w'.disk.nodes[q] == w.disk.nodes[q])
  }

  /** Whatever is new at `q` is a directory on the way to `p`. */
  predicate NewAt(w: World, w': World, q: Path, p: Path)
  {
    && (q in w'.tree && q !in w.tree ==> q <= p && IsDir(w'.tree[q]))
    && (q in w'.disk.nodes && q !in w.disk.nodes ==> q <= p && w'.disk.nodes[q].DirNode?)
  }

  /** Only directories on the way to `p` have come to be. */
  ghost predicate Grows(w: World, w': World, p: Path)
  {
    w'.links == w.links && forall q: Path :: KeptAt(w, w', q) && NewAt(w, w', q, p)
  }

  /** Nothing but `p` has changed, and only directories on the way to it have come to be. */
  ghost predicate OnlyOn(w: World, w': World, p: Path)
  {
    w.links <= w'.links && forall q: Path :: q != p ==> KeptAt(w, w', q) && NewAt(w, w', q, p)
  }

  // ------------------------------------------------------------------ leaves

  /** Something owned lies strictly below exactly when something owned lies directly below. */
  lemma OwnedBelow(w: World, p: Path)
    requires Coherent(w)
    ensures !HasActiveChildren(w.tree, p) <==> forall q :: q in w.tree && p <= q ==> q == p
  {
    forall q | q in w.tree && p <= q && q != p ensures HasActiveChildren(w.tree, p) {
      if |q| > |p| + 1 {
        OwnedAbove(w, q, |p| + 1);
        var child := q[..|p| + 1];
        assert ParentOf(child) == p;
      } else {
        assert ParentOf(q) == p;
      }
    }
  }

  /** Everything above a node is a directory. */
  lemma {:induction false} NodesAbove(d: DiskState, q: Path, k: nat)
    requires DiskValid(d) && q in d.nodes && k < |q|
    ensures IsDirectory(d, q[..k])
    decreases |q|
  {
    assert IsDirectory(d, ParentOf(q));
    if k < |q| - 1 {
      NodesAbove(d, ParentOf(q), k);
      assert ParentOf(q)[..k] == q[..k];
    } else {
      assert q[..k] == ParentOf(q);
    }
  }

  lemma NodesBelow(d: DiskState, p: Path)
    requires DiskValid(d) && IsDirectory(d, p)
    ensures IsEmptyDirectory(d, p) <==> forall q :: q in d.nodes && p <= q ==> q == p
  {
    forall q | q in d.nodes && p <= q && q != p ensures !IsEmptyDirectory(d, p) {
      if |q| > |p| + 1 {
        NodesAbove(d, q, |p| + 1);
        var child := q[..|p| + 1];
        assert ParentOf(child) == p;
      } else {
        assert ParentOf(q) == p;
      }
    }
    hide DiskValid;
  }

  /** A leaf gives way exactly when it is replaceable, and otherwise it alone is to blame. */
  lemma LeafReplaced(w: World, overwrites: bool, p: Path)
    requires Coherent(w) && p != []
    ensures var r := ReplaceLeaf(w, overwrites, p);
            && (r.NothingThere? <==> Free(w, p))
            && (r.Replaced? <==> !Free(w, p) && Replaceable(w, overwrites, p))
            && (r.NotReplaced? ==> r.error == PathCollision(p))
  {
    hide Coherent, DiskValid, HasActiveChildren, IsEmptyDirectory;
    OwnedBelow(w, p);
    CoherentDisk(w);
    if IsDirectory(w.disk, p) { NodesBelow(w.disk, p); }
  }

  lemma CoherentDisk(w: World)
    requires Coherent(w)
    ensures DiskValid(w.disk)
  {
  }

  /** What giving way leaves: nothing at the path, and the rest as it was. */
  lemma LeafGone(w: World, overwrites: bool, p: Path)
    requires Coherent(w) && p != [] && ReplaceLeaf(w, overwrites, p).Replaced?
    ensures var w' := ReplaceLeaf(w, overwrites, p).world;
            && Coherent(w') && Free(w', p) && w'.links == w.links
            && w'.tree == w.tree - {p} && w'.disk.nodes == w.disk.nodes - {p} && OnlyOn(w, w', p)
  {
    hide DiskValid, HasActiveChildren, CanReplace, RemoveLeaf;
    CoherentDisk(w);
    ReplaceLeafKeeps(w, overwrites, p);
  }

  lemma ParentIsDirectory(w: World, p: Path)
    requires Coherent(w) && p != [] && OwnedDirectory(w.tree, ParentOf(p))
    ensures CanHold(w.disk, p)
  {
    assert EntryOnDisk(w, ParentOf(p));
  }

  // ------------------------------------------------------------- directories

  /**
   * A directory is had exactly where it can be: an owned or real one is used, a free name is taken, and a directory
   * member, but no implicit parent, is put in place of a replaceable leaf.
   */
  lemma DirectoryHad(w: World, overwrites: bool, p: Path, explicit: bool)
    requires Coherent(w) && p != [] && OwnedDirectory(w.tree, ParentOf(p))
    ensures EnsureDirectory(w, overwrites, p, explicit).Going? <==>
            Passable(w, p) || (explicit && Replaceable(w, overwrites, p))
    ensures EnsureDirectory(w, overwrites, p, explicit).Stopped? ==>
              EnsureDirectory(w, overwrites, p, explicit) == Stopped(w.disk, PathCollision(p))
  {
    hide Coherent, DiskValid, HasActiveChildren, IsEmptyDirectory, Replaceable, ReplaceLeaf, CanHold;
    ParentIsDirectory(w, p);
    LeafReplaced(w, overwrites, p);
    OwnedIsThere(w, p);
    var r := ReplaceLeaf(w, overwrites, p);
    if r.Replaced? {
      LeafGone(w, overwrites, p);
      ParentKept(w, r.world, p);
      ParentIsDirectory(r.world, p);
    }
  }

  lemma ParentKept(w: World, w': World, p: Path)
    requires p != [] && OwnedDirectory(w.tree, ParentOf(p)) && OnlyOn(w, w', p)
    ensures OwnedDirectory(w'.tree, ParentOf(p))
  {
    assert KeptAt(w, w', ParentOf(p));
  }

  /** An owned path is on the disk as what it is, or is a link that is not there yet. */
  lemma OwnedIsThere(w: World, p: Path)
    requires Coherent(w)
    ensures p in w.tree ==>
              && (IsDir(w.tree[p]) ==> IsDirectory(w.disk, p))
              && (w.tree[p] == FileEntry ==> IsFile(w.disk, p))
              && (w.tree[p].SymlinkEntry? ==> p !in w.disk.nodes)
  {
    if p in w.tree { assert EntryOnDisk(w, p); }
  }

  /** What a directory that is had is: as it was if owned, adopted if it was there, and otherwise new. */
  lemma DirectoryBecomes(w: World, overwrites: bool, p: Path, explicit: bool)
    requires Coherent(w) && p != [] && OwnedDirectory(w.tree, ParentOf(p))
    requires EnsureDirectory(w, overwrites, p, explicit).Going?
    ensures var w' := EnsureDirectory(w, overwrites, p, explicit).world;
            && (OwnedDirectory(w.tree, p) ==> w' == w)
            && (p !in w.tree && IsDirectory(w.disk, p) ==> w' == w.(tree := w.tree[p := AmbientDirectory]))
            && (!Passable(w, p) || Free(w, p) ==>
                  && w'.tree == w.tree[p := CreatedDirectory] && w'.links == w.links
                  && p in w'.disk.nodes && w'.disk.nodes[p].DirNode? && w'.disk.nodes == w.disk.nodes[p := w'.disk.nodes[p]])
  {
    hide Coherent, DiskValid, HasActiveChildren, IsEmptyDirectory, Replaceable, ReplaceLeaf, CanHold;
    ParentIsDirectory(w, p);
    LeafReplaced(w, overwrites, p);
    OwnedIsThere(w, p);
    var r := ReplaceLeaf(w, overwrites, p);
    if r.Replaced? {
      LeafGone(w, overwrites, p);
      ParentKept(w, r.world, p);
      ParentIsDirectory(r.world, p);
      assert w.tree - {p} + map[p := CreatedDirectory] == w.tree[p := CreatedDirectory];
    }
  }

  lemma DirectoryOnly(w: World, overwrites: bool, p: Path, explicit: bool)
    requires Coherent(w) && p != [] && OwnedDirectory(w.tree, ParentOf(p))
    requires EnsureDirectory(w, overwrites, p, explicit).Going?
    ensures OnlyOn(w, EnsureDirectory(w, overwrites, p, explicit).world, p)
    ensures !explicit ==> Grows(w, EnsureDirectory(w, overwrites, p, explicit).world, p)
  {
    hide Coherent, EnsureDirectory, Replaceable;
    DirectoryBecomes(w, overwrites, p, explicit);
    DirectoryHad(w, overwrites, p, explicit);
  }

  // ----------------------------------------------------------------- parents

  /**
   * Implicit parents are had exactly when nothing but directories stands on the way, and the shallowest thing that
   * does is the one reported; all that changes is that directories come to be.
   */
  lemma {:induction false} ParentsHad(w: World, overwrites: bool, p: Path, n: nat)
    requires Coherent(w) && n <= |p|
    ensures EnsureParents(w, overwrites, p, n).Going? <==> forall k :: 0 < k <= n ==> Passable(w, p[..k])
    ensures EnsureParents(w, overwrites, p, n).Going? ==>
              var w' := EnsureParents(w, overwrites, p, n).world;
              Coherent(w') && OwnedDirectory(w'.tree, p[..n]) && Grows(w, w', p[..n])
    ensures EnsureParents(w, overwrites, p, n).Stopped? ==> StandsInTheWay(w, p, n, EnsureParents(w, overwrites, p, n).error)
    decreases n
  {
    hide Coherent, EnsureDirectory, Passable, DiskValid;
    EnsureParentsKeeps(w, overwrites, p, n);
    if n == 0 {
      NothingNew(w, p[..0]);
    } else {
      ParentsHad(w, overwrites, p, n - 1);
      var above := EnsureParents(w, overwrites, p, n - 1);
      if above.Going? {
        var w1 := above.world;
        assert ParentOf(p[..n]) == p[..n - 1];
        DirectoryHad(w1, overwrites, p[..n], false);
        StillPassable(w, w1, p[..n - 1], p[..n]);
        if EnsureDirectory(w1, overwrites, p[..n], false).Going? {
          DirectoryOnly(w1, overwrites, p[..n], false);
          GrowsOn(w, w1, EnsureDirectory(w1, overwrites, p[..n], false).world, p[..n - 1], p[..n]);
        }
      }
    }
  }

  /** A collision at the shallowest of the first `n` prefixes that no directory can be at. */
  predicate StandsInTheWay(w: World, p: Path, n: nat, error: ExtractError)
    requires n <= |p|
  {
    exists k :: 0 < k <= n && !Passable(w, p[..k]) && error == PathCollision(p[..k]) && forall j :: 0 < j < k ==> Passable(w, p[..j])
  }

  lemma NothingNew(w: World, p: Path)
    ensures Grows(w, w, p) && OnlyOn(w, w, p)
  {
  }

  /** What is done above a path leaves it and what is below it alone. */
  lemma StillPassable(w: World, w': World, above: Path, p: Path)
    requires Grows(w, w', above) && |above| < |p|
    ensures Passable(w', p) <==> Passable(w, p)
  {
    assert KeptAt(w, w', p) && NewAt(w, w', p, above);
  }

  lemma GrowsOn(w: World, w1: World, w2: World, above: Path, p: Path)
    requires Grows(w, w1, above) && Grows(w1, w2, p) && above <= p
    ensures Grows(w, w2, p)
  {
    forall q: Path ensures KeptAt(w, w2, q) && NewAt(w, w2, q, p) {
      assert KeptAt(w, w1, q) && NewAt(w, w1, q, above) && KeptAt(w1, w2, q) && NewAt(w1, w2, q, p);
    }
  }

  lemma OnlyAfterGrowing(w: World, w1: World, w2: World, above: Path, p: Path)
    requires Grows(w, w1, above) && OnlyOn(w1, w2, p) && above <= p
    ensures OnlyOn(w, w2, p)
  {
    forall q: Path | q != p ensures KeptAt(w, w2, q) && NewAt(w, w2, q, p) {
      assert KeptAt(w, w1, q) && NewAt(w, w1, q, above) && KeptAt(w1, w2, q) && NewAt(w1, w2, q, p);
    }
  }

  lemma StillRoom(w: World, w': World, overwrites: bool, above: Path, p: Path)
    requires Grows(w, w', above) && |above| < |p|
    ensures Room(w', overwrites, p) <==> Room(w, overwrites, p)
    ensures Replaceable(w', overwrites, p) <==> Replaceable(w, overwrites, p)
    ensures Free(w', p) <==> Free(w, p)
  {
    assert KeptAt(w, w', p) && NewAt(w, w', p, above);
    forall q: Path | p <= q ensures q in w.tree <==> q in w'.tree {
      assert KeptAt(w, w', q) && NewAt(w, w', q, above);
    }
    forall q: Path | p <= q ensures q in w.disk.nodes <==> q in w'.disk.nodes {
      assert KeptAt(w, w', q) && NewAt(w, w', q, above);
    }
  }

  // ----------------------------------------------------------------- members

  /** Everything from the way down to the leaf, where that is clear and there is room. */
  lemma WayAndRoom(w: World, overwrites: bool, p: Path)
    requires Coherent(w) && p != []
    ensures EnsureParents(w, overwrites, p, |p| - 1).Going? <==> WayClear(w, p)
    ensures EnsureParents(w, overwrites, p, |p| - 1).Stopped? ==>
              StandsInTheWay(w, p, |p| - 1, EnsureParents(w, overwrites, p, |p| - 1).error)
    ensures EnsureParents(w, overwrites, p, |p| - 1).Going? ==>
              var w' := EnsureParents(w, overwrites, p, |p| - 1).world;
              && Coherent(w') && OwnedDirectory(w'.tree, ParentOf(p)) && Grows(w, w', ParentOf(p)) && CanHold(w'.disk, p)
              && (Room(w', overwrites, p) <==> Room(w, overwrites, p))
              && (Replaceable(w', overwrites, p) <==> Replaceable(w, overwrites, p))
              && (Passable(w', p) <==> Passable(w, p))
  {
    hide Coherent, EnsureParents, Passable, Room, Replaceable, Grows, CanHold;
    ParentsHad(w, overwrites, p, |p| - 1);
    assert p[..|p| - 1] == ParentOf(p);
    var parents := EnsureParents(w, overwrites, p, |p| - 1);
    if parents.Going? {
      ParentIsDirectory(parents.world, p);
      StillRoom(w, parents.world, overwrites, ParentOf(p), p);
      StillPassable(w, parents.world, ParentOf(p), p);
    }
  }

  /** A small file is written exactly where there is room. */
  lemma WrittenIff(w: World, overwrites: bool, p: Path, executable: bool, contents: seq<Byte>)
    requires Coherent(w) && p != [] && CanHold(w.disk, p) && (p in w.tree ==> !w.tree[p].SymlinkEntry?)
    ensures var o := WriteSmallFile(w, overwrites, p, executable, contents);
            (o.Going? <==> Room(w, overwrites, p)) && (o.Stopped? ==> o.error == PathCollision(p))
  {
    hide Coherent, DiskValid, HasActiveChildren, IsEmptyDirectory;
    OwnedBelow(w, p);
    CoherentDisk(w);
    OwnedIsThere(w, p);
    if IsDirectory(w.disk, p) { NodesBelow(w.disk, p); }
  }

  /** An extracted link at the path gives way first; the conditions stay the same. */
  lemma AfterGivingWay(w: World, overwrites: bool, p: Path)
    requires Coherent(w) && p != [] && CanHold(w.disk, p) && ReplaceLeaf(w, overwrites, p).Replaced?
    ensures var w' := ReplaceLeaf(w, overwrites, p).world;
            Coherent(w') && Free(w', p) && Room(w', overwrites, p) && CanHold(w'.disk, p) && OnlyOn(w, w', p)
  {
    hide Coherent, ReplaceLeaf, Replaceable;
    LeafGone(w, overwrites, p);
    assert KeptAt(w, ReplaceLeaf(w, overwrites, p).world, ParentOf(p));
  }

  lemma PlacedIff(w: World, overwrites: bool, p: Path, executable: bool, contents: seq<Byte>)
    requires Coherent(w) && p != [] && CanHold(w.disk, p)
    ensures var o := PlaceSmallFile(w, overwrites, p, executable, contents);
            (o.Going? <==> Room(w, overwrites, p)) && (o.Stopped? ==> o.error == PathCollision(p))
  {
    hide Coherent, ReplaceLeaf, WriteSmallFile, Replaceable, CanHold;
    if p in w.tree && w.tree[p].SymlinkEntry? {
      LeafReplaced(w, overwrites, p);
      var r := ReplaceLeaf(w, overwrites, p);
      if r.Replaced? {
        AfterGivingWay(w, overwrites, p);
        WrittenIff(r.world, overwrites, p, executable, contents);
      }
    } else {
      WrittenIff(w, overwrites, p, executable, contents);
    }
  }

  /** A large file's name is had under the same condition. */
  lemma OpenedIff(w: World, overwrites: bool, p: Path, executable: bool)
    requires Coherent(w) && p != [] && CanHold(w.disk, p) && (p in w.tree ==> !w.tree[p].SymlinkEntry?)
    ensures var o := OpenOrReplace(w, overwrites, p, executable);
            (o.Going? <==> Room(w, overwrites, p)) && (o.Stopped? ==> o.error == PathCollision(p))
  {
    hide Coherent, ReplaceLeaf, Replaceable, CanHold;
    LeafReplaced(w, overwrites, p);
    OwnedIsThere(w, p);
    if ReplaceLeaf(w, overwrites, p).Replaced? { AfterGivingWay(w, overwrites, p); }
  }

  lemma CreatedIff(w: World, overwrites: bool, p: Path, executable: bool)
    requires Coherent(w) && p != []
    ensures var o := CreateFileAt(w, overwrites, p, executable);
            && (o.Going? <==> WayClear(w, p) && Room(w, overwrites, p))
            && (o.Stopped? ==> Collides(w, overwrites, p, o.error))
  {
    hide Coherent, EnsureParents, OpenOrReplace, ReplaceLeaf, Replaceable, Passable, CanHold, StandsInTheWay;
    WayAndRoom(w, overwrites, p);
    var parents := EnsureParents(w, overwrites, p, |p| - 1);
    if parents.Going? {
      var w1 := parents.world;
      LeafReplaced(w1, overwrites, p);
      var r := ReplaceLeaf(w1, overwrites, p);
      if p !in w1.tree || !w1.tree[p].SymlinkEntry? {
        OpenedIff(w1, overwrites, p, executable);
      } else if r.Replaced? {
        AfterGivingWay(w1, overwrites, p);
        OpenedIff(r.world, overwrites, p, executable);
      }
    }
  }

  /** A collision with the shallowest thing in the way, or, the way being clear, with what is at the path itself. */
  ghost predicate Collides(w: World, overwrites: bool, p: Path, error: ExtractError)
    requires p != []
  {
    if WayClear(w, p) then !Room(w, overwrites, p) && error == PathCollision(p) else StandsInTheWay(w, p, |p| - 1, error)
  }

  /** A file member is extracted exactly where its way is clear and there is room, and its payload does not fail. */
  lemma FileIff(w: World, overwrites: bool, p: Path, size: nat, executable: bool, payload: Payload)
    requires Coherent(w) && ItemValid(FileItem(p, size, executable, payload))
    ensures var o := ExtractItem(w, overwrites, FileItem(p, size, executable, payload));
            && (o.Going? <==> !payload.fails && WayClear(w, p) && Room(w, overwrites, p))
            && (o.Stopped? ==> (payload.fails && o.error == PayloadFailed) || Collides(w, overwrites, p, o.error))
  {
    hide Coherent, EnsureParents, CreateFileAt, PlaceSmallFile, Room, Passable, CanHold, WayClear, StandsInTheWay;
    WayAndRoom(w, overwrites, p);
    CreatedIff(w, overwrites, p, executable);
    var parents := EnsureParents(w, overwrites, p, |p| - 1);
    if parents.Going? { PlacedIff(parents.world, overwrites, p, executable, payload.bytes); }
  }

  lemma DirectoryIff(w: World, overwrites: bool, p: Path)
    requires Coherent(w)
    ensures var o := ExtractDirectory(w, overwrites, p);
            && (o.Going? <==> p == [] || (WayClear(w, p) && (Passable(w, p) || Replaceable(w, overwrites, p))))
            && (o.Stopped? ==> if WayClear(w, p) then o.error == PathCollision(p) else StandsInTheWay(w, p, |p| - 1, o.error))
  {
    hide Coherent, EnsureParents, EnsureDirectory, Passable, Replaceable, CanHold, WayClear, StandsInTheWay, Room;
    if p != [] {
      WayAndRoom(w, overwrites, p);
      var parents := EnsureParents(w, overwrites, p, |p| - 1);
      if parents.Going? { DirectoryHad(parents.world, overwrites, p, true); }
    }
  }

  /** A target is taken exactly when it stays below the destination; a symbolic link's also needs every `..` in front. */
  lemma TargetIff(base: Path, text: seq<Byte>, strict: bool)
    ensures LinkTarget(base, text, strict).Ok? <==> StaysBelow(base, text) && (strict ==> UpsFirst(SplitPath(text)))
    ensures LinkTarget(base, text, strict).Ok? ==> LinkTarget(base, text, strict).value == Resolve(base, SplitPath(text)).value
  {
    hide SplitPath, Resolve, UpsFirst, WalkTarget;
    WalkTargetMeans(base, SplitPath(text), strict, false);
  }

  lemma SymlinkIff(w: World, overwrites: bool, position: nat, p: Path, text: seq<Byte>)
    requires Coherent(w) && p != []
    ensures var o := ReserveSymlink(w, overwrites, position, p, text);
            && (o.Going? <==> StaysBelow(ParentOf(p), text) && UpsFirst(SplitPath(text)) && WayClear(w, p) && Room(w, overwrites, p))
            && (o.Stopped? ==>
                  if StaysBelow(ParentOf(p), text) && UpsFirst(SplitPath(text)) then Collides(w, overwrites, p, o.error)
                  else o.error.UnsafePath? && o.error.position == position)
  {
    hide Coherent, EnsureParents, ReplaceLeaf, Passable, Replaceable, CanHold, WayClear, StandsInTheWay, SplitPath, UpsFirst, StaysBelow,
         LinkTarget;
    WayAndRoom(w, overwrites, p);
    TargetIff(ParentOf(p), text, true);
    var parents := EnsureParents(w, overwrites, p, |p| - 1);
    if parents.Going? { LeafReplaced(parents.world, overwrites, p); }
  }

  /** Why a target cannot be linked to. */
  function Unlinkable(w: World, p: Path, target: Path): LinkReason
  {
    if target !in w.tree || w.tree[target] != FileEntry then TargetNotExtracted
    else if target == p then TargetIsMember
    else TargetIsAncestor
  }

  lemma LinkedIff(w: World, p: Path, target: Path, size: nat, payload: Payload)
    requires Coherent(w) && p != [] && CanHold(w.disk, p) && p !in w.disk.nodes && IsFile(w.disk, target)
    ensures LinkAndWrite(w, p, target, size, payload).Going? <==> !payload.fails
    ensures LinkAndWrite(w, p, target, size, payload).Stopped? ==> LinkAndWrite(w, p, target, size, payload).error == PayloadFailed
  {
    hide Coherent, DiskValid;
  }

  lemma HardLinkIff(w: World, overwrites: bool, position: nat, p: Path, text: seq<Byte>, size: nat, payload: Payload)
    requires Coherent(w) && p != []
    ensures var o := ExtractHardLink(w, overwrites, position, p, text, size, payload);
            && (o.Going? <==> !payload.fails && StaysBelow([], text) && LinkableFile(w, p, Resolve([], SplitPath(text)).value)
                              && WayClear(w, p) && Room(w, overwrites, p))
            && (o.Stopped? ==>
                  if !StaysBelow([], text) then o.error.UnsafePath? && o.error.position == position
                  else if !LinkableFile(w, p, Resolve([], SplitPath(text)).value) then
                    o.error == InvalidLink(position, p, Unlinkable(w, p, Resolve([], SplitPath(text)).value))
                  else if WayClear(w, p) && Room(w, overwrites, p) then o.error == PayloadFailed
                  else Collides(w, overwrites, p, o.error))
  {
    hide Coherent, EnsureParents, ReplaceLeaf, Passable, Replaceable, CanHold, WayClear, StandsInTheWay, SplitPath, UpsFirst, StaysBelow,
         LinkTarget, LinkAndWrite, Resolve;
    WayAndRoom(w, overwrites, p);
    TargetIff([], text, false);
    var parents := EnsureParents(w, overwrites, p, |p| - 1);
    if parents.Going? && LinkTarget([], text, false).Ok? && HardLinkFault(w, p, LinkTarget([], text, false).value).None? {
      var w1, target := parents.world, LinkTarget([], text, false).value;
      LeafReplaced(w1, overwrites, p);
      HardLinkTargetLives(w, overwrites, p, target, w1);
      var r := ReplaceLeaf(w1, overwrites, p);
      if r.Replaced? {
        AfterGivingWay(w1, overwrites, p);
        LinkedIff(r.world, p, target, size, payload);
      } else if r.NothingThere? {
        LinkedIff(w1, p, target, size, payload);
      }
    }
  }

  /** A member is extracted if and only if the disk, the extracted paths and the policy are as `Succeeds` says. */
  lemma ItemIff(w: World, overwrites: bool, item: Item)
    requires Coherent(w) && ItemValid(item)
    ensures ExtractItem(w, overwrites, item).Going? <==> Succeeds(w, overwrites, item)
  {
    hide Coherent, WayClear, Room, Replaceable, Passable, StaysBelow, UpsFirst, SplitPath, Resolve, ExtractDirectory, ReserveSymlink,
         ExtractHardLink, ExtractSmallFile, ExtractLargeFile;
    match item
    case FileItem(p, size, executable, payload) => FileIff(w, overwrites, p, size, executable, payload);
    case DirectoryItem(p) => DirectoryIff(w, overwrites, p);
    case SymlinkItem(position, p, text) => SymlinkIff(w, overwrites, position, p, text);
    case HardLinkItem(position, p, text, size, payload) => HardLinkIff(w, overwrites, position, p, text, size, payload);
    case _ =>
  }

  /** No member is ever stopped by the file system itself: what cannot be made is a collision found before. */
  lemma NoFilesystemErrors(w: World, overwrites: bool, item: Item)
    requires Coherent(w) && ItemValid(item) && (item.RefusedItem? ==> !item.error.Filesystem?)
    ensures ExtractItem(w, overwrites, item).Stopped? ==> !ExtractItem(w, overwrites, item).error.Filesystem?
  {
    hide Coherent, WayClear, Room, Replaceable, Passable, StaysBelow, UpsFirst, SplitPath, Resolve, ExtractDirectory, ReserveSymlink,
         ExtractHardLink, ExtractSmallFile, ExtractLargeFile;
    match item
    case FileItem(p, size, executable, payload) => FileIff(w, overwrites, p, size, executable, payload);
    case DirectoryItem(p) => DirectoryIff(w, overwrites, p);
    case SymlinkItem(position, p, text) => SymlinkIff(w, overwrites, position, p, text);
    case HardLinkItem(position, p, text, size, payload) => HardLinkIff(w, overwrites, position, p, text, size, payload);
    case _ =>
  }

  // ---------------------------------------------------- what stays unchanged

  lemma OnlyTwice(w: World, w1: World, w2: World, p: Path)
    requires OnlyOn(w, w1, p) && OnlyOn(w1, w2, p)
    ensures OnlyOn(w, w2, p)
  {
    forall q: Path | q != p ensures KeptAt(w, w2, q) && NewAt(w, w2, q, p) {
      assert KeptAt(w, w1, q) && NewAt(w, w1, q, p) && KeptAt(w1, w2, q) && NewAt(w1, w2, q, p);
    }
  }

  lemma EntrySet(w: World, p: Path, entry: ExtractedEntry, d: DiskState, links: seq<PendingLink>)
    requires SameElsewhere(w.disk, d, p) && w.links <= links
    ensures OnlyOn(w, World(d, w.tree[p := entry], links), p)
  {
  }

  lemma OpenedOnly(w: World, overwrites: bool, p: Path, executable: bool)
    requires Coherent(w) && p != [] && OpenOrReplace(w, overwrites, p, executable).Going?
    ensures OnlyOn(w, OpenOrReplace(w, overwrites, p, executable).world, p)
  {
    hide Coherent, ReplaceLeaf, OnlyOn;
    if CreateNew(w.disk, p, executable).Ok? {
      EntrySet(w, p, FileEntry, CreateNew(w.disk, p, executable).value, w.links);
    } else {
      LeafGone(w, overwrites, p);
      var w1 := ReplaceLeaf(w, overwrites, p).world;
      EntrySet(w1, p, FileEntry, CreateNew(w1.disk, p, executable).value, w1.links);
      OnlyTwice(w, w1, OpenOrReplace(w, overwrites, p, executable).world, p);
    }
  }

  lemma PayloadOnly(w: World, w1: World, p: Path, payload: Payload)
    requires OnlyOn(w, w1, p) && WritePayload(w1, p, payload).Going?
    ensures OnlyOn(w, WritePayload(w1, p, payload).world, p)
  {
    assert forall q: Path :: KeptAt(w1, WritePayload(w1, p, payload).world, q) && NewAt(w1, WritePayload(w1, p, payload).world, q, p);
    OnlyTwice(w, w1, WritePayload(w1, p, payload).world, p);
  }

  /** The world in which a file's or a link's leaf is made: parents are there, and what was at the path is gone. */
  lemma LeafOnly(w: World, overwrites: bool, p: Path, w1: World, w2: World)
    requires Coherent(w) && p != [] && EnsureParents(w, overwrites, p, |p| - 1) == Going(w1)
    requires w2 == w1 || ReplaceLeaf(w1, overwrites, p) == Replaced(w2)
    ensures Coherent(w1) && Coherent(w2) && OnlyOn(w, w2, p)
  {
    hide Coherent, EnsureParents, ReplaceLeaf, OnlyOn, Grows;
    ParentsHad(w, overwrites, p, |p| - 1);
    assert p[..|p| - 1] == ParentOf(p);
    NothingNew(w1, p);
    if ReplaceLeaf(w1, overwrites, p).Replaced? { LeafGone(w1, overwrites, p); }
    OnlyAfterGrowing(w, w1, w2, ParentOf(p), p);
  }

  lemma SmallFileOnly(w: World, overwrites: bool, p: Path, executable: bool, contents: seq<Byte>)
    requires Coherent(w) && p != [] && ExtractSmallFile(w, overwrites, p, executable, contents).Going?
    ensures OnlyOn(w, ExtractSmallFile(w, overwrites, p, executable, contents).world, p)
  {
    hide Coherent, EnsureParents, ReplaceLeaf, OnlyOn, WriteBuffered, SameElsewhere;
    var w1 := EnsureParents(w, overwrites, p, |p| - 1).world;
    var r := ReplaceLeaf(w1, overwrites, p);
    var w2 := if p in w1.tree && w1.tree[p].SymlinkEntry? && r.Replaced? then r.world else w1;
    LeafOnly(w, overwrites, p, w1, w2);
    CoherentDisk(w2);
    WriteBufferedKeeps(w2.disk, p, executable, contents, ReplacementFor(w2, overwrites, p));
    var d := WriteBuffered(w2.disk, p, executable, contents, ReplacementFor(w2, overwrites, p)).disk;
    EntrySet(w2, p, FileEntry, d, w2.links);
    OnlyTwice(w, w2, World(d, w2.tree[p := FileEntry], w2.links), p);
  }

  lemma LargeFileOnly(w: World, overwrites: bool, p: Path, executable: bool, payload: Payload)
    requires Coherent(w) && p != [] && ExtractLargeFile(w, overwrites, p, executable, payload).Going?
    ensures OnlyOn(w, ExtractLargeFile(w, overwrites, p, executable, payload).world, p)
  {
    hide Coherent, EnsureParents, ReplaceLeaf, OnlyOn, OpenOrReplace, WritePayload;
    var w1 := EnsureParents(w, overwrites, p, |p| - 1).world;
    var r := ReplaceLeaf(w1, overwrites, p);
    var w2 := if p in w1.tree && w1.tree[p].SymlinkEntry? && r.Replaced? then r.world else w1;
    LeafOnly(w, overwrites, p, w1, w2);
    OpenedOnly(w2, overwrites, p, executable);
    var w3 := OpenOrReplace(w2, overwrites, p, executable).world;
    OnlyTwice(w, w2, w3, p);
    PayloadOnly(w, w3, p, payload);
  }

  lemma DirectoryMemberOnly(w: World, overwrites: bool, p: Path)
    requires Coherent(w) && ExtractDirectory(w, overwrites, p).Going?
    ensures OnlyOn(w, ExtractDirectory(w, overwrites, p).world, p)
  {
    hide Coherent, EnsureParents, EnsureDirectory, OnlyOn, Grows;
    NothingNew(w, p);
    if p != [] {
      ParentsHad(w, overwrites, p, |p| - 1);
      assert p[..|p| - 1] == ParentOf(p);
      var w1 := EnsureParents(w, overwrites, p, |p| - 1).world;
      DirectoryOnly(w1, overwrites, p, true);
      OnlyAfterGrowing(w, w1, EnsureDirectory(w1, overwrites, p, true).world, ParentOf(p), p);
    }
  }

  lemma SymlinkOnly(w: World, overwrites: bool, position: nat, p: Path, text: seq<Byte>)
    requires Coherent(w) && p != [] && ReserveSymlink(w, overwrites, position, p, text).Going?
    ensures OnlyOn(w, ReserveSymlink(w, overwrites, position, p, text).world, p)
  {
    hide Coherent, EnsureParents, ReplaceLeaf, OnlyOn, LinkTarget, SplitPath;
    var w1 := EnsureParents(w, overwrites, p, |p| - 1).world;
    var r := ReplaceLeaf(w1, overwrites, p);
    var w2 := if r.Replaced? then r.world else w1;
    LeafOnly(w, overwrites, p, w1, w2);
    var w3 := ReserveSymlink(w, overwrites, position, p, text).world;
    EntrySet(w2, p, SymlinkEntry(|w2.links|), w2.disk, w3.links);
    OnlyTwice(w, w2, w3, p);
  }

  lemma LinkAndWriteOnly(w: World, p: Path, target: Path, size: nat, payload: Payload)
    requires LinkAndWrite(w, p, target, size, payload).Going?
    ensures OnlyOn(w, LinkAndWrite(w, p, target, size, payload).world, p)
  {
    var d := HardLink(w.disk, target, p).value;
    var w1 := w.(disk := d, tree := w.tree[p := FileEntry]);
    EntrySet(w, p, FileEntry, d, w.links);
    if size != 0 {
      var w2 := w1.(disk := Truncate(d, p).value);
      EntrySet(w, p, FileEntry, Truncate(d, p).value, w.links);
      PayloadOnly(w, w2, p, payload);
    }
  }

  lemma HardLinkOnly(w: World, overwrites: bool, position: nat, p: Path, text: seq<Byte>, size: nat, payload: Payload)
    requires Coherent(w) && p != [] && ExtractHardLink(w, overwrites, position, p, text, size, payload).Going?
    ensures OnlyOn(w, ExtractHardLink(w, overwrites, position, p, text, size, payload).world, p)
  {
    hide Coherent, EnsureParents, ReplaceLeaf, OnlyOn, LinkTarget, LinkAndWrite;
    var target := LinkTarget([], text, false).value;
    var w1 := EnsureParents(w, overwrites, p, |p| - 1).world;
    var r := ReplaceLeaf(w1, overwrites, p);
    var w2 := if r.Replaced? then r.world else w1;
    LeafOnly(w, overwrites, p, w1, w2);
    LinkAndWriteOnly(w2, p, target, size, payload);
    OnlyTwice(w, w2, LinkAndWrite(w2, p, target, size, payload).world, p);
  }

  /** The path an item writes at, if it writes. */
  function Touches(item: Item): Option<Path>
  {
    match item
    case FileItem(path, _, _, _) => Some(path)
    case DirectoryItem(path) => Some(path)
    case SymlinkItem(_, path, _) => Some(path)
    case HardLinkItem(_, path, _, _, _) => Some(path)
    case _ => None
  }

  /** A member changes its own path, makes directories on the way there, and touches no other name. */
  lemma ItemOnly(w: World, overwrites: bool, item: Item)
    requires Coherent(w) && ItemValid(item) && ExtractItem(w, overwrites, item).Going?
    ensures Touches(item).Some? ==> OnlyOn(w, ExtractItem(w, overwrites, item).world, Touches(item).value)
    ensures Touches(item).None? ==> ExtractItem(w, overwrites, item).world == w
  {
    hide Coherent, ExtractDirectory, ReserveSymlink, ExtractHardLink, ExtractSmallFile, ExtractLargeFile, OnlyOn;
    match item
    case FileItem(p, size, executable, payload) =>
      if size > BUFFERED_PAYLOAD_MAX_BYTES {
        LargeFileOnly(w, overwrites, p, executable, payload);
      } else {
        SmallFileOnly(w, overwrites, p, executable, payload.bytes);
      }
    case DirectoryItem(p) => DirectoryMemberOnly(w, overwrites, p);
    case SymlinkItem(position, p, text) => SymlinkOnly(w, overwrites, position, p, text);
    case HardLinkItem(position, p, text, size, payload) => HardLinkOnly(w, overwrites, position, p, text, size, payload);
    case _ =>
  }

  // --------------------------------------------------------------- whole runs

  /** Item `i` finds the world in which it can be extracted. */
  ghost predicate SucceedsInTurn(d: DiskState, overwrites: bool, items: seq<Item>, i: nat)
    requires i < |items| && forall j :: 0 <= j < |items| ==> ItemValid(items[j])
  {
    var before := ExtractItems(Opened(d), overwrites, items[..i]);
    before.Going? && Succeeds(before.world, overwrites, items[i])
  }

  /** A run goes through exactly when every item's conditions hold in its turn. */
  lemma {:induction false} RunIff(d: DiskState, overwrites: bool, items: seq<Item>)
    requires DiskValid(d) && forall j :: 0 <= j < |items| ==> ItemValid(items[j])
    ensures ExtractItems(Opened(d), overwrites, items).Going? <==>
            forall i :: 0 <= i < |items| ==> SucceedsInTurn(d, overwrites, items, i)
    decreases |items|
  {
    hide Succeeds, ExtractItem, DiskValid, Coherent;
    if items != [] {
      var init, last := items[..|items| - 1], items[|items| - 1];
      RunIff(d, overwrites, init);
      RunsStayCoherent(d, overwrites, init);
      forall i | 0 <= i < |init| ensures SucceedsInTurn(d, overwrites, init, i) <==> SucceedsInTurn(d, overwrites, items, i) {
        assert init[..i] == items[..i];
      }
      var before := ExtractItems(Opened(d), overwrites, init);
      if before.Going? {
        ItemIff(before.world, overwrites, last);
        assert SucceedsInTurn(d, overwrites, items, |items| - 1) <==> Succeeds(before.world, overwrites, last);
      }
    }
  }
}
