/** The collision index of an archive under construction. */
module BuildEntries {
  import opened Octets
  import opened Components
  import opened ComponentTree

  datatype ArchivedEntry = DirectoryEntry(explicit: bool) | NonDirectory

  /** One committed entry. */
  datatype Committed = Committed(path: Path, entry: ArchivedEntry)

  /**
   * Whether an entry may join those committed so far: no committed non-directory lies on its path, a
   * non-directory is not itself on a committed path, and a directory was not already archived explicitly.
   */
  ghost predicate Compatible(log: seq<Committed>, path: Path, entry: ArchivedEntry)
  {
    forall i :: 0 <= i < |log| ==> CompatiblePair(log[i], path, entry)
  }

  ghost predicate CompatiblePair(c: Committed, path: Path, entry: ArchivedEntry)
  {
    && (c.entry.NonDirectory? ==> !(c.path <= path))
    && (entry.NonDirectory? ==> !(path <= c.path))
    && (c.path == path ==> c.entry == DirectoryEntry(false))
  }

  /** Every committed entry was compatible with those before it. */
  ghost predicate Consistent(log: seq<Committed>)
  {
    forall i :: 0 <= i < |log| ==> log[i].path != [] && Compatible(log[..i], log[i].path, log[i].entry)
  }

  /** The tree's contents record a log: every nonempty prefix of a committed path, with the committed kinds. */
  ghost predicate Recorded(contents: map<Path, ArchivedEntry>, log: seq<Committed>)
  {
    forall p :: Records(contents, log, p)
  }

  ghost predicate Records(contents: map<Path, ArchivedEntry>, log: seq<Committed>, p: Path)
  {
    && (p in contents <==> p != [] && exists i :: 0 <= i < |log| && p <= log[i].path)
    && (p in contents ==>
          && (contents[p].NonDirectory? <==> Committed(p, NonDirectory) in log)
          && (contents[p] == DirectoryEntry(true) <==> Committed(p, DirectoryEntry(true)) in log))
  }

  /** Two committed entries never contradict each other: no file on another's path, nothing explicit twice. */
  lemma ConsistentPairs(log: seq<Committed>, i: nat, j: nat)
    requires Consistent(log) && i < j < |log|
    ensures log[i].entry.NonDirectory? ==> !(log[i].path <= log[j].path)
    ensures log[j].entry.NonDirectory? ==> !(log[j].path <= log[i].path)
    ensures log[i].path == log[j].path ==> log[i].entry == DirectoryEntry(false)
  {
    assert CompatiblePair(log[..j][i], log[j].path, log[j].entry);
  }

  lemma PairsMean(log: seq<Committed>, path: Path, entry: ArchivedEntry)
    ensures Compatible(log, path, entry) <==> forall j :: 0 <= j < |log| ==> CompatiblePair(log[j], path, entry)
  {
  }

  class BuildEntries {
    const tree: ComponentTree<Component, ArchivedEntry>
    ghost var log: seq<Committed>

    ghost predicate Valid()
      reads this, tree
    {
      tree.Valid() && tree.paths != [] && tree.paths[ROOT_NODE] == [] && Recorded(tree.Contents(), log) && Consistent(log)
    }

    constructor ()
      ensures Valid() && log == [] && fresh(tree)
    {
      tree := new ComponentTree(None);
      log := [];
    }

    /**
     * Walks the tree along the path. Without a conflict the entry may be committed; otherwise the
     * shortest conflicting prefix is reported.
     */
    method PreflightEntry(path: Path, entry: ArchivedEntry) returns (collision: Option<nat>)
      requires Valid() && path != []
      ensures collision.None? <==> Compatible(log, path, entry)
      ensures collision.Some? ==> 0 < collision.value <= |path|
      ensures collision.Some? && collision.value < |path| ==> Committed(path[..collision.value], NonDirectory) in log
    {
      hide ComponentTree.Valid, ComponentTree.Contents, Recorded, Consistent, Compatible;
      var parent: nat := ROOT_NODE;
      for i := 0 to |path|
        invariant parent < |tree.paths| && tree.paths[parent] == path[..i]
        invariant i < |path| && DirectoriesTo(path, i)
      {
        assert path[..i] + [path[i]] == path[..i + 1];
        var found := tree.Child(parent, path[i]);
        if found.None? {
          tree.OnlyIndexed(path[..i + 1]);
          NothingBeyond(path, entry, i);
          return None;
        }
        var node := found.value;
        ChildPath(path[..i + 1]);
        var state := tree.State(node);
        if i + 1 < |path| {
          match state
          case Some(DirectoryEntry(_)) => parent := node;
          case Some(NonDirectory) =>
            FileInTheWay(path, entry, i + 1);
            return Some(i + 1);
          case None =>
            NothingBeyond(path, entry, i);
            return None;
        } else {
          assert path[..i + 1] == path;
          LastComponent(path, entry);
          if state.None? || (state == Some(DirectoryEntry(false)) && entry.DirectoryEntry?) {
            return None;
          }
          return Some(i + 1);
        }
      }
      assert false;
    }

    /** Every nonempty prefix up to length `n` is a recorded directory. */
    ghost predicate DirectoriesTo(path: Path, n: nat)
      requires n <= |path|
      reads this, tree
    {
      forall k :: 0 < k <= n ==> path[..k] in tree.Contents() && tree.Contents()[path[..k]].DirectoryEntry?
    }

    lemma ChildPath(p: Path)
      requires Valid() && p in tree.index
      ensures tree.index[p] < |tree.paths| && tree.paths[tree.index[p]] == p
    {
    }

    /** Nothing recorded at a prefix means nothing committed under it, hence no conflict. */
    lemma NothingBeyond(path: Path, entry: ArchivedEntry, i: nat)
      requires Valid() && i < |path| && DirectoriesTo(path, i)
      requires path[..i + 1] !in tree.Contents()
      ensures Compatible(log, path, entry)
    {
      hide ComponentTree.Valid, ComponentTree.Contents, Compatible;
      var contents := tree.Contents();
      assert Records(contents, log, path[..i + 1]);
      assert Compatible(log, path, entry) <==> forall j :: 0 <= j < |log| ==> CompatiblePair(log[j], path, entry) by { PairsMean(log, path, entry); }
      forall j | 0 <= j < |log| ensures CompatiblePair(log[j], path, entry) {
        var q := log[j].path;
        assert !(path[..i + 1] <= q);
        if q <= path {
          ShortOnPath(path, q, i);
          assert log[j] == Committed(q, log[j].entry);
          assert Records(contents, log, q);
        }
      }
    }

    lemma ShortOnPath(path: Path, q: Path, i: nat)
      requires i < |path| && q <= path && !(path[..i + 1] <= q)
      ensures |q| <= i && q == path[..|q|]
    {
      assert forall n :: 0 <= n <= |q| ==> q[..n] == path[..n];
    }

    lemma FileInTheWay(path: Path, entry: ArchivedEntry, k: nat)
      requires Valid() && 0 < k < |path|
      requires path[..k] in tree.Contents() && tree.Contents()[path[..k]] == NonDirectory
      ensures Committed(path[..k], NonDirectory) in log && !Compatible(log, path, entry)
    {
      hide ComponentTree.Valid, ComponentTree.Contents, Consistent;
      assert Records(tree.Contents(), log, path[..k]);
      var j :| 0 <= j < |log| && log[j] == Committed(path[..k], NonDirectory);
      assert !CompatiblePair(log[j], path, entry);
    }

    /** What is recorded at the path itself decides, once everything above it is a directory. */
    lemma LastComponent(path: Path, entry: ArchivedEntry)
      requires Valid() && path != [] && DirectoriesTo(path, |path| - 1)
      ensures Compatible(log, path, entry) <==>
              path !in tree.Contents() || (tree.Contents()[path] == DirectoryEntry(false) && entry.DirectoryEntry?)
    {
      hide ComponentTree.Valid, ComponentTree.Contents, Compatible;
      var contents := tree.Contents();
      PairsMean(log, path, entry);
      assert Records(contents, log, path);
      if path !in contents {
        assert path[..|path| - 1 + 1] == path;
        NothingBeyond(path, entry, |path| - 1);
      } else if contents[path] == DirectoryEntry(false) && entry.DirectoryEntry? {
        forall j | 0 <= j < |log| ensures CompatiblePair(log[j], path, entry) {
          var q := log[j].path;
          if q <= path {
            assert q == path[..|q|];
            assert log[j] == Committed(q, log[j].entry);
            assert Records(contents, log, q);
          }
        }
      } else if entry.NonDirectory? {
        var j :| 0 <= j < |log| && path <= log[j].path;
        assert !CompatiblePair(log[j], path, entry);
      } else if contents[path].NonDirectory? {
        var j :| 0 <= j < |log| && log[j] == Committed(path, NonDirectory);
        assert !CompatiblePair(log[j], path, entry);
      } else {
        var j :| 0 <= j < |log| && log[j] == Committed(path, DirectoryEntry(true));
        assert !CompatiblePair(log[j], path, entry);
      }
    }

    /** Records a reserved entry, making the directories it lies in implicit ones where they are new. */
    method CommitEntry(path: Path, entry: ArchivedEntry)
      requires Valid() && path != [] && Compatible(log, path, entry)
      modifies this, tree
      ensures Valid() && log == old(log) + [Committed(path, entry)]
    {
      hide ComponentTree.Valid, ComponentTree.Contents, Recorded, Consistent, Compatible;
      ghost var before := tree.Contents();
      var parent: nat := ROOT_NODE;
      for i := 0 to |path|
        invariant tree.Valid() && parent < |tree.paths| && tree.paths[parent] == path[..i]
        invariant tree.paths != [] && tree.paths[ROOT_NODE] == [] && log == old(log)
        invariant tree.Contents() == ImpliedAfter(before, path, i, entry)
      {
        assert path[..i] + [path[i]] == path[..i + 1];
        tree.Sizes();
        var node := tree.EnsureChild(parent, path[i]);
        if i + 1 < |path| {
          var state := tree.State(node);
          if state.None? {
            tree.SetState(node, DirectoryEntry(false));
          }
        } else {
          assert path[..i + 1] == path;
          tree.SetState(node, entry);
        }
        parent := node;
      }
      ghost var committed := Committed(path, entry);
      CommitRecorded(before, log, path, entry);
      ConsistentMore(log, committed);
      log := log + [committed];
    }
  }

  /** The first `n` prefixes recorded as implicit directories where they were absent. */
  ghost function Implied(contents: map<Path, ArchivedEntry>, path: Path, n: nat): map<Path, ArchivedEntry>
    requires n < |path|
  {
    if n == 0 then contents
    else
      var above := Implied(contents, path, n - 1);
      if path[..n] in above then above else above[path[..n] := DirectoryEntry(false)]
  }

  /** What is recorded once `n` components have been committed. */
  ghost function ImpliedAfter(contents: map<Path, ArchivedEntry>, path: Path, n: nat, entry: ArchivedEntry): map<Path, ArchivedEntry>
    requires path != [] && n <= |path|
  {
    if n < |path| then Implied(contents, path, n) else Implied(contents, path, |path| - 1)[path := entry]
  }

  lemma {:induction false} ImpliedIs(contents: map<Path, ArchivedEntry>, path: Path, n: nat, p: Path)
    requires n < |path|
    ensures p in Implied(contents, path, n) <==> p in contents || (0 < |p| <= n && p == path[..|p|])
    ensures p in Implied(contents, path, n) ==>
              Implied(contents, path, n)[p] == if p in contents then contents[p] else DirectoryEntry(false)
    decreases n
  {
    if n > 0 { ImpliedIs(contents, path, n - 1, p); }
  }

  /** Committing keeps the record: the new path's prefixes are there, and only its own kind is new. */
  lemma CommitRecorded(contents: map<Path, ArchivedEntry>, log: seq<Committed>, path: Path, entry: ArchivedEntry)
    requires Recorded(contents, log) && path != [] && Compatible(log, path, entry)
    ensures Recorded(ImpliedAfter(contents, path, |path|, entry), log + [Committed(path, entry)])
  {
    var after, more := ImpliedAfter(contents, path, |path|, entry), log + [Committed(path, entry)];
    forall p ensures Records(after, more, p) {
      assert Records(contents, log, p);
      ImpliedIs(contents, path, |path| - 1, p);
      assert more[|log|] == Committed(path, entry);
      if i :| 0 <= i < |log| && p <= log[i].path { assert p <= more[i].path; }
      assert forall c :: c in more <==> c in log || c == Committed(path, entry);
      if p != [] && p <= path {
        assert p == path[..|p|] && p <= more[|log|].path;
      }
      if p == path { SamePath(log, path, entry); }
    }
  }

  lemma SamePath(log: seq<Committed>, path: Path, entry: ArchivedEntry)
    requires Compatible(log, path, entry)
    ensures Committed(path, NonDirectory) !in log && Committed(path, DirectoryEntry(true)) !in log
  {
    forall i | 0 <= i < |log| ensures log[i] != Committed(path, NonDirectory) && log[i] != Committed(path, DirectoryEntry(true)) {
      assert CompatiblePair(log[i], path, entry);
    }
  }

  lemma ConsistentMore(log: seq<Committed>, c: Committed)
    requires Consistent(log) && c.path != [] && Compatible(log, c.path, c.entry)
    ensures Consistent(log + [c])
  {
    hide Compatible;
    var more := log + [c];
    forall i | 0 <= i < |more| ensures more[i].path != [] && Compatible(more[..i], more[i].path, more[i].entry) {
      assert more[..i] == log[..i];
      if i == |log| { assert log[..i] == log; }
    }
  }
}
