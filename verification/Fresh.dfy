/** Archives that do not contradict themselves always extract onto an empty destination. */
module Fresh {
  import opened Octets
  import opened Components
  import opened Disk
  import opened Extraction
  import opened Conditions
  import opened Effects
  import opened Extract
  import Decode

  /** A member that leaves something behind. */
  predicate Writes(policy: ExtractPolicy, a: Arrival) { !PassedOver(policy, a.member) }

  /** Two members can both have their paths: neither lies in the way of the other, unless as a directory. */
  predicate Agree(a: Decode.Member, b: Decode.Member)
  {
    && (PathOf(a) == PathOf(b) ==> a.DirectoryMember? && b.DirectoryMember?)
    && (PathOf(a) < PathOf(b) ==> a.DirectoryMember?)
    && (PathOf(b) < PathOf(a) ==> b.DirectoryMember?)
  }

  /** A file, or another name of one. */
  predicate MakesFile(m: Decode.Member) { m.FileMember? || m.HardLinkMember? }

  /** Acceptable on its own: its payload arrives whole, and a link stays below the destination. */
  predicate Sound(policy: ExtractPolicy, a: Arrival)
  {
    && Admissible(policy, a.member) && !a.payload.fails
    && (a.member.HardLinkMember? ==> StaysBelow([], a.member.target))
    && (a.member.SymbolicLinkMember? && Writes(policy, a) ==>
          PathOf(a.member) != [] && StaysBelow(ParentOf(PathOf(a.member)), a.member.target) && UpsFirst(SplitPath(a.member.target)))
  }

  /** A hard link names a file that an earlier member makes. */
  predicate Linked(before: seq<Arrival>, a: Arrival)
  {
    a.member.HardLinkMember? ==>
      exists j :: 0 <= j < |before| && MakesFile(before[j].member)
                  && Resolve([], SplitPath(a.member.target)) == Some(PathOf(before[j].member))
  }

  predicate Consistent(policy: ExtractPolicy, arrivals: seq<Arrival>)
  {
    && (forall i :: 0 <= i < |arrivals| ==> Sound(policy, arrivals[i]) && Linked(arrivals[..i], arrivals[i]))
    && (forall i, j :: 0 <= i < j < |arrivals| && Writes(policy, arrivals[i]) && Writes(policy, arrivals[j]) ==>
          Agree(arrivals[i].member, arrivals[j].member))
  }

  /** A directory with nothing in it. */
  ghost predicate EmptyDestination(d: DiskState)
  {
    DiskValid(d) && forall q :: q in d.nodes ==> q == []
  }

  /** What is there after some members lies on the way to one of them, and is no directory only where one of them is none. */
  ghost predicate Accounted(w: World, policy: ExtractPolicy, arrivals: seq<Arrival>, q: Path)
  {
    (q in w.tree || q in w.disk.nodes) && q != [] ==>
      exists j :: 0 <= j < |arrivals| && Accounts(w, policy, arrivals[j], q)
  }

  predicate Accounts(w: World, policy: ExtractPolicy, a: Arrival, q: Path)
  {
    && Writes(policy, a) && q <= PathOf(a.member)
    && (!Passable(w, q) ==> q == PathOf(a.member) && !a.member.DirectoryMember?)
  }

  ghost predicate Explored(w: World, policy: ExtractPolicy, arrivals: seq<Arrival>)
  {
    Coherent(w) && (forall q: Path :: Accounted(w, policy, arrivals, q)) && FilesMade(w, arrivals)
  }

  /** Every file made is an extracted file still. */
  predicate FilesMade(w: World, arrivals: seq<Arrival>)
  {
    forall j :: 0 <= j < |arrivals| && MakesFile(arrivals[j].member) ==> IsMade(w, PathOf(arrivals[j].member))
  }

  predicate IsMade(w: World, p: Path) { p in w.tree && w.tree[p] == FileEntry }

  /** A further member that agrees with all before it finds its way clear and its place free. */
  lemma PlaceLeft(w: World, policy: ExtractPolicy, before: seq<Arrival>, a: Arrival)
    requires Explored(w, policy, before) && ArrivalValid(a) && Sound(policy, a) && Writes(policy, a)
    requires forall j :: 0 <= j < |before| && Writes(policy, before[j]) ==> Agree(before[j].member, a.member)
    requires Linked(before, a)
    ensures Fits(w, policy, a)
  {
    hide Coherent, SplitPath, StaysBelow, UpsFirst, PathOf, Passable, Replaceable, Explored, PlainName, EndsInName, Agree, Linked,
         LinkableFile;
    PlannedPathsAreNormal(policy, a);
    if a.member.HardLinkMember? { TargetThere(w, policy, before, a); }
    var p := PathOf(a.member);
    forall k | 0 < k < |p| ensures Passable(w, p[..k]) {
      OnTheWay(w, policy, before, a, p[..k]);
    }
    if p != [] { AtThePlace(w, policy, before, a); }
  }

  lemma TargetThere(w: World, policy: ExtractPolicy, before: seq<Arrival>, a: Arrival)
    requires Explored(w, policy, before) && a.member.HardLinkMember? && StaysBelow([], a.member.target) && Linked(before, a)
    requires forall j :: 0 <= j < |before| && Writes(policy, before[j]) ==> Agree(before[j].member, a.member)
    ensures LinkableFile(w, PathOf(a.member), Resolve([], SplitPath(a.member.target)).value)
  {
    hide Coherent, SplitPath, Resolve, PathOf, Accounted;
    var j :| 0 <= j < |before| && MakesFile(before[j].member) && Resolve([], SplitPath(a.member.target)) == Some(PathOf(before[j].member));
    assert Agree(before[j].member, a.member);
    assert IsMade(w, PathOf(before[j].member));
  }

  lemma OnTheWay(w: World, policy: ExtractPolicy, before: seq<Arrival>, a: Arrival, q: Path)
    requires Explored(w, policy, before) && q < PathOf(a.member) && q != []
    requires forall j :: 0 <= j < |before| && Writes(policy, before[j]) ==> Agree(before[j].member, a.member)
    ensures Passable(w, q)
  {
    hide Coherent, PathOf;
    assert Accounted(w, policy, before, q);
  }

  lemma AtThePlace(w: World, policy: ExtractPolicy, before: seq<Arrival>, a: Arrival)
    requires Explored(w, policy, before) && PathOf(a.member) != []
    requires forall j :: 0 <= j < |before| && Writes(policy, before[j]) ==> Agree(before[j].member, a.member)
    ensures a.member.DirectoryMember? ==> Passable(w, PathOf(a.member))
    ensures !a.member.DirectoryMember? ==> Free(w, PathOf(a.member))
  {
    hide Coherent, PathOf;
    var p := PathOf(a.member);
    assert Accounted(w, policy, before, p);
    if p in w.tree || p in w.disk.nodes {
      var j :| 0 <= j < |before| && Accounts(w, policy, before[j], p);
      assert Agree(before[j].member, a.member);
    }
  }

  /** After one more member, what is there is still accounted for. */
  lemma StillAccounted(w: World, w': World, policy: ExtractPolicy, before: seq<Arrival>, a: Arrival, q: Path)
    requires Accounted(w, policy, before, q) && Writes(policy, a) && OnlyOn(w, w', PathOf(a.member))
    requires q == PathOf(a.member) && a.member.DirectoryMember? ==> Passable(w', q)
    ensures Accounted(w', policy, before + [a], q)
  {
    hide PathOf;
    var all, n, p := before + [a], |before|, PathOf(a.member);
    if (q in w'.tree || q in w'.disk.nodes) && q != [] {
      if q == p {
        assert Accounts(w', policy, all[n], q);
      } else {
        assert KeptAt(w, w', q) && NewAt(w, w', q, p);
        if q in w.tree || q in w.disk.nodes {
          var j :| 0 <= j < |before| && Accounts(w, policy, before[j], q);
          assert all[j] == before[j] && Accounts(w', policy, all[j], q);
        } else {
          assert Accounts(w', policy, all[n], q);
        }
      }
    }
  }

  /** An empty destination is explored by no members. */
  lemma NothingThere(d: DiskState, policy: ExtractPolicy)
    requires EmptyDestination(d)
    ensures Explored(Opened(d), policy, [])
  {
    hide DiskValid;
    RunsStayCoherent(d, false, []);
    assert ExtractItems(Opened(d), false, []) == Going(Opened(d));
  }

  lemma StillExplored(w: World, policy: ExtractPolicy, before: seq<Arrival>, a: Arrival)
    requires Explored(w, policy, before) && ArrivalValid(a) && Sound(policy, a) && ExtractMember(w, policy, a).Going?
    requires Writes(policy, a) ==> forall j :: 0 <= j < |before| && Writes(policy, before[j]) ==> Agree(before[j].member, a.member)
    ensures Explored(ExtractMember(w, policy, a).world, policy, before + [a])
  {
    hide Coherent, PathOf, Accounted, Admissible, StaysBelow, UpsFirst, SplitPath, OnlyOn, ExtractMember, FileAt, HoldsLink, LinkedTo, FilesMade,
         Agree;
    var w' := ExtractMember(w, policy, a).world;
    MemberEffect(w, policy, a);
    HardLinkMade(w, policy, a);
    StillMade(w, w', policy, before, a);
    forall q: Path ensures Accounted(w', policy, before + [a], q) {
      assert Accounted(w, policy, before, q);
      if Writes(policy, a) && OnlyOn(w, w', PathOf(a.member)) {
        if a.member.DirectoryMember? { DirectoryPassable(w', PathOf(a.member)); }
        StillAccounted(w, w', policy, before, a, q);
      } else {
        AccountedByMore(w, policy, before, a, q);
      }
    }
  }

  /** A hard link that is extracted is an extracted file. */
  lemma HardLinkMade(w: World, policy: ExtractPolicy, a: Arrival)
    requires Coherent(w) && ArrivalValid(a) && ExtractMember(w, policy, a).Going?
    ensures a.member.HardLinkMember? ==> IsMade(ExtractMember(w, policy, a).world, PathOf(a.member))
  {
    hide Coherent, SplitPath, DirectorySuffixed, ExtractHardLink, LinkedTo, HardLinkFault;
    if a.member.HardLinkMember? {
      MemberIff(w, policy, a);
      NameDecodes(policy, a.member);
      HardLinkEffect(w, policy.allowOverwrites, a.member.position, PathOf(a.member), a.member.target, a.member.size, a.payload);
    }
  }

  lemma StillMade(w: World, w': World, policy: ExtractPolicy, before: seq<Arrival>, a: Arrival)
    requires FilesMade(w, before) && (w' == w || OnlyOn(w, w', PathOf(a.member)))
    requires MakesFile(a.member) ==> IsMade(w', PathOf(a.member))
    requires w' != w ==> Writes(policy, a)
    requires Writes(policy, a) ==> forall j :: 0 <= j < |before| && Writes(policy, before[j]) ==> Agree(before[j].member, a.member)
    ensures FilesMade(w', before + [a])
  {
    hide PathOf;
    var all := before + [a];
    forall j | 0 <= j < |all| && MakesFile(all[j].member) ensures IsMade(w', PathOf(all[j].member)) {
      if j < |before| && w' != w {
        assert all[j] == before[j] && Agree(before[j].member, a.member);
        assert KeptAt(w, w', PathOf(all[j].member));
      }
    }
  }

  lemma DirectoryPassable(w: World, p: Path)
    requires OwnedDirectory(w.tree, p) && IsDirectory(w.disk, p)
    ensures Passable(w, p)
  {
  }

  lemma AccountedByMore(w: World, policy: ExtractPolicy, before: seq<Arrival>, a: Arrival, q: Path)
    requires Accounted(w, policy, before, q)
    ensures Accounted(w, policy, before + [a], q)
  {
    hide PathOf;
    if (q in w.tree || q in w.disk.nodes) && q != [] {
      var j :| 0 <= j < |before| && Accounts(w, policy, before[j], q);
      assert (before + [a])[j] == before[j];
    }
  }

  lemma ConsistentPrefix(policy: ExtractPolicy, arrivals: seq<Arrival>)
    requires arrivals != [] && Consistent(policy, arrivals)
    ensures var n := |arrivals| - 1; var before, a := arrivals[..n], arrivals[n];
            && Consistent(policy, before) && Sound(policy, a) && Linked(before, a)
            && (Writes(policy, a) ==> forall j :: 0 <= j < n && Writes(policy, before[j]) ==> Agree(before[j].member, a.member))
  {
    hide Sound, Agree, Linked;
    var before := arrivals[..|arrivals| - 1];
    forall i | 0 <= i < |before| ensures Linked(before[..i], before[i]) {
      assert before[..i] == arrivals[..i];
    }
  }

  /**
   * Members that are acceptable one by one and agree pairwise are all extracted onto an empty destination, under any
   * overwrite policy: nothing has to be replaced.
   */
  lemma {:induction false} ConsistentExtracts(d: DiskState, policy: ExtractPolicy, arrivals: seq<Arrival>)
    requires EmptyDestination(d) && AllArrive(arrivals) && Consistent(policy, arrivals)
    ensures ExtractMembers(d, policy, arrivals).Going?
    ensures Explored(ExtractMembers(d, policy, arrivals).world, policy, arrivals)
    decreases |arrivals|
  {
    hide EmptyDestination, Explored, PlanMember, Sound, Agree, ExtractItem, Fits, Admissible, Consistent, Linked;
    if arrivals == [] {
      NothingThere(d, policy);
    } else {
      var n := |arrivals| - 1;
      var before, a := arrivals[..n], arrivals[n];
      assert before + [a] == arrivals;
      ConsistentPrefix(policy, arrivals);
      ConsistentExtracts(d, policy, before);
      PlannedPrefix(policy, arrivals, n);
      var w := ExtractMembers(d, policy, before).world;
      NextFits(w, policy, before, a);
      StillExplored(w, policy, before, a);
    }
  }

  lemma NextFits(w: World, policy: ExtractPolicy, before: seq<Arrival>, a: Arrival)
    requires Explored(w, policy, before) && ArrivalValid(a) && Sound(policy, a)
    requires Writes(policy, a) ==> forall j :: 0 <= j < |before| && Writes(policy, before[j]) ==> Agree(before[j].member, a.member)
    requires Linked(before, a)
    ensures ExtractMember(w, policy, a).Going?
  {
    hide Coherent, Agree, Admissible, StaysBelow, UpsFirst, SplitPath, ExtractMember, PathOf, WayClear, Room, Passable;
    MemberIff(w, policy, a);
    if Writes(policy, a) { PlaceLeft(w, policy, before, a); }
  }
}
