/** Extracting an archive: member policy and names, then the members in order, then the links. */
module Extract {
  import opened Octets
  import opened Components
  import opened Paths
  import opened Disk
  import opened Extraction
  import opened Conditions
  import opened Effects
  import opened Links
  import opened ExtractionRoot
  import Decode

  datatype SymlinkPolicy = Preserve | Skip | Reject

  datatype ExtractPolicy = ExtractPolicy(
    symlinks: SymlinkPolicy, allowHardLinks: bool, links: LinkPolicy, allowOverwrites: bool, accepts: seq<Byte> -> bool)

  /** A link member's text. */
  function TargetText(m: Decode.Member): Option<Text>
  {
    match m
    case SymbolicLinkMember(_, _, target) => Some(target)
    case HardLinkMember(_, _, target, _) => Some(target)
    case _ => None
  }

  /** Link members the policy forbids. */
  function CheckMemberPolicy(policy: ExtractPolicy, m: Decode.Member): Option<ExtractError>
  {
    match m
    case SymbolicLinkMember(_, position, _) => if policy.symlinks == Reject then Some(LinksNotAllowed(position)) else None
    case HardLinkMember(_, position, _, _) => if !policy.allowHardLinks then Some(LinksNotAllowed(position)) else None
    case _ => None
  }

  /** A final slash, or a final `.` or `..` behind one. */
  predicate DirectorySuffixed(path: seq<Byte>)
  {
    && LastSlash(path).Some?
    && var tail := path[LastSlash(path).value + 1..]; tail == [] || tail == [DOT] || tail == [DOT, DOT]
  }

  /** The member's path and link text, checked. */
  function DecodeMemberName(policy: ExtractPolicy, m: Decode.Member): Result<Path, ExtractError>
  {
    if !policy.accepts(m.path) then Err(NameRejected(m.position, m.path))
    else if !m.DirectoryMember? && DirectorySuffixed(m.path) then Err(UnsafePath(m.position, DirectorySuffix))
    else
      match MemberPath(m.path)
      case Err(fault) => Err(UnsafePath(m.position, fault))
      case Ok(path) =>
        if path == [] && !m.DirectoryMember? then Err(UnsafePath(m.position, OnlyDirectoryIsRoot))
        else
          match TargetText(m)
          case None => Ok(path)
          case Some(text) =>
            if !policy.accepts(text) then Err(NameRejected(m.position, text))
            else if text == [] then Err(InvalidLink(m.position, path, TargetEmpty))
            else Ok(path)
  }

  /** What extraction is asked to do for one member; a payload that ends has the member's size. */
  function PlanMember(policy: ExtractPolicy, m: Decode.Member, payload: Payload): (item: Item)
    requires m.FileMember? && !payload.fails ==> |payload.bytes| == m.size
    ensures ItemValid(item)
  {
    if CheckMemberPolicy(policy, m).Some? then RefusedItem(CheckMemberPolicy(policy, m).value)
    else
      match DecodeMemberName(policy, m)
      case Err(e) => RefusedItem(e)
      case Ok(path) =>
        match m
        case FileMember(_, _, size, executable) => FileItem(path, size, executable, payload)
        case DirectoryMember(_, _) => DirectoryItem(path)
        case SymbolicLinkMember(_, position, target) =>
          if policy.symlinks == Preserve then SymlinkItem(position, path, target) else SkippedItem
        case HardLinkMember(_, position, target, size) => HardLinkItem(position, path, target, size, payload)
        case SpecialMember(_, position, _) => RefusedItem(UnsupportedMember(position, path))
  }

  // -------------------------------------------------------------- admission

  /** Relative, with forward slashes, and never upwards. */
  predicate PlainName(text: seq<Byte>)
  {
    BACKSLASH !in text && (text != [] ==> text[0] != SLASH) && NoUps(SplitPath(text))
  }

  /** The name's last component is one: it does not say that a directory is meant. */
  predicate EndsInName(text: seq<Byte>)
  {
    Normal(SplitPath(text)[|SplitPath(text)| - 1])
  }

  /** Where a member with a plain name goes: the components of its name that name something. */
  function PathOf(m: Decode.Member): Path { Names(SplitPath(m.path)) }

  /** What a member must be like for extraction to take it on at all. */
  predicate Admissible(policy: ExtractPolicy, m: Decode.Member)
  {
    && !m.SpecialMember?
    && (m.SymbolicLinkMember? ==> policy.symlinks != Reject) && (m.HardLinkMember? ==> policy.allowHardLinks)
    && policy.accepts(m.path) && PlainName(m.path) && (!m.DirectoryMember? ==> EndsInName(m.path))
    && (m.SymbolicLinkMember? || m.HardLinkMember? ==> m.target != [] && policy.accepts(m.target))
  }

  /** A symbolic link the policy passes over without a word. */
  predicate PassedOver(policy: ExtractPolicy, m: Decode.Member)
  {
    m.SymbolicLinkMember? && policy.symlinks == Skip
  }

  /** What is behind the last slash is the last component. */
  lemma TailIsLast(text: seq<Byte>)
    ensures var all := SplitPath(text);
            all[|all| - 1] == match LastSlash(text) case None => text case Some(i) => text[i + 1..]
    ensures LastSlash(text).None? ==> SplitPath(text) == [text]
  {
    match LastSlash(text)
    case None => OneComponent(text);
    case Some(i) =>
      hide SplitPath;
      var head, tail := text[..i], text[i + 1..];
      assert text == head + [SLASH] + tail;
      SplitAtSlash(head, tail);
      OneComponent(tail);
  }

  /** A name that ends in a name names something. */
  lemma {:induction false} NamedLast(components: Path)
    requires components != [] && NoUps(components)
    ensures var last := components[|components| - 1]; !IsSkipped(last) ==> Names(components) != []
    ensures |components| == 1 && IsSkipped(components[0]) ==> Names(components) == []
    decreases |components|
  {
    if |components| > 1 {
      NoUpsRest(components);
      NamedLast(components[1..]);
    }
  }

  /** The two ways the code looks for a directory's name come to one: the last component has to be a name. */
  lemma SuffixMeans(text: seq<Byte>)
    requires PlainName(text)
    ensures !DirectorySuffixed(text) && Names(SplitPath(text)) != [] <==> EndsInName(text)
  {
    hide SplitPath, LastSlash;
    TailIsLast(text);
    NamedLast(SplitPath(text));
    NormalPiece(SplitPath(text)[|SplitPath(text)| - 1]);
  }

  /** A name is decoded exactly when it is acceptable and plain, and, unless a directory's, ends in a name. */
  lemma NameDecodes(policy: ExtractPolicy, m: Decode.Member)
    ensures DecodeMemberName(policy, m).Ok? <==>
            && policy.accepts(m.path) && PlainName(m.path) && (!m.DirectoryMember? ==> EndsInName(m.path))
            && (m.SymbolicLinkMember? || m.HardLinkMember? ==> m.target != [] && policy.accepts(m.target))
    ensures DecodeMemberName(policy, m).Ok? ==> DecodeMemberName(policy, m).value == PathOf(m)
  {
    hide SplitPath, DirectorySuffixed, EndsInName;
    if PlainName(m.path) { SuffixMeans(m.path); }
  }

  /** The objection to a member that is not admissible: the first of these that applies. */
  predicate Explained(policy: ExtractPolicy, m: Decode.Member, e: ExtractError)
  {
    var link := m.SymbolicLinkMember? || m.HardLinkMember?;
    if (m.SymbolicLinkMember? && policy.symlinks == Reject) || (m.HardLinkMember? && !policy.allowHardLinks) then
      e == LinksNotAllowed(m.position)
    else if !policy.accepts(m.path) then e == NameRejected(m.position, m.path)
    else if !PlainName(m.path) || (!m.DirectoryMember? && !EndsInName(m.path)) then e.UnsafePath? && e.position == m.position
    else if link && !policy.accepts(m.target) then e == NameRejected(m.position, m.target)
    else if link && m.target == [] then e == InvalidLink(m.position, PathOf(m), TargetEmpty)
    else e == UnsupportedMember(m.position, PathOf(m))
  }

  /** Which members are refused, and why, which are passed over, and that nothing else is. */
  lemma RefusedIff(policy: ExtractPolicy, m: Decode.Member, payload: Payload)
    requires m.FileMember? && !payload.fails ==> |payload.bytes| == m.size
    ensures PlanMember(policy, m, payload).RefusedItem? <==> !Admissible(policy, m)
    ensures PlanMember(policy, m, payload).SkippedItem? <==> Admissible(policy, m) && PassedOver(policy, m)
    ensures PlanMember(policy, m, payload).RefusedItem? ==> Explained(policy, m, PlanMember(policy, m, payload).error)
  {
    hide SplitPath, DirectorySuffixed, EndsInName, Names;
    NameDecodes(policy, m);
    if PlainName(m.path) { SuffixMeans(m.path); }
  }

  // -------------------------------------------------------------- one member

  /** A decoded member and what its payload delivers; one that ends has the declared size. */
  datatype Arrival = Arrival(member: Decode.Member, payload: Payload)

  predicate ArrivalValid(a: Arrival)
  {
    a.member.FileMember? && !a.payload.fails ==> |a.payload.bytes| == a.member.size
  }

  function ExtractMember(w: World, policy: ExtractPolicy, a: Arrival): Outcome
    requires ArrivalValid(a)
  {
    ExtractItem(w, policy.allowOverwrites, PlanMember(policy, a.member, a.payload))
  }

  /** What the disk and the paths extracted so far must be like for an admissible member. */
  ghost predicate Fits(w: World, policy: ExtractPolicy, a: Arrival)
    requires Admissible(policy, a.member)
  {
    var p, overwrites := PathOf(a.member), policy.allowOverwrites;
    match a.member
    case FileMember(_, _, _, _) => !a.payload.fails && WayClear(w, p) && Room(w, overwrites, p)
    case DirectoryMember(_, _) => p == [] || (WayClear(w, p) && (Passable(w, p) || Replaceable(w, overwrites, p)))
    case SymbolicLinkMember(_, _, target) =>
      policy.symlinks == Skip
      || (p != [] && StaysBelow(ParentOf(p), target) && UpsFirst(SplitPath(target)) && WayClear(w, p) && Room(w, overwrites, p))
    case HardLinkMember(_, _, target, _) =>
      && !a.payload.fails && StaysBelow([], target) && LinkableFile(w, p, Resolve([], SplitPath(target)).value)
      && WayClear(w, p) && Room(w, overwrites, p)
  }

  /** What an extracted member leaves: its own data at its own path, or nothing if it is passed over. */
  ghost predicate Leaves(w: World, w': World, policy: ExtractPolicy, a: Arrival)
  {
    var p := PathOf(a.member);
    match a.member
    case FileMember(_, _, _, executable) =>
      p in w'.tree && w'.tree[p] == FileEntry && FileAt(w'.disk, p) == Some(FileData(a.payload.bytes, executable))
    case DirectoryMember(_, _) => OwnedDirectory(w'.tree, p) && IsDirectory(w'.disk, p)
    case SymbolicLinkMember(_, position, target) =>
      if policy.symlinks == Skip then w' == w else p != [] && HoldsLink(w', p, position, target) && p !in w'.disk.nodes
    case HardLinkMember(_, _, target, size) =>
      StaysBelow([], target) && LinkedTo(w.disk, w'.disk, p, Resolve([], SplitPath(target)).value, size, a.payload.bytes)
    case SpecialMember(_, _, _) => false
  }

  /** Every path extraction touches is the member's own, made of plain names only: it stays below the destination. */
  lemma PlannedPathsAreNormal(policy: ExtractPolicy, a: Arrival)
    requires ArrivalValid(a)
    ensures Touches(PlanMember(policy, a.member, a.payload)) ==
            if Admissible(policy, a.member) && !PassedOver(policy, a.member) then Some(PathOf(a.member)) else None
    ensures Admissible(policy, a.member) ==> AllNormal(PathOf(a.member)) && (!a.member.DirectoryMember? ==> PathOf(a.member) != [])
  {
    hide SplitPath, DirectorySuffixed, AllNormal, EndsInName, PlainName;
    NamesNormal(SplitPath(a.member.path));
    if Admissible(policy, a.member) { SuffixMeans(a.member.path); }
    NameDecodes(policy, a.member);
  }

  /** A decoded member is extracted exactly when it is admissible and fits. */
  lemma MemberIff(w: World, policy: ExtractPolicy, a: Arrival)
    requires Coherent(w) && ArrivalValid(a)
    ensures ExtractMember(w, policy, a).Going? <==> Admissible(policy, a.member) && Fits(w, policy, a)
  {
    hide Coherent, SplitPath, DirectorySuffixed, EndsInName, PlainName, WayClear, Room, Replaceable, Passable, StaysBelow, UpsFirst,
         Resolve, Names, ExtractItem, LinkableFile;
    ItemIff(w, policy.allowOverwrites, PlanMember(policy, a.member, a.payload));
    NameDecodes(policy, a.member);
    PlannedPathsAreNormal(policy, a);
  }

  /** What an extracted member leaves behind, and that it leaves everything else alone. */
  lemma MemberEffect(w: World, policy: ExtractPolicy, a: Arrival)
    requires Coherent(w) && ArrivalValid(a) && ExtractMember(w, policy, a).Going?
    ensures var w' := ExtractMember(w, policy, a).world;
            Coherent(w') && Leaves(w, w', policy, a) && (w' == w || OnlyOn(w, w', PathOf(a.member)))
  {
    hide Coherent, SplitPath, DirectorySuffixed, EndsInName, PlainName, StaysBelow, UpsFirst, Resolve, Names, ExtractItem, FileAt, LinkedTo,
         HoldsLink, OnlyOn, WayClear, Room, Replaceable, Passable, LinkableFile;
    var item := PlanMember(policy, a.member, a.payload);
    ExtractItemKeeps(w, policy.allowOverwrites, item);
    ItemOnly(w, policy.allowOverwrites, item);
    MemberIff(w, policy, a);
    NameDecodes(policy, a.member);
    PlannedPathsAreNormal(policy, a);
    ItemEffect(w, policy.allowOverwrites, item);
  }

  // ---------------------------------------------------------- whole archives

  predicate AllArrive(arrivals: seq<Arrival>)
  {
    forall i :: 0 <= i < |arrivals| ==> ArrivalValid(arrivals[i])
  }

  function Planned(policy: ExtractPolicy, arrivals: seq<Arrival>): (items: seq<Item>)
    requires AllArrive(arrivals)
    ensures |items| == |arrivals|
    ensures forall i :: 0 <= i < |items| ==> ItemValid(items[i]) && items[i] == PlanMember(policy, arrivals[i].member, arrivals[i].payload)
  {
    hide PlanMember;
    seq(|arrivals|, i requires 0 <= i < |arrivals| => PlanMember(policy, arrivals[i].member, arrivals[i].payload))
  }

  /** The members one at a time, up to the first error; the links are still to come. */
  function ExtractMembers(d: DiskState, policy: ExtractPolicy, arrivals: seq<Arrival>): Outcome
    requires AllArrive(arrivals)
  {
    ExtractItems(Opened(d), policy.allowOverwrites, Planned(policy, arrivals))
  }

  /** One-at-a-time extraction of a whole archive. */
  function ExtractArchive(d: DiskState, policy: ExtractPolicy, inspect: Inspection, arrivals: seq<Arrival>): Outcome
    requires AllArrive(arrivals)
  {
    match ExtractMembers(d, policy, arrivals)
    case Stopped(d', e) => Stopped(d', e)
    case Going(w) => FinalizeLinks(w, policy.links, inspect)
  }

  /** Member `i` is admissible and fits what the members before it have left. */
  ghost predicate FitsInTurn(d: DiskState, policy: ExtractPolicy, arrivals: seq<Arrival>, i: nat)
    requires i < |arrivals| && AllArrive(arrivals)
  {
    var before := ExtractMembers(d, policy, arrivals[..i]);
    before.Going? && Admissible(policy, arrivals[i].member) && Fits(before.world, policy, arrivals[i])
  }

  lemma PlannedPrefix(policy: ExtractPolicy, arrivals: seq<Arrival>, i: nat)
    requires AllArrive(arrivals) && i <= |arrivals|
    ensures Planned(policy, arrivals[..i]) == Planned(policy, arrivals)[..i]
  {
    hide PlanMember;
  }

  /** A whole archive is extracted exactly when every member fits in its turn and every link passes at the end. */
  lemma ArchiveIff(d: DiskState, policy: ExtractPolicy, inspect: Inspection, arrivals: seq<Arrival>)
    requires DiskValid(d) && AllArrive(arrivals)
    ensures ExtractMembers(d, policy, arrivals).Going? <==>
            forall i :: 0 <= i < |arrivals| ==> FitsInTurn(d, policy, arrivals, i)
    ensures ExtractArchive(d, policy, inspect, arrivals).Going? <==>
            && ExtractMembers(d, policy, arrivals).Going?
            && var w := ExtractMembers(d, policy, arrivals).world;
               forall k :: 0 <= k < |w.links| ==> Passes(w, policy.links, inspect, k)
  {
    hide DiskValid, Coherent, FinalizeLinks, Passes, PlanMember, ExtractItem, Succeeds, Fits, Admissible, ExtractItems;
    var items, overwrites := Planned(policy, arrivals), policy.allowOverwrites;
    RunIff(d, overwrites, items);
    forall i | 0 <= i < |arrivals|
      ensures SucceedsInTurn(d, overwrites, items, i) <==> FitsInTurn(d, policy, arrivals, i)
    {
      PlannedPrefix(policy, arrivals, i);
      RunsStayCoherent(d, overwrites, items[..i]);
      var before := ExtractMembers(d, policy, arrivals[..i]);
      if before.Going? {
        ItemIff(before.world, overwrites, items[i]);
        MemberIff(before.world, policy, arrivals[i]);
      }
    }
    RunsStayCoherent(d, overwrites, items);
    var all := ExtractMembers(d, policy, arrivals);
    if all.Going? { FinalizeIff(all.world, policy.links, inspect); }
  }

  /** No later member that is not passed over goes to the same path. */
  predicate LastAt(policy: ExtractPolicy, arrivals: seq<Arrival>, i: nat, p: Path)
  {
    forall j :: i < j < |arrivals| ==> PassedOver(policy, arrivals[j].member) || PathOf(arrivals[j].member) != p
  }

  /** Member `j` is a hard link with a payload of its own, to a file that `p` is also a name of. */
  ghost predicate RewrittenByMember(d: DiskState, policy: ExtractPolicy, arrivals: seq<Arrival>, j: nat, p: Path)
    requires j < |arrivals| && AllArrive(arrivals)
  {
    var m, before := arrivals[j].member, ExtractMembers(d, policy, arrivals[..j]);
    && m.HardLinkMember? && m.size > 0 && before.Going? && StaysBelow([], m.target)
    && var target := Resolve([], SplitPath(m.target)).value;
    && target in before.world.disk.nodes && p in before.world.disk.nodes
    && before.world.disk.nodes[target] == before.world.disk.nodes[p]
  }

  ghost predicate NotRewritten(d: DiskState, policy: ExtractPolicy, arrivals: seq<Arrival>, i: nat, p: Path)
    requires AllArrive(arrivals)
  {
    forall j :: i < j < |arrivals| ==> !RewrittenByMember(d, policy, arrivals, j, p)
  }

  /** Only a hard-link member is planned as one, with its own text and size. */
  lemma PlannedLink(policy: ExtractPolicy, a: Arrival)
    requires ArrivalValid(a)
    ensures var item, m := PlanMember(policy, a.member, a.payload), a.member;
            item.HardLinkItem? ==>
              && m.HardLinkMember? && item.target == m.target && item.size == m.size
              && (LinkTarget([], m.target, false).Ok? ==>
                    StaysBelow([], m.target) && LinkTarget([], m.target, false).value == Resolve([], SplitPath(m.target)).value)
  {
    hide SplitPath, DecodeMemberName, StaysBelow, LinkTarget, Resolve;
    if a.member.HardLinkMember? { TargetIff([], a.member.target, false); }
  }

  /** What the plan says of later members, the members say. */
  lemma LaterPlans(d: DiskState, policy: ExtractPolicy, arrivals: seq<Arrival>, i: nat, p: Path)
    requires AllArrive(arrivals) && i < |arrivals| && DiskValid(d) && ExtractMembers(d, policy, arrivals).Going?
    ensures forall j :: 0 <= j < |arrivals| ==> Admissible(policy, arrivals[j].member)
    ensures LastAt(policy, arrivals, i, p) ==>
              forall j :: i < j < |arrivals| ==> Touches(Planned(policy, arrivals)[j]) != Some(p)
    ensures NotRewritten(d, policy, arrivals, i, p) ==>
              forall j :: i < j < |arrivals| ==> !RewrittenBy(d, policy.allowOverwrites, Planned(policy, arrivals), j, p)
  {
    hide DiskValid, PlanMember, ExtractItems, Fits, Admissible, PassedOver;
    ArchiveIff(d, policy, _ => (Dangling, false), arrivals);
    var items := Planned(policy, arrivals);
    forall j | 0 <= j < |arrivals| ensures Admissible(policy, arrivals[j].member) {
      assert FitsInTurn(d, policy, arrivals, j);
    }
    forall j | i < j < |arrivals| && LastAt(policy, arrivals, i, p) ensures Touches(items[j]) != Some(p) {
      PlannedPathsAreNormal(policy, arrivals[j]);
    }
    forall j | i < j < |arrivals| && !RewrittenByMember(d, policy, arrivals, j, p)
      ensures !RewrittenBy(d, policy.allowOverwrites, items, j, p)
    {
      PlannedPrefix(policy, arrivals, j);
      PlannedLink(policy, arrivals[j]);
    }
  }

  /** A file stands on the finished disk as it stood before the links were made. */
  lemma FileAtTheEnd(w: World, policy: LinkPolicy, inspect: Inspection, p: Path)
    requires Coherent(w) && FinalizeLinks(w, policy, inspect).Going?
    ensures var d := FinalizeLinks(w, policy, inspect).world.disk;
            p in w.disk.nodes ==> p in d.nodes && d.nodes[p] == w.disk.nodes[p] && FileAt(d, p) == FileAt(w.disk, p)
  {
    hide Coherent, FinalizeLinks, SuffixesHold;
    FinalizeFinishes(w, policy, inspect);
    FinalizeKeepsData(w, policy, inspect);
  }

  /** The run behind a finished extraction, and what its plan says of the members after `i`. */
  lemma BehindFinished(d: DiskState, policy: ExtractPolicy, inspect: Inspection, arrivals: seq<Arrival>, i: nat) returns (w: World)
    requires DiskValid(d) && AllArrive(arrivals) && i < |arrivals|
    requires ExtractArchive(d, policy, inspect, arrivals).Going?
    ensures Coherent(w) && ExtractItems(Opened(d), policy.allowOverwrites, Planned(policy, arrivals)) == Going(w)
    ensures FinalizeLinks(w, policy.links, inspect) == ExtractArchive(d, policy, inspect, arrivals)
    ensures Admissible(policy, arrivals[i].member) && DecodeMemberName(policy, arrivals[i].member) == Ok(PathOf(arrivals[i].member))
  {
    hide DiskValid, Coherent, FinalizeLinks, ExtractItems, DecodeMemberName, PathOf, PlanMember;
    w := ExtractMembers(d, policy, arrivals).world;
    RunsStayCoherent(d, policy.allowOverwrites, Planned(policy, arrivals));
    LaterPlans(d, policy, arrivals, i, []);
    NameDecodes(policy, arrivals[i].member);
  }

  /**
   * A whole extraction that succeeds leaves, at every path, what the last member for it was: a file member's payload
   * with its own executable bit, if no later hard link carried a payload for that very file.
   */
  lemma LastFileExtracted(d: DiskState, policy: ExtractPolicy, inspect: Inspection, arrivals: seq<Arrival>, i: nat)
    requires DiskValid(d) && AllArrive(arrivals) && i < |arrivals| && arrivals[i].member.FileMember?
    requires var p := PathOf(arrivals[i].member); LastAt(policy, arrivals, i, p) && NotRewritten(d, policy, arrivals, i, p)
    requires ExtractArchive(d, policy, inspect, arrivals).Going?
    ensures FileAt(ExtractArchive(d, policy, inspect, arrivals).world.disk, PathOf(arrivals[i].member))
            == Some(FileData(arrivals[i].payload.bytes, arrivals[i].member.executable))
  {
    hide DiskValid, Coherent, FinalizeLinks, ExtractItems, FileAt, SplitPath, DecodeMemberName, RewrittenBy, ExtractArchive;
    var w := BehindFinished(d, policy, inspect, arrivals, i);
    LaterPlans(d, policy, arrivals, i, PathOf(arrivals[i].member));
    LastFileMemberStays(d, policy.allowOverwrites, Planned(policy, arrivals), i);
    FileIsFile(w.disk, PathOf(arrivals[i].member));
    FileAtTheEnd(w, policy.links, inspect, PathOf(arrivals[i].member));
  }

  /** A directory member's directory. */
  lemma LastDirectoryExtracted(d: DiskState, policy: ExtractPolicy, inspect: Inspection, arrivals: seq<Arrival>, i: nat)
    requires DiskValid(d) && AllArrive(arrivals) && i < |arrivals| && arrivals[i].member.DirectoryMember?
    requires LastAt(policy, arrivals, i, PathOf(arrivals[i].member))
    requires ExtractArchive(d, policy, inspect, arrivals).Going?
    ensures IsDirectory(ExtractArchive(d, policy, inspect, arrivals).world.disk, PathOf(arrivals[i].member))
  {
    hide DiskValid, Coherent, FinalizeLinks, ExtractItems, FileAt, SplitPath, DecodeMemberName, ExtractArchive, RewrittenBy;
    var w := BehindFinished(d, policy, inspect, arrivals, i);
    LaterPlans(d, policy, arrivals, i, PathOf(arrivals[i].member));
    LastDirectoryMemberStays(d, policy.allowOverwrites, Planned(policy, arrivals), i);
    FileAtTheEnd(w, policy.links, inspect, PathOf(arrivals[i].member));
  }

  /** A preserved symbolic link's own text. */
  lemma LastSymlinkExtracted(d: DiskState, policy: ExtractPolicy, inspect: Inspection, arrivals: seq<Arrival>, i: nat)
    requires DiskValid(d) && AllArrive(arrivals) && i < |arrivals| && arrivals[i].member.SymbolicLinkMember? && policy.symlinks == Preserve
    requires LastAt(policy, arrivals, i, PathOf(arrivals[i].member))
    requires ExtractArchive(d, policy, inspect, arrivals).Going?
    ensures var after := ExtractArchive(d, policy, inspect, arrivals).world.disk; var p := PathOf(arrivals[i].member);
            p in after.nodes && after.nodes[p] == LinkNode(arrivals[i].member.target)
  {
    hide DiskValid, Coherent, FinalizeLinks, ExtractItems, FileAt, SplitPath, DecodeMemberName, ExtractArchive, RewrittenBy, SuffixesHold;
    var w := BehindFinished(d, policy, inspect, arrivals, i);
    LaterPlans(d, policy, arrivals, i, PathOf(arrivals[i].member));
    LastSymlinkMemberStays(d, policy.allowOverwrites, Planned(policy, arrivals), i);
    FinalizeFinishes(w, policy.links, inspect);
  }

  /** A hard link's other name of its target, and with a payload of its own that payload under both. */
  lemma LastHardLinkExtracted(d: DiskState, policy: ExtractPolicy, inspect: Inspection, arrivals: seq<Arrival>, i: nat, target: Path)
    requires DiskValid(d) && AllArrive(arrivals) && i < |arrivals| && arrivals[i].member.HardLinkMember?
    requires LastAt(policy, arrivals, i, PathOf(arrivals[i].member))
    requires Resolve([], SplitPath(arrivals[i].member.target)) == Some(target) && LastAt(policy, arrivals, i, target)
    requires ExtractArchive(d, policy, inspect, arrivals).Going?
    ensures var after := ExtractArchive(d, policy, inspect, arrivals).world.disk; var p := PathOf(arrivals[i].member);
            && IsFile(after, p) && target in after.nodes && after.nodes[p] == after.nodes[target]
            && (arrivals[i].member.size > 0 && NotRewritten(d, policy, arrivals, i, p) ==>
                  FileAt(after, p).Some? && FileAt(after, p).value.contents == arrivals[i].payload.bytes)
  {
    hide DiskValid, Coherent, FinalizeLinks, ExtractItems, FileAt, SplitPath, DecodeMemberName, ExtractArchive, RewrittenBy, NotRewritten,
         Resolve;
    var w := BehindFinished(d, policy, inspect, arrivals, i);
    LaterPlans(d, policy, arrivals, i, PathOf(arrivals[i].member));
    LaterPlans(d, policy, arrivals, i, target);
    LastHardLinkMemberStays(d, policy.allowOverwrites, Planned(policy, arrivals), i, target);
    FileAtTheEnd(w, policy.links, inspect, PathOf(arrivals[i].member));
    FileAtTheEnd(w, policy.links, inspect, target);
  }

  /**
   * Extraction with any batch limits leaves the disk, and reports the first error, of extraction without a batch:
   * the limits do not appear in what it comes to.
   */
  method ExtractAllMembers(
      disk: FileSystem, policy: ExtractPolicy, inspect: Inspection, arrivals: seq<Arrival>, maxEntries: nat, maxBytes: nat)
    returns (error: Option<ExtractError>)
    requires DiskValid(disk.state) && AllArrive(arrivals)
    requires 0 < maxEntries && BUFFERED_PAYLOAD_MAX_BYTES <= maxBytes
    modifies disk
    ensures var outcome := ExtractArchive(old(disk.state), policy, inspect, arrivals);
            match error
            case Some(e) => outcome == Stopped(disk.state, e)
            case None => outcome.Going? && outcome.world.disk == disk.state
  {
    hide Coherent, DiskValid, ExtractItems, FinalizeLinks, PlanMember;
    var root := new ExtractionRoot(disk, policy.allowOverwrites, maxEntries, maxBytes);
    error := root.ExtractAll(Planned(policy, arrivals));
    if error.Some? { return; }
    error := root.FinalizeSymlinks(policy.links, inspect);
  }

  /**
   * After a whole extraction that succeeds, no live link is left unaccounted for: each settled, within the rewrite
   * limit. One that settled on something extracted leads there on the finished disk. One that did not has, without
   * leave for ambient targets, nothing at its target and no ambient link on the way to it; and without leave for
   * missing targets none leads to nothing.
   */
  lemma ExtractedLinksLead(
      d: DiskState, policy: ExtractPolicy, inspect: Inspection, arrivals: seq<Arrival>, w: World, link: nat)
    requires DiskValid(d) && AllArrive(arrivals)
    requires ExtractMembers(d, policy, arrivals) == Going(w)
    requires ExtractArchive(d, policy, inspect, arrivals).Going?
    requires link < |w.links| && Live(w, link)
    ensures w.links[link].path != []
    ensures exists n: nat, q ::
              && Settles(w, w.links[link].resolved, n, q)
              && Answered(w, ExtractArchive(d, policy, inspect, arrivals).world.disk, policy.links, inspect, w.links[link],
                          TerminalOf(w, q))
  {
    hide Coherent, DiskValid, ExtractItems, FinalizeLinks, Live, Settles, TerminalOf, Answered, PlanMember;
    RunsStayCoherent(d, policy.allowOverwrites, Planned(policy, arrivals));
    LiveLinksLead(w, policy.links, inspect, link);
  }

  /** The same said of one that settles on a given kind: following its raw text from its own directory ends at that kind. */
  lemma ExtractedLinksResolve(
      d: DiskState, policy: ExtractPolicy, inspect: Inspection, arrivals: seq<Arrival>, w: World,
      link: nat, n: nat, q: Path, kind: TerminalKind)
    requires DiskValid(d) && AllArrive(arrivals)
    requires ExtractMembers(d, policy, arrivals) == Going(w)
    requires ExtractArchive(d, policy, inspect, arrivals).Going?
    requires link < |w.links| && Live(w, link)
    requires NormalForm(w, w.links[link].resolved, n, q) && TerminalOf(w, q) == Known(kind)
    ensures w.links[link].path != []
    ensures Confirms(Walk(ExtractArchive(d, policy, inspect, arrivals).world.disk, ParentOf(w.links[link].path),
                          SplitPath(w.links[link].target), n), kind)
  {
    hide Coherent, DiskValid, ExtractItems, FinalizeLinks, NormalForm, TerminalOf, Live, Walk, PlanMember;
    RunsStayCoherent(d, policy.allowOverwrites, Planned(policy, arrivals));
    LinkAtName(w, link);
    LinksResolvePhysically(w, policy.links, inspect, link, n, q, kind);
  }
}
