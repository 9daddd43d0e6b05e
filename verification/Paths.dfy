/** Normalized paths kept as one string, and the validation of member names and link targets. */
module Paths {
  import opened Octets
  import opened Components

  datatype PathError =
    | BackslashSeparator
    | AbsolutePath
    | ParentComponent
    | AmbiguousTraversal
    | EscapesRoot
    | DirectorySuffix
    | OnlyDirectoryIsRoot

  const BACKSLASH: Byte := 92

  /** Where the last slash is. */
  function LastSlash(text: seq<Byte>): (r: Option<nat>)
    ensures r.Some? ==> r.value < |text| && text[r.value] == SLASH && SLASH !in text[r.value + 1..]
    ensures r.None? <==> SLASH !in text
  {
    if text == [] then None
    else if text[|text| - 1] == SLASH then Some(|text| - 1)
    else
      assert text == text[..|text| - 1] + [text[|text| - 1]];
      match LastSlash(text[..|text| - 1])
      case None => None
      case Some(i) => assert text[i + 1..] == text[..|text| - 1][i + 1..] + [text[|text| - 1]]; Some(i)
  }

  lemma {:induction false} LastSlashIs(head: seq<Byte>, tail: seq<Byte>)
    requires SLASH !in tail
    ensures LastSlash(head + [SLASH] + tail) == Some(|head|)
    decreases |tail|
  {
    var text := head + [SLASH] + tail;
    if tail != [] {
      LastSlashIs(head, tail[..|tail| - 1]);
      assert text[..|text| - 1] == head + [SLASH] + tail[..|tail| - 1];
    }
  }

  /** The components a valid text stands for. */
  function Parts(text: seq<Byte>): Path
  {
    if text == [] then [] else SplitPath(text)
  }

  predicate IsNormalized(text: seq<Byte>) { AllNormal(Parts(text)) }

  lemma PartsOfJoin(components: Path)
    requires AllNormal(components)
    ensures Parts(JoinPath(components)) == components && IsNormalized(JoinPath(components))
  {
    JoinEmpty(components);
    if components != [] { JoinSplits(components); }
  }

  lemma JoinOfParts(text: seq<Byte>)
    ensures JoinPath(Parts(text)) == text
  {
    if text != [] { SplitJoins(text); }
  }

  /** Splitting off the last component of the text splits off the last part. */
  lemma LastPart(text: seq<Byte>)
    requires IsNormalized(text) && text != []
    ensures var parts := Parts(text); var n := |parts| - 1;
            match LastSlash(text)
            case None => parts == [text]
            case Some(i) => text[..i] != [] && Parts(text[..i]) == parts[..n] && text[i + 1..] == parts[n]
  {
    hide LastSlash, JoinPath, SplitPath;
    var parts := Parts(text);
    var init, last := parts[..|parts| - 1], parts[|parts| - 1];
    assert parts == init + [last];
    JoinOfParts(text);
    JoinPushed(init, last);
    if init != [] {
      LastSlashIs(JoinPath(init), last);
      PartsOfJoin(init);
      JoinEmpty(init);
      assert text[..|JoinPath(init)|] == JoinPath(init) && text[|JoinPath(init)| + 1..] == last;
    }
  }

  lemma PushedText(text: seq<Byte>, component: Component)
    requires IsNormalized(text) && Normal(component)
    ensures var pushed := if text == [] then component else text + [SLASH] + component;
            IsNormalized(pushed) && Parts(pushed) == Parts(text) + [component]
  {
    var parts := Parts(text);
    JoinOfParts(text);
    JoinPushed(parts, component);
    PartsOfJoin(parts + [component]);
    JoinEmpty(parts);
  }

  /** A path whose components are all normal, held as its text. */
  class NormalizedPath {
    var text: seq<Byte>

    ghost predicate Valid()
      reads this
    {
      IsNormalized(text)
    }

    /** What the text means. */
    ghost function Components(): Path
      reads this
    {
      Parts(text)
    }

    constructor ()
      ensures Valid() && Components() == []
    {
      text := [];
    }

    constructor FromText(text: seq<Byte>)
      requires IsNormalized(text)
      ensures Valid() && this.text == text
    {
      this.text := text;
    }

    method Push(component: Component)
      requires Valid() && Normal(component)
      modifies this
      ensures Valid() && Components() == old(Components()) + [component]
    {
      hide IsNormalized, Parts;
      PushedText(text, component);
      assert [] + component == component;
      if text != [] {
        text := text + [SLASH];
      }
      text := text + component;
    }

    method Pop() returns (popped: bool)
      requires Valid()
      modifies this
      ensures Valid() && popped == (old(Components()) != [])
      ensures Components() == if popped then old(Components())[..|old(Components())| - 1] else []
    {
      var separator := LastSlash(text);
      if text != [] { LastPart(text); }
      if separator.Some? {
        text := text[..separator.value];
        return true;
      }
      if text == [] {
        return false;
      }
      text := [];
      return true;
    }

    method Extend(components: Path)
      requires Valid() && AllNormal(components)
      modifies this
      ensures Valid() && Components() == old(Components()) + components
    {
      for i := 0 to |components|
        invariant Valid() && Components() == old(Components()) + components[..i]
      {
        Push(components[i]);
        assert components[..i + 1] == components[..i] + [components[i]];
      }
      assert components[..|components|] == components;
    }

    /** The text before the last slash. */
    function Parent(): (parent: seq<Byte>)
      requires Valid()
      reads this
      ensures IsNormalized(parent)
      ensures Parts(parent) == if Components() == [] then [] else Components()[..|Components()| - 1]
    {
      if text != [] then
        LastPart(text);
        match LastSlash(text)
        case Some(i) => text[..i]
        case None => []
      else []
    }

    function FileName(): (name: Option<Component>)
      requires Valid()
      reads this
      ensures name == if Components() == [] then None else Some(Components()[|Components()| - 1])
    {
      if text == [] then None
      else
        LastPart(text);
        match LastSlash(text)
        case Some(i) => Some(text[i + 1..])
        case None => Some(text)
    }

    /** The text starts with the base's text, and there at a component boundary. */
    predicate StartsWith(base: NormalizedPath)
      requires Valid() && base.Valid()
      reads this, base
      ensures StartsWith(base) <==> base.Components() <= Components()
    {
      PrefixText(base.text, text);
      base.text == [] || text == base.text || (base.text <= text && |base.text| < |text| && text[|base.text|] == SLASH)
    }
  }

  /** Component prefixes are text prefixes that end at a slash or at the end. */
  lemma PrefixText(base: seq<Byte>, text: seq<Byte>)
    requires IsNormalized(base) && IsNormalized(text)
    ensures Parts(base) <= Parts(text) <==>
            base == [] || text == base || (base <= text && |base| < |text| && text[|base|] == SLASH)
  {
    var parts := Parts(text);
    if base != [] && Parts(base) <= parts {
      PrefixPart(parts, |Parts(base)|);
      assert parts[..|Parts(base)|] == Parts(base);
      JoinOfParts(text);
      JoinOfParts(base);
    }
    if base != [] && base <= text && |base| < |text| && text[|base|] == SLASH {
      assert text == base + [SLASH] + text[|base| + 1..];
      SplitAtSlash(base, text[|base| + 1..]);
    }
  }

  lemma {:induction false} PrefixPart(parts: Path, n: nat)
    requires AllNormal(parts) && 0 < n <= |parts|
    ensures var base, text := JoinPath(parts[..n]), JoinPath(parts);
            text == base || (base <= text && |base| < |text| && text[|base|] == SLASH)
    decreases |parts| - n
  {
    if n == |parts| {
      assert parts[..n] == parts;
    } else {
      PrefixPart(parts, n + 1);
      assert parts[..n + 1] == parts[..n] + [parts[n]];
      JoinPushed(parts[..n], parts[n]);
    }
  }

  lemma OneComponent(text: seq<Byte>)
    requires SLASH !in text
    ensures SplitPath(text) == [text]
  {
  }

  lemma {:induction false} SplitAtSlash(head: seq<Byte>, tail: seq<Byte>)
    ensures SplitPath(head + [SLASH] + tail) == SplitPath(head) + SplitPath(tail)
    decreases |head|
  {
    hide SplitPath;
    match Find(head, SLASH) {
      case None =>
        OneComponent(head);
        SplitFirst(head, tail);
      case Some(i) =>
        var first, rest := head[..i], head[i + 1..];
        RejoinAt(head, i, tail);
        SplitFirst(first, rest + [SLASH] + tail);
        SplitFirst(first, rest);
        SplitAtSlash(rest, tail);
        SplitTogether(first, SplitPath(rest), SplitPath(tail));
    }
  }

  lemma RejoinAt(head: seq<Byte>, i: nat, tail: seq<Byte>)
    requires i < |head| && head[i] == SLASH
    ensures head == head[..i] + [SLASH] + head[i + 1..]
    ensures head + [SLASH] + tail == head[..i] + [SLASH] + (head[i + 1..] + [SLASH] + tail)
  {
  }

  lemma SplitTogether(first: Component, a: Path, b: Path)
    ensures [first] + (a + b) == [first] + a + b
  {
  }

  // -------------------------------------------------------------- validation

  /** Names must use forward slashes and be relative. */
  function ValidateExtractionPath(value: seq<Byte>): Option<PathError>
  {
    if BACKSLASH in value then Some(BackslashSeparator)
    else if value != [] && value[0] == SLASH then Some(AbsolutePath)
    else None
  }

  lemma SplitPieces(components: Path, i: nat)
    requires i < |components|
    ensures components[i..][0] == components[i] && components[i..][1..] == components[i + 1..]
  {
  }

  lemma {:induction false} NamesMore(components: Path, i: nat)
    requires i < |components|
    ensures Names(components[..i + 1]) ==
            Names(components[..i]) + if IsSkipped(components[i]) || IsUp(components[i]) then [] else [components[i]]
    decreases i
  {
    if i == 0 {
      assert components[..1] == [components[0]] && components[..1][1..] == [];
    } else {
      assert components[..i + 1][1..] == components[1..][..i] && components[..i][1..] == components[1..][..i - 1];
      NamesMore(components[1..], i - 1);
    }
  }

  lemma NoNames(components: Path)
    ensures Names(components[..0]) == []
  {
    assert components[..0] == [];
  }

  lemma NormalPiece(c: Component)
    requires SLASH !in c
    ensures Normal(c) <==> !IsSkipped(c) && !IsUp(c)
  {
  }

  /** The path a member's name stands for. */
  function MemberPath(value: seq<Byte>): (r: Result<Path, PathError>)
  {
    match ValidateExtractionPath(value)
    case Some(e) => Err(e)
    case None => if NoUps(SplitPath(value)) then Ok(Names(SplitPath(value))) else Err(ParentComponent)
  }

  lemma {:induction false} NamesNormal(components: Path)
    requires forall i :: 0 <= i < |components| ==> SLASH !in components[i]
    ensures AllNormal(Names(components))
  {
    if components != [] { NamesNormal(components[1..]); }
  }

  /** A member's own path: dots and empty components dropped, `..` refused. */
  method NormalizeMemberPath(value: seq<Byte>) returns (path: NormalizedPath, error: Option<PathError>)
    ensures fresh(path) && path.Valid()
    ensures MemberPath(value) == if error.Some? then Err(error.value) else Ok(path.Components())
  {
    hide Names, SplitPath, IsNormalized, Parts, ValidateExtractionPath, Normal;
    path := new NormalizedPath();
    error := ValidateExtractionPath(value);
    if error.Some? { return; }
    var components := SplitPath(value);
    assert Names(components[..0]) == [] by { NoNames(components); }
    for i := 0 to |components|
      invariant path.Valid() && fresh(path) && forall j :: 0 <= j < i ==> !IsUp(components[j])
      invariant path.Components() == Names(components[..i])
    {
      NamesMore(components, i);
      var component := components[i];
      NormalPiece(component);
      if IsUp(component) {
        return path, Some(ParentComponent);
      }
      if !IsSkipped(component) {
        path.Push(component);
      }
    }
    assert components[..|components|] == components;
  }

  /** Normalizing a normalized name's text gives the same path. */
  lemma NormalizeIsIdempotent(value: seq<Byte>)
    requires MemberPath(value).Ok?
    ensures MemberPath(JoinPath(MemberPath(value).value)) == MemberPath(value)
  {
    var path := MemberPath(value).value;
    NamesNormal(SplitPath(value));
    JoinedIsPlain(value, path);
    JoinedReads(path);
  }

  /** A byte of the joined names is a byte of the components or a slash between them. */
  lemma {:induction false} JoinedBytes(components: Path, b: Byte)
    requires b != SLASH && b in JoinPath(components)
    ensures exists i :: 0 <= i < |components| && b in components[i]
    decreases |components|
  {
    if |components| == 1 {
      assert b in components[0];
    } else if |components| > 1 && b !in components[0] {
      JoinedBytes(components[1..], b);
      var i :| 0 <= i < |components[1..]| && b in components[1..][i];
      assert b in components[i + 1];
    }
  }

  lemma {:induction false} NamesAreComponents(components: Path, name: Component)
    requires name in Names(components)
    ensures name in components
  {
    if name != components[0] { NamesAreComponents(components[1..], name); }
  }

  lemma {:induction false} ComponentBytes(value: seq<Byte>, c: Component, b: Byte)
    requires c in SplitPath(value) && b in c
    ensures b in value
    decreases |value|
  {
    match Find(value, SLASH) {
      case None =>
      case Some(i) =>
        if c == value[..i] {
          var k :| 0 <= k < |c| && c[k] == b;
          assert value[k] == b;
        } else {
          assert SplitPath(value)[1..] == SplitPath(value[i + 1..]);
          ComponentBytes(value[i + 1..], c, b);
          var k :| 0 <= k < |value[i + 1..]| && value[i + 1..][k] == b;
          assert value[k + i + 1] == b;
        }
    }
  }

  /** Normalized text has no backslash and does not start with a slash. */
  lemma JoinedIsPlain(value: seq<Byte>, path: Path)
    requires path == Names(SplitPath(value)) && AllNormal(path) && BACKSLASH !in value
    ensures ValidateExtractionPath(JoinPath(path)).None?
  {
    if BACKSLASH in JoinPath(path) {
      JoinedBytes(path, BACKSLASH);
      var i :| 0 <= i < |path| && BACKSLASH in path[i];
      NamesAreComponents(SplitPath(value), path[i]);
      ComponentBytes(value, path[i], BACKSLASH);
    }
    if path != [] { assert JoinPath(path)[0] == path[0][0]; }
  }

  lemma JoinedReads(path: Path)
    requires AllNormal(path)
    ensures NoUps(SplitPath(JoinPath(path))) && Names(SplitPath(JoinPath(path))) == path
  {
    if path == [] {
      assert SplitPath([]) == [[]];
      assert Names([[]]) == [];
    } else {
      JoinSplits(path);
      NamesOfNormal(path);
    }
  }

  lemma {:induction false} NamesOfNormal(path: Path)
    requires AllNormal(path)
    ensures Names(path) == path
  {
    if path != [] { NamesOfNormal(path[1..]); }
  }

  /** A target walked component by component; a strict walk also refuses `..` after a name. The first fault is reported. */
  function WalkTarget(at: Path, components: Path, strict: bool, seen: bool): Result<Path, PathError>
    decreases |components|
  {
    if components == [] then Ok(at)
    else if IsSkipped(components[0]) then WalkTarget(at, components[1..], strict, seen)
    else if IsUp(components[0]) then
      if strict && seen then Err(AmbiguousTraversal)
      else if at == [] then Err(EscapesRoot)
      else WalkTarget(at[..|at| - 1], components[1..], strict, seen)
    else WalkTarget(at + [components[0]], components[1..], strict, true)
  }

  /** A plain walk succeeds wherever it stays below the root; a strict one also needs every `..` before the first name. */
  lemma {:induction false} WalkTargetMeans(at: Path, components: Path, strict: bool, seen: bool)
    ensures WalkTarget(at, components, strict, seen).Ok? <==>
            Resolve(at, components).Some? && (strict ==> if seen then NoUps(components) else UpsFirst(components))
    ensures WalkTarget(at, components, strict, seen).Ok? ==>
              WalkTarget(at, components, strict, seen).value == Resolve(at, components).value
    decreases |components|
  {
    if components != [] {
      var c, rest := components[0], components[1..];
      NoUpsRest(components);
      if IsSkipped(c) {
        WalkTargetMeans(at, rest, strict, seen);
      } else if IsUp(c) {
        if at != [] && !(strict && seen) { WalkTargetMeans(at[..|at| - 1], rest, strict, seen); }
      } else {
        WalkTargetMeans(at + [c], rest, strict, true);
      }
    }
  }

  lemma NoUpsRest(components: Path)
    requires components != []
    ensures NoUps(components) <==> !IsUp(components[0]) && NoUps(components[1..])
  {
    assert forall i :: 0 < i < |components| ==> components[i] == components[1..][i - 1];
  }

  /** A link target from a base directory. */
  function LinkTarget(base: Path, value: seq<Byte>, strict: bool): Result<Path, PathError>
  {
    match ValidateExtractionPath(value)
    case Some(e) => Err(e)
    case None => WalkTarget(base, SplitPath(value), strict, false)
  }

  /** Where validation of a symbolic link's target succeeds, resolving it plainly gives the same path. */
  lemma ValidTargetsResolve(base: Path, value: seq<Byte>)
    ensures LinkTarget(base, value, true).Ok? <==> LinkTarget(base, value, false).Ok? && UpsFirst(SplitPath(value))
    ensures LinkTarget(base, value, true).Ok? ==> LinkTarget(base, value, true) == LinkTarget(base, value, false)
  {
    WalkTargetMeans(base, SplitPath(value), true, false);
    WalkTargetMeans(base, SplitPath(value), false, false);
  }

  /** What is left to walk once `i` components have been: where the walk stands decides the rest. */
  predicate WalkedTo(base: Path, components: Path, strict: bool, i: nat, at: Path, seen: bool)
    requires i <= |components|
  {
    WalkTarget(base, components, strict, false) == WalkTarget(at, components[i..], strict, seen)
  }

  lemma WalkStarts(base: Path, components: Path, strict: bool)
    ensures WalkedTo(base, components, strict, 0, base, false)
  {
    assert components[0..] == components;
  }

  lemma WalkEnds(base: Path, components: Path, strict: bool, at: Path, seen: bool)
    requires WalkedTo(base, components, strict, |components|, at, seen)
    ensures WalkTarget(base, components, strict, false) == Ok(at)
  {
    assert components[|components|..] == [];
  }

  lemma WalkedOne(base: Path, components: Path, strict: bool, i: nat, at: Path, seen: bool)
    requires i < |components| && WalkedTo(base, components, strict, i, at, seen)
    ensures var c := components[i];
            && (IsSkipped(c) ==> WalkedTo(base, components, strict, i + 1, at, seen))
            && (IsUp(c) && strict && seen ==> WalkTarget(base, components, strict, false) == Err(AmbiguousTraversal))
            && (IsUp(c) && !(strict && seen) && at == [] ==> WalkTarget(base, components, strict, false) == Err(EscapesRoot))
            && (IsUp(c) && !(strict && seen) && at != [] ==> WalkedTo(base, components, strict, i + 1, at[..|at| - 1], seen))
            && (!IsSkipped(c) && !IsUp(c) ==> WalkedTo(base, components, strict, i + 1, at + [c], true))
  {
    SplitPieces(components, i);
  }

  /** A hard link's target walked from a base; only leaving the root is refused. */
  method ResolveLinkTarget(value: seq<Byte>, base: NormalizedPath) returns (path: NormalizedPath, error: Option<PathError>)
    requires base.Valid()
    ensures fresh(path) && path.Valid()
    ensures LinkTarget(base.Components(), value, false) == if error.Some? then Err(error.value) else Ok(path.Components())
  {
    hide SplitPath, WalkTarget, WalkedTo, IsNormalized, Parts, ValidateExtractionPath, LastSlash, Normal;
    path := new NormalizedPath.FromText(base.text);
    error := ValidateExtractionPath(value);
    if error.Some? { return; }
    ghost var seen := false;
    var components := SplitPath(value);
    WalkStarts(base.Components(), components, false);
    for i := 0 to |components|
      invariant path.Valid() && fresh(path)
      invariant WalkedTo(base.Components(), components, false, i, path.Components(), seen)
    {
      WalkedOne(base.Components(), components, false, i, path.Components(), seen);
      var component := components[i];
      NormalPiece(component);
      if IsUp(component) {
        var popped := path.Pop();
        if !popped {
          return path, Some(EscapesRoot);
        }
      } else if !IsSkipped(component) {
        path.Push(component);
        seen := true;
      }
    }
    WalkEnds(base.Components(), components, false, path.Components(), seen);
  }

  /** Whether the target's last component makes it mean a directory. */
  predicate RequiresDirectory(components: Path)
    requires components != []
  {
    IsSkipped(components[|components| - 1]) || IsUp(components[|components| - 1])
  }

  /** A symbolic link's target walked strictly from the link's own directory. */
  method ValidateSymlinkTarget(path: NormalizedPath, value: seq<Byte>)
    returns (resolved: NormalizedPath, requiresDirectory: bool, error: Option<PathError>)
    requires path.Valid()
    ensures fresh(resolved) && resolved.Valid()
    ensures var base := if path.Components() == [] then [] else path.Components()[..|path.Components()| - 1];
            LinkTarget(base, value, true) == if error.Some? then Err(error.value) else Ok(resolved.Components())
    ensures requiresDirectory == RequiresDirectory(SplitPath(value))
  {
    hide SplitPath, WalkTarget, WalkedTo, IsNormalized, Parts, ValidateExtractionPath, LastSlash, Normal;
    var parent := path.Parent();
    resolved := new NormalizedPath.FromText(parent);
    ghost var base := Parts(parent);
    var components := SplitPath(value);
    requiresDirectory := RequiresDirectory(components);
    error := ValidateExtractionPath(value);
    if error.Some? { return; }
    var normalSeen := false;
    WalkStarts(base, components, true);
    for i := 0 to |components|
      invariant resolved.Valid() && fresh(resolved)
      invariant WalkedTo(base, components, true, i, resolved.Components(), normalSeen)
    {
      WalkedOne(base, components, true, i, resolved.Components(), normalSeen);
      var component := components[i];
      NormalPiece(component);
      if IsUp(component) {
        if normalSeen {
          return resolved, requiresDirectory, Some(AmbiguousTraversal);
        }
        var popped := resolved.Pop();
        if !popped {
          return resolved, requiresDirectory, Some(EscapesRoot);
        }
      } else if !IsSkipped(component) {
        normalSeen := true;
        resolved.Push(component);
      }
    }
    WalkEnds(base, components, true, resolved.Components(), normalSeen);
  }
}
