/** Slash-separated names as sequences of components. */
module Components {
  import opened Octets

  type Component = seq<Byte>

  type Path = seq<Component>

  /** The components between slashes; there is always at least one. */
  function SplitPath(path: seq<Byte>): (components: Path)
    ensures components != []
    ensures forall i :: 0 <= i < |components| ==> SLASH !in components[i]
  {
    match Find(path, SLASH)
    case None => [path]
    case Some(i) => [path[..i]] + SplitPath(path[i + 1..])
  }

  /** Components joined by slashes. */
  function JoinPath(components: Path): seq<Byte>
  {
    if components == [] then [] else if |components| == 1 then components[0]
    else components[0] + [SLASH] + JoinPath(components[1..])
  }

  /** Splitting loses nothing. */
  lemma {:induction false} SplitJoins(path: seq<Byte>)
    ensures JoinPath(SplitPath(path)) == path
    decreases |path|
  {
    match Find(path, SLASH) {
      case None =>
      case Some(i) =>
        SplitJoins(path[i + 1..]);
        assert SplitPath(path)[1..] == SplitPath(path[i + 1..]);
        assert path == path[..i] + [SLASH] + path[i + 1..];
    }
  }

  lemma {:induction false} JoinedPrefix(components: Path, n: nat)
    requires 0 < n <= |components|
    ensures JoinPath(components[..n]) <= JoinPath(components)
    decreases |components|
  {
    if n == |components| {
      assert components[..n] == components;
    } else if n > 1 {
      JoinedPrefix(components[1..], n - 1);
      assert components[..n][1..] == components[1..][..n - 1];
    } else {
      assert components[..1] == [components[0]];
    }
  }

  /** A component that names something: not empty, not `.`, not `..`, and without a slash. */
  predicate Normal(c: Component)
  {
    c != [] && c != [DOT] && c != [DOT, DOT] && SLASH !in c
  }

  predicate AllNormal(path: Path)
  {
    forall i :: 0 <= i < |path| ==> Normal(path[i])
  }

  predicate IsSkipped(c: Component) { c == [] || c == [DOT] }

  predicate IsUp(c: Component) { c == [DOT, DOT] }

  /** The first component ends at the first slash. */
  lemma SplitFirst(head: seq<Byte>, tail: seq<Byte>)
    requires SLASH !in head
    ensures SplitPath(head + [SLASH] + tail) == [head] + SplitPath(tail)
  {
    var text := head + [SLASH] + tail;
    FindAfter(head, SLASH, tail);
    assert text[..|head|] == head && text[|head| + 1..] == tail;
  }

  /** Joining components and splitting again gives the same components. */
  lemma {:induction false} JoinSplits(components: Path)
    requires components != [] && forall i :: 0 <= i < |components| ==> SLASH !in components[i]
    ensures SplitPath(JoinPath(components)) == components
    decreases |components|
  {
    if |components| == 1 {
      assert components == [components[0]];
    } else {
      hide SplitPath;
      SplitFirst(components[0], JoinPath(components[1..]));
      JoinSplits(components[1..]);
      assert components == [components[0]] + components[1..];
    }
  }

  /** Joining puts one slash before every component but the first. */
  lemma {:induction false} JoinPushed(components: Path, c: Component)
    ensures JoinPath(components + [c]) == if components == [] then c else JoinPath(components) + [SLASH] + c
    decreases |components|
  {
    if components == [] {
      assert [] + [c] == [c];
    } else if |components| == 1 {
      assert (components + [c])[1..] == [c];
    } else {
      JoinPushed(components[1..], c);
      assert (components + [c])[1..] == components[1..] + [c];
      var a, b := components[0] + [SLASH], JoinPath(components[1..]);
      assert a + (b + [SLASH] + c) == a + b + [SLASH] + c;
    }
  }

  lemma JoinEmpty(components: Path)
    requires AllNormal(components)
    ensures JoinPath(components) == [] <==> components == []
  {
  }

  /** `path` walked from `base`: dots stay, `..` goes up, names go down; nothing above the root. */
  function Resolve(base: Path, components: Path): Option<Path>
    decreases |components|
  {
    if components == [] then Some(base)
    else if IsSkipped(components[0]) then Resolve(base, components[1..])
    else if IsUp(components[0]) then (if base == [] then None else Resolve(base[..|base| - 1], components[1..]))
    else Resolve(base + [components[0]], components[1..])
  }

  /** The components that name something, in order. */
  function Names(components: Path): (names: Path)
    ensures |names| <= |components|
  {
    if components == [] then []
    else if IsSkipped(components[0]) || IsUp(components[0]) then Names(components[1..])
    else [components[0]] + Names(components[1..])
  }

  /** No `..` comes after a name. */
  predicate UpsFirst(components: Path)
  {
    components == [] || (if IsSkipped(components[0]) || IsUp(components[0]) then UpsFirst(components[1..]) else NoUps(components[1..]))
  }

  predicate NoUps(components: Path)
  {
    forall i :: 0 <= i < |components| ==> !IsUp(components[i])
  }

  /** Without `..`, walking appends the names. */
  lemma {:induction false} ResolveNoUps(base: Path, components: Path)
    requires NoUps(components)
    ensures Resolve(base, components) == Some(base + Names(components))
    decreases |components|
  {
    if components == [] {
      assert base + [] == base;
    } else {
      ResolveNoUps(if IsSkipped(components[0]) then base else base + [components[0]], components[1..]);
      if !IsSkipped(components[0]) {
        assert base + [components[0]] + Names(components[1..]) == base + ([components[0]] + Names(components[1..]));
      }
    }
  }

  lemma {:induction false} NoUpsIsUpsFirst(components: Path)
    requires NoUps(components)
    ensures UpsFirst(components)
  {
    if components != [] { NoUpsIsUpsFirst(components[1..]); }
  }

  /** Walking two runs of components one after the other. */
  lemma {:induction false} ResolveConcat(base: Path, a: Path, b: Path)
    ensures Resolve(base, a + b) == match Resolve(base, a) case None => None case Some(p) => Resolve(p, b)
    decreases |a|
  {
    if a == [] {
      assert a + b == b;
    } else {
      assert (a + b)[1..] == a[1..] + b;
      if IsSkipped(a[0]) {
        ResolveConcat(base, a[1..], b);
      } else if IsUp(a[0]) {
        if base != [] { ResolveConcat(base[..|base| - 1], a[1..], b); }
      } else {
        ResolveConcat(base + [a[0]], a[1..], b);
      }
    }
  }
}
