/** Lexical resolution of the deferred links, as a rewriting of paths, and what it means on the finished disk. */
module Links {
  import opened Octets
  import opened Components
  import opened Paths
  import opened Disk
  import opened Extraction

  datatype TerminalKind = Directory | NonDirectory | Dangling

  datatype ResolvedTarget = Known(kind: TerminalKind) | Unowned(path: Path)

  const MAX_SYMLINK_EXPANSIONS: nat := 256
  const MAX_SYMLINK_RESOLUTION_WORK_BYTES: nat := 8 * 1024 * 1024

  // ------------------------------------------------------------- the rewriting

  /** One pass over a path's components: the first link on it is replaced, or a file stands in the way, or neither. */
  datatype Pass = Substituted(path: Path) | FileInTheWay | Through

  function PassFrom(w: World, path: Path, k: nat): Pass
    requires k <= |path|
    decreases |path| - k
  {
    if k == |path| then Through
    else if path[..k + 1] !in w.tree then PassFrom(w, path, k + 1)
    else
      match w.tree[path[..k + 1]]
      case SymlinkEntry(i) => if i < |w.links| then Substituted(w.links[i].resolved + path[k + 1..]) else PassFrom(w, path, k + 1)
      case FileEntry => if k + 1 < |path| then FileInTheWay else PassFrom(w, path, k + 1)
      case _ => PassFrom(w, path, k + 1)
  }

  function Rewrite(w: World, path: Path): Option<Path>
  {
    match PassFrom(w, path, 0)
    case Substituted(q) => Some(q)
    case _ => None
  }

  /** What a path that cannot be rewritten stands for. */
  function TerminalOf(w: World, path: Path): ResolvedTarget
  {
    if PassFrom(w, path, 0).FileInTheWay? then Known(Dangling)
    else if path == [] then Known(Directory)
    else if path in w.tree && w.tree[path] == CreatedDirectory then Known(Directory)
    else if path in w.tree && w.tree[path] == FileEntry then Known(NonDirectory)
    else Unowned(path)
  }

  /** The first `k` components name an extracted link, or an extracted file. */
  predicate LinkAt(w: World, path: Path, k: nat)
    requires k <= |path|
  {
    path[..k] in w.tree && w.tree[path[..k]].SymlinkEntry? && w.tree[path[..k]].index < |w.links|
  }

  predicate FileAbove(w: World, path: Path, k: nat)
    requires k <= |path|
  {
    k < |path| && path[..k] in w.tree && w.tree[path[..k]] == FileEntry
  }

  /** Nothing is owned beyond a link or a file. */
  lemma OwnedEnds(w: World, path: Path, j: nat, k: nat)
    requires Coherent(w) && j < k <= |path| && path[..j] in w.tree && !IsDir(w.tree[path[..j]])
    ensures path[..k] !in w.tree
  {
    if path[..k] in w.tree {
      assert path[..k][..j] == path[..j];
      OwnedAbove(w, path[..k], j);
    }
  }

  lemma OwnedLinkKnown(w: World, path: Path)
    requires Coherent(w) && path in w.tree && w.tree[path].SymlinkEntry?
    ensures w.tree[path].index < |w.links|
  {
    assert EntryOnDisk(w, path);
  }

  /** A pass finds the link on the path, or the file, wherever it is; there is at most one. */
  lemma {:induction false} PassFinds(w: World, path: Path, j: nat)
    requires Coherent(w) && j <= |path|
    ensures forall k :: j < k <= |path| && LinkAt(w, path, k) ==>
              PassFrom(w, path, j) == Substituted(w.links[w.tree[path[..k]].index].resolved + path[k..])
    ensures forall k :: j < k <= |path| && FileAbove(w, path, k) ==> PassFrom(w, path, j) == FileInTheWay
    ensures (forall k :: j < k <= |path| ==> !LinkAt(w, path, k) && !FileAbove(w, path, k)) ==> PassFrom(w, path, j) == Through
    decreases |path| - j
  {
    hide Coherent;
    if j < |path| {
      PassFinds(w, path, j + 1);
      if path[..j + 1] in w.tree && w.tree[path[..j + 1]].SymlinkEntry? { OwnedLinkKnown(w, path[..j + 1]); }
      if LinkAt(w, path, j + 1) || FileAbove(w, path, j + 1) {
        forall k | j + 1 < k <= |path| ensures !LinkAt(w, path, k) && !FileAbove(w, path, k) {
          OwnedEnds(w, path, j + 1, k);
        }
      }
    }
  }

  /**
   * A path is rewritten at the extracted link on it. Without one it stands for nothing if an extracted file is in the
   * way, for what it was extracted as, and otherwise for something this extraction did not make.
   */
  lemma TerminalMeans(w: World, path: Path)
    requires Coherent(w)
    ensures forall k :: 0 < k <= |path| && LinkAt(w, path, k) ==>
              Rewrite(w, path) == Some(w.links[w.tree[path[..k]].index].resolved + path[k..])
    ensures (forall k :: 0 < k <= |path| ==> !LinkAt(w, path, k)) ==>
              && Rewrite(w, path).None?
              && TerminalOf(w, path) ==
                 if exists k :: 0 < k <= |path| && FileAbove(w, path, k) then Known(Dangling)
                 else if path == [] || (path in w.tree && w.tree[path].CreatedDirectory?) then Known(Directory)
                 else if path in w.tree && w.tree[path].FileEntry? then Known(NonDirectory)
                 else Unowned(path)
  {
    hide Coherent, PassFrom;
    PassFinds(w, path, 0);
  }

  /** The path after `n` rewrites. */
  function Rewritten(w: World, path: Path, n: nat): Option<Path>
  {
    if n == 0 then Some(path)
    else
      match Rewritten(w, path, n - 1)
      case None => None
      case Some(q) => Rewrite(w, q)
  }

  predicate NormalForm(w: World, path: Path, n: nat, q: Path)
  {
    Rewritten(w, path, n) == Some(q) && Rewrite(w, q).None?
  }

  lemma {:induction false} RewrittenShort(w: World, path: Path, m: nat, n: nat)
    requires m <= n && Rewritten(w, path, n).Some?
    ensures Rewritten(w, path, m).Some?
    decreases n
  {
    hide Rewrite;
    if m < n { RewrittenShort(w, path, m, n - 1); }
  }

  /** A path has at most one normal form. */
  lemma NormalFormUnique(w: World, path: Path, m: nat, p: Path, n: nat, q: Path)
    requires NormalForm(w, path, m, p) && NormalForm(w, path, n, q)
    ensures m == n && p == q
  {
    hide Rewrite;
    if m < n { RewrittenShort(w, path, m + 1, n); }
    if n < m { RewrittenShort(w, path, n + 1, m); }
  }

  /** Rewriting one step less from one step further. */
  lemma {:induction false} RewrittenFront(w: World, path: Path, n: nat)
    requires n > 0 && Rewrite(w, path).Some?
    ensures Rewritten(w, path, n) == Rewritten(w, Rewrite(w, path).value, n - 1)
    decreases n
  {
    hide Rewrite;
    if n > 1 { RewrittenFront(w, path, n - 1); }
  }

  /** A path met twice is met for ever. */
  lemma {:induction false} CycleRepeats(w: World, path: Path, i: nat, j: nat, n: nat)
    requires i < j && Rewritten(w, path, j).Some? && Rewritten(w, path, i) == Rewritten(w, path, j)
    ensures Rewritten(w, path, n).Some?
    ensures n >= j ==> Rewritten(w, path, n) == Rewritten(w, path, n - (j - i))
    decreases n
  {
    hide Rewrite;
    if n <= j {
      RewrittenShort(w, path, n, j);
    } else {
      CycleRepeats(w, path, i, j, n - 1);
      CycleRepeats(w, path, i, j, n - (j - i));
    }
  }

  lemma CycleHasNoNormalForm(w: World, path: Path, i: nat, j: nat, n: nat, q: Path)
    requires i < j && Rewritten(w, path, j).Some? && Rewritten(w, path, i) == Rewritten(w, path, j)
    ensures !NormalForm(w, path, n, q)
  {
    CycleRepeats(w, path, i, j, n + 1);
  }

  // ------------------------------------------------------- bounded evaluation

  /** The bytes of all the prefixes of a path, one separator each. */
  function PrefixBytes(path: Path): nat
    decreases |path|
  {
    if path == [] then 0 else PrefixBytes(path[..|path| - 1]) + NameBytes(path)
  }

  function NameBytes(path: Path): nat
    decreases |path|
  {
    if path == [] then 0 else NameBytes(path[..|path| - 1]) + |path[|path| - 1]| + 1
  }

  function PathWork(path: Path): nat { 2 * |JoinPath(path)| + PrefixBytes(path) }

  /** The shared counter after one more path; nothing once the limit would be passed. */
  function Charge(work: nat, path: Path): Option<nat>
  {
    if work + PathWork(path) <= MAX_SYMLINK_RESOLUTION_WORK_BYTES then Some(work + PathWork(path)) else None
  }

  datatype Evaluation = Evaluation(result: Result<ResolvedTarget, LinkReason>, work: nat)

  /** Rewrites until nothing is left to rewrite, a path repeats, or a limit is met. */
  function Evaluate(w: World, path: Path, visited: set<Path>, left: nat, work: nat): Evaluation
    decreases left
  {
    if left == 0 then Evaluation(Err(ExpansionLimit), work)
    else
      match Charge(work, path)
      case None => Evaluation(Err(WorkLimit), work)
      case Some(charged) =>
        if path in visited then Evaluation(Err(TargetCycle), charged)
        else
          match PassFrom(w, path, 0)
          case Substituted(q) => Evaluate(w, q, visited + {path}, left - 1, charged)
          case FileInTheWay => Evaluation(Ok(Known(Dangling)), charged)
          case Through =>
            if path != [] && path in w.tree && w.tree[path].SymlinkEntry? then Evaluate(w, path, visited + {path}, left - 1, charged)
            else Evaluation(Ok(TerminalOf(w, path)), charged)
  }

  /** With every link recorded, a link at the end of a path is always substituted. */
  lemma LinkAtEndIsSubstituted(w: World, path: Path, k: nat)
    requires Coherent(w) && path != [] && path in w.tree && w.tree[path].SymlinkEntry? && k < |path|
    ensures !PassFrom(w, path, k).Through?
    decreases |path| - k
  {
    hide DiskValid;
    assert path[..|path|] == path;
    assert EntryOnDisk(w, path);
    if k + 1 < |path| { LinkAtEndIsSubstituted(w, path, k + 1); }
  }

  /**
   * The evaluator is right about what it answers: a result is that of the unique normal form, within 256 rewrites;
   * a cycle means there is none; the counter only grows and never passes its limit.
   */
  lemma {:induction false} EvaluateCorrect(w: World, start: Path, path: Path, visited: set<Path>, k: nat, work: nat)
    requires Coherent(w) && k <= MAX_SYMLINK_EXPANSIONS + 1 && Rewritten(w, start, k) == Some(path)
    requires work <= MAX_SYMLINK_RESOLUTION_WORK_BYTES
    requires forall q :: q in visited ==> MetBefore(w, start, k, q)
    ensures var e := Evaluate(w, path, visited, MAX_SYMLINK_EXPANSIONS + 1 - k, work);
            && work <= e.work <= MAX_SYMLINK_RESOLUTION_WORK_BYTES
            && (e.result.Ok? ==>
                  exists n: nat, q :: n <= MAX_SYMLINK_EXPANSIONS && NormalForm(w, start, n, q) && e.result.value == TerminalOf(w, q))
            && (e.result == Err(TargetCycle) ==> forall n: nat, q :: !NormalForm(w, start, n, q))
            && (e.result == Err(ExpansionLimit) ==> forall n: nat, q :: n <= MAX_SYMLINK_EXPANSIONS ==> !NormalForm(w, start, n, q))
    decreases MAX_SYMLINK_EXPANSIONS + 1 - k
  {
    hide Coherent, PathWork, PassFrom;
    if k == MAX_SYMLINK_EXPANSIONS + 1 {
      forall n: nat, q | n <= MAX_SYMLINK_EXPANSIONS ensures !NormalForm(w, start, n, q) {
        RewrittenShort(w, start, n + 1, k);
      }
    } else if Charge(work, path).Some? {
      var charged := Charge(work, path).value;
      if path in visited {
        assert MetBefore(w, start, k, path);
        var i: nat :| i < k && Rewritten(w, start, i) == Some(path);
        forall n: nat, q ensures !NormalForm(w, start, n, q) {
          CycleHasNoNormalForm(w, start, i, k, n, q);
        }
      } else if PassFrom(w, path, 0).Substituted? {
        SeenGrows(w, start, path, visited, k);
        EvaluateCorrect(w, start, PassFrom(w, path, 0).path, visited + {path}, k + 1, charged);
      } else {
        assert NormalForm(w, start, k, path);
        if path != [] && path in w.tree && w.tree[path].SymlinkEntry? { LinkAtEndIsSubstituted(w, path, 0); }
      }
    }
  }

  /** The path was met after fewer than `k` rewrites. */
  ghost predicate MetBefore(w: World, start: Path, k: nat, q: Path)
  {
    exists i: nat :: i < k && Rewritten(w, start, i) == Some(q)
  }

  lemma SeenGrows(w: World, start: Path, path: Path, visited: set<Path>, k: nat)
    requires Rewritten(w, start, k) == Some(path)
    requires forall q :: q in visited ==> MetBefore(w, start, k, q)
    ensures forall q :: q in visited + {path} ==> MetBefore(w, start, k + 1, q)
  {
    hide Rewrite;
    forall q | q in visited + {path} ensures MetBefore(w, start, k + 1, q) {
      if q in visited {
        assert MetBefore(w, start, k, q);
        var i: nat :| i < k && Rewritten(w, start, i) == Some(q);
      }
    }
  }

  /** The work of the first `n` paths met on the way from `start`. */
  function ChainWork(w: World, start: Path, n: nat): nat
  {
    if n == 0 then 0
    else
      ChainWork(w, start, n - 1)
      + match Rewritten(w, start, n - 1)
        case None => 0
        case Some(q) => PathWork(q)
  }

  lemma {:induction false} ChainWorkGrows(w: World, start: Path, m: nat, n: nat)
    requires m <= n
    ensures ChainWork(w, start, m) <= ChainWork(w, start, n)
    decreases n
  {
    hide PathWork, Rewritten;
    if m < n { ChainWorkGrows(w, start, m, n - 1); }
  }

  /** `q` is what `start` comes down to, within the rewrite limit. */
  predicate Settles(w: World, start: Path, n: nat, q: Path)
  {
    n <= MAX_SYMLINK_EXPANSIONS && NormalForm(w, start, n, q)
  }

  /** Settling, on top of work already done, stays within the work limit. */
  predicate Affordable(w: World, start: Path, n: nat, work: nat)
  {
    work + ChainWork(w, start, n + 1) <= MAX_SYMLINK_RESOLUTION_WORK_BYTES
  }

  /** An evaluation that has started at `start` gives what that settles to exactly when it settles and that is affordable. */
  ghost predicate Exact(w: World, start: Path, before: nat, e: Evaluation)
  {
    && (e.result.Ok? ==> exists n: nat, q :: Settles(w, start, n, q) && Affordable(w, start, n, before))
    && (forall n: nat, q :: Settles(w, start, n, q) ==>
          if Affordable(w, start, n, before) then e == Evaluation(Ok(TerminalOf(w, q)), before + ChainWork(w, start, n + 1))
          else e.result == Err(WorkLimit))
    && (e.result.Err? ==> e.result.error in {TargetCycle, ExpansionLimit, WorkLimit})
  }

  lemma {:induction false} EvaluateExact(
      w: World, start: Path, path: Path, visited: set<Path>, k: nat, before: nat, work: nat)
    requires Coherent(w) && k <= MAX_SYMLINK_EXPANSIONS + 1 && Rewritten(w, start, k) == Some(path)
    requires work == before + ChainWork(w, start, k) <= MAX_SYMLINK_RESOLUTION_WORK_BYTES
    requires forall q :: q in visited ==> MetBefore(w, start, k, q)
    ensures Exact(w, start, before, Evaluate(w, path, visited, MAX_SYMLINK_EXPANSIONS + 1 - k, work))
    decreases MAX_SYMLINK_EXPANSIONS + 1 - k
  {
    hide Coherent, PathWork, PassFrom, NormalForm, TerminalOf, MetBefore, ChainWork;
    NotYetSettled(w, start, k);
    if k < MAX_SYMLINK_EXPANSIONS + 1 {
      NextWork(w, start, path, k);
      if Charge(work, path).None? {
        forall n: nat, q | Settles(w, start, n, q) ensures !Affordable(w, start, n, before) {
          ChainWorkGrows(w, start, k + 1, n + 1);
        }
      } else if path in visited {
        MetTwice(w, start, path, k);
      } else if PassFrom(w, path, 0).Substituted? {
        SeenGrows(w, start, path, visited, k);
        NextPath(w, start, path, k);
        EvaluateExact(w, start, PassFrom(w, path, 0).path, visited + {path}, k + 1, before, Charge(work, path).value);
      } else {
        if path != [] && path in w.tree && w.tree[path].SymlinkEntry? { LinkAtEndIsSubstituted(w, path, 0); }
        SettlesHere(w, start, path, k);
        EndsHere(w, path);
        assert Settles(w, start, k, path) && Affordable(w, start, k, before);
      }
    }
  }

  lemma WholeEvaluation(w: World, start: Path, work: nat)
    requires Coherent(w) && work <= MAX_SYMLINK_RESOLUTION_WORK_BYTES
    ensures Exact(w, start, work, Evaluate(w, start, {}, MAX_SYMLINK_EXPANSIONS + 1, work))
  {
    hide Coherent, Evaluate, Exact;
    EvaluateExact(w, start, start, {}, 0, work, work);
  }

  lemma OnlySettlement(w: World, start: Path)
    ensures forall m: nat, p, n: nat, q :: Settles(w, start, m, p) && Settles(w, start, n, q) ==> m == n && p == q
  {
    hide NormalForm;
    forall m: nat, p, n: nat, q | Settles(w, start, m, p) && Settles(w, start, n, q) ensures m == n && p == q {
      NormalFormUnique(w, start, m, p, n, q);
    }
  }

  /** A path with a `k`-th rewriting settles after no fewer. */
  lemma NotYetSettled(w: World, start: Path, k: nat)
    requires Rewritten(w, start, k).Some?
    ensures forall n: nat, q :: NormalForm(w, start, n, q) ==> k <= n
  {
    hide Rewrite;
    forall n: nat, q | NormalForm(w, start, n, q) ensures k <= n {
      if n < k { RewrittenShort(w, start, n + 1, k); }
    }
  }

  lemma NextWork(w: World, start: Path, path: Path, k: nat)
    requires Rewritten(w, start, k) == Some(path)
    ensures ChainWork(w, start, k + 1) == ChainWork(w, start, k) + PathWork(path)
  {
  }

  lemma NextPath(w: World, start: Path, path: Path, k: nat)
    requires Rewritten(w, start, k) == Some(path) && PassFrom(w, path, 0).Substituted?
    ensures Rewritten(w, start, k + 1) == Some(PassFrom(w, path, 0).path)
  {
    hide PassFrom;
  }

  lemma MetTwice(w: World, start: Path, path: Path, k: nat)
    requires Rewritten(w, start, k) == Some(path) && MetBefore(w, start, k, path)
    ensures forall n: nat, q :: !NormalForm(w, start, n, q)
  {
    hide Rewrite;
    var i: nat :| i < k && Rewritten(w, start, i) == Some(path);
    forall n: nat, q ensures !NormalForm(w, start, n, q) {
      CycleHasNoNormalForm(w, start, i, k, n, q);
    }
  }

  lemma SettlesHere(w: World, start: Path, path: Path, k: nat)
    requires Rewritten(w, start, k) == Some(path) && !PassFrom(w, path, 0).Substituted?
    ensures NormalForm(w, start, k, path) && forall n: nat, q :: NormalForm(w, start, n, q) ==> n == k && q == path
  {
    hide PassFrom;
    forall n: nat, q | NormalForm(w, start, n, q) ensures n == k && q == path {
      NormalFormUnique(w, start, n, q, k, path);
    }
  }

  lemma EndsHere(w: World, path: Path)
    ensures PassFrom(w, path, 0).FileInTheWay? ==> TerminalOf(w, path) == Known(Dangling)
  {
    hide PassFrom;
  }

  // --------------------------------------------------- the path walk on disk

  datatype WalkResult = AtDirectory(path: Path) | AtFile | Absent | BehindFile | LeavesRoot | TooManyLinks

  /** The path walk of the operating system, from a real directory: links are followed where they stand, `..` goes to the parent. */
  function Walk(d: DiskState, at: Path, components: Path, fuel: nat): WalkResult
    decreases fuel, |components|
  {
    if components == [] then AtDirectory(at)
    else
      var c, rest := components[0], components[1..];
      if IsSkipped(c) then Walk(d, at, rest, fuel)
      else if IsUp(c) then (if at == [] then LeavesRoot else Walk(d, at[..|at| - 1], rest, fuel))
      else if at + [c] !in d.nodes then Absent
      else
        match d.nodes[at + [c]]
        case DirNode(_) => Walk(d, at + [c], rest, fuel)
        case FileNode(_) => if rest == [] then AtFile else BehindFile
        case LinkNode(target) =>
          if target != [] && target[0] == SLASH then LeavesRoot
          else if fuel == 0 then TooManyLinks
          else Walk(d, at, SplitPath(target) + rest, fuel - 1)
  }

  /** The disk once every live link has been made. */
  ghost predicate Finished(w: World, d: DiskState)
  {
    && (forall p :: p in w.disk.nodes ==> p in d.nodes && d.nodes[p] == w.disk.nodes[p])
    && (forall p :: p in w.tree && w.tree[p].SymlinkEntry? && w.tree[p].index < |w.links| ==>
          p in d.nodes && d.nodes[p] == LinkNode(w.links[w.tree[p].index].target))
  }

  ghost predicate Live(w: World, i: nat)
    requires i < |w.links|
  {
    w.links[i].path in w.tree && w.tree[w.links[i].path] == SymlinkEntry(i)
  }

  /** No live link whose target must be a directory leads to a file. */
  ghost predicate SuffixesHold(w: World)
  {
    forall i :: 0 <= i < |w.links| && Live(w, i) && w.links[i].requiresDirectory ==> LeadsToNoFile(w, w.links[i].resolved)
  }

  ghost predicate LeadsToNoFile(w: World, path: Path)
  {
    forall n: nat, q :: NormalForm(w, path, n, q) ==> TerminalOf(w, q) != Known(NonDirectory)
  }

  /** A last component that asks for a directory. */
  predicate AsksDirectory(components: Path)
  {
    components != [] && RequiresDirectory(components)
  }

  /** The walk ended where the resolution said it would. */
  predicate Confirms(result: WalkResult, kind: TerminalKind)
  {
    match kind
    case Directory => result.AtDirectory?
    case NonDirectory => result.AtFile?
    case Dangling => result.BehindFile?
  }

  /** Below owned directories nothing on a path is rewritten. */
  lemma {:induction false} PassOverDirectories(w: World, path: Path, k: nat, n: nat)
    requires Coherent(w) && k <= n <= |path| && (n > 0 ==> OwnedDirectory(w.tree, path[..n]))
    ensures PassFrom(w, path, k) == PassFrom(w, path, n)
    decreases n - k
  {
    hide DiskValid;
    if k < n {
      if k + 1 < n {
        OwnedAbove(w, path[..n], k + 1);
        assert path[..n][..k + 1] == path[..k + 1];
      }
      PassOverDirectories(w, path, k + 1, n);
    }
  }

  lemma {:induction false} PassOverNothing(w: World, path: Path, k: nat)
    requires k <= |path| && forall j :: k < j <= |path| ==> path[..j] !in w.tree
    ensures PassFrom(w, path, k) == Through
    decreases |path| - k
  {
    if k < |path| { PassOverNothing(w, path, k + 1); }
  }

  /** A path whose first step below an owned directory is not owned leads outside what extraction knows. */
  lemma UnownedStep(w: World, at: Path, c: Component, names: Path)
    requires Coherent(w) && OwnedDirectory(w.tree, at) && at + [c] !in w.tree
    ensures var p := at + [c] + names; Rewrite(w, p).None? && TerminalOf(w, p).Unowned?
  {
    hide Coherent;
    var p := at + [c] + names;
    assert p[..|at|] == at && p[..|at| + 1] == at + [c];
    PassOverDirectories(w, p, 0, |at|);
    forall j | |at| < j <= |p| ensures p[..j] !in w.tree {
      assert (at + [c]) == p[..j][..|at| + 1];
      NothingOwnedBelow(w, at + [c], p[..j]);
    }
    PassOverNothing(w, p, |at|);
    assert p[..|p|] == p;
  }

  /** A file below an owned directory ends the resolution, one way or the other. */
  lemma FileStep(w: World, at: Path, c: Component, names: Path)
    requires Coherent(w) && OwnedDirectory(w.tree, at) && at + [c] in w.tree && w.tree[at + [c]] == FileEntry
    ensures var p := at + [c] + names;
            Rewrite(w, p).None? && TerminalOf(w, p) == Known(if names == [] then NonDirectory else Dangling)
  {
    hide Coherent;
    var p := at + [c] + names;
    assert p[..|at|] == at && p[..|at| + 1] == at + [c];
    PassOverDirectories(w, p, 0, |at|);
    if names == [] { assert p == at + [c]; }
  }

  lemma LinkStep(w: World, at: Path, c: Component, names: Path)
    requires Coherent(w) && OwnedDirectory(w.tree, at) && at + [c] in w.tree && w.tree[at + [c]].SymlinkEntry?
    ensures var i := w.tree[at + [c]].index;
            && i < |w.links| && w.links[i].path == at + [c] && LinkValid(w.links[i]) && Live(w, i)
            && Rewrite(w, at + [c] + names) == Some(w.links[i].resolved + names)
  {
    var p := at + [c] + names;
    assert EntryOnDisk(w, at + [c]);
    hide Coherent, DiskValid, LinkValid;
    assert p[..|at|] == at && p[..|at| + 1] == at + [c] && p[|at| + 1..] == names;
    PassOverDirectories(w, p, 0, |at|);
  }

  lemma DirectoryEnds(w: World, at: Path)
    requires Coherent(w) && OwnedDirectory(w.tree, at)
    ensures Rewrite(w, at).None? && TerminalOf(w, at) in [Known(Directory), Unowned(at)]
  {
    hide Coherent;
    assert at[..|at|] == at;
    PassOverDirectories(w, at, 0, |at|);
  }

  lemma {:induction false} UpsFirstConcat(a: Path, b: Path)
    requires UpsFirst(a) && NoUps(b)
    ensures UpsFirst(a + b)
    decreases |a|
  {
    if a == [] {
      assert a + b == b;
      NoUpsIsUpsFirst(b);
    } else {
      assert (a + b)[1..] == a[1..] + b;
      if IsSkipped(a[0]) || IsUp(a[0]) { UpsFirstConcat(a[1..], b); }
    }
  }

  /** A normal form reached at once is the path itself. */
  lemma AlreadyNormal(w: World, path: Path, n: nat, q: Path)
    requires NormalForm(w, path, n, q) && Rewrite(w, path).None?
    ensures n == 0 && q == path
  {
    hide Rewrite;
    if n > 0 { RewrittenShort(w, path, 1, n); }
  }

  lemma OneStepOn(w: World, path: Path, next: Path, n: nat, q: Path)
    requires NormalForm(w, path, n, q) && Rewrite(w, path) == Some(next)
    ensures n > 0 && NormalForm(w, next, n - 1, q)
  {
    hide Rewrite;
    if n > 0 { RewrittenFront(w, path, n); }
  }

  /**
   * Lexical resolution is the walk: where it says what a target is, following the raw text on the finished disk
   * from an owned directory ends at just that, below the root all the way.
   */
  lemma {:induction false} LexicalIsPhysical(
      w: World, d: DiskState, at: Path, components: Path, p: Path, n: nat, q: Path, kind: TerminalKind)
    requires Coherent(w) && Finished(w, d) && SuffixesHold(w)
    requires OwnedDirectory(w.tree, at) && UpsFirst(components) && Resolve(at, components) == Some(p)
    requires NormalForm(w, p, n, q) && TerminalOf(w, q) == Known(kind)
    requires AsksDirectory(components) ==> kind != NonDirectory
    ensures Confirms(Walk(d, at, components, n), kind)
    decreases n, |components|
  {
    hide Coherent, NormalForm, TerminalOf, Rewrite, Finished, SuffixesHold, RequiresDirectory;
    if components == [] {
      DirectoryEnds(w, at);
      AlreadyNormal(w, p, n, q);
    } else {
      var c, rest := components[0], components[1..];
      LastOfRest(components);
      if IsSkipped(c) {
        LexicalIsPhysical(w, d, at, rest, p, n, q, kind);
      } else if IsUp(c) {
        DirectoryAbove(w, at);
        LexicalIsPhysical(w, d, at[..|at| - 1], rest, p, n, q, kind);
      } else {
        assert components == [c] + rest;
        LexicalStep(w, d, at, c, rest, p, n, q, kind);
      }
    }
  }

  lemma LastOfRest(components: Path)
    requires components != []
    ensures components[1..] != [] ==> (AsksDirectory(components[1..]) <==> AsksDirectory(components))
  {
  }

  lemma DirectoryAbove(w: World, at: Path)
    requires Coherent(w) && at in w.tree && at != []
    ensures OwnedDirectory(w.tree, at[..|at| - 1])
  {
    OwnedAbove(w, at, |at| - 1);
  }

  /** One named component: a directory to go into, a file to end at, or a link to follow. */
  lemma {:induction false} LexicalStep(
      w: World, d: DiskState, at: Path, c: Component, rest: Path, p: Path, n: nat, q: Path, kind: TerminalKind)
    requires Coherent(w) && Finished(w, d) && SuffixesHold(w)
    requires OwnedDirectory(w.tree, at) && !IsSkipped(c) && !IsUp(c) && NoUps(rest) && Resolve(at, [c] + rest) == Some(p)
    requires NormalForm(w, p, n, q) && TerminalOf(w, q) == Known(kind)
    requires AsksDirectory([c] + rest) ==> kind != NonDirectory
    ensures Confirms(Walk(d, at, [c] + rest, n), kind)
    decreases n, |rest| + 1, 0
  {
    hide Coherent, NormalForm, TerminalOf, Rewrite, Finished, SuffixesHold, RequiresDirectory;
    assert ([c] + rest)[1..] == rest;
    LastOfRest([c] + rest);
    ResolveNoUps(at + [c], rest);
    NoUpsIsUpsFirst(rest);
    var r, names := at + [c], Names(rest);
    if r !in w.tree {
      UnownedStep(w, at, c, names);
      AlreadyNormal(w, p, n, q);
    } else {
      SeenOnDisk(w, d, r);
      match w.tree[r]
      case FileEntry =>
        FileStep(w, at, c, names);
        AlreadyNormal(w, p, n, q);
        if names == [] && rest != [] { TrailingDots(c, rest); }
      case SymlinkEntry(i) => LexicalLink(w, d, at, c, rest, p, n, q, kind);
      case _ => LexicalIsPhysical(w, d, r, rest, p, n, q, kind);
    }
  }

  /** What an owned path is on the finished disk. */
  lemma SeenOnDisk(w: World, d: DiskState, r: Path)
    requires Coherent(w) && Finished(w, d) && r in w.tree
    ensures r in d.nodes
    ensures IsDir(w.tree[r]) ==> d.nodes[r].DirNode?
    ensures w.tree[r] == FileEntry ==> d.nodes[r].FileNode?
    ensures w.tree[r].SymlinkEntry? ==> w.tree[r].index < |w.links| && d.nodes[r] == LinkNode(w.links[w.tree[r].index].target)
  {
    assert EntryOnDisk(w, r);
  }

  /** Dots behind a file's name ask for a directory. */
  lemma TrailingDots(c: Component, rest: Path)
    requires NoUps(rest) && Names(rest) == [] && rest != []
    ensures AsksDirectory([c] + rest)
  {
    NoNamesLast(rest);
    var all := [c] + rest;
    assert all[|all| - 1] == rest[|rest| - 1];
  }

  lemma {:induction false} NoNamesLast(rest: Path)
    requires NoUps(rest) && Names(rest) == [] && rest != []
    ensures IsSkipped(rest[|rest| - 1])
    decreases |rest|
  {
    if |rest| > 1 {
      NoUpsRest(rest);
      NoNamesLast(rest[1..]);
    }
  }

  lemma {:induction false} LexicalLink(
      w: World, d: DiskState, at: Path, c: Component, rest: Path, p: Path, n: nat, q: Path, kind: TerminalKind)
    requires Coherent(w) && Finished(w, d) && SuffixesHold(w)
    requires OwnedDirectory(w.tree, at) && !IsSkipped(c) && !IsUp(c) && NoUps(rest) && p == at + [c] + Names(rest)
    requires at + [c] in w.tree && w.tree[at + [c]].SymlinkEntry?
    requires NormalForm(w, p, n, q) && TerminalOf(w, q) == Known(kind)
    requires rest != [] && AsksDirectory(rest) ==> kind != NonDirectory
    ensures Confirms(Walk(d, at, [c] + rest, n), kind)
    decreases n, |rest|, 1
  {
    hide Coherent, NormalForm, TerminalOf, Rewrite, Finished, RequiresDirectory;
    LinkStep(w, at, c, Names(rest));
    SeenOnDisk(w, d, at + [c]);
    var i := w.tree[at + [c]].index;
    var link := w.links[i];
    var next, text := link.resolved + Names(rest), SplitPath(link.target);
    OneStepOn(w, p, next, n, q);
    assert ParentOf(at + [c]) == at;
    ResolveConcat(at, text, rest);
    ResolveNoUps(link.resolved, rest);
    UpsFirstConcat(text, rest);
    FollowedSuffix(w, i, text, rest, next, n - 1, q, kind);
    LexicalIsPhysical(w, d, at, text + rest, next, n - 1, q, kind);
    assert ([c] + rest)[1..] == rest;
  }

  /** Following a link keeps the demand for a directory answerable: its own was checked. */
  lemma FollowedSuffix(w: World, i: nat, text: Path, rest: Path, next: Path, n: nat, q: Path, kind: TerminalKind)
    requires SuffixesHold(w) && i < |w.links| && Live(w, i) && LinkValid(w.links[i]) && text == SplitPath(w.links[i].target)
    requires next == w.links[i].resolved + Names(rest) && NormalForm(w, next, n, q) && TerminalOf(w, q) == Known(kind)
    requires rest != [] && AsksDirectory(rest) ==> kind != NonDirectory
    ensures AsksDirectory(text + rest) ==> kind != NonDirectory
  {
    hide NormalForm, TerminalOf;
    if rest == [] {
      assert text + rest == text && next == w.links[i].resolved;
    } else {
      assert (text + rest)[|text + rest| - 1] == rest[|rest| - 1];
    }
  }

  // ------------------------------------------------------------- finalization

  datatype LinkPolicy = LinkPolicy(allowAmbient: bool, allowMissing: bool)

  /** What a look at an unowned target shows: its kind, and whether an unowned link lies on the way to nothing. */
  type Inspection = Path -> (TerminalKind, bool)

  /** The verdict on one link, and the shared counter after it. */
  datatype Verdict = Verdict(fault: Option<LinkReason>, work: nat)

  function CheckTarget(w: World, policy: LinkPolicy, inspect: Inspection, link: PendingLink, work: nat): Verdict
  {
    var e := Evaluate(w, link.resolved, {}, MAX_SYMLINK_EXPANSIONS + 1, work);
    match e.result
    case Err(reason) => Verdict(Some(reason), e.work)
    case Ok(Known(kind)) => Verdict(KindFault(policy, link, kind), e.work)
    case Ok(Unowned(p)) => Verdict(UnownedFault(policy, inspect, link, p), e.work)
  }

  function UnownedFault(policy: LinkPolicy, inspect: Inspection, link: PendingLink, p: Path): Option<LinkReason>
  {
    if !policy.allowAmbient && !policy.allowMissing then Some(TargetNotOwned)
    else
      var (kind, traverses) := inspect(p);
      if traverses && !policy.allowAmbient then Some(AmbientTarget)
      else if (kind == Directory || kind == NonDirectory) && !policy.allowAmbient then Some(AmbientTarget)
      else KindFault(policy, link, kind)
  }

  function KindFault(policy: LinkPolicy, link: PendingLink, kind: TerminalKind): Option<LinkReason>
  {
    if kind == Dangling && !policy.allowMissing then Some(TargetMissing)
    else if kind == NonDirectory && link.requiresDirectory then Some(TargetNotDirectory)
    else None
  }

  datatype Checking = Checked(live: seq<nat>, work: nat) | CheckFailed(error: ExtractError)

  /** The live links among the first `n`, all of them in order; the first fault stops. */
  function CheckUpTo(w: World, policy: LinkPolicy, inspect: Inspection, n: nat): Checking
    requires n <= |w.links|
  {
    if n == 0 then Checked([], 0)
    else CheckNext(w, policy, inspect, n - 1, CheckUpTo(w, policy, inspect, n - 1))
  }

  function CheckNext(w: World, policy: LinkPolicy, inspect: Inspection, i: nat, before: Checking): Checking
    requires i < |w.links|
  {
    match before
    case CheckFailed(e) => before
    case Checked(live, work) =>
      var link := w.links[i];
      if !(link.path in w.tree && w.tree[link.path] == SymlinkEntry(i)) then before
      else
        var v := CheckTarget(w, policy, inspect, link, work);
        match v.fault
        case Some(reason) => CheckFailed(InvalidLink(link.position, link.path, reason))
        case None => Checked(live + [i], v.work)
  }

  predicate InRange(w: World, live: seq<nat>)
  {
    forall k :: 0 <= k < |live| ==> live[k] < |w.links|
  }

  /** The disk after the first `n` of the checked links have been made. */
  function MakeUpTo(w: World, live: seq<nat>, n: nat): Outcome
    requires n <= |live| && InRange(w, live)
  {
    if n == 0 then Going(w)
    else
      match MakeUpTo(w, live, n - 1)
      case Stopped(d, e) => Stopped(d, e)
      case Going(w') => MakeOne(w', w.links[live[n - 1]])
  }

  function MakeOne(w: World, link: PendingLink): Outcome
  {
    match MakeLink(w.disk, link.path, link.target)
    case Err(e) => Stopped(w.disk, Filesystem(CreateSymbolicLink, link.path, e))
    case Ok(d) => Going(w.(disk := d))
  }

  lemma {:induction false} CheckedInRange(w: World, policy: LinkPolicy, inspect: Inspection, n: nat)
    requires n <= |w.links|
    ensures var c := CheckUpTo(w, policy, inspect, n);
            c.Checked? ==> InRange(w, c.live) && forall k :: 0 <= k < |c.live| ==> c.live[k] < n
  {
    hide CheckTarget;
    if n > 0 { CheckedInRange(w, policy, inspect, n - 1); }
  }

  function FinalizeLinks(w: World, policy: LinkPolicy, inspect: Inspection): Outcome
  {
    CheckedInRange(w, policy, inspect, |w.links|);
    match CheckUpTo(w, policy, inspect, |w.links|)
    case CheckFailed(e) => Stopped(w.disk, e)
    case Checked(live, _) => MakeUpTo(w, live, |live|)
  }

  /** A passed check: exactly the live links, in order, none of whose targets breaks its suffix's demand. */
  ghost predicate ChecksOut(w: World, n: nat, c: Checking)
    requires n <= |w.links|
  {
    c.Checked? ==>
      && c.work <= MAX_SYMLINK_RESOLUTION_WORK_BYTES
      && (forall k :: 0 <= k < |c.live| ==> c.live[k] < n && Live(w, c.live[k]))
      && (forall j, k :: 0 <= j < k < |c.live| ==> c.live[j] < c.live[k])
      && (forall i :: 0 <= i < n && Live(w, i) ==> i in c.live)
      && (forall i :: 0 <= i < n && Live(w, i) && w.links[i].requiresDirectory ==> LeadsToNoFile(w, w.links[i].resolved))
  }

  lemma TargetChecked(w: World, policy: LinkPolicy, inspect: Inspection, link: PendingLink, work: nat)
    requires Coherent(w) && work <= MAX_SYMLINK_RESOLUTION_WORK_BYTES
    ensures var v := CheckTarget(w, policy, inspect, link, work);
            && work <= v.work <= MAX_SYMLINK_RESOLUTION_WORK_BYTES
            && (v.fault.None? && link.requiresDirectory ==> LeadsToNoFile(w, link.resolved))
  {
    hide Coherent, Evaluate, NormalForm, TerminalOf;
    EvaluateCorrect(w, link.resolved, link.resolved, {}, 0, work);
    var e := Evaluate(w, link.resolved, {}, MAX_SYMLINK_EXPANSIONS + 1, work);
    if e.result.Ok? {
      var n: nat, q :| NormalForm(w, link.resolved, n, q) && e.result.value == TerminalOf(w, q);
      forall m: nat, r | NormalForm(w, link.resolved, m, r) ensures r == q {
        NormalFormUnique(w, link.resolved, m, r, n, q);
      }
    }
  }

  lemma {:induction false} CheckUpToChecksOut(w: World, policy: LinkPolicy, inspect: Inspection, n: nat)
    requires Coherent(w) && n <= |w.links|
    ensures ChecksOut(w, n, CheckUpTo(w, policy, inspect, n))
  {
    hide Coherent, CheckTarget, LeadsToNoFile;
    if n > 0 {
      CheckUpToChecksOut(w, policy, inspect, n - 1);
      var before := CheckUpTo(w, policy, inspect, n - 1);
      if before.Checked? {
        TargetChecked(w, policy, inspect, w.links[n - 1], before.work);
        CheckNextChecksOut(w, policy, inspect, n - 1, before);
      }
    }
  }

  lemma CheckNextChecksOut(w: World, policy: LinkPolicy, inspect: Inspection, i: nat, before: Checking)
    requires i < |w.links| && before.Checked? && ChecksOut(w, i, before)
    requires var v := CheckTarget(w, policy, inspect, w.links[i], before.work);
             && v.work <= MAX_SYMLINK_RESOLUTION_WORK_BYTES
             && (v.fault.None? && w.links[i].requiresDirectory ==> LeadsToNoFile(w, w.links[i].resolved))
    ensures ChecksOut(w, i + 1, CheckNext(w, policy, inspect, i, before))
  {
    hide CheckTarget, LeadsToNoFile;
    var next := CheckNext(w, policy, inspect, i, before);
    if next.Checked? && Live(w, i) {
      assert next.live[|before.live|] == i;
      assert forall k :: 0 <= k < |before.live| ==> next.live[k] == before.live[k];
    }
  }

  /** What the disk is once the first `n` checked links stand. */
  ghost predicate MadeUpTo(w: World, live: seq<nat>, n: nat, w': World)
    requires n <= |live| && InRange(w, live)
  {
    && w'.tree == w.tree && w'.links == w.links && DiskValid(w'.disk)
    && (forall p :: p in w.disk.nodes ==> p in w'.disk.nodes && w'.disk.nodes[p] == w.disk.nodes[p])
    && (forall k :: 0 <= k < n ==>
          w.links[live[k]].path in w'.disk.nodes && w'.disk.nodes[w.links[live[k]].path] == LinkNode(w.links[live[k]].target))
    && (forall p :: p in w'.disk.nodes && p !in w.disk.nodes ==> exists k :: 0 <= k < n && w.links[live[k]].path == p)
  }

  /** Live links, each once. */
  ghost predicate LiveInOrder(w: World, live: seq<nat>)
    requires InRange(w, live)
  {
    (forall k :: 0 <= k < |live| ==> Live(w, live[k])) && (forall j, k :: 0 <= j < k < |live| ==> live[j] < live[k])
  }

  /** Making a checked link always succeeds: its path is still free and its directory is there. */
  lemma {:induction false} MakeUpToSucceeds(w: World, live: seq<nat>, n: nat)
    requires Coherent(w) && n <= |live| && InRange(w, live) && LiveInOrder(w, live)
    ensures MakeUpTo(w, live, n).Going? && MadeUpTo(w, live, n, MakeUpTo(w, live, n).world)
    decreases n
  {
    hide Coherent, MadeUpTo, MakeOne, LiveInOrder;
    if n == 0 {
      NothingMade(w, live);
    } else {
      LastIsLive(w, live, n);
      MakeUpToSucceeds(w, live, n - 1);
      LiveLinkIsFree(w, live[n - 1]);
      StillFree(w, live, n, MakeUpTo(w, live, n - 1).world);
      OneLinkMade(w, live, n, MakeUpTo(w, live, n - 1).world);
    }
  }

  lemma NothingMade(w: World, live: seq<nat>)
    requires Coherent(w) && InRange(w, live)
    ensures MadeUpTo(w, live, 0, w)
  {
    hide DiskValid;
  }

  lemma LastIsLive(w: World, live: seq<nat>, n: nat)
    requires InRange(w, live) && LiveInOrder(w, live) && 0 < n <= |live|
    ensures live[n - 1] < |w.links| && Live(w, live[n - 1])
  {
  }

  /** No earlier link was made at this one's path. */
  lemma StillFree(w: World, live: seq<nat>, n: nat, before: World)
    requires InRange(w, live) && LiveInOrder(w, live) && 0 < n <= |live|
    requires MadeUpTo(w, live, n - 1, before) && w.links[live[n - 1]].path !in w.disk.nodes
    ensures w.links[live[n - 1]].path !in before.disk.nodes
  {
    hide DiskValid;
    forall k | 0 <= k < n - 1 ensures w.links[live[k]].path != w.links[live[n - 1]].path {
      LivePathsDiffer(w, live[k], live[n - 1]);
    }
  }

  lemma LiveLinkIsFree(w: World, i: nat)
    requires Coherent(w) && i < |w.links| && Live(w, i)
    ensures w.links[i].path !in w.disk.nodes && CanHold(w.disk, w.links[i].path)
  {
    var path := w.links[i].path;
    assert EntryOnDisk(w, path) && LinkValid(w.links[i]);
    assert EntryOnDisk(w, ParentOf(path));
  }

  lemma LivePathsDiffer(w: World, i: nat, j: nat)
    requires i < j < |w.links| && Live(w, i) && Live(w, j)
    ensures w.links[i].path != w.links[j].path
  {
  }

  lemma OneLinkMade(w: World, live: seq<nat>, n: nat, before: World)
    requires 0 < n <= |live| && InRange(w, live)
    requires MadeUpTo(w, live, n - 1, before)
    requires w.links[live[n - 1]].path !in before.disk.nodes && CanHold(w.disk, w.links[live[n - 1]].path)
    ensures MakeOne(before, w.links[live[n - 1]]).Going? && MadeUpTo(w, live, n, MakeOne(before, w.links[live[n - 1]]).world)
  {
    hide DiskValid;
    var link := w.links[live[n - 1]];
    var after := MakeOne(before, link).world;
    assert CanHold(before.disk, link.path);
    forall p | p in after.disk.nodes && p !in w.disk.nodes ensures exists k :: 0 <= k < n && w.links[live[k]].path == p {
      if p != link.path {
        assert p in before.disk.nodes;
        var k :| 0 <= k < n - 1 && w.links[live[k]].path == p;
      }
    }
  }

  /** A run that finishes has made every live link and nothing else, and only a failed check can keep it from finishing. */
  lemma FinalizeFinishes(w: World, policy: LinkPolicy, inspect: Inspection)
    requires Coherent(w)
    ensures FinalizeLinks(w, policy, inspect).Stopped? ==> CheckUpTo(w, policy, inspect, |w.links|).CheckFailed?
    ensures FinalizeLinks(w, policy, inspect).Going? ==>
              var d := FinalizeLinks(w, policy, inspect).world.disk;
              && Finished(w, d) && SuffixesHold(w)
              && forall p :: p in d.nodes && p !in w.disk.nodes ==> p in w.tree && w.tree[p].SymlinkEntry?
  {
    hide Coherent, LeadsToNoFile, CheckUpTo, MakeUpTo, MadeUpTo, Finished, InRange;
    var c := CheckUpTo(w, policy, inspect, |w.links|);
    CheckUpToChecksOut(w, policy, inspect, |w.links|);
    CheckedInRange(w, policy, inspect, |w.links|);
    if c.Checked? {
      MakeUpToSucceeds(w, c.live, |c.live|);
      LiveLinksMade(w, c, MakeUpTo(w, c.live, |c.live|).world);
      NothingElseMade(w, c.live, MakeUpTo(w, c.live, |c.live|).world);
    }
  }

  lemma LiveLinksMade(w: World, c: Checking, w': World)
    requires Coherent(w) && c.Checked? && ChecksOut(w, |w.links|, c) && InRange(w, c.live)
    requires MadeUpTo(w, c.live, |c.live|, w')
    ensures Finished(w, w'.disk)
  {
    hide DiskValid, LeadsToNoFile, LinkValid;
    forall p | p in w.tree && w.tree[p].SymlinkEntry?
      ensures p in w'.disk.nodes && w.tree[p].index < |w.links| && w'.disk.nodes[p] == LinkNode(w.links[w.tree[p].index].target)
    {
      assert EntryOnDisk(w, p);
      assert Live(w, w.tree[p].index);
      var k :| 0 <= k < |c.live| && c.live[k] == w.tree[p].index;
    }
  }

  lemma NothingElseMade(w: World, live: seq<nat>, w': World)
    requires InRange(w, live) && LiveInOrder(w, live) && MadeUpTo(w, live, |live|, w')
    ensures forall p :: p in w'.disk.nodes && p !in w.disk.nodes ==> p in w.tree && w.tree[p].SymlinkEntry?
  {
    hide DiskValid;
  }

  /** Making links writes to no file. */
  lemma {:induction false} LinksKeepData(w: World, live: seq<nat>, n: nat)
    requires n <= |live| && InRange(w, live)
    ensures MakeUpTo(w, live, n).Going? ==> MakeUpTo(w, live, n).world.disk.files == w.disk.files
    decreases n
  {
    if n > 0 { LinksKeepData(w, live, n - 1); }
  }

  lemma FinalizeKeepsData(w: World, policy: LinkPolicy, inspect: Inspection)
    requires FinalizeLinks(w, policy, inspect).Going?
    ensures FinalizeLinks(w, policy, inspect).world.disk.files == w.disk.files
  {
    hide CheckUpTo, MakeUpTo, InRange;
    CheckedInRange(w, policy, inspect, |w.links|);
    var c := CheckUpTo(w, policy, inspect, |w.links|);
    LinksKeepData(w, c.live, |c.live|);
  }

  /**
   * After finalization, following a live link's raw text from its own directory, as the operating system does,
   * ends at the kind that resolving it lexically found.
   */
  lemma LinksResolvePhysically(w: World, policy: LinkPolicy, inspect: Inspection, i: nat, n: nat, q: Path, kind: TerminalKind)
    requires Coherent(w) && FinalizeLinks(w, policy, inspect).Going? && i < |w.links| && Live(w, i)
    requires NormalForm(w, w.links[i].resolved, n, q) && TerminalOf(w, q) == Known(kind)
    ensures var link := w.links[i];
            Confirms(Walk(FinalizeLinks(w, policy, inspect).world.disk, ParentOf(link.path), SplitPath(link.target), n), kind)
  {
    hide FinalizeLinks, NormalForm, TerminalOf;
    FinalizeFinishes(w, policy, inspect);
    var link := w.links[i];
    assert LinkValid(link) && OwnedDirectory(w.tree, ParentOf(link.path));
    hide Coherent, Finished;
    LexicalIsPhysical(w, FinalizeLinks(w, policy, inspect).world.disk, ParentOf(link.path), SplitPath(link.target), link.resolved, n, q, kind);
  }

  /** More hops change nothing about a walk that had enough. */
  lemma {:induction false} WalkMoreHops(d: DiskState, at: Path, components: Path, n: nat, m: nat)
    requires n <= m && !Walk(d, at, components, n).TooManyLinks?
    ensures Walk(d, at, components, m) == Walk(d, at, components, n)
    decreases n, |components|
  {
    if components != [] {
      var c, rest := components[0], components[1..];
      if IsSkipped(c) {
        WalkMoreHops(d, at, rest, n, m);
      } else if IsUp(c) {
        if at != [] { WalkMoreHops(d, at[..|at| - 1], rest, n, m); }
      } else if at + [c] in d.nodes {
        match d.nodes[at + [c]]
        case DirNode(_) => WalkMoreHops(d, at + [c], rest, n, m);
        case LinkNode(target) =>
          if !(target != [] && target[0] == SLASH) { WalkMoreHops(d, at, SplitPath(target) + rest, n - 1, m - 1); }
        case _ =>
      }
    }
  }

  // ---------------------------------------------- which links may be made

  /** A kind the policy allows, and that the target's own suffix does not rule out. */
  predicate KindPermitted(policy: LinkPolicy, requiresDirectory: bool, kind: TerminalKind)
  {
    && (kind == Dangling ==> policy.allowMissing)
    && (kind == NonDirectory ==> !requiresDirectory)
  }

  /**
   * What a link may stand for. Without leave for ambient targets, one that was not extracted must be missing, and no
   * ambient link may lie on the way to it; without leave for missing ones, it must be there; without either, none will do.
   */
  predicate Permits(policy: LinkPolicy, inspect: Inspection, requiresDirectory: bool, target: ResolvedTarget)
  {
    match target
    case Known(kind) => KindPermitted(policy, requiresDirectory, kind)
    case Unowned(p) =>
      && (policy.allowAmbient || policy.allowMissing)
      && (!policy.allowAmbient ==> inspect(p) == (Dangling, false))
      && KindPermitted(policy, requiresDirectory, inspect(p).0)
  }

  /** The reason given for a target that will not do, and none for one that will. */
  predicate Explains(policy: LinkPolicy, inspect: Inspection, requiresDirectory: bool, target: ResolvedTarget, fault: Option<LinkReason>)
  {
    var kind := if target.Known? then target.kind else inspect(target.path).0;
    && (fault == Some(TargetNotOwned) <==> target.Unowned? && !policy.allowAmbient && !policy.allowMissing)
    && (fault == Some(AmbientTarget) <==>
          target.Unowned? && !policy.allowAmbient && policy.allowMissing && inspect(target.path) != (Dangling, false))
    && (fault == Some(TargetMissing) <==> kind == Dangling && !policy.allowMissing && (target.Known? || policy.allowAmbient))
    && (fault == Some(TargetNotDirectory) <==> kind == NonDirectory && requiresDirectory && (target.Known? || policy.allowAmbient))
    && (fault.None? <==> Permits(policy, inspect, requiresDirectory, target))
  }

  /** One link's verdict: passed exactly when it settles, affordably, on what the policy permits. */
  lemma VerdictExact(w: World, policy: LinkPolicy, inspect: Inspection, link: PendingLink, work: nat)
    requires Coherent(w) && work <= MAX_SYMLINK_RESOLUTION_WORK_BYTES
    ensures var v := CheckTarget(w, policy, inspect, link, work);
            && (v.fault.None? <==>
                  exists n: nat, q :: Settles(w, link.resolved, n, q) && Affordable(w, link.resolved, n, work)
                                      && Permits(policy, inspect, link.requiresDirectory, TerminalOf(w, q)))
            && (forall n: nat, q :: Settles(w, link.resolved, n, q) && Affordable(w, link.resolved, n, work) ==>
                  && v.work == work + ChainWork(w, link.resolved, n + 1)
                  && Explains(policy, inspect, link.requiresDirectory, TerminalOf(w, q), v.fault))
            && (forall n: nat, q :: Settles(w, link.resolved, n, q) && !Affordable(w, link.resolved, n, work) ==> v.fault == Some(WorkLimit))
            && ((forall n: nat, q :: !Settles(w, link.resolved, n, q)) ==>
                  v.fault in {Some(TargetCycle), Some(ExpansionLimit), Some(WorkLimit)})
  {
    hide Coherent, Evaluate, Settles, Affordable, TerminalOf, ChainWork;
    WholeEvaluation(w, link.resolved, work);
    var e := Evaluate(w, link.resolved, {}, MAX_SYMLINK_EXPANSIONS + 1, work);
    if e.result.Ok? { OnlySettlement(w, link.resolved); }
  }

  /** A live link that settles on what the policy permits. */
  ghost predicate Acceptable(w: World, policy: LinkPolicy, inspect: Inspection, i: nat)
    requires i < |w.links|
  {
    exists n: nat, q ::
      Settles(w, w.links[i].resolved, n, q) && Permits(policy, inspect, w.links[i].requiresDirectory, TerminalOf(w, q))
  }

  /** The work that settling one live link takes. */
  ghost function LinkWork(w: World, i: nat): nat
    requires i < |w.links|
  {
    if Live(w, i) && exists n: nat, q :: Settles(w, w.links[i].resolved, n, q) then
      var n: nat, q :| Settles(w, w.links[i].resolved, n, q);
      ChainWork(w, w.links[i].resolved, n + 1)
    else 0
  }

  /** The work of the first `n` links together: the counter is shared. */
  ghost function TotalWork(w: World, n: nat): nat
    requires n <= |w.links|
  {
    if n == 0 then 0 else TotalWork(w, n - 1) + LinkWork(w, n - 1)
  }

  /** Link `i` passes, the links before it having been paid for. */
  ghost predicate Passes(w: World, policy: LinkPolicy, inspect: Inspection, i: nat)
    requires i < |w.links|
  {
    Live(w, i) ==> Acceptable(w, policy, inspect, i) && TotalWork(w, i + 1) <= MAX_SYMLINK_RESOLUTION_WORK_BYTES
  }

  lemma WorkOfLink(w: World, i: nat, n: nat, q: Path)
    requires i < |w.links| && Live(w, i) && Settles(w, w.links[i].resolved, n, q)
    ensures LinkWork(w, i) == ChainWork(w, w.links[i].resolved, n + 1)
  {
    hide Settles, ChainWork;
    OnlySettlement(w, w.links[i].resolved);
  }

  /** The check goes through exactly when every link passes; it stops at the first that does not, and says which. */
  lemma {:induction false} ChecksIff(w: World, policy: LinkPolicy, inspect: Inspection, n: nat)
    requires Coherent(w) && n <= |w.links|
    ensures CheckUpTo(w, policy, inspect, n).Checked? <==> forall i :: 0 <= i < n ==> Passes(w, policy, inspect, i)
    ensures CheckUpTo(w, policy, inspect, n).Checked? ==>
              CheckUpTo(w, policy, inspect, n).work == TotalWork(w, n) <= MAX_SYMLINK_RESOLUTION_WORK_BYTES
    ensures CheckUpTo(w, policy, inspect, n).CheckFailed? ==>
              exists i: nat :: i < n && FirstToFail(w, policy, inspect, i, CheckUpTo(w, policy, inspect, n).error)
    decreases n
  {
    hide Coherent, CheckTarget, Acceptable, LinkWork, Live;
    if n > 0 {
      ChecksIff(w, policy, inspect, n - 1);
      var before := CheckUpTo(w, policy, inspect, n - 1);
      if before.Checked? {
        NextIff(w, policy, inspect, n - 1, before.work);
        NextStep(w, policy, inspect, n - 1, before);
        var next := CheckUpTo(w, policy, inspect, n);
        if next.CheckFailed? { assert FirstToFail(w, policy, inspect, n - 1, next.error); }
      }
    }
  }

  /** The first link that does not pass, reported with its own path and position. */
  ghost predicate FirstToFail(w: World, policy: LinkPolicy, inspect: Inspection, i: nat, error: ExtractError)
    requires i < |w.links|
  {
    && !Passes(w, policy, inspect, i) && (forall j :: 0 <= j < i ==> Passes(w, policy, inspect, j))
    && error.InvalidLink? && error.position == w.links[i].position && error.path == w.links[i].path
  }

  /** A live link's verdict, once those before it have been paid for. */
  lemma NextIff(w: World, policy: LinkPolicy, inspect: Inspection, i: nat, work: nat)
    requires Coherent(w) && i < |w.links| && work == TotalWork(w, i) <= MAX_SYMLINK_RESOLUTION_WORK_BYTES
    ensures Live(w, i) ==>
              var v := CheckTarget(w, policy, inspect, w.links[i], work);
              && (v.fault.None? <==> Passes(w, policy, inspect, i))
              && (v.fault.None? ==> v.work == TotalWork(w, i + 1) <= MAX_SYMLINK_RESOLUTION_WORK_BYTES)
    ensures !Live(w, i) ==> TotalWork(w, i + 1) == work
  {
    hide Coherent, CheckTarget, Settles, ChainWork, Permits, Live, TerminalOf, Explains;
    if Live(w, i) {
      VerdictExact(w, policy, inspect, w.links[i], work);
      OnlySettlement(w, w.links[i].resolved);
      forall n: nat, q | Settles(w, w.links[i].resolved, n, q)
        ensures LinkWork(w, i) == ChainWork(w, w.links[i].resolved, n + 1)
      {
        WorkOfLink(w, i, n, q);
      }
    }
  }

  lemma NextStep(w: World, policy: LinkPolicy, inspect: Inspection, i: nat, before: Checking)
    requires i < |w.links| && before.Checked?
    ensures var next := CheckNext(w, policy, inspect, i, before);
            && (!Live(w, i) ==> next == before)
            && (Live(w, i) ==>
                  var v := CheckTarget(w, policy, inspect, w.links[i], before.work);
                  && (next.Checked? <==> v.fault.None?) && (next.Checked? ==> next.work == v.work)
                  && (next.CheckFailed? ==> next.error == InvalidLink(w.links[i].position, w.links[i].path, v.fault.value)))
  {
    hide CheckTarget;
  }

  /**
   * Finalization goes through if and only if every live link settles, within the rewrite limit, on what the policy
   * permits, and all of them together keep to the work limit. What it stops for is the first link of which that fails.
   */
  lemma FinalizeIff(w: World, policy: LinkPolicy, inspect: Inspection)
    requires Coherent(w)
    ensures FinalizeLinks(w, policy, inspect).Going? <==>
            forall i :: 0 <= i < |w.links| ==> Passes(w, policy, inspect, i)
    ensures FinalizeLinks(w, policy, inspect).Stopped? ==>
              && FinalizeLinks(w, policy, inspect).disk == w.disk
              && exists i: nat :: i < |w.links| && FirstToFail(w, policy, inspect, i, FinalizeLinks(w, policy, inspect).error)
  {
    hide Coherent, CheckUpTo, MakeUpTo, Passes, Finished, SuffixesHold, FirstToFail;
    FinalizeFinishes(w, policy, inspect);
    ChecksIff(w, policy, inspect, |w.links|);
  }

  /**
   * What finalization checked is what a user of the link finds: where a link settles on a kind, following its raw text
   * on the finished disk, within as many hops as the rewrite limit, ends at that kind.
   */
  lemma CheckedLinkLeads(w: World, policy: LinkPolicy, inspect: Inspection, i: nat, n: nat, q: Path, kind: TerminalKind)
    requires Coherent(w) && FinalizeLinks(w, policy, inspect).Going? && i < |w.links| && Live(w, i)
    requires Settles(w, w.links[i].resolved, n, q) && TerminalOf(w, q) == Known(kind)
    ensures w.links[i].path != [] && LeadsTo(FinalizeLinks(w, policy, inspect).world.disk, w.links[i], kind)
  {
    hide Coherent, FinalizeLinks, NormalForm, TerminalOf, Live, Walk;
    var link := w.links[i];
    LinkAtName(w, i);
    LinksResolvePhysically(w, policy, inspect, i, n, q, kind);
    WalkMoreHops(FinalizeLinks(w, policy, inspect).world.disk, ParentOf(link.path), SplitPath(link.target), n, MAX_SYMLINK_EXPANSIONS);
  }

  /** Following the link's text on the disk, from where the link stands, ends at this kind. */
  predicate LeadsTo(d: DiskState, link: PendingLink, kind: TerminalKind)
    requires link.path != []
  {
    Confirms(Walk(d, ParentOf(link.path), SplitPath(link.target), MAX_SYMLINK_EXPANSIONS), kind)
  }

  lemma LinkAtName(w: World, i: nat)
    requires Coherent(w) && i < |w.links|
    ensures w.links[i].path != []
  {
    assert LinkValid(w.links[i]);
  }

  /** A live link's target, as the policy sees it: where it leads on the disk, or what an inspection of it shows. */
  ghost predicate Answered(w: World, d: DiskState, policy: LinkPolicy, inspect: Inspection, link: PendingLink, target: ResolvedTarget)
    requires link.path != []
  {
    match target
    case Known(kind) =>
      LeadsTo(d, link, kind) && (kind == Dangling ==> policy.allowMissing) && (kind == NonDirectory ==> !link.requiresDirectory)
    case Unowned(p) =>
      && (policy.allowAmbient || (policy.allowMissing && inspect(p) == (Dangling, false)))
      && (inspect(p).0 == Dangling ==> policy.allowMissing)
      && (inspect(p).0 == NonDirectory ==> !link.requiresDirectory)
  }

  /**
   * No live link is left unaccounted for: each settled. One that settled on something extracted leads there. One that
   * did not has, without leave for ambient targets, nothing at its target and no ambient link on the way; without
   * leave for missing ones, no link leads to nothing.
   */
  lemma LiveLinksLead(w: World, policy: LinkPolicy, inspect: Inspection, i: nat)
    requires Coherent(w) && FinalizeLinks(w, policy, inspect).Going? && i < |w.links| && Live(w, i)
    ensures w.links[i].path != []
    ensures exists n: nat, q ::
              && Settles(w, w.links[i].resolved, n, q)
              && Answered(w, FinalizeLinks(w, policy, inspect).world.disk, policy, inspect, w.links[i], TerminalOf(w, q))
  {
    hide Coherent, Live, FinalizeLinks, Walk, LeadsTo, Settles, TerminalOf;
    FinalizeIff(w, policy, inspect);
    assert Passes(w, policy, inspect, i);
    LinkAtName(w, i);
    var n: nat, q :| Settles(w, w.links[i].resolved, n, q) && Permits(policy, inspect, w.links[i].requiresDirectory, TerminalOf(w, q));
    if TerminalOf(w, q).Known? { CheckedLinkLeads(w, policy, inspect, i, n, q, TerminalOf(w, q).kind); }
  }
}
