/**
 * `copyDirectory(source, target)`: `Files.walk(source)`, two filters, then for each kept path
 * either `Files.createDirectories` or `Files.copy(.., REPLACE_EXISTING)` at the same place under
 * target. A primitive that throws inside the `forEach` is rethrown wrapped in a RuntimeException,
 * which ends the copy with everything written so far left in place. The walk itself reads every
 * entry it reaches, filtered out or not, and throws at the first one that is refused.
 */
module TreeCopy {
  import opened Wrappers
  import opened Text
  import opened Paths
  import opened FileTree
  import opened Walks

  /** The bounds of the second filter. */
  const MaxDepth: nat := 3
  const MaxLength: nat := 200

  /** First filter, on the path string: no "logs" and no "tmp" anywhere in it. */
  predicate ContentTest(p: Path) {
    !Contains(PathString(p), "logs") && !Contains(PathString(p), "tmp")
  }

  /** First filter, on the file name: the world's lock file is never copied. */
  predicate NotLock(p: Path) {
    FileName(p) != "session.lock"
  }

  /** Second filter: at most three names below source, and a path string of at most 200 chars. */
  predicate WithinBounds(source: Path, p: Path)
    requires IsPrefix(source, p)
  {
    NameCount(Relativize(source, p)) <= MaxDepth && |PathString(p)| <= MaxLength
  }

  /** Both filters. */
  predicate Keep(source: Path, p: Path)
    requires IsPrefix(source, p)
  {
    ContentTest(p) && NotLock(p) && WithinBounds(source, p)
  }

  /** `target.resolve(source.relativize(p))`. */
  function Mirror(source: Path, target: Path, p: Path): Path
    requires IsPrefix(source, p)
  {
    target + Relativize(source, p)
  }

  /** Every path of the walk lies under source. */
  predicate Inside(source: Path, order: seq<Path>) {
    forall i :: 0 <= i < |order| ==> IsPrefix(source, order[i])
  }

  /** Neither tree contains the other. */
  predicate Disjoint(source: Path, target: Path) {
    !IsPrefix(source, target) && !IsPrefix(target, source)
  }

  /**
   * One path of the pipeline; None when it throws. The walk throws at a refused entry before any
   * filter sees it; the root path has no file name, so the first filter dereferences null on it.
   * A step that goes through never removes an entry, and a filtered-out path changes nothing.
   */
  function CopyStep(fs: Fs, faults: set<Path>, now: int, source: Path, target: Path, p: Path): (r: Option<Fs>)
    requires IsPrefix(source, p)
    ensures r.Some? ==> p !in faults && p != [] && fs.Keys <= r.value.Keys
    ensures r.Some? && !Keep(source, p) ==> r.value == fs
  {
    if p in faults then None
    else if p == [] then None
    else if !Keep(source, p) then Some(fs)
    else if IsDirectory(fs, faults, p) then CreateDirectories(fs, faults, now, Mirror(source, target, p))
    else CopyFile(fs, faults, now, p, Mirror(source, target, p))
  }

  /** The `forEach` over the walk, stopping at the first path that throws. */
  function CopyAll(fs: Fs, faults: set<Path>, now: int, source: Path, target: Path, order: seq<Path>): Outcome
    requires Inside(source, order)
    decreases |order|
  {
    if order == [] then Outcome(fs, None)
    else
      match CopyStep(fs, faults, now, source, target, order[0])
      case None => Outcome(fs, Some(Unchecked(order[0])))
      case Some(next) => CopyAll(next, faults, now, source, target, order[1..])
  }

  /**
   * `copyDirectory(source, target)` with the walk in `order`; the walk throws a checked exception
   * on a missing or unreadable source. The copy never removes an entry, and a failure names source
   * itself or a walked path.
   */
  function CopyDirectory(fs: Fs, faults: set<Path>, now: int, source: Path, target: Path, order: seq<Path>): (r: Outcome)
    requires Inside(source, order)
    ensures fs.Keys <= r.fs.Keys
    ensures r.failure.Some? ==> r.failure == Some(Checked(source)) || (r.failure.value.Unchecked? && r.failure.value.at in order)
  {
    if !Exists(fs, faults, source) then Outcome(fs, Some(Checked(source)))
    else
      CopyAllFrame(fs, faults, now, source, target, order);
      CopyAll(fs, faults, now, source, target, order)
  }

  /** k is the target of some path of the walk. */
  ghost predicate Mirrored(source: Path, target: Path, order: seq<Path>, k: Path)
    requires Inside(source, order)
  {
    exists i :: 0 <= i < |order| && k == Mirror(source, target, order[i])
  }

  /** k is the target of a kept path of the walk, or a directory on the way to one. */
  ghost predicate Created(source: Path, target: Path, order: seq<Path>, k: Path)
    requires Inside(source, order)
  {
    exists i :: 0 <= i < |order| && Keep(source, order[i]) && IsPrefix(k, Mirror(source, target, order[i]))
  }

  /** The target of p holds what p held: a directory, or p's bytes stamped with the copy time. */
  ghost predicate MirrorsEntry(fs: Fs, faults: set<Path>, now: int, r: Fs, source: Path, target: Path, p: Path)
    requires IsPrefix(source, p)
  {
    var m := Mirror(source, target, p);
    m in r &&
    if IsDirectory(fs, faults, p) then r[m].Dir?
    else p in fs && fs[p].File? && r[m] == File(fs[p].data, Some(now))
  }

  // ---------------------------------------------------------------------------------------------
  // Path facts
  // ---------------------------------------------------------------------------------------------

  /** Paths under source are never at or above the target of another such path. */
  lemma MirrorApart(source: Path, target: Path, p: Path, q: Path)
    requires Disjoint(source, target) && IsPrefix(source, p) && IsPrefix(source, q)
    ensures !IsPrefix(p, Mirror(source, target, q))
  {
  }

  /** The targets of two paths nest exactly when the paths do. */
  lemma MirrorPrefix(source: Path, target: Path, p: Path, q: Path)
    requires IsPrefix(source, p) && IsPrefix(source, q)
    ensures IsPrefix(Mirror(source, target, q), Mirror(source, target, p)) <==> IsPrefix(q, p)
  {
    var mp, mq := Mirror(source, target, p), Mirror(source, target, q);
    if IsPrefix(mq, mp) {
      assert q[|source|..] == mp[|target|..|mq|] == p[|source|..|q|];
      assert q == source + q[|source|..] && p[..|q|] == source + p[|source|..|q|];
    }
    if IsPrefix(q, p) {
      assert p[|source|..][..|q| - |source|] == q[|source|..];
    }
  }

  /** Whatever passes the filters, its ancestors under source pass the path-string and bound tests. */
  lemma KeepInherited(source: Path, q: Path, p: Path)
    requires IsPrefix(source, q) && IsPrefix(q, p) && Keep(source, p)
    ensures ContentTest(q) && WithinBounds(source, q)
  {
    AncestorStringPrefix(q, p);
    if Contains(PathString(q), "logs") {
      ContainsExtends(PathString(q), PathString(p), "logs");
    }
    if Contains(PathString(q), "tmp") {
      ContainsExtends(PathString(q), PathString(p), "tmp");
    }
  }

  // ---------------------------------------------------------------------------------------------
  // One step
  // ---------------------------------------------------------------------------------------------

  /**
   * One path: a skipped path changes nothing; a kept one writes its target and creates only
   * directories on the way to it; nothing is removed and the tree shape is kept.
   */
  lemma CopyStepEffect(fs: Fs, faults: set<Path>, now: int, source: Path, target: Path, p: Path)
    requires IsPrefix(source, p) && CopyStep(fs, faults, now, source, target, p).Some?
    ensures var r := CopyStep(fs, faults, now, source, target, p).value;
      var m := Mirror(source, target, p);
      && p != []
      && (forall k :: k in fs ==> k in r)
      && (forall k :: k in fs && k != m ==> r[k] == fs[k])
      && (forall k :: k in r && k !in fs ==> Keep(source, p) && IsPrefix(k, m))
      && (WellFormed(fs) ==> WellFormed(r))
      && (!Keep(source, p) ==> r == fs)
      && (Keep(source, p) ==> MirrorsEntry(fs, faults, now, r, source, target, p))
  {
    var m := Mirror(source, target, p);
    if Keep(source, p) && !IsDirectory(fs, faults, p) && WellFormed(fs) {
      CopyFileKeepsShape(fs, faults, now, p, m);
    }
  }

  // ---------------------------------------------------------------------------------------------
  // The whole run
  // ---------------------------------------------------------------------------------------------

  /**
   * The copy never removes an entry, changes an existing entry only by writing the target of a
   * walked path, creates only targets of kept paths and directories leading to them, and keeps
   * the tree shape. A failure names a walked path.
   */
  lemma {:induction false} CopyAllFrame(fs: Fs, faults: set<Path>, now: int, source: Path, target: Path, order: seq<Path>)
    requires Inside(source, order)
    ensures var r := CopyAll(fs, faults, now, source, target, order);
      && (forall k :: k in fs ==> k in r.fs)
      && (forall k :: k in fs && !Mirrored(source, target, order, k) ==> r.fs[k] == fs[k])
      && (forall k :: k in r.fs && k !in fs ==> Created(source, target, order, k))
      && (WellFormed(fs) ==> WellFormed(r.fs))
      && (r.failure.Some? ==> r.failure.value.Unchecked? && r.failure.value.at in order)
    decreases |order|
  {
    if order != [] {
      var p := order[0];
      var rest := order[1..];
      match CopyStep(fs, faults, now, source, target, p)
      case None =>
      case Some(next) =>
        CopyStepEffect(fs, faults, now, source, target, p);
        CopyAllFrame(next, faults, now, source, target, rest);
        var r := CopyAll(fs, faults, now, source, target, order);
        forall k | k in fs && !Mirrored(source, target, order, k)
          ensures r.fs[k] == fs[k]
        {
          assert k != Mirror(source, target, order[0]);
        }
        forall k | k in r.fs && k !in fs
          ensures Created(source, target, order, k)
        {
          if k in next {
            assert Keep(source, order[0]) && IsPrefix(k, Mirror(source, target, order[0]));
          } else {
            var i :| 0 <= i < |rest| && Keep(source, rest[i]) && IsPrefix(k, Mirror(source, target, rest[i]));
            assert rest[i] == order[i + 1];
          }
        }
    }
  }

  /**
   * The walk reaches every path it lists, filtered out or not, so a refused entry anywhere in it
   * makes the copy fail.
   */
  lemma {:induction false} RefusedEntryStopsCopy(fs: Fs, faults: set<Path>, now: int, source: Path, target: Path, order: seq<Path>)
    requires Inside(source, order) && Elements(order) * faults != {}
    ensures CopyAll(fs, faults, now, source, target, order).failure.Some?
    decreases |order|
  {
    var q :| q in Elements(order) * faults;
    assert q in order;
    assert Elements(order) == {order[0]} + Elements(order[1..]) by {
      assert order == [order[0]] + order[1..];
    }
    match CopyStep(fs, faults, now, source, target, order[0])
    case None =>
    case Some(next) =>
      RefusedEntryStopsCopy(next, faults, now, source, target, order[1..]);
  }

  /** Every directory on the way to an existing entry exists. */
  lemma AncestorsExist(fs: Fs, target: Path)
    requires WellFormed(fs) && target in fs
    ensures forall k :: IsPrefix(k, target) ==> k in fs
  {
    forall k | IsPrefix(k, target) ensures k in fs {
      if k != target {
        AncestorIsDirectory(fs, target, k);
      }
    }
  }

  /** A path on the way to the target of p is on the way to target, or inside it. */
  lemma MirrorAncestor(source: Path, target: Path, p: Path, k: Path)
    requires IsPrefix(source, p) && IsPrefix(k, Mirror(source, target, p))
    ensures IsPrefix(k, target) || IsPrefix(target, k)
  {
    var m := Mirror(source, target, p);
    assert m[..|target|] == target;
    assert |k| <= |target| ==> IsPrefix(k, target);
    assert |k| > |target| ==> k[..|target|] == m[..|target|];
  }

  /**
   * Copying into a directory that exists changes and creates entries only inside it: the
   * directories on the way to it are already there.
   */
  lemma CopyAllStaysInTarget(fs: Fs, faults: set<Path>, now: int, source: Path, target: Path, order: seq<Path>)
    requires WellFormed(fs) && target in fs && Inside(source, order)
    ensures var r := CopyAll(fs, faults, now, source, target, order).fs;
      && (forall k :: k in fs && !IsPrefix(target, k) ==> k in r && r[k] == fs[k])
      && (forall k :: k in r && k !in fs ==> IsPrefix(target, k))
      && WellFormed(r)
  {
    var r := CopyAll(fs, faults, now, source, target, order).fs;
    CopyAllFrame(fs, faults, now, source, target, order);
    AncestorsExist(fs, target);
    forall k, i | 0 <= i < |order| && !IsPrefix(target, k) ensures k != Mirror(source, target, order[i]) {
      assert Mirror(source, target, order[i])[..|target|] == target;
    }
    forall k | k in r && k !in fs ensures IsPrefix(target, k) {
      var i :| 0 <= i < |order| && Keep(source, order[i]) && IsPrefix(k, Mirror(source, target, order[i]));
      MirrorAncestor(source, target, order[i], k);
    }
  }

  /** Fail-fast composition: a run over `a + b` is the run over a, then, if that succeeded, over b. */
  lemma {:induction false} CopyAllAppend(fs: Fs, faults: set<Path>, now: int, source: Path, target: Path, a: seq<Path>, b: seq<Path>)
    requires Inside(source, a) && Inside(source, b)
    ensures Inside(source, a + b)
    ensures CopyAll(fs, faults, now, source, target, a + b) ==
      var o := CopyAll(fs, faults, now, source, target, a);
      if o.failure.Some? then o else CopyAll(o.fs, faults, now, source, target, b)
    decreases |a|
  {
    if a == [] {
      assert a + b == b;
    } else {
      assert (a + b)[0] == a[0] && (a + b)[1..] == a[1..] + b;
      match CopyStep(fs, faults, now, source, target, a[0])
      case None =>
      case Some(next) => CopyAllAppend(next, faults, now, source, target, a[1..], b);
    }
  }

  /** The first path's target survives the rest of the copy: no later path has the same target. */
  lemma MirrorHeadKept(fs: Fs, faults: set<Path>, now: int, source: Path, target: Path, p: Path, rest: seq<Path>)
    requires IsPrefix(source, p) && Keep(source, p) && Inside(source, rest)
    requires CopyStep(fs, faults, now, source, target, p).Some?
    requires forall j :: 0 <= j < |rest| ==> rest[j] != p
    ensures var next := CopyStep(fs, faults, now, source, target, p).value;
      MirrorsEntry(fs, faults, now, CopyAll(next, faults, now, source, target, rest).fs, source, target, p)
  {
    var next := CopyStep(fs, faults, now, source, target, p).value;
    CopyStepEffect(fs, faults, now, source, target, p);
    CopyAllFrame(next, faults, now, source, target, rest);
    var m := Mirror(source, target, p);
    if Mirrored(source, target, rest, m) {
      var j :| 0 <= j < |rest| && m == Mirror(source, target, rest[j]);
      MirrorPrefix(source, target, p, rest[j]);
      MirrorPrefix(source, target, rest[j], p);
    }
  }

  /** A later path sees the source entry unchanged by the first path's copy. */
  lemma MirrorLaterKept(fs: Fs, faults: set<Path>, now: int, r: Fs, source: Path, target: Path, p: Path, q: Path)
    requires Disjoint(source, target) && IsPrefix(source, p) && IsPrefix(source, q)
    requires CopyStep(fs, faults, now, source, target, p).Some?
    requires MirrorsEntry(CopyStep(fs, faults, now, source, target, p).value, faults, now, r, source, target, q)
    ensures MirrorsEntry(fs, faults, now, r, source, target, q)
  {
    var next := CopyStep(fs, faults, now, source, target, p).value;
    CopyStepEffect(fs, faults, now, source, target, p);
    MirrorApart(source, target, q, p);
    assert q in fs <==> q in next;
  }

  /**
   * A copy into a separate tree that runs to the end mirrors every kept path: its target is a
   * directory when the path is one, and otherwise holds the path's bytes, whatever was there.
   */
  lemma {:induction false} CopyAllMirror(fs: Fs, faults: set<Path>, now: int, source: Path, target: Path, order: seq<Path>)
    requires Inside(source, order) && Distinct(order) && Disjoint(source, target)
    requires CopyAll(fs, faults, now, source, target, order).failure.None?
    ensures var r := CopyAll(fs, faults, now, source, target, order).fs;
      forall i :: 0 <= i < |order| && Keep(source, order[i]) ==>
        MirrorsEntry(fs, faults, now, r, source, target, order[i])
    decreases |order|
  {
    if order != [] {
      var p := order[0];
      var rest := order[1..];
      var next := CopyStep(fs, faults, now, source, target, p).value;
      var r := CopyAll(fs, faults, now, source, target, order).fs;
      assert r == CopyAll(next, faults, now, source, target, rest).fs;
      forall i, j | 0 <= i < j < |rest| ensures rest[i] != rest[j] {
        assert rest[i] == order[i + 1] && rest[j] == order[j + 1];
      }
      CopyAllMirror(next, faults, now, source, target, rest);
      forall i | 0 <= i < |order| && Keep(source, order[i])
        ensures MirrorsEntry(fs, faults, now, r, source, target, order[i])
      {
        if i == 0 {
          forall j | 0 <= j < |rest| ensures rest[j] != p {
            assert rest[j] == order[j + 1];
          }
          MirrorHeadKept(fs, faults, now, source, target, p, rest);
        } else {
          assert order[i] == rest[i - 1];
          MirrorLaterKept(fs, faults, now, r, source, target, p, order[i]);
        }
      }
    }
  }

  /**
   * An excluded path with no kept path below it is never created in the target: if its target was
   * absent before the copy, it is absent after.
   */
  lemma ExcludedNotCreated(fs: Fs, faults: set<Path>, now: int, source: Path, target: Path, order: seq<Path>, q: Path)
    requires Inside(source, order) && IsPrefix(source, q) && !Keep(source, q)
    requires forall i :: 0 <= i < |order| && Keep(source, order[i]) ==> !IsPrefix(q, order[i])
    requires Mirror(source, target, q) !in fs
    ensures Mirror(source, target, q) !in CopyAll(fs, faults, now, source, target, order).fs
  {
    var m := Mirror(source, target, q);
    CopyAllFrame(fs, faults, now, source, target, order);
    if m in CopyAll(fs, faults, now, source, target, order).fs {
      var i :| 0 <= i < |order| && Keep(source, order[i]) && IsPrefix(m, Mirror(source, target, order[i]));
      MirrorPrefix(source, target, order[i], q);
    }
  }

  /**
   * A path whose string holds "logs" or "tmp", or that is too deep or too long, never appears in
   * the target: no kept path lies below it.
   */
  lemma FilteredNeverCreated(fs: Fs, faults: set<Path>, now: int, source: Path, target: Path, order: seq<Path>, q: Path)
    requires Inside(source, order) && IsPrefix(source, q) && !(ContentTest(q) && WithinBounds(source, q))
    requires Mirror(source, target, q) !in fs
    ensures Mirror(source, target, q) !in CopyAll(fs, faults, now, source, target, order).fs
  {
    forall i | 0 <= i < |order| && Keep(source, order[i]) ensures !IsPrefix(q, order[i]) {
      if IsPrefix(q, order[i]) {
        KeepInherited(source, q, order[i]);
      }
    }
    ExcludedNotCreated(fs, faults, now, source, target, order, q);
  }

  /** A walk of the subtree at source stays under source. */
  lemma WalkInside(fs: Fs, source: Path, order: seq<Path>)
    requires Elements(order) == Under(fs, source)
    ensures Inside(source, order)
  {
    forall i | 0 <= i < |order| ensures IsPrefix(source, order[i]) {
      assert order[i] in Elements(order);
    }
  }

  /**
   * Moving the copy from temp to dest carries each copied entry along: what the target of p held
   * under temp, the target of p holds under dest.
   */
  lemma MirrorsAfterMove(fs: Fs, faults: set<Path>, now: int, r: Fs, moved: Fs, source: Path, temp: Path, dest: Path, p: Path)
    requires IsPrefix(source, p) && MirrorsEntry(fs, faults, now, r, source, temp, p)
    requires temp != dest ==> !IsPrefix(temp, dest) && RenamedFrom(moved, r - {dest}, temp, dest)
    requires temp == dest ==> moved == r
    ensures MirrorsEntry(fs, faults, now, moved, source, dest, p)
  {
    if temp != dest {
      var rel := Relativize(source, p);
      var k := dest + rel;
      assert k[|dest|..] == rel;
      assert (temp + rel)[..|temp|] == temp;
      assert temp + k[|dest|..] == Mirror(source, temp, p);
    }
  }

  /**
   * A complete copy of source into temp, then a move of temp to dest: every kept entry of source
   * ends up at its place under dest, a directory for a directory and the same bytes for a file.
   */
  lemma CopyThenMove(fs: Fs, faults: set<Path>, now: int, source: Path, temp: Path, dest: Path, walk: seq<Path>)
    requires WellFormed(fs) && WalkOrder(fs, source, walk) && Inside(source, walk) && Disjoint(source, temp)
    requires CopyDirectory(fs, faults, now, source, temp, walk).failure.None?
    requires Move(CopyDirectory(fs, faults, now, source, temp, walk).fs, faults, temp, dest).Some?
    ensures var moved := Move(CopyDirectory(fs, faults, now, source, temp, walk).fs, faults, temp, dest).value;
      forall p :: p in Under(fs, source) && Keep(source, p) ==> MirrorsEntry(fs, faults, now, moved, source, dest, p)
  {
    var r := CopyAll(fs, faults, now, source, temp, walk).fs;
    var moved := Move(r, faults, temp, dest).value;
    CopyAllFrame(fs, faults, now, source, temp, walk);
    CopyAllMirror(fs, faults, now, source, temp, walk);
    if temp != dest {
      MoveRenames(r, faults, temp, dest);
    }
    forall p | p in Under(fs, source) && Keep(source, p) ensures MirrorsEntry(fs, faults, now, moved, source, dest, p) {
      assert p in Elements(walk);
      var i :| 0 <= i < |walk| && walk[i] == p;
      MirrorsAfterMove(fs, faults, now, r, moved, source, temp, dest, p);
    }
  }
}
