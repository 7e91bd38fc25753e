/**
 * `deleteDirectory`: `Files.walk(root)` sorted by reverse `compareTo`, then `Files.delete` on each
 * path in turn; the first delete that throws is rethrown wrapped in a RuntimeException and the
 * remaining paths are left alone. `sorted` drains the whole walk before the first delete, so a
 * refused entry anywhere in the subtree stops the call before anything is deleted.
 */
module TreeRemove {
  import opened Wrappers
  import opened Paths
  import opened FileTree
  import opened Walks

  /** Strictly decreasing in `compareTo` order: what `sorted((a, b) -> b.compareTo(a))` yields. */
  predicate Descending(order: seq<Path>) {
    forall i, j :: 0 <= i < j < |order| ==> Precedes(order[j], order[i])
  }

  function Reverse(s: seq<Path>): (r: seq<Path>)
    ensures |r| == |s| && forall i :: 0 <= i < |s| ==> r[i] == s[|s| - 1 - i]
  {
    if s == [] then [] else Reverse(s[1..]) + [s[0]]
  }

  /** The order `deleteDirectory(root)` visits: the whole subtree, in reverse `compareTo` order. */
  predicate DeleteOrder(fs: Fs, root: Path, order: seq<Path>) {
    Elements(order) == Under(fs, root) && Descending(order)
  }

  /** Every child an entry has in `fs` comes before that entry in `order`. */
  predicate ChildrenFirst(fs: Fs, order: seq<Path>) {
    forall i, q :: 0 <= i < |order| && q in fs && IsChild(order[i], q) ==> q in order[..i]
  }

  /**
   * The `forEach`: delete each path in turn, stopping at the first failure. A run that gets to
   * the end has removed exactly the named entries.
   */
  function DeleteAll(fs: Fs, faults: set<Path>, order: seq<Path>): (r: Outcome)
    ensures r.failure.None? ==> r.fs == fs - Elements(order)
  {
    if order == [] then Outcome(fs, None)
    else
      assert Elements(order) == {order[0]} + Elements(order[1..]) by {
        assert order == [order[0]] + order[1..];
      }
      match DeleteEntry(fs, faults, order[0])
      case None => Outcome(fs, Some(Unchecked(order[0])))
      case Some(next) => DeleteAll(next, faults, order[1..])
  }

  /**
   * `deleteDirectory(root)`, with `walk` the order `Files.walk` visits and `order` that walk
   * sorted. The walk throws a checked exception when root does not exist or cannot be read, and
   * an unchecked one at the first refused entry; either way nothing has been deleted yet.
   */
  function DeleteDirectory(fs: Fs, faults: set<Path>, root: Path, walk: seq<Path>, order: seq<Path>): (r: Outcome)
    ensures Elements(walk) == Under(fs, root) && Under(fs, root) * faults != {} ==> r.fs == fs && r.failure.Some?
  {
    if !Exists(fs, faults, root) then Outcome(fs, Some(Checked(root)))
    else
      match FirstRefused(walk, faults)
      case Some(q) => Outcome(fs, Some(Unchecked(q)))
      case None => DeleteAll(fs, faults, order)
  }

  // ---------------------------------------------------------------------------------------------
  // Lemmas
  // ---------------------------------------------------------------------------------------------

  /** Deleting only removes entries, only ones named in `order`, and keeps the tree shape. */
  lemma {:induction false} DeleteAllRemoves(fs: Fs, faults: set<Path>, order: seq<Path>)
    ensures var r := DeleteAll(fs, faults, order);
      && (forall k :: k in r.fs ==> k in fs && r.fs[k] == fs[k])
      && (forall k :: k in fs && k !in r.fs ==> k in order)
      && (r.failure.Some? ==> r.failure.value.Unchecked? && r.failure.value.at in order)
      && (WellFormed(fs) ==> WellFormed(r.fs))
  {
    if order != [] {
      match DeleteEntry(fs, faults, order[0])
      case None =>
      case Some(next) =>
        if WellFormed(fs) {
          DeleteEntryKeepsShape(fs, faults, order[0]);
        }
        DeleteAllRemoves(next, faults, order[1..]);
    }
  }

  /** Sorting by the reversed comparator is reversing the ascending order. */
  lemma ReverseDescending(s: seq<Path>)
    requires Sorted(CompareTo, s)
    ensures Descending(Reverse(s)) && Elements(Reverse(s)) == Elements(s)
  {
    var r := Reverse(s);
    forall p | p in s ensures p in r {
      var i :| 0 <= i < |s| && s[i] == p;
      assert r[|s| - 1 - i] == p;
    }
  }

  /** Fail-fast composition: a run over `a + b` is the run over a, then, if that succeeded, over b. */
  lemma {:induction false} DeleteAllAppend(fs: Fs, faults: set<Path>, a: seq<Path>, b: seq<Path>)
    ensures DeleteAll(fs, faults, a + b) ==
      var o := DeleteAll(fs, faults, a);
      if o.failure.Some? then o else DeleteAll(o.fs, faults, b)
  {
    if a == [] {
      assert a + b == b;
    } else {
      assert (a + b)[0] == a[0] && (a + b)[1..] == a[1..] + b;
      match DeleteEntry(fs, faults, a[0])
      case None =>
      case Some(next) => DeleteAllAppend(next, faults, a[1..], b);
    }
  }

  /** Every entry of fs outside `done` is in r, unchanged. */
  predicate Untouched(fs: Fs, r: Fs, done: seq<Path>) {
    forall k :: k in fs && k !in done ==> k in r && r[k] == fs[k]
  }

  /**
   * When a delete fails, every entry not before the failing position in `order` is still there,
   * unchanged.
   */
  lemma {:induction false} DeleteAllStops(fs: Fs, faults: set<Path>, order: seq<Path>) returns (n: nat)
    requires DeleteAll(fs, faults, order).failure.Some?
    ensures var r := DeleteAll(fs, faults, order);
      n < |order| && order[n] == r.failure.value.at && Untouched(fs, r.fs, order[..n])
  {
    var r := DeleteAll(fs, faults, order);
    var first := DeleteEntry(fs, faults, order[0]);
    if first.None? {
      n := 0;
    } else {
      var next := first.value;
      var rest := order[1..];
      assert r == DeleteAll(next, faults, rest);
      var m := DeleteAllStops(next, faults, rest);
      n := m + 1;
      assert order[..n] == [order[0]] + rest[..m];
      forall k | k in fs && k !in order[..n] ensures k in r.fs && r.fs[k] == fs[k] {
        assert k != order[0] && k !in rest[..m];
      }
    }
  }

  /** The first delete of a children-first order succeeds, and what remains is children-first again. */
  lemma CleanStep(fs: Fs, faults: set<Path>, order: seq<Path>)
    requires order != [] && ChildrenFirst(fs, order) && Distinct(order)
    requires order[0] in fs && order[0] !in faults
    ensures !HasChildren(fs, order[0])
    ensures DeleteEntry(fs, faults, order[0]) == Some(fs - {order[0]})
    ensures ChildrenFirst(fs - {order[0]}, order[1..]) && Distinct(order[1..])
    ensures Elements(order) == {order[0]} + Elements(order[1..])
  {
    var p := order[0];
    var rest := order[1..];
    assert order == [p] + rest;
    forall q | q in fs ensures !IsChild(p, q) {
      assert order[..0] == [];
    }
    forall i, q | 0 <= i < |rest| && q in fs - {p} && IsChild(rest[i], q)
      ensures q in rest[..i]
    {
      assert q in order[..i + 1];
      assert order[..i + 1] == [p] + rest[..i];
    }
    forall i, j | 0 <= i < j < |rest| ensures rest[i] != rest[j] {
      assert rest[i] == order[i + 1] && rest[j] == order[j + 1];
    }
  }

  /**
   * With every child deleted before its parent and nothing refused, every delete succeeds and
   * exactly the named entries are gone.
   */
  lemma {:induction false} DeleteAllClean(fs: Fs, faults: set<Path>, order: seq<Path>)
    requires ChildrenFirst(fs, order) && Distinct(order)
    requires forall i :: 0 <= i < |order| ==> order[i] in fs && order[i] !in faults
    ensures DeleteAll(fs, faults, order) == Outcome(fs - Elements(order), None)
  {
    if order == [] {
      assert fs - Elements(order) == fs;
    } else {
      var p := order[0];
      var rest := order[1..];
      CleanStep(fs, faults, order);
      var next := fs - {p};
      forall i | 0 <= i < |rest| ensures rest[i] in next && rest[i] !in faults {
        assert rest[i] == order[i + 1];
      }
      DeleteAllClean(next, faults, rest);
      assert next - Elements(rest) == fs - Elements(order);
    }
  }

  /** Reverse `compareTo` order of a whole subtree puts every child before its parent. */
  lemma DescendingChildrenFirst(fs: Fs, root: Path, order: seq<Path>)
    requires DeleteOrder(fs, root, order)
    ensures ChildrenFirst(fs, order) && Distinct(order)
  {
    forall i, j | 0 <= i < j < |order| ensures order[i] != order[j] {
      PrecedesAsymmetric(order[j], order[i]);
    }
    forall i, q | 0 <= i < |order| && q in fs && IsChild(order[i], q)
      ensures q in order[..i]
    {
      var p := order[i];
      assert p in Elements(order);
      assert q[..|root|] == q[..|p|][..|root|];
      assert q in Under(fs, root);
      assert q in Elements(order);
      var j :| 0 <= j < |order| && order[j] == q;
      AncestorPrecedes(p, q);
      if j > i {
        PrecedesAsymmetric(p, q);
      } else if j == i {
        PrecedesAsymmetric(p, q);
      }
      assert order[..i][j] == q;
    }
  }

  /**
   * deleteDirectory is all or nothing: it removes exactly the subtree at root when that exists
   * and holds no refused entry, and otherwise deletes nothing and fails, at the first refused
   * entry when root itself could be read.
   */
  lemma DeleteDirectoryRemovesSubtree(fs: Fs, faults: set<Path>, root: Path, walk: seq<Path>, order: seq<Path>)
    requires WellFormed(fs) && Elements(walk) == Under(fs, root) && DeleteOrder(fs, root, order)
    ensures var r := DeleteDirectory(fs, faults, root, walk, order);
      && (r.failure.None? <==> root in fs && Under(fs, root) * faults == {})
      && (r.failure.None? ==> r.fs == fs - Under(fs, root))
      && (r.failure.Some? ==> r.fs == fs)
      && (r.failure.Some? && Exists(fs, faults, root) ==>
            r.failure.value.Unchecked? && r.failure.value.at in faults && IsPrefix(root, r.failure.value.at))
      && WellFormed(r.fs)
  {
    if root in fs {
      assert root[..|root|] == root;
      assert root in Under(fs, root);
      if root in faults {
        assert root in Under(fs, root) * faults;
      }
    }
    var q := FirstRefused(walk, faults);
    if q.Some? {
      assert q.value in Elements(walk);
    }
    if Exists(fs, faults, root) && Under(fs, root) * faults == {} {
      DescendingChildrenFirst(fs, root, order);
      forall i | 0 <= i < |order| ensures order[i] in fs && order[i] !in faults {
        assert order[i] in Elements(order);
        assert order[i] !in Under(fs, root) * faults;
      }
      DeleteAllClean(fs, faults, order);
      DeleteAllRemoves(fs, faults, order);
    }
  }
}
