/**
 * `Files.walk(root)`: the subtree at root, visited depth first, each directory before what it
 * contains and each subtree finished before the walk moves on. The walk reads the attributes of
 * every entry it reaches, so it throws (an UncheckedIOException from the stream) at the first
 * entry that is refused.
 */
module Walks {
  import opened Wrappers
  import opened Paths
  import opened FileTree

  /** The paths of a sequence, as a set. */
  function Elements(s: seq<Path>): set<Path> {
    set p | p in s
  }

  predicate Distinct(s: seq<Path>) {
    forall i, j :: 0 <= i < j < |s| ==> s[i] != s[j]
  }

  /** Strictly increasing in the given order. */
  predicate Sorted(o: Ordering, s: seq<Path>) {
    forall i, j :: 0 <= i < j < |s| ==> Before(o, s[i], s[j])
  }

  /**
   * An order `Files.walk(root)` may produce: the whole subtree, once each, every directory before
   * what it contains, and nothing from outside a directory between it and its contents.
   */
  predicate WalkOrder(fs: Fs, root: Path, order: seq<Path>) {
    && Elements(order) == Under(fs, root)
    && Distinct(order)
    && (forall i, j :: 0 <= i < |order| && 0 <= j < |order| && i != j && IsPrefix(order[i], order[j]) ==> i < j)
    && (forall i, j, k :: 0 <= i < j < k < |order| && IsPrefix(order[i], order[k]) ==> IsPrefix(order[i], order[j]))
  }

  /** A strictly sorted sequence holds no path twice. */
  lemma SortedDistinct(o: Ordering, s: seq<Path>)
    requires Sorted(o, s)
    ensures Distinct(s)
  {
    forall i, j | 0 <= i < j < |s| ensures s[i] != s[j] {
      BeforeAsymmetric(o, s[i], s[j]);
    }
  }

  /** Where the walk throws: the first walked path that is refused, if any. */
  function FirstRefused(walk: seq<Path>, faults: set<Path>): (r: Option<Path>)
    ensures r.None? <==> Elements(walk) * faults == {}
    ensures r.Some? ==> r.value in faults && r.value in walk
  {
    if walk == [] then None
    else
      assert Elements(walk) == {walk[0]} + Elements(walk[1..]) by {
        assert walk == [walk[0]] + walk[1..];
      }
      if walk[0] in faults then
        assert walk[0] in Elements(walk) * faults;
        Some(walk[0])
      else FirstRefused(walk[1..], faults)
  }

  /** The subtree sorted in the depth-first order is an order `Files.walk` may produce. */
  lemma DepthFirstIsWalkOrder(fs: Fs, root: Path, order: seq<Path>)
    requires Elements(order) == Under(fs, root) && Sorted(DepthFirst, order)
    ensures WalkOrder(fs, root, order)
  {
    SortedDistinct(DepthFirst, order);
    forall i, j | 0 <= i < |order| && 0 <= j < |order| && i != j && IsPrefix(order[i], order[j])
      ensures i < j
    {
      AncestorWalkPrecedes(order[i], order[j]);
      if j < i {
        WalkPrecedesAsymmetric(order[j], order[i]);
      }
    }
    forall i, j, k | 0 <= i < j < k < |order| && IsPrefix(order[i], order[k])
      ensures IsPrefix(order[i], order[j])
    {
      WalkContiguous(order[i], order[j], order[k]);
    }
  }
}
