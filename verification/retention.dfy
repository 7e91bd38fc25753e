/**
 * The selection half of `limitBackups`: the backup directories of one category, stamped with
 * their last-modified time (0 when it cannot be read), sorted by that time with a stable sort
 * (equal times keep the listing order), and the head of that list dropped until at most
 * `maxBackups` remain.
 */
module Retention {
  import opened Wrappers
  import opened Paths
  import opened FileTree
  import opened Walks

  /** `MAX_BACKUPS`: how many automatic backups are kept. */
  const MaxBackups: nat := 5

  /** A listed backup directory and the time it is sorted by. */
  datatype Stamped = Stamped(path: Path, time: int)

  /** `Files.getLastModifiedTime(p)` as the comparator reads it: 0 when it cannot be read. */
  function LastModified(fs: Fs, faults: set<Path>, p: Path): int {
    if p in fs && p !in faults then fs[p].mtime.GetOr(0) else 0
  }

  /** The listing with each path's sort key. */
  function StampAll(fs: Fs, faults: set<Path>, listing: seq<Path>): (r: seq<Stamped>)
    ensures |r| == |listing|
    ensures forall i :: 0 <= i < |r| ==> r[i].path == listing[i]
  {
    seq(|listing|, i requires 0 <= i < |listing| => Stamped(listing[i], LastModified(fs, faults, listing[i])))
  }

  predicate SortedByTime(s: seq<Stamped>) {
    forall i, j :: 0 <= i < j < |s| ==> s[i].time <= s[j].time
  }

  /** x placed before the first element whose time is not smaller: ahead of its equals. */
  function Insert(x: Stamped, s: seq<Stamped>): seq<Stamped> {
    if s == [] || x.time <= s[0].time then [x] + s else [s[0]] + Insert(x, s[1..])
  }

  /**
   * A stable sort by time (the listing is sorted from the back, each element going before its
   * equals): the result is ordered by time and only reorders the listing.
   */
  function SortByTime(s: seq<Stamped>): (r: seq<Stamped>)
    ensures SortedByTime(r) && multiset(r) == multiset(s)
  {
    if s == [] then []
    else
      InsertSorted(s[0], SortByTime(s[1..]));
      assert s == [s[0]] + s[1..];
      Insert(s[0], SortByTime(s[1..]))
  }

  /** The entries of s with time t, in their order in s. */
  function WithTime(s: seq<Stamped>, t: int): seq<Stamped> {
    if s == [] then [] else (if s[0].time == t then [s[0]] else []) + WithTime(s[1..], t)
  }

  /** The head of the sorted list that the `while` loop deletes. */
  function Victims(sorted: seq<Stamped>, max: nat): (r: seq<Stamped>)
    ensures |r| == if |sorted| > max then |sorted| - max else 0
    ensures r == sorted[..|r|]
  {
    if |sorted| > max then sorted[..|sorted| - max] else []
  }

  /** What the loop leaves. */
  function Survivors(sorted: seq<Stamped>, max: nat): seq<Stamped> {
    sorted[|Victims(sorted, max)|..]
  }

  function PathsOf(s: seq<Stamped>): (r: seq<Path>)
    ensures |r| == |s| && forall i :: 0 <= i < |s| ==> r[i] == s[i].path
  {
    seq(|s|, i requires 0 <= i < |s| => s[i].path)
  }

  // ---------------------------------------------------------------------------------------------
  // The sort
  // ---------------------------------------------------------------------------------------------

  /** Inserting adds exactly x. */
  lemma {:induction false} InsertPermutes(x: Stamped, s: seq<Stamped>)
    ensures multiset(Insert(x, s)) == multiset(s) + multiset{x}
  {
    if s != [] && x.time > s[0].time {
      InsertPermutes(x, s[1..]);
      assert s == [s[0]] + s[1..];
    }
  }

  lemma {:induction false} InsertSorted(x: Stamped, s: seq<Stamped>)
    requires SortedByTime(s)
    ensures SortedByTime(Insert(x, s))
    ensures multiset(Insert(x, s)) == multiset(s) + multiset{x}
  {
    InsertPermutes(x, s);
    if s != [] && x.time > s[0].time {
      var tail := s[1..];
      InsertSorted(x, tail);
      var r := Insert(x, tail);
      InsertPermutes(x, tail);
      forall i | 0 <= i < |r| ensures s[0].time <= r[i].time {
        assert r[i] in multiset(tail) + multiset{x};
        if r[i] != x {
          assert r[i] in tail;
          var k :| 0 <= k < |tail| && tail[k] == r[i];
          assert tail[k] == s[k + 1];
        }
      }
      assert Insert(x, s) == [s[0]] + r;
    }
  }

  lemma {:induction false} InsertWithTime(x: Stamped, s: seq<Stamped>, t: int)
    ensures WithTime(Insert(x, s), t) == (if x.time == t then [x] else []) + WithTime(s, t)
  {
    var mine: seq<Stamped> := if x.time == t then [x] else [];
    if s == [] || x.time <= s[0].time {
      assert ([x] + s)[1..] == s;
    } else {
      var r := Insert(x, s[1..]);
      InsertWithTime(x, s[1..], t);
      var head: seq<Stamped> := if s[0].time == t then [s[0]] else [];
      assert ([s[0]] + r)[0] == s[0] && ([s[0]] + r)[1..] == r;
      assert WithTime(Insert(x, s), t) == head + WithTime(r, t);
      assert WithTime(s, t) == head + WithTime(s[1..], t);
      if x.time == t {
        assert head == [];
      } else {
        assert mine == [];
      }
    }
  }

  /** The sort is stable: entries with equal times keep the order the listing gave them. */
  lemma {:induction false} SortByTimeStable(s: seq<Stamped>, t: int)
    ensures WithTime(SortByTime(s), t) == WithTime(s, t)
  {
    if s != [] {
      SortByTimeStable(s[1..], t);
      InsertWithTime(s[0], SortByTime(s[1..]), t);
    }
  }

  // ---------------------------------------------------------------------------------------------
  // The loop
  // ---------------------------------------------------------------------------------------------

  /** At most `max` remain, and exactly `max` when there were more. */
  lemma SurvivorsCount(sorted: seq<Stamped>, max: nat)
    ensures |Survivors(sorted, max)| == if |sorted| < max then |sorted| else max
    ensures Victims(sorted, max) + Survivors(sorted, max) == sorted
  {
  }

  /** The deleted backups are the oldest: none is newer than any that stays. */
  lemma VictimsOldest(sorted: seq<Stamped>, max: nat)
    requires SortedByTime(sorted)
    ensures forall v, k :: v in Victims(sorted, max) && k in Survivors(sorted, max) ==> v.time <= k.time
  {
    var n := |Victims(sorted, max)|;
    forall v, k | v in Victims(sorted, max) && k in Survivors(sorted, max) ensures v.time <= k.time {
      var i :| 0 <= i < n && sorted[i] == v;
      var rest := Survivors(sorted, max);
      var j :| 0 <= j < |rest| && rest[j] == k;
      assert rest[j] == sorted[n + j];
    }
  }

  /** Nothing is deleted from a folder already within the limit, so a second run deletes nothing. */
  lemma RetentionIdempotent(sorted: seq<Stamped>, max: nat)
    ensures Victims(Survivors(sorted, max), max) == []
    ensures Survivors(Survivors(sorted, max), max) == Survivors(sorted, max)
  {
  }

  // ---------------------------------------------------------------------------------------------
  // The folder after the loop
  // ---------------------------------------------------------------------------------------------

  /** k is one of the victims or lies inside one. */
  predicate UnderSome(victims: seq<Path>, k: Path) {
    exists j :: 0 <= j < |victims| && IsPrefix(victims[j], k)
  }

  /** The file system with the subtree of every victim removed. */
  function Pruned(fs: Fs, victims: seq<Path>): Fs {
    map k | k in fs && !UnderSome(victims, k) :: fs[k]
  }

  /** A path under one of the first n victims is under one of them all. */
  lemma UnderSomePrefix(victims: seq<Path>, n: nat, k: Path)
    requires n <= |victims| && UnderSome(victims[..n], k)
    ensures UnderSome(victims, k)
  {
    var j :| 0 <= j < n && IsPrefix(victims[..n][j], k);
    assert victims[..n][j] == victims[j];
  }

  /**
   * A file system got from fs by pruning the first n victims and then removing some entries
   * under the next one only lost entries, all under victims.
   */
  lemma PrunedPartly(fs: Fs, victims: seq<Path>, n: nat, r: Fs)
    requires n <= |victims|
    requires forall k :: k in r ==> k in Pruned(fs, victims[..n]) && r[k] == fs[k]
    requires n < |victims| ==> forall k :: k in Pruned(fs, victims[..n]) && k !in r ==> IsPrefix(victims[n], k)
    requires n == |victims| ==> r == Pruned(fs, victims[..n])
    ensures forall k :: k in r ==> k in fs && r[k] == fs[k]
    ensures forall k :: k in fs && k !in r ==> UnderSome(victims, k)
  {
    forall k | k in fs && k !in r ensures UnderSome(victims, k) {
      if k in Pruned(fs, victims[..n]) {
        assert IsPrefix(victims[n], k);
      } else {
        UnderSomePrefix(victims, n, k);
      }
    }
  }

  /** Only directories are victims, so an entry of the folder that is not a directory is kept. */
  lemma PrunedKeepsOtherEntries(fs: Fs, faults: set<Path>, dir: Path, victims: seq<Path>, k: Path)
    requires forall v :: v in victims ==> v in DirectoryChildren(fs, faults, dir)
    requires IsChild(dir, k) && !IsDirectory(fs, faults, k)
    ensures !UnderSome(victims, k)
  {
    forall j | 0 <= j < |victims| ensures !IsPrefix(victims[j], k) {
      var v := victims[j];
      assert v in victims;
      assert v != k && |v| == |k|;
      assert k[..|v|] == k;
    }
  }

  /** Removing one more victim's subtree. */
  lemma PrunedStep(fs: Fs, victims: seq<Path>, n: nat)
    requires n < |victims|
    ensures Pruned(fs, victims[..n + 1]) == Pruned(fs, victims[..n]) - Under(Pruned(fs, victims[..n]), victims[n])
  {
    var a, b := victims[..n], victims[..n + 1];
    forall k ensures UnderSome(b, k) <==> UnderSome(a, k) || IsPrefix(victims[n], k) {
      if UnderSome(b, k) {
        var j :| 0 <= j < |b| && IsPrefix(b[j], k);
        if j < n {
          assert a[j] == b[j];
        }
      }
      if UnderSome(a, k) {
        var j :| 0 <= j < |a| && IsPrefix(a[j], k);
        assert b[j] == a[j];
      }
      if IsPrefix(victims[n], k) {
        assert b[n] == victims[n];
      }
    }
  }

  /** Sorting keeps the set of listed paths. */
  lemma {:induction false} SortKeepsPaths(s: seq<Stamped>)
    ensures Elements(PathsOf(SortByTime(s))) == Elements(PathsOf(s))
  {
    if s != [] {
      SortKeepsPaths(s[1..]);
      InsertKeepsPaths(s[0], SortByTime(s[1..]));
      assert PathsOf(s) == [s[0].path] + PathsOf(s[1..]);
      ElementsAppend([s[0].path], PathsOf(s[1..]));
    }
  }

  lemma {:induction false} InsertKeepsPaths(x: Stamped, s: seq<Stamped>)
    ensures Elements(PathsOf(Insert(x, s))) == {x.path} + Elements(PathsOf(s))
  {
    if s == [] || x.time <= s[0].time {
      assert PathsOf([x] + s) == [x.path] + PathsOf(s);
      ElementsAppend([x.path], PathsOf(s));
    } else {
      InsertKeepsPaths(x, s[1..]);
      assert PathsOf([s[0]] + Insert(x, s[1..])) == [s[0].path] + PathsOf(Insert(x, s[1..]));
      ElementsAppend([s[0].path], PathsOf(Insert(x, s[1..])));
      assert PathsOf(s) == [s[0].path] + PathsOf(s[1..]);
      ElementsAppend([s[0].path], PathsOf(s[1..]));
    }
  }

  lemma ElementsAppend(a: seq<Path>, b: seq<Path>)
    ensures Elements(a + b) == Elements(a) + Elements(b)
  {
  }

  lemma {:induction false} ElementsBound(s: seq<Path>)
    ensures |Elements(s)| <= |s|
  {
    if s != [] {
      ElementsBound(s[1..]);
      assert s == [s[0]] + s[1..];
      ElementsAppend([s[0]], s[1..]);
      assert Elements([s[0]]) == {s[0]};
      if s[0] in Elements(s[1..]) {
        assert Elements(s) == Elements(s[1..]);
      } else {
        assert {s[0]} * Elements(s[1..]) == {};
      }
    }
  }

  lemma SubsetBound(a: set<Path>, b: set<Path>)
    requires a <= b
    ensures |a| <= |b|
  {
    assert b == a + (b - a);
  }

  /** Removing entries, and changing none, never adds to a folder's listing. */
  lemma ChildrenShrink(before: Fs, after: Fs, faults: set<Path>, dir: Path)
    requires forall k :: k in after ==> k in before && after[k] == before[k]
    ensures DirectoryChildren(after, faults, dir) <= DirectoryChildren(before, faults, dir)
    ensures |DirectoryChildren(after, faults, dir)| <= |DirectoryChildren(before, faults, dir)|
  {
    SubsetBound(DirectoryChildren(after, faults, dir), DirectoryChildren(before, faults, dir));
  }

  /** Pruning children of `dir` takes exactly them out of its listing. */
  lemma PrunedChildren(fs: Fs, faults: set<Path>, dir: Path, victims: seq<Path>)
    requires forall v :: v in victims ==> IsChild(dir, v)
    ensures DirectoryChildren(Pruned(fs, victims), faults, dir) == DirectoryChildren(fs, faults, dir) - Elements(victims)
  {
    var after := DirectoryChildren(Pruned(fs, victims), faults, dir);
    forall c | c in DirectoryChildren(fs, faults, dir) ensures c in after <==> c !in Elements(victims) {
      if UnderSome(victims, c) {
        var j :| 0 <= j < |victims| && IsPrefix(victims[j], c);
        assert IsChild(dir, victims[j]);
        assert c == c[..|victims[j]|] == victims[j];
      }
      if c in victims {
        var j :| 0 <= j < |victims| && victims[j] == c;
        assert IsPrefix(victims[j], c);
      }
    }
  }

  lemma PathsOfAppend(a: seq<Stamped>, b: seq<Stamped>)
    ensures PathsOf(a + b) == PathsOf(a) + PathsOf(b)
  {
  }

  /** The victims and the survivors together are the listing. */
  lemma VictimsAndSurvivors(stamped: seq<Stamped>, max: nat)
    ensures var sorted := SortByTime(stamped);
      Elements(PathsOf(stamped)) == Elements(PathsOf(Victims(sorted, max))) + Elements(PathsOf(Survivors(sorted, max)))
  {
    var sorted := SortByTime(stamped);
    var v, s := Victims(sorted, max), Survivors(sorted, max);
    SortKeepsPaths(stamped);
    SurvivorsCount(sorted, max);
    PathsOfAppend(v, s);
    ElementsAppend(PathsOf(v), PathsOf(s));
  }

  /** Every victim is one of the listed directories. */
  lemma VictimsAreListed(fs: Fs, faults: set<Path>, dir: Path, listing: seq<Path>, max: nat)
    requires Elements(listing) == DirectoryChildren(fs, faults, dir)
    ensures forall v :: v in PathsOf(Victims(SortByTime(StampAll(fs, faults, listing)), max)) ==> v in DirectoryChildren(fs, faults, dir)
  {
    var stamped := StampAll(fs, faults, listing);
    assert PathsOf(stamped) == listing;
    VictimsAndSurvivors(stamped, max);
    forall v | v in PathsOf(Victims(SortByTime(stamped), max)) ensures v in DirectoryChildren(fs, faults, dir) {
      assert v in Elements(PathsOf(Victims(SortByTime(stamped), max)));
    }
  }

  /**
   * After the loop has deleted every victim, the folder holds the directories it held minus the
   * victims, and so at most `max` of them.
   */
  lemma PrunedFolder(fs: Fs, faults: set<Path>, dir: Path, listing: seq<Path>, max: nat)
    requires Elements(listing) == DirectoryChildren(fs, faults, dir)
    ensures var victims := PathsOf(Victims(SortByTime(StampAll(fs, faults, listing)), max));
      && DirectoryChildren(Pruned(fs, victims), faults, dir) == DirectoryChildren(fs, faults, dir) - Elements(victims)
      && |DirectoryChildren(Pruned(fs, victims), faults, dir)| <= max
  {
    var stamped := StampAll(fs, faults, listing);
    var sorted := SortByTime(stamped);
    var victims := PathsOf(Victims(sorted, max));
    var survivors := PathsOf(Survivors(sorted, max));
    var children := DirectoryChildren(fs, faults, dir);
    assert PathsOf(stamped) == listing;
    VictimsAndSurvivors(stamped, max);
    assert children == Elements(victims) + Elements(survivors);
    forall v | v in victims ensures IsChild(dir, v) {
      assert v in Elements(victims);
    }
    PrunedChildren(fs, faults, dir, victims);
    var after := DirectoryChildren(Pruned(fs, victims), faults, dir);
    assert after <= Elements(survivors);
    SubsetBound(after, Elements(survivors));
    ElementsBound(survivors);
    SurvivorsCount(sorted, max);
  }

  // ---------------------------------------------------------------------------------------------
  // A deletion that fails
  // ---------------------------------------------------------------------------------------------

  /** Some entry of the subtree at v is refused, so deleting v fails before it deletes anything. */
  predicate Blocked(fs: Fs, faults: set<Path>, v: Path) {
    Under(fs, v) * faults != {}
  }

  /** How many victims the loop deletes before it meets a blocked one. */
  function FirstBlocked(fs: Fs, faults: set<Path>, victims: seq<Path>): (n: nat)
    ensures n <= |victims|
    ensures forall j :: 0 <= j < n ==> !Blocked(fs, faults, victims[j])
    ensures n < |victims| ==> Blocked(fs, faults, victims[n])
  {
    if victims == [] || Blocked(fs, faults, victims[0]) then 0
    else 1 + FirstBlocked(fs, faults, victims[1..])
  }

  /** A non-empty sequence holds no path twice when its head is not in its tail and its tail has none twice. */
  lemma DistinctCons(s: seq<Path>)
    requires s != []
    ensures Distinct(s) <==> s[0] !in s[1..] && Distinct(s[1..])
  {
    var t := s[1..];
    if Distinct(s) {
      forall j | 0 <= j < |t| ensures t[j] != s[0] {
        assert t[j] == s[j + 1];
      }
      forall i, j | 0 <= i < j < |t| ensures t[i] != t[j] {
        assert t[i] == s[i + 1] && t[j] == s[j + 1];
      }
    }
    if s[0] !in t && Distinct(t) {
      forall i, j | 0 <= i < j < |s| ensures s[i] != s[j] {
        assert s[j] == t[j - 1];
        if i > 0 {
          assert s[i] == t[i - 1];
        }
      }
    }
  }

  /** A sequence holds no path twice exactly when it has as many distinct paths as positions. */
  lemma {:induction false} DistinctCount(s: seq<Path>)
    ensures Distinct(s) <==> |Elements(s)| == |s|
  {
    if s != [] {
      var t := s[1..];
      DistinctCount(t);
      DistinctCons(s);
      assert s == [s[0]] + t;
      ElementsAppend([s[0]], t);
      assert Elements([s[0]]) == {s[0]};
      if s[0] in t {
        assert Elements(s) == Elements(t);
        ElementsBound(t);
      } else {
        assert {s[0]} * Elements(t) == {};
      }
    }
  }

  /** A listing with no repeated directory yields victims with none repeated. */
  lemma VictimsDistinct(fs: Fs, faults: set<Path>, listing: seq<Path>, max: nat)
    requires Distinct(listing)
    ensures Distinct(PathsOf(Victims(SortByTime(StampAll(fs, faults, listing)), max)))
  {
    var stamped := StampAll(fs, faults, listing);
    var sorted := SortByTime(stamped);
    assert PathsOf(stamped) == listing;
    SortKeepsPaths(stamped);
    assert |sorted| == |multiset(sorted)| == |multiset(stamped)| == |listing|;
    DistinctCount(listing);
    DistinctCount(PathsOf(sorted));
    var victims := PathsOf(Victims(sorted, max));
    forall i, j | 0 <= i < j < |victims| ensures victims[i] != victims[j] {
      assert victims[i] == PathsOf(sorted)[i] && victims[j] == PathsOf(sorted)[j];
    }
  }

  /**
   * Distinct directories of one folder do not nest, so pruning the first n victims leaves the
   * subtree of the next one exactly as it was.
   */
  lemma PrunedSiblings(fs: Fs, faults: set<Path>, dir: Path, victims: seq<Path>, n: nat)
    requires n < |victims| && Distinct(victims)
    requires forall v :: v in victims ==> v in DirectoryChildren(fs, faults, dir)
    ensures Under(Pruned(fs, victims[..n]), victims[n]) == Under(fs, victims[n])
    ensures forall k :: k in Under(fs, victims[n]) ==> Pruned(fs, victims[..n])[k] == fs[k]
    ensures Exists(Pruned(fs, victims[..n]), faults, victims[n])
  {
    var v := victims[n];
    assert v in victims;
    forall j, k | 0 <= j < n && IsPrefix(v, k) ensures !IsPrefix(victims[..n][j], k) {
      var w := victims[j];
      assert victims[..n][j] == w && w in victims && w != v;
      assert |w| == |v| && k[..|v|] == v;
    }
    assert v[..|v|] == v;
  }

  /**
   * What `limitBackups` knows before its loop: a listing without repeats counts the folder's
   * directories, and its victims are distinct directories of the folder, strictly inside it, that
   * never cover a regular file of the folder; a folder within the limit has no victims.
   */
  lemma ListingFacts(fs: Fs, faults: set<Path>, dir: Path, listing: seq<Path>, max: nat)
    requires Elements(listing) == DirectoryChildren(fs, faults, dir) && Distinct(listing)
    ensures var victims := PathsOf(Victims(SortByTime(StampAll(fs, faults, listing)), max));
      && |listing| == |DirectoryChildren(fs, faults, dir)|
      && Distinct(victims)
      && (forall v :: v in victims ==> v in DirectoryChildren(fs, faults, dir))
      && (forall k :: k in fs && IsChild(dir, k) && !IsDirectory(fs, faults, k) ==> !UnderSome(victims, k))
      && (forall k :: UnderSome(victims, k) ==> IsPrefix(dir, k) && k != dir)
      && (|listing| <= max ==> victims == [])
  {
    var backups := SortByTime(StampAll(fs, faults, listing));
    assert |backups| == |multiset(backups)| == |listing|;
    var victims := PathsOf(Victims(backups, max));
    DistinctCount(listing);
    VictimsAreListed(fs, faults, dir, listing, max);
    VictimsDistinct(fs, faults, listing, max);
    forall k | k in fs && IsChild(dir, k) && !IsDirectory(fs, faults, k) ensures !UnderSome(victims, k) {
      PrunedKeepsOtherEntries(fs, faults, dir, victims, k);
    }
    forall k | UnderSome(victims, k) ensures IsPrefix(dir, k) && k != dir {
      var j :| 0 <= j < |victims| && IsPrefix(victims[j], k);
      assert victims[j] in victims;
      assert k[..|dir|] == victims[j][..|dir|];
    }
  }
}
