/**
 * The file system as a value: a map from absolute path to node, and the java.nio.file.Files
 * primitives the backup engine calls, each as a function that gives the new map or None when the
 * primitive throws. `faults` is the set of paths on which the operating system refuses every
 * operation (permissions, a vanished device, ...): a primitive touching one of them throws, and
 * the queries `exists` and `isDirectory` answer false for them, as they do on an IOException.
 */
module FileTree {
  import opened Wrappers
  import opened Paths

  /** A node, with its last-modified time in milliseconds (None: the attribute cannot be read). */
  datatype Entry = Dir(mtime: Option<int>) | File(data: seq<bv8>, mtime: Option<int>)

  type Fs = map<Path, Entry>

  /**
   * Why a run stopped, and where: a checked IOException, or an unchecked exception (the
   * RuntimeException that a `forEach` body wraps around an IOException).
   */
  datatype Failure = Checked(at: Path) | Unchecked(at: Path)

  /** The file system after a run of primitives, and the failure that stopped it, if any. */
  datatype Outcome = Outcome(fs: Fs, failure: Option<Failure>)

  /** The tree shape: every entry other than the root sits in a directory. */
  predicate WellFormed(fs: Fs) {
    forall p :: p in fs && p != [] ==> Parent(p) in fs && fs[Parent(p)].Dir?
  }

  // ---------------------------------------------------------------------------------------------
  // Queries
  // ---------------------------------------------------------------------------------------------

  /** `Files.exists(p)`. */
  predicate Exists(fs: Fs, faults: set<Path>, p: Path) {
    p in fs && p !in faults
  }

  /** `Files.isDirectory(p)`. */
  predicate IsDirectory(fs: Fs, faults: set<Path>, p: Path) {
    p in fs && p !in faults && fs[p].Dir?
  }

  predicate HasChildren(fs: Fs, p: Path) {
    exists q :: q in fs && IsChild(p, q)
  }

  /** Every entry at or below `root`: what `Files.walk(root)` visits. */
  function Under(fs: Fs, root: Path): set<Path> {
    set p | p in fs && IsPrefix(root, p)
  }

  /** `Files.list(dir).filter(Files::isDirectory)`, as a set. */
  function DirectoryChildren(fs: Fs, faults: set<Path>, dir: Path): set<Path> {
    set q | q in fs && IsChild(dir, q) && IsDirectory(fs, faults, q)
  }

  // ---------------------------------------------------------------------------------------------
  // Primitives
  // ---------------------------------------------------------------------------------------------

  /**
   * `Files.createDirectories(t)`: creates every missing directory on the way to t, stamped `now`.
   * Fails when t or a missing ancestor is refused, or when the walk up meets a regular file.
   */
  function CreateDirectories(fs: Fs, faults: set<Path>, now: int, t: Path): (r: Option<Fs>)
    ensures r.Some? ==> t in r.value && r.value[t].Dir?
    ensures r.Some? ==> forall k :: k in fs ==> k in r.value && r.value[k] == fs[k]
    ensures r.Some? ==> forall k :: k in r.value && k !in fs ==> IsPrefix(k, t) && r.value[k] == Dir(Some(now))
    ensures r.Some? && WellFormed(fs) ==> WellFormed(r.value)
    decreases |t|
  {
    if t in faults then None
    else if t in fs then (if fs[t].Dir? then Some(fs) else None)
    else if t == [] then Some(fs[t := Dir(Some(now))])
    else
      match CreateDirectories(fs, faults, now, Parent(t))
      case None => None
      case Some(up) => Some(up[t := Dir(Some(now))])
  }

  /** `Files.createDirectory(p)` (and `createTempDirectory` once it has chosen the name p). */
  function CreateDirectory(fs: Fs, faults: set<Path>, now: int, p: Path): Option<Fs> {
    if p in faults || p in fs || p == [] || !IsDirectory(fs, faults, Parent(p)) then None
    else Some(fs[p := Dir(Some(now))])
  }

  /**
   * `Files.copy(src, t, REPLACE_EXISTING)`: t's parent must be a directory, and an existing
   * directory at t is replaced only when empty. Attributes are not copied: the copy is stamped
   * `now`. Copying a directory creates an empty one.
   */
  function CopyFile(fs: Fs, faults: set<Path>, now: int, src: Path, t: Path): Option<Fs> {
    if src in faults || t in faults || src !in fs then None
    else if t == [] || !(Parent(t) in fs && fs[Parent(t)].Dir?) then None
    else if t in fs && fs[t].Dir? && HasChildren(fs, t) then None
    else Some(fs[t := if fs[src].File? then File(fs[src].data, Some(now)) else Dir(Some(now))])
  }

  /** `Files.delete(p)`: p must exist and, if a directory, be empty. */
  function DeleteEntry(fs: Fs, faults: set<Path>, p: Path): Option<Fs> {
    if p in faults || p !in fs || (fs[p].Dir? && HasChildren(fs, p)) then None
    else Some(fs - {p})
  }

  /** The whole subtree at src re-rooted at dst, everything else kept. */
  function Rename(fs: Fs, src: Path, dst: Path): Fs {
    var movedKeys := set q | q in fs && IsPrefix(src, q) :: dst + q[|src|..];
    RebasedComeFrom(fs, src, dst);
    (map p | p in fs && !IsPrefix(src, p) :: fs[p]) + (map k | k in movedKeys :: fs[src + k[|dst|..]])
  }

  /** Each re-rooted key names the entry it came from. */
  lemma RebasedComeFrom(fs: Fs, src: Path, dst: Path)
    ensures forall k :: k in (set q | q in fs && IsPrefix(src, q) :: dst + q[|src|..]) ==>
      IsPrefix(dst, k) && src + k[|dst|..] in fs
  {
    forall k | k in (set q | q in fs && IsPrefix(src, q) :: dst + q[|src|..])
      ensures IsPrefix(dst, k) && src + k[|dst|..] in fs
    {
      var q :| q in fs && IsPrefix(src, q) && k == dst + q[|src|..];
      assert k[|dst|..] == q[|src|..];
      assert q == src + k[|dst|..];
    }
  }

  /**
   * `Files.move(src, dst, REPLACE_EXISTING)` on one file store: a rename of the subtree, keeping
   * times. A directory cannot move into itself, dst's parent must be a directory, and an existing
   * directory at dst is replaced only when empty.
   */
  function Move(fs: Fs, faults: set<Path>, src: Path, dst: Path): Option<Fs> {
    if src in faults || dst in faults || src !in fs then None
    else if src == dst then Some(fs)
    else if IsPrefix(src, dst) || dst == [] || !IsDirectory(fs, faults, Parent(dst)) then None
    else if dst in fs && fs[dst].Dir? && HasChildren(fs, dst) then None
    else Some(Rename(fs - {dst}, src, dst))
  }

  // ---------------------------------------------------------------------------------------------
  // The primitives keep the tree shape
  // ---------------------------------------------------------------------------------------------

  /** In a tree every proper ancestor of an entry is a directory holding the next entry down. */
  lemma {:induction false} AncestorIsDirectory(fs: Fs, p: Path, a: Path)
    requires WellFormed(fs) && p in fs && IsPrefix(a, p) && a != p
    ensures a in fs && fs[a].Dir? && p[..|a| + 1] in fs && IsChild(a, p[..|a| + 1])
    ensures HasChildren(fs, a)
    decreases |p|
  {
    assert Parent(p) in fs;
    if |a| + 1 < |p| {
      assert Parent(p)[..|a|] == a && Parent(p)[..|a| + 1] == p[..|a| + 1];
      AncestorIsDirectory(fs, Parent(p), a);
    } else {
      assert Parent(p) == a && p[..|a| + 1] == p;
    }
  }

  lemma CreateDirectoryKeepsShape(fs: Fs, faults: set<Path>, now: int, p: Path)
    requires WellFormed(fs) && CreateDirectory(fs, faults, now, p).Some?
    ensures WellFormed(CreateDirectory(fs, faults, now, p).value)
  {
  }

  lemma CopyFileKeepsShape(fs: Fs, faults: set<Path>, now: int, src: Path, t: Path)
    requires WellFormed(fs) && CopyFile(fs, faults, now, src, t).Some?
    ensures WellFormed(CopyFile(fs, faults, now, src, t).value)
  {
    var r := CopyFile(fs, faults, now, src, t).value;
    forall k | k in r && k != [] ensures Parent(k) in r && r[Parent(k)].Dir? {
      if Parent(k) == t {
        assert IsChild(t, k);
      }
    }
  }

  lemma DeleteEntryKeepsShape(fs: Fs, faults: set<Path>, p: Path)
    requires WellFormed(fs) && DeleteEntry(fs, faults, p).Some?
    ensures WellFormed(DeleteEntry(fs, faults, p).value)
  {
    var r := DeleteEntry(fs, faults, p).value;
    forall k | k in r && k != [] ensures Parent(k) in r && r[Parent(k)].Dir? {
      if Parent(k) == p {
        assert IsChild(p, k);
      }
    }
  }

  /** In a tree, nothing lies under a path that is not a directory with children, except itself. */
  lemma NothingUnder(fs: Fs, d: Path)
    requires WellFormed(fs)
    requires !(d in fs && fs[d].Dir? && HasChildren(fs, d))
    ensures forall k :: k in fs && IsPrefix(d, k) ==> k == d
  {
    forall k | k in fs && IsPrefix(d, k) && k != d
      ensures false
    {
      AncestorIsDirectory(fs, k, d);
    }
  }

  /**
   * r is fs with the subtree at src re-rooted at dst: entries outside src stay, and an entry
   * under dst is the entry at the matching place under src.
   */
  ghost predicate RenamedFrom(r: Fs, fs: Fs, src: Path, dst: Path) {
    && (forall k :: k in r <==> (k in fs && !IsPrefix(src, k)) || (IsPrefix(dst, k) && src + k[|dst|..] in fs))
    && (forall k :: k in fs && !IsPrefix(src, k) ==> r[k] == fs[k])
    && (forall k :: IsPrefix(dst, k) && src + k[|dst|..] in fs ==> r[k] == fs[src + k[|dst|..]])
  }

  /** Where each entry ends up after a rename, when nothing already lies under dst. */
  lemma RenameEntries(fs: Fs, src: Path, dst: Path)
    requires forall p :: p in fs ==> !IsPrefix(dst, p)
    ensures RenamedFrom(Rename(fs, src, dst), fs, src, dst)
  {
    var movedKeys := set q | q in fs && IsPrefix(src, q) :: dst + q[|src|..];
    RebasedComeFrom(fs, src, dst);
    forall k | IsPrefix(dst, k) && src + k[|dst|..] in fs
      ensures k in movedKeys
    {
      var q := src + k[|dst|..];
      assert IsPrefix(src, q) && q[|src|..] == k[|dst|..];
      assert k == dst + q[|src|..];
    }
  }

  /** The parent of a renamed entry is a renamed directory, or dst's own parent. */
  lemma RenamedParent(fs: Fs, r: Fs, src: Path, dst: Path, k: Path)
    requires WellFormed(fs) && src != [] && dst != [] && !IsPrefix(src, dst)
    requires RenamedFrom(r, fs, src, dst)
    requires Parent(dst) in fs && fs[Parent(dst)].Dir?
    requires IsPrefix(dst, k) && src + k[|dst|..] in fs
    ensures Parent(k) in r && r[Parent(k)].Dir?
  {
    if k == dst {
      assert !IsPrefix(src, Parent(dst));
    } else {
      var q := src + k[|dst|..];
      assert q != src;
      assert Parent(k)[|dst|..] == Parent(q)[|src|..];
      assert src + Parent(k)[|dst|..] == Parent(q);
      assert IsPrefix(dst, Parent(k));
    }
  }

  /** The parent of an entry that stays put is still a directory. */
  lemma KeptParent(fs: Fs, r: Fs, src: Path, dst: Path, k: Path)
    requires WellFormed(fs)
    requires RenamedFrom(r, fs, src, dst)
    requires k in fs && !IsPrefix(src, k) && k != []
    ensures Parent(k) in r && r[Parent(k)].Dir?
  {
    assert !IsPrefix(src, Parent(k));
  }

  /** Removing a leaf keeps the tree shape. */
  lemma RemoveLeafKeepsShape(fs: Fs, d: Path)
    requires WellFormed(fs) && !(d in fs && fs[d].Dir? && HasChildren(fs, d))
    ensures WellFormed(fs - {d})
  {
    forall k | k in fs - {d} && k != [] ensures Parent(k) in fs - {d} && fs[Parent(k)].Dir? {
      if Parent(k) == d {
        assert IsChild(d, k);
      }
    }
  }

  /** A successful move keeps the tree shape. */
  lemma MoveKeepsShape(fs: Fs, faults: set<Path>, src: Path, dst: Path)
    requires WellFormed(fs) && Move(fs, faults, src, dst).Some? && src != dst
    ensures WellFormed(Move(fs, faults, src, dst).value)
  {
    var base := fs - {dst};
    var r := Rename(base, src, dst);
    assert Move(fs, faults, src, dst).value == r;
    NothingUnder(fs, dst);
    RemoveLeafKeepsShape(fs, dst);
    assert !IsPrefix(src, dst) && dst[..0] == [];
    RenameEntries(base, src, dst);
    forall k | k in r && k != []
      ensures Parent(k) in r && r[Parent(k)].Dir?
    {
      if k in base && !IsPrefix(src, k) {
        KeptParent(base, r, src, dst, k);
      } else {
        RenamedParent(base, r, src, dst, k);
      }
    }
  }

  /**
   * A successful move leaves nothing at src, puts src's node at dst, keeps every entry outside the
   * two subtrees, and adds nothing outside dst's subtree.
   */
  lemma MoveResult(fs: Fs, faults: set<Path>, src: Path, dst: Path)
    requires WellFormed(fs) && Move(fs, faults, src, dst).Some? && src != dst
    ensures var r := Move(fs, faults, src, dst).value;
      && WellFormed(r)
      && src !in r
      && dst in r && r[dst] == fs[src]
      && (forall k :: k in fs && !IsPrefix(src, k) && !IsPrefix(dst, k) ==> k in r && r[k] == fs[k])
      && (forall k :: k in r ==> IsPrefix(dst, k) || (k in fs && !IsPrefix(src, k)))
  {
    var base := fs - {dst};
    NothingUnder(fs, dst);
    RenameEntries(base, src, dst);
    MoveKeepsShape(fs, faults, src, dst);
    assert dst[|dst|..] == [] && src + [] == src;
  }

  /** A successful move to another place is the rename of src's subtree after dst's empty slot is cleared. */
  lemma MoveRenames(fs: Fs, faults: set<Path>, src: Path, dst: Path)
    requires WellFormed(fs) && Move(fs, faults, src, dst).Some? && src != dst
    ensures !IsPrefix(src, dst)
    ensures RenamedFrom(Move(fs, faults, src, dst).value, fs - {dst}, src, dst)
  {
    NothingUnder(fs, dst);
    RenameEntries(fs - {dst}, src, dst);
  }
}
