/**
 * The `ServerBackup` mod object: the server's file system, the backup history it keeps in memory
 * and in `backup_history.json`, and the tick counter of the automatic schedule, with the methods
 * that copy, delete, prune, record and restore backups.
 */
module Engine {
  import opened Wrappers
  import opened Text
  import opened Paths
  import opened FileTree
  import opened Walks
  import opened TreeRemove
  import opened TreeCopy
  import opened Retention
  import opened History
  import opened Naming
  import opened Scheduler
  import opened Restore

  /** What the selection loop of SortPaths keeps: `order` is sorted and precedes all of `rest`. */
  predicate Selected(o: Ordering, s: set<Path>, order: seq<Path>, rest: set<Path>) {
    && Elements(order) + rest == s && Elements(order) !! rest
    && Sorted(o, order)
    && forall i, q :: 0 <= i < |order| && q in rest ==> Before(o, order[i], q)
  }

  /** Moving the first remaining path to the end of the order keeps the selection invariant. */
  lemma SelectMinimum(o: Ordering, s: set<Path>, order: seq<Path>, rest: set<Path>, m: Path)
    requires Selected(o, s, order, rest)
    requires m in rest && forall q :: q in rest && q != m ==> Before(o, m, q)
    ensures Selected(o, s, order + [m], rest - {m})
  {
    var next := order + [m];
    ElementsAppend(order, [m]);
    assert Elements([m]) == {m};
    forall i, j | 0 <= i < j < |next| ensures Before(o, next[i], next[j]) {
      if j < |order| {
        assert next[i] == order[i] && next[j] == order[j];
      } else {
        assert next[i] == order[i] && next[j] == m;
      }
    }
    forall i, q | 0 <= i < |next| && q in rest - {m} ensures Before(o, next[i], q) {
      if i < |order| {
        assert next[i] == order[i];
      }
    }
  }

  /**
   * A set of paths in the given order: depth first for a directory stream (`Files.walk`,
   * `Files.list`), by `compareTo` for `sorted`.
   */
  method SortPaths(s: set<Path>, o: Ordering) returns (order: seq<Path>)
    ensures Elements(order) == s && Sorted(o, order)
  {
    order := [];
    var rest := s;
    while rest != {}
      invariant Selected(o, s, order, rest)
      decreases |rest|
    {
      MinimumExists(o, rest);
      var m :| FirstOf(o, m, rest);
      SelectMinimum(o, s, order, rest, m);
      order, rest := order + [m], rest - {m};
    }
  }

  /** `serverDir/server_backups/manual_backups` or `serverDir/server_backups/auto_backups`. */
  function BackupsDir(serverDir: Path, c: Category): Path {
    serverDir + ["server_backups", FolderName(c)]
  }

  /** How many backups `backupWorld` leaves in a category's folder: 5 manual, MAX_BACKUPS automatic. */
  function Limit(c: Category): nat {
    if c == Manual then 5 else MaxBackups
  }

  /**
   * `Files.createDirectories(backupsDir)` and then `Files.createTempDirectory`: the file system with
   * both in place, or None when either throws.
   */
  function Staged(fs: Fs, faults: set<Path>, now: int, backupsDir: Path, temp: Path): Option<Fs> {
    match CreateDirectories(fs, faults, now, backupsDir)
    case None => None
    case Some(made) => CreateDirectory(made, faults, now, temp)
  }

  /**
   * The first two statements of the `try` block: the copy of the world into temp and the move of
   * temp to dest; a move that throws leaves the copy where it is.
   */
  function CopyMove(fs: Fs, faults: set<Path>, now: int, world: Path, temp: Path, dest: Path, walk: seq<Path>): Outcome
    requires Inside(world, walk)
  {
    var copied := CopyDirectory(fs, faults, now, world, temp, walk);
    if copied.failure.Some? then copied
    else
      match Move(copied.fs, faults, temp, dest)
      case None => Outcome(copied.fs, Some(Checked(temp)))
      case Some(moved) => Outcome(moved, None)
  }

  /** Every entry outside the subtrees at a and b is still there, unchanged. */
  ghost predicate KeptOutside(before: Fs, after: Fs, a: Path, b: Path) {
    forall k :: k in before && !IsPrefix(a, k) && !IsPrefix(b, k) ==> k in after && after[k] == before[k]
  }

  /** Every new entry lies under a, under b, or on the way to b. */
  ghost predicate AddedOnlyWithin(before: Fs, after: Fs, a: Path, b: Path) {
    forall k :: k in after && k !in before ==> IsPrefix(a, k) || IsPrefix(b, k) || IsPrefix(k, b)
  }

  /** Creating the folder and the temporary directory touches nothing else. */
  lemma StagedFrame(fs: Fs, faults: set<Path>, now: int, backupsDir: Path, temp: Path)
    requires WellFormed(fs) && Staged(fs, faults, now, backupsDir, temp).Some?
    ensures var r := Staged(fs, faults, now, backupsDir, temp).value;
      && WellFormed(r) && temp in r && temp !in fs
      && (forall k :: k in fs ==> k in r && r[k] == fs[k])
      && AddedOnlyWithin(fs, r, temp, backupsDir)
  {
    var made := CreateDirectories(fs, faults, now, backupsDir).value;
    CreateDirectoryKeepsShape(made, faults, now, temp);
    assert temp[..|temp|] == temp;
  }

  /**
   * The copy writes only inside temp and the move re-roots temp at dest inside the folder, so
   * nothing outside those two subtrees changes and nothing new appears elsewhere.
   */
  lemma CopyMoveFrame(fs: Fs, faults: set<Path>, now: int, world: Path, temp: Path, dest: Path, walk: seq<Path>, backupsDir: Path)
    requires WellFormed(fs) && temp in fs && Inside(world, walk) && IsPrefix(backupsDir, dest)
    ensures var r := CopyMove(fs, faults, now, world, temp, dest, walk).fs;
      WellFormed(r) && KeptOutside(fs, r, temp, backupsDir) && AddedOnlyWithin(fs, r, temp, backupsDir)
  {
    var copied := CopyDirectory(fs, faults, now, world, temp, walk);
    if Exists(fs, faults, world) {
      CopyAllStaysInTarget(fs, faults, now, world, temp, walk);
    }
    if copied.failure.None? && Move(copied.fs, faults, temp, dest).Some? && temp != dest {
      MoveResult(copied.fs, faults, temp, dest);
      forall k | IsPrefix(dest, k) ensures IsPrefix(backupsDir, k) {
        assert k[..|backupsDir|] == dest[..|backupsDir|];
      }
    }
  }

  class ServerBackup {
    /** The file system the server runs on. */
    var fs: Fs
    /** Paths on which every file-system operation throws an IOException. */
    const faults: set<Path>
    /** `backup_history.json`, in the server's working directory. */
    var historyFile: HistoryFile
    /** `backupHistory`: backup id → backup directory. */
    var backupHistory: map<string, Path>
    var ticksSinceLastBackup: Int32
    var backupDelayMinutes: Int32
    /** `server.getRunDirectory().toAbsolutePath()`. */
    const serverDir: Path
    /** `server.getSavePath(WorldSavePath.ROOT)`. */
    const worldDir: Path
    /** The working directory a relative path string is resolved against. */
    const cwd: Path

    ghost predicate Valid()
      reads this
    {
      WellFormed(fs)
    }

    /** Everything but the file system is as it was. */
    twostate predicate OnlyFsChanged()
      reads this
    {
      && historyFile == old(historyFile)
      && backupHistory == old(backupHistory)
      && ticksSinceLastBackup == old(ticksSinceLastBackup)
      && backupDelayMinutes == old(backupDelayMinutes)
    }

    /** Only the history file is different. */
    twostate predicate OnlyFileChanged()
      reads this
    {
      && fs == old(fs)
      && backupHistory == old(backupHistory)
      && ticksSinceLastBackup == old(ticksSinceLastBackup)
      && backupDelayMinutes == old(backupDelayMinutes)
    }

    /** The field initialisers: no ticks counted, a ten-minute delay, an empty history. */
    constructor (fs0: Fs, faults: set<Path>, file: HistoryFile, serverDir: Path, worldDir: Path, cwd: Path)
      requires WellFormed(fs0)
      ensures Valid()
      ensures fs == fs0 && this.faults == faults && historyFile == file
      ensures this.serverDir == serverDir && this.worldDir == worldDir && this.cwd == cwd
      ensures ticksSinceLastBackup == 0 && backupDelayMinutes == 10 && backupHistory == map[]
    {
      fs := fs0;
      this.faults := faults;
      historyFile := file;
      this.serverDir := serverDir;
      this.worldDir := worldDir;
      this.cwd := cwd;
      ticksSinceLastBackup := 0;
      backupDelayMinutes := 10;
      backupHistory := map[];
    }

    /**
     * `Files.walk(root)`: the subtree at root, depth first, each directory before its contents and
     * the entries of a directory in name order.
     */
    method Walk(root: Path) returns (walk: seq<Path>)
      ensures Elements(walk) == Under(fs, root) && Sorted(DepthFirst, walk)
      ensures WalkOrder(fs, root, walk) && Inside(root, walk)
    {
      walk := SortPaths(Under(fs, root), DepthFirst);
      DepthFirstIsWalkOrder(fs, root, walk);
      WalkInside(fs, root, walk);
    }

    /**
     * `copyDirectory(source, target)`: the `forEach` over the walk, each path through the filters
     * and then created or copied at its place under target.
     */
    method CopyDirectory(source: Path, target: Path, now: int) returns (failure: Option<Failure>, walk: seq<Path>)
      requires Valid()
      modifies this
      ensures Valid() && OnlyFsChanged()
      ensures WalkOrder(old(fs), source, walk) && Inside(source, walk)
      ensures Outcome(fs, failure) == TreeCopy.CopyDirectory(old(fs), faults, now, source, target, walk)
    {
      walk := Walk(source);
      if !Exists(fs, faults, source) {
        return Some(Checked(source)), walk;
      }
      failure := None;
      var i := 0;
      while i < |walk|
        invariant 0 <= i <= |walk|
        invariant Valid() && OnlyFsChanged()
        invariant CopyAll(old(fs), faults, now, source, target, walk) == CopyAll(fs, faults, now, source, target, walk[i..])
      {
        assert walk[i..][0] == walk[i] && walk[i..][1..] == walk[i + 1..];
        var next := CopyStep(fs, faults, now, source, target, walk[i]);
        if next.None? {
          return Some(Unchecked(walk[i])), walk;
        }
        CopyStepEffect(fs, faults, now, source, target, walk[i]);
        fs := next.value;
        i := i + 1;
      }
    }

    /**
     * `deleteDirectory(root)`: the walk sorted by the reversed comparator, then `Files.delete` on
     * each path in turn. Sorting drains the walk, so a refused entry anywhere under root throws
     * before the first delete: the call removes the whole subtree or nothing.
     */
    method DeleteDirectory(root: Path) returns (failure: Option<Failure>, walk: seq<Path>, order: seq<Path>)
      requires Valid()
      modifies this
      ensures Valid() && OnlyFsChanged()
      ensures Exists(old(fs), faults, root) ==> WalkOrder(old(fs), root, walk) && DeleteOrder(old(fs), root, order)
      ensures Outcome(fs, failure) == TreeRemove.DeleteDirectory(old(fs), faults, root, walk, order)
      ensures failure.None? <==> root in old(fs) && Under(old(fs), root) * faults == {}
      ensures failure.None? ==> fs == old(fs) - Under(old(fs), root)
      ensures failure.Some? ==> fs == old(fs)
      ensures failure.Some? && Exists(old(fs), faults, root) ==>
        failure.value.Unchecked? && failure.value.at in faults && IsPrefix(root, failure.value.at)
      ensures forall k :: k in fs ==> k in old(fs) && fs[k] == old(fs)[k]
      ensures forall k :: k in old(fs) && k !in fs ==> IsPrefix(root, k)
      ensures root in old(fs) && (forall q :: q in faults ==> q !in Under(old(fs), root)) ==> failure == None
    {
      if !Exists(fs, faults, root) {
        if root in fs {
          assert root[..|root|] == root;
          assert root in Under(fs, root) * faults;
        }
        return Some(Checked(root)), [], [];
      }
      walk := Walk(root);
      var sorted := SortPaths(Elements(walk), CompareTo);
      ReverseDescending(sorted);
      order := Reverse(sorted);
      DeleteDirectoryRemovesSubtree(fs, faults, root, walk, order);
      var refused := FirstRefused(walk, faults);
      if refused.Some? {
        return Some(Unchecked(refused.value)), walk, order;
      }
      failure := DeleteEach(order);
    }

    /** The `forEach` of `deleteDirectory`: `Files.delete` on each path in turn, stopping at the first that throws. */
    method DeleteEach(order: seq<Path>) returns (failure: Option<Failure>)
      requires Valid()
      modifies this
      ensures Valid() && OnlyFsChanged()
      ensures Outcome(fs, failure) == DeleteAll(old(fs), faults, order)
    {
      failure := None;
      var i := 0;
      while i < |order|
        invariant 0 <= i <= |order|
        invariant Valid() && OnlyFsChanged()
        invariant DeleteAll(old(fs), faults, order) == DeleteAll(fs, faults, order[i..])
      {
        assert order[i..][0] == order[i] && order[i..][1..] == order[i + 1..];
        var next := DeleteEntry(fs, faults, order[i]);
        if next.None? {
          failure := Some(Unchecked(order[i]));
          return;
        }
        DeleteEntryKeepsShape(fs, faults, order[i]);
        fs := next.value;
        i := i + 1;
      }
    }

    /**
     * `limitBackups(dir, max)`: the directories listed in dir, sorted by last-modified time
     * (oldest first), and the head of that list deleted one directory at a time until at most max
     * remain. Listing a path that is not a readable directory throws; a victim with a refused
     * entry stops the loop, with the victims before it deleted and it and the rest kept.
     */
    method LimitBackups(dir: Path, max: nat) returns (failure: Option<Failure>, listing: seq<Path>, victims: seq<Path>)
      requires Valid()
      modifies this
      ensures Valid() && OnlyFsChanged()
      ensures !IsDirectory(old(fs), faults, dir) ==> failure == Some(Checked(dir)) && fs == old(fs)
      ensures IsDirectory(old(fs), faults, dir) ==>
        && Elements(listing) == DirectoryChildren(old(fs), faults, dir)
        && victims == PathsOf(Victims(SortByTime(StampAll(old(fs), faults, listing)), max))
        && fs == Pruned(old(fs), victims[..FirstBlocked(old(fs), faults, victims)])
      ensures failure.None? <==> IsDirectory(old(fs), faults, dir) && FirstBlocked(old(fs), faults, victims) == |victims|
      ensures IsDirectory(old(fs), faults, dir) && (forall v :: v in victims ==> !Blocked(old(fs), faults, v)) ==> failure.None?
      ensures failure.Some? && IsDirectory(old(fs), faults, dir) ==>
        var n := FirstBlocked(old(fs), faults, victims);
        n < |victims| && failure.value.Unchecked? && failure.value.at in faults && IsPrefix(victims[n], failure.value.at)
      ensures forall k :: k in fs ==> k in old(fs) && fs[k] == old(fs)[k]
      ensures forall k :: k in old(fs) && k !in fs ==> UnderSome(victims, k) && IsPrefix(dir, k) && k != dir
      ensures forall k :: k in old(fs) && IsChild(dir, k) && !IsDirectory(old(fs), faults, k) ==> k in fs
      ensures failure.None? ==>
        && fs == Pruned(old(fs), victims)
        && DirectoryChildren(fs, faults, dir) == DirectoryChildren(old(fs), faults, dir) - Elements(victims)
        && |DirectoryChildren(fs, faults, dir)| <= max
      ensures IsDirectory(old(fs), faults, dir) && |listing| <= max ==> failure == None && fs == old(fs)
      ensures IsDirectory(old(fs), faults, dir) ==>
        Distinct(listing) && |listing| == |DirectoryChildren(old(fs), faults, dir)| && IsDirectory(fs, faults, dir)
      ensures IsDirectory(old(fs), faults, dir) && |DirectoryChildren(old(fs), faults, dir)| <= max ==>
        failure == None && fs == old(fs)
    {
      if !IsDirectory(fs, faults, dir) {
        return Some(Checked(dir)), [], [];
      }
      listing := SortPaths(DirectoryChildren(fs, faults, dir), DepthFirst);
      var backups := SortByTime(StampAll(fs, faults, listing));
      PrunedFolder(fs, faults, dir, listing, max);
      victims := PathsOf(Victims(backups, max));
      SortedDistinct(DepthFirst, listing);
      ListingFacts(fs, faults, dir, listing, max);
      failure := DeleteOldest(dir, backups, max);
      if |listing| <= max {
        assert victims == [] && fs == Pruned(old(fs), victims[..0]);
      }
    }

    /**
     * The `while` loop of `limitBackups`: while more than max remain, delete the directory at the
     * head of the list and drop it. A deletion that throws ends the loop with its exception: the
     * victims before the first blocked one are gone, and nothing else.
     */
    method DeleteOldest(ghost dir: Path, backups: seq<Stamped>, max: nat) returns (failure: Option<Failure>)
      requires Valid()
      requires Distinct(PathsOf(Victims(backups, max)))
      requires forall v :: v in PathsOf(Victims(backups, max)) ==> v in DirectoryChildren(fs, faults, dir)
      modifies this
      ensures Valid() && OnlyFsChanged()
      ensures var victims := PathsOf(Victims(backups, max));
        var n := FirstBlocked(old(fs), faults, victims);
        && fs == Pruned(old(fs), victims[..n])
        && (failure.None? <==> n == |victims|)
        && (failure.Some? ==> n < |victims| && failure.value.Unchecked? && failure.value.at in faults && IsPrefix(victims[n], failure.value.at))
      ensures forall k :: k in fs ==> k in old(fs) && fs[k] == old(fs)[k]
      ensures forall k :: k in old(fs) && k !in fs ==> UnderSome(PathsOf(Victims(backups, max)), k)
      ensures failure.None? ==> fs == Pruned(old(fs), PathsOf(Victims(backups, max)))
      ensures |backups| <= max ==> failure == None && fs == old(fs)
    {
      ghost var victims := PathsOf(Victims(backups, max));
      assert Pruned(fs, victims[..0]) == fs;
      var rest := backups;
      ghost var n := 0;
      failure := None;
      while |rest| > max
        invariant 0 <= n <= |victims| && rest == backups[n..]
        invariant Valid() && OnlyFsChanged()
        invariant fs == Pruned(old(fs), victims[..n]) && failure == None
        invariant forall j :: 0 <= j < n ==> !Blocked(old(fs), faults, victims[j])
        decreases |rest|
      {
        var oldest := rest[0].path;
        failure := DeleteVictim(old(fs), dir, victims, n, oldest);
        if failure.Some? {
          assert FirstBlocked(old(fs), faults, victims) == n;
          PrunedPartly(old(fs), victims, n, fs);
          return;
        }
        rest := rest[1..];
        n := n + 1;
      }
      assert FirstBlocked(old(fs), faults, victims) == n;
      assert victims[..n] == victims;
      PrunedPartly(old(fs), victims, n, fs);
    }

    /**
     * One round of that loop: delete the n-th victim, whose predecessors are already gone. It is
     * deleted exactly when nothing under it is refused; otherwise nothing changes.
     */
    method DeleteVictim(ghost fs0: Fs, ghost dir: Path, ghost victims: seq<Path>, ghost n: nat, oldest: Path)
      returns (failure: Option<Failure>)
      requires Valid() && n < |victims| && oldest == victims[n] && fs == Pruned(fs0, victims[..n])
      requires Distinct(victims) && forall v :: v in victims ==> v in DirectoryChildren(fs0, faults, dir)
      modifies this
      ensures Valid() && OnlyFsChanged()
      ensures failure.None? <==> !Blocked(fs0, faults, victims[n])
      ensures failure.None? ==> fs == Pruned(fs0, victims[..n + 1])
      ensures failure.Some? ==>
        fs == old(fs) && failure.value.Unchecked? && failure.value.at in faults && IsPrefix(victims[n], failure.value.at)
      ensures failure.Some? ==> forall k :: k in fs ==> k in fs0 && fs[k] == fs0[k]
      ensures failure.Some? ==> forall k :: k in fs0 && k !in fs ==> UnderSome(victims, k)
    {
      PrunedSiblings(fs0, faults, dir, victims, n);
      var walk, order;
      failure, walk, order := DeleteDirectory(oldest);
      if failure.Some? {
        PrunedPartly(fs0, victims, n, fs);
      } else {
        PrunedStep(fs0, victims, n);
      }
    }

    // -------------------------------------------------------------------------------------------
    // The history file
    // -------------------------------------------------------------------------------------------

    /**
     * `saveBackupHistory`: each entry's path turned into its string, and the resulting map written
     * to the file unless opening it for writing fails (the failure is logged and swallowed).
     */
    method SaveBackupHistory(writeOk: bool)
      modifies this
      ensures OnlyFileChanged()
      ensures historyFile == Save(backupHistory, old(historyFile), writeOk)
    {
      var asStrings: map<string, string> := map[];
      var left := backupHistory.Keys;
      while left != {}
        invariant left <= backupHistory.Keys
        invariant asStrings == map id | id in backupHistory.Keys - left :: PathString(backupHistory[id])
        decreases |left|
      {
        var id :| id in left;
        asStrings := asStrings[id := PathString(backupHistory[id])];
        left := left - {id};
      }
      assert asStrings == Encode(backupHistory);
      if writeOk {
        historyFile := Present(Object(asStrings));
      }
    }

    /** `resetBackupHistoryFile`: the file holds `{}` unless opening it fails. */
    method ResetBackupHistoryFile(writeOk: bool)
      modifies this
      ensures OnlyFileChanged()
      ensures historyFile == Reset(old(historyFile), writeOk)
    {
      if writeOk {
        historyFile := Present(Object(map[]));
      }
    }

    /**
     * `loadBackupHistory`: create the file if it is missing, then read it; keep each entry whose
     * path string names a directory now. `crashed` is the NullPointerException a null document
     * causes once the history has been cleared.
     */
    method LoadBackupHistory(createOk: bool, readOk: bool, writeOk: bool) returns (crashed: bool)
      modifies this
      ensures fs == old(fs) && ticksSinceLastBackup == old(ticksSinceLastBackup)
      ensures backupDelayMinutes == old(backupDelayMinutes)
      ensures Loaded(backupHistory, historyFile, crashed) == Load(old(historyFile), createOk, readOk, writeOk, fs, faults, cwd)
    {
      crashed := false;
      if historyFile.Absent? && createOk {
        historyFile := Present(Empty);
      }
      if historyFile.Absent? || !readOk {
        backupHistory := map[];
        return;
      }
      match historyFile.content
      case Empty =>
        backupHistory := map[];
      case NullDocument =>
        backupHistory := map[];
        crashed := true;
      case Malformed =>
        backupHistory := map[];
        ResetBackupHistoryFile(writeOk);
      case Object(fields) =>
        backupHistory := DecodeEntries(fields);
    }

    /**
     * The `for` loop of `loadBackupHistory` over the parsed object: each path string is parsed and
     * kept when it names a directory.
     */
    method DecodeEntries(fields: map<string, string>) returns (h: map<string, Path>)
      ensures h == Decode(fields, fs, faults, cwd)
    {
      h := map[];
      var left := fields.Keys;
      assert Decode(Restrict(fields, fields.Keys - left), fs, faults, cwd) == map[];
      while left != {}
        invariant left <= fields.Keys
        invariant h == Decode(Restrict(fields, fields.Keys - left), fs, faults, cwd)
        decreases |left|
      {
        var id :| id in left;
        var backupPath := ParsePath(cwd, fields[id]);
        DecodeAdd(fields, fields.Keys - left, id, fs, faults, cwd);
        assert (fields.Keys - left) + {id} == fields.Keys - (left - {id});
        if IsDirectory(fs, faults, backupPath) {
          h := h[id := backupPath];
        }
        left := left - {id};
      }
      assert Restrict(fields, fields.Keys - left) == fields;
    }

    // -------------------------------------------------------------------------------------------
    // Backups
    // -------------------------------------------------------------------------------------------

    /**
     * What `backupWorld(category)` leaves, from the file system, history and history file it
     * started with:
     * - the id and the destination are drawn from `draw` and `when`;
     * - the backup was moved into place exactly when the folder and the temporary directory could
     *   be created and the copy and the move succeeded, and only then is it recorded;
     * - a run that threw nothing saved the history, left no temporary directory and left at most
     *   the category's limit of backups in the folder;
     * - the history file is either untouched or saved;
     * - outside temp and the category's folder nothing changed, and nothing new appeared there.
     */
    ghost predicate Backed(fs0: Fs, h0: map<string, Path>, file0: HistoryFile, category: Category, when: DateTime,
                           draw: nat, temp: Path, now: int, writeOk: bool,
                           failure: Option<Failure>, id: string, dest: Path, moved: bool, walk: seq<Path>)
      reads this`fs, this`backupHistory, this`historyFile
    {
      var backupsDir := BackupsDir(serverDir, category);
      var staged := Staged(fs0, faults, now, backupsDir, temp);
      && WellFormed(fs)
      && draw < 90000 && id == SaveId(draw) && dest == backupsDir + [BackupName(when, id)]
      && (staged.Some? ==> WalkOrder(staged.value, worldDir, walk) && Inside(worldDir, walk))
      && (moved <==> staged.Some? && Inside(worldDir, walk) && CopyMove(staged.value, faults, now, worldDir, temp, dest, walk).failure.None?)
      && backupHistory == (if moved then h0[id := dest] else h0)
      && (!moved ==> failure.Some? && historyFile == file0)
      && (failure.None? ==>
            && moved && historyFile == Save(backupHistory, file0, writeOk) && !Exists(fs, faults, temp)
            && |DirectoryChildren(fs, faults, backupsDir)| <= Limit(category))
      && (historyFile == file0 || historyFile == Save(backupHistory, file0, writeOk))
      && KeptOutside(fs0, fs, temp, backupsDir) && AddedOnlyWithin(fs0, fs, temp, backupsDir)
    }

    /**
     * `backupWorld(server, category)`: create the category folder, copy the world into a fresh
     * temporary directory, move that to `<timestamp>_<id>` in the folder and record it; prune a
     * manual folder to 5; always remove the temporary directory if it is still there; then, if
     * nothing threw, save the history and prune an automatic folder to MAX_BACKUPS.
     * `draw` is what `nextInt(90000)` returned and `temp` the directory `createTempDirectory` chose.
     */
    method BackupWorld(category: Category, when: DateTime, draw: nat, temp: Path, now: int, writeOk: bool)
      returns (failure: Option<Failure>, id: string, dest: Path, moved: bool, walk: seq<Path>, ghost backup: Fs)
      requires Valid() && draw < 90000
      modifies this
      ensures Valid()
      ensures ticksSinceLastBackup == old(ticksSinceLastBackup) && backupDelayMinutes == old(backupDelayMinutes)
      ensures Backed(old(fs), old(backupHistory), old(historyFile), category, when, draw, temp, now, writeOk,
                     failure, id, dest, moved, walk)
      ensures temp !in old(fs) && !IsPrefix(temp, BackupsDir(serverDir, category)) && (forall q :: q in faults ==> !IsPrefix(temp, q))
        ==> temp !in fs
      ensures moved && Disjoint(worldDir, temp) ==>
        forall p :: p in Under(old(fs), worldDir) && Keep(worldDir, p) ==> MirrorsEntry(old(fs), faults, now, backup, worldDir, dest, p)
    {
      moved, backup, walk := false, fs, [];
      var backupsDir := BackupsDir(serverDir, category);
      id := SaveId(draw);
      BackupNameIsElement(when, id);
      dest := backupsDir + [BackupName(when, id)];
      assert dest[..|backupsDir|] == backupsDir;
      failure := Stage(backupsDir, temp, now);
      if failure.Some? {
        return;
      }
      failure, moved, walk, backup := CopyIntoPlace(category, backupsDir, temp, dest, id, now);
      failure := FinishBackup(category, backupsDir, temp, writeOk, failure);
    }

    /**
     * `Files.createDirectories(backupsDir)` and then `Files.createTempDirectory`: the first that
     * throws ends the run with a checked exception, keeping what the first one created.
     */
    method Stage(backupsDir: Path, temp: Path, now: int) returns (failure: Option<Failure>)
      requires Valid()
      modifies this
      ensures Valid() && OnlyFsChanged()
      ensures failure.None? <==> Staged(old(fs), faults, now, backupsDir, temp).Some?
      ensures failure.None? ==> fs == Staged(old(fs), faults, now, backupsDir, temp).value && temp in fs
      ensures failure.Some? ==> failure.value.Checked?
      ensures forall k :: k in old(fs) ==> k in fs && fs[k] == old(fs)[k]
      ensures AddedOnlyWithin(old(fs), fs, temp, backupsDir)
      ensures failure.Some? && temp !in old(fs) && !IsPrefix(temp, backupsDir) ==> temp !in fs
    {
      var made := CreateDirectories(fs, faults, now, backupsDir);
      if made.None? {
        return Some(Checked(backupsDir));
      }
      var tempMade := CreateDirectory(made.value, faults, now, temp);
      if tempMade.None? {
        fs := made.value;
        return Some(Checked(temp));
      }
      StagedFrame(fs, faults, now, backupsDir, temp);
      fs := tempMade.value;
      failure := None;
    }

    /**
     * The rest of `backupWorld` after the `try` block: the `finally` block removes the temporary
     * directory; then, if nothing threw, the history is saved and an automatic folder is pruned to
     * MAX_BACKUPS. `pending` is what the `try` block threw.
     */
    method FinishBackup(category: Category, backupsDir: Path, temp: Path, writeOk: bool, pending: Option<Failure>)
      returns (failure: Option<Failure>)
      requires Valid()
      requires category == Manual && pending.None? ==> |DirectoryChildren(fs, faults, backupsDir)| <= 5
      modifies this
      ensures Valid() && backupHistory == old(backupHistory)
      ensures ticksSinceLastBackup == old(ticksSinceLastBackup) && backupDelayMinutes == old(backupDelayMinutes)
      ensures pending.Some? ==> failure.Some? && historyFile == old(historyFile)
      ensures failure.None? ==>
        && pending.None? && historyFile == Save(backupHistory, old(historyFile), writeOk) && !Exists(fs, faults, temp)
        && |DirectoryChildren(fs, faults, backupsDir)| <= Limit(category)
      ensures historyFile == old(historyFile) || historyFile == Save(backupHistory, old(historyFile), writeOk)
      ensures forall k :: k in fs ==> k in old(fs) && fs[k] == old(fs)[k]
      ensures forall k :: k in old(fs) && k !in fs ==> IsPrefix(temp, k) || IsPrefix(backupsDir, k)
      ensures (forall q :: q in faults ==> !IsPrefix(temp, q)) ==> temp !in fs
    {
      ghost var fs1 := fs;
      failure := RemoveTemporary(temp, pending);
      ChildrenShrink(fs1, fs, faults, backupsDir);
      if failure.Some? {
        return;
      }
      SaveBackupHistory(writeOk);
      if category == Auto {
        var listing, victims;
        failure, listing, victims := LimitBackups(backupsDir, MaxBackups);
      }
    }

    /**
     * The `try` block of `backupWorld`: copy the world into temp, move temp to dest, record the
     * backup, and prune a manual folder to 5.
     */
    method CopyIntoPlace(category: Category, backupsDir: Path, temp: Path, dest: Path, id: string, now: int)
      returns (failure: Option<Failure>, moved: bool, walk: seq<Path>, ghost backup: Fs)
      requires Valid()
      modifies this
      ensures Valid() && historyFile == old(historyFile)
      ensures ticksSinceLastBackup == old(ticksSinceLastBackup) && backupDelayMinutes == old(backupDelayMinutes)
      ensures WalkOrder(old(fs), worldDir, walk) && Inside(worldDir, walk)
      ensures moved <==> CopyMove(old(fs), faults, now, worldDir, temp, dest, walk).failure.None?
      ensures !moved ==> Outcome(fs, failure) == CopyMove(old(fs), faults, now, worldDir, temp, dest, walk)
      ensures backupHistory == if moved then old(backupHistory)[id := dest] else old(backupHistory)
      ensures !moved ==> failure.Some?
      ensures failure.None? ==> category == Manual ==> |DirectoryChildren(fs, faults, backupsDir)| <= 5
      ensures temp in old(fs) && IsPrefix(backupsDir, dest) ==>
        KeptOutside(old(fs), fs, temp, backupsDir) && AddedOnlyWithin(old(fs), fs, temp, backupsDir)
      ensures moved && Disjoint(worldDir, temp) ==>
        forall p :: p in Under(old(fs), worldDir) && Keep(worldDir, p) ==> MirrorsEntry(old(fs), faults, now, backup, worldDir, dest, p)
    {
      failure, moved, walk, backup := CopyAndMove(temp, dest, now);
      if temp in old(fs) && IsPrefix(backupsDir, dest) {
        CopyMoveFrame(old(fs), faults, now, worldDir, temp, dest, walk, backupsDir);
      }
      if !moved {
        return;
      }
      backupHistory := backupHistory[id := dest];
      if category == Manual {
        var listing, victims;
        failure, listing, victims := LimitBackups(backupsDir, 5);
      }
    }

    /** The copy of the world into temp and the move of temp to dest. */
    method CopyAndMove(temp: Path, dest: Path, now: int) returns (failure: Option<Failure>, moved: bool, walk: seq<Path>, ghost backup: Fs)
      requires Valid()
      modifies this
      ensures Valid() && OnlyFsChanged()
      ensures WalkOrder(old(fs), worldDir, walk) && Inside(worldDir, walk)
      ensures Outcome(fs, failure) == CopyMove(old(fs), faults, now, worldDir, temp, dest, walk)
      ensures moved <==> failure.None?
      ensures moved ==> fs == backup
      ensures moved && Disjoint(worldDir, temp) ==>
        forall p :: p in Under(old(fs), worldDir) && Keep(worldDir, p) ==> MirrorsEntry(old(fs), faults, now, backup, worldDir, dest, p)
    {
      moved, backup := false, fs;
      failure, walk := CopyDirectory(worldDir, temp, now);
      if failure.Some? {
        return;
      }
      var movedFs := Move(fs, faults, temp, dest);
      if movedFs.None? {
        return Some(Checked(temp)), false, walk, fs;
      }
      if temp != dest {
        MoveKeepsShape(fs, faults, temp, dest);
      }
      if Disjoint(worldDir, temp) {
        CopyThenMove(old(fs), faults, now, worldDir, temp, dest, walk);
      }
      fs, backup, moved := movedFs.value, movedFs.value, true;
    }

    /**
     * The `finally` block of `backupWorld`: a temporary directory still there is deleted, and an
     * exception from that deletion replaces the pending one. Only entries under temp are removed.
     */
    method RemoveTemporary(temp: Path, pending: Option<Failure>) returns (failure: Option<Failure>)
      requires Valid()
      modifies this
      ensures Valid() && OnlyFsChanged()
      ensures failure.None? ==> pending.None? && !Exists(fs, faults, temp)
      ensures pending.Some? ==> failure.Some?
      ensures !Exists(old(fs), faults, temp) ==> fs == old(fs) && failure == pending
      ensures Exists(old(fs), faults, temp) && Under(old(fs), temp) * faults == {} ==>
        fs == old(fs) - Under(old(fs), temp) && failure == pending
      ensures Exists(old(fs), faults, temp) && Under(old(fs), temp) * faults != {} ==>
        && fs == old(fs) && failure.Some? && failure.value.Unchecked?
        && failure.value.at in faults && IsPrefix(temp, failure.value.at)
      ensures forall k :: k in fs ==> k in old(fs) && fs[k] == old(fs)[k]
      ensures forall k :: k in old(fs) && k !in fs ==> IsPrefix(temp, k)
      ensures (forall q :: q in faults ==> !IsPrefix(temp, q)) ==> temp !in fs
    {
      failure := pending;
      if Exists(fs, faults, temp) {
        var cleanup, walk, order := DeleteDirectory(temp);
        assert temp in Under(old(fs), temp);
        if cleanup.Some? {
          failure := cleanup;
        }
      }
    }

    // -------------------------------------------------------------------------------------------
    // Restore
    // -------------------------------------------------------------------------------------------

    /** `restoreBackup(server, backup)`: delete the world, then copy the backup into its place. */
    method RestoreBackup(backup: Path, now: int)
      returns (failure: Option<Failure>, deleteWalk: seq<Path>, deleteOrder: seq<Path>, copyOrder: seq<Path>)
      requires Valid()
      modifies this
      ensures Valid() && OnlyFsChanged()
      ensures Inside(backup, copyOrder)
      ensures Exists(old(fs), faults, worldDir) ==>
        WalkOrder(old(fs), worldDir, deleteWalk) && DeleteOrder(old(fs), worldDir, deleteOrder)
      ensures Outcome(fs, failure) == Restore.RestoreBackup(old(fs), faults, now, worldDir, backup, deleteWalk, deleteOrder, copyOrder)
    {
      failure, deleteWalk, deleteOrder := DeleteDirectory(worldDir);
      if failure.Some? {
        return failure, deleteWalk, deleteOrder, [];
      }
      failure, copyOrder := CopyDirectory(backup, worldDir, now);
    }

    /**
     * `restoreWorld(id)`, with the backup directory checked before the world is deleted: an id
     * the history does not hold, or whose directory is gone, is refused without touching anything.
     */
    method RestoreWorld(id: string, now: int)
      returns (result: RestoreResult, deleteWalk: seq<Path>, deleteOrder: seq<Path>, copyOrder: seq<Path>)
      requires Valid()
      modifies this
      ensures Valid() && OnlyFsChanged()
      ensures id in backupHistory ==> Inside(backupHistory[id], copyOrder)
      ensures (fs, result) == Restore.RestoreWorld(backupHistory, id, old(fs), faults, now, worldDir, deleteWalk, deleteOrder, copyOrder)
    {
      if id !in backupHistory {
        return NotFound, [], [], [];
      }
      var backup := backupHistory[id];
      if !IsDirectory(fs, faults, backup) {
        return NotFound, [], [], [];
      }
      var failure;
      failure, deleteWalk, deleteOrder, copyOrder := RestoreBackup(backup, now);
      result := if failure.Some? then Failed(failure.value) else Restored;
    }

    // -------------------------------------------------------------------------------------------
    // The schedule
    // -------------------------------------------------------------------------------------------

    /**
     * The start-of-tick handler: count the tick and, once the count reaches the delay in ticks,
     * run an automatic backup and reset the count, however the backup ended.
     */
    method Tick(when: DateTime, draw: nat, temp: Path, now: int, writeOk: bool)
      returns (ran: bool, failure: Option<Failure>, id: string, dest: Path, moved: bool, walk: seq<Path>)
      requires Valid() && draw < 90000
      modifies this
      ensures Valid()
      ensures ran == Due(old(ticksSinceLastBackup), old(backupDelayMinutes))
      ensures ticksSinceLastBackup == CounterAfter(old(ticksSinceLastBackup), old(backupDelayMinutes))
      ensures backupDelayMinutes == old(backupDelayMinutes)
      ensures !ran ==> failure == None && fs == old(fs) && backupHistory == old(backupHistory) && historyFile == old(historyFile)
      ensures ran ==> Backed(old(fs), old(backupHistory), old(historyFile), Auto, when, draw, temp, now, writeOk,
                             failure, id, dest, moved, walk)
    {
      ticksSinceLastBackup := Wrap(ticksSinceLastBackup as int + 1);
      ran := ticksSinceLastBackup >= Threshold(backupDelayMinutes);
      failure, id, dest, moved, walk := None, "", [], false, [];
      if ran {
        ghost var backup;
        failure, id, dest, moved, walk, backup := BackupWorld(Auto, when, draw, temp, now, writeOk);
        ticksSinceLastBackup := 0;
      }
    }

    /** `setBackupDelay`: the command's integer becomes the delay, unchecked. */
    method SetBackupDelay(delay: Int32)
      modifies this
      ensures backupDelayMinutes == delay
      ensures fs == old(fs) && backupHistory == old(backupHistory) && historyFile == old(historyFile)
      ensures ticksSinceLastBackup == old(ticksSinceLastBackup)
    {
      backupDelayMinutes := delay;
    }
  }
}
