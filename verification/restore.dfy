/**
 * Restoring a backup: `restoreBackup` deletes the world directory and then copies the backup
 * into its place; `restoreWorld` looks the id up in the history first.
 */
module Restore {
  import opened Wrappers
  import opened Paths
  import opened FileTree
  import opened Walks
  import opened TreeRemove
  import opened TreeCopy
  import opened Retention

  /**
   * `restoreBackup`: delete the world, then copy the backup to where the world was. `deleteWalk`
   * and `deleteOrder` are the walk of the world and its deletion order, `copyOrder` the walk of
   * the backup.
   */
  function RestoreBackup(fs: Fs, faults: set<Path>, now: int, world: Path, backup: Path,
                         deleteWalk: seq<Path>, deleteOrder: seq<Path>, copyOrder: seq<Path>): Outcome
    requires Inside(backup, copyOrder)
  {
    var cleared := DeleteDirectory(fs, faults, world, deleteWalk, deleteOrder);
    if cleared.failure.Some? then cleared
    else CopyDirectory(cleared.fs, faults, now, backup, world, copyOrder)
  }

  /** What the restore command reports. */
  datatype RestoreResult = NotFound | Failed(failure: Failure) | Restored

  function Report(o: Outcome): RestoreResult {
    if o.failure.Some? then Failed(o.failure.value) else Restored
  }

  /**
   * `restoreWorld` as written: only an id missing from the history is refused, so a recorded
   * backup that has since been deleted still reaches `restoreBackup`.
   */
  function RestoreWorldAsWritten(history: map<string, Path>, id: string, fs: Fs, faults: set<Path>, now: int,
                                 world: Path, deleteWalk: seq<Path>, deleteOrder: seq<Path>, copyOrder: seq<Path>)
    : (r: (Fs, RestoreResult))
    requires id in history ==> Inside(history[id], copyOrder)
    ensures r.1 == NotFound <==> id !in history
    ensures r.1 == NotFound ==> r.0 == fs
  {
    if id !in history then (fs, NotFound)
    else
      var o := RestoreBackup(fs, faults, now, world, history[id], deleteWalk, deleteOrder, copyOrder);
      (o.fs, Report(o))
  }

  /**
   * `restoreWorld` with the backup checked before the world is touched: an id that is missing, or
   * whose directory no longer exists, is refused and nothing changes.
   */
  function RestoreWorld(history: map<string, Path>, id: string, fs: Fs, faults: set<Path>, now: int,
                        world: Path, deleteWalk: seq<Path>, deleteOrder: seq<Path>, copyOrder: seq<Path>)
    : (r: (Fs, RestoreResult))
    requires id in history ==> Inside(history[id], copyOrder)
    ensures r.1 == NotFound <==> id !in history || !IsDirectory(fs, faults, history[id])
    ensures r.1 == NotFound ==> r.0 == fs
  {
    if id !in history || !IsDirectory(fs, faults, history[id]) then (fs, NotFound)
    else
      var o := RestoreBackup(fs, faults, now, world, history[id], deleteWalk, deleteOrder, copyOrder);
      (o.fs, Report(o))
  }

  // ---------------------------------------------------------------------------------------------
  // Lemmas
  // ---------------------------------------------------------------------------------------------

  /**
   * Restoring from a backup directory that is gone deletes the whole world and then fails: the
   * walk of the missing backup throws, and nothing is copied back.
   */
  lemma RestoreMissingBackupLosesWorld(fs: Fs, faults: set<Path>, now: int, world: Path, backup: Path,
                                       deleteWalk: seq<Path>, deleteOrder: seq<Path>, copyOrder: seq<Path>)
    requires WellFormed(fs) && world in fs && Elements(deleteWalk) == Under(fs, world) && DeleteOrder(fs, world, deleteOrder)
    requires forall q :: q in faults ==> q !in Under(fs, world)
    requires backup !in fs && Inside(backup, copyOrder)
    ensures RestoreBackup(fs, faults, now, world, backup, deleteWalk, deleteOrder, copyOrder)
      == Outcome(fs - Under(fs, world), Some(Checked(backup)))
    ensures world !in RestoreBackup(fs, faults, now, world, backup, deleteWalk, deleteOrder, copyOrder).fs
  {
    assert Under(fs, world) * faults == {};
    DeleteDirectoryRemovesSubtree(fs, faults, world, deleteWalk, deleteOrder);
    assert world in Under(fs, world);
  }

  /**
   * The guarded restore never touches the world for a backup that is not a directory, and
   * otherwise does what `restoreBackup` does.
   */
  lemma RestoreWorldGuarded(history: map<string, Path>, id: string, fs: Fs, faults: set<Path>, now: int,
                            world: Path, deleteWalk: seq<Path>, deleteOrder: seq<Path>, copyOrder: seq<Path>)
    requires id in history ==> Inside(history[id], copyOrder)
    ensures var r := RestoreWorld(history, id, fs, faults, now, world, deleteWalk, deleteOrder, copyOrder);
      && (id !in history || !IsDirectory(fs, faults, history[id]) ==> r == (fs, NotFound))
      && (id in history && IsDirectory(fs, faults, history[id]) ==>
            r == RestoreWorldAsWritten(history, id, fs, faults, now, world, deleteWalk, deleteOrder, copyOrder))
  {
  }

  /**
   * `limitBackups` deletes directories but leaves their ids in the history. Restoring such an id
   * as written deletes the world and fails; the guarded restore refuses it and changes nothing.
   */
  lemma PrunedEntryLosesWorld(fs: Fs, faults: set<Path>, now: int, world: Path, victims: seq<Path>,
                              history: map<string, Path>, id: string,
                              deleteWalk: seq<Path>, deleteOrder: seq<Path>, copyOrder: seq<Path>)
    requires id in history && history[id] in victims && Inside(history[id], copyOrder)
    requires var pruned := Pruned(fs, victims);
      && WellFormed(pruned) && world in pruned
      && Elements(deleteWalk) == Under(pruned, world) && DeleteOrder(pruned, world, deleteOrder)
      && forall q :: q in faults ==> q !in Under(pruned, world)
    ensures var r := RestoreWorldAsWritten(history, id, Pruned(fs, victims), faults, now, world, deleteWalk, deleteOrder, copyOrder);
      r.1 == Failed(Checked(history[id])) && world !in r.0
    ensures RestoreWorld(history, id, Pruned(fs, victims), faults, now, world, deleteWalk, deleteOrder, copyOrder) == (Pruned(fs, victims), NotFound)
  {
    var v := history[id];
    var j :| 0 <= j < |victims| && victims[j] == v;
    assert IsPrefix(victims[j], v);
    RestoreMissingBackupLosesWorld(Pruned(fs, victims), faults, now, world, v, deleteWalk, deleteOrder, copyOrder);
  }

  /**
   * The discrepancy, on a concrete server: backup `12345` was recorded at /b, pruning deleted /b,
   * and restoring it deletes the world at /w and then fails, leaving no world at all. The guarded
   * restore refuses the id and keeps the world.
   */
  lemma PrunedBackupDestroysWorld()
    ensures var fs: Fs := map[[] := Dir(None), ["w"] := Dir(None), ["w", "level.dat"] := File([1], None)];
      var history := map["12345" := ["b"]];
      var walk := [["w"], ["w", "level.dat"]];
      var order := [["w", "level.dat"], ["w"]];
      && RestoreWorldAsWritten(history, "12345", fs, {}, 0, ["w"], walk, order, []) == (map[[] := Dir(None)], Failed(Checked(["b"])))
      && RestoreWorld(history, "12345", fs, {}, 0, ["w"], walk, order, []) == (fs, NotFound)
  {
    var fs: Fs := map[[] := Dir(None), ["w"] := Dir(None), ["w", "level.dat"] := File([1], None)];
    var afterFile := fs - {["w", "level.dat"]};
    assert DeleteEntry(fs, {}, ["w", "level.dat"]) == Some(afterFile);
    assert afterFile == map[[] := Dir(None), ["w"] := Dir(None)];
    var cleared := afterFile - {["w"]};
    assert cleared.Keys == {[]};
    assert cleared == map[[] := Dir(None)];
    assert !HasChildren(afterFile, ["w"]) by {
      forall q | q in afterFile ensures !IsChild(["w"], q) {
        assert q == [] || q == ["w"];
      }
    }
    assert DeleteEntry(afterFile, {}, ["w"]) == Some(cleared);
    assert DeleteAll(fs, {}, [["w", "level.dat"], ["w"]]) == Outcome(cleared, None);
    assert !Exists(cleared, {}, ["b"]);
  }
}
