# ServerBackup: a verified model of the backup engine

ServerBackup is a server-side Minecraft mod that takes snapshots of the world directory. A snapshot
is made on command or every `backupDelayMinutes` minutes of server ticks. The mod keeps a history
mapping five-digit backup ids to backup directories, stored as JSON in `backup_history.json`. It
prunes the oldest automatic backups, and it restores a backup over the world. This project models
the file-system engine behind those commands, from the class `ServerBackup`:

- the recursive copy with its filters;
- the recursive delete;
- the retention rule;
- saving, loading and resetting the history file;
- the snapshot pipeline with its temporary directory;
- restore;
- backup-id generation;
- the parsing of backup names by the list command;
- the tick counter and the delay setting.

The model is organised as follows:

- **File system.** The file system is a finite map from absolute paths to entries (`FileTree`).
  Every entry is a directory or a file, with a last-modified time that may be unreadable. A set
  of *faulty* paths stands for every I/O error the JDK could raise: any operation touching a
  faulty path fails, and `exists`/`isDirectory` answer false there.
- **Path order.** Paths are put in two orders. `compareTo` compares their strings
  (`Paths.Precedes`); `deleteDirectory` sorts with it. The walk order compares the name elements
  one by one (`Paths.WalkPrecedes`), so a directory comes before its contents and its subtree is
  finished before the walk moves on.
- **Walks.** A `Files.walk` is an explicit order of the subtree (`Walks.WalkOrder`): each path
  once, each directory before what it contains, and each subtree contiguous. The class method
  `Engine.ServerBackup.Walk` produces the subtree in walk order. The walk reads every entry it
  reaches, so a refused entry anywhere in it makes it throw (`Walks.FirstRefused`).
- **Imperative parts.** The class `Engine.ServerBackup` holds the mutable state:
  - the file system;
  - the history map and the history file;
  - the tick counter and the delay.

  Its methods are loops over walks and listings. Each one is proved equal to a pure function in
  `TreeCopy`, `TreeRemove`, `Retention`, `History` or `Restore`. The properties the mod promises
  are proved about those functions.
- **Pure parts.** The filters, comparators, string splitting and replacement, id range and
  counter arithmetic are functions in `Text`, `Paths`, `Naming`, `Scheduler` and `TreeCopy`.

Failures are modelled as two kinds of exception:
- **Checked.** The checked `IOException` thrown by `Files.walk`, `Files.list`, `Files.move`,
  `createDirectories` and `createTempDirectory`.
- **Unchecked.** The `RuntimeException` that the `forEach` bodies of `copyDirectory` and
  `deleteDirectory` wrap around an `IOException`.

The distinction matters because every `catch` in the class catches only `IOException`.

The path of every source cell below is relative to the repository root.

## Model

| member | source | states |
|---|---|---|
| Text.SplitThree | src/main/java/com/ExcuseMeImJack/ServerBackup.java:363 | `String.split` on a separator gives exactly the three pieces of `a_b_c` when they hold no separator. |
| Text.Split | src/main/java/com/ExcuseMeImJack/ServerBackup.java:363 | No piece of `String.split` holds the separator. |
| Text.ValueOfDigits | src/main/java/com/ExcuseMeImJack/ServerBackup.java:541 | `Integer.toString` of a non-negative number gives digits that read back as that number. |
| Text.Pad | src/main/java/com/ExcuseMeImJack/ServerBackup.java:151 | A date field printed with w pattern letters holds only digits, reads back as the field's value, and is exactly w long, or as long as the number when that is longer. |
| Text.DigitsLength | src/main/java/com/ExcuseMeImJack/ServerBackup.java:540-541 | A number in [10^k, 10^(k+1)) prints as exactly k + 1 digits. |
| Paths.ParsePathString | src/main/java/com/ExcuseMeImJack/ServerBackup.java:223 | `Paths.get(p.toString())` gives back p, whatever the working directory. This is the round trip that loading a saved history path (written with `toString` at line 191) relies on. |
| Paths.PrecedesTotal | src/main/java/com/ExcuseMeImJack/ServerBackup.java:528 | The `compareTo` order used to sort the delete walk orders any two distinct paths. |
| Paths.PrecedesTransitive | src/main/java/com/ExcuseMeImJack/ServerBackup.java:528 | The `compareTo` order is transitive. With `Paths.PrecedesAsymmetric`, this makes it a strict total order, so the sort is well defined. |
| Paths.AncestorPrecedes | src/main/java/com/ExcuseMeImJack/ServerBackup.java:528 | A directory comes before everything inside it in `compareTo` order, so the reversed order puts contents first. |
| Paths.WalkPrecedesTotal | src/main/java/com/ExcuseMeImJack/ServerBackup.java:501 | The walk order compares any two distinct paths. |
| Paths.WalkPrecedesTransitive | src/main/java/com/ExcuseMeImJack/ServerBackup.java:501 | The walk order is transitive. With `Paths.WalkPrecedesAsymmetric`, it is a strict total order. |
| Paths.AncestorWalkPrecedes | src/main/java/com/ExcuseMeImJack/ServerBackup.java:501 | The walk visits a directory before everything inside it. |
| Paths.WalkContiguous | src/main/java/com/ExcuseMeImJack/ServerBackup.java:501 | The walk finishes a directory's subtree before it leaves it: whatever comes between a directory and something inside it is inside it too. |
| Paths.MinimumExists | src/main/java/com/ExcuseMeImJack/ServerBackup.java:501-528 | Every non-empty set of walked paths has a first path, in either order. |
| FileTree.CreateDirectories | src/main/java/com/ExcuseMeImJack/ServerBackup.java:149 | On success the target is a directory, nothing that existed changes, and every new entry is a directory on the way to the target. |
| FileTree.MoveResult | src/main/java/com/ExcuseMeImJack/ServerBackup.java:162 | A successful move leaves nothing at the source and puts the source node at the destination. Entries outside the two subtrees are kept. |
| FileTree.MoveRenames | src/main/java/com/ExcuseMeImJack/ServerBackup.java:162 | A successful move to another place re-roots the whole temporary tree under the destination. |
| FileTree.MoveKeepsShape | src/main/java/com/ExcuseMeImJack/ServerBackup.java:162 | A successful move keeps the file system a tree. |
| Walks.SortedDistinct | src/main/java/com/ExcuseMeImJack/ServerBackup.java:528 | A strictly sorted order holds no path twice. |
| Walks.FirstRefused | src/main/java/com/ExcuseMeImJack/ServerBackup.java:501 | The walk throws exactly when one of its paths is refused, and then at a refused path it lists. |
| Walks.DepthFirstIsWalkOrder | src/main/java/com/ExcuseMeImJack/ServerBackup.java:501 | The subtree in walk order is an order `Files.walk` may produce: each path once, directories first, each subtree contiguous. |
| TreeRemove.DeleteAll | src/main/java/com/ExcuseMeImJack/ServerBackup.java:529-535 | When the delete `forEach` runs to the end, exactly the visited entries are gone. |
| TreeRemove.DeleteAllRemoves | src/main/java/com/ExcuseMeImJack/ServerBackup.java:529-535 | The delete loop only removes entries, and only ones it visited. It keeps the tree shape, and a failure is unchecked and names a visited path. |
| TreeRemove.DeleteAllStops | src/main/java/com/ExcuseMeImJack/ServerBackup.java:529-535 | The first failing delete stops the loop. The failure names a visited path, and every entry outside the paths visited before it is still there, unchanged. |
| TreeRemove.DeleteAllClean | src/main/java/com/ExcuseMeImJack/ServerBackup.java:529-535 | Given children before parents and no refused entry, every delete succeeds and exactly the visited entries are gone. |
| TreeRemove.ReverseDescending | src/main/java/com/ExcuseMeImJack/ServerBackup.java:528 | Sorting by `b.compareTo(a)` is the ascending order reversed, over the same paths. |
| TreeRemove.DescendingChildrenFirst | src/main/java/com/ExcuseMeImJack/ServerBackup.java:527-528 | Reverse `compareTo` order over a subtree puts every child before its parent. |
| TreeRemove.DeleteDirectory | src/main/java/com/ExcuseMeImJack/ServerBackup.java:526-536 | `sorted` drains the whole walk before the first delete, so a refused entry under the root fails the call with nothing deleted. |
| TreeRemove.DeleteDirectoryRemovesSubtree | src/main/java/com/ExcuseMeImJack/ServerBackup.java:526-536 | `deleteDirectory` succeeds exactly when the root exists and nothing under it is refused, and then removes exactly the subtree. Otherwise nothing changes, and an existing root fails unchecked at a refused path under it. The tree shape is kept. |
| TreeCopy.CopyStep | src/main/java/com/ExcuseMeImJack/ServerBackup.java:501-523 | One walked path: a refused path throws before any filter, a filtered-out one changes nothing, and a step never removes an entry. |
| TreeCopy.CopyDirectory | src/main/java/com/ExcuseMeImJack/ServerBackup.java:500-524 | The copy never removes an entry; a failure is the checked one at the source or an unchecked one at a walked path. |
| TreeCopy.KeepInherited | src/main/java/com/ExcuseMeImJack/ServerBackup.java:502-511 | Whatever passes both filters, its ancestors pass the path-string and bound tests too, so their targets can be created. |
| TreeCopy.CopyStepEffect | src/main/java/com/ExcuseMeImJack/ServerBackup.java:512-523 | One walked path: a filtered-out path changes nothing. A kept one writes its target, creates only directories leading to it, and removes nothing. |
| TreeCopy.CopyAllFrame | src/main/java/com/ExcuseMeImJack/ServerBackup.java:500-524 | The copy never removes an entry and changes only targets of walked paths. It creates only targets of kept paths and directories leading to them, and keeps the tree shape. |
| TreeCopy.RefusedEntryStopsCopy | src/main/java/com/ExcuseMeImJack/ServerBackup.java:501-511 | A refused entry anywhere in the walk, filtered out or not, makes the copy fail. |
| TreeCopy.CopyAllStaysInTarget | src/main/java/com/ExcuseMeImJack/ServerBackup.java:512-523 | Copying into an existing directory changes and creates entries only inside it, and keeps the tree shape. |
| TreeCopy.CopyAllAppend | src/main/java/com/ExcuseMeImJack/ServerBackup.java:512-523 | The `forEach` fails fast: a run over a + b is the run over a, then, if that succeeded, the run over b. |
| TreeCopy.CopyAllMirror | src/main/java/com/ExcuseMeImJack/ServerBackup.java:512-523 | A complete copy into a separate tree mirrors every kept path. The target is a directory for a directory, and otherwise holds the file's bytes, replacing what was there. |
| TreeCopy.ExcludedNotCreated | src/main/java/com/ExcuseMeImJack/ServerBackup.java:502-511 | An excluded path with no kept path below it never appears in the target. |
| TreeCopy.FilteredNeverCreated | src/main/java/com/ExcuseMeImJack/ServerBackup.java:503-510 | A path whose string holds `logs` or `tmp`, or that is deeper than 3 or longer than 200 characters, never appears in the target. |
| TreeCopy.WalkInside | src/main/java/com/ExcuseMeImJack/ServerBackup.java:501 | A walk of the subtree at the source stays under the source. |
| TreeCopy.MirrorsAfterMove | src/main/java/com/ExcuseMeImJack/ServerBackup.java:162 | Moving the temporary copy to its destination carries each copied entry along unchanged. |
| TreeCopy.CopyThenMove | src/main/java/com/ExcuseMeImJack/ServerBackup.java:161-162 | A complete copy of the world into the temporary directory, then a move to the destination, puts every kept world entry at its place under the destination. |
| Retention.SortByTime | src/main/java/com/ExcuseMeImJack/ServerBackup.java:258-265 | The comparator sort orders the backups by time and is a permutation of the listing. |
| Retention.Victims | src/main/java/com/ExcuseMeImJack/ServerBackup.java:268-273 | The loop deletes the first `size - max` of the sorted list when there are more than `max` backups, and none otherwise. |
| Retention.SortByTimeStable | src/main/java/com/ExcuseMeImJack/ServerBackup.java:258-265 | The sort is stable: backups with equal times keep their listing order, and ties are not broken by path. |
| Retention.SurvivorsCount | src/main/java/com/ExcuseMeImJack/ServerBackup.java:268-273 | Exactly `min(count, max)` backups survive, and victims followed by survivors is the sorted list. |
| Retention.VictimsOldest | src/main/java/com/ExcuseMeImJack/ServerBackup.java:268-273 | No deleted backup is newer than a kept one. |
| Retention.RetentionIdempotent | src/main/java/com/ExcuseMeImJack/ServerBackup.java:268-273 | Pruning the survivors of a sorted list again selects no victims. The real second call is covered by `Engine.ServerBackup.LimitBackups`. |
| Retention.VictimsDistinct | src/main/java/com/ExcuseMeImJack/ServerBackup.java:257-273 | A listing without repeats gives victims without repeats. |
| Retention.ListingFacts | src/main/java/com/ExcuseMeImJack/ServerBackup.java:257-273 | A listing without repeats counts the folder's directories. Its victims are distinct directories of the folder, strictly inside it, and they never cover a regular file there. A folder within the limit has no victims. |
| Retention.FirstBlocked | src/main/java/com/ExcuseMeImJack/ServerBackup.java:268-273 | The number of victims the loop deletes before the first one with a refused entry: every earlier victim is clear, and the one there is blocked. |
| Retention.PrunedKeepsOtherEntries | src/main/java/com/ExcuseMeImJack/ServerBackup.java:257 | Only directories are deleted, so a regular file in the backups folder is never touched. |
| Retention.PrunedSiblings | src/main/java/com/ExcuseMeImJack/ServerBackup.java:268-273 | Deleting earlier victims leaves the next victim's subtree as it was. |
| Retention.ChildrenShrink | src/main/java/com/ExcuseMeImJack/ServerBackup.java:268-273 | Removing entries never adds a directory to the folder's listing, so it never raises the count. |
| Retention.PrunedChildren | src/main/java/com/ExcuseMeImJack/ServerBackup.java:268-273 | Deleting listed directories takes exactly those out of the folder's directory listing. |
| Retention.PrunedFolder | src/main/java/com/ExcuseMeImJack/ServerBackup.java:255-274 | After the loop, the folder holds its old directories minus the victims: at most `max` of them. |
| History.Load | src/main/java/com/ExcuseMeImJack/ServerBackup.java:201-242 | Every loaded id is in the file, maps to its recorded path parsed, and is a directory now. A read error, or a load that dereferences a JSON `null`, loads nothing. The file is only kept, created empty, or reset to `{}` when writable. |
| History.LoadAfterSave | src/main/java/com/ExcuseMeImJack/ServerBackup.java:186-229 | Loading a saved history yields exactly the saved entries whose backup is still a directory, and leaves the file as saved. |
| History.LoadMalformed | src/main/java/com/ExcuseMeImJack/ServerBackup.java:234-237 | Malformed JSON gives an empty history and a file reset to `{}` when it can be written. |
| History.LoadAfterReset | src/main/java/com/ExcuseMeImJack/ServerBackup.java:244-253 | Loading after a reset gives an empty history and keeps the file. |
| Naming.SaveId | src/main/java/com/ExcuseMeImJack/ServerBackup.java:538-542 | An id is five digits whose value is `nextInt(90000) + 10000`, in [10000, 99999]. |
| Naming.BackupNameIsElement | src/main/java/com/ExcuseMeImJack/ServerBackup.java:151-154 | `timestamp + "_" + id` is a single non-empty path element, so `resolve` adds exactly one level. |
| Naming.SplitBackupName | src/main/java/com/ExcuseMeImJack/ServerBackup.java:363 | A backup directory name splits on `_` into exactly its date, its time and its id. |
| Naming.DateShown | src/main/java/com/ExcuseMeImJack/ServerBackup.java:368 | The list shows the date as `yyyy/MM/dd`. |
| Naming.TimeShown | src/main/java/com/ExcuseMeImJack/ServerBackup.java:369 | The list shows the time as `HH:mm:ss`. |
| Naming.PrefixDecides | src/main/java/com/ExcuseMeImJack/ServerBackup.java:360 | For the keys the list builds, `startsWith("manual")` decides the category exactly. |
| Naming.KeyOfCategory | src/main/java/com/ExcuseMeImJack/ServerBackup.java:360-361 | The type letter is M or A by category, and the substring after 7 or 5 characters is the directory name. |
| Naming.ListRow | src/main/java/com/ExcuseMeImJack/ServerBackup.java:359-370 | A parsed row's letter is M exactly for a `manual_` key and A otherwise. Its id, date and time hold no `_`, and its date and time hold no `-`. |
| Naming.ListRowOfBackupName | src/main/java/com/ExcuseMeImJack/ServerBackup.java:359-370 | The list reads a generated backup name back: the category letter, the id, the date with `/` and the time with `:`. |
| Naming.ListRowShort | src/main/java/com/ExcuseMeImJack/ServerBackup.java:363-366 | Any name that splits into fewer than three pieces is skipped. |
| Naming.ListRowSkipsUnsplittable | src/main/java/com/ExcuseMeImJack/ServerBackup.java:363-366 | Names with no `_`, with one `_`, or with a second `_` at the very end, where `split` drops the trailing empty piece, are all skipped. |
| Scheduler.Wrap | src/main/java/com/ExcuseMeImJack/ServerBackup.java:569-570 | Java `int` arithmetic: the exact value when it fits, and otherwise the value congruent modulo 2^32. |
| Scheduler.CounterAfterAsWritten | src/main/java/com/ExcuseMeImJack/ServerBackup.java:567-581 | The handler as written: the counter is the corrected one unless the backup ended with an unchecked exception, and then it is just incremented, reset skipped. |
| Scheduler.CounterStep | src/main/java/com/ExcuseMeImJack/ServerBackup.java:569-578 | For a positive delay the counter stays in [0, delay·1200). A tick is due exactly when it reaches delay·1200, and then the counter resets. |
| Scheduler.CounterCounts | src/main/java/com/ExcuseMeImJack/ServerBackup.java:569-570 | From a reset, the counter counts the ticks, and no tick before the delay·1200-th is due. |
| Scheduler.BackupPeriod | src/main/java/com/ExcuseMeImJack/ServerBackup.java:567-581 | Backups start every delay·1200 ticks: the last of them is due, and the counter is then back at 0. |
| Scheduler.NonPositiveDelayAlwaysDue | src/main/java/com/ExcuseMeImJack/ServerBackup.java:312-318 | A delay of zero or below, which the command accepts unchecked, makes every tick start a backup. |
| Scheduler.UncheckedFailureSkipsReset | src/main/java/com/ExcuseMeImJack/ServerBackup.java:572-578 | As written, an unchecked failure at tick 12000 (delay 10) leaves the counter at 12000, so the next call of the handler is due again. |
| Scheduler.AsWrittenStaysDue | src/main/java/com/ExcuseMeImJack/ServerBackup.java:572-578 | As written, after an unchecked failure past the threshold, every later call of the handler is due, if the server survives the escaping exception and keeps calling it. |
| Restore.RestoreWorldAsWritten | src/main/java/com/ExcuseMeImJack/ServerBackup.java:389-425 | As written, only an id missing from the history is reported as not found, and then nothing changes. |
| Restore.RestoreWorld | src/main/java/com/ExcuseMeImJack/ServerBackup.java:389-425 | The guarded restore refuses exactly a missing id or a backup that is no longer a directory, and then changes nothing. |
| Restore.RestoreMissingBackupLosesWorld | src/main/java/com/ExcuseMeImJack/ServerBackup.java:427-431 | `restoreBackup` from a missing backup deletes the whole world, then fails with a checked error, and nothing is copied back. |
| Restore.RestoreWorldGuarded | src/main/java/com/ExcuseMeImJack/ServerBackup.java:389-431 | The guarded restore refuses a missing id or a vanished backup without changes. Otherwise it is exactly the restore as written. |
| Restore.PrunedEntryLosesWorld | src/main/java/com/ExcuseMeImJack/ServerBackup.java:268-273 | An id whose directory retention deleted: the restore as written destroys the world and fails, while the guarded one refuses and keeps the file system. |
| Restore.PrunedBackupDestroysWorld | src/main/java/com/ExcuseMeImJack/ServerBackup.java:395-431 | On a concrete server, restoring a pruned backup as written leaves no world; the guarded restore keeps it. |
| Engine.SelectMinimum | src/main/java/com/ExcuseMeImJack/ServerBackup.java:528 | Taking the first remaining path extends the sorted prefix. |
| Engine.SortPaths | src/main/java/com/ExcuseMeImJack/ServerBackup.java:527-528 | Sorting the walked set gives every path once, in ascending order. |
| Engine.StagedFrame | src/main/java/com/ExcuseMeImJack/ServerBackup.java:149-158 | Creating the category folder and the temporary directory keeps every entry, and adds only the new temporary directory and directories on the way to the folder. |
| Engine.CopyMoveFrame | src/main/java/com/ExcuseMeImJack/ServerBackup.java:161-162 | The copy and the move keep every entry outside the temporary directory and the folder, and add entries only there. |
| Engine.ServerBackup.constructor | src/main/java/com/ExcuseMeImJack/ServerBackup.java:44-46 | A fresh instance has counter 0, delay 10 and an empty history. |
| Engine.ServerBackup.Walk | src/main/java/com/ExcuseMeImJack/ServerBackup.java:501 | The walk of a root visits exactly its subtree, sorted in walk order, which is an order `Files.walk` may produce. |
| Engine.ServerBackup.CopyDirectory | src/main/java/com/ExcuseMeImJack/ServerBackup.java:500-524 | The copy loop ends in the state, and with the failure, given by the pure copy over a valid walk of the source. |
| Engine.ServerBackup.DeleteDirectory | src/main/java/com/ExcuseMeImJack/ServerBackup.java:526-536 | The method matches the pure delete over a valid walk and its reverse `compareTo` order. It is all or nothing: it succeeds exactly when the root exists and nothing under it is refused, and then removes exactly the subtree; otherwise nothing changes. |
| Engine.ServerBackup.DeleteEach | src/main/java/com/ExcuseMeImJack/ServerBackup.java:529-535 | The `forEach` of `deleteDirectory` ends in the state, and with the failure, of the pure delete loop over the same order. |
| Engine.ServerBackup.LimitBackups | src/main/java/com/ExcuseMeImJack/ServerBackup.java:255-274 | An unlistable folder gives a checked failure with no change. Otherwise the victims are the oldest `count - max` directories in time order, and the loop deletes them in that order up to the first one with a refused entry, where it fails unchecked. It succeeds exactly when no victim is blocked; then at most `max` remain. Files in the folder stay, and a folder holding at most `max` directories is untouched. The listing holds each directory once, and the folder is still a directory afterwards. So after a successful call, a second call changes nothing. |
| Engine.ServerBackup.DeleteOldest | src/main/java/com/ExcuseMeImJack/ServerBackup.java:268-273 | The `while` loop deletes the victims in order and stops at the first blocked one, failing there. On success the folder is pruned of exactly them. |
| Engine.ServerBackup.DeleteVictim | src/main/java/com/ExcuseMeImJack/ServerBackup.java:269-272 | One round of the retention loop deletes the next victim's subtree. It fails exactly when that subtree holds a refused entry, and then changes nothing. |
| Engine.ServerBackup.SaveBackupHistory | src/main/java/com/ExcuseMeImJack/ServerBackup.java:186-199 | The file holds the id → path-string map, or is unchanged when it cannot be opened. Nothing else changes. |
| Engine.ServerBackup.ResetBackupHistoryFile | src/main/java/com/ExcuseMeImJack/ServerBackup.java:244-253 | The file holds `{}`, or is unchanged when it cannot be opened. |
| Engine.ServerBackup.LoadBackupHistory | src/main/java/com/ExcuseMeImJack/ServerBackup.java:201-242 | The history, the file and whether the load crashed are those of the pure loader, which has every branch of the source. |
| Engine.ServerBackup.DecodeEntries | src/main/java/com/ExcuseMeImJack/ServerBackup.java:222-229 | The loop over the parsed object keeps exactly the ids whose parsed path is a directory now. |
| Engine.ServerBackup.BackupWorld | src/main/java/com/ExcuseMeImJack/ServerBackup.java:143-184 | The full contract is listed after this table. |
| Engine.ServerBackup.Stage | src/main/java/com/ExcuseMeImJack/ServerBackup.java:149-156 | Creating the folder and then the temporary directory succeeds exactly when both calls do, and ends with the temporary directory in place. A failure is checked. Every existing entry is kept, and new entries are only the temporary directory and directories on the way to the folder. |
| Engine.ServerBackup.CopyIntoPlace | src/main/java/com/ExcuseMeImJack/ServerBackup.java:160-167 | The move happens exactly when the copy and the move succeed, and only then is the id recorded. A run that did not move fails with the state the copy left. On success a manual folder holds at most 5. Only the temporary directory and the folder change. |
| Engine.ServerBackup.CopyAndMove | src/main/java/com/ExcuseMeImJack/ServerBackup.java:161-162 | The state and failure are those of the copy then the move. It moves exactly when both succeed, and then every kept world entry is mirrored under the destination. |
| Engine.ServerBackup.RemoveTemporary | src/main/java/com/ExcuseMeImJack/ServerBackup.java:171-175 | The `finally` block deletes a temporary directory that still exists, and removes nothing outside it. With nothing refused under it, it is gone and the pending failure stands. Otherwise nothing changes and its unchecked failure, at a refused path under it, replaces the pending one. |
| Engine.ServerBackup.FinishBackup | src/main/java/com/ExcuseMeImJack/ServerBackup.java:171-183 | After the `try` block: a pending failure, or a cleanup failure that replaces it, ends the run without saving the history file. Success means nothing threw, the file was saved, the temporary directory is gone, and the folder holds at most 5 or `MAX_BACKUPS`. Only entries under the temporary directory or the folder are removed, and nothing is added. |
| Engine.ServerBackup.RestoreBackup | src/main/java/com/ExcuseMeImJack/ServerBackup.java:427-431 | The method matches the pure restore: delete the world, and then copy the backup if the delete succeeded. |
| Engine.ServerBackup.RestoreWorld | src/main/java/com/ExcuseMeImJack/ServerBackup.java:389-425 | The method matches the guarded restore of the history entry. |
| Engine.ServerBackup.Tick | src/main/java/com/ExcuseMeImJack/ServerBackup.java:567-581 | The tick is due exactly when the incremented counter reaches delay·1200. A due tick runs an automatic backup with the whole `BackupWorld` contract. The counter is reset after any due tick, and a quiet tick changes nothing else. |
| Engine.ServerBackup.SetBackupDelay | src/main/java/com/ExcuseMeImJack/ServerBackup.java:312-318 | The delay becomes the argument unchecked, and nothing else changes. |

The contract of `Engine.ServerBackup.BackupWorld` (the predicate `Backed`, which `Tick` also states for a due tick):
- The id is a fresh five-digit id, and the destination is `<server>/server_backups/<folder>/<timestamp>_<id>`.
- The world is copied over a valid walk of it.
- The move happens exactly when creating the folder and the temporary directory, the copy and the move all succeed.
- The history gains the id exactly when the move happened.
- A run that did not move fails and leaves the history file alone.
- Success implies the move happened, the history file was saved, the temporary directory is gone, and the folder holds at most 5 (manual) or `MAX_BACKUPS` (automatic) backups.
- Every entry outside the temporary directory and the folder is kept unchanged. New entries lie only under those two or on the way to the folder. The tree shape is kept.
- The temporary directory is gone on every exit path when it was fresh, is not an ancestor of the backups folder, and nothing under it is refused.
- After a move, every kept world entry is mirrored under the destination.

## Left out

- Command registration, argument parsing and all chat output (lines 57-140 and the `Text` building in 320-384) are not modelled. Only the parsing loop of the list command (359-370) is.
- The list command's collection of keys from both folders and its sort by key are not modelled. Only how one key is parsed is.
- `restorePlayerInventory`, `syncPlayerData` and `getPlayerUUID` are not modelled. They act on players and the game, not on backups.
- Disconnecting players and `server.execute(... server.stop ...)` after a restore are not modelled: they are game-server effects.
- The background thread that runs a manual backup is not modelled. The model runs each operation to completion and says nothing about concurrent runs.
- `Date`, `Random` and the clock are inputs:
  - `when` is the formatted date;
  - `draw` is what `nextInt(90000)` returned;
  - `now` is the time stamped on created entries;
  - `temp` is the name `createTempDirectory` chose.
- Gson is not modelled byte for byte. A history file is absent, unreadable, empty, malformed, the JSON `null`, or a string map. Opening it for writing, creating it and reading it are boolean inputs.
- Logging is not modelled.
- Real I/O errors are modelled as a fixed set of faulty paths. Which errors the JDK raises, and when, is abstracted to "an operation touching such a path fails".
- `Files.move` is modelled as a rename within one file store. Across file stores, moving the non-empty temporary directory throws an `IOException` (`DirectoryNotEmptyException`) and copies nothing. `createTempDirectory` places the directory under `java.io.tmpdir`, which may be another file store than the server's; the model's move succeeds there, where the source's backup fails at line 162.
- `Files.createDirectories` is modelled as all-or-nothing. The real call may leave some ancestors created when it fails part-way.
- Creating or deleting an entry does not update its parent directory's modification time. Retention sorts by the backup directory's own time, which the move keeps.
- `Files.walk` is a lazy stream, but it is modelled as a snapshot of the subtree, taken when the walk starts. The copy never writes inside its own source, because the temporary directory and the world are separate, so the snapshot and the stream agree there. A refused entry is one whose attributes cannot be read: the copy fails at that entry's step, before either filter sees it, and the delete, whose `sorted` drains the whole walk first, fails before deleting anything. Entries that become unreadable while the walk runs are not modelled.
- Walk: `Files.walk` takes the entries of each directory in directory-stream order, which the JDK leaves unspecified. The model takes them by name (`Paths.WalkPrecedes`). Every order it produces is a depth-first walk order (`Walks.WalkOrder`), but which walk order a real directory yields is not modelled, so a copy that fails part-way may have copied a different set of paths than the source.
- The world directory is taken to be an absolute path. The source makes only the server directory absolute (line 144); `getSavePath` (line 155) may return a relative path. Then the `logs`/`tmp` tests and the 200-character bound of the copy filter (lines 503-510) see the relative string, not the absolute `Paths.PathString` the model tests.
- `Files.list` order is not specified by the JDK, and it is modelled as name order. Retention's sort is stable, so ties in modification time keep that order and are not broken by name. The code, not a stated design, decides this.
- An `InvalidPathException` from `Paths.get` on a stored string is not modelled. Every stored string parses.
- `Retention.Victims`: `maxBackups` is a `nat`. The source only ever passes 5.
- `Engine.ServerBackup.BackupWorld`: the ghost out-parameter `backup` is the file system right after the move, and the mirroring property is stated against it. Later pruning in the same run may delete that very backup, if the folder held more than five newer ones.
- `Engine.ServerBackup.RestoreWorld`: checks that the backup is still a directory before deleting the world. This is the corrected behaviour; the as-written restore is `Restore.RestoreWorldAsWritten` (see Findings).
- `Engine.ServerBackup.Tick`: resets the counter after every due tick, whatever exception the backup ended with. This is the corrected behaviour; the as-written handler is `Scheduler.CounterAfterAsWritten` (see Findings).

## Findings

| source | as written | input that shows it | evidently intended | confidence | as-written member | corrected member |
|---|---|---|---|---|---|---|
| src/main/java/com/ExcuseMeImJack/ServerBackup.java:572-578 | The reset `ticksSinceLastBackup = 0` follows a `try` that catches only `IOException`. The copy and delete loops throw `RuntimeException`, which skips the reset. | Delay 10: the tick that reaches 12000 starts a backup, and a world file fails to copy. The counter stays at 12000, and the exception escapes the tick handler. If the server survives that exception and keeps calling the handler, every later tick is due (`Scheduler.AsWrittenStaysDue`). | The counter is reset after every attempted backup, so that backups run once per delay. | not executed | Scheduler.UncheckedFailureSkipsReset | Scheduler.BackupPeriod |
| src/main/java/com/ExcuseMeImJack/ServerBackup.java:395-431 | `restoreWorld` checks only that the id is in the history. `limitBackups` deletes old backup directories but never removes their ids. `restoreBackup` deletes the world before it tries to copy. | The history maps `12345` to `/b`, which pruning deleted, and the world `/w` holds `level.dat`. Restoring `12345` deletes `/w`, then the walk of `/b` throws, and no world is left. | A backup that no longer exists is refused before the world is touched. | not executed | Restore.PrunedBackupDestroysWorld | Restore.RestoreWorldGuarded |
