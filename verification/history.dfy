/**
 * The backup history store: the id → backup-directory map, saved to `backup_history.json` as an
 * object of id → path string, and loaded back keeping only entries whose path is still a
 * directory. Gson is not modelled: the file's content is one of the outcomes the loader tells
 * apart.
 */
module History {
  import opened Wrappers
  import opened Paths
  import opened FileTree

  /** The contents of the history file, as the loader sees them. */
  datatype Json =
    | Empty                                  // no characters: `reader.ready()` is false
    | NullDocument                           // only blanks or `null`: `fromJson` returns null
    | Malformed                              // `fromJson` throws JsonSyntaxException
    | Object(fields: map<string, string>)    // a JSON object of strings

  datatype HistoryFile = Absent | Present(content: Json)

  /**
   * The result of `loadBackupHistory`: the new history map, the file afterwards, and whether a
   * NullPointerException escaped (a null document).
   */
  datatype Loaded = Loaded(history: map<string, Path>, file: HistoryFile, crashed: bool)

  /** The id → path-string map that `saveBackupHistory` hands to Gson. */
  function Encode(h: map<string, Path>): map<string, string> {
    map id | id in h :: PathString(h[id])
  }

  /** The entries `loadBackupHistory` keeps: each path string parsed, kept only if it is a directory. */
  function Decode(fields: map<string, string>, fs: Fs, faults: set<Path>, cwd: Path): map<string, Path> {
    map id | id in fields && IsDirectory(fs, faults, ParsePath(cwd, fields[id])) :: ParsePath(cwd, fields[id])
  }

  /** The entries of fields whose id is in keys. */
  function Restrict(fields: map<string, string>, keys: set<string>): map<string, string> {
    map id | id in fields && id in keys :: fields[id]
  }

  /** The entries of h whose backup is still a directory. */
  function StillPresent(h: map<string, Path>, fs: Fs, faults: set<Path>): map<string, Path> {
    map id | id in h && IsDirectory(fs, faults, h[id]) :: h[id]
  }

  /** `saveBackupHistory`: the file is rewritten with the encoded map unless opening it fails. */
  function Save(h: map<string, Path>, file: HistoryFile, writeOk: bool): HistoryFile {
    if writeOk then Present(Object(Encode(h))) else file
  }

  /** `resetBackupHistoryFile`: the file becomes `{}` unless opening it fails. */
  function Reset(file: HistoryFile, writeOk: bool): HistoryFile {
    if writeOk then Present(Object(map[])) else file
  }

  /**
   * `loadBackupHistory`. A missing file is first created empty (unless that fails); a file that
   * cannot be read, or is empty, gives an empty history; malformed JSON gives an empty history and
   * resets the file; a null document clears the history and then dereferences null.
   */
  function Load(file: HistoryFile, createOk: bool, readOk: bool, writeOk: bool, fs: Fs, faults: set<Path>, cwd: Path): (l: Loaded)
    ensures forall id :: id in l.history ==> IsDirectory(fs, faults, l.history[id])
    ensures forall id :: id in l.history ==>
      file.Present? && file.content.Object? && id in file.content.fields
      && l.history[id] == ParsePath(cwd, file.content.fields[id])
    ensures l.crashed ==> l.history == map[] && file.Present? && file.content == NullDocument
    ensures !readOk ==> l.history == map[] && !l.crashed
    ensures l.file == file || (file.Absent? && l.file == Present(Empty)) || (writeOk && l.file == Present(Object(map[])))
  {
    var f := if file.Absent? && createOk then Present(Empty) else file;
    if f.Absent? || !readOk then Loaded(map[], f, false)
    else
      match f.content
      case Empty => Loaded(map[], f, false)
      case NullDocument => Loaded(map[], f, true)
      case Malformed => Loaded(map[], Reset(f, writeOk), false)
      case Object(fields) => Loaded(Decode(fields, fs, faults, cwd), f, false)
  }

  // ---------------------------------------------------------------------------------------------
  // Lemmas
  // ---------------------------------------------------------------------------------------------

  /** Decoding one more entry adds it exactly when its path names a directory. */
  lemma DecodeAdd(fields: map<string, string>, keys: set<string>, id: string, fs: Fs, faults: set<Path>, cwd: Path)
    requires id in fields
    ensures var p := ParsePath(cwd, fields[id]);
      var before := Decode(Restrict(fields, keys), fs, faults, cwd);
      Decode(Restrict(fields, keys + {id}), fs, faults, cwd) == if IsDirectory(fs, faults, p) then before[id := p] else before
  {
    var p := ParsePath(cwd, fields[id]);
    var before := Decode(Restrict(fields, keys), fs, faults, cwd);
    var after := Decode(Restrict(fields, keys + {id}), fs, faults, cwd);
    if IsDirectory(fs, faults, p) {
      assert after.Keys == before.Keys + {id};
    } else {
      assert after.Keys == before.Keys;
    }
  }

  /**
   * Loading what was saved yields exactly the saved entries whose backup is still a directory,
   * whatever the working directory, and leaves the file as saved.
   */
  lemma LoadAfterSave(h: map<string, Path>, file: HistoryFile, createOk: bool, writeOk: bool, fs: Fs, faults: set<Path>, cwd: Path)
    ensures Load(Save(h, file, true), createOk, true, writeOk, fs, faults, cwd)
      == Loaded(StillPresent(h, fs, faults), Save(h, file, true), false)
  {
    var fields := Encode(h);
    forall id | id in h ensures ParsePath(cwd, fields[id]) == h[id] {
      ParsePathString(cwd, h[id]);
    }
    assert Decode(fields, fs, faults, cwd) == StillPresent(h, fs, faults);
  }

  /** Malformed JSON leaves an empty history and, when the file can be written, a file holding `{}`. */
  lemma LoadMalformed(createOk: bool, writeOk: bool, fs: Fs, faults: set<Path>, cwd: Path)
    ensures var l := Load(Present(Malformed), createOk, true, writeOk, fs, faults, cwd);
      l.history == map[] && !l.crashed && (writeOk ==> l.file == Present(Object(map[])))
  {
  }

  /** A load after a reset yields an empty history and keeps the file as it is. */
  lemma LoadAfterReset(file: HistoryFile, createOk: bool, writeOk: bool, fs: Fs, faults: set<Path>, cwd: Path)
    ensures Load(Reset(file, true), createOk, true, writeOk, fs, faults, cwd) == Loaded(map[], Reset(file, true), false)
  {
  }
}
