/**
 * Backup names: the random five-digit id, the `yyyy-MM-dd_HH-mm-ss` timestamp, the directory
 * name `<timestamp>_<id>`, and the list command's parsing of `manual_<name>` / `auto_<name>`
 * back into type, id, date and time.
 */
module Naming {
  import opened Wrappers
  import opened Text

  /** The two kinds of backup. */
  datatype Category = Manual | Auto

  /** The folder under `server_backups` that holds a category. */
  function FolderName(c: Category): string {
    if c == Manual then "manual_backups" else "auto_backups"
  }

  /** The prefix the list command puts before a directory name of the category. */
  function KeyPrefix(c: Category): string {
    if c == Manual then "manual_" else "auto_"
  }

  /**
   * `generateRandomSaveId`: `Integer.toString(rand.nextInt(90000) + 10000)`, where `draw` is the
   * value `nextInt(90000)` returned.
   */
  function SaveId(draw: nat): (id: string)
    requires draw < 90000
    ensures |id| == 5 && forall i :: 0 <= i < |id| ==> IsDigit(id[i])
    ensures 10000 <= Value(id) <= 99999 && Value(id) == draw + 10000
  {
    assert Pow10(4) == 10000 && Pow10(5) == 100000;
    DigitsLength(draw + 10000, 4);
    ValueOfDigits(draw + 10000);
    Digits(draw + 10000)
  }

  /** The calendar fields `new Date()` is formatted from. */
  datatype DateTime = DateTime(year: nat, month: nat, day: nat, hour: nat, minute: nat, second: nat)

  /** `new SimpleDateFormat("yyyy-MM-dd_HH-mm-ss").format(date)`. */
  function Timestamp(t: DateTime): string {
    DatePart(t) + "_" + TimePart(t)
  }

  function DatePart(t: DateTime): string {
    Pad(t.year, 4) + "-" + Pad(t.month, 2) + "-" + Pad(t.day, 2)
  }

  function TimePart(t: DateTime): string {
    Pad(t.hour, 2) + "-" + Pad(t.minute, 2) + "-" + Pad(t.second, 2)
  }

  /** The backup directory's name: `timestamp + "_" + backupID`. */
  function BackupName(t: DateTime, id: string): string {
    Timestamp(t) + "_" + id
  }

  /** One line of the list command: type letter, id, date with '/', time with ':'. */
  datatype Row = Row(kind: char, id: string, date: string, time: string)

  /**
   * The parsing loop of `listBackups` for one key: the type from the prefix, the name after it
   * split on '_', and the key skipped (None) when there are fewer than three parts.
   */
  function ListRow(key: string): (r: Option<Row>)
    requires StartsWith(key, "manual_") || StartsWith(key, "auto_")
    ensures r.Some? ==> (r.value.kind == 'M' <==> StartsWith(key, "manual_"))
    ensures r.Some? ==> (r.value.kind == 'A' <==> !StartsWith(key, "manual_"))
    ensures r.Some? ==> '_' !in r.value.id && '_' !in r.value.date && '_' !in r.value.time
    ensures r.Some? ==> '-' !in r.value.date && '-' !in r.value.time
  {
    PrefixDecides(key);
    var kind := if StartsWith(key, "manual") then 'M' else 'A';
    var name := key[(if kind == 'M' then 7 else 5)..];
    var parts := Split(name, '_');
    if |parts| < 3 then None
    else Some(Row(kind, parts[2], Replace(parts[0], '-', '/'), Replace(parts[1], '-', ':')))
  }

  // ---------------------------------------------------------------------------------------------
  // Lemmas
  // ---------------------------------------------------------------------------------------------

  /** A key made by the list command starts with "manual" exactly when it starts with "manual_". */
  lemma PrefixDecides(key: string)
    requires StartsWith(key, "manual_") || StartsWith(key, "auto_")
    ensures StartsWith(key, "manual") <==> StartsWith(key, "manual_")
  {
    if StartsWith(key, "auto_") {
      assert key[0] == 'a';
    }
  }

  /** Replacing a separator that the three pieces do not hold changes only the separators. */
  lemma ReplaceThree(a: string, b: string, c: string, x: char, y: char)
    requires x !in a && x !in b && x !in c
    ensures Replace(a + [x] + b + [x] + c, x, y) == a + [y] + b + [y] + c
  {
    var s := a + [x] + b + [x] + c;
    var r := Replace(s, x, y);
    var e := a + [y] + b + [y] + c;
    forall i | 0 <= i < |s| ensures r[i] == e[i] {
      if i < |a| {
        assert s[i] == a[i] && e[i] == a[i];
      } else if i == |a| {
      } else if i < |a| + 1 + |b| {
        assert s[i] == b[i - |a| - 1] && e[i] == b[i - |a| - 1];
      } else if i == |a| + 1 + |b| {
      } else {
        assert s[i] == c[i - |a| - 2 - |b|] && e[i] == c[i - |a| - 2 - |b|];
      }
    }
  }

  /** A string of digits holds neither separator. */
  lemma DigitsHoldNoSeparator(s: string)
    requires forall i :: 0 <= i < |s| ==> IsDigit(s[i])
    ensures '_' !in s && '-' !in s
  {
  }

  /** Only digits and the two separators. */
  predicate NameChars(s: string) {
    forall i :: 0 <= i < |s| ==> IsDigit(s[i]) || s[i] == '-' || s[i] == '_'
  }

  lemma NameCharsAppend(a: string, b: string)
    requires NameChars(a) && NameChars(b)
    ensures NameChars(a + b)
  {
    forall i | 0 <= i < |a + b| ensures IsDigit((a + b)[i]) || (a + b)[i] == '-' || (a + b)[i] == '_' {
      if i >= |a| {
        assert (a + b)[i] == b[i - |a|];
      }
    }
  }

  /** A backup directory name is a single, non-empty path element: it holds no '/'. */
  lemma BackupNameIsElement(t: DateTime, id: string)
    requires forall i :: 0 <= i < |id| ==> IsDigit(id[i])
    ensures |BackupName(t, id)| > 0 && '/' !in BackupName(t, id)
  {
    var y, mo, d := Pad(t.year, 4), Pad(t.month, 2), Pad(t.day, 2);
    var h, mi, se := Pad(t.hour, 2), Pad(t.minute, 2), Pad(t.second, 2);
    assert NameChars(y) && NameChars(mo) && NameChars(d) && NameChars(h) && NameChars(mi) && NameChars(se);
    assert NameChars("-") && NameChars("_") && NameChars(id);
    NameCharsAppend(y, "-"); NameCharsAppend(y + "-", mo); NameCharsAppend(y + "-" + mo, "-");
    NameCharsAppend(y + "-" + mo + "-", d);
    NameCharsAppend(h, "-"); NameCharsAppend(h + "-", mi); NameCharsAppend(h + "-" + mi, "-");
    NameCharsAppend(h + "-" + mi + "-", se);
    NameCharsAppend(DatePart(t), "_"); NameCharsAppend(DatePart(t) + "_", TimePart(t));
    NameCharsAppend(Timestamp(t), "_"); NameCharsAppend(Timestamp(t) + "_", id);
    assert NameChars(BackupName(t, id));
  }

  /** A backup directory name splits on '_' into exactly its date, time and id. */
  lemma SplitBackupName(t: DateTime, id: string)
    requires |id| > 0 && forall i :: 0 <= i < |id| ==> IsDigit(id[i])
    ensures Split(BackupName(t, id), '_') == [DatePart(t), TimePart(t), id]
  {
    var y, mo, d := Pad(t.year, 4), Pad(t.month, 2), Pad(t.day, 2);
    var h, mi, se := Pad(t.hour, 2), Pad(t.minute, 2), Pad(t.second, 2);
    DigitsHoldNoSeparator(y); DigitsHoldNoSeparator(mo); DigitsHoldNoSeparator(d);
    DigitsHoldNoSeparator(h); DigitsHoldNoSeparator(mi); DigitsHoldNoSeparator(se);
    DigitsHoldNoSeparator(id);
    assert '_' !in DatePart(t) && '_' !in TimePart(t);
    assert BackupName(t, id) == DatePart(t) + ['_'] + TimePart(t) + ['_'] + id;
    SplitThree(DatePart(t), TimePart(t), id, '_');
  }

  /** The list command's date: the date part with '/' for '-'. */
  lemma DateShown(t: DateTime)
    ensures Replace(DatePart(t), '-', '/') == Pad(t.year, 4) + "/" + Pad(t.month, 2) + "/" + Pad(t.day, 2)
  {
    var y, mo, d := Pad(t.year, 4), Pad(t.month, 2), Pad(t.day, 2);
    DigitsHoldNoSeparator(y); DigitsHoldNoSeparator(mo); DigitsHoldNoSeparator(d);
    assert DatePart(t) == y + ['-'] + mo + ['-'] + d;
    ReplaceThree(y, mo, d, '-', '/');
  }

  /** The list command's time: the time part with ':' for '-'. */
  lemma TimeShown(t: DateTime)
    ensures Replace(TimePart(t), '-', ':') == Pad(t.hour, 2) + ":" + Pad(t.minute, 2) + ":" + Pad(t.second, 2)
  {
    var h, mi, se := Pad(t.hour, 2), Pad(t.minute, 2), Pad(t.second, 2);
    DigitsHoldNoSeparator(h); DigitsHoldNoSeparator(mi); DigitsHoldNoSeparator(se);
    assert TimePart(t) == h + ['-'] + mi + ['-'] + se;
    ReplaceThree(h, mi, se, '-', ':');
  }

  /** The name after a category's prefix, and the letter the list command shows for it. */
  lemma KeyOfCategory(c: Category, name: string)
    ensures var key := KeyPrefix(c) + name;
      && (StartsWith(key, "manual_") || StartsWith(key, "auto_"))
      && (StartsWith(key, "manual") <==> c == Manual)
      && key[|KeyPrefix(c)|..] == name
  {
    var key := KeyPrefix(c) + name;
    if c == Manual {
      assert key[..7] == "manual_" && key[..6] == "manual";
    } else {
      assert key[..5] == "auto_";
      assert key[0] == 'a';
    }
  }

  /**
   * The list command reads a backup directory name back: the key `<prefix><timestamp>_<id>` of a
   * generated id gives the category's letter, that id, the date with '/' and the time with ':'.
   */
  lemma ListRowOfBackupName(c: Category, t: DateTime, draw: nat)
    requires draw < 90000
    ensures var key := KeyPrefix(c) + BackupName(t, SaveId(draw));
      (StartsWith(key, "manual_") || StartsWith(key, "auto_")) &&
      ListRow(key) == Some(Row(
        if c == Manual then 'M' else 'A',
        SaveId(draw),
        Pad(t.year, 4) + "/" + Pad(t.month, 2) + "/" + Pad(t.day, 2),
        Pad(t.hour, 2) + ":" + Pad(t.minute, 2) + ":" + Pad(t.second, 2)))
  {
    KeyOfCategory(c, BackupName(t, SaveId(draw)));
    SplitBackupName(t, SaveId(draw));
    DateShown(t);
    TimeShown(t);
  }

  /** A key whose name splits into fewer than three pieces is skipped. */
  lemma ListRowShort(c: Category, name: string)
    requires |Split(name, '_')| < 3
    ensures var key := KeyPrefix(c) + name;
      (StartsWith(key, "manual_") || StartsWith(key, "auto_")) && ListRow(key) == None
  {
    KeyOfCategory(c, name);
  }

  /** No '_', one '_', or a second '_' at the very end: fewer than three pieces. */
  lemma SplitShort(a: string, b: string)
    requires '_' !in a && '_' !in b
    ensures |Split(a, '_')| < 3
    ensures |Split(a + "_" + b, '_')| < 3
    ensures |Split(a + "_" + b + "_", '_')| < 3
  {
    var one := a + "_" + b;
    var two := a + "_" + b + "_";
    assert one[|a|] == '_' && two[|a|] == '_';
    FieldsTwo(a, b, '_');
    assert two == a + ['_'] + b + ['_'] + "";
    FieldsThree(a, b, "", '_');
    var pieces := [a, b, ""];
    assert pieces[|pieces| - 1] == "" && pieces[..|pieces| - 1] == [a, b];
  }

  /**
   * A key whose name splits into fewer than three pieces is skipped: a name with no '_', with one
   * '_', or with a second '_' at its very end (the trailing empty piece is dropped).
   */
  lemma ListRowSkipsUnsplittable(c: Category, a: string, b: string)
    requires '_' !in a && '_' !in b
    ensures var p := KeyPrefix(c);
      && (StartsWith(p + a, "manual_") || StartsWith(p + a, "auto_")) && ListRow(p + a) == None
      && (StartsWith(p + (a + "_" + b), "manual_") || StartsWith(p + (a + "_" + b), "auto_"))
      && ListRow(p + (a + "_" + b)) == None
      && (StartsWith(p + (a + "_" + b + "_"), "manual_") || StartsWith(p + (a + "_" + b + "_"), "auto_"))
      && ListRow(p + (a + "_" + b + "_")) == None
  {
    SplitShort(a, b);
    ListRowShort(c, a);
    ListRowShort(c, a + "_" + b);
    ListRowShort(c, a + "_" + b + "_");
  }
}
