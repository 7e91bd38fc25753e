/**
 * The few java.lang.String operations the backup engine relies on, over `string` (a sequence of
 * UTF-16 code units as `char`): lexicographic comparison, substring search, prefix test,
 * single-character replacement, splitting on one character, and decimal formatting.
 */
module Text {

  // ---------------------------------------------------------------------------------------------
  // Lexicographic order (String.compareTo)
  // ---------------------------------------------------------------------------------------------

  /** `a.compareTo(b) < 0`: the first differing character decides; a proper prefix comes first. */
  predicate Below(a: string, b: string)
    decreases |a|
  {
    if |a| == 0 then |b| > 0
    else if |b| == 0 then false
    else if a[0] == b[0] then Below(a[1..], b[1..])
    else a[0] < b[0]
  }

  lemma {:induction false} BelowIrreflexive(a: string)
    ensures !Below(a, a)
  {
    if |a| > 0 {
      BelowIrreflexive(a[1..]);
    }
  }

  lemma {:induction false} BelowAsymmetric(a: string, b: string)
    requires Below(a, b)
    ensures !Below(b, a)
  {
    if |a| > 0 && a[0] == b[0] {
      BelowAsymmetric(a[1..], b[1..]);
    }
  }

  lemma {:induction false} BelowTransitive(a: string, b: string, c: string)
    requires Below(a, b) && Below(b, c)
    ensures Below(a, c)
  {
    if |a| > 0 && a[0] == b[0] && b[0] == c[0] {
      BelowTransitive(a[1..], b[1..], c[1..]);
    }
  }

  lemma {:induction false} BelowTotal(a: string, b: string)
    ensures a == b || Below(a, b) || Below(b, a)
  {
    if |a| > 0 && |b| > 0 && a[0] == b[0] {
      BelowTotal(a[1..], b[1..]);
      if a[1..] == b[1..] {
        assert a == [a[0]] + a[1..] && b == [b[0]] + b[1..];
      }
    }
  }

  /** A proper prefix is below the longer string. */
  lemma {:induction false} PrefixBelow(a: string, b: string)
    requires |a| < |b| && b[..|a|] == a
    ensures Below(a, b)
  {
    if |a| > 0 {
      assert b[1..][..|a| - 1] == a[1..];
      PrefixBelow(a[1..], b[1..]);
    }
  }

  // ---------------------------------------------------------------------------------------------
  // Substrings and prefixes
  // ---------------------------------------------------------------------------------------------

  /** `s.contains(sub)`. */
  predicate Contains(s: string, sub: string) {
    exists i | 0 <= i <= |s| - |sub| :: OccursAt(s, sub, i)
  }

  /** `sub` occurs in `s` starting at index i. */
  predicate OccursAt(s: string, sub: string, i: int) {
    0 <= i && i + |sub| <= |s| && s[i..i + |sub|] == sub
  }

  /** `s.startsWith(pre)`. */
  predicate StartsWith(s: string, pre: string) {
    |pre| <= |s| && s[..|pre|] == pre
  }

  /** What a string contains, every extension of it contains too. */
  lemma ContainsExtends(a: string, b: string, sub: string)
    requires Contains(a, sub) && StartsWith(b, a)
    ensures Contains(b, sub)
  {
    var i :| 0 <= i <= |a| - |sub| && OccursAt(a, sub, i);
    assert b[..|a|] == a;
    assert b[i..i + |sub|] == b[..|a|][i..i + |sub|];
    assert OccursAt(b, sub, i);
  }

  // ---------------------------------------------------------------------------------------------
  // replace and split
  // ---------------------------------------------------------------------------------------------

  /** `s.replace(x, y)` for one-character strings x and y: every x becomes y. */
  function Replace(s: string, x: char, y: char): (r: string)
    ensures |r| == |s|
    ensures forall i :: 0 <= i < |s| ==> r[i] == (if s[i] == x then y else s[i])
  {
    seq(|s|, i requires 0 <= i < |s| => if s[i] == x then y else s[i])
  }

  /** `s.indexOf(c)` when c occurs in s. */
  function IndexOf(s: string, c: char): (k: nat)
    requires c in s
    ensures k < |s| && s[k] == c && c !in s[..k]
  {
    if s[0] == c then 0
    else
      var k := 1 + IndexOf(s[1..], c);
      assert s[..k] == [s[0]] + s[1..][..k - 1];
      k
  }

  /** Every piece between occurrences of `c`, the empty ones included. */
  function Fields(s: string, c: char): (r: seq<string>)
    ensures |r| >= 1
    ensures forall i :: 0 <= i < |r| ==> c !in r[i]
    decreases |s|
  {
    if c !in s then [s]
    else
      var k := IndexOf(s, c);
      [s[..k]] + Fields(s[k + 1..], c)
  }

  /** The pieces with the trailing empty ones removed. */
  function DropTrailingEmpty(r: seq<string>): (t: seq<string>)
    ensures |t| <= |r| && t == r[..|t|]
  {
    if r != [] && r[|r| - 1] == "" then DropTrailingEmpty(r[..|r| - 1]) else r
  }

  /**
   * `s.split(c)` with Java's rules for a one-character literal pattern and limit 0: when c does
   * not occur the result is `[s]` (so `"".split` is `[""]`); otherwise all pieces, minus the
   * trailing empty ones.
   */
  function Split(s: string, c: char): (r: seq<string>)
    ensures forall i :: 0 <= i < |r| ==> c !in r[i]
  {
    if c !in s then [s] else DropTrailingEmpty(Fields(s, c))
  }

  /** The first occurrence of c is found right after a prefix that does not hold it. */
  lemma {:induction false} IndexOfAfter(a: string, c: char, rest: string)
    requires c !in a
    ensures c in a + [c] + rest && IndexOf(a + [c] + rest, c) == |a|
  {
    var s := a + [c] + rest;
    assert s[|a|] == c;
    if |a| > 0 {
      assert s[1..] == a[1..] + [c] + rest;
      IndexOfAfter(a[1..], c, rest);
    }
  }

  /** Splitting off a piece free of the separator. */
  lemma FieldsCons(a: string, c: char, rest: string)
    requires c !in a
    ensures Fields(a + [c] + rest, c) == [a] + Fields(rest, c)
  {
    var s := a + [c] + rest;
    IndexOfAfter(a, c, rest);
    assert s[..|a|] == a && s[|a| + 1..] == rest;
  }

  /** The pieces of two separator-free strings joined by c. */
  lemma FieldsTwo(b: string, d: string, c: char)
    requires c !in b && c !in d
    ensures Fields(b + [c] + d, c) == [b, d]
  {
    FieldsCons(b, c, d);
    assert Fields(d, c) == [d];
  }

  /** The pieces of three separator-free strings joined by c. */
  lemma FieldsThree(a: string, b: string, d: string, c: char)
    requires c !in a && c !in b && c !in d
    ensures Fields(a + [c] + b + [c] + d, c) == [a, b, d]
  {
    var tail := b + [c] + d;
    assert a + [c] + tail == a + [c] + b + [c] + d;
    FieldsTwo(b, d, c);
    FieldsCons(a, c, tail);
  }

  /** Three separator-free pieces joined by c, the last non-empty, split back into exactly those pieces. */
  lemma SplitThree(a: string, b: string, d: string, c: char)
    requires c !in a && c !in b && c !in d && d != ""
    ensures Split(a + [c] + b + [c] + d, c) == [a, b, d]
  {
    var s := a + [c] + b + [c] + d;
    assert s[|a|] == c;
    FieldsThree(a, b, d, c);
  }

  // ---------------------------------------------------------------------------------------------
  // Decimal numbers
  // ---------------------------------------------------------------------------------------------

  predicate IsDigit(ch: char) {
    '0' <= ch <= '9'
  }

  function DigitChar(d: nat): (ch: char)
    requires d < 10
    ensures IsDigit(ch) && ch as int - '0' as int == d
  {
    (d + '0' as int) as char
  }

  function DigitValue(ch: char): (d: nat)
    requires IsDigit(ch)
    ensures d < 10
  {
    ch as int - '0' as int
  }

  /** `Integer.toString(n)` for n >= 0: the decimal digits, no leading zero. */
  function Digits(n: nat): (s: string)
    ensures |s| >= 1 && forall i :: 0 <= i < |s| ==> IsDigit(s[i])
  {
    if n < 10 then [DigitChar(n)] else Digits(n / 10) + [DigitChar(n % 10)]
  }

  /** The number a string of decimal digits denotes (the inverse of Digits). */
  function Value(s: string): nat
    requires forall i :: 0 <= i < |s| ==> IsDigit(s[i])
  {
    if s == [] then 0 else 10 * Value(s[..|s| - 1]) + DigitValue(s[|s| - 1])
  }

  function Pow10(k: nat): (r: nat)
    ensures r >= 1
  {
    if k == 0 then 1 else 10 * Pow10(k - 1)
  }

  /** Reading the digits back gives the number. */
  lemma {:induction false} ValueOfDigits(n: nat)
    ensures Value(Digits(n)) == n
  {
    if n >= 10 {
      ValueOfDigits(n / 10);
      var s := Digits(n);
      assert s[..|s| - 1] == Digits(n / 10);
    }
  }

  /** A number in [10^k, 10^(k+1)) has exactly k + 1 digits. */
  lemma {:induction false} DigitsLength(n: nat, k: nat)
    requires Pow10(k) <= n < Pow10(k + 1)
    ensures |Digits(n)| == k + 1
  {
    if k > 0 {
      assert Pow10(k) == 10 * Pow10(k - 1);
      assert Pow10(k + 1) == 10 * Pow10(k);
      assert Pow10(k - 1) <= n / 10 < Pow10(k);
      DigitsLength(n / 10, k - 1);
    }
  }

  /** k zero digits. */
  function Zeros(k: nat): (s: string)
    ensures |s| == k && forall i :: 0 <= i < k ==> s[i] == '0'
  {
    seq(k, _ => '0')
  }

  /** Zeros in front do not change the number a string of digits denotes. */
  lemma {:induction false} LeadingZerosValue(k: nat, d: string)
    requires forall i :: 0 <= i < |d| ==> IsDigit(d[i])
    ensures Value(Zeros(k) + d) == Value(d)
    decreases |d| + k
  {
    var s := Zeros(k) + d;
    if d != [] {
      assert s[..|s| - 1] == Zeros(k) + d[..|d| - 1];
      LeadingZerosValue(k, d[..|d| - 1]);
    } else if k > 0 {
      assert s[..|s| - 1] == Zeros(k - 1) + d;
      LeadingZerosValue(k - 1, d);
    }
  }

  /**
   * A calendar field as SimpleDateFormat prints it with a pattern of w letters: the decimal
   * digits of n, zero-padded on the left to w when shorter, never cut when longer.
   */
  function Pad(n: nat, w: nat): (s: string)
    ensures |s| == if |Digits(n)| >= w then |Digits(n)| else w
    ensures forall i :: 0 <= i < |s| ==> IsDigit(s[i])
    ensures Value(s) == n
  {
    var d := Digits(n);
    ValueOfDigits(n);
    if |d| >= w then d
    else
      LeadingZerosValue(w - |d|, d);
      Zeros(w - |d|) + d
  }
}
