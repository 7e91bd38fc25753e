/**
 * Absolute filesystem paths as java.nio.file.Path values on a Unix file system: a path is the
 * sequence of its name elements from the root, `[]` being `/`. A name element is never empty and
 * never holds the separator, so a path and its string determine each other.
 */
module Paths {
  import opened Text

  /** One name element. */
  type Segment = s: string | s != "" && '/' !in s witness "a"

  /** An absolute path; `[]` is the root. */
  type Path = seq<Segment>

  /** `b.startsWith(a)`: a is b or one of its ancestors. */
  predicate IsPrefix(a: Path, b: Path) {
    |a| <= |b| && b[..|a|] == a
  }

  /** `q.getParent().equals(p)`. */
  predicate IsChild(p: Path, q: Path) {
    |q| == |p| + 1 && IsPrefix(p, q)
  }

  function Parent(p: Path): Path
    requires p != []
  {
    p[..|p| - 1]
  }

  /** The string of a non-root path: "/" before every name element. */
  function Join(p: Path): string {
    if p == [] then "" else "/" + p[0] + Join(p[1..])
  }

  /** `p.toString()`. */
  function PathString(p: Path): (s: string)
    ensures |s| >= 1 && s[0] == '/'
  {
    if p == [] then "/" else Join(p)
  }

  /** `p.getFileName().toString()`; the root has no file name and gives "" here. */
  function FileName(p: Path): string {
    if p == [] then "" else p[|p| - 1]
  }

  /** `base.relativize(p)` for p inside base. */
  function Relativize(base: Path, p: Path): Path
    requires IsPrefix(base, p)
  {
    p[|base|..]
  }

  /**
   * `getNameCount()` of a relative path: the empty relative path (base relativized against
   * itself) still has one, empty, name element.
   */
  function NameCount(rel: Path): nat {
    if rel == [] then 1 else |rel|
  }

  /** `p.compareTo(q) < 0`: the path strings compared character by character. */
  predicate Precedes(p: Path, q: Path) {
    Below(PathString(p), PathString(q))
  }

  /**
   * p comes before q in a depth-first walk that takes the entries of each directory by name:
   * the name elements compared one by one, an ancestor before everything inside it.
   */
  predicate WalkPrecedes(p: Path, q: Path)
    decreases |p|
  {
    if p == [] then q != []
    else if q == [] then false
    else if p[0] == q[0] then WalkPrecedes(p[1..], q[1..])
    else Below(p[0], q[0])
  }

  /** The two orders paths are put in: `compareTo` (what `sorted` uses) and the walk's. */
  datatype Ordering = CompareTo | DepthFirst

  predicate Before(o: Ordering, p: Path, q: Path) {
    if o == CompareTo then Precedes(p, q) else WalkPrecedes(p, q)
  }

  // ---------------------------------------------------------------------------------------------
  // Paths.get
  // ---------------------------------------------------------------------------------------------

  /** The name elements of a path string: split on '/', empty pieces (repeated separators) dropped. */
  function Segments(s: string): Path
    decreases |s|
  {
    if s == [] then []
    else if s[0] == '/' then Segments(s[1..])
    else if '/' in s then
      var k := IndexOf(s, '/');
      [s[..k]] + Segments(s[k..])
    else [s]
  }

  /** `Paths.get(s)`, resolved against the working directory `cwd` when s is relative. */
  function ParsePath(cwd: Path, s: string): Path {
    if s != [] && s[0] == '/' then Segments(s) else cwd + Segments(s)
  }

  // ---------------------------------------------------------------------------------------------
  // Lemmas
  // ---------------------------------------------------------------------------------------------

  lemma {:induction false} JoinAppend(a: Path, b: Path)
    ensures Join(a + b) == Join(a) + Join(b)
  {
    if a == [] {
      assert a + b == b;
    } else {
      assert (a + b)[0] == a[0] && (a + b)[1..] == a[1..] + b;
      JoinAppend(a[1..], b);
    }
  }

  /** The string of an ancestor is a prefix of the string of a descendant, a proper one if distinct. */
  lemma AncestorStringPrefix(a: Path, b: Path)
    requires IsPrefix(a, b)
    ensures StartsWith(PathString(b), PathString(a))
    ensures a != b ==> |PathString(a)| < |PathString(b)|
  {
    var rest := b[|a|..];
    assert b == a + rest;
    JoinAppend(a, rest);
    if a == [] && b != [] {
      assert Join(b)[..1] == "/";
    }
  }

  /** An ancestor comes before each of its descendants in `compareTo` order. */
  lemma AncestorPrecedes(a: Path, b: Path)
    requires IsPrefix(a, b) && a != b
    ensures Precedes(a, b)
  {
    AncestorStringPrefix(a, b);
    PrefixBelow(PathString(a), PathString(b));
  }

  /** A name element followed by nothing or by a separator is read as one element. */
  lemma SegmentsStep(x: Segment, t: string)
    requires t == [] || t[0] == '/'
    ensures Segments(x + t) == [x] + Segments(t)
  {
    var s := x + t;
    assert s[0] == x[0];
    if t == [] {
      assert s == x;
    } else {
      IndexOfAfter(x, '/', t[1..]);
      assert x + ['/'] + t[1..] == s;
      assert s[..|x|] == x && s[|x|..] == t;
    }
  }

  /** Parsing the string of a path gives the path back. */
  lemma {:induction false} SegmentsOfJoin(p: Path)
    ensures Segments(Join(p)) == p
  {
    if p != [] {
      var s := p[0] + Join(p[1..]);
      assert Join(p) == "/" + s && Join(p)[1..] == s;
      SegmentsStep(p[0], Join(p[1..]));
      SegmentsOfJoin(p[1..]);
      assert p == [p[0]] + p[1..];
    }
  }

  /** `Paths.get(p.toString()).equals(p)` for an absolute path, whatever the working directory. */
  lemma ParsePathString(cwd: Path, p: Path)
    ensures ParsePath(cwd, PathString(p)) == p
  {
    if p == [] {
      assert Segments("/") == Segments("");
    } else {
      SegmentsOfJoin(p);
    }
  }

  /** `compareTo` orders any two distinct paths one way or the other. */
  lemma PrecedesTotal(p: Path, q: Path)
    ensures p == q || Precedes(p, q) || Precedes(q, p)
  {
    BelowTotal(PathString(p), PathString(q));
    ParsePathString([], p);
    ParsePathString([], q);
  }

  lemma PrecedesAsymmetric(p: Path, q: Path)
    requires Precedes(p, q)
    ensures !Precedes(q, p) && p != q
  {
    BelowAsymmetric(PathString(p), PathString(q));
  }

  lemma PrecedesTransitive(p: Path, q: Path, r: Path)
    requires Precedes(p, q) && Precedes(q, r)
    ensures Precedes(p, r)
  {
    BelowTransitive(PathString(p), PathString(q), PathString(r));
  }

  /** The walk order compares any two distinct paths one way or the other. */
  lemma {:induction false} WalkPrecedesTotal(p: Path, q: Path)
    ensures p == q || WalkPrecedes(p, q) || WalkPrecedes(q, p)
    decreases |p|
  {
    if p != [] && q != [] {
      if p[0] == q[0] {
        WalkPrecedesTotal(p[1..], q[1..]);
        if p[1..] == q[1..] {
          assert p == [p[0]] + p[1..] && q == [q[0]] + q[1..];
        }
      } else {
        BelowTotal(p[0], q[0]);
      }
    }
  }

  lemma {:induction false} WalkPrecedesAsymmetric(p: Path, q: Path)
    requires WalkPrecedes(p, q)
    ensures !WalkPrecedes(q, p) && p != q
    decreases |p|
  {
    if p != [] {
      if p[0] == q[0] {
        WalkPrecedesAsymmetric(p[1..], q[1..]);
      } else {
        BelowAsymmetric(p[0], q[0]);
      }
    }
  }

  lemma {:induction false} WalkPrecedesTransitive(p: Path, q: Path, r: Path)
    requires WalkPrecedes(p, q) && WalkPrecedes(q, r)
    ensures WalkPrecedes(p, r)
    decreases |p|
  {
    if p != [] {
      if p[0] == q[0] && q[0] == r[0] {
        WalkPrecedesTransitive(p[1..], q[1..], r[1..]);
      } else if p[0] != q[0] && q[0] != r[0] {
        BelowTransitive(p[0], q[0], r[0]);
        if p[0] == r[0] {
          BelowAsymmetric(p[0], q[0]);
        }
      }
    }
  }

  /** An ancestor comes before each of its descendants in the walk. */
  lemma {:induction false} AncestorWalkPrecedes(a: Path, b: Path)
    requires IsPrefix(a, b) && a != b
    ensures WalkPrecedes(a, b)
    decreases |a|
  {
    if a != [] {
      assert b[0] == a[0] && b[1..][..|a| - 1] == a[1..];
      AncestorWalkPrecedes(a[1..], b[1..]);
    }
  }

  /**
   * The walk finishes a directory's subtree before it leaves it: whatever comes between a
   * directory and something inside it is inside it too.
   */
  lemma {:induction false} WalkContiguous(a: Path, b: Path, c: Path)
    requires WalkPrecedes(a, b) && WalkPrecedes(b, c) && IsPrefix(a, c)
    ensures IsPrefix(a, b)
    decreases |a|
  {
    if a != [] {
      assert c[0] == a[0] && c[1..][..|a| - 1] == a[1..];
      if b[0] == a[0] {
        WalkContiguous(a[1..], b[1..], c[1..]);
        assert b[..|a|] == [b[0]] + b[1..][..|a| - 1];
        assert a == [a[0]] + a[1..];
      } else {
        BelowAsymmetric(a[0], b[0]);
      }
    }
  }

  lemma BeforeTotal(o: Ordering, p: Path, q: Path)
    ensures p == q || Before(o, p, q) || Before(o, q, p)
  {
    if o == CompareTo {
      PrecedesTotal(p, q);
    } else {
      WalkPrecedesTotal(p, q);
    }
  }

  lemma BeforeAsymmetric(o: Ordering, p: Path, q: Path)
    requires Before(o, p, q)
    ensures !Before(o, q, p) && p != q
  {
    if o == CompareTo {
      PrecedesAsymmetric(p, q);
    } else {
      WalkPrecedesAsymmetric(p, q);
    }
  }

  lemma BeforeTransitive(o: Ordering, p: Path, q: Path, r: Path)
    requires Before(o, p, q) && Before(o, q, r)
    ensures Before(o, p, r)
  {
    if o == CompareTo {
      PrecedesTransitive(p, q, r);
    } else {
      WalkPrecedesTransitive(p, q, r);
    }
  }

  /** m comes before every other path of s. */
  predicate FirstOf(o: Ordering, m: Path, s: set<Path>) {
    m in s && forall q :: q in s && q != m ==> Before(o, m, q)
  }

  /** Every finite non-empty set of paths has a first element, in either order. */
  lemma {:induction false} MinimumExists(o: Ordering, s: set<Path>)
    requires s != {}
    ensures exists m :: FirstOf(o, m, s)
    decreases |s|
  {
    var x :| x in s;
    if s == {x} {
      assert FirstOf(o, x, s);
    } else {
      var rest := s - {x};
      MinimumExists(o, rest);
      var m :| FirstOf(o, m, rest);
      BeforeTotal(o, x, m);
      if Before(o, x, m) {
        forall q | q in s && q != x ensures Before(o, x, q) {
          if q != m {
            assert q in rest;
            BeforeTransitive(o, x, m, q);
          }
        }
        assert FirstOf(o, x, s);
      } else {
        forall q | q in s && q != m ensures Before(o, m, q) {
          if q != x {
            assert q in rest;
          }
        }
        assert FirstOf(o, m, s);
      }
    }
  }
}
