/**
 * The parts of Go's `strings`, `path` and `sort` packages that the takeout
 * solver and the grouping engine rely on, over Dafny strings (one char per
 * Unicode scalar value).
 */
module GoStrings {

  // ---------------------------------------------------------------------
  // Characters and prefixes
  // ---------------------------------------------------------------------

  predicate IsDigit(c: char) { '0' <= c <= '9' }

  predicate AllDigits(s: string) { forall i :: 0 <= i < |s| ==> IsDigit(s[i]) }

  /** strings.HasPrefix */
  predicate HasPrefix(s: string, prefix: string) {
    |prefix| <= |s| && s[..|prefix|] == prefix
  }

  /** strings.HasSuffix */
  predicate HasSuffix(s: string, suffix: string) {
    |suffix| <= |s| && s[|s| - |suffix|..] == suffix
  }

  /** strings.TrimSuffix: drops `suffix` once when `s` ends with it. */
  function TrimSuffix(s: string, suffix: string): (r: string)
    ensures HasSuffix(s, suffix) ==> r + suffix == s
    ensures !HasSuffix(s, suffix) ==> r == s
  {
    if HasSuffix(s, suffix) then
      assert s[..|s| - |suffix|] + s[|s| - |suffix|..] == s;
      s[..|s| - |suffix|]
    else s
  }

  /** strings.Contains */
  predicate Contains(s: string, sub: string) {
    exists i :: 0 <= i <= |s| && OccursAt(s, sub, i)
  }

  predicate OccursAt(s: string, sub: string, i: int) {
    0 <= i && i + |sub| <= |s| && s[i..i + |sub|] == sub
  }

  /** strings.ToUpper / strings.ToLower, restricted to the ASCII letters. */
  function UpperChar(c: char): char {
    if 'a' <= c <= 'z' then (c as int - 32) as char else c
  }

  function LowerChar(c: char): char {
    if 'A' <= c <= 'Z' then (c as int + 32) as char else c
  }

  function ToUpper(s: string): (r: string)
    ensures |r| == |s| && forall i :: 0 <= i < |s| ==> r[i] == UpperChar(s[i])
  {
    seq(|s|, i requires 0 <= i < |s| => UpperChar(s[i]))
  }

  function ToLower(s: string): (r: string)
    ensures |r| == |s| && forall i :: 0 <= i < |s| ==> r[i] == LowerChar(s[i])
  {
    seq(|s|, i requires 0 <= i < |s| => LowerChar(s[i]))
  }

  // ---------------------------------------------------------------------
  // Decimal digit strings (the digit loop of strconv.Atoi)
  // ---------------------------------------------------------------------

  function DigitOf(c: char): int
    requires IsDigit(c)
  {
    c as int - '0' as int
  }

  /** Horner evaluation of a digit string, starting from `acc`. */
  function Horner(acc: nat, s: string): nat
    requires AllDigits(s)
    decreases |s|
  {
    if s == [] then acc else Horner(acc * 10 + DigitOf(s[0]), s[1..])
  }

  lemma {:induction false} HornerGrows(acc: nat, s: string)
    requires AllDigits(s)
    ensures Horner(acc, s) >= acc
    decreases |s|
  {
    if s != [] {
      HornerGrows(acc * 10 + DigitOf(s[0]), s[1..]);
    }
  }

  lemma {:induction false} HornerAppend(acc: nat, s: string, c: char)
    requires AllDigits(s) && IsDigit(c)
    ensures AllDigits(s + [c])
    ensures Horner(acc, s + [c]) == Horner(acc, s) * 10 + DigitOf(c)
    decreases |s|
  {
    if s != [] {
      assert (s + [c])[1..] == s[1..] + [c];
      HornerAppend(acc * 10 + DigitOf(s[0]), s[1..], c);
    }
  }

  /** The value of a decimal digit string. */
  function DecimalValue(s: string): nat
    requires AllDigits(s)
  {
    Horner(0, s)
  }

  // ---------------------------------------------------------------------
  // strings.Compare and sorted key lists (gen.MapKeysSorted)
  // ---------------------------------------------------------------------

  /**
   * strings.Compare. Go compares the UTF-8 bytes; byte order of UTF-8 and
   * code point order agree, so comparing chars gives the same answer.
   */
  function Compare(a: string, b: string): (r: int)
    ensures -1 <= r <= 1
    ensures r == 0 <==> a == b
    decreases |a|
  {
    if a == [] && b == [] then 0
    else if a == [] then -1
    else if b == [] then 1
    else if a[0] < b[0] then -1
    else if a[0] > b[0] then 1
    else
      var r := Compare(a[1..], b[1..]);
      assert a == [a[0]] + a[1..] && b == [b[0]] + b[1..];
      r
  }

  predicate Less(a: string, b: string) { Compare(a, b) < 0 }

  /** `a` and `b` agree before position i, where `a` has the smaller character. */
  predicate SmallerAt(a: string, b: string, i: int) {
    0 <= i < |a| && i < |b| && a[..i] == b[..i] && a[i] < b[i]
  }

  /** Lexicographic order: a proper prefix comes first, otherwise the first differing character decides. */
  ghost predicate LexLess(a: string, b: string) {
    (|a| < |b| && a == b[..|a|]) || exists i :: SmallerAt(a, b, i)
  }

  /** strings.Compare orders strings lexicographically. */
  lemma {:induction false} CompareLexicographic(a: string, b: string)
    ensures Compare(a, b) < 0 <==> LexLess(a, b)
    decreases |a|
  {
    if a == [] || b == [] {
    } else if a[0] < b[0] {
      assert SmallerAt(a, b, 0);
    } else if a[0] > b[0] {
      assert forall i :: 0 < i <= |a| && i <= |b| ==> a[..i][0] == a[0] && b[..i][0] == b[0];
      assert !LexLess(a, b);
    } else {
      var a', b' := a[1..], b[1..];
      CompareLexicographic(a', b');
      assert Compare(a, b) == Compare(a', b') by {
        assert a == [a[0]] + a' && b == [b[0]] + b';
      }
      assert (|a| < |b| && a == b[..|a|]) <==> (|a'| < |b'| && a' == b'[..|a'|]) by {
        if |a| < |b| && a' == b'[..|a'|] {
          assert a == [a[0]] + a' && b[..|a|] == [b[0]] + b'[..|a'|];
        }
        if |a| < |b| && a == b[..|a|] {
          assert a' == b[..|a|][1..] == b'[..|a'|];
        }
      }
      forall i | SmallerAt(a, b, i) ensures SmallerAt(a', b', i - 1) {
        assert i > 0;
        assert a'[..i - 1] == a[..i][1..] && b'[..i - 1] == b[..i][1..];
      }
      forall i | SmallerAt(a', b', i) ensures SmallerAt(a, b, i + 1) {
        assert a[..i + 1] == [a[0]] + a'[..i] && b[..i + 1] == [b[0]] + b'[..i];
      }
    }
  }

  lemma {:induction false} CompareAntisymmetric(a: string, b: string)
    ensures Compare(a, b) == -Compare(b, a)
    decreases |a|
  {
    if a != [] && b != [] && a[0] == b[0] {
      CompareAntisymmetric(a[1..], b[1..]);
    }
  }

  lemma {:induction false} LessTransitive(a: string, b: string, c: string)
    requires Less(a, b) && Less(b, c)
    ensures Less(a, c)
    decreases |a|
  {
    if a != [] && b != [] && c != [] && a[0] == b[0] == c[0] {
      LessTransitive(a[1..], b[1..], c[1..]);
    }
  }

  /** Distinct strings are ordered one way or the other. */
  lemma LessTotal(a: string, b: string)
    requires a != b
    ensures Less(a, b) != Less(b, a)
  {
    CompareAntisymmetric(a, b);
  }

  predicate StrictlySorted(s: seq<string>) {
    forall i, j :: 0 <= i < j < |s| ==> Less(s[i], s[j])
  }

  /** Inserts a new string into a strictly sorted list. */
  function Insert(x: string, s: seq<string>): (r: seq<string>)
    requires StrictlySorted(s) && x !in s
    ensures StrictlySorted(r)
    ensures forall y :: y in r <==> y == x || y in s
  {
    if s == [] then [x]
    else if Less(x, s[0]) then
      assert forall j :: 0 <= j < |s| ==> Less(x, s[j]) by {
        forall j | 0 < j < |s| { LessTransitive(x, s[0], s[j]); }
      }
      [x] + s
    else
      assert s[0] != x;
      LessTotal(x, s[0]);
      var t := Insert(x, s[1..]);
      assert forall y :: y in s <==> y == s[0] || y in s[1..] by {
        assert s == [s[0]] + s[1..];
      }
      assert forall j :: 0 <= j < |t| ==> Less(s[0], t[j]) by {
        forall j | 0 <= j < |t| ensures Less(s[0], t[j]) {
          assert t[j] in t;
          if t[j] != x {
            var k :| 0 <= k < |s[1..]| && s[1..][k] == t[j];
            assert s[k + 1] == t[j];
          }
        }
      }
      [s[0]] + t
  }

  /** The one strictly sorted enumeration of a finite set of strings. */
  ghost function Sorted(s: set<string>): (r: seq<string>)
    ensures StrictlySorted(r)
    ensures forall y :: y in r <==> y in s
  {
    SortedExists(s);
    var r :| StrictlySorted(r) && (forall y :: y in r <==> y in s); r
  }

  lemma SortedExists(s: set<string>)
    ensures exists r :: StrictlySorted(r) && (forall y :: y in r <==> y in s)
    decreases s
  {
    if s == {} {
      assert StrictlySorted([]) && (forall y :: y in [] <==> y in s);
    } else {
      var x :| x in s;
      SortedExists(s - {x});
      var r' :| StrictlySorted(r') && (forall y :: y in r' <==> y in s - {x});
      var r := Insert(x, r');
      assert StrictlySorted(r) && (forall y :: y in r <==> y in s);
    }
  }

  /** A set has only one strictly sorted enumeration. */
  lemma {:induction false} SortedUnique(a: seq<string>, b: seq<string>)
    requires StrictlySorted(a) && StrictlySorted(b)
    requires forall y :: y in a <==> y in b
    ensures a == b
    decreases |a|
  {
    if a == [] {
      assert forall i :: 0 <= i < |b| ==> b[i] in b;
    } else {
      assert a[0] in a;
      assert b != [];
      if a[0] != b[0] {
        var k :| 0 <= k < |b| && b[k] == a[0];
        assert b[0] in b;
        var m :| 0 <= m < |a| && a[m] == b[0];
        assert 0 < k && 0 < m;
        assert Less(b[0], a[0]) && Less(a[0], b[0]);
        CompareAntisymmetric(a[0], b[0]);
        assert false;
      }
      forall y ensures y in a[1..] <==> y in b[1..] {
        assert a == [a[0]] + a[1..] && b == [b[0]] + b[1..];
        if y in a[1..] {
          var i :| 0 <= i < |a[1..]| && a[1..][i] == y;
          assert Less(a[0], a[i + 1]);
          assert y != a[0] && y in a;
          assert y in b[1..];
        }
        if y in b[1..] {
          var i :| 0 <= i < |b[1..]| && b[1..][i] == y;
          assert Less(b[0], b[i + 1]);
          assert y != b[0] && y in b;
          assert y in a[1..];
        }
      }
      assert StrictlySorted(a[1..]) && StrictlySorted(b[1..]) by {
        forall i, j | 0 <= i < j < |a[1..]| ensures Less(a[1..][i], a[1..][j]) {
          assert a[1..][i] == a[i + 1] && a[1..][j] == a[j + 1];
        }
        forall i, j | 0 <= i < j < |b[1..]| ensures Less(b[1..][i], b[1..][j]) {
          assert b[1..][i] == b[i + 1] && b[1..][j] == b[j + 1];
        }
      }
      SortedUnique(a[1..], b[1..]);
      assert a == [a[0]] + a[1..] && b == [b[0]] + b[1..];
    }
  }

  /**
   * gen.MapKeysSorted: the keys of a map, in increasing order. The keys
   * are handed in as the map's key set.
   */
  method SortedKeys(s: set<string>) returns (r: seq<string>)
    ensures r == Sorted(s)
  {
    r := [];
    var rest := s;
    while rest != {}
      invariant rest <= s
      invariant StrictlySorted(r)
      invariant forall y :: y in r <==> y in s && y !in rest
      decreases rest
    {
      var x :| x in rest;
      r := Insert(x, r);
      rest := rest - {x};
    }
    SortedUnique(r, Sorted(s));
  }

  // ---------------------------------------------------------------------
  // Slash-separated paths (package path; filepath on Unix behaves alike)
  // ---------------------------------------------------------------------

  /** strings.LastIndexByte: the last position of `c`, or -1. */
  function LastIndexOf(s: string, c: char): (i: int)
    ensures -1 <= i < |s|
    ensures i >= 0 ==> s[i] == c
    ensures c !in s[i + 1..]
  {
    if s == [] then -1
    else if s[|s| - 1] == c then |s| - 1
    else
      var j := LastIndexOf(s[..|s| - 1], c);
      NotInSnoc(s, j, c);
      j
  }

  lemma NotInSnoc(s: string, j: int, c: char)
    requires s != [] && -1 <= j < |s| - 1
    requires c !in s[..|s| - 1][j + 1..] && s[|s| - 1] != c
    ensures c !in s[j + 1..]
  {
    assert s[j + 1..] == s[..|s| - 1][j + 1..] + [s[|s| - 1]];
  }

  /** Growing a prefix by one element. */
  lemma TakeSnoc<T>(s: seq<T>, k: int)
    requires 0 <= k < |s|
    ensures s[..k + 1] == s[..k] + [s[k]]
  {
  }

  /** A prefix of a prefix one element longer. */
  lemma TakeTake<T>(s: seq<T>, k: int)
    requires 0 <= k < |s|
    ensures s[..k + 1][..k] == s[..k]
  {
  }

  /** A sequence one longer than its prefix `s` is `s` and its last element. */
  lemma ExtendsBy<T>(s: seq<T>, t: seq<T>)
    requires |t| == |s| + 1 && t[..|s|] == s
    ensures t == s + [t[|s|]]
  {
  }

  /** The whole-length prefix is the sequence itself. */
  lemma TakeAll<T>(s: seq<T>)
    ensures s[..|s|] == s
  {
  }

  lemma TakeDrop(p: string, n: int)
    requires 0 <= n <= |p|
    ensures p[..n] + p[n..] == p
  {
  }

  lemma {:induction false} LastIndexOfAfter(x: string, c: char, y: string)
    requires c !in y
    ensures LastIndexOf(x + [c] + y, c) == |x|
    decreases |y|
  {
    if y != [] {
      var z := x + [c] + y;
      assert z[..|z| - 1] == x + [c] + y[..|y| - 1];
      assert z[|z| - 1] == y[|y| - 1];
      LastIndexOfAfter(x, c, y[..|y| - 1]);
    } else {
      assert x + [c] + y == x + [c];
    }
  }

  lemma {:induction false} LastIndexOfAbsent(y: string, c: char)
    requires c !in y
    ensures LastIndexOf(y, c) == -1
    decreases |y|
  {
    if y != [] {
      assert y[|y| - 1] in y;
      LastIndexOfAbsent(y[..|y| - 1], c);
    }
  }

  /**
   * path.Ext: the suffix from the final dot of the last path element, or
   * the empty string when that element has no dot.
   */
  function Ext(p: string): (e: string)
    ensures HasSuffix(p, e)
    ensures e == [] || e[0] == '.'
    ensures forall i :: 1 <= i < |e| ==> e[i] != '.'
    ensures '/' !in e
  {
    if p == [] then []
    else
      var c := p[|p| - 1];
      if c == '/' then []
      else if c == '.' then "."
      else
        var q := p[..|p| - 1];
        var e := Ext(q);
        if e == [] then
          []
        else
          assert p == q + [c];
          e + [c]
  }

  /** path.Ext is empty exactly when the last element of the path has no dot. */
  lemma {:induction false} ExtEmptyNoDot(p: string)
    ensures Ext(p) == [] <==> '.' !in p[LastIndexOf(p, '/') + 1..]
  {
    if p == [] || p[|p| - 1] == '/' {
    } else if p[|p| - 1] == '.' {
      var last := p[LastIndexOf(p, '/') + 1..];
      assert last[|last| - 1] == '.';
    } else {
      var q, c := p[..|p| - 1], p[|p| - 1];
      ExtEmptyNoDot(q);
      var j := LastIndexOf(q, '/');
      assert LastIndexOf(p, '/') == j;
      assert p[j + 1..] == q[j + 1..] + [c];
      assert Ext(p) == [] <==> Ext(q) == [];
      assert '.' in p[j + 1..] <==> '.' in q[j + 1..];
    }
  }

  /** A dot followed by characters other than dots and slashes: what path.Ext returns when it is not empty. */
  predicate ProperExt(e: string) {
    |e| >= 1 && e[0] == '.' && forall i :: 1 <= i < |e| ==> e[i] != '.' && e[i] != '/'
  }

  /** path.Ext of a name that ends in a proper extension is that extension. */
  lemma {:induction false} ExtOfSuffix(s: string, e: string)
    requires ProperExt(e)
    ensures Ext(s + e) == e
    decreases |e|
  {
    var p := s + e;
    if |e| == 1 {
      assert p[|p| - 1] == '.';
    } else {
      var e' := e[..|e| - 1];
      assert p[..|p| - 1] == s + e';
      ExtOfSuffix(s, e');
      assert p[|p| - 1] == e[|e| - 1];
      assert e' + [e[|e| - 1]] == e;
    }
  }

  /** path.Split: everything up to and including the last slash, and the rest. */
  function Split(p: string): (r: (string, string))
    ensures r.0 + r.1 == p
    ensures '/' !in r.1
    ensures r.0 == [] || r.0[|r.0| - 1] == '/'
  {
    var i := LastIndexOf(p, '/');
    TakeDrop(p, i + 1);
    (p[..i + 1], p[i + 1..])
  }

  function TrimTrailingSlashes(p: string): (r: string)
    ensures r == [] || r[|r| - 1] != '/'
    ensures HasPrefix(p, r)
  {
    if p != [] && p[|p| - 1] == '/' then TrimTrailingSlashes(p[..|p| - 1]) else p
  }

  /** path.Base: the last element of a path; "." for the empty path. */
  function Base(p: string): (b: string)
    ensures b != []
  {
    if p == [] then "."
    else
      var q := TrimTrailingSlashes(p);
      if q == [] then "/" else q[LastIndexOf(q, '/') + 1..]
  }

  /**
   * path.Join of a directory and a file name. The cleaning of "." and ".."
   * elements is left out: both arguments come from walked, clean paths.
   */
  function Join(dir: string, file: string): string {
    if dir == [] then file else if file == [] then dir else dir + "/" + file
  }

  /** path.Base recovers the file name that path.Join appended. */
  lemma BaseOfJoin(dir: string, file: string)
    requires file != [] && '/' !in file
    ensures Base(Join(dir, file)) == file
  {
    var p := Join(dir, file);
    assert p[|p| - 1] == file[|file| - 1];
    assert file[|file| - 1] in file;
    assert TrimTrailingSlashes(p) == p;
    if dir == [] {
      LastIndexOfAbsent(file, '/');
    } else {
      assert p == dir + ['/'] + file;
      LastIndexOfAfter(dir, '/', file);
      assert p[|dir| + 1..] == file;
    }
  }
}
