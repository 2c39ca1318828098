/**
 * Text helpers shared by the manifest codec and the two signers:
 * prefixes, CR/LF-terminated line joins, the byte-wise order that Go's
 * `sort.Strings` and `sort.Slice(..., a.Name < b.Name)` use, and the two
 * sorts themselves (library calls in the source, specified here).
 */
module Strings {

  predicate HasPrefix(s: string, p: string) {
    |p| <= |s| && s[..|p|] == p
  }

  predicate HasSuffix(s: string, p: string) {
    |p| <= |s| && s[|s| - |p|..] == p
  }

  predicate IsNewline(c: char) {
    c == '\r' || c == '\n'
  }

  /** No CR and no LF anywhere: one logical line. */
  predicate NoNewline(s: string) {
    forall i :: 0 <= i < |s| ==> !IsNewline(s[i])
  }

  /** Every line followed by CRLF, the way all the writers emit lines. */
  function JoinCRLF(lines: seq<string>): string {
    if lines == [] then "" else lines[0] + "\r\n" + JoinCRLF(lines[1..])
  }

  lemma SplitAt<T>(s: seq<T>, i: nat)
    requires i <= |s|
    ensures s[..i] + s[i..] == s
  {
  }

  lemma ConsHead<T>(s: seq<T>)
    requires s != []
    ensures [s[0]] + s[1..] == s
  {
  }

  lemma NoNewlineShorter(s: string, i: nat, j: nat)
    requires j <= i <= |s| && NoNewline(s[..i])
    ensures NoNewline(s[..j])
  {
    assert forall k :: 0 <= k < j ==> s[..j][k] == s[..i][k];
  }

  lemma {:induction false} JoinCRLFAppend(a: seq<string>, b: seq<string>)
    ensures JoinCRLF(a + b) == JoinCRLF(a) + JoinCRLF(b)
  {
    if a == [] {
      assert a + b == b;
    } else {
      assert (a + b)[1..] == a[1..] + b;
      JoinCRLFAppend(a[1..], b);
    }
  }

  /** Concatenation regrouped: spelled out, since the solver does not always find it on long terms. */
  lemma Assoc<T>(a: seq<T>, b: seq<T>, c: seq<T>)
    ensures a + b + c == a + (b + c)
  {
  }

  /* ---------------- byte order on strings ---------------- */

  /** Lexicographic order on characters, as Go compares strings. */
  predicate Less(a: string, b: string) {
    if |a| == 0 then |b| > 0
    else if |b| == 0 then false
    else if a[0] != b[0] then a[0] < b[0]
    else Less(a[1..], b[1..])
  }

  predicate LessEq(a: string, b: string) {
    a == b || Less(a, b)
  }

  lemma LessIrreflexive(a: string)
    ensures !Less(a, a)
  {
  }

  lemma {:induction false} LessAsymmetric(a: string, b: string)
    ensures !(Less(a, b) && Less(b, a))
  {
    if |a| > 0 && |b| > 0 && a[0] == b[0] {
      LessAsymmetric(a[1..], b[1..]);
    }
  }

  lemma {:induction false} LessTransitive(a: string, b: string, c: string)
    requires Less(a, b) && Less(b, c)
    ensures Less(a, c)
  {
    if |a| > 0 && a[0] == b[0] && b[0] == c[0] {
      LessTransitive(a[1..], b[1..], c[1..]);
    }
  }

  lemma {:induction false} LessTotal(a: string, b: string)
    ensures a == b || Less(a, b) || Less(b, a)
  {
    if |a| > 0 && |b| > 0 && a[0] == b[0] {
      LessTotal(a[1..], b[1..]);
      if a[1..] == b[1..] {
        assert a == [a[0]] + a[1..] && b == [b[0]] + b[1..];
      }
    }
  }

  lemma LessEqTransitive(a: string, b: string, c: string)
    requires LessEq(a, b) && LessEq(b, c)
    ensures LessEq(a, c)
  {
    if Less(a, b) && Less(b, c) {
      LessTransitive(a, b, c);
    }
  }

  /** The empty string sorts before every other string. */
  lemma EmptyIsLeast(b: string)
    requires b != ""
    ensures Less("", b)
  {
  }

  /* ---------------- ordered set of keys (sort.Strings over map keys) ---------------- */

  predicate Increasing(r: seq<string>) {
    forall i, j :: 0 <= i < j < |r| ==> Less(r[i], r[j])
  }

  /** An increasing sequence holds each string at one index at most. */
  lemma IncreasingInjective(r: seq<string>, i: nat, j: nat)
    requires Increasing(r) && i < |r| && j < |r|
    ensures r[i] == r[j] ==> i == j
  {
    if i < j {
      LessIrreflexive(r[i]);
    } else if j < i {
      LessIrreflexive(r[j]);
    }
  }

  /** A string below every element of an increasing sequence, put in front of it, keeps it increasing. */
  lemma IncreasingCons(x: string, rest: seq<string>)
    requires Increasing(rest)
    requires forall j :: 0 <= j < |rest| ==> Less(x, rest[j])
    ensures Increasing([x] + rest)
  {
    var r := [x] + rest;
    forall i, j | 0 <= i < j < |r| ensures Less(r[i], r[j]) {
      assert r[j] == rest[j - 1];
      if i > 0 {
        assert r[i] == rest[i - 1];
      }
    }
  }

  predicate IsLeast(x: string, s: set<string>) {
    x in s && forall y :: y in s ==> LessEq(x, y)
  }

  lemma {:induction false} LeastExists(s: set<string>)
    requires s != {}
    ensures exists x :: IsLeast(x, s)
    decreases |s|
  {
    var a :| a in s;
    if s - {a} == {} {
      assert s == {a};
      assert IsLeast(a, s);
    } else {
      LeastExists(s - {a});
      var b :| IsLeast(b, s - {a});
      LessTotal(a, b);
      if Less(a, b) {
        forall y | y in s ensures LessEq(a, y) {
          if y != a { LessEqTransitive(a, b, y); }
        }
        assert IsLeast(a, s);
      } else {
        assert IsLeast(b, s);
      }
    }
  }

  lemma LeastUnique(x: string, y: string, s: set<string>)
    requires IsLeast(x, s) && IsLeast(y, s)
    ensures x == y
  {
    LessAsymmetric(x, y);
  }

  ghost function Least(s: set<string>): (x: string)
    requires s != {}
    ensures IsLeast(x, s)
  {
    LeastExists(s);
    var x :| IsLeast(x, s); x
  }

  /** The keys of `s` in ascending order: what sort.Strings yields for them. */
  ghost function Ordered(s: set<string>): (r: seq<string>)
    ensures Increasing(r)
    ensures forall x :: x in r <==> x in s
    ensures |r| == |s|
    decreases |s|
  {
    if s == {} then []
    else
      var x := Least(s);
      var rest := Ordered(s - {x});
      assert forall j :: 0 <= j < |rest| ==> Less(x, rest[j]) by {
        forall j | 0 <= j < |rest| ensures Less(x, rest[j]) {
          assert rest[j] in s - {x};
        }
      }
      [x] + rest
  }

  lemma HeadIn(s: seq<string>)
    requires s != []
    ensures s[0] in s
  {
  }

  /** A strictly increasing sequence is determined by its elements. */
  lemma {:induction false} IncreasingUnique(a: seq<string>, b: seq<string>)
    requires Increasing(a) && Increasing(b)
    requires forall x :: x in a <==> x in b
    ensures a == b
  {
    if a == [] || b == [] {
      if a != [] { HeadIn(a); assert false; }
      if b != [] { HeadIn(b); assert false; }
    } else {
      if a[0] != b[0] {
        assert a[0] in b;
        assert b[0] in a;
        var i :| 0 <= i < |b| && b[i] == a[0];
        var j :| 0 <= j < |a| && a[j] == b[0];
        assert i > 0 && j > 0;
        assert Less(b[0], a[0]) && Less(a[0], b[0]);
        LessAsymmetric(a[0], b[0]);
      }
      forall x ensures x in a[1..] <==> x in b[1..] {
        if x in a[1..] {
          var k :| 1 <= k < |a| && a[k] == x;
          assert Less(a[0], x);
          LessIrreflexive(x);
          assert x in b && x != b[0];
        }
        if x in b[1..] {
          var k :| 1 <= k < |b| && b[k] == x;
          assert Less(b[0], x);
          LessIrreflexive(x);
          assert x in a && x != a[0];
        }
      }
      IncreasingUnique(a[1..], b[1..]);
      assert a == [a[0]] + a[1..] && b == [b[0]] + b[1..];
    }
  }

  /**
   * Collects the keys of a map and sorts them (WriteTo, manifest.go:93-97):
   * each round takes the least key still left.
   */
  method SortedKeys(keys: set<string>) returns (names: seq<string>)
    ensures names == Ordered(keys)
    ensures Increasing(names) && forall x :: x in names <==> x in keys
  {
    names := [];
    var rest := keys;
    while rest != {}
      invariant rest <= keys
      invariant Increasing(names)
      invariant forall y :: y in names <==> y in keys && y !in rest
      invariant forall i, y :: 0 <= i < |names| && y in rest ==> Less(names[i], y)
      decreases |rest|
    {
      LeastExists(rest);
      var x :| IsLeast(x, rest);
      forall y | y in rest - {x} ensures Less(x, y) {}
      names := names + [x];
      rest := rest - {x};
    }
    IncreasingUnique(names, Ordered(keys));
  }

  /* ---------------- sorting records by name (sort.Slice by Name) ---------------- */

  predicate SortedOn<T>(r: seq<T>, key: T -> string) {
    forall i, j :: 0 <= i < j < |r| ==> LessEq(key(r[i]), key(r[j]))
  }

  /** A record no greater than any of a sorted list, put in front of it, keeps it sorted. */
  lemma SortedCons<T>(x: T, rest: seq<T>, key: T -> string)
    requires SortedOn(rest, key)
    requires forall j :: 0 <= j < |rest| ==> LessEq(key(x), key(rest[j]))
    ensures SortedOn([x] + rest, key)
  {
    var r := [x] + rest;
    forall i, j | 0 <= i < j < |r| ensures LessEq(key(r[i]), key(r[j])) {
      assert r[j] == rest[j - 1];
      if i > 0 {
        assert r[i] == rest[i - 1];
      }
    }
  }

  function InsertOn<T>(x: T, xs: seq<T>, key: T -> string): (r: seq<T>)
    requires SortedOn(xs, key)
    ensures multiset(r) == multiset(xs) + multiset{x}
    ensures SortedOn(r, key)
  {
    if xs == [] then [x]
    else if !Less(key(xs[0]), key(x)) then
      LessTotal(key(x), key(xs[0]));
      assert forall j :: 0 <= j < |xs| ==> LessEq(key(x), key(xs[j])) by {
        forall j | 0 <= j < |xs| ensures LessEq(key(x), key(xs[j])) {
          if j > 0 { LessEqTransitive(key(x), key(xs[0]), key(xs[j])); }
        }
      }
      SortedCons(x, xs, key);
      [x] + xs
    else
      var rest := InsertOn(x, xs[1..], key);
      assert multiset(xs) == multiset([xs[0]]) + multiset(xs[1..]) by {
        assert xs == [xs[0]] + xs[1..];
      }
      assert forall y :: y in multiset(rest) ==> LessEq(key(xs[0]), key(y)) by {
        forall y | y in multiset(rest) ensures LessEq(key(xs[0]), key(y)) {
          if y != x {
            assert y in multiset(xs[1..]);
            var k :| 0 <= k < |xs[1..]| && xs[1..][k] == y;
            assert xs[k + 1] == y;
          }
        }
      }
      assert forall j :: 0 <= j < |rest| ==> LessEq(key(xs[0]), key(rest[j])) by {
        forall j | 0 <= j < |rest| ensures LessEq(key(xs[0]), key(rest[j])) {
          assert rest[j] in multiset(rest);
        }
      }
      SortedCons(xs[0], rest, key);
      [xs[0]] + rest
  }

  /** Records sorted by name: a permutation of the input in ascending name order. */
  function SortOn<T>(xs: seq<T>, key: T -> string): (r: seq<T>)
    ensures multiset(r) == multiset(xs)
    ensures SortedOn(r, key)
  {
    if xs == [] then []
    else
      assert xs == [xs[0]] + xs[1..];
      InsertOn(xs[0], SortOn(xs[1..], key), key)
  }
}
