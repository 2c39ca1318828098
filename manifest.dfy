/**
 * The JAR manifest of manifest.go: a map from section name to the lines
 * ("Key: value") of that section, the main section under "".  ParseManifest
 * reads the text form back; the writers (module ManifestWriter) produce it.
 *
 * The text form is specified here by Serialize; the central property is the
 * round trip Parse(Serialize(m)) == m for every well-formed manifest.
 */
module Manifest {
  import opened Strings
  import opened LineWrap

  type Attributes = seq<string>
  type Manifest = map<string, Attributes>

  /** The prefix that opens a per-file section (manifest.go:44). */
  const NamePrefix: string := "Name: "

  /** What ParseManifest appends to its input so that the last section is closed (manifest.go:49). */
  const Padding: string := "\r\n\r\n"

  /** `m[k]` as Go reads it: a missing key gives the empty slice. */
  function Get(m: Manifest, k: string): (r: Attributes)
    ensures k in m ==> r == m[k]
    ensures k !in m ==> r == []
  {
    if k in m then m[k] else []
  }

  /* ---------------- Attributes.Without (manifest.go:33-41) ---------------- */

  /** `attrs` with its first line that starts with `prefix` removed. */
  function Dropped(attrs: Attributes, prefix: string): (r: Attributes)
    ensures |r| == |attrs| || |r| == |attrs| - 1
  {
    if attrs == [] then []
    else if HasPrefix(attrs[0], prefix) then attrs[1..]
    else [attrs[0]] + Dropped(attrs[1..], prefix)
  }

  /** Index of the first line starting with `prefix`, or |attrs| when there is none. */
  predicate FirstWith(attrs: Attributes, prefix: string, i: int) {
    0 <= i <= |attrs| &&
    (i < |attrs| ==> HasPrefix(attrs[i], prefix)) &&
    forall j :: 0 <= j < i ==> !HasPrefix(attrs[j], prefix)
  }

  /** Dropped removes exactly the first matching line, and leaves a list without one untouched. */
  lemma {:induction false} DroppedFirst(attrs: Attributes, prefix: string, i: nat)
    requires FirstWith(attrs, prefix, i)
    ensures i == |attrs| ==> Dropped(attrs, prefix) == attrs
    ensures i < |attrs| ==> Dropped(attrs, prefix) == attrs[..i] + attrs[i + 1..]
  {
    if attrs != [] {
      if i == 0 {
      } else {
        DroppedFirst(attrs[1..], prefix, i - 1);
        if i < |attrs| {
          assert attrs[1..][..i - 1] + attrs[1..][i..] == attrs[1..i] + attrs[i + 1..];
          assert [attrs[0]] + attrs[1..i] == attrs[..i];
        } else {
          assert [attrs[0]] + attrs[1..] == attrs;
        }
      }
    }
  }

  /**
   * A section with at most one line for a key has none left after Without:
   * re-signing replaces the digest line instead of adding a second one.
   */
  lemma {:induction false} DroppedOnlyOne(attrs: Attributes, prefix: string)
    requires forall i, j :: 0 <= i < j < |attrs| && HasPrefix(attrs[i], prefix) ==> !HasPrefix(attrs[j], prefix)
    ensures forall x :: x in Dropped(attrs, prefix) ==> !HasPrefix(x, prefix)
    ensures multiset(Dropped(attrs, prefix)) <= multiset(attrs)
  {
    if attrs != [] {
      assert attrs == [attrs[0]] + attrs[1..];
      if HasPrefix(attrs[0], prefix) {
        forall x | x in attrs[1..] ensures !HasPrefix(x, prefix) {
          var k :| 0 <= k < |attrs[1..]| && attrs[1..][k] == x;
          assert attrs[k + 1] == x;
        }
      } else {
        DroppedOnlyOne(attrs[1..], prefix);
      }
    }
  }

  /** manifest.go:33-41: removes the first line that starts with `key + ": "`. */
  method Without(attrs: Attributes, key: string) returns (r: Attributes)
    ensures r == Dropped(attrs, key + ": ")
    ensures forall i :: FirstWith(attrs, key + ": ", i) ==>
              (i == |attrs| ==> r == attrs) && (i < |attrs| ==> r == attrs[..i] + attrs[i + 1..])
  {
    var prefix := key + ": ";
    var i := 0;
    while i < |attrs|
      invariant 0 <= i <= |attrs|
      invariant forall j :: 0 <= j < i ==> !HasPrefix(attrs[j], prefix)
    {
      if HasPrefix(attrs[i], prefix) {
        DroppedFirst(attrs, prefix, i);
        FirstWithUnique(attrs, prefix, i);
        return attrs[..i] + attrs[i + 1..];
      }
      i := i + 1;
    }
    DroppedFirst(attrs, prefix, i);
    FirstWithUnique(attrs, prefix, i);
    r := attrs;
  }

  lemma FirstWithUnique(attrs: Attributes, prefix: string, i: int)
    requires FirstWith(attrs, prefix, i)
    ensures forall j :: FirstWith(attrs, prefix, j) ==> j == i
  {
    forall j | FirstWith(attrs, prefix, j) ensures j == i {
      if j < i {
        assert false;
      } else if i < j {
        assert false;
      }
    }
  }

  /* ---------------- bufio.ScanLines ---------------- */

  /** Index of the first LF in `s`, or |s|. */
  function FindLF(s: string): (i: nat)
    ensures i <= |s|
    ensures i < |s| ==> s[i] == '\n'
    ensures forall j :: 0 <= j < i ==> s[j] != '\n'
  {
    if s == [] then 0
    else if s[0] == '\n' then 0
    else 1 + FindLF(s[1..])
  }

  /** One trailing CR removed, as ScanLines does to every token. */
  function DropCR(s: string): string {
    if |s| > 0 && s[|s| - 1] == '\r' then s[..|s| - 1] else s
  }

  /**
   * The tokens bufio.ScanLines yields: the text split at each LF, one CR
   * dropped before it, and no empty token after a final LF.
   */
  function Lines(s: string): seq<string>
    decreases |s|
  {
    if s == [] then []
    else
      var i := FindLF(s);
      if i == |s| then [DropCR(s)]
      else [DropCR(s[..i])] + Lines(s[i + 1..])
  }

  predicate NoLF(s: string) {
    forall i :: 0 <= i < |s| ==> s[i] != '\n'
  }

  predicate AllNoLF(ls: seq<string>)
    decreases |ls|
  {
    ls == [] || (NoLF(ls[0]) && AllNoLF(ls[1..]))
  }

  lemma {:induction false} AllNoLFAppend(a: seq<string>, b: seq<string>)
    requires AllNoLF(a) && AllNoLF(b)
    ensures AllNoLF(a + b)
    decreases |a|
  {
    if a == [] {
      assert a + b == b;
    } else {
      assert (a + b)[0] == a[0] && (a + b)[1..] == a[1..] + b;
      AllNoLFAppend(a[1..], b);
    }
  }

  /** A CRLF-terminated line comes out as one token. */
  lemma LinesCons(x: string, y: string)
    requires NoLF(x)
    ensures Lines(x + "\r\n" + y) == [x] + Lines(y)
  {
    var s := x + "\r\n" + y;
    assert s[|x| + 1] == '\n';
    assert forall j :: 0 <= j < |x| + 1 ==> s[j] != '\n' by {
      forall j | 0 <= j < |x| + 1 ensures s[j] != '\n' {
        if j < |x| { assert s[j] == x[j]; }
      }
    }
    var i := FindLF(s);
    assert i == |x| + 1;
    assert s[..i] == x + "\r";
    assert s[i + 1..] == y;
  }

  lemma {:induction false} LinesJoin(ls: seq<string>, y: string)
    requires AllNoLF(ls)
    ensures Lines(JoinCRLF(ls) + y) == ls + Lines(y)
    decreases |ls|
  {
    if ls != [] {
      var head, rest := ls[0], ls[1..];
      var tail := JoinCRLF(rest) + y;
      assert NoLF(head) && AllNoLF(rest);
      assert Lines(JoinCRLF(ls) + y) == [head] + Lines(tail) by {
        JoinCons(ls, y);
        LinesCons(head, tail);
      }
      assert Lines(tail) == rest + Lines(y) by {
        LinesJoin(rest, y);
      }
      assert [head] + (rest + Lines(y)) == ls + Lines(y) by {
        assert ls == [head] + rest;
        Assoc([head], rest, Lines(y));
      }
    } else {
      assert JoinCRLF(ls) + y == y;
    }
  }

  lemma JoinCons(ls: seq<string>, y: string)
    requires ls != []
    ensures JoinCRLF(ls) + y == ls[0] + "\r\n" + (JoinCRLF(ls[1..]) + y)
  {
  }

  /* ---------------- ParseManifest (manifest.go:43-76) ---------------- */

  /** The variables of the parsing loop: current name, current lines, sections so far. */
  datatype ParseState = ParseState(k: string, v: Attributes, m: Manifest)

  const Start: ParseState := ParseState("", [], map[])

  /** One pass of the switch of manifest.go:52-70. */
  function Step(st: ParseState, line: string): ParseState {
    if line == "" then
      // a blank line closes the section, if it had any lines
      if |st.v| > 0 then ParseState("", [], st.m[st.k := st.v]) else st
    else if HasPrefix(line, NamePrefix) then
      st.(k := line[|NamePrefix|..])
    else if HasPrefix(line, " ") then
      // a continuation line extends the name, or else the last line
      if |st.v| == 0 then st.(k := st.k + line[1..])
      else st.(v := st.v[..|st.v| - 1] + [st.v[|st.v| - 1] + line[1..]])
    else
      st.(v := st.v + [line])
  }

  function Run(st: ParseState, lines: seq<string>): ParseState
    decreases |lines|
  {
    if lines == [] then st else Run(Step(st, lines[0]), lines[1..])
  }

  lemma {:induction false} RunAppend(st: ParseState, a: seq<string>, b: seq<string>)
    ensures Run(st, a + b) == Run(Run(st, a), b)
    decreases |a|
  {
    if a == [] {
      assert a + b == b;
    } else {
      assert (a + b)[0] == a[0] && (a + b)[1..] == a[1..] + b;
      RunAppend(Step(st, a[0]), a[1..], b);
    }
  }

  /** What ParseManifest returns for the text `r`. */
  function Parse(r: string): Manifest {
    Run(Start, Lines(r + Padding)).m
  }

  /** No section is ever stored without lines. */
  predicate NoEmptySection(m: Manifest) {
    forall k :: k in m ==> m[k] != []
  }

  lemma {:induction false} RunNoEmptySection(st: ParseState, lines: seq<string>)
    requires NoEmptySection(st.m)
    ensures NoEmptySection(Run(st, lines).m)
    decreases |lines|
  {
    if lines != [] {
      RunNoEmptySection(Step(st, lines[0]), lines[1..]);
    }
  }

  /**
   * manifest.go:43-76.  Read errors of the underlying reader and bufio's
   * token-size limit are not modelled, so the error result never occurs.
   */
  method ParseManifest(r: string) returns (m: Manifest)
    ensures m == Parse(r)
    ensures NoEmptySection(m)
  {
    var lines := Lines(r + Padding);
    m := map[];
    var k, v := "", [];
    var i := 0;
    while i < |lines|
      invariant 0 <= i <= |lines|
      invariant Run(Start, lines) == Run(ParseState(k, v, m), lines[i..])
      invariant NoEmptySection(m)
    {
      var line := lines[i];
      if line == "" {
        if |v| > 0 {
          m := m[k := v];
          k, v := "", [];
        }
      } else if HasPrefix(line, NamePrefix) {
        k := line[|NamePrefix|..];
      } else if HasPrefix(line, " ") {
        if |v| == 0 {
          k := k + line[1..];
        } else {
          v := v[..|v| - 1] + [v[|v| - 1] + line[1..]];
        }
      } else {
        v := v + [line];
      }
      assert lines[i..] == [line] + lines[i + 1..];
      i := i + 1;
    }
  }

  /* ---------------- the text form written by WriteTo ---------------- */

  /** The main section's lines, each ended by CRLF, before wrapping (manifest.go:86-88). */
  function MainText(m: Manifest): string {
    JoinCRLF(Get(m, ""))
  }

  /** A per-file section before wrapping: its Name line, then its lines (manifest.go:125-129). */
  function EntryText(m: Manifest, name: string): string {
    JoinCRLF([NamePrefix + name] + Get(m, name))
  }

  /** The per-file sections in the given order, each after a blank line (manifest.go:102-109). */
  function Sections(m: Manifest, names: seq<string>): string
    decreases |names|
  {
    if names == [] then ""
    else "\r\n" + WrapOut(0, EntryText(m, names[0])) + Sections(m, names[1..])
  }

  /**
   * Everything WriteTo writes for `m`: the wrapped main section, the other
   * sections in ascending name order, and one final blank line.
   */
  ghost function Serialize(m: Manifest): string {
    WrapOut(0, MainText(m)) + Sections(m, Ordered(m.Keys - {""})) + "\r\n"
  }

  /* ---------------- which manifests survive the round trip ---------------- */

  /** A line the parser reads back as a line of the section it is in. */
  predicate IsAttribute(a: string) {
    a != "" && NoNewline(a) && !HasPrefix(a, " ") && !HasPrefix(a, NamePrefix)
  }

  predicate AllAttributes(attrs: Attributes)
    decreases |attrs|
  {
    attrs == [] || (IsAttribute(attrs[0]) && AllAttributes(attrs[1..]))
  }

  /**
   * Single-line names, no empty section (the parser drops those), and no
   * line the parser would take for a name, a continuation or a blank line.
   */
  predicate WellFormed(m: Manifest) {
    forall k :: k in m ==> NoNewline(k) && m[k] != [] && AllAttributes(m[k])
  }

  /* ---------------- physical lines of one wrapped logical line ---------------- */

  /** The continuation lines holding `r`: a space, then up to 69 bytes each. */
  function Cont(r: string): seq<string>
    decreases |r|
  {
    if r == "" then []
    else if |r| < Width then [" " + r]
    else [" " + r[..Width - 1]] + Cont(r[Width - 1..])
  }

  /** Length of the first physical line of `l`. */
  function Cut(l: string): (c: nat)
    ensures c <= |l| && c <= Width
  {
    if |l| <= Width then |l| else Width
  }

  /** The physical lines wrap72 turns the logical line `l` into. */
  function Phys(l: string): seq<string> {
    [l[..Cut(l)]] + Cont(l[Cut(l)..])
  }

  function PhysAll(ls: seq<string>): seq<string>
    decreases |ls|
  {
    if ls == [] then [] else Phys(ls[0]) + PhysAll(ls[1..])
  }

  lemma NoNewlineSlice(s: string, i: nat, j: nat)
    requires NoNewline(s) && i <= j <= |s|
    ensures NoNewline(s[i..j]) && NoLF(s[i..j])
  {
    assert forall k :: 0 <= k < j - i ==> s[i..j][k] == s[i + k];
  }

  lemma JoinOne(x: string, rest: seq<string>)
    ensures JoinCRLF([x] + rest) == x + "\r\n" + JoinCRLF(rest)
  {
    assert ([x] + rest)[0] == x && ([x] + rest)[1..] == rest;
  }

  lemma {:induction false} ContNoLF(r: string)
    requires NoNewline(r)
    ensures AllNoLF(Cont(r))
    decreases |r|
  {
    if r != "" {
      var c := if |r| < Width then |r| else Width - 1;
      NoNewlineSlice(r, 0, c);
      NoNewlineSlice(r, c, |r|);
      assert r[0..c] == r[..c] && r[c..|r|] == r[c..];
      assert NoLF(" " + r[..c]);
      if |r| < Width {
        assert r[..c] == r;
        assert Cont(r) == [" " + r[..c]];
      } else {
        ContNoLF(r[c..]);
        assert Cont(r) == [" " + r[..c]] + Cont(r[c..]);
      }
    }
  }

  lemma {:induction false} ContOut(r: string)
    requires NoNewline(r)
    ensures WrapOut(Width, r) + "\r\n" == "\r\n" + JoinCRLF(Cont(r))
    decreases |r|
  {
    if r == "" {
    } else if |r| < Width {
      WrapMarked(r);
      JoinOne(" " + r, []);
      assert Cont(r) == [" " + r] + [];
    } else {
      var a, b := r[..Width - 1], r[Width - 1..];
      NoNewlineSlice(r, 0, Width - 1);
      NoNewlineSlice(r, Width - 1, |r|);
      assert r[0..Width - 1] == a && r[Width - 1..|r|] == b;
      assert r == a + b;
      calc {
        WrapOut(Width, r) + "\r\n";
        { WrapAppend(Width, a, b); WrapMarked(a); }
        Marker + a + WrapOut(Width, b) + "\r\n";
        { ContOut(b); }
        Marker + a + ("\r\n" + JoinCRLF(Cont(b)));
        "\r\n" + (" " + a + "\r\n" + JoinCRLF(Cont(b)));
        { JoinOne(" " + a, Cont(b)); }
        "\r\n" + JoinCRLF([" " + a] + Cont(b));
      }
    }
  }

  /** One logical line with its CRLF, wrapped, is its physical lines each with CRLF. */
  lemma PhysOut(l: string)
    requires NoNewline(l)
    ensures WrapOut(0, l) + "\r\n" == JoinCRLF(Phys(l))
    ensures AllNoLF(Phys(l))
  {
    var c := Cut(l);
    var a, b := l[..c], l[c..];
    assert NoNewline(a) && NoNewline(b) && NoLF(a) by {
      NoNewlineSlice(l, 0, c);
      NoNewlineSlice(l, c, |l|);
      assert l[0..c] == a && l[c..|l|] == b;
    }
    assert Phys(l) == [a] + Cont(b);
    assert AllNoLF(Phys(l)) by {
      ContNoLF(b);
      assert ([a] + Cont(b))[0] == a && ([a] + Cont(b))[1..] == Cont(b);
    }
    assert WrapOut(0, l) == a + WrapOut(c, b) by {
      SplitAt(l, c);
      WrapAppend(0, a, b);
      WrapPlain(0, a);
    }
    JoinOne(a, Cont(b));
    if |l| <= Width {
      assert b == "";
    } else {
      assert WrapOut(c, b) + "\r\n" == "\r\n" + JoinCRLF(Cont(b)) by {
        ContOut(b);
      }
      Assoc(a, WrapOut(c, b), "\r\n");
      Assoc(a, "\r\n", JoinCRLF(Cont(b)));
    }
  }

  /** A CRLF-joined text of single lines, wrapped from column 0, is its physical lines joined. */
  lemma {:induction false} TextOut(ls: seq<string>)
    requires forall k :: 0 <= k < |ls| ==> NoNewline(ls[k])
    ensures WrapOut(0, JoinCRLF(ls)) == JoinCRLF(PhysAll(ls))
    ensures WrapCol(0, JoinCRLF(ls)) == 0
    ensures AllNoLF(PhysAll(ls))
    decreases |ls|
  {
    if ls != [] {
      var head, rest := ls[0], ls[1..];
      assert forall k :: 0 <= k < |rest| ==> NoNewline(rest[k]) by {
        forall k | 0 <= k < |rest| ensures NoNewline(rest[k]) {
          assert rest[k] == ls[k + 1];
        }
      }
      TextOut(rest);
      WrapLine(head, JoinCRLF(rest));
      PhysOut(head);
      JoinCRLFAppend(Phys(head), PhysAll(rest));
      AllNoLFAppend(Phys(head), PhysAll(rest));
    }
  }

  /* ---------------- reading the physical lines back ---------------- */

  lemma RunCons(st: ParseState, line: string, rest: seq<string>)
    ensures Run(st, [line] + rest) == Run(Step(st, line), rest)
  {
    assert ([line] + rest)[0] == line && ([line] + rest)[1..] == rest;
  }

  /** Continuation lines right after a Name line extend the name. */
  lemma {:induction false} ContName(k: string, m: Manifest, r: string)
    ensures Run(ParseState(k, [], m), Cont(r)) == ParseState(k + r, [], m)
    decreases |r|
  {
    if r == "" {
      assert k + r == k;
    } else {
      var c := if |r| < Width then |r| else Width - 1;
      var piece, more := r[..c], r[c..];
      assert (" " + piece)[0] == ' ' && (" " + piece)[1..] == piece;
      assert Step(ParseState(k, [], m), " " + piece) == ParseState(k + piece, [], m);
      if |r| < Width {
        assert piece == r;
        assert Cont(r) == [" " + piece] + [];
      } else {
        assert Cont(r) == [" " + piece] + Cont(more);
        ContName(k + piece, m, more);
        assert k + piece + more == k + r;
      }
      RunCons(ParseState(k, [], m), " " + piece, Cont(more));
    }
  }

  /** Continuation lines after a line extend that line. */
  lemma {:induction false} ContLine(k: string, v: Attributes, x: string, m: Manifest, r: string)
    ensures Run(ParseState(k, v + [x], m), Cont(r)) == ParseState(k, v + [x + r], m)
    decreases |r|
  {
    if r == "" {
      assert x + r == x;
    } else {
      var c := if |r| < Width then |r| else Width - 1;
      var piece, more := r[..c], r[c..];
      var w := v + [x];
      assert (" " + piece)[0] == ' ' && (" " + piece)[1..] == piece;
      assert w[..|w| - 1] == v && w[|w| - 1] == x;
      assert Step(ParseState(k, w, m), " " + piece) == ParseState(k, v + [x + piece], m);
      if |r| < Width {
        assert piece == r;
        assert Cont(r) == [" " + piece] + [];
      } else {
        assert Cont(r) == [" " + piece] + Cont(more);
        ContLine(k, v, x + piece, m, more);
        assert x + piece + more == x + r;
      }
      RunCons(ParseState(k, w, m), " " + piece, Cont(more));
    }
  }

  /** A wrapped Name line sets the section name, whatever it was. */
  lemma PhysName(k: string, m: Manifest, name: string)
    ensures Run(ParseState(k, [], m), Phys(NamePrefix + name)) == ParseState(name, [], m)
  {
    var l := NamePrefix + name;
    var c := Cut(l);
    var first := l[..c];
    assert HasPrefix(first, NamePrefix) && first != "";
    assert first[|NamePrefix|..] == name[..c - |NamePrefix|];
    RunCons(ParseState(k, [], m), first, Cont(l[c..]));
    ContName(name[..c - |NamePrefix|], m, l[c..]);
    assert name[..c - |NamePrefix|] + l[c..] == name;
  }

  /** A wrapped line is appended to the section as one line. */
  lemma PhysLine(k: string, v: Attributes, m: Manifest, a: string)
    requires IsAttribute(a)
    ensures Run(ParseState(k, v, m), Phys(a)) == ParseState(k, v + [a], m)
  {
    var c := Cut(a);
    var first := a[..c];
    assert first != "";
    assert first[0] == a[0];
    if |NamePrefix| <= c {
      assert first[..|NamePrefix|] == a[..|NamePrefix|];
    } else {
      assert first == a;
    }
    RunCons(ParseState(k, v, m), first, Cont(a[c..]));
    ContLine(k, v, first, m, a[c..]);
    assert first + a[c..] == a;
  }

  lemma {:induction false} PhysLines(k: string, v: Attributes, m: Manifest, attrs: Attributes)
    requires AllAttributes(attrs)
    ensures Run(ParseState(k, v, m), PhysAll(attrs)) == ParseState(k, v + attrs, m)
    decreases |attrs|
  {
    if attrs == [] {
      assert v + attrs == v;
    } else {
      RunAppend(ParseState(k, v, m), Phys(attrs[0]), PhysAll(attrs[1..]));
      PhysLine(k, v, m, attrs[0]);
      PhysLines(k, v + [attrs[0]], m, attrs[1..]);
      assert v + [attrs[0]] + attrs[1..] == v + attrs;
    }
  }

  /* ---------------- the round trip ---------------- */

  /** The sections a parse state holds once its current section is closed. */
  function Flushed(st: ParseState): Manifest {
    if |st.v| > 0 then st.m[st.k := st.v] else st.m
  }

  /** `acc` with the sections of `names` copied in from `m`, in order. */
  function Fill(acc: Manifest, m: Manifest, names: seq<string>): Manifest
    decreases |names|
  {
    if names == [] then acc else Fill(acc[names[0] := Get(m, names[0])], m, names[1..])
  }

  lemma {:induction false} FillSpec(acc: Manifest, m: Manifest, names: seq<string>)
    ensures forall x :: x in Fill(acc, m, names) <==> x in acc || x in names
    ensures forall x :: x in names ==> Fill(acc, m, names)[x] == Get(m, x)
    ensures forall x :: x in acc && x !in names ==> Fill(acc, m, names)[x] == acc[x]
    decreases |names|
  {
    if names != [] {
      FillSpec(acc[names[0] := Get(m, names[0])], m, names[1..]);
      assert forall x :: x in names <==> x == names[0] || x in names[1..];
    }
  }

  /** What ScanLines makes of a section separator followed by more text. */
  lemma LinesBlank(z: string)
    ensures Lines("\r\n" + z) == [""] + Lines(z)
  {
    LinesCons("", z);
    assert "" + "\r\n" + z == "\r\n" + z;
  }

  /** The final blank line and the padding close the last section and add nothing. */
  lemma RunTail(st: ParseState)
    ensures Run(st, Lines("\r\n" + Padding)).m == Flushed(st)
  {
    var closed := Step(st, "");
    assert closed.v == [] && closed.m == Flushed(st);
    assert "\r\n" + Padding == "\r\n" + ("\r\n" + ("\r\n" + ""));
    LinesBlank("");
    LinesBlank("\r\n" + "");
    LinesBlank("\r\n" + ("\r\n" + ""));
    assert Lines("\r\n" + Padding) == [""] + ([""] + ([""] + []));
    RunCons(st, "", [""] + ([""] + []));
    RunCons(closed, "", [""] + []);
    RunCons(closed, "", []);
  }

  /** The lines of one well-formed section, none of which contains CR or LF. */
  lemma SectionLines(m: Manifest, n: string)
    requires WellFormed(m) && n in m
    ensures forall i :: 0 <= i < |[NamePrefix + n] + m[n]| ==> NoNewline(([NamePrefix + n] + m[n])[i])
  {
    var body := [NamePrefix + n] + m[n];
    forall i | 0 <= i < |body| ensures NoNewline(body[i]) {
      if i == 0 {
        assert forall j :: 0 <= j < |NamePrefix + n| ==>
          (NamePrefix + n)[j] in NamePrefix || (NamePrefix + n)[j] == n[j - |NamePrefix|];
      } else {
        AttributesNoNewline(m[n], i - 1);
        assert body[i] == m[n][i - 1];
      }
    }
  }

  /** One per-file section after a blank line: closes the previous section and reads this one. */
  lemma RunSection(m: Manifest, n: string, st: ParseState, z: string)
    requires WellFormed(m) && n in m
    ensures Run(st, Lines("\r\n" + WrapOut(0, EntryText(m, n)) + z)) == Run(ParseState(n, m[n], Flushed(st)), Lines(z))
  {
    var closed := Step(st, "");
    assert closed.v == [] && closed.m == Flushed(st);
    var body := [NamePrefix + n] + m[n];
    SectionLines(m, n);
    TextOut(body);
    var phys := PhysAll(body);
    assert "\r\n" + WrapOut(0, EntryText(m, n)) + z == "\r\n" + (JoinCRLF(phys) + z);
    LinesBlank(JoinCRLF(phys) + z);
    LinesJoin(phys, z);
    assert phys == Phys(NamePrefix + n) + PhysAll(m[n]) by {
      assert body[0] == NamePrefix + n && body[1..] == m[n];
    }
    RunCons(st, "", phys + Lines(z));
    RunAppend(closed, phys, Lines(z));
    RunAppend(closed, Phys(NamePrefix + n), PhysAll(m[n]));
    PhysName(closed.k, closed.m, n);
    PhysLines(n, [], closed.m, m[n]);
    assert [] + m[n] == m[n];
  }

  /** The per-file sections, the final blank line and the padding, read from any state. */
  lemma {:induction false} RunSections(m: Manifest, names: seq<string>, st: ParseState)
    requires WellFormed(m)
    requires forall i :: 0 <= i < |names| ==> names[i] in m
    ensures Run(st, Lines(Sections(m, names) + "\r\n" + Padding)).m == Fill(Flushed(st), m, names)
    decreases |names|
  {
    if names == [] {
      RunTail(st);
      assert Sections(m, names) + "\r\n" + Padding == "\r\n" + Padding;
    } else {
      var n, rest := names[0], names[1..];
      var z := Sections(m, rest) + "\r\n" + Padding;
      assert forall i :: 0 <= i < |rest| ==> rest[i] in m by {
        forall i | 0 <= i < |rest| ensures rest[i] in m {
          assert rest[i] == names[i + 1];
        }
      }
      assert Sections(m, names) + "\r\n" + Padding == "\r\n" + WrapOut(0, EntryText(m, n)) + z;
      RunSection(m, n, st, z);
      RunSections(m, rest, ParseState(n, m[n], Flushed(st)));
    }
  }

  lemma {:induction false} AttributesNoNewline(attrs: Attributes, i: nat)
    requires AllAttributes(attrs) && i < |attrs|
    ensures IsAttribute(attrs[i])
    decreases i
  {
    if i > 0 {
      AttributesNoNewline(attrs[1..], i - 1);
    }
  }

  /** The main section comes first: reading it leaves its lines pending under the name "". */
  lemma RunMain(m: Manifest)
    requires WellFormed(m)
    ensures Run(Start, Lines(Serialize(m) + Padding))
         == Run(ParseState("", Get(m, ""), map[]), Lines(Sections(m, Ordered(m.Keys - {""})) + "\r\n" + Padding))
  {
    var text, sections := WrapOut(0, MainText(m)), Sections(m, Ordered(m.Keys - {""}));
    assert Serialize(m) == text + sections + "\r\n";
    Regroup(text, sections, "\r\n", Padding);
    RunMainThen(m, sections + "\r\n" + Padding);
  }

  /** Reading the wrapped main section, whatever follows it, leaves its lines pending under "". */
  lemma RunMainThen(m: Manifest, z: string)
    requires WellFormed(m)
    ensures Run(Start, Lines(WrapOut(0, MainText(m)) + z)) == Run(ParseState("", Get(m, ""), map[]), Lines(z))
  {
    var main := Get(m, "");
    assert AllAttributes(main);
    assert forall i :: 0 <= i < |main| ==> NoNewline(main[i]) by {
      forall i | 0 <= i < |main| ensures NoNewline(main[i]) {
        AttributesNoNewline(main, i);
      }
    }
    TextOut(main);
    LinesJoin(PhysAll(main), z);
    RunAppend(Start, PhysAll(main), Lines(z));
    PhysLines("", [], map[], main);
    assert [] + main == main;
  }

  lemma Regroup(a: string, b: string, c: string, d: string)
    ensures a + b + c + d == a + (b + c + d)
  {
  }

  /** The main section and the named sections together are the whole map again. */
  lemma Refill(m: Manifest, names: seq<string>)
    requires WellFormed(m)
    requires forall x :: x in names <==> x in m && x != ""
    ensures Fill(Flushed(ParseState("", Get(m, ""), map[])), m, names) == m
  {
    var base := Flushed(ParseState("", Get(m, ""), map[]));
    FillSpec(base, m, names);
    var r := Fill(base, m, names);
    assert forall x :: x in r <==> x in m;
    forall x | x in m ensures r[x] == m[x] {
      if x == "" {
        assert x !in names;
      } else {
        assert x in names;
      }
    }
  }

  /**
   * ParseManifest reads back exactly what WriteTo wrote: the wrapping is
   * undone, the sections come back under their names, and nothing is added.
   */
  lemma RoundTrip(m: Manifest)
    requires WellFormed(m)
    ensures Parse(Serialize(m)) == m
  {
    var names := Ordered(m.Keys - {""});
    RunMain(m);
    assert forall i :: 0 <= i < |names| ==> names[i] in m by {
      forall i | 0 <= i < |names| ensures names[i] in m {
        assert names[i] in names;
      }
    }
    RunSections(m, names, ParseState("", Get(m, ""), map[]));
    Refill(m, names);
  }

  /* ---------------- the same text before wrapping ---------------- */

  /** The per-file sections as WriteEntry is handed them, before any wrapping. */
  function PlainSections(m: Manifest, names: seq<string>): string
    decreases |names|
  {
    if names == [] then ""
    else "\r\n" + EntryText(m, names[0]) + PlainSections(m, names[1..])
  }

  /** The text WriteTo is asked to write, before wrap72 breaks its long lines. */
  ghost function Unwrapped(m: Manifest): string {
    MainText(m) + PlainSections(m, Ordered(m.Keys - {""})) + "\r\n"
  }

  /** After a CRLF the writer is back at column 0. */
  lemma ColAfterCRLF(col: nat, x: string)
    requires col <= Width
    ensures WrapCol(col, x + "\r\n") == 0
  {
    WrapAppend(col, x, "\r\n");
    WrapNewlines(WrapCol(col, x), "\r\n");
  }

  /** A text of CRLF-ended lines leaves the writer at column 0. */
  lemma JoinedCol(col: nat, ls: seq<string>)
    requires col <= Width
    ensures WrapCol(col, JoinCRLF(ls)) == (if ls == [] then col else 0)
  {
    if ls != [] {
      var k := |ls| - 1;
      assert ls == ls[..k] + [ls[k]];
      JoinCRLFAppend(ls[..k], [ls[k]]);
      JoinOne(ls[k], []);
      assert JoinCRLF(ls) == (JoinCRLF(ls[..k]) + ls[k]) + "\r\n";
      ColAfterCRLF(col, JoinCRLF(ls[..k]) + ls[k]);
    }
  }

  /** A per-file section wrapped by the writer WriteTo hands it to, at column 0. */
  lemma EntryOut(m: Manifest, name: string)
    ensures WrapOut(0, WrapOut(0, EntryText(m, name))) == WrapOut(0, EntryText(m, name))
    ensures WrapCol(0, WrapOut(0, EntryText(m, name))) == 0
    ensures WrapCol(0, EntryText(m, name)) == 0
  {
    WrapIdempotent(0, EntryText(m, name));
    JoinedCol(0, [NamePrefix + name] + Get(m, name));
  }

  lemma {:induction false} SectionsOut(m: Manifest, names: seq<string>)
    ensures WrapOut(0, PlainSections(m, names)) == Sections(m, names)
    ensures WrapCol(0, PlainSections(m, names)) == 0
    decreases |names|
  {
    if names != [] {
      SectionsOut(m, names[1..]);
      EntryOut(m, names[0]);
      SectionStep(EntryText(m, names[0]), PlainSections(m, names[1..]));
    }
  }

  /** A blank line and a section of lines each ended by CRLF: the section is wrapped on its own. */
  lemma SectionStep(e: string, rest: string)
    requires WrapCol(0, e) == 0
    ensures WrapOut(0, "\r\n" + e + rest) == "\r\n" + WrapOut(0, e) + WrapOut(0, rest)
    ensures WrapCol(0, "\r\n" + e + rest) == WrapCol(0, rest)
  {
    Assoc("\r\n", e, rest);
    WrapAppend(0, "\r\n", e + rest);
    WrapNewlines(0, "\r\n");
    WrapAppend(0, e, rest);
    Assoc("\r\n", WrapOut(0, e), WrapOut(0, rest));
  }

  /**
   * Writing section by section through two wrap72s gives the same bytes as
   * wrapping the whole unwrapped text once.
   */
  lemma SerializeIsWrapped(m: Manifest)
    ensures Serialize(m) == WrapOut(0, Unwrapped(m))
  {
    var names := Ordered(m.Keys - {""});
    JoinedCol(0, Get(m, ""));
    SectionsOut(m, names);
    WrapThree(MainText(m), PlainSections(m, names));
  }

  lemma WrapThree(a: string, b: string)
    requires WrapCol(0, a) == 0 && WrapCol(0, b) == 0
    ensures WrapOut(0, a + b + "\r\n") == WrapOut(0, a) + WrapOut(0, b) + "\r\n"
  {
    var wa, wb := WrapOut(0, a), WrapOut(0, b);
    assert WrapOut(0, b + "\r\n") == wb + "\r\n" by {
      WrapAppend(0, b, "\r\n");
      WrapNewlines(0, "\r\n");
    }
    assert WrapOut(0, a + (b + "\r\n")) == wa + (wb + "\r\n") by {
      WrapAppend(0, a, b + "\r\n");
    }
    Assoc(a, b, "\r\n");
    Assoc(wa, wb, "\r\n");
  }

  /** No physical line of a written manifest holds more than 70 bytes before its CRLF. */
  lemma SerializeWithin(m: Manifest)
    ensures Within(0, Serialize(m))
  {
    SerializeIsWrapped(m);
    WrapWithin(0, Unwrapped(m));
  }
}
