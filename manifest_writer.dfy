/**
 * The writers of manifest.go.  WriteTo (manifest.go:78-114) writes a whole
 * manifest through a wrap72; WriteEntry (manifest.go:116-131) writes one
 * per-file section through a wrap72 of its own, put in front of whatever
 * writer it is handed: WriteTo's wrap72, or a raw hasher when the signature
 * file digests a section.
 *
 * Both are proved to emit exactly the text Serialize / EntryText specify
 * (or, on a sink that runs out of room, the part of it that fits), so the
 * round trip and the line-length bound proved in module Manifest are about
 * what these methods write.
 */
module ManifestWriter {
  import opened Wrappers
  import opened Strings
  import opened Sinks
  import opened LineWrap
  import opened LineWrapWriter
  import opened Manifest

  /** The first i+1 lines with their CRLFs extend the first i by one line, and start the whole text. */
  lemma JoinSnoc(ls: seq<string>, i: nat)
    requires i < |ls|
    ensures JoinCRLF(ls[..i + 1]) == JoinCRLF(ls[..i]) + (ls[i] + "\r\n")
    ensures HasPrefix(JoinCRLF(ls), JoinCRLF(ls[..i + 1]))
  {
    JoinLine(ls[..i], ls[i]);
    assert JoinCRLF(ls[..i] + [ls[i]]) == JoinCRLF(ls[..i + 1]) by {
      assert ls[..i] + [ls[i]] == ls[..i + 1];
    }
    JoinPrefix(ls[..i + 1], ls[i + 1..]);
    assert JoinCRLF(ls[..i + 1] + ls[i + 1..]) == JoinCRLF(ls) by {
      assert ls[..i + 1] + ls[i + 1..] == ls;
    }
  }

  /** Joining one more line appends it and its CRLF. */
  lemma JoinLine(a: seq<string>, x: string)
    ensures JoinCRLF(a + [x]) == JoinCRLF(a) + (x + "\r\n")
  {
    JoinCRLFAppend(a, [x]);
    JoinLast(x);
  }

  /** The joined text of some lines starts the joined text of those lines and more. */
  lemma JoinPrefix(a: seq<string>, b: seq<string>)
    ensures HasPrefix(JoinCRLF(a + b), JoinCRLF(a))
  {
    JoinCRLFAppend(a, b);
    PrefixOfAppend(JoinCRLF(a), JoinCRLF(b));
  }

  /** One line joined is that line and its CRLF. */
  lemma JoinLast(x: string)
    ensures JoinCRLF([x]) == x + "\r\n"
  {
    var none: seq<string> := [];
    assert [x][1..] == none;
  }

  lemma {:induction false} SectionsAppend(m: Manifest, a: seq<string>, b: seq<string>)
    ensures Sections(m, a + b) == Sections(m, a) + Sections(m, b)
    decreases |a|
  {
    if a == [] {
      assert a + b == b;
    } else {
      var h := "\r\n" + WrapOut(0, EntryText(m, a[0]));
      assert Sections(m, a + b) == h + Sections(m, a[1..] + b) by {
        assert (a + b)[0] == a[0] && (a + b)[1..] == a[1..] + b;
      }
      SectionsAppend(m, a[1..], b);
      Assoc(h, Sections(m, a[1..]), Sections(m, b));
    }
  }

  lemma {:induction false} PlainSectionsAppend(m: Manifest, a: seq<string>, b: seq<string>)
    ensures PlainSections(m, a + b) == PlainSections(m, a) + PlainSections(m, b)
    decreases |a|
  {
    if a == [] {
      assert a + b == b;
    } else {
      var h := "\r\n" + EntryText(m, a[0]);
      assert PlainSections(m, a + b) == h + PlainSections(m, a[1..] + b) by {
        assert (a + b)[0] == a[0] && (a + b)[1..] == a[1..] + b;
      }
      PlainSectionsAppend(m, a[1..], b);
      Assoc(h, PlainSections(m, a[1..]), PlainSections(m, b));
    }
  }

  /** The sections of the first j+1 names extend those of the first j by one section, and start them all. */
  lemma SectionsSnoc(m: Manifest, names: seq<string>, j: nat)
    requires j < |names|
    ensures Sections(m, names[..j + 1]) == Sections(m, names[..j]) + "\r\n" + WrapOut(0, EntryText(m, names[j]))
    ensures PlainSections(m, names[..j + 1]) == PlainSections(m, names[..j]) + "\r\n" + EntryText(m, names[j])
    ensures HasPrefix(Sections(m, names), Sections(m, names[..j + 1]))
  {
    SectionsLast(m, names[..j], names[j]);
    assert Sections(m, names[..j] + [names[j]]) == Sections(m, names[..j + 1]) &&
           PlainSections(m, names[..j] + [names[j]]) == PlainSections(m, names[..j + 1]) by {
      assert names[..j] + [names[j]] == names[..j + 1];
    }
    SectionsAppend(m, names[..j + 1], names[j + 1..]);
    PrefixOfAppend(Sections(m, names[..j + 1]), Sections(m, names[j + 1..]));
    assert Sections(m, names[..j + 1] + names[j + 1..]) == Sections(m, names) by {
      assert names[..j + 1] + names[j + 1..] == names;
    }
  }

  /** One more name adds its section, wrapped or not, at the end. */
  lemma SectionsLast(m: Manifest, a: seq<string>, x: string)
    ensures Sections(m, a + [x]) == Sections(m, a) + "\r\n" + WrapOut(0, EntryText(m, x))
    ensures PlainSections(m, a + [x]) == PlainSections(m, a) + "\r\n" + EntryText(m, x)
  {
    var last: seq<string> := [x];
    SectionsAppend(m, a, last);
    PlainSectionsAppend(m, a, last);
    var none: seq<string> := [];
    assert last[1..] == none;
    Assoc(Sections(m, a), "\r\n", WrapOut(0, EntryText(m, x)));
    Assoc(PlainSections(m, a), "\r\n", EntryText(m, x));
  }

  /**
   * One write of `piece` through a wrap72 that has so far written `done`
   * (from column 0, into the writer beneath standing at `u0`): on success the
   * sink holds the wrapping of done+piece, on failure what fits of `whole`,
   * any text that continues it.
   */
  lemma WriteOn(room: Option<nat>, nested: bool, u0: nat, d0: string, text: string, whole: string,
                done: string, piece: string, after: string, okw: bool)
    requires u0 <= Width
    requires HasPrefix(text, done + piece)
    requires HasPrefix(whole, d0 + Down(nested, u0, WrapOut(0, text)))
    requires after == Admit(room, d0 + Down(nested, u0, WrapOut(0, done))
                                 + Down(nested, DownCol(nested, u0, WrapOut(0, done)), WrapOut(WrapCol(0, done), piece)))
    requires okw == Fits(room, d0 + Down(nested, u0, WrapOut(0, done))
                               + Down(nested, DownCol(nested, u0, WrapOut(0, done)), WrapOut(WrapCol(0, done), piece)))
    ensures okw ==> after == d0 + Down(nested, u0, WrapOut(0, done + piece))
    ensures WrapCol(WrapCol(0, done), piece) == WrapCol(0, done + piece)
    ensures DownCol(nested, DownCol(nested, u0, WrapOut(0, done)), WrapOut(WrapCol(0, done), piece))
         == DownCol(nested, u0, WrapOut(0, done + piece))
    ensures !okw ==> after == Admit(room, whole) && !Fits(room, whole)
  {
    var a, o := WrapOut(0, done), WrapOut(WrapCol(0, done), piece);
    Progress(nested, u0, 0, d0, text, done, piece, o);
    var x := d0 + Down(nested, u0, WrapOut(0, done + piece));
    Assoc(d0, Down(nested, u0, a), Down(nested, DownCol(nested, u0, a), o));
    PrefixTransitive(x, d0 + Down(nested, u0, WrapOut(0, text)), whole);
    Absorb(room, x, whole, after, okw);
  }

  /** A write whose text is a prefix of `whole`: either all of it went in, or the sink is as `whole` would leave it. */
  lemma Absorb(room: Option<nat>, x: string, whole: string, after: string, okw: bool)
    requires after == Admit(room, x) && okw == Fits(room, x)
    requires HasPrefix(whole, x)
    ensures okw ==> after == x
    ensures !okw ==> after == Admit(room, whole) && !Fits(room, whole)
  {
    if !okw {
      OverflowAbsorbs(room, x, whole);
    }
  }

  /**
   * The `write` closure of manifest.go:80-85 and 118-123: writes `s` through
   * the wrap72 unless an earlier write failed, and accumulates the count.
   */
  method GuardedWrite(w: Wrap72, s: string, count: nat, ok: bool) returns (count': nat, ok': bool)
    requires w.Valid()
    modifies w, w.sink, w.under
    ensures w.Valid()
    ensures !ok ==> !ok' && w.sink.data == old(w.sink.data)
    ensures ok ==> w.sink.data == Admit(w.sink.room, old(w.sink.data)
                     + Down(w.under != null, old(w.UnderCol()), WrapOut(old(w.n), s)))
    ensures ok ==> ok' == Fits(w.sink.room, old(w.sink.data)
                     + Down(w.under != null, old(w.UnderCol()), WrapOut(old(w.n), s)))
    ensures ok' ==> count' == count + |s| && w.n == WrapCol(old(w.n), s)
    ensures ok' ==> w.UnderCol() == DownCol(w.under != null, old(w.UnderCol()), WrapOut(old(w.n), s))
  {
    count', ok' := count, ok;
    if ok {
      var wn, werr := w.Write(s);
      count', ok' := count + wn, werr;
    }
  }

  /**
   * manifest.go:116-131: writes "Name: <name>" and the section's lines, each
   * with CRLF, through a new wrap72 over `via` (when WriteTo calls it) or
   * straight over the sink (when the signature file hashes the section).
   * Writes stop at the first error.
   */
  method WriteEntry(m: Manifest, sink: Sink, via: Wrap72?, name: string) returns (count: nat, ok: bool)
    requires sink.Valid()
    requires via != null ==> via.Valid() && via.under == null && via.sink == sink
    modifies sink, via
    ensures sink.Valid()
    ensures via != null ==> via.Valid()
    ensures via == null ==> sink.data == Admit(sink.room, old(sink.data) + WrapOut(0, EntryText(m, name)))
    ensures via == null ==> ok == Fits(sink.room, old(sink.data) + WrapOut(0, EntryText(m, name)))
    ensures via != null ==>
      sink.data == Admit(sink.room, old(sink.data) + WrapOut(old(via.n), WrapOut(0, EntryText(m, name))))
    ensures via != null ==>
      ok == Fits(sink.room, old(sink.data) + WrapOut(old(via.n), WrapOut(0, EntryText(m, name))))
    ensures via != null && ok ==> via.n == WrapCol(old(via.n), WrapOut(0, EntryText(m, name)))
    ensures ok ==> count == |EntryText(m, name)|
  {
    ghost var d0, nested := sink.data, via != null;
    ghost var u0 := if via == null then 0 else via.n;
    ghost var lines := [NamePrefix + name] + Get(m, name);
    ghost var full := d0 + Down(nested, u0, WrapOut(0, EntryText(m, name)));
    assert JoinCRLF(lines) == EntryText(m, name);
    var w := new Wrap72(sink, via);
    count, ok := 0, true;
    assert JoinCRLF(lines[..0]) == "";
    count, ok := WriteLine(w, NamePrefix + name + "\r\n", count, ok, lines, 0, d0, u0, full);
    var attrs := Get(m, name);
    var i := 0;
    while i < |attrs|
      invariant 0 <= i <= |attrs| && lines == [NamePrefix + name] + attrs
      invariant w.Valid() && w.sink == sink && w.under == via
      invariant Written(w, count, ok, lines, i + 1, d0, u0, full)
    {
      assert lines[i + 1] == attrs[i];
      count, ok := WriteLine(w, attrs[i] + "\r\n", count, ok, lines, i + 1, d0, u0, full);
      i := i + 1;
    }
    assert lines[..i + 1] == lines;
  }

  /**
   * Where a wrap72 stands after the first `i` of `lines` went through it
   * successfully, or, once a write failed, what the sink then holds.
   */
  ghost predicate Written(w: Wrap72, count: nat, ok: bool, lines: seq<string>, i: nat, d0: string, u0: nat, full: string)
    reads w, w.sink, w.under
    requires w.Valid() && i <= |lines| && u0 <= Width
  {
    var done := JoinCRLF(lines[..i]);
    (ok ==> w.sink.data == d0 + Down(w.under != null, u0, WrapOut(0, done)) &&
            w.n == WrapCol(0, done) &&
            w.UnderCol() == DownCol(w.under != null, u0, WrapOut(0, done)) &&
            count == |done|) &&
    (!ok ==> w.sink.data == Admit(w.sink.room, full) && !Fits(w.sink.room, full))
  }

  /** One write of WriteEntry: line i of the section and its CRLF, unless an earlier write failed. */
  method WriteLine(w: Wrap72, s: string, count: nat, ok: bool,
                   ghost lines: seq<string>, ghost i: nat, ghost d0: string, ghost u0: nat, ghost full: string)
    returns (count': nat, ok': bool)
    requires w.Valid() && i < |lines| && s == lines[i] + "\r\n" && u0 <= Width
    requires full == d0 + Down(w.under != null, u0, WrapOut(0, JoinCRLF(lines)))
    requires Written(w, count, ok, lines, i, d0, u0, full)
    modifies w, w.sink, w.under
    ensures w.Valid()
    ensures Written(w, count', ok', lines, i + 1, d0, u0, full)
  {
    ghost var done := JoinCRLF(lines[..i]);
    JoinSnoc(lines, i);
    count', ok' := GuardedWrite(w, s, count, ok);
    if ok {
      WriteOn(w.sink.room, w.under != null, u0, d0, JoinCRLF(lines), full, done, s, w.sink.data, ok');
    }
  }

  /** Sorted keys without the main section's "" (manifest.go:93-100), as Ordered gives them. */
  lemma SkipMain(keys: set<string>, sorted: seq<string>)
    requires sorted != [] && sorted == Ordered(keys)
    ensures sorted[0] == "" ==> sorted[1..] == Ordered(keys - {""})
    ensures sorted[0] != "" ==> sorted == Ordered(keys - {""})
  {
    var rest := if sorted[0] == "" then sorted[1..] else sorted;
    assert Increasing(rest);
    forall x ensures x in rest <==> x in keys - {""} {
      if x == "" && x in sorted {
        var k :| 0 <= k < |sorted| && sorted[k] == x;
        if k > 0 {
          assert false;
        }
      }
      if x in sorted && x != "" {
        var k :| 0 <= k < |sorted| && sorted[k] == x;
        assert k > 0 || sorted[0] != "";
      }
    }
    IncreasingUnique(rest, Ordered(keys - {""}));
  }

  /**
   * manifest.go:78-114: the main section, then every other section in
   * ascending name order after a blank line, then a final blank line, all
   * through one wrap72.  Go indexes the first sorted name, so an empty map
   * is not a valid argument.  On success the count is the length of the
   * unwrapped text (the markers are not counted).
   */
  method WriteTo(m: Manifest, sink: Sink) returns (count: nat, ok: bool)
    requires |m| > 0
    requires sink.Valid()
    modifies sink
    ensures sink.Valid()
    ensures sink.data == Admit(sink.room, old(sink.data) + Serialize(m))
    ensures ok == Fits(sink.room, old(sink.data) + Serialize(m))
    ensures ok ==> count == |Unwrapped(m)|
  {
    ghost var d0 := sink.data;
    ghost var mainOut := d0 + WrapOut(0, MainText(m));
    ghost var rest := Sections(m, Ordered(m.Keys - {""})) + "\r\n";
    SerializeSplit(d0, m);
    PrefixOfAppend(mainOut, rest);
    var w := new Wrap72(sink, null);
    count, ok := WriteMain(m, w, mainOut + rest);
    if !ok {
      return;
    }
    var names := SortedNames(m);
    var wn;
    wn, ok := WriteRest(m, w, names, mainOut + rest);
    count := count + wn;
  }

  /** manifest.go:101-113: the named sections, then the closing blank line. */
  method WriteRest(m: Manifest, w: Wrap72, names: seq<string>, ghost whole: string) returns (count: nat, ok: bool)
    requires w.Valid() && w.under == null && w.n == 0
    requires whole == w.sink.data + (Sections(m, names) + "\r\n")
    modifies w, w.sink
    ensures w.Valid()
    ensures w.sink.data == Admit(w.sink.room, whole) && ok == Fits(w.sink.room, whole)
    ensures ok ==> count == |PlainSections(m, names)| + 2
  {
    ghost var d0 := w.sink.data;
    Assoc(d0, Sections(m, names), "\r\n");
    PrefixOfAppend(d0 + Sections(m, names), "\r\n");
    count, ok := WriteSections(m, w, names, whole);
    if !ok {
      return;
    }
    // the extra blank line that closes the manifest
    ghost var before := w.sink.data;
    assert before + "\r\n" == whole;
    WrapNewlines(0, "\r\n");
    assert Down(false, 0, WrapOut(0, "\r\n")) == "\r\n";
    count, ok := GuardedWrite(w, "\r\n", count, ok);
  }

  lemma SerializeSplit(d0: string, m: Manifest)
    ensures d0 + Serialize(m) == d0 + WrapOut(0, MainText(m)) + (Sections(m, Ordered(m.Keys - {""})) + "\r\n")
    ensures |Unwrapped(m)| == |MainText(m)| + |PlainSections(m, Ordered(m.Keys - {""}))| + 2
  {
    var a, b := WrapOut(0, MainText(m)), Sections(m, Ordered(m.Keys - {""}));
    Assoc(d0, a + b, "\r\n");
    Assoc(d0, a, b);
    Assoc(d0 + a, b, "\r\n");
  }

  /** manifest.go:92-100: the map's keys in ascending order, without the main section's "". */
  method SortedNames(m: Manifest) returns (names: seq<string>)
    requires |m| > 0
    ensures names == Ordered(m.Keys - {""})
  {
    names := SortedKeys(m.Keys);
    SkipMain(m.Keys, names);
    if names[0] == "" {
      names := names[1..];
    }
  }

  /** manifest.go:86-91: the main section's lines, each with CRLF. */
  method WriteMain(m: Manifest, w: Wrap72, ghost whole: string) returns (count: nat, ok: bool)
    requires w.Valid() && w.under == null && w.n == 0
    requires HasPrefix(whole, w.sink.data + WrapOut(0, MainText(m)))
    modifies w, w.sink
    ensures w.Valid()
    ensures ok ==> w.sink.data == old(w.sink.data) + WrapOut(0, MainText(m)) && w.n == 0
    ensures ok ==> count == |MainText(m)|
    ensures !ok ==> w.sink.data == Admit(w.sink.room, whole) && !Fits(w.sink.room, whole)
  {
    ghost var d0 := w.sink.data;
    count, ok := 0, true;
    var main := Get(m, "");
    var i := 0;
    while i < |main|
      invariant 0 <= i <= |main|
      invariant w.Valid() && w.under == null
      invariant ok ==> w.sink.data == d0 + WrapOut(0, JoinCRLF(main[..i]))
      invariant ok ==> w.n == WrapCol(0, JoinCRLF(main[..i]))
      invariant ok ==> count == |JoinCRLF(main[..i])|
      invariant !ok ==> w.sink.data == Admit(w.sink.room, whole) && !Fits(w.sink.room, whole)
    {
      ghost var done, wasOk := JoinCRLF(main[..i]), ok;
      JoinSnoc(main, i);
      count, ok := GuardedWrite(w, main[i] + "\r\n", count, ok);
      if wasOk {
        WriteOn(w.sink.room, false, 0, d0, MainText(m), whole, done, main[i] + "\r\n", w.sink.data, ok);
      }
      i := i + 1;
    }
    assert main[..i] == main;
    JoinedCol(0, main);
  }

  /** manifest.go:101-109: each named section after a blank line; stops at the first error. */
  method WriteSections(m: Manifest, w: Wrap72, names: seq<string>, ghost whole: string) returns (count: nat, ok: bool)
    requires w.Valid() && w.under == null && w.n == 0
    requires HasPrefix(whole, w.sink.data + Sections(m, names))
    modifies w, w.sink
    ensures w.Valid()
    ensures ok ==> w.sink.data == old(w.sink.data) + Sections(m, names) && w.n == 0
    ensures ok ==> count == |PlainSections(m, names)|
    ensures !ok ==> w.sink.data == Admit(w.sink.room, whole) && !Fits(w.sink.room, whole)
  {
    ghost var d0 := w.sink.data;
    ok := true;
    count := 0;
    var j := 0;
    while j < |names|
      invariant 0 <= j <= |names|
      invariant ok
      invariant w.Valid() && w.under == null && w.n == 0
      invariant w.sink.data == d0 + Sections(m, names[..j])
      invariant count == |PlainSections(m, names[..j])|
    {
      SectionsSnoc(m, names, j);
      ghost var before := w.sink.data;
      Assoc(d0, Sections(m, names[..j]), "\r\n" + WrapOut(0, EntryText(m, names[j])));
      Assoc(Sections(m, names[..j]), "\r\n", WrapOut(0, EntryText(m, names[j])));
      Assoc(before, "\r\n", WrapOut(0, EntryText(m, names[j])));
      PrefixTransitive(before + "\r\n" + WrapOut(0, EntryText(m, names[j])), d0 + Sections(m, names), whole);
      var wn;
      wn, ok := WriteSection(m, w, names[j], whole);
      count := count + wn;
      if !ok {
        return;
      }
      j := j + 1;
    }
    assert names[..j] == names;
  }

  /** One pass of manifest.go:102-108: a blank line, then the section through WriteEntry. */
  method WriteSection(m: Manifest, w: Wrap72, name: string, ghost whole: string) returns (count: nat, ok: bool)
    requires w.Valid() && w.under == null && w.n == 0
    requires HasPrefix(whole, w.sink.data + "\r\n" + WrapOut(0, EntryText(m, name)))
    modifies w, w.sink
    ensures w.Valid()
    ensures ok ==> w.sink.data == old(w.sink.data) + "\r\n" + WrapOut(0, EntryText(m, name)) && w.n == 0
    ensures ok ==> count == 2 + |EntryText(m, name)|
    ensures !ok ==> w.sink.data == Admit(w.sink.room, whole) && !Fits(w.sink.room, whole)
  {
    ghost var before := w.sink.data;
    ghost var entry := WrapOut(0, EntryText(m, name));
    EntryOut(m, name);
    ghost var grown := before + "\r\n" + entry;
    PrefixOfAppend(before + "\r\n", entry);
    PrefixTransitive(before + "\r\n", grown, whole);
    WrapNewlines(0, "\r\n");
    var wn, sepOk := GuardedWrite(w, "\r\n", 0, true);
    ghost var col := w.n;
    assert EntryText(m, name) != [];
    assert entry != [] && WrapOut(col, entry) != [];
    var en, werr := WriteEntry(m, w.sink, w, name);
    count, ok := wn + en, werr;
    if !sepOk {
      AfterOverflow(w.sink.room, before + "\r\n", WrapOut(col, entry));
      OverflowAbsorbs(w.sink.room, before + "\r\n", whole);
    } else if !ok {
      OverflowAbsorbs(w.sink.room, grown, whole);
    }
  }
}
