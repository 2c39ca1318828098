/**
 * The expectations of the repository's tests, stated over the model:
 * the wrap72 example of manifest_test.go:67-86 and the parse/write example
 * of manifest_test.go:12-65.  The second is also the MANIFEST.MF that
 * basia writes for the two files of that example.
 */
module TestVectors {
  import opened Strings
  import opened LineWrap
  import opened Manifest
  import opened ApkSigner
  import opened Basia

  /* ---------------- TestWrap72 (manifest_test.go:67-86) ---------------- */

  /**
   * The 208-byte line of the test, in the three pieces a fresh wrap72
   * writes it as (the test's own literals cut it two bytes later).
   */
  const Piece1: string := ".bcdefgh.1.bcdefgh.2.bcdefgh.3" + ".bcdefgh.4.bcdefgh.5.bcdefgh.6" + ".bcdefgh.7"
  const Piece2: string := ".bcdefgh.A.bcdefgh.B.bcdefgh.C" + ".bcdefgh.D.bcdefgh.E.bcdefgh.F" + ".bcdefgh."
  const Piece3: string := "G.bcdefgh.H.bcdefgh.I.bcdefgh." + "J.bcdefgh.K.bcdefgh.L.bcdefgh." + "M.bcdefgh"

  lemma LongLinePieces()
    ensures NoNewline(Piece1) && NoNewline(Piece2) && NoNewline(Piece3)
  {
    Piece1Clean();
    Piece2Clean();
    Clean3("G.bcdefgh.H.bcdefgh.I.bcdefgh.", "J.bcdefgh.K.bcdefgh.L.bcdefgh.", "M.bcdefgh");
  }

  lemma Piece1Clean()
    ensures NoNewline(Piece1)
  {
    Clean3(".bcdefgh.1.bcdefgh.2.bcdefgh.3", ".bcdefgh.4.bcdefgh.5.bcdefgh.6", ".bcdefgh.7");
  }

  lemma Piece2Clean()
    ensures NoNewline(Piece2)
  {
    Clean3(".bcdefgh.A.bcdefgh.B.bcdefgh.C", ".bcdefgh.D.bcdefgh.E.bcdefgh.F", ".bcdefgh.");
  }

  /** Three short literals without CR or LF, put together. */
  lemma Clean3(a: string, b: string, c: string)
    requires NoNewline(a) && NoNewline(b) && NoNewline(c)
    ensures NoNewline(a + b + c)
  {
    NoNewlineAppend(a, b);
    NoNewlineAppend(a + b, c);
  }

  /**
   * The test's input, a 208-byte line, CRLF and "hello", comes out as three
   * physical lines of 70, 1 + 69 and 1 + 69 bytes (the marker is the CRLF
   * ending one line and the space opening the next), then CRLF and "hello".
   */
  lemma Wrap72TestCase()
    ensures WrapOut(0, Piece1 + Piece2 + Piece3 + "\r\n" + "hello")
         == Piece1 + Marker + Piece2 + Marker + Piece3 + "\r\n" + "hello"
  {
    LongLineWrapped();
    forall i | 0 <= i < |"hello"| ensures !IsNewline("hello"[i]) {}
    WrapPlain(0, "hello");
    WrapLine(Piece1 + Piece2 + Piece3, "hello");
  }

  /** The 208-byte line alone, from column 0. */
  lemma LongLineWrapped()
    ensures NoNewline(Piece1 + Piece2 + Piece3)
    ensures WrapOut(0, Piece1 + Piece2 + Piece3) == Piece1 + Marker + Piece2 + Marker + Piece3
  {
    LongLinePieces();
    NoNewlineAppend(Piece1, Piece2);
    NoNewlineAppend(Piece1 + Piece2, Piece3);
    ChunkedIsWrap(Piece1 + Piece2 + Piece3, Width);
    ChunkedThree(Piece1, Piece2, Piece3);
  }

  lemma NoNewlineAppend(a: string, b: string)
    requires NoNewline(a) && NoNewline(b)
    ensures NoNewline(a + b)
  {
    forall i | 0 <= i < |a + b| ensures !IsNewline((a + b)[i]) {
      if i >= |a| { assert (a + b)[i] == b[i - |a|]; }
    }
  }

  /* ---------------- TestParseAndWriteManifest (manifest_test.go:12-65) ---------------- */

  /**
   * The two file names of the test, each cut where its "Name: " line
   * reaches 70 bytes.
   */
  const Stem: string := "res/drawable/abc_list_" + "selector_background_" + "transition_holo_"
  const DarkCut: string := NamePrefix + Stem + "dark.x"
  const LightCut: string := NamePrefix + Stem + "light."
  const Dark: string := Stem + "dark.x" + "ml"
  const Light: string := Stem + "light." + "xml"
  const DarkDigest: string := "x6OHiSoyMWiuIOgpmUuAh/tRnYM="
  const LightDigest: string := "0fvC1p6NZOpNNtjO4w0DBYRz8d0="
  const Head1: string := "Manifest-Version: 1.0"
  const Head2: string := "Built-By: Generated-by-ADT"
  const Head3: string := "Created-By: Android Gradle 3.3.2"

  /**
   * The serialized text of the test, its LFs replaced by CRLFs
   * (manifest_test.go:20-32): the main section, then the two file sections
   * whose Name lines run on in a continuation line.
   */
  const TestText: string := TestHead + TestDark + TestLight
  const TestHead: string := Head1 + "\r\n" + Head2 + "\r\n" + Head3 + "\r\n" + "\r\n"
  const TestDark: string := DarkCut + "\r\n" + " " + "ml" + "\r\n" + "SHA1-Digest: " + DarkDigest + "\r\n" + "\r\n"
  const TestLight: string := LightCut + "\r\n" + " " + "xml" + "\r\n" + "SHA1-Digest: " + LightDigest + "\r\n" + "\r\n"

  /** The parsed manifest of the test (manifest_test.go:33-45). */
  const TestManifest: Manifest := map[
    "" := [Head1, Head2, Head3],
    Dark := ["SHA1-Digest: " + DarkDigest],
    Light := ["SHA1-Digest: " + LightDigest]]

  /** The two files of the test with their digests, as basia would list them. */
  const TestFiles: seq<FileDigest> := [FileDigest(Dark, DarkDigest), FileDigest(Light, LightDigest)]

  lemma TestFilesOrdered()
    ensures OrderedPaths(TestFiles)
    ensures Signed(TestFiles[0]) && Signed(TestFiles[1])
  {
    NamesClean();
    NamesAscending();
    NamesSigned();
    assert Paths(TestFiles) == [Dark, Light];
    IncreasingCons(Dark, [Light]);
    assert [Dark] + [Light] == [Dark, Light];
  }

  lemma NamesClean()
    ensures NoNewline(Dark) && NoNewline(Light) && NoNewline(DarkDigest) && NoNewline(LightDigest)
  {
    Clean3("res/drawable/abc_list_", "selector_background_", "transition_holo_");
    Clean3(Stem, "dark.x", "ml");
    Clean3(Stem, "light.", "xml");
    assert NoNewline(DarkDigest) && NoNewline(LightDigest);
  }

  lemma NamesAscending()
    ensures Less(Dark, Light)
  {
    assert Dark == Stem + "dark.xml" && Light == Stem + "light.xml";
    assert Less("dark.xml", "light.xml");
    LessAfter(Stem, "dark.xml", "light.xml");
  }

  lemma NamesSigned()
    ensures Signed(FileDigest(Dark, DarkDigest)) && Signed(FileDigest(Light, LightDigest))
  {
    assert Dark[0] == 'r' && Light[0] == 'r' && MetaInf[0] == 'M';
    assert !HasPrefix(Dark, MetaInf) && !HasPrefix(Light, MetaInf);
  }

  /** A common prefix leaves the order of two strings as it was. */
  lemma {:induction false} LessAfter(p: string, a: string, b: string)
    requires Less(a, b)
    ensures Less(p + a, p + b)
    decreases |p|
  {
    if p == [] {
      assert p + a == a && p + b == b;
    } else {
      LessAfter(p[1..], a, b);
      assert (p + a)[0] == p[0] == (p + b)[0];
      assert (p + a)[1..] == p[1..] + a && (p + b)[1..] == p[1..] + b;
    }
  }

  /** MANIFEST.MF's header block: three short lines, then a blank line. */
  lemma HeadBlock()
    ensures Block(HeadLines) == Head1 + "\r\n" + Head2 + "\r\n" + Head3 + "\r\n" + "\r\n"
  {
    assert Chunks(HeadLines) == [Head1, Head2, Head3];
    JoinOne(Head1, [Head2, Head3]);
    JoinOne(Head2, [Head3]);
    JoinOne(Head3, []);
  }

  /** The block basia writes for one of the test's files. */
  lemma FileBlock(name: string, cut: string, tail: string, digest: string)
    requires NamePrefix + name == cut + tail && |cut| == Width && tail != [] && |tail| <= 69
    requires |digest| == 28
    ensures EntryBlock(FileDigest(name, digest))
         == cut + "\r\n" + " " + tail + "\r\n" + "SHA1-Digest: " + digest + "\r\n" + "\r\n"
  {
    ChunkedCut(cut, tail, Width);
    var d := DigestKey + ": " + digest;
    assert Chunks([NamePrefix + name, d]) == [cut + Marker + tail, d];
    JoinOne(cut + Marker + tail, [d]);
    JoinOne(d, []);
  }

  /**
   * ParseManifest reads the test's text as the test's map, and WriteTo
   * writes that map as the test's text; basia writes the same text for the
   * two files.
   */
  lemma ManifestTestCase()
    ensures Parse(TestText) == TestManifest
    ensures Serialize(TestManifest) == TestText
    ensures Block(HeadLines) + SignedBlocks(TestFiles, EntryBlock) == TestText
  {
    TestFilesOrdered();
    TestFilesManifest();
    BasiaText();
    ManifestMfIsSerialized(TestFiles);
    ManifestMfReadsBack(TestFiles);
  }

  /** The manifest basia's MANIFEST.MF stands for, for the two files, is the test's map. */
  lemma TestFilesManifest()
    ensures ManifestOf(TestFiles) == TestManifest
  {
    NamesSigned();
    var f0, f1 := TestFiles[0], TestFiles[1];
    assert TestFiles[1..] == [f1] && [f1][1..] == [];
    assert |Dark| == 66 && |Light| == 67;
    var d, l := [DigestKey + ": " + DarkDigest], [DigestKey + ": " + LightDigest];
    assert DigestSections([f1]) == map[Light := l];
    assert DigestSections(TestFiles) == map[Light := l][Dark := d];
    assert HeadLines == [Head1, Head2, Head3];
    assert DigestKey + ": " == "SHA1-Digest: ";
    assert d == ["SHA1-Digest: " + DarkDigest] && l == ["SHA1-Digest: " + LightDigest];
    assert Dark != "" && Light != "" && Dark != Light;
    assert map[Light := l][Dark := d]["" := HeadLines] == TestManifest;
  }

  /** basia's MANIFEST.MF for the two files is the test's text. */
  lemma BasiaText()
    ensures Block(HeadLines) + SignedBlocks(TestFiles, EntryBlock) == TestText
  {
    NamesSigned();
    HeadBlock();
    FileBlock(Dark, DarkCut, "ml", DarkDigest);
    FileBlock(Light, LightCut, "xml", LightDigest);
    var f0, f1 := TestFiles[0], TestFiles[1];
    assert TestFiles[1..] == [f1] && [f1][1..] == [];
    assert SignedBlocks([f1], EntryBlock) == EntryBlock(f1) + SignedBlocks([], EntryBlock);
    assert SignedBlocks(TestFiles, EntryBlock) == EntryBlock(f0) + SignedBlocks([f1], EntryBlock);
  }
}
