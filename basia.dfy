/**
 * The signer of basia.go, which builds a signed package from a directory:
 * it writes MANIFEST.MF and CERT.SF as text blocks of its own (wrap70,
 * joinBlock) instead of going through the Manifest type.  The directory
 * walk and the hashing of file contents happen before the modelled part
 * (each file arrives as its name and its base64 SHA-1 digest), and the
 * final copy of the files' bytes from disk is represented by the entries'
 * names.
 *
 * The results proved here relate the two signers: basia's MANIFEST.MF is
 * what WriteTo writes for the corresponding manifest, and the text basia
 * hashes for a CERT.SF section is what writeSignatureFile hashes.
 */
module Basia {
  import opened Wrappers
  import opened Strings
  import opened LineWrap
  import opened Manifest
  import opened ApkSigner
  import LineWrapWriter

  /* ---------------- wrap70 (basia.go:183-192) ---------------- */

  /**
   * `s` cut into pieces of `max` bytes, then 69 bytes, with a CRLF and a
   * space between pieces.
   */
  function Chunked(s: string, max: nat): string
    requires 0 < max
    decreases |s|
  {
    if |s| <= max then s else s[..max] + Marker + Chunked(s[max..], 69)
  }

  method Wrap70(s: string) returns (wrapped: string)
    ensures wrapped == Chunked(s, Width)
  {
    var max := 70;
    var rest := s;
    wrapped := "";
    while |rest| > max
      invariant max == 70 || max == 69
      invariant wrapped + Chunked(rest, max) == Chunked(s, Width)
      decreases |rest|
    {
      wrapped := wrapped + rest[..max] + "\r\n ";
      rest := rest[max..];
      max := 69;
    }
    wrapped := wrapped + rest;
  }

  /**
   * On one logical line, wrap70 cuts exactly where wrap72 does: the first
   * piece is 70 bytes, each continuation a space and 69 bytes.
   */
  lemma {:induction false} ChunkedIsWrap(s: string, max: nat)
    requires max == 70 || max == 69
    requires NoNewline(s)
    ensures Chunked(s, max) == WrapOut(Width - max, s)
    decreases |s|
  {
    var col := Width - max;
    if |s| <= max {
      WrapPlain(col, s);
    } else {
      var a, b := s[..max], s[max..];
      SplitAt(s, max);
      assert NoNewline(a) && NoNewline(b) by {
        forall i | 0 <= i < |b| ensures !IsNewline(b[i]) {
          assert b[i] == s[max + i];
        }
        NoNewlineShorter(s, |s|, max);
        assert s[..|s|] == s;
      }
      var w1 := WrapOut(1, b);
      assert Chunked(s, max) == a + Marker + w1 by {
        ChunkedCut(a, b, max);
        ChunkedIsWrap(b, 69);
      }
      assert WrapOut(Width, b) == Marker + w1 by {
        ConsHead(b);
        WrapCons(Width, b[0], b[1..]);
        WrapCons(1, b[0], b[1..]);
        Assoc(Marker, [b[0]], WrapOut(2, b[1..]));
      }
      assert WrapOut(col, s) == a + WrapOut(Width, b) by {
        WrapAppend(col, a, b);
        WrapPlain(col, a);
      }
      Assoc(a, Marker, w1);
    }
  }

  /** One cut of wrap70: a first piece of exactly `max` bytes, then the rest from a 69-byte budget. */
  lemma ChunkedCut(a: string, b: string, max: nat)
    requires 0 < max && |a| == max && b != []
    ensures Chunked(a + b, max) == a + Marker + Chunked(b, 69)
  {
    assert (a + b)[..max] == a && (a + b)[max..] == b;
  }

  /** A line of 70 + 69 + 69 bytes is wrapped into three physical lines. */
  lemma ChunkedThree(a: string, b: string, c: string)
    requires |a| == 70 && |b| == 69 && |c| == 69
    ensures Chunked(a + b + c, Width) == a + Marker + b + Marker + c
  {
    assert a + b + c == a + (b + c);
    ChunkedCut(a, b + c, Width);
    ChunkedCut(b, c, 69);
  }

  /**
   * basia_test.go:9-22: the test's 208-byte line, written here in the
   * pieces wrap70 cuts it into (the test's middle literal ends in the "G"
   * that starts the third piece), comes out as the test's three lines (each
   * continuation marker is the CRLF ending one line and the space opening
   * the next).
   */
  lemma Wrap70Example()
    ensures Chunked(
      ".bcdefgh.1.bcdefgh.2.bcdefgh.3.bcdefgh.4.bcdefgh.5.bcdefgh.6.bcdefgh.7" +
      ".bcdefgh.A.bcdefgh.B.bcdefgh.C.bcdefgh.D.bcdefgh.E.bcdefgh.F.bcdefgh." +
      "G.bcdefgh.H.bcdefgh.I.bcdefgh.J.bcdefgh.K.bcdefgh.L.bcdefgh.M.bcdefgh", Width)
      == ".bcdefgh.1.bcdefgh.2.bcdefgh.3.bcdefgh.4.bcdefgh.5.bcdefgh.6.bcdefgh.7" + Marker +
         ".bcdefgh.A.bcdefgh.B.bcdefgh.C.bcdefgh.D.bcdefgh.E.bcdefgh.F.bcdefgh." + Marker +
         "G.bcdefgh.H.bcdefgh.I.bcdefgh.J.bcdefgh.K.bcdefgh.L.bcdefgh.M.bcdefgh"
  {
    ChunkedThree(
      ".bcdefgh.1.bcdefgh.2.bcdefgh.3.bcdefgh.4.bcdefgh.5.bcdefgh.6.bcdefgh.7",
      ".bcdefgh.A.bcdefgh.B.bcdefgh.C.bcdefgh.D.bcdefgh.E.bcdefgh.F.bcdefgh.",
      "G.bcdefgh.H.bcdefgh.I.bcdefgh.J.bcdefgh.K.bcdefgh.L.bcdefgh.M.bcdefgh");
  }

  /* ---------------- joinBlock (basia.go:176-182) ---------------- */

  /** Each line wrapped by wrap70. */
  function Chunks(lines: seq<string>): (r: seq<string>)
    ensures |r| == |lines|
  {
    seq(|lines|, i requires 0 <= i < |lines| => Chunked(lines[i], Width))
  }

  /** A block: every line wrapped and ended by CRLF, then a blank line. */
  function Block(lines: seq<string>): string {
    JoinCRLF(Chunks(lines)) + "\r\n"
  }

  method JoinBlock(lines: seq<string>) returns (block: string)
    ensures block == Block(lines)
  {
    block := "";
    var i := 0;
    while i < |lines|
      invariant 0 <= i <= |lines|
      invariant block == JoinCRLF(Chunks(lines[..i]))
    {
      var w := Wrap70(lines[i]);
      assert Chunks(lines[..i + 1]) == Chunks(lines[..i]) + [w];
      JoinCRLFAppend(Chunks(lines[..i]), [w]);
      block := block + w + "\r\n";
      i := i + 1;
    }
    assert lines[..i] == lines;
    block := block + "\r\n";
  }

  predicate AllNoNewline(lines: seq<string>) {
    forall i :: 0 <= i < |lines| ==> NoNewline(lines[i])
  }

  /** A block of single-line lines is the wrap72 output of those lines, plus a blank line. */
  lemma BlockIsWrapped(lines: seq<string>)
    requires AllNoNewline(lines)
    ensures Block(lines) == WrapOut(0, JoinCRLF(lines)) + "\r\n"
  {
    ChunksWrapped(lines);
  }

  lemma {:induction false} ChunksWrapped(lines: seq<string>)
    requires AllNoNewline(lines)
    ensures JoinCRLF(Chunks(lines)) == WrapOut(0, JoinCRLF(lines))
    decreases |lines|
  {
    if lines != [] {
      var l, rest := lines[0], lines[1..];
      assert AllNoNewline(rest) by {
        forall i | 0 <= i < |rest| ensures NoNewline(rest[i]) {
          assert rest[i] == lines[i + 1];
        }
      }
      ChunksWrapped(rest);
      assert Chunks(lines)[0] == Chunked(l, Width) && Chunks(lines)[1..] == Chunks(rest);
      ChunkedIsWrap(l, Width);
      WrapLine(l, JoinCRLF(rest));
      assert JoinCRLF(lines) == l + "\r\n" + JoinCRLF(rest);
    }
  }

  /**
   * wrap70 only ever cuts: deleting its markers gives the line back, and no
   * physical line it produces holds more than 70 bytes (basia.go:186-187).
   */
  lemma Wrap70Lines(s: string)
    requires NoNewline(s)
    ensures Unfold(Chunked(s, Width)) == s
    ensures Within(0, Chunked(s, Width))
  {
    ChunkedIsWrap(s, Width);
    UnfoldWrap(0, s);
    WrapWithin(0, s);
  }

  /* ---------------- the metadata built by main (basia.go:71-117) ---------------- */

  /**
   * A file found by the directory walk: its slash-separated path, and its
   * base64 SHA-1 digest until main replaces that by its manifest block.
   */
  datatype FileDigest = FileDigest(name: string, data: string)

  function PathOf(f: FileDigest): string {
    f.name
  }

  function Paths(files: seq<FileDigest>): (r: seq<string>)
    ensures |r| == |files|
    ensures forall i :: 0 <= i < |files| ==> r[i] == files[i].name
  {
    seq(|files|, i requires 0 <= i < |files| => files[i].name)
  }

  /** The files the signature covers: all but the signature files themselves. */
  predicate Signed(f: FileDigest) {
    !IsSpecialIgnored(f.name)
  }

  /** The main section of MANIFEST.MF (basia.go:76-79). */
  const HeadLines: seq<string> :=
    ["Manifest-Version: 1.0", "Built-By: Generated-by-ADT", "Created-By: Android Gradle 3.3.2"]

  /** A file's manifest lines: its name, then its digest (basia.go:84-87). */
  function EntryLines(f: FileDigest): seq<string> {
    [NamePrefix + f.name, DigestKey + ": " + f.data]
  }

  function EntryBlock(f: FileDigest): string {
    Block(EntryLines(f))
  }

  /** The header block of CERT.SF, around the digest of MANIFEST.MF (basia.go:93-96). */
  function SfHeadLines(manifestDigest: string): seq<string> {
    ["Signature-Version: 1.0", "Created-By: 1.0 (Android)", "SHA1-Digest-Manifest: " + manifestDigest]
  }

  /** A file's CERT.SF block: its name, then the digest of what `data` now holds (basia.go:101-103). */
  function SfBlockOf(digest: string -> string): FileDigest -> string {
    (f: FileDigest) => Block([NamePrefix + f.name, DigestKey + ": " + digest(f.data)])
  }

  /** The blocks of the signed files among `files`, in their order. */
  function SignedBlocks(files: seq<FileDigest>, block: FileDigest -> string): string
    decreases |files|
  {
    if files == [] then ""
    else (if Signed(files[0]) then block(files[0]) else "") + SignedBlocks(files[1..], block)
  }

  lemma {:induction false} SignedBlocksSnoc(files: seq<FileDigest>, f: FileDigest, block: FileDigest -> string)
    ensures SignedBlocks(files + [f], block)
         == SignedBlocks(files, block) + (if Signed(f) then block(f) else "")
    decreases |files|
  {
    var t := if Signed(f) then block(f) else "";
    if files == [] {
      assert files + [f] == [f];
      assert SignedBlocks([f], block) == t + "" && t + "" == "" + t;
    } else {
      var h := if Signed(files[0]) then block(files[0]) else "";
      var rest := SignedBlocks(files[1..], block);
      assert SignedBlocks(files + [f], block) == h + SignedBlocks(files[1..] + [f], block) by {
        assert (files + [f])[0] == files[0];
        assert (files + [f])[1..] == files[1..] + [f];
      }
      SignedBlocksSnoc(files[1..], f, block);
      assert SignedBlocks(files, block) == h + rest;
      Assoc(h, rest, t);
    }
  }

  /** What main leaves in a file's `data`: a signed file's manifest block (basia.go:89). */
  function Rewrite(f: FileDigest): FileDigest {
    if Signed(f) then f.(data := EntryBlock(f)) else f
  }

  function Rewritten(files: seq<FileDigest>): (r: seq<FileDigest>)
    ensures |r| == |files|
    ensures forall i :: 0 <= i < |files| ==> r[i] == Rewrite(files[i])
  {
    seq(|files|, i requires 0 <= i < |files| => Rewrite(files[i]))
  }

  /**
   * basia.go:76-90: MANIFEST.MF is built while `files` is rewritten in
   * place; a signed file's `data` becomes its manifest block, the other
   * files keep theirs.
   */
  method BuildManifest(files: array<FileDigest>) returns (manifestMf: string)
    modifies files
    ensures manifestMf == Block(HeadLines) + SignedBlocks(old(files[..]), EntryBlock)
    ensures files[..] == Rewritten(old(files[..]))
  {
    ghost var orig := files[..];
    manifestMf := JoinBlock(HeadLines);
    ghost var head := manifestMf;
    var i := 0;
    while i < files.Length
      invariant 0 <= i <= files.Length
      invariant forall k :: 0 <= k < i ==> files[k] == Rewrite(orig[k])
      invariant forall k :: i <= k < files.Length ==> files[k] == orig[k]
      invariant manifestMf == head + SignedBlocks(orig[..i], EntryBlock)
    {
      ghost var f := files[i];
      SignedBlocksSnoc(orig[..i], f, EntryBlock);
      assert SignedBlocks(orig[..i] + [f], EntryBlock) == SignedBlocks(orig[..i + 1], EntryBlock) by {
        assert orig[..i] + [f] == orig[..i + 1];
      }
      Assoc(head, SignedBlocks(orig[..i], EntryBlock), if Signed(f) then EntryBlock(f) else "");
      manifestMf := AddEntry(files, i, manifestMf);
      i := i + 1;
    }
    assert orig[..i] == orig;
    assert files[..] == Rewritten(orig);
  }

  /** One pass of basia.go:81-90: a signed file's block goes into MANIFEST.MF and into its `data`. */
  method AddEntry(files: array<FileDigest>, i: nat, manifestMf: string) returns (manifestMf': string)
    requires i < files.Length
    modifies files
    ensures files[..] == old(files[..])[i := Rewrite(old(files[i]))]
    ensures manifestMf' == manifestMf + (if Signed(old(files[i])) then EntryBlock(old(files[i])) else "")
  {
    manifestMf' := manifestMf;
    var f := files[i];
    if !IsSpecialIgnored(f.name) {
      var entry := JoinBlock([NamePrefix + f.name, DigestKey + ": " + f.data]);
      manifestMf' := manifestMf' + entry;
      files[i] := f.(data := entry);
    }
  }

  /** basia.go:93-104: CERT.SF, from MANIFEST.MF and the rewritten files. */
  method BuildCertSf(files: array<FileDigest>, manifestMf: string, digest: string -> string)
    returns (certSf: string)
    ensures certSf == Block(SfHeadLines(digest(manifestMf))) + SignedBlocks(files[..], SfBlockOf(digest))
  {
    certSf := JoinBlock(SfHeadLines(digest(manifestMf)));
    ghost var head := certSf;
    var i := 0;
    while i < files.Length
      invariant 0 <= i <= files.Length
      invariant certSf == head + SignedBlocks(files[..i], SfBlockOf(digest))
    {
      var f := files[i];
      SignedBlocksSnoc(files[..i], f, SfBlockOf(digest));
      assert SignedBlocks(files[..i] + [f], SfBlockOf(digest)) == SignedBlocks(files[..i + 1], SfBlockOf(digest)) by {
        assert files[..i] + [f] == files[..i + 1];
      }
      if !IsSpecialIgnored(f.name) {
        var block := JoinBlock([NamePrefix + f.name, DigestKey + ": " + digest(f.data)]);
        assert block == SfBlockOf(digest)(f);
        Assoc(head, SignedBlocks(files[..i], SfBlockOf(digest)), block);
        certSf := certSf + block;
      }
      i := i + 1;
    }
    assert files[..i] == files[..];
  }

  /* ---------------- basia's MANIFEST.MF is apksigner's text ---------------- */

  /** The paths of the signed files, in their order: the sections MANIFEST.MF gets. */
  function KeptPaths(files: seq<FileDigest>): (r: seq<string>)
    ensures forall j :: 0 <= j < |r| ==> exists i :: 0 <= i < |files| && files[i].name == r[j]
    decreases |files|
  {
    if files == [] then []
    else
      var rest := KeptPaths(files[1..]);
      assert forall j :: 0 <= j < |rest| ==> exists i :: 0 <= i < |files| && files[i].name == rest[j] by {
        forall j | 0 <= j < |rest| ensures exists i :: 0 <= i < |files| && files[i].name == rest[j] {
          var i :| 0 <= i < |files[1..]| && files[1..][i].name == rest[j];
          assert files[i + 1].name == rest[j];
        }
      }
      (if Signed(files[0]) then [files[0].name] else []) + rest
  }

  /** The per-file sections of basia's MANIFEST.MF: the digest line of each signed file. */
  function DigestSections(files: seq<FileDigest>): Manifest
    decreases |files|
  {
    if files == [] then map[]
    else
      var m := DigestSections(files[1..]);
      if Signed(files[0]) then m[files[0].name := [DigestKey + ": " + files[0].data]] else m
  }

  /** The manifest basia's MANIFEST.MF stands for: its header as the main section, then the files' sections. */
  function ManifestOf(files: seq<FileDigest>): Manifest {
    DigestSections(files)["" := HeadLines]
  }

  /** Paths that are non-empty, strictly ascending (so unique) and single-line, as the walk yields them once sorted. */
  predicate OrderedPaths(files: seq<FileDigest>) {
    Increasing(Paths(files)) &&
    forall i :: 0 <= i < |files| ==> files[i].name != "" && NoNewline(files[i].name) && NoNewline(files[i].data)
  }

  lemma OrderedPathsTail(files: seq<FileDigest>)
    requires files != [] && OrderedPaths(files)
    ensures OrderedPaths(files[1..])
    ensures forall i :: 0 < i < |files| ==> Less(files[0].name, files[i].name)
  {
    assert Paths(files[1..]) == Paths(files)[1..];
    forall i | 0 < i < |files| ensures Less(files[0].name, files[i].name) {
      assert Paths(files)[0] == files[0].name && Paths(files)[i] == files[i].name;
    }
  }

  /** Each signed file has its own section, holding its digest line, and there is no other section. */
  lemma {:induction false} DigestSectionsOf(files: seq<FileDigest>)
    requires OrderedPaths(files)
    ensures var m := DigestSections(files);
      (forall n :: n in m <==> n in KeptPaths(files)) &&
      (forall i :: 0 <= i < |files| && Signed(files[i]) ==>
         files[i].name in m && m[files[i].name] == [DigestKey + ": " + files[i].data])
    decreases |files|
  {
    if files != [] {
      OrderedPathsTail(files);
      DigestSectionsOf(files[1..]);
      var m := DigestSections(files);
      forall i | 0 < i < |files| && Signed(files[i])
        ensures files[i].name in m && m[files[i].name] == [DigestKey + ": " + files[i].data]
      {
        assert files[1..][i - 1] == files[i];
        LessIrreflexive(files[i].name);
      }
    }
  }

  /** The main section is the header; each signed file's section holds its digest line. */
  lemma ManifestOfSections(files: seq<FileDigest>)
    requires OrderedPaths(files)
    ensures var m := ManifestOf(files);
      "" in m && m[""] == HeadLines &&
      (forall n :: n in m <==> n == "" || n in KeptPaths(files)) &&
      (forall i :: 0 <= i < |files| && Signed(files[i]) ==>
         files[i].name in m && m[files[i].name] == [DigestKey + ": " + files[i].data])
  {
    DigestSectionsOf(files);
    MainOverSections(files, DigestSections(files), KeptPaths(files));
  }

  /** Putting the header in front of sections whose names are all non-empty keeps each of them. */
  lemma MainOverSections(files: seq<FileDigest>, fs: Manifest, kept: seq<string>)
    requires forall i :: 0 <= i < |files| ==> files[i].name != ""
    requires forall n :: n in fs <==> n in kept
    requires forall i :: 0 <= i < |files| && Signed(files[i]) ==>
      files[i].name in fs && fs[files[i].name] == [DigestKey + ": " + files[i].data]
    ensures var m := fs["" := HeadLines];
      "" in m && m[""] == HeadLines &&
      (forall n :: n in m <==> n == "" || n in kept) &&
      (forall i :: 0 <= i < |files| && Signed(files[i]) ==>
         files[i].name in m && m[files[i].name] == [DigestKey + ": " + files[i].data])
  {
  }


  lemma {:induction false} KeptPathsIncreasing(files: seq<FileDigest>)
    requires OrderedPaths(files)
    ensures Increasing(KeptPaths(files))
    ensures "" !in KeptPaths(files)
    decreases |files|
  {
    if files != [] {
      var rest := KeptPaths(files[1..]);
      OrderedPathsTail(files);
      KeptPathsIncreasing(files[1..]);
      if Signed(files[0]) {
        forall j | 0 <= j < |rest| ensures Less(files[0].name, rest[j]) {
          var i :| 0 <= i < |files[1..]| && files[1..][i].name == rest[j];
          assert files[i + 1].name == rest[j];
        }
        IncreasingCons(files[0].name, rest);
        assert KeptPaths(files) == [files[0].name] + rest;
      } else {
        assert KeptPaths(files) == rest;
      }
    }
  }

  /** A file's manifest block is its section as WriteEntry writes it, and the CRLF that ends it. */
  lemma BlockIsSection(m: Manifest, f: FileDigest)
    requires NoNewline(f.name) && NoNewline(f.data)
    requires Get(m, f.name) == [DigestKey + ": " + f.data]
    ensures EntryBlock(f) == WrapOut(0, EntryText(m, f.name)) + "\r\n"
  {
    assert EntryText(m, f.name) == JoinCRLF(EntryLines(f));
    assert AllNoNewline(EntryLines(f));
    BlockIsWrapped(EntryLines(f));
  }

  /** The blocks basia appends are WriteTo's sections, with the blank line moved from before each block to after it. */
  lemma {:induction false} BlocksAreSections(m: Manifest, files: seq<FileDigest>)
    requires forall i :: 0 <= i < |files| ==> NoNewline(files[i].name) && NoNewline(files[i].data)
    requires forall i :: 0 <= i < |files| && Signed(files[i]) ==> Get(m, files[i].name) == [DigestKey + ": " + files[i].data]
    ensures "\r\n" + SignedBlocks(files, EntryBlock) == Sections(m, KeptPaths(files)) + "\r\n"
    decreases |files|
  {
    if files != [] {
      var f, rest := files[0], files[1..];
      assert forall i :: 0 <= i < |rest| ==> rest[i] == files[i + 1];
      BlocksAreSections(m, rest);
      if Signed(f) {
        var names, w := KeptPaths(files), WrapOut(0, EntryText(m, f.name));
        var blocks, sections := SignedBlocks(rest, EntryBlock), Sections(m, KeptPaths(rest));
        assert names[0] == f.name && names[1..] == KeptPaths(rest);
        BlockIsSection(m, f);
        assert SignedBlocks(files, EntryBlock) == (w + "\r\n") + blocks;
        assert Sections(m, names) == "\r\n" + w + sections;
        BlocksStep(w, blocks, sections);
      } else {
        var blocks := SignedBlocks(rest, EntryBlock);
        assert KeptPaths(files) == KeptPaths(rest);
        assert SignedBlocks(files, EntryBlock) == "" + blocks;
        assert "" + blocks == blocks;
      }
    }
  }

  /** One block: the blank line that ends it becomes the one that starts the next section. */
  lemma BlocksStep(w: string, blocks: string, sections: string)
    requires "\r\n" + blocks == sections + "\r\n"
    ensures "\r\n" + ((w + "\r\n") + blocks) == ("\r\n" + w + sections) + "\r\n"
  {
    Assoc(w, "\r\n", blocks);
    Assoc("\r\n", w, "\r\n" + blocks);
    Assoc("\r\n" + w, sections, "\r\n");
  }

  /** WriteTo visits the signed files' sections in the order basia writes them. */
  lemma SectionOrder(files: seq<FileDigest>)
    requires OrderedPaths(files)
    ensures Ordered(ManifestOf(files).Keys - {""}) == KeptPaths(files)
  {
    var m := ManifestOf(files);
    ManifestOfSections(files);
    KeptPathsIncreasing(files);
    IncreasingUnique(KeptPaths(files), Ordered(m.Keys - {""}));
  }

  /** A header block followed by the section blocks is WriteTo's text, once the blank lines are moved. */
  lemma HeadThenBlocks(m: Manifest, head: seq<string>, blocks: string, names: seq<string>)
    requires AllNoNewline(head) && Get(m, "") == head
    requires Ordered(m.Keys - {""}) == names
    requires "\r\n" + blocks == Sections(m, names) + "\r\n"
    ensures Block(head) + blocks == Serialize(m)
  {
    BlockIsWrapped(head);
    assert MainText(m) == JoinCRLF(head);
    var w := WrapOut(0, MainText(m));
    var sections := Sections(m, names);
    assert Block(head) == w + "\r\n";
    assert Serialize(m) == w + sections + "\r\n";
    Assoc(w, "\r\n", blocks);
    Assoc(w, sections, "\r\n");
  }

  /** basia's MANIFEST.MF is, byte for byte, what Manifest.WriteTo writes for the manifest it stands for. */
  lemma ManifestMfIsSerialized(files: seq<FileDigest>)
    requires OrderedPaths(files)
    ensures Block(HeadLines) + SignedBlocks(files, EntryBlock) == Serialize(ManifestOf(files))
  {
    var m := ManifestOf(files);
    ManifestOfSections(files);
    SectionOrder(files);
    BlocksAreSections(m, files);
    HeadLinesAttributes();
    HeadThenBlocks(m, HeadLines, SignedBlocks(files, EntryBlock), KeptPaths(files));
  }

  /** ParseManifest reads basia's MANIFEST.MF back as the manifest it stands for. */
  lemma ManifestMfReadsBack(files: seq<FileDigest>)
    requires OrderedPaths(files)
    ensures Parse(Block(HeadLines) + SignedBlocks(files, EntryBlock)) == ManifestOf(files)
  {
    ManifestMfIsSerialized(files);
    ManifestOfWellFormed(files);
    RoundTrip(ManifestOf(files));
  }

  /** The manifest basia writes is one the round trip holds for. */
  lemma ManifestOfWellFormed(files: seq<FileDigest>)
    requires OrderedPaths(files)
    ensures WellFormed(ManifestOf(files))
  {
    var m := ManifestOf(files);
    ManifestOfSections(files);
    forall k | k in m ensures NoNewline(k) && m[k] != [] && AllAttributes(m[k]) {
      if k == "" {
        HeadLinesAttributes();
      } else {
        var j :| 0 <= j < |KeptPaths(files)| && KeptPaths(files)[j] == k;
        var i :| 0 <= i < |files| && files[i].name == k;
        assert Signed(files[i]) by {
          if !Signed(files[i]) { KeptPathSigned(files, k, i); }
        }
        DigestLineAttribute(files[i].data);
      }
    }
  }

  /** A file's digest line is a single line the parser reads back as the only line of its section. */
  lemma DigestLineAttribute(data: string)
    requires NoNewline(data)
    ensures AllAttributes([DigestKey + ": " + data])
  {
    var a := DigestKey + ": " + data;
    assert a[0] == 'S';
    var key := DigestKey + ": ";
    assert NoNewline(key);
    assert forall j :: |key| <= j < |a| ==> a[j] == data[j - |key|];
    assert IsAttribute(a);
    var none: seq<string> := [];
    assert [a][1..] == none;
  }

  /** The header lines are single lines the parser reads back as lines of the main section. */
  lemma HeadLinesAttributes()
    ensures AllAttributes(HeadLines) && AllNoNewline(HeadLines)
  {
    var a, b, c := "Manifest-Version: 1.0", "Built-By: Generated-by-ADT", "Created-By: Android Gradle 3.3.2";
    forall i | 0 <= i < |a| ensures !IsNewline(a[i]) {}
    forall i | 0 <= i < |b| ensures !IsNewline(b[i]) {}
    forall i | 0 <= i < |c| ensures !IsNewline(c[i]) {}
    AttributeByFirst(a);
    AttributeByFirst(b);
    AttributeByFirst(c);
    assert [c][1..] == HeadLines[3..];
    assert AllAttributes([c]);
    assert [b, c][1..] == [c];
    assert AllAttributes([b, c]);
    assert HeadLines[1..] == [b, c];
  }

  /** A single line that starts with neither a space nor 'N' is read as an attribute line. */
  lemma AttributeByFirst(a: string)
    requires a != "" && NoNewline(a) && a[0] != ' ' && a[0] != 'N'
    ensures IsAttribute(a)
  {
    assert a[..1][0] == a[0];
    if |NamePrefix| <= |a| {
      assert a[..|NamePrefix|][0] == a[0];
    }
  }

  /** A path that gets a section belongs to a signed file. */
  lemma KeptPathSigned(files: seq<FileDigest>, k: string, i: nat)
    requires OrderedPaths(files)
    requires k in KeptPaths(files) && i < |files| && files[i].name == k
    ensures Signed(files[i])
  {
    KeptPathOf(files, k);
    var j :| 0 <= j < |files| && files[j].name == k && Signed(files[j]);
    IncreasingInjective(Paths(files), i, j);
  }

  /** Every path in KeptPaths is the path of some signed file. */
  lemma {:induction false} KeptPathOf(files: seq<FileDigest>, k: string)
    requires k in KeptPaths(files)
    ensures exists j :: 0 <= j < |files| && files[j].name == k && Signed(files[j])
    decreases |files|
  {
    if Signed(files[0]) && k == files[0].name {
      assert files[0].name == k;
    } else {
      assert k in KeptPaths(files[1..]);
      KeptPathOf(files[1..], k);
      var j :| 0 <= j < |files[1..]| && files[1..][j].name == k && Signed(files[1..][j]);
      assert files[j + 1] == files[1..][j];
    }
  }

  /**
   * The text basia hashes for a file's CERT.SF block, the block main left
   * in its `data`, is the text writeSignatureFile hashes for that file: its
   * wrapped section and a CRLF.
   */
  lemma SfHashesManifestSection(files: seq<FileDigest>, i: nat)
    requires OrderedPaths(files) && i < |files| && Signed(files[i])
    ensures Rewrite(files[i]).data == WrapOut(0, EntryText(ManifestOf(files), files[i].name)) + "\r\n"
  {
    var f, m := files[i], ManifestOf(files);
    ManifestOfSections(files);
    BlockIsSection(m, f);
  }

  /* ---------------- main, from the walked files to the package (basia.go:47-146) ---------------- */

  /** Why main stops without writing a package. */
  datatype Failure = ManifestInInput(path: string) | UnhandledKeyType(typeName: string)

  /** An entry main writes from memory: the two metadata files and the signature block. */
  datatype Generated = Generated(name: string, text: string)

  /**
   * What main writes: the generated entries in order, then the walked
   * files by path, whose bytes are copied from disk.
   */
  datatype PackageOutcome = Package(generated: seq<Generated>, copied: seq<string>) | Failed(failure: Failure)

  /** basia.go:59-61: the paths main refuses, since it cannot merge an existing manifest. */
  predicate IsManifestPath(path: string) {
    path == PathManifest || path == "meta-inf/manifest.mf"
  }

  /** The first walked path that main refuses, if there is one. */
  function RefusedPath(walked: seq<FileDigest>): Option<string>
    decreases |walked|
  {
    if walked == [] then None
    else if IsManifestPath(walked[0].name) then Some(walked[0].name)
    else RefusedPath(walked[1..])
  }

  lemma {:induction false} RefusedPathIsFirst(walked: seq<FileDigest>)
    ensures RefusedPath(walked).None? <==> forall i :: 0 <= i < |walked| ==> !IsManifestPath(walked[i].name)
    ensures RefusedPath(walked).Some? ==>
      exists i :: 0 <= i < |walked| && walked[i].name == RefusedPath(walked).value &&
        IsManifestPath(walked[i].name) && forall j :: 0 <= j < i ==> !IsManifestPath(walked[j].name)
    decreases |walked|
  {
    if walked != [] && !IsManifestPath(walked[0].name) {
      var rest := walked[1..];
      RefusedPathIsFirst(rest);
      assert forall i :: 0 < i < |walked| ==> walked[i] == rest[i - 1];
      if RefusedPath(rest).Some? {
        var i :| 0 <= i < |rest| && rest[i].name == RefusedPath(rest).value &&
          IsManifestPath(rest[i].name) && forall j :: 0 <= j < i ==> !IsManifestPath(rest[j].name);
        assert walked[i + 1] == rest[i];
        assert forall j :: 0 <= j < i + 1 ==> !IsManifestPath(walked[j].name);
      }
    }
  }

  /** The signature block's name and bytes, or the failure of an unhandled key type (basia.go:107-117). */
  function SignedEntry(key: KeyKind, certSf: string, sign: string -> string): Result<Generated>
  {
    match CertPath(key)
    case Ok(path) => Ok(Generated(path, sign(certSf)))
    case Err(e) => Err(e)
  }

  /** Everything main writes for the walked files, or why it stops. */
  function Packaged(walked: seq<FileDigest>, key: KeyKind, digest: string -> string, sign: string -> string): PackageOutcome {
    match RefusedPath(walked)
    case Some(path) => Failed(ManifestInInput(path))
    case None => PackageOf(SortOn(walked, PathOf), key, digest, sign)
  }

  /** What main writes for files already sorted by path. */
  function PackageOf(sorted: seq<FileDigest>, key: KeyKind, digest: string -> string, sign: string -> string): PackageOutcome {
    var manifestMf := Block(HeadLines) + SignedBlocks(sorted, EntryBlock);
    var certSf := Block(SfHeadLines(digest(manifestMf))) + SignedBlocks(Rewritten(sorted), SfBlockOf(digest));
    match SignedEntry(key, certSf, sign)
    case Err(_) => Failed(UnhandledKeyType(key.typeName))
    case Ok(block) =>
      Package([Generated(PathManifest, manifestMf), Generated(PathCertSf, certSf), block], Paths(sorted))
  }

  /**
   * basia.go:47-146 without the disk: refuse an existing manifest, sort the
   * files by path, build MANIFEST.MF and CERT.SF, sign, name the signature
   * block by the key's type, and list what is written.
   */
  method SignDirectory(walked: seq<FileDigest>, key: KeyKind, digest: string -> string, sign: string -> string)
    returns (r: PackageOutcome)
    ensures r == Packaged(walked, key, digest, sign)
  {
    var i := 0;
    while i < |walked|
      invariant 0 <= i <= |walked|
      invariant RefusedPath(walked) == RefusedPath(walked[i..])
    {
      if walked[i].name == PathManifest || walked[i].name == "meta-inf/manifest.mf" {
        return Failed(ManifestInInput(walked[i].name));
      }
      assert walked[i..][1..] == walked[i + 1..];
      i := i + 1;
    }
    assert walked[i..] == [];
    r := SignSorted(SortOn(walked, PathOf), key, digest, sign);
  }

  /** basia.go:71-146: the metadata, the signature and the package, for files sorted by path. */
  method SignSorted(sorted: seq<FileDigest>, key: KeyKind, digest: string -> string, sign: string -> string)
    returns (r: PackageOutcome)
    ensures r == PackageOf(sorted, key, digest, sign)
  {
    var files := new FileDigest[|sorted|](k requires 0 <= k < |sorted| => sorted[k]);
    assert files[..] == sorted;
    var manifestMf := BuildManifest(files);
    var certSf := BuildCertSf(files, manifestMf, digest);
    assert files[..] == Rewritten(sorted);
    assert certSf == Block(SfHeadLines(digest(manifestMf))) + SignedBlocks(Rewritten(sorted), SfBlockOf(digest));
    var signed := sign(certSf);
    var signedName: string;
    match key {
      case Ecdsa => signedName := PathCertEc;
      case Rsa => signedName := PathCertRsa;
      case OtherKey(t) => return Failed(UnhandledKeyType(t));
    }
    assert Paths(files[..]) == Paths(sorted);
    assert SignedEntry(key, certSf, sign) == Ok(Generated(signedName, signed));
    r := Package([Generated(PathManifest, manifestMf), Generated(PathCertSf, certSf), Generated(signedName, signed)],
                 Paths(files[..]));
  }

  /* ---------------- what the package holds ---------------- */

  /** Paths as a directory walk yields them: each file once. */
  predicate DistinctPaths(files: seq<FileDigest>) {
    forall i, j :: 0 <= i < j < |files| ==> files[i].name != files[j].name
  }

  lemma CountTwo<T>(s: seq<T>, i: nat, j: nat)
    requires i < j < |s| && s[i] == s[j]
    ensures multiset(s)[s[i]] >= 2
  {
    assert s == s[..j] + [s[j]] + s[j + 1..];
    assert s[i] == s[..j][i];
  }

  lemma CountOne(files: seq<FileDigest>, a: nat)
    requires DistinctPaths(files) && a < |files|
    ensures multiset(files)[files[a]] == 1
  {
    var x := files[a];
    assert files == files[..a] + [x] + files[a + 1..];
  }

  /** Sorting distinct paths leaves them strictly ascending, whichever equal-key order a sort picks. */
  lemma SortedStrictly(walked: seq<FileDigest>)
    requires DistinctPaths(walked)
    ensures Increasing(Paths(SortOn(walked, PathOf)))
  {
    var sorted := SortOn(walked, PathOf);
    forall i, j | 0 <= i < j < |sorted| ensures Less(Paths(sorted)[i], Paths(sorted)[j]) {
      assert LessEq(PathOf(sorted[i]), PathOf(sorted[j]));
      if sorted[i].name == sorted[j].name {
        assert sorted[i] in multiset(walked) && sorted[j] in multiset(walked);
        var a :| 0 <= a < |walked| && walked[a] == sorted[i];
        var b :| 0 <= b < |walked| && walked[b] == sorted[j];
        assert a == b;
        CountTwo(sorted, i, j);
        CountOne(walked, a);
        assert false;
      }
    }
  }

  /** The sorted paths are the walked paths. */
  lemma SortedPaths(walked: seq<FileDigest>)
    ensures forall p :: p in Paths(SortOn(walked, PathOf)) <==> p in Paths(walked)
  {
    var sorted := SortOn(walked, PathOf);
    forall p ensures p in Paths(sorted) <==> p in Paths(walked) {
      if p in Paths(sorted) {
        var k :| 0 <= k < |sorted| && Paths(sorted)[k] == p;
        assert sorted[k] in multiset(walked);
        var a :| 0 <= a < |walked| && walked[a] == sorted[k];
        assert Paths(walked)[a] == p;
      }
      if p in Paths(walked) {
        var a :| 0 <= a < |walked| && Paths(walked)[a] == p;
        assert walked[a] in multiset(sorted);
        var k :| 0 <= k < |sorted| && sorted[k] == walked[a];
        assert Paths(sorted)[k] == p;
      }
    }
  }

  /**
   * main refuses a walk holding a manifest path, naming one; otherwise it
   * fails exactly for a key that is neither ECDSA nor RSA.
   */
  lemma PackageFailures(walked: seq<FileDigest>, key: KeyKind, digest: string -> string, sign: string -> string)
    ensures var r := Packaged(walked, key, digest, sign);
      (exists i :: 0 <= i < |walked| && IsManifestPath(walked[i].name)) ==>
        r.Failed? && r.failure.ManifestInInput? && IsManifestPath(r.failure.path)
    ensures var r := Packaged(walked, key, digest, sign);
      (forall i :: 0 <= i < |walked| ==> !IsManifestPath(walked[i].name)) ==>
        (r.Failed? <==> key.OtherKey?) && (r.Failed? ==> r.failure == UnhandledKeyType(key.typeName))
  {
    RefusedPathIsFirst(walked);
  }

  /**
   * For distinct single-line paths and a handled key, main writes
   * MANIFEST.MF, CERT.SF and the signature block, in that order, then every
   * walked file in ascending path order.  MANIFEST.MF is the text WriteTo
   * writes for the manifest of the signed files, and it parses back to that
   * manifest; CERT.SF opens with the digest of MANIFEST.MF; the signature
   * block signs CERT.SF.
   */
  lemma PackageLayout(walked: seq<FileDigest>, key: KeyKind, digest: string -> string, sign: string -> string)
    requires DistinctPaths(walked)
    requires forall i :: 0 <= i < |walked| ==>
      walked[i].name != "" && NoNewline(walked[i].name) && NoNewline(walked[i].data) && !IsManifestPath(walked[i].name)
    requires !key.OtherKey?
    ensures var r, sorted := Packaged(walked, key, digest, sign), SortOn(walked, PathOf);
      r.Package? && |r.generated| == 3 &&
      r.generated[0].name == PathManifest &&
      r.generated[0].text == Serialize(ManifestOf(sorted)) &&
      Parse(r.generated[0].text) == ManifestOf(sorted) &&
      r.generated[1].name == PathCertSf &&
      HasPrefix(r.generated[1].text, Block(SfHeadLines(digest(r.generated[0].text)))) &&
      r.generated[2] == Generated(CertPath(key).value, sign(r.generated[1].text)) &&
      r.copied == Paths(sorted) && Increasing(r.copied) &&
      (forall p :: p in r.copied <==> p in Paths(walked))
  {
    var sorted := SortOn(walked, PathOf);
    RefusedPathIsFirst(walked);
    assert Packaged(walked, key, digest, sign) == PackageOf(sorted, key, digest, sign);
    SortedPaths(walked);
    SortedOrdered(walked);
    PackageOfLayout(sorted, key, digest, sign);
  }

  /**
   * An input file named META-INF/CERT.SF is copied after the generated
   * CERT.SF, so the package holds two entries of that name: the generated
   * one and the copy.
   */
  lemma {:induction false} SignerFileWrittenTwice(walked: seq<FileDigest>, key: KeyKind, digest: string -> string, sign: string -> string, i: nat)
    requires DistinctPaths(walked)
    requires forall j :: 0 <= j < |walked| ==>
      walked[j].name != "" && NoNewline(walked[j].name) && NoNewline(walked[j].data) && !IsManifestPath(walked[j].name)
    requires !key.OtherKey?
    requires i < |walked| && walked[i].name == PathCertSf
    ensures var r := Packaged(walked, key, digest, sign);
      r.Package? && r.generated[1].name == PathCertSf && PathCertSf in r.copied
  {
    PackageLayout(walked, key, digest, sign);
    assert Paths(walked)[i] == PathCertSf;
  }

  /** Sorting distinct, non-empty, single-line paths gives strictly ascending ones. */
  lemma SortedOrdered(walked: seq<FileDigest>)
    requires DistinctPaths(walked)
    requires forall i :: 0 <= i < |walked| ==>
      walked[i].name != "" && NoNewline(walked[i].name) && NoNewline(walked[i].data)
    ensures OrderedPaths(SortOn(walked, PathOf))
  {
    var sorted := SortOn(walked, PathOf);
    SortedStrictly(walked);
    forall i | 0 <= i < |sorted|
      ensures sorted[i].name != "" && NoNewline(sorted[i].name) && NoNewline(sorted[i].data)
    {
      assert sorted[i] in multiset(walked);
    }
  }

  /** PackageLayout for files already sorted by path. */
  lemma PackageOfLayout(sorted: seq<FileDigest>, key: KeyKind, digest: string -> string, sign: string -> string)
    requires OrderedPaths(sorted) && !key.OtherKey?
    ensures var r := PackageOf(sorted, key, digest, sign);
      r.Package? && |r.generated| == 3 &&
      r.generated[0].name == PathManifest &&
      r.generated[0].text == Serialize(ManifestOf(sorted)) &&
      Parse(r.generated[0].text) == ManifestOf(sorted) &&
      r.generated[1].name == PathCertSf &&
      HasPrefix(r.generated[1].text, Block(SfHeadLines(digest(r.generated[0].text)))) &&
      r.generated[2] == Generated(CertPath(key).value, sign(r.generated[1].text)) &&
      r.copied == Paths(sorted)
  {
    ManifestMfIsSerialized(sorted);
    ManifestMfReadsBack(sorted);
    var manifestMf := Block(HeadLines) + SignedBlocks(sorted, EntryBlock);
    var head := Block(SfHeadLines(digest(manifestMf)));
    LineWrapWriter.PrefixOfAppend(head, SignedBlocks(Rewritten(sorted), SfBlockOf(digest)));
  }
}
