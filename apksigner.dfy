/**
 * The v1 (JAR) signer of apksigner.go: it re-signs a zip archive by
 * recomputing the SHA-1 digest of every ordinary file into the manifest,
 * writing META-INF/MANIFEST.MF, the signature file META-INF/CERT.SF, the
 * PKCS#7 signature block, and then copying the files over.
 *
 * SHA-1 followed by base64 is the parameter `digest`, and PKCS#7 signing
 * with the loaded certificate and key is the parameter `sign`.  A file of
 * the input archive whose contents cannot be read has `contents == None`.
 */
module ApkSigner {
  import opened Wrappers
  import opened Strings
  import opened Sinks
  import opened LineWrap
  import opened Manifest
  import opened LineWrapWriter
  import opened ManifestWriter

  /* ---------------- names (apksigner.go:110-114, 180-185) ---------------- */

  const PathManifest: string := "META-INF/MANIFEST.MF"
  const PathCertSf: string := "META-INF/CERT.SF"
  const PathCertRsa: string := "META-INF/CERT.RSA"
  const PathCertEc: string := "META-INF/CERT.EC"
  const MetaInf: string := "META-INF/"

  /* ---------------- isSpecialIgnored (apksigner.go:248-266) ---------------- */

  predicate NoSlash(s: string) {
    forall i :: 0 <= i < |s| ==> s[i] != '/'
  }

  /**
   * path.Match of a pattern `prefix*suffix` whose prefix and suffix hold no
   * metacharacter: the star stands for any run of bytes other than '/'.
   */
  predicate StarMatch(prefix: string, suffix: string, name: string) {
    |prefix| + |suffix| <= |name| && HasPrefix(name, prefix) && HasSuffix(name, suffix)
    && NoSlash(name[|prefix|..|name| - |suffix|])
  }

  /** The files of an archive that the signature neither covers nor copies. */
  predicate IsSpecialIgnored(name: string) {
    if !HasPrefix(name, MetaInf) then false
    else
      name == PathManifest
      || StarMatch(MetaInf, ".SF", name)
      || StarMatch(MetaInf, ".RSA", name)
      || StarMatch(MetaInf, ".DSA", name)
      || StarMatch(MetaInf, ".EC", name)
      || StarMatch("META-INF/SIG-", "", name)
  }

  /**
   * The signature-related files of a signed JAR, as the JAR File
   * Specification lists them ("Signed JAR File"), for the last path segment
   * below META-INF/: the manifest, signature files, signature block files
   * (.RSA, .DSA, and .EC as seen in ECDSA-signed packages) and SIG-* files.
   */
  predicate SignatureFileName(seg: string) {
    NoSlash(seg) &&
    (seg == "MANIFEST.MF" || HasSuffix(seg, ".SF") || HasSuffix(seg, ".RSA")
     || HasSuffix(seg, ".DSA") || HasSuffix(seg, ".EC") || HasPrefix(seg, "SIG-"))
  }

  lemma NoSlashAppend(a: string, b: string)
    ensures NoSlash(a + b) <==> NoSlash(a) && NoSlash(b)
  {
    if NoSlash(a) && NoSlash(b) {
      forall i | 0 <= i < |a + b| ensures (a + b)[i] != '/' {
        if i >= |a| { assert (a + b)[i] == b[i - |a|]; }
      }
    }
    if NoSlash(a + b) {
      forall i | 0 <= i < |b| ensures b[i] != '/' {
        assert (a + b)[|a| + i] == b[i];
      }
      forall i | 0 <= i < |a| ensures a[i] != '/' {
        assert (a + b)[i] == a[i];
      }
    }
  }

  /** A star pattern right below META-INF/ matches a single segment ending in `ext`. */
  lemma StarSegment(ext: string, seg: string)
    requires NoSlash(ext)
    ensures StarMatch(MetaInf, ext, MetaInf + seg) <==> NoSlash(seg) && HasSuffix(seg, ext)
  {
    var name := MetaInf + seg;
    assert HasPrefix(name, MetaInf) by { PrefixOfAppend(MetaInf, seg); }
    if |ext| <= |seg| {
      var stem := seg[..|seg| - |ext|];
      assert name[|MetaInf|..|name| - |ext|] == stem;
      assert name[|name| - |ext|..] == seg[|seg| - |ext|..];
      if HasSuffix(seg, ext) {
        assert seg == stem + ext;
        NoSlashAppend(stem, ext);
      }
      if NoSlash(seg) {
        assert seg == stem + seg[|seg| - |ext|..];
        NoSlashAppend(stem, seg[|seg| - |ext|..]);
      }
    }
  }

  /** A star pattern "META-INF/SIG-*" matches a single segment starting with "SIG-". */
  lemma SigSegment(seg: string)
    ensures StarMatch("META-INF/SIG-", "", MetaInf + seg) <==> NoSlash(seg) && HasPrefix(seg, "SIG-")
  {
    var name := MetaInf + seg;
    if HasPrefix(seg, "SIG-") {
      assert name[..13] == "META-INF/SIG-";
      assert name[13..|name| - 0] == seg[4..];
      assert seg == "SIG-" + seg[4..];
      NoSlashAppend("SIG-", seg[4..]);
    }
    if StarMatch("META-INF/SIG-", "", name) {
      assert name[..13] == "META-INF/SIG-";
      assert seg[..4] == name[9..13];
    }
  }

  /**
   * The "small optimization" and the patterns select exactly the
   * signature-related files directly inside META-INF/: a file in a
   * sub-directory of META-INF/ or outside it is never ignored.
   */
  lemma IgnoredIsSignatureFile(name: string)
    ensures IsSpecialIgnored(name) <==> HasPrefix(name, MetaInf) && SignatureFileName(name[|MetaInf|..])
  {
    if HasPrefix(name, MetaInf) {
      var seg := name[|MetaInf|..];
      assert name == MetaInf + seg;
      StarSegment(".SF", seg);
      StarSegment(".RSA", seg);
      StarSegment(".DSA", seg);
      StarSegment(".EC", seg);
      SigSegment(seg);
      ManifestSegment(seg);
      assert IsSpecialIgnored(name) <==>
        name == PathManifest
        || StarMatch(MetaInf, ".SF", MetaInf + seg) || StarMatch(MetaInf, ".RSA", MetaInf + seg)
        || StarMatch(MetaInf, ".DSA", MetaInf + seg) || StarMatch(MetaInf, ".EC", MetaInf + seg)
        || StarMatch("META-INF/SIG-", "", MetaInf + seg);
    }
  }

  /** Below META-INF/, the manifest is the segment "MANIFEST.MF", which holds no '/'. */
  lemma ManifestSegment(seg: string)
    ensures MetaInf + seg == PathManifest <==> seg == "MANIFEST.MF"
    ensures seg == "MANIFEST.MF" ==> NoSlash(seg)
  {
    if MetaInf + seg == PathManifest {
      assert seg == PathManifest[|MetaInf|..];
    }
  }

  /** A file `META-INF/<stem><ext>` with a '/'-free stem matches the star pattern for `ext` below META-INF. */
  lemma StarHit(stem: string, ext: string)
    requires NoSlash(stem) && NoSlash(ext)
    ensures StarMatch(MetaInf, ext, MetaInf + stem + ext)
  {
    var name := MetaInf + stem + ext;
    assert name[..|MetaInf|] == MetaInf;
    assert name[|name| - |ext|..] == ext;
    assert name[|MetaInf|..|name| - |ext|] == stem;
  }

  /** The files the signer itself writes are among those it ignores, so no copy can clash with them. */
  lemma SignerFilesIgnored()
    ensures IsSpecialIgnored(PathManifest)
    ensures IsSpecialIgnored(PathCertSf) && IsSpecialIgnored(PathCertRsa) && IsSpecialIgnored(PathCertEc)
  {
    assert NoSlash("CERT") && NoSlash(".SF") && NoSlash(".RSA") && NoSlash(".EC");
    StarHit("CERT", ".SF");
    assert PathCertSf == MetaInf + "CERT" + ".SF";
    StarHit("CERT", ".RSA");
    assert PathCertRsa == MetaInf + "CERT" + ".RSA";
    StarHit("CERT", ".EC");
    assert PathCertEc == MetaInf + "CERT" + ".EC";
  }

  /* ---------------- archives ---------------- */

  /** The per-file header fields the copy keeps (apksigner.go:200-208). */
  datatype Header = Header(comment: string, extra: string, creatorVersion: nat, externalAttrs: nat)

  /** A file of the input archive; `contents` is None when opening or reading it fails. */
  datatype ZipFile = ZipFile(name: string, isDir: bool, header: Header, contents: Option<string>)

  /**
   * An entry of the output archive, always deflated.  `copied` is the header
   * taken over from the input file, None for an entry made by zip.Writer.Create.
   */
  datatype Entry = Entry(name: string, copied: Option<Header>, data: string)

  datatype Error = OpenFailed(name: string) | UnhandledKey(keyType: string)

  datatype Result<T> = Ok(value: T) | Err(error: Error)

  /** The type of the private key, which picks the name of the signature block. */
  datatype KeyKind = Ecdsa | Rsa | OtherKey(typeName: string)

  /** The output zip.Writer: the entries written so far, in order. */
  class ZipWriter {
    var entries: seq<Entry>

    constructor ()
      ensures entries == []
    {
      entries := [];
    }

    method Add(e: Entry)
      modifies this
      ensures entries == old(entries) + [e]
    {
      entries := entries + [e];
    }
  }

  function NameOf(f: ZipFile): string {
    f.name
  }

  /* ---------------- zipFind (apksigner.go:311-318) ---------------- */

  predicate FirstNamed(files: seq<ZipFile>, name: string, i: int) {
    0 <= i < |files| && files[i].name == name && forall j :: 0 <= j < i ==> files[j].name != name
  }

  /** The first file with this name, if any. */
  function Find(files: seq<ZipFile>, name: string): (r: Option<ZipFile>)
    ensures r.None? <==> forall i :: 0 <= i < |files| ==> files[i].name != name
    ensures r.Some? ==> exists i :: FirstNamed(files, name, i) && files[i] == r.value
  {
    if files == [] then None
    else if files[0].name == name then
      assert FirstNamed(files, name, 0);
      Some(files[0])
    else
      var r := Find(files[1..], name);
      assert forall i :: 1 <= i < |files| ==> files[i] == files[1..][i - 1];
      assert r.Some? ==> exists i :: FirstNamed(files[1..], name, i) && files[1..][i] == r.value;
      assert forall i :: FirstNamed(files[1..], name, i) ==> FirstNamed(files, name, i + 1);
      r
  }

  method ZipFind(files: seq<ZipFile>, name: string) returns (r: Option<ZipFile>)
    ensures r == Find(files, name)
  {
    var i := 0;
    while i < |files|
      invariant 0 <= i <= |files|
      invariant Find(files, name) == Find(files[i..], name)
    {
      assert files[i..][1..] == files[i + 1..];
      if files[i].name == name {
        return Some(files[i]);
      }
      i := i + 1;
    }
    r := None;
  }

  /* ---------------- getOrInitManifest (apksigner.go:226-242) ---------------- */

  /** The main section of a manifest made from scratch. */
  const DefaultMain: Attributes := ["Manifest-Version: 1.0", "Created-By: 1.0 (Android SignApk)"]

  /** The archive's own manifest, parsed, or a fresh one when the archive has none. */
  function InitialManifest(files: seq<ZipFile>): Result<Manifest> {
    match Find(files, PathManifest)
    case None => Ok(map["" := DefaultMain])
    case Some(f) =>
      match f.contents
      case None => Err(OpenFailed(f.name))
      case Some(c) => Ok(Parse(c))
  }

  lemma ParseNoEmptySection(r: string)
    ensures NoEmptySection(Parse(r))
  {
    RunNoEmptySection(Start, Lines(r + Padding));
  }

  method GetOrInitManifest(files: seq<ZipFile>) returns (r: Result<Manifest>)
    ensures r == InitialManifest(files)
    ensures r.Ok? ==> NoEmptySection(r.value)
    ensures r.Err? ==> r.error == OpenFailed(PathManifest)
  {
    var raw := ZipFind(files, PathManifest);
    if raw.None? {
      return Ok(map["" := DefaultMain]);
    }
    match raw.value.contents
    case None =>
      r := Err(OpenFailed(raw.value.name));
    case Some(c) =>
      var m := ParseManifest(c);
      r := Ok(m);
  }

  /**
   * An archive whose MANIFEST.MF was written by WriteTo from a well-formed
   * manifest yields that same manifest again when it is re-signed.
   */
  lemma ResignRecoversManifest(files: seq<ZipFile>, m: Manifest)
    requires Find(files, PathManifest).Some?
    requires Find(files, PathManifest).value.contents == Some(Serialize(m))
    requires WellFormed(m)
    ensures InitialManifest(files) == Ok(m)
  {
    RoundTrip(m);
  }

  /* ---------------- the digest pass of signZip (apksigner.go:121-144) ---------------- */

  const DigestKey: string := "SHA1-Digest"

  /** The files the signature covers and the copy carries over: no directories, no signature files. */
  predicate Kept(f: ZipFile) {
    !f.isDir && !IsSpecialIgnored(f.name)
  }

  /** A file's new section: its prior lines without the prior digest line, then the new digest line. */
  function Section(prior: Manifest, name: string, sum: string): Attributes {
    Dropped(Get(prior, name), DigestKey + ": ") + [DigestKey + ": " + sum]
  }

  /**
   * The manifest after the digest pass has gone through `files`, starting
   * from `acc`: every kept file gets its section, and the first unreadable
   * kept file stops the pass.
   */
  function DigestsFrom(prior: Manifest, files: seq<ZipFile>, digest: string -> string, acc: Manifest): Result<Manifest>
    decreases |files|
  {
    if files == [] then Ok(acc)
    else
      var f := files[0];
      if !Kept(f) then DigestsFrom(prior, files[1..], digest, acc)
      else
        match f.contents
        case None => Err(OpenFailed(f.name))
        case Some(c) => DigestsFrom(prior, files[1..], digest, acc[f.name := Section(prior, f.name, digest(c))])
  }

  /** The manifest the digest pass starts from: the prior main section only. */
  function MainOnly(prior: Manifest): Manifest {
    map["" := Get(prior, "")]
  }

  /** apksigner.go:121-144 over files already sorted by name. */
  method DigestFiles(prior: Manifest, sorted: seq<ZipFile>, digest: string -> string) returns (r: Result<Manifest>)
    ensures r == DigestsFrom(prior, sorted, digest, MainOnly(prior))
  {
    var manifest := map["" := Get(prior, "")];
    var i := 0;
    while i < |sorted|
      invariant 0 <= i <= |sorted|
      invariant DigestsFrom(prior, sorted, digest, MainOnly(prior)) == DigestsFrom(prior, sorted[i..], digest, manifest)
    {
      var f := sorted[i];
      assert sorted[i..][1..] == sorted[i + 1..];
      if !f.isDir && !IsSpecialIgnored(f.name) {
        match f.contents {
          case None =>
            return Err(OpenFailed(f.name));
          case Some(c) =>
            var sum := digest(c);
            var kept := Without(Get(prior, f.name), DigestKey);
            manifest := manifest[f.name := kept + [DigestKey + ": " + sum]];
        }
      }
      i := i + 1;
    }
    r := Ok(manifest);
  }

  /**
   * A new section ends with exactly one digest line, the new one, after the
   * prior lines in their order; a prior section with at most one digest line
   * keeps no stale one.
   */
  lemma SectionDigest(prior: Manifest, name: string, sum: string)
    ensures var s := Section(prior, name, sum);
      s != [] && s[|s| - 1] == DigestKey + ": " + sum && s[..|s| - 1] == Dropped(Get(prior, name), DigestKey + ": ")
    ensures var s, a := Section(prior, name, sum), Get(prior, name);
      (forall i, j :: 0 <= i < j < |a| && HasPrefix(a[i], DigestKey + ": ") ==> !HasPrefix(a[j], DigestKey + ": "))
      ==> forall i :: 0 <= i < |s| - 1 ==> !HasPrefix(s[i], DigestKey + ": ")
  {
    var a, p := Get(prior, name), DigestKey + ": ";
    var s := Section(prior, name, sum);
    assert s[..|s| - 1] == Dropped(a, p);
    if forall i, j :: 0 <= i < j < |a| && HasPrefix(a[i], p) ==> !HasPrefix(a[j], p) {
      DroppedOnlyOne(a, p);
      forall i | 0 <= i < |s| - 1 ensures !HasPrefix(s[i], p) {
        assert s[i] in Dropped(a, p);
      }
    }
  }

  /** The kept files among `files`, in their order. */
  function KeptFiles(files: seq<ZipFile>): (r: seq<ZipFile>)
    ensures forall i :: 0 <= i < |r| ==> Kept(r[i]) && r[i] in files
  {
    if files == [] then []
    else if Kept(files[0]) then [files[0]] + KeptFiles(files[1..])
    else KeptFiles(files[1..])
  }

  /** Files that are not kept leave the digest pass unaffected. */
  lemma {:induction false} DigestsKeptOnly(prior: Manifest, files: seq<ZipFile>, digest: string -> string, acc: Manifest)
    ensures DigestsFrom(prior, files, digest, acc) == DigestsFrom(prior, KeptFiles(files), digest, acc)
    decreases |files|
  {
    if files != [] {
      var f := files[0];
      if Kept(f) {
        assert ([f] + KeptFiles(files[1..]))[1..] == KeptFiles(files[1..]);
        if f.contents.Some? {
          DigestsKeptOnly(prior, files[1..], digest, acc[f.name := Section(prior, f.name, digest(f.contents.value))]);
        }
      } else {
        DigestsKeptOnly(prior, files[1..], digest, acc);
      }
    }
  }

  /** The pass succeeds exactly when every kept file can be read, and fails on the first one that cannot. */
  lemma DigestsError(prior: Manifest, files: seq<ZipFile>, digest: string -> string, acc: Manifest)
    ensures DigestsFrom(prior, files, digest, acc).Ok? <==>
      forall i :: 0 <= i < |files| && Kept(files[i]) ==> files[i].contents.Some?
    ensures DigestsFrom(prior, files, digest, acc).Err? ==>
      exists i :: 0 <= i < |files| && Kept(files[i]) && files[i].contents.None?
        && DigestsFrom(prior, files, digest, acc).error == OpenFailed(files[i].name)
        && forall j :: 0 <= j < i && Kept(files[j]) ==> files[j].contents.Some?
  {
    DigestsOk(prior, files, digest, acc);
    DigestsFailure(prior, files, digest, acc);
  }

  /** The digest pass succeeds exactly when every kept file can be read. */
  lemma {:induction false} DigestsOk(prior: Manifest, files: seq<ZipFile>, digest: string -> string, acc: Manifest)
    ensures DigestsFrom(prior, files, digest, acc).Ok? <==>
      forall i :: 0 <= i < |files| && Kept(files[i]) ==> files[i].contents.Some?
    decreases |files|
  {
    if files != [] {
      var f := files[0];
      if !(Kept(f) && f.contents.None?) {
        var acc' := if Kept(f) then acc[f.name := Section(prior, f.name, digest(f.contents.value))] else acc;
        assert DigestsFrom(prior, files, digest, acc) == DigestsFrom(prior, files[1..], digest, acc');
        DigestsOk(prior, files[1..], digest, acc');
        forall i | 1 <= i < |files| ensures files[i] == files[1..][i - 1] {}
      }
    }
  }

  /** A failed digest pass names the first kept file that cannot be read. */
  lemma {:induction false} DigestsFailure(prior: Manifest, files: seq<ZipFile>, digest: string -> string, acc: Manifest)
    ensures DigestsFrom(prior, files, digest, acc).Err? ==>
      exists i :: 0 <= i < |files| && Kept(files[i]) && files[i].contents.None?
        && DigestsFrom(prior, files, digest, acc).error == OpenFailed(files[i].name)
        && forall j :: 0 <= j < i && Kept(files[j]) ==> files[j].contents.Some?
    decreases |files|
  {
    if files != [] {
      var f := files[0];
      if Kept(f) && f.contents.None? {
        assert DigestsFrom(prior, files, digest, acc) == Err(OpenFailed(files[0].name));
      } else {
        var acc' := if Kept(f) then acc[f.name := Section(prior, f.name, digest(f.contents.value))] else acc;
        assert DigestsFrom(prior, files, digest, acc) == DigestsFrom(prior, files[1..], digest, acc');
        DigestsFailure(prior, files[1..], digest, acc');
        if DigestsFrom(prior, files, digest, acc).Err? {
          var i :| 0 <= i < |files[1..]| && Kept(files[1..][i]) && files[1..][i].contents.None?
            && DigestsFrom(prior, files[1..], digest, acc').error == OpenFailed(files[1..][i].name)
            && forall j :: 0 <= j < i && Kept(files[1..][j]) ==> files[1..][j].contents.Some?;
          assert files[i + 1] == files[1..][i];
          forall j | 0 <= j < i + 1 && Kept(files[j]) ensures files[j].contents.Some? {
            if j > 0 { assert files[j] == files[1..][j - 1]; }
          }
        }
      }
    }
  }



  predicate AllKept(ks: seq<ZipFile>) {
    forall i :: 0 <= i < |ks| ==> Kept(ks[i])
  }

  /** After a successful pass over kept files, the sections are those of `acc` and one per file name. */
  lemma {:induction false} DigestsKeys(prior: Manifest, ks: seq<ZipFile>, digest: string -> string, acc: Manifest)
    requires AllKept(ks) && DigestsFrom(prior, ks, digest, acc).Ok?
    ensures forall k :: k in DigestsFrom(prior, ks, digest, acc).value <==>
      k in acc || exists i :: 0 <= i < |ks| && ks[i].name == k
    decreases |ks|
  {
    if ks != [] {
      var f := ks[0];
      var acc' := acc[f.name := Section(prior, f.name, digest(f.contents.value))];
      assert forall i :: 1 <= i < |ks| ==> ks[i] == ks[1..][i - 1];
      DigestsKeys(prior, ks[1..], digest, acc');
    }
  }

  /** A section of `acc` that no file of the pass is named after comes through unchanged. */
  lemma {:induction false} DigestsUntouched(prior: Manifest, ks: seq<ZipFile>, digest: string -> string,
                                            acc: Manifest, k: string)
    requires AllKept(ks) && DigestsFrom(prior, ks, digest, acc).Ok?
    requires k in acc && forall i :: 0 <= i < |ks| ==> ks[i].name != k
    ensures k in DigestsFrom(prior, ks, digest, acc).value
    ensures DigestsFrom(prior, ks, digest, acc).value[k] == acc[k]
    decreases |ks|
  {
    if ks != [] {
      var f := ks[0];
      assert f.name != k;
      assert forall i :: 1 <= i < |ks| ==> ks[i] == ks[1..][i - 1];
      DigestsUntouched(prior, ks[1..], digest, acc[f.name := Section(prior, f.name, digest(f.contents.value))], k);
    }
  }

  /**
   * A readable entry named "" is kept like any other file, so its digest
   * section replaces the main section the pass started from.
   */
  lemma EmptyNameReplacesMain(prior: Manifest, h: Header, c: string, digest: string -> string)
    ensures var r := DigestsFrom(prior, [ZipFile("", false, h, Some(c))], digest, MainOnly(prior));
      r.Ok? && r.value == map["" := Section(prior, "", digest(c))]
  {
    var f := ZipFile("", false, h, Some(c));
    assert !HasPrefix(f.name, MetaInf);
    assert Kept(f);
    assert [f][1..] == [];
  }

  /**
   * The section of a file that no later file shares a name with holds that
   * file's digest (a later file of the same name overwrites it).
   */
  lemma {:induction false} DigestsLast(prior: Manifest, ks: seq<ZipFile>, digest: string -> string,
                                       acc: Manifest, i: int)
    requires AllKept(ks) && DigestsFrom(prior, ks, digest, acc).Ok?
    requires 0 <= i < |ks| && forall j :: i < j < |ks| ==> ks[j].name != ks[i].name
    ensures ks[i].contents.Some?
    ensures ks[i].name in DigestsFrom(prior, ks, digest, acc).value
    ensures DigestsFrom(prior, ks, digest, acc).value[ks[i].name]
         == Section(prior, ks[i].name, digest(ks[i].contents.value))
    decreases |ks|
  {
    var f := ks[0];
    var acc' := acc[f.name := Section(prior, f.name, digest(f.contents.value))];
    assert forall j :: 1 <= j < |ks| ==> ks[j] == ks[1..][j - 1];
    if i == 0 {
      DigestsUntouched(prior, ks[1..], digest, acc', f.name);
    } else {
      DigestsLast(prior, ks[1..], digest, acc', i - 1);
    }
  }

  /* ---------------- the copy pass of signZip (apksigner.go:196-220) ---------------- */

  /** What the copy pass writes, and the error that stopped it. */
  datatype Copied = Copied(entries: seq<Entry>, err: Option<Error>)

  /** The copy of a readable file: its name, its header fields, its contents. */
  function CopyOf(f: ZipFile): Entry
    requires f.contents.Some?
  {
    Entry(f.name, Some(f.header), f.contents.value)
  }

  /**
   * The copy pass over `files`: every kept file is copied; an unreadable one
   * leaves its entry empty (the header is created before the file is opened)
   * and stops the pass.
   */
  function CopiesFrom(files: seq<ZipFile>): Copied
    decreases |files|
  {
    if files == [] then Copied([], None)
    else
      var f := files[0];
      if !Kept(f) then CopiesFrom(files[1..])
      else
        match f.contents
        case None => Copied([Entry(f.name, Some(f.header), "")], Some(OpenFailed(f.name)))
        case Some(c) =>
          var rest := CopiesFrom(files[1..]);
          Copied([Entry(f.name, Some(f.header), c)] + rest.entries, rest.err)
  }

  lemma {:induction false} CopiesKeptOnly(files: seq<ZipFile>)
    ensures CopiesFrom(files) == CopiesFrom(KeptFiles(files))
    decreases |files|
  {
    if files != [] {
      CopiesKeptOnly(files[1..]);
      if Kept(files[0]) {
        assert ([files[0]] + KeptFiles(files[1..]))[1..] == KeptFiles(files[1..]);
      }
    }
  }

  /** Over readable kept files the copy pass copies each of them, in order, and succeeds. */
  lemma {:induction false} CopiesReadable(ks: seq<ZipFile>)
    requires AllKept(ks) && forall i :: 0 <= i < |ks| ==> ks[i].contents.Some?
    ensures CopiesFrom(ks).err.None?
    ensures |CopiesFrom(ks).entries| == |ks|
    ensures forall i :: 0 <= i < |ks| ==> CopiesFrom(ks).entries[i] == CopyOf(ks[i])
    decreases |ks|
  {
    if ks != [] {
      assert forall i :: 1 <= i < |ks| ==> ks[i] == ks[1..][i - 1];
      CopiesReadable(ks[1..]);
    }
  }

  /** apksigner.go:196-220 over files already sorted by name. */
  method CopyFiles(w: ZipWriter, sorted: seq<ZipFile>) returns (err: Option<Error>)
    modifies w
    ensures w.entries == old(w.entries) + CopiesFrom(sorted).entries
    ensures err == CopiesFrom(sorted).err
  {
    var i := 0;
    while i < |sorted|
      invariant 0 <= i <= |sorted|
      invariant w.entries + CopiesFrom(sorted[i..]).entries == old(w.entries) + CopiesFrom(sorted).entries
      invariant CopiesFrom(sorted[i..]).err == CopiesFrom(sorted).err
    {
      var f := sorted[i];
      assert sorted[i..][1..] == sorted[i + 1..];
      if !f.isDir && !IsSpecialIgnored(f.name) {
        match f.contents {
          case None =>
            w.Add(Entry(f.name, Some(f.header), ""));
            return Some(OpenFailed(f.name));
          case Some(c) =>
            w.Add(Entry(f.name, Some(f.header), c));
        }
      }
      i := i + 1;
    }
    err := None;
  }

  /**
   * The two passes of signZip agree: once every digest is computed, the copy
   * pass succeeds; it copies no signature file; the manifest has a section
   * for exactly the copied names (and the main section); and each copied
   * entry that no later entry shares a name with has its own digest there.
   */
  lemma ManifestCoversCopies(prior: Manifest, files: seq<ZipFile>, digest: string -> string)
    requires DigestsFrom(prior, files, digest, MainOnly(prior)).Ok?
    ensures CopiesFrom(files).err.None?
    ensures forall i :: 0 <= i < |CopiesFrom(files).entries| ==> !IsSpecialIgnored(CopiesFrom(files).entries[i].name)
    ensures var m, c := DigestsFrom(prior, files, digest, MainOnly(prior)).value, CopiesFrom(files).entries;
      forall k :: k in m <==> k == "" || exists i :: 0 <= i < |c| && c[i].name == k
    ensures var m, c := DigestsFrom(prior, files, digest, MainOnly(prior)).value, CopiesFrom(files).entries;
      forall i :: 0 <= i < |c| && (forall j :: i < j < |c| ==> c[j].name != c[i].name) ==>
        c[i].name in m && m[c[i].name] == Section(prior, c[i].name, digest(c[i].data))
  {
    var ks := KeptFiles(files);
    CopiesAfterDigests(prior, files, digest);
    DigestsKeptOnly(prior, files, digest, MainOnly(prior));
    DigestsKeys(prior, ks, digest, MainOnly(prior));
    var m, c := DigestsFrom(prior, files, digest, MainOnly(prior)).value, CopiesFrom(files).entries;
    assert m == DigestsFrom(prior, ks, digest, MainOnly(prior)).value;
    forall k ensures k in m <==> k == "" || exists i :: 0 <= i < |c| && c[i].name == k {
      if i :| 0 <= i < |c| && c[i].name == k {
        assert ks[i].name == k;
      }
      if i :| 0 <= i < |ks| && ks[i].name == k {
        assert c[i].name == k;
      }
    }
    forall i | 0 <= i < |c| && (forall j :: i < j < |c| ==> c[j].name != c[i].name)
      ensures c[i].name in m && m[c[i].name] == Section(prior, c[i].name, digest(c[i].data))
    {
      DigestsLast(prior, ks, digest, MainOnly(prior), i);
    }
  }

  /** Once every digest is computed, the copy pass copies each kept file in turn, whole. */
  lemma CopiesAfterDigests(prior: Manifest, files: seq<ZipFile>, digest: string -> string)
    requires DigestsFrom(prior, files, digest, MainOnly(prior)).Ok?
    ensures CopiesFrom(files).err.None?
    ensures var ks, c := KeptFiles(files), CopiesFrom(files).entries;
      |c| == |ks| && forall i :: 0 <= i < |c| ==>
        ks[i].contents.Some? && c[i] == CopyOf(ks[i]) && !IsSpecialIgnored(c[i].name)
  {
    var ks := KeptFiles(files);
    DigestsKeptOnly(prior, files, digest, MainOnly(prior));
    DigestsError(prior, files, digest, MainOnly(prior));
    CopiesKeptOnly(files);
    assert forall i :: 0 <= i < |ks| ==> ks[i].contents.Some?;
    CopiesReadable(ks);
    var c := CopiesFrom(files).entries;
    assert c == CopiesFrom(ks).entries;
    forall i | 0 <= i < |c| ensures !IsSpecialIgnored(c[i].name) {
      assert c[i] == CopyOf(ks[i]);
      assert Kept(ks[i]);
    }
  }

  /* ---------------- writeSignatureFile (apksigner.go:268-308) ---------------- */

  /** The two lines that open the signature file. */
  const SignatureHead: string := "Signature-Version: 1.0\r\n" + "Created-By: 1.0 (Android SignApk)\r\n"

  /** The digest of the whole manifest text, as the signature file records it. */
  ghost function ManifestDigestLine(m: Manifest, digest: string -> string): string {
    "SHA1-Digest-Manifest: " + digest(Serialize(m)) + "\r\n\r\n"
  }

  /**
   * The signature file's section for one manifest section: the name, and the
   * digest of that section's text as WriteEntry produces it plus a CRLF.
   */
  function SignedSection(m: Manifest, name: string, digest: string -> string): string {
    "Name: " + name + "\r\n" + "SHA1-Digest: " + digest(WrapOut(0, EntryText(m, name)) + "\r\n") + "\r\n\r\n"
  }

  /** One signature-file section per file, in the files' order, for the files with a manifest section. */
  function FileSections(m: Manifest, files: seq<ZipFile>, digest: string -> string): string
    decreases |files|
  {
    if files == [] then ""
    else
      var f := files[|files| - 1];
      FileSections(m, files[..|files| - 1], digest)
      + (if |Get(m, f.name)| == 0 then "" else SignedSection(m, f.name, digest))
  }

  ghost function SignatureText(m: Manifest, files: seq<ZipFile>, digest: string -> string): string {
    SignatureHead + ManifestDigestLine(m, digest) + FileSections(m, files, digest)
  }

  lemma {:induction false} FileSectionsGrow(m: Manifest, files: seq<ZipFile>, digest: string -> string, j: nat, k: nat)
    requires j <= k <= |files|
    ensures HasPrefix(FileSections(m, files[..k], digest), FileSections(m, files[..j], digest))
    decreases k
  {
    if j == k {
      PrefixOfAppend(FileSections(m, files[..j], digest), "");
      assert FileSections(m, files[..j], digest) + "" == FileSections(m, files[..j], digest);
    } else {
      FileSectionsGrow(m, files, digest, j, k - 1);
      assert files[..k][..k - 1] == files[..k - 1];
      var f := files[k - 1];
      var a := FileSections(m, files[..k - 1], digest);
      var piece := if |Get(m, f.name)| == 0 then "" else SignedSection(m, f.name, digest);
      assert FileSections(m, files[..k], digest) == a + piece;
      PrefixOfAppend(a, piece);
      PrefixTransitive(FileSections(m, files[..j], digest), a, a + piece);
    }
  }

  lemma PrefixAfter(head: string, a: string, b: string)
    requires HasPrefix(b, a)
    ensures HasPrefix(head + b, head + a)
  {
    assert (head + b)[..|head + a|] == head + b[..|a|];
  }

  /** The `write` closure of apksigner.go:269-273: writes unless an earlier write failed. */
  method Put(w: Sink, s: string, ok: bool) returns (ok': bool)
    requires w.Valid()
    modifies w
    ensures w.Valid()
    ensures !ok ==> !ok' && w.data == old(w.data)
    ensures ok ==> w.data == Admit(w.room, old(w.data) + s) && ok' == Fits(w.room, old(w.data) + s)
  {
    ok' := ok;
    if ok {
      var wn, werr := w.Write(s);
      ok' := werr;
    }
  }

  /**
   * apksigner.go:268-308: the signature file, written to `w` up to the first
   * failed write.  The digests are taken through sinks without bound (a
   * SHA-1 hasher), so only writes to `w` can fail.  Go's WriteTo indexes
   * the first key, so the manifest must not be empty.
   */
  method WriteSignatureFile(w: Sink, m: Manifest, sortedFiles: seq<ZipFile>, digest: string -> string) returns (ok: bool)
    requires w.Valid() && |m| > 0
    modifies w
    ensures w.Valid()
    ensures w.data == Admit(w.room, old(w.data) + SignatureText(m, sortedFiles, digest))
    ensures ok == Fits(w.room, old(w.data) + SignatureText(m, sortedFiles, digest))
  {
    ghost var d0 := w.data;
    ghost var sections := FileSections(m, sortedFiles, digest);
    ghost var whole := d0 + SignatureText(m, sortedFiles, digest);
    ghost var head := d0 + SignatureHead + ManifestDigestLine(m, digest);
    assert whole == head + sections;
    PrefixOfAppend(head, sections);
    ok := WriteHead(w, m, digest, whole);
    if !ok {
      return;
    }
    var i := 0;
    while i < |sortedFiles|
      invariant 0 <= i <= |sortedFiles|
      invariant w.Valid() && ok
      invariant w.data == head + FileSections(m, sortedFiles[..i], digest)
    {
      ok := WriteFileStep(w, m, sortedFiles, i, digest, head, whole);
      if !ok {
        return;
      }
      i := i + 1;
    }
    assert sortedFiles[..i] == sortedFiles;
  }

  /** One pass of the loop of apksigner.go:288-306: file i's section, if the manifest has one for it. */
  method WriteFileStep(w: Sink, m: Manifest, sortedFiles: seq<ZipFile>, i: nat, digest: string -> string,
                       ghost head: string, ghost whole: string) returns (ok: bool)
    requires w.Valid() && i < |sortedFiles|
    requires w.data == head + FileSections(m, sortedFiles[..i], digest)
    requires HasPrefix(whole, head + FileSections(m, sortedFiles, digest))
    modifies w
    ensures w.Valid()
    ensures ok ==> w.data == head + FileSections(m, sortedFiles[..i + 1], digest)
    ensures !ok ==> w.data == Admit(w.room, whole) && !Fits(w.room, whole)
  {
    var f := sortedFiles[i];
    ghost var done, next := FileSections(m, sortedFiles[..i], digest), FileSections(m, sortedFiles[..i + 1], digest);
    assert next == done + (if |Get(m, f.name)| == 0 then "" else SignedSection(m, f.name, digest)) by {
      assert sortedFiles[..i + 1][..i] == sortedFiles[..i];
      assert sortedFiles[..i + 1][i] == f;
    }
    if |Get(m, f.name)| == 0 {
      assert done + "" == done;
      return true;
    }
    Assoc(head, done, SignedSection(m, f.name, digest));
    assert HasPrefix(whole, head + next) by {
      FileSectionsGrow(m, sortedFiles, digest, i + 1, |sortedFiles|);
      assert sortedFiles[..|sortedFiles|] == sortedFiles;
      PrefixAfter(head, next, FileSections(m, sortedFiles, digest));
      PrefixTransitive(head + next, head + FileSections(m, sortedFiles, digest), whole);
    }
    ok := WriteFileSection(w, m, f.name, digest, whole);
  }

  /** apksigner.go:274-287: the two opening lines and the digest of the whole manifest. */
  method WriteHead(w: Sink, m: Manifest, digest: string -> string, ghost whole: string) returns (ok: bool)
    requires w.Valid() && |m| > 0
    requires HasPrefix(whole, w.data + SignatureHead + ManifestDigestLine(m, digest))
    modifies w
    ensures w.Valid()
    ensures ok ==> w.data == old(w.data) + SignatureHead + ManifestDigestLine(m, digest)
    ensures !ok ==> w.data == Admit(w.room, whole) && !Fits(w.room, whole)
  {
    ghost var d0 := w.data;
    ghost var head := d0 + SignatureHead + ManifestDigestLine(m, digest);
    PrefixOfAppend(d0 + SignatureHead, ManifestDigestLine(m, digest));
    PrefixTransitive(d0 + SignatureHead, head, whole);
    assert d0 + SignatureHead == d0 + "Signature-Version: 1.0\r\n" + "Created-By: 1.0 (Android SignApk)\r\n";
    PrefixOfAppend(d0 + "Signature-Version: 1.0\r\n", "Created-By: 1.0 (Android SignApk)\r\n");
    PrefixTransitive(d0 + "Signature-Version: 1.0\r\n", d0 + SignatureHead, whole);

    ok := Put(w, "Signature-Version: 1.0\r\n", true);
    Absorb(w.room, d0 + "Signature-Version: 1.0\r\n", whole, w.data, ok);
    ghost var wasOk := ok;
    ok := Put(w, "Created-By: 1.0 (Android SignApk)\r\n", ok);
    if wasOk {
      Absorb(w.room, d0 + SignatureHead, whole, w.data, ok);
    }
    if !ok {
      return;
    }
    var hasher := new Sink(None);
    var hn, hok := WriteTo(m, hasher);
    assert hasher.data == Serialize(m);
    ok := Put(w, "SHA1-Digest-Manifest: " + digest(hasher.data) + "\r\n\r\n", ok);
    Absorb(w.room, head, whole, w.data, ok);
  }

  /**
   * apksigner.go:292-306, for a file with a manifest section: the section is
   * hashed as WriteEntry writes it plus a CRLF, then its name and digest are
   * written.
   */
  method WriteFileSection(w: Sink, m: Manifest, name: string, digest: string -> string, ghost whole: string)
    returns (ok: bool)
    requires w.Valid()
    requires HasPrefix(whole, w.data + SignedSection(m, name, digest))
    modifies w
    ensures w.Valid()
    ensures ok ==> w.data == old(w.data) + SignedSection(m, name, digest)
    ensures !ok ==> w.data == Admit(w.room, whole) && !Fits(w.room, whole)
  {
    var hasher := new Sink(None);
    var en, eok := WriteEntry(m, hasher, null, name);
    var cn, cok := hasher.Write("\r\n");
    assert hasher.data == WrapOut(0, EntryText(m, name)) + "\r\n";
    ghost var before := w.data;
    var nameLine := "Name: " + name + "\r\n";
    var sumLine := "SHA1-Digest: " + digest(hasher.data) + "\r\n\r\n";
    assert SignedSection(m, name, digest) == nameLine + sumLine;
    assert before + SignedSection(m, name, digest) == before + nameLine + sumLine;
    PrefixOfAppend(before + nameLine, sumLine);
    PrefixTransitive(before + nameLine, before + nameLine + sumLine, whole);
    ok := Put(w, nameLine, true);
    Absorb(w.room, before + nameLine, whole, w.data, ok);
    ghost var wasOk := ok;
    ok := Put(w, sumLine, ok);
    if wasOk {
      Absorb(w.room, before + nameLine + sumLine, whole, w.data, ok);
    }
  }

  /**
   * The signature file writes each "Name:" line as it is, without the
   * wrapping the manifest gets: a name of more than 64 bytes gives a line of
   * more than 70 bytes (compare SerializeWithin for MANIFEST.MF).
   */
  lemma SignedSectionUnwrapped(m: Manifest, name: string, digest: string -> string)
    requires NoNewline(name) && |name| > 64
    ensures !Within(0, SignedSection(m, name, digest))
  {
    var line := "Name: " + name;
    assert NoNewline(line) by {
      forall i | 0 <= i < |line| ensures !IsNewline(line[i]) {
        if i >= 6 { assert line[i] == name[i - 6]; }
      }
    }
    assert SignedSection(m, name, digest) == line + SignedSection(m, name, digest)[|line|..];
    LongLine(0, line, SignedSection(m, name, digest)[|line|..]);
  }

  /** A run of more than the room left on the line, with no line break, cannot fit. */
  lemma {:induction false} LongLine(col: nat, line: string, rest: string)
    requires NoNewline(line) && col <= Width && col + |line| > Width
    ensures !Within(col, line + rest)
    decreases |line|
  {
    assert (line + rest)[0] == line[0] && (line + rest)[1..] == line[1..] + rest;
    if col < Width {
      LongLine(col + 1, line[1..], rest);
    }
  }

  /* ---------------- signZip (apksigner.go:116-222) ---------------- */

  /** apksigner.go:180-187: the signature block's name, by the type of the private key. */
  function CertPath(key: KeyKind): (r: Result<string>)
    ensures r.Err? <==> key.OtherKey?
    ensures r.Ok? ==> r.value == PathCertEc || r.value == PathCertRsa
  {
    match key
    case Ecdsa => Ok(PathCertEc)
    case Rsa => Ok(PathCertRsa)
    case OtherKey(t) => Err(UnhandledKey(t))
  }

  /** The manifest signZip writes: the old main section plus one fresh section per kept file. */
  function SignedManifest(files: seq<ZipFile>, digest: string -> string): Result<Manifest> {
    match InitialManifest(files)
    case Err(e) => Err(e)
    case Ok(prior) => DigestsFrom(prior, SortOn(files, NameOf), digest, MainOnly(prior))
  }

  /** The entries signZip writes and the error it returns. */
  datatype Outcome = Outcome(entries: seq<Entry>, err: Option<Error>)

  /**
   * What signZip writes once the manifest text `mf` and the signature file
   * `sf` are computed: the two files, the signature block over `sf` when the
   * key type is known, and the copies of the sorted files.
   */
  function Publish(mf: string, sf: string, sorted: seq<ZipFile>, key: KeyKind, sign: string -> string): Outcome {
    var rest := Finish(sf, sorted, key, sign);
    Outcome([Entry(PathManifest, None, mf), Entry(PathCertSf, None, sf)] + rest.entries, rest.err)
  }

  /** What follows the signature file: the signature block over `sf` when the key type is known, then the copies. */
  function Finish(sf: string, sorted: seq<ZipFile>, key: KeyKind, sign: string -> string): Outcome {
    match CertPath(key)
    case Err(e) => Outcome([], Some(e))
    case Ok(path) =>
      var copies := CopiesFrom(sorted);
      Outcome([Entry(path, None, sign(sf))] + copies.entries, copies.err)
  }

  ghost function Signing(files: seq<ZipFile>, key: KeyKind, digest: string -> string, sign: string -> string): Outcome {
    match SignedManifest(files, digest)
    case Err(e) => Outcome([], Some(e))
    case Ok(m) =>
      var sorted := SortOn(files, NameOf);
      Publish(Serialize(m), SignatureText(m, sorted, digest), sorted, key, sign)
  }

  lemma DigestsKeepMain(prior: Manifest, files: seq<ZipFile>, digest: string -> string)
    requires DigestsFrom(prior, files, digest, MainOnly(prior)).Ok?
    ensures "" in DigestsFrom(prior, files, digest, MainOnly(prior)).value
  {
    DigestsKeptOnly(prior, files, digest, MainOnly(prior));
    DigestsKeys(prior, KeptFiles(files), digest, MainOnly(prior));
  }

  /** apksigner.go:116-222: reads the manifest, runs the digest pass, then writes the archive. */
  method SignZip(files: seq<ZipFile>, w: ZipWriter, key: KeyKind, digest: string -> string, sign: string -> string)
    returns (err: Option<Error>)
    modifies w
    ensures w.entries == old(w.entries) + Signing(files, key, digest, sign).entries
    ensures err == Signing(files, key, digest, sign).err
  {
    var init := GetOrInitManifest(files);
    if init.Err? {
      return Some(init.error);
    }
    var prior := init.value;
    var sorted := SortOn(files, NameOf);
    var digested := DigestFiles(prior, sorted, digest);
    if digested.Err? {
      return Some(digested.error);
    }
    DigestsKeepMain(prior, sorted, digest);
    err := WriteSigned(w, digested.value, sorted, key, digest, sign);
  }

  /**
   * apksigner.go:145-221.  The entries for MANIFEST.MF and CERT.SF are
   * written through sinks without bound, as a zip entry and a bytes.Buffer
   * are here, so the checks after those writes never fire.
   */
  method WriteSigned(w: ZipWriter, manifest: Manifest, sorted: seq<ZipFile>, key: KeyKind,
                     digest: string -> string, sign: string -> string) returns (err: Option<Error>)
    requires "" in manifest
    modifies w
    ensures w.entries == old(w.entries)
      + Publish(Serialize(manifest), SignatureText(manifest, sorted, digest), sorted, key, sign).entries
    ensures err == Publish(Serialize(manifest), SignatureText(manifest, sorted, digest), sorted, key, sign).err
  {
    ghost var text := SignatureText(manifest, sorted, digest);
    ghost var head := [Entry(PathManifest, None, Serialize(manifest)), Entry(PathCertSf, None, text)];
    var sf := WriteHeads(w, manifest, sorted, digest);
    err := FinishArchive(w, sf, sorted, key, sign);
    ghost var rest := Finish(sf, sorted, key, sign);
    assert Publish(Serialize(manifest), text, sorted, key, sign) == Outcome(head + rest.entries, rest.err);
    Assoc(old(w.entries), head, rest.entries);
  }

  /** apksigner.go:145-164: stores MANIFEST.MF and then CERT.SF, both written into memory first; returns the signature file. */
  method WriteHeads(w: ZipWriter, manifest: Manifest, sorted: seq<ZipFile>, digest: string -> string)
    returns (sf: string)
    requires "" in manifest
    modifies w
    ensures sf == SignatureText(manifest, sorted, digest)
    ensures w.entries == old(w.entries)
      + [Entry(PathManifest, None, Serialize(manifest)), Entry(PathCertSf, None, sf)]
  {
    var packed := new Sink(None);
    var n, ok := WriteTo(manifest, packed);
    assert packed.data == Serialize(manifest);
    w.Add(Entry(PathManifest, None, packed.data));

    var signed := new Sink(None);
    ok := WriteSignatureFile(signed, manifest, sorted, digest);
    assert signed.data == SignatureText(manifest, sorted, digest);
    w.Add(Entry(PathCertSf, None, signed.data));
    sf := signed.data;
    ghost var e := [Entry(PathManifest, None, packed.data), Entry(PathCertSf, None, sf)];
    assert old(w.entries) + [e[0]] + [e[1]] == old(w.entries) + e;
  }

  /** apksigner.go:166-220: signs the signature file, names the block by the key's type, then copies the files. */
  method FinishArchive(w: ZipWriter, sf: string, sorted: seq<ZipFile>, key: KeyKind, sign: string -> string)
    returns (err: Option<Error>)
    modifies w
    ensures w.entries == old(w.entries) + Finish(sf, sorted, key, sign).entries
    ensures err == Finish(sf, sorted, key, sign).err
  {
    var signature := sign(sf);
    var path;
    match key {
      case Ecdsa => path := PathCertEc;
      case Rsa => path := PathCertRsa;
      case OtherKey(t) =>
        assert old(w.entries) + [] == old(w.entries);
        return Some(UnhandledKey(t));
    }
    assert CertPath(key) == Ok(path);
    w.Add(Entry(path, None, signature));
    err := CopyFiles(w, sorted);
    Assoc(old(w.entries), [Entry(path, None, signature)], CopiesFrom(sorted).entries);
  }

  /** The kept files of a list sorted by name are still sorted by name. */
  lemma {:induction false} KeptSorted(files: seq<ZipFile>)
    requires SortedOn(files, NameOf)
    ensures SortedOn(KeptFiles(files), NameOf)
    decreases |files|
  {
    if files != [] {
      var rest := KeptFiles(files[1..]);
      assert SortedOn(files[1..], NameOf);
      KeptSorted(files[1..]);
      if Kept(files[0]) {
        forall j | 0 <= j < |rest| ensures LessEq(NameOf(files[0]), NameOf(rest[j])) {
          var k :| 0 <= k < |files[1..]| && files[1..][k] == rest[j];
          assert files[k + 1] == rest[j];
        }
        SortedCons(files[0], rest, NameOf);
      }
    }
  }

  /** The copies of a sorted file list are sorted, carry their input headers, and are no signature files. */
  lemma CopiesSorted(files: seq<ZipFile>)
    requires SortedOn(files, NameOf)
    requires forall i :: 0 <= i < |files| && Kept(files[i]) ==> files[i].contents.Some?
    ensures var c := CopiesFrom(files).entries;
      forall i :: 0 <= i < |c| ==> c[i].copied.Some? && !IsSpecialIgnored(c[i].name)
    ensures var c := CopiesFrom(files).entries;
      forall i, j :: 0 <= i < j < |c| ==> LessEq(c[i].name, c[j].name)
  {
    var ks := KeptFiles(files);
    KeptSorted(files);
    CopiesKeptOnly(files);
    assert forall i :: 0 <= i < |ks| ==> ks[i].contents.Some?;
    CopiesReadable(ks);
  }

  /** A successful signZip, opened up: the three signer entries, then the copy pass's entries. */
  lemma SigningOk(files: seq<ZipFile>, key: KeyKind, digest: string -> string, sign: string -> string)
    requires Signing(files, key, digest, sign).err.None?
    ensures SignedManifest(files, digest).Ok? && CertPath(key).Ok?
    ensures var m, sorted := SignedManifest(files, digest).value, SortOn(files, NameOf);
      var sf := SignatureText(m, sorted, digest);
      Signing(files, key, digest, sign).entries
        == [Entry(PathManifest, None, Serialize(m)), Entry(PathCertSf, None, sf), Entry(CertPath(key).value, None, sign(sf))]
           + CopiesFrom(sorted).entries
      && CopiesFrom(sorted).err.None?
  {
    var sorted := SortOn(files, NameOf);
    assert SignedManifest(files, digest).Ok?;
    var m := SignedManifest(files, digest).value;
    var sf := SignatureText(m, sorted, digest);
    assert Signing(files, key, digest, sign) == Publish(Serialize(m), sf, sorted, key, sign);
    PublishOk(Serialize(m), sf, sorted, key, sign);
  }

  lemma PublishOk(mf: string, sf: string, sorted: seq<ZipFile>, key: KeyKind, sign: string -> string)
    requires Publish(mf, sf, sorted, key, sign).err.None?
    ensures CertPath(key).Ok? && CopiesFrom(sorted).err.None?
    ensures Publish(mf, sf, sorted, key, sign).entries
      == [Entry(PathManifest, None, mf), Entry(PathCertSf, None, sf), Entry(CertPath(key).value, None, sign(sf))]
         + CopiesFrom(sorted).entries
  {
  }

  /**
   * A successful signZip writes MANIFEST.MF, whose lines all fit in 70
   * bytes, then CERT.SF, then the signature block over exactly CERT.SF's
   * bytes, then the copies in ascending name order, none of which clashes
   * with the three signer files.
   */
  lemma SignedArchiveLayout(files: seq<ZipFile>, key: KeyKind, digest: string -> string, sign: string -> string)
    requires Signing(files, key, digest, sign).err.None?
    ensures SignedManifest(files, digest).Ok? && CertPath(key).Ok?
    ensures var out, m := Signing(files, key, digest, sign).entries, SignedManifest(files, digest).value;
      |out| >= 3
      && out[0] == Entry(PathManifest, None, Serialize(m)) && Within(0, out[0].data)
      && out[1] == Entry(PathCertSf, None, SignatureText(m, SortOn(files, NameOf), digest))
      && out[2] == Entry(CertPath(key).value, None, sign(out[1].data))
    ensures var c := Signing(files, key, digest, sign).entries[3..];
      forall i :: 0 <= i < |c| ==>
        c[i].copied.Some? && !IsSpecialIgnored(c[i].name) && c[i].name != PathManifest
        && c[i].name != PathCertSf && c[i].name != CertPath(key).value
    ensures var c := Signing(files, key, digest, sign).entries[3..];
      forall i, j :: 0 <= i < j < |c| ==> LessEq(c[i].name, c[j].name)
  {
    var prior := InitialManifest(files).value;
    var sorted := SortOn(files, NameOf);
    var m := SignedManifest(files, digest).value;
    SigningOk(files, key, digest, sign);
    var c := CopiesFrom(sorted).entries;
    assert Signing(files, key, digest, sign).entries[3..] == c;
    SerializeWithin(m);
    DigestsError(prior, sorted, digest, MainOnly(prior));
    CopiesSorted(sorted);
    ClearOfSigner(c, key);
  }

  /** A name that is not ignored is none of the three files the signer writes. */
  lemma ClearOfSigner(c: seq<Entry>, key: KeyKind)
    requires CertPath(key).Ok?
    requires forall i :: 0 <= i < |c| ==> !IsSpecialIgnored(c[i].name)
    ensures forall i :: 0 <= i < |c| ==>
      c[i].name != PathManifest && c[i].name != PathCertSf && c[i].name != CertPath(key).value
  {
    SignerFilesIgnored();
  }

  /** ManifestCoversCopies, with each section read down to its last line. */
  lemma CopiesDigested(prior: Manifest, sorted: seq<ZipFile>, digest: string -> string, m: Manifest, c: seq<Entry>)
    requires DigestsFrom(prior, sorted, digest, MainOnly(prior)) == Ok(m)
    requires c == CopiesFrom(sorted).entries
    ensures forall k :: k in m <==> k == "" || exists i :: 0 <= i < |c| && c[i].name == k
    ensures forall i :: 0 <= i < |c| && (forall j :: i < j < |c| ==> c[j].name != c[i].name) ==>
      c[i].name in m && m[c[i].name] != [] && m[c[i].name][|m[c[i].name]| - 1] == DigestKey + ": " + digest(c[i].data)
  {
    ManifestCoversCopies(prior, sorted, digest);
    forall i | 0 <= i < |c| && (forall j :: i < j < |c| ==> c[j].name != c[i].name)
      ensures c[i].name in m && m[c[i].name] != [] && m[c[i].name][|m[c[i].name]| - 1] == DigestKey + ": " + digest(c[i].data)
    {
      SectionDigest(prior, c[i].name, digest(c[i].data));
    }
  }

  /**
   * After a successful signZip, MANIFEST.MF has a section for exactly the
   * copied names (and the main section), and each copied entry that no
   * later one shares a name with has its own digest as its section's last
   * line.
   */
  lemma SignedArchiveCovered(files: seq<ZipFile>, key: KeyKind, digest: string -> string, sign: string -> string)
    requires Signing(files, key, digest, sign).err.None?
    ensures SignedManifest(files, digest).Ok?
    ensures var c, m := Signing(files, key, digest, sign).entries[3..], SignedManifest(files, digest).value;
      forall k :: k in m <==> k == "" || exists i :: 0 <= i < |c| && c[i].name == k
    ensures var c, m := Signing(files, key, digest, sign).entries[3..], SignedManifest(files, digest).value;
      forall i :: 0 <= i < |c| && (forall j :: i < j < |c| ==> c[j].name != c[i].name) ==>
        c[i].name in m && m[c[i].name] != [] && m[c[i].name][|m[c[i].name]| - 1] == DigestKey + ": " + digest(c[i].data)
  {
    SigningOk(files, key, digest, sign);
    var prior := InitialManifest(files).value;
    var sorted := SortOn(files, NameOf);
    var c := CopiesFrom(sorted).entries;
    assert Signing(files, key, digest, sign).entries[3..] == c;
    CopiesDigested(prior, sorted, digest, SignedManifest(files, digest).value, c);
  }
}
