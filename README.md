# basia / apksigner — JAR signing metadata, modelled in Dafny

The repository signs Android packages with the JAR signing scheme (v1).
The scheme comes from the JAR File Specification (Java SE 7): the
"Manifest Specification" and "Signed JAR File" sections, and the 72-byte
line-length rule of "Notes on Manifest and Signature Files". This project
models the text processing at its core and proves properties of it:

- **The manifest codec** (manifest.go):
  - `Attributes.Without` drops one attribute line by key.
  - `ParseManifest` is the line-driven state machine that reads
    `META-INF/MANIFEST.MF`.
  - `Manifest.WriteTo` and `Manifest.WriteEntry` serialise a manifest in
    sorted section order.
  - `wrap72` is the writer that folds physical lines at 70 content bytes
    with a `"\r\n "` continuation marker.
- **apksigner's `signZip`** (apksigner.go):
  - `isSpecialIgnored` says which entries are excluded.
  - `zipFind` and `getOrInitManifest` fetch the old manifest.
  - The digest pass merges each file's new `SHA1-Digest` line into its old
    section.
  - The copy pass copies the files the digest pass covered.
  - `writeSignatureFile` writes `CERT.SF`.
  - The signature block is named by the key type.
- **basia's `main`** (basia.go):
  - `wrap70` and `joinBlock` wrap lines and join them into blocks.
  - `main` refuses an input that already holds a manifest, sorts the walked
    files, and builds `MANIFEST.MF` and `CERT.SF`. It rewrites each file's
    `data` in place (an `array`) and names the signature block.
- **The repository's tests** (manifest_test.go, basia_test.go), as lemmas
  about the model.

Modules, one per file:

| module | file | models |
|---|---|---|
| `Wrappers` | wrappers.dfy | `Option` |
| `Strings` | strings.dfy | Go's byte-wise string order, `sort.Strings`, `sort.Slice` by name |
| `Sinks` | sinks.dfy | an `io.Writer` that may run out of room and then reports an error |
| `LineWrap` | linewrap.dfy | the byte stream `wrap72` produces, as functions |
| `LineWrapWriter` | linewrap.dfy | `wrap72` itself: a class with the column `n` and its underlying writer |
| `Manifest` | manifest.dfy | `Without`, `ParseManifest`, the serialised form, and the parse/serialise round trip |
| `ManifestWriter` | manifest_writer.dfy | `WriteTo` and `WriteEntry` with their error-guarded `write` closures |
| `ApkSigner` | apksigner.dfy | `isSpecialIgnored`, `zipFind`, `getOrInitManifest`, `signZip`, `writeSignatureFile` |
| `Basia` | basia.dfy | `wrap70`, `joinBlock`, and the metadata construction of `main` |
| `TestVectors` | test_vectors.dfy | the expectations of manifest_test.go |

Modelling decisions:

- Text is `string`, and each `char` stands for one byte: names and
  attributes are their raw (UTF-8) bytes, as Go's `len`, slicing and `<`
  treat them. Widths such as wrap72's 70 and `Strings.Less` are therefore
  byte counts and Go's byte order, and a multi-byte character may be split
  by a continuation marker, as in Go.
- A manifest is `map<string, seq<string>>`; the key `""` is the main
  section.
- SHA-1 followed by base64 is a function parameter `digest`, and PKCS#7
  detached signing is a parameter `sign`. Both are uninterpreted.
- An `io.Writer` is the class `Sinks.Sink`: the bytes written so far, plus
  an optional room. A write that does not fit keeps the prefix that fits
  and reports failure, as Go's `io.Writer` contract demands of a short
  write. Every writer contract therefore reads "the sink holds
  `Admit(room, old data + the full output)`, and `ok` says whether all of
  it fit".
- `wrap72` is specified by `LineWrap.WrapOut` and `LineWrap.WrapCol`. These
  are defined byte by byte, so the output does not depend on how the input
  is split into `Write` calls (`WrapAppend`).
- `WriteEntry` wraps a writer that `WriteTo` has already wrapped.
  `LineWrap.WrapIdempotent` proves that the second layer changes nothing,
  which the test's round trip relies on.
- `ParseManifest`'s scanner appends `"\r\n\r\n"`, splits on LF and drops one
  trailing CR, like `bufio.ScanLines`.
- The zip archive is a `seq<ZipFile>`. A file whose `contents` is `None`
  cannot be opened or read. The output `zip.Writer` is the class
  `ApkSigner.ZipWriter`, holding the entries written in order.
- basia and apksigner each keep their own version of the writers, as the
  code does:
  - basia wraps the lines of `CERT.SF` through `joinBlock`; apksigner
    writes them unwrapped.
  - The `Created-By` values differ between the two.
  - basia copies every walked file, including ignored `META-INF/` files. It
    refuses only the two spellings `META-INF/MANIFEST.MF` and
    `meta-inf/manifest.mf`. An input `META-INF/CERT.SF` is therefore
    copied after the generated one, and the archive holds two entries of
    that name (`Basia.SignerFileWrittenTwice`).
  - basia's `isSpecialIgnored` is the same predicate as apksigner's; it
    spells the manifest path as a literal where apksigner uses its
    constant. It is modelled once, as `ApkSigner.IsSpecialIgnored`.
- Where the code departs from the JAR File Specification, the model
  follows the code. "Notes on Manifest and Signature Files" limits every
  line of a signature file to 72 bytes. apksigner writes
  `"Name: " + name` in `CERT.SF` without wrapping, though, so a name longer
  than 64 bytes gives a line over 70 content bytes
  (`ApkSigner.SignedSectionUnwrapped`).
- A kept zip entry named `""` is digested like any other file, so its
  section replaces the main section, as apksigner.go:141 does
  (`ApkSigner.EmptyNameReplacesMain`).

## Model

| member | source | states |
|---|---|---|
| Strings.LessIrreflexive | manifest.go:97 | Go's byte-wise `<` on names, by which `sort.Strings` orders sections, never holds between a name and itself |
| Strings.LessAsymmetric | manifest.go:97 | two names are never each less than the other |
| Strings.LessTransitive | manifest.go:97 | the name order is transitive |
| Strings.LessTotal | manifest.go:97 | of two different names, one is less than the other, so sorting is determined |
| Strings.EmptyIsLeast | manifest.go:98-100 | the main section's key `""` sorts before every other name, so after sorting it can only be first |
| Strings.Ordered | manifest.go:93-97 | the sorted list of a set of names is strictly ascending, holds exactly the set's names, and has one entry per name |
| Strings.IncreasingUnique | manifest.go:93-97 | two strictly ascending lists with the same names are equal, so the sorted order of the sections is unique |
| Strings.SortedKeys | manifest.go:93-97 | collecting and sorting a map's names yields exactly those names, strictly ascending |
| Strings.InsertOn | apksigner.go:126-128 | inserting a file into a list sorted by name keeps the list sorted and adds exactly that file |
| Strings.SortOn | apksigner.go:126-128 | sorting by name gives a permutation of the files that is ascending by name (also basia.go:71-73) |
| Sinks.Admit | manifest.go:80-85 | a writer keeps a prefix of what it is given, all of it exactly when it fits, and never more than its room |
| Sinks.OverflowAbsorbs | manifest.go:80-85 | once output has overflowed the room, more output changes nothing: what the writer keeps stays the same |
| Sinks.AfterOverflow | apksigner.go:269-273 | after a failed write, a further non-empty write fails again and adds nothing |
| Sinks.Sink.Write | manifest.go:150 | the underlying writer appends the bytes that fit, fails exactly when not all fit, and reports the number of bytes accepted |
| LineWrap.WrapOut | manifest.go:141-182 | the bytes wrap72 passes on for `s` when the current line already holds `col` bytes: CR and LF go through and reset the column; a byte that would be the 71st of a line is preceded by `"\r\n "`, after which the column is 2 |
| LineWrap.WrapCol | manifest.go:136-142 | the column `n` that wrap72 keeps never exceeds 70 |
| LineWrap.WrapAppend | manifest.go:141-182 | writing `a` then `b` produces the same bytes and column as writing `a + b`, so the output does not depend on how `Write` calls split the stream |
| LineWrap.WrapPrefix | manifest.go:141-182 | the output for a prefix of the input is a prefix of the output for the whole |
| LineWrap.WrapNewlines | manifest.go:145-157 | a run of CR/LF bytes passes through unchanged and resets the column to 0 |
| LineWrap.WrapPlain | manifest.go:169-179 | CR/LF-free text that fits on the current line passes unchanged and advances the column by its length |
| LineWrap.WrapMarked | manifest.go:162-168 | at column 70, more text gets the marker `"\r\n "` first, and the column restarts at 1 |
| LineWrap.ExactWidthUnsplit | manifest.go:162-172 | a line of exactly 70 bytes followed by CRLF is written unsplit |
| LineWrap.WrapLine | manifest.go:145-157 | a CR/LF-free line and what follows its CRLF are wrapped independently, and the column afterwards depends only on the rest |
| LineWrap.WrapThroughMarker | manifest.go:145-168 | an already inserted marker passes through a second wrap72 unchanged and leaves it at column 1 |
| LineWrap.WrapIdempotent | manifest.go:117 | wrapping wrap72's output again, as WriteEntry does inside WriteTo, changes neither the bytes nor the column |
| LineWrap.WrapWithin | manifest.go:133-135 | no physical line of wrap72's output holds more than 70 bytes before its CR/LF, i.e. 72 with the CRLF |
| LineWrap.UnfoldWrap | manifest.go:162-178 | deleting the inserted markers from the output of a CR/LF-free input gives back the input |
| LineWrap.WrapCons | manifest.go:143-180 | one byte at a time: CR/LF resets the column; another byte at column 70 is preceded by the marker; otherwise the column advances by one |
| LineWrapWriter.DownAppend | manifest.go:117 | a write through a nested wrap72 in two pieces reaches the underlying writer as one write of both would |
| LineWrapWriter.IndexOfNewline | manifest.go:144 | `bytes.IndexAny(buf, "\r\n")`: no CR/LF before the index, and a CR/LF at it unless it is the length |
| LineWrapWriter.Wrap72.constructor | manifest.go:79 | a fresh wrap72 starts at column 0 over the given writer |
| LineWrapWriter.Wrap72.Emit | manifest.go:150 | one write to the underlying writer (itself a wrap72 when nested) with its outcome and new column |
| LineWrapWriter.Wrap72.Write | manifest.go:141-182 | the underlying writer receives the wrapped input, as far as it fits; the write succeeds exactly when it all fits; then the count is `len(buf)`, not counting markers, and `n` is the new column |
| LineWrapWriter.Wrap72.Advance | manifest.go:143-180 | one pass of the loop extends the written output by the wrapping of the bytes it consumes, or stops on the first failed write |
| LineWrapWriter.Wrap72.WriteStep | manifest.go:144-179 | one pass of the loop consumes at least one byte and writes its wrapping |
| LineWrapWriter.Wrap72.WriteNewlines | manifest.go:145-157 | a leading CR/LF run is written as is and resets the column |
| LineWrapWriter.Wrap72.WriteRun | manifest.go:159-179 | CR/LF-free bytes are written up to column 70, after a marker when the line is full |
| Manifest.Get | manifest.go:126 | reading a missing name gives the empty attribute list, like Go's nil map read |
| Manifest.Dropped | manifest.go:33-41 | dropping by key removes at most one line |
| Manifest.DroppedFirst | manifest.go:33-41 | the first line starting with the key prefix is removed and the others keep their order; with no such line the list is unchanged |
| Manifest.DroppedOnlyOne | manifest.go:33-41 | when at most one line carries the key, none carries it afterwards, and no line is added |
| Manifest.Without | manifest.go:33-41 | the search loop removes exactly the first line starting with `key + ": "` and returns the list unchanged when there is none |
| Manifest.FindLF | manifest.go:48-51 | the index of the first LF, or the length when there is none: every byte before it is not LF, and the byte at it is LF |
| Manifest.DropCR | manifest.go:48-51 | a token with one trailing CR removed, as `bufio.ScanLines` does to each line |
| Manifest.Lines | manifest.go:48-51 | the tokens `bufio.ScanLines` yields: the text cut at each LF with one CR dropped before it, and no empty token after a final LF |
| Manifest.Step | manifest.go:52-70 | one pass of the parser's switch: a blank line stores a non-empty section and starts a new one; `Name: ` sets the name; a continuation extends the name or the last line; any other line is appended |
| Manifest.Run | manifest.go:50-71 | the parser state after the scan loop has handled each token in order |
| Manifest.Parse | manifest.go:43-76 | what ParseManifest returns: the sections stored by running the loop over the text with the two padding line breaks appended |
| Manifest.LinesCons | manifest.go:48-51 | a CRLF-terminated line is scanned as that line, without its CR |
| Manifest.LinesJoin | manifest.go:48-51 | lines joined with CRLFs are scanned back as the same lines |
| Manifest.RunAppend | manifest.go:50-71 | the state machine over two runs of lines is the run over the first, then over the second |
| Manifest.RunNoEmptySection | manifest.go:53-58 | the parser never commits a section without attribute lines, so every value of the result is non-empty |
| Manifest.ParseManifest | manifest.go:43-76 | the scanning loop computes the parse of the input with `"\r\n\r\n"` appended, and every section it returns has attribute lines |
| Manifest.ContName | manifest.go:61-63 | continuation lines before any attribute extend the section name, each without its leading space and with no separator |
| Manifest.ContLine | manifest.go:64-67 | continuation lines after an attribute extend that last attribute |
| Manifest.PhysName | manifest.go:59-63 | a wrapped `Name: ` line parses back to the whole name |
| Manifest.PhysLine | manifest.go:64-69 | a wrapped attribute line parses back to one attribute |
| Manifest.PhysLines | manifest.go:61-69 | wrapped attribute lines parse back to the same attributes, in order |
| Manifest.PhysOut | manifest.go:86-88 | wrap72 of one logical line plus CRLF is its physical lines, each closed by CRLF |
| Manifest.TextOut | manifest.go:86-88 | wrap72 of a block of lines is the CRLF-join of their physical lines, ending at column 0 |
| Manifest.LinesBlank | manifest.go:53-58 | a blank line is scanned as the empty line that ends a section |
| Manifest.RunTail | manifest.go:48-58 | the appended `"\r\n\r\n"` commits the last section, even with no trailing blank line |
| Manifest.RunSection | manifest.go:102-108 | a written section, after its blank line, reads back as its name and attributes |
| Manifest.RunSections | manifest.go:101-112 | the written sections, in order, read back as exactly those sections |
| Manifest.RunMain | manifest.go:86-88 | reading the serialised form starts by reading back the main section |
| Manifest.RunMainThen | manifest.go:86-88 | the main section's lines read back as the main section's attributes, whatever follows |
| Manifest.RoundTrip | manifest.go:43-131 | parsing what WriteTo writes gives the manifest back, for every well-formed manifest |
| Manifest.MainText | manifest.go:86-88 | the main section's lines before wrapping, each ended by CRLF |
| Manifest.EntryText | manifest.go:116-131 | a file section before wrapping: its `Name: ` line, then its lines, each ended by CRLF |
| Manifest.Serialize | manifest.go:78-114 | the whole text WriteTo writes: the wrapped main section, every other section after a blank line in ascending name order, then a final blank line |
| Manifest.EntryOut | manifest.go:116-131 | WriteEntry's output passes a second wrap72 unchanged and ends at column 0 |
| Manifest.SectionsOut | manifest.go:101-109 | wrapping all the unwrapped sections at once gives the sections WriteTo writes one by one |
| Manifest.SectionStep | manifest.go:103-104 | a blank line and a section are wrapped independently of the sections after them |
| Manifest.SerializeIsWrapped | manifest.go:78-131 | WriteTo's bytes are wrap72 applied to the unwrapped manifest text |
| Manifest.SerializeWithin | manifest.go:78-131 | no line of the serialised manifest is longer than 70 bytes before its CRLF |
| ManifestWriter.GuardedWrite | manifest.go:80-85 | the `write` closure writes only while no error occurred, and adds the count of the bytes written |
| ManifestWriter.WriteEntry | manifest.go:116-131 | the `Name:` line and the attributes, each with CRLF, reach the writer wrapped, as far as they fit; on success the count is their unwrapped length |
| ManifestWriter.WriteLine | manifest.go:125-129 | each write of a line extends the output by that line's wrapping, or keeps the first failure |
| ManifestWriter.SkipMain | manifest.go:98-100 | dropping the first sorted name when it is `""` leaves the other names, sorted |
| ManifestWriter.WriteTo | manifest.go:78-114 | the writer receives the serialised manifest: main lines, then each other section in ascending name order after a blank line, then a final CRLF; it fails exactly when that does not fit; on success the count is the unwrapped length |
| ManifestWriter.WriteRest | manifest.go:101-113 | after the main section, the sections and the final CRLF are written, or the first failure is kept |
| ManifestWriter.SortedNames | manifest.go:92-100 | the names written are the map's non-empty names in ascending order |
| ManifestWriter.WriteMain | manifest.go:86-91 | the main section's lines are written wrapped, leaving column 0, or the write stops at the first failure |
| ManifestWriter.WriteSections | manifest.go:101-109 | each section is written in turn after a blank line, or the write stops at the first failure |
| ManifestWriter.WriteSection | manifest.go:102-108 | one section is written, wrapped, after a blank line |
| ManifestWriter.SectionsAppend | manifest.go:101-109 | writing two runs of names produces the sections of the first, then of the second |
| ApkSigner.IsSpecialIgnored | apksigner.go:248-266 | the entries the signer neither digests nor copies: under `META-INF/`, the manifest, `*.SF`, `*.RSA`, `*.DSA`, `*.EC` and `SIG-*`, with `*` holding no `/` |
| ApkSigner.StarSegment | apksigner.go:261-264 | `META-INF/*.SF` (and `.RSA`, `.DSA`, `.EC`) matches exactly a `/`-free last segment with that suffix |
| ApkSigner.SigSegment | apksigner.go:265 | `META-INF/SIG-*` matches exactly a `/`-free last segment starting with `SIG-` |
| ApkSigner.IgnoredIsSignatureFile | apksigner.go:248-266 | a name is ignored exactly when it is under `META-INF/` and its segment there is the manifest or a signature file of the JAR specification |
| ApkSigner.ManifestSegment | apksigner.go:260 | the manifest path is `META-INF/` plus exactly `MANIFEST.MF` |
| ApkSigner.SignerFilesIgnored | apksigner.go:110-114 | the manifest, CERT.SF, CERT.RSA and CERT.EC are all ignored, so no copied file can collide with them |
| ApkSigner.ZipWriter.Add | apksigner.go:201-210 | each entry created is appended after those already written |
| ApkSigner.Find | apksigner.go:311-318 | lookup finds nothing exactly when no file has the name, and otherwise the first file with it |
| ApkSigner.ZipFind | apksigner.go:311-318 | the search loop returns the first file with the name, or none |
| ApkSigner.InitialManifest | apksigner.go:226-242 | the archive's manifest parsed, a fresh one with the two default main lines when there is none, or an open error for an unreadable one |
| ApkSigner.GetOrInitManifest | apksigner.go:226-242 | with no manifest in the archive the default main section; with one, its parse or the failure to open it; the parse has no empty section |
| ApkSigner.ResignRecoversManifest | apksigner.go:226-242 | an archive carrying a serialised well-formed manifest yields that same manifest as the old one |
| ApkSigner.Section | apksigner.go:141-143 | a file's new section: its old lines without the old `SHA1-Digest` line, then the new one |
| ApkSigner.DigestsFrom | apksigner.go:121-144 | the manifest after the digest pass: each kept file in order gets its new section, and the first unreadable kept file stops the pass with its error |
| ApkSigner.DigestFiles | apksigner.go:121-144 | the merge loop computes the digest pass over the sorted files, starting from the old main section alone |
| ApkSigner.SectionDigest | apksigner.go:141-143 | a file's new section is its old lines without the old digest line, in order, followed by exactly one new digest line |
| ApkSigner.KeptFiles | apksigner.go:129-132 | the files the passes look at are neither directories nor ignored names |
| ApkSigner.DigestsKeptOnly | apksigner.go:129-132 | directories and ignored files do not affect the digest pass |
| ApkSigner.DigestsError | apksigner.go:133-140 | the digest pass succeeds exactly when every kept file is readable, and otherwise fails on the first unreadable one |
| ApkSigner.DigestsOk | apksigner.go:133-140 | the digest pass succeeds exactly when every kept file is readable |
| ApkSigner.DigestsFailure | apksigner.go:133-140 | a failed digest pass names the first unreadable kept file |
| ApkSigner.DigestsKeys | apksigner.go:122-144 | the new manifest has sections for exactly the start's sections and the kept files: old sections of other names are dropped |
| ApkSigner.DigestsUntouched | apksigner.go:122 | a section no kept file names keeps its starting value, in particular the old main section when no kept file has the empty name |
| ApkSigner.EmptyNameReplacesMain | apksigner.go:141 | a readable entry named `""` is digested like any file, and its section replaces the main section the pass started from |
| ApkSigner.DigestsLast | apksigner.go:141-143 | a kept file's section is the one made from its own digest, when no later file has its name |
| ApkSigner.DigestsKeepMain | apksigner.go:122 | the new manifest always has a main section |
| ApkSigner.CopiesFrom | apksigner.go:196-220 | the copy pass: each kept file is copied with its header; an unreadable one leaves an empty entry and stops the pass with its error |
| ApkSigner.CopiesKeptOnly | apksigner.go:197-200 | directories and ignored files are not copied |
| ApkSigner.CopiesReadable | apksigner.go:196-220 | when every kept file is readable, each is copied whole, in order, and the pass succeeds |
| ApkSigner.CopyFiles | apksigner.go:196-220 | the copy loop appends the copies of the kept files in order, and stops with an empty entry and an error at the first unreadable one |
| ApkSigner.ManifestCoversCopies | apksigner.go:126-220 | after a successful digest pass the copy pass succeeds, copies no ignored file, the manifest has sections for exactly the copied names, and each copied file that no later copy shares a name with has its own new section |
| ApkSigner.CopiesAfterDigests | apksigner.go:126-220 | the copy pass copies exactly the files the digest pass digested, in the same order |
| ApkSigner.Put | apksigner.go:269-273 | the signature file's `write` closure writes only while no error occurred |
| ApkSigner.SignedSection | apksigner.go:288-306 | one CERT.SF section: the name and the digest of the file's manifest section as WriteEntry writes it, followed by CRLF |
| ApkSigner.SignatureText | apksigner.go:268-308 | the whole CERT.SF text: the two head lines, the digest of the manifest, then one section per file that has manifest lines, in the files' order |
| ApkSigner.WriteSignatureFile | apksigner.go:268-308 | the writer receives the head lines, the digest of the whole serialised manifest, then a section for each sorted file that has a manifest section; nothing after the first failure |
| ApkSigner.WriteFileStep | apksigner.go:288-306 | one pass of the loop adds that file's section, or none when its manifest section is empty |
| ApkSigner.WriteHead | apksigner.go:274-287 | the two head lines and the manifest digest line are written first |
| ApkSigner.WriteFileSection | apksigner.go:292-306 | a file's section holds its name and the digest of its serialised manifest section plus CRLF |
| ApkSigner.SignedSectionUnwrapped | apksigner.go:301-302 | a name longer than 64 bytes gives a `Name:` line in CERT.SF of more than 70 bytes |
| ApkSigner.CertPath | apksigner.go:180-187 | an ECDSA key gives CERT.EC, an RSA key CERT.RSA, and any other key type an error |
| ApkSigner.SignZip | apksigner.go:116-222 | signing writes exactly the entries and returns exactly the error of the signing function |
| ApkSigner.WriteSigned | apksigner.go:145-221 | after the digest pass: the manifest, CERT.SF, the signature block and the copies, or the error that stopped them |
| ApkSigner.WriteHeads | apksigner.go:145-164 | MANIFEST.MF holds the serialised manifest and CERT.SF the signature text |
| ApkSigner.FinishArchive | apksigner.go:166-220 | the signature block over CERT.SF when the key type is known, then the copies |
| ApkSigner.KeptSorted | apksigner.go:126-132 | the kept files of a list sorted by name are sorted by name |
| ApkSigner.CopiesSorted | apksigner.go:196-220 | the copies come out in ascending name order and none is ignored |
| ApkSigner.Signing | apksigner.go:116-222 | everything signZip writes: nothing and the error when the old manifest cannot be read or the digest pass fails, otherwise MANIFEST.MF, CERT.SF, the signature block named by the key, then the copies |
| ApkSigner.SigningOk | apksigner.go:116-222 | a successful signZip writes MANIFEST.MF, CERT.SF, the signature over CERT.SF, then the copies |
| ApkSigner.PublishOk | apksigner.go:145-221 | when publishing succeeds the key type is known and every copy succeeded |
| ApkSigner.SignedArchiveLayout | apksigner.go:116-222 | a signed archive starts with a manifest whose lines fit in 72 bytes, CERT.SF, and the signature over CERT.SF; its copies are ascending, none is ignored, and none clashes with those three |
| ApkSigner.SignedArchiveCovered | apksigner.go:116-222 | the manifest of a signed archive has a section for exactly the copied names, and the section of each copy that no later copy shares a name with ends with the digest of its bytes |
| ApkSigner.ClearOfSigner | apksigner.go:180-185 | a name that is not ignored is none of the files the signer writes |
| ApkSigner.CopiesDigested | apksigner.go:129-144 | the manifest section of each copied file that no later copy shares a name with ends with the digest of its copied bytes |
| Basia.Chunked | basia.go:183-192 | a line cut into a first piece of `max` bytes and then pieces of 69 bytes, joined by `"\r\n "` |
| Basia.Wrap70 | basia.go:183-192 | the loop cuts the line into 70 bytes, then pieces of 69, joined by `"\r\n "` |
| Basia.ChunkedIsWrap | basia.go:183-192 | for a CR/LF-free line, wrap70 gives the same bytes as a fresh wrap72 |
| Basia.ChunkedCut | basia.go:185-189 | a line longer than the limit becomes its first piece, the marker, and the rest cut at 69 |
| Basia.ChunkedThree | basia.go:183-192 | a line of 70 + 69 + 69 bytes becomes three physical lines joined by markers |
| Basia.Wrap70Example | basia_test.go:9-22 | the test's 208-byte line is wrapped as the test expects |
| Basia.Wrap70Lines | basia.go:183-192 | deleting wrap70's markers gives back the line, and no physical line exceeds 70 bytes |
| Basia.Block | basia.go:176-182 | a block: every line wrapped at 70 bytes and ended by CRLF, then a blank line |
| Basia.JoinBlock | basia.go:176-182 | the loop joins the wrapped lines, each with CRLF, followed by a blank line |
| Basia.BlockIsWrapped | basia.go:176-182 | a block is the wrap72 of its CRLF-joined lines followed by a blank line |
| Basia.ChunksWrapped | basia.go:176-182 | wrap70 line by line equals wrap72 over the whole CRLF-joined text |
| Basia.BuildManifest | basia.go:75-90 | MANIFEST.MF is the head block followed by the block of each signed file in order; each signed file's `data` becomes its block and the rest are unchanged |
| Basia.AddEntry | basia.go:80-90 | one pass of the loop adds a signed file's block and rewrites only that file's `data` |
| Basia.BuildCertSf | basia.go:92-104 | CERT.SF is the head block with the manifest's digest, followed by each signed file's name and the digest of its manifest block |
| Basia.DigestSectionsOf | basia.go:80-90 | the file sections are exactly those of the signed files, each holding just its digest line |
| Basia.ManifestOfSections | basia.go:76-90 | the manifest basia writes has the three head lines as main section and one digest section per signed file |
| Basia.KeptPathsIncreasing | basia.go:71-83 | the signed files' names are strictly ascending and never empty |
| Basia.BlockIsSection | basia.go:84-87 | a file's block is the section WriteTo would write for it, plus a blank line |
| Basia.BlocksAreSections | basia.go:80-90 | the signed files' blocks are the sections WriteTo writes for them, in the same order |
| Basia.SectionOrder | basia.go:71-73 | the sorted names of the manifest's sections are the signed files' names in the order of the path-sorted file list, the order basia writes them in |
| Basia.HeadThenBlocks | basia.go:76-90 | a head block followed by the section blocks in sorted name order is the serialised manifest |
| Basia.ManifestMfIsSerialized | basia.go:76-90 | basia's MANIFEST.MF is exactly what apksigner's WriteTo writes for the same manifest |
| Basia.ManifestMfReadsBack | basia.go:76-90 | ParseManifest reads basia's MANIFEST.MF back as the manifest it stands for |
| Basia.ManifestOfWellFormed | basia.go:76-90 | that manifest is well formed, so the round trip applies to it |
| Basia.DigestLineAttribute | basia.go:84-87 | a digest line is a valid attribute line |
| Basia.HeadLinesAttributes | basia.go:76-79 | the head lines are valid attribute lines without CR or LF |
| Basia.SfHashesManifestSection | basia.go:89-103 | what CERT.SF hashes for a file is its section of the serialised manifest plus the blank line |
| Basia.RefusedPath | basia.go:59-61 | the first walked path spelled `META-INF/MANIFEST.MF` or `meta-inf/manifest.mf`, if any |
| Basia.Packaged | basia.go:47-146 | what main produces: a failure naming the refused manifest path, or the package built from the files sorted by path |
| Basia.PackageOf | basia.go:71-146 | for sorted files: MANIFEST.MF, CERT.SF over the rewritten manifest sections and the signature block, then the input paths to copy; a failure for an unhandled key type |
| Basia.RefusedPathIsFirst | basia.go:59-61 | the walk stops at the first path that is a manifest, and goes through when there is none |
| Basia.SignDirectory | basia.go:47-146 | main refuses an input holding a manifest, otherwise sorts the files and packages them |
| Basia.SignSorted | basia.go:71-146 | for sorted files: MANIFEST.MF, CERT.SF and the signature block named by key type, then every file by path |
| Basia.SortedStrictly | basia.go:71-73 | sorting walked files with distinct paths gives strictly ascending paths |
| Basia.SortedPaths | basia.go:71-73 | sorting keeps exactly the walked paths |
| Basia.PackageFailures | basia.go:59-117 | main fails on a manifest in the input, and otherwise exactly when the key type is unhandled |
| Basia.PackageLayout | basia.go:47-146 | for a clean walk with a known key: MANIFEST.MF is the serialised manifest and parses back to it, CERT.SF opens with its digest, the signature covers CERT.SF, and the copies are all walked paths, ascending |
| Basia.SignerFileWrittenTwice | basia.go:119-146 | an input file named `META-INF/CERT.SF` is copied after the generated CERT.SF, so the package holds both under that one name |
| Basia.SortedOrdered | basia.go:71-73 | the sorted walk meets the conditions of the manifest lemmas |
| Basia.PackageOfLayout | basia.go:71-146 | for sorted files and a known key, the package layout above |
| TestVectors.Wrap72TestCase | manifest_test.go:67-86 | wrap72 writes the test's 208-byte line, CRLF and "hello" as the test expects |
| TestVectors.LongLineWrapped | manifest_test.go:68-77 | the 208-byte line alone becomes lines of 70, 1 + 69 and 1 + 69 bytes |
| TestVectors.ManifestTestCase | manifest_test.go:12-65 | the test's text parses to the test's map, WriteTo of the map writes the text, and basia writes the same text for the two files |
| TestVectors.BasiaText | manifest_test.go:20-32 | basia's MANIFEST.MF for the test's two files is the test's text |
| TestVectors.TestFilesManifest | manifest_test.go:33-45 | the manifest basia's MANIFEST.MF stands for is the test's map |
| TestVectors.FileBlock | manifest_test.go:24-30 | a name whose `Name:` line runs past 70 bytes is written with a continuation line |

## Left out

- Zip reading and writing, `os.Create`/`os.Open`, the `filepath.Walk`
  directory scan, the byte transfer of the copy loops and the progress
  printing. An archive is a sequence of files whose contents are either
  readable or not. A file reads the same bytes, or fails the same way, each
  time it is opened. The digest pass (apksigner.go:133) and the copy pass
  (apksigner.go:211) open it separately, and `ApkSigner.ManifestCoversCopies`
  and `ApkSigner.CopiesDigested` rely on the two reads agreeing.
- Errors of `w.Create`, `w.CreateHeader`, `packed.Write` and `io.Copy`
  into the output archive. The output `ZipWriter` accepts every entry.
  The only archive errors modelled are those of opening and reading an
  input file.
- PEM, PKCS#8 and X.509 parsing (`loadCertAndKey`), flags, `main`'s
  setup, `die`, `check` and `os.Exit`.
- PKCS#7 detached signing is the parameter `sign`; its own errors are not
  modelled.
- SHA-1 and base64 (`sha1sum`, `base64enc`, `base64sha1`) are the
  parameter `digest`.
- The general glob semantics of `path.Match`: only the six fixed patterns
  are modelled, and their unreachable panic branch is left out.
- Manifest.ParseManifest: does not model `bufio.Scanner`'s 64 KiB token
  limit or read errors; the input is a string already read, so the error
  result never occurs.
- LineWrapWriter.Wrap72.Write: after a failed write the count of bytes
  already consumed and the column `n` are not stated. The contract gives
  them only on success, and the written bytes in every case.
- Sinks.Sink: a failure is permanent. Once a write has been refused, every
  later non-empty write is refused too (`Sinks.AfterOverflow`), as with the
  program's zip entry writers, SHA-1 hasher and buffer. Over a writer whose
  errors clear, manifest.go:103-105 calls `WriteEntry` after a failed
  `write("\r\n")` and overwrites the error, so WriteTo can return no error
  with the blank line missing. The model cannot show that case.
- Strings.SortOn: it is a stable insertion sort, while Go's `sort.Slice`
  is not stable. The contract states the permutation and the order, so
  the results agree whenever the names are distinct.
- Sorting `r.File` in place is modelled on values: the sorted sequence is
  passed on. Aliasing of the reader's file list is not modelled.
- Counts are unbounded; `int64` overflow is not modelled.
- basia's copy loop is represented by the copied paths only, since the
  bytes come from disk.
- ManifestWriter.WriteTo and ApkSigner.WriteSignatureFile require a
  non-empty manifest, because the Go code indexes `names[0]`. apksigner
  always passes a manifest with a main section.
- `Without` returns the receiver itself when no line has the key
  (manifest.go:40), and a fresh copy otherwise (`as[:i:i]`). The append at
  apksigner.go:141-143 may then write past the receiver's length into its
  backing array, which nothing reads. The model works on values and does
  not represent this aliasing.
