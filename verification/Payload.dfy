/** The inner payload: a manifest in canonical JSON, then the text, then the files. */
module Payloads {
  import opened Basics
  import opened Text
  import opened Decimals
  import opened Json
  import opened JsonFields
  import opened JsonSpelling
  import opened Framing
  import opened Protocol

  datatype FileEntry = FileEntry(name: Bytes, mimeType: Bytes, data: Bytes)

  datatype Payload = Payload(text: Option<Bytes>, files: seq<FileEntry>)

  /** A file described without its data. */
  datatype FileMeta = FileMeta(name: Bytes, mimeType: Bytes, byteLength: nat)

  datatype LimitPair = LimitPair(maxFiles: nat, maxManifestBytes: nat)

  /** Limits for new messages: positive, at or below the protocol ceilings. */
  type CreationLimits = l: LimitPair
    | 1 <= l.maxFiles <= MAX_FILES_CEILING && 1 <= l.maxManifestBytes <= MAX_MANIFEST_BYTES_CEILING
    witness LimitPair(1, 1)

  const CEILINGS: CreationLimits := LimitPair(MAX_FILES_CEILING, MAX_MANIFEST_BYTES_CEILING)

  datatype PayloadError =
    | Empty | TooManyFiles | ManifestTooLarge | BadName | BadMimeType
    | Truncated | Malformed | NotCanonical | LengthMismatch | InvalidText

  /** Every string is UTF-8, as the types of the Rust payload say. */
  ghost predicate IsStrings(p: Payload) {
    (p.text.Some? ==> ValidUtf8(p.text.value)) && forall i :: 0 <= i < |p.files| ==> NamesAreStrings(MetaOf(p.files[i]))
  }

  predicate NamesAreStrings(m: FileMeta) { ValidUtf8(m.name) && ValidUtf8(m.mimeType) }

  /** Every part is at most as long as a manifest may declare. */
  ghost predicate LengthsAreSafe(p: Payload) {
    TextLength(p.text) <= MAX_SAFE_INTEGER && forall i :: 0 <= i < |p.files| ==> |p.files[i].data| <= MAX_SAFE_INTEGER
  }

  function TextLength(text: Option<Bytes>): nat { if text.Some? then |text.value| else 0 }

  // ---------------------------------------------------------------- the canonical manifest

  const TEXT := Ascii("text")
  const FILES := Ascii("files")
  const NAME := Ascii("name")
  const MIME_TYPE := Ascii("mimeType")
  const BYTE_LENGTH := Ascii("byteLength")

  function MetaOf(f: FileEntry): FileMeta { FileMeta(f.name, f.mimeType, |f.data|) }

  function MetasOf(files: seq<FileEntry>): (metas: seq<FileMeta>)
    ensures |metas| == |files|
    ensures forall i :: 0 <= i < |files| ==> metas[i] == FileMeta(files[i].name, files[i].mimeType, |files[i].data|)
  {
    seq(|files|, i requires 0 <= i < |files| => MetaOf(files[i]))
  }

  function FileTree(m: FileMeta): Json {
    Obj([Member(NAME, Str(m.name)), Member(MIME_TYPE, Str(m.mimeType)), Member(BYTE_LENGTH, Num(m.byteLength))])
  }

  function FileTrees(metas: seq<FileMeta>): seq<Json> {
    if metas == [] then [] else [FileTree(metas[0])] + FileTrees(metas[1..])
  }

  function TextTree(text: Option<Bytes>): Json {
    if text.None? then Null else Obj([Member(BYTE_LENGTH, Num(|text.value|))])
  }

  function ManifestTree(text: Option<Bytes>, metas: seq<FileMeta>): Json {
    Obj([Member(TEXT, TextTree(text)), Member(FILES, Arr(FileTrees(metas)))])
  }

  function ManifestBytes(text: Option<Bytes>, metas: seq<FileMeta>): Bytes { Print(ManifestTree(text, metas)) }

  lemma {:induction false} TreesAreWellFormed(metas: seq<FileMeta>)
    requires forall i :: 0 <= i < |metas| ==> NamesAreStrings(metas[i])
    ensures AllWellFormed(FileTrees(metas))
    decreases |metas|
  {
    if metas != [] {
      FileIsWellFormed(metas[0]);
      TreesAreWellFormed(metas[1..]);
    }
  }

  lemma KeysAreStrings()
    ensures ValidUtf8(TEXT) && ValidUtf8(FILES) && ValidUtf8(NAME) && ValidUtf8(MIME_TYPE) && ValidUtf8(BYTE_LENGTH)
  {
    AsciiIsUtf8(TEXT);
    AsciiIsUtf8(FILES);
    AsciiIsUtf8(NAME);
    AsciiIsUtf8(MIME_TYPE);
    AsciiIsUtf8(BYTE_LENGTH);
  }

  lemma KeysDiffer()
    ensures NAME != MIME_TYPE && MIME_TYPE != BYTE_LENGTH && NAME != BYTE_LENGTH && TEXT != FILES
  {
    assert |NAME| == 4 && |MIME_TYPE| == 8 && |BYTE_LENGTH| == 10 && |TEXT| == 4 && |FILES| == 5;
  }

  lemma FileIsWellFormed(m: FileMeta)
    requires NamesAreStrings(m)
    ensures WellFormed(FileTree(m))
  {
    KeysAreStrings();
    KeysDiffer();
    ThreeMembers(NAME, Str(m.name), MIME_TYPE, Str(m.mimeType), BYTE_LENGTH, Num(m.byteLength));
  }

  lemma ThreeMembers(k0: Bytes, v0: Json, k1: Bytes, v1: Json, k2: Bytes, v2: Json)
    requires k0 != k1 && k1 != k2 && k0 != k2 && ValidUtf8(k0) && ValidUtf8(k1) && ValidUtf8(k2)
    requires WellFormed(v0) && WellFormed(v1) && WellFormed(v2)
    ensures WellFormed(Obj([Member(k0, v0), Member(k1, v1), Member(k2, v2)]))
  {
    TwoMembers(k1, v1, k2, v2);
    assert [Member(k0, v0), Member(k1, v1), Member(k2, v2)][1..] == [Member(k1, v1), Member(k2, v2)];
  }

  lemma TwoMembers(k0: Bytes, v0: Json, k1: Bytes, v1: Json)
    requires k0 != k1 && ValidUtf8(k0) && ValidUtf8(k1) && WellFormed(v0) && WellFormed(v1)
    ensures WellFormed(Obj([Member(k0, v0), Member(k1, v1)]))
  {
    MembersWellFormed([Member(k0, v0), Member(k1, v1)]);
  }

  lemma ManifestIsWellFormed(text: Option<Bytes>, metas: seq<FileMeta>)
    requires forall i :: 0 <= i < |metas| ==> NamesAreStrings(metas[i])
    ensures WellFormed(ManifestTree(text, metas))
  {
    KeysAreStrings();
    KeysDiffer();
    TreesAreWellFormed(metas);
    if text.Some? {
      MembersWellFormed(TextTree(text).members);
    }
    TwoMembers(TEXT, TextTree(text), FILES, Arr(FileTrees(metas)));
  }

  /** What a manifest that a decoder has to read may describe. */
  ghost predicate IsDeclarable(text: Option<Bytes>, metas: seq<FileMeta>) {
    && TextLength(text) <= MAX_SAFE_INTEGER
    && (forall i :: 0 <= i < |metas| ==> NamesAreStrings(metas[i]) && metas[i].byteLength <= MAX_SAFE_INTEGER)
    && |ManifestBytes(text, metas)| <= MAX_MANIFEST_BYTES_CEILING
  }

  /** All the decoders need of a parser of JSON: it reads canonical manifests back. What it makes of
      any other text is open, of larger numbers and deeper nesting too. */
  ghost predicate ReadsManifests(parse: Bytes -> Option<Json>) {
    forall text: Option<Bytes>, metas: seq<FileMeta> ::
      IsDeclarable(text, metas) ==> parse(ManifestBytes(text, metas)) == Some(ManifestTree(text, metas))
  }

  lemma InverterReadsManifests(parse: Bytes -> Option<Json>)
    requires Inverts(parse)
    ensures ReadsManifests(parse)
  {
    forall text: Option<Bytes>, metas: seq<FileMeta> | IsDeclarable(text, metas)
      ensures parse(ManifestBytes(text, metas)) == Some(ManifestTree(text, metas))
    {
      ManifestIsWellFormed(text, metas);
    }
  }

  // ---------------------------------------------------------------- the manifest's text

  function SpelledFile(m: FileMeta): Bytes {
    Braced(Pairs(["name", "mimeType", "byteLength"], [Quoted(m.name), Quoted(m.mimeType), Decimal(m.byteLength)]))
  }

  function SpelledFiles(metas: seq<FileMeta>): (texts: seq<Bytes>)
    ensures |texts| == |metas| && forall i :: 0 <= i < |metas| ==> texts[i] == SpelledFile(metas[i])
  {
    seq(|metas|, i requires 0 <= i < |metas| => SpelledFile(metas[i]))
  }

  function SpelledText(text: Option<Bytes>): Bytes {
    if text.None? then Ascii("null") else Braced(Pairs(["byteLength"], [Decimal(|text.value|)]))
  }

  /** The one manifest that describes the text and the files, character by character. */
  function SpelledManifest(text: Option<Bytes>, metas: seq<FileMeta>): Bytes {
    Braced(Pairs(["text", "files"], [SpelledText(text), Bracketed(SpelledFiles(metas))]))
  }

  lemma KeysArePlain()
    ensures Plain(Ascii("text")) && Plain(Ascii("files")) && Plain(Ascii("name"))
    ensures Plain(Ascii("mimeType")) && Plain(Ascii("byteLength"))
  {
  }

  lemma FileIsSpelled(m: FileMeta)
    ensures Print(FileTree(m)) == SpelledFile(m)
  {
    KeysArePlain();
    StringIsSpelled(m.name);
    StringIsSpelled(m.mimeType);
    var keys, values := ["name", "mimeType", "byteLength"], [Str(m.name), Str(m.mimeType), Num(m.byteLength)];
    LiteralObjectIsSpelled(keys, values, [Quoted(m.name), Quoted(m.mimeType), Decimal(m.byteLength)]);
    assert FileTree(m).members == Members(keys, values);
  }

  lemma TextIsSpelled(text: Option<Bytes>)
    ensures Print(TextTree(text)) == SpelledText(text)
  {
    if text.Some? {
      KeysArePlain();
      LiteralObjectIsSpelled(["byteLength"], [Num(|text.value|)], [Decimal(|text.value|)]);
      assert TextTree(text).members == Members(["byteLength"], [Num(|text.value|)]);
    }
  }

  lemma {:induction false} TreesAt(metas: seq<FileMeta>)
    ensures |FileTrees(metas)| == |metas| && forall i :: 0 <= i < |metas| ==> FileTrees(metas)[i] == FileTree(metas[i])
    decreases |metas|
  {
    if metas != [] {
      TreesAt(metas[1..]);
    }
  }

  lemma FilesAreSpelled(metas: seq<FileMeta>)
    ensures Print(Arr(FileTrees(metas))) == Bracketed(SpelledFiles(metas))
  {
    TreesAt(metas);
    forall i | 0 <= i < |metas| ensures SpelledFiles(metas)[i] == Print(FileTrees(metas)[i]) {
      FileIsSpelled(metas[i]);
    }
    ArrayIsSpelled(FileTrees(metas), SpelledFiles(metas));
  }

  /** The canonical manifest is that text: keys in this order, no whitespace, plain decimals, minimal escapes. */
  lemma ManifestIsSpelled(text: Option<Bytes>, metas: seq<FileMeta>)
    ensures ManifestBytes(text, metas) == SpelledManifest(text, metas)
  {
    KeysArePlain();
    TextIsSpelled(text);
    FilesAreSpelled(metas);
    var keys, values := ["text", "files"], [TextTree(text), Arr(FileTrees(metas))];
    LiteralObjectIsSpelled(keys, values, [SpelledText(text), Bracketed(SpelledFiles(metas))]);
    assert ManifestTree(text, metas).members == Members(keys, values);
  }

  // ---------------------------------------------------------------- encoding

  function CheckFiles(metas: seq<FileMeta>): Option<PayloadError> {
    if metas == [] then None
    else if !(1 <= |metas[0].name| <= MAX_NAME_BYTES) then Some(BadName)
    else if !(1 <= |metas[0].mimeType| <= MAX_MIME_TYPE_BYTES) then Some(BadMimeType)
    else CheckFiles(metas[1..])
  }

  function CheckEntries(text: Option<Bytes>, metas: seq<FileMeta>): Option<PayloadError> {
    if TextLength(text) == 0 && metas == [] then Some(Empty) else CheckFiles(metas)
  }

  /** The checks before encoding, and the manifest. */
  function Prepare(text: Option<Bytes>, metas: seq<FileMeta>, limits: CreationLimits): Result<Bytes, PayloadError> {
    if CheckEntries(text, metas).Some? then Err(CheckEntries(text, metas).value)
    else if |metas| > limits.maxFiles then Err(TooManyFiles)
    else if |ManifestBytes(text, metas)| > limits.maxManifestBytes then Err(ManifestTooLarge)
    else Ok(ManifestBytes(text, metas))
  }

  function FileBytes(files: seq<FileEntry>): Bytes {
    if files == [] then [] else files[0].data + FileBytes(files[1..])
  }

  /** What follows the manifest. */
  function Body(p: Payload): Bytes { (if p.text.Some? then p.text.value else []) + FileBytes(p.files) }

  function Encode(p: Payload, limits: CreationLimits): Result<Bytes, PayloadError> {
    match Prepare(p.text, MetasOf(p.files), limits)
    case Err(e) => Err(e)
    case Ok(manifest) => Ok(Frame(manifest, Body(p)))
  }

  lemma {:induction false} FilesCheck(metas: seq<FileMeta>)
    ensures CheckFiles(metas).None? <==> forall m :: m in metas ==> 1 <= |m.name| <= 255 && 1 <= |m.mimeType| <= 255
    ensures CheckFiles(metas).None? || CheckFiles(metas) == Some(BadName) || CheckFiles(metas) == Some(BadMimeType)
    decreases |metas|
  {
    if metas != [] {
      FilesCheck(metas[1..]);
    }
  }

  /** A payload is refused exactly for these reasons, an earlier one before a later one. */
  lemma EncodeRefuses(p: Payload, limits: CreationLimits)
    ensures var named := forall f :: f in p.files ==> 1 <= |f.name| <= 255 && 1 <= |f.mimeType| <= 255;
            var manifest := |SpelledManifest(p.text, MetasOf(p.files))|;
            && (Encode(p, limits) == Err(Empty) <==> p.files == [] && (p.text.None? || p.text.value == []))
            && (Encode(p, limits).Err? && Encode(p, limits).error in {BadName, BadMimeType} <==> !named)
            && (Encode(p, limits) == Err(TooManyFiles) <==> named && |p.files| > limits.maxFiles)
            && (Encode(p, limits) == Err(ManifestTooLarge) <==> named && 0 < |p.files| + TextLength(p.text)
                                                                && |p.files| <= limits.maxFiles && manifest > limits.maxManifestBytes)
            && (Encode(p, limits).Ok? <==> named && 0 < |p.files| + TextLength(p.text)
                                           && |p.files| <= limits.maxFiles && manifest <= limits.maxManifestBytes)
  {
    var metas := MetasOf(p.files);
    FilesCheck(metas);
    ManifestIsSpelled(p.text, metas);
    forall f | f in p.files ensures MetaOf(f) in metas {
      var i :| 0 <= i < |p.files| && p.files[i] == f;
      assert metas[i] == MetaOf(f);
    }
    forall m | m in metas ensures exists f :: f in p.files && m == MetaOf(f) {
      var i :| 0 <= i < |metas| && metas[i] == m;
      assert p.files[i] in p.files;
    }
  }

  /** How many bytes the first `i` files have together. */
  function LengthBefore(files: seq<FileEntry>, i: nat): nat
    requires i <= |files|
  {
    if i == 0 then 0 else LengthBefore(files, i - 1) + |files[i - 1].data|
  }

  /** The manifest's length in four bytes, the manifest, the text, and the files' data in their order. */
  predicate HasLayout(bytes: Bytes, manifest: Bytes, text: Bytes, files: seq<FileEntry>) {
    var body := 4 + |manifest| + |text|;
    && |bytes| == body + LengthBefore(files, |files|)
    && IsBigEndian(bytes[..4], |manifest|)
    && IsAt(bytes, 4, manifest)
    && IsAt(bytes, 4 + |manifest|, text)
    && forall i :: 0 <= i < |files| ==> FileIsAt(bytes, body, files, i)
  }

  /** File `i` stands where the files before it end. */
  predicate FileIsAt(bytes: Bytes, body: nat, files: seq<FileEntry>, i: nat)
    requires i < |files|
  {
    IsAt(bytes, body + LengthBefore(files, i), files[i].data)
  }

  /** The bytes are laid out so, around the one manifest that describes the payload. */
  predicate IsEncoding(bytes: Bytes, p: Payload) {
    HasLayout(bytes, SpelledManifest(p.text, MetasOf(p.files)), if p.text.Some? then p.text.value else [], p.files)
  }

  predicate IsAt(bytes: Bytes, start: nat, part: Bytes) {
    start + |part| <= |bytes| && bytes[start..start + |part|] == part
  }

  lemma {:induction false} FileBytesOfTwo(a: seq<FileEntry>, b: seq<FileEntry>)
    ensures FileBytes(a + b) == FileBytes(a) + FileBytes(b)
    decreases |a|
  {
    if a == [] {
      assert a + b == b;
    } else {
      assert (a + b)[1..] == a[1..] + b;
      FileBytesOfTwo(a[1..], b);
    }
  }

  lemma {:induction false} FileBytesBefore(files: seq<FileEntry>, i: nat)
    requires i <= |files|
    ensures |FileBytes(files[..i])| == LengthBefore(files, i)
  {
    if i > 0 {
      FileBytesBefore(files, i - 1);
      FileBytesOfMore(files[..i - 1], files[i - 1]);
      assert files[..i] == files[..i - 1] + [files[i - 1]];
    }
  }

  lemma AtBetween(before: Bytes, part: Bytes, after: Bytes)
    ensures IsAt(before + (part + after), |before|, part)
  {
    assert (before + (part + after))[|before|..|before| + |part|] == part;
  }

  lemma FileBytesFirst(files: seq<FileEntry>)
    requires files != []
    ensures FileBytes(files) == files[0].data + FileBytes(files[1..])
  {
  }

  lemma FileBytesFrom(files: seq<FileEntry>, i: nat)
    requires i < |files|
    ensures FileBytes(files) == FileBytes(files[..i]) + (files[i].data + FileBytes(files[i + 1..]))
  {
    var before, rest := files[..i], files[i..];
    FileBytesOfTwo(before, rest);
    assert files == before + rest;
    FileBytesFirst(rest);
    assert rest[1..] == files[i + 1..];
  }

  lemma FileBytesAt(files: seq<FileEntry>, i: nat)
    requires i < |files|
    ensures IsAt(FileBytes(files), LengthBefore(files, i), files[i].data)
  {
    FileBytesBefore(files, i);
    FileBytesFrom(files, i);
    AtBetween(FileBytes(files[..i]), files[i].data, FileBytes(files[i + 1..]));
  }

  lemma AtInTheBody(head: Bytes, body: Bytes, start: nat, part: Bytes)
    requires IsAt(body, start, part)
    ensures IsAt(head + body, |head| + start, part)
  {
    assert (head + body)[|head| + start..|head| + start + |part|] == body[start..start + |part|];
  }

  lemma PartsAreAt(prefix: Bytes, manifest: Bytes, text: Bytes, data: Bytes)
    ensures var bytes := prefix + manifest + (text + data);
            && bytes[..|prefix|] == prefix && IsAt(bytes, |prefix|, manifest) && IsAt(bytes, |prefix| + |manifest|, text)
            && bytes == prefix + manifest + text + data
  {
    var bytes := prefix + manifest + (text + data);
    AtBetween(prefix, manifest, text + data);
    assert prefix + (manifest + (text + data)) == bytes;
    AtBetween(prefix + manifest, text, data);
  }

  lemma FilesAreAt(head: Bytes, files: seq<FileEntry>)
    ensures forall i :: 0 <= i < |files| ==> FileIsAt(head + FileBytes(files), |head|, files, i)
  {
    forall i | 0 <= i < |files| ensures FileIsAt(head + FileBytes(files), |head|, files, i) {
      FileBytesAt(files, i);
      AtInTheBody(head, FileBytes(files), LengthBefore(files, i), files[i].data);
    }
  }

  lemma FramedHasLayout(manifest: Bytes, text: Bytes, files: seq<FileEntry>)
    requires |manifest| < U32_LIMIT
    ensures HasLayout(Frame(manifest, text + FileBytes(files)), manifest, text, files)
  {
    var prefix, data := ToU32(|manifest|), FileBytes(files);
    var head := prefix + manifest + text;
    ToU32IsBigEndian(|manifest|);
    FileBytesBefore(files, |files|);
    assert files[..|files|] == files;
    PartsAreAt(prefix, manifest, text, data);
    FilesAreAt(head, files);
  }

  predicate AgreeTo(a: Bytes, b: Bytes, end: nat) { end <= |a| && end <= |b| && a[..end] == b[..end] }

  lemma AgreeMore(a: Bytes, b: Bytes, at: nat, part: Bytes, end: nat)
    requires AgreeTo(a, b, at) && IsAt(a, at, part) && IsAt(b, at, part) && end == at + |part|
    ensures AgreeTo(a, b, end)
  {
    assert a[..end] == a[..at] + a[at..end];
    assert b[..end] == b[..at] + b[at..end];
  }

  lemma FileAgrees(a: Bytes, b: Bytes, body: nat, files: seq<FileEntry>, i: nat, at: nat, end: nat)
    requires i < |files| && FileIsAt(a, body, files, i) && FileIsAt(b, body, files, i)
    requires at == body + LengthBefore(files, i) && end == at + |files[i].data| && AgreeTo(a, b, at)
    ensures AgreeTo(a, b, end)
  {
    AgreeMore(a, b, at, files[i].data, end);
  }

  lemma NextLength(files: seq<FileEntry>, i: nat, next: nat)
    requires next == i + 1 <= |files|
    ensures LengthBefore(files, next) == LengthBefore(files, i) + |files[i].data|
  {
  }

  /** Two byte strings with the same files at the same places agree up to the end of every file. */
  lemma {:induction false} SameUpTo(a: Bytes, b: Bytes, body: nat, files: seq<FileEntry>, i: nat, end: nat)
    requires AgreeTo(a, b, body) && i <= |files| && end == body + LengthBefore(files, i)
    requires forall k :: 0 <= k < |files| ==> FileIsAt(a, body, files, k) && FileIsAt(b, body, files, k)
    ensures AgreeTo(a, b, end)
    decreases i
  {
    if i > 0 {
      var at := body + LengthBefore(files, i - 1);
      SameUpTo(a, b, body, files, i - 1, at);
      NextLength(files, i - 1, i);
      FileAgrees(a, b, body, files, i - 1, at, end);
    }
  }

  lemma SameHeads(a: Bytes, b: Bytes, manifest: Bytes, text: Bytes, files: seq<FileEntry>, body: nat)
    requires HasLayout(a, manifest, text, files) && HasLayout(b, manifest, text, files) && body == 4 + |manifest| + |text|
    ensures AgreeTo(a, b, body)
  {
    BigEndianIsUnique(a[..4], b[..4], |manifest|);
    AgreeMore(a, b, 4, manifest, 4 + |manifest|);
    AgreeMore(a, b, 4 + |manifest|, text, body);
  }

  lemma LayoutIsUnique(a: Bytes, b: Bytes, manifest: Bytes, text: Bytes, files: seq<FileEntry>)
    requires HasLayout(a, manifest, text, files) && HasLayout(b, manifest, text, files)
    ensures a == b
  {
    SameHeads(a, b, manifest, text, files, 4 + |manifest| + |text|);
    SameUpTo(a, b, 4 + |manifest| + |text|, files, |files|, |a|);
    assert a[..|a|] == a && b[..|a|] == b;
  }

  lemma EncodingIsUnique(a: Bytes, b: Bytes, p: Payload)
    requires IsEncoding(a, p) && IsEncoding(b, p)
    ensures a == b
  {
    LayoutIsUnique(a, b, SpelledManifest(p.text, MetasOf(p.files)), if p.text.Some? then p.text.value else [], p.files);
  }

  /** What the encoder returns has that layout. */
  lemma EncodeIsSpelled(p: Payload, limits: CreationLimits)
    requires Encode(p, limits).Ok?
    ensures IsEncoding(Encode(p, limits).value, p)
  {
    ManifestIsSpelled(p.text, MetasOf(p.files));
    FramedHasLayout(ManifestBytes(p.text, MetasOf(p.files)), if p.text.Some? then p.text.value else [], p.files);
  }

  lemma {:induction false} FileBytesOfMore(files: seq<FileEntry>, last: FileEntry)
    ensures FileBytes(files + [last]) == FileBytes(files) + last.data
    decreases |files|
  {
    if files == [] {
      assert files + [last] == [last];
      assert FileBytes([last][1..]) == [];
    } else {
      assert (files + [last])[1..] == files[1..] + [last];
      FileBytesOfMore(files[1..], last);
    }
  }

  /** The encoder: one buffer, appended to part by part. */
  method EncodePayload(p: Payload, limits: CreationLimits) returns (r: Result<Bytes, PayloadError>)
    ensures r == Encode(p, limits)
    ensures r.Ok? ==> IsEncoding(r.value, p)
  {
    var prepared := Prepare(p.text, MetasOf(p.files), limits);
    if prepared.Err? {
      return Err(prepared.error);
    }
    var manifest := prepared.value;
    var bytes: Bytes := ToU32(|manifest|);
    bytes := bytes + manifest;
    if p.text.Some? {
      bytes := bytes + p.text.value;
    }
    ghost var head := bytes;
    for i := 0 to |p.files|
      invariant bytes == head + FileBytes(p.files[..i])
    {
      FileBytesOfMore(p.files[..i], p.files[i]);
      assert p.files[..i + 1] == p.files[..i] + [p.files[i]];
      bytes := bytes + p.files[i].data;
    }
    assert p.files[..|p.files|] == p.files;
    assert bytes == ToU32(|manifest|) + manifest + Body(p);
    EncodeIsSpelled(p, limits);
    return Ok(bytes);
  }

  // ---------------------------------------------------------------- measuring

  function Saturate(n: nat): nat { if n < U64_LIMIT then n else U64_LIMIT - 1 }

  function SumFrom(sum: nat, metas: seq<FileMeta>): nat
    decreases metas
  {
    if metas == [] then sum else SumFrom(Saturate(sum + metas[0].byteLength), metas[1..])
  }

  /** Every check and the length, from the description alone. */
  function MeasurePayload(text: Option<Bytes>, metas: seq<FileMeta>, limits: CreationLimits): Result<nat, PayloadError> {
    match Prepare(text, metas, limits)
    case Err(e) => Err(e)
    case Ok(manifest) => Ok(SumFrom(4 + |manifest| + TextLength(text), metas))
  }

  lemma {:induction false} SaturatingSum(sum: nat, files: seq<FileEntry>)
    requires sum < U64_LIMIT
    ensures SumFrom(sum, MetasOf(files)) == Saturate(sum + |FileBytes(files)|)
    decreases |files|
  {
    if files != [] {
      assert MetasOf(files)[1..] == MetasOf(files[1..]);
      SaturatingSum(Saturate(sum + |files[0].data|), files[1..]);
    }
  }

  /** Measuring the description gives the encoded length, or the same refusal, for every payload
      whose text a Rust string can hold. */
  lemma MeasureIsExact(p: Payload, limits: CreationLimits)
    requires TextLength(p.text) < U64_LIMIT / 2
    ensures MeasurePayload(p.text, MetasOf(p.files), limits)
         == match Encode(p, limits) case Err(e) => Err(e) case Ok(bytes) => Ok(Saturate(|bytes|))
  {
    var prepared := Prepare(p.text, MetasOf(p.files), limits);
    if prepared.Ok? {
      SaturatingSum(4 + |prepared.value| + TextLength(p.text), p.files);
    }
  }
}
