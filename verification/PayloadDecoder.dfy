/** The Rust decoder of the inner payload. */
module PayloadDecoder {
  import opened Basics
  import opened Text
  import opened Json
  import opened JsonFields
  import opened Framing
  import opened Protocol
  import opened Payloads

  datatype Manifest = Manifest(text: Option<nat>, files: seq<FileMeta>)

  // ---------------------------------------------------------------- the derived deserializers

  /** A struct's fields: from an object with no unknown and no repeated key, or from an array. */
  function StructFields(j: Json, keys: seq<Bytes>): (fields: Option<seq<Option<Json>>>)
    ensures fields.Some? ==> |fields.value| == |keys|
  {
    match j
    case Obj(members) =>
      if DistinctKeys(members) && forall i :: 0 <= i < |members| ==> members[i].key in keys
      then Some(seq(|keys|, i requires 0 <= i < |keys| => Lookup(members, keys[i])))
      else None
    case Arr(items) =>
      if |items| == |keys| then Some(seq(|keys|, i requires 0 <= i < |keys| => Some(items[i]))) else None
    case _ => None
  }

  function StringOf(field: Option<Json>): Option<Bytes> {
    match field
    case Some(Str(text)) => if ValidUtf8(text) then Some(text) else None
    case _ => None
  }

  function U64Of(field: Option<Json>): Option<nat> {
    match field
    case Some(Num(n)) => if n < U64_LIMIT then Some(n) else None
    case _ => None
  }

  function FileOf(j: Json): Option<FileMeta> {
    match StructFields(j, [NAME, MIME_TYPE, BYTE_LENGTH])
    case None => None
    case Some(f) =>
      if StringOf(f[0]).Some? && StringOf(f[1]).Some? && U64Of(f[2]).Some?
      then Some(FileMeta(StringOf(f[0]).value, StringOf(f[1]).value, U64Of(f[2]).value))
      else None
  }

  function FilesOf(items: seq<Json>): Option<seq<FileMeta>> {
    if items == [] then Some([])
    else if FileOf(items[0]).None? || FilesOf(items[1..]).None? then None
    else Some([FileOf(items[0]).value] + FilesOf(items[1..]).value)
  }

  /** An optional struct: a missing field and null are both none. */
  function TextOf(field: Option<Json>): Option<Option<nat>> {
    if field.None? || field.value.Null? then Some(None)
    else match StructFields(field.value, [BYTE_LENGTH])
      case None => None
      case Some(f) => if U64Of(f[0]).None? then None else Some(Some(U64Of(f[0]).value))
  }

  function ManifestOf(j: Json): Option<Manifest> {
    match StructFields(j, [TEXT, FILES])
    case None => None
    case Some(f) =>
      if TextOf(f[0]).None? || f[1].None? || !f[1].value.Arr? || FilesOf(f[1].value.items).None? then None
      else Some(Manifest(TextOf(f[0]).value, FilesOf(f[1].value.items).value))
  }

  // ---------------------------------------------------------------- decoding

  function FileLengths(metas: seq<FileMeta>): (lengths: seq<nat>)
    ensures |lengths| == |metas| && forall i :: 0 <= i < |metas| ==> lengths[i] == metas[i].byteLength
  {
    seq(|metas|, i requires 0 <= i < |metas| => metas[i].byteLength)
  }

  /** The declared lengths, the text's first. */
  function Lengths(m: Manifest): seq<nat> {
    (if m.text.Some? then [m.text.value] else []) + FileLengths(m.files)
  }

  function Sum(lengths: seq<nat>): nat {
    if lengths == [] then 0 else lengths[0] + Sum(lengths[1..])
  }

  predicate AnyTooLong(lengths: seq<nat>) { exists i :: 0 <= i < |lengths| && lengths[i] > MAX_SAFE_INTEGER }

  function FileSum(metas: seq<FileMeta>): nat {
    if metas == [] then 0 else metas[0].byteLength + FileSum(metas[1..])
  }

  /** The body cut at the declared lengths. */
  function SplitFiles(metas: seq<FileMeta>, body: Bytes): (files: seq<FileEntry>)
    requires FileSum(metas) == |body|
    ensures |files| == |metas|
  {
    if metas == [] then []
    else [FileEntry(metas[0].name, metas[0].mimeType, body[..metas[0].byteLength])]
         + SplitFiles(metas[1..], body[metas[0].byteLength..])
  }

  /** The last checks: the entries, and that the manifest is the payload's canonical one. */
  function CheckCanonical(p: Payload, manifest: Bytes): Result<Payload, PayloadError> {
    if CheckEntries(p.text, MetasOf(p.files)).Some? then Err(CheckEntries(p.text, MetasOf(p.files)).value)
    else if ManifestBytes(p.text, MetasOf(p.files)) != manifest then Err(NotCanonical)
    else Ok(p)
  }

  function DecodeBody(m: Manifest, manifest: Bytes, body: Bytes): Result<Payload, PayloadError> {
    var split := if m.text.Some? then m.text.value else 0;
    if |m.files| > MAX_FILES_CEILING then Err(TooManyFiles)
    else if AnyTooLong(Lengths(m)) then Err(Malformed)
    else if split + FileSum(m.files) != |body| then Err(LengthMismatch)
    else if m.text.Some? && !ValidUtf8(body[..split]) then Err(InvalidText)
    else
      var p := Payload(if m.text.Some? then Some(body[..split]) else None, SplitFiles(m.files, body[split..]));
      CheckCanonical(p, manifest)
  }

  /** Decoding over any parser of JSON text. */
  function Decode(parse: Bytes -> Option<Json>, bytes: Bytes): Result<Payload, PayloadError> {
    match Unframe(bytes, MAX_MANIFEST_BYTES_CEILING)
    case Err(TooShort) => Err(Truncated)
    case Err(TooLarge) => Err(ManifestTooLarge)
    case Ok((manifest, body)) =>
      if parse(manifest).None? || ManifestOf(parse(manifest).value).None? then Err(Malformed)
      else DecodeBody(ManifestOf(parse(manifest).value).value, manifest, body)
  }

  lemma {:induction false} SumOfMore(lengths: seq<nat>, last: nat)
    ensures Sum(lengths + [last]) == Sum(lengths) + last
    decreases |lengths|
  {
    if lengths == [] {
      assert Sum([last][1..]) == 0;
    } else {
      assert (lengths + [last])[1..] == lengths[1..] + [last];
      SumOfMore(lengths[1..], last);
    }
  }

  lemma {:induction false} SumIsFileSum(metas: seq<FileMeta>)
    ensures Sum(FileLengths(metas)) == FileSum(metas)
    decreases |metas|
  {
    if metas != [] {
      SumIsFileSum(metas[1..]);
      assert FileLengths(metas)[1..] == FileLengths(metas[1..]);
    }
  }

  lemma LengthsSum(m: Manifest)
    ensures Sum(Lengths(m)) == (if m.text.Some? then m.text.value else 0) + FileSum(m.files)
  {
    SumIsFileSum(m.files);
    if m.text.Some? {
      assert Lengths(m)[1..] == FileLengths(m.files);
    } else {
      assert Lengths(m) == FileLengths(m.files);
    }
  }

  /** The first length above the largest declarable one is refused before it is added, so the
      64-bit total never overflows: 257 lengths of at most 2^53 - 1 stay below 2^62. */
  method AddLengths(lengths: seq<nat>) returns (total: Option<nat>)
    requires |lengths| <= MAX_FILES_CEILING + 1
    ensures total == if AnyTooLong(lengths) then None else Some(Sum(lengths))
    ensures total.Some? ==> total.value < U64_LIMIT
  {
    var sum: nat := 0;
    for i := 0 to |lengths|
      invariant forall k :: 0 <= k < i ==> lengths[k] <= MAX_SAFE_INTEGER
      invariant sum == Sum(lengths[..i]) && sum <= i * MAX_SAFE_INTEGER
    {
      if lengths[i] > MAX_SAFE_INTEGER {
        return None;
      }
      SumOfMore(lengths[..i], lengths[i]);
      assert lengths[..i + 1] == lengths[..i] + [lengths[i]];
      sum := sum + lengths[i];
    }
    assert lengths[..|lengths|] == lengths;
    return Some(sum);
  }

  /** Cuts the files off the front of the body, one by one. */
  method TakeFiles(metas: seq<FileMeta>, body: Bytes) returns (files: seq<FileEntry>)
    requires FileSum(metas) == |body|
    ensures files == SplitFiles(metas, body)
  {
    files := [];
    var rest := body;
    for i := 0 to |metas|
      invariant FileSum(metas[i..]) == |rest|
      invariant files + SplitFiles(metas[i..], rest) == SplitFiles(metas, body)
    {
      assert metas[i..][1..] == metas[i + 1..];
      ghost var taken := files;
      var entry := FileEntry(metas[i].name, metas[i].mimeType, rest[..metas[i].byteLength]);
      assert taken + ([entry] + SplitFiles(metas[i + 1..], rest[metas[i].byteLength..]))
          == taken + [entry] + SplitFiles(metas[i + 1..], rest[metas[i].byteLength..]);
      files := files + [entry];
      rest := rest[metas[i].byteLength..];
    }
  }

  method DecodePayload(parse: Bytes -> Option<Json>, bytes: Bytes) returns (r: Result<Payload, PayloadError>)
    ensures r == Decode(parse, bytes)
  {
    if |bytes| < 4 {
      return Err(Truncated);
    }
    var manifestLen := FromU32(bytes[..4]);
    if manifestLen > MAX_MANIFEST_BYTES_CEILING {
      return Err(ManifestTooLarge);
    }
    if |bytes| - 4 < manifestLen {
      return Err(Truncated);
    }
    var manifestBytes, body := bytes[4..4 + manifestLen], bytes[4 + manifestLen..];
    var parsed := parse(manifestBytes);
    if parsed.None? || ManifestOf(parsed.value).None? {
      return Err(Malformed);
    }
    r := DecodeManifest(ManifestOf(parsed.value).value, manifestBytes, body);
  }

  method DecodeManifest(manifest: Manifest, manifestBytes: Bytes, body: Bytes) returns (r: Result<Payload, PayloadError>)
    ensures r == DecodeBody(manifest, manifestBytes, body)
  {
    if |manifest.files| > MAX_FILES_CEILING {
      return Err(TooManyFiles);
    }
    var total := AddLengths(Lengths(manifest));
    if total.None? {
      return Err(Malformed);
    }
    LengthsSum(manifest);
    if total.value != |body| {
      return Err(LengthMismatch);
    }
    var text, rest := None, body;
    if manifest.text.Some? {
      text := Some(body[..manifest.text.value]);
      rest := body[manifest.text.value..];
      if !ValidUtf8(text.value) {
        return Err(InvalidText);
      }
    }
    var files := TakeFiles(manifest.files, rest);
    var metas := MetasOf(files);
    var refused := CheckEntries(text, metas);
    if refused.Some? {
      return Err(refused.value);
    }
    if ManifestBytes(text, metas) != manifestBytes {
      return Err(NotCanonical);
    }
    return Ok(Payload(text, files));
  }

  // ---------------------------------------------------------------- the accepted language

  lemma {:induction false} SplitUndoesJoin(files: seq<FileEntry>)
    ensures FileSum(MetasOf(files)) == |FileBytes(files)| && SplitFiles(MetasOf(files), FileBytes(files)) == files
    decreases |files|
  {
    if files != [] {
      SplitUndoesJoin(files[1..]);
      assert MetasOf(files)[1..] == MetasOf(files[1..]);
      var body := FileBytes(files);
      assert body[..|files[0].data|] == files[0].data && body[|files[0].data|..] == FileBytes(files[1..]);
    }
  }

  lemma {:induction false} JoinUndoesSplit(metas: seq<FileMeta>, body: Bytes)
    requires FileSum(metas) == |body|
    ensures FileBytes(SplitFiles(metas, body)) == body
    decreases |metas|
  {
    if metas != [] {
      var n, files := metas[0].byteLength, SplitFiles(metas, body);
      JoinUndoesSplit(metas[1..], body[n..]);
      assert files[1..] == SplitFiles(metas[1..], body[n..]);
      assert body == body[..n] + body[n..];
    }
  }

  lemma {:induction false} SplitKeepsDescriptions(metas: seq<FileMeta>, body: Bytes, i: nat)
    requires FileSum(metas) == |body| && i < |metas|
    ensures MetaOf(SplitFiles(metas, body)[i]) == metas[i]
    decreases |metas|
  {
    if i > 0 {
      SplitKeepsDescriptions(metas[1..], body[metas[0].byteLength..], i - 1);
    }
  }

  lemma FileReadsBack(m: FileMeta)
    requires NamesAreStrings(m) && m.byteLength < U64_LIMIT
    ensures FileOf(FileTree(m)) == Some(m)
  {
    var members := FileTree(m).members;
    KeysDiffer();
    LookupFinds(members, 0);
    LookupFinds(members, 1);
    LookupFinds(members, 2);
  }

  lemma {:induction false} FilesReadBack(metas: seq<FileMeta>)
    requires forall i :: 0 <= i < |metas| ==> NamesAreStrings(metas[i]) && metas[i].byteLength < U64_LIMIT
    ensures FilesOf(FileTrees(metas)) == Some(metas)
    decreases |metas|
  {
    if metas != [] {
      FileReadsBack(metas[0]);
      FilesReadBack(metas[1..]);
      assert FileTrees(metas)[1..] == FileTrees(metas[1..]);
      assert metas == [metas[0]] + metas[1..];
    }
  }

  lemma TextReadsBack(text: Option<Bytes>)
    requires TextLength(text) < U64_LIMIT
    ensures TextOf(Some(TextTree(text))) == Some(if text.Some? then Some(|text.value|) else None)
  {
    if text.Some? {
      LookupFinds(TextTree(text).members, 0);
    }
  }

  lemma ManifestReadsBack(text: Option<Bytes>, metas: seq<FileMeta>)
    requires TextLength(text) < U64_LIMIT
    requires forall i :: 0 <= i < |metas| ==> NamesAreStrings(metas[i]) && metas[i].byteLength < U64_LIMIT
    ensures ManifestOf(ManifestTree(text, metas)) == Some(Manifest(if text.Some? then Some(|text.value|) else None, metas))
  {
    var members := ManifestTree(text, metas).members;
    KeysDiffer();
    LookupFinds(members, 0);
    LookupFinds(members, 1);
    TextReadsBack(text);
    FilesReadBack(metas);
  }

  lemma BodyReadsBack(p: Payload)
    requires IsStrings(p) && LengthsAreSafe(p) && Encode(p, CEILINGS).Ok?
    ensures DecodeBody(Manifest(if p.text.Some? then Some(|p.text.value|) else None, MetasOf(p.files)),
                       ManifestBytes(p.text, MetasOf(p.files)), Body(p)) == Ok(p)
  {
    var split := TextLength(p.text);
    var m := Manifest(if p.text.Some? then Some(|p.text.value|) else None, MetasOf(p.files));
    SplitUndoesJoin(p.files);
    assert Body(p)[split..] == FileBytes(p.files);
    assert p.text.Some? ==> Body(p)[..split] == p.text.value;
    assert !AnyTooLong(Lengths(m));
  }

  lemma EncodedDecodes(parse: Bytes -> Option<Json>, p: Payload)
    requires ReadsManifests(parse) && IsStrings(p) && LengthsAreSafe(p) && Encode(p, CEILINGS).Ok?
    ensures Decode(parse, Encode(p, CEILINGS).value) == Ok(p)
  {
    var metas := MetasOf(p.files);
    UnframeFramed(ManifestBytes(p.text, metas), Body(p), MAX_MANIFEST_BYTES_CEILING);
    assert IsDeclarable(p.text, metas);
    ManifestReadsBack(p.text, metas);
    BodyReadsBack(p);
  }

  /** What was decoded has the manifest's descriptions, and its body is the one given. */
  lemma DecodedPartsAreGiven(m: Manifest, manifest: Bytes, body: Bytes, p: Payload)
    requires DecodeBody(m, manifest, body) == Ok(p)
    ensures MetasOf(p.files) == m.files && Body(p) == body
  {
    var split := TextLength(p.text);
    JoinUndoesSplit(m.files, body[split..]);
    forall i | 0 <= i < |m.files| ensures MetasOf(p.files)[i] == m.files[i] {
      SplitKeepsDescriptions(m.files, body[split..], i);
    }
    assert body == body[..split] + body[split..];
  }

  lemma DecodedLengthsAreSafe(m: Manifest, manifest: Bytes, body: Bytes, p: Payload)
    requires DecodeBody(m, manifest, body) == Ok(p) && MetasOf(p.files) == m.files
    ensures LengthsAreSafe(p)
  {
    forall i | 0 <= i < |p.files| ensures |p.files[i].data| <= MAX_SAFE_INTEGER {
      assert MetasOf(p.files)[i] == m.files[i];
      var lengths, at := Lengths(m), if m.text.Some? then i + 1 else i;
      assert lengths[at] == m.files[i].byteLength;
    }
    if m.text.Some? {
      assert Lengths(m)[0] == m.text.value;
    }
  }

  lemma DecodedBodyIsEncoded(m: Manifest, manifest: Bytes, body: Bytes, p: Payload)
    requires |manifest| <= MAX_MANIFEST_BYTES_CEILING && DecodeBody(m, manifest, body) == Ok(p)
    requires forall i :: 0 <= i < |m.files| ==> NamesAreStrings(m.files[i])
    ensures IsStrings(p) && LengthsAreSafe(p) && Encode(p, CEILINGS) == Ok(Frame(manifest, body))
  {
    DecodedPartsAreGiven(m, manifest, body, p);
    DecodedLengthsAreSafe(m, manifest, body, p);
    forall i | 0 <= i < |p.files| ensures NamesAreStrings(MetaOf(p.files[i])) {
      assert MetasOf(p.files)[i] == m.files[i];
    }
  }

  lemma {:induction false} FilesOfAreStrings(items: seq<Json>)
    requires FilesOf(items).Some?
    ensures forall i :: 0 <= i < |FilesOf(items).value| ==> NamesAreStrings(FilesOf(items).value[i])
    decreases |items|
  {
    if items != [] {
      FilesOfAreStrings(items[1..]);
    }
  }

  /** The decoder accepts exactly the image of the encoder under the ceilings, whichever parser
      it uses, for payloads whose parts a manifest may declare; and it returns what was encoded. */
  lemma DecoderAcceptsTheImage(parse: Bytes -> Option<Json>, bytes: Bytes, p: Payload)
    requires ReadsManifests(parse)
    ensures Decode(parse, bytes) == Ok(p) <==> IsStrings(p) && LengthsAreSafe(p) && Encode(p, CEILINGS) == Ok(bytes)
  {
    if IsStrings(p) && LengthsAreSafe(p) && Encode(p, CEILINGS) == Ok(bytes) {
      EncodedDecodes(parse, p);
    }
    if Decode(parse, bytes) == Ok(p) {
      var (manifest, body) := Unframe(bytes, MAX_MANIFEST_BYTES_CEILING).value;
      FrameUnframed(bytes, MAX_MANIFEST_BYTES_CEILING);
      var j := parse(manifest).value;
      FilesOfAreStrings(StructFields(j, [TEXT, FILES]).value[1].value.items);
      DecodedBodyIsEncoded(ManifestOf(j).value, manifest, body, p);
    }
  }

  /** Everything a decodable payload has to be, in numbers: at most 256 files and a manifest of at most
      262144 bytes, names and types of 1 to 255 bytes, strings that are UTF-8, lengths of at most
      2^53 - 1, and something besides an empty text. */
  ghost predicate IsDecodable(p: Payload) {
    && |p.files| <= 256 && |SpelledManifest(p.text, MetasOf(p.files))| <= 262144
    && (p.text.Some? ==> ValidUtf8(p.text.value) && |p.text.value| <= 9007199254740991)
    && (forall i :: 0 <= i < |p.files| ==> IsDecodableFile(p.files[i]))
    && (p.files != [] || (p.text.Some? && p.text.value != []))
  }

  predicate IsDecodableFile(f: FileEntry) {
    && 1 <= |f.name| <= 255 && ValidUtf8(f.name) && 1 <= |f.mimeType| <= 255 && ValidUtf8(f.mimeType)
    && |f.data| <= 9007199254740991
  }

  lemma DecodableIsEncoded(p: Payload)
    ensures IsDecodable(p) <==> IsStrings(p) && LengthsAreSafe(p) && Encode(p, CEILINGS).Ok?
  {
    EncodeRefuses(p, CEILINGS);
    if IsDecodable(p) {
      forall f | f in p.files ensures 1 <= |f.name| <= 255 && 1 <= |f.mimeType| <= 255 {
        var i :| 0 <= i < |p.files| && p.files[i] == f;
        assert IsDecodableFile(p.files[i]);
      }
      forall i | 0 <= i < |p.files| ensures NamesAreStrings(MetaOf(p.files[i])) && |p.files[i].data| <= MAX_SAFE_INTEGER {
        assert IsDecodableFile(p.files[i]);
      }
    }
    if IsStrings(p) && LengthsAreSafe(p) && Encode(p, CEILINGS).Ok? {
      forall i | 0 <= i < |p.files| ensures IsDecodableFile(p.files[i]) {
        assert p.files[i] in p.files && NamesAreStrings(MetaOf(p.files[i]));
      }
    }
  }

  /** The bytes the decoder accepts, written out: exactly those with the layout of a decodable payload,
      around its one canonical manifest. */
  lemma DecoderAcceptsTheText(parse: Bytes -> Option<Json>, bytes: Bytes, p: Payload)
    requires ReadsManifests(parse)
    ensures Decode(parse, bytes) == Ok(p) <==> IsDecodable(p) && IsEncoding(bytes, p)
  {
    DecoderAcceptsTheImage(parse, bytes, p);
    DecodableIsEncoded(p);
    if Encode(p, CEILINGS).Ok? {
      EncodeIsSpelled(p, CEILINGS);
      if IsEncoding(bytes, p) {
        EncodingIsUnique(bytes, Encode(p, CEILINGS).value, p);
      }
    }
  }
}
