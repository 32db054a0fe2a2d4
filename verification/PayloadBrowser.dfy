/** The browser's own encoder and decoder of the inner payload. A JavaScript string with a lone
    surrogate is a byte string that is not UTF-8. */
module PayloadBrowser {
  import opened Basics
  import opened Text
  import opened Json
  import opened JsonFields
  import opened Framing
  import opened Protocol
  import opened Payloads
  import PayloadDecoder
  import Buffers

  function CheckFiles(metas: seq<FileMeta>): Option<PayloadError> {
    if metas == [] then None
    else if !ValidUtf8(metas[0].name) || !ValidUtf8(metas[0].mimeType) then Some(Malformed)
    else if |metas[0].name| < 1 || |metas[0].name| > MAX_NAME_BYTES then Some(BadName)
    else if |metas[0].mimeType| < 1 || |metas[0].mimeType| > MAX_MIME_TYPE_BYTES then Some(BadMimeType)
    else CheckFiles(metas[1..])
  }

  function CheckEntries(text: Option<Bytes>, metas: seq<FileMeta>): Option<PayloadError> {
    if (text.None? || |text.value| == 0) && |metas| == 0 then Some(Empty) else CheckFiles(metas)
  }

  function Prepare(text: Option<Bytes>, metas: seq<FileMeta>, limits: CreationLimits): Result<Bytes, PayloadError> {
    if text.Some? && !ValidUtf8(text.value) then Err(InvalidText)
    else if CheckEntries(text, metas).Some? then Err(CheckEntries(text, metas).value)
    else if |metas| > limits.maxFiles then Err(TooManyFiles)
    else if |ManifestBytes(text, metas)| > limits.maxManifestBytes then Err(ManifestTooLarge)
    else Ok(ManifestBytes(text, metas))
  }

  lemma {:induction false} ChecksAgree(metas: seq<FileMeta>)
    ensures (forall i :: 0 <= i < |metas| ==> NamesAreStrings(metas[i])) ==> CheckFiles(metas) == Payloads.CheckFiles(metas)
    ensures CheckFiles(metas).None? ==> Payloads.CheckFiles(metas).None? && forall i :: 0 <= i < |metas| ==> NamesAreStrings(metas[i])
    decreases |metas|
  {
    if metas != [] {
      ChecksAgree(metas[1..]);
      if forall i :: 0 <= i < |metas| ==> NamesAreStrings(metas[i]) {
        assert NamesAreStrings(metas[0]);
      }
    }
  }

  /** The browser prepares the same manifest, and refuses what is not well-formed Unicode. */
  lemma PreparesAlike(p: Payload, limits: CreationLimits)
    ensures IsStrings(p) ==> Prepare(p.text, MetasOf(p.files), limits) == Payloads.Prepare(p.text, MetasOf(p.files), limits)
    ensures Prepare(p.text, MetasOf(p.files), limits).Ok? ==> IsStrings(p)
  {
    ChecksAgree(MetasOf(p.files));
    if IsStrings(p) {
      assert forall i :: 0 <= i < |p.files| ==> NamesAreStrings(MetasOf(p.files)[i]);
    }
    if Prepare(p.text, MetasOf(p.files), limits).Ok? {
      assert forall i :: 0 <= i < |p.files| ==> MetaOf(p.files[i]) == MetasOf(p.files)[i];
    }
  }

  /** Why an ill-formed payload is refused: for its text, or for the first file with anything wrong. */
  ghost function RefusalOf(p: Payload): PayloadError
    requires !IsStrings(p)
  {
    if p.text.Some? && !ValidUtf8(p.text.value) then InvalidText
    else
      SomeFileIsBad(p);
      var i := FirstBad(MetasOf(p.files));
      if !NamesAreStrings(MetasOf(p.files)[i]) then Malformed
      else if 1 <= |p.files[i].name| <= MAX_NAME_BYTES then BadMimeType else BadName
  }

  predicate IsGood(m: FileMeta) {
    NamesAreStrings(m) && 1 <= |m.name| <= MAX_NAME_BYTES && 1 <= |m.mimeType| <= MAX_MIME_TYPE_BYTES
  }

  ghost predicate IsFirstBad(metas: seq<FileMeta>, i: nat) {
    i < |metas| && !IsGood(metas[i]) && forall k :: 0 <= k < i ==> IsGood(metas[k])
  }

  /** The first file whose name or type a manifest must not have. */
  function FirstBad(metas: seq<FileMeta>): (i: nat)
    requires exists k :: 0 <= k < |metas| && !IsGood(metas[k])
    ensures IsFirstBad(metas, i)
  {
    if !IsGood(metas[0]) then 0
    else
      assert exists k :: 0 <= k < |metas[1..]| && !IsGood(metas[1..][k]) by {
        var k :| 0 <= k < |metas| && !IsGood(metas[k]);
        assert metas[1..][k - 1] == metas[k];
      }
      FirstBad(metas[1..]) + 1
  }

  lemma SomeFileIsBad(p: Payload)
    requires !IsStrings(p) && (p.text.Some? ==> ValidUtf8(p.text.value))
    ensures exists k :: 0 <= k < |MetasOf(p.files)| && !IsGood(MetasOf(p.files)[k])
  {
    var k :| 0 <= k < |p.files| && !NamesAreStrings(MetaOf(p.files[k]));
    assert !IsGood(MetasOf(p.files)[k]);
  }

  /** The loop over the files stops at the first bad one. */
  lemma {:induction false} CheckStopsAt(metas: seq<FileMeta>, i: nat)
    requires IsFirstBad(metas, i)
    ensures CheckFiles(metas) == Some(if !NamesAreStrings(metas[i]) then Malformed
                                      else if 1 <= |metas[i].name| <= MAX_NAME_BYTES then BadMimeType else BadName)
    decreases i
  {
    if i > 0 {
      assert IsGood(metas[0]);
      CheckStopsAt(metas[1..], i - 1);
    }
  }

  lemma IllFormedIsRefused(p: Payload, limits: CreationLimits)
    ensures !IsStrings(p) ==> Prepare(p.text, MetasOf(p.files), limits) == Err(RefusalOf(p))
  {
    if !IsStrings(p) && (p.text.Some? ==> ValidUtf8(p.text.value)) {
      SomeFileIsBad(p);
      CheckStopsAt(MetasOf(p.files), FirstBad(MetasOf(p.files)));
    }
  }

  function FileLength(files: seq<FileEntry>): nat {
    if files == [] then 0 else |files[0].data| + FileLength(files[1..])
  }

  lemma {:induction false} FileLengthIsExact(files: seq<FileEntry>)
    ensures FileLength(files) == |FileBytes(files)|
    decreases |files|
  {
    if files != [] {
      FileLengthIsExact(files[1..]);
    }
  }

  /** Writes the files' data one after another, from `offset` to the end of the buffer. */
  method SetFiles(bytes: array<byte>, files: seq<FileEntry>, offset: nat)
    requires offset + |FileBytes(files)| == bytes.Length
    modifies bytes
    ensures bytes[..] == old(bytes[..offset]) + FileBytes(files)
  {
    var at := offset;
    ghost var head := bytes[..offset];
    for i := 0 to |files|
      invariant at == offset + |FileBytes(files[..i])| && at + |FileBytes(files[i..])| == bytes.Length
      invariant bytes[..at] == head + FileBytes(files[..i])
    {
      FileBytesOfMore(files[..i], files[i]);
      assert files[..i + 1] == files[..i] + [files[i]];
      assert files[i..][1..] == files[i + 1..];
      Buffers.Set(bytes, files[i].data, at);
      at := at + |files[i].data|;
    }
    assert files[..|files|] == files;
    assert bytes[..at] == bytes[..];
  }

  /** The encoder: one buffer of the measured size, and a moving offset. Of well-formed strings it
      writes exactly the bytes the Rust encoder returns, and refuses exactly what that refuses; a
      string with a lone surrogate it refuses, in the text before anything else. */
  method EncodePayload(p: Payload, limits: CreationLimits) returns (r: Result<array<byte>, PayloadError>)
    ensures r.Ok? <==> IsStrings(p) && Encode(p, limits).Ok?
    ensures r.Ok? ==> fresh(r.value) && r.value[..] == Encode(p, limits).value
    ensures IsStrings(p) && r.Err? ==> Encode(p, limits) == Err(r.error)
    ensures !IsStrings(p) ==> r == Err(RefusalOf(p))
  {
    PreparesAlike(p, limits);
    IllFormedIsRefused(p, limits);
    var prepared := Prepare(p.text, MetasOf(p.files), limits);
    if prepared.Err? {
      return Err(prepared.error);
    }
    var bytes := WriteParts(prepared.value, p);
    return Ok(bytes);
  }

  method WriteParts(manifest: Bytes, p: Payload) returns (bytes: array<byte>)
    requires |manifest| < U32_LIMIT
    ensures fresh(bytes) && bytes[..] == Frame(manifest, Body(p))
  {
    FileLengthIsExact(p.files);
    var prefix := ToU32(|manifest|);
    bytes := new byte[4 + |manifest| + TextLength(p.text) + FileLength(p.files)];
    Buffers.Set(bytes, prefix, 0);
    Buffers.Set(bytes, manifest, 4);
    assert bytes[..4 + |manifest|] == prefix + manifest;
    var offset := 4 + |manifest|;
    if p.text.Some? {
      Buffers.Set(bytes, p.text.value, offset);
      offset := offset + |p.text.value|;
    }
    ghost var text := if p.text.Some? then p.text.value else [];
    assert bytes[..offset] == prefix + manifest + text;
    SetFiles(bytes, p.files, offset);
    assert prefix + manifest + text + FileBytes(p.files) == prefix + manifest + (text + FileBytes(p.files));
  }

  // ---------------------------------------------------------------- decoding

  datatype Entry = Entry(name: Bytes, mimeType: Bytes, byteLength: Json)

  /** The shapes are checked; the lengths may still be any values. */
  datatype Manifest = Manifest(text: Option<Json>, files: seq<Entry>)

  predicate IsObject(j: Json, keys: seq<Bytes>) { j.Obj? && HasExactly(j.members, keys) }

  function Field(j: Json, key: Bytes): Json {
    if j.Obj? && Lookup(j.members, key).Some? then Lookup(j.members, key).value else Null
  }

  function EntriesOf(items: seq<Json>): Option<seq<Entry>> {
    if items == [] then Some([])
    else if !IsObject(items[0], [NAME, MIME_TYPE, BYTE_LENGTH]) || !Field(items[0], NAME).Str?
            || !Field(items[0], MIME_TYPE).Str? || EntriesOf(items[1..]).None?
    then None
    else Some([Entry(Field(items[0], NAME).text, Field(items[0], MIME_TYPE).text, Field(items[0], BYTE_LENGTH))]
              + EntriesOf(items[1..]).value)
  }

  function ManifestOf(j: Json): Result<Manifest, PayloadError> {
    if !IsObject(j, [TEXT, FILES]) || !Field(j, FILES).Arr? then Err(Malformed)
    else if !Field(j, TEXT).Null? && !IsObject(Field(j, TEXT), [BYTE_LENGTH]) then Err(Malformed)
    else if |Field(j, FILES).items| > MAX_FILES_CEILING then Err(TooManyFiles)
    else if EntriesOf(Field(j, FILES).items).None? then Err(Malformed)
    else Ok(Manifest(if Field(j, TEXT).Null? then None else Some(Field(Field(j, TEXT), BYTE_LENGTH)),
                     EntriesOf(Field(j, FILES).items).value))
  }

  predicate IsSafe(j: Json) { j.Num? && j.n <= MAX_SAFE_INTEGER }

  /** Sums of doubles: exact up to 2^53, and never rounded below it. */
  ghost predicate Doubles(round: nat -> nat) {
    forall n: nat :: if n <= MAX_SAFE_INTEGER + 1 then round(n) == n else round(n) > MAX_SAFE_INTEGER
  }

  function Total(lengths: seq<Json>, round: nat -> nat, total: nat): Option<nat>
    decreases |lengths|
  {
    if lengths == [] then Some(total)
    else if !IsSafe(lengths[0]) then None
    else Total(lengths[1..], round, round(total + lengths[0].n))
  }

  function Lengths(m: Manifest): seq<Json> {
    (if m.text.Some? then [m.text.value] else []) + seq(|m.files|, i requires 0 <= i < |m.files| => m.files[i].byteLength)
  }

  /** Views never reach past their buffer. */
  function Clamp(j: Json, body: Bytes): (n: nat)
    ensures n <= |body|
  {
    if j.Num? && j.n <= |body| then j.n else |body|
  }

  function Views(entries: seq<Entry>, body: Bytes): seq<FileEntry> {
    if entries == [] then []
    else [FileEntry(entries[0].name, entries[0].mimeType, body[..Clamp(entries[0].byteLength, body)])]
         + Views(entries[1..], body[Clamp(entries[0].byteLength, body)..])
  }

  /** The last checks: the entries, and that the manifest is the payload's canonical one. */
  function CheckCanonical(p: Payload, manifest: Bytes): Result<Payload, PayloadError> {
    if CheckEntries(p.text, MetasOf(p.files)).Some? then Err(CheckEntries(p.text, MetasOf(p.files)).value)
    else if ManifestBytes(p.text, MetasOf(p.files)) != manifest then Err(NotCanonical)
    else Ok(p)
  }

  function DecodeBody(m: Manifest, round: nat -> nat, manifest: Bytes, body: Bytes): Result<Payload, PayloadError> {
    var total := Total(Lengths(m), round, 0);
    var split := if m.text.Some? then Clamp(m.text.value, body) else 0;
    if total.None? then Err(Malformed)
    else if total.value != |body| then Err(LengthMismatch)
    else if m.text.Some? && !ValidUtf8(body[..split]) then Err(InvalidText)
    else
      var p := Payload(if m.text.Some? then Some(body[..split]) else None, Views(m.files, body[split..]));
      CheckCanonical(p, manifest)
  }

  function Decode(parse: Bytes -> Option<Json>, round: nat -> nat, bytes: Bytes): Result<Payload, PayloadError> {
    if |bytes| < 4 then Err(Truncated)
    else if FromU32(bytes[..4]) > MAX_MANIFEST_BYTES_CEILING then Err(ManifestTooLarge)
    else if |bytes| - 4 < FromU32(bytes[..4]) then Err(Truncated)
    else
      var end := 4 + FromU32(bytes[..4]);
      var j := parse(bytes[4..end]);
      if j.None? then Err(Malformed)
      else match ManifestOf(j.value)
        case Err(e) => Err(e)
        case Ok(m) => DecodeBody(m, round, bytes[4..end], bytes[end..])
  }

  // ---------------------------------------------------------------- the two clients agree

  function NumberOf(j: Json): nat { if j.Num? then j.n else 0 }

  function MetaFor(e: Entry): FileMeta { FileMeta(e.name, e.mimeType, NumberOf(e.byteLength)) }

  /** What the browser read, when every length is a safe integer, as the Rust decoder holds it. */
  function FileMetas(entries: seq<Entry>): (metas: seq<FileMeta>)
    ensures |metas| == |entries| && forall i :: 0 <= i < |entries| ==> metas[i] == MetaFor(entries[i])
  {
    seq(|entries|, i requires 0 <= i < |entries| => MetaFor(entries[i]))
  }

  predicate AllSafe(m: Manifest) {
    (m.text.Some? ==> IsSafe(m.text.value)) && forall i :: 0 <= i < |m.files| ==> IsSafe(m.files[i].byteLength)
  }

  function Plainly(m: Manifest): PayloadDecoder.Manifest
    requires AllSafe(m)
  {
    PayloadDecoder.Manifest(if m.text.Some? then Some(m.text.value.n) else None, FileMetas(m.files))
  }

  /** Rounding never makes a wrong total look like a length the buffer can have. */
  lemma {:induction false} RoundedTotal(lengths: seq<Json>, numbers: seq<nat>, round: nat -> nat, total: nat, n: nat)
    requires Doubles(round) && n <= MAX_SAFE_INTEGER && |numbers| == |lengths|
    requires forall i :: 0 <= i < |lengths| ==> lengths[i] == Num(numbers[i]) && numbers[i] <= MAX_SAFE_INTEGER
    ensures Total(lengths, round, total).Some?
    ensures Total(lengths, round, total).value == n <==> total + PayloadDecoder.Sum(numbers) == n
    decreases |lengths|
  {
    if lengths != [] {
      RoundedTotal(lengths[1..], numbers[1..], round, round(total + numbers[0]), n);
    }
  }

  lemma {:induction false} UnsafeTotal(lengths: seq<Json>, round: nat -> nat, total: nat)
    ensures Total(lengths, round, total).Some? ==> forall i :: 0 <= i < |lengths| ==> IsSafe(lengths[i])
    decreases |lengths|
  {
    if lengths != [] && IsSafe(lengths[0]) {
      UnsafeTotal(lengths[1..], round, round(total + lengths[0].n));
    }
  }

  lemma SafeLengths(m: Manifest, round: nat -> nat)
    requires Total(Lengths(m), round, 0).Some?
    ensures AllSafe(m)
  {
    UnsafeTotal(Lengths(m), round, 0);
    if m.text.Some? {
      assert Lengths(m)[0] == m.text.value;
    }
    forall i | 0 <= i < |m.files| ensures IsSafe(m.files[i].byteLength) {
      assert Lengths(m)[if m.text.Some? then i + 1 else i] == m.files[i].byteLength;
    }
  }

  lemma TotalsAgree(m: Manifest, round: nat -> nat, n: nat)
    requires AllSafe(m) && Doubles(round) && n <= MAX_SAFE_INTEGER
    ensures !PayloadDecoder.AnyTooLong(PayloadDecoder.Lengths(Plainly(m)))
    ensures Total(Lengths(m), round, 0).Some?
    ensures Total(Lengths(m), round, 0).value == n
       <==> (if m.text.Some? then m.text.value.n else 0) + PayloadDecoder.FileSum(FileMetas(m.files)) == n
  {
    var numbers := PayloadDecoder.Lengths(Plainly(m));
    forall i | 0 <= i < |Lengths(m)| ensures Lengths(m)[i] == Num(numbers[i]) && numbers[i] <= MAX_SAFE_INTEGER {
    }
    RoundedTotal(Lengths(m), numbers, round, 0, n);
    PayloadDecoder.LengthsSum(Plainly(m));
  }

  lemma {:induction false} ViewsAreSplits(entries: seq<Entry>, body: Bytes)
    requires forall i :: 0 <= i < |entries| ==> IsSafe(entries[i].byteLength)
    requires PayloadDecoder.FileSum(FileMetas(entries)) == |body|
    ensures Views(entries, body) == PayloadDecoder.SplitFiles(FileMetas(entries), body)
    decreases |entries|
  {
    if entries != [] {
      assert FileMetas(entries)[1..] == FileMetas(entries[1..]);
      ViewsAreSplits(entries[1..], body[entries[0].byteLength.n..]);
    }
  }

  lemma EndingsAgree(p: Payload, manifest: Bytes)
    requires p.text.Some? ==> ValidUtf8(p.text.value)
    ensures CheckCanonical(p, manifest).Ok? <==> IsStrings(p) && PayloadDecoder.CheckCanonical(p, manifest).Ok?
  {
    ChecksAgree(MetasOf(p.files));
    assert forall i :: 0 <= i < |p.files| ==> MetaOf(p.files[i]) == MetasOf(p.files)[i];
  }

  /** Past the parser, the browser accepts a body exactly when the Rust decoder does and the names
      are well-formed Unicode. */
  lemma BodiesAgree(m: Manifest, round: nat -> nat, manifest: Bytes, body: Bytes, p: Payload)
    requires AllSafe(m) && Doubles(round) && |body| <= MAX_SAFE_INTEGER && |m.files| <= MAX_FILES_CEILING
    ensures DecodeBody(m, round, manifest, body) == Ok(p)
       <==> IsStrings(p) && PayloadDecoder.DecodeBody(Plainly(m), manifest, body) == Ok(p)
  {
    TotalsAgree(m, round, |body|);
    if Total(Lengths(m), round, 0).value == |body| {
      FittingBodiesAgree(m, round, manifest, body, p);
    }
  }

  lemma FittingBodiesAgree(m: Manifest, round: nat -> nat, manifest: Bytes, body: Bytes, p: Payload)
    requires AllSafe(m) && |m.files| <= MAX_FILES_CEILING && !PayloadDecoder.AnyTooLong(PayloadDecoder.Lengths(Plainly(m)))
    requires Total(Lengths(m), round, 0) == Some(|body|)
    requires (if m.text.Some? then m.text.value.n else 0) + PayloadDecoder.FileSum(FileMetas(m.files)) == |body|
    ensures DecodeBody(m, round, manifest, body) == Ok(p)
       <==> IsStrings(p) && PayloadDecoder.DecodeBody(Plainly(m), manifest, body) == Ok(p)
  {
    var split := if m.text.Some? then Clamp(m.text.value, body) else 0;
    ViewsAreSplits(m.files, body[split..]);
    if m.text.None? || ValidUtf8(body[..split]) {
      var q := Payload(if m.text.Some? then Some(body[..split]) else None, Views(m.files, body[split..]));
      assert DecodeBody(m, round, manifest, body) == CheckCanonical(q, manifest);
      assert PayloadDecoder.DecodeBody(Plainly(m), manifest, body) == PayloadDecoder.CheckCanonical(q, manifest);
      EndingsAgree(q, manifest);
    }
  }

  lemma {:induction false} EntriesReadBack(metas: seq<FileMeta>)
    ensures EntriesOf(FileTrees(metas)) == Some(EntriesFor(metas))
    decreases |metas|
  {
    if metas != [] {
      var members := FileTree(metas[0]).members;
      KeysDiffer();
      LookupFinds(members, 0);
      LookupFinds(members, 1);
      LookupFinds(members, 2);
      EntriesReadBack(metas[1..]);
    }
  }

  function EntriesFor(metas: seq<FileMeta>): seq<Entry> {
    if metas == [] then []
    else [Entry(metas[0].name, metas[0].mimeType, Num(metas[0].byteLength))] + EntriesFor(metas[1..])
  }

  lemma {:induction false} EntriesForMetas(metas: seq<FileMeta>)
    requires forall i :: 0 <= i < |metas| ==> metas[i].byteLength <= MAX_SAFE_INTEGER
    ensures forall i :: 0 <= i < |EntriesFor(metas)| ==> IsSafe(EntriesFor(metas)[i].byteLength)
    ensures FileMetas(EntriesFor(metas)) == metas
    decreases |metas|
  {
    if metas != [] {
      EntriesForMetas(metas[1..]);
      assert EntriesFor(metas)[1..] == EntriesFor(metas[1..]);
      assert FileMetas(EntriesFor(metas)) == [metas[0]] + FileMetas(EntriesFor(metas)[1..]);
    }
  }

  lemma {:induction false} TreeCount(metas: seq<FileMeta>)
    ensures |FileTrees(metas)| == |metas|
    decreases |metas|
  {
    if metas != [] {
      TreeCount(metas[1..]);
    }
  }

  lemma TreeReadsBack(text: Json, files: Json, j: Json)
    requires j == Obj([Member(TEXT, text), Member(FILES, files)])
    ensures IsObject(j, [TEXT, FILES]) && Field(j, TEXT) == text && Field(j, FILES) == files
  {
    KeysDiffer();
    LookupFinds(j.members, 0);
    LookupFinds(j.members, 1);
  }

  lemma TextReadsBack(text: Option<Bytes>)
    requires text.Some?
    ensures IsObject(TextTree(text), [BYTE_LENGTH]) && Field(TextTree(text), BYTE_LENGTH) == Num(|text.value|)
  {
    LookupFinds(TextTree(text).members, 0);
  }

  lemma ManifestReadsBack(text: Option<Bytes>, metas: seq<FileMeta>)
    requires |metas| <= MAX_FILES_CEILING
    ensures ManifestOf(ManifestTree(text, metas))
         == Ok(Manifest(if text.Some? then Some(Num(|text.value|)) else None, EntriesFor(metas)))
  {
    TreeReadsBack(TextTree(text), Arr(FileTrees(metas)), ManifestTree(text, metas));
    if text.Some? {
      TextReadsBack(text);
    }
    TreeCount(metas);
    EntriesReadBack(metas);
  }

  lemma EncodedDecodes(parse: Bytes -> Option<Json>, round: nat -> nat, p: Payload)
    requires ReadsManifests(parse) && Doubles(round) && IsStrings(p) && LengthsAreSafe(p)
    requires Encode(p, CEILINGS).Ok? && |Encode(p, CEILINGS).value| <= MAX_SAFE_INTEGER
    ensures Decode(parse, round, Encode(p, CEILINGS).value) == Ok(p)
  {
    var metas, text := MetasOf(p.files), p.text;
    var manifest := ManifestBytes(text, metas);
    UnframeFramed(manifest, Body(p), MAX_MANIFEST_BYTES_CEILING);
    assert IsDeclarable(text, metas);
    ManifestReadsBack(text, metas);
    EntriesForMetas(metas);
    var m := Manifest(if text.Some? then Some(Num(|text.value|)) else None, EntriesFor(metas));
    PayloadDecoder.BodyReadsBack(p);
    assert Plainly(m) == PayloadDecoder.Manifest(if text.Some? then Some(|text.value|) else None, metas);
    BodiesAgree(m, round, manifest, Body(p), p);
  }

  lemma {:induction false} EntryCount(items: seq<Json>)
    requires EntriesOf(items).Some?
    ensures |EntriesOf(items).value| == |items|
    decreases |items|
  {
    if items != [] {
      EntryCount(items[1..]);
    }
  }

  /** The browser's decoder accepts exactly the image of the encoder too, whichever parser it uses
      and however its doubles round, for buffers of a length a typed array can have. */
  lemma DecoderAcceptsTheImage(parse: Bytes -> Option<Json>, round: nat -> nat, bytes: Bytes, p: Payload)
    requires ReadsManifests(parse) && Doubles(round) && |bytes| <= MAX_SAFE_INTEGER
    ensures Decode(parse, round, bytes) == Ok(p) <==> IsStrings(p) && LengthsAreSafe(p) && Encode(p, CEILINGS) == Ok(bytes)
  {
    if IsStrings(p) && LengthsAreSafe(p) && Encode(p, CEILINGS) == Ok(bytes) {
      EncodedDecodes(parse, round, p);
    }
    if Decode(parse, round, bytes) == Ok(p) {
      var (manifest, body) := Unframe(bytes, MAX_MANIFEST_BYTES_CEILING).value;
      FrameUnframed(bytes, MAX_MANIFEST_BYTES_CEILING);
      var j := parse(manifest).value;
      EntryCount(Field(j, FILES).items);
      var m := ManifestOf(j).value;
      SafeLengths(m, round);
      BodiesAgree(m, round, manifest, body, p);
      DecodedIsEncoded(m, manifest, body, p);
    }
  }

  lemma DecodedIsEncoded(m: Manifest, manifest: Bytes, body: Bytes, p: Payload)
    requires |manifest| <= MAX_MANIFEST_BYTES_CEILING && AllSafe(m) && IsStrings(p)
    requires PayloadDecoder.DecodeBody(Plainly(m), manifest, body) == Ok(p)
    ensures LengthsAreSafe(p) && Encode(p, CEILINGS) == Ok(Frame(manifest, body))
  {
    var metas := FileMetas(m.files);
    forall i | 0 <= i < |metas| ensures NamesAreStrings(metas[i]) {
      PayloadDecoder.SplitKeepsDescriptions(metas, body[if m.text.Some? then m.text.value.n else 0..], i);
      assert NamesAreStrings(MetaOf(p.files[i]));
    }
    PayloadDecoder.DecodedBodyIsEncoded(Plainly(m), manifest, body, p);
  }

  /** Both clients read the same payload from the same bytes, or both refuse them. */
  lemma ClientsAgreeOnPayloads(
    rustParse: Bytes -> Option<Json>, jsParse: Bytes -> Option<Json>, round: nat -> nat, bytes: Bytes)
    requires ReadsManifests(rustParse) && ReadsManifests(jsParse) && Doubles(round) && |bytes| <= MAX_SAFE_INTEGER
    ensures var (r, j) := (PayloadDecoder.Decode(rustParse, bytes), Decode(jsParse, round, bytes));
            (r.Ok? <==> j.Ok?) && (r.Ok? ==> r == j)
  {
    var r, j := PayloadDecoder.Decode(rustParse, bytes), Decode(jsParse, round, bytes);
    if r.Ok? {
      PayloadDecoder.DecoderAcceptsTheImage(rustParse, bytes, r.value);
      DecoderAcceptsTheImage(jsParse, round, bytes, r.value);
    }
    if j.Ok? {
      PayloadDecoder.DecoderAcceptsTheImage(rustParse, bytes, j.value);
      DecoderAcceptsTheImage(jsParse, round, bytes, j.value);
    }
  }
}
