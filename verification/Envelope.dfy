/** The outer envelope: the blob the server stores. Written twice, as the two clients write it,
    over any JSON parser and any base64 decoder that undo the canonical encoders. */
module Envelope {
  import opened Basics
  import opened Text
  import opened Decimals
  import opened Json
  import opened JsonFields
  import opened JsonSpelling
  import opened Framing
  import opened Protocol
  import Base64

  datatype OuterHeader = OuterHeader(wrappedContentKey: Bytes, kdfSalt: Bytes, iv: Bytes, kdfIterations: nat)

  datatype OuterEnvelope = OuterEnvelope(header: OuterHeader, ciphertext: Bytes)

  datatype HeaderError =
    | Truncated | HeaderTooLarge | Malformed | NotCanonical
    | UnsupportedVersion | UnsupportedAlgorithm | KdfIterationsOutOfRange | BadFieldSize

  /** The fixed sizes the header's arrays have. */
  predicate Shaped(h: OuterHeader) {
    |h.wrappedContentKey| == WRAPPED_KEY_LEN && |h.kdfSalt| == KDF_SALT_LEN && |h.iv| == IV_LEN
  }

  predicate IsAcceptedKdfIterations(n: nat) { KDF_ITERATIONS_MIN <= n <= KDF_ITERATIONS_MAX }

  const HEADER_KEYS := [
    Ascii("wrappedContentKey"), Ascii("kdfSalt"), Ascii("iv"), Ascii("kdfAlgorithm"), Ascii("kdfIterations"),
    Ascii("encryptionAlgorithm"), Ascii("wrappingAlgorithm"), Ascii("schemaVersion")]

  function HeaderValues(h: OuterHeader): seq<Json> {
    [Str(Base64.Encode(h.wrappedContentKey)), Str(Base64.Encode(h.kdfSalt)), Str(Base64.Encode(h.iv)),
     Str(KDF_ALGORITHM), Num(h.kdfIterations), Str(ENCRYPTION_ALGORITHM), Str(WRAPPING_ALGORITHM), Num(PROTOCOL_VERSION)]
  }

  function HeaderMembers(h: OuterHeader): (m: seq<Member>)
    ensures |m| == 8 && forall i :: 0 <= i < 8 ==> m[i] == Member(HEADER_KEYS[i], HeaderValues(h)[i])
  {
    seq(8, i requires 0 <= i < 8 => Member(HEADER_KEYS[i], HeaderValues(h)[i]))
  }

  /** The canonical header. */
  function ToJson(h: OuterHeader): Bytes { Print(Obj(HeaderMembers(h))) }

  function EncodeOuter(h: OuterHeader, ciphertext: Bytes): Bytes
    requires |ToJson(h)| < U32_LIMIT
  {
    Frame(ToJson(h), ciphertext)
  }

  /** The blob: its header's length in four bytes, the header's text, and the ciphertext. */
  predicate IsBlob(blob: Bytes, h: OuterHeader, ciphertext: Bytes) {
    var n := |SpelledHeader(h)|;
    && |blob| == 4 + n + |ciphertext| && IsBigEndian(blob[..4], n)
    && blob[4..4 + n] == SpelledHeader(h) && blob[4 + n..] == ciphertext
  }

  lemma BlobIsSpelled(h: OuterHeader, ciphertext: Bytes)
    requires |ToJson(h)| < U32_LIMIT
    ensures IsBlob(EncodeOuter(h, ciphertext), h, ciphertext)
  {
    HeaderIsSpelled(h);
    FrameIsLaidOut(ToJson(h), ciphertext);
  }

  /** The exact size of a sealed blob, from the payload's length. */
  function BlobLen(payloadLen: nat, kdfIterations: nat): nat {
    var zeros := n requires n >= 0 => seq(n, _ => 0 as byte);
    var header := OuterHeader(zeros(WRAPPED_KEY_LEN), zeros(KDF_SALT_LEN), zeros(IV_LEN), kdfIterations);
    4 + |ToJson(header)| + payloadLen + TAG_LEN
  }

  // ---------------------------------------------------------------- the Rust decoder

  datatype Fields = Fields(
    wrappedContentKey: Bytes, kdfSalt: Bytes, iv: Bytes, kdfAlgorithm: Bytes,
    kdfIterations: nat, encryptionAlgorithm: Bytes, wrappingAlgorithm: Bytes)

  function StringAt(members: seq<Member>, i: nat): Option<Bytes>
    requires i < 8
  {
    match Lookup(members, HEADER_KEYS[i])
    case Some(Str(text)) => Some(text)
    case _ => None
  }

  function NumberAt(members: seq<Member>, i: nat): Option<nat>
    requires i < 8
  {
    match Lookup(members, HEADER_KEYS[i])
    case Some(Num(n)) => if n < U64_LIMIT then Some(n) else None
    case _ => None
  }

  /** A derived deserializer: every field once, no other, each of its type. */
  function StructOf(members: seq<Member>): Option<Fields> {
    var (w, s, v) := (StringAt(members, 0), StringAt(members, 1), StringAt(members, 2));
    var (ka, ki) := (StringAt(members, 3), NumberAt(members, 4));
    var (ea, wa) := (StringAt(members, 5), StringAt(members, 6));
    if HasExactly(members, HEADER_KEYS) && w.Some? && s.Some? && v.Some? && ka.Some? && ki.Some? && ea.Some? && wa.Some?
       && NumberAt(members, 7).Some?
    then Some(Fields(w.value, s.value, v.value, ka.value, ki.value, ea.value, wa.value))
    else None
  }

  function DecodeField(decode: Bytes -> Option<Bytes>, text: Bytes, length: nat): Result<Bytes, HeaderError> {
    match decode(text)
    case None => Err(BadFieldSize)
    case Some(b) => if |b| == length then Ok(b) else Err(BadFieldSize)
  }

  function HeaderOf(f: Fields, decode: Bytes -> Option<Bytes>): Result<OuterHeader, HeaderError> {
    if f.kdfAlgorithm != KDF_ALGORITHM || f.encryptionAlgorithm != ENCRYPTION_ALGORITHM || f.wrappingAlgorithm != WRAPPING_ALGORITHM
    then Err(UnsupportedAlgorithm)
    else if f.kdfIterations >= U32_LIMIT || !IsAcceptedKdfIterations(f.kdfIterations) then Err(KdfIterationsOutOfRange)
    else
      var key := DecodeField(decode, f.wrappedContentKey, WRAPPED_KEY_LEN);
      var salt := DecodeField(decode, f.kdfSalt, KDF_SALT_LEN);
      var iv := DecodeField(decode, f.iv, IV_LEN);
      if key.Err? then Err(key.error) else if salt.Err? then Err(salt.error) else if iv.Err? then Err(iv.error)
      else Ok(OuterHeader(key.value, salt.value, iv.value, f.kdfIterations))
  }

  /** The header an object spells: the version is read on its own first, so that a future one is
      unsupported rather than malformed. */
  function FromMembers(members: seq<Member>, decode: Bytes -> Option<Bytes>): Result<OuterHeader, HeaderError> {
    var version := Lookup(members, HEADER_KEYS[7]);
    if version.None? then Err(Malformed)
    else if version.value != Num(PROTOCOL_VERSION) then Err(UnsupportedVersion)
    else if StructOf(members).None? then Err(Malformed)
    else HeaderOf(StructOf(members).value, decode)
  }

  /** The header, from its text, which must be the header's canonical form. */
  function ReadHeader(parse: Bytes -> Option<Json>, decode: Bytes -> Option<Bytes>, text: Bytes): Result<OuterHeader, HeaderError> {
    var loose := parse(text);
    if loose.None? || !loose.value.Obj? then Err(Malformed)
    else match FromMembers(loose.value.members, decode)
      case Err(e) => Err(e)
      case Ok(header) => if ToJson(header) != text then Err(NotCanonical) else Ok(header)
  }

  function DecodeOuter(parse: Bytes -> Option<Json>, decode: Bytes -> Option<Bytes>, blob: Bytes): Result<OuterEnvelope, HeaderError> {
    match Unframe(blob, MAX_OUTER_HEADER_BYTES)
    case Err(TooShort) => Err(Truncated)
    case Err(TooLarge) => Err(HeaderTooLarge)
    case Ok((text, ciphertext)) =>
      match ReadHeader(parse, decode, text)
      case Err(e) => Err(e)
      case Ok(header) =>
        if |ciphertext| < TAG_LEN then Err(Truncated) else Ok(OuterEnvelope(header, ciphertext))
  }

  // ---------------------------------------------------------------- the browser's decoder

  function At(members: seq<Member>, i: nat): Json
    requires i < 8
  {
    match Lookup(members, HEADER_KEYS[i])
    case Some(value) => value
    case None => Null
  }

  /** The checks between parsing and decoding the fields, in the browser's order. */
  function JsRefuses(members: seq<Member>): Option<HeaderError> {
    if Lookup(members, HEADER_KEYS[7]).None? then Some(Malformed)
    else if At(members, 7) != Num(PROTOCOL_VERSION) then Some(UnsupportedVersion)
    else if |members| != 8 || exists i :: 0 <= i < 8 && Lookup(members, HEADER_KEYS[i]).None? then Some(Malformed)
    else if exists i :: 0 <= i < 8 && i != 4 && i != 7 && !At(members, i).Str? then Some(Malformed)
    else if !At(members, 4).Num? || At(members, 4).n > MAX_SAFE_INTEGER then Some(Malformed)
    else if At(members, 3) != Str(KDF_ALGORITHM) || At(members, 5) != Str(ENCRYPTION_ALGORITHM)
            || At(members, 6) != Str(WRAPPING_ALGORITHM)
    then Some(UnsupportedAlgorithm)
    else if !IsAcceptedKdfIterations(At(members, 4).n) then Some(KdfIterationsOutOfRange)
    else None
  }

  function JsField(atob: Bytes -> Option<Bytes>, value: Json, length: nat): Option<Bytes> {
    if value.Str? && atob(value.text).Some? && |atob(value.text).value| == length then atob(value.text) else None
  }

  function JsHeaderOf(members: seq<Member>, atob: Bytes -> Option<Bytes>): Result<OuterHeader, HeaderError> {
    if JsRefuses(members).Some? then Err(JsRefuses(members).value)
    else
      var key := JsField(atob, At(members, 0), WRAPPED_KEY_LEN);
      var salt := JsField(atob, At(members, 1), KDF_SALT_LEN);
      var iv := JsField(atob, At(members, 2), IV_LEN);
      if key.None? || salt.None? || iv.None? then Err(BadFieldSize)
      else Ok(OuterHeader(key.value, salt.value, iv.value, At(members, 4).n))
  }

  function JsReadHeader(parse: Bytes -> Option<Json>, atob: Bytes -> Option<Bytes>, text: Bytes): Result<OuterHeader, HeaderError> {
    var parsed := parse(text);
    if parsed.None? || !parsed.value.Obj? then Err(Malformed)
    else match JsHeaderOf(parsed.value.members, atob)
      case Err(e) => Err(e)
      case Ok(header) => if ToJson(header) != text then Err(NotCanonical) else Ok(header)
  }

  function JsDecodeOuter(parse: Bytes -> Option<Json>, atob: Bytes -> Option<Bytes>, blob: Bytes): Result<OuterEnvelope, HeaderError> {
    if |blob| < 4 then Err(Truncated)
    else if FromU32(blob[..4]) > MAX_OUTER_HEADER_BYTES then Err(HeaderTooLarge)
    else if |blob| - 4 < FromU32(blob[..4]) then Err(Truncated)
    else
      var headerEnd := 4 + FromU32(blob[..4]);
      match JsReadHeader(parse, atob, blob[4..headerEnd])
      case Err(e) => Err(e)
      case Ok(header) =>
        if |blob[headerEnd..]| < TAG_LEN then Err(Truncated) else Ok(OuterEnvelope(header, blob[headerEnd..]))
  }

  // ---------------------------------------------------------------- the canonical header

  lemma KeysDiffer()
    ensures forall i, k :: 0 <= i < k < 8 ==> HEADER_KEYS[i] != HEADER_KEYS[k]
  {
    assert HEADER_KEYS[0][5] != HEADER_KEYS[6][5];
    assert HEADER_KEYS[4][0] != HEADER_KEYS[7][0];
  }

  lemma KeysArePlain()
    ensures forall i :: 0 <= i < 8 ==> Plain(HEADER_KEYS[i])
    ensures Plain(KDF_ALGORITHM) && Plain(ENCRYPTION_ALGORITHM) && Plain(WRAPPING_ALGORITHM)
  {
    LiteralIsPlain("wrappedContentKey");
    LiteralIsPlain("encryptionAlgorithm");
    LiteralIsPlain("wrappingAlgorithm");
    LiteralIsPlain("PBKDF2-SHA-256");
    LiteralIsPlain("AES-256-GCM");
  }

  lemma LiteralIsPlain(s: string)
    requires forall i :: 0 <= i < |s| ==> ' ' <= s[i] <= '~' && s[i] != '\"' && s[i] != '\\'
    ensures Plain(Ascii(s))
  {
  }

  lemma Base64IsPlain(b: Bytes)
    ensures Plain(Base64.Encode(b))
  {
    Base64.EncodeLength(b);
    var s := Base64.Encode(b);
    forall i | 0 <= i < |s| ensures 0x20 <= s[i] < 0x80 && s[i] != QUOTE && s[i] != BACKSLASH {
      assert s[i] == Base64.PAD || Base64.Index(s[i]).Some?;
    }
  }

  lemma ValuesArePlain(h: OuterHeader)
    ensures forall i :: 0 <= i < 8 ==> HeaderValues(h)[i].Num? || (HeaderValues(h)[i].Str? && Plain(HeaderValues(h)[i].text))
  {
    KeysArePlain();
    Base64IsPlain(h.wrappedContentKey);
    Base64IsPlain(h.kdfSalt);
    Base64IsPlain(h.iv);
  }

  lemma HeaderIsWellFormed(h: OuterHeader)
    ensures WellFormed(Obj(HeaderMembers(h)))
  {
    var members := HeaderMembers(h);
    KeysDiffer();
    KeysArePlain();
    ValuesArePlain(h);
    forall i | 0 <= i < 8 ensures ValidUtf8(members[i].key) && WellFormed(members[i].value) {
      PlainIsUnescaped(HEADER_KEYS[i]);
      if HeaderValues(h)[i].Str? {
        PlainIsUnescaped(HeaderValues(h)[i].text);
      }
    }
    MembersWellFormed(members);
  }

  /** The header's text, character by character: its eight keys in this order and their values. */
  function SpelledHeader(h: OuterHeader): Bytes { Braced(Pairs(HEADER_NAMES, ValueTexts(h))) }

  const HEADER_NAMES := [
    "wrappedContentKey", "kdfSalt", "iv", "kdfAlgorithm", "kdfIterations", "encryptionAlgorithm", "wrappingAlgorithm", "schemaVersion"]

  function ValueTexts(h: OuterHeader): seq<Bytes> {
    [Quoted(Base64.Encode(h.wrappedContentKey)), Quoted(Base64.Encode(h.kdfSalt)), Quoted(Base64.Encode(h.iv)),
     Literal("PBKDF2-SHA-256"), Decimal(h.kdfIterations), Literal("AES-256-GCM"), Literal("AES-KW"), Ascii("2")]
  }

  lemma AlgorithmsAreSpelled()
    ensures Print(Str(KDF_ALGORITHM)) == Literal("PBKDF2-SHA-256")
    ensures Print(Str(ENCRYPTION_ALGORITHM)) == Literal("AES-256-GCM")
    ensures Print(Str(WRAPPING_ALGORITHM)) == Literal("AES-KW")
  {
    KeysArePlain();
    LiteralIsSpelled("PBKDF2-SHA-256");
    LiteralIsSpelled("AES-256-GCM");
    LiteralIsSpelled("AES-KW");
  }

  lemma VersionIsSpelled()
    ensures Print(Num(PROTOCOL_VERSION)) == Ascii("2")
  {
    assert Decimal(2) == [DigitOf(2)];
  }

  lemma EightAgree(a: seq<Bytes>, b: seq<Bytes>)
    requires |a| == |b| == 8 && a[0] == b[0] && a[1] == b[1] && a[2] == b[2] && a[3] == b[3]
    requires a[4] == b[4] && a[5] == b[5] && a[6] == b[6] && a[7] == b[7]
    ensures a == b
  {
  }

  lemma EncodedIsSpelled(b: Bytes)
    ensures Print(Str(Base64.Encode(b))) == Quoted(Base64.Encode(b))
  {
    StringIsSpelled(Base64.Encode(b));
  }

  lemma EncodedValuesAreSpelled(h: OuterHeader)
    ensures var (printed, texts) := (PrintAll(HeaderValues(h)), ValueTexts(h));
            printed[0] == texts[0] && printed[1] == texts[1] && printed[2] == texts[2]
  {
    EncodedIsSpelled(h.wrappedContentKey);
    EncodedIsSpelled(h.kdfSalt);
    EncodedIsSpelled(h.iv);
  }

  lemma OtherValuesAreSpelled(h: OuterHeader)
    ensures var (printed, texts) := (PrintAll(HeaderValues(h)), ValueTexts(h));
            && printed[3] == texts[3] && printed[4] == texts[4] && printed[5] == texts[5]
            && printed[6] == texts[6] && printed[7] == texts[7]
  {
    AlgorithmsAreSpelled();
    VersionIsSpelled();
  }

  lemma HeaderValuesAreSpelled(h: OuterHeader)
    ensures PrintAll(HeaderValues(h)) == ValueTexts(h)
  {
    EncodedValuesAreSpelled(h);
    OtherValuesAreSpelled(h);
    EightAgree(PrintAll(HeaderValues(h)), ValueTexts(h));
  }

  lemma KeysAreNames()
    ensures forall i :: 0 <= i < 8 ==> HEADER_KEYS[i] == Ascii(HEADER_NAMES[i]) && Plain(Ascii(HEADER_NAMES[i]))
  {
    KeysArePlain();
  }

  lemma MembersAreLiteral(h: OuterHeader)
    ensures HeaderMembers(h) == Members(HEADER_NAMES, HeaderValues(h))
  {
    KeysAreNames();
  }

  /** The canonical header is that text. */
  lemma HeaderIsSpelled(h: OuterHeader)
    ensures ToJson(h) == SpelledHeader(h)
  {
    var keys, values := HEADER_NAMES, HeaderValues(h);
    KeysAreNames();
    HeaderValuesAreSpelled(h);
    LiteralObjectIsSpelled(keys, values, ValueTexts(h));
    MembersAreLiteral(h);
  }

  lemma FieldsReadBack(h: OuterHeader, i: nat)
    requires i < 8
    ensures Lookup(HeaderMembers(h), HEADER_KEYS[i]) == Some(HeaderValues(h)[i])
  {
    KeysDiffer();
    LookupFinds(HeaderMembers(h), i);
  }

  const FIELD_LENGTHS := [78, 36, 23, 31, 16, 35, 28, 17]

  lemma FieldLength(h: OuterHeader, i: nat)
    requires Shaped(h) && i < 8
    ensures MemberLength(HeaderMembers(h)[i]) == FIELD_LENGTHS[i] + (if i == 4 then |Decimal(h.kdfIterations)| else 0)
  {
    var key, value := HEADER_KEYS[i], HeaderValues(h)[i];
    KeysArePlain();
    PlainIsUnescaped(key);
    ValuesArePlain(h);
    if value.Str? {
      PlainIsUnescaped(value.text);
      TextLengths(h, i);
    }
  }

  lemma TextLengths(h: OuterHeader, i: nat)
    requires Shaped(h) && i < 8 && HeaderValues(h)[i].Str?
    ensures |HEADER_KEYS[i]| + |HeaderValues(h)[i].text| + 5 == FIELD_LENGTHS[i]
  {
    Base64.EncodeLength(h.wrappedContentKey);
    Base64.EncodeLength(h.kdfSalt);
    Base64.EncodeLength(h.iv);
  }

  /** The header's length depends on the iteration count's digits alone. */
  lemma HeaderLength(h: OuterHeader)
    requires Shaped(h)
    ensures |ToJson(h)| == 273 + |Decimal(h.kdfIterations)|
  {
    var members := HeaderMembers(h);
    PrintedLength(members, 0);
    assert members[0..] == members;
    forall i: nat | i < 8
      ensures MemberLength(members[i]) == FIELD_LENGTHS[i] + (if i == 4 then |Decimal(h.kdfIterations)| else 0)
    {
      FieldLength(h, i);
    }
    EightLengths(members);
  }

  lemma EightLengths(m: seq<Member>)
    requires |m| == 8
    ensures LengthFrom(m, 0) == 7 + MemberLength(m[0]) + MemberLength(m[1]) + MemberLength(m[2]) + MemberLength(m[3])
                                  + MemberLength(m[4]) + MemberLength(m[5]) + MemberLength(m[6]) + MemberLength(m[7])
  {
    assert LengthFrom(m, 8) == 0;
    assert LengthFrom(m, 6) == MemberLength(m[6]) + 1 + MemberLength(m[7]);
    assert LengthFrom(m, 4) == MemberLength(m[4]) + 1 + MemberLength(m[5]) + 1 + LengthFrom(m, 6);
    assert LengthFrom(m, 2) == MemberLength(m[2]) + 1 + MemberLength(m[3]) + 1 + LengthFrom(m, 4);
  }

  // ---------------------------------------------------------------- what both decoders accept

  /** An envelope a decoder may return. */
  predicate Acceptable(e: OuterEnvelope) {
    Shaped(e.header) && IsAcceptedKdfIterations(e.header.kdfIterations) && |e.ciphertext| >= TAG_LEN
  }

  lemma AcceptedFits(h: OuterHeader)
    requires Shaped(h) && IsAcceptedKdfIterations(h.kdfIterations)
    ensures |ToJson(h)| <= 280 < MAX_OUTER_HEADER_BYTES
  {
    HeaderLength(h);
    assert PowerOfTen(7) == 10_000_000 by {
      assert PowerOfTen(3) == 1000 && PowerOfTen(5) == 100_000;
    }
    DecimalLength(h.kdfIterations, 7, 10_000_000);
  }

  /** Every key looks up the header's value for it. */
  ghost predicate Reads(members: seq<Member>, h: OuterHeader) {
    |members| == 8 && forall i: nat :: i < 8 ==> Lookup(members, HEADER_KEYS[i]) == Some(HeaderValues(h)[i])
  }

  lemma CanonicalReads(h: OuterHeader)
    ensures Reads(HeaderMembers(h), h)
  {
    forall i: nat | i < 8 ensures Lookup(HeaderMembers(h), HEADER_KEYS[i]) == Some(HeaderValues(h)[i]) {
      FieldsReadBack(h, i);
    }
  }

  lemma StructReadsBack(members: seq<Member>, h: OuterHeader)
    requires Reads(members, h) && IsAcceptedKdfIterations(h.kdfIterations)
    ensures StructOf(members) == Some(Fields(Base64.Encode(h.wrappedContentKey), Base64.Encode(h.kdfSalt), Base64.Encode(h.iv),
                                             KDF_ALGORITHM, h.kdfIterations, ENCRYPTION_ALGORITHM, WRAPPING_ALGORITHM))
  {
    var values := HeaderValues(h);
    assert forall i: nat :: i < 8 && values[i].Str? ==> StringAt(members, i) == Some(values[i].text);
    assert NumberAt(members, 4) == Some(h.kdfIterations) && NumberAt(members, 7).Some?;
    assert HasExactly(members, HEADER_KEYS);
  }

  lemma FieldsDecode(h: OuterHeader, f: Fields, decode: Bytes -> Option<Bytes>)
    requires Base64.Undoes(decode) && Shaped(h) && IsAcceptedKdfIterations(h.kdfIterations)
    requires f == Fields(Base64.Encode(h.wrappedContentKey), Base64.Encode(h.kdfSalt), Base64.Encode(h.iv),
                         KDF_ALGORITHM, h.kdfIterations, ENCRYPTION_ALGORITHM, WRAPPING_ALGORITHM)
    ensures HeaderOf(f, decode) == Ok(h)
  {
  }

  lemma MembersReadBack(members: seq<Member>, h: OuterHeader, decode: Bytes -> Option<Bytes>)
    requires Reads(members, h) && Base64.Undoes(decode) && Shaped(h) && IsAcceptedKdfIterations(h.kdfIterations)
    ensures FromMembers(members, decode) == Ok(h)
  {
    StructReadsBack(members, h);
    FieldsDecode(h, StructOf(members).value, decode);
    assert Lookup(members, HEADER_KEYS[7]) == Some(HeaderValues(h)[7]);
  }

  /** All the decoders need of a parser of JSON: it reads canonical headers back. */
  ghost predicate ReadsHeaders(parse: Bytes -> Option<Json>) {
    forall h: OuterHeader :: Shaped(h) && IsAcceptedKdfIterations(h.kdfIterations) ==> parse(ToJson(h)) == Some(Obj(HeaderMembers(h)))
  }

  lemma InverterReadsHeaders(parse: Bytes -> Option<Json>)
    requires Inverts(parse)
    ensures ReadsHeaders(parse)
  {
    forall h: OuterHeader ensures parse(ToJson(h)) == Some(Obj(HeaderMembers(h))) {
      HeaderIsWellFormed(h);
    }
  }

  lemma HeaderReadsBack(parse: Bytes -> Option<Json>, decode: Bytes -> Option<Bytes>, h: OuterHeader)
    requires ReadsHeaders(parse) && Base64.Undoes(decode) && Shaped(h) && IsAcceptedKdfIterations(h.kdfIterations)
    ensures ReadHeader(parse, decode, ToJson(h)) == Ok(h)
  {
    CanonicalReads(h);
    MembersReadBack(HeaderMembers(h), h, decode);
  }

  lemma JsReadsBack(members: seq<Member>, h: OuterHeader, atob: Bytes -> Option<Bytes>)
    requires Reads(members, h) && Shaped(h) && IsAcceptedKdfIterations(h.kdfIterations) && Base64.Undoes(atob)
    ensures JsHeaderOf(members, atob) == Ok(h)
  {
    var values := HeaderValues(h);
    assert forall i: nat :: i < 8 ==> At(members, i) == values[i];
    assert JsRefuses(members).None?;
  }

  lemma JsHeaderReadsBack(parse: Bytes -> Option<Json>, atob: Bytes -> Option<Bytes>, h: OuterHeader)
    requires ReadsHeaders(parse) && Base64.Undoes(atob) && Shaped(h) && IsAcceptedKdfIterations(h.kdfIterations)
    ensures JsReadHeader(parse, atob, ToJson(h)) == Ok(h)
  {
    CanonicalReads(h);
    JsReadsBack(HeaderMembers(h), h, atob);
  }

  lemma EncodedDecodes(parse: Bytes -> Option<Json>, decode: Bytes -> Option<Bytes>, e: OuterEnvelope)
    requires ReadsHeaders(parse) && Base64.Undoes(decode) && Acceptable(e) && |ToJson(e.header)| < U32_LIMIT
    ensures DecodeOuter(parse, decode, EncodeOuter(e.header, e.ciphertext)) == Ok(e)
  {
    AcceptedFits(e.header);
    UnframeFramed(ToJson(e.header), e.ciphertext, MAX_OUTER_HEADER_BYTES);
    HeaderReadsBack(parse, decode, e.header);
  }

  lemma ReadIsCanonical(parse: Bytes -> Option<Json>, decode: Bytes -> Option<Bytes>, text: Bytes, h: OuterHeader)
    requires ReadHeader(parse, decode, text) == Ok(h)
    ensures ToJson(h) == text && Shaped(h) && IsAcceptedKdfIterations(h.kdfIterations)
  {
  }

  /** The Rust decoder accepts exactly the encoder's image and returns what was encoded. */
  lemma DecoderAcceptsTheImage(parse: Bytes -> Option<Json>, decode: Bytes -> Option<Bytes>, blob: Bytes, e: OuterEnvelope)
    requires ReadsHeaders(parse) && Base64.Undoes(decode)
    ensures DecodeOuter(parse, decode, blob) == Ok(e)
       <==> Acceptable(e) && |ToJson(e.header)| < U32_LIMIT && blob == EncodeOuter(e.header, e.ciphertext)
  {
    if Acceptable(e) && |ToJson(e.header)| < U32_LIMIT && blob == EncodeOuter(e.header, e.ciphertext) {
      EncodedDecodes(parse, decode, e);
    }
    if DecodeOuter(parse, decode, blob) == Ok(e) {
      ReadIsCanonical(parse, decode, Unframe(blob, MAX_OUTER_HEADER_BYTES).value.0, e.header);
      FrameUnframed(blob, MAX_OUTER_HEADER_BYTES);
    }
  }

  /** The blobs it accepts, written out: exactly those laid out around the canonical header of a
      40-byte wrapped key, a 16-byte salt, a 12-byte nonce and 600000 to 2000000 iterations, with a
      ciphertext that has room for the 16-byte tag. */
  lemma DecoderAcceptsTheText(parse: Bytes -> Option<Json>, decode: Bytes -> Option<Bytes>, blob: Bytes, e: OuterEnvelope)
    requires ReadsHeaders(parse) && Base64.Undoes(decode)
    ensures DecodeOuter(parse, decode, blob) == Ok(e)
       <==> |e.header.wrappedContentKey| == 40 && |e.header.kdfSalt| == 16 && |e.header.iv| == 12
            && 600_000 <= e.header.kdfIterations <= 2_000_000 && |e.ciphertext| >= 16 && IsBlob(blob, e.header, e.ciphertext)
  {
    DecoderAcceptsTheImage(parse, decode, blob, e);
    if Acceptable(e) {
      AcceptedFits(e.header);
      BlobIsSpelled(e.header, e.ciphertext);
      if IsBlob(blob, e.header, e.ciphertext) {
        BlobIsUnique(blob, EncodeOuter(e.header, e.ciphertext), e.header, e.ciphertext);
      }
    }
  }

  lemma BlobIsUnique(a: Bytes, b: Bytes, h: OuterHeader, ciphertext: Bytes)
    requires IsBlob(a, h, ciphertext) && IsBlob(b, h, ciphertext)
    ensures a == b
  {
    var n := |SpelledHeader(h)|;
    BigEndianIsUnique(a[..4], b[..4], n);
    assert a == a[..4] + a[4..4 + n] + a[4 + n..] && b == b[..4] + b[4..4 + n] + b[4 + n..];
  }

  /** So does the browser's. */
  lemma JsDecoderAcceptsTheImage(parse: Bytes -> Option<Json>, atob: Bytes -> Option<Bytes>, blob: Bytes, e: OuterEnvelope)
    requires ReadsHeaders(parse) && Base64.Undoes(atob)
    ensures JsDecodeOuter(parse, atob, blob) == Ok(e)
       <==> Acceptable(e) && |ToJson(e.header)| < U32_LIMIT && blob == EncodeOuter(e.header, e.ciphertext)
  {
    if Acceptable(e) && |ToJson(e.header)| < U32_LIMIT && blob == EncodeOuter(e.header, e.ciphertext) {
      AcceptedFits(e.header);
      UnframeFramed(ToJson(e.header), e.ciphertext, MAX_OUTER_HEADER_BYTES);
      JsHeaderReadsBack(parse, atob, e.header);
    }
    if JsDecodeOuter(parse, atob, blob) == Ok(e) {
      assert Unframe(blob, MAX_OUTER_HEADER_BYTES).Ok?;
      FrameUnframed(blob, MAX_OUTER_HEADER_BYTES);
    }
  }

  /** The two clients open exactly the same blobs, and read the same envelope in each. */
  lemma ClientsAgreeOnEnvelopes(
    rustParse: Bytes -> Option<Json>, rustDecode: Bytes -> Option<Bytes>,
    jsParse: Bytes -> Option<Json>, atob: Bytes -> Option<Bytes>, blob: Bytes)
    requires ReadsHeaders(rustParse) && ReadsHeaders(jsParse) && Base64.Undoes(rustDecode) && Base64.Undoes(atob)
    ensures var (r, j) := (DecodeOuter(rustParse, rustDecode, blob), JsDecodeOuter(jsParse, atob, blob));
            (r.Ok? <==> j.Ok?) && (r.Ok? ==> r == j)
  {
    var r, j := DecodeOuter(rustParse, rustDecode, blob), JsDecodeOuter(jsParse, atob, blob);
    if r.Ok? {
      DecoderAcceptsTheImage(rustParse, rustDecode, blob, r.value);
      JsDecoderAcceptsTheImage(jsParse, atob, blob, r.value);
    }
    if j.Ok? {
      DecoderAcceptsTheImage(rustParse, rustDecode, blob, j.value);
      JsDecoderAcceptsTheImage(jsParse, atob, blob, j.value);
    }
  }

  /** With the strict parser and decoder of this project in place of the libraries'. */
  lemma StrictDecoderAcceptsTheImage(blob: Bytes, e: OuterEnvelope)
    ensures DecodeOuter(Parse, Base64.Decode, blob) == Ok(e)
       <==> Acceptable(e) && |ToJson(e.header)| < U32_LIMIT && blob == EncodeOuter(e.header, e.ciphertext)
  {
    ParseInverts();
    InverterReadsHeaders(Parse);
    forall b: Bytes ensures Base64.Decode(Base64.Encode(b)) == Some(b) {
      Base64.DecodeUndoesEncode(b);
    }
    DecoderAcceptsTheImage(Parse, Base64.Decode, blob, e);
  }

  /** The size computed from the payload's length is the sealed blob's size, for whatever keys,
      salt and nonce the sealing drew: encryption adds exactly the tag. */
  lemma BlobLenIsExact(h: OuterHeader, ciphertext: Bytes, payloadLen: nat)
    requires Shaped(h) && IsAcceptedKdfIterations(h.kdfIterations) && |ciphertext| == payloadLen + TAG_LEN
    ensures |ToJson(h)| < U32_LIMIT && |EncodeOuter(h, ciphertext)| == BlobLen(payloadLen, h.kdfIterations)
  {
    AcceptedFits(h);
    HeaderLength(h);
    HeaderLength(OuterHeader(seq(WRAPPED_KEY_LEN, _ => 0 as byte), seq(KDF_SALT_LEN, _ => 0 as byte),
                             seq(IV_LEN, _ => 0 as byte), h.kdfIterations));
  }
}
