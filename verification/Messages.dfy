/** From a payload to a stored blob and back: what a sender checks before sealing, and what a
    recipient reads after opening. */
module Messages {
  import opened Basics
  import opened Text
  import opened Json
  import opened Decimals
  import opened JsonFields
  import opened Protocol
  import opened Payloads
  import opened Envelope
  import PayloadDecoder
  import Base64

  // ---------------------------------------------------------------- the sender's size check

  datatype SizeRefusal = Invalid(error: PayloadError) | TooBig(size: nat)

  /** `blob_len` in 64-bit arithmetic that wraps around. */
  function WrappedBlobLen(payloadLen: nat, kdfIterations: nat): nat { BlobLen(payloadLen, kdfIterations) % U64_LIMIT }

  /** The blob's size from the text and the files' descriptions, or a refusal before any file is read. */
  function CheckSize(text: Option<Bytes>, metas: seq<FileMeta>, limits: CreationLimits, iterations: nat, maxBytes: nat)
    : Result<nat, SizeRefusal>
  {
    match MeasurePayload(text, metas, limits)
    case Err(e) => Err(Invalid(e))
    case Ok(length) =>
      var size := WrappedBlobLen(length, iterations);
      if size > maxBytes then Err(TooBig(size)) else Ok(size)
  }

  /** What the blob around a payload has besides the payload. */
  function Overhead(iterations: nat): nat { BlobLen(0, iterations) }

  lemma OverheadIsSmall(iterations: nat)
    requires IsAcceptedKdfIterations(iterations)
    ensures Overhead(iterations) <= 300 && forall n: nat :: BlobLen(n, iterations) == n + Overhead(iterations)
  {
    var zero := OuterHeader(seq(WRAPPED_KEY_LEN, _ => 0 as byte), seq(KDF_SALT_LEN, _ => 0 as byte), seq(IV_LEN, _ => 0 as byte), iterations);
    HeaderLength(zero);
    AcceptedFits(zero);
    BlobLenIsExact(zero, seq(TAG_LEN, _ => 0 as byte), 0);
    forall n: nat ensures BlobLen(n, iterations) == n + Overhead(iterations) {
      BlobLenIsExact(zero, seq(n + TAG_LEN, _ => 0 as byte), n);
    }
  }

  lemma SaturatedSize(n: nat, overhead: nat)
    requires overhead <= 300
    ensures var size := (Saturate(n) + overhead) % U64_LIMIT;
            if n + overhead < U64_LIMIT then size == n + overhead else size < U64_LIMIT && (overhead > 0 ==> size < overhead)
  {
    if n + overhead >= U64_LIMIT && overhead > 0 {
      var wrapped := Saturate(n) + overhead - U64_LIMIT;
      assert 0 <= wrapped < overhead;
      assert (Saturate(n) + overhead) % U64_LIMIT == wrapped;
    }
  }

  /** The sender's check agrees with the size limit for exactly the messages whose blob is shorter
      than 2^64 bytes; at and above, the length saturates, the blob's length wraps around to less
      than 300, and the check of any server that takes that much passes. No file's data takes part
      in it. */
  lemma SizeCheckIsExact(p: Payload, limits: CreationLimits, iterations: nat, maxBytes: nat)
    requires TextLength(p.text) < U64_LIMIT / 2 && IsAcceptedKdfIterations(iterations)
    requires Encode(p, limits).Ok? && maxBytes < U64_LIMIT
    ensures var blob := BlobLen(|Encode(p, limits).value|, iterations);
            var checked := CheckSize(p.text, MetasOf(p.files), limits, iterations, maxBytes);
            && (blob < U64_LIMIT ==> checked == if blob <= maxBytes then Ok(blob) else Err(TooBig(blob)))
            && (300 <= maxBytes ==> ((checked.Ok? <==> blob <= maxBytes) <==> blob < U64_LIMIT))
  {
    MeasureIsExact(p, limits);
    OverheadIsSmall(iterations);
    SaturatedSize(|Encode(p, limits).value|, Overhead(iterations));
  }

  /** The largest length that file metadata can state, a signed 64-bit number. */
  const MAX_FILE_LENGTH := U64_LIMIT / 2 - 1

  lemma {:induction false} EscapedLength(s: Bytes)
    ensures |EscapeAll(s)| <= 6 * |s|
    decreases |s|
  {
    if s != [] {
      EscapedLength(s[1..]);
    }
  }

  lemma FileTreeIsShort(m: FileMeta)
    requires |m.name| == 1 && |m.mimeType| == 1 && m.byteLength == MAX_FILE_LENGTH
    ensures |Print(FileTree(m))| <= 200
  {
    var members := FileTree(m).members;
    PrintedLength(members, 0);
    assert members[0..] == members;
    EscapedLength(NAME);
    EscapedLength(MIME_TYPE);
    EscapedLength(BYTE_LENGTH);
    EscapedLength(m.name);
    EscapedLength(m.mimeType);
    assert PowerOfTen(20) == 100_000_000_000_000_000_000 by {
      assert PowerOfTen(10) == 10_000_000_000 by {
        assert PowerOfTen(5) == 100_000;
      }
      assert PowerOfTen(15) == 1_000_000_000_000_000;
    }
    DecimalLength(m.byteLength, 20, PowerOfTen(20));
    assert LengthFrom(members, 2) == MemberLength(members[2]);
  }

  lemma TwoTrees(m: FileMeta)
    ensures |PrintItems(FileTrees([m, m]))| == 2 * |Print(FileTree(m))| + 1
  {
    var tree := FileTree(m);
    assert [m, m][1..] == [m] && [m][1..] == [] && FileTrees([m]) == [tree];
    assert FileTrees([m, m]) == [tree] + FileTrees([m]) && [tree, tree][1..] == [tree];
  }

  lemma TwoFileManifest(m: FileMeta)
    requires |m.name| == 1 && |m.mimeType| == 1 && m.byteLength == MAX_FILE_LENGTH
    ensures |ManifestBytes(None, [m, m])| <= 1000
  {
    FileTreeIsShort(m);
    TwoTrees(m);
    var members := ManifestTree(None, [m, m]).members;
    PrintedLength(members, 0);
    assert members[0..] == members;
    EscapedLength(TEXT);
    EscapedLength(FILES);
    assert LengthFrom(members, 1) == MemberLength(members[1]);
    assert |Print(members[0].value)| == 4 && |Print(members[1].value)| == 2 * |Print(FileTree(m))| + 3;
  }

  /** Such a message: two files of that length pass the check of a server that takes no more than
      2000 bytes. */
  lemma SizeCheckWrapsAround(iterations: nat)
    requires IsAcceptedKdfIterations(iterations)
    ensures var huge := FileMeta(Ascii("f"), Ascii("t"), MAX_FILE_LENGTH);
            CheckSize(None, [huge, huge], CEILINGS, iterations, 2000).Ok?
  {
    var huge := FileMeta(Ascii("f"), Ascii("t"), MAX_FILE_LENGTH);
    OverheadIsSmall(iterations);
    TwoFileManifest(huge);
    assert [huge, huge][1..] == [huge] && CheckFiles([huge]) == None;
    var start := 4 + |ManifestBytes(None, [huge, huge])|;
    assert [huge][1..] == [];
    assert SumFrom(start, [huge, huge]) == SumFrom(start + MAX_FILE_LENGTH, [huge]) == U64_LIMIT - 1;
  }

  // ---------------------------------------------------------------- sealing and opening

  /** The cryptographic primitives, as functions: the key derivation of an input, a salt and a number
      of iterations, key wrapping, and authenticated encryption under a key, a nonce and associated data. */
  datatype Ciphers = Ciphers(
    pbkdf2: (Bytes, Bytes, nat) -> Bytes,
    wrap: (Bytes, Bytes) -> Bytes, unwrap: (Bytes, Bytes) -> Option<Bytes>,
    encrypt: (Bytes, Bytes, Bytes, Bytes) -> Bytes, decrypt: (Bytes, Bytes, Bytes, Bytes) -> Option<Bytes>)

  /** What is needed of them: unwrapping and decrypting undo wrapping and encrypting, a wrapped
      content key has its fixed size, and encrypting adds the tag. */
  ghost predicate AreSound(c: Ciphers) {
    && (forall kek: Bytes, key: Bytes :: |key| == CONTENT_KEY_LEN ==>
         |c.wrap(kek, key)| == WRAPPED_KEY_LEN && c.unwrap(kek, c.wrap(kek, key)) == Some(key))
    && (forall key: Bytes, iv: Bytes, aad: Bytes, plain: Bytes ::
         |c.encrypt(key, iv, aad, plain)| == |plain| + TAG_LEN && c.decrypt(key, iv, aad, c.encrypt(key, iv, aad, plain)) == Some(plain))
  }

  /** Such functions exist: some that hide nothing. */
  lemma SoundCiphersExist() returns (c: Ciphers)
    ensures AreSound(c)
  {
    c := Ciphers(
      (input, salt, iterations) => [],
      (kek, key) => key + seq(8, _ => 0 as byte),
      (kek, wrapped: Bytes) => if |wrapped| < CONTENT_KEY_LEN then None else Some(wrapped[..CONTENT_KEY_LEN]),
      (key, iv, aad, plain) => plain + seq(TAG_LEN, _ => 0 as byte),
      (key, iv, aad, sealed: Bytes) => if |sealed| < TAG_LEN then None else Some(sealed[..|sealed| - TAG_LEN]));
  }

  datatype Material = Material(kdfSalt: Bytes, iv: Bytes, contentKey: Bytes)

  predicate HasSizes(m: Material) { |m.kdfSalt| == KDF_SALT_LEN && |m.iv| == IV_LEN && |m.contentKey| == CONTENT_KEY_LEN }

  predicate IsValidPin(pin: Bytes) { |pin| == 6 && forall i :: 0 <= i < 6 ==> 0x30 <= pin[i] <= 0x39 }

  datatype SealError = InvalidPin | IterationsOutOfRange | EntropyFailed

  /** The key that wraps the content key, from both secrets. */
  function DeriveKek(c: Ciphers, passphrase: Bytes, pin: Bytes, salt: Bytes, iterations: nat): Bytes {
    c.pbkdf2(passphrase + pin, salt, iterations)
  }

  function HeaderFor(c: Ciphers, passphrase: Bytes, pin: Bytes, iterations: nat, m: Material): OuterHeader {
    OuterHeader(c.wrap(DeriveKek(c, passphrase, pin, m.kdfSalt, iterations), m.contentKey), m.kdfSalt, m.iv, iterations)
  }

  /** The wrapped key is authenticated with the payload. What is drawn has fixed sizes. */
  function Seal(c: Ciphers, payload: Bytes, passphrase: Bytes, pin: Bytes, iterations: nat, m: Material): Result<Bytes, SealError>
    requires AreSound(c) && HasSizes(m)
  {
    if !IsValidPin(pin) then Err(InvalidPin)
    else if !IsAcceptedKdfIterations(iterations) then Err(IterationsOutOfRange)
    else
      var header := HeaderFor(c, passphrase, pin, iterations, m);
      AcceptedFits(header);
      Ok(EncodeOuter(header, c.encrypt(m.contentKey, m.iv, header.wrappedContentKey, payload)))
  }

  datatype OpenError = Header(header: HeaderError) | BadPin | Decrypt | BadPayload(payload: PayloadError)

  function Open(c: Ciphers, parse: Bytes -> Option<Json>, decode: Bytes -> Option<Bytes>, blob: Bytes, passphrase: Bytes, pin: Bytes)
    : Result<Bytes, OpenError>
  {
    match DecodeOuter(parse, decode, blob)
    case Err(e) => Err(Header(e))
    case Ok(envelope) =>
      var h := envelope.header;
      if !IsValidPin(pin) then Err(BadPin)
      else match c.unwrap(DeriveKek(c, passphrase, pin, h.kdfSalt, h.kdfIterations), h.wrappedContentKey)
        case None => Err(Decrypt)
        case Some(key) =>
          match c.decrypt(key, h.iv, h.wrappedContentKey, envelope.ciphertext)
          case None => Err(Decrypt)
          case Some(payload) => Ok(payload)
  }

  function OpenPayload(c: Ciphers, parse: Bytes -> Option<Json>, decode: Bytes -> Option<Bytes>, blob: Bytes, passphrase: Bytes, pin: Bytes)
    : Result<Payload, OpenError>
  {
    match Open(c, parse, decode, blob, passphrase, pin)
    case Err(e) => Err(e)
    case Ok(bytes) =>
      match PayloadDecoder.Decode(parse, bytes)
      case Err(e) => Err(BadPayload(e))
      case Ok(p) => Ok(p)
  }

  lemma SealedBytesOpen(
    c: Ciphers, parse: Bytes -> Option<Json>, decode: Bytes -> Option<Bytes>,
    bytes: Bytes, passphrase: Bytes, pin: Bytes, iterations: nat, m: Material)
    requires AreSound(c) && ReadsHeaders(parse) && Base64.Undoes(decode)
    requires IsValidPin(pin) && IsAcceptedKdfIterations(iterations) && HasSizes(m)
    ensures var blob := Seal(c, bytes, passphrase, pin, iterations, m);
            && blob.Ok? && |blob.value| == BlobLen(|bytes|, iterations)
            && Open(c, parse, decode, blob.value, passphrase, pin) == Ok(bytes)
  {
    var h := HeaderFor(c, passphrase, pin, iterations, m);
    var ciphertext := c.encrypt(m.contentKey, m.iv, h.wrappedContentKey, bytes);
    AcceptedFits(h);
    BlobLenIsExact(h, ciphertext, |bytes|);
    var envelope := OuterEnvelope(h, ciphertext);
    Envelope.EncodedDecodes(parse, decode, envelope);
    assert DecodeOuter(parse, decode, EncodeOuter(h, ciphertext)) == Ok(envelope);
    Unlocks(c, envelope, passphrase, pin, m, bytes);
  }

  lemma Unlocks(c: Ciphers, e: OuterEnvelope, passphrase: Bytes, pin: Bytes, m: Material, bytes: Bytes)
    requires AreSound(c) && HasSizes(m) && e.header == HeaderFor(c, passphrase, pin, e.header.kdfIterations, m)
    requires e.ciphertext == c.encrypt(m.contentKey, m.iv, e.header.wrappedContentKey, bytes)
    ensures c.unwrap(DeriveKek(c, passphrase, pin, e.header.kdfSalt, e.header.kdfIterations), e.header.wrappedContentKey) == Some(m.contentKey)
    ensures c.decrypt(m.contentKey, e.header.iv, e.header.wrappedContentKey, e.ciphertext) == Some(bytes)
  {
  }

  /** A sealed message opens to what was sealed, and is exactly as long as it was measured to be. */
  lemma SealedMessageOpens(
    c: Ciphers, parse: Bytes -> Option<Json>, decode: Bytes -> Option<Bytes>,
    p: Payload, limits: CreationLimits, passphrase: Bytes, pin: Bytes, iterations: nat, m: Material)
    requires AreSound(c) && ReadsHeaders(parse) && ReadsManifests(parse) && Base64.Undoes(decode)
    requires IsStrings(p) && LengthsAreSafe(p) && Encode(p, limits).Ok?
    requires IsValidPin(pin) && IsAcceptedKdfIterations(iterations) && HasSizes(m)
    ensures var blob := Seal(c, Encode(p, limits).value, passphrase, pin, iterations, m);
            && blob.Ok? && |blob.value| == BlobLen(|Encode(p, limits).value|, iterations)
            && OpenPayload(c, parse, decode, blob.value, passphrase, pin) == Ok(p)
  {
    var bytes := Encode(p, limits).value;
    SealedBytesOpen(c, parse, decode, bytes, passphrase, pin, iterations, m);
    assert Encode(p, CEILINGS) == Ok(bytes);
    PayloadDecoder.EncodedDecodes(parse, p);
  }

  /** The server takes every message that a sender's check let through. */
  lemma CheckedMessagesFit(
    c: Ciphers, p: Payload, limits: CreationLimits, passphrase: Bytes, pin: Bytes, iterations: nat, m: Material, maxBytes: nat)
    requires AreSound(c) && IsValidPin(pin) && IsAcceptedKdfIterations(iterations) && HasSizes(m)
    requires TextLength(p.text) < U64_LIMIT / 2 && Encode(p, limits).Ok?
    requires BlobLen(|Encode(p, limits).value|, iterations) < U64_LIMIT
    requires CheckSize(p.text, MetasOf(p.files), limits, iterations, maxBytes).Ok?
    ensures var blob := Seal(c, Encode(p, limits).value, passphrase, pin, iterations, m);
            blob.Ok? && 0 < |blob.value| <= maxBytes
  {
    var bytes := Encode(p, limits).value;
    var h := HeaderFor(c, passphrase, pin, iterations, m);
    BlobLenIsExact(h, c.encrypt(m.contentKey, m.iv, h.wrappedContentKey, bytes), |bytes|);
    OverheadIsSmall(iterations);
    MeasureIsExact(p, limits);
  }
}
