/** What sealing binds: both secrets, the drawn material, and the header to the ciphertext. */
module Sealing {
  import opened Basics
  import opened Framing
  import opened Json
  import opened Protocol
  import opened Envelope
  import opened Messages
  import Base64
  import Entropy

  // ---------------------------------------------------------------- drawing and sealing

  /** The material in draw order: the salt, the nonce, the content key. A failed draw may have used
      some of the entropy. */
  method Draw(entropy: Entropy.Source) returns (r: Result<Material, Entropy.EntropyError>)
    modifies entropy
    ensures var stream := old(entropy.stream);
            if |stream| >= 60 then r == Ok(Material(stream[..16], stream[16..28], stream[28..60])) && entropy.stream == stream[60..]
            else r == Err(Entropy.EntropyError)
  {
    var salt := entropy.Fill(KDF_SALT_LEN);
    if salt.Err? {
      return Err(salt.error);
    }
    var iv := entropy.Fill(IV_LEN);
    if iv.Err? {
      return Err(iv.error);
    }
    var key := entropy.Fill(CONTENT_KEY_LEN);
    if key.Err? {
      return Err(key.error);
    }
    ghost var stream := old(entropy.stream);
    assert stream[16..][..12] == stream[16..28] && stream[16..][12..] == stream[28..];
    assert stream[28..][..32] == stream[28..60] && stream[28..][32..] == stream[60..];
    r := Ok(Material(salt.value, iv.value, key.value));
  }

  /** The secrets and the cost are checked before anything is drawn. */
  method SealPayload(c: Ciphers, payload: Bytes, passphrase: Bytes, pin: Bytes, iterations: nat, entropy: Entropy.Source)
    returns (r: Result<Bytes, SealError>)
    requires AreSound(c)
    modifies entropy
    ensures var stream := old(entropy.stream);
            if !(|pin| == 6 && forall i :: 0 <= i < 6 ==> '0' as int <= pin[i] <= '9' as int)
            then r == Err(InvalidPin) && entropy.stream == stream
            else if !(600_000 <= iterations <= 2_000_000) then r == Err(IterationsOutOfRange) && entropy.stream == stream
            else if |stream| < 60 then r == Err(EntropyFailed)
            else r == Seal(c, payload, passphrase, pin, iterations, Material(stream[..16], stream[16..28], stream[28..60]))
                 && r.Ok? && entropy.stream == stream[60..]
  {
    if !IsValidPin(pin) {
      return Err(InvalidPin);
    }
    if !IsAcceptedKdfIterations(iterations) {
      return Err(IterationsOutOfRange);
    }
    var material := Draw(entropy);
    if material.Err? {
      return Err(EntropyFailed);
    }
    r := Seal(c, payload, passphrase, pin, iterations, material.value);
  }

  /** What anyone reads in a sealed blob: the drawn salt and nonce, the content key wrapped under the
      key derived from the passphrase followed by the PIN, and the payload encrypted under the content
      key with the wrapped key as associated data. */
  lemma SealedParts(
    c: Ciphers, parse: Bytes -> Option<Json>, decode: Bytes -> Option<Bytes>,
    payload: Bytes, passphrase: Bytes, pin: Bytes, iterations: nat, m: Material)
    requires AreSound(c) && ReadsHeaders(parse) && Base64.Undoes(decode)
    requires IsValidPin(pin) && IsAcceptedKdfIterations(iterations) && HasSizes(m)
    ensures var wrapped := c.wrap(c.pbkdf2(passphrase + pin, m.kdfSalt, iterations), m.contentKey);
            var header := OuterHeader(wrapped, m.kdfSalt, m.iv, iterations);
            var ciphertext := c.encrypt(m.contentKey, m.iv, wrapped, payload);
            var blob := Seal(c, payload, passphrase, pin, iterations, m);
            && blob.Ok? && IsBlob(blob.value, header, ciphertext)
            && DecodeOuter(parse, decode, blob.value) == Ok(OuterEnvelope(header, ciphertext))
  {
    var header := HeaderFor(c, passphrase, pin, iterations, m);
    var ciphertext := c.encrypt(m.contentKey, m.iv, header.wrappedContentKey, payload);
    AcceptedFits(header);
    BlobIsSpelled(header, ciphertext);
    Envelope.EncodedDecodes(parse, decode, OuterEnvelope(header, ciphertext));
  }

  // ---------------------------------------------------------------- other secrets

  /** Inputs from which different keys are derived, whatever the salt and the iterations. */
  ghost predicate DerivesApart(c: Ciphers, inputs: set<Bytes>) {
    forall a: Bytes, b: Bytes, salt: Bytes, n: nat ::
      a in inputs && b in inputs && a != b ==> c.pbkdf2(a, salt, n) != c.pbkdf2(b, salt, n)
  }

  /** A content key wrapped under a key derived from one of the inputs is refused under any other such key. */
  ghost predicate RefusesOtherKeys(c: Ciphers, inputs: set<Bytes>) {
    forall a: Bytes, b: Bytes, salt: Bytes, n: nat, key: Bytes ::
      a in inputs && b in inputs && |key| == CONTENT_KEY_LEN && c.pbkdf2(a, salt, n) != c.pbkdf2(b, salt, n)
      ==> c.unwrap(c.pbkdf2(b, salt, n), c.wrap(c.pbkdf2(a, salt, n), key)) == None
  }

  /** A passphrase followed by a valid PIN tells both. */
  lemma SecretsAreUnambiguous(passphrase: Bytes, pin: Bytes, passphrase': Bytes, pin': Bytes)
    requires IsValidPin(pin) && IsValidPin(pin') && passphrase + pin == passphrase' + pin'
    ensures passphrase == passphrase' && pin == pin'
  {
    var both := passphrase + pin;
    assert passphrase == both[..|both| - 6] == passphrase';
    assert pin == both[|both| - 6..] == pin';
  }

  /** A sealed blob opens with its own passphrase and PIN and is refused with every other passphrase
      and with every other PIN, as far as the ciphers tell the inputs apart. */
  lemma OtherSecretsAreRefused(
    c: Ciphers, parse: Bytes -> Option<Json>, decode: Bytes -> Option<Bytes>,
    payload: Bytes, passphrase: Bytes, pin: Bytes, iterations: nat, m: Material,
    passphrase': Bytes, pin': Bytes, inputs: set<Bytes>)
    requires AreSound(c) && ReadsHeaders(parse) && Base64.Undoes(decode)
    requires IsValidPin(pin) && IsAcceptedKdfIterations(iterations) && HasSizes(m)
    requires DerivesApart(c, inputs) && RefusesOtherKeys(c, inputs) && passphrase + pin in inputs && passphrase' + pin' in inputs
    ensures var blob := Seal(c, payload, passphrase, pin, iterations, m);
            && blob.Ok?
            && Open(c, parse, decode, blob.value, passphrase', pin')
               == if !IsValidPin(pin') then Err(BadPin)
                  else if passphrase' == passphrase && pin' == pin then Ok(payload)
                  else Err(Decrypt)
  {
    SealedParts(c, parse, decode, payload, passphrase, pin, iterations, m);
    SealedBytesOpen(c, parse, decode, payload, passphrase, pin, iterations, m);
    var a, b := passphrase + pin, passphrase' + pin';
    if IsValidPin(pin') && (passphrase' != passphrase || pin' != pin) {
      if a == b {
        SecretsAreUnambiguous(passphrase, pin, passphrase', pin');
      }
      var kek, kek' := c.pbkdf2(a, m.kdfSalt, iterations), c.pbkdf2(b, m.kdfSalt, iterations);
      assert kek != kek';
      assert c.unwrap(kek', c.wrap(kek, m.contentKey)) == None;
    }
  }

  // ---------------------------------------------------------------- another header

  /** What a ciphertext is made under. */
  datatype Context = Context(key: Bytes, iv: Bytes, aad: Bytes)

  /** A ciphertext made under one of the contexts is refused under any other of them. */
  ghost predicate RefusesOtherContexts(c: Ciphers, contexts: set<Context>) {
    forall x: Context, y: Context, plain: Bytes ::
      x in contexts && y in contexts && x != y ==> c.decrypt(y.key, y.iv, y.aad, c.encrypt(x.key, x.iv, x.aad, plain)) == None
  }

  function ContextOf(c: Ciphers, passphrase: Bytes, pin: Bytes, iterations: nat, m: Material): Context {
    Context(m.contentKey, m.iv, c.wrap(c.pbkdf2(passphrase + pin, m.kdfSalt, iterations), m.contentKey))
  }

  /** Two blobs sealed with the same secrets: the header of one with the ciphertext of the other is
      refused, though the secrets unlock the header, unless key, nonce and wrapped key are the same in both. */
  lemma MixedBlobIsRefused(
    c: Ciphers, parse: Bytes -> Option<Json>, decode: Bytes -> Option<Bytes>, passphrase: Bytes, pin: Bytes,
    payload: Bytes, iterations: nat, m: Material, e: OuterEnvelope,
    payload': Bytes, iterations': nat, m': Material, e': OuterEnvelope, contexts: set<Context>)
    requires AreSound(c) && ReadsHeaders(parse) && Base64.Undoes(decode) && RefusesOtherContexts(c, contexts)
    requires IsValidPin(pin) && IsAcceptedKdfIterations(iterations) && IsAcceptedKdfIterations(iterations')
    requires HasSizes(m) && ContextOf(c, passphrase, pin, iterations, m) in contexts
    requires HasSizes(m') && ContextOf(c, passphrase, pin, iterations', m') in contexts
    requires DecodeOuter(parse, decode, Seal(c, payload, passphrase, pin, iterations, m).value) == Ok(e)
    requires DecodeOuter(parse, decode, Seal(c, payload', passphrase, pin, iterations', m').value) == Ok(e')
    ensures |ToJson(e'.header)| < U32_LIMIT
    ensures Open(c, parse, decode, EncodeOuter(e'.header, e.ciphertext), passphrase, pin)
         == if ContextOf(c, passphrase, pin, iterations, m) == ContextOf(c, passphrase, pin, iterations', m') then Ok(payload)
            else Err(Decrypt)
  {
    var x, y := ContextOf(c, passphrase, pin, iterations, m), ContextOf(c, passphrase, pin, iterations', m');
    SealedParts(c, parse, decode, payload, passphrase, pin, iterations, m);
    SealedParts(c, parse, decode, payload', passphrase, pin, iterations', m');
    assert e.ciphertext == c.encrypt(x.key, x.iv, x.aad, payload);
    AcceptedFits(e'.header);
    Envelope.EncodedDecodes(parse, decode, OuterEnvelope(e'.header, e.ciphertext));
    assert c.unwrap(c.pbkdf2(passphrase + pin, m'.kdfSalt, iterations'), e'.header.wrappedContentKey) == Some(m'.contentKey);
    assert x != y ==> c.decrypt(y.key, y.iv, y.aad, e.ciphertext) == None;
  }

  // ---------------------------------------------------------------- such ciphers exist

  /** Where `x` first stands in the list. */
  function Position<T(==)>(list: seq<T>, x: T): (i: nat)
    ensures x in list ==> i < |list| && list[i] == x
    ensures x !in list ==> i == |list|
  {
    if list == [] then 0 else if list[0] == x then 0 else 1 + Position(list[1..], x)
  }

  lemma ListOf<T>(elements: set<T>) returns (list: seq<T>)
    ensures |list| == |elements| && forall x :: x in elements <==> x in list
  {
    if elements == {} {
      return [];
    }
    var x :| x in elements;
    list := ListOf(elements - {x});
    list := [x] + list;
  }

  /** Eight bytes for each number below 2^64. */
  function Tag(n: nat): (b: Bytes)
    ensures |b| == 8
  {
    ToU32(n / U32_LIMIT % U32_LIMIT) + ToU32(n % U32_LIMIT)
  }

  lemma TagsDiffer(m: nat, n: nat)
    requires m < U64_LIMIT && n < U64_LIMIT && Tag(m) == Tag(n)
    ensures m == n
  {
    assert Tag(m)[..4] == ToU32(m / U32_LIMIT % U32_LIMIT) && Tag(m)[4..] == ToU32(m % U32_LIMIT);
    assert Tag(n)[..4] == ToU32(n / U32_LIMIT % U32_LIMIT) && Tag(n)[4..] == ToU32(n % U32_LIMIT);
    FromU32InvertsToU32(m / U32_LIMIT % U32_LIMIT);
    FromU32InvertsToU32(n / U32_LIMIT % U32_LIMIT);
    FromU32InvertsToU32(m % U32_LIMIT);
    FromU32InvertsToU32(n % U32_LIMIT);
  }

  /** A wrapped key and a ciphertext that carry a tag of what they were made under. */
  function Tagging(inputs: seq<Bytes>, contexts: seq<Context>): Ciphers {
    Ciphers(
      (input, salt, n) => Tag(Position(inputs, input)),
      (kek: Bytes, key) => (if |kek| == 8 then kek else Tag(0)) + key,
      (kek: Bytes, wrapped: Bytes) =>
        if |wrapped| >= 8 && wrapped[..8] == (if |kek| == 8 then kek else Tag(0)) then Some(wrapped[8..]) else None,
      (key, iv, aad, plain) => Tag(Position(contexts, Context(key, iv, aad))) + Tag(0) + plain,
      (key, iv, aad, sealed: Bytes) =>
        if |sealed| >= 16 && sealed[..8] == Tag(Position(contexts, Context(key, iv, aad))) then Some(sealed[16..]) else None)
  }

  lemma TaggingIsSound(inputs: seq<Bytes>, contexts: seq<Context>)
    ensures AreSound(Tagging(inputs, contexts))
  {
    var c := Tagging(inputs, contexts);
    forall kek: Bytes, key: Bytes ensures |c.wrap(kek, key)| == 8 + |key| && c.unwrap(kek, c.wrap(kek, key)) == Some(key) {
    }
    forall key: Bytes, iv: Bytes, aad: Bytes, plain: Bytes
      ensures |c.encrypt(key, iv, aad, plain)| == |plain| + TAG_LEN
      ensures c.decrypt(key, iv, aad, c.encrypt(key, iv, aad, plain)) == Some(plain)
    {
    }
  }

  lemma TaggingTellsInputsApart(inputs: seq<Bytes>, contexts: seq<Context>, a: Bytes, b: Bytes, salt: Bytes, n: nat, key: Bytes)
    requires |inputs| <= U64_LIMIT && a in inputs && b in inputs && a != b
    ensures var c := Tagging(inputs, contexts);
            c.pbkdf2(a, salt, n) != c.pbkdf2(b, salt, n) && c.unwrap(c.pbkdf2(b, salt, n), c.wrap(c.pbkdf2(a, salt, n), key)) == None
  {
    if Tag(Position(inputs, a)) == Tag(Position(inputs, b)) {
      TagsDiffer(Position(inputs, a), Position(inputs, b));
    }
  }

  lemma TaggingTellsContextsApart(inputs: seq<Bytes>, contexts: seq<Context>, x: Context, y: Context, plain: Bytes)
    requires |contexts| <= U64_LIMIT && x in contexts && y in contexts && x != y
    ensures var c := Tagging(inputs, contexts);
            c.decrypt(y.key, y.iv, y.aad, c.encrypt(x.key, x.iv, x.aad, plain)) == None
  {
    if Tag(Position(contexts, x)) == Tag(Position(contexts, y)) {
      TagsDiffer(Position(contexts, x), Position(contexts, y));
    }
  }

  /** For any 2^64 inputs and any 2^64 contexts there are sound ciphers that tell them apart. No ciphers
      tell all inputs apart: a wrapped key has 40 bytes, and any number of inputs would share them. */
  lemma ApartCiphersExist(inputs: set<Bytes>, contexts: set<Context>) returns (c: Ciphers)
    requires |inputs| <= U64_LIMIT && |contexts| <= U64_LIMIT
    ensures AreSound(c) && DerivesApart(c, inputs) && RefusesOtherKeys(c, inputs) && RefusesOtherContexts(c, contexts)
  {
    var inputList := ListOf(inputs);
    var contextList := ListOf(contexts);
    c := Tagging(inputList, contextList);
    TaggingIsSound(inputList, contextList);
    forall a: Bytes, b: Bytes, salt: Bytes, n: nat | a in inputs && b in inputs && a != b
      ensures c.pbkdf2(a, salt, n) != c.pbkdf2(b, salt, n)
    {
      TaggingTellsInputsApart(inputList, contextList, a, b, salt, n, []);
    }
    forall a: Bytes, b: Bytes, salt: Bytes, n: nat, key: Bytes
      | a in inputs && b in inputs && |key| == CONTENT_KEY_LEN && c.pbkdf2(a, salt, n) != c.pbkdf2(b, salt, n)
      ensures c.unwrap(c.pbkdf2(b, salt, n), c.wrap(c.pbkdf2(a, salt, n), key)) == None
    {
      TaggingTellsInputsApart(inputList, contextList, a, b, salt, n, key);
    }
    forall x: Context, y: Context, plain: Bytes | x in contexts && y in contexts && x != y
      ensures c.decrypt(y.key, y.iv, y.aad, c.encrypt(x.key, x.iv, x.aad, plain)) == None
    {
      TaggingTellsContextsApart(inputList, contextList, x, y, plain);
    }
  }
}
