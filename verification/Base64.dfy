/** Base64 with padding, section 4 of RFC 4648, over any alphabet and then over the standard one. */
module Base64 {
  import opened Basics

  const PAD: byte := 0x3D

  type Alphabet = nat -> byte
  type Lookup = byte -> Option<nat>

  /** The lookup finds each of the 64 characters, none of which is the padding, and no other. */
  ghost predicate AreInverse(letter: Alphabet, index: Lookup) {
    && (forall n: nat :: n < 64 ==> index(letter(n)) == Some(n) && letter(n) != PAD)
    && (forall c :: index(c).Some? ==> index(c).value < 64 && letter(index(c).value) == c)
  }

  lemma CharIsFound(letter: Alphabet, index: Lookup, n: nat)
    requires AreInverse(letter, index) && n < 64
    ensures index(letter(n)) == Some(n) && letter(n) != PAD
  {
  }

  lemma FoundIsChar(letter: Alphabet, index: Lookup, c: byte)
    requires AreInverse(letter, index) && index(c).Some?
    ensures index(c).value < 64 && letter(index(c).value) == c && c != PAD
  {
    assert index(letter(index(c).value)) == Some(index(c).value);
  }

  // ---------------------------------------------------------------- groups

  /** One to three bytes as four characters. */
  function EncodeGroup(letter: Alphabet, b: Bytes): (s: Bytes)
    requires 1 <= |b| <= 3
    ensures |s| == 4
  {
    var b0, b1, b2 := b[0] as int, if |b| > 1 then b[1] as int else 0, if |b| > 2 then b[2] as int else 0;
    [letter(b0 / 4), letter(b0 % 4 * 16 + b1 / 16),
     if |b| > 1 then letter(b1 % 16 * 4 + b2 / 64) else PAD,
     if |b| > 2 then letter(b2 % 64) else PAD]
  }

  /** A byte from a number that has one. */
  function ToByte(n: int): byte { if 0 <= n < 256 then n else 0 }

  /** The bytes of one group, whose unused bits must be zero. */
  function DecodeGroup(index: Lookup, s: Bytes): Option<Bytes>
    requires |s| == 4
  {
    var (i, j, k, l) := (index(s[0]), index(s[1]), index(s[2]), index(s[3]));
    if i.None? || j.None? then None
    else if s[2] == PAD && s[3] == PAD then
      if j.value % 16 == 0 then Some([ToByte(i.value * 4 + j.value / 16)]) else None
    else if k.None? then None
    else if s[3] == PAD then
      if k.value % 4 == 0 then Some([ToByte(i.value * 4 + j.value / 16), ToByte(j.value % 16 * 16 + k.value / 4)]) else None
    else if l.None? then None
    else Some([ToByte(i.value * 4 + j.value / 16), ToByte(j.value % 16 * 16 + k.value / 4), ToByte(k.value % 4 * 64 + l.value)])
  }

  /** Three bytes and four six-bit digits are two ways to cut the same 24 bits. */
  lemma SixBitsToBytes(i: int, j: int, k: int, l: int)
    requires 0 <= i < 64 && 0 <= j < 64 && 0 <= k < 64 && 0 <= l < 64
    ensures var (a, b, c) := (i * 4 + j / 16, j % 16 * 16 + k / 4, k % 4 * 64 + l);
            && 0 <= a < 256 && 0 <= b < 256 && 0 <= c < 256
            && a / 4 == i && a % 4 == j / 16 && b / 16 == j % 16 && b % 16 == k / 4 && c / 64 == k % 4 && c % 64 == l
            && a % 4 * 16 + b / 16 == j && b % 16 * 4 + c / 64 == k
  {
  }

  lemma BytesToSixBits(a: int, b: int, c: int)
    requires 0 <= a < 256 && 0 <= b < 256 && 0 <= c < 256
    ensures var (i, j, k, l) := (a / 4, a % 4 * 16 + b / 16, b % 16 * 4 + c / 64, c % 64);
            && 0 <= i < 64 && 0 <= j < 64 && 0 <= k < 64 && 0 <= l < 64
            && i * 4 + j / 16 == a && j % 16 * 16 + k / 4 == b && k % 4 * 64 + l == c
            && (b == 0 ==> j % 16 == 0) && (c == 0 ==> k % 4 == 0)
  {
  }

  lemma GroupReadsBack(letter: Alphabet, index: Lookup, b: Bytes)
    requires AreInverse(letter, index) && 1 <= |b| <= 3
    ensures DecodeGroup(index, EncodeGroup(letter, b)) == Some(b)
  {
    var b0, b1, b2 := b[0] as int, if |b| > 1 then b[1] as int else 0, if |b| > 2 then b[2] as int else 0;
    BytesToSixBits(b0, b1, b2);
    CharIsFound(letter, index, b0 / 4);
    CharIsFound(letter, index, b0 % 4 * 16 + b1 / 16);
    CharIsFound(letter, index, b1 % 16 * 4 + b2 / 64);
    CharIsFound(letter, index, b2 % 64);
    assert b == if |b| == 1 then [b0] else if |b| == 2 then [b0, b1] else [b0, b1, b2];
  }

  lemma GroupWritesBack(letter: Alphabet, index: Lookup, s: Bytes)
    requires AreInverse(letter, index) && |s| == 4 && DecodeGroup(index, s).Some?
    ensures 1 <= |DecodeGroup(index, s).value| <= 3 && EncodeGroup(letter, DecodeGroup(index, s).value) == s
  {
    var i, j := index(s[0]).value, index(s[1]).value;
    FoundIsChar(letter, index, s[0]);
    FoundIsChar(letter, index, s[1]);
    if index(s[2]).Some? {
      FoundIsChar(letter, index, s[2]);
    }
    if index(s[3]).Some? {
      FoundIsChar(letter, index, s[3]);
    }
    SixBitsToBytes(i, j, if index(s[2]).Some? then index(s[2]).value else 0, if index(s[3]).Some? then index(s[3]).value else 0);
  }

  // ---------------------------------------------------------------- whole texts

  function EncodeWith(letter: Alphabet, b: Bytes): Bytes
    decreases |b|
  {
    if b == [] then []
    else if |b| <= 3 then EncodeGroup(letter, b)
    else EncodeGroup(letter, b[..3]) + EncodeWith(letter, b[3..])
  }

  /** Strict decoding: whole groups, padding only at the end, no stray bits. */
  function DecodeWith(index: Lookup, s: Bytes): Option<Bytes>
    decreases |s|
  {
    if s == [] then Some([])
    else if |s| < 4 then None
    else if |s| == 4 then DecodeGroup(index, s)
    else
      var head := DecodeGroup(index, s[..4]);
      if head.None? || |head.value| != 3 || DecodeWith(index, s[4..]).None? then None
      else Some(head.value + DecodeWith(index, s[4..]).value)
  }

  /** The length depends on the length alone, and every character is the alphabet's or padding. */
  lemma {:induction false} EncodedLength(letter: Alphabet, b: Bytes)
    ensures |EncodeWith(letter, b)| == (|b| + 2) / 3 * 4
    decreases |b|
  {
    if |b| > 3 {
      EncodedLength(letter, b[3..]);
    }
  }

  lemma {:induction false} EncodedCharacters(letter: Alphabet, index: Lookup, b: Bytes, i: nat)
    requires AreInverse(letter, index) && i < |EncodeWith(letter, b)|
    ensures EncodeWith(letter, b)[i] == PAD || index(EncodeWith(letter, b)[i]).Some?
    decreases |b|
  {
    var group := if |b| <= 3 then b else b[..3];
    GroupReadsBack(letter, index, group);
    if |b| > 3 && i >= 4 {
      EncodedCharacters(letter, index, b[3..], i - 4);
    } else {
      GroupCharacters(letter, index, group, i);
    }
  }

  lemma GroupCharacters(letter: Alphabet, index: Lookup, b: Bytes, i: nat)
    requires AreInverse(letter, index) && 1 <= |b| <= 3 && i < 4
    ensures EncodeGroup(letter, b)[i] == PAD || index(EncodeGroup(letter, b)[i]).Some?
  {
    var b0, b1, b2 := b[0] as int, if |b| > 1 then b[1] as int else 0, if |b| > 2 then b[2] as int else 0;
    BytesToSixBits(b0, b1, b2);
  }

  lemma {:induction false} DecodeWithUndoes(letter: Alphabet, index: Lookup, b: Bytes)
    requires AreInverse(letter, index)
    ensures DecodeWith(index, EncodeWith(letter, b)) == Some(b)
    decreases |b|
  {
    if 1 <= |b| <= 3 {
      GroupReadsBack(letter, index, b);
    } else if b != [] {
      GroupReadsBack(letter, index, b[..3]);
      DecodeWithUndoes(letter, index, b[3..]);
      EncodedLength(letter, b[3..]);
      var s := EncodeWith(letter, b);
      assert s[..4] == EncodeGroup(letter, b[..3]) && s[4..] == EncodeWith(letter, b[3..]);
      assert b == b[..3] + b[3..];
    }
  }

  lemma {:induction false} EncodeWithUndoes(letter: Alphabet, index: Lookup, s: Bytes)
    requires AreInverse(letter, index) && DecodeWith(index, s).Some?
    ensures EncodeWith(letter, DecodeWith(index, s).value) == s && (s != [] ==> DecodeWith(index, s).value != [])
    decreases |s|
  {
    if |s| == 4 {
      GroupWritesBack(letter, index, s);
    } else if s != [] {
      GroupWritesBack(letter, index, s[..4]);
      EncodeWithUndoes(letter, index, s[4..]);
      var b := DecodeWith(index, s).value;
      assert b[..3] == DecodeGroup(index, s[..4]).value && b[3..] == DecodeWith(index, s[4..]).value;
      assert s == s[..4] + s[4..];
    }
  }

  // ---------------------------------------------------------------- the standard alphabet

  function Char(n: nat): byte {
    if n < 26 then 0x41 + n
    else if n < 52 then 0x61 + (n - 26)
    else if n < 62 then 0x30 + (n - 52)
    else if n == 62 then 0x2B
    else 0x2F
  }

  function Index(c: byte): Option<nat> {
    if 0x41 <= c <= 0x5A then Some(c - 0x41)
    else if 0x61 <= c <= 0x7A then Some(c - 0x61 + 26)
    else if 0x30 <= c <= 0x39 then Some(c - 0x30 + 52)
    else if c == 0x2B then Some(62)
    else if c == 0x2F then Some(63)
    else None
  }

  function Encode(b: Bytes): Bytes { EncodeWith(Char, b) }

  function Decode(s: Bytes): Option<Bytes> { DecodeWith(Index, s) }

  /** A decoder the envelope may use: whatever else it accepts, it undoes the encoder. */
  ghost predicate Undoes(decode: Bytes -> Option<Bytes>) {
    forall b: Bytes :: decode(Encode(b)) == Some(b)
  }

  lemma StandardIsInverse()
    ensures AreInverse(Char, Index)
  {
  }

  lemma DecodeUndoesEncode(b: Bytes)
    ensures Decode(Encode(b)) == Some(b)
  {
    StandardIsInverse();
    DecodeWithUndoes(Char, Index, b);
  }

  /** Nothing but an encoder's output decodes. */
  lemma EncodeUndoesDecode(s: Bytes)
    requires Decode(s).Some?
    ensures Encode(Decode(s).value) == s
  {
    StandardIsInverse();
    EncodeWithUndoes(Char, Index, s);
  }

  /** No character needs escaping in JSON, and the length is known. */
  lemma EncodeLength(b: Bytes)
    ensures |Encode(b)| == (|b| + 2) / 3 * 4
    ensures forall i :: 0 <= i < |Encode(b)| ==> Encode(b)[i] == PAD || Index(Encode(b)[i]).Some?
  {
    EncodedLength(Char, b);
    StandardIsInverse();
    forall i | 0 <= i < |Encode(b)| ensures Encode(b)[i] == PAD || Index(Encode(b)[i]).Some? {
      EncodedCharacters(Char, Index, b, i);
    }
  }

  // ---------------------------------------------------------------- the text, character by character

  /** Table 1 of RFC 4648: the value `n` is written as its `n`-th character. */
  lemma CharIsInTheAlphabet(n: nat)
    requires n < 64
    ensures Char(n) == if n < 26 then "ABCDEFGHIJKLMNOPQRSTUVWXYZ"[n] as int
                       else if n < 52 then "abcdefghijklmnopqrstuvwxyz"[n - 26] as int
                       else "0123456789+/"[n - 52] as int
  {
  }

  /** The 24 bits of one to three bytes, the first byte's highest, zeros where there are none. */
  function GroupBits(b: Bytes): (n: nat)
    requires 1 <= |b| <= 3
    ensures n < 0x100_0000
  {
    b[0] as int * 0x1_0000 + (if |b| > 1 then b[1] as int * 0x100 else 0) + (if |b| > 2 then b[2] as int else 0)
  }

  /** Each six bits as a character, padding for those that no byte reaches. */
  predicate IsGroupText(b: Bytes, text: Bytes)
    requires 1 <= |b| <= 3
  {
    && |text| == 4
    && text[0] == Char(GroupBits(b) / 0x4_0000) && text[1] == Char(GroupBits(b) / 0x1000 % 64)
    && text[2] == (if |b| > 1 then Char(GroupBits(b) / 64 % 64) else '=' as int)
    && text[3] == (if |b| > 2 then Char(GroupBits(b) % 64) else '=' as int)
  }

  lemma HighBits(a: nat, b: nat, c: nat)
    requires a < 256 && b < 256 && c < 256
    ensures var n := a * 0x1_0000 + b * 0x100 + c; n / 0x4_0000 == a / 4 && n / 0x1000 % 64 == a % 4 * 16 + b / 16
  {
    var n := a * 0x1_0000 + b * 0x100 + c;
    var high, low := a / 4, a % 4;
    assert n == high * 0x4_0000 + (low * 0x1_0000 + b * 0x100 + c);
    SecondDigit(high, low, b, c);
  }

  lemma SecondDigit(high: nat, low: nat, b: nat, c: nat)
    requires low < 4 && b < 256 && c < 256
    ensures (high * 0x4_0000 + (low * 0x1_0000 + b * 0x100 + c)) / 0x1000 % 64 == low * 16 + b / 16
  {
    var n := high * 0x4_0000 + (low * 0x1_0000 + b * 0x100 + c);
    var top, rest := b / 16, b % 16;
    assert n == (high * 64 + (low * 16 + top)) * 0x1000 + (rest * 0x100 + c);
    assert n / 0x1000 == high * 64 + (low * 16 + top);
  }

  lemma LowBits(a: nat, b: nat, c: nat)
    requires a < 256 && b < 256 && c < 256
    ensures var n := a * 0x1_0000 + b * 0x100 + c; n / 64 % 64 == b % 16 * 4 + c / 64 && n % 64 == c % 64
  {
  }

  lemma GroupIsSpelled(b: Bytes)
    requires 1 <= |b| <= 3
    ensures IsGroupText(b, EncodeGroup(Char, b))
  {
    HighBits(b[0], if |b| > 1 then b[1] as int else 0, if |b| > 2 then b[2] as int else 0);
    LowBits(b[0], if |b| > 1 then b[1] as int else 0, if |b| > 2 then b[2] as int else 0);
  }

  lemma SliceAfter(head: Bytes, rest: Bytes, from: nat, to: nat)
    requires from <= to <= |rest|
    ensures (head + rest)[|head| + from..|head| + to] == rest[from..to]
  {
  }

  /** Where the three bytes from byte `3 * i` end. */
  function GroupEnd(b: Bytes, i: nat): nat { if 3 * i + 3 <= |b| then 3 * i + 3 else |b| }

  lemma AfterFirst(b: Bytes, first: Bytes, rest: Bytes, head: Bytes, text: Bytes, i: nat)
    requires i > 0 && 3 * i < |b| && |first| == 3 && |head| == 4 && b == first + rest && 4 * i <= |text|
    ensures (head + text)[4 * i..4 * i + 4] == text[4 * (i - 1)..4 * i]
    ensures b[3 * i..GroupEnd(b, i)] == rest[3 * (i - 1)..GroupEnd(rest, i - 1)]
  {
    SliceAfter(first, rest, 3 * (i - 1), GroupEnd(rest, i - 1));
    SliceAfter(head, text, 4 * (i - 1), 4 * i);
  }

  lemma {:induction false} GroupIsAt(b: Bytes, i: nat)
    requires 3 * i < |b|
    ensures 4 * i + 4 <= |Encode(b)| && Encode(b)[4 * i..4 * i + 4] == EncodeGroup(Char, b[3 * i..GroupEnd(b, i)])
    decreases i
  {
    EncodeLength(b);
    if i == 0 {
      assert |b| <= 3 ==> b[..GroupEnd(b, i)] == b;
    } else {
      var rest := b[3..];
      GroupIsAt(rest, i - 1);
      AfterFirst(b, b[..3], rest, EncodeGroup(Char, b[..3]), Encode(rest), i);
    }
  }

  /** The text of every three bytes begun stands where they do. */
  lemma EncodeIsSpelled(b: Bytes, i: nat)
    requires 3 * i < |b|
    ensures 4 * i + 4 <= |Encode(b)| && IsGroupText(b[3 * i..GroupEnd(b, i)], Encode(b)[4 * i..4 * i + 4])
  {
    GroupIsAt(b, i);
    GroupIsSpelled(b[3 * i..GroupEnd(b, i)]);
  }
}
