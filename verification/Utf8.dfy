/** Well-formed UTF-8 is exactly the encoding of some characters (section 3 of RFC 3629). */
module Utf8 {
  import opened Basics
  import opened Text
  import opened Json

  /** The bytes of a text, character by character. A character is a Unicode scalar value. */
  function Encoded(s: string): Bytes {
    if s == "" then []
    else
      assert Utf8Of(s[0] as int).Some?;
      Utf8Of(s[0] as int).value + Encoded(s[1..])
  }

  lemma CharacterHead(c: char, rest: Bytes)
    ensures Utf8Of(c as int).Some?
    ensures var code := Utf8Of(c as int).value; Utf8Head(code + rest) == |code| > 0
  {
  }

  /** What a well-formed text encodes is well-formed. */
  lemma {:induction false} EncodedIsValid(s: string)
    ensures ValidUtf8(Encoded(s))
    decreases |s|
  {
    if s != "" {
      var code, rest := Utf8Of(s[0] as int).value, Encoded(s[1..]);
      EncodedIsValid(s[1..]);
      CharacterHead(s[0], rest);
      assert (code + rest)[|code|..] == rest;
    }
  }

  /** The code point of the sequence at the start. */
  function CodePoint(b: Bytes): (n: nat)
    requires Utf8Head(b) > 0
    ensures n < 0xD800 || 0xE000 <= n < 0x11_0000
  {
    if Utf8Head(b) == 1 then b[0]
    else if Utf8Head(b) == 2 then (b[0] as int - 0xC0) * 0x40 + (b[1] as int - 0x80)
    else if Utf8Head(b) == 3 then (b[0] as int - 0xE0) * 0x1000 + (b[1] as int - 0x80) * 0x40 + (b[2] as int - 0x80)
    else (b[0] as int - 0xF0) * 0x4_0000 + (b[1] as int - 0x80) * 0x1000 + (b[2] as int - 0x80) * 0x40 + (b[3] as int - 0x80)
  }

  lemma HeadIsItsCode(b: Bytes)
    requires Utf8Head(b) > 0
    ensures Utf8Of(CodePoint(b)) == Some(b[..Utf8Head(b)])
  {
    if Utf8Head(b) == 1 {
      assert b[..1] == [b[0]];
    } else if Utf8Head(b) == 2 {
      assert b[..2] == [b[0], b[1]];
    } else if Utf8Head(b) == 3 {
      ThreeByteCode(b[0] as int - 0xE0, b[1] as int - 0x80, b[2] as int - 0x80);
      assert b[..3] == [b[0], b[1], b[2]];
    } else {
      FourByteCode(b[0] as int - 0xF0, b[1] as int - 0x80, b[2] as int - 0x80, b[3] as int - 0x80);
      assert b[..4] == [b[0], b[1], b[2], b[3]];
    }
  }

  lemma ThreeByteCode(a: nat, b: nat, c: nat)
    requires b < 64 && c < 64
    ensures var n := a * 0x1000 + b * 0x40 + c; n / 0x1000 == a && n / 0x40 % 0x40 == b && n % 0x40 == c
  {
    var n := a * 0x1000 + b * 0x40 + c;
    assert n / 0x40 == a * 0x40 + b;
  }

  lemma FourByteCode(a: nat, b: nat, c: nat, d: nat)
    requires b < 64 && c < 64 && d < 64
    ensures var n := a * 0x4_0000 + b * 0x1000 + c * 0x40 + d;
            n / 0x4_0000 == a && n / 0x1000 % 0x40 == b && n / 0x40 % 0x40 == c && n % 0x40 == d
  {
    var n := a * 0x4_0000 + b * 0x1000 + c * 0x40 + d;
    ThreeByteCode(a * 0x40 + b, c, d);
    assert n == (a * 0x40 + b) * 0x1000 + c * 0x40 + d;
  }

  /** Well-formed bytes encode some text. */
  lemma {:induction false} ValidIsEncoded(b: Bytes) returns (s: string)
    requires ValidUtf8(b)
    ensures Encoded(s) == b
    decreases |b|
  {
    if b == [] {
      s := "";
    } else {
      var n := Utf8Head(b);
      HeadIsItsCode(b);
      var rest := ValidIsEncoded(b[n..]);
      var c := CodePoint(b) as char;
      s := [c] + rest;
      assert s[1..] == rest && b == b[..n] + b[n..];
    }
  }

  /** Both directions at once. */
  lemma ValidAreTheEncodings(b: Bytes)
    ensures ValidUtf8(b) <==> exists s: string :: Encoded(s) == b
  {
    if ValidUtf8(b) {
      var s := ValidIsEncoded(b);
    }
    if s: string :| Encoded(s) == b {
      EncodedIsValid(s);
    }
  }
}
