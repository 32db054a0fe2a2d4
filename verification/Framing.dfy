/** The frame both formats share: a big-endian length, a header of that length, and a body. */
module Framing {
  import opened Basics

  const U32_LIMIT := 0x1_0000_0000

  function ToU32(n: nat): (b: Bytes)
    requires n < U32_LIMIT
    ensures |b| == 4
  {
    var high := n / 0x1_0000;
    var low := n % 0x1_0000;
    [high / 0x100, high % 0x100, low / 0x100, low % 0x100]
  }

  function FromU32(b: Bytes): (n: nat)
    requires |b| == 4
    ensures n < U32_LIMIT
  {
    (b[0] as int * 0x100 + b[1] as int) * 0x1_0000 + (b[2] as int * 0x100 + b[3] as int)
  }

  /** The four bytes are the number, most significant byte first. */
  predicate IsBigEndian(b: Bytes, n: nat) {
    |b| == 4 && n == b[0] as int * 0x100_0000 + b[1] as int * 0x1_0000 + b[2] as int * 0x100 + b[3] as int
  }

  lemma ToU32IsBigEndian(n: nat)
    requires n < U32_LIMIT
    ensures IsBigEndian(ToU32(n), n)
  {
    var high, low := n / 0x1_0000, n % 0x1_0000;
    assert n == high * 0x1_0000 + low;
  }

  lemma FromU32InvertsToU32(n: nat)
    requires n < U32_LIMIT
    ensures FromU32(ToU32(n)) == n
  {
  }

  lemma ToU32InvertsFromU32(b: Bytes)
    requires |b| == 4
    ensures ToU32(FromU32(b)) == b
  {
    var high, low := b[0] as int * 0x100 + b[1] as int, b[2] as int * 0x100 + b[3] as int;
    assert FromU32(b) / 0x1_0000 == high && FromU32(b) % 0x1_0000 == low;
  }

  function Frame(header: Bytes, body: Bytes): Bytes
    requires |header| < U32_LIMIT
  {
    ToU32(|header|) + header + body
  }

  lemma FrameIsLaidOut(header: Bytes, body: Bytes)
    requires |header| < U32_LIMIT
    ensures var (bytes, n) := (Frame(header, body), |header|);
            |bytes| == 4 + n + |body| && IsBigEndian(bytes[..4], n) && bytes[4..4 + n] == header && bytes[4 + n..] == body
  {
    ToU32IsBigEndian(|header|);
  }

  lemma BigEndianIsUnique(a: Bytes, b: Bytes, n: nat)
    requires IsBigEndian(a, n) && IsBigEndian(b, n)
    ensures a == b
  {
    assert FromU32(a) == FromU32(b) == n;
    ToU32InvertsFromU32(a);
    ToU32InvertsFromU32(b);
  }

  datatype FrameError = TooShort | TooLarge

  /** Splits a frame whose header is at most `max` bytes. */
  function Unframe(bytes: Bytes, max: nat): Result<(Bytes, Bytes), FrameError> {
    if |bytes| < 4 then Err(TooShort) else
      var n := FromU32(bytes[..4]);
      if n > max then Err(TooLarge)
      else if |bytes| - 4 < n then Err(TooShort)
      else Ok((bytes[4..4 + n], bytes[4 + n..]))
  }

  lemma UnframeFramed(header: Bytes, body: Bytes, max: nat)
    requires |header| <= max < U32_LIMIT
    ensures Unframe(Frame(header, body), max) == Ok((header, body))
  {
    var bytes := Frame(header, body);
    assert bytes[..4] == ToU32(|header|);
    FromU32InvertsToU32(|header|);
    assert bytes[4..4 + |header|] == header && bytes[4 + |header|..] == body;
  }

  lemma FrameUnframed(bytes: Bytes, max: nat)
    requires max < U32_LIMIT && Unframe(bytes, max).Ok?
    ensures var (header, body) := Unframe(bytes, max).value;
            |header| <= max && bytes == Frame(header, body)
  {
    var (header, body) := Unframe(bytes, max).value;
    ToU32InvertsFromU32(bytes[..4]);
    assert bytes == bytes[..4] + header + body;
  }
}
