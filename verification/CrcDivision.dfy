/** CRC-32 as what it is defined to be: the remainder of dividing the message, a polynomial over two
    elements, by the generator polynomial. Coefficients are listed highest first. */
module CrcDivision {
  import Arithmetic
  import opened Basics
  import opened Iteration
  import opened Words
  import opened Crc

  // ---------------------------------------------------------------- the definition

  /** The generator's terms. */
  predicate IsTerm(power: nat) {
    power == 32 || power == 26 || power == 23 || power == 22 || power == 16 || power == 12 || power == 11 || power == 10
    || power == 8 || power == 7 || power == 5 || power == 4 || power == 2 || power == 1 || power == 0
  }

  function Generator(): (g: seq<bool>)
    ensures |g| == 33 && forall i :: 0 <= i < 33 ==> (g[i] <==> IsTerm(32 - i))
  {
    seq(33, i requires 0 <= i < 33 => IsTerm(32 - i))
  }

  /** The sum of two polynomials of the same length. */
  function Sum(a: seq<bool>, b: seq<bool>): (c: seq<bool>)
    requires |a| == |b|
    ensures |c| == |a| && forall i :: 0 <= i < |a| ==> c[i] == (a[i] != b[i])
  {
    seq(|a|, i requires 0 <= i < |a| => a[i] != b[i])
  }

  /** Long division: a leading term is cancelled by subtracting the generator under it. */
  function Remainder(dividend: seq<bool>): (r: seq<bool>)
    requires |dividend| >= 32
    ensures |r| == 32
    decreases |dividend|
  {
    if |dividend| == 32 then dividend
    else if !dividend[0] then Remainder(dividend[1..])
    else
      var reduced := Sum(dividend[..33], Generator());
      Remainder(reduced[1..] + dividend[33..])
  }

  /** A byte's bits, the lowest first. */
  function ByteBits(b: byte): (bits: seq<bool>)
    ensures |bits| == 8 && forall i :: 0 <= i < 8 ==> (bits[i] <==> b as int / PowerOfTwo(i) % 2 == 1)
  {
    seq(8, i requires 0 <= i < 8 => b as int / PowerOfTwo(i) % 2 == 1)
  }

  function MessageBits(bytes: Bytes): (bits: seq<bool>)
    ensures |bits| == 8 * |bytes|
  {
    if bytes == [] then [] else ByteBits(bytes[0]) + MessageBits(bytes[1..])
  }

  /** The first 32 coefficients complemented. */
  function Complemented(bits: seq<bool>): (c: seq<bool>)
    requires |bits| >= 32
    ensures |c| == |bits|
  {
    Sum(bits[..32], Ones()) + bits[32..]
  }

  // ---------------------------------------------------------------- the register divides

  /** The register's coefficients added to what is still to come. */
  function Window(c: Word, rest: seq<bool>): (w: seq<bool>)
    requires |rest| >= 32
    ensures |w| == |rest|
  {
    Sum(c, rest[..32]) + rest[32..]
  }

  function Bit(b: bool): nat { if b then 1 else 0 }

  lemma OneBit(n: nat, k: nat, a: bool, more: nat)
    requires n == Bit(a) + 2 * more && k >= 1
    ensures Bits(n, k) == [a] + Bits(more, k - 1)
  {
    assert n / 2 == more;
  }

  function Four(a: bool, b: bool, c: bool, d: bool): seq<bool> { [a, b, c, d] }

  lemma TwoBits(n: nat, k: nat, a: bool, b: bool, more: nat)
    requires n == Bit(a) + 2 * Bit(b) + 4 * more && k >= 2
    ensures Bits(n, k) == [a] + ([b] + Bits(more, k - 2))
  {
    OneBit(n, k, a, Bit(b) + 2 * more);
    OneBit(Bit(b) + 2 * more, k - 1, b, more);
  }

  lemma FourBits(n: nat, k: nat, a: bool, b: bool, c: bool, d: bool, more: nat)
    requires n == Bit(a) + 2 * Bit(b) + 4 * Bit(c) + 8 * Bit(d) + 16 * more && k >= 4
    ensures Bits(n, k) == Four(a, b, c, d) + Bits(more, k - 4)
  {
    var half := Bit(c) + 2 * Bit(d) + 4 * more;
    TwoBits(n, k, a, b, half);
    TwoBits(half, k - 2, c, d, more);
    ConsFour(a, b, c, d, Bits(more, k - 4));
  }

  lemma ConsFour(a: bool, b: bool, c: bool, d: bool, rest: seq<bool>)
    ensures [a] + ([b] + ([c] + ([d] + rest))) == Four(a, b, c, d) + rest
  {
  }

  /** The bits of a word's hexadecimal digits, the last digit first. */
  lemma LowHalf(n: nat, n1: nat, n2: nat, n3: nat, high: nat)
    requires n == 16 * n1 && n1 == 2 + 16 * n2 && n2 == 3 + 16 * n3 && n3 == 8 + 16 * high
    ensures Bits(n, 32) == Four(false, false, false, false) + (Four(false, true, false, false)
                           + (Four(true, true, false, false) + (Four(false, false, false, true) + Bits(high, 16))))
  {
    FourBits(n, 32, false, false, false, false, n1);
    FourBits(n1, 28, false, true, false, false, n2);
    FourBits(n2, 24, true, true, false, false, n3);
    FourBits(n3, 20, false, false, false, true, high);
  }

  lemma HighHalf(n: nat, n1: nat, n2: nat, n3: nat)
    requires n == 8 + 16 * n1 && n1 == 11 + 16 * n2 && n2 == 13 + 16 * n3 && n3 == 14
    ensures Bits(n, 16) == Four(false, false, false, true) + (Four(true, true, false, true)
                           + (Four(true, false, true, true) + (Four(false, true, true, true) + Bits(0, 0))))
  {
    FourBits(n, 16, false, false, false, true, n1);
    FourBits(n1, 12, true, true, false, true, n2);
    FourBits(n2, 8, true, false, true, true, n3);
    FourBits(n3, 4, false, true, true, true, 0);
  }

  lemma FourFirst(g: seq<bool>, i: nat)
    requires i + 4 <= |g|
    ensures g[i..] == Four(g[i], g[i + 1], g[i + 2], g[i + 3]) + g[i + 4..]
  {
  }

  /** Four of the generator's coefficients. */
  lemma FourTerms(i: nat, a: bool, b: bool, c: bool, d: bool)
    requires 1 <= i <= 29 && a == IsTerm(32 - i) && b == IsTerm(31 - i) && c == IsTerm(30 - i) && d == IsTerm(29 - i)
    ensures Generator()[i..] == Four(a, b, c, d) + Generator()[i + 4..]
  {
    var g := Generator();
    assert g[i] == a && g[i + 1] == b && g[i + 2] == c && g[i + 3] == d;
    FourFirst(g, i);
  }

  lemma LowTerms()
    ensures Generator()[1..] == Four(false, false, false, false) + (Four(false, true, false, false)
                                + (Four(true, true, false, false) + (Four(false, false, false, true) + Generator()[17..])))
  {
    FourTerms(1, false, false, false, false);
    FourTerms(5, false, true, false, false);
    FourTerms(9, true, true, false, false);
    FourTerms(13, false, false, false, true);
  }

  lemma HighTerms()
    ensures Generator()[17..] == Four(false, false, false, true) + (Four(true, true, false, true)
                                 + (Four(true, false, true, true) + (Four(false, true, true, true) + Generator()[33..])))
  {
    FourTerms(17, false, false, false, true);
    FourTerms(21, true, true, false, true);
    FourTerms(25, true, false, true, true);
    FourTerms(29, false, true, true, true);
  }

  lemma TermsAreBits(n: nat, high: nat)
    requires n == 0xEDB8_8320 && high == 0xEDB8
    ensures Generator()[1..] == Bits(n, 32)
  {
    LowTerms();
    HighTerms();
    LowHalf(n, 0xEDB_8832, 0xED_B883, 0xE_DB88, high);
    HighHalf(high, 0xEDB, 0xED, 0xE);
    assert Generator()[33..] == Bits(0, 0);
  }

  /** The reversed constant lists the generator's lower terms. */
  lemma PolynomialIsGenerator()
    ensures Generator()[1..] == POLYNOMIAL
  {
    TermsAreBits(0xEDB8_8320, 0xEDB8);
  }

  lemma ShiftInStep(c: Word, b: Word)
    ensures ShiftIn(c, b) == if c[0] != b[0] then Xor(POLYNOMIAL, Half(c)) else Half(c)
  {
    var x := Xor(c, Low(b, 1));
    assert x[0] == (c[0] != b[0]);
    assert Half(x) == Half(c);
  }

  lemma WindowMoves(c: Word, bit: bool, rest: seq<bool>)
    requires |rest| >= 32
    ensures var dividend := Window(c, [bit] + rest);
            dividend[0] == (c[0] != bit) && dividend[1..] == Window(Half(c), rest)
  {
    var dividend, next := Window(c, [bit] + rest), Window(Half(c), rest);
    forall i | 0 <= i < |rest| ensures dividend[i + 1] == next[i] {
    }
  }

  lemma CancelledMoves(c: Word, bit: bool, rest: seq<bool>)
    requires |rest| >= 32
    ensures var dividend := Window(c, [bit] + rest);
            Sum(dividend[..33], Generator())[1..] + dividend[33..] == Window(Xor(POLYNOMIAL, Half(c)), rest)
  {
    PolynomialIsGenerator();
    WindowMoves(c, bit, rest);
    var dividend, next := Window(c, [bit] + rest), Window(Half(c), rest);
    var reduced := Sum(dividend[..33], Generator())[1..] + dividend[33..];
    var cancelled := Window(Xor(POLYNOMIAL, Half(c)), rest);
    forall i | 0 <= i < |rest| ensures reduced[i] == cancelled[i] {
      assert dividend[i + 1] == dividend[1..][i] == next[i];
      assert i < 32 ==> Generator()[i + 1] == Generator()[1..][i];
    }
  }

  /** Shifting one bit in is one step of the division. */
  lemma StepDivides(c: Word, b: Word, rest: seq<bool>)
    requires |rest| >= 32
    ensures Remainder(Window(c, [b[0]] + rest)) == Remainder(Window(ShiftIn(c, b), rest))
  {
    var dividend := Window(c, [b[0]] + rest);
    ShiftInStep(c, b);
    WindowMoves(c, b[0], rest);
    if c[0] != b[0] {
      CancelledMoves(c, b[0], rest);
    }
  }

  lemma {:induction false} FeedDivides(c: Word, b: Word, k: nat, rest: seq<bool>)
    requires k <= 32 && |rest| >= 32
    ensures Remainder(Window(c, b[..k] + rest)) == Remainder(Window(Feed(ShiftIn, Half, c, b, k), rest))
    decreases k
  {
    if k == 0 {
      assert b[..0] + rest == rest;
    } else {
      assert b[..k] + rest == [b[0]] + (Half(b)[..k - 1] + rest);
      StepDivides(c, b, Half(b)[..k - 1] + rest);
      FeedDivides(ShiftIn(c, b), Half(b), k - 1, rest);
    }
  }

  lemma {:induction false} BitOf(n: nat, k: nat, i: nat)
    requires i < k
    ensures Bits(n, k)[i] <==> n / PowerOfTwo(i) % 2 == 1
    decreases k
  {
    if i > 0 {
      BitOf(n / 2, k - 1, i - 1);
      Arithmetic.DivideTwice(n, 2, PowerOfTwo(i - 1));
    }
  }

  lemma LowBits(b: byte)
    ensures ToWord(b)[..8] == ByteBits(b)
  {
    forall i: nat | i < 8 ensures ToWord(b)[i] == ByteBits(b)[i] {
      BitOf(b, 32, i);
    }
  }

  lemma {:induction false} SerialDivides(c: Word, bytes: Bytes, rest: seq<bool>)
    requires |rest| >= 32
    ensures Remainder(Window(c, MessageBits(bytes) + rest)) == Remainder(Window(Serial(c, bytes), rest))
    decreases |bytes|
  {
    if bytes == [] {
      assert MessageBits(bytes) + rest == rest;
    } else {
      var more := MessageBits(bytes[1..]) + rest;
      assert MessageBits(bytes) + rest == ByteBits(bytes[0]) + more;
      LowBits(bytes[0]);
      FeedDivides(c, ToWord(bytes[0]), 8, more);
      SerialDivides(Feed(ShiftIn, Half, c, ToWord(bytes[0]), 8), bytes[1..], rest);
    }
  }

  /** The checksum is the complement of the remainder, its lowest bit the highest coefficient, of the
      message followed by 32 zeros with the first 32 coefficients complemented. */
  lemma ChecksumIsRemainder(bytes: Bytes)
    ensures Crc32(bytes) == Sum(Remainder(Complemented(MessageBits(bytes) + Zeros(32))), Ones())
  {
    var register, bits := Serial(Ones(), bytes), MessageBits(bytes) + Zeros(32);
    SerialDivides(Ones(), bytes, Zeros(32));
    assert Window(Ones(), bits) == Complemented(bits);
    assert Window(register, Zeros(32)) == register;
  }
}
