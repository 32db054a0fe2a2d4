/** Plain decimals: no sign, no leading zero. */
module Decimals {
  import opened Basics
  import opened Arithmetic

  predicate Digit(b: byte) { 0x30 <= b <= 0x39 }

  predicate Digits(d: Bytes) { forall i :: 0 <= i < |d| ==> Digit(d[i]) }

  function DigitOf(n: int): byte
    requires 0 <= n < 10
  {
    0x30 + n
  }

  function Decimal(n: nat): (d: Bytes)
    ensures |d| > 0 && Digits(d)
    ensures d[0] == 0x30 <==> n == 0
  {
    if n < 10 then [DigitOf(n)] else Decimal(n / 10) + [DigitOf(n % 10)]
  }

  /** The number digits spell when read after `acc`. */
  function Value(d: Bytes, acc: nat): nat
    requires Digits(d)
  {
    if d == [] then acc else Value(d[1..], acc * 10 + (d[0] as int - 0x30))
  }

  /** The longest run of digits `s` starts with, read after `n`. */
  function ParseDigits(s: Bytes, n: nat): (r: (nat, Bytes))
    ensures |r.1| <= |s|
    ensures s != [] && Digit(s[0]) ==> |r.1| < |s|
    decreases |s|
  {
    if s != [] && Digit(s[0]) then ParseDigits(s[1..], n * 10 + (s[0] as int - 0x30)) else (n, s)
  }

  /** What may follow a number without becoming part of it. */
  predicate Ends(rest: Bytes) { rest == [] || !Digit(rest[0]) }

  lemma {:induction false} ParsedDigits(d: Bytes, rest: Bytes, acc: nat)
    requires Digits(d) && Ends(rest)
    ensures ParseDigits(d + rest, acc) == (Value(d, acc), rest)
    decreases |d|
  {
    if d == [] {
      assert d + rest == rest;
    } else {
      assert (d + rest)[1..] == d[1..] + rest;
      ParsedDigits(d[1..], rest, acc * 10 + (d[0] as int - 0x30));
    }
  }

  lemma {:induction false} ValueOfMore(d: Bytes, last: byte, acc: nat)
    requires Digits(d) && Digit(last)
    ensures Digits(d + [last]) && Value(d + [last], acc) == Value(d, acc) * 10 + (last as int - 0x30)
    decreases |d|
  {
    if d == [] {
      assert (d + [last])[1..] == [];
    } else {
      assert (d + [last])[1..] == d[1..] + [last];
      ValueOfMore(d[1..], last, acc * 10 + (d[0] as int - 0x30));
    }
  }

  /** A decimal spells its number. */
  lemma {:induction false} DecimalSpells(n: nat)
    ensures Value(Decimal(n), 0) == n
    decreases n
  {
    if n >= 10 {
      DecimalSpells(n / 10);
      ValueOfMore(Decimal(n / 10), DigitOf(n % 10), 0);
    } else {
      assert Value(Decimal(n)[1..], n) == n;
    }
  }

  function PowerOfTen(k: nat): (p: nat)
    ensures p > 0
  {
    if k == 0 then 1 else 10 * PowerOfTen(k - 1)
  }

  lemma TenthOfTheQuotient(n: nat, k: nat)
    ensures n / 10 / PowerOfTen(k) == n / PowerOfTen(k + 1)
  {
    DivideTwice(n, 10, PowerOfTen(k));
  }

  lemma DigitCharacter(n: nat)
    requires n < 10
    ensures DigitOf(n) == "0123456789"[n] as int
  {
  }

  /** The characters of a decimal, most significant first, are the digits at its places. */
  lemma {:induction false} DecimalIsPositional(n: nat, i: nat)
    requires i < |Decimal(n)|
    ensures Decimal(n)[i] == "0123456789"[n / PowerOfTen(|Decimal(n)| - 1 - i) % 10] as int
    ensures n < PowerOfTen(|Decimal(n)|)
    decreases n
  {
    var places := |Decimal(n)|;
    DigitCharacter(n % 10);
    if n >= 10 {
      DecimalIsPositional(n / 10, if i < places - 1 then i else 0);
      if i < places - 1 {
        TenthOfTheQuotient(n, places - 2 - i);
      }
    }
  }

  lemma DecimalReadsBack(n: nat, rest: Bytes)
    requires Ends(rest)
    ensures ParseDigits(Decimal(n) + rest, 0) == (n, rest)
  {
    ParsedDigits(Decimal(n), rest, 0);
    DecimalSpells(n);
  }
}
