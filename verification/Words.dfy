/** 32-bit words as their bits, the lowest first. */
module Words {

  type Word = w: seq<bool> | |w| == 32 witness seq(32, _ => false)

  function Zeros(k: nat): (z: seq<bool>)
    ensures |z| == k && forall i :: 0 <= i < k ==> !z[i]
  {
    seq(k, _ => false)
  }

  function Xor(a: Word, b: Word): (w: Word)
    ensures forall i :: 0 <= i < 32 ==> w[i] == (a[i] != b[i])
  {
    seq(32, i requires 0 <= i < 32 => a[i] != b[i])
  }

  /** Zeros come in at the top. */
  function ShiftRight(w: Word, k: nat): Word
    requires k <= 32
  {
    w[k..] + Zeros(k)
  }

  /** The low `k` bits alone. */
  function Low(w: Word, k: nat): Word
    requires k <= 32
  {
    w[..k] + Zeros(32 - k)
  }

  function Bits(n: nat, k: nat): (bits: seq<bool>)
    ensures |bits| == k
    decreases k
  {
    if k == 0 then [] else [n % 2 == 1] + Bits(n / 2, k - 1)
  }

  function Value(bits: seq<bool>): nat {
    if bits == [] then 0 else (if bits[0] then 1 else 0) + 2 * Value(bits[1..])
  }

  function ToWord(n: nat): Word { Bits(n, 32) }

  lemma {:induction false} BitsOfZero(k: nat)
    ensures Bits(0, k) == Zeros(k)
    decreases k
  {
    if k > 0 {
      BitsOfZero(k - 1);
    }
  }

  /** The bits of a number that fits in fewer. */
  lemma {:induction false} BitsOfValue(bits: seq<bool>, k: nat)
    requires |bits| <= k
    ensures Bits(Value(bits), k) == bits + Zeros(k - |bits|)
    decreases |bits|
  {
    if bits == [] {
      BitsOfZero(k);
    } else {
      BitsOfValue(bits[1..], k - 1);
      var rest := Value(bits[1..]);
      assert Value(bits) == (if bits[0] then 1 else 0) + 2 * rest;
      assert Bits(Value(bits), k) == [bits[0]] + Bits(rest, k - 1);
      assert bits == [bits[0]] + bits[1..];
    }
  }

  function PowerOfTwo(k: nat): (p: nat)
    ensures p > 0
  {
    if k == 0 then 1 else 2 * PowerOfTwo(k - 1)
  }

  lemma {:induction false} ValueIsSmall(bits: seq<bool>)
    ensures Value(bits) < PowerOfTwo(|bits|)
    decreases |bits|
  {
    if bits != [] {
      ValueIsSmall(bits[1..]);
    }
  }

  lemma PowersOfTwo()
    ensures PowerOfTwo(8) == 0x100 && PowerOfTwo(32) == 0x1_0000_0000
  {
    assert PowerOfTwo(4) == 0x10;
    assert PowerOfTwo(8) == 0x100;
    assert PowerOfTwo(12) == 0x1000;
    assert PowerOfTwo(16) == 0x1_0000;
    assert PowerOfTwo(20) == 0x10_0000;
    assert PowerOfTwo(24) == 0x100_0000;
    assert PowerOfTwo(28) == 0x1000_0000;
  }

  lemma {:induction false} SmallNumber(n: nat, k: nat, more: nat)
    requires n < PowerOfTwo(k)
    ensures Bits(n, k + more) == Bits(n, k) + Zeros(more)
    decreases k
  {
    if k == 0 {
      BitsOfZero(more);
    } else {
      SmallNumber(n / 2, k - 1, more);
    }
  }
}
