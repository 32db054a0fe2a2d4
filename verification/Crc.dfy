/** CRC-32, bit by bit and from a table. */
module Crc {
  import opened Basics
  import opened Iteration
  import opened Words

  const POLYNOMIAL: Word := ToWord(0xEDB8_8320)

  function Ones(): Word { seq(32, _ => true) }

  function Half(w: Word): Word { ShiftRight(w, 1) }

  /** One bit of division by the reflected polynomial. */
  function Step(c: Word): Word { if c[0] then Xor(POLYNOMIAL, Half(c)) else Half(c) }

  /** Shifts the lowest bit of `b` in. */
  function ShiftIn(c: Word, b: Word): Word { Step(Xor(c, Low(b, 1))) }

  /** The reference: the message's bits, each byte's lowest first, shifted in one at a time. */
  function Serial(c: Word, bytes: Bytes): Word
    decreases |bytes|
  {
    if bytes == [] then c else Serial(Feed(ShiftIn, Half, c, ToWord(bytes[0]), 8), bytes[1..])
  }

  function Crc32(bytes: Bytes): Word { Xor(Serial(Ones(), bytes), Ones()) }

  /** The table's entry for a byte. */
  function Entry(w: Word): Word { Iterate(Step, w, 8) }

  /** One byte through the table. */
  function TableStep(c: Word, b: Word): Word { Xor(Entry(Low(Xor(c, b), 8)), ShiftRight(c, 8)) }

  // ---------------------------------------------------------------- division is linear

  lemma StepIsLinear(x: Word, y: Word)
    ensures Step(Xor(x, y)) == Xor(Step(x), Step(y))
  {
    assert Half(Xor(x, y)) == Xor(Half(x), Half(y));
  }

  lemma StepTakesABit(c: Word, b: Word)
    ensures Step(Xor(c, b)) == Xor(ShiftIn(c, b), Half(b))
  {
    assert Half(Xor(c, b)) == Xor(Half(Xor(c, Low(b, 1))), Half(b));
  }

  lemma EntryIsLinear(x: Word, y: Word)
    ensures Entry(Xor(x, y)) == Xor(Entry(x), Entry(y))
  {
    forall a, b ensures Step(Xor(a, b)) == Xor(Step(a), Step(b)) {
      StepIsLinear(a, b);
    }
    IterateIsLinear(Step, Xor, x, y, 8);
  }

  lemma {:induction false} HalvesShift(w: Word, k: nat)
    requires k <= 32
    ensures Iterate(Half, w, k) == ShiftRight(w, k)
    decreases k
  {
    if k == 0 {
      assert ShiftRight(w, 0) == w;
    } else {
      HalvesShift(Half(w), k - 1);
      assert ShiftRight(Half(w), k - 1) == ShiftRight(w, k);
    }
  }

  /** Steps on a word whose low bits are zero only shift. */
  lemma {:induction false} ZerosFall(w: Word, k: nat)
    requires k <= 32 && forall i :: 0 <= i < k ==> !w[i]
    ensures Iterate(Step, w, k) == ShiftRight(w, k)
    decreases k
  {
    if k == 0 {
      assert ShiftRight(w, 0) == w;
    } else {
      assert forall i :: 0 <= i < k - 1 ==> !Half(w)[i] by {
        assert forall i :: 0 <= i < k - 1 ==> Half(w)[i] == w[i + 1];
      }
      ZerosFall(Half(w), k - 1);
      assert ShiftRight(Half(w), k - 1) == ShiftRight(w, k);
    }
  }

  lemma EntrySplits(w: Word)
    ensures Entry(w) == Xor(Entry(Low(w, 8)), ShiftRight(w, 8))
  {
    var high: Word := Zeros(8) + w[8..];
    assert Xor(Low(w, 8), high) == w;
    EntryIsLinear(Low(w, 8), high);
    ZerosFall(high, 8);
    assert ShiftRight(high, 8) == ShiftRight(w, 8);
  }

  /** One byte through the table is its eight bits shifted in. */
  lemma TableStepIsSerial(c: Word, b: Word)
    requires forall i :: 8 <= i < 32 ==> !b[i]
    ensures TableStep(c, b) == Feed(ShiftIn, Half, c, b, 8)
  {
    EntrySplits(Xor(c, b));
    assert ShiftRight(Xor(c, b), 8) == ShiftRight(c, 8);
    EntryIsFed(c, b);
  }

  lemma EntryIsFed(c: Word, b: Word)
    requires forall i :: 8 <= i < 32 ==> !b[i]
    ensures Entry(Xor(c, b)) == Feed(ShiftIn, Half, c, b, 8)
  {
    forall x, y ensures Step(Xor(x, y)) == Xor(ShiftIn(x, y), Half(y)) {
      StepTakesABit(x, y);
    }
    AddedIsFed(Step, Xor, ShiftIn, Half, c, b, 8);
    HalvesShift(b, 8);
    XorNothing(Feed(ShiftIn, Half, c, b, 8), b);
  }

  lemma XorNothing(w: Word, b: Word)
    requires forall i :: 8 <= i < 32 ==> !b[i]
    ensures Xor(w, ShiftRight(b, 8)) == w
  {
  }

  // ---------------------------------------------------------------- the table and the loop

  function ByteEntry(n: nat): Word { Entry(ToWord(n)) }

  ghost predicate IsTable(table: seq<Word>) { |table| == 256 && Tabulates(table, ByteEntry) }

  /** The inner loop: eight division steps. */
  method MakeEntry(n: nat) returns (c: Word)
    ensures c == ByteEntry(n)
  {
    c := ToWord(n);
    ghost var entry := Entry(c);
    for k := 0 to 8
      invariant Iterate(Step, c, 8 - k) == entry
    {
      IterateOnce(c, 8 - k);
      c := if c[0] then Xor(POLYNOMIAL, ShiftRight(c, 1)) else ShiftRight(c, 1);
    }
  }

  /** The outer loop's body. */
  method SetEntry(table: array<Word>, n: nat)
    requires n < table.Length && Tabulates(table[..n], ByteEntry)
    modifies table
    ensures Tabulates(table[..n + 1], ByteEntry)
  {
    ghost var before := table[..n];
    var c := MakeEntry(n);
    table[n] := c;
    OneEntryMore(before, ByteEntry, n, c, table[..n + 1]);
  }

  /** The outer loop: one entry for each byte. */
  method FillTable(table: array<Word>)
    requires table.Length == 256
    modifies table
    ensures IsTable(table[..])
  {
    for n := 0 to 256
      invariant Tabulates(table[..n], ByteEntry)
    {
      SetEntry(table, n);
    }
    assert table[..256] == table[..];
  }

  method MakeTable() returns (table: array<Word>)
    ensures fresh(table) && IsTable(table[..])
  {
    table := new Word[256](_ => Zeros(32));
    FillTable(table);
  }

  lemma IterateOnce(c: Word, k: nat)
    requires k > 0
    ensures Iterate(Step, c, k) == Iterate(Step, Step(c), k - 1)
  {
  }

  lemma ByteBits(b: byte)
    ensures forall i :: 8 <= i < 32 ==> !ToWord(b)[i]
  {
    PowersOfTwo();
    SmallNumber(b, 8, 24);
  }

  lemma TableIndex(w: Word)
    ensures Value(w[..8]) < 256 && ToWord(Value(w[..8])) == Low(w, 8)
  {
    PowersOfTwo();
    ValueIsSmall(w[..8]);
    BitsOfValue(w[..8], 32);
  }

  lemma {:induction false} SerialOfMore(c: Word, bytes: Bytes, last: byte)
    ensures Serial(c, bytes + [last]) == Feed(ShiftIn, Half, Serial(c, bytes), ToWord(last), 8)
    decreases |bytes|
  {
    if bytes == [] {
      assert bytes + [last] == [last] && [last][1..] == [];
    } else {
      assert (bytes + [last])[1..] == bytes[1..] + [last];
      SerialOfMore(Feed(ShiftIn, Half, c, ToWord(bytes[0]), 8), bytes[1..], last);
    }
  }

  /** What the loop body computes, from the table. */
  lemma LookupIsSerial(table: seq<Word>, crc: Word, b: byte)
    requires IsTable(table)
    ensures var low := Value(Xor(crc, ToWord(b))[..8]);
            low < 256 && Xor(table[low], ShiftRight(crc, 8)) == Feed(ShiftIn, Half, crc, ToWord(b), 8)
  {
    TableIndex(Xor(crc, ToWord(b)));
    EntryAt(table, ByteEntry, Value(Xor(crc, ToWord(b))[..8]));
    ByteBits(b);
    TableStepIsSerial(crc, ToWord(b));
  }

  lemma SerialStep(c: Word, bytes: Bytes, i: nat)
    requires i < |bytes|
    ensures Serial(c, bytes[..i + 1]) == Feed(ShiftIn, Half, Serial(c, bytes[..i]), ToWord(bytes[i]), 8)
  {
    assert bytes[..i + 1] == bytes[..i] + [bytes[i]];
    SerialOfMore(c, bytes[..i], bytes[i]);
  }

  /** The loop's body. */
  method NextByte(table: array<Word>, crc: Word, b: byte) returns (next: Word)
    requires IsTable(table[..])
    ensures next == Feed(ShiftIn, Half, crc, ToWord(b), 8)
  {
    LookupIsSerial(table[..], crc, b);
    var low := Value(Xor(crc, ToWord(b))[..8]);
    next := Xor(table[low], ShiftRight(crc, 8));
  }

  /** The loop. */
  method AllBytes(table: array<Word>, start: Word, bytes: Bytes) returns (crc: Word)
    requires IsTable(table[..])
    ensures crc == Serial(start, bytes)
  {
    crc := start;
    for i := 0 to |bytes|
      invariant crc == Serial(start, bytes[..i])
    {
      SerialStep(start, bytes, i);
      crc := NextByte(table, crc, bytes[i]);
    }
    assert bytes[..|bytes|] == bytes;
  }

  /** The table-driven checksum is the bit-by-bit one. */
  method TableCrc32(table: array<Word>, bytes: Bytes) returns (crc: Word)
    requires IsTable(table[..])
    ensures crc == Crc32(bytes)
  {
    var ones := Ones();
    crc := AllBytes(table, ones, bytes);
    crc := Xor(crc, ones);
  }
}
