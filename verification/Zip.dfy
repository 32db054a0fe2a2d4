/** The store-only zip writer, and a reader that follows the archive's own records: the end record
    (section 4.3.16 of APPNOTE), the central directory (4.3.12) and the local headers (4.3.7). */
module Zip {
  import opened Basics
  import Words
  import opened Crc
  import Arithmetic
  import Buffers
  import Payloads

  const VERSION := 20
  const UTF8_NAMES := 0x0800
  const U32_MAX := 0xFFFF_FFFF
  const U16_MAX := 0xFFFF
  const LOCAL_SIGNATURE := 0x0403_4B50
  const CENTRAL_SIGNATURE := 0x0201_4B50
  const END_SIGNATURE := 0x0605_4B50

  datatype File = File(name: Bytes, data: Bytes)

  /** A file as the archive describes it, with its checksum. */
  datatype Entry = Entry(name: Bytes, data: Bytes, crc: nat)

  /** An MS-DOS time and date, two 16-bit fields. */
  datatype Stamp = Stamp(time: nat, day: nat)

  predicate Is16Bit(s: Stamp) { s.time <= U16_MAX && s.day <= U16_MAX }

  function Clamp(n: int, low: int, high: int): int
    requires low <= high
  {
    if n < low then low else if n > high then high else n
  }

  /** A local date and time as MS-DOS keeps it: years from 1980 to 2107, and every second second. */
  function DosDateTime(year: int, month: nat, day: nat, hour: nat, minute: nat, second: nat): Stamp
    requires 1 <= month <= 12 && 1 <= day <= 31 && hour < 24 && minute < 60 && second < 60
  {
    Stamp(hour * 2048 + minute * 32 + second / 2, (Clamp(year, 1980, 2107) - 1980) * 512 + month * 32 + day)
  }

  /** Three numbers packed one above the other come apart again. */
  lemma Unpack(a: nat, b: nat, c: nat, width: nat)
    requires c < 32 && b < width
    ensures var n := (a * width + b) * 32 + c; n / 32 == a * width + b && n % 32 == c
    ensures (a * width + b) / width == a && (a * width + b) % width == b
  {
    Arithmetic.RemainderOf(a * width + b, 32, c);
    Arithmetic.RemainderOf(a, width, b);
  }

  /** The stamp fits its fields, and its bits give the date and time back. */
  lemma StampReadsBack(year: int, month: nat, day: nat, hour: nat, minute: nat, second: nat)
    requires 1 <= month <= 12 && 1 <= day <= 31 && hour < 24 && minute < 60 && second < 60
    ensures var s := DosDateTime(year, month, day, hour, minute, second);
            && Is16Bit(s) && s.time / 32 / 64 == hour && s.time / 32 % 64 == minute && s.time % 32 == second / 2
            && s.day / 32 / 16 + 1980 == Clamp(year, 1980, 2107) && s.day / 32 % 16 == month && s.day % 32 == day
  {
    Unpack(hour, minute, second / 2, 64);
    Unpack(Clamp(year, 1980, 2107) - 1980, month, day, 16);
  }

  function Checksum(data: Bytes): nat { Words.Value(Crc32(data)) }

  function EntryFor(f: File): Entry { Entry(f.name, f.data, Checksum(f.data)) }

  function EntriesFor(files: seq<File>): (entries: seq<Entry>)
    ensures |entries| == |files|
    ensures forall i :: 0 <= i < |files| ==>
              entries[i].name == files[i].name && entries[i].data == files[i].data && entries[i].crc == Words.Value(Crc32(files[i].data))
  {
    seq(|files|, i requires 0 <= i < |files| => EntryFor(files[i]))
  }

  lemma ChecksumFits(data: Bytes)
    ensures Checksum(data) <= U32_MAX
  {
    Words.PowersOfTwo();
    Words.ValueIsSmall(Crc32(data));
  }

  // ---------------------------------------------------------------- little-endian fields

  function U16At(b: Bytes, i: nat): nat
    requires i + 2 <= |b|
  {
    b[i] as int + b[i + 1] as int * 0x100
  }

  function U32At(b: Bytes, i: nat): nat
    requires i + 4 <= |b|
  {
    U16At(b, i) + U16At(b, i + 2) * 0x1_0000
  }

  /** `b` is as it was, outside `n` bytes from `at`. */
  ghost predicate Unchanged(b: Bytes, was: Bytes, at: nat, n: nat) {
    |b| == |was| && forall i :: 0 <= i < |b| && !(at <= i < at + n) ==> b[i] == was[i]
  }

  method SetUint16(a: array<byte>, at: nat, n: nat)
    requires at + 2 <= a.Length && n <= U16_MAX
    modifies a
    ensures Unchanged(a[..], old(a[..]), at, 2) && U16At(a[..], at) == n
  {
    a[at] := n % 0x100;
    a[at + 1] := n / 0x100;
  }

  method SetUint32(a: array<byte>, at: nat, n: nat)
    requires at + 4 <= a.Length && n <= U32_MAX
    modifies a
    ensures Unchanged(a[..], old(a[..]), at, 4) && U32At(a[..], at) == n
  {
    SetUint16(a, at, n % 0x1_0000);
    ghost var half := a[..];
    SetUint16(a, at + 2, n / 0x1_0000);
    assert U16At(a[..], at) == U16At(half, at);
  }

  /** What setting bytes in a buffer leaves unchanged. */
  lemma OnlySet(was: Bytes, now: Bytes, src: Bytes, at: nat)
    requires |now| == |was| && at + |src| <= |was|
    requires now[..at + |src|] == was[..at] + src && now[at + |src|..] == was[at + |src|..]
    ensures Unchanged(now, was, at, |src|) && now[at..at + |src|] == src
  {
    assert now == now[..at + |src|] + now[at + |src|..];
    assert now[at..at + |src|] == now[..at + |src|][at..];
  }

  // ---------------------------------------------------------------- the records

  /** The fields both headers have, one after another: the version needed, the flags, the method
      (stored), the time, the date, the checksum, the two sizes and the name's length. */
  ghost predicate IsDescribed(h: Bytes, at: nat, e: Entry, s: Stamp)
    requires at + 24 <= |h|
  {
    && U16At(h, at) == VERSION && U16At(h, at + 2) == UTF8_NAMES && U16At(h, at + 4) == 0
    && U16At(h, at + 6) == s.time && U16At(h, at + 8) == s.day && U32At(h, at + 10) == e.crc
    && U32At(h, at + 14) == |e.data| && U32At(h, at + 18) == |e.data| && U16At(h, at + 22) == |e.name|
  }

  ghost predicate IsLocal(h: Bytes, e: Entry, s: Stamp) {
    && |h| == 30 + |e.name| && U32At(h, 0) == LOCAL_SIGNATURE && IsDescribed(h, 4, e, s) && U16At(h, 28) == 0
    && h[30..] == e.name
  }

  ghost predicate IsCentral(h: Bytes, e: Entry, s: Stamp, offset: nat) {
    && |h| == 46 + |e.name| && U32At(h, 0) == CENTRAL_SIGNATURE && U16At(h, 4) == VERSION && IsDescribed(h, 6, e, s)
    && (forall i :: 30 <= i < 42 ==> h[i] == 0) && U32At(h, 42) == offset
    && h[46..] == e.name
  }

  ghost predicate IsEnd(h: Bytes, count: nat, size: nat, offset: nat) {
    && |h| == 22
    && U32At(h, 0) == END_SIGNATURE && U32At(h, 4) == 0 && U16At(h, 8) == count && U16At(h, 10) == count
    && U32At(h, 12) == size && U32At(h, 16) == offset && U16At(h, 20) == 0
  }

  ghost predicate Fits(e: Entry, s: Stamp) { |e.name| <= U16_MAX && |e.data| <= U32_MAX && e.crc <= U32_MAX && Is16Bit(s) }

  method SetStamp(a: array<byte>, at: nat, s: Stamp)
    requires at + 10 <= a.Length && Is16Bit(s)
    modifies a
    ensures Unchanged(a[..], old(a[..]), at, 10)
    ensures U16At(a[..], at) == VERSION && U16At(a[..], at + 2) == UTF8_NAMES && U16At(a[..], at + 4) == 0
    ensures U16At(a[..], at + 6) == s.time && U16At(a[..], at + 8) == s.day
  {
    SetUint16(a, at, VERSION);
    SetUint16(a, at + 2, UTF8_NAMES);
    SetUint16(a, at + 4, 0);
    SetUint16(a, at + 6, s.time);
    SetUint16(a, at + 8, s.day);
  }

  method SetSizes(a: array<byte>, at: nat, e: Entry)
    requires at + 14 <= a.Length && |e.name| <= U16_MAX && |e.data| <= U32_MAX && e.crc <= U32_MAX
    modifies a
    ensures Unchanged(a[..], old(a[..]), at, 14)
    ensures U32At(a[..], at) == e.crc && U32At(a[..], at + 4) == |e.data| && U32At(a[..], at + 8) == |e.data|
    ensures U16At(a[..], at + 12) == |e.name|
  {
    SetUint32(a, at, e.crc);
    SetUint32(a, at + 4, |e.data|);
    SetUint32(a, at + 8, |e.data|);
    SetUint16(a, at + 12, |e.name|);
  }

  method SetDescription(a: array<byte>, at: nat, e: Entry, s: Stamp)
    requires at + 24 <= a.Length && Fits(e, s)
    modifies a
    ensures Unchanged(a[..], old(a[..]), at, 24) && IsDescribed(a[..], at, e, s)
  {
    SetStamp(a, at, s);
    ghost var half := a[..];
    SetSizes(a, at + 10, e);
    assert forall i :: at <= i < at + 10 ==> a[..][i] == half[i];
  }

  /** Writing past a description leaves it. */
  lemma DescriptionStays(was: Bytes, now: Bytes, at: nat, from: nat, n: nat, e: Entry, s: Stamp)
    requires at + 24 <= |was| && at + 24 <= from && Unchanged(now, was, from, n) && IsDescribed(was, at, e, s)
    ensures IsDescribed(now, at, e, s)
  {
  }

  lemma FieldStays(was: Bytes, now: Bytes, at: nat, from: nat, n: nat)
    requires at + 4 <= |was| && Unchanged(now, was, from, n) && (at + 4 <= from || from + n <= at)
    ensures U32At(now, at) == U32At(was, at) && U16At(now, at) == U16At(was, at) && U16At(now, at + 2) == U16At(was, at + 2)
  {
  }

  lemma LocalIsWritten(signed: Bytes, described: Bytes, ended: Bytes, named: Bytes, e: Entry, s: Stamp)
    requires |signed| == |named| == 30 + |e.name| && U32At(signed, 0) == LOCAL_SIGNATURE
    requires Unchanged(described, signed, 4, 24) && IsDescribed(described, 4, e, s)
    requires Unchanged(ended, described, 28, 2) && U16At(ended, 28) == 0
    requires Unchanged(named, ended, 30, |e.name|) && named[30..30 + |e.name|] == e.name
    ensures IsLocal(named, e, s)
  {
    FieldStays(signed, described, 0, 4, 24);
    FieldStays(described, ended, 0, 28, 2);
    FieldStays(ended, named, 0, 30, |e.name|);
    FieldStays(ended, named, 26, 30, |e.name|);
    DescriptionStays(described, ended, 4, 28, 2, e, s);
    DescriptionStays(ended, named, 4, 30, |e.name|, e, s);
  }

  method LocalHeader(e: Entry, s: Stamp) returns (local: array<byte>)
    requires Fits(e, s)
    ensures fresh(local) && local.Length == 30 + |e.name| && IsLocal(local[..], e, s)
  {
    local := new byte[30 + |e.name|](_ => 0);
    SetUint32(local, 0, LOCAL_SIGNATURE);
    ghost var signed := local[..];
    SetDescription(local, 4, e, s);
    ghost var described := local[..];
    SetUint16(local, 28, 0);
    ghost var ended := local[..];
    Buffers.Set(local, e.name, 30);
    OnlySet(ended, local[..], e.name, 30);
    LocalIsWritten(signed, described, ended, local[..], e, s);
  }

  lemma CentralIsWritten(signed: Bytes, described: Bytes, ended: Bytes, named: Bytes, e: Entry, s: Stamp, offset: nat)
    requires |signed| == |named| == 46 + |e.name| && U32At(signed, 0) == CENTRAL_SIGNATURE && U16At(signed, 4) == VERSION
    requires forall i :: 30 <= i < 42 ==> signed[i] == 0
    requires Unchanged(described, signed, 6, 24) && IsDescribed(described, 6, e, s)
    requires Unchanged(ended, described, 42, 4) && U32At(ended, 42) == offset
    requires Unchanged(named, ended, 46, |e.name|) && named[46..46 + |e.name|] == e.name
    ensures IsCentral(named, e, s, offset)
  {
    assert forall i :: 0 <= i < 6 || 30 <= i < 42 ==> named[i] == signed[i];
    FieldStays(ended, named, 42, 46, |e.name|);
    DescriptionStays(described, ended, 6, 42, 4, e, s);
    DescriptionStays(ended, named, 6, 46, |e.name|, e, s);
  }

  method CentralHeader(e: Entry, s: Stamp, offset: nat) returns (header: array<byte>)
    requires Fits(e, s) && offset <= U32_MAX
    ensures fresh(header) && header.Length == 46 + |e.name| && IsCentral(header[..], e, s, offset)
  {
    header := new byte[46 + |e.name|](_ => 0);
    SetUint32(header, 0, CENTRAL_SIGNATURE);
    SetUint16(header, 4, VERSION);
    ghost var signed := header[..];
    SetDescription(header, 6, e, s);
    ghost var described := header[..];
    // Extra length, comment length, disk number and attributes stay zero.
    SetUint32(header, 42, offset);
    ghost var ended := header[..];
    Buffers.Set(header, e.name, 46);
    OnlySet(ended, header[..], e.name, 46);
    CentralIsWritten(signed, described, ended, header[..], e, s, offset);
  }

  method EndRecord(count: nat, size: nat, offset: nat) returns (end: array<byte>)
    requires count <= U16_MAX && size <= U32_MAX && offset <= U32_MAX
    ensures fresh(end) && IsEnd(end[..], count, size, offset)
  {
    end := new byte[22](_ => 0);
    SetUint32(end, 0, END_SIGNATURE);
    SetUint16(end, 8, count);
    SetUint16(end, 10, count);
    SetUint32(end, 12, size);
    SetUint32(end, 16, offset);
  }

  // ---------------------------------------------------------------- the whole archive

  function RecordSize(f: File): nat { 30 + |f.name| + |f.data| + 46 + |f.name| }

  function Total(files: seq<File>): nat {
    if files == [] then 0 else Total(files[..|files| - 1]) + RecordSize(files[|files| - 1])
  }

  /** Where the local header of entry `i` starts; past the last, where the central directory does. */
  function Offset(entries: seq<Entry>, i: nat): nat
    requires i <= |entries|
  {
    if i == 0 then 0 else Offset(entries, i - 1) + 30 + |entries[i - 1].name| + |entries[i - 1].data|
  }

  /** Where the central header of entry `i` starts inside the directory. */
  function CentralOffset(entries: seq<Entry>, i: nat): nat
    requires i <= |entries|
  {
    if i == 0 then 0 else CentralOffset(entries, i - 1) + 46 + |entries[i - 1].name|
  }

  datatype Refusal = TooManyFiles | FileTooLarge | ArchiveTooLarge

  /** Why the writer refuses, if it does. */
  function RefusalOf(files: seq<File>): Option<Refusal> {
    if |files| > U16_MAX then Some(TooManyFiles)
    else if exists i :: 0 <= i < |files| && (|files[i].name| > U16_MAX || |files[i].data| > U32_MAX) then Some(FileTooLarge)
    else if Total(files) > U32_MAX then Some(ArchiveTooLarge)
    else None
  }

  /** The local headers, each followed by its file's data. */
  function Laid(locals: seq<Bytes>, entries: seq<Entry>, n: nat): (parts: seq<Bytes>)
    requires n <= |locals| && n <= |entries|
  {
    if n == 0 then [] else Laid(locals, entries, n - 1) + [locals[n - 1], entries[n - 1].data]
  }

  /** The first `n` headers are the entries'. */
  ghost predicate AreLocals(locals: seq<Bytes>, entries: seq<Entry>, s: Stamp, n: nat)
    requires n <= |locals| && n <= |entries|
  {
    n == 0 || (IsLocal(locals[n - 1], entries[n - 1], s) && AreLocals(locals, entries, s, n - 1))
  }

  ghost predicate AreCentrals(central: seq<Bytes>, entries: seq<Entry>, s: Stamp, n: nat)
    requires n <= |central| && n <= |entries|
  {
    n == 0 || (IsCentral(central[n - 1], entries[n - 1], s, Offset(entries, n - 1)) && AreCentrals(central, entries, s, n - 1))
  }

  lemma {:induction false} LocalAt(locals: seq<Bytes>, entries: seq<Entry>, s: Stamp, i: nat, n: nat)
    requires i < n <= |locals| && n <= |entries| && AreLocals(locals, entries, s, n)
    ensures IsLocal(locals[i], entries[i], s) && AreLocals(locals, entries, s, i)
    decreases n
  {
    if i < n - 1 {
      LocalAt(locals, entries, s, i, n - 1);
    }
  }

  lemma {:induction false} CentralAt(central: seq<Bytes>, entries: seq<Entry>, s: Stamp, i: nat, n: nat)
    requires i < n <= |central| && n <= |entries| && AreCentrals(central, entries, s, n)
    ensures IsCentral(central[i], entries[i], s, Offset(entries, i)) && AreCentrals(central, entries, s, i)
    decreases n
  {
    if i < n - 1 {
      CentralAt(central, entries, s, i, n - 1);
    }
  }

  /** The parts: local headers and data, then the central headers, then the end record. */
  ghost predicate IsArchive(parts: seq<Bytes>, entries: seq<Entry>, s: Stamp) {
    exists locals, central, end :: IsLaidOut(parts, entries, s, locals, central, end)
  }

  ghost predicate IsLaidOut(parts: seq<Bytes>, entries: seq<Entry>, s: Stamp, locals: seq<Bytes>, central: seq<Bytes>, end: Bytes) {
    var n := |entries|;
    && |locals| == n && |central| == n && AreLocals(locals, entries, s, n) && AreCentrals(central, entries, s, n)
    && IsEnd(end, n, CentralOffset(entries, n), Offset(entries, n))
    && parts == Laid(locals, entries, n) + central + [end]
  }

  lemma {:induction false} TotalSplits(files: seq<File>, i: nat)
    requires i <= |files|
    ensures Total(files[..i]) == Offset(EntriesFor(files), i) + CentralOffset(EntriesFor(files), i)
    decreases i
  {
    if i > 0 {
      TotalSplits(files, i - 1);
      TotalOfMore(files, i);
      OffsetsOfMore(files, EntriesFor(files), i);
    }
  }

  lemma OffsetsOfMore(files: seq<File>, entries: seq<Entry>, i: nat)
    requires entries == EntriesFor(files) && 0 < i <= |files|
    ensures Offset(entries, i) + CentralOffset(entries, i)
         == Offset(entries, i - 1) + CentralOffset(entries, i - 1) + RecordSize(files[i - 1])
  {
  }

  lemma TotalOfMore(files: seq<File>, i: nat)
    requires 0 < i <= |files|
    ensures Total(files[..i]) == Total(files[..i - 1]) + RecordSize(files[i - 1])
  {
    assert files[..i][..i - 1] == files[..i - 1];
  }

  lemma {:induction false} OffsetsGrow(entries: seq<Entry>, i: nat, k: nat)
    requires i <= k <= |entries|
    ensures Offset(entries, i) <= Offset(entries, k) && CentralOffset(entries, i) <= CentralOffset(entries, k)
    decreases k
  {
    if i < k {
      OffsetsGrow(entries, i, k - 1);
    }
  }

  /** No refusal means that every offset and every size fits its field. */
  lemma AcceptedFits(files: seq<File>, s: Stamp)
    requires RefusalOf(files).None? && Is16Bit(s)
    ensures AllFit(EntriesFor(files), s)
  {
    var entries, n := EntriesFor(files), |files|;
    assert files[..n] == files;
    TotalSplits(files, n);
    forall i | 0 <= i <= n ensures Offset(entries, i) <= U32_MAX {
      OffsetsGrow(entries, i, n);
    }
    forall i | 0 <= i < n ensures Fits(entries[i], s) {
      ChecksumFits(files[i].data);
    }
  }

  /** The bounds, checked before any checksum is computed. */
  method CheckBounds(files: seq<File>) returns (refusal: Option<Refusal>)
    ensures refusal == RefusalOf(files)
  {
    if |files| > U16_MAX {
      return Some(TooManyFiles);
    }
    var total := 0;
    for i := 0 to |files|
      invariant total == Total(files[..i])
      invariant forall k :: 0 <= k < i ==> |files[k].name| <= U16_MAX && |files[k].data| <= U32_MAX
    {
      if |files[i].name| > U16_MAX || |files[i].data| > U32_MAX {
        return Some(FileTooLarge);
      }
      assert files[..i + 1][..i] == files[..i];
      total := total + (30 + |files[i].name| + |files[i].data| + 46 + |files[i].name|);
    }
    assert files[..|files|] == files;
    if total > U32_MAX {
      return Some(ArchiveTooLarge);
    }
    return None;
  }

  lemma {:induction false} LocalsKept(locals: seq<Bytes>, entries: seq<Entry>, s: Stamp, local: Bytes, n: nat)
    requires n <= |locals| && n <= |entries| && AreLocals(locals, entries, s, n)
    ensures AreLocals(locals + [local], entries, s, n) && Laid(locals + [local], entries, n) == Laid(locals, entries, n)
    decreases n
  {
    if n > 0 {
      LocalsKept(locals, entries, s, local, n - 1);
      assert (locals + [local])[n - 1] == locals[n - 1];
    }
  }

  lemma LocalsMore(locals: seq<Bytes>, entries: seq<Entry>, s: Stamp, local: Bytes)
    requires |locals| < |entries| && AreLocals(locals, entries, s, |locals|) && IsLocal(local, entries[|locals|], s)
    ensures AreLocals(locals + [local], entries, s, |locals| + 1)
    ensures Laid(locals + [local], entries, |locals| + 1) == Laid(locals, entries, |locals|) + [local, entries[|locals|].data]
  {
    LocalsKept(locals, entries, s, local, |locals|);
  }

  lemma {:induction false} CentralsKept(central: seq<Bytes>, entries: seq<Entry>, s: Stamp, header: Bytes, n: nat)
    requires n <= |central| && n <= |entries| && AreCentrals(central, entries, s, n)
    ensures AreCentrals(central + [header], entries, s, n)
    decreases n
  {
    if n > 0 {
      CentralsKept(central, entries, s, header, n - 1);
      assert (central + [header])[n - 1] == central[n - 1];
    }
  }

  lemma CentralsMore(central: seq<Bytes>, entries: seq<Entry>, s: Stamp, header: Bytes)
    requires |central| < |entries| && AreCentrals(central, entries, s, |central|)
    requires IsCentral(header, entries[|central|], s, Offset(entries, |central|))
    ensures AreCentrals(central + [header], entries, s, |central| + 1)
  {
    CentralsKept(central, entries, s, header, |central|);
  }

  method Headers(e: Entry, s: Stamp, offset: nat) returns (local: Bytes, header: Bytes)
    requires Fits(e, s) && offset <= U32_MAX
    ensures IsLocal(local, e, s) && IsCentral(header, e, s, offset) && |local| == 30 + |e.name| && |header| == 46 + |e.name|
  {
    var l := LocalHeader(e, s);
    local := l[..];
    var c := CentralHeader(e, s, offset);
    header := c[..];
  }

  /** Describes file `i`, with its checksum. */
  method Describe(table: array<Words.Word>, files: seq<File>, i: nat) returns (entry: Entry)
    requires IsTable(table[..]) && i < |files|
    ensures entry == EntriesFor(files)[i]
  {
    var crc := TableCrc32(table, files[i].data);
    entry := Entry(files[i].name, files[i].data, Words.Value(crc));
  }

  method WriteEntry(table: array<Words.Word>, files: seq<File>, i: nat, s: Stamp, offset: nat) returns (local: Bytes, header: Bytes)
    requires IsTable(table[..]) && i < |files| && Fits(EntriesFor(files)[i], s) && offset <= U32_MAX
    ensures IsLocal(local, EntriesFor(files)[i], s) && IsCentral(header, EntriesFor(files)[i], s, offset)
  {
    var entry := Describe(table, files, i);
    local, header := Headers(entry, s, offset);
  }

  /** What the writing loop has after `i` entries. */
  ghost predicate IsWritten(
    entries: seq<Entry>, s: Stamp, i: nat, parts: seq<Bytes>, locals: seq<Bytes>, central: seq<Bytes>, offset: nat, size: nat)
    requires i <= |entries|
  {
    && |locals| == i && |central| == i && AreLocals(locals, entries, s, i) && AreCentrals(central, entries, s, i)
    && parts == Laid(locals, entries, i)
    && offset == Offset(entries, i) && size == CentralOffset(entries, i)
  }

  lemma WrittenMore(
    entries: seq<Entry>, s: Stamp, i: nat, parts: seq<Bytes>, locals: seq<Bytes>, central: seq<Bytes>, offset: nat, size: nat,
    local: Bytes, header: Bytes)
    requires i < |entries| && IsWritten(entries, s, i, parts, locals, central, offset, size)
    requires IsLocal(local, entries[i], s) && IsCentral(header, entries[i], s, offset)
    ensures IsWritten(entries, s, i + 1, parts + [local, entries[i].data], locals + [local], central + [header],
                      offset + |local| + |entries[i].data|, size + |header|)
  {
    LocalsMore(locals, entries, s, local);
    CentralsMore(central, entries, s, header);
  }

  lemma Finished(
    entries: seq<Entry>, s: Stamp, parts: seq<Bytes>, locals: seq<Bytes>, central: seq<Bytes>, offset: nat, size: nat, end: Bytes)
    requires IsWritten(entries, s, |entries|, parts, locals, central, offset, size) && IsEnd(end, |entries|, size, offset)
    ensures IsArchive(parts + central + [end], entries, s)
  {
    assert IsLaidOut(parts + central + [end], entries, s, locals, central, end);
  }

  ghost predicate AllFit(entries: seq<Entry>, s: Stamp) {
    && |entries| <= U16_MAX && CentralOffset(entries, |entries|) <= U32_MAX
    && (forall i :: 0 <= i < |entries| ==> Fits(entries[i], s))
    && (forall i :: 0 <= i <= |entries| ==> Offset(entries, i) <= U32_MAX)
  }

  lemma NextFits(
    entries: seq<Entry>, s: Stamp, i: nat, parts: seq<Bytes>, locals: seq<Bytes>, central: seq<Bytes>, offset: nat, size: nat)
    requires AllFit(entries, s) && i < |entries| && IsWritten(entries, s, i, parts, locals, central, offset, size)
    ensures Fits(entries[i], s) && offset <= U32_MAX
  {
  }

  lemma NothingWritten(entries: seq<Entry>, s: Stamp)
    ensures IsWritten(entries, s, 0, [], [], [], 0, 0)
  {
  }

  /** The writing loop's body. */
  method WriteNext(
    table: array<Words.Word>, files: seq<File>, i: nat, s: Stamp,
    parts: seq<Bytes>, central: seq<Bytes>, offset: nat, size: nat, ghost locals: seq<Bytes>)
    returns (nextParts: seq<Bytes>, nextCentral: seq<Bytes>, nextOffset: nat, nextSize: nat, ghost nextLocals: seq<Bytes>)
    requires IsTable(table[..]) && AllFit(EntriesFor(files), s) && i < |files|
    requires IsWritten(EntriesFor(files), s, i, parts, locals, central, offset, size)
    ensures IsWritten(EntriesFor(files), s, i + 1, nextParts, nextLocals, nextCentral, nextOffset, nextSize)
  {
    ghost var entries := EntriesFor(files);
    NextFits(entries, s, i, parts, locals, central, offset, size);
    var local, header := WriteEntry(table, files, i, s, offset);
    WrittenMore(entries, s, i, parts, locals, central, offset, size, local, header);
    nextParts, nextLocals, nextCentral := parts + [local, files[i].data], locals + [local], central + [header];
    nextOffset, nextSize := offset + |local| + |files[i].data|, size + |header|;
  }

  /** The writing loop: a local header and the data for each file, and the central headers aside. */
  method WriteLocals(table: array<Words.Word>, files: seq<File>, s: Stamp)
    returns (parts: seq<Bytes>, central: seq<Bytes>, offset: nat, size: nat, ghost locals: seq<Bytes>)
    requires IsTable(table[..]) && AllFit(EntriesFor(files), s)
    ensures IsWritten(EntriesFor(files), s, |files|, parts, locals, central, offset, size)
  {
    parts, central, locals, offset, size := [], [], [], 0, 0;
    ghost var held := table[..];
    NothingWritten(EntriesFor(files), s);
    var i := 0;
    while i < |files|
      invariant i <= |files| && table[..] == held
      invariant IsWritten(EntriesFor(files), s, i, parts, locals, central, offset, size)
    {
      parts, central, offset, size, locals := WriteNext(table, files, i, s, parts, central, offset, size, locals);
      i := i + 1;
    }
  }

  method WriteParts(files: seq<File>, s: Stamp) returns (parts: seq<Bytes>)
    requires AllFit(EntriesFor(files), s)
    ensures IsArchive(parts, EntriesFor(files), s)
  {
    var table := MakeTable();
    var front, central, offset, size, locals := WriteLocals(table, files, s);
    var end := EndRecord(|files|, size, offset);
    Finished(EntriesFor(files), s, front, locals, central, offset, size, end[..]);
    parts := front + central + [end[..]];
  }

  /** Builds the archive's parts, or refuses. */
  method ZipParts(files: seq<File>, s: Stamp) returns (r: Result<seq<Bytes>, Refusal>)
    requires Is16Bit(s)
    ensures match RefusalOf(files)
            case Some(refusal) => r == Err(refusal)
            case None => r.Ok? && IsArchive(r.value, EntriesFor(files), s)
  {
    var refusal := CheckBounds(files);
    if refusal.Some? {
      return Err(refusal.value);
    }
    AcceptedFits(files, s);
    var parts := WriteParts(files, s);
    return Ok(parts);
  }

  // ---------------------------------------------------------------- reading an archive

  function Flat(parts: seq<Bytes>): Bytes
    decreases |parts|
  {
    if parts == [] then [] else Flat(parts[..|parts| - 1]) + parts[|parts| - 1]
  }

  /** `n` bytes from `at`, if the archive has them. */
  function Slice(b: Bytes, at: nat, n: nat): (r: Option<Bytes>)
    ensures r.Some? ==> |r.value| == n
  {
    if at + n <= |b| then Some(b[at..at + n]) else None
  }

  /** What a reader takes from a local header's fixed fields. */
  datatype LocalRecord = LocalRecord(signature: nat, storage: nat, nameLength: nat, extraLength: nat)

  function LocalOf(h: Bytes): LocalRecord
    requires |h| == 30
  {
    LocalRecord(U32At(h, 0), U16At(h, 8), U16At(h, 26), U16At(h, 28))
  }

  /** And from a central header's. */
  datatype CentralRecord = CentralRecord(
    signature: nat, storage: nat, crc: nat, storedSize: nat, size: nat,
    nameLength: nat, extraLength: nat, commentLength: nat, offset: nat)

  function CentralOf(h: Bytes): CentralRecord
    requires |h| == 46
  {
    CentralRecord(U32At(h, 0), U16At(h, 10), U32At(h, 16), U32At(h, 20), U32At(h, 24),
                  U16At(h, 28), U16At(h, 30), U16At(h, 32), U32At(h, 42))
  }

  /** A stored file's data, after a local header, which must name the same file. */
  function ReadStored(b: Bytes, at: nat, r: LocalRecord, name: Bytes, size: nat): Option<Bytes> {
    if r.signature != LOCAL_SIGNATURE || r.storage != 0 || Slice(b, at + 30, r.nameLength) != Some(name) then None
    else Slice(b, at + 30 + r.nameLength + r.extraLength, size)
  }

  function ReadLocal(b: Bytes, at: nat, name: Bytes, size: nat): Option<Bytes> {
    if at + 30 > |b| then None else ReadStored(b, at, LocalOf(b[at..at + 30]), name, size)
  }

  /** One entry of the central directory, and where the next one starts. */
  function ReadDescribed(b: Bytes, at: nat, r: CentralRecord): Option<(Entry, nat)> {
    if r.signature != CENTRAL_SIGNATURE || r.storage != 0 || r.storedSize != r.size then None
    else match Slice(b, at + 46, r.nameLength)
      case None => None
      case Some(name) =>
        match ReadLocal(b, r.offset, name, r.size)
        case None => None
        case Some(data) => Some((Entry(name, data, r.crc), at + 46 + r.nameLength + r.extraLength + r.commentLength))
  }

  function ReadEntry(b: Bytes, at: nat): Option<(Entry, nat)> {
    if at + 46 > |b| then None else ReadDescribed(b, at, CentralOf(b[at..at + 46]))
  }

  /** `count` entries of the central directory, one after another; it must end at `end`. */
  function ReadCentral(read: nat -> Option<(Entry, nat)>, at: nat, count: nat, end: nat): Option<seq<Entry>>
    decreases count
  {
    if count == 0 then (if at == end then Some([]) else None)
    else match read(at)
      case None => None
      case Some((entry, next)) =>
        match ReadCentral(read, next, count - 1, end)
        case None => None
        case Some(more) => Some([entry] + more)
  }

  function EntryReader(b: Bytes): nat -> Option<(Entry, nat)> { (at: nat) => ReadEntry(b, at) }

  /** The end record, without a comment, that closes the bytes: how many entries, where the
      directory starts, and where it ends. */
  function ReadEnd(b: Bytes): Option<(nat, nat, nat)> {
    if |b| < 22 then None else
      var end := |b| - 22;
      var h := b[end..];
      if U32At(h, 0) != END_SIGNATURE || U16At(h, 20) != 0 || U32At(h, 16) + U32At(h, 12) != end then None
      else Some((U16At(h, 10), U32At(h, 16), end))
  }

  function ReadEntries(b: Bytes, read: nat -> Option<(Entry, nat)>): Option<seq<Entry>> {
    match ReadEnd(b)
    case None => None
    case Some((count, start, end)) => ReadCentral(read, start, count, end)
  }

  /** The files of an archive, if every checksum is right. */
  function ReadArchive(b: Bytes): Option<seq<File>> {
    match ReadEntries(b, EntryReader(b))
    case None => None
    case Some(entries) =>
      if AreIntact(entries) then Some(FilesOf(entries)) else None
  }

  predicate AreIntact(entries: seq<Entry>) { forall i :: 0 <= i < |entries| ==> Checksum(entries[i].data) == entries[i].crc }

  function FilesOf(entries: seq<Entry>): (files: seq<File>)
    ensures |files| == |entries| && forall i :: 0 <= i < |files| ==> files[i] == File(entries[i].name, entries[i].data)
  {
    seq(|entries|, i requires 0 <= i < |entries| => File(entries[i].name, entries[i].data))
  }

  lemma DescribedAreIntact(files: seq<File>)
    ensures AreIntact(EntriesFor(files)) && FilesOf(EntriesFor(files)) == files
  {
  }

  // ---------------------------------------------------------------- every archive reads back

  ghost predicate Holds(b: Bytes, at: nat, part: Bytes) { at + |part| <= |b| && b[at..at + |part|] == part }

  lemma SliceOfPart(b: Bytes, at: nat, part: Bytes, k: nat, n: nat)
    requires Holds(b, at, part) && k + n <= |part|
    ensures Slice(b, at + k, n) == Some(part[k..k + n])
  {
    var x, y := b[at + k..at + k + n], part[k..k + n];
    forall j | 0 <= j < n ensures x[j] == y[j] {
      assert b[at..at + |part|][k + j] == part[k + j];
    }
    assert x == y;
  }

  lemma FieldOfPart(b: Bytes, at: nat, part: Bytes, n: nat, k: nat)
    requires Holds(b, at, part) && k + 4 <= n <= |part|
    ensures var h := b[at..at + n];
            U32At(h, k) == U32At(part, k) && U16At(h, k) == U16At(part, k) && U16At(h, k + 2) == U16At(part, k + 2)
  {
    assert forall j :: 0 <= j < n ==> b[at..at + n][j] == b[at..at + |part|][j] == part[j];
  }

  lemma LocalFields(b: Bytes, at: nat, local: Bytes, e: Entry, s: Stamp)
    requires Holds(b, at, local) && IsLocal(local, e, s)
    ensures LocalOf(b[at..at + 30]) == LocalRecord(LOCAL_SIGNATURE, 0, |e.name|, 0)
  {
    FieldOfPart(b, at, local, 30, 0);
    FieldOfPart(b, at, local, 30, 8);
    FieldOfPart(b, at, local, 30, 26);
  }

  lemma LocalReads(b: Bytes, at: nat, local: Bytes, e: Entry, s: Stamp)
    requires Holds(b, at, local) && IsLocal(local, e, s) && Holds(b, at + |local|, e.data)
    ensures ReadLocal(b, at, e.name, |e.data|) == Some(e.data)
  {
    LocalFields(b, at, local, e, s);
    LocalName(b, at, local, e, s);
    StoredReads(b, at, e);
  }

  lemma LocalName(b: Bytes, at: nat, local: Bytes, e: Entry, s: Stamp)
    requires Holds(b, at, local) && IsLocal(local, e, s) && Holds(b, at + |local|, e.data)
    ensures Slice(b, at + 30, |e.name|) == Some(e.name) && Slice(b, at + 30 + |e.name|, |e.data|) == Some(e.data)
  {
    SliceOfPart(b, at, local, 30, |e.name|);
    SliceOfPart(b, at + |local|, e.data, 0, |e.data|);
    assert local[30..30 + |e.name|] == e.name && e.data[0..|e.data|] == e.data;
  }

  lemma StoredReads(b: Bytes, at: nat, e: Entry)
    requires Slice(b, at + 30, |e.name|) == Some(e.name) && Slice(b, at + 30 + |e.name|, |e.data|) == Some(e.data)
    ensures ReadStored(b, at, LocalRecord(LOCAL_SIGNATURE, 0, |e.name|, 0), e.name, |e.data|) == Some(e.data)
  {
  }

  lemma DescriptionFields(b: Bytes, at: nat, header: Bytes, e: Entry, s: Stamp)
    requires Holds(b, at, header) && |header| >= 46 && IsDescribed(header, 6, e, s)
    ensures var h := b[at..at + 46];
            U16At(h, 10) == 0 && U32At(h, 16) == e.crc && U32At(h, 20) == U32At(h, 24) == |e.data| && U16At(h, 28) == |e.name|
  {
    FieldOfPart(b, at, header, 46, 10);
    FieldOfPart(b, at, header, 46, 16);
    FieldOfPart(b, at, header, 46, 20);
    FieldOfPart(b, at, header, 46, 24);
    FieldOfPart(b, at, header, 46, 28);
  }

  lemma CentralFields(b: Bytes, at: nat, header: Bytes, e: Entry, s: Stamp, offset: nat)
    requires Holds(b, at, header) && IsCentral(header, e, s, offset)
    ensures CentralOf(b[at..at + 46]) == CentralRecord(CENTRAL_SIGNATURE, 0, e.crc, |e.data|, |e.data|, |e.name|, 0, 0, offset)
  {
    DescriptionFields(b, at, header, e, s);
    FieldOfPart(b, at, header, 46, 0);
    FieldOfPart(b, at, header, 46, 30);
    FieldOfPart(b, at, header, 46, 42);
    assert U32At(header, 30) == 0 && U16At(header, 30) == 0 && U16At(header, 32) == 0;
  }

  lemma CentralName(b: Bytes, at: nat, header: Bytes, e: Entry, s: Stamp, offset: nat)
    requires Holds(b, at, header) && IsCentral(header, e, s, offset)
    ensures |header| == 46 + |e.name| && Slice(b, at + 46, |e.name|) == Some(e.name)
  {
    SliceOfPart(b, at, header, 46, |e.name|);
    assert header[46..46 + |e.name|] == e.name;
  }

  lemma CentralReads(b: Bytes, at: nat, header: Bytes, e: Entry, s: Stamp, offset: nat)
    requires Holds(b, at, header) && IsCentral(header, e, s, offset)
    requires ReadLocal(b, offset, e.name, |e.data|) == Some(e.data)
    ensures ReadEntry(b, at) == Some((e, at + 46 + |e.name|))
  {
    CentralFields(b, at, header, e, s, offset);
    CentralName(b, at, header, e, s, offset);
    DescribedReads(b, at, e, offset);
  }

  lemma DescribedReads(b: Bytes, at: nat, e: Entry, offset: nat)
    requires Slice(b, at + 46, |e.name|) == Some(e.name)
    requires ReadLocal(b, offset, e.name, |e.data|) == Some(e.data)
    ensures ReadDescribed(b, at, CentralRecord(CENTRAL_SIGNATURE, 0, e.crc, |e.data|, |e.data|, |e.name|, 0, 0, offset))
         == Some((e, at + 46 + |e.name|))
  {
  }

  lemma OneEntryReads(b: Bytes, offset: nat, local: Bytes, at: nat, header: Bytes, e: Entry, s: Stamp)
    requires Holds(b, offset, local) && IsLocal(local, e, s) && Holds(b, offset + |local|, e.data)
    requires Holds(b, at, header) && IsCentral(header, e, s, offset)
    ensures ReadEntry(b, at) == Some((e, at + 46 + |e.name|))
  {
    LocalReads(b, offset, local, e, s);
    CentralReads(b, at, header, e, s, offset);
  }

  lemma {:induction false} FlatOfBoth(a: seq<Bytes>, b: seq<Bytes>)
    ensures Flat(a + b) == Flat(a) + Flat(b)
    decreases |b|
  {
    if b == [] {
      assert a + b == a;
    } else {
      var last := b[|b| - 1];
      assert (a + b)[..|a + b| - 1] == a + b[..|b| - 1];
      FlatOfBoth(a, b[..|b| - 1]);
      assert Flat(a) + (Flat(b[..|b| - 1]) + last) == Flat(a) + Flat(b[..|b| - 1]) + last;
    }
  }

  lemma FlatOfOne(x: Bytes)
    ensures Flat([x]) == x
  {
    assert [x][..0] == [] && Flat([]) + x == x;
  }

  lemma FlatOfTwo(x: Bytes, y: Bytes)
    ensures Flat([x, y]) == x + y
  {
    FlatOfOne(x);
    assert [x, y][..1] == [x];
  }

  /** The laid out parts, up to entry `i`: they end where its local header starts. */
  lemma {:induction false} LaidLength(locals: seq<Bytes>, entries: seq<Entry>, s: Stamp, i: nat)
    requires |locals| == |entries| && AreLocals(locals, entries, s, |entries|) && i <= |entries|
    ensures |Flat(Laid(locals, entries, i))| == Offset(entries, i)
    ensures i < |entries| ==> Flat(Laid(locals, entries, i + 1)) == Flat(Laid(locals, entries, i)) + locals[i] + entries[i].data
    decreases i
  {
    if i < |entries| {
      LaidOnce(locals, entries, i);
    }
    if i > 0 {
      LaidLength(locals, entries, s, i - 1);
      LocalAt(locals, entries, s, i - 1, |entries|);
    }
  }

  lemma LaidOnce(locals: seq<Bytes>, entries: seq<Entry>, i: nat)
    requires i < |locals| && i < |entries|
    ensures Flat(Laid(locals, entries, i + 1)) == Flat(Laid(locals, entries, i)) + locals[i] + entries[i].data
  {
    FlatOfBoth(Laid(locals, entries, i), [locals[i], entries[i].data]);
    FlatOfTwo(locals[i], entries[i].data);
    var front := Flat(Laid(locals, entries, i));
    assert front + (locals[i] + entries[i].data) == front + locals[i] + entries[i].data;
  }

  /** The local header and the data of entry `i` are where its offset says. */
  lemma {:induction false} LocalsHeld(b: Bytes, locals: seq<Bytes>, entries: seq<Entry>, s: Stamp, i: nat, n: nat)
    requires |locals| == |entries| && AreLocals(locals, entries, s, |entries|) && i < n <= |entries|
    requires Flat(Laid(locals, entries, n)) <= b
    ensures Holds(b, Offset(entries, i), locals[i]) && Holds(b, Offset(entries, i) + |locals[i]|, entries[i].data)
    decreases n
  {
    LaidLength(locals, entries, s, n - 1);
    var front := Flat(Laid(locals, entries, n - 1));
    assert Flat(Laid(locals, entries, n)) == front + locals[n - 1] + entries[n - 1].data;
    if i == n - 1 {
      HeldAfter(b, front, locals[i], entries[i].data);
    } else {
      StillPrefix(b, front, locals[n - 1] + entries[n - 1].data);
      assert front + (locals[n - 1] + entries[n - 1].data) == front + locals[n - 1] + entries[n - 1].data;
      LocalsHeld(b, locals, entries, s, i, n - 1);
    }
  }

  lemma HeldAfter(b: Bytes, front: Bytes, x: Bytes, y: Bytes)
    requires front + x + y <= b
    ensures Holds(b, |front|, x) && Holds(b, |front| + |x|, y)
  {
    var all := front + x + y;
    assert b[|front|..|front| + |x|] == all[|front|..|front| + |x|] == x;
    assert b[|front| + |x|..|front| + |x| + |y|] == all[|front| + |x|..|front| + |x| + |y|] == y;
  }

  lemma StillPrefix(b: Bytes, front: Bytes, more: Bytes)
    requires front + more <= b
    ensures front <= b
  {
    assert front == (front + more)[..|front|];
  }

  lemma {:induction false} CentralsHeld(b: Bytes, locals: Bytes, central: seq<Bytes>, entries: seq<Entry>, s: Stamp, i: nat, n: nat)
    requires |central| == |entries| && AreCentrals(central, entries, s, |entries|) && i < n <= |entries|
    requires locals + Flat(central[..n]) <= b
    ensures Holds(b, |locals| + CentralOffset(entries, i), central[i])
    decreases n
  {
    assert central[..n][..n - 1] == central[..n - 1];
    CentralLength(central, entries, s, n - 1);
    var front := locals + Flat(central[..n - 1]);
    assert locals + Flat(central[..n]) == front + central[n - 1];
    if i == n - 1 {
      assert front + central[i] + [] == front + central[i];
      HeldAfter(b, front, central[i], []);
    } else {
      StillPrefix(b, front, central[n - 1]);
      CentralsHeld(b, locals, central, entries, s, i, n - 1);
    }
  }

  lemma {:induction false} CentralLength(central: seq<Bytes>, entries: seq<Entry>, s: Stamp, i: nat)
    requires |central| == |entries| && AreCentrals(central, entries, s, |entries|) && i <= |entries|
    ensures |Flat(central[..i])| == CentralOffset(entries, i)
    decreases i
  {
    if i > 0 {
      assert central[..i][..i - 1] == central[..i - 1];
      CentralLength(central, entries, s, i - 1);
      CentralAt(central, entries, s, i - 1, |entries|);
    }
  }

  /** Everything entry `i` reads back from is where it should be. */
  ghost predicate IsHeld(b: Bytes, locals: seq<Bytes>, central: seq<Bytes>, entries: seq<Entry>, i: nat)
    requires i < |locals| && i < |central| && i < |entries|
  {
    && Holds(b, Offset(entries, i), locals[i]) && Holds(b, Offset(entries, i) + |locals[i]|, entries[i].data)
    && Holds(b, Offset(entries, |entries|) + CentralOffset(entries, i), central[i])
  }

  lemma EntryIsHeld(b: Bytes, locals: seq<Bytes>, central: seq<Bytes>, entries: seq<Entry>, s: Stamp, i: nat)
    requires |locals| == |central| == |entries| && AreLocals(locals, entries, s, |entries|) && AreCentrals(central, entries, s, |entries|)
    requires Flat(Laid(locals, entries, |entries|)) + Flat(central) <= b && i < |entries|
    ensures IsHeld(b, locals, central, entries, i)
  {
    var n := |entries|;
    var front := Flat(Laid(locals, entries, n));
    LaidLength(locals, entries, s, n);
    StillPrefix(b, front, Flat(central));
    LocalsHeld(b, locals, entries, s, i, n);
    assert central[..n] == central;
    CentralsHeld(b, front, central, entries, s, i, n);
  }

  /** The reader finds the entry in a directory that starts at `start`, and goes on after it. */
  ghost predicate FindsAt(read: nat -> Option<(Entry, nat)>, e: Entry, start: nat, c: nat) {
    read(start + c) == Some((e, start + c + 46 + |e.name|))
  }

  ghost predicate Finds(read: nat -> Option<(Entry, nat)>, entries: seq<Entry>, start: nat, i: nat)
    requires i < |entries|
  {
    FindsAt(read, entries[i], start, CentralOffset(entries, i))
  }

  /** From entry `i` on, the directory reads back. */
  lemma {:induction false} DirectoryReads(read: nat -> Option<(Entry, nat)>, entries: seq<Entry>, start: nat, i: nat)
    requires i <= |entries| && forall k :: 0 <= k < |entries| ==> Finds(read, entries, start, k)
    ensures ReadCentral(read, start + CentralOffset(entries, i), |entries| - i, start + CentralOffset(entries, |entries|)) == Some(entries[i..])
    decreases |entries| - i
  {
    if i < |entries| {
      DirectoryReads(read, entries, start, i + 1);
      assert Finds(read, entries, start, i);
      assert [entries[i]] + entries[i + 1..] == entries[i..];
    }
  }

  lemma EndReads(b: Bytes, front: Bytes, end: Bytes, count: nat, size: nat, offset: nat)
    requires b == front + end && IsEnd(end, count, size, offset) && |front| == offset + size
    ensures EndFound(b, count, offset, size)
  {
    assert b[|b| - 22..] == end;
  }

  lemma ArchiveLength(parts: seq<Bytes>, entries: seq<Entry>, s: Stamp, locals: seq<Bytes>, central: seq<Bytes>, end: Bytes)
    requires IsLaidOut(parts, entries, s, locals, central, end)
    ensures var front := Flat(Laid(locals, entries, |entries|)) + Flat(central);
            Flat(parts) == front + end && |front| == Offset(entries, |entries|) + CentralOffset(entries, |entries|)
  {
    var n := |entries|;
    var laid := Laid(locals, entries, n);
    FlatOfBoth(laid, central);
    FlatOfBoth(laid + central, [end]);
    FlatOfOne(end);
    LaidLength(locals, entries, s, n);
    assert central[..n] == central;
    CentralLength(central, entries, s, n);
  }

  lemma ReaderFinds(b: Bytes, e: Entry, at: nat, start: nat, c: nat, read: nat -> Option<(Entry, nat)>)
    requires at == start + c && read == EntryReader(b) && ReadEntry(b, at) == Some((e, at + 46 + |e.name|))
    ensures FindsAt(read, e, start, c)
  {
  }

  /** What is held is found. */
  lemma HeldIsFound(
    b: Bytes, local: Bytes, header: Bytes, e: Entry, s: Stamp, offset: nat, at: nat, start: nat, c: nat, read: nat -> Option<(Entry, nat)>)
    requires at == start + c && read == EntryReader(b)
    requires Holds(b, offset, local) && Holds(b, offset + |local|, e.data) && Holds(b, at, header)
    requires IsLocal(local, e, s) && IsCentral(header, e, s, offset)
    ensures FindsAt(read, e, start, c)
  {
    OneEntryReads(b, offset, local, at, header, e, s);
    ReaderFinds(b, e, at, start, c, read);
  }

  lemma EntryIsFound(
    b: Bytes, locals: seq<Bytes>, central: seq<Bytes>, entries: seq<Entry>, s: Stamp, i: nat, start: nat, read: nat -> Option<(Entry, nat)>)
    requires |locals| == |central| == |entries| && AreLocals(locals, entries, s, |entries|) && AreCentrals(central, entries, s, |entries|)
    requires i < |entries| && IsHeld(b, locals, central, entries, i) && start == Offset(entries, |entries|) && read == EntryReader(b)
    ensures Finds(read, entries, start, i)
  {
    LocalAt(locals, entries, s, i, |entries|);
    CentralAt(central, entries, s, i, |entries|);
    var offset, c := Offset(entries, i), CentralOffset(entries, i);
    HeldIsFound(b, locals[i], central[i], entries[i], s, offset, start + c, start, c, read);
  }

  lemma ArchiveHolds(parts: seq<Bytes>, entries: seq<Entry>, s: Stamp, locals: seq<Bytes>, central: seq<Bytes>, end: Bytes, i: nat)
    requires IsLaidOut(parts, entries, s, locals, central, end) && i < |entries|
    ensures IsHeld(Flat(parts), locals, central, entries, i)
  {
    ArchiveLength(parts, entries, s, locals, central, end);
    EntryIsHeld(Flat(parts), locals, central, entries, s, i);
  }

  lemma DirectoryIsRead(read: nat -> Option<(Entry, nat)>, entries: seq<Entry>, start: nat)
    requires forall i :: 0 <= i < |entries| ==> Finds(read, entries, start, i)
    ensures ReadCentral(read, start, |entries|, start + CentralOffset(entries, |entries|)) == Some(entries)
  {
    DirectoryReads(read, entries, start, 0);
    assert start + CentralOffset(entries, 0) == start;
    assert entries[0..] == entries;
  }

  lemma LastIsEnd(parts: seq<Bytes>, entries: seq<Entry>, s: Stamp, locals: seq<Bytes>, central: seq<Bytes>, end: Bytes)
    requires IsLaidOut(parts, entries, s, locals, central, end)
    ensures IsEnd(end, |entries|, CentralOffset(entries, |entries|), Offset(entries, |entries|))
  {
  }

  lemma LaidOutEnds(parts: seq<Bytes>, entries: seq<Entry>, s: Stamp, locals: seq<Bytes>, central: seq<Bytes>, end: Bytes, b: Bytes)
    requires IsLaidOut(parts, entries, s, locals, central, end) && b == Flat(parts)
    ensures EndFound(b, |entries|, Offset(entries, |entries|), CentralOffset(entries, |entries|))
  {
    var n := |entries|;
    ArchiveLength(parts, entries, s, locals, central, end);
    LastIsEnd(parts, entries, s, locals, central, end);
    EndReads(b, Flat(Laid(locals, entries, n)) + Flat(central), end, n, CentralOffset(entries, n), Offset(entries, n));
  }

  predicate EndFound(b: Bytes, count: nat, start: nat, size: nat) { ReadEnd(b) == Some((count, start, start + size)) }

  /** A reader that finds every entry reads them all. */
  lemma EntriesReadBack(b: Bytes, entries: seq<Entry>, start: nat, read: nat -> Option<(Entry, nat)>)
    requires EndFound(b, |entries|, start, CentralOffset(entries, |entries|))
    requires forall i :: 0 <= i < |entries| ==> Finds(read, entries, start, i)
    ensures ReadEntries(b, read) == Some(entries)
  {
    DirectoryIsRead(read, entries, start);
  }

  lemma ArchiveEntries(parts: seq<Bytes>, entries: seq<Entry>, s: Stamp, b: Bytes, read: nat -> Option<(Entry, nat)>)
    requires IsArchive(parts, entries, s) && b == Flat(parts) && read == EntryReader(b)
    ensures ReadEntries(b, read) == Some(entries)
  {
    var locals, central, end :| IsLaidOut(parts, entries, s, locals, central, end);
    var start := Offset(entries, |entries|);
    LaidOutEnds(parts, entries, s, locals, central, end, b);
    forall i | 0 <= i < |entries| ensures Finds(read, entries, start, i) {
      ArchiveHolds(parts, entries, s, locals, central, end, i);
      EntryIsFound(b, locals, central, entries, s, i, start, read);
    }
    EntriesReadBack(b, entries, start, read);
  }

  /** Every archive the writer returns reads back: the same names, data and order. */
  lemma ArchiveReadsBack(parts: seq<Bytes>, files: seq<File>, s: Stamp)
    requires IsArchive(parts, EntriesFor(files), s)
    ensures ReadArchive(Flat(parts)) == Some(files)
  {
    var b := Flat(parts);
    ArchiveEntries(parts, EntriesFor(files), s, b, EntryReader(b));
    DescribedAreIntact(files);
  }

  // ---------------------------------------------------------------- no message is refused

  /** The largest payload a server may accept. */
  const ZIP32_MAX_PAYLOAD_BYTES := 4_000_000_000

  function Exported(files: seq<Payloads.FileEntry>, names: seq<Bytes>): (exported: seq<File>)
    requires |names| == |files|
    ensures |exported| == |files| && forall i :: 0 <= i < |files| ==> exported[i] == File(names[i], files[i].data)
  {
    seq(|files|, i requires 0 <= i < |files| => File(names[i], files[i].data))
  }

  lemma {:induction false} TotalIsBounded(files: seq<Payloads.FileEntry>, names: seq<Bytes>, n: nat)
    requires |names| == |files| && n <= |files| && forall i :: 0 <= i < |names| ==> |names[i]| <= 255
    ensures Total(Exported(files, names)[..n]) <= |Payloads.FileBytes(files[..n])| + n * 586
    decreases n
  {
    if n > 0 {
      var entries := Exported(files, names);
      TotalIsBounded(files, names, n - 1);
      assert entries[..n][..n - 1] == entries[..n - 1];
      assert files[..n] == files[..n - 1] + [files[n - 1]];
      Payloads.FileBytesOfMore(files[..n - 1], files[n - 1]);
    }
  }

  /** A message within the server's limits is never refused, under any names of at most 255 bytes:
      the archive stays below 2^32 bytes. */
  lemma NoMessageIsRefused(p: Payloads.Payload, names: seq<Bytes>)
    requires Payloads.Encode(p, Payloads.CEILINGS).Ok?
    requires |Payloads.Encode(p, Payloads.CEILINGS).value| <= ZIP32_MAX_PAYLOAD_BYTES
    requires |names| == |p.files| && forall i :: 0 <= i < |names| ==> |names[i]| <= 255
    ensures RefusalOf(Exported(p.files, names)) == None
  {
    var entries, n := Exported(p.files, names), |p.files|;
    assert |Payloads.FileBytes(p.files)| <= ZIP32_MAX_PAYLOAD_BYTES;
    TotalIsBounded(p.files, names, n);
    assert entries[..n] == entries && p.files[..n] == p.files;
    forall i | 0 <= i < n ensures |entries[i].data| <= U32_MAX {
      OneFileIsShorter(p.files, i);
    }
  }

  lemma {:induction false} OneFileIsShorter(files: seq<Payloads.FileEntry>, i: nat)
    requires i < |files|
    ensures |files[i].data| <= |Payloads.FileBytes(files)|
    decreases |files|
  {
    if i > 0 {
      OneFileIsShorter(files[1..], i - 1);
    }
  }
}
