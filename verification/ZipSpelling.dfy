/** The archive's records byte by byte, and its bounds in numbers. */
module ZipSpelling {
  import opened Basics
  import opened Zip
  import Crc
  import Words

  // ---------------------------------------------------------------- fields

  function Le16(n: nat): (b: Bytes)
    ensures |b| == 2
  {
    [n % 256, n / 256 % 256]
  }

  function Le32(n: nat): (b: Bytes)
    ensures |b| == 4
  {
    Le16(n % 65536) + Le16(n / 65536)
  }

  predicate Has(h: Bytes, at: nat, part: Bytes) { at + |part| <= |h| && h[at..at + |part|] == part }

  lemma HasTwo(h: Bytes, at: nat, n: nat)
    requires at + 2 <= |h| && n <= 65535
    ensures U16At(h, at) == n <==> Has(h, at, Le16(n))
  {
    assert h[at..at + 2] == [h[at], h[at + 1]];
  }

  lemma HasFour(h: Bytes, at: nat, n: nat)
    requires at + 4 <= |h| && n <= 4294967295
    ensures U32At(h, at) == n <==> Has(h, at, Le32(n))
  {
    HasTwo(h, at, n % 65536);
    HasTwo(h, at + 2, n / 65536);
    assert h[at..at + 4] == h[at..at + 2] + h[at + 2..at + 4];
    BothAgree(h[at..at + 2], h[at + 2..at + 4], Le16(n % 65536), Le16(n / 65536));
  }

  lemma BothAgree(a: Bytes, b: Bytes, x: Bytes, y: Bytes)
    requires |a| == |x|
    ensures a + b == x + y <==> a == x && b == y
  {
    assert (a + b)[..|a|] == a && (x + y)[..|x|] == x && (a + b)[|a|..] == b && (x + y)[|x|..] == y;
  }

  // ---------------------------------------------------------------- records

  /** From the version needed to the name's length: version 2.0, UTF-8 names, stored. */
  predicate HasDescription(h: Bytes, at: nat, e: Entry, s: Stamp) {
    && Has(h, at, [20, 0]) && Has(h, at + 2, [0x00, 0x08]) && Has(h, at + 4, [0, 0])
    && Has(h, at + 6, Le16(s.time)) && Has(h, at + 8, Le16(s.day)) && Has(h, at + 10, Le32(e.crc))
    && Has(h, at + 14, Le32(|e.data|)) && Has(h, at + 18, Le32(|e.data|)) && Has(h, at + 22, Le16(|e.name|))
  }

  predicate IsLocalText(h: Bytes, e: Entry, s: Stamp) {
    |h| == 30 + |e.name| && Has(h, 0, [0x50, 0x4B, 0x03, 0x04]) && HasDescription(h, 4, e, s) && Has(h, 28, [0, 0]) && Has(h, 30, e.name)
  }

  predicate IsCentralText(h: Bytes, e: Entry, s: Stamp, offset: nat) {
    && |h| == 46 + |e.name| && Has(h, 0, [0x50, 0x4B, 0x01, 0x02]) && Has(h, 4, [20, 0]) && HasDescription(h, 6, e, s)
    && Has(h, 30, [0, 0, 0, 0, 0, 0, 0, 0, 0, 0, 0, 0]) && Has(h, 42, Le32(offset)) && Has(h, 46, e.name)
  }

  predicate IsEndText(h: Bytes, count: nat, size: nat, offset: nat) {
    && |h| == 22 && Has(h, 0, [0x50, 0x4B, 0x05, 0x06]) && Has(h, 4, [0, 0, 0, 0])
    && Has(h, 8, Le16(count)) && Has(h, 10, Le16(count)) && Has(h, 12, Le32(size)) && Has(h, 16, Le32(offset)) && Has(h, 20, [0, 0])
  }

  lemma DescriptionIsSpelled(h: Bytes, at: nat, e: Entry, s: Stamp)
    requires at + 24 <= |h| && Fits(e, s)
    ensures IsDescribed(h, at, e, s) <==> HasDescription(h, at, e, s)
  {
    HasTwo(h, at, 20);
    HasTwo(h, at + 2, 0x0800);
    HasTwo(h, at + 4, 0);
    HasTwo(h, at + 6, s.time);
    HasTwo(h, at + 8, s.day);
    HasFour(h, at + 10, e.crc);
    HasFour(h, at + 14, |e.data|);
    HasFour(h, at + 18, |e.data|);
    HasTwo(h, at + 22, |e.name|);
  }

  lemma LocalIsSpelled(h: Bytes, e: Entry, s: Stamp)
    requires Fits(e, s)
    ensures IsLocal(h, e, s) <==> IsLocalText(h, e, s)
  {
    if |h| == 30 + |e.name| {
      HasFour(h, 0, 0x0403_4B50);
      DescriptionIsSpelled(h, 4, e, s);
      HasTwo(h, 28, 0);
    }
  }

  lemma TwelveZeros(h: Bytes, at: nat)
    requires at + 12 <= |h|
    ensures (forall i :: at <= i < at + 12 ==> h[i] == 0) <==> Has(h, at, [0, 0, 0, 0, 0, 0, 0, 0, 0, 0, 0, 0])
  {
    var part := h[at..at + 12];
    assert forall i :: at <= i < at + 12 ==> h[i] == part[i - at];
  }

  lemma CentralTail(h: Bytes, offset: nat)
    requires 46 <= |h| && offset <= 4294967295
    ensures (forall i :: 30 <= i < 42 ==> h[i] == 0) && U32At(h, 42) == offset
       <==> Has(h, 30, [0, 0, 0, 0, 0, 0, 0, 0, 0, 0, 0, 0]) && Has(h, 42, Le32(offset))
  {
    TwelveZeros(h, 30);
    HasFour(h, 42, offset);
  }

  lemma CentralIsSpelled(h: Bytes, e: Entry, s: Stamp, offset: nat)
    requires Fits(e, s) && offset <= 4294967295
    ensures IsCentral(h, e, s, offset) <==> IsCentralText(h, e, s, offset)
  {
    if |h| == 46 + |e.name| {
      HasFour(h, 0, 0x0201_4B50);
      assert Le32(0x0201_4B50) == [0x50, 0x4B, 0x01, 0x02];
      HasTwo(h, 4, 20);
      DescriptionIsSpelled(h, 6, e, s);
      CentralTail(h, offset);
    }
  }

  lemma EndIsSpelled(h: Bytes, count: nat, size: nat, offset: nat)
    requires count <= 65535 && size <= 4294967295 && offset <= 4294967295
    ensures IsEnd(h, count, size, offset) <==> IsEndText(h, count, size, offset)
  {
    if |h| == 22 {
      HasFour(h, 0, 0x0605_4B50);
      HasFour(h, 4, 0);
      HasTwo(h, 8, count);
      HasTwo(h, 10, count);
      HasFour(h, 12, size);
      HasFour(h, 16, offset);
      HasTwo(h, 20, 0);
    }
  }

  // ---------------------------------------------------------------- the bounds

  /** An archive is refused by its number of files, by a name or a file, or by its whole length, of
      which the end record's 22 bytes do not count; nothing else is refused. */
  lemma RefusalIsExact(files: seq<File>, s: Stamp, parts: seq<Bytes>)
    requires IsArchive(parts, EntriesFor(files), s)
    ensures RefusalOf(files) == Some(TooManyFiles) <==> |files| > 65535
    ensures RefusalOf(files) == Some(FileTooLarge)
       <==> |files| <= 65535 && exists f :: f in files && (|f.name| > 65535 || |f.data| > 4294967295)
    ensures RefusalOf(files) == Some(ArchiveTooLarge)
       <==> |files| <= 65535 && |Flat(parts)| - 22 > 4294967295
            && forall f :: f in files ==> |f.name| <= 65535 && |f.data| <= 4294967295
  {
    ArchiveLengthIsTotal(files, s, parts);
    FilesAreIndexed(files);
  }

  lemma FilesAreIndexed(files: seq<File>)
    ensures (exists f :: f in files && (|f.name| > 65535 || |f.data| > 4294967295))
       <==> (exists i :: 0 <= i < |files| && (|files[i].name| > 65535 || |files[i].data| > 4294967295))
  {
    if i :| 0 <= i < |files| && (|files[i].name| > 65535 || |files[i].data| > 4294967295) {
      assert files[i] in files;
    }
  }

  lemma ArchiveLengthIsTotal(files: seq<File>, s: Stamp, parts: seq<Bytes>)
    requires IsArchive(parts, EntriesFor(files), s)
    ensures |Flat(parts)| == Total(files) + 22
  {
    var entries, n := EntriesFor(files), |files|;
    var locals, central, end :| IsLaidOut(parts, entries, s, locals, central, end);
    ArchiveLength(parts, entries, s, locals, central, end);
    TotalSplits(files, n);
    assert files[..n] == files;
  }
}
