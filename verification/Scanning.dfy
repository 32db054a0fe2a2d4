/** Finding a byte in a text, and splitting a text at one. */
module Scanning {
  import opened Basics

  /** The parts between separators: always at least one. */
  function Split(s: Bytes, sep: byte): (parts: seq<Bytes>)
    ensures |parts| >= 1
  {
    if s == [] then [[]]
    else if s[0] == sep then [[]] + Split(s[1..], sep)
    else [[s[0]] + Split(s[1..], sep)[0]] + Split(s[1..], sep)[1..]
  }

  predicate Lacks(s: Bytes, b: byte) { forall i :: 0 <= i < |s| ==> s[i] != b }

  /** Where `b` first occurs. */
  function Find(s: Bytes, b: byte): (i: Option<nat>)
    ensures i.Some? ==> i.value < |s| && s[i.value] == b
  {
    if s == [] then None
    else if s[0] == b then Some(0)
    else match Find(s[1..], b)
      case None => None
      case Some(i) => Some(i + 1)
  }

  lemma {:induction false} FindIsFirst(s: Bytes, b: byte)
    ensures match Find(s, b) case None => Lacks(s, b) case Some(i) => Lacks(s[..i], b)
    decreases |s|
  {
    if s != [] && s[0] != b {
      FindIsFirst(s[1..], b);
      if Find(s, b).Some? {
        var i := Find(s[1..], b).value;
        assert s[..i + 1] == [s[0]] + s[1..][..i];
      } else {
        assert s == [s[0]] + s[1..];
      }
    }
  }

  lemma {:induction false} FirstIsFound(s: Bytes, b: byte, i: nat)
    requires i < |s| && s[i] == b && Lacks(s[..i], b)
    ensures Find(s, b) == Some(i)
    decreases |s|
  {
    if i > 0 {
      assert s[0] == s[..i][0];
      assert s[1..][..i - 1] == s[..i][1..];
      FirstIsFound(s[1..], b, i - 1);
    }
  }

  /** Splitting two texts joined by a separator. */
  lemma {:induction false} SplitOfBoth(a: Bytes, b: Bytes, sep: byte)
    ensures Split(a + [sep] + b, sep) == Split(a, sep) + Split(b, sep)
    decreases |a|
  {
    var joined := a + [sep] + b;
    if a == [] {
      assert joined[1..] == b;
    } else {
      assert joined[1..] == a[1..] + [sep] + b && joined[0] == a[0];
      SplitOfBoth(a[1..], b, sep);
    }
  }

  lemma {:induction false} NoSeparator(s: Bytes, sep: byte)
    requires Lacks(s, sep)
    ensures Split(s, sep) == [s]
    decreases |s|
  {
    if s != [] {
      NoSeparator(s[1..], sep);
      assert s == [s[0]] + s[1..];
    }
  }

  // ---------------------------------------------------------------- joining

  /** The parts with the separator between any two. */
  function Joined(parts: seq<Bytes>, sep: byte): Bytes
    decreases parts, 1
  {
    if parts == [] then [] else parts[0] + AfterFirst(parts, sep)
  }

  function AfterFirst(parts: seq<Bytes>, sep: byte): Bytes
    requires parts != []
    decreases parts, 0
  {
    if |parts| == 1 then [] else [sep] + Joined(parts[1..], sep)
  }

  ghost predicate AllLack(parts: seq<Bytes>, sep: byte) { forall i :: 0 <= i < |parts| ==> Lacks(parts[i], sep) }

  lemma {:induction false} SplitJoins(s: Bytes, sep: byte)
    ensures Joined(Split(s, sep), sep) == s && AllLack(Split(s, sep), sep)
    decreases |s|
  {
    if s != [] {
      var parts, rest := Split(s, sep), Split(s[1..], sep);
      SplitJoins(s[1..], sep);
      if s[0] == sep {
        assert parts[1..] == rest;
        assert s == [sep] + s[1..];
      } else {
        FirstLetter(s, parts, rest, sep);
      }
    }
  }

  lemma LongerFirst(b: byte, first: Bytes, tail: Bytes)
    ensures ([b] + first) + tail == [b] + (first + tail)
  {
  }

  lemma FirstLetter(s: Bytes, parts: seq<Bytes>, rest: seq<Bytes>, sep: byte)
    requires s != [] && s[0] != sep && |rest| >= 1 && parts == [[s[0]] + rest[0]] + rest[1..]
    requires Joined(rest, sep) == s[1..] && AllLack(rest, sep)
    ensures Joined(parts, sep) == s && AllLack(parts, sep)
  {
    assert parts[1..] == rest[1..];
    LongerFirst(s[0], rest[0], AfterFirst(rest, sep));
    assert s == [s[0]] + s[1..];
    forall i | 0 <= i < |parts| ensures Lacks(parts[i], sep) {
      assert i > 0 ==> parts[i] == rest[i];
    }
  }

  lemma JoinedOfMore(parts: seq<Bytes>, sep: byte, more: Bytes)
    requires |parts| > 1 && more == Joined(parts[1..], sep)
    ensures Joined(parts, sep) == parts[0] + [sep] + more
  {
    assert parts[0] + ([sep] + more) == parts[0] + [sep] + more;
  }

  lemma {:induction false} JoinedSplits(parts: seq<Bytes>, sep: byte)
    requires parts != [] && AllLack(parts, sep)
    ensures Split(Joined(parts, sep), sep) == parts
    decreases |parts|
  {
    NoSeparator(parts[0], sep);
    if |parts| == 1 {
      assert Joined(parts, sep) == parts[0];
    } else {
      var more := Joined(parts[1..], sep);
      JoinedSplits(parts[1..], sep);
      SplitOfBoth(parts[0], more, sep);
      JoinedOfMore(parts, sep, more);
      assert parts == [parts[0]] + parts[1..];
    }
  }

  /** Splitting finds the one way to write a text as parts without the separator. */
  lemma SplitIsUnjoined(s: Bytes, sep: byte, parts: seq<Bytes>)
    ensures Split(s, sep) == parts <==> parts != [] && AllLack(parts, sep) && s == Joined(parts, sep)
  {
    SplitJoins(s, sep);
    if parts != [] && AllLack(parts, sep) {
      JoinedSplits(parts, sep);
    }
  }
}
