/** The wordlist: its lines, and the scan for words that start with another word. */
module Wordlists {
  import opened Basics
  import opened Scanning

  const WORDLIST_LEN: nat := 7776

  datatype WordlistError = WrongCount(count: nat) | MalformedLine(line: nat) | Duplicate(line: nat) | NotPrefixFree(line: nat)

  const NEWLINE: byte := 0x0A
  const TAB: byte := 0x09
  const HYPHEN: byte := 0x2D

  predicate Lowercase(b: byte) { 0x61 <= b <= 0x7A }

  predicate IsDiceCode(code: Bytes) { |code| == 5 && forall i :: 0 <= i < |code| ==> 0x31 <= code[i] <= 0x36 }

  predicate IsPart(part: Bytes) { part != [] && forall i :: 0 <= i < |part| ==> Lowercase(part[i]) }

  /** Lowercase words joined by single hyphens. */
  predicate IsWord(word: Bytes) {
    word != [] && var parts := Split(word, HYPHEN); forall i :: 0 <= i < |parts| ==> IsPart(parts[i])
  }

  lemma {:induction false} WordBytes(word: Bytes)
    requires forall i :: 0 <= i < |Split(word, HYPHEN)| ==> forall k :: 0 <= k < |Split(word, HYPHEN)[i]| ==> Lowercase(Split(word, HYPHEN)[i][k])
    ensures forall k :: 0 <= k < |word| ==> word[k] == HYPHEN || Lowercase(word[k])
    decreases |word|
  {
    if word != [] {
      var parts, rest := Split(word, HYPHEN), Split(word[1..], HYPHEN);
      if word[0] == HYPHEN {
        assert rest == parts[1..];
      } else {
        assert parts[0][0] == word[0];
        forall i | 0 <= i < |rest| ensures forall k :: 0 <= k < |rest[i]| ==> Lowercase(rest[i][k]) {
          if i == 0 {
            assert parts[0][1..] == rest[0];
          } else {
            assert rest[i] == parts[i];
          }
        }
      }
      WordBytes(word[1..]);
    }
  }

  /** A word starts with a letter and has only letters and hyphens. */
  lemma WordsAreReadable(word: Bytes)
    requires IsWord(word)
    ensures Lowercase(word[0]) && forall k :: 0 <= k < |word| ==> word[k] == HYPHEN || Lowercase(word[k])
  {
    WordBytes(word);
    assert IsPart(Split(word, HYPHEN)[0]);
  }

  // ---------------------------------------------------------------- lines

  /** A line's dice code and word. */
  function LineOf(line: Bytes): Option<(Bytes, Bytes)> {
    match Find(line, TAB)
    case None => None
    case Some(i) => if IsDiceCode(line[..i]) && IsWord(line[i + 1..]) then Some((line[..i], line[i + 1..])) else None
  }

  function CodeOf(line: Bytes): Bytes { if LineOf(line).Some? then LineOf(line).value.0 else [] }

  function WordOf(line: Bytes): Bytes { if LineOf(line).Some? then LineOf(line).value.1 else [] }

  /** The first `n` lines are well-formed and repeat no code and no word. */
  ghost predicate Checked(lines: seq<Bytes>, n: nat)
    requires n <= |lines|
  {
    && (forall i :: 0 <= i < n ==> LineOf(lines[i]).Some?)
    && (forall i, k :: 0 <= i < k < n ==> CodeOf(lines[i]) != CodeOf(lines[k]) && WordOf(lines[i]) != WordOf(lines[k]))
  }

  function WordsOf(lines: seq<Bytes>): (words: seq<Bytes>)
    ensures |words| == |lines| && forall i :: 0 <= i < |lines| ==> words[i] == WordOf(lines[i])
  {
    seq(|lines|, i requires 0 <= i < |lines| => WordOf(lines[i]))
  }

  /** The lines of a text, without the one newline it may end with. */
  function Lines(text: Bytes): (lines: seq<Bytes>)
    ensures |lines| >= 1
  {
    if text != [] && text[|text| - 1] == NEWLINE then Split(text[..|text| - 1], NEWLINE) else Split(text, NEWLINE)
  }

  // ---------------------------------------------------------------- prefixes and order

  ghost predicate PrefixFree(words: seq<Bytes>) {
    forall i, k :: 0 <= i < |words| && 0 <= k < |words| && i != k ==> !(words[i] <= words[k])
  }

  /** Byte order, as strings are compared. */
  predicate Precedes(a: Bytes, b: Bytes)
    decreases |a|
  {
    a == [] || (b != [] && (a[0] < b[0] || (a[0] == b[0] && Precedes(a[1..], b[1..]))))
  }

  lemma {:induction false} PrecedesIsTotal(a: Bytes, b: Bytes)
    ensures Precedes(a, b) || Precedes(b, a)
    ensures Precedes(a, b) && Precedes(b, a) ==> a == b
    decreases |a|
  {
    if a != [] && b != [] && a[0] == b[0] {
      PrecedesIsTotal(a[1..], b[1..]);
      assert a == [a[0]] + a[1..] && b == [b[0]] + b[1..];
    }
  }

  lemma {:induction false} PrecedesIsTransitive(a: Bytes, b: Bytes, c: Bytes)
    requires Precedes(a, b) && Precedes(b, c)
    ensures Precedes(a, c)
    decreases |a|
  {
    if a != [] && a[0] == b[0] == c[0] {
      PrecedesIsTransitive(a[1..], b[1..], c[1..]);
    }
  }

  lemma {:induction false} PrefixPrecedes(a: Bytes, b: Bytes)
    requires a <= b
    ensures Precedes(a, b)
    decreases |a|
  {
    if a != [] {
      assert a[1..] <= b[1..];
      PrefixPrecedes(a[1..], b[1..]);
    }
  }

  /** What lies between a word and a longer word that starts with it starts with it too. */
  lemma {:induction false} BetweenStartsAlike(a: Bytes, b: Bytes, c: Bytes)
    requires a <= c && Precedes(a, b) && Precedes(b, c)
    ensures a <= b
    decreases |a|
  {
    if a != [] {
      assert a[0] == c[0];
      assert a[1..] <= c[1..];
      BetweenStartsAlike(a[1..], b[1..], c[1..]);
      assert a == [a[0]] + a[1..] && b == [b[0]] + b[1..];
    }
  }

  // ---------------------------------------------------------------- the neighbour scan

  /** The indices of the words, each once, in the order of the words. */
  ghost predicate IsOrder(order: seq<nat>, words: seq<Bytes>, n: nat)
    requires n <= |words|
  {
    && |order| == n
    && (forall k :: 0 <= k < n ==> order[k] < n)
    && (forall i: nat :: i < n ==> i in order)
    && (forall j, k :: 0 <= j < k < n ==> order[j] != order[k])
    && IsSorted(order, words)
  }

  ghost predicate IsSorted(order: seq<nat>, words: seq<Bytes>) {
    forall j, k :: 0 <= j < k < |order| && order[j] < |words| && order[k] < |words| ==> Precedes(words[order[j]], words[order[k]])
  }

  predicate NeighboursClash(order: seq<nat>, words: seq<Bytes>, k: nat)
    requires forall i :: 0 <= i < |order| ==> order[i] < |words|
  {
    k + 1 < |order| && words[order[k]] <= words[order[k + 1]]
  }

  /** Scanning only neighbours of the sorted list finds a pair exactly when there is one. */
  lemma NeighbourScanIsComplete(words: seq<Bytes>, order: seq<nat>)
    requires IsOrder(order, words, |words|)
    requires forall i, k :: 0 <= i < k < |words| ==> words[i] != words[k]
    ensures PrefixFree(words) <==> forall k: nat :: !NeighboursClash(order, words, k)
  {
    if i, k :| 0 <= i < |words| && 0 <= k < |words| && i != k && words[i] <= words[k] {
      assert i in order && k in order;
      var a: nat :| a < |order| && order[a] == i;
      var c: nat :| c < |order| && order[c] == k;
      PrefixPrecedes(words[i], words[k]);
      PrecedesIsTotal(words[i], words[k]);
      assert a < c;
      PrecedesIsTotal(words[k], words[order[a + 1]]);
      BetweenStartsAlike(words[i], words[order[a + 1]], words[k]);
      assert NeighboursClash(order, words, a);
    }
    if k: nat :| NeighboursClash(order, words, k) {
      assert words[order[k]] <= words[order[k + 1]] && order[k] != order[k + 1];
    }
  }

  /** Puts index `n` into its place in the order of the first `n` words. */
  method InsertIndex(order: seq<nat>, words: seq<Bytes>, n: nat) returns (more: seq<nat>)
    requires n < |words| && IsOrder(order, words, n)
    ensures IsOrder(more, words, n + 1)
  {
    var at := 0;
    while at < n && Precedes(words[order[at]], words[n])
      invariant at <= n
      invariant forall k :: 0 <= k < at ==> Precedes(words[order[k]], words[n])
    {
      at := at + 1;
    }
    more := order[..at] + [n] + order[at..];
    Inserted(order, words, n, at);
  }

  lemma Inserted(order: seq<nat>, words: seq<Bytes>, n: nat, at: nat)
    requires n < |words| && at <= n && IsOrder(order, words, n)
    requires forall k :: 0 <= k < at ==> Precedes(words[order[k]], words[n])
    requires at < n ==> !Precedes(words[order[at]], words[n])
    ensures IsOrder(order[..at] + [n] + order[at..], words, n + 1)
  {
    var more := order[..at] + [n] + order[at..];
    InsertedAll(order, n, at);
    forall k | at <= k < n ensures Precedes(words[n], words[order[k]]) {
      PrecedesIsTotal(words[n], words[order[at]]);
      if k > at {
        PrecedesIsTransitive(words[n], words[order[at]], words[order[k]]);
      }
    }
  }

  lemma InsertedAll(order: seq<nat>, n: nat, at: nat)
    requires |order| == n && at <= n && forall i: nat :: i < n ==> i in order
    ensures forall i: nat :: i < n + 1 ==> i in order[..at] + [n] + order[at..]
  {
    var more := order[..at] + [n] + order[at..];
    forall i: nat | i < n + 1 ensures i in more {
      if i == n {
        assert more[at] == n;
      } else {
        assert i in order;
        var k: nat :| k < n && order[k] == i;
        assert more[if k < at then k else k + 1] == i;
      }
    }
  }

  /** The indices sorted by word. */
  method SortIndices(words: seq<Bytes>) returns (order: seq<nat>)
    ensures IsOrder(order, words, |words|)
  {
    order := [];
    for n := 0 to |words|
      invariant IsOrder(order, words, n)
    {
      order := InsertIndex(order, words, n);
    }
  }

  /** Why a line is refused: the first line in order that is malformed or repeats something. */
  ghost predicate RefusedAt(lines: seq<Bytes>, k: nat, e: WordlistError) {
    && 1 <= k <= |lines| && Checked(lines, k - 1)
    && (e == MalformedLine(k) <==> LineOf(lines[k - 1]).None?)
    && (e == Duplicate(k) <==> LineOf(lines[k - 1]).Some? && !Checked(lines, k))
    && (e == MalformedLine(k) || e == Duplicate(k))
  }

  ghost function CodesOf(lines: seq<Bytes>, n: nat): set<Bytes>
    requires n <= |lines|
  {
    set i | 0 <= i < n :: CodeOf(lines[i])
  }

  ghost function SeenWords(lines: seq<Bytes>, n: nat): set<Bytes>
    requires n <= |lines|
  {
    set i | 0 <= i < n :: WordOf(lines[i])
  }

  lemma SeenMore(lines: seq<Bytes>, n: nat)
    requires n < |lines|
    ensures CodesOf(lines, n + 1) == CodesOf(lines, n) + {CodeOf(lines[n])}
    ensures SeenWords(lines, n + 1) == SeenWords(lines, n) + {WordOf(lines[n])}
  {
  }

  /** One more line keeps the lines checked exactly when its code and its word are new. */
  lemma CheckedMore(lines: seq<Bytes>, n: nat)
    requires n < |lines| && Checked(lines, n) && LineOf(lines[n]).Some?
    ensures Checked(lines, n + 1) <==> CodeOf(lines[n]) !in CodesOf(lines, n) && WordOf(lines[n]) !in SeenWords(lines, n)
  {
  }

  lemma WordsMore(lines: seq<Bytes>, n: nat)
    requires n < |lines|
    ensures WordsOf(lines[..n + 1]) == WordsOf(lines[..n]) + [WordOf(lines[n])]
  {
  }

  lemma CheckedLess(lines: seq<Bytes>, n: nat, m: nat)
    requires n <= m <= |lines| && Checked(lines, m)
    ensures Checked(lines, n)
  {
  }

  /** Splits the lines and refuses the first that is malformed or repeats a code or a word. */
  method ReadLines(lines: seq<Bytes>) returns (r: Result<seq<Bytes>, WordlistError>)
    ensures r.Ok? <==> Checked(lines, |lines|)
    ensures r.Ok? ==> r.value == WordsOf(lines)
    ensures r.Err? ==> (r.error.MalformedLine? || r.error.Duplicate?) && RefusedAt(lines, r.error.line, r.error)
  {
    var words: seq<Bytes> := [];
    var seenCodes, seenWords: set<Bytes> := {}, {};
    for index := 0 to |lines|
      invariant Checked(lines, index) && words == WordsOf(lines[..index])
      invariant seenCodes == CodesOf(lines, index) && seenWords == SeenWords(lines, index)
    {
      var number := index + 1;
      var line := LineOf(lines[index]);
      if line.None? {
        Malformed(lines, index);
        return Err(MalformedLine(number));
      }
      var (code, word) := line.value;
      if code in seenCodes || word in seenWords {
        Repeated(lines, index);
        return Err(Duplicate(number));
      }
      CheckedMore(lines, index);
      SeenMore(lines, index);
      WordsMore(lines, index);
      seenCodes := seenCodes + {code};
      seenWords := seenWords + {word};
      words := words + [word];
    }
    assert lines[..|lines|] == lines;
    return Ok(words);
  }

  lemma Malformed(lines: seq<Bytes>, index: nat)
    requires index < |lines| && Checked(lines, index) && LineOf(lines[index]).None?
    ensures RefusedAt(lines, index + 1, MalformedLine(index + 1)) && !Checked(lines, |lines|)
  {
    Refused(lines, index + 1, MalformedLine(index + 1));
  }

  lemma Repeated(lines: seq<Bytes>, index: nat)
    requires index < |lines| && Checked(lines, index) && LineOf(lines[index]).Some?
    requires CodeOf(lines[index]) in CodesOf(lines, index) || WordOf(lines[index]) in SeenWords(lines, index)
    ensures RefusedAt(lines, index + 1, Duplicate(index + 1)) && !Checked(lines, |lines|)
  {
    CheckedMore(lines, index);
    Refused(lines, index + 1, Duplicate(index + 1));
  }

  lemma Refused(lines: seq<Bytes>, k: nat, e: WordlistError)
    requires RefusedAt(lines, k, e)
    ensures !Checked(lines, |lines|)
  {
    if Checked(lines, |lines|) {
      CheckedLess(lines, k, |lines|);
    }
  }

  /** Looks for a pair of neighbours of which the second starts with the first. */
  method ScanNeighbours(words: seq<Bytes>, order: seq<nat>) returns (clash: Option<nat>)
    requires IsOrder(order, words, |words|) && forall i, k :: 0 <= i < k < |words| ==> words[i] != words[k]
    ensures clash.None? <==> PrefixFree(words)
    ensures clash.Some? ==> NeighboursClash(order, words, clash.value)
  {
    NeighbourScanIsComplete(words, order);
    var k := 0;
    while k + 1 < |order|
      invariant forall j: nat :: j < k ==> !NeighboursClash(order, words, j)
    {
      if words[order[k]] <= words[order[k + 1]] {
        return Some(k);
      }
      k := k + 1;
    }
    return None;
  }

  /** Some word is a prefix of line `k`'s word. */
  ghost predicate StartsWithAnother(words: seq<Bytes>, k: nat) {
    1 <= k <= |words| && exists i :: 0 <= i < |words| && i != k - 1 && words[i] <= words[k - 1]
  }

  /** What each refusal says of the lines. */
  ghost predicate Explains(lines: seq<Bytes>, e: WordlistError) {
    match e
    case WrongCount(n) => n == |lines| != WORDLIST_LEN && Checked(lines, n)
    case NotPrefixFree(k) => Checked(lines, |lines|) && |lines| == WORDLIST_LEN && StartsWithAnother(WordsOf(lines), k)
    case MalformedLine(k) => RefusedAt(lines, k, e)
    case Duplicate(k) => RefusedAt(lines, k, e)
  }

  lemma CheckedWordsDiffer(lines: seq<Bytes>)
    requires Checked(lines, |lines|)
    ensures var words := WordsOf(lines); forall i, k :: 0 <= i < k < |words| ==> words[i] != words[k]
  {
  }

  lemma ClashExplains(words: seq<Bytes>, order: seq<nat>, k: nat)
    requires IsOrder(order, words, |words|) && NeighboursClash(order, words, k)
    ensures StartsWithAnother(words, order[k + 1] + 1)
  {
  }

  /** Parses a wordlist: accepted when it has exactly 7776 well-formed lines, no code and no word
      twice, and no word that starts with another. */
  method Parse(text: Bytes) returns (r: Result<seq<Bytes>, WordlistError>)
    ensures r.Ok? <==> var lines := Lines(text); Checked(lines, |lines|) && |lines| == WORDLIST_LEN && PrefixFree(WordsOf(lines))
    ensures if r.Ok? then r.value == WordsOf(Lines(text)) else Explains(Lines(text), r.error)
  {
    var lines := Lines(text);
    r := ReadLines(lines);
    if r.Err? {
      return;
    }
    var words := r.value;
    if |words| != WORDLIST_LEN {
      return Err(WrongCount(|words|));
    }
    CheckedWordsDiffer(lines);
    var order := SortIndices(words);
    var clash := ScanNeighbours(words, order);
    if clash.Some? {
      ClashExplains(words, order, clash.value);
      return Err(NotPrefixFree(order[clash.value + 1] + 1));
    }
  }
}
