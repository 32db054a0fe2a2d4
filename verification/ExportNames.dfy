/** The export-name policy: names that are safe to create anywhere, and distinct ignoring case.
    Lowercasing is any character-by-character mapping that leaves digits and the policy's own
    punctuation alone. */
module ExportNames {
  import opened Basics
  import opened Protocol

  predicate IsForbidden(c: char) {
    c == '/' || c == '\\' || c == ':' || c == '*' || c == '?' || c == '\"' || c == '<' || c == '>' || c == '|'
  }

  predicate Spells(s: string, a: char, b: char, c: char) { |s| >= 3 && s[0] == a && s[1] == b && s[2] == c }

  /** con, prn, aux, nul, and com and lpt with a digit from 1 to 9 or a superscript one, two or three. */
  predicate IsReserved(s: string) {
    || (|s| == 3 && (Spells(s, 'c', 'o', 'n') || Spells(s, 'p', 'r', 'n') || Spells(s, 'a', 'u', 'x') || Spells(s, 'n', 'u', 'l')))
    || (|s| == 4 && (Spells(s, 'c', 'o', 'm') || Spells(s, 'l', 'p', 't'))
        && ('1' <= s[3] <= '9' || s[3] == '\U{B9}' || s[3] == '\U{B2}' || s[3] == '\U{B3}'))
  }

  // ---------------------------------------------------------------- text

  predicate IsControl(c: char) { c as int < 0x20 || 0x7F <= c as int < 0xA0 }

  /** The bytes a character takes in UTF-8. */
  function CharLen(c: char): (n: nat)
    ensures 1 <= n <= 4
  {
    if c as int < 0x80 then 1 else if c as int < 0x800 then 2 else if c as int < 0x10000 then 3 else 4
  }

  function ByteLen(s: string): (n: nat)
    ensures n >= |s|
  {
    if s == "" then 0 else CharLen(s[0]) + ByteLen(s[1..])
  }

  function Lowered(lower: char -> string, s: string): string {
    if s == "" then "" else lower(s[0]) + Lowered(lower, s[1..])
  }

  predicate IsDigit(c: char) { '0' <= c <= '9' }

  predicate IsMark(c: char) { c == '(' || c == ')' || c == '-' || c == '_' }

  ghost predicate KeepsPunctuation(lower: char -> string) {
    (forall c: char :: IsDigit(c) ==> lower(c) == [c])
    && lower(' ') == " " && lower('.') == "." && lower('(') == "(" && lower(')') == ")" && lower('-') == "-" && lower('_') == "_"
  }

  /** Without trailing dots and spaces. */
  function TrimEnd(s: string): (r: string)
    ensures r <= s && (r != "" ==> r[|r| - 1] != '.' && r[|r| - 1] != ' ')
  {
    if s != "" && (s[|s| - 1] == '.' || s[|s| - 1] == ' ') then TrimEnd(s[..|s| - 1]) else s
  }

  function TrimSpaces(s: string): string {
    if s != "" && s[|s| - 1] == ' ' then TrimSpaces(s[..|s| - 1]) else s
  }

  /** The longest run of whole characters that fits. */
  function Truncate(s: string, maxBytes: nat): (r: string)
    ensures r <= s && ByteLen(r) <= maxBytes
  {
    if s == "" || CharLen(s[0]) > maxBytes then ""
    else [s[0]] + Truncate(s[1..], maxBytes - CharLen(s[0]))
  }

  /** What comes before the first dot. */
  function FirstPart(s: string): (r: string)
    ensures r <= s
  {
    if s == "" || s[0] == '.' then "" else [s[0]] + FirstPart(s[1..])
  }

  /** Where the last dot is. */
  function LastDot(s: string): (i: Option<nat>)
    ensures i.Some? ==> i.value < |s| && s[i.value] == '.'
  {
    if s == "" then None else if s[|s| - 1] == '.' then Some(|s| - 1) else LastDot(s[..|s| - 1])
  }

  function NumberText(n: nat): (r: string)
    ensures |r| >= 1 && forall i :: 0 <= i < |r| ==> IsDigit(r[i])
  {
    if n < 10 then [DigitChar(n)] else NumberText(n / 10) + [DigitChar(n % 10)]
  }

  function DigitChar(d: nat): (c: char)
    requires d < 10
    ensures IsDigit(c) && c as int == '0' as int + d
  {
    (('0' as int) + d) as char
  }

  predicate IsDevice(lower: char -> string, name: string) { IsReserved(Lowered(lower, TrimSpaces(FirstPart(name)))) }

  predicate IsPrintable(name: string) {
    forall i :: 0 <= i < |name| ==> !IsForbidden(name[i]) && !IsControl(name[i])
  }

  predicate EndsWell(name: string) { name != "" && name[|name| - 1] != '.' && name[|name| - 1] != ' ' }

  /** A name any supported platform can create. */
  predicate IsSafe(lower: char -> string, name: string) {
    1 <= ByteLen(name) <= MAX_NAME_BYTES && IsPrintable(name) && EndsWell(name) && !IsDevice(lower, name)
  }

  lemma {:induction false} ByteLenOfBoth(a: string, b: string)
    ensures ByteLen(a + b) == ByteLen(a) + ByteLen(b)
    decreases |a|
  {
    if a == "" {
      assert a + b == b;
    } else {
      assert (a + b)[1..] == a[1..] + b;
      ByteLenOfBoth(a[1..], b);
    }
  }

  lemma PrefixIsShorter(a: string, b: string)
    requires a <= b
    ensures ByteLen(a) <= ByteLen(b)
  {
    assert b == a + b[|a|..];
    ByteLenOfBoth(a, b[|a|..]);
  }

  lemma {:induction false} LoweredBoth(lower: char -> string, a: string, b: string)
    ensures Lowered(lower, a + b) == Lowered(lower, a) + Lowered(lower, b)
    decreases |a|
  {
    if a == "" {
      assert a + b == b;
    } else {
      assert (a + b)[1..] == a[1..] + b;
      LoweredBoth(lower, a[1..], b);
    }
  }

  lemma {:induction false} PlainText(lower: char -> string, s: string)
    requires KeepsPunctuation(lower)
    requires forall i :: 0 <= i < |s| ==> IsDigit(s[i]) || IsMark(s[i]) || s[i] == ' ' || s[i] == '.'
    ensures Lowered(lower, s) == s && ByteLen(s) == |s|
    decreases |s|
  {
    if s != "" {
      PlainText(lower, s[1..]);
      assert s == [s[0]] + s[1..];
    }
  }

  /** A mark stays in the lowered text. */
  lemma {:induction false} MarkIsKept(lower: char -> string, s: string, i: nat) returns (at: nat)
    requires KeepsPunctuation(lower) && i < |s| && IsMark(s[i])
    ensures at < |Lowered(lower, s)| && Lowered(lower, s)[at] == s[i]
    decreases |s|
  {
    if i == 0 {
      at := 0;
    } else {
      at := MarkIsKept(lower, s[1..], i - 1);
      at := |lower(s[0])| + at;
    }
  }

  lemma MarkedIsNotReserved(s: string, i: nat)
    requires i < |s| && IsMark(s[i])
    ensures !IsReserved(s)
  {
  }

  /** A device's name has no marks, so a name whose first part has one is no device. */
  lemma MarkedIsNoDevice(lower: char -> string, s: string, i: nat)
    requires KeepsPunctuation(lower) && i < |s| && IsMark(s[i])
    ensures !IsReserved(Lowered(lower, s))
  {
    var at := MarkIsKept(lower, s, i);
    MarkedIsNotReserved(Lowered(lower, s), at);
  }

  predicate NoDot(s: string) { forall i :: 0 <= i < |s| ==> s[i] != '.' }

  lemma {:induction false} FirstPartOfBoth(a: string, b: string)
    ensures FirstPart(a + b) == if NoDot(a) then a + FirstPart(b) else FirstPart(a)
    decreases |a|
  {
    if a == "" {
      assert a + b == b;
    } else {
      NoDotFromFirst(a);
      if a[0] != '.' {
        FirstPartOfBoth(a[1..], b);
        FirstPartOfMore(a, b);
        assert a + FirstPart(b) == [a[0]] + (a[1..] + FirstPart(b));
      }
    }
  }

  lemma FirstPartOfMore(a: string, b: string)
    requires a != "" && a[0] != '.'
    ensures FirstPart(a + b) == [a[0]] + FirstPart(a[1..] + b)
  {
    assert (a + b)[1..] == a[1..] + b;
  }

  lemma NoDotFromFirst(s: string)
    requires s != ""
    ensures NoDot(s) <==> s[0] != '.' && NoDot(s[1..])
  {
    assert s == [s[0]] + s[1..];
  }

  // ---------------------------------------------------------------- sanitizing

  function Replaced(name: string): (r: string)
    ensures |r| == |name|
    ensures forall i :: 0 <= i < |r| ==> r[i] == if IsForbidden(name[i]) || IsControl(name[i]) then '_' else name[i]
  {
    seq(|name|, i requires 0 <= i < |name| => if IsForbidden(name[i]) || IsControl(name[i]) then '_' else name[i])
  }

  function Sanitized(lower: char -> string, name: string, index: nat): string {
    var safe := TrimEnd(Replaced(name));
    if safe == "" then "file-" + NumberText(index + 1)
    else if IsDevice(lower, safe) then TrimEnd(Truncate("_" + safe, MAX_NAME_BYTES))
    else TrimEnd(Truncate(safe, MAX_NAME_BYTES))
  }

  method Sanitize(lower: char -> string, name: string, index: nat) returns (safe: string)
    ensures safe == Sanitized(lower, name, index)
  {
    var replaced := "";
    for i := 0 to |name|
      invariant replaced == Replaced(name)[..i]
    {
      var c := name[i];
      replaced := replaced + [if IsForbidden(c) || IsControl(c) then '_' else c];
    }
    assert Replaced(name)[..|name|] == Replaced(name);
    safe := TrimEnd(replaced);
    if safe == "" {
      return "file-" + NumberText(index + 1);
    }
    var stem := TrimSpaces(FirstPart(safe));
    if IsReserved(Lowered(lower, stem)) {
      safe := "_" + safe;
    }
    safe := TrimEnd(Truncate(safe, MAX_NAME_BYTES));
  }

  lemma {:induction false} ReplacedIsShorter(name: string)
    ensures ByteLen(Replaced(name)) <= ByteLen(name)
    decreases |name|
  {
    if name != "" {
      ReplacedIsShorter(name[1..]);
      assert Replaced(name)[1..] == Replaced(name[1..]);
    }
  }

  lemma {:induction false} TruncateKeepsShort(s: string, maxBytes: nat)
    requires ByteLen(s) <= maxBytes
    ensures Truncate(s, maxBytes) == s
    decreases |s|
  {
    if s != "" {
      TruncateKeepsShort(s[1..], maxBytes - CharLen(s[0]));
      assert s == [s[0]] + s[1..];
    }
  }

  lemma {:induction false} NumberLength(n: nat, m: nat)
    requires n <= m
    ensures |NumberText(n)| <= |NumberText(m)|
    decreases m
  {
    if n >= 10 {
      NumberLength(n / 10, m / 10);
    }
  }

  lemma ShortNumber(n: nat)
    requires n < 1000
    ensures |NumberText(n)| <= 3
  {
    if n >= 100 {
      assert |NumberText(n / 10 / 10)| == 1;
      assert |NumberText(n / 10)| == 2;
    } else if n >= 10 {
      assert |NumberText(n / 10)| == 1;
    }
  }

  /** Whatever a manifest names a file, the sanitized name is safe. */
  lemma SanitizedIsSafe(lower: char -> string, name: string, index: nat)
    requires KeepsPunctuation(lower) && ByteLen(name) <= MAX_NAME_BYTES && index < MAX_FILES_CEILING
    ensures IsSafe(lower, Sanitized(lower, name, index))
  {
    var safe := TrimEnd(Replaced(name));
    TrimmedIsPrintable(name);
    if safe == "" {
      FileNumberIsSafe(lower, index + 1);
    } else if IsDevice(lower, safe) {
      PrefixedIsSafe(lower, safe);
    } else {
      TruncateKeepsShort(safe, MAX_NAME_BYTES);
      assert TrimEnd(safe) == safe;
    }
  }

  lemma TrimmedIsPrintable(name: string)
    requires ByteLen(name) <= MAX_NAME_BYTES
    ensures var safe := TrimEnd(Replaced(name));
            IsPrintable(safe) && ByteLen(safe) <= MAX_NAME_BYTES && (safe != "" ==> EndsWell(safe))
  {
    var safe := TrimEnd(Replaced(name));
    ReplacedIsShorter(name);
    PrefixIsShorter(safe, Replaced(name));
    assert forall i :: 0 <= i < |safe| ==> safe[i] == Replaced(name)[i];
  }

  lemma FileNumberIsSafe(lower: char -> string, n: nat)
    requires KeepsPunctuation(lower) && n <= MAX_FILES_CEILING
    ensures IsSafe(lower, "file-" + NumberText(n))
  {
    var name := "file-" + NumberText(n);
    FileNumberIsShort(lower, n);
    FileNumberIsNoDevice(lower, n);
  }

  lemma FileNumberIsShort(lower: char -> string, n: nat)
    requires KeepsPunctuation(lower) && n <= MAX_FILES_CEILING
    ensures 1 <= ByteLen("file-" + NumberText(n)) <= MAX_NAME_BYTES
  {
    ShortNumber(n);
    PlainText(lower, NumberText(n));
    ByteLenOfBoth("file-", NumberText(n));
    assert ByteLen("file-") == 5 by {
      ByteLenOfBoth("fil", "e-");
      assert "file-" == "fil" + "e-";
    }
  }

  lemma FileNumberIsNoDevice(lower: char -> string, n: nat)
    requires KeepsPunctuation(lower)
    ensures !IsDevice(lower, "file-" + NumberText(n))
  {
    var name := "file-" + NumberText(n);
    NoDotIsWhole(name);
    assert TrimSpaces(name) == name && name[4] == '-';
    MarkedIsNoDevice(lower, name, 4);
  }

  lemma {:induction false} NoDotIsWhole(s: string)
    requires NoDot(s)
    ensures FirstPart(s) == s
    decreases |s|
  {
    if s != "" {
      NoDotIsWhole(s[1..]);
      assert s == [s[0]] + s[1..];
    }
  }

  /** A device's name with an underscore before it, cut to size, is safe. */
  lemma PrefixedIsSafe(lower: char -> string, safe: string)
    requires KeepsPunctuation(lower) && IsPrintable(safe)
    ensures IsSafe(lower, TrimEnd(Truncate("_" + safe, MAX_NAME_BYTES)))
  {
    var cut := Truncate("_" + safe, MAX_NAME_BYTES);
    var name := TrimEnd(cut);
    CutIsPrintable(safe);
    TrimKeepsFirst(cut);
    PrefixIsShorter(name, cut);
    UnderscoreIsNoDevice(lower, name);
  }

  lemma CutIsPrintable(safe: string)
    requires IsPrintable(safe)
    ensures var cut := Truncate("_" + safe, MAX_NAME_BYTES); cut != "" && cut[0] == '_' && IsPrintable(TrimEnd(cut))
  {
    var text := "_" + safe;
    var cut := Truncate(text, MAX_NAME_BYTES);
    assert text[0] == '_' && text[1..] == safe;
    assert cut[0] == '_';
    assert forall i :: 0 <= i < |TrimEnd(cut)| ==> TrimEnd(cut)[i] == text[i] && (i > 0 ==> text[i] == safe[i - 1]);
  }

  lemma UnderscoreIsNoDevice(lower: char -> string, name: string)
    requires KeepsPunctuation(lower) && name != "" && name[0] == '_'
    ensures !IsDevice(lower, name)
  {
    TrimKeepsFirst(FirstPart(name));
    MarkedIsNoDevice(lower, TrimSpaces(FirstPart(name)), 0);
  }

  lemma {:induction false} TrimKeepsFirst(s: string)
    requires s != "" && s[0] == '_'
    ensures TrimEnd(s) != "" && TrimEnd(s)[0] == '_'
    ensures TrimSpaces(s) != "" && TrimSpaces(s)[0] == '_'
    decreases |s|
  {
    if s[|s| - 1] == '.' || s[|s| - 1] == ' ' {
      TrimKeepsFirst(s[..|s| - 1]);
    }
  }

  // ---------------------------------------------------------------- numbering

  function Suffix(n: nat): (r: string)
    ensures forall i :: 0 <= i < |r| ==> IsDigit(r[i]) || IsMark(r[i]) || r[i] == ' '
  {
    " (" + NumberText(n) + ")"
  }

  /** The extension from the last dot, unless that is the first character. */
  function ExtensionOf(name: string): (extension: string)
    ensures |extension| < |name| || extension == ""
    ensures extension == "" || (extension[0] == '.' && extension == name[|name| - |extension|..])
  {
    if LastDot(name).Some? && LastDot(name).value > 0 then name[LastDot(name).value..] else ""
  }

  /** Whether the number and the extension leave room for at least one byte of the stem. */
  predicate KeepsExtension(name: string, n: nat) {
    |Suffix(n)| + ByteLen(ExtensionOf(name)) < MAX_NAME_BYTES
  }

  /** The name with number `n`, cut to size. */
  function Candidate(name: string, n: nat): string
    requires |Suffix(n)| <= MAX_NAME_BYTES
  {
    var extension := ExtensionOf(name);
    if KeepsExtension(name, n)
    then Truncate(name[..|name| - |extension|], MAX_NAME_BYTES - |Suffix(n)| - ByteLen(extension)) + Suffix(n) + extension
    else Truncate(name, MAX_NAME_BYTES - |Suffix(n)|) + Suffix(n)
  }

  /** Taking the last digit off leaves a digit at the end exactly when the number had two. */
  lemma NumberTail(a: string, n: nat)
    ensures var s := a + "(" + NumberText(n);
            && s[|s| - 1] == DigitChar(n % 10)
            && s[..|s| - 1] == (if n < 10 then a + "(" else a + "(" + NumberText(n / 10))
            && (IsDigit(s[|s| - 2]) <==> n >= 10)
  {
    var s := a + "(" + NumberText(n);
    if n < 10 {
      assert s == a + "(" + [DigitChar(n)];
    } else {
      assert s == a + "(" + NumberText(n / 10) + [DigitChar(n % 10)];
      assert s[|s| - 2] == NumberText(n / 10)[|NumberText(n / 10)| - 1];
    }
  }

  /** Digits after an opening parenthesis say which number they are. */
  lemma {:induction false} NumbersReadBack(a: string, n: nat, b: string, m: nat)
    requires a + "(" + NumberText(n) == b + "(" + NumberText(m)
    ensures n == m
    decreases n
  {
    NumberTail(a, n);
    NumberTail(b, m);
    if n >= 10 {
      NumbersReadBack(a, n / 10, b, m / 10);
    }
  }

  lemma EqualEnds(a: string, b: string, end: string)
    requires a + end == b + end
    ensures a == b
  {
    assert |a| == |b|;
    assert a == (a + end)[..|a|] && b == (b + end)[..|b|];
  }

  /** What a candidate is made of: the front, the number, and the extension or nothing. */
  function Front(name: string, n: nat): string
    requires |Suffix(n)| <= MAX_NAME_BYTES
  {
    if KeepsExtension(name, n)
    then Truncate(name[..|name| - |ExtensionOf(name)|], MAX_NAME_BYTES - |Suffix(n)| - ByteLen(ExtensionOf(name)))
    else Truncate(name, MAX_NAME_BYTES - |Suffix(n)|)
  }

  function Tail(name: string, n: nat): string { if KeepsExtension(name, n) then ExtensionOf(name) else "" }

  lemma CandidateParts(name: string, n: nat)
    requires |Suffix(n)| <= MAX_NAME_BYTES
    ensures Candidate(name, n) == Front(name, n) + Suffix(n) + Tail(name, n)
  {
  }

  lemma PartsLowered(lower: char -> string, front: string, n: nat, tail: string)
    requires KeepsPunctuation(lower)
    ensures Lowered(lower, front + Suffix(n) + tail) == Lowered(lower, front) + " " + "(" + NumberText(n) + ")" + Lowered(lower, tail)
  {
    LoweredBoth(lower, front + Suffix(n), tail);
    LoweredBoth(lower, front, Suffix(n));
    PlainText(lower, Suffix(n));
    SpelledSuffix(Lowered(lower, front), n);
  }

  lemma SpelledSuffix(front: string, n: nat)
    ensures front + Suffix(n) == front + " " + "(" + NumberText(n) + ")"
  {
    assert Suffix(n) == " " + "(" + NumberText(n) + ")";
  }

  lemma CandidateLowered(lower: char -> string, name: string, n: nat)
    requires KeepsPunctuation(lower) && |Suffix(n)| <= MAX_NAME_BYTES
    ensures Lowered(lower, Candidate(name, n))
         == Lowered(lower, Front(name, n)) + " " + "(" + NumberText(n) + ")" + Lowered(lower, Tail(name, n))
  {
    CandidateParts(name, n);
    PartsLowered(lower, Front(name, n), n, Tail(name, n));
  }

  /** Within one regime, the extension kept or dropped, different numbers give different names. */
  lemma CandidatesDiffer(lower: char -> string, name: string, n: nat, m: nat)
    requires KeepsPunctuation(lower) && |Suffix(n)| <= MAX_NAME_BYTES && |Suffix(m)| <= MAX_NAME_BYTES
    requires KeepsExtension(name, n) == KeepsExtension(name, m)
    requires Lowered(lower, Candidate(name, n)) == Lowered(lower, Candidate(name, m))
    ensures n == m
  {
    CandidateLowered(lower, name, n);
    CandidateLowered(lower, name, m);
    var a, b := Lowered(lower, Front(name, n)) + " ", Lowered(lower, Front(name, m)) + " ";
    EqualEnds(a + "(" + NumberText(n) + ")", b + "(" + NumberText(m) + ")", Lowered(lower, Tail(name, n)));
    EqualEnds(a + "(" + NumberText(n), b + "(" + NumberText(m), ")");
    NumbersReadBack(a, n, b, m);
  }

  lemma SuffixLength(n: nat, m: nat)
    requires n <= m
    ensures |Suffix(n)| <= |Suffix(m)| && |Suffix(n)| == |NumberText(n)| + 3
  {
    NumberLength(n, m);
  }

  lemma {:induction false} FirstPartOfPrefix(t: string, name: string)
    requires t <= name && !NoDot(t)
    ensures FirstPart(t) == FirstPart(name)
  {
    assert name == t + name[|t|..];
    FirstPartOfBoth(t, name[|t|..]);
  }

  /** A numbered safe name is safe. */
  lemma CandidateIsSafe(lower: char -> string, name: string, n: nat)
    requires KeepsPunctuation(lower) && IsSafe(lower, name) && |Suffix(n)| <= MAX_NAME_BYTES
    ensures IsSafe(lower, Candidate(name, n))
  {
    var front, suffix, tail := Front(name, n), Suffix(n), Tail(name, n);
    CandidateParts(name, n);
    CandidateFits(lower, name, n);
    CandidateIsPrintable(name, front, suffix, tail);
    CandidateIsNoDevice(lower, name, front, suffix, tail);
  }

  lemma CandidateFits(lower: char -> string, name: string, n: nat)
    requires KeepsPunctuation(lower) && |Suffix(n)| <= MAX_NAME_BYTES
    ensures 1 <= ByteLen(Front(name, n) + Suffix(n) + Tail(name, n)) <= MAX_NAME_BYTES
  {
    ByteLenOfBoth(Front(name, n) + Suffix(n), Tail(name, n));
    ByteLenOfBoth(Front(name, n), Suffix(n));
    PlainText(lower, Suffix(n));
  }

  lemma CandidateIsPrintable(name: string, front: string, suffix: string, tail: string)
    requires IsPrintable(name) && EndsWell(name) && front <= name && |tail| <= |name| && tail == name[|name| - |tail|..]
    requires suffix != "" && suffix[|suffix| - 1] == ')'
    requires forall i :: 0 <= i < |suffix| ==> IsDigit(suffix[i]) || IsMark(suffix[i]) || suffix[i] == ' '
    ensures IsPrintable(front + suffix + tail) && EndsWell(front + suffix + tail)
  {
    assert forall i :: 0 <= i < |front| ==> front[i] == name[i];
    assert forall i :: 0 <= i < |tail| ==> tail[i] == name[|name| - |tail| + i];
  }

  /** Where the front keeps a dot the first part is the name's own; elsewhere it ends in the suffix. */
  lemma CandidateFirstPart(name: string, front: string, suffix: string, tail: string)
    requires front <= name && NoDot(suffix) && (tail == "" || tail[0] == '.')
    ensures FirstPart(front + suffix + tail) == if NoDot(front) then front + suffix else FirstPart(name)
  {
    var stem := front + suffix;
    FirstPartOfBoth(stem, tail);
    FirstPartOfBoth(front, suffix);
    if NoDot(front) {
      assert NoDot(stem);
      assert FirstPart(tail) == "" && stem + "" == stem;
    } else {
      DotStays(front, suffix);
      FirstPartOfPrefix(front, name);
    }
  }

  lemma DotStays(a: string, b: string)
    requires !NoDot(a)
    ensures !NoDot(a + b)
  {
    var i :| 0 <= i < |a| && a[i] == '.';
    assert (a + b)[i] == '.';
  }

  lemma CandidateIsNoDevice(lower: char -> string, name: string, front: string, suffix: string, tail: string)
    requires KeepsPunctuation(lower) && !IsDevice(lower, name) && front <= name
    requires suffix != "" && suffix[|suffix| - 1] == ')' && NoDot(suffix)
    requires tail == "" || tail[0] == '.'
    ensures !IsDevice(lower, front + suffix + tail)
  {
    CandidateFirstPart(name, front, suffix, tail);
    if NoDot(front) {
      MarkedEndIsNoDevice(lower, front + suffix);
    }
  }

  lemma MarkedEndIsNoDevice(lower: char -> string, stem: string)
    requires KeepsPunctuation(lower) && stem != "" && stem[|stem| - 1] == ')'
    ensures !IsReserved(Lowered(lower, TrimSpaces(stem)))
  {
    assert TrimSpaces(stem) == stem;
    MarkedIsNoDevice(lower, stem, |stem| - 1);
  }

  // ---------------------------------------------------------------- disambiguating

  /** What `disambiguate` promises: the name itself when it is free, otherwise its first free
      candidate. */
  ghost predicate IsFirstFree(lower: char -> string, name: string, used: set<string>, r: string) {
    && Lowered(lower, r) !in used
    && (Lowered(lower, name) !in used ==> r == name)
    && (Lowered(lower, name) in used ==> exists n :: IsFirstNumber(lower, name, used, r, n))
  }

  ghost predicate IsFirstNumber(lower: char -> string, name: string, used: set<string>, r: string, n: nat) {
    && 2 <= n <= 2 * |used| + 2 && |Suffix(n)| <= MAX_NAME_BYTES && r == Candidate(name, n)
    && AllTaken(lower, name, used, n)
  }

  /** The taken names that the numbers tried so far gave in one regime. */
  ghost predicate Taken(lower: char -> string, name: string, used: set<string>, n: nat, keeps: bool, taken: set<string>) {
    taken <= used && forall t :: t in taken ==> exists k :: IsTakenBy(lower, name, n, keeps, t, k)
  }

  ghost predicate IsTakenBy(lower: char -> string, name: string, n: nat, keeps: bool, t: string, k: nat) {
    2 <= k < n && |Suffix(k)| <= MAX_NAME_BYTES && KeepsExtension(name, k) == keeps && t == Lowered(lower, Candidate(name, k))
  }

  lemma TakenMore(lower: char -> string, name: string, used: set<string>, n: nat, next: nat, keeps: bool, taken: set<string>)
    requires KeepsPunctuation(lower) && n >= 2 && next == n + 1 && |Suffix(n)| <= MAX_NAME_BYTES
    requires Taken(lower, name, used, n, keeps, taken) && Lowered(lower, Candidate(name, n)) in used
    ensures KeepsExtension(name, n) == keeps ==>
              var t := Lowered(lower, Candidate(name, n));
              |taken + {t}| == |taken| + 1 && Taken(lower, name, used, next, keeps, taken + {t})
    ensures Taken(lower, name, used, next, keeps, taken)
  {
    forall t | t in taken ensures exists k :: IsTakenBy(lower, name, next, keeps, t, k) {
      var k :| IsTakenBy(lower, name, n, keeps, t, k);
      assert IsTakenBy(lower, name, next, keeps, t, k);
    }
    if KeepsExtension(name, n) == keeps {
      var t := Lowered(lower, Candidate(name, n));
      if t in taken {
        var k :| IsTakenBy(lower, name, n, keeps, t, k);
        CandidatesDiffer(lower, name, n, k);
      }
      assert IsTakenBy(lower, name, next, keeps, t, n);
    }
  }

  /** Every number below `n` was tried and taken, in one regime or the other. */
  ghost predicate Tried(lower: char -> string, name: string, used: set<string>, n: nat) {
    AllTaken(lower, name, used, n) && exists kept, dropped :: TakenInBoth(lower, name, used, n, kept, dropped)
  }

  ghost predicate AllTaken(lower: char -> string, name: string, used: set<string>, n: nat) {
    forall m :: 2 <= m < n && |Suffix(m)| <= MAX_NAME_BYTES ==> Lowered(lower, Candidate(name, m)) in used
  }

  ghost predicate TakenInBoth(lower: char -> string, name: string, used: set<string>, n: nat, kept: set<string>, dropped: set<string>) {
    Taken(lower, name, used, n, true, kept) && Taken(lower, name, used, n, false, dropped) && |kept| + |dropped| == n - 2
  }

  lemma NothingTried(lower: char -> string, name: string, used: set<string>)
    ensures Tried(lower, name, used, 2)
  {
    assert TakenInBoth(lower, name, used, 2, {}, {});
  }

  /** So few numbers can have been tried. */
  lemma TriedIsBounded(lower: char -> string, name: string, used: set<string>, n: nat)
    requires Tried(lower, name, used, n)
    ensures n <= 2 * |used| + 2
  {
    var kept, dropped :| TakenInBoth(lower, name, used, n, kept, dropped);
    SubsetIsSmaller(kept, used);
    SubsetIsSmaller(dropped, used);
  }

  lemma TriedMore(lower: char -> string, name: string, used: set<string>, n: nat, next: nat)
    requires KeepsPunctuation(lower) && n >= 2 && next == n + 1 && |Suffix(n)| <= MAX_NAME_BYTES
    requires Tried(lower, name, used, n) && Lowered(lower, Candidate(name, n)) in used
    ensures Tried(lower, name, used, next)
  {
    var kept, dropped :| TakenInBoth(lower, name, used, n, kept, dropped);
    BothMore(lower, name, used, n, next, kept, dropped);
    AllTakenMore(lower, name, used, n, next);
  }

  lemma AllTakenMore(lower: char -> string, name: string, used: set<string>, n: nat, next: nat)
    requires next == n + 1 && |Suffix(n)| <= MAX_NAME_BYTES
    requires AllTaken(lower, name, used, n) && Lowered(lower, Candidate(name, n)) in used
    ensures AllTaken(lower, name, used, next)
  {
    forall m | 2 <= m < next && |Suffix(m)| <= MAX_NAME_BYTES ensures Lowered(lower, Candidate(name, m)) in used {
      if m == n {
      }
    }
  }

  lemma BothMore(lower: char -> string, name: string, used: set<string>, n: nat, next: nat, kept: set<string>, dropped: set<string>)
    requires KeepsPunctuation(lower) && n >= 2 && next == n + 1 && |Suffix(n)| <= MAX_NAME_BYTES
    requires TakenInBoth(lower, name, used, n, kept, dropped) && Lowered(lower, Candidate(name, n)) in used
    ensures exists more, others :: TakenInBoth(lower, name, used, next, more, others)
  {
    var t := Lowered(lower, Candidate(name, n));
    TakenMore(lower, name, used, n, next, true, kept);
    TakenMore(lower, name, used, n, next, false, dropped);
    var (more, others) := if KeepsExtension(name, n) then (kept + {t}, dropped) else (kept, dropped + {t});
    assert TakenInBoth(lower, name, used, next, more, others);
  }

  lemma TriedIsFirst(lower: char -> string, name: string, used: set<string>, n: nat)
    requires n >= 2 && |Suffix(n)| <= MAX_NAME_BYTES && Lowered(lower, name) in used
    requires Tried(lower, name, used, n) && Lowered(lower, Candidate(name, n)) !in used
    ensures IsFirstFree(lower, name, used, Candidate(name, n))
  {
    TriedIsBounded(lower, name, used, n);
    assert IsFirstNumber(lower, name, used, Candidate(name, n), n);
  }

  /** Numbers the name until it is free. Each taken number costs a used name, once while the
      extension is kept and once after it is dropped, so the loop ends; and the number stays short
      enough for the room left for the name to be positive. */
  method Disambiguate(lower: char -> string, name: string, used: set<string>) returns (r: string)
    requires KeepsPunctuation(lower) && |Suffix(2 * |used| + 2)| <= MAX_NAME_BYTES
    ensures IsFirstFree(lower, name, used, r)
  {
    if Lowered(lower, name) !in used {
      return name;
    }
    var n := 2;
    NothingTried(lower, name, used);
    while true
      invariant n >= 2 && Tried(lower, name, used, n)
      decreases 2 * |used| + 2 - n
    {
      TriedIsBounded(lower, name, used, n);
      SuffixLength(n, 2 * |used| + 2);
      var candidate := Candidate(name, n);
      if Lowered(lower, candidate) !in used {
        TriedIsFirst(lower, name, used, n);
        return candidate;
      }
      TriedMore(lower, name, used, n, n + 1);
      TriedIsBounded(lower, name, used, n + 1);
      n := n + 1;
    }
  }

  // ---------------------------------------------------------------- the whole policy

  ghost function UsedBefore(lower: char -> string, out: seq<string>, i: nat): set<string>
    requires i <= |out|
  {
    if i == 0 then {} else UsedBefore(lower, out, i - 1) + {Lowered(lower, out[i - 1])}
  }

  lemma {:induction false} UsedHas(lower: char -> string, out: seq<string>, k: nat, i: nat)
    requires k < i <= |out|
    ensures Lowered(lower, out[k]) in UsedBefore(lower, out, i)
    decreases i
  {
    if k < i - 1 {
      UsedHas(lower, out, k, i - 1);
    }
  }

  lemma {:induction false} UsedUnchanged(lower: char -> string, out: seq<string>, r: string, i: nat)
    requires i <= |out|
    ensures UsedBefore(lower, out + [r], i) == UsedBefore(lower, out, i)
    decreases i
  {
    if i > 0 {
      UsedUnchanged(lower, out, r, i - 1);
      assert (out + [r])[i - 1] == out[i - 1];
    }
  }

  /** Each name is its sanitized name, or that one's first candidate that no earlier name took. */
  ghost predicate IsExport(lower: char -> string, names: seq<string>, out: seq<string>)
    requires |out| <= |names|
  {
    forall i :: 0 <= i < |out| ==> IsExported(lower, names, out, i)
  }

  ghost predicate IsExported(lower: char -> string, names: seq<string>, out: seq<string>, i: nat)
    requires i < |out| <= |names|
  {
    IsFirstFree(lower, Sanitized(lower, names[i], i), UsedBefore(lower, out, i), out[i])
  }

  ghost predicate AreSafe(lower: char -> string, out: seq<string>) { forall i :: 0 <= i < |out| ==> IsSafe(lower, out[i]) }

  ghost predicate AreDistinct(lower: char -> string, out: seq<string>) {
    forall i, k :: 0 <= i < k < |out| ==> Lowered(lower, out[i]) != Lowered(lower, out[k])
  }

  lemma {:induction false} UsedCount(lower: char -> string, out: seq<string>, i: nat)
    requires i <= |out|
    ensures |UsedBefore(lower, out, i)| <= i
    decreases i
  {
    if i > 0 {
      UsedCount(lower, out, i - 1);
    }
  }

  lemma FirstFreeIsSafe(lower: char -> string, name: string, used: set<string>, r: string)
    requires KeepsPunctuation(lower) && IsSafe(lower, name) && IsFirstFree(lower, name, used, r)
    ensures IsSafe(lower, r)
  {
    if Lowered(lower, name) in used {
      var n :| IsFirstNumber(lower, name, used, r, n);
      CandidateIsSafe(lower, name, n);
    }
  }

  lemma ExportMore(lower: char -> string, names: seq<string>, out: seq<string>, r: string)
    requires |out| < |names| && IsExport(lower, names, out)
    requires IsFirstFree(lower, Sanitized(lower, names[|out|], |out|), UsedBefore(lower, out, |out|), r)
    ensures IsExport(lower, names, out + [r])
    ensures UsedBefore(lower, out + [r], |out| + 1) == UsedBefore(lower, out, |out|) + {Lowered(lower, r)}
  {
    forall i | 0 <= i < |out + [r]| ensures IsExported(lower, names, out + [r], i) {
      ExportKept(lower, names, out, r, i);
    }
    UsedUnchanged(lower, out, r, |out|);
  }

  lemma ExportKept(lower: char -> string, names: seq<string>, out: seq<string>, r: string, i: nat)
    requires |out| < |names| && i <= |out|
    requires i < |out| ==> IsExported(lower, names, out, i)
    requires i == |out| ==> IsFirstFree(lower, Sanitized(lower, names[i], i), UsedBefore(lower, out, i), r)
    ensures IsExported(lower, names, out + [r], i)
  {
    UsedUnchanged(lower, out, r, i);
    assert (out + [r])[i] == if i < |out| then out[i] else r;
  }

  /** With at most 256 names, a number has at most three digits. */
  lemma RoomIsLeft(lower: char -> string, out: seq<string>, i: nat)
    requires i <= |out| && i < MAX_FILES_CEILING
    ensures |Suffix(2 * |UsedBefore(lower, out, i)| + 2)| <= MAX_NAME_BYTES
  {
    UsedCount(lower, out, i);
    SuffixLength(2 * |UsedBefore(lower, out, i)| + 2, 999);
    ShortNumber(999);
  }

  /** Maps every name of a message, in order. A manifest has at most 256 names. */
  method ExportNames(lower: char -> string, names: seq<string>) returns (out: seq<string>)
    requires KeepsPunctuation(lower) && |names| <= MAX_FILES_CEILING
    ensures |out| == |names| && IsExport(lower, names, out)
  {
    out := [];
    var used: set<string> := {};
    for index := 0 to |names|
      invariant |out| == index && IsExport(lower, names, out) && used == UsedBefore(lower, out, index)
    {
      RoomIsLeft(lower, out, index);
      var safe := Sanitize(lower, names[index], index);
      var unique := Disambiguate(lower, safe, used);
      ExportMore(lower, names, out, unique);
      used := used + {Lowered(lower, unique)};
      out := out + [unique];
    }
  }

  /** Names from a checked manifest export to safe names, no two alike ignoring case. */
  lemma ExportsAreSafeAndDistinct(lower: char -> string, names: seq<string>, out: seq<string>)
    requires KeepsPunctuation(lower) && |out| == |names| <= MAX_FILES_CEILING
    requires forall i :: 0 <= i < |names| ==> ByteLen(names[i]) <= MAX_NAME_BYTES
    requires IsExport(lower, names, out)
    ensures AreSafe(lower, out) && AreDistinct(lower, out)
  {
    forall i | 0 <= i < |out| ensures IsSafe(lower, out[i]) {
      SanitizedIsSafe(lower, names[i], i);
      assert IsExported(lower, names, out, i);
      FirstFreeIsSafe(lower, Sanitized(lower, names[i], i), UsedBefore(lower, out, i), out[i]);
    }
    forall i, k | 0 <= i < k < |out| ensures Lowered(lower, out[i]) != Lowered(lower, out[k]) {
      UsedHas(lower, out, i, k);
      assert IsExported(lower, names, out, k);
    }
  }

  /** A safe name that no earlier one collides with is left as it is. */
  lemma SafeNamesAreKept(lower: char -> string, name: string, index: nat)
    requires IsSafe(lower, name)
    ensures Sanitized(lower, name, index) == name
  {
    assert Replaced(name) == name;
    assert TrimEnd(name) == name;
    TruncateKeepsShort(name, MAX_NAME_BYTES);
  }
}
