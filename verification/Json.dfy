/** JSON values and their canonical text: no whitespace, plain decimals, minimal escapes. */
module Json {
  import opened Basics
  import opened Text
  import opened Decimals

  /** A parsed value. Numbers that are not plain non-negative integers are all `OtherNumber`. */
  datatype Json =
    | Null
    | Bool(value: bool)
    | Num(n: nat)
    | OtherNumber
    | Str(text: Bytes)
    | Arr(items: seq<Json>)
    | Obj(members: seq<Member>)

  datatype Member = Member(key: Bytes, value: Json)

  /** A value the canonical printer is used on: strings are UTF-8 and keys are distinct. */
  predicate WellFormed(j: Json)
    decreases j, 1
  {
    match j
    case Null => true
    case Bool(_) => true
    case Num(_) => true
    case OtherNumber => false
    case Str(text) => ValidUtf8(text)
    case Arr(items) => AllWellFormed(items)
    case Obj(members) => AllMembersWellFormed(members) && DistinctKeys(members)
  }

  predicate AllWellFormed(items: seq<Json>)
    decreases items, 0
  {
    items == [] || (WellFormed(items[0]) && AllWellFormed(items[1..]))
  }

  predicate AllMembersWellFormed(members: seq<Member>)
    decreases members, 0
  {
    members == [] || (ValidUtf8(members[0].key) && WellFormed(members[0].value) && AllMembersWellFormed(members[1..]))
  }

  predicate DistinctKeys(members: seq<Member>) {
    forall i, k :: 0 <= i < k < |members| ==> members[i].key != members[k].key
  }

  // ---------------------------------------------------------------- the canonical printer

  const QUOTE: byte := 0x22
  const BACKSLASH: byte := 0x5C

  function HexDigit(n: int): byte
    requires 0 <= n < 16
  {
    if n < 10 then 0x30 + n else 0x61 + (n - 10)
  }

  /** Only the quote, the backslash and bytes below 0x20 are escaped. */
  function Escape(b: byte): Bytes {
    if b == QUOTE then [BACKSLASH, QUOTE]
    else if b == BACKSLASH then [BACKSLASH, BACKSLASH]
    else if b == 0x08 then [BACKSLASH, 0x62]
    else if b == 0x09 then [BACKSLASH, 0x74]
    else if b == 0x0A then [BACKSLASH, 0x6E]
    else if b == 0x0C then [BACKSLASH, 0x66]
    else if b == 0x0D then [BACKSLASH, 0x72]
    else if b < 0x20 then [BACKSLASH, 0x75, 0x30, 0x30, HexDigit(b / 16), HexDigit(b % 16)]
    else [b]
  }

  function EscapeAll(s: Bytes): Bytes {
    if s == [] then [] else Escape(s[0]) + EscapeAll(s[1..])
  }

  function PrintString(s: Bytes): Bytes { [QUOTE] + EscapeAll(s) + [QUOTE] }

  function Print(j: Json): Bytes
    decreases j, 1
  {
    match j
    case Null => Ascii("null")
    case Bool(value) => if value then Ascii("true") else Ascii("false")
    case Num(n) => Decimal(n)
    case OtherNumber => Ascii("-0")
    case Str(text) => PrintString(text)
    case Arr(items) => [0x5B] + PrintItems(items) + [0x5D]
    case Obj(members) => [0x7B] + PrintMembers(members) + [0x7D]
  }

  function PrintItems(items: seq<Json>): Bytes
    decreases items, 0
  {
    if items == [] then []
    else Print(items[0]) + (if |items| == 1 then [] else [0x2C] + PrintItems(items[1..]))
  }

  function PrintMembers(members: seq<Member>): Bytes
    decreases members, 0
  {
    if members == [] then []
    else PrintString(members[0].key) + [0x3A] + Print(members[0].value)
         + (if |members| == 1 then [] else [0x2C] + PrintMembers(members[1..]))
  }

  // ---------------------------------------------------------------- a parser

  predicate Space(b: byte) { b == 0x20 || b == 0x09 || b == 0x0A || b == 0x0D }
  function SkipSpace(s: Bytes): (r: Bytes)
    ensures |r| <= |s|
  {
    if s != [] && Space(s[0]) then SkipSpace(s[1..]) else s
  }

  function HexValue(b: byte): Option<int> {
    if 0x30 <= b <= 0x39 then Some(b - 0x30)
    else if 0x61 <= b <= 0x66 then Some(b - 0x61 + 10)
    else if 0x41 <= b <= 0x46 then Some(b - 0x41 + 10)
    else None
  }

  function Hex4(s: Bytes): (r: Option<int>)
    ensures r.Some? ==> |s| >= 4 && 0 <= r.value
  {
    if |s| < 4 then None else
      var (a, b, c, d) := (HexValue(s[0]), HexValue(s[1]), HexValue(s[2]), HexValue(s[3]));
      if a.Some? && b.Some? && c.Some? && d.Some?
      then Some(a.value * 0x1000 + b.value * 0x100 + c.value * 0x10 + d.value)
      else None
  }

  /** The UTF-8 bytes of a code point; a surrogate has none. */
  function Utf8Of(cp: int): Option<Bytes>
    requires 0 <= cp
  {
    if cp < 0x80 then Some([cp])
    else if cp < 0x800 then Some([0xC0 + cp / 0x40, 0x80 + cp % 0x40])
    else if 0xD800 <= cp < 0xE000 then None
    else if cp < 0x10000 then Some([0xE0 + cp / 0x1000, 0x80 + cp / 0x40 % 0x40, 0x80 + cp % 0x40])
    else if cp < 0x110000 then
      Some([0xF0 + cp / 0x40000, 0x80 + cp / 0x1000 % 0x40, 0x80 + cp / 0x40 % 0x40, 0x80 + cp % 0x40])
    else None
  }

  /** The character a backslash escape stands for, and what follows it. */
  function Unescape(s: Bytes): (r: Option<(Bytes, Bytes)>)
    ensures r.Some? ==> |r.value.1| < |s|
  {
    if s == [] then None
    else if s[0] == QUOTE || s[0] == BACKSLASH || s[0] == 0x2F then Some(([s[0]], s[1..]))
    else if s[0] == 0x62 then Some(([0x08], s[1..]))
    else if s[0] == 0x74 then Some(([0x09], s[1..]))
    else if s[0] == 0x6E then Some(([0x0A], s[1..]))
    else if s[0] == 0x66 then Some(([0x0C], s[1..]))
    else if s[0] == 0x72 then Some(([0x0D], s[1..]))
    else if s[0] == 0x75 && Hex4(s[1..]).Some? then
      var unit, rest := Hex4(s[1..]).value, s[5..];
      if 0xD800 <= unit < 0xDC00 then
        // A high surrogate must be followed by an escaped low one.
        if |rest| >= 6 && rest[0] == BACKSLASH && rest[1] == 0x75 && Hex4(rest[2..]).Some?
           && 0xDC00 <= Hex4(rest[2..]).value < 0xE000
        then
          var cp := 0x10000 + (unit - 0xD800) * 0x400 + (Hex4(rest[2..]).value - 0xDC00);
          if Utf8Of(cp).Some? then Some((Utf8Of(cp).value, rest[6..])) else None
        else None
      else if Utf8Of(unit).Some? then Some((Utf8Of(unit).value, rest))
      else None
    else None
  }

  /** The rest of a string whose opening quote was read. */
  function ParseChars(s: Bytes): (r: Option<(Bytes, Bytes)>)
    ensures r.Some? ==> |r.value.1| < |s|
    decreases |s|
  {
    if s == [] || s[0] < 0x20 then None
    else if s[0] == QUOTE then Some(([], s[1..]))
    else if s[0] == BACKSLASH then
      if Unescape(s[1..]).None? then None else
        var (c, rest) := Unescape(s[1..]).value;
        if ParseChars(rest).None? then None else Some((c + ParseChars(rest).value.0, ParseChars(rest).value.1))
    else if ParseChars(s[1..]).None? then None
    else Some(([s[0]] + ParseChars(s[1..]).value.0, ParseChars(s[1..]).value.1))
  }

  function ParseString(s: Bytes): (r: Option<(Bytes, Bytes)>)
    ensures r.Some? ==> |r.value.1| < |s| && ValidUtf8(r.value.0)
  {
    if s == [] || s[0] != QUOTE || ParseChars(s[1..]).None? || !ValidUtf8(ParseChars(s[1..]).value.0) then None
    else ParseChars(s[1..])
  }

  predicate StartsWith(s: Bytes, prefix: Bytes) { |prefix| <= |s| && s[..|prefix|] == prefix }

  /** A value, with any whitespace before it. No leading zeros, signs, fractions or exponents. */
  function ParseValue(s: Bytes): (r: Option<(Json, Bytes)>)
    ensures r.Some? ==> |r.value.1| < |s|
    decreases |s|, 1
  {
    var s := SkipSpace(s);
    if s == [] then None
    else if s[0] == QUOTE then
      if ParseString(s).None? then None else Some((Str(ParseString(s).value.0), ParseString(s).value.1))
    else if Digit(s[0]) then
      if s[0] == 0x30 then
        if |s| > 1 && Digit(s[1]) then None else Some((Num(0), s[1..]))
      else Some((Num(ParseDigits(s, 0).0), ParseDigits(s, 0).1))
    else if s[0] == 0x5B then
      var inner := SkipSpace(s[1..]);
      if inner != [] && inner[0] == 0x5D then Some((Arr([]), inner[1..]))
      else if ParseItems(s[1..]).None? then None
      else Some((Arr(ParseItems(s[1..]).value.0), ParseItems(s[1..]).value.1))
    else if s[0] == 0x7B then
      var inner := SkipSpace(s[1..]);
      if inner != [] && inner[0] == 0x7D then Some((Obj([]), inner[1..]))
      else if ParseMembers(s[1..]).None? then None
      else Some((Obj(ParseMembers(s[1..]).value.0), ParseMembers(s[1..]).value.1))
    else if StartsWith(s, Ascii("null")) then Some((Null, s[4..]))
    else if StartsWith(s, Ascii("true")) then Some((Bool(true), s[4..]))
    else if StartsWith(s, Ascii("false")) then Some((Bool(false), s[5..]))
    else None
  }

  /** One or more values separated by commas, and the closing bracket. */
  function ParseItems(s: Bytes): (r: Option<(seq<Json>, Bytes)>)
    ensures r.Some? ==> |r.value.1| < |s|
    decreases |s|, 2
  {
    if ParseValue(s).None? then None else
      var (item, rest) := ParseValue(s).value;
      var rest := SkipSpace(rest);
      if rest == [] then None
      else if rest[0] == 0x5D then Some(([item], rest[1..]))
      else if rest[0] != 0x2C || ParseItems(rest[1..]).None? then None
      else Some(([item] + ParseItems(rest[1..]).value.0, ParseItems(rest[1..]).value.1))
  }

  /** One or more members separated by commas, and the closing brace. */
  function ParseMembers(s: Bytes): (r: Option<(seq<Member>, Bytes)>)
    ensures r.Some? ==> |r.value.1| < |s|
    decreases |s|, 2
  {
    var s := SkipSpace(s);
    if ParseString(s).None? then None else
      var (key, rest) := ParseString(s).value;
      var rest := SkipSpace(rest);
      if rest == [] || rest[0] != 0x3A || ParseValue(rest[1..]).None? then None else
        var (value, rest) := ParseValue(rest[1..]).value;
        var rest := SkipSpace(rest);
        if rest == [] then None
        else if rest[0] == 0x7D then Some(([Member(key, value)], rest[1..]))
        else if rest[0] != 0x2C || ParseMembers(rest[1..]).None? then None
        else Some(([Member(key, value)] + ParseMembers(rest[1..]).value.0, ParseMembers(rest[1..]).value.1))
  }

  /** The whole text as one value, with nothing but whitespace after it. */
  function Parse(s: Bytes): Option<Json> {
    if ParseValue(s).Some? && SkipSpace(ParseValue(s).value.1) == [] then Some(ParseValue(s).value.0) else None
  }

  // ---------------------------------------------------------------- the parser inverts the printer

  /** A parser that reads every canonical text back, however large its numbers and however deep its
      nesting. What the decoders need of a parser is less: see `ReadsManifests` and `ReadsHeaders`. */
  ghost predicate Inverts(parse: Bytes -> Option<Json>) {
    forall j :: WellFormed(j) ==> parse(Print(j)) == Some(j)
  }

  lemma HexReadsBack(n: int)
    requires 0 <= n < 16
    ensures HexValue(HexDigit(n)) == Some(n)
  {
  }

  lemma ControlReadsBack(high: int, low: int, more: Bytes)
    requires 0 <= high < 2 && 0 <= low < 16
    ensures Hex4([0x30, 0x30, HexDigit(high), HexDigit(low)] + more) == Some(high * 16 + low)
  {
    HexReadsBack(high);
    HexReadsBack(low);
    HexReadsBack(0);
  }

  lemma UnescapeInvertsEscape(b: byte, rest: Bytes)
    ensures Escape(b) != []
    ensures if Escape(b) == [b] then b >= 0x20 && b != QUOTE && b != BACKSLASH
            else Escape(b)[0] == BACKSLASH && Unescape(Escape(b)[1..] + rest) == Some(([b], rest))
  {
    if b < 0x20 && Escape(b)[1] == 0x75 {
      var digits := [0x30, 0x30, HexDigit(b / 16), HexDigit(b % 16)];
      var s := Escape(b)[1..] + rest;
      assert s == [0x75] + (digits + rest);
      assert s[1..] == digits + rest && s[5..] == rest;
      ControlReadsBack(b / 16, b % 16, rest);
    } else if Escape(b) != [b] {
      assert (Escape(b)[1..] + rest)[1..] == rest;
    }
  }

  lemma PlainCharReads(c: byte, more: Bytes, s: Bytes, rest: Bytes)
    requires c >= 0x20 && c != QUOTE && c != BACKSLASH && ParseChars(more) == Some((s, rest))
    ensures ParseChars([c] + more) == Some(([c] + s, rest))
  {
    assert ([c] + more)[1..] == more;
  }

  lemma EscapedCharReads(c: byte, escaped: Bytes, more: Bytes, s: Bytes, rest: Bytes)
    requires Unescape(escaped + more) == Some(([c], more)) && ParseChars(more) == Some((s, rest))
    ensures ParseChars([BACKSLASH] + escaped + more) == Some(([c] + s, rest))
  {
    var text := [BACKSLASH] + escaped + more;
    assert text[0] == BACKSLASH && text[1..] == escaped + more;
  }

  lemma EscapeReads(c: byte, more: Bytes, s: Bytes, rest: Bytes)
    requires ParseChars(more) == Some((s, rest))
    ensures ParseChars(Escape(c) + more) == Some(([c] + s, rest))
  {
    UnescapeInvertsEscape(c, more);
    if Escape(c) == [c] {
      PlainCharReads(c, more, s, rest);
    } else {
      assert Escape(c) == [BACKSLASH] + Escape(c)[1..];
      EscapedCharReads(c, Escape(c)[1..], more, s, rest);
    }
  }

  lemma EscapeAllText(s: Bytes, tail: Bytes)
    requires s != []
    ensures EscapeAll(s) + tail == Escape(s[0]) + (EscapeAll(s[1..]) + tail)
  {
  }

  lemma {:induction false} CharsReadBack(s: Bytes, rest: Bytes)
    ensures ParseChars(EscapeAll(s) + ([QUOTE] + rest)) == Some((s, rest))
    decreases |s|
  {
    var tail := [QUOTE] + rest;
    if s == [] {
      assert EscapeAll(s) + tail == tail && tail[1..] == rest;
    } else {
      CharsReadBack(s[1..], rest);
      EscapeAllText(s, tail);
      EscapeReads(s[0], EscapeAll(s[1..]) + tail, s[1..], rest);
      assert [s[0]] + s[1..] == s;
    }
  }

  lemma StringReadsBack(s: Bytes, rest: Bytes)
    requires ValidUtf8(s)
    ensures ParseString(PrintString(s) + rest) == Some((s, rest))
  {
    var text := PrintString(s) + rest;
    assert text[1..] == EscapeAll(s) + ([QUOTE] + rest);
    CharsReadBack(s, rest);
    assert ParseChars(text[1..]) == Some((s, rest));
  }

  lemma NumberReadsBack(n: nat, rest: Bytes)
    requires Ends(rest)
    ensures ParseValue(Decimal(n) + rest) == Some((Num(n), rest))
  {
    var s := Decimal(n) + rest;
    assert Digit(Decimal(n)[0]);
    DecimalReadsBack(n, rest);
    if n == 0 {
      assert s[1..] == rest;
    }
  }

  lemma PrintStartsPlainly(j: Json)
    requires WellFormed(j)
    ensures Print(j) != [] && !Space(Print(j)[0]) && Print(j)[0] != 0x5D && Print(j)[0] != 0x7D
  {
  }

  lemma LiteralReadsBack(j: Json, rest: Bytes)
    requires j.Null? || j.Bool?
    ensures ParseValue(Print(j) + rest) == Some((j, rest))
  {
    var s := Print(j) + rest;
    assert s[..|Print(j)|] == Print(j) && s[|Print(j)|..] == rest;
  }

  lemma Regroup(a: Bytes, x: byte, b: Bytes, y: byte, rest: Bytes)
    ensures a + ([x] + b) + [y] + rest == a + ([x] + (b + [y] + rest))
  {
  }

  lemma Inside(x: byte, b: Bytes, y: byte, rest: Bytes)
    ensures [x] + b + [y] + rest == [x] + (b + [y] + rest)
  {
  }

  lemma BracketedItems(inner: Bytes, items: seq<Json>, rest: Bytes)
    requires inner != [] && !Space(inner[0]) && inner[0] != 0x5D && ParseItems(inner) == Some((items, rest))
    ensures ParseValue([0x5B] + inner) == Some((Arr(items), rest))
  {
    assert ([0x5B] + inner)[1..] == inner;
  }

  lemma BracedMembers(inner: Bytes, members: seq<Member>, rest: Bytes)
    requires inner != [] && inner[0] == QUOTE && ParseMembers(inner) == Some((members, rest))
    ensures ParseValue([0x7B] + inner) == Some((Obj(members), rest))
  {
    assert ([0x7B] + inner)[1..] == inner;
    Unspaced(inner);
    Unspaced([0x7B] + inner);
  }

  lemma Unspaced(s: Bytes)
    requires s != [] && !Space(s[0])
    ensures SkipSpace(s) == s
  {
  }

  lemma Empty(rest: Bytes)
    ensures ParseValue([0x5B] + ([0x5D] + rest)) == Some((Arr([]), rest))
    ensures ParseValue([0x7B] + ([0x7D] + rest)) == Some((Obj([]), rest))
  {
    assert ([0x5B] + ([0x5D] + rest))[1..] == [0x5D] + rest && ([0x5D] + rest)[1..] == rest;
    assert ([0x7B] + ([0x7D] + rest))[1..] == [0x7D] + rest && ([0x7D] + rest)[1..] == rest;
  }

  /** Brackets around what reads back as items. */
  lemma ArrayReadsBack(items: seq<Json>, rest: Bytes)
    requires AllWellFormed(items)
    requires items != [] ==> ParseItems(PrintItems(items) + [0x5D] + rest) == Some((items, rest))
    ensures ParseValue([0x5B] + PrintItems(items) + [0x5D] + rest) == Some((Arr(items), rest))
  {
    var inner := PrintItems(items) + [0x5D] + rest;
    Inside(0x5B, PrintItems(items), 0x5D, rest);
    if items == [] {
      assert inner == [0x5D] + rest;
      Empty(rest);
    } else {
      PrintStartsPlainly(items[0]);
      assert inner[0] == Print(items[0])[0];
      BracketedItems(inner, items, rest);
    }
  }

  lemma ObjectReadsBack(members: seq<Member>, rest: Bytes)
    requires members != [] ==> ParseMembers(PrintMembers(members) + [0x7D] + rest) == Some((members, rest))
    ensures ParseValue([0x7B] + PrintMembers(members) + [0x7D] + rest) == Some((Obj(members), rest))
  {
    var inner := PrintMembers(members) + [0x7D] + rest;
    Inside(0x7B, PrintMembers(members), 0x7D, rest);
    if members == [] {
      assert inner == [0x7D] + rest;
      Empty(rest);
    } else {
      assert inner[0] == PrintMembers(members)[0] == PrintString(members[0].key)[0] == QUOTE;
      BracedMembers(inner, members, rest);
    }
  }

  /** The parser reads any value's canonical text back, whatever follows it. */
  lemma {:induction false} ValueReadsBack(j: Json, rest: Bytes)
    requires WellFormed(j) && Ends(rest)
    ensures ParseValue(Print(j) + rest) == Some((j, rest))
    decreases j, 1
  {
    match j
    case Num(n) => NumberReadsBack(n, rest);
    case Str(text) => StringReadsBack(text, rest);
    case Arr(items) =>
      if items != [] {
        ItemsReadBack(items, rest);
      }
      ArrayReadsBack(items, rest);
    case Obj(members) =>
      if members != [] {
        MembersReadBack(members, rest);
      }
      ObjectReadsBack(members, rest);
    case _ => LiteralReadsBack(j, rest);
  }

  lemma LastItem(s: Bytes, item: Json, rest: Bytes)
    requires ParseValue(s) == Some((item, [0x5D] + rest))
    ensures ParseItems(s) == Some(([item], rest))
  {
    assert ([0x5D] + rest)[1..] == rest;
  }

  lemma NextItem(s: Bytes, item: Json, next: Bytes, items: seq<Json>, rest: Bytes)
    requires ParseValue(s) == Some((item, [0x2C] + next)) && ParseItems(next) == Some((items, rest))
    ensures ParseItems(s) == Some(([item] + items, rest))
  {
    assert ([0x2C] + next)[1..] == next;
  }

  lemma ItemsText(items: seq<Json>, rest: Bytes)
    requires items != []
    ensures PrintItems(items) + [0x5D] + rest
         == Print(items[0]) + (if |items| == 1 then [0x5D] + rest else [0x2C] + (PrintItems(items[1..]) + [0x5D] + rest))
  {
    if |items| > 1 {
      Regroup(Print(items[0]), 0x2C, PrintItems(items[1..]), 0x5D, rest);
    }
  }

  lemma {:induction false} ItemsReadBack(items: seq<Json>, rest: Bytes)
    requires items != [] && AllWellFormed(items)
    ensures ParseItems(PrintItems(items) + [0x5D] + rest) == Some((items, rest))
    decreases items, 0
  {
    var s := PrintItems(items) + [0x5D] + rest;
    ItemsText(items, rest);
    if |items| == 1 {
      ValueReadsBack(items[0], [0x5D] + rest);
      LastItem(s, items[0], rest);
      assert items == [items[0]];
    } else {
      var next := PrintItems(items[1..]) + [0x5D] + rest;
      ValueReadsBack(items[0], [0x2C] + next);
      ItemsReadBack(items[1..], rest);
      NextItem(s, items[0], next, items[1..], rest);
      assert items == [items[0]] + items[1..];
    }
  }

  lemma RegroupMember(k: Bytes, v: Bytes, t: Bytes, rest: Bytes)
    ensures k + [0x3A] + v + t + [0x7D] + rest == k + ([0x3A] + (v + (t + [0x7D] + rest)))
  {
  }

  function MembersTail(members: seq<Member>): Bytes
    requires members != []
  {
    if |members| == 1 then [] else [0x2C] + PrintMembers(members[1..])
  }

  lemma MembersParts(members: seq<Member>)
    requires members != []
    ensures PrintMembers(members) == PrintString(members[0].key) + [0x3A] + Print(members[0].value) + MembersTail(members)
  {
  }

  lemma TailText(members: seq<Member>, rest: Bytes)
    requires members != []
    ensures MembersTail(members) + [0x7D] + rest
         == if |members| == 1 then [0x7D] + rest else [0x2C] + (PrintMembers(members[1..]) + [0x7D] + rest)
  {
    if |members| == 1 {
      assert [] + [0x7D] + rest == [0x7D] + rest;
    } else {
      Inside(0x2C, PrintMembers(members[1..]), 0x7D, rest);
    }
  }

  lemma MembersText(members: seq<Member>, rest: Bytes)
    requires members != []
    ensures PrintMembers(members) + [0x7D] + rest
         == PrintString(members[0].key) + ([0x3A] + (Print(members[0].value)
              + (if |members| == 1 then [0x7D] + rest else [0x2C] + (PrintMembers(members[1..]) + [0x7D] + rest))))
  {
    MembersParts(members);
    RegroupMember(PrintString(members[0].key), Print(members[0].value), MembersTail(members), rest);
    TailText(members, rest);
  }

  lemma LastMember(s: Bytes, m: Member, value: Bytes, rest: Bytes)
    requires s != [] && !Space(s[0]) && ParseString(s) == Some((m.key, [0x3A] + value))
    requires ParseValue(value) == Some((m.value, [0x7D] + rest))
    ensures ParseMembers(s) == Some(([m], rest))
  {
    assert ([0x3A] + value)[1..] == value && ([0x7D] + rest)[1..] == rest;
  }

  lemma NextMember(s: Bytes, m: Member, value: Bytes, next: Bytes, members: seq<Member>, rest: Bytes)
    requires s != [] && !Space(s[0]) && ParseString(s) == Some((m.key, [0x3A] + value))
    requires ParseValue(value) == Some((m.value, [0x2C] + next)) && ParseMembers(next) == Some((members, rest))
    ensures ParseMembers(s) == Some(([m] + members, rest))
  {
    assert ([0x3A] + value)[1..] == value && ([0x2C] + next)[1..] == next;
  }

  lemma {:induction false} MembersReadBack(members: seq<Member>, rest: Bytes)
    requires members != [] && AllMembersWellFormed(members)
    ensures ParseMembers(PrintMembers(members) + [0x7D] + rest) == Some((members, rest))
    decreases members, 0
  {
    var s, m := PrintMembers(members) + [0x7D] + rest, members[0];
    MembersText(members, rest);
    if |members| == 1 {
      var value := Print(m.value) + ([0x7D] + rest);
      StringReadsBack(m.key, [0x3A] + value);
      ValueReadsBack(m.value, [0x7D] + rest);
      LastMember(s, m, value, rest);
      assert members == [m];
    } else {
      var next := PrintMembers(members[1..]) + [0x7D] + rest;
      var value := Print(m.value) + ([0x2C] + next);
      StringReadsBack(m.key, [0x3A] + value);
      ValueReadsBack(m.value, [0x2C] + next);
      MembersReadBack(members[1..], rest);
      NextMember(s, m, value, next, members[1..], rest);
      assert members == [m] + members[1..];
    }
  }

  /** The concrete parser is one. */
  lemma ParseInverts()
    ensures Inverts(Parse)
  {
    forall j | WellFormed(j) ensures Parse(Print(j)) == Some(j) {
      ValueReadsBack(j, []);
      assert Print(j) + [] == Print(j);
    }
  }

  /** Two values never share a canonical text. */
  lemma PrintIsInjective(a: Json, b: Json)
    requires WellFormed(a) && WellFormed(b) && Print(a) == Print(b)
    ensures a == b
  {
    ValueReadsBack(a, []);
    ValueReadsBack(b, []);
    assert Print(a) + [] == Print(a) && Print(b) + [] == Print(b);
  }
}
