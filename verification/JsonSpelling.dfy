/** Canonical JSON written out: the text of strings, objects and arrays by their characters, without
    the tree and its printer, and the printer shown to write that text. */
module JsonSpelling {
  import opened Basics
  import opened Text
  import opened Decimals
  import opened Json
  import opened JsonFields

  // ---------------------------------------------------------------- the text

  /** How one byte of a string is written (section 7 of RFC 8259, with the fewest escapes). */
  function ByteText(b: byte): Bytes {
    if b == 0x22 then Ascii("\\\"")
    else if b == 0x5C then Ascii("\\\\")
    else if b == 0x08 then Ascii("\\b")
    else if b == 0x09 then Ascii("\\t")
    else if b == 0x0A then Ascii("\\n")
    else if b == 0x0C then Ascii("\\f")
    else if b == 0x0D then Ascii("\\r")
    else if b < 0x20 then Ascii("\\u00") + [Ascii("01")[b / 16], Ascii("0123456789abcdef")[b % 16]]
    else [b]
  }

  function Bare(s: Bytes): Bytes { if s == [] then [] else ByteText(s[0]) + Bare(s[1..]) }

  function Quoted(s: Bytes): Bytes { Ascii("\"") + Bare(s) + Ascii("\"") }

  /** A string whose characters need no escapes. */
  function Literal(s: string): Bytes { Ascii("\"") + Ascii(s) + Ascii("\"") }

  /** A key, whose characters need no escapes, and its value's text. */
  function Pair(key: string, value: Bytes): Bytes { Ascii("\"") + Ascii(key) + Ascii("\":") + value }

  function Pairs(keys: seq<string>, values: seq<Bytes>): (pairs: seq<Bytes>)
    requires |keys| == |values|
    ensures |pairs| == |keys| && forall i :: 0 <= i < |keys| ==> pairs[i] == Pair(keys[i], values[i])
  {
    seq(|keys|, i requires 0 <= i < |keys| => Pair(keys[i], values[i]))
  }

  function Commas(parts: seq<Bytes>): Bytes {
    if parts == [] then [] else parts[0] + (if |parts| == 1 then [] else Ascii(",") + Commas(parts[1..]))
  }

  function Braced(parts: seq<Bytes>): Bytes { Ascii("{") + Commas(parts) + Ascii("}") }

  function Bracketed(parts: seq<Bytes>): Bytes { Ascii("[") + Commas(parts) + Ascii("]") }

  // ---------------------------------------------------------------- the printer writes it

  lemma EscapeIsSpelled(b: byte)
    ensures Escape(b) == ByteText(b)
  {
    var digits := Ascii("0123456789abcdef");
    assert HexDigit(b % 16) == digits[b % 16];
    if b < 0x20 {
      assert HexDigit(b / 16) == Ascii("01")[b / 16];
    }
  }

  lemma {:induction false} StringIsSpelled(s: Bytes)
    ensures EscapeAll(s) == Bare(s) && PrintString(s) == Quoted(s)
    decreases |s|
  {
    if s != [] {
      EscapeIsSpelled(s[0]);
      StringIsSpelled(s[1..]);
    }
  }

  lemma LiteralIsSpelled(s: string)
    requires Plain(Ascii(s))
    ensures Print(Str(Ascii(s))) == Literal(s)
  {
    PlainIsUnescaped(Ascii(s));
  }

  lemma PairIsSpelled(key: string, value: Json)
    requires Plain(Ascii(key))
    ensures PrintString(Ascii(key)) + [0x3A] + Print(value) == Pair(key, Print(value))
  {
    LiteralIsSpelled(key);
    ColonIsSpelled();
    RegroupPair(Ascii("\""), Ascii(key), [0x3A], Print(value));
  }

  lemma ColonIsSpelled()
    ensures Ascii("\":") == Ascii("\"") + [0x3A]
  {
  }

  lemma RegroupPair(q: Bytes, key: Bytes, colon: Bytes, value: Bytes)
    ensures q + key + q + colon + value == q + key + (q + colon) + value
  {
  }

  /** `texts` are the members' texts. */
  ghost predicate MembersAre(members: seq<Member>, texts: seq<Bytes>) {
    && |members| == |texts|
    && forall i :: 0 <= i < |members| ==> texts[i] == PrintString(members[i].key) + [0x3A] + Print(members[i].value)
  }

  lemma {:induction false} MembersAreSpelled(members: seq<Member>, texts: seq<Bytes>)
    requires MembersAre(members, texts)
    ensures PrintMembers(members) == Commas(texts)
    decreases |members|
  {
    if members != [] {
      MembersAreSpelled(members[1..], texts[1..]);
    }
  }

  lemma ObjectIsSpelled(members: seq<Member>, texts: seq<Bytes>)
    requires MembersAre(members, texts)
    ensures Print(Obj(members)) == Braced(texts)
  {
    MembersAreSpelled(members, texts);
  }

  /** The members of an object whose keys are literals. */
  function Members(keys: seq<string>, values: seq<Json>): (members: seq<Member>)
    requires |keys| == |values|
    ensures |members| == |keys| && forall i :: 0 <= i < |keys| ==> members[i] == Member(Ascii(keys[i]), values[i])
  {
    seq(|keys|, i requires 0 <= i < |keys| => Member(Ascii(keys[i]), values[i]))
  }

  lemma LiteralObjectIsSpelled(keys: seq<string>, values: seq<Json>, printed: seq<Bytes>)
    requires |keys| == |values| && forall i :: 0 <= i < |keys| ==> Plain(Ascii(keys[i]))
    requires printed == PrintAll(values)
    ensures Print(Obj(Members(keys, values))) == Braced(Pairs(keys, printed))
  {
    var members, texts := Members(keys, values), Pairs(keys, printed);
    forall i | 0 <= i < |keys| ensures texts[i] == PrintString(members[i].key) + [0x3A] + Print(members[i].value) {
      PairIsSpelled(keys[i], values[i]);
    }
    ObjectIsSpelled(members, texts);
  }

  function PrintAll(values: seq<Json>): (texts: seq<Bytes>)
    ensures |texts| == |values| && forall i :: 0 <= i < |values| ==> texts[i] == Print(values[i])
  {
    seq(|values|, i requires 0 <= i < |values| => Print(values[i]))
  }

  lemma {:induction false} ItemsAreSpelled(items: seq<Json>, texts: seq<Bytes>)
    requires |items| == |texts| && forall i :: 0 <= i < |items| ==> texts[i] == Print(items[i])
    ensures PrintItems(items) == Commas(texts)
    decreases |items|
  {
    if items != [] {
      ItemsAreSpelled(items[1..], texts[1..]);
    }
  }

  lemma ArrayIsSpelled(items: seq<Json>, texts: seq<Bytes>)
    requires |items| == |texts| && forall i :: 0 <= i < |items| ==> texts[i] == Print(items[i])
    ensures Print(Arr(items)) == Bracketed(texts)
  {
    ItemsAreSpelled(items, texts);
  }
}
