/** Message-id templates: their grammar, and the scanner that reads them. */
module IdTemplates {
  import opened Basics
  import opened Text
  import opened Decimals
  import opened Scanning

  const MAX_TEMPLATE_BYTES := 256
  const MAX_ID_LEN := 128
  const MAX_COUNT := 64

  const OPEN: byte := 0x7B
  const CLOSE: byte := 0x7D
  const COLON: byte := 0x3A

  /** A-Z a-z 0-9 - . _ ~ */
  predicate IsIdByte(b: byte) {
    0x41 <= b <= 0x5A || 0x61 <= b <= 0x7A || 0x30 <= b <= 0x39 || b == 0x2D || b == 0x2E || b == 0x5F || b == 0x7E
  }

  predicate AreIdBytes(s: Bytes) { forall i :: 0 <= i < |s| ==> IsIdByte(s[i]) }

  predicate IsValidId(id: Bytes) { id != [] && id != [0x2E] && id != [0x2E, 0x2E] && AreIdBytes(id) }

  datatype Segment = Literal(text: Bytes) | Words(count: nat) | Digits(count: nat) | Alnum(count: nat, upper: bool)

  datatype Reason =
    | TemplateTooLong(bytes: nat) | NeverClosed | Nested | NoMatchingOpen | NotAllowed
    | BadCount | NeedsCount | UnknownPlaceholder | NoPlaceholder | IdTooLong(maxLen: nat)

  datatype TemplateError = TemplateError(offset: Option<nat>, reason: Reason)

  /** A validated template, with the words it was validated against. */
  datatype IdTemplate = IdTemplate(source: Bytes, segments: seq<Segment>, maxLen: nat, words: seq<Bytes>)

  const WORD := Ascii("word")
  const DIGITS := Ascii("digits")
  const LOWER := Ascii("alnum")
  const MIXED := Ascii("Alnum")

  // ---------------------------------------------------------------- the grammar

  /** A placeholder's braces, and a count inside them. */
  function Braced(name: Bytes): Bytes { [OPEN] + name + [CLOSE] }

  function Counted(name: Bytes, n: nat): Bytes { name + [COLON] + Decimal(n) }

  /** What may stand between a placeholder's braces. */
  predicate Names(body: Bytes, segment: Segment) {
    match segment
    case Literal(_) => false
    case Words(n) => (n == 1 && body == WORD) || IsCounted(body, WORD, n)
    case Digits(n) => IsCounted(body, DIGITS, n)
    case Alnum(n, upper) => IsCounted(body, if upper then MIXED else LOWER, n)
  }

  predicate IsCounted(body: Bytes, name: Bytes, n: nat) { 1 <= n <= MAX_COUNT && body == Counted(name, n) }

  /** A segment's piece of text, over any set of placeholder bodies. */
  predicate SpellsOne(names: (Bytes, Segment) -> bool, piece: Bytes, segment: Segment) {
    if segment.Literal? then piece == segment.text && piece != [] && AreIdBytes(piece)
    else |piece| >= 2 && piece == Braced(piece[1..|piece| - 1]) && names(piece[1..|piece| - 1], segment)
  }

  /** What follows a segment: two literals never follow one another. */
  predicate MayFollow(segment: Segment, rest: seq<Segment>) {
    segment.Literal? && rest != [] ==> !rest[0].Literal?
  }

  /** The text is the segments' pieces one after another. */
  ghost predicate Spells(names: (Bytes, Segment) -> bool, text: Bytes, segments: seq<Segment>)
    decreases |segments|
  {
    if segments == [] then text == []
    else exists k :: 0 < k <= |text| && SpellsOne(names, text[..k], segments[0]) && MayFollow(segments[0], segments[1..])
                     && Spells(names, text[k..], segments[1..])
  }

  ghost predicate IsTemplate(text: Bytes, segments: seq<Segment>) { Spells(Names, text, segments) }

  // ---------------------------------------------------------------- the scanner

  function ParseCount(text: Bytes, offset: nat): Result<nat, TemplateError> {
    if 1 <= |text| <= 2 && Decimals.Digits(text) && text[0] != 0x30 && Value(text, 0) <= MAX_COUNT
    then Ok(Value(text, 0))
    else Err(TemplateError(Some(offset), BadCount))
  }

  function PlaceholderOf(name: Bytes, count: Option<nat>, start: nat): Result<Segment, TemplateError> {
    if name == WORD then Ok(Words(if count.Some? then count.value else 1))
    else if name == DIGITS || name == LOWER || name == MIXED then
      if count.None? then Err(TemplateError(Some(start), NeedsCount))
      else Ok(if name == DIGITS then Digits(count.value) else Alnum(count.value, name == MIXED))
    else Err(TemplateError(Some(start), UnknownPlaceholder))
  }

  /** A placeholder's body; the count is read before the name is looked at. */
  function Placeholder(body: Bytes, start: nat): Result<Segment, TemplateError> {
    match Find(body, COLON)
    case None => PlaceholderOf(body, None, start)
    case Some(i) =>
      match ParseCount(body[i + 1..], start + i + 1)
      case Err(e) => Err(e)
      case Ok(n) => PlaceholderOf(body[..i], Some(n), start)
  }

  function Flush(literal: Bytes): seq<Segment> { if literal == [] then [] else [Literal(literal)] }

  function Prepend(segments: seq<Segment>, r: Result<seq<Segment>, TemplateError>): Result<seq<Segment>, TemplateError> {
    match r case Err(e) => Err(e) case Ok(rest) => Ok(segments + rest)
  }

  /** The body between the brace at `i` and the first brace that closes it. */
  function Cut(text: Bytes, i: nat): (r: Result<Bytes, TemplateError>)
    requires i < |text|
    ensures r.Ok? ==> i + |r.value| + 2 <= |text|
  {
    match Find(text[i + 1..], CLOSE)
    case None => Err(TemplateError(Some(i), NeverClosed))
    case Some(close) =>
      match Find(text[i + 1..i + 1 + close], OPEN)
      case Some(nested) => Err(TemplateError(Some(i + 1 + nested), Nested))
      case None => Ok(text[i + 1..i + 1 + close])
  }

  /** What is at byte `i`: a placeholder, a literal byte, or a mistake. */
  datatype Token = Piece(segment: Segment, next: nat) | Plain | Bad(error: TemplateError)

  /** A reader of placeholder bodies, which start at the given byte. */
  type Reader = (Bytes, nat) -> Result<Segment, TemplateError>

  function Next(read: Reader, text: Bytes, i: nat): (t: Token)
    requires i < |text|
    ensures t.Piece? ==> i < t.next <= |text|
  {
    if text[i] == OPEN then
      match Cut(text, i)
      case Err(e) => Bad(e)
      case Ok(body) =>
        match read(body, i + 1)
        case Err(e) => Bad(e)
        case Ok(segment) => Piece(segment, i + |body| + 2)
    else if text[i] == CLOSE then Bad(TemplateError(Some(i), NoMatchingOpen))
    else if IsIdByte(text[i]) then Plain
    else Bad(TemplateError(Some(i), NotAllowed))
  }

  /** The segments from byte `i` on, after the literal text read so far. */
  function Scan(read: Reader, text: Bytes, i: nat, literal: Bytes): Result<seq<Segment>, TemplateError>
    requires i <= |text|
    decreases |text| - i
  {
    if i == |text| then Ok(Flush(literal))
    else match Next(read, text, i)
      case Bad(e) => Err(e)
      case Plain => Scan(read, text, i + 1, literal + [text[i]])
      case Piece(segment, next) => Prepend(Flush(literal) + [segment], Scan(read, text, next, []))
  }

  predicate HasPlaceholder(segments: seq<Segment>) { exists i :: 0 <= i < |segments| && !segments[i].Literal? }

  function MaxWordLen(words: seq<Bytes>): (n: nat)
    ensures forall i :: 0 <= i < |words| ==> |words[i]| <= n
  {
    if words == [] then 0
    else
      var rest := MaxWordLen(words[1..]);
      assert forall i :: 0 < i < |words| ==> words[i] == words[1..][i - 1];
      if |words[0]| > rest then |words[0]| else rest
  }

  /** The longest text a segment can give; a template's word counts are positive. */
  function SegmentLen(segment: Segment, longest: nat): nat {
    match segment
    case Literal(text) => |text|
    case Words(n) => if n == 0 then 0 else n * (longest + 1) - 1
    case Digits(n) => n
    case Alnum(n, _) => n
  }

  function MaxLen(segments: seq<Segment>, longest: nat): nat {
    if segments == [] then 0 else SegmentLen(segments[0], longest) + MaxLen(segments[1..], longest)
  }

  function ParseSpec(text: Bytes, words: seq<Bytes>): Result<IdTemplate, TemplateError> {
    if |text| > MAX_TEMPLATE_BYTES then Err(TemplateError(None, TemplateTooLong(|text|)))
    else match Scan(Placeholder, text, 0, [])
      case Err(e) => Err(e)
      case Ok(segments) =>
        var maxLen := MaxLen(segments, MaxWordLen(words));
        if !HasPlaceholder(segments) then Err(TemplateError(None, NoPlaceholder))
        else if maxLen > MAX_ID_LEN then Err(TemplateError(None, IdTooLong(maxLen)))
        else Ok(IdTemplate(text, segments, maxLen, words))
  }

  lemma PrependTwice(a: seq<Segment>, b: seq<Segment>, r: Result<seq<Segment>, TemplateError>)
    ensures Prepend(a, Prepend(b, r)) == Prepend(a + b, r)
  {
    if r.Ok? {
      assert a + (b + r.value) == a + b + r.value;
    }
  }

  lemma PrependNothing(r: Result<seq<Segment>, TemplateError>)
    ensures Prepend([], r) == r
  {
    if r.Ok? {
      assert [] + r.value == r.value;
    }
  }

  /** The scanning loop: a literal buffer and a growing list of segments. */
  method ScanTemplate(read: Reader, text: Bytes) returns (r: Result<seq<Segment>, TemplateError>)
    ensures r == Scan(read, text, 0, [])
  {
    var segments: seq<Segment> := [];
    var literal: Bytes := [];
    var i := 0;
    PrependNothing(Scan(read, text, 0, []));
    while i < |text|
      invariant i <= |text|
      invariant Scan(read, text, 0, []) == Prepend(segments, Scan(read, text, i, literal))
    {
      match Next(read, text, i)
      case Bad(e) => return Err(e);
      case Plain =>
        literal := literal + [text[i]];
        i := i + 1;
      case Piece(segment, next) =>
        PrependTwice(segments, Flush(literal) + [segment], Scan(read, text, next, []));
        ghost var more := segments + (Flush(literal) + [segment]);
        if literal != [] {
          segments := segments + [Literal(literal)];
          literal := [];
        }
        segments := segments + [segment];
        assert segments == more;
        i := next;
    }
    return Ok(segments + Flush(literal));
  }

  method Parse(text: Bytes, words: seq<Bytes>) returns (r: Result<IdTemplate, TemplateError>)
    ensures r == ParseSpec(text, words)
  {
    if |text| > MAX_TEMPLATE_BYTES {
      return Err(TemplateError(None, TemplateTooLong(|text|)));
    }
    var scanned := ScanTemplate(Placeholder, text);
    if scanned.Err? {
      return Err(scanned.error);
    }
    var segments := scanned.value;
    if !HasPlaceholder(segments) {
      return Err(TemplateError(None, NoPlaceholder));
    }
    var maxLen := MaxLen(segments, MaxWordLen(words));
    if maxLen > MAX_ID_LEN {
      return Err(TemplateError(None, IdTooLong(maxLen)));
    }
    return Ok(IdTemplate(text, segments, maxLen, words));
  }

  // ---------------------------------------------------------------- the scanner reads the grammar

  lemma SmallDecimal(n: nat)
    requires 1 <= n <= 99
    ensures Decimal(n) == if n < 10 then [0x30 + n] else [0x30 + n / 10, 0x30 + n % 10]
  {
    if n >= 10 {
      assert Decimal(n / 10) == [0x30 + n / 10];
    }
  }

  /** A count is accepted exactly when it is the plain decimal of a number from 1 to 64. */
  lemma CountIsDecimal(text: Bytes, n: nat, offset: nat)
    ensures ParseCount(text, offset) == Ok(n) <==> 1 <= n <= MAX_COUNT && text == Decimal(n)
  {
    if 1 <= n <= MAX_COUNT && text == Decimal(n) {
      SmallDecimal(n);
      DecimalSpells(n);
    }
    if ParseCount(text, offset) == Ok(n) {
      if |text| == 1 {
        assert Value(text, 0) == Value(text[1..], text[0] as int - 0x30) == text[0] as int - 0x30;
      } else {
        assert Value(text, 0) == Value(text[1..], text[0] as int - 0x30);
        assert text[1..][1..] == [] && text[1..][0] == text[1];
        assert Value(text[1..], text[0] as int - 0x30) == (text[0] as int - 0x30) * 10 + (text[1] as int - 0x30);
      }
      SmallDecimal(n);
    }
  }

  lemma NamesHaveNoColon()
    ensures Lacks(WORD, COLON) && Lacks(DIGITS, COLON) && Lacks(LOWER, COLON) && Lacks(MIXED, COLON)
    ensures WORD != DIGITS && WORD != LOWER && WORD != MIXED && DIGITS != LOWER && DIGITS != MIXED && LOWER != MIXED
  {
    assert |WORD| == 4 && |DIGITS| == 6 && |LOWER| == 5 && |MIXED| == 5 && LOWER[0] != MIXED[0];
  }

  lemma SplitAtColon(name: Bytes, count: Bytes)
    requires Lacks(name, COLON)
    ensures var body := name + [COLON] + count;
            Find(body, COLON) == Some(|name|) && body[..|name|] == name && body[|name| + 1..] == count
  {
    var body := name + [COLON] + count;
    assert body[..|name|] == name;
    FirstIsFound(body, COLON, |name|);
  }

  function NameOf(segment: Segment): Bytes {
    match segment
    case Literal(_) => []
    case Words(_) => WORD
    case Digits(_) => DIGITS
    case Alnum(_, upper) => if upper then MIXED else LOWER
  }

  function CountOf(segment: Segment): nat {
    match segment
    case Literal(_) => 1
    case Words(n) => n
    case Digits(n) => n
    case Alnum(n, _) => n
  }

  /** A body is read as a placeholder exactly when it names it. */
  lemma BodiesAreRead(body: Bytes, start: nat, segment: Segment)
    ensures Placeholder(body, start) == Ok(segment) <==> Names(body, segment)
  {
    if Names(body, segment) {
      NamedIsRead(body, start, segment);
    }
    if Placeholder(body, start) == Ok(segment) {
      ReadIsNamed(body, start, segment);
    }
  }

  lemma NamedIsRead(body: Bytes, start: nat, segment: Segment)
    requires Names(body, segment)
    ensures Placeholder(body, start) == Ok(segment)
  {
    NamesHaveNoColon();
    var name, n := NameOf(segment), CountOf(segment);
    if IsCounted(body, name, n) {
      SplitAtColon(name, Decimal(n));
      CountIsDecimal(Decimal(n), n, start + |name| + 1);
    } else {
      FindIsFirst(WORD, COLON);
    }
  }

  lemma ReadIsNamed(body: Bytes, start: nat, segment: Segment)
    requires Placeholder(body, start) == Ok(segment)
    ensures Names(body, segment)
  {
    match Find(body, COLON)
    case None =>
    case Some(i) =>
      var n := ParseCount(body[i + 1..], start + i + 1).value;
      CountIsDecimal(body[i + 1..], n, start + i + 1);
      assert body == body[..i] + [COLON] + body[i + 1..];
  }

  lemma NamedBodiesHaveNoBrace(body: Bytes, segment: Segment)
    requires Names(body, segment)
    ensures Lacks(body, OPEN) && Lacks(body, CLOSE)
  {
    var name := NameOf(segment);
    assert Lacks(name, OPEN) && Lacks(name, CLOSE);
    if body != WORD {
      assert body == name + [COLON] + Decimal(CountOf(segment));
    }
  }

  // ---------------------------------------------------------------- scanning, over any reader

  /** The reader takes exactly the bodies that name something, and none has a brace in it. */
  ghost predicate Takes(read: Reader, names: (Bytes, Segment) -> bool) {
    && (forall body, start, segment :: read(body, start) == Ok(segment) <==> names(body, segment))
    && (forall body, segment :: names(body, segment) ==> !segment.Literal? && Lacks(body, OPEN) && Lacks(body, CLOSE))
  }

  lemma TakesOne(read: Reader, names: (Bytes, Segment) -> bool, body: Bytes, start: nat, segment: Segment)
    requires Takes(read, names)
    ensures read(body, start) == Ok(segment) <==> names(body, segment)
    ensures names(body, segment) ==> !segment.Literal? && Lacks(body, OPEN) && Lacks(body, CLOSE)
  {
  }

  lemma BracedAt(text: Bytes, i: nat, body: Bytes)
    requires i + |body| + 2 <= |text|
    ensures text[i..i + |body| + 2] == Braced(body)
       <==> text[i] == OPEN && text[i + 1..i + 1 + |body|] == body && text[i + 1 + |body|] == CLOSE
  {
    var piece := text[i..i + |body| + 2];
    assert forall k :: 0 <= k < |piece| ==> piece[k] == text[i + k];
    assert piece == [piece[0]] + piece[1..1 + |body|] + [piece[1 + |body|]];
    assert piece[1..1 + |body|] == text[i + 1..i + 1 + |body|];
    assert Braced(body)[1..1 + |body|] == body;
  }

  /** A body with no brace inside is what the scanner cuts out, and nothing else is. */
  lemma CutsAtBraces(text: Bytes, i: nat, body: Bytes)
    requires i + |body| + 2 <= |text| && text[i..i + |body| + 2] == Braced(body) && Lacks(body, OPEN) && Lacks(body, CLOSE)
    ensures text[i] == OPEN && Cut(text, i) == Ok(body)
  {
    BracedAt(text, i, body);
    var rest := text[i + 1..];
    assert rest[..|body|] == body;
    FirstIsFound(rest, CLOSE, |body|);
    FindIsFirst(body, OPEN);
  }

  lemma CutIsBraced(text: Bytes, i: nat)
    requires i < |text| && text[i] == OPEN && Cut(text, i).Ok?
    ensures var body := Cut(text, i).value; text[i..i + |body| + 2] == Braced(body)
  {
    BracedAt(text, i, Cut(text, i).value);
  }

  lemma PlainAt(read: Reader, text: Bytes, i: nat)
    requires i < |text|
    ensures Next(read, text, i) == Plain <==> IsIdByte(text[i])
  {
  }

  /** The next token is a placeholder exactly when its piece is there. */
  lemma PieceIsNext(read: Reader, names: (Bytes, Segment) -> bool, text: Bytes, i: nat, k: nat, segment: Segment)
    requires Takes(read, names) && 0 < k && i + k <= |text| && !segment.Literal? && SpellsOne(names, text[i..i + k], segment)
    ensures Next(read, text, i) == Piece(segment, i + k)
  {
    var body := text[i..i + k][1..k - 1];
    TakesOne(read, names, body, i + 1, segment);
    CutsAtBraces(text, i, body);
  }

  lemma NextIsPiece(read: Reader, names: (Bytes, Segment) -> bool, text: Bytes, i: nat)
    requires Takes(read, names) && i < |text| && Next(read, text, i).Piece?
    ensures var t := Next(read, text, i);
            !t.segment.Literal? && SpellsOne(names, text[i..t.next], t.segment)
  {
    var t, body := Next(read, text, i), Cut(text, i).value;
    CutIsBraced(text, i);
    TakesOne(read, names, body, i + 1, t.segment);
    assert Braced(body)[1..|Braced(body)| - 1] == body;
  }

  lemma PieceFirst(names: (Bytes, Segment) -> bool, piece: Bytes, segment: Segment, rest: Bytes, more: seq<Segment>)
    requires SpellsOne(names, piece, segment) && piece != [] && MayFollow(segment, more) && Spells(names, rest, more)
    ensures Spells(names, piece + rest, [segment] + more)
  {
    var text := piece + rest;
    assert text[..|piece|] == piece && text[|piece|..] == rest && ([segment] + more)[1..] == more;
  }

  lemma LiteralFirst(names: (Bytes, Segment) -> bool, literal: Bytes, rest: Bytes, more: seq<Segment>)
    requires AreIdBytes(literal) && Spells(names, rest, more) && (more != [] ==> !more[0].Literal?)
    ensures Spells(names, literal + rest, Flush(literal) + more)
  {
    if literal == [] {
      assert literal + rest == rest && Flush(literal) + more == more;
    } else {
      PieceFirst(names, literal, Literal(literal), rest, more);
    }
  }

  /** A placeholder at `i`, then whatever is spelled from its end on. */
  lemma PieceAt(read: Reader, names: (Bytes, Segment) -> bool, text: Bytes, i: nat, literal: Bytes, rest: seq<Segment>)
    requires Takes(read, names) && i < |text| && AreIdBytes(literal) && Next(read, text, i).Piece?
    requires Spells(names, text[Next(read, text, i).next..], rest)
    ensures Spells(names, literal + text[i..], Flush(literal) + ([Next(read, text, i).segment] + rest))
  {
    var t := Next(read, text, i);
    NextIsPiece(read, names, text, i);
    assert text[i..] == text[i..t.next] + text[t.next..];
    PieceFirst(names, text[i..t.next], t.segment, text[t.next..], rest);
    LiteralFirst(names, literal, text[i..], [t.segment] + rest);
  }

  /** Any text the scanner reads is spelled by the segments it returns. */
  lemma {:induction false} ScannedIsSpelled(read: Reader, names: (Bytes, Segment) -> bool, text: Bytes, i: nat, literal: Bytes)
    requires Takes(read, names) && i <= |text| && AreIdBytes(literal) && Scan(read, text, i, literal).Ok?
    ensures Spells(names, literal + text[i..], Scan(read, text, i, literal).value)
    decreases |text| - i, 1
  {
    if i == |text| {
      assert literal + text[i..] == literal + [];
      LiteralFirst(names, literal, [], []);
      assert Flush(literal) + [] == Flush(literal);
    } else if Next(read, text, i).Piece? {
      ScannedPiece(read, names, text, i, literal);
    } else {
      PlainAt(read, text, i);
      ScannedIsSpelled(read, names, text, i + 1, literal + [text[i]]);
      assert literal + [text[i]] + text[i + 1..] == literal + text[i..];
    }
  }

  lemma {:induction false} ScannedPiece(read: Reader, names: (Bytes, Segment) -> bool, text: Bytes, i: nat, literal: Bytes)
    requires Takes(read, names) && i < |text| && AreIdBytes(literal) && Scan(read, text, i, literal).Ok?
    requires Next(read, text, i).Piece?
    ensures Spells(names, literal + text[i..], Scan(read, text, i, literal).value)
    decreases |text| - i, 0
  {
    var t := Next(read, text, i);
    ScanAtPiece(read, text, i, literal, t);
    ScannedIsSpelled(read, names, text, t.next, []);
    assert [] + text[t.next..] == text[t.next..];
    var rest := Scan(read, text, t.next, []).value;
    PieceAt(read, names, text, i, literal, rest);
    assert Flush(literal) + [t.segment] + rest == Flush(literal) + ([t.segment] + rest);
  }

  /** Where the first piece ends. */
  lemma FirstPiece(names: (Bytes, Segment) -> bool, text: Bytes, segments: seq<Segment>) returns (k: nat)
    requires segments != [] && Spells(names, text, segments)
    ensures 0 < k <= |text| && SpellsOne(names, text[..k], segments[0]) && MayFollow(segments[0], segments[1..])
    ensures Spells(names, text[k..], segments[1..])
  {
    k :| 0 < k <= |text| && SpellsOne(names, text[..k], segments[0]) && MayFollow(segments[0], segments[1..])
         && Spells(names, text[k..], segments[1..]);
  }

  /** A placeholder's piece starts with a brace, so no literal byte comes before it. */
  lemma NothingBeforeABrace(names: (Bytes, Segment) -> bool, literal: Bytes, rest: Bytes, k: nat, segment: Segment)
    requires AreIdBytes(literal) && 0 < k <= |literal + rest| && !segment.Literal?
    requires SpellsOne(names, (literal + rest)[..k], segment)
    ensures literal == [] && literal + rest == rest
  {
    var piece := (literal + rest)[..k];
    assert piece[0] == Braced(piece[1..|piece| - 1])[0] == OPEN && piece[0] == (literal + rest)[0];
    assert literal + rest == rest || (literal != [] && IsIdByte(literal[0]));
  }

  /** Any text the grammar spells is read, and as those segments. */
  lemma {:induction false} SpelledIsScanned(
    read: Reader, names: (Bytes, Segment) -> bool, text: Bytes, i: nat, literal: Bytes, segments: seq<Segment>)
    requires Takes(read, names) && i <= |text| && AreIdBytes(literal) && Spells(names, literal + text[i..], segments)
    ensures Scan(read, text, i, literal) == Ok(segments)
    decreases |text| - i, 3
  {
    var spelled := literal + text[i..];
    if segments != [] {
      var k := FirstPiece(names, spelled, segments);
      if segments[0].Literal? {
        ScanLiteral(read, names, text, i, literal, segments, k);
      } else {
        NothingBeforeABrace(names, literal, text[i..], k, segments[0]);
        assert text[i..][..k] == text[i..i + k] && text[i..][k..] == text[i + k..];
        ScanPlaceholder(read, names, text, i, [], k, segments);
        assert Flush([]) + segments == segments;
      }
    }
  }

  lemma ScanAtPiece(read: Reader, text: Bytes, i: nat, literal: Bytes, t: Token)
    requires i < |text| && Next(read, text, i) == t && t.Piece?
    ensures Scan(read, text, i, literal) == Prepend(Flush(literal) + [t.segment], Scan(read, text, t.next, []))
  {
  }

  lemma {:induction false} ScanPlaceholder(
    read: Reader, names: (Bytes, Segment) -> bool, text: Bytes, i: nat, literal: Bytes, k: nat, segments: seq<Segment>)
    requires Takes(read, names) && segments != [] && !segments[0].Literal? && 0 < k && i + k <= |text|
    requires SpellsOne(names, text[i..i + k], segments[0]) && Spells(names, text[i + k..], segments[1..])
    ensures Scan(read, text, i, literal) == Ok(Flush(literal) + segments)
    decreases |text| - i, 0
  {
    ScanFrom(read, names, text, i + k, segments[1..]);
    PieceIsNext(read, names, text, i, k, segments[0]);
    ScanJoins(read, text, i, literal, Piece(segments[0], i + k), segments);
  }

  lemma {:induction false} ScanFrom(read: Reader, names: (Bytes, Segment) -> bool, text: Bytes, i: nat, segments: seq<Segment>)
    requires Takes(read, names) && i <= |text| && Spells(names, text[i..], segments)
    ensures Scan(read, text, i, []) == Ok(segments)
    decreases |text| - i, 4
  {
    assert [] + text[i..] == text[i..];
    SpelledIsScanned(read, names, text, i, [], segments);
  }

  lemma ScanJoins(read: Reader, text: Bytes, i: nat, literal: Bytes, t: Token, segments: seq<Segment>)
    requires i < |text| && Next(read, text, i) == t && t.Piece? && segments != [] && t.segment == segments[0]
    requires Scan(read, text, t.next, []) == Ok(segments[1..])
    ensures Scan(read, text, i, literal) == Ok(Flush(literal) + segments)
  {
    ScanAtPiece(read, text, i, literal, t);
    assert Flush(literal) + [segments[0]] + segments[1..] == Flush(literal) + segments;
  }

  lemma {:induction false} ScanLiteral(
    read: Reader, names: (Bytes, Segment) -> bool, text: Bytes, i: nat, literal: Bytes, segments: seq<Segment>, k: nat)
    requires Takes(read, names) && i <= |text| && AreIdBytes(literal) && segments != [] && segments[0].Literal?
    requires k <= |literal + text[i..]| && SpellsOne(names, (literal + text[i..])[..k], segments[0])
    requires MayFollow(segments[0], segments[1..]) && Spells(names, (literal + text[i..])[k..], segments[1..])
    ensures Scan(read, text, i, literal) == Ok(segments)
    decreases |text| - i, 2
  {
    var spelled := literal + text[i..];
    var rest := spelled[k..];
    if rest != [] {
      StartsWithBrace(names, rest, segments[1..]);
      assert rest[0] == spelled[k];
      assert forall j :: 0 <= j < |literal| ==> IsIdByte(spelled[j]);
    }
    assert k >= |literal|;
    if k > |literal| {
      assert text[i] == spelled[|literal|] == segments[0].text[|literal|];
      assert literal + [text[i]] + text[i + 1..] == spelled;
      PlainAt(read, text, i);
      ScanLiteral(read, names, text, i + 1, literal + [text[i]], segments, k);
    } else {
      assert segments[0] == Literal(literal) && rest == text[i..];
      if segments[1..] == [] {
        assert i == |text| && segments == [Literal(literal)];
      } else {
        ScanAfterLiteral(read, names, text, i, literal, segments);
      }
    }
  }

  lemma StartsWithBrace(names: (Bytes, Segment) -> bool, text: Bytes, segments: seq<Segment>)
    requires text != [] && Spells(names, text, segments) && (segments != [] ==> !segments[0].Literal?)
    ensures text[0] == OPEN && !IsIdByte(OPEN)
  {
    var k := FirstPiece(names, text, segments);
    assert text[..k][0] == OPEN;
  }

  lemma {:induction false} ScanAfterLiteral(
    read: Reader, names: (Bytes, Segment) -> bool, text: Bytes, i: nat, literal: Bytes, segments: seq<Segment>)
    requires Takes(read, names) && i < |text| && |segments| > 1 && segments[0] == Literal(literal) && literal != []
    requires !segments[1].Literal? && Spells(names, text[i..], segments[1..])
    ensures Scan(read, text, i, literal) == Ok(segments)
    decreases |text| - i, 1
  {
    var more := segments[1..];
    var k := FirstPiece(names, text[i..], more);
    assert text[i..][..k] == text[i..i + k] && text[i..][k..] == text[i + k..];
    ScanPlaceholder(read, names, text, i, literal, k, more);
    assert [Literal(literal)] + more == segments;
  }

  // ---------------------------------------------------------------- the scanner reads the grammar

  lemma PlaceholdersAreTaken()
    ensures Takes(Placeholder, Names)
  {
    forall body, start, segment ensures Placeholder(body, start) == Ok(segment) <==> Names(body, segment) {
      BodiesAreRead(body, start, segment);
    }
    forall body, segment | Names(body, segment) ensures Lacks(body, OPEN) && Lacks(body, CLOSE) {
      NamedBodiesHaveNoBrace(body, segment);
    }
  }

  lemma ScanReadsTheGrammar(read: Reader, names: (Bytes, Segment) -> bool, text: Bytes, segments: seq<Segment>)
    requires Takes(read, names)
    ensures Scan(read, text, 0, []) == Ok(segments) <==> Spells(names, text, segments)
  {
    assert [] + text[0..] == text;
    if Spells(names, text, segments) {
      SpelledIsScanned(read, names, text, 0, [], segments);
    }
    if Scan(read, text, 0, []).Ok? {
      ScannedIsSpelled(read, names, text, 0, []);
    }
  }

  /** A template is accepted exactly when it is spelled by segments with at least one placeholder
      whose longest id fits; and those are the segments it is read as. */
  lemma ParseReadsTheGrammar(text: Bytes, words: seq<Bytes>, segments: seq<Segment>)
    ensures (ParseSpec(text, words).Ok? && ParseSpec(text, words).value.segments == segments)
       <==> |text| <= MAX_TEMPLATE_BYTES && IsTemplate(text, segments) && HasPlaceholder(segments)
            && MaxLen(segments, MaxWordLen(words)) <= MAX_ID_LEN
  {
    PlaceholdersAreTaken();
    ScanReadsTheGrammar(Placeholder, Names, text, segments);
  }

  /** So a text spells at most one list of segments. */
  lemma SpellingIsUnambiguous(text: Bytes, a: seq<Segment>, b: seq<Segment>)
    requires IsTemplate(text, a) && IsTemplate(text, b)
    ensures a == b
  {
    PlaceholdersAreTaken();
    ScanReadsTheGrammar(Placeholder, Names, text, a);
    ScanReadsTheGrammar(Placeholder, Names, text, b);
  }
}
