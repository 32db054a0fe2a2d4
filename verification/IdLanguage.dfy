/** The ids of a template as a language: the texts that match its segments, one after another. */
module IdLanguage {
  import opened Basics
  import opened Text
  import opened Decimals
  import opened Wordlists
  import opened IdTemplates
  import opened IdGeneration

  // ---------------------------------------------------------------- the language

  predicate IsDigitByte(b: byte) { '0' as int <= b <= '9' as int }

  predicate IsLowerByte(b: byte) { 'a' as int <= b <= 'z' as int }

  predicate IsUpperByte(b: byte) { 'A' as int <= b <= 'Z' as int }

  /** The words with a hyphen between any two. */
  function Hyphenated(words: seq<Bytes>): Bytes {
    if words == [] then [] else words[0] + (if |words| == 1 then [] else Ascii("-") + Hyphenated(words[1..]))
  }

  ghost predicate AreWords(text: Bytes, n: nat, words: seq<Bytes>) {
    exists chosen: seq<Bytes> :: |chosen| == n && (forall i :: 0 <= i < n ==> chosen[i] in words) && text == Hyphenated(chosen)
  }

  /** What a segment stands for. */
  ghost predicate Matches(text: Bytes, segment: Segment, words: seq<Bytes>) {
    match segment
    case Literal(literal) => text == literal
    case Words(n) => AreWords(text, n, words)
    case Digits(n) => |text| == n && forall i :: 0 <= i < n ==> IsDigitByte(text[i])
    case Alnum(n, upper) =>
      |text| == n && forall i :: 0 <= i < n ==> IsDigitByte(text[i]) || IsLowerByte(text[i]) || (upper && IsUpperByte(text[i]))
  }

  ghost predicate IsIdOf(text: Bytes, segments: seq<Segment>, words: seq<Bytes>)
    decreases |segments|
  {
    if segments == [] then text == []
    else exists k :: 0 <= k <= |text| && Matches(text[..k], segments[0], words) && IsIdOf(text[k..], segments[1..], words)
  }

  // ---------------------------------------------------------------- what parts can give

  /** Some choices give the text. */
  ghost predicate Gives(parts: seq<Part>, text: Bytes)
    decreases |parts|
  {
    if parts == [] then text == []
    else if parts[0].Fixed? then parts[0].text <= text && Gives(parts[1..], text[|parts[0].text|..])
    else exists j :: ChoiceGives(parts, text, j)
  }

  ghost predicate ChoiceGives(parts: seq<Part>, text: Bytes, j: nat)
    requires parts != [] && parts[0].Choice?
    decreases |parts|, 0
  {
    j < |parts[0].alphabet| && parts[0].alphabet[j] <= text && Gives(parts[1..], text[|parts[0].alphabet[j]|..])
  }

  lemma {:induction false} RenderedIsGiven(parts: seq<Part>, draws: seq<nat>)
    requires Fits(parts, draws)
    ensures Gives(parts, Render(parts, draws))
    decreases |parts|
  {
    if parts != [] {
      var text := Render(parts, draws);
      if parts[0].Fixed? {
        RenderedIsGiven(parts[1..], draws);
        assert text[|parts[0].text|..] == Render(parts[1..], draws);
      } else {
        RenderedIsGiven(parts[1..], draws[1..]);
        assert text[|parts[0].alphabet[draws[0]]|..] == Render(parts[1..], draws[1..]);
        assert ChoiceGives(parts, text, draws[0]);
      }
    }
  }

  lemma FirstChoice(parts: seq<Part>, text: Bytes) returns (j: nat)
    requires parts != [] && parts[0].Choice? && Gives(parts, text)
    ensures ChoiceGives(parts, text, j)
  {
    j :| ChoiceGives(parts, text, j);
  }

  lemma FirstFixed(parts: seq<Part>, text: Bytes)
    requires parts != [] && parts[0].Fixed? && Gives(parts, text)
    ensures parts[0].text <= text && Gives(parts[1..], text[|parts[0].text|..])
  {
  }

  lemma {:induction false} GivenIsRendered(parts: seq<Part>, text: Bytes) returns (draws: seq<nat>)
    requires Gives(parts, text)
    ensures Fits(parts, draws) && Render(parts, draws) == text
    decreases |parts|
  {
    if parts == [] {
      draws := [];
    } else if parts[0].Fixed? {
      draws := GivenIsRendered(parts[1..], text[|parts[0].text|..]);
    } else {
      var j := FirstChoice(parts, text);
      var rest := GivenIsRendered(parts[1..], text[|parts[0].alphabet[j]|..]);
      draws := [j] + rest;
      assert draws[1..] == rest;
    }
  }

  lemma {:induction false} BothAreGiven(a: seq<Part>, b: seq<Part>, x: Bytes, y: Bytes)
    requires Gives(a, x) && Gives(b, y)
    ensures Gives(a + b, x + y)
    decreases |a|
  {
    if a == [] {
      assert a + b == b && x + y == y;
    } else {
      assert (a + b)[0] == a[0] && (a + b)[1..] == a[1..] + b;
      if a[0].Fixed? {
        var n := |a[0].text|;
        BothAreGiven(a[1..], b, x[n..], y);
        assert (x + y)[n..] == x[n..] + y;
      } else {
        var j := FirstChoice(a, x);
        var n := |a[0].alphabet[j]|;
        BothAreGiven(a[1..], b, x[n..], y);
        assert (x + y)[n..] == x[n..] + y;
        assert ChoiceGives(a + b, x + y, j);
      }
    }
  }

  lemma {:induction false} GivenInTwo(a: seq<Part>, b: seq<Part>, text: Bytes) returns (k: nat)
    requires Gives(a + b, text)
    ensures k <= |text| && Gives(a, text[..k]) && Gives(b, text[k..])
    decreases |a|
  {
    if a == [] {
      assert a + b == b && text[0..] == text;
      k := 0;
    } else {
      assert (a + b)[0] == a[0] && (a + b)[1..] == a[1..] + b;
      if a[0].Fixed? {
        var n := |a[0].text|;
        var more := GivenInTwo(a[1..], b, text[n..]);
        k := n + more;
        CutsAgree(text, n, more);
      } else {
        var j := FirstChoice(a + b, text);
        var n := |a[0].alphabet[j]|;
        var more := GivenInTwo(a[1..], b, text[n..]);
        k := n + more;
        CutsAgree(text, n, more);
        assert ChoiceGives(a, text[..k], j);
      }
    }
  }

  lemma CutsAgree(text: Bytes, n: nat, more: nat)
    requires n + more <= |text|
    ensures text[..n + more][n..] == text[n..][..more] && text[n..][more..] == text[n + more..]
    ensures text[..n + more][..n] == text[..n]
  {
  }

  // ---------------------------------------------------------------- segments

  lemma {:induction false} RepeatGives(n: nat, characters: Bytes, text: Bytes)
    ensures Gives(Repeat(n, Characters(characters)), text) <==> |text| == n && forall i :: 0 <= i < |text| ==> text[i] in characters
    decreases n
  {
    var alphabet := Characters(characters);
    var parts := Repeat(n, alphabet);
    if n > 0 {
      assert parts[0] == Choice(alphabet) && parts[1..] == Repeat(n - 1, alphabet);
      if text != [] {
        RepeatGives(n - 1, characters, text[1..]);
        if text[0] in characters {
          var j :| 0 <= j < |characters| && characters[j] == text[0];
          if |text| == n && forall i :: 0 <= i < |text| ==> text[i] in characters {
            assert alphabet[j] == [text[0]] == text[..1];
            assert ChoiceGives(parts, text, j);
          }
        }
      }
      if Gives(parts, text) {
        var j := FirstChoice(parts, text);
        assert alphabet[j] == [characters[j]] && text[0] == alphabet[j][0];
        assert text == [text[0]] + text[1..];
      }
    }
  }

  lemma CharactersAreKnown(b: byte)
    ensures b in DigitChars() <==> IsDigitByte(b)
    ensures b in LowerAlnum() <==> IsDigitByte(b) || IsLowerByte(b)
    ensures b in MixedAlnum() <==> IsDigitByte(b) || IsLowerByte(b) || IsUpperByte(b)
  {
    if IsDigitByte(b) {
      assert DigitChars()[b - 0x30] == b && LowerAlnum()[b - 0x30 + 26] == b && MixedAlnum()[b - 0x30 + 52] == b;
    }
    if IsLowerByte(b) {
      assert LowerAlnum()[b - 0x61] == b && MixedAlnum()[b - 0x61 + 26] == b;
    }
    if IsUpperByte(b) {
      assert MixedAlnum()[b - 0x41] == b;
    }
  }

  lemma {:induction false} HyphenatedIsGiven(chosen: seq<Bytes>, words: seq<Bytes>)
    requires forall i :: 0 <= i < |chosen| ==> chosen[i] in words
    ensures Gives(Joined(|chosen|, words), Hyphenated(chosen))
    decreases |chosen|
  {
    if chosen != [] {
      var parts, text := Joined(|chosen|, words), Hyphenated(chosen);
      var j :| 0 <= j < |words| && words[j] == chosen[0];
      assert parts[0] == Choice(words);
      if |chosen| == 1 {
        assert text == words[j] && text[|words[j]|..] == [] && parts[1..] == [];
      } else {
        var rest := Hyphenated(chosen[1..]);
        HyphenatedIsGiven(chosen[1..], words);
        assert text[|words[j]|..] == Ascii("-") + rest;
        assert parts[1..] == [Fixed([HYPHEN])] + Joined(|chosen| - 1, words);
        assert parts[1..][1..] == Joined(|chosen| - 1, words);
        assert Ascii("-") == [HYPHEN] && (Ascii("-") + rest)[1..] == rest;
      }
      assert ChoiceGives(parts, text, j);
    }
  }

  lemma {:induction false} GivenIsHyphenated(n: nat, words: seq<Bytes>, text: Bytes) returns (chosen: seq<Bytes>)
    requires Gives(Joined(n, words), text)
    ensures |chosen| == n && (forall i :: 0 <= i < n ==> chosen[i] in words) && text == Hyphenated(chosen)
    decreases n
  {
    var parts := Joined(n, words);
    if n == 0 {
      chosen := [];
    } else {
      assert parts[0] == Choice(words);
      var j := FirstChoice(parts, text);
      var after := text[|words[j]|..];
      assert text == words[j] + after;
      if n == 1 {
        assert parts[1..] == [] && after == [];
        chosen := [words[j]];
      } else {
        assert parts[1..] == [Fixed([HYPHEN])] + Joined(n - 1, words);
        assert parts[1..][1..] == Joined(n - 1, words);
        FirstFixed(parts[1..], after);
        var rest := GivenIsHyphenated(n - 1, words, after[1..]);
        assert after == [HYPHEN] + after[1..] && Ascii("-") == [HYPHEN];
        chosen := [words[j]] + rest;
        assert chosen[1..] == rest;
      }
    }
  }

  lemma SegmentGives(segment: Segment, words: seq<Bytes>, text: Bytes)
    ensures Gives(PartsOf(segment, words), text) <==> Matches(text, segment, words)
  {
    forall b: byte ensures b in DigitChars() <==> IsDigitByte(b)
                   ensures b in LowerAlnum() <==> IsDigitByte(b) || IsLowerByte(b)
                   ensures b in MixedAlnum() <==> IsDigitByte(b) || IsLowerByte(b) || IsUpperByte(b)
    {
      CharactersAreKnown(b);
    }
    match segment
    case Literal(literal) =>
      assert PartsOf(segment, words)[1..] == [];
    case Words(n) =>
      if Gives(PartsOf(segment, words), text) {
        var chosen := GivenIsHyphenated(n, words, text);
      }
      if AreWords(text, n, words) {
        var chosen :| |chosen| == n && (forall i :: 0 <= i < n ==> chosen[i] in words) && text == Hyphenated(chosen);
        HyphenatedIsGiven(chosen, words);
      }
    case Digits(n) => RepeatGives(n, DigitChars(), text);
    case Alnum(n, upper) => RepeatGives(n, if upper then MixedAlnum() else LowerAlnum(), text);
  }

  lemma {:induction false} TemplateGives(segments: seq<Segment>, words: seq<Bytes>, text: Bytes)
    ensures Gives(Parts(segments, words), text) <==> IsIdOf(text, segments, words)
    decreases |segments|
  {
    if segments != [] {
      var head, tail := PartsOf(segments[0], words), Parts(segments[1..], words);
      forall k | 0 <= k <= |text|
        ensures Gives(head, text[..k]) <==> Matches(text[..k], segments[0], words)
        ensures Gives(tail, text[k..]) <==> IsIdOf(text[k..], segments[1..], words)
      {
        SegmentGives(segments[0], words, text[..k]);
        TemplateGives(segments[1..], words, text[k..]);
      }
      if Gives(head + tail, text) {
        var k := GivenInTwo(head, tail, text);
      }
      if IsIdOf(text, segments, words) {
        var k :| 0 <= k <= |text| && Matches(text[..k], segments[0], words) && IsIdOf(text[k..], segments[1..], words);
        BothAreGiven(head, tail, text[..k], text[k..]);
        assert text[..k] + text[k..] == text;
      }
    }
  }

  /** Draws give exactly the texts that match the template. */
  lemma IdsAreTheMatchingTexts(segments: seq<Segment>, words: seq<Bytes>, text: Bytes)
    ensures IsIdOf(text, segments, words)
       <==> exists draws :: Fits(Parts(segments, words), draws) && Render(Parts(segments, words), draws) == text
  {
    var parts := Parts(segments, words);
    TemplateGives(segments, words, text);
    if IsIdOf(text, segments, words) {
      var draws := GivenIsRendered(parts, text);
    }
    if draws :| Fits(parts, draws) && Render(parts, draws) == text {
      RenderedIsGiven(parts, draws);
    }
  }

  /** What the generator makes matches the template. */
  lemma GeneratedIdsMatch(stream: Bytes, segments: seq<Segment>, words: seq<Bytes>)
    requires NonEmpty(Parts(segments, words)) && Generated(stream, Parts(segments, words)).Ok?
    ensures IsIdOf(Generated(stream, Parts(segments, words)).value.0, segments, words)
  {
    GeneratedIsRendered(stream, Parts(segments, words));
    IdsAreTheMatchingTexts(segments, words, Generated(stream, Parts(segments, words)).value.0);
  }

  // ---------------------------------------------------------------- templates in characters

  /** A segment's piece of the template. */
  predicate IsSpelled(piece: Bytes, segment: Segment) {
    match segment
    case Literal(text) => piece == text && piece != [] && forall i :: 0 <= i < |piece| ==> IsLiteralByte(piece[i])
    case Words(n) => (n == 1 && piece == Ascii("{word}")) || HasCount(piece, "word", n)
    case Digits(n) => HasCount(piece, "digits", n)
    case Alnum(n, upper) => HasCount(piece, if upper then "Alnum" else "alnum", n)
  }

  predicate IsLiteralByte(b: byte) { IsDigitByte(b) || IsLowerByte(b) || IsUpperByte(b) || b in Ascii("-._~") }

  predicate HasCount(piece: Bytes, name: string, n: nat) {
    1 <= n <= 64 && piece == Ascii("{") + Ascii(name) + Ascii(":") + Decimal(n) + Ascii("}")
  }

  lemma BracesHold(inner: Bytes)
    ensures Braced(inner)[1..|Braced(inner)| - 1] == inner
  {
  }

  lemma CountIsSpelled(piece: Bytes, name: string, n: nat)
    ensures HasCount(piece, name, n)
       <==> |piece| >= 2 && piece == Braced(piece[1..|piece| - 1]) && IsCounted(piece[1..|piece| - 1], Ascii(name), n)
  {
    var inner := Counted(Ascii(name), n);
    assert Braced(inner) == Ascii("{") + Ascii(name) + Ascii(":") + Decimal(n) + Ascii("}");
    BracesHold(inner);
  }

  lemma WordIsSpelled(piece: Bytes)
    ensures piece == Ascii("{word}") <==> |piece| >= 2 && piece == Braced(piece[1..|piece| - 1]) && piece[1..|piece| - 1] == WORD
  {
    assert Ascii("{word}") == Braced(WORD);
    BracesHold(WORD);
  }

  /** The grammar's pieces, character by character. */
  lemma PiecesAreSpelled(piece: Bytes, segment: Segment)
    ensures SpellsOne(Names, piece, segment) <==> IsSpelled(piece, segment)
  {
    match segment
    case Literal(_) =>
      forall b: byte ensures IsIdByte(b) <==> IsLiteralByte(b) {
        IdBytesAreKnown(b);
      }
    case Words(n) =>
      WordIsSpelled(piece);
      CountIsSpelled(piece, "word", n);
    case Digits(n) => CountIsSpelled(piece, "digits", n);
    case Alnum(n, upper) => CountIsSpelled(piece, if upper then "Alnum" else "alnum", n);
  }

  lemma IdBytesAreKnown(b: byte)
    ensures IsIdByte(b) <==> IsLiteralByte(b)
  {
    var marks := Ascii("-._~");
    assert marks[0] == 0x2D && marks[1] == 0x2E && marks[2] == 0x5F && marks[3] == 0x7E;
  }
}
