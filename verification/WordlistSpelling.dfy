/** The accepted wordlists written out: the text itself, instead of what splitting it finds. */
module WordlistSpelling {
  import opened Basics
  import opened Scanning
  import opened Wordlists

  // ---------------------------------------------------------------- words and lines

  predicate AreLetters(part: Bytes) { part != [] && forall i :: 0 <= i < |part| ==> 'a' as int <= part[i] <= 'z' as int }

  /** Runs of lowercase letters with one hyphen between any two. */
  ghost predicate IsWordText(word: Bytes) { exists parts :: AreRuns(parts, word) }

  ghost predicate AreRuns(parts: seq<Bytes>, word: Bytes) {
    parts != [] && (forall i :: 0 <= i < |parts| ==> AreLetters(parts[i])) && word == Joined(parts, '-' as int)
  }

  lemma WordIsSpelled(word: Bytes)
    ensures IsWord(word) <==> IsWordText(word)
  {
    SplitJoins(word, HYPHEN);
    if IsWord(word) {
      assert forall i :: 0 <= i < |Split(word, HYPHEN)| ==> IsPart(Split(word, HYPHEN)[i]);
      assert AreRuns(Split(word, HYPHEN), word);
    }
    if parts :| AreRuns(parts, word) {
      forall i | 0 <= i < |parts| ensures Lacks(parts[i], HYPHEN) && IsPart(parts[i]) {
        assert AreLetters(parts[i]);
      }
      JoinedSplits(parts, HYPHEN);
      assert parts[0] <= word;
    }
  }

  predicate IsCodeText(code: Bytes) { |code| == 5 && forall i :: 0 <= i < 5 ==> '1' as int <= code[i] <= '6' as int }

  function LineText(code: Bytes, word: Bytes): Bytes { code + ['\t' as int] + word }

  /** A line is a dice code of five digits from 1 to 6, a tab, and a word. */
  lemma LineIsSpelled(line: Bytes, code: Bytes, word: Bytes)
    ensures LineOf(line) == Some((code, word)) <==> line == LineText(code, word) && IsCodeText(code) && IsWordText(word)
  {
    WordIsSpelled(word);
    FindIsFirst(line, TAB);
    if line == LineText(code, word) && IsCodeText(code) {
      assert line[|code|] == TAB && line[..|code|] == code && line[|code| + 1..] == word;
      FirstIsFound(line, TAB, |code|);
    }
    if LineOf(line) == Some((code, word)) {
      var i := Find(line, TAB).value;
      assert line == line[..i] + [TAB] + line[i + 1..];
    }
  }

  // ---------------------------------------------------------------- whole lists

  /** The lines of a text, and whether one newline follows the last. */
  lemma LinesAreSpelled(text: Bytes, lines: seq<Bytes>)
    requires lines != [] && AllLack(lines, NEWLINE) && lines[|lines| - 1] != []
    ensures Lines(text) == lines <==> text == Joined(lines, NEWLINE) || text == Joined(lines, NEWLINE) + [NEWLINE]
  {
    EndsInLast(lines, NEWLINE);
    if text != [] && text[|text| - 1] == NEWLINE {
      SplitIsUnjoined(text[..|text| - 1], NEWLINE, lines);
      OneNewline(text, Joined(lines, NEWLINE));
    } else {
      SplitIsUnjoined(text, NEWLINE, lines);
      assert forall body: Bytes :: (body + [NEWLINE])[|body|] == NEWLINE;
    }
  }

  lemma OneNewline(text: Bytes, body: Bytes)
    requires text != [] && text[|text| - 1] == NEWLINE && body != [] && body[|body| - 1] != NEWLINE
    ensures text != body && (text[..|text| - 1] == body <==> text == body + [NEWLINE])
  {
    assert text == text[..|text| - 1] + [NEWLINE];
    assert (body + [NEWLINE])[..|body|] == body;
  }

  lemma {:induction false} EndsInLast(parts: seq<Bytes>, sep: byte)
    requires parts != [] && parts[|parts| - 1] != [] && Lacks(parts[|parts| - 1], sep)
    ensures Joined(parts, sep) != [] && Joined(parts, sep)[|Joined(parts, sep)| - 1] != sep
    decreases |parts|
  {
    if |parts| > 1 {
      EndsInLast(parts[1..], sep);
    }
  }

  /** The lists that are accepted, in characters: 7776 lines, each a code, a tab and a word, separated
      by newlines and perhaps followed by one; no code twice; and no word that starts with another. */
  ghost predicate IsListText(text: Bytes, codes: seq<Bytes>, words: seq<Bytes>) {
    && |codes| == |words| == 7776
    && (forall i :: 0 <= i < 7776 ==> IsCodeText(codes[i]) && IsWordText(words[i]))
    && (forall i, k :: 0 <= i < k < 7776 ==> codes[i] != codes[k])
    && (forall i, k :: 0 <= i < 7776 && 0 <= k < 7776 && i != k ==> !(words[i] <= words[k]))
    && (text == Joined(LineTexts(codes, words), '\n' as int) || text == Joined(LineTexts(codes, words), '\n' as int) + ['\n' as int])
  }

  function LineTexts(codes: seq<Bytes>, words: seq<Bytes>): (lines: seq<Bytes>)
    requires |codes| == |words|
    ensures |lines| == |codes| && forall i :: 0 <= i < |codes| ==> lines[i] == LineText(codes[i], words[i])
  {
    seq(|codes|, i requires 0 <= i < |codes| => LineText(codes[i], words[i]))
  }

  ghost predicate Accepts(lines: seq<Bytes>) {
    Checked(lines, |lines|) && |lines| == WORDLIST_LEN && PrefixFree(WordsOf(lines))
  }

  lemma LineHasNoNewline(code: Bytes, word: Bytes)
    requires IsCodeText(code) && IsWordText(word)
    ensures Lacks(LineText(code, word), NEWLINE) && LineText(code, word) != []
  {
    WordIsSpelled(word);
    WordsAreReadable(word);
  }

  lemma LinesAreRead(codes: seq<Bytes>, words: seq<Bytes>, lines: seq<Bytes>)
    requires |codes| == |words| && lines == LineTexts(codes, words)
    requires forall i :: 0 <= i < |codes| ==> IsCodeText(codes[i]) && IsWordText(words[i])
    ensures AllLack(lines, NEWLINE)
    ensures forall i :: 0 <= i < |lines| ==> lines[i] != [] && LineOf(lines[i]) == Some((codes[i], words[i]))
  {
    forall i | 0 <= i < |lines| ensures Lacks(lines[i], NEWLINE) && lines[i] != [] && LineOf(lines[i]) == Some((codes[i], words[i])) {
      LineHasNoNewline(codes[i], words[i]);
      LineIsSpelled(lines[i], codes[i], words[i]);
    }
  }

  lemma DistinctLines(lines: seq<Bytes>, codes: seq<Bytes>, words: seq<Bytes>)
    requires |lines| == |codes| == |words|
    requires forall i :: 0 <= i < |lines| ==> LineOf(lines[i]) == Some((codes[i], words[i]))
    requires forall i, k :: 0 <= i < k < |codes| ==> codes[i] != codes[k]
    requires PrefixFree(words)
    ensures Checked(lines, |lines|) && WordsOf(lines) == words
  {
    assert WordsOf(lines) == words;
    forall i, k | 0 <= i < k < |lines| ensures CodeOf(lines[i]) != CodeOf(lines[k]) && WordOf(lines[i]) != WordOf(lines[k]) {
      assert !(words[i] <= words[k]);
    }
  }

  lemma TextLines(text: Bytes, codes: seq<Bytes>, words: seq<Bytes>, lines: seq<Bytes>)
    requires IsListText(text, codes, words) && lines == LineTexts(codes, words) && AllLack(lines, NEWLINE)
    requires forall i :: 0 <= i < |lines| ==> lines[i] != []
    ensures Lines(text) == lines
  {
    LinesAreSpelled(text, lines);
  }

  lemma TextIsAccepted(text: Bytes, codes: seq<Bytes>, words: seq<Bytes>)
    requires IsListText(text, codes, words)
    ensures Accepts(Lines(text)) && WordsOf(Lines(text)) == words
  {
    LinesAreRead(codes, words, LineTexts(codes, words));
    TextLines(text, codes, words, LineTexts(codes, words));
    DistinctLines(LineTexts(codes, words), codes, words);
  }

  function CodesIn(lines: seq<Bytes>): (codes: seq<Bytes>)
    ensures |codes| == |lines| && forall i :: 0 <= i < |lines| ==> codes[i] == CodeOf(lines[i])
  {
    seq(|lines|, i requires 0 <= i < |lines| => CodeOf(lines[i]))
  }

  lemma AcceptedIsText(text: Bytes)
    requires Accepts(Lines(text))
    ensures IsListText(text, CodesIn(Lines(text)), WordsOf(Lines(text)))
  {
    var lines := Lines(text);
    var codes, words := CodesIn(lines), WordsOf(lines);
    forall i | 0 <= i < |lines|
      ensures IsCodeText(codes[i]) && IsWordText(words[i]) && lines[i] == LineText(codes[i], words[i])
      ensures Lacks(lines[i], NEWLINE) && lines[i] != []
    {
      LineIsSpelled(lines[i], codes[i], words[i]);
      LineHasNoNewline(codes[i], words[i]);
    }
    assert LineTexts(codes, words) == lines;
    LinesAreSpelled(text, lines);
  }

  /** Parsing accepts exactly those texts, and returns their words in order. */
  lemma AcceptedListsAreSpelled(text: Bytes, words: seq<Bytes>)
    ensures Accepts(Lines(text)) && WordsOf(Lines(text)) == words <==> exists codes :: IsListText(text, codes, words)
  {
    if Accepts(Lines(text)) && WordsOf(Lines(text)) == words {
      AcceptedIsText(text);
    }
    if codes :| IsListText(text, codes, words) {
      TextIsAccepted(text, codes, words);
    }
  }
}
