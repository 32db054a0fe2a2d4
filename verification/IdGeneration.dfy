/** Generating ids: every choice is one uniform draw, and distinct draws give distinct ids. */
module IdGeneration {
  import opened Basics
  import opened Framing
  import opened Entropy
  import opened Wordlists
  import opened IdTemplates

  // ---------------------------------------------------------------- a template as a list of choices

  /** Known text, or one draw from an alphabet of texts. */
  datatype Part = Fixed(text: Bytes) | Choice(alphabet: seq<Bytes>)

  /** One text per character. */
  function Characters(s: Bytes): (alphabet: seq<Bytes>)
    ensures |alphabet| == |s| && forall i :: 0 <= i < |s| ==> alphabet[i] == [s[i]]
  {
    seq(|s|, i requires 0 <= i < |s| => [s[i]])
  }

  /** 0-9; a-z 0-9; A-Z a-z 0-9. */
  function DigitChars(): Bytes { seq(10, i requires 0 <= i < 10 => 0x30 + i) }

  function LowerAlnum(): Bytes { seq(36, i requires 0 <= i < 36 => if i < 26 then 0x61 + i else 0x30 + (i - 26)) }

  function MixedAlnum(): Bytes {
    seq(62, i requires 0 <= i < 62 => if i < 26 then 0x41 + i else if i < 52 then 0x61 + (i - 26) else 0x30 + (i - 52))
  }

  function Repeat(n: nat, alphabet: seq<Bytes>): seq<Part> {
    if n == 0 then [] else [Choice(alphabet)] + Repeat(n - 1, alphabet)
  }

  /** Words joined by hyphens. */
  function Joined(n: nat, words: seq<Bytes>): seq<Part> {
    if n == 0 then [] else if n == 1 then [Choice(words)] else [Choice(words), Fixed([HYPHEN])] + Joined(n - 1, words)
  }

  function PartsOf(segment: Segment, words: seq<Bytes>): seq<Part> {
    match segment
    case Literal(text) => [Fixed(text)]
    case Words(n) => Joined(n, words)
    case Digits(n) => Repeat(n, Characters(DigitChars()))
    case Alnum(n, upper) => Repeat(n, Characters(if upper then MixedAlnum() else LowerAlnum()))
  }

  function Parts(segments: seq<Segment>, words: seq<Bytes>): seq<Part> {
    if segments == [] then [] else PartsOf(segments[0], words) + Parts(segments[1..], words)
  }

  /** One draw for each choice, each inside its alphabet. */
  predicate Fits(parts: seq<Part>, draws: seq<nat>)
    decreases |parts|
  {
    if parts == [] then draws == []
    else if parts[0].Fixed? then Fits(parts[1..], draws)
    else draws != [] && draws[0] < |parts[0].alphabet| && Fits(parts[1..], draws[1..])
  }

  /** The text the draws give. */
  function Render(parts: seq<Part>, draws: seq<nat>): Bytes
    requires Fits(parts, draws)
    decreases |parts|
  {
    if parts == [] then []
    else if parts[0].Fixed? then parts[0].text + Render(parts[1..], draws)
    else parts[0].alphabet[draws[0]] + Render(parts[1..], draws[1..])
  }

  // ---------------------------------------------------------------- unique decodability

  ghost predicate AllPrefixFree(parts: seq<Part>) {
    forall i :: 0 <= i < |parts| && parts[i].Choice? ==> PrefixFree(parts[i].alphabet)
  }

  /** Two texts that start the same longer text: one starts the other. */
  lemma BothStart(a: Bytes, b: Bytes, x: Bytes, y: Bytes)
    requires a + x == b + y
    ensures a <= b || b <= a
  {
    var s := a + x;
    assert a == s[..|a|] && b == s[..|b|];
    if |a| <= |b| {
      assert b[..|a|] == s[..|a|];
    } else {
      assert a[..|b|] == s[..|b|];
    }
  }

  /** The draws can be read back from the text, from the left. */
  lemma {:induction false} RenderIsInjective(parts: seq<Part>, d: seq<nat>, e: seq<nat>)
    requires AllPrefixFree(parts) && Fits(parts, d) && Fits(parts, e) && Render(parts, d) == Render(parts, e)
    ensures d == e
    decreases |parts|
  {
    if parts != [] {
      assert forall i :: 0 <= i < |parts[1..]| ==> parts[1..][i] == parts[i + 1];
      if parts[0].Fixed? {
        SameRest(parts[0].text, Render(parts[1..], d), Render(parts[1..], e));
        RenderIsInjective(parts[1..], d, e);
      } else {
        var alphabet := parts[0].alphabet;
        BothStart(alphabet[d[0]], alphabet[e[0]], Render(parts[1..], d[1..]), Render(parts[1..], e[1..]));
        assert PrefixFree(alphabet);
        assert d[0] == e[0];
        SameRest(alphabet[d[0]], Render(parts[1..], d[1..]), Render(parts[1..], e[1..]));
        RenderIsInjective(parts[1..], d[1..], e[1..]);
        assert d == [d[0]] + d[1..] && e == [e[0]] + e[1..];
      }
    }
  }

  lemma SameRest(a: Bytes, x: Bytes, y: Bytes)
    requires a + x == a + y
    ensures x == y
  {
    assert x == (a + x)[|a|..] && y == (a + y)[|a|..];
  }

  lemma CharactersArePrefixFree()
    ensures PrefixFree(Characters(DigitChars())) && PrefixFree(Characters(LowerAlnum())) && PrefixFree(Characters(MixedAlnum()))
  {
    DistinctCharacters(DigitChars());
    DistinctCharacters(LowerAlnum());
    DistinctCharacters(MixedAlnum());
  }

  lemma DistinctCharacters(s: Bytes)
    requires forall i, k :: 0 <= i < k < |s| ==> s[i] != s[k]
    ensures PrefixFree(Characters(s))
  {
    var alphabet := Characters(s);
    forall i, k | 0 <= i < |alphabet| && 0 <= k < |alphabet| && i != k ensures !(alphabet[i] <= alphabet[k]) {
      assert alphabet[i][0] != alphabet[k][0];
    }
  }

  lemma {:induction false} RepeatedIsPrefixFree(n: nat, alphabet: seq<Bytes>)
    requires PrefixFree(alphabet)
    ensures AllPrefixFree(Repeat(n, alphabet)) && AllPrefixFree(Joined(n, alphabet))
    decreases n
  {
    if n > 0 {
      RepeatedIsPrefixFree(n - 1, alphabet);
    }
  }

  lemma {:induction false} TemplateIsPrefixFree(segments: seq<Segment>, words: seq<Bytes>)
    requires PrefixFree(words)
    ensures AllPrefixFree(Parts(segments, words))
    decreases |segments|
  {
    if segments != [] {
      CharactersArePrefixFree();
      TemplateIsPrefixFree(segments[1..], words);
      match segments[0]
      case Literal(_) =>
      case Words(n) => RepeatedIsPrefixFree(n, words);
      case Digits(n) => RepeatedIsPrefixFree(n, Characters(DigitChars()));
      case Alnum(n, upper) => RepeatedIsPrefixFree(n, Characters(if upper then MixedAlnum() else LowerAlnum()));
    }
  }

  /** Distinct draws give distinct ids, for every template and every prefix-free wordlist, with
      placeholders next to one another and words with hyphens too. */
  lemma DistinctDrawsDistinctIds(segments: seq<Segment>, words: seq<Bytes>, d: seq<nat>, e: seq<nat>)
    requires PrefixFree(words) && Fits(Parts(segments, words), d) && Fits(Parts(segments, words), e)
    ensures Render(Parts(segments, words), d) == Render(Parts(segments, words), e) <==> d == e
  {
    if Render(Parts(segments, words), d) == Render(Parts(segments, words), e) {
      TemplateIsPrefixFree(segments, words);
      RenderIsInjective(Parts(segments, words), d, e);
    }
  }

  // ---------------------------------------------------------------- how many ids

  /** Every vector of draws. */
  ghost function AllDraws(parts: seq<Part>): (all: set<seq<nat>>)
    ensures forall d :: d in all <==> Fits(parts, d)
    decreases |parts|
  {
    if parts == [] then {[]}
    else if parts[0].Fixed? then AllDraws(parts[1..])
    else
      ExtendedMembers(|parts[0].alphabet|, AllDraws(parts[1..]));
      Extended(|parts[0].alphabet|, AllDraws(parts[1..]))
  }

  ghost function Prepended(k: nat, tails: set<seq<nat>>): set<seq<nat>> { set t <- tails :: [k] + t }

  lemma PrependedMembers(k: nat, tails: set<seq<nat>>)
    ensures forall d {:trigger d in Prepended(k, tails)} :: d in Prepended(k, tails) <==> d != [] && d[0] == k && d[1..] in tails
  {
    forall d: seq<nat> | d != [] && d[0] == k && d[1..] in tails ensures d in Prepended(k, tails) {
      assert d == [k] + d[1..];
    }
  }

  /** Every vector that starts below `n` and goes on with one of the tails. */
  ghost function Extended(n: nat, tails: set<seq<nat>>): set<seq<nat>> {
    set i: nat, t | i < n && t in tails :: [i] + t
  }

  lemma ExtendedMembers(n: nat, tails: set<seq<nat>>)
    ensures forall d {:trigger d in Extended(n, tails)} :: d in Extended(n, tails) <==> d != [] && d[0] < n && d[1..] in tails
  {
    forall d: seq<nat> | d != [] && d[0] < n && d[1..] in tails ensures d in Extended(n, tails) {
      assert d == [d[0]] + d[1..];
    }
  }

  ghost function Product(parts: seq<Part>): nat {
    if parts == [] then 1
    else if parts[0].Fixed? then Product(parts[1..])
    else |parts[0].alphabet| * Product(parts[1..])
  }

  lemma {:induction false} PrependedCount(k: nat, tails: set<seq<nat>>)
    ensures |Prepended(k, tails)| == |tails|
    decreases |tails|
  {
    if tails == {} {
      assert Prepended(k, tails) == {};
    } else {
      var t :| t in tails;
      var fewer := tails - {t};
      PrependedCount(k, fewer);
      forall u | u in fewer ensures [k] + u != [k] + t {
        if [k] + u == [k] + t {
          SameTail(k, u, t);
        }
      }
      assert Prepended(k, tails) == Prepended(k, fewer) + {[k] + t};
    }
  }

  lemma SameTail(k: nat, u: seq<nat>, t: seq<nat>)
    requires [k] + u == [k] + t
    ensures u == t
  {
    assert ([k] + u)[1..] == u && ([k] + t)[1..] == t;
  }

  lemma DisjointCount(fewer: set<seq<nat>>, last: set<seq<nat>>, k: nat)
    requires forall d <- fewer :: d != [] && d[0] < k
    requires forall d <- last :: d != [] && d[0] == k
    ensures |fewer + last| == |fewer| + |last|
  {
    assert fewer !! last;
  }

  function Times(n: nat, m: nat): nat { if n == 0 then 0 else Times(n - 1, m) + m }

  lemma {:induction false} TimesIsProduct(n: nat, m: nat)
    ensures Times(n, m) == n * m
    decreases n
  {
    if n > 0 {
      TimesIsProduct(n - 1, m);
      assert (n - 1) * m + m == n * m;
    }
  }

  lemma ExtendedOnce(n: nat, tails: set<seq<nat>>)
    ensures |Extended(n + 1, tails)| == |Extended(n, tails)| + |Prepended(n, tails)|
  {
    ExtendedMembers(n, tails);
    ExtendedMembers(n + 1, tails);
    PrependedMembers(n, tails);
    DisjointCount(Extended(n, tails), Prepended(n, tails), n);
    assert Extended(n + 1, tails) == Extended(n, tails) + Prepended(n, tails);
  }

  lemma {:induction false} ExtendedCount(n: nat, tails: set<seq<nat>>)
    ensures |Extended(n, tails)| == Times(n, |tails|)
    decreases n
  {
    if n == 0 {
      assert Extended(0, tails) == {};
    } else {
      ExtendedCount(n - 1, tails);
      PrependedCount(n - 1, tails);
      ExtendedOnce(n - 1, tails);
    }
  }

  lemma {:induction false} DrawCount(parts: seq<Part>)
    ensures |AllDraws(parts)| == Product(parts)
    decreases |parts|
  {
    if parts != [] {
      DrawCount(parts[1..]);
      if parts[0].Choice? {
        ExtendedCount(|parts[0].alphabet|, AllDraws(parts[1..]));
        TimesIsProduct(|parts[0].alphabet|, Product(parts[1..]));
      }
    }
  }

  ghost function Rendered(parts: seq<Part>, some: set<seq<nat>>): set<Bytes>
    requires forall d <- some :: Fits(parts, d)
  {
    set d <- some :: Render(parts, d)
  }

  lemma {:induction false} RenderedCount(parts: seq<Part>, some: set<seq<nat>>)
    requires AllPrefixFree(parts) && forall d <- some :: Fits(parts, d)
    ensures |Rendered(parts, some)| == |some|
    decreases |some|
  {
    if some != {} {
      var d :| d in some;
      var fewer := some - {d};
      RenderedCount(parts, fewer);
      forall e | e in fewer ensures Render(parts, e) != Render(parts, d) {
        if Render(parts, e) == Render(parts, d) {
          RenderIsInjective(parts, e, d);
        }
      }
      assert Rendered(parts, some) == Rendered(parts, fewer) + {Render(parts, d)};
    }
  }

  function Pow(base: nat, n: nat): nat { if n == 0 then 1 else base * Pow(base, n - 1) }

  /** The number of texts each segment gives: the number whose logarithm `bits` adds up. */
  function SegmentIds(segment: Segment, wordCount: nat): nat {
    match segment
    case Literal(_) => 1
    case Words(n) => Pow(wordCount, n)
    case Digits(n) => Pow(10, n)
    case Alnum(n, upper) => Pow(if upper then 62 else 36, n)
  }

  function TemplateIds(segments: seq<Segment>, wordCount: nat): nat {
    if segments == [] then 1 else SegmentIds(segments[0], wordCount) * TemplateIds(segments[1..], wordCount)
  }

  lemma {:induction false} ProductOfBoth(a: seq<Part>, b: seq<Part>)
    ensures Product(a + b) == Product(a) * Product(b)
    decreases |a|
  {
    if a == [] {
      assert a + b == b;
    } else {
      assert (a + b)[1..] == a[1..] + b && (a + b)[0] == a[0];
      ProductOfBoth(a[1..], b);
      if a[0].Choice? {
        Associate(|a[0].alphabet|, Product(a[1..]), Product(b));
      }
    }
  }

  lemma Associate(a: nat, b: nat, c: nat)
    ensures a * (b * c) == a * b * c
  {
  }

  lemma {:induction false} RepeatedProduct(n: nat, alphabet: seq<Bytes>)
    ensures Product(Repeat(n, alphabet)) == Pow(|alphabet|, n) && Product(Joined(n, alphabet)) == Pow(|alphabet|, n)
    decreases n
  {
    if n > 0 {
      RepeatedProduct(n - 1, alphabet);
      assert Repeat(n, alphabet)[1..] == Repeat(n - 1, alphabet);
      if n == 1 {
        assert Joined(1, alphabet)[1..] == [];
      } else {
        assert Joined(n, alphabet)[1..][1..] == Joined(n - 1, alphabet);
      }
    }
  }

  lemma SegmentProduct(segment: Segment, words: seq<Bytes>)
    ensures Product(PartsOf(segment, words)) == SegmentIds(segment, |words|)
  {
    match segment
    case Literal(text) => assert [Fixed(text)][1..] == [];
    case Words(n) => RepeatedProduct(n, words);
    case Digits(n) => RepeatedProduct(n, Characters(DigitChars()));
    case Alnum(n, upper) => RepeatedProduct(n, Characters(if upper then MixedAlnum() else LowerAlnum()));
  }

  lemma {:induction false} TemplateProduct(segments: seq<Segment>, words: seq<Bytes>)
    ensures Product(Parts(segments, words)) == TemplateIds(segments, |words|)
    decreases |segments|
  {
    if segments != [] {
      SegmentProduct(segments[0], words);
      TemplateProduct(segments[1..], words);
      ProductOfBoth(PartsOf(segments[0], words), Parts(segments[1..], words));
    }
  }

  /** A template has exactly as many ids as the product of its segments' alphabets. */
  lemma NumberOfIds(segments: seq<Segment>, words: seq<Bytes>)
    requires PrefixFree(words)
    ensures |Rendered(Parts(segments, words), AllDraws(Parts(segments, words)))| == TemplateIds(segments, |words|)
  {
    var parts := Parts(segments, words);
    TemplateIsPrefixFree(segments, words);
    RenderedCount(parts, AllDraws(parts));
    DrawCount(parts);
    TemplateProduct(segments, words);
  }

  // ---------------------------------------------------------------- generating

  /** There is something to draw from. */
  predicate NonEmpty(parts: seq<Part>) {
    parts == [] || ((parts[0].Choice? ==> parts[0].alphabet != []) && NonEmpty(parts[1..]))
  }

  /** What the draws of a stream make of the parts, and what is left of it. */
  function Generated(stream: Bytes, parts: seq<Part>): Result<(Bytes, Bytes), Bytes>
    requires NonEmpty(parts)
    decreases |parts|
  {
    if parts == [] then Ok(([], stream))
    else if parts[0].Fixed? then Extend(parts[0].text, Generated(stream, parts[1..]))
    else match FirstAccepted(stream, |parts[0].alphabet|)
      case Err(rest) => Err(rest)
      case Ok((drawn, rest)) => Extend(parts[0].alphabet[drawn], Generated(rest, parts[1..]))
  }

  function Extend(text: Bytes, r: Result<(Bytes, Bytes), Bytes>): Result<(Bytes, Bytes), Bytes> {
    match r case Err(rest) => Err(rest) case Ok((more, rest)) => Ok((text + more, rest))
  }

  /** The draws behind it. */
  function DrawsIn(stream: Bytes, parts: seq<Part>): seq<nat>
    requires NonEmpty(parts)
    decreases |parts|
  {
    if parts == [] then []
    else if parts[0].Fixed? then DrawsIn(stream, parts[1..])
    else match FirstAccepted(stream, |parts[0].alphabet|)
      case Err(_) => []
      case Ok((drawn, rest)) => [drawn] + DrawsIn(rest, parts[1..])
  }

  /** A generated id is the rendering of its draws. */
  lemma {:induction false} GeneratedIsRendered(stream: Bytes, parts: seq<Part>)
    requires NonEmpty(parts)
    requires Generated(stream, parts).Ok?
    ensures Fits(parts, DrawsIn(stream, parts)) && Generated(stream, parts).value.0 == Render(parts, DrawsIn(stream, parts))
    decreases |parts|
  {
    if parts != [] {
      if parts[0].Fixed? {
        GeneratedIsRendered(stream, parts[1..]);
      } else {
        GeneratedIsRendered(FirstAccepted(stream, |parts[0].alphabet|).value.1, parts[1..]);
      }
    }
  }

  // ---------------------------------------------------------------- the generator's loops

  function Then(r: Result<(Bytes, Bytes), Bytes>, b: seq<Part>): Result<(Bytes, Bytes), Bytes>
    requires NonEmpty(b)
  {
    match r case Err(rest) => Err(rest) case Ok((text, rest)) => Extend(text, Generated(rest, b))
  }

  lemma {:induction false} BothNonEmpty(a: seq<Part>, b: seq<Part>)
    requires NonEmpty(a) && NonEmpty(b)
    ensures NonEmpty(a + b)
    decreases |a|
  {
    if a == [] {
      assert a + b == b;
    } else {
      assert (a + b)[1..] == a[1..] + b && (a + b)[0] == a[0];
      BothNonEmpty(a[1..], b);
    }
  }

  lemma {:induction false} PartsFollow(stream: Bytes, a: seq<Part>, b: seq<Part>)
    requires NonEmpty(a) && NonEmpty(b)
    ensures NonEmpty(a + b) && Generated(stream, a + b) == Then(Generated(stream, a), b)
    decreases |a|
  {
    BothNonEmpty(a, b);
    if a == [] {
      assert a + b == b;
      ExtendNothing(Generated(stream, b));
    } else {
      assert (a + b)[1..] == a[1..] + b && (a + b)[0] == a[0];
      if a[0].Fixed? {
        PartsFollow(stream, a[1..], b);
        FollowAfter(a[0].text, Generated(stream, a[1..]), b);
      } else if FirstAccepted(stream, |a[0].alphabet|).Ok? {
        var (drawn, rest) := FirstAccepted(stream, |a[0].alphabet|).value;
        PartsFollow(rest, a[1..], b);
        FollowAfter(a[0].alphabet[drawn], Generated(rest, a[1..]), b);
      }
    }
  }

  lemma FollowAfter(head: Bytes, r: Result<(Bytes, Bytes), Bytes>, b: seq<Part>)
    requires NonEmpty(b)
    ensures Extend(head, Then(r, b)) == Then(Extend(head, r), b)
  {
    if r.Ok? {
      ExtendTwice(head, r.value.0, Generated(r.value.1, b));
    }
  }

  lemma ExtendTwice(a: Bytes, b: Bytes, r: Result<(Bytes, Bytes), Bytes>)
    ensures Extend(a, Extend(b, r)) == Extend(a + b, r)
  {
    if r.Ok? {
      assert a + (b + r.value.0) == a + b + r.value.0;
    }
  }

  lemma ExtendNothing(r: Result<(Bytes, Bytes), Bytes>)
    ensures Extend([], r) == r
  {
    if r.Ok? {
      assert [] + r.value.0 == r.value.0;
    }
  }

  lemma {:induction false} RepeatedIsNonEmpty(n: nat, alphabet: seq<Bytes>)
    requires alphabet != []
    ensures NonEmpty(Repeat(n, alphabet)) && NonEmpty(Joined(n, alphabet))
    decreases n
  {
    if n > 0 {
      RepeatedIsNonEmpty(n - 1, alphabet);
      if n > 1 {
        assert Joined(n, alphabet)[1..][1..] == Joined(n - 1, alphabet);
      }
    }
  }

  lemma SegmentIsNonEmpty(segment: Segment, words: seq<Bytes>)
    requires words != []
    ensures NonEmpty(PartsOf(segment, words))
  {
    match segment
    case Literal(text) => assert [Fixed(text)][1..] == [];
    case Words(n) => RepeatedIsNonEmpty(n, words);
    case Digits(n) => RepeatedIsNonEmpty(n, Characters(DigitChars()));
    case Alnum(n, upper) => RepeatedIsNonEmpty(n, Characters(if upper then MixedAlnum() else LowerAlnum()));
  }

  lemma {:induction false} PartsAreNonEmpty(segments: seq<Segment>, words: seq<Bytes>)
    requires words != []
    ensures NonEmpty(Parts(segments, words))
    decreases |segments|
  {
    if segments != [] {
      PartsAreNonEmpty(segments[1..], words);
      SegmentIsNonEmpty(segments[0], words);
      PartsFollow([], PartsOf(segments[0], words), Parts(segments[1..], words));
    }
  }

  /** One draw: its text moves from what is to come to what is there. */
  lemma DrawStep(text: Bytes, stream: Bytes, parts: seq<Part>)
    requires parts != [] && parts[0].Choice? && NonEmpty(parts)
    ensures match FirstAccepted(stream, |parts[0].alphabet|)
            case Err(rest) => Extend(text, Generated(stream, parts)) == Err(rest)
            case Ok((drawn, rest)) =>
              Extend(text, Generated(stream, parts)) == Extend(text + parts[0].alphabet[drawn], Generated(rest, parts[1..]))
  {
    if FirstAccepted(stream, |parts[0].alphabet|).Ok? {
      var (drawn, rest) := FirstAccepted(stream, |parts[0].alphabet|).value;
      ExtendTwice(text, parts[0].alphabet[drawn], Generated(rest, parts[1..]));
    }
  }

  lemma FixedStep(text: Bytes, stream: Bytes, fixed: Bytes, parts: seq<Part>)
    requires NonEmpty(parts)
    ensures NonEmpty([Fixed(fixed)] + parts)
    ensures Extend(text, Generated(stream, [Fixed(fixed)] + parts)) == Extend(text + fixed, Generated(stream, parts))
  {
    assert ([Fixed(fixed)] + parts)[1..] == parts;
    ExtendTwice(text, fixed, Generated(stream, parts));
  }

  lemma NothingLeft(text: Bytes, stream: Bytes)
    ensures Extend(text, Generated(stream, [])) == Ok((text, stream))
  {
    assert text + [] == text;
  }

  /** What the loops return, against what the parts make of the stream. */
  predicate Agrees(r: Result<Bytes, EntropyError>, stream: Bytes, expected: Result<(Bytes, Bytes), Bytes>) {
    match expected
    case Ok((text, rest)) => r == Ok(text) && stream == rest
    case Err(rest) => r == Err(EntropyError) && stream == rest
  }

  /** Appends `count` characters, each drawn from the alphabet. */
  method PushChars(id: Bytes, entropy: Source, count: nat, alphabet: Bytes) returns (r: Result<Bytes, EntropyError>)
    requires 0 < |alphabet| < U32_LIMIT
    modifies entropy
    ensures NonEmpty(Repeat(count, Characters(alphabet)))
    ensures Agrees(r, entropy.stream, Extend(id, Generated(old(entropy.stream), Repeat(count, Characters(alphabet)))))
  {
    ghost var start := entropy.stream;
    ghost var chars := Characters(alphabet);
    RepeatedIsNonEmpty(count, chars);
    var text := id;
    for i := 0 to count
      invariant NonEmpty(Repeat(count - i, chars))
      invariant Extend(id, Generated(start, Repeat(count, chars))) == Extend(text, Generated(entropy.stream, Repeat(count - i, chars)))
    {
      DrawStep(text, entropy.stream, Repeat(count - i, chars));
      assert Repeat(count - i, chars)[1..] == Repeat(count - i - 1, chars);
      var index := UniformBelow(entropy, |alphabet|);
      if index.Err? {
        return Err(EntropyError);
      }
      text := text + [alphabet[index.value]];
    }
    NothingLeft(text, entropy.stream);
    return Ok(text);
  }

  /** What remains of the joined words after `i` of them. */
  function JoinedFrom(count: nat, i: nat, words: seq<Bytes>): seq<Part>
    requires i <= count
  {
    if i == 0 then Joined(count, words)
    else if i == count then []
    else [Fixed([HYPHEN])] + Joined(count - i, words)
  }

  lemma JoinedFromIsNonEmpty(count: nat, i: nat, words: seq<Bytes>)
    requires i <= count && words != []
    ensures NonEmpty(JoinedFrom(count, i, words))
  {
    RepeatedIsNonEmpty(count - i, words);
    if 0 < i < count {
      FixedStep([], [], [HYPHEN], Joined(count - i, words));
    }
  }

  lemma JoinedNext(count: nat, i: nat, words: seq<Bytes>)
    requires i < count
    ensures Joined(count - i, words)[0] == Choice(words) && Joined(count - i, words)[1..] == JoinedFrom(count, i + 1, words)
  {
  }

  /** Draws words and joins them with hyphens. */
  method PushWords(id: Bytes, entropy: Source, count: nat, words: seq<Bytes>) returns (r: Result<Bytes, EntropyError>)
    requires 0 < |words| < U32_LIMIT && count > 0
    modifies entropy
    ensures NonEmpty(Joined(count, words))
    ensures Agrees(r, entropy.stream, Extend(id, Generated(old(entropy.stream), Joined(count, words))))
  {
    ghost var all := Joined(count, words);
    RepeatedIsNonEmpty(count, words);
    ghost var expected := Extend(id, Generated(entropy.stream, all));
    var text := id;
    JoinedFromIsNonEmpty(count, 0, words);
    for i := 0 to count
      invariant NonEmpty(JoinedFrom(count, i, words))
      invariant expected == Extend(text, Generated(entropy.stream, JoinedFrom(count, i, words)))
    {
      RepeatedIsNonEmpty(count - i, words);
      if i > 0 {
        FixedStep(text, entropy.stream, [HYPHEN], Joined(count - i, words));
        text := text + [HYPHEN];
      }
      DrawStep(text, entropy.stream, Joined(count - i, words));
      JoinedNext(count, i, words);
      JoinedFromIsNonEmpty(count, i + 1, words);
      var index := UniformBelow(entropy, |words|);
      if index.Err? {
        return Err(EntropyError);
      }
      text := text + words[index.value];
    }
    NothingLeft(text, entropy.stream);
    return Ok(text);
  }

  method PushSegment(id: Bytes, entropy: Source, segment: Segment, words: seq<Bytes>) returns (r: Result<Bytes, EntropyError>)
    requires 0 < |words| < U32_LIMIT && CountOf(segment) > 0
    modifies entropy
    ensures NonEmpty(PartsOf(segment, words))
    ensures Agrees(r, entropy.stream, Extend(id, Generated(old(entropy.stream), PartsOf(segment, words))))
  {
    match segment
    case Literal(text) =>
      FixedStep(id, entropy.stream, text, []);
      assert [Fixed(text)] + [] == [Fixed(text)];
      NothingLeft(id + text, entropy.stream);
      return Ok(id + text);
    case Words(n) => r := PushWords(id, entropy, n, words);
    case Digits(n) => r := PushChars(id, entropy, n, DigitChars());
    case Alnum(n, false) => r := PushChars(id, entropy, n, LowerAlnum());
    case Alnum(n, true) => r := PushChars(id, entropy, n, MixedAlnum());
  }

  lemma SegmentStep(id: Bytes, stream: Bytes, segments: seq<Segment>, words: seq<Bytes>)
    requires segments != [] && words != []
    ensures NonEmpty(Parts(segments, words)) && NonEmpty(PartsOf(segments[0], words)) && NonEmpty(Parts(segments[1..], words))
    ensures Extend(id, Generated(stream, Parts(segments, words)))
         == Then(Extend(id, Generated(stream, PartsOf(segments[0], words))), Parts(segments[1..], words))
  {
    PartsAreNonEmpty(segments, words);
    PartsAreNonEmpty(segments[1..], words);
    SegmentIsNonEmpty(segments[0], words);
    PartsFollow(stream, PartsOf(segments[0], words), Parts(segments[1..], words));
    FollowAfter(id, Generated(stream, PartsOf(segments[0], words)), Parts(segments[1..], words));
  }

  /** A random id: its text is what the parts make of the stream, one uniform draw per choice. */
  method Generate(template: IdTemplate, entropy: Source) returns (r: Result<Bytes, EntropyError>)
    requires 0 < |template.words| < U32_LIMIT
    requires forall i :: 0 <= i < |template.segments| ==> CountOf(template.segments[i]) > 0
    modifies entropy
    ensures NonEmpty(Parts(template.segments, template.words))
    ensures Agrees(r, entropy.stream, Generated(old(entropy.stream), Parts(template.segments, template.words)))
  {
    var segments, words := template.segments, template.words;
    PartsAreNonEmpty(segments, words);
    ghost var expected := Generated(entropy.stream, Parts(segments, words));
    ExtendNothing(expected);
    assert segments[0..] == segments;
    var id: Bytes := [];
    for i := 0 to |segments|
      invariant NonEmpty(Parts(segments[i..], words))
      invariant expected == Extend(id, Generated(entropy.stream, Parts(segments[i..], words)))
    {
      assert segments[i..][0] == segments[i] && segments[i..][1..] == segments[i + 1..];
      SegmentStep(id, entropy.stream, segments[i..], words);
      var more := PushSegment(id, entropy, segments[i], words);
      if more.Err? {
        return Err(EntropyError);
      }
      id := more.value;
    }
    NothingLeft(id, entropy.stream);
    return Ok(id);
  }

  // ---------------------------------------------------------------- every id is valid and short

  /** The text a part may give is made of id bytes, and has at least one that is not a dot. */
  ghost predicate IsReadable(part: Part) {
    if part.Fixed? then AreIdBytes(part.text)
    else forall i :: 0 <= i < |part.alphabet| ==>
           part.alphabet[i] != [] && AreIdBytes(part.alphabet[i]) && part.alphabet[i][0] != 0x2E
  }

  ghost predicate AreReadable(parts: seq<Part>) { forall i :: 0 <= i < |parts| ==> IsReadable(parts[i]) }

  predicate HasChoice(parts: seq<Part>) { parts != [] && (parts[0].Choice? || HasChoice(parts[1..])) }

  lemma {:induction false} RenderedIsValid(parts: seq<Part>, draws: seq<nat>)
    requires Fits(parts, draws) && AreReadable(parts)
    ensures var id := Render(parts, draws);
            AreIdBytes(id) && (HasChoice(parts) ==> exists i :: 0 <= i < |id| && id[i] != 0x2E)
    decreases |parts|
  {
    if parts != [] {
      assert forall i :: 0 <= i < |parts[1..]| ==> parts[1..][i] == parts[i + 1];
      assert IsReadable(parts[0]);
      var id := Render(parts, draws);
      if parts[0].Fixed? {
        RenderedIsValid(parts[1..], draws);
        var rest := Render(parts[1..], draws);
        if HasChoice(parts[1..]) {
          var i :| 0 <= i < |rest| && rest[i] != 0x2E;
          assert id[|parts[0].text| + i] == rest[i];
        }
      } else {
        RenderedIsValid(parts[1..], draws[1..]);
        assert id[0] == parts[0].alphabet[draws[0]][0];
      }
    }
  }

  lemma {:induction false} RepeatedIsReadable(n: nat, alphabet: seq<Bytes>)
    requires IsReadable(Choice(alphabet))
    ensures AreReadable(Repeat(n, alphabet)) && AreReadable(Joined(n, alphabet))
    ensures n > 0 ==> HasChoice(Repeat(n, alphabet)) && HasChoice(Joined(n, alphabet))
    decreases n
  {
    if n > 0 {
      RepeatedIsReadable(n - 1, alphabet);
    }
  }

  lemma SegmentIsReadable(segment: Segment, words: seq<Bytes>)
    requires forall i :: 0 <= i < |words| ==> IsWord(words[i])
    requires segment.Literal? ==> AreIdBytes(segment.text)
    ensures AreReadable(PartsOf(segment, words))
    ensures !segment.Literal? && CountOf(segment) > 0 ==> HasChoice(PartsOf(segment, words))
  {
    forall i | 0 <= i < |words| ensures words[i] != [] && AreIdBytes(words[i]) && words[i][0] != 0x2E {
      WordsAreReadable(words[i]);
    }
    match segment
    case Literal(_) =>
    case Words(n) => RepeatedIsReadable(n, words);
    case Digits(n) => RepeatedIsReadable(n, Characters(DigitChars()));
    case Alnum(n, upper) => RepeatedIsReadable(n, Characters(if upper then MixedAlnum() else LowerAlnum()));
  }

  /** What the grammar says of each segment. */
  predicate IsSound(segment: Segment) {
    if segment.Literal? then AreIdBytes(segment.text) else 1 <= CountOf(segment) <= MAX_COUNT
  }

  lemma {:induction false} SpelledIsSound(text: Bytes, segments: seq<Segment>)
    requires IsTemplate(text, segments)
    ensures forall i :: 0 <= i < |segments| ==> IsSound(segments[i])
    decreases |segments|
  {
    if segments != [] {
      var k := FirstPiece(Names, text, segments);
      SpelledIsSound(text[k..], segments[1..]);
      forall i | 0 <= i < |segments| ensures IsSound(segments[i]) {
        if i > 0 {
          assert segments[i] == segments[1..][i - 1];
        }
      }
    }
  }

  lemma {:induction false} PartsAreReadable(segments: seq<Segment>, words: seq<Bytes>)
    requires forall i :: 0 <= i < |words| ==> IsWord(words[i])
    requires forall i :: 0 <= i < |segments| ==> IsSound(segments[i])
    ensures AreReadable(Parts(segments, words))
    ensures HasPlaceholder(segments) ==> HasChoice(Parts(segments, words))
    decreases |segments|
  {
    if segments != [] {
      var head, rest := PartsOf(segments[0], words), Parts(segments[1..], words);
      SegmentIsReadable(segments[0], words);
      PartsAreReadable(segments[1..], words);
      ChoiceInEither(head, rest);
      if HasPlaceholder(segments) && segments[0].Literal? {
        var i :| 0 <= i < |segments| && !segments[i].Literal?;
        assert segments[1..][i - 1] == segments[i];
      }
    }
  }

  lemma {:induction false} ChoiceInEither(a: seq<Part>, b: seq<Part>)
    ensures HasChoice(a) || HasChoice(b) ==> HasChoice(a + b)
    decreases |a|
  {
    if a == [] {
      assert a + b == b;
    } else {
      assert (a + b)[1..] == a[1..] + b;
      ChoiceInEither(a[1..], b);
    }
  }

  function LongestText(parts: seq<Part>): nat {
    if parts == [] then 0
    else (if parts[0].Fixed? then |parts[0].text| else MaxWordLen(parts[0].alphabet)) + LongestText(parts[1..])
  }

  lemma {:induction false} RenderedFits(parts: seq<Part>, draws: seq<nat>)
    requires Fits(parts, draws)
    ensures |Render(parts, draws)| <= LongestText(parts)
    decreases |parts|
  {
    if parts != [] {
      RenderedFits(parts[1..], if parts[0].Fixed? then draws else draws[1..]);
    }
  }

  lemma {:induction false} LongestOfBoth(a: seq<Part>, b: seq<Part>)
    ensures LongestText(a + b) == LongestText(a) + LongestText(b)
    decreases |a|
  {
    if a == [] {
      assert a + b == b;
    } else {
      assert (a + b)[1..] == a[1..] + b && (a + b)[0] == a[0];
      LongestOfBoth(a[1..], b);
    }
  }

  lemma {:induction false} LongestRepeated(n: nat, alphabet: seq<Bytes>)
    ensures LongestText(Repeat(n, alphabet)) == Times(n, MaxWordLen(alphabet))
    ensures n > 0 ==> LongestText(Joined(n, alphabet)) + 1 == Times(n, MaxWordLen(alphabet) + 1)
    decreases n
  {
    if n > 0 {
      LongestRepeated(n - 1, alphabet);
      assert Repeat(n, alphabet)[1..] == Repeat(n - 1, alphabet);
      if n == 1 {
        assert Joined(1, alphabet)[1..] == [];
      } else {
        assert Joined(n, alphabet)[1..][1..] == Joined(n - 1, alphabet);
        assert Joined(n, alphabet)[1..][0] == Fixed([HYPHEN]);
      }
    }
  }

  lemma RepeatedLength(n: nat, alphabet: seq<Bytes>)
    requires n > 0
    ensures LongestText(Repeat(n, alphabet)) == n * MaxWordLen(alphabet)
    ensures LongestText(Joined(n, alphabet)) == n * (MaxWordLen(alphabet) + 1) - 1
  {
    LongestRepeated(n, alphabet);
    TimesIsProduct(n, MaxWordLen(alphabet));
    TimesIsProduct(n, MaxWordLen(alphabet) + 1);
  }

  lemma {:induction false} LongestCharacter(s: Bytes)
    requires s != []
    ensures MaxWordLen(Characters(s)) == 1
    decreases |s|
  {
    assert Characters(s)[1..] == Characters(s[1..]);
    if |s| > 1 {
      LongestCharacter(s[1..]);
    }
  }

  lemma SegmentLengthIsExact(segment: Segment, words: seq<Bytes>)
    requires CountOf(segment) > 0
    ensures LongestText(PartsOf(segment, words)) == SegmentLen(segment, MaxWordLen(words))
  {
    LongestCharacter(DigitChars());
    LongestCharacter(LowerAlnum());
    LongestCharacter(MixedAlnum());
    match segment
    case Literal(text) => assert [Fixed(text)][1..] == [];
    case Words(n) => RepeatedLength(n, words);
    case Digits(n) => RepeatedLength(n, Characters(DigitChars()));
    case Alnum(n, upper) => RepeatedLength(n, Characters(if upper then MixedAlnum() else LowerAlnum()));
  }

  lemma {:induction false} MaxLenIsExact(segments: seq<Segment>, words: seq<Bytes>)
    requires forall i :: 0 <= i < |segments| ==> IsSound(segments[i])
    ensures LongestText(Parts(segments, words)) == MaxLen(segments, MaxWordLen(words))
    decreases |segments|
  {
    if segments != [] {
      SegmentLengthIsExact(segments[0], words);
      MaxLenIsExact(segments[1..], words);
      LongestOfBoth(PartsOf(segments[0], words), Parts(segments[1..], words));
    }
  }

  lemma {:induction false} LongestWord(words: seq<Bytes>) returns (i: nat)
    requires words != []
    ensures i < |words| && |words[i]| == MaxWordLen(words)
    decreases |words|
  {
    i := 0;
    if |words| > 1 && MaxWordLen(words[1..]) > |words[0]| {
      i := LongestWord(words[1..]);
      i := i + 1;
    } else if |words| == 1 {
      assert words[1..] == [];
    }
  }

  lemma {:induction false} LongestIsDrawn(parts: seq<Part>) returns (draws: seq<nat>)
    requires NonEmpty(parts)
    ensures Fits(parts, draws) && |Render(parts, draws)| == LongestText(parts)
    decreases |parts|
  {
    if parts == [] {
      draws := [];
    } else {
      draws := LongestIsDrawn(parts[1..]);
      if parts[0].Choice? {
        var i := LongestWord(parts[0].alphabet);
        ghost var rest := draws;
        draws := [i] + rest;
        assert draws[1..] == rest;
      }
    }
  }

  /** The computed maximum is the length of the longest id: some draws give an id that long, and no
      draws a longer one. */
  lemma LongestId(segments: seq<Segment>, words: seq<Bytes>) returns (draws: seq<nat>)
    requires words != [] && forall i :: 0 <= i < |segments| ==> IsSound(segments[i])
    ensures Fits(Parts(segments, words), draws)
    ensures |Render(Parts(segments, words), draws)| == MaxLen(segments, MaxWordLen(words))
    ensures forall d :: Fits(Parts(segments, words), d) ==> |Render(Parts(segments, words), d)| <= MaxLen(segments, MaxWordLen(words))
  {
    var parts := Parts(segments, words);
    PartsAreNonEmpty(segments, words);
    MaxLenIsExact(segments, words);
    draws := LongestIsDrawn(parts);
    forall d | Fits(parts, d) ensures |Render(parts, d)| <= LongestText(parts) {
      RenderedFits(parts, d);
    }
  }

  /** Whatever is drawn, an accepted template gives a valid id of at most `max_len` and so at most
      128 characters, and the generator needs nothing else to run. */
  lemma TemplatesGiveValidIds(text: Bytes, words: seq<Bytes>, draws: seq<nat>)
    requires forall i :: 0 <= i < |words| ==> IsWord(words[i])
    requires ParseSpec(text, words).Ok? && Fits(Parts(ParseSpec(text, words).value.segments, words), draws)
    ensures var t := ParseSpec(text, words).value;
            var id := Render(Parts(t.segments, words), draws);
            IsValidId(id) && |id| <= t.maxLen <= MAX_ID_LEN
            && forall i :: 0 <= i < |t.segments| ==> CountOf(t.segments[i]) > 0
  {
    var segments := ParseSpec(text, words).value.segments;
    ParseReadsTheGrammar(text, words, segments);
    SpelledIsSound(text, segments);
    PartsAreReadable(segments, words);
    var parts := Parts(segments, words);
    RenderedIsValid(parts, draws);
    RenderedFits(parts, draws);
    MaxLenIsExact(segments, words);
    forall i | 0 <= i < |segments| ensures CountOf(segments[i]) > 0 {
      assert IsSound(segments[i]);
    }
  }
}
