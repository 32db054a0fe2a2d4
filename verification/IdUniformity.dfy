/** How likely each id is, and how many there are: every id of an accepted template is given by
    equally many of the draws that are not rejected. */
module IdUniformity {
  import opened Basics
  import opened Framing
  import opened Entropy
  import opened Wordlists
  import opened IdTemplates
  import opened IdGeneration

  // ---------------------------------------------------------------- draws before they are reduced

  /** Alphabets that a 32-bit draw can choose from. */
  predicate AreDrawable(parts: seq<Part>) {
    parts == [] || ((parts[0].Choice? ==> 0 < |parts[0].alphabet| < U32_LIMIT) && AreDrawable(parts[1..]))
  }

  /** One 32-bit draw for each choice, none of which is rejected. */
  predicate Accepts(parts: seq<Part>, raws: seq<nat>)
    requires AreDrawable(parts)
    decreases |parts|
  {
    if parts == [] then raws == []
    else if parts[0].Fixed? then Accepts(parts[1..], raws)
    else raws != [] && raws[0] < Limit(|parts[0].alphabet|) && Accepts(parts[1..], raws[1..])
  }

  /** The choices they make. */
  function Reduced(parts: seq<Part>, raws: seq<nat>): (draws: seq<nat>)
    requires AreDrawable(parts) && Accepts(parts, raws)
    ensures Fits(parts, draws)
    decreases |parts|
  {
    if parts == [] then []
    else if parts[0].Fixed? then Reduced(parts[1..], raws)
    else [raws[0] % |parts[0].alphabet|] + Reduced(parts[1..], raws[1..])
  }

  /** The bytes they are read from. */
  function Spelled(raws: seq<nat>): Bytes
    requires forall i :: 0 <= i < |raws| ==> raws[i] < U32_LIMIT
  {
    if raws == [] then [] else ToU32(raws[0]) + Spelled(raws[1..])
  }

  lemma {:induction false} AcceptedAreSmall(parts: seq<Part>, raws: seq<nat>)
    requires AreDrawable(parts) && Accepts(parts, raws)
    ensures forall i :: 0 <= i < |raws| ==> raws[i] < U32_LIMIT
    decreases |parts|
  {
    if parts != [] {
      if parts[0].Fixed? {
        AcceptedAreSmall(parts[1..], raws);
      } else {
        AcceptedAreSmall(parts[1..], raws[1..]);
        assert forall i :: 0 < i < |raws| ==> raws[i] == raws[1..][i - 1];
      }
    }
  }

  lemma {:induction false} DrawableIsNonEmpty(parts: seq<Part>)
    requires AreDrawable(parts)
    ensures NonEmpty(parts)
    decreases |parts|
  {
    if parts != [] {
      DrawableIsNonEmpty(parts[1..]);
    }
  }

  /** The generator, fed these bytes, makes these choices, and takes no more of its entropy. */
  lemma {:induction false} AcceptedAreGenerated(parts: seq<Part>, raws: seq<nat>, rest: Bytes)
    requires AreDrawable(parts) && Accepts(parts, raws) && NonEmpty(parts)
    requires forall i :: 0 <= i < |raws| ==> raws[i] < U32_LIMIT
    ensures Generated(Spelled(raws) + rest, parts) == Ok((Render(parts, Reduced(parts, raws)), rest))
    decreases |parts|
  {
    if parts == [] {
      assert Spelled(raws) + rest == rest;
    } else if parts[0].Fixed? {
      AcceptedAreGenerated(parts[1..], raws, rest);
    } else {
      var n, more := |parts[0].alphabet|, Spelled(raws[1..]) + rest;
      var stream := Spelled(raws) + rest;
      assert stream[..4] == ToU32(raws[0]) && stream[4..] == more;
      FromU32InvertsToU32(raws[0]);
      assert FirstAccepted(stream, n) == Ok((raws[0] % n, more));
      AcceptedAreGenerated(parts[1..], raws[1..], rest);
      assert Reduced(parts, raws)[1..] == Reduced(parts[1..], raws[1..]);
    }
  }

  // ---------------------------------------------------------------- how many make the same choices

  /** Every vector that starts in `heads` and goes on with one of the tails. */
  ghost function Combined(heads: set<nat>, tails: set<seq<nat>>): set<seq<nat>> {
    set v, t | v in heads && t in tails :: [v] + t
  }

  lemma CombinedMembers(heads: set<nat>, tails: set<seq<nat>>)
    ensures forall r {:trigger r in Combined(heads, tails)} :: r in Combined(heads, tails) <==> r != [] && r[0] in heads && r[1..] in tails
  {
    forall r: seq<nat> | r != [] && r[0] in heads && r[1..] in tails ensures r in Combined(heads, tails) {
      assert r == [r[0]] + r[1..];
    }
  }

  lemma CombinedOnce(heads: set<nat>, v: nat, tails: set<seq<nat>>)
    requires v !in heads
    ensures |Combined(heads + {v}, tails)| == |Combined(heads, tails)| + |Prepended(v, tails)|
  {
    CombinedMembers(heads, tails);
    CombinedMembers(heads + {v}, tails);
    PrependedMembers(v, tails);
    assert Combined(heads, tails) !! Prepended(v, tails);
    assert Combined(heads + {v}, tails) == Combined(heads, tails) + Prepended(v, tails);
  }

  lemma {:induction false} CombinedCount(heads: set<nat>, tails: set<seq<nat>>)
    ensures |Combined(heads, tails)| == Times(|heads|, |tails|)
    decreases |heads|
  {
    if heads == {} {
      assert Combined(heads, tails) == {};
    } else {
      var v :| v in heads;
      CombinedCount(heads - {v}, tails);
      PrependedCount(v, tails);
      CombinedOnce(heads - {v}, v, tails);
      assert heads - {v} + {v} == heads;
    }
  }

  /** Every accepted vector that makes these choices. */
  ghost function RawsFor(parts: seq<Part>, draws: seq<nat>): (raws: set<seq<nat>>)
    requires AreDrawable(parts) && Fits(parts, draws)
    ensures forall r :: r in raws <==> Accepts(parts, r) && Reduced(parts, r) == draws
    decreases |parts|
  {
    if parts == [] then {[]}
    else if parts[0].Fixed? then RawsFor(parts[1..], draws)
    else
      var n := |parts[0].alphabet|;
      var heads, tails := DrawsOf(draws[0], n, Limit(n)), RawsFor(parts[1..], draws[1..]);
      RawsAreCombined(parts, draws, tails);
      Combined(heads, tails)
  }

  lemma RawsAreCombined(parts: seq<Part>, draws: seq<nat>, tails: set<seq<nat>>)
    requires AreDrawable(parts) && Fits(parts, draws) && parts != [] && parts[0].Choice?
    requires forall r :: r in tails <==> Accepts(parts[1..], r) && Reduced(parts[1..], r) == draws[1..]
    ensures var n := |parts[0].alphabet|;
            forall r {:trigger Accepts(parts, r)} {:trigger r in Combined(DrawsOf(draws[0], n, Limit(n)), tails)} ::
              r in Combined(DrawsOf(draws[0], n, Limit(n)), tails) <==> Accepts(parts, r) && Reduced(parts, r) == draws
  {
    var n := |parts[0].alphabet|;
    var heads := DrawsOf(draws[0], n, Limit(n));
    CombinedMembers(heads, tails);
    forall r: seq<nat> ensures r in Combined(heads, tails) <==> Accepts(parts, r) && Reduced(parts, r) == draws {
      if Accepts(parts, r) {
        SameVector(r[0] % n, Reduced(parts[1..], r[1..]), draws);
      }
    }
  }

  lemma SameVector(head: nat, tail: seq<nat>, draws: seq<nat>)
    requires draws != []
    ensures [head] + tail == draws <==> head == draws[0] && tail == draws[1..]
  {
    assert ([head] + tail)[1..] == tail && draws == [draws[0]] + draws[1..];
  }

  /** A number of accepted vectors that the choices have no part in. */
  function Weight(parts: seq<Part>): nat
    requires AreDrawable(parts)
  {
    if parts == [] then 1
    else if parts[0].Fixed? then Weight(parts[1..])
    else U32_LIMIT / |parts[0].alphabet| * Weight(parts[1..])
  }

  lemma {:induction false} RawCount(parts: seq<Part>, draws: seq<nat>)
    requires AreDrawable(parts) && Fits(parts, draws)
    ensures |RawsFor(parts, draws)| == Weight(parts)
    decreases |parts|
  {
    if parts != [] {
      if parts[0].Fixed? {
        RawCount(parts[1..], draws);
      } else {
        var n := |parts[0].alphabet|;
        RawCount(parts[1..], draws[1..]);
        DrawsAreUniform(n, draws[0]);
        CombinedCount(DrawsOf(draws[0], n, Limit(n)), RawsFor(parts[1..], draws[1..]));
        TimesIsProduct(U32_LIMIT / n, Weight(parts[1..]));
      }
    }
  }

  // ---------------------------------------------------------------- every id is equally likely

  /** These are exactly the accepted vectors that give this id. */
  ghost predicate AllGive(parts: seq<Part>, id: Bytes, raws: set<seq<nat>>)
    requires AreDrawable(parts)
  {
    forall r :: r in raws <==> Accepts(parts, r) && Render(parts, Reduced(parts, r)) == id
  }

  lemma EachIdIsAsLikely(parts: seq<Part>, draws: seq<nat>) returns (raws: set<seq<nat>>)
    requires AreDrawable(parts) && AllPrefixFree(parts) && Fits(parts, draws)
    ensures AllGive(parts, Render(parts, draws), raws) && |raws| == Weight(parts)
  {
    raws := RawsFor(parts, draws);
    RawCount(parts, draws);
    forall r | Accepts(parts, r) && Render(parts, Reduced(parts, r)) == Render(parts, draws) ensures Reduced(parts, r) == draws {
      RenderIsInjective(parts, Reduced(parts, r), draws);
    }
  }

  // ---------------------------------------------------------------- the templates of a parsed wordlist

  datatype Place = WordPlace | DigitPlace | LowerPlace | MixedPlace

  predicate HasPlaces(segment: Segment, place: Place) {
    match place
    case WordPlace => segment.Words?
    case DigitPlace => segment.Digits?
    case LowerPlace => segment.Alnum? && !segment.upper
    case MixedPlace => segment.Alnum? && segment.upper
  }

  /** How many words or characters of a kind a template draws. */
  function Places(segments: seq<Segment>, place: Place): nat {
    if segments == [] then 0
    else (if HasPlaces(segments[0], place) then CountOf(segments[0]) else 0) + Places(segments[1..], place)
  }

  lemma {:induction false} PowOfSum(base: nat, n: nat, m: nat)
    ensures Pow(base, n + m) == Pow(base, n) * Pow(base, m)
    decreases n
  {
    if n > 0 {
      PowOfSum(base, n - 1, m);
      Associate(base, Pow(base, n - 1), Pow(base, m));
    }
  }

  /** The number of ids of a template that draws so many of each. */
  function IdCount(w: nat, d: nat, a: nat, m: nat): nat { Pow(WORDLIST_LEN, w) * Pow(10, d) * Pow(36, a) * Pow(62, m) }

  lemma Regroup(x: nat, w: nat, d: nat, a: nat, m: nat)
    ensures x * w * d * a * m == x * (w * d * a * m)
    ensures w * (x * d) * a * m == x * (w * d * a * m)
    ensures w * d * (x * a) * m == x * (w * d * a * m)
    ensures w * d * a * (x * m) == x * (w * d * a * m)
  {
  }

  lemma {:induction false} TemplateIdsByKind(segments: seq<Segment>)
    ensures TemplateIds(segments, WORDLIST_LEN)
         == IdCount(Places(segments, WordPlace), Places(segments, DigitPlace), Places(segments, LowerPlace), Places(segments, MixedPlace))
    decreases |segments|
  {
    if segments != [] {
      var rest := segments[1..];
      var w, d, a, m := Places(rest, WordPlace), Places(rest, DigitPlace), Places(rest, LowerPlace), Places(rest, MixedPlace);
      TemplateIdsByKind(rest);
      Regroup(SegmentIds(segments[0], WORDLIST_LEN), Pow(WORDLIST_LEN, w), Pow(10, d), Pow(36, a), Pow(62, m));
      match segments[0]
      case Literal(_) =>
      case Words(n) => PowOfSum(WORDLIST_LEN, n, w);
      case Digits(n) => PowOfSum(10, n, d);
      case Alnum(n, upper) =>
        if upper {
          PowOfSum(62, n, m);
        } else {
          PowOfSum(36, n, a);
        }
    }
  }

  lemma {:induction false} BothDrawable(a: seq<Part>, b: seq<Part>)
    requires AreDrawable(a) && AreDrawable(b)
    ensures AreDrawable(a + b)
    decreases |a|
  {
    if a == [] {
      assert a + b == b;
    } else {
      assert (a + b)[1..] == a[1..] + b && (a + b)[0] == a[0];
      BothDrawable(a[1..], b);
    }
  }

  lemma {:induction false} RepeatedIsDrawable(n: nat, alphabet: seq<Bytes>)
    requires 0 < |alphabet| < U32_LIMIT
    ensures AreDrawable(Repeat(n, alphabet)) && AreDrawable(Joined(n, alphabet))
    decreases n
  {
    if n > 0 {
      RepeatedIsDrawable(n - 1, alphabet);
      assert Repeat(n, alphabet)[1..] == Repeat(n - 1, alphabet);
      if n == 1 {
        assert Joined(1, alphabet)[1..] == [];
      } else {
        assert Joined(n, alphabet)[1..][1..] == Joined(n - 1, alphabet);
      }
    }
  }

  lemma {:induction false} TemplateIsDrawable(segments: seq<Segment>, words: seq<Bytes>)
    requires 0 < |words| < U32_LIMIT
    ensures AreDrawable(Parts(segments, words))
    decreases |segments|
  {
    if segments != [] {
      TemplateIsDrawable(segments[1..], words);
      SegmentIsDrawable(segments[0], words);
      BothDrawable(PartsOf(segments[0], words), Parts(segments[1..], words));
    }
  }

  lemma SegmentIsDrawable(segment: Segment, words: seq<Bytes>)
    requires 0 < |words| < U32_LIMIT
    ensures AreDrawable(PartsOf(segment, words))
  {
    match segment
    case Literal(text) => assert [Fixed(text)][1..] == [];
    case Words(n) => RepeatedIsDrawable(n, words);
    case Digits(n) => RepeatedIsDrawable(n, Characters(DigitChars()));
    case Alnum(n, upper) => RepeatedIsDrawable(n, Characters(if upper then MixedAlnum() else LowerAlnum()));
  }

  /** What a wordlist that was parsed promises. */
  ghost predicate IsParsed(lines: seq<Bytes>) {
    Checked(lines, |lines|) && |lines| == WORDLIST_LEN && PrefixFree(WordsOf(lines))
  }

  /** With a parsed wordlist a template of w words, d digits, a lowercase and m mixed characters has
      exactly 7776^w * 10^d * 36^a * 62^m ids. */
  lemma ParsedNumberOfIds(lines: seq<Bytes>, segments: seq<Segment>)
    requires IsParsed(lines)
    ensures var parts := Parts(segments, WordsOf(lines));
            |Rendered(parts, AllDraws(parts))|
              == IdCount(Places(segments, WordPlace), Places(segments, DigitPlace), Places(segments, LowerPlace), Places(segments, MixedPlace))
  {
    NumberOfIds(segments, WordsOf(lines));
    TemplateIdsByKind(segments);
  }

  /** And each of them is given by the same number of accepted vectors, fed to the generator as bytes. */
  lemma ParsedIdsAreAsLikely(lines: seq<Bytes>, segments: seq<Segment>, id: Bytes) returns (raws: set<seq<nat>>)
    requires IsParsed(lines)
    requires id in Rendered(Parts(segments, WordsOf(lines)), AllDraws(Parts(segments, WordsOf(lines))))
    ensures AreDrawable(Parts(segments, WordsOf(lines))) && NonEmpty(Parts(segments, WordsOf(lines)))
    ensures AllGive(Parts(segments, WordsOf(lines)), id, raws) && |raws| == Weight(Parts(segments, WordsOf(lines)))
    ensures forall r <- raws :: (forall i :: 0 <= i < |r| ==> r[i] < U32_LIMIT)
                                && Generated(Spelled(r), Parts(segments, WordsOf(lines))) == Ok((id, []))
  {
    var parts := Parts(segments, WordsOf(lines));
    TemplateIsDrawable(segments, WordsOf(lines));
    DrawableIsNonEmpty(parts);
    TemplateIsPrefixFree(segments, WordsOf(lines));
    var draws :| draws in AllDraws(parts) && Render(parts, draws) == id;
    raws := EachIdIsAsLikely(parts, draws);
    forall r <- raws ensures (forall i :: 0 <= i < |r| ==> r[i] < U32_LIMIT) && Generated(Spelled(r), parts) == Ok((id, [])) {
      AcceptedAreSmall(parts, r);
      AcceptedAreGenerated(parts, r, []);
      assert Spelled(r) + [] == Spelled(r);
    }
  }
}
