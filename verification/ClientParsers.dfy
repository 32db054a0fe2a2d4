/** Parsers with the limits of the two clients' libraries, which do not read every value back: the
    Rust one refuses deep nesting and numbers beyond 64 bits, the browser's rounds numbers to
    doubles. Both read what the decoders need. */
module ClientParsers {
  import opened Basics
  import opened Json
  import opened Protocol
  import opened Payloads
  import opened Envelope
  import opened PayloadBrowser
  import PayloadDecoder
  import Base64

  const MAX_DEPTH := 127

  /** Nested at most `depth` deep, with no number above `max`. */
  predicate Within(j: Json, depth: nat, max: nat)
    decreases j, 1
  {
    match j
    case Num(n) => n <= max
    case Arr(items) => depth > 0 && ItemsWithin(items, depth - 1, max)
    case Obj(members) => depth > 0 && MembersWithin(members, depth - 1, max)
    case _ => true
  }

  predicate ItemsWithin(items: seq<Json>, depth: nat, max: nat)
    decreases items, 0
  {
    items == [] || (Within(items[0], depth, max) && ItemsWithin(items[1..], depth, max))
  }

  predicate MembersWithin(members: seq<Member>, depth: nat, max: nat)
    decreases members, 0
  {
    members == [] || (Within(members[0].value, depth, max) && MembersWithin(members[1..], depth, max))
  }

  /** Every number rounded. */
  function Rounded(j: Json, round: nat -> nat): Json
    decreases j, 1
  {
    match j
    case Num(n) => Num(round(n))
    case Arr(items) => Arr(RoundedItems(items, round))
    case Obj(members) => Obj(RoundedMembers(members, round))
    case _ => j
  }

  function RoundedItems(items: seq<Json>, round: nat -> nat): seq<Json>
    decreases items, 0
  {
    if items == [] then [] else [Rounded(items[0], round)] + RoundedItems(items[1..], round)
  }

  function RoundedMembers(members: seq<Member>, round: nat -> nat): seq<Member>
    decreases members, 0
  {
    if members == [] then []
    else [Member(members[0].key, Rounded(members[0].value, round))] + RoundedMembers(members[1..], round)
  }

  function RustParse(s: Bytes): Option<Json> {
    if Parse(s).Some? && Within(Parse(s).value, MAX_DEPTH, U64_LIMIT - 1) then Parse(s) else None
  }

  function JsParser(round: nat -> nat): Bytes -> Option<Json> {
    (s: Bytes) => if Parse(s).None? then None else Some(Rounded(Parse(s).value, round))
  }

  // ---------------------------------------------------------------- what they leave alone

  lemma {:induction false} RoundedStays(j: Json, round: nat -> nat, depth: nat)
    requires Doubles(round) && Within(j, depth, MAX_SAFE_INTEGER)
    ensures Rounded(j, round) == j
    decreases j, 1
  {
    match j
    case Arr(items) => ItemsStay(items, round, depth - 1);
    case Obj(members) => MembersStay(members, round, depth - 1);
    case _ =>
  }

  lemma {:induction false} ItemsStay(items: seq<Json>, round: nat -> nat, depth: nat)
    requires Doubles(round) && ItemsWithin(items, depth, MAX_SAFE_INTEGER)
    ensures RoundedItems(items, round) == items
    decreases items, 0
  {
    if items != [] {
      RoundedStays(items[0], round, depth);
      ItemsStay(items[1..], round, depth);
    }
  }

  lemma {:induction false} MembersStay(members: seq<Member>, round: nat -> nat, depth: nat)
    requires Doubles(round) && MembersWithin(members, depth, MAX_SAFE_INTEGER)
    ensures RoundedMembers(members, round) == members
    decreases members, 0
  {
    if members != [] {
      RoundedStays(members[0].value, round, depth);
      MembersStay(members[1..], round, depth);
    }
  }

  /** Wider limits hold too. */
  lemma {:induction false} WithinMore(j: Json, depth: nat, max: nat, deeper: nat, larger: nat)
    requires Within(j, depth, max) && depth <= deeper && max <= larger
    ensures Within(j, deeper, larger)
    decreases j, 1
  {
    match j
    case Arr(items) => ItemsWithinMore(items, depth - 1, max, deeper - 1, larger);
    case Obj(members) => MembersWithinMore(members, depth - 1, max, deeper - 1, larger);
    case _ =>
  }

  lemma {:induction false} ItemsWithinMore(items: seq<Json>, depth: nat, max: nat, deeper: nat, larger: nat)
    requires ItemsWithin(items, depth, max) && depth <= deeper && max <= larger
    ensures ItemsWithin(items, deeper, larger)
    decreases items, 0
  {
    if items != [] {
      WithinMore(items[0], depth, max, deeper, larger);
      ItemsWithinMore(items[1..], depth, max, deeper, larger);
    }
  }

  lemma {:induction false} MembersWithinMore(members: seq<Member>, depth: nat, max: nat, deeper: nat, larger: nat)
    requires MembersWithin(members, depth, max) && depth <= deeper && max <= larger
    ensures MembersWithin(members, deeper, larger)
    decreases members, 0
  {
    if members != [] {
      WithinMore(members[0].value, depth, max, deeper, larger);
      MembersWithinMore(members[1..], depth, max, deeper, larger);
    }
  }

  // ---------------------------------------------------------------- canonical texts are within the limits

  lemma {:induction false} FlatMembersWithin(members: seq<Member>, depth: nat, max: nat)
    requires forall i :: 0 <= i < |members| ==> Within(members[i].value, depth, max)
    ensures MembersWithin(members, depth, max)
    decreases |members|
  {
    if members != [] {
      FlatMembersWithin(members[1..], depth, max);
    }
  }

  lemma {:induction false} FilesWithin(metas: seq<FileMeta>)
    requires forall i :: 0 <= i < |metas| ==> metas[i].byteLength <= MAX_SAFE_INTEGER
    ensures ItemsWithin(FileTrees(metas), 1, MAX_SAFE_INTEGER)
    decreases |metas|
  {
    if metas != [] {
      FlatMembersWithin(FileTree(metas[0]).members, 0, MAX_SAFE_INTEGER);
      FilesWithin(metas[1..]);
    }
  }

  lemma ManifestWithin(text: Option<Bytes>, metas: seq<FileMeta>)
    requires IsDeclarable(text, metas)
    ensures Within(ManifestTree(text, metas), 3, MAX_SAFE_INTEGER)
  {
    FilesWithin(metas);
    if text.Some? {
      FlatMembersWithin(TextTree(text).members, 1, MAX_SAFE_INTEGER);
    }
    FlatMembersWithin(ManifestTree(text, metas).members, 2, MAX_SAFE_INTEGER);
  }

  lemma HeaderWithin(h: OuterHeader)
    requires IsAcceptedKdfIterations(h.kdfIterations)
    ensures Within(Obj(HeaderMembers(h)), 1, MAX_SAFE_INTEGER)
  {
    var members := HeaderMembers(h);
    forall i | 0 <= i < |members| ensures Within(members[i].value, 0, MAX_SAFE_INTEGER) {
      assert members[i].value == HeaderValues(h)[i];
    }
    FlatMembersWithin(members, 0, MAX_SAFE_INTEGER);
  }

  // ---------------------------------------------------------------- so both parsers serve

  lemma RustParserServes()
    ensures ReadsManifests(RustParse) && ReadsHeaders(RustParse)
  {
    ParseInverts();
    InverterReadsManifests(Parse);
    InverterReadsHeaders(Parse);
    forall text: Option<Bytes>, metas: seq<FileMeta> | IsDeclarable(text, metas)
      ensures RustParse(ManifestBytes(text, metas)) == Some(ManifestTree(text, metas))
    {
      ManifestWithin(text, metas);
      WithinMore(ManifestTree(text, metas), 3, MAX_SAFE_INTEGER, MAX_DEPTH, U64_LIMIT - 1);
    }
    forall h: OuterHeader | Shaped(h) && IsAcceptedKdfIterations(h.kdfIterations)
      ensures RustParse(ToJson(h)) == Some(Obj(HeaderMembers(h)))
    {
      HeaderWithin(h);
      WithinMore(Obj(HeaderMembers(h)), 1, MAX_SAFE_INTEGER, MAX_DEPTH, U64_LIMIT - 1);
    }
  }

  lemma JsParserServes(round: nat -> nat)
    requires Doubles(round)
    ensures ReadsManifests(JsParser(round)) && ReadsHeaders(JsParser(round))
  {
    ParseInverts();
    InverterReadsManifests(Parse);
    InverterReadsHeaders(Parse);
    forall text: Option<Bytes>, metas: seq<FileMeta> | IsDeclarable(text, metas)
      ensures JsParser(round)(ManifestBytes(text, metas)) == Some(ManifestTree(text, metas))
    {
      ManifestWithin(text, metas);
      RoundedStays(ManifestTree(text, metas), round, 3);
    }
    forall h: OuterHeader | Shaped(h) && IsAcceptedKdfIterations(h.kdfIterations)
      ensures JsParser(round)(ToJson(h)) == Some(Obj(HeaderMembers(h)))
    {
      HeaderWithin(h);
      RoundedStays(Obj(HeaderMembers(h)), round, 1);
    }
  }

  /** With these parsers, whose readings differ, the two clients still accept the same payloads. */
  lemma LimitedClientsAgreeOnPayloads(round: nat -> nat, bytes: Bytes)
    requires Doubles(round) && |bytes| <= MAX_SAFE_INTEGER
    ensures var (r, j) := (PayloadDecoder.Decode(RustParse, bytes), PayloadBrowser.Decode(JsParser(round), round, bytes));
            (r.Ok? <==> j.Ok?) && (r.Ok? ==> r == j)
  {
    RustParserServes();
    JsParserServes(round);
    ClientsAgreeOnPayloads(RustParse, JsParser(round), round, bytes);
  }

  /** And the same blobs. */
  lemma LimitedClientsAgreeOnEnvelopes(round: nat -> nat, blob: Bytes)
    requires Doubles(round)
    ensures var (r, j) := (DecodeOuter(RustParse, Base64.Decode, blob), JsDecodeOuter(JsParser(round), Base64.Decode, blob));
            (r.Ok? <==> j.Ok?) && (r.Ok? ==> r == j)
  {
    RustParserServes();
    JsParserServes(round);
    forall b: Bytes ensures Base64.Decode(Base64.Encode(b)) == Some(b) {
      Base64.DecodeUndoesEncode(b);
    }
    ClientsAgreeOnEnvelopes(RustParse, Base64.Decode, JsParser(round), Base64.Decode, blob);
  }
}
