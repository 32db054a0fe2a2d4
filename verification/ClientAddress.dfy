/** The address a request is counted against. */
module ClientAddresses {
  import opened Basics
  import opened Scanning
  import opened RateLimits

  const MAX_FORWARDED_BYTES := 1024
  const MAX_FORWARDED_ENTRIES := 32
  const COMMA: byte := 0x2C

  /** Each entry as an address; none if one of them is not. */
  function Chain(entries: seq<Bytes>, parse: Bytes -> Option<Address>): Option<seq<Address>> {
    if entries == [] then Some([])
    else if parse(entries[0]).None? || Chain(entries[1..], parse).None? then None
    else Some([parse(entries[0]).value] + Chain(entries[1..], parse).value)
  }

  /** The last address that is not a trusted proxy's. */
  function LastUntrusted(chain: seq<Address>, trusted: Address -> bool): Option<Address>
    decreases |chain|
  {
    if chain == [] then None
    else if !trusted(chain[|chain| - 1]) then Some(chain[|chain| - 1])
    else LastUntrusted(chain[..|chain| - 1], trusted)
  }

  /** The peer, unless it is a trusted proxy with exactly one well-formed header: then the last
      untrusted address of its chain. `parse` trims an entry and reads it. */
  function ClientAddress(peer: Address, headers: seq<Bytes>, trusted: Address -> bool, parse: Bytes -> Option<Address>): Address {
    if !trusted(peer) || |headers| != 1 || |headers[0]| > MAX_FORWARDED_BYTES then peer
    else
      var entries := Split(headers[0], COMMA);
      if |entries| > MAX_FORWARDED_ENTRIES || Chain(entries, parse).None? then peer
      else match LastUntrusted(Chain(entries, parse).value, trusted)
        case Some(address) => address
        case None => peer
  }

  predicate IsReadable(header: Bytes, parse: Bytes -> Option<Address>) {
    |header| <= MAX_FORWARDED_BYTES && |Split(header, COMMA)| <= MAX_FORWARDED_ENTRIES && Chain(Split(header, COMMA), parse).Some?
  }

  /** What proxies further along append, one after another. */
  function Trail(proxies: seq<Bytes>): Bytes {
    if proxies == [] then [] else [COMMA] + proxies[0] + Trail(proxies[1..])
  }

  lemma {:induction false} SplitOfTrail(appended: Bytes, proxies: seq<Bytes>)
    requires Lacks(appended, COMMA) && forall i :: 0 <= i < |proxies| ==> Lacks(proxies[i], COMMA)
    ensures Split(appended + Trail(proxies), COMMA) == [appended] + proxies
    decreases |proxies|
  {
    NoSeparator(appended, COMMA);
    if proxies == [] {
      assert appended + Trail(proxies) == appended;
    } else {
      var rest := proxies[0] + Trail(proxies[1..]);
      SplitOfTrail(proxies[0], proxies[1..]);
      SplitOfBoth(appended, rest, COMMA);
      assert appended + Trail(proxies) == appended + [COMMA] + rest;
      assert proxies == [proxies[0]] + proxies[1..];
    }
  }

  lemma {:induction false} ChainOfBoth(a: seq<Bytes>, b: seq<Bytes>, parse: Bytes -> Option<Address>)
    ensures Chain(a + b, parse).Some? <==> Chain(a, parse).Some? && Chain(b, parse).Some?
    ensures Chain(a + b, parse).Some? ==> Chain(a + b, parse).value == Chain(a, parse).value + Chain(b, parse).value
    decreases |a|
  {
    if a == [] {
      assert a + b == b;
    } else {
      assert (a + b)[1..] == a[1..] + b && (a + b)[0] == a[0];
      ChainOfBoth(a[1..], b, parse);
    }
  }

  /** Every entry is a trusted proxy's address. */
  predicate AreTrusted(proxies: seq<Bytes>, trusted: Address -> bool, parse: Bytes -> Option<Address>) {
    forall i :: 0 <= i < |proxies| ==> parse(proxies[i]).Some? && trusted(parse(proxies[i]).value)
  }

  lemma {:induction false} ChainOfTrusted(proxies: seq<Bytes>, trusted: Address -> bool, parse: Bytes -> Option<Address>)
    requires AreTrusted(proxies, trusted, parse)
    ensures Chain(proxies, parse).Some?
    ensures forall i :: 0 <= i < |Chain(proxies, parse).value| ==> trusted(Chain(proxies, parse).value[i])
    decreases |proxies|
  {
    if proxies != [] {
      ChainOfTrusted(proxies[1..], trusted, parse);
    }
  }

  /** Walking from the right skips the trusted ones. */
  lemma {:induction false} TrustedAreSkipped(before: seq<Address>, address: Address, proxies: seq<Address>, trusted: Address -> bool)
    requires !trusted(address) && forall i :: 0 <= i < |proxies| ==> trusted(proxies[i])
    ensures LastUntrusted(before + [address] + proxies, trusted) == Some(address)
    decreases |proxies|
  {
    var chain := before + [address] + proxies;
    if proxies == [] {
      assert chain[|chain| - 1] == address;
    } else {
      var fewer := proxies[..|proxies| - 1];
      assert chain[..|chain| - 1] == before + [address] + fewer;
      TrustedAreSkipped(before, address, fewer, trusted);
    }
  }

  lemma EntriesOfHeader(front: Bytes, appended: Bytes, proxies: seq<Bytes>) returns (before: seq<Bytes>)
    requires front == [] || front[|front| - 1] == COMMA
    requires Lacks(appended, COMMA) && forall i :: 0 <= i < |proxies| ==> Lacks(proxies[i], COMMA)
    ensures Split(front + appended + Trail(proxies), COMMA) == before + [appended] + proxies
  {
    var rest := appended + Trail(proxies);
    SplitOfTrail(appended, proxies);
    if front == [] {
      before := [];
      assert front + appended + Trail(proxies) == rest;
    } else {
      var sent := front[..|front| - 1];
      before := Split(sent, COMMA);
      SplitOfBoth(sent, rest, COMMA);
      assert front == sent + [COMMA];
      assert front + appended + Trail(proxies) == front + rest;
      assert before + ([appended] + proxies) == before + [appended] + proxies;
    }
  }

  lemma WalkFindsIt(
    entries: seq<Bytes>, before: seq<Bytes>, appended: Bytes, proxies: seq<Bytes>,
    trusted: Address -> bool, parse: Bytes -> Option<Address>, address: Address)
    requires entries == before + [appended] + proxies && AreTrusted(proxies, trusted, parse)
    requires parse(appended) == Some(address) && !trusted(address)
    ensures Chain(entries, parse).Some? ==> LastUntrusted(Chain(entries, parse).value, trusted) == Some(address)
  {
    if Chain(entries, parse).Some? {
      ChainOfBoth(before + [appended], proxies, parse);
      ChainOfBoth(before, [appended], parse);
      ChainOfTrusted(proxies, trusted, parse);
      ChainOfOne([appended], address, parse);
      TrustedAreSkipped(Chain(before, parse).value, address, Chain(proxies, parse).value, trusted);
    }
  }

  lemma ChainOfOne(entries: seq<Bytes>, address: Address, parse: Bytes -> Option<Address>)
    requires |entries| == 1 && parse(entries[0]) == Some(address)
    ensures Chain(entries, parse) == Some([address])
  {
    var none: seq<Address> := [];
    assert entries[1..] == [] && Chain(entries[1..], parse) == Some(none);
    assert [address] + none == [address];
  }

  /** Whatever a client sends in front of the address its proxy appended, nothing included, and
      however many trusted proxies append their own after it, the request is counted against that
      address, or, exactly when the whole header is refused, against the peer. A client behind an
      untrusted peer is always counted against the peer. */
  lemma ClientCannotChooseItsAddress(
    peer: Address, front: Bytes, appended: Bytes, proxies: seq<Bytes>,
    trusted: Address -> bool, parse: Bytes -> Option<Address>, address: Address)
    requires front == [] || front[|front| - 1] == COMMA
    requires Lacks(appended, COMMA) && parse(appended) == Some(address) && !trusted(address)
    requires AreTrusted(proxies, trusted, parse) && forall i :: 0 <= i < |proxies| ==> Lacks(proxies[i], COMMA)
    ensures var header := front + appended + Trail(proxies);
            ClientAddress(peer, [header], trusted, parse)
            == if trusted(peer) && IsReadable(header, parse) then address else peer
  {
    var header := front + appended + Trail(proxies);
    var before := EntriesOfHeader(front, appended, proxies);
    WalkFindsIt(Split(header, COMMA), before, appended, proxies, trusted, parse, address);
  }

  // ---------------------------------------------------------------- every header

  predicate AllRead(entries: seq<Bytes>, parse: Bytes -> Option<Address>) {
    forall i :: 0 <= i < |entries| ==> parse(entries[i]).Some?
  }

  lemma {:induction false} ChainReadsAll(entries: seq<Bytes>, parse: Bytes -> Option<Address>)
    ensures Chain(entries, parse).Some? <==> AllRead(entries, parse)
    ensures Chain(entries, parse).Some? ==>
              && |Chain(entries, parse).value| == |entries|
              && forall i :: 0 <= i < |entries| ==> parse(entries[i]) == Some(Chain(entries, parse).value[i])
    decreases |entries|
  {
    if entries != [] {
      ChainReadsAll(entries[1..], parse);
      assert forall i :: 0 < i < |entries| ==> entries[i] == entries[1..][i - 1];
    }
  }

  /** `r` is the rightmost address that is not trusted, or the peer's if all are. */
  predicate IsRightmost(chain: seq<Address>, trusted: Address -> bool, peer: Address, r: Address) {
    || (r == peer && forall i :: 0 <= i < |chain| ==> trusted(chain[i]))
    || exists k :: 0 <= k < |chain| && chain[k] == r && !trusted(r) && forall i :: k < i < |chain| ==> trusted(chain[i])
  }

  lemma {:induction false} WalkIsRightmost(chain: seq<Address>, trusted: Address -> bool, peer: Address)
    ensures IsRightmost(chain, trusted, peer, match LastUntrusted(chain, trusted) case Some(a) => a case None => peer)
    decreases |chain|
  {
    if chain != [] {
      var last := |chain| - 1;
      if trusted(chain[last]) {
        WalkIsRightmost(chain[..last], trusted, peer);
        assert forall i :: 0 <= i < last ==> chain[i] == chain[..last][i];
      } else {
        assert chain[last] == LastUntrusted(chain, trusted).value;
      }
    }
  }

  /** Whatever arrives: a trusted peer's one header of at most 1024 bytes, read as at most 32 addresses
      separated by commas, decides; anything else is counted against the peer. */
  lemma AddressIsSpelled(
    peer: Address, headers: seq<Bytes>, entries: seq<Bytes>, chain: seq<Address>, trusted: Address -> bool, parse: Bytes -> Option<Address>)
    requires |headers| == 1 ==> entries != [] && AllLack(entries, ',' as int) && headers[0] == Joined(entries, ',' as int)
    requires AllRead(entries, parse) ==> |chain| == |entries| && forall i :: 0 <= i < |chain| ==> parse(entries[i]) == Some(chain[i])
    ensures var r := ClientAddress(peer, headers, trusted, parse);
            if trusted(peer) && |headers| == 1 && |headers[0]| <= 1024 && |entries| <= 32 && AllRead(entries, parse)
            then IsRightmost(chain, trusted, peer, r)
            else r == peer
  {
    ChainReadsAll(entries, parse);
    if |headers| == 1 {
      SplitIsUnjoined(headers[0], COMMA, entries);
      if AllRead(entries, parse) {
        assert Chain(entries, parse).value == chain;
        WalkIsRightmost(chain, trusted, peer);
      }
    }
  }
}
