/** Fixed-window rate limiting: a map of counters and a queue in which they expire. */
module RateLimits {
  import opened Basics

  datatype Bucket = Create | Retrieve

  /** An address, as a number. */
  type Address = nat

  datatype Key = Key(bucket: Bucket, client: Address)

  datatype Window = Window(started: int, count: nat)

  type Windows = map<Key, Window>

  datatype Expiring = Expiring(started: int, key: Key)

  datatype Limits = Limits(window: nat, createLimit: nat, retrieveLimit: nat, maxKeys: nat)

  /** What the configuration accepts. */
  predicate Configured(l: Limits) { l.window > 0 && l.createLimit > 0 && l.retrieveLimit > 0 && l.maxKeys > 0 }

  function LimitOf(l: Limits, bucket: Bucket): nat {
    match bucket case Create => l.createLimit case Retrieve => l.retrieveLimit
  }

  datatype State = State(windows: Windows, expiry: seq<Expiring>)

  // ---------------------------------------------------------------- one request

  /** The counters and the queue, once what has expired at the front is gone. */
  function Clean(s: State, window: nat, now: int): State
    decreases |s.expiry|
  {
    if s.expiry == [] || s.expiry[0].started + window > now then s
    else
      var front := s.expiry[0];
      var windows := if front.key in s.windows && s.windows[front.key].started == front.started
                     then s.windows - {front.key} else s.windows;
      Clean(State(windows, s.expiry[1..]), window, now)
  }

  /** Counts the request against its key. */
  function Counted(s: State, l: Limits, key: Key, now: int): (State, bool) {
    if key in s.windows then
      var w := s.windows[key];
      if w.count >= LimitOf(l, key.bucket) then (s, false)
      else (State(s.windows[key := Window(w.started, w.count + 1)], s.expiry), true)
    else if |s.windows| >= l.maxKeys then (s, false)
    else (State(s.windows[key := Window(now, 1)], s.expiry + [Expiring(now, key)]), true)
  }

  function Allowed(s: State, l: Limits, key: Key, now: int): (State, bool) { Counted(Clean(s, l.window, now), l, key, now) }

  // ---------------------------------------------------------------- the queue matches the map

  /** The queue's entries are the counters, one for one: taking each entry's counter away in turn
      finds it there, with the entry's start, and leaves nothing. */
  ghost predicate Matches(windows: Windows, expiry: seq<Expiring>)
    decreases |expiry|
  {
    if expiry == [] then windows == map[]
    else
      var front := expiry[0];
      && front.key in windows && windows[front.key].started == front.started
      && Matches(windows - {front.key}, expiry[1..])
  }

  ghost predicate WithinLimits(windows: Windows, l: Limits) {
    |windows| <= l.maxKeys && forall k :: k in windows ==> 1 <= windows[k].count <= LimitOf(l, k.bucket)
  }

  /** That is a bijection: as many entries as counters, one entry for each counter. */
  lemma {:induction false} MatchesIsBijection(windows: Windows, expiry: seq<Expiring>)
    requires Matches(windows, expiry)
    ensures |expiry| == |windows|
    ensures forall k :: k in windows <==> exists i :: 0 <= i < |expiry| && expiry[i].key == k
    ensures forall i :: 0 <= i < |expiry| ==> expiry[i].key in windows && windows[expiry[i].key].started == expiry[i].started
    decreases |expiry|
  {
    if expiry != [] {
      var front, rest := expiry[0].key, windows - {expiry[0].key};
      MatchesIsBijection(rest, expiry[1..]);
      assert windows.Keys == rest.Keys + {front};
      forall i | 0 <= i < |expiry| ensures expiry[i].key in windows && windows[expiry[i].key].started == expiry[i].started {
        assert i > 0 ==> expiry[i] == expiry[1..][i - 1];
      }
      forall k | k in windows ensures exists i :: 0 <= i < |expiry| && expiry[i].key == k {
        if k != front {
          var i :| 0 <= i < |expiry[1..]| && expiry[1..][i].key == k;
          assert expiry[i + 1].key == k;
        }
      }
    }
  }

  lemma {:induction false} CleanMatches(s: State, l: Limits, now: int)
    requires Matches(s.windows, s.expiry) && WithinLimits(s.windows, l)
    ensures var t := Clean(s, l.window, now); Matches(t.windows, t.expiry) && WithinLimits(t.windows, l)
    decreases |s.expiry|
  {
    if s.expiry != [] && s.expiry[0].started + l.window <= now {
      CleanMatches(State(s.windows - {s.expiry[0].key}, s.expiry[1..]), l, now);
    }
  }

  lemma {:induction false} CountMatches(windows: Windows, expiry: seq<Expiring>, key: Key, count: nat)
    requires Matches(windows, expiry) && key in windows
    ensures Matches(windows[key := Window(windows[key].started, count)], expiry)
    decreases |expiry|
  {
    var more := windows[key := Window(windows[key].started, count)];
    var front := expiry[0].key;
    if key == front {
      assert more - {front} == windows - {front};
    } else {
      CountMatches(windows - {front}, expiry[1..], key, count);
      assert more - {front} == (windows - {front})[key := Window(windows[key].started, count)];
    }
  }

  lemma {:induction false} PushMatches(windows: Windows, expiry: seq<Expiring>, key: Key, now: int)
    requires Matches(windows, expiry) && key !in windows
    ensures Matches(windows[key := Window(now, 1)], expiry + [Expiring(now, key)])
    decreases |expiry|
  {
    var more, queue := windows[key := Window(now, 1)], expiry + [Expiring(now, key)];
    if expiry == [] {
      assert more - {key} == map[] && queue[1..] == [];
    } else {
      var front := expiry[0].key;
      PushMatches(windows - {front}, expiry[1..], key, now);
      assert queue[1..] == expiry[1..] + [Expiring(now, key)];
      assert more - {front} == (windows - {front})[key := Window(now, 1)];
    }
  }

  lemma CountedMatches(s: State, l: Limits, key: Key, now: int)
    requires Configured(l) && Matches(s.windows, s.expiry) && WithinLimits(s.windows, l)
    ensures var t := Counted(s, l, key, now).0; Matches(t.windows, t.expiry) && WithinLimits(t.windows, l)
  {
    if key in s.windows {
      CountMatches(s.windows, s.expiry, key, s.windows[key].count + 1);
    } else {
      PushMatches(s.windows, s.expiry, key, now);
    }
  }

  /** Whatever the clock says, a request keeps the queue and the map in bijection, and the
      counters within the limits and no more than the cap. */
  lemma AllowKeepsTheQueue(s: State, l: Limits, key: Key, now: int)
    requires Configured(l) && Matches(s.windows, s.expiry) && WithinLimits(s.windows, l)
    ensures var t := Allowed(s, l, key, now).0; Matches(t.windows, t.expiry) && WithinLimits(t.windows, l)
  {
    CleanMatches(s, l, now);
    CountedMatches(Clean(s, l.window, now), l, key, now);
  }

  // ---------------------------------------------------------------- the limiter

  class RateLimiter {
    const limits: Limits
    var windows: Windows
    var expiry: seq<Expiring>

    ghost predicate Valid()
      reads this
    {
      Configured(limits) && Matches(windows, expiry) && WithinLimits(windows, limits)
    }

    function Contents(): State
      reads this
    {
      State(windows, expiry)
    }

    constructor (l: Limits)
      requires Configured(l)
      ensures Valid() && limits == l && Contents() == State(map[], [])
    {
      limits := l;
      windows := map[];
      expiry := [];
    }

    /** Counts a request and says whether it may proceed. */
    method Allow(bucket: Bucket, client: Address, now: int) returns (allowed: bool)
      requires Valid()
      modifies this
      ensures Valid() && (Contents(), allowed) == Allowed(old(Contents()), limits, Key(bucket, client), now)
    {
      var limit := LimitOf(limits, bucket);
      ghost var start := Contents();
      AllowKeepsTheQueue(start, limits, Key(bucket, client), now);
      while expiry != [] && expiry[0].started + limits.window <= now
        invariant Clean(Contents(), limits.window, now) == Clean(start, limits.window, now)
        decreases |expiry|
      {
        var front := expiry[0];
        expiry := expiry[1..];
        if front.key in windows && windows[front.key].started == front.started {
          windows := windows - {front.key};
        }
      }
      var key := Key(bucket, client);
      if key in windows {
        var w := windows[key];
        if w.count >= limit {
          return false;
        }
        windows := windows[key := Window(w.started, w.count + 1)];
        return true;
      }
      if |windows| >= limits.maxKeys {
        return false;
      }
      windows := windows[key := Window(now, 1)];
      expiry := expiry + [Expiring(now, key)];
      return true;
    }

    /** How many counters are tracked. */
    method Tracked() returns (n: nat)
      requires Valid()
      ensures n == |windows| <= limits.maxKeys
    {
      n := |windows|;
    }
  }

  // ---------------------------------------------------------------- against a naive limiter

  /** The windows that have not expired. */
  function Live(windows: Windows, window: nat, now: int): Windows {
    map k | k in windows && windows[k].started + window > now :: windows[k]
  }

  /** A limiter that drops every expired window first, and keeps no queue. */
  function NaiveAllowed(windows: Windows, l: Limits, key: Key, now: int): (Windows, bool) {
    var live := Live(windows, l.window, now);
    if key in live then
      if live[key].count >= LimitOf(l, key.bucket) then (live, false)
      else (live[key := Window(live[key].started, live[key].count + 1)], true)
    else if |live| >= l.maxKeys then (live, false)
    else (live[key := Window(now, 1)], true)
  }

  /** The queue is in start order, from `from` to no later than `now`. */
  ghost predicate InOrder(expiry: seq<Expiring>, from: int, now: int)
    decreases |expiry|
  {
    if expiry == [] then from <= now else from <= expiry[0].started && InOrder(expiry[1..], expiry[0].started, now)
  }

  lemma {:induction false} StartedFrom(windows: Windows, expiry: seq<Expiring>, from: int, now: int)
    requires Matches(windows, expiry) && InOrder(expiry, from, now)
    ensures from <= now && forall k :: k in windows ==> windows[k].started >= from
    decreases |expiry|
  {
    if expiry != [] {
      StartedFrom(windows - {expiry[0].key}, expiry[1..], expiry[0].started, now);
      forall k | k in windows ensures windows[k].started >= from {
        if k != expiry[0].key {
          assert k in windows - {expiry[0].key};
        }
      }
    }
  }

  lemma {:induction false} CleanIsLive(s: State, window: nat, from: int, last: int, now: int) returns (first: int)
    requires Matches(s.windows, s.expiry) && InOrder(s.expiry, from, last) && last <= now
    ensures Clean(s, window, now).windows == Live(s.windows, window, now)
    ensures InOrder(Clean(s, window, now).expiry, first, last)
    decreases |s.expiry|
  {
    if s.expiry == [] {
      first := from;
    } else if s.expiry[0].started + window > now {
      StartedFrom(s.windows, s.expiry, s.expiry[0].started, last);
      assert Live(s.windows, window, now) == s.windows;
      first := from;
    } else {
      var front := s.expiry[0].key;
      first := CleanIsLive(State(s.windows - {front}, s.expiry[1..]), window, s.expiry[0].started, last, now);
      assert Live(s.windows - {front}, window, now) == Live(s.windows, window, now);
    }
  }

  lemma {:induction false} OrderMore(expiry: seq<Expiring>, from: int, last: int, now: int, key: Key)
    requires InOrder(expiry, from, last) && last <= now
    ensures InOrder(expiry, from, now) && InOrder(expiry + [Expiring(now, key)], from, now)
    decreases |expiry|
  {
    var queue := expiry + [Expiring(now, key)];
    if expiry == [] {
      assert queue[1..] == [];
    } else {
      OrderMore(expiry[1..], expiry[0].started, last, now, key);
      assert queue[1..] == expiry[1..] + [Expiring(now, key)];
    }
  }

  /** With the queue in order, one request gets the naive answer and leaves the naive counters. */
  lemma AllowsNaively(s: State, l: Limits, key: Key, from: int, last: int, now: int) returns (first: int)
    requires Matches(s.windows, s.expiry) && InOrder(s.expiry, from, last) && last <= now
    ensures var (t, allowed) := Allowed(s, l, key, now);
            (t.windows, allowed) == NaiveAllowed(s.windows, l, key, now) && InOrder(t.expiry, first, now)
  {
    first := CleanIsLive(s, l.window, from, last, now);
    OrderMore(Clean(s, l.window, now).expiry, first, last, now, key);
  }

  datatype Request = Request(key: Key, now: int)

  /** A clock that never goes back, from `start` on. */
  predicate NeverBack(requests: seq<Request>, start: int) {
    requests == [] || (start <= requests[0].now && NeverBack(requests[1..], requests[0].now))
  }

  function Answers(s: State, l: Limits, requests: seq<Request>): seq<bool>
    decreases |requests|
  {
    if requests == [] then []
    else
      var (t, allowed) := Allowed(s, l, requests[0].key, requests[0].now);
      [allowed] + Answers(t, l, requests[1..])
  }

  function NaiveAnswers(windows: Windows, l: Limits, requests: seq<Request>): seq<bool>
    decreases |requests|
  {
    if requests == [] then []
    else
      var (t, allowed) := NaiveAllowed(windows, l, requests[0].key, requests[0].now);
      [allowed] + NaiveAnswers(t, l, requests[1..])
  }

  lemma {:induction false} RunsAgree(s: State, l: Limits, requests: seq<Request>, from: int, last: int)
    requires Configured(l) && Matches(s.windows, s.expiry) && WithinLimits(s.windows, l)
    requires InOrder(s.expiry, from, last) && NeverBack(requests, last)
    ensures Answers(s, l, requests) == NaiveAnswers(s.windows, l, requests)
    decreases |requests|
  {
    if requests != [] {
      var key, now := requests[0].key, requests[0].now;
      var first := AllowsNaively(s, l, key, from, last, now);
      AllowKeepsTheQueue(s, l, key, now);
      RunsAgree(Allowed(s, l, key, now).0, l, requests[1..], first, now);
    }
  }

  /** Over any run of requests whose clock never goes back, the limiter answers as the naive one. */
  lemma AnswersNaively(l: Limits, requests: seq<Request>, start: int)
    requires Configured(l) && NeverBack(requests, start)
    ensures Answers(State(map[], []), l, requests) == NaiveAnswers(map[], l, requests)
  {
    RunsAgree(State(map[], []), l, requests, start, start);
  }

  // ---------------------------------------------------------------- when a single answer is the naive one

  /** The queue has the key behind an entry that has not expired, or at one. */
  predicate StaysBehind(expiry: seq<Expiring>, key: Key, window: nat, now: int) {
    exists i, k :: 0 <= i <= k < |expiry| && expiry[k].key == key && expiry[i].started + window > now
  }

  /** The windows a call finds once the loop is over. */
  function Kept(s: State, window: nat, now: int): Windows {
    map k | k in s.windows && StaysBehind(s.expiry, k, window, now) :: s.windows[k]
  }

  lemma {:induction false} CleanKeeps(s: State, window: nat, now: int)
    requires Matches(s.windows, s.expiry)
    ensures Clean(s, window, now).windows == Kept(s, window, now)
    decreases |s.expiry|
  {
    if s.expiry == [] {
      assert Kept(s, window, now) == map[];
    } else if s.expiry[0].started + window > now {
      AllAreKept(s, window, now);
    } else {
      var rest := State(s.windows - {s.expiry[0].key}, s.expiry[1..]);
      CleanKeeps(rest, window, now);
      RestAreKept(s, rest, window, now);
    }
  }

  lemma PlaceOf(windows: Windows, expiry: seq<Expiring>, key: Key) returns (i: nat)
    requires Matches(windows, expiry) && key in windows
    ensures i < |expiry| && expiry[i] == Expiring(windows[key].started, key)
  {
    MatchesIsBijection(windows, expiry);
    i :| 0 <= i < |expiry| && expiry[i].key == key;
  }

  lemma StaysAt(expiry: seq<Expiring>, i: nat, k: nat, window: nat, now: int)
    requires i <= k < |expiry| && expiry[i].started + window > now
    ensures StaysBehind(expiry, expiry[k].key, window, now)
  {
  }

  lemma AllAreKept(s: State, window: nat, now: int)
    requires Matches(s.windows, s.expiry) && s.expiry != [] && s.expiry[0].started + window > now
    ensures Kept(s, window, now) == s.windows
  {
    forall key <- s.windows ensures StaysBehind(s.expiry, key, window, now) {
      var k := PlaceOf(s.windows, s.expiry, key);
      StaysAt(s.expiry, 0, k, window, now);
    }
  }

  lemma RestAreKept(s: State, rest: State, window: nat, now: int)
    requires Matches(s.windows, s.expiry) && s.expiry != [] && s.expiry[0].started + window <= now
    requires rest == State(s.windows - {s.expiry[0].key}, s.expiry[1..])
    ensures Kept(s, window, now) == Kept(rest, window, now)
  {
    FrontIsAlone(s, rest);
    forall key ensures key in Kept(s, window, now) <==> key in Kept(rest, window, now) {
      KeptPastFront(s.expiry, key, window, now);
    }
  }

  lemma FrontIsAlone(s: State, rest: State)
    requires Matches(s.windows, s.expiry) && s.expiry != [] && rest == State(s.windows - {s.expiry[0].key}, s.expiry[1..])
    ensures forall i :: 0 <= i < |s.expiry[1..]| ==> s.expiry[1..][i].key != s.expiry[0].key
  {
    MatchesIsBijection(rest.windows, rest.expiry);
  }

  /** An expired front keeps nothing. */
  lemma KeptPastFront(expiry: seq<Expiring>, key: Key, window: nat, now: int)
    requires expiry != [] && expiry[0].started + window <= now
    requires forall i :: 0 <= i < |expiry[1..]| ==> expiry[1..][i].key != expiry[0].key
    ensures StaysBehind(expiry, key, window, now) <==> key != expiry[0].key && StaysBehind(expiry[1..], key, window, now)
  {
    var rest := expiry[1..];
    if StaysBehind(expiry, key, window, now) {
      var i, k :| 0 <= i <= k < |expiry| && expiry[k].key == key && expiry[i].started + window > now;
      assert i > 0 && rest[k - 1] == expiry[k] && rest[i - 1] == expiry[i];
    }
    if StaysBehind(rest, key, window, now) {
      var i, k :| 0 <= i <= k < |rest| && rest[k].key == key && rest[i].started + window > now;
      assert expiry[k + 1] == rest[k] && expiry[i + 1] == rest[i];
    }
  }

  lemma LiveAreKept(s: State, window: nat, now: int)
    requires Matches(s.windows, s.expiry)
    ensures Live(s.windows, window, now).Keys <= Kept(s, window, now).Keys <= s.windows.Keys
  {
    forall key <- Live(s.windows, window, now) ensures StaysBehind(s.expiry, key, window, now) {
      var k := PlaceOf(s.windows, s.expiry, key);
      StaysAt(s.expiry, k, k, window, now);
    }
  }

  /** There is room among the windows that have not expired, but the key's own expired window is
      still there and full, or the windows that are still there leave the key no room. */
  predicate HeldUp(s: State, l: Limits, key: Key, now: int) {
    var kept, live := Kept(s, l.window, now), Live(s.windows, l.window, now);
    && |live| < l.maxKeys
    && if key in kept then key !in live && kept[key].count >= LimitOf(l, key.bucket) else |kept| >= l.maxKeys
  }

  /** With any clock, a request gets the naive answer if and only if it is not held up; and a
      request that is held up is refused, so the limiter never lets through what the naive one does
      not. */
  lemma AnswerIsNaive(s: State, l: Limits, key: Key, now: int)
    requires Matches(s.windows, s.expiry) && WithinLimits(s.windows, l)
    ensures Allowed(s, l, key, now).1 == NaiveAllowed(s.windows, l, key, now).1 <==> !HeldUp(s, l, key, now)
    ensures Allowed(s, l, key, now).1 ==> NaiveAllowed(s.windows, l, key, now).1
  {
    CleanKeeps(s, l.window, now);
    LiveAreKept(s, l.window, now);
    KeptAgainstLive(Clean(s, l.window, now), Kept(s, l.window, now), Live(s.windows, l.window, now), s.windows, l, key, now);
  }

  lemma KeptAgainstLive(t: State, kept: Windows, live: Windows, windows: Windows, l: Limits, key: Key, now: int)
    requires t.windows == kept && live.Keys <= kept.Keys <= windows.Keys && |windows| <= l.maxKeys
    requires key in live ==> live[key] == kept[key]
    ensures Counted(t, l, key, now).1 == LetsIn(live, l, key)
       <==> !(|live| < l.maxKeys && if key in kept then key !in live && kept[key].count >= LimitOf(l, key.bucket) else |kept| >= l.maxKeys)
    ensures Counted(t, l, key, now).1 ==> LetsIn(live, l, key)
  {
    FewerKeys(live, kept);
    FewerKeys(kept, windows);
    if key in kept && key !in live {
      SubsetIsSmaller(live.Keys + {key}, kept.Keys);
      assert |live.Keys + {key}| == |live| + 1;
    }
  }

  /** The naive answer, over the live windows. */
  predicate LetsIn(live: Windows, l: Limits, key: Key) {
    if key in live then live[key].count < LimitOf(l, key.bucket) else |live| < l.maxKeys
  }

  lemma FewerKeys(a: Windows, b: Windows)
    requires a.Keys <= b.Keys
    ensures |a| <= |b|
  {
    SubsetIsSmaller(a.Keys, b.Keys);
    assert |a.Keys| == |a| && |b.Keys| == |b|;
  }

  /** A clock that does go back can hide an expired counter behind one that started later: the
      second client's window of 10 started at 5, and at 15 it is still full. */
  lemma LateClockKeepsAnExpiredWindow()
    ensures var a, b, l := Key(Create, 1), Key(Create, 2), Limits(10, 1, 1, 5);
            var s1 := Allowed(State(map[], []), l, a, 10).0;
            var s2 := Allowed(s1, l, b, 5).0;
            !Allowed(s2, l, b, 15).1 && NaiveAllowed(s2.windows, l, b, 15).1
  {
    var a, b, l := Key(Create, 1), Key(Create, 2), Limits(10, 1, 1, 5);
    var s1 := State(map[a := Window(10, 1)], [Expiring(10, a)]);
    assert Allowed(State(map[], []), l, a, 10).0 == s1;
    var s2 := Allowed(s1, l, b, 5).0;
    assert |s1.windows| == 1;
    assert s2.windows == map[a := Window(10, 1), b := Window(5, 1)] && s2.expiry[0] == Expiring(10, a);
    assert Clean(s2, 10, 15) == s2;
    assert Live(s2.windows, 10, 15) == map[a := Window(10, 1)];
  }

  // ---------------------------------------------------------------- at most twice the limit

  /** A request that was let through: when, and in which window. */
  datatype Passed = Passed(key: Key, now: int, started: int)

  /** What a run of the naive limiter lets through. */
  function NaiveLog(windows: Windows, l: Limits, requests: seq<Request>): seq<Passed>
    decreases |requests|
  {
    if requests == [] then []
    else
      var key, now := requests[0].key, requests[0].now;
      var (t, allowed) := NaiveAllowed(windows, l, key, now);
      (if allowed then [Passed(key, now, t[key].started)] else []) + NaiveLog(t, l, requests[1..])
  }

  /** How many requests of `key` passed in the window that started at `started`. */
  function InWindow(log: seq<Passed>, key: Key, started: int): nat {
    if log == [] then 0
    else (if log[0].key == key && log[0].started == started then 1 else 0) + InWindow(log[1..], key, started)
  }

  /** How many passed from `from` on, for `length`. */
  function Within(log: seq<Passed>, key: Key, from: int, length: nat): nat {
    if log == [] then 0
    else (if log[0].key == key && from <= log[0].now < from + length then 1 else 0) + Within(log[1..], key, from, length)
  }

  predicate IsIn(p: Passed, key: Key, from: int, length: nat) { p.key == key && from <= p.now < from + length }

  /** No window started later than this. */
  ghost predicate StartedBy(windows: Windows, last: int) { forall k :: k in windows ==> windows[k].started <= last }

  /** A request that passes later: in the window its key has open, or in one that starts after that
      window is over. */
  ghost predicate IsLater(p: Passed, windows: Windows, window: nat, last: int) {
    && p.started <= p.now < p.started + window
    && ((p.key in windows && p.started == windows[p.key].started)
        || (last <= p.started && (p.key in windows ==> windows[p.key].started + window <= p.started)))
  }

  lemma NaiveStep(windows: Windows, l: Limits, key: Key, last: int, now: int)
    requires Configured(l) && StartedBy(windows, last) && last <= now && WithinLimits(windows, l)
    ensures var (t, allowed) := NaiveAllowed(windows, l, key, now);
            && StartedBy(t, now) && WithinLimits(t, l)
            && (allowed ==> key in t && IsLater(Passed(key, now, t[key].started), windows, l.window, last))
            && forall k :: k in t && (k in windows ==> t[k].started != windows[k].started) ==> k == key && t[k].started == now
  {
    var live := Live(windows, l.window, now);
    assert live.Keys <= windows.Keys;
    SubsetIsSmaller(live.Keys, windows.Keys);
  }

  /** What is later for the counters after a request is later for the ones before it. */
  lemma LaterStill(p: Passed, windows: Windows, l: Limits, key: Key, last: int, now: int)
    requires Configured(l) && StartedBy(windows, last) && last <= now && WithinLimits(windows, l)
    requires IsLater(p, NaiveAllowed(windows, l, key, now).0, l.window, now)
    ensures IsLater(p, windows, l.window, last)
  {
    NaiveStep(windows, l, key, last, now);
    var t := NaiveAllowed(windows, l, key, now).0;
    if p.key in windows && p.key !in t {
      assert p.key !in Live(windows, l.window, now);
    }
  }

  lemma {:induction false} LogIsLater(windows: Windows, l: Limits, requests: seq<Request>, last: int, i: nat)
    requires Configured(l) && StartedBy(windows, last) && WithinLimits(windows, l) && NeverBack(requests, last)
    requires i < |NaiveLog(windows, l, requests)|
    ensures IsLater(NaiveLog(windows, l, requests)[i], windows, l.window, last)
    decreases |requests|
  {
    var key, now := requests[0].key, requests[0].now;
    var (t, allowed) := NaiveAllowed(windows, l, key, now);
    NaiveStep(windows, l, key, last, now);
    if !allowed || i > 0 {
      var k := if allowed then i - 1 else i;
      LogIsLater(t, l, requests[1..], now, k);
      LaterStill(NaiveLog(t, l, requests[1..])[k], windows, l, key, last, now);
    }
  }

  /** Two requests of one key pass in the same window, or in windows that do not overlap. */
  ghost predicate Spaced(log: seq<Passed>, window: nat) {
    && (forall i :: 0 <= i < |log| ==> log[i].started <= log[i].now < log[i].started + window)
    && (forall i, j :: 0 <= i < j < |log| && log[i].key == log[j].key ==>
         log[i].started == log[j].started || log[i].started + window <= log[j].started)
  }

  lemma SpacedMore(p: Passed, log: seq<Passed>, window: nat)
    requires Spaced(log, window) && p.started <= p.now < p.started + window
    requires forall i :: 0 <= i < |log| && log[i].key == p.key ==> p.started == log[i].started || p.started + window <= log[i].started
    ensures Spaced([p] + log, window)
  {
  }

  lemma {:induction false} LogIsSpaced(windows: Windows, l: Limits, requests: seq<Request>, last: int)
    requires Configured(l) && StartedBy(windows, last) && WithinLimits(windows, l) && NeverBack(requests, last)
    ensures Spaced(NaiveLog(windows, l, requests), l.window)
    decreases |requests|
  {
    if requests != [] {
      var key, now := requests[0].key, requests[0].now;
      var (t, allowed) := NaiveAllowed(windows, l, key, now);
      NaiveStep(windows, l, key, last, now);
      LogIsSpaced(t, l, requests[1..], now);
      var rest := NaiveLog(t, l, requests[1..]);
      if allowed {
        forall i | 0 <= i < |rest| && rest[i].key == key
          ensures t[key].started == rest[i].started || t[key].started + l.window <= rest[i].started
        {
          LogIsLater(t, l, requests[1..], now, i);
        }
        SpacedMore(Passed(key, now, t[key].started), rest, l.window);
      } else {
        assert [] + rest == rest;
      }
    }
  }

  /** How many of a window's requests passed before. */
  function Before(windows: Windows, key: Key, started: int): nat {
    if key in windows && windows[key].started == started then windows[key].count else 0
  }

  lemma {:induction false} NoneStarts(log: seq<Passed>, key: Key, started: int)
    requires forall i :: 0 <= i < |log| && log[i].key == key ==> log[i].started != started
    ensures InWindow(log, key, started) == 0
    decreases |log|
  {
    if log != [] {
      NoneStarts(log[1..], key, started);
    }
  }

  /** A window that a request closed passes no more. */
  lemma ClosedPassesNone(t: Windows, l: Limits, requests: seq<Request>, now: int, key: Key, started: int)
    requires Configured(l) && StartedBy(t, now) && WithinLimits(t, l) && NeverBack(requests, now)
    requires started < now && (key in t ==> t[key].started != started)
    ensures InWindow(NaiveLog(t, l, requests), key, started) == 0
  {
    var log := NaiveLog(t, l, requests);
    forall i | 0 <= i < |log| && log[i].key == key ensures log[i].started != started {
      LogIsLater(t, l, requests, now, i);
    }
    NoneStarts(log, key, started);
  }

  lemma FirstInWindow(windows: Windows, l: Limits, requests: seq<Request>, last: int, key: Key, started: int)
    requires Configured(l) && StartedBy(windows, last) && WithinLimits(windows, l) && NeverBack(requests, last) && requests != []
    ensures var (t, allowed) := NaiveAllowed(windows, l, requests[0].key, requests[0].now);
            InWindow(NaiveLog(windows, l, requests), key, started)
              == (if allowed && requests[0].key == key && t[key].started == started then 1 else 0)
                 + InWindow(NaiveLog(t, l, requests[1..]), key, started)
  {
    var (t, allowed) := NaiveAllowed(windows, l, requests[0].key, requests[0].now);
    var rest := NaiveLog(t, l, requests[1..]);
    if allowed {
      var p := Passed(requests[0].key, requests[0].now, t[requests[0].key].started);
      assert ([p] + rest)[1..] == rest;
    } else {
      assert [] + rest == rest;
    }
  }

  /** No window of the naive limiter passes more than its limit. */
  lemma {:induction false} NaiveWindowIsLimited(windows: Windows, l: Limits, requests: seq<Request>, last: int, key: Key, started: int)
    requires Configured(l) && StartedBy(windows, last) && WithinLimits(windows, l) && NeverBack(requests, last)
    ensures InWindow(NaiveLog(windows, l, requests), key, started) + Before(windows, key, started) <= LimitOf(l, key.bucket)
    decreases |requests|
  {
    if requests != [] {
      var asked, now := requests[0].key, requests[0].now;
      var (t, allowed) := NaiveAllowed(windows, l, asked, now);
      NaiveStep(windows, l, asked, last, now);
      NaiveWindowIsLimited(t, l, requests[1..], now, key, started);
      FirstInWindow(windows, l, requests, last, key, started);
      if Before(windows, key, started) > 0 && (key in t ==> t[key].started != started) {
        assert windows[key].started + l.window <= now;
        ClosedPassesNone(t, l, requests[1..], now, key, started);
      }
    }
  }

  /** Within one interval, everything passes in one of two windows. */
  lemma TwoWindows(log: seq<Passed>, key: Key, from: int, window: nat) returns (a: int, b: int)
    requires Spaced(log, window)
    ensures forall i :: 0 <= i < |log| && IsIn(log[i], key, from, window) ==> log[i].started == a || log[i].started == b
  {
    if i :| 0 <= i < |log| && IsIn(log[i], key, from, window) {
      a := log[i].started;
      b := a;
      if j :| 0 <= j < |log| && IsIn(log[j], key, from, window) && log[j].started != a {
        b := log[j].started;
        forall k | 0 <= k < |log| && IsIn(log[k], key, from, window) ensures log[k].started == a || log[k].started == b {
          assert k != i && k != j ==> Apart(log[k], log[i], window) || log[k].started == a;
          assert k != i && k != j ==> Apart(log[k], log[j], window) || log[k].started == b;
        }
      }
    } else {
      a, b := 0, 0;
    }
  }

  predicate Apart(p: Passed, q: Passed, window: nat) { p.started + window <= q.started || q.started + window <= p.started }

  lemma {:induction false} CountsInTwo(log: seq<Passed>, key: Key, from: int, window: nat, a: int, b: int)
    requires forall i :: 0 <= i < |log| && IsIn(log[i], key, from, window) ==> log[i].started == a || log[i].started == b
    ensures Within(log, key, from, window) <= InWindow(log, key, a) + InWindow(log, key, b)
    decreases |log|
  {
    if log != [] {
      assert forall i :: 0 <= i < |log[1..]| ==> log[1..][i] == log[i + 1];
      CountsInTwo(log[1..], key, from, window, a, b);
      assert IsIn(log[0], key, from, window) ==> log[0].started == a || log[0].started == b;
    }
  }

  // ---------------------------------------------------------------- the same of the limiter itself

  /** What a run of the limiter lets through. */
  function Log(s: State, l: Limits, requests: seq<Request>): seq<Passed>
    decreases |requests|
  {
    if requests == [] then []
    else
      var key, now := requests[0].key, requests[0].now;
      var (t, allowed) := Allowed(s, l, key, now);
      (if allowed then [Passed(key, now, t.windows[key].started)] else []) + Log(t, l, requests[1..])
  }

  /** With a clock that never goes back it is what the naive limiter lets through, in the same windows. */
  lemma {:induction false} LogsAgree(s: State, l: Limits, requests: seq<Request>, from: int, last: int)
    requires Configured(l) && Matches(s.windows, s.expiry) && WithinLimits(s.windows, l)
    requires InOrder(s.expiry, from, last) && NeverBack(requests, last)
    ensures Log(s, l, requests) == NaiveLog(s.windows, l, requests)
    decreases |requests|
  {
    if requests != [] {
      var key, now := requests[0].key, requests[0].now;
      var first := AllowsNaively(s, l, key, from, last, now);
      AllowKeepsTheQueue(s, l, key, now);
      LogsAgree(Allowed(s, l, key, now).0, l, requests[1..], first, now);
    }
  }

  lemma {:induction false} StartedTo(windows: Windows, expiry: seq<Expiring>, from: int, last: int)
    requires Matches(windows, expiry) && InOrder(expiry, from, last)
    ensures StartedBy(windows, last)
    decreases |expiry|
  {
    if expiry != [] {
      var rest := windows - {expiry[0].key};
      StartedTo(rest, expiry[1..], expiry[0].started, last);
      StartedFrom(rest, expiry[1..], expiry[0].started, last);
      forall k | k in windows ensures windows[k].started <= last {
        assert k != expiry[0].key ==> k in rest;
      }
    }
  }

  /** No window lets more requests of a key pass than its bucket's limit, those before included. */
  lemma WindowIsLimited(s: State, l: Limits, requests: seq<Request>, from: int, last: int, key: Key, started: int)
    requires Configured(l) && Matches(s.windows, s.expiry) && WithinLimits(s.windows, l)
    requires InOrder(s.expiry, from, last) && NeverBack(requests, last)
    ensures InWindow(Log(s, l, requests), key, started) + Before(s.windows, key, started)
              <= if key.bucket.Create? then l.createLimit else l.retrieveLimit
  {
    LogsAgree(s, l, requests, from, last);
    StartedTo(s.windows, s.expiry, from, last);
    NaiveWindowIsLimited(s.windows, l, requests, last, key, started);
  }

  /** How many of the open window's requests may have passed from `from` on. */
  function OpenCount(windows: Windows, key: Key, from: int, window: nat): nat {
    if key in windows && from < windows[key].started + window then windows[key].count else 0
  }

  /** Within an interval that the key's open window reaches into, everything passes in that window or
      in one later one. */
  lemma OpenAndOne(log: seq<Passed>, key: Key, from: int, window: nat, open: int) returns (b: int)
    requires Spaced(log, window) && from < open + window
    requires forall i :: 0 <= i < |log| && log[i].key == key ==> log[i].started == open || open + window <= log[i].started
    ensures b != open
    ensures forall i :: 0 <= i < |log| && IsIn(log[i], key, from, window) ==> log[i].started == open || log[i].started == b
  {
    if i :| 0 <= i < |log| && IsIn(log[i], key, from, window) && log[i].started != open {
      b := log[i].started;
      forall k | 0 <= k < |log| && IsIn(log[k], key, from, window) ensures log[k].started == open || log[k].started == b {
        if log[k].started != open {
          LaterTogether(log[k], log[i], key, from, window);
        }
      }
    } else {
      b := open + 1;
    }
  }

  /** Two requests of an interval, in windows that start inside it, passed in the same one. */
  lemma LaterTogether(p: Passed, q: Passed, key: Key, from: int, window: nat)
    requires IsIn(p, key, from, window) && IsIn(q, key, from, window) && from < p.started <= p.now && from < q.started <= q.now
    requires p.started == q.started || Apart(p, q, window)
    ensures p.started == q.started
  {
  }

  lemma OpenOrLater(s: State, l: Limits, requests: seq<Request>, last: int, key: Key)
    requires Configured(l) && StartedBy(s.windows, last) && WithinLimits(s.windows, l) && NeverBack(requests, last) && key in s.windows
    ensures var log, open := NaiveLog(s.windows, l, requests), s.windows[key].started;
            forall i :: 0 <= i < |log| && log[i].key == key ==> log[i].started == open || open + l.window <= log[i].started
  {
    var log := NaiveLog(s.windows, l, requests);
    forall i | 0 <= i < |log| && log[i].key == key
      ensures log[i].started == s.windows[key].started || s.windows[key].started + l.window <= log[i].started
    {
      LogIsLater(s.windows, l, requests, last, i);
    }
  }

  /** From any ordered state: an interval as long as the window, closed on the left and open on the
      right, lets at most twice the limit through for one bucket and address, with whatever the open
      window it reaches into had let through before. */
  lemma AtMostTwiceTheLimit(s: State, l: Limits, requests: seq<Request>, first: int, last: int, key: Key, from: int)
    requires Configured(l) && Matches(s.windows, s.expiry) && WithinLimits(s.windows, l)
    requires InOrder(s.expiry, first, last) && NeverBack(requests, last)
    ensures Within(Log(s, l, requests), key, from, l.window) + OpenCount(s.windows, key, from, l.window)
              <= 2 * if key.bucket.Create? then l.createLimit else l.retrieveLimit
  {
    var log := Log(s, l, requests);
    LogsAgree(s, l, requests, first, last);
    StartedTo(s.windows, s.expiry, first, last);
    LogIsSpaced(s.windows, l, requests, last);
    var a, b: int;
    if OpenCount(s.windows, key, from, l.window) > 0 {
      a := s.windows[key].started;
      OpenOrLater(s, l, requests, last, key);
      b := OpenAndOne(log, key, from, l.window, a);
    } else {
      a, b := TwoWindows(log, key, from, l.window);
    }
    CountsInTwo(log, key, from, l.window, a, b);
    WindowIsLimited(s, l, requests, first, last, key, a);
    WindowIsLimited(s, l, requests, first, last, key, b);
  }

  // ---------------------------------------------------------------- how many requests a window takes

  lemma {:induction false} CleanKeepsOpen(s: State, window: nat, now: int, key: Key)
    requires key in s.windows && now < s.windows[key].started + window
    ensures var t := Clean(s, window, now).windows; key in t && t[key] == s.windows[key]
    decreases |s.expiry|
  {
    if s.expiry != [] && s.expiry[0].started + window <= now {
      var front := s.expiry[0];
      var windows := if front.key in s.windows && s.windows[front.key].started == front.started
                     then s.windows - {front.key} else s.windows;
      CleanKeepsOpen(State(windows, s.expiry[1..]), window, now, key);
    }
  }

  lemma {:induction false} CleanAddsNothing(s: State, window: nat, now: int)
    ensures Clean(s, window, now).windows.Keys <= s.windows.Keys
    decreases |s.expiry|
  {
    if s.expiry != [] && s.expiry[0].started + window <= now {
      var front := s.expiry[0];
      var windows := if front.key in s.windows && s.windows[front.key].started == front.started
                     then s.windows - {front.key} else s.windows;
      CleanAddsNothing(State(windows, s.expiry[1..]), window, now);
    }
  }

  /** All of one key, and all before the window that starts at `start` is over. */
  predicate InOneWindow(requests: seq<Request>, key: Key, start: int, window: nat) {
    forall i :: 0 <= i < |requests| ==> requests[i].key == key && start <= requests[i].now < start + window
  }

  lemma {:induction false} OpenWindowTakes(s: State, l: Limits, requests: seq<Request>, key: Key, i: nat)
    requires key in s.windows && InOneWindow(requests, key, s.windows[key].started, l.window) && i < |requests|
    ensures |Answers(s, l, requests)| == |requests|
    ensures Answers(s, l, requests)[i]
       <==> s.windows[key].count + i < if key.bucket.Create? then l.createLimit else l.retrieveLimit
    decreases |requests|
  {
    CleanKeepsOpen(s, l.window, requests[0].now, key);
    var t := Allowed(s, l, key, requests[0].now).0;
    assert InOneWindow(requests[1..], key, t.windows[key].started, l.window) by {
      assert forall k :: 0 <= k < |requests[1..]| ==> requests[1..][k] == requests[k + 1];
    }
    if |requests| > 1 {
      OpenWindowTakes(t, l, requests[1..], key, if i > 0 then i - 1 else 0);
    }
  }

  /** Of any number of requests of one new key, inside one window and with room for the key, exactly
      the first ones pass, as many as its bucket's limit. */
  lemma NewKeyTakes(s: State, l: Limits, requests: seq<Request>, key: Key, i: nat)
    requires Configured(l) && key !in s.windows && |s.windows| < l.maxKeys
    requires requests != [] && InOneWindow(requests, key, requests[0].now, l.window) && i < |requests|
    ensures |Answers(s, l, requests)| == |requests|
    ensures Answers(s, l, requests)[i] <==> i < if key.bucket.Create? then l.createLimit else l.retrieveLimit
  {
    var now := requests[0].now;
    CleanAddsNothing(s, l.window, now);
    FewerKeys(Clean(s, l.window, now).windows, s.windows);
    var t := Allowed(s, l, key, now).0;
    assert t.windows[key] == Window(now, 1);
    assert InOneWindow(requests[1..], key, now, l.window) by {
      assert forall k :: 0 <= k < |requests[1..]| ==> requests[1..][k] == requests[k + 1];
    }
    if |requests| > 1 {
      OpenWindowTakes(t, l, requests[1..], key, if i > 0 then i - 1 else 0);
    }
  }
}
