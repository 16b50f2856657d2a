/** What the counters decide, in terms of the history: of the connections that are live, and of the
    earlier requests of an address. */
module SecurityDecisions {
  import opened Octets
  import opened Security

  // ----- openings

  /** The decision is right when `all` connections are open and `own` of them are of the address. */
  predicate RightDecision(d: Decision, listing: Listing, limits: Limits, all: nat, own: nat) {
    && (d == BlockedIp <==> listing == Blocklisted)
    && (d == NotOnAllowlist <==> listing == NotAllowlisted)
    && (d == GlobalLimit <==> listing == Admitted && all >= limits.globalConnections)
    && (d == PerIpLimit <==>
          listing == Admitted && all < limits.globalConnections && own >= limits.perIpConnections)
    && (d == Allowed <==> listing == Admitted && all < limits.globalConnections && own < limits.perIpConnections)
  }

  /** After any openings and matching closes: an opening is decided by how many connections are live,
      and how many of them are of its address; each close of the empty address counts as one that
      stays open. Only an opening that is allowed changes a count, by one. */
  lemma OpeningsAreDecided(events: seq<Event>, ip: Bytes, listing: Listing, limits: Limits)
    requires Matched(OPENING_DAY, events)
    ensures var l, leaked := Run(OPENING_DAY, events), NamelessCloses(events);
      var (next, d) := TryOpen(l.counters, ip, listing, limits);
      && RightDecision(d, listing, limits, |l.live| + leaked, l.live[ip] + if ip == [] then leaked else 0)
      && (d != Allowed ==>
            next.total == l.counters.total && forall other :: CountOf(next, other) == CountOf(l.counters, other))
      && (d == Allowed ==>
            && next.total == l.counters.total + 1
            && forall other ::
                 CountOf(next, other) == CountOf(l.counters, other) + if other == ip then 1 else 0)
  {
    hide Run, Matched, NamelessCloses;
    ConnectionsAreAccounted(events);
  }

  /** Without nameless closes, the decision is about the live connections and nothing else. */
  lemma LiveConnectionsDecide(events: seq<Event>, ip: Bytes, listing: Listing, limits: Limits)
    requires Matched(OPENING_DAY, events) && NamelessCloses(events) == 0
    ensures var l := Run(OPENING_DAY, events);
      var d := TryOpen(l.counters, ip, listing, limits).1;
      && (d == Allowed <==>
            listing == Admitted && |l.live| < limits.globalConnections && l.live[ip] < limits.perIpConnections)
      && (d == BlockedIp <==> listing == Blocklisted)
      && (d == NotOnAllowlist <==> listing == NotAllowlisted)
      && (d == GlobalLimit <==> listing == Admitted && |l.live| >= limits.globalConnections)
      && (d == PerIpLimit <==>
            && listing == Admitted && |l.live| < limits.globalConnections
            && l.live[ip] >= limits.perIpConnections)
  {
    hide Run, Matched, NamelessCloses, TryOpen;
    OpeningsAreDecided(events, ip, listing, limits);
  }

  // The same, without the counters: the connections that are live after a run can be found from
  // the events alone.

  function Living(live: multiset<Bytes>, events: seq<Event>): multiset<Bytes>
    decreases |events|
  {
    if events == [] then live
    else
      Living(match events[0]
             case Closing(ip) => live - multiset{ip}
             case Opening(ip, listing, limits) =>
               if listing == Admitted && |live| < limits.globalConnections && live[ip] < limits.perIpConnections
               then live + multiset{ip} else live,
             events[1..])
  }

  lemma {:induction false} LivingFrom(l: Ledger, events: seq<Event>)
    requires Accounts(l, 0) && Matched(l, events) && NamelessCloses(events) == 0
    ensures Run(l, events).live == Living(l.live, events)
    decreases |events|
  {
    if events != [] {
      var e := events[0];
      StepAccounts(l, e, 0);
      if e.Opening? {
        assert CountOf(l.counters, e.ip) == l.live[e.ip];
      }
      hide Accounts;
      LivingFrom(Step(l, e), events[1..]);
    }
  }

  /** The counters implement the rule on the live connections. */
  lemma CountersImplementRule(events: seq<Event>)
    requires Matched(OPENING_DAY, events) && NamelessCloses(events) == 0
    ensures var counters, live := Run(OPENING_DAY, events).counters, Living(multiset{}, events);
      counters.total == |live| && forall ip :: CountOf(counters, ip) == live[ip]
  {
    assert Accounts(OPENING_DAY, 0);
    hide Run, Matched, NamelessCloses, Living, Step;
    LivingFrom(OPENING_DAY, events);
    ConnectionsAreAccounted(events);
  }

  // ----- requests

  /** The clock readings at the requests of an address. */
  function TimesOf(requests: seq<Request>, ip: Bytes): seq<Time> {
    if requests == [] then []
    else
      var last := requests[|requests| - 1];
      TimesOf(requests[..|requests| - 1], ip) + if last.ip == ip then [last.now] else []
  }

  /** A reading starts a window, when it is the first, or a minute or more behind the one that
      started the window before; reading zero is as none. */
  predicate Starts(times: seq<Time>, now: Time)
    decreases |times|, 1
  {
    times == [] || WindowOf(times) == 0 || now - WindowOf(times) >= MINUTE
  }

  /** The reading that started the window of the last request. */
  function WindowOf(times: seq<Time>): Time
    requires times != []
    decreases |times|, 0
  {
    var last := times[|times| - 1];
    if Starts(times[..|times| - 1], last) then last else WindowOf(times[..|times| - 1])
  }

  /** How many requests the window of the last one has had, let through or not. */
  function InWindow(times: seq<Time>): (n: nat)
    ensures n <= |times|
  {
    if times == [] then 0
    else
      var front, last := times[..|times| - 1], times[|times| - 1];
      if Starts(front, last) then 1 else InWindow(front) + 1
  }

  /** A bucket that is right for the requests of its address. */
  predicate RightBucket(b: Bucket, times: seq<Time>, limit: nat) {
    if times == [] then b == NEW_BUCKET
    else b == Bucket(WindowOf(times), if InWindow(times) <= limit then InWindow(times) else limit)
  }

  lemma AskIsRight(b: Bucket, times: seq<Time>, now: Time, limit: nat)
    requires RightBucket(b, times, limit)
    ensures RightBucket(Ask(b, now, limit).0, times + [now], limit)
    ensures Ask(b, now, limit).1 <==> (if Starts(times, now) then 0 else InWindow(times)) < limit
  {
    assert (times + [now])[..|times|] == times;
  }

  lemma {:induction false} BucketsAreRight(requests: seq<Request>, limit: nat, ip: Bytes)
    ensures RightBucket(BucketOf(BucketsAfter(map[], requests, limit), ip), TimesOf(requests, ip), limit)
    decreases |requests|
  {
    if requests != [] {
      var front, last := requests[..|requests| - 1], requests[|requests| - 1];
      BucketsAreRight(front, limit, ip);
      assert requests == front + [last];
      AdmittedInTwoRuns(map[], front, [last], limit, ip, 0, 0);
      var buckets := BucketsAfter(map[], front, limit);
      OneRequest(buckets, last, limit, ip, 0, 0);
      hide BucketsAfter, RightBucket, Ask;
      AskIsRight(BucketOf(buckets, ip), TimesOf(front, ip), last.now, limit);
      assert TimesOf(front, ip) + [] == TimesOf(front, ip);
    }
  }

  /** Behind any requests, whatever the clock does: a request is let through if and only if fewer
      than `limit` requests of its address have come since its window started. */
  lemma RequestsAreDecided(before: seq<Request>, request: Request, limit: nat)
    ensures var times := TimesOf(before, request.ip);
      AskFor(BucketsAfter(map[], before, limit), request.ip, request.now, limit).1
      <==> (if Starts(times, request.now) then 0 else InWindow(times)) < limit
  {
    hide BucketsAfter, RightBucket, Starts, InWindow, Ask;
    BucketsAreRight(before, limit, request.ip);
    AskIsRight(BucketOf(BucketsAfter(map[], before, limit), request.ip), TimesOf(before, request.ip), request.now,
               limit);
  }

  lemma {:induction false} NoMoreTimes(requests: seq<Request>, ip: Bytes)
    ensures |TimesOf(requests, ip)| <= |requests|
  {
    if requests != [] {
      NoMoreTimes(requests[..|requests| - 1], ip);
    }
  }

  /** A negative limit is no limit in practice: 2^64 - 2^31 requests are let through before the
      first is refused. */
  lemma NegativeLimitRefusesNone(before: seq<Request>, request: Request, limit: int)
    requires -0x8000_0000 <= limit < 0 && |before| < 0xFFFF_FFFF_8000_0000
    ensures AskFor(BucketsAfter(map[], before, AsSize(limit)), request.ip, request.now, AsSize(limit)).1
  {
    hide BucketsAfter, AskFor, Starts;
    RequestsAreDecided(before, request, AsSize(limit));
    NoMoreTimes(before, request.ip);
  }
}
