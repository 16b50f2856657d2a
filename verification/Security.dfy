/** The counters that all workers share under one lock: open connections, and requests per
    minute. Each locked section is one step, and a run is any interleaving of steps. */
module Security {
  import opened Octets

  /** What the address lists say of an address. */
  datatype Listing = Admitted | Blocklisted | NotAllowlisted

  datatype Limits = Limits(globalConnections: nat, perIpConnections: nat)

  datatype Decision = Allowed | BlockedIp | NotOnAllowlist | GlobalLimit | PerIpLimit

  /** A point of the steady clock, in nanoseconds since its epoch. */
  type Time = int

  const MINUTE: nat := 60_000_000_000

  datatype Bucket = Bucket(windowStart: Time, count: nat)

  const NEW_BUCKET := Bucket(0, 0)

  /** `static_cast<std::size_t>` of the configured int. */
  function AsSize(limit: int): nat
    requires -0x8000_0000 <= limit < 0x8000_0000
  {
    if limit < 0 then limit + SIZE_MAX + 1 else limit
  }

  // ----- the steps

  datatype Connections = Connections(byIp: map<Bytes, nat>, total: nat)

  const NO_CONNECTIONS := Connections(map[], 0)

  function CountOf(c: Connections, ip: Bytes): nat {
    if ip in c.byIp then c.byIp[ip] else 0
  }

  function TryOpen(c: Connections, ip: Bytes, listing: Listing, limits: Limits): (Connections, Decision) {
    if listing == Blocklisted then (c, BlockedIp)
    else if listing == NotAllowlisted then (c, NotOnAllowlist)
    else if c.total >= limits.globalConnections then (c, GlobalLimit)
    else
      var looked := Connections(c.byIp[ip := CountOf(c, ip)], c.total);
      if CountOf(c, ip) >= limits.perIpConnections then (looked, PerIpLimit)
      else (Connections(c.byIp[ip := CountOf(c, ip) + 1], c.total + 1), Allowed)
  }

  function Close(c: Connections, ip: Bytes): Connections {
    if ip == [] then c
    else
      Connections(if ip !in c.byIp then c.byIp
                  else if c.byIp[ip] > 1 then c.byIp[ip := c.byIp[ip] - 1]
                  else c.byIp - {ip},
                  if c.total > 0 then c.total - 1 else 0)
  }

  function Refreshed(b: Bucket, now: Time): Bucket {
    if b.windowStart == 0 || now - b.windowStart >= MINUTE then Bucket(now, 0) else b
  }

  /** A request in its bucket, and whether it is let through. */
  function Ask(b: Bucket, now: Time, limit: nat): (Bucket, bool) {
    var window := Refreshed(b, now);
    if window.count >= limit then (window, false) else (window.(count := window.count + 1), true)
  }

  class SecurityState {
    var activeConnectionsByIp: map<Bytes, nat>
    var requestBuckets: map<Bytes, Bucket>
    var totalConnections: nat

    function State(): Connections
      reads this
    {
      Connections(activeConnectionsByIp, totalConnections)
    }

    constructor ()
      ensures State() == NO_CONNECTIONS && requestBuckets == map[]
    {
      activeConnectionsByIp, requestBuckets, totalConnections := map[], map[], 0;
    }

    /** `try_open_connection`; looking up an address enters it in the map. */
    method TryOpenConnection(ip: Bytes, listing: Listing, limits: Limits) returns (decision: Decision)
      modifies this`activeConnectionsByIp, this`totalConnections
      ensures (State(), decision) == TryOpen(old(State()), ip, listing, limits)
    {
      if listing == Blocklisted {
        return BlockedIp;
      }
      if listing == NotAllowlisted {
        return NotOnAllowlist;
      }
      if totalConnections >= limits.globalConnections {
        return GlobalLimit;
      }
      if ip !in activeConnectionsByIp {
        activeConnectionsByIp := activeConnectionsByIp[ip := 0];
      }
      assert old(State()).byIp[ip := CountOf(old(State()), ip)] == activeConnectionsByIp;
      var ipConnections := activeConnectionsByIp[ip];
      if ipConnections >= limits.perIpConnections {
        return PerIpLimit;
      }
      assert old(State()).byIp[ip := ipConnections + 1] == activeConnectionsByIp[ip := ipConnections + 1];
      activeConnectionsByIp := activeConnectionsByIp[ip := activeConnectionsByIp[ip] + 1];
      totalConnections := totalConnections + 1;
      decision := Allowed;
    }

    method CloseConnection(ip: Bytes)
      modifies this`activeConnectionsByIp, this`totalConnections
      ensures State() == Close(old(State()), ip)
    {
      if ip == [] {
        return;
      }
      if ip in activeConnectionsByIp {
        if activeConnectionsByIp[ip] > 1 {
          activeConnectionsByIp := activeConnectionsByIp[ip := activeConnectionsByIp[ip] - 1];
        } else {
          activeConnectionsByIp := activeConnectionsByIp - {ip};
        }
      }
      if totalConnections > 0 {
        totalConnections := totalConnections - 1;
      }
    }

    /** `allow_request`, with the reading of the clock as a parameter. */
    method AllowRequest(ip: Bytes, enabled: bool, limitPerMinute: int, now: Time) returns (allowed: bool)
      requires -0x8000_0000 <= limitPerMinute < 0x8000_0000
      modifies this`requestBuckets
      ensures (requestBuckets, allowed) ==
              if !enabled || ip == [] then (old(requestBuckets), true)
              else AskFor(old(requestBuckets), ip, now, AsSize(limitPerMinute))
    {
      if !enabled || ip == [] {
        return true;
      }
      var bucket := if ip in requestBuckets then requestBuckets[ip] else NEW_BUCKET;
      if bucket.windowStart == 0 || now - bucket.windowStart >= MINUTE {
        bucket := Bucket(now, 0);
      }
      if bucket.count >= AsSize(limitPerMinute) {
        requestBuckets := requestBuckets[ip := bucket];
        return false;
      }
      requestBuckets := requestBuckets[ip := bucket.(count := bucket.count + 1)];
      allowed := true;
    }
  }

  // ----- connection accounting over a run

  datatype Event = Opening(ip: Bytes, listing: Listing, limits: Limits) | Closing(ip: Bytes)

  /** The counters, with the connections that were allowed and have not been closed. */
  datatype Ledger = Ledger(counters: Connections, live: multiset<Bytes>)

  function Step(l: Ledger, e: Event): Ledger {
    match e
    case Opening(ip, listing, limits) =>
      var (next, decision) := TryOpen(l.counters, ip, listing, limits);
      Ledger(next, if decision == Allowed then l.live + multiset{ip} else l.live)
    case Closing(ip) => Ledger(Close(l.counters, ip), l.live - multiset{ip})
  }

  function Run(l: Ledger, events: seq<Event>): Ledger
    decreases |events|
  {
    if events == [] then l else Run(Step(l, events[0]), events[1..])
  }

  const OPENING_DAY := Ledger(NO_CONNECTIONS, multiset{})

  /** Each close belongs to a connection that is live. */
  predicate Matched(l: Ledger, events: seq<Event>)
    decreases |events|
  {
    events != [] ==>
      (events[0].Closing? ==> events[0].ip in l.live) && Matched(Step(l, events[0]), events[1..])
  }

  /** How often a connection with an empty address is closed. */
  function NamelessCloses(events: seq<Event>): nat {
    if events == [] then 0
    else (if events[0] == Closing([]) then 1 else 0) + NamelessCloses(events[1..])
  }

  /** The counters are the live connections and `leaked` more of the empty address: the sum of
      the counts per address is the total. */
  ghost predicate Accounts(l: Ledger, leaked: nat) {
    && l.counters.total == |l.live| + leaked
    && (forall ip :: CountOf(l.counters, ip) == l.live[ip] + if ip == [] then leaked else 0)
  }

  lemma StepAccounts(l: Ledger, e: Event, leaked: nat)
    requires Accounts(l, leaked) && (e.Closing? ==> e.ip in l.live)
    ensures Accounts(Step(l, e), leaked + if e == Closing([]) then 1 else 0)
  {
    match e
    case Opening(ip, listing, limits) => OpeningAccounts(l, ip, listing, limits, leaked);
    case Closing(ip) => ClosingAccounts(l, ip, leaked);
  }

  lemma OpeningAccounts(l: Ledger, ip: Bytes, listing: Listing, limits: Limits, leaked: nat)
    requires Accounts(l, leaked)
    ensures Accounts(Step(l, Opening(ip, listing, limits)), leaked)
  {
    var next := Step(l, Opening(ip, listing, limits));
    assert forall other :: CountOf(l.counters, other) == l.live[other] + if other == [] then leaked else 0;
  }

  lemma ClosingAccounts(l: Ledger, ip: Bytes, leaked: nat)
    requires Accounts(l, leaked) && ip in l.live
    ensures Accounts(Step(l, Closing(ip)), leaked + if ip == [] then 1 else 0)
  {
    var next := Step(l, Closing(ip));
    assert CountOf(l.counters, ip) >= 1;
    assert l.live == next.live + multiset{ip};
  }

  lemma {:induction false} RunAccounts(l: Ledger, events: seq<Event>, leaked: nat)
    requires Accounts(l, leaked) && Matched(l, events)
    ensures Accounts(Run(l, events), leaked + NamelessCloses(events))
    decreases |events|
  {
    hide Step, Accounts;
    if events != [] {
      StepAccounts(l, events[0], leaked);
      RunAccounts(Step(l, events[0]), events[1..], leaked + if events[0] == Closing([]) then 1 else 0);
    }
  }

  /** After any interleaving of openings and matching closes: the count of each address is the
      number of its live connections, and the total is the number of all of them, that is the
      sum of the counts, if and only if no connection with an empty address was closed. */
  lemma ConnectionsAreAccounted(events: seq<Event>)
    requires Matched(OPENING_DAY, events)
    ensures var l := Run(OPENING_DAY, events);
      && Accounts(l, NamelessCloses(events))
      && (l.counters.total == |l.live| <==> NamelessCloses(events) == 0)
      && (NamelessCloses(events) == 0 ==> forall ip :: CountOf(l.counters, ip) == l.live[ip])
  {
    assert Accounts(OPENING_DAY, 0);
    hide Step, Run, Matched, NamelessCloses;
    RunAccounts(OPENING_DAY, events, 0);
  }

  /** No opening is let through past these limits; they may change during the run. */
  predicate LimitedTo(events: seq<Event>, limits: Limits) {
    forall i :: 0 <= i < |events| && events[i].Opening? ==>
      && events[i].limits.globalConnections <= limits.globalConnections
      && events[i].limits.perIpConnections <= limits.perIpConnections
  }

  ghost predicate Within(c: Connections, limits: Limits) {
    c.total <= limits.globalConnections && forall ip :: CountOf(c, ip) <= limits.perIpConnections
  }

  lemma {:induction false} RunKeepsLimits(l: Ledger, events: seq<Event>, limits: Limits)
    requires Within(l.counters, limits) && LimitedTo(events, limits)
    ensures Within(Run(l, events).counters, limits)
    decreases |events|
  {
    if events != [] {
      assert forall i :: 0 <= i < |events[1..]| ==> events[1..][i] == events[i + 1];
      StepKeepsLimits(l, events[0], limits);
      hide Step, Within;
      RunKeepsLimits(Step(l, events[0]), events[1..], limits);
    }
  }

  lemma StepKeepsLimits(l: Ledger, e: Event, limits: Limits)
    requires Within(l.counters, limits)
    requires e.Opening? ==>
      && e.limits.globalConnections <= limits.globalConnections
      && e.limits.perIpConnections <= limits.perIpConnections
    ensures Within(Step(l, e).counters, limits)
  {
    var next := Step(l, e).counters;
    forall ip
      ensures CountOf(next, ip) <= limits.perIpConnections
    {
      assert CountOf(l.counters, ip) <= limits.perIpConnections;
      assert CountOf(l.counters, e.ip) <= limits.perIpConnections;
    }
  }

  /** The limits hold at all times. */
  lemma LimitsHold(events: seq<Event>, limits: Limits)
    requires LimitedTo(events, limits)
    ensures Within(Run(OPENING_DAY, events).counters, limits)
  {
    hide Run;
    RunKeepsLimits(OPENING_DAY, events, limits);
  }

  // ----- rate limiting over a run

  function BucketOf(buckets: map<Bytes, Bucket>, ip: Bytes): Bucket {
    if ip in buckets then buckets[ip] else NEW_BUCKET
  }

  function AskFor(buckets: map<Bytes, Bucket>, ip: Bytes, now: Time, limit: nat): (map<Bytes, Bucket>, bool) {
    var (bucket, allowed) := Ask(BucketOf(buckets, ip), now, limit);
    (buckets[ip := bucket], allowed)
  }

  datatype Request = Request(ip: Bytes, now: Time)

  /** How many requests of an address are let through from `low` up to, but not at, `high`. */
  function AdmittedIn(buckets: map<Bytes, Bucket>, requests: seq<Request>, limit: nat, ip: Bytes, low: Time,
      high: Time): nat
    decreases |requests|
  {
    if requests == [] then 0
    else
      var (next, allowed) := AskFor(buckets, requests[0].ip, requests[0].now, limit);
      (if allowed && requests[0].ip == ip && low <= requests[0].now < high then 1 else 0)
      + AdmittedIn(next, requests[1..], limit, ip, low, high)
  }

  /** Clock readings from `since` on do not go back, in the order of the lock. */
  predicate Ordered(requests: seq<Request>, since: Time)
    decreases |requests|
  {
    requests != [] ==> since <= requests[0].now && Ordered(requests[1..], requests[0].now)
  }

  /** What is left for an address before `high`, a minute after `low`. */
  function Left(b: Bucket, limit: nat, low: Time, now: Time): int {
    if b.windowStart != 0 && b.windowStart >= low then limit - b.count
    else if now >= low then 2 * limit - (if b.count > 0 then b.count else 1)
    else 2 * limit - 1
  }

  /** A window that has been started holds its first request, and no more than the limit. */
  predicate Healthy(b: Bucket, limit: nat, now: Time) {
    && b.count <= limit
    && b.windowStart <= now
    && (b.windowStart == 0 ==> b.count == 0)
    && (b.windowStart != 0 ==> b.count > 0)
  }

  lemma AskLeaves(b: Bucket, now: Time, limit: nat, low: Time, before: Time)
    requires limit > 0 && Healthy(b, limit, before) && 0 <= before <= now && 0 < now
    ensures var (next, allowed) := Ask(b, now, limit);
      && Healthy(next, limit, now)
      && (now < low + MINUTE ==>
            Left(next, limit, low, now) + (if allowed && low <= now then 1 else 0) <= Left(b, limit, low, before))
  {
  }

  lemma LeftShrinks(b: Bucket, limit: nat, low: Time, before: Time, now: Time)
    requires Healthy(b, limit, before) && before <= now && limit > 0
    ensures 0 <= Left(b, limit, low, now) <= Left(b, limit, low, before)
  {
  }

  lemma {:induction false} NothingLater(buckets: map<Bytes, Bucket>, requests: seq<Request>, limit: nat, ip: Bytes,
      low: Time, high: Time, since: Time)
    requires Ordered(requests, since) && high <= since
    ensures AdmittedIn(buckets, requests, limit, ip, low, high) == 0
    decreases |requests|
  {
    hide AskFor;
    if requests != [] {
      var (next, _) := AskFor(buckets, requests[0].ip, requests[0].now, limit);
      NothingLater(next, requests[1..], limit, ip, low, high, requests[0].now);
    }
  }

  lemma {:induction false} AdmittedAtMostLeft(buckets: map<Bytes, Bucket>, requests: seq<Request>, limit: nat,
      ip: Bytes, low: Time, since: Time)
    requires limit > 0 && 0 <= since && Ordered(requests, since)
        && (forall i :: 0 <= i < |requests| ==> requests[i].now > 0)
    requires Healthy(BucketOf(buckets, ip), limit, since)
    ensures AdmittedIn(buckets, requests, limit, ip, low, low + MINUTE)
        <= Left(BucketOf(buckets, ip), limit, low, since)
    decreases |requests|
  {
    hide Ask, Left, Healthy;
    LeftShrinks(BucketOf(buckets, ip), limit, low, since, since);
    if requests != [] {
      var request := requests[0];
      assert forall i :: 0 <= i < |requests[1..]| ==> requests[1..][i] == requests[i + 1];
      var (next, allowed) := AskFor(buckets, request.ip, request.now, limit);
      if request.now >= low + MINUTE {
        NothingLater(next, requests[1..], limit, ip, low, low + MINUTE, request.now);
      } else if request.ip == ip {
        AskLeaves(BucketOf(buckets, ip), request.now, limit, low, since);
        AdmittedAtMostLeft(next, requests[1..], limit, ip, low, request.now);
      } else {
        assert BucketOf(next, ip) == BucketOf(buckets, ip);
        LaterIsHealthy(BucketOf(buckets, ip), limit, since, request.now);
        LeftShrinks(BucketOf(buckets, ip), limit, low, since, request.now);
        AdmittedAtMostLeft(next, requests[1..], limit, ip, low, request.now);
      }
    }
  }

  lemma LaterIsHealthy(b: Bucket, limit: nat, before: Time, now: Time)
    requires Healthy(b, limit, before) && before <= now
    ensures Healthy(b, limit, now)
  {
  }

  /** For a fixed limit and a clock that does not go back, at most `2 * limit - 1` requests of
      an address are let through in any minute, whatever the other addresses do: the first
      request of a window is always before what the next window can hold. */
  lemma RateIsBounded(requests: seq<Request>, limit: nat, ip: Bytes, low: Time)
    requires Ordered(requests, 1)
    ensures AdmittedIn(map[], requests, limit, ip, low, low + MINUTE) <= if limit == 0 then 0 else 2 * limit - 1
  {
    hide AdmittedIn;
    if limit == 0 {
      NoneAtLimitZero(map[], requests, ip, low, low + MINUTE);
    } else {
      OrderedIsPositive(requests, 1);
      AdmittedAtMostLeft(map[], requests, limit, ip, low, 1);
    }
  }

  lemma {:induction false} NoneAtLimitZero(buckets: map<Bytes, Bucket>, requests: seq<Request>, ip: Bytes,
      low: Time, high: Time)
    ensures AdmittedIn(buckets, requests, 0, ip, low, high) == 0
    decreases |requests|
  {
    if requests != [] {
      NoneAtLimitZero(AskFor(buckets, requests[0].ip, requests[0].now, 0).0, requests[1..], ip, low, high);
    }
  }

  // The bound is reached, and it rests on a clock that is past its epoch.

  function Repeated(request: Request, n: nat): (r: seq<Request>)
    ensures |r| == n && forall i :: 0 <= i < n ==> r[i] == request
  {
    if n == 0 then [] else [request] + Repeated(request, n - 1)
  }

  /** The address's bucket after some requests. */
  function BucketsAfter(buckets: map<Bytes, Bucket>, requests: seq<Request>, limit: nat): map<Bytes, Bucket>
    decreases |requests|
  {
    if requests == [] then buckets
    else BucketsAfter(AskFor(buckets, requests[0].ip, requests[0].now, limit).0, requests[1..], limit)
  }

  lemma {:induction false} AdmittedInTwoRuns(buckets: map<Bytes, Bucket>, first: seq<Request>,
      second: seq<Request>, limit: nat, ip: Bytes, low: Time, high: Time)
    ensures AdmittedIn(buckets, first + second, limit, ip, low, high)
            == AdmittedIn(buckets, first, limit, ip, low, high)
               + AdmittedIn(BucketsAfter(buckets, first, limit), second, limit, ip, low, high)
    ensures BucketsAfter(buckets, first + second, limit)
        == BucketsAfter(BucketsAfter(buckets, first, limit), second, limit)
    decreases |first|
  {
    hide AskFor;
    if first == [] {
      assert first + second == second;
    } else {
      assert (first + second)[0] == first[0] && (first + second)[1..] == first[1..] + second;
      AdmittedInTwoRuns(AskFor(buckets, first[0].ip, first[0].now, limit).0, first[1..], second, limit, ip, low, high);
    }
  }

  /** As many equal requests as a running window has room for are all let through. */
  lemma {:induction false} RoomIsUsed(buckets: map<Bytes, Bucket>, ip: Bytes, now: Time, n: nat, limit: nat,
      low: Time, high: Time)
    requires var b := BucketOf(buckets, ip); b.windowStart != 0 && now - b.windowStart < MINUTE && b.count + n <= limit
    requires low <= now < high
    ensures AdmittedIn(buckets, Repeated(Request(ip, now), n), limit, ip, low, high) == n
    ensures var b := BucketOf(buckets, ip);
        BucketOf(BucketsAfter(buckets, Repeated(Request(ip, now), n), limit), ip) == b.(count := b.count + n)
    decreases n
  {
    if n > 0 {
      RoomIsUsed(AskFor(buckets, ip, now, limit).0, ip, now, n - 1, limit, low, high);
    }
  }

  /** A request, a burst at the end of its minute, and a burst in the next window. */
  function TwoBursts(limit: nat, ip: Bytes): seq<Request>
    requires limit > 0
  {
    var full, next := Request(ip, MINUTE), Request(ip, MINUTE + 1);
    [Request(ip, 1)] + (Repeated(full, limit - 1) + ([next] + Repeated(next, limit - 1)))
  }

  /** Let one request start a window, ask again at the end of the minute until the window is
      full, and go on in the next window: `2 * limit - 1` are let through within one minute. */
  lemma BoundIsReached(limit: nat, ip: Bytes)
    requires limit > 0
    ensures AdmittedIn(map[], TwoBursts(limit, ip), limit, ip, MINUTE, MINUTE + MINUTE) == 2 * limit - 1
  {
    hide Repeated, AdmittedIn, BucketsAfter;
    var low, high := MINUTE, MINUTE + MINUTE;
    var none: map<Bytes, Bucket> := map[];
    var b1, full, next := [Request(ip, 1)], Request(ip, MINUTE), Request(ip, MINUTE + 1);
    var tail := [next] + Repeated(next, limit - 1);
    AdmittedInTwoRuns(none, b1, Repeated(full, limit - 1) + tail, limit, ip, low, high);
    OneRequest(none, b1[0], limit, ip, low, high);
    var started := BucketsAfter(none, b1, limit);
    AdmittedInTwoRuns(started, Repeated(full, limit - 1), tail, limit, ip, low, high);
    RoomIsUsed(started, ip, MINUTE, limit - 1, limit, low, high);
    var filled := BucketsAfter(started, Repeated(full, limit - 1), limit);
    AdmittedInTwoRuns(filled, [next], Repeated(next, limit - 1), limit, ip, low, high);
    OneRequest(filled, next, limit, ip, low, high);
    RoomIsUsed(BucketsAfter(filled, [next], limit), ip, MINUTE + 1, limit - 1, limit, low, high);
  }

  lemma OneRequest(buckets: map<Bytes, Bucket>, request: Request, limit: nat, ip: Bytes, low: Time, high: Time)
    ensures var (next, allowed) := AskFor(buckets, request.ip, request.now, limit);
      && BucketsAfter(buckets, [request], limit) == next
      && AdmittedIn(buckets, [request], limit, ip, low, high)
         == if allowed && request.ip == ip && low <= request.now < high then 1 else 0
  {
    assert [request][1..] == [];
  }

  /** At clock reading zero every request starts a window: any number is let through. */
  lemma {:induction false} UnboundedAtEpoch(buckets: map<Bytes, Bucket>, ip: Bytes, n: nat, limit: nat)
    requires limit > 0 && BucketOf(buckets, ip).windowStart == 0
    ensures AdmittedIn(buckets, Repeated(Request(ip, 0), n), limit, ip, 0, MINUTE) == n
    decreases n
  {
    if n > 0 {
      UnboundedAtEpoch(AskFor(buckets, ip, 0, limit).0, ip, n - 1, limit);
    }
  }

  lemma {:induction false} OrderedIsPositive(requests: seq<Request>, since: Time)
    requires Ordered(requests, since)
    ensures forall i :: 0 <= i < |requests| ==> requests[i].now >= since
    decreases |requests|
  {
    if requests != [] {
      OrderedIsPositive(requests[1..], requests[0].now);
      assert forall i :: 0 < i < |requests| ==> requests[i] == requests[1..][i - 1];
    }
  }

  lemma {:induction false} RunIsHealthy(buckets: map<Bytes, Bucket>, requests: seq<Request>, limit: nat, ip: Bytes,
      since: Time)
      returns (last: Time)
    requires limit > 0 && 0 <= since && Ordered(requests, since)
        && (forall i :: 0 <= i < |requests| ==> requests[i].now > 0)
    requires Healthy(BucketOf(buckets, ip), limit, since)
    ensures since <= last && (forall i :: 0 <= i < |requests| ==> requests[i].now <= last)
    ensures last == since || exists i :: 0 <= i < |requests| && requests[i].now == last
    ensures Healthy(BucketOf(BucketsAfter(buckets, requests, limit), ip), limit, last)
    decreases |requests|
  {
    hide Ask, Healthy;
    last := since;
    if requests != [] {
      var request := requests[0];
      assert forall i :: 0 <= i < |requests[1..]| ==> requests[1..][i] == requests[i + 1];
      var next := AskFor(buckets, request.ip, request.now, limit).0;
      if request.ip == ip {
        AskLeaves(BucketOf(buckets, ip), request.now, limit, 0, since);
      } else {
        LaterIsHealthy(BucketOf(buckets, ip), limit, since, request.now);
      }
      last := RunIsHealthy(next, requests[1..], limit, ip, request.now);
      assert forall i :: 0 < i < |requests| ==> requests[i] == requests[1..][i - 1];
    }
  }

  lemma {:induction false} OrderedParts(a: seq<Request>, b: seq<Request>, since: Time)
    requires Ordered(a + b, since)
    ensures Ordered(a, since) && Ordered(b, since)
    ensures forall i, j :: 0 <= i < |a| && 0 <= j < |b| ==> a[i].now <= b[j].now
    decreases |a|
  {
    if a == [] {
      assert a + b == b;
    } else {
      assert (a + b)[1..] == a[1..] + b && (a + b)[0] == a[0];
      OrderedParts(a[1..], b, a[0].now);
      OrderedIsPositive(a[1..] + b, a[0].now);
      assert forall j :: 0 <= j < |b| ==> (a[1..] + b)[|a[1..]| + j] == b[j];
      assert forall i :: 0 < i < |a| ==> a[i] == a[1..][i - 1];
      EarlierOrdered(b, since, a[0].now);
    }
  }

  lemma EarlierOrdered(requests: seq<Request>, early: Time, since: Time)
    requires Ordered(requests, since) && early <= since
    ensures Ordered(requests, early)
  {
  }

  /** In a run from the start, in the minute from a request that starts a window, at most `limit`
      requests of its address are let through. */
  lemma WindowIsBounded(before: seq<Request>, requests: seq<Request>, limit: nat)
    requires Ordered(before + requests, 1) && requests != []
    requires var b := BucketOf(BucketsAfter(map[], before, limit), requests[0].ip); Refreshed(b, requests[0].now) != b
    ensures AdmittedIn(BucketsAfter(map[], before, limit), requests, limit, requests[0].ip,
                       requests[0].now, requests[0].now + MINUTE) <= limit
  {
    var request := requests[0];
    var buckets := BucketsAfter(map[], before, limit);
    if limit == 0 {
      NoneAtLimitZero(buckets, requests, request.ip, request.now, request.now + MINUTE);
    } else {
      OrderedParts(before, requests, 1);
      OrderedIsPositive(before, 1);
      OrderedIsPositive(requests, 1);
      var last := RunIsHealthy(map[], before, limit, request.ip, 1);
      WindowFromHealthy(buckets, requests, limit, last);
    }
  }

  lemma WindowFromHealthy(buckets: map<Bytes, Bucket>, requests: seq<Request>, limit: nat, since: Time)
    requires limit > 0 && requests != [] && 0 <= since <= requests[0].now
    requires Ordered(requests, 1) && Healthy(BucketOf(buckets, requests[0].ip), limit, since)
    requires var b := BucketOf(buckets, requests[0].ip); Refreshed(b, requests[0].now) != b
    ensures AdmittedIn(buckets, requests, limit, requests[0].ip, requests[0].now, requests[0].now + MINUTE) <= limit
  {
    var request := requests[0];
    var (next, allowed) := AskFor(buckets, request.ip, request.now, limit);
    OrderedIsPositive(requests[1..], request.now);
    AskLeaves(BucketOf(buckets, request.ip), request.now, limit, request.now, since);
    AdmittedAtMostLeft(next, requests[1..], limit, request.ip, request.now, request.now);
  }

  // ----- the limit as a bound on every minute

  lemma {:induction false} OrderedJoin(a: seq<Request>, b: seq<Request>, since: Time, mid: Time)
    requires Ordered(a, since) && Ordered(b, mid) && since <= mid
    requires forall i :: 0 <= i < |a| ==> a[i].now <= mid
    ensures Ordered(a + b, since)
    decreases |a|
  {
    if a == [] {
      assert a + b == b;
      EarlierOrdered(b, since, mid);
    } else {
      assert (a + b)[1..] == a[1..] + b;
      assert forall i :: 0 <= i < |a[1..]| ==> a[1..][i] == a[i + 1];
      OrderedJoin(a[1..], b, a[0].now, mid);
    }
  }

  lemma {:induction false} RepeatedOrdered(request: Request, n: nat)
    ensures Ordered(Repeated(request, n), request.now)
  {
    if n > 0 {
      RepeatedOrdered(request, n - 1);
    }
  }

  lemma TwoBurstsOrdered(limit: nat, ip: Bytes)
    requires limit > 0
    ensures Ordered(TwoBursts(limit, ip), 1)
  {
    var full, next := Request(ip, MINUTE), Request(ip, MINUTE + 1);
    RepeatedOrdered(full, limit - 1);
    RepeatedOrdered(next, limit - 1);
    var last := [next] + Repeated(next, limit - 1);
    assert last[1..] == Repeated(next, limit - 1);
    OrderedJoin(Repeated(full, limit - 1), last, MINUTE, MINUTE + 1);
    var b := [Request(ip, 1)];
    assert b[1..] == [];
    OrderedJoin(b, Repeated(full, limit - 1) + last, 1, MINUTE);
  }

  /** How many requests of an address a run from the start lets through in a minute. */
  function AdmittedInMinute(requests: seq<Request>, limit: nat, ip: Bytes, low: Time): nat {
    AdmittedIn(map[], requests, limit, ip, low, low + MINUTE)
  }

  /** In every minute of every run of the address at most `limit` requests are let through. */
  ghost predicate LimitKeptInEveryMinute(limit: nat, ip: Bytes) {
    forall requests, low ::
      Ordered(requests, 1) ==> AdmittedInMinute(requests, limit, ip, low) <= limit
  }

  /** The configured number is a bound for every minute if and only if it is zero or one. */
  lemma LimitKeptExactly(limit: nat, ip: Bytes)
    ensures LimitKeptInEveryMinute(limit, ip) <==> limit <= 1
  {
    hide AdmittedIn, Ordered, TwoBursts;
    if limit <= 1 {
      forall requests: seq<Request>, low: Time | Ordered(requests, 1)
        ensures AdmittedInMinute(requests, limit, ip, low) <= limit
      {
        RateIsBounded(requests, limit, ip, low);
      }
    } else {
      TwoBurstsOrdered(limit, ip);
      BoundIsReached(limit, ip);
      assert AdmittedInMinute(TwoBursts(limit, ip), limit, ip, MINUTE) == 2 * limit - 1;
    }
  }

  /** Runs whose clock readings start at `since` let through at most `bound` in every minute. */
  ghost predicate BoundHolds(limit: nat, ip: Bytes, since: Time, bound: nat) {
    forall requests, low :: Ordered(requests, since) ==> AdmittedInMinute(requests, limit, ip, low) <= bound
  }

  lemma NoBoundAtEpoch(limit: nat, ip: Bytes, since: Time, bound: nat)
    requires limit > 0 && since <= 0
    ensures !BoundHolds(limit, ip, since, bound)
  {
    hide AdmittedIn, Ordered;
    var burst := Repeated(Request(ip, 0), bound + 1);
    RepeatedOrdered(Request(ip, 0), bound + 1);
    EarlierOrdered(burst, since, 0);
    UnboundedAtEpoch(map[], ip, bound + 1, limit);
    assert AdmittedInMinute(burst, limit, ip, 0) == bound + 1;
  }

  /** With a limit above zero, there is a bound on what is let through in a minute if and only if the
      clock is past its epoch from the start; and `2 * limit - 1` is one then. */
  lemma RateIsBoundedExactly(limit: nat, ip: Bytes, since: Time)
    requires limit > 0
    ensures BoundHolds(limit, ip, since, 2 * limit - 1) <==> since >= 1
    ensures (exists bound :: BoundHolds(limit, ip, since, bound)) <==> since >= 1
  {
    hide AdmittedIn, Ordered;
    if since >= 1 {
      forall requests: seq<Request>, low: Time | Ordered(requests, since)
        ensures AdmittedInMinute(requests, limit, ip, low) <= 2 * limit - 1
      {
        EarlierOrdered(requests, 1, since);
        RateIsBounded(requests, limit, ip, low);
      }
      assert BoundHolds(limit, ip, since, 2 * limit - 1);
    } else {
      forall bound
        ensures !BoundHolds(limit, ip, since, bound)
      {
        NoBoundAtEpoch(limit, ip, since, bound);
      }
    }
  }
}
