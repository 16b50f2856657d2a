/** Which upstream a reverse proxy may use: the circuit breaker, shared by all workers under one
    lock, and the order in which upstreams are tried. */
module CircuitBreaker {
  import opened Wrappers
  import opened Octets

  /** A point of the steady clock, in nanoseconds since its epoch. */
  type Time = int

  const SECOND: nat := 1_000_000_000

  datatype Upstream = Upstream(scheme: Bytes, authority: Bytes, basePath: Bytes)

  datatype Settings = Settings(enabled: bool, failureThreshold: nat, cooldownSeconds: int)

  datatype Entry = Entry(failureCount: nat, openedUntil: Time)

  /** `upstream_circuit_key`. */
  function KeyOf(u: Upstream): Bytes {
    u.scheme + Ascii("://") + u.authority + u.basePath
  }

  function Threshold(s: Settings): nat {
    if s.failureThreshold > 1 then s.failureThreshold else 1
  }

  function Cooldown(s: Settings): int {
    s.cooldownSeconds * SECOND
  }

  // ----- the steps

  function Failed(entry: Entry, now: Time, s: Settings): Entry {
    Entry(entry.failureCount + 1,
          if entry.failureCount + 1 >= Threshold(s) then now + Cooldown(s) else entry.openedUntil)
  }

  class Breakers {
    var circuitBreakers: map<Bytes, Entry>

    constructor ()
      ensures circuitBreakers == map[]
    {
      circuitBreakers := map[];
    }

    /** `reverse_proxy_upstream_available`. */
    method Available(upstream: Upstream, settings: Settings, now: Time) returns (available: bool)
      modifies this
      ensures (circuitBreakers, available) == Asked(old(circuitBreakers), KeyOf(upstream), settings, now)
    {
      if !settings.enabled {
        return true;
      }
      var key := KeyOf(upstream);
      if key !in circuitBreakers {
        return true;
      }
      if circuitBreakers[key].openedUntil == 0 {
        return true;
      }
      if now < circuitBreakers[key].openedUntil {
        return false;
      }
      circuitBreakers := circuitBreakers - {key};
      available := true;
    }

    /** `record_reverse_proxy_upstream_success`. */
    method RecordSuccess(upstream: Upstream, settings: Settings)
      modifies this
      ensures circuitBreakers == Recorded(old(circuitBreakers), Success(KeyOf(upstream)), settings)
    {
      if !settings.enabled {
        return;
      }
      circuitBreakers := circuitBreakers - {KeyOf(upstream)};
    }

    /** `record_reverse_proxy_upstream_failure`. */
    method RecordFailure(upstream: Upstream, settings: Settings, now: Time)
      modifies this
      ensures circuitBreakers == Recorded(old(circuitBreakers), Failure(KeyOf(upstream), now), settings)
    {
      if !settings.enabled {
        return;
      }
      var threshold := Threshold(settings);
      var key := KeyOf(upstream);
      var entry := if key in circuitBreakers then circuitBreakers[key] else Entry(0, 0);
      entry := entry.(failureCount := entry.failureCount + 1);
      if entry.failureCount >= threshold {
        entry := entry.(openedUntil := now + settings.cooldownSeconds * SECOND);
      }
      circuitBreakers := circuitBreakers[key := entry];
    }
  }

  datatype Event = Success(key: Bytes) | Failure(key: Bytes, now: Time) | Query(key: Bytes, now: Time)

  function Asked(breakers: map<Bytes, Entry>, key: Bytes, s: Settings, now: Time): (map<Bytes, Entry>, bool) {
    if !s.enabled || key !in breakers || breakers[key].openedUntil == 0 then (breakers, true)
    else if now < breakers[key].openedUntil then (breakers, false)
    else (breakers - {key}, true)
  }

  function Recorded(breakers: map<Bytes, Entry>, e: Event, s: Settings): map<Bytes, Entry> {
    if !s.enabled then breakers
    else
      match e
      case Success(key) => breakers - {key}
      case Failure(key, now) => breakers[key := Failed(if key in breakers then breakers[key] else Entry(0, 0), now, s)]
      case Query(key, now) => Asked(breakers, key, s, now).0
  }

  /** The map after a sequence of events, the last of which is at its end. */
  function After(history: seq<Event>, s: Settings): map<Bytes, Entry>
    decreases |history|
  {
    if history == [] then map[]
    else Recorded(After(history[..|history| - 1], s), history[|history| - 1], s)
  }

  // ----- the same, told from the history

  /** When the last failure of the upstream was, if it ever failed. */
  function LastFailure(history: seq<Event>, key: Bytes): Option<Time>
    decreases |history|
  {
    if history == [] then None
    else
      var last := history[|history| - 1];
      if last.Failure? && last.key == key then Some(last.now)
      else LastFailure(history[..|history| - 1], key)
  }

  /** How often it has failed since it last succeeded or was asked for after its cooldown. */
  function Failures(history: seq<Event>, key: Bytes, s: Settings): nat
    decreases |history|
  {
    if history == [] then 0
    else
      var before, last := history[..|history| - 1], history[|history| - 1];
      if last.key != key then Failures(before, key, s)
      else
        match last
        case Success(_) => 0
        case Failure(_, _) => Failures(before, key, s) + 1
        case Query(_, now) => if Failures(before, key, s) >= Threshold(s) && CooledDown(before, key, s, now) then 0
            else Failures(before, key, s)
  }

  function CooledDown(history: seq<Event>, key: Bytes, s: Settings, now: Time): bool
    decreases |history|
  {
    match LastFailure(history, key) case None => true case Some(t) => now >= t + Cooldown(s)
  }

  /** The rule: enough failures, and too little time since the last one. */
  predicate Refuses(history: seq<Event>, key: Bytes, s: Settings, now: Time) {
    Failures(history, key, s) >= Threshold(s) && !CooledDown(history, key, s, now)
  }

  /** No cooldown ends at reading zero of the clock, which the code takes for "not open". */
  predicate PastEpoch(history: seq<Event>, s: Settings) {
    forall i :: 0 <= i < |history| && history[i].Failure? ==> history[i].now + Cooldown(s) != 0
  }

  /** The entry that a history amounts to. */
  ghost predicate Reflects(breakers: map<Bytes, Entry>, history: seq<Event>, key: Bytes, s: Settings) {
    var failures := Failures(history, key, s);
    if key !in breakers then failures == 0
    else
      && failures > 0 && breakers[key].failureCount == failures
      && (failures < Threshold(s) ==> breakers[key].openedUntil == 0)
      && (failures >= Threshold(s) ==>
            && LastFailure(history, key).Some?
            && breakers[key].openedUntil == LastFailure(history, key).value + Cooldown(s) != 0)
  }

  lemma RecordedReflects(breakers: map<Bytes, Entry>, history: seq<Event>, e: Event, key: Bytes, s: Settings)
    requires s.enabled && Reflects(breakers, history, key, s)
    requires e.Failure? ==> e.now + Cooldown(s) != 0
    ensures Reflects(Recorded(breakers, e, s), history + [e], key, s)
  {
    hide Cooldown, Threshold;
    assert (history + [e])[..|history|] == history;
    assert Threshold(s) >= 1 by { AtLeastOne(s); }
  }

  lemma AtLeastOne(s: Settings)
    ensures Threshold(s) >= 1
  {
  }

  lemma {:induction false} AfterReflects(history: seq<Event>, key: Bytes, s: Settings)
    requires s.enabled && PastEpoch(history, s)
    ensures Reflects(After(history, s), history, key, s)
    decreases |history|
  {
    if history != [] {
      var before, last := history[..|history| - 1], history[|history| - 1];
      assert before + [last] == history;
      AfterReflects(before, key, s);
      hide Reflects, Recorded;
      RecordedReflects(After(before, s), before, last, key, s);
    }
  }

  /** The circuit breaker refines its history: after any events on any upstreams, one is refused
      if and only if its failures since its last success or expired query reach the threshold and
      the cooldown since its last failure is not over. */
  lemma BreakerRefinesHistory(history: seq<Event>, key: Bytes, s: Settings, now: Time)
    requires s.enabled && PastEpoch(history, s)
    ensures !Asked(After(history, s), key, s, now).1 <==> Refuses(history, key, s, now)
  {
    hide Cooldown, Threshold, After, Failures;
    AtLeastOne(s);
    AfterReflects(history, key, s);
  }

  /** Failures were recorded at readings of the clock from its epoch up to `now`. */
  predicate RecordedBy(history: seq<Event>, now: Time) {
    forall i :: 0 <= i < |history| && history[i].Failure? ==> 0 <= history[i].now <= now
  }

  lemma {:induction false} NeverOpenWithoutCooldown(history: seq<Event>, key: Bytes, s: Settings, now: Time)
    requires Cooldown(s) <= 0 && RecordedBy(history, now)
    ensures key in After(history, s) ==>
        After(history, s)[key].openedUntil == 0 || After(history, s)[key].openedUntil <= now
    ensures LastFailure(history, key).Some? ==> LastFailure(history, key).value <= now
    decreases |history|
  {
    hide Cooldown, Threshold;
    if history != [] {
      NeverOpenWithoutCooldown(history[..|history| - 1], key, s, now);
    }
  }

  /** In particular on any clock that has not gone back behind a failure, whatever the cooldown
      is set to: one of zero or less refuses nothing, in the code and by the rule. */
  lemma BreakerOnAClock(history: seq<Event>, key: Bytes, s: Settings, now: Time)
    requires s.enabled && RecordedBy(history, now)
    ensures !Asked(After(history, s), key, s, now).1 <==> Refuses(history, key, s, now)
  {
    hide Cooldown, Threshold, After, Failures;
    if Cooldown(s) > 0 {
      BreakerRefinesHistory(history, key, s, now);
    } else {
      NeverOpenWithoutCooldown(history, key, s, now);
    }
  }

  /** Failures of an upstream, all at one reading of the clock. */
  function FailuresAt(key: Bytes, t: Time, n: nat): (history: seq<Event>)
    ensures |history| == n && forall i :: 0 <= i < n ==> history[i] == Failure(key, t)
  {
    if n == 0 then [] else FailuresAt(key, t, n - 1) + [Failure(key, t)]
  }

  lemma {:induction false} CountFailures(key: Bytes, t: Time, n: nat, s: Settings)
    ensures Failures(FailuresAt(key, t, n), key, s) == n
    ensures LastFailure(FailuresAt(key, t, n), key) == if n == 0 then None else Some(t)
  {
    if n > 0 {
      CountFailures(key, t, n - 1, s);
      var history := FailuresAt(key, t, n);
      assert history[..n - 1] == FailuresAt(key, t, n - 1) && history[n - 1] == Failure(key, t);
    }
  }

  /** In numbers: after `n` failures at reading `t` an upstream is refused if and only if there were
      any, they are as many as the configured number, and the configured seconds have not passed;
      after a success, or with the breaker disabled, it is not. */
  lemma FailuresOpen(key: Bytes, t: Time, n: nat, s: Settings, now: Time)
    requires 0 <= t <= now
    ensures var breakers := After(FailuresAt(key, t, n), s);
      && (!Asked(breakers, key, s, now).1 <==>
            s.enabled && n > 0 && n >= s.failureThreshold && now < t + s.cooldownSeconds * 1_000_000_000)
      && Asked(Recorded(breakers, Success(key), s), key, s, now).1
  {
    CountFailures(key, t, n, s);
    hide After, Failures, FailuresAt;
    if s.enabled {
      BreakerOnAClock(FailuresAt(key, t, n), key, s, now);
    }
  }

  /** A refused query changes nothing; behind the cooldown the upstream is let through and starts
      from zero failures. */
  lemma CooldownForgives(history: seq<Event>, key: Bytes, s: Settings, now: Time)
    requires s.enabled && PastEpoch(history, s)
    ensures Asked(After(history, s), key, s, now).1 ==>
              Failures(history + [Query(key, now)], key, s)
              == if Failures(history, key, s) >= s.failureThreshold then 0 else Failures(history, key, s)
    ensures !Asked(After(history, s), key, s, now).1 ==>
              Asked(After(history, s), key, s, now).0 == After(history, s)
  {
    hide After, Cooldown;
    assert (history + [Query(key, now)])[..|history|] == history;
    BreakerRefinesHistory(history, key, s, now);
  }

  // ----- other upstreams do not matter

  function Only(history: seq<Event>, key: Bytes): seq<Event>
    decreases |history|
  {
    if history == [] then []
    else
      var before, last := history[..|history| - 1], history[|history| - 1];
      if last.key == key then Only(before, key) + [last] else Only(before, key)
  }

  lemma {:induction false} OnlyItsOwnHistory(history: seq<Event>, key: Bytes, s: Settings)
    ensures Failures(history, key, s) == Failures(Only(history, key), key, s)
    ensures LastFailure(history, key) == LastFailure(Only(history, key), key)
    decreases |history|
  {
    hide Threshold, Cooldown;
    if history != [] {
      var before, last := history[..|history| - 1], history[|history| - 1];
      OnlyItsOwnHistory(before, key, s);
      if last.key == key {
        assert (Only(before, key) + [last])[..|Only(before, key)|] == Only(before, key);
      }
    }
  }

  lemma {:induction false} OnlyIsPastEpoch(history: seq<Event>, key: Bytes, s: Settings)
    requires PastEpoch(history, s)
    ensures PastEpoch(Only(history, key), s)
    decreases |history|
  {
    hide Cooldown;
    if history != [] {
      OnlyIsPastEpoch(history[..|history| - 1], key, s);
    }
  }

  /** Events on other upstreams, before, after and in between, make no difference. */
  lemma UpstreamsAreIndependent(history: seq<Event>, key: Bytes, s: Settings, now: Time)
    requires s.enabled && PastEpoch(history, s)
    ensures Asked(After(history, s), key, s, now).1 == Asked(After(Only(history, key), s), key, s, now).1
  {
    OnlyItsOwnHistory(history, key, s);
    OnlyIsPastEpoch(history, key, s);
    hide After, Failures, Asked, PastEpoch;
    BreakerRefinesHistory(history, key, s, now);
    BreakerRefinesHistory(Only(history, key), key, s, now);
  }

  /** A base path is nothing or starts with a slash, and neither a scheme nor an authority has a mark
      that ends it. */
  predicate PlainUpstream(u: Upstream) {
    COLON !in u.scheme && SLASH !in u.authority && (u.basePath != [] ==> u.basePath[0] == SLASH)
  }

  const SLASH: Byte := 47

  /** Upstreams of this kind share a circuit breaker only if they are the same. */
  lemma KeysAreDistinct(u: Upstream, v: Upstream)
    requires PlainUpstream(u) && PlainUpstream(v)
    ensures KeyOf(u) == KeyOf(v) <==> u == v
  {
    if KeyOf(u) == KeyOf(v) {
      KeyInParts(u);
      KeyInParts(v);
      var mark: Bytes := [COLON, SLASH, SLASH];
      CutAtMark(u.scheme, v.scheme, mark + (u.authority + u.basePath), mark + (v.authority + v.basePath), COLON);
      SameTails(mark, u.authority + u.basePath, v.authority + v.basePath);
      CutAtMark(u.authority, v.authority, u.basePath, v.basePath, SLASH);
    }
  }

  lemma KeyInParts(u: Upstream)
    ensures KeyOf(u) == u.scheme + ([COLON, SLASH, SLASH] + (u.authority + u.basePath))
  {
    assert Ascii("://") == [COLON, SLASH, SLASH];
    hide Ascii;
  }

  lemma SameTails(front: Bytes, a: Bytes, b: Bytes)
    requires front + a == front + b
    ensures a == b
  {
    assert (front + a)[|front|..] == a && (front + b)[|front|..] == b;
  }

  lemma MarkFound(a: Bytes, s: Bytes, mark: Byte)
    requires mark !in a && (s != [] ==> s[0] == mark)
    ensures Find(a + s, mark) == if s == [] then None else Some(|a|)
  {
    if s != [] {
      assert (a + s)[..|a|] == a;
      FindIs(a + s, mark, |a|);
    }
  }

  /** Text up to a mark, with nothing or the mark behind it, can be told apart. */
  lemma CutAtMark(a: Bytes, b: Bytes, s: Bytes, t: Bytes, mark: Byte)
    requires a + s == b + t && mark !in a && mark !in b
    requires (s != [] ==> s[0] == mark) && (t != [] ==> t[0] == mark)
    ensures a == b && s == t
  {
    MarkFound(a, s, mark);
    MarkFound(b, t, mark);
    hide Find;
    assert |a| + |s| == |a + s| == |b| + |t|;
    assert |a| == |b|;
    assert (a + s)[..|a|] == a && (b + t)[..|b|] == b && (a + s)[|a|..] == s && (b + t)[|b|..] == t;
  }

  // ----- the order of attempts

  const MAX_PROXY_ATTEMPTS: nat := 16

  /** `bounded_proxy_attempts`. */
  function Attempts(upstreams: nat, retryCount: nat): nat
    requires retryCount <= SIZE_MAX
  {
    var wanted := if retryCount == SIZE_MAX then retryCount else retryCount + 1;
    var requested := if wanted < MAX_PROXY_ATTEMPTS then wanted else MAX_PROXY_ATTEMPTS;
    if upstreams == 1 || requested < upstreams then requested else upstreams
  }

  /** The upstream that an attempt goes to, around the ring. */
  function Place(start: nat, attempt: nat, upstreams: nat): (r: nat)
    requires upstreams > 0
    ensures r < upstreams
  {
    (start + attempt) % upstreams
  }

  /** `ordered_reverse_proxy_upstreams`, from the starting point that the policy gives: all the
      retries go to a single upstream, and of several none is tried twice. */
  method OrderedUpstreams(upstreams: seq<Upstream>, start: nat, retryCount: nat) returns (ordered: seq<Upstream>)
    requires retryCount <= SIZE_MAX && (upstreams != [] ==> start < |upstreams|)
    ensures upstreams == [] ==> ordered == []
    ensures upstreams != [] ==>
      && 1 <= |ordered| == Attempts(|upstreams|, retryCount) <= MAX_PROXY_ATTEMPTS
      && forall i :: 0 <= i < |ordered| ==> ordered[i] == upstreams[Place(start, i, |upstreams|)]
    ensures |upstreams| > 1 ==>
      forall i, j :: 0 <= i < j < |ordered| ==> Place(start, i, |upstreams|) != Place(start, j, |upstreams|)
  {
    if upstreams == [] {
      return [];
    }
    var attempts := Attempts(|upstreams|, retryCount);
    hide Place;
    ordered := [];
    if |upstreams| == 1 {
      for attempt := 0 to attempts
        invariant |ordered| == attempt && forall i :: 0 <= i < attempt ==> ordered[i] == upstreams[0]
      {
        ordered := ordered + [upstreams[0]];
      }
      assert forall i :: 0 <= i < attempts ==> Place(start, i, 1) == 0;
      return;
    }
    for attempt := 0 to attempts
      invariant |ordered| == attempt
      invariant forall i :: 0 <= i < attempt ==> ordered[i] == upstreams[Place(start, i, |upstreams|)]
    {
      ordered := ordered + [upstreams[Place(start, attempt, |upstreams|)]];
    }
    forall i, j | 0 <= i < j < attempts
      ensures Place(start, i, |upstreams|) != Place(start, j, |upstreams|)
    {
      NoRepeat(start, i, j, |upstreams|);
    }
  }

  /** The number of attempts is the largest that is at most sixteen, one more than the retries, and
      of several upstreams no more than there are. */
  lemma AttemptsExactly(upstreams: nat, retryCount: nat)
    requires retryCount <= SIZE_MAX && upstreams > 0
    ensures var n := Attempts(upstreams, retryCount);
      && n <= 16 && n <= retryCount + 1 && (upstreams > 1 ==> n <= upstreams)
      && (n == 16 || n == retryCount + 1 || (upstreams > 1 && n == upstreams))
  {
  }

  /** The attempts start at the starting point and go to the next upstream each, behind the last one
      to the first. */
  lemma AroundTheRing(start: nat, attempt: nat, upstreams: nat)
    requires start < upstreams && attempt < upstreams
    ensures Place(start, 0, upstreams) == start
    ensures Place(start, attempt + 1, upstreams)
        == if Place(start, attempt, upstreams) + 1 < upstreams then Place(start, attempt, upstreams) + 1 else 0
  {
    Wrapped(start, upstreams);
    Wrapped(start + attempt, upstreams);
    Wrapped(start + attempt + 1, upstreams);
  }

  lemma Wrapped(a: nat, size: nat)
    requires a < 2 * size
    ensures a % size == if a < size then a else a - size
  {
    if a >= size {
      assert a == size + (a - size);
    }
  }

  lemma NoRepeat(start: nat, i: nat, j: nat, size: nat)
    requires start < size && i < j < size
    ensures Place(start, i, size) != Place(start, j, size)
  {
    Wrapped(start + i, size);
    Wrapped(start + j, size);
  }
}
