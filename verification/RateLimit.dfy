/** The token buckets in front of the SPA ring: one per source address, one for all. Times
    are nanoseconds of the kernel's monotonic clock. */
module RateLimit {
  import opened Bytes

  const RATE_REFILL_NS := 60_000_000_000
  const GLOBAL_RATE_MULTIPLIER := 256
  const GLOBAL_RATE_MAX := 1_000_000
  const DEFAULT_RATE_LIMIT_PER_MINUTE := 5
  const SPA_MIN_LEN := 143
  const SPA_MAX_LEN := 176

  datatype RateState = RateState(tokens: nat, lastNs: nat)

  function SatSub(a: nat, b: nat): (d: nat) {
    if a >= b then a - b else 0
  }

  function PerIpLimit(configured: nat): (limit: nat) {
    if configured == 0 then DEFAULT_RATE_LIMIT_PER_MINUTE else configured
  }

  function GlobalLimit(configured: nat): (limit: nat) {
    Min(Min(PerIpLimit(configured) * GLOBAL_RATE_MULTIPLIER, U32_MAX), GLOBAL_RATE_MAX)
  }

  // ---- one bucket --------------------------------------------------------------

  /** An attempt at time now. An absent bucket, or one whose last refill is a whole period
      old, is full first. */
  function Draw(limit: nat, s: Option<RateState>, now: nat): (r: (RateState, bool)) {
    var full := s == None || SatSub(now, s.value.lastNs) >= RATE_REFILL_NS;
    var t := if full then RateState(limit, now) else s.value;
    if t.tokens == 0 then (t, false) else (t.(tokens := t.tokens - 1), true)
  }

  /** How many attempts made within [a, b] are admitted. */
  function Admitted(limit: nat, s: Option<RateState>, times: seq<nat>, a: nat, b: nat): (n: nat)
    decreases |times|
  {
    if times == [] then 0
    else
      var (t, ok) := Draw(limit, s, times[0]);
      One(ok && a <= times[0] <= b) + Admitted(limit, Some(t), times[1..], a, b)
  }

  ghost predicate Clock(times: seq<nat>) {
    && (forall i :: 0 <= i < |times| ==> times[i] > 0)
    && (forall i, j :: 0 <= i < j < |times| ==> times[i] <= times[j])
  }

  ghost predicate Sane(limit: nat, s: Option<RateState>, times: seq<nat>) {
    s.Some? ==> s.value.tokens <= limit && forall i :: 0 <= i < |times| ==> s.value.lastNs <= times[i]
  }

  function Periods(from: nat, to: nat): (n: nat) {
    if from <= to then (to - from) / RATE_REFILL_NS else 0
  }

  lemma TimesMono(limit: nat, x: nat, y: nat)
    requires x <= y
    ensures limit * x <= limit * y
  {
  }

  lemma OnePeriodLess(from: nat, now: nat, to: nat)
    requires from + RATE_REFILL_NS <= now <= to
    ensures Periods(now, to) + 1 <= Periods(from, to)
  {
    assert (to - from) / RATE_REFILL_NS >= (to - now + RATE_REFILL_NS) / RATE_REFILL_NS;
  }

  /** A refill at now costs one of the periods that were ahead. */
  lemma RefillCost(limit: nat, from: nat, now: nat, to: nat)
    requires from + RATE_REFILL_NS <= now <= to
    ensures limit + limit * Periods(now, to) <= limit * Periods(from, to)
  {
    OnePeriodLess(from, now, to);
    TimesMono(limit, Periods(now, to) + 1, Periods(from, to));
  }

  /** A draw is paid for by a token, and a refill by a period. */
  lemma DrawPays(limit: nat, s: RateState, now: nat, to: nat)
    requires s.tokens <= limit && s.lastNs <= now <= to
    ensures var (t, ok) := Draw(limit, Some(s), now);
            && t.tokens <= limit && t.lastNs <= now
            && One(ok) + t.tokens + limit * Periods(t.lastNs, to) <= s.tokens + limit * Periods(s.lastNs, to)
  {
    if s.lastNs + RATE_REFILL_NS <= now {
      RefillCost(limit, s.lastNs, now, to);
    }
  }

  /** A bucket that exists admits at most its tokens and a full bucket per later period. */
  lemma {:induction false} TokensAndRefills(limit: nat, s: RateState, times: seq<nat>, a: nat, b: nat)
    requires Clock(times) && Sane(limit, Some(s), times)
    ensures Admitted(limit, Some(s), times, a, b) <= s.tokens + limit * Periods(s.lastNs, b)
    decreases |times|
  {
    if times != [] {
      var now := times[0];
      if now > b {
        NothingAfter(limit, Some(s), times, a, b);
      } else {
        DrawPays(limit, s, now, b);
        TokensAndRefills(limit, Draw(limit, Some(s), now).0, times[1..], a, b);
      }
    }
  }

  lemma {:induction false} NothingAfter(limit: nat, s: Option<RateState>, times: seq<nat>, a: nat, b: nat)
    requires forall i :: 0 <= i < |times| ==> times[i] > b
    ensures Admitted(limit, s, times, a, b) == 0
    decreases |times|
  {
    if times != [] {
      NothingAfter(limit, Some(Draw(limit, s, times[0]).0), times[1..], a, b);
    }
  }

  /** Any interval [a, b] admits at most limit * (floor((b - a) / 60 s) + 2) attempts. */
  lemma {:induction false} BucketBound(limit: nat, s: Option<RateState>, times: seq<nat>, a: nat, b: nat)
    requires Clock(times) && Sane(limit, s, times) && a <= b
    ensures Admitted(limit, s, times, a, b) <= limit * (Periods(a, b) + 2)
    decreases |times|
  {
    if times != [] {
      var now := times[0];
      var (t, ok) := Draw(limit, s, now);
      if now < a {
        BucketBound(limit, Some(t), times[1..], a, b);
      } else if now > b {
        NothingAfter(limit, s, times, a, b);
      } else {
        TokensAndRefills(limit, t, times[1..], a, b);
        assert t.lastNs + RATE_REFILL_NS > now;
        assert Periods(t.lastNs, b) <= Periods(a, b) + 1;
        TimesMono(limit, Periods(t.lastNs, b), Periods(a, b) + 1);
        assert limit * (Periods(a, b) + 2) == limit * (Periods(a, b) + 1) + limit;
        assert One(ok) + t.tokens <= limit || !ok;
      }
    }
  }

  // ---- the two maps of the XDP program ----------------------------------------------

  type PerIp = map<nat, RateState>

  function Lookup(m: PerIp, src: nat): (s: Option<RateState>) {
    if src in m then Some(m[src]) else None
  }

  /** The single global slot is zeroed by the kernel; last_ns 0 means never used. */
  function Slot(g: RateState): (s: Option<RateState>) {
    if g.lastNs == 0 then None else Some(g)
  }

  class RateMaps {
    const configured: nat
    var perIp: PerIp
    var global: RateState

    constructor (configured: nat)
      ensures this.configured == configured && perIp == map[] && global == RateState(0, 0)
    {
      this.configured, perIp, global := configured, map[], RateState(0, 0);
    }

    method RateLimitAllows(src: nat, now: nat) returns (ok: bool)
      modifies this`perIp
      ensures perIp == old(perIp)[src := Draw(PerIpLimit(configured), Lookup(old(perIp), src), now).0]
      ensures ok == Draw(PerIpLimit(configured), Lookup(old(perIp), src), now).1
    {
      var limit := if configured == 0 then DEFAULT_RATE_LIMIT_PER_MINUTE else configured;
      var state := if src in perIp then perIp[src] else RateState(limit, now);
      if SatSub(now, state.lastNs) >= RATE_REFILL_NS {
        state := RateState(limit, now);
      }
      if state.tokens == 0 {
        perIp := perIp[src := state];
        return false;
      }
      state := state.(tokens := state.tokens - 1);
      perIp := perIp[src := state];
      return true;
    }

    method GlobalRateLimitAllows(now: nat) returns (ok: bool)
      requires now > 0
      modifies this`global
      ensures global == Draw(GlobalLimit(configured), Slot(old(global)), now).0
      ensures ok == Draw(GlobalLimit(configured), Slot(old(global)), now).1
    {
      var perIpLimit := if configured == 0 then DEFAULT_RATE_LIMIT_PER_MINUTE else configured;
      var limit := Min(Min(perIpLimit * GLOBAL_RATE_MULTIPLIER, U32_MAX), GLOBAL_RATE_MAX);
      if global.lastNs == 0 || SatSub(now, global.lastNs) >= RATE_REFILL_NS {
        global := RateState(limit, now);
      }
      if global.tokens == 0 {
        return false;
      }
      global := global.(tokens := global.tokens - 1);
      return true;
    }

    /** The admission test of `handle_udp`: length, then address, then everybody. Each bucket
        reads the clock for itself. */
    method AdmitsCandidate(src: nat, len: nat, now: nat, later: nat) returns (emitted: bool)
      requires 0 < now <= later
      modifies this`perIp, this`global
      ensures Maps(perIp, global) == Step(configured, old(Maps(perIp, global)), Candidate(src, len, now, later))
      ensures emitted == Emits(configured, old(Maps(perIp, global)), Candidate(src, len, now, later))
      ensures emitted ==> 143 <= len <= 176
    {
      emitted := SPA_MIN_LEN <= len <= SPA_MAX_LEN;
      if emitted {
        emitted := RateLimitAllows(src, now);
        if emitted {
          emitted := GlobalRateLimitAllows(later);
        }
      }
    }

    /** The kernel drops an address's bucket when the LRU map is full. */
    method EvictAddress(src: nat, now: nat)
      modifies this`perIp
      ensures Maps(perIp, global) == Step(configured, old(Maps(perIp, global)), Evict(src, now))
    {
      perIp := perIp - {src};
    }
  }

  // ---- whole runs -----------------------------------------------------------------

  datatype Maps = Maps(perIp: PerIp, global: RateState)

  /** A candidate reads the clock at `now` for its address and at `later` for everybody. */
  datatype RateEvent = Candidate(src: nat, len: nat, now: nat, later: nat) | Evict(src: nat, now: nat) {
    function End(): (t: nat) {
      if Candidate? then later else now
    }
  }

  /** The candidate reaches its address's bucket, and that bucket admits it. */
  predicate IpAdmits(configured: nat, m: Maps, ev: RateEvent) {
    && ev.Candidate? && SPA_MIN_LEN <= ev.len <= SPA_MAX_LEN
    && Draw(PerIpLimit(configured), Lookup(m.perIp, ev.src), ev.now).1
  }

  /** The candidate is pushed to the ring. */
  predicate Emits(configured: nat, m: Maps, ev: RateEvent) {
    IpAdmits(configured, m, ev) && Draw(GlobalLimit(configured), Slot(m.global), ev.later).1
  }

  function Step(configured: nat, m: Maps, ev: RateEvent): (m': Maps) {
    match ev
    case Evict(src, _) => m.(perIp := m.perIp - {src})
    case Candidate(src, len, now, later) =>
      if !(SPA_MIN_LEN <= len <= SPA_MAX_LEN) then m
      else
        var ip := Draw(PerIpLimit(configured), Lookup(m.perIp, src), now);
        Maps(m.perIp[src := ip.0],
             if ip.1 then Draw(GlobalLimit(configured), Slot(m.global), later).0 else m.global)
  }

  ghost predicate EventClock(evs: seq<RateEvent>) {
    && (forall i :: 0 <= i < |evs| ==> 0 < evs[i].now <= evs[i].End())
    && (forall i, j :: 0 <= i < j < |evs| ==> evs[i].End() <= evs[j].now)
  }

  /** The candidates pushed to the ring at times within [a, b]. */
  function EmittedIn(configured: nat, m: Maps, evs: seq<RateEvent>, a: nat, b: nat): (n: nat)
    decreases |evs|
  {
    if evs == [] then 0
    else
      One(Emits(configured, m, evs[0]) && a <= evs[0].End() <= b)
      + EmittedIn(configured, Step(configured, m, evs[0]), evs[1..], a, b)
  }

  /** The candidates of one address that its own bucket admits at times within [a, b]. */
  function IpAdmittedIn(configured: nat, m: Maps, evs: seq<RateEvent>, src: nat, a: nat, b: nat): (n: nat)
    decreases |evs|
  {
    if evs == [] then 0
    else
      One(evs[0].src == src && IpAdmits(configured, m, evs[0]) && a <= evs[0].now <= b)
      + IpAdmittedIn(configured, Step(configured, m, evs[0]), evs[1..], src, a, b)
  }

  /** The times at which the global bucket is drawn from. */
  function GlobalTimes(configured: nat, m: Maps, evs: seq<RateEvent>): (times: seq<nat>)
    decreases |evs|
  {
    if evs == [] then []
    else
      var rest := GlobalTimes(configured, Step(configured, m, evs[0]), evs[1..]);
      if IpAdmits(configured, m, evs[0]) then [evs[0].later] + rest else rest
  }

  lemma {:induction false} GlobalTimesOrdered(configured: nat, m: Maps, evs: seq<RateEvent>, low: nat)
    requires EventClock(evs) && forall i :: 0 <= i < |evs| ==> low <= evs[i].now
    ensures Clock(GlobalTimes(configured, m, evs))
    ensures forall i :: 0 <= i < |GlobalTimes(configured, m, evs)| ==> low <= GlobalTimes(configured, m, evs)[i]
    decreases |evs|
  {
    if evs != [] {
      GlobalTimesOrdered(configured, Step(configured, m, evs[0]), evs[1..], evs[0].End());
    }
  }

  lemma {:induction false} EmittedIsGlobalDraws(configured: nat, m: Maps, evs: seq<RateEvent>, a: nat, b: nat)
    requires EventClock(evs)
    ensures EmittedIn(configured, m, evs, a, b)
         == Admitted(GlobalLimit(configured), Slot(m.global), GlobalTimes(configured, m, evs), a, b)
    decreases |evs|
  {
    if evs != [] {
      var ev, next := evs[0], Step(configured, m, evs[0]);
      EmittedIsGlobalDraws(configured, next, evs[1..], a, b);
      if IpAdmits(configured, m, ev) {
        var times := GlobalTimes(configured, m, evs);
        assert times[0] == ev.later && times[1..] == GlobalTimes(configured, next, evs[1..]);
        assert Slot(next.global) == Some(next.global) || next.global.lastNs == 0;
      }
    }
  }

  /** From power-on, for any sources, any evictions and any non-decreasing positive clock,
      the ring receives at most L * (floor((b - a) / 60 s) + 2) candidates in [a, b], with
      L = min(256 * per-address limit, 1000000). */
  lemma GlobalBound(configured: nat, evs: seq<RateEvent>, a: nat, b: nat)
    requires EventClock(evs) && a <= b
    ensures EmittedIn(configured, Maps(map[], RateState(0, 0)), evs, a, b)
         <= Min(256 * (if configured == 0 then 5 else configured), 1_000_000) * ((b - a) / 60_000_000_000 + 2)
  {
    var m := Maps(map[], RateState(0, 0));
    EmittedIsGlobalDraws(configured, m, evs, a, b);
    GlobalTimesOrdered(configured, m, evs, 0);
    BucketBound(GlobalLimit(configured), None, GlobalTimes(configured, m, evs), a, b);
  }

  // ---- one address ------------------------------------------------------------------

  /** The times up to b at which one address's bucket is drawn from. */
  function IpTimes(evs: seq<RateEvent>, src: nat, b: nat): (times: seq<nat>)
    decreases |evs|
  {
    if evs == [] then []
    else
      var rest := IpTimes(evs[1..], src, b);
      if evs[0].Candidate? && evs[0].src == src && SPA_MIN_LEN <= evs[0].len <= SPA_MAX_LEN && evs[0].now <= b
      then [evs[0].now] + rest else rest
  }

  lemma {:induction false} IpTimesOrdered(evs: seq<RateEvent>, src: nat, b: nat, low: nat)
    requires EventClock(evs) && forall i :: 0 <= i < |evs| ==> low <= evs[i].now
    ensures Clock(IpTimes(evs, src, b))
    ensures forall i :: 0 <= i < |IpTimes(evs, src, b)| ==> low <= IpTimes(evs, src, b)[i]
    decreases |evs|
  {
    if evs != [] {
      IpTimesOrdered(evs[1..], src, b, evs[0].now);
    }
  }

  ghost predicate NotEvicted(evs: seq<RateEvent>, src: nat, a: nat, b: nat) {
    forall i :: 0 <= i < |evs| && evs[i].Evict? && evs[i].src == src ==> !(a <= evs[i].now <= b)
  }

  lemma {:induction false} NoIpDrawsAfter(configured: nat, m: Maps, evs: seq<RateEvent>, src: nat, a: nat, b: nat)
    requires forall i :: 0 <= i < |evs| ==> evs[i].now > b
    ensures IpAdmittedIn(configured, m, evs, src, a, b) == 0 && IpTimes(evs, src, b) == []
    decreases |evs|
  {
    if evs != [] {
      NoIpDrawsAfter(configured, Step(configured, m, evs[0]), evs[1..], src, a, b);
    }
  }

  lemma {:induction false} IpAdmittedIsDraws(configured: nat, m: Maps, evs: seq<RateEvent>, src: nat, a: nat, b: nat)
    requires EventClock(evs) && NotEvicted(evs, src, a, b)
    requires forall i :: 0 <= i < |evs| ==> a <= evs[i].now
    ensures IpAdmittedIn(configured, m, evs, src, a, b)
         == Admitted(PerIpLimit(configured), Lookup(m.perIp, src), IpTimes(evs, src, b), a, b)
    decreases |evs|
  {
    if evs != [] {
      var ev, next := evs[0], Step(configured, m, evs[0]);
      if ev.now > b {
        NoIpDrawsAfter(configured, m, evs, src, a, b);
      } else {
        IpAdmittedIsDraws(configured, next, evs[1..], src, a, b);
        var times := IpTimes(evs, src, b);
        if ev.Candidate? && ev.src == src && SPA_MIN_LEN <= ev.len <= SPA_MAX_LEN {
          assert times[0] == ev.now && times[1..] == IpTimes(evs[1..], src, b);
        }
      }
    }
  }

  ghost predicate BucketsSane(configured: nat, m: Maps, evs: seq<RateEvent>) {
    forall src :: src in m.perIp ==>
      && m.perIp[src].tokens <= PerIpLimit(configured)
      && forall i :: 0 <= i < |evs| ==> m.perIp[src].lastNs <= evs[i].now
  }

  lemma StepSane(configured: nat, m: Maps, evs: seq<RateEvent>)
    requires evs != [] && EventClock(evs) && BucketsSane(configured, m, evs)
    ensures EventClock(evs[1..]) && BucketsSane(configured, Step(configured, m, evs[0]), evs[1..])
  {
  }

  lemma {:induction false} IpBoundWithin(configured: nat, m: Maps, evs: seq<RateEvent>, src: nat, a: nat, b: nat)
    requires EventClock(evs) && BucketsSane(configured, m, evs) && NotEvicted(evs, src, a, b) && a <= b
    requires forall i :: 0 <= i < |evs| ==> a <= evs[i].now
    ensures IpAdmittedIn(configured, m, evs, src, a, b) <= PerIpLimit(configured) * (Periods(a, b) + 2)
  {
    IpAdmittedIsDraws(configured, m, evs, src, a, b);
    var low := if src in m.perIp then m.perIp[src].lastNs else 0;
    IpTimesOrdered(evs, src, b, low);
    BucketBound(PerIpLimit(configured), Lookup(m.perIp, src), IpTimes(evs, src, b), a, b);
  }

  lemma {:induction false} IpBoundFrom(configured: nat, m: Maps, evs: seq<RateEvent>, src: nat, a: nat, b: nat)
    requires EventClock(evs) && BucketsSane(configured, m, evs) && NotEvicted(evs, src, a, b) && a <= b
    ensures IpAdmittedIn(configured, m, evs, src, a, b) <= PerIpLimit(configured) * (Periods(a, b) + 2)
    decreases |evs|
  {
    if evs != [] {
      if evs[0].now < a {
        StepSane(configured, m, evs);
        IpBoundFrom(configured, Step(configured, m, evs[0]), evs[1..], src, a, b);
      } else {
        IpBoundWithin(configured, m, evs, src, a, b);
      }
    }
  }

  /** From power-on, an address that is not evicted within [a, b] is admitted by its own
      bucket at most its limit times (floor((b - a) / 60 s) + 2). */
  lemma PerAddressBound(configured: nat, evs: seq<RateEvent>, src: nat, a: nat, b: nat)
    requires EventClock(evs) && NotEvicted(evs, src, a, b) && a <= b
    ensures IpAdmittedIn(configured, Maps(map[], RateState(0, 0)), evs, src, a, b)
         <= (if configured == 0 then 5 else configured) * ((b - a) / 60_000_000_000 + 2)
  {
    IpBoundFrom(configured, Maps(map[], RateState(0, 0)), evs, src, a, b);
  }
}
