/** What the token buckets do not refuse: an attempt is turned away only when its bucket has
    admitted its full limit within the last 60 s, so whoever keeps below the limit is served. */
module RateService {
  import opened Bytes
  import opened RateLimit

  // ---- one bucket, in closed form ----------------------------------------------------

  function After(limit: nat, times: seq<nat>): (s: Option<RateState>) {
    if times == [] then None else Some(Draw(limit, After(limit, times[..|times| - 1]), times[|times| - 1]).0)
  }

  /** Whether the n-th attempt is admitted, on a bucket that starts empty. */
  predicate Admits(limit: nat, times: seq<nat>, n: nat)
    requires n < |times|
  {
    Draw(limit, After(limit, times[..n]), times[n]).1
  }

  /** The attempt that last filled the bucket, up to the n-th: the first one, and then each that
      comes 60 s or more after the one before. */
  function Filler(times: seq<nat>, n: nat): (f: nat)
    requires n < |times|
    ensures f <= n
  {
    if n == 0 then 0
    else
      var f := Filler(times, n - 1);
      if times[n] >= times[f] + 60_000_000_000 then n else f
  }

  lemma {:induction false} FillerIsRecent(times: seq<nat>, n: nat)
    requires n < |times|
    ensures times[n] < times[Filler(times, n)] + 60_000_000_000
  {
  }

  /** A draw on a bucket filled at `last` and drawn from k times since. */
  lemma DrawAgain(limit: nat, k: nat, last: nat, now: nat)
    requires last <= now
    ensures Draw(limit, Some(RateState(SatSub(limit, k), last)), now)
         == if now >= last + 60_000_000_000 then (RateState(SatSub(limit, 1), now), limit > 0)
            else (RateState(SatSub(limit, k + 1), last), k < limit)
  {
  }

  lemma DrawFirst(limit: nat, now: nat)
    ensures Draw(limit, None, now) == (RateState(SatSub(limit, 1), now), limit > 0)
  {
  }

  lemma AfterNext(limit: nat, times: seq<nat>, n: nat)
    requires n < |times|
    ensures After(limit, times[..n + 1]) == Some(Draw(limit, After(limit, times[..n]), times[n]).0)
  {
    assert times[..n + 1][..n] == times[..n];
  }

  lemma {:induction false} BucketAfter(limit: nat, times: seq<nat>, n: nat)
    requires Clock(times) && n < |times|
    ensures var f := Filler(times, n);
            After(limit, times[..n + 1]) == Some(RateState(SatSub(limit, n + 1 - f), times[f]))
    ensures Admits(limit, times, n) <==> n - Filler(times, n) < limit
  {
    AfterNext(limit, times, n);
    if n == 0 {
      DrawFirst(limit, times[0]);
    } else {
      BucketAfter(limit, times, n - 1);
      var f := Filler(times, n - 1);
      DrawAgain(limit, n - f, times[f], times[n]);
    }
  }

  /** An attempt is refused exactly when the bucket was filled less than 60 s before and has
      admitted as many attempts since as the limit says. */
  lemma RefusedIff(limit: nat, times: seq<nat>, n: nat)
    requires Clock(times) && n < |times|
    ensures !Admits(limit, times, n) <==>
              exists f: nat :: f + limit <= n && times[n] < times[f] + 60_000_000_000 && f == Filler(times, n)
                               && forall i: nat :: f <= i < f + limit ==> Admits(limit, times, i)
  {
    var f := Filler(times, n);
    FillerIsRecent(times, n);
    BucketAfter(limit, times, n);
    if f + limit <= n {
      forall i: nat | f <= i < f + limit
        ensures Admits(limit, times, i)
      {
        SameFiller(times, i, n);
        BucketAfter(limit, times, i);
      }
    }
  }

  lemma {:induction false} SameFiller(times: seq<nat>, i: nat, n: nat)
    requires n < |times| && Filler(times, n) <= i <= n
    ensures Filler(times, i) == Filler(times, n)
    decreases n
  {
    if i < n {
      SameFiller(times, i, n - 1);
    }
  }

  /** Where no 60 s see more attempts than the limit, none is refused. */
  lemma NoneRefused(limit: nat, times: seq<nat>, n: nat)
    requires Clock(times) && n < |times|
    requires forall i: nat, j: nat :: i <= j < |times| && times[j] < times[i] + 60_000_000_000 ==> j + 1 - i <= limit
    ensures Admits(limit, times, n)
  {
    FillerIsRecent(times, n);
    BucketAfter(limit, times, n);
  }

  // ---- the maps of the XDP program -------------------------------------------------------

  /** The maps after these events, from power-on. */
  function MapsAfter(configured: nat, evs: seq<RateEvent>): (m: Maps) {
    if evs == [] then Maps(map[], RateState(0, 0))
    else Step(configured, MapsAfter(configured, evs[..|evs| - 1]), evs[|evs| - 1])
  }

  /** A datagram that is a candidate by its length. */
  predicate Sized(ev: RateEvent) {
    ev.Candidate? && 143 <= ev.len <= 176
  }

  predicate Of(ev: RateEvent, src: Option<nat>) {
    Sized(ev) && (src.Some? ==> ev.src == src.value)
  }

  /** How many of the events from f to n are candidates, of one address or of any. */
  function Count(evs: seq<RateEvent>, src: Option<nat>, f: nat, n: nat): (k: nat)
    requires f <= n <= |evs|
    decreases n
  {
    if f == n then 0 else Count(evs, src, f, n - 1) + One(Of(evs[n - 1], src))
  }

  /** When the bucket of the address, or that of all, is drawn from. */
  function TimeOf(ev: RateEvent, src: Option<nat>): (t: nat) {
    if src.Some? then ev.now else ev.End()
  }

  /** No 60 s see more candidates, of the address or of all together, than this. */
  ghost predicate Sparse(evs: seq<RateEvent>, src: Option<nat>, limit: nat) {
    forall f: nat, n: nat :: f <= n < |evs| && Within(evs, src, f, n) ==> Count(evs, src, f, n + 1) <= limit
  }

  predicate Within(evs: seq<RateEvent>, src: Option<nat>, f: nat, n: nat)
    requires f <= n < |evs|
  {
    Of(evs[f], src) && Of(evs[n], src) && TimeOf(evs[n], src) < TimeOf(evs[f], src) + 60_000_000_000
  }

  /** The bucket was filled at the f-th event, and has lost no more tokens than there were
      candidates since. */
  ghost predicate FilledAt(evs: seq<RateEvent>, n: nat, src: Option<nat>, limit: nat, s: RateState, f: nat)
    requires n <= |evs|
  {
    && f < n && Of(evs[f], src) && s.lastNs == TimeOf(evs[f], src)
    && s.tokens + Count(evs, src, f, n) >= limit
  }

  ghost predicate Filled(evs: seq<RateEvent>, n: nat, src: Option<nat>, limit: nat, s: Option<RateState>)
    requires n <= |evs|
  {
    s.Some? ==> exists f: nat :: FilledAt(evs, n, src, limit, s.value, f)
  }

  lemma FilledOn(evs: seq<RateEvent>, n: nat, src: Option<nat>, limit: nat, s: RateState, f: nat)
    requires n < |evs| && FilledAt(evs, n, src, limit, s, f)
    ensures FilledAt(evs, n + 1, src, limit, s, f)
  {
  }

  /** A bucket that is not drawn from. */
  lemma FilledStays(evs: seq<RateEvent>, n: nat, src: Option<nat>, limit: nat, s: Option<RateState>)
    requires n < |evs| && Filled(evs, n, src, limit, s)
    ensures Filled(evs, n + 1, src, limit, s)
  {
    if s.Some? {
      var f: nat :| FilledAt(evs, n, src, limit, s.value, f);
      FilledOn(evs, n, src, limit, s.value, f);
    }
  }

  lemma InOrder(evs: seq<RateEvent>, src: Option<nat>, f: nat, n: nat)
    requires EventClock(evs) && f < n < |evs|
    ensures 0 < TimeOf(evs[f], src) <= TimeOf(evs[n], src)
  {
    assert evs[f].End() <= evs[n].now;
  }

  /** A candidate draws: the bucket is filled by it or by the one before, and it is admitted if
      candidates are sparse. */
  lemma DrawFilled(evs: seq<RateEvent>, n: nat, src: Option<nat>, limit: nat, s: Option<RateState>)
    requires EventClock(evs) && n < |evs| && Of(evs[n], src) && Filled(evs, n, src, limit, s)
    ensures var d := Draw(limit, s, TimeOf(evs[n], src));
            && Filled(evs, n + 1, src, limit, Some(d.0)) && d.0.lastNs > 0
            && (Sparse(evs, src, limit) ==> d.1)
  {
    var now := TimeOf(evs[n], src);
    var d := Draw(limit, s, now);
    CountOne(evs, src, n);
    assert Sparse(evs, src, limit) ==> limit > 0 by {
      assert Within(evs, src, n, n);
    }
    if s == None || now >= s.value.lastNs + 60_000_000_000 {
      assert FilledAt(evs, n + 1, src, limit, d.0, n);
    } else {
      var f: nat :| FilledAt(evs, n, src, limit, s.value, f);
      InOrder(evs, src, f, n);
      assert Within(evs, src, f, n);
      assert Count(evs, src, f, n + 1) == Count(evs, src, f, n) + 1;
      assert FilledAt(evs, n + 1, src, limit, d.0, f);
    }
  }

  lemma CountOne(evs: seq<RateEvent>, src: Option<nat>, n: nat)
    requires n < |evs| && Of(evs[n], src)
    ensures Count(evs, src, n, n + 1) == 1
  {
    assert Count(evs, src, n, n) == 0;
  }

  lemma MapsNext(configured: nat, evs: seq<RateEvent>, n: nat)
    requires n < |evs|
    ensures MapsAfter(configured, evs[..n + 1]) == Step(configured, MapsAfter(configured, evs[..n]), evs[n])
  {
    assert evs[..n + 1][..n] == evs[..n];
  }

  /** The limit of an address: as configured, 5 when that is 0. */
  function Own(configured: nat): (limit: nat) {
    if configured == 0 then 5 else configured
  }

  /** The limit of all addresses together. */
  function Shared(configured: nat): (limit: nat) {
    Min(256 * Own(configured), 1_000_000)
  }

  /** Whatever is evicted, an address's bucket is filled by one of its candidates. */
  lemma {:induction false} OwnFilled(configured: nat, evs: seq<RateEvent>, src: nat, n: nat)
    requires EventClock(evs) && n <= |evs|
    ensures Filled(evs, n, Some(src), Own(configured), Lookup(MapsAfter(configured, evs[..n]).perIp, src))
  {
    if n > 0 {
      var m, ev := MapsAfter(configured, evs[..n - 1]), evs[n - 1];
      OwnFilled(configured, evs, src, n - 1);
      MapsNext(configured, evs, n - 1);
      if Of(ev, Some(src)) {
        DrawFilled(evs, n - 1, Some(src), Own(configured), Lookup(m.perIp, src));
      } else {
        FilledStays(evs, n - 1, Some(src), Own(configured), Lookup(m.perIp, src));
      }
    }
  }

  lemma {:induction false} SharedFilled(configured: nat, evs: seq<RateEvent>, n: nat)
    requires EventClock(evs) && n <= |evs|
    ensures Filled(evs, n, None, Shared(configured), Slot(MapsAfter(configured, evs[..n]).global))
  {
    if n > 0 {
      var m, ev := MapsAfter(configured, evs[..n - 1]), evs[n - 1];
      SharedFilled(configured, evs, n - 1);
      MapsNext(configured, evs, n - 1);
      if IpAdmits(configured, m, ev) {
        DrawFilled(evs, n - 1, None, Shared(configured), Slot(m.global));
      } else {
        FilledStays(evs, n - 1, None, Shared(configured), Slot(m.global));
      }
    }
  }

  /** From power-on, whatever others send and whatever is evicted: an address that sends no more
      candidates than its limit in any 60 s has every one of them admitted by its bucket. */
  lemma AddressServed(configured: nat, evs: seq<RateEvent>, src: nat, n: nat)
    requires EventClock(evs) && n < |evs| && Of(evs[n], Some(src)) && Sparse(evs, Some(src), Own(configured))
    ensures IpAdmits(configured, MapsAfter(configured, evs[..n]), evs[n])
  {
    OwnFilled(configured, evs, src, n);
    DrawFilled(evs, n, Some(src), Own(configured), Lookup(MapsAfter(configured, evs[..n]).perIp, src));
  }

  /** And if all addresses together send no more than min(256 * limit, 1000000) in any 60 s, every
      one of them reaches the ring. */
  lemma CandidateEmitted(configured: nat, evs: seq<RateEvent>, src: nat, n: nat)
    requires EventClock(evs) && n < |evs| && Of(evs[n], Some(src)) && Sparse(evs, Some(src), Own(configured))
    requires Sparse(evs, None, Shared(configured))
    ensures Emits(configured, MapsAfter(configured, evs[..n]), evs[n])
  {
    AddressServed(configured, evs, src, n);
    SharedFilled(configured, evs, n);
    DrawFilled(evs, n, None, Shared(configured), Slot(MapsAfter(configured, evs[..n]).global));
  }
}
