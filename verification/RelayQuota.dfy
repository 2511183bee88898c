/** How far the recorded bytes of a client can pass its quota, given that the lock is
    released before the new length is recorded and that stale metadata can be written back. */
module RelayQuota {
  import opened Bytes
  import opened RelayEngine

  function At(m: map<JobId, nat>, j: JobId): (n: nat) {
    if j in m then m[j] else 0
  }

  // ---- sums over jobs -----------------------------------------------------------------

  lemma {:induction false} SumMono(m: map<JobId, nat>, big: map<JobId, nat>)
    requires forall j :: j in m ==> m[j] <= At(big, j)
    ensures Sum(m) <= Sum(big)
    decreases |m|
  {
    if m != map[] {
      var k :| k in m;
      SumTake(m, k);
      if k in big {
        SumTake(big, k);
        SumMono(m - {k}, big - {k});
      } else {
        SumMono(m - {k}, big);
      }
    }
  }

  lemma SumUpdate(m: map<JobId, nat>, k: JobId, v: nat)
    ensures Sum(m[k := v]) <= Sum(m) + v
  {
    SumTake(m[k := v], k);
    assert m[k := v] - {k} == m - {k};
    SumMono(m - {k}, m);
  }

  // ---- the envelope ----------------------------------------------------------------------

  /** The largest count worker w could give job j by writing what it holds, without a check. */
  function HoldOn(worker: Worker, j: JobId, now: nat, maxNormalized: nat): (n: nat) {
    match worker
    case Read(job, copy) => if job == j then Counted(copy, now) else 0
    case FailRead(job, copy) => if job == j then Counted(copy, now) else 0
    case Passed(job, copy, body) => if job == j && copy.expiresAt > now then body + maxNormalized else 0
    case _ => 0
  }

  function Hold(worker: Worker, now: nat, maxNormalized: nat): (n: nat) {
    if worker.Free? then 0 else HoldOn(worker, worker.job, now, maxNormalized)
  }

  /** For each job, the most its record counts now or after any of the held writes. */
  function Envelope(base: map<JobId, nat>, workers: seq<Worker>, now: nat, maxNormalized: nat): (m: map<JobId, nat>) {
    var n := |workers|;
    if n == 0 then base
    else
      var m := Envelope(base, workers[..n - 1], now, maxNormalized);
      var w := workers[n - 1];
      if w.Free? then m else m[w.job := Max(At(m, w.job), Hold(w, now, maxNormalized))]
  }

  /** v is at least the record's count and every held write of job j. */
  ghost predicate Covers(base: map<JobId, nat>, workers: seq<Worker>, now: nat, maxNormalized: nat, j: JobId, v: nat) {
    At(base, j) <= v && forall w :: 0 <= w < |workers| ==> HoldOn(workers[w], j, now, maxNormalized) <= v
  }

  lemma {:induction false} EnvelopeCovers(base: map<JobId, nat>, workers: seq<Worker>, now: nat, maxNormalized: nat,
                                          j: JobId)
    ensures Covers(base, workers, now, maxNormalized, j, At(Envelope(base, workers, now, maxNormalized), j))
  {
    if workers != [] {
      EnvelopeCovers(base, workers[..|workers| - 1], now, maxNormalized, j);
      forall w | 0 <= w < |workers|
        ensures HoldOn(workers[w], j, now, maxNormalized) <= At(Envelope(base, workers, now, maxNormalized), j)
      {
        if w < |workers| - 1 {
          assert workers[w] == workers[..|workers| - 1][w];
        }
      }
    }
  }

  lemma {:induction false} EnvelopeLeast(base: map<JobId, nat>, workers: seq<Worker>, now: nat, maxNormalized: nat,
                                         j: JobId, v: nat)
    requires Covers(base, workers, now, maxNormalized, j, v)
    ensures At(Envelope(base, workers, now, maxNormalized), j) <= v
  {
    if workers != [] {
      EnvelopeLeast(base, workers[..|workers| - 1], now, maxNormalized, j, v);
      assert HoldOn(workers[|workers| - 1], j, now, maxNormalized) <= v;
    }
  }

  function HoldSum(workers: seq<Worker>, now: nat, maxNormalized: nat): (n: nat) {
    if workers == [] then 0
    else HoldSum(workers[..|workers| - 1], now, maxNormalized) + Hold(workers[|workers| - 1], now, maxNormalized)
  }

  lemma {:induction false} EnvelopeSum(base: map<JobId, nat>, workers: seq<Worker>, now: nat, maxNormalized: nat)
    ensures Sum(Envelope(base, workers, now, maxNormalized)) <= Sum(base) + HoldSum(workers, now, maxNormalized)
  {
    var n := |workers|;
    if n > 0 {
      EnvelopeSum(base, workers[..n - 1], now, maxNormalized);
      var m := Envelope(base, workers[..n - 1], now, maxNormalized);
      var w := workers[n - 1];
      if !w.Free? {
        var h := Hold(w, now, maxNormalized);
        if At(m, w.job) < h {
          SumUpdate(m, w.job, h);
        } else {
          SumMono(m[w.job := At(m, w.job)], m);
        }
      }
    }
  }

  /** All workers but one hold at most an object and a normalized artifact each. */
  lemma {:induction false} HoldSumBound(workers: seq<Worker>, now: nat, maxNormalized: nat, each: nat, w: nat)
    requires w < |workers| && forall v :: 0 <= v < |workers| ==> Hold(workers[v], now, maxNormalized) <= each
    ensures HoldSum(workers, now, maxNormalized) <= Hold(workers[w], now, maxNormalized) + (|workers| - 1) * each
    decreases |workers|
  {
    var n := |workers|;
    var init := workers[..n - 1];
    assert forall v :: 0 <= v < n - 1 ==> init[v] == workers[v];
    if w == n - 1 {
      AllHoldBound(init, now, maxNormalized, each);
    } else {
      HoldSumBound(init, now, maxNormalized, each, w);
      assert (n - 1) * each == (n - 2) * each + each;
    }
  }

  lemma {:induction false} AllHoldBound(workers: seq<Worker>, now: nat, maxNormalized: nat, each: nat)
    requires forall v :: 0 <= v < |workers| ==> Hold(workers[v], now, maxNormalized) <= each
    ensures HoldSum(workers, now, maxNormalized) <= |workers| * each
  {
    if workers != [] {
      AllHoldBound(workers[..|workers| - 1], now, maxNormalized, each);
      assert |workers| * each == (|workers| - 1) * each + each;
    }
  }

  // ---- the bound over every run -------------------------------------------------------------

  /** The quota, one object for every other worker, one normalized artifact for each worker. */
  function Bound(c: Config, workers: nat, maxNormalized: nat): (n: nat)
    requires workers >= 1
  {
    c.maxBytes + (workers - 1) * c.maxObjectLen + workers * maxNormalized
  }

  predicate JobSized(job: Job, c: Config, maxNormalized: nat) {
    job.bodyLen <= c.maxObjectLen && (job.normalizedLen.Some? ==> job.normalizedLen.value <= maxNormalized)
  }

  predicate WorkerSized(w: Worker, c: Config, maxNormalized: nat) {
    match w
    case Read(_, copy) => JobSized(copy, c, maxNormalized)
    case Fetching(_, copy) => JobSized(copy, c, maxNormalized)
    case Passed(_, copy, body) => JobSized(copy, c, maxNormalized) && body <= c.maxObjectLen
    case FailRead(_, copy) => JobSized(copy, c, maxNormalized)
    case _ => true
  }

  ghost predicate Sized(r: Relay, maxNormalized: nat) {
    && (forall j :: j in r.recs ==> JobSized(r.recs[j], r.config, maxNormalized))
    && (forall w :: 0 <= w < |r.workers| ==> WorkerSized(r.workers[w], r.config, maxNormalized))
  }

  ghost function EnvelopeOf(r: Relay, maxNormalized: nat): (m: map<JobId, nat>) {
    Envelope(CountedBytes(r.recs, r.now), r.workers, r.now, maxNormalized)
  }

  ghost predicate WithinBound(r: Relay, maxNormalized: nat) {
    |r.workers| >= 1 && Sum(EnvelopeOf(r, maxNormalized)) <= Bound(r.config, |r.workers|, maxNormalized)
  }

  /** No normalized artifact is larger than this. */
  predicate NormalizedUpTo(a: Action, maxNormalized: nat) {
    a.WriteComplete? && a.normalized.Some? ==> a.normalized.value <= maxNormalized
  }

  lemma NextSized(r: Relay, a: Action, r': Relay, maxNormalized: nat)
    requires Sized(r, maxNormalized) && Next(r, a, r') && NormalizedUpTo(a, maxNormalized)
    ensures Sized(r', maxNormalized)
  {
  }

  ghost predicate CoversNow(r: Relay, maxNormalized: nat, j: JobId, v: nat) {
    Covers(CountedBytes(r.recs, r.now), r.workers, r.now, maxNormalized, j, v)
  }

  lemma StepRecord(r: Relay, a: Action, r': Relay, maxNormalized: nat, j: JobId, v: nat)
    requires CoversNow(r, maxNormalized, j, v) && Next(r, a, r') && NormalizedUpTo(a, maxNormalized)
    requires Sized(r, maxNormalized)
    ensures At(CountedBytes(r'.recs, r'.now), j) <= v
  {
  }

  lemma StepWorker(r: Relay, a: Action, r': Relay, maxNormalized: nat, j: JobId, v: nat, w: nat)
    requires CoversNow(r, maxNormalized, j, v) && Next(r, a, r') && w < |r'.workers|
    requires !(a.QuotaCheck? && r'.workers[a.w].Passed?)
    ensures HoldOn(r'.workers[w], j, r'.now, maxNormalized) <= v
  {
    assert HoldOn(r.workers[w], j, r.now, maxNormalized) <= v;
  }

  /** Every step but a passed quota check only moves, lowers or forgets what is held. */
  lemma StepCovered(r: Relay, a: Action, r': Relay, maxNormalized: nat, j: JobId)
    requires Sized(r, maxNormalized) && Next(r, a, r') && NormalizedUpTo(a, maxNormalized)
    requires !(a.QuotaCheck? && r'.workers[a.w].Passed?)
    ensures At(EnvelopeOf(r', maxNormalized), j) <= At(EnvelopeOf(r, maxNormalized), j)
  {
    var v := At(EnvelopeOf(r, maxNormalized), j);
    EnvelopeCovers(CountedBytes(r.recs, r.now), r.workers, r.now, maxNormalized, j);
    StepRecord(r, a, r', maxNormalized, j, v);
    forall w | 0 <= w < |r'.workers|
      ensures HoldOn(r'.workers[w], j, r'.now, maxNormalized) <= v
    {
      StepWorker(r, a, r', maxNormalized, j, v, w);
    }
    EnvelopeLeast(CountedBytes(r'.recs, r'.now), r'.workers, r'.now, maxNormalized, j, v);
  }

  lemma BoundArithmetic(c: Config, n: nat, maxNormalized: nat, usage: nat, body: nat, held: nat)
    requires n >= 1 && usage + body <= c.maxBytes
    requires held <= body + maxNormalized + (n - 1) * (c.maxObjectLen + maxNormalized)
    ensures usage + held <= Bound(c, n, maxNormalized)
  {
    var k := n - 1;
    assert k * (c.maxObjectLen + maxNormalized) == k * c.maxObjectLen + k * maxNormalized;
    assert n * maxNormalized == k * maxNormalized + maxNormalized;
  }

  /** A passed check leaves room for its own body; the others may each still add one. */
  lemma PassedWithin(r: Relay, a: Action, r': Relay, maxNormalized: nat)
    requires Sized(r', maxNormalized) && |r.workers| >= 1
    requires Next(r, a, r') && a.QuotaCheck? && r'.workers[a.w].Passed?
    ensures WithinBound(r', maxNormalized)
  {
    var each := r'.config.maxObjectLen + maxNormalized;
    forall v | 0 <= v < |r'.workers|
      ensures Hold(r'.workers[v], r'.now, maxNormalized) <= each
    {
      assert WorkerSized(r'.workers[v], r'.config, maxNormalized);
    }
    EnvelopeSum(CountedBytes(r'.recs, r'.now), r'.workers, r'.now, maxNormalized);
    HoldSumBound(r'.workers, r'.now, maxNormalized, each, a.w);
    BoundArithmetic(r'.config, |r'.workers|, maxNormalized, Usage(r.recs, r.now), a.body,
                    HoldSum(r'.workers, r'.now, maxNormalized));
  }

  lemma NextWithin(r: Relay, a: Action, r': Relay, maxNormalized: nat)
    requires Sized(r, maxNormalized) && WithinBound(r, maxNormalized)
    requires Next(r, a, r') && NormalizedUpTo(a, maxNormalized)
    ensures WithinBound(r', maxNormalized)
  {
    NextSized(r, a, r', maxNormalized);
    if a.QuotaCheck? && r'.workers[a.w].Passed? {
      PassedWithin(r, a, r', maxNormalized);
    } else {
      forall j | j in EnvelopeOf(r', maxNormalized)
        ensures EnvelopeOf(r', maxNormalized)[j] <= At(EnvelopeOf(r, maxNormalized), j)
      {
        StepCovered(r, a, r', maxNormalized, j);
      }
      SumMono(EnvelopeOf(r', maxNormalized), EnvelopeOf(r, maxNormalized));
    }
  }

  lemma InitialWithin(r: Relay, maxNormalized: nat)
    requires Initial(r)
    ensures Sized(r, maxNormalized) && WithinBound(r, maxNormalized)
  {
    EnvelopeSum(CountedBytes(r.recs, r.now), r.workers, r.now, maxNormalized);
    AllHoldBound(r.workers, r.now, maxNormalized, 0);
  }

  lemma {:induction false} RunWithin(rs: seq<Relay>, acts: seq<Action>, maxNormalized: nat)
    requires IsRun(rs, acts) && forall i :: 0 <= i < |acts| ==> NormalizedUpTo(acts[i], maxNormalized)
    ensures Sized(rs[|acts|], maxNormalized) && WithinBound(rs[|acts|], maxNormalized)
    decreases |acts|
  {
    var n := |acts|;
    if n == 0 {
      InitialWithin(rs[0], maxNormalized);
    } else {
      RunWithin(rs[..n], acts[..n - 1], maxNormalized);
      NextSized(rs[n - 1], acts[n - 1], rs[n], maxNormalized);
      NextWithin(rs[n - 1], acts[n - 1], rs[n], maxNormalized);
    }
  }

  lemma UsageInEnvelope(r: Relay, maxNormalized: nat)
    ensures Usage(r.recs, r.now) <= Sum(EnvelopeOf(r, maxNormalized))
  {
    var base := CountedBytes(r.recs, r.now);
    forall j | j in base
      ensures base[j] <= At(EnvelopeOf(r, maxNormalized), j)
    {
      EnvelopeCovers(base, r.workers, r.now, maxNormalized, j);
    }
    SumMono(base, EnvelopeOf(r, maxNormalized));
  }

  /** In every run, the recorded bytes of unexpired jobs are at most
      max_bytes + (W - 1) * max_object_len + W * N; with one worker and no normalization this
      is the quota itself. */
  lemma RecordedBytesBounded(rs: seq<Relay>, acts: seq<Action>, maxNormalized: nat)
    requires IsRun(rs, acts) && forall i :: 0 <= i < |acts| ==> NormalizedUpTo(acts[i], maxNormalized)
    ensures var r := rs[|acts|];
            && |r.workers| >= 1
            && Usage(r.recs, r.now) <= Bound(r.config, |r.workers|, maxNormalized)
            && (|r.workers| == 1 && maxNormalized == 0 ==> Usage(r.recs, r.now) <= r.config.maxBytes)
  {
    RunWithin(rs, acts, maxNormalized);
    UsageInEnvelope(rs[|acts|], maxNormalized);
  }
}
