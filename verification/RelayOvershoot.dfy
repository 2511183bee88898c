/** The quota bound is attained: whatever the quota, the object limit and the number of
    workers, there is a run in which the store is filled to one object below the quota and
    every worker then passes the check before any of them has recorded its length. */
module RelayOvershoot {
  import opened Bytes
  import opened RelayEngine
  import opened RelayQuota

  /** A run whose normalized artifacts are at most this long. */
  ghost predicate SizedRun(rs: seq<Relay>, acts: seq<Action>, normalized: nat) {
    IsRun(rs, acts) && forall i :: 0 <= i < |acts| ==> NormalizedUpTo(acts[i], normalized)
  }

  lemma Extend(rs: seq<Relay>, acts: seq<Action>, normalized: nat, a: Action, r: Relay)
    returns (rs': seq<Relay>, acts': seq<Action>)
    requires SizedRun(rs, acts, normalized) && Next(rs[|acts|], a, r) && NormalizedUpTo(a, normalized)
    ensures SizedRun(rs', acts', normalized) && rs'[|acts'|] == r
  {
    rs', acts' := rs + [r], acts + [a];
    forall i | 0 <= i < |acts'|
      ensures Next(rs'[i], acts'[i], rs'[i + 1])
    {
      if i < |acts| {
        assert rs'[i] == rs[i] && rs'[i + 1] == rs[i + 1] && acts'[i] == acts[i];
      }
    }
  }

  // ---- sums and counts -----------------------------------------------------------------------

  lemma SumFresh(m: map<JobId, nat>, k: JobId, v: nat)
    requires k !in m
    ensures Sum(m[k := v]) == Sum(m) + v
  {
    SumTake(m[k := v], k);
    assert m[k := v] - {k} == m;
  }

  /** A record's new length replaces its old one in the usage. */
  lemma UsageUpdate(recs: Records, j: JobId, was: Job, job: Job)
    requires j in recs && recs[j] == was
    ensures Usage(recs[j := job], 0) + Counted(was, 0) == Usage(recs, 0) + Counted(job, 0)
  {
    var old_, new_ := CountedBytes(recs, 0), CountedBytes(recs[j := job], 0);
    SumTake(old_, j);
    SumTake(new_, j);
    assert new_ - {j} == old_ - {j};
  }

  lemma UsageFresh(recs: Records, j: JobId, job: Job)
    requires j !in recs
    ensures Usage(recs[j := job], 0) == Usage(recs, 0) + Counted(job, 0)
  {
    assert CountedBytes(recs[j := job], 0) == CountedBytes(recs, 0)[j := Counted(job, 0)];
    SumFresh(CountedBytes(recs, 0), j, Counted(job, 0));
  }

  function UpTo(n: nat): (ids: set<JobId>)
    ensures |ids| == n
    ensures forall i: nat :: i in ids <==> i < n
  {
    if n == 0 then {} else UpTo(n - 1) + {n - 1}
  }

  /** Jobs 0 to n - 1 are on record, none of them expired. */
  ghost predicate Numbered(recs: Records, n: nat) {
    forall i: nat :: (i in recs <==> i < n) && (i in recs ==> recs[i].expiresAt > 0)
  }

  lemma LiveCount(recs: Records, n: nat)
    requires Numbered(recs, n)
    ensures |LiveJobs(recs, 0)| == n
  {
    assert LiveJobs(recs, 0) == UpTo(n);
  }

  // ---- one job after the other -----------------------------------------------------------------

  /** At time 0 with n unexpired jobs that take up `used`, an empty queue and nobody enqueuing. */
  ghost predicate Quiet(r: Relay, c: Config, n: nat, used: nat) {
    && r.config == c && r.now == 0 && r.channel == [] && r.enqueuing == None && r.scan == Some({})
    && Numbered(r.recs, n) && Usage(r.recs, 0) == used
  }

  function Fresh(c: Config): (job: Job) {
    Job(Queued, 0, None, c.jobTtl)
  }

  /** Job n is submitted and worker w takes it up to its fetch. */
  lemma StartJob(rs: seq<Relay>, acts: seq<Action>, normalized: nat, c: Config, n: nat, used: nat, w: nat)
    returns (rs': seq<Relay>, acts': seq<Action>)
    requires SizedRun(rs, acts, normalized) && Quiet(rs[|acts|], c, n, used)
    requires n < c.maxJobs && used < c.maxBytes && c.jobTtl >= 1
    requires w < |rs[|acts|].workers| && rs[|acts|].workers[w] == Free
    ensures SizedRun(rs', acts', normalized) && Quiet(rs'[|acts'|], c, n + 1, used)
    ensures rs'[|acts'|].workers == rs[|acts|].workers[w := Fetching(n, Fresh(c))]
    ensures rs'[|acts'|].recs == rs[|acts|].recs[n := Fresh(c).(status := Running)]
  {
    var r := rs[|acts|];
    LiveCount(r.recs, n);
    var written := r.(recs := r.recs[n := Fresh(c)], enqueuing := Some(n));
    rs', acts' := Extend(rs, acts, normalized, SubmitWrite(n), written);
    var sent := written.(channel := [n], enqueuing := None);
    rs', acts' := Extend(rs', acts', normalized, SubmitSend, sent);
    rs', acts' := TakeJob(rs', acts', normalized, sent, n, w);
    UsageFresh(r.recs, n, Fresh(c).(status := Running));
    assert sent.recs[n := Fresh(c).(status := Running)] == r.recs[n := Fresh(c).(status := Running)];
  }

  lemma TakeJob(rs: seq<Relay>, acts: seq<Action>, normalized: nat, r: Relay, j: JobId, w: nat)
    returns (rs': seq<Relay>, acts': seq<Action>)
    requires SizedRun(rs, acts, normalized) && rs[|acts|] == r && r.channel == [j]
    requires w < |r.workers| && r.workers[w] == Free && j in r.recs && !r.recs[j].status.Complete?
    ensures SizedRun(rs', acts', normalized)
    ensures rs'[|acts'|] == r.(channel := [], workers := r.workers[w := Fetching(j, r.recs[j])],
                               recs := r.recs[j := r.recs[j].(status := Running)])
  {
    var copy := r.recs[j];
    var picked := SetWorker(r, w, Picked(j)).(channel := []);
    rs', acts' := Extend(rs, acts, normalized, Receive(w), picked);
    var read := SetWorker(picked, w, Read(j, copy));
    rs', acts' := Extend(rs', acts', normalized, ReadRecord(w), read);
    var fetching := SetWorker(read, w, Fetching(j, copy)).(recs := r.recs[j := copy.(status := Running)]);
    rs', acts' := Extend(rs', acts', normalized, WriteRunning(w), fetching);
    assert fetching.workers == r.workers[w := Fetching(j, copy)];
  }

  /** Worker w passes the check with a body that fits. */
  lemma PassCheck(rs: seq<Relay>, acts: seq<Action>, normalized: nat, w: nat, body: nat)
    returns (rs': seq<Relay>, acts': seq<Action>)
    requires SizedRun(rs, acts, normalized)
    requires var r := rs[|acts|];
             && w < |r.workers| && r.workers[w].Fetching? && r.enqueuing == None
             && FitsQuota(r.config, Usage(r.recs, r.now), body)
    ensures SizedRun(rs', acts', normalized)
    ensures var r := rs[|acts|];
            rs'[|acts'|] == r.(workers := r.workers[w := Passed(r.workers[w].job, r.workers[w].copy, body)])
  {
    var r := rs[|acts|];
    rs', acts' := Extend(rs, acts, normalized, QuotaCheck(w, body),
                         SetWorker(r, w, Passed(r.workers[w].job, r.workers[w].copy, body)));
  }

  /** Worker w records the result of a fresh job. */
  lemma RecordJob(rs: seq<Relay>, acts: seq<Action>, normalized: nat, c: Config, n: nat, used: nat,
                  w: nat, j: JobId, body: nat, markdown: Option<nat>)
    returns (rs': seq<Relay>, acts': seq<Action>)
    requires SizedRun(rs, acts, normalized) && Quiet(rs[|acts|], c, n, used) && c.jobTtl >= 1
    requires w < |rs[|acts|].workers| && rs[|acts|].workers[w] == Passed(j, Fresh(c), body)
    requires j < n && rs[|acts|].recs[j] == Fresh(c).(status := Running)
    requires markdown.Some? ==> markdown.value <= normalized
    ensures SizedRun(rs', acts', normalized)
    ensures Quiet(rs'[|acts'|], c, n, used + body + if markdown.Some? then markdown.value else 0)
    ensures rs'[|acts'|].workers == rs[|acts|].workers[w := Free]
    ensures rs'[|acts'|].recs == rs[|acts|].recs[j := Job(Complete, body, markdown, c.jobTtl)]
  {
    var r := rs[|acts|];
    var done := Job(Complete, body, markdown, c.jobTtl);
    rs', acts' := Extend(rs, acts, normalized, WriteComplete(w, markdown),
                         SetWorker(r, w, Free).(recs := r.recs[j := done]));
    UsageUpdate(r.recs, j, Fresh(c).(status := Running), done);
  }

  // ---- filling the store -----------------------------------------------------------------------

  /** The objects it takes to store an amount, all but the last of full size. */
  function JobsFor(amount: nat, each: nat): (n: nat)
    requires each >= 1
    decreases amount
  {
    if amount == 0 then 0 else 1 + JobsFor(amount - Min(amount, each), each)
  }

  /** It is the amount divided by the object size, rounded up. */
  lemma {:induction false} JobsForIsLeast(amount: nat, each: nat)
    requires each >= 1
    ensures amount <= JobsFor(amount, each) * each < amount + each
    decreases amount
  {
    if amount > 0 {
      var rest := amount - Min(amount, each);
      JobsForIsLeast(rest, each);
      var n := JobsFor(rest, each);
      assert (n + 1) * each == n * each + each;
    }
  }

  lemma AllFree(c: Config, workers: nat) returns (rs: seq<Relay>, acts: seq<Action>)
    requires workers >= 1
    ensures IsRun(rs, acts) && acts == [] && Quiet(rs[0], c, 0, 0) && rs[0].workers == seq(workers, _ => Free)
  {
    var r := Relay(c, 0, map[], [], seq(workers, _ => Free), None, Some({}));
    assert CountedBytes(r.recs, 0) == map[];
    rs, acts := [r], [];
  }

  /** One worker fills the store with objects up to any amount that leaves room for one more. */
  lemma {:induction false} Fill(c: Config, workers: nat, normalized: nat, amount: nat)
    returns (rs: seq<Relay>, acts: seq<Action>)
    requires workers >= 1 && 1 <= c.maxObjectLen && amount + c.maxObjectLen <= c.maxBytes && c.jobTtl >= 1
    requires JobsFor(amount, c.maxObjectLen) <= c.maxJobs
    ensures SizedRun(rs, acts, normalized) && rs[|acts|].workers == seq(workers, _ => Free)
    ensures Quiet(rs[|acts|], c, JobsFor(amount, c.maxObjectLen), amount)
    decreases amount
  {
    if amount == 0 {
      rs, acts := AllFree(c, workers);
    } else {
      var piece := Min(amount, c.maxObjectLen);
      rs, acts := Fill(c, workers, normalized, amount - piece);
      rs, acts := StoreObject(rs, acts, normalized, c, JobsFor(amount - piece, c.maxObjectLen), amount - piece, piece);
    }
  }

  /** Worker 0 takes a new job from submission to its record. */
  lemma StoreObject(rs: seq<Relay>, acts: seq<Action>, normalized: nat, c: Config, n: nat, used: nat, body: nat)
    returns (rs': seq<Relay>, acts': seq<Action>)
    requires SizedRun(rs, acts, normalized) && Quiet(rs[|acts|], c, n, used) && |rs[|acts|].workers| >= 1
    requires rs[|acts|].workers[0] == Free && n < c.maxJobs && used < c.maxBytes && c.jobTtl >= 1
    requires used + body <= c.maxBytes && body <= c.maxObjectLen
    ensures SizedRun(rs', acts', normalized) && Quiet(rs'[|acts'|], c, n + 1, used + body)
    ensures rs'[|acts'|].workers == rs[|acts|].workers
  {
    rs', acts' := StartJob(rs, acts, normalized, c, n, used, 0);
    rs', acts' := PassCheck(rs', acts', normalized, 0, body);
    rs', acts' := RecordJob(rs', acts', normalized, c, n + 1, used, 0, n, body, None);
  }

  /** n times each, by repeated addition. */
  function Total(n: nat, each: nat): (t: nat) {
    if n == 0 then 0 else Total(n - 1, each) + each
  }

  lemma {:induction false} TotalIsProduct(n: nat, each: nat)
    ensures Total(n, each) == n * each
  {
    if n > 0 {
      TotalIsProduct(n - 1, each);
      assert n * each == (n - 1) * each + each;
    }
  }

  // ---- all workers at once ---------------------------------------------------------------------

  /** Of the jobs from `first` on, worker i has job first + i: the first `done` have recorded
      it, those up to `passed` have passed the check, the others up to `taken` are fetching. */
  function WorkersAt(c: Config, workers: nat, first: nat, taken: nat, passed: nat, done: nat): (ws: seq<Worker>)
    ensures |ws| == workers
  {
    seq(workers, i => if i < done || i >= taken then Free
                      else if i < passed then Passed(first + i, Fresh(c), c.maxObjectLen)
                      else Fetching(first + i, Fresh(c)))
  }

  /** The records of the jobs that are not done yet. */
  ghost predicate StillRunning(r: Relay, c: Config, from: nat, to: nat) {
    forall j: nat :: from <= j < to ==> j in r.recs && r.recs[j] == Fresh(c).(status := Running)
  }

  /** Worker `taken` starts, or worker `done` has recorded its job. */
  lemma OneMoreTaken(c: Config, workers: nat, first: nat, taken: nat)
    requires taken < workers
    ensures WorkersAt(c, workers, first, taken + 1, 0, 0)
         == WorkersAt(c, workers, first, taken, 0, 0)[taken := Fetching(first + taken, Fresh(c))]
  {
  }

  lemma OneMoreDone(c: Config, workers: nat, first: nat, done: nat)
    requires done < workers
    ensures WorkersAt(c, workers, first, workers, workers, done)[done] == Passed(first + done, Fresh(c), c.maxObjectLen)
    ensures WorkersAt(c, workers, first, workers, workers, done + 1)
         == WorkersAt(c, workers, first, workers, workers, done)[done := Free]
  {
  }

  lemma {:induction false} StartAll(c: Config, workers: nat, normalized: nat, fill: nat, taken: nat)
    returns (rs: seq<Relay>, acts: seq<Action>)
    requires workers >= 1 && 1 <= c.maxObjectLen && fill + c.maxObjectLen == c.maxBytes && c.jobTtl >= 1
    requires JobsFor(fill, c.maxObjectLen) + workers <= c.maxJobs && taken <= workers
    ensures var first := JobsFor(fill, c.maxObjectLen);
            && SizedRun(rs, acts, normalized) && Quiet(rs[|acts|], c, first + taken, fill)
            && rs[|acts|].workers == WorkersAt(c, workers, first, taken, 0, 0)
            && StillRunning(rs[|acts|], c, first, first + taken)
    decreases taken
  {
    var first := JobsFor(fill, c.maxObjectLen);
    if taken == 0 {
      rs, acts := Fill(c, workers, normalized, fill);
      assert rs[|acts|].workers == WorkersAt(c, workers, first, 0, 0, 0);
    } else {
      var w := taken - 1;
      rs, acts := StartAll(c, workers, normalized, fill, w);
      rs, acts := StartJob(rs, acts, normalized, c, first + w, fill, w);
      OneMoreTaken(c, workers, first, w);
    }
  }

  /** Then every worker passes the check, each seeing room for its object. */
  lemma {:induction false} PassAll(c: Config, workers: nat, normalized: nat, fill: nat, passed: nat)
    returns (rs: seq<Relay>, acts: seq<Action>)
    requires workers >= 1 && 1 <= c.maxObjectLen && fill + c.maxObjectLen == c.maxBytes && c.jobTtl >= 1
    requires JobsFor(fill, c.maxObjectLen) + workers <= c.maxJobs && passed <= workers
    ensures var first := JobsFor(fill, c.maxObjectLen);
            && SizedRun(rs, acts, normalized) && Quiet(rs[|acts|], c, first + workers, fill)
            && rs[|acts|].workers == WorkersAt(c, workers, first, workers, passed, 0)
            && StillRunning(rs[|acts|], c, first, first + workers)
    decreases passed
  {
    var first := JobsFor(fill, c.maxObjectLen);
    if passed == 0 {
      rs, acts := StartAll(c, workers, normalized, fill, workers);
    } else {
      var w := passed - 1;
      rs, acts := PassAll(c, workers, normalized, fill, w);
      rs, acts := PassCheck(rs, acts, normalized, w, c.maxObjectLen);
      assert WorkersAt(c, workers, first, workers, passed, 0)
          == WorkersAt(c, workers, first, workers, w, 0)[w := Passed(first + w, Fresh(c), c.maxObjectLen)];
    }
  }

  /** Then every worker records its object and its normalized artifact. */
  lemma {:induction false} RecordAll(c: Config, workers: nat, normalized: nat, fill: nat, done: nat)
    returns (rs: seq<Relay>, acts: seq<Action>)
    requires workers >= 1 && 1 <= c.maxObjectLen && fill + c.maxObjectLen == c.maxBytes && c.jobTtl >= 1
    requires JobsFor(fill, c.maxObjectLen) + workers <= c.maxJobs && done <= workers
    ensures var first := JobsFor(fill, c.maxObjectLen);
            && SizedRun(rs, acts, normalized)
            && Quiet(rs[|acts|], c, first + workers, fill + Total(done, c.maxObjectLen + normalized))
            && rs[|acts|].workers == WorkersAt(c, workers, first, workers, workers, done)
            && StillRunning(rs[|acts|], c, first + done, first + workers)
    decreases done
  {
    var first, each := JobsFor(fill, c.maxObjectLen), c.maxObjectLen + normalized;
    if done == 0 {
      rs, acts := PassAll(c, workers, normalized, fill, workers);
    } else {
      var w := done - 1;
      rs, acts := RecordAll(c, workers, normalized, fill, w);
      OneMoreDone(c, workers, first, w);
      var used := fill + Total(w, each);
      rs, acts := RecordJob(rs, acts, normalized, c, first + workers, used, w, first + w, c.maxObjectLen,
                            Some(normalized));
    }
  }

  /** For every quota that holds at least one object, every number of workers and every artifact
      size there is a run whose recorded bytes reach the bound exactly, if the job quota allows
      the jobs it takes. So the byte quota itself is kept only with one worker and no
      normalization: with W >= 2 or N >= 1 this run passes it. */
  lemma BoundAttained(c: Config, workers: nat, normalized: nat) returns (rs: seq<Relay>, acts: seq<Action>)
    requires workers >= 1 && 1 <= c.maxObjectLen <= c.maxBytes && c.jobTtl >= 1
    requires JobsFor(c.maxBytes - c.maxObjectLen, c.maxObjectLen) + workers <= c.maxJobs
    ensures IsRun(rs, acts) && forall i :: 0 <= i < |acts| ==> NormalizedUpTo(acts[i], normalized)
    ensures var r := rs[|acts|];
            && r.config == c && |r.workers| == workers
            && Usage(r.recs, r.now) == Bound(c, workers, normalized)
            && (Usage(r.recs, r.now) > c.maxBytes <==> workers >= 2 || normalized >= 1)
  {
    rs, acts := RecordAll(c, workers, normalized, c.maxBytes - c.maxObjectLen, workers);
    TotalIsProduct(workers, c.maxObjectLen + normalized);
    BoundReached(c, workers, normalized);
  }

  lemma BoundReached(c: Config, workers: nat, normalized: nat)
    requires 1 <= workers && 1 <= c.maxObjectLen <= c.maxBytes
    ensures c.maxBytes - c.maxObjectLen + workers * (c.maxObjectLen + normalized) == Bound(c, workers, normalized)
    ensures Bound(c, workers, normalized) > c.maxBytes <==> workers >= 2 || normalized >= 1
  {
    var k := workers - 1;
    assert workers * (c.maxObjectLen + normalized) == c.maxObjectLen + k * c.maxObjectLen + workers * normalized;
    if workers >= 2 {
      assert k * c.maxObjectLen >= c.maxObjectLen;
    }
    if normalized >= 1 {
      assert workers * normalized >= normalized;
    }
  }

  /** The limits the source ships with: 64 jobs, 256 MiB, 64 MiB an object, a day in ms. */
  const DEFAULT: Config := Config(64, 268_435_456, 67_108_864, 86_400_000)

  /** With them and four workers, 192 MiB more than the quota can be on record, and four
      normalized artifacts. */
  lemma DefaultsPassed(normalized: nat) returns (rs: seq<Relay>, acts: seq<Action>)
    ensures IsRun(rs, acts) && forall i :: 0 <= i < |acts| ==> NormalizedUpTo(acts[i], normalized)
    ensures var r := rs[|acts|];
            r.config == DEFAULT && |r.workers| == 4 && Usage(r.recs, r.now) == 469_762_048 + 4 * normalized
  {
    var m := DEFAULT.maxObjectLen;
    assert JobsFor(2 * m, m) == 1 + JobsFor(m, m);
    rs, acts := BoundAttained(DEFAULT, 4, normalized);
  }
}
