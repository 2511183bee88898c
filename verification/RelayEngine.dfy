/** The relay's job engine for one client: job records, the work queue, the workers, the
    quota lock, deletion, crash and recovery, as interleaved steps. */
module RelayEngine {
  import opened Bytes

  type JobId = nat

  datatype Status = Queued | Running | Complete | Failed

  /** A job's metadata file, as far as quota, expiry and recovery look at it. */
  datatype Job = Job(status: Status, bodyLen: nat, normalizedLen: Option<nat>, expiresAt: nat) {
    function Bytes(): nat {
      bodyLen + if normalizedLen.Some? then normalizedLen.value else 0
    }

    predicate Pending() {
      status.Queued? || status.Running?
    }
  }

  type Records = map<JobId, Job>

  datatype Config = Config(maxJobs: nat, maxBytes: nat, maxObjectLen: nat, jobTtl: nat)

  // ---- usage -------------------------------------------------------------------------

  /** What a record counts towards the quota at a given time. */
  function Counted(job: Job, now: nat): (n: nat) {
    if job.expiresAt <= now then 0 else job.Bytes()
  }

  function CountedBytes(recs: Records, now: nat): (m: map<JobId, nat>) {
    map j | j in recs :: Counted(recs[j], now)
  }

  function LiveJobs(recs: Records, now: nat): (ids: set<JobId>) {
    set j | j in recs && recs[j].expiresAt > now
  }

  ghost function Sum(m: map<JobId, nat>): (n: nat)
    decreases |m|
  {
    if m == map[] then 0
    else
      var k :| k in m;
      m[k] + Sum(m - {k})
  }

  ghost function Usage(recs: Records, now: nat): (n: nat) {
    Sum(CountedBytes(recs, now))
  }

  /** The order of summation does not matter. */
  lemma {:induction false} SumTake(m: map<JobId, nat>, k: JobId)
    requires k in m
    ensures Sum(m) == m[k] + Sum(m - {k})
    decreases |m|
  {
    var pick :| pick in m && Sum(m) == m[pick] + Sum(m - {pick});
    if pick != k {
      SumTake(m - {pick}, k);
      SumTake(m - {k}, pick);
      assert m - {pick} - {k} == m - {k} - {pick};
    }
  }

  /** What the usage is: nothing for no records, and one more record that has not run out adds the
      length of its body and that of its markdown, and one job. */
  lemma UsageOf(recs: Records, now: nat, j: JobId, job: Job)
    requires j !in recs
    ensures Usage(map[], now) == 0
    ensures Usage(recs[j := job], now)
         == Usage(recs, now)
            + if job.expiresAt <= now then 0
              else job.bodyLen + match job.normalizedLen case Some(n) => n case None => 0
  {
    var all := CountedBytes(recs[j := job], now);
    SumTake(all, j);
    assert all - {j} == CountedBytes(recs, now);
  }

  lemma LiveJobsOf(recs: Records, now: nat, j: JobId, job: Job)
    requires j !in recs
    ensures |LiveJobs(map[], now)| == 0
    ensures |LiveJobs(recs[j := job], now)| == |LiveJobs(recs, now)| + One(job.expiresAt > now)
  {
    assert LiveJobs(map[], now) == {};
    assert LiveJobs(recs[j := job], now) == LiveJobs(recs, now) + if job.expiresAt > now then {j} else {};
  }

  /** `client_usage`: count the unexpired records and add up their bytes, in any order. */
  method ClientUsage(recs: Records, now: nat) returns (jobs: nat, bytes: nat)
    ensures jobs == |LiveJobs(recs, now)| && bytes == Usage(recs, now)
  {
    jobs, bytes := 0, 0;
    var todo := recs.Keys;
    ghost var live, all := LiveJobs(recs, now), CountedBytes(recs, now);
    ghost var liveLeft, left := live, all;
    while todo != {}
      invariant todo <= recs.Keys && left.Keys == todo && liveLeft <= todo
      invariant forall j :: j in todo ==> left[j] == Counted(recs[j], now)
      invariant forall j :: j in todo ==> (j in liveLeft <==> recs[j].expiresAt > now)
      invariant jobs + |liveLeft| == |live|
      invariant bytes + Sum(left) == Sum(all)
      decreases |todo|
    {
      var j :| j in todo;
      SumTake(left, j);
      if recs[j].expiresAt > now {
        jobs := jobs + 1;
        bytes := bytes + recs[j].Bytes();
      }
      left, liveLeft, todo := left - {j}, liveLeft - {j}, todo - {j};
    }
  }

  // ---- the engine ------------------------------------------------------------------------

  /** What a worker is doing for this client. A copy is metadata read earlier; writing it
      back later can overwrite newer metadata or bring a deleted record back. */
  datatype Worker =
    | Free
    | Picked(job: JobId)
    | Read(job: JobId, copy: Job)
    | Fetching(job: JobId, copy: Job)
    | Passed(job: JobId, copy: Job, body: nat)
    | Failing(job: JobId)
    | FailRead(job: JobId, copy: Job)

  /** `enqueuing` is the job whose record is written and whose queue entry is not yet sent;
      the client's quota lock is held meanwhile. `scan` is what the recovery scan has not
      looked at yet, None when it is over. */
  datatype Relay = Relay(
    config: Config,
    now: nat,
    recs: Records,
    channel: seq<JobId>,
    workers: seq<Worker>,
    enqueuing: Option<JobId>,
    scan: Option<set<JobId>>)

  datatype Action =
    | Tick(now: nat)
    | SubmitWrite(job: JobId)
    | SubmitSend
    | Receive(w: nat)
    | ReadRecord(w: nat)
    | WriteRunning(w: nat)
    | FetchFails(w: nat)
    | QuotaCheck(w: nat, body: nat)
    | WriteComplete(w: nat, normalized: Option<nat>)
    | ReadForFailure(w: nat)
    | WriteFailed(w: nat)
    | Remove(job: JobId)
    | Crash
    | ScanOne(job: JobId)
    | ScanEnd

  function SetWorker(r: Relay, w: nat, state: Worker): (r': Relay)
    requires w < |r.workers|
  {
    r.(workers := r.workers[w := state])
  }

  predicate FitsQuota(c: Config, usage: nat, body: nat) {
    usage + body <= c.maxBytes && body <= c.maxObjectLen
  }

  ghost predicate WorkerStep(r: Relay, a: Action, w: nat, r': Relay)
    requires w < |r.workers|
  {
    match (a, r.workers[w])
    case (Receive(_), Free) =>
      r.channel != [] && r' == SetWorker(r, w, Picked(r.channel[0])).(channel := r.channel[1..])
    case (ReadRecord(_), Picked(j)) =>
      r' == SetWorker(r, w, if j !in r.recs || r.recs[j].status.Complete? then Free else Read(j, r.recs[j]))
    case (WriteRunning(_), Read(j, copy)) =>
      r' == SetWorker(r, w, Fetching(j, copy)).(recs := r.recs[j := copy.(status := Running)])
    case (FetchFails(_), Fetching(j, _)) => r' == SetWorker(r, w, Failing(j))
    case (QuotaCheck(_, body), Fetching(j, copy)) =>
      && r.enqueuing == None
      && r' == SetWorker(r, w,
                   if FitsQuota(r.config, Usage(r.recs, r.now), body) then Passed(j, copy, body) else Failing(j))
    case (WriteComplete(_, normalized), Passed(j, copy, body)) =>
      var len := if normalized.Some? then normalized else copy.normalizedLen;
      r' == SetWorker(r, w, Free).(recs := r.recs[j := Job(Complete, body, len, copy.expiresAt)])
    case (ReadForFailure(_), Failing(j)) =>
      r' == SetWorker(r, w, if j !in r.recs then Free else FailRead(j, r.recs[j]))
    case (WriteFailed(_), FailRead(j, copy)) =>
      r' == SetWorker(r, w, Free).(recs := r.recs[j := copy.(status := Failed)])
    case _ => false
  }

  ghost predicate Next(r: Relay, a: Action, r': Relay) {
    match a
    case Tick(now) => r.now <= now && r' == r.(now := now)
    case SubmitWrite(job) =>
      && r.enqueuing == None
      && |LiveJobs(r.recs, r.now)| < r.config.maxJobs && Usage(r.recs, r.now) < r.config.maxBytes
      && r' == r.(recs := r.recs[job := Job(Queued, 0, None, r.now + r.config.jobTtl)], enqueuing := Some(job))
    case SubmitSend =>
      r.enqueuing.Some? && r' == r.(channel := r.channel + [r.enqueuing.value], enqueuing := None)
    case Remove(job) => r' == r.(recs := r.recs - {job})
    case Crash =>
      r' == r.(channel := [], workers := seq(|r.workers|, _ => Free), enqueuing := None, scan := Some(r.recs.Keys))
    case ScanOne(job) =>
      && r.scan.Some? && (job in r.scan.value || job in r.recs)
      && r' == r.(scan := Some(r.scan.value - {job}),
                  channel := if job in r.recs && r.recs[job].Pending() then r.channel + [job] else r.channel)
    case ScanEnd => r.scan == Some({}) && r' == r.(scan := None)
    case _ => a.w < |r.workers| && WorkerStep(r, a, a.w, r')
  }

  ghost predicate Initial(r: Relay) {
    && r.recs == map[] && r.channel == [] && r.enqueuing == None && r.scan == Some({})
    && |r.workers| >= 1 && forall w :: 0 <= w < |r.workers| ==> r.workers[w] == Free
  }

  ghost predicate IsRun(rs: seq<Relay>, acts: seq<Action>) {
    && |rs| == |acts| + 1 && Initial(rs[0])
    && forall i :: 0 <= i < |acts| ==> Next(rs[i], acts[i], rs[i + 1])
  }

  // ---- no accepted job is stranded --------------------------------------------------------

  ghost predicate HeldByWorker(r: Relay, j: JobId) {
    exists w :: 0 <= w < |r.workers| && !r.workers[w].Free? && r.workers[w].job == j
  }

  /** Somebody will still look at the job: the queue, a worker, the submitter or the scan. */
  ghost predicate Responsible(r: Relay, j: JobId) {
    || j in r.channel
    || HeldByWorker(r, j)
    || r.enqueuing == Some(j)
    || (r.scan.Some? && j in r.scan.value)
  }

  ghost predicate NoneStranded(r: Relay) {
    forall j :: j in r.recs && r.recs[j].Pending() ==> Responsible(r, j)
  }

  lemma StillHeld(r: Relay, r': Relay, w: nat, j: JobId)
    requires w < |r.workers| && |r'.workers| == |r.workers| && HeldByWorker(r, j)
    requires forall v :: 0 <= v < |r.workers| && v != w ==> r'.workers[v] == r.workers[v]
    requires !r.workers[w].Free? && r.workers[w].job == j ==> !r'.workers[w].Free? && r'.workers[w].job == j
    ensures HeldByWorker(r', j)
  {
    var v :| 0 <= v < |r.workers| && !r.workers[v].Free? && r.workers[v].job == j;
    assert !r'.workers[v].Free? && r'.workers[v].job == j;
  }

  lemma WorkerStepKeepsJobs(r: Relay, a: Action, w: nat, r': Relay, j: JobId)
    requires w < |r.workers| && WorkerStep(r, a, w, r') && NoneStranded(r)
    requires j in r'.recs && r'.recs[j].Pending()
    ensures Responsible(r', j)
  {
    var was := r.workers[w];
    if a.Receive? && was.Free? && r.channel[0] == j {
      assert !r'.workers[w].Free? && r'.workers[w].job == j;
    } else if a.WriteRunning? && was.Read? && was.job == j {
      assert !r'.workers[w].Free? && r'.workers[w].job == j;
    } else {
      assert j in r.recs && r.recs[j].Pending();
      if HeldByWorker(r, j) {
        StillHeld(r, r', w, j);
      }
    }
  }

  lemma NextKeepsJobs(r: Relay, a: Action, r': Relay)
    requires NoneStranded(r) && Next(r, a, r')
    ensures NoneStranded(r')
  {
    forall j | j in r'.recs && r'.recs[j].Pending()
      ensures Responsible(r', j)
    {
      match a
      case Tick(_) => assert Responsible(r, j);
      case SubmitWrite(job) =>
        if j != job {
          assert Responsible(r, j);
        }
      case SubmitSend => assert Responsible(r, j);
      case Remove(_) => assert Responsible(r, j);
      case Crash =>
      case ScanOne(_) => assert Responsible(r, j);
      case ScanEnd => assert Responsible(r, j);
      case _ => WorkerStepKeepsJobs(r, a, a.w, r', j);
    }
  }

  lemma {:induction false} RunKeepsJobs(rs: seq<Relay>, acts: seq<Action>)
    requires IsRun(rs, acts)
    ensures NoneStranded(rs[|acts|])
    decreases |acts|
  {
    var n := |acts|;
    if n > 0 {
      RunKeepsJobs(rs[..n], acts[..n - 1]);
      NextKeepsJobs(rs[n - 1], acts[n - 1], rs[n]);
    }
  }

  /** In every run of submissions, workers, deletions, expiry, crashes and recovery, each job
      marked queued or running is in the queue, held by a worker, being enqueued, or still
      ahead of the recovery scan; once that is over, in one of the first three. */
  lemma NoJobStranded(rs: seq<Relay>, acts: seq<Action>, j: JobId)
    requires IsRun(rs, acts) && j in rs[|acts|].recs && rs[|acts|].recs[j].status in {Queued, Running}
    ensures var r := rs[|acts|];
            || j in r.channel
            || (exists w :: 0 <= w < |r.workers| && !r.workers[w].Free? && r.workers[w].job == j)
            || r.enqueuing == Some(j)
            || (r.scan.Some? && j in r.scan.value)
  {
    RunKeepsJobs(rs, acts);
    assert Responsible(rs[|acts|], j);
  }
}
