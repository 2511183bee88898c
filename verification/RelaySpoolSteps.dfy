/** Each operation on the spool is a path of the interleaved engine, so what holds in every
    run of the engine holds of the records and the queue the operations work on. */
module RelaySpoolSteps {
  import opened Bytes
  import opened RelayEngine
  import opened RelaySpool

  ghost predicate From(r: Relay, rs: seq<Relay>, acts: seq<Action>, r': Relay) {
    && |rs| == |acts| + 1 && rs[0] == r && rs[|acts|] == r'
    && forall i :: 0 <= i < |acts| ==> Next(rs[i], acts[i], rs[i + 1])
  }

  ghost predicate Shows(e: Engine, r: Relay)
    reads e
  {
    e.config == r.config && e.recs == r.recs && e.channel == r.channel
  }

  lemma Then(r: Relay, rs: seq<Relay>, acts: seq<Action>, mid: Relay, a: Action, r': Relay)
    returns (rs': seq<Relay>, acts': seq<Action>)
    requires From(r, rs, acts, mid) && Next(mid, a, r')
    ensures From(r, rs', acts', r')
  {
    rs', acts' := rs + [r'], acts + [a];
  }

  lemma Stay(r: Relay) returns (rs: seq<Relay>, acts: seq<Action>)
    ensures From(r, rs, acts, r)
  {
    rs, acts := [r], [];
  }

  // ---- submitting and removing ----------------------------------------------------------------

  method EnqueueSteps(e: Engine, ghost r: Relay, job: JobId, now: nat)
    returns (accepted: bool, ghost rs: seq<Relay>, ghost acts: seq<Action>, ghost r': Relay)
    requires Shows(e, r) && r.enqueuing == None && r.now == now
    modifies e
    ensures Shows(e, r') && From(r, rs, acts, r')
    ensures r'.workers == r.workers && r'.enqueuing == None && r'.scan == r.scan
  {
    accepted := e.Enqueue(job, now);
    rs, acts := Stay(r);
    r' := r;
    if accepted {
      ghost var written := r.(recs := r.recs[job := Job(Queued, 0, None, now + r.config.jobTtl)],
                             enqueuing := Some(job));
      r' := written.(channel := r.channel + [job], enqueuing := None);
      rs, acts := Then(r, rs, acts, r, SubmitWrite(job), written);
      rs, acts := Then(r, rs, acts, written, SubmitSend, r');
    }
  }

  method DeleteSteps(e: Engine, ghost r: Relay, job: JobId)
    returns (found: bool, ghost rs: seq<Relay>, ghost acts: seq<Action>, ghost r': Relay)
    requires Shows(e, r)
    modifies e`recs
    ensures Shows(e, r') && From(r, rs, acts, r') && r' == r.(recs := r.recs - {job})
  {
    found := e.Delete(job);
    r' := r.(recs := r.recs - {job});
    rs, acts := Stay(r);
    rs, acts := Then(r, rs, acts, r, Remove(job), r');
  }

  lemma {:induction false} RemovalPath(r: Relay, gone: set<JobId>) returns (rs: seq<Relay>, acts: seq<Action>)
    ensures From(r, rs, acts, r.(recs := r.recs - gone))
    decreases |gone|
  {
    if gone == {} {
      assert r.recs - gone == r.recs;
      rs, acts := Stay(r);
    } else {
      var j :| j in gone;
      rs, acts := RemovalPath(r, gone - {j});
      var mid := r.(recs := r.recs - (gone - {j}));
      assert r.recs - (gone - {j}) - {j} == r.recs - gone;
      rs, acts := Then(r, rs, acts, mid, Remove(j), r.(recs := r.recs - gone));
    }
  }

  method ReapSteps(e: Engine, ghost r: Relay, now: nat)
    returns (removed: nat, ghost rs: seq<Relay>, ghost acts: seq<Action>, ghost r': Relay)
    requires Shows(e, r)
    modifies e`recs
    ensures Shows(e, r') && From(r, rs, acts, r') && r' == r.(recs := Unexpired(r.recs, now))
  {
    removed := e.ReapExpired(now);
    ghost var gone := r.recs.Keys - e.recs.Keys;
    rs, acts := RemovalPath(r, gone);
    assert r.recs - gone == Unexpired(r.recs, now);
    r' := r.(recs := r.recs - gone);
  }

  // ---- recovery ---------------------------------------------------------------------------------

  /** What the scan leaves after looking at the jobs of q, which are pending and distinct. */
  lemma {:induction false} ScanPending(r: Relay, q: seq<JobId>) returns (rs: seq<Relay>, acts: seq<Action>)
    requires r.scan.Some? && forall i :: 0 <= i < |q| ==> q[i] in r.recs && r.recs[q[i]].Pending()
    ensures From(r, rs, acts, r.(scan := Some(r.scan.value - (set j | j in q)), channel := r.channel + q))
  {
    if q == [] {
      assert r.channel + q == r.channel && r.scan.value - (set j | j in q) == r.scan.value;
      rs, acts := Stay(r);
    } else {
      var n := |q| - 1;
      rs, acts := ScanPending(r, q[..n]);
      var mid := r.(scan := Some(r.scan.value - (set j | j in q[..n])), channel := r.channel + q[..n]);
      var last := r.(scan := Some(r.scan.value - (set j | j in q)), channel := r.channel + q);
      assert r.channel + q == r.channel + q[..n] + [q[n]];
      assert r.scan.value - (set j | j in q) == mid.scan.value - {q[n]};
      rs, acts := Then(r, rs, acts, mid, ScanOne(q[n]), last);
    }
  }

  lemma {:induction false} ScanOthers(r: Relay, first: Relay, rs0: seq<Relay>, acts0: seq<Action>, todo: set<JobId>)
    returns (rs: seq<Relay>, acts: seq<Action>)
    requires From(first, rs0, acts0, r) && r.scan.Some? && todo <= r.scan.value
    requires forall j :: j in todo && j in r.recs ==> !r.recs[j].Pending()
    ensures From(first, rs, acts, r.(scan := Some(r.scan.value - todo)))
    decreases |todo|
  {
    if todo == {} {
      assert r.scan.value - todo == r.scan.value;
      rs, acts := rs0, acts0;
    } else {
      var j :| j in todo;
      rs, acts := ScanOthers(r, first, rs0, acts0, todo - {j});
      var mid := r.(scan := Some(r.scan.value - (todo - {j})));
      assert r.scan.value - (todo - {j}) - {j} == r.scan.value - todo;
      rs, acts := Then(first, rs, acts, mid, ScanOne(j), r.(scan := Some(r.scan.value - todo)));
    }
  }

  lemma QueueHoldsPending(q: seq<JobId>, jobs: set<JobId>)
    requires multiset(q) == multiset(jobs)
    ensures |q| == |jobs| && (forall j :: j in jobs ==> j in q) && forall i :: 0 <= i < |q| ==> q[i] in jobs
  {
    assert |q| == |multiset(q)| == |multiset(jobs)|;
    forall j | j in jobs
      ensures j in q
    {
      assert j in multiset(q);
    }
    forall i | 0 <= i < |q|
      ensures q[i] in jobs
    {
      assert q[i] in multiset(q);
    }
  }

  lemma RecoveryPath(r: Relay, q: seq<JobId>) returns (rs: seq<Relay>, acts: seq<Action>)
    requires r.scan == Some(r.recs.Keys) && multiset(q) == multiset(PendingJobs(r.recs))
    ensures From(r, rs, acts, r.(scan := None, channel := r.channel + q))
  {
    QueueHoldsPending(q, PendingJobs(r.recs));
    rs, acts := ScanPending(r, q);
    var mid := r.(scan := Some(r.scan.value - (set j | j in q)), channel := r.channel + q);
    rs, acts := ScanOthers(mid, r, rs, acts, mid.scan.value);
    assert mid.scan.value - mid.scan.value == {};
    rs, acts := Then(r, rs, acts, mid.(scan := Some({})), ScanEnd, mid.(scan := None));
  }

  /** The recovery scan after a start: it ends with every pending job in the queue. */
  method RecoverSteps(e: Engine, ghost r: Relay)
    returns (requeued: nat, ghost rs: seq<Relay>, ghost acts: seq<Action>, ghost r': Relay)
    requires Shows(e, r) && r.scan == Some(r.recs.Keys)
    modifies e`channel
    ensures Shows(e, r') && From(r, rs, acts, r')
    ensures r' == r.(scan := None, channel := e.channel) && requeued == |PendingJobs(r.recs)|
    ensures forall j :: j in PendingJobs(r.recs) ==> j in e.channel
  {
    requeued := e.RecoverPending();
    ghost var q := e.channel[|r.channel|..];
    assert r.channel + q == e.channel;
    QueueHoldsPending(q, PendingJobs(r.recs));
    rs, acts := RecoveryPath(r, q);
    r' := r.(scan := None, channel := e.channel);
  }

  // ---- working ------------------------------------------------------------------------------------

  lemma {:induction false} SameWorker(r: Relay, w: nat, was: Worker)
    requires w < |r.workers| && r.workers[w] == was
    ensures r.workers[w := was] == r.workers
  {
  }

  /** From the failed fetch or check to the failure record. */
  lemma FailurePath(r: Relay, rs0: seq<Relay>, acts0: seq<Action>, fetching: Relay, w: nat, j: JobId, a: Action)
    returns (rs: seq<Relay>, acts: seq<Action>)
    requires From(r, rs0, acts0, fetching) && w < |fetching.workers| && j in fetching.recs
    requires Next(fetching, a, SetWorker(fetching, w, Failing(j)))
    ensures From(r, rs, acts,
                 SetWorker(fetching, w, Free).(recs := fetching.recs[j := fetching.recs[j].(status := Failed)]))
  {
    var failing := SetWorker(fetching, w, Failing(j));
    var read := SetWorker(fetching, w, FailRead(j, fetching.recs[j]));
    rs, acts := Then(r, rs0, acts0, fetching, a, failing);
    rs, acts := Then(r, rs, acts, failing, ReadForFailure(w), read);
    rs, acts := Then(r, rs, acts, read, WriteFailed(w),
                     SetWorker(fetching, w, Free).(recs := fetching.recs[j := fetching.recs[j].(status := Failed)]));
  }

  lemma CompletionPath(r: Relay, rs0: seq<Relay>, acts0: seq<Action>, fetching: Relay, w: nat, j: JobId, copy: Job,
                       body: nat, markdown: Option<nat>)
    returns (rs: seq<Relay>, acts: seq<Action>)
    requires From(r, rs0, acts0, fetching) && w < |fetching.workers| && fetching.workers[w] == Fetching(j, copy)
    requires fetching.enqueuing == None && FitsQuota(fetching.config, Usage(fetching.recs, fetching.now), body)
    ensures From(r, rs, acts, SetWorker(fetching, w, Free).(recs := fetching.recs[j :=
              Job(Complete, body, if markdown.Some? then markdown else copy.normalizedLen, copy.expiresAt)]))
  {
    var passed := SetWorker(fetching, w, Passed(j, copy, body));
    var last := SetWorker(fetching, w, Free).(recs := fetching.recs[j :=
                  Job(Complete, body, if markdown.Some? then markdown else copy.normalizedLen, copy.expiresAt)]);
    rs, acts := Then(r, rs0, acts0, fetching, QuotaCheck(w, body), passed);
    rs, acts := Then(r, rs, acts, passed, WriteComplete(w, markdown), last);
  }

  /** From the record read to the record written, for a job that is there and not complete. */
  lemma WorkPath(r: Relay, w: nat, j: JobId, outcome: Outcome) returns (rs: seq<Relay>, acts: seq<Action>)
    requires w < |r.workers| && r.enqueuing == None && j in r.recs && r.workers[w] == Read(j, r.recs[j])
    ensures From(r, rs, acts, SetWorker(r, w, Free).(recs :=
              r.recs[j := Finished(r.config, r.recs[j],
                                   Usage(r.recs[j := r.recs[j].(status := Running)], r.now), outcome)]))
  {
    var copy := r.recs[j];
    var running := r.recs[j := copy.(status := Running)];
    var fetching := SetWorker(r, w, Fetching(j, copy)).(recs := running);
    var done := Finished(r.config, copy, Usage(running, r.now), outcome);
    rs, acts := Stay(r);
    rs, acts := Then(r, rs, acts, r, WriteRunning(w), fetching);
    assert running[j := done] == r.recs[j := done];
    assert fetching.workers[w := Free] == r.workers[w := Free];
    if done.status.Complete? {
      rs, acts := CompletionPath(r, rs, acts, fetching, w, j, copy, outcome.value.0, outcome.value.1);
    } else {
      var a := if outcome == None then FetchFails(w) else QuotaCheck(w, outcome.value.0);
      rs, acts := FailurePath(r, rs, acts, fetching, w, j, a);
    }
  }

  lemma JobPath(r: Relay, w: nat, outcome: Outcome) returns (rs: seq<Relay>, acts: seq<Action>)
    requires w < |r.workers| && r.workers[w] == Free && r.enqueuing == None && r.channel != []
    ensures From(r, rs, acts, r.(channel := r.channel[1..],
                                 recs := Processed(r.config, r.recs, r.now, r.channel[0], outcome)))
  {
    var j := r.channel[0];
    var picked := SetWorker(r, w, Picked(j)).(channel := r.channel[1..]);
    rs, acts := Stay(r);
    rs, acts := Then(r, rs, acts, r, Receive(w), picked);
    SameWorker(r, w, Free);
    assert picked.workers[w := Free] == r.workers;
    if j !in r.recs || r.recs[j].status.Complete? {
      rs, acts := Then(r, rs, acts, picked, ReadRecord(w), r.(channel := r.channel[1..]));
    } else {
      var read := SetWorker(picked, w, Read(j, r.recs[j]));
      rs, acts := Then(r, rs, acts, picked, ReadRecord(w), read);
      var more, moreActs := WorkPath(read, w, j, outcome);
      assert read.workers[w := Free] == r.workers;
      rs, acts := Join(r, rs, acts, read, more, moreActs,
                       r.(channel := r.channel[1..], recs := Processed(r.config, r.recs, r.now, j, outcome)));
    }
  }

  lemma Join(r: Relay, rs0: seq<Relay>, acts0: seq<Action>, mid: Relay, more: seq<Relay>, moreActs: seq<Action>,
             r': Relay)
    returns (rs: seq<Relay>, acts: seq<Action>)
    requires From(r, rs0, acts0, mid) && From(mid, more, moreActs, r')
    ensures From(r, rs, acts, r')
  {
    rs, acts := rs0[..|acts0|] + more, acts0 + moreActs;
  }

  /** A worker taking the next job, with nobody else about. */
  method ProcessSteps(e: Engine, ghost r: Relay, ghost w: nat, now: nat, outcome: Outcome)
    returns (ghost rs: seq<Relay>, ghost acts: seq<Action>, ghost r': Relay)
    requires Shows(e, r) && r.now == now && r.enqueuing == None && r.channel != []
    requires w < |r.workers| && r.workers[w] == Free
    modifies e
    ensures Shows(e, r') && From(r, rs, acts, r') && r' == r.(channel := e.channel, recs := e.recs)
  {
    rs, acts := JobPath(r, w, outcome);
    e.ProcessJob(now, outcome);
    r' := r.(channel := e.channel, recs := e.recs);
  }
}
