/** The engine's own operations on the spool and the queue, each run to its end without
    interference: what they compute, and that each is a path of the interleaved engine. */
module RelaySpool {
  import opened Bytes
  import opened RelayEngine

  /** What a job's fetch brought: None for a failure, else the length of the body and, when
      the page was normalized, of the markdown. */
  type Outcome = Option<(nat, Option<nat>)>

  function Unexpired(recs: Records, now: nat): (kept: Records) {
    map j | j in recs && recs[j].expiresAt > now :: recs[j]
  }

  function PendingJobs(recs: Records): (ids: set<JobId>) {
    set j | j in recs && recs[j].Pending()
  }

  /** The record a worker leaves for a job, given what it read and what it counted. */
  function Finished(c: Config, job: Job, usage: nat, outcome: Outcome): (done: Job)
    ensures done.status in {Complete, Failed} && done.expiresAt == job.expiresAt
    ensures done.status == Complete <==>
              outcome.Some? && usage + outcome.value.0 <= c.maxBytes && outcome.value.0 <= c.maxObjectLen
    ensures done.status == Complete ==>
              && done.bodyLen == outcome.value.0
              && done.normalizedLen == if outcome.value.1.Some? then outcome.value.1 else job.normalizedLen
    ensures done.status == Failed ==> done.bodyLen == job.bodyLen && done.normalizedLen == job.normalizedLen
  {
    if outcome.Some? && FitsQuota(c, usage, outcome.value.0)
    then Job(Complete, outcome.value.0,
             if outcome.value.1.Some? then outcome.value.1 else job.normalizedLen, job.expiresAt)
    else job.(status := Failed)
  }

  ghost function Processed(c: Config, recs: Records, now: nat, j: JobId, outcome: Outcome): (after: Records) {
    if j !in recs || recs[j].status.Complete? then recs
    else recs[j := Finished(c, recs[j], Usage(recs[j := recs[j].(status := Running)], now), outcome)]
  }

  class Engine {
    const config: Config
    var recs: Records
    var channel: seq<JobId>

    constructor (config: Config, recs: Records)
      ensures this.config == config && this.recs == recs && channel == []
    {
      this.config, this.recs, channel := config, recs, [];
    }

    /** `enqueue`. */
    method Enqueue(job: JobId, now: nat) returns (accepted: bool)
      modifies this
      ensures accepted <==> |LiveJobs(old(recs), now)| < config.maxJobs && Usage(old(recs), now) < config.maxBytes
      ensures recs == if accepted then old(recs)[job := Job(Queued, 0, None, now + config.jobTtl)] else old(recs)
      ensures channel == if accepted then old(channel) + [job] else old(channel)
    {
      var jobs, bytes := ClientUsage(recs, now);
      if jobs >= config.maxJobs || bytes >= config.maxBytes {
        return false;
      }
      recs := recs[job := Job(Queued, 0, None, now + config.jobTtl)];
      channel := channel + [job];
      return true;
    }

    /** `delete`. */
    method Delete(job: JobId) returns (found: bool)
      modifies this`recs
      ensures found <==> job in old(recs)
      ensures recs == old(recs) - {job}
    {
      found := job in recs;
      recs := recs - {job};
    }

    /** `reap_expired`: exactly the expired records go, and what counts towards the quota
        stays what it was. */
    method ReapExpired(now: nat) returns (removed: nat)
      modifies this`recs
      ensures forall j :: j in recs <==> j in old(recs) && old(recs)[j].expiresAt > now
      ensures forall j :: j in recs ==> recs[j] == old(recs)[j]
      ensures recs == Unexpired(old(recs), now) && removed == |old(recs)| - |recs|
      ensures LiveJobs(recs, now) == LiveJobs(old(recs), now) && Usage(recs, now) == Usage(old(recs), now)
    {
      removed := 0;
      var todo := recs.Keys;
      while todo != {}
        invariant todo <= recs.Keys <= old(recs).Keys && removed == |old(recs)| - |recs|
        invariant forall j :: j in recs ==> recs[j] == old(recs)[j]
        invariant forall j :: j in old(recs) && j !in todo ==> (j in recs <==> old(recs)[j].expiresAt > now)
        invariant Usage(recs, now) == Usage(old(recs), now)
        decreases |todo|
      {
        var j :| j in todo;
        if recs[j].expiresAt <= now {
          ExpiredUncounted(recs, now, j);
          recs := recs - {j};
          removed := removed + 1;
        }
        todo := todo - {j};
      }
    }

    /** `recover_pending`: every queued or running job is sent once, in any order. */
    method RecoverPending() returns (requeued: nat)
      modifies this`channel
      ensures old(channel) <= channel && requeued == |channel| - |old(channel)|
      ensures forall j :: multiset(channel[|old(channel)|..])[j]
                          == if j in recs && recs[j].status in {Queued, Running} then 1 else 0
      ensures multiset(channel[|old(channel)|..]) == multiset(PendingJobs(recs))
    {
      requeued := 0;
      var todo := recs.Keys;
      ghost var sent: set<JobId> := {};
      while todo != {}
        invariant todo <= recs.Keys
        invariant old(channel) <= channel && requeued == |channel| - |old(channel)|
        invariant sent == PendingJobs(recs) - todo
        invariant multiset(channel[|old(channel)|..]) == multiset(sent)
        decreases |todo|
      {
        var j :| j in todo;
        if recs[j].Pending() {
          ghost var tail := channel[|old(channel)|..];
          channel := channel + [j];
          requeued := requeued + 1;
          sent := sent + {j};
          assert channel[|old(channel)|..] == tail + [j];
        }
        todo := todo - {j};
      }
      assert sent == PendingJobs(recs);
      SentOnce(recs, channel[|old(channel)|..]);
    }

    /** `process_job` on the job at the head of the queue. */
    method ProcessJob(now: nat, outcome: Outcome)
      requires channel != []
      modifies this
      ensures channel == old(channel)[1..]
      ensures recs == Processed(config, old(recs), now, old(channel)[0], outcome)
    {
      var j := channel[0];
      channel := channel[1..];
      if j !in recs || recs[j].status.Complete? {
        return;
      }
      var metadata := recs[j].(status := Running);
      recs := recs[j := metadata];
      if outcome.Some? {
        var _, existing := ClientUsage(recs, now);
        var (body, markdown) := outcome.value;
        if existing + body <= config.maxBytes && body <= config.maxObjectLen {
          metadata := metadata.(bodyLen := body);
          if markdown.Some? {
            metadata := metadata.(normalizedLen := markdown);
          }
          recs := recs[j := metadata.(status := Complete)];
          return;
        }
      }
      recs := recs[j := recs[j].(status := Failed)];
    }

    /** One worker working the queue off: where every queued or running job is in the queue, each
        record ends complete or failed. */
    method WorkOff(now: nat, outcomes: JobId -> Outcome)
      requires forall j :: j in recs && recs[j].status in {Queued, Running} ==> j in channel
      modifies this
      ensures channel == [] && recs.Keys == old(recs).Keys
      ensures forall j :: j in recs ==> recs[j].status in {Complete, Failed}
      ensures forall j :: j in recs && j !in old(channel) ==> recs[j] == old(recs)[j]
    {
      while channel != []
        invariant recs.Keys == old(recs).Keys
        invariant forall j :: j in recs && recs[j].status in {Queued, Running} ==> j in channel
        invariant forall j :: j in channel ==> j in old(channel)
        invariant forall j :: j in recs && j !in old(channel) ==> recs[j] == old(recs)[j]
        decreases |channel|
      {
        ProcessJob(now, outcomes(channel[0]));
      }
      forall j | j in recs
        ensures recs[j].status in {Complete, Failed}
      {
        var status := recs[j].status;
        assert status.Queued? || status.Running? || status.Complete? || status.Failed?;
      }
    }
  }

  /** A start after a crash, on the records as the crash left them: recovery and the work it finds
      bring every job to an end, and what had come to one stays as it is. */
  method Restart(config: Config, recs: Records, now: nat, outcomes: JobId -> Outcome) returns (e: Engine)
    ensures fresh(e) && e.channel == [] && e.recs.Keys == recs.Keys
    ensures forall j :: j in recs ==> e.recs[j].status in {Complete, Failed}
    ensures forall j :: j in recs && recs[j].status in {Complete, Failed} ==> e.recs[j] == recs[j]
  {
    e := new Engine(config, recs);
    var requeued := e.RecoverPending();
    assert e.channel[0..] == e.channel;
    forall j
      ensures j in e.channel <==> j in recs && recs[j].status in {Queued, Running}
    {
      assert j in e.channel <==> multiset(e.channel)[j] > 0;
    }
    e.WorkOff(now, outcomes);
  }

  lemma SentOnce(recs: Records, sent: seq<JobId>)
    requires multiset(sent) == multiset(PendingJobs(recs))
    ensures forall j :: multiset(sent)[j] == if j in recs && recs[j].status in {Queued, Running} then 1 else 0
  {
  }

  lemma ExpiredUncounted(recs: Records, now: nat, j: JobId)
    requires j in recs && recs[j].expiresAt <= now
    ensures Usage(recs - {j}, now) == Usage(recs, now)
  {
    SumTake(CountedBytes(recs, now), j);
    assert CountedBytes(recs, now) - {j} == CountedBytes(recs - {j}, now);
  }
}
