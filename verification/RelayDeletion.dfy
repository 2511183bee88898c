/** When a deleted job stays deleted: a worker that holds the job's metadata can write it back. */
module RelayDeletion {
  import opened Bytes
  import opened RelayEngine

  /** The worker still has metadata of job j that some later step of its own may write. */
  predicate Holds(worker: Worker, j: JobId) {
    (worker.Read? || worker.Fetching? || worker.Passed? || worker.FailRead?) && worker.job == j
  }

  ghost predicate NobodyHolds(r: Relay, j: JobId) {
    forall w :: 0 <= w < |r.workers| ==> !Holds(r.workers[w], j)
  }

  /** A continuation from r in which job j is not submitted anew. */
  ghost predicate Continues(r: Relay, j: JobId, rs: seq<Relay>, acts: seq<Action>) {
    && |rs| == |acts| + 1 && rs[0] == r
    && forall i :: 0 <= i < |acts| ==> Next(rs[i], acts[i], rs[i + 1]) && acts[i] != SubmitWrite(j)
  }

  /** The record is absent at the end of every such continuation. */
  ghost predicate StaysDeleted(r: Relay, j: JobId) {
    forall rs: seq<Relay>, acts: seq<Action> :: Continues(r, j, rs, acts) ==> j !in rs[|acts|].recs
  }

  lemma StepKeepsAway(r: Relay, j: JobId, a: Action, r': Relay)
    requires j !in r.recs && NobodyHolds(r, j) && Next(r, a, r') && a != SubmitWrite(j)
    ensures j !in r'.recs && NobodyHolds(r', j)
  {
    forall w | 0 <= w < |r'.workers|
      ensures !Holds(r'.workers[w], j)
    {
      assert !Holds(r.workers[w], j);
    }
  }

  lemma {:induction false} KeptAway(r: Relay, j: JobId, rs: seq<Relay>, acts: seq<Action>)
    requires j !in r.recs && NobodyHolds(r, j) && Continues(r, j, rs, acts)
    ensures j !in rs[|acts|].recs && NobodyHolds(rs[|acts|], j)
    decreases |acts|
  {
    var n := |acts| - 1;
    if n >= 0 {
      KeptAway(r, j, rs[..n + 1], acts[..n]);
      StepKeepsAway(rs[n], j, acts[n], rs[n + 1]);
    }
  }

  lemma Extend(r: Relay, j: JobId, rs: seq<Relay>, acts: seq<Action>, a: Action, r': Relay)
    returns (rs': seq<Relay>, acts': seq<Action>)
    requires Continues(r, j, rs, acts) && Next(rs[|acts|], a, r') && a != SubmitWrite(j)
    ensures Continues(r, j, rs', acts') && rs'[|acts'|] == r'
  {
    rs', acts' := rs + [r'], acts + [a];
  }

  // ---- how a held job comes back -----------------------------------------------------------

  /** Once every record has expired, an empty body passes any quota. */
  lemma {:induction false} NothingCounted(m: map<JobId, nat>)
    requires forall j :: j in m ==> m[j] == 0
    ensures Sum(m) == 0
    decreases |m|
  {
    if m != map[] {
      var k :| k in m;
      SumTake(m, k);
      NothingCounted(m - {k});
    }
  }

  lemma {:induction false} AllExpireBy(recs: Records) returns (t: nat)
    ensures forall j :: j in recs ==> recs[j].expiresAt <= t
    decreases |recs|
  {
    t := 0;
    if recs != map[] {
      var j :| j in recs;
      var rest := AllExpireBy(recs - {j});
      t := Max(recs[j].expiresAt, rest);
      forall k | k in recs
        ensures recs[k].expiresAt <= t
      {
        assert k != j ==> k in recs - {j};
      }
    }
  }

  /** A fetched result is recorded: any pending submission ends, time passes, the check passes. */
  lemma FetchedComesBack(r: Relay, j: JobId, rs: seq<Relay>, acts: seq<Action>, w: nat)
    returns (rs': seq<Relay>, acts': seq<Action>)
    requires Continues(r, j, rs, acts)
    requires var s := rs[|acts|]; w < |s.workers| && s.workers[w].Fetching? && s.workers[w].job == j
    ensures Continues(r, j, rs', acts') && j in rs'[|acts'|].recs
  {
    rs', acts' := rs, acts;
    var s := rs[|acts|];
    if s.enqueuing.Some? {
      var sent := s.(channel := s.channel + [s.enqueuing.value], enqueuing := None);
      rs', acts' := Extend(r, j, rs', acts', SubmitSend, sent);
      s := sent;
    }
    var t := AllExpireBy(s.recs);
    var later := s.(now := Max(s.now, t));
    rs', acts' := Extend(r, j, rs', acts', Tick(later.now), later);
    NothingCounted(CountedBytes(later.recs, later.now));
    rs', acts' := PassAndRecord(r, j, rs', acts', w);
  }

  lemma PassAndRecord(r: Relay, j: JobId, rs: seq<Relay>, acts: seq<Action>, w: nat)
    returns (rs': seq<Relay>, acts': seq<Action>)
    requires Continues(r, j, rs, acts)
    requires var s := rs[|acts|];
             && w < |s.workers| && s.workers[w].Fetching? && s.workers[w].job == j
             && s.enqueuing == None && Usage(s.recs, s.now) == 0
    ensures Continues(r, j, rs', acts') && j in rs'[|acts'|].recs
  {
    var s := rs[|acts|];
    var passed := SetWorker(s, w, Passed(j, s.workers[w].copy, 0));
    rs', acts' := Extend(r, j, rs, acts, QuotaCheck(w, 0), passed);
    rs', acts' := WriteBack(r, j, rs', acts', w);
  }

  /** A copy in hand is written back in one step. */
  lemma WriteBack(r: Relay, j: JobId, rs: seq<Relay>, acts: seq<Action>, w: nat)
    returns (rs': seq<Relay>, acts': seq<Action>)
    requires Continues(r, j, rs, acts)
    requires var s := rs[|acts|];
             w < |s.workers| && Holds(s.workers[w], j) && !s.workers[w].Fetching?
    ensures Continues(r, j, rs', acts') && j in rs'[|acts'|].recs
  {
    var s := rs[|acts|];
    match s.workers[w]
    case Read(_, copy) =>
      var back := SetWorker(s, w, Fetching(j, copy)).(recs := s.recs[j := copy.(status := Running)]);
      rs', acts' := Extend(r, j, rs, acts, WriteRunning(w), back);
    case Passed(_, copy, body) =>
      var back := SetWorker(s, w, Free).(recs := s.recs[j := Job(Complete, body, copy.normalizedLen, copy.expiresAt)]);
      rs', acts' := Extend(r, j, rs, acts, WriteComplete(w, None), back);
    case FailRead(_, copy) =>
      var back := SetWorker(s, w, Free).(recs := s.recs[j := copy.(status := Failed)]);
      rs', acts' := Extend(r, j, rs, acts, WriteFailed(w), back);
  }

  lemma HeldComesBack(r: Relay, j: JobId, w: nat) returns (rs: seq<Relay>, acts: seq<Action>)
    requires w < |r.workers| && Holds(r.workers[w], j)
    ensures Continues(r, j, rs, acts) && j in rs[|acts|].recs
  {
    rs, acts := [r], [];
    if r.workers[w].Fetching? {
      rs, acts := FetchedComesBack(r, j, rs, acts, w);
    } else {
      rs, acts := WriteBack(r, j, rs, acts, w);
    }
  }

  /** A deleted record stays away, whatever happens but a new submission, exactly when no
      worker holds metadata of the job. */
  lemma DeletedStaysIff(r: Relay, j: JobId)
    requires j !in r.recs
    ensures StaysDeleted(r, j) <==> NobodyHolds(r, j)
  {
    if NobodyHolds(r, j) {
      forall rs: seq<Relay>, acts: seq<Action> | Continues(r, j, rs, acts)
        ensures j !in rs[|acts|].recs
      {
        KeptAway(r, j, rs, acts);
      }
    } else {
      var w :| 0 <= w < |r.workers| && Holds(r.workers[w], j);
      var rs, acts := HeldComesBack(r, j, w);
    }
  }

  /** Right after a deletion. */
  lemma RemovedStaysIff(r: Relay, j: JobId, r': Relay)
    requires Next(r, Remove(j), r')
    ensures StaysDeleted(r', j) <==> NobodyHolds(r, j)
  {
    DeletedStaysIff(r', j);
    assert r'.workers == r.workers;
  }
}
