/** The quota check record by record: under the lock a worker reads one record after the other
    while other workers go on recording and records are removed. Where no job is claimed more
    than twice, as by its submission and by a recovery that runs beside it, the bound on recorded
    bytes is the one of a check in a single step. */
module RelayScan {
  import opened Bytes
  import opened RelayEngine
  import opened RelayQuota

  /** A usage scan in progress; its worker holds the quota lock. `read` is what it has counted so
      far, `due` the records that were there when it started and have not been removed since.
      `start` keeps, for the proof, what the workers were doing when it started. */
  datatype Scan = Scan(
    w: nat,
    body: nat,
    asOf: nat,
    read: map<JobId, nat>,
    due: set<JobId>,
    start: seq<Worker>)

  /** `given` is how often each job has been claimed since the last start of the relay. */
  datatype Store = Store(r: Relay, scan: Option<Scan>, given: map<JobId, nat>)

  datatype Move =
    | Step(a: Action)
    | StartScan(w: nat, body: nat)
    | ReadOne(j: JobId)
    | EndScan

  predicate OfWorker(a: Action) {
    || a.Receive? || a.ReadRecord? || a.WriteRunning? || a.FetchFails?
    || a.QuotaCheck? || a.WriteComplete? || a.ReadForFailure? || a.WriteFailed?
  }

  /** Checks go by scans, a submission needs the lock, and the scanning worker only scans. */
  predicate MayStep(scan: Option<Scan>, a: Action) {
    && !a.QuotaCheck?
    && (scan.Some? ==> !a.SubmitWrite? && (OfWorker(a) ==> a.w != scan.value.w))
  }

  function ScanAfter(scan: Option<Scan>, a: Action): (after: Option<Scan>) {
    if scan == None || a.Crash? then None
    else if a.Remove? then Some(scan.value.(due := scan.value.due - {a.job}))
    else scan
  }

  // ---- claims -------------------------------------------------------------------------------

  predicate Listed(r: Relay, j: JobId) {
    r.scan.Some? && j in r.scan.value
  }

  /** The job that gets a new claim: one that is submitted, or a pending one that recovery comes
      upon although it was not there at the start. */
  function Claimant(r: Relay, a: Action): (j: Option<JobId>) {
    if a.SubmitWrite? then Some(a.job)
    else if a.ScanOne? && !Listed(r, a.job) && a.job in r.recs && r.recs[a.job].Pending() then Some(a.job)
    else None
  }

  function Given(given: map<JobId, nat>, j: JobId): (n: nat) {
    At(given, j)
  }

  /** A restart gives every record one claim, that of recovery. */
  function GivenAfter(r: Relay, given: map<JobId, nat>, a: Action): (after: map<JobId, nat>) {
    if a.Crash? then map j | j in r.recs :: 1
    else
      match Claimant(r, a)
      case Some(j) => given[j := Given(given, j) + 1]
      case None => given
  }

  /** The step leaves no job with a third claim. */
  predicate Orderly(r: Relay, given: map<JobId, nat>, a: Action) {
    match Claimant(r, a)
    case Some(j) => Given(given, j) < 2
    case None => true
  }

  function Checked(r: Relay, sc: Scan, usage: nat): (worker: Worker)
    requires sc.w < |r.workers| && r.workers[sc.w].Fetching?
  {
    var was := r.workers[sc.w];
    if FitsQuota(r.config, usage, sc.body) then Passed(was.job, was.copy, sc.body) else Failing(was.job)
  }

  /** One move of the relay with its scans: a record that stays throughout a scan is read, one that
      comes meanwhile may or may not be. */
  ghost predicate Moves(s: Store, m: Move, s': Store) {
    match m
    case Step(a) =>
      && MayStep(s.scan, a) && Next(s.r, a, s'.r)
      && s'.scan == ScanAfter(s.scan, a) && s'.given == GivenAfter(s.r, s.given, a)
    case StartScan(w, body) =>
      && s.scan == None && s.r.enqueuing == None && w < |s.r.workers| && s.r.workers[w].Fetching?
      && s' == s.(scan := Some(Scan(w, body, s.r.now, map[], s.r.recs.Keys, s.r.workers)))
    case ReadOne(j) =>
      && s.scan.Some? && j in s.r.recs && j !in s.scan.value.read
      && var sc := s.scan.value;
         s' == s.(scan := Some(sc.(read := sc.read[j := Counted(s.r.recs[j], sc.asOf)])))
    case EndScan =>
      && s.scan.Some? && s.scan.value.due <= s.scan.value.read.Keys
      && var sc := s.scan.value;
         && sc.w < |s.r.workers| && s.r.workers[sc.w].Fetching?
         && s' == s.(r := SetWorker(s.r, sc.w, Checked(s.r, sc, Sum(sc.read))), scan := None)
  }

  predicate Holding(worker: Worker, j: JobId) {
    !worker.Free? && worker.job == j
  }

  function HeldCount(workers: seq<Worker>, j: JobId): (n: nat) {
    if workers == [] then 0
    else HeldCount(workers[..|workers| - 1], j) + One(Holding(workers[|workers| - 1], j))
  }

  /** The claims on a job that are in the queue, with a worker or with its submitter. */
  function Claims(r: Relay, j: JobId): (n: nat) {
    multiset(r.channel)[j] + HeldCount(r.workers, j) + One(r.enqueuing == Some(j))
  }

  lemma {:induction false} HeldUpdate(workers: seq<Worker>, w: nat, state: Worker, j: JobId)
    requires w < |workers|
    ensures HeldCount(workers[w := state], j) + One(Holding(workers[w], j))
         == HeldCount(workers, j) + One(Holding(state, j))
  {
    var n := |workers|;
    if w == n - 1 {
      assert workers[w := state][..n - 1] == workers[..n - 1];
    } else {
      HeldUpdate(workers[..n - 1], w, state, j);
      assert workers[w := state][..n - 1] == workers[..n - 1][w := state];
    }
  }

  lemma {:induction false} HeldSome(workers: seq<Worker>, w: nat, j: JobId)
    requires w < |workers| && Holding(workers[w], j)
    ensures HeldCount(workers, j) >= 1
  {
    if w < |workers| - 1 {
      HeldSome(workers[..|workers| - 1], w, j);
    }
  }

  lemma {:induction false} HeldNone(workers: seq<Worker>, j: JobId)
    requires forall w :: 0 <= w < |workers| ==> workers[w].Free?
    ensures HeldCount(workers, j) == 0
  {
    if workers != [] {
      HeldNone(workers[..|workers| - 1], j);
    }
  }

  // ---- what two claims on a job can do -------------------------------------------------------

  function CopyBytes(worker: Worker): (n: nat) {
    match worker
    case Read(_, copy) => copy.Bytes()
    case Fetching(_, copy) => copy.Bytes()
    case Passed(_, copy, _) => copy.Bytes()
    case FailRead(_, copy) => copy.Bytes()
    case _ => 0
  }

  /** One claim is left of the two. */
  ghost predicate LastClaim(r: Relay, given: map<JobId, nat>, j: JobId) {
    Claims(r, j) == 1 && Given(given, j) == 2 && !Listed(r, j)
  }

  /** Bytes come from a completed claim, so at most one other claim meets them: a worker that
      fails may hold them, and what it then writes is met by nobody. */
  ghost predicate RecordFine(r: Relay, given: map<JobId, nat>, j: JobId) {
    j in r.recs && r.recs[j].Bytes() > 0 ==>
      !r.recs[j].Pending() && (Claims(r, j) > 0 ==> r.recs[j].status.Complete? && LastClaim(r, given, j))
  }

  ghost predicate WorkerFine(r: Relay, given: map<JobId, nat>, j: JobId, worker: Worker) {
    Holding(worker, j) ==> CopyBytes(worker) == 0 || (worker.FailRead? && LastClaim(r, given, j))
  }

  ghost predicate Fine(r: Relay, given: map<JobId, nat>, j: JobId) {
    && Claims(r, j) + One(Listed(r, j)) <= Given(given, j) <= 2
    && RecordFine(r, given, j)
    && forall w :: 0 <= w < |r.workers| ==> WorkerFine(r, given, j, r.workers[w])
  }

  lemma CrashFine(r: Relay, given: map<JobId, nat>, r': Relay, j: JobId)
    requires Fine(r, given, j) && Next(r, Crash, r')
    ensures Fine(r', GivenAfter(r, given, Crash), j)
  {
    HeldNone(r'.workers, j);
  }

  lemma SubmitFine(r: Relay, given: map<JobId, nat>, a: Action, r': Relay, j: JobId)
    requires Fine(r, given, j) && Next(r, a, r') && Orderly(r, given, a) && a.SubmitWrite?
    ensures Fine(r', GivenAfter(r, given, a), j)
  {
    if j == a.job {
      assert r'.recs[j].Bytes() == 0;
    } else {
      assert Claims(r', j) == Claims(r, j);
    }
    forall w | 0 <= w < |r'.workers|
      ensures WorkerFine(r', GivenAfter(r, given, a), j, r'.workers[w])
    {
      assert WorkerFine(r, given, j, r.workers[w]);
    }
  }

  lemma SendFine(r: Relay, given: map<JobId, nat>, a: Action, r': Relay, j: JobId)
    requires Fine(r, given, j) && Next(r, a, r') && a.SubmitSend?
    ensures Fine(r', given, j)
  {
    assert Claims(r', j) == Claims(r, j);
    forall w | 0 <= w < |r'.workers|
      ensures WorkerFine(r', given, j, r'.workers[w])
    {
      assert WorkerFine(r, given, j, r.workers[w]);
    }
  }

  lemma RecoverFine(r: Relay, given: map<JobId, nat>, a: Action, r': Relay, j: JobId)
    requires Fine(r, given, j) && Next(r, a, r') && Orderly(r, given, a) && a.ScanOne?
    ensures Fine(r', GivenAfter(r, given, a), j)
  {
    var queued := a.job in r.recs && r.recs[a.job].Pending();
    assert Claims(r', j) == Claims(r, j) + One(j == a.job && queued);
    forall w | 0 <= w < |r'.workers|
      ensures WorkerFine(r', GivenAfter(r, given, a), j, r'.workers[w])
    {
      assert WorkerFine(r, given, j, r.workers[w]);
    }
  }

  lemma QuietFine(r: Relay, given: map<JobId, nat>, a: Action, r': Relay, j: JobId)
    requires Fine(r, given, j) && Next(r, a, r') && (a.Tick? || a.Remove? || a.ScanEnd?)
    ensures Fine(r', given, j)
  {
    assert Claims(r', j) == Claims(r, j) && Listed(r', j) == Listed(r, j);
    forall w | 0 <= w < |r'.workers|
      ensures WorkerFine(r', given, j, r'.workers[w])
    {
      assert WorkerFine(r, given, j, r.workers[w]);
    }
  }

  lemma ReceiveFine(r: Relay, given: map<JobId, nat>, a: Action, r': Relay, j: JobId)
    requires Fine(r, given, j) && Next(r, a, r') && a.Receive?
    ensures Fine(r', given, j)
  {
    HeldUpdate(r.workers, a.w, r'.workers[a.w], j);
    assert r.channel == [r.channel[0]] + r.channel[1..];
    assert Claims(r', j) == Claims(r, j);
  }

  /** A worker goes on with its job or lets go of it. */
  lemma WorkClaims(r: Relay, a: Action, r': Relay, j: JobId)
    requires Next(r, a, r') && OfWorker(a) && !a.Receive?
    ensures |r'.workers| == |r.workers| && a.w < |r.workers| && Listed(r', j) == Listed(r, j)
    ensures Claims(r', j) + One(Holding(r.workers[a.w], j)) == Claims(r, j) + One(Holding(r'.workers[a.w], j))
    ensures Holding(r'.workers[a.w], j) ==> Holding(r.workers[a.w], j)
    ensures forall w :: 0 <= w < |r.workers| && w != a.w ==> r'.workers[w] == r.workers[w]
  {
    HeldUpdate(r.workers, a.w, r'.workers[a.w], j);
  }

  lemma WorkRecord(r: Relay, given: map<JobId, nat>, a: Action, r': Relay, j: JobId)
    requires Fine(r, given, j) && Next(r, a, r') && OfWorker(a) && !a.Receive?
    ensures RecordFine(r', given, j)
  {
    WorkClaims(r, a, r', j);
    assert WorkerFine(r, given, j, r.workers[a.w]);
    if Holding(r.workers[a.w], j) {
      HeldSome(r.workers, a.w, j);
    }
  }

  lemma WorkOwn(r: Relay, given: map<JobId, nat>, a: Action, r': Relay, j: JobId)
    requires Fine(r, given, j) && Next(r, a, r') && OfWorker(a) && !a.Receive?
    ensures WorkerFine(r', given, j, r'.workers[a.w])
  {
    WorkClaims(r, a, r', j);
    assert WorkerFine(r, given, j, r.workers[a.w]);
    if Holding(r.workers[a.w], j) {
      HeldSome(r.workers, a.w, j);
    }
  }

  lemma WorkFine(r: Relay, given: map<JobId, nat>, a: Action, r': Relay, j: JobId)
    requires Fine(r, given, j) && Next(r, a, r') && OfWorker(a) && !a.Receive?
    ensures Fine(r', given, j)
  {
    WorkClaims(r, a, r', j);
    WorkRecord(r, given, a, r', j);
    forall w | 0 <= w < |r'.workers|
      ensures WorkerFine(r', given, j, r'.workers[w])
    {
      if w == a.w {
        WorkOwn(r, given, a, r', j);
      } else {
        StillFine(r, given, r', j, w);
      }
    }
  }

  /** A worker with the last claim has it as long as it holds the job. */
  lemma StillFine(r: Relay, given: map<JobId, nat>, r': Relay, j: JobId, w: nat)
    requires Fine(r, given, j) && w < |r.workers| && w < |r'.workers| && r'.workers[w] == r.workers[w]
    requires Claims(r', j) <= Claims(r, j) && Listed(r', j) == Listed(r, j)
    ensures WorkerFine(r', given, j, r'.workers[w])
  {
    assert WorkerFine(r, given, j, r.workers[w]);
    if Holding(r'.workers[w], j) {
      HeldSome(r'.workers, w, j);
    }
  }

  lemma ByWorkerFine(r: Relay, given: map<JobId, nat>, a: Action, r': Relay, j: JobId)
    requires Fine(r, given, j) && Next(r, a, r') && OfWorker(a)
    ensures Fine(r', GivenAfter(r, given, a), j)
  {
    if a.Receive? {
      ReceiveFine(r, given, a, r', j);
    } else {
      WorkFine(r, given, a, r', j);
    }
  }

  lemma ByOthersFine(r: Relay, given: map<JobId, nat>, a: Action, r': Relay, j: JobId)
    requires Fine(r, given, j) && Next(r, a, r') && Orderly(r, given, a) && !OfWorker(a)
    ensures Fine(r', GivenAfter(r, given, a), j)
  {
    if a.Crash? {
      CrashFine(r, given, r', j);
    } else if a.SubmitWrite? {
      SubmitFine(r, given, a, r', j);
    } else if a.SubmitSend? {
      SendFine(r, given, a, r', j);
    } else if a.ScanOne? {
      RecoverFine(r, given, a, r', j);
    } else {
      QuietFine(r, given, a, r', j);
    }
  }

  lemma NextFine(r: Relay, given: map<JobId, nat>, a: Action, r': Relay, j: JobId)
    requires Fine(r, given, j) && Next(r, a, r') && Orderly(r, given, a)
    ensures Fine(r', GivenAfter(r, given, a), j)
  {
    if OfWorker(a) {
      ByWorkerFine(r, given, a, r', j);
    } else {
      ByOthersFine(r, given, a, r', j);
    }
  }

  // ---- what a scan misses --------------------------------------------------------------------

  /** The scan has counted at least this much for the record, or has it still to read. */
  predicate Seen(sc: Scan, j: JobId, job: Job, now: nat) {
    j in sc.due && (j in sc.read ==> Counted(job, now) <= sc.read[j])
  }

  /** Another worker than the scanning one had the job when the scan started. */
  ghost predicate Charged(sc: Scan, j: JobId) {
    exists v :: 0 <= v < |sc.start| && v != sc.w && Holding(sc.start[v], j)
  }

  /** A record with bytes is seen by the scan or charged to a worker. */
  ghost predicate Accounted(r: Relay, sc: Scan, j: JobId) {
    j in r.recs && r.recs[j].Bytes() > 0 ==> Seen(sc, j, r.recs[j], r.now) || Charged(sc, j)
  }

  /** The worker has looked at its job's record. */
  predicate Begun(worker: Worker) {
    !worker.Free? && !worker.Picked?
  }

  /** The worker may write bytes without a check, or meets bytes that came after it had looked. */
  predicate Laden(recs: Records, worker: Worker) {
    || worker.Passed?
    || (worker.FailRead? && worker.copy.Bytes() > 0)
    || (Begun(worker) && worker.job in recs && recs[worker.job].Bytes() > 0)
  }

  /** Every laden worker but the scanning one is charged, and every record with bytes is read,
      still to be read, or charged. */
  ghost predicate Tallied(r: Relay, sc: Scan) {
    && sc.w < |r.workers| == |sc.start|
    && (forall v :: 0 <= v < |r.workers| && v != sc.w && Laden(r.recs, r.workers[v]) ==>
          Charged(sc, r.workers[v].job))
    && forall j :: j in r.recs ==> Accounted(r, sc, j)
  }

  ghost predicate ScanHolds(r: Relay, sc: Scan) {
    Tallied(r, sc) && r.workers[sc.w].Fetching? && sc.asOf <= r.now
  }

  lemma StartHolds(r: Relay, sc: Scan)
    requires sc.w < |r.workers| && r.workers[sc.w].Fetching? && sc.asOf <= r.now
    requires sc.start == r.workers && sc.due == r.recs.Keys && sc.read == map[]
    ensures ScanHolds(r, sc)
  {
  }

  /** What a worker writes is empty or charged. */
  lemma WrittenCharged(r: Relay, given: map<JobId, nat>, a: Action, r': Relay, sc: Scan)
    requires ScanHolds(r, sc) && Next(r, a, r') && OfWorker(a) && !a.QuotaCheck? && a.w != sc.w
    requires !r.workers[a.w].Free? ==> Fine(r, given, r.workers[a.w].job)
    ensures forall j :: j in r'.recs && r'.recs[j].Bytes() > 0 && (j in r.recs ==> r'.recs[j] != r.recs[j]) ==>
              Charged(sc, j)
  {
    if !r.workers[a.w].Free? {
      assert WorkerFine(r, given, r.workers[a.w].job, r.workers[a.w]);
    }
  }

  /** A worker that becomes laden by its own step is charged. */
  lemma LadenCharged(r: Relay, given: map<JobId, nat>, a: Action, r': Relay, sc: Scan)
    requires ScanHolds(r, sc) && Next(r, a, r') && OfWorker(a) && !a.QuotaCheck? && a.w != sc.w
    requires !r.workers[a.w].Free? ==> Fine(r, given, r.workers[a.w].job)
    ensures Laden(r'.recs, r'.workers[a.w]) ==> Charged(sc, r'.workers[a.w].job)
  {
    if !r.workers[a.w].Free? {
      assert WorkerFine(r, given, r.workers[a.w].job, r.workers[a.w]);
      HeldSome(r.workers, a.w, r.workers[a.w].job);
    }
  }

  lemma WorkHolds(r: Relay, given: map<JobId, nat>, a: Action, r': Relay, sc: Scan)
    requires ScanHolds(r, sc) && Next(r, a, r') && OfWorker(a) && !a.QuotaCheck? && a.w != sc.w
    requires !r.workers[a.w].Free? ==> Fine(r, given, r.workers[a.w].job)
    ensures ScanHolds(r', sc)
  {
    WrittenCharged(r, given, a, r', sc);
    LadenCharged(r, given, a, r', sc);
    forall j | j in r'.recs
      ensures Accounted(r', sc, j)
    {
      if j in r.recs && r'.recs[j] == r.recs[j] {
        assert Accounted(r, sc, j);
      }
    }
    forall v | 0 <= v < |r'.workers| && v != sc.w && Laden(r'.recs, r'.workers[v])
      ensures Charged(sc, r'.workers[v].job)
    {
      if v != a.w && !Laden(r.recs, r.workers[v]) {
        assert r'.recs[r'.workers[v].job].Bytes() > 0;
      }
    }
  }

  /** Steps of nobody's worker bring no bytes. */
  lemma OtherHolds(r: Relay, a: Action, r': Relay, sc: Scan)
    requires ScanHolds(r, sc) && Next(r, a, r') && !OfWorker(a) && !a.SubmitWrite? && !a.Crash?
    ensures ScanHolds(r', ScanAfter(Some(sc), a).value)
  {
    var after := ScanAfter(Some(sc), a).value;
    assert r'.workers == r.workers && forall j :: j in r'.recs ==> j in r.recs && r'.recs[j] == r.recs[j];
    forall j | j in r'.recs
      ensures Accounted(r', after, j)
    {
      assert Accounted(r, sc, j) && Charged(after, j) == Charged(sc, j);
    }
    forall v | 0 <= v < |r'.workers| && v != sc.w && Laden(r'.recs, r'.workers[v])
      ensures Charged(after, r'.workers[v].job)
    {
      assert Laden(r.recs, r.workers[v]) && Charged(after, r.workers[v].job) == Charged(sc, r.workers[v].job);
    }
  }

  lemma ReadHolds(r: Relay, sc: Scan, j: JobId, sc': Scan)
    requires ScanHolds(r, sc) && j in r.recs && j !in sc.read
    requires sc' == sc.(read := sc.read[j := Counted(r.recs[j], sc.asOf)])
    ensures ScanHolds(r, sc')
  {
    assert forall k :: Charged(sc', k) == Charged(sc, k);
    forall k | k in r.recs
      ensures Accounted(r, sc', k)
    {
      assert Accounted(r, sc, k);
    }
  }

  // ---- the bound where the scan ends -----------------------------------------------------------

  /** The most a worker can have added for the job it had: an object and a normalized artifact. */
  function AtWorst(was: Worker, now: nat, maxObjectLen: nat): (worst: Worker) {
    if was.Free? then Free else Passed(was.job, Job(Queued, 0, None, now + 1), maxObjectLen)
  }

  /** The workers as the scan found them, at their worst, and the scanning one as it is. */
  function PutBack(r: Relay, sc: Scan): (back: seq<Worker>)
    requires sc.w < |r.workers| == |sc.start|
    ensures |back| == |r.workers|
  {
    seq(|sc.start|, v requires 0 <= v < |sc.start| =>
      if v == sc.w then r.workers[v] else AtWorst(sc.start[v], r.now, r.config.maxObjectLen))
  }

  lemma ChargedCovers(r: Relay, sc: Scan, maxNormalized: nat, j: JobId, v: nat)
    requires sc.w < |r.workers| == |sc.start| && Charged(sc, j)
    requires Covers(sc.read, PutBack(r, sc), r.now, maxNormalized, j, v)
    ensures r.config.maxObjectLen + maxNormalized <= v
  {
    var u :| 0 <= u < |sc.start| && u != sc.w && Holding(sc.start[u], j);
    assert HoldOn(PutBack(r, sc)[u], j, r.now, maxNormalized) <= v;
  }

  /** A worker that holds anything is laden, unless it is the scanning one. */
  lemma WorkerCovered(r: Relay, given: map<JobId, nat>, sc: Scan, maxNormalized: nat, j: JobId, v: nat, u: nat)
    requires Fine(r, given, j) && Sized(r, maxNormalized) && sc.w < |r.workers| == |sc.start| && u < |r.workers|
    requires u != sc.w && Laden(r.recs, r.workers[u]) ==> Charged(sc, r.workers[u].job)
    requires Covers(sc.read, PutBack(r, sc), r.now, maxNormalized, j, v)
    ensures HoldOn(r.workers[u], j, r.now, maxNormalized) <= v
  {
    assert WorkerFine(r, given, j, r.workers[u]) && WorkerSized(r.workers[u], r.config, maxNormalized);
    if u == sc.w {
      assert PutBack(r, sc)[u] == r.workers[u];
    } else if Holding(r.workers[u], j) && Charged(sc, j) {
      ChargedCovers(r, sc, maxNormalized, j, v);
    }
  }

  /** The scan has read all it had to. */
  ghost predicate ScanDone(r: Relay, sc: Scan) {
    Tallied(r, sc) && sc.due <= sc.read.Keys
  }

  /** Whatever a record or a worker counts for the job, the scan or a worker put back counts too. */
  lemma CoveredByScan(r: Relay, given: map<JobId, nat>, sc: Scan, maxNormalized: nat, j: JobId, v: nat)
    requires Fine(r, given, j) && Sized(r, maxNormalized) && ScanDone(r, sc)
    requires Covers(sc.read, PutBack(r, sc), r.now, maxNormalized, j, v)
    ensures Covers(CountedBytes(r.recs, r.now), r.workers, r.now, maxNormalized, j, v)
  {
    if j in r.recs && r.recs[j].Bytes() > 0 {
      assert Accounted(r, sc, j) && JobSized(r.recs[j], r.config, maxNormalized);
      if Charged(sc, j) {
        ChargedCovers(r, sc, maxNormalized, j, v);
      }
    }
    forall u | 0 <= u < |r.workers|
      ensures HoldOn(r.workers[u], j, r.now, maxNormalized) <= v
    {
      WorkerCovered(r, given, sc, maxNormalized, j, v, u);
    }
  }

  lemma EnvelopeByScan(r: Relay, given: map<JobId, nat>, sc: Scan, maxNormalized: nat)
    requires (forall j: JobId :: Fine(r, given, j)) && Sized(r, maxNormalized) && ScanDone(r, sc)
    ensures Sum(EnvelopeOf(r, maxNormalized))
            <= Sum(sc.read) + HoldSum(PutBack(r, sc), r.now, maxNormalized)
  {
    var back := PutBack(r, sc);
    var seen := Envelope(sc.read, back, r.now, maxNormalized);
    forall j | j in EnvelopeOf(r, maxNormalized)
      ensures EnvelopeOf(r, maxNormalized)[j] <= At(seen, j)
    {
      EnvelopeCovers(sc.read, back, r.now, maxNormalized, j);
      CoveredByScan(r, given, sc, maxNormalized, j, At(seen, j));
      EnvelopeLeast(CountedBytes(r.recs, r.now), r.workers, r.now, maxNormalized, j, At(seen, j));
    }
    SumMono(EnvelopeOf(r, maxNormalized), seen);
    EnvelopeSum(sc.read, back, r.now, maxNormalized);
  }

  lemma PutBackSized(r: Relay, sc: Scan, maxNormalized: nat, v: nat)
    requires Sized(r, maxNormalized) && sc.w < |r.workers| == |sc.start| && v < |r.workers|
    ensures Hold(PutBack(r, sc)[v], r.now, maxNormalized) <= r.config.maxObjectLen + maxNormalized
  {
    assert WorkerSized(r.workers[v], r.config, maxNormalized);
  }

  /** A check passed on what the scan read leaves the same room as one in a single step. */
  lemma ScanPassedWithin(r: Relay, given: map<JobId, nat>, sc: Scan, maxNormalized: nat)
    requires (forall j: JobId :: Fine(r, given, j)) && Sized(r, maxNormalized) && ScanDone(r, sc)
    requires FitsQuota(r.config, Sum(sc.read), sc.body)
    requires r.workers[sc.w].Passed? && r.workers[sc.w].body == sc.body
    ensures WithinBound(r, maxNormalized)
  {
    EnvelopeByScan(r, given, sc, maxNormalized);
    var back := PutBack(r, sc);
    var each := r.config.maxObjectLen + maxNormalized;
    forall v | 0 <= v < |back|
      ensures Hold(back[v], r.now, maxNormalized) <= each
    {
      PutBackSized(r, sc, maxNormalized, v);
    }
    HoldSumBound(back, r.now, maxNormalized, each, sc.w);
    BoundArithmetic(r.config, |r.workers|, maxNormalized, Sum(sc.read), sc.body,
                    HoldSum(back, r.now, maxNormalized));
  }

  // ---- every run ------------------------------------------------------------------------------

  /** At most two claims on every job, and never beyond the bound. */
  ghost predicate Kept(s: Store, maxNormalized: nat) {
    && (forall j: JobId :: Fine(s.r, s.given, j))
    && Sized(s.r, maxNormalized) && WithinBound(s.r, maxNormalized)
    && (s.scan.Some? ==> ScanHolds(s.r, s.scan.value))
  }

  ghost predicate OrderlyMove(s: Store, m: Move, maxNormalized: nat) {
    m.Step? ==> Orderly(s.r, s.given, m.a) && NormalizedUpTo(m.a, maxNormalized)
  }

  lemma AllFine(r: Relay, given: map<JobId, nat>, a: Action, r': Relay)
    requires (forall j: JobId :: Fine(r, given, j)) && Next(r, a, r') && Orderly(r, given, a)
    ensures forall j: JobId :: Fine(r', GivenAfter(r, given, a), j)
  {
    forall j: JobId
      ensures Fine(r', GivenAfter(r, given, a), j)
    {
      NextFine(r, given, a, r', j);
    }
  }

  lemma NextHolds(r: Relay, given: map<JobId, nat>, a: Action, r': Relay, sc: Scan)
    requires (forall j: JobId :: Fine(r, given, j)) && ScanHolds(r, sc)
    requires MayStep(Some(sc), a) && Next(r, a, r') && !a.Crash?
    ensures ScanHolds(r', ScanAfter(Some(sc), a).value)
  {
    if OfWorker(a) {
      WorkHolds(r, given, a, r', sc);
    } else {
      OtherHolds(r, a, r', sc);
    }
  }

  lemma StepKept(s: Store, a: Action, s': Store, maxNormalized: nat)
    requires Kept(s, maxNormalized) && Moves(s, Step(a), s') && OrderlyMove(s, Step(a), maxNormalized)
    ensures Kept(s', maxNormalized)
  {
    AllFine(s.r, s.given, a, s'.r);
    NextSized(s.r, a, s'.r, maxNormalized);
    NextWithin(s.r, a, s'.r, maxNormalized);
    if s'.scan.Some? {
      NextHolds(s.r, s.given, a, s'.r, s.scan.value);
    }
  }

  /** The outcome of a check changes nothing but the worker's own state. */
  lemma CheckedFine(r: Relay, given: map<JobId, nat>, w: nat, state: Worker, j: JobId)
    requires Fine(r, given, j) && w < |r.workers| && r.workers[w].Fetching? && !state.Free?
    requires state.job == r.workers[w].job && CopyBytes(state) <= CopyBytes(r.workers[w])
    ensures Fine(SetWorker(r, w, state), given, j)
  {
    var r' := SetWorker(r, w, state);
    HeldUpdate(r.workers, w, state, j);
    forall v | 0 <= v < |r'.workers|
      ensures WorkerFine(r', given, j, r'.workers[v])
    {
      assert WorkerFine(r, given, j, r.workers[v]);
    }
  }

  lemma EndFine(s: Store, s': Store)
    requires (forall j: JobId :: Fine(s.r, s.given, j)) && Moves(s, EndScan, s')
    ensures forall j: JobId :: Fine(s'.r, s'.given, j)
  {
    var sc := s.scan.value;
    forall j: JobId
      ensures Fine(s'.r, s'.given, j)
    {
      CheckedFine(s.r, s.given, sc.w, Checked(s.r, sc, Sum(sc.read)), j);
    }
  }

  lemma EndDone(r: Relay, sc: Scan, state: Worker)
    requires ScanHolds(r, sc) && sc.due <= sc.read.Keys
    ensures ScanDone(SetWorker(r, sc.w, state), sc)
  {
    var r' := SetWorker(r, sc.w, state);
    forall j | j in r'.recs
      ensures Accounted(r', sc, j)
    {
      assert Accounted(r, sc, j);
    }
  }

  /** A worker that leaves its scan empty-handed holds nothing. */
  lemma FailedWithin(r: Relay, w: nat, r': Relay, maxNormalized: nat)
    requires WithinBound(r, maxNormalized) && w < |r.workers| && r.workers[w].Fetching?
    requires r' == SetWorker(r, w, Failing(r.workers[w].job)) && Sized(r, maxNormalized)
    ensures WithinBound(r', maxNormalized)
  {
    assert Next(r, FetchFails(w), r');
    NextWithin(r, FetchFails(w), r', maxNormalized);
  }

  lemma EndKept(s: Store, s': Store, maxNormalized: nat)
    requires Kept(s, maxNormalized) && Moves(s, EndScan, s')
    ensures Kept(s', maxNormalized)
  {
    var sc := s.scan.value;
    EndFine(s, s');
    assert WorkerSized(s.r.workers[sc.w], s.r.config, maxNormalized);
    if FitsQuota(s.r.config, Sum(sc.read), sc.body) {
      EndDone(s.r, sc, s'.r.workers[sc.w]);
      ScanPassedWithin(s'.r, s'.given, sc, maxNormalized);
    } else {
      FailedWithin(s.r, sc.w, s'.r, maxNormalized);
    }
  }

  ghost predicate IsScanRun(ss: seq<Store>, moves: seq<Move>) {
    && |ss| == |moves| + 1 && Initial(ss[0].r) && ss[0].scan == None && ss[0].given == map[]
    && forall i :: 0 <= i < |moves| ==> Moves(ss[i], moves[i], ss[i + 1])
  }

  lemma InitialKept(s: Store, maxNormalized: nat)
    requires Initial(s.r) && s.scan == None && s.given == map[]
    ensures Kept(s, maxNormalized)
  {
    InitialWithin(s.r, maxNormalized);
    forall j: JobId
      ensures Fine(s.r, s.given, j)
    {
      HeldNone(s.r.workers, j);
    }
  }

  lemma MoveKept(s: Store, m: Move, s': Store, maxNormalized: nat)
    requires Kept(s, maxNormalized) && Moves(s, m, s') && OrderlyMove(s, m, maxNormalized)
    ensures Kept(s', maxNormalized)
  {
    match m
    case Step(a) => StepKept(s, a, s', maxNormalized);
    case StartScan(_, _) => StartHolds(s.r, s'.scan.value);
    case ReadOne(j) => ReadHolds(s.r, s.scan.value, j, s'.scan.value);
    case EndScan => EndKept(s, s', maxNormalized);
  }

  lemma {:induction false} RunKept(ss: seq<Store>, moves: seq<Move>, maxNormalized: nat)
    requires IsScanRun(ss, moves)
    requires forall i :: 0 <= i < |moves| ==> OrderlyMove(ss[i], moves[i], maxNormalized)
    ensures Kept(ss[|moves|], maxNormalized)
    decreases |moves|
  {
    var n := |moves|;
    if n == 0 {
      InitialKept(ss[0], maxNormalized);
    } else {
      RunKept(ss[..n], moves[..n - 1], maxNormalized);
      MoveKept(ss[n - 1], moves[n - 1], ss[n], maxNormalized);
    }
  }

  /** In every run with checks record by record in which no job is claimed more than twice, the
      recorded bytes of unexpired jobs are at most max_bytes + (W - 1) * max_object_len + W * N. */
  lemma ScannedBytesBounded(ss: seq<Store>, moves: seq<Move>, maxNormalized: nat)
    requires IsScanRun(ss, moves)
    requires forall i :: 0 <= i < |moves| ==> OrderlyMove(ss[i], moves[i], maxNormalized)
    ensures var r := ss[|moves|].r;
            && |r.workers| >= 1
            && Usage(r.recs, r.now) <= Bound(r.config, |r.workers|, maxNormalized)
            && (|r.workers| == 1 && maxNormalized == 0 ==> Usage(r.recs, r.now) <= r.config.maxBytes)
  {
    RunKept(ss, moves, maxNormalized);
    UsageInEnvelope(ss[|moves|].r, maxNormalized);
  }
}
