/** Chunked download: the request cursor, the server's answer, and the client's loop. */
module RelayDownload {
  import opened Bytes
  import opened NoiseFrames
  import opened RelayEngine

  const PROTOCOL_GHOST_RELAY: byte := 0x47
  const GHOST_RELAY_VERSION: byte := 1
  const OP_DOWNLOAD: byte := 3
  const STATUS_OK: byte := 0
  const STATUS_PENDING: byte := 1
  const STATUS_NOT_FOUND: byte := 2
  const STATUS_INVALID: byte := 3
  const STATUS_FAILED: byte := 4
  const ARTIFACT_PRIMARY: byte := 0
  const ARTIFACT_NORMALIZED: byte := 1
  const RELAY_MAX_DOWNLOAD_CHUNK := 16 * 1024 - 64
  const CLIENT_CHUNK := 8192

  function Ascii(s: string): (b: seq<byte>)
    requires forall i :: 0 <= i < |s| ==> s[i] as int < 128
    ensures |b| == |s|
  {
    seq(|s|, i requires 0 <= i < |s| => s[i] as int)
  }

  // ---- the request cursor -------------------------------------------------------------

  class RelayCursor {
    const bytes: seq<byte>
    var pos: nat

    ghost predicate Valid()
      reads this
    {
      pos <= |bytes|
    }

    constructor (bytes: seq<byte>)
      ensures Valid() && this.bytes == bytes && pos == 0
    {
      this.bytes, pos := bytes, 0;
    }

    /** A short read fails and leaves the position alone. */
    method ReadExact(len: nat) returns (r: Option<seq<byte>>)
      requires Valid()
      modifies this
      ensures Valid()
      ensures r == if old(pos) + len <= |bytes| then Some(bytes[old(pos)..old(pos) + len]) else None
      ensures pos == old(pos) + if r.Some? then len else 0
    {
      if pos + len > |bytes| {
        return None;
      }
      r := Some(bytes[pos..pos + len]);
      pos := pos + len;
    }

    method ReadBe(width: nat) returns (r: Option<nat>)
      requires Valid()
      modifies this
      ensures Valid()
      ensures r == if old(pos) + width <= |bytes| then Some(FromBe(bytes[old(pos)..old(pos) + width])) else None
      ensures pos == old(pos) + if r.Some? then width else 0
    {
      var taken := ReadExact(width);
      r := if taken.Some? then Some(FromBe(taken.value)) else None;
    }

    method ReadOptionalU8() returns (r: Option<byte>)
      requires Valid()
      modifies this
      ensures Valid()
      ensures r == if old(pos) < |bytes| then Some(bytes[old(pos)]) else None
      ensures pos == old(pos) + if r.Some? then 1 else 0
    {
      if pos >= |bytes| {
        return None;
      }
      r := Some(bytes[pos]);
      pos := pos + 1;
    }

    /** A two-octet length and that many octets, at most maxLen. */
    method ReadString(maxLen: nat) returns (r: Option<seq<byte>>)
      requires Valid()
      modifies this
      ensures Valid() && old(pos) <= pos
      ensures r == StringAt(bytes, old(pos), maxLen)
      ensures r.Some? ==> pos == old(pos) + 2 + |r.value|
    {
      var len := ReadBe(2);
      if len == None || len.value > maxLen {
        return None;
      }
      r := ReadExact(len.value);
    }
  }

  function StringAt(bytes: seq<byte>, pos: nat, maxLen: nat): (r: Option<seq<byte>>)
    ensures r.Some? ==> pos + 2 + |r.value| <= |bytes|
  {
    if pos + 2 > |bytes| then None
    else
      var len := FromBe(bytes[pos..pos + 2]);
      if len > maxLen || pos + 2 + len > |bytes| then None else Some(bytes[pos + 2..pos + 2 + len])
  }

  // ---- the server's answer -------------------------------------------------------------

  /** What the spool holds for a job, as the download path reads it. A None file is missing. */
  datatype Stored = Stored(
    status: Status,
    error: Option<seq<byte>>,
    normalizedLen: Option<nat>,
    expiresAt: nat,
    primary: Option<seq<byte>>,
    normalized: Option<seq<byte>>)

  type Spool = map<seq<byte>, Stored>

  datatype Query = Query(jobId: seq<byte>, offset: nat, maxLen: nat, artifact: byte)

  predicate ValidJobId(id: seq<byte>) {
    id != [] && forall i :: 0 <= i < |id| ==>
      || '0' as int <= id[i] <= '9' as int || 'a' as int <= id[i] <= 'f' as int
      || 'A' as int <= id[i] <= 'F' as int || id[i] == '-' as int
  }

  /** The fields of a download request after its three header octets. */
  function ParseQuery(body: seq<byte>): (r: Option<Query>) {
    match StringAt(body, 0, 128)
    case None => None
    case Some(id) =>
      var p := 2 + |id|;
      if !ValidJobId(id) || p + 6 > |body| then None
      else Some(Query(id, FromBe(body[p..p + 4]), FromBe(body[p + 4..p + 6]),
                      if p + 6 < |body| then body[p + 6] else ARTIFACT_PRIMARY))
  }

  function StatusResponse(status: byte, message: seq<byte>): (r: seq<byte>)
    ensures |r| == 7 + |message|
  {
    [PROTOCOL_GHOST_RELAY, GHOST_RELAY_VERSION, status] + ToBe(Min(|message|, U32_MAX), 4) + message
  }

  function ChunkResponse(body: seq<byte>, offset: nat, maxLen: nat): (r: seq<byte>)
    ensures |r| <= 12 + maxLen
  {
    var total := |body|;
    var start := Min(offset, total);
    var end := Min(total, start + maxLen);
    [PROTOCOL_GHOST_RELAY, GHOST_RELAY_VERSION, STATUS_OK] + [if end >= total then 1 else 0]
    + ToBe(total, 4) + ToBe(end - start, 4) + body[start..end]
  }

  function InternalError(): (r: seq<byte>) {
    StatusResponse(STATUS_FAILED, Ascii("internal relay error"))
  }

  function FailureText(job: Stored): (message: seq<byte>) {
    if job.error.Some? then job.error.value else Ascii("job failed")
  }

  /** The object the client asked for, if the job has one. */
  function Artifact(job: Stored, artifact: byte): (file: Option<seq<byte>>) {
    if artifact == ARTIFACT_NORMALIZED then job.normalized else job.primary
  }

  function Answer(spool: Spool, now: nat, q: Query): (r: seq<byte>) {
    if q.jobId !in spool then StatusResponse(STATUS_NOT_FOUND, Ascii("job not found"))
    else
      var job := spool[q.jobId];
      if job.expiresAt <= now then StatusResponse(STATUS_NOT_FOUND, Ascii("job expired"))
      else if job.status.Queued? || job.status.Running? then StatusResponse(STATUS_PENDING, Ascii("job not ready"))
      else if job.status.Failed? then StatusResponse(STATUS_FAILED, FailureText(job))
      else if q.artifact == ARTIFACT_NORMALIZED && job.normalizedLen == None
      then StatusResponse(STATUS_NOT_FOUND, Ascii("no normalized artifact for job"))
      else
        match Artifact(job, q.artifact)
        case None => InternalError()
        case Some(body) => ChunkResponse(body, q.offset, Min(q.maxLen, RELAY_MAX_DOWNLOAD_CHUNK))
  }

  /** The answer to a whole request of this operation; a malformed one is an internal error. */
  function Respond(spool: Spool, now: nat, request: seq<byte>): (r: seq<byte>) {
    if |request| < 3 || request[0] != PROTOCOL_GHOST_RELAY || request[1] != GHOST_RELAY_VERSION
    then StatusResponse(STATUS_INVALID, Ascii("invalid relay header"))
    else
      match ParseQuery(request[3..])
      case None => InternalError()
      case Some(q) => Answer(spool, now, q)
  }

  /** `dispatch` and `download` on a download request, reading it with the cursor. */
  method Download(spool: Spool, now: nat, request: seq<byte>) returns (response: seq<byte>)
    requires |request| >= 3 ==> request[2] == OP_DOWNLOAD
    ensures response == Respond(spool, now, request)
  {
    if |request| < 3 || request[0] != PROTOCOL_GHOST_RELAY || request[1] != GHOST_RELAY_VERSION {
      return StatusResponse(STATUS_INVALID, Ascii("invalid relay header"));
    }
    var query := ReadQuery(request[3..]);
    response := if query.Some? then Answer(spool, now, query.value) else InternalError();
  }

  /** Its fields, one after the other. */
  method ReadQuery(body: seq<byte>) returns (query: Option<Query>)
    ensures query == ParseQuery(body)
  {
    var cursor := new RelayCursor(body);
    var id := cursor.ReadString(128);
    if id == None || !ValidJobId(id.value) {
      return None;
    }
    var offset := cursor.ReadBe(4);
    if offset == None {
      return None;
    }
    var maxLen := cursor.ReadBe(2);
    if maxLen == None {
      return None;
    }
    var selector := cursor.ReadOptionalU8();
    var artifact := if selector.Some? then selector.value else ARTIFACT_PRIMARY;
    return Some(Query(id.value, offset.value, maxLen.value, artifact));
  }

  // ---- every answer against the frame size ----------------------------------------------

  ghost predicate FitsOneFrame(response: seq<byte>) {
    |response| + NOISE_TAG_LEN <= MAX_FRAME_LEN
  }

  /** Whatever is asked, the answer fits one frame with its tag, except the answer about a
      failed job whose error text is longer than 16361 octets; that one never fits. */
  lemma AnswerFits(spool: Spool, now: nat, q: Query)
    ensures FitsOneFrame(Answer(spool, now, q)) <==>
            !(q.jobId in spool && spool[q.jobId].expiresAt > now && spool[q.jobId].status.Failed?
              && |FailureText(spool[q.jobId])| > 16361)
  {
    if q.jobId in spool && spool[q.jobId].expiresAt > now && spool[q.jobId].status.Complete?
       && Artifact(spool[q.jobId], q.artifact).Some? {
      var body := Artifact(spool[q.jobId], q.artifact).value;
      assert |ChunkResponse(body, q.offset, Min(q.maxLen, RELAY_MAX_DOWNLOAD_CHUNK))| <= 12 + RELAY_MAX_DOWNLOAD_CHUNK;
    }
  }

  /** Such a job exists: nothing bounds the error text a worker records. */
  lemma LongErrorDoesNotFit(id: seq<byte>, text: seq<byte>, q: Query)
    requires |text| > 16361 && q.jobId == id
    ensures !FitsOneFrame(Answer(map[id := Stored(Failed, Some(text), None, 1, None, None)], 0, q))
  {
    AnswerFits(map[id := Stored(Failed, Some(text), None, 1, None, None)], 0, q);
  }

  // ---- the client -----------------------------------------------------------------------

  /** A well-formed download request that asks for q. */
  ghost predicate Asks(request: seq<byte>, q: Query) {
    && |request| >= 3
    && request[0] == PROTOCOL_GHOST_RELAY && request[1] == GHOST_RELAY_VERSION && request[2] == OP_DOWNLOAD
    && ParseQuery(request[3..]) == Some(q)
  }

  /** The request for one chunk, as the client builds it. */
  method BuildRequest(jobId: seq<byte>, offset: nat, artifact: byte) returns (request: seq<byte>)
    requires ValidJobId(jobId) && |jobId| <= 128 && offset <= U32_MAX
    ensures Asks(request, Query(jobId, offset, CLIENT_CHUNK, artifact))
  {
    request := [PROTOCOL_GHOST_RELAY, GHOST_RELAY_VERSION, OP_DOWNLOAD];
    var body := ToBe(|jobId|, 2);
    body := body + jobId;
    body := body + ToBe(offset, 4);
    body := body + ToBe(CLIENT_CHUNK, 2);
    body := body + [artifact];
    request := request + body;
    QueryReadsBack(jobId, offset, artifact);
    assert request[3..] == body;
  }

  /** Where the fields of a request lie. */
  lemma QuerySlices(head: seq<byte>, id: seq<byte>, offset: seq<byte>, len: seq<byte>, artifact: byte)
    requires |head| == 2 && |offset| == 4 && |len| == 2
    ensures var body, p := head + id + offset + len + [artifact], 2 + |id|;
            && |body| == p + 7 && body[0..2] == head && body[2..p] == id
            && body[p..p + 4] == offset && body[p + 4..p + 6] == len && body[p + 6] == artifact
  {
  }

  lemma QueryReadsBack(jobId: seq<byte>, offset: nat, artifact: byte)
    requires ValidJobId(jobId) && |jobId| <= 128 && offset <= U32_MAX
    ensures ParseQuery(ToBe(|jobId|, 2) + jobId + ToBe(offset, 4) + ToBe(CLIENT_CHUNK, 2) + [artifact])
         == Some(Query(jobId, offset, CLIENT_CHUNK, artifact))
  {
    PowValues();
    FromBeToBe(|jobId|, 2);
    FromBeToBe(offset, 4);
    FromBeToBe(CLIENT_CHUNK, 2);
    var head, off, len := ToBe(|jobId|, 2), ToBe(offset, 4), ToBe(CLIENT_CHUNK, 2);
    QuerySlices(head, jobId, off, len, artifact);
    ParsesAs(head + jobId + off + len + [artifact], head, jobId, off, len, artifact);
  }

  lemma ParsesAs(body: seq<byte>, head: seq<byte>, id: seq<byte>, offset: seq<byte>, len: seq<byte>, artifact: byte)
    requires ValidJobId(id) && |id| <= 128 && FromBe(head) == |id| && |body| == |id| + 9
    requires var p := 2 + |id|;
             && body[0..2] == head && body[2..p] == id
             && body[p..p + 4] == offset && body[p + 4..p + 6] == len && body[p + 6] == artifact
    ensures ParseQuery(body) == Some(Query(id, FromBe(offset), FromBe(len), artifact))
  {
  }

  datatype Chunk = Chunk(terminal: bool, total: nat, data: seq<byte>)

  /** What the client makes of a response. */
  datatype Reading =
    | Foreign
    | NotReady
    | Refusal(status: byte, message: seq<byte>)
    | Garbled
    | Arrived(chunk: Chunk)

  /** `parse_relay_download_response`. */
  function ReadResponse(response: seq<byte>): (r: Reading) {
    if |response| < 3 || response[0] != PROTOCOL_GHOST_RELAY || response[1] != GHOST_RELAY_VERSION then Foreign
    else if response[2] == STATUS_PENDING then NotReady
    else if response[2] != STATUS_OK then Refusal(response[2], if |response| > 7 then response[7..] else [])
    else if |response| < 12 || |response| != 12 + FromBe(response[8..12]) then Garbled
    else Arrived(Chunk(response[3] != 0, FromBe(response[4..8]), response[12..]))
  }

  /** The chunk the client goes on with; None stands for any of its errors. */
  function ParseChunk(response: seq<byte>): (r: Option<Chunk>) {
    match ReadResponse(response)
    case Arrived(chunk) => Some(chunk)
    case _ => None
  }

  /** Where the fields of a chunk lie. */
  lemma ChunkSlices(head: seq<byte>, total: seq<byte>, len: seq<byte>, data: seq<byte>)
    requires |head| == 4 && |total| == 4 && |len| == 4
    ensures var r := head + total + len + data;
            && |r| == 12 + |data| && r[..4] == head && r[4..8] == total && r[8..12] == len && r[12..] == data
  {
  }

  /** The client reads from a chunk exactly the slice the server cut. */
  lemma ChunkReadsBack(body: seq<byte>, offset: nat, maxLen: nat)
    requires |body| <= U32_MAX
    ensures var start := Min(offset, |body|);
            var end := Min(|body|, start + maxLen);
            ParseChunk(ChunkResponse(body, offset, maxLen)) == Some(Chunk(end == |body|, |body|, body[start..end]))
  {
    PowValues();
    var start := Min(offset, |body|);
    var end := Min(|body|, start + maxLen);
    FromBeToBe(|body|, 4);
    FromBeToBe(end - start, 4);
    var head: seq<byte> := [PROTOCOL_GHOST_RELAY, GHOST_RELAY_VERSION, STATUS_OK] + [if end >= |body| then 1 else 0];
    ChunkSlices(head, ToBe(|body|, 4), ToBe(end - start, 4), body[start..end]);
    ChunkParsesAs(ChunkResponse(body, offset, maxLen), head, ToBe(|body|, 4), ToBe(end - start, 4), body[start..end]);
  }

  lemma ChunkParsesAs(r: seq<byte>, head: seq<byte>, total: seq<byte>, len: seq<byte>, data: seq<byte>)
    requires |r| == 12 + |data| && |head| == 4 && FromBe(len) == |data|
    requires r[..4] == head && r[4..8] == total && r[8..12] == len && r[12..] == data
    requires head[0] == PROTOCOL_GHOST_RELAY && head[1] == GHOST_RELAY_VERSION && head[2] == STATUS_OK
    ensures ParseChunk(r) == Some(Chunk(head[3] != 0, FromBe(total), data))
  {
    assert r[0] == r[..4][0] && r[1] == r[..4][1] && r[2] == r[..4][2] && r[3] == r[..4][3];
  }

  lemma StatusReadsBack(status: byte, message: seq<byte>)
    requires status != 0
    ensures ReadResponse(StatusResponse(status, message)) == if status == 1 then NotReady else Refusal(status, message)
  {
    var r := StatusResponse(status, message);
    assert r[0] == PROTOCOL_GHOST_RELAY && r[1] == GHOST_RELAY_VERSION && r[2] == status && r[7..] == message;
  }

  /** What the client learns about a job that is not there, or no more: just that. */
  lemma AbsentLearnt(spool: Spool, now: nat, q: Query)
    ensures q.jobId !in spool ==> ReadResponse(Answer(spool, now, q)) == Refusal(2, Ascii("job not found"))
    ensures q.jobId in spool && spool[q.jobId].expiresAt <= now ==>
              ReadResponse(Answer(spool, now, q)) == Refusal(2, Ascii("job expired"))
  {
    StatusReadsBack(2, Ascii("job not found"));
    StatusReadsBack(2, Ascii("job expired"));
  }

  /** About one that is not done: that it is not ready, or why it failed. */
  lemma UndoneLearnt(spool: Spool, now: nat, q: Query)
    requires q.jobId in spool && spool[q.jobId].expiresAt > now
    ensures spool[q.jobId].status in {Queued, Running} ==> ReadResponse(Answer(spool, now, q)) == NotReady
    ensures spool[q.jobId].status == Failed ==>
              ReadResponse(Answer(spool, now, q))
              == Refusal(4, match spool[q.jobId].error case Some(text) => text case None => Ascii("job failed"))
  {
    StatusReadsBack(1, Ascii("job not ready"));
    StatusReadsBack(4, FailureText(spool[q.jobId]));
  }

  /** About one that is done without the artifact asked for: that it has none. */
  lemma MissingLearnt(spool: Spool, now: nat, q: Query)
    requires q.jobId in spool && spool[q.jobId].expiresAt > now && spool[q.jobId].status == Complete
    ensures q.artifact == 1 && spool[q.jobId].normalizedLen == None ==>
              ReadResponse(Answer(spool, now, q)) == Refusal(2, Ascii("no normalized artifact for job"))
    ensures (q.artifact == 1 ==> spool[q.jobId].normalizedLen.Some? && spool[q.jobId].normalized == None)
            && (q.artifact != 1 ==> spool[q.jobId].primary == None) ==>
              ReadResponse(Answer(spool, now, q)) == Refusal(4, Ascii("internal relay error"))
  {
    StatusReadsBack(2, Ascii("no normalized artifact for job"));
    StatusReadsBack(4, Ascii("internal relay error"));
  }

  /** And about one that has it: the octets asked for, as many as fit a chunk. */
  lemma StoredLearnt(spool: Spool, now: nat, q: Query, body: seq<byte>)
    requires q.jobId in spool && spool[q.jobId].expiresAt > now && spool[q.jobId].status == Complete
    requires if q.artifact == 1 then spool[q.jobId].normalizedLen.Some? && spool[q.jobId].normalized == Some(body)
             else spool[q.jobId].primary == Some(body)
    requires |body| <= U32_MAX
    ensures var start := Min(q.offset, |body|);
            var end := Min(|body|, start + Min(q.maxLen, 16320));
            ReadResponse(Answer(spool, now, q)) == Arrived(Chunk(end == |body|, |body|, body[start..end]))
  {
    AnswerIsChunk(spool, now, q, body);
    ChunkReadsBack(body, q.offset, Min(q.maxLen, RELAY_MAX_DOWNLOAD_CHUNK));
  }

  lemma AnswerIsChunk(spool: Spool, now: nat, q: Query, body: seq<byte>)
    requires q.jobId in spool && spool[q.jobId].expiresAt > now && spool[q.jobId].status == Complete
    requires if q.artifact == 1 then spool[q.jobId].normalizedLen.Some? && spool[q.jobId].normalized == Some(body)
             else spool[q.jobId].primary == Some(body)
    ensures Answer(spool, now, q) == ChunkResponse(body, q.offset, Min(q.maxLen, RELAY_MAX_DOWNLOAD_CHUNK))
  {
  }

  /** A job identifier is hexadecimal digits and dashes, at least one of them. */
  lemma JobIdIs(id: seq<byte>)
    ensures ValidJobId(id) <==>
              |id| > 0 && forall i :: 0 <= i < |id| ==>
                || 0x30 <= id[i] <= 0x39 || 0x41 <= id[i] <= 0x46 || 0x61 <= id[i] <= 0x66 || id[i] == 0x2D
  {
  }

  /** A request that cannot be read is refused as such. */
  lemma BadRequestRefused(spool: Spool, now: nat, request: seq<byte>)
    ensures |request| < 3 || request[0] != 0x47 || request[1] != 1 ==>
              ReadResponse(Respond(spool, now, request)) == Refusal(3, Ascii("invalid relay header"))
    ensures |request| >= 3 && request[0] == 0x47 && request[1] == 1 && ParseQuery(request[3..]) == None ==>
              ReadResponse(Respond(spool, now, request)) == Refusal(4, Ascii("internal relay error"))
  {
    StatusReadsBack(3, Ascii("invalid relay header"));
    StatusReadsBack(4, Ascii("internal relay error"));
  }

  /** The job is complete and unexpired, and the artifact's file is there. */
  ghost predicate Ready(spool: Spool, jobId: seq<byte>, artifact: byte, until: nat) {
    && jobId in spool
    && spool[jobId].status.Complete? && spool[jobId].expiresAt > until
    && (artifact == ARTIFACT_NORMALIZED ==> spool[jobId].normalizedLen.Some?)
    && Artifact(spool[jobId], artifact).Some?
  }

  /** A request for a stored object is answered with a chunk of it. */
  lemma Answered(spool: Spool, now: nat, request: seq<byte>, q: Query)
    requires Asks(request, q) && Ready(spool, q.jobId, q.artifact, now) && q.maxLen <= RELAY_MAX_DOWNLOAD_CHUNK
    ensures Respond(spool, now, request)
         == ChunkResponse(Artifact(spool[q.jobId], q.artifact).value, q.offset, q.maxLen)
  {
  }

  lemma ChunkAnswered(spool: Spool, now: nat, request: seq<byte>, q: Query)
    requires Asks(request, q) && Ready(spool, q.jobId, q.artifact, now) && q.maxLen <= RELAY_MAX_DOWNLOAD_CHUNK
    requires q.offset <= |Artifact(spool[q.jobId], q.artifact).value| <= U32_MAX
    ensures var stored := Artifact(spool[q.jobId], q.artifact).value;
            var end := Min(|stored|, q.offset + q.maxLen);
            ParseChunk(Respond(spool, now, request)) == Some(Chunk(end == |stored|, |stored|, stored[q.offset..end]))
  {
    Answered(spool, now, request, q);
    ChunkReadsBack(Artifact(spool[q.jobId], q.artifact).value, q.offset, q.maxLen);
  }

  /** One turn of the client's loop: the slice from offset on, or an error. */
  method FetchChunk(spool: Spool, jobId: seq<byte>, artifact: byte, offset: nat, now: nat)
    returns (chunk: Option<Chunk>)
    requires ValidJobId(jobId) && |jobId| <= 128 && Ready(spool, jobId, artifact, now)
    requires offset <= |Artifact(spool[jobId], artifact).value| <= U32_MAX
    ensures var stored := Artifact(spool[jobId], artifact).value;
            var end := Min(|stored|, offset + CLIENT_CHUNK);
            chunk == Some(Chunk(end == |stored|, |stored|, stored[offset..end]))
  {
    var request := BuildRequest(jobId, offset, artifact);
    var response := Download(spool, now, request);
    chunk := ParseChunk(response);
    ChunkAnswered(spool, now, request, Query(jobId, offset, CLIENT_CHUNK, artifact));
  }

  function CeilDiv(n: nat, d: nat): (q: nat)
    requires d > 0
  {
    (n + d - 1) / d
  }

  lemma LastChunk(n: nat, k: nat)
    requires k * CLIENT_CHUNK <= n <= (k + 1) * CLIENT_CHUNK && (k > 0 ==> k * CLIENT_CHUNK < n)
    ensures k + 1 == Max(1, CeilDiv(n, CLIENT_CHUNK))
  {
  }

  /** `relay_download` against a spool that does not change and does not expire meanwhile:
      for every object shorter than 2^32 octets it ends after max(1, ceil(n / 8192)) requests
      with exactly the stored octets. */
  method FetchObject(spool: Spool, jobId: seq<byte>, artifact: byte, clock: nat -> nat, ghost until: nat)
    returns (body: Option<seq<byte>>, requests: nat)
    requires ValidJobId(jobId) && |jobId| <= 128
    requires Ready(spool, jobId, artifact, until) && forall i: nat :: clock(i) <= until
    requires |Artifact(spool[jobId], artifact).value| <= U32_MAX
    ensures body == Artifact(spool[jobId], artifact)
    ensures requests == Max(1, CeilDiv(|body.value|, CLIENT_CHUNK))
  {
    ghost var stored := Artifact(spool[jobId], artifact).value;
    var offset, got := 0, [];
    requests := 0;
    while true
      invariant got <= stored && offset == |got| == requests * CLIENT_CHUNK
      invariant requests > 0 ==> offset < |stored|
      decreases |stored| - offset
    {
      assert clock(requests) <= until;
      var chunk := FetchChunk(spool, jobId, artifact, offset, clock(requests));
      ghost var end := Min(|stored|, offset + CLIENT_CHUNK);
      assert stored[..offset] + stored[offset..end] == stored[..end];
      got := got + chunk.value.data;
      offset := offset + |chunk.value.data|;
      requests := requests + 1;
      if chunk.value.terminal {
        LastChunk(|stored|, requests - 1);
        assert got == stored[..|stored|] == stored;
        body := if |got| == chunk.value.total then Some(got) else None;
        return;
      }
    }
  }
}
