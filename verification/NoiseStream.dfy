/** The poll-driven framed stream: partial headers, partial bodies, pending writes and
    buffered plaintext all survive a `Pending`. */
module NoiseStream {
  import opened Bytes
  import opened NoiseFrames

  datatype ReadPoll = ReadPending | ReadFailed | ReadEof | ReadData(data: seq<byte>)
  datatype WritePoll = WritePending | WriteFailed | Wrote(n: nat)

  /** The bytes a tape of read answers will deliver before the peer's end of stream.
      An empty read is how the end of stream shows at a socket. */
  function TapeBytes(tape: seq<ReadPoll>): (s: seq<byte>) {
    if tape == [] then []
    else match tape[0]
      case ReadEof => []
      case ReadData(d) => if d == [] then [] else d + TapeBytes(tape[1..])
      case _ => TapeBytes(tape[1..])
  }

  /** What can keep a socket from taking or giving octets: it would block, it is broken, the peer
      has ended the stream, or a write takes nothing. */
  datatype Hitch = ReadStall | ReadBreak | ReadEnd | WriteStall | WriteBreak | WriteNone

  function ReadHitch(r: ReadPoll): (h: seq<Hitch>) {
    match r
    case ReadPending => [ReadStall]
    case ReadFailed => [ReadBreak]
    case ReadEof => [ReadEnd]
    case ReadData(_) => []
  }

  function WriteHitch(r: WritePoll): (h: seq<Hitch>) {
    match r
    case WritePending => [WriteStall]
    case WriteFailed => [WriteBreak]
    case Wrote(n) => if n == 0 then [WriteNone] else []
  }

  /** Read answers without a failure and without an end of stream. */
  predicate CalmReads(tape: seq<ReadPoll>) {
    tape == [] || ((tape[0].ReadPending? || (tape[0].ReadData? && tape[0].data != [])) && CalmReads(tape[1..]))
  }

  /** Write answers without a failure and without an empty write. */
  predicate CalmWrites(tape: seq<WritePoll>) {
    tape == [] || ((tape[0].WritePending? || (tape[0].Wrote? && tape[0].n > 0)) && CalmWrites(tape[1..]))
  }

  predicate OnlyStalls(hitches: seq<Hitch>) {
    hitches == []
    || (hitches[|hitches| - 1] in {ReadStall, WriteStall} && OnlyStalls(hitches[..|hitches| - 1]))
  }

  /** A TCP socket whose future answers are written on two tapes. Quantifying over the
      tapes is quantifying over every schedule of partial reads, partial writes and
      `Pending`. The ghost fields record what has crossed the socket and each time it has
      given or taken nothing, with the reason. */
  class Socket {
    var arrivals: seq<ReadPoll>
    var writes: seq<WritePoll>
    ghost var taken: seq<byte>
    ghost var sent: seq<byte>
    ghost var hitches: seq<Hitch>

    constructor (arrivals: seq<ReadPoll>, writes: seq<WritePoll>)
      ensures this.arrivals == arrivals && this.writes == writes && taken == [] && sent == [] && hitches == []
    {
      this.arrivals, this.writes, taken, sent, hitches := arrivals, writes, [], [], [];
    }

    /** Neither has there been anything but stalls, nor do the tapes hold anything else. */
    ghost predicate Calm()
      reads this`arrivals, this`writes, this`hitches
    {
      CalmReads(arrivals) && CalmWrites(writes) && OnlyStalls(hitches)
    }

    method PollRead(capacity: nat) returns (r: ReadPoll)
      requires capacity > 0
      modifies this`arrivals, this`taken, this`hitches
      ensures taken == old(taken) + (if r.ReadData? then r.data else [])
      ensures old(TapeBytes(arrivals)) == (if r.ReadData? then r.data else []) + TapeBytes(arrivals)
      ensures r.ReadData? ==> 0 < |r.data| <= capacity
      ensures r.ReadEof? ==> TapeBytes(arrivals) == []
      ensures r.ReadPending? ==> old(arrivals) == [] || old(arrivals)[0] == ReadPending
      ensures r.ReadFailed? ==> old(arrivals) != [] && old(arrivals)[0] == ReadFailed
      ensures r.ReadEof? ==> old(arrivals) != [] && old(arrivals)[0] in {ReadEof, ReadData([])}
      ensures hitches == old(hitches) + ReadHitch(r)
      ensures old(Calm()) ==> Calm()
    {
      if arrivals == [] {
        hitches := hitches + [ReadStall];
        return ReadPending;
      }
      match arrivals[0]
      case ReadEof => hitches, r := hitches + [ReadEnd], ReadEof;
      case ReadPending => arrivals, hitches, r := arrivals[1..], hitches + [ReadStall], ReadPending;
      case ReadFailed => arrivals, hitches, r := arrivals[1..], hitches + [ReadBreak], ReadFailed;
      case ReadData(d) =>
        if d == [] {
          hitches, r := hitches + [ReadEnd], ReadEof;
        } else if |d| <= capacity {
          arrivals, taken, r := arrivals[1..], taken + d, ReadData(d);
        } else {
          ghost var tail := arrivals[1..];
          arrivals, taken, r :=
            [ReadData(d[capacity..])] + arrivals[1..], taken + d[..capacity], ReadData(d[..capacity]);
          assert arrivals[1..] == tail;
          assert d == d[..capacity] + d[capacity..];
        }
    }

    method PollWrite(buf: seq<byte>) returns (r: WritePoll)
      requires buf != []
      modifies this`writes, this`sent, this`hitches
      ensures r.Wrote? ==> r.n <= |buf| && sent == old(sent) + buf[..r.n]
      ensures !r.Wrote? ==> sent == old(sent)
      ensures r.WritePending? ==> old(writes) == [] || old(writes)[0] == WritePending
      ensures r in {WriteFailed, Wrote(0)} ==> old(writes) != [] && old(writes)[0] == r
      ensures hitches == old(hitches) + WriteHitch(r)
      ensures old(Calm()) ==> Calm()
    {
      if writes == [] {
        hitches := hitches + [WriteStall];
        return WritePending;
      }
      r := writes[0];
      writes := writes[1..];
      if r.Wrote? {
        r := Wrote(Min(r.n, |buf|));
        sent := sent + buf[..r.n];
      }
      ghost var before := hitches;
      hitches := hitches + WriteHitch(r);
      assert hitches == before || hitches[..|hitches| - 1] == before;
    }
  }

  datatype ErrorKind = SocketError | WriteZero | FrameTooLong | EofInHeader | EofInBody | BadSeal
  datatype FramePoll = FramePending | FrameError(kind: ErrorKind) | FrameEnd | FrameReady(frame: seq<byte>)

  predicate PlainStop(r: FramePoll) {
    r.FramePending? || r == FrameError(SocketError)
  }

  /** The hitch behind an answer of the frame reader. */
  function FrameHitch(r: FramePoll): (h: seq<Hitch>) {
    match r
    case FramePending => [ReadStall]
    case FrameEnd => [ReadEnd]
    case FrameReady(_) => []
    case FrameError(kind) =>
      match kind
      case SocketError => [ReadBreak]
      case EofInHeader => [ReadEnd]
      case EofInBody => [ReadEnd]
      case _ => []
  }

  /** How much of a caller's buffer one frame carries. */
  function ChunkLen(buf: seq<byte>): (n: nat)
    ensures n <= |buf| && n <= 16_368 && (n == |buf| || n == 16_368)
  {
    Min(|buf|, MAX_PLAINTEXT_LEN)
  }

  datatype SocketFlush = SocketBusy | SocketBroken | SocketDone
  datatype FlushPoll = FlushPending | FlushError(kind: ErrorKind) | Flushed
  datatype StreamRead = NoDataYet | ReadError(kind: ErrorKind) | Delivered(data: seq<byte>)
  datatype StreamWrite = NotYet | WriteError(kind: ErrorKind) | Accepted(n: nat)

  /** The hitch behind an answer of the flush loop. */
  function FlushHitch(r: FlushPoll): (h: seq<Hitch>)
    requires r.FlushError? ==> r.kind in {SocketError, WriteZero}
  {
    match r
    case FlushPending => [WriteStall]
    case FlushError(kind) => if kind == SocketError then [WriteBreak] else [WriteNone]
    case Flushed => []
  }

  /** The hitches that can be behind an answer to a reader: it waits only for a socket that would
      block, and each error has its own cause. */
  predicate ReadCaused(capacity: nat, r: StreamRead, h: seq<Hitch>) {
    match r
    case NoDataYet => h in {[ReadStall], [WriteStall]}
    case Delivered(data) => if data != [] then h == [] else h == [ReadEnd] || (h == [] && capacity == 0)
    case ReadError(kind) =>
      match kind
      case SocketError => h in {[ReadBreak], [WriteBreak]}
      case WriteZero => h == [WriteNone]
      case EofInHeader => h == [ReadEnd]
      case EofInBody => h == [ReadEnd]
      case _ => h == []
  }

  /** Likewise for a writer; what it hands over may be accepted and still wait to be sent. */
  predicate WriteCaused(r: StreamWrite, h: seq<Hitch>) {
    match r
    case NotYet => h == [WriteStall]
    case Accepted(_) => h in {[], [WriteStall]}
    case WriteError(kind) => (kind == SocketError && h == [WriteBreak]) || (kind == WriteZero && h == [WriteNone])
  }

  /** Likewise for a flush, where the socket's own answer counts once nothing is pending. */
  predicate FlushCaused(socket: SocketFlush, r: FlushPoll, h: seq<Hitch>) {
    match r
    case FlushPending => h == [WriteStall] || (h == [] && socket.SocketBusy?)
    case Flushed => h == [] && socket.SocketDone?
    case FlushError(kind) =>
      || (kind == SocketError && (h == [WriteBreak] || (h == [] && socket.SocketBroken?)))
      || (kind == WriteZero && h == [WriteNone])
  }

  /** `NoiseFramedStream`. The reading half owns the plaintext, header and body buffers
      and the receive nonce; the writing half owns the pending frame and the send nonce. */
  class NoiseFramedStream {
    const sock: Socket
    const recv: Cipher
    const send: Cipher
    const readLen: array<byte>
    var recvNonce: nat
    var sendNonce: nat
    var plaintext: seq<byte>
    var plaintextPos: nat
    var readLenPos: nat
    var encryptedRead: seq<byte>
    var encryptedReadPos: nat
    var pendingWrite: seq<byte>
    var pendingWritePos: nat

    // Histories: the plaintext given at creation, the frames taken whole, the bytes
    // handed to the caller, the chunks sealed, and the bytes reported as accepted.
    ghost const initial: seq<byte>
    ghost var frames: seq<seq<byte>>
    ghost var delivered: seq<byte>
    ghost var sealed: seq<seq<byte>>
    ghost var accepted: seq<byte>

    ghost predicate Buffers()
      reads this`readLenPos, this`encryptedRead, this`encryptedReadPos
    {
      && readLen.Length == 2 && readLenPos <= 2
      && encryptedReadPos <= |encryptedRead|
      && (readLenPos < 2 ==> encryptedRead == [])
    }

    /** The bytes taken from the socket that do not yet make a whole frame. */
    ghost function Partial(): (s: seq<byte>)
      requires Buffers()
      reads this`readLenPos, this`encryptedRead, this`encryptedReadPos, readLen
    {
      readLen[..readLenPos] + encryptedRead[..encryptedReadPos]
    }

    /** What is still to be decoded: the unfinished frame and all the network will bring. */
    ghost function Input(): (s: seq<byte>)
      requires Buffers()
      reads this`readLenPos, this`encryptedRead, this`encryptedReadPos, readLen, sock`arrivals
    {
      Partial() + TapeBytes(sock.arrivals)
    }

    /** The socket has given exactly the whole frames and the unfinished one. */
    ghost predicate Taken()
      requires Buffers()
      reads this`readLenPos, this`encryptedRead, this`encryptedReadPos, this`frames, readLen, sock`taken
    {
      WireSized(frames) && sock.taken == EncodeAll(frames) + Partial()
    }

    /** A full header has its body buffer sized, or announces too many bytes. */
    ghost predicate Sized()
      requires Buffers()
      reads this`readLenPos, this`encryptedRead, this`encryptedReadPos, readLen
    {
      readLenPos == 2 ==>
        if encryptedRead == [] then FromBe(readLen[..]) > MAX_FRAME_LEN
        else |encryptedRead| == FromBe(readLen[..]) <= MAX_FRAME_LEN && encryptedReadPos < |encryptedRead|
    }

    ghost predicate Framing()
      reads this`readLenPos, this`encryptedRead, this`encryptedReadPos, this`frames, readLen, sock`taken
    {
      Buffers() && Sized() && Taken()
    }

    ghost predicate Plaintexts()
      reads this`plaintext, this`plaintextPos, this`recvNonce, this`delivered, this`frames
    {
      && plaintextPos <= |plaintext|
      && (plaintextPos == |plaintext| ==> plaintextPos == 0)
      && recvNonce == |OpenAll(recv, frames)|
      && delivered + plaintext[plaintextPos..] == initial + Concat(OpenAll(recv, frames))
    }

    ghost predicate Writing()
      reads this`pendingWrite, this`pendingWritePos, this`sendNonce, this`sealed, this`accepted, sock`sent
    {
      && pendingWritePos <= |pendingWrite|
      && send.Lawful()
      && Sendable(sealed) && sendNonce == |sealed|
      && sock.sent + pendingWrite[pendingWritePos..] == EncodeAll(SealAll(send, sealed))
      && accepted == Concat(sealed)
    }

    ghost predicate Valid()
      reads this, readLen, sock
    {
      Framing() && Plaintexts() && Writing()
    }

    /** What one half writes does not touch the invariants of the other. */
    twostate lemma WritingStays()
      requires old(Writing()) && unchanged(this`pendingWrite, this`pendingWritePos, this`sendNonce)
      requires unchanged(this`sealed, this`accepted) && sock.sent == old(sock.sent)
      ensures Writing()
    {
    }

    twostate lemma ReadingStays()
      requires old(Framing()) && old(Plaintexts())
      requires unchanged(this`readLenPos, this`encryptedRead, this`encryptedReadPos, this`frames, readLen)
      requires unchanged(this`plaintext, this`plaintextPos, this`recvNonce, this`delivered)
      requires sock.taken == old(sock.taken)
      ensures Framing() && Plaintexts()
    {
    }

    constructor (sock: Socket, recv: Cipher, send: Cipher, initialPlaintext: seq<byte>)
      requires send.Lawful() && sock.taken == [] && sock.sent == []
      ensures Valid() && this.sock == sock && this.recv == recv && this.send == send
      ensures initial == initialPlaintext && fresh(readLen)
      ensures delivered == [] && accepted == [] && frames == []
      ensures Partial() == []
    {
      this.sock, this.recv, this.send := sock, recv, send;
      initial := initialPlaintext;
      plaintext, plaintextPos := initialPlaintext, 0;
      readLen := new byte[2](_ => 0);
      recvNonce, sendNonce, readLenPos, encryptedRead, encryptedReadPos := 0, 0, 0, [], 0;
      pendingWrite, pendingWritePos := [], 0;
      frames, delivered, sealed, accepted := [], [], [], [];
    }

    /** What an answer of the frame reader says: it is the one-shot reader's answer on the
        whole remaining input, or nothing was lost. The one difference is a stream cut after
        a single header byte, which the one-shot reader calls an end. */
    ghost predicate FrameAnswer(before: seq<byte>, r: FramePoll)
      requires Buffers()
      reads this`readLenPos, this`encryptedRead, this`encryptedReadPos, readLen, sock`arrivals
    {
      match r
      case FramePending => Input() == before
      case FrameReady(frame) => Partial() == [] && ReadFrameOptional(before) == Got(frame, Input())
      case FrameEnd => Input() == before == []
      case FrameError(kind) =>
        && Input() == before
        && match kind
           case SocketError => true
           case FrameTooLong => readLenPos == 2 && encryptedRead == [] && ReadFrameOptional(before) == TooLong
           case EofInHeader => |before| == 1
           case EofInBody => ReadFrameOptional(before) == Truncated
           case _ => false
    }

    method StoreHeader(d: seq<byte>)
      requires Buffers() && 0 < |d| <= 2 - readLenPos
      modifies this`readLenPos, readLen
      ensures Buffers() && Partial() == old(Partial()) + d && readLenPos == old(readLenPos) + |d|
    {
      var before := readLenPos;
      forall j | 0 <= j < |d| {
        readLen[before + j] := d[j];
      }
      readLenPos := before + |d|;
      assert Partial() == old(Partial()) + d;
    }

    method StoreBody(d: seq<byte>)
      requires Buffers() && readLenPos == 2 && |d| <= |encryptedRead| - encryptedReadPos
      modifies this`encryptedRead, this`encryptedReadPos
      ensures Buffers() && Partial() == old(Partial()) + d
      ensures |encryptedRead| == old(|encryptedRead|) && encryptedReadPos == old(encryptedReadPos) + |d|
    {
      var before := encryptedReadPos;
      encryptedRead := encryptedRead[..before] + d + encryptedRead[before + |d|..];
      encryptedReadPos := before + |d|;
      assert Partial() == old(Partial()) + d;
    }

    /** The octets just taken from the socket go to the header. */
    method KeepHeader(d: seq<byte>)
      requires Buffers() && 0 < |d| <= 2 - readLenPos
      requires WireSized(frames) && sock.taken == EncodeAll(frames) + Partial() + d
      modifies this`readLenPos, readLen
      ensures Buffers() && Taken() && Partial() == old(Partial()) + d && readLenPos == old(readLenPos) + |d|
    {
      Reassociate(EncodeAll(frames), Partial(), d);
      StoreHeader(d);
    }

    /** One turn of the header loop; None means some octets came. */
    method HeaderTurn() returns (stop: Option<FramePoll>)
      requires Buffers() && Taken() && readLenPos < 2
      modifies this`readLenPos, readLen, sock`arrivals, sock`taken, sock`hitches
      ensures Buffers() && Taken() && Input() == old(Input())
      ensures if stop == None then readLenPos > old(readLenPos) else readLenPos < 2
      ensures stop.Some? ==> PlainStop(stop.value) || stop.value in {FrameEnd, FrameError(EofInHeader)}
      ensures stop == Some(FrameEnd) ==> Input() == []
      ensures stop == Some(FrameError(EofInHeader)) ==> |Input()| == 1
      ensures sock.hitches == old(sock.hitches) + if stop.Some? then FrameHitch(stop.value) else []
      ensures old(sock.Calm()) ==> sock.Calm()
    {
      ghost var partial := Partial();
      var answer := sock.PollRead(2 - readLenPos);
      match answer
      case ReadPending => return Some(FramePending);
      case ReadFailed => return Some(FrameError(SocketError));
      case ReadEof =>
        if readLenPos == 0 {
          return Some(FrameEnd);
        }
        return Some(FrameError(EofInHeader));
      case ReadData(d) =>
        KeepHeader(d);
        Reassociate(partial, d, TapeBytes(sock.arrivals));
        return None;
    }

    /** The header loop of `poll_read_outer_frame`; None means the header is complete. */
    method PollHeader() returns (stop: Option<FramePoll>)
      requires Buffers() && Taken()
      modifies this`readLenPos, readLen, sock`arrivals, sock`taken, sock`hitches
      ensures Buffers() && Taken() && Input() == old(Input())
      ensures stop == None <==> readLenPos == 2
      ensures stop.Some? ==> PlainStop(stop.value) || stop.value in {FrameEnd, FrameError(EofInHeader)}
      ensures stop == Some(FrameEnd) ==> Input() == []
      ensures stop == Some(FrameError(EofInHeader)) ==> |Input()| == 1
      ensures old(readLenPos) == 2 ==> readLen[..] == old(readLen[..])
      ensures sock.hitches == old(sock.hitches) + if stop.Some? then FrameHitch(stop.value) else []
      ensures old(sock.Calm()) ==> sock.Calm()
    {
      while readLenPos < 2
        invariant Buffers() && Taken() && Input() == old(Input())
        invariant old(readLenPos) == 2 ==> readLen[..] == old(readLen[..])
        invariant sock.hitches == old(sock.hitches) && (old(sock.Calm()) ==> sock.Calm())
      {
        stop := HeaderTurn();
        if stop.Some? {
          return;
        }
      }
      return None;
    }

    /** The octets just taken from the socket go to the body. */
    method KeepBody(d: seq<byte>)
      requires Buffers() && readLenPos == 2 && |d| <= |encryptedRead| - encryptedReadPos
      requires WireSized(frames) && sock.taken == EncodeAll(frames) + Partial() + d
      modifies this`encryptedRead, this`encryptedReadPos
      ensures Buffers() && Taken() && Partial() == old(Partial()) + d
      ensures |encryptedRead| == old(|encryptedRead|) && encryptedReadPos == old(encryptedReadPos) + |d|
    {
      Reassociate(EncodeAll(frames), Partial(), d);
      StoreBody(d);
    }

    /** One turn of the body loop; None means some octets came. */
    method BodyTurn() returns (stop: Option<FramePoll>)
      requires Buffers() && Taken() && readLenPos == 2 && encryptedReadPos < |encryptedRead|
      modifies this`encryptedRead, this`encryptedReadPos, sock`arrivals, sock`taken, sock`hitches
      ensures Buffers() && Taken() && Input() == old(Input())
      ensures |encryptedRead| == old(|encryptedRead|)
      ensures if stop == None then encryptedReadPos > old(encryptedReadPos) else encryptedReadPos < |encryptedRead|
      ensures stop.Some? ==> PlainStop(stop.value) || stop.value == FrameError(EofInBody)
      ensures stop == Some(FrameError(EofInBody)) ==> |Input()| < 2 + |encryptedRead|
      ensures sock.hitches == old(sock.hitches) + if stop.Some? then FrameHitch(stop.value) else []
      ensures old(sock.Calm()) ==> sock.Calm()
    {
      ghost var partial := Partial();
      var answer := sock.PollRead(|encryptedRead| - encryptedReadPos);
      match answer
      case ReadPending => return Some(FramePending);
      case ReadFailed => return Some(FrameError(SocketError));
      case ReadEof => return Some(FrameError(EofInBody));
      case ReadData(d) =>
        KeepBody(d);
        Reassociate(partial, d, TapeBytes(sock.arrivals));
        return None;
    }

    /** The body loop of `poll_read_outer_frame`; None means the body is complete. */
    method PollBody() returns (stop: Option<FramePoll>)
      requires Buffers() && Taken() && readLenPos == 2
      modifies this`encryptedRead, this`encryptedReadPos, sock`arrivals, sock`taken, sock`hitches
      ensures Buffers() && Taken() && Input() == old(Input())
      ensures |encryptedRead| == old(|encryptedRead|)
      ensures stop == None <==> encryptedReadPos == |encryptedRead|
      ensures stop.Some? ==> PlainStop(stop.value) || stop.value == FrameError(EofInBody)
      ensures stop == Some(FrameError(EofInBody)) ==> |Input()| < 2 + |encryptedRead|
      ensures sock.hitches == old(sock.hitches) + if stop.Some? then FrameHitch(stop.value) else []
      ensures old(sock.Calm()) ==> sock.Calm()
    {
      while encryptedReadPos < |encryptedRead|
        invariant Buffers() && Taken() && Input() == old(Input())
        invariant |encryptedRead| == old(|encryptedRead|)
        invariant sock.hitches == old(sock.hitches) && (old(sock.Calm()) ==> sock.Calm())
      {
        stop := BodyTurn();
        if stop.Some? {
          return;
        }
      }
      return None;
    }

    /** Between the loops: make room for the announced body, unless it is too long. */
    method SizeBody() returns (tooLong: bool)
      requires Buffers() && Taken() && readLenPos == 2
      requires encryptedRead != [] ==> Sized()
      modifies this`encryptedRead, this`encryptedReadPos
      ensures Buffers() && Taken() && Input() == old(Input())
      ensures if tooLong then encryptedRead == [] && FromBe(readLen[..]) > MAX_FRAME_LEN
              else |encryptedRead| == FromBe(readLen[..]) <= MAX_FRAME_LEN
    {
      tooLong := false;
      if encryptedRead == [] {
        var frameLen := FromBe(readLen[..]);
        if frameLen > MAX_FRAME_LEN {
          tooLong := true;
        } else {
          encryptedRead, encryptedReadPos := seq(frameLen, _ => 0), 0;
        }
      }
    }

    /** Handing over a completed body and resetting the buffers for the next header. */
    method TakeFrame() returns (frame: seq<byte>)
      requires Buffers() && Taken() && readLenPos == 2
      requires |encryptedRead| == encryptedReadPos == FromBe(readLen[..]) <= MAX_FRAME_LEN
      modifies this`readLenPos, this`encryptedRead, this`encryptedReadPos, this`frames, readLen
      ensures Buffers() && readLenPos == 0 && encryptedRead == [] && Taken()
      ensures frames == old(frames) + [frame] && Partial() == []
      ensures ReadFrameOptional(old(Input())) == Got(frame, Input())
    {
      frame := encryptedRead;
      ToBeFromBe(readLen[..]);
      assert Partial() == Frame(frame);
      ReadsBack(frame, TapeBytes(sock.arrivals));
      encryptedRead, encryptedReadPos := [], 0;
      readLen[0], readLen[1] := 0, 0;
      readLenPos := 0;
      frames := frames + [frame];
      assert frames[..|frames| - 1] == old(frames);
      assert Partial() == [];
      assert Input() == TapeBytes(sock.arrivals);
    }

    /** `poll_read_outer_frame`: whatever the splitting, it gives the frame that the
        one-shot reader would give on all the bytes of this stream. */
    method PollReadOuterFrame() returns (r: FramePoll)
      requires Framing()
      modifies this`readLenPos, this`encryptedRead, this`encryptedReadPos, this`frames
      modifies readLen, sock`arrivals, sock`taken, sock`hitches
      ensures Framing() && FrameAnswer(old(Input()), r)
      ensures frames == if r.FrameReady? then old(frames) + [r.frame] else old(frames)
      ensures sock.hitches == old(sock.hitches) + FrameHitch(r)
      ensures old(sock.Calm()) ==> sock.Calm()
    {
      ghost var input := Input();
      var stop := PollHeader();
      if stop.Some? {
        r := stop.value;
      } else {
        assert input[..2] == readLen[..];
        var tooLong := SizeBody();
        if tooLong {
          r := FrameError(FrameTooLong);
        } else {
          stop := PollBody();
          if stop.Some? {
            r := stop.value;
          } else {
            var frame := TakeFrame();
            r := FrameReady(frame);
          }
        }
      }
    }

    /** One write of the flush loop: what the socket takes leaves the pending frame. */
    method PushPending() returns (r: WritePoll)
      requires pendingWritePos < |pendingWrite|
      modifies this`pendingWritePos, sock`writes, sock`sent, sock`hitches
      ensures pendingWritePos <= |pendingWrite|
      ensures sock.sent + pendingWrite[pendingWritePos..] == old(sock.sent + pendingWrite[pendingWritePos..])
      ensures pendingWritePos == old(pendingWritePos) + if r.Wrote? then r.n else 0
      ensures sock.hitches == old(sock.hitches) + WriteHitch(r)
      ensures old(sock.Calm()) ==> sock.Calm()
    {
      ghost var sent, rest := sock.sent, pendingWrite[pendingWritePos..];
      r := sock.PollWrite(pendingWrite[pendingWritePos..]);
      if r.Wrote? {
        Reassociate(sent, rest[..r.n], rest[r.n..]);
        assert rest == rest[..r.n] + rest[r.n..];
        pendingWritePos := pendingWritePos + r.n;
        assert pendingWrite[pendingWritePos..] == rest[r.n..];
      }
    }

    /** `poll_flush_pending`: bytes move from the pending frame to the socket, in order; it stops
        short only where the socket does, and says why. */
    method PollFlushPending() returns (r: FlushPoll)
      requires Writing()
      modifies this`pendingWrite, this`pendingWritePos, sock`writes, sock`sent, sock`hitches
      ensures Writing()
      ensures r.Flushed? ==> pendingWrite == []
      ensures r.FlushError? ==> r.kind in {SocketError, WriteZero}
      ensures sock.hitches == old(sock.hitches) + FlushHitch(r)
      ensures old(sock.Calm()) ==> sock.Calm()
    {
      while pendingWritePos < |pendingWrite|
        invariant Writing() && sock.hitches == old(sock.hitches) && (old(sock.Calm()) ==> sock.Calm())
      {
        var answer := PushPending();
        match answer
        case WritePending => return FlushPending;
        case WriteFailed => return FlushError(SocketError);
        case Wrote(n) =>
          if n == 0 {
            return FlushError(WriteZero);
          }
      }
      assert sock.sent == sock.sent + pendingWrite[pendingWritePos..];
      pendingWrite, pendingWritePos := [], 0;
      return Flushed;
    }

    /** Hand out buffered plaintext, at most as much as the caller has room for. */
    method TakePlaintext(capacity: nat) returns (data: seq<byte>)
      requires Plaintexts() && plaintextPos < |plaintext|
      modifies this`plaintext, this`plaintextPos, this`delivered
      ensures Plaintexts() && delivered == old(delivered) + data
      ensures |data| == Min(old(|plaintext| - plaintextPos), capacity)
    {
      ghost var before, available := delivered, plaintext[plaintextPos..];
      var len := Min(|plaintext| - plaintextPos, capacity);
      data := plaintext[plaintextPos..plaintextPos + len];
      plaintextPos := plaintextPos + len;
      delivered := delivered + data;
      assert available == data + plaintext[plaintextPos..];
      Reassociate(before, data, plaintext[plaintextPos..]);
      if plaintextPos == |plaintext| {
        plaintext, plaintextPos := [], 0;
      }
    }

    /** Open the frame just taken; a bad seal leaves the plaintext and the nonce alone. */
    method OpenFrame(encrypted: seq<byte>) returns (ok: bool)
      requires frames != [] && frames[|frames| - 1] == encrypted
      requires plaintext == [] && plaintextPos == 0
      requires recvNonce == |OpenAll(recv, frames[..|frames| - 1])|
      requires delivered == initial + Concat(OpenAll(recv, frames[..|frames| - 1]))
      modifies this`plaintext, this`recvNonce
      ensures Plaintexts()
      ensures !ok ==> |OpenAll(recv, frames)| < |frames| && plaintext == []
    {
      ghost var opens := OpenAll(recv, frames[..|frames| - 1]);
      match recv.unseal(recvNonce, encrypted)
      case None => ok := false;
      case Some(p) =>
        plaintext, recvNonce, ok := p, recvNonce + 1, true;
        assert (opens + [p])[..|opens|] == opens;
        Reassociate(initial, Concat(opens), p);
    }

    /** What an answer of the reading half says about the state it leaves. */
    ghost predicate ReadAnswer(capacity: nat, before: seq<byte>, r: StreamRead)
      requires Buffers()
      reads this`readLenPos, this`encryptedRead, this`encryptedReadPos, readLen, sock`arrivals
      reads this`plaintext, this`delivered, this`frames
    {
      match r
      case NoDataYet => delivered == before
      case Delivered(data) =>
        && delivered == before + data && |data| <= capacity
        && (data == [] && capacity > 0 ==> Input() == [] && plaintext == [])
      case ReadError(kind) =>
        && delivered == before
        && (kind == FrameTooLong ==> readLenPos == 2 && encryptedRead == [])
        && (kind == BadSeal ==> |OpenAll(recv, frames)| < |frames|)
        && (kind == EofInHeader ==> |Input()| == 1)
        && (kind == EofInBody ==> ReadFrameOptional(Input()) == Truncated)
    }

    /** How `poll_read` passes on a frame poll that gave no frame. */
    static function StopAnswer(poll: FramePoll): (r: StreamRead) {
      match poll
      case FrameEnd => Delivered([])
      case FrameError(kind) => ReadError(kind)
      case _ => NoDataYet
    }

    lemma StopIsAnswered(poll: FramePoll, input: seq<byte>, capacity: nat)
      requires Framing() && FrameAnswer(input, poll) && !poll.FrameReady? && plaintext == []
      ensures ReadAnswer(capacity, delivered, StopAnswer(poll))
      ensures ReadCaused(capacity, StopAnswer(poll), FrameHitch(poll))
    {
    }

    lemma NothingBuffered()
      requires Plaintexts() && plaintextPos == |plaintext|
      ensures plaintext == [] && delivered == initial + Concat(OpenAll(recv, frames))
    {
      assert delivered + [] == delivered;
    }

    /** Open the frame just taken; None means it opened. */
    method OpenTurn(encrypted: seq<byte>, capacity: nat, ghost before: seq<seq<byte>>)
      returns (r: Option<StreamRead>)
      requires Framing() && frames == before + [encrypted] && plaintext == [] && plaintextPos == 0
      requires recvNonce == |OpenAll(recv, before)| && delivered == initial + Concat(OpenAll(recv, before))
      modifies this`plaintext, this`recvNonce
      ensures Framing() && Plaintexts()
      ensures r == None || r == Some(ReadError(BadSeal))
      ensures r.Some? ==> ReadAnswer(capacity, delivered, r.value)
      ensures Input() == old(Input())
    {
      assert frames[..|frames| - 1] == before;
      var ok := OpenFrame(encrypted);
      assert Framing();
      r := if ok then None else Some(ReadError(BadSeal));
    }

    /** What `poll_read` does with the answer of the frame reader: open a frame, or pass the stop
        on; None means a frame was opened. */
    method TakeAnswer(poll: FramePoll, capacity: nat, ghost before: seq<seq<byte>>, ghost input: seq<byte>)
      returns (r: Option<StreamRead>)
      requires Framing() && FrameAnswer(input, poll) && plaintext == [] && plaintextPos == 0
      requires frames == if poll.FrameReady? then before + [poll.frame] else before
      requires recvNonce == |OpenAll(recv, before)| && delivered == initial + Concat(OpenAll(recv, before))
      modifies this`plaintext, this`recvNonce
      ensures Framing() && Plaintexts()
      ensures r.Some? ==> ReadAnswer(capacity, delivered, r.value)
      ensures r == None ==> |Input()| < |input|
      ensures if r == None then FrameHitch(poll) == [] else ReadCaused(capacity, r.value, FrameHitch(poll))
    {
      if poll.FrameReady? {
        r := OpenTurn(poll.frame, capacity, before);
      } else {
        assert delivered + [] == delivered;
        StopIsAnswered(poll, input, capacity);
        r := Some(StopAnswer(poll));
      }
    }

    /** With no plaintext left: read and open a frame; None means one was opened. */
    method FrameTurn(capacity: nat) returns (r: Option<StreamRead>, ghost h: seq<Hitch>)
      requires Framing() && Plaintexts() && plaintextPos == |plaintext|
      modifies this`readLenPos, this`encryptedRead, this`encryptedReadPos, this`frames
      modifies this`plaintext, this`recvNonce, readLen, sock`arrivals, sock`taken, sock`hitches
      ensures Framing() && Plaintexts() && delivered == old(delivered)
      ensures r.Some? ==> ReadAnswer(capacity, delivered, r.value)
      ensures r == None ==> |Input()| < old(|Input()|)
      ensures sock.hitches == old(sock.hitches) + h
      ensures if r == None then h == [] else ReadCaused(capacity, r.value, h)
      ensures old(sock.Calm()) ==> sock.Calm()
    {
      ghost var before, input := frames, Input();
      NothingBuffered();
      var poll := PollReadOuterFrame();
      h := FrameHitch(poll);
      r := TakeAnswer(poll, capacity, before, input);
    }

    /** One turn of the loop in `poll_read`; None means a frame was opened and the loop goes on. */
    method ReadTurn(capacity: nat) returns (r: Option<StreamRead>, ghost h: seq<Hitch>)
      requires Framing() && Plaintexts()
      modifies this`readLenPos, this`encryptedRead, this`encryptedReadPos, this`frames
      modifies this`plaintext, this`plaintextPos, this`recvNonce, this`delivered
      modifies readLen, sock`arrivals, sock`taken, sock`hitches
      ensures Framing() && Plaintexts()
      ensures r.Some? ==> ReadAnswer(capacity, old(delivered), r.value)
      ensures r == None ==> delivered == old(delivered) && |Input()| < old(|Input()|)
      ensures sock.hitches == old(sock.hitches) + h
      ensures if r == None then h == [] else ReadCaused(capacity, r.value, h)
      ensures old(sock.Calm()) ==> sock.Calm()
    {
      if plaintextPos < |plaintext| {
        var data := TakePlaintext(capacity);
        assert Framing();
        r, h := Some(Delivered(data)), [];
      } else {
        r, h := FrameTurn(capacity);
      }
    }

    /** The loop of `poll_read`, after the flush. */
    method ReadLoop(capacity: nat) returns (r: StreamRead, ghost h: seq<Hitch>)
      requires Framing() && Plaintexts()
      modifies this`readLenPos, this`encryptedRead, this`encryptedReadPos, this`frames
      modifies this`plaintext, this`plaintextPos, this`recvNonce, this`delivered
      modifies readLen, sock`arrivals, sock`taken, sock`hitches
      ensures Framing() && Plaintexts()
      ensures ReadAnswer(capacity, old(delivered), r)
      ensures sock.hitches == old(sock.hitches) + h && ReadCaused(capacity, r, h)
      ensures old(sock.Calm()) ==> sock.Calm()
    {
      var turn;
      turn, h := ReadTurn(capacity);
      while turn == None
        invariant Framing() && Plaintexts()
        invariant if turn == None then delivered == old(delivered)
                  else ReadAnswer(capacity, old(delivered), turn.value)
        invariant sock.hitches == old(sock.hitches) + h && (old(sock.Calm()) ==> sock.Calm())
        invariant if turn == None then h == [] else ReadCaused(capacity, turn.value, h)
        decreases turn == None, |Input()|
      {
        turn, h := ReadTurn(capacity);
      }
      r := turn.value;
    }

    /** The rest of `poll_read`: nothing is read until the pending frame is out. */
    method ReadAfter(flush: FlushPoll, capacity: nat) returns (r: StreamRead, ghost h: seq<Hitch>)
      requires Framing() && Plaintexts() && (flush.FlushError? ==> flush.kind in {SocketError, WriteZero})
      modifies this`readLenPos, this`encryptedRead, this`encryptedReadPos, this`frames
      modifies this`plaintext, this`plaintextPos, this`recvNonce, this`delivered
      modifies readLen, sock`arrivals, sock`taken, sock`hitches
      ensures Framing() && Plaintexts()
      ensures ReadAnswer(capacity, old(delivered), r)
      ensures sock.hitches == old(sock.hitches) + h && ReadCaused(capacity, r, FlushHitch(flush) + h)
      ensures old(sock.Calm()) ==> sock.Calm()
    {
      h := [];
      match flush {
        case FlushPending => r := NoDataYet;
        case FlushError(kind) => r := ReadError(kind);
        case Flushed => r, h := ReadLoop(capacity);
      }
      assert FlushHitch(flush) + h == if flush.Flushed? then h else FlushHitch(flush);
    }

    /** The flush at the start of `poll_read` leaves the reading half alone. */
    method FlushFirst() returns (r: FlushPoll)
      requires Valid()
      modifies this`pendingWrite, this`pendingWritePos, sock`writes, sock`sent, sock`hitches
      ensures Valid() && (r.FlushError? ==> r.kind in {SocketError, WriteZero})
      ensures sock.hitches == old(sock.hitches) + FlushHitch(r)
      ensures old(sock.Calm()) ==> sock.Calm()
    {
      r := PollFlushPending();
      ReadingStays();
    }

    /** And the reading half leaves the writing half alone. */
    method ReadBehind(flush: FlushPoll, capacity: nat) returns (r: StreamRead, ghost h: seq<Hitch>)
      requires Valid() && (flush.FlushError? ==> flush.kind in {SocketError, WriteZero})
      modifies this`readLenPos, this`encryptedRead, this`encryptedReadPos, this`frames
      modifies this`plaintext, this`plaintextPos, this`recvNonce, this`delivered
      modifies readLen, sock`arrivals, sock`taken, sock`hitches
      ensures Valid() && ReadAnswer(capacity, old(delivered), r)
      ensures sock.hitches == old(sock.hitches) + h && ReadCaused(capacity, r, FlushHitch(flush) + h)
      ensures old(sock.Calm()) ==> sock.Calm()
    {
      r, h := ReadAfter(flush, capacity);
      WritingStays();
    }

    /** `poll_read`. Everything handed out is accounted for in `delivered`; an empty
        answer to a caller with room means the stream ended between frames. */
    method PollRead(capacity: nat) returns (r: StreamRead, ghost h: seq<Hitch>)
      requires Valid()
      modifies this`readLenPos, this`encryptedRead, this`encryptedReadPos, this`frames
      modifies this`plaintext, this`plaintextPos, this`recvNonce, this`delivered
      modifies this`pendingWrite, this`pendingWritePos, readLen, sock
      ensures Valid() && ReadAnswer(capacity, old(delivered), r)
      ensures sock.hitches == old(sock.hitches) + h && ReadCaused(capacity, r, h)
      ensures old(sock.Calm()) ==> sock.Calm()
    {
      var flush := FlushFirst();
      r, h := ReadBehind(flush, capacity);
      Reassociate(old(sock.hitches), FlushHitch(flush), h);
      h := FlushHitch(flush) + h;
    }

    /** Seal one chunk and make it the pending frame. */
    method SealChunk(chunk: seq<byte>)
      requires Writing() && pendingWrite == [] && 0 < |chunk| <= MAX_PLAINTEXT_LEN
      modifies this`pendingWrite, this`pendingWritePos, this`sendNonce, this`sealed, this`accepted
      ensures Writing() && sealed == old(sealed) + [chunk] && accepted == old(accepted) + chunk
    {
      var encrypted := send.seal(sendNonce, chunk);
      pendingWrite, pendingWritePos := ToBe(|encrypted|, 2) + encrypted, 0;
      sendNonce := sendNonce + 1;
      sealed, accepted := sealed + [chunk], accepted + chunk;
      assert sealed[..|sealed| - 1] == old(sealed);
      var all := SealAll(send, sealed);
      assert all[..|all| - 1] == SealAll(send, old(sealed));
      assert pendingWrite[pendingWritePos..] == Frame(encrypted);
    }

    /** `poll_write`: one chunk of at most MAX_PLAINTEXT_LEN bytes is accepted per call.
        `accepted` counts a chunk whose first flush fails, so after an error it is in doubt. */
    method PollWrite(buf: seq<byte>) returns (r: StreamWrite, ghost h: seq<Hitch>)
      requires Writing()
      modifies this`pendingWrite, this`pendingWritePos, this`sendNonce, this`sealed, this`accepted
      modifies sock`writes, sock`sent, sock`hitches
      ensures Writing()
      ensures sock.hitches == old(sock.hitches) + h && WriteCaused(r, h)
      ensures old(sock.Calm()) ==> sock.Calm()
      ensures r.NotYet? ==> accepted == old(accepted)
      ensures r.Accepted? ==> r.n == ChunkLen(buf) && accepted == old(accepted) + buf[..r.n]
      ensures r.WriteError? ==>
                && r.kind in {SocketError, WriteZero}
                && (accepted == old(accepted) || accepted == old(accepted) + buf[..ChunkLen(buf)])
    {
      var flush := PollFlushPending();
      h := FlushHitch(flush);
      match flush {
        case FlushPending => return NotYet, h;
        case FlushError(kind) => return WriteError(kind), h;
        case Flushed =>
      }
      if buf == [] {
        return Accepted(0), h;
      }
      r, h := SendChunk(buf[..ChunkLen(buf)]);
    }

    /** The chunk is sealed and as much of its frame sent as the socket takes. */
    method SendChunk(chunk: seq<byte>) returns (r: StreamWrite, ghost h: seq<Hitch>)
      requires Writing() && pendingWrite == [] && 0 < |chunk| <= MAX_PLAINTEXT_LEN
      modifies this`pendingWrite, this`pendingWritePos, this`sendNonce, this`sealed, this`accepted
      modifies sock`writes, sock`sent, sock`hitches
      ensures Writing() && accepted == old(accepted) + chunk && !r.NotYet?
      ensures sock.hitches == old(sock.hitches) + h && WriteCaused(r, h)
      ensures old(sock.Calm()) ==> sock.Calm()
      ensures r.Accepted? ==> r.n == |chunk|
    {
      SealChunk(chunk);
      var flush := PollFlushPending();
      h := FlushHitch(flush);
      r := if flush.FlushError? then WriteError(flush.kind) else Accepted(|chunk|);
    }

    /** `poll_flush` and `poll_shutdown`: the socket's own flush or shutdown is asked for, and
        its answer passed on, only once no frame is pending. */
    method PollFlush(socket: SocketFlush) returns (r: FlushPoll, ghost h: seq<Hitch>)
      requires Writing()
      modifies this`pendingWrite, this`pendingWritePos, sock`writes, sock`sent, sock`hitches
      ensures Writing()
      ensures r.Flushed? ==> pendingWrite == [] && socket.SocketDone?
      ensures r.FlushError? ==> r.kind in {SocketError, WriteZero}
      ensures sock.hitches == old(sock.hitches) + h && FlushCaused(socket, r, h)
      ensures old(sock.Calm()) ==> sock.Calm()
    {
      r := PollFlushPending();
      h := FlushHitch(r);
      if r.Flushed? {
        match socket
        case SocketBusy => r := FlushPending;
        case SocketBroken => r := FlushError(SocketError);
        case SocketDone =>
      }
    }

    /** `poll_write_vectored`: the first non-empty buffer is written, the others are left. */
    method PollWriteVectored(bufs: seq<seq<byte>>)
      returns (r: StreamWrite, ghost chosen: seq<byte>, ghost h: seq<Hitch>)
      requires Writing()
      modifies this`pendingWrite, this`pendingWritePos, this`sendNonce, this`sealed, this`accepted
      modifies sock`writes, sock`sent, sock`hitches
      ensures Writing()
      ensures if forall i :: 0 <= i < |bufs| ==> bufs[i] == [] then chosen == [] && r == Accepted(0)
              else exists i :: 0 <= i < |bufs| && bufs[i] == chosen != [] && forall j :: 0 <= j < i ==> bufs[j] == []
      ensures sock.hitches == old(sock.hitches) + h && WriteCaused(r, h)
      ensures old(sock.Calm()) ==> sock.Calm()
      ensures r.NotYet? ==> accepted == old(accepted)
      ensures r.Accepted? ==>
                r.n == ChunkLen(chosen) && accepted == old(accepted) + chosen[..r.n]
      ensures r.WriteError? ==> r.kind in {SocketError, WriteZero}
    {
      var i := 0;
      while i < |bufs| && bufs[i] == []
        invariant 0 <= i <= |bufs|
        invariant forall j :: 0 <= j < i ==> bufs[j] == []
      {
        i := i + 1;
      }
      if i == |bufs| {
        return Accepted(0), [], [];
      }
      chosen := bufs[i];
      r, h := PollWrite(bufs[i]);
    }
  }

  // ---- two ends of one connection -----------------------------------------------

  /** An in-order byte pipe from w to r: r has taken a prefix of what w has sent. */
  ghost predicate Joined(w: NoiseFramedStream, r: NoiseFramedStream)
    reads w, r, w.sock, r.sock
  {
    w.send == r.recv && r.sock.taken <= w.sock.sent
  }

  /** At any moment the reader has been given a prefix of its initial plaintext and the
      bytes the writer accepted, no frame has failed to open, and no header announces
      more than the maximum. */
  lemma InOrderDelivery(w: NoiseFramedStream, r: NoiseFramedStream)
    requires w.Valid() && r.Valid() && Joined(w, r)
    ensures r.delivered + r.plaintext[r.plaintextPos..] <= r.initial + w.accepted
    ensures r.delivered <= r.initial + w.accepted
    ensures !Rejecting(r)
  {
    var partial, wire := r.Partial(), EncodeAll(SealAll(w.send, w.sealed));
    assert w.sock.sent <= wire;
    assert EncodeAll(r.frames) + partial <= wire;
    InOrderOpening(w.send, w.sealed, r.frames, partial);
    ConcatPrefix(w.sealed, |r.frames|);
    assert r.readLenPos == 2 ==> partial[..2] == r.readLen[..];
  }

  /** Once the writer has nothing pending and the reader has taken all that was sent and has
      no plaintext left to hand out, everything accepted has been delivered. */
  lemma AllDelivered(w: NoiseFramedStream, r: NoiseFramedStream)
    requires w.Valid() && r.Valid() && Joined(w, r)
    requires w.pendingWrite == [] && r.sock.taken == w.sock.sent && r.plaintext == []
    ensures r.delivered == r.initial + w.accepted
  {
    var partial, wire := r.Partial(), EncodeAll(SealAll(w.send, w.sealed));
    assert w.sock.sent == wire && EncodeAll(r.frames) + partial == wire;
    assert r.readLenPos == 2 ==> partial[..2] == r.readLen[..];
    SealedSize(w.send, w.sealed);
    NothingLeftOver(r.frames, partial, SealAll(w.send, w.sealed));
    InOrderOpening(w.send, w.sealed, r.frames, partial);
    assert w.sealed[..|r.frames|] == w.sealed;
    assert r.plaintext[r.plaintextPos..] == [] && r.delivered + [] == r.delivered;
  }

  datatype Call =
    | CallRead(capacity: nat)
    | CallWrite(buf: seq<byte>)
    | CallWriteVectored(bufs: seq<seq<byte>>)
    | CallFlush(socket: SocketFlush)

  /** The state in which a stream has refused a frame for its length or its seal. */
  ghost predicate Rejecting(s: NoiseFramedStream)
    reads s
  {
    (s.readLenPos == 2 && s.encryptedRead == []) || |OpenAll(s.recv, s.frames)| < |s.frames|
  }

  lemma NoBreak(log: seq<Hitch>, h: seq<Hitch>)
    requires |h| <= 1
    ensures OnlyStalls(log + h) ==> h in {[], [ReadStall], [WriteStall]}
  {
    if h != [] {
      assert (log + h)[|log|] == h[0] && h == [h[0]];
    }
  }

  /** No error but a rejected frame, or what the socket's own flush answers. */
  predicate OwnFault(call: Call, error: Option<ErrorKind>) {
    error in {None, Some(FrameTooLong), Some(BadSeal)} || call == CallFlush(SocketBroken)
  }

  /** One poll of the writing half; the reading half is untouched. */
  method PerformWrite(s: NoiseFramedStream, call: Call) returns (error: Option<ErrorKind>)
    requires s.Writing() && !call.CallRead?
    modifies s`pendingWrite, s`pendingWritePos, s`sendNonce, s`sealed, s`accepted
    modifies s.sock`writes, s.sock`sent, s.sock`hitches
    ensures s.Writing()
    ensures error in {None, Some(SocketError), Some(WriteZero)}
    ensures old(s.sock.Calm()) ==> s.sock.Calm() && (error == None || call == CallFlush(SocketBroken))
  {
    match call {
      case CallWrite(buf) =>
        var r, h := s.PollWrite(buf);
        error := if r.WriteError? then Some(r.kind) else None;
        NoBreak(old(s.sock.hitches), h);
      case CallWriteVectored(bufs) =>
        var r, chosen, h := s.PollWriteVectored(bufs);
        error := if r.WriteError? then Some(r.kind) else None;
        NoBreak(old(s.sock.hitches), h);
      case CallFlush(socket) =>
        var r, h := s.PollFlush(socket);
        error := if r.FlushError? then Some(r.kind) else None;
        NoBreak(old(s.sock.hitches), h);
    }
  }

  /** One poll on one end. */
  method Perform(s: NoiseFramedStream, call: Call) returns (error: Option<ErrorKind>)
    requires s.Valid()
    modifies s, s.readLen, s.sock
    ensures s.Valid()
    ensures error in {Some(FrameTooLong), Some(BadSeal)} ==> Rejecting(s)
    ensures old(s.sock.Calm()) ==> s.sock.Calm() && OwnFault(call, error)
  {
    if call.CallRead? {
      var r, h := s.PollRead(call.capacity);
      error := if r.ReadError? then Some(r.kind) else None;
      NoBreak(old(s.sock.hitches), h);
    } else {
      error := PerformWrite(s, call);
      s.ReadingStays();
    }
  }

  /** One poll on either of two ends leaves both valid. */
  method PerformOneOf(a: NoiseFramedStream, b: NoiseFramedStream, onA: bool, call: Call)
    returns (error: Option<ErrorKind>)
    requires a.Valid() && b.Valid()
    requires a != b && a.sock != b.sock && a.readLen != b.readLen
    modifies a, a.readLen, a.sock, b, b.readLen, b.sock
    ensures a.Valid() && b.Valid()
    ensures error in {Some(FrameTooLong), Some(BadSeal)} ==> Rejecting(a) || Rejecting(b)
    ensures old(a.sock.Calm() && b.sock.Calm()) ==> a.sock.Calm() && b.sock.Calm() && OwnFault(call, error)
  {
    var s := if onA then a else b;
    error := Perform(s, call);
  }

  /** Every sequence of poll calls on two ends, up to the first error. Each tape is
      arbitrary, so the schedule is; whenever the tapes are those of in-order pipes,
      both directions deliver in order and neither end rejects a frame. Over sockets that only
      stall, there is no error at all. */
  method Drive(a: NoiseFramedStream, b: NoiseFramedStream, calls: seq<(bool, Call)>)
    returns (error: Option<ErrorKind>)
    requires a.Valid() && b.Valid()
    requires a != b && a.sock != b.sock && a.readLen != b.readLen
    modifies a, a.readLen, a.sock, b, b.readLen, b.sock
    ensures a.Valid() && b.Valid()
    ensures Joined(a, b) ==> b.delivered <= b.initial + a.accepted
    ensures Joined(b, a) ==> a.delivered <= a.initial + b.accepted
    ensures Joined(a, b) && Joined(b, a) ==> error !in {Some(FrameTooLong), Some(BadSeal)}
    ensures Joined(a, b) && Joined(b, a) && old(a.sock.Calm() && b.sock.Calm()) ==>
              error == None || exists i :: 0 <= i < |calls| && calls[i].1 == CallFlush(SocketBroken)
  {
    var i := 0;
    error := None;
    while i < |calls| && error == None
      invariant 0 <= i <= |calls|
      invariant a.Valid() && b.Valid()
      invariant error in {Some(FrameTooLong), Some(BadSeal)} ==> Rejecting(a) || Rejecting(b)
      invariant old(a.sock.Calm() && b.sock.Calm()) ==>
                  && a.sock.Calm() && b.sock.Calm()
                  && (error in {None, Some(FrameTooLong), Some(BadSeal)}
                      || exists k :: 0 <= k < i && calls[k].1 == CallFlush(SocketBroken))
    {
      error := PerformOneOf(a, b, calls[i].0, calls[i].1);
      i := i + 1;
    }
    if Joined(a, b) {
      InOrderDelivery(a, b);
    }
    if Joined(b, a) {
      InOrderDelivery(b, a);
    }
  }

  // ---- the poll reader against the one-shot reader -------------------------------

  /** How a sequence of outer-frame polls ended; None while it may still go on. */
  function PollEnd(last: FramePoll): (e: Option<StreamEnd>) {
    match last
    case FrameEnd => Some(CleanEnd)
    case FrameError(FrameTooLong) => Some(LengthRejected)
    case FrameError(EofInHeader) => Some(HeaderCut)
    case FrameError(EofInBody) => Some(BodyCut)
    case _ => None
  }

  lemma {:induction false} OneShotStep(got: seq<seq<byte>>, s: seq<byte>)
    requires ReadFrameOptional(s).Got?
    ensures var r := ReadFrameOptional(s);
            got + OneShotFrames(s) == (got + [r.frame]) + OneShotFrames(r.rest)
  {
  }

  /** Any number of polls under any splitting: the frames so far are the first frames the
      one-shot reader gives, and a final answer comes after all of them and is the one-shot
      reader's answer, unless exactly one header byte was left, where the poll form fails
      and the one-shot form reports a clean end. */
  method PollFrames(s: NoiseFramedStream, polls: nat) returns (got: seq<seq<byte>>, end: Option<StreamEnd>)
    requires s.Framing()
    modifies s`readLenPos, s`encryptedRead, s`encryptedReadPos, s`frames
    modifies s.readLen, s.sock`arrivals, s.sock`taken, s.sock`hitches
    ensures s.Framing()
    ensures got + OneShotFrames(s.Input()) == OneShotFrames(old(s.Input()))
    ensures end.Some? ==>
              && got == OneShotFrames(old(s.Input()))
              && (end.value == HeaderCut <==> |Leftover(old(s.Input()))| == 1)
              && end.value == (if end.value == HeaderCut then HeaderCut else OneShotEnd(old(s.Input())))
    ensures end == Some(HeaderCut) ==> OneShotEnd(old(s.Input())) == CleanEnd
    ensures end == None ==> polls == |got| + (|s.sock.hitches| - |old(s.sock.hitches)|)
  {
    got, end := [], None;
    var n := 0;
    while n < polls && end == None
      invariant s.Framing() && n <= polls
      invariant got + OneShotFrames(s.Input()) == OneShotFrames(old(s.Input()))
      invariant OneShotEnd(s.Input()) == OneShotEnd(old(s.Input()))
      invariant Leftover(s.Input()) == Leftover(old(s.Input()))
      invariant end.Some? ==>
                  && OneShotFrames(s.Input()) == [] && Leftover(s.Input()) == s.Input()
                  && (end.value == HeaderCut <==> |s.Input()| == 1)
                  && (end.value != HeaderCut ==> end.value == OneShotEnd(s.Input()))
                  && (end.value == HeaderCut ==> OneShotEnd(s.Input()) == CleanEnd)
      invariant end == None ==> n == |got| + (|s.sock.hitches| - |old(s.sock.hitches)|)
      decreases polls - n
    {
      ghost var before := s.Input();
      var poll := s.PollReadOuterFrame();
      if poll.FrameReady? {
        OneShotStep(got, before);
        got := got + [poll.frame];
      } else {
        end := PollEnd(poll);
      }
      n := n + 1;
    }
  }
}
