/** Length-prefixed Noise frames on values: the wire encoding, the nonce-indexed
    cipher, and the one-shot frame reader that the poll-driven reader must agree with. */
module NoiseFrames {
  import opened Bytes

  const MAX_FRAME_LEN := 16 * 1024
  const NOISE_TAG_LEN := 16
  const MAX_PLAINTEXT_LEN := MAX_FRAME_LEN - NOISE_TAG_LEN

  /** One direction of a Noise transport: message i is sealed and opened under nonce i
      (section 5.1 of the Noise Protocol Framework). */
  datatype Cipher = Cipher(
    seal: (nat, seq<byte>) -> seq<byte>,
    unseal: (nat, seq<byte>) -> Option<seq<byte>>)
  {
    ghost predicate Lawful() {
      forall i: nat, p: seq<byte> ::
        |seal(i, p)| == |p| + NOISE_TAG_LEN && unseal(i, seal(i, p)) == Some(p)
    }
  }

  function Frame(f: seq<byte>): (s: seq<byte>)
    ensures |s| == 2 + |f|
  {
    ToBe(|f|, 2) + f
  }

  function EncodeAll(frames: seq<seq<byte>>): (s: seq<byte>) {
    if frames == [] then [] else EncodeAll(frames[..|frames| - 1]) + Frame(frames[|frames| - 1])
  }

  function Concat(chunks: seq<seq<byte>>): (s: seq<byte>) {
    if chunks == [] then [] else Concat(chunks[..|chunks| - 1]) + chunks[|chunks| - 1]
  }

  /** The frames a sender emits for its plaintext chunks, nonces counting from 0. */
  function SealAll(c: Cipher, chunks: seq<seq<byte>>): (frames: seq<seq<byte>>)
    ensures |frames| == |chunks|
  {
    var n := |chunks|;
    if n == 0 then [] else SealAll(c, chunks[..n - 1]) + [c.seal(n - 1, chunks[n - 1])]
  }

  /** What a receiver opens: the nonce counts successes only, a bad frame yields nothing. */
  function OpenAll(c: Cipher, frames: seq<seq<byte>>): (chunks: seq<seq<byte>>)
    ensures |chunks| <= |frames|
  {
    var n := |frames|;
    if n == 0 then []
    else
      var plain := OpenAll(c, frames[..n - 1]);
      match c.unseal(|plain|, frames[n - 1])
      case Some(p) => plain + [p]
      case None => plain
  }

  ghost predicate WireSized(frames: seq<seq<byte>>) {
    forall i :: 0 <= i < |frames| ==> |frames[i]| <= MAX_FRAME_LEN
  }

  ghost predicate Sendable(chunks: seq<seq<byte>>) {
    forall i :: 0 <= i < |chunks| ==> 0 < |chunks[i]| <= MAX_PLAINTEXT_LEN
  }

  // ---- the one-shot reader -------------------------------------------------

  datatype OneShot = End | Got(frame: seq<byte>, rest: seq<byte>) | TooLong | Truncated

  /** `read_frame_optional` on a stream that holds s and then ends. */
  function ReadFrameOptional(s: seq<byte>): (r: OneShot)
    ensures r.Got? ==> s == Frame(r.frame) + r.rest && |r.frame| <= MAX_FRAME_LEN
  {
    if |s| < 2 then End
    else
      var n := FromBe(s[..2]);
      if n > MAX_FRAME_LEN then TooLong
      else if |s| < 2 + n then Truncated
      else
        ToBeFromBe(s[..2]);
        assert s == s[..2] + s[2..2 + n] + s[2 + n..];
        Got(s[2..2 + n], s[2 + n..])
  }

  function Announced(hi: byte, lo: byte): (n: nat) {
    hi as int * 256 + lo as int
  }

  /** When no frame comes: the stream ends before a header, the header announces more than 16 KiB,
      or more than there is. */
  lemma NoFrameWhen(s: seq<byte>)
    ensures ReadFrameOptional(s) == End <==> |s| < 2
    ensures ReadFrameOptional(s) == TooLong <==> |s| >= 2 && Announced(s[0], s[1]) > 16_384
    ensures ReadFrameOptional(s) == Truncated <==> |s| >= 2 && |s| - 2 < Announced(s[0], s[1]) <= 16_384
  {
    if |s| >= 2 {
      assert s[..2] == [s[0]] + [s[1]];
      FromBeFirst(s[0], [s[1]]);
      FromBeLast([], s[1]);
      assert [] + [s[1]] == [s[1]] && Pow256(1) == 256 * Pow256(0);
    }
  }

  datatype StreamEnd = CleanEnd | HeaderCut | BodyCut | LengthRejected

  /** Reading one-shot until the stream ends or a read fails. */
  function OneShotFrames(s: seq<byte>): (frames: seq<seq<byte>>)
    decreases |s|
  {
    match ReadFrameOptional(s)
    case Got(f, rest) => [f] + OneShotFrames(rest)
    case _ => []
  }

  function OneShotEnd(s: seq<byte>): (e: StreamEnd)
    decreases |s|
  {
    match ReadFrameOptional(s)
    case Got(_, rest) => OneShotEnd(rest)
    case End => CleanEnd
    case Truncated => BodyCut
    case TooLong => LengthRejected
  }

  /** The bytes left over after the last whole frame. */
  function Leftover(s: seq<byte>): (t: seq<byte>)
    decreases |s|
  {
    match ReadFrameOptional(s)
    case Got(_, rest) => Leftover(rest)
    case _ => s
  }

  // ---- encoding facts --------------------------------------------------------

  lemma HeaderOf(f: seq<byte>)
    requires |f| <= MAX_FRAME_LEN
    ensures Frame(f)[..2] == ToBe(|f|, 2)
    ensures FromBe(ToBe(|f|, 2)) == |f|
  {
    PowValues();
    FromBeToBe(|f|, 2);
  }

  /** Decoding undoes encoding, whatever follows the frame. */
  lemma ReadsBack(f: seq<byte>, rest: seq<byte>)
    requires |f| <= MAX_FRAME_LEN
    ensures ReadFrameOptional(Frame(f) + rest) == Got(f, rest)
  {
    HeaderOf(f);
    var s := Frame(f) + rest;
    assert s[..2] == ToBe(|f|, 2);
    assert s[2..2 + |f|] == f;
    assert s[2 + |f|..] == rest;
  }

  lemma EncodeAllAppend(frames: seq<seq<byte>>, f: seq<byte>)
    ensures EncodeAll(frames + [f]) == EncodeAll(frames) + Frame(f)
  {
    assert (frames + [f])[..|frames|] == frames;
  }

  lemma {:induction false} EncodeAllConcat(a: seq<seq<byte>>, b: seq<seq<byte>>)
    ensures EncodeAll(a + b) == EncodeAll(a) + EncodeAll(b)
  {
    if b == [] {
      assert a + b == a;
    } else {
      var init, last := b[..|b| - 1], b[|b| - 1];
      EncodeAllConcat(a, init);
      EncodeAllAppend(a + init, last);
      assert a + b == (a + init) + [last];
      Reassociate(EncodeAll(a), EncodeAll(init), Frame(last));
    }
  }

  lemma EncodeAllHead(frames: seq<seq<byte>>)
    requires frames != []
    ensures EncodeAll(frames) == Frame(frames[0]) + EncodeAll(frames[1..])
  {
    assert frames == [frames[0]] + frames[1..];
    EncodeAllConcat([frames[0]], frames[1..]);
    assert EncodeAll([frames[0]]) == Frame(frames[0]);
  }

  lemma {:induction false} SealAllIndex(c: Cipher, chunks: seq<seq<byte>>, i: nat)
    requires i < |chunks|
    ensures SealAll(c, chunks)[i] == c.seal(i, chunks[i])
  {
    if i < |chunks| - 1 {
      SealAllIndex(c, chunks[..|chunks| - 1], i);
    }
  }

  lemma {:induction false} SealAllPrefix(c: Cipher, chunks: seq<seq<byte>>, k: nat)
    requires k <= |chunks|
    ensures SealAll(c, chunks)[..k] == SealAll(c, chunks[..k])
  {
    forall i | 0 <= i < k
      ensures SealAll(c, chunks)[i] == SealAll(c, chunks[..k])[i]
    {
      SealAllIndex(c, chunks, i);
      SealAllIndex(c, chunks[..k], i);
    }
  }

  lemma SealedSize(c: Cipher, chunks: seq<seq<byte>>)
    requires c.Lawful() && Sendable(chunks)
    ensures WireSized(SealAll(c, chunks))
  {
    forall i | 0 <= i < |chunks|
      ensures |SealAll(c, chunks)[i]| <= MAX_FRAME_LEN
    {
      SealAllIndex(c, chunks, i);
    }
  }

  /** Opening in order what was sealed in order gives the chunks back. */
  lemma {:induction false} OpenUndoesSeal(c: Cipher, chunks: seq<seq<byte>>)
    requires c.Lawful()
    ensures OpenAll(c, SealAll(c, chunks)) == chunks
  {
    var n := |chunks|;
    if n > 0 {
      var s := SealAll(c, chunks);
      assert s[..n - 1] == SealAll(c, chunks[..n - 1]);
      OpenUndoesSeal(c, chunks[..n - 1]);
      assert c.unseal(n - 1, c.seal(n - 1, chunks[n - 1])) == Some(chunks[n - 1]);
    }
  }

  /** If two byte strings starting with frames agree up to a prefix, the frames are equal. */
  lemma SameFirstFrame(f: seq<byte>, tail: seq<byte>, g: seq<byte>, rest: seq<byte>)
    requires |f| <= MAX_FRAME_LEN && |g| <= MAX_FRAME_LEN
    requires Frame(f) + tail <= Frame(g) + rest
    ensures f == g && tail <= rest
  {
    var s, t := Frame(f) + tail, Frame(g) + rest;
    HeaderOf(f);
    HeaderOf(g);
    assert s[..2] == ToBe(|f|, 2) && t[..2] == ToBe(|g|, 2);
    assert s[..2] == t[..2];
    assert s[2..2 + |f|] == f && t[2..2 + |g|] == g;
    assert s[2 + |f|..] == tail && t[2 + |g|..] == rest;
    assert s[2..2 + |f|] == t[2..2 + |g|];
    assert s[2 + |f|..] == t[2 + |g|..][..|tail|];
  }

  /** The frame after n agreed ones: the next of the stream, if something of it was taken. */
  lemma NextFrameAgrees(last: seq<byte>, partial: seq<byte>, all: seq<seq<byte>>, n: nat)
    requires |last| <= MAX_FRAME_LEN && WireSized(all) && n <= |all|
    requires Frame(last) + partial <= EncodeAll(all[n..])
    ensures n < |all| && last == all[n] && partial <= EncodeAll(all[n + 1..])
  {
    var rest := all[n..];
    assert rest != [];
    EncodeAllHead(rest);
    SameFirstFrame(last, partial, rest[0], EncodeAll(rest[1..]));
    assert rest[1..] == all[n + 1..];
  }

  lemma {:induction false} EncodeAllLast(frames: seq<seq<byte>>, partial: seq<byte>)
    requires frames != []
    ensures var k := |frames| - 1;
            EncodeAll(frames) + partial == EncodeAll(frames[..k]) + (Frame(frames[k]) + partial)
  {
    var k := |frames| - 1;
    Reassociate(EncodeAll(frames[..k]), Frame(frames[k]), partial);
  }

  lemma OneFrameMore(frames: seq<seq<byte>>, all: seq<seq<byte>>, k: nat)
    requires |frames| == k + 1 <= |all| && frames[..k] == all[..k] && frames[k] == all[k]
    ensures frames == all[..k + 1]
  {
    assert forall i :: 0 <= i < k ==> frames[i] == frames[..k][i] && all[i] == all[..k][i];
  }

  lemma {:induction false} PrefixStep(frames: seq<seq<byte>>, partial: seq<byte>, all: seq<seq<byte>>, k: nat)
    requires WireSized(all) && |frames| == k + 1 && |frames[k]| <= MAX_FRAME_LEN
    requires k <= |all| && frames[..k] == all[..k] && Frame(frames[k]) + partial <= EncodeAll(all[k..])
    ensures k + 1 <= |all| && frames == all[..k + 1] && partial <= EncodeAll(all[k + 1..])
  {
    NextFrameAgrees(frames[k], partial, all, k);
    OneFrameMore(frames, all, k);
  }

  lemma NoFrames(partial: seq<byte>, all: seq<seq<byte>>)
    requires EncodeAll([]) + partial <= EncodeAll(all)
    ensures partial <= EncodeAll(all[0..])
  {
    assert all[0..] == all && EncodeAll([]) + partial == partial;
  }

  /** Frames parsed from a prefix of an encoded stream are the first frames of that stream. */
  lemma {:induction false} PrefixParse(frames: seq<seq<byte>>, partial: seq<byte>, all: seq<seq<byte>>)
    requires WireSized(frames) && WireSized(all)
    requires EncodeAll(frames) + partial <= EncodeAll(all)
    ensures |frames| <= |all| && frames == all[..|frames|]
    ensures partial <= EncodeAll(all[|frames|..])
  {
    if frames == [] {
      NoFrames(partial, all);
    } else {
      var k := |frames| - 1;
      EncodeAllLast(frames, partial);
      PrefixParse(frames[..k], Frame(frames[k]) + partial, all);
      PrefixStep(frames, partial, all, k);
    }
  }

  lemma WholeFrameAhead(frames: seq<seq<byte>>)
    requires frames != [] && WireSized(frames)
    ensures var s := EncodeAll(frames);
            |s| >= 2 + |frames[0]| && FromBe(s[..2]) == |frames[0]| <= MAX_FRAME_LEN
  {
    EncodeAllHead(frames);
    HeaderOf(frames[0]);
    assert EncodeAll(frames)[..2] == Frame(frames[0])[..2];
  }

  lemma Cancel(a: seq<byte>, p: seq<byte>, q: seq<byte>)
    requires a + p == a + q
    ensures p == q
  {
    assert p == (a + p)[|a|..] && q == (a + q)[|a|..];
  }

  /** What is left of an encoded stream after its first n frames encodes the others. */
  lemma RestOfStream(all: seq<seq<byte>>, n: nat, partial: seq<byte>)
    requires n <= |all| && EncodeAll(all[..n]) + partial == EncodeAll(all)
    ensures partial == EncodeAll(all[n..])
  {
    assert all[..n] + all[n..] == all;
    EncodeAllConcat(all[..n], all[n..]);
    Cancel(EncodeAll(all[..n]), partial, EncodeAll(all[n..]));
  }

  /** No whole frame: the header is short, or announces too much or more than is there. */
  ghost predicate NoWholeFrame(s: seq<byte>) {
    |s| < 2 || FromBe(s[..2]) > MAX_FRAME_LEN || |s| < 2 + FromBe(s[..2])
  }

  /** A stream read to its end without a whole frame left over has given all its frames. */
  lemma {:induction false} NothingLeftOver(frames: seq<seq<byte>>, partial: seq<byte>, all: seq<seq<byte>>)
    requires WireSized(frames) && WireSized(all) && EncodeAll(frames) + partial == EncodeAll(all)
    requires NoWholeFrame(partial)
    ensures |frames| == |all|
  {
    PrefixParse(frames, partial, all);
    RestOfStream(all, |frames|, partial);
    if |frames| < |all| {
      WholeFrameAhead(all[|frames|..]);
    }
  }

  lemma {:induction false} ConcatAppend(a: seq<seq<byte>>, b: seq<seq<byte>>)
    ensures Concat(a + b) == Concat(a) + Concat(b)
  {
    if b == [] {
      assert a + b == a;
    } else {
      var ab := a + b;
      assert ab[..|ab| - 1] == a + b[..|b| - 1];
      ConcatAppend(a, b[..|b| - 1]);
    }
  }

  lemma ConcatPrefix(chunks: seq<seq<byte>>, k: nat)
    requires k <= |chunks|
    ensures Concat(chunks[..k]) <= Concat(chunks)
  {
    assert chunks == chunks[..k] + chunks[k..];
    ConcatAppend(chunks[..k], chunks[k..]);
  }

  /** The first two bytes of an encoded stream are the length of its first frame. */
  lemma FirstHeader(frames: seq<seq<byte>>, partial: seq<byte>)
    requires WireSized(frames) && partial <= EncodeAll(frames) && |partial| >= 2
    ensures FromBe(partial[..2]) <= MAX_FRAME_LEN
  {
    assert frames != [];
    EncodeAllHead(frames);
    HeaderOf(frames[0]);
    PrefixHead(partial, Frame(frames[0]), EncodeAll(frames[1..]));
  }

  lemma PrefixHead(p: seq<byte>, a: seq<byte>, b: seq<byte>)
    requires p <= a + b && |p| >= 2 && |a| >= 2
    ensures p[..2] == a[..2]
  {
    assert p[..2] == (a + b)[..2];
  }

  /** A reader that has taken any prefix of a sender's wire bytes has opened, in order and
      without a rejection, exactly the first chunks; its unfinished frame is a prefix of
      the next one, so its header never announces too many bytes. */
  lemma InOrderOpening(c: Cipher, chunks: seq<seq<byte>>, frames: seq<seq<byte>>, partial: seq<byte>)
    requires c.Lawful() && Sendable(chunks) && WireSized(frames)
    requires EncodeAll(frames) + partial <= EncodeAll(SealAll(c, chunks))
    ensures |frames| <= |chunks| && OpenAll(c, frames) == chunks[..|frames|]
    ensures |partial| >= 2 ==> FromBe(partial[..2]) <= MAX_FRAME_LEN
  {
    SealedSize(c, chunks);
    var all := SealAll(c, chunks);
    PrefixParse(frames, partial, all);
    SealAllPrefix(c, chunks, |frames|);
    OpenUndoesSeal(c, chunks[..|frames|]);
    if |partial| >= 2 {
      FirstHeader(all[|frames|..], partial);
    }
  }

  /** The cipher laws are satisfiable: a tag that only counts the nonce meets them. */
  lemma LawfulCipherExists() returns (c: Cipher)
    ensures c.Lawful()
  {
    c := Cipher(
      (i, p) => p + seq(NOISE_TAG_LEN, _ => 0),
      (i, s) => if |s| < NOISE_TAG_LEN then None else Some(s[..|s| - NOISE_TAG_LEN]));
    forall i: nat, p: seq<byte>
      ensures |c.seal(i, p)| == |p| + NOISE_TAG_LEN && c.unseal(i, c.seal(i, p)) == Some(p)
    {
      assert c.seal(i, p)[..|p|] == p;
    }
  }
}
