/** The sealed single-packet-authorisation record: building, opening and signature check. */
module SpaPacket {
  import opened Bytes
  import opened KeyHex

  const VERSION_PREFIX: seq<byte> := [0x47, 0x50]
  const SIGNATURE_LEN := 64
  const SPA_INNER_SIGNED_LEN := 31
  const SPA_INNER_LEN := SPA_INNER_SIGNED_LEN + SIGNATURE_LEN
  const SPA_EPHEMERAL_LEN := 32
  const SPA_AEAD_TAG_LEN := 16
  const SPA_SEALED_CORE_LEN := SPA_EPHEMERAL_LEN + SPA_INNER_LEN + SPA_AEAD_TAG_LEN
  const SPA_MIN_LEN := SPA_SEALED_CORE_LEN
  const SPA_MAX_LEN := 176
  const SPA_MAX_PADDING := SPA_MAX_LEN - SPA_MIN_LEN

  datatype SpaMode = Udp | Https
  datatype SpaAllowIp = Explicit(ip: seq<byte>) | PacketSource

  datatype Packet = Packet(
    mode: SpaMode,
    usePacketSource: bool,
    keyId: KeyId,
    timestampMs: nat,
    counter: nat,
    allowIp: seq<byte>,
    signature: seq<byte>,
    ephemeralPub: seq<byte>)

  datatype SpaError =
    InvalidLength(len: nat) | SealOpenFailed | InvalidVersion | InvalidFlags(flags: byte) | BadSignature
  datatype Opening = Opened(packet: Packet) | Refused(error: SpaError)

  /** The primitives, abstractly: X25519 sealing of a record under an ephemeral key, Ed25519
      signatures, and the digest that names a key. */
  datatype Crypto = Crypto(
    publicOf: seq<byte> -> seq<byte>,
    seal: (seq<byte>, seq<byte>, seq<byte>) -> seq<byte>,
    unseal: (seq<byte>, seq<byte>, seq<byte>) -> Option<seq<byte>>,
    verifyingKey: seq<byte> -> seq<byte>,
    keyIdOf: seq<byte> -> KeyId,
    sign: (seq<byte>, seq<byte>) -> seq<byte>,
    check: (seq<byte>, seq<byte>, seq<byte>) -> bool)
  {
    /** seal(record, server public, ephemeral secret) is opened by
        unseal(ephemeral public, ciphertext, server private). */
    ghost predicate Lawful() {
      && (forall k :: |publicOf(k)| == 32)
      && (forall r, pk, e :: |seal(r, pk, e)| == |r| + SPA_AEAD_TAG_LEN)
      && (forall r, priv, e :: unseal(publicOf(e), seal(r, publicOf(priv), e), priv) == Some(r))
      && (forall sk, m :: |sign(sk, m)| == SIGNATURE_LEN && check(verifyingKey(sk), m, sign(sk, m)))
    }
  }

  // ---- flags ----------------------------------------------------------------

  /** The laws are satisfiable: a tag of zeros, one key and one signature for all meet them. */
  lemma LawfulCryptoExists() returns (c: Crypto)
    ensures c.Lawful()
  {
    var key: seq<byte>, tag: seq<byte>, signature: seq<byte> := seq(32, _ => 0), seq(16, _ => 0), seq(64, _ => 0);
    c := Crypto(_ => key,
                (r, _, _) => r + tag,
                (_, s, _) => if |s| < 16 then None else Some(s[..|s| - 16]),
                sk => sk,
                _ => [0, 0, 0, 0, 0, 0, 0, 0],
                (_, _) => signature,
                (_, _, _) => true);
    assert forall r: seq<byte> :: (r + tag)[..|r + tag| - 16] == r;
  }

  function ModeBit(mode: SpaMode): (b: byte) {
    if mode.Https? then 1 else 0
  }

  function SourceBit(usePacketSource: bool): (b: byte) {
    if usePacketSource then 2 else 0
  }

  /** The two flag bits do not overlap, so their union is their sum. */
  function FlagsByte(mode: SpaMode, usePacketSource: bool): (b: byte)
    ensures b < 4
  {
    ModeBit(mode) + SourceBit(usePacketSource)
  }

  predicate HasReservedFlags(flags: byte) {
    flags / 4 != 0
  }

  function ModeFromFlags(flags: byte): (mode: SpaMode) {
    if flags % 2 == 0 then Udp else Https
  }

  predicate UsesPacketSource(flags: byte) {
    flags / 2 % 2 != 0
  }

  function IpBytes(a: SpaAllowIp): (s: seq<byte>) {
    if a.Explicit? then a.ip else [0, 0, 0, 0]
  }

  // ---- encoding ---------------------------------------------------------------

  ghost predicate WellFormed(p: Packet) {
    && |p.allowIp| == 4
    && |p.signature| == SIGNATURE_LEN && |p.ephemeralPub| == SPA_EPHEMERAL_LEN
    && p.timestampMs <= U64_MAX && p.counter <= U64_MAX
  }

  /** The signed region carried by a record with these fields. */
  function SignedRegion(p: Packet): (s: seq<byte>) {
    VERSION_PREFIX + [FlagsByte(p.mode, p.usePacketSource)] + p.keyId
    + ToBe(p.timestampMs, 8) + ToBe(p.counter, 8) + p.allowIp
  }

  function SignedMessage(region: seq<byte>, ephemeralPub: seq<byte>, serverPub: seq<byte>): (s: seq<byte>) {
    region + ephemeralPub + serverPub
  }

  /** The fields of an inner record, by position. */
  function ParseInner(inner: seq<byte>, ephemeralPub: seq<byte>): (p: Packet)
    requires |inner| == SPA_INNER_LEN
  {
    Packet(ModeFromFlags(inner[2]), UsesPacketSource(inner[2]), inner[3..11],
           FromBe(inner[11..19]), FromBe(inner[19..27]), inner[27..31], inner[31..95], ephemeralPub)
  }

  /** What opening a wire payload means. */
  function OpenSpec(c: Crypto, wire: seq<byte>, priv: seq<byte>): (r: Opening) {
    if !(SPA_MIN_LEN <= |wire| <= SPA_MAX_LEN) then Refused(InvalidLength(|wire|))
    else
      match c.unseal(wire[..32], wire[32..SPA_SEALED_CORE_LEN], priv)
      case None => Refused(SealOpenFailed)
      case Some(inner) =>
        if |inner| != SPA_INNER_LEN then Refused(SealOpenFailed)
        else if inner[0..2] != VERSION_PREFIX then Refused(InvalidVersion)
        else if HasReservedFlags(inner[2]) then Refused(InvalidFlags(inner[2]))
        else Opened(ParseInner(inner, wire[..32]))
  }

  /** `read_array`: copy n octets and advance the offset. */
  method ReadArray(buf: seq<byte>, offset: nat, n: nat) returns (out: seq<byte>, next: nat)
    requires offset + n <= |buf|
    ensures out == buf[offset..offset + n] && next == offset + n
  {
    out, next := buf[offset..offset + n], offset + n;
  }

  /** `SpaPacket::open`, reading the record field by field. */
  method Open(c: Crypto, wire: seq<byte>, priv: seq<byte>) returns (r: Opening)
    ensures r == OpenSpec(c, wire, priv)
  {
    if !(SPA_MIN_LEN <= |wire| <= SPA_MAX_LEN) {
      return Refused(InvalidLength(|wire|));
    }
    var core := wire[..SPA_SEALED_CORE_LEN];
    assert core[..32] == wire[..32] && core[32..] == wire[32..SPA_SEALED_CORE_LEN];
    var unsealed := c.unseal(core[..32], core[32..], priv);
    if unsealed == None || |unsealed.value| != SPA_INNER_LEN {
      return Refused(SealOpenFailed);
    }
    var inner := unsealed.value;
    if inner[0..2] != VERSION_PREFIX {
      return Refused(InvalidVersion);
    }
    var flags := inner[2];
    if HasReservedFlags(flags) {
      return Refused(InvalidFlags(flags));
    }
    var offset := 3;
    var keyId, timestamp, counter, ip, signature;
    keyId, offset := ReadArray(inner, offset, KEY_ID_LEN);
    timestamp, offset := ReadArray(inner, offset, 8);
    counter, offset := ReadArray(inner, offset, 8);
    ip, offset := ReadArray(inner, offset, 4);
    signature, offset := ReadArray(inner, offset, SIGNATURE_LEN);
    return Opened(Packet(ModeFromFlags(flags), UsesPacketSource(flags), keyId, FromBe(timestamp),
                         FromBe(counter), ip, signature, core[..32]));
  }

  /** The packet a sender means: the fields it was given, signed over them, the ephemeral
      key and the server key. */
  function Meant(c: Crypto, sk: seq<byte>, mode: SpaMode, timestampMs: nat, counter: nat,
                 allow: SpaAllowIp, serverPub: seq<byte>, ephemeral: seq<byte>): (p: Packet)
  {
    var unsigned := Packet(mode, allow.PacketSource?, c.keyIdOf(c.verifyingKey(sk)), timestampMs, counter,
                           IpBytes(allow), [], c.publicOf(ephemeral));
    unsigned.(signature := c.sign(sk, SignedMessage(SignedRegion(unsigned), c.publicOf(ephemeral), serverPub)))
  }

  /** `build_with_padding`: the server that holds the private key opens exactly the fields
      given and accepts the signature, whatever padding of at most 33 octets follows; more
      padding is refused for its length. */
  method BuildWithPadding(c: Crypto, sk: seq<byte>, mode: SpaMode, timestampMs: nat, counter: nat,
                          allow: SpaAllowIp, padding: seq<byte>, serverPub: seq<byte>, ephemeral: seq<byte>)
    returns (wire: seq<byte>)
    requires c.Lawful()
    requires timestampMs <= U64_MAX && counter <= U64_MAX && (allow.Explicit? ==> |allow.ip| == 4)
    ensures |wire| == SPA_MIN_LEN + |padding|
    ensures forall priv :: c.publicOf(priv) == serverPub ==>
              var p := Meant(c, sk, mode, timestampMs, counter, allow, serverPub, ephemeral);
              OpenSpec(c, wire, priv) ==
              if |padding| <= SPA_MAX_PADDING then Opened(p) else Refused(InvalidLength(|wire|))
  {
    var keyId := c.keyIdOf(c.verifyingKey(sk));
    var flags: byte := ModeBit(mode) + (if allow.PacketSource? then 2 else 0);
    var region := VERSION_PREFIX;
    region := region + [flags];
    region := region + keyId;
    region := region + ToBe(timestampMs, 8);
    region := region + ToBe(counter, 8);
    region := region + IpBytes(allow);
    var ephemeralPub := c.publicOf(ephemeral);
    var signature := c.sign(sk, SignedMessage(region, ephemeralPub, serverPub));
    var inner := region + signature;
    wire := ephemeralPub + c.seal(inner, serverPub, ephemeral);
    wire := wire + padding;
    ghost var p := Meant(c, sk, mode, timestampMs, counter, allow, serverPub, ephemeral);
    assert region == SignedRegion(p);
    forall priv | c.publicOf(priv) == serverPub
      ensures OpenSpec(c, wire, priv) ==
              if |padding| <= SPA_MAX_PADDING then Opened(p) else Refused(InvalidLength(|wire|))
    {
      OpensToRecord(c, p, padding, priv, ephemeral);
    }
  }

  /** Where the fields of an inner record lie. */
  lemma RecordSlices(version: seq<byte>, flags: byte, key: seq<byte>, time: seq<byte>, counter: seq<byte>,
                     ip: seq<byte>, signature: seq<byte>)
    requires |version| == 2 && |key| == 8 && |time| == 8 && |counter| == 8 && |ip| == 4 && |signature| == 64
    ensures var r := version + [flags] + key + time + counter + ip + signature;
            && |r| == SPA_INNER_LEN && r[0..2] == version && r[2] == flags && r[3..11] == key
            && r[11..19] == time && r[19..27] == counter && r[27..31] == ip && r[31..95] == signature
            && r[..31] == version + [flags] + key + time + counter + ip
  {
  }

  /** A record is its fields put together again. */
  lemma RecordWhole(r: seq<byte>)
    requires |r| == SPA_INNER_LEN
    ensures r[..31] == r[0..2] + [r[2]] + r[3..11] + r[11..19] + r[19..27] + r[27..31]
    ensures r == r[..31] + r[31..95]
  {
  }

  /** Parsing an encoded record gives its fields back. */
  lemma ParseUndoesEncode(p: Packet)
    requires WellFormed(p)
    ensures var inner := SignedRegion(p) + p.signature;
            |inner| == SPA_INNER_LEN && inner[0..2] == VERSION_PREFIX && !HasReservedFlags(inner[2])
            && ParseInner(inner, p.ephemeralPub) == p
  {
    PowValues();
    FromBeToBe(p.timestampMs, 8);
    FromBeToBe(p.counter, 8);
    RecordSlices(VERSION_PREFIX, FlagsByte(p.mode, p.usePacketSource), p.keyId, ToBe(p.timestampMs, 8),
                 ToBe(p.counter, 8), p.allowIp, p.signature);
  }

  lemma OpensToRecord(c: Crypto, p: Packet, padding: seq<byte>, priv: seq<byte>, ephemeral: seq<byte>)
    requires c.Lawful() && WellFormed(p) && p.ephemeralPub == c.publicOf(ephemeral)
    ensures var wire := p.ephemeralPub + c.seal(SignedRegion(p) + p.signature, c.publicOf(priv), ephemeral) + padding;
            OpenSpec(c, wire, priv) ==
            if |padding| <= SPA_MAX_PADDING then Opened(p) else Refused(InvalidLength(|wire|))
  {
    ParseUndoesEncode(p);
    var inner := SignedRegion(p) + p.signature;
    var sealed := c.seal(inner, c.publicOf(priv), ephemeral);
    var wire := p.ephemeralPub + sealed + padding;
    assert c.unseal(c.publicOf(ephemeral), sealed, priv) == Some(inner);
    assert |p.ephemeralPub| == 32 && |sealed| == SPA_INNER_LEN + SPA_AEAD_TAG_LEN;
    assert wire[..32] == p.ephemeralPub;
    assert wire[32..SPA_SEALED_CORE_LEN] == sealed;
  }

  /** Padding never changes what a sealed core opens to. */
  lemma PaddingIgnored(c: Crypto, core: seq<byte>, pad1: seq<byte>, pad2: seq<byte>, priv: seq<byte>)
    requires |core| == SPA_SEALED_CORE_LEN && |pad1| <= SPA_MAX_PADDING && |pad2| <= SPA_MAX_PADDING
    ensures OpenSpec(c, core + pad1, priv) == OpenSpec(c, core + pad2, priv)
  {
    assert (core + pad1)[..32] == (core + pad2)[..32];
    assert (core + pad1)[32..SPA_SEALED_CORE_LEN] == (core + pad2)[32..SPA_SEALED_CORE_LEN];
  }

  /** For every record that opens, re-encoding the parsed fields gives octet for octet the
      signed region that was received, so what `verify` checks is what was sealed. */
  lemma ReencodesReceived(c: Crypto, wire: seq<byte>, priv: seq<byte>)
    requires OpenSpec(c, wire, priv).Opened?
    ensures var p := OpenSpec(c, wire, priv).packet;
            var inner := c.unseal(wire[..32], wire[32..SPA_SEALED_CORE_LEN], priv).value;
            WellFormed(p) && SignedRegion(p) == inner[..SPA_INNER_SIGNED_LEN]
            && inner == SignedRegion(p) + p.signature
  {
    var inner := c.unseal(wire[..32], wire[32..SPA_SEALED_CORE_LEN], priv).value;
    RecordWhole(inner);
    ReencodesInner(inner, wire[..32]);
  }

  /** The accepted flag octets are exactly those the fields encode. */
  lemma FlagsReadBack(flags: byte)
    requires !HasReservedFlags(flags)
    ensures FlagsByte(ModeFromFlags(flags), UsesPacketSource(flags)) == flags
  {
  }

  lemma CounterReadsBack(field: seq<byte>)
    requires |field| == 8
    ensures FromBe(field) <= U64_MAX && ToBe(FromBe(field), 8) == field
  {
    PowValues();
    ToBeFromBe(field);
  }

  lemma ReencodesInner(inner: seq<byte>, ephemeralPub: seq<byte>)
    requires |inner| == SPA_INNER_LEN && |ephemeralPub| == SPA_EPHEMERAL_LEN
    requires inner[0..2] == VERSION_PREFIX && !HasReservedFlags(inner[2])
    requires inner[..31] == inner[0..2] + [inner[2]] + inner[3..11] + inner[11..19] + inner[19..27] + inner[27..31]
    ensures var p := ParseInner(inner, ephemeralPub);
            WellFormed(p) && SignedRegion(p) == inner[..31] && p.signature == inner[31..95]
  {
    FlagsReadBack(inner[2]);
    CounterReadsBack(inner[11..19]);
    CounterReadsBack(inner[19..27]);
  }

  /** `SpaPacket::verify`: rebuild the signed region from the fields and check it. */
  method Verify(c: Crypto, p: Packet, vk: seq<byte>, serverPub: seq<byte>) returns (ok: bool)
    ensures ok == c.check(vk, SignedMessage(SignedRegion(p), p.ephemeralPub, serverPub), p.signature)
  {
    var region := VERSION_PREFIX;
    region := region + [FlagsByte(p.mode, p.usePacketSource)];
    region := region + p.keyId;
    region := region + ToBe(p.timestampMs, 8);
    region := region + ToBe(p.counter, 8);
    region := region + p.allowIp;
    var message := region;
    message := message + p.ephemeralPub;
    message := message + serverPub;
    ok := c.check(vk, message, p.signature);
  }

  /** An opened packet passes exactly when its signature covers the received region, the
      received ephemeral key and this server's key. */
  lemma VerifyChecksReceived(c: Crypto, wire: seq<byte>, priv: seq<byte>, vk: seq<byte>)
    requires OpenSpec(c, wire, priv).Opened?
    ensures var p := OpenSpec(c, wire, priv).packet;
            var inner := c.unseal(wire[..32], wire[32..SPA_SEALED_CORE_LEN], priv).value;
            c.check(vk, SignedMessage(SignedRegion(p), p.ephemeralPub, c.publicOf(priv)), p.signature)
            == c.check(vk, inner[..31] + wire[..32] + c.publicOf(priv), inner[31..])
  {
    ReencodesReceived(c, wire, priv);
  }

  /** A packet built for a server verifies there under the sender's key. */
  lemma BuiltVerifies(c: Crypto, sk: seq<byte>, mode: SpaMode, timestampMs: nat, counter: nat,
                      allow: SpaAllowIp, serverPub: seq<byte>, ephemeral: seq<byte>)
    requires c.Lawful()
    ensures var p := Meant(c, sk, mode, timestampMs, counter, allow, serverPub, ephemeral);
            c.check(c.verifyingKey(sk), SignedMessage(SignedRegion(p), p.ephemeralPub, serverPub), p.signature)
  {
    var p := Meant(c, sk, mode, timestampMs, counter, allow, serverPub, ephemeral);
    assert SignedRegion(p) == SignedRegion(p.(signature := []));
  }

  /** The signed message determines every field, the ephemeral key and the server key. */
  lemma SignedMessageInjective(p: Packet, q: Packet, server1: seq<byte>, server2: seq<byte>)
    requires WellFormed(p) && WellFormed(q) && |server1| == 32 && |server2| == 32
    requires SignedMessage(SignedRegion(p), p.ephemeralPub, server1)
          == SignedMessage(SignedRegion(q), q.ephemeralPub, server2)
    ensures p.(signature := []) == q.(signature := []) && server1 == server2
  {
    var m1 := SignedMessage(SignedRegion(p), p.ephemeralPub, server1);
    var m2 := SignedMessage(SignedRegion(q), q.ephemeralPub, server2);
    assert m1[..31] == SignedRegion(p) && m2[..31] == SignedRegion(q);
    assert m1[31..63] == p.ephemeralPub && m2[31..63] == q.ephemeralPub;
    assert m1[63..] == server1 && m2[63..] == server2;
    var p', q' := p.(signature := q.signature), q;
    ParseUndoesEncode(p');
    ParseUndoesEncode(q');
    assert SignedRegion(p') == SignedRegion(p);
  }

  // ---- the layout of a record -----------------------------------------------------------------

  /** Where each field of the signed region stands, and what the flag bits are. */
  lemma RegionLayout(p: Packet)
    requires WellFormed(p)
    ensures var s := SignedRegion(p);
            && |s| == 31 && s[0] == 0x47 && s[1] == 0x50
            && s[2] == (if p.mode == Https then 1 else 0) + (if p.usePacketSource then 2 else 0)
            && s[3..11] == p.keyId && FromBe(s[11..19]) == p.timestampMs && FromBe(s[19..27]) == p.counter
            && s[27..31] == p.allowIp
  {
    PowValues();
    FromBeToBe(p.timestampMs, 8);
    FromBeToBe(p.counter, 8);
    RecordSlices(VERSION_PREFIX, FlagsByte(p.mode, p.usePacketSource), p.keyId, ToBe(p.timestampMs, 8),
                 ToBe(p.counter, 8), p.allowIp, seq(64, _ => 0));
    var s, r := SignedRegion(p), SignedRegion(p) + seq(64, _ => 0);
    assert s == r[..31];
    assert s[3..11] == r[3..11] && s[11..19] == r[11..19] && s[19..27] == r[19..27] && s[27..31] == r[27..31];
    assert s[0] == r[0..2][0] && s[1] == r[0..2][1] && s[2] == r[2];
  }

  /** A payload is refused for the first of these reasons that applies, and else opened. */
  lemma OpenRefuses(c: Crypto, wire: seq<byte>, priv: seq<byte>)
    ensures var r := OpenSpec(c, wire, priv);
            if |wire| < 143 || |wire| > 176 then r == Refused(InvalidLength(|wire|))
            else
              match c.unseal(wire[..32], wire[32..143], priv)
              case None => r == Refused(SealOpenFailed)
              case Some(inner) =>
                if |inner| != 95 then r == Refused(SealOpenFailed)
                else if inner[0] != 0x47 || inner[1] != 0x50 then r == Refused(InvalidVersion)
                else if inner[2] > 3 then r == Refused(InvalidFlags(inner[2]))
                else r.Opened? && r.packet.ephemeralPub == wire[..32] && r.packet.signature == inner[31..95]
                     && SignedRegion(r.packet) == inner[..31]
  {
    if 143 <= |wire| <= 176 {
      var unsealed := c.unseal(wire[..32], wire[32..143], priv);
      if unsealed.Some? && |unsealed.value| == 95 {
        var inner := unsealed.value;
        assert inner[0..2] == [inner[0], inner[1]];
        if inner[0..2] == VERSION_PREFIX && inner[2] <= 3 {
          ReencodesReceived(c, wire, priv);
        }
      }
    }
  }
}
