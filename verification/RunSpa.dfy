/** The loop of `run_spa` over the verifier and the runtime object: whatever comes in, the two
    maps of the object stay in agreement, and at every loop head each mirror entry is of a
    client that is enrolled now, and every admitted connection goes back to a packet that came
    from its own address. */
module RunSpa {
  import opened Bytes
  import opened KeyHex
  import SpaVerifier
  import opened AllowGate
  import opened AllowGateHistory
  import opened AllowGateSteps

  /** What happens between two loop heads, in the order it happens. */
  datatype Input =
    | Packet(ip: Ip, payload: seq<byte>, nowMs: nat, saves: bool, kernelTakes: bool)
    | KeysChanged(list: seq<SpaVerifier.Client>, faults: set<Ip>)
    | ReapDue(faults: set<Ip>)
    | TcpPacket(ip: Ip)
    | Connection(ip: Ip)
    | Eviction(ip: Ip)
    | Passing(ns: nat)

  /** The source a packet is checked against: the octets of the address it came from. */
  function Octets(ip: Ip): (src: seq<byte>)
    ensures |src| == 4 && FromBe(src) == ip
  {
    PowValues();
    FromBeToBe(ip, 4);
    ToBe(ip, 4)
  }

  /** The history of the gate so far. */
  datatype Trace = Trace(gs: seq<Gate>, acts: seq<Action>) {
    ghost function Last(): (g: Gate)
      requires |gs| == |acts| + 1
    {
      gs[|acts|]
    }
  }

  /** The history is a run of the gate that ends in what the two objects hold. */
  ghost predicate Tracks(t: Trace, v: SpaVerifier.Verifier, rt: EbpfRuntime, ttlSeconds: nat, now: nat)
    reads v, rt
  {
    && IsRun(t.gs, t.acts)
    && Shows(rt, t.Last()) && t.Last().clients == v.clients
    && t.Last().ttlSeconds == ttlSeconds && t.Last().nowNs == now
  }

  /** The input is a packet from the address, entitled for the key under these clients. */
  ghost predicate Passes(site: SpaVerifier.Site, clients: SpaVerifier.Clients, input: Input, ip: Ip, key: KeyId) {
    input.Packet? && input.ip == ip
    && exists p, c ::
         SpaVerifier.Entitled(site, clients, input.payload, Octets(ip), input.nowMs, p, c) && p.keyId == key
  }

  /** Every verified packet of the history is one of these inputs, entitled when it came. */
  ghost predicate Earned(site: SpaVerifier.Site, inputs: seq<Input>, t: Trace) {
    && |t.gs| == |t.acts| + 1
    && forall i :: 0 <= i < |t.acts| && t.acts[i].VerifyOk? ==>
         exists n :: 0 <= n < |inputs| && Passes(site, t.gs[i].clients, inputs[n], t.acts[i].ip, t.acts[i].key)
  }

  ghost function Onward(t: Trace, gs: seq<Gate>, acts: seq<Action>): (t': Trace)
    requires |t.gs| == |t.acts| + 1
  {
    Trace(t.gs[..|t.acts|] + gs, t.acts + acts)
  }

  lemma OnwardRuns(t: Trace, gs: seq<Gate>, acts: seq<Action>, g': Gate)
    requires IsRun(t.gs, t.acts) && From(t.Last(), gs, acts, g')
    ensures IsRun(Onward(t, gs, acts).gs, Onward(t, gs, acts).acts) && Onward(t, gs, acts).Last() == g'
  {
    var t' := Onward(t, gs, acts);
    forall i | 0 <= i < |t'.acts|
      ensures Next(t'.gs[i], t'.acts[i], t'.gs[i + 1])
    {
      if i < |t.acts| {
        assert Next(t.gs[i], t.acts[i], t.gs[i + 1]);
      }
    }
  }

  lemma StepRuns(t: Trace, a: Action, g': Gate) returns (t': Trace)
    requires IsRun(t.gs, t.acts) && Next(t.Last(), a, g')
    ensures IsRun(t'.gs, t'.acts) && t'.Last() == g' && t' == Onward(t, [t.Last(), g'], [a])
  {
    var g := t.Last();
    t' := Onward(t, [g, g'], [a]);
    OnwardRuns(t, [g, g'], [a], g');
  }

  lemma EarnedOnward(site: SpaVerifier.Site, inputs: seq<Input>, t: Trace, gs: seq<Gate>, acts: seq<Action>)
    requires Earned(site, inputs, t) && |gs| == |acts| + 1 && NoPacket(acts)
    ensures Earned(site, inputs, Onward(t, gs, acts))
  {
    var t' := Onward(t, gs, acts);
    forall i | 0 <= i < |t'.acts| && t'.acts[i].VerifyOk?
      ensures exists n :: 0 <= n < |inputs| && Passes(site, t'.gs[i].clients, inputs[n], t'.acts[i].ip, t'.acts[i].key)
    {
      assert i < |t.acts| && t'.acts[i] == t.acts[i] && t'.gs[i] == t.gs[i];
    }
  }

  lemma PacketEarned(site: SpaVerifier.Site, inputs: seq<Input>, t: Trace, input: Input, key: KeyId, g': Gate)
    requires Earned(site, inputs, t) && input in inputs && input.Packet?
    requires Passes(site, t.Last().clients, input, input.ip, key)
    ensures Earned(site, inputs, Onward(t, [t.Last(), g'], [VerifyOk(input.ip, key)]))
  {
    var t' := Onward(t, [t.Last(), g'], [VerifyOk(input.ip, key)]);
    forall i | 0 <= i < |t'.acts| && t'.acts[i].VerifyOk?
      ensures exists n :: 0 <= n < |inputs| && Passes(site, t'.gs[i].clients, inputs[n], t'.acts[i].ip, t'.acts[i].key)
    {
      assert t'.gs[i] == t.gs[i];
      if i == |t.acts| {
        var n :| 0 <= n < |inputs| && inputs[n] == input;
      } else {
        assert t'.acts[i] == t.acts[i];
      }
    }
  }

  /** A datagram from the ring or the HTTPS endpoint: verified against the address it came from,
      and on success that address is let in. */
  method OnPacket(v: SpaVerifier.Verifier, rt: EbpfRuntime, ghost t: Trace, input: Input, ttlSeconds: nat, now: nat,
                  ghost inputs: seq<Input>)
    returns (running: bool, ghost t': Trace)
    requires input.Packet? && Tracks(t, v, rt, ttlSeconds, now) && t.Last().phase.Idle?
    requires Earned(v.site, inputs, t) && input in inputs
    modifies v`highest, v.file, rt
    ensures Tracks(t', v, rt, ttlSeconds, now) && t'.Last().phase == if running then Idle else Ended
    ensures Earned(v.site, inputs, t')
  {
    running, t' := true, t;
    ghost var g, src := t.Last(), Octets(input.ip);
    ghost var exam := SpaVerifier.Examine(v.site, v.clients, v.highest, input.payload, src, input.nowMs);
    var verdict := v.Verify(input.payload, Octets(input.ip), input.nowMs, input.saves);
    if verdict.Granted? {
      var accept := verdict.accept;
      RunKeeps(t.gs, t.acts);
      assert SpaVerifier.Authorises(v.site, v.clients, old(v.highest), input.payload, src, input.nowMs,
                                    exam.packet, exam.client);
      assert Passes(v.site, g.clients, input, input.ip, accept.keyId);
      ghost var verified := g.(phase := Verified(input.ip, exam.client));
      t' := StepRuns(t, VerifyOk(input.ip, accept.keyId), verified);
      PacketEarned(v.site, inputs, t, input, accept.keyId, verified);
      RunKeeps(t'.gs, t'.acts);
      ghost var gs, acts, last;
      running, gs, acts, last := AllowSteps(rt, verified, input.ip, accept, ttlSeconds, now, input.kernelTakes);
      OnwardRuns(t', gs, acts, last);
      EarnedOnward(v.site, inputs, t', gs, acts);
      t' := Onward(t', gs, acts);
    }
  }

  /** The key file changed: the new clients count from now on, and the addresses of every key
      that is gone are purged. */
  method OnKeysChanged(v: SpaVerifier.Verifier, rt: EbpfRuntime, ghost t: Trace, input: Input, ttlSeconds: nat,
                       now: nat, ghost inputs: seq<Input>)
    returns (running: bool, ghost t': Trace)
    requires input.KeysChanged? && Tracks(t, v, rt, ttlSeconds, now) && t.Last().phase.Idle?
    requires Earned(v.site, inputs, t)
    modifies v`clients, rt
    ensures Tracks(t', v, rt, ttlSeconds, now) && t'.Last().phase == if running then Idle else Ended
    ensures Earned(v.site, inputs, t')
  {
    ghost var g := t.Last();
    var removed := v.ReloadClients(input.list);
    ghost var reloaded := g.(clients := v.clients, phase := PurgeRest(removed));
    t' := StepRuns(t, Reload(input.list, removed), reloaded);
    EarnedOnward(v.site, inputs, t, [g, reloaded], [Reload(input.list, removed)]);
    running := true;
    var i := 0;
    while i < |removed| && running
      invariant 0 <= i <= |removed| && Tracks(t', v, rt, ttlSeconds, now) && Earned(v.site, inputs, t')
      invariant t'.Last().phase == if running then PurgeRest(removed[i..]) else Ended
    {
      RunKeeps(t'.gs, t'.acts);
      ghost var gs, acts, last;
      running, gs, acts, last := PurgeSteps(rt, t'.Last(), removed[i], input.faults);
      OnwardRuns(t', gs, acts, last);
      EarnedOnward(v.site, inputs, t', gs, acts);
      assert removed[i..][1..] == removed[i + 1..];
      t', i := Onward(t', gs, acts), i + 1;
    }
  }

  /** The reaper's turn. */
  method OnReap(v: SpaVerifier.Verifier, rt: EbpfRuntime, ghost t: Trace, input: Input, ttlSeconds: nat, now: nat,
                ghost inputs: seq<Input>)
    returns (running: bool, ghost t': Trace)
    requires input.ReapDue? && Tracks(t, v, rt, ttlSeconds, now) && t.Last().phase.Idle?
    requires Earned(v.site, inputs, t)
    modifies rt
    ensures Tracks(t', v, rt, ttlSeconds, now) && t'.Last().phase == if running then Idle else Ended
    ensures Earned(v.site, inputs, t')
  {
    RunKeeps(t.gs, t.acts);
    ghost var gs, acts, last;
    running, gs, acts, last := ReapSteps(rt, t.Last(), now, input.faults);
    OnwardRuns(t, gs, acts, last);
    EarnedOnward(v.site, inputs, t, gs, acts);
    t' := Onward(t, gs, acts);
  }

  /** The kernel and the proxy look an address up, or the kernel drops one. */
  method OnTraffic(v: SpaVerifier.Verifier, rt: EbpfRuntime, ghost t: Trace, input: Input, ttlSeconds: nat, now: nat,
                   ghost inputs: seq<Input>)
    returns (ghost t': Trace)
    requires (input.TcpPacket? || input.Connection? || input.Eviction?)
    requires Tracks(t, v, rt, ttlSeconds, now) && t.Last().phase.Idle? && Earned(v.site, inputs, t)
    modifies rt
    ensures Tracks(t', v, rt, ttlSeconds, now) && t'.Last().phase.Idle? && Earned(v.site, inputs, t')
  {
    ghost var g := t.Last();
    RunKeeps(t.gs, t.acts);
    ghost var gs, acts, last;
    match input {
      case TcpPacket(ip) =>
        var allowed;
        allowed, gs, acts, last := KernelCheckSteps(rt, g, ip, now);
      case Connection(ip) =>
        var source;
        source, gs, acts, last := ProxyCheckSteps(rt, g, ip, now);
      case Eviction(ip) =>
        rt.allowMap := rt.allowMap - {ip};
        last := g.(kernel := g.kernel - {ip});
        gs, acts := [g, last], [KernelEvict(ip)];
    }
    OnwardRuns(t, gs, acts, last);
    EarnedOnward(v.site, inputs, t, gs, acts);
    t' := Onward(t, gs, acts);
  }

  /** Any inputs, up to the first kernel failure: the maps of the object agree afterwards, while
      the loop still runs each mirror entry is of a client enrolled now, and every packet of the
      history came from the address it let in. */
  method RunLoop(v: SpaVerifier.Verifier, rt: EbpfRuntime, ttlSeconds: nat, start: nat, inputs: seq<Input>,
                 ghost list: seq<SpaVerifier.Client>)
    returns (running: bool, now: nat, ghost t: Trace)
    requires rt.allowMap == map[] && rt.mirror == map[] && v.clients == SpaVerifier.ByKey(list)
    modifies v`highest, v`clients, v.file, rt
    ensures Tracks(t, v, rt, ttlSeconds, now) && now >= start
    ensures AgreeExcept(rt.allowMap, rt.mirror, now, {})
    ensures running ==> forall ip :: ip in rt.mirror ==> rt.mirror[ip].entry.keyId in v.clients
    ensures Earned(v.site, inputs, t)
  {
    ghost var g := Gate(ttlSeconds, start, v.clients, map[], map[], Idle, map[], []);
    running, now, t := true, start, Trace([g], []);
    var i := 0;
    while i < |inputs| && running
      invariant 0 <= i <= |inputs| && Tracks(t, v, rt, ttlSeconds, now) && now >= start
      invariant t.Last().phase == (if running then Idle else Ended) && Earned(v.site, inputs, t)
    {
      match inputs[i] {
        case Packet(_, _, _, _, _) => running, t := OnPacket(v, rt, t, inputs[i], ttlSeconds, now, inputs);
        case KeysChanged(_, _) => running, t := OnKeysChanged(v, rt, t, inputs[i], ttlSeconds, now, inputs);
        case ReapDue(_) => running, t := OnReap(v, rt, t, inputs[i], ttlSeconds, now, inputs);
        case Passing(ns) =>
          ghost var later := t.Last().(nowNs := now + ns);
          EarnedOnward(v.site, inputs, t, [t.Last(), later], [Tick(now + ns)]);
          t := StepRuns(t, Tick(now + ns), later);
          now := now + ns;
        case _ => t := OnTraffic(v, rt, t, inputs[i], ttlSeconds, now, inputs);
      }
      i := i + 1;
    }
    RunKeeps(t.gs, t.acts);
  }

  /** A connection past the expiry and static-key checks goes back to a packet among the inputs:
      it came from the connection's address, was signed by a client enrolled when it came, was
      meant for that source, and that client's Noise key is the connection's. */
  lemma ConnectionsEarned(site: SpaVerifier.Site, inputs: seq<Input>, t: Trace, i: nat, remoteStatic: Option<seq<byte>>)
    returns (k: nat, n: nat)
    requires IsRun(t.gs, t.acts) && Earned(site, inputs, t)
    requires i < |t.Last().conns| && StaticMatches(t.Last().conns[i], remoteStatic)
    ensures k < |t.acts| && n < |inputs|
    ensures var c := t.Last().conns[i];
            && t.acts[k].VerifyOk? && t.acts[k].ip == c.ip && t.acts[k].key in t.gs[k].clients
            && Passes(site, t.gs[k].clients, inputs[n], c.ip, t.acts[k].key)
            && remoteStatic == Some(t.gs[k].clients[t.acts[k].key].noisePublicKey)
  {
    var s, m, q;
    k, s, m, q := ConnectionsBacked(t.gs, t.acts, i, remoteStatic);
    n :| 0 <= n < |inputs| && Passes(site, t.gs[k].clients, inputs[n], t.acts[k].ip, t.acts[k].key);
  }
}
