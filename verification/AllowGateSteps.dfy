/** Each call on the runtime object is a path of the gate's transition system, so what holds
    in every run of the gate holds of the object's two maps. */
module AllowGateSteps {
  import opened Bytes
  import opened KeyHex
  import SpaVerifier
  import opened AllowGate

  ghost predicate Path(gs: seq<Gate>, acts: seq<Action>) {
    && |gs| == |acts| + 1
    && forall i :: 0 <= i < |acts| ==> Next(gs[i], acts[i], gs[i + 1])
  }

  ghost predicate From(g: Gate, gs: seq<Gate>, acts: seq<Action>, g': Gate) {
    Path(gs, acts) && gs[0] == g && gs[|acts|] == g'
  }

  /** The object holds the two maps of the gate. */
  ghost predicate Shows(rt: EbpfRuntime, g: Gate)
    reads rt
  {
    rt.allowMap == g.kernel && rt.mirror == g.mirror
  }

  /** Time, lifetime and enrolment are as they were. */
  ghost predicate Same(g: Gate, g': Gate) {
    g'.nowNs == g.nowNs && g'.ttlSeconds == g.ttlSeconds && g'.clients == g.clients
  }

  /** No step of the path verifies a packet. */
  ghost predicate NoPacket(acts: seq<Action>) {
    forall i :: 0 <= i < |acts| ==> !acts[i].VerifyOk?
  }

  lemma Then(g: Gate, gs: seq<Gate>, acts: seq<Action>, mid: Gate, a: Action, g': Gate)
    returns (gs': seq<Gate>, acts': seq<Action>)
    requires From(g, gs, acts, mid) && Next(mid, a, g')
    ensures From(g, gs', acts', g')
    ensures NoPacket(acts) && !a.VerifyOk? ==> NoPacket(acts')
  {
    gs', acts' := gs + [g'], acts + [a];
  }

  lemma First(g: Gate, a: Action, mid: Gate, gs: seq<Gate>, acts: seq<Action>, g': Gate)
    returns (gs': seq<Gate>, acts': seq<Action>)
    requires Next(g, a, mid) && From(mid, gs, acts, g')
    ensures From(g, gs', acts', g')
    ensures NoPacket(acts) && !a.VerifyOk? ==> NoPacket(acts')
  {
    gs', acts' := [g] + gs, [a] + acts;
  }

  /** Removing addresses one by one, each from the kernel and then from the mirror. */
  lemma {:induction false} RemovalPath(g: Gate, gone: set<Ip>)
    returns (gs: seq<Gate>, acts: seq<Action>, g': Gate)
    requires g.phase.Removing? && gone <= g.phase.ips && gone <= g.kernel.Keys
    ensures From(g, gs, acts, g') && NoPacket(acts)
    ensures g' == g.(kernel := g.kernel - gone, mirror := g.mirror - gone,
                     phase := Removing(g.phase.ips - gone, g.phase.keys))
    decreases |gone|
  {
    if gone == {} {
      gs, acts, g' := [g], [], g;
      assert g.phase.ips - gone == g.phase.ips;
    } else {
      var ip :| ip in gone;
      var first, firstActs, mid := RemovalPath(g, gone - {ip});
      var kernel := mid.(kernel := mid.kernel - {ip},
                         phase := RemovedInKernel(ip, mid.phase.ips - {ip}, mid.phase.keys));
      g' := kernel.(mirror := kernel.mirror - {ip}, phase := Removing(kernel.phase.ips, kernel.phase.keys));
      var second, secondActs := Then(g, first, firstActs, mid, KernelRemove(ip, true), kernel);
      gs, acts := Then(g, second, secondActs, kernel, MirrorRemove, g');
      assert g.phase.ips - gone == g.phase.ips - (gone - {ip}) - {ip};
    }
  }

  /** From the collected addresses to the end of the loop, whether it completed or failed. */
  lemma LoopPath(g: Gate, gone: set<Ip>) returns (gs: seq<Gate>, acts: seq<Action>, g': Gate)
    requires g.phase.Collected? && gone <= g.phase.ips && gone <= g.kernel.Keys
    ensures From(g, gs, acts, g') && NoPacket(acts)
    ensures g'.kernel == g.kernel - gone && g'.mirror == g.mirror - gone && Same(g, g')
    ensures g'.phase == if g.phase.ips - gone == {} then PurgeRest(g.phase.keys) else Ended
  {
    var locked := g.(phase := Removing(g.phase.ips, g.phase.keys));
    var first, firstActs, mid := RemovalPath(locked, gone);
    gs, acts := First(g, TakeLock, locked, first, firstActs, mid);
    var a := ReleaseLock;
    g' := mid.(phase := PurgeRest(mid.phase.keys));
    if mid.phase.ips != {} {
      var ip :| ip in mid.phase.ips;
      a, g' := KernelRemove(ip, false), mid.(phase := Ended);
    }
    gs, acts := Then(g, gs, acts, mid, a, g');
  }

  /** Collecting the addresses, and then the loop if there are any. */
  lemma CollectPath(g: Gate, a: Action, ips: set<Ip>, keys: seq<KeyId>, gone: set<Ip>)
    returns (gs: seq<Gate>, acts: seq<Action>, g': Gate)
    requires Next(g, a, g.(phase := if ips == {} then PurgeRest(keys) else Collected(ips, keys)))
    requires gone <= ips && gone <= g.kernel.Keys && !a.VerifyOk?
    ensures From(g, gs, acts, g') && NoPacket(acts)
    ensures g'.kernel == g.kernel - gone && g'.mirror == g.mirror - gone && Same(g, g')
    ensures g'.phase == if ips - gone == {} then PurgeRest(keys) else Ended
  {
    var collected := g.(phase := if ips == {} then PurgeRest(keys) else Collected(ips, keys));
    if ips == {} {
      gs, acts, g' := [g, collected], [a], collected;
    } else {
      var more, moreActs, last := LoopPath(collected, gone);
      gs, acts := First(g, a, collected, more, moreActs, last);
      g' := last;
    }
  }

  /** `purge_key_id` on the first revoked key. */
  method PurgeSteps(rt: EbpfRuntime, ghost g: Gate, key: KeyId, faults: set<Ip>)
    returns (ok: bool, ghost gs: seq<Gate>, ghost acts: seq<Action>, ghost g': Gate)
    requires Shows(rt, g) && Agreement(g)
    requires g.phase.Purging? && g.phase.keys != [] && g.phase.keys[0] == key
    modifies rt
    ensures Shows(rt, g') && From(g, gs, acts, g') && NoPacket(acts) && Same(g, g')
    ensures g'.phase == if ok then PurgeRest(g.phase.keys[1..]) else Ended
  {
    ghost var gone;
    ok, gone := rt.PurgeKeyId(key, faults, g.nowNs);
    gs, acts, g' := CollectPath(g, PurgeCollect, SourcesOfKey(g.mirror, key), g.phase.keys[1..], gone);
    assert SourcesOfKey(g'.mirror, key) == SourcesOfKey(g.mirror, key) - gone;
    NoneOfKey(g'.mirror, key);
  }

  /** `reap_expired_sources` from the loop head. */
  method ReapSteps(rt: EbpfRuntime, ghost g: Gate, nowNs: nat, faults: set<Ip>)
    returns (ok: bool, ghost gs: seq<Gate>, ghost acts: seq<Action>, ghost g': Gate)
    requires Shows(rt, g) && Agreement(g) && g.phase.Idle? && g.nowNs == nowNs
    modifies rt
    ensures Shows(rt, g') && From(g, gs, acts, g') && NoPacket(acts) && Same(g, g')
    ensures g'.phase == if ok then Idle else Ended
  {
    ghost var gone;
    ok, gone := rt.ReapExpiredSources(nowNs, faults);
    gs, acts, g' := CollectPath(g, ReapCollect(nowNs), ExpiredSources(g.mirror, nowNs), [], gone);
    assert ExpiredSources(g'.mirror, nowNs) == ExpiredSources(g.mirror, nowNs) - gone;
    NoneExpired(g'.mirror, nowNs);
  }

  /** `allow_source` after a verified packet. */
  method AllowSteps(rt: EbpfRuntime, ghost g: Gate, ip: Ip, accept: SpaVerifier.Accept,
                    ttlSeconds: nat, nowNs: nat, kernelTakes: bool)
    returns (ok: bool, ghost gs: seq<Gate>, ghost acts: seq<Action>, ghost g': Gate)
    requires Shows(rt, g) && Agreement(g) && g.nowNs == nowNs && g.ttlSeconds == ttlSeconds
    requires g.phase.Verified? && g.phase.ip == ip
    requires var c := g.phase.client;
             && accept.keyId == c.keyId && accept.clientId == c.clientId
             && accept.noisePublicKey == c.noisePublicKey && accept.maxSessions == c.maxSessions
    modifies rt
    ensures Shows(rt, g') && From(g, gs, acts, g') && NoPacket(acts) && Same(g, g')
    ensures g'.phase == if ok then Idle else Ended
  {
    ghost var backing := Backing(nowNs, g.phase.client);
    ghost var source := SourceFor(backing.client, nowNs, ttlSeconds);
    ghost var stamped := g.(phase := Stamped(ip, backing));
    gs, acts := Then(g, [g], [], g, StampExpiry, stamped);
    ok := rt.AllowSource(ip, accept, ttlSeconds, nowNs, kernelTakes);
    if ok {
      ghost var written := g.(kernel := g.kernel[ip := source.entry], phase := KernelWritten(ip, backing));
      g' := written.(mirror := g.mirror[ip := source], latest := g.latest[ip := backing], phase := Idle);
      gs, acts := Then(g, gs, acts, stamped, KernelInsert(true), written);
      gs, acts := Then(g, gs, acts, written, MirrorInsert, g');
    } else {
      g' := g.(phase := Ended);
      gs, acts := Then(g, gs, acts, stamped, KernelInsert(false), g');
    }
  }

  /** `is_allowed`: a step only where the entry has run out. */
  method KernelCheckSteps(rt: EbpfRuntime, ghost g: Gate, ip: Ip, nowNs: nat)
    returns (allowed: bool, ghost gs: seq<Gate>, ghost acts: seq<Action>, ghost g': Gate)
    requires Shows(rt, g) && Agreement(g) && !g.phase.KernelWritten? && g.nowNs == nowNs
    modifies rt`allowMap
    ensures Shows(rt, g') && From(g, gs, acts, g') && NoPacket(acts) && Same(g, g') && g'.phase == g.phase
  {
    allowed := rt.IsAllowed(ip, nowNs);
    gs, acts, g' := [g], [], g;
    if !allowed && ip in g.kernel {
      g' := g.(kernel := g.kernel - {ip});
      gs, acts := Then(g, gs, acts, g, KernelExpire(ip), g');
    }
  }

  /** The proxy's expiry check: a connection enters the gate's record exactly when it passes. */
  method ProxyCheckSteps(rt: EbpfRuntime, ghost g: Gate, ip: Ip, nowNs: nat)
    returns (source: Option<AllowedSource>, ghost gs: seq<Gate>, ghost acts: seq<Action>, ghost g': Gate)
    requires Shows(rt, g) && Agreement(g) && !g.phase.KernelWritten? && !LockHeld(g.phase) && g.nowNs == nowNs
    modifies rt`mirror
    ensures Shows(rt, g') && From(g, gs, acts, g') && NoPacket(acts) && Same(g, g') && g'.phase == g.phase
    ensures source.Some? ==> g'.conns == g.conns + [Conn(ip, nowNs, source.value, LatestFor(g, ip))]
    ensures source == None ==> g'.conns == g.conns
  {
    source := rt.AdmitPeer(ip, nowNs);
    g' := if source.Some? then g.(conns := g.conns + [Conn(ip, nowNs, source.value, LatestFor(g, ip))])
          else g.(mirror := g.mirror - {ip});
    gs, acts := Then(g, [g], [], g, ProxyCheck(ip), g');
  }
}
