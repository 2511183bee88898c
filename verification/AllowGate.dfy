/** The allow gate: the kernel map, the userspace mirror, the proxy's admission check,
    expiry, eviction, reaping and revocation. */
module AllowGate {
  import opened Bytes
  import opened KeyHex
  import opened SpaVerifier

  /** An IPv4 address as the number its octets make. */
  type Ip = ip: nat | ip <= U32_MAX

  datatype AllowEntry = AllowEntry(expiryNs: nat, keyId: KeyId, clientId: nat)
  datatype AllowedSource = AllowedSource(entry: AllowEntry, noisePublicKey: seq<byte>, maxSessions: Option<nat>)

  type KernelMap = map<Ip, AllowEntry>
  type Mirror = map<Ip, AllowedSource>

  /** Saturating now + ttl, in nanoseconds. */
  function Expiry(nowNs: nat, ttlSeconds: nat): (e: nat)
    ensures e <= nowNs + ttlSeconds * 1_000_000_000
    ensures if nowNs + ttlSeconds * 1_000_000_000 <= U64_MAX
            then e == nowNs + ttlSeconds * 1_000_000_000 else e == U64_MAX
  {
    Min(U64_MAX, nowNs + Min(U64_MAX, ttlSeconds * 1_000_000_000))
  }

  function SourceFor(c: Client, at: nat, ttlSeconds: nat): (s: AllowedSource) {
    AllowedSource(AllowEntry(Expiry(at, ttlSeconds), c.keyId, c.clientId), c.noisePublicKey, c.maxSessions)
  }

  /** Addresses whose entry has run out. */
  function ExpiredSources(mirror: Mirror, nowNs: nat): (ips: set<Ip>) {
    set ip | ip in mirror && mirror[ip].entry.expiryNs <= nowNs
  }

  function SourcesOfKey(mirror: Mirror, key: KeyId): (ips: set<Ip>) {
    set ip | ip in mirror && mirror[ip].entry.keyId == key
  }

  lemma NoneExpired(mirror: Mirror, nowNs: nat)
    ensures ExpiredSources(mirror, nowNs) == {} <==> forall ip :: ip in mirror ==> mirror[ip].entry.expiryNs > nowNs
  {
    if ip :| ip in mirror && mirror[ip].entry.expiryNs <= nowNs {
      assert ip in ExpiredSources(mirror, nowNs);
    }
  }

  lemma NoneOfKey(mirror: Mirror, key: KeyId)
    ensures SourcesOfKey(mirror, key) == {} <==> forall ip :: ip in mirror ==> mirror[ip].entry.keyId != key
  {
    if ip :| ip in mirror && mirror[ip].entry.keyId == key {
      assert ip in SourcesOfKey(mirror, key);
    }
  }

  /** Every unexpired kernel entry is the mirror's entry for that address. */
  ghost predicate AgreeExcept(kernel: KernelMap, mirror: Mirror, nowNs: nat, gap: set<Ip>) {
    forall ip :: ip in kernel && kernel[ip].expiryNs > nowNs && ip !in gap ==>
      ip in mirror && mirror[ip].entry == kernel[ip]
  }

  // ---- the runtime object, one call at a time ----------------------------------------

  class EbpfRuntime {
    var allowMap: KernelMap
    var mirror: Mirror

    constructor ()
      ensures allowMap == map[] && mirror == map[]
    {
      allowMap, mirror := map[], map[];
    }

    /** `allow_source`: kernel first, then the mirror; a refused kernel write changes nothing. */
    method AllowSource(ip: Ip, accept: Accept, ttlSeconds: nat, nowNs: nat, kernelTakes: bool) returns (ok: bool)
      requires AgreeExcept(allowMap, mirror, nowNs, {})
      modifies this
      ensures AgreeExcept(allowMap, mirror, nowNs, {})
      ensures ok == kernelTakes
      ensures !ok ==> allowMap == old(allowMap) && mirror == old(mirror)
      ensures ok ==>
                && ip in mirror && mirror == old(mirror)[ip := mirror[ip]]
                && allowMap == old(allowMap)[ip := mirror[ip].entry]
                && mirror[ip].entry.keyId == accept.keyId && mirror[ip].entry.clientId == accept.clientId
                && mirror[ip].noisePublicKey == accept.noisePublicKey && mirror[ip].maxSessions == accept.maxSessions
                && mirror[ip].entry.expiryNs == Expiry(nowNs, ttlSeconds)
    {
      var entry := AllowEntry(Expiry(nowNs, ttlSeconds), accept.keyId, accept.clientId);
      if !kernelTakes {
        return false;
      }
      allowMap := allowMap[ip := entry];
      mirror := mirror[ip := AllowedSource(entry, accept.noisePublicKey, accept.maxSessions)];
      return true;
    }

    /** The loop shared by `purge_key_id` and `reap_expired_sources`: each address leaves the
        kernel, then the mirror; the first kernel failure stops it, and an address the kernel
        has already dropped is such a failure. */
    method RemoveAll(ips: set<Ip>, faults: set<Ip>) returns (ok: bool, ghost gone: set<Ip>)
      requires ips <= mirror.Keys
      modifies this
      ensures gone <= ips && gone <= old(allowMap).Keys
      ensures mirror == old(mirror) - gone && allowMap == old(allowMap) - gone
      ensures ok <==> ips - gone == {}
      ensures ok <==> forall ip :: ip in ips ==> ip in old(allowMap) && ip !in faults
    {
      var todo := ips;
      gone := {};
      while todo != {}
        invariant todo <= ips && gone == ips - todo
        invariant mirror == old(mirror) - gone && allowMap == old(allowMap) - gone
        invariant forall ip :: ip in gone ==> ip in old(allowMap) && ip !in faults
        decreases |todo|
      {
        var ip :| ip in todo;
        if ip !in allowMap || ip in faults {
          assert ip in ips - gone;
          return false, gone;
        }
        allowMap := allowMap - {ip};
        mirror := mirror - {ip};
        todo, gone := todo - {ip}, gone + {ip};
      }
      return true, gone;
    }

    /** `purge_key_id`: on success no address of the key is left; on failure the two maps
        have still lost the same addresses. */
    method PurgeKeyId(key: KeyId, faults: set<Ip>, ghost nowNs: nat) returns (ok: bool, ghost gone: set<Ip>)
      requires AgreeExcept(allowMap, mirror, nowNs, {})
      modifies this
      ensures AgreeExcept(allowMap, mirror, nowNs, {})
      ensures mirror == old(mirror) - gone && allowMap == old(allowMap) - gone && gone <= old(allowMap).Keys
      ensures forall ip :: ip in gone ==> ip in old(mirror) && old(mirror)[ip].entry.keyId == key
      ensures ok <==> forall ip :: ip in mirror ==> mirror[ip].entry.keyId != key
      ensures ok <==> forall ip :: ip in old(mirror) && old(mirror)[ip].entry.keyId == key ==>
                                     ip in old(allowMap) && ip !in faults
    {
      ok, gone := RemoveAll(SourcesOfKey(mirror, key), faults);
      assert SourcesOfKey(mirror, key) == SourcesOfKey(old(mirror), key) - gone;
      NoneOfKey(mirror, key);
    }

    /** `reap_expired_sources`: only expired addresses go, all of them unless a failure stops it. */
    method ReapExpiredSources(nowNs: nat, faults: set<Ip>) returns (ok: bool, ghost gone: set<Ip>)
      requires AgreeExcept(allowMap, mirror, nowNs, {})
      modifies this
      ensures AgreeExcept(allowMap, mirror, nowNs, {})
      ensures mirror == old(mirror) - gone && allowMap == old(allowMap) - gone && gone <= old(allowMap).Keys
      ensures forall ip :: ip in gone ==> ip in old(mirror) && old(mirror)[ip].entry.expiryNs <= nowNs
      ensures ok <==> forall ip :: ip in mirror ==> mirror[ip].entry.expiryNs > nowNs
      ensures ok <==> forall ip :: ip in old(mirror) && old(mirror)[ip].entry.expiryNs <= nowNs ==>
                                     ip in old(allowMap) && ip !in faults
    {
      ok, gone := RemoveAll(ExpiredSources(mirror, nowNs), faults);
      assert ExpiredSources(mirror, nowNs) == ExpiredSources(old(mirror), nowNs) - gone;
      NoneExpired(mirror, nowNs);
    }

    /** `is_allowed` in the kernel: an expired entry is dropped on sight. */
    method IsAllowed(ip: Ip, nowNs: nat) returns (allowed: bool)
      requires AgreeExcept(allowMap, mirror, nowNs, {})
      modifies this`allowMap
      ensures AgreeExcept(allowMap, mirror, nowNs, {})
      ensures allowed <==> ip in old(allowMap) && old(allowMap)[ip].expiryNs > nowNs
      ensures allowed ==> ip in mirror && mirror[ip].entry.expiryNs > nowNs && allowMap == old(allowMap)
      ensures !allowed ==> allowMap == old(allowMap) - {ip}
    {
      if ip !in allowMap {
        return false;
      }
      if allowMap[ip].expiryNs <= nowNs {
        allowMap := allowMap - {ip};
        return false;
      }
      return true;
    }

    /** The first check of `handle_connection`: an expired mirror entry is dropped on sight. */
    method AdmitPeer(ip: Ip, nowNs: nat) returns (source: Option<AllowedSource>)
      requires AgreeExcept(allowMap, mirror, nowNs, {})
      modifies this`mirror
      ensures AgreeExcept(allowMap, mirror, nowNs, {})
      ensures source.Some? ==> ip in mirror && mirror == old(mirror) && source.value == mirror[ip]
      ensures source.Some? <==> ip in old(mirror) && old(mirror)[ip].entry.expiryNs > nowNs
      ensures source == None ==> mirror == old(mirror) - {ip}
    {
      if ip !in mirror {
        return None;
      }
      var found := mirror[ip];
      if found.entry.expiryNs <= nowNs {
        mirror := mirror - {ip};
        return None;
      }
      return Some(found);
    }
  }

  // ---- every interleaving -----------------------------------------------------------------

  /** A completed accept: when the expiry was stamped and the client as enrolled then. */
  datatype Backing = Backing(at: nat, client: Client)

  /** Where `run_spa` is. The mirror's write lock is held in Removing and RemovedInKernel. */
  datatype Phase =
    | Idle
    | Verified(ip: Ip, client: Client)
    | Stamped(ip: Ip, backing: Backing)
    | KernelWritten(ip: Ip, backing: Backing)
    | Purging(keys: seq<KeyId>)
    | Collected(ips: set<Ip>, keys: seq<KeyId>)
    | Removing(ips: set<Ip>, keys: seq<KeyId>)
    | RemovedInKernel(ip: Ip, ips: set<Ip>, keys: seq<KeyId>)
    | Ended

  /** A connection past the expiry check: what it copied, when, and the accept then latest. */
  datatype Conn = Conn(ip: Ip, at: nat, source: AllowedSource, backing: Option<Backing>)

  datatype Gate = Gate(
    ttlSeconds: nat,
    nowNs: nat,
    clients: Clients,
    kernel: KernelMap,
    mirror: Mirror,
    phase: Phase,
    latest: map<Ip, Backing>,
    conns: seq<Conn>)

  datatype Action =
    | Tick(nowNs: nat)
    | VerifyOk(ip: Ip, key: KeyId)
    | StampExpiry
    | KernelInsert(taken: bool)
    | MirrorInsert
    | KernelExpire(ip: Ip)
    | KernelEvict(ip: Ip)
    | ProxyCheck(ip: Ip)
    | Reload(list: seq<Client>, removed: seq<KeyId>)
    | PurgeCollect
    | ReapCollect(asOf: nat)
    | TakeLock
    | KernelRemove(ip: Ip, ok: bool)
    | MirrorRemove
    | ReleaseLock

  function LatestFor(g: Gate, ip: Ip): (b: Option<Backing>) {
    if ip in g.latest then Some(g.latest[ip]) else None
  }

  predicate LockHeld(p: Phase) {
    p.Removing? || p.RemovedInKernel?
  }

  /** After the last revoked key, the loop goes on. */
  function PurgeRest(keys: seq<KeyId>): (p: Phase) {
    if keys == [] then Idle else Purging(keys)
  }

  ghost predicate Next(g: Gate, a: Action, g': Gate) {
    match a
    case Tick(nowNs) => g.nowNs <= nowNs && g' == g.(nowNs := nowNs)
    case VerifyOk(ip, key) =>
      && g.phase.Idle? && key in g.clients && g.clients[key].tier == Full
      && g' == g.(phase := Verified(ip, g.clients[key]))
    case StampExpiry =>
      g.phase.Verified? && g' == g.(phase := Stamped(g.phase.ip, Backing(g.nowNs, g.phase.client)))
    case KernelInsert(taken) =>
      && g.phase.Stamped?
      && var source := SourceFor(g.phase.backing.client, g.phase.backing.at, g.ttlSeconds);
         g' == if taken
               then g.(kernel := g.kernel[g.phase.ip := source.entry],
                        phase := KernelWritten(g.phase.ip, g.phase.backing))
               else g.(phase := Ended)
    case MirrorInsert =>
      && g.phase.KernelWritten?
      && g' == g.(mirror := g.mirror[g.phase.ip := SourceFor(g.phase.backing.client, g.phase.backing.at, g.ttlSeconds)],
                  latest := g.latest[g.phase.ip := g.phase.backing],
                  phase := Idle)
    case KernelExpire(ip) =>
      ip in g.kernel && g.kernel[ip].expiryNs <= g.nowNs && g' == g.(kernel := g.kernel - {ip})
    case KernelEvict(ip) => g' == g.(kernel := g.kernel - {ip})
    case ProxyCheck(ip) =>
      && !LockHeld(g.phase)
      && (if ip !in g.mirror then g' == g
          else if g.mirror[ip].entry.expiryNs <= g.nowNs then g' == g.(mirror := g.mirror - {ip})
          else g' == g.(conns := g.conns + [Conn(ip, g.nowNs, g.mirror[ip], LatestFor(g, ip))]))
    case Reload(list, removed) =>
      && g.phase.Idle?
      && (forall k :: k in removed <==> k in g.clients && k !in ByKey(list))
      && g' == g.(clients := ByKey(list), phase := PurgeRest(removed))
    case PurgeCollect =>
      && g.phase.Purging? && g.phase.keys != []
      && var ips := SourcesOfKey(g.mirror, g.phase.keys[0]);
         var rest := g.phase.keys[1..];
         g' == g.(phase := if ips == {} then PurgeRest(rest) else Collected(ips, rest))
    case ReapCollect(asOf) =>
      && g.phase.Idle? && asOf <= g.nowNs
      && var ips := ExpiredSources(g.mirror, asOf);
         g' == g.(phase := if ips == {} then Idle else Collected(ips, []))
    case TakeLock => g.phase.Collected? && g' == g.(phase := Removing(g.phase.ips, g.phase.keys))
    case KernelRemove(ip, ok) =>
      && g.phase.Removing? && ip in g.phase.ips && (ok ==> ip in g.kernel)
      && g' == if ok
               then g.(kernel := g.kernel - {ip}, phase := RemovedInKernel(ip, g.phase.ips - {ip}, g.phase.keys))
               else g.(phase := Ended)
    case MirrorRemove =>
      && g.phase.RemovedInKernel?
      && g' == g.(mirror := g.mirror - {g.phase.ip}, phase := Removing(g.phase.ips, g.phase.keys))
    case ReleaseLock =>
      g.phase.Removing? && g.phase.ips == {} && g' == g.(phase := PurgeRest(g.phase.keys))
  }

  ghost predicate Initial(g: Gate) {
    && g.kernel == map[] && g.mirror == map[] && g.latest == map[] && g.conns == [] && g.phase == Idle
    && exists list :: g.clients == ByKey(list)
  }

  ghost predicate IsRun(gs: seq<Gate>, acts: seq<Action>) {
    && |gs| == |acts| + 1 && Initial(gs[0])
    && forall i :: 0 <= i < |acts| ==> Next(gs[i], acts[i], gs[i + 1])
  }

  // ---- what every step keeps ------------------------------------------------------------

  /** The one address between the two writes of `allow_source`, if any. */
  function Gap(p: Phase): (ips: set<Ip>) {
    if p.KernelWritten? then {p.ip} else {}
  }

  ghost predicate Agreement(g: Gate) {
    && AgreeExcept(g.kernel, g.mirror, g.nowNs, Gap(g.phase))
    && (g.phase.KernelWritten? && g.phase.ip in g.kernel ==>
          g.kernel[g.phase.ip] == SourceFor(g.phase.backing.client, g.phase.backing.at, g.ttlSeconds).entry)
    && (g.phase.RemovedInKernel? ==> g.phase.ip !in g.kernel)
  }

  /** A mirror entry is exactly what the accept behind it wrote. */
  ghost predicate Backs(b: Backing, source: AllowedSource, ttlSeconds: nat) {
    source == SourceFor(b.client, b.at, ttlSeconds)
  }

  ghost predicate MirrorBacked(g: Gate) {
    && (forall ip :: ip in g.mirror ==> ip in g.latest && Backs(g.latest[ip], g.mirror[ip], g.ttlSeconds))
    && (forall ip :: ip in g.latest ==> g.latest[ip].at <= g.nowNs)
    && (g.phase.Stamped? || g.phase.KernelWritten? ==> g.phase.backing.at <= g.nowNs)
  }

  /** A connection past the expiry check is backed by the accept that was then the latest for
      its address, made at most ttl before, with that accept's key and Noise key. */
  ghost predicate ConnBacked(c: Conn, ttlSeconds: nat) {
    && c.backing.Some?
    && var b := c.backing.value;
       && b.at <= c.at < b.at + ttlSeconds * 1_000_000_000
       && c.source.entry.keyId == b.client.keyId
       && c.source.noisePublicKey == b.client.noisePublicKey
       && c.source.maxSessions == b.client.maxSessions
  }

  ghost predicate ConnsBacked(g: Gate) {
    forall i :: 0 <= i < |g.conns| ==> ConnBacked(g.conns[i], g.ttlSeconds)
  }

  function PendingKeys(p: Phase): (keys: seq<KeyId>) {
    match p
    case Purging(keys) => keys
    case Collected(_, keys) => keys
    case Removing(_, keys) => keys
    case RemovedInKernel(_, _, keys) => keys
    case _ => []
  }

  function PendingIps(p: Phase): (ips: set<Ip>) {
    match p
    case Collected(ips, _) => ips
    case Removing(ips, _) => ips
    case RemovedInKernel(ip, ips, _) => ips + {ip}
    case _ => {}
  }

  ghost predicate Keyed(clients: Clients) {
    forall k :: k in clients ==> clients[k].keyId == k
  }

  lemma {:induction false} ByKeyKeyed(list: seq<Client>)
    ensures Keyed(ByKey(list))
  {
    if list != [] {
      ByKeyKeyed(list[..|list| - 1]);
    }
  }

  /** Every mirror entry is of an enrolled key, or its removal is still to come. */
  ghost predicate Enrolled(g: Gate) {
    && Keyed(g.clients)
    && (!g.phase.Ended? ==>
          forall ip :: ip in g.mirror ==>
            g.mirror[ip].entry.keyId in g.clients
            || g.mirror[ip].entry.keyId in PendingKeys(g.phase) || ip in PendingIps(g.phase))
    && (g.phase.Verified? ==> g.phase.client.keyId in g.clients)
    && (g.phase.Stamped? || g.phase.KernelWritten? ==> g.phase.backing.client.keyId in g.clients)
  }

  /** The steps of an accept: verified, stamped, written to the kernel, then to the mirror. */
  predicate AcceptStep(a: Action) {
    a.VerifyOk? || a.StampExpiry? || a.KernelInsert? || a.MirrorInsert?
  }

  /** The steps of a purge or a reap. */
  predicate RemovalStep(a: Action) {
    a.PurgeCollect? || a.ReapCollect? || a.TakeLock? || a.KernelRemove? || a.MirrorRemove? || a.ReleaseLock?
  }

  lemma AcceptAgreement(g: Gate, a: Action, g': Gate)
    requires Agreement(g) && Next(g, a, g') && AcceptStep(a)
    ensures Agreement(g')
  {
  }

  lemma RemovalAgreement(g: Gate, a: Action, g': Gate)
    requires Agreement(g) && Next(g, a, g') && RemovalStep(a)
    ensures Agreement(g')
  {
  }

  lemma NextAgreement(g: Gate, a: Action, g': Gate)
    requires Agreement(g) && Next(g, a, g')
    ensures Agreement(g')
  {
    if AcceptStep(a) {
      AcceptAgreement(g, a, g');
    } else if RemovalStep(a) {
      RemovalAgreement(g, a, g');
    }
  }

  lemma AcceptMirrorBacked(g: Gate, a: Action, g': Gate)
    requires MirrorBacked(g) && Next(g, a, g') && AcceptStep(a)
    ensures MirrorBacked(g')
  {
  }

  lemma RemovalMirrorBacked(g: Gate, a: Action, g': Gate)
    requires MirrorBacked(g) && Next(g, a, g') && RemovalStep(a)
    ensures MirrorBacked(g')
  {
  }

  lemma NextMirrorBacked(g: Gate, a: Action, g': Gate)
    requires MirrorBacked(g) && Next(g, a, g')
    ensures MirrorBacked(g')
  {
    if AcceptStep(a) {
      AcceptMirrorBacked(g, a, g');
    } else if RemovalStep(a) {
      RemovalMirrorBacked(g, a, g');
    }
  }

  /** Only a passed check of the proxy records a connection. */
  lemma ConnStep(g: Gate, a: Action, g': Gate)
    requires Next(g, a, g')
    ensures g'.ttlSeconds == g.ttlSeconds
    ensures g'.conns == g.conns
            || (a.ProxyCheck? && a.ip in g.mirror && g.mirror[a.ip].entry.expiryNs > g.nowNs
                && g'.conns == g.conns + [Conn(a.ip, g.nowNs, g.mirror[a.ip], LatestFor(g, a.ip))])
  {
  }

  lemma CheckedBacked(g: Gate, ip: Ip)
    requires MirrorBacked(g) && ip in g.mirror && g.mirror[ip].entry.expiryNs > g.nowNs
    ensures ConnBacked(Conn(ip, g.nowNs, g.mirror[ip], LatestFor(g, ip)), g.ttlSeconds)
  {
    assert Backs(g.latest[ip], g.mirror[ip], g.ttlSeconds);
  }

  lemma NextConnsBacked(g: Gate, a: Action, g': Gate)
    requires MirrorBacked(g) && ConnsBacked(g) && Next(g, a, g')
    ensures ConnsBacked(g')
  {
    ConnStep(g, a, g');
    if g'.conns != g.conns {
      CheckedBacked(g, a.ip);
    }
  }

  lemma InsertEnrolled(g: Gate, a: Action, g': Gate)
    requires Enrolled(g) && Next(g, a, g') && a.MirrorInsert?
    ensures Enrolled(g')
  {
  }

  lemma AcceptEnrolled(g: Gate, a: Action, g': Gate)
    requires Enrolled(g) && Next(g, a, g') && AcceptStep(a)
    ensures Enrolled(g')
  {
    if a.MirrorInsert? {
      InsertEnrolled(g, a, g');
    }
  }

  lemma CollectEnrolled(g: Gate, a: Action, g': Gate)
    requires Enrolled(g) && Next(g, a, g') && (a.PurgeCollect? || a.ReapCollect? || a.TakeLock?)
    ensures Enrolled(g')
  {
  }

  lemma RemovalEnrolled(g: Gate, a: Action, g': Gate)
    requires Enrolled(g) && Next(g, a, g') && RemovalStep(a)
    ensures Enrolled(g')
  {
    if a.PurgeCollect? || a.ReapCollect? || a.TakeLock? {
      CollectEnrolled(g, a, g');
    }
  }

  lemma NextEnrolled(g: Gate, a: Action, g': Gate)
    requires Enrolled(g) && Next(g, a, g')
    ensures Enrolled(g')
  {
    if AcceptStep(a) {
      AcceptEnrolled(g, a, g');
    } else if RemovalStep(a) {
      RemovalEnrolled(g, a, g');
    } else if a.Reload? {
      ByKeyKeyed(a.list);
    }
  }

  lemma {:induction false} RunKeeps(gs: seq<Gate>, acts: seq<Action>)
    requires IsRun(gs, acts)
    ensures var g := gs[|acts|]; Agreement(g) && MirrorBacked(g) && ConnsBacked(g) && Enrolled(g)
    decreases |acts|
  {
    var n := |acts|;
    if n == 0 {
      var list :| gs[0].clients == ByKey(list);
      ByKeyKeyed(list);
    } else {
      RunKeeps(gs[..n], acts[..n - 1]);
      NextAgreement(gs[n - 1], acts[n - 1], gs[n]);
      NextMirrorBacked(gs[n - 1], acts[n - 1], gs[n]);
      NextConnsBacked(gs[n - 1], acts[n - 1], gs[n]);
      NextEnrolled(gs[n - 1], acts[n - 1], gs[n]);
    }
  }

  // ---- the three promises -----------------------------------------------------------------

  /** In every run, whenever no `allow_source` is between its two writes, every unexpired
      kernel entry is the mirror's entry for that address; while one is, every other address
      still agrees. A purge or reap that fails midway is no exception. */
  lemma MapsAgree(gs: seq<Gate>, acts: seq<Action>, ip: Ip)
    requires IsRun(gs, acts)
    requires var g := gs[|acts|]; ip in g.kernel && g.kernel[ip].expiryNs > g.nowNs && ip !in Gap(g.phase)
    ensures var g := gs[|acts|]; ip in g.mirror && g.mirror[ip].entry == g.kernel[ip]
  {
    RunKeeps(gs, acts);
  }

  /** `verify_client_noise_static` against the copy taken at the expiry check. */
  predicate StaticMatches(c: Conn, remoteStatic: Option<seq<byte>>) {
    remoteStatic == Some(c.source.noisePublicKey)
  }

  /** In every run, whenever a still-running `run_spa` is at a loop head, every mirror entry
      belongs to a currently enrolled key. */
  lemma RevokedKeysGone(gs: seq<Gate>, acts: seq<Action>, ip: Ip)
    requires IsRun(gs, acts) && gs[|acts|].phase.Idle? && ip in gs[|acts|].mirror
    ensures gs[|acts|].mirror[ip].entry.keyId in gs[|acts|].clients
  {
    RunKeeps(gs, acts);
  }
}
