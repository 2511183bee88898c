/** Admitted connections traced back through a run: to the proxy's check, the accept that was
    the latest for the address then, and the client table that accept was checked against. */
module AllowGateHistory {
  import opened Bytes
  import SpaVerifier
  import opened AllowGate

  /** At step k a packet from the address was verified for this client, enrolled at that moment. */
  ghost predicate VerifiedAt(gs: seq<Gate>, acts: seq<Action>, k: nat, ip: Ip, client: SpaVerifier.Client)
    requires |gs| == |acts| + 1
  {
    && k < |acts| && acts[k].VerifyOk? && acts[k].ip == ip
    && acts[k].key in gs[k].clients && gs[k].clients[acts[k].key] == client
  }

  /** At step s its expiry was stamped. */
  ghost predicate StampedAt(gs: seq<Gate>, acts: seq<Action>, k: nat, s: nat, ip: Ip, b: Backing)
    requires |gs| == |acts| + 1
  {
    VerifiedAt(gs, acts, k, ip, b.client) && k < s < |acts| && acts[s].StampExpiry? && gs[s].nowNs == b.at
  }

  /** At step m its mirror write completed it. */
  ghost predicate AcceptedAt(gs: seq<Gate>, acts: seq<Action>, k: nat, s: nat, m: nat, ip: Ip, b: Backing)
    requires |gs| == |acts| + 1
  {
    StampedAt(gs, acts, k, s, ip, b) && s < m < |acts| && acts[m].MirrorInsert? && gs[m].phase == KernelWritten(ip, b)
  }

  /** Between m and n no other accept for the address was completed. */
  ghost predicate NoneSince(gs: seq<Gate>, acts: seq<Action>, m: nat, n: nat, ip: Ip)
    requires |gs| == |acts| + 1 && n <= |acts|
  {
    forall i :: m < i < n && acts[i].MirrorInsert? && gs[i].phase.KernelWritten? ==> gs[i].phase.ip != ip
  }

  ghost predicate PhaseTraced(gs: seq<Gate>, acts: seq<Action>, n: nat)
    requires |gs| == |acts| + 1 && n <= |acts|
  {
    match gs[n].phase
    case Verified(ip, client) => exists k: nat :: k < n && VerifiedAt(gs, acts, k, ip, client)
    case Stamped(ip, b) => exists k: nat, s: nat :: s < n && StampedAt(gs, acts, k, s, ip, b)
    case KernelWritten(ip, b) => exists k: nat, s: nat :: s < n && StampedAt(gs, acts, k, s, ip, b)
    case _ => true
  }

  lemma {:induction false} PhasesTraced(gs: seq<Gate>, acts: seq<Action>, n: nat)
    requires IsRun(gs, acts) && n <= |acts|
    ensures PhaseTraced(gs, acts, n)
  {
    if n > 0 {
      PhasesTraced(gs, acts, n - 1);
      assert Next(gs[n - 1], acts[n - 1], gs[n]);
      PhaseStep(gs, acts, n - 1);
    }
  }

  lemma PhaseStep(gs: seq<Gate>, acts: seq<Action>, n: nat)
    requires |gs| == |acts| + 1 && n < |acts| && Next(gs[n], acts[n], gs[n + 1]) && PhaseTraced(gs, acts, n)
    ensures PhaseTraced(gs, acts, n + 1)
  {
    match gs[n + 1].phase
    case Verified(ip, client) =>
      if acts[n].VerifyOk? {
        assert VerifiedAt(gs, acts, n, ip, client);
      }
    case Stamped(ip, b) =>
      if acts[n].StampExpiry? {
        var k: nat :| k < n && VerifiedAt(gs, acts, k, ip, b.client);
        assert StampedAt(gs, acts, k, n, ip, b);
      }
    case _ =>
  }

  /** The latest accept for an address was completed at some step, and none since. */
  ghost predicate LatestTraced(gs: seq<Gate>, acts: seq<Action>, n: nat, ip: Ip)
    requires |gs| == |acts| + 1 && n <= |acts|
  {
    ip in gs[n].latest ==>
      exists k: nat, s: nat, m: nat ::
        m < n && AcceptedAt(gs, acts, k, s, m, ip, gs[n].latest[ip]) && NoneSince(gs, acts, m, n, ip)
  }

  lemma LatestStep(g: Gate, a: Action, g': Gate, ip: Ip)
    requires Next(g, a, g') && ip in g'.latest
    ensures if a.MirrorInsert? && g.phase.ip == ip
            then g.phase == KernelWritten(ip, g'.latest[ip])
            else ip in g.latest && g'.latest[ip] == g.latest[ip] && (a.MirrorInsert? ==> g.phase.KernelWritten?)
  {
  }

  lemma LatestInserted(gs: seq<Gate>, acts: seq<Action>, n: nat, ip: Ip)
    requires |gs| == |acts| + 1 && n < |acts| && PhaseTraced(gs, acts, n) && acts[n].MirrorInsert?
    requires ip in gs[n + 1].latest && gs[n].phase == KernelWritten(ip, gs[n + 1].latest[ip])
    ensures LatestTraced(gs, acts, n + 1, ip)
  {
    var b := gs[n].phase.backing;
    var k: nat, s: nat :| s < n && StampedAt(gs, acts, k, s, ip, b);
    assert AcceptedAt(gs, acts, k, s, n, ip, b) && NoneSince(gs, acts, n, n + 1, ip);
  }

  lemma LatestCarried(gs: seq<Gate>, acts: seq<Action>, n: nat, ip: Ip)
    requires |gs| == |acts| + 1 && n < |acts| && LatestTraced(gs, acts, n, ip)
    requires ip in gs[n].latest && ip in gs[n + 1].latest && gs[n + 1].latest[ip] == gs[n].latest[ip]
    requires acts[n].MirrorInsert? ==> gs[n].phase.KernelWritten? && gs[n].phase.ip != ip
    ensures LatestTraced(gs, acts, n + 1, ip)
  {
    var k: nat, s: nat, m: nat :| m < n && AcceptedAt(gs, acts, k, s, m, ip, gs[n].latest[ip]) &&
        NoneSince(gs, acts, m, n, ip);
    assert NoneSince(gs, acts, m, n + 1, ip);
  }

  lemma LatestNext(gs: seq<Gate>, acts: seq<Action>, n: nat, ip: Ip)
    requires |gs| == |acts| + 1 && n < |acts| && Next(gs[n], acts[n], gs[n + 1])
    requires PhaseTraced(gs, acts, n) && LatestTraced(gs, acts, n, ip)
    ensures LatestTraced(gs, acts, n + 1, ip)
  {
    if ip in gs[n + 1].latest {
      LatestStep(gs[n], acts[n], gs[n + 1], ip);
      if acts[n].MirrorInsert? && gs[n].phase.ip == ip {
        LatestInserted(gs, acts, n, ip);
      } else {
        LatestCarried(gs, acts, n, ip);
      }
    }
  }

  /** From step n on, an address's accepts stay traced. */
  ghost predicate KeepsTraced(gs: seq<Gate>, acts: seq<Action>, n: nat, ip: Ip)
    requires |gs| == |acts| + 1 && n < |acts|
  {
    LatestTraced(gs, acts, n, ip) ==> LatestTraced(gs, acts, n + 1, ip)
  }

  lemma RunKeepsTraced(gs: seq<Gate>, acts: seq<Action>, n: nat, ip: Ip)
    requires IsRun(gs, acts) && n < |acts|
    ensures KeepsTraced(gs, acts, n, ip)
  {
    PhasesTraced(gs, acts, n);
    if LatestTraced(gs, acts, n, ip) {
      LatestNext(gs, acts, n, ip);
    }
  }

  lemma {:induction false} TracedByThen(gs: seq<Gate>, acts: seq<Action>, n: nat, ip: Ip)
    requires |gs| == |acts| + 1 && n <= |acts| && gs[0].latest == map[]
    requires forall i: nat :: i < |acts| ==> KeepsTraced(gs, acts, i, ip)
    ensures LatestTraced(gs, acts, n, ip)
  {
    if n > 0 {
      TracedByThen(gs, acts, n - 1, ip);
      assert KeepsTraced(gs, acts, n - 1, ip);
    }
  }

  lemma {:induction false} LatestIsTraced(gs: seq<Gate>, acts: seq<Action>, n: nat, ip: Ip)
    requires IsRun(gs, acts) && n <= |acts|
    ensures LatestTraced(gs, acts, n, ip)
  {
    forall i: nat | i < |acts|
      ensures KeepsTraced(gs, acts, i, ip)
    {
      RunKeepsTraced(gs, acts, i, ip);
    }
    TracedByThen(gs, acts, n, ip);
  }

  /** The connection was recorded by the proxy's check at step q. */
  ghost predicate CheckedAt(gs: seq<Gate>, acts: seq<Action>, q: nat, c: Conn)
    requires |gs| == |acts| + 1
  {
    && q < |acts| && acts[q] == ProxyCheck(c.ip) && gs[q].nowNs == c.at
    && c.ip in gs[q].mirror && gs[q].mirror[c.ip] == c.source && c.backing == LatestFor(gs[q], c.ip)
  }

  lemma {:induction false} ConnChecked(gs: seq<Gate>, acts: seq<Action>, n: nat, i: nat) returns (q: nat)
    requires IsRun(gs, acts) && n <= |acts| && i < |gs[n].conns|
    ensures q < n && CheckedAt(gs, acts, q, gs[n].conns[i])
    decreases n
  {
    assert n > 0;
    ConnStep(gs[n - 1], acts[n - 1], gs[n]);
    if i < |gs[n - 1].conns| {
      q := ConnChecked(gs, acts, n - 1, i);
    } else {
      q := n - 1;
    }
  }

  /** In every run, a connection that passes the expiry check at time t and the static-key check
      was checked at some step q, and the latest accept for its address then was verified at a
      step k for a client that was enrolled at k, stamped at t0 with t0 <= t < t0 + ttl, and
      completed at m with none for the address between m and q; and the connection has that
      client's key and that client's Noise key. */
  lemma ConnectionsBacked(gs: seq<Gate>, acts: seq<Action>, i: nat, remoteStatic: Option<seq<byte>>)
    returns (k: nat, s: nat, m: nat, q: nat)
    requires IsRun(gs, acts) && i < |gs[|acts|].conns| && StaticMatches(gs[|acts|].conns[i], remoteStatic)
    ensures var c, ttlNs := gs[|acts|].conns[i], gs[|acts|].ttlSeconds * 1_000_000_000;
            && k < s < m < q < |acts|
            && CheckedAt(gs, acts, q, c) && gs[q].nowNs == c.at
            && acts[k].VerifyOk? && acts[k].ip == c.ip && acts[k].key in gs[k].clients
            && acts[s].StampExpiry? && gs[s].nowNs <= c.at < gs[s].nowNs + ttlNs
            && acts[m].MirrorInsert? && gs[m].phase.KernelWritten? && gs[m].phase.ip == c.ip
            && NoneSince(gs, acts, m, q, c.ip)
            && var client := gs[k].clients[acts[k].key];
               && c.backing == Some(Backing(gs[s].nowNs, client))
               && c.source.entry.keyId == client.keyId && remoteStatic == Some(client.noisePublicKey)
  {
    var c := gs[|acts|].conns[i];
    q := ConnChecked(gs, acts, |acts|, i);
    RunKeeps(gs, acts);
    assert ConnBacked(c, gs[|acts|].ttlSeconds);
    LatestIsTraced(gs, acts, q, c.ip);
    k, s, m :| m < q && AcceptedAt(gs, acts, k, s, m, c.ip, gs[q].latest[c.ip]) && NoneSince(gs, acts, m, q, c.ip);
  }
}
