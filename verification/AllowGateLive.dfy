/** What the gate keeps: an unexpired entry of an enrolled client stays in both maps until a newer
    accept for its address takes its place. Reaps and purges never take it. */
module AllowGateLive {
  import opened Bytes
  import opened AllowGate

  /** Keys still to be purged are not enrolled, and addresses still to be removed have run out or
      are of a key that is not enrolled. */
  ghost predicate OnlyDue(g: Gate) {
    && (forall k :: k in PendingKeys(g.phase) ==> k !in g.clients)
    && (forall ip :: ip in PendingIps(g.phase) && ip in g.mirror ==>
          g.mirror[ip].entry.expiryNs <= g.nowNs || g.mirror[ip].entry.keyId !in g.clients)
  }

  lemma AcceptDue(g: Gate, a: Action, g': Gate)
    requires OnlyDue(g) && Next(g, a, g') && AcceptStep(a)
    ensures OnlyDue(g')
  {
  }

  lemma RemovalDue(g: Gate, a: Action, g': Gate)
    requires OnlyDue(g) && Next(g, a, g') && RemovalStep(a)
    ensures OnlyDue(g')
  {
  }

  lemma NextDue(g: Gate, a: Action, g': Gate)
    requires OnlyDue(g) && Next(g, a, g')
    ensures OnlyDue(g')
  {
    if AcceptStep(a) {
      AcceptDue(g, a, g');
    } else if RemovalStep(a) {
      RemovalDue(g, a, g');
    }
  }

  lemma {:induction false} RunDue(gs: seq<Gate>, acts: seq<Action>, n: nat)
    requires IsRun(gs, acts) && n <= |acts|
    ensures OnlyDue(gs[n])
  {
    if n > 0 {
      RunDue(gs, acts, n - 1);
      NextDue(gs[n - 1], acts[n - 1], gs[n]);
    }
  }

  /** The entry is unexpired and its key is enrolled. */
  predicate Live(g: Gate, entry: AllowEntry) {
    entry.expiryNs > g.nowNs && entry.keyId in g.clients
  }

  /** The step completes, in the mirror or in the kernel, an accept for the address. */
  predicate Accepts(g: Gate, a: Action, ip: Ip) {
    (a.MirrorInsert? && g.phase.KernelWritten? && g.phase.ip == ip)
    || (a.KernelInsert? && g.phase.Stamped? && g.phase.ip == ip)
  }

  lemma MirrorStays(g: Gate, a: Action, g': Gate, ip: Ip)
    requires OnlyDue(g) && Next(g, a, g') && !Accepts(g, a, ip)
    requires ip in g.mirror && Live(g, g.mirror[ip].entry)
    ensures ip in g'.mirror && g'.mirror[ip] == g.mirror[ip]
  {
  }

  lemma KernelStays(g: Gate, a: Action, g': Gate, ip: Ip)
    requires OnlyDue(g) && Agreement(g) && Next(g, a, g') && !Accepts(g, a, ip) && a != KernelEvict(ip)
    requires ip in g.kernel && Live(g, g.kernel[ip]) && ip !in Gap(g.phase)
    ensures ip in g'.kernel && g'.kernel[ip] == g.kernel[ip]
  {
  }

  /** Nobody is between the two writes of an accept for the address but by a kernel write. */
  lemma GapOpens(g: Gate, a: Action, g': Gate, ip: Ip)
    requires Next(g, a, g') && !Accepts(g, a, ip) && ip !in Gap(g.phase)
    ensures ip !in Gap(g'.phase)
  {
  }

  /** From step n to step m the entry is live, and no accept for the address is completed. */
  ghost predicate LiveUntil(gs: seq<Gate>, acts: seq<Action>, n: nat, m: nat, ip: Ip, entry: AllowEntry)
    requires |gs| == |acts| + 1 && m <= |acts|
  {
    forall i: nat :: n <= i < m ==> Live(gs[i], entry) && !Accepts(gs[i], acts[i], ip)
  }

  lemma {:induction false} AgreementAt(gs: seq<Gate>, acts: seq<Action>, n: nat)
    requires IsRun(gs, acts) && n <= |acts|
    ensures Agreement(gs[n])
  {
    RunKeeps(gs[..n + 1], acts[..n]);
  }

  ghost predicate InMirror(g: Gate, ip: Ip, source: AllowedSource) {
    ip in g.mirror && g.mirror[ip] == source
  }

  /** The kernel has this entry, and no accept for the address is between its writes. */
  ghost predicate InKernel(g: Gate, ip: Ip, entry: AllowEntry) {
    ip in g.kernel && g.kernel[ip] == entry && ip !in Gap(g.phase)
  }

  ghost predicate MirrorStep(gs: seq<Gate>, i: nat, ip: Ip, source: AllowedSource)
    requires i + 1 < |gs|
  {
    InMirror(gs[i], ip, source) ==> InMirror(gs[i + 1], ip, source)
  }

  ghost predicate KernelStep(gs: seq<Gate>, i: nat, ip: Ip, entry: AllowEntry)
    requires i + 1 < |gs|
  {
    InKernel(gs[i], ip, entry) ==> InKernel(gs[i + 1], ip, entry)
  }

  lemma RunMirrorStep(gs: seq<Gate>, acts: seq<Action>, i: nat, ip: Ip, source: AllowedSource)
    requires IsRun(gs, acts) && i < |acts| && Live(gs[i], source.entry) && !Accepts(gs[i], acts[i], ip)
    ensures MirrorStep(gs, i, ip, source)
  {
    RunDue(gs, acts, i);
    if InMirror(gs[i], ip, source) {
      MirrorStays(gs[i], acts[i], gs[i + 1], ip);
    }
  }

  lemma RunKernelStep(gs: seq<Gate>, acts: seq<Action>, i: nat, ip: Ip, entry: AllowEntry)
    requires IsRun(gs, acts) && i < |acts| && Live(gs[i], entry) && !Accepts(gs[i], acts[i], ip)
    requires acts[i] != KernelEvict(ip)
    ensures KernelStep(gs, i, ip, entry)
  {
    RunDue(gs, acts, i);
    AgreementAt(gs, acts, i);
    if InKernel(gs[i], ip, entry) {
      KernelStays(gs[i], acts[i], gs[i + 1], ip);
      GapOpens(gs[i], acts[i], gs[i + 1], ip);
    }
  }

  lemma {:induction false} MirrorByThen(gs: seq<Gate>, n: nat, m: nat, ip: Ip, source: AllowedSource)
    requires n <= m < |gs| && InMirror(gs[n], ip, source)
    requires forall i: nat :: n <= i < m ==> MirrorStep(gs, i, ip, source)
    ensures InMirror(gs[m], ip, source)
    decreases m
  {
    if m > n {
      MirrorByThen(gs, n, m - 1, ip, source);
      assert MirrorStep(gs, m - 1, ip, source);
    }
  }

  lemma {:induction false} KernelByThen(gs: seq<Gate>, n: nat, m: nat, ip: Ip, entry: AllowEntry)
    requires n <= m < |gs| && InKernel(gs[n], ip, entry)
    requires forall i: nat :: n <= i < m ==> KernelStep(gs, i, ip, entry)
    ensures InKernel(gs[m], ip, entry)
    decreases m
  {
    if m > n {
      KernelByThen(gs, n, m - 1, ip, entry);
      assert KernelStep(gs, m - 1, ip, entry);
    }
  }

  /** In every run, whatever is reaped, purged, checked or evicted meanwhile, an unexpired mirror
      entry of an enrolled client stays as it is until a newer accept for its address. */
  lemma {:induction false} MirrorKept(gs: seq<Gate>, acts: seq<Action>, n: nat, m: nat, ip: Ip, source: AllowedSource)
    requires IsRun(gs, acts) && n <= m <= |acts| && InMirror(gs[n], ip, source)
    requires LiveUntil(gs, acts, n, m, ip, source.entry)
    ensures InMirror(gs[m], ip, source)
  {
    forall i: nat | n <= i < m
      ensures MirrorStep(gs, i, ip, source)
    {
      assert Live(gs[i], source.entry) && !Accepts(gs[i], acts[i], ip);
      RunMirrorStep(gs, acts, i, ip, source);
    }
    MirrorByThen(gs, n, m, ip, source);
  }

  /** And so does its kernel entry, unless the kernel evicts it. */
  lemma {:induction false} KernelKept(gs: seq<Gate>, acts: seq<Action>, n: nat, m: nat, ip: Ip, entry: AllowEntry)
    requires IsRun(gs, acts) && n <= m <= |acts| && InKernel(gs[n], ip, entry)
    requires LiveUntil(gs, acts, n, m, ip, entry)
    requires forall i: nat :: n <= i < m ==> acts[i] != KernelEvict(ip)
    ensures InKernel(gs[m], ip, entry)
  {
    forall i: nat | n <= i < m
      ensures KernelStep(gs, i, ip, entry)
    {
      assert Live(gs[i], entry) && !Accepts(gs[i], acts[i], ip);
      RunKernelStep(gs, acts, i, ip, entry);
    }
    KernelByThen(gs, n, m, ip, entry);
  }
}
