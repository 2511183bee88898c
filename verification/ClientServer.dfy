/** The client's counters at the server: packets that nothing but their counter could keep out
    are accepted one after the other exactly when the counters pass the abstract check. */
module ClientServer {
  import opened Bytes
  import opened KeyHex
  import opened SpaVerifier
  import Client = ClientCounter

  datatype Arrival = Arrival(payload: seq<byte>, src: seq<byte>, nowMs: nat)

  /** Every arrival passes `verify`'s checks, the counters moving as each is accepted. */
  ghost predicate AllAccepted(site: Site, clients: Clients, highest: Counters, arrivals: seq<Arrival>)
    decreases |arrivals|
  {
    arrivals == [] ||
    match Examine(site, clients, highest, arrivals[0].payload, arrivals[0].src, arrivals[0].nowMs)
    case Fresh(p, _) => AllAccepted(site, clients, highest[p.keyId := p.counter], arrivals[1..])
    case Stale(_) => false
  }

  /** The arrival is a packet of this key with this counter, entitled when it arrives. */
  ghost predicate Carries(site: Site, clients: Clients, key: KeyId, a: Arrival, counter: nat) {
    exists p, c :: Entitled(site, clients, a.payload, a.src, a.nowMs, p, c) && p.keyId == key && p.counter == counter
  }

  ghost predicate AllCarry(site: Site, clients: Clients, key: KeyId, arrivals: seq<Arrival>, counters: seq<nat>) {
    |arrivals| == |counters| && forall i :: 0 <= i < |arrivals| ==>
      Carries(site, clients, key, arrivals[i], counters[i])
  }

  lemma OneAccepted(site: Site, clients: Clients, highest: Counters, key: KeyId, a: Arrival, counter: nat)
    requires Carries(site, clients, key, a, counter)
    ensures var r := Examine(site, clients, highest, a.payload, a.src, a.nowMs);
            && (r.Fresh? <==> counter > CounterOf(highest, key))
            && (r.Fresh? ==> r.packet.keyId == key && r.packet.counter == counter)
  {
    var p, c :| Entitled(site, clients, a.payload, a.src, a.nowMs, p, c) && p.keyId == key && p.counter == counter;
    var r := Examine(site, clients, highest, a.payload, a.src, a.nowMs);
    assert r == Fresh(p, c) <==> Authorises(site, clients, highest, a.payload, a.src, a.nowMs, p, c);
    if r.Fresh? {
      assert Authorises(site, clients, highest, a.payload, a.src, a.nowMs, r.packet, r.client);
    }
  }

  lemma {:induction false} AcceptedIffPass(site: Site, clients: Clients, highest: Counters, key: KeyId,
                                           arrivals: seq<Arrival>, counters: seq<nat>)
    requires AllCarry(site, clients, key, arrivals, counters)
    ensures AllAccepted(site, clients, highest, arrivals) <==> Client.AllPass(CounterOf(highest, key), counters)
    decreases |arrivals|
  {
    if arrivals != [] {
      OneAccepted(site, clients, highest, key, arrivals[0], counters[0]);
      AcceptedIffPass(site, clients, highest[key := counters[0]], key, arrivals[1..], counters[1..]);
    }
  }

  /** With an advancing clock the server accepts whichever of a client's packets arrive, in
      issue order, however often the client lost or restored its counter file. */
  lemma AdvancingClientAccepted(site: Site, clients: Clients, highest: Counters, key: KeyId, arrivals: seq<Arrival>,
                                c0: nat, floors: seq<nat>, back: seq<Option<nat>>, which: seq<nat>)
    requires Client.Clock(floors) && Client.Increasing(floors) && (floors != [] ==> c0 < floors[0])
    requires Client.Older(c0, floors, back) && Client.Positions(which, |floors|)
    requires floors != [] ==> CounterOf(highest, key) < floors[0]
    requires AllCarry(site, clients, key, arrivals, Client.Select(Client.IssuedLossy(c0, floors, back), which))
    ensures AllAccepted(site, clients, highest, arrivals)
  {
    Client.AdvancingClockPasses(c0, floors, CounterOf(highest, key), back, which);
    AcceptedIffPass(site, clients, highest, key, arrivals, Client.Select(Client.IssuedLossy(c0, floors, back), which));
  }
}
