/** The verifier with per-key high-water counters, write-then-accept persistence, and its
    behaviour across reloads, failed saves, crashes and restarts. */
module SpaVerifier {
  import opened Bytes
  import opened KeyHex
  import opened SpaPacket

  datatype ClientTier = Full | Decoy

  datatype Client = Client(
    name: string,
    publicKey: seq<byte>,
    noisePublicKey: seq<byte>,
    keyId: KeyId,
    clientId: nat,
    tier: ClientTier,
    maxSessions: Option<nat>)

  datatype Accept = Accept(
    keyId: KeyId,
    clientId: nat,
    name: string,
    noisePublicKey: seq<byte>,
    mode: SpaMode,
    counter: nat,
    maxSessions: Option<nat>)

  datatype VerifyError =
    | ParseFailed(cause: SpaError)
    | UnknownKey(keyId: KeyId)
    | UnauthorizedTier(name: string)
    | TimestampOutsideWindow
    | SourceIpMismatch
    | ReplayedCounter
    | PersistFailed

  datatype Verdict = Granted(accept: Accept) | Denied(error: VerifyError)

  /** What stays fixed over a server's life, restarts included. */
  datatype Site = Site(crypto: Crypto, privateKey: seq<byte>, timeWindowMs: nat) {
    function ServerPub(): seq<byte> {
      crypto.publicOf(privateKey)
    }
  }

  type Counters = map<KeyId, nat>

  /** The table in the state file: hexadecimal text to counter. */
  type CounterFile = map<seq<byte>, nat>

  type Clients = map<KeyId, Client>

  function CounterOf(m: Counters, key: KeyId): (n: nat) {
    if key in m then m[key] else 0
  }

  // ---- one verification ------------------------------------------------------

  datatype Exam = Fresh(packet: Packet, client: Client) | Stale(error: VerifyError)

  function AbsDiff(a: nat, b: nat): (d: nat) {
    if a >= b then a - b else b - a
  }

  /** The payload opens to this packet, and the enrolled client it names has signed it. */
  ghost predicate SignedBy(site: Site, clients: Clients, payload: seq<byte>, packet: Packet, client: Client) {
    && OpenSpec(site.crypto, payload, site.privateKey) == Opened(packet)
    && packet.keyId in clients && clients[packet.keyId] == client
    && site.crypto.check(client.publicKey,
                         SignedMessage(SignedRegion(packet), packet.ephemeralPub, site.ServerPub()), packet.signature)
  }

  /** The client may be let in from this source at this time, replays aside. */
  ghost predicate Entitled(site: Site, clients: Clients,
                           payload: seq<byte>, src: seq<byte>, nowMs: nat, packet: Packet, client: Client)
  {
    && SignedBy(site, clients, payload, packet, client)
    && client.tier == Full
    && packet.timestampMs - site.timeWindowMs <= nowMs <= packet.timestampMs + site.timeWindowMs
    && (packet.usePacketSource || packet.allowIp == src)
  }

  /** The packet authorises its sender now: everything the server must have checked before
      it lets a counter move. */
  ghost predicate Authorises(site: Site, clients: Clients, highest: Counters,
                             payload: seq<byte>, src: seq<byte>, nowMs: nat, packet: Packet, client: Client)
  {
    Entitled(site, clients, payload, src, nowMs, packet, client)
    && packet.counter > CounterOf(highest, packet.keyId)
  }

  /** The checks of `verify`, in their order, up to the counter write. */
  function Examine(site: Site, clients: Clients, highest: Counters,
                   payload: seq<byte>, src: seq<byte>, nowMs: nat): (r: Exam)
    ensures forall p, c :: r == Fresh(p, c) <==> Authorises(site, clients, highest, payload, src, nowMs, p, c)
  {
    match OpenSpec(site.crypto, payload, site.privateKey)
    case Refused(e) => Stale(ParseFailed(e))
    case Opened(p) =>
      if p.keyId !in clients then Stale(UnknownKey(p.keyId))
      else
        var client := clients[p.keyId];
        if !site.crypto.check(client.publicKey,
                              SignedMessage(SignedRegion(p), p.ephemeralPub, site.ServerPub()), p.signature)
        then Stale(ParseFailed(BadSignature))
        else if client.tier != Full then Stale(UnauthorizedTier(client.name))
        else if AbsDiff(nowMs, p.timestampMs) > site.timeWindowMs then Stale(TimestampOutsideWindow)
        else if !p.usePacketSource && p.allowIp != src then Stale(SourceIpMismatch)
        else if p.counter <= CounterOf(highest, p.keyId) then Stale(ReplayedCounter)
        else Fresh(p, client)
  }

  /** A caller without an enrolled key learns nothing from a refusal: every error after the
      parse and key errors means that the named client signed the payload. A replay answer
      goes to the packets that only their counter keeps out, and to no others. */
  lemma RefusalsNeedSignature(site: Site, clients: Clients, highest: Counters,
                              payload: seq<byte>, src: seq<byte>, nowMs: nat)
    ensures var r := Examine(site, clients, highest, payload, src, nowMs);
            && (r.Stale? && !r.error.ParseFailed? && !r.error.UnknownKey? ==>
                  exists p, c :: SignedBy(site, clients, payload, p, c)
                    && (r.error.UnauthorizedTier? <==> c.tier != Full)
                    && (r.error.UnauthorizedTier? ==> r.error.name == c.name))
            && (r == Stale(ReplayedCounter) <==>
                  exists p, c :: Entitled(site, clients, payload, src, nowMs, p, c)
                    && p.counter <= CounterOf(highest, p.keyId))
  {
    match OpenSpec(site.crypto, payload, site.privateKey)
    case Refused(_) =>
    case Opened(p) =>
      if p.keyId in clients {
        var c := clients[p.keyId];
        assert SignedBy(site, clients, payload, p, c)
          <==> site.crypto.check(c.publicKey,
                                 SignedMessage(SignedRegion(p), p.ephemeralPub, site.ServerPub()), p.signature);
        assert Entitled(site, clients, payload, src, nowMs, p, c) ==> SignedBy(site, clients, payload, p, c);
      }
  }

  /** Each refusal names its reason, the first that applies. */
  lemma ReasonGiven(site: Site, clients: Clients, highest: Counters, payload: seq<byte>, src: seq<byte>, nowMs: nat)
    ensures var r := Examine(site, clients, highest, payload, src, nowMs);
            match OpenSpec(site.crypto, payload, site.privateKey)
            case Refused(e) => r == Stale(ParseFailed(e))
            case Opened(p) =>
              if p.keyId !in clients then r == Stale(UnknownKey(p.keyId))
              else
                var c := clients[p.keyId];
                var message := SignedMessage(SignedRegion(p), p.ephemeralPub, site.ServerPub());
                && (r == Stale(ParseFailed(BadSignature)) <==> !site.crypto.check(c.publicKey, message, p.signature))
                && (site.crypto.check(c.publicKey, message, p.signature) ==>
                      && (r == Stale(UnauthorizedTier(c.name)) <==> c.tier != Full)
                      && (r == Stale(TimestampOutsideWindow) <==>
                            c.tier == Full && (nowMs + site.timeWindowMs < p.timestampMs
                                               || p.timestampMs + site.timeWindowMs < nowMs))
                      && (r == Stale(SourceIpMismatch) <==>
                            && c.tier == Full && p.timestampMs <= nowMs + site.timeWindowMs
                            && nowMs <= p.timestampMs + site.timeWindowMs && !p.usePacketSource && p.allowIp != src))
  {
  }

  /** An accept tells what the packet asked for and what the client is enrolled with. */
  predicate Tells(a: Accept, p: Packet, c: Client) {
    && a.keyId == p.keyId && a.mode == p.mode && a.counter == p.counter
    && a.clientId == c.clientId && a.name == c.name
    && a.noisePublicKey == c.noisePublicKey && a.maxSessions == c.maxSessions
  }

  // ---- the counter-state file ---------------------------------------------------

  /** `save_counter_state`: hexadecimal text to counter. */
  function SaveFile(m: Counters): (file: CounterFile)
    ensures forall k :: k in m ==> KeyIdHex(k) in file && file[KeyIdHex(k)] == m[k]
    ensures forall h :: h in file ==>
              KeyIdFromHex(h).Some? && KeyIdFromHex(h).value in m
              && h == KeyIdHex(KeyIdFromHex(h).value) && file[h] == m[KeyIdFromHex(h).value]
  {
    HexKeys(m);
    map h | h in HexSet(m) :: m[KeyIdFromHex(h).value]
  }

  function HexSet(m: Counters): (hs: set<seq<byte>>) {
    set k | k in m :: KeyIdHex(k)
  }

  lemma HexKeys(m: Counters)
    ensures forall k :: k in m ==> KeyIdFromHex(KeyIdHex(k)) == Some(k)
  {
    forall k | k in m
      ensures KeyIdFromHex(KeyIdHex(k)) == Some(k)
    {
      HexRoundTrip(k);
    }
  }

  /** What loading a file may give: every text parses, and each key's counter is that of one
      of its texts (a file with two texts for one key is read in either order). */
  ghost predicate Loads(file: CounterFile, m: Counters) {
    && (forall h :: h in file ==> KeyIdFromHex(h).Some? && KeyIdFromHex(h).value in m)
    && (forall k :: k in m ==> exists h :: h in file && KeyIdFromHex(h) == Some(k) && file[h] == m[k])
  }

  lemma SavedKeyLoads(m: Counters, loaded: Counters, k: KeyId)
    requires Loads(SaveFile(m), loaded)
    ensures k in loaded <==> k in m
    ensures k in loaded ==> loaded[k] == m[k]
  {
    var file := SaveFile(m);
    if k in loaded {
      var h :| h in file && KeyIdFromHex(h) == Some(k) && file[h] == loaded[k];
    }
    if k in m {
      HexRoundTrip(k);
      assert KeyIdHex(k) in file;
    }
  }

  lemma SavedFileLoads(m: Counters)
    ensures Loads(SaveFile(m), m)
  {
    var file := SaveFile(m);
    forall k | k in m
      ensures exists h :: h in file && KeyIdFromHex(h) == Some(k) && file[h] == m[k]
    {
      HexRoundTrip(k);
      assert KeyIdHex(k) in file;
    }
  }

  /** Loading a saved file gives back exactly the saved counters. */
  lemma SaveLoadRoundTrip(m: Counters, loaded: Counters)
    ensures Loads(SaveFile(m), loaded) <==> loaded == m
  {
    SavedFileLoads(m);
    if Loads(SaveFile(m), loaded) {
      forall k: KeyId
        ensures k in loaded <==> k in m
        ensures k in loaded ==> loaded[k] == m[k]
      {
        SavedKeyLoads(m, loaded, k);
      }
    }
  }

  /** The loop of `load_counter_state` over the parsed table, in any order. */
  method LoadCounterState(file: CounterFile) returns (loaded: Option<Counters>)
    ensures loaded.Some? ==> Loads(file, loaded.value)
    ensures loaded == None <==> exists h :: h in file && KeyIdFromHex(h) == None
  {
    var m: Counters := map[];
    var todo := file.Keys;
    while todo != {}
      invariant todo <= file.Keys
      invariant forall h :: h in file && h !in todo ==> KeyIdFromHex(h).Some? && KeyIdFromHex(h).value in m
      invariant forall k :: k in m ==> exists h :: h in file && KeyIdFromHex(h) == Some(k) && file[h] == m[k]
      decreases |todo|
    {
      var h :| h in todo;
      var key := DecodeKeyId(h);
      if key == None {
        return None;
      }
      m := m[key.value := file[h]];
      todo := todo - {h};
    }
    return Some(m);
  }

  // ---- the verifier object ---------------------------------------------------------

  /** Clients by key; of two with one key, the later wins. */
  function ByKey(list: seq<Client>): (m: Clients) {
    if list == [] then map[]
    else ByKey(list[..|list| - 1])[list[|list| - 1].keyId := list[|list| - 1]]
  }

  predicate Lists(list: seq<Client>, key: KeyId) {
    exists i :: 0 <= i < |list| && list[i].keyId == key
  }

  /** The i-th client is the last of the list with its key. */
  predicate LastOfKey(list: seq<Client>, i: nat) {
    i < |list| && forall j :: i < j < |list| ==> list[j].keyId != list[i].keyId
  }

  /** The table has exactly the keys of the list, each with the last client that has it. */
  ghost predicate Enrols(clients: Clients, list: seq<Client>) {
    && (forall k :: k in clients <==> Lists(list, k))
    && (forall i: nat :: LastOfKey(list, i) ==> list[i].keyId in clients && clients[list[i].keyId] == list[i])
  }

  lemma ListsMore(list: seq<Client>, key: KeyId)
    requires list != []
    ensures Lists(list, key) <==> Lists(list[..|list| - 1], key) || list[|list| - 1].keyId == key
  {
    var init := list[..|list| - 1];
    if Lists(init, key) {
      var i :| 0 <= i < |init| && init[i].keyId == key;
      assert list[i].keyId == key;
    }
    if Lists(list, key) && list[|list| - 1].keyId != key {
      var i :| 0 <= i < |list| && list[i].keyId == key;
      assert init[i].keyId == key;
    }
  }

  lemma {:induction false} ByKeyEnrols(list: seq<Client>)
    ensures Enrols(ByKey(list), list)
  {
    if list != [] {
      var init := list[..|list| - 1];
      ByKeyEnrols(init);
      forall k: KeyId
        ensures k in ByKey(list) <==> Lists(list, k)
      {
        ListsMore(list, k);
      }
      forall i: nat | LastOfKey(list, i)
        ensures list[i].keyId in ByKey(list) && ByKey(list)[list[i].keyId] == list[i]
      {
        if i < |init| {
          assert LastOfKey(init, i) && list[|list| - 1].keyId != list[i].keyId;
        }
      }
    }
  }

  /** The counter-state path: what the last successful rename put there, if anything. */
  class StateFile {
    var contents: Option<CounterFile>

    constructor (contents: Option<CounterFile>)
      ensures this.contents == contents
    {
      this.contents := contents;
    }
  }

  class Verifier {
    const site: Site
    const file: StateFile?
    var clients: Clients
    var highest: Counters

    constructor (site: Site, list: seq<Client>, counters: Counters, file: StateFile?)
      ensures this.site == site && this.file == file
      ensures clients == ByKey(list) && Enrols(clients, list) && highest == counters
    {
      ByKeyEnrols(list);
      this.site, this.file, clients, highest := site, file, ByKey(list), counters;
    }

    /** `load`: a missing file stops the start unless the operator asked for a first run. */
    static method Load(site: Site, list: seq<Client>, file: StateFile, allowMissing: bool)
      returns (v: Verifier?)
      ensures v == null <==>
                match file.contents
                case None => !allowMissing
                case Some(table) => exists h :: h in table && KeyIdFromHex(h) == None
      ensures v != null ==>
                && fresh(v) && v.site == site && v.file == file
                && v.clients == ByKey(list) && Enrols(v.clients, list)
                && match file.contents
                   case None => v.highest == map[]
                   case Some(table) => Loads(table, v.highest)
    {
      if file.contents == None {
        if !allowMissing {
          return null;
        }
        v := new Verifier(site, list, map[], file);
      } else {
        var counters := LoadCounterState(file.contents.value);
        if counters == None {
          return null;
        }
        v := new Verifier(site, list, counters.value, file);
      }
    }

    /** `reload_clients`: the keys that are gone, each once, in any order. */
    method ReloadClients(list: seq<Client>) returns (removed: seq<KeyId>)
      modifies this`clients
      ensures clients == ByKey(list) && Enrols(clients, list)
      ensures forall k :: k in removed <==> k in old(clients) && !Lists(list, k)
      ensures forall i, j :: 0 <= i < j < |removed| ==> removed[i] != removed[j]
    {
      var todo := clients.Keys;
      clients := ByKey(list);
      ByKeyEnrols(list);
      removed := [];
      while todo != {}
        invariant todo <= old(clients).Keys && clients == ByKey(list)
        invariant forall k :: k in removed <==> k in old(clients) && k !in clients && k !in todo
        invariant forall i, j :: 0 <= i < j < |removed| ==> removed[i] != removed[j]
        decreases |todo|
      {
        var k :| k in todo;
        todo := todo - {k};
        if k !in clients {
          removed := removed + [k];
        }
      }
    }

    /** `verify`: only a fresh packet moves a counter; the new table is on disk before the
        answer is an accept, and after a failed save memory stays ahead of the disk. */
    method Verify(payload: seq<byte>, src: seq<byte>, nowMs: nat, saves: bool) returns (v: Verdict)
      modifies this`highest, file
      ensures match Examine(site, clients, old(highest), payload, src, nowMs)
              case Stale(e) => v == Denied(e) && highest == old(highest)
                            && (file != null ==> file.contents == old(file.contents))
              case Fresh(p, c) =>
                && highest == old(highest)[p.keyId := p.counter]
                && (file == null || saves ==> v.Granted? && Tells(v.accept, p, c))
                && (file != null && saves ==> file.contents == Some(SaveFile(highest)))
                && (file != null && !saves ==>
                      v == Denied(PersistFailed) && file.contents == old(file.contents))
    {
      var opening := Open(site.crypto, payload, site.privateKey);
      if opening.Refused? {
        return Denied(ParseFailed(opening.error));
      }
      var p := opening.packet;
      if p.keyId !in clients {
        return Denied(UnknownKey(p.keyId));
      }
      var client := clients[p.keyId];
      var signed := SpaPacket.Verify(site.crypto, p, client.publicKey, site.ServerPub());
      if !signed {
        return Denied(ParseFailed(BadSignature));
      }
      if client.tier != Full {
        return Denied(UnauthorizedTier(client.name));
      }
      if AbsDiff(nowMs, p.timestampMs) > site.timeWindowMs {
        return Denied(TimestampOutsideWindow);
      }
      if !p.usePacketSource && p.allowIp != src {
        return Denied(SourceIpMismatch);
      }
      if p.counter <= CounterOf(highest, p.keyId) {
        return Denied(ReplayedCounter);
      }
      highest := highest[p.keyId := p.counter];
      if file != null {
        if !saves {
          return Denied(PersistFailed);
        }
        file.contents := Some(SaveFile(highest));
      }
      return Granted(Accept(p.keyId, client.clientId, client.name, client.noisePublicKey, p.mode, p.counter,
                            client.maxSessions));
    }
  }

  // ---- a client of the key file is let in -------------------------------------------------

  /** The payload is from this client, meant for this server, source and time. */
  ghost predicate SentBy(site: Site, client: Client, payload: seq<byte>, src: seq<byte>, nowMs: nat, p: Packet) {
    && OpenSpec(site.crypto, payload, site.privateKey) == Opened(p) && p.keyId == client.keyId && client.tier == Full
    && site.crypto.check(client.publicKey,
                         SignedMessage(SignedRegion(p), p.ephemeralPub, site.ServerPub()), p.signature)
    && p.timestampMs - site.timeWindowMs <= nowMs <= p.timestampMs + site.timeWindowMs
    && (p.usePacketSource || p.allowIp == src)
  }

  lemma ListedIsFresh(site: Site, clients: Clients, list: seq<Client>, i: nat, highest: Counters,
                      payload: seq<byte>, src: seq<byte>, nowMs: nat, p: Packet)
    requires Enrols(clients, list) && LastOfKey(list, i) && SentBy(site, list[i], payload, src, nowMs, p)
    requires p.counter > CounterOf(highest, p.keyId)
    ensures Examine(site, clients, highest, payload, src, nowMs) == Fresh(p, list[i])
  {
    assert Authorises(site, clients, highest, payload, src, nowMs, p, list[i]);
  }

  /** A server started with a key file lets in every packet of a client of the file, the last one
      where two share a key, whose counter is above what the state file holds for the key. */
  method StartAndVerify(site: Site, list: seq<Client>, file: StateFile, allowMissing: bool,
                        payload: seq<byte>, src: seq<byte>, nowMs: nat, ghost i: nat, ghost p: Packet)
    returns (verdict: Option<Verdict>)
    requires LastOfKey(list, i) && SentBy(site, list[i], payload, src, nowMs, p)
    modifies file
    ensures verdict == None <==>
              match old(file.contents)
              case None => !allowMissing
              case Some(table) => exists h :: h in table && KeyIdFromHex(h) == None
    ensures verdict.Some? && p.counter > 0
            && (old(file.contents).Some? ==>
                  forall h :: h in old(file.contents).value && KeyIdFromHex(h) == Some(p.keyId) ==>
                    old(file.contents).value[h] < p.counter)
            ==> verdict.value.Granted? && Tells(verdict.value.accept, p, list[i])
  {
    var v := Verifier.Load(site, list, file, allowMissing);
    if v == null {
      return None;
    }
    ghost var highest := v.highest;
    if p.counter > CounterOf(highest, p.keyId) {
      ListedIsFresh(site, v.clients, list, i, highest, payload, src, nowMs, p);
    }
    var answer := v.Verify(payload, src, nowMs, true);
    return Some(answer);
  }

  // ---- whole runs, with crashes -------------------------------------------------------

  datatype Memory = Memory(clients: Clients, highest: Counters)

  /** One accept that was answered: the payload and what it carried. */
  datatype Logged = Logged(payload: seq<byte>, keyId: KeyId, counter: nat)

  /** A server that is up (or down), its disk, and every accept ever answered. The disk is
      the counters whose table the last rename put in the state file. */
  datatype World = World(memory: Option<Memory>, disk: Option<Counters>, log: seq<Logged>)

  /** How a save ends: renamed, failed before the rename, or cut by a crash on either side
      of the rename. */
  datatype Fate = Saved | SaveFails | CrashBeforeRename | CrashAfterRename

  datatype Event =
    | VerifyEvent(payload: seq<byte>, src: seq<byte>, nowMs: nat, fate: Fate)
    | ReloadEvent(list: seq<Client>)
    | CrashEvent
    | RestartEvent(list: seq<Client>, allowMissing: bool)

  ghost predicate Next(site: Site, w: World, ev: Event, w': World) {
    match ev
    case CrashEvent => w' == w.(memory := None)
    case ReloadEvent(list) =>
      w.memory.Some? && w' == w.(memory := Some(w.memory.value.(clients := ByKey(list))))
    case RestartEvent(list, allowMissing) =>
      && w.memory.None? && w'.disk == w.disk && w'.log == w.log
      && (match w.disk
          case None => w'.memory == if allowMissing then Some(Memory(ByKey(list), map[])) else None
          case Some(saved) =>
            && w'.memory.Some? && w'.memory.value.clients == ByKey(list)
            && Loads(SaveFile(saved), w'.memory.value.highest))
    case VerifyEvent(payload, src, nowMs, fate) =>
      && w.memory.Some?
      && var mem := w.memory.value;
         match Examine(site, mem.clients, mem.highest, payload, src, nowMs)
         case Stale(_) => w' == w
         case Fresh(p, c) =>
           var highest := mem.highest[p.keyId := p.counter];
           match fate
           case Saved =>
             w' == World(Some(mem.(highest := highest)), Some(highest),
                         w.log + [Logged(payload, p.keyId, p.counter)])
           case SaveFails => w' == w.(memory := Some(mem.(highest := highest)))
           case CrashBeforeRename => w' == w.(memory := None)
           case CrashAfterRename => w' == World(None, Some(highest), w.log)
  }

  // ---- the object takes the steps of the world ------------------------------------------

  ghost function TableOf(disk: Option<Counters>): (file: Option<CounterFile>) {
    if disk.Some? then Some(SaveFile(disk.value)) else None
  }

  ghost predicate Shows(v: Verifier, w: World)
    reads v, v.file
  {
    v.file != null && w.memory == Some(Memory(v.clients, v.highest)) && v.file.contents == TableOf(w.disk)
  }

  /** A call of `verify` is a step of the world, and it grants exactly when the step logs. */
  method VerifyStep(v: Verifier, ghost w: World, payload: seq<byte>, src: seq<byte>, nowMs: nat, saves: bool)
    returns (verdict: Verdict, ghost w': World)
    requires Shows(v, w)
    modifies v`highest, v.file
    ensures Shows(v, w')
    ensures Next(v.site, w, VerifyEvent(payload, src, nowMs, if saves then Saved else SaveFails), w')
    ensures verdict.Granted? ==> w'.log == w.log + [Logged(payload, verdict.accept.keyId, verdict.accept.counter)]
    ensures verdict.Denied? ==> w'.log == w.log
  {
    ghost var exam := Examine(v.site, v.clients, v.highest, payload, src, nowMs);
    verdict := v.Verify(payload, src, nowMs, saves);
    w' := w;
    if exam.Fresh? {
      w' := w.(memory := Some(Memory(v.clients, v.highest)));
      if saves {
        w' := w'.(disk := Some(v.highest), log := w.log + [Logged(payload, exam.packet.keyId, exam.packet.counter)]);
      }
    }
  }

  /** Starting from the state file is a restart of the world. */
  method RestartStep(site: Site, list: seq<Client>, file: StateFile, allowMissing: bool, ghost w: World)
    returns (v: Verifier?, ghost w': World)
    requires w.memory == None && file.contents == TableOf(w.disk)
    ensures Next(site, w, RestartEvent(list, allowMissing), w')
    ensures v == null <==> w'.memory == None
    ensures v != null ==> Shows(v, w') && v.site == site
  {
    v := Verifier.Load(site, list, file, allowMissing);
    w' := if v == null then w else w.(memory := Some(Memory(v.clients, v.highest)));
  }

  // ---- what every run keeps --------------------------------------------------------------

  ghost predicate Initial(w: World) {
    w.memory.None? && w.log == []
  }

  ghost predicate IsRun(site: Site, ws: seq<World>, evs: seq<Event>) {
    && |ws| == |evs| + 1 && Initial(ws[0])
    && forall i :: 0 <= i < |evs| ==> Next(site, ws[i], evs[i], ws[i + 1])
  }

  function DiskCounter(disk: Option<Counters>, key: KeyId): (n: nat) {
    if disk.Some? then CounterOf(disk.value, key) else 0
  }

  ghost predicate LogBelowDisk(w: World) {
    forall i :: 0 <= i < |w.log| ==> w.log[i].counter <= DiskCounter(w.disk, w.log[i].keyId)
  }

  ghost predicate DiskBelowMemory(w: World) {
    w.memory.Some? ==> forall k :: DiskCounter(w.disk, k) <= CounterOf(w.memory.value.highest, k)
  }

  ghost predicate LogIncreases(log: seq<Logged>) {
    forall i, j :: 0 <= i < j < |log| && log[i].keyId == log[j].keyId ==> log[i].counter < log[j].counter
  }

  /** last accepted <= on disk <= in memory, for every key; and the log repeats nothing. */
  ghost predicate Ordered(w: World) {
    LogBelowDisk(w) && DiskBelowMemory(w) && LogIncreases(w.log)
  }

  /** Every logged accept is what its payload opens to. */
  ghost predicate Genuine(site: Site, log: seq<Logged>) {
    forall i :: 0 <= i < |log| ==>
      match OpenSpec(site.crypto, log[i].payload, site.privateKey)
      case Opened(p) => p.keyId == log[i].keyId && p.counter == log[i].counter
      case Refused(_) => false
  }

  lemma NextOrdered(site: Site, w: World, ev: Event, w': World)
    requires Ordered(w) && Next(site, w, ev, w')
    ensures Ordered(w')
  {
    match ev
    case CrashEvent =>
    case ReloadEvent(_) =>
    case RestartEvent(_, _) =>
      if w.disk.Some? {
        SaveLoadRoundTrip(w.disk.value, w'.memory.value.highest);
      }
    case VerifyEvent(payload, src, nowMs, fate) =>
      var mem := w.memory.value;
      var exam := Examine(site, mem.clients, mem.highest, payload, src, nowMs);
      if exam.Fresh? {
        assert Authorises(site, mem.clients, mem.highest, payload, src, nowMs, exam.packet, exam.client);
        assert LogBelowDisk(w) && DiskBelowMemory(w);
      }
  }

  lemma NextGenuine(site: Site, w: World, ev: Event, w': World)
    requires Genuine(site, w.log) && Next(site, w, ev, w')
    ensures Genuine(site, w'.log)
  {
  }

  lemma {:induction false} RunOrdered(site: Site, ws: seq<World>, evs: seq<Event>)
    requires IsRun(site, ws, evs)
    ensures Ordered(ws[|evs|]) && Genuine(site, ws[|evs|].log)
    decreases |evs|
  {
    var n := |evs|;
    if n > 0 {
      RunOrdered(site, ws[..n], evs[..n - 1]);
      var w, ev, w' := ws[n - 1], evs[n - 1], ws[n];
      NextGenuine(site, w, ev, w');
      NextOrdered(site, w, ev, w');
    }
  }

  /** In every run, over any number of reloads, failed saves, crashes and restarts, accepted
      counters strictly increase per key, and no sealed core is accepted twice, whatever
      padding it comes with. */
  lemma NoReplay(site: Site, ws: seq<World>, evs: seq<Event>, i: nat, j: nat)
    requires IsRun(site, ws, evs) && i < j < |ws[|evs|].log|
    ensures var log := ws[|evs|].log;
            && (log[i].keyId == log[j].keyId ==> log[i].counter < log[j].counter)
            && log[i].payload != log[j].payload
            && |log[i].payload| >= SPA_SEALED_CORE_LEN && |log[j].payload| >= SPA_SEALED_CORE_LEN
            && log[i].payload[..SPA_SEALED_CORE_LEN] != log[j].payload[..SPA_SEALED_CORE_LEN]
  {
    RunOrdered(site, ws, evs);
    var log := ws[|evs|].log;
    var a, b := log[i].payload, log[j].payload;
    if a[..SPA_SEALED_CORE_LEN] == b[..SPA_SEALED_CORE_LEN] {
      assert a == a[..SPA_SEALED_CORE_LEN] + a[SPA_SEALED_CORE_LEN..];
      assert b == b[..SPA_SEALED_CORE_LEN] + b[SPA_SEALED_CORE_LEN..];
      PaddingIgnored(site.crypto, a[..SPA_SEALED_CORE_LEN], a[SPA_SEALED_CORE_LEN..], b[SPA_SEALED_CORE_LEN..],
                     site.privateKey);
    }
  }
}
