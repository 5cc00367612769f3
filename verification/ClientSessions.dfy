/** Placing services on shared control sessions: the client keeps one session per
    endpoint and key pair, hands out service ids, moves services, stops sessions
    nobody uses, and talks to a session only through its request queue. */
module ClientSessions {
  import opened Words

  /** The endpoint and key pair a session is dialed with. */
  datatype SessionKey = SessionKey(addr: string, noise: string)

  /** A service's configuration: `key` is the session it resolves to, `startable`
      whether its transports and device can be set up. */
  datatype ServiceConfig = ServiceConfig(name: string, key: SessionKey, detail: string, startable: bool)

  datatype ServiceSlot = ServiceSlot(id: nat, service: ServiceConfig)

  datatype Request = Register(slot: ServiceSlot) | Deregister(id: nat)

  datatype SessionEntry = SessionEntry(key: SessionKey, nextId: nat, requests: seq<Request>)

  datatype Location = Location(session: SessionKey, id: nat)

  /** `running` records the configuration each service was last started with. */
  datatype Client = Client(
    config: map<string, ServiceConfig>, sessions: seq<SessionEntry>, services: map<string, Location>,
    running: map<string, ServiceConfig>)

  /** The first session with the key, or the number of sessions. */
  function IndexOf(sessions: seq<SessionEntry>, key: SessionKey): (i: nat)
    ensures i <= |sessions| && (i < |sessions| ==> sessions[i].key == key)
    ensures forall j :: 0 <= j < i ==> sessions[j].key != key
  {
    if sessions == [] || sessions[0].key == key then 0 else 1 + IndexOf(sessions[1..], key)
  }

  function Sent(sessions: seq<SessionEntry>, key: SessionKey, r: Request): seq<SessionEntry> {
    var i := IndexOf(sessions, key);
    if i == |sessions| then sessions
    else sessions[i := sessions[i].(requests := sessions[i].requests + [r])]
  }

  /** `session_index`: find the session or start it. */
  function Started(sessions: seq<SessionEntry>, key: SessionKey): seq<SessionEntry> {
    if IndexOf(sessions, key) == |sessions| then sessions + [SessionEntry(key, 0, [])] else sessions
  }

  predicate Live(services: map<string, Location>, key: SessionKey) {
    exists n :: n in services && services[n].session == key
  }

  /** `reap_idle_sessions`. */
  function Reaped(sessions: seq<SessionEntry>, services: map<string, Location>): seq<SessionEntry> {
    if sessions == [] then []
    else
      var front := Reaped(sessions[..|sessions| - 1], services);
      if Live(services, sessions[|sessions| - 1].key) then front + [sessions[|sessions| - 1]] else front
  }

  /** The sessions once `cfg` is registered under `id`, before reaping. */
  function Registered(sessions: seq<SessionEntry>, cfg: ServiceConfig, id: nat, nextId: nat): seq<SessionEntry>
    requires IndexOf(sessions, cfg.key) < |sessions|
  {
    var i := IndexOf(sessions, cfg.key);
    sessions[i := sessions[i].(nextId := nextId, requests := sessions[i].requests + [Register(ServiceSlot(id, cfg))])]
  }

  lemma StartedHas(sessions: seq<SessionEntry>, key: SessionKey)
    ensures IndexOf(Started(sessions, key), key) < |Started(sessions, key)|
  {
    var s := Started(sessions, key);
    assert IndexOf(sessions, key) == |sessions| ==> s[|sessions|].key == key;
  }

  /** The client as it stands once a service that moves away has been deregistered. */
  function Vacated(c: Client, cfg: ServiceConfig): Client {
    if cfg.name in c.services && c.services[cfg.name].session != cfg.key then
      var loc := c.services[cfg.name];
      Client(c.config, Sent(c.sessions, loc.session, Deregister(loc.id)), c.services - {cfg.name}, c.running - {cfg.name})
    else c
  }

  /** The id a service gets on a session: its own if it is already there, else the next. */
  function IdFor(c: Client, cfg: ServiceConfig, e: SessionEntry): nat {
    if cfg.name in c.services then c.services[cfg.name].id else e.nextId
  }

  function NextIdFor(c: Client, cfg: ServiceConfig, e: SessionEntry): nat {
    if cfg.name in c.services then e.nextId else e.nextId + 1
  }

  /** The last part of `add_service`: hand out the id, register and map. */
  function Placed(c: Client, cfg: ServiceConfig): Client
    requires IndexOf(c.sessions, cfg.key) < |c.sessions|
  {
    var e := c.sessions[IndexOf(c.sessions, cfg.key)];
    var id := IdFor(c, cfg, e);
    Client(c.config, Registered(c.sessions, cfg, id, NextIdFor(c, cfg, e)),
           c.services[cfg.name := Location(cfg.key, id)], c.running[cfg.name := cfg])
  }

  /** `add_service`: a failure to set the service up leaves everything as it was. */
  function Adding(c: Client, cfg: ServiceConfig): (Client, bool) {
    if !cfg.startable then (c, false)
    else
      var c1 := Vacated(c, cfg);
      StartedHas(c1.sessions, cfg.key);
      var c2 := Placed(c1.(sessions := Started(c1.sessions, cfg.key)), cfg);
      (c2.(sessions := Reaped(c2.sessions, c2.services)), true)
  }

  /** The delete arm of `handle_hot_reload`. */
  function DeleteService(c: Client, name: string): Client {
    var told := if name in c.services
                then Sent(c.sessions, c.services[name].session, Deregister(c.services[name].id)) else c.sessions;
    var services := c.services - {name};
    Client(c.config - {name}, Reaped(told, services), services, c.running - {name})
  }

  datatype Change = Add(cfg: ServiceConfig) | Delete(name: string)

  /** `handle_hot_reload`: an add that fails is remembered in the configuration only. */
  function HotReload(c: Client, change: Change): Client {
    match change
    case Add(cfg) => Adding(c.(config := c.config[cfg.name := cfg]), cfg).0
    case Delete(name) => DeleteService(c, name)
  }

  // ------------------------------------------------------------- the sessions

  /** `apply_pending_requests`: the services a session has after some requests. */
  function Replay(services: map<nat, ServiceSlot>, requests: seq<Request>): map<nat, ServiceSlot> {
    if requests == [] then services
    else
      var before := Replay(services, requests[..|requests| - 1]);
      match requests[|requests| - 1]
      case Register(slot) => before[slot.id := slot]
      case Deregister(id) => before - {id}
  }

  /** Taking the queue in batches is the same as taking it at once. */
  lemma {:induction false} ReplayBatches(services: map<nat, ServiceSlot>, a: seq<Request>, b: seq<Request>)
    ensures Replay(services, a + b) == Replay(Replay(services, a), b)
  {
    if b == [] {
      assert a + b == a;
    } else {
      assert (a + b)[..|a + b| - 1] == a + b[..|b| - 1];
      ReplayBatches(services, a, b[..|b| - 1]);
    }
  }

  class ClientSession {
    var services: map<nat, ServiceSlot>
    var queue: seq<Request>

    constructor ()
      ensures services == map[] && queue == []
    {
      services, queue := map[], [];
    }

    method ApplyPendingRequests()
      modifies this
      ensures queue == [] && services == Replay(old(services), old(queue))
    {
      ghost var done: seq<Request> := [];
      while queue != []
        invariant done + queue == old(queue) && services == Replay(old(services), done)
        decreases |queue|
      {
        var r := queue[0];
        assert (done + [r])[..|done|] == done;
        queue := queue[1..];
        match r {
          case Register(slot) => services := services[slot.id := slot];
          case Deregister(id) => services := services - {id};
        }
        done := done + [r];
      }
      assert done == old(queue);
    }
  }

  // -------------------------------------------------------------- invariants

  predicate DistinctKeys(sessions: seq<SessionEntry>) {
    forall i, j :: 0 <= i < j < |sessions| ==> sessions[i].key != sessions[j].key
  }

  /** Replaying a session's requests yields exactly the services mapped to it, each
      with the configuration it was last started with. */
  predicate SessionOk(e: SessionEntry, services: map<string, Location>, running: map<string, ServiceConfig>) {
    var r := Replay(map[], e.requests);
    && (forall n :: n in services && services[n].session == e.key ==>
          && services[n].id < e.nextId && services[n].id in r && n in running
          && r[services[n].id] == ServiceSlot(services[n].id, running[n]))
    && (forall id :: id in r ==>
          r[id].service.name in services && services[r[id].service.name] == Location(e.key, id))
  }

  predicate Named(services: map<string, Location>, running: map<string, ServiceConfig>) {
    running.Keys == services.Keys && forall n :: n in running ==> running[n].name == n
  }

  /** No two services share an id of one session. */
  predicate Apart(services: map<string, Location>) {
    forall n, m :: n in services && m in services && n != m ==> services[n] != services[m]
  }

  predicate Has(sessions: seq<SessionEntry>, key: SessionKey) {
    IndexOf(sessions, key) < |sessions|
  }

  predicate Seated(services: map<string, Location>, sessions: seq<SessionEntry>) {
    forall n :: n in services ==> Has(sessions, services[n].session)
  }

  predicate NamesOk(c: Client) {
    Named(c.services, c.running) && Apart(c.services) && Seated(c.services, c.sessions)
  }

  predicate Inv(c: Client) {
    && DistinctKeys(c.sessions) && NamesOk(c)
    && forall i :: 0 <= i < |c.sessions| ==>
         SessionOk(c.sessions[i], c.services, c.running) && Live(c.services, c.sessions[i].key)
  }

  lemma ReplayOne(requests: seq<Request>, r: Request)
    ensures Replay(map[], requests + [r]) ==
            if r.Register? then Replay(map[], requests)[r.slot.id := r.slot] else Replay(map[], requests) - {r.id}
  {
    assert (requests + [r])[..|requests|] == requests;
  }

  lemma KeptApart(front: seq<SessionEntry>, last: SessionEntry, kept: seq<SessionEntry>)
    requires DistinctKeys(front + [last]) && DistinctKeys(kept) && forall e :: e in kept ==> e in front
    ensures DistinctKeys(kept + [last])
  {
    forall i | 0 <= i < |kept| ensures kept[i].key != last.key {
      assert kept[i] in kept;
      var j :| 0 <= j < |front| && front[j] == kept[i];
      assert (front + [last])[j].key != (front + [last])[|front|].key;
    }
  }

  lemma {:induction false} ReapedExact(sessions: seq<SessionEntry>, services: map<string, Location>)
    ensures forall e :: e in Reaped(sessions, services) <==> e in sessions && Live(services, e.key)
    ensures DistinctKeys(sessions) ==> DistinctKeys(Reaped(sessions, services))
  {
    hide Live;
    if sessions != [] {
      var front, last := sessions[..|sessions| - 1], sessions[|sessions| - 1];
      ReapedExact(front, services);
      assert sessions == front + [last];
      if DistinctKeys(sessions) {
        assert DistinctKeys(front);
        KeptApart(front, last, Reaped(front, services));
      }
    }
  }

  lemma Found(sessions: seq<SessionEntry>, e: SessionEntry)
    requires e in sessions
    ensures IndexOf(sessions, e.key) < |sessions|
  {
  }

  /** Reaping leaves exactly the sessions in use. */
  lemma ReapKeeps(c: Client)
    requires DistinctKeys(c.sessions) && NamesOk(c)
    requires forall i :: 0 <= i < |c.sessions| ==> SessionOk(c.sessions[i], c.services, c.running)
    ensures Inv(c.(sessions := Reaped(c.sessions, c.services)))
  {
    ReapedExact(c.sessions, c.services);
    hide SessionOk, Reaped, Live, DistinctKeys;
    var kept := Reaped(c.sessions, c.services);
    forall i | 0 <= i < |kept| ensures SessionOk(kept[i], c.services, c.running) && Live(c.services, kept[i].key) {
      assert kept[i] in kept;
      var j :| 0 <= j < |c.sessions| && c.sessions[j] == kept[i];
    }
    forall n | n in c.services ensures IndexOf(kept, c.services[n].session) < |kept| {
      InUseStays(c, n);
    }
  }

  lemma InUseStays(c: Client, n: string)
    requires n in c.services && IndexOf(c.sessions, c.services[n].session) < |c.sessions|
    ensures IndexOf(Reaped(c.sessions, c.services), c.services[n].session) < |Reaped(c.sessions, c.services)|
  {
    ReapedExact(c.sessions, c.services);
    var e := c.sessions[IndexOf(c.sessions, c.services[n].session)];
    assert e in c.sessions && Live(c.services, e.key);
    Found(Reaped(c.sessions, c.services), e);
  }

  /** Deregistering a service's id takes exactly that service out. */
  lemma DeregisterOk(e: SessionEntry, services: map<string, Location>, running: map<string, ServiceConfig>, name: string)
    requires SessionOk(e, services, running) && name in services && services[name].session == e.key
    requires forall n :: n in services && n != name ==> services[n] != services[name]
    requires forall n :: n in running ==> running[n].name == n
    ensures SessionOk(e.(requests := e.requests + [Deregister(services[name].id)]), services - {name}, running - {name})
  {
    ReplayOne(e.requests, Deregister(services[name].id));
    hide Replay;
    var r := Replay(map[], e.requests);
    var id := services[name].id;
    forall other | other in r && other != id ensures r[other].service.name != name {
      assert services[r[other].service.name] == Location(e.key, other);
    }
  }

  /** Sessions that do not carry the service are unaffected by its going. */
  lemma OtherUnaffected(e: SessionEntry, services: map<string, Location>, running: map<string, ServiceConfig>, name: string)
    requires SessionOk(e, services, running) && (name in services ==> services[name].session != e.key)
    ensures SessionOk(e, services - {name}, running - {name})
  {
    hide Replay;
  }

  lemma SentIs(sessions: seq<SessionEntry>, key: SessionKey, r: Request)
    requires DistinctKeys(sessions)
    ensures var s := Sent(sessions, key, r);
            && |s| == |sessions| && DistinctKeys(s)
            && (forall k :: IndexOf(s, k) == IndexOf(sessions, k))
            && (forall i :: 0 <= i < |s| ==>
                  s[i] == if sessions[i].key == key then sessions[i].(requests := sessions[i].requests + [r]) else sessions[i])
  {
    var s := Sent(sessions, key, r);
    forall k ensures IndexOf(s, k) == IndexOf(sessions, k) {
      SameKeys(s, sessions, k);
    }
  }

  lemma {:induction false} SameKeys(a: seq<SessionEntry>, b: seq<SessionEntry>, k: SessionKey)
    requires |a| == |b| && forall i :: 0 <= i < |a| ==> a[i].key == b[i].key
    ensures IndexOf(a, k) == IndexOf(b, k)
  {
    if a != [] && a[0].key != k {
      SameKeys(a[1..], b[1..], k);
    }
  }

  lemma NamesWithout(c: Client, name: string, sessions: seq<SessionEntry>)
    requires NamesOk(c) && forall k :: Has(c.sessions, k) ==> Has(sessions, k)
    ensures NamesOk(Client(c.config - {name}, sessions, c.services - {name}, c.running - {name}))
  {
    hide Has;
    assert (c.running - {name}).Keys == (c.services - {name}).Keys;
  }

  /** The sessions after a service's owner was told to drop it. */
  lemma ToldSessions(c: Client, name: string)
    requires Inv(c) && name in c.services
    ensures var told := Sent(c.sessions, c.services[name].session, Deregister(c.services[name].id));
            && DistinctKeys(told) && |told| == |c.sessions|
            && (forall i :: 0 <= i < |told| ==> SessionOk(told[i], c.services - {name}, c.running - {name}))
            && (forall k :: IndexOf(told, k) == IndexOf(c.sessions, k))
  {
    var key := c.services[name].session;
    var told := Sent(c.sessions, key, Deregister(c.services[name].id));
    SentIs(c.sessions, key, Deregister(c.services[name].id));
    hide SessionOk, Sent, IndexOf, DistinctKeys;
    forall i | 0 <= i < |told| ensures SessionOk(told[i], c.services - {name}, c.running - {name}) {
      if c.sessions[i].key == key {
        DeregisterOk(c.sessions[i], c.services, c.running, name);
      } else {
        OtherUnaffected(c.sessions[i], c.services, c.running, name);
      }
    }
  }

  lemma DeleteKeeps(c: Client, name: string)
    requires Inv(c)
    ensures Inv(DeleteService(c, name)) && name !in DeleteService(c, name).services
  {
    hide SessionOk, Sent, IndexOf, DistinctKeys, NamesOk, Live, Reaped;
    var told := if name in c.services
                then Sent(c.sessions, c.services[name].session, Deregister(c.services[name].id)) else c.sessions;
    var c1 := Client(c.config - {name}, told, c.services - {name}, c.running - {name});
    if name in c.services {
      ToldSessions(c, name);
    } else {
      forall i | 0 <= i < |told| ensures SessionOk(told[i], c1.services, c1.running) {
        OtherUnaffected(c.sessions[i], c.services, c.running, name);
      }
    }
    NamesWithout(c, name, told);
    ReapKeeps(c1);
  }

  /** Registering a service under a fresh or its own id puts exactly it in. */
  lemma RegisterOk(e: SessionEntry, services: map<string, Location>, running: map<string, ServiceConfig>,
                   cfg: ServiceConfig, id: nat, nextId: nat)
    requires SessionOk(e, services, running) && e.key == cfg.key && id < nextId && e.nextId <= nextId
    requires forall n :: n in running ==> running[n].name == n
    requires cfg.name in services ==> services[cfg.name] == Location(e.key, id)
    requires cfg.name !in services ==> id == e.nextId
    requires forall n, m :: n in services && m in services && n != m ==> services[n] != services[m]
    ensures SessionOk(e.(nextId := nextId, requests := e.requests + [Register(ServiceSlot(id, cfg))]),
                      services[cfg.name := Location(cfg.key, id)], running[cfg.name := cfg])
  {
    ReplayOne(e.requests, Register(ServiceSlot(id, cfg)));
    hide Replay;
    var r := Replay(map[], e.requests);
    forall other | other in r && other != id ensures r[other].service.name != cfg.name {
      assert services[r[other].service.name] == Location(e.key, other);
    }
    forall n | n in services && n != cfg.name && services[n].session == e.key ensures services[n].id != id {
      assert services[n].id < e.nextId;
    }
  }

  lemma OtherUnaffectedByAdd(e: SessionEntry, services: map<string, Location>, running: map<string, ServiceConfig>,
                             cfg: ServiceConfig, id: nat)
    requires SessionOk(e, services, running) && e.key != cfg.key
    requires cfg.name in services ==> services[cfg.name].session != e.key
    ensures SessionOk(e, services[cfg.name := Location(cfg.key, id)], running[cfg.name := cfg])
  {
    hide Replay;
  }

  lemma StartedIs(sessions: seq<SessionEntry>, key: SessionKey)
    requires DistinctKeys(sessions)
    ensures var s := Started(sessions, key);
            && DistinctKeys(s) && sessions <= s && |s| <= |sessions| + 1
            && (|s| > |sessions| ==> s[|sessions|] == SessionEntry(key, 0, []) && IndexOf(sessions, key) == |sessions|)
            && IndexOf(s, key) < |s| && s[IndexOf(s, key)].key == key
            && (forall k :: IndexOf(sessions, k) < |sessions| ==> IndexOf(s, k) < |s|)
  {
    StartedHas(sessions, key);
    var s := Started(sessions, key);
    forall k | IndexOf(sessions, k) < |sessions| ensures IndexOf(s, k) < |s| {
      assert s[IndexOf(sessions, k)].key == k;
    }
  }

  lemma FreshSessionOk(key: SessionKey, services: map<string, Location>, running: map<string, ServiceConfig>)
    requires forall n :: n in services ==> services[n].session != key
    ensures SessionOk(SessionEntry(key, 0, []), services, running)
  {
  }

  lemma NamesPlaced(c: Client, sessions: seq<SessionEntry>, cfg: ServiceConfig, id: nat)
    requires NamesOk(c) && Has(sessions, cfg.key) && forall k :: Has(c.sessions, k) ==> Has(sessions, k)
    requires forall n :: n in c.services && n != cfg.name ==> c.services[n] != Location(cfg.key, id)
    ensures NamesOk(Client(c.config, sessions, c.services[cfg.name := Location(cfg.key, id)], c.running[cfg.name := cfg]))
  {
    var loc := Location(cfg.key, id);
    assert Named(c.services[cfg.name := loc], c.running[cfg.name := cfg]) by {
      hide Apart, Seated;
    }
    assert Apart(c.services[cfg.name := loc]) by {
      hide Named, Seated;
    }
    assert Seated(c.services[cfg.name := loc], sessions) by {
      hide Named, Apart, Has;
    }
  }

  /** Between the steps of `add_service` only "no session is idle" may fail. */
  predicate Consistent(c: Client) {
    && DistinctKeys(c.sessions) && NamesOk(c)
    && forall i :: 0 <= i < |c.sessions| ==> SessionOk(c.sessions[i], c.services, c.running)
  }

  lemma VacatedOk(c: Client, cfg: ServiceConfig)
    requires Inv(c)
    ensures Consistent(Vacated(c, cfg))
    ensures cfg.name in Vacated(c, cfg).services ==> Vacated(c, cfg).services[cfg.name].session == cfg.key
  {
    hide SessionOk, Sent, IndexOf, DistinctKeys, NamesOk;
    if cfg.name in c.services && c.services[cfg.name].session != cfg.key {
      ToldSessions(c, cfg.name);
      NamesWithout(c, cfg.name, Vacated(c, cfg).sessions);
      ConfigFree(Client(c.config - {cfg.name}, Vacated(c, cfg).sessions, c.services - {cfg.name}, c.running - {cfg.name}),
                 c.config);
    }
  }

  lemma ConfigFree(c: Client, config: map<string, ServiceConfig>)
    requires NamesOk(c)
    ensures NamesOk(c.(config := config))
  {
  }

  lemma StartedOk(c: Client, key: SessionKey)
    requires Consistent(c)
    ensures Consistent(c.(sessions := Started(c.sessions, key)))
    ensures IndexOf(Started(c.sessions, key), key) < |Started(c.sessions, key)|
  {
    var s := Started(c.sessions, key);
    StartedIs(c.sessions, key);
    hide SessionOk, Started, IndexOf, DistinctKeys;
    forall i | 0 <= i < |s| ensures SessionOk(s[i], c.services, c.running) {
      if i == |c.sessions| {
        forall n | n in c.services ensures c.services[n].session != key {
          assert IndexOf(c.sessions, c.services[n].session) < |c.sessions|;
        }
        FreshSessionOk(key, c.services, c.running);
      }
    }
  }

  lemma PlacedOk(c: Client, cfg: ServiceConfig)
    requires Consistent(c) && IndexOf(c.sessions, cfg.key) < |c.sessions|
    requires cfg.name in c.services ==> c.services[cfg.name].session == cfg.key
    ensures Consistent(Placed(c, cfg))
  {
    var at := IndexOf(c.sessions, cfg.key);
    var e := c.sessions[at];
    var id, nextId := IdFor(c, cfg, e), NextIdFor(c, cfg, e);
    var sessions := Registered(c.sessions, cfg, id, nextId);
    forall k ensures IndexOf(sessions, k) == IndexOf(c.sessions, k) {
      SameKeys(sessions, c.sessions, k);
    }
    InUse(e, c.services, c.running, cfg.name);
    forall n | n in c.services && n != cfg.name ensures c.services[n] != Location(cfg.key, id) {
      InUse(e, c.services, c.running, n);
    }
    NamesPlaced(c, sessions, cfg, id);
    assert DistinctKeys(sessions);
    forall i | 0 <= i < |sessions|
      ensures SessionOk(sessions[i], c.services[cfg.name := Location(cfg.key, id)], c.running[cfg.name := cfg])
    {
      hide SessionOk, IndexOf;
      if i == at {
        RegisterOk(e, c.services, c.running, cfg, id, nextId);
      } else {
        assert c.sessions[i].key != cfg.key;
        OtherUnaffectedByAdd(c.sessions[i], c.services, c.running, cfg, id);
      }
    }
  }

  /** Adding keeps the invariant, puts the service on the session it resolves to, under
      its old id if it was there already, and leaves every other service where it was. */
  lemma AddKeeps(c: Client, cfg: ServiceConfig)
    requires Inv(c)
    ensures var (after, ok) := Adding(c, cfg);
            && Inv(after) && ok == cfg.startable && (!ok ==> after == c)
            && (ok ==>
                  && cfg.name in after.services && after.services[cfg.name].session == cfg.key
                  && after.running == c.running[cfg.name := cfg]
                  && (cfg.name in c.services && c.services[cfg.name].session == cfg.key ==>
                        after.services == c.services)
                  && after.services - {cfg.name} == c.services - {cfg.name})
  {
    hide Inv, Consistent, IndexOf, Started, Sent, Reaped, Registered;
    if cfg.startable {
      var c1 := Vacated(c, cfg);
      VacatedOk(c, cfg);
      StartedOk(c1, cfg.key);
      PlacedOk(c1.(sessions := Started(c1.sessions, cfg.key)), cfg);
      ReapConsistent(Placed(c1.(sessions := Started(c1.sessions, cfg.key)), cfg));
    }
  }

  lemma ReapConsistent(c: Client)
    requires Consistent(c)
    ensures Inv(c.(sessions := Reaped(c.sessions, c.services)))
  {
    hide Inv, SessionOk, NamesOk, DistinctKeys, Reaped;
    ReapKeeps(c);
  }

  lemma InUse(e: SessionEntry, services: map<string, Location>, running: map<string, ServiceConfig>, n: string)
    requires SessionOk(e, services, running)
    ensures n in services && services[n].session == e.key ==> services[n].id < e.nextId
  {
  }

  // --------------------------------------------------------------- every run

  function After(changes: seq<Change>): Client {
    if changes == [] then Client(map[], [], map[], map[])
    else HotReload(After(changes[..|changes| - 1]), changes[|changes| - 1])
  }

  /** After any run of adds, re-adds, moves, failing adds and deletes: session keys are
      distinct, no session is idle, every service sits on a live session under an id
      no other service of it has, and replaying what was sent to a session yields
      exactly the services the client maps to it. */
  lemma {:induction false} PlacementRun(changes: seq<Change>)
    ensures Inv(After(changes))
  {
    hide Inv;
    if changes == [] {
      NothingPlaced();
    } else {
      var c, change := After(changes[..|changes| - 1]), changes[|changes| - 1];
      PlacementRun(changes[..|changes| - 1]);
      match change
      case Add(cfg) =>
        ConfigIrrelevant(c, c.config[cfg.name := cfg]);
        AddKeeps(c.(config := c.config[cfg.name := cfg]), cfg);
      case Delete(name) =>
        DeleteKeeps(c, name);
    }
  }

  lemma NothingPlaced()
    ensures Inv(Client(map[], [], map[], map[]))
  {
  }

  lemma ConfigIrrelevant(c: Client, config: map<string, ServiceConfig>)
    requires Inv(c)
    ensures Inv(c.(config := config))
  {
  }

  // ------------------------------------------------ what is where, by history

  /** The configuration the changes leave a name with: the last one added, unless the
      name was deleted since. */
  function Configured(changes: seq<Change>, name: string): Option<ServiceConfig> {
    if changes == [] then None
    else
      match changes[|changes| - 1]
      case Add(cfg) => if cfg.name == name then Some(cfg) else Configured(changes[..|changes| - 1], name)
      case Delete(n) => if n == name then None else Configured(changes[..|changes| - 1], name)
  }

  /** The configuration a name runs with: the last one added that could be started. */
  function Launched(changes: seq<Change>, name: string): Option<ServiceConfig> {
    if changes == [] then None
    else
      match changes[|changes| - 1]
      case Add(cfg) => if cfg.name == name && cfg.startable then Some(cfg) else Launched(changes[..|changes| - 1], name)
      case Delete(n) => if n == name then None else Launched(changes[..|changes| - 1], name)
  }

  predicate Agrees(c: Client, name: string, configured: Option<ServiceConfig>, launched: Option<ServiceConfig>) {
    && (name in c.config <==> configured.Some?) && (configured.Some? ==> c.config[name] == configured.value)
    && (name in c.services <==> launched.Some?) && (name in c.running <==> launched.Some?)
    && (launched.Some? ==> c.running[name] == launched.value && c.services[name].session == launched.value.key)
  }

  lemma AddKeepsConfig(c: Client, cfg: ServiceConfig)
    ensures Adding(c, cfg).0.config == c.config
  {
    hide Sent, Started, Registered, Reaped;
  }

  /** After any run of changes: the configuration holds for each name what was added
      last, and a service runs, with the last configuration that could be started and on
      the session that one resolves to, if and only if there is one not deleted since. */
  lemma {:induction false} HistoryDecides(changes: seq<Change>, name: string)
    ensures Agrees(After(changes), name, Configured(changes, name), Launched(changes, name))
  {
    hide Inv, HotReload, Agrees;
    if changes != [] {
      var front, change := changes[..|changes| - 1], changes[|changes| - 1];
      HistoryDecides(front, name);
      PlacementRun(front);
      if change.Add? {
        AddAgrees(After(front), change.cfg, name, Configured(front, name), Launched(front, name));
      } else {
        DeleteAgrees(After(front), change.name, name, Configured(front, name), Launched(front, name));
      }
    } else {
      NothingAgrees(name);
    }
  }

  lemma NothingAgrees(name: string)
    ensures Agrees(Client(map[], [], map[], map[]), name, None, None)
  {
  }

  lemma AddAgrees(c: Client, cfg: ServiceConfig, name: string, configured: Option<ServiceConfig>, launched: Option<ServiceConfig>)
    requires Inv(c) && Agrees(c, name, configured, launched)
    ensures Agrees(HotReload(c, Add(cfg)), name, if cfg.name == name then Some(cfg) else configured,
                   if cfg.name == name && cfg.startable then Some(cfg) else launched)
  {
    hide Inv, Adding;
    var c1 := c.(config := c.config[cfg.name := cfg]);
    ConfigIrrelevant(c, c1.config);
    AddKeeps(c1, cfg);
    AddKeepsConfig(c1, cfg);
    if cfg.startable {
      AddedElsewhere(c1, Adding(c1, cfg).0, cfg.name, name);
    }
  }

  lemma DeleteAgrees(c: Client, gone: string, name: string, configured: Option<ServiceConfig>, launched: Option<ServiceConfig>)
    requires Agrees(c, name, configured, launched)
    ensures Agrees(HotReload(c, Delete(gone)), name, if gone == name then None else configured,
                   if gone == name then None else launched)
  {
    hide Reaped, Sent;
  }

  lemma AddedElsewhere(c: Client, c': Client, name: string, other: string)
    requires other != name ==> c'.services - {name} == c.services - {name}
    ensures other != name ==> (other in c'.services <==> other in c.services)
    ensures other != name && other in c.services ==> other in c'.services && c'.services[other] == c.services[other]
  {
    if other != name {
      assert other in c'.services <==> other in c'.services - {name};
      assert other in c.services <==> other in c.services - {name};
      if other in c.services {
        assert (c'.services - {name})[other] == c'.services[other];
        assert (c.services - {name})[other] == c.services[other];
      }
    }
  }

  // --------------------------------------------------------------- the object

  lemma PlacedIs(c: Client, cfg: ServiceConfig, at: nat, id: nat, nextId: nat)
    requires at == IndexOf(c.sessions, cfg.key) && at < |c.sessions|
    requires id == IdFor(c, cfg, c.sessions[at]) && nextId == NextIdFor(c, cfg, c.sessions[at])
    ensures Placed(c, cfg) ==
            Client(c.config,
                   c.sessions[at := SessionEntry(cfg.key, nextId, c.sessions[at].requests + [Register(ServiceSlot(id, cfg))])],
                   c.services[cfg.name := Location(cfg.key, id)], c.running[cfg.name := cfg])
  {
  }

  /** Where a service was is forgotten before it is placed. */
  lemma PlacedAnew(c: Client, cfg: ServiceConfig, loc: Location)
    ensures (c.services - {cfg.name})[cfg.name := loc] == Vacated(c, cfg).services[cfg.name := loc]
    ensures c.running[cfg.name := cfg] == Vacated(c, cfg).running[cfg.name := cfg]
  {
    hide Sent;
  }

  class ClientObject {
    var config: map<string, ServiceConfig>
    var sessions: seq<SessionEntry>
    var services: map<string, Location>
    ghost var running: map<string, ServiceConfig>

    ghost function View(): Client
      reads this
    {
      Client(config, sessions, services, running)
    }

    constructor ()
      ensures Inv(View()) && View() == Client(map[], [], map[], map[])
    {
      config, sessions, services, running := map[], [], map[], map[];
    }

    /** The removal loop. */
    method ReapIdleSessions()
      modifies `sessions
      ensures sessions == Reaped(old(sessions), services)
    {
      ghost var was, n := sessions, 0;
      var i := 0;
      while i < |sessions|
        invariant i <= |sessions| && n <= |was| && sessions[i..] == was[n..]
        invariant sessions[..i] == Reaped(was[..n], services)
        decreases |sessions| - i
      {
        ghost var e := sessions[i];
        assert e == was[n..][0] && was[n..][1..] == was[n + 1..] && was[..n + 1][..n] == was[..n];
        if exists s :: s in services && services[s].session == sessions[i].key {
          assert sessions[..i + 1] == sessions[..i] + [e] && sessions[i + 1..] == sessions[i..][1..];
          i := i + 1;
        } else {
          ghost var before := sessions;
          sessions := sessions[..i] + sessions[i + 1..];
          assert sessions[..i] == before[..i] && sessions[i..] == before[i..][1..];
        }
        n := n + 1;
      }
      assert n == |was| && sessions[..i] == sessions && was[..n] == was;
    }

    /** Find the session that owns the key, or start it. */
    method SessionIndex(key: SessionKey) returns (i: nat)
      modifies `sessions
      ensures sessions == Started(old(sessions), key) && i == IndexOf(sessions, key) && i < |sessions|
    {
      StartedHas(sessions, key);
      i := 0;
      while i < |sessions| && sessions[i].key != key
        invariant i <= |sessions| && forall j :: 0 <= j < i ==> sessions[j].key != key
        invariant sessions == old(sessions)
      {
        i := i + 1;
      }
      if i == |sessions| {
        sessions := sessions + [SessionEntry(key, 0, [])];
      }
    }

    method AddService(cfg: ServiceConfig) returns (ok: bool)
      modifies `sessions, `services, `running
      ensures (View(), ok) == Adding(old(View()), cfg)
    {
      if !cfg.startable {
        return false;
      }
      hide Reaped, IndexOf, Sent, Started, Placed, Registered;
      ghost var c, c1 := View(), Vacated(View(), cfg);
      var previous := if cfg.name in services then Some(services[cfg.name]) else None;
      services := services - {cfg.name};
      if previous.Some? && previous.value.session != cfg.key {
        sessions := Sent(sessions, previous.value.session, Deregister(previous.value.id));
      }
      var at := SessionIndex(cfg.key);
      ghost var c2 := c1.(sessions := sessions);
      var entry := sessions[at];
      var id := entry.nextId;
      if previous.Some? && previous.value.session == cfg.key {
        id := previous.value.id;
      } else {
        entry := entry.(nextId := entry.nextId + 1);
      }
      PlacedIs(c2, cfg, at, id, entry.nextId);
      PlacedAnew(c, cfg, Location(cfg.key, id));
      entry := entry.(requests := entry.requests + [Register(ServiceSlot(id, cfg))]);
      sessions := sessions[at := entry];
      services := services[cfg.name := Location(cfg.key, id)];
      running := running[cfg.name := cfg];
      assert View() == Placed(c2, cfg);
      ReapIdleSessions();
      ok := true;
    }

    method HandleHotReload(change: Change)
      modifies this
      ensures View() == HotReload(old(View()), change)
    {
      hide Reaped, Adding;
      match change {
        case Add(cfg) =>
          config := config[cfg.name := cfg];
          var _ := AddService(cfg);
        case Delete(name) =>
          config := config - {name};
          if name in services {
            sessions := Sent(sessions, services[name].session, Deregister(services[name].id));
          }
          services := services - {name};
          running := running - {name};
          ReapIdleSessions();
      }
    }
  }
}
