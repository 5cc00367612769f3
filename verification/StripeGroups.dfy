/** The client-side registry of stripe groups: parked partial groups and the
    tombstones of groups the server released, both with a time to live. */
module StripeGroups {
  import opened Words

  const GROUP_TTL: nat := 60_000
  const MAX_RELEASED: nat := 512

  datatype Partial<S> = Partial(count: u8, streams: seq<Option<S>>, localAddr: string, started: nat)

  datatype Tombstone = Tombstone(id: u32, at: nat)

  datatype Registry<S> = Registry(groups: map<u32, Partial<S>>, released: seq<Tombstone>)

  datatype Complete<S> = Complete(streams: seq<S>, localAddr: string)

  datatype Refusal = BadClaim | MixedCounts | SecondStripe

  /** `Instant::duration_since`: an instant in the future has elapsed nothing. */
  function Elapsed(now: nat, t: nat): nat {
    if now >= t then now - t else 0
  }

  function Live<S>(groups: map<u32, Partial<S>>, now: nat): map<u32, Partial<S>> {
    map id | id in groups && Elapsed(now, groups[id].started) < GROUP_TTL :: groups[id]
  }

  /** The front-popping loop of `register`. */
  function PopExpired(ts: seq<Tombstone>, now: nat): seq<Tombstone> {
    if ts != [] && Elapsed(now, ts[0].at) >= GROUP_TTL then PopExpired(ts[1..], now) else ts
  }

  /** The `retain` of `release`. */
  function Unexpired(ts: seq<Tombstone>, now: nat): seq<Tombstone> {
    if ts == [] then []
    else
      var front := Unexpired(ts[..|ts| - 1], now);
      if Elapsed(now, ts[|ts| - 1].at) < GROUP_TTL then front + [ts[|ts| - 1]] else front
  }

  predicate Buried(ts: seq<Tombstone>, id: u32) {
    exists i :: 0 <= i < |ts| && ts[i].id == id
  }

  predicate Full<S(!new)>(streams: seq<Option<S>>) {
    forall i :: 0 <= i < |streams| ==> streams[i].Some?
  }

  function Values<S>(streams: seq<Option<S>>): (vs: seq<S>)
    requires forall i :: 0 <= i < |streams| ==> streams[i].Some?
    ensures |vs| == |streams| && forall i :: 0 <= i < |vs| ==> streams[i] == Some(vs[i])
  {
    seq(|streams|, i requires 0 <= i < |streams| => streams[i].value)
  }

  function Empty<S>(count: u8): seq<Option<S>> {
    seq(count, _ => None)
  }

  /** `register`. */
  function Registering<S(!new)>(r: Registry<S>, now: nat, id: u32, index: u8, count: u8, stream: S, addr: string)
    : (Registry<S>, Result<Option<Complete<S>>, Refusal>)
  {
    if count < 1 || index >= count then (r, Err(BadClaim))
    else
      var groups, released := Live(r.groups, now), PopExpired(r.released, now);
      if Buried(released, id) then (Registry(groups, released), Ok(None))
      else
        var entry := if id in groups then groups[id] else Partial(count, Empty(count), addr, now);
        if entry.count != count then (Registry(groups, released), Err(MixedCounts))
        else if index >= |entry.streams| || entry.streams[index].Some? then
          (Registry(groups, released), Err(SecondStripe))
        else
          var streams := entry.streams[index := Some(stream)];
          if Full(streams) then
            (Registry(groups - {id}, released), Ok(Some(Complete(Values(streams), entry.localAddr))))
          else
            (Registry(groups[id := entry.(streams := streams)], released), Ok(None))
  }

  function Newest(ts: seq<Tombstone>): seq<Tombstone> {
    if |ts| > MAX_RELEASED then ts[|ts| - MAX_RELEASED..] else ts
  }

  /** `release`. */
  function Releasing<S>(r: Registry<S>, now: nat, id: u32): (Registry<S>, bool) {
    (Registry(r.groups - {id}, Newest(Unexpired(r.released, now) + [Tombstone(id, now)])), id in r.groups)
  }

  // -------------------------------------------------------------- invariants

  predicate TimeOrdered(ts: seq<Tombstone>, now: nat) {
    && (forall i, j :: 0 <= i < j < |ts| ==> ts[i].at <= ts[j].at)
    && (forall i :: 0 <= i < |ts| ==> ts[i].at <= now)
  }

  /** A claim the server made for a stream: stripe `index` of `count` of group `id`. */
  datatype Claim<S> = Claim(id: u32, index: u8, count: u8, stream: S)

  /** A parked group is incomplete, and every stream in it sits at the index it was
      registered with, under this id and count. */
  ghost predicate ParkedOk<S(!new)>(id: u32, g: Partial<S>, claims: set<Claim<S>>, now: nat) {
    && |g.streams| == g.count >= 1 && g.started <= now
    && (exists i :: 0 <= i < |g.streams| && g.streams[i].None?)
    && (forall i :: 0 <= i < |g.streams| && g.streams[i].Some? ==>
          Claim(id, i, g.count, g.streams[i].value) in claims)
  }

  ghost predicate Inv<S(!new)>(r: Registry<S>, claims: set<Claim<S>>, now: nat) {
    && (forall id :: id in r.groups ==> ParkedOk(id, r.groups[id], claims, now) && !Buried(r.released, id))
    && |r.released| <= MAX_RELEASED && TimeOrdered(r.released, now)
  }

  /** On a time-ordered list popping expired entries off the front is the same as
      filtering all of it. */
  lemma {:induction false} PopIsFilter(ts: seq<Tombstone>, clock: nat, now: nat)
    requires TimeOrdered(ts, clock) && clock <= now
    ensures PopExpired(ts, now) == Unexpired(ts, now)
  {
    hide Elapsed;
    if ts == [] {
    } else if Elapsed(now, ts[0].at) < GROUP_TTL {
      NoneExpired(ts, clock, now);
    } else {
      PopIsFilter(ts[1..], clock, now);
      FirstExpired(ts, now);
    }
  }

  lemma {:induction false} NoneExpired(ts: seq<Tombstone>, clock: nat, now: nat)
    requires TimeOrdered(ts, clock) && clock <= now && ts != [] && Elapsed(now, ts[0].at) < GROUP_TTL
    ensures Unexpired(ts, now) == ts
  {
    var front := ts[..|ts| - 1];
    assert ts[0].at <= ts[|ts| - 1].at;
    if front != [] {
      NoneExpired(front, clock, now);
    }
    assert ts == front + [ts[|ts| - 1]];
  }

  lemma {:induction false} FirstExpired(ts: seq<Tombstone>, now: nat)
    requires ts != [] && Elapsed(now, ts[0].at) >= GROUP_TTL
    ensures Unexpired(ts, now) == Unexpired(ts[1..], now)
  {
    if |ts| == 1 {
      assert ts[..0] == [] && ts[1..] == [];
    } else {
      var front := ts[..|ts| - 1];
      FirstExpired(front, now);
      assert front[1..] == ts[1..][..|ts| - 2];
    }
  }

  lemma {:induction false} UnexpiredMembers(ts: seq<Tombstone>, now: nat)
    ensures |Unexpired(ts, now)| <= |ts|
    ensures forall t :: t in Unexpired(ts, now) <==> t in ts && Elapsed(now, t.at) < GROUP_TTL
  {
    if ts != [] {
      var front, last := ts[..|ts| - 1], ts[|ts| - 1];
      UnexpiredMembers(front, now);
      assert ts == front + [last];
    }
  }

  /** Leaving entries out of a time-ordered list keeps it so. */
  lemma KeptInOrder(front: seq<Tombstone>, last: Tombstone, kept: seq<Tombstone>, clock: nat)
    requires TimeOrdered(front + [last], clock) && TimeOrdered(kept, clock)
    requires forall t :: t in kept ==> t in front
    ensures TimeOrdered(kept + [last], clock)
  {
    var ts := front + [last];
    assert ts[|front|] == last;
    forall i | 0 <= i < |kept| ensures kept[i].at <= last.at {
      assert kept[i] in kept;
      var j :| 0 <= j < |front| && front[j] == kept[i];
      assert ts[j].at <= ts[|front|].at;
    }
  }

  lemma {:induction false} StaysOrdered(ts: seq<Tombstone>, clock: nat, now: nat)
    requires TimeOrdered(ts, clock)
    ensures TimeOrdered(Unexpired(ts, now), clock)
  {
    hide Elapsed;
    if ts != [] {
      var front, last := ts[..|ts| - 1], ts[|ts| - 1];
      StaysOrdered(front, clock, now);
      UnexpiredMembers(front, now);
      assert ts == front + [last];
      var kept := Unexpired(front, now);
      assert Unexpired(ts, now) == kept || Unexpired(ts, now) == kept + [last];
      hide Unexpired, TimeOrdered;
      KeptInOrder(front, last, kept, clock);
    }
  }

  lemma UnexpiredOrdered(ts: seq<Tombstone>, clock: nat, now: nat)
    requires TimeOrdered(ts, clock) && clock <= now
    ensures TimeOrdered(Unexpired(ts, now), now) && |Unexpired(ts, now)| <= |ts|
    ensures forall t :: t in Unexpired(ts, now) <==> t in ts && Elapsed(now, t.at) < GROUP_TTL
  {
    StaysOrdered(ts, clock, now);
    UnexpiredMembers(ts, now);
    hide Unexpired, Elapsed;
  }

  lemma NotBuriedAfter(ts: seq<Tombstone>, ts': seq<Tombstone>, id: u32)
    requires !Buried(ts, id) && forall t :: t in ts' ==> t in ts
    ensures !Buried(ts', id)
  {
    forall i | 0 <= i < |ts'| ensures ts'[i].id != id {
      assert ts'[i] in ts;
      var j :| 0 <= j < |ts| && ts[j] == ts'[i];
    }
  }

  /** Reaping keeps the invariant at the new time. */
  lemma ReapKeeps<S(!new)>(r: Registry<S>, claims: set<Claim<S>>, clock: nat, now: nat)
    requires Inv(r, claims, clock) && clock <= now
    ensures Inv(Registry(Live(r.groups, now), PopExpired(r.released, now)), claims, now)
  {
    PopIsFilter(r.released, clock, now);
    UnexpiredOrdered(r.released, clock, now);
    var kept := PopExpired(r.released, now);
    forall id | id in Live(r.groups, now)
      ensures ParkedOk(id, r.groups[id], claims, now) && !Buried(kept, id)
    {
      NotBuriedAfter(r.released, kept, id);
    }
  }

  lemma ClaimsGrow<S(!new)>(id: u32, g: Partial<S>, claims: set<Claim<S>>, more: set<Claim<S>>, now: nat)
    requires ParkedOk(id, g, claims, now) && claims <= more
    ensures ParkedOk(id, g, more, now)
  {
  }

  /** A group with one more stripe: parked if still incomplete, and complete with
      one registered stream per index otherwise. */
  lemma FillKeeps<S(!new)>(id: u32, g: Partial<S>, index: u8, stream: S, claims: set<Claim<S>>, now: nat)
    requires |g.streams| == g.count >= 1 && g.started <= now && index < g.count
    requires forall i :: 0 <= i < |g.streams| && g.streams[i].Some? ==>
               Claim(id, i, g.count, g.streams[i].value) in claims
    requires Claim(id, index, g.count, stream) in claims
    ensures var streams := g.streams[index := Some(stream)];
            && (!Full(streams) ==> ParkedOk(id, g.(streams := streams), claims, now))
            && (Full(streams) ==> forall i :: 0 <= i < |streams| ==>
                                    Claim(id, i, g.count, Values(streams)[i]) in claims)
  {
  }

  /** Parked for less than a minute. */
  predicate Young<S>(r: Registry<S>, id: u32, now: nat) {
    id in r.groups && now - r.groups[id].started < 60_000
  }

  /** Released less than a minute ago. */
  predicate Tombstoned<S>(r: Registry<S>, id: u32, now: nat) {
    exists i :: 0 <= i < |r.released| && r.released[i].id == id && now - r.released[i].at < 60_000
  }

  /** `r'` is what of `r` is younger than a minute. */
  ghost predicate Aged<S(!new)>(r: Registry<S>, r': Registry<S>, now: nat) {
    && (forall id :: id in r'.groups <==> Young(r, id, now))
    && (forall id :: id in r'.groups ==> r'.groups[id] == r.groups[id])
    && (forall t :: t in r'.released <==> t in r.released && now - t.at < 60_000)
  }

  lemma ReapingIsAging<S(!new)>(r: Registry<S>, claims: set<Claim<S>>, clock: nat, now: nat, id: u32)
    requires Inv(r, claims, clock) && clock <= now
    ensures var aged := Registry(Live(r.groups, now), PopExpired(r.released, now));
            Aged(r, aged, now) && (Buried(aged.released, id) <==> Tombstoned(r, id, now))
  {
    TombstonesAge(r.released, clock, now, id);
    GroupsAge(r, now);
    hide Live, PopExpired, Inv, Young;
  }

  lemma GroupsAge<S(!new)>(r: Registry<S>, now: nat)
    requires forall id :: id in r.groups ==> r.groups[id].started <= now
    ensures forall id :: id in Live(r.groups, now) <==> Young(r, id, now)
    ensures forall id :: id in Live(r.groups, now) ==> Live(r.groups, now)[id] == r.groups[id]
  {
  }

  lemma TombstonesAge(ts: seq<Tombstone>, clock: nat, now: nat, id: u32)
    requires TimeOrdered(ts, clock) && clock <= now
    ensures var kept := PopExpired(ts, now);
            && (forall t :: t in kept <==> t in ts && now - t.at < 60_000)
            && (Buried(kept, id) <==> exists i :: 0 <= i < |ts| && ts[i].id == id && now - ts[i].at < 60_000)
  {
    PopIsFilter(ts, clock, now);
    UnexpiredMembers(ts, now);
    var kept := PopExpired(ts, now);
    assert forall i :: 0 <= i < |ts| ==> ts[i].at <= now;
    hide PopExpired, Unexpired, TimeOrdered;
    if i :| 0 <= i < |ts| && ts[i].id == id && now - ts[i].at < 60_000 {
      assert ts[i] in kept;
    }
    if Buried(kept, id) {
      var i :| 0 <= i < |kept| && kept[i].id == id;
      assert kept[i] in kept;
      var j :| 0 <= j < |ts| && ts[j] == kept[i];
    }
  }

  lemma RegisterInv<S(!new)>(r: Registry<S>, claims: set<Claim<S>>, clock: nat,
                             now: nat, id: u32, index: u8, count: u8, stream: S, addr: string)
    requires Inv(r, claims, clock) && clock <= now
    ensures var (r', answer) := Registering(r, now, id, index, count, stream, addr);
            var claims' := claims + {Claim(id, index, count, stream)};
            && Inv(r', claims', now)
            && (answer.Ok? && answer.value.Some? ==>
                  && id !in r'.groups
                  && |answer.value.value.streams| == count
                  && forall i :: 0 <= i < count ==>
                       Claim(id, i, count, answer.value.value.streams[i]) in claims')
  {
    var claims' := claims + {Claim(id, index, count, stream)};
    var reaped := Registry(Live(r.groups, now), PopExpired(r.released, now));
    ReapKeeps(r, claims, clock, now);
    hide Live, PopExpired, ParkedOk, Full, Empty, Values;
    forall g, p | ParkedOk(g, p, claims, now) ensures ParkedOk(g, p, claims', now) {
      ClaimsGrow(g, p, claims, claims', now);
    }
    LiveSubset(r.groups, now);
    if count < 1 || index >= count {
      SameLater(r, claims, claims', clock, now);
    } else if !Buried(reaped.released, id) {
      EmptyParks<S>(count);
      var entry := if id in reaped.groups then reaped.groups[id] else Partial(count, Empty(count), addr, now);
      if id in reaped.groups {
        ParkedFacts(id, entry, claims, now);
      }
      if entry.count == count && index < |entry.streams| && entry.streams[index].None? {
        FillKeeps(id, entry, index, stream, claims', now);
      }
    }
  }

  /** What `register` keeps and what its answers mean. A refusal touches nothing but
      what its time to live had already condemned; a returned group has exactly one
      stream per index, in index order, each registered under this id and count. */
  lemma RegisterKeeps<S(!new)>(r: Registry<S>, claims: set<Claim<S>>, clock: nat,
                               now: nat, id: u32, index: u8, count: u8, stream: S, addr: string)
    requires Inv(r, claims, clock) && clock <= now
    ensures var (r', answer) := Registering(r, now, id, index, count, stream, addr);
            var claims' := claims + {Claim(id, index, count, stream)};
            && Inv(r', claims', now)
            && (answer.Err? ==> if index >= count then r' == r else Aged(r, r', now))
            && (answer.Ok? && answer.value.Some? ==>
                  && id !in r'.groups
                  && |answer.value.value.streams| == count
                  && forall i :: 0 <= i < count ==>
                       Claim(id, i, count, answer.value.value.streams[i]) in claims')
            && (forall other :: other != id ==>
                  (other in r'.groups <==> other in r.groups && (index >= count || Young(r, other, now))))
            && (forall other :: other != id && other in r'.groups ==> r'.groups[other] == r.groups[other])
  {
    hide Inv, Aged, Young, Registering;
    RegisterInv(r, claims, clock, now, id, index, count, stream, addr);
    RegisterAges(r, claims, clock, now, id, index, count, stream, addr);
  }

  lemma RegisterAges<S(!new)>(r: Registry<S>, claims: set<Claim<S>>, clock: nat,
                              now: nat, id: u32, index: u8, count: u8, stream: S, addr: string)
    requires Inv(r, claims, clock) && clock <= now
    ensures var (r', answer) := Registering(r, now, id, index, count, stream, addr);
            && (answer.Err? ==> if index >= count then r' == r else Aged(r, r', now))
            && (forall other :: other != id ==>
                  (other in r'.groups <==> other in r.groups && (index >= count || Young(r, other, now))))
            && (forall other :: other != id && other in r'.groups ==> r'.groups[other] == r.groups[other])
  {
    ReapingIsAging(r, claims, clock, now, id);
    hide Inv, Live, PopExpired, Buried, Full, Empty, Values, Young, Tombstoned;
  }

  /** The stream parked for stripe `i` of group `id`. */
  function Parked<S>(groups: map<u32, Partial<S>>, id: u32, i: nat): Option<S> {
    if id in groups && i < |groups[id].streams| then groups[id].streams[i] else None
  }

  /** The stream a group younger than a minute holds for stripe `i`. */
  function Held<S>(r: Registry<S>, id: u32, now: nat, i: nat): Option<S> {
    if Young(r, id, now) then Parked(r.groups, id, i) else None
  }

  /** No stripe is lost or exchanged: a refusal comes exactly for a claim that is
      malformed, of another count than a young group's, or already in it; otherwise the stripe is dropped
      with its tombstoned group, or parked beside the ones already there, or returned
      together with exactly those. */
  lemma StripesConserved<S(!new)>(r: Registry<S>, claims: set<Claim<S>>, clock: nat,
                                  now: nat, id: u32, index: u8, count: u8, stream: S, addr: string)
    requires Inv(r, claims, clock) && clock <= now
    ensures var (r', answer) := Registering(r, now, id, index, count, stream, addr);
            var young, buried := Young(r, id, now), Tombstoned(r, id, now);
            && (answer.Err? <==>
                  || index >= count
                  || (!buried && young && (r.groups[id].count != count || Held(r, id, now, index).Some?)))
            && (answer == Ok(None) && buried ==> Aged(r, r', now))
            && (answer == Ok(None) && !buried ==>
                  && (forall i: nat ::
                        Parked(r'.groups, id, i) == if i == index then Some(stream) else Held(r, id, now, i))
                  && id in r'.groups && r'.groups[id].count == count
                  && r'.groups[id].started == (if young then r.groups[id].started else now)
                  && r'.groups[id].localAddr == (if young then r.groups[id].localAddr else addr))
            && (answer.Ok? && answer.value.Some? ==>
                  var streams := answer.value.value.streams;
                  && !buried && index < |streams| && streams[index] == stream
                  && (forall i: nat :: i < |streams| && i != index ==> Held(r, id, now, i) == Some(streams[i]))
                  && answer.value.value.localAddr == (if young then r.groups[id].localAddr else addr))
  {
    ReapingIsAging(r, claims, clock, now, id);
    ReapKeeps(r, claims, clock, now);
    EmptyParks<S>(count);
    var live := Live(r.groups, now);
    hide Live, Unexpired, PopExpired, Buried, Empty, Tombstoned;
    if id in live {
      ParkedFacts(id, live[id], claims, now);
    }
  }

  /** A stripe that is taken in completes its group if and only if every other index
      has been parked within the minute. */
  lemma CompletesExactly<S(!new)>(r: Registry<S>, claims: set<Claim<S>>, clock: nat,
                                  now: nat, id: u32, index: u8, count: u8, stream: S, addr: string)
    requires Inv(r, claims, clock) && clock <= now && !Tombstoned(r, id, now)
    requires Registering(r, now, id, index, count, stream, addr).1.Ok?
    ensures Registering(r, now, id, index, count, stream, addr).1.value.Some? <==>
            forall i: nat :: i < count && i != index as nat ==> Held(r, id, now, i).Some?
  {
    ReapingIsAging(r, claims, clock, now, id);
    ReapKeeps(r, claims, clock, now);
    EmptyParks<S>(count);
    var live := Live(r.groups, now);
    var entry := if id in live then live[id] else Partial(count, Empty(count), addr, now);
    if id in live {
      ParkedFacts(id, entry, claims, now);
    }
    hide Live, PopExpired, Buried, Empty, Inv, Tombstoned;
    var streams := entry.streams[index as nat := Some(stream)];
    assert Registering(r, now, id, index, count, stream, addr).1.value.Some? <==> Full(streams);
    forall i: nat | i < count && i != index as nat ensures Held(r, id, now, i).Some? <==> streams[i].Some? {
      assert streams[i] == entry.streams[i];
    }
  }

  lemma LiveSubset<S>(groups: map<u32, Partial<S>>, now: nat)
    ensures forall id :: id in Live(groups, now) ==> id in groups && Live(groups, now)[id] == groups[id]
  {
  }

  lemma EmptyParks<S>(count: u8)
    ensures |Empty<S>(count)| == count && forall i :: 0 <= i < count ==> Empty<S>(count)[i].None?
  {
  }

  lemma ParkedFacts<S(!new)>(id: u32, g: Partial<S>, claims: set<Claim<S>>, now: nat)
    requires ParkedOk(id, g, claims, now)
    ensures |g.streams| == g.count >= 1 && g.started <= now
    ensures forall i :: 0 <= i < |g.streams| && g.streams[i].Some? ==>
              Claim(id, i, g.count, g.streams[i].value) in claims
  {
  }

  lemma SameLater<S(!new)>(r: Registry<S>, claims: set<Claim<S>>, more: set<Claim<S>>, clock: nat, now: nat)
    requires Inv(r, claims, clock) && clock <= now && claims <= more
    ensures Inv(r, more, now)
    ensures forall id :: id in Live(r.groups, now) ==> id in r.groups
  {
  }

  lemma ReleaseKeeps<S(!new)>(r: Registry<S>, claims: set<Claim<S>>, clock: nat, now: nat, id: u32)
    requires Inv(r, claims, clock) && clock <= now
    ensures var (r', found) := Releasing(r, now, id);
            && Inv(r', claims, now) && Buried(r'.released, id)
            && r'.groups == r.groups - {id} && (found <==> id in r.groups)
  {
    hide ParkedOk;
    var kept := Unexpired(r.released, now);
    UnexpiredOrdered(r.released, clock, now);
    var ts := kept + [Tombstone(id, now)];
    var released := Newest(ts);
    assert released[|released| - 1] == Tombstone(id, now);
    forall t | t in released && t != Tombstone(id, now) ensures t in r.released {
      assert t in ts;
    }
    assert TimeOrdered(ts, now);
    forall g | g in r.groups && g != id ensures ParkedOk(g, r.groups[g], claims, now) && !Buried(released, g) {
      LaterParked(g, r.groups[g], claims, clock, now);
      forall i | 0 <= i < |released| ensures released[i].id != g {
        if released[i] != Tombstone(id, now) {
          assert released[i] in released;
          var j :| 0 <= j < |r.released| && r.released[j] == released[i];
        }
      }
    }
  }

  /** Which tombstones a release leaves: its own, and of the others those younger than a
      minute, except that the oldest go when there would be more than 512. */
  lemma ReleaseForgets<S(!new)>(r: Registry<S>, claims: set<Claim<S>>, clock: nat, now: nat, id: u32)
    requires Inv(r, claims, clock) && clock <= now
    ensures var released := Releasing(r, now, id).0.released;
            && Tombstone(id, now) in released && |released| <= 512
            && (forall t :: t in released ==> t == Tombstone(id, now) || (t in r.released && now - t.at < 60_000))
            && (forall t :: t in r.released && now - t.at < 60_000 ==>
                  t in released || (|released| == 512 && forall k :: k in released ==> t.at <= k.at))
  {
    StaysOrdered(r.released, clock, now);
    YoungerThan(r.released, clock, now);
    hide ParkedOk, Unexpired, Buried;
    var kept := Unexpired(r.released, now);
    var ts := kept + [Tombstone(id, now)];
    assert TimeOrdered(ts, now);
    hide TimeOrdered, Inv, Newest;
    NewestKeeps(ts, now);
    assert ts[|ts| - 1] == Tombstone(id, now);
    assert forall t :: t in ts <==> t in kept || t == Tombstone(id, now);
  }

  lemma YoungerThan(ts: seq<Tombstone>, clock: nat, now: nat)
    requires TimeOrdered(ts, clock) && clock <= now
    ensures forall t :: t in Unexpired(ts, now) <==> t in ts && now - t.at < 60_000
  {
    UnexpiredMembers(ts, now);
    hide Unexpired;
    forall t | t in ts ensures t.at <= now {
      var i :| 0 <= i < |ts| && ts[i] == t;
    }
  }

  lemma NewestKeeps(ts: seq<Tombstone>, now: nat)
    requires TimeOrdered(ts, now) && ts != []
    ensures var kept := Newest(ts);
            && |kept| <= 512 && ts[|ts| - 1] in kept && (forall t :: t in kept ==> t in ts)
            && forall t :: t in ts ==> t in kept || (|kept| == 512 && forall k :: k in kept ==> t.at <= k.at)
  {
    var kept := Newest(ts);
    assert kept[|kept| - 1] == ts[|ts| - 1];
    if |ts| > 512 {
      var cut := |ts| - 512;
      forall t | t in ts && t !in kept ensures forall k :: k in kept ==> t.at <= k.at {
        var i :| 0 <= i < |ts| && ts[i] == t;
        assert forall m :: cut <= m < |ts| ==> ts[m] == kept[m - cut];
        assert i < cut;
        forall k | k in kept ensures t.at <= k.at {
          var j :| 0 <= j < |kept| && kept[j] == k;
          assert ts[cut + j] == k;
        }
      }
    }
  }

  lemma LaterParked<S(!new)>(id: u32, g: Partial<S>, claims: set<Claim<S>>, clock: nat, now: nat)
    requires ParkedOk(id, g, claims, clock) && clock <= now
    ensures ParkedOk(id, g, claims, now)
  {
  }

  /** A stripe that lands after its group was released is dropped, not parked, for
      as long as the tombstone is younger than its time to live. */
  lemma TombstoneDrops<S(!new)>(r: Registry<S>, claims: set<Claim<S>>, clock: nat, now: nat, t: Tombstone,
                                index: u8, count: u8, stream: S, addr: string)
    requires Inv(r, claims, clock) && clock <= now && t in r.released && now - t.at < 60_000
    requires index < count
    ensures var (r', answer) := Registering(r, now, t.id, index, count, stream, addr);
            answer == Ok(None) && t.id !in r'.groups && t in r'.released
  {
    var i :| 0 <= i < |r.released| && r.released[i] == t;
    assert Tombstoned(r, t.id, now) && Buried(r.released, t.id);
    assert t.id !in r.groups;
    hide Inv, Registering, Tombstoned, Buried;
    StripesConserved(r, claims, clock, now, t.id, index, count, stream, addr);
  }

  // --------------------------------------------------------------- every run

  datatype Step<S> =
    | Registered(now: nat, id: u32, index: u8, count: u8, stream: S, addr: string)
    | Released(now: nat, id: u32)

  datatype World<S(==)> = World(r: Registry<S>, claims: set<Claim<S>>, clock: nat)

  ghost predicate Next<S(!new)>(w: World<S>, w': World<S>, step: Step<S>) {
    && step.now >= w.clock
    && match step
       case Registered(now, id, index, count, stream, addr) =>
         w' == World(Registering(w.r, now, id, index, count, stream, addr).0,
                     w.claims + {Claim(id, index, count, stream)}, now)
       case Released(now, id) => w' == World(Releasing(w.r, now, id).0, w.claims, now)
  }

  ghost predicate IsRun<S(!new)>(run: seq<World<S>>, steps: seq<Step<S>>) {
    && |run| == |steps| + 1 && run[0].r == Registry(map[], [])
    && forall i :: 0 <= i < |steps| ==> Next(run[i], run[i + 1], steps[i])
  }

  /** In every state of every run with a clock that does not run back: parked groups
      are incomplete, none is also tombstoned, and the tombstones are in time order
      and at most 512. */
  lemma {:induction false} RegistryRun<S(!new)>(run: seq<World<S>>, steps: seq<Step<S>>, i: nat)
    requires IsRun(run, steps) && i < |run|
    ensures Inv(run[i].r, run[i].claims, run[i].clock)
  {
    if i > 0 {
      RegistryRun(run, steps, i - 1);
      hide Inv, Registering, Releasing;
      var w, w', step := run[i - 1], run[i], steps[i - 1];
      assert Next(w, w', step);
      match step
      case Registered(now, id, index, count, stream, addr) =>
        RegisterKeeps(w.r, w.claims, w.clock, now, id, index, count, stream, addr);
      case Released(now, id) =>
        ReleaseKeeps(w.r, w.claims, w.clock, now, id);
    }
  }

  // -------------------------------------------------- a group comes together

  /** The streams registered for group `id` in the steps from `f` up to `m`, by index. */
  function Claimed<S>(steps: seq<Step<S>>, f: nat, m: nat, id: u32): map<nat, S>
    requires f <= m <= |steps|
  {
    if m == f then map[]
    else
      var before, step := Claimed(steps, f, m - 1, id), steps[m - 1];
      if step.Registered? && step.id == id then before[step.index as nat := step.stream] else before
  }

  /** From step `f` to `l`: the group is not released, every stripe of it claims the same
      count and another index, and no step is a minute or more after step `f`. */
  predicate Gathering<S>(steps: seq<Step<S>>, f: nat, l: nat, id: u32, count: u8) {
    && f <= l < |steps|
    && forall m :: f <= m <= l ==>
         && steps[m].now - steps[f].now < 60_000
         && (steps[m].id == id ==>
               && steps[m].Registered? && steps[m].count == count && steps[m].index < count
               && steps[m].index as nat !in Claimed(steps, f, m, id))
  }

  /** The group is parked with exactly the streams `claimed`, since `at`. */
  predicate ParkedAs<S(==)>(r: Registry<S>, id: u32, count: u8, at: nat, addr: string, claimed: map<nat, S>) {
    && id in r.groups && r.groups[id].count == count && r.groups[id].started == at && r.groups[id].localAddr == addr
    && forall i: nat :: i < count ==> Parked(r.groups, id, i) == if i in claimed then Some(claimed[i]) else None
  }

  predicate AllIndices<S>(claimed: map<nat, S>, count: u8) {
    forall i: nat :: i < count ==> i in claimed
  }

  predicate NoTombstone<S>(r: Registry<S>, id: u32, at: nat) {
    forall t :: t in r.released && t.id == id ==> t.at + 60_000 <= at
  }

  lemma NotTombstoned<S>(r: Registry<S>, id: u32, at: nat, now: nat)
    requires NoTombstone(r, id, at) && at <= now
    ensures !Tombstoned(r, id, now)
  {
    forall i | 0 <= i < |r.released| ensures !(r.released[i].id == id && now - r.released[i].at < 60_000) {
      assert r.released[i] in r.released;
    }
  }

  /** No step but its own release gives a group a tombstone. */
  lemma NoNewTombstone<S(!new)>(w: World<S>, w': World<S>, step: Step<S>, id: u32, at: nat)
    requires Inv(w.r, w.claims, w.clock) && Next(w, w', step) && NoTombstone(w.r, id, at)
    requires step.id == id ==> step.Registered?
    ensures NoTombstone(w'.r, id, at)
  {
    if step.Registered? {
      TombstonesAge(w.r.released, w.clock, step.now, id);
      hide PopExpired, Live, Buried, Full, Empty, Values, TimeOrdered;
      assert w'.r.released == w.r.released || w'.r.released == PopExpired(w.r.released, step.now);
    } else {
      UnexpiredMembers(w.r.released, step.now);
      var ts := Unexpired(w.r.released, step.now) + [Tombstone(step.id, step.now)];
      hide Unexpired;
      forall t | t in Newest(ts) && t.id == id ensures t.at + 60_000 <= at {
        assert t in ts;
      }
    }
  }

  /** A step of another group leaves a young one as it is. */
  lemma OtherStep<S(!new)>(w: World<S>, w': World<S>, step: Step<S>, id: u32, count: u8, at: nat, addr: string,
                           claimed: map<nat, S>)
    requires Inv(w.r, w.claims, w.clock) && Next(w, w', step) && step.id != id && step.now - at < 60_000
    requires ParkedAs(w.r, id, count, at, addr, claimed)
    ensures ParkedAs(w'.r, id, count, at, addr, claimed)
  {
    hide Inv, Registering, Aged;
    match step
    case Registered(now, other, index, cnt, stream, a) =>
      RegisterAges(w.r, w.claims, w.clock, now, other, index, cnt, stream, a);
    case Released(now, other) =>
  }

  /** A further stripe of the group: parked with the others, or the group is complete. */
  lemma OwnStep<S(!new)>(w: World<S>, step: Step<S>, at: nat, addr: string, claimed: map<nat, S>)
    requires step.Registered? && Inv(w.r, w.claims, w.clock) && w.clock <= step.now && 0 <= step.now - at < 60_000
    requires ParkedAs(w.r, step.id, step.count, at, addr, claimed) && NoTombstone(w.r, step.id, at)
    requires step.index < step.count && step.index as nat !in claimed
    ensures var (r', answer) := Registering(w.r, step.now, step.id, step.index, step.count, step.stream, step.addr);
            var claimed' := claimed[step.index as nat := step.stream];
            if AllIndices(claimed', step.count) then Gives(answer, step.count, addr, claimed')
            else answer == Ok(None) && ParkedAs(r', step.id, step.count, at, addr, claimed')
  {
    hide Inv, Registering, Tombstoned, Aged, Parked, NoTombstone;
    NotTombstoned(w.r, step.id, at, step.now);
    StripesConserved(w.r, w.claims, w.clock, step.now, step.id, step.index, step.count, step.stream, step.addr);
    RegisterInv(w.r, w.claims, w.clock, step.now, step.id, step.index, step.count, step.stream, step.addr);
    CompletesExactly(w.r, w.claims, w.clock, step.now, step.id, step.index, step.count, step.stream, step.addr);
    var claimed' := claimed[step.index as nat := step.stream];
    assert Young(w.r, step.id, step.now);
    forall i: nat | i < step.count && i != step.index as nat
      ensures Held(w.r, step.id, step.now, i) == if i in claimed' then Some(claimed'[i]) else None
    {
      assert i in claimed' <==> i in claimed;
    }
    assert Held(w.r, step.id, step.now, step.index as nat) == None;
  }

  /** The answer returns the group: one stream per index, the claimed ones. */
  predicate Gives<S(==)>(answer: Result<Option<Complete<S>>, Refusal>, count: u8, addr: string, claimed: map<nat, S>) {
    && answer.Ok? && answer.value.Some?
    && var group := answer.value.value;
       && |group.streams| == count && group.localAddr == addr
       && forall i :: 0 <= i < count ==> i in claimed && group.streams[i] == claimed[i]
  }

  /** The first stripe of a group. */
  lemma FirstStep<S(!new)>(w: World<S>, step: Step<S>)
    requires step.Registered? && Inv(w.r, w.claims, w.clock) && w.clock <= step.now
    requires !Young(w.r, step.id, step.now) && NoTombstone(w.r, step.id, step.now) && step.index < step.count
    ensures var (r', answer) := Registering(w.r, step.now, step.id, step.index, step.count, step.stream, step.addr);
            var claimed := map[step.index as nat := step.stream];
            if AllIndices(claimed, step.count) then Gives(answer, step.count, step.addr, claimed)
            else answer == Ok(None) && ParkedAs(r', step.id, step.count, step.now, step.addr, claimed)
  {
    hide Inv, Registering, Tombstoned, Aged, Parked, NoTombstone;
    NotTombstoned(w.r, step.id, step.now, step.now);
    StripesConserved(w.r, w.claims, w.clock, step.now, step.id, step.index, step.count, step.stream, step.addr);
    RegisterInv(w.r, w.claims, w.clock, step.now, step.id, step.index, step.count, step.stream, step.addr);
    CompletesExactly(w.r, w.claims, w.clock, step.now, step.id, step.index, step.count, step.stream, step.addr);
    assert forall i: nat :: Held(w.r, step.id, step.now, i) == None;
    var claimed := map[step.index as nat := step.stream];
    var other: nat := if step.index == 0 then 1 else 0;
    assert Held(w.r, step.id, step.now, other).None? && other !in claimed;
  }

  /** Until its last stripe the group stays parked with what has come. */
  lemma {:induction false} StaysParked<S(!new)>(run: seq<World<S>>, steps: seq<Step<S>>, f: nat, m: nat, l: nat,
                                                id: u32, count: u8, missing: nat)
    requires IsRun(run, steps) && Gathering(steps, f, l, id, count) && f < m <= l
    requires steps[f].id == id && !Young(run[f].r, id, steps[f].now) && NoTombstone(run[f].r, id, steps[f].now)
    requires missing < count && missing !in Claimed(steps, f, m, id)
    ensures ParkedAs(run[m].r, id, count, steps[f].now, steps[f].addr, Claimed(steps, f, m, id))
    ensures NoTombstone(run[m].r, id, steps[f].now)
  {
    ClaimedGrows(steps, f, m, id, missing);
    hide Inv, Young, ParkedAs, NoTombstone, Next, Claimed;
    if m - 1 == f {
      BeginsParked(run, steps, f, l, id, count, missing);
    } else {
      StaysParked(run, steps, f, m - 1, l, id, count, missing);
      ContinuesParked(run, steps, f, m, l, id, count, missing);
    }
  }

  lemma ClaimedGrows<S>(steps: seq<Step<S>>, f: nat, m: nat, id: u32, missing: nat)
    requires f < m <= |steps| && missing !in Claimed(steps, f, m, id)
    ensures missing !in Claimed(steps, f, m - 1, id)
  {
  }

  lemma BeginsParked<S(!new)>(run: seq<World<S>>, steps: seq<Step<S>>, f: nat, l: nat, id: u32, count: u8, missing: nat)
    requires IsRun(run, steps) && Gathering(steps, f, l, id, count)
    requires steps[f].id == id && !Young(run[f].r, id, steps[f].now) && NoTombstone(run[f].r, id, steps[f].now)
    requires missing < count && missing !in Claimed(steps, f, f + 1, id)
    ensures ParkedAs(run[f + 1].r, id, count, steps[f].now, steps[f].addr, Claimed(steps, f, f + 1, id))
    ensures NoTombstone(run[f + 1].r, id, steps[f].now)
  {
    GatheredAt(steps, f, f, l, id, count);
    RunStep(run, steps, f);
    ClaimedNext(steps, f, f + 1, id);
    hide IsRun, Inv, Young, ParkedAs, NoTombstone, Next, Claimed, Gathering;
    FirstParks(run[f], run[f + 1], steps[f], missing);
    NoNewTombstone(run[f], run[f + 1], steps[f], id, steps[f].now);
  }

  lemma ContinuesParked<S(!new)>(run: seq<World<S>>, steps: seq<Step<S>>, f: nat, m: nat, l: nat, id: u32, count: u8,
                                 missing: nat)
    requires IsRun(run, steps) && Gathering(steps, f, l, id, count) && f < m - 1 < m <= l && steps[f].id == id
    requires ParkedAs(run[m - 1].r, id, count, steps[f].now, steps[f].addr, Claimed(steps, f, m - 1, id))
    requires NoTombstone(run[m - 1].r, id, steps[f].now)
    requires missing < count && missing !in Claimed(steps, f, m, id)
    ensures ParkedAs(run[m].r, id, count, steps[f].now, steps[f].addr, Claimed(steps, f, m, id))
    ensures NoTombstone(run[m].r, id, steps[f].now)
  {
    GatheredAt(steps, f, m - 1, l, id, count);
    RunStep(run, steps, m - 1);
    ClockForward(run, steps, f, m - 1);
    ClaimedNext(steps, f, m, id);
    hide IsRun, Inv, Young, ParkedAs, NoTombstone, Next, Claimed, Gathering;
    NextParks(run[m - 1], run[m], steps[m - 1], id, count, steps[f].now, steps[f].addr, Claimed(steps, f, m - 1, id), missing);
    NoNewTombstone(run[m - 1], run[m], steps[m - 1], id, steps[f].now);
  }

  lemma RunStep<S(!new)>(run: seq<World<S>>, steps: seq<Step<S>>, m: nat)
    requires IsRun(run, steps) && m < |steps|
    ensures |run| == |steps| + 1 && Inv(run[m].r, run[m].claims, run[m].clock) && Next(run[m], run[m + 1], steps[m])
  {
    RegistryRun(run, steps, m);
  }

  lemma GatheredAt<S>(steps: seq<Step<S>>, f: nat, m: nat, l: nat, id: u32, count: u8)
    requires Gathering(steps, f, l, id, count) && f <= m <= l
    ensures steps[m].now - steps[f].now < 60_000
    ensures steps[m].id == id ==>
              && steps[m].Registered? && steps[m].count == count && steps[m].index < count
              && steps[m].index as nat !in Claimed(steps, f, m, id)
  {
  }

  lemma ClaimedNext<S>(steps: seq<Step<S>>, f: nat, m: nat, id: u32)
    requires f < m <= |steps|
    ensures Claimed(steps, f, f, id) == map[]
    ensures var before, step := Claimed(steps, f, m - 1, id), steps[m - 1];
            Claimed(steps, f, m, id) ==
            if step.Registered? && step.id == id then before[step.index as nat := step.stream] else before
  {
  }

  lemma FirstParks<S(!new)>(w: World<S>, w': World<S>, step: Step<S>, missing: nat)
    requires step.Registered? && Inv(w.r, w.claims, w.clock) && Next(w, w', step)
    requires !Young(w.r, step.id, step.now) && NoTombstone(w.r, step.id, step.now) && step.index < step.count
    requires missing < step.count && missing !in map[step.index as nat := step.stream]
    ensures ParkedAs(w'.r, step.id, step.count, step.now, step.addr, map[step.index as nat := step.stream])
  {
    hide Inv, Young, ParkedAs, NoTombstone, Registering;
    FirstStep(w, step);
  }

  lemma NextParks<S(!new)>(w: World<S>, w': World<S>, step: Step<S>, id: u32, count: u8, at: nat, addr: string,
                           claimed: map<nat, S>, missing: nat)
    requires Inv(w.r, w.claims, w.clock) && Next(w, w', step) && 0 <= step.now - at < 60_000
    requires ParkedAs(w.r, id, count, at, addr, claimed) && NoTombstone(w.r, id, at)
    requires step.id == id ==> step.Registered? && step.count == count && step.index < count && step.index as nat !in claimed
    requires var after := if step.Registered? && step.id == id then claimed[step.index as nat := step.stream] else claimed;
             missing < count && missing !in after
    ensures var after := if step.Registered? && step.id == id then claimed[step.index as nat := step.stream] else claimed;
            ParkedAs(w'.r, id, count, at, addr, after)
  {
    hide Inv, ParkedAs, NoTombstone, Registering, Releasing;
    if step.id == id {
      OwnStep(w, step, at, addr, claimed);
    } else {
      OtherStep(w, w', step, id, count, at, addr, claimed);
    }
  }

  lemma {:induction false} ClockForward<S(!new)>(run: seq<World<S>>, steps: seq<Step<S>>, f: nat, m: nat)
    requires IsRun(run, steps) && f <= m < |steps|
    ensures steps[f].now <= steps[m].now
  {
    if f < m {
      ClockForward(run, steps, f, m - 1);
      assert Next(run[m - 1], run[m], steps[m - 1]) && Next(run[m], run[m + 1], steps[m]);
    }
  }

  /** In every run, when the stripes of one group come in any order, with anything in
      between, within a minute of the first, and the group is not released: the stripe
      that is the last index missing returns the whole group, in index order, exactly
      the streams that were registered, with the address the first one came with. */
  lemma GroupCompletes<S(!new)>(run: seq<World<S>>, steps: seq<Step<S>>, f: nat, l: nat, id: u32, count: u8)
    requires IsRun(run, steps) && Gathering(steps, f, l, id, count) && steps[f].id == id && steps[l].id == id
    requires !Young(run[f].r, id, steps[f].now) && NoTombstone(run[f].r, id, steps[f].now)
    requires AllIndices(Claimed(steps, f, l + 1, id), count)
    ensures var s := steps[l];
            Gives(Registering(run[l].r, s.now, s.id, s.index, s.count, s.stream, s.addr).1, count, steps[f].addr,
                  Claimed(steps, f, l + 1, id))
  {
    var w, step := run[l], steps[l];
    RegistryRun(run, steps, l);
    assert Next(w, run[l + 1], step);
    hide Inv, Young, ParkedAs, NoTombstone, Registering, Releasing, Gives;
    if f == l {
      assert Claimed(steps, f, f, id) == map[];
      assert Claimed(steps, f, l + 1, id) == map[step.index as nat := step.stream];
      FirstStep(w, step);
    } else {
      StaysParked(run, steps, f, l, l, id, count, step.index as nat);
      ClockForward(run, steps, f, l);
      OwnStep(w, step, steps[f].now, steps[f].addr, Claimed(steps, f, l, id));
    }
  }

  // --------------------------------------------------------------- the object

  class StripeRegistry<S(!new)> {
    var groups: map<u32, Partial<S>>
    var released: seq<Tombstone>

    ghost function View(): Registry<S>
      reads this
    {
      Registry(groups, released)
    }

    /** A parked group has one slot per stripe. */
    ghost predicate Valid()
      reads this
    {
      forall g :: g in groups ==> |groups[g].streams| == groups[g].count
    }

    constructor ()
      ensures Valid() && View() == Registry(map[], [])
    {
      groups, released := map[], [];
    }

    method Register(now: nat, id: u32, index: u8, count: u8, stream: S, addr: string)
      returns (answer: Result<Option<Complete<S>>, Refusal>)
      requires Valid()
      modifies this
      ensures Valid()
      ensures (View(), answer) == Registering(old(View()), now, id, index, count, stream, addr)
    {
      if !(count >= 1 && index < count) {
        return Err(BadClaim);
      }
      groups := map g | g in groups && Elapsed(now, groups[g].started) < GROUP_TTL :: groups[g];
      while released != [] && Elapsed(now, released[0].at) >= GROUP_TTL
        invariant PopExpired(released, now) == PopExpired(old(released), now)
        invariant groups == Live(old(groups), now)
        decreases |released|
      {
        released := released[1..];
      }
      assert View() == Registry(Live(old(groups), now), PopExpired(old(released), now));
      hide Live, PopExpired, Empty;
      if exists i :: 0 <= i < |released| && released[i].id == id {
        return Ok(None);
      }
      EmptyParks<S>(count);
      LiveSubset(old(groups), now);
      var entry := if id in groups then groups[id] else Partial(count, Empty(count), addr, now);
      if entry.count != count {
        return Err(MixedCounts);
      }
      if entry.streams[index].Some? {
        return Err(SecondStripe);
      }
      entry := entry.(streams := entry.streams[index := Some(stream)]);
      if forall i :: 0 <= i < |entry.streams| ==> entry.streams[i].Some? {
        groups := groups - {id};
        return Ok(Some(Complete(Values(entry.streams), entry.localAddr)));
      }
      groups := groups[id := entry];
      answer := Ok(None);
    }

    method Release(now: nat, id: u32) returns (found: bool)
      requires Valid()
      modifies this
      ensures Valid()
      ensures (View(), found) == Releasing(old(View()), now, id)
    {
      released := Unexpired(released, now) + [Tombstone(id, now)];
      ghost var all := released;
      while |released| > MAX_RELEASED
        invariant Newest(released) == Newest(all) && groups == old(groups)
        decreases |released|
      {
        released := released[1..];
      }
      found := id in groups;
      groups := groups - {id};
    }
  }
}
