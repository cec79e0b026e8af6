/** The peer table of the discovery service: multicast announcements come in,
    peers are inserted on first sighting, refreshed on later ones, and swept
    out once they have been silent for longer than the timeout.
    The UDP socket and the two interval timers are not modelled; each
    received datagram (already run through `JSON.parse`), its source address
    and the current time are passed in. */
module Discovery {
  import opened JsValue

  const DiscoveryPort: int := 54321
  const MulticastAddress: string := "224.0.0.251"
  const TransferPort: int := 54322
  const AnnounceIntervalMs: int := 5000
  const SweepIntervalMs: int := 5000
  /** A peer is stale once its last sighting is strictly more than this old. */
  const PeerTimeoutMs: int := 15000

  /** What this device says about itself; fixed at construction. */
  datatype DeviceInfo = DeviceInfo(
    id: string, name: string, platform: string, deviceType: string,
    ip: string, port: int, timestamp: int)

  /** A peer record. Every field but `ip` and `lastSeen` is copied from the
      announcement, so it is whatever the sender put there (or `undefined`). */
  datatype Peer = Peer(
    id: Prop, name: Prop, platform: Prop, peerType: Prop,
    ip: string, port: Prop, lastSeen: int)

  datatype Event = PeerFound(peer: Peer) | PeerLost(id: Prop)

  /** The `Map` from announced device id to peer, with its insertion order
      (the order `getPeers` lists the values in). */
  datatype Table = Table(order: seq<Prop>, peers: map<Prop, Peer>)

  const EmptyTable: Table := Table([], map[])

  /** One entry per id, keys in `order` exactly once, every record stored
      under its own id, never the local id, and always of type "announce". */
  predicate TableInvariant(localId: string, t: Table) {
    && Distinct(t.order)
    && (forall i | 0 <= i < |t.order| :: t.order[i] in t.peers)
    && (forall k | k in t.peers :: k in t.order)
    && (forall k | k in t.peers ::
          && t.peers[k].id == k
          && k != Val(JStr(localId))
          && t.peers[k].peerType == Val(JStr("announce")))
  }

  /** The filter on a parsed datagram. A datagram that parsed to `null`
      throws on `data.type`, which the handler catches: it is not accepted
      either, and `Get` gives `undefined` for it. */
  predicate Accepts(localId: string, data: Json) {
    && StrictEq(Get(data, "type"), Val(JStr("announce")))
    && !StrictEq(Get(data, "deviceId"), Val(JStr(localId)))
  }

  /** The record built from an accepted datagram: the ip is the packet's
      source address, never a field of the payload. */
  function PeerOf(data: Json, address: string, now: int): (p: Peer)
    ensures p.ip == address && p.lastSeen == now
    ensures p.id == Get(data, "deviceId") && p.name == Get(data, "name")
  {
    Peer(Get(data, "deviceId"), Get(data, "name"), Get(data, "platform"),
         Get(data, "type"), address, Get(data, "port"), now)
  }

  /** The effect of one received datagram on the table, and the events it
      emits. `None` is a datagram that `JSON.parse` rejected. */
  function Receive(t: Table, localId: string, data: Option<Json>, address: string, now: int)
    : (r: (Table, seq<Event>))
  {
    match data
    case None => (t, [])
    case Some(d) =>
      if !Accepts(localId, d) then (t, [])
      else
        var p := PeerOf(d, address, now);
        if p.id !in t.peers then
          (Table(t.order + [p.id], t.peers[p.id := p]), [PeerFound(p)])
        else
          (Table(t.order, t.peers[p.id := t.peers[p.id].(lastSeen := now)]), [])
  }

  /** A datagram that is not JSON, or not an announcement from another
      device, changes nothing and emits nothing. */
  lemma ReceiveIgnored(t: Table, localId: string, data: Option<Json>, address: string, now: int)
    requires data.None? || !Accepts(localId, data.value)
    ensures Receive(t, localId, data, address, now) == (t, [])
  {
  }

  /** The local id never passes the filter. */
  lemma SelfAnnouncementRejected(localId: string, d: Json)
    requires Get(d, "deviceId") == Val(JStr(localId))
    ensures !Accepts(localId, d)
  {
  }

  /** First sighting: the id is appended, the record carries the source
      address and `now`, and `peer-found` is emitted once. */
  lemma ReceiveFirstSighting(t: Table, localId: string, d: Json, address: string, now: int)
    requires Accepts(localId, d) && Get(d, "deviceId") !in t.peers
    ensures var (t', ev) := Receive(t, localId, Some(d), address, now);
      && t'.order == t.order + [Get(d, "deviceId")]
      && t'.peers.Keys == t.peers.Keys + {Get(d, "deviceId")}
      && t'.peers[Get(d, "deviceId")].ip == address
      && t'.peers[Get(d, "deviceId")].lastSeen == now
      && (forall k | k in t.peers :: t'.peers[k] == t.peers[k])
      && ev == [PeerFound(t'.peers[Get(d, "deviceId")])]
  {
  }

  /** Repeat sighting: only `lastSeen` of that record changes; name,
      platform, port and ip keep their first values; nothing is emitted. */
  lemma ReceiveRepeatSighting(t: Table, localId: string, d: Json, address: string, now: int)
    requires Accepts(localId, d) && Get(d, "deviceId") in t.peers
    ensures var (t', ev) := Receive(t, localId, Some(d), address, now);
      var id := Get(d, "deviceId");
      && t'.order == t.order
      && t'.peers.Keys == t.peers.Keys
      && t'.peers[id] == t.peers[id].(lastSeen := now)
      && (forall k | k in t.peers && k != id :: t'.peers[k] == t.peers[k])
      && ev == []
  {
  }

  /** Every received datagram keeps the table invariant: at most one record
      per id, none for the local id, all of type "announce". */
  lemma ReceivePreservesInvariant(t: Table, localId: string, data: Option<Json>, address: string, now: int)
    requires TableInvariant(localId, t)
    ensures TableInvariant(localId, Receive(t, localId, data, address, now).0)
  {
    if data.Some? && Accepts(localId, data.value) {
      var d := data.value;
      StrictEqString(Get(d, "type"), "announce");
      StrictEqString(Get(d, "deviceId"), localId);
      var id := Get(d, "deviceId");
      if id !in t.peers {
        var t' := Receive(t, localId, data, address, now).0;
        assert t'.order == t.order + [id];
        assert forall i | 0 <= i < |t.order| :: t.order[i] != id;
      }
    }
  }

  /** A peer is stale when `now - lastSeen > 15000`, strictly. */
  predicate IsStale(peers: map<Prop, Peer>, id: Prop, now: int) {
    id in peers && now - peers[id].lastSeen > PeerTimeoutMs
  }

  /** The ids of `order` the sweep removes, in iteration order. */
  function StaleIds(order: seq<Prop>, peers: map<Prop, Peer>, now: int): (r: seq<Prop>)
  {
    if order == [] then []
    else
      var last := order[|order| - 1];
      StaleIds(order[..|order| - 1], peers, now) + (if IsStale(peers, last, now) then [last] else [])
  }

  /** The ids of `order` the sweep keeps, in their original order. */
  function Survivors(order: seq<Prop>, peers: map<Prop, Peer>, now: int): (r: seq<Prop>)
  {
    if order == [] then []
    else
      var last := order[|order| - 1];
      Survivors(order[..|order| - 1], peers, now) + (if IsStale(peers, last, now) then [] else [last])
  }

  /** One `peer-lost` per id, in the same order. */
  function LostEvents(ids: seq<Prop>): (ev: seq<Event>)
  {
    if ids == [] then [] else LostEvents(ids[..|ids| - 1]) + [PeerLost(ids[|ids| - 1])]
  }

  /** The table after a sweep at `now`, and the ids it reports lost. */
  function Sweep(t: Table, now: int): (r: (Table, seq<Prop>))
  {
    (Table(Survivors(t.order, t.peers, now),
           map k | k in t.peers && !IsStale(t.peers, k, now) :: t.peers[k]),
     StaleIds(t.order, t.peers, now))
  }

  /** An id of a sequence without repeats is either stale or a survivor, never both. */
  lemma {:induction false} SweepSplits(order: seq<Prop>, peers: map<Prop, Peer>, now: int, k: Prop)
    ensures k in order && IsStale(peers, k, now) <==> k in StaleIds(order, peers, now)
    ensures k in order && !IsStale(peers, k, now) <==> k in Survivors(order, peers, now)
  {
    if order != [] {
      SweepSplits(order[..|order| - 1], peers, now, k);
      assert order == order[..|order| - 1] + [order[|order| - 1]];
    }
  }

  /** Without repeats in `order`, no id is reported lost twice. */
  lemma {:induction false} StaleIdsDistinct(order: seq<Prop>, peers: map<Prop, Peer>, now: int)
    requires forall i, j | 0 <= i < j < |order| :: order[i] != order[j]
    ensures var r := StaleIds(order, peers, now);
      forall i, j | 0 <= i < j < |r| :: r[i] != r[j]
  {
    if order != [] {
      var init := order[..|order| - 1];
      var last := order[|order| - 1];
      StaleIdsDistinct(init, peers, now);
      SweepSplits(init, peers, now, last);
      assert last !in init;
    }
  }

  /** Without repeats in `order`, neither are there among the survivors. */
  lemma {:induction false} SurvivorsDistinct(order: seq<Prop>, peers: map<Prop, Peer>, now: int)
    requires forall i, j | 0 <= i < j < |order| :: order[i] != order[j]
    ensures var r := Survivors(order, peers, now);
      forall i, j | 0 <= i < j < |r| :: r[i] != r[j]
  {
    if order != [] {
      var init := order[..|order| - 1];
      var last := order[|order| - 1];
      SurvivorsDistinct(init, peers, now);
      SweepSplits(init, peers, now, last);
      assert last !in init;
    }
  }

  /** The sweep removes exactly the stale peers, leaves every other record
      untouched, reports each removed id exactly once, and keeps the
      table invariant. */
  lemma SweepExact(localId: string, t: Table, now: int)
    requires TableInvariant(localId, t)
    ensures var (t', lost) := Sweep(t, now);
      && TableInvariant(localId, t')
      && (forall k :: k in t'.peers <==> k in t.peers && now - t.peers[k].lastSeen <= PeerTimeoutMs)
      && (forall k | k in t'.peers :: t'.peers[k] == t.peers[k])
      && (forall k :: k in lost <==> k in t.peers && now - t.peers[k].lastSeen > PeerTimeoutMs)
      && (forall i, j | 0 <= i < j < |lost| :: lost[i] != lost[j])
  {
    var (t', lost) := Sweep(t, now);
    forall k ensures k in t'.order <==> k in t'.peers {
      SweepSplits(t.order, t.peers, now, k);
    }
    forall k ensures k in lost <==> k in t.peers && now - t.peers[k].lastSeen > PeerTimeoutMs {
      SweepSplits(t.order, t.peers, now, k);
    }
    SurvivorsDistinct(t.order, t.peers, now);
    StaleIdsDistinct(t.order, t.peers, now);
    assert t'.order == Survivors(t.order, t.peers, now);
    assert lost == StaleIds(t.order, t.peers, now);
  }

  /** `peers.delete(id)`: the record and its place in insertion order go. */
  function Delete(t: Table, id: Prop): Table {
    Table(Without(t.order, id), map k | k in t.peers && k != id :: t.peers[k])
  }

  /** The table after the sweep has visited the first `i` entries of `t`. */
  function PartialSweep(t: Table, i: nat, now: int): Table
    requires i <= |t.order|
  {
    Table(Survivors(t.order[..i], t.peers, now) + t.order[i..],
          RemainingPeers(t.peers, t.order[..i], now))
  }

  /** The records left once the entries in `visited` have been swept. */
  function RemainingPeers(peers: map<Prop, Peer>, visited: seq<Prop>, now: int): map<Prop, Peer> {
    map k | k in peers && !(k in visited && IsStale(peers, k, now)) :: peers[k]
  }

  lemma RemainingPeersStep(peers: map<Prop, Peer>, visited: seq<Prop>, id: Prop, now: int)
    ensures RemainingPeers(peers, visited + [id], now)
         == if IsStale(peers, id, now)
            then map k | k in RemainingPeers(peers, visited, now) && k != id :: RemainingPeers(peers, visited, now)[k]
            else RemainingPeers(peers, visited, now)
  {
    var before := RemainingPeers(peers, visited, now);
    var after := RemainingPeers(peers, visited + [id], now);
    assert forall k :: k in visited + [id] <==> k in visited || k == id;
    if IsStale(peers, id, now) {
      var expected := map k | k in before && k != id :: before[k];
      assert after.Keys == expected.Keys;
      assert after == expected;
    } else {
      assert after.Keys == before.Keys;
      assert after == before;
    }
  }

  lemma PartialOrderStep(t: Table, i: nat, now: int)
    requires Distinct(t.order) && i < |t.order|
    ensures var id := t.order[i];
      PartialSweep(t, i + 1, now).order
         == if IsStale(t.peers, id, now) then Without(PartialSweep(t, i, now).order, id)
            else PartialSweep(t, i, now).order
  {
    SurvivorsStep(t.order, t.peers, i, now);
  }

  lemma StaleIdsSnoc(pre: seq<Prop>, id: Prop, peers: map<Prop, Peer>, now: int)
    ensures StaleIds(pre + [id], peers, now)
         == StaleIds(pre, peers, now) + (if IsStale(peers, id, now) then [id] else [])
  {
    assert (pre + [id])[..|pre + [id]| - 1] == pre;
  }

  lemma AppendLost(a: seq<Event>, l: seq<Prop>, id: Prop)
    ensures (a + LostEvents(l)) + [PeerLost(id)] == a + LostEvents(l + [id])
  {
    LostEventsSnoc(l, id);
  }

  lemma LostEventsSnoc(ids: seq<Prop>, id: Prop)
    ensures LostEvents(ids + [id]) == LostEvents(ids) + [PeerLost(id)]
  {
    assert (ids + [id])[..|ids + [id]| - 1] == ids;
  }

  lemma PartialSweepStart(t: Table, now: int)
    ensures PartialSweep(t, 0, now) == t
  {
    assert t.order[..0] == [];
    assert t.order[0..] == t.order;
    var a := RemainingPeers(t.peers, [], now);
    assert a.Keys == t.peers.Keys;
    assert a == t.peers;
  }

  /** Once every entry has been visited the partial sweep is the sweep. */
  lemma PartialSweepDone(localId: string, t: Table, now: int)
    requires TableInvariant(localId, t)
    ensures PartialSweep(t, |t.order|, now) == Sweep(t, now).0
  {
    assert t.order[..|t.order|] == t.order;
    assert t.order[|t.order|..] == [];
    var a := RemainingPeers(t.peers, t.order, now);
    var b := Sweep(t, now).0.peers;
    assert a.Keys == b.Keys;
    assert a == b;
  }

  lemma SurvivorsSnoc(pre: seq<Prop>, id: Prop, peers: map<Prop, Peer>, now: int)
    ensures Survivors(pre + [id], peers, now)
         == Survivors(pre, peers, now) + (if IsStale(peers, id, now) then [] else [id])
  {
    assert (pre + [id])[..|pre + [id]| - 1] == pre;
  }

  lemma DistinctSplit(s: seq<Prop>, i: nat)
    requires Distinct(s) && i < |s|
    ensures s[i] !in s[..i] && s[i] !in s[i + 1..]
  {
    forall j | 0 <= j < i ensures s[..i][j] != s[i] { assert s[..i][j] == s[j]; }
    var rest := s[i + 1..];
    forall j | 0 <= j < |rest| ensures rest[j] != s[i] { assert rest[j] == s[i + 1 + j]; }
  }

  /** The live order after visiting entry `i` of the snapshot `order`. */
  lemma SurvivorsStep(order: seq<Prop>, peers: map<Prop, Peer>, i: nat, now: int)
    requires Distinct(order) && i < |order|
    ensures var id := order[i];
      Survivors(order[..i + 1], peers, now) + order[i + 1..]
         == if IsStale(peers, id, now) then Without(Survivors(order[..i], peers, now) + order[i..], id)
            else Survivors(order[..i], peers, now) + order[i..]
  {
    var id := order[i];
    var pre := order[..i];
    var rest := order[i + 1..];
    assert order[..i + 1] == pre + [id];
    assert order[i..] == [id] + rest;
    var kept := Survivors(pre, peers, now);
    SurvivorsSnoc(pre, id, peers, now);
    if IsStale(peers, id, now) {
      assert Survivors(order[..i + 1], peers, now) == kept;
      DistinctSplit(order, i);
      SweepSplits(pre, peers, now, id);
      DeleteFromOrder(kept, id, rest);
    } else {
      assert Survivors(order[..i + 1], peers, now) == kept + [id];
      assert kept + [id] + rest == kept + ([id] + rest);
    }
  }

  /** One step of the sweep loop: visiting entry `i` deletes it exactly when
      it is stale. Records not yet visited are still the original ones. */
  lemma PartialSweepStep(localId: string, t: Table, i: nat, now: int)
    requires TableInvariant(localId, t) && i < |t.order|
    ensures var id := t.order[i];
      var p := PartialSweep(t, i, now);
      && id in p.peers && p.peers[id] == t.peers[id]
      && t.order[..i + 1] == t.order[..i] + [id]
      && PartialSweep(t, i + 1, now)
         == if IsStale(t.peers, id, now)
            then Delete(p, id)
            else p
  {
    var id := t.order[i];
    assert t.order[..i + 1] == t.order[..i] + [id];
    assert id !in t.order[..i];
    PartialOrderStep(t, i, now);
    RemainingPeersStep(t.peers, t.order[..i], id, now);
  }

  /** Entry `i` of `t` is stale and its name cannot be printed: the log
      line after its `peer-lost` throws, which ends the tick there. */
  predicate AbortsAt(t: Table, i: nat, now: int)
    requires i < |t.order|
  {
    IsStale(t.peers, t.order[i], now) && PropToStringThrows(t.peers[t.order[i]].name)
  }

  /** The first entry at or after `from` whose visit throws, or the length
      of the order when none does. */
  function FirstAbort(t: Table, from: nat, now: int): (k: nat)
    requires from <= |t.order|
    ensures from <= k <= |t.order|
    ensures forall j | from <= j < k :: !AbortsAt(t, j, now)
    ensures k < |t.order| ==> AbortsAt(t, k, now)
    decreases |t.order| - from
  {
    if from == |t.order| || AbortsAt(t, from, now) then from
    else FirstAbort(t, from + 1, now)
  }

  /** One tick of the cleanup interval: the table, the ids reported lost,
      and whether the tick ended in a throw. A throw comes after the
      offending peer has been deleted and reported, and nothing after it in
      the order is visited. */
  function Tick(t: Table, now: int): (Table, seq<Prop>, bool)
  {
    var k := FirstAbort(t, 0, now);
    var stop := if k < |t.order| then k + 1 else k;
    (PartialSweep(t, stop, now), StaleIds(t.order[..stop], t.peers, now), k < |t.order|)
  }

  /** A tick throws exactly when some stale peer's name cannot be printed. */
  lemma TickThrows(t: Table, now: int)
    ensures Tick(t, now).2 <==> exists i | 0 <= i < |t.order| :: AbortsAt(t, i, now)
  {
    var k := FirstAbort(t, 0, now);
    if k == |t.order| {
      assert forall i | 0 <= i < |t.order| :: !AbortsAt(t, i, now);
    }
  }

  /** The tick that throws at entry `k` stops right after visiting it. */
  lemma TickStopsAt(t: Table, now: int, k: nat)
    requires k < |t.order| && AbortsAt(t, k, now)
    requires forall j | 0 <= j < k :: !AbortsAt(t, j, now)
    ensures Tick(t, now) == (PartialSweep(t, k + 1, now), StaleIds(t.order[..k + 1], t.peers, now), true)
  {
    assert FirstAbort(t, 0, now) == k;
  }

  /** The tick in which nothing throws visits every entry. */
  lemma TickRunsThrough(t: Table, now: int)
    requires forall j | 0 <= j < |t.order| :: !AbortsAt(t, j, now)
    ensures Tick(t, now) == (PartialSweep(t, |t.order|, now), StaleIds(t.order, t.peers, now), false)
  {
    assert FirstAbort(t, 0, now) == |t.order|;
    assert t.order[..|t.order|] == t.order;
  }

  /** No entry before `i` throws when visited. */
  predicate WalkedWithoutThrow(t: Table, now: int, i: int) {
    forall j | 0 <= j < i && j < |t.order| :: !AbortsAt(t, j, now)
  }

  /** Where the cleanup loop stops, the table it leaves is the tick's table,
      and a valid one. */
  lemma TickAfterWalk(localId: string, t: Table, now: int, i: nat, thrown: bool)
    requires TableInvariant(localId, t) && i <= |t.order|
    requires thrown ==> 0 < i && AbortsAt(t, i - 1, now) && WalkedWithoutThrow(t, now, i - 1)
    requires !thrown ==> i == |t.order| && WalkedWithoutThrow(t, now, i)
    ensures Tick(t, now) == (PartialSweep(t, i, now), StaleIds(t.order[..i], t.peers, now), thrown)
    ensures TableInvariant(localId, PartialSweep(t, i, now))
  {
    if thrown {
      TickStopsAt(t, now, i - 1);
    } else {
      TickRunsThrough(t, now);
      assert t.order[..i] == t.order;
    }
    PartialSweepInvariant(localId, t, i, now);
  }

  /** When no stale peer's name throws, the tick is the whole sweep. */
  lemma TickWithoutThrow(localId: string, t: Table, now: int)
    requires TableInvariant(localId, t)
    requires forall i | 0 <= i < |t.order| :: !AbortsAt(t, i, now)
    ensures Tick(t, now) == (Sweep(t, now).0, Sweep(t, now).1, false)
  {
    TickRunsThrough(t, now);
    PartialSweepDone(localId, t, now);
  }

  /** A tick that throws at entry `k` has deleted and reported every stale
      entry up to and including `k`, and left every later entry, stale or
      not, in the table with its record. */
  lemma TickAborted(localId: string, t: Table, now: int, k: nat)
    requires TableInvariant(localId, t)
    requires k < |t.order| && AbortsAt(t, k, now)
    requires forall j | 0 <= j < k :: !AbortsAt(t, j, now)
    ensures var (t', lost, thrown) := Tick(t, now);
      && thrown
      && TableInvariant(localId, t')
      && lost == StaleIds(t.order[..k], t.peers, now) + [t.order[k]]
      && t.order[k] !in t'.peers
      && t'.order == Survivors(t.order[..k], t.peers, now) + t.order[k + 1..]
      && (forall j | k < j < |t.order| :: t.order[j] in t'.peers)
      && (forall key | key in t'.peers :: t'.peers[key] == t.peers[key])
  {
    TickStopsAt(t, now, k);
    PartialSweepInvariant(localId, t, k + 1, now);
    LostThroughAbort(t, now, k);
    StoppedSweep(localId, t, now, k);
  }

  /** The ids reported up to a stale entry `k` end with `k`. */
  lemma LostThroughAbort(t: Table, now: int, k: nat)
    requires k < |t.order| && IsStale(t.peers, t.order[k], now)
    ensures StaleIds(t.order[..k + 1], t.peers, now) == StaleIds(t.order[..k], t.peers, now) + [t.order[k]]
  {
    assert t.order[..k + 1] == t.order[..k] + [t.order[k]];
    StaleIdsSnoc(t.order[..k], t.order[k], t.peers, now);
  }

  /** The table once the walk has visited entries `0..k` and deleted entry
      `k`, a stale one. */
  lemma StoppedSweep(localId: string, t: Table, now: int, k: nat)
    requires TableInvariant(localId, t)
    requires k < |t.order| && IsStale(t.peers, t.order[k], now)
    ensures var p := PartialSweep(t, k + 1, now);
      && t.order[k] !in p.peers
      && p.order == Survivors(t.order[..k], t.peers, now) + t.order[k + 1..]
      && (forall j | k < j < |t.order| :: t.order[j] in p.peers)
      && (forall key | key in p.peers :: p.peers[key] == t.peers[key])
  {
    StoppedOrder(t, now, k);
    StoppedPeers(localId, t, now, k);
  }

  lemma StoppedOrder(t: Table, now: int, k: nat)
    requires k < |t.order| && IsStale(t.peers, t.order[k], now)
    ensures PartialSweep(t, k + 1, now).order == Survivors(t.order[..k], t.peers, now) + t.order[k + 1..]
  {
    assert t.order[..k + 1] == t.order[..k] + [t.order[k]];
    SurvivorsSnoc(t.order[..k], t.order[k], t.peers, now);
  }

  lemma StoppedPeers(localId: string, t: Table, now: int, k: nat)
    requires TableInvariant(localId, t)
    requires k < |t.order| && IsStale(t.peers, t.order[k], now)
    ensures var p := RemainingPeers(t.peers, t.order[..k + 1], now);
      && t.order[k] !in p
      && (forall j | k < j < |t.order| :: t.order[j] in p)
      && (forall key | key in p :: p[key] == t.peers[key])
  {
    var visited := t.order[..k + 1];
    assert visited[k] == t.order[k];
    forall j | k < j < |t.order| ensures t.order[j] !in visited {
      forall m | 0 <= m < k + 1 ensures visited[m] != t.order[j] {
        assert visited[m] == t.order[m];
      }
    }
  }

  /** Every partial sweep of a valid table is a valid table. */
  lemma {:induction false} PartialSweepInvariant(localId: string, t: Table, i: nat, now: int)
    requires TableInvariant(localId, t) && i <= |t.order|
    ensures TableInvariant(localId, PartialSweep(t, i, now))
  {
    if i == 0 {
      PartialSweepStart(t, now);
    } else {
      PartialSweepInvariant(localId, t, i - 1, now);
      PartialSweepStep(localId, t, i - 1, now);
      if IsStale(t.peers, t.order[i - 1], now) {
        DeletePreservesInvariant(localId, PartialSweep(t, i - 1, now), t.order[i - 1]);
      }
    }
  }

  /** `peers.delete(id)` keeps the table invariant. */
  lemma DeletePreservesInvariant(localId: string, t: Table, id: Prop)
    requires TableInvariant(localId, t)
    ensures TableInvariant(localId, Delete(t, id))
  {
    WithoutMembers(t.order, id);
    WithoutDistinct(t.order, id);
    var d := Delete(t, id);
    forall i | 0 <= i < |d.order| ensures d.order[i] in d.peers {
      assert d.order[i] in d.order;
    }
  }

  /** The announcement object literal of `startAnnouncing`, key by key as
      written: `type` appears twice. */
  function AnnounceLiteral(info: DeviceInfo, now: int): seq<(string, Json)> {
    [("type", JStr("announce")),
     ("deviceId", JStr(info.id)),
     ("name", JStr(info.name)),
     ("platform", JStr(info.platform)),
     ("type", JStr(info.deviceType)),
     ("port", JNum(info.port)),
     ("timestamp", JNum(now))]
  }

  /** The announcement as the code builds it. */
  function AnnouncePayload(info: DeviceInfo, now: int): Json {
    JObj(LiteralFields(AnnounceLiteral(info, now)))
  }

  /** The later `type` key wins: the payload's type is the device type
      ("desktop" for every instance), so the receiving filter rejects this
      code's own announcements on every other device. */
  lemma AnnouncePayloadRejected(info: DeviceInfo, now: int, localId: string)
    requires info.deviceType != "announce"
    ensures Get(AnnouncePayload(info, now), "type") == Val(JStr(info.deviceType))
    ensures !Accepts(localId, AnnouncePayload(info, now))
  {
    var pairs := AnnounceLiteral(info, now);
    LiteralLastWins(pairs, 4);
  }

  /** The announcement with the device type under a key of its own, so that
      the message type survives. */
  function AnnouncePayloadFixed(info: DeviceInfo, now: int): Json {
    JObj(map["type" := JStr("announce"),
             "deviceId" := JStr(info.id),
             "name" := JStr(info.name),
             "platform" := JStr(info.platform),
             "deviceType" := JStr(info.deviceType),
             "port" := JNum(info.port),
             "timestamp" := JNum(now)])
  }

  /** Every other device accepts the corrected announcement and records the
      sender's own id, name, platform and port, with the packet's address. */
  lemma AnnounceFixedAccepted(info: DeviceInfo, now: int, localId: string, address: string, seen: int)
    requires localId != info.id
    ensures Accepts(localId, AnnouncePayloadFixed(info, now))
    ensures PeerOf(AnnouncePayloadFixed(info, now), address, seen)
         == Peer(Val(JStr(info.id)), Val(JStr(info.name)), Val(JStr(info.platform)),
                 Val(JStr("announce")), address, Val(JNum(info.port)), seen)
  {
  }

  /** The discovery service: the peer table plus the timers and socket flags. */
  class NetworkDiscovery {
    const deviceId: string
    const deviceInfo: DeviceInfo
    var order: seq<Prop>
    var peers: map<Prop, Peer>
    var events: seq<Event>
    var announceTimer: bool
    var cleanupTimer: bool
    var socketOpen: bool

    predicate Valid()
      reads this
    {
      && deviceInfo.deviceType == "desktop"
      && TableInvariant(deviceId, Table(order, peers))
    }

    function Snapshot(): Table
      reads this
    {
      Table(order, peers)
    }

    /** `id` stands for `crypto.randomUUID()`; host name, platform and local
        address are what the operating system reports. */
    constructor (id: string, hostName: string, platform: string, localIp: string, now: int)
      ensures deviceId == id
      ensures deviceInfo == DeviceInfo(id, hostName, platform, "desktop", localIp, TransferPort, now)
      ensures order == [] && peers == map[] && events == []
      ensures !announceTimer && !cleanupTimer && !socketOpen
      ensures Valid()
    {
      deviceId := id;
      deviceInfo := DeviceInfo(id, hostName, platform, "desktop", localIp, TransferPort, now);
      order, peers, events := [], map[], [];
      announceTimer, cleanupTimer, socketOpen := false, false, false;
    }

    /** `start` creates and binds the socket, and its `listening` handler
        starts both timers. */
    method Start()
      requires Valid()
      modifies this
      ensures Valid()
      ensures socketOpen && announceTimer && cleanupTimer
      ensures order == old(order) && peers == old(peers) && events == old(events)
    {
      socketOpen := true;
      announceTimer := true;
      cleanupTimer := true;
    }

    /** `handleMessage` for one datagram. */
    method HandleMessage(data: Option<Json>, address: string, now: int)
      requires Valid()
      modifies this`order, this`peers, this`events
      ensures Valid()
      ensures var (t, ev) := Receive(old(Snapshot()), deviceId, data, address, now);
        Snapshot() == t && events == old(events) + ev
    {
      ReceivePreservesInvariant(Snapshot(), deviceId, data, address, now);
      if data.Some? {
        var d := data.value;
        if Accepts(deviceId, d) {
          var peer := PeerOf(d, address, now);
          if peer.id !in peers {
            peers := peers[peer.id := peer];
            order := order + [peer.id];
            events := events + [PeerFound(peer)];
          } else {
            peers := peers[peer.id := peers[peer.id].(lastSeen := now)];
          }
        }
      }
    }

    /** The body of the cleanup interval: walk the entries in insertion
        order, deleting each stale one and emitting `peer-lost` for it, then
        logging its name; `thrown` reports that the log line threw and ended
        the walk. */
    method SweepOnce(now: int) returns (thrown: bool)
      requires Valid()
      modifies this`order, this`peers, this`events
      ensures Valid()
      ensures var (t, lost, aborted) := Tick(old(Snapshot()), now);
        Snapshot() == t && events == old(events) + LostEvents(lost) && thrown == aborted
    {
      ghost var t0 := Snapshot();
      ghost var lost: seq<Prop> := [];
      var entries := order;
      var i := 0;
      PartialSweepStart(t0, now);
      assert entries[..0] == [];
      thrown := false;
      while i < |entries| && !thrown
        invariant 0 <= i <= |entries|
        invariant entries == t0.order
        invariant Snapshot() == PartialSweep(t0, i, now)
        invariant lost == StaleIds(entries[..i], t0.peers, now)
        invariant events == old(events) + LostEvents(lost)
        invariant WalkedWithoutThrow(t0, now, if thrown then i - 1 else i)
        invariant thrown ==> 0 < i && AbortsAt(t0, i - 1, now)
      {
        thrown, lost := VisitEntry(entries[i], t0, i, now, lost, old(events));
        i := i + 1;
      }
      TickAfterWalk(deviceId, t0, now, i, thrown);
    }

    /** One iteration of the cleanup loop, on the entry at position `i` of
        the snapshot `t0` taken before the loop; `aborted` says the log line
        for an evicted peer threw. */
    method VisitEntry(id: Prop, ghost t0: Table, i: nat, now: int, ghost lost: seq<Prop>, ghost before: seq<Event>)
      returns (aborted: bool, ghost lost': seq<Prop>)
      requires TableInvariant(deviceId, t0) && i < |t0.order| && id == t0.order[i]
      requires Snapshot() == PartialSweep(t0, i, now)
      requires lost == StaleIds(t0.order[..i], t0.peers, now)
      requires events == before + LostEvents(lost)
      modifies this`order, this`peers, this`events
      ensures Snapshot() == PartialSweep(t0, i + 1, now)
      ensures lost' == StaleIds(t0.order[..i + 1], t0.peers, now)
      ensures events == before + LostEvents(lost')
      ensures aborted == AbortsAt(t0, i, now)
    {
      ghost var current := Snapshot();
      PartialSweepStep(deviceId, t0, i, now);
      StaleIdsSnoc(t0.order[..i], id, t0.peers, now);
      var peer := peers[id];
      assert IsStale(t0.peers, id, now) == (now - peer.lastSeen > PeerTimeoutMs);
      if now - peer.lastSeen > PeerTimeoutMs {
        AppendLost(before, lost, id);
        assert Delete(current, id) == PartialSweep(t0, i + 1, now);
        Evict(id);
        lost' := lost + [id];
        aborted := PropToStringThrows(peer.name);
      } else {
        assert current == PartialSweep(t0, i + 1, now);
        lost' := lost;
        assert lost + [] == lost;
        aborted := false;
      }
    }

    /** The stale branch of the cleanup loop: `peers.delete(id)` and the
        `peer-lost` event. */
    method Evict(id: Prop)
      modifies this`order, this`peers, this`events
      ensures Snapshot() == Delete(old(Snapshot()), id)
      ensures events == old(events) + [PeerLost(id)]
    {
      var next := Delete(Snapshot(), id);
      order, peers := next.order, next.peers;
      events := events + [PeerLost(id)];
    }

    /** One tick of the announce interval: the datagram sent to the
        multicast group, built with the literal as written. Its `type` is
        the device type, so no device, this one included, accepts it. */
    method Announce(now: int) returns (payload: Json)
      requires Valid()
      ensures payload == AnnouncePayload(deviceInfo, now)
      ensures Get(payload, "type") == Val(JStr("desktop"))
      ensures forall other: string :: !Accepts(other, payload)
    {
      payload := AnnouncePayload(deviceInfo, now);
      forall other: string ensures !Accepts(other, payload) {
        AnnouncePayloadRejected(deviceInfo, now, other);
      }
      AnnouncePayloadRejected(deviceInfo, now, deviceId);
    }

    /** `stop`: both timers cleared, the socket closed, the table emptied,
        and no `peer-lost` emitted. */
    method Stop()
      requires Valid()
      modifies this
      ensures !announceTimer && !cleanupTimer && !socketOpen
      ensures order == [] && peers == map[] && events == old(events)
      ensures Valid()
    {
      announceTimer := false;
      cleanupTimer := false;
      socketOpen := false;
      order, peers := [], map[];
    }

    /** `getPeers`: the records in insertion order. */
    method GetPeers() returns (r: seq<Peer>)
      requires Valid()
      ensures |r| == |order|
      ensures forall i | 0 <= i < |r| :: r[i] == peers[order[i]]
      ensures forall k | k in peers :: exists i | 0 <= i < |r| :: r[i] == peers[k]
    {
      var o, p := order, peers;
      r := seq(|o|, i requires 0 <= i < |o| && o[i] in p => p[o[i]]);
      forall k | k in peers
        ensures exists i | 0 <= i < |r| :: r[i] == peers[k]
      {
        var i :| 0 <= i < |order| && order[i] == k;
        assert r[i] == peers[k];
      }
    }
  }

  /** `order` with every occurrence of `k` removed. */
  function Without(s: seq<Prop>, k: Prop): seq<Prop>
  {
    if s == [] then [] else (if s[0] == k then [] else [s[0]]) + Without(s[1..], k)
  }

  lemma {:induction false} WithoutAbsent(s: seq<Prop>, k: Prop)
    requires k !in s
    ensures Without(s, k) == s
  {
    if s != [] {
      WithoutAbsent(s[1..], k);
    }
  }

  lemma {:induction false} WithoutConcat(a: seq<Prop>, b: seq<Prop>, k: Prop)
    ensures Without(a + b, k) == Without(a, k) + Without(b, k)
  {
    if a == [] {
      assert a + b == b;
    } else {
      assert (a + b)[0] == a[0];
      assert (a + b)[1..] == a[1..] + b;
      WithoutConcat(a[1..], b, k);
    }
  }

  lemma {:induction false} WithoutMembers(s: seq<Prop>, k: Prop)
    ensures forall x :: x in Without(s, k) <==> x in s && x != k
  {
    if s != [] {
      WithoutMembers(s[1..], k);
      assert forall x :: x in s <==> x == s[0] || x in s[1..];
    }
  }

  lemma {:induction false} WithoutDistinct(s: seq<Prop>, k: Prop)
    requires Distinct(s)
    ensures Distinct(Without(s, k))
  {
    if s != [] {
      var rest := s[1..];
      assert Distinct(rest) by {
        forall i, j | 0 <= i < j < |rest| ensures rest[i] != rest[j] {
          assert rest[i] == s[i + 1] && rest[j] == s[j + 1];
        }
      }
      WithoutDistinct(rest, k);
      WithoutMembers(rest, k);
      assert s[0] !in rest by {
        forall j | 0 <= j < |rest| ensures rest[j] != s[0] { assert rest[j] == s[j + 1]; }
      }
      var w := Without(rest, k);
      var r := Without(s, k);
      if s[0] != k {
        assert r == [s[0]] + w;
        forall i, j | 0 <= i < j < |r| ensures r[i] != r[j] {
          assert r[j] == w[j - 1];
          if i > 0 { assert r[i] == w[i - 1]; } else { assert w[j - 1] in w; }
        }
      } else {
        assert r == w;
      }
    }
  }

  /** Deleting the current key of the sweep from the live order. */
  lemma DeleteFromOrder(kept: seq<Prop>, id: Prop, rest: seq<Prop>)
    requires id !in kept && id !in rest
    ensures Without(kept + ([id] + rest), id) == kept + rest
  {
    WithoutConcat(kept, [id] + rest, id);
    WithoutConcat([id], rest, id);
    WithoutAbsent(kept, id);
    WithoutAbsent(rest, id);
    assert [id][1..] == [];
    calc {
      Without(kept + ([id] + rest), id);
      Without(kept, id) + Without([id] + rest, id);
      kept + (Without([id], id) + Without(rest, id));
      kept + ([] + rest);
      { assert [] + rest == rest; }
      kept + rest;
    }
  }

  /** "A" announced at 1000 from 10.0.0.5 is in the table
      with that address; a sweep at 16000 keeps it (its age is exactly
      15000), a sweep at 16001 evicts it and reports it lost. */
  lemma EvictionScenario(localId: string)
    requires localId != "A"
    ensures var d := JObj(map["type" := JStr("announce"), "deviceId" := JStr("A"),
                              "name" := JStr("Desk"), "platform" := JStr("linux"),
                              "port" := JNum(9000), "timestamp" := JNum(1000)]);
      var (t, ev) := Receive(EmptyTable, localId, Some(d), "10.0.0.5", 1000);
      && t.order == [Val(JStr("A"))]
      && t.peers[Val(JStr("A"))].ip == "10.0.0.5"
      && t.peers[Val(JStr("A"))].port == Val(JNum(9000))
      && t.peers[Val(JStr("A"))].lastSeen == 1000
      && |ev| == 1
      && Sweep(t, 16000).0 == t
      && Sweep(t, 16001).0.order == []
      && Sweep(t, 16001).1 == [Val(JStr("A"))]
  {
    var d := JObj(map["type" := JStr("announce"), "deviceId" := JStr("A"),
                      "name" := JStr("Desk"), "platform" := JStr("linux"),
                      "port" := JNum(9000), "timestamp" := JNum(1000)]);
    var a := Val(JStr("A"));
    assert Get(d, "deviceId") == a && Get(d, "type") == Val(JStr("announce")) && Get(d, "port") == Val(JNum(9000));
    ReceiveFirstSighting(EmptyTable, localId, d, "10.0.0.5", 1000);
    var t := Receive(EmptyTable, localId, Some(d), "10.0.0.5", 1000).0;
    SweepSinglePeer(t, a);
  }

  /** Two peers last seen at 0, the first named `{"toString":0}`: the tick at
      20000 deletes and reports the first, throws, and leaves the second,
      stale as it is, for the next tick, which removes it. */
  lemma AbortedTickScenario()
    ensures var a, b := Val(JStr("A")), Val(JStr("B"));
      var pa := Peer(a, Val(JObj(map["toString" := JNum(0)])), Undefined, Val(JStr("announce")), "10.0.0.5", Undefined, 0);
      var pb := Peer(b, Val(JStr("Desk")), Undefined, Val(JStr("announce")), "10.0.0.6", Undefined, 0);
      var t := Table([a, b], map[a := pa, b := pb]);
      && Tick(t, 20000) == (Table([b], map[b := pb]), [a], true)
      && Tick(Table([b], map[b := pb]), 20000) == (EmptyTable, [b], false)
  {
    var a, b := Val(JStr("A")), Val(JStr("B"));
    var pa := Peer(a, Val(JObj(map["toString" := JNum(0)])), Undefined, Val(JStr("announce")), "10.0.0.5", Undefined, 0);
    var pb := Peer(b, Val(JStr("Desk")), Undefined, Val(JStr("announce")), "10.0.0.6", Undefined, 0);
    FirstTickThrows(a, b, pa, pb);
    assert !ToStringThrows(JStr("Desk"));
    LastPeerSwept(b, pb, 20000);
  }

  /** The first of two stale entries throws: it alone is deleted and
      reported. */
  lemma FirstTickThrows(a: Prop, b: Prop, pa: Peer, pb: Peer)
    requires a != b && pa.lastSeen == 0 && PropToStringThrows(pa.name)
    ensures Tick(Table([a, b], map[a := pa, b := pb]), 20000) == (Table([b], map[b := pb]), [a], true)
  {
    var t := Table([a, b], map[a := pa, b := pb]);
    assert AbortsAt(t, 0, 20000);
    TickStopsAt(t, 20000, 0);
    FirstOfTwoSwept(a, b, pa, pb, 20000);
  }

  /** Visiting only the stale first of two entries removes it and reports it. */
  lemma FirstOfTwoSwept(a: Prop, b: Prop, pa: Peer, pb: Peer, now: int)
    requires a != b && now - pa.lastSeen > PeerTimeoutMs
    ensures var t := Table([a, b], map[a := pa, b := pb]);
      && PartialSweep(t, 1, now) == Table([b], map[b := pb])
      && StaleIds(t.order[..1], t.peers, now) == [a]
  {
    var t := Table([a, b], map[a := pa, b := pb]);
    assert t.order[..1] == [a] && t.order[1..] == [b] && [a][..0] == [];
    assert Survivors(t.order[..1], t.peers, now) == [];
    FirstRecordDropped(a, b, pa, pb, now);
  }

  /** Sweeping the stale first of two records leaves the second alone. */
  lemma FirstRecordDropped(a: Prop, b: Prop, pa: Peer, pb: Peer, now: int)
    requires a != b && now - pa.lastSeen > PeerTimeoutMs
    ensures RemainingPeers(map[a := pa, b := pb], [a], now) == map[b := pb]
  {
    var rest := RemainingPeers(map[a := pa, b := pb], [a], now);
    assert a !in rest;
    assert b in rest && rest[b] == pb;
    assert rest.Keys == {b};
  }

  /** A single stale entry whose name prints is swept without a throw. */
  lemma LastPeerSwept(b: Prop, pb: Peer, now: int)
    requires now - pb.lastSeen > PeerTimeoutMs && !PropToStringThrows(pb.name)
    ensures Tick(Table([b], map[b := pb]), now) == (EmptyTable, [b], false)
  {
    var t := Table([b], map[b := pb]);
    assert !AbortsAt(t, 0, now);
    TickRunsThrough(t, now);
    assert t.order[..0] == [] && t.order[..1] == t.order && t.order[1..] == [];
    assert Survivors(t.order, t.peers, now) == [];
    assert StaleIds(t.order, t.peers, now) == [b];
    var gone := RemainingPeers(t.peers, [b], now);
    assert gone.Keys == {};
    assert gone == map[];
    assert PartialSweep(t, 1, now) == EmptyTable;
  }

  /** A table holding one peer seen at 1000 keeps it at 16000 and loses it
      at 16001. */
  lemma SweepSinglePeer(t: Table, a: Prop)
    requires t.order == [a] && t.peers.Keys == {a} && t.peers[a].lastSeen == 1000
    ensures Sweep(t, 16000).0 == t
    ensures Sweep(t, 16001).0.order == [] && Sweep(t, 16001).1 == [a]
  {
    assert t.order[..0] == [];
    assert !IsStale(t.peers, a, 16000) && IsStale(t.peers, a, 16001);
    assert Survivors(t.order, t.peers, 16000) == [a];
    assert Sweep(t, 16000).0.peers == t.peers;
    assert StaleIds(t.order, t.peers, 16001) == [a];
    assert Survivors(t.order, t.peers, 16001) == [];
  }
}
