/**
 * Peer presence over UDP broadcast, as src/core/discovery.py keeps it: every
 * peer announces itself with a DISCOVERY heartbeat; the listener records the
 * datagram's source address with a timestamp and the announced name, and a
 * periodic sweep forgets addresses not heard from for three heartbeat
 * intervals.
 *
 * `time.time()` is replaced by an integer clock in milliseconds passed to each
 * operation, so the expiry threshold `DISCOVERY_INTERVAL * 3` is 6000.
 * Callbacks are returned as the sequence of events they would have fired.
 */
module Discovery {
  import opened Wrappers
  import opened Json
  import opened Protocol
  import Utf8

  type byte = Utf8.byte

  /** `DISCOVERY_INTERVAL * 3`, in milliseconds. */
  const ExpiryMs := 3 * DiscoveryIntervalMs
  /** The buffer size of the listener's `recvfrom`. */
  const DatagramLimit := 4096

  /** A callback invocation: `on_peer_discovered(ip, name)` or `on_peer_lost(ip)`. */
  datatype Event = Discovered(ip: string, name: Json) | Lost(ip: string)

  predicate Distinct(s: seq<string>) {
    forall i, j :: 0 <= i < j < |s| ==> s[i] != s[j]
  }

  /**
   * The presence table: `peers` (address to last-seen time), `peer_names`
   * (address to announced name) and, since a Python dict iterates in
   * insertion order, the order in which the addresses were first recorded.
   */
  datatype Table = Table(peers: map<string, int>, names: map<string, Json>, order: seq<string>)

  const EmptyTable := Table(map[], map[], [])

  /** Both dictionaries have the same keys, and `order` lists each key once. */
  ghost predicate Valid(t: Table) {
    && t.peers.Keys == t.names.Keys
    && (forall ip :: ip in t.order <==> ip in t.peers)
    && Distinct(t.order)
  }

  /** `current_time - last_seen > DISCOVERY_INTERVAL * 3`. */
  predicate Expired(lastSeen: int, now: int) {
    now - lastSeen > ExpiryMs
  }

  /** `_handle_discovery(ip, name)` at time `now`: an upsert that announces only a first sighting. */
  function Discover(t: Table, ip: string, name: Json, now: int): (r: (Table, seq<Event>))
    ensures Valid(t) ==> Valid(r.0)
  {
    var isNew := ip !in t.peers;
    var order := if isNew then t.order + [ip] else t.order;
    (Table(t.peers[ip := now], t.names[ip := name], order),
     if isNew then [Discovered(ip, name)] else [])
  }

  /** The addresses of `order` whose entry has expired, in table order: the sweep's `to_remove`. */
  function StaleIps(order: seq<string>, peers: map<string, int>, now: int): (r: seq<string>)
    requires forall ip :: ip in order ==> ip in peers
    ensures forall ip :: ip in r <==> ip in order && Expired(peers[ip], now)
    ensures Distinct(order) ==> Distinct(r)
  {
    if order == [] then []
    else
      var init, last := order[..|order| - 1], order[|order| - 1];
      assert forall ip :: ip in order <==> ip in init || ip == last by {
        assert order == init + [last];
      }
      StaleIps(init, peers, now) + (if Expired(peers[last], now) then [last] else [])
  }

  /** `order` without `ip`: a deleted key leaves the dict's iteration order. */
  function Drop(order: seq<string>, ip: string): (r: seq<string>)
    ensures forall x :: x in r <==> x in order && x != ip
    ensures Distinct(order) ==> Distinct(r)
  {
    if order == [] then []
    else
      var rest := Drop(order[1..], ip);
      assert forall x :: x in order <==> x == order[0] || x in order[1..] by {
        assert order == [order[0]] + order[1..];
      }
      if order[0] == ip then rest
      else
        DistinctCons(order, rest);
        [order[0]] + rest
  }

  /** Putting the head of a distinct sequence before a distinct subset of its tail keeps it distinct. */
  lemma DistinctCons(order: seq<string>, rest: seq<string>)
    requires order != []
    requires forall x :: x in rest ==> x in order[1..]
    requires Distinct(order) ==> Distinct(rest)
    ensures Distinct(order) ==> Distinct([order[0]] + rest)
  {
    if Distinct(order) {
      forall k | 0 <= k < |order[1..]| ensures order[1..][k] != order[0] {
        assert order[1..][k] == order[k + 1];
      }
      assert order[0] !in rest;
      var r := [order[0]] + rest;
      forall i, j | 0 <= i < j < |r| ensures r[i] != r[j] {
        assert r[j] == rest[j - 1];
        if i > 0 {
          assert r[i] == rest[i - 1];
        }
      }
    }
  }

  /** One pass of the deleting loop: `del peers[ip]`, and `del peer_names[ip]` when present. */
  function Forget(t: Table, ip: string): Table {
    Table(t.peers - {ip}, t.names - {ip}, Drop(t.order, ip))
  }

  /** The deleting loop over `ips`. */
  function ForgetAll(t: Table, ips: seq<string>): Table {
    if ips == [] then t
    else Forget(ForgetAll(t, ips[..|ips| - 1]), ips[|ips| - 1])
  }

  /** The deleting loop and its reports, one address further on. */
  lemma ForgetNext(t: Table, ips: seq<string>, j: nat)
    requires j < |ips|
    ensures ForgetAll(t, ips[..j + 1]) == Forget(ForgetAll(t, ips[..j]), ips[j])
    ensures LostAll(ips[..j + 1]) == LostAll(ips[..j]) + [Lost(ips[j])]
  {
    assert ips[..j + 1][..j] == ips[..j];
  }

  /** Deleting one address of a list without repeats leaves the later ones present. */
  lemma StillPresent(ips: seq<string>, j: nat, peers: map<string, int>)
    requires j < |ips| && Distinct(ips)
    requires forall k :: j <= k < |ips| ==> ips[k] in peers
    ensures ips[j] in peers
    ensures forall k :: j < k < |ips| ==> ips[k] in peers - {ips[j]}
  {
  }

  /** The deleting loop removes the listed addresses from both dictionaries and from the order, and nothing else. */
  lemma {:induction false} ForgetAllRemoves(t: Table, ips: seq<string>)
    ensures var r := ForgetAll(t, ips);
      && (forall x :: x in r.peers <==> x in t.peers && x !in ips)
      && (forall x :: x in r.names <==> x in t.names && x !in ips)
      && (forall x :: x in r.order <==> x in t.order && x !in ips)
      && (forall x :: x in r.peers ==> r.peers[x] == t.peers[x])
      && (forall x :: x in r.names ==> r.names[x] == t.names[x])
      && (Distinct(t.order) ==> Distinct(r.order))
  {
    if ips != [] {
      var init := ips[..|ips| - 1];
      assert forall x :: x in ips <==> x in init || x == ips[|ips| - 1] by {
        assert ips == init + [ips[|ips| - 1]];
      }
      ForgetAllRemoves(t, init);
    }
  }

  /** One `on_peer_lost` per address, in order. */
  function LostAll(ips: seq<string>): (r: seq<Event>)
    ensures |r| == |ips|
    ensures forall i :: 0 <= i < |ips| ==> r[i] == Lost(ips[i])
  {
    if ips == [] then []
    else LostAll(ips[..|ips| - 1]) + [Lost(ips[|ips| - 1])]
  }

  /**
   * One sweep of `_cleanup_loop` at time `now`: collect the expired addresses,
   * then delete each and report it lost. Every report names an address that
   * was known, had expired and is gone afterwards.
   */
  function Sweep(t: Table, now: int): (r: (Table, seq<Event>))
    requires Valid(t)
    ensures forall e :: e in r.1 ==> e.Lost? && e.ip in t.peers && Expired(t.peers[e.ip], now) && e.ip !in r.0.peers
  {
    var stale := StaleIps(t.order, t.peers, now);
    var events := LostAll(stale);
    ForgetAllRemoves(t, stale);
    assert forall e :: e in events ==> e.Lost? && e.ip in stale by {
      forall e | e in events ensures e.Lost? && e.ip in stale {
        var i :| 0 <= i < |events| && events[i] == e;
        assert e == Lost(stale[i]);
      }
    }
    (ForgetAll(t, stale), events)
  }

  /** A first sighting enters both dictionaries and fires `on_peer_discovered` exactly once. */
  lemma DiscoverNew(t: Table, ip: string, name: Json, now: int)
    requires Valid(t) && ip !in t.peers
    ensures var (u, events) := Discover(t, ip, name, now);
      && events == [Discovered(ip, name)]
      && u.peers.Keys == t.peers.Keys + {ip} && u.names.Keys == t.names.Keys + {ip}
      && u.peers[ip] == now && u.names[ip] == name
      && u.order == t.order + [ip]
  {
  }

  /** A known address gets the new time and name, keeps its place and fires nothing. */
  lemma DiscoverKnown(t: Table, ip: string, name: Json, now: int)
    requires Valid(t) && ip in t.peers
    ensures var (u, events) := Discover(t, ip, name, now);
      && events == []
      && u.peers.Keys == t.peers.Keys && u.names.Keys == t.names.Keys
      && u.peers[ip] == now && u.names[ip] == name
      && u.order == t.order
  {
  }

  /** No other address's entry is touched by a heartbeat. */
  lemma DiscoverOthers(t: Table, ip: string, name: Json, now: int, other: string)
    requires other != ip
    ensures var u := Discover(t, ip, name, now).0;
      && (other in u.peers <==> other in t.peers)
      && (other in u.peers ==> u.peers[other] == t.peers[other])
      && (other in u.names ==> u.names[other] == t.names[other])
  {
  }

  /** A sweep keeps the table valid and removes exactly the expired addresses; the others keep their time and name. */
  lemma SweepRemovesExpired(t: Table, now: int)
    requires Valid(t)
    ensures var u := Sweep(t, now).0;
      && Valid(u)
      && (forall ip :: ip in u.peers <==> ip in t.peers && !Expired(t.peers[ip], now))
      && (forall ip :: ip in u.peers ==> u.peers[ip] == t.peers[ip] && u.names[ip] == t.names[ip])
  {
    var stale := StaleIps(t.order, t.peers, now);
    var u := ForgetAll(t, stale);
    ForgetAllRemoves(t, stale);
    assert u.peers.Keys == u.names.Keys by {
      forall ip ensures ip in u.peers <==> ip in u.names {
        assert ip in t.peers <==> ip in t.names;
      }
    }
  }

  /** `on_peer_lost` fires once for each removed address and for no retained one. */
  lemma SweepReportsLost(t: Table, now: int)
    requires Valid(t)
    ensures var (u, events) := Sweep(t, now);
      && (forall ip :: Lost(ip) in events <==> ip in t.peers && ip !in u.peers)
      && (forall i, j :: 0 <= i < j < |events| ==> events[i] != events[j])
      && (forall e :: e in events ==> e.Lost?)
  {
    var stale := StaleIps(t.order, t.peers, now);
    var events := LostAll(stale);
    ForgetAllRemoves(t, stale);
    forall ip ensures Lost(ip) in events <==> ip in stale {
      if Lost(ip) in events {
        var i :| 0 <= i < |events| && events[i] == Lost(ip);
        assert stale[i] == ip;
      }
      if ip in stale {
        var i :| 0 <= i < |stale| && stale[i] == ip;
        assert events[i] == Lost(ip);
      }
    }
  }

  /** A peer forgotten by a sweep is new again: its next heartbeat fires `on_peer_discovered` once more. */
  lemma RediscoveredAfterLost(t: Table, ip: string, now: int, name: Json, later: int)
    requires Valid(t) && ip in t.peers && Expired(t.peers[ip], now)
    ensures Discover(Sweep(t, now).0, ip, name, later).1 == [Discovered(ip, name)]
  {
    SweepRemovesExpired(t, now);
  }

  /** A peer heard within the window survives the sweep and is not announced again. */
  lemma StaysWhileHeard(t: Table, ip: string, name: Json, seen: int, now: int)
    requires Valid(t) && seen <= now <= seen + ExpiryMs
    ensures var u := Discover(t, ip, name, seen).0;
      && ip in Sweep(u, now).0.peers
      && Discover(Sweep(u, now).0, ip, name, now).1 == []
  {
    var u := Discover(t, ip, name, seen).0;
    SweepRemovesExpired(u, now);
  }

  /** The heartbeat `_broadcast_loop` sends: our name, an empty address (the receiver uses the source address) and an empty payload. */
  function Heartbeat(username: string): (m: Message)
    ensures m.msgType == Discovery && m.senderName == Str(username)
    ensures FromBytes(ToBytes(m)) == Ok(m)
  {
    var m := Message(Discovery, Str(username), Str(""), Obj([]));
    assert WellFormedMessage(m);
    FromBytesToBytes(m);
    m
  }

  /**
   * What one received datagram does to the table: the name to record under
   * the source address, or `None` when the first 4096 bytes are not a
   * message (the parse error is logged) or the message is of another type.
   * A datagram that fits the buffer is heard exactly when it decodes to a
   * DISCOVERY message, and then yields that message's name.
   */
  function Heard(datagram: seq<byte>): (r: Option<Json>)
    ensures |datagram| <= DatagramLimit ==>
      (r.Some? <==> FromBytes(datagram).Ok? && FromBytes(datagram).value.msgType == Discovery)
    ensures |datagram| <= DatagramLimit && r.Some? ==> r.value == FromBytes(datagram).value.senderName
  {
    assert |datagram| <= DatagramLimit ==> datagram[..|datagram|] == datagram;
    var data := datagram[..if |datagram| < DatagramLimit then |datagram| else DatagramLimit];
    match FromBytes(data)
    case Err(_) => None
    case Ok(m) => if m.msgType == Discovery then Some(m.senderName) else None
  }

  /**
   * A heartbeat that fits the buffer is heard with its sender's name, whatever
   * `sender_ip` it claims: the table is keyed by the source address alone.
   */
  lemma HeartbeatHeard(username: string, claimedIp: string)
    requires |ToBytes(Heartbeat(username).(senderIp := Str(claimedIp)))| <= DatagramLimit
    ensures Heard(ToBytes(Heartbeat(username).(senderIp := Str(claimedIp)))) == Some(Str(username))
  {
    var m := Heartbeat(username).(senderIp := Str(claimedIp));
    assert WellFormedMessage(m);
    FromBytesToBytes(m);
  }

  /** Messages of every other type are ignored by the listener. */
  lemma OtherTypesIgnored(m: Message)
    requires WellFormedMessage(m) && m.msgType != Discovery
    requires |ToBytes(m)| <= DatagramLimit
    ensures Heard(ToBytes(m)) == None
  {
    FromBytesToBytes(m);
  }

  class PeerDiscovery {
    const username: string
    var running: bool
    /** Both UDP sockets (broadcast and listen) are open. */
    var socketsOpen: bool
    /** Loop threads started (broadcast, listen and cleanup). */
    var loopsStarted: nat
    var peers: map<string, int>
    var peerNames: map<string, Json>
    /** The insertion order of `peers`, which `items()` follows. */
    var order: seq<string>

    function State(): Table
      reads this
    {
      Table(peers, peerNames, order)
    }

    constructor(username: string)
      ensures this.username == username
      ensures !running && !socketsOpen && loopsStarted == 0
      ensures State() == EmptyTable && Valid(State())
    {
      this.username := username;
      running := false;
      socketsOpen := false;
      loopsStarted := 0;
      peers := map[];
      peerNames := map[];
      order := [];
    }

    /** `start`: the sockets are opened; a failed bind clears `running` and starts no loop. */
    method Start(bindOk: bool)
      modifies this
      ensures running == bindOk && socketsOpen
      ensures loopsStarted == old(loopsStarted) + (if bindOk then 3 else 0)
      ensures State() == old(State())
    {
      running := true;
      socketsOpen := true;
      if !bindOk {
        running := false;
        return;
      }
      loopsStarted := loopsStarted + 3;
    }

    method Stop()
      modifies this
      ensures !running && !socketsOpen
      ensures loopsStarted == old(loopsStarted) && State() == old(State())
    {
      running := false;
      socketsOpen := false;
    }

    /** `_handle_discovery(ip, name)` at time `now`, returning the callbacks it fires. */
    method HandleDiscovery(ip: string, name: Json, now: int) returns (events: seq<Event>)
      requires Valid(State())
      modifies this
      ensures (State(), events) == Discover(old(State()), ip, name, now)
      ensures Valid(State())
      ensures running == old(running) && socketsOpen == old(socketsOpen) && loopsStarted == old(loopsStarted)
    {
      var isNew := ip !in peers;
      peers := peers[ip := now];
      peerNames := peerNames[ip := name];
      if isNew {
        order := order + [ip];
        events := [Discovered(ip, name)];
      } else {
        events := [];
      }
    }

    /** The first loop of a sweep: the expired addresses, in the order `items()` yields them. */
    method CollectStale(now: int) returns (toRemove: seq<string>)
      requires Valid(State())
      ensures toRemove == StaleIps(order, peers, now)
    {
      toRemove := [];
      var i := 0;
      while i < |order|
        invariant 0 <= i <= |order|
        invariant toRemove == StaleIps(order[..i], peers, now)
      {
        var ip := order[i];
        assert order[..i + 1] == order[..i] + [ip];
        if Expired(peers[ip], now) {
          toRemove := toRemove + [ip];
        }
        i := i + 1;
      }
      assert order[..i] == order;
    }

    /**
     * The second loop of a sweep: delete each address from both dictionaries
     * and report it lost. `del self.peers[ip]` raises on an absent key, so
     * each address must be present when its turn comes.
     */
    method ForgetEach(toRemove: seq<string>) returns (events: seq<Event>)
      requires forall ip :: ip in toRemove ==> ip in peers
      requires Distinct(toRemove)
      modifies this
      ensures State() == ForgetAll(old(State()), toRemove) && events == LostAll(toRemove)
      ensures running == old(running) && socketsOpen == old(socketsOpen) && loopsStarted == old(loopsStarted)
    {
      events := [];
      var j := 0;
      while j < |toRemove|
        invariant 0 <= j <= |toRemove|
        invariant State() == ForgetAll(old(State()), toRemove[..j])
        invariant events == LostAll(toRemove[..j])
        invariant forall k :: j <= k < |toRemove| ==> toRemove[k] in peers
        invariant running == old(running) && socketsOpen == old(socketsOpen) && loopsStarted == old(loopsStarted)
      {
        var ip := toRemove[j];
        ForgetNext(old(State()), toRemove, j);
        StillPresent(toRemove, j, peers);
        DeleteOne(ip);
        events := events + [Lost(ip)];
        j := j + 1;
      }
      assert toRemove[..j] == toRemove;
    }

    /** One pass of the deleting loop: `del self.peers[ip]`, then `del self.peer_names[ip]` when present. */
    method DeleteOne(ip: string)
      requires ip in peers
      modifies this
      ensures State() == Forget(old(State()), ip)
      ensures running == old(running) && socketsOpen == old(socketsOpen) && loopsStarted == old(loopsStarted)
    {
      peers := peers - {ip};
      if ip in peerNames {
        peerNames := peerNames - {ip};
      } else {
        assert peerNames == peerNames - {ip};
      }
      order := Drop(order, ip);
    }

    /** One sweep of `_cleanup_loop` at time `now`, returning the callbacks it fires. */
    method Cleanup(now: int) returns (events: seq<Event>)
      requires Valid(State())
      modifies this
      ensures (State(), events) == Sweep(old(State()), now)
      ensures Valid(State())
      ensures running == old(running) && socketsOpen == old(socketsOpen) && loopsStarted == old(loopsStarted)
    {
      var toRemove := CollectStale(now);
      events := ForgetEach(toRemove);
      SweepRemovesExpired(old(State()), now);
    }

    /**
     * One pass of `_listen_loop` while running: a datagram from `sourceIp`
     * arrives at time `now`; a DISCOVERY message is recorded under the
     * source address, anything else leaves the table as it was.
     */
    method Listen(datagram: seq<byte>, sourceIp: string, now: int) returns (events: seq<Event>)
      requires Valid(State())
      modifies this
      ensures Heard(datagram).None? ==> State() == old(State()) && events == []
      ensures Heard(datagram).Some? ==> (State(), events) == Discover(old(State()), sourceIp, Heard(datagram).value, now)
      ensures Valid(State())
      ensures running == old(running) && socketsOpen == old(socketsOpen) && loopsStarted == old(loopsStarted)
    {
      var data := datagram[..if |datagram| < DatagramLimit then |datagram| else DatagramLimit];
      match FromBytes(data)
      case Err(_) =>
        events := [];
      case Ok(msg) =>
        if msg.msgType == Discovery {
          events := HandleDiscovery(sourceIp, msg.senderName, now);
        } else {
          events := [];
        }
    }
  }
}
