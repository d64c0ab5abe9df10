/** The heartbeat of src/PeerManager.cpp as a timed protocol: rounds of one scan for stale peers, one contact
    with each active peer of a snapshot, and a 30 s sleep, interleaved with other threads' calls. */
module Heartbeat {

  const SECOND: nat := 1_000_000_000
  const STALE_THRESHOLD: nat := 300 * SECOND
  const PAUSE: nat := 30 * SECOND

  /** The fields is_active and last_seen of a peer object. */
  datatype Presence = Presence(active: bool, lastSeen: int)

  /** The test of removeStalePeers. */
  predicate IsStale(lastSeen: int, now: int) {
    now - lastSeen > STALE_THRESHOLD
  }

  /** What broadcastPeerDiscovery does to a peer it tried to reach. */
  function AfterContact(p: Presence, answered: bool, now: int): Presence {
    if answered then Presence(p.active, now) else Presence(false, p.lastSeen)
  }

  // ---------------------------------------------------------------------------------------------
  // The timed protocol
  // ---------------------------------------------------------------------------------------------

  /** Where the heartbeat thread is. Contacting(todo, made): contacts still to make and already made
      in this round, by peer object. */
  datatype Phase = Scanning | Snapshotting | Contacting(todo: seq<nat>, made: nat)

  /** The peers map points from ids to peer objects, numbered; an object lives on in a snapshot after
      it was removed from the map or replaced in it. */
  datatype State = State(table: map<string, nat>, presence: map<nat, Presence>, now: int, phase: Phase)

  datatype Event =
    | Scan
    | Snapshot(order: seq<nat>)
    | Contact(answered: bool, elapsed: nat)
    | Sleep
    // calls of other threads: addPeer of a new object, removePeer, updatePeerFileList
    | Register(id: string, peer: nat, active: bool)
    | Unregister(id: string)
    | Refresh(peer: nat)

  /** The load on the heartbeat: at most peers active peers in a snapshot, at most perContact for each. */
  datatype Load = Load(peers: nat, perContact: nat)

  ghost predicate IsActivePeer(s: State, peer: nat) {
    && (exists id :: id in s.table && s.table[id] == peer)
    && peer in s.presence && s.presence[peer].active
  }

  ghost predicate Enabled(s: State, e: Event, load: Load) {
    match e
    case Scan => s.phase == Scanning
    case Snapshot(order) =>
      && s.phase == Snapshotting && |order| <= load.peers
      && (forall peer :: peer in order <==> IsActivePeer(s, peer))
      && (forall i, j | 0 <= i < j < |order| :: order[i] != order[j])
    case Contact(_, elapsed) =>
      s.phase.Contacting? && s.phase.todo != [] && s.phase.todo[0] in s.presence && elapsed <= load.perContact
    case Sleep => s.phase.Contacting? && s.phase.todo == []
    case Register(_, peer, _) => peer !in s.presence
    case Unregister(_) => true
    case Refresh(peer) => peer in s.presence
  }

  ghost function Apply(s: State, e: Event, load: Load): State
    requires Enabled(s, e, load)
  {
    match e
    case Scan =>
      s.(table := map id | id in s.table && !IsStalePeer(s, s.table[id]) :: s.table[id], phase := Snapshotting)
    case Snapshot(order) => s.(phase := Contacting(order, 0))
    case Contact(answered, elapsed) =>
      var peer, now := s.phase.todo[0], s.now + elapsed;
      s.(presence := s.presence[peer := AfterContact(s.presence[peer], answered, now)], now := now,
         phase := Contacting(s.phase.todo[1..], s.phase.made + 1))
    case Sleep => s.(now := s.now + PAUSE, phase := Scanning)
    case Register(id, peer, active) =>
      s.(table := s.table[id := peer], presence := s.presence[peer := Presence(active, s.now)])
    case Unregister(id) => s.(table := s.table - {id})
    case Refresh(peer) => s.(presence := s.presence[peer := s.presence[peer].(lastSeen := s.now)])
  }

  predicate IsStalePeer(s: State, peer: nat) {
    peer in s.presence && IsStale(s.presence[peer].lastSeen, s.now)
  }

  ghost predicate IsRun(s: State, events: seq<Event>, load: Load)
    decreases |events|
  {
    events == [] || (Enabled(s, events[0], load) && IsRun(Apply(s, events[0], load), events[1..], load))
  }

  ghost function After(s: State, events: seq<Event>, load: Load): State
    requires IsRun(s, events, load)
    decreases |events|
  {
    if events == [] then s else After(Apply(s, events[0], load), events[1..], load)
  }

  // ---------------------------------------------------------------------------------------------
  // What every round keeps
  // ---------------------------------------------------------------------------------------------

  ghost predicate WellFormed(s: State, load: Load) {
    && (forall id | id in s.table :: s.table[id] in s.presence)
    && (forall peer | peer in s.presence :: s.presence[peer].lastSeen <= s.now)
    && (s.phase.Contacting? ==>
          && |s.phase.todo| + s.phase.made <= load.peers
          && (forall peer | peer in s.phase.todo :: peer in s.presence && s.presence[peer].active)
          && (forall i, j | 0 <= i < j < |s.phase.todo| :: s.phase.todo[i] != s.phase.todo[j]))
  }

  lemma WellFormedStep(s: State, e: Event, load: Load)
    requires WellFormed(s, load) && Enabled(s, e, load)
    ensures WellFormed(Apply(s, e, load), load)
  {
    if e.Contact? {
      var todo := s.phase.todo;
      assert forall peer | peer in todo[1..] :: peer in todo && peer != todo[0];
    }
  }

  // ---------------------------------------------------------------------------------------------
  // A peer that answers stays
  // ---------------------------------------------------------------------------------------------

  /** What is assumed of the other events: nobody else takes the id away, and the peer always answers. */
  predicate Spares(s: State, e: Event, id: string, peer: nat) {
    match e
    case Contact(answered, _) => answered || (s.phase.Contacting? && s.phase.todo != [] && s.phase.todo[0] != peer)
    case Register(id', _, _) => id' != id
    case Unregister(id') => id' != id
    case _ => true
  }

  ghost predicate SparedRun(s: State, events: seq<Event>, load: Load, id: string, peer: nat)
    requires IsRun(s, events, load)
    decreases |events|
  {
    events == [] ||
    (Spares(s, events[0], id, peer) && SparedRun(Apply(s, events[0], load), events[1..], load, id, peer))
  }

  function Age(s: State, peer: nat): int
    requires peer in s.presence
  {
    s.now - s.presence[peer].lastSeen
  }

  /** The peer is registered, active, and seen recently enough for the phase the heartbeat is in. */
  ghost predicate Safe(s: State, load: Load, id: string, peer: nat) {
    && id in s.table && s.table[id] == peer
    && peer in s.presence && s.presence[peer].active
    && match s.phase
       case Scanning => Age(s, peer) <= load.peers * load.perContact + PAUSE
       case Snapshotting => true
       case Contacting(todo, made) => peer in todo || Age(s, peer) <= made * load.perContact
  }

  lemma MoreContacts(a: nat, b: nat, t: nat)
    requires a <= b
    ensures a * t <= b * t && (a + 1) * t == a * t + t
  {
  }

  lemma SafeStep(s: State, e: Event, load: Load, id: string, peer: nat)
    requires WellFormed(s, load) && Enabled(s, e, load) && Safe(s, load, id, peer) && Spares(s, e, id, peer)
    requires PAUSE + load.peers * load.perContact <= STALE_THRESHOLD
    ensures Safe(Apply(s, e, load), load, id, peer)
  {
    if s.phase.Contacting? {
      MoreContacts(s.phase.made, load.peers, load.perContact);
      var todo := s.phase.todo;
      assert todo != [] ==> forall x | x in todo :: x == todo[0] || x in todo[1..];
    }
    if e.Snapshot? {
      assert IsActivePeer(s, peer);
    }
  }

  /** Heartbeat safety, over any number of rounds: with at most n active peers in a snapshot, at most T for
      each contact and 30 s + n * T within the five minutes, a peer that answers whenever it is
      contacted is never removed. */
  lemma {:induction false} AnsweringPeerStays(s: State, events: seq<Event>, load: Load, id: string, peer: nat)
    requires WellFormed(s, load) && Safe(s, load, id, peer)
    requires IsRun(s, events, load) && SparedRun(s, events, load, id, peer)
    requires PAUSE + load.peers * load.perContact <= STALE_THRESHOLD
    ensures Safe(After(s, events, load), load, id, peer)
    decreases |events|
  {
    hide WellFormed, Safe, Enabled, Apply, Spares;
    if events != [] {
      SafeStep(s, events[0], load, id, peer);
      WellFormedStep(s, events[0], load);
      AnsweringPeerStays(Apply(s, events[0], load), events[1..], load, id, peer);
    }
  }

  /** A peer is safe from the moment it is registered, whatever the heartbeat is doing just then. */
  lemma RegisteredIsSafe(s: State, load: Load, id: string, peer: nat)
    requires WellFormed(s, load) && Enabled(s, Register(id, peer, true), load)
    ensures Safe(Apply(s, Register(id, peer, true), load), load, id, peer)
    ensures WellFormed(Apply(s, Register(id, peer, true), load), load)
  {
    WellFormedStep(s, Register(id, peer, true), load);
  }

  // ---------------------------------------------------------------------------------------------
  // The bound is exact
  // ---------------------------------------------------------------------------------------------

  /** Every contact of the round takes the full time and is answered, then the sleep, then the scan. */
  function SlowRound(contacts: nat, perContact: nat): seq<Event> {
    if contacts == 0 then [Sleep, Scan] else [Contact(true, perContact)] + SlowRound(contacts - 1, perContact)
  }

  /** The table never holds more peers than the load allows to be active. */
  ghost predicate TableWithin(s: State, events: seq<Event>, load: Load)
    requires IsRun(s, events, load)
    decreases |events|
  {
    |s.table| <= load.peers &&
    (events == [] || TableWithin(Apply(s, events[0], load), events[1..], load))
  }

  ghost predicate SlowRoundRemoves(s: State, load: Load, id: string, peer: nat, contacts: nat) {
    var round := SlowRound(contacts, load.perContact);
    && IsRun(s, round, load) && SparedRun(s, round, load, id, peer) && TableWithin(s, round, load)
    && id !in After(s, round, load).table
  }

  lemma LastTwo(s: State, load: Load, id: string, peer: nat)
    requires s.phase.Contacting? && s.phase.todo == [] && |s.table| <= load.peers
    requires id in s.table && s.table[id] == peer && peer in s.presence
    requires Age(s, peer) + PAUSE > STALE_THRESHOLD
    ensures SlowRoundRemoves(s, load, id, peer, 0)
  {
    var s1 := Apply(s, Sleep, load);
    var s2 := Apply(s1, Scan, load);
    Smaller(s2.table, s1.table);
    assert [Sleep, Scan][1..] == [Scan] && [Scan][1..] == [];
    assert IsRun(s2, [], load) && SparedRun(s2, [], load, id, peer) && TableWithin(s2, [], load);
    assert IsRun(s1, [Scan], load) && SparedRun(s1, [Scan], load, id, peer) && TableWithin(s1, [Scan], load);
    assert After(s1, [Scan], load) == After(s2, [], load) == s2;
    assert IsRun(s, [Sleep, Scan], load) && SparedRun(s, [Sleep, Scan], load, id, peer);
    assert TableWithin(s, [Sleep, Scan], load);
    assert After(s, [Sleep, Scan], load) == s2;
  }

  lemma Smaller(a: map<string, nat>, b: map<string, nat>)
    requires forall id | id in a :: id in b
    ensures |a| <= |b|
  {
    SubsetSize(a.Keys, b.Keys);
  }

  lemma {:induction false} SubsetSize(a: set<string>, b: set<string>)
    requires a <= b
    ensures |a| <= |b|
  {
    if a != {} {
      var x :| x in a;
      SubsetSize(a - {x}, b - {x});
    }
  }

  lemma {:induction false} SlowRoundRuns(s: State, load: Load, id: string, peer: nat)
    requires WellFormed(s, load) && s.phase.Contacting? && peer !in s.phase.todo && |s.table| <= load.peers
    requires id in s.table && s.table[id] == peer && peer in s.presence
    requires Age(s, peer) + |s.phase.todo| * load.perContact + PAUSE > STALE_THRESHOLD
    ensures SlowRoundRemoves(s, load, id, peer, |s.phase.todo|)
    decreases |s.phase.todo|
  {
    var todo := s.phase.todo;
    if todo == [] {
      LastTwo(s, load, id, peer);
    } else {
      var e := Contact(true, load.perContact);
      var s' := Apply(s, e, load);
      WellFormedStep(s, e, load);
      MoreContacts(|todo| - 1, |todo|, load.perContact);
      SlowRoundRuns(s', load, id, peer);
      var rest := SlowRound(|todo| - 1, load.perContact);
      var round := SlowRound(|todo|, load.perContact);
      assert round[0] == e && round[1..] == rest;
      assert IsRun(s, round, load) && SparedRun(s, round, load, id, peer) && TableWithin(s, round, load);
    }
  }

  function Numbers(n: nat): (r: seq<nat>)
    ensures |r| == n && forall i | 0 <= i < n :: r[i] == i
  {
    seq(n, i requires 0 <= i => i)
  }

  function AllPresent(n: nat): (r: map<nat, Presence>)
    ensures forall peer: nat :: (peer in r <==> peer < n) && (peer in r ==> r[peer] == Presence(true, 0))
  {
    if n == 0 then map[] else AllPresent(n - 1)[n - 1 := Presence(true, 0)]
  }

  function Id(peer: nat): (r: string)
    ensures |r| == peer
  {
    seq(peer, _ => 'p')
  }

  function AllListed(n: nat): (r: map<string, nat>)
    ensures forall id | id in r :: r[id] < n && |id| == r[id]
    ensures forall peer: nat | peer < n :: Id(peer) in r && r[Id(peer)] == peer
    ensures |r| <= n
  {
    if n == 0 then map[] else AllListed(n - 1)[Id(n - 1) := n - 1]
  }

  /** n peers registered at once, by a heartbeat that is about to scan. */
  function Started(n: nat): State {
    State(AllListed(n), AllPresent(n), 0, Scanning)
  }

  function Registrations(k: nat, n: nat): seq<Event>
    requires k <= n
    decreases n - k
  {
    if k == n then [] else [Register(Id(k), k, true)] + Registrations(k + 1, n)
  }

  lemma {:induction false} RegistrationsRun(k: nat, load: Load)
    requires k <= load.peers
    ensures IsRun(Started(k), Registrations(k, load.peers), load)
    ensures After(Started(k), Registrations(k, load.peers), load) == Started(load.peers)
    ensures TableWithin(Started(k), Registrations(k, load.peers), load)
    decreases load.peers - k
  {
    var n := load.peers;
    if k < n {
      var e, rest := Register(Id(k), k, true), Registrations(k + 1, n);
      assert Apply(Started(k), e, load) == Started(k + 1);
      RegistrationsRun(k + 1, load);
      assert Registrations(k, n)[1..] == rest;
    }
  }

  lemma {:induction false} RunsCompose(s: State, first: seq<Event>, second: seq<Event>, load: Load)
    requires IsRun(s, first, load) && IsRun(After(s, first, load), second, load)
    requires TableWithin(s, first, load) && TableWithin(After(s, first, load), second, load)
    ensures IsRun(s, first + second, load) && TableWithin(s, first + second, load)
    ensures After(s, first + second, load) == After(After(s, first, load), second, load)
    decreases |first|
  {
    hide Enabled, Apply;
    if first == [] {
      assert first + second == second;
    } else {
      assert (first + second)[1..] == first[1..] + second;
      RunsCompose(Apply(s, first[0], load), first[1..], second, load);
    }
  }

  /** A round with a full snapshot, just after the first peer of it has been registered anew: its id now
      stands for an object that is not in the snapshot. */
  function LateArrival(load: Load): State
    requires load.peers > 0
  {
    var n := load.peers;
    State(AllListed(n)[Id(0) := n], AllPresent(n + 1), 0, Contacting(Numbers(n), 0))
  }

  lemma RunOfOne(s: State, e: Event, more: seq<Event>, load: Load)
    requires Enabled(s, e, load) && IsRun(Apply(s, e, load), more, load)
    requires |s.table| <= load.peers && TableWithin(Apply(s, e, load), more, load)
    ensures IsRun(s, [e] + more, load) && TableWithin(s, [e] + more, load)
    ensures After(s, [e] + more, load) == After(Apply(s, e, load), more, load)
  {
    assert ([e] + more)[1..] == more;
  }

  lemma FirstScan(n: nat, load: Load)
    ensures Apply(Started(n), Scan, load) == Started(n).(phase := Snapshotting)
  {
    assert Apply(Started(n), Scan, load).table == Started(n).table;
  }

  lemma FirstSnapshot(load: Load)
    ensures Enabled(Started(load.peers).(phase := Snapshotting), Snapshot(Numbers(load.peers)), load)
  {
    var n := load.peers;
    var s := Started(n).(phase := Snapshotting);
    forall peer: nat
      ensures peer in Numbers(n) <==> IsActivePeer(s, peer)
    {
      if peer < n {
        assert Numbers(n)[peer] == peer && s.table[Id(peer)] == peer;
      }
    }
  }

  lemma LastThree(load: Load)
    requires load.peers > 0
    ensures var n := load.peers; var s := Started(n);
            var events := [Scan] + ([Snapshot(Numbers(n))] + [Register(Id(0), n, true)]);
            IsRun(s, events, load) && After(s, events, load) == LateArrival(load) && TableWithin(s, events, load)
  {
    var n := load.peers;
    var s1 := Started(n).(phase := Snapshotting);
    var s2 := s1.(phase := Contacting(Numbers(n), 0));
    var e1, e2, e3 := Scan, Snapshot(Numbers(n)), Register(Id(0), n, true);
    FirstScan(n, load);
    FirstSnapshot(load);
    assert Apply(s2, e3, load) == LateArrival(load);
    assert Apply(s1, e2, load) == s2;
    assert Enabled(s2, e3, load);
    assert |s2.table| <= n && |LateArrival(load).table| <= n by {
      Smaller(LateArrival(load).table, s2.table);
    }
    hide Enabled, Apply, Numbers, AllListed, AllPresent;
    assert [e3] + [] == [e3];
    RunOfOne(s2, e3, [], load);
    RunOfOne(s1, e2, [e3], load);
    RunOfOne(Started(n), e1, [e2] + [e3], load);
  }

  ghost predicate Reaches(load: Load, events: seq<Event>, t: State) {
    IsRun(Started(0), events, load) && TableWithin(Started(0), events, load) && After(Started(0), events, load) == t
  }

  lemma ReachedBy(load: Load, events: seq<Event>, t: State)
    requires IsRun(Started(0), events, load) && TableWithin(Started(0), events, load)
    requires After(Started(0), events, load) == t
    ensures Reaches(load, events, t)
  {
  }

  lemma LateArrivalReached(load: Load)
    requires load.peers > 0
    ensures exists events :: Reaches(load, events, LateArrival(load))
  {
    hide *;
    var n := load.peers;
    var events := [Scan] + ([Snapshot(Numbers(n))] + [Register(Id(0), n, true)]);
    RegistrationsRun(0, load);
    LastThree(load);
    RunsCompose(Started(0), Registrations(0, n), events, load);
    ReachedBy(load, Registrations(0, n) + events, LateArrival(load));
  }

  /** Under any heavier load than in AnsweringPeerStays there is a run from the empty table, never with more
      peers in the table than the load allows and with every contact answered, that removes a peer: one
      that was registered anew just after a snapshot. So the assumption on the load cannot be weakened. */
  lemma AnsweringPeerRemoved(load: Load)
    requires PAUSE + load.peers * load.perContact > STALE_THRESHOLD
    ensures load.peers > 0
    ensures exists events :: Reaches(load, events, LateArrival(load))
    ensures Safe(LateArrival(load), load, Id(0), load.peers)
    ensures SlowRoundRemoves(LateArrival(load), load, Id(0), load.peers, load.peers)
  {
    LateArrivalReached(load);
    Smaller(LateArrival(load).table, AllListed(load.peers));
    SlowRoundRuns(LateArrival(load), load, Id(0), load.peers);
  }

  // ---------------------------------------------------------------------------------------------
  // An inactive peer expires
  // ---------------------------------------------------------------------------------------------

  /** Nobody else refreshes the object or touches the id. */
  predicate LeavesAlone(e: Event, id: string, peer: nat) {
    match e
    case Register(id', _, _) => id' != id
    case Unregister(id') => id' != id
    case Refresh(peer') => peer' != peer
    case _ => true
  }

  ghost predicate Gone(s: State, peer: nat, lastSeen: int) {
    && peer in s.presence && s.presence[peer] == Presence(false, lastSeen)
    && (s.phase.Contacting? ==> peer !in s.phase.todo)
  }

  lemma GoneStep(s: State, e: Event, load: Load, id: string, peer: nat, lastSeen: int)
    requires WellFormed(s, load) && Enabled(s, e, load) && Gone(s, peer, lastSeen) && LeavesAlone(e, id, peer)
    ensures var t := Apply(s, e, load);
            && Gone(t, peer, lastSeen)
            && (id !in s.table ==> id !in t.table)
            && (id in s.table && s.table[id] == peer ==>
                  if e == Scan && IsStale(lastSeen, s.now) then id !in t.table else id in t.table && t.table[id] == peer)
  {
    if e.Contact? {
      var todo := s.phase.todo;
      assert forall x | x in todo[1..] :: x in todo;
    }
  }

  /** Some scan of the run came more than five minutes after lastSeen. */
  ghost predicate ScannedLate(s: State, events: seq<Event>, load: Load, lastSeen: int)
    requires IsRun(s, events, load)
    decreases |events|
  {
    && events != []
    && (|| (events[0] == Scan && s.now > lastSeen + STALE_THRESHOLD)
        || ScannedLate(Apply(s, events[0], load), events[1..], load, lastSeen))
  }

  lemma {:induction false} GoneForGood(s: State, events: seq<Event>, load: Load, id: string, peer: nat, lastSeen: int)
    requires WellFormed(s, load) && Gone(s, peer, lastSeen) && IsRun(s, events, load)
    requires forall e | e in events :: LeavesAlone(e, id, peer)
    requires id !in s.table
    ensures id !in After(s, events, load).table
    decreases |events|
  {
    hide WellFormed, Gone, Enabled, Apply, LeavesAlone;
    if events != [] {
      assert events[0] in events;
      GoneStep(s, events[0], load, id, peer, lastSeen);
      WellFormedStep(s, events[0], load);
      GoneForGood(Apply(s, events[0], load), events[1..], load, id, peer, lastSeen);
    }
  }

  /** Expiry, over any run: a peer that went inactive and that no other call refreshes, replaces or removes
      is in the table until the first scan more than five minutes after it was last seen, and not after. */
  lemma {:induction false} InactivePeerExpires(s: State, events: seq<Event>, load: Load,
                                               id: string, peer: nat, lastSeen: int)
    requires WellFormed(s, load) && Gone(s, peer, lastSeen) && IsRun(s, events, load)
    requires forall e | e in events :: LeavesAlone(e, id, peer)
    requires id in s.table && s.table[id] == peer
    ensures var t := After(s, events, load);
            if ScannedLate(s, events, load, lastSeen) then id !in t.table else id in t.table && t.table[id] == peer
    decreases |events|
  {
    hide WellFormed, Gone, Enabled, Apply, LeavesAlone;
    if events != [] {
      var e := events[0];
      assert e in events;
      GoneStep(s, e, load, id, peer, lastSeen);
      WellFormedStep(s, e, load);
      if e == Scan && IsStale(lastSeen, s.now) {
        GoneForGood(Apply(s, e, load), events[1..], load, id, peer, lastSeen);
      } else {
        InactivePeerExpires(Apply(s, e, load), events[1..], load, id, peer, lastSeen);
      }
    }
  }

  /** By when a peer that is still in the table was not stale at the last scan. */
  ghost predicate Timely(s: State, load: Load, lastSeen: int) {
    var deadline := lastSeen + STALE_THRESHOLD;
    match s.phase
    case Scanning => s.now <= deadline + load.peers * load.perContact + PAUSE
    case Snapshotting => s.now <= deadline
    case Contacting(_, made) => s.now <= deadline + made * load.perContact
  }

  lemma TimelyStep(s: State, e: Event, load: Load, lastSeen: int)
    requires WellFormed(s, load) && Enabled(s, e, load)
    requires if e == Scan then !IsStale(lastSeen, s.now) else Timely(s, load, lastSeen)
    ensures Timely(Apply(s, e, load), load, lastSeen)
  {
    if s.phase.Contacting? {
      MoreContacts(s.phase.made, load.peers, load.perContact);
    }
  }

  lemma {:induction false} TimelyRun(s: State, events: seq<Event>, load: Load, id: string, peer: nat, lastSeen: int)
    requires WellFormed(s, load) && Gone(s, peer, lastSeen) && IsRun(s, events, load)
    requires forall e | e in events :: LeavesAlone(e, id, peer)
    requires id in s.table && s.table[id] == peer
    requires Timely(s, load, lastSeen) || Scan in events
    ensures var t := After(s, events, load); id in t.table ==> WellFormed(t, load) && Timely(t, load, lastSeen)
    decreases |events|
  {
    hide WellFormed, Gone, Enabled, Apply, LeavesAlone, Timely, IsStale;
    if events != [] {
      var e := events[0];
      assert e in events;
      GoneStep(s, e, load, id, peer, lastSeen);
      WellFormedStep(s, e, load);
      if e == Scan && IsStale(lastSeen, s.now) {
        GoneForGood(Apply(s, e, load), events[1..], load, id, peer, lastSeen);
      } else {
        if e == Scan || Timely(s, load, lastSeen) {
          TimelyStep(s, e, load, lastSeen);
        } else {
          assert events == [e] + events[1..];
        }
        TimelyRun(Apply(s, e, load), events[1..], load, id, peer, lastSeen);
      }
    }
  }

  /** A deadline: once a run has had a scan, the clock does not pass five minutes, one pause and one round of
      contacts after it was last seen with the inactive peer still in the table. */
  lemma InactivePeerDeadline(s: State, events: seq<Event>, load: Load, id: string, peer: nat, lastSeen: int)
    requires WellFormed(s, load) && Gone(s, peer, lastSeen) && IsRun(s, events, load)
    requires forall e | e in events :: LeavesAlone(e, id, peer)
    requires id in s.table && s.table[id] == peer && Scan in events
    ensures var t := After(s, events, load);
            t.now > lastSeen + 330 * 1_000_000_000 + load.peers * load.perContact ==> id !in t.table
  {
    TimelyRun(s, events, load, id, peer, lastSeen);
    var t := After(s, events, load);
    hide IsRun, After;
    if id in t.table && t.phase.Contacting? {
      MoreContacts(t.phase.made, load.peers, load.perContact);
    }
  }

  /** The heartbeat is never held up: it can always scan, reach the next peer with either outcome in any time the
      load allows, or sleep, and after a scan it can take any snapshot of the active peers. */
  lemma HeartbeatGoesOn(s: State, load: Load, answered: bool, elapsed: nat, order: seq<nat>)
    requires WellFormed(s, load) && elapsed <= load.perContact
    requires forall peer :: peer in order <==> IsActivePeer(s, peer)
    requires |order| <= load.peers && forall i, j | 0 <= i < j < |order| :: order[i] != order[j]
    ensures match s.phase
            case Scanning => Enabled(s, Scan, load)
            case Snapshotting => Enabled(s, Snapshot(order), load)
            case Contacting(todo, _) =>
              if todo == [] then Enabled(s, Sleep, load) else Enabled(s, Contact(answered, elapsed), load)
  {
    if s.phase.Contacting? && s.phase.todo != [] {
      assert s.phase.todo[0] in s.phase.todo;
    }
  }

  /** What a call of another thread does to the table and to the peer objects: a registration puts a new object
      there, seen now; a removal takes one entry away; a refresh marks the object as seen now. Nothing
      else changes. */
  lemma OtherCalls(s: State, e: Event, load: Load, id: string, peer: nat)
    requires (e.Register? || e.Unregister? || e.Refresh?) && Enabled(s, e, load)
    ensures var t := Apply(s, e, load);
            && t.now == s.now && t.phase == s.phase
            && (if e.Register? && e.id == id then id in t.table && t.table[id] == e.peer
                else if e.Unregister? && e.id == id then id !in t.table
                else (id in t.table <==> id in s.table) && (id in t.table ==> t.table[id] == s.table[id]))
            && (if e.Register? && e.peer == peer then peer in t.presence && t.presence[peer] == Presence(e.active, s.now)
                else if e.Refresh? && e.peer == peer then
                  peer in t.presence && t.presence[peer] == Presence(s.presence[peer].active, s.now)
                else (peer in t.presence <==> peer in s.presence)
                     && (peer in t.presence ==> t.presence[peer] == s.presence[peer]))
  {
  }

  /** So a refresh postpones the removal of an inactive peer by what it was not seen. */
  lemma RefreshPostpones(s: State, load: Load, peer: nat, lastSeen: int)
    requires Gone(s, peer, lastSeen)
    ensures Enabled(s, Refresh(peer), load) && Gone(Apply(s, Refresh(peer), load), peer, s.now)
  {
  }

  /** A peer that fails one contact is gone in this sense from then on. */
  lemma FailedContact(s: State, load: Load, elapsed: nat)
    requires WellFormed(s, load) && Enabled(s, Contact(false, elapsed), load)
    ensures var peer := s.phase.todo[0];
            Gone(Apply(s, Contact(false, elapsed), load), peer, s.presence[peer].lastSeen)
  {
    var todo := s.phase.todo;
    assert todo[0] !in todo[1..];
  }
}
