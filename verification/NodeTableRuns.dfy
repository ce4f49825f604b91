/** Runs of the discovery table on which a property one would expect fails. */
module NodeTableRuns {
  import opened EndpointProofs
  import opened NodeTable
  import opened Sequences

  /** A table whose nodes all have distance one, numbered from one on, without pings. */
  ghost predicate Filled(t: Table, n: nat)
    reads t, t.made
  {
    && t.Valid() && t.open && t.host == 0 && t.sentPings == map[]
    && (forall id :: t.distanceOf(id) == 1) && (forall e :: t.allowed(e))
    && |t.buckets[0]| == n && (forall id :: id in t.allNodes <==> 1 <= id <= n)
    && forall k :: 0 <= k < n ==>
         var e := t.buckets[0][k];
         e in t.made && t.allNodes[k + 1] == e && e.id == k + 1 && e.endpoint == At(1, k + 1)
  }

  function At(address: nat, port: nat): Endpoint {
    Endpoint(Udp(address, port), 1)
  }

  method Fill(t: Table, n: nat)
    requires Filled(t, 0) && n <= t.bucketSize
    modifies t`buckets, t`allNodes, t`sentPings, t`history, t`made
    ensures Filled(t, n) && fresh(t.made - old(t.made))
  {
    hide Proven, Extends, Table.Honest, ListedIn, LiveIn, Table.Mapped, Table.Pinged, Table.Homed, Table.BucketOk;
    for i := 0 to n
      invariant Filled(t, i) && fresh(t.made - old(t.made))
    {
      AddNext(t, i);
    }
  }

  method AddNext(t: Table, i: nat)
    requires Filled(t, i) && i < t.bucketSize
    modifies t`buckets, t`allNodes, t`sentPings, t`history, t`made
    ensures Filled(t, i + 1) && fresh(t.made - old(t.made))
  {
    hide Proven, Extends, Table.Honest, ListedIn, LiveIn, Table.Mapped, Table.Pinged, Table.Homed, Table.BucketOk;
    var _, _, _ := t.AddKnownNode(i + 1, At(1, i + 1), 0, _ => false, 0, i);
  }

  /** A boot node told of 257 nodes at one distance: all are known, but the first is in no bucket. */
  method BootNodeUnlists() returns (t: Table)
    ensures t.bootNode && t.Valid() && !t.Listed()
    ensures forall id :: id in t.allNodes <==> 1 <= id <= 257
  {
    hide Proven, Extends, Table.Honest, ListedIn, LiveIn, Table.Mapped, Table.Pinged, Table.Homed, Table.BucketOk;
    t := new Table(0, true, _ => 1, _ => true);
    Fill(t, BOOT_NODE_BUCKET_SIZE);
    OneTooMany(t);
  }

  method OneTooMany(t: Table)
    requires t.bootNode && Filled(t, t.bucketSize)
    modifies t`buckets, t`allNodes, t`sentPings, t`history, t`made
    ensures t.Valid() && !t.Listed() && forall id :: id in t.allNodes <==> 1 <= id <= t.bucketSize + 1
  {
    hide Proven, Extends, Table.Honest, LiveIn, Table.Mapped, Table.Pinged, Table.Homed;
    var n := t.bucketSize;
    ghost var b := t.buckets[0];
    DistinctTail(b);
    var _, _, e := t.AddKnownNode(n + 1, At(1, n + 1), 0, _ => false, 0, 0);
    assert t.buckets[0] == b[1..] + [e];
    assert t.allNodes[1] == b[0] && b[0] !in t.buckets[0];
  }

  /** Two expired pings for node 1: one to where it now is, one to where it was, with node 17 waiting behind it. */
  ghost predicate TwoPings(t: Table, waiting: NodeEntry)
    reads t, t.made
  {
    && t.Valid() && 1 in t.allNodes && t.allNodes[1].id == 1 && t.allNodes[1].endpoint.udp == MOVED && t.allNodes[1].lastPongReceived == 0
    && t.sentPings == map[WAS := Validation(1, 1, 0, 17, waiting), MOVED := Validation(1, 1, 0, 2, null)]
    && waiting in t.made && waiting.id == 17 && t.Admissible(waiting, 61) && 17 !in t.allNodes
  }

  const WAS := Udp(1, 1)
  const MOVED := Udp(2, 1)

  /** Such a state is reached by sixteen nodes, a seventeenth and a node that moves. */
  method ReachTwoPings() returns (t: Table, ghost waiting: NodeEntry)
    ensures fresh(t) && TwoPings(t, waiting)
  {
    hide Proven, Extends, Table.Honest, ListedIn, LiveIn, Table.Mapped, Table.Pinged, Table.Homed, Table.BucketOk;
    t := new Table(0, false, _ => 1, _ => true);
    Fill(t, NODE_BUCKET_SIZE);
    waiting := Seventeenth(t);
    Move(t, waiting);
  }

  /** The seventeenth node waits for the first one to answer. */
  method Seventeenth(t: Table) returns (ghost waiting: NodeEntry)
    requires !t.bootNode && Filled(t, NODE_BUCKET_SIZE)
    modifies t`buckets, t`allNodes, t`sentPings, t`history, t`made
    ensures fresh(t.made - old(t.made)) && Waiting(t, waiting)
  {
    hide Proven, Extends, Table.Honest, ListedIn, Table.Mapped, Table.Pinged, Table.Homed, Table.BucketOk;
    ghost var b := t.buckets[0];
    assert b[0] == t.allNodes[1] && b[0] in t.allNodes.Values;
    var _, _, e := t.AddKnownNode(17, At(1, 17), 0, _ => false, 0, 17);
    waiting := e;
  }

  ghost predicate Waiting(t: Table, waiting: NodeEntry)
    reads t, t.made
  {
    && t.Valid() && t.open && t.host == 0 && (forall id :: t.distanceOf(id) == 1) && (forall e :: t.allowed(e))
    && t.sentPings == map[WAS := Validation(1, 1, 0, 17, waiting)]
    && 1 in t.allNodes && t.allNodes[1] in t.made && t.allNodes[1] in t.buckets[0] && t.allNodes[1] != waiting && 17 !in t.allNodes
    && waiting in t.made && waiting.id == 17 && t.Admissible(waiting, 61)
  }

  method Move(t: Table, ghost waiting: NodeEntry)
    requires Waiting(t, waiting)
    modifies t`buckets, t`allNodes, t`sentPings, t`history, t`made, if 1 in t.allNodes then {t.allNodes[1]} else {}
    ensures TwoPings(t, waiting)
  {
    hide Proven, Extends, Table.Honest, ListedIn, LiveIn, Table.Mapped, Table.Pinged, Table.Homed, Table.BucketOk;
    t.HandlePingDue(1, At(2, 1), 0, 1);
    var _ := t.HandlePong(MOVED, 1, 1, _ => false, 0, 0);
    t.HandlePingDue(1, At(2, 1), 0, 2);
  }

  /**
   The sweep of that table a minute later. If the ping to the new endpoint comes first, node 1 is
   dropped, and the ping to the old one no longer finds it: node 17 is lost. Otherwise it is saved.
   */
  method OrderDecides() returns (t: Table, activate: seq<NodeEntry>, ghost order: seq<Udp>, ghost waiting: NodeEntry)
    ensures waiting.id == 17 && t.Admissible(waiting, 61)
    ensures order == [MOVED, WAS] || order == [WAS, MOVED]
    ensures activate == if order == [MOVED, WAS] then [] else [waiting]
  {
    hide Proven, Extends, Table.Honest, ListedIn, LiveIn, Table.Mapped, Table.Pinged, Table.Homed, Table.BucketOk, Table.Activated;
    t, waiting := ReachTwoPings();
    ghost var pings, known := t.sentPings, t.allNodes;
    activate, order := t.SweepTimeouts(61);
    TwoInOrder(t, pings, order);
    FirstDecides(t, pings, known, waiting, 61);
  }

  lemma TwoInOrder(t: Table, pings: map<Udp, Validation>, order: seq<Udp>)
    requires pings.Keys == {WAS, MOVED} && t.Visits(pings, order, {})
    ensures order == [MOVED, WAS] || order == [WAS, MOVED]
  {
    t.VisitsAll(pings, order, WAS);
    t.VisitsAll(pings, order, MOVED);
    DistinctCount(order, pings.Keys);
    assert order[0] in pings.Keys && order[1] in pings.Keys;
  }

  lemma FirstDecides(t: Table, pings: map<Udp, Validation>, known: map<NodeId, NodeEntry>, waiting: NodeEntry, now: nat)
    requires pings == map[WAS := Validation(1, 1, 0, 17, waiting), MOVED := Validation(1, 1, 0, 2, null)] && now == 61
    requires 1 in known && known[1].id == 1 && known[1].endpoint.udp == MOVED && known[1].lastPongReceived == 0
    ensures t.Activated(pings, known, [MOVED, WAS], now) == []
    ensures t.Activated(pings, known, [WAS, MOVED], now) == [waiting]
  {
    hide Table.Activated, Table.LetIn, Table.Visits;
    var keys := {WAS, MOVED};
    assert pings.Keys == keys;
    WhoIsLetIn(t, pings, known, waiting, now);
    t.ActivatedStart(pings, known, now);
    assert [] + [MOVED] == [MOVED] && [] + [WAS] == [WAS] && [MOVED] + [WAS] == [MOVED, WAS] && [WAS] + [MOVED] == [WAS, MOVED];
    t.ActivatedNext(pings, known, [], keys, MOVED, now);
    t.ActivatedNext(pings, known, [MOVED], keys - {MOVED}, WAS, now);
    t.ActivatedNext(pings, known, [], keys, WAS, now);
    t.ActivatedNext(pings, known, [WAS], keys - {WAS}, MOVED, now);
  }

  lemma WhoIsLetIn(t: Table, pings: map<Udp, Validation>, known: map<NodeId, NodeEntry>, waiting: NodeEntry, now: nat)
    requires pings == map[WAS := Validation(1, 1, 0, 17, waiting), MOVED := Validation(1, 1, 0, 2, null)] && now == 61
    requires 1 in known && known[1].id == 1 && known[1].endpoint.udp == MOVED && known[1].lastPongReceived == 0
    ensures t.LetIn(pings, known, [], WAS, now) && !t.LetIn(pings, known, [MOVED], WAS, now)
    ensures !t.LetIn(pings, known, [], MOVED, now) && !t.LetIn(pings, known, [WAS], MOVED, now)
  {
    assert MOVED !in t.Left(pings, [MOVED]) && t.Drops(MOVED, pings[MOVED], known[1], now);
    assert t.GivenUp(pings, t.Left(pings, [MOVED]), known[1], now);
    assert !t.GivenUp(pings, t.Left(pings, []), known[1], now);
  }
}
