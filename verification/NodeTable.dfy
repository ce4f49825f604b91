/**
 The discovery table of libp2p/NodeTable.cpp: buckets of weak references by distance beside
 the owning map of all nodes, and outstanding pings that may carry a replacement candidate.
 */
module NodeTable {
  import opened Bytes
  import opened EndpointProofs
  import opened Modulo
  import opened Sequences
  import opened Sets

  const BINS: nat := 255
  const NODE_BUCKET_SIZE: nat := 16
  const BOOT_NODE_BUCKET_SIZE: nat := 256
  const REQUEST_TTL: nat := 60

  class NodeEntry {
    const id: NodeId
    const distance: nat
    var endpoint: Endpoint
    var lastPongReceived: nat

    constructor (id: NodeId, distance: nat, endpoint: Endpoint, lastPongReceived: nat)
      ensures this.id == id && this.distance == distance
      ensures this.endpoint == endpoint && this.lastPongReceived == lastPongReceived
    {
      this.id, this.distance, this.endpoint, this.lastPongReceived := id, distance, endpoint, lastPongReceived;
    }
  }

  /** A ping we wait for: whom it was meant for and who takes its place in case of a timeout. */
  datatype Validation = Validation(nodeId: NodeId, tcpPort: nat, sentAt: nat, hash: nat, replacement: NodeEntry?)

  /**
   A bucket after an entry was seen: the entry is last, for the price of the oldest one if the
   bucket was full of others, and not at all if the oldest one must stay.
   */
  function Seen<T(==)>(b: seq<T>, e: T, size: nat, mayEvict: bool): (r: seq<T>)
    requires 0 < size
    ensures |b| <= size && Distinct(b) ==> |b| <= |r| <= size && Distinct(r)
    ensures if e in b || |b| < size || mayEvict then r != [] && r[|r| - 1] == e else r == b
    ensures forall x :: x in r ==> x == e || x in b
    ensures forall x :: x in b && x !in r ==> x == b[0] && |b| >= size && e !in b
  {
    if e in b then Without(b, e) + [e]
    else if |b| < size then b + [e]
    else if mayEvict then b[1..] + [e]
    else b
  }

  /** All other entries of the bucket stay in their order, but for the oldest one if it had to go. */
  lemma SeenKeepsOrder<T>(b: seq<T>, e: T, size: nat, mayEvict: bool)
    requires 0 < size && |b| <= size
    ensures Minus(Seen(b, e, size, mayEvict), {e})
            == Minus(if e !in b && |b| == size && mayEvict then b[1..] else b, {e})
  {
    hide Without, Minus, Distinct;
    if e in b {
      WithoutIsMinus(b, e);
      MinusNothing(Without(b, e), {e});
      MinusPush(Without(b, e), e);
    } else if |b| < size {
      MinusPush(b, e);
    } else {
      MinusPush(b[1..], e);
    }
  }

  /** A weak reference can be locked while somebody owns the entry; held tells of owners elsewhere. */
  predicate LiveIn(known: map<NodeId, NodeEntry>, pings: map<Udp, Validation>, e: NodeEntry, held: NodeEntry -> bool) {
    held(e) || e in known.Values || exists u :: u in pings && pings[u].replacement == e
  }

  ghost function EntriesOf(buckets: seq<seq<NodeEntry>>): (r: set<NodeEntry>)
    ensures forall i, j :: 0 <= i < |buckets| && 0 <= j < |buckets[i]| ==> buckets[i][j] in r
  {
    set i, j | 0 <= i < |buckets| && 0 <= j < |buckets[i]| :: buckets[i][j]
  }

  /** The buckets once a known node has been dropped. */
  function AfterDrop(buckets: seq<seq<NodeEntry>>, known: map<NodeId, NodeEntry>, id: NodeId): seq<seq<NodeEntry>> {
    if id in known && 1 <= known[id].distance <= |buckets|
    then buckets[known[id].distance - 1 := Without(buckets[known[id].distance - 1], known[id])]
    else buckets
  }

  ghost predicate ListedIn(known: map<NodeId, NodeEntry>, buckets: seq<seq<NodeEntry>>) {
    forall id :: id in known ==> 1 <= known[id].distance <= |buckets| && known[id] in buckets[known[id].distance - 1]
  }

  ghost predicate SeatedIn(buckets: seq<seq<NodeEntry>>, size: nat, e: NodeEntry) {
    1 <= e.distance <= |buckets| && (e in buckets[e.distance - 1] || |buckets[e.distance - 1]| == size)
  }

  /** An entry that was seen is seated, and no other one loses its seat. */
  lemma SeenIsSeated(buckets: seq<seq<NodeEntry>>, size: nat, e: NodeEntry, mayEvict: bool, x: NodeEntry)
    requires 0 < size && 1 <= e.distance <= |buckets|
    requires |buckets[e.distance - 1]| <= size && Distinct(buckets[e.distance - 1])
    ensures var b := Seen(buckets[e.distance - 1], e, size, mayEvict);
            && SeatedIn(buckets[e.distance - 1 := b], size, e)
            && (SeatedIn(buckets, size, x) ==> SeatedIn(buckets[e.distance - 1 := b], size, x))
  {
    hide Seen, Distinct;
  }

  lemma GrownBucketLists(known: map<NodeId, NodeEntry>, buckets: seq<seq<NodeEntry>>, e: NodeEntry, b: seq<NodeEntry>)
    requires ListedIn(known, buckets) && 1 <= e.distance <= |buckets|
    requires e in b && forall x :: x in buckets[e.distance - 1] ==> x in b
    ensures ListedIn(known, buckets[e.distance - 1 := b])
    ensures ListedIn(known[e.id := e], buckets[e.distance - 1 := b])
  {
  }

  lemma ShrunkBucketLists(known: map<NodeId, NodeEntry>, buckets: seq<seq<NodeEntry>>, e: NodeEntry)
    requires ListedIn(known, buckets) && 1 <= e.distance <= |buckets|
    requires forall id :: id in known && known[id] == e ==> id == e.id
    ensures ListedIn(known - {e.id}, buckets[e.distance - 1 := Without(buckets[e.distance - 1], e)])
  {
  }

  /** An entry pushed out of its bucket was listed exactly if it is still known. */
  lemma DisplacedIsMissing(known: map<NodeId, NodeEntry>, buckets: seq<seq<NodeEntry>>, e: NodeEntry)
    requires ListedIn(known, buckets) && 1 <= e.distance <= |buckets|
    requires var b := buckets[e.distance - 1];
             b != [] && Distinct(b) && e !in b && forall x :: x in b ==> x.distance == e.distance
    ensures var b := buckets[e.distance - 1];
            var known' := if e.id in known then known else known[e.id := e];
            ListedIn(known', buckets[e.distance - 1 := b[1..] + [e]]) <==> b[0] !in known.Values
  {
    var i := e.distance - 1;
    var b := buckets[i];
    var known', buckets' := if e.id in known then known else known[e.id := e], buckets[i := b[1..] + [e]];
    DistinctTail(b);
    if b[0] in known.Values {
      var id :| id in known && known[id] == b[0];
      assert known'[id] == b[0] && b[0] !in buckets'[i];
    } else {
      forall id | id in known' ensures 1 <= known'[id].distance <= |buckets'| && known'[id] in buckets'[known'[id].distance - 1] {
        if id in known {
          assert known[id] in known.Values;
        }
      }
    }
  }

  class Table {
    const host: NodeId
    const bootNode: bool
    /** Distance of a node id to the host's, by their hashes. */
    const distanceOf: NodeId -> nat
    const allowed: Endpoint -> bool
    const bucketSize: nat
    var open: bool
    var buckets: seq<seq<NodeEntry>>
    var allNodes: map<NodeId, NodeEntry>
    var sentPings: map<Udp, Validation>
    /** Everything the table was told and did. */
    ghost var history: seq<Event>
    /** Every entry the table ever made. */
    ghost var made: set<NodeEntry>

    /** The hashes of host and other nodes differ above the last bit, so that every node has a bucket. */
    ghost predicate Spread()
    {
      && (forall id :: id != host ==> 1 <= distanceOf(id) <= BINS)
      && bucketSize == if bootNode then BOOT_NODE_BUCKET_SIZE else NODE_BUCKET_SIZE
    }

    ghost predicate Belongs(e: NodeEntry)
    {
      e.id != host && e.distance == distanceOf(e.id)
    }

    /** No bucket is overfull or lists an entry twice, and each entry sits in the bucket of its distance. */
    ghost predicate Shaped()
      reads this`buckets, this`made
    {
      && |buckets| == BINS
      && forall i :: 0 <= i < BINS ==> BucketOk(i, buckets[i])
    }

    ghost predicate BucketOk(i: nat, b: seq<NodeEntry>)
      reads this`made
    {
      |b| <= bucketSize && Distinct(b) && forall e :: e in b ==> e in made && Belongs(e) && e.distance == i + 1
    }

    /** Every known node has a bucket. */
    ghost predicate Homed()
      reads this`allNodes
    {
      forall id :: id in allNodes ==> Belongs(allNodes[id])
    }

    /** Every known node carries its own id. */
    ghost predicate Mapped()
      reads this`allNodes, this`made
    {
      forall id :: id in allNodes ==> allNodes[id].id == id && allNodes[id] in made
    }

    /** Every awaited ping was sent. */
    ghost predicate Pinged()
      reads this`sentPings, this`history, this`made
    {
      forall u :: u in sentPings ==>
        && Outstanding(history, u, sentPings[u].hash)
        && (sentPings[u].replacement != null ==> sentPings[u].replacement in made)
    }

    /** Every entry ever made, known or waiting, has a proof of the endpoint and the time that it shows. */
    ghost predicate Honest()
      reads this`history, this`made, made
    {
      forall e :: e in made ==> e.distance == distanceOf(e.id) && HasProof(e)
    }

    ghost predicate HasProof(e: NodeEntry)
      reads this`history, e
    {
      Proven(history, e.id, e.endpoint.udp, e.lastPongReceived)
    }

    ghost predicate Valid()
      reads this`buckets, this`allNodes, this`sentPings, this`history, this`made, made
    {
      Spread() && Shaped() && Homed() && Mapped() && Pinged() && Honest()
    }

    /** Every known node is in its bucket. */
    ghost predicate Listed()
      reads this`buckets, this`allNodes
    {
      ListedIn(allNodes, buckets)
    }

    predicate Live(e: NodeEntry, held: NodeEntry -> bool)
      reads this`allNodes, this`sentPings
    {
      LiveIn(allNodes, sentPings, e, held)
    }

    constructor (host: NodeId, bootNode: bool, distanceOf: NodeId -> nat, allowed: Endpoint -> bool)
      requires forall id :: id != host ==> 1 <= distanceOf(id) <= BINS
      ensures Valid() && Listed() && allNodes == map[] && sentPings == map[] && history == [] && made == {} && open
      ensures forall i :: 0 <= i < BINS ==> buckets[i] == []
      ensures this.host == host && this.bootNode == bootNode && this.distanceOf == distanceOf && this.allowed == allowed
    {
      this.host, this.bootNode, this.distanceOf, this.allowed := host, bootNode, distanceOf, allowed;
      bucketSize := if bootNode then BOOT_NODE_BUCKET_SIZE else NODE_BUCKET_SIZE;
      open, buckets, allNodes, sentPings, history, made := true, seq(BINS, _ => []), map[], map[], [], {};
    }

    ghost method Record(e: Event)
      requires Valid() && (e.PingGone? ==> e.to !in sentPings)
      modifies this`history
      ensures Valid() && (old(Listed()) ==> Listed()) && history == old(history) + [e]
    {
      hide Proven, Answered, Outstanding, Listed;
      forall id, at, pong | Proven(history, id, at, pong) ensures Proven(history + [e], id, at, pong) {
        ProvenStays(history, e, id, at, pong);
      }
      forall u | u in sentPings ensures Outstanding(history + [e], u, sentPings[u].hash) {
        OutstandingStays(history, e, u, sentPings[u].hash);
      }
      history := history + [e];
    }

    /** Sends a ping unless one is awaited from that endpoint already. */
    method Ping(id: NodeId, endpoint: Endpoint, replacement: NodeEntry?, now: nat, hash: nat)
      requires Valid() && (replacement != null ==> replacement in made)
      modifies this`sentPings, this`history
      ensures Valid() && (old(Listed()) ==> Listed())
      ensures if !open || endpoint.udp in old(sentPings) then sentPings == old(sentPings) && history == old(history)
              else && sentPings == old(sentPings)[endpoint.udp := Validation(id, endpoint.tcpPort, now, hash, replacement)]
                   && history == old(history) + [PingSent(endpoint.udp, hash)]
    {
      hide Proven, Answered, Outstanding, Listed, Shaped, Mapped, Homed, Honest;
      if !open || endpoint.udp in sentPings {
        return;
      }
      SentIsOutstanding(history, endpoint.udp, hash);
      Record(PingSent(endpoint.udp, hash));
      sentPings := sentPings[endpoint.udp := Validation(id, endpoint.tcpPort, now, hash, replacement)];
    }

    /** Forgets an awaited ping. */
    method ErasePing(u: Udp)
      requires Valid()
      modifies this`sentPings, this`history
      ensures Valid() && (old(Listed()) ==> Listed()) && sentPings == old(sentPings) - {u}
      ensures history == old(history) + [PingGone(u)]
    {
      hide Proven, Answered, Listed, Outstanding, Shaped, Mapped, Homed, Honest;
      sentPings := sentPings - {u};
      Record(PingGone(u));
    }

    /** Puts a new bucket in the place of an old one. */
    method SetBucket(i: nat, b: seq<NodeEntry>)
      requires Valid() && i < BINS && BucketOk(i, b)
      modifies this`buckets
      ensures Valid() && buckets == old(buckets)[i := b]
    {
      buckets := buckets[i := b];
    }

    /** Adds an entry at the end of its bucket and, if its id is new, to the known nodes. */
    method Insert(e: NodeEntry, b: seq<NodeEntry>)
      requires Valid() && Belongs(e) && e in made
      requires BucketOk(e.distance - 1, b) && |b| < bucketSize && e !in b
      modifies this`buckets, this`allNodes
      ensures Valid() && buckets == old(buckets)[e.distance - 1 := b + [e]]
      ensures allNodes == if e.id in old(allNodes) then old(allNodes) else old(allNodes)[e.id := e]
    {
      SetBucket(e.distance - 1, b + [e]);
      if e.id !in allNodes {
        allNodes := allNodes[e.id := e];
      }
    }

    /** Marks an entry of its bucket as the most recently seen. */
    method Refresh(e: NodeEntry)
      requires Valid() && Belongs(e) && e in buckets[e.distance - 1]
      modifies this`buckets
      ensures Valid() && (old(Listed()) ==> Listed())
      ensures buckets == old(buckets)[e.distance - 1 := Without(old(buckets)[e.distance - 1], e) + [e]]
    {
      hide Proven, Outstanding, Answered, Mapped, Pinged, ListedIn;
      if Listed() {
        GrownBucketLists(allNodes, buckets, e, Without(buckets[e.distance - 1], e) + [e]);
      }
      SetBucket(e.distance - 1, Without(buckets[e.distance - 1], e) + [e]);
    }

    /** Adds an entry to a bucket that has room. */
    method Append(e: NodeEntry)
      requires Valid() && Belongs(e) && e in made
      requires e !in buckets[e.distance - 1] && |buckets[e.distance - 1]| < bucketSize
      modifies this`buckets, this`allNodes
      ensures Valid() && (old(Listed()) ==> Listed())
      ensures buckets == old(buckets)[e.distance - 1 := old(buckets)[e.distance - 1] + [e]]
      ensures allNodes == if e.id in old(allNodes) then old(allNodes) else old(allNodes)[e.id := e]
    {
      hide Proven, Outstanding, Answered, ListedIn;
      if Listed() {
        GrownBucketLists(allNodes, buckets, e, buckets[e.distance - 1] + [e]);
      }
      Insert(e, buckets[e.distance - 1]);
    }

    /** Adds an entry in the place of the oldest one, which goes missing if it is still a known node. */
    method Displace(e: NodeEntry)
      requires Valid() && Belongs(e) && e in made
      requires e !in buckets[e.distance - 1] && |buckets[e.distance - 1]| == bucketSize
      modifies this`buckets, this`allNodes
      ensures Valid()
      ensures old(Listed()) ==> (Listed() <==> old(buckets)[e.distance - 1][0] !in old(allNodes).Values)
      ensures buckets == old(buckets)[e.distance - 1 := old(buckets)[e.distance - 1][1..] + [e]]
      ensures allNodes == if e.id in old(allNodes) then old(allNodes) else old(allNodes)[e.id := e]
    {
      hide Proven, Outstanding, Answered, ListedIn;
      if Listed() {
        DisplacedIsMissing(allNodes, buckets, e);
      }
      DistinctTail(buckets[e.distance - 1]);
      Insert(e, buckets[e.distance - 1][1..]);
    }

    /** Whether an entry passes the checks in front of the bucket update. */
    predicate Admissible(e: NodeEntry, now: nat)
      reads e
    {
      e.id != host && allowed(e.endpoint) && ProofValid(e.lastPongReceived, now)
    }

    /** In boot-node mode an admitted newcomer pushes the oldest entry out of a full bucket, known or not. */
    ghost predicate Displaces(e: NodeEntry, now: nat)
      reads this, e
      requires Spread() && Shaped() && e.distance == distanceOf(e.id)
    {
      && bootNode && Admissible(e, now)
      && var b := buckets[e.distance - 1];
         e !in b && |b| == bucketSize && b[0] in allNodes.Values
    }

    /** Whether a newcomer at that distance gets into its bucket. */
    predicate Room(distance: nat, held: NodeEntry -> bool)
      reads this`buckets, this`allNodes, this`sentPings
      requires 1 <= distance <= |buckets|
    {
      RoomIn(buckets, allNodes, sentPings, distance, held)
    }

    predicate RoomIn(bs: seq<seq<NodeEntry>>, known: map<NodeId, NodeEntry>, pings: map<Udp, Validation>,
                     distance: nat, held: NodeEntry -> bool)
      requires 1 <= distance <= |bs|
    {
      var b := bs[distance - 1];
      |b| < bucketSize || bootNode || (bucketSize > 0 && !LiveIn(known, pings, b[0], held))
    }

    /**
     What activity of an entry makes of buckets, known nodes and pings: nothing else unless it is
     admissible; then its bucket follows, and with it the map or the pings.
     */
    ghost predicate NotedFrom(bs: seq<seq<NodeEntry>>, known: map<NodeId, NodeEntry>, pings: map<Udp, Validation>,
                              e: NodeEntry, held: NodeEntry -> bool, now: nat, hash: nat)
      reads this`buckets, this`allNodes, this`sentPings, this`open, e, EntriesOf(bs)
      requires Spread() && |bs| == BINS && e.distance == distanceOf(e.id)
    {
      if !Admissible(e, now) then buckets == bs && allNodes == known && sentPings == pings
      else
        var b := bs[e.distance - 1];
        var b' := Seen(b, e, bucketSize, RoomIn(bs, known, pings, e.distance, held));
        && buckets == bs[e.distance - 1 := b']
        && allNodes == (if e in b || e !in b' || e.id in known then known else known[e.id := e])
        && sentPings == (if e in b' || !open || b == [] || b[0].endpoint.udp in pings then pings
                         else pings[b[0].endpoint.udp := Validation(b[0].id, b[0].endpoint.tcpPort, now, hash, e)])
    }

    /** The entry is in its bucket, or there is no room left in it. */
    ghost predicate Seated(e: NodeEntry)
      reads this`buckets
    {
      SeatedIn(buckets, bucketSize, e)
    }

    /**
     Called for activity of a node. Known nodes stay listed in their buckets, with one
     exception that can be told beforehand.
     */
    method NoteActiveNode(e: NodeEntry, held: NodeEntry -> bool, now: nat, hash: nat)
      requires Valid() && e in made
      modifies this`buckets, this`allNodes, this`sentPings, this`history
      ensures Valid() && (old(Listed()) ==> (Listed() <==> !old(Displaces(e, now))))
      ensures Extends(old(history), history, iset{hash})
      ensures NotedFrom(old(buckets), old(allNodes), old(sentPings), e, held, now, hash) && (Admissible(e, now) ==> Seated(e))
      ensures forall x :: x in made && old(Seated(x)) ==> Seated(x)
    {
      hide Proven, Outstanding, Answered, SeatedIn, Extends;
      ExtendsItself(history, iset{hash});
      if !Admissible(e, now) {
        return;
      }
      ghost var mayEvict := Room(e.distance, held);
      forall x | x in made
        ensures var b := Seen(buckets[e.distance - 1], e, bucketSize, mayEvict);
                && SeatedIn(buckets[e.distance - 1 := b], bucketSize, e)
                && (Seated(x) ==> SeatedIn(buckets[e.distance - 1 := b], bucketSize, x))
      {
        SeenIsSeated(buckets, bucketSize, e, mayEvict, x);
      }
      var nodes := buckets[e.distance - 1];
      if e in nodes {
        Refresh(e);
      } else if |nodes| < bucketSize {
        Append(e);
      } else {
        Contend(e, held, now, hash);
      }
    }

    /** A newcomer at a full bucket takes the place of the oldest entry, or waits for it to fail to answer. */
    method Contend(e: NodeEntry, held: NodeEntry -> bool, now: nat, hash: nat)
      requires Valid() && e in made && Admissible(e, now)
      requires e !in buckets[e.distance - 1] && |buckets[e.distance - 1]| == bucketSize
      modifies this`buckets, this`allNodes, this`sentPings, this`history
      ensures Valid() && (old(Listed()) ==> (Listed() <==> !old(Displaces(e, now))))
      ensures Extends(old(history), history, iset{hash})
      ensures NotedFrom(old(buckets), old(allNodes), old(sentPings), e, held, now, hash)
    {
      hide Proven, Outstanding, Answered, ListedIn, Extends;
      ExtendsItself(history, iset{hash});
      var nodeToEvict := buckets[e.distance - 1][0];
      if !Live(nodeToEvict, held) || bootNode {
        Displace(e);
      } else {
        assert HasProof(nodeToEvict);
        ExtendsByPing(history, nodeToEvict.endpoint.udp, hash);
        Ping(nodeToEvict.id, nodeToEvict.endpoint, e, now, hash);
      }
    }

    /** Every known node but that one is in its bucket. */
    ghost predicate ListedBut(id: NodeId)
      reads this`buckets, this`allNodes
    {
      ListedIn(allNodes - {id}, buckets)
    }

    /** Takes an entry out of its bucket. */
    method Unlist(e: NodeEntry)
      requires Valid() && e.id in allNodes && allNodes[e.id] == e
      modifies this`buckets
      ensures Valid() && (old(Listed()) ==> ListedBut(e.id))
      ensures buckets == old(buckets)[e.distance - 1 := Without(old(buckets)[e.distance - 1], e)]
    {
      hide Proven, Outstanding, Answered, Pinged, ListedIn;
      if Listed() {
        ShrunkBucketLists(allNodes, buckets, e);
      }
      SetBucket(e.distance - 1, Without(buckets[e.distance - 1], e));
    }

    /** Takes a node off the map. */
    method Forget(id: NodeId)
      requires Valid()
      modifies this`allNodes
      ensures Valid() && (old(ListedBut(id)) ==> Listed()) && allNodes == old(allNodes) - {id}
    {
      hide Proven, Outstanding, Answered;
      allNodes := allNodes - {id};
    }

    /** Removes a known node from its bucket and from the map. */
    method DropNode(e: NodeEntry)
      requires Valid() && e.id in allNodes && allNodes[e.id] == e
      modifies this`buckets, this`allNodes
      ensures Valid() && (old(Listed()) ==> Listed())
      ensures allNodes == old(allNodes) - {e.id}
      ensures buckets == old(buckets)[e.distance - 1 := Without(old(buckets)[e.distance - 1], e)]
    {
      hide Proven, Outstanding, Answered, Pinged, Listed, ListedBut, Without;
      Unlist(e);
      Forget(e.id);
    }

    /** Removes a node if it is known. */
    method DropId(id: NodeId)
      requires Valid()
      modifies this`buckets, this`allNodes
      ensures Valid() && (old(Listed()) ==> Listed()) && allNodes == old(allNodes) - {id}
      ensures buckets == AfterDrop(old(buckets), old(allNodes), id)
    {
      hide Proven, Outstanding, Answered, Listed, Pinged, Without;
      if id in allNodes {
        DropNode(allNodes[id]);
      }
    }

    lemma Identified(id: NodeId)
      requires Valid() && id in allNodes
      ensures allNodes[id].id == id && allNodes[id] in made
    {
    }

    /** What every operation of the table guarantees. */
    twostate predicate Kept()
      reads this, made
    {
      && Valid() && fresh(made - old(made)) && old(made) <= made
      && (old(Valid() && !bootNode && Listed()) ==> Listed())
    }

    /** Whether a node may be added at all. */
    predicate ValidNode(id: NodeId, endpoint: Endpoint) {
      && endpoint.udp.address != 0 && endpoint.udp.port > 0 && endpoint.tcpPort > 0 && id != 0
      && allowed(endpoint) && id != host
    }

    ghost predicate Unseen(e: NodeEntry)
      reads this`buckets
    {
      forall i :: 0 <= i < |buckets| ==> e !in buckets[i]
    }

    /** A new entry; the table remembers having made it. */
    method Make(id: NodeId, endpoint: Endpoint, pong: nat) returns (e: NodeEntry)
      requires Valid() && Proven(history, id, endpoint.udp, pong)
      modifies this`made
      ensures Valid() && (old(Listed()) ==> Listed()) && fresh(e) && made == old(made) + {e}
      ensures e.id == id && e.distance == distanceOf(id) && e.endpoint == endpoint && e.lastPongReceived == pong
      ensures Unseen(e)
    {
      hide Proven, Outstanding, Answered;
      e := new NodeEntry(id, distanceOf(id), endpoint, pong);
      made := made + {e};
    }

    /** Adds a node with a stored endpoint proof, or asks for a ping if the proof has expired. */
    method AddKnownNode(id: NodeId, endpoint: Endpoint, pong: nat, held: NodeEntry -> bool, now: nat, hash: nat)
      returns (valid: bool, ping: bool, ghost e: NodeEntry?)
      requires Valid()
      modifies this`buckets, this`allNodes, this`sentPings, this`history, this`made
      ensures Kept() && valid == ValidNode(id, endpoint)
      ensures Extends(old(history) + [Known(id, endpoint.udp, pong, now)], history, iset{hash})
      ensures ping <==> valid && id !in old(allNodes) && !ProofValid(pong, now)
      ensures !valid || ping || id in old(allNodes) ==>
                buckets == old(buckets) && allNodes == old(allNodes) && sentPings == old(sentPings)
      ensures forall n :: n in allNodes && n !in old(allNodes) ==> n == id && ProofValid(pong, now)
      ensures valid && !ping && id !in old(allNodes) ==>
                && e != null && fresh(e) && e in made && e.id == id && e.distance == distanceOf(id)
                && e.endpoint == endpoint && e.lastPongReceived == pong
                && NotedFrom(old(buckets), old(allNodes), old(sentPings), e, held, now, hash)
                && (id in allNodes <==> old(Room(distanceOf(id), held)))
    {
      hide Proven, Outstanding, Answered, Listed, Live, Extends;
      valid, ping, e := ValidNode(id, endpoint), false, null;
      if ProofValid(pong, now) {
        KnownProves(history, id, endpoint.udp, pong, now);
      }
      Record(Known(id, endpoint.udp, pong, now));
      ExtendsItself(history, iset{hash});
      if !valid || id in allNodes {
        return;
      }
      if !ProofValid(pong, now) {
        ping := true;
        return;
      }
      var entry := Make(id, endpoint, pong);
      e := entry;
      AddEntry(entry, held, now, hash);
    }

    /** Notes an entry of a node that is not known yet. */
    method AddEntry(e: NodeEntry, held: NodeEntry -> bool, now: nat, hash: nat)
      requires Valid() && e in made && Admissible(e, now) && e.id !in allNodes && e !in buckets[e.distance - 1]
      modifies this`buckets, this`allNodes, this`sentPings, this`history
      ensures Kept() && Extends(old(history), history, iset{hash}) && (e.id in allNodes <==> old(Room(e.distance, held)))
      ensures NotedFrom(old(buckets), old(allNodes), old(sentPings), e, held, now, hash)
    {
      hide Proven, Outstanding, Answered, Listed, Seen;
      NoteActiveNode(e, held, now, hash);
    }

    /** Unknown, moved or expired, and not heard from for a while. */
    ghost predicate NeedsPing(id: NodeId, endpoint: Endpoint, now: nat)
      reads this, made
      requires Mapped()
    {
      ValidNode(id, endpoint) && (id in allNodes ==>
        && (allNodes[id].endpoint != endpoint || !ProofValid(allNodes[id].lastPongReceived, now))
        && allNodes[id].lastPongReceived <= now - REQUEST_TTL)
    }

    /** A node that was heard of is pinged unless its endpoint is proven or it has just answered. */
    method AddNode(id: NodeId, endpoint: Endpoint, now: nat) returns (valid: bool, ping: bool)
      requires Valid()
      ensures valid == ValidNode(id, endpoint)
      ensures ping <==> NeedsPing(id, endpoint, now)
    {
      valid, ping := ValidNode(id, endpoint), false;
      if valid {
        ping := id !in allNodes || allNodes[id].endpoint != endpoint
                || !ProofValid(allNodes[id].lastPongReceived, now);
        if ping && id in allNodes && allNodes[id].lastPongReceived > now - REQUEST_TTL {
          ping := false;
        }
      }
    }

    /** A ping that was asked for. */
    method HandlePingDue(id: NodeId, endpoint: Endpoint, now: nat, hash: nat)
      requires Valid()
      modifies this`sentPings, this`history
      ensures Kept()
      ensures if !open || endpoint.udp in old(sentPings) then sentPings == old(sentPings) && history == old(history)
              else && sentPings == old(sentPings)[endpoint.udp := Validation(id, endpoint.tcpPort, now, hash, null)]
                   && history == old(history) + [PingSent(endpoint.udp, hash)]
    {
      hide Proven, Outstanding, Answered, Listed;
      Ping(id, endpoint, null, now, hash);
    }

    /**
     A Pong. Only one that echoes the ping awaited from its endpoint has any effect; it proves
     the endpoint of the node that signed it.
     */
    method HandlePong(from: Udp, echo: nat, source: NodeId, held: NodeEntry -> bool, now: nat, hash: nat)
      returns (ghost e: NodeEntry?)
      requires Valid()
      modifies this`buckets, this`allNodes, this`sentPings, this`history, this`made
      modifies if source in allNodes then {allNodes[source]} else {}
      ensures Kept() && Extends(old(history) + [PongReceived(from, echo, source, now)], history, iset{hash})
      ensures !(from in old(sentPings) && old(sentPings)[from].hash == echo) ==>
                && buckets == old(buckets) && allNodes == old(allNodes) && sentPings == old(sentPings)
                && (source in allNodes ==> && allNodes[source].endpoint == old(allNodes[source].endpoint)
                                           && allNodes[source].lastPongReceived == old(allNodes[source].lastPongReceived))
      ensures from in old(sentPings) && old(sentPings)[from].hash == echo ==>
                var was := old(sentPings)[from].nodeId;
                && e != null && e.id == source && e.distance == distanceOf(source) && e.lastPongReceived == now
                && (if source in old(allNodes) then e == old(allNodes)[source] else fresh(e))
                && e.endpoint == (if source in old(allNodes) && old(allNodes[source].endpoint).udp == from
                                  then old(allNodes[source].endpoint) else Endpoint(from, old(sentPings)[from].tcpPort))
                && NotedFrom(if source == was then old(buckets) else AfterDrop(old(buckets), old(allNodes), was),
                             if source == was then old(allNodes) else old(allNodes) - {was},
                             old(sentPings) - {from}, e, held, now, hash)
    {
      hide Proven, Outstanding, Answered, Listed, AfterDrop, Extends, Spread, Shaped, Homed, Mapped, Pinged, Honest;
      if from !in sentPings || echo != sentPings[from].hash {
        Record(PongReceived(from, echo, source, now));
        ExtendsItself(history, iset{hash});
        return null;
      }
      AwaitedIsOutstanding(from);
      AnswerProves(history, from, echo, source, now);
      Record(PongReceived(from, echo, source, now));
      ghost var told := history;
      var entry := Confirm(from, source, now);
      ghost var confirmed := history;
      e := entry;
      Greet(entry, held, now, hash);
      ExtendsByGone(told, from, iset{hash});
      ExtendsFurther(told, confirmed, history, iset{hash}, iset{hash});
    }

    lemma AwaitedIsOutstanding(u: Udp)
      requires Valid() && u in sentPings
      ensures Outstanding(history, u, sentPings[u].hash)
    {
    }

    /** Notes the entry of a node that answered. */
    method Greet(e: NodeEntry, held: NodeEntry -> bool, now: nat, hash: nat)
      requires Valid() && e in made
      modifies this`buckets, this`allNodes, this`sentPings, this`history
      ensures Kept() && Extends(old(history), history, iset{hash})
      ensures NotedFrom(old(buckets), old(allNodes), old(sentPings), e, held, now, hash)
    {
      hide Proven, Outstanding, Answered, Listed, LiveIn, Seen;
      NoteActiveNode(e, held, now, hash);
    }

    /** An answered ping: a node that changed its key loses its old entry. */
    method Confirm(from: Udp, source: NodeId, now: nat) returns (e: NodeEntry)
      requires Valid() && from in sentPings && Proven(history, source, from, now)
      modifies this`buckets, this`allNodes, this`sentPings, this`history, this`made
      modifies if source in allNodes then {allNodes[source]} else {}
      ensures Kept() && history == old(history) + [PingGone(from)]
      ensures e in made && e.id == source && e.distance == distanceOf(source) && e.lastPongReceived == now
      ensures if source in old(allNodes) then e == old(allNodes)[source] else fresh(e)
      ensures e.endpoint == if source in old(allNodes) && old(allNodes[source].endpoint).udp == from
                            then old(allNodes[source].endpoint) else Endpoint(from, old(sentPings)[from].tcpPort)
      ensures sentPings == old(sentPings) - {from}
      ensures var was := old(sentPings)[from].nodeId;
              if source == was then buckets == old(buckets) && allNodes == old(allNodes)
              else buckets == AfterDrop(old(buckets), old(allNodes), was) && allNodes == old(allNodes) - {was}
    {
      hide Proven, Outstanding, Answered, Listed, Spread, Shaped, Homed, Mapped, Pinged;
      var v := sentPings[from];
      if source != v.nodeId {
        DropId(v.nodeId);
      }
      if source in allNodes {
        Identified(source);
      }
      e := EntryOf(source, Endpoint(from, v.tcpPort), now);
      ErasePing(from);
    }

    /** The entry of a node that answered: a new one, or the known one brought up to date in place. */
    method EntryOf(source: NodeId, endpoint: Endpoint, now: nat) returns (e: NodeEntry)
      requires Valid() && Proven(history, source, endpoint.udp, now)
      modifies this`made, if source in allNodes then {allNodes[source]} else {}
      ensures Valid() && (old(Listed()) ==> Listed())
      ensures e.id == source && e.distance == distanceOf(source) && made == old(made) + {e}
      ensures if source in allNodes then e == allNodes[source] else fresh(e)
      ensures e.lastPongReceived == now && (source !in allNodes ==> Unseen(e))
      ensures e.endpoint == if source in allNodes && old(allNodes[source].endpoint).udp == endpoint.udp
                            then old(allNodes[source].endpoint) else endpoint
    {
      hide Proven, Outstanding, Answered, Listed;
      if source !in allNodes {
        e := Make(source, endpoint, now);
      } else {
        e := allNodes[source];
        e.lastPongReceived := now;
        if e.endpoint.udp != endpoint.udp {
          e.endpoint := endpoint;
        }
      }
    }

    /** Any other packet of a known node from its endpoint marks it active. */
    method HandleActivity(source: NodeId, from: Udp, held: NodeEntry -> bool, now: nat, hash: nat)
      requires Valid()
      modifies this`buckets, this`allNodes, this`sentPings, this`history
      ensures Kept() && Extends(old(history), history, iset{hash}) && allNodes == old(allNodes)
      ensures if source in old(allNodes) && old(allNodes)[source].endpoint.udp == from
              then NotedFrom(old(buckets), old(allNodes), old(sentPings), old(allNodes)[source], held, now, hash)
              else buckets == old(buckets) && sentPings == old(sentPings)
    {
      hide Proven, Outstanding, Answered, Listed, Extends;
      ExtendsItself(history, iset{hash});
      if source in allNodes && allNodes[source].endpoint.udp == from {
        NoteActiveNode(allNodes[source], held, now, hash);
      }
    }

    /** A ping: a node of another network or protocol is dropped; otherwise a known one is active. */
    method HandlePing(source: NodeId, endpoint: Endpoint, compatible: bool,
                      held: NodeEntry -> bool, now: nat, hash: nat) returns (ping: bool)
      requires Valid()
      modifies this`buckets, this`allNodes, this`sentPings, this`history
      ensures Kept() && Extends(old(history), history, iset{hash})
      ensures allNodes == if compatible then old(allNodes) else old(allNodes) - {source}
      ensures ping <==> compatible && old(NeedsPing(source, endpoint, now))
      ensures if compatible && ValidNode(source, endpoint) && source in old(allNodes)
              then NotedFrom(old(buckets), old(allNodes), old(sentPings), old(allNodes)[source], held, now, hash)
              else && buckets == (if compatible then old(buckets) else AfterDrop(old(buckets), old(allNodes), source))
                   && sentPings == old(sentPings)
    {
      hide Proven, Outstanding, Answered, Listed, Extends;
      ExtendsItself(history, iset{hash});
      if !compatible {
        DropId(source);
        return false;
      }
      var valid;
      valid, ping := AddNode(source, endpoint, now);
      if valid && source in allNodes {
        NoteActiveNode(allNodes[source], held, now, hash);
      }
    }

    /** Makes the proof of a known node look expired, so that it is pinged again. */
    method InvalidateNode(id: NodeId, now: nat)
      requires Valid()
      modifies this`history, if id in allNodes then {allNodes[id]} else {}
      ensures Kept() && history == old(history) + [Invalidated(id, now)]
      ensures id in allNodes ==> allNodes[id].endpoint == old(allNodes[id].endpoint) && allNodes[id].lastPongReceived == LongAgo(now)
      ensures id in allNodes && now < TWO_TO_THE_32 ==> !ProofValid(allNodes[id].lastPongReceived, now)
    {
      hide Proven, Outstanding, Answered, Listed;
      if id in allNodes {
        InvalidatedStaysProven(history, id, allNodes[id].endpoint.udp, allNodes[id].lastPongReceived, now);
      }
      Record(Invalidated(id, now));
      if id in allNodes {
        allNodes[id].lastPongReceived := LongAgo(now);
      }
    }

    predicate Expired(v: Validation, now: nat) {
      now > v.sentAt + REQUEST_TTL
    }

    /** Whether an unanswered ping to u costs the node its place. */
    predicate Drops(u: Udp, v: Validation, e: NodeEntry, now: nat)
      reads e
    {
      v.nodeId == e.id && Expired(v, now) && e.lastPongReceived < now - REQUEST_TTL && e.endpoint.udp == u
    }

    /** Gives up on one ping; the result is the entry that waited for its outcome. */
    method HandleTimeout(u: Udp, now: nat) returns (r: NodeEntry?)
      requires Valid() && u in sentPings && Expired(sentPings[u], now)
      modifies this`buckets, this`allNodes, this`sentPings, this`history
      ensures Kept() && sentPings == old(sentPings) - {u} && history == old(history) + [PingGone(u)]
      ensures forall n :: n in allNodes <==> n in old(allNodes) && !Drops(u, old(sentPings)[u], old(allNodes)[n], now)
      ensures forall n :: n in allNodes ==> allNodes[n] == old(allNodes)[n]
      ensures var n := old(sentPings)[u].nodeId;
              buckets == if n in old(allNodes) && Drops(u, old(sentPings)[u], old(allNodes)[n], now)
                         then AfterDrop(old(buckets), old(allNodes), n) else old(buckets)
      ensures r == if old(sentPings)[u].nodeId in old(allNodes) then old(sentPings)[u].replacement else null
      ensures r != null ==> r in made
    {
      hide Proven, Outstanding, Answered, Listed;
      var v := sentPings[u];
      r := null;
      if v.nodeId in allNodes {
        var node := allNodes[v.nodeId];
        if node.lastPongReceived < now - REQUEST_TTL && u == node.endpoint.udp {
          DropNode(node);
        }
        r := v.replacement;
      }
      ErasePing(u);
    }

    /**
     The loop over all awaited pings, in any order; the result are the entries to activate, which
     depend on that order.
     */
    method SweepTimeouts(now: nat) returns (activate: seq<NodeEntry>, ghost order: seq<Udp>)
      requires Valid()
      modifies this`buckets, this`allNodes, this`sentPings, this`history
      ensures Kept() && made == old(made) && Extends(old(history), history, iset{})
      ensures Visits(old(sentPings), order, {})
      ensures sentPings == map u | u in old(sentPings) && !Expired(old(sentPings)[u], now) :: old(sentPings)[u]
      ensures forall n :: n in allNodes <==> n in old(allNodes) && !GivenUp(old(sentPings), {}, old(allNodes)[n], now)
      ensures Purged(old(buckets), buckets, Gone(old(sentPings), old(allNodes), {}, now))
      ensures activate == Activated(old(sentPings), old(allNodes), order, now)
      ensures forall e :: e in activate ==> e in made && Waited(old(sentPings), e, now)
    {
      hide Proven, Outstanding, Answered, Listed, Spread, Shaped, Mapped, Pinged, Homed, Expired, Swept;
      hide GivenUp, Visits, Activated, LetIn, Extends, Honest, Gone, Purged, HousedIn;
      activate, order := [], [];
      ExtendsItself(history, iset{});
      var todo := sentPings.Keys;
      SweptStart(sentPings, allNodes, now);
      AtHome();
      PurgedStart(buckets);
      NobodyGone(sentPings, allNodes, now);
      ActivatedStart(sentPings, allNodes, now);
      while todo != {}
        invariant Kept() && made == old(made) && Extends(old(history), history, iset{}) && todo <= old(sentPings).Keys
        invariant Visits(old(sentPings), order, todo)
        invariant Swept(old(sentPings), old(allNodes), sentPings, allNodes, todo, now)
        invariant Purged(old(buckets), buckets, Gone(old(sentPings), old(allNodes), todo, now))
        invariant activate == Activated(old(sentPings), old(allNodes), order, now)
        invariant forall e :: e in activate ==> e in made && Waited(old(sentPings), e, now)
        decreases |todo|
      {
        var u :| u in todo;
        LetInNext(old(sentPings), old(allNodes), sentPings, allNodes, order, todo, u, now);
        ActivatedNext(old(sentPings), old(allNodes), order, todo, u, now);
        ghost var before := history;
        var r := SweepOne(u, now, old(sentPings), old(allNodes), old(buckets), todo);
        ExtendsFurther(old(history), before, history, iset{}, iset{});
        if r != null {
          activate := activate + [r];
        }
        todo, order := todo - {u}, order + [u];
      }
      SweptEnd(old(sentPings), old(allNodes), sentPings, allNodes, now);
    }

    /** One round of that loop; the result is the entry that is let in, if any. */
    method SweepOne(u: Udp, now: nat, ghost pings: map<Udp, Validation>, ghost known: map<NodeId, NodeEntry>,
                    ghost bs: seq<seq<NodeEntry>>, ghost todo: set<Udp>) returns (r: NodeEntry?)
      requires Valid() && u in todo && u in pings && Swept(pings, known, sentPings, allNodes, todo, now)
      requires HousedIn(bs) && Purged(bs, buckets, Gone(pings, known, todo, now))
      modifies this`buckets, this`allNodes, this`sentPings, this`history
      ensures Kept() && made == old(made) && Extends(old(history), history, iset{})
      ensures Swept(pings, known, sentPings, allNodes, todo - {u}, now)
      ensures Purged(bs, buckets, Gone(pings, known, todo - {u}, now))
      ensures r == if Expired(pings[u], now) && pings[u].nodeId in old(allNodes) then pings[u].replacement else null
      ensures r != null ==> r in made
    {
      hide Proven, Outstanding, Answered, Listed, Spread, Shaped, Mapped, Pinged, Homed, Honest, Swept;
      hide GivenUp, Extends, Gone, Purged, AfterDrop;
      AtHome();
      SweptNext(pings, known, sentPings, allNodes, todo, u, now);
      GoneNext(pings, known, sentPings, allNodes, todo, u, now);
      ExtendsItself(history, iset{});
      r := null;
      if Expired(sentPings[u], now) {
        DropPurges(bs, buckets, Gone(pings, known, todo, now), allNodes, sentPings[u].nodeId);
        SweptDrops(pings, known, sentPings, allNodes, todo, u, now);
        ExtendsByGone(history, u, iset{});
        r := HandleTimeout(u, now);
      }
    }

    /** The nodes that unanswered pings, outside of those still to be looked at, have cost their places. */
    ghost function Gone(pings: map<Udp, Validation>, known: map<NodeId, NodeEntry>, todo: set<Udp>, now: nat): set<NodeEntry>
      reads known.Values
    {
      set n | n in known && GivenUp(pings, todo, known[n], now) :: known[n]
    }

    /** Every bucket is as it was, in the same order, but for those entries. */
    ghost predicate Purged(bs: seq<seq<NodeEntry>>, bs': seq<seq<NodeEntry>>, gone: set<NodeEntry>) {
      |bs| == |bs'| == BINS && forall i :: 0 <= i < BINS ==> bs'[i] == Minus(bs[i], gone)
    }

    lemma NobodyGone(pings: map<Udp, Validation>, known: map<NodeId, NodeEntry>, now: nat)
      ensures Gone(pings, known, pings.Keys, now) == {}
    {
    }

    lemma AtHome()
      requires Valid()
      ensures HousedIn(buckets)
      ensures forall n :: n in allNodes ==> allNodes[n].id == n && 1 <= allNodes[n].distance <= BINS
    {
    }

    ghost predicate HousedIn(bs: seq<seq<NodeEntry>>) {
      |bs| == BINS && forall i :: 0 <= i < BINS ==> forall e :: e in bs[i] ==> e.distance == i + 1
    }

    lemma PurgedStart(bs: seq<seq<NodeEntry>>)
      requires HousedIn(bs)
      ensures Purged(bs, bs, {})
    {
      forall i | 0 <= i < BINS ensures Minus(bs[i], {}) == bs[i] {
        MinusNothing(bs[i], {});
      }
    }

    /** The next ping costs at most one node its place, and only an expired one does. */
    lemma GoneNext(pings: map<Udp, Validation>, known: map<NodeId, NodeEntry>,
                   pings': map<Udp, Validation>, known': map<NodeId, NodeEntry>, todo: set<Udp>, u: Udp, now: nat)
      requires Swept(pings, known, pings', known', todo, now) && u in todo && u in pings
      requires forall n :: n in known' ==> known'[n].id == n
      ensures var n := pings[u].nodeId;
              if n in known' && Drops(u, pings[u], known'[n], now)
              then Gone(pings, known, todo - {u}, now) == Gone(pings, known, todo, now) + {known'[n]}
              else Gone(pings, known, todo - {u}, now) == Gone(pings, known, todo, now)
    {
      hide Expired;
      var n := pings[u].nodeId;
      var more := if n in known' && Drops(u, pings[u], known'[n], now) then {known'[n]} else {};
      forall m | m in known ensures GivenUp(pings, todo - {u}, known[m], now) <==> GivenUp(pings, todo, known[m], now) || known[m] in more {
      }
    }

    /** Dropping a node takes it out of its bucket and out of no other. */
    lemma DropPurges(bs: seq<seq<NodeEntry>>, bs': seq<seq<NodeEntry>>, gone: set<NodeEntry>, known: map<NodeId, NodeEntry>, n: NodeId)
      requires Purged(bs, bs', gone) && HousedIn(bs)
      requires n in known ==> 1 <= known[n].distance <= BINS
      ensures n in known ==> Purged(bs, AfterDrop(bs', known, n), gone + {known[n]})
    {
      hide Without, Minus;
      if n in known {
        var e := known[n];
        forall i | 0 <= i < BINS ensures AfterDrop(bs', known, n)[i] == Minus(bs[i], gone + {e}) {
          if i == e.distance - 1 {
            MinusFurther(bs[i], gone, e);
          } else {
            SameMinus(bs[i], gone, e);
          }
        }
      }
    }

    lemma {:induction false} SameMinus(b: seq<NodeEntry>, gone: set<NodeEntry>, e: NodeEntry)
      requires e !in b
      ensures Minus(b, gone + {e}) == Minus(b, gone)
    {
      if b != [] {
        SameMinus(b[1..], gone, e);
      }
    }

    /** The pings that are still to be looked at. */
    ghost function Left(pings: map<Udp, Validation>, order: seq<Udp>): set<Udp> {
      set u | u in pings && u !in order
    }

    /** The pings in that order, each once, but for those still to be looked at. */
    ghost predicate Visits(pings: map<Udp, Validation>, order: seq<Udp>, todo: set<Udp>)
      ensures Visits(pings, order, todo) ==> forall u :: u in order ==> u in pings
    {
      Distinct(order) && todo == Left(pings, order) && forall u :: u in order ==> u in pings
    }

    /** Whether the entry behind an expired ping is let in: the node pinged is known and no ping before has cost it its place. */
    ghost predicate LetIn(pings: map<Udp, Validation>, known: map<NodeId, NodeEntry>, before: seq<Udp>, u: Udp, now: nat)
      requires u in pings
      reads known.Values
    {
      var v := pings[u];
      && Expired(v, now) && v.replacement != null && v.nodeId in known
      && !GivenUp(pings, Left(pings, before), known[v.nodeId], now)
    }

    /** The entries that are let in, in the order in which the pings are looked at. */
    ghost function Activated(pings: map<Udp, Validation>, known: map<NodeId, NodeEntry>, order: seq<Udp>, now: nat): seq<NodeEntry>
      requires forall u :: u in order ==> u in pings
      reads known.Values
    {
      if order == [] then []
      else
        var before, u := order[..|order| - 1], order[|order| - 1];
        Activated(pings, known, before, now) + if LetIn(pings, known, before, u, now) then [pings[u].replacement] else []
    }

    lemma VisitsAll(pings: map<Udp, Validation>, order: seq<Udp>, u: Udp)
      requires Visits(pings, order, {}) && u in pings
      ensures Distinct(order) && u in order
    {
      assert u in Left(pings, order) <==> u !in order;
    }

    lemma ActivatedStart(pings: map<Udp, Validation>, known: map<NodeId, NodeEntry>, now: nat)
      ensures Visits(pings, [], pings.Keys) && Activated(pings, known, [], now) == []
    {
    }

    lemma ActivatedNext(pings: map<Udp, Validation>, known: map<NodeId, NodeEntry>, order: seq<Udp>, todo: set<Udp>, u: Udp, now: nat)
      requires Visits(pings, order, todo) && u in todo && u in pings
      ensures Visits(pings, order + [u], todo - {u})
      ensures Activated(pings, known, order + [u], now)
              == Activated(pings, known, order, now) + if LetIn(pings, known, order, u, now) then [pings[u].replacement] else []
    {
      hide LetIn;
      assert (order + [u])[..|order|] == order;
    }

    /** In the loop the node pinged is still known exactly if no ping before has cost it its place. */
    lemma LetInNext(pings: map<Udp, Validation>, known: map<NodeId, NodeEntry>, pings': map<Udp, Validation>,
                    known': map<NodeId, NodeEntry>, order: seq<Udp>, todo: set<Udp>, u: Udp, now: nat)
      requires Visits(pings, order, todo) && Swept(pings, known, pings', known', todo, now) && u in pings
      ensures LetIn(pings, known, order, u, now)
              <==> Expired(pings[u], now) && pings[u].replacement != null && pings[u].nodeId in known'
    {
      hide Expired, GivenUp;
    }

    /** Whatever the order, an entry is let in if no other ping can cost its node the place. */
    lemma {:induction false} SavedIsActivated(pings: map<Udp, Validation>, known: map<NodeId, NodeEntry>, order: seq<Udp>, u: Udp, now: nat)
      requires (forall x :: x in order ==> x in pings) && Distinct(order) && u in order
      requires u in pings && Saved(pings, known, u, now)
      ensures pings[u].replacement in Activated(pings, known, order, now)
    {
      var before, last := order[..|order| - 1], order[|order| - 1];
      if u == last {
        assert u !in before;
      } else {
        SavedIsActivated(pings, known, before, u, now);
      }
    }

    /** How far the loop has come: pings and nodes are those of the start less what timed out. */
    ghost predicate Swept(pings: map<Udp, Validation>, known: map<NodeId, NodeEntry>,
                          pings': map<Udp, Validation>, known': map<NodeId, NodeEntry>, todo: set<Udp>, now: nat)
      reads known.Values
    {
      && pings' == (map u | u in pings && (u in todo || !Expired(pings[u], now)) :: pings[u])
      && (forall n :: n in known' ==> n in known && known'[n] == known[n])
      && (forall n :: n in known ==> (n in known' <==> !GivenUp(pings, todo, known[n], now)))
    }

    lemma SweptStart(pings: map<Udp, Validation>, known: map<NodeId, NodeEntry>, now: nat)
      ensures Swept(pings, known, pings, known, pings.Keys, now)
    {
    }

    lemma SweptEnd(pings: map<Udp, Validation>, known: map<NodeId, NodeEntry>,
                   pings': map<Udp, Validation>, known': map<NodeId, NodeEntry>, now: nat)
      requires Swept(pings, known, pings', known', {}, now)
      ensures pings' == map u | u in pings && !Expired(pings[u], now) :: pings[u]
      ensures forall n :: n in known' <==> n in known && !GivenUp(pings, {}, known[n], now)
    {
      hide Expired, GivenUp;
    }

    /** The next ping is still there; unless it has expired, nothing is to be done. */
    lemma SweptNext(pings: map<Udp, Validation>, known: map<NodeId, NodeEntry>,
                    pings': map<Udp, Validation>, known': map<NodeId, NodeEntry>, todo: set<Udp>, u: Udp, now: nat)
      requires Swept(pings, known, pings', known', todo, now) && u in todo && u in pings
      ensures u in pings' && pings'[u] == pings[u]
      ensures !Expired(pings[u], now) ==> Swept(pings, known, pings', known', todo - {u}, now)
    {
    }

    /** What giving up on an expired ping leads to. */
    lemma SweptDrops(pings: map<Udp, Validation>, known: map<NodeId, NodeEntry>,
                     pings': map<Udp, Validation>, known': map<NodeId, NodeEntry>, todo: set<Udp>, u: Udp, now: nat)
      requires Swept(pings, known, pings', known', todo, now) && u in todo && u in pings && Expired(pings[u], now)
      ensures forall after: map<NodeId, NodeEntry> ::
                (forall n :: n in after <==> n in known' && !Drops(u, pings[u], known'[n], now))
                && (forall n :: n in after ==> after[n] == known'[n])
                ==> Swept(pings, known, pings' - {u}, after, todo - {u}, now)
    {
    }

    /** Some unanswered ping, outside of those still to be looked at, costs the node its place. */
    ghost predicate GivenUp(pings: map<Udp, Validation>, todo: set<Udp>, e: NodeEntry, now: nat)
      reads e
    {
      exists u :: u in pings && u !in todo && Drops(u, pings[u], e, now)
    }

    /** The ping has timed out with an entry waiting and a node that no other ping costs its place. */
    ghost predicate Saved(pings: map<Udp, Validation>, known: map<NodeId, NodeEntry>, u: Udp, now: nat)
      requires u in pings
      reads known.Values
    {
      var v := pings[u];
      && Expired(v, now) && v.replacement != null && v.nodeId in known
      && !GivenUp(pings, {u}, known[v.nodeId], now)
    }

    /** The entry waited for the outcome of a ping that has timed out. */
    ghost predicate Waited(pings: map<Udp, Validation>, e: NodeEntry, now: nat) {
      exists u :: u in pings && Expired(pings[u], now) && pings[u].replacement == e
    }

    /** Gives up on pings that were not answered in time and lets the waiting entries in. */
    method HandleTimeouts(held: NodeEntry -> bool, now: nat, hashes: nat -> nat)
      requires Valid()
      modifies this`buckets, this`allNodes, this`sentPings, this`history
      ensures Kept() && Extends(old(history), history, Drawn(hashes))
      ensures forall n :: n in allNodes && n !in old(allNodes) ==>
                exists e :: e in old(made) && e.id == n && Waited(old(sentPings), e, now)
      ensures forall n :: n in old(allNodes) && !GivenUp(old(sentPings), {}, old(allNodes)[n], now) ==> n in allNodes
      ensures forall u :: u in old(sentPings) && !Expired(old(sentPings)[u], now) ==>
                u in sentPings && sentPings[u] == old(sentPings)[u]
      ensures forall u :: u in old(sentPings) && old(Saved(sentPings, allNodes, u, now)) ==>
                Admissible(old(sentPings)[u].replacement, now) ==> Seated(old(sentPings)[u].replacement)
    {
      hide Proven, Outstanding, Answered, Listed, Spread, Shaped, Homed, Mapped, Pinged, Honest, Saved, GivenUp, Seated, Extends;
      var activate, order := SweepTimeouts(now);
      forall u | u in old(sentPings) && old(Saved(sentPings, allNodes, u, now)) ensures old(sentPings)[u].replacement in activate {
        VisitsAll(old(sentPings), order, u);
        SavedIsActivated(old(sentPings), old(allNodes), order, u, now);
      }
      ghost var swept := history;
      Activate(activate, (e: NodeEntry) => held(e) || e in activate, now, hashes);
      ExtendsMore(old(history), swept, iset{}, Drawn(hashes));
      ExtendsFurther(old(history), swept, history, Drawn(hashes), Drawn(hashes));
    }

    /** Lets the waiting entries in. */
    method Activate(activate: seq<NodeEntry>, held: NodeEntry -> bool, now: nat, hashes: nat -> nat)
      requires Valid() && forall e :: e in activate ==> e in made
      modifies this`buckets, this`allNodes, this`sentPings, this`history
      ensures Kept() && made == old(made) && Extends(old(history), history, Drawn(hashes))
      ensures forall n :: n in allNodes && n !in old(allNodes) ==> exists e :: e in activate && e.id == n
      ensures forall n :: n in old(allNodes) ==> n in allNodes
      ensures forall u :: u in old(sentPings) ==> u in sentPings && sentPings[u] == old(sentPings)[u]
      ensures forall e :: e in activate && Admissible(e, now) ==> Seated(e)
    {
      hide Proven, Outstanding, Answered, Listed, Spread, Shaped, Homed, Mapped, Pinged, Honest, Seated, Live, Seen, Extends;
      ExtendsItself(history, Drawn(hashes));
      for i := 0 to |activate|
        invariant Kept() && made == old(made) && Extends(old(history), history, Drawn(hashes))
        invariant forall n :: n in allNodes && n !in old(allNodes) ==> exists e :: e in activate && e.id == n
        invariant forall n :: n in old(allNodes) ==> n in allNodes
        invariant forall u :: u in old(sentPings) ==> u in sentPings && sentPings[u] == old(sentPings)[u]
        invariant forall k :: 0 <= k < i && Admissible(activate[k], now) ==> Seated(activate[k])
      {
        ghost var before := history;
        NoteActiveNode(activate[i], held, now, hashes(i));
        ExtendsFurther(old(history), before, history, iset{hashes(i)}, Drawn(hashes));
      }
    }

    /** One thing that happens to the table. */
    method Handle(input: Input)
      requires Valid()
      modifies this`buckets, this`allNodes, this`sentPings, this`history, this`made, made
      ensures Kept() && old(history) <= history && Segment(history, |old(history)|, |history|, input)
    {
      hide Proven, Outstanding, Answered, Listed, Spread, Shaped, Homed, Mapped, Pinged, Honest, Extends, Segment;
      match input {
        case AddKnown(id, endpoint, pong, held, now, hash) =>
          var _, _, _ := AddKnownNode(id, endpoint, pong, held, now, hash);
        case PingDue(id, endpoint, now, hash) =>
          HandlePingDue(id, endpoint, now, hash);
          PingDueSegment(old(history), history, input);
        case PongIn(from, echo, source, held, now, hash) =>
          if source in allNodes {
            Identified(source);
          }
          var _ := HandlePong(from, echo, source, held, now, hash);
        case PingIn(source, endpoint, compatible, held, now, hash) =>
          var _ := HandlePing(source, endpoint, compatible, held, now, hash);
          assert old(history) + [] == old(history);
        case Activity(source, from, held, now, hash) =>
          HandleActivity(source, from, held, now, hash);
          assert old(history) + [] == old(history);
        case Invalidate(id, now) =>
          if id in allNodes {
            Identified(id);
          }
          InvalidateNode(id, now);
          ExtendsItself(history, iset{});
        case Timeouts(held, now, hashes) =>
          HandleTimeouts(held, now, hashes);
          assert old(history) + [] == old(history);
      }
      if !input.PingDue? {
        SegmentOf(old(history), history, input);
      }
    }

    /** A whole run. */
    method Run(inputs: seq<Input>)
      requires Valid()
      modifies this`buckets, this`allNodes, this`sentPings, this`history, this`made, made
      ensures Kept() && Accounted(history, |old(history)|, inputs)
    {
      hide Proven, Outstanding, Answered, Listed, Spread, Shaped, Homed, Mapped, Pinged, Honest, Segment, Accounted;
      AccountedNothing(history);
      for i := 0 to |inputs|
        invariant Kept() && Accounted(history, |old(history)|, inputs[..i])
      {
        assert inputs[..i] + [inputs[i]] == inputs[..i + 1];
        ghost var before := history;
        Handle(inputs[i]);
        AccountedFurther(before, history, |old(history)|, inputs[..i], inputs[i]);
      }
      assert inputs[..|inputs|] == inputs;
    }

    /** A table that lists every known node has room for no more than its buckets hold. */
    lemma CountIsBounded()
      requires Valid() && Listed()
      ensures |allNodes| <= BINS * bucketSize
    {
      hide Proven, Outstanding, Answered, Distinct, Pinged, Honest, AllIds;
      forall id | id in allNodes ensures id in AllIds(buckets) {
        var e := allNodes[id];
        InAllIds(buckets, e.distance - 1, e);
      }
      assert allNodes.Keys <= AllIds(buckets);
      SubsetSize(allNodes.Keys, AllIds(buckets));
      AllIdsSize(buckets, bucketSize);
    }
  }

  /** What can happen to a table; held tells who else owns entries at that moment. */
  datatype Input =
    | AddKnown(id: NodeId, endpoint: Endpoint, pong: nat, held: NodeEntry -> bool, now: nat, hash: nat)
    | PingDue(id: NodeId, endpoint: Endpoint, now: nat, hash: nat)
    | PongIn(from: Udp, echo: nat, source: NodeId, held: NodeEntry -> bool, now: nat, hash: nat)
    | PingIn(source: NodeId, endpoint: Endpoint, compatible: bool, held: NodeEntry -> bool, now: nat, hash: nat)
    | Activity(source: NodeId, from: Udp, held: NodeEntry -> bool, now: nat, hash: nat)
    | Invalidate(id: NodeId, now: nat)
    | Timeouts(held: NodeEntry -> bool, now: nat, hashes: nat -> nat)

  /** The outside event an input is on record as. */
  function Told(input: Input): seq<Event> {
    match input
    case AddKnown(id, endpoint, pong, _, now, _) => [Known(id, endpoint.udp, pong, now)]
    case PongIn(from, echo, source, _, now, _) => [PongReceived(from, echo, source, now)]
    case Invalidate(id, now) => [Invalidated(id, now)]
    case _ => []
  }

  ghost function Drawn(hashes: nat -> nat): (r: iset<nat>)
    ensures forall i: nat :: hashes(i) in r
  {
    iset i: nat :: hashes(i)
  }

  /** The hashes of the pings that an input may lead to besides one that was asked for. */
  ghost function Hashes(input: Input): iset<nat> {
    match input
    case Timeouts(_, _, hashes) => Drawn(hashes)
    case Invalidate(_, _) => iset{}
    case PingDue(_, _, _, _) => iset{}
    case AddKnown(_, _, _, _, _, hash) => iset{hash}
    case PongIn(_, _, _, _, _, hash) => iset{hash}
    case PingIn(_, _, _, _, _, hash) => iset{hash}
    case Activity(_, _, _, _, hash) => iset{hash}
  }

  /** What an input leads to on record: the ping that was asked for, or what the table does of its own accord. */
  ghost predicate Permitted(history: seq<Event>, k: nat, input: Input)
    requires k < |history|
  {
    if input.PingDue? then history[k] == PingSent(input.endpoint.udp, input.hash)
    else OwnEvent(history, k, Hashes(input))
  }

  /** That part of the record is what the input is on record as, followed by what it led to. */
  ghost predicate Segment(history: seq<Event>, a: nat, b: nat, input: Input) {
    var n := a + |Told(input)|;
    && n <= b <= |history| && history[a..n] == Told(input)
    && forall k :: n <= k < b ==> Permitted(history, k, input)
  }

  lemma SegmentOf(before: seq<Event>, after: seq<Event>, input: Input)
    requires !input.PingDue? && Extends(before + Told(input), after, Hashes(input))
    ensures before <= after && Segment(after, |before|, |after|, input)
  {
    hide Hashes, Told;
    assert after[|before|..|before| + |Told(input)|] == Told(input);
  }

  lemma PingDueSegment(before: seq<Event>, after: seq<Event>, input: Input)
    requires input.PingDue? && (after == before || after == before + [PingSent(input.endpoint.udp, input.hash)])
    ensures before <= after && Segment(after, |before|, |after|, input)
  {
  }

  lemma SegmentStays(before: seq<Event>, after: seq<Event>, a: nat, b: nat, input: Input)
    requires before <= after && Segment(before, a, b, input)
    ensures Segment(after, a, b, input)
  {
    hide Hashes, Told;
    var n := a + |Told(input)|;
    assert after[a..n] == before[a..n];
    forall k | n <= k < b ensures Permitted(after, k, input) {
      assert Permitted(before, k, input) && after[k] == before[k] && after[..k] == before[..k];
    }
  }

  /** The record from the first cut on is made of the parts of the inputs, one after the other. */
  ghost predicate Cut(history: seq<Event>, cuts: seq<nat>, inputs: seq<Input>)
    ensures Cut(history, cuts, inputs) ==> |cuts| == |inputs| + 1
  {
    && |cuts| == |inputs| + 1 && cuts[|inputs|] == |history|
    && forall i :: 0 <= i < |inputs| ==> Segment(history, cuts[i], cuts[i + 1], inputs[i])
  }

  ghost predicate Accounted(history: seq<Event>, start: nat, inputs: seq<Input>) {
    exists cuts: seq<nat> :: Cut(history, cuts, inputs) && cuts[0] == start
  }

  lemma AccountedNothing(history: seq<Event>)
    ensures Accounted(history, |history|, [])
  {
    assert Cut(history, [|history|], []);
  }

  lemma AccountedFurther(before: seq<Event>, after: seq<Event>, start: nat, inputs: seq<Input>, input: Input)
    requires Accounted(before, start, inputs) && before <= after && Segment(after, |before|, |after|, input)
    ensures Accounted(after, start, inputs + [input])
  {
    hide Segment;
    var cuts: seq<nat> :| Cut(before, cuts, inputs) && cuts[0] == start;
    var cuts': seq<nat>, inputs' := cuts + [|after|], inputs + [input];
    forall i | 0 <= i < |inputs'| ensures Segment(after, cuts'[i], cuts'[i + 1], inputs'[i]) {
      if i < |inputs| {
        SegmentStays(before, after, cuts[i], cuts[i + 1], inputs[i]);
      }
    }
    assert Cut(after, cuts', inputs') && cuts'[0] == start;
  }

  /** The ids in a bucket. */
  ghost function Ids(b: seq<NodeEntry>): set<NodeId> {
    set i | 0 <= i < |b| :: b[i].id
  }

  ghost function AllIds(buckets: seq<seq<NodeEntry>>): set<NodeId> {
    if buckets == [] then {} else Ids(buckets[0]) + AllIds(buckets[1..])
  }

  lemma {:induction false} IdsSize(b: seq<NodeEntry>)
    ensures |Ids(b)| <= |b|
  {
    if b != [] {
      var last := |b| - 1;
      IdsSize(b[..last]);
      assert Ids(b) == Ids(b[..last]) + {b[last].id};
    }
  }

  lemma {:induction false} AllIdsSize(buckets: seq<seq<NodeEntry>>, k: nat)
    requires forall i :: 0 <= i < |buckets| ==> |buckets[i]| <= k
    ensures |AllIds(buckets)| <= |buckets| * k
  {
    if buckets != [] {
      hide Ids;
      IdsSize(buckets[0]);
      AllIdsSize(buckets[1..], k);
      NextMultiple(|buckets[1..]|, |buckets|, k);
    }
  }

  lemma {:induction false} InAllIds(buckets: seq<seq<NodeEntry>>, i: nat, e: NodeEntry)
    requires i < |buckets| && e in buckets[i]
    ensures e.id in AllIds(buckets)
  {
    if i > 0 {
      InAllIds(buckets[1..], i - 1, e);
    }
  }
}
