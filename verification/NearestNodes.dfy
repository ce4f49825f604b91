/**
 The answer to a FindNode packet in libp2p/NodeTable.cpp: the sixteen live entries nearest to
 the target, kept in an ordered multiset that is cut back after every insertion, and their
 distribution over Neighbours datagrams.
 */
module NearestNodes {
  import opened Bytes
  import opened RlpFormat
  import opened FrameHeader
  import opened RlpReader
  import opened Wrappers
  import NodeTable

  const MAX_DATAGRAM: nat := 1280
  const NEIGHBOUR_LIMIT: nat := (MAX_DATAGRAM - 109) / 90

  /** Puts an element behind all that are not farther away, as an ordered multiset does. */
  function Place<T>(s: seq<T>, e: T, dist: T -> nat): (r: seq<T>)
    ensures |r| == |s| + 1
  {
    if s == [] then [e]
    else if dist(s[|s| - 1]) <= dist(e) then s + [e]
    else Place(s[..|s| - 1], e, dist) + [s[|s| - 1]]
  }

  /** All elements by distance, equally distant ones in their order of arrival. */
  function Sorted<T>(s: seq<T>, dist: T -> nat): (r: seq<T>)
    ensures |r| == |s|
  {
    if s == [] then [] else Place(Sorted(s[..|s| - 1], dist), s[|s| - 1], dist)
  }

  function First<T>(s: seq<T>, k: nat): (r: seq<T>)
  {
    if |s| <= k then s else s[..k]
  }

  ghost predicate Ascending<T>(s: seq<T>, dist: T -> nat) {
    forall i, j :: 0 <= i < j < |s| ==> dist(s[i]) <= dist(s[j])
  }

  lemma {:induction false} PlaceKeeps<T>(s: seq<T>, e: T, dist: T -> nat)
    ensures multiset(Place(s, e, dist)) == multiset(s) + multiset{e}
  {
    if s != [] && dist(s[|s| - 1]) > dist(e) {
      var front := s[..|s| - 1];
      PlaceKeeps(front, e, dist);
      assert s == front + [s[|s| - 1]];
    }
  }

  lemma {:induction false} PlaceAscends<T>(s: seq<T>, e: T, dist: T -> nat)
    requires Ascending(s, dist)
    ensures Ascending(Place(s, e, dist), dist)
    ensures forall x :: x in Place(s, e, dist) ==> x == e || x in s
  {
    if s != [] && dist(s[|s| - 1]) > dist(e) {
      var front := s[..|s| - 1];
      PlaceAscends(front, e, dist);
      forall x | x in front ensures dist(x) <= dist(s[|s| - 1]) {
      }
    }
  }

  /** The reference order is ascending and a permutation. */
  lemma {:induction false} SortedOrders<T>(s: seq<T>, dist: T -> nat)
    ensures Ascending(Sorted(s, dist), dist)
    ensures multiset(Sorted(s, dist)) == multiset(s)
  {
    if s != [] {
      hide Place, Ascending;
      var front, e := s[..|s| - 1], s[|s| - 1];
      SortedOrders(front, dist);
      PlaceAscends(Sorted(front, dist), e, dist);
      PlaceKeeps(Sorted(front, dist), e, dist);
      assert s == front + [e];
      assert multiset(s) == multiset(front) + multiset{e};
    }
  }

  /** The elements at one distance, in order. */
  function At<T>(s: seq<T>, dist: T -> nat, d: nat): seq<T> {
    if s == [] then []
    else At(s[..|s| - 1], dist, d) + if dist(s[|s| - 1]) == d then [s[|s| - 1]] else []
  }

  lemma {:induction false} PlaceIsStable<T>(s: seq<T>, e: T, dist: T -> nat, d: nat)
    ensures At(Place(s, e, dist), dist, d) == At(s, dist, d) + if dist(e) == d then [e] else []
  {
    if s == [] {
    } else if dist(s[|s| - 1]) <= dist(e) {
      assert (s + [e])[..|s|] == s;
    } else {
      var front, last := s[..|s| - 1], s[|s| - 1];
      PlaceIsStable(front, e, dist, d);
      assert (Place(front, e, dist) + [last])[..|s|] == Place(front, e, dist);
    }
  }

  /** Equally distant elements keep their order of arrival. */
  lemma {:induction false} SortedIsStable<T>(s: seq<T>, dist: T -> nat, d: nat)
    ensures At(Sorted(s, dist), dist, d) == At(s, dist, d)
  {
    if s != [] {
      SortedIsStable(s[..|s| - 1], dist, d);
      PlaceIsStable(Sorted(s[..|s| - 1], dist), s[|s| - 1], dist, d);
    }
  }

  /** What was cut off before an insertion cannot come back through it. */
  lemma {:induction false} CutCommutes<T>(s: seq<T>, e: T, dist: T -> nat, k: nat)
    requires Ascending(s, dist)
    ensures First(Place(First(s, k), e, dist), k) == First(Place(s, e, dist), k)
  {
    if |s| > k {
      var front, last := s[..|s| - 1], s[|s| - 1];
      CutCommutes(front, e, dist, k);
      assert First(front, k) == First(s, k);
      if dist(last) <= dist(e) {
        FarGoesLast(front, e, last, dist);
      }
    }
  }

  lemma FarGoesLast<T>(s: seq<T>, e: T, last: T, dist: T -> nat)
    requires Ascending(s + [last], dist) && dist(last) <= dist(e)
    ensures Place(s, e, dist) == s + [e]
  {
    if s != [] {
      var t, i := s + [last], |s| - 1;
      assert dist(t[i]) <= dist(t[|s|]);
    }
  }

  /** The live entries in table order. */
  function Live<T>(bucket: seq<T>, live: T -> bool): seq<T> {
    if bucket == [] then []
    else Live(bucket[..|bucket| - 1], live) + if live(bucket[|bucket| - 1]) then [bucket[|bucket| - 1]] else []
  }

  function AllLive<T>(buckets: seq<seq<T>>, live: T -> bool): seq<T> {
    if buckets == [] then [] else AllLive(buckets[..|buckets| - 1], live) + Live(buckets[|buckets| - 1], live)
  }

  lemma {:induction false} LiveAre<T>(bucket: seq<T>, live: T -> bool, e: T)
    ensures multiset(Live(bucket, live))[e] == if live(e) then multiset(bucket)[e] else 0
  {
    if bucket != [] {
      var front, last := bucket[..|bucket| - 1], bucket[|bucket| - 1];
      LiveAre(front, live, e);
      assert bucket == front + [last];
    }
  }

  /** The entries of all buckets. */
  function Joined<T>(buckets: seq<seq<T>>): seq<T> {
    if buckets == [] then [] else Joined(buckets[..|buckets| - 1]) + buckets[|buckets| - 1]
  }

  /** All live entries of the table and nothing else, each as often as it is in a bucket. */
  lemma {:induction false} AllLiveAre<T>(buckets: seq<seq<T>>, live: T -> bool, e: T)
    ensures multiset(AllLive(buckets, live))[e] == if live(e) then multiset(Joined(buckets))[e] else 0
  {
    if buckets != [] {
      AllLiveAre(buckets[..|buckets| - 1], live, e);
      LiveAre(buckets[|buckets| - 1], live, e);
    }
  }

  /** What was kept of the entries seen so far. */
  ghost predicate Kept<T>(r: seq<T>, seen: seq<T>, dist: T -> nat) {
    r == First(Sorted(seen, dist), NodeTable.NODE_BUCKET_SIZE)
  }

  /** One emplace into the ordered multiset, cut back to its sixteen nearest elements. */
  method Offer<T>(kept: seq<T>, e: T, dist: T -> nat, ghost seen: seq<T>) returns (r: seq<T>)
    requires Kept(kept, seen, dist)
    ensures Kept(r, seen + [e], dist)
  {
    hide Sorted, Place;
    r := Place(kept, e, dist);
    if |r| > NodeTable.NODE_BUCKET_SIZE {
      r := r[..|r| - 1];
    }
    SortedOrders(seen, dist);
    CutCommutes(Sorted(seen, dist), e, dist, NodeTable.NODE_BUCKET_SIZE);
    SortedPush(seen, e, dist);
  }

  lemma SortedPush<T>(s: seq<T>, e: T, dist: T -> nat)
    ensures Sorted(s + [e], dist) == Place(Sorted(s, dist), e, dist)
  {
    hide Place;
    assert (s + [e])[..|s|] == s;
  }

  lemma LivePush<T>(bucket: seq<T>, live: T -> bool, j: nat)
    requires j < |bucket|
    ensures Live(bucket[..j + 1], live) == Live(bucket[..j], live) + if live(bucket[j]) then [bucket[j]] else []
  {
    assert bucket[..j + 1][..j] == bucket[..j];
  }

  /** The walk through one bucket. */
  method OfferBucket<T>(kept: seq<T>, bucket: seq<T>, live: T -> bool, dist: T -> nat, ghost seen: seq<T>) returns (r: seq<T>)
    requires Kept(kept, seen, dist)
    ensures Kept(r, seen + Live(bucket, live), dist)
  {
    hide Kept, Live;
    r := kept;
    ghost var now := seen;
    assert now == seen + Live(bucket[..0], live) by {
      LiveNothing(bucket[..0], live);
    }
    for j := 0 to |bucket|
      invariant now == seen + Live(bucket[..j], live) && Kept(r, now, dist)
    {
      LivePush(bucket, live, j);
      if live(bucket[j]) {
        r := Offer(r, bucket[j], dist, now);
        now := now + [bucket[j]];
      }
    }
    assert bucket[..|bucket|] == bucket;
  }

  lemma LiveNothing<T>(bucket: seq<T>, live: T -> bool)
    requires bucket == []
    ensures Live(bucket, live) == []
  {
  }

  /** The entries nearest to a target. */
  method NearestNodeEntries<T>(buckets: seq<seq<T>>, live: T -> bool, dist: T -> nat) returns (r: seq<T>)
    ensures r == First(Sorted(AllLive(buckets, live), dist), NodeTable.NODE_BUCKET_SIZE)
  {
    hide Live;
    r := [];
    ghost var seen: seq<T> := [];
    assert Kept(r, seen, dist);
    for i := 0 to |buckets|
      invariant seen == AllLive(buckets[..i], live) && Kept(r, seen, dist)
    {
      assert buckets[..i + 1][..i] == buckets[..i];
      r := OfferBucket(r, buckets[i], live, dist, seen);
      seen := seen + Live(buckets[i], live);
    }
    assert buckets[..|buckets|] == buckets;
  }

  /**
   The sixteen first in the reference order are min(16, live) live entries in ascending order,
   and whatever live entry they leave out is not nearer than any of them.
   */
  lemma NearestMeans<T>(all: seq<T>, dist: T -> nat, r: seq<T>) returns (rest: seq<T>)
    requires r == First(Sorted(all, dist), NodeTable.NODE_BUCKET_SIZE)
    ensures Ascending(r, dist)
    ensures |r| == if |all| < NodeTable.NODE_BUCKET_SIZE then |all| else NodeTable.NODE_BUCKET_SIZE
    ensures multiset(r) + multiset(rest) == multiset(all)
    ensures forall i, j :: 0 <= i < |r| && 0 <= j < |rest| ==> dist(r[i]) <= dist(rest[j])
  {
    hide Sorted;
    var s := Sorted(all, dist);
    SortedOrders(all, dist);
    rest := s[|r|..];
    assert s == r + rest;
    AscendingSplits(r, rest, dist);
  }

  lemma AscendingSplits<T>(r: seq<T>, rest: seq<T>, dist: T -> nat)
    requires Ascending(r + rest, dist)
    ensures Ascending(r, dist)
    ensures forall i, j :: 0 <= i < |r| && 0 <= j < |rest| ==> dist(r[i]) <= dist(rest[j])
  {
    var s := r + rest;
    forall i, j | 0 <= i < j < |r| ensures dist(r[i]) <= dist(r[j]) {
      assert r[i] == s[i] && r[j] == s[j];
    }
    forall i, j | 0 <= i < |r| && 0 <= j < |rest| ensures dist(r[i]) <= dist(rest[j]) {
      assert r[i] == s[i] && rest[j] == s[|r| + j];
    }
  }

  ghost function Flatten<T>(chunks: seq<seq<T>>): seq<T> {
    if chunks == [] then [] else Flatten(chunks[..|chunks| - 1]) + chunks[|chunks| - 1]
  }

  /** The entries of one Neighbours packet. */
  method Chunk<T>(nearest: seq<T>, offset: nat, limit: nat) returns (neighbours: seq<T>)
    requires offset < |nearest| && limit > 0
    ensures 0 < |neighbours| <= limit && (offset + limit <= |nearest| ==> |neighbours| == limit)
    ensures First(nearest, offset) + neighbours == First(nearest, offset + limit)
  {
    var end := if |nearest| < offset + limit then |nearest| else offset + limit;
    neighbours := [];
    for i := offset to end
      invariant neighbours == nearest[offset..i]
    {
      neighbours := neighbours + [nearest[i]];
    }
    assert First(nearest, offset) + neighbours == nearest[..end];
  }

  /**
   The Neighbours packets for a list of entries: together they carry the list, each but the
   last is full and none is empty.
   */
  method Chunks<T>(nearest: seq<T>, limit: nat) returns (out: seq<seq<T>>)
    requires limit > 0
    ensures Flatten(out) == nearest
    ensures forall i :: 0 <= i < |out| ==> 0 < |out[i]| <= limit
    ensures forall i :: 0 <= i < |out| - 1 ==> |out[i]| == limit
  {
    hide Flatten, First, Cut;
    out := [];
    var offset := 0;
    CutNothing(nearest, limit);
    while offset < |nearest|
      invariant Cut(nearest, limit, offset, out)
    {
      var neighbours := Chunk(nearest, offset, limit);
      CutFurther(nearest, limit, offset, out, neighbours);
      out := out + [neighbours];
      offset := offset + limit;
    }
    CutWhole(nearest, limit, offset, out);
  }

  /** The packets for the first entries: all full as long as entries are left. */
  ghost predicate Cut<T>(nearest: seq<T>, limit: nat, offset: nat, out: seq<seq<T>>) {
    && Flatten(out) == First(nearest, offset)
    && (forall i :: 0 <= i < |out| ==> 0 < |out[i]| <= limit)
    && (forall i :: 0 <= i < |out| && (i < |out| - 1 || offset <= |nearest|) ==> |out[i]| == limit)
  }

  lemma CutNothing<T>(nearest: seq<T>, limit: nat)
    ensures Cut(nearest, limit, 0, [])
  {
  }

  lemma CutFurther<T>(nearest: seq<T>, limit: nat, offset: nat, out: seq<seq<T>>, chunk: seq<T>)
    requires Cut(nearest, limit, offset, out) && offset < |nearest|
    requires 0 < |chunk| <= limit && (offset + limit <= |nearest| ==> |chunk| == limit)
    requires First(nearest, offset) + chunk == First(nearest, offset + limit)
    ensures Cut(nearest, limit, offset + limit, out + [chunk])
  {
    hide First;
    assert (out + [chunk])[..|out|] == out;
  }

  lemma CutWhole<T>(nearest: seq<T>, limit: nat, offset: nat, out: seq<seq<T>>)
    requires Cut(nearest, limit, offset, out) && offset >= |nearest|
    ensures Flatten(out) == nearest && (forall i :: 0 <= i < |out| ==> 0 < |out[i]| <= limit)
    ensures forall i :: 0 <= i < |out| - 1 ==> |out[i]| == limit
  {
    hide Flatten;
    assert nearest[..|nearest|] == nearest;
  }

  /** The answer to a FindNode packet: the nearest entries, in packets of at most thirteen. */
  method HandleFindNode<T>(buckets: seq<seq<T>>, live: T -> bool, dist: T -> nat) returns (out: seq<seq<T>>)
    ensures Flatten(out) == First(Sorted(AllLive(buckets, live), dist), NodeTable.NODE_BUCKET_SIZE)
    ensures forall i :: 0 <= i < |out| ==> 0 < |out[i]| <= NEIGHBOUR_LIMIT
  {
    var nearest := NearestNodeEntries(buckets, live, dist);
    out := Chunks(nearest, NEIGHBOUR_LIMIT);
  }

  /** What a packet says of an entry: an IPv4 or IPv6 address, two ports and the public key. */
  datatype Neighbour = Neighbour(address: seq<byte>, udpPort: nat, tcpPort: nat, id: seq<byte>)

  predicate Valid(n: Neighbour) {
    && (|n.address| == 4 || |n.address| == 16) && |n.id| == 64
    && n.udpPort < 0x1_0000 && n.tcpPort < 0x1_0000
  }

  function ItemOf(n: Neighbour): Item {
    List([Data(n.address), Number(n.udpPort), Number(n.tcpPort), Data(n.id)])
  }

  /** A receiver reads address, UDP port, TCP port and key, in that order. */
  lemma NeighbourOnWire(n: Neighbour)
    requires Valid(n)
    ensures PayloadSize(ItemOf(n)) < READ_LIMIT
    ensures Decode(Encode(ItemOf(n))) == Ok(List([Data(n.address), Data(Compact(n.udpPort)), Data(Compact(n.tcpPort)), Data(n.id)]))
  {
    hide Decode, Encode, Compact;
    NeighbourSize(n);
    DecodeEncode(ItemOf(n));
  }

  function Items(ns: seq<Neighbour>): (r: seq<Item>)
    ensures |r| == |ns|
  {
    if ns == [] then [] else [ItemOf(ns[0])] + Items(ns[1..])
  }

  /** Hash, signature, packet type and the encoded list. */
  function DatagramSize(ns: seq<Neighbour>, expiration: nat): nat {
    32 + 65 + 1 + Size(List([List(Items(ns)), Number(expiration)]))
  }

  lemma SizeOfTwo(a: Item, b: Item)
    ensures SizeAll([a, b]) == Size(a) + Size(b)
  {
    hide Size;
    var s := [a, b];
    assert s[0] == a && s[1..] == [b];
    assert SizeAll([b]) == Size(b) + SizeAll([b][1..]);
  }

  lemma SizeOfFour(a: Item, b: Item, c: Item, d: Item)
    ensures SizeAll([a, b, c, d]) == Size(a) + Size(b) + Size(c) + Size(d)
  {
    assert [a, b, c, d][1..] == [b, c, d];
    assert [b, c, d][1..] == [c, d];
    SizeOfTwo(c, d);
  }

  lemma HeaderSizes(len: nat)
    ensures IMMEDIATE <= len < 256 ==> HeaderSize(len) == 2
    ensures len < 0x1_0000 ==> HeaderSize(len) <= 3
    ensures 256 <= len < 0x1_0000 ==> HeaderSize(len) == 3
  {
    BytesRequiredBound(len, 1);
    BytesRequiredBound(len, 2);
  }

  function Longest(n: Neighbour): nat {
    if |n.address| == 16 then 91 else 79
  }

  /** The bytes by which an entry is shorter, for ports below 256 or 128. */
  function Short(n: Neighbour): (r: nat)
    requires Valid(n)
  {
    NumberSize(n.udpPort, 2);
    NumberSize(n.tcpPort, 2);
    6 - Size(Number(n.udpPort)) - Size(Number(n.tcpPort))
  }

  lemma NeighbourSize(n: Neighbour)
    requires Valid(n)
    ensures Size(ItemOf(n)) == Longest(n) - Short(n) && Short(n) <= 4
  {
    hide SizeAll, HeaderSize;
    SizeOfFour(Data(n.address), Number(n.udpPort), Number(n.tcpPort), Data(n.id));
    NumberSize(n.udpPort, 2);
    NumberSize(n.tcpPort, 2);
    AddressSize(n.address);
    HeaderSizes(64);
    HeaderSizes(SizeAll([Data(n.address), Number(n.udpPort), Number(n.tcpPort), Data(n.id)]));
  }

  lemma AddressSize(a: seq<byte>)
    requires |a| == 4 || |a| == 16
    ensures Size(Data(a)) == |a| + 1
  {
  }

  /** How many of the addresses are IPv6. */
  function V6(ns: seq<Neighbour>): (r: nat)
    ensures r <= |ns|
  {
    if ns == [] then 0 else V6(ns[1..]) + if |ns[0].address| == 16 then 1 else 0
  }

  predicate AllValid(ns: seq<Neighbour>) {
    forall n :: n in ns ==> Valid(n)
  }

  function AllShort(ns: seq<Neighbour>): (r: nat)
    requires AllValid(ns)
  {
    if ns == [] then 0 else Short(ns[0]) + AllShort(ns[1..])
  }

  lemma {:induction false} NeighboursSize(ns: seq<Neighbour>)
    requires AllValid(ns)
    ensures SizeAll(Items(ns)) == 79 * |ns| + 12 * V6(ns) - AllShort(ns)
    ensures AllShort(ns) <= 4 * |ns|
  {
    hide Size, ItemOf, Short;
    if ns != [] {
      NeighbourSize(ns[0]);
      NeighboursSize(ns[1..]);
      assert Items(ns)[1..] == Items(ns[1..]);
    }
  }

  lemma PayloadSizes(ns: seq<Neighbour>, expiration: nat, n: nat)
    requires SizeAll(Items(ns)) == n <= 2000 && expiration < Pow256(4)
    ensures DatagramSize(ns, expiration) <= n + 104 + Size(Number(expiration)) <= n + 109
    ensures n >= 256 ==> DatagramSize(ns, expiration) == n + 104 + Size(Number(expiration))
  {
    hide SizeAll, HeaderSize, Items;
    var list, e := List(Items(ns)), Number(expiration);
    SizeOfTwo(list, e);
    NumberSize(expiration, 4);
    HeaderSizes(n);
    HeaderSizes(SizeAll([list, e]));
  }

  /** The only packets that do not fit a datagram: thirteen IPv6 neighbours, hardly any of them on a low port. */
  predicate TooLong(ns: seq<Neighbour>, expiration: nat)
    requires AllValid(ns)
  {
    |ns| == NEIGHBOUR_LIMIT && V6(ns) == |ns| && AllShort(ns) + 5 - Size(Number(expiration)) < 12
  }

  /** A packet of at most thirteen neighbours fits unless it is of that kind; IPv4 alone stays far below the limit. */
  lemma DatagramFits(ns: seq<Neighbour>, expiration: nat)
    requires AllValid(ns) && |ns| <= NEIGHBOUR_LIMIT && expiration < Pow256(4)
    ensures DatagramSize(ns, expiration) <= MAX_DATAGRAM <==> !TooLong(ns, expiration)
    ensures V6(ns) == 0 ==> DatagramSize(ns, expiration) <= 1136
  {
    hide DatagramSize, SizeAll, Items, V6, AllShort, Size, AllValid;
    NeighboursSize(ns);
    PayloadSizes(ns, expiration, SizeAll(Items(ns)));
  }

  lemma {:induction false} NothingSaved(ns: seq<Neighbour>)
    requires AllValid(ns) && forall n :: n in ns ==> n.udpPort >= 256 && n.tcpPort >= 256
    ensures AllShort(ns) == 0
  {
    if ns != [] {
      NumberSize(ns[0].udpPort, 2);
      NumberSize(ns[0].tcpPort, 2);
      NothingSaved(ns[1..]);
    }
  }

  /** The exception is the ordinary IPv6 case: ports of two bytes, today's expiration times. */
  lemma ThirteenV6AreTooLong(ns: seq<Neighbour>, expiration: nat)
    requires AllValid(ns) && |ns| == V6(ns) == NEIGHBOUR_LIMIT && Pow256(3) <= expiration < Pow256(4)
    requires forall n :: n in ns ==> n.udpPort >= 256 && n.tcpPort >= 256
    ensures DatagramSize(ns, expiration) == 1292
  {
    hide DatagramSize, SizeAll, Items, V6, AllShort, Size, AllValid;
    NothingSaved(ns);
    NumberSize(expiration, 4);
    NeighboursSize(ns);
    PayloadSizes(ns, expiration, SizeAll(Items(ns)));
  }
}
