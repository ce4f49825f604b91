/**
 What is on record about a discovery table: nodes it was told of, pings that went out, Pongs that
 came in. An endpoint proof is a stored one or a Pong that answers an outstanding ping.
 */
module EndpointProofs {
  import opened Bytes

  type NodeId = nat

  datatype Udp = Udp(address: nat, port: nat)
  datatype Endpoint = Endpoint(udp: Udp, tcpPort: nat)

  const BONDING_SECONDS: nat := 12 * 60 * 60

  /** Whether a Pong received at time pong still proves the endpoint now, in 32-bit seconds. */
  predicate ProofValid(pong: nat, now: nat) {
    now < (pong + BONDING_SECONDS) % TWO_TO_THE_32
  }

  /** A proof lasts twelve hours, unless the 32-bit clock ends before. */
  lemma ProofLasts(pong: nat, now: nat)
    requires pong < TWO_TO_THE_32
    ensures pong + 43200 < TWO_TO_THE_32 ==> (ProofValid(pong, now) <==> now < pong + 43200)
    ensures pong + 43200 >= TWO_TO_THE_32 ==> (ProofValid(pong, now) <==> now < pong + 43200 - TWO_TO_THE_32)
  {
  }

  /** What the table is told and what it does, in order. */
  datatype Event =
    | Known(id: NodeId, at: Udp, pong: nat, now: nat)
    | PingSent(to: Udp, hash: nat)
    | PongReceived(from: Udp, echo: nat, source: NodeId, now: nat)
    | PingGone(to: Udp)
    | Invalidated(id: NodeId, now: nat)

  /** The events that come from outside: stored nodes, Pongs and orders to ping a node again. */
  predicate Outside(e: Event) {
    e.Known? || e.PongReceived? || e.Invalidated?
  }

  ghost function External(history: seq<Event>): seq<Event> {
    if history == [] then []
    else
      var e := history[|history| - 1];
      External(history[..|history| - 1]) + if Outside(e) then [e] else []
  }

  lemma ExternalGrows(history: seq<Event>, e: Event)
    ensures External(history + [e]) == External(history) + if Outside(e) then [e] else []
  {
    assert (history + [e])[..|history|] == history;
  }

  /** A ping with that hash went to that endpoint and is neither answered nor timed out. */
  ghost predicate Outstanding(history: seq<Event>, to: Udp, hash: nat) {
    exists i :: 0 <= i < |history| && history[i] == PingSent(to, hash) && PingGone(to) !in history[i..]
  }

  /** A Pong from that node echoed a ping that was outstanding at the endpoint it came from. */
  ghost predicate Answered(history: seq<Event>, j: nat)
    requires j < |history|
  {
    history[j].PongReceived? && Outstanding(history[..j], history[j].from, history[j].echo)
  }

  /** Event j is an endpoint proof of that node at that endpoint, as of that time. */
  ghost predicate Proof(history: seq<Event>, j: nat, id: NodeId, at: Udp, pong: nat)
    requires j < |history|
  {
    match history[j]
    case Known(id', at', pong', now) => id' == id && at' == at && pong' == pong && ProofValid(pong, now)
    case PongReceived(from, _, source, now) => source == id && from == at && now == pong && Answered(history, j)
    case _ => false
  }

  /** The time that stands for an expired proof. */
  function LongAgo(now: nat): nat {
    (now - BONDING_SECONDS) % TWO_TO_THE_32
  }

  /**
   The endpoint proof of a node at an endpoint: a stored one that was still valid, or an answered
   ping. Its time is that of the proof unless the node was invalidated later.
   */
  ghost predicate Proven(history: seq<Event>, id: NodeId, at: Udp, pong: nat) {
    exists j, p ::
      && 0 <= j < |history| && Proof(history, j, id, at, p)
      && (p == pong || exists now :: Invalidated(id, now) in history && pong == LongAgo(now))
  }

  lemma ProofStays(history: seq<Event>, e: Event, j: nat, id: NodeId, at: Udp, pong: nat)
    requires j < |history| && Proof(history, j, id, at, pong)
    ensures Proof(history + [e], j, id, at, pong)
  {
    assert (history + [e])[j] == history[j] && (history + [e])[..j] == history[..j];
  }

  lemma ProvenStays(history: seq<Event>, e: Event, id: NodeId, at: Udp, pong: nat)
    requires Proven(history, id, at, pong)
    ensures Proven(history + [e], id, at, pong)
  {
    var j, p :| && 0 <= j < |history| && Proof(history, j, id, at, p)
                && (p == pong || exists now :: Invalidated(id, now) in history && pong == LongAgo(now));
    ProofStays(history, e, j, id, at, p);
  }

  lemma OutstandingStays(history: seq<Event>, e: Event, to: Udp, hash: nat)
    requires Outstanding(history, to, hash) && e != PingGone(to)
    ensures Outstanding(history + [e], to, hash)
  {
    var i :| 0 <= i < |history| && history[i] == PingSent(to, hash) && PingGone(to) !in history[i..];
    assert (history + [e])[i] == history[i] && (history + [e])[i..] == history[i..] + [e];
  }

  lemma AnswerProves(history: seq<Event>, from: Udp, echo: nat, id: NodeId, now: nat)
    requires Outstanding(history, from, echo)
    ensures Proven(history + [PongReceived(from, echo, id, now)], id, from, now)
  {
    var h := history + [PongReceived(from, echo, id, now)];
    assert h[..|history|] == history;
    assert Proof(h, |history|, id, from, now);
  }

  lemma KnownProves(history: seq<Event>, id: NodeId, at: Udp, pong: nat, now: nat)
    requires ProofValid(pong, now)
    ensures Proven(history + [Known(id, at, pong, now)], id, at, pong)
  {
    assert Proof(history + [Known(id, at, pong, now)], |history|, id, at, pong);
  }

  /** A node that is invalidated keeps its endpoint and gets another time. */
  lemma InvalidatedStaysProven(history: seq<Event>, id: NodeId, at: Udp, pong: nat, now: nat)
    requires Proven(history, id, at, pong)
    ensures Proven(history + [Invalidated(id, now)], id, at, LongAgo(now))
  {
    var e := Invalidated(id, now);
    var j, p :| && 0 <= j < |history| && Proof(history, j, id, at, p)
                && (p == pong || exists now :: Invalidated(id, now) in history && pong == LongAgo(now));
    ProofStays(history, e, j, id, at, p);
    assert e in history + [e];
  }

  lemma SentIsOutstanding(history: seq<Event>, to: Udp, hash: nat)
    ensures Outstanding(history + [PingSent(to, hash)], to, hash)
  {
    var h := history + [PingSent(to, hash)];
    assert h[|history|] == PingSent(to, hash) && h[|history|..] == [PingSent(to, hash)];
  }

  /** Some node was proven at that endpoint. */
  ghost predicate Visited(history: seq<Event>, at: Udp) {
    exists id, pong :: Proven(history, id, at, pong)
  }

  /** What the table does of its own accord: it forgets pings, and pings endpoints where a node was proven. */
  ghost predicate OwnEvent(history: seq<Event>, k: nat, hashes: iset<nat>)
    requires k < |history|
  {
    match history[k]
    case PingSent(to, hash) => hash in hashes && Visited(history[..k], to)
    case PingGone(_) => true
    case _ => false
  }

  /** Nothing but that was added to the record, with pings of those hashes. */
  ghost predicate Extends(before: seq<Event>, after: seq<Event>, hashes: iset<nat>) {
    before <= after && forall k :: |before| <= k < |after| ==> OwnEvent(after, k, hashes)
  }

  lemma ExtendsItself(history: seq<Event>, hashes: iset<nat>)
    ensures Extends(history, history, hashes)
  {
  }

  lemma ExtendsByGone(history: seq<Event>, to: Udp, hashes: iset<nat>)
    ensures Extends(history, history + [PingGone(to)], hashes)
  {
  }

  lemma ExtendsMore(before: seq<Event>, after: seq<Event>, some: iset<nat>, hashes: iset<nat>)
    requires Extends(before, after, some) && some <= hashes
    ensures Extends(before, after, hashes)
  {
    forall k | |before| <= k < |after| ensures OwnEvent(after, k, hashes) {
      assert OwnEvent(after, k, some);
    }
  }

  lemma ExtendsByPing(history: seq<Event>, to: Udp, hash: nat)
    requires Visited(history, to)
    ensures Extends(history, history + [PingSent(to, hash)], iset{hash})
  {
    assert (history + [PingSent(to, hash)])[..|history|] == history;
  }

  lemma ExtendsFurther(before: seq<Event>, between: seq<Event>, after: seq<Event>, some: iset<nat>, hashes: iset<nat>)
    requires Extends(before, between, hashes) && Extends(between, after, some) && some <= hashes
    ensures Extends(before, after, hashes)
  {
    forall k | |before| <= k < |after| ensures OwnEvent(after, k, hashes) {
      if k < |between| {
        assert OwnEvent(between, k, hashes) && after[k] == between[k] && after[..k] == between[..k];
      } else {
        assert OwnEvent(after, k, some);
      }
    }
  }
}
