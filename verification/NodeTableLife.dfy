/**
 The life of a discovery table, told by its inputs alone: where the proofs of its nodes come from
 and how many nodes it can hold.
 */
module NodeTableLife {
  import opened EndpointProofs
  import opened NodeTable

  function AllTold(inputs: seq<Input>): seq<Event> {
    if inputs == [] then [] else AllTold(inputs[..|inputs| - 1]) + Told(inputs[|inputs| - 1])
  }

  /** The node was proven at that endpoint by those inputs; a later invalidation only changes the time. */
  ghost predicate ProvenBy(inputs: seq<Input>, id: NodeId, at: Udp, pong: nat)
    decreases |inputs|, 3
  {
    exists j, p ::
      && 0 <= j < |inputs| && ProofBy(inputs, j, id, at, p)
      && (p == pong || exists now :: Invalidate(id, now) in inputs && pong == LongAgo(now))
  }

  /** Input j is a stored proof that was valid, or a Pong from there that echoes a ping sent there before. */
  ghost predicate ProofBy(inputs: seq<Input>, j: nat, id: NodeId, at: Udp, pong: nat)
    requires j < |inputs|
    decreases |inputs|, 2
  {
    match inputs[j]
    case AddKnown(id', endpoint, pong', _, now, _) => id' == id && endpoint.udp == at && pong' == pong && ProofValid(pong, now)
    case PongIn(from, echo, source, _, now, _) =>
      source == id && from == at && now == pong && exists i :: 0 <= i < j && PingedBy(inputs, i, at, echo)
    case _ => false
  }

  /** Input i had a ping of that hash sent there: it asked for it, or some node was proven there by then. */
  ghost predicate PingedBy(inputs: seq<Input>, i: nat, at: Udp, hash: nat)
    requires i + 1 < |inputs|
    decreases |inputs|, 1
  {
    if inputs[i].PingDue? then inputs[i].endpoint.udp == at && inputs[i].hash == hash
    else hash in Hashes(inputs[i]) && VisitedBy(inputs[..i + 1], at)
  }

  ghost predicate VisitedBy(inputs: seq<Input>, at: Udp)
    decreases |inputs|, 4
  {
    exists id, pong :: ProvenBy(inputs, id, at, pong)
  }

  /** The input whose part of the record holds event m. */
  lemma Located(history: seq<Event>, cuts: seq<nat>, inputs: seq<Input>, m: nat) returns (i: nat)
    requires Cut(history, cuts, inputs) && cuts[0] <= m < |history|
    ensures i < |inputs| && cuts[i] <= m < cuts[i + 1] && Segment(history, cuts[i], cuts[i + 1], inputs[i])
  {
    hide Segment;
    i := 0;
    while cuts[i + 1] <= m
      invariant i < |inputs| && cuts[i] <= m
      decreases |inputs| - i
    {
      i := i + 1;
    }
  }

  lemma {:induction false} CutsRise(history: seq<Event>, cuts: seq<nat>, inputs: seq<Input>, i: nat, j: nat)
    requires Cut(history, cuts, inputs) && i <= j <= |inputs|
    ensures cuts[i] <= cuts[j]
  {
    if i < j {
      CutsRise(history, cuts, inputs, i, j - 1);
      assert Segment(history, cuts[j - 1], cuts[j], inputs[j - 1]);
    }
  }

  lemma SegmentFront(history: seq<Event>, a: nat, b: nat, k: nat, input: Input)
    requires Segment(history, a, b, input) && a + |Told(input)| <= k <= b
    ensures Segment(history[..k], a, k, input)
  {
    hide Hashes, Told;
    var n := a + |Told(input)|;
    assert history[..k][a..n] == history[a..n];
    forall m | n <= m < k ensures Permitted(history[..k], m, input) {
      assert Permitted(history, m, input) && history[..k][m] == history[m] && history[..k][..m] == history[..m];
    }
  }

  /** The record up to some point is accounted for by the inputs up to the one that led to it. */
  lemma Truncated(history: seq<Event>, cuts: seq<nat>, inputs: seq<Input>, i: nat, k: nat)
    requires Cut(history, cuts, inputs) && i < |inputs| && cuts[i] + |Told(inputs[i])| <= k <= cuts[i + 1]
    ensures k <= |history| && Cut(history[..k], cuts[..i + 1] + [k], inputs[..i + 1])
  {
    hide Segment, Told;
    CutsRise(history, cuts, inputs, i + 1, |inputs|);
    var cuts' := cuts[..i + 1] + [k];
    forall j | 0 <= j <= i ensures Segment(history[..k], cuts'[j], cuts'[j + 1], inputs[j]) {
      if j < i {
        CutsRise(history, cuts, inputs, j + 1, i);
        SegmentWithin(history, k, cuts[j], cuts[j + 1], inputs[j]);
      } else {
        SegmentFront(history, cuts[i], cuts[i + 1], k, inputs[i]);
      }
    }
  }

  lemma SegmentWithin(history: seq<Event>, k: nat, a: nat, b: nat, input: Input)
    requires Segment(history, a, b, input) && b <= k <= |history|
    ensures Segment(history[..k], a, b, input)
  {
    hide Hashes, Told;
    var n := a + |Told(input)|;
    assert history[..k][a..n] == history[a..n];
    forall m | n <= m < b ensures Permitted(history[..k], m, input) {
      assert Permitted(history, m, input) && history[..k][m] == history[m] && history[..k][..m] == history[..m];
    }
  }

  /** An event from outside is what its input is on record as; any other one is what it led to. */
  lemma ToldOrPermitted(history: seq<Event>, a: nat, b: nat, input: Input, m: nat)
    requires Segment(history, a, b, input) && a <= m < b
    ensures if Outside(history[m]) then m == a && Told(input) == [history[m]] else Permitted(history, m, input)
  {
    hide Hashes;
    assert |Told(input)| <= 1;
    if m < a + |Told(input)| {
      assert history[a..a + |Told(input)|][0] == history[a];
    } else {
      assert Permitted(history, m, input);
    }
  }

  /** Proofs on record are proofs by the inputs. */
  lemma {:induction false} ProvenByInputs(history: seq<Event>, cuts: seq<nat>, inputs: seq<Input>, id: NodeId, at: Udp, pong: nat)
    requires Cut(history, cuts, inputs) && cuts[0] == 0 && Proven(history, id, at, pong)
    ensures ProvenBy(inputs, id, at, pong)
    decreases |history|, 2
  {
    hide Cut, Proof, ProofBy;
    var j, p :| && 0 <= j < |history| && Proof(history, j, id, at, p)
                && (p == pong || exists now :: Invalidated(id, now) in history && pong == LongAgo(now));
    var i := ProofIsInput(history, cuts, inputs, j, id, at, p);
    if p != pong {
      var now :| Invalidated(id, now) in history && pong == LongAgo(now);
      InvalidatedByInput(history, cuts, inputs, id, now);
    }
  }

  lemma InvalidatedByInput(history: seq<Event>, cuts: seq<nat>, inputs: seq<Input>, id: NodeId, now: nat)
    requires Cut(history, cuts, inputs) && cuts[0] == 0 && Invalidated(id, now) in history
    ensures Invalidate(id, now) in inputs
  {
    hide Segment;
    var m :| 0 <= m < |history| && history[m] == Invalidated(id, now);
    var i := Located(history, cuts, inputs, m);
    ToldOrPermitted(history, cuts[i], cuts[i + 1], inputs[i], m);
  }

  lemma {:induction false} ProofIsInput(history: seq<Event>, cuts: seq<nat>, inputs: seq<Input>, j: nat, id: NodeId, at: Udp, pong: nat)
    returns (i: nat)
    requires Cut(history, cuts, inputs) && cuts[0] == 0 && j < |history| && Proof(history, j, id, at, pong)
    ensures i < |inputs| && ProofBy(inputs, i, id, at, pong)
    decreases |history|, 1
  {
    hide Segment, PingedBy, Cut;
    i := Located(history, cuts, inputs, j);
    ToldOrPermitted(history, cuts[i], cuts[i + 1], inputs[i], j);
    if history[j].PongReceived? {
      var echo := history[j].echo;
      var m :| 0 <= m < j && history[..j][m] == PingSent(at, echo) && PingGone(at) !in history[..j][m..];
      var k := PingIsInput(history, cuts, inputs, m, at, echo, i);
    }
  }

  /** A ping on record before input i was sent on account of an earlier one. */
  lemma {:induction false} PingIsInput(history: seq<Event>, cuts: seq<nat>, inputs: seq<Input>, m: nat, at: Udp, hash: nat, i: nat)
    returns (k: nat)
    requires Cut(history, cuts, inputs) && cuts[0] == 0 && m < |history| && history[m] == PingSent(at, hash)
    requires i < |inputs| && m < cuts[i]
    ensures k < i && PingedBy(inputs, k, at, hash)
    decreases |history|, 0
  {
    hide Segment, Cut, Proven, ProvenBy;
    k := Located(history, cuts, inputs, m);
    if i <= k {
      CutsRise(history, cuts, inputs, i, k);
    }
    ToldOrPermitted(history, cuts[k], cuts[k + 1], inputs[k], m);
    if !inputs[k].PingDue? {
      var id, pong :| Proven(history[..m], id, at, pong);
      ToldBefore(history, cuts[k], cuts[k + 1], inputs[k], m);
      Truncated(history, cuts, inputs, k, m);
      ProvenByInputs(history[..m], cuts[..k + 1] + [m], inputs[..k + 1], id, at, pong);
    }
  }

  lemma ToldBefore(history: seq<Event>, a: nat, b: nat, input: Input, m: nat)
    requires Segment(history, a, b, input) && a <= m < b && !Outside(history[m])
    ensures a + |Told(input)| <= m
  {
    assert |Told(input)| <= 1 && (Told(input) != [] ==> history[a..a + |Told(input)|][0] == history[a]);
  }

  lemma {:induction false} ExternalOfSegment(history: seq<Event>, a: nat, b: nat, input: Input)
    requires Segment(history, a, b, input)
    ensures External(history[..b]) == External(history[..a]) + Told(input)
    decreases b
  {
    hide Hashes, External, Visited;
    var n := a + |Told(input)|;
    if b > n {
      ExternalOfSegment(history, a, b - 1, input);
      assert history[..b] == history[..b - 1] + [history[b - 1]];
      assert Permitted(history, b - 1, input);
      ExternalGrows(history[..b - 1], history[b - 1]);
    } else if n > a {
      assert history[a..n][0] == history[a] && history[..b] == history[..a] + [history[a]];
      ExternalGrows(history[..a], history[a]);
    }
  }

  /** The outside events on record are exactly those of the inputs. */
  lemma {:induction false} ExternalIsTold(history: seq<Event>, cuts: seq<nat>, inputs: seq<Input>)
    requires Cut(history, cuts, inputs) && cuts[0] == 0
    ensures External(history) == AllTold(inputs)
  {
    hide Segment, External, Told;
    if inputs == [] {
      NothingExternal(history);
    } else {
      var n := |inputs| - 1;
      assert Segment(history, cuts[n], cuts[n + 1], inputs[n]);
      ExternalOfSegment(history, cuts[n], cuts[n + 1], inputs[n]);
      assert history[..|history|] == history;
      CutsRise(history, cuts, inputs, n, n + 1);
      forall i | 0 <= i < n ensures Segment(history[..cuts[n]], cuts[i], cuts[i + 1], inputs[i]) {
        CutsRise(history, cuts, inputs, i + 1, n);
        SegmentWithin(history, cuts[n], cuts[i], cuts[i + 1], inputs[i]);
      }
      ExternalIsTold(history[..cuts[n]], cuts[..n + 1], inputs[..n]);
    }
  }

  lemma NothingExternal(history: seq<Event>)
    requires history == []
    ensures External(history) == []
  {
  }

  lemma RunIsProven(history: seq<Event>, inputs: seq<Input>, id: NodeId, at: Udp, pong: nat)
    requires Accounted(history, 0, inputs) && Proven(history, id, at, pong)
    ensures ProvenBy(inputs, id, at, pong)
  {
    hide Cut, Proven, ProvenBy;
    var cuts: seq<nat> :| Cut(history, cuts, inputs) && cuts[0] == 0;
    ProvenByInputs(history, cuts, inputs, id, at, pong);
  }

  lemma RunIsTold(history: seq<Event>, inputs: seq<Input>)
    requires Accounted(history, 0, inputs)
    ensures External(history) == AllTold(inputs)
  {
    hide Cut, External, AllTold;
    var cuts: seq<nat> :| Cut(history, cuts, inputs) && cuts[0] == 0;
    ExternalIsTold(history, cuts, inputs);
  }

  /**
   The life of a table from its start: what is in it was proven by what it was told, with pings that
   its inputs had sent before, and a table that is not a boot node's lists every known node in its
   bucket, at most 255 * 16 of them.
   */
  method Lifetime(host: NodeId, bootNode: bool, distanceOf: NodeId -> nat, allowed: Endpoint -> bool, inputs: seq<Input>)
    returns (t: Table)
    requires forall id :: id != host ==> 1 <= distanceOf(id) <= BINS
    ensures fresh(t) && t.Valid() && Accounted(t.history, 0, inputs) && External(t.history) == AllTold(inputs)
    ensures host !in t.allNodes
    ensures forall id :: id in t.allNodes ==>
              && Proven(t.history, id, t.allNodes[id].endpoint.udp, t.allNodes[id].lastPongReceived)
              && ProvenBy(inputs, id, t.allNodes[id].endpoint.udp, t.allNodes[id].lastPongReceived)
    ensures !bootNode ==> t.Listed() && |t.allNodes| <= 255 * 16
  {
    hide Proven, ProvenBy, Outstanding, Answered, External, AllTold, Accounted;
    t := new Table(host, bootNode, distanceOf, allowed);
    t.Run(inputs);
    RunIsTold(t.history, inputs);
    forall id | id in t.allNodes
      ensures ProvenBy(inputs, id, t.allNodes[id].endpoint.udp, t.allNodes[id].lastPongReceived)
    {
      RunIsProven(t.history, inputs, id, t.allNodes[id].endpoint.udp, t.allNodes[id].lastPongReceived);
    }
    if !bootNode {
      t.CountIsBounded();
    }
  }
}
