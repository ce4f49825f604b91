/**
 Capability negotiation at the start of a session: libp2p/Host.cpp filters the peer's list in
 place with a predicate that reads the very list it compacts, and hands out packet ranges that
 libp2p/Session.cpp searches for the capability of a packet.
 */
module Capabilities {
  import opened Bytes
  import opened Wrappers
  import opened Modulo

  datatype Cap = Cap(name: string, version: nat)

  type Count = n: nat | n < TWO_TO_THE_32

  /** The host's capabilities with their message counts. */
  type Supported = map<Cap, Count>

  const USER_PACKET: nat := 0x10

  predicate Beats(host: Supported, o: Cap, r: Cap) {
    o.name == r.name && o.version > r.version && o in host
  }

  predicate Doomed(host: Supported, list: seq<Cap>, r: Cap) {
    r !in host || exists i :: 0 <= i < |list| && Beats(host, list[i], r)
  }

  /** The stable filter: mutually supported and no higher mutual version of that name in the list. */
  function Chosen(host: Supported, list: seq<Cap>, part: seq<Cap>): (r: seq<Cap>)
    ensures forall c :: c in r <==> c in part && !Doomed(host, list, c)
  {
    if part == [] then []
    else
      var c := part[|part| - 1];
      Chosen(host, list, part[..|part| - 1]) + if Doomed(host, list, c) then [] else [c]
  }

  /** An element whose name was moved away. */
  function Moved(c: Cap): Cap {
    Cap("", c.version)
  }

  /** remove_if on the list s, of which s[..kept] is done and s[next..] untouched. */
  function Sweep(host: Supported, s: seq<Cap>, kept: nat, next: nat): (r: (seq<Cap>, nat))
    requires kept <= next <= |s|
    ensures |r.0| == |s| && r.1 <= |s|
    decreases |s| - next
  {
    if next == |s| then (s, kept)
    else if Doomed(host, s, s[next]) then Sweep(host, s, kept, next + 1)
    else Sweep(host, Shifted(s, kept, next), kept + 1, next + 1)
  }

  function Shifted(s: seq<Cap>, kept: nat, next: nat): (r: seq<Cap>)
    requires kept <= next < |s|
    ensures |r| == |s|
  {
    if kept == next then s else s[kept := s[next]][next := Moved(s[next])]
  }

  method Any(host: Supported, caps: array<Cap>, r: Cap) returns (b: bool)
    ensures b <==> Doomed(host, caps[..], r)
  {
    b := r !in host;
    var i := 0;
    while i < caps.Length && !b
      invariant 0 <= i <= caps.Length
      invariant b <==> r !in host || exists j :: 0 <= j < i && Beats(host, caps[j], r)
    {
      b := Beats(host, caps[i], r);
      i := i + 1;
    }
    assert forall j :: 0 <= j < caps.Length ==> caps[..][j] == caps[j];
  }

  /** The in-place compaction; the result is the new length. */
  method RemoveIf(host: Supported, caps: array<Cap>) returns (kept: nat)
    modifies caps
    ensures kept <= caps.Length
    ensures (caps[..], kept) == Sweep(host, old(caps[..]), 0, 0)
  {
    kept := 0;
    var doomed := false;
    while kept < caps.Length && !doomed
      invariant kept <= caps.Length && caps[..] == old(caps[..])
      invariant Sweep(host, old(caps[..]), 0, 0) == Sweep(host, caps[..], kept, kept)
      invariant doomed ==> kept < caps.Length && Doomed(host, caps[..], caps[kept])
      decreases caps.Length - kept, !doomed
    {
      doomed := Any(host, caps, caps[kept]);
      if !doomed {
        kept := kept + 1;
      }
    }
    if kept == caps.Length {
      return;
    }
    for next := kept + 1 to caps.Length
      invariant kept < next
      invariant Sweep(host, old(caps[..]), 0, 0) == Sweep(host, caps[..], kept, next)
    {
      var remove := Any(host, caps, caps[next]);
      if !remove {
        ghost var s := caps[..];
        caps[kept], caps[next] := caps[next], Moved(caps[next]);
        assert caps[..] == Shifted(s, kept, next);
        kept := kept + 1;
      }
    }
  }

  /**
   What a list being compacted may look like: a moved-away name can only be mistaken for another
   one if the host supports two versions of the empty name and something else in the higher one.
   */
  predicate Confusing(host: Supported) {
    exists u, v, c :: u in host && v in host && c in host
                      && u.name == v.name == "" && c.name != "" && u.version < v.version == c.version
  }

  /** s holds nothing but elements of the list, some of them without their names. */
  ghost predicate Remnant(host: Supported, list: seq<Cap>, c: Cap) {
    c in list || (c.name == "" && exists o :: o in list && o in host && o.name != "" && o.version == c.version)
  }

  ghost predicate Halfway(host: Supported, list: seq<Cap>, s: seq<Cap>, kept: nat, next: nat) {
    && kept <= next <= |s| == |list|
    && s[..kept] == Chosen(host, list, list[..next]) && s[next..] == list[next..]
    && forall i :: 0 <= i < |s| ==> Remnant(host, list, s[i])
  }

  /** Whatever beats r in the list, the highest such is never removed from it. */
  lemma {:induction false} Champion(host: Supported, list: seq<Cap>, i: nat, fuel: nat) returns (k: nat)
    requires i < |list| && list[i] in host
    requires forall j :: 0 <= j < |list| ==> list[j].version <= list[i].version + fuel
    ensures k < |list| && list[k] in host && !Doomed(host, list, list[k])
    ensures list[k].name == list[i].name && list[k].version >= list[i].version
    decreases fuel
  {
    k := i;
    if Doomed(host, list, list[i]) {
      var j :| 0 <= j < |list| && Beats(host, list[j], list[i]);
      k := Champion(host, list, j, list[i].version + fuel - list[j].version);
    }
  }

  lemma {:induction false} VersionsBounded(list: seq<Cap>) returns (bound: nat)
    ensures forall j :: 0 <= j < |list| ==> list[j].version <= bound
  {
    bound := 0;
    if list != [] {
      var last := |list| - 1;
      bound := VersionsBounded(list[..last]);
      assert forall j :: 0 <= j < last ==> list[j] == list[..last][j];
      if list[last].version > bound {
        bound := list[last].version;
      }
    }
  }

  /** Being beaten in the list is being beaten in what compaction has made of it so far. */
  lemma SameVerdict(host: Supported, list: seq<Cap>, s: seq<Cap>, kept: nat, next: nat, r: Cap)
    requires Halfway(host, list, s, kept, next) && !Confusing(host)
    ensures Doomed(host, s, r) <==> Doomed(host, list, r)
  {
    if r in host {
      if i :| 0 <= i < |list| && Beats(host, list[i], r) {
        var bound := VersionsBounded(list);
        var k := Champion(host, list, i, bound);
        StillThere(host, list, s, kept, next, k);
      }
      if i :| 0 <= i < |s| && Beats(host, s[i], r) {
        assert Remnant(host, list, s[i]);
      }
    }
  }

  lemma StillThere(host: Supported, list: seq<Cap>, s: seq<Cap>, kept: nat, next: nat, k: nat)
    requires Halfway(host, list, s, kept, next)
    requires k < |list| && !Doomed(host, list, list[k])
    ensures list[k] in s
  {
    if k < next {
      assert list[k] == list[..next][k];
      assert list[k] in s[..kept];
    } else {
      assert list[next..][k - next] == list[k];
      assert s[next..][k - next] == list[k];
    }
  }

  lemma HalfwayDrops(host: Supported, list: seq<Cap>, s: seq<Cap>, kept: nat, next: nat)
    requires Halfway(host, list, s, kept, next) && next < |s| && Doomed(host, list, list[next])
    ensures Halfway(host, list, s, kept, next + 1)
  {
    assert list[..next + 1][..next] == list[..next];
    assert s[next..][1..] == s[next + 1..] && list[next..][1..] == list[next + 1..];
  }

  lemma HalfwayKeeps(host: Supported, list: seq<Cap>, s: seq<Cap>, kept: nat, next: nat)
    requires Halfway(host, list, s, kept, next) && next < |s| && !Doomed(host, list, list[next])
    ensures Halfway(host, list, Shifted(s, kept, next), kept + 1, next + 1)
  {
    hide Doomed, Remnant, Beats;
    var t := Shifted(s, kept, next);
    assert s[next] == s[next..][0] == list[next..][0] == list[next];
    assert list[..next + 1][..next] == list[..next];
    assert t[..kept + 1] == s[..kept] + [list[next]];
    assert s[next..][1..] == s[next + 1..] && list[next..][1..] == list[next + 1..];
    assert t[next + 1..] == s[next + 1..];
    NameMovesAway(host, list, next);
    forall i | 0 <= i < |t| ensures Remnant(host, list, t[i]) {
      assert Remnant(host, list, s[i]);
    }
  }

  lemma NameMovesAway(host: Supported, list: seq<Cap>, i: nat)
    requires i < |list| && !Doomed(host, list, list[i])
    ensures Remnant(host, list, list[i]) && Remnant(host, list, Moved(list[i]))
  {
  }

  lemma {:induction false} SweepFilters(host: Supported, list: seq<Cap>, s: seq<Cap>, kept: nat, next: nat)
    requires Halfway(host, list, s, kept, next) && !Confusing(host)
    ensures var (t, n) := Sweep(host, s, kept, next); t[..n] == Chosen(host, list, list)
    decreases |s| - next
  {
    hide Halfway, Confusing, Doomed, Chosen, Shifted;
    HalfwayMeans(host, list, s, kept, next);
    if next == |s| {
      assert list[..next] == list;
    } else {
      SameVerdict(host, list, s, kept, next, list[next]);
      if Doomed(host, list, list[next]) {
        HalfwayDrops(host, list, s, kept, next);
        SweepFilters(host, list, s, kept, next + 1);
      } else {
        HalfwayKeeps(host, list, s, kept, next);
        SweepFilters(host, list, Shifted(s, kept, next), kept + 1, next + 1);
      }
    }
  }

  lemma HalfwayMeans(host: Supported, list: seq<Cap>, s: seq<Cap>, kept: nat, next: nat)
    requires Halfway(host, list, s, kept, next)
    ensures kept <= next <= |s| == |list| && s[..kept] == Chosen(host, list, list[..next])
    ensures next < |s| ==> s[next] == list[next]
  {
    if next < |s| {
      assert s[next] == s[next..][0] == list[next..][0];
    }
  }

  /** The in-place filter is the stable filter whenever names cannot be confused. */
  lemma RemoveIfFilters(host: Supported, list: seq<Cap>)
    requires !Confusing(host)
    ensures var (t, n) := Sweep(host, list, 0, 0); t[..n] == Chosen(host, list, list)
  {
    assert list[..0] == [];
    SweepFilters(host, list, list, 0, 0);
  }

  lemma ChosenOneMore(host: Supported, list: seq<Cap>, part: seq<Cap>, c: Cap)
    ensures Chosen(host, list, part + [c]) == Chosen(host, list, part) + if Doomed(host, list, c) then [] else [c]
  {
    assert (part + [c])[..|part|] == part;
  }

  /** Otherwise some peer's list is filtered wrongly: the host's own empty-named capability is lost. */
  lemma ConfusionLosesOne(host: Supported, u: Cap, v: Cap, c: Cap, x: Cap)
    requires u in host && v in host && c in host && x !in host
    requires u.name == v.name == "" && c.name != "" && u.version < v.version == c.version
    ensures var list := [x, c, u];
            var (t, n) := Sweep(host, list, 0, 0);
            Chosen(host, list, list) == [c, u] && t[..n] == [c]
  {
    hide Chosen, Sweep;
    ConfusedFilter(host, u, c, x);
    ConfusedSweep(host, u, v, c, x);
    assert [c, v, u][..1] == [c];
  }

  lemma ConfusedFilter(host: Supported, u: Cap, c: Cap, x: Cap)
    requires u in host && c in host && x !in host && u.name != c.name
    ensures Chosen(host, [x, c, u], [x, c, u]) == [c, u]
  {
    hide Chosen;
    var list := [x, c, u];
    assert !Doomed(host, list, c) && !Doomed(host, list, u) && Doomed(host, list, x);
    assert Chosen(host, list, []) == [] by {
      NothingChosen(host, list);
    }
    ChosenOneMore(host, list, [], x);
    ChosenOneMore(host, list, [x], c);
    ChosenOneMore(host, list, [x, c], u);
    assert [] + [x] == [x] && [x] + [c] == [x, c] && [x, c] + [u] == list;
  }

  lemma NothingChosen(host: Supported, list: seq<Cap>)
    ensures Chosen(host, list, []) == []
  {
  }

  lemma SweepStep(host: Supported, s: seq<Cap>, kept: nat, next: nat, t: seq<Cap>)
    requires kept <= next < |s| && t == Shifted(s, kept, next)
    ensures Sweep(host, s, kept, next) == if Doomed(host, s, s[next]) then Sweep(host, s, kept, next + 1)
                                          else Sweep(host, t, kept + 1, next + 1)
  {
  }

  lemma ConfusedSweep(host: Supported, u: Cap, v: Cap, c: Cap, x: Cap)
    requires u in host && v in host && c in host && x !in host
    requires u.name == v.name == "" && c.name != "" && u.version < v.version == c.version
    ensures Sweep(host, [x, c, u], 0, 0) == ([c, v, u], 1)
  {
    hide Sweep;
    var list, s := [x, c, u], [c, v, u];
    assert !Doomed(host, list, c) && Doomed(host, list, x);
    assert Beats(host, s[1], u) && Doomed(host, s, u);
    SweepStep(host, list, 0, 0, list);
    SweepStep(host, list, 0, 1, s);
    SweepStep(host, s, 1, 2, Shifted(s, 1, 2));
    SweepEnd(host, s, 1);
  }

  lemma SweepEnd(host: Supported, s: seq<Cap>, kept: nat)
    requires kept <= |s|
    ensures Sweep(host, s, kept, |s|) == (s, kept)
  {
  }

  /** What a session knows of a capability. */
  datatype SessionCap = SessionCap(version: nat, offset: Count, count: Count)

  /** The number of packets of the first i capabilities, behind the protocol's own. */
  function Offset(host: Supported, caps: seq<Cap>, i: nat): (r: nat)
    requires i <= |caps|
    ensures r >= USER_PACKET
  {
    if i == 0 then USER_PACKET
    else Offset(host, caps, i - 1) + if caps[i - 1] in host then host[caps[i - 1]] else 0
  }

  predicate IsFirst(caps: seq<Cap>, i: nat)
    requires i < |caps|
  {
    forall j :: 0 <= j < i ==> caps[j].name != caps[i].name
  }

  /** A session capability stands for the first of its name in the list. */
  ghost predicate StandsFor(host: Supported, caps: seq<Cap>, c: SessionCap, i: nat) {
    && i < |caps| && IsFirst(caps, i) && caps[i] in host
    && c == RangeOf(host, caps, i)
  }

  /** Its version and packets; the offset is a 32-bit number. */
  function RangeOf(host: Supported, caps: seq<Cap>, i: nat): SessionCap
    requires i < |caps| && caps[i] in host
  {
    SessionCap(caps[i].version, Offset(host, caps, i) % TWO_TO_THE_32, host[caps[i]])
  }

  /** How many capabilities come before the first one that the host does not support. */
  function Backed(host: Supported, caps: seq<Cap>): (n: nat)
    ensures n <= |caps| && (n < |caps| ==> caps[n] !in host)
    ensures forall i :: 0 <= i < n ==> caps[i] in host
  {
    if caps == [] || caps[0] !in host then 0 else 1 + Backed(host, caps[1..])
  }

  lemma BackedIs(host: Supported, caps: seq<Cap>, n: nat)
    requires n <= |caps| && (forall i :: 0 <= i < n ==> caps[i] in host) && (n < |caps| ==> caps[n] !in host)
    ensures Backed(host, caps) == n
  {
    var m := Backed(host, caps);
    assert !(m < n) && !(n < m);
  }

  ghost predicate Represents(host: Supported, caps: seq<Cap>, name: string, c: SessionCap, n: nat)
    requires n <= |caps|
  {
    exists i :: 0 <= i < n && caps[i].name == name && StandsFor(host, caps, c, i)
  }

  ghost predicate Assigned(host: Supported, caps: seq<Cap>, session: map<string, SessionCap>, n: nat) {
    && n <= |caps|
    && (forall i :: 0 <= i < n ==> caps[i].name in session)
    && (forall name :: name in session ==> Represents(host, caps, name, session[name], n))
  }

  lemma {:induction false} OffsetsGrow(host: Supported, caps: seq<Cap>, i: nat, j: nat)
    requires i <= j <= |caps|
    ensures Offset(host, caps, i) <= Offset(host, caps, j)
  {
    if i < j {
      OffsetsGrow(host, caps, i, j - 1);
    }
  }

  lemma NothingAssigned(host: Supported, caps: seq<Cap>)
    ensures Assigned(host, caps, map[], 0) && Offset(host, caps, 0) == USER_PACKET
  {
  }

  lemma RepresentsStill(host: Supported, caps: seq<Cap>, name: string, c: SessionCap, n: nat)
    requires n < |caps| && Represents(host, caps, name, c, n)
    ensures Represents(host, caps, name, c, n + 1)
  {
    hide StandsFor;
  }

  lemma RepresentsNew(host: Supported, caps: seq<Cap>, session: map<string, SessionCap>, i: nat)
    requires Assigned(host, caps, session, i) && i < |caps| && caps[i] in host && caps[i].name !in session
    ensures Represents(host, caps, caps[i].name, RangeOf(host, caps, i), i + 1)
  {
    hide Offset, Represents;
    assert StandsFor(host, caps, RangeOf(host, caps, i), i);
    RepresentsAt(host, caps, i);
  }

  lemma RepresentsAt(host: Supported, caps: seq<Cap>, i: nat)
    requires i < |caps| && caps[i] in host && IsFirst(caps, i)
    ensures Represents(host, caps, caps[i].name, RangeOf(host, caps, i), i + 1)
  {
    hide Offset, IsFirst;
    assert StandsFor(host, caps, RangeOf(host, caps, i), i);
  }

  lemma AssignedOneMore(host: Supported, caps: seq<Cap>, session: map<string, SessionCap>, i: nat)
    requires Assigned(host, caps, session, i) && i < |caps| && caps[i] in host
    ensures var c := RangeOf(host, caps, i);
            var name := caps[i].name;
            Assigned(host, caps, if name in session then session else session[name := c], i + 1)
  {
    hide Offset, Represents;
    forall name | name in session ensures Represents(host, caps, name, session[name], i + 1) {
      RepresentsStill(host, caps, name, session[name], i);
    }
    if caps[i].name !in session {
      RepresentsNew(host, caps, session, i);
    }
  }

  /**
   Hands out packet ranges in the order of the list, with 32-bit offsets. A name that comes again
   is ignored but still takes up a range; an unsupported capability breaks the session off.
   */
  method AssignOffsets(host: Supported, caps: seq<Cap>) returns (ok: bool, session: map<string, SessionCap>)
    ensures ok <==> forall c :: c in caps ==> c in host
    ensures Assigned(host, caps, session, Backed(host, caps))
  {
    hide Assigned, Backed, Offset;
    ok, session := true, map[];
    NothingAssigned(host, caps);
    var offset := USER_PACKET;
    var i := 0;
    while i < |caps| && ok
      invariant 0 <= i <= |caps|
      invariant forall j :: 0 <= j < i ==> caps[j] in host
      invariant !ok ==> i < |caps| && caps[i] !in host
      invariant offset == Offset(host, caps, i) % TWO_TO_THE_32
      invariant Assigned(host, caps, session, i)
      decreases |caps| - i, ok
    {
      if caps[i] !in host {
        ok := false;
      } else {
        AssignedOneMore(host, caps, session, i);
        if caps[i].name !in session {
          session := session[caps[i].name := SessionCap(caps[i].version, offset, host[caps[i]])];
        }
        NextOffset(host, caps, i);
        offset := (offset + host[caps[i]]) % TWO_TO_THE_32;
        i := i + 1;
      }
    }
    BackedIs(host, caps, i);
  }

  lemma NextOffset(host: Supported, caps: seq<Cap>, i: nat)
    requires i < |caps| && caps[i] in host
    ensures Offset(host, caps, i + 1) % TWO_TO_THE_32 == (Offset(host, caps, i) % TWO_TO_THE_32 + host[caps[i]]) % TWO_TO_THE_32
  {
    AddModulo(Offset(host, caps, i), host[caps[i]], TWO_TO_THE_32);
  }

  /** The comparison of 32-bit numbers that finds the capability of a packet. */
  predicate InRange(c: SessionCap, packet: nat) {
    c.offset <= packet < (c.count + c.offset) % TWO_TO_THE_32
  }

  /** A range that does not end below 2^32 is lost as a whole; any other one covers its packets exactly. */
  lemma RangeCoversIff(c: SessionCap)
    ensures c.offset + c.count < TWO_TO_THE_32 ==>
              forall p: nat :: InRange(c, p) <==> c.offset <= p < c.offset + c.count
    ensures c.offset + c.count >= TWO_TO_THE_32 ==> forall p: nat :: !InRange(c, p)
  {
    if c.offset + c.count >= TWO_TO_THE_32 {
      assert (c.count + c.offset) % TWO_TO_THE_32 == c.count + c.offset - TWO_TO_THE_32;
    }
  }

  /** The capability of a packet, looked for in any order. */
  method CapabilityFor(session: map<string, SessionCap>, packet: nat) returns (r: Option<SessionCap>)
    ensures r.Some? ==> packet >= USER_PACKET && InRange(r.value, packet) && r.value in session.Values
    ensures r.None? && packet >= USER_PACKET ==> forall name :: name in session ==> !InRange(session[name], packet)
  {
    if packet < USER_PACKET {
      return None;
    }
    var todo := session.Keys;
    while todo != {}
      invariant todo <= session.Keys
      invariant forall name :: name in session && name !in todo ==> !InRange(session[name], packet)
    {
      var name :| name in todo;
      if InRange(session[name], packet) {
        return Some(session[name]);
      }
      todo := todo - {name};
    }
    return None;
  }

  /** As long as all ranges end below 2^32 they lie behind the protocol's own packets and no two of them meet. */
  lemma RangesDisjoint(host: Supported, caps: seq<Cap>, session: map<string, SessionCap>, a: string, b: string, packet: nat)
    requires Assigned(host, caps, session, |caps|) && Offset(host, caps, |caps|) < TWO_TO_THE_32
    requires a in session && b in session
    requires InRange(session[a], packet) && InRange(session[b], packet)
    ensures a == b && packet >= USER_PACKET
  {
    hide Offset, Assigned, InRange;
    var i := PlaceOf(host, caps, session, a, packet);
    var j := PlaceOf(host, caps, session, b, packet);
    if i < j {
      Apart(host, caps, i, j);
    } else if j < i {
      Apart(host, caps, j, i);
    }
  }

  lemma PlaceOf(host: Supported, caps: seq<Cap>, session: map<string, SessionCap>, name: string, packet: nat) returns (i: nat)
    requires Assigned(host, caps, session, |caps|) && Offset(host, caps, |caps|) < TWO_TO_THE_32
    requires name in session && InRange(session[name], packet)
    ensures i < |caps| && caps[i].name == name && caps[i] in host
    ensures Offset(host, caps, i) <= packet < Offset(host, caps, i) + host[caps[i]]
  {
    hide Offset, IsFirst, InRange;
    assert Represents(host, caps, name, session[name], |caps|);
    i :| 0 <= i < |caps| && caps[i].name == name && StandsFor(host, caps, session[name], i);
    EndsBelow(host, caps, i);
    RangeCoversIff(session[name]);
  }

  /** Every packet of a capability in the session is found to be that capability's. */
  lemma EachPacketFound(host: Supported, caps: seq<Cap>, session: map<string, SessionCap>, name: string, k: nat)
    requires Assigned(host, caps, session, |caps|) && Offset(host, caps, |caps|) < TWO_TO_THE_32
    requires name in session && k < session[name].count
    ensures InRange(session[name], session[name].offset + k)
  {
    hide IsFirst, Offset, InRange;
    assert Represents(host, caps, name, session[name], |caps|);
    var i :| 0 <= i < |caps| && caps[i].name == name && StandsFor(host, caps, session[name], i);
    EndsBelow(host, caps, i);
    RangeCoversIff(session[name]);
  }

  /** Every packet of every capability is one of the session's own and finds that capability and no other. */
  ghost predicate Routed(session: map<string, SessionCap>) {
    forall name, k: nat :: name in session && k < session[name].count ==> PacketRouted(session, name, k)
  }

  ghost predicate PacketRouted(session: map<string, SessionCap>, name: string, k: nat)
    requires name in session
  {
    var packet := session[name].offset + k;
    packet >= USER_PACKET && forall other :: other in session ==> (InRange(session[other], packet) <==> other == name)
  }

  /** When no name comes twice, all packets are routed exactly if the ranges together end below 2^32. */
  lemma RoutedIff(host: Supported, caps: seq<Cap>, session: map<string, SessionCap>)
    requires Assigned(host, caps, session, |caps|) && forall i :: 0 <= i < |caps| ==> IsFirst(caps, i)
    ensures Routed(session) <==> Offset(host, caps, |caps|) < TWO_TO_THE_32
  {
    hide Offset, IsFirst, InRange, Assigned;
    if Offset(host, caps, |caps|) < TWO_TO_THE_32 {
      forall name, k: nat | name in session && k < session[name].count
        ensures PacketRouted(session, name, k)
      {
        RoutedBelow(host, caps, session, name, k);
      }
    } else {
      var i := Crossing(host, caps);
      var name := caps[i].name;
      FirstIsItself(host, caps, session, i);
      RangeCoversIff(session[name]);
      assert !PacketRouted(session, name, 0);
    }
  }

  /** Without repeated names there are no gaps: every packet from 0x10 to the end of the ranges belongs to a capability. */
  lemma NoGaps(host: Supported, caps: seq<Cap>, session: map<string, SessionCap>, packet: nat)
    requires Assigned(host, caps, session, |caps|) && forall i :: 0 <= i < |caps| ==> IsFirst(caps, i)
    requires Offset(host, caps, |caps|) < TWO_TO_THE_32 && 0x10 <= packet < Offset(host, caps, |caps|)
    ensures exists name :: name in session && InRange(session[name], packet)
  {
    hide IsFirst, InRange, Assigned;
    var i: nat := |caps|;
    while Offset(host, caps, i) > packet
      invariant i <= |caps| && (i < |caps| ==> Offset(host, caps, i + 1) > packet)
      decreases i
    {
      i := i - 1;
    }
    FirstIsItself(host, caps, session, i);
    EndsBelow(host, caps, i);
    RangeCoversIff(session[caps[i].name]);
  }

  lemma RoutedBelow(host: Supported, caps: seq<Cap>, session: map<string, SessionCap>, name: string, k: nat)
    requires Assigned(host, caps, session, |caps|) && Offset(host, caps, |caps|) < TWO_TO_THE_32
    requires name in session && k < session[name].count
    ensures PacketRouted(session, name, k)
  {
    hide Assigned, Offset, InRange;
    var packet := session[name].offset + k;
    EachPacketFound(host, caps, session, name, k);
    RangesDisjoint(host, caps, session, name, name, packet);
    forall other | other in session && InRange(session[other], packet) ensures other == name {
      RangesDisjoint(host, caps, session, other, name, packet);
    }
  }

  /** The capability whose packets run over the 32-bit range. */
  lemma {:induction false} Crossing(host: Supported, caps: seq<Cap>) returns (i: nat)
    requires Offset(host, caps, |caps|) >= TWO_TO_THE_32
    ensures i < |caps| && caps[i] in host
    ensures Offset(host, caps, i) < TWO_TO_THE_32 <= Offset(host, caps, i) + host[caps[i]]
  {
    i := |caps|;
    while Offset(host, caps, i) >= TWO_TO_THE_32
      invariant i <= |caps|
      invariant i < |caps| ==> Offset(host, caps, i + 1) >= TWO_TO_THE_32
      decreases i
    {
      i := i - 1;
    }
  }

  lemma FirstIsItself(host: Supported, caps: seq<Cap>, session: map<string, SessionCap>, i: nat)
    requires Assigned(host, caps, session, |caps|) && i < |caps|
    requires forall j :: 0 <= j < |caps| ==> IsFirst(caps, j)
    ensures caps[i].name in session && StandsFor(host, caps, session[caps[i].name], i)
  {
    hide Offset;
    var name := caps[i].name;
    assert Represents(host, caps, name, session[name], |caps|);
    var j :| 0 <= j < |caps| && caps[j].name == name && StandsFor(host, caps, session[name], j);
    assert IsFirst(caps, i) && IsFirst(caps, j) && i == j;
  }

  lemma EndsBelow(host: Supported, caps: seq<Cap>, i: nat)
    requires i < |caps| && caps[i] in host
    ensures Offset(host, caps, i) + host[caps[i]] <= Offset(host, caps, |caps|)
  {
    OffsetsGrow(host, caps, i + 1, |caps|);
  }

  lemma Apart(host: Supported, caps: seq<Cap>, i: nat, j: nat)
    requires i < j < |caps| && caps[i] in host
    ensures Offset(host, caps, i) + host[caps[i]] <= Offset(host, caps, j)
  {
    OffsetsGrow(host, caps, i + 1, j);
  }

  /** The whole negotiation, from the peer's list to the packet ranges. */
  method Negotiate(host: Supported, caps: array<Cap>) returns (session: map<string, SessionCap>)
    modifies caps
    ensures var chosen := Chosen(host, old(caps[..]), old(caps[..]));
            !Confusing(host) ==> Assigned(host, chosen, session, |chosen|)
  {
    hide Sweep, Assigned, Offset, Confusing;
    ghost var list := caps[..];
    var kept := RemoveIf(host, caps);
    var ok;
    ok, session := AssignOffsets(host, caps[..kept]);
    if !Confusing(host) {
      RemoveIfFilters(host, list);
      assert caps[..kept] == Chosen(host, list, list);
      BackedIs(host, caps[..kept], kept);
    }
  }
}
