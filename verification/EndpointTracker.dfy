/**
 EndpointTracker of libp2p: what every peer says our endpoint is, beside a count of how many
 peers say so. Endpoints are numbered in the order of the source's maps.
 */
module EndpointTracker {
  import opened Wrappers

  type Endpoint = nat

  datatype Statement = Statement(external: Endpoint, time: int)

  type Statements = map<Endpoint, Statement>

  /** The peers in favour of an endpoint. */
  ghost function Supporters(st: Statements, e: Endpoint): set<Endpoint> {
    set s | s in st && st[s].external == e
  }

  ghost function Support(st: Statements, e: Endpoint): nat {
    |Supporters(st, e)|
  }

  /** The counts are exactly the histogram of the statements, without zeros. */
  ghost predicate Histogram(st: Statements, counts: map<Endpoint, nat>) {
    forall e :: Support(st, e) == (if e in counts then counts[e] else 0) && (e in counts ==> counts[e] > 0)
  }

  lemma SupportAdded(st: Statements, source: Endpoint, s: Statement, e: Endpoint)
    requires source !in st
    ensures Support(st[source := s], e) == Support(st, e) + if s.external == e then 1 else 0
  {
    var st' := st[source := s];
    if s.external == e {
      assert Supporters(st', e) == Supporters(st, e) + {source};
    } else {
      assert Supporters(st', e) == Supporters(st, e);
    }
  }

  lemma SupportRemoved(st: Statements, source: Endpoint, e: Endpoint)
    requires source in st
    ensures Support(st - {source}, e) == Support(st, e) - if st[source].external == e then 1 else 0
  {
    var st' := st - {source};
    if st[source].external == e {
      assert Supporters(st', e) == Supporters(st, e) - {source};
    } else {
      assert Supporters(st', e) == Supporters(st, e);
    }
  }

  lemma Counted(st: Statements, counts: map<Endpoint, nat>, source: Endpoint)
    requires Histogram(st, counts) && source in st
    ensures st[source].external in counts && counts[st[source].external] > 0
  {
    assert source in Supporters(st, st[source].external);
  }

  datatype Op = Add(source: Endpoint, external: Endpoint, now: int) | Collect(now: int, timeToLive: int)

  /** The statements that are kept: the last one of every peer unless it was too old at a collection. */
  function Step(st: Statements, op: Op): Statements {
    match op
    case Add(source, external, now) => st[source := Statement(external, now)]
    case Collect(now, ttl) => map s | s in st && st[s].time >= now - ttl :: st[s]
  }

  function AfterAll(st: Statements, ops: seq<Op>): Statements {
    if ops == [] then st else Step(AfterAll(st, ops[..|ops| - 1]), ops[|ops| - 1])
  }

  /** The statement that a peer made last, at operation i, unless a later collection found it too old. */
  ghost predicate LastAt(ops: seq<Op>, source: Endpoint, s: Statement, i: nat) {
    && i < |ops| && ops[i] == Add(source, s.external, s.time)
    && forall j :: i < j < |ops| ==>
         match ops[j]
         case Add(other, _, _) => other != source
         case Collect(now, ttl) => s.time >= now - ttl
  }

  /** The statements after a run are exactly those, told by the operations alone. */
  lemma {:induction false} KeptIff(ops: seq<Op>, source: Endpoint, s: Statement)
    ensures source in AfterAll(map[], ops) && AfterAll(map[], ops)[source] == s <==> exists i: nat :: LastAt(ops, source, s, i)
  {
    if ops != [] {
      var front, n := ops[..|ops| - 1], |ops| - 1;
      KeptIff(front, source, s);
      forall i: nat | i < n ensures LastAt(ops, source, s, i) <==> LastAt(front, source, s, i) && StillKept(ops[n], source, s) {
        LastBefore(ops, source, s, i);
      }
      if ops[n] == Add(source, s.external, s.time) {
        assert LastAt(ops, source, s, n);
      } else if i: nat :| LastAt(ops, source, s, i) {
        assert i < n;
      }
      if StillKept(ops[n], source, s) && exists i: nat :: LastAt(front, source, s, i) {
        var i: nat :| LastAt(front, source, s, i);
        assert LastAt(ops, source, s, i);
      }
    }
  }

  predicate StillKept(op: Op, source: Endpoint, s: Statement) {
    match op
    case Add(other, _, _) => other != source
    case Collect(now, ttl) => s.time >= now - ttl
  }

  lemma LastBefore(ops: seq<Op>, source: Endpoint, s: Statement, i: nat)
    requires i < |ops| - 1
    ensures LastAt(ops, source, s, i) <==> LastAt(ops[..|ops| - 1], source, s, i) && StillKept(ops[|ops| - 1], source, s)
  {
    var front := ops[..|ops| - 1];
    assert forall j :: 0 <= j < |front| ==> front[j] == ops[j];
  }

  /** Where a walk through an ordered map begins. */
  method First(keys: set<Endpoint>) returns (r: Endpoint)
    requires keys != {}
    ensures r in keys && forall x :: x in keys ==> r <= x
  {
    r :| r in keys;
    var todo := keys - {r};
    while todo != {}
      invariant r in keys && todo <= keys
      invariant forall x :: x in keys && x !in todo ==> r <= x
    {
      var x :| x in todo;
      todo := todo - {x};
      if x < r {
        r := x;
      }
    }
  }

  class Tracker {
    var statements: Statements
    var counts: map<Endpoint, nat>

    ghost predicate Valid()
      reads this
    {
      Histogram(statements, counts)
    }

    constructor ()
      ensures Valid() && statements == map[]
    {
      statements, counts := map[], map[];
      new;
      forall e ensures Support(statements, e) == 0 {
        assert Supporters(statements, e) == {};
      }
    }

    /** The assertion is the source's own. */
    method RemoveStatement(source: Endpoint)
      requires Valid() && source in statements
      modifies this
      ensures Valid() && statements == old(statements) - {source}
    {
      Counted(statements, counts, source);
      var e := statements[source].external;
      assert e in counts && counts[e] > 0;
      counts := counts[e := counts[e] - 1];
      if counts[e] == 0 {
        counts := counts - {e};
      }
      statements := statements - {source};
      forall x ensures Support(statements, x) == Support(old(statements), x) - if x == e then 1 else 0 {
        SupportRemoved(old(statements), source, x);
      }
    }

    method AddStatement(source: Endpoint, external: Endpoint, now: int) returns (n: nat)
      requires Valid() && source !in statements
      modifies this
      ensures Valid() && statements == old(statements)[source := Statement(external, now)]
      ensures n == Support(statements, external)
    {
      forall x ensures Support(statements[source := Statement(external, now)], x)
                       == Support(statements, x) + if x == external then 1 else 0
      {
        SupportAdded(statements, source, Statement(external, now), x);
      }
      statements := statements[source := Statement(external, now)];
      n := if external in counts then counts[external] + 1 else 1;
      counts := counts[external := n];
    }

    /** The result is the true number of peers now in favour. */
    method AddEndpointStatement(source: Endpoint, external: Endpoint, now: int) returns (n: nat)
      requires Valid()
      modifies this
      ensures Valid() && statements == Step(old(statements), Add(source, external, now))
      ensures n == Support(statements, external) >= 1
    {
      hide Histogram, Support;
      if source in statements {
        RemoveStatement(source);
      }
      n := AddStatement(source, external, now);
      SupportedBy(statements, source, external);
    }

    /** An endpoint no other one has more support than; of several, the first. */
    method BestEndpoint() returns (r: Option<Endpoint>)
      requires Valid()
      ensures r == None <==> statements == map[]
      ensures r.Some? ==> forall e :: Support(statements, e) <= Support(statements, r.value)
                                      && (Support(statements, e) == Support(statements, r.value) ==> r.value <= e)
    {
      if counts == map[] {
        forall s | s in statements ensures false {
          Counted(statements, counts, s);
        }
        return None;
      }
      var best := First(counts.Keys);
      SupportedBySome(statements, counts, best);
      var todo := counts.Keys - {best};
      while todo != {}
        invariant best in counts && best !in todo && todo <= counts.Keys
        invariant forall e, x :: e in counts && e !in todo && x in todo ==> e < x
        invariant forall e :: e in counts && e !in todo ==>
                    counts[e] <= counts[best] && (counts[e] == counts[best] ==> best <= e)
      {
        var e := First(todo);
        todo := todo - {e};
        if counts[best] < counts[e] {
          best := e;
        }
      }
      return Some(best);
    }

    /** Drops the statements older than their time to live. */
    method GarbageCollectStatements(now: int, timeToLive: int)
      requires Valid()
      modifies this
      ensures Valid() && statements == Step(old(statements), Collect(now, timeToLive))
    {
      hide Histogram;
      var expiration := now - timeToLive;
      var todo := statements.Keys;
      while todo != {}
        invariant Valid() && todo <= statements.Keys
        invariant statements == map s | s in old(statements) && (s in todo || old(statements)[s].time >= expiration)
                                    :: old(statements)[s]
        decreases |todo|
      {
        var s :| s in todo;
        todo := todo - {s};
        if statements[s].time < expiration {
          RemoveStatement(s);
        }
      }
    }

    /** A whole run. */
    method Run(ops: seq<Op>)
      requires Valid()
      modifies this
      ensures Valid() && statements == AfterAll(old(statements), ops)
    {
      hide Histogram, Step;
      for i := 0 to |ops|
        invariant Valid() && statements == AfterAll(old(statements), ops[..i])
      {
        assert ops[..i + 1][..i] == ops[..i];
        match ops[i] {
          case Add(source, external, now) => var _ := AddEndpointStatement(source, external, now);
          case Collect(now, ttl) => GarbageCollectStatements(now, ttl);
        }
      }
      assert ops[..|ops|] == ops;
    }
  }

  lemma SupportedBy(st: Statements, source: Endpoint, e: Endpoint)
    requires source in st && st[source].external == e
    ensures Support(st, e) >= 1
  {
    assert source in Supporters(st, e);
  }

  lemma SupportedBySome(st: Statements, counts: map<Endpoint, nat>, e: Endpoint)
    requires Histogram(st, counts) && e in counts
    ensures st != map[]
  {
    assert Support(st, e) > 0;
    var s :| s in Supporters(st, e);
  }
}
