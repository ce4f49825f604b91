/**
 StatusTable of common/util.hpp: a map of iterators into a list ordered by use, against the
 plain sequence of an LRU cache, most recently used first.
 */
module StatusTable {
  import opened Wrappers

  type Lru<K, V> = seq<(K, V)>

  predicate Has<K(==), V>(s: Lru<K, V>, k: K) {
    exists i :: 0 <= i < |s| && s[i].0 == k
  }

  ghost predicate DistinctKeys<K, V>(s: Lru<K, V>) {
    forall i, j :: 0 <= i < j < |s| ==> s[i].0 != s[j].0
  }

  /** The entries of all other keys, in order. */
  function WithoutKey<K(==), V>(s: Lru<K, V>, k: K): (r: Lru<K, V>)
    ensures |r| <= |s| && (Has(s, k) ==> |r| < |s|)
  {
    if s == [] then []
    else if s[0].0 == k then WithoutKey(s[1..], k)
    else
      assert Has(s, k) ==> Has(s[1..], k);
      [s[0]] + WithoutKey(s[1..], k)
  }

  /** How many entries an overflow removes: a tenth of the capacity, as a 32-bit signed number. */
  function Batch(capacity: nat): (r: nat)
    ensures r > 0 ==> r < capacity
  {
    var q := capacity / 10 % 0x1_0000_0000;
    if q < 0x8000_0000 then q else 0
  }

  /** A tenth for every capacity below twenty thousand million. */
  lemma BatchIsTenth(capacity: nat)
    requires capacity < 10 * 0x8000_0000
    ensures Batch(capacity) == capacity / 10
  {
  }

  datatype Op<K, V> = Get(key: K) | Insert(key: K, value: V) | Update(key: K, value: V) | Erase(key: K) | Clear

  /** The value of a key, if it has one. */
  function Lookup<K(==), V>(s: Lru<K, V>, k: K): Option<V> {
    if s == [] then None else if s[0].0 == k then Some(s[0].1) else Lookup(s[1..], k)
  }

  function Step<K(==), V>(capacity: nat, s: Lru<K, V>, op: Op<K, V>): Lru<K, V> {
    match op
    case Get(k) => if Lookup(s, k).Some? then [(k, Lookup(s, k).value)] + WithoutKey(s, k) else s
    case Insert(k, v) =>
      if Has(s, k) then s
      else [(k, v)] + if |s| == capacity then s[..|s| - Batch(capacity)] else s
    case Update(k, v) => if Has(s, k) then [(k, v)] + WithoutKey(s, k) else s
    case Erase(k) => WithoutKey(s, k)
    case Clear => []
  }

  /** A list node; its identity is what the map's iterators hold. */
  class Node<K, V> {
    const key: K
    const value: V

    constructor (key: K, value: V)
      ensures this.key == key && this.value == value
    {
      this.key, this.value := key, value;
    }

    function Pair(): (K, V) {
      (key, value)
    }
  }

  ghost function Pairs<K, V>(lru: seq<Node<K, V>>): (r: Lru<K, V>)
    ensures |r| == |lru| && forall i :: 0 <= i < |lru| ==> r[i] == lru[i].Pair()
  {
    seq(|lru|, i requires 0 <= i < |lru| => lru[i].Pair())
  }

  ghost predicate Agree<K, V>(status: map<K, Node<K, V>>, lru: seq<Node<K, V>>) {
    && DistinctKeys(Pairs(lru))
    && (forall i :: 0 <= i < |lru| ==> lru[i].key in status && status[lru[i].key] == lru[i])
    && (forall k :: k in status ==> status[k] in lru && status[k].key == k)
  }

  lemma DistinctKeysPart<K, V>(s: Lru<K, V>, i: nat)
    requires DistinctKeys(s) && i < |s|
    ensures DistinctKeys(s[..i] + s[i + 1..])
  {
    var t := s[..i] + s[i + 1..];
    forall a, b | 0 <= a < b < |t| ensures t[a].0 != t[b].0 {
      assert t[a] == s[if a < i then a else a + 1];
    }
  }

  lemma AgreeUnlinked<K, V>(status: map<K, Node<K, V>>, lru: seq<Node<K, V>>, i: nat)
    requires Agree(status, lru) && i < |lru|
    ensures var lru' := lru[..i] + lru[i + 1..];
            Agree(status - {lru[i].key}, lru') && Pairs(lru') == WithoutKey(Pairs(lru), lru[i].key)
  {
    hide WithoutKey;
    var s, lru' := Pairs(lru), lru[..i] + lru[i + 1..];
    assert s[i].0 == lru[i].key;
    WithoutKeyAt(s, i);
    DistinctKeysPart(s, i);
    assert Pairs(lru') == s[..i] + s[i + 1..];
    var status' := status - {lru[i].key};
    forall j | 0 <= j < |lru'| ensures lru'[j].key in status' && status'[lru'[j].key] == lru'[j] {
      OtherKey(lru, i, j);
    }
    forall k | k in status' ensures status'[k] in lru' && status'[k].key == k {
      var j :| 0 <= j < |lru| && lru[j] == status[k];
      assert lru[j] == lru'[if j < i then j else j - 1];
    }
  }

  lemma OtherKey<K, V>(lru: seq<Node<K, V>>, i: nat, j: nat)
    requires DistinctKeys(Pairs(lru)) && i < |lru| && j < |lru| - 1
    ensures var lru' := lru[..i] + lru[i + 1..]; lru'[j].key != lru[i].key && lru'[j] in lru
  {
    var s, k := Pairs(lru), if j < i then j else j + 1;
    assert (lru[..i] + lru[i + 1..])[j] == lru[k];
    assert s[k].0 == lru[k].key && s[i].0 == lru[i].key;
  }

  lemma AgreePushed<K, V>(status: map<K, Node<K, V>>, lru: seq<Node<K, V>>, n: Node<K, V>)
    requires Agree(status, lru) && n.key !in status
    ensures Agree(status[n.key := n], [n] + lru) && Pairs([n] + lru) == [n.Pair()] + Pairs(lru)
  {
    var s := Pairs(lru);
    assert Pairs([n] + lru) == [n.Pair()] + s;
    assert forall i :: 0 <= i < |s| ==> s[i].0 == lru[i].key;
    var lru', status' := [n] + lru, status[n.key := n];
    forall k | k in status' ensures status'[k] in lru' && status'[k].key == k {
      if k != n.key {
        assert status[k] in lru;
      }
    }
  }

  lemma AgreePopped<K, V>(status: map<K, Node<K, V>>, lru: seq<Node<K, V>>)
    requires Agree(status, lru) && lru != []
    ensures var last := |lru| - 1;
            && lru[last].key in status && Pairs(lru[..last]) == Pairs(lru)[..last]
            && Agree(status - {lru[last].key}, lru[..last])
  {
    hide WithoutKey;
    var last := |lru| - 1;
    AgreeUnlinked(status, lru, last);
    assert lru[..last] + lru[last + 1..] == lru[..last];
  }

  /** The sizes of map and list agree. */
  lemma {:induction false} AgreeCount<K, V>(status: map<K, Node<K, V>>, lru: seq<Node<K, V>>)
    requires Agree(status, lru)
    ensures |status| == |lru|
  {
    if lru == [] {
      assert status == map[];
    } else {
      AgreePopped(status, lru);
      var k := lru[|lru| - 1].key;
      AgreeCount(status - {k}, lru[..|lru| - 1]);
      assert (status - {k}).Keys == status.Keys - {k};
    }
  }

  class Table<K(==), V> {
    const capacity: nat
    var status: map<K, Node<K, V>>
    var lru: seq<Node<K, V>>

    /** Map and list hold the same keys, each key once. */
    ghost predicate Valid()
      reads this
    {
      Agree(status, lru)
    }

    ghost function Contents(): Lru<K, V>
      reads this
    {
      Pairs(lru)
    }

    constructor (capacity: nat)
      ensures Valid() && Contents() == [] && this.capacity == capacity
    {
      this.capacity := capacity;
      status, lru := map[], [];
    }

    /** Unlinks the node of a cached key. */
    method Unlink(k: K)
      requires Valid() && k in status
      modifies this
      ensures Valid() && status == old(status) - {k} && Contents() == WithoutKey(old(Contents()), k)
    {
      hide Pairs, WithoutKey;
      assert status[k] in lru;
      var i :| 0 <= i < |lru| && lru[i] == status[k];
      AgreeUnlinked(status, lru, i);
      lru := lru[..i] + lru[i + 1..];
      status := status - {k};
    }

    /** Puts a new entry in front. */
    method PushFront(k: K, v: V)
      requires Valid() && k !in status
      modifies this
      ensures Valid() && Contents() == [(k, v)] + old(Contents())
      ensures status.Keys == old(status).Keys + {k}
    {
      hide Pairs, Agree;
      var n := new Node(k, v);
      AgreePushed(status, lru, n);
      lru := [n] + lru;
      status := status[k := n];
    }

    lemma Cached(k: K)
      requires Valid()
      ensures k in status <==> Has(Contents(), k)
      ensures k in status <==> Lookup(Contents(), k).Some?
      ensures k in status ==> Lookup(Contents(), k) == Some(status[k].value)
    {
      if k in status {
        var i :| 0 <= i < |lru| && lru[i] == status[k];
        assert Contents()[i].0 == k;
        WithoutKeyAt(Contents(), i);
      } else {
        assert forall i :: 0 <= i < |lru| ==> Contents()[i].0 == lru[i].key && lru[i].key in status;
        LookupAbsent(Contents(), k);
      }
    }

    method Get(k: K) returns (r: Option<V>)
      requires Valid()
      modifies this
      ensures Valid() && Contents() == Step(capacity, old(Contents()), Op.Get(k))
      ensures r == Lookup(old(Contents()), k)
    {
      Cached(k);
      if k !in status {
        return None;
      }
      var v := status[k].value;
      Unlink(k);
      PushFront(k, v);
      r := Some(v);
    }

    method Update(k: K, v: V)
      requires Valid()
      modifies this
      ensures Valid() && Contents() == Step(capacity, old(Contents()), Op.Update(k, v))
    {
      Cached(k);
      if k in status {
        Unlink(k);
        PushFront(k, v);
      }
    }

    /** The source returns false whether or not there was anything to erase. */
    method Erase(k: K) returns (r: bool)
      requires Valid()
      modifies this
      ensures Valid() && Contents() == Step(capacity, old(Contents()), Op.Erase(k)) && !r
    {
      r := false;
      Cached(k);
      if k in status {
        Unlink(k);
      } else {
        WithoutAbsent(Contents(), k);
      }
    }

    /** Drops the least recently used entries of a full table; it never drops the last one. */
    method ClearOldData()
      requires Valid() && |lru| == capacity
      modifies this
      ensures Valid() && Contents() == old(Contents())[..capacity - Batch(capacity)]
      ensures status.Keys <= old(status).Keys
    {
      hide Agree, Pairs;
      var sz := Batch(capacity);
      for i := 0 to sz
        invariant Valid() && |lru| == capacity - i && Contents() == old(Contents())[..capacity - i]
        invariant status.Keys <= old(status).Keys
      {
        AgreePopped(status, lru);
        var k := lru[|lru| - 1].key;
        status := status - {k};
        lru := lru[..|lru| - 1];
        assert lru != [];
      }
    }

    method Insert(k: K, v: V) returns (r: bool)
      requires Valid()
      modifies this
      ensures Valid() && Contents() == Step(capacity, old(Contents()), Op.Insert(k, v))
      ensures r == !Has(old(Contents()), k)
    {
      hide Agree, Batch;
      Cached(k);
      if k in status {
        return false;
      }
      AgreeCount(status, lru);
      if |status| == capacity {
        ClearOldData();
      }
      PushFront(k, v);
      r := true;
    }

    method Clear()
      modifies this
      ensures Valid() && Contents() == Step(capacity, old(Contents()), Op<K, V>.Clear)
    {
      status, lru := map[], [];
    }
  }

  lemma {:induction false} WithoutAbsent<K, V>(s: Lru<K, V>, k: K)
    requires !Has(s, k)
    ensures WithoutKey(s, k) == s
  {
    if s != [] {
      assert s[0].0 != k;
      assert forall i :: 0 <= i < |s[1..]| ==> s[1..][i] == s[i + 1];
      WithoutAbsent(s[1..], k);
    }
  }

  lemma {:induction false} WithoutKeyAt<K, V>(s: Lru<K, V>, i: nat)
    requires DistinctKeys(s) && i < |s|
    ensures WithoutKey(s, s[i].0) == s[..i] + s[i + 1..] && Lookup(s, s[i].0) == Some(s[i].1)
  {
    var k := s[i].0;
    if i == 0 {
      assert !Has(s[1..], k);
      WithoutAbsent(s[1..], k);
    } else {
      assert s[1..][i - 1] == s[i] && s[0].0 != k;
      WithoutKeyAt(s[1..], i - 1);
      assert s[..i] == [s[0]] + s[1..][..i - 1] && s[i + 1..] == s[1..][i..];
    }
  }

  lemma {:induction false} LookupAbsent<K, V>(s: Lru<K, V>, k: K)
    requires !Has(s, k)
    ensures Lookup(s, k) == None
  {
    if s != [] {
      assert s[0].0 != k;
      assert forall i :: 0 <= i < |s[1..]| ==> s[1..][i] == s[i + 1];
      LookupAbsent(s[1..], k);
    }
  }

  ghost function Run<K, V>(capacity: nat, ops: seq<Op<K, V>>): Lru<K, V> {
    if ops == [] then [] else Step(capacity, Run(capacity, ops[..|ops| - 1]), ops[|ops| - 1])
  }

  /** Whether an operation uses a key: a hit, or its insertion. */
  ghost predicate Uses<K, V>(s: Lru<K, V>, op: Op<K, V>, k: K) {
    match op
    case Get(k') => k' == k && Has(s, k)
    case Insert(k', _) => k' == k && !Has(s, k)
    case Update(k', _) => k' == k && Has(s, k)
    case _ => false
  }

  /** The time of the last use of a key, counting operations from one. */
  ghost function LastUse<K, V>(capacity: nat, ops: seq<Op<K, V>>, k: K): (r: nat)
    ensures r <= |ops|
  {
    if ops == [] then 0
    else
      var before, op := ops[..|ops| - 1], ops[|ops| - 1];
      if Uses(Run(capacity, before), op, k) then |ops| else LastUse(capacity, before, k)
  }

  /** The value last written under a key. */
  ghost function LastValue<K, V>(capacity: nat, ops: seq<Op<K, V>>, k: K): Option<V> {
    if ops == [] then None
    else
      var before, op := ops[..|ops| - 1], ops[|ops| - 1];
      if Uses(Run(capacity, before), op, k) && !op.Get? then Some(op.value) else LastValue(capacity, before, k)
  }

  /** Each key once, and more recently used keys in front of less recently used ones. */
  ghost predicate Ordered<K, V>(capacity: nat, ops: seq<Op<K, V>>, s: Lru<K, V>) {
    && DistinctKeys(s)
    && (forall i, j :: 0 <= i < j < |s| ==> LastUse(capacity, ops, s[i].0) > LastUse(capacity, ops, s[j].0))
    && (forall i :: 0 <= i < |s| ==> LastValue(capacity, ops, s[i].0) == Some(s[i].1))
  }

  lemma {:induction false} WithoutIsPart<K, V>(s: Lru<K, V>, k: K, i: nat, j: nat) returns (a: nat, b: nat)
    requires i < j < |WithoutKey(s, k)|
    ensures a < b < |s| && s[a] == WithoutKey(s, k)[i] && s[b] == WithoutKey(s, k)[j]
    ensures s[a].0 != k && s[b].0 != k
  {
    if s[0].0 == k {
      a, b := WithoutIsPart(s[1..], k, i, j);
      a, b := a + 1, b + 1;
    } else if i > 0 {
      a, b := WithoutIsPart(s[1..], k, i - 1, j - 1);
      a, b := a + 1, b + 1;
    } else {
      a := 0;
      b := WithoutHas(s[1..], k, j - 1);
      b := b + 1;
    }
  }

  lemma {:induction false} WithoutHas<K, V>(s: Lru<K, V>, k: K, i: nat) returns (a: nat)
    requires i < |WithoutKey(s, k)|
    ensures a < |s| && s[a] == WithoutKey(s, k)[i] && s[a].0 != k
  {
    if s[0].0 == k {
      a := WithoutHas(s[1..], k, i);
      a := a + 1;
    } else if i == 0 {
      a := 0;
    } else {
      a := WithoutHas(s[1..], k, i - 1);
      a := a + 1;
    }
  }

  lemma Unused<K, V>(capacity: nat, before: seq<Op<K, V>>, op: Op<K, V>, k: K)
    requires !Uses(Run(capacity, before), op, k)
    ensures LastUse(capacity, before + [op], k) == LastUse(capacity, before, k)
    ensures LastValue(capacity, before + [op], k) == LastValue(capacity, before, k)
  {
    assert (before + [op])[..|before|] == before;
  }

  lemma Used<K, V>(capacity: nat, before: seq<Op<K, V>>, op: Op<K, V>, k: K)
    requires Uses(Run(capacity, before), op, k)
    ensures LastUse(capacity, before + [op], k) == |before| + 1
    ensures LastValue(capacity, before + [op], k)
            == if op.Get? then LastValue(capacity, before, k) else Some(op.value)
  {
    assert (before + [op])[..|before|] == before;
  }

  /** What an operation leaves alone stays in order. */
  lemma WithoutStaysOrdered<K, V>(capacity: nat, before: seq<Op<K, V>>, op: Op<K, V>, s: Lru<K, V>, k: K)
    requires Ordered(capacity, before, s) && s == Run(capacity, before)
    requires forall k' :: k' != k ==> !Uses(s, op, k')
    ensures Ordered(capacity, before + [op], WithoutKey(s, k))
  {
    hide Uses, Run, LastUse, LastValue, WithoutKey;
    var t, ops := WithoutKey(s, k), before + [op];
    forall i, j | 0 <= i < j < |t|
      ensures t[i].0 != t[j].0 && LastUse(capacity, ops, t[i].0) > LastUse(capacity, ops, t[j].0)
    {
      var a, b := WithoutIsPart(s, k, i, j);
      Unused(capacity, before, op, t[i].0);
      Unused(capacity, before, op, t[j].0);
    }
    forall i | 0 <= i < |t| ensures LastValue(capacity, ops, t[i].0) == Some(t[i].1) {
      var a := WithoutHas(s, k, i);
      Unused(capacity, before, op, t[i].0);
    }
  }

  lemma PrefixStaysOrdered<K, V>(capacity: nat, before: seq<Op<K, V>>, op: Op<K, V>, s: Lru<K, V>, m: nat)
    requires Ordered(capacity, before, s) && s == Run(capacity, before) && m <= |s|
    requires forall i :: 0 <= i < m ==> !Uses(s, op, s[i].0)
    ensures Ordered(capacity, before + [op], s[..m])
  {
    hide Uses, Run, LastUse, LastValue;
    forall i | 0 <= i < m
      ensures LastUse(capacity, before + [op], s[i].0) == LastUse(capacity, before, s[i].0)
      ensures LastValue(capacity, before + [op], s[i].0) == LastValue(capacity, before, s[i].0)
    {
      Unused(capacity, before, op, s[i].0);
    }
  }

  /** The key just used goes in front. */
  lemma FrontStaysOrdered<K, V>(capacity: nat, before: seq<Op<K, V>>, op: Op<K, V>, t: Lru<K, V>, k: K, v: V)
    requires Ordered(capacity, before + [op], t) && Uses(Run(capacity, before), op, k)
    requires forall i :: 0 <= i < |t| ==> t[i].0 != k && !Uses(Run(capacity, before), op, t[i].0)
    requires v == if op.Get? then v else op.value
    requires op.Get? ==> LastValue(capacity, before, k) == Some(v)
    ensures Ordered(capacity, before + [op], [(k, v)] + t)
  {
    hide Run, LastUse, LastValue;
    Used(capacity, before, op, k);
    forall i | 0 <= i < |t| ensures LastUse(capacity, before + [op], t[i].0) <= |before| {
      Unused(capacity, before, op, t[i].0);
    }
  }

  lemma WithoutExcludes<K, V>(s: Lru<K, V>, k: K)
    ensures forall i :: 0 <= i < |WithoutKey(s, k)| ==> WithoutKey(s, k)[i].0 != k
  {
    hide WithoutKey;
    forall i | 0 <= i < |WithoutKey(s, k)| ensures WithoutKey(s, k)[i].0 != k {
      var a := WithoutHas(s, k, i);
    }
  }

  lemma HasLookup<K, V>(s: Lru<K, V>, k: K) returns (i: nat)
    requires DistinctKeys(s) && Has(s, k)
    ensures i < |s| && s[i].0 == k && Lookup(s, k) == Some(s[i].1)
  {
    i :| 0 <= i < |s| && s[i].0 == k;
    WithoutKeyAt(s, i);
  }

  lemma StepOrders<K, V>(capacity: nat, before: seq<Op<K, V>>, op: Op<K, V>, s: Lru<K, V>)
    requires Ordered(capacity, before, s) && s == Run(capacity, before)
    ensures Ordered(capacity, before + [op], Step(capacity, s, op))
  {
    hide Run, LastUse, LastValue, WithoutKey, Lookup, Ordered, Batch;
    match op {
      case Clear =>
        EmptyIsOrdered(capacity, before + [op]);
      case Erase(k) =>
        WithoutStaysOrdered(capacity, before, op, s, k);
      case Insert(k, v) =>
        InsertOrders(capacity, before, k, v, s);
      case _ =>
        var k := op.key;
        if Has(s, k) {
          HitOrders(capacity, before, op, s);
        } else {
          LookupAbsent(s, k);
          PrefixStaysOrdered(capacity, before, op, s, |s|);
          assert s[..|s|] == s;
        }
    }
  }

  lemma EmptyIsOrdered<K, V>(capacity: nat, ops: seq<Op<K, V>>)
    ensures Ordered(capacity, ops, [])
  {
  }

  lemma HitOrders<K, V>(capacity: nat, before: seq<Op<K, V>>, op: Op<K, V>, s: Lru<K, V>)
    requires Ordered(capacity, before, s) && s == Run(capacity, before)
    requires (op.Get? || op.Update?) && Has(s, op.key)
    ensures Ordered(capacity, before + [op], Step(capacity, s, op))
  {
    hide Run, LastUse, LastValue, WithoutKey, Lookup;
    var k := op.key;
    var i := HasLookup(s, k);
    WithoutStaysOrdered(capacity, before, op, s, k);
    WithoutExcludes(s, k);
    FrontStaysOrdered(capacity, before, op, WithoutKey(s, k), k, if op.Get? then s[i].1 else op.value);
  }

  lemma InsertOrders<K, V>(capacity: nat, before: seq<Op<K, V>>, k: K, v: V, s: Lru<K, V>)
    requires Ordered(capacity, before, s) && s == Run(capacity, before)
    ensures Ordered(capacity, before + [Insert(k, v)], Step(capacity, s, Insert(k, v)))
  {
    hide Run, LastUse, LastValue, WithoutKey, Lookup, Ordered, Batch;
    var op := Insert(k, v);
    if Has(s, k) {
      PrefixStaysOrdered(capacity, before, op, s, |s|);
      assert s[..|s|] == s;
    } else {
      var m := if |s| == capacity then |s| - Batch(capacity) else |s|;
      PrefixStaysOrdered(capacity, before, op, s, m);
      FrontStaysOrdered(capacity, before, op, s[..m], k, v);
      assert m == |s| ==> s[..m] == s;
    }
  }

  /** On every run the list is the cached keys in order of last use, with their last values. */
  lemma {:induction false} RunIsOrdered<K, V>(capacity: nat, ops: seq<Op<K, V>>)
    ensures Ordered(capacity, ops, Run(capacity, ops))
  {
    hide Ordered, Step;
    if ops == [] {
      EmptyIsOrdered(capacity, ops);
    } else {
      var before, op := ops[..|ops| - 1], ops[|ops| - 1];
      RunIsOrdered(capacity, before);
      StepOrders(capacity, before, op, Run(capacity, before));
      assert before + [op] == ops;
    }
  }

  /** With a batch to drop, no run exceeds the capacity. */
  lemma {:induction false} RunIsBounded<K, V>(capacity: nat, ops: seq<Op<K, V>>)
    requires Batch(capacity) > 0
    ensures |Run(capacity, ops)| <= capacity
  {
    hide WithoutKey, Lookup, Batch;
    if ops != [] {
      var before, op := ops[..|ops| - 1], ops[|ops| - 1];
      RunIsBounded(capacity, before);
      RunIsOrdered(capacity, before);
      if op.Get? {
        HitShrinks(Run(capacity, before), op.key);
      }
    }
  }

  lemma HitShrinks<K, V>(s: Lru<K, V>, k: K)
    ensures Lookup(s, k).Some? ==> |WithoutKey(s, k)| < |s|
  {
    if !Has(s, k) {
      LookupAbsent(s, k);
    }
  }

  function Inserts<K, V>(ks: seq<K>, v: V): (r: seq<Op<K, V>>)
    ensures |r| == |ks|
  {
    if ks == [] then [] else Inserts(ks[..|ks| - 1], v) + [Insert(ks[|ks| - 1], v)]
  }

  /** Without one, which is the case for capacities below ten, insertions alone exceed any bound. */
  lemma {:induction false} SmallTablesGrow<K, V>(capacity: nat, ks: seq<K>, v: V)
    requires Batch(capacity) == 0 && forall i, j :: 0 <= i < j < |ks| ==> ks[i] != ks[j]
    ensures var s := Run(capacity, Inserts(ks, v));
            |s| == |ks| && forall i :: 0 <= i < |ks| ==> s[i].0 == ks[|ks| - 1 - i]
  {
    hide Batch, WithoutKey, Lookup, Run, Step;
    if ks == [] {
      NothingRun<K, V>(capacity);
      assert Inserts(ks, v) == [];
    } else {
      var front, k := ks[..|ks| - 1], ks[|ks| - 1];
      SmallTablesGrow(capacity, front, v);
      var s := Run(capacity, Inserts(front, v));
      assert !Has(s, k);
      assert Inserts(ks, v) == Inserts(front, v) + [Insert(k, v)];
      InsertGrows(capacity, Inserts(front, v), k, v);
    }
  }

  lemma NothingRun<K, V>(capacity: nat)
    ensures Run<K, V>(capacity, []) == []
  {
  }

  lemma InsertGrows<K, V>(capacity: nat, ops: seq<Op<K, V>>, k: K, v: V)
    requires Batch(capacity) == 0 && !Has(Run(capacity, ops), k)
    ensures Run(capacity, ops + [Insert(k, v)]) == [(k, v)] + Run(capacity, ops)
  {
    hide Batch, Has;
    assert (ops + [Insert(k, v)])[..|ops|] == ops;
    var s := Run(capacity, ops);
    assert s[..|s|] == s;
  }

  /** An overflow keeps what was used after everything it drops, and drops a batch. */
  lemma OverflowDropsOldest<K, V>(capacity: nat, ops: seq<Op<K, V>>, k: K, v: V)
    requires |Run(capacity, ops)| == capacity && !Has(Run(capacity, ops), k)
    ensures var s, m := Run(capacity, ops), capacity - Batch(capacity);
            && Run(capacity, ops + [Insert(k, v)]) == [(k, v)] + s[..m]
            && forall i, j :: 0 <= i < m <= j < |s| ==> LastUse(capacity, ops, s[i].0) > LastUse(capacity, ops, s[j].0)
  {
    hide LastUse, LastValue;
    assert (ops + [Insert(k, v)])[..|ops|] == ops;
    RunIsOrdered(capacity, ops);
  }

  lemma {:induction false} LookupWithout<K, V>(s: Lru<K, V>, k: K, x: K)
    ensures Lookup(WithoutKey(s, k), x) == if x == k then None else Lookup(s, x)
  {
    if s != [] {
      LookupWithout(s[1..], k, x);
      if s[0].0 != k {
        assert WithoutKey(s, k)[1..] == WithoutKey(s[1..], k);
      }
    }
  }

  lemma LookupCons<K, V>(p: (K, V), s: Lru<K, V>, x: K)
    ensures Lookup([p] + s, x) == if x == p.0 then Some(p.1) else Lookup(s, x)
  {
    assert ([p] + s)[1..] == s;
  }

  lemma {:induction false} LookupHas<K, V>(s: Lru<K, V>, x: K)
    ensures Lookup(s, x).Some? <==> Has(s, x)
  {
    if s != [] {
      LookupHas(s[1..], x);
      if Has(s, x) && s[0].0 != x {
        var i :| 0 <= i < |s| && s[i].0 == x;
        assert s[1..][i - 1].0 == x;
      }
    }
  }

  /** Cutting off the end loses exactly the keys there. */
  lemma {:induction false} LookupPrefix<K, V>(s: Lru<K, V>, m: nat, x: K)
    requires m <= |s| && DistinctKeys(s)
    ensures Lookup(s[..m], x) == if Has(s[m..], x) then None else Lookup(s, x)
  {
    if m == 0 {
      assert s[0..] == s;
      LookupHas(s, x);
    } else {
      assert s[..m][1..] == s[1..][..m - 1] && s[1..][m - 1..] == s[m..];
      LookupPrefix(s[1..], m - 1, x);
      assert forall i :: 0 <= i < |s[m..]| ==> s[m..][i].0 != s[0].0;
    }
  }

  /** The keys an insertion costs their places: a batch from the end of a full table. */
  ghost predicate Evicted<K, V>(capacity: nat, s: Lru<K, V>, x: K) {
    |s| == capacity && Has(s[|s| - Batch(capacity)..], x)
  }

  /** The value of a key after an operation, in terms of the values before: only what is written, erased or evicted changes. */
  ghost function ValueAfter<K, V>(capacity: nat, s: Lru<K, V>, op: Op<K, V>, x: K): Option<V> {
    match op
    case Get(_) => Lookup(s, x)
    case Insert(k, v) =>
      if Has(s, k) then Lookup(s, x) else if x == k then Some(v) else if Evicted(capacity, s, x) then None else Lookup(s, x)
    case Update(k, v) => if x == k && Has(s, k) then Some(v) else Lookup(s, x)
    case Erase(k) => if x == k then None else Lookup(s, x)
    case Clear => None
  }

  /** What every operation does to the value of every key. */
  lemma StepMeans<K, V>(capacity: nat, s: Lru<K, V>, op: Op<K, V>, x: K)
    requires DistinctKeys(s)
    ensures Lookup(Step(capacity, s, op), x) == ValueAfter(capacity, s, op, x)
  {
    hide Lookup, WithoutKey, Has, Batch;
    LookupHas(s, x);
    match op {
      case Get(k) =>
        if Lookup(s, k).Some? {
          LookupCons((k, Lookup(s, k).value), WithoutKey(s, k), x);
          LookupWithout(s, k, x);
        }
      case Insert(k, v) =>
        var m := |s| - Batch(capacity);
        if |s| == capacity {
          LookupPrefix(s, m, x);
          LookupCons((k, v), s[..m], x);
        } else {
          LookupCons((k, v), s, x);
        }
      case Update(k, v) =>
        LookupCons((k, v), WithoutKey(s, k), x);
        LookupWithout(s, k, x);
      case Erase(k) =>
        LookupWithout(s, k, x);
      case Clear =>
        LookupNothing<K, V>(x);
    }
  }

  lemma LookupNothing<K, V>(x: K)
    ensures Lookup<K, V>([], x) == None
  {
  }

  /** Any operations on a new table: the mutable object follows the abstract run. */
  method Execute<K(==), V>(capacity: nat, ops: seq<Op<K, V>>) returns (t: Table<K, V>)
    ensures fresh(t) && t.Valid() && t.Contents() == Run(capacity, ops)
  {
    hide Agree, Step, Pairs;
    t := new Table(capacity);
    for i := 0 to |ops|
      invariant t.Valid() && t.Contents() == Run(capacity, ops[..i])
    {
      assert ops[..i + 1][..i] == ops[..i];
      match ops[i] {
        case Get(k) => var _ := t.Get(k);
        case Insert(k, v) => var _ := t.Insert(k, v);
        case Update(k, v) => t.Update(k, v);
        case Erase(k) => var _ := t.Erase(k);
        case Clear => t.Clear();
      }
    }
    assert ops[..|ops|] == ops;
  }
}
