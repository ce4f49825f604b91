/**
 ExpirationCacheMap of common/util.hpp: a map beside the queue of its keys, against the plain
 sequence of entries in order of their last refresh, oldest first.
 */
module ExpirationCaches {
  import opened Sequences
  import opened Wrappers
  import opened StatusTable

  datatype CacheOp<K, V> = Put(key: K, value: V) | Refresh(key: K, value: V) | Drop(key: K) | Empty

  /** What an overflow leaves: the entries behind the delete step, or nothing sensible. */
  function Trimmed<T>(max: nat, step: nat, s: seq<T>): Option<seq<T>> {
    if |s| <= max then Some(s) else if step <= |s| then Some(s[step..]) else None
  }

  /** One operation; None is a pop from an empty queue. */
  function CacheStep<K(==), V>(max: nat, step: nat, s: Lru<K, V>, op: CacheOp<K, V>): Option<Lru<K, V>> {
    match op
    case Put(k, v) => if Has(s, k) then Some(s) else Trimmed(max, step, s + [(k, v)])
    case Refresh(k, v) => Trimmed(max, step, WithoutKey(s, k) + [(k, v)])
    case Drop(k) => Some(WithoutKey(s, k))
    case Empty => Some([])
  }

  function CacheRun<K(==), V>(max: nat, step: nat, ops: seq<CacheOp<K, V>>): Option<Lru<K, V>> {
    if ops == [] then Some([])
    else
      var s := CacheRun(max, step, ops[..|ops| - 1]);
      if s.None? then None else CacheStep(max, step, s.value, ops[|ops| - 1])
  }

  /** The delete steps for which the cache works at all. */
  predicate GoodStep(max: nat, step: nat) {
    1 <= step <= max + 1
  }

  /** Map and queue hold the same keys, each key once. */
  ghost predicate Consistent<K, V>(cache: map<K, V>, queue: seq<K>) {
    && Distinct(queue)
    && (forall k :: k in cache ==> k in queue)
    && (forall k :: k in queue ==> k in cache)
  }

  ghost function Entries<K, V>(cache: map<K, V>, queue: seq<K>): (r: Lru<K, V>)
    requires forall k :: k in queue ==> k in cache
    ensures |r| == |queue| && forall i :: 0 <= i < |queue| ==> r[i] == (queue[i], cache[queue[i]])
  {
    seq(|queue|, i requires 0 <= i < |queue| => (queue[i], cache[queue[i]]))
  }

  lemma EntriesDistinct<K, V>(cache: map<K, V>, queue: seq<K>)
    requires Consistent(cache, queue)
    ensures DistinctKeys(Entries(cache, queue))
  {
  }

  lemma HasEntry<K, V>(cache: map<K, V>, queue: seq<K>, k: K)
    requires Consistent(cache, queue)
    ensures Has(Entries(cache, queue), k) <==> k in cache
    ensures Lookup(Entries(cache, queue), k) == if k in cache then Some(cache[k]) else None
  {
    var s := Entries(cache, queue);
    if k in cache {
      var i :| 0 <= i < |queue| && queue[i] == k;
      assert s[i].0 == k;
      EntriesDistinct(cache, queue);
      WithoutKeyAt(s, i);
    } else {
      LookupAbsent(s, k);
    }
  }

  /** Erasing a key from map and queue is erasing its entry. */
  lemma EntriesWithout<K, V>(cache: map<K, V>, queue: seq<K>, k: K)
    requires Consistent(cache, queue)
    ensures Consistent(cache - {k}, Without(queue, k))
    ensures Entries(cache - {k}, Without(queue, k)) == WithoutKey(Entries(cache, queue), k)
  {
    hide Without, WithoutKey;
    var s := Entries(cache, queue);
    if k in queue {
      var i :| 0 <= i < |queue| && queue[i] == k;
      WithoutOne(queue, i);
      DistinctPart(queue, i);
      EntriesDistinct(cache, queue);
      WithoutKeyAt(s, i);
      EntriesSpliced(cache, queue, i);
    } else {
      HasEntry(cache, queue, k);
      WithoutAbsent(s, k);
    }
  }

  lemma EntriesSpliced<K, V>(cache: map<K, V>, queue: seq<K>, i: nat)
    requires Consistent(cache, queue) && i < |queue|
    ensures var t := queue[..i] + queue[i + 1..];
            var s := Entries(cache, queue);
            (forall k :: k in t ==> k in cache - {queue[i]}) && Entries(cache - {queue[i]}, t) == s[..i] + s[i + 1..]
  {
    var t := queue[..i] + queue[i + 1..];
    forall j | 0 <= j < |t| ensures t[j] in cache && t[j] != queue[i] {
      assert t[j] == queue[if j < i then j else j + 1];
    }
  }

  lemma EntriesPopped<K, V>(cache: map<K, V>, queue: seq<K>)
    requires Consistent(cache, queue) && queue != []
    ensures Consistent(cache - {queue[0]}, queue[1..])
    ensures Entries(cache - {queue[0]}, queue[1..]) == Entries(cache, queue)[1..]
  {
    hide Without, WithoutKey, Consistent, Entries, DistinctKeys;
    ConsistentMeans(cache, queue);
    var s := Entries(cache, queue);
    EntriesWithout(cache, queue, queue[0]);
    EntriesDistinct(cache, queue);
    WithoutOne(queue, 0);
    WithoutKeyAt(s, 0);
    assert queue[..0] + queue[0 + 1..] == queue[1..] && s[..0] + s[0 + 1..] == s[1..];
  }

  lemma ConsistentMeans<K, V>(cache: map<K, V>, queue: seq<K>)
    requires Consistent(cache, queue)
    ensures Distinct(queue) && forall k :: k in queue ==> k in cache
  {
  }

  lemma EntriesPushed<K, V>(cache: map<K, V>, queue: seq<K>, k: K, v: V)
    requires Consistent(cache, queue) && k !in cache
    ensures Consistent(cache[k := v], queue + [k])
    ensures Entries(cache[k := v], queue + [k]) == Entries(cache, queue) + [(k, v)]
  {
  }

  lemma {:induction false} SizesAgree<K, V>(cache: map<K, V>, queue: seq<K>)
    requires Consistent(cache, queue)
    ensures |cache| == |queue|
  {
    if queue == [] {
      assert cache == map[];
    } else {
      EntriesPopped(cache, queue);
      SizesAgree(cache - {queue[0]}, queue[1..]);
      assert (cache - {queue[0]}).Keys == cache.Keys - {queue[0]};
    }
  }

  class CacheMap<K(==), V> {
    const max: nat
    const step: nat
    var cache: map<K, V>
    var expiration: seq<K>

    ghost predicate Valid()
      reads this
    {
      GoodStep(max, step) && Consistent(cache, expiration) && |cache| <= max
    }

    /** The entries, oldest refresh first. */
    ghost function Contents(): Lru<K, V>
      reads this
      requires Consistent(cache, expiration)
    {
      Entries(cache, expiration)
    }

    constructor (max: nat, step: nat)
      requires GoodStep(max, step)
      ensures Valid() && Contents() == [] && this.max == max && this.step == step
    {
      this.max, this.step, cache, expiration := max, step, map[], [];
    }

    method EraseOldest()
      requires Consistent(cache, expiration) && step <= |expiration|
      modifies this
      ensures Consistent(cache, expiration) && Contents() == old(Contents())[step..]
    {
      hide Consistent, Entries;
      for i := 0 to step
        invariant Consistent(cache, expiration) && |expiration| == old(|expiration|) - i
        invariant Contents() == old(Contents())[i..]
      {
        EntriesPopped(cache, expiration);
        cache := cache - {expiration[0]};
        expiration := expiration[1..];
      }
    }

    /** Appends a key and makes room. */
    method Push(k: K, v: V)
      requires GoodStep(max, step) && Consistent(cache, expiration) && |cache| <= max && k !in cache
      modifies this
      ensures Valid() && Some(Contents()) == Trimmed(max, step, old(Contents()) + [(k, v)])
    {
      hide Consistent;
      SizesAgree(cache, expiration);
      EntriesPushed(cache, expiration, k, v);
      cache := cache[k := v];
      expiration := expiration + [k];
      SizesAgree(cache, expiration);
      if |cache| > max {
        EraseOldest();
        SizesAgree(cache, expiration);
      }
    }

    method Insert(k: K, v: V) returns (r: bool)
      requires Valid()
      modifies this
      ensures Valid() && Some(Contents()) == CacheStep(max, step, old(Contents()), Put(k, v))
      ensures r == !Has(old(Contents()), k)
    {
      hide Consistent, Trimmed;
      HasEntry(cache, expiration, k);
      if k in cache {
        return false;
      }
      Push(k, v);
      r := true;
    }

    method Update(k: K, v: V)
      requires Valid()
      modifies this
      ensures Valid() && Some(Contents()) == CacheStep(max, step, old(Contents()), Refresh(k, v))
    {
      hide Consistent, Trimmed, WithoutKey, Without;
      Forget(k);
      Push(k, v);
    }

    method Forget(k: K)
      requires Valid()
      modifies this
      ensures Valid() && k !in cache && Contents() == WithoutKey(old(Contents()), k)
    {
      hide Consistent, WithoutKey, Without;
      EntriesWithout(cache, expiration, k);
      SizesAgree(cache, expiration);
      cache := cache - {k};
      expiration := Without(expiration, k);
      SizesAgree(cache, expiration);
    }

    method Erase(k: K)
      requires Valid()
      modifies this
      ensures Valid() && Some(Contents()) == CacheStep(max, step, old(Contents()), Drop(k))
    {
      hide Consistent, WithoutKey, Without;
      Forget(k);
    }

    method Get(k: K) returns (r: Option<V>)
      requires Valid()
      ensures r == Lookup(Contents(), k)
    {
      HasEntry(cache, expiration, k);
      r := if k in cache then Some(cache[k]) else None;
    }

    method Clear()
      requires Valid()
      modifies this
      ensures Valid() && Some(Contents()) == CacheStep(max, step, old(Contents()), CacheOp<K, V>.Empty)
    {
      cache, expiration := map[], [];
    }
  }

  /** Whether an operation refreshes a key. */
  ghost predicate Refreshes<K, V>(s: Option<Lru<K, V>>, op: CacheOp<K, V>, k: K) {
    (op.Refresh? && op.key == k) || (op.Put? && op.key == k && s.Some? && !Has(s.value, k))
  }

  /** The time of the last refresh of a key, counting operations from one, and its value since then. */
  ghost function LastRefresh<K, V>(max: nat, step: nat, ops: seq<CacheOp<K, V>>, k: K): (r: (nat, Option<V>))
    ensures r.0 <= |ops|
  {
    if ops == [] then (0, None)
    else
      var before, op := ops[..|ops| - 1], ops[|ops| - 1];
      if Refreshes(CacheRun(max, step, before), op, k) then (|ops|, Some(op.value))
      else LastRefresh(max, step, before, k)
  }

  /** Each key once, in order of last refresh, with the value given then. */
  ghost predicate ByRefresh<K, V>(max: nat, step: nat, ops: seq<CacheOp<K, V>>, s: Lru<K, V>) {
    && DistinctKeys(s)
    && (forall i, j :: 0 <= i < j < |s| ==> LastRefresh(max, step, ops, s[i].0).0 < LastRefresh(max, step, ops, s[j].0).0)
    && (forall i :: 0 <= i < |s| ==> LastRefresh(max, step, ops, s[i].0).1 == Some(s[i].1))
  }

  lemma RefreshOneMore<K, V>(max: nat, step: nat, before: seq<CacheOp<K, V>>, op: CacheOp<K, V>, k: K)
    ensures LastRefresh(max, step, before + [op], k)
            == if Refreshes(CacheRun(max, step, before), op, k) then (|before| + 1, Some(op.value))
               else LastRefresh(max, step, before, k)
  {
    assert (before + [op])[..|before|] == before;
  }

  /** The entries of all other keys stay in order. */
  lemma OthersStay<K, V>(max: nat, step: nat, before: seq<CacheOp<K, V>>, op: CacheOp<K, V>, s: Lru<K, V>, k: K)
    requires ByRefresh(max, step, before, s) && CacheRun(max, step, before) == Some(s)
    requires op.Empty? || op.key == k
    ensures ByRefresh(max, step, before + [op], WithoutKey(s, k))
  {
    hide CacheRun, LastRefresh, WithoutKey;
    var t, ops := WithoutKey(s, k), before + [op];
    forall i, j | 0 <= i < j < |t|
      ensures t[i].0 != t[j].0 && LastRefresh(max, step, ops, t[i].0).0 < LastRefresh(max, step, ops, t[j].0).0
    {
      var a, b := WithoutIsPart(s, k, i, j);
      RefreshOneMore(max, step, before, op, t[i].0);
      RefreshOneMore(max, step, before, op, t[j].0);
    }
    forall i | 0 <= i < |t| ensures LastRefresh(max, step, ops, t[i].0).1 == Some(t[i].1) {
      var a := WithoutHas(s, k, i);
      RefreshOneMore(max, step, before, op, t[i].0);
    }
  }

  /** The refreshed entry goes to the end. */
  lemma NewestGoesLast<K, V>(max: nat, step: nat, before: seq<CacheOp<K, V>>, op: CacheOp<K, V>, t: Lru<K, V>)
    requires ByRefresh(max, step, before + [op], t)
    requires (op.Put? || op.Refresh?) && Refreshes(CacheRun(max, step, before), op, op.key)
    requires forall i :: 0 <= i < |t| ==> t[i].0 != op.key
    ensures ByRefresh(max, step, before + [op], t + [(op.key, op.value)])
  {
    hide CacheRun, LastRefresh;
    RefreshOneMore(max, step, before, op, op.key);
    forall i | 0 <= i < |t| ensures LastRefresh(max, step, before + [op], t[i].0).0 <= |before| {
      RefreshOneMore(max, step, before, op, t[i].0);
    }
  }

  lemma TrimStaysOrdered<K, V>(max: nat, step: nat, ops: seq<CacheOp<K, V>>, s: Lru<K, V>)
    requires ByRefresh(max, step, ops, s) && |s| <= max + 1 && GoodStep(max, step)
    ensures var t := Trimmed(max, step, s); t.Some? && |t.value| <= max && ByRefresh(max, step, ops, t.value)
  {
    hide LastRefresh;
  }

  lemma CacheStepOrders<K, V>(max: nat, step: nat, before: seq<CacheOp<K, V>>, op: CacheOp<K, V>, s: Lru<K, V>)
    requires GoodStep(max, step) && |s| <= max
    requires ByRefresh(max, step, before, s) && CacheRun(max, step, before) == Some(s)
    ensures var t := CacheStep(max, step, s, op);
            t.Some? && |t.value| <= max && ByRefresh(max, step, before + [op], t.value)
  {
    hide CacheRun, LastRefresh, WithoutKey, ByRefresh, Trimmed, GoodStep;
    match op {
      case Empty =>
        NothingByRefresh(max, step, before + [op]);
      case Drop(k) =>
        OthersStay(max, step, before, op, s, k);
      case Refresh(k, v) =>
        OthersStay(max, step, before, op, s, k);
        WithoutExcludes(s, k);
        NewestGoesLast(max, step, before, op, WithoutKey(s, k));
        TrimStaysOrdered(max, step, before + [op], WithoutKey(s, k) + [(k, v)]);
      case Put(k, v) =>
        if Has(s, k) {
          PutOfCachedStays(max, step, before, op, s);
        } else {
          OthersStay(max, step, before, op, s, k);
          WithoutAbsent(s, k);
          NewestGoesLast(max, step, before, op, s);
          TrimStaysOrdered(max, step, before + [op], s + [(k, v)]);
        }
    }
  }

  lemma NothingByRefresh<K, V>(max: nat, step: nat, ops: seq<CacheOp<K, V>>)
    ensures ByRefresh(max, step, ops, [])
  {
  }

  lemma PutOfCachedStays<K, V>(max: nat, step: nat, before: seq<CacheOp<K, V>>, op: CacheOp<K, V>, s: Lru<K, V>)
    requires ByRefresh(max, step, before, s) && CacheRun(max, step, before) == Some(s)
    requires op.Put? && Has(s, op.key)
    ensures ByRefresh(max, step, before + [op], s)
  {
    hide CacheRun, LastRefresh;
    forall i | 0 <= i < |s|
      ensures LastRefresh(max, step, before + [op], s[i].0) == LastRefresh(max, step, before, s[i].0)
    {
      RefreshOneMore(max, step, before, op, s[i].0);
    }
  }

  /** On every run the queue is the cached keys in order of last refresh, and the size stays within the maximum. */
  lemma {:induction false} CacheRunIsOrdered<K, V>(max: nat, step: nat, ops: seq<CacheOp<K, V>>)
    requires GoodStep(max, step)
    ensures var s := CacheRun(max, step, ops);
            s.Some? && |s.value| <= max && ByRefresh(max, step, ops, s.value)
  {
    hide CacheStep, ByRefresh;
    if ops == [] {
      NothingByRefresh(max, step, ops);
    } else {
      var before, op := ops[..|ops| - 1], ops[|ops| - 1];
      CacheRunIsOrdered(max, step, before);
      CacheStepOrders(max, step, before, op, CacheRun(max, step, before).value);
      assert before + [op] == ops;
    }
  }

  lemma LookupPush<K, V>(s: Lru<K, V>, k: K, v: V, x: K)
    ensures Lookup(s + [(k, v)], x) == if Lookup(s, x).Some? then Lookup(s, x) else if x == k then Some(v) else None
    decreases |s|
  {
    if s == [] {
      assert s + [(k, v)] == [(k, v)];
    } else {
      assert (s + [(k, v)])[1..] == s[1..] + [(k, v)];
      LookupPush(s[1..], k, v, x);
    }
  }

  /** Cutting off the front loses exactly the keys there. */
  lemma {:induction false} LookupSuffix<K, V>(s: Lru<K, V>, m: nat, x: K)
    requires m <= |s| && DistinctKeys(s)
    ensures Lookup(s[m..], x) == if Has(s[..m], x) then None else Lookup(s, x)
  {
    if m == 0 {
      assert s[0..] == s;
    } else {
      assert s[..m][1..] == s[1..][..m - 1] && s[1..][m - 1..] == s[m..];
      LookupSuffix(s[1..], m - 1, x);
      if s[0].0 == x {
        assert s[..m][0].0 == x;
        LookupAbsent(s[m..], x);
      } else if Has(s[..m], x) {
        var i :| 0 <= i < |s[..m]| && s[..m][i].0 == x;
        assert s[1..][..m - 1][i - 1].0 == x;
      }
      var front := s[1..][..m - 1];
      assert forall i :: 0 <= i < |front| ==> front[i] == s[..m][i + 1];
    }
  }

  /** The keys that an overflow costs their places: as many from the front as the delete step says. */
  ghost predicate Overflowed<K, V>(max: nat, step: nat, s: Lru<K, V>, x: K) {
    |s| > max && step <= |s| && Has(s[..step], x)
  }

  lemma TrimmedMeans<K, V>(max: nat, step: nat, s: Lru<K, V>, x: K)
    requires DistinctKeys(s) && (|s| <= max || step <= |s|)
    ensures var t := Trimmed(max, step, s);
            t.Some? && Lookup(t.value, x) == if Overflowed(max, step, s, x) then None else Lookup(s, x)
  {
    hide Lookup, Has;
    if |s| > max {
      LookupSuffix(s, step, x);
    }
  }

  /** The value of a key after an operation, in terms of the values before: only what is written, dropped or overflows changes. */
  ghost function CachedAfter<K, V>(max: nat, step: nat, s: Lru<K, V>, op: CacheOp<K, V>, x: K): Option<V> {
    match op
    case Put(k, v) =>
      if Has(s, k) then Lookup(s, x)
      else if Overflowed(max, step, s + [(k, v)], x) then None
      else if x == k then Some(v) else Lookup(s, x)
    case Refresh(k, v) =>
      if Overflowed(max, step, WithoutKey(s, k) + [(k, v)], x) then None else if x == k then Some(v) else Lookup(s, x)
    case Drop(k) => if x == k then None else Lookup(s, x)
    case Empty => None
  }

  /** What every operation does to the value of every key; a refreshed key is the youngest, so only older ones are lost. */
  lemma CacheStepMeans<K, V>(max: nat, step: nat, s: Lru<K, V>, op: CacheOp<K, V>, x: K)
    requires GoodStep(max, step) && DistinctKeys(s) && |s| <= max
    ensures CacheStep(max, step, s, op).Some?
    ensures Lookup(CacheStep(max, step, s, op).value, x) == CachedAfter(max, step, s, op, x)
  {
    hide Lookup, Has, WithoutKey, Trimmed, Overflowed;
    match op {
      case Put(k, v) =>
        if !Has(s, k) {
          PushedDistinct(s, k, v);
          TrimmedMeans(max, step, s + [(k, v)], x);
          LookupPush(s, k, v, x);
          LookupHas(s, k);
        }
      case Refresh(k, v) =>
        var u := WithoutKey(s, k);
        WithoutDistinct(s, k);
        PushedDistinct(u, k, v);
        TrimmedMeans(max, step, u + [(k, v)], x);
        LookupPush(u, k, v, x);
        LookupWithout(s, k, x);
      case Drop(k) =>
        LookupWithout(s, k, x);
      case Empty =>
        LookupNothing<K, V>(x);
    }
  }

  lemma PushedDistinct<K, V>(s: Lru<K, V>, k: K, v: V)
    requires DistinctKeys(s) && !Has(s, k)
    ensures DistinctKeys(s + [(k, v)])
  {
  }

  lemma WithoutDistinct<K, V>(s: Lru<K, V>, k: K)
    requires DistinctKeys(s)
    ensures DistinctKeys(WithoutKey(s, k)) && !Has(WithoutKey(s, k), k) && |WithoutKey(s, k)| <= |s|
  {
    hide WithoutKey;
    if i :| 0 <= i < |s| && s[i].0 == k {
      WithoutKeyAt(s, i);
      DistinctKeysPart(s, i);
      assert !Has(s[..i] + s[i + 1..], k);
    } else {
      WithoutAbsent(s, k);
    }
  }

  ghost function Puts<K, V>(ks: seq<K>, v: V): (r: seq<CacheOp<K, V>>)
    ensures |r| == |ks|
  {
    if ks == [] then [] else Puts(ks[..|ks| - 1], v) + [Put(ks[|ks| - 1], v)]
  }

  lemma {:induction false} FillingUp<K, V>(max: nat, step: nat, ks: seq<K>, v: V)
    requires |ks| <= max && Distinct(ks)
    ensures var s := CacheRun(max, step, Puts(ks, v));
            s.Some? && |s.value| == |ks| && forall i :: 0 <= i < |ks| ==> s.value[i].0 == ks[i]
  {
    if ks != [] {
      var front, k := ks[..|ks| - 1], ks[|ks| - 1];
      FillingUp(max, step, front, v);
      var s := CacheRun(max, step, Puts(front, v)).value;
      assert forall i :: 0 <= i < |s| ==> s[i].0 == ks[i];
      assert !Has(s, k);
      assert Puts(ks, v)[..|ks| - 1] == Puts(front, v);
    }
  }

  /** The first overflow works exactly for good delete steps; otherwise it exceeds the maximum or empties the queue. */
  lemma OverflowWorksIff<K, V>(max: nat, step: nat, ks: seq<K>, v: V)
    requires |ks| == max + 1 && Distinct(ks)
    ensures var s := CacheRun(max, step, Puts(ks, v)); (s.Some? && |s.value| <= max) <==> GoodStep(max, step)
  {
    var front, k := ks[..max], ks[max];
    FillingUp(max, step, front, v);
    var s := CacheRun(max, step, Puts(front, v)).value;
    assert forall i :: 0 <= i < |s| ==> s[i].0 == ks[i];
    assert !Has(s, k);
    assert Puts(ks, v)[..max] == Puts(front, v);
  }

  /** Any operations on a new cache: the mutable object follows the abstract run and never pops an empty queue. */
  method Execute<K(==), V>(max: nat, step: nat, ops: seq<CacheOp<K, V>>) returns (c: CacheMap<K, V>)
    requires GoodStep(max, step)
    ensures fresh(c) && c.Valid() && CacheRun(max, step, ops) == Some(c.Contents())
  {
    hide Consistent, CacheStep, Entries;
    c := new CacheMap(max, step);
    for i := 0 to |ops|
      invariant c.Valid() && CacheRun(max, step, ops[..i]) == Some(c.Contents())
    {
      assert ops[..i + 1][..i] == ops[..i];
      match ops[i] {
        case Put(k, v) => var _ := c.Insert(k, v);
        case Refresh(k, v) => c.Update(k, v);
        case Drop(k) => c.Erase(k);
        case Empty => c.Clear();
      }
    }
    assert ops[..|ops|] == ops;
  }
}
