/**
 ExpirationBlockNumberCache of common/util.hpp with the erase it inherits from ExpirationCache:
 a set of keys beside a queue of keys and block numbers, which forgets keys of old blocks.
 */
module BlockCaches {
  import opened ExpirationCaches
  import opened Sets

  datatype Config = Config(max: nat, step: nat, keep: nat)
  datatype State<K> = State(cache: set<K>, queue: seq<(K, nat)>, last: nat)

  ghost function Keys<K>(queue: seq<(K, nat)>): (r: set<K>)
    ensures forall i :: 0 <= i < |queue| ==> queue[i].0 in r
    ensures forall k :: k in r ==> exists i :: 0 <= i < |queue| && queue[i].0 == k
  {
    set i | 0 <= i < |queue| :: queue[i].0
  }

  predicate TooOld(n: nat, block: nat, keep: nat) {
    block > keep && n < block - keep
  }

  /** Forgets keys from the front of the queue while they are too old. */
  function Expire<K(==)>(s: State<K>, block: nat, keep: nat): State<K>
    decreases |s.queue|
  {
    if s.queue != [] && TooOld(s.queue[0].1, block, keep)
    then Expire(State(s.cache - {s.queue[0].0}, s.queue[1..], s.last), block, keep)
    else s
  }

  /** Forgets the n oldest queue entries, whether or not their keys are still cached. */
  function Pop<K(==)>(s: State<K>, n: nat): State<K>
    requires n <= |s.queue|
    decreases n
  {
    if n == 0 then s else Pop(State(s.cache - {s.queue[0].0}, s.queue[1..], s.last), n - 1)
  }

  /** The cache after a new key was accepted and old ones expired. */
  function Accepted<K(==)>(keep: nat, s: State<K>, k: K, block: nat): State<K> {
    var t := s.(cache := s.cache + {k});
    var u := if block > s.last then Expire(t.(last := block), block, keep) else t;
    u.(queue := u.queue + [(k, block)])
  }

  /** The cache after an insertion: nothing new, or the key accepted and an overflow cut off. */
  function Inserted<K(==)>(c: Config, s: State<K>, k: K, block: nat): State<K> {
    if k in s.cache then s
    else
      var t := Accepted(c.keep, s, k, block);
      if |t.cache| > c.max && c.step <= |t.queue| then Pop(t, c.step) else t
  }

  ghost predicate Covered<K>(c: Config, s: State<K>) {
    GoodStep(c.max, c.step) && s.cache <= Keys(s.queue)
  }

  class BlockCache<K(==)> {
    const max: nat
    const step: nat
    const keep: nat
    var cache: set<K>
    var queue: seq<(K, nat)>
    var last: nat

    ghost function Value(): State<K>
      reads this
    {
      State(cache, queue, last)
    }

    ghost function Limits(): Config {
      Config(max, step, keep)
    }

    constructor (max: nat, step: nat, keep: nat)
      requires GoodStep(max, step)
      ensures Value() == State({}, [], 0) && Limits() == Config(max, step, keep)
    {
      this.max, this.step, this.keep, cache, queue, last := max, step, keep, {}, [], 0;
    }

    method ExpireOld(block: nat)
      modifies this
      ensures Value() == Expire(old(Value()), block, keep)
    {
      while |queue| > 0 && TooOld(queue[0].1, block, keep)
        invariant Expire(old(Value()), block, keep) == Expire(Value(), block, keep)
        decreases |queue|
      {
        cache := cache - {queue[0].0};
        queue := queue[1..];
      }
    }

    method EraseOldest()
      requires step <= |queue|
      modifies this
      ensures Value() == Pop(old(Value()), step)
    {
      for i := 0 to step
        invariant |queue| == old(|queue|) - i
        invariant Pop(old(Value()), step) == Pop(Value(), step - i)
      {
        cache := cache - {queue[0].0};
        queue := queue[1..];
      }
    }

    method Insert(k: K, block: nat) returns (r: bool)
      requires Covered(Limits(), Value())
      modifies this
      ensures r == (k !in old(cache)) && Covered(Limits(), Value())
      ensures Value() == Inserted(Limits(), old(Value()), k, block)
    {
      if k in cache {
        return false;
      }
      cache := cache + {k};
      if block > last {
        last := block;
        ExpireOld(block);
      }
      queue := queue + [(k, block)];
      r := true;
      AcceptedIsCovered(Limits(), old(Value()), k, block);
      assert Value() == Accepted(keep, old(Value()), k, block);
      if |cache| > max {
        CoveredSize(cache, queue);
        PopIsCovered(Limits(), Value(), step);
        EraseOldest();
      }
    }

    /** Inherited: the queue keeps its entry. */
    method Erase(k: K)
      requires Covered(Limits(), Value())
      modifies this
      ensures Covered(Limits(), Value()) && Value() == old(Value()).(cache := old(cache) - {k})
    {
      cache := cache - {k};
    }

    method Clear()
      requires Covered(Limits(), Value())
      modifies this
      ensures Covered(Limits(), Value()) && Value() == State({}, [], old(last))
    {
      cache, queue := {}, [];
    }
  }

  lemma KeysSplit<K>(queue: seq<(K, nat)>)
    requires queue != []
    ensures Keys(queue) == {queue[0].0} + Keys(queue[1..])
  {
  }

  lemma {:induction false} ExpireIsCovered<K>(s: State<K>, k: K, block: nat, keep: nat)
    requires s.cache - {k} <= Keys(s.queue)
    ensures Expire(s, block, keep).cache - {k} <= Keys(Expire(s, block, keep).queue)
    decreases |s.queue|
  {
    if s.queue != [] && TooOld(s.queue[0].1, block, keep) {
      KeysSplit(s.queue);
      forall x | x in s.cache - {s.queue[0].0} - {k} ensures x in Keys(s.queue[1..]) {
        assert x in s.cache - {k};
      }
      ExpireIsCovered(State(s.cache - {s.queue[0].0}, s.queue[1..], s.last), k, block, keep);
    }
  }

  lemma {:induction false} PopIsCovered<K>(c: Config, s: State<K>, n: nat)
    requires Covered(c, s) && n <= |s.queue|
    ensures Covered(c, Pop(s, n))
    decreases n
  {
    if n > 0 {
      KeysSplit(s.queue);
      PopIsCovered(c, State(s.cache - {s.queue[0].0}, s.queue[1..], s.last), n - 1);
    }
  }

  lemma AcceptedIsCovered<K>(c: Config, s: State<K>, k: K, block: nat)
    requires Covered(c, s)
    ensures Covered(c, Accepted(c.keep, s, k, block))
  {
    var t := s.(cache := s.cache + {k});
    var u := if block > s.last then Expire(t.(last := block), block, c.keep) else t;
    if block > s.last {
      ExpireIsCovered(t.(last := block), k, block, c.keep);
    }
    KeysPush(u.queue, k, block);
  }

  lemma KeysPush<K>(queue: seq<(K, nat)>, k: K, block: nat)
    ensures Keys(queue + [(k, block)]) == Keys(queue) + {k}
  {
    var q := queue + [(k, block)];
    assert q[|queue|].0 == k;
    assert forall i :: 0 <= i < |queue| ==> q[i] == queue[i];
  }

  /** Covered keys need as many queue entries. */
  lemma {:induction false} CoveredSize<K>(cache: set<K>, queue: seq<(K, nat)>)
    requires cache <= Keys(queue)
    ensures |cache| <= |queue|
    decreases queue
  {
    if queue != [] {
      KeysSplit(queue);
      CoveredSize(cache - {queue[0].0}, queue[1..]);
    }
  }

  /** The queue holds each cached key once, by block number, none of a block out of the window. */
  ghost predicate Sound<K>(c: Config, s: State<K>) {
    && GoodStep(c.max, c.step) && |s.cache| <= c.max
    && s.cache == Keys(s.queue) && Ranked(s.queue) && Within(s.queue, s.last, c.keep)
  }

  ghost predicate Within<K>(queue: seq<(K, nat)>, last: nat, keep: nat) {
    forall i :: 0 <= i < |queue| ==> queue[i].1 <= last <= queue[i].1 + keep
  }

  ghost predicate Ranked<K>(queue: seq<(K, nat)>) {
    forall i, j :: 0 <= i < j < |queue| ==> queue[i].0 != queue[j].0 && queue[i].1 <= queue[j].1
  }

  /** The entries that are not too old. */
  ghost function Recent<K>(queue: seq<(K, nat)>, block: nat, keep: nat): (r: seq<(K, nat)>)
    ensures forall x :: x in r ==> x in queue && block <= x.1 + keep
    ensures forall x :: x in queue && block <= x.1 + keep ==> x in r
  {
    if queue == [] then []
    else if TooOld(queue[0].1, block, keep) then Recent(queue[1..], block, keep)
    else [queue[0]] + Recent(queue[1..], block, keep)
  }

  lemma {:induction false} AllRecent<K>(queue: seq<(K, nat)>, block: nat, keep: nat)
    requires forall i :: 0 <= i < |queue| ==> !TooOld(queue[i].1, block, keep)
    ensures Recent(queue, block, keep) == queue
  {
    if queue != [] {
      AllRecent(queue[1..], block, keep);
    }
  }

  lemma TailIsRanked<K>(queue: seq<(K, nat)>)
    requires Ranked(queue) && queue != []
    ensures Ranked(queue[1..]) && queue[0].0 !in Keys(queue[1..])
    ensures forall i :: 0 <= i < |queue| ==> queue[0].1 <= queue[i].1
  {
  }

  /** On a ranked queue the loop over its front forgets exactly the keys that are too old. */
  lemma {:induction false} ExpireFilters<K>(s: State<K>, k: K, block: nat, keep: nat)
    requires Ranked(s.queue) && k !in Keys(s.queue) && s.cache == Keys(s.queue) + {k}
    ensures var t := Expire(s, block, keep);
            && t.queue == Recent(s.queue, block, keep) && t.last == s.last
            && t.cache == Keys(t.queue) + {k} && Ranked(t.queue) && k !in Keys(t.queue)
    decreases |s.queue|
  {
    if s.queue != [] {
      TailIsRanked(s.queue);
      if TooOld(s.queue[0].1, block, keep) {
        KeysSplit(s.queue);
        ExpireFilters(State(s.cache - {s.queue[0].0}, s.queue[1..], s.last), k, block, keep);
      } else {
        AllRecent(s.queue, block, keep);
      }
    }
  }

  /** The state after an insertion with a rising block number, before any overflow. */
  lemma AcceptedIsSound<K>(c: Config, s: State<K>, k: K, block: nat)
    requires Sound(c, s) && k !in s.cache && s.last <= block
    ensures var t := Accepted(c.keep, s, k, block);
            && t.last == block && t.queue == Recent(s.queue, block, c.keep) + [(k, block)]
            && t.cache == Keys(t.queue) && Ranked(t.queue) && |t.cache| <= c.max + 1
            && Within(t.queue, block, c.keep)
  {
    hide Expire, Recent, Keys, Ranked, Within;
    var t, r := s.(cache := s.cache + {k}, last := block), Recent(s.queue, block, c.keep);
    if block > s.last {
      ExpireFilters(t, k, block, c.keep);
    } else {
      WithinRecent(s.queue, block, c.keep);
    }
    KeysPush(r, k, block);
    RecentMeans(s.queue, r, s.last, block, c.keep);
    RankedPush(r, k, block, c.keep);
    SubsetSize(Keys(r), s.cache);
  }

  lemma WithinRecent<K>(queue: seq<(K, nat)>, block: nat, keep: nat)
    requires Within(queue, block, keep)
    ensures Recent(queue, block, keep) == queue
  {
    AllRecent(queue, block, keep);
  }

  lemma RecentMeans<K>(queue: seq<(K, nat)>, r: seq<(K, nat)>, last: nat, block: nat, keep: nat)
    requires r == Recent(queue, block, keep) && Within(queue, last, keep) && last <= block
    ensures Within(r, block, keep) && Keys(r) <= Keys(queue)
  {
    hide Recent;
    forall i | 0 <= i < |r| ensures r[i] in queue && !TooOld(r[i].1, block, keep) {
    }
  }

  lemma RankedPush<K>(r: seq<(K, nat)>, k: K, block: nat, keep: nat)
    requires Ranked(r) && k !in Keys(r) && Within(r, block, keep)
    ensures Ranked(r + [(k, block)]) && Within(r + [(k, block)], block, keep)
  {
  }

  lemma {:induction false} PopIsExact<K>(s: State<K>, n: nat)
    requires s.cache == Keys(s.queue) && Ranked(s.queue) && n <= |s.queue|
    ensures var t := Pop(s, n);
            && t.queue == s.queue[n..] && t.last == s.last
            && t.cache == Keys(t.queue) && |t.cache| == |s.cache| - n && Ranked(t.queue)
    decreases n
  {
    hide Keys, Ranked;
    if n == 0 {
      assert s.queue[0..] == s.queue;
    } else {
      var t := State(s.cache - {s.queue[0].0}, s.queue[1..], s.last);
      PopOne(s, t);
      PopIsExact(t, n - 1);
      assert s.queue[1..][n - 1..] == s.queue[n..];
    }
  }

  lemma WithinDrop<K>(queue: seq<(K, nat)>, last: nat, keep: nat, n: nat)
    requires Within(queue, last, keep) && n <= |queue|
    ensures Within(queue[n..], last, keep)
  {
  }

  lemma PopOne<K>(s: State<K>, t: State<K>)
    requires s.cache == Keys(s.queue) && Ranked(s.queue) && s.queue != []
    requires t == State(s.cache - {s.queue[0].0}, s.queue[1..], s.last)
    ensures t.cache == Keys(t.queue) && |t.cache| == |s.cache| - 1 && Ranked(t.queue)
  {
    KeysSplit(s.queue);
    TailIsRanked(s.queue);
  }

  /** An insertion with a block number not below the last one keeps the window and the maximum. */
  lemma InsertedIsSound<K>(c: Config, s: State<K>, k: K, block: nat)
    requires Sound(c, s) && s.last <= block
    ensures var t := Inserted(c, s, k, block);
            Sound(c, t) && (t.last == s.last || t.last == block)
  {
    hide Accepted, Recent, Keys, Ranked, Within, Pop;
    if k !in s.cache {
      var t := Accepted(c.keep, s, k, block);
      AcceptedIsSound(c, s, k, block);
      if |t.cache| > c.max {
        CoveredSize(t.cache, t.queue);
        PopIsExact(t, c.step);
        WithinDrop(t.queue, t.last, c.keep, c.step);
      }
    }
  }

  datatype BlockOp<K> = InsertAt(key: K, block: nat) | EraseKey(key: K) | ClearAll

  function BlockStep<K(==)>(c: Config, s: State<K>, op: BlockOp<K>): State<K> {
    match op
    case InsertAt(k, block) => Inserted(c, s, k, block)
    case EraseKey(k) => s.(cache := s.cache - {k})
    case ClearAll => State({}, [], s.last)
  }

  ghost function RunBlocks<K>(c: Config, ops: seq<BlockOp<K>>): State<K> {
    if ops == [] then State({}, [], 0)
    else BlockStep(c, RunBlocks(c, ops[..|ops| - 1]), ops[|ops| - 1])
  }

  /** Nothing is erased and block numbers never fall. */
  ghost predicate Rising<K>(ops: seq<BlockOp<K>>) {
    && (forall i :: 0 <= i < |ops| ==> !ops[i].EraseKey?)
    && (forall i, j :: 0 <= i < j < |ops| && ops[i].InsertAt? && ops[j].InsertAt? ==> ops[i].block <= ops[j].block)
  }

  /** On such runs no cached key is older than the last block less the window, and the size stays within the maximum. */
  lemma {:induction false} RunIsSound<K>(c: Config, ops: seq<BlockOp<K>>)
    requires GoodStep(c.max, c.step) && Rising(ops)
    ensures var s := RunBlocks(c, ops); Sound(c, s) && LastAmong(ops, s.last)
  {
    hide Inserted;
    if ops != [] {
      var before, op := ops[..|ops| - 1], ops[|ops| - 1];
      assert forall i :: 0 <= i < |before| ==> before[i] == ops[i];
      RunIsSound(c, before);
      if op.InsertAt? {
        InsertedIsSound(c, RunBlocks(c, before), op.key, op.block);
      }
    }
  }

  /** The last block is zero or that of some insertion. */
  ghost predicate LastAmong<K>(ops: seq<BlockOp<K>>, last: nat) {
    last == 0 || exists i :: 0 <= i < |ops| && ops[i].InsertAt? && ops[i].block == last
  }

  /** No queued key is of a block out of the window; a key that was erased may still be queued. */
  ghost predicate InWindow<K>(s: State<K>, keep: nat) {
    forall i :: 0 <= i < |s.queue| ==> s.last <= s.queue[i].1 + keep
  }

  ghost predicate NoneTooOld<K>(queue: seq<(K, nat)>, block: nat, keep: nat) {
    forall i :: 0 <= i < |queue| ==> !TooOld(queue[i].1, block, keep)
  }

  /** No key that is too old stands behind one that is not. */
  ghost predicate OldOnesFirst<K>(queue: seq<(K, nat)>, block: nat, keep: nat) {
    forall i, j :: 0 <= i < j < |queue| && TooOld(queue[j].1, block, keep) ==> TooOld(queue[i].1, block, keep)
  }

  /** The loop over the front reaches every key that is too old exactly if none of them stands behind another one. */
  lemma {:induction false} ExpireReachesIff<K>(s: State<K>, block: nat, keep: nat)
    ensures NoneTooOld(Expire(s, block, keep).queue, block, keep) <==> OldOnesFirst(s.queue, block, keep)
    decreases |s.queue|
  {
    if s.queue == [] {
    } else if TooOld(s.queue[0].1, block, keep) {
      var t := State(s.cache - {s.queue[0].0}, s.queue[1..], s.last);
      ExpireReachesIff(t, block, keep);
      assert Expire(s, block, keep) == Expire(t, block, keep);
      TailOldOnesFirst(s.queue, block, keep);
    } else {
      assert forall j :: 0 < j < |s.queue| && TooOld(s.queue[j].1, block, keep) ==> !OldOnesFirst(s.queue, block, keep);
    }
  }

  lemma TailOldOnesFirst<K>(queue: seq<(K, nat)>, block: nat, keep: nat)
    requires queue != [] && TooOld(queue[0].1, block, keep)
    ensures OldOnesFirst(queue[1..], block, keep) <==> OldOnesFirst(queue, block, keep)
  {
    var tail := queue[1..];
    assert forall i :: 0 <= i < |tail| ==> tail[i] == queue[i + 1];
    if OldOnesFirst(queue, block, keep) {
      forall i, j | 0 <= i < j < |tail| && TooOld(tail[j].1, block, keep) ensures TooOld(tail[i].1, block, keep) {
        assert TooOld(queue[j + 1].1, block, keep);
      }
    }
    if OldOnesFirst(tail, block, keep) {
      forall i, j | 0 <= i < j < |queue| && TooOld(queue[j].1, block, keep) ensures TooOld(queue[i].1, block, keep) {
        if i > 0 {
          assert TooOld(tail[j - 1].1, block, keep) && tail[i - 1] == queue[i];
        }
      }
    }
  }

  lemma ExpireKeepsLast<K>(s: State<K>, block: nat, keep: nat)
    ensures Expire(s, block, keep).last == s.last
    decreases |s.queue|
  {
  }

  /**
   From any state whatsoever, as long as nothing overflows: a new key of a later block leaves the
   queue in the window exactly if no key that is now too old stands behind one that is not; a key of
   an earlier one exactly if the queue was in the window and that block is in it.
   */
  lemma WindowKeptIff<K>(keep: nat, s: State<K>, k: K, block: nat)
    ensures InWindow(Accepted(keep, s, k, block), keep)
            <==> if block > s.last then OldOnesFirst(s.queue, block, keep)
                 else InWindow(s, keep) && s.last <= block + keep
  {
    var t := s.(cache := s.cache + {k}, last := block);
    var a := Accepted(keep, s, k, block);
    if block > s.last {
      hide Expire, OldOnesFirst;
      ExpireReachesIff(t, block, keep);
      ExpireKeepsLast(t, block, keep);
      var q := Expire(t, block, keep).queue;
      assert a.queue == q + [(k, block)];
      WindowPush(q, k, block, keep);
    } else {
      assert a.queue == s.queue + [(k, block)] && a.queue[|s.queue|] == (k, block);
      assert forall i :: 0 <= i < |s.queue| ==> a.queue[i] == s.queue[i];
    }
  }

  lemma WindowPush<K>(q: seq<(K, nat)>, k: K, block: nat, keep: nat)
    ensures var r := q + [(k, block)];
            (forall i :: 0 <= i < |r| ==> block <= r[i].1 + keep)
            <==> NoneTooOld(q, block, keep)
  {
    var r := q + [(k, block)];
    assert forall i :: 0 <= i < |q| ==> r[i] == q[i];
    forall i | 0 <= i < |q| ensures block <= r[i].1 + keep <==> !TooOld(q[i].1, block, keep) {
    }
  }

  /** The loop forgets the longest run of entries at the front that are out of the window, and their keys with them. */
  lemma {:induction false} ExpireIs<K>(s: State<K>, block: nat, keep: nat) returns (m: nat)
    ensures m <= |s.queue| && (forall i :: 0 <= i < m ==> s.queue[i].1 + keep < block)
    ensures m < |s.queue| ==> block <= s.queue[m].1 + keep
    ensures Expire(s, block, keep) == State(s.cache - Keys(s.queue[..m]), s.queue[m..], s.last)
    decreases |s.queue|
  {
    if s.queue != [] && TooOld(s.queue[0].1, block, keep) {
      hide Keys;
      var t := State(s.cache - {s.queue[0].0}, s.queue[1..], s.last);
      m := ExpireIs(t, block, keep);
      m := m + 1;
      assert s.queue[1..][m - 1..] == s.queue[m..] && s.queue[..m][1..] == s.queue[1..][..m - 1];
      KeysSplit(s.queue[..m]);
    } else {
      m := 0;
      assert s.queue[0..] == s.queue && Keys(s.queue[..0]) == {};
    }
  }

  /** No queued key that is also cached is of a block out of the window. */
  ghost predicate CachedInWindow<K>(s: State<K>, keep: nat) {
    forall i :: 0 <= i < |s.queue| && s.queue[i].0 in s.cache ==> s.last <= s.queue[i].1 + keep
  }

  lemma {:induction false} PopIs<K>(s: State<K>, n: nat)
    requires n <= |s.queue|
    ensures Pop(s, n) == State(s.cache - Keys(s.queue[..n]), s.queue[n..], s.last)
    decreases n
  {
    if n == 0 {
      assert s.queue[0..] == s.queue && Keys(s.queue[..0]) == {};
    } else {
      hide Keys;
      var t := State(s.cache - {s.queue[0].0}, s.queue[1..], s.last);
      PopIs(t, n - 1);
      assert s.queue[1..][n - 1..] == s.queue[n..] && s.queue[..n][1..] == s.queue[1..][..n - 1];
      KeysSplit(s.queue[..n]);
    }
  }

  /** How many entries an overflow removes. */
  function Overflow<K>(c: Config, t: State<K>): nat {
    if |t.cache| > c.max then c.step else 0
  }

  /**
   A whole insertion, overflow included: the queue is in the window exactly if every entry of the
   accepted queue behind those that the overflow removes is, and the cached keys are exactly if
   every such entry is whose key stays cached.
   */
  lemma InsertedInWindowIff<K>(c: Config, s: State<K>, k: K, block: nat)
    requires Covered(c, s) && k !in s.cache
    ensures var t := Accepted(c.keep, s, k, block);
            var n := Overflow(c, t);
            && n <= |t.queue|
            && (InWindow(Inserted(c, s, k, block), c.keep)
                <==> forall i :: n <= i < |t.queue| ==> t.last <= t.queue[i].1 + c.keep)
            && (CachedInWindow(Inserted(c, s, k, block), c.keep)
                <==> forall i :: n <= i < |t.queue| && t.queue[i].0 in t.cache - Keys(t.queue[..n]) ==>
                       t.last <= t.queue[i].1 + c.keep)
  {
    hide Accepted, Keys, Pop;
    var t := Accepted(c.keep, s, k, block);
    var n := Overflow(c, t);
    AcceptedIsCovered(c, s, k, block);
    CoveredSize(t.cache, t.queue);
    PopIs(t, n);
    PopNothing(t);
    var u := Inserted(c, s, k, block);
    assert u == State(t.cache - Keys(t.queue[..n]), t.queue[n..], t.last);
    assert forall i :: n <= i < |t.queue| ==> t.queue[i] == u.queue[i - n];
    assert forall i :: 0 <= i < |u.queue| ==> u.queue[i] == t.queue[i + n];
  }

  lemma PopNothing<K>(s: State<K>)
    ensures Pop(s, 0) == s
  {
  }

  /** An overflow can bring the window back: the key of block 8 that falls out of it is popped at once. */
  lemma OverflowRestoresWindow(c: Config, s: State<nat>)
    requires c == Config(2, 2, 5) && s == State({1, 2}, [(1, 10), (2, 8)], 10)
    ensures !InWindow(Accepted(c.keep, s, 3, 14), c.keep) && InWindow(Inserted(c, s, 3, 14), c.keep)
  {
    hide Pop;
    var t := Accepted(c.keep, s, 3, 14);
    assert t == State({1, 2, 3}, [(1, 10), (2, 8), (3, 14)], 14);
    assert !InWindow(t, 5) by {
      assert t.queue[1] == (2, 8);
    }
    PopIs(t, 2);
  }

  lemma RunOneMore<K>(c: Config, ops: seq<BlockOp<K>>, op: BlockOp<K>)
    ensures RunBlocks(c, ops + [op]) == BlockStep(c, RunBlocks(c, ops), op)
  {
    assert (ops + [op])[..|ops|] == ops;
  }

  /** A fall within the window is enough to lose track: the key of block 8 outlives block 14 less 5. */
  lemma FallingBlocksHideOldKeys<K>(c: Config, x: K, y: K, z: K)
    requires x != y && y != z && x != z && c.keep == 5 && c.max >= 3
    ensures var s := RunBlocks(c, [InsertAt(x, 10)] + [InsertAt(y, 8)] + [InsertAt(z, 14)]);
            s == State({x, y, z}, [(x, 10), (y, 8), (z, 14)], 14)
  {
    hide RunBlocks;
    RunFromStart<K>(c);
    RunOneMore(c, [], InsertAt(x, 10));
    RunOneMore(c, [InsertAt(x, 10)], InsertAt(y, 8));
    RunOneMore(c, [InsertAt(x, 10)] + [InsertAt(y, 8)], InsertAt(z, 14));
    assert [] + [InsertAt(x, 10)] == [InsertAt(x, 10)];
    assert Inserted(c, State({}, [], 0), x, 10) == State({x}, [(x, 10)], 10);
    assert Inserted(c, State({x}, [(x, 10)], 10), y, 8) == State({x, y}, [(x, 10), (y, 8)], 10);
    assert Inserted(c, State({x, y}, [(x, 10), (y, 8)], 10), z, 14) == State({x, y, z}, [(x, 10), (y, 8), (z, 14)], 14);
  }

  lemma RunFromStart<K>(c: Config)
    ensures RunBlocks<K>(c, []) == State({}, [], 0)
  {
  }

  /** With erase in the run the maximum fails: its queue entry is all that the overflow removes. */
  lemma EraseBreaksMaximum<K>(c: Config, x: K, y: K, z: K)
    requires x != y && y != z && x != z && c == Config(1, 1, c.keep)
    ensures var s := RunBlocks(c, [InsertAt(x, 0)] + [EraseKey(x)] + [InsertAt(y, 0)] + [InsertAt(z, 0)]);
            s == State({y, z}, [(y, 0), (z, 0)], 0) && |s.cache| > c.max
  {
    hide RunBlocks, Inserted;
    RunFromStart<K>(c);
    OverflowPopsErased(c, x, y, z);
    RunOneMore(c, [], InsertAt(x, 0));
    RunOneMore(c, [InsertAt(x, 0)], EraseKey(x));
    RunOneMore(c, [InsertAt(x, 0)] + [EraseKey(x)], InsertAt(y, 0));
    RunOneMore(c, [InsertAt(x, 0)] + [EraseKey(x)] + [InsertAt(y, 0)], InsertAt(z, 0));
    assert [] + [InsertAt(x, 0)] == [InsertAt(x, 0)];
    assert {x} - {x} == {};
  }

  lemma OverflowPopsErased<K>(c: Config, x: K, y: K, z: K)
    requires x != y && y != z && x != z && c == Config(1, 1, c.keep)
    ensures Inserted(c, State({}, [], 0), x, 0) == State({x}, [(x, 0)], 0)
    ensures Inserted(c, State({}, [(x, 0)], 0), y, 0) == State({y}, [(x, 0), (y, 0)], 0)
    ensures Inserted(c, State({y}, [(x, 0), (y, 0)], 0), z, 0) == State({y, z}, [(y, 0), (z, 0)], 0)
  {
    PopFirst(State({y, z}, [(x, 0), (y, 0), (z, 0)], 0));
    assert Inserted(c, State({y}, [(x, 0), (y, 0)], 0), z, 0) == State({y, z}, [(y, 0), (z, 0)], 0);
  }

  lemma PopFirst<K>(s: State<K>)
    requires s.queue != []
    ensures Pop(s, 1) == State(s.cache - {s.queue[0].0}, s.queue[1..], s.last)
  {
  }

  /** In general an overflow by one is undone exactly when one of the entries it removes is still cached. */
  lemma {:induction false} OverflowUndoneIff<K>(s: State<K>, n: nat)
    requires n <= |s.queue|
    ensures |Pop(s, n).cache| <= |s.cache|
    ensures |Pop(s, n).cache| < |s.cache| <==> exists i :: 0 <= i < n && s.queue[i].0 in s.cache
    decreases n
  {
    if n > 0 {
      var t := State(s.cache - {s.queue[0].0}, s.queue[1..], s.last);
      OverflowUndoneIff(t, n - 1);
      if s.queue[0].0 !in s.cache {
        assert t.cache == s.cache;
        if i :| 0 <= i < n && s.queue[i].0 in s.cache {
          assert t.queue[i - 1].0 in t.cache;
        }
      }
    }
  }

  lemma AcceptedSize<K>(keep: nat, s: State<K>, k: K, block: nat)
    ensures |Accepted(keep, s, k, block).cache| <= |s.cache| + 1
  {
    var t := s.(cache := s.cache + {k}, last := block);
    ExpireShrinks(t, block, keep);
  }

  lemma {:induction false} ExpireShrinks<K>(s: State<K>, block: nat, keep: nat)
    ensures |Expire(s, block, keep).cache| <= |s.cache|
    decreases |s.queue|
  {
    if s.queue != [] && TooOld(s.queue[0].1, block, keep) {
      var t := State(s.cache - {s.queue[0].0}, s.queue[1..], s.last);
      SubsetSize(t.cache, s.cache);
      ExpireShrinks(t, block, keep);
    }
  }

  /**
   Also with erased keys in the queue: an insertion stays within the maximum exactly if it did not
   exceed it in the first place or one of the entries the overflow removes is still cached.
   */
  lemma MaximumKeptIff<K>(c: Config, s: State<K>, k: K, block: nat)
    requires Covered(c, s) && |s.cache| <= c.max && k !in s.cache
    ensures var t := Accepted(c.keep, s, k, block);
            |Inserted(c, s, k, block).cache| <= c.max
            <==> |t.cache| <= c.max || exists i :: 0 <= i < c.step && i < |t.queue| && t.queue[i].0 in t.cache
  {
    hide Accepted, Keys, Pop;
    var t := Accepted(c.keep, s, k, block);
    AcceptedSize(c.keep, s, k, block);
    AcceptedIsCovered(c, s, k, block);
    if |t.cache| > c.max {
      CoveredSize(t.cache, t.queue);
      OverflowUndoneIff(t, c.step);
    }
  }

  /** Any operations on a new cache, erasures included: the mutable object follows the abstract run. */
  method Execute<K(==)>(max: nat, step: nat, keep: nat, ops: seq<BlockOp<K>>) returns (c: BlockCache<K>)
    requires GoodStep(max, step)
    ensures fresh(c) && c.Value() == RunBlocks(Config(max, step, keep), ops) && Covered(c.Limits(), c.Value())
  {
    hide Inserted, Keys;
    c := new BlockCache(max, step, keep);
    for i := 0 to |ops|
      invariant c.Value() == RunBlocks(Config(max, step, keep), ops[..i]) && Covered(c.Limits(), c.Value())
    {
      assert ops[..i + 1][..i] == ops[..i];
      match ops[i] {
        case InsertAt(k, block) => var _ := c.Insert(k, block);
        case EraseKey(k) => c.Erase(k);
        case ClearAll => c.Clear();
      }
    }
    assert ops[..|ops|] == ops;
  }
}
