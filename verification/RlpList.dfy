/**
 Access to the items of a list view: the subscript with its mutable cursor and the
 iterator of libdevcore/RLP.cpp, both against plain indexing from the front.
 */
module RlpList {
  import opened Bytes
  import opened Wrappers
  import opened RlpFormat
  import opened RlpReader

  /** Where item i of payload p begins; its end when there are fewer items. */
  function Seek(p: seq<byte>, i: nat): (r: Read<nat>)
    ensures r.Ok? ==> r.value <= |p|
  {
    if i == 0 then Ok(0)
    else
      var pos :- Seek(p, i - 1);
      var n :- SizeAsEncoded(p[pos..]);
      Ok(pos + n)
  }

  /** Item i of payload p, empty past the end; fails if an item up to i is malformed. */
  function ItemAt(p: seq<byte>, i: nat): (r: Read<seq<byte>>)
  {
    var pos :- Seek(p, i);
    var n :- SizeAsEncoded(p[pos..]);
    Ok(p[pos..pos + n])
  }

  ghost predicate WellFormed(p: seq<byte>) {
    forall i: nat :: ItemAt(p, i).Ok?
  }

  lemma ItemFrom(p: seq<byte>, i: nat, pos: nat)
    requires Seek(p, i) == Ok(pos)
    ensures var n := SizeAsEncoded(p[pos..]);
            ItemAt(p, i) == if n.Err? then Err(n.error) else Ok(p[pos..pos + n.value])
  {
    hide SizeAsEncoded, Seek;
  }

  lemma {:induction false} SeekStays(p: seq<byte>, j: nat, i: nat)
    requires j <= i
    ensures Seek(p, j).Err? ==> Seek(p, i) == Seek(p, j)
    ensures Seek(p, j) == Ok(|p|) ==> Seek(p, i) == Ok(|p|)
  {
    hide SizeAsEncoded;
    if j < i {
      SeekStays(p, j, i - 1);
    }
  }

  /** Once an item is malformed, every later index fails in the same way. */
  lemma FailureStays(p: seq<byte>, j: nat, i: nat)
    requires j <= i && ItemAt(p, j).Err?
    ensures ItemAt(p, i) == ItemAt(p, j)
  {
    hide SizeAsEncoded;
    if j < i {
      SeekStays(p, j, i);
      SeekStays(p, j + 1, i);
    }
  }

  /** An item cut out of its surroundings still reads as one item. */
  lemma CroppedReads(d: seq<byte>)
    requires SizeAsEncoded(d).Ok?
    ensures var n := SizeAsEncoded(d).value; SizeAsEncoded(d[..n]) == Ok(n)
  {
    var n := SizeAsEncoded(d).value;
    if d != [] && d[0] >= DATA_START {
      ReadsHeader(d);
      var len, k := Length(d).value, PayloadOffset(d);
      assert d[..n] == d[..k] + d[k..n];
      HeaderReads(if d[0] < LIST_START then DATA_START else LIST_START, len, d[k..n]);
    }
  }

  function From<T>(xs: seq<T>, i: nat): (r: seq<T>)
  {
    if i < |xs| then xs[i..] else []
  }

  lemma {:induction false} FromFits(items: seq<Item>, i: nat)
    ensures SizeAll(From(items, i)) <= SizeAll(items)
    ensures i < |items| ==> PayloadSize(items[i]) <= SizeAll(items)
  {
    if 0 < i && items != [] {
      FromFits(items[1..], i - 1);
      assert From(items, i) == From(items[1..], i - 1);
    }
  }

  /** After i items of payload p, the encoding of the items in left is what remains. */
  ghost predicate Remains(p: seq<byte>, i: nat, left: seq<Item>) {
    && SizeAll(left) < READ_LIMIT
    && Seek(p, i).Ok?
    && p[Seek(p, i).value..] == EncodeAll(left)
  }

  lemma {:induction false} SeekEncoded(items: seq<Item>, i: nat)
    requires SizeAll(items) < READ_LIMIT
    ensures Remains(EncodeAll(items), i, From(items, i))
  {
    hide Remains, From, EncodeAll, SizeAll;
    if i == 0 {
      RemainsAtFirst(items);
    } else {
      SeekEncoded(items, i - 1);
      RemainsNext(EncodeAll(items), i - 1, From(items, i - 1));
      FromStep(items, i);
    }
  }

  lemma RemainsAtFirst(items: seq<Item>)
    requires SizeAll(items) < READ_LIMIT
    ensures Remains(EncodeAll(items), 0, From(items, 0))
  {
    hide EncodeAll, SizeAll;
    assert EncodeAll(items)[0..] == EncodeAll(items) && From(items, 0) == items;
  }

  lemma FromStep<T>(xs: seq<T>, i: nat)
    requires i > 0
    ensures From(From(xs, i - 1), 1) == From(xs, i)
  {
  }

  lemma RemainsNext(p: seq<byte>, i: nat, left: seq<Item>)
    requires Remains(p, i, left)
    ensures Remains(p, i + 1, From(left, 1))
  {
    hide SizeAsEncoded;
    var pos := Seek(p, i).value;
    if left != [] {
      EncodeAllSplits(left);
      assert p[pos..][Size(left[0])..] == p[pos + Size(left[0])..];
      assert From(left, 1) == left[1..];
    }
  }

  lemma RemainsHere(p: seq<byte>, i: nat, left: seq<Item>)
    requires Remains(p, i, left)
    ensures ItemAt(p, i) == Ok(if left == [] then [] else Encode(left[0]))
    ensures left == [] <==> Seek(p, i) == Ok(|p|)
  {
    hide SizeAsEncoded;
    var pos := Seek(p, i).value;
    if left != [] {
      EncodeAllSplits(left);
      assert p[pos..][..Size(left[0])] == p[pos..pos + Size(left[0])];
    } else {
      assert pos == |p| && p[pos..pos] == [];
    }
  }

  /** The items of an encoded list are the encodings of its items, and nothing follows them. */
  lemma EncodedItems(items: seq<Item>, i: nat)
    requires SizeAll(items) < READ_LIMIT
    ensures i < |items| ==> PayloadSize(items[i]) < READ_LIMIT
    ensures ItemAt(EncodeAll(items), i) == Ok(if i < |items| then Encode(items[i]) else [])
    ensures Seek(EncodeAll(items), i) == Ok(SizeAll(items)) <==> i >= |items|
  {
    SeekEncoded(items, i);
    FromFits(items, i);
    RemainsHere(EncodeAll(items), i, From(items, i));
  }

  /** A list view and the cursor its subscript operator keeps between calls. */
  class ListView {
    const payload: seq<byte>
    var lastIndex: nat
    var lastEnd: nat
    var lastItem: seq<byte>

    constructor (payload: seq<byte>)
      ensures this.payload == payload && Fresh()
    {
      this.payload := payload;
      lastIndex, lastEnd, lastItem := SIZE_MAX, 0, [];
    }

    ghost predicate Fresh()
      reads this
    {
      lastIndex == SIZE_MAX && lastItem == []
    }

    /** The cursor rests on the item it claims to rest on. */
    ghost predicate Clean()
      reads this
    {
      && ItemAt(payload, lastIndex) == Ok(lastItem)
      && lastEnd == Seek(payload, lastIndex).value + |lastItem|
    }

    /** The cursor was abandoned in front of a malformed item, still labelled with the index before it. */
    ghost predicate Stale()
      reads this
    {
      && Seek(payload, lastIndex + 1) == Ok(lastEnd)
      && lastItem == payload[lastEnd..] != []
      && SizeAsEncoded(lastItem).Err?
    }

    ghost predicate Valid()
      reads this
    {
      Fresh() || Clean() || Stale()
    }

    /** Back to the first item. */
    method Rewind() returns (r: Read<()>)
      requires Valid()
      modifies this
      ensures r.Ok? ==> Clean() && lastIndex == 0
      ensures r.Err? ==> unchanged(this) && forall i: nat :: ItemAt(payload, i) == Err(r.error)
    {
      assert payload[0..] == payload;
      var n := SizeAsEncoded(payload);
      if n.Err? {
        forall i: nat ensures ItemAt(payload, i) == Err(n.error) {
          FailureStays(payload, 0, i);
        }
        return Err(n.error);
      }
      lastEnd, lastItem, lastIndex := n.value, payload[..n.value], 0;
      return Ok(());
    }

    /** On to the next item; a malformed one leaves the cursor stale. */
    method Advance() returns (r: Read<()>)
      requires (Clean() && lastItem != []) || Stale()
      modifies this
      ensures r.Ok? ==> old(Clean()) && Clean() && lastIndex == old(lastIndex) + 1
      ensures r.Err? ==> Stale() && lastIndex == old(lastIndex) && ItemAt(payload, lastIndex + 1) == Err(r.error)
    {
      hide SizeAsEncoded, Seek, ItemAt;
      if Clean() {
        ItemPlace(payload, lastIndex);
      }
      ItemFrom(payload, lastIndex + 1, lastEnd);
      lastItem := payload[lastEnd..];
      var n := SizeAsEncoded(lastItem);
      if n.Err? {
        return Err(n.error);
      }
      assert payload[lastEnd..][..n.value] == payload[lastEnd..lastEnd + n.value];
      lastItem := lastItem[..n.value];
      lastEnd := lastEnd + n.value;
      lastIndex := lastIndex + 1;
      return Ok(());
    }

    /** The constructor call on the cropped item, which succeeds on every item that was sized. */
    lemma CleanReads()
      requires Clean()
      ensures SizeAsEncoded(lastItem) == Ok(|lastItem|)
    {
      var rest := payload[Seek(payload, lastIndex).value..];
      CroppedReads(rest);
      assert rest[..|lastItem|] == lastItem;
    }

    /** Only a malformed item can leave the cursor stale. */
    lemma NeverStale()
      requires WellFormed(payload)
      ensures !Stale()
    {
      assert ItemAt(payload, lastIndex + 1).Ok?;
    }

    /** An empty item is the end: every index from there on is empty too. */
    lemma CleanEnd(i: nat)
      requires Clean() && lastItem == [] && lastIndex <= i
      ensures ItemAt(payload, i) == Ok([])
    {
      hide SizeAsEncoded;
      SeekStays(payload, lastIndex, i);
    }

    /**
     The subscript. It agrees with plain indexing from any state of the cursor, with one
     exception: after a query that threw, the last good item in front of the malformed one
     throws as well, until a smaller index resets the cursor.
     */
    method At(i: nat) returns (r: Read<seq<byte>>)
      requires Valid() && i < SIZE_MAX
      modifies this
      ensures Valid() && (r.Ok? ==> Clean() && lastIndex <= i)
      ensures r.Err? && old(lastIndex) <= i ==> Stale() && old(lastIndex) <= lastIndex <= i
      ensures r == if old(Stale()) && i == old(lastIndex) then Err(SizeAsEncoded(old(lastItem)).error)
                   else ItemAt(payload, i)
    {
      hide SizeAsEncoded;
      if i < lastIndex {
        var reset := Rewind();
        if reset.Err? {
          return Err(reset.error);
        }
      }
      while lastIndex < i && |lastItem| > 0
        invariant lastIndex <= i
        invariant Clean() || (Stale() && unchanged(this))
        invariant i == old(lastIndex) ==> unchanged(this)
        invariant old(lastIndex) <= i ==> old(lastIndex) <= lastIndex
        decreases i - lastIndex
      {
        var step := Advance();
        if step.Err? {
          FailureStays(payload, lastIndex + 1, i);
          return Err(step.error);
        }
      }
      if Clean() {
        CleanReads();
        if lastItem == [] {
          CleanEnd(i);
        }
      }
      var size := SizeAsEncoded(lastItem);
      r := if size.Err? then Err(size.error) else Ok(lastItem);
    }
  }

  /**
   Any queries in any order to an item, list or not: they all throw if it has no payload; if that
   is well-formed, each one gets the item plain indexing finds.
   */
  method AskAll(d: seq<byte>, indices: seq<nat>) returns (answers: seq<Read<seq<byte>>>)
    requires Payload(d).Ok? ==> WellFormed(Payload(d).value)
    requires forall k :: 0 <= k < |indices| ==> indices[k] < SIZE_MAX
    ensures |answers| == |indices|
    ensures forall k :: 0 <= k < |indices| ==>
              answers[k] == if Payload(d).Ok? then ItemAt(Payload(d).value, indices[k]) else Err(Payload(d).error)
  {
    hide SizeAsEncoded, Payload;
    if Payload(d).Err? {
      return seq(|indices|, _ => Err(Payload(d).error));
    }
    var p := Payload(d).value;
    var view := new ListView(p);
    answers := [];
    for k := 0 to |indices|
      invariant view.payload == p && view.Valid()
      invariant |answers| == k && forall j :: 0 <= j < k ==> answers[j] == ItemAt(p, indices[j])
    {
      view.NeverStale();
      var answer := view.At(indices[k]);
      answers := answers + [answer];
    }
  }

  /** The payload of a list whose first item is 05 and whose second, 81 05, is not canonical. */
  predicate HalfGood(p: seq<byte>) {
    p == [5, 0x81, 5]
  }

  lemma HalfGoodSizes(p: seq<byte>)
    requires HalfGood(p)
    ensures SizeAsEncoded(p) == Ok(1) && SizeAsEncoded(p[1..]) == Err(BadItem)
  {
    assert p[1..] == [0x81, 5];
  }

  lemma HalfGoodItems(p: seq<byte>)
    requires HalfGood(p)
    ensures ItemAt(p, 0) == Ok([5]) && ItemAt(p, 1) == Err(BadItem)
    ensures Seek(p, 2).Err?
  {
    hide SizeAsEncoded;
    HalfGoodSizes(p);
    assert p[0..] == p && p[0..1] == [5];
    assert Seek(p, 1) == Ok(1);
  }

  /** Asking that list for its second item spoils the first one. */
  method SpoiledByFailure(p: seq<byte>)
    returns (first: Read<seq<byte>>, second: Read<seq<byte>>, again: Read<seq<byte>>)
    requires HalfGood(p)
    ensures first == ItemAt(p, 0) == Ok([5]) && second == ItemAt(p, 1) == Err(BadItem) && again.Err?
  {
    hide SizeAsEncoded;
    HalfGoodItems(p);
    var view := new ListView(p);
    first := view.At(0);
    second := view.At(1);
    again := view.At(0);
  }

  /** An iterator into view d: the bytes of its current item and how many of the payload follow them. */
  datatype Cursor = Cursor(pos: nat, len: nat, remaining: nat)

  /** Where iteration begins; in anything but a list at the end. */
  function Begin(d: seq<byte>): (r: Read<Cursor>)
  {
    if d == [] || d[0] < LIST_START then Ok(Cursor(|d|, 0, 0))
    else
      var p :- Payload(d);
      var n :- SizeAsEncoded(p);
      Ok(Cursor(PayloadOffset(d), n, |p| - n))
  }

  /** Iterators are compared by the bytes they point at. */
  predicate AtEnd(d: seq<byte>, c: Cursor) {
    c.pos == |d| && c.len == 0
  }

  function Next(d: seq<byte>, c: Cursor): (r: Read<Cursor>)
  {
    var pos := c.pos + c.len;
    if c.remaining > 0 && pos + c.remaining <= |d| then
      var n :- SizeAsEncoded(d[pos..pos + c.remaining]);
      Ok(Cursor(pos, n, c.remaining - n))
    else
      Ok(Cursor(pos, 0, 0))
  }

  /** The iterator after k increments. */
  function Iterate(d: seq<byte>, k: nat): (r: Read<Cursor>)
  {
    if k == 0 then Begin(d)
    else
      var c :- Iterate(d, k - 1);
      Next(d, c)
  }

  /** What dereferencing the iterator looks at. */
  function Current(d: seq<byte>, c: Cursor): (r: seq<byte>)
  {
    if c.pos + c.len <= |d| then d[c.pos..c.pos + c.len] else []
  }

  predicate Within(d: seq<byte>, base: nat, p: seq<byte>) {
    base + |p| <= |d| && d[base..base + |p|] == p
  }

  /** The list views the reader's checked constructors admit. */
  predicate ListOf(d: seq<byte>, p: seq<byte>) {
    d != [] && d[0] >= LIST_START && Payload(d) == Ok(p) && Within(d, PayloadOffset(d), p)
  }

  /** An iterator resting on the n bytes at position pos of a payload that begins at base. */
  function Resting(base: nat, p: seq<byte>, pos: nat, n: nat): (c: Cursor)
    requires pos + n <= |p|
  {
    Cursor(base + pos, n, |p| - pos - n)
  }

  lemma NextRests(d: seq<byte>, base: nat, p: seq<byte>, pos: nat, n: nat)
    requires Within(d, base, p) && pos + n <= |p| && SizeAsEncoded(p[pos + n..]).Ok?
    ensures Next(d, Resting(base, p, pos, n)) == Ok(Resting(base, p, pos + n, SizeAsEncoded(p[pos + n..]).value))
  {
    hide SizeAsEncoded;
    SliceOfSlice(d, base, base + |p|, pos + n, |p|);
    assert p[pos + n..|p|] == p[pos + n..];
  }

  lemma IterateStarts(d: seq<byte>, p: seq<byte>)
    requires ListOf(d, p) && SizeAsEncoded(p).Ok?
    ensures Iterate(d, 0) == Ok(Resting(PayloadOffset(d), p, 0, SizeAsEncoded(p).value))
  {
    hide SizeAsEncoded, Payload, PayloadOffset, Within;
  }

  lemma IterateNext(d: seq<byte>, k: nat)
    requires Iterate(d, k).Ok?
    ensures Iterate(d, k + 1) == Next(d, Iterate(d, k).value)
  {
    hide Next;
  }

  /** An item lies at its position, right in front of the next one, and is empty only at the end. */
  lemma ItemPlace(p: seq<byte>, k: nat)
    requires ItemAt(p, k).Ok?
    ensures Seek(p, k).Ok? && SizeAsEncoded(p[Seek(p, k).value..]) == Ok(|ItemAt(p, k).value|)
    ensures Seek(p, k + 1) == Ok(Seek(p, k).value + |ItemAt(p, k).value|)
    ensures ItemAt(p, k).value == p[Seek(p, k).value..Seek(p, k).value + |ItemAt(p, k).value|]
    ensures ItemAt(p, k).value == [] <==> Seek(p, k).value == |p|
  {
    hide SizeAsEncoded;
    assert Seek(p, k).Ok?;
  }

  lemma WellFormedAt(p: seq<byte>, k: nat)
    requires WellFormed(p)
    ensures ItemAt(p, k).Ok?
  {
    hide ItemAt;
  }

  /** The iterator walks through the items in step with plain indexing. */
  lemma {:induction false} IterateVisits(d: seq<byte>, p: seq<byte>, k: nat)
    requires ListOf(d, p) && WellFormed(p)
    ensures ItemAt(p, k).Ok?
    ensures Iterate(d, k) == Ok(Resting(PayloadOffset(d), p, Seek(p, k).value, |ItemAt(p, k).value|))
  {
    hide SizeAsEncoded, Payload, PayloadOffset, Iterate, Next, Seek, ItemAt, WellFormed, Within, Resting;
    WellFormedAt(p, k);
    ItemPlace(p, k);
    if k == 0 {
      SeekFirst(p);
      IterateStarts(d, p);
    } else {
      WellFormedAt(p, k - 1);
      ItemPlace(p, k - 1);
      IterateVisits(d, p, k - 1);
      IterateNext(d, k - 1);
      NextRests(d, PayloadOffset(d), p, Seek(p, k - 1).value, |ItemAt(p, k - 1).value|);
    }
  }

  lemma SeekFirst(p: seq<byte>)
    ensures Seek(p, 0) == Ok(0) && p[0..] == p
  {
  }

  lemma RestingCurrent(d: seq<byte>, base: nat, p: seq<byte>, pos: nat, n: nat)
    requires Within(d, base, p) && pos + n <= |p|
    ensures Current(d, Resting(base, p, pos, n)) == p[pos..pos + n]
    ensures AtEnd(d, Resting(base, p, pos, n)) <==> n == 0 && base + pos == |d|
  {
    SliceOfSlice(d, base, base + |p|, pos, pos + n);
    assert base + pos + n == base + (pos + n);
  }

  /**
   The loop over a list: increment k shows item k, and the loop stops exactly when nothing
   follows the list in its view, which is then right behind the last item.
   */
  lemma IteratorVisitsItems(d: seq<byte>, p: seq<byte>, k: nat)
    requires ListOf(d, p) && WellFormed(p)
    ensures Iterate(d, k).Ok? && ItemAt(p, k) == Ok(Current(d, Iterate(d, k).value))
    ensures AtEnd(d, Iterate(d, k).value) <==> PayloadOffset(d) + |p| == |d| && Seek(p, k) == Ok(|p|)
  {
    hide SizeAsEncoded, Payload, PayloadOffset, Iterate, ItemAt, Seek, WellFormed, Resting, Current, AtEnd;
    IterateVisits(d, p, k);
    ItemPlace(p, k);
    RestingCurrent(d, PayloadOffset(d), p, Seek(p, k).value, |ItemAt(p, k).value|);
  }

  /** Nothing is visited in an item that is not a list, and a malformed list cannot be iterated at all. */
  lemma OthersVisitNothing(d: seq<byte>)
    ensures d == [] || d[0] < LIST_START ==> Iterate(d, 0).Ok? && AtEnd(d, Iterate(d, 0).value)
    ensures d != [] && d[0] >= LIST_START && Payload(d).Err? ==> Iterate(d, 0).Err?
  {
  }

  lemma EncodedListOf(items: seq<Item>)
    requires SizeAll(items) < READ_LIMIT
    ensures ListOf(Encode(List(items)), EncodeAll(items)) && WellFormed(EncodeAll(items))
    ensures PayloadOffset(Encode(List(items))) + SizeAll(items) == |Encode(List(items))|
  {
    var p := EncodeAll(items);
    EncodingExact(List(items));
    HeaderReads(LIST_START, |p|, p);
    forall i: nat ensures ItemAt(p, i).Ok? {
      EncodedItems(items, i);
    }
  }

  /** A list encoded on its own is visited item by item and then left. */
  lemma EncodedListIterates(items: seq<Item>, k: nat)
    requires SizeAll(items) < READ_LIMIT
    ensures k < |items| ==> PayloadSize(items[k]) < READ_LIMIT
    ensures var d := Encode(List(items));
            && Iterate(d, k).Ok?
            && (AtEnd(d, Iterate(d, k).value) <==> k >= |items|)
            && Current(d, Iterate(d, k).value) == if k < |items| then Encode(items[k]) else []
  {
    hide ItemAt, Iterate, Seek, ListOf;
    EncodedListOf(items);
    IteratorVisitsItems(Encode(List(items)), EncodeAll(items), k);
    EncodedItems(items, k);
  }

  /** The number of items in a payload. */
  function Count(p: seq<byte>): (r: Read<nat>)
    decreases |p|
  {
    if p == [] then Ok(0)
    else
      var n :- SizeAsEncoded(p);
      var rest :- Count(p[n..]);
      Ok(1 + rest)
  }

  lemma {:induction false} CountEncoded(items: seq<Item>)
    requires SizeAll(items) < READ_LIMIT
    ensures Count(EncodeAll(items)) == Ok(|items|)
  {
    hide SizeAsEncoded;
    if items != [] {
      EncodeAllSplits(items);
      CountEncoded(items[1..]);
    }
  }

  method CountItems(p: seq<byte>) returns (r: Read<nat>)
    ensures r == Count(p)
  {
    hide SizeAsEncoded;
    var d, i := p, 0;
    while d != []
      invariant Count(p) == if Count(d).Err? then Count(d) else Ok(i + Count(d).value)
      decreases |d|
    {
      var n := SizeAsEncoded(d);
      if n.Err? {
        return Err(n.error);
      }
      d, i := d[n.value..], i + 1;
    }
    return Ok(i);
  }
}
