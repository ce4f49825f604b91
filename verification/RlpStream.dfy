/**
 The stream writer of libdevcore/RLP.cpp. A list is announced by its item count only; when
 its last item arrives, the writer opens a gap in front of what it has written and patches
 the header into it, and that completion may complete enclosing lists in turn.
 */
module RlpStream {
  import opened Bytes
  import opened Wrappers
  import opened RlpFormat

  /** A list that still waits for items; its payload begins at start. */
  datatype Open = Open(remaining: nat, start: nat)

  datatype Buffer = Buffer(out: seq<byte>, lists: seq<Open>)

  const EMPTY := Buffer([], [])

  /** Open lists are nested: each begins no earlier than the one around it. */
  ghost predicate Nested(b: Buffer) {
    && (forall i :: 0 <= i < |b.lists| ==> b.lists[i].remaining > 0 && b.lists[i].start <= |b.out|)
    && (forall i, j :: 0 <= i < j < |b.lists| ==> b.lists[i].start <= b.lists[j].start)
  }

  /**
   The buffer after `count` items were completed at its end: header patches ripple outward
   until a list still waits for items. None is the source's "itemCount too large".
   */
  ghost function Completed(b: Buffer, count: nat): (r: Option<Buffer>)
    requires Nested(b)
    ensures r.Some? ==> Nested(r.value)
    decreases |b.lists|
  {
    if count == 0 || b.lists == [] then Some(b)
    else
      var outer, top := b.lists[..|b.lists| - 1], b.lists[|b.lists| - 1];
      if top.remaining < count then None
      else if top.remaining > count then
        Some(Buffer(b.out, outer + [Open(top.remaining - count, top.start)]))
      else if |b.out| - top.start >= TWO_TO_THE_64 then None
      else
        Completed(Buffer(Patched(b.out, top.start), outer), 1)
  }

  /** The bytes with a list header in front of everything from position p on. */
  function Patched(out: seq<byte>, p: nat): (r: seq<byte>)
    requires p <= |out| && |out| - p < TWO_TO_THE_64
    ensures |r| >= |out|
  {
    out[..p] + Header(LIST_START, |out| - p) + out[p..]
  }

  /** What the two append calls of a client look like in the order it makes them. */
  datatype Event = BeginList(count: nat) | AppendBytes(bytes: seq<byte>)

  predicate Storable(e: Event) {
    e.AppendBytes? ==> |e.bytes| < TWO_TO_THE_64
  }

  ghost function Step(b: Buffer, e: Event): (r: Option<Buffer>)
    requires Nested(b) && Storable(e)
    ensures r.Some? ==> Nested(r.value)
  {
    match e
    case BeginList(count) =>
      if count == 0 then Completed(Buffer(b.out + [LIST_START], b.lists), 1)
      else Some(Buffer(b.out, b.lists + [Open(count, |b.out|)]))
    case AppendBytes(bytes) => Completed(Buffer(b.out + Encode(Data(bytes)), b.lists), 1)
  }

  ghost function Run(b: Buffer, es: seq<Event>): (r: Option<Buffer>)
    requires Nested(b) && forall i :: 0 <= i < |es| ==> Storable(es[i])
    ensures r.Some? ==> Nested(r.value)
    decreases |es|
  {
    if es == [] then Some(b)
    else
      var next := Step(b, es[0]);
      if next.None? then None else Run(next.value, es[1..])
  }

  /** The calls a client makes for an item: a list announces its length, then its items follow. */
  function Preorder(t: Item): (es: seq<Event>)
    requires PayloadSize(t) < TWO_TO_THE_64
    ensures forall i :: 0 <= i < |es| ==> Storable(es[i])
    decreases t, 1
  {
    match t
    case Data(b) => [AppendBytes(b)]
    case List(items) => [BeginList(|items|)] + PreorderAll(items)
  }

  function PreorderAll(items: seq<Item>): (es: seq<Event>)
    requires SizeAll(items) < TWO_TO_THE_64
    ensures forall i :: 0 <= i < |es| ==> Storable(es[i])
    decreases items
  {
    if items == [] then [] else Preorder(items[0]) + PreorderAll(items[1..])
  }

  lemma {:induction false} RunConcat(b: Buffer, xs: seq<Event>, ys: seq<Event>)
    requires Nested(b)
    requires forall i :: 0 <= i < |xs| ==> Storable(xs[i])
    requires forall i :: 0 <= i < |ys| ==> Storable(ys[i])
    ensures Run(b, xs + ys) == if Run(b, xs).None? then None else Run(Run(b, xs).value, ys)
    decreases |xs|
  {
    if xs == [] {
      assert xs + ys == ys;
    } else {
      assert (xs + ys)[1..] == xs[1..] + ys;
      var next := Step(b, xs[0]);
      if next.Some? {
        RunConcat(next.value, xs[1..], ys);
      }
    }
  }

  /**
   Writing an item leaves the buffer as if its encoding had been appended in one piece and
   then counted as one item, whatever lists are open around it.
   */
  lemma {:induction false} WritesEncoding(b: Buffer, t: Item)
    requires Nested(b) && PayloadSize(t) < TWO_TO_THE_64
    ensures Run(b, Preorder(t)) == Completed(Buffer(b.out + Encode(t), b.lists), 1)
    decreases t, 1
  {
    match t
    case Data(bytes) =>
      RunOne(b, AppendBytes(bytes));
    case List(items) =>
      RunOne(b, BeginList(|items|));
      if items == [] {
        assert Preorder(t) == [BeginList(0)];
        assert Encode(t) == [LIST_START];
      } else {
        RunConcat(b, [BeginList(|items|)], PreorderAll(items));
        var inside := Inside(b.lists, b.out, [], |items|);
        assert Step(b, BeginList(|items|)) == Some(inside) by { assert b.out + [] == b.out; }
        assert Run(b, Preorder(t)) == Run(inside, PreorderAll(items));
        WritesItems(b.lists, b.out, [], items);
        assert [] + EncodeAll(items) == EncodeAll(items);
        assert b.out + Encode(t) == b.out + Header(LIST_START, SizeAll(items)) + EncodeAll(items);
      }
  }

  lemma RunOne(b: Buffer, e: Event)
    requires Nested(b) && Storable(e)
    ensures Run(b, [e]) == Step(b, e)
  {
    var next := Step(b, e);
    assert next.Some? ==> Run(next.value, [e][1..]) == next;
  }

  /** A stream inside a list that began after front, has body in it and awaits n more items. */
  function Inside(outer: seq<Open>, front: seq<byte>, body: seq<byte>, n: nat): (b: Buffer)
    requires n > 0
    ensures Nested(Buffer(front, outer)) ==> Nested(b)
  {
    Buffer(front + body, outer + [Open(n, |front|)])
  }

  /** The same stream once the list is complete with that body. */
  ghost function Closed(outer: seq<Open>, front: seq<byte>, body: seq<byte>): (r: Option<Buffer>)
    requires Nested(Buffer(front, outer)) && |body| < TWO_TO_THE_64
  {
    Completed(Buffer(front + Header(LIST_START, |body|) + body, outer), 1)
  }

  /** The items of an open list: the last one closes it, and only that one. */
  lemma {:induction false} WritesItems(outer: seq<Open>, front: seq<byte>, body: seq<byte>, items: seq<Item>)
    requires items != [] && |body| + SizeAll(items) < TWO_TO_THE_64
    requires Nested(Buffer(front, outer))
    ensures Run(Inside(outer, front, body, |items|), PreorderAll(items))
         == Closed(outer, front, body + EncodeAll(items))
    decreases items
  {
    var first, rest := items[0], items[1..];
    WritesOneItem(outer, front, body, first, |items|);
    BodyGrows(body, items);
    if rest == [] {
      assert PreorderAll(items) == Preorder(first);
    } else {
      RunConcat(Inside(outer, front, body, |items|), Preorder(first), PreorderAll(rest));
      WritesItems(outer, front, body + Encode(first), rest);
    }
  }

  lemma BodyGrows(body: seq<byte>, items: seq<Item>)
    requires items != [] && |body| + SizeAll(items) < TWO_TO_THE_64
    ensures body + EncodeAll(items) == body + Encode(items[0]) + EncodeAll(items[1..])
    ensures |items| == 1 ==> body + EncodeAll(items) == body + Encode(items[0])
  {
    ConcatAssociative(body, Encode(items[0]), EncodeAll(items[1..]));
    assert |items| == 1 ==> EncodeAll(items[1..]) == [];
  }

  lemma {:induction false} WritesOneItem(outer: seq<Open>, front: seq<byte>, body: seq<byte>, t: Item, n: nat)
    requires n > 0 && |body| + Size(t) < TWO_TO_THE_64
    requires Nested(Buffer(front, outer))
    ensures Run(Inside(outer, front, body, n), Preorder(t))
         == if n > 1 then Some(Inside(outer, front, body + Encode(t), n - 1))
            else Closed(outer, front, body + Encode(t))
    decreases t, 2
  {
    hide Encode, Preorder, Run, Closed;
    WritesEncoding(Inside(outer, front, body, n), t);
    assert front + body + Encode(t) == front + (body + Encode(t));
    CountsOne(outer, front, body + Encode(t), n);
  }

  /** One more item in the innermost list either leaves it waiting or patches its header in. */
  lemma CountsOne(outer: seq<Open>, front: seq<byte>, body: seq<byte>, n: nat)
    requires n > 0 && |body| < TWO_TO_THE_64
    requires Nested(Buffer(front, outer))
    ensures Completed(Inside(outer, front, body, n), 1)
         == if n > 1 then Some(Inside(outer, front, body, n - 1)) else Closed(outer, front, body)
  {
    var lists := outer + [Open(n, |front|)];
    assert lists[..|lists| - 1] == outer;
    assert (front + body)[..|front|] == front && (front + body)[|front|..] == body;
  }

  /** Feeding an item to a fresh stream leaves no list open and exactly the encoding as output. */
  lemma StreamRefinesEncoder(t: Item)
    requires PayloadSize(t) < TWO_TO_THE_64
    ensures Run(EMPTY, Preorder(t)) == Some(Buffer(Encode(t), []))
  {
    WritesEncoding(EMPTY, t);
    assert EMPTY.out + Encode(t) == Encode(t);
  }

  /** The bytes without the zeros they lead with. */
  function StripZeros(s: seq<byte>): (r: seq<byte>)
    ensures |r| <= |s|
  {
    if s != [] && s[0] == 0 then StripZeros(s[1..]) else s
  }

  /** The compact form of bytes is their number without leading zeros. */
  lemma {:induction false} StripsToCompact(s: seq<byte>)
    ensures StripZeros(s) == Compact(BigEndianValue(s))
  {
    hide BigEndianValue, Compact, Pow256;
    if s != [] && s[0] == 0 {
      StripsToCompact(s[1..]);
      assert s == [0] + s[1..];
      ValueConcat([0], s[1..]);
      ZeroIsZero();
    } else {
      CompactUnique(s);
    }
  }

  lemma ZeroIsZero()
    ensures BigEndianValue([0]) == 0
  {
  }

  /** A number from 0x80 on needs a header, and that header is short enough to store. */
  lemma WideNumber(i: nat)
    requires i >= 0x80 && BytesRequired(i) < 0x1_0000_0000
    ensures !Bare(Data(Compact(i)))
    ensures BytesRequired(BytesRequired(i)) <= 8
  {
    EightBytes(BytesRequired(i));
  }

  class Writer {
    var out: seq<byte>
    var listStack: seq<Open>

    ghost function Contents(): (b: Buffer)
      reads this
    {
      Buffer(out, listStack)
    }

    constructor ()
      ensures Contents() == EMPTY
    {
      out, listStack := [], [];
    }

    /** Writes the digits of i backwards into the bytes that end at position last. */
    method FillDigits(i: nat, last: int)
      requires BytesRequired(i) <= last + 1 <= |out|
      modifies this`out
      ensures out == old(out)[..last + 1 - BytesRequired(i)] + Compact(i) + old(out)[last + 1..]
    {
      hide Compact, BytesRequired;
      var rest, b := i, last;
      ghost var done: seq<byte> := [];
      DigitsEnd(i, done);
      while rest != 0
        invariant b == last - |done| && BytesRequired(rest) <= b + 1
        invariant out == old(out)[..b + 1] + done + old(out)[last + 1..]
        invariant Compact(i) == Compact(rest) + done
      {
        NextDigit(rest, done);
        Overwritten(old(out), b, done, old(out)[last + 1..], (rest % 256) as byte);
        done := [(rest % 256) as byte] + done;
        out := out[b := (rest % 256) as byte];
        rest, b := rest / 256, b - 1;
      }
      DigitsEnd(rest, done);
    }

    static lemma DigitsEnd(rest: nat, done: seq<byte>)
      ensures rest == 0 ==> Compact(rest) + done == done
      ensures done == [] ==> Compact(rest) + done == Compact(rest)
    {
    }

    static lemma NextDigit(rest: nat, done: seq<byte>)
      requires rest > 0
      ensures BytesRequired(rest) == 1 + BytesRequired(rest / 256)
      ensures Compact(rest) + done == Compact(rest / 256) + ([(rest % 256) as byte] + done)
    {
    }

    static lemma Overwritten(s: seq<byte>, b: nat, done: seq<byte>, rest: seq<byte>, x: byte)
      requires b < |s|
      ensures (s[..b + 1] + done + rest)[b := x] == s[..b] + ([x] + done) + rest
    {
    }

    /** Appends the big-endian digits of i. */
    method PushInt(i: nat, br: nat)
      requires br == BytesRequired(i)
      modifies this`out
      ensures out == old(out) + Compact(i)
    {
      out := out + Zeros(br);
      FillDigits(i, |out| - 1);
    }

    method PushCount(count: nat, base: byte) returns (ok: bool)
      requires base == DATA_START + 55 || base == LIST_START + 55
      requires IMMEDIATE <= count < TWO_TO_THE_64
      modifies this`out
      ensures ok && out == old(out) + Header(base - 55, count)
    {
      EightBytes(count);
      var br := BytesRequired(count);
      if br + base as int > 0xff {
        return false;
      }
      out := out + [(br + base as int) as byte];
      PushInt(count, br);
      return true;
    }

    /** Grows the buffer by n and moves everything from p on to its end, leaving stale bytes at p. */
    method OpenGap(p: nat, n: nat)
      requires p <= |out|
      modifies this`out
      ensures |out| == |old(out)| + n && out[..p] == old(out)[..p] && out[p + n..] == old(out)[p..]
    {
      var os := |out|;
      out := out + Zeros(n);
      out := out[..p + n] + out[p..os];
    }

    static lemma Spliced(s: seq<byte>, p: nat, first: byte, rest: seq<byte>, n: nat)
      requires p + 1 + n <= |s|
      ensures s[p := first][..p + 1] + rest + s[p := first][p + 1 + n..] == s[..p] + ([first] + rest) + s[p + 1 + n..]
    {
      assert s[p := first][..p + 1] == s[..p] + [first];
    }

    /** Overwrites the gap at p with a header for a payload of s bytes. */
    method FillGap(p: nat, s: nat) returns (ok: bool)
      requires p + HeaderSize(s) <= |out|
      modifies this`out
      ensures ok <==> s < TWO_TO_THE_64
      ensures ok ==> out == old(out)[..p] + Header(LIST_START, s) + old(out)[p + HeaderSize(s)..]
    {
      hide Compact, BytesRequired;
      EightBytes(s);
      var brs := BytesRequired(s);
      if s < IMMEDIATE {
        Spliced(out, p, (LIST_START as int + s) as byte, [], 0);
        out := out[p := (LIST_START as int + s) as byte];
      } else if LIST_START as int + 55 + brs <= 0xff {
        Spliced(out, p, (LIST_START as int + 55 + brs) as byte, Compact(s), brs);
        out := out[p := (LIST_START as int + 55 + brs) as byte];
        FillDigits(s, p + brs);
      } else {
        return false;
      }
      return true;
    }

    /** Makes room for the header of the list that begins at p and fills it in. */
    method PatchListHeader(p: nat) returns (ok: bool)
      requires p <= |out|
      modifies this`out
      ensures ok <==> |old(out)| - p < TWO_TO_THE_64
      ensures ok ==> out == Patched(old(out), p)
    {
      var s := |out| - p;
      var encodeSize := if s < IMMEDIATE then 1 else 1 + BytesRequired(s);
      OpenGap(p, encodeSize);
      ok := FillGap(p, s);
    }

    /** Counts freshly appended items, closing every list that this completes. */
    method NoteAppended(itemCount: nat) returns (ok: bool)
      requires Nested(Contents())
      modifies this
      ensures ok <==> Completed(old(Contents()), itemCount).Some?
      ensures ok ==> Contents() == Completed(old(Contents()), itemCount).value
    {
      if itemCount == 0 {
        return true;
      }
      var count := itemCount;
      while |listStack| > 0
        invariant Nested(Contents()) && count > 0
        invariant Completed(Contents(), count) == Completed(old(Contents()), itemCount)
        decreases |listStack|
      {
        var top := listStack[|listStack| - 1];
        if top.remaining < count {
          return false;
        }
        var outer := listStack[..|listStack| - 1];
        if top.remaining - count > 0 {
          listStack := outer + [Open(top.remaining - count, top.start)];
          break;
        }
        listStack := outer;
        var patched := PatchListHeader(top.start);
        if !patched {
          return false;
        }
        count := 1;
      }
      return true;
    }

    method AppendRaw(s: seq<byte>, itemCount: nat) returns (ok: bool)
      requires Nested(Contents())
      modifies this
      ensures var now := Buffer(old(out) + s, old(listStack));
              && Nested(now)
              && (ok <==> Completed(now, itemCount).Some?)
              && (ok ==> Contents() == Completed(now, itemCount).value)
    {
      out := out + s;
      ok := NoteAppended(itemCount);
    }

    /** Appends a list whose serialised items are given. */
    method AppendListBytes(rlp: seq<byte>) returns (ok: bool)
      requires Nested(Contents()) && |rlp| < TWO_TO_THE_64
      modifies this
      ensures var now := Buffer(old(out) + Header(LIST_START, |rlp|) + rlp, old(listStack));
              && Nested(now)
              && (ok <==> Completed(now, 1).Some?)
              && (ok ==> Contents() == Completed(now, 1).value)
    {
      ok := true;
      if |rlp| < IMMEDIATE {
        out := out + [(LIST_START as int + |rlp|) as byte];
      } else {
        ok := PushCount(|rlp|, LIST_START + 55);
      }
      ok := AppendRaw(rlp, 1);
    }

    method AppendList(items: nat) returns (ok: bool)
      requires Nested(Contents())
      modifies this
      ensures var next := Step(old(Contents()), BeginList(items));
              (ok <==> next.Some?) && (ok ==> Contents() == next.value)
    {
      if items != 0 {
        listStack := listStack + [Open(items, |out|)];
        ok := true;
      } else {
        ok := AppendListBytes([]);
        assert old(out) + [LIST_START] + [] == old(out) + [LIST_START];
      }
    }

    method PushBytes(d: seq<byte>) returns (ok: bool)
      requires |d| < TWO_TO_THE_64
      modifies this`out
      ensures ok && out == old(out) + Encode(Data(d))
    {
      ok := true;
      if |d| == 1 && d[0] < DATA_START {
        out := out + [d[0]];
      } else {
        if |d| < IMMEDIATE {
          out := out + [(DATA_START as int + |d|) as byte];
        } else {
          ok := PushCount(|d|, DATA_START + 55);
        }
        assert out == old(out) + Header(DATA_START, |d|);
        out := out + d;
      }
    }

    /** Appends a byte string; in compact form without its leading zeros. */
    method Append(s: seq<byte>, compact: bool) returns (ok: bool)
      requires Nested(Contents()) && |s| < TWO_TO_THE_64
      modifies this
      ensures var next := Step(old(Contents()), AppendBytes(if compact then StripZeros(s) else s));
              (ok <==> next.Some?) && (ok ==> Contents() == next.value)
    {
      var d: seq<byte> := s;
      if compact {
        while d != [] && d[0] == 0
          invariant |d| <= |s| && StripZeros(d) == StripZeros(s)
          decreases |d|
        {
          d := d[1..];
        }
      }
      ok := PushBytes(d);
      ok := NoteAppended(1);
    }

    /** Appends a number from 0x80 on with the header its digits need. */
    method PushWideNumber(i: nat) returns (ok: bool)
      requires i >= 0x80 && BytesRequired(i) < 0x1_0000_0000
      modifies this`out
      ensures ok && out == old(out) + Encode(Data(Compact(i)))
    {
      WideNumber(i);
      var br := BytesRequired(i);
      if br < IMMEDIATE {
        out := out + [(DATA_START as int + br) as byte];
      } else {
        var brbr := BytesRequired(br);
        if DATA_START as int + 55 + brbr > 0xff {
          return false;
        }
        out := out + [(DATA_START as int + 55 + brbr) as byte];
        PushInt(br, brbr);
      }
      assert out == old(out) + Header(DATA_START, br);
      PushInt(i, br);
      return true;
    }

    method PushNumber(i: nat) returns (ok: bool)
      requires BytesRequired(i) < 0x1_0000_0000
      modifies this`out
      ensures ok && out == old(out) + Encode(Data(Compact(i)))
    {
      ok := true;
      if i == 0 {
        out := out + [DATA_START];
      } else if i < 0x80 {
        assert Compact(i) == [i as byte];
        out := out + [i as byte];
      } else {
        ok := PushWideNumber(i);
      }
    }

    /** Appends a number as the byte string of its digits. */
    method AppendInt(i: nat) returns (ok: bool)
      requires Nested(Contents()) && BytesRequired(i) < 0x1_0000_0000
      modifies this
      ensures var next := Step(old(Contents()), AppendBytes(Compact(i)));
              (ok <==> next.Some?) && (ok ==> Contents() == next.value)
    {
      ok := PushNumber(i);
      ok := NoteAppended(1);
    }

    /** Makes the calls of es in order, stopping at the first that throws. */
    method Feed(es: seq<Event>) returns (ok: bool)
      requires Nested(Contents()) && forall i :: 0 <= i < |es| ==> Storable(es[i])
      modifies this
      ensures ok <==> Run(old(Contents()), es).Some?
      ensures ok ==> Contents() == Run(old(Contents()), es).value
    {
      var rest := es;
      while rest != []
        invariant Nested(Contents()) && forall i :: 0 <= i < |rest| ==> Storable(rest[i])
        invariant Run(Contents(), rest) == Run(old(Contents()), es)
        decreases |rest|
      {
        match rest[0] {
          case BeginList(count) => ok := AppendList(count);
          case AppendBytes(bytes) => ok := Append(bytes, false);
        }
        if !ok {
          return;
        }
        rest := rest[1..];
      }
      ok := true;
    }
  }

  /** What rlp() of libdevcore/RLP.h returns for an item. */
  method Serialize(t: Item) returns (out: seq<byte>)
    requires PayloadSize(t) < TWO_TO_THE_64
    ensures out == Encode(t)
  {
    var w := new Writer();
    var ok := w.Feed(Preorder(t));
    StreamRefinesEncoder(t);
    out := w.out;
  }
}
