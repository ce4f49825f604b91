/**
 The strict reader of libdevcore/RLP.cpp over a byte view: lengths are decoded lazily and
 every non-canonical form is refused. Reading and writing are mutually inverse.
 */
module RlpReader {
  import opened Bytes
  import opened Wrappers
  import opened RlpFormat

  /** BadItem is BadRLP, TooShort is UndersizeRLP, TooLong is OversizeRLP, NotANumber is BadCast. */
  datatype Error = BadItem | TooShort | TooLong | NotANumber

  type Read<T> = Result<T, Error>

  const SIZE_MAX: nat := TWO_TO_THE_64 - 1
  /** Encoded lengths from here on are refused, so that offset plus length cannot overflow. */
  const READ_LIMIT: nat := SIZE_MAX - 0x100

  /** Refuses a byte below 0x80 that was given a header it does not need. */
  predicate Good(d: seq<byte>)
    requires d != []
  {
    d[0] == DATA_START + 1 ==> |d| >= 2 && d[1] >= DATA_START
  }

  /** A length stored in the n bytes after the first one. */
  function LongLength(d: seq<byte>, n: nat): (r: Read<nat>)
    requires d != [] && 1 <= n <= 8
  {
    if |d| <= n || d[1] == 0 then Err(BadItem)
    else
      var len := BigEndianValue(d[1..1 + n]);
      if len < IMMEDIATE then Err(BadItem)
      else if len >= READ_LIMIT then Err(TooShort)
      else Ok(len)
  }

  /** The payload length the first bytes of the view announce. */
  function Length(d: seq<byte>): (r: Read<nat>)
  {
    if d == [] then Ok(0)
    else if !Good(d) then Err(BadItem)
    else if d[0] < DATA_START then Ok(1)
    else if d[0] <= DATA_START + 55 then Ok((d[0] - DATA_START) as int)
    else if d[0] < LIST_START then LongLength(d, (d[0] - DATA_START) as int - 55)
    else if d[0] <= LIST_START + 55 then Ok((d[0] - LIST_START) as int)
    else LongLength(d, (d[0] - LIST_START) as int - 55)
  }

  function LengthSize(d: seq<byte>): (r: nat)
    ensures r <= 8
  {
    if d == [] then 0
    else if DATA_START + 55 < d[0] < LIST_START then (d[0] - DATA_START) as int - 55
    else if LIST_START + 55 < d[0] then (d[0] - LIST_START) as int - 55
    else 0
  }

  function PayloadOffset(d: seq<byte>): (r: nat)
  {
    if d != [] && d[0] < DATA_START then 0 else 1 + LengthSize(d)
  }

  /** How many bytes the item at the front of the view takes. */
  function ActualSize(d: seq<byte>): (r: Read<nat>)
    ensures r.Ok? && d != [] ==> r.value > 0
  {
    if d == [] then Ok(0)
    else if d[0] < DATA_START then Ok(1)
    else
      var len :- Length(d);
      Ok(PayloadOffset(d) + len)
  }

  /** The same, refusing an item that runs past the end of the view. */
  function SizeAsEncoded(d: seq<byte>): (r: Read<nat>)
    ensures r.Ok? ==> r.value <= |d| && (d != [] ==> r.value > 0)
    ensures d == [] ==> r == Ok(0)
  {
    var size :- ActualSize(d);
    if size > |d| then Err(TooShort) else Ok(size)
  }

  /** A view that is exactly one item, as the default constructor demands. */
  function Exact(d: seq<byte>): (r: Read<()>)
    ensures r.Ok? ==> ActualSize(d) == Ok(|d|)
  {
    var size :- ActualSize(d);
    if size < |d| then Err(TooLong) else if size > |d| then Err(TooShort) else Ok(())
  }

  /** The payload; a view too short for it yields the empty one, as cropped() does. */
  function Payload(d: seq<byte>): (r: Read<seq<byte>>)
    ensures r.Ok? ==> |r.value| <= |d|
    ensures r.Ok? && d != [] && d[0] >= DATA_START ==> |r.value| < |d|
  {
    var len :- Length(d);
    if len > |d| then Err(BadItem)
    else
      var offset := PayloadOffset(d);
      if offset + len <= |d| then Ok(d[offset..offset + len]) else Ok([])
  }

  /** Full strict traversal: the item a view denotes, with every nested view checked to be exact. */
  function Decode(d: seq<byte>): (r: Read<Item>)
    decreases |d|, 1
  {
    var _ :- Exact(d);
    if d == [] then Err(BadItem)
    else
      var p :- Payload(d);
      if d[0] < LIST_START then Ok(Data(p))
      else
        var items :- DecodeItems(p);
        Ok(List(items))
  }

  function DecodeItems(p: seq<byte>): (r: Read<seq<Item>>)
    decreases |p|, 2
  {
    if p == [] then Ok([])
    else
      var n :- SizeAsEncoded(p);
      var first :- Decode(p[..n]);
      var rest :- DecodeItems(p[n..]);
      Ok([first] + rest)
  }

  /** A header reads back as the length it was made from, whatever follows. */
  lemma HeaderReads(start: byte, len: nat, rest: seq<byte>)
    requires start == DATA_START || start == LIST_START
    requires len < READ_LIMIT
    requires start == DATA_START && len == 1 ==> rest != [] && rest[0] >= DATA_START
    ensures var d := Header(start, len) + rest;
            && Length(d) == Ok(len)
            && PayloadOffset(d) == HeaderSize(len)
            && ActualSize(d) == Ok(HeaderSize(len) + len)
  {
    EightBytes(len);
    var h, n := Header(start, len), BytesRequired(len);
    var d := h + rest;
    if len >= IMMEDIATE {
      CompactDenotes(len);
      assert d[1..1 + n] == Compact(len);
    }
  }

  lemma HeadedReads(start: byte, body: seq<byte>, rest: seq<byte>)
    requires start == DATA_START || start == LIST_START
    requires |body| < READ_LIMIT
    requires start == DATA_START && |body| == 1 ==> body[0] >= DATA_START
    ensures ActualSize(Header(start, |body|) + body + rest) == Ok(HeaderSize(|body|) + |body|)
  {
    HeaderReads(start, |body|, body + rest);
    assert Header(start, |body|) + body + rest == Header(start, |body|) + (body + rest);
  }

  /** Only a header can be read as a length. */
  lemma ReadsHeader(d: seq<byte>)
    requires d != [] && d[0] >= DATA_START && Length(d).Ok?
    ensures var len, k := Length(d).value, PayloadOffset(d);
            && len < READ_LIMIT
            && k <= |d|
            && d[..k] == Header(if d[0] < LIST_START then DATA_START else LIST_START, len)
  {
    hide BigEndianValue, Compact, BytesRequired;
    var n := LengthSize(d);
    if n > 0 {
      var digits := d[1..1 + n];
      CompactUnique(digits);
      assert d[..1 + n] == [d[0]] + digits;
    }
  }

  /** The front of an encoding tells where it ends. */
  lemma EncodingReads(t: Item, rest: seq<byte>)
    requires PayloadSize(t) < READ_LIMIT
    ensures ActualSize(Encode(t) + rest) == Ok(Size(t))
  {
    if Bare(t) {
      assert (Encode(t) + rest)[0] == t.bytes[0];
    } else {
      assert t.Data? && PayloadSize(t) == 1 ==> Body(t)[0] >= DATA_START;
      HeadedReads(Start(t), Body(t), rest);
    }
  }

  lemma HeadedPayload(start: byte, body: seq<byte>, rest: seq<byte>)
    requires start == DATA_START || start == LIST_START
    requires |body| < READ_LIMIT
    requires start == DATA_START && |body| == 1 ==> body[0] >= DATA_START
    ensures Payload(Header(start, |body|) + body + rest) == Ok(body)
  {
    hide Length, PayloadOffset;
    var h := Header(start, |body|);
    HeaderReads(start, |body|, body + rest);
    assert h + body + rest == h + (body + rest);
  }

  /** The payload of an encoding is what was put behind its header, whatever follows. */
  lemma EncodingPayload(t: Item, rest: seq<byte>)
    requires PayloadSize(t) < READ_LIMIT
    ensures Payload(Encode(t) + rest) == Ok(Body(t))
    ensures (Encode(t) + rest)[0] < LIST_START <==> t.Data?
  {
    if Bare(t) {
      assert (Encode(t) + rest)[0] == t.bytes[0];
    } else {
      assert t.Data? && PayloadSize(t) == 1 ==> Body(t)[0] >= DATA_START;
      HeadedPayload(Start(t), Body(t), rest);
      assert (Encode(t) + rest)[0] == Header(Start(t), PayloadSize(t))[0];
      HeaderKind(Start(t), PayloadSize(t));
    }
  }

  lemma HeaderKind(start: byte, len: nat)
    requires start == DATA_START || start == LIST_START
    requires len < TWO_TO_THE_64
    ensures Header(start, len)[0] < LIST_START <==> start == DATA_START
  {
    EightBytes(len);
  }

  lemma EncodingExact(t: Item)
    requires PayloadSize(t) < READ_LIMIT
    ensures Exact(Encode(t)).Ok? && Payload(Encode(t)) == Ok(Body(t))
    ensures Encode(t)[0] < LIST_START <==> t.Data?
  {
    EncodingReads(t, []);
    EncodingPayload(t, []);
    assert Encode(t) + [] == Encode(t);
  }

  /** Reading undoes writing. */
  lemma {:induction false} DecodeEncode(t: Item)
    requires PayloadSize(t) < READ_LIMIT
    ensures Decode(Encode(t)) == Ok(t)
    decreases t, 1
  {
    EncodingExact(t);
    if t.List? {
      DecodeEncodeAll(t.items);
    }
  }

  lemma {:induction false} DecodeEncodeAll(items: seq<Item>)
    requires SizeAll(items) < READ_LIMIT
    ensures DecodeItems(EncodeAll(items)) == Ok(items)
    decreases items
  {
    if items != [] {
      EncodeAllSplits(items);
      DecodeEncode(items[0]);
      DecodeEncodeAll(items[1..]);
      assert [items[0]] + items[1..] == items;
    }
  }

  /** The items of a payload are found one behind the other. */
  lemma EncodeAllSplits(items: seq<Item>)
    requires SizeAll(items) < READ_LIMIT && items != []
    ensures var p, n := EncodeAll(items), Size(items[0]);
            && SizeAsEncoded(p) == Ok(n)
            && p[..n] == Encode(items[0])
            && p[n..] == EncodeAll(items[1..])
  {
    EncodingReads(items[0], EncodeAll(items[1..]));
  }

  /** Writing undoes reading: the reader accepts nothing but encodings. */
  lemma {:induction false} EncodeDecode(d: seq<byte>)
    requires Decode(d).Ok?
    ensures PayloadSize(Decode(d).value) < READ_LIMIT
    ensures Encode(Decode(d).value) == d
    decreases |d|, 1
  {
    var t := Decode(d).value;
    if d[0] < DATA_START {
      assert Bare(t) && t.bytes == d;
    } else {
      ExactSplits(d);
      var p := Payload(d).value;
      if d[0] >= LIST_START {
        EncodeDecodeItems(p);
      } else {
        assert !Bare(t);
      }
      assert Body(t) == p;
    }
  }

  lemma ExactSplits(d: seq<byte>)
    requires d != [] && d[0] >= DATA_START && Exact(d).Ok? && Payload(d).Ok?
    ensures var p := Payload(d).value;
            && |p| < READ_LIMIT
            && d == Header(if d[0] < LIST_START then DATA_START else LIST_START, |p|) + p
            && (d[0] < LIST_START && |p| == 1 ==> p[0] >= DATA_START)
  {
    hide Header, BigEndianValue;
    ReadsHeader(d);
    var k := PayloadOffset(d);
    assert d == d[..k] + d[k..];
  }

  lemma {:induction false} EncodeDecodeItems(p: seq<byte>)
    requires DecodeItems(p).Ok? && |p| < READ_LIMIT
    ensures SizeAll(DecodeItems(p).value) < READ_LIMIT
    ensures EncodeAll(DecodeItems(p).value) == p
    decreases |p|, 2
  {
    if p != [] {
      var (head, tail) := FirstItem(p);
      EncodeDecode(head);
      EncodeDecodeItems(tail);
      EncodeAllCons(Decode(head).value, DecodeItems(tail).value);
    }
  }

  /** A payload that decodes is its first item followed by a payload that decodes. */
  ghost function FirstItem(p: seq<byte>): (r: (seq<byte>, seq<byte>))
    requires p != [] && DecodeItems(p).Ok?
    ensures p == r.0 + r.1 && r.0 != [] && Decode(r.0).Ok? && DecodeItems(r.1).Ok?
    ensures DecodeItems(p).value == [Decode(r.0).value] + DecodeItems(r.1).value
  {
    var n := SizeAsEncoded(p).value;
    (p[..n], p[n..])
  }

  lemma EncodeAllCons(first: Item, rest: seq<Item>)
    requires Size(first) + SizeAll(rest) < READ_LIMIT
    ensures SizeAll([first] + rest) == Size(first) + SizeAll(rest)
    ensures EncodeAll([first] + rest) == Encode(first) + EncodeAll(rest)
  {
    assert ([first] + rest)[1..] == rest;
  }

  /** Exactly the items below the reader's length limit survive a round trip. */
  lemma RoundTripIff(t: Item)
    requires PayloadSize(t) < TWO_TO_THE_64
    ensures Decode(Encode(t)) == Ok(t) <==> PayloadSize(t) < READ_LIMIT
  {
    if PayloadSize(t) < READ_LIMIT {
      DecodeEncode(t);
    } else if Decode(Encode(t)).Ok? {
      EncodeDecode(Encode(t));
    }
  }

  /** No encoding is a proper prefix of another, so a stream of items splits in one way only. */
  lemma PrefixFree(s: Item, t: Item)
    requires PayloadSize(s) < READ_LIMIT && PayloadSize(t) < READ_LIMIT
    ensures Encode(s) <= Encode(t) <==> s == t
  {
    hide Encode, Decode, EncodeAll, Size, SizeAll;
    if Encode(s) <= Encode(t) {
      SameSize(s, t, Encode(t)[|Encode(s)|..]);
      assert Encode(s) == Encode(t);
      DecodeEncode(s);
      DecodeEncode(t);
    }
  }

  lemma SameSize(s: Item, t: Item, rest: seq<byte>)
    requires PayloadSize(s) < READ_LIMIT && PayloadSize(t) < READ_LIMIT
    requires Encode(t) == Encode(s) + rest
    ensures Size(s) == Size(t)
  {
    EncodingReads(s, rest);
    EncodingReads(t, []);
    assert Encode(t) + [] == Encode(t);
  }

  /** The length decoder as the source runs it, digit by digit in a size_t. */
  method ReadLength(d: seq<byte>) returns (r: Read<nat>)
    ensures r == Length(d)
  {
    if d == [] {
      return Ok(0);
    }
    if !Good(d) {
      return Err(BadItem);
    }
    var n := d[0];
    if n < DATA_START {
      return Ok(1);
    } else if n <= DATA_START + 55 {
      return Ok((n - DATA_START) as int);
    } else if LIST_START <= n <= LIST_START + 55 {
      return Ok((n - LIST_START) as int);
    }
    var lengthSize := if n < LIST_START then (n - DATA_START) as int - 55 else (n - LIST_START) as int - 55;
    if |d| <= lengthSize || d[1] == 0 {
      return Err(BadItem);
    }
    var ret: nat := 0;
    for i := 0 to lengthSize
      invariant ret == BigEndianValue(d[1..1 + i])
    {
      assert d[1..2 + i][..i] == d[1..1 + i];
      ShiftFits(d[1..1 + i]);
      ret := (ret * 256 + d[i + 1] as int) % TWO_TO_THE_64;
    }
    if ret < IMMEDIATE {
      return Err(BadItem);
    }
    if ret >= SIZE_MAX - 0x100 {
      return Err(TooShort);
    }
    return Ok(ret);
  }

  /** Shifting in one of at most eight bytes never overflows a size_t. */
  lemma ShiftFits(s: seq<byte>)
    requires |s| <= 7
    ensures 256 * BigEndianValue(s) + 255 < TWO_TO_THE_64
  {
    ValueBound(s);
    Pow256Of8();
    PowMonotone(|s|, 7);
  }

  lemma {:induction false} PowMonotone(m: nat, n: nat)
    requires m <= n
    ensures Pow256(m) <= Pow256(n)
  {
    if m < n {
      PowMonotone(m, n - 1);
    }
  }
}
