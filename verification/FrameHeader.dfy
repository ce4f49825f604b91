/**
 The sixteen-byte frame header of libp2p/RLPXFrameCoder.cpp: a 24-bit frame length and a
 list of protocol id, sequence id and total size, written with the stream writer and read
 with the lazy reader.
 */
module FrameHeader {
  import opened Bytes
  import opened Modulo
  import opened Wrappers
  import opened RlpFormat
  import opened RlpReader
  import opened RlpList
  import opened RlpStream

  const TWO_TO_THE_24: nat := 0x100_0000

  /** Whether an item can be read as a number: a string without a leading zero byte. */
  function IsInt(d: seq<byte>): (r: Read<bool>)
  {
    if d == [] then Ok(false)
    else if !Good(d) then Err(BadItem)
    else if d[0] < DATA_START then Ok(d[0] != 0)
    else if d[0] == DATA_START then Ok(true)
    else if d[0] <= DATA_START + 55 then
      if |d| <= 1 then Err(BadItem) else Ok(d[1] != 0)
    else if d[0] < LIST_START then
      var k := 1 + LengthSize(d);
      if |d| <= k then Err(BadItem) else Ok(d[k] != 0)
    else Ok(false)
  }

  /** Strict conversion to an unsigned number of at most width bytes. */
  function ToInt(d: seq<byte>, width: nat): (r: Read<nat>)
  {
    if d == [] || !Good(d) then Err(BadItem)
    else
      var number :- IsInt(d);
      if !number || d[0] >= LIST_START then Err(NotANumber)
      else
        var p :- Payload(d);
        if |p| > width then Err(NotANumber) else Ok(BigEndianValue(p))
  }

  function Number(x: nat): (t: Item)
  {
    Data(Compact(x))
  }

  /** The encoding of a number is recognised as a number. */
  lemma NumberIsInt(x: nat)
    requires BytesRequired(x) <= 8
    ensures var d := Encode(Number(x)); d != [] && Good(d) && IsInt(d) == Ok(true)
  {
    hide Encode, Compact, BytesRequired, BigEndianValue;
    var t, d := Number(x), Encode(Number(x));
    CompactDenotes(x);
    PrefixBytes(t);
    if x == 0 {
      ZeroHasNoDigits();
    } else if !Bare(t) {
      assert d[1] == d[1..][0] == Compact(x)[0];
    }
  }

  lemma ZeroHasNoDigits()
    ensures Compact(0) == []
  {
  }

  /** A number that fits reads back as itself. */
  lemma NumberReads(x: nat, width: nat)
    requires BytesRequired(x) <= width <= 8
    ensures PayloadSize(Number(x)) < READ_LIMIT
    ensures ToInt(Encode(Number(x)), width) == Ok(x)
  {
    hide IsInt, Encode, Payload, Good, Exact, Compact, BytesRequired, BigEndianValue;
    NumberIsInt(x);
    EncodingExact(Number(x));
    CompactDenotes(x);
  }

  /** And nothing else reads as a number: only the encoding of one that fits, without leading zeros, does. */
  lemma NumberReadsOnly(d: seq<byte>, width: nat, x: nat)
    requires d != [] && Exact(d).Ok? && width <= 8
    ensures ToInt(d, width) == Ok(x) <==> BytesRequired(x) <= width && d == Encode(Number(x))
  {
    hide IsInt, Encode, Payload, Good, Exact, Compact, BytesRequired, BigEndianValue;
    if ToInt(d, width) == Ok(x) {
      ReadIsCanonical(d, x);
      assert Payload(d).value == Compact(x);
    }
    if BytesRequired(x) <= width && d == Encode(Number(x)) {
      NumberReads(x, width);
    }
  }

  lemma ReadIsCanonical(d: seq<byte>, x: nat)
    requires d != [] && Exact(d).Ok? && IsInt(d) == Ok(true) && d[0] < LIST_START
    requires Payload(d).Ok? && BigEndianValue(Payload(d).value) == x && |Payload(d).value| <= 8
    ensures Compact(x) == Payload(d).value && d == Encode(Number(x))
  {
    hide BigEndianValue, Compact, BytesRequired;
    var p := Payload(d).value;
    if d[0] < DATA_START {
      assert d == [d[0]] && p == d;
    } else {
      ExactSplits(d);
      if p != [] {
        FirstDigit(d, p);
      }
    }
    CompactUnique(p);
  }

  lemma FirstDigit(d: seq<byte>, p: seq<byte>)
    requires d != [] && DATA_START <= d[0] < LIST_START && IsInt(d) == Ok(true) && 0 < |p| <= 8
    requires d == Header(DATA_START, |p|) + p
    ensures p[0] != 0
  {
    assert d[0] == DATA_START + |p| as byte && d[1] == p[0];
  }

  /**
   The three shapes of header: a packet in one frame, one frame of several (or a compressed
   packet), and the first frame of several, which also announces the total.
   */
  datatype Tag = Single | Part(compressed: bool, sequenceId: nat) | First(total: nat)

  predicate Encodable(tag: Tag) {
    match tag
    case Single => true
    case Part(_, sequenceId) => sequenceId < 0x1_0000
    case First(total) => total < TWO_TO_THE_32
  }

  function Fields(tag: Tag): (r: seq<nat>)
  {
    match tag
    case Single => [0]
    case Part(compressed, sequenceId) => [if compressed then 1 else 0, sequenceId]
    case First(total) => [1, 0, total]
  }

  function Numbers(fields: seq<nat>): (r: seq<Item>)
    ensures |r| == |fields| && forall i :: 0 <= i < |r| ==> r[i] == Number(fields[i])
    decreases |fields|
  {
    if fields == [] then [] else [Number(fields[0])] + Numbers(fields[1..])
  }

  lemma NumberSize(x: nat, width: nat)
    requires 1 <= width <= 8 && x < Pow256(width)
    ensures BytesRequired(x) <= width && Size(Number(x)) <= 1 + width
    ensures width > 1 && x >= Pow256(width - 1) ==> Size(Number(x)) == 1 + width
  {
    BytesRequiredBound(x, width);
    BytesRequiredBound(x, width - 1);
  }

  function Len24(len: nat): (r: seq<byte>)
  {
    [(len / 0x1_0000 % 256) as byte, (len / 256 % 256) as byte, (len % 256) as byte]
  }

  lemma TagFits(tag: Tag)
    requires Encodable(tag)
    ensures SizeAll(Numbers(Fields(tag))) <= 10
    ensures forall i :: 0 <= i < |Fields(tag)| ==> BytesRequired(Fields(tag)[i]) <= if i < 2 then 2 else 4
  {
    var f := Fields(tag);
    assert Pow256(2) == 0x1_0000 && Pow256(4) == TWO_TO_THE_32;
    assert Size(Number(f[0])) == 1 && BytesRequired(f[0]) <= 1;
    NumbersSize(f);
    if |f| > 1 {
      NumberSize(f[1], 2);
      NumbersSize(f[1..]);
    }
    if |f| > 2 {
      NumberSize(f[2], 4);
      NumbersSize(f[1..][1..]);
    }
  }

  lemma NumbersSize(fields: seq<nat>)
    requires fields != []
    ensures SizeAll(Numbers(fields)) == Size(Number(fields[0])) + SizeAll(Numbers(fields[1..]))
  {
    assert Numbers(fields)[1..] == Numbers(fields[1..]);
  }

  /** The header of a frame of len bytes. */
  function HeaderBytes(len: nat, tag: Tag): (h: seq<byte>)
    requires Encodable(tag)
  {
    TagFits(tag);
    Len24(len) + Encode(List(Numbers(Fields(tag))))
  }

  /** Headers always fit the sixteen bytes reserved for them. */
  lemma HeaderFits(len: nat, tag: Tag)
    requires Encodable(tag)
    ensures |HeaderBytes(len, tag)| <= 14
  {
    TagFits(tag);
  }

  /**
   The header on the wire: three bytes of length, most significant first, then a list of the protocol
   id, which tells whether the frame is compressed, the sequence id unless the packet goes in one
   plain frame, and the total size in the first frame of several.
   */
  lemma HeaderOnWire(len: nat, tag: Tag)
    requires Encodable(tag)
    ensures
      var h := HeaderBytes(len, tag);
      && |h| >= 5 && BigEndianValue(h[..3]) == len % 0x100_0000
      && match tag
         case Single => h[3..] == [0xc1, 0x80]
         case Part(false, id) => SizeAll([Data([]), Number(id)]) <= 10 && h[3..] == Encode(List([Data([]), Number(id)]))
         case Part(true, id) => SizeAll([Data([1]), Number(id)]) <= 10 && h[3..] == Encode(List([Data([1]), Number(id)]))
         case First(total) =>
           SizeAll([Data([1]), Data([]), Number(total)]) <= 10 && h[3..] == Encode(List([Data([1]), Data([]), Number(total)]))
  {
    hide Encode, EncodeAll, SizeAll, Compact, BigEndianValue;
    var h, f := HeaderBytes(len, tag), Fields(tag);
    TagFits(tag);
    LenReads(len);
    assert h[..3] == Len24(len) && h[3..] == Encode(List(Numbers(f)));
    SmallNumbers();
    assert Numbers(f) == match tag
                         case Single => [Data([])]
                         case Part(c, id) => [if c then Data([1]) else Data([]), Number(id)]
                         case First(total) => [Data([1]), Data([]), Number(total)];
    if tag.Single? {
      EmptyInList();
    }
    ListHasPrefix(Numbers(f));
  }

  lemma SmallNumbers()
    ensures Number(0) == Data([]) && Number(1) == Data([1])
  {
    assert Compact(1) == Compact(0) + [1];
  }

  lemma EmptyInList()
    ensures SizeAll([Data([])]) == 1 && Encode(List([Data([])])) == [0xc1, 0x80]
  {
    assert [Data([])][1..] == [];
    assert EncodeAll([Data([])]) == [0x80];
  }

  lemma ListHasPrefix(items: seq<Item>)
    requires items != [] && SizeAll(items) < TWO_TO_THE_64
    ensures |Encode(List(items))| >= 2
  {
    assert Size(items[0]) >= 1;
  }

  lemma LenReads(len: nat)
    ensures BigEndianValue(Len24(len)) == len % 0x100_0000
  {
    hide BigEndianValue;
    var q, r := len / 0x100_0000, len % 0x100_0000;
    assert len == 0x100_0000 * q + r;
    ModuloUnique(len / 0x1_0000, q, r / 0x1_0000, 256);
    ModuloUnique(len / 256, 256 * q + r / 0x1_0000, r / 256 % 256, 256);
    Len24Reads(r);
  }

  datatype FrameInfo = FrameInfo(length: nat, protocolId: nat, multiFrame: bool, sequenceId: nat, totalLength: nat)

  /** Item i of a payload as a number. */
  function NumberAt(p: seq<byte>, i: nat, width: nat): (r: Read<nat>)
  {
    var d :- ItemAt(p, i);
    ToInt(d, width)
  }

  /** What a receiver takes from a decrypted header; anything may follow the list. */
  function ParseHeader(h: seq<byte>): (r: Read<FrameInfo>)
    requires |h| >= 3
  {
    var data := h[3..];
    var _ :- SizeAsEncoded(data);
    var p :- Payload(data);
    var protocolId :- NumberAt(p, 0, 2);
    var count :- if data != [] && data[0] >= LIST_START then Count(p) else Ok(0);
    var sequenceId :- if count > 1 then NumberAt(p, 1, 2) else Ok(0);
    var totalLength :- if count == 3 then NumberAt(p, 2, 4) else Ok(0);
    Ok(FrameInfo(BigEndianValue(h[..3]), protocolId, count > 1, sequenceId, totalLength))
  }

  /** What parses is a list of canonical numbers, or a string without any beyond the first, that lies within the header. */
  lemma ParsedMeans(h: seq<byte>)
    requires |h| >= 3 && ParseHeader(h).Ok?
    ensures var info, data := ParseHeader(h).value, h[3..];
            && info.length == BigEndianValue(h[..3])
            && SizeAsEncoded(data).Ok? && Payload(data).Ok?
            && var p, list := Payload(data).value, data != [] && data[0] >= LIST_START;
               && NumberAt(p, 0, 2) == Ok(info.protocolId)
               && (list ==> Count(p).Ok?)
               && (info.multiFrame <==> list && Count(p).value >= 2)
               && (if info.multiFrame then NumberAt(p, 1, 2) == Ok(info.sequenceId) else info.sequenceId == 0)
               && (if list && Count(p).value == 3 then NumberAt(p, 2, 4) == Ok(info.totalLength) else info.totalLength == 0)
  {
    hide NumberAt, Count, SizeAsEncoded, Payload, BigEndianValue;
  }

  function InfoOf(len: nat, tag: Tag): (r: FrameInfo)
  {
    var f := Fields(tag);
    FrameInfo(len, f[0], |f| > 1, if |f| > 1 then f[1] else 0, if |f| == 3 then f[2] else 0)
  }

  lemma Len24Reads(len: nat)
    requires len < TWO_TO_THE_24
    ensures BigEndianValue(Len24(len)) == len
  {
    var s := Len24(len);
    ThreeBytes(s);
    var a, b, c := len / 0x1_0000, len / 256 % 256, len % 256;
    assert len == 256 * (len / 256) + c;
    assert len / 256 == 256 * a + b;
  }

  lemma ThreeBytes(s: seq<byte>)
    requires |s| == 3
    ensures BigEndianValue(s) == 256 * (256 * s[0] as int + s[1] as int) + s[2] as int
  {
    assert s[..2][..1] == s[..1] && s[..1][..0] == [];
    assert BigEndianValue(s[..1]) == s[0] as int;
    assert BigEndianValue(s[..2]) == 256 * s[0] as int + s[1] as int;
  }

  /** Every field of a header reads back, whatever bytes follow it. */
  lemma FieldReads(tag: Tag, i: nat)
    requires Encodable(tag) && i < |Fields(tag)|
    ensures SizeAll(Numbers(Fields(tag))) < READ_LIMIT
    ensures ItemAt(EncodeAll(Numbers(Fields(tag))), i).Ok?
    ensures ToInt(ItemAt(EncodeAll(Numbers(Fields(tag))), i).value, if i < 2 then 2 else 4) == Ok(Fields(tag)[i])
  {
    hide ToInt, ItemAt;
    TagFits(tag);
    EncodedItems(Numbers(Fields(tag)), i);
    NumberReads(Fields(tag)[i], if i < 2 then 2 else 4);
  }

  lemma HeaderReadsBack(len: nat, tag: Tag, rest: seq<byte>)
    requires Encodable(tag) && len < TWO_TO_THE_24
    ensures ParseHeader(HeaderBytes(len, tag) + rest) == Ok(InfoOf(len, tag))
  {
    hide ToInt, ItemAt, Count, SizeAsEncoded, Payload, BigEndianValue, Numbers, Encode, EncodeAll, SizeAll;
    var items, f := Numbers(Fields(tag)), Fields(tag);
    TagFits(tag);
    var h := HeaderBytes(len, tag) + rest;
    assert h[..3] == Len24(len) && h[3..] == Encode(List(items)) + rest;
    Len24Reads(len);
    ListReads(items, rest);
    FieldReads(tag, 0);
    if |f| > 1 {
      FieldReads(tag, 1);
    }
    if |f| > 2 {
      FieldReads(tag, 2);
    }
  }

  lemma ListReads(items: seq<Item>, rest: seq<byte>)
    requires SizeAll(items) < READ_LIMIT
    ensures var d := Encode(List(items)) + rest;
            && SizeAsEncoded(d).Ok?
            && Payload(d) == Ok(EncodeAll(items))
            && d != [] && d[0] >= LIST_START
            && Count(EncodeAll(items)) == Ok(|items|)
  {
    hide Payload, Count;
    EncodingReads(List(items), rest);
    EncodingPayload(List(items), rest);
    CountEncoded(items);
  }

  /** Appending the fields that remain leads to the buffer wanted. */
  ghost predicate Pending(b: Buffer, fields: seq<nat>, goal: Buffer) {
    Nested(b) && SizeAll(Numbers(fields)) <= 10 && Run(b, PreorderAll(Numbers(fields))) == Some(goal)
  }

  lemma PendingNext(b: Buffer, fields: seq<nat>, goal: Buffer)
    requires fields != [] && Pending(b, fields, goal)
    ensures BytesRequired(fields[0]) <= 10
    ensures var next := Step(b, AppendBytes(Compact(fields[0]))); next.Some? && Pending(next.value, fields[1..], goal)
  {
    hide Step, Compact;
    NumbersSize(fields);
    var items := Numbers(fields);
    assert items[1..] == Numbers(fields[1..]);
    assert Preorder(items[0]) == [AppendBytes(Compact(fields[0]))];
    assert PreorderAll(items)[1..] == PreorderAll(items[1..]);
  }

  lemma PendingDone(b: Buffer, fields: seq<nat>, goal: Buffer)
    requires fields == [] && Pending(b, fields, goal)
    ensures b == goal
  {
  }

  lemma PendingFirst(b: Buffer, fields: seq<nat>)
    requires Nested(b) && fields != [] && SizeAll(Numbers(fields)) <= 10 && b.lists == []
    ensures var next := Step(b, BeginList(|fields|));
            next.Some? && Pending(next.value, fields, Buffer(b.out + Encode(List(Numbers(fields))), []))
  {
    hide Encode, EncodeAll;
    var t := List(Numbers(fields));
    WritesEncoding(b, t);
    assert Preorder(t)[1..] == PreorderAll(Numbers(fields));
  }

  /** A header as the writer assembles it: raw length bytes first, then the list. */
  method WriteHeader(len: nat, tag: Tag) returns (h: seq<byte>)
    requires Encodable(tag)
    ensures h == HeaderBytes(len, tag)
  {
    hide Step, Run, Encode, EncodeAll;
    TagFits(tag);
    var f := Fields(tag);
    ghost var goal := Buffer(HeaderBytes(len, tag), []);
    var w := new Writer();
    var ok := w.AppendRaw(Len24(len), 1);
    assert w.Contents() == Buffer(Len24(len), []) by { assert [] + Len24(len) == Len24(len); }
    PendingFirst(w.Contents(), f);
    ok := w.AppendList(|f|);
    assert f[0..] == f;
    for i := 0 to |f|
      invariant Pending(w.Contents(), f[i..], goal)
    {
      PendingNext(w.Contents(), f[i..], goal);
      assert f[i..][1..] == f[i + 1..];
      ok := w.AppendInt(f[i]);
    }
    PendingDone(w.Contents(), f[|f|..], goal);
    h := w.out;
  }
}
