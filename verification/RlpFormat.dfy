/**
 The Recursive Linear-Prefix format of the Ethereum Yellow Paper, appendix B, with the
 constants of libdevcore/RLP.h. This is the reference the stream writer and the lazy
 reader are both proved against.
 */
module RlpFormat {
  import opened Bytes

  const DATA_START: byte := 0x80
  const LIST_START: byte := 0xc0
  /** Lengths below this are folded into the first byte; longer ones get length bytes. */
  const IMMEDIATE: nat := 56

  datatype Item = Data(bytes: seq<byte>) | List(items: seq<Item>)

  function HeaderSize(len: nat): (r: nat)
    ensures r >= 1
  {
    if len < IMMEDIATE then 1 else 1 + BytesRequired(len)
  }

  /** The prefix of a payload of len bytes; start is DATA_START or LIST_START. */
  function Header(start: byte, len: nat): (h: seq<byte>)
    requires start == DATA_START || start == LIST_START
    requires len < TWO_TO_THE_64
    ensures |h| == HeaderSize(len)
  {
    if len < IMMEDIATE then
      [(start as int + len) as byte]
    else
      EightBytes(len);
      [(start as int + 55 + BytesRequired(len)) as byte] + Compact(len)
  }

  /** A byte below 0x80 stands for itself. */
  predicate Bare(t: Item) {
    t.Data? && |t.bytes| == 1 && t.bytes[0] < DATA_START
  }

  function PayloadSize(t: Item): (r: nat)
    decreases t, 0
  {
    match t
    case Data(b) => |b|
    case List(items) => SizeAll(items)
  }

  function Size(t: Item): (r: nat)
    ensures r >= 1 && r >= PayloadSize(t)
    decreases t, 1
  {
    if Bare(t) then 1 else HeaderSize(PayloadSize(t)) + PayloadSize(t)
  }

  function SizeAll(items: seq<Item>): (r: nat)
    decreases items
  {
    if items == [] then 0 else Size(items[0]) + SizeAll(items[1..])
  }

  function Start(t: Item): (b: byte)
    ensures b == DATA_START || b == LIST_START
  {
    if t.Data? then DATA_START else LIST_START
  }

  /** The payload bytes. */
  function Body(t: Item): (r: seq<byte>)
    requires PayloadSize(t) < TWO_TO_THE_64
    ensures |r| == PayloadSize(t)
    decreases t, 0
  {
    match t
    case Data(b) => b
    case List(items) => EncodeAll(items)
  }

  /** The recursive encoding. The only limit is that the outermost payload has a size_t length. */
  function Encode(t: Item): (r: seq<byte>)
    requires PayloadSize(t) < TWO_TO_THE_64
    ensures |r| == Size(t)
    decreases t, 1
  {
    if Bare(t) then t.bytes else Header(Start(t), PayloadSize(t)) + Body(t)
  }

  function EncodeAll(items: seq<Item>): (r: seq<byte>)
    requires SizeAll(items) < TWO_TO_THE_64
    ensures |r| == SizeAll(items)
    decreases items
  {
    if items == [] then [] else Encode(items[0]) + EncodeAll(items[1..])
  }

  /**
   The prefixes in numbers: a byte below 0x80 stands for itself, payloads below 56 bytes have their
   length in the first byte, from 0x80 or 0xc0 on, and longer ones the number of its digits, from
   0xb7 or 0xf7 on, and then the length without leading zeros.
   */
  lemma PrefixBytes(t: Item)
    requires PayloadSize(t) < TWO_TO_THE_64
    ensures
      var d, n, k := Encode(t), PayloadSize(t), BytesRequired(PayloadSize(t));
      if t.Data? && n == 1 && t.bytes[0] < 0x80 then d == t.bytes
      else if n < 56 then
        |d| == 1 + n && d[0] as int == (if t.Data? then 0x80 else 0xc0) + n && d[1..] == Body(t)
      else
        && |d| == 1 + k + n && d[0] as int == (if t.Data? then 0xb7 else 0xf7) + k && d[1] != 0
        && BigEndianValue(d[1..1 + k]) == n && d[1 + k..] == Body(t)
  {
    hide Encode, Compact, BytesRequired, EncodeAll, SizeAll, BigEndianValue;
    EncodeIs(t);
    if !Bare(t) {
      var n, h := PayloadSize(t), Header(Start(t), PayloadSize(t));
      if n >= IMMEDIATE {
        EightBytes(n);
        CompactDenotes(n);
        HeaderSplits(h[0], Compact(n), Body(t));
      } else {
        HeaderSplits(h[0], [], Body(t));
      }
    }
  }

  lemma EncodeIs(t: Item)
    requires PayloadSize(t) < TWO_TO_THE_64
    ensures Encode(t) == if Bare(t) then t.bytes else Header(Start(t), PayloadSize(t)) + Body(t)
  {
  }

  lemma HeaderSplits(first: byte, digits: seq<byte>, body: seq<byte>)
    ensures var d := [first] + digits + body;
            d[0] == first && d[1..1 + |digits|] == digits && d[1 + |digits|..] == body
  {
  }
}
