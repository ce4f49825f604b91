/**
 Packet transport of libp2p/Session.cpp: a FIFO of messages is cut into frames, compressed,
 sealed, sent as one byte stream, opened, reassembled and delivered.
 */
module Session {
  import opened Bytes
  import opened Wrappers
  import opened RlpReader
  import opened FrameHeader
  import opened FrameCoder

  const MAX_PACKET_SIZE: nat := 15 * 1024 * 1024
  const MIN_COMPRESSION_SIZE: nat := 500
  /** The longest run of full chunks whose total still is a 32-bit number, and one chunk more. */
  const SPLIT_LIMIT: nat := 274 * MAX_PACKET_SIZE

  /** LZ4: decompress gets the size of the buffer it may fill. */
  datatype Lz4 = Lz4(compress: seq<byte> -> seq<byte>, decompress: (seq<byte>, nat) -> Option<seq<byte>>)

  /** Its documented behaviour: the size bounds both ways, and the way back. */
  ghost predicate Lossless(lz4: Lz4) {
    forall x: seq<byte> :: 0 < |x| <= MAX_PACKET_SIZE ==> LosslessOn(lz4, x)
  }

  ghost predicate LosslessOn(lz4: Lz4, x: seq<byte>) {
    var c := lz4.compress(x);
    && |c| <= |x| + |x| / 255 + 16
    && |x| <= 255 * |c|
    && forall size: nat :: size >= |x| ==> lz4.decompress(c, size) == Some(x)
  }

  /** The laws can be met: even storing the bytes as they are meets them. */
  lemma StoringIsLossless()
    ensures Lossless(Lz4(x => x, (c: seq<byte>, size: nat) => if |c| <= size then Some(c) else None))
  {
    var lz4 := Lz4(x => x, (c: seq<byte>, size: nat) => if |c| <= size then Some(c) else None);
    forall x: seq<byte> | 0 < |x| <= MAX_PACKET_SIZE ensures LosslessOn(lz4, x) {
      assert lz4.compress(x) == x;
    }
  }

  /** One frame before sealing: how its header is tagged and the bytes it carries. */
  datatype Chunk = Chunk(tag: Tag, body: seq<byte>)

  function Compressed(lz4: Lz4, tag: Tag, data: seq<byte>): (c: Chunk)
  {
    Chunk(tag, lz4.compress(data))
  }

  /**
   The next frame of a message, given the sequence id (16 bits, zero when none was sent) and
   the size sent so far (32 bits), and both after it; sequence id zero then means finished.
   */
  function Pack(lz4: Lz4, m: seq<byte>, sequenceId: nat, sent: nat): (r: (Chunk, nat, nat))
    requires sequenceId < 0x1_0000 && sent <= |m|
    ensures Encodable(r.0.tag) && r.1 < 0x1_0000 && r.2 <= |m|
  {
    if sequenceId != 0 then
      if |m| < sent + MAX_PACKET_SIZE then
        var data := m[sent..];
        if |data| < MIN_COMPRESSION_SIZE then (Chunk(Part(false, sequenceId), data), 0, sent)
        else (Compressed(lz4, Part(true, sequenceId), data), 0, sent)
      else
        (Compressed(lz4, Part(true, sequenceId), m[sent..sent + MAX_PACKET_SIZE]),
         (sequenceId + 1) % 0x1_0000, (sent + MAX_PACKET_SIZE) % TWO_TO_THE_32)
    else if |m| < MAX_PACKET_SIZE then
      if |m| < MIN_COMPRESSION_SIZE then (Chunk(Single, m), 0, 0)
      else (Compressed(lz4, Part(true, 0), m), 0, 0)
    else
      (Compressed(lz4, First(|m| % TWO_TO_THE_32), m[..MAX_PACKET_SIZE]), 1, MAX_PACKET_SIZE)
  }

  /** A message the other side accepts: a packet type from 1 to 0x7f and one item behind it. */
  predicate Acceptable(m: seq<byte>) {
    |m| >= 2 && 1 <= m[0] <= 0x7f && ActualSize(m[1..]) == Ok(|m| - 1)
  }

  /** Reading the packet type and checking the packet, as done before a delivery. */
  predicate Checked(frame: seq<byte>) {
    && ToInt(if frame == [] then [] else frame[..1], 4).Ok?
    && !(frame[0] > 0x7f || |frame| < 2)
    && ActualSize(frame[1..]).Ok?
    && ActualSize(frame[1..]).value + 1 == |frame|
  }

  lemma CheckedIsAcceptable(m: seq<byte>)
    ensures Checked(m) <==> Acceptable(m)
  {
    if |m| >= 2 && m[0] <= 0x7f {
      var d := m[..1];
      assert d == [m[0]] && Length(d) == Ok(1);
      assert d[0..1] == d;
    }
  }

  datatype Inbox = Inbox(multi: seq<byte>, delivered: seq<seq<byte>>)

  /** The bytes a frame carries: decompressed into a buffer of bounded size if marked so. */
  function Unpacked(lz4: Lz4, protocolId: nat, body: seq<byte>): (r: Option<seq<byte>>)
  {
    if protocolId == 0 then Some(body)
    else
      var data := lz4.decompress(body, if MAX_PACKET_SIZE < 255 * |body| then MAX_PACKET_SIZE else 255 * |body|);
      if data == Some([]) then None else data
  }

  /** What the receiver does with the decrypted bytes of a frame; None is a dropped connection. */
  function Received(lz4: Lz4, inbox: Inbox, info: FrameInfo, body: seq<byte>): (r: Option<Inbox>)
  {
    var data := Unpacked(lz4, info.protocolId, body);
    if data.None? then None
    else if info.multiFrame then
      var multi := inbox.multi + data.value;
      if |data.value| >= MAX_PACKET_SIZE then Some(inbox.(multi := multi))
      else if Checked(multi) then Some(Inbox([], inbox.delivered + [multi]))
      else None
    else if Checked(data.value) then Some(inbox.(delivered := inbox.delivered + [data.value]))
    else None
  }

  /**
   What a frame does to the receiver: the connection is dropped if its bytes do not decompress or
   complete a message that is not acceptable; otherwise a short frame, or one on its own, completes
   the message and any other is kept.
   */
  lemma ReceivedMeans(lz4: Lz4, inbox: Inbox, info: FrameInfo, body: seq<byte>)
    ensures
      var limit := if MAX_PACKET_SIZE < 255 * |body| then MAX_PACKET_SIZE else 255 * |body|;
      var data := if info.protocolId == 0 then Some(body) else lz4.decompress(body, limit);
      var r := Received(lz4, inbox, info, body);
      if data.None? || (info.protocolId != 0 && data.value == []) then r == None
      else
        var message := (if info.multiFrame then inbox.multi else []) + data.value;
        if info.multiFrame && |data.value| >= MAX_PACKET_SIZE then r == Some(Inbox(message, inbox.delivered))
        else if !Acceptable(message) then r == None
        else r == Some(Inbox(if info.multiFrame then [] else inbox.multi, inbox.delivered + [message]))
  {
    hide Checked, Acceptable;
    var data := Unpacked(lz4, info.protocolId, body);
    if data.Some? {
      CheckedIsAcceptable(inbox.multi + data.value);
      CheckedIsAcceptable(data.value);
      assert [] + data.value == data.value;
    }
  }

  /** A point in the middle of sending m. */
  predicate Between(m: seq<byte>, sequenceId: nat, sent: nat)
    ensures Between(m, sequenceId, sent) ==> sequenceId < 0x1_0000 && sent <= |m| && (sequenceId == 0 ==> sent == 0)
  {
    |m| < SPLIT_LIMIT && sequenceId <= 273 && sent == sequenceId * MAX_PACKET_SIZE <= |m|
  }

  /** The bytes of m the next frame is for: a full chunk, or less at the end of the message. */
  function Piece(m: seq<byte>, sent: nat): (r: seq<byte>)
    requires sent <= |m|
  {
    if |m| < sent + MAX_PACKET_SIZE then m[sent..] else m[sent..sent + MAX_PACKET_SIZE]
  }

  /**
   The next frame carries the next piece, compressed unless it is short; it is the last one
   if the piece is not full.
   */
  lemma PackShape(lz4: Lz4, m: seq<byte>, sequenceId: nat, sent: nat)
    requires sequenceId < 0x1_0000 && sent <= |m| && (sequenceId == 0 ==> sent == 0)
    ensures var (c, next, sent') := Pack(lz4, m, sequenceId, sent);
            var piece := Piece(m, sent);
            && c.body == (if |piece| < MIN_COMPRESSION_SIZE then piece else lz4.compress(piece))
            && Fields(c.tag)[0] == (if |piece| < MIN_COMPRESSION_SIZE then 0 else 1)
            && (c.tag.Single? ==> sequenceId == 0 && |piece| < MIN_COMPRESSION_SIZE)
            && if |piece| < MAX_PACKET_SIZE then next == 0
               else next == (sequenceId + 1) % 0x1_0000 && sent' == (sent + MAX_PACKET_SIZE) % TWO_TO_THE_32
  {
    if sequenceId == 0 {
      assert m[0..] == m;
      assert |m| >= MAX_PACKET_SIZE ==> m[0..0 + MAX_PACKET_SIZE] == m[..MAX_PACKET_SIZE];
    }
  }

  /** The header fields of the next frame: protocol id, sequence id, and in the first frame of several the total. */
  lemma PackFields(lz4: Lz4, m: seq<byte>, sequenceId: nat, sent: nat)
    requires sequenceId < 0x1_0000 && sent <= |m| && (sequenceId == 0 ==> sent == 0)
    ensures var protocol := if |Piece(m, sent)| < MIN_COMPRESSION_SIZE then 0 else 1;
            Fields(Pack(lz4, m, sequenceId, sent).0.tag)
            == if sequenceId == 0 && |m| < MIN_COMPRESSION_SIZE then [0]
               else if sequenceId == 0 && |m| >= MAX_PACKET_SIZE then [1, 0, |m| % 0x1_0000_0000]
               else [protocol, sequenceId]
  {
  }

  /** Below the limit the 16- and 32-bit counters do not wrap. */
  lemma PackCounts(lz4: Lz4, m: seq<byte>, sequenceId: nat, sent: nat)
    requires Between(m, sequenceId, sent)
    ensures var (c, next, sent') := Pack(lz4, m, sequenceId, sent);
            if |Piece(m, sent)| < MAX_PACKET_SIZE then next == 0
            else next == sequenceId + 1 && sent' == sent + MAX_PACKET_SIZE && Between(m, next, sent')
  {
    hide Pack;
    PackShape(lz4, m, sequenceId, sent);
  }

  /** The frame length always fits its 24 bits, and the receiver recovers the piece. */
  lemma PieceTravels(lz4: Lz4, piece: seq<byte>)
    requires Lossless(lz4) && |piece| <= MAX_PACKET_SIZE
    ensures var body := if |piece| < MIN_COMPRESSION_SIZE then piece else lz4.compress(piece);
            && |body| < TWO_TO_THE_24
            && Unpacked(lz4, if |piece| < MIN_COMPRESSION_SIZE then 0 else 1, body) == Some(piece)
  {
    if |piece| >= MIN_COMPRESSION_SIZE {
      assert LosslessOn(lz4, piece);
    }
  }

  lemma PieceAppends(m: seq<byte>, sent: nat)
    requires sent <= |m|
    ensures |Piece(m, sent)| <= MAX_PACKET_SIZE
    ensures m[..sent] + Piece(m, sent) == if |Piece(m, sent)| < MAX_PACKET_SIZE then m else m[..sent + MAX_PACKET_SIZE]
  {
  }

  lemma ReceivesData(lz4: Lz4, inbox: Inbox, c: Chunk, piece: seq<byte>)
    requires Unpacked(lz4, Fields(c.tag)[0], c.body) == Some(piece)
    requires c.tag.Single? ==> inbox.multi == [] && |piece| < MAX_PACKET_SIZE
    requires |piece| < MAX_PACKET_SIZE ==> Checked(inbox.multi + piece)
    ensures Received(lz4, inbox, InfoOf(|c.body|, c.tag), c.body)
         == Some(if |piece| < MAX_PACKET_SIZE then Inbox([], inbox.delivered + [inbox.multi + piece])
                 else inbox.(multi := inbox.multi + piece))
  {
    hide Unpacked, Checked;
    assert c.tag.Single? ==> inbox.multi + piece == piece;
  }

  function SealedChunk(crypto: Primitives, d: Direction, c: Chunk): (r: (Direction, seq<byte>))
    requires Encodable(c.tag)
  {
    HeaderFits(|c.body|, c.tag);
    Sealed(crypto, d, HeaderBytes(|c.body|, c.tag), c.body)
  }

  /** One pass of the read loop over the bytes that have arrived. */
  datatype Reading = Waiting | Dropped | Got(ingress: Direction, info: FrameInfo, body: seq<byte>, rest: seq<byte>)

  function ReadFrame(crypto: Primitives, d: Direction, wire: seq<byte>): (r: Reading)
  {
    if |wire| < 32 then Waiting
    else
      var header := OpenedHeader(crypto, d, wire[..32]);
      if header.None? then Dropped
      else
        var info := ParseHeader(header.value.1);
        if info.Err? then Dropped
        else
          var len := info.value.length;
          var size := 32 + len + Padding(len) + 16;
          if |wire| < size then Waiting
          else
            var body := OpenedBody(crypto, header.value.0, wire[32..size]);
            if body.None? then Dropped
            else Got(body.value.0, info.value, body.value.1[..len], wire[size..])
  }

  /** A sealed chunk arrives as it left, and reading leaves exactly the bytes behind it. */
  lemma ChunkTravels(crypto: Primitives, d: Direction, c: Chunk, rest: seq<byte>)
    requires Encodable(c.tag) && |c.body| < TWO_TO_THE_24
    ensures var (d2, frame) := SealedChunk(crypto, d, c);
            ReadFrame(crypto, d, frame + rest) == Got(d2, InfoOf(|c.body|, c.tag), c.body, rest)
  {
    hide Sealed, OpenedHeader, OpenedBody, ParseHeader, HeaderBytes, Padding;
    var header := HeaderBytes(|c.body|, c.tag);
    HeaderFits(|c.body|, c.tag);
    var (d2, frame) := Sealed(crypto, d, header, c.body);
    var wire := frame + rest;
    SealedOpens(crypto, d, header, c.body);
    assert wire[..32] == frame[..32] && wire[32..|frame|] == frame[32..] && wire[|frame|..] == rest;
    var plain := OpenedHeader(crypto, d, frame[..32]).value.1;
    assert plain == header + (Zeros(16 - |header|) + plain[16..]);
    HeaderReadsBack(|c.body|, c.tag, Zeros(16 - |header|) + plain[16..]);
    assert Padded(c.body)[..|c.body|] == c.body;
  }

  /** The part of a frame that has arrived so far is waited for, however much of it there is. */
  lemma PartIsWaitedFor(crypto: Primitives, d: Direction, c: Chunk, n: nat)
    requires Encodable(c.tag) && |c.body| < TWO_TO_THE_24 && n < |SealedChunk(crypto, d, c).1|
    ensures ReadFrame(crypto, d, SealedChunk(crypto, d, c).1[..n]) == Waiting
  {
    hide Sealed, OpenedHeader, OpenedBody, ParseHeader, HeaderBytes, Padding;
    var header := HeaderBytes(|c.body|, c.tag);
    HeaderFits(|c.body|, c.tag);
    var frame := Sealed(crypto, d, header, c.body).1;
    if n >= 32 {
      SealedOpens(crypto, d, header, c.body);
      assert frame[..n][..32] == frame[..32];
      var plain := OpenedHeader(crypto, d, frame[..32]).value.1;
      assert plain == header + (Zeros(16 - |header|) + plain[16..]);
      HeaderReadsBack(|c.body|, c.tag, Zeros(16 - |header|) + plain[16..]);
    }
  }

  /** Whatever the bytes on the wire: a frame is taken only if this very direction seals its header block and padded body into them. */
  lemma ReadIsSealed(crypto: Primitives, d: Direction, wire: seq<byte>)
    requires ReadFrame(crypto, d, wire).Got?
    ensures
      var got := ReadFrame(crypto, d, wire);
      exists block: Bytes16, body: seq<byte> ::
        && |body| % 16 == 0 && got.body <= body && |body| < |got.body| + 16
        && ParseHeader(block + wire[16..32]) == Ok(got.info) && got.info.length == |got.body|
        && wire == Sealed(crypto, d, block, body).1 + got.rest
  {
    hide Sealed, ParseHeader;
    var got := ReadFrame(crypto, d, wire);
    var header := OpenedHeader(crypto, d, wire[..32]).value;
    var len := got.info.length;
    var size := 32 + len + Padding(len) + 16;
    var body := OpenedBody(crypto, header.0, wire[32..size]).value.1;
    var block := header.1[..16];
    HeaderAcceptedIff(crypto, d, wire[..32]);
    assert wire[..size][..32] == wire[..32] && wire[..size][32..] == wire[32..size];
    OpensIffSealed(crypto, d, wire[..size], block, body);
    assert header.1 == block + wire[16..32];
    assert wire == wire[..size] + wire[size..];
  }

  /** Both ends of a connection in one direction: what queues up, travels and was delivered. */
  datatype Link = Link(
    queue: seq<seq<byte>>, sequenceId: nat, sent: nat, egress: Direction,
    wire: seq<byte>,
    ingress: Direction, inbox: Inbox)

  /** A message is handed in, a write completes, or the receiver reads what has arrived. */
  datatype Event = Send(message: seq<byte>) | Written | Read

  predicate Sendable(m: seq<byte>) {
    Acceptable(m) && |m| < SPLIT_LIMIT
  }

  /** The sending counters make sense for the front message. */
  predicate Counting(s: Link) {
    s.sequenceId < 0x1_0000 && (s.queue != [] ==> s.sent <= |s.queue[0]|)
  }

  /** Packs the next frame of the front message and puts it on the wire. */
  function Write(crypto: Primitives, lz4: Lz4, s: Link): (r: Link)
    requires s.queue != [] && Counting(s)
    ensures Counting(r) && r.queue == s.queue
  {
    var (c, next, sent') := Pack(lz4, s.queue[0], s.sequenceId, s.sent);
    var (d, frame) := SealedChunk(crypto, s.egress, c);
    s.(sequenceId := next, sent := sent', egress := d, wire := s.wire + frame)
  }

  /** Starts on the front message, if there is one. */
  function StartFront(crypto: Primitives, lz4: Lz4, s: Link): (r: Link)
    ensures Counting(r)
  {
    var s' := s.(sequenceId := 0, sent := 0);
    if s.queue == [] then s' else Write(crypto, lz4, s')
  }

  /** One event; None is a dropped connection. */
  function Step(crypto: Primitives, lz4: Lz4, s: Link, e: Event): (r: Option<Link>)
    requires Counting(s)
    ensures r.Some? ==> Counting(r.value)
  {
    match e
    case Send(m) =>
      var s' := s.(queue := s.queue + [m]);
      Some(if s.queue == [] then StartFront(crypto, lz4, s') else s')
    case Written =>
      if s.queue == [] then Some(s)
      else if s.sequenceId != 0 then Some(Write(crypto, lz4, s))
      else Some(StartFront(crypto, lz4, s.(queue := s.queue[1..])))
    case Read =>
      match ReadFrame(crypto, s.ingress, s.wire)
      case Waiting => Some(s)
      case Dropped => None
      case Got(ingress, info, body, rest) =>
        var inbox := Received(lz4, s.inbox, info, body);
        if inbox.None? then None else Some(s.(ingress := ingress, wire := rest, inbox := inbox.value))
  }

  /** A header that is not authentic drops the connection at once, and so does a body once it is complete. */
  lemma ForgeryDrops(crypto: Primitives, lz4: Lz4, s: Link)
    requires Counting(s) && |s.wire| >= 32
    ensures var header := OpenedHeader(crypto, s.ingress, s.wire[..32]);
            if header.None? || ParseHeader(header.value.1).Err? then Step(crypto, lz4, s, Read) == None
            else
              var len := ParseHeader(header.value.1).value.length;
              var size := 32 + len + Padding(len) + 16;
              |s.wire| >= size && OpenedBody(crypto, header.value.0, s.wire[32..size]).None? ==> Step(crypto, lz4, s, Read) == None
  {
    hide OpenedHeader, OpenedBody, ParseHeader, Padding, Received;
  }

  function Run(crypto: Primitives, lz4: Lz4, s: Link, events: seq<Event>): (r: Option<Link>)
    requires Counting(s)
    ensures r.Some? ==> Counting(r.value)
    decreases |events|
  {
    if events == [] then Some(s)
    else
      var next := Step(crypto, lz4, s, events[0]);
      if next.None? then None else Run(crypto, lz4, next.value, events[1..])
  }

  /** The messages handed in by a run, in order. */
  function Sends(events: seq<Event>): (r: seq<seq<byte>>)
  {
    if events == [] then []
    else (if events[0].Send? then [events[0].message] else []) + Sends(events[1..])
  }

  /** A place in the frames of a log of messages: the next frame of message index. */
  datatype Place = Place(index: nat, sequenceId: nat, sent: nat)

  predicate AllSendable(log: seq<seq<byte>>) {
    forall i :: 0 <= i < |log| ==> Sendable(log[i])
  }

  predicate In(log: seq<seq<byte>>, p: Place) {
    && p.index <= |log|
    && if p.index == |log| then p.sequenceId == 0 && p.sent == 0
       else Between(log[p.index], p.sequenceId, p.sent)
  }

  function NextPlace(lz4: Lz4, log: seq<seq<byte>>, p: Place): (r: (Chunk, Place))
    requires AllSendable(log) && In(log, p) && p.index < |log|
    ensures In(log, r.1)
    ensures r.1.index == p.index + 1 || (r.1.index == p.index && r.1.sent > p.sent)
  {
    var m := log[p.index];
    PackCounts(lz4, m, p.sequenceId, p.sent);
    var (c, next, sent') := Pack(lz4, m, p.sequenceId, p.sent);
    (c, if next == 0 then Place(p.index + 1, 0, 0) else Place(p.index, next, sent'))
  }

  /** All frames from a place to the end of the log. */
  function FramesFrom(lz4: Lz4, log: seq<seq<byte>>, p: Place): (r: seq<Chunk>)
    requires AllSendable(log) && In(log, p)
    decreases |log| - p.index, if p.index < |log| then |log[p.index]| - p.sent else 0
  {
    if p.index == |log| then []
    else
      var (c, next) := NextPlace(lz4, log, p);
      [c] + FramesFrom(lz4, log, next)
  }

  /** The receiver when everything in front of a place has been read. */
  function InboxAt(log: seq<seq<byte>>, p: Place): (r: Inbox)
    requires In(log, p)
  {
    Inbox(if p.index < |log| then log[p.index][..p.sent] else [], log[..p.index])
  }

  lemma NextCarriesPiece(lz4: Lz4, log: seq<seq<byte>>, p: Place)
    requires Lossless(lz4) && AllSendable(log) && In(log, p) && p.index < |log|
    ensures var (c, next) := NextPlace(lz4, log, p);
            var piece := Piece(log[p.index], p.sent);
            && |c.body| < TWO_TO_THE_24
            && Unpacked(lz4, Fields(c.tag)[0], c.body) == Some(piece)
            && (c.tag.Single? ==> p.sent == 0 && |piece| < MAX_PACKET_SIZE)
  {
    hide Pack, Unpacked, Lossless, Piece, Fields, Sendable;
    PackShape(lz4, log[p.index], p.sequenceId, p.sent);
    PieceAppends(log[p.index], p.sent);
    PieceTravels(lz4, Piece(log[p.index], p.sent));
  }

  lemma InboxMoves(lz4: Lz4, log: seq<seq<byte>>, p: Place)
    requires AllSendable(log) && In(log, p) && p.index < |log|
    ensures var (c, next) := NextPlace(lz4, log, p);
            var inbox, piece := InboxAt(log, p), Piece(log[p.index], p.sent);
            && InboxAt(log, next) == (if |piece| < MAX_PACKET_SIZE
                                      then Inbox([], inbox.delivered + [inbox.multi + piece])
                                      else inbox.(multi := inbox.multi + piece))
            && (|piece| < MAX_PACKET_SIZE ==> inbox.multi + piece == log[p.index])
  {
    hide Pack, Sendable, Fields;
    var m := log[p.index];
    PackCounts(lz4, m, p.sequenceId, p.sent);
    PieceAppends(m, p.sent);
    assert log[..p.index] + [m] == log[..p.index + 1];
  }

  /** One frame moves the receiver on by one place: the last frame of a message delivers it and only it. */
  lemma ReceivesNext(lz4: Lz4, log: seq<seq<byte>>, p: Place)
    requires Lossless(lz4) && AllSendable(log) && In(log, p) && p.index < |log|
    ensures var (c, next) := NextPlace(lz4, log, p);
            && |c.body| < TWO_TO_THE_24
            && Received(lz4, InboxAt(log, p), InfoOf(|c.body|, c.tag), c.body) == Some(InboxAt(log, next))
  {
    hide NextPlace, Unpacked, Checked, Acceptable, Received, Piece;
    var m := log[p.index];
    NextCarriesPiece(lz4, log, p);
    InboxMoves(lz4, log, p);
    assert Sendable(m);
    CheckedIsAcceptable(m);
    ReceivesData(lz4, InboxAt(log, p), NextPlace(lz4, log, p).0, Piece(m, p.sent));
  }

  predicate AllEncodable(cs: seq<Chunk>) {
    forall i :: 0 <= i < |cs| ==> Encodable(cs[i].tag)
  }

  function SealedChunks(crypto: Primitives, d: Direction, cs: seq<Chunk>): (r: (Direction, seq<byte>))
    requires AllEncodable(cs)
    decreases |cs|
  {
    if cs == [] then (d, [])
    else
      var (d1, first) := SealedChunk(crypto, d, cs[0]);
      var (d2, rest) := SealedChunks(crypto, d1, cs[1..]);
      (d2, first + rest)
  }

  lemma {:induction false} SealedChunksAppend(crypto: Primitives, d: Direction, cs: seq<Chunk>, c: Chunk)
    requires AllEncodable(cs) && Encodable(c.tag)
    ensures AllEncodable(cs + [c])
    ensures
      var (d1, wire) := SealedChunks(crypto, d, cs);
      var (d2, last) := SealedChunk(crypto, d1, c);
      SealedChunks(crypto, d, cs + [c]) == (d2, wire + last)
    decreases |cs|
  {
    hide SealedChunk;
    if cs == [] {
      var (d2, last) := SealedChunk(crypto, d, c);
      assert [] + [c] == [c] && [c][1..] == [] && last + [] == last && [] + last == last;
    } else {
      var (d1, first) := SealedChunk(crypto, d, cs[0]);
      SealedChunksAppend(crypto, d1, cs[1..], c);
      assert (cs + [c])[1..] == cs[1..] + [c];
      var (d2, rest) := SealedChunks(crypto, d1, cs[1..]);
      ConcatAssociative(first, rest, SealedChunk(crypto, d2, c).1);
    }
  }

  lemma {:induction false} FramesExtend(lz4: Lz4, log: seq<seq<byte>>, m: seq<byte>, p: Place)
    requires AllSendable(log) && Sendable(m) && In(log, p)
    ensures AllSendable(log + [m]) && In(log + [m], p) && In(log + [m], Place(|log|, 0, 0))
    ensures FramesFrom(lz4, log + [m], p)
         == FramesFrom(lz4, log, p) + FramesFrom(lz4, log + [m], Place(|log|, 0, 0))
    decreases |log| - p.index, if p.index < |log| then |log[p.index]| - p.sent else 0
  {
    assert Between(m, 0, 0);
    hide Pack, Sendable;
    if p.index < |log| {
      var (c, next) := NextPlace(lz4, log, p);
      FramesExtend(lz4, log, m, next);
      assert NextPlace(lz4, log + [m], p) == (c, next);
      ConcatAssociative([c], FramesFrom(lz4, log, next), FramesFrom(lz4, log + [m], Place(|log|, 0, 0)));
    } else {
      var rest := FramesFrom(lz4, log + [m], p);
      assert [] + rest == rest;
    }
  }

  /** The place of the next frame the sender will write. */
  function Outgoing(s: Link, log: seq<seq<byte>>): (p: Place)
    requires |s.queue| <= |log|
  {
    var front := |log| - |s.queue|;
    if s.queue == [] then Place(|log|, 0, 0)
    else if s.sequenceId == 0 then Place(front + 1, 0, 0)
    else Place(front, s.sequenceId, s.sent)
  }

  /** The queue is the unfinished end of the log. */
  predicate Queued(s: Link, log: seq<seq<byte>>) {
    AllSendable(log) && |s.queue| <= |log| && s.queue == log[|log| - |s.queue|..]
  }

  /**
   What holds in every reachable state, given all messages sent so far: the frames from the
   receiver's place to the sender's place are exactly those on the wire, the wire is their
   sealing by the receiver's key stream and MAC state, and the inbox is that of its place.
   */
  ghost predicate Invariant(crypto: Primitives, lz4: Lz4, s: Link, log: seq<seq<byte>>, pending: seq<Chunk>, r: Place)
    ensures Invariant(crypto, lz4, s, log, pending, r) ==> Counting(s)
  {
    && Counting(s) && Queued(s, log)
    && In(log, r) && In(log, Outgoing(s, log))
    && s.inbox == InboxAt(log, r)
    && OnTheWire(crypto, lz4, s, log, pending, r, Outgoing(s, log))
  }

  ghost predicate OnTheWire(crypto: Primitives, lz4: Lz4, s: Link, log: seq<seq<byte>>, pending: seq<Chunk>,
                            from: Place, to: Place)
    requires AllSendable(log) && In(log, from) && In(log, to)
  {
    && FramesFrom(lz4, log, from) == pending + FramesFrom(lz4, log, to)
    && AllEncodable(pending)
    && SealedChunks(crypto, s.ingress, pending) == (s.egress, s.wire)
  }

  /** Writing a frame moves the sender on by one place and the frame onto the wire. */
  lemma WriteMoves(crypto: Primitives, lz4: Lz4, s: Link, log: seq<seq<byte>>, pending: seq<Chunk>, r: Place, p: Place)
    requires Counting(s) && Queued(s, log) && s.queue != []
    requires p == Place(|log| - |s.queue|, s.sequenceId, s.sent)
    requires In(log, r) && In(log, p) && OnTheWire(crypto, lz4, s, log, pending, r, p)
    ensures var s', next := Write(crypto, lz4, s), NextPlace(lz4, log, p);
            && Outgoing(s', log) == next.1
            && |FramesFrom(lz4, log, next.1)| == |FramesFrom(lz4, log, p)| - 1
            && OnTheWire(crypto, lz4, s', log, pending + [next.0], r, next.1)
  {
    hide Pack, SealedChunk, Sendable, SealedChunks;
    var (c, next) := NextPlace(lz4, log, p);
    assert s.queue[0] == log[p.index];
    SealedChunksAppend(crypto, s.ingress, pending, c);
    ConcatAssociative(pending, [c], FramesFrom(lz4, log, next));
  }

  /** What is left to do: a frame still to be written counts twice, one on the wire once. */
  function Work(lz4: Lz4, s: Link, log: seq<seq<byte>>, pending: seq<Chunk>): (r: nat)
    requires Queued(s, log) && In(log, Outgoing(s, log))
  {
    2 * |FramesFrom(lz4, log, Outgoing(s, log))| + |s.queue| + |pending|
  }

  lemma StartMoves(crypto: Primitives, lz4: Lz4, s: Link, log: seq<seq<byte>>, pending: seq<Chunk>, r: Place)
    returns (pending': seq<Chunk>)
    requires Queued(s, log) && In(log, r) && In(log, Place(|log| - |s.queue|, 0, 0))
    requires OnTheWire(crypto, lz4, s, log, pending, r, Place(|log| - |s.queue|, 0, 0))
    requires s.inbox == InboxAt(log, r)
    ensures Invariant(crypto, lz4, StartFront(crypto, lz4, s), log, pending', r)
    ensures Work(lz4, StartFront(crypto, lz4, s), log, pending')
         <= 2 * |FramesFrom(lz4, log, Place(|log| - |s.queue|, 0, 0))| + |s.queue| + |pending|
  {
    hide Pack, SealedChunk, Sendable, SealedChunks, FramesFrom;
    var p := Place(|log| - |s.queue|, 0, 0);
    if s.queue == [] {
      pending' := pending;
    } else {
      var s' := s.(sequenceId := 0, sent := 0);
      WriteMoves(crypto, lz4, s', log, pending, r, p);
      pending' := pending + [NextPlace(lz4, log, p).0];
    }
  }

  lemma SendKeeps(crypto: Primitives, lz4: Lz4, s: Link, log: seq<seq<byte>>, pending: seq<Chunk>, r: Place, m: seq<byte>)
    returns (pending': seq<Chunk>)
    requires Invariant(crypto, lz4, s, log, pending, r) && Sendable(m)
    ensures Step(crypto, lz4, s, Send(m)).Some?
    ensures Invariant(crypto, lz4, Step(crypto, lz4, s, Send(m)).value, log + [m], pending', r)
  {
    hide Pack, SealedChunk, SealedChunks, Sendable, FramesFrom;
    var s', log' := s.(queue := s.queue + [m]), log + [m];
    FramesExtend(lz4, log, m, r);
    FramesExtend(lz4, log, m, Outgoing(s, log));
    ConcatAssociative(pending, FramesFrom(lz4, log, Outgoing(s, log)), FramesFrom(lz4, log', Place(|log|, 0, 0)));
    assert s'.queue == log'[|log'| - |s'.queue|..];
    assert InboxAt(log', r) == InboxAt(log, r);
    if s.queue == [] {
      pending' := StartMoves(crypto, lz4, s', log', pending, r);
    } else {
      pending' := pending;
    }
  }

  lemma WrittenKeeps(crypto: Primitives, lz4: Lz4, s: Link, log: seq<seq<byte>>, pending: seq<Chunk>, r: Place)
    returns (pending': seq<Chunk>)
    requires Invariant(crypto, lz4, s, log, pending, r)
    ensures Step(crypto, lz4, s, Written).Some?
    ensures Invariant(crypto, lz4, Step(crypto, lz4, s, Written).value, log, pending', r)
    ensures s.queue != [] ==> Work(lz4, Step(crypto, lz4, s, Written).value, log, pending') < Work(lz4, s, log, pending)
  {
    hide Pack, SealedChunk, SealedChunks, Sendable, FramesFrom;
    pending' := pending;
    if s.queue != [] {
      if s.sequenceId != 0 {
        var p := Outgoing(s, log);
        WriteMoves(crypto, lz4, s, log, pending, r, p);
        pending' := pending + [NextPlace(lz4, log, p).0];
      } else {
        var s' := s.(queue := s.queue[1..]);
        assert s'.queue == log[|log| - |s'.queue|..];
        pending' := StartMoves(crypto, lz4, s', log, pending, r);
      }
    }
  }

  /** Reading never fails; it takes the first frame off the wire and moves the receiver on by one place. */
  lemma ReadKeeps(crypto: Primitives, lz4: Lz4, s: Link, log: seq<seq<byte>>, pending: seq<Chunk>, r: Place)
    returns (pending': seq<Chunk>, r': Place)
    requires Lossless(lz4) && Invariant(crypto, lz4, s, log, pending, r)
    ensures Step(crypto, lz4, s, Read).Some?
    ensures Invariant(crypto, lz4, Step(crypto, lz4, s, Read).value, log, pending', r')
    ensures Step(crypto, lz4, s, Read).value.queue == s.queue
    ensures pending != [] ==>
              && |pending'| < |pending|
              && Work(lz4, Step(crypto, lz4, s, Read).value, log, pending') < Work(lz4, s, log, pending)
  {
    hide Pack, SealedChunk, Sendable, Received, ReadFrame, Lossless, InboxAt, NextPlace;
    if pending == [] {
      assert ReadFrame(crypto, s.ingress, []) == Waiting by { NothingToRead(crypto, s.ingress); }
      pending', r' := pending, r;
    } else {
      var c := pending[0];
      assert FramesFrom(lz4, log, r)[0] == c;
      var next := NextPlace(lz4, log, r);
      assert next.0 == c;
      ReceivesNext(lz4, log, r);
      var (d1, first) := SealedChunk(crypto, s.ingress, c);
      ChunkTravels(crypto, s.ingress, c, SealedChunks(crypto, d1, pending[1..]).1);
      pending', r' := pending[1..], next.1;
      assert FramesFrom(lz4, log, r)[1..] == FramesFrom(lz4, log, r');
      assert (pending + FramesFrom(lz4, log, Outgoing(s, log)))[1..] == pending' + FramesFrom(lz4, log, Outgoing(s, log));
    }
  }

  lemma NothingToRead(crypto: Primitives, d: Direction)
    ensures ReadFrame(crypto, d, []) == Waiting
  {
  }

  predicate GoodEvents(events: seq<Event>) {
    forall i :: 0 <= i < |events| && events[i].Send? ==> Sendable(events[i].message)
  }

  lemma StepKeeps(crypto: Primitives, lz4: Lz4, s: Link, log: seq<seq<byte>>, pending: seq<Chunk>, r: Place, e: Event)
    returns (pending': seq<Chunk>, r': Place)
    requires Lossless(lz4) && Invariant(crypto, lz4, s, log, pending, r) && GoodEvents([e])
    ensures Step(crypto, lz4, s, e).Some?
    ensures Invariant(crypto, lz4, Step(crypto, lz4, s, e).value, log + Sends([e]), pending', r')
  {
    hide *;
    SendsOne(log, e);
    r' := r;
    match e {
      case Send(m) =>
        pending' := SendKeeps(crypto, lz4, s, log, pending, r, m);
      case Written =>
        pending' := WrittenKeeps(crypto, lz4, s, log, pending, r);
      case Read =>
        pending', r' := ReadKeeps(crypto, lz4, s, log, pending, r);
    }
  }

  lemma {:induction false} RunKeeps(crypto: Primitives, lz4: Lz4, s: Link, log: seq<seq<byte>>, pending: seq<Chunk>,
      r: Place, events: seq<Event>) returns (pending': seq<Chunk>, r': Place)
    requires Lossless(lz4) && Invariant(crypto, lz4, s, log, pending, r) && GoodEvents(events)
    ensures Run(crypto, lz4, s, events).Some?
    ensures Invariant(crypto, lz4, Run(crypto, lz4, s, events).value, log + Sends(events), pending', r')
    decreases |events|
  {
    hide Step, Invariant, Lossless, Sendable;
    if events == [] {
      pending', r' := pending, r;
      assert log + Sends(events) == log;
    } else {
      var e, rest := events[0], events[1..];
      pending', r' := StepKeeps(crypto, lz4, s, log, pending, r, e);
      SendsFirst(events);
      ConcatAssociative(log, Sends([e]), Sends(rest));
      pending', r' := RunKeeps(crypto, lz4, Step(crypto, lz4, s, e).value, log + Sends([e]), pending', r', rest);
    }
  }

  lemma SendsOne(log: seq<seq<byte>>, e: Event)
    ensures log + Sends([e]) == if e.Send? then log + [e.message] else log
    ensures GoodEvents([e]) && e.Send? ==> Sendable(e.message)
  {
    assert e == [e][0] && Sends([e][1..]) == [];
  }

  lemma SendsFirst(events: seq<Event>)
    requires events != []
    ensures Sends(events) == Sends([events[0]]) + Sends(events[1..])
  {
    assert [events[0]][1..] == [];
  }

  ghost predicate AllAcceptable(messages: seq<seq<byte>>) {
    forall i :: 0 <= i < |messages| ==> Acceptable(messages[i])
  }

  /** Whatever is on the wire and whatever happens, nothing is delivered that is not acceptable. */
  lemma {:induction false} OnlyAcceptableDelivered(crypto: Primitives, lz4: Lz4, s: Link, events: seq<Event>)
    requires Counting(s) && AllAcceptable(s.inbox.delivered)
    requires Run(crypto, lz4, s, events).Some?
    ensures s.inbox.delivered <= Run(crypto, lz4, s, events).value.inbox.delivered
    ensures AllAcceptable(Run(crypto, lz4, s, events).value.inbox.delivered)
    decreases |events|
  {
    hide Acceptable, Received, ReadFrame, Write;
    if events != [] {
      var next := Step(crypto, lz4, s, events[0]).value;
      if events[0].Read? && ReadFrame(crypto, s.ingress, s.wire).Got? {
        var got := ReadFrame(crypto, s.ingress, s.wire);
        ReceivedMeans(lz4, s.inbox, got.info, got.body);
      }
      SameInbox(crypto, lz4, s, events[0]);
      OnlyAcceptableDelivered(crypto, lz4, next, events[1..]);
    }
  }

  lemma SameInbox(crypto: Primitives, lz4: Lz4, s: Link, e: Event)
    requires Counting(s) && Step(crypto, lz4, s, e).Some?
    ensures !e.Read? || !ReadFrame(crypto, s.ingress, s.wire).Got? ==> Step(crypto, lz4, s, e).value.inbox == s.inbox
  {
    hide ReadFrame, Received, Pack, SealedChunk;
  }

  /** A connection right after its coders were set up, seen in one direction. */
  function Fresh(sender: Coder, receiver: Coder): (s: Link)
  {
    Link([], 0, 0, sender.egress, [], receiver.ingress, Inbox([], []))
  }

  /**
   Nothing is dropped, and what was delivered is the beginning of what was sent; once queue and
   wire are empty it is all of it, and both ends agree on cipher position and MAC state.
   */
  ghost predicate Delivers(crypto: Primitives, lz4: Lz4, sender: Coder, receiver: Coder, events: seq<Event>) {
    var end := Run(crypto, lz4, Fresh(sender, receiver), events);
    && end.Some?
    && end.value.inbox.delivered <= Sends(events)
    && (end.value.queue == [] && end.value.wire == [] ==>
          end.value.inbox == Inbox([], Sends(events)) && end.value.egress == end.value.ingress)
  }

  /** Every run of a connection delivers in that sense. */
  lemma DeliversInOrder(crypto: Primitives, lz4: Lz4, sender: Coder, receiver: Coder, events: seq<Event>)
    requires Lossless(lz4) && Crossed(sender, receiver) && GoodEvents(events)
    ensures Delivers(crypto, lz4, sender, receiver, events)
  {
    hide Run, Invariant, Lossless;
    var s := Fresh(sender, receiver);
    FreshInvariant(crypto, lz4, s);
    var pending, r := RunKeeps(crypto, lz4, s, [], [], Place(0, 0, 0), events);
    assert [] + Sends(events) == Sends(events);
    InvariantDelivers(crypto, lz4, Run(crypto, lz4, s, events).value, Sends(events), pending, r);
  }

  lemma FreshInvariant(crypto: Primitives, lz4: Lz4, s: Link)
    requires s.queue == [] && s.wire == [] && s.egress == s.ingress && s.inbox == Inbox([], []) && s.sequenceId == 0
    ensures Invariant(crypto, lz4, s, [], [], Place(0, 0, 0))
  {
  }

  lemma InvariantDelivers(crypto: Primitives, lz4: Lz4, s: Link, log: seq<seq<byte>>, pending: seq<Chunk>, r: Place)
    requires Invariant(crypto, lz4, s, log, pending, r)
    ensures s.inbox.delivered <= log
    ensures s.queue == [] && s.wire == [] ==> s.inbox == Inbox([], log) && s.egress == s.ingress
  {
    hide Pack, Sendable;
    if s.queue == [] && s.wire == [] {
      assert pending == [];
      assert FramesFrom(lz4, log, r) == [];
    }
  }

  /** From every reachable state, completing writes and reading what arrives drains the connection. */
  lemma {:induction false} Drains(crypto: Primitives, lz4: Lz4, s: Link, log: seq<seq<byte>>, pending: seq<Chunk>, r: Place)
    returns (events: seq<Event>)
    requires Lossless(lz4) && Invariant(crypto, lz4, s, log, pending, r)
    ensures Sends(events) == []
    ensures var end := Run(crypto, lz4, s, events);
            && end.Some? && end.value.queue == [] && end.value.wire == []
            && end.value.inbox == Inbox([], log) && end.value.egress == end.value.ingress
    decreases Work(lz4, s, log, pending)
  {
    hide Step, Lossless, Sendable, Work, FramesFrom, SealedChunks;
    if s.queue != [] {
      var pending' := WrittenKeeps(crypto, lz4, s, log, pending, r);
      var rest := Drains(crypto, lz4, Step(crypto, lz4, s, Written).value, log, pending', r);
      events := [Written] + rest;
      assert events[1..] == rest;
    } else if pending != [] {
      var pending', r' := ReadKeeps(crypto, lz4, s, log, pending, r);
      var rest := Drains(crypto, lz4, Step(crypto, lz4, s, Read).value, log, pending', r');
      events := [Read] + rest;
      assert events[1..] == rest;
    } else {
      events := [];
      NothingPending(crypto, lz4, s, log, r);
    }
  }

  lemma NothingPending(crypto: Primitives, lz4: Lz4, s: Link, log: seq<seq<byte>>, r: Place)
    requires Invariant(crypto, lz4, s, log, [], r) && s.queue == []
    ensures s.wire == [] && s.inbox == Inbox([], log) && s.egress == s.ingress
  {
    InvariantDelivers(crypto, lz4, s, log, [], r);
  }

  lemma {:induction false} RunFurther(crypto: Primitives, lz4: Lz4, s: Link, events: seq<Event>, more: seq<Event>)
    requires Counting(s)
    ensures Run(crypto, lz4, s, events + more)
            == if Run(crypto, lz4, s, events).None? then None else Run(crypto, lz4, Run(crypto, lz4, s, events).value, more)
    decreases |events|
  {
    hide Step;
    if events == [] {
      assert events + more == more;
    } else {
      assert (events + more)[1..] == events[1..] + more;
      var next := Step(crypto, lz4, s, events[0]);
      if next.Some? {
        RunFurther(crypto, lz4, next.value, events[1..], more);
      }
    }
  }

  /** Whatever has happened, finitely many write completions and reads deliver all that was sent. */
  lemma AlwaysDrains(crypto: Primitives, lz4: Lz4, sender: Coder, receiver: Coder, events: seq<Event>) returns (more: seq<Event>)
    requires Lossless(lz4) && Crossed(sender, receiver) && GoodEvents(events)
    ensures Sends(more) == []
    ensures var end := Run(crypto, lz4, Fresh(sender, receiver), events + more);
            && end.Some? && end.value.queue == [] && end.value.wire == []
            && end.value.inbox == Inbox([], Sends(events)) && end.value.egress == end.value.ingress
  {
    hide Run, Invariant, Lossless;
    var s := Fresh(sender, receiver);
    FreshInvariant(crypto, lz4, s);
    var pending, r := RunKeeps(crypto, lz4, s, [], [], Place(0, 0, 0), events);
    assert [] + Sends(events) == Sends(events);
    more := Drains(crypto, lz4, Run(crypto, lz4, s, events).value, Sends(events), pending, r);
    RunFurther(crypto, lz4, s, events, more);
  }

  /**
   From the handshake to delivery: the coders that the two ends of one handshake set up carry
   whatever is sent, in both directions at once.
   */
  lemma HandshakeToDelivery(crypto: Primitives, lz4: Lz4, initiator: Bytes32, recipient: Bytes32, initiatorNonce: Bytes32,
      recipientNonce: Bytes32, ackCipher: seq<byte>, authCipher: seq<byte>, there: seq<Event>, back: seq<Event>)
    requires Commutes(crypto) && Lossless(lz4) && GoodEvents(there) && GoodEvents(back)
    ensures
      var a := Established(crypto, true, crypto.publicOf(recipient), recipientNonce, initiator, initiatorNonce,
                           ackCipher, authCipher);
      var b := Established(crypto, false, crypto.publicOf(initiator), initiatorNonce, recipient, recipientNonce,
                           ackCipher, authCipher);
      && (a.Some? <==> b.Some?)
      && (a.Some? ==> Delivers(crypto, lz4, a.value, b.value, there) && Delivers(crypto, lz4, b.value, a.value, back))
  {
    hide Run, Lossless, Commutes;
    SetupCrosses(crypto, initiator, recipient, initiatorNonce, recipientNonce, ackCipher, authCipher);
    var a := Established(crypto, true, crypto.publicOf(recipient), recipientNonce, initiator, initiatorNonce,
                         ackCipher, authCipher);
    var b := Established(crypto, false, crypto.publicOf(initiator), initiatorNonce, recipient, recipientNonce,
                         ackCipher, authCipher);
    if a.Some? {
      DeliversInOrder(crypto, lz4, a.value, b.value, there);
      DeliversInOrder(crypto, lz4, b.value, a.value, back);
    }
  }
}
