/**
 Exactly which messages survive splitting: the size already sent is kept in 32 bits, so a
 message of 274 full chunks or more is sent from the wrong offset once it wraps.
 */
module SessionLimits {
  import opened Bytes
  import opened Wrappers
  import opened FrameHeader
  import opened Modulo
  import opened Session

  /** All frames of a message, from a point in the middle of it on. */
  function Frames(lz4: Lz4, m: seq<byte>, sequenceId: nat, sent: nat): (r: seq<Chunk>)
    requires sequenceId < 0x1_0000 && sent <= |m| && (sequenceId == 0 ==> sent == 0)
    ensures r != []
    decreases 0x1_0000 - sequenceId
  {
    PackShape(lz4, m, sequenceId, sent);
    var (c, next, sent') := Pack(lz4, m, sequenceId, sent);
    if next == 0 then [c] else [c] + Frames(lz4, m, next, sent')
  }

  /** Frame n of a message: the n-th piece of 15 MiB, compressed from 500 bytes on, under its number and at first the total. */
  predicate IsFrame(lz4: Lz4, m: seq<byte>, n: nat, c: Chunk)
    requires n * MAX_PACKET_SIZE <= |m|
  {
    var rest := m[n * MAX_PACKET_SIZE..];
    var piece := if |rest| < 15 * 1024 * 1024 then rest else rest[..15 * 1024 * 1024];
    && c.body == (if |piece| < 500 then piece else lz4.compress(piece))
    && Fields(c.tag) == (if |m| < 500 then [0]
                         else if n == 0 && |m| >= 15 * 1024 * 1024 then [1, 0, |m| % 0x1_0000_0000]
                         else [if |piece| < 500 then 0 else 1, n])
  }

  /** The frames of a message, one by one. */
  lemma {:induction false} FramesAre(lz4: Lz4, m: seq<byte>, sequenceId: nat, sent: nat, i: nat)
    requires Between(m, sequenceId, sent)
    ensures |Frames(lz4, m, sequenceId, sent)| == |m| / MAX_PACKET_SIZE + 1 - sequenceId
    ensures i < |Frames(lz4, m, sequenceId, sent)| ==>
              (sequenceId + i) * MAX_PACKET_SIZE <= |m| && IsFrame(lz4, m, sequenceId + i, Frames(lz4, m, sequenceId, sent)[i])
    decreases |m| - sent
  {
    hide Pack, Piece, Fields, IsFrame;
    var (c, next, sent') := Pack(lz4, m, sequenceId, sent);
    PackCounts(lz4, m, sequenceId, sent);
    FirstFrame(lz4, m, sequenceId, sent);
    PieceCount(m, sequenceId, sent);
    if next != 0 {
      FramesAre(lz4, m, next, sent', if i == 0 then 0 else i - 1);
    }
  }

  lemma FirstFrame(lz4: Lz4, m: seq<byte>, sequenceId: nat, sent: nat)
    requires Between(m, sequenceId, sent)
    ensures sequenceId * MAX_PACKET_SIZE <= |m| && IsFrame(lz4, m, sequenceId, Pack(lz4, m, sequenceId, sent).0)
  {
    hide Pack, Fields;
    PackShape(lz4, m, sequenceId, sent);
    PackFields(lz4, m, sequenceId, sent);
    var piece := Piece(m, sent);
    assert |m| >= sent + MAX_PACKET_SIZE ==> m[sent..][..MAX_PACKET_SIZE] == m[sent..sent + MAX_PACKET_SIZE];
  }

  lemma PieceCount(m: seq<byte>, sequenceId: nat, sent: nat)
    requires Between(m, sequenceId, sent)
    ensures |Piece(m, sent)| < MAX_PACKET_SIZE <==> |m| / MAX_PACKET_SIZE == sequenceId
    ensures sequenceId <= |m| / MAX_PACKET_SIZE
  {
    var q, r := |m| / MAX_PACKET_SIZE, |m| % MAX_PACKET_SIZE;
    assert |m| == MAX_PACKET_SIZE * q + r;
  }

  function ReceivedAll(lz4: Lz4, inbox: Inbox, cs: seq<Chunk>): (r: Option<Inbox>)
    decreases |cs|
  {
    if cs == [] then Some(inbox)
    else
      var next := Received(lz4, inbox, InfoOf(|cs[0].body|, cs[0].tag), cs[0].body);
      if next.None? then None else ReceivedAll(lz4, next.value, cs[1..])
  }

  /** The whole message and nothing else comes out at the other end. */
  predicate Survives(lz4: Lz4, m: seq<byte>) {
    ReceivedAll(lz4, Inbox([], []), Frames(lz4, m, 0, 0)) == Some(Inbox([], [m]))
  }

  /** What one frame does to the receiver, at any size. */
  lemma ReceivesAnyPiece(lz4: Lz4, m: seq<byte>, sequenceId: nat, sent: nat, inbox: Inbox)
    requires Lossless(lz4) && sequenceId < 0x1_0000 && sent <= |m|
    requires sequenceId == 0 ==> sent == 0 && inbox.multi == []
    ensures var c, piece := Pack(lz4, m, sequenceId, sent).0, Piece(m, sent);
            var r := Received(lz4, inbox, InfoOf(|c.body|, c.tag), c.body);
            if |piece| < MAX_PACKET_SIZE
            then r == if Checked(inbox.multi + piece) then Some(Inbox([], inbox.delivered + [inbox.multi + piece])) else None
            else r == Some(inbox.(multi := inbox.multi + piece))
  {
    hide Pack, Checked, Unpacked, Lossless;
    var c, piece := Pack(lz4, m, sequenceId, sent).0, Piece(m, sent);
    PackShape(lz4, m, sequenceId, sent);
    PieceAppends(m, sent);
    PieceTravels(lz4, piece);
    assert c.tag.Single? ==> inbox.multi + piece == piece;
  }

  lemma {:induction false} RestArrives(lz4: Lz4, m: seq<byte>, sequenceId: nat, sent: nat, inbox: Inbox)
    requires Lossless(lz4) && Acceptable(m) && Between(m, sequenceId, sent)
    requires inbox == Inbox(m[..sent], [])
    ensures ReceivedAll(lz4, inbox, Frames(lz4, m, sequenceId, sent)) == Some(Inbox([], [m]))
    decreases |m| - sent
  {
    hide Pack, Checked, Received, Acceptable, Lossless, Piece;
    var (c, next, sent') := Pack(lz4, m, sequenceId, sent);
    PackCounts(lz4, m, sequenceId, sent);
    PieceAppends(m, sent);
    ReceivesAnyPiece(lz4, m, sequenceId, sent, inbox);
    CheckedIsAcceptable(m);
    if next != 0 {
      RestArrives(lz4, m, next, sent', Inbox(m[..sent'], []));
      ReceivesFirst(lz4, inbox, c, Frames(lz4, m, next, sent'));
    } else {
      ReceivesFirst(lz4, inbox, c, []);
      assert [c] + [] == [c] && [] + [m] == [m];
    }
  }

  lemma ReceivesFirst(lz4: Lz4, inbox: Inbox, c: Chunk, rest: seq<Chunk>)
    ensures var next := Received(lz4, inbox, InfoOf(|c.body|, c.tag), c.body);
            ReceivedAll(lz4, inbox, [c] + rest) == if next.None? then None else ReceivedAll(lz4, next.value, rest)
  {
    hide Received;
    assert ([c] + rest)[1..] == rest;
  }

  /**
   From the limit on the sent size never comes within one chunk of the message's, so every
   frame is a full one and the receiver waits for the end in vain.
   */
  lemma {:induction false} RestIsLost(lz4: Lz4, m: seq<byte>, sequenceId: nat, sent: nat, inbox: Inbox)
    requires Lossless(lz4) && |m| >= SPLIT_LIMIT
    requires sequenceId < 0x1_0000 && sent == sequenceId * MAX_PACKET_SIZE % TWO_TO_THE_32 <= |m|
    requires sequenceId == 0 ==> inbox.multi == []
    ensures ReceivedAll(lz4, inbox, Frames(lz4, m, sequenceId, sent)).Some?
    ensures ReceivedAll(lz4, inbox, Frames(lz4, m, sequenceId, sent)).value.delivered == inbox.delivered
    decreases 0x1_0000 - sequenceId
  {
    hide Pack, Checked, Received, Lossless;
    var (c, next, sent') := Pack(lz4, m, sequenceId, sent);
    NeverNear(sequenceId);
    PackShape(lz4, m, sequenceId, sent);
    ReceivesAnyPiece(lz4, m, sequenceId, sent, inbox);
    var inbox' := inbox.(multi := inbox.multi + Piece(m, sent));
    if next == 0 {
      ReceivesFirst(lz4, inbox, c, []);
      assert [c] + [] == [c];
    } else {
      RestIsLost(lz4, m, next, sent', inbox');
      ReceivesFirst(lz4, inbox, c, Frames(lz4, m, next, sent'));
    }
  }

  /** Wrapped multiples of the chunk size stay one chunk away from the limit. */
  lemma NeverNear(k: nat)
    ensures k * MAX_PACKET_SIZE % TWO_TO_THE_32 + MAX_PACKET_SIZE <= SPLIT_LIMIT
    ensures (k * MAX_PACKET_SIZE % TWO_TO_THE_32 + MAX_PACKET_SIZE) % TWO_TO_THE_32
         == (k + 1) * MAX_PACKET_SIZE % TWO_TO_THE_32
  {
    ScaleModulo(15 * k, 4096, 0x10_0000);
    AddModulo(k * MAX_PACKET_SIZE, MAX_PACKET_SIZE, TWO_TO_THE_32);
  }

  /** An acceptable message survives exactly if it is shorter than 274 full chunks; a longer one is never delivered. */
  lemma SurvivesIff(lz4: Lz4, m: seq<byte>)
    requires Lossless(lz4) && Acceptable(m)
    ensures Survives(lz4, m) <==> |m| < SPLIT_LIMIT
  {
    hide Frames, ReceivedAll, Acceptable, Lossless;
    if |m| < SPLIT_LIMIT {
      RestArrives(lz4, m, 0, 0, Inbox([], []));
    } else {
      RestIsLost(lz4, m, 0, 0, Inbox([], []));
    }
  }
}
