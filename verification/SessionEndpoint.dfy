/**
 One end of a session as the objects of libp2p/Session.cpp run it: a write queue in front of
 a frame coder, and the buffer in which frames are put back together.
 */
module SessionEndpoint {
  import opened Bytes
  import opened Wrappers
  import opened FrameHeader
  import opened FrameCoder
  import opened Session

  class Endpoint {
    const lz4: Lz4
    const io: RlpxFrameCoder
    var writeQueue: seq<seq<byte>>
    var sequenceId: nat
    var sentSize: nat
    var out: seq<byte>
    var multiData: seq<byte>
    var delivered: seq<seq<byte>>

    constructor (lz4: Lz4, io: RlpxFrameCoder)
      ensures this.lz4 == lz4 && this.io == io
      ensures writeQueue == [] && sequenceId == 0 && sentSize == 0 && multiData == [] && delivered == []
    {
      this.lz4, this.io := lz4, io;
      writeQueue, sequenceId, sentSize, out, multiData, delivered := [], 0, 0, [], [], [];
    }

    ghost function Collected(): (inbox: Inbox)
      reads this
    {
      Inbox(multiData, delivered)
    }

    /** This end's sending half together with a wire and the other end's receiving half. */
    ghost function Sending(wire: seq<byte>, ingress: Direction, inbox: Inbox): (s: Link)
      reads this, io
    {
      Link(writeQueue, sequenceId, sentSize, io.egress, wire, ingress, inbox)
    }

    /** Builds a frame from a tag and the bytes it carries. */
    method WriteChunk(tag: Tag, body: seq<byte>)
      requires Encodable(tag)
      modifies this`out, io`egress
      ensures (io.egress, out) == SealedChunk(io.crypto, old(io.egress), Chunk(tag, body))
    {
      HeaderFits(|body|, tag);
      var header := WriteHeader(|body|, tag);
      var frame := io.WriteFrame(header, body);
      out := frame[..];
    }

    /** Packs the next frame of the front message, advancing the counters in place. */
    method SplitAndPack()
      requires writeQueue != [] && sequenceId < 0x1_0000 && sentSize <= |writeQueue[0]|
      modifies this`sequenceId, this`sentSize, this`out, io`egress
      ensures var (c, next, sent) := Pack(lz4, writeQueue[0], old(sequenceId), old(sentSize));
              && (sequenceId, sentSize) == (next, sent)
              && (io.egress, out) == SealedChunk(io.crypto, old(io.egress), c)
    {
      hide SealedChunk;
      var payload := writeQueue[0];
      if sequenceId != 0 {
        if |payload| < sentSize + MAX_PACKET_SIZE {
          var data := payload[sentSize..];
          if |data| < MIN_COMPRESSION_SIZE {
            WriteChunk(Part(false, sequenceId), data);
          } else {
            WriteChunk(Part(true, sequenceId), lz4.compress(data));
          }
          sequenceId := 0;
        } else {
          WriteChunk(Part(true, sequenceId), lz4.compress(payload[sentSize..sentSize + MAX_PACKET_SIZE]));
          sequenceId := (sequenceId + 1) % 0x1_0000;
          sentSize := (sentSize + MAX_PACKET_SIZE) % TWO_TO_THE_32;
        }
      } else {
        if |payload| < MAX_PACKET_SIZE {
          if |payload| < MIN_COMPRESSION_SIZE {
            WriteChunk(Single, payload);
          } else {
            WriteChunk(Part(true, 0), lz4.compress(payload));
          }
          sentSize := 0;
        } else {
          WriteChunk(First(|payload| % TWO_TO_THE_32), lz4.compress(payload[..MAX_PACKET_SIZE]));
          sequenceId := 1;
          sentSize := MAX_PACKET_SIZE;
        }
      }
    }

    /** Queues a message, and starts writing if nothing else is being written. */
    method Send(message: seq<byte>) returns (written: seq<byte>)
      requires sequenceId < 0x1_0000
      requires writeQueue != [] ==> sentSize <= |writeQueue[0]|
      modifies this`writeQueue, this`sequenceId, this`sentSize, this`out, io`egress
      ensures sequenceId < 0x1_0000 && writeQueue != [] && sentSize <= |writeQueue[0]|
      ensures forall wire: seq<byte>, ingress: Direction, inbox: Inbox ::
                Some(Sending(wire + written, ingress, inbox))
                == Step(io.crypto, lz4, old(Sending(wire, ingress, inbox)), Event.Send(message))
    {
      hide SealedChunk, Pack;
      writeQueue := writeQueue + [message];
      if |writeQueue| == 1 {
        sequenceId, sentSize := 0, 0;
        SplitAndPack();
        written := out;
      } else {
        written := [];
        assert forall wire: seq<byte> :: wire + [] == wire;
      }
    }

    /** A write has completed: go on with the front message or with the next one. */
    method OnWritten() returns (written: seq<byte>)
      requires writeQueue != [] && sequenceId < 0x1_0000 && sentSize <= |writeQueue[0]|
      modifies this`writeQueue, this`sequenceId, this`sentSize, this`out, io`egress
      ensures sequenceId < 0x1_0000 && (writeQueue != [] ==> sentSize <= |writeQueue[0]|)
      ensures forall wire: seq<byte>, ingress: Direction, inbox: Inbox ::
                Some(Sending(wire + written, ingress, inbox))
                == Step(io.crypto, lz4, old(Sending(wire, ingress, inbox)), Written)
    {
      hide SealedChunk, Pack;
      if sequenceId == 0 {
        writeQueue := writeQueue[1..];
        sentSize := 0;
        if writeQueue == [] {
          written := [];
          assert forall wire: seq<byte> :: wire + [] == wire;
          return;
        }
      }
      SplitAndPack();
      written := out;
    }

    /** What the read loop does with one frame once all its bytes have arrived. */
    method DoRead(wire: seq<byte>) returns (ok: bool, rest: seq<byte>)
      requires !ReadFrame(io.crypto, io.ingress, wire).Waiting?
      modifies this`multiData, this`delivered, io`ingress
      ensures var got := ReadFrame(io.crypto, old(io.ingress), wire);
              var inbox := if got.Dropped? then None else Session.Received(lz4, old(Collected()), got.info, got.body);
              && (ok <==> inbox.Some?)
              && (ok ==> Collected() == inbox.value && io.ingress == got.ingress && rest == got.rest)
    {
      hide OpenedHeader, OpenedBody, ParseHeader, Checked, Padding;
      rest := wire;
      var data := new byte[32](i requires 0 <= i < 32 => wire[i]);
      assert data[..] == wire[..32];
      ok := io.AuthAndDecryptHeader(data);
      if !ok {
        return;
      }
      var info := ParseHeader(data[..]);
      if info.Err? {
        return false, wire;
      }
      var len := info.value.length;
      var size := 32 + len + Padding(len) + 16;
      var body := new byte[size - 32](i requires 0 <= i < size - 32 => wire[32 + i]);
      assert body[..] == wire[32..size];
      ok := io.AuthAndDecryptFrame(body);
      if !ok {
        return;
      }
      assert body[..len] == body[..body.Length - 16][..len];
      rest := wire[size..];
      ok := Collect(info.value, body[..len]);
    }

    /** Unpacks the bytes of a frame and either keeps them, delivers a packet or gives up. */
    method Collect(info: FrameInfo, body: seq<byte>) returns (ok: bool)
      modifies this`multiData, this`delivered
      ensures var inbox := Session.Received(lz4, old(Collected()), info, body);
              (ok <==> inbox.Some?) && (ok ==> Collected() == inbox.value)
    {
      hide Checked;
      var packet := Some(body);
      if info.protocolId != 0 {
        packet := lz4.decompress(body, if MAX_PACKET_SIZE < 255 * |body| then MAX_PACKET_SIZE else 255 * |body|);
        if packet.None? || |packet.value| == 0 {
          return false;
        }
      }
      if info.multiFrame {
        multiData := multiData + packet.value;
        if |packet.value| < MAX_PACKET_SIZE {
          if !Checked(multiData) {
            return false;
          }
          delivered := delivered + [multiData];
          multiData := [];
        }
      } else {
        if !Checked(packet.value) {
          return false;
        }
        delivered := delivered + [packet.value];
      }
      return true;
    }
  }
}
