/** Two session objects of libp2p/Session.cpp with a wire in each direction, under any interleaving. */
module SessionRun {
  import opened Bytes
  import opened Wrappers
  import opened FrameCoder
  import opened Session
  import opened SessionEndpoint

  /** An event of the direction from the first end to the second, or of the one back. */
  datatype Move = There(event: Event) | Back(event: Event)

  /** The events of one direction, in order. */
  function Events(moves: seq<Move>, there: bool): (r: seq<Event>) {
    if moves == [] then []
    else
      var last := moves[|moves| - 1];
      Events(moves[..|moves| - 1], there) + if last.There? == there then [last.event] else []
  }

  lemma EventsPush(moves: seq<Move>, move: Move, there: bool)
    ensures Events(moves + [move], there) == Events(moves, there) + if move.There? == there then [move.event] else []
  {
    assert (moves + [move])[..|moves|] == moves;
  }

  /** One direction: the sending half of one object, the wire and the receiving half of the other. */
  ghost function Direct(sender: Endpoint, receiver: Endpoint, wire: seq<byte>): (s: Link)
    reads sender, sender.io, receiver, receiver.io
  {
    sender.Sending(wire, receiver.io.ingress, receiver.Collected())
  }

  /** Two ends with coders of their own and the same primitives. */
  ghost predicate Paired(crypto: Primitives, lz4: Lz4, a: Endpoint, b: Endpoint) {
    a != b && a.io != b.io && a.io.crypto == b.io.crypto == crypto && a.lz4 == b.lz4 == lz4
  }

  /** One event in one direction; the result is false if the receiver drops the connection. */
  method Transfer(crypto: Primitives, lz4: Lz4, sender: Endpoint, receiver: Endpoint, wire: seq<byte>, event: Event)
    returns (ok: bool, wire': seq<byte>)
    requires Paired(crypto, lz4, sender, receiver) && Counting(Direct(sender, receiver, wire))
    modifies sender`writeQueue, sender`sequenceId, sender`sentSize, sender`out, sender.io`egress
    modifies receiver`multiData, receiver`delivered, receiver.io`ingress
    ensures var next := Step(crypto, lz4, old(Direct(sender, receiver, wire)), event);
            (ok <==> next.Some?) && (ok ==> Direct(sender, receiver, wire') == next.value)
  {
    hide ReadFrame, SealedChunk, Pack, Received;
    ok, wire' := true, wire;
    match event {
      case Send(message) =>
        var written := sender.Send(message);
        wire' := wire + written;
      case Written =>
        if sender.writeQueue != [] {
          var written := sender.OnWritten();
          wire' := wire + written;
        }
      case Read =>
        if !ReadFrame(crypto, receiver.io.ingress, wire).Waiting? {
          ok, wire' := receiver.DoRead(wire);
        }
    }
  }

  /**
   Any interleaving of both directions on two new objects follows the two abstract runs and breaks
   off exactly if one of them does.
   */
  method Converse(crypto: Primitives, lz4: Lz4, first: Coder, second: Coder, moves: seq<Move>)
    returns (ok: bool, a: Endpoint, b: Endpoint, there: seq<byte>, back: seq<byte>)
    ensures var out := Run(crypto, lz4, Fresh(first, second), Events(moves, true));
            var home := Run(crypto, lz4, Fresh(second, first), Events(moves, false));
            && (ok <==> out.Some? && home.Some?)
            && (ok ==> Direct(a, b, there) == out.value && Direct(b, a, back) == home.value)
  {
    hide Step, Run, Events;
    var ioA := new RlpxFrameCoder(crypto, first);
    var ioB := new RlpxFrameCoder(crypto, second);
    a := new Endpoint(lz4, ioA);
    b := new Endpoint(lz4, ioB);
    ok, there, back := true, [], [];
    NothingRun(crypto, lz4, first, second);
    NothingRun(crypto, lz4, second, first);
    for i := 0 to |moves|
      invariant ok && fresh(a) && fresh(b) && fresh(a.io) && fresh(b.io) && Paired(crypto, lz4, a, b)
      invariant Run(crypto, lz4, Fresh(first, second), Events(moves[..i], true)) == Some(Direct(a, b, there))
      invariant Run(crypto, lz4, Fresh(second, first), Events(moves[..i], false)) == Some(Direct(b, a, back))
    {
      assert moves[..i] + [moves[i]] == moves[..i + 1];
      RunNext(crypto, lz4, first, second, moves[..i], moves[i], true);
      RunNext(crypto, lz4, second, first, moves[..i], moves[i], false);
      var e := moves[i].event;
      if moves[i].There? {
        ok, there := Transfer(crypto, lz4, a, b, there, e);
      } else {
        ok, back := Transfer(crypto, lz4, b, a, back, e);
      }
      if !ok {
        BrokenOff(crypto, lz4, first, second, moves, i + 1, true);
        BrokenOff(crypto, lz4, second, first, moves, i + 1, false);
        return;
      }
    }
    assert moves[..|moves|] == moves;
  }

  lemma NothingRun(crypto: Primitives, lz4: Lz4, sender: Coder, receiver: Coder)
    ensures forall there :: Run(crypto, lz4, Fresh(sender, receiver), Events([], there)) == Some(Fresh(sender, receiver))
  {
  }

  lemma RunNext(crypto: Primitives, lz4: Lz4, sender: Coder, receiver: Coder, moves: seq<Move>, move: Move, there: bool)
    ensures var now := Run(crypto, lz4, Fresh(sender, receiver), Events(moves, there));
            Run(crypto, lz4, Fresh(sender, receiver), Events(moves + [move], there))
            == if now.None? || move.There? != there then now else Step(crypto, lz4, now.value, move.event)
  {
    hide Step, Events;
    EventsPush(moves, move, there);
    var events, s := Events(moves, there), Fresh(sender, receiver);
    if move.There? == there {
      RunFurther(crypto, lz4, s, events, [move.event]);
    } else {
      assert events + [] == events;
    }
  }

  lemma {:induction false} BrokenOff(crypto: Primitives, lz4: Lz4, sender: Coder, receiver: Coder, moves: seq<Move>, i: nat, there: bool)
    requires i <= |moves|
    ensures Run(crypto, lz4, Fresh(sender, receiver), Events(moves[..i], there)).None? ==>
              Run(crypto, lz4, Fresh(sender, receiver), Events(moves, there)).None?
    decreases |moves| - i
  {
    hide Step, Run, Events;
    if i == |moves| {
      assert moves[..i] == moves;
    } else {
      assert moves[..i] + [moves[i]] == moves[..i + 1];
      RunNext(crypto, lz4, sender, receiver, moves[..i], moves[i], there);
      BrokenOff(crypto, lz4, sender, receiver, moves, i + 1, there);
    }
  }

  /**
   Between coders of one handshake no such conversation breaks off, and each end gets what the other
   sends, in order; all of it once nothing is queued or on the wire.
   */
  method Talk(crypto: Primitives, lz4: Lz4, first: Coder, second: Coder, moves: seq<Move>)
    returns (ok: bool, a: Endpoint, b: Endpoint, there: seq<byte>, back: seq<byte>)
    requires Lossless(lz4) && Crossed(first, second)
    requires GoodEvents(Events(moves, true)) && GoodEvents(Events(moves, false))
    ensures ok && b.delivered <= Sends(Events(moves, true)) && a.delivered <= Sends(Events(moves, false))
    ensures a.writeQueue == [] && there == [] ==> b.delivered == Sends(Events(moves, true))
    ensures b.writeQueue == [] && back == [] ==> a.delivered == Sends(Events(moves, false))
  {
    hide Step, Run, Events, Lossless, GoodEvents;
    DeliversInOrder(crypto, lz4, first, second, Events(moves, true));
    DeliversInOrder(crypto, lz4, second, first, Events(moves, false));
    ok, a, b, there, back := Converse(crypto, lz4, first, second, moves);
  }
}
