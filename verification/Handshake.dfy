/**
 The connection handshake of libp2p/RLPxHandshake.cpp: a chain of asynchronous reads and
 writes with an idle timer beside it. Whatever the network, the timer and the owner do, in
 whatever order, the callbacks obey the rules in Proper.
 */
module Handshake {

  datatype State = Error | New | AckAuth | AckAuthEIP8 | WriteHello | ReadHello | StartSession

  /** The asynchronous operation whose completion is awaited. */
  datatype Op =
    | Idle
    | WritingAuth | ReadingAuth | ReadingAuthEIP8
    | WritingAck | WritingAckEIP8 | ReadingAck | ReadingAckEIP8
    | WritingHello | ReadingHeader | ReadingBody

  datatype FailureReason =
    NoFailure | UnknownFailure | Timeout | TcpError | FrameDecryptionFailure | InternalError | ProtocolError
    | DisconnectRequested

  /** What an observer of the handshake sees, in order. */
  datatype Note = KeysKnown | HeaderOk | BodyOk | Success | Failure(reason: FailureReason) | Cancelled

  /** How the outside world answers: every field is only consulted where the source consults it. */
  datatype Outcome = Outcome(
    ec: bool, decrypts: bool, parses: bool, agrees: bool, headerAuth: bool, sizeOk: bool, bodyAuth: bool,
    hello: bool, disconnect: bool, hostThrows: bool)

  /** The awaited operation completes, the idle timer expires, its handler runs, or the owner cancels. */
  datatype Event = IoDone(outcome: Outcome) | TimerExpires | TimerRuns | CancelCalled

  /**
   The promise: the session is started at most once, never after a cancellation, and only
   after header and body of the Hello frame were authenticated under agreed keys.
   */
  ghost predicate Proper(trace: seq<Note>) {
    forall i :: 0 <= i < |trace| && trace[i] == Success ==> Justified(trace[..i])
  }

  ghost predicate Justified(before: seq<Note>) {
    && Success !in before && Cancelled !in before
    && exists a, b, c :: 0 <= a < b < c < |before| && before[a] == KeysKnown && before[b] == HeaderOk && before[c] == BodyOk
  }

  lemma ProperAppend(trace: seq<Note>, note: Note)
    requires Proper(trace) && (note == Success ==> Justified(trace))
    ensures Proper(trace + [note])
  {
    forall i | 0 <= i < |trace| + 1 && (trace + [note])[i] == Success ensures Justified((trace + [note])[..i]) {
      assert (trace + [note])[..i] == trace[..i];
      assert i == |trace| ==> trace[..i] == trace;
    }
  }

  /** Every cancellation follows the report of a failure. */
  ghost predicate Reported(trace: seq<Note>) {
    forall i :: 0 <= i < |trace| && trace[i] == Cancelled ==> i > 0 && trace[i - 1].Failure?
  }

  lemma ReportedAppend(trace: seq<Note>, note: Note)
    requires Reported(trace) && note != Cancelled
    ensures Reported(trace + [note])
  {
  }

  lemma ReportedGivenUp(trace: seq<Note>, reason: FailureReason)
    ensures Reported(trace) ==> Reported(trace + [Failure(reason), Cancelled])
    ensures trace + [Failure(reason)] + [Cancelled] == trace + [Failure(reason), Cancelled]
  {
    if Reported(trace) {
      ReportedAppend(trace, Failure(reason));
    }
  }

  lemma KeepsHeader(trace: seq<Note>, note: Note)
    ensures HeaderAfterKeys(trace) ==> HeaderAfterKeys(trace + [note])
  {
    if HeaderAfterKeys(trace) {
      var a, b :| 0 <= a < b < |trace| && trace[a] == KeysKnown && trace[b] == HeaderOk;
      assert (trace + [note])[a] == KeysKnown && (trace + [note])[b] == HeaderOk;
    }
  }

  /** Keys known, and then the header accepted. */
  ghost predicate HeaderAfterKeys(trace: seq<Note>) {
    exists a, b :: 0 <= a < b < |trace| && trace[a] == KeysKnown && trace[b] == HeaderOk
  }

  lemma AppendsHeader(trace: seq<Note>)
    requires KeysKnown in trace
    ensures HeaderAfterKeys(trace + [HeaderOk])
  {
    var a :| 0 <= a < |trace| && trace[a] == KeysKnown;
    assert (trace + [HeaderOk])[a] == KeysKnown && (trace + [HeaderOk])[|trace|] == HeaderOk;
  }

  lemma BodyJustifies(trace: seq<Note>)
    requires HeaderAfterKeys(trace) && Success !in trace && Cancelled !in trace
    ensures Justified(trace + [BodyOk])
  {
    var a, b :| 0 <= a < b < |trace| && trace[a] == KeysKnown && trace[b] == HeaderOk;
    var t := trace + [BodyOk];
    assert t[a] == KeysKnown && t[b] == HeaderOk && t[|trace|] == BodyOk;
  }

  /** The next state and the operation begun in each state; set-up of the coder can fail with an exception. */
  function Following(s: State, originated: bool, agrees: bool): (r: (State, Op))
    requires s != Error && s != StartSession
  {
    match s
    case New => (AckAuth, if originated then WritingAuth else ReadingAuth)
    case AckAuth => (WriteHello, if originated then ReadingAck else WritingAck)
    case AckAuthEIP8 => (WriteHello, if originated then ReadingAck else WritingAckEIP8)
    case WriteHello => (ReadHello, if agrees then WritingHello else Idle)
    case ReadHello => (StartSession, ReadingHeader)
  }

  /** How an operation of the key exchange ends, apart from cancellation. */
  datatype Ending =
    | Goes(keys: bool, eip8: bool)
    | Breaks(reason: FailureReason)
    | Retries(op: Op)
    | Sticks

  /** A message that does not decrypt is read again as an EIP-8 one; one of those that does not parse throws. */
  function EndingOf(op: Op, x: Outcome): Ending {
    if x.ec then Breaks(TcpError)
    else if op in {WritingAuth, WritingAck, WritingAckEIP8} then Goes(false, false)
    else if x.decrypts then
      if op in {ReadingAuthEIP8, ReadingAckEIP8} && !x.parses then Sticks else Goes(true, op == ReadingAuthEIP8)
    else if op == ReadingAuth then Retries(ReadingAuthEIP8)
    else if op == ReadingAck then Retries(ReadingAckEIP8)
    else Breaks(FrameDecryptionFailure)
  }

  class RlpxHandshake {
    const originated: bool
    var nextState: State
    var cancel: bool
    /** Whether the frame coder exists and is still owned here. */
    var io: bool
    var op: Op
    var timerArmed: bool
    /** Timer handlers already queued when the timer was cancelled: they run as if it had not been. */
    var ripe: nat
    var failureReason: FailureReason
    var trace: seq<Note>

    ghost predicate Valid()
      reads this
    {
      && Proper(trace)
      && (cancel <==> Cancelled in trace)
      && (cancel ==> !io)
      && (io ==> KeysKnown in trace)
      && (Success in trace ==> op == Idle && !io && !timerArmed)
      && Awaits()
    }

    /** What is known while each operation is awaited; a timeout may have moved the state to Error. */
    ghost predicate Awaits()
      reads this
    {
      && (op in {WritingAuth, ReadingAuth, ReadingAuthEIP8} ==> nextState in {AckAuth, Error})
      && (op in {WritingAck, WritingAckEIP8, ReadingAck, ReadingAckEIP8} ==> nextState in {WriteHello, Error})
      && (op == WritingHello ==> nextState in {ReadHello, Error})
      && (op in {ReadingHeader, ReadingBody} ==> nextState in {StartSession, Error})
      && (op == WritingAuth ==> originated)
      && (op in {ReadingAuth, ReadingAuthEIP8} ==> !originated)
      && (op in {WritingAck, WritingAckEIP8} ==> KeysKnown in trace)
      && (op in {WritingHello, ReadingHeader, ReadingBody} ==> io || cancel)
      && (op == ReadingBody ==> cancel || HeaderAfterKeys(trace))
    }

    /**
     Between handlers a failed handshake has been given up, one that is through has reported success,
     and any other one is watched by a timer that runs or whose handler is queued.
     */
    ghost predicate Settled()
      reads this
    {
      && Valid() && (nextState == Error ==> cancel)
      && (op == Idle && nextState == StartSession && !cancel ==> Success in trace)
      && (nextState != New && !cancel && Success !in trace ==> timerArmed || ripe > 0)
    }

    constructor (originated: bool)
      ensures Settled() && this.originated == originated
      ensures trace == [] && nextState == New && op == Idle && ripe == 0 && !cancel && !io
    {
      this.originated := originated;
      nextState, cancel, io, op := New, false, false, Idle;
      timerArmed, ripe, failureReason, trace := false, 0, NoFailure, [];
    }

    /** Records a callback or a milestone. */
    method Record(note: Note)
      requires Valid() && note != Success && note != Cancelled
      modifies this`trace
      ensures Valid() && trace == old(trace) + [note]
      ensures old(Reported(trace)) ==> Reported(trace)
    {
      hide Proper, Justified, HeaderAfterKeys, Reported;
      ProperAppend(trace, note);
      KeepsHeader(trace, note);
      if Reported(trace) {
        ReportedAppend(trace, note);
      }
      trace := trace + [note];
    }

    method Cancel()
      requires Valid()
      modifies this`cancel, this`timerArmed, this`io, this`trace
      ensures Valid() && cancel && trace == old(trace) + [Cancelled]
    {
      hide Proper, Justified, HeaderAfterKeys;
      ProperAppend(trace, Cancelled);
      KeepsHeader(trace, Cancelled);
      cancel, timerArmed, io := true, false, false;
      trace := trace + [Cancelled];
    }

    /** Reports the failure and gives up. */
    method Fail()
      requires Valid()
      modifies this`cancel, this`timerArmed, this`io, this`trace
      ensures Valid() && cancel && trace == old(trace) + [Failure(failureReason), Cancelled]
      ensures old(Reported(trace)) ==> Reported(trace)
    {
      hide Proper, Justified, HeaderAfterKeys, Reported;
      ReportedGivenUp(trace, failureReason);
      Record(Failure(failureReason));
      Cancel();
    }

    /**
     Performs the transition to the next state. The two requirements are what the source
     asserts, that a started session is not started again, and what it relies on, that no
     operation is begun while another is under way.
     */
    method Transition(ec: bool, agrees: bool)
      requires Valid()
      requires !ec && nextState != Error && !cancel ==>
                 && op == Idle && nextState != StartSession && Success !in trace
                 && (nextState == WriteHello ==> KeysKnown in trace)
                 && (nextState in {AckAuth, AckAuthEIP8} && !originated ==> KeysKnown in trace)
                 && (nextState == AckAuthEIP8 ==> !originated)
                 && (nextState == ReadHello ==> io)
      modifies this
      ensures Settled() && ripe == old(ripe)
      ensures ec || old(nextState) == Error || old(cancel) ==> nextState == old(nextState)
      ensures old(Reported(trace)) ==> Reported(trace)
      ensures ec || old(nextState) == Error || old(cancel) ==>
                cancel && trace == old(trace) + [Failure(failureReason), Cancelled] && op == old(op)
      ensures ec || old(nextState) == Error || old(cancel) ==>
                failureReason == if ec then TcpError else old(failureReason)
      ensures !ec && old(nextState) != Error && !old(cancel) ==>
                && trace == old(trace) && timerArmed && cancel == old(cancel)
                && io == (old(io) || (old(nextState) == WriteHello && agrees))
                && (nextState, op) == Following(old(nextState), originated, agrees)
    {
      hide Proper, Justified, HeaderAfterKeys, Reported;
      timerArmed := false;
      if ec || nextState == Error || cancel {
        if ec {
          failureReason := TcpError;
        }
        Fail();
        return;
      }
      assert nextState != StartSession;
      timerArmed := true;
      match nextState {
        case New =>
          nextState, op := AckAuth, if originated then WritingAuth else ReadingAuth;
        case AckAuth =>
          nextState, op := WriteHello, if originated then ReadingAck else WritingAck;
        case AckAuthEIP8 =>
          nextState, op := WriteHello, if originated then ReadingAck else WritingAckEIP8;
        case WriteHello =>
          nextState := ReadHello;
          if agrees {
            io, op := true, WritingHello;
          }
        case ReadHello =>
          nextState, op := StartSession, ReadingHeader;
      }
    }

    /** Gives up with the given reason. */
    method Abort(reason: FailureReason)
      requires Valid()
      modifies this
      ensures Settled() && cancel && ripe == old(ripe) && op == old(op)
      ensures nextState == Error
      ensures old(Reported(trace)) ==> Reported(trace)
      ensures trace == old(trace) + [Failure(reason), Cancelled]
    {
      nextState, failureReason := Error, reason;
      Transition(false, false);
    }

    /** The completion handlers of the key exchange. */
    method OnKeyExchange(x: Outcome)
      requires Settled() && op in {WritingAuth, ReadingAuth, ReadingAuthEIP8, WritingAck, WritingAckEIP8, ReadingAck, ReadingAckEIP8}
      modifies this
      ensures Settled() && ripe == old(ripe) && old(trace) <= trace && Success !in trace[|old(trace)|..]
      ensures old(Reported(trace)) ==> Reported(trace)
      ensures x.ec ==> Given(old(trace), TcpError)
      ensures !x.ec && !x.decrypts && old(op) in {ReadingAuthEIP8, ReadingAckEIP8} ==> Given(old(trace), FrameDecryptionFailure)
      ensures !x.ec && x.decrypts && !x.parses && old(op) in {ReadingAuthEIP8, ReadingAckEIP8} ==> op == Idle && trace == old(trace)
      ensures match EndingOf(old(op), x)
              case Goes(keys, eip8) =>
                var told := if keys then [KeysKnown] else [];
                if old(cancel) then Given(old(trace) + told, old(failureReason))
                else && trace == old(trace) + told && !cancel && timerArmed
                     && io == (old(io) || (old(nextState) == WriteHello && x.agrees))
                     && (nextState, op) == Following(if eip8 then AckAuthEIP8 else old(nextState), originated, x.agrees)
              case Breaks(reason) => Given(old(trace), reason)
              case Retries(next) => op == next && Rest() == old(Rest())
              case Sticks => op == Idle && Rest() == old(Rest())
    {
      hide Proper, Justified, HeaderAfterKeys, Reported;
      var done := op;
      op := Idle;
      if x.ec || done in {WritingAuth, WritingAck, WritingAckEIP8} {
        Transition(x.ec, x.agrees);
      } else if x.decrypts {
        if done in {ReadingAuthEIP8, ReadingAckEIP8} && !x.parses {
          return;
        }
        Learn(done == ReadingAuthEIP8, x.agrees);
      } else if done == ReadingAuth {
        op := ReadingAuthEIP8;
      } else if done == ReadingAck {
        op := ReadingAckEIP8;
      } else {
        Abort(FrameDecryptionFailure);
      }
    }

    /** Given up after that trace, for that reason, with no operation under way. */
    ghost predicate Given(before: seq<Note>, reason: FailureReason)
      reads this
    {
      cancel && op == Idle && nextState != New && trace == before + [Failure(reason), Cancelled]
    }

    /** Everything but the operation under way. */
    ghost function Rest(): (State, bool, bool, bool, FailureReason, seq<Note>)
      reads this
    {
      (nextState, cancel, io, timerArmed, failureReason, trace)
    }

    /** The peer's message was decrypted: both keys are known. */
    method Learn(eip8: bool, agrees: bool)
      requires Settled() && op == Idle && Success !in trace && nextState in {AckAuth, WriteHello, Error}
      requires (nextState == AckAuth ==> !originated) && (eip8 ==> nextState in {AckAuth, Error})
      modifies this
      ensures Settled() && ripe == old(ripe)
      ensures old(Reported(trace)) ==> Reported(trace)
      ensures if old(cancel) then Given(old(trace) + [KeysKnown], old(failureReason))
              else && trace == old(trace) + [KeysKnown] && !cancel && timerArmed
                   && io == (old(io) || (old(nextState) == WriteHello && agrees))
                   && (nextState, op) == Following(if eip8 then AckAuthEIP8 else old(nextState), originated, agrees)
    {
      hide Proper, Justified, HeaderAfterKeys, Reported;
      Record(KeysKnown);
      if eip8 {
        nextState := AckAuthEIP8;
      }
      Transition(false, agrees);
    }

    /** The completion handler of the read that fetches the header of the Hello frame. */
    method OnHeader(x: Outcome)
      requires Settled() && op == ReadingHeader
      modifies this
      ensures Settled() && ripe == old(ripe) && old(trace) <= trace && Success !in trace[|old(trace)|..]
      ensures old(Reported(trace)) ==> Reported(trace)
      ensures if x.ec then Given(old(trace), TcpError)
              else if !old(io) then Given(old(trace), InternalError)
              else if !x.headerAuth then Given(old(trace), FrameDecryptionFailure)
              else if !x.sizeOk then Given(old(trace) + [HeaderOk], ProtocolError)
              else && op == ReadingBody && trace == old(trace) + [HeaderOk] && io && !cancel
                   && timerArmed == old(timerArmed) && nextState == old(nextState)
    {
      hide Proper, Justified, HeaderAfterKeys, Reported;
      op := Idle;
      if x.ec {
        Transition(true, false);
      } else if !io {
        Abort(InternalError);
      } else if !x.headerAuth {
        Abort(FrameDecryptionFailure);
      } else {
        AppendsHeader(trace);
        Record(HeaderOk);
        if !x.sizeOk {
          Abort(ProtocolError);
        } else {
          op := ReadingBody;
        }
      }
    }

    /** Hands coder and socket over to the owner, who may throw. */
    method HandOver(hostThrows: bool)
      requires Valid() && op == Idle && !timerArmed && Justified(trace) && nextState != Error && !cancel
      modifies this
      ensures Settled() && ripe == old(ripe)
      ensures old(Reported(trace)) ==> Reported(trace)
      ensures if hostThrows then Given(old(trace) + [Success], UnknownFailure)
              else op == Idle && trace == old(trace) + [Success] && !cancel && !io && nextState == old(nextState)
    {
      hide Proper, Justified, HeaderAfterKeys, Reported;
      ProperAppend(trace, Success);
      if Reported(trace) {
        ReportedAppend(trace, Success);
      }
      io := false;
      trace := trace + [Success];
      if hostThrows {
        Abort(UnknownFailure);
      }
    }

    /** The completion handler of the read that fetches its body; the only place that starts a session. */
    method OnBody(x: Outcome)
      requires Settled() && op == ReadingBody
      modifies this
      ensures Settled() && ripe == old(ripe) && old(trace) <= trace
      ensures old(Reported(trace)) ==> Reported(trace)
      ensures if x.ec then Given(old(trace), TcpError)
              else if !old(io) then Given(old(trace), InternalError)
              else if !x.bodyAuth then Given(old(trace), FrameDecryptionFailure)
              else if !x.hello then
                Given(old(trace) + [BodyOk], if x.disconnect && x.parses then DisconnectRequested else ProtocolError)
              else if !x.parses then Given(old(trace) + [BodyOk], UnknownFailure)
              else if x.hostThrows then Given(old(trace) + [BodyOk] + [Success], UnknownFailure)
              else op == Idle && trace == old(trace) + [BodyOk] + [Success] && !cancel && !io && nextState == StartSession
    {
      hide Proper, Justified, HeaderAfterKeys, Reported;
      op := Idle;
      timerArmed := false;
      if x.ec {
        Transition(true, false);
      } else if !io {
        Abort(InternalError);
      } else if !x.bodyAuth {
        Abort(FrameDecryptionFailure);
      } else {
        BodyJustifies(trace);
        Record(BodyOk);
        if !x.hello {
          Abort(if x.disconnect && x.parses then DisconnectRequested else ProtocolError);
        } else if !x.parses {
          Abort(UnknownFailure);
        } else {
          HandOver(x.hostThrows);
        }
      }
    }

    /** The idle timer runs out; from here on its handler can no longer be called off. */
    method OnTimerExpires()
      requires Settled()
      modifies this`timerArmed, this`ripe
      ensures Settled()
      ensures old(timerArmed) ==> ripe == old(ripe) + 1
      ensures !old(timerArmed) ==> ripe == old(ripe)
    {
      if timerArmed {
        timerArmed, ripe := false, ripe + 1;
      }
    }

    method OnTimer()
      requires Settled()
      modifies this
      ensures Settled()
      ensures old(nextState) != New ==> nextState != New
      ensures old(Reported(trace)) ==> Reported(trace)
      ensures old(ripe) == 0 ==> unchanged(this)
      ensures old(ripe) > 0 ==> ripe == old(ripe) - 1 && trace == old(trace) + [Failure(Timeout), Cancelled]
    {
      if ripe > 0 {
        ripe := ripe - 1;
        Abort(Timeout);
      }
    }

    /** Any event, at any time. */
    method Handle(e: Event)
      requires Settled()
      modifies this
      ensures Settled() && old(trace) <= trace
      ensures old(Reported(trace)) && !e.CancelCalled? ==> Reported(trace)
      ensures old(nextState) != New ==> nextState != New
      ensures old(Success in trace) && old(ripe) == 0 && !e.CancelCalled? ==> trace == old(trace) && ripe == 0
      ensures e.IoDone? && old(op) != Idle ==> op != old(op)
      ensures e.IoDone? && old(op) == Idle ==> unchanged(this)
      ensures e.TimerExpires? ==> ripe == old(ripe) + (if old(timerArmed) then 1 else 0) && trace == old(trace) && op == old(op)
      ensures e.TimerRuns? && old(ripe) > 0 ==> trace == old(trace) + [Failure(Timeout), Cancelled]
      ensures e.CancelCalled? ==> cancel && trace == old(trace) + [Cancelled]
    {
      hide Proper, Justified, HeaderAfterKeys, Reported;
      match e {
        case IoDone(x) =>
          if op == ReadingHeader {
            OnHeader(x);
          } else if op == ReadingBody {
            OnBody(x);
          } else if op == WritingHello {
            OnHelloWritten(x);
          } else if op != Idle {
            OnKeyExchange(x);
          }
        case TimerExpires => OnTimerExpires();
        case TimerRuns => OnTimer();
        case CancelCalled => Cancel();
      }
    }

    method OnHelloWritten(x: Outcome)
      requires Settled() && op == WritingHello
      modifies this
      ensures Settled() && ripe == old(ripe) && old(trace) <= trace
      ensures old(Reported(trace)) ==> Reported(trace)
      ensures if x.ec then Given(old(trace), TcpError)
              else if old(cancel) then Given(old(trace), old(failureReason))
              else trace == old(trace) && io && !cancel && op == ReadingHeader && timerArmed && nextState == StartSession
    {
      hide Proper, Justified, HeaderAfterKeys, Reported;
      op := Idle;
      Transition(x.ec, x.agrees);
    }
  }

  /**
   Every run from the start of a handshake, under every interleaving of events, is proper, and unless
   the owner cancels no handshake is given up without a failure being reported.
   */
  method Run(originated: bool, agrees: bool, events: seq<Event>) returns (h: RlpxHandshake)
    ensures fresh(h) && h.Settled() && h.nextState != New && Proper(h.trace)
    ensures CancelCalled !in events ==> Reported(h.trace)
  {
    hide Proper, Reported;
    h := new RlpxHandshake(originated);
    NothingReported(h.trace);
    h.Transition(false, agrees);
    for i := 0 to |events|
      invariant h.Settled() && h.nextState != New
      invariant CancelCalled !in events ==> Reported(h.trace)
    {
      h.Handle(events[i]);
    }
  }

  lemma NothingReported(trace: seq<Note>)
    requires trace == []
    ensures Reported(trace)
  {
  }

  /** Whatever has happened, once its timer has run out a handshake has reported success or was given up. */
  method RunEnds(originated: bool, agrees: bool, events: seq<Event>) returns (trace: seq<Note>)
    ensures Proper(trace) && (Success in trace || Cancelled in trace)
    ensures CancelCalled !in events ==> Reported(trace)
  {
    hide Proper, Reported, Justified, HeaderAfterKeys;
    var h := Run(originated, agrees, events);
    h.OnTimerExpires();
    h.OnTimer();
    trace := h.trace;
  }

  /** A peer that answers and a host that agrees, in whatever else they may differ. */
  predicate Good(x: Outcome) {
    && !x.ec && x.agrees && x.decrypts && x.parses && x.headerAuth && x.sizeOk
    && x.bodyAuth && x.hello && !x.hostThrows
  }

  /** The same peer with a message in the other format: it does not decrypt at first. */
  function Undecrypted(x: Outcome): Outcome {
    x.(decrypts := false)
  }

  /** With such a peer and no interruption both roles, in both formats, come to await the Hello frame's body. */
  method ToBody(originated: bool, eip8: bool, x: Outcome) returns (h: RlpxHandshake, ops: seq<Op>)
    requires Good(x)
    ensures fresh(h) && h.Settled() && h.op == ReadingBody && h.io && h.timerArmed && h.ripe == 0
    ensures h.trace == [KeysKnown, HeaderOk]
    ensures ops == (if originated then if eip8 then [WritingAuth, ReadingAck, ReadingAckEIP8] else [WritingAuth, ReadingAck]
                    else if eip8 then [ReadingAuth, ReadingAuthEIP8, WritingAckEIP8] else [ReadingAuth, WritingAck])
                   + [WritingHello, ReadingHeader, ReadingBody]
  {
    hide Proper, Justified, HeaderAfterKeys, Reported;
    h, ops := ToHello(originated, eip8, x);
    ops := ops + [h.op];
    h.OnHelloWritten(x);
    ops := ops + [h.op];
    h.OnHeader(x);
    ops := ops + [h.op];
  }

  /** The key exchange of such a run; the formats of the messages read and written match. */
  method ToHello(originated: bool, eip8: bool, x: Outcome) returns (h: RlpxHandshake, ops: seq<Op>)
    requires Good(x)
    ensures fresh(h) && h.Settled() && h.op == WritingHello && !h.cancel && h.ripe == 0 && h.trace == [KeysKnown]
    ensures ops == if originated then if eip8 then [WritingAuth, ReadingAck, ReadingAckEIP8] else [WritingAuth, ReadingAck]
                   else if eip8 then [ReadingAuth, ReadingAuthEIP8, WritingAckEIP8] else [ReadingAuth, WritingAck]
  {
    hide Proper, Justified, HeaderAfterKeys, Reported;
    h := new RlpxHandshake(originated);
    h.Transition(false, true);
    ops := [h.op];
    if originated {
      h.OnKeyExchange(x);
      ops := ops + [h.op];
      if eip8 {
        h.OnKeyExchange(Undecrypted(x));
        ops := ops + [h.op];
      }
      h.OnKeyExchange(x);
    } else {
      ops := Answer(h, eip8, x);
    }
  }

  /** The recipient's half of the key exchange. */
  method Answer(h: RlpxHandshake, eip8: bool, x: Outcome) returns (ops: seq<Op>)
    requires Good(x) && h.Settled() && !h.originated && h.op == ReadingAuth && h.nextState == AckAuth
    requires !h.cancel && h.ripe == 0 && h.trace == []
    modifies h
    ensures h.Settled() && h.op == WritingHello && !h.cancel && h.ripe == 0 && h.trace == [KeysKnown]
    ensures ops == if eip8 then [ReadingAuth, ReadingAuthEIP8, WritingAckEIP8] else [ReadingAuth, WritingAck]
  {
    hide Proper, Justified, HeaderAfterKeys, Reported;
    ops := [h.op];
    if eip8 {
      h.OnKeyExchange(Undecrypted(x));
      ops := ops + [h.op];
    }
    h.OnKeyExchange(x);
    ops := ops + [h.op];
    h.OnKeyExchange(x);
  }

  /**
   With such a peer and no interruption both roles arrive at a started session, in both formats, by
   these operations: the format of the answer matches that of the message it answers.
   */
  method Undisturbed(originated: bool, eip8: bool, x: Outcome) returns (trace: seq<Note>, ops: seq<Op>)
    requires Good(x)
    ensures trace == [KeysKnown, HeaderOk, BodyOk, Success]
    ensures ops == (if originated then if eip8 then [WritingAuth, ReadingAck, ReadingAckEIP8] else [WritingAuth, ReadingAck]
                    else if eip8 then [ReadingAuth, ReadingAuthEIP8, WritingAckEIP8] else [ReadingAuth, WritingAck])
                   + [WritingHello, ReadingHeader, ReadingBody]
  {
    hide Proper, Justified, HeaderAfterKeys, Reported;
    var h;
    h, ops := ToBody(originated, eip8, x);
    h.OnBody(x);
    trace := h.trace;
  }

  /** If the timer runs out just before the body arrives, a failure is reported after the success. */
  method LateTimer(originated: bool, eip8: bool, x: Outcome) returns (trace: seq<Note>)
    requires Good(x)
    ensures trace == [KeysKnown, HeaderOk, BodyOk, Success, Failure(Timeout), Cancelled]
  {
    hide Proper, Justified, HeaderAfterKeys, Reported;
    var h, _ := ToBody(originated, eip8, x);
    h.OnTimerExpires();
    h.OnBody(x);
    h.OnTimer();
    trace := h.trace;
  }

  /** What a proper trace means for the owner. */
  lemma ProperMeans(trace: seq<Note>, i: nat)
    requires Proper(trace) && i < |trace| && trace[i] == Success
    ensures forall j :: 0 <= j < |trace| && trace[j] == Success ==> j == i
    ensures forall j :: 0 <= j < i ==> trace[j] != Cancelled
    ensures exists a, b, c :: 0 <= a < b < c < i && trace[a] == KeysKnown && trace[b] == HeaderOk && trace[c] == BodyOk
  {
    forall j | 0 <= j < i ensures trace[j] != Cancelled {
      assert trace[..i][j] == trace[j];
    }
    var before := trace[..i];
    var a, b, c :| 0 <= a < b < c < |before| && before[a] == KeysKnown && before[b] == HeaderOk && before[c] == BodyOk;
    assert trace[a] == KeysKnown && trace[b] == HeaderOk && trace[c] == BodyOk;
  }
}
