/**
  The two ends of the stop-and-wait transfer. Each thread is cut into the steps between
  which another thread may run; a thread's control point is part of the state. The pure
  step functions say what a step does, and the classes below carry them out on fields.
 */
module AckWaitUdt {
  import opened Wrappers
  import opened Utf8
  import Framing

  /** Control point of `__send_if_ack`. */
  datatype SendPoint =
    | Polling                  // about to test `queue.empty()`
    | Cleared                  // `event.clear()` done, `queue.get()` next
    | Taken(data: bytes)       // payload in hand, not numbered yet
    | Sending(frame: bytes)    // about to `sendto`
    | Waiting(frame: bytes)    // in `event.wait(.2)`
    | SenderRaised             // `data.decode()` raised and ended the thread

  /** Control point of `__wait_for_ack`. */
  datatype AckPoint =
    | Listening                // in `recvfrom`
    | GotAck                   // response received, `self.counter += 1` next
    | Bumped                   // counter raised, `event.set()` next

  /** Control point of `rcv_data`. */
  datatype ReceivePoint =
    | Idle                     // in `recvfrom`
    | Holding(data: bytes)     // datagram received, not examined yet
    | Acking(data: bytes)      // examined, acknowledgement not sent yet
    | ReceiverRaised           // `decode()` or `int(seq)` raised and ended the thread

  datatype Sender = Sender(counter: nat, event: bool, send: SendPoint, ack: AckPoint)

  datatype Receiver = Receiver(counter: nat, queue: seq<bytes>, point: ReceivePoint)

  const ACK_PREFIX := "ack of "

  const INITIAL_SENDER := Sender(1, false, Polling, Listening)

  const INITIAL_RECEIVER := Receiver(0, [], Idle)

  // Steps of the sending thread.

  function ClearEvent(s: Sender): Sender {
    s.(event := false, send := Cleared)
  }

  function TakeData(s: Sender, data: bytes): Sender {
    s.(send := Taken(data))
  }

  function Stamp(s: Sender): Sender
    requires s.send.Taken?
  {
    match Framing.AddSeq(s.counter, s.send.data)
    case None => s.(send := SenderRaised)
    case Some(frame) => s.(send := Sending(frame))
  }

  function Sent(s: Sender): Sender
    requires s.send.Sending?
  {
    s.(send := Waiting(s.send.frame))
  }

  /** `event.wait(.2)` returns: true ends the message, false falls into the resend. */
  function WaitReturns(s: Sender): Sender
    requires s.send.Waiting?
  {
    s.(send := if s.event then Polling else Sending(s.send.frame))
  }

  // Steps of the acknowledgement thread. The response itself is never looked at.

  function TakeAck(s: Sender): Sender {
    s.(ack := GotAck)
  }

  function Bump(s: Sender): Sender {
    s.(counter := s.counter + 1, ack := Bumped)
  }

  function SetEvent(s: Sender): Sender {
    s.(event := true, ack := Listening)
  }

  // Steps of the receiver.

  function Take(r: Receiver, datagram: bytes): Receiver {
    r.(point := Holding(Framing.Received(datagram)))
  }

  function Examine(r: Receiver): Receiver
    requires r.point.Holding?
  {
    match Framing.ReadSeq(r.point.data)
    case None => r.(point := ReceiverRaised)
    case Some((seq_, payload)) =>
      if seq_ == r.counter + 1 then
        Receiver(r.counter + 1, r.queue + [payload], Acking(r.point.data))
      else
        r.(point := Acking(r.point.data))
  }

  function Acknowledged(r: Receiver): Receiver {
    r.(point := Idle)
  }

  /** The acknowledgement `b"ack of " + data`. */
  function AckOf(data: bytes): bytes {
    Encode(ACK_PREFIX) + data
  }

  /** The seven bytes of "ack of ", in front of the bytes received. */
  predicate Echoes(ack: bytes, data: bytes) {
    |ack| == |data| + 7 && ack[..7] == [97, 99, 107, 32, 111, 102, 32] && ack[7..] == data
  }

  lemma AckEchoes(data: bytes)
    ensures Echoes(AckOf(data), data)
  {
    EncodeOfAscii(ACK_PREFIX);
  }

  /** The acknowledgement of a text is the text behind the words "ack of". */
  lemma AckDecodes(data: bytes)
    ensures Decode(AckOf(data)) == match Decode(data) case None => None case Some(text) => Some("ack of " + text)
  {
    DecodeOfPrefixed(ACK_PREFIX, data);
  }

  class AckWaitUdtSender {
    var counter: nat
    var event: bool
    var send: SendPoint
    var ack: AckPoint

    function View(): Sender
      reads this
    {
      Sender(counter, event, send, ack)
    }

    constructor ()
      ensures View() == INITIAL_SENDER
    {
      counter, event, send, ack := 1, false, Polling, Listening;
    }

    method ClearEventStep()
      requires send.Polling?
      modifies this
      ensures View() == ClearEvent(old(View()))
    {
      event := false;
      send := Cleared;
    }

    /** `queue.get()` on the payloads that wait; returns what is left. */
    method GetStep(waiting: seq<bytes>) returns (rest: seq<bytes>)
      requires send.Cleared? && waiting != []
      modifies this`send
      ensures View() == TakeData(old(View()), waiting[0])
      ensures waiting == [waiting[0]] + rest
    {
      send := Taken(waiting[0]);
      rest := waiting[1..];
    }

    method StampStep()
      requires send.Taken?
      modifies this`send
      ensures View() == Stamp(old(View()))
    {
      var data := Framing.AddSeq(counter, send.data);
      if data == None {
        send := SenderRaised;
      } else {
        send := Sending(data.value);
      }
    }

    method SendStep() returns (datagram: bytes)
      requires send.Sending?
      modifies this`send
      ensures datagram == old(send.frame)
      ensures View() == Sent(old(View()))
    {
      datagram := send.frame;
      send := Waiting(datagram);
    }

    method WaitStep()
      requires send.Waiting?
      modifies this`send
      ensures View() == WaitReturns(old(View()))
    {
      if event {
        send := Polling;
      } else {
        send := Sending(send.frame);
      }
    }

    method TakeAckStep(response: bytes)
      requires ack.Listening?
      modifies this`ack
      ensures View() == TakeAck(old(View()))
    {
      ack := GotAck;
    }

    method BumpStep()
      requires ack.GotAck?
      modifies this`counter, this`ack
      ensures View() == Bump(old(View()))
    {
      counter := counter + 1;
      ack := Bumped;
    }

    method SetEventStep()
      requires ack.Bumped?
      modifies this`event, this`ack
      ensures View() == SetEvent(old(View()))
    {
      event := true;
      ack := Listening;
    }
  }

  lemma ExamineEnds(r: Receiver)
    requires r.point.Holding?
    ensures Examine(r).point == Acking(r.point.data) || Examine(r).point == ReceiverRaised
  {
  }

  /** A whole turn of the receive loop: take a datagram, examine it, acknowledge it. */
  function Turn(r: Receiver, datagram: bytes): Receiver {
    var r' := Examine(Take(r, datagram));
    if r'.point.Acking? then Acknowledged(r') else r'
  }

  /** The receive loop over the datagrams that arrive, until one of them ends the thread. */
  function Turns(r: Receiver, arrivals: seq<bytes>): Receiver
    decreases |arrivals|
  {
    if arrivals == [] || !r.point.Idle? then r else Turns(Turn(r, arrivals[0]), arrivals[1..])
  }

  /** The acknowledgements sent meanwhile: one per datagram that did not end the thread. */
  function Replies(r: Receiver, arrivals: seq<bytes>): seq<bytes>
    decreases |arrivals|
  {
    if arrivals == [] || !r.point.Idle? || !Turn(r, arrivals[0]).point.Idle? then []
    else [AckOf(Framing.Received(arrivals[0]))] + Replies(Turn(r, arrivals[0]), arrivals[1..])
  }

  /** The acknowledgements echo the datagrams received, each cut at the receive buffer, one by one
      up to the first that cannot be read. */
  predicate EchoesInTurn(arrivals: seq<bytes>, acks: seq<bytes>) {
    && |acks| <= |arrivals|
    && (forall i :: 0 <= i < |acks| ==>
          Framing.ReadSeq(Framing.Received(arrivals[i])).Some? && Echoes(acks[i], Framing.Received(arrivals[i])))
    && (|acks| < |arrivals| ==> Framing.ReadSeq(Framing.Received(arrivals[|acks|])) == None)
  }

  lemma TurnEnds(r: Receiver, datagram: bytes)
    requires r.point.Idle?
    ensures Turn(r, datagram).point
            == if Framing.ReadSeq(Framing.Received(datagram)).Some? then Idle else ReceiverRaised
  {
    hide Framing.ReadSeq, Framing.Received;
  }

  lemma {:induction false} RepliesEcho(r: Receiver, arrivals: seq<bytes>)
    requires r.point.Idle?
    ensures EchoesInTurn(arrivals, Replies(r, arrivals))
    ensures Turns(r, arrivals).point.Idle? <==> |Replies(r, arrivals)| == |arrivals|
    decreases |arrivals|
  {
    hide Framing.ReadSeq, Framing.Received, AckOf, Echoes, Turn;
    if arrivals != [] {
      var d := arrivals[0];
      TurnEnds(r, d);
      if Turn(r, d).point.Idle? {
        RepliesEcho(Turn(r, d), arrivals[1..]);
        AckEchoes(Framing.Received(d));
      }
    }
  }

  class AckWaitUdtReceiver {
    var counter: nat
    var dataQueue: seq<bytes>
    var point: ReceivePoint

    function View(): Receiver
      reads this
    {
      Receiver(counter, dataQueue, point)
    }

    constructor ()
      ensures View() == INITIAL_RECEIVER
    {
      counter, dataQueue, point := 0, [], Idle;
    }

    /** `recvfrom` returns with what the buffer takes of a datagram. */
    method TakeStep(datagram: bytes)
      requires point.Idle?
      modifies this`point
      ensures View() == Take(old(View()), datagram)
    {
      point := Holding(Framing.Received(datagram));
    }

    method ExamineStep()
      requires point.Holding?
      modifies this
      ensures View() == Examine(old(View()))
    {
      var data := point.data;
      var parsed := Framing.ReadSeq(data);
      if parsed == None {
        point := ReceiverRaised;
        return;
      }
      var (seq_, payload) := parsed.value;
      if seq_ == counter + 1 {
        counter := counter + 1;
        dataQueue := dataQueue + [payload];
      }
      point := Acking(data);
    }

    method AckStep() returns (ack: bytes)
      requires point.Acking?
      modifies this`point
      ensures ack == AckOf(old(point.data)) && Echoes(ack, old(point.data))
      ensures View() == Acknowledged(old(View()))
    {
      AckEchoes(point.data);
      ack := AckOf(point.data);
      point := Idle;
    }

    /** `rcv_data` over a finite list of arrivals. */
    method RcvData(arrivals: seq<bytes>) returns (acks: seq<bytes>)
      requires point.Idle?
      modifies this
      ensures View() == Turns(old(View()), arrivals)
      ensures acks == Replies(old(View()), arrivals)
      ensures EchoesInTurn(arrivals, acks)
      ensures point.Idle? <==> |acks| == |arrivals|
    {
      hide Examine, AckOf, EchoesInTurn, Echoes, Framing.ReadSeq, Framing.Received;
      RepliesEcho(View(), arrivals);
      acks := [];
      var i := 0;
      while i < |arrivals| && point.Idle?
        invariant 0 <= i <= |arrivals|
        invariant point.Idle? || point.ReceiverRaised?
        invariant Turns(old(View()), arrivals) == Turns(View(), arrivals[i..])
        invariant Replies(old(View()), arrivals) == acks + Replies(View(), arrivals[i..])
      {
        ghost var before := View();
        ghost var rest := arrivals[i..];
        assert rest[1..] == arrivals[i + 1..];
        TakeStep(arrivals[i]);
        ExamineEnds(View());
        ExamineStep();
        if point.Acking? {
          var ack := AckStep();
          acks := acks + [ack];
        }
        assert View() == Turn(before, rest[0]);
        i := i + 1;
      }
    }
  }

  lemma {:induction false} CounterGrows(r: Receiver, arrivals: seq<bytes>)
    ensures r.counter <= Turns(r, arrivals).counter
    decreases |arrivals|
  {
    hide Framing.ReadSeq, Framing.Received;
    if arrivals != [] && r.point.Idle? {
      CounterGrows(Turn(r, arrivals[0]), arrivals[1..]);
    }
  }

  /** A datagram that was accepted once and comes again, whatever came in between, is
      acknowledged again and changes neither the queue nor the counter. */
  lemma DuplicateIgnored(r: Receiver, data: bytes, between: seq<bytes>)
    requires r.point.Idle? && Turn(r, data).counter > r.counter
    requires Turns(Turn(r, data), between).point.Idle?
    ensures var later := Turns(Turn(r, data), between);
            Turn(later, data) == later && Replies(later, [data]) == [AckOf(Framing.Received(data))]
  {
    hide Framing.ReadSeq, Framing.Received, AckOf, Turns;
    CounterGrows(Turn(r, data), between);
    var later := Turns(Turn(r, data), between);
    assert Turn(later, data) == later;
    assert Replies(Turn(later, data), []) == [];
  }

  /** Whatever arrives, the queue only grows, one payload for every number counted. */
  lemma {:induction false} TurnsCountPayloads(r: Receiver, arrivals: seq<bytes>)
    requires r.counter == |r.queue|
    ensures var t := Turns(r, arrivals);
            r.queue <= t.queue && t.counter == |t.queue|
    decreases |arrivals|
  {
    hide Framing.ReadSeq;
    if arrivals != [] && r.point.Idle? {
      TurnsCountPayloads(Turn(r, arrivals[0]), arrivals[1..]);
    }
  }

  /** What a turn delivers: the payload of a readable datagram that carries the next number, and
      nothing otherwise; an unreadable one ends the thread and delivers nothing. */
  lemma TurnMeaning(r: Receiver, datagram: bytes)
    requires r.point.Idle?
    ensures var t, read := Turn(r, datagram), Framing.ReadSeq(Framing.Received(datagram));
            && (read == None ==> t == r.(point := ReceiverRaised))
            && (read.Some? && read.value.0 == r.counter + 1 ==>
                  t == Receiver(r.counter + 1, r.queue + [read.value.1], Idle))
            && (read.Some? && read.value.0 != r.counter + 1 ==> t == r)
  {
    hide Framing.ReadSeq, Framing.Received;
  }

  /** The loop takes its turns one after the other, until one ends the thread. */
  lemma {:induction false} TurnsOneMore(r: Receiver, arrivals: seq<bytes>, datagram: bytes)
    ensures Turns(r, []) == r
    ensures Turns(r, arrivals + [datagram])
            == if Turns(r, arrivals).point.Idle? then Turn(Turns(r, arrivals), datagram) else Turns(r, arrivals)
    decreases |arrivals|
  {
    hide Turn;
    if arrivals == [] {
      assert ([] + [datagram])[0] == datagram && ([] + [datagram])[1..] == [];
    } else if r.point.Idle? {
      assert (arrivals + [datagram])[1..] == arrivals[1..] + [datagram];
      TurnsOneMore(Turn(r, arrivals[0]), arrivals[1..], datagram);
    }
  }
}
