/**
  What an unreliable channel can still make good: the messages that are not delivered yet
  but can be in some continuation, characterised exactly.
 */
module Recovery {
  import opened Wrappers
  import opened Utf8
  import opened AckWaitUdt
  import opened Transfer
  import Framing

  /** The sender will transmit message `i` again, or can be made to by a timeout. */
  predicate StillSending(s: System, i: nat) {
    && i == |s.log| - 1
    && (s.snd.send.Sending? || (s.snd.send.Waiting? && !s.snd.event))
  }

  /** What the receiver gets of the datagram does not end its thread. */
  predicate Readable(datagram: bytes) {
    Framing.ReadSeq(Framing.Received(datagram)).Some?
  }

  /** Message `i` carries its place as number, a copy of it can still reach the receiver, and
      the receiver can read it. */
  predicate Recoverable(s: System, i: nat)
    requires i < |s.log|
  {
    && s.log[i].number == i + 1
    && Readable(s.log[i].frame)
    && (s.log[i].frame in s.data
        || (i == s.rcv.counter && s.rcv.point == Holding(Framing.Received(s.log[i].frame)))
        || StillSending(s, i))
  }

  /** The receiver's thread runs, and survives the datagram it holds. */
  predicate Alive(r: Receiver) {
    !r.point.ReceiverRaised? && (r.point.Holding? ==> Framing.ReadSeq(r.point.data).Some?)
  }

  predicate AllRecoverable(s: System, k: nat)
    requires k <= |s.log|
  {
    s.rcv.counter < k ==> Alive(s.rcv) && forall i: nat :: s.rcv.counter <= i < k ==> Recoverable(s, i)
  }

  /** A readable frame with a short number is read as that number. */
  lemma ReadsOwnNumber(s: System, i: nat)
    requires LogOk(s) && i < |s.log| && Framing.Short(s.log[i].number) && Readable(s.log[i].frame)
    ensures Framing.ReadSeq(Framing.Received(s.log[i].frame)).value.0 == s.log[i].number
  {
    hide Framing.AddSeq, Framing.ReadSeq, Framing.Received, Framing.Short, Framing.Fitting;
    FrameReads(s, i);
  }

  /** Frames of which the receiver gets the same bytes carry the same number, if it is short. */
  lemma SameFrameSameNumber(s: System, i: nat, j: nat)
    requires LogOk(s) && i < |s.log| && j < |s.log|
    requires Framing.Received(s.log[i].frame) == Framing.Received(s.log[j].frame)
    requires Readable(s.log[i].frame) && Framing.Short(s.log[i].number)
    ensures s.log[i].number == s.log[j].number
  {
    hide Framing.AddSeq, Framing.ReadSeq, Framing.Received, Framing.Short, Framing.Fitting;
    FrameReads(s, i);
    ReadFindsNumber(s, j, s.log[i].number, Framing.ReadSeq(Framing.Received(s.log[i].frame)).value.1);
  }

  /** A step other than sending, receiving and examining brings no copy of message `i`. */
  lemma WasRecoverable(s: System, a: Action, i: nat)
    requires Enabled(s, a) && a != Handle && a != Send && !a.Recv? && i < |s.log| <= |Next(s, a).log|
    requires Next(s, a).log[i] == s.log[i] && Recoverable(Next(s, a), i)
    ensures Recoverable(s, i)
  {
    hide Framing.AddSeq, Framing.Received, Readable, Examine, AckOf;
  }

  lemma WasWithSender(s: System, i: nat)
    requires Inv(s) && Enabled(s, Send) && i < |s.log| && Recoverable(Next(s, Send), i) && Framing.Short(i + 1)
    ensures Recoverable(s, i)
  {
    hide Framing.AddSeq, Framing.ReadSeq, Framing.Received, Framing.Short, Readable, TakenOk, SignalsCover,
         DeliveredOk, Logged, CutLogged;
    if s.snd.send.frame == s.log[i].frame {
      SameFrameSameNumber(s, i, |s.log| - 1);
    }
  }

  /** A datagram that holds as much of message `i`, the next one, is a copy of its frame. */
  lemma WasOnWire(s: System, d: bytes, i: nat)
    requires Inv(s) && Enabled(s, Recv(d)) && s.rcv.counter <= i < |s.log| && Framing.Short(i + 1)
    requires Recoverable(Next(s, Recv(d)), i)
    ensures Recoverable(s, i)
  {
    hide Framing.AddSeq, Framing.ReadSeq, Framing.Received, Framing.Short, Framing.Fitting, Readable,
         TakenOk, SignalsCover, CutLogged, DeliveredAt;
    if Framing.Received(s.log[i].frame) == Framing.Received(d) && i == s.rcv.counter {
      var j: nat :| j < |s.log| && s.log[j].frame == d;
      SameFrameSameNumber(s, i, j);
      ShortBelow(i, i + 1);
      DeliveredIntact(s);
      NumberFindsPlace(s, j, i);
    }
  }

  /** Examining a datagram takes nothing off the wire and delivers only what was held. */
  lemma WasHeld(s: System, i: nat)
    requires Inv(s) && Enabled(s, Handle) && s.rcv.counter <= i < |s.log| && Framing.Short(i + 1)
    requires Next(s, Handle).rcv.counter <= i ==> Recoverable(Next(s, Handle), i)
    ensures Recoverable(s, i)
  {
    hide Framing.AddSeq, Framing.ReadSeq, Framing.Received, Framing.Short, Framing.Fitting, TakenOk,
         SignalsCover, AckOf, DeliveredAt, Logged;
    var t := Next(s, Handle);
    if t.rcv.counter > i {
      var j: nat :| j < |s.log| && Framing.Received(s.log[j].frame) == s.rcv.point.data;
      ReadFindsNumber(s, j, i + 1, t.rcv.queue[i]);
      ShortBelow(i, i + 1);
      DeliveredIntact(s);
      NumberFindsPlace(s, j, i);
    }
  }

  lemma WasAlive(s: System, a: Action)
    requires Enabled(s, a) && (Next(s, a).rcv.counter > s.rcv.counter || Alive(Next(s, a).rcv))
    ensures Alive(s.rcv)
  {
    hide Framing.AddSeq, Framing.ReadSeq, Framing.Received, AckOf, Stamp;
  }

  lemma CounterByOne(s: System, a: Action)
    requires Enabled(s, a)
    ensures s.rcv.counter <= Next(s, a).rcv.counter <= s.rcv.counter + if a == Handle then 1 else 0
  {
    hide Framing.AddSeq, Framing.ReadSeq, Framing.Received, AckOf, Stamp;
  }

  /** No step makes an unrecoverable message recoverable. */
  lemma NothingComesBack(s: System, a: Action, k: nat)
    requires Inv(s) && Enabled(s, a) && k <= |s.log| && s.log <= Next(s, a).log && Framing.Short(k)
    requires AllRecoverable(Next(s, a), k)
    ensures AllRecoverable(s, k)
  {
    hide Next, Enabled, Inv, Recoverable, Alive, Framing.Short;
    if s.rcv.counter < k {
      var t := Next(s, a);
      CounterByOne(s, a);
      WasAlive(s, a);
      forall i: nat | s.rcv.counter <= i < k ensures Recoverable(s, i) {
        assert t.rcv.counter <= i ==> Recoverable(t, i);
        ShortBelow(i + 1, k);
        match a
        case Handle => WasHeld(s, i);
        case Send => WasWithSender(s, i);
        case Recv(d) => WasOnWire(s, d, i);
        case _ => WasRecoverable(s, a, i);
      }
    }
  }

  lemma {:induction false} DeliveredWereRecoverable(s: System, schedule: seq<Action>, k: nat)
    requires Inv(s) && Valid(s, schedule) && k <= |s.log| && Framing.Short(k)
    requires |Run(s, schedule).rcv.queue| >= k
    ensures AllRecoverable(s, k)
    decreases |schedule|
  {
    hide Framing.Short, Next, Enabled, Recoverable, Alive, SignalsCover, LogOk, TakenOk, FramesOk;
    if schedule == [] {
    } else {
      var s' := Next(s, schedule[0]);
      assert s.log <= s'.log by {
        LogOnlyGrows(s, [schedule[0]]);
        assert Run(s, [schedule[0]]) == s';
      }
      NextKeepsInv(s, schedule[0]);
      DeliveredWereRecoverable(s', schedule[1..], k);
      NothingComesBack(s, schedule[0], k);
    }
  }

  /** Examining a datagram only settles the message whose turn it was. */
  lemma HandleKeepsRecoverable(s: System, k: nat)
    requires Inv(s) && k <= |s.log| && s.rcv.counter < k && AllRecoverable(s, k)
    requires Enabled(s, Handle) && Framing.Short(k)
    ensures var t := Next(s, Handle);
            t.rcv.point.Acking? && t.log == s.log && t.rcv.counter >= s.rcv.counter && AllRecoverable(t, k)
  {
    hide Framing.AddSeq, Framing.ReadSeq, Framing.Received, Framing.Short, Framing.Fitting, Utf8.Decode,
         TakenOk, SignalsCover, DeliveredAt, AckOf, Logged, Readable;
    var t := Next(s, Handle);
    forall i: nat | t.rcv.counter <= i < k ensures Recoverable(t, i) {
      assert Recoverable(s, i);
      if i == s.rcv.counter && s.rcv.point == Holding(Framing.Received(s.log[i].frame)) {
        ShortBelow(i + 1, k);
        HeldIsAccepted(s, i);
      }
    }
  }

  lemma HeldIsAccepted(s: System, i: nat)
    requires LogOk(s) && i < |s.log| && i == s.rcv.counter && Recoverable(s, i) && Framing.Short(i + 1)
    requires s.rcv.point == Holding(Framing.Received(s.log[i].frame))
    ensures Examine(s.rcv).counter == i + 1
  {
    hide Framing.ReadSeq, Framing.Received, Framing.Short;
    ReadsOwnNumber(s, i);
  }

  lemma AckKeepsRecoverable(s: System, k: nat)
    requires k <= |s.log| && AllRecoverable(s, k) && Enabled(s, Ack)
    ensures var t := Next(s, Ack);
            t.rcv.point.Idle? && t.log == s.log && t.rcv.counter >= s.rcv.counter && AllRecoverable(t, k)
  {
    hide Readable, Framing.ReadSeq, Framing.Received, AckOf;
    var t := Next(s, Ack);
    forall i: nat | t.rcv.counter <= i < k ensures Recoverable(t, i) {
      assert Recoverable(s, i);
    }
  }

  /** The receiver finishes the datagram it holds; nothing recoverable is lost by that. */
  lemma FinishTurn(s: System, k: nat) returns (schedule: seq<Action>)
    requires Inv(s) && k <= |s.log| && s.rcv.counter < k && AllRecoverable(s, k) && Framing.Short(k)
    ensures Valid(s, schedule)
    ensures var t := Run(s, schedule);
            t.rcv.point.Idle? && t.log == s.log && t.rcv.counter >= s.rcv.counter && AllRecoverable(t, k)
  {
    hide Next, Recoverable, Inv, Framing.Short, Framing.ReadSeq;
    match s.rcv.point
    case Idle => schedule := [];
    case Acking(d) =>
      schedule := [Ack];
      AckKeepsRecoverable(s, k);
      assert Run(s, schedule) == Next(s, Ack);
    case Holding(d) =>
      HandleKeepsRecoverable(s, k);
      AckKeepsRecoverable(Next(s, Handle), k);
      schedule := [Handle, Ack];
      RunOfTwo(s, Handle, Ack);
  }

  /** A message still with the sender is put on the wire. */
  lemma Retransmit(s: System, k: nat) returns (schedule: seq<Action>)
    requires Inv(s) && k <= |s.log| && AllRecoverable(s, k)
    requires s.rcv.counter < k && s.rcv.point.Idle?
    ensures Valid(s, schedule)
    ensures var t := Run(s, schedule);
            t.rcv == s.rcv && t.log == s.log && AllRecoverable(t, k)
            && s.log[s.rcv.counter].frame in t.data
  {
    hide Framing.AddSeq, Framing.ReadSeq, Framing.Received, Readable, Utf8.Decode, TakenOk, SignalsCover,
         DeliveredOk;
    var n := s.rcv.counter;
    assert Recoverable(s, n);
    if s.log[n].frame in s.data {
      schedule := [];
    } else if s.snd.send.Sending? {
      schedule := [Send];
      assert Run(s, schedule) == Next(s, Send);
    } else {
      var s' := Next(s, Wait);
      schedule := [Wait, Send];
      RunOfTwo(s, Wait, Send);
    }
  }

  /** Accepting the next message takes no copy of a later one off the wire. */
  lemma AcceptKeepsOthers(s: System, t: System, n: nat, i: nat)
    requires LogOk(s) && n == s.rcv.counter < i < |s.log| && Framing.Short(n + 1)
    requires Recoverable(s, n) && Recoverable(s, i) && s.log[n].frame in s.data
    requires t == s.(rcv := t.rcv, data := s.data - multiset{s.log[n].frame}) && t.rcv.counter == n + 1
    ensures Recoverable(t, i)
  {
    hide Framing.Short, Readable, LogOk;
    if s.log[i].frame == s.log[n].frame {
      SameFrameSameNumber(s, n, i);
    }
  }

  /** The next message, once on the wire, is received and accepted. */
  lemma Accept(s: System, k: nat) returns (schedule: seq<Action>)
    requires Inv(s) && k <= |s.log| && AllRecoverable(s, k) && Framing.Short(k)
    requires s.rcv.counter < k && s.rcv.point.Idle? && s.log[s.rcv.counter].frame in s.data
    ensures Valid(s, schedule)
    ensures var t := Run(s, schedule);
            t.log == s.log && t.rcv.counter == s.rcv.counter + 1 && AllRecoverable(t, k)
  {
    hide Framing.ReadSeq, Framing.Short, Recoverable, SignalsCover, LogOk, TakenOk, FramesOk, DeliveredOk, Next,
         Enabled;
    var n := s.rcv.counter;
    var frame := s.log[n].frame;
    assert Recoverable(s, n);
    ShortBelow(n + 1, k);
    RecvEnabled(s, frame);
    NextAccepts(s, n);
    var t := Next(Next(s, Recv(frame)), Handle);
    schedule := [Recv(frame), Handle];
    RunOfTwo(s, Recv(frame), Handle);
    forall i: nat | n + 1 <= i < k ensures Recoverable(t, i) {
      AcceptKeepsOthers(s, t, n, i);
    }
  }

  lemma RecvEnabled(s: System, d: bytes)
    requires s.rcv.point.Idle? && d in s.data
    ensures Enabled(s, Recv(d)) && Enabled(Next(s, Recv(d)), Handle)
  {
    hide Framing.Received;
  }

  lemma NextAccepts(s: System, n: nat)
    requires LogOk(s) && n < |s.log| && n == s.rcv.counter && Recoverable(s, n) && Framing.Short(n + 1)
    requires Enabled(s, Recv(s.log[n].frame)) && Enabled(Next(s, Recv(s.log[n].frame)), Handle)
    ensures var s2 := Next(Next(s, Recv(s.log[n].frame)), Handle);
            && s2.rcv.counter == n + 1 && s2.rcv.point.Acking?
            && s2 == s.(rcv := s2.rcv, data := s.data - multiset{s.log[n].frame})
  {
    hide Framing.ReadSeq, Framing.Received, Framing.Short, LogOk;
    ReadsOwnNumber(s, n);
  }

  lemma {:induction false} Recover(s: System, k: nat) returns (schedule: seq<Action>)
    requires Inv(s) && k <= |s.log| && AllRecoverable(s, k) && Framing.Short(k)
    ensures Valid(s, schedule) && |Run(s, schedule).rcv.queue| >= k
    decreases if s.rcv.counter < k then k - s.rcv.counter else 0
  {
    hide Next, Enabled, AllRecoverable, SignalsCover, LogOk, TakenOk, FramesOk, Framing.Short;
    if s.rcv.counter >= k {
      schedule := [];
    } else {
      var first := FinishTurn(s, k);
      var s1 := Run(s, first);
      RunKeepsInv(s, first);
      if s1.rcv.counter >= k {
        schedule := first;
      } else {
        var second := Retransmit(s1, k);
        var s2 := Run(s1, second);
        RunKeepsInv(s1, second);
        RunInTwoParts(s, first, second);
        var third := Accept(s2, k);
        var s3 := Run(s2, third);
        RunKeepsInv(s2, third);
        RunInTwoParts(s, first + second, third);
        var fourth := Recover(s3, k);
        RunInTwoParts(s, first + second + third, fourth);
        schedule := first + second + third + fourth;
        RunKeepsInv(s, schedule);
      }
    }
  }

  /** The first `k` messages can still all be delivered exactly when each undelivered one
      carries its place, can be read, and has a copy on the wire, in the receiver's hands or
      with the sender, and the receiver's thread survives the datagram it holds. */
  lemma DeliverableIffRecoverable(s: System, k: nat)
    requires Reachable(s) && k <= |s.log| && Framing.Short(k)
    ensures (exists schedule :: Valid(s, schedule) && |Run(s, schedule).rcv.queue| >= k)
            <==> AllRecoverable(s, k)
  {
    hide Next, Enabled, AllRecoverable, Inv, Framing.Short;
    ReachableInv(s);
    if AllRecoverable(s, k) {
      var schedule := Recover(s, k);
    }
    forall schedule | Valid(s, schedule) && |Run(s, schedule).rcv.queue| >= k
      ensures AllRecoverable(s, k)
    {
      DeliveredWereRecoverable(s, schedule, k);
    }
  }

  lemma OneIsShort()
    ensures Framing.Short(1) && Framing.Short(2)
    ensures |PyText.Print(1)| == 1
  {
  }

  lemma EmptyPayloadFrames(number: nat)
    ensures Framing.AddSeq(number, []).Some?
  {
    hide Framing.AddSeq;
    assert Decode([]) == Some("");
    Framing.FramedIffDecodes(number, []);
  }

  /** One message on its way, a second one queued. */
  lemma FirstMessageSent(payload: bytes) returns (s: System, frame: bytes)
    requires Decode(payload).Some?
    ensures Reachable(s)
    ensures s.snd == Sender(1, false, Waiting(frame), Listening) && s.queue == [[]] && |s.log| == 1
    ensures s.rcv == INITIAL_RECEIVER && s.data == multiset{frame} && s.acks == multiset{} && s.taken == [payload]
    ensures Framing.AddSeq(1, payload) == Some(frame)
  {
    hide Framing.AddSeq, Framing.ReadSeq, Utf8.Decode, Utf8.Encode, Valid, Run, Reachable, AckOf;
    Framing.FramedIffDecodes(1, payload);
    frame := Framing.AddSeq(1, payload).value;
    InitialReachable();
    var s1 := Next(INITIAL, Put(payload));
    ReachableNext(INITIAL, Put(payload));
    var s2 := Next(s1, Put([]));
    ReachableNext(s1, Put([]));
    var s3 := Next(s2, Clear);
    ReachableNext(s2, Clear);
    var s4 := Next(s3, Get);
    ReachableNext(s3, Get);
    var s5 := Next(s4, Number);
    ReachableNext(s4, Number);
    s := Next(s5, Send);
    ReachableNext(s5, Send);
  }

  /** The first message, received and examined. */
  lemma FirstMessageHandled(payload: bytes) returns (s: System, frame: bytes)
    requires Decode(payload).Some? && Framing.Short(1) && Decode(Framing.Fitting(1, payload)).Some?
    ensures Reachable(s)
    ensures s.snd == Sender(1, false, Waiting(frame), Listening) && s.queue == [[]] && |s.log| == 1
    ensures s.rcv == Receiver(1, [Framing.Fitting(1, payload)], Acking(Framing.Received(frame)))
    ensures s.data == multiset{} && s.acks == multiset{} && s.taken == [payload]
  {
    hide Framing.AddSeq, Framing.ReadSeq, Framing.Fitting, Framing.Received, Framing.Short, Framing.Fits,
         Utf8.Decode, Valid, Run, Reachable, AckOf;
    var s1;
    s1, frame := FirstMessageSent(payload);
    Framing.ReadOfReceived(1, payload);
    var s2 := Next(s1, Recv(frame));
    ReachableNext(s1, Recv(frame));
    s := Next(s2, Handle);
    ReachableNext(s2, Handle);
  }

  /** A payload one byte too long for the receive buffer arrives without its last byte. */
  lemma LongPayloadIsCut() returns (s: System)
    ensures Reachable(s) && |s.rcv.queue| == |s.taken| == 1 && |s.taken[0]| == 4095
    ensures s.rcv.queue[0] == s.taken[0][..4094]
    ensures !(s.rcv.queue <= s.taken)
  {
    hide Framing.AddSeq, Framing.ReadSeq, Framing.Received, Utf8.Decode, Utf8.Encode, Valid, Run, Reachable;
    var text := seq(4094, _ => 'a');
    AsciiLength(text);
    AsciiLength("a");
    EncodeOfConcat(text, "a");
    DecodeOfEncode(text + "a");
    DecodeOfEncode(text);
    OneIsShort();
    var payload := Encode(text + "a");
    assert Framing.Fitting(1, payload) == Encode(text);
    var frame;
    s, frame := FirstMessageHandled(payload);
    assert s.rcv.queue[0] != s.taken[0];
  }

  /** The first message is delivered and its acknowledgement duplicated. */
  lemma FirstMessageAckedTwice() returns (s: System, ack: bytes)
    ensures Reachable(s)
    ensures s.snd.counter == 1 && s.snd.send.Waiting? && s.snd.ack.Listening? && s.queue == [[]] && |s.log| == 1
    ensures s.rcv.point.Idle? && s.rcv.counter == 1 && s.data == multiset{} && s.acks == multiset{ack, ack}
  {
    hide Framing.AddSeq, Framing.ReadSeq, Framing.Received, Framing.Short, Utf8.Encode, Valid, Run,
         Reachable, AckOf;
    OneIsShort();
    assert Decode([]).Some?;
    var s3, frame := FirstMessageHandled([]);
    ack := AckOf(Framing.Received(frame));
    var s4 := Next(s3, Ack);
    ReachableNext(s3, Ack);
    s := Next(s4, CopyAck(ack));
    ReachableNext(s4, CopyAck(ack));
  }

  /** The four steps by which an acknowledgement ends the sender's wait. */
  function EndOfWait(ack: bytes): seq<Action> {
    [RecvAck(ack), Raise, Set, Wait]
  }

  lemma RunEndOfWait(s: System, ack: bytes)
    requires Enabled(s, RecvAck(ack)) && s.snd.send.Waiting?
    ensures Valid(s, EndOfWait(ack))
    ensures Run(s, EndOfWait(ack)) == Next(Next(Next(Next(s, RecvAck(ack)), Raise), Set), Wait)
  {
    hide Next, Enabled, Valid, Run;
    AckStepsEnabled(s, ack);
    var s2 := Next(Next(s, RecvAck(ack)), Raise);
    RunOfTwo(s, RecvAck(ack), Raise);
    RunOfTwo(s2, Set, Wait);
    RunInTwoParts(s, [RecvAck(ack), Raise], [Set, Wait]);
    assert EndOfWait(ack) == [RecvAck(ack), Raise] + [Set, Wait];
  }

  lemma AckStepsEnabled(s: System, ack: bytes)
    requires Enabled(s, RecvAck(ack)) && s.snd.send.Waiting?
    ensures var s1 := Next(s, RecvAck(ack));
            Enabled(s1, Raise) && Enabled(Next(s1, Raise), Set) && Enabled(Next(Next(s1, Raise), Set), Wait)
  {
    hide Stamp, Examine, Take, AckOf;
  }

  /** An acknowledgement ends the sender's wait, whatever it acknowledged: four steps after it
      arrives the message counts as completed. */
  lemma AckEndsWait(s: System, ack: bytes) returns (t: System)
    requires Reachable(s) && s.snd.send.Waiting? && s.snd.ack.Listening? && ack in s.acks
    ensures Valid(s, EndOfWait(ack)) && t == Run(s, EndOfWait(ack))
    ensures Reachable(t) && t.snd == Sender(s.snd.counter + 1, true, Polling, Listening)
    ensures Completed(t) == Completed(s) + 1
    ensures t.acks == s.acks - multiset{ack}
    ensures t.queue == s.queue && t.log == s.log && t.rcv == s.rcv && t.data == s.data
  {
    hide Valid, Run, Reachable, EndOfWait;
    RunEndOfWait(s, ack);
    var s1 := Next(s, RecvAck(ack));
    ReachableNext(s, RecvAck(ack));
    var s2 := Next(s1, Raise);
    ReachableNext(s1, Raise);
    var s3 := Next(s2, Set);
    ReachableNext(s2, Set);
    t := Next(s3, Wait);
    ReachableNext(s3, Wait);
  }

  /** The next message is numbered, sent and lost. */
  lemma SecondMessageLost(s: System) returns (t: System)
    requires Reachable(s) && s.queue == [[]] && s.snd.send.Polling? && s.snd.ack.Listening?
    requires s.data == multiset{}
    ensures Reachable(t) && t.snd.send.Waiting? && t.snd.ack.Listening? && t.data == multiset{}
    ensures t.rcv == s.rcv && t.acks == s.acks && |t.log| == |s.log| + 1
  {
    hide Framing.AddSeq, Framing.ReadSeq, Utf8.Decode, Utf8.Encode, Valid, Run, Reachable, AckOf;
    EmptyPayloadFrames(s.snd.counter);
    var frame := Framing.AddSeq(s.snd.counter, []).value;
    var s1 := Next(s, Clear);
    ReachableNext(s, Clear);
    var s2 := Next(s1, Get);
    ReachableNext(s1, Get);
    var s3 := Next(s2, Number);
    ReachableNext(s2, Number);
    var s4 := Next(s3, Send);
    ReachableNext(s3, Send);
    t := Next(s4, LoseData(frame));
    ReachableNext(s4, LoseData(frame));
  }

  /** Acknowledged does not mean delivered: a duplicate acknowledgement completes a second
      message whose only copy was lost, and no continuation delivers it. */
  lemma AcknowledgedYetLost() returns (s: System)
    ensures Reachable(s) && Completed(s) == 2
    ensures forall schedule :: Valid(s, schedule) ==> |Run(s, schedule).rcv.queue| <= 1
  {
    hide Valid, Run, Reachable, Next, Enabled;
    var s1, ack := FirstMessageAckedTwice();
    var s2 := AckEndsWait(s1, ack);
    var s3 := SecondMessageLost(s2);
    s := AckEndsWait(s3, ack);
    OneIsShort();
    assert !Recoverable(s, 1);
    DeliverableIffRecoverable(s, 2);
  }
}
