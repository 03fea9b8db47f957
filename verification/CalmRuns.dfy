/**
  Continuations without a fault of the channel and without a timeout before its time: what is
  outstanding can always be brought to its end, and a message through to its completion.
 */
module CalmRuns {
  import opened Wrappers
  import opened Utf8
  import opened AckWaitUdt
  import opened Transfer
  import opened LossyTransfer
  import opened Surplus
  import Framing

  /** `t` is reached from `s` by calm steps. */
  ghost predicate Leads(s: System, t: System) {
    exists schedule :: CalmValid(s, schedule) && Valid(s, schedule) && Run(s, schedule) == t
  }

  lemma LeadsNowhere(s: System)
    ensures Leads(s, s)
  {
    assert CalmValid(s, []) && Valid(s, []) && Run(s, []) == s;
  }

  lemma {:induction false} CalmInTwoParts(s: System, first: seq<Action>, second: seq<Action>)
    requires CalmValid(s, first) && Valid(s, first) && CalmValid(Run(s, first), second)
    ensures CalmValid(s, first + second)
    decreases |first|
  {
    hide Next, Enabled, Calm;
    if first == [] {
      assert first + second == second;
    } else {
      CalmInTwoParts(Next(s, first[0]), first[1..], second);
      assert (first + second)[1..] == first[1..] + second;
    }
  }

  lemma LeadsOn(s: System, t: System, a: Action)
    requires Leads(s, t) && Calm(t, a)
    ensures Leads(s, Next(t, a))
  {
    hide Next, Enabled, Calm;
    var schedule :| CalmValid(s, schedule) && Valid(s, schedule) && Run(s, schedule) == t;
    assert Enabled(t, a) by {
      CalmEnabled(t, a);
    }
    assert [a][1..] == [];
    assert CalmValid(t, [a]) && Valid(t, [a]) && Run(t, [a]) == Next(t, a);
    RunInTwoParts(s, schedule, [a]);
    CalmInTwoParts(s, schedule, [a]);
    assert Run(s, schedule + [a]) == Next(t, a);
  }

  lemma CalmEnabled(s: System, a: Action)
    requires Calm(s, a)
    ensures Enabled(s, a)
  {
  }

  lemma LeadsReachable(s: System, t: System)
    requires Reachable(s) && Leads(s, t)
    ensures Reachable(t)
  {
    hide Next, Enabled, Calm;
    var before :| Valid(INITIAL, before) && Run(INITIAL, before) == s;
    var schedule :| CalmValid(s, schedule) && Valid(s, schedule) && Run(s, schedule) == t;
    RunInTwoParts(INITIAL, before, schedule);
  }

  predicate FramesFit(log: seq<Entry>) {
    forall i :: 0 <= i < |log| ==> Framing.Fits(log[i].number, log[i].data)
  }

  /** What the continuations are built from: the threads run and the frames fit. */
  predicate Sound(s: System) {
    Books(s) && !s.rcv.point.ReceiverRaised? && FramesFit(s.log)
  }

  /** The steps that bring what is outstanding nearer to its end as an acknowledgement. */
  lemma StepInward(s: System) returns (a: Action)
    requires !Quiet(s) && !s.rcv.point.ReceiverRaised?
    ensures Calm(s, a) && (a.Recv? || a.Handle? || a.Ack? || a.RecvAck? || a.Raise? || a.Set?)
  {
    hide Framing.Fits;
    match s.snd.ack
    case GotAck => a := Raise;
    case Bumped => a := Set;
    case Listening =>
      if s.rcv.point.Holding? {
        a := Handle;
      } else if s.rcv.point.Acking? {
        a := Ack;
      } else if s.acks != multiset{} {
        var d :| d in s.acks;
        a := RecvAck(d);
      } else {
        var d :| d in s.data;
        a := Recv(d);
      }
  }

  /** Steps left until nothing is outstanding. */
  function Load(s: System): nat {
    6 * |s.data| + 3 * |s.acks|
    + (match s.rcv.point case Holding(_) => 5 case Acking(_) => 4 case _ => 0)
    + (match s.snd.ack case GotAck => 2 case Bumped => 1 case Listening => 0)
  }

  /** `t` differs from `s` only in what is outstanding and counted. */
  predicate SameMessages(s: System, t: System) {
    && t.log == s.log && t.snd.send == s.snd.send
    && t.input == s.input && t.taken == s.taken && t.queue == s.queue
    && t.sends == s.sends && t.copies == s.copies && t.losses == s.losses
    && (s.snd.event ==> t.snd.event)
  }

  predicate Inward(s: System, t: System) {
    SameMessages(s, t) && Load(t) < Load(s) && !t.rcv.point.ReceiverRaised?
  }

  lemma AckInward(s: System, a: Action)
    requires Enabled(s, a) && (a.RecvAck? || a.Raise? || a.Set?) && !s.rcv.point.ReceiverRaised?
    ensures Inward(s, Next(s, a))
  {
    hide Framing.AddSeq, Examine, AckOf;
  }

  lemma DataInward(s: System, a: Action)
    requires Enabled(s, a) && (a.Recv? || a.Ack?)
    ensures Inward(s, Next(s, a))
  {
    hide Framing.AddSeq, Framing.Received, Examine, AckOf;
  }

  lemma HandleInward(s: System)
    requires Enabled(s, Handle) && Framing.ReadSeq(s.rcv.point.data).Some?
    ensures Inward(s, Next(s, Handle))
  {
    hide Framing.AddSeq, Framing.ReadSeq, AckOf;
  }

  lemma InwardEffect(s: System, a: Action)
    requires Enabled(s, a) && (a.Recv? || a.Handle? || a.Ack? || a.RecvAck? || a.Raise? || a.Set?)
    requires a.Handle? ==> Framing.ReadSeq(s.rcv.point.data).Some?
    requires !s.rcv.point.ReceiverRaised?
    ensures Inward(s, Next(s, a))
  {
    hide Enabled, Next, Inward, Framing.ReadSeq;
    match a
    case Handle => HandleInward(s);
    case Recv(_) => DataInward(s, a);
    case Ack => DataInward(s, a);
    case _ => AckInward(s, a);
  }

  lemma HeldReads(s: System)
    requires Inv(s) && FramesFit(s.log) && s.rcv.point.Holding?
    ensures Framing.ReadSeq(s.rcv.point.data).Some?
  {
    hide Framing.AddSeq, Framing.ReadSeq, Framing.Received, Framing.Fits, Framing.Short, Framing.Fitting,
         Utf8.Decode, SignalsCover, TakenOk, DeliveredOk;
    var i: nat :| i < |s.log| && Framing.Received(s.log[i].frame) == s.rcv.point.data;
    FitsIsShort(s.log[i].number, s.log[i].data);
    Framing.ReadOfReceived(s.log[i].number, s.log[i].data);
  }

  lemma FitsIsShort(number: nat, data: bytes)
    requires Framing.Fits(number, data)
    ensures Framing.Short(number)
  {
  }

  /** Everything outstanding becomes an acknowledgement that is counted and signalled. */
  lemma {:induction false} Drain(s0: System, s: System) returns (t: System)
    requires Leads(s0, s) && Sound(s)
    ensures Leads(s0, t) && Sound(t) && Quiet(t) && SameMessages(s, t)
    ensures t.snd.counter + t.losses == t.sends + t.copies + 1
    decreases Load(s)
  {
    hide Next, Enabled, Leads, Calm, Inv, EventTells, FramesFit, Load;
    if Quiet(s) {
      t := s;
    } else {
      var a := StepInward(s);
      if a.Handle? {
        CalmEnabled(s, a);
        HandleEnabled(s);
        HeldReads(s);
      }
      CalmEnabled(s, a);
      InwardEffect(s, a);
      NextKeepsBooks(s, a);
      LeadsOn(s0, s, a);
      t := Drain(s0, Next(s, a));
    }
  }

  lemma HandleEnabled(s: System)
    requires Enabled(s, Handle)
    ensures s.rcv.point.Holding?
  {
  }

  /** A message about to be sent is sent, acknowledged and completed. */
  lemma FinishMessage(s0: System, s: System) returns (t: System)
    requires Leads(s0, s) && Sound(s) && Quiet(s) && s.snd.send.Sending?
    ensures Leads(s0, t) && Sound(t) && Quiet(t) && t.snd.send.Polling?
    ensures t.log == s.log && t.input == s.input && t.queue == s.queue && t.taken == s.taken
  {
    hide Leads, Inv, FramesFit;
    var s1 := Next(s, Send);
    LeadsOn(s0, s, Send);
    NextKeepsBooks(s, Send);
    var s2 := Drain(s0, s1);
    assert s2.snd.event by {
      NumberWithinCounter(s);
    }
    t := Next(s2, Wait);
    LeadsOn(s0, s2, Wait);
    NextKeepsBooks(s2, Wait);
  }

  lemma NumberWithinCounter(s: System)
    requires Inv(s) && s.snd.send.Sending?
    ensures s.log != [] && s.log[|s.log| - 1].number <= s.snd.counter
  {
  }

  /** The sender takes the next payload; an empty one is put when none waits. */
  lemma TakeNext(s0: System, s: System) returns (t: System)
    requires Leads(s0, s) && Sound(s) && Quiet(s) && (s.snd.send.Polling? || s.snd.send.Cleared? || s.snd.send.Taken?)
    requires |s.input| == |s.log| ==> Framing.Fits(|s.input| + 1, [])
    ensures Leads(s0, t) && Sound(t) && Quiet(t) && t.snd.send.Taken?
    ensures t.log == s.log && t.snd.counter == s.snd.counter && |s.log| < |t.input|
    ensures t.input == if |s.log| < |s.input| then s.input else s.input + [[]]
    ensures t.snd.send.data == t.input[|s.log|] && t.queue == t.input[|s.log| + 1..]
  {
    hide Leads, Inv, FramesFit, Conserved, EventTells;
    var s1 := s;
    InvTaken(s);
    if s.snd.send.Polling? && s.queue == [] {
      s1 := Next(s, Put([]));
      LeadsOn(s0, s, Put([]));
      NextKeepsBooks(s, Put([]));
    }
    var s2 := s1;
    if s1.snd.send.Polling? {
      s2 := Next(s1, Clear);
      LeadsOn(s0, s1, Clear);
      NextKeepsBooks(s1, Clear);
    }
    t := s2;
    InvTaken(s2);
    if s2.snd.send.Cleared? {
      t := Next(s2, Get);
      LeadsOn(s0, s2, Get);
      NextKeepsBooks(s2, Get);
    }
    InvTaken(t);
  }

  lemma InvTaken(s: System)
    requires Inv(s)
    ensures TakenOk(s) && s.input == s.taken + s.queue && |Payloads(s.log)| == |s.log|
  {
  }

  /** The payload in hand is numbered with the counter, sent, acknowledged and completed. */
  lemma FinishPayload(s0: System, s: System) returns (t: System)
    requires Leads(s0, s) && Sound(s) && Quiet(s) && s.snd.send.Taken?
    requires Decode(s.snd.send.data).Some? && Framing.Fits(s.snd.counter, s.snd.send.data)
    ensures Leads(s0, t) && Sound(t) && Quiet(t) && t.snd.send.Polling?
    ensures |t.log| == |s.log| + 1 && t.log[..|s.log|] == s.log && t.log[|s.log|].number == s.snd.counter
    ensures t.input == s.input && t.queue == s.queue
  {
    hide Leads, Inv, Conserved, EventTells, Utf8.Decode, Framing.Fits, Framing.AddSeq;
    var s1 := Next(s, Number);
    Framing.FramedIffDecodes(s.snd.counter, s.snd.send.data);
    LeadsOn(s0, s, Number);
    NextKeepsBooks(s, Number);
    t := FinishMessage(s0, s1);
  }

  /** The number the next message gets once everything transmitted has been acknowledged. */
  function NextNumber(s: System): int {
    Spent(s) - s.losses + 1
  }

  /** Both threads run, the frames so far fit the receive buffer, and so does the next payload
      with the number it will get. */
  predicate Roomy(s: System) {
    && !s.rcv.point.ReceiverRaised? && !s.snd.send.SenderRaised? && FramesFit(s.log)
    && NextNumber(s) >= 0 && Framing.Short(NextNumber(s))
    && (|s.log| < |s.input| ==>
          Decode(s.input[|s.log|]).Some? && Framing.Fits(NextNumber(s), s.input[|s.log|]))
  }

  lemma ReachableBooks(s: System)
    requires Reachable(s)
    ensures Books(s)
  {
    hide Books;
    var schedule :| Valid(INITIAL, schedule) && Run(INITIAL, schedule) == s;
    InitialBooks();
    RunKeepsBooks(INITIAL, schedule);
  }

  /** What is transmitted but not lost ends up counted, so that the next message is numbered
      `NextNumber`. */
  lemma Settle(s: System) returns (t: System)
    requires Books(s) && Roomy(s)
    ensures Leads(s, t) && Sound(t) && Quiet(t) && !t.snd.send.Sending? && !t.snd.send.SenderRaised?
    ensures t.log == s.log && t.input == s.input && t.snd.counter == NextNumber(s)
  {
    hide Leads, Inv, FramesFit, EventTells, Framing.Fits, Framing.Short;
    LeadsNowhere(s);
    var s1 := s;
    if s.snd.send.Sending? {
      s1 := Next(s, Send);
      LeadsOn(s, s, Send);
      NextKeepsBooks(s, Send);
    }
    t := Drain(s, s1);
  }

  /** The message the sender waits for is completed, by the event or after a timeout; in the
      second case it carries the number of the counter. */
  lemma EndWait(s0: System, s: System) returns (t: System)
    requires Leads(s0, s) && Sound(s) && Quiet(s) && s.snd.send.Waiting?
    ensures Leads(s0, t) && Sound(t) && Quiet(t) && t.snd.send.Polling?
    ensures t.log == s.log && t.input == s.input
    ensures t.snd.counter == s.snd.counter || (s.log != [] && s.log[|s.log| - 1].number == s.snd.counter)
  {
    hide Leads, Inv, FramesFit, Conserved;
    t := Next(s, Wait);
    LeadsOn(s0, s, Wait);
    NextKeepsBooks(s, Wait);
    if !s.snd.event {
      t := FinishMessage(s0, t);
    }
  }

  /** The next message is completed under the number of the counter. */
  lemma NextMessage(s0: System, s: System) returns (t: System)
    requires Leads(s0, s) && Sound(s) && Quiet(s) && (s.snd.send.Polling? || s.snd.send.Cleared? || s.snd.send.Taken?)
    requires Framing.Short(s.snd.counter) && |s.log| < s.snd.counter
    requires |s.log| < |s.input| ==>
               Decode(s.input[|s.log|]).Some? && Framing.Fits(s.snd.counter, s.input[|s.log|])
    ensures Leads(s0, t) && Sound(t) && Quiet(t) && t.snd.send.Polling?
    ensures |t.log| == |s.log| + 1 && t.log[..|s.log|] == s.log && t.log[|s.log|].number == s.snd.counter
    ensures t.input == if |s.log| < |s.input| then s.input else s.input + [[]]
    ensures t.queue == t.input[|t.log|..]
  {
    hide Leads, Sound, Utf8.Decode, Quiet;
    ShortBelow(|s.log| + 1, s.snd.counter);
    var s1 := TakeNext(s0, s);
    assert Decode([]) == Some("") by {
      NoBytesDecode();
    }
    t := FinishPayload(s0, s1);
  }

  lemma NoBytesDecode()
    ensures Decode([]) == Some("")
  {
  }
}
