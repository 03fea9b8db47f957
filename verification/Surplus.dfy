/**
  The budget of transmissions. The sender counts acknowledgements without looking at them, so
  what matters is how many there can be: one for every datagram sent or copied and not lost.
  As long as these do not outnumber the messages, every completed message is delivered.
 */
module Surplus {
  import opened Wrappers
  import opened Utf8
  import opened AckWaitUdt
  import opened Transfer
  import opened LossyTransfer
  import Framing

  /** Datagrams and acknowledgements in flight or being handled. */
  function Outstanding(s: System): nat {
    |s.data| + |s.acks| + (if s.rcv.point.Idle? then 0 else 1) + (if s.snd.ack.GotAck? then 1 else 0)
  }

  /** Transmissions made by the sender or the channel, and the one the sender is about to make. */
  function Spent(s: System): nat {
    s.sends + s.copies + (if s.snd.send.Sending? then 1 else 0)
  }

  predicate WithinBudget(s: System) {
    s.sends + s.copies <= |s.log| + s.losses
  }

  /** The budget also covers the transmission the sender is about to make. */
  predicate Thrifty(s: System) {
    Spent(s) <= |s.log| + s.losses
  }

  /** What is transmitted is lost, outstanding, or counted as an acknowledgement. */
  predicate Conserved(s: System) {
    Outstanding(s) + s.snd.counter - 1 + s.losses == s.sends + s.copies
  }

  /** While the event is down, no acknowledgement was counted since the message was numbered. */
  predicate EventTells(s: System) {
    (s.snd.send.Sending? || s.snd.send.Waiting?) && !s.snd.event ==>
      && s.log != []
      && var number := s.log[|s.log| - 1].number;
         number == s.snd.counter || (s.snd.ack.Bumped? && number + 1 == s.snd.counter)
  }

  predicate Books(s: System) {
    Inv(s) && Conserved(s) && EventTells(s)
  }

  lemma ConservedBySender(s: System, a: Action)
    requires Conserved(s) && Enabled(s, a)
    requires a.Put? || a.Clear? || a.Get? || a.Number? || a.Send? || a.Wait? || a.Raise? || a.Set?
    ensures Conserved(Next(s, a))
  {
    hide Framing.AddSeq, Examine, Take, AckOf;
  }

  lemma ConservedByReceiver(s: System, a: Action)
    requires Conserved(s) && Enabled(s, a) && (a.Recv? || a.Handle? || a.Ack? || a.RecvAck?)
    ensures Conserved(Next(s, a))
  {
    hide Framing.ReadSeq, Framing.Received, Stamp, AckOf;
  }

  lemma ConservedByChannel(s: System, a: Action)
    requires Conserved(s) && Enabled(s, a) && (a.LoseData? || a.LoseAck? || a.CopyData? || a.CopyAck?)
    ensures Conserved(Next(s, a))
  {
    hide Stamp, Examine, Take, AckOf;
  }

  lemma ConservedKept(s: System, a: Action)
    requires Conserved(s) && Enabled(s, a)
    ensures Conserved(Next(s, a))
  {
    hide Conserved, Enabled, Next;
    if a.Recv? || a.Handle? || a.Ack? || a.RecvAck? {
      ConservedByReceiver(s, a);
    } else if a.LoseData? || a.LoseAck? || a.CopyData? || a.CopyAck? {
      ConservedByChannel(s, a);
    } else {
      ConservedBySender(s, a);
    }
  }

  lemma EventTellsKept(s: System, a: Action)
    requires EventTells(s) && Enabled(s, a)
    ensures EventTells(Next(s, a))
  {
    hide Framing.AddSeq, Framing.Received, Examine, AckOf;
  }

  lemma NextKeepsBooks(s: System, a: Action)
    requires Books(s) && Enabled(s, a)
    ensures Books(Next(s, a))
  {
    hide Inv, Conserved, EventTells, Next, Enabled;
    NextKeepsInv(s, a);
    ConservedKept(s, a);
    EventTellsKept(s, a);
  }

  lemma InitialBooks()
    ensures Books(INITIAL)
  {
    hide Inv;
    InitialInv();
  }

  lemma {:induction false} RunKeepsBooks(s: System, schedule: seq<Action>)
    requires Books(s) && Valid(s, schedule)
    ensures Books(Run(s, schedule))
    decreases |schedule|
  {
    hide Books, Next, Enabled;
    if schedule != [] {
      NextKeepsBooks(s, schedule[0]);
      RunKeepsBooks(Next(s, schedule[0]), schedule[1..]);
    }
  }

  // Within the budget every completed message is delivered.

  /** The last message is the only one not delivered, and only its datagrams are about. */
  predicate LastInTransit(s: System) {
    && (s.snd.send.Sending? || s.snd.send.Waiting?)
    && s.rcv.counter == |s.log| - 1 && s.snd.counter == |s.log|
    && s.acks == multiset{} && s.snd.ack.Listening? && !s.rcv.point.Acking?
    && var frame := s.log[|s.log| - 1].frame;
       && (forall d | d in s.data :: d == frame)
       && (s.rcv.point.Holding? ==> s.rcv.point.data == frame)
  }

  predicate InStep(s: System) {
    && Intact(s.log, |s.log|)
    && !s.rcv.point.ReceiverRaised?
    && (s.rcv.counter == |s.log| || LastInTransit(s))
  }

  lemma CompletedDelivered(s: System)
    requires InStep(s)
    ensures Completed(s) <= s.rcv.counter
  {
  }

  /** At the moment a message is numbered, the budget leaves nothing outstanding. */
  lemma NumberKeepsInStep(s: System)
    requires Books(s) && InStep(s) && WithinBudget(s) && Enabled(s, Number)
    ensures InStep(Next(s, Number))
  {
    hide Framing.AddSeq, LogOk, TakenOk, FramesOk, DeliveredOk;
    var t := Next(s, Number);
    assert |s.data| == |s.acks| == 0 && s.snd.counter == |s.log| + 1;
    assert t.log == s.log || t.log[..|s.log|] == s.log;
  }

  /** The frame a receiver holds is read as the number of a message, at most the last. */
  lemma HandleKeepsInStep(s: System)
    requires Inv(s) && InStep(s) && Enabled(s, Handle) && InputFits(s.input)
    ensures InStep(Next(s, Handle))
  {
    hide Framing.AddSeq, Framing.ReadSeq, Framing.Received, Framing.Fits, Framing.Short, Framing.Fitting,
         InputFits, SignalsCover, DeliveredOk, TakenOk, LogOk, AckOf;
    var i: nat :| i < |s.log| && Framing.Received(s.log[i].frame) == s.rcv.point.data;
    EntryReads(s, i);
    if LastInTransit(s) {
      EntryReads(s, |s.log| - 1);
    }
  }

  lemma EntryReads(s: System, i: nat)
    requires LogOk(s) && TakenOk(s) && Intact(s.log, |s.log|) && InputFits(s.input) && i < |s.log|
    ensures Framing.Received(s.log[i].frame) == s.log[i].frame
    ensures Framing.ReadSeq(s.log[i].frame) == Some((i + 1, s.log[i].data))
  {
    hide Framing.AddSeq, Framing.ReadSeq, Framing.Received, Framing.Short, Utf8.Decode, InputFits;
    var e := s.log[i];
    EntryFits(s, i);
    Framing.FramingRoundTrip(e.number, e.data);
  }

  lemma WaitKeepsInStep(s: System)
    requires Inv(s) && InStep(s) && Enabled(s, Wait)
    ensures InStep(Next(s, Wait))
  {
    hide LogOk, TakenOk, FramesOk, DeliveredOk;
  }

  lemma RecvKeepsInStep(s: System, d: bytes)
    requires Inv(s) && InStep(s) && Enabled(s, Recv(d)) && InputFits(s.input)
    ensures InStep(Next(s, Recv(d)))
  {
    hide Framing.AddSeq, Framing.ReadSeq, Framing.Received, InputFits, SignalsCover, DeliveredOk, TakenOk,
         LogOk, FramesOk;
    if LastInTransit(s) {
      EntryReads(s, |s.log| - 1);
    }
  }

  lemma SendKeepsInStep(s: System)
    requires FramesOk(s) && InStep(s) && Enabled(s, Send)
    ensures InStep(Next(s, Send))
  {
    hide Logged, CutLogged;
  }

  /** The actions that only move acknowledgements or change the channel, or leave all as it is. */
  predicate IsQuietAction(a: Action) {
    !a.Number? && !a.Handle? && !a.Wait? && !a.Recv? && !a.Send?
  }

  lemma OtherKeepsInStep(s: System, a: Action)
    requires InStep(s) && Enabled(s, a) && IsQuietAction(a)
    ensures InStep(Next(s, a))
  {
    hide Intact, AckOf;
    assert Next(s, a).log == s.log;
    if s.rcv.counter != |s.log| {
      LastInTransitKept(s, a);
    }
  }

  lemma LastInTransitKept(s: System, a: Action)
    requires LastInTransit(s) && s.log != [] && Enabled(s, a) && IsQuietAction(a)
    ensures LastInTransit(Next(s, a))
  {
    hide AckOf;
  }

  lemma PrefixFits(input: seq<bytes>, longer: seq<bytes>)
    requires input <= longer && InputFits(longer)
    ensures InputFits(input)
  {
    hide Framing.Fits;
    forall i: nat | i < |input| ensures Framing.Fits(i + 1, input[i]) {
      assert input[i] == longer[i];
    }
  }

  lemma InputKept(s: System, a: Action)
    requires Enabled(s, a)
    ensures s.input <= Next(s, a).input
    ensures InputFits(Next(s, a).input) ==> InputFits(s.input)
  {
    hide Stamp, Examine, AckOf, Framing.Fits;
    var t := Next(s, a);
    assert s.input <= t.input;
    if InputFits(t.input) {
      forall i: nat | i < |s.input| ensures Framing.Fits(i + 1, s.input[i]) {
        assert s.input[i] == t.input[i];
      }
    }
  }

  lemma NextKeepsInStep(s: System, a: Action)
    requires Books(s) && InStep(s) && WithinBudget(s) && Enabled(s, a) && InputFits(Next(s, a).input)
    ensures InStep(Next(s, a))
  {
    hide Next, Inv, Conserved, EventTells, InputFits, InStep, WithinBudget;
    InputKept(s, a);
    match a
    case Number => NumberKeepsInStep(s);
    case Handle => HandleKeepsInStep(s);
    case Wait => WaitKeepsInStep(s);
    case Recv(d) => RecvKeepsInStep(s, d);
    case Send => SendKeepsInStep(s) by { FramesOfBooks(s); }
    case _ => OtherKeepsInStep(s, a);
  }

  lemma FramesOfBooks(s: System)
    requires Inv(s)
    ensures FramesOk(s)
  {
  }

  // Calm steps: no fault of the channel, no timeout before its time.

  predicate Calm(s: System, a: Action) {
    LossyEnabled(s, a) && !a.LoseData? && !a.LoseAck?
  }

  predicate CalmValid(s: System, schedule: seq<Action>)
    decreases |schedule|
  {
    schedule == [] || (Calm(s, schedule[0]) && CalmValid(Next(s, schedule[0]), schedule[1..]))
  }

  lemma CalmKeepsThrifty(s: System, a: Action)
    requires Books(s) && InStep(s) && Thrifty(s) && Calm(s, a)
    ensures Thrifty(Next(s, a))
  {
    hide Framing.AddSeq, Examine, AckOf, LogOk, TakenOk, FramesOk, DeliveredOk, Framing.Fits;
    if a.Wait? && !s.snd.event {
      assert Outstanding(s) == 0;
      assert s.log[|s.log| - 1].number == |s.log|;
    }
  }

  lemma CalmKeepsInput(s: System, a: Action)
    requires InputFits(s.input) && Calm(s, a)
    ensures InputFits(Next(s, a).input)
  {
    hide Stamp, Examine, AckOf, Framing.Fits;
  }

  lemma CalmKeepsInStep(s: System, a: Action)
    requires Books(s) && InStep(s) && Thrifty(s) && InputFits(s.input) && Calm(s, a)
    ensures var t := Next(s, a); Books(t) && InStep(t) && Thrifty(t) && InputFits(t.input)
  {
    hide Next, Enabled, Books, InStep, InputFits;
    CalmKeepsInput(s, a);
    NextKeepsBooks(s, a);
    CalmKeepsThrifty(s, a);
    NextKeepsInStep(s, a);
  }

  lemma {:induction false} CalmRunKeepsInStep(s: System, schedule: seq<Action>)
    requires Books(s) && InStep(s) && Thrifty(s) && InputFits(s.input) && CalmValid(s, schedule)
    ensures Valid(s, schedule)
    ensures var t := Run(s, schedule); Books(t) && InStep(t) && Thrifty(t) && InputFits(t.input)
    decreases |schedule|
  {
    hide Next, Enabled, Books, InStep, Thrifty, InputFits;
    if schedule != [] {
      CalmKeepsInStep(s, schedule[0]);
      CalmRunKeepsInStep(Next(s, schedule[0]), schedule[1..]);
    }
  }
}
