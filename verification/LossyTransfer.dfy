/**
  The transfer over a channel that only loses, with a timeout long enough that it fires
  only when nothing is in flight or being handled, and of payloads that fit the receive
  buffer with their place as number. There the protocol is a proper stop-and-wait: at most
  one datagram or acknowledgement is outstanding, and a run that cannot go on has delivered
  everything up to the first payload that is not text.
 */
module LossyTransfer {
  import opened Wrappers
  import opened Utf8
  import opened AckWaitUdt
  import opened Transfer
  import Framing

  /** Nothing in flight and nothing being handled. */
  predicate Quiet(s: System) {
    s.data == multiset{} && s.acks == multiset{} && s.rcv.point.Idle? && s.snd.ack.Listening?
  }

  predicate LossyEnabled(s: System, a: Action) {
    && Enabled(s, a)
    && !a.CopyData? && !a.CopyAck?
    && (a.Wait? && !s.snd.event ==> Quiet(s))
    && (a.Put? ==> Framing.Fits(|s.input| + 1, a.payload))
  }

  predicate LossyValid(s: System, schedule: seq<Action>)
    decreases |schedule|
  {
    schedule == [] || (LossyEnabled(s, schedule[0]) && LossyValid(Next(s, schedule[0]), schedule[1..]))
  }

  /** Where the message the sender waits on has got to. */
  datatype Place = OnWire | AtReceiver | Examined | AckOnWire | AckTaken | Counted | Signalled | Lost

  function PlaceOf(s: System): Place {
    if s.snd.event then Signalled
    else if s.snd.ack.Bumped? then Counted
    else if s.snd.ack.GotAck? then AckTaken
    else if s.rcv.point.Holding? then AtReceiver
    else if s.rcv.point.Acking? then Examined
    else if s.data != multiset{} then OnWire
    else if s.acks != multiset{} then AckOnWire
    else Lost
  }

  /** At most one datagram or acknowledgement of frame `f` is outstanding, and its place
      says what both counters and the number of transmissions are. */
  predicate OneOutstanding(s: System, f: bytes) {
    var p, n := PlaceOf(s), |s.log|;
    && s.data == (if p == OnWire then multiset{f} else multiset{})
    && s.acks == (if p == AckOnWire then multiset{AckOf(f)} else multiset{})
    && s.rcv.point == (if p == AtReceiver then Holding(f) else if p == Examined then Acking(f) else Idle)
    && s.snd.ack == (if p == AckTaken then GotAck else if p == Counted then Bumped else Listening)
    && s.snd.counter == (if p == Counted || p == Signalled then n + 1 else n)
    && n - 1 <= s.rcv.counter <= n
    && (p != OnWire && p != AtReceiver && p != Lost ==> s.rcv.counter == n)
    && s.sends == (if p == Lost then n - 1 + s.losses else n + s.losses)
  }

  predicate InputFits(input: seq<bytes>) {
    forall i: nat :: i < |input| ==> Framing.Fits(i + 1, input[i])
  }

  /** Counters and transmissions, as the point of the sending thread demands. */
  predicate InLine(s: System) {
    match s.snd.send
    case Sending(f) =>
      Quiet(s) && !s.snd.event && s.snd.counter == |s.log| && |s.log| - 1 <= s.rcv.counter <= |s.log|
      && s.sends == |s.log| - 1 + s.losses
    case Waiting(f) => OneOutstanding(s, f)
    case _ =>
      Quiet(s) && s.snd.counter == |s.log| + 1 && s.rcv.counter == |s.log|
      && s.sends == |s.log| + s.losses
      && (s.snd.send.Cleared? || s.snd.send.Taken? ==> !s.snd.event)
  }

  predicate LossyInv(s: System) {
    Inv(s) && InputFits(s.input) && Intact(s.log, |s.log|) && InLine(s)
  }

  /** Work left: an upper bound on the steps to the end when nothing more is put or lost. */
  function Work(s: System): int {
    12 * |s.queue|
    + match s.snd.send
      case Polling => 0
      case Cleared => -1
      case Taken(_) => 10
      case Sending(_) => 9
      case SenderRaised => 0
      case Waiting(_) =>
        match PlaceOf(s)
        case Lost => 10
        case OnWire => 8
        case AtReceiver => 7
        case Examined => 6
        case AckOnWire => 5
        case AckTaken => 4
        case Counted => 3
        case Signalled => 2
  }

  /** What one action does to the work left. */
  function Gain(a: Action): int {
    match a
    case Put(_) => 12
    case LoseData(_) => 5
    case LoseAck(_) => 5
    case _ => -1
  }

  lemma ClearStep(s: System, a: Action)
    requires LossyInv(s) && LossyEnabled(s, a)
    requires a == Clear || a == Get
    ensures LossyInv(Next(s, a)) && Work(Next(s, a)) <= Work(s) + Gain(a)
  {
    hide Framing.Fits, Inv, InputFits, Intact, AckOf, Examine, Stamp;
    NextKeepsInv(s, a);
  }

  /** The number given is the place: the counters are level when a message is taken. */
  lemma NumberStep(s: System, a: Action)
    requires LossyInv(s) && LossyEnabled(s, a)
    requires a == Number
    ensures LossyInv(Next(s, a)) && Work(Next(s, a)) <= Work(s) + Gain(a)
  {
    hide Framing.AddSeq, Framing.Fits, Inv, InputFits, AckOf, Examine;
    NextKeepsInv(s, a);
    var log := Next(s, a).log;
    assert log != s.log ==> log[..|s.log|] == s.log && log[|s.log|].number == |s.log| + 1;
    assert Intact(log, |log|);
  }

  lemma SendStep(s: System, a: Action)
    requires LossyInv(s) && LossyEnabled(s, a)
    requires a == Send
    ensures LossyInv(Next(s, a)) && Work(Next(s, a)) <= Work(s) + Gain(a)
  {
    hide Framing.Fits, Inv, InputFits, Intact, AckOf, Examine, Stamp;
    NextKeepsInv(s, a);
    LastFrameSent(s);
    assert PlaceOf(Next(s, a)) == OnWire;
  }

  lemma LastFrameSent(s: System)
    requires Inv(s) && s.snd.send.Sending?
    ensures s.log != []
  {
  }

  lemma WaitStep(s: System, a: Action)
    requires LossyInv(s) && LossyEnabled(s, a)
    requires a == Wait
    ensures LossyInv(Next(s, a)) && Work(Next(s, a)) <= Work(s) + Gain(a)
  {
    hide Framing.Fits, Inv, InputFits, Intact, AckOf, Examine, Stamp;
    NextKeepsInv(s, a);
  }

  lemma TakeOnly(m: multiset<bytes>, f: bytes, d: bytes)
    requires m == multiset{f} && d in m
    ensures d == f && m - multiset{d} == multiset{}
  {
  }

  lemma TakeAckStep(s: System, a: Action)
    requires LossyInv(s) && LossyEnabled(s, a)
    requires a.RecvAck?
    ensures LossyInv(Next(s, a)) && Work(Next(s, a)) <= Work(s) + Gain(a)
  {
    hide Framing.ReadSeq, Framing.Received, Framing.Fits, AckOf, Inv, InputFits, Intact, Stamp, Examine, Take;
    NextKeepsInv(s, a);
    assert s.snd.send.Waiting? && PlaceOf(s) == AckOnWire;
    TakeOnly(s.acks, AckOf(s.snd.send.frame), a.response);
    assert PlaceOf(Next(s, a)) == AckTaken;
  }

  lemma RaiseStep(s: System, a: Action)
    requires LossyInv(s) && LossyEnabled(s, a)
    requires a == Raise
    ensures LossyInv(Next(s, a)) && Work(Next(s, a)) <= Work(s) + Gain(a)
  {
    hide Framing.ReadSeq, Framing.Received, Framing.Fits, AckOf, Inv, InputFits, Intact, Stamp, Examine, Take;
    NextKeepsInv(s, a);
    assert s.snd.send.Waiting? && PlaceOf(s) == AckTaken;
    assert PlaceOf(Next(s, a)) == Counted;
  }

  lemma SetStep(s: System, a: Action)
    requires LossyInv(s) && LossyEnabled(s, a)
    requires a == Set
    ensures LossyInv(Next(s, a)) && Work(Next(s, a)) <= Work(s) + Gain(a)
  {
    hide Framing.ReadSeq, Framing.Received, Framing.Fits, AckOf, Inv, InputFits, Intact, Stamp, Examine, Take;
    NextKeepsInv(s, a);
    assert s.snd.send.Waiting? && PlaceOf(s) == Counted;
    assert PlaceOf(Next(s, a)) == Signalled;
  }

  lemma RecvStep(s: System, a: Action)
    requires LossyInv(s) && LossyEnabled(s, a)
    requires a.Recv?
    ensures LossyInv(Next(s, a)) && Work(Next(s, a)) <= Work(s) + Gain(a)
  {
    hide Framing.ReadSeq, Framing.Received, Framing.Fits, AckOf, Inv, InputFits, Intact, Stamp, Examine;
    NextKeepsInv(s, a);
    assert s.snd.send.Waiting? && PlaceOf(s) == OnWire;
    TakeOnly(s.data, s.snd.send.frame, a.datagram);
    LastFrameReads(s);
    assert PlaceOf(Next(s, a)) == AtReceiver;
  }

  lemma HandleStep(s: System, a: Action)
    requires LossyInv(s) && LossyEnabled(s, a)
    requires a == Handle
    ensures LossyInv(Next(s, a)) && Work(Next(s, a)) <= Work(s) + Gain(a)
  {
    hide Framing.ReadSeq, Framing.Received, Framing.Fits, AckOf, Inv, InputFits, Intact, Stamp, Take;
    NextKeepsInv(s, a);
    assert s.snd.send.Waiting? && PlaceOf(s) == AtReceiver;
    LastFrameReads(s);
    assert PlaceOf(Next(s, a)) == Examined;
  }

  lemma AckStep(s: System, a: Action)
    requires LossyInv(s) && LossyEnabled(s, a)
    requires a == Ack
    ensures LossyInv(Next(s, a)) && Work(Next(s, a)) <= Work(s) + Gain(a)
  {
    hide Framing.ReadSeq, Framing.Received, Framing.Fits, AckOf, Inv, InputFits, Intact, Stamp, Examine, Take;
    NextKeepsInv(s, a);
    assert s.snd.send.Waiting? && PlaceOf(s) == Examined;
    assert Next(s, a).acks == multiset{AckOf(s.snd.send.frame)};
    assert PlaceOf(Next(s, a)) == AckOnWire;
  }

  lemma LoseDataStep(s: System, a: Action)
    requires LossyInv(s) && LossyEnabled(s, a)
    requires a.LoseData?
    ensures LossyInv(Next(s, a)) && Work(Next(s, a)) <= Work(s) + Gain(a)
  {
    hide Framing.ReadSeq, Framing.Received, Framing.Fits, AckOf, Inv, InputFits, Intact, Stamp, Examine, Take;
    NextKeepsInv(s, a);
    assert s.snd.send.Waiting? && PlaceOf(s) == OnWire;
    TakeOnly(s.data, s.snd.send.frame, a.d);
    assert PlaceOf(Next(s, a)) == Lost;
  }

  lemma LoseAckStep(s: System, a: Action)
    requires LossyInv(s) && LossyEnabled(s, a)
    requires a.LoseAck?
    ensures LossyInv(Next(s, a)) && Work(Next(s, a)) <= Work(s) + Gain(a)
  {
    hide Framing.ReadSeq, Framing.Received, Framing.Fits, AckOf, Inv, InputFits, Intact, Stamp, Examine, Take;
    NextKeepsInv(s, a);
    assert s.snd.send.Waiting? && PlaceOf(s) == AckOnWire;
    TakeOnly(s.acks, AckOf(s.snd.send.frame), a.d);
    assert PlaceOf(Next(s, a)) == Lost;
  }

  lemma FitsOneMore(input: seq<bytes>, p: bytes)
    requires InputFits(input) && Framing.Fits(|input| + 1, p)
    ensures InputFits(input + [p])
  {
    hide Framing.Fits;
  }

  /** A put changes nothing but the queue and the input. */
  lemma PutKeepsPlace(s: System, p: bytes)
    ensures PlaceOf(Next(s, Put(p))) == PlaceOf(s)
    ensures Quiet(Next(s, Put(p))) == Quiet(s)
  {
    hide AckOf, Stamp, Examine, Take;
  }

  lemma PutKeepsOutstanding(s: System, p: bytes, f: bytes)
    requires OneOutstanding(s, f)
    ensures OneOutstanding(Next(s, Put(p)), f)
  {
    hide AckOf, Stamp, Examine, Take, PlaceOf;
    PutKeepsPlace(s, p);
  }

  lemma PutKeepsLine(s: System, p: bytes)
    requires InLine(s)
    ensures InLine(Next(s, Put(p)))
    ensures Work(Next(s, Put(p))) == Work(s) + 12
  {
    hide AckOf, Stamp, Examine, Take, PlaceOf, Quiet, OneOutstanding;
    PutKeepsPlace(s, p);
    if s.snd.send.Waiting? {
      PutKeepsOutstanding(s, p, s.snd.send.frame);
    }
  }

  lemma PutStep(s: System, a: Action)
    requires LossyInv(s) && LossyEnabled(s, a)
    requires a.Put?
    ensures LossyInv(Next(s, a)) && Work(Next(s, a)) <= Work(s) + Gain(a)
  {
    hide Framing.Fits, Inv, InputFits, Intact, InLine, Work;
    NextKeepsInv(s, a);
    FitsOneMore(s.input, a.payload);
    PutKeepsLine(s, a.payload);
  }

  lemma EntryFits(s: System, i: nat)
    requires LogOk(s) && TakenOk(s) && Intact(s.log, |s.log|) && InputFits(s.input) && i < |s.log|
    ensures s.log[i].data == s.taken[i] && |s.taken| <= |s.input|
    ensures Framing.Short(s.log[i].number) && Framing.Fits(s.log[i].number, s.log[i].data)
    ensures Framing.Received(s.log[i].frame) == s.log[i].frame
  {
    hide Framing.AddSeq, Framing.ReadSeq, Framing.Received, Framing.Fitting, Utf8.Decode;
    assert s.taken[..|s.log|] == Payloads(s.log);
    assert s.input[i] == s.taken[i] == s.taken[..|s.log|][i] == s.log[i].data;
    Framing.ReadOfReceived(s.log[i].number, s.log[i].data);
  }

  /** The frame the sender waits on fits the receive buffer and carries the number of the last
      message. */
  lemma LastFrameReads(s: System)
    requires LossyInv(s) && s.snd.send.Waiting?
    ensures Framing.Received(s.snd.send.frame) == s.snd.send.frame
    ensures Framing.ReadSeq(s.snd.send.frame).Some?
    ensures Framing.ReadSeq(s.snd.send.frame).value.0 == |s.log|
  {
    hide Framing.AddSeq, Framing.ReadSeq, Framing.Received, Framing.Fitting, Framing.Short, InputFits;
    var last := s.log[|s.log| - 1];
    EntryFits(s, |s.log| - 1);
    Framing.ReadOfReceived(last.number, last.data);
    FrameReads(s, |s.log| - 1);
  }

  lemma NextKeepsLossyInv(s: System, a: Action)
    requires LossyInv(s) && LossyEnabled(s, a)
    ensures LossyInv(Next(s, a))
    ensures Work(Next(s, a)) <= Work(s) + Gain(a)
  {
    hide Next, LossyInv, Work;
    match a
    case RecvAck(_) => TakeAckStep(s, a);
    case Raise => RaiseStep(s, a);
    case Set => SetStep(s, a);
    case Recv(_) => RecvStep(s, a);
    case Handle => HandleStep(s, a);
    case Ack => AckStep(s, a);
    case LoseData(_) => LoseDataStep(s, a);
    case LoseAck(_) => LoseAckStep(s, a);
    case Put(_) => PutStep(s, a);
    case Number => NumberStep(s, a);
    case Send => SendStep(s, a);
    case Wait => WaitStep(s, a);
    case _ => ClearStep(s, a);
  }

  lemma {:induction false} RunKeepsLossyInv(s: System, schedule: seq<Action>)
    requires LossyInv(s) && LossyValid(s, schedule)
    ensures Valid(s, schedule) && LossyInv(Run(s, schedule))
    decreases |schedule|
  {
    hide Next, Enabled, LossyInv;
    if schedule == [] {
    } else {
      NextKeepsLossyInv(s, schedule[0]);
      RunKeepsLossyInv(Next(s, schedule[0]), schedule[1..]);
    }
  }

  /** The part of the input the sender can frame: everything before a payload that is not text. */
  function Sendable(input: seq<bytes>): seq<bytes> {
    if input == [] || Decode(input[0]) == None then [] else [input[0]] + Sendable(input[1..])
  }

  lemma {:induction false} SendableUpTo(good: seq<bytes>, rest: seq<bytes>)
    requires forall i :: 0 <= i < |good| ==> Decode(good[i]).Some?
    requires rest == [] || Decode(rest[0]) == None
    ensures Sendable(good + rest) == good
  {
    hide Decode;
    if good == [] {
      assert good + rest == rest;
    } else {
      SendableUpTo(good[1..], rest);
      assert (good + rest)[1..] == good[1..] + rest;
    }
  }

  /** The sender has nothing left to do. */
  predicate Finished(s: System) {
    s.snd.send.SenderRaised? || (s.snd.send.Polling? && s.queue == [])
  }

  lemma ClearedHasData(s: System)
    requires LossyInv(s) && s.snd.send.Cleared?
    ensures s.queue != []
  {
  }

  /** The step that brings the outstanding message on. */
  function StepFrom(p: Place, f: bytes): Action {
    match p
    case OnWire => Recv(f)
    case AtReceiver => Handle
    case Examined => Ack
    case AckOnWire => RecvAck(AckOf(f))
    case AckTaken => Raise
    case Counted => Set
    case Signalled => Wait
    case Lost => Wait
  }

  lemma WaitingNotStuck(s: System)
    requires InLine(s) && s.snd.send.Waiting?
    ensures LossyEnabled(s, StepFrom(PlaceOf(s), s.snd.send.frame))
  {
    hide AckOf, Framing.Fits;
    var f := s.snd.send.frame;
    assert OneOutstanding(s, f);
    match PlaceOf(s)
    case OnWire => assert s.data == multiset{f} && f in s.data;
    case AckOnWire => assert s.acks == multiset{AckOf(f)} && AckOf(f) in s.acks;
    case _ =>
  }

  /** While something is left to do, some step other than a put or a loss can be taken. */
  lemma NeverStuck(s: System) returns (a: Action)
    requires LossyInv(s) && !Finished(s)
    ensures LossyEnabled(s, a) && Gain(a) == -1
  {
    hide Inv, InputFits, Intact, AckOf, PlaceOf, InLine;
    match s.snd.send
    case Polling => a := Clear;
    case Cleared =>
      ClearedHasData(s);
      a := Get;
    case Taken(_) => a := Number;
    case Sending(_) => a := Send;
    case Waiting(f) =>
      WaitingNotStuck(s);
      a := StepFrom(PlaceOf(s), f);
  }

  /** Where every payload fits, what was delivered is what was numbered. */
  lemma DeliveredWhole(s: System)
    requires LossyInv(s)
    ensures |s.rcv.queue| == s.rcv.counter <= |s.log| <= |s.taken|
    ensures s.rcv.queue == Payloads(s.log)[..s.rcv.counter]
    ensures s.rcv.queue <= s.taken
  {
    hide Framing.AddSeq, Framing.ReadSeq, Framing.Received, Framing.Fitting, Framing.Short, Framing.Fits,
         Utf8.Decode, FramesOk, SignalsCover, InputFits, AckOf;
    CountersNear(s);
    assert s.taken[..|s.log|] == Payloads(s.log);
    forall i: nat | i < |s.rcv.queue| ensures s.rcv.queue[i] == s.log[i].data {
      EntryFits(s, i);
      assert DeliveredAt(s, i);
    }
  }

  lemma CountersNear(s: System)
    requires InLine(s)
    ensures s.rcv.counter <= |s.log|
    ensures s.snd.counter - 1 <= s.rcv.counter <= s.snd.counter
    ensures Completed(s) <= s.rcv.counter
  {
    hide AckOf;
  }

  lemma FinishedDelivered(s: System)
    requires LossyInv(s) && Finished(s)
    ensures s.rcv.queue == Sendable(s.input)
    ensures s.sends == |s.rcv.queue| + s.losses
  {
    hide Framing.ReadSeq, Utf8.Decode, SignalsCover, FramesOk;
    DeliveredWhole(s);
    var good := Payloads(s.log);
    assert s.rcv.queue == good;
    forall i | 0 <= i < |good| ensures Decode(good[i]).Some? {
      Framing.FramedIffDecodes(s.log[i].number, s.log[i].data);
    }
    if s.snd.send.SenderRaised? {
      var rest := s.taken[|s.log|..] + s.queue;
      assert s.input == good + rest;
      SendableUpTo(good, rest);
    } else {
      assert s.input == good + [];
      SendableUpTo(good, []);
    }
  }

  lemma InitialLossyInv()
    ensures LossyInv(INITIAL)
  {
    hide Inv, Framing.Fits;
    InitialInv();
  }

  lemma ReachedLossyInv(schedule: seq<Action>)
    requires LossyValid(INITIAL, schedule)
    ensures Valid(INITIAL, schedule) && LossyInv(Run(INITIAL, schedule))
  {
    hide Next, Enabled, LossyInv;
    InitialLossyInv();
    RunKeepsLossyInv(INITIAL, schedule);
  }

  lemma WorkIsLeft(s: System)
    requires LossyInv(s)
    ensures Work(s) >= 0
  {
    hide LogOk, SignalsCover, FramesOk, DeliveredOk;
  }

  // The properties.

  /** In every run the two counters are at most one apart, and a completed message is delivered. */
  lemma CountersInStep(schedule: seq<Action>)
    requires LossyValid(INITIAL, schedule)
    ensures Valid(INITIAL, schedule)
    ensures var s := Run(INITIAL, schedule);
            && s.snd.counter - 1 <= s.rcv.counter <= s.snd.counter
            && s.rcv.queue <= s.taken && |s.rcv.queue| == s.rcv.counter
            && Completed(s) <= s.rcv.counter
  {
    hide Next, Enabled, Valid, Run, LossyValid, Inv, InLine, Intact, InputFits, Completed;
    ReachedLossyInv(schedule);
    CountersNear(Run(INITIAL, schedule));
    DeliveredWhole(Run(INITIAL, schedule));
  }

  /** Every message beyond those lost costs exactly one transmission. */
  lemma TransmissionsAreMessagesPlusLosses(schedule: seq<Action>)
    requires LossyValid(INITIAL, schedule)
    ensures Valid(INITIAL, schedule)
    ensures var s := Run(INITIAL, schedule);
            && s.sends <= |s.taken| + s.losses
            && (s.snd.send.Polling? ==> s.sends == |s.taken| + s.losses)
  {
    hide Next, Enabled;
    ReachedLossyInv(schedule);
  }

  lemma {:induction false} RunIsPaidFor(s: System, schedule: seq<Action>)
    requires LossyInv(s) && LossyValid(s, schedule)
    ensures Valid(s, schedule)
    ensures var t := Run(s, schedule);
            |s.input| <= |t.input| && s.losses <= t.losses
            && |schedule| + Work(t) <= Work(s) + 13 * (|t.input| - |s.input|) + 6 * (t.losses - s.losses)
    decreases |schedule|
  {
    hide Framing.AddSeq, Framing.ReadSeq, LossyInv, Work;
    if schedule == [] {
    } else {
      NextKeepsLossyInv(s, schedule[0]);
      RunIsPaidFor(Next(s, schedule[0]), schedule[1..]);
    }
  }

  /** No run goes on for ever: its length is bounded by the payloads put and the losses. */
  lemma RunIsBounded(schedule: seq<Action>)
    requires LossyValid(INITIAL, schedule)
    ensures Valid(INITIAL, schedule)
    ensures var s := Run(INITIAL, schedule);
            |schedule| <= 13 * |s.input| + 6 * s.losses
  {
    hide Next, Enabled, LossyInv;
    InitialLossyInv();
    RunIsPaidFor(INITIAL, schedule);
    ReachedLossyInv(schedule);
    WorkIsLeft(Run(INITIAL, schedule));
  }

  /** A run that can only be extended by new input has delivered the whole input, up to a
      payload that is not text, with one transmission a message and one more a loss. */
  lemma MaximalRunDelivers(schedule: seq<Action>)
    requires LossyValid(INITIAL, schedule)
    requires Valid(INITIAL, schedule)
             && forall a :: LossyEnabled(Run(INITIAL, schedule), a) ==> a.Put?
    ensures var s := Run(INITIAL, schedule);
            s.rcv.queue == Sendable(s.input) && s.sends == |s.rcv.queue| + s.losses
  {
    hide Next, Enabled, LossyInv;
    ReachedLossyInv(schedule);
    var s := Run(INITIAL, schedule);
    if !Finished(s) {
      var a := NeverStuck(s);
    }
    FinishedDelivered(s);
  }
}
