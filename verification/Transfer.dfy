/**
  The transfer as a whole: both sender threads, the receiver, and a channel that may drop,
  duplicate and reorder datagrams and acknowledgements. A run is a schedule of actions; any
  interleaving is a schedule. `input`, `taken`, `log`, `sends`, `copies` and `losses` are the
  history the properties speak about; no action looks at them.
 */
module Transfer {
  import opened Wrappers
  import opened Utf8
  import opened AckWaitUdt
  import Framing
  import PyText

  /** One message as the sender numbered it. */
  datatype Entry = Entry(number: nat, data: bytes, frame: bytes)

  datatype System = System(
    queue: seq<bytes>,         // payloads the sender has not taken yet
    snd: Sender,
    rcv: Receiver,
    data: multiset<bytes>,     // datagrams in flight
    acks: multiset<bytes>,     // acknowledgements in flight
    input: seq<bytes>,         // every payload put in the sender's queue
    taken: seq<bytes>,         // every payload taken from it
    log: seq<Entry>,           // every message numbered
    sends: nat,                // datagrams transmitted
    copies: nat,               // datagrams and acknowledgements duplicated
    losses: nat)               // datagrams and acknowledgements lost

  datatype Action =
    | Put(payload: bytes)      // the application fills the queue
    | Clear | Get | Number | Send | Wait
    | RecvAck(response: bytes) | Raise | Set
    | Recv(datagram: bytes) | Handle | Ack
    | LoseData(d: bytes) | LoseAck(d: bytes)
    | CopyData(d: bytes) | CopyAck(d: bytes)

  const INITIAL :=
    System([], INITIAL_SENDER, INITIAL_RECEIVER, multiset{}, multiset{}, [], [], [], 0, 0, 0)

  predicate Enabled(s: System, a: Action) {
    match a
    case Put(_) => true
    case Clear => s.snd.send.Polling? && s.queue != []
    case Get => s.snd.send.Cleared? && s.queue != []
    case Number => s.snd.send.Taken?
    case Send => s.snd.send.Sending?
    case Wait => s.snd.send.Waiting?
    case RecvAck(d) => s.snd.ack.Listening? && d in s.acks
    case Raise => s.snd.ack.GotAck?
    case Set => s.snd.ack.Bumped?
    case Recv(d) => s.rcv.point.Idle? && d in s.data
    case Handle => s.rcv.point.Holding?
    case Ack => s.rcv.point.Acking?
    case LoseData(d) => d in s.data
    case LoseAck(d) => d in s.acks
    case CopyData(d) => d in s.data
    case CopyAck(d) => d in s.acks
  }

  function Next(s: System, a: Action): System
    requires Enabled(s, a)
  {
    match a
    case Put(p) => s.(queue := s.queue + [p], input := s.input + [p])
    case Clear => s.(snd := ClearEvent(s.snd))
    case Get => s.(snd := TakeData(s.snd, s.queue[0]), queue := s.queue[1..], taken := s.taken + [s.queue[0]])
    case Number =>
      var snd := Stamp(s.snd);
      s.(snd := snd,
         log := if snd.send.Sending? then s.log + [Entry(snd.counter, s.snd.send.data, snd.send.frame)] else s.log)
    case Send => s.(snd := Sent(s.snd), data := s.data + multiset{s.snd.send.frame}, sends := s.sends + 1)
    case Wait => s.(snd := WaitReturns(s.snd))
    case RecvAck(d) => s.(snd := TakeAck(s.snd), acks := s.acks - multiset{d})
    case Raise => s.(snd := Bump(s.snd))
    case Set => s.(snd := SetEvent(s.snd))
    case Recv(d) => s.(rcv := Take(s.rcv, d), data := s.data - multiset{d})
    case Handle => s.(rcv := Examine(s.rcv))
    case Ack => s.(rcv := Acknowledged(s.rcv), acks := s.acks + multiset{AckOf(s.rcv.point.data)})
    case LoseData(d) => s.(data := s.data - multiset{d}, losses := s.losses + 1)
    case LoseAck(d) => s.(acks := s.acks - multiset{d}, losses := s.losses + 1)
    case CopyData(d) => s.(data := s.data + multiset{d}, copies := s.copies + 1)
    case CopyAck(d) => s.(acks := s.acks + multiset{d}, copies := s.copies + 1)
  }

  /** A schedule all of whose actions are enabled when their turn comes. */
  predicate Valid(s: System, schedule: seq<Action>)
    decreases |schedule|
  {
    schedule == [] || (Enabled(s, schedule[0]) && Valid(Next(s, schedule[0]), schedule[1..]))
  }

  function Run(s: System, schedule: seq<Action>): System
    requires Valid(s, schedule)
    decreases |schedule|
  {
    if schedule == [] then s else Run(Next(s, schedule[0]), schedule[1..])
  }

  ghost predicate Reachable(s: System) {
    exists schedule :: Valid(INITIAL, schedule) && Run(INITIAL, schedule) == s
  }

  function Payloads(log: seq<Entry>): seq<bytes> {
    seq(|log|, i requires 0 <= i < |log| => log[i].data)
  }

  // The invariant.

  /** Messages whose wait has ended. */
  function Completed(s: System): int {
    if s.snd.send.Sending? || s.snd.send.Waiting? then |s.log| - 1 else |s.log|
  }

  /** Times the event was set since the sender began, plus nothing for a bump still to be signalled. */
  function Signals(s: System): int {
    s.snd.counter - 1 - (if s.snd.ack.Bumped? then 1 else 0)
  }

  /** Every completed message used up a signal of its own, and so did an event now up. */
  predicate SignalsCover(s: System) {
    var up := if s.snd.event && !s.snd.send.Polling? && !s.snd.send.SenderRaised? then 1 else 0;
    Signals(s) >= Completed(s) + up
  }

  /** The first `n` messages carry the numbers 1 to `n`. */
  predicate Intact(log: seq<Entry>, n: nat) {
    n <= |log| && forall i :: 0 <= i < n ==> log[i].number == i + 1
  }

  predicate LogOk(s: System) {
    && (forall i :: 0 <= i < |s.log| ==>
          i + 1 <= s.log[i].number <= s.snd.counter
          && Framing.AddSeq(s.log[i].number, s.log[i].data) == Some(s.log[i].frame))
    && (forall i, j :: 0 <= i < j < |s.log| ==> s.log[i].number <= s.log[j].number)
  }

  /** `taken` is what was numbered, plus the payload in hand. */
  predicate TakenOk(s: System) {
    && s.input == s.taken + s.queue
    && (match s.snd.send
        case Taken(d) => s.taken == Payloads(s.log) + [d]
        case SenderRaised => |s.taken| == |s.log| + 1 && s.taken[..|s.log|] == Payloads(s.log)
                             && Decode(s.taken[|s.log|]) == None
        case _ => s.taken == Payloads(s.log))
    && (s.snd.send.Cleared? ==> s.queue != [])
  }

  predicate Logged(log: seq<Entry>, d: bytes) {
    exists i :: 0 <= i < |log| && log[i].frame == d
  }

  /** `d` is what the receive buffer takes of a frame. */
  predicate CutLogged(log: seq<Entry>, d: bytes) {
    exists i :: 0 <= i < |log| && Framing.Received(log[i].frame) == d
  }

  /** Only frames of numbered messages travel, and the sender holds that of the last one. */
  predicate FramesOk(s: System) {
    && (forall d | d in s.data :: Logged(s.log, d))
    && (s.rcv.point.Holding? ==> CutLogged(s.log, s.rcv.point.data))
    && (match s.snd.send
        case Sending(f) => s.log != [] && s.log[|s.log| - 1].frame == f
        case Waiting(f) => s.log != [] && s.log[|s.log| - 1].frame == f
        case _ => true)
  }

  /** Message `i` was delivered: it carries its place as number. What was delivered of it
      is what the receive buffer took, and that is text. */
  predicate DeliveredAt(s: System, i: nat)
    requires i < |s.rcv.queue|
  {
    && i < |s.log|
    && s.log[i].number == i + 1
    && Framing.Short(i + 1)
    && s.rcv.queue[i] == Framing.Fitting(i + 1, s.log[i].data)
    && Decode(s.rcv.queue[i]).Some?
  }

  predicate DeliveredOk(s: System) {
    && |s.rcv.queue| == s.rcv.counter
    && (forall i: nat | i < |s.rcv.queue| && Framing.Short(i + 1) :: DeliveredAt(s, i))
  }

  predicate Inv(s: System) {
    SignalsCover(s) && LogOk(s) && TakenOk(s) && FramesOk(s) && DeliveredOk(s)
  }

  lemma FrameReads(s: System, i: nat)
    requires LogOk(s) && i < |s.log| && Framing.Short(s.log[i].number)
    ensures var e := s.log[i];
            Framing.ReadSeq(Framing.Received(e.frame))
            == if Decode(Framing.Fitting(e.number, e.data)).Some?
               then Some((e.number as int, Framing.Fitting(e.number, e.data))) else None
  {
    Framing.ReadOfReceived(s.log[i].number, s.log[i].data);
  }

  /** The receiver reads a short number only off a frame that carries it. */
  lemma ReadFindsNumber(s: System, i: nat, n: nat, part: bytes)
    requires LogOk(s) && i < |s.log| && Framing.Short(n)
    requires Framing.ReadSeq(Framing.Received(s.log[i].frame)) == Some((n as int, part))
    ensures s.log[i].number == n && part == Framing.Fitting(n, s.log[i].data) && Decode(part).Some?
  {
    hide Framing.AddSeq, Framing.ReadSeq, Framing.Received, Framing.Fitting, Utf8.Decode;
    var e := s.log[i];
    if Framing.Short(e.number) {
      FrameReads(s, i);
    } else {
      Framing.ReadOfLong(e.number, e.data);
    }
  }

  /** A message can only carry a number `n + 1` after `n` intact ones if it is the next one. */
  lemma NumberFindsPlace(s: System, i: nat, n: nat)
    requires LogOk(s) && Intact(s.log, n) && i < |s.log| && s.log[i].number == n + 1
    ensures i == n
  {
  }

  lemma ShortBelow(m: nat, n: nat)
    requires Framing.Short(n) && m <= n
    ensures Framing.Short(m)
  {
    PyText.PrintGrows(m, n);
  }

  /** The delivered messages carry the numbers 1, 2, 3, ... */
  lemma DeliveredIntact(s: System)
    requires DeliveredOk(s) && Framing.Short(s.rcv.counter)
    ensures Intact(s.log, s.rcv.counter)
    ensures forall i: nat | i < s.rcv.counter :: DeliveredAt(s, i)
  {
    hide DeliveredAt;
    forall i: nat | i < s.rcv.counter ensures DeliveredAt(s, i) {
      ShortBelow(i + 1, s.rcv.counter);
    }
    IntactFromDelivered(s);
  }

  lemma DeliveredPlace(s: System, k: nat)
    requires DeliveredOk(s) && Framing.Short(k + 1)
    ensures |s.rcv.queue| > k ==> k < |s.log| && s.log[k].number == k + 1
  {
    if |s.rcv.queue| > k {
      assert DeliveredAt(s, k);
    }
  }

  lemma IntactFromDelivered(s: System)
    requires |s.rcv.queue| == s.rcv.counter
    requires forall i: nat | i < s.rcv.counter :: DeliveredAt(s, i)
    ensures Intact(s.log, s.rcv.counter)
  {
    if s.rcv.counter > 0 {
      assert DeliveredAt(s, s.rcv.counter - 1);
    }
    forall i | 0 <= i < s.rcv.counter ensures i < |s.log| && s.log[i].number == i + 1 {
      assert DeliveredAt(s, i);
    }
  }

  lemma LoggedGrows(log: seq<Entry>, e: Entry)
    ensures forall d :: Logged(log, d) ==> Logged(log + [e], d)
    ensures forall d :: CutLogged(log, d) ==> CutLogged(log + [e], d)
    ensures Logged(log + [e], e.frame)
  {
    hide Framing.Received;
    var log' := log + [e];
    assert log'[|log|] == e;
    forall d | Logged(log, d) ensures Logged(log', d) {
      var i :| 0 <= i < |log| && log[i].frame == d;
      assert log'[i].frame == d;
    }
    forall d | CutLogged(log, d) ensures CutLogged(log', d) {
      var i :| 0 <= i < |log| && Framing.Received(log[i].frame) == d;
      assert log'[i] == log[i];
    }
  }

  lemma SignalsKept(s: System, a: Action)
    requires Inv(s) && Enabled(s, a)
    ensures SignalsCover(Next(s, a))
  {
    hide Framing.AddSeq, Framing.ReadSeq, Utf8.Decode, LogOk, TakenOk, FramesOk, DeliveredOk, Examine, AckOf;
  }

  lemma LogKeptByNumber(s: System)
    requires LogOk(s) && SignalsCover(s) && Enabled(s, Number)
    ensures LogOk(Next(s, Number))
  {
    hide Framing.AddSeq;
  }

  lemma LogKept(s: System, a: Action)
    requires Inv(s) && Enabled(s, a)
    ensures LogOk(Next(s, a))
  {
    hide Framing.AddSeq, Framing.ReadSeq, Utf8.Decode, TakenOk, FramesOk, DeliveredOk, SignalsCover, Examine,
         AckOf, Stamp;
    if a.Number? {
      LogKeptByNumber(s);
    }
  }

  /** The actions that leave the sending thread's own data alone. */
  predicate LeavesSending(a: Action) {
    !a.Put? && !a.Clear? && !a.Get? && !a.Number? && !a.Send? && !a.Wait?
  }

  lemma SendingUntouched(s: System, a: Action)
    requires Enabled(s, a) && LeavesSending(a)
    ensures var t := Next(s, a);
            t.snd.send == s.snd.send && t.log == s.log && t.queue == s.queue && t.input == s.input && t.taken == s.taken
  {
    hide Examine, AckOf;
  }

  lemma TakenKeptByNumber(s: System)
    requires TakenOk(s) && Enabled(s, Number)
    ensures TakenOk(Next(s, Number))
  {
    hide Framing.AddSeq, Utf8.Decode;
    Framing.FramedIffDecodes(s.snd.counter, s.snd.send.data);
    var t := Next(s, Number);
    if t.snd.send.Sending? {
      assert Payloads(t.log) == Payloads(s.log) + [s.snd.send.data];
    }
  }

  lemma TakenKept(s: System, a: Action)
    requires Inv(s) && Enabled(s, a)
    ensures TakenOk(Next(s, a))
  {
    hide Framing.AddSeq, Framing.ReadSeq, Utf8.Decode, SignalsCover, LogOk, FramesOk, DeliveredOk, Examine,
         AckOf, Payloads;
    if a.Number? {
      TakenKeptByNumber(s);
    } else if LeavesSending(a) {
      SendingUntouched(s, a);
    }
  }

  lemma FramesKeptByNumber(s: System)
    requires FramesOk(s) && Enabled(s, Number)
    ensures FramesOk(Next(s, Number))
  {
    hide Framing.AddSeq, Framing.Received, Logged, CutLogged;
    var t := Next(s, Number);
    if t.snd.send.Sending? {
      LoggedGrows(s.log, t.log[|s.log|]);
    }
  }

  lemma LoggedIsCutLogged(log: seq<Entry>, d: bytes)
    requires Logged(log, d)
    ensures CutLogged(log, Framing.Received(d))
  {
    hide Framing.Received;
  }

  lemma SenderFrameLogged(s: System)
    requires FramesOk(s) && s.snd.send.Sending?
    ensures Logged(s.log, s.snd.send.frame)
  {
  }

  lemma FramesKeptByRecv(s: System, d: bytes)
    requires FramesOk(s) && Enabled(s, Recv(d))
    ensures FramesOk(Next(s, Recv(d)))
  {
    hide Framing.Received, Logged, CutLogged;
    LoggedIsCutLogged(s.log, d);
  }

  lemma FramesKeptByData(s: System, a: Action)
    requires FramesOk(s) && Enabled(s, a) && (a.LoseData? || a.CopyData?)
    ensures FramesOk(Next(s, a))
  {
    hide Stamp, Examine, Take, AckOf, Logged, CutLogged;
  }

  lemma FramesKeptByAcks(s: System, a: Action)
    requires FramesOk(s) && Enabled(s, a) && (a.LoseAck? || a.CopyAck?)
    ensures FramesOk(Next(s, a))
  {
    hide Stamp, Examine, Take, AckOf, Logged, CutLogged;
  }

  lemma FramesKept(s: System, a: Action)
    requires Inv(s) && Enabled(s, a)
    ensures FramesOk(Next(s, a))
  {
    hide Framing.AddSeq, Framing.ReadSeq, SignalsCover, TakenOk, LogOk, DeliveredOk, AckOf, Stamp, Logged,
         CutLogged, Framing.Received;
    if a.Number? {
      FramesKeptByNumber(s);
    } else if a.Recv? {
      FramesKeptByRecv(s, a.datagram);
    } else if a.LoseData? || a.CopyData? {
      FramesKeptByData(s, a);
    } else if a.LoseAck? || a.CopyAck? {
      FramesKeptByAcks(s, a);
    } else if a.Send? {
      SenderFrameLogged(s);
    }
  }

  lemma DeliveredKeptByHandle(s: System)
    requires DeliveredOk(s) && FramesOk(s) && LogOk(s) && Enabled(s, Handle)
    ensures DeliveredOk(Next(s, Handle))
  {
    hide Framing.AddSeq, Framing.ReadSeq, Framing.Received, Framing.Short, Framing.Fitting, LogOk;
    var t := Next(s, Handle);
    var n := s.rcv.counter;
    forall i: nat | i < n && Framing.Short(i + 1) ensures DeliveredAt(t, i) {
      assert DeliveredAt(s, i);
    }
    if t.rcv.counter == n + 1 && Framing.Short(n + 1) {
      var j: nat :| j < |s.log| && Framing.Received(s.log[j].frame) == s.rcv.point.data;
      ReadFindsNumber(s, j, n + 1, t.rcv.queue[n]);
      ShortBelow(n, n + 1);
      DeliveredIntact(s);
      NumberFindsPlace(s, j, n);
    }
  }

  lemma DeliveredKept(s: System, a: Action)
    requires Inv(s) && Enabled(s, a)
    ensures DeliveredOk(Next(s, a))
  {
    hide Framing.AddSeq, Framing.ReadSeq, Framing.Received, Framing.Short, Framing.Fitting, Utf8.Decode,
         SignalsCover, TakenOk, LogOk, FramesOk, Examine, AckOf;
    if a.Handle? {
      DeliveredKeptByHandle(s);
    } else {
      var t := Next(s, a);
      assert t.rcv.queue == s.rcv.queue && s.log <= t.log;
      forall i: nat | i < |t.rcv.queue| && Framing.Short(i + 1) ensures DeliveredAt(t, i) {
        assert DeliveredAt(s, i);
      }
    }
  }

  lemma NextKeepsInv(s: System, a: Action)
    requires Inv(s) && Enabled(s, a)
    ensures Inv(Next(s, a))
  {
    hide *;
    SignalsKept(s, a);
    LogKept(s, a);
    TakenKept(s, a);
    FramesKept(s, a);
    DeliveredKept(s, a);
    assert Inv(Next(s, a)) by {
      InvParts(Next(s, a));
    }
  }

  lemma InitialInv()
    ensures INITIAL.snd.counter == 1 && !INITIAL.snd.event && INITIAL.rcv.counter == 0
    ensures Inv(INITIAL)
  {
    hide Framing.AddSeq, Framing.Received, Framing.Short, Framing.Fitting, Decode, DeliveredAt, Logged, CutLogged;
    assert Payloads([]) == [];
  }

  lemma InvParts(s: System)
    requires SignalsCover(s) && LogOk(s) && TakenOk(s) && FramesOk(s) && DeliveredOk(s)
    ensures Inv(s)
  {
    hide SignalsCover, LogOk, TakenOk, FramesOk, DeliveredOk;
  }

  lemma {:induction false} RunKeepsInv(s: System, schedule: seq<Action>)
    requires Inv(s) && Valid(s, schedule)
    ensures Inv(Run(s, schedule))
    decreases |schedule|
  {
    if schedule == [] {
    } else {
      NextKeepsInv(s, schedule[0]);
      RunKeepsInv(Next(s, schedule[0]), schedule[1..]);
    }
  }

  lemma ReachableInv(s: System)
    requires Reachable(s)
    ensures Inv(s)
  {
    hide Next, Enabled, Inv;
    var schedule :| Valid(INITIAL, schedule) && Run(INITIAL, schedule) == s;
    InitialInv();
    RunKeepsInv(INITIAL, schedule);
  }

  // Schedules.

  lemma {:induction false} RunInTwoParts(s: System, first: seq<Action>, second: seq<Action>)
    requires Valid(s, first) && Valid(Run(s, first), second)
    ensures Valid(s, first + second)
    ensures Run(s, first + second) == Run(Run(s, first), second)
    decreases |first|
  {
    hide Next, Enabled;
    if first == [] {
      assert first + second == second;
    } else {
      RunInTwoParts(Next(s, first[0]), first[1..], second);
      assert (first + second)[1..] == first[1..] + second;
    }
  }

  lemma RunOfTwo(s: System, a: Action, b: Action)
    requires Enabled(s, a) && Enabled(Next(s, a), b)
    ensures Valid(s, [a, b]) && Run(s, [a, b]) == Next(Next(s, a), b)
  {
    hide Next, Enabled;
    var s1 := Next(s, a);
    var t := Next(s1, b);
    assert [a, b][1..] == [b] && [b][1..] == [];
    assert Valid(t, []) && Run(t, []) == t;
    assert Valid(s1, [b]) && Run(s1, [b]) == t;
  }

  lemma InitialReachable()
    ensures Reachable(INITIAL)
  {
    assert Valid(INITIAL, []) && Run(INITIAL, []) == INITIAL;
  }

  lemma ReachableNext(s: System, a: Action)
    requires Reachable(s) && Enabled(s, a)
    ensures Reachable(Next(s, a))
  {
    hide Next, Enabled;
    var schedule :| Valid(INITIAL, schedule) && Run(INITIAL, schedule) == s;
    RunInTwoParts(INITIAL, schedule, [a]);
    assert Run(s, [a]) == Next(s, a);
    assert Run(INITIAL, schedule + [a]) == Next(s, a);
  }

  lemma {:induction false} LogOnlyGrows(s: System, schedule: seq<Action>)
    requires Valid(s, schedule)
    ensures s.log <= Run(s, schedule).log
    decreases |schedule|
  {
    if schedule != [] {
      hide Framing.AddSeq, Framing.ReadSeq;
      LogOnlyGrows(Next(s, schedule[0]), schedule[1..]);
    }
  }

  // The properties.

  /** What was delivered at place `i` is the part of the payload taken there that the
      receive buffer holds behind the number `i + 1`. */
  predicate Fitted(s: System, i: nat)
    requires i < |s.rcv.queue| && i < |s.taken|
  {
    Framing.Short(i + 1) && s.rcv.queue[i] == Framing.Fitting(i + 1, s.taken[i])
  }

  /** Order safety: what is delivered is what was taken, in order, each payload once; of a
      payload too long for the receive buffer, the part that fits. */
  lemma DeliveredInOrder(s: System)
    requires Reachable(s) && Framing.Short(|s.rcv.queue|)
    ensures |s.rcv.queue| <= |s.taken| && s.taken <= s.input
    ensures forall i: nat | i < |s.rcv.queue| :: Fitted(s, i)
  {
    hide Framing.Short, Framing.Fitting, Framing.AddSeq, SignalsCover, LogOk, FramesOk, Decode;
    ReachableInv(s);
    DeliveredIntact(s);
    forall i: nat | i < |s.rcv.queue| ensures i < |s.taken| && Fitted(s, i) {
      assert DeliveredAt(s, i);
      assert s.taken[..|s.log|] == Payloads(s.log);
      assert s.taken[i] == s.taken[..|s.log|][i];
    }
  }

  /** The receiver's queue is a prefix of the payloads taken exactly when every delivered
      payload fitted the receive buffer with its number. */
  lemma DeliveredIsPrefixIff(s: System)
    requires Reachable(s) && Framing.Short(|s.rcv.queue|)
    ensures |s.rcv.queue| <= |s.taken|
    ensures s.rcv.queue <= s.taken
            <==> forall i: nat :: i < |s.rcv.queue| ==> Framing.Fits(i + 1, s.taken[i])
  {
    hide Framing.Short, Framing.Fits, Framing.Fitting;
    DeliveredInOrder(s);
    forall i: nat | i < |s.rcv.queue|
      ensures s.rcv.queue[i] == s.taken[i] <==> Framing.Fits(i + 1, s.taken[i])
    {
      assert Fitted(s, i);
    }
  }

  /** Prefix safety: if every payload put fits the receive buffer with its place as number, the
      receiver's queue is always a prefix of the payloads put, whatever the channel does. */
  lemma DeliveredIsPrefix(s: System)
    requires Reachable(s) && Framing.Short(|s.input| + 1)
    requires forall i: nat :: i < |s.input| ==> Framing.Fits(i + 1, s.input[i])
    ensures s.rcv.queue <= s.taken <= s.input
  {
    hide Framing.Short, Framing.Fits, Framing.Fitting, Framing.AddSeq, SignalsCover, LogOk, FramesOk, Decode;
    ReachableInv(s);
    assert |s.log| <= |s.taken| <= |s.input|;
    DeliveredPlace(s, |s.input|);
    ShortBelow(|s.rcv.queue|, |s.input| + 1);
    forall i: nat | i < |s.rcv.queue| && i < |s.taken| ensures Framing.Fits(i + 1, s.taken[i]) {
      assert s.taken[i] == s.input[i];
    }
    DeliveredIsPrefixIff(s);
  }

  /** The length of the longest prefix of the log numbered 1, 2, 3, ... */
  function IntactLength(log: seq<Entry>): (n: nat)
    ensures forall k: nat :: Intact(log, k) <==> k <= n
  {
    if log == [] then 0
    else
      var before := log[..|log| - 1];
      var n := IntactLength(before);
      assert forall k: nat :: k <= |before| ==> (Intact(log, k) <==> Intact(before, k));
      assert Intact(before, n);
      assert Intact(log, |log|) ==> Intact(before, |before|);
      if n == |before| && log[n].number == n + 1 then n + 1 else n
  }

  /** Numbers never fall behind the messages, never decrease, and bound what is delivered. */
  lemma NumbersRunAhead(s: System)
    requires Reachable(s)
    ensures forall k :: 0 <= k < |s.log| ==> k + 1 <= s.log[k].number <= s.snd.counter
    ensures forall j, k :: 0 <= j < k < |s.log| ==> s.log[j].number <= s.log[k].number
    ensures s.rcv.counter == |s.rcv.queue|
    ensures Framing.Short(s.rcv.counter) ==> s.rcv.counter <= IntactLength(s.log)
  {
    hide Framing.Short, Framing.AddSeq, Framing.Fitting;
    ReachableInv(s);
    if Framing.Short(s.rcv.counter) {
      DeliveredIntact(s);
    }
  }

  /** Numbering a message keeps the numbers intact exactly when as many acknowledgements
      were counted as messages were numbered. */
  lemma GapArisesIff(s: System)
    requires Reachable(s) && Enabled(s, Number) && Decode(s.snd.send.data).Some?
    ensures var log := Next(s, Number).log;
            Intact(log, |log|) <==> Intact(s.log, |s.log|) && s.snd.counter == |s.log| + 1
  {
    hide Framing.AddSeq, Framing.ReadSeq, Utf8.Decode;
    Framing.FramedIffDecodes(s.snd.counter, s.snd.send.data);
    var log := Next(s, Number).log;
    assert |log| == |s.log| + 1 && log[|s.log|].number == s.snd.counter;
    if Intact(log, |log|) {
      assert forall i :: 0 <= i < |s.log| ==> s.log[i] == log[i];
    }
  }

  /** Once a message carries a number other than its place, it and all later ones are
      undeliverable for good. */
  lemma GapIsFinal(s: System, k: nat, schedule: seq<Action>)
    requires Reachable(s) && Valid(s, schedule)
    requires k < |s.log| && s.log[k].number != k + 1 && Framing.Short(k + 1)
    ensures |Run(s, schedule).rcv.queue| <= k
  {
    hide Framing.Short, Framing.AddSeq, Framing.Fitting;
    ReachableInv(s);
    RunKeepsInv(s, schedule);
    LogOnlyGrows(s, schedule);
    DeliveredPlace(Run(s, schedule), k);
  }
}
