/**
  Which inputs can break the prefix property: those whose first payload that is not a text
  fitting the receive buffer is too long, and is still text where the buffer cuts it.
 */
module Overlong {
  import opened Wrappers
  import opened Utf8
  import opened AckWaitUdt
  import opened Transfer
  import opened LossyTransfer
  import opened Surplus
  import opened CalmRuns
  import Framing

  /** The payload is text and fits the receive buffer with its place as number. */
  predicate Proper(input: seq<bytes>, i: nat)
    requires i < |input|
  {
    Decode(input[i]).Some? && Framing.Fits(i + 1, input[i])
  }

  /** Payload `i` is the first that is not proper; it is a text too long, cut between two characters. */
  predicate CutAt(input: seq<bytes>, i: nat) {
    && i < |input| && Framing.Short(i + 1)
    && (forall j: nat | j < i :: Proper(input, j))
    && Decode(input[i]).Some? && !Framing.Fits(i + 1, input[i])
    && Decode(Framing.Fitting(i + 1, input[i])).Some?
  }

  /** Both ends are idle and everything of `input` is delivered. */
  predicate AllDone(s: System, input: seq<bytes>) {
    && Sound(s) && InStep(s) && Thrifty(s) && Quiet(s) && s.snd.send.Polling?
    && s.input == input && |s.log| == |input| && s.queue == []
  }

  lemma InitialAllDone()
    ensures AllDone(INITIAL, [])
  {
    hide Books, LastInTransit, Framing.Fits;
    InitialBooks();
  }

  lemma QuietIsDelivered(s: System)
    requires Sound(s) && InStep(s) && Thrifty(s) && Quiet(s) && s.snd.send.Polling?
    ensures s.rcv.counter == |s.rcv.queue| == |s.log| && s.snd.counter == |s.log| + 1
  {
    hide LogOk, TakenOk, FramesOk;
  }

  lemma InStepCalmly(s: System, t: System)
    requires Books(s) && InStep(s) && Thrifty(s) && InputFits(s.input) && Leads(s, t)
    ensures InStep(t) && Thrifty(t)
  {
    hide Next, Enabled, Calm, Books, InStep, Thrifty, InputFits;
    var schedule :| CalmValid(s, schedule) && Valid(s, schedule) && Run(s, schedule) == t;
    CalmRunKeepsInStep(s, schedule);
  }

  /** Putting a proper payload and sending it keeps everything delivered. */
  lemma DeliverOne(s: System, input: seq<bytes>, p: bytes) returns (t: System)
    requires Reachable(s) && AllDone(s, input) && InputFits(input + [p])
    requires Decode(p).Some? && Framing.Fits(|input| + 1, p)
    ensures Reachable(t) && AllDone(t, input + [p])
  {
    hide Inv, Conserved, EventTells, FramesFit, InStep, Leads, Reachable, InputFits, Framing.Fits,
         Framing.Short, Decode, Quiet, Calm;
    var s1 := Next(s, Put(p));
    QuietIsDelivered(s);
    PutIsCalm(s, p);
    LeadsNowhere(s);
    LeadsOn(s, s, Put(p));
    NextKeepsBooks(s, Put(p));
    FitsIsShort(|input| + 1, p);
    PutKeepsQuiet(s, p);
    t := NextMessage(s, s1);
    LeadsReachable(s, t);
    PrefixFits(input, input + [p]);
    InStepCalmly(s, t);
  }

  lemma PutIsCalm(s: System, p: bytes)
    requires Framing.Fits(|s.input| + 1, p)
    ensures Calm(s, Put(p))
  {
  }

  lemma PutKeepsQuiet(s: System, p: bytes)
    requires Quiet(s)
    ensures Quiet(Next(s, Put(p)))
  {
  }

  lemma {:induction false} DeliverProper(input: seq<bytes>) returns (t: System)
    requires forall j: nat | j < |input| :: Proper(input, j)
    ensures Reachable(t) && AllDone(t, input)
  {
    hide AllDone, Reachable, Decode, Framing.Fits;
    if input == [] {
      t := INITIAL;
      InitialAllDone();
      InitialReachable();
    } else {
      var front, p := input[..|input| - 1], input[|input| - 1];
      forall j: nat | j < |front| ensures Proper(front, j) {
        assert Proper(input, j) && front[j] == input[j];
      }
      var s := DeliverProper(front);
      assert input == front + [p];
      assert Proper(input, |input| - 1);
      ProperFits(input);
      t := DeliverOne(s, front, p);
    }
  }

  lemma ProperFits(input: seq<bytes>)
    requires forall j: nat | j < |input| :: Proper(input, j)
    ensures InputFits(input)
  {
    hide Framing.Fits, Decode;
    forall i: nat | i < |input| ensures Framing.Fits(i + 1, input[i]) {
      assert Proper(input, i);
    }
  }

  lemma {:induction false} PutAll(s: System, more: seq<bytes>) returns (t: System)
    requires Reachable(s)
    ensures Reachable(t) && t == s.(queue := s.queue + more, input := s.input + more)
    decreases |more|
  {
    hide Reachable;
    if more == [] {
      t := s;
      assert s.queue + [] == s.queue && s.input + [] == s.input;
    } else {
      ReachableNext(s, Put(more[0]));
      t := PutAll(Next(s, Put(more[0])), more[1..]);
      assert s.queue + more == s.queue + [more[0]] + more[1..];
      assert s.input + more == s.input + [more[0]] + more[1..];
    }
  }

  /** The next payload is numbered and sent. */
  lemma TransmitNext(s: System, n: nat) returns (t: System)
    requires Reachable(s) && s.data == multiset{} && s.snd.send.Polling? && s.queue != [] && s.snd.counter == n + 1
    requires Decode(s.queue[0]).Some?
    ensures Framing.AddSeq(n + 1, s.queue[0]).Some?
    ensures Reachable(t) && t.input == s.input && t.taken == s.taken + [s.queue[0]] && t.rcv == s.rcv
    ensures t.data == multiset{Framing.AddSeq(n + 1, s.queue[0]).value}
  {
    hide Framing.AddSeq, Decode, Reachable;
    Framing.FramedIffDecodes(n + 1, s.queue[0]);
    var s1 := Next(s, Clear);
    ReachableNext(s, Clear);
    var s2 := Next(s1, Get);
    ReachableNext(s1, Get);
    var s3 := Next(s2, Number);
    ReachableNext(s2, Number);
    t := Next(s3, Send);
    ReachableNext(s3, Send);
  }

  /** It is received and examined as well, and what the buffer took of it is delivered. */
  lemma DeliverCut(s: System, n: nat) returns (t: System)
    requires Reachable(s) && Quiet(s) && s.snd.send.Polling? && s.queue != []
    requires s.snd.counter == n + 1 && s.rcv.counter == n && Framing.Short(n + 1)
    requires Decode(s.queue[0]).Some? && Decode(Framing.Fitting(n + 1, s.queue[0])).Some?
    ensures Reachable(t) && t.input == s.input && t.taken == s.taken + [s.queue[0]]
    ensures t.rcv.queue == s.rcv.queue + [Framing.Fitting(n + 1, s.queue[0])]
  {
    hide Framing.AddSeq, Framing.ReadSeq, Framing.Received, Framing.Fitting, Framing.Short, Framing.Fits,
         Decode, Reachable, Stamp;
    var s1 := TransmitNext(s, n);
    Framing.ReadOfReceived(n + 1, s.queue[0]);
    var frame := Framing.AddSeq(n + 1, s.queue[0]).value;
    var s2 := Next(s1, Recv(frame));
    ReachableNext(s1, Recv(frame));
    t := Next(s2, Handle);
    ReachableNext(s2, Handle);
  }

  /** Everything before payload `i` is delivered, and the rest is queued. */
  lemma UpToCut(input: seq<bytes>, i: nat) returns (s: System)
    requires i <= |input| && forall j: nat | j < i :: Proper(input, j)
    ensures Reachable(s) && Quiet(s) && s.snd.send.Polling? && s.queue == input[i..] && s.input == input
    ensures s.snd.counter == i + 1 && s.rcv.counter == |s.rcv.queue| == i && |s.taken| == i
  {
    hide Framing.Fits, Decode, Reachable, Sound, InStep, Thrifty, Quiet, Inv, Conserved, EventTells;
    var good := input[..i];
    forall j: nat | j < |good| ensures Proper(good, j) {
      assert Proper(input, j) && good[j] == input[j];
    }
    var s0 := DeliverProper(good);
    QuietIsDelivered(s0);
    ReachableBooks(s0);
    InvTaken(s0);
    TakenAll(s0);
    s := PutAll(s0, input[i..]);
    assert [] + input[i..] == input[i..] && good + input[i..] == input;
    QuietStays(s0, s);
  }

  lemma TakenAll(s: System)
    requires s.input == s.taken + s.queue && s.queue == []
    ensures s.taken == s.input
  {
  }

  lemma CutBreaksPrefix(input: seq<bytes>, i: nat) returns (s: System)
    requires CutAt(input, i)
    ensures Reachable(s) && s.input == input && !(s.rcv.queue <= s.taken)
  {
    hide Framing.Fits, Framing.Short, Framing.Fitting, Decode, Reachable, Quiet;
    var s1 := UpToCut(input, i);
    s := DeliverCut(s1, i);
    assert s.rcv.queue[i] == Framing.Fitting(i + 1, input[i]);
    assert s.taken[i] == input[i];
  }

  lemma QuietStays(s: System, t: System)
    requires Quiet(s) && t == s.(queue := t.queue, input := t.input)
    ensures Quiet(t)
  {
  }

  /** The first payload that is not proper, given that one is not. */
  lemma FirstImproper(input: seq<bytes>, k: nat) returns (i: nat)
    requires k < |input| && !Proper(input, k)
    ensures i <= k && !Proper(input, i) && forall j: nat | j < i :: Proper(input, j)
  {
    hide Framing.Fits, Decode;
    i := 0;
    while Proper(input, i)
      invariant i <= k
      invariant forall j: nat | j < i :: Proper(input, j)
      decreases k - i
    {
      i := i + 1;
    }
  }

  lemma DeliveredWasText(s: System, i: nat)
    requires Inv(s) && i < |s.rcv.queue| && Framing.Short(i + 1)
    ensures i < |s.input| && Decode(s.input[i]).Some?
    ensures s.rcv.queue[i] == Framing.Fitting(i + 1, s.input[i]) && Decode(s.rcv.queue[i]).Some?
  {
    hide Framing.Short, Framing.Fitting, Framing.AddSeq, Decode, SignalsCover, FramesOk;
    assert DeliveredAt(s, i);
    Framing.FramedIffDecodes(s.log[i].number, s.log[i].data);
    assert s.taken[..|s.log|] == Payloads(s.log);
    assert s.input[i] == s.taken[i] == s.taken[..|s.log|][i];
  }

  lemma AllProperIsPrefix(s: System)
    requires Reachable(s) && Framing.Short(|s.input| + 1)
    requires forall j: nat | j < |s.input| :: Proper(s.input, j)
    ensures s.rcv.queue <= s.taken
  {
    hide Reachable, Framing.Short, Framing.Fits, Decode;
    forall i: nat | i < |s.input| ensures Framing.Fits(i + 1, s.input[i]) {
      assert Proper(s.input, i);
    }
    DeliveredIsPrefix(s);
  }

  lemma BrokenIsCut(s: System) returns (i: nat)
    requires Reachable(s) && Framing.Short(|s.input| + 1) && !(s.rcv.queue <= s.taken)
    ensures CutAt(s.input, i)
  {
    hide Framing.Short, Framing.Fits, Framing.Fitting, Decode, Inv;
    ReachableInv(s);
    if forall j: nat | j < |s.input| :: Proper(s.input, j) {
      AllProperIsPrefix(s);
    }
    var k: nat :| k < |s.input| && !Proper(s.input, k);
    i := FirstImproper(s.input, k);
    ShortBelow(i + 1, |s.input| + 1);
    if i < |s.rcv.queue| {
      DeliveredWasText(s, i);
    } else {
      ShortQueue(s, i);
    }
  }

  /** Before an improper payload is delivered, nothing is cut. */
  lemma ShortQueue(s: System, i: nat)
    requires Reachable(s) && Framing.Short(|s.input| + 1) && i < |s.input| && |s.rcv.queue| <= i
    requires forall j: nat | j < i :: Proper(s.input, j)
    ensures s.rcv.queue <= s.taken
  {
    hide Framing.Short, Framing.Fits, Framing.Fitting, Decode, Reachable;
    ShortBelow(|s.rcv.queue|, |s.input| + 1);
    DeliveredIsPrefixIff(s);
    ReachableInv(s);
    forall j: nat | j < |s.rcv.queue| ensures Framing.Fits(j + 1, s.taken[j]) {
      assert Proper(s.input, j);
      assert s.taken[j] == s.input[j] by {
        TakenIsInput(s);
      }
    }
  }

  lemma TakenIsInput(s: System)
    requires Inv(s)
    ensures s.taken <= s.input
  {
  }

  /** An input can break the prefix property, in some run, exactly when its first payload that
      is not a text fitting the receive buffer is a text that the buffer cuts between two
      characters. */
  lemma PrefixBreaksIff(input: seq<bytes>)
    requires Framing.Short(|input| + 1)
    ensures (exists s :: Reachable(s) && s.input == input && !(s.rcv.queue <= s.taken))
            <==> exists i :: CutAt(input, i)
  {
    hide Reachable, CutAt, Framing.Short;
    if i: nat :| CutAt(input, i) {
      var s := CutBreaksPrefix(input, i);
    }
    if s :| Reachable(s) && s.input == input && !(s.rcv.queue <= s.taken) {
      var i := BrokenIsCut(s);
    }
  }
}
