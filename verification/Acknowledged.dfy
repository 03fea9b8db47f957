/**
  When "acknowledged" means "delivered": as long as the transmissions and copies do not
  outnumber the messages and the losses, and no longer.
 */
module Acknowledged {
  import opened Wrappers
  import opened Utf8
  import opened AckWaitUdt
  import opened Transfer
  import opened LossyTransfer
  import opened Surplus
  import opened CalmRuns
  import Framing
  import PyText

  lemma GapForGood(s: System, k: nat)
    requires Reachable(s) && k < |s.log| && s.log[k].number != k + 1 && Framing.Short(k + 1)
    ensures forall after :: Valid(s, after) ==> |Run(s, after).rcv.queue| <= k
  {
    hide Next, Enabled, Framing.Short;
    forall after | Valid(s, after) ensures |Run(s, after).rcv.queue| <= k {
      GapIsFinal(s, k, after);
    }
  }

  /** More transmissions than messages and losses: without any further fault of the channel the
      sender completes a message that no continuation whatever delivers. */
  lemma SurplusLosesMessage(s: System) returns (t: System, k: nat)
    requires Reachable(s) && !Thrifty(s) && Roomy(s)
    ensures Leads(s, t) && Reachable(t)
    ensures k < Completed(t) && t.log[k].number != k + 1
    ensures forall after :: Valid(t, after) ==> |Run(t, after).rcv.queue| <= k
  {
    hide Reachable, Leads, Sound, Books, Framing.Short, Framing.Fits, Utf8.Decode, Next, Enabled, FramesFit;
    ReachableBooks(s);
    var s1 := Settle(s);
    t := s1;
    if s1.snd.send.Waiting? {
      t := EndWait(s, s1);
    }
    if s1.snd.send.Waiting? && t.snd.counter != s1.snd.counter {
      k := |t.log| - 1;
    } else {
      k := |t.log|;
      t := NextMessage(s, t);
    }
    LeadsReachable(s, t);
    ShortBelow(k + 1, NextNumber(s));
    GapForGood(t, k);
  }

  // Whole runs.

  lemma {:induction false} PrefixValid(s: System, schedule: seq<Action>, k: nat)
    requires Valid(s, schedule) && k <= |schedule|
    ensures Valid(s, schedule[..k]) && Valid(Run(s, schedule[..k]), schedule[k..])
    ensures Run(s, schedule) == Run(Run(s, schedule[..k]), schedule[k..])
    decreases k
  {
    hide Next, Enabled, Valid, Run;
    if k == 0 {
      assert schedule[..0] == [] && schedule[0..] == schedule;
      NoSteps(s);
    } else {
      FirstStep(s, schedule);
      var s', rest := Next(s, schedule[0]), schedule[1..];
      PrefixValid(s', rest, k - 1);
      assert schedule[..k][1..] == rest[..k - 1] && rest[k - 1..] == schedule[k..];
      FirstStepBack(s, schedule[..k]);
    }
  }

  lemma NoSteps(s: System)
    ensures Valid(s, []) && Run(s, []) == s
  {
  }

  lemma FirstStep(s: System, schedule: seq<Action>)
    requires Valid(s, schedule) && schedule != []
    ensures Enabled(s, schedule[0]) && Valid(Next(s, schedule[0]), schedule[1..])
    ensures Run(s, schedule) == Run(Next(s, schedule[0]), schedule[1..])
  {
    hide Next, Enabled;
  }

  lemma FirstStepBack(s: System, schedule: seq<Action>)
    requires schedule != [] && Enabled(s, schedule[0]) && Valid(Next(s, schedule[0]), schedule[1..])
    ensures Valid(s, schedule) && Run(s, schedule) == Run(Next(s, schedule[0]), schedule[1..])
  {
    hide Next, Enabled;
  }

  /** The state after the first `k` steps of a run. */
  function At(schedule: seq<Action>, k: nat): System
    requires Valid(INITIAL, schedule) && k <= |schedule|
  {
    PrefixValid(INITIAL, schedule, k);
    Run(INITIAL, schedule[..k])
  }

  lemma AtNext(schedule: seq<Action>, k: nat)
    requires Valid(INITIAL, schedule) && k < |schedule|
    ensures Enabled(At(schedule, k), schedule[k])
    ensures At(schedule, k + 1) == Next(At(schedule, k), schedule[k])
  {
    hide Next, Enabled;
    PrefixValid(INITIAL, schedule, k);
    PrefixValid(INITIAL, schedule, k + 1);
    var s, a := At(schedule, k), schedule[k];
    assert schedule[k..][0] == a;
    assert Valid(s, [a]) && Run(s, [a]) == Next(s, a) by {
      assert [a][1..] == [];
    }
    RunInTwoParts(INITIAL, schedule[..k], [a]);
    assert schedule[..k] + [a] == schedule[..k + 1];
  }

  lemma AtEnds(schedule: seq<Action>)
    requires Valid(INITIAL, schedule)
    ensures At(schedule, 0) == INITIAL
    ensures At(schedule, |schedule|) == Run(INITIAL, schedule)
  {
    assert schedule[..|schedule|] == schedule;
  }

  lemma AtReachable(schedule: seq<Action>, k: nat)
    requires Valid(INITIAL, schedule) && k <= |schedule|
    ensures Reachable(At(schedule, k))
  {
    PrefixValid(INITIAL, schedule, k);
  }

  lemma {:induction false} InputGrows(schedule: seq<Action>, k: nat)
    requires Valid(INITIAL, schedule) && k <= |schedule|
    ensures At(schedule, k).input <= Run(INITIAL, schedule).input
    decreases |schedule| - k
  {
    hide Next, Enabled, At, Valid, Run;
    AtEnds(schedule);
    if k < |schedule| {
      AtNext(schedule, k);
      InputKept(At(schedule, k), schedule[k]);
      InputGrows(schedule, k + 1);
    }
  }

  /** While the budget was kept, the run is in step. */
  lemma {:induction false} BudgetKeepsInStep(schedule: seq<Action>, k: nat)
    requires Valid(INITIAL, schedule) && k <= |schedule|
    requires InputFits(Run(INITIAL, schedule).input)
    requires forall j: nat :: j < k ==> WithinBudget(At(schedule, j))
    ensures Books(At(schedule, k)) && InStep(At(schedule, k)) && InputFits(At(schedule, k).input)
    decreases k
  {
    hide Next, Enabled, At, Valid, Run, Books, InStep, InputFits, WithinBudget;
    InputGrows(schedule, k);
    PrefixFits(At(schedule, k).input, Run(INITIAL, schedule).input);
    if k == 0 {
      AtEnds(schedule);
      InitialBooks();
      InitialInStep();
    } else {
      BudgetKeepsInStep(schedule, k - 1);
      AtNext(schedule, k - 1);
      NextKeepsInStep(At(schedule, k - 1), schedule[k - 1]);
      NextKeepsBooks(At(schedule, k - 1), schedule[k - 1]);
    }
  }

  lemma InitialInStep()
    ensures InStep(INITIAL) && Thrifty(INITIAL)
  {
    hide LastInTransit;
  }

  lemma DeliveredCounted(s: System)
    requires Books(s)
    ensures |s.rcv.queue| == s.rcv.counter
  {
  }

  /** In every run of payloads that fit, in which transmissions and copies never outnumber
      messages and losses, every completed message is delivered. */
  lemma WithinBudgetDelivers(schedule: seq<Action>)
    requires Valid(INITIAL, schedule) && InputFits(Run(INITIAL, schedule).input)
    requires forall k: nat :: k <= |schedule| ==> WithinBudget(At(schedule, k))
    ensures forall k: nat :: k <= |schedule| ==> Completed(At(schedule, k)) <= |At(schedule, k).rcv.queue|
  {
    hide Next, Enabled, At, Valid, Run, Books, InStep, InputFits, WithinBudget, Completed;
    forall k: nat | k <= |schedule| ensures Completed(At(schedule, k)) <= |At(schedule, k).rcv.queue| {
      BudgetKeepsInStep(schedule, k);
      CompletedDelivered(At(schedule, k));
      DeliveredCounted(At(schedule, k));
    }
  }

  /** As long as the channel commits no further fault, every completed message is delivered. */
  ghost predicate Safe(s: System) {
    forall more :: CalmValid(s, more) && Valid(s, more) ==> Completed(Run(s, more)) <= |Run(s, more).rcv.queue|
  }

  /** Text payloads that fit the receive buffer with their place as number and with the next. */
  predicate Spacious(input: seq<bytes>) {
    forall i: nat :: i < |input| ==> Decode(input[i]).Some? && Framing.Fits(i + 2, input[i])
  }

  lemma FitsBelow(m: nat, n: nat, data: bytes)
    requires m <= n && Framing.Fits(n, data)
    ensures Framing.Fits(m, data)
  {
    PyText.PrintGrows(m, n);
  }

  lemma SpaciousFits(input: seq<bytes>)
    requires Spacious(input)
    ensures InputFits(input)
  {
    hide Framing.Fits, Utf8.Decode;
    forall i: nat | i < |input| ensures Framing.Fits(i + 1, input[i]) {
      FitsBelow(i + 1, i + 2, input[i]);
    }
  }

  lemma ThriftyIsSafe(s: System)
    requires Books(s) && InStep(s) && Thrifty(s) && InputFits(s.input)
    ensures Safe(s)
  {
    hide Next, Enabled, Books, InStep, InputFits, Thrifty, Completed;
    forall more | CalmValid(s, more) && Valid(s, more)
      ensures Completed(Run(s, more)) <= |Run(s, more).rcv.queue|
    {
      CalmRunKeepsInStep(s, more);
      CompletedDelivered(Run(s, more));
      DeliveredCounted(Run(s, more));
    }
  }

  /** One step spends at most one transmission. */
  lemma SpendsOne(s: System, a: Action)
    requires Thrifty(s) && Enabled(s, a)
    ensures Spent(Next(s, a)) <= |Next(s, a).log| + Next(s, a).losses + 1
  {
    hide Framing.AddSeq, Examine, AckOf;
  }

  lemma TextNeverRaises(s: System)
    requires Inv(s) && (|s.log| < |s.input| ==> Decode(s.input[|s.log|]).Some?)
    ensures !s.snd.send.SenderRaised?
  {
    hide LogOk, FramesOk, DeliveredOk, SignalsCover, Utf8.Decode;
    assert |s.log| < |s.taken| ==> s.taken[|s.log|] == s.input[|s.log|];
  }

  /** The first state beyond the budget offers what it takes to lose a message. */
  lemma FirstSurplusIsRoomy(s: System, input: seq<bytes>)
    requires Books(s) && InStep(s) && InputFits(s.input) && s.input <= input
    requires Spacious(input) && Framing.Short(|input| + 2)
    requires Spent(s) == |s.log| + s.losses + 1
    ensures Roomy(s)
  {
    hide LogOk, FramesOk, DeliveredOk, SignalsCover, Utf8.Decode, Framing.Fits, Framing.Short, Conserved,
         EventTells;
    InvTaken(s);
    ShortBelow(|s.log| + 2, |input| + 2);
    forall i: nat | i < |s.log| ensures Framing.Fits(s.log[i].number, s.log[i].data) {
      EntryFits(s, i);
    }
    if |s.log| < |s.input| {
      assert s.input[|s.log|] == input[|s.log|];
    }
    TextNeverRaises(s);
  }

  lemma FirstSurplus(schedule: seq<Action>, k: nat) returns (j: nat)
    requires Valid(INITIAL, schedule) && k <= |schedule| && !Thrifty(At(schedule, k))
    ensures j <= k && !Thrifty(At(schedule, j))
    ensures forall i: nat :: i < j ==> Thrifty(At(schedule, i))
  {
    hide At, Valid, Run, Thrifty;
    j := 0;
    while Thrifty(At(schedule, j))
      invariant j <= k
      invariant forall i: nat :: i < j ==> Thrifty(At(schedule, i))
      decreases k - j
    {
      j := j + 1;
    }
  }

  lemma SurplusIsUnsafe(schedule: seq<Action>, k: nat) returns (j: nat)
    requires Valid(INITIAL, schedule) && k <= |schedule| && !Thrifty(At(schedule, k))
    requires Spacious(Run(INITIAL, schedule).input) && Framing.Short(|Run(INITIAL, schedule).input| + 2)
    ensures j <= |schedule| && !Safe(At(schedule, j))
  {
    hide Next, Enabled, At, Valid, Run, Books, InStep, InputFits, Completed, Spacious, Framing.Short,
         CalmValid, Reachable, Roomy;
    AtEnds(schedule);
    InitialInStep();
    j := FirstSurplus(schedule, k);
    var s := At(schedule, j);
    SpaciousFits(Run(INITIAL, schedule).input);
    BudgetKeepsInStep(schedule, j);
    AtNext(schedule, j - 1);
    SpendsOne(At(schedule, j - 1), schedule[j - 1]);
    InputGrows(schedule, j);
    FirstSurplusIsRoomy(s, Run(INITIAL, schedule).input);
    AtReachable(schedule, j);
    var t, m := SurplusLosesMessage(s);
    NotDelivered(t, m);
  }

  lemma NotDelivered(t: System, m: nat)
    requires forall after :: Valid(t, after) ==> |Run(t, after).rcv.queue| <= m
    ensures |t.rcv.queue| <= m
  {
    assert Valid(t, []) && Run(t, []) == t;
  }

  /** "Acknowledged means delivered" holds at every point of a run, whatever calm steps follow,
      exactly when at no point of it the transmissions made or decided, copies included,
      outnumber the messages and the losses. */
  lemma AcknowledgedIsDeliveredIff(schedule: seq<Action>)
    requires Valid(INITIAL, schedule)
    requires Spacious(Run(INITIAL, schedule).input) && Framing.Short(|Run(INITIAL, schedule).input| + 2)
    ensures (forall k: nat :: k <= |schedule| ==> Thrifty(At(schedule, k)))
            <==> (forall k: nat :: k <= |schedule| ==> Safe(At(schedule, k)))
  {
    hide Next, Enabled, At, Valid, Run, Books, InStep, InputFits, Spacious, Framing.Short, Safe;
    SpaciousFits(Run(INITIAL, schedule).input);
    if forall k: nat :: k <= |schedule| ==> Thrifty(At(schedule, k)) {
      forall k: nat | k <= |schedule| ensures Safe(At(schedule, k)) {
        BudgetKeepsInStep(schedule, k);
        ThriftyIsSafe(At(schedule, k));
      }
    } else {
      var k: nat :| k <= |schedule| && !Thrifty(At(schedule, k));
      var j := SurplusIsUnsafe(schedule, k);
    }
  }
}
