/**
  The two objects run: a schedule of the system is carried out by calling the step methods
  of one sender and one receiver, with the channel between them.
 */
module Execution {
  import opened Utf8
  import opened AckWaitUdt
  import opened Transfer

  /** What lies between the objects: the application's queue and the network. */
  datatype Channel = Channel(queue: seq<bytes>, data: multiset<bytes>, acks: multiset<bytes>)

  /** The objects are in the state `s` of the system. */
  predicate Shows(sender: AckWaitUdtSender, receiver: AckWaitUdtReceiver, channel: Channel, s: System)
    reads sender, receiver
  {
    && sender.View() == s.snd && receiver.View() == s.rcv
    && channel.queue == s.queue && channel.data == s.data && channel.acks == s.acks
  }

  /** One step of the sending thread. */
  method SenderStep(sender: AckWaitUdtSender, receiver: AckWaitUdtReceiver, channel: Channel,
                    ghost s: System, a: Action)
    returns (next: Channel)
    requires Shows(sender, receiver, channel, s) && Enabled(s, a)
    requires a.Clear? || a.Get? || a.Number? || a.Send? || a.Wait?
    modifies sender
    ensures Shows(sender, receiver, next, Next(s, a))
  {
    hide Stamp;
    next := channel;
    match a
    case Clear => sender.ClearEventStep();
    case Get =>
      var rest := sender.GetStep(channel.queue);
      next := channel.(queue := rest);
    case Number => sender.StampStep();
    case Send =>
      var datagram := sender.SendStep();
      next := channel.(data := channel.data + multiset{datagram});
    case Wait => sender.WaitStep();
  }

  /** One step of the acknowledgement thread. */
  method AckStep(sender: AckWaitUdtSender, receiver: AckWaitUdtReceiver, channel: Channel,
                 ghost s: System, a: Action)
    returns (next: Channel)
    requires Shows(sender, receiver, channel, s) && Enabled(s, a)
    requires a.RecvAck? || a.Raise? || a.Set?
    modifies sender
    ensures Shows(sender, receiver, next, Next(s, a))
  {
    next := channel;
    match a
    case RecvAck(response) =>
      sender.TakeAckStep(response);
      next := channel.(acks := channel.acks - multiset{response});
    case Raise => sender.BumpStep();
    case Set => sender.SetEventStep();
  }

  /** One step of the receiver. */
  method ReceiverStep(sender: AckWaitUdtSender, receiver: AckWaitUdtReceiver, channel: Channel,
                      ghost s: System, a: Action)
    returns (next: Channel)
    requires Shows(sender, receiver, channel, s) && Enabled(s, a)
    requires a.Recv? || a.Handle? || a.Ack?
    modifies receiver
    ensures Shows(sender, receiver, next, Next(s, a))
  {
    hide Examine, AckOf;
    next := channel;
    match a
    case Recv(datagram) =>
      receiver.TakeStep(datagram);
      next := channel.(data := channel.data - multiset{datagram});
    case Handle => receiver.ExamineStep();
    case Ack =>
      var ack := receiver.AckStep();
      next := channel.(acks := channel.acks + multiset{ack});
  }

  /** One step of the channel or of the application that fills the queue. */
  method ChannelStep(sender: AckWaitUdtSender, receiver: AckWaitUdtReceiver, channel: Channel,
                     ghost s: System, a: Action)
    returns (next: Channel)
    requires Shows(sender, receiver, channel, s) && Enabled(s, a)
    requires a.Put? || a.LoseData? || a.LoseAck? || a.CopyData? || a.CopyAck?
    ensures Shows(sender, receiver, next, Next(s, a))
  {
    match a
    case Put(payload) => next := channel.(queue := channel.queue + [payload]);
    case LoseData(d) => next := channel.(data := channel.data - multiset{d});
    case LoseAck(d) => next := channel.(acks := channel.acks - multiset{d});
    case CopyData(d) => next := channel.(data := channel.data + multiset{d});
    case CopyAck(d) => next := channel.(acks := channel.acks + multiset{d});
  }

  /** Every run of the system is a run of the objects. */
  method Execute(schedule: seq<Action>)
    returns (sender: AckWaitUdtSender, receiver: AckWaitUdtReceiver, channel: Channel)
    requires Valid(INITIAL, schedule)
    ensures fresh(sender) && fresh(receiver)
    ensures Shows(sender, receiver, channel, Run(INITIAL, schedule))
  {
    hide Enabled, Next;
    sender := new AckWaitUdtSender();
    receiver := new AckWaitUdtReceiver();
    channel := Channel([], multiset{}, multiset{});
    ghost var s := INITIAL;
    var i := 0;
    while i < |schedule|
      invariant 0 <= i <= |schedule|
      invariant fresh(sender) && fresh(receiver)
      invariant Shows(sender, receiver, channel, s)
      invariant Valid(s, schedule[i..]) && Run(s, schedule[i..]) == Run(INITIAL, schedule)
    {
      var a := schedule[i];
      assert schedule[i..][0] == a && schedule[i..][1..] == schedule[i + 1..];
      match a {
        case Clear => channel := SenderStep(sender, receiver, channel, s, a);
        case Get => channel := SenderStep(sender, receiver, channel, s, a);
        case Number => channel := SenderStep(sender, receiver, channel, s, a);
        case Send => channel := SenderStep(sender, receiver, channel, s, a);
        case Wait => channel := SenderStep(sender, receiver, channel, s, a);
        case RecvAck(_) => channel := AckStep(sender, receiver, channel, s, a);
        case Raise => channel := AckStep(sender, receiver, channel, s, a);
        case Set => channel := AckStep(sender, receiver, channel, s, a);
        case Recv(_) => channel := ReceiverStep(sender, receiver, channel, s, a);
        case Handle => channel := ReceiverStep(sender, receiver, channel, s, a);
        case Ack => channel := ReceiverStep(sender, receiver, channel, s, a);
        case _ => channel := ChannelStep(sender, receiver, channel, s, a);
      }
      s := Next(s, a);
      i := i + 1;
    }
  }
}
