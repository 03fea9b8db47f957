/**
  What the rendezvous can come to: two clients that want each other do get connected when
  their requests reach the server one after the other's registration, and the server ends
  when a request overtakes the request it should be matched with.
 */
module Meeting {
  import opened Wrappers
  import opened Utf8
  import opened Addresses
  import opened MatchTables
  import opened StunCodec
  import opened StunServers
  import opened StunClients
  import opened Rendezvous
  import ServerRuns
  import BitStrings

  lemma {:induction false} RunInTwoParts(cfg: Config, s: System, first: seq<Action>, second: seq<Action>)
    requires Valid(cfg, s, first) && Valid(cfg, Run(cfg, s, first), second)
    ensures Valid(cfg, s, first + second)
    ensures Run(cfg, s, first + second) == Run(cfg, Run(cfg, s, first), second)
    decreases |first|
  {
    hide Next, Enabled;
    if first == [] {
      assert first + second == second;
    } else {
      RunInTwoParts(cfg, Next(cfg, s, first[0]), first[1..], second);
      assert (first + second)[1..] == first[1..] + second;
    }
  }

  /** `t` can be reached from `s`. */
  ghost predicate Leads(cfg: Config, s: System, t: System) {
    exists schedule :: Valid(cfg, s, schedule) && Run(cfg, s, schedule) == t
  }

  lemma LeadsNowhere(cfg: Config, s: System)
    ensures Leads(cfg, s, s)
  {
    assert Valid(cfg, s, []) && Run(cfg, s, []) == s;
  }

  lemma LeadsOn(cfg: Config, s: System, t: System, a: Action)
    requires Leads(cfg, s, t) && Enabled(cfg, t, a)
    ensures Leads(cfg, s, Next(cfg, t, a))
  {
    hide Next, Enabled;
    var schedule :| Valid(cfg, s, schedule) && Run(cfg, s, schedule) == t;
    assert Valid(cfg, t, [a]) && Run(cfg, t, [a]) == Next(cfg, t, a);
    RunInTwoParts(cfg, s, schedule, [a]);
    assert Run(cfg, s, schedule + [a]) == Next(cfg, t, a);
  }

  function IndicationDatagram(cfg: Config, i: nat): Datagram
    requires i < |cfg.peers| && EncodeMessage(IndicationOf(cfg.peers[i])).Some?
  {
    Datagram(cfg.peers[i].address, cfg.server, EncodeMessage(IndicationOf(cfg.peers[i])).value)
  }

  function RequestDatagram(cfg: Config, i: nat): Datagram
    requires i < |cfg.peers| && EncodeMessage(RequestOf(cfg.peers[i])).Some?
  {
    Datagram(cfg.peers[i].address, cfg.server, EncodeMessage(RequestOf(cfg.peers[i])).value)
  }

  lemma PeerMessages(cfg: Config, i: nat)
    requires WellFormed(cfg) && i < |cfg.peers|
    ensures EncodeMessage(IndicationOf(cfg.peers[i])).Some? && EncodeMessage(RequestOf(cfg.peers[i])).Some?
    ensures DecodeMessage(Cut(EncodeMessage(IndicationOf(cfg.peers[i])).value)) == Some(IndicationOf(cfg.peers[i]))
    ensures DecodeMessage(Cut(EncodeMessage(RequestOf(cfg.peers[i])).value)) == Some(RequestOf(cfg.peers[i]))
  {
    hide EncodeMessage, DecodeMessage, Encode, BitStrings.Pow2, IsAddressValid, Cut;
    ClientMessage(IndicationOf(cfg.peers[i]));
    ClientMessage(RequestOf(cfg.peers[i]));
  }

  /** A client that has not started sends both its messages. */
  lemma Announce(cfg: Config, s0: System, s: System, i: nat) returns (t: System)
    requires WellFormed(cfg) && Inv(cfg, s) && Leads(cfg, s0, s) && i < |cfg.peers| && s.nodes[i].point == Unstarted
    ensures EncodeMessage(IndicationOf(cfg.peers[i])).Some? && EncodeMessage(RequestOf(cfg.peers[i])).Some?
    ensures Leads(cfg, s0, t) && Inv(cfg, t) && t.server == s.server
    ensures t.net == s.net + {IndicationDatagram(cfg, i), RequestDatagram(cfg, i)}
    ensures var p := cfg.peers[i];
            t.nodes == s.nodes[i := Node(Started(NewClient(p.id, p.dest), p.indicationId, p.requestId), Requesting)]
  {
    hide EncodeMessage, DecodeMessage, Encode, BitStrings.Pow2, IsAddressValid, Leads, ServerOk, DatagramOk;
    PeerMessages(cfg, i);
    assert NodeOk(cfg, s, i);
    var s1 := Next(cfg, s, Start(i));
    LeadsOn(cfg, s0, s, Start(i));
    NextKeepsInv(cfg, s, Start(i));
    var s2 := Next(cfg, s1, SendIndication(i));
    LeadsOn(cfg, s0, s1, SendIndication(i));
    NextKeepsInv(cfg, s1, SendIndication(i));
    t := Next(cfg, s2, SendRequest(i));
    LeadsOn(cfg, s0, s2, SendRequest(i));
    NextKeepsInv(cfg, s2, SendRequest(i));
  }

  /** The server's indication that tells client `i` its public address. */
  predicate Tells(cfg: Config, d: Datagram, i: nat)
    requires i < |cfg.peers|
  {
    && d.src == cfg.server && d.dst == cfg.peers[i].address
    && DecodeMessage(Cut(d.data)).Some?
    && DecodeMessage(Cut(d.data)).value.messageType == Some(Indication)
    && DecodeMessage(Cut(d.data)).value.payload == PublicInfoText(cfg.peers[i].address)
  }

  ghost predicate Told(cfg: Config, s: System, i: nat)
    requires i < |cfg.peers|
  {
    exists d :: d in s.net && Tells(cfg, d, i)
  }

  lemma IndicationTells(cfg: Config, i: nat)
    requires i < |cfg.peers| && IsAddressValid(cfg.peers[i].address) && 0 < BitStrings.Pow2(96)
    ensures Tells(cfg, Datagram(cfg.server, cfg.peers[i].address, ServerIndication(cfg.peers[i], 0)), i)
  {
    hide IsAddressValid, DecodeMessage, EncodeMessage, BitStrings.Pow2, PublicInfoText, Cut;
    var a := cfg.peers[i].address;
    ServerRuns.AddressTextIsShort(a);
    ServerMessage(Message(Some(Indication), Some(0), PublicInfoText(a)));
  }

  /** The server receives a client's registration and tells the client its address. */
  lemma Register(cfg: Config, s0: System, s: System, i: nat) returns (t: System)
    requires WellFormed(cfg) && Inv(cfg, s) && Leads(cfg, s0, s) && i < |cfg.peers| && s.server.Running?
    requires EncodeMessage(IndicationOf(cfg.peers[i])).Some? && IndicationDatagram(cfg, i) in s.net
    ensures Leads(cfg, s0, t) && Inv(cfg, t) && t.nodes == s.nodes && s.net <= t.net && Told(cfg, t, i)
    ensures t.server == s.server.(table := AddPeer(s.server.table, cfg.peers[i].id, cfg.peers[i].address))
  {
    hide EncodeMessage, DecodeMessage, Encode, BitStrings.Pow2, IsAddressValid, Leads, Inv, AddPeer,
         HandleMessage, Cut, Tells, ServerIndication;
    PeerMessages(cfg, i);
    BitStrings.BinaryFits(0, 96);
    HandleIndicationOf(s.server, cfg.peers[i], 0);
    var a := ServerReceives(IndicationDatagram(cfg, i), 0);
    assert Enabled(cfg, s, a) by {
      InvCounts(cfg, s);
    }
    t := Next(cfg, s, a);
    LeadsOn(cfg, s0, s, a);
    NextKeepsInv(cfg, s, a);
    IndicationTells(cfg, i);
    var reply := Reply(cfg.peers[i].address, ServerIndication(cfg.peers[i], 0));
    assert Datagram(cfg.server, reply.to, reply.data) in Deliver(cfg, [reply]);
  }

  lemma ToldStays(cfg: Config, s: System, t: System, i: nat)
    requires i < |cfg.peers| && Told(cfg, s, i) && s.net <= t.net
    ensures Told(cfg, t, i)
  {
    hide Tells;
  }

  /** A waiting client that receives such an indication goes on as before. */
  ghost predicate HearsUnharmed(cfg: Config, s: System, i: nat)
    requires i < |cfg.peers|
  {
    exists d :: && d in s.net && Tells(cfg, d, i)
                && Enabled(cfg, s, ClientReceives(i, d)) && Next(cfg, s, ClientReceives(i, d)) == s
  }

  lemma TellingIsHarmless(cfg: Config, s: System, i: nat)
    requires i < |cfg.peers| && |s.nodes| == |cfg.peers| && Told(cfg, s, i)
    requires s.nodes[i].client.state == StunServerWait && s.nodes[i].client.receiving
    ensures HearsUnharmed(cfg, s, i)
  {
    hide DecodeMessage, Cut, PublicInfoText, Received;
    var d :| d in s.net && Tells(cfg, d, i);
    WaitingIff(s.nodes[i].client, Cut(d.data));
    assert Received(s.nodes[i].client, Cut(d.data)) == s.nodes[i].client;
    assert s.nodes[i := s.nodes[i]] == s.nodes;
  }

  lemma InvCounts(cfg: Config, s: System)
    requires Inv(cfg, s)
    ensures |s.nodes| == |cfg.peers|
    ensures s.server.Running? ==> ServerOk(cfg, s) && ServerRuns.TablesOk(s.server)
  {
  }

  /** The arrival of a copy of client `i`'s request at the server. */
  function RequestArrives(cfg: Config, i: nat): Action
    requires i < |cfg.peers| && EncodeMessage(RequestOf(cfg.peers[i])).Some?
  {
    ServerReceives(RequestDatagram(cfg, i), 0)
  }

  function AcceptedOf(p: Peer): ServerRuns.Accepted {
    ServerRuns.Accepted(p.id, Some(p.requestId), p.dest)
  }

  /** The server receives a registered client's request. */
  lemma Ask(cfg: Config, s0: System, s: System, i: nat) returns (t: System, replies: seq<Reply>)
    requires WellFormed(cfg) && Inv(cfg, s) && Leads(cfg, s0, s) && i < |cfg.peers| && s.server.Running?
    requires EncodeMessage(RequestOf(cfg.peers[i])).Some? && RequestDatagram(cfg, i) in s.net
    requires GetPid(s.server.table, cfg.peers[i].address) == Some(cfg.peers[i].id)
    ensures Enabled(cfg, s, RequestArrives(cfg, i)) && t == Next(cfg, s, RequestArrives(cfg, i))
    ensures Leads(cfg, s0, t) && Inv(cfg, t) && t.nodes == s.nodes && t.net == s.net + Deliver(cfg, replies)
    ensures var m, p := RequestOf(cfg.peers[i]), cfg.peers[i];
            && (t.server.Crashed? <==> ServerRuns.EndsServer(s.server, m, p.id))
            && (t.server.Running? ==>
                  t.server == s.server.(pending := ServerRuns.PendingAfter(s.server, AcceptedOf(p))))
            && (t.server.Running? && p.dest in s.server.table.idInfo && s.server.pending[p.dest].dest == p.id
                ==> ServerRuns.AnswersBoth(s.server, p.address, m, replies))
  {
    hide EncodeMessage, DecodeMessage, Encode, BitStrings.Pow2, IsAddressValid, Leads, Inv, HandleMessage,
         Cut, ServerRuns.AnswersBoth, ServerRuns.PendingAfter, ServerRuns.EndsServer, GetPid,
         ServerRuns.TablesOk;
    var p, m := cfg.peers[i], RequestOf(cfg.peers[i]);
    PeerMessages(cfg, i);
    BitStrings.BinaryFits(0, 96);
    InvCounts(cfg, s);
    var a := RequestArrives(cfg, i);
    ServerRuns.MessageEffect(s.server, p.address, m, 0);
    ServerRuns.AcceptedRequestOutcome(s.server, p.address, m, 0);
    t := Next(cfg, s, a);
    replies := HandleMessage(s.server, p.address, m, 0).1;
    LeadsOn(cfg, s0, s, a);
    NextKeepsInv(cfg, s, a);
  }

  /** A waiting client that is introduced to address `a` connects to it. */
  lemma Introduced(p: Peer, data: bytes, a: Address)
    requires IsAddressValid(a)
    requires DecodeMessage(data) == Some(Message(Some(SuccessResponse), Some(p.requestId), AddressText(a)))
    ensures var c := Received(Started(NewClient(p.id, p.dest), p.indicationId, p.requestId), data);
            c.state == PeerConnectionEstablished && c.destination == Some((a.ip, a.port as int))
  {
    hide DecodeMessage, AddressText, IsAddressValid, ParseAddress;
    AddressRoundTrip(a);
  }

  predicate Connected(cfg: Config, s: System, i: nat, j: nat)
    requires i < |s.nodes| && j < |cfg.peers|
  {
    && s.nodes[i].client.state == PeerConnectionEstablished
    && s.nodes[i].client.destination == AddressOf(cfg, j)
  }

  /** Two clients that want each other, neither started nor known to the server. */
  predicate AboutToMeet(cfg: Config, s: System, i: nat, j: nat)
    requires |s.nodes| == |cfg.peers|
  {
    && i < |cfg.peers| && j < |cfg.peers| && i != j
    && cfg.peers[i].dest == cfg.peers[j].id && cfg.peers[j].dest == cfg.peers[i].id
    && s.nodes[i].point == Unstarted && s.nodes[j].point == Unstarted
    && s.server.Running?
    && cfg.peers[i].id !in s.server.table.idInfo && cfg.peers[j].id !in s.server.table.idInfo
  }

  /** The first client registers and asks; its request stays pending. */
  lemma FirstAsks(cfg: Config, s: System, i: nat, j: nat) returns (t: System)
    requires WellFormed(cfg) && Inv(cfg, s) && AboutToMeet(cfg, s, i, j)
    ensures EncodeMessage(RequestOf(cfg.peers[i])).Some? && RequestDatagram(cfg, i) in t.net
    ensures Leads(cfg, s, t) && Inv(cfg, t) && t.server.Running? && Told(cfg, t, i)
    ensures var p := cfg.peers[i];
            && t.nodes == s.nodes[i := Node(Started(NewClient(p.id, p.dest), p.indicationId, p.requestId), Requesting)]
            && p.id in t.server.table.idInfo
            && t.server.table.infoId == s.server.table.infoId[AddressText(p.address) := p.id]
            && p.id in t.server.pending && t.server.pending[p.id] == Pending(Some(p.requestId), p.dest)
  {
    hide EncodeMessage, Encode, BitStrings.Pow2, IsAddressValid, Leads, Inv, AddressText, Told;
    LeadsNowhere(cfg, s);
    var s1 := Announce(cfg, s, s, i);
    var s2 := Register(cfg, s, s1, i);
    var replies;
    t, replies := Ask(cfg, s, s2, i);
    ToldStays(cfg, s2, t, i);
  }

  /** Two replies that introduce clients `i` and `j` to each other. */
  predicate IntroduceBoth(cfg: Config, replies: seq<Reply>, j: nat, i: nat)
    requires i < |cfg.peers| && j < |cfg.peers|
  {
    && |replies| == 2 && |replies[0].data| <= 104 && |replies[1].data| <= 104
    && replies[0].to == cfg.peers[j].address && replies[1].to == cfg.peers[i].address
    && DecodeMessage(replies[0].data)
       == Some(Introduction(cfg, j, i))
    && DecodeMessage(replies[1].data)
       == Some(Introduction(cfg, i, j))
  }

  lemma AnswersBothIntroduce(cfg: Config, s: System, j: nat, i: nat, replies: seq<Reply>)
    requires WellFormed(cfg) && |s.nodes| == |cfg.peers| && s.server.Running? && ServerOk(cfg, s)
    requires i < |cfg.peers| && j < |cfg.peers| && cfg.peers[j].dest == cfg.peers[i].id && i != j
    requires s.nodes[j].point == Requesting
    requires ServerRuns.AnswersBoth(s.server, cfg.peers[j].address, RequestOf(cfg.peers[j]), replies)
    requires cfg.peers[j].dest in s.server.table.idInfo
    requires s.server.pending[cfg.peers[j].dest].dest == cfg.peers[j].id
    ensures IntroduceBoth(cfg, replies, j, i)
  {
    hide DecodeMessage, Encode, BitStrings.Pow2, IsAddressValid, AddressText, ServerOk;
    AnswersIntroduce(cfg, s, j, replies);
  }

  /** The second client announces itself and is registered. */
  lemma SecondRegisters(cfg: Config, s: System, s0: System, j: nat) returns (t: System)
    requires WellFormed(cfg) && Inv(cfg, s) && Leads(cfg, s0, s) && s.server.Running? && j < |cfg.peers|
    requires s.nodes[j].point == Unstarted
    ensures Leads(cfg, s0, t) && Inv(cfg, t) && s.net <= t.net && Told(cfg, t, j)
    ensures EncodeMessage(RequestOf(cfg.peers[j])).Some? && RequestDatagram(cfg, j) in t.net
    ensures var p := cfg.peers[j];
            && t.nodes == s.nodes[j := Node(Started(NewClient(p.id, p.dest), p.indicationId, p.requestId), Requesting)]
            && t.server == s.server.(table := AddPeer(s.server.table, p.id, p.address))
  {
    hide EncodeMessage, Encode, BitStrings.Pow2, IsAddressValid, Leads, ServerOk, NodeOk, DatagramOk,
         WellFormed, Started, NewClient, AddPeer, Told;
    var s1 := Announce(cfg, s0, s, j);
    t := Register(cfg, s0, s1, j);
  }

  /** The second client registers and asks; both requests are answered. */
  lemma SecondAsks(cfg: Config, s: System, s0: System, i: nat, j: nat) returns (t: System, replies: seq<Reply>)
    requires WellFormed(cfg) && Inv(cfg, s) && Leads(cfg, s0, s) && s.server.Running?
    requires i < |cfg.peers| && j < |cfg.peers| && i != j
    requires cfg.peers[i].dest == cfg.peers[j].id && cfg.peers[j].dest == cfg.peers[i].id
    requires s.nodes[j].point == Unstarted
    requires var p := cfg.peers[i];
             && p.id in s.server.table.idInfo && AddressText(p.address) in s.server.table.infoId
             && p.id in s.server.pending && s.server.pending[p.id] == Pending(Some(p.requestId), p.dest)
    ensures Leads(cfg, s0, t) && Inv(cfg, t) && s.net + Deliver(cfg, replies) <= t.net && Told(cfg, t, j)
    ensures var p := cfg.peers[j];
            t.nodes == s.nodes[j := Node(Started(NewClient(p.id, p.dest), p.indicationId, p.requestId), Requesting)]
    ensures IntroduceBoth(cfg, replies, j, i)
    ensures t.server.Running? && cfg.peers[j].id in t.server.table.idInfo && cfg.peers[j].id !in t.server.pending
    ensures AddressText(cfg.peers[i].address) in t.server.table.infoId
  {
    hide EncodeMessage, Encode, BitStrings.Pow2, IsAddressValid, Leads, Inv, AddressText, ServerOk,
         WellFormed, IntroduceBoth, ServerRuns.AnswersBoth, Started, NewClient, Deliver, Told;
    DistinctIds(cfg, i, j);
    InvCounts(cfg, s);
    var s2 := SecondRegisters(cfg, s, s0, j);
    t, replies := Ask(cfg, s0, s2, j);
    InvCounts(cfg, s2);
    AnswersBothIntroduce(cfg, s2, j, i, replies);
    ToldStays(cfg, s2, t, j);
  }

  lemma DistinctIds(cfg: Config, i: nat, j: nat)
    requires WellFormed(cfg) && i < |cfg.peers| && j < |cfg.peers| && i != j
    ensures cfg.peers[i].id != cfg.peers[j].id
  {
  }

  /** Both clients receive their introductions. */
  lemma BothConnect(cfg: Config, s0: System, s: System, i: nat, j: nat, replies: seq<Reply>) returns (t: System)
    requires WellFormed(cfg) && Inv(cfg, s) && Leads(cfg, s0, s)
    requires |s.nodes| == |cfg.peers| && i < |cfg.peers| && j < |cfg.peers| && i != j
    requires IntroduceBoth(cfg, replies, j, i) && Deliver(cfg, replies) <= s.net
    requires var p := cfg.peers[i];
             s.nodes[i].client == Started(NewClient(p.id, p.dest), p.indicationId, p.requestId)
    requires var p := cfg.peers[j];
             s.nodes[j].client == Started(NewClient(p.id, p.dest), p.indicationId, p.requestId)
    ensures Leads(cfg, s0, t) && Inv(cfg, t) && t.server == s.server && t.net == s.net && |t.nodes| == |cfg.peers|
    ensures Connected(cfg, t, i, j) && Connected(cfg, t, j, i)
  {
    hide EncodeMessage, Encode, BitStrings.Pow2, IsAddressValid, Leads, Inv, AddressText, Received, Started,
         DecodeMessage;
    var dj := Datagram(cfg.server, replies[0].to, replies[0].data);
    var di := Datagram(cfg.server, replies[1].to, replies[1].data);
    assert dj in Deliver(cfg, replies) && di in Deliver(cfg, replies);
    Introduced(cfg.peers[j], dj.data, cfg.peers[i].address);
    Introduced(cfg.peers[i], di.data, cfg.peers[j].address);
    var s1 := Next(cfg, s, ClientReceives(j, dj));
    LeadsOn(cfg, s0, s, ClientReceives(j, dj));
    NextKeepsInv(cfg, s, ClientReceives(j, dj));
    t := Next(cfg, s1, ClientReceives(i, di));
    LeadsOn(cfg, s0, s1, ClientReceives(i, di));
    NextKeepsInv(cfg, s1, ClientReceives(i, di));
  }

  lemma LeadsThrough(cfg: Config, s: System, h: System, t: System)
    requires Leads(cfg, s, h) && Leads(cfg, h, t)
    ensures Leads(cfg, s, t)
  {
    hide Next, Enabled;
    var first :| Valid(cfg, s, first) && Run(cfg, s, first) == h;
    var second :| Valid(cfg, h, second) && Run(cfg, h, second) == t;
    RunInTwoParts(cfg, s, first, second);
  }

  lemma StartedWaits(p: Peer)
    ensures var c := Started(NewClient(p.id, p.dest), p.indicationId, p.requestId);
            c.state == StunServerWait && c.receiving
  {
  }

  /** From any state in which neither has started, two clients that want each other can get
      connected, each to the other's address: through a state in which both are told their own
      addresses, which does not disturb them. A further copy of the first one's request, which
      is still about, then ends the server. */
  lemma MutualPeersCanConnect(cfg: Config, s: System, i: nat, j: nat) returns (h: System, t: System, u: System)
    requires WellFormed(cfg) && Inv(cfg, s) && AboutToMeet(cfg, s, i, j)
    ensures Leads(cfg, s, h) && HearsUnharmed(cfg, h, i) && HearsUnharmed(cfg, h, j) && Leads(cfg, h, t)
    ensures Leads(cfg, s, t) && |t.nodes| == |cfg.peers| && t.server.Running?
    ensures Connected(cfg, t, i, j) && Connected(cfg, t, j, i)
    ensures EncodeMessage(RequestOf(cfg.peers[i])).Some?
    ensures Enabled(cfg, t, RequestArrives(cfg, i)) && u == Next(cfg, t, RequestArrives(cfg, i)) && u.server.Crashed?
  {
    hide EncodeMessage, Encode, BitStrings.Pow2, IsAddressValid, Leads, Inv, AddressText, ServerOk,
         WellFormed, IntroduceBoth, Started, NewClient, Deliver, GetPid, Told, HearsUnharmed;
    InvCounts(cfg, s);
    var s1 := FirstAsks(cfg, s, i, j);
    var replies;
    h, replies := SecondAsks(cfg, s1, s, i, j);
    ToldStays(cfg, s1, h, i);
    StartedWaits(cfg.peers[i]);
    StartedWaits(cfg.peers[j]);
    TellingIsHarmless(cfg, h, i);
    TellingIsHarmless(cfg, h, j);
    LeadsNowhere(cfg, h);
    t := BothConnect(cfg, h, h, i, j, replies);
    LeadsThrough(cfg, s, h, t);
    InvCounts(cfg, t);
    FirstIsKnown(t.server.table, cfg.peers[i].address);
    RegisteredAs(cfg, t, i);
    LeadsNowhere(cfg, t);
    var more;
    u, more := Ask(cfg, t, t, i);
  }

  lemma FirstIsKnown(t: Table, a: Address)
    requires AddressText(a) in t.infoId
    ensures GetPid(t, a).Some?
  {
  }

  /** Client `j` is registered and its request sent, but the request has not arrived. */
  predicate Overtaken(cfg: Config, s: System, j: nat)
    requires j < |cfg.peers| && EncodeMessage(RequestOf(cfg.peers[j])).Some?
  {
    && s.server.Running? && cfg.peers[j].id in s.server.table.idInfo && cfg.peers[j].id !in s.server.pending
    && RequestDatagram(cfg, j) in s.net
  }

  /** When a request arrives after its destination registered and before the request of the
      destination does, the server ends. */
  lemma OvertakingRequestEndsServer(cfg: Config, s: System, i: nat, j: nat) returns (t: System, u: System)
    requires WellFormed(cfg) && Inv(cfg, s) && AboutToMeet(cfg, s, i, j)
    ensures EncodeMessage(RequestOf(cfg.peers[i])).Some? && EncodeMessage(RequestOf(cfg.peers[j])).Some?
    ensures Leads(cfg, s, t) && Overtaken(cfg, t, j)
    ensures Enabled(cfg, t, RequestArrives(cfg, i)) && u == Next(cfg, t, RequestArrives(cfg, i)) && u.server.Crashed?
  {
    hide EncodeMessage, DecodeMessage, Encode, BitStrings.Pow2, IsAddressValid, Leads, Inv, AddressText;
    InvCounts(cfg, s);
    NotPending(s.server, cfg.peers[j].id);
    LeadsNowhere(cfg, s);
    var s1 := Announce(cfg, s, s, i);
    var s2 := Announce(cfg, s, s1, j);
    var s3 := Register(cfg, s, s2, j);
    t := Register(cfg, s, s3, i);
    var replies;
    u, replies := Ask(cfg, s, t, i);
  }

  lemma NotPending(s: Server, pid: PeerId)
    requires s.Running? && ServerRuns.TablesOk(s) && pid !in s.table.idInfo
    ensures pid !in s.pending
  {
  }
}
