/**
  Any number of clients, the server and a network that may lose, duplicate, reorder and
  delay: everything ever sent stays receivable any number of times. Datagrams are bytes;
  every program decodes what it receives.
 */
module Rendezvous {
  import opened Wrappers
  import opened Utf8
  import opened Addresses
  import opened MatchTables
  import opened StunCodec
  import opened StunServers
  import opened StunClients
  import BitStrings
  import ServerRuns

  const BUFFER_SIZE := 2048

  /** A client's own data: ids, public address and the transaction ids it draws. */
  datatype Peer = Peer(id: PeerId, dest: PeerId, address: Address, indicationId: nat, requestId: nat)

  datatype Config = Config(peers: seq<Peer>, server: Address)

  /** Control point of a client's send thread. */
  datatype SendPoint = Unstarted | Generated | Registering | Requesting

  datatype Node = Node(client: Client, point: SendPoint)

  datatype Datagram = Datagram(src: Address, dst: Address, data: bytes)

  datatype System = System(server: Server, nodes: seq<Node>, net: set<Datagram>)

  datatype Action =
    | Start(i: nat)
    | SendIndication(i: nat)
    | SendRequest(i: nat)
    | ServerReceives(d: Datagram, draw: nat)
    | ClientReceives(i: nat, d: Datagram)
    | Chat(i: nat, text: string)

  /** `recvfrom(BUFFER_SIZE)` keeps the first 2048 bytes. */
  function Cut(data: bytes): bytes {
    if |data| <= BUFFER_SIZE then data else data[..BUFFER_SIZE]
  }

  /** What the deployment provides: distinct non-empty ids that fit a datagram, one valid
      address a client, and unique transaction ids. */
  ghost predicate WellFormed(cfg: Config) {
    && (forall i :: 0 <= i < |cfg.peers| ==>
          var p := cfg.peers[i];
          && p.id != "" && |Encode(p.id)| <= BUFFER_SIZE - 20 && |Encode(p.dest)| <= BUFFER_SIZE - 20
          && IsAddressValid(p.address) && p.address != cfg.server
          && p.indicationId < BitStrings.Pow2(96) && p.requestId < BitStrings.Pow2(96))
    && (forall i, j :: 0 <= i < j < |cfg.peers| ==>
          && cfg.peers[i].id != cfg.peers[j].id
          && cfg.peers[i].address != cfg.peers[j].address
          && cfg.peers[i].requestId != cfg.peers[j].requestId)
  }

  function Initial(cfg: Config): System {
    System(INITIAL_SERVER,
           seq(|cfg.peers|, i requires 0 <= i < |cfg.peers| =>
             Node(NewClient(cfg.peers[i].id, cfg.peers[i].dest), Unstarted)),
           {})
  }

  function IndicationOf(p: Peer): Message {
    IdIndication(p.id, p.indicationId)
  }

  function RequestOf(p: Peer): Message {
    PeerRequest(p.dest, p.requestId)
  }

  /** A success response carrying the transaction id of some client's request. */
  predicate Answers(cfg: Config, data: bytes, i: nat)
    requires i < |cfg.peers|
  {
    match DecodeMessage(data)
    case None => false
    case Some(m) => m.messageType == Some(SuccessResponse) && m.transactionId == Some(cfg.peers[i].requestId)
  }

  predicate AnswersSomeone(cfg: Config, data: bytes) {
    exists i :: 0 <= i < |cfg.peers| && Answers(cfg, data, i)
  }

  predicate Enabled(cfg: Config, s: System, a: Action) {
    && |s.nodes| == |cfg.peers|
    && match a
       case Start(i) => i < |s.nodes| && s.nodes[i].point == Unstarted
       case SendIndication(i) => i < |s.nodes| && s.nodes[i].point == Generated
                                 && EncodeMessage(IndicationOf(cfg.peers[i])).Some?
       case SendRequest(i) => i < |s.nodes| && s.nodes[i].point == Registering
                              && EncodeMessage(RequestOf(cfg.peers[i])).Some?
       case ServerReceives(d, draw) =>
         d in s.net && d.dst == cfg.server && s.server.Running? && draw < BitStrings.Pow2(96)
       case ClientReceives(i, d) => i < |s.nodes| && d in s.net && d.dst == cfg.peers[i].address
       case Chat(i, text) =>
         // Unique ids: typed text is not a success response with a live transaction id.
         && i < |s.nodes| && s.nodes[i].point == Requesting
         && s.nodes[i].client.state == PeerConnectionEstablished
         && s.nodes[i].client.destination.Some? && s.nodes[i].client.destination.value.1 >= 0
         && !AnswersSomeone(cfg, Cut(Encode(text)))
  }

  function Deliver(cfg: Config, replies: seq<Reply>): set<Datagram> {
    set r | r in replies :: Datagram(cfg.server, r.to, r.data)
  }

  function Next(cfg: Config, s: System, a: Action): System
    requires Enabled(cfg, s, a)
  {
    match a
    case Start(i) =>
      var p := cfg.peers[i];
      s.(nodes := s.nodes[i := Node(Started(s.nodes[i].client, p.indicationId, p.requestId), Generated)])
    case SendIndication(i) =>
      s.(nodes := s.nodes[i := s.nodes[i].(point := Registering)],
         net := s.net + {Datagram(cfg.peers[i].address, cfg.server, EncodeMessage(IndicationOf(cfg.peers[i])).value)})
    case SendRequest(i) =>
      s.(nodes := s.nodes[i := s.nodes[i].(point := Requesting)],
         net := s.net + {Datagram(cfg.peers[i].address, cfg.server, EncodeMessage(RequestOf(cfg.peers[i])).value)})
    case ServerReceives(d, draw) =>
      var (server, replies) := HandleDatagram(s.server, d.src, Cut(d.data), draw);
      s.(server := server, net := s.net + Deliver(cfg, replies))
    case ClientReceives(i, d) =>
      s.(nodes := s.nodes[i := s.nodes[i].(client := Received(s.nodes[i].client, Cut(d.data)))])
    case Chat(i, text) =>
      var (ip, port) := s.nodes[i].client.destination.value;
      s.(net := s.net + {Datagram(cfg.peers[i].address, Address(ip, port), Encode(text))})
  }

  predicate Valid(cfg: Config, s: System, schedule: seq<Action>)
    decreases |schedule|
  {
    schedule == [] || (Enabled(cfg, s, schedule[0]) && Valid(cfg, Next(cfg, s, schedule[0]), schedule[1..]))
  }

  function Run(cfg: Config, s: System, schedule: seq<Action>): System
    requires Valid(cfg, s, schedule)
    decreases |schedule|
  {
    if schedule == [] then s else Run(cfg, Next(cfg, s, schedule[0]), schedule[1..])
  }

  // The invariant.

  /** Clients `i` and `j` name each other as destination and both have asked. */
  predicate Mutual(cfg: Config, s: System, i: nat, j: nat)
    requires |s.nodes| == |cfg.peers|
  {
    && i < |cfg.peers| && j < |cfg.peers| && i != j
    && cfg.peers[i].dest == cfg.peers[j].id && cfg.peers[j].dest == cfg.peers[i].id
    && s.nodes[i].point == Requesting && s.nodes[j].point == Requesting
  }

  /** The address of client `j` as a client stores it. */
  function AddressOf(cfg: Config, j: nat): Option<(string, int)>
    requires j < |cfg.peers|
  {
    Some((cfg.peers[j].address.ip, cfg.peers[j].address.port as int))
  }

  /** The response that introduces client `j` to client `i`. */
  function Introduction(cfg: Config, i: nat, j: nat): Message
    requires i < |cfg.peers| && j < |cfg.peers|
  {
    Message(Some(SuccessResponse), Some(cfg.peers[i].requestId), AddressText(cfg.peers[j].address))
  }

  ghost predicate NodeOk(cfg: Config, s: System, i: nat)
    requires |s.nodes| == |cfg.peers| && i < |cfg.peers|
  {
    var p, n := cfg.peers[i], s.nodes[i];
    && (n.point != Unstarted ==> n.client.transactions == map[p.indicationId := Indication][p.requestId := Request])
    && (n.point == Unstarted ==> n.client == NewClient(p.id, p.dest))
    && (n.client.state == PeerConnectionEstablished ==>
          exists j: nat :: Mutual(cfg, s, i, j)
                      && n.client.destination == AddressOf(cfg, j))
  }

  predicate EntryOf(cfg: Config, pid: PeerId, info: string, i: nat) {
    i < |cfg.peers| && cfg.peers[i].id == pid && AddressText(cfg.peers[i].address) == info
  }

  predicate PendingOf(cfg: Config, s: System, pid: PeerId, p: Pending, i: nat)
    requires |s.nodes| == |cfg.peers|
  {
    && i < |cfg.peers| && cfg.peers[i].id == pid
    && p == Pending(Some(cfg.peers[i].requestId), cfg.peers[i].dest)
    && s.nodes[i].point == Requesting
  }

  ghost predicate TableOf(cfg: Config, t: Table) {
    && (forall pid :: pid in t.idInfo ==> exists i :: EntryOf(cfg, pid, t.idInfo[pid], i))
    && (forall info :: info in t.infoId ==> exists i :: EntryOf(cfg, t.infoId[info], info, i))
  }

  ghost predicate ServerOk(cfg: Config, s: System)
    requires |s.nodes| == |cfg.peers|
  {
    s.server.Running? ==>
      && ServerRuns.TablesOk(s.server)
      && TableOf(cfg, s.server.table)
      && (forall pid :: pid in s.server.pending ==> exists i :: PendingOf(cfg, s, pid, s.server.pending[pid], i))
  }

  /** What client `i` sent to the server. */
  predicate FromClient(cfg: Config, s: System, d: Datagram, i: nat)
    requires |s.nodes| == |cfg.peers|
  {
    && i < |cfg.peers| && d.src == cfg.peers[i].address && d.dst == cfg.server
    && (Some(d.data) == EncodeMessage(IndicationOf(cfg.peers[i]))
        || (Some(d.data) == EncodeMessage(RequestOf(cfg.peers[i])) && s.nodes[i].point == Requesting))
  }

  /** A response to client `i` that gives the address of client `j`, who wants `i` in return. */
  predicate Introduces(cfg: Config, s: System, d: Datagram, i: nat, j: nat)
    requires |s.nodes| == |cfg.peers|
  {
    && Mutual(cfg, s, i, j)
    && DecodeMessage(Cut(d.data))
       == Some(Introduction(cfg, i, j))
  }

  ghost predicate DatagramOk(cfg: Config, s: System, d: Datagram)
    requires |s.nodes| == |cfg.peers|
  {
    || (exists i :: FromClient(cfg, s, d, i))
    || (d.dst != cfg.server && exists i, j :: Introduces(cfg, s, d, i, j))
    || (d.dst != cfg.server && !AnswersSomeone(cfg, Cut(d.data)))
  }

  ghost predicate Inv(cfg: Config, s: System) {
    && |s.nodes| == |cfg.peers|
    && (forall i :: 0 <= i < |s.nodes| ==> NodeOk(cfg, s, i))
    && ServerOk(cfg, s)
    && (forall d :: d in s.net ==> DatagramOk(cfg, s, d))
  }

  // Facts about the messages.

  /** A client's messages can be encoded, reach the server whole and decode to themselves. */
  lemma ClientMessage(m: Message)
    requires m.messageType.Some? && m.transactionId.Some? && m.transactionId.value < BitStrings.Pow2(96)
    requires |Encode(m.payload)| <= BUFFER_SIZE - 20
    ensures EncodeMessage(m).Some? && DecodeMessage(Cut(EncodeMessage(m).value)) == Some(m)
  {
    hide Encode, DecodeMessage, BitStrings.Pow2, HeaderBits;
    EncodeLength(m.payload);
    HeaderFields(m);
    DecodeOfEncoded(m);
    assert |EncodeMessage(m).value| <= BUFFER_SIZE;
  }

  /** So do the server's short ones. */
  lemma ServerMessage(m: Message)
    requires m.messageType.Some? && m.transactionId.Some? && m.transactionId.value < BitStrings.Pow2(96)
    requires |m.payload| <= 100
    ensures EncodeMessage(m).Some? && DecodeMessage(Cut(EncodeMessage(m).value)) == Some(m)
  {
    hide Encode, DecodeMessage, EncodeMessage, BitStrings.Pow2;
    EncodeLength(m.payload);
    ClientMessage(m);
  }

  // Points only advance, so what was true of them stays true.

  predicate Advanced(s: System, t: System) {
    && |s.nodes| == |t.nodes|
    && forall i :: 0 <= i < |s.nodes| && s.nodes[i].point == Requesting ==> t.nodes[i].point == Requesting
  }

  lemma NodeOkAdvances(cfg: Config, s: System, t: System, i: nat)
    requires |s.nodes| == |cfg.peers| && i < |cfg.peers| && Advanced(s, t)
    requires NodeOk(cfg, s, i)
    requires t.nodes[i].client == s.nodes[i].client
    requires s.nodes[i].point == Unstarted <==> t.nodes[i].point == Unstarted
    ensures NodeOk(cfg, t, i)
  {
    if t.nodes[i].client.state == PeerConnectionEstablished {
      var j: nat :| Mutual(cfg, s, i, j)
                    && s.nodes[i].client.destination == AddressOf(cfg, j);
      assert Mutual(cfg, t, i, j);
    }
  }

  lemma DatagramOkAdvances(cfg: Config, s: System, t: System, d: Datagram)
    requires |s.nodes| == |cfg.peers| && Advanced(s, t) && DatagramOk(cfg, s, d)
    ensures DatagramOk(cfg, t, d)
  {
    hide EncodeMessage, DecodeMessage, AnswersSomeone;
    if i: nat :| FromClient(cfg, s, d, i) {
      assert FromClient(cfg, t, d, i);
    } else if i: nat, j: nat :| d.dst != cfg.server && Introduces(cfg, s, d, i, j) {
      assert Introduces(cfg, t, d, i, j);
    }
  }

  lemma ServerOkAdvances(cfg: Config, s: System, t: System)
    requires |s.nodes| == |cfg.peers| && Advanced(s, t) && ServerOk(cfg, s) && t.server == s.server
    ensures ServerOk(cfg, t)
  {
    hide ServerRuns.TablesOk, EntryOf;
    if s.server.Running? {
      forall pid | pid in t.server.pending ensures exists i :: PendingOf(cfg, t, pid, t.server.pending[pid], i) {
        var i: nat :| PendingOf(cfg, s, pid, s.server.pending[pid], i);
        assert PendingOf(cfg, t, pid, t.server.pending[pid], i);
      }
    }
  }

  /** A step of one client that adds well-behaved datagrams. */
  lemma ClientStepKeepsInv(cfg: Config, s: System, t: System, i: nat)
    requires Inv(cfg, s) && Advanced(s, t) && i < |cfg.peers|
    requires t.server == s.server && t.nodes == s.nodes[i := t.nodes[i]]
    requires NodeOk(cfg, t, i)
    requires forall d :: d in t.net && d !in s.net ==> DatagramOk(cfg, t, d)
    ensures Inv(cfg, t)
  {
    hide NodeOk, ServerOk, DatagramOk, Advanced;
    assert |t.nodes| == |s.nodes|;
    ServerOkAdvances(cfg, s, t);
    forall k | 0 <= k < |t.nodes| ensures NodeOk(cfg, t, k) {
      if k != i {
        NodeOkAdvances(cfg, s, t, k);
      }
    }
    forall d | d in t.net ensures DatagramOk(cfg, t, d) {
      if d in s.net {
        DatagramOkAdvances(cfg, s, t, d);
      }
    }
  }

  lemma SendKeepsInv(cfg: Config, s: System, a: Action)
    requires Inv(cfg, s) && Enabled(cfg, s, a)
    requires a.Start? || a.SendIndication? || a.SendRequest?
    ensures Inv(cfg, Next(cfg, s, a))
  {
    hide EncodeMessage, DecodeMessage, ServerOk, BitStrings.Pow2;
    var t := Next(cfg, s, a);
    var i := a.i;
    if a.Start? {
      assert NodeOk(cfg, s, i);
      assert t.nodes[i].client.state == StunServerWait;
    } else {
      NodeOkAdvances(cfg, s, t, i);
      forall d | d in t.net && d !in s.net ensures DatagramOk(cfg, t, d) {
        assert FromClient(cfg, t, d, i);
      }
    }
    ClientStepKeepsInv(cfg, s, t, i);
  }

  lemma ChatKeepsInv(cfg: Config, s: System, i: nat, text: string)
    requires WellFormed(cfg) && Inv(cfg, s) && Enabled(cfg, s, Chat(i, text))
    ensures Inv(cfg, Next(cfg, s, Chat(i, text)))
  {
    hide EncodeMessage, DecodeMessage, ServerOk, BitStrings.Pow2, Encode, AnswersSomeone, IsAddressValid;
    var t := Next(cfg, s, Chat(i, text));
    assert NodeOk(cfg, s, i);
    var j: nat :| Mutual(cfg, s, i, j)
                  && s.nodes[i].client.destination == AddressOf(cfg, j);
    assert t.nodes[i] == s.nodes[i];
    NodeOkAdvances(cfg, s, t, i);
    ClientStepKeepsInv(cfg, s, t, i);
  }

  /** Only a response meant for client `i` answers its request. */
  lemma OnlyIntroductionsAnswer(cfg: Config, s: System, d: Datagram, i: nat)
    requires WellFormed(cfg) && Inv(cfg, s) && i < |cfg.peers|
    requires d in s.net && d.dst == cfg.peers[i].address && Answers(cfg, Cut(d.data), i)
    ensures exists j :: Introduces(cfg, s, d, i, j)
  {
    hide EncodeMessage, DecodeMessage, ServerOk, BitStrings.Pow2, Encode, IsAddressValid, NodeOk;
    assert DatagramOk(cfg, s, d);
    assert AnswersSomeone(cfg, Cut(d.data));
    var k: nat, j: nat :| Introduces(cfg, s, d, k, j);
    assert cfg.peers[k].requestId == cfg.peers[i].requestId;
    assert k == i;
  }

  lemma ClientReceivesKeepsInv(cfg: Config, s: System, i: nat, d: Datagram)
    requires WellFormed(cfg) && Inv(cfg, s) && Enabled(cfg, s, ClientReceives(i, d))
    ensures Inv(cfg, Next(cfg, s, ClientReceives(i, d)))
  {
    hide EncodeMessage, DecodeMessage, Decode, ServerOk, BitStrings.Pow2, Encode, IsAddressValid,
         ParseAddress, AddressText, DatagramOk;
    var t := Next(cfg, s, ClientReceives(i, d));
    var before, after := s.nodes[i].client, t.nodes[i].client;
    assert NodeOk(cfg, s, i);
    if before.state == StunServerWait && after.state == PeerConnectionEstablished {
      assert Answers(cfg, Cut(d.data), i);
      OnlyIntroductionsAnswer(cfg, s, d, i);
      var j: nat :| Introduces(cfg, s, d, i, j);
      AddressRoundTrip(cfg.peers[j].address);
      assert Mutual(cfg, t, i, j);
    } else if after.state == PeerConnectionEstablished {
      var j: nat :| Mutual(cfg, s, i, j)
                    && before.destination == AddressOf(cfg, j);
      assert Mutual(cfg, t, i, j);
    }
    ClientStepKeepsInv(cfg, s, t, i);
  }

  // The server's step.

  /** A registered text is the address of exactly one client. */
  lemma EntryIs(cfg: Config, pid: PeerId, i: nat, k: nat)
    requires WellFormed(cfg) && i < |cfg.peers|
    requires EntryOf(cfg, pid, AddressText(cfg.peers[i].address), k)
    ensures k == i
  {
    hide AddressText, IsAddressValid, BitStrings.Pow2, Encode;
    AddressTextDetermines(cfg.peers[i].address, cfg.peers[k].address);
  }

  lemma IndicationKeepsTable(cfg: Config, t: Table, i: nat)
    requires TableOf(cfg, t) && i < |cfg.peers|
    ensures TableOf(cfg, AddPeer(t, cfg.peers[i].id, cfg.peers[i].address))
  {
    hide AddressText;
    var p := cfg.peers[i];
    var t' := AddPeer(t, p.id, p.address);
    assert EntryOf(cfg, p.id, AddressText(p.address), i);
    forall info | info in t'.infoId ensures exists k :: EntryOf(cfg, t'.infoId[info], info, k) {
      if info != AddressText(p.address) {
        assert t'.infoId[info] == t.infoId[info];
      }
    }
  }

  lemma IndicationKeepsServerOk(cfg: Config, s: System, i: nat)
    requires WellFormed(cfg) && |s.nodes| == |cfg.peers| && s.server.Running? && ServerOk(cfg, s) && i < |cfg.peers|
    ensures var p := cfg.peers[i];
            ServerOk(cfg, s.(server := s.server.(table := AddPeer(s.server.table, p.id, p.address))))
  {
    hide AddressText, IsAddressValid, BitStrings.Pow2, Encode, Closed, OfValidAddresses, TableOf;
    var p := cfg.peers[i];
    AddKeepsClosed(s.server.table, p.id, p.address);
    AddKeepsValid(s.server.table, p.id, p.address);
    IndicationKeepsTable(cfg, s.server.table, i);
    var t := s.(server := s.server.(table := AddPeer(s.server.table, p.id, p.address)));
    forall pid | pid in t.server.pending ensures exists k :: PendingOf(cfg, t, pid, t.server.pending[pid], k) {
      var k: nat :| PendingOf(cfg, s, pid, s.server.pending[pid], k);
      assert PendingOf(cfg, t, pid, t.server.pending[pid], k);
    }
  }

  lemma RequestKeepsServerOk(cfg: Config, s: System, i: nat, r: ServerRuns.Accepted)
    requires WellFormed(cfg) && |s.nodes| == |cfg.peers| && s.server.Running? && ServerOk(cfg, s) && i < |cfg.peers|
    requires s.nodes[i].point == Requesting && ServerRuns.Survives(s.server, r)
    requires r == ServerRuns.Accepted(cfg.peers[i].id, Some(cfg.peers[i].requestId), cfg.peers[i].dest)
    requires r.pid in s.server.table.idInfo
    ensures ServerOk(cfg, s.(server := s.server.(pending := ServerRuns.PendingAfter(s.server, r))))
  {
    hide AddressText, IsAddressValid, BitStrings.Pow2, Encode, Closed, OfValidAddresses, TableOf,
         ServerRuns.TablesOk;
    ServerRuns.RequestKeepsTables(s.server, r);
    var t := s.(server := s.server.(pending := ServerRuns.PendingAfter(s.server, r)));
    forall pid | pid in t.server.pending ensures exists k :: PendingOf(cfg, t, pid, t.server.pending[pid], k) {
      if pid in s.server.pending && t.server.pending[pid] == s.server.pending[pid] {
        var k: nat :| PendingOf(cfg, s, pid, s.server.pending[pid], k);
        assert PendingOf(cfg, t, pid, t.server.pending[pid], k);
      } else {
        assert PendingOf(cfg, t, pid, t.server.pending[pid], i);
      }
    }
  }

  /** A matched request pairs the client with the one it asked for, which asked for it. */
  lemma AnswersIntroduce(cfg: Config, s: System, i: nat, replies: seq<Reply>)
    requires WellFormed(cfg) && |s.nodes| == |cfg.peers| && s.server.Running? && ServerOk(cfg, s) && i < |cfg.peers|
    requires s.nodes[i].point == Requesting
    requires ServerRuns.AnswersBoth(s.server, cfg.peers[i].address, RequestOf(cfg.peers[i]), replies)
    requires cfg.peers[i].dest in s.server.table.idInfo
    requires s.server.pending[cfg.peers[i].dest].dest == cfg.peers[i].id
    requires cfg.peers[i].dest != cfg.peers[i].id
    ensures exists j: nat ::
              && Mutual(cfg, s, i, j)
              && replies[0].to == cfg.peers[i].address && replies[1].to == cfg.peers[j].address
              && DecodeMessage(replies[0].data)
                 == Some(Introduction(cfg, i, j))
              && DecodeMessage(replies[1].data)
                 == Some(Introduction(cfg, j, i))
  {
    hide AddressText, IsAddressValid, BitStrings.Pow2, Encode, DecodeMessage, ServerRuns.TablesOk,
         ParseAddress;
    var dest := cfg.peers[i].dest;
    var j: nat :| PendingOf(cfg, s, dest, s.server.pending[dest], j);
    var k: nat :| EntryOf(cfg, dest, s.server.table.idInfo[dest], k);
    assert k == j;
    AddressRoundTrip(cfg.peers[j].address);
    assert Mutual(cfg, s, i, j);
  }

  lemma RepliesIntroduce(cfg: Config, s: System, i: nat, replies: seq<Reply>)
    requires WellFormed(cfg) && |s.nodes| == |cfg.peers| && s.server.Running? && ServerOk(cfg, s) && i < |cfg.peers|
    requires s.nodes[i].point == Requesting
    requires ServerRuns.AnswersBoth(s.server, cfg.peers[i].address, RequestOf(cfg.peers[i]), replies)
    requires cfg.peers[i].dest in s.server.table.idInfo
    requires s.server.pending[cfg.peers[i].dest].dest == cfg.peers[i].id
    requires cfg.peers[i].dest != cfg.peers[i].id
    ensures forall d :: d in Deliver(cfg, replies) ==> DatagramOk(cfg, s, d)
  {
    hide AddressText, IsAddressValid, BitStrings.Pow2, Encode, DecodeMessage, ServerOk, EncodeMessage;
    AnswersIntroduce(cfg, s, i, replies);
    var j: nat :| && Mutual(cfg, s, i, j)
                  && replies[0].to == cfg.peers[i].address && replies[1].to == cfg.peers[j].address
                  && DecodeMessage(replies[0].data)
                     == Some(Introduction(cfg, i, j))
                  && DecodeMessage(replies[1].data)
                     == Some(Introduction(cfg, j, i));
    var d0 := Datagram(cfg.server, replies[0].to, replies[0].data);
    var d1 := Datagram(cfg.server, replies[1].to, replies[1].data);
    assert Introduces(cfg, s, d0, i, j);
    assert Introduces(cfg, s, d1, j, i);
  }

  lemma IndicationIsNoAnswer(cfg: Config, draw: nat, a: Address)
    requires IsAddressValid(a) && draw < BitStrings.Pow2(96)
    ensures IndicationBytes(draw, a).Some?
    ensures !AnswersSomeone(cfg, Cut(IndicationBytes(draw, a).value))
  {
    hide PublicInfoText, IsAddressValid, DecodeMessage, EncodeMessage, BitStrings.Pow2, Encode;
    ServerRuns.AddressTextIsShort(a);
    ServerMessage(Message(Some(Indication), Some(draw), PublicInfoText(a)));
  }

  /** What the server does with a client's registration. */
  lemma HandleIndicationOf(s: Server, p: Peer, draw: nat)
    requires s.Running? && p.id != "" && IsAddressValid(p.address) && draw < BitStrings.Pow2(96)
    ensures HandleMessage(s, p.address, IndicationOf(p), draw)
            == (s.(table := AddPeer(s.table, p.id, p.address)),
                [Reply(p.address, ServerIndication(p, draw))])
  {
    hide PublicInfoText, IsAddressValid, DecodeMessage, EncodeMessage, BitStrings.Pow2, Encode,
         IndicationBytes, AddPeer;
    ServerRuns.IndicationEncodable(draw, p.address);
  }

  function ServerIndication(p: Peer, draw: nat): bytes
    requires IsAddressValid(p.address) && draw < BitStrings.Pow2(96)
  {
    ServerRuns.IndicationEncodable(draw, p.address);
    IndicationBytes(draw, p.address).value
  }

  lemma RegistrationReceived(cfg: Config, s: System, i: nat, draw: nat)
    requires WellFormed(cfg) && Inv(cfg, s) && s.server.Running? && i < |cfg.peers| && draw < BitStrings.Pow2(96)
    ensures var (server, replies) := HandleMessage(s.server, cfg.peers[i].address, IndicationOf(cfg.peers[i]), draw);
            && ServerOk(cfg, s.(server := server))
            && forall d :: d in Deliver(cfg, replies) ==> DatagramOk(cfg, s, d)
  {
    hide IsAddressValid, DecodeMessage, EncodeMessage, BitStrings.Pow2, Encode, HandleMessage, ServerOk,
         AddPeer, AnswersSomeone, IndicationBytes;
    var p := cfg.peers[i];
    HandleIndicationOf(s.server, p, draw);
    IndicationKeepsServerOk(cfg, s, i);
    IndicationIsNoAnswer(cfg, draw, p.address);
  }

  lemma RequestReceived(cfg: Config, s: System, i: nat, draw: nat)
    requires WellFormed(cfg) && Inv(cfg, s) && s.server.Running? && i < |cfg.peers|
    requires s.nodes[i].point == Requesting
    ensures var (server, replies) := HandleMessage(s.server, cfg.peers[i].address, RequestOf(cfg.peers[i]), draw);
            && ServerOk(cfg, s.(server := server))
            && forall d :: d in Deliver(cfg, replies) ==> DatagramOk(cfg, s, d)
  {
    hide IsAddressValid, DecodeMessage, EncodeMessage, BitStrings.Pow2, Encode, HandleMessage, TableOf,
         AddressText, ServerRuns.TablesOk, ServerRuns.AnswersBoth, ServerRuns.PendingAfter, HandleRequest,
         DatagramOk;
    var p := cfg.peers[i];
    var m := RequestOf(p);
    var (server, replies) := HandleMessage(s.server, p.address, m, draw);
    RegisteredAs(cfg, s, i);
    if GetPid(s.server.table, p.address) == None {
      IgnoredRequest(s.server, p.address, m, draw);
    } else {
      ServerRuns.MessageEffect(s.server, p.address, m, draw);
      ServerRuns.AcceptedRequestOutcome(s.server, p.address, m, draw);
      var r := ServerRuns.Accepted(p.id, Some(p.requestId), p.dest);
      if server.Running? {
        RequestKeepsServerOk(cfg, s, i, r);
        if replies != [] {
          RepliesIntroduce(cfg, s, i, replies);
        }
      } else {
        assert replies == [];
      }
    }
  }

  /** A client's address is registered, if at all, with the client's own id. */
  lemma RegisteredAs(cfg: Config, s: System, i: nat)
    requires WellFormed(cfg) && |s.nodes| == |cfg.peers| && ServerOk(cfg, s) && s.server.Running? && i < |cfg.peers|
    ensures GetPid(s.server.table, cfg.peers[i].address).Some?
            ==> GetPid(s.server.table, cfg.peers[i].address).value == cfg.peers[i].id
                && cfg.peers[i].id in s.server.table.idInfo
  {
    hide IsAddressValid, BitStrings.Pow2, Encode, AddressText, OfValidAddresses;
    var p := cfg.peers[i];
    if GetPid(s.server.table, p.address).Some? {
      var pid := GetPid(s.server.table, p.address).value;
      var k: nat :| EntryOf(cfg, pid, AddressText(p.address), k);
      EntryIs(cfg, pid, i, k);
    }
  }

  lemma IgnoredRequest(s: Server, from: Address, m: Message, draw: nat)
    requires s.Running? && m.messageType == Some(Request) && GetPid(s.table, from) == None
    ensures HandleMessage(s, from, m, draw) == (s, [])
  {
  }

  lemma ServerReceivesKeepsInv(cfg: Config, s: System, d: Datagram, draw: nat)
    requires WellFormed(cfg) && Inv(cfg, s) && Enabled(cfg, s, ServerReceives(d, draw))
    ensures Inv(cfg, Next(cfg, s, ServerReceives(d, draw)))
  {
    hide IsAddressValid, DecodeMessage, EncodeMessage, BitStrings.Pow2, Encode, HandleMessage, ServerOk,
         NodeOk, Cut, AnswersSomeone;
    var t := Next(cfg, s, ServerReceives(d, draw));
    assert DatagramOk(cfg, s, d);
    var i: nat :| FromClient(cfg, s, d, i);
    var p := cfg.peers[i];
    ClientMessage(IndicationOf(p));
    ClientMessage(RequestOf(p));
    if Some(d.data) == EncodeMessage(IndicationOf(p)) {
      RegistrationReceived(cfg, s, i, draw);
    } else {
      RequestReceived(cfg, s, i, draw);
    }
    ServerStepKeepsInv(cfg, s, t);
  }

  lemma ServerStepKeepsInv(cfg: Config, s: System, t: System)
    requires Inv(cfg, s) && t.nodes == s.nodes && ServerOk(cfg, s.(server := t.server))
    requires forall d :: d in t.net && d !in s.net ==> DatagramOk(cfg, s, d)
    ensures Inv(cfg, t)
  {
    hide NodeOk, DatagramOk, ServerOk;
    ServerOkAdvances(cfg, s.(server := t.server), t);
    forall i | 0 <= i < |t.nodes| ensures NodeOk(cfg, t, i) {
      NodeOkAdvances(cfg, s, t, i);
    }
    forall d | d in t.net ensures DatagramOk(cfg, t, d) {
      DatagramOkAdvances(cfg, s, t, d);
    }
  }

  lemma NextKeepsInv(cfg: Config, s: System, a: Action)
    requires WellFormed(cfg) && Inv(cfg, s) && Enabled(cfg, s, a)
    ensures Inv(cfg, Next(cfg, s, a))
  {
    hide WellFormed, Inv, Next, Enabled;
    match a
    case ServerReceives(d, draw) => ServerReceivesKeepsInv(cfg, s, d, draw);
    case ClientReceives(i, d) => ClientReceivesKeepsInv(cfg, s, i, d);
    case Chat(i, text) => ChatKeepsInv(cfg, s, i, text);
    case _ => SendKeepsInv(cfg, s, a);
  }

  lemma {:induction false} RunKeepsInv(cfg: Config, s: System, schedule: seq<Action>)
    requires WellFormed(cfg) && Inv(cfg, s) && Valid(cfg, s, schedule)
    ensures Inv(cfg, Run(cfg, s, schedule))
    decreases |schedule|
  {
    hide WellFormed, Inv, Next, Enabled;
    if schedule != [] {
      NextKeepsInv(cfg, s, schedule[0]);
      RunKeepsInv(cfg, Next(cfg, s, schedule[0]), schedule[1..]);
    }
  }

  lemma InitialInv(cfg: Config)
    ensures Inv(cfg, Initial(cfg))
  {
    ServerRuns.StartInv();
  }

  /** In every run, an established client talks to the address of the one client whose id is
      its destination, and that client has asked for it in return. */
  lemma EstablishedIsMutual(cfg: Config, schedule: seq<Action>, i: nat)
    requires WellFormed(cfg) && Valid(cfg, Initial(cfg), schedule) && i < |cfg.peers|
    ensures |Run(cfg, Initial(cfg), schedule).nodes| == |cfg.peers|
    ensures var s := Run(cfg, Initial(cfg), schedule);
            s.nodes[i].client.state == PeerConnectionEstablished ==>
              exists j: nat ::
                && Mutual(cfg, s, i, j)
                && s.nodes[i].client.destination
                   == AddressOf(cfg, j)
  {
    hide WellFormed, Next, Enabled, ServerOk, DatagramOk;
    InitialInv(cfg);
    RunKeepsInv(cfg, Initial(cfg), schedule);
    assert NodeOk(cfg, Run(cfg, Initial(cfg), schedule), i);
  }

  /** A client can type exactly when it is connected, any text that is not an answer to a request;
      it goes, as it was typed, from its own address to that of the one client it asked for,
      which asked for it, and changes nothing else. */
  lemma ChatGoesToPeer(cfg: Config, schedule: seq<Action>, i: nat, text: string)
    requires WellFormed(cfg) && Valid(cfg, Initial(cfg), schedule) && i < |cfg.peers|
    ensures |Run(cfg, Initial(cfg), schedule).nodes| == |cfg.peers|
    ensures var s := Run(cfg, Initial(cfg), schedule);
            Enabled(cfg, s, Chat(i, text))
            <==> s.nodes[i].client.state == PeerConnectionEstablished && !AnswersSomeone(cfg, Cut(Encode(text)))
    ensures var s := Run(cfg, Initial(cfg), schedule);
            Enabled(cfg, s, Chat(i, text)) ==>
              exists j: nat ::
                && Mutual(cfg, s, i, j)
                && Next(cfg, s, Chat(i, text))
                   == s.(net := s.net + {Datagram(cfg.peers[i].address, cfg.peers[j].address, Encode(text))})
  {
    hide WellFormed, Valid, Run, AnswersSomeone;
    EstablishedIsMutual(cfg, schedule, i);
  }

  lemma CutBehindHeader(header: bytes, first: bytes, rest: bytes)
    requires |header| == 20 && |first| == 2028
    ensures Cut(header + (first + rest)) == header + first
  {
    var data := header + (first + rest);
    assert data[..2048] == header + first;
    assert rest == [] ==> data == header + first;
  }

  /** The receive buffer holds 2048 bytes: of a message with a longer ASCII payload the first 2028
      characters arrive. */
  lemma LongPayloadIsCut(m: Message)
    requires Encodable(m) && IsAscii(m.payload) && |m.payload| > 2028
    ensures EncodeMessage(m).Some?
    ensures DecodeMessage(Cut(EncodeMessage(m).value)) == Some(m.(payload := m.payload[..2028]))
  {
    hide Encode, Decode, DecodeMessage, HeaderBits, Encodable, BitStrings.Octets, Cut;
    EncodesIff(m);
    HeaderIsOctets(m);
    var h, text, rest := HeaderBits(m).value, m.payload[..2028], m.payload[2028..];
    EncodeOfConcat(text, rest);
    assert m.payload == text + rest;
    AsciiLength(text);
    DecodeOfEncode(text);
    DecodeWithPayload(m, h, Encode(text), text);
    CutBehindHeader(BitStrings.Octets(h), Encode(text), Encode(rest));
  }

  /** The server sees of a datagram its first 2048 bytes: one that is longer does what these bytes
      would do alone. */
  lemma OnlyFirstBytesCount(cfg: Config, s: System, d: Datagram, first: bytes, rest: bytes, draw: nat)
    requires |first| == 2048 && d.data == first + rest
    requires Enabled(cfg, s, ServerReceives(d, draw))
    ensures Next(cfg, s, ServerReceives(d, draw)).server == HandleDatagram(s.server, d.src, first, draw).0
  {
    hide HandleDatagram, Cut, AnswersSomeone, Deliver;
    CutToFirst(first, rest);
  }

  /** So do the clients. */
  lemma OnlyFirstBytesHeard(cfg: Config, s: System, i: nat, d: Datagram, first: bytes, rest: bytes)
    requires |first| == 2048 && d.data == first + rest
    requires Enabled(cfg, s, ClientReceives(i, d))
    ensures Next(cfg, s, ClientReceives(i, d)).nodes[i].client == Received(s.nodes[i].client, first)
  {
    hide Received, Cut, AnswersSomeone;
    CutToFirst(first, rest);
  }

  lemma CutToFirst(first: bytes, rest: bytes)
    requires |first| == 2048
    ensures Cut(first + rest) == first
  {
    assert (first + rest)[..2048] == first;
    assert rest == [] ==> first + rest == first;
  }
}
