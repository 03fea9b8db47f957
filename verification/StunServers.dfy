/**
  The rendezvous server: what one datagram does to the match table and to the pending
  requests, and what is sent in reply. An exception ends the process; that is `Crashed`.
 */
module StunServers {
  import opened Wrappers
  import opened Utf8
  import opened Addresses
  import opened MatchTables
  import opened StunCodec
  import PyText

  datatype Pending = Pending(transactionId: Option<nat>, dest: PeerId)

  type PendingRequests = map<PeerId, Pending>

  datatype Server = Running(table: Table, pending: PendingRequests) | Crashed

  const INITIAL_SERVER := Running(EMPTY_TABLE, map[])

  datatype Reply = Reply(to: Address, data: bytes)

  /** Two matched requests: each transaction id with the address its sender asked for. */
  datatype Pairing = Pairing(id1: Option<nat>, address2: Address, id2: Option<nat>, address1: Address)

  /** What `__handle_request` comes to; `Raises` is a missing key or an unreadable address. */
  datatype Outcome = Nothing(pending: PendingRequests) | Paired(pending: PendingRequests, pairing: Pairing) | Raises

  /** `__handle_request` for an address that is valid. */
  function HandleRequest(t: Table, pending: PendingRequests, from: Address, id: Option<nat>, dest: PeerId): Outcome {
    match GetPid(t, from)
    case None => Nothing(pending)
    case Some(pid1) =>
      if pid1 == "" then Nothing(pending)
      else
        var added := pending[pid1 := Pending(id, dest)];
        match GetPinfo(t, dest)
        case Raised => Raises
        case Unknown => Nothing(added)
        case Found(address2) =>
          var left := added - {pid1};
          if dest !in left then Raises
          else if left[dest].dest == pid1 then
            Paired(left - {dest}, Pairing(id, address2, left[dest].transactionId, from))
          else Nothing(left - {dest})
  }

  function SuccessBytes(id: Option<nat>, publicInfo: Address): Option<bytes> {
    EncodeMessage(Message(Some(SuccessResponse), id, AddressText(publicInfo)))
  }

  /** `f"PUBLIC INFO: {addr}"`. */
  function PublicInfoText(a: Address): string {
    "PUBLIC INFO: ('" + a.ip + "', " + PyText.Print(a.port) + ")"
  }

  function PublicInfoTail(a: Address): string {
    ", " + PyText.Print(a.port) + ")"
  }

  lemma PublicInfoParts(a: Address)
    ensures PublicInfoText(a)[15..] == a.ip + "'" + PublicInfoTail(a)
    ensures PublicInfoTail(a)[2..|PublicInfoTail(a)| - 1] == PyText.Print(a.port)
  {
    hide PyText.Print;
  }

  lemma QuoteEnds(ip: string, tail: string)
    requires Plain(ip)
    ensures var s := ip + "'" + tail;
            PyText.IndexOf(s, '\'') == |ip| && s[..|ip|] == ip && s[|ip| + 1..] == tail
  {
    PyText.IndexOfSeam(ip, '\'', tail);
  }

  /** The address told to a peer is its own and no other's. */
  lemma PublicInfoTells(a: Address, b: Address)
    requires IsAddressValid(a) && IsAddressValid(b)
    ensures PublicInfoText(a) == PublicInfoText(b) <==> a == b
  {
    hide IsDotted, Plain, PyText.Print, PyText.ParseInt, PublicInfoText, PublicInfoTail, PyText.IndexOf;
    PublicInfoParts(a);
    PublicInfoParts(b);
    DottedIsPlain(a.ip, 4);
    DottedIsPlain(b.ip, 4);
    QuoteEnds(a.ip, PublicInfoTail(a));
    QuoteEnds(b.ip, PublicInfoTail(b));
    PyText.ParseOfPrint(a.port);
    PyText.ParseOfPrint(b.port);
  }

  lemma PublicInfoExample()
    ensures PublicInfoText(Address("10.0.0.1", 50210)) == "PUBLIC INFO: ('10.0.0.1', 50210)"
  {
    PyText.PrintExample();
  }

  function IndicationBytes(id: nat, a: Address): Option<bytes> {
    EncodeMessage(Message(Some(Indication), Some(id), PublicInfoText(a)))
  }

  /** Both responses, each to the peer that asked. */
  function PairReplies(p: Pairing): Option<seq<Reply>> {
    var sm1, sm2 := SuccessBytes(p.id1, p.address2), SuccessBytes(p.id2, p.address1);
    if sm1 == None || sm2 == None then None
    else Some([Reply(p.address1, sm1.value), Reply(p.address2, sm2.value)])
  }

  /** One turn of `run` on a decoded message. `draw` is the id drawn should one be needed. */
  function HandleMessage(s: Server, from: Address, m: Message, draw: nat): (Server, seq<Reply>)
    requires s.Running?
  {
    if m.messageType == Some(Indication) then
      if !IsAddressValid(from) then (s, [])
      else
        var s' := s.(table := AddPeer(s.table, m.payload, from));
        if m.payload == "" then (s', [])
        else
          match IndicationBytes(draw, from)
          case None => (Crashed, [])
          case Some(im) => (s', [Reply(from, im)])
    else if m.messageType == Some(Request) then
      if !IsAddressValid(from) then (s, [])
      else
        match HandleRequest(s.table, s.pending, from, m.transactionId, m.payload)
        case Nothing(pending) => (s.(pending := pending), [])
        case Raises => (Crashed, [])
        case Paired(pending, p) =>
          match PairReplies(p)
          case None => (Crashed, [])
          case Some(replies) => (s.(pending := pending), replies)
    else (s, [])
  }

  /** One turn of `run` on the bytes received. */
  function HandleDatagram(s: Server, from: Address, buffer: bytes, draw: nat): (Server, seq<Reply>)
    requires s.Running?
  {
    match DecodeMessage(buffer)
    case None => (Crashed, [])
    case Some(m) => HandleMessage(s, from, m, draw)
  }

  datatype Arrival = Arrival(from: Address, buffer: bytes, draw: nat)

  /** `run` over the datagrams that arrive, until one of them ends the process. */
  function Serve(s: Server, arrivals: seq<Arrival>): (Server, seq<Reply>)
    decreases |arrivals|
  {
    if s.Crashed? || arrivals == [] then (s, [])
    else
      var a := arrivals[0];
      var (s', replies) := HandleDatagram(s, a.from, a.buffer, a.draw);
      var (end, more) := Serve(s', arrivals[1..]);
      (end, replies + more)
  }

  class StunServer {
    const matchTable: MatchTable
    var pendingRequests: PendingRequests

    function View(): Server
      reads this, matchTable
    {
      Running(matchTable.View(), pendingRequests)
    }

    constructor ()
      ensures View() == INITIAL_SERVER && fresh(matchTable)
    {
      matchTable := new MatchTable();
      pendingRequests := map[];
    }

    method Register(from: Address, m: Message) returns (pid: Option<PeerId>)
      modifies matchTable
      ensures pid.Some? <==> IsIpv4Endpoint(from)
      ensures pid == if IsAddressValid(from) then Some(m.payload) else None
      ensures matchTable.View() == if pid.Some? then AddPeer(old(matchTable.View()), m.payload, from)
                                   else old(matchTable.View())
    {
      AddressValidIff(from);
      if !IsAddressValid(from) {
        return None;
      }
      matchTable.Add(m.payload, from);
      return Some(m.payload);
    }

    /** `__handle_request`; `raised` stands for the exception that leaves the method. */
    method Request(from: Address, m: Message) returns (pairing: Option<Pairing>, raised: bool)
      requires IsAddressValid(from)
      modifies this
      ensures var o := HandleRequest(matchTable.View(), old(pendingRequests), from, m.transactionId, m.payload);
              && raised == o.Raises?
              && (!raised ==> pendingRequests == o.pending)
              && pairing == if o.Paired? then Some(o.pairing) else None
    {
      var pid1 := GetPid(matchTable.View(), from);
      if pid1 == None || pid1 == Some("") {
        return None, false;
      }
      var pid2 := m.payload;
      pendingRequests := pendingRequests[pid1.value := Pending(m.transactionId, pid2)];
      var addr2 := GetPinfo(matchTable.View(), pid2);
      if addr2 == Raised {
        return None, true;
      }
      if addr2 == Unknown {
        return None, false;
      }
      var req12 := pendingRequests[pid1.value];
      pendingRequests := pendingRequests - {pid1.value};
      if pid2 !in pendingRequests {
        return None, true;
      }
      var req21 := pendingRequests[pid2];
      pendingRequests := pendingRequests - {pid2};
      if req12.dest == pid2 && req21.dest == pid1.value {
        return Some(Pairing(req12.transactionId, addr2.address, req21.transactionId, from)), false;
      }
      return None, false;
    }

    method Turn(a: Arrival) returns (replies: seq<Reply>, crashed: bool)
      modifies this, matchTable
      ensures var (s, sent) := HandleDatagram(old(View()), a.from, a.buffer, a.draw);
              crashed == s.Crashed? && replies == sent && (!crashed ==> View() == s)
    {
      hide HandleRequest, PairReplies, IndicationBytes, DecodeMessage, IsAddressValid, AddPeer;
      replies := [];
      var sm := DecodeMessage(a.buffer);
      if sm == None {
        return [], true;
      }
      if sm.value.messageType == Some(Indication) {
        var pid := Register(a.from, sm.value);
        if pid != None && pid != Some("") {
          var im := IndicationBytes(a.draw, a.from);
          if im == None {
            return [], true;
          }
          replies := [Reply(a.from, im.value)];
        }
      }
      if sm.value.messageType == Some(StunCodec.Request) {
        if !IsAddressValid(a.from) {
          return [], false;
        }
        var pairing, raised := Request(a.from, sm.value);
        if raised {
          return [], true;
        }
        if pairing.Some? {
          var both := PairReplies(pairing.value);
          if both == None {
            return [], true;
          }
          replies := both.value;
        }
      }
      return replies, false;
    }

    /** `run` over a finite list of arrivals. */
    method Run(arrivals: seq<Arrival>) returns (sent: seq<Reply>, crashed: bool)
      modifies this, matchTable
      ensures var (s, replies) := Serve(old(View()), arrivals);
              crashed == s.Crashed? && sent == replies && (!crashed ==> View() == s)
    {
      hide HandleDatagram;
      sent, crashed := [], false;
      var i := 0;
      while i < |arrivals| && !crashed
        invariant 0 <= i <= |arrivals|
        invariant var (end, all) := Serve(old(View()), arrivals);
                  var (end', rest) := Serve(if crashed then Crashed else View(), arrivals[i..]);
                  end == end' && all == sent + rest
      {
        ghost var rest := arrivals[i..];
        assert rest[0] == arrivals[i] && rest[1..] == arrivals[i + 1..];
        var replies;
        replies, crashed := Turn(arrivals[i]);
        sent := sent + replies;
        i := i + 1;
      }
    }
  }
}
