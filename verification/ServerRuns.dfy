/**
  Whole runs of the server, over any datagrams in any order, repeated or not: what its
  tables keep, when it ends, and where every accepted request goes.
 */
module ServerRuns {
  import opened Wrappers
  import opened Utf8
  import opened Addresses
  import opened MatchTables
  import opened StunCodec
  import opened StunServers
  import BitStrings
  import PyText

  /** A request the server accepted from a registered peer. */
  datatype Accepted = Accepted(pid: PeerId, transactionId: Option<nat>, dest: PeerId)

  /** Where the accepted requests went, as long as the server runs. */
  datatype Ledger = Ledger(
    accepted: multiset<Accepted>,
    waiting: multiset<Accepted>,      // pending
    superseded: multiset<Accepted>,   // replaced by a later request of the same peer
    matched: multiset<Accepted>,      // answered
    mismatched: multiset<Accepted>,   // dropped, the destination wanted someone else
    pairs: seq<(PeerId, PeerId)>)     // the pairs answered, in order

  datatype History = History(server: Server, ledger: Ledger)

  const START := History(INITIAL_SERVER,
                         Ledger(multiset{}, multiset{}, multiset{}, multiset{}, multiset{}, []))

  function Waiting(pending: PendingRequests, pid: PeerId): multiset<Accepted> {
    if pid in pending then multiset{Accepted(pid, pending[pid].transactionId, pending[pid].dest)} else multiset{}
  }

  /** The ledger after request `r` of a registered peer that did not end the server. */
  function Record(l: Ledger, t: Table, pending: PendingRequests, r: Accepted): Ledger {
    var old_ := Waiting(pending, r.pid);
    var l1 := l.(accepted := l.accepted + multiset{r}, superseded := l.superseded + old_, waiting := l.waiting - old_);
    if r.dest !in t.idInfo then l1.(waiting := l1.waiting + multiset{r})
    else
      var other := Waiting(pending, r.dest);
      if r.dest in pending && pending[r.dest].dest == r.pid then
        l1.(waiting := l1.waiting - other, matched := l1.matched + multiset{r} + other,
            pairs := l1.pairs + [(r.pid, r.dest)])
      else
        l1.(waiting := l1.waiting - other, mismatched := l1.mismatched + multiset{r} + other)
  }

  /** The request `m` is accepted as, if the server accepts it. */
  function AcceptedAs(t: Table, from: Address, m: Message): Option<Accepted> {
    if m.messageType != Some(Request) || !IsAddressValid(from) then None
    else
      match GetPid(t, from)
      case None => None
      case Some(pid) => if pid == "" then None else Some(Accepted(pid, m.transactionId, m.payload))
  }

  function Advance(h: History, a: Arrival): History {
    if h.server.Crashed? then h
    else
      var s := HandleDatagram(h.server, a.from, a.buffer, a.draw).0;
      if s.Crashed? then h.(server := Crashed)
      else
        match AcceptedAs(h.server.table, a.from, DecodeMessage(a.buffer).value)
        case None => h.(server := s)
        case Some(r) => History(s, Record(h.ledger, h.server.table, h.server.pending, r))
  }

  function After(h: History, arrivals: seq<Arrival>): History
    decreases |arrivals|
  {
    if arrivals == [] then h else After(Advance(h, arrivals[0]), arrivals[1..])
  }

  /** The history follows the server. */
  lemma {:induction false} HistoryFollowsServer(h: History, arrivals: seq<Arrival>)
    ensures After(h, arrivals).server == Serve(h.server, arrivals).0
    decreases |arrivals|
  {
    hide HandleDatagram, AcceptedAs, Record;
    if arrivals != [] {
      HistoryFollowsServer(Advance(h, arrivals[0]), arrivals[1..]);
      if h.server.Crashed? {
        HistoryFollowsServer(h, arrivals[1..]);
      }
    }
  }

  // The invariant.

  ghost predicate TablesOk(s: Server)
    requires s.Running?
  {
    && Closed(s.table)
    && OfValidAddresses(s.table)
    && (forall pid :: pid in s.pending ==> pid != "" && pid in s.table.idInfo
                                           && (s.pending[pid].transactionId.Some?
                                               ==> s.pending[pid].transactionId.value < BitStrings.Pow2(96)))
  }

  predicate IsPending(pending: PendingRequests, r: Accepted) {
    r.pid in pending && pending[r.pid] == Pending(r.transactionId, r.dest)
  }

  /** `waiting` is the pending map, each entry once. */
  ghost predicate WaitingIsPending(l: Ledger, pending: PendingRequests) {
    forall r :: l.waiting[r] == if IsPending(pending, r) then 1 else 0
  }

  ghost predicate Accounted(l: Ledger) {
    forall r :: l.accepted[r] == l.waiting[r] + l.superseded[r] + l.matched[r] + l.mismatched[r]
  }

  /** No request between the two peers of an answered pair is pending, and both are known. */
  predicate PairSettled(s: Server, p: PeerId, q: PeerId)
    requires s.Running?
  {
    && p != q
    && p in s.table.idInfo && q in s.table.idInfo
    && (p in s.pending ==> s.pending[p].dest != q)
    && (q in s.pending ==> s.pending[q].dest != p)
  }

  predicate SamePair(a: (PeerId, PeerId), b: (PeerId, PeerId)) {
    a == b || (a.0 == b.1 && a.1 == b.0)
  }

  predicate PairsOk(h: History)
    requires h.server.Running?
  {
    && (forall i :: 0 <= i < |h.ledger.pairs| ==> PairSettled(h.server, h.ledger.pairs[i].0, h.ledger.pairs[i].1))
    && (forall i, j :: 0 <= i < j < |h.ledger.pairs| ==> !SamePair(h.ledger.pairs[i], h.ledger.pairs[j]))
  }

  ghost predicate HistoryInv(h: History) {
    h.server.Running? ==>
      TablesOk(h.server) && WaitingIsPending(h.ledger, h.server.pending) && Accounted(h.ledger) && PairsOk(h)
  }

  lemma StoredAddressReads(t: Table, pid: PeerId)
    requires Closed(t) && OfValidAddresses(t) && pid in t.idInfo
    ensures exists a :: IsAddressValid(a) && AddressText(a) == t.idInfo[pid] && GetPinfo(t, pid) == Found(a)
  {
    hide AddressText, IsAddressValid, ParseAddress;
    var a :| IsAddressValid(a) && AddressText(a) == t.idInfo[pid];
    AddressRoundTrip(a);
  }

  /** Stored addresses are always readable: `get_pinfo` fails only for an unknown id. */
  lemma LookupNeverRaises(t: Table, pid: PeerId)
    requires Closed(t) && OfValidAddresses(t)
    ensures GetPinfo(t, pid).Unknown? <==> pid !in t.idInfo
    ensures !GetPinfo(t, pid).Raised?
  {
    hide AddressText, IsAddressValid, ParseAddress;
    if pid in t.idInfo {
      StoredAddressReads(t, pid);
    }
  }

  /** What an accepted request does to the pending map, and when it ends the server. */
  lemma RequestEffect(s: Server, from: Address, id: Option<nat>, dest: PeerId, pid: PeerId)
    requires s.Running? && TablesOk(s) && GetPid(s.table, from) == Some(pid) && pid != ""
    ensures var o := HandleRequest(s.table, s.pending, from, id, dest);
            && (o.Raises? <==> dest in s.table.idInfo && (dest == pid || dest !in s.pending))
            && (o.Paired? <==>
                  dest in s.table.idInfo && dest != pid && dest in s.pending && s.pending[dest].dest == pid)
            && (dest !in s.table.idInfo ==> o == Nothing(s.pending[pid := Pending(id, dest)]))
            && (dest in s.table.idInfo && !o.Raises? ==> o.pending == s.pending - {pid, dest})
  {
    hide AddressText, IsAddressValid, ParseAddress, GetPinfo, OfValidAddresses;
    LookupNeverRaises(s.table, dest);
    assert s.pending[pid := Pending(id, dest)] - {pid} - {dest} == s.pending - {pid, dest};
  }

  lemma DecodedIdFits(b: bytes)
    requires DecodeMessage(b).Some? && DecodeMessage(b).value.transactionId.Some?
    ensures DecodeMessage(b).value.transactionId.value < BitStrings.Pow2(96)
  {
    hide Decode, TypeFromString;
    var header := b[..Min(20, |b|)];
    BitStrings.OctetsOfBits(header);
    var bits := SliceFrom(HeaderOf(b), 64);
    BitStrings.ValueBelow(bits);
    PowGrows(|bits|, 96);
  }

  lemma {:induction false} PowGrows(a: nat, b: nat)
    requires a <= b
    ensures BitStrings.Pow2(a) <= BitStrings.Pow2(b)
    decreases b
  {
    if a < b {
      PowGrows(a, b - 1);
    }
  }

  // Each part is kept by an accepted request that does not end the server.

  /** The pending map after such a request. */
  function PendingAfter(s: Server, r: Accepted): PendingRequests
    requires s.Running?
  {
    if r.dest !in s.table.idInfo then s.pending[r.pid := Pending(r.transactionId, r.dest)]
    else s.pending - {r.pid, r.dest}
  }

  /** The server answers or keeps an accepted request: it does not end. */
  predicate Survives(s: Server, r: Accepted)
    requires s.Running?
  {
    r.dest in s.table.idInfo ==> r.dest != r.pid && r.dest in s.pending
  }

  lemma RequestKeepsTables(s: Server, r: Accepted)
    requires s.Running? && TablesOk(s) && r.pid != "" && r.pid in s.table.idInfo && Survives(s, r)
    requires r.transactionId.Some? ==> r.transactionId.value < BitStrings.Pow2(96)
    ensures TablesOk(s.(pending := PendingAfter(s, r)))
  {
    hide Closed, OfValidAddresses, BitStrings.Pow2;
  }

  lemma WaitingCount(pending: PendingRequests, pid: PeerId, r: Accepted)
    ensures Waiting(pending, pid)[r] == if r.pid == pid && IsPending(pending, r) then 1 else 0
  {
  }

  lemma RequestKeepsWaiting(s: Server, l: Ledger, r: Accepted)
    requires s.Running? && Survives(s, r) && WaitingIsPending(l, s.pending)
    ensures WaitingIsPending(Record(l, s.table, s.pending, r), PendingAfter(s, r))
  {
    hide Waiting;
    var l' := Record(l, s.table, s.pending, r);
    forall x: Accepted ensures l'.waiting[x] == if IsPending(PendingAfter(s, r), x) then 1 else 0 {
      assert l.waiting[x] == if IsPending(s.pending, x) then 1 else 0;
      WaitingCount(s.pending, r.pid, x);
      WaitingCount(s.pending, r.dest, x);
    }
  }

  lemma RequestKeepsAccounted(s: Server, l: Ledger, r: Accepted)
    requires s.Running? && Survives(s, r) && WaitingIsPending(l, s.pending) && Accounted(l)
    ensures Accounted(Record(l, s.table, s.pending, r))
  {
    hide Waiting, IsPending;
    var l' := Record(l, s.table, s.pending, r);
    forall x: Accepted
      ensures l'.accepted[x] == l'.waiting[x] + l'.superseded[x] + l'.matched[x] + l'.mismatched[x]
    {
      assert l.waiting[x] == if IsPending(s.pending, x) then 1 else 0;
      assert l.accepted[x] == l.waiting[x] + l.superseded[x] + l.matched[x] + l.mismatched[x];
      WaitingCount(s.pending, r.pid, x);
      WaitingCount(s.pending, r.dest, x);
    }
  }

  /** The pairs answered, after an accepted request. */
  function PairsAfter(s: Server, pairs: seq<(PeerId, PeerId)>, r: Accepted): seq<(PeerId, PeerId)>
    requires s.Running?
  {
    if r.dest in s.table.idInfo && r.dest in s.pending && s.pending[r.dest].dest == r.pid
    then pairs + [(r.pid, r.dest)] else pairs
  }

  lemma PairStaysSettled(s: Server, r: Accepted, p: PeerId, q: PeerId)
    requires s.Running? && PairSettled(s, p, q)
    ensures PairSettled(s.(pending := PendingAfter(s, r)), p, q)
    ensures Survives(s, r) && r.dest in s.table.idInfo && s.pending[r.dest].dest == r.pid
            ==> !SamePair((p, q), (r.pid, r.dest))
  {
  }

  lemma RequestKeepsPairs(h: History, r: Accepted)
    requires h.server.Running? && Survives(h.server, r) && PairsOk(h) && r.pid in h.server.table.idInfo
    ensures PairsOk(History(h.server.(pending := PendingAfter(h.server, r)),
                            Record(h.ledger, h.server.table, h.server.pending, r)))
  {
    hide Waiting, SamePair, PairSettled;
    var s := h.server;
    var h' := History(s.(pending := PendingAfter(s, r)), Record(h.ledger, s.table, s.pending, r));
    var pairs := h.ledger.pairs;
    assert h'.ledger.pairs == PairsAfter(s, pairs, r);
    forall i | 0 <= i < |pairs|
      ensures PairSettled(h'.server, pairs[i].0, pairs[i].1)
      ensures h'.ledger.pairs != pairs ==> !SamePair(pairs[i], (r.pid, r.dest))
    {
      PairStaysSettled(s, r, pairs[i].0, pairs[i].1);
    }
    if h'.ledger.pairs != pairs {
      NewPairSettled(s, r);
    }
  }

  lemma NewPairSettled(s: Server, r: Accepted)
    requires s.Running? && Survives(s, r) && r.pid in s.table.idInfo && r.dest in s.table.idInfo
    ensures PairSettled(s.(pending := PendingAfter(s, r)), r.pid, r.dest)
  {
  }

  lemma RegisterKeepsInv(h: History, pid: PeerId, a: Address)
    requires h.server.Running? && HistoryInv(h) && IsAddressValid(a)
    ensures HistoryInv(h.(server := h.server.(table := AddPeer(h.server.table, pid, a))))
  {
    hide AddressText, IsAddressValid, Closed, OfValidAddresses, Accounted, BitStrings.Pow2;
    AddKeepsClosed(h.server.table, pid, a);
    AddKeepsValid(h.server.table, pid, a);
    var s' := h.server.(table := AddPeer(h.server.table, pid, a));
    forall i | 0 <= i < |h.ledger.pairs|
      ensures PairSettled(s', h.ledger.pairs[i].0, h.ledger.pairs[i].1)
    {
      assert PairSettled(h.server, h.ledger.pairs[i].0, h.ledger.pairs[i].1);
    }
  }

  lemma RequestKeepsInv(h: History, r: Accepted)
    requires h.server.Running? && HistoryInv(h) && Survives(h.server, r)
    requires r.pid != "" && r.pid in h.server.table.idInfo
    requires r.transactionId.Some? ==> r.transactionId.value < BitStrings.Pow2(96)
    ensures HistoryInv(History(h.server.(pending := PendingAfter(h.server, r)),
                               Record(h.ledger, h.server.table, h.server.pending, r)))
  {
    hide PendingAfter, Record, TablesOk, WaitingIsPending, Accounted, PairsOk, Survives, BitStrings.Pow2;
    RequestKeepsTables(h.server, r);
    RequestKeepsWaiting(h.server, h.ledger, r);
    RequestKeepsAccounted(h.server, h.ledger, r);
    RequestKeepsPairs(h, r);
  }

  /** What one decoded message does to a running server, case by case. */
  lemma MessageEffect(s: Server, from: Address, m: Message, draw: nat)
    requires s.Running? && TablesOk(s)
    ensures var s' := HandleMessage(s, from, m, draw).0;
            match AcceptedAs(s.table, from, m)
            case Some(r) => !s'.Crashed? ==> Survives(s, r) && s' == s.(pending := PendingAfter(s, r))
            case None =>
              s' == s || s'.Crashed?
              || (IsAddressValid(from) && s' == s.(table := AddPeer(s.table, m.payload, from)))
  {
    hide AddressText, IsAddressValid, HandleRequest, TablesOk, PairReplies, IndicationBytes;
    match AcceptedAs(s.table, from, m)
    case Some(r) =>
      RequestEffect(s, from, m.transactionId, m.payload, r.pid);
    case None =>
      if m.messageType == Some(Request) && IsAddressValid(from) {
        UnregisteredIgnored(s, from, m.transactionId, m.payload);
      }
  }

  lemma UnregisteredIgnored(s: Server, from: Address, id: Option<nat>, dest: PeerId)
    requires s.Running? && (GetPid(s.table, from) == None || GetPid(s.table, from) == Some(""))
    ensures HandleRequest(s.table, s.pending, from, id, dest) == Nothing(s.pending)
  {
  }

  lemma AdvanceKeepsInv(h: History, a: Arrival)
    requires HistoryInv(h)
    ensures HistoryInv(Advance(h, a))
  {
    hide HistoryInv, HandleMessage, PendingAfter, Record, Survives, DecodeMessage, TablesOk, AddPeer,
         BitStrings.Pow2;
    if h.server.Running? && DecodeMessage(a.buffer).Some? {
      var m := DecodeMessage(a.buffer).value;
      InvHasTables(h);
      MessageEffect(h.server, a.from, m, a.draw);
      match AcceptedAs(h.server.table, a.from, m)
      case Some(r) =>
        if Advance(h, a).server.Running? {
          AcceptedIsRegistered(h.server, a.from, m);
          if m.transactionId.Some? {
            DecodedIdFits(a.buffer);
          }
          RequestKeepsInv(h, r);
        } else {
          CrashedInv(Advance(h, a));
        }
      case None =>
        var s' := HandleMessage(h.server, a.from, m, a.draw).0;
        if s'.Crashed? {
          CrashedInv(Advance(h, a));
        } else if s' != h.server {
          RegisterKeepsInv(h, m.payload, a.from);
        } else {
          assert Advance(h, a) == h;
        }
    } else {
      CrashedInv(Advance(h, a));
    }
  }

  lemma InvHasTables(h: History)
    requires HistoryInv(h) && h.server.Running?
    ensures TablesOk(h.server)
  {
  }

  lemma CrashedInv(h: History)
    requires h.server.Crashed?
    ensures HistoryInv(h)
  {
  }

  lemma AcceptedIsRegistered(s: Server, from: Address, m: Message)
    requires s.Running? && TablesOk(s) && AcceptedAs(s.table, from, m).Some?
    ensures AcceptedAs(s.table, from, m).value.pid in s.table.idInfo
    ensures AcceptedAs(s.table, from, m).value.pid != ""
    ensures AcceptedAs(s.table, from, m).value.transactionId == m.transactionId
  {
    hide AddressText, IsAddressValid;
  }

  lemma {:induction false} RunKeepsInv(h: History, arrivals: seq<Arrival>)
    requires HistoryInv(h)
    ensures HistoryInv(After(h, arrivals))
    decreases |arrivals|
  {
    hide Advance, HistoryInv;
    if arrivals != [] {
      AdvanceKeepsInv(h, arrivals[0]);
      RunKeepsInv(Advance(h, arrivals[0]), arrivals[1..]);
    }
  }

  lemma StartInv()
    ensures HistoryInv(START)
  {
  }

  // The properties, for every sequence of datagrams.

  /** While the server runs, the dictionaries refer to each other, every pending id is
      registered and every lookup of a registered id gives a valid address. */
  lemma TablesStayClosed(arrivals: seq<Arrival>)
    requires After(START, arrivals).server.Running?
    ensures var s := After(START, arrivals).server;
            && Closed(s.table)
            && (forall pid :: pid in s.pending ==> pid in s.table.idInfo)
            && (forall pid :: GetPinfo(s.table, pid).Found? <==> pid in s.table.idInfo)
            && (forall pid :: pid in s.table.idInfo ==> IsAddressValid(GetPinfo(s.table, pid).address))
  {
    hide After, AddressText, IsAddressValid, ParseAddress, GetPinfo;
    StartInv();
    RunKeepsInv(START, arrivals);
    var t := After(START, arrivals).server.table;
    forall pid | true ensures GetPinfo(t, pid).Found? <==> pid in t.idInfo {
      LookupNeverRaises(t, pid);
    }
    forall pid | pid in t.idInfo ensures IsAddressValid(GetPinfo(t, pid).address) {
      StoredAddressReads(t, pid);
    }
  }

  /** No two peers are ever paired twice, in either order, and no peer with itself. */
  lemma PairedAtMostOnce(arrivals: seq<Arrival>)
    requires After(START, arrivals).server.Running?
    ensures var pairs := After(START, arrivals).ledger.pairs;
            && (forall i :: 0 <= i < |pairs| ==> pairs[i].0 != pairs[i].1)
            && (forall i, j :: 0 <= i < j < |pairs| ==> !SamePair(pairs[i], pairs[j]))
  {
    hide After;
    StartInv();
    RunKeepsInv(START, arrivals);
    var h := After(START, arrivals);
    forall i | 0 <= i < |h.ledger.pairs| ensures h.ledger.pairs[i].0 != h.ledger.pairs[i].1 {
      assert PairSettled(h.server, h.ledger.pairs[i].0, h.ledger.pairs[i].1);
    }
  }

  /** Every accepted request is pending, superseded, answered or dropped, and only one of
      these; the pending ones are the entries of the pending map. */
  lemma RequestsAccountedFor(arrivals: seq<Arrival>)
    requires After(START, arrivals).server.Running?
    ensures var l := After(START, arrivals).ledger;
            && l.accepted == l.waiting + l.superseded + l.matched + l.mismatched
            && forall r :: l.waiting[r] == if IsPending(After(START, arrivals).server.pending, r) then 1 else 0
  {
    hide After;
    StartInv();
    RunKeepsInv(START, arrivals);
  }

  // The table over whole runs.

  /** What one datagram registers. */
  function RegistrationOf(a: Arrival): seq<Registration> {
    match DecodeMessage(a.buffer)
    case None => []
    case Some(m) =>
      if m.messageType == Some(Indication) && IsAddressValid(a.from) then [Registration(m.payload, a.from)] else []
  }

  /** The registrations of a run, in order. */
  function Registrations(arrivals: seq<Arrival>): seq<Registration> {
    if arrivals == [] then [] else RegistrationOf(arrivals[0]) + Registrations(arrivals[1..])
  }

  lemma TableAfterOne(h: History, a: Arrival)
    requires h.server.Running? && Advance(h, a).server.Running?
    ensures Advance(h, a).server.table == Register(h.server.table, RegistrationOf(a))
  {
    hide AddPeer, HandleRequest, PairReplies, IndicationBytes, IsAddressValid, Record, AcceptedAs, DecodeMessage;
    NoRegistrations(h.server.table);
    if RegistrationOf(a) != [] {
      RegisterLast(h.server.table, [], RegistrationOf(a)[0]);
      assert [] + [RegistrationOf(a)[0]] == RegistrationOf(a);
    }
  }

  lemma {:induction false} CrashedStays(h: History, arrivals: seq<Arrival>)
    requires h.server.Crashed?
    ensures After(h, arrivals).server.Crashed?
    decreases |arrivals|
  {
    if arrivals != [] {
      CrashedStays(h, arrivals[1..]);
    }
  }

  lemma {:induction false} TableAfter(h: History, arrivals: seq<Arrival>)
    requires h.server.Running? && After(h, arrivals).server.Running?
    ensures After(h, arrivals).server.table == Register(h.server.table, Registrations(arrivals))
    decreases |arrivals|
  {
    hide Advance, Register, RegistrationOf;
    if arrivals == [] {
      NoRegistrations(h.server.table);
    } else {
      var h', first, rest := Advance(h, arrivals[0]), RegistrationOf(arrivals[0]), Registrations(arrivals[1..]);
      if h'.server.Crashed? {
        CrashedStays(h', arrivals[1..]);
      }
      TableAfterOne(h, arrivals[0]);
      TableAfter(h', arrivals[1..]);
      OneRegistration(arrivals[0]);
      NoRegistrations(h.server.table);
      if first == [] {
        assert first + rest == rest;
      } else {
        RegisterFirst(h.server.table, first[0], rest);
        RegisterFirst(h.server.table, first[0], []);
        NoRegistrations(AddPeer(h.server.table, first[0].pid, first[0].address));
        assert first == [first[0]] && [first[0]] + [] == first;
      }
    }
  }

  lemma OneRegistration(a: Arrival)
    ensures |RegistrationOf(a)| <= 1
    ensures forall r :: r in RegistrationOf(a) ==> IsAddressValid(r.address)
  {
  }

  lemma {:induction false} RegistrationsValid(arrivals: seq<Arrival>)
    ensures forall i :: 0 <= i < |Registrations(arrivals)| ==> IsAddressValid(Registrations(arrivals)[i].address)
  {
    hide RegistrationOf, IsAddressValid;
    if arrivals != [] {
      OneRegistration(arrivals[0]);
      RegistrationsValid(arrivals[1..]);
    }
  }

  /** The table of a running server is that of the registrations received, in order; as long as
      these never pair an id or an address in two ways, the dictionaries are inverse bijections
      and looking up gives exactly what was registered. */
  lemma TableIsRegistrations(arrivals: seq<Arrival>)
    requires After(START, arrivals).server.Running?
    ensures var t, rs := After(START, arrivals).server.table, Registrations(arrivals);
            && t == Register(EMPTY_TABLE, rs)
            && (Consistent(rs) ==>
                  && Inverse(t)
                  && forall i :: 0 <= i < |rs| ==>
                       GetPinfo(t, rs[i].pid) == Found(rs[i].address) && GetPid(t, rs[i].address) == Some(rs[i].pid))
  {
    hide After, Registrations, Register, Consistent, Inverse, GetPinfo, GetPid, IsAddressValid;
    TableAfter(START, arrivals);
    RegistrationsValid(arrivals);
    if Consistent(Registrations(arrivals)) {
      ConsistentRegistrations(Registrations(arrivals));
    }
  }

  lemma {:induction false} AfterLast(h: History, arrivals: seq<Arrival>, a: Arrival)
    ensures After(h, arrivals + [a]) == Advance(After(h, arrivals), a)
    ensures Registrations(arrivals + [a]) == Registrations(arrivals) + RegistrationOf(a)
    decreases |arrivals|
  {
    hide Advance, RegistrationOf;
    if arrivals == [] {
      assert [] + [a] == [a] && [a][1..] == [];
      assert [] + RegistrationOf(a) == RegistrationOf(a) == RegistrationOf(a) + [];
    } else {
      AfterLast(Advance(h, arrivals[0]), arrivals[1..], a);
      AfterLast(h, arrivals[1..], a);
      assert (arrivals + [a])[1..] == arrivals[1..] + [a];
    }
  }

  /** After the first `k` datagrams the server runs and its dictionaries are inverse. */
  predicate InverseAt(arrivals: seq<Arrival>, k: nat)
    requires k <= |arrivals|
  {
    var s := After(START, arrivals[..k]).server;
    s.Running? && Inverse(s.table)
  }

  lemma InverseOneMore(front: seq<Arrival>, a: Arrival)
    requires After(START, front).server.Running? && Advance(After(START, front), a).server.Running?
    requires Consistent(Registrations(front))
    ensures Inverse(Advance(After(START, front), a).server.table)
            <==> Consistent(Registrations(front) + RegistrationOf(a))
  {
    hide After, Advance, Registrations, RegistrationOf, Consistent, Inverse, Register, AddressText;
    var h, rs, more := After(START, front), Registrations(front), RegistrationOf(a);
    TableAfter(START, front);
    TableAfterOne(h, a);
    OneRegistration(a);
    InverseThroughoutIff(rs);
    assert rs[..|rs|] == rs;
    NoRegistrations(h.server.table);
    if more == [] {
      assert rs + more == rs;
    } else {
      assert more == [more[0]] == [] + [more[0]];
      RegisterLast(h.server.table, [], more[0]);
      ConsistentGrows(rs, more[0]);
      AddKeepsInverseIff(h.server.table, more[0].pid, more[0].address);
    }
  }

  /** The dictionaries of a running server are inverse bijections all along its run if and only
      if no id and no address was registered in two ways. */
  lemma {:induction false} TablesInverseThroughoutIff(arrivals: seq<Arrival>)
    requires After(START, arrivals).server.Running?
    ensures (forall k: nat :: k <= |arrivals| ==> InverseAt(arrivals, k)) <==> Consistent(Registrations(arrivals))
    decreases |arrivals|
  {
    hide After, Advance, Registrations, RegistrationOf, Consistent, Inverse, Register;
    if arrivals == [] {
      NothingRegistered();
      assert forall k: nat :: k <= |arrivals| ==> arrivals[..k] == [];
    } else {
      var front, a := arrivals[..|arrivals| - 1], arrivals[|arrivals| - 1];
      assert arrivals == front + [a] && arrivals[..|arrivals|] == arrivals;
      AfterLast(START, front, a);
      CrashedAdvance(After(START, front), a);
      TablesInverseThroughoutIff(front);
      InverseAtFront(front, a);
      if Consistent(Registrations(front)) {
        InverseOneMore(front, a);
      }
      if Consistent(Registrations(arrivals)) {
        ConsistentFront(Registrations(front), RegistrationOf(a));
      }
    }
  }

  lemma InverseAtFront(front: seq<Arrival>, a: Arrival)
    ensures var arrivals := front + [a];
            (forall k: nat :: k <= |arrivals| ==> InverseAt(arrivals, k))
            <==> (forall k: nat :: k <= |front| ==> InverseAt(front, k)) && InverseAt(arrivals, |arrivals|)
  {
    hide After, Inverse;
    var arrivals := front + [a];
    assert forall k: nat :: k <= |front| ==> arrivals[..k] == front[..k];
    assert forall k: nat :: k <= |front| ==> InverseAt(arrivals, k) == InverseAt(front, k);
  }

  lemma CrashedAdvance(h: History, a: Arrival)
    ensures h.server.Crashed? ==> Advance(h, a).server.Crashed?
  {
  }

  lemma ConsistentFront(rs: seq<Registration>, more: seq<Registration>)
    requires Consistent(rs + more)
    ensures Consistent(rs)
  {
    hide AddressText;
    assert forall i :: 0 <= i < |rs| ==> (rs + more)[i] == rs[i];
  }

  lemma NothingRegistered()
    ensures InverseAt([], 0) && Consistent(Registrations([]))
  {
  }

  // Replies, and the end of the server.

  lemma AddressTextIsShort(a: Address)
    requires IsAddressValid(a)
    ensures |AddressText(a)| <= 21 && |PublicInfoText(a)| <= 100
  {
    DottedLength(a.ip, 4);
    PyText.PrintLength(a.port);
  }

  /** A success response to a valid address can be encoded exactly when it has an id in range,
      and then it is short. */
  lemma SuccessEncodable(id: Option<nat>, a: Address)
    requires IsAddressValid(a)
    ensures SuccessBytes(id, a).Some? <==> id.Some? && id.value < BitStrings.Pow2(96)
    ensures SuccessBytes(id, a).Some? ==>
              && |SuccessBytes(id, a).value| <= 104
              && DecodeMessage(SuccessBytes(id, a).value) == Some(Message(Some(SuccessResponse), id, AddressText(a)))
  {
    hide AddressText, IsAddressValid, DecodeMessage, Encode, BitStrings.Pow2, HeaderBits;
    AddressTextIsShort(a);
    EncodeLength(AddressText(a));
    var m := Message(Some(SuccessResponse), id, AddressText(a));
    HeaderFields(m);
    if Encodable(m) {
      DecodeOfEncoded(m);
    }
  }

  lemma IndicationEncodable(draw: nat, a: Address)
    requires IsAddressValid(a) && draw < BitStrings.Pow2(96)
    ensures IndicationBytes(draw, a).Some?
    ensures DecodeMessage(IndicationBytes(draw, a).value)
            == Some(Message(Some(Indication), Some(draw), PublicInfoText(a)))
  {
    hide PublicInfoText, IsAddressValid, DecodeMessage, EncodeMessage, BitStrings.Pow2;
    AddressTextIsShort(a);
    DecodeOfEncoded(Message(Some(Indication), Some(draw), PublicInfoText(a)));
  }

  /** The two ids of a match are there to be echoed. */
  predicate IdsGiven(s: Server, m: Message)
    requires s.Running?
  {
    m.payload in s.pending ==> m.transactionId.Some? && s.pending[m.payload].transactionId.Some?
  }

  /** When an accepted request ends the server. */
  predicate EndsServer(s: Server, m: Message, pid: PeerId)
    requires s.Running?
  {
    && m.payload in s.table.idInfo
    && (m.payload == pid || m.payload !in s.pending
        || (s.pending[m.payload].dest == pid && !IdsGiven(s, m)))
  }

  /** What an accepted request that matches a pending one sends: to each peer its own
      transaction id and the registered address of the other. */
  predicate AnswersBoth(s: Server, from: Address, m: Message, replies: seq<Reply>)
    requires s.Running?
  {
    && m.payload in s.pending
    && |replies| == 2
    && |replies[0].data| <= 104 && |replies[1].data| <= 104
    && replies[0].to == from
    && GetPinfo(s.table, m.payload) == Found(replies[1].to)
    && DecodeMessage(replies[0].data)
       == Some(Message(Some(SuccessResponse), m.transactionId, AddressText(replies[1].to)))
    && DecodeMessage(replies[1].data)
       == Some(Message(Some(SuccessResponse), s.pending[m.payload].transactionId, AddressText(from)))
  }

  /** An accepted request ends the server, is answered together with the pending request of
      its destination, or is kept without an answer; this says exactly when. */
  lemma AcceptedRequestOutcome(s: Server, from: Address, m: Message, draw: nat)
    requires s.Running? && TablesOk(s) && AcceptedAs(s.table, from, m).Some?
    requires m.transactionId.Some? ==> m.transactionId.value < BitStrings.Pow2(96)
    ensures var (s', replies) := HandleMessage(s, from, m, draw);
            var pid := GetPid(s.table, from).value;
            && (s'.Crashed? <==> EndsServer(s, m, pid))
            && (replies != [] <==> !s'.Crashed? && m.payload in s.table.idInfo && s.pending[m.payload].dest == pid)
            && (replies != [] ==> AnswersBoth(s, from, m, replies))
  {
    hide AddressText, IsAddressValid, HandleRequest, SuccessBytes, DecodeMessage, BitStrings.Pow2, Closed,
         OfValidAddresses;
    var pid := GetPid(s.table, from).value;
    var o := HandleRequest(s.table, s.pending, from, m.transactionId, m.payload);
    RequestEffect(s, from, m.transactionId, m.payload, pid);
    if o.Paired? {
      PairingIs(s, from, m, pid);
      StoredAddressReads(s.table, m.payload);
      SuccessEncodable(o.pairing.id1, o.pairing.address2);
      SuccessEncodable(o.pairing.id2, o.pairing.address1);
    }
  }

  lemma PairingIs(s: Server, from: Address, m: Message, pid: PeerId)
    requires s.Running? && GetPid(s.table, from) == Some(pid)
    requires HandleRequest(s.table, s.pending, from, m.transactionId, m.payload).Paired?
    ensures m.payload in s.pending && m.payload != pid && GetPinfo(s.table, m.payload).Found?
    ensures HandleRequest(s.table, s.pending, from, m.transactionId, m.payload).pairing
            == Pairing(m.transactionId, GetPinfo(s.table, m.payload).address,
                       s.pending[m.payload].transactionId, from)
  {
    hide AddressText, IsAddressValid, ParseAddress, GetPinfo;
  }

  /** At any point of any run, the next datagram ends the server exactly when it does not
      decode, or is a request of a registered peer for a registered one that is the peer
      itself, has nothing pending, or wants it back while one of the two has no id. */
  lemma ServerEndsIff(arrivals: seq<Arrival>, a: Arrival)
    requires After(START, arrivals).server.Running? && a.draw < BitStrings.Pow2(96)
    ensures var s := After(START, arrivals).server;
            HandleDatagram(s, a.from, a.buffer, a.draw).0.Crashed?
            <==> match DecodeMessage(a.buffer)
                 case None => true
                 case Some(m) => AcceptedAs(s.table, a.from, m).Some? && EndsServer(s, m, GetPid(s.table, a.from).value)
  {
    hide After, AddressText, IsAddressValid, DecodeMessage, EndsServer, TablesOk, IndicationBytes,
         HandleRequest, PairReplies, BitStrings.Pow2;
    StartInv();
    RunKeepsInv(START, arrivals);
    var s := After(START, arrivals).server;
    if DecodeMessage(a.buffer).Some? {
      var m := DecodeMessage(a.buffer).value;
      if m.transactionId.Some? {
        DecodedIdFits(a.buffer);
      }
      if AcceptedAs(s.table, a.from, m).Some? {
        AcceptedRequestOutcome(s, a.from, m, a.draw);
      } else if m.messageType == Some(Request) && IsAddressValid(a.from) {
        UnregisteredIgnored(s, a.from, m.transactionId, m.payload);
      } else if IsAddressValid(a.from) {
        IndicationEncodable(a.draw, a.from);
      }
    }
  }

  /** At any point of any run, replies to a request come in pairs and each peer gets its own
      transaction id with the other's registered address. */
  lemma RepliesComeInPairs(arrivals: seq<Arrival>, a: Arrival)
    requires After(START, arrivals).server.Running?
    requires DecodeMessage(a.buffer).Some? && DecodeMessage(a.buffer).value.messageType == Some(Request)
    ensures var s := After(START, arrivals).server;
            var replies := HandleDatagram(s, a.from, a.buffer, a.draw).1;
            replies == [] || AnswersBoth(s, a.from, DecodeMessage(a.buffer).value, replies)
  {
    hide After, AddressText, IsAddressValid, DecodeMessage, AnswersBoth, TablesOk, HandleRequest,
         PairReplies, BitStrings.Pow2;
    StartInv();
    RunKeepsInv(START, arrivals);
    var s := After(START, arrivals).server;
    var m := DecodeMessage(a.buffer).value;
    if m.transactionId.Some? {
      DecodedIdFits(a.buffer);
    }
    if AcceptedAs(s.table, a.from, m).Some? {
      AcceptedRequestOutcome(s, a.from, m, a.draw);
    } else if IsAddressValid(a.from) {
      UnregisteredIgnored(s, a.from, m.transactionId, m.payload);
    }
  }

  /** The pairs of the ledger are the pairs that were answered: a datagram that leaves the server
      running adds one exactly when it is a request that is replied to, and then its own. */
  lemma PairsAreReplies(arrivals: seq<Arrival>, a: Arrival)
    requires After(START, arrivals).server.Running? && Advance(After(START, arrivals), a).server.Running?
    ensures DecodeMessage(a.buffer).Some?
    ensures var h := After(START, arrivals);
            var m := DecodeMessage(a.buffer).value;
            var answered := m.messageType == Some(Request)
                            && HandleDatagram(h.server, a.from, a.buffer, a.draw).1 != [];
            var pairs := Advance(h, a).ledger.pairs;
            && (answered ==> GetPid(h.server.table, a.from).Some?
                             && pairs == h.ledger.pairs + [(GetPid(h.server.table, a.from).value, m.payload)])
            && (!answered ==> pairs == h.ledger.pairs)
  {
    hide After, AddressText, IsAddressValid, DecodeMessage, AnswersBoth, TablesOk, HandleRequest,
         PairReplies, BitStrings.Pow2, EndsServer, Waiting, IndicationBytes;
    StartInv();
    RunKeepsInv(START, arrivals);
    var s := After(START, arrivals).server;
    var m := DecodeMessage(a.buffer).value;
    if m.transactionId.Some? {
      DecodedIdFits(a.buffer);
    }
    if AcceptedAs(s.table, a.from, m).Some? {
      AcceptedRequestOutcome(s, a.from, m, a.draw);
      MessageEffect(s, a.from, m, a.draw);
    } else if m.messageType == Some(Request) && IsAddressValid(a.from) {
      UnregisteredIgnored(s, a.from, m.transactionId, m.payload);
    }
  }

  // What a whole run sends.

  /** A run over one more datagram sends what it sent before and then the replies to that one; a
      server that has ended sends nothing more. */
  lemma {:induction false} ServeOneMore(s: Server, arrivals: seq<Arrival>, a: Arrival)
    ensures Serve(s, []) == (s, [])
    ensures var (s', sent) := Serve(s, arrivals);
            Serve(s, arrivals + [a])
            == if s'.Crashed? then (Crashed, sent)
               else (HandleDatagram(s', a.from, a.buffer, a.draw).0,
                     sent + HandleDatagram(s', a.from, a.buffer, a.draw).1)
    decreases |arrivals|
  {
    hide HandleDatagram;
    if s.Crashed? {
    } else if arrivals == [] {
      assert ([] + [a])[0] == a && ([] + [a])[1..] == [];
      var (s1, replies) := HandleDatagram(s, a.from, a.buffer, a.draw);
      assert replies + [] == [] + replies == replies;
    } else {
      var first := arrivals[0];
      var (s1, replies) := HandleDatagram(s, first.from, first.buffer, first.draw);
      ServeOneMore(s1, arrivals[1..], a);
      assert (arrivals + [a])[0] == first && (arrivals + [a])[1..] == arrivals[1..] + [a];
      var (s', sent) := Serve(s1, arrivals[1..]);
      if s'.Running? {
        var more := HandleDatagram(s', a.from, a.buffer, a.draw).1;
        assert replies + (sent + more) == replies + sent + more;
      }
    }
  }

  predicate IsSuccess(data: bytes) {
    DecodeMessage(data).Some? && DecodeMessage(data).value.messageType == Some(SuccessResponse)
  }

  /** The success responses among the replies, in order. */
  function Successes(replies: seq<Reply>): seq<Reply> {
    if replies == [] then []
    else
      var front, last := Successes(replies[..|replies| - 1]), replies[|replies| - 1];
      if IsSuccess(last.data) then front + [last] else front
  }

  lemma {:induction false} SuccessesOfConcat(left: seq<Reply>, right: seq<Reply>)
    ensures Successes(left + right) == Successes(left) + Successes(right)
    decreases |right|
  {
    hide IsSuccess;
    if right == [] {
      assert left + right == left;
    } else {
      assert (left + right)[..|left + right| - 1] == left + right[..|right| - 1];
      SuccessesOfConcat(left, right[..|right| - 1]);
    }
  }

  /** The replies to one datagram: to an indication with an id from a valid address one indication
      that tells the sender this address, to a matched request both success responses, and
      nothing to anything else. */
  predicate TurnSends(s: Server, from: Address, m: Message, draw: nat, replies: seq<Reply>)
    requires s.Running?
  {
    if m.messageType == Some(Indication) && IsAddressValid(from) && m.payload != "" then
      && |replies| == 1 && replies[0].to == from
      && DecodeMessage(replies[0].data) == Some(Message(Some(Indication), Some(draw), PublicInfoText(from)))
    else
      replies == [] || (m.messageType == Some(Request) && AnswersBoth(s, from, m, replies))
  }

  lemma TurnReplies(s: Server, from: Address, m: Message, draw: nat)
    requires s.Running? && TablesOk(s) && draw < BitStrings.Pow2(96)
    requires m.transactionId.Some? ==> m.transactionId.value < BitStrings.Pow2(96)
    ensures TurnSends(s, from, m, draw, HandleMessage(s, from, m, draw).1)
  {
    hide AddressText, IsAddressValid, DecodeMessage, AnswersBoth, TablesOk, HandleRequest, PairReplies,
         BitStrings.Pow2, PublicInfoText, IndicationBytes, AddPeer, EndsServer;
    if IsAddressValid(from) && m.messageType == Some(Indication) {
      IndicationEncodable(draw, from);
    } else if AcceptedAs(s.table, from, m).Some? {
      AcceptedRequestOutcome(s, from, m, draw);
    } else if IsAddressValid(from) && m.messageType == Some(Request) {
      UnregisteredIgnored(s, from, m.transactionId, m.payload);
    }
  }

  /** In any run, what the next datagram makes the server send. */
  lemma RunReplies(arrivals: seq<Arrival>, a: Arrival)
    requires After(START, arrivals).server.Running? && a.draw < BitStrings.Pow2(96)
    ensures var s := After(START, arrivals).server;
            var replies := HandleDatagram(s, a.from, a.buffer, a.draw).1;
            match DecodeMessage(a.buffer)
            case None => replies == []
            case Some(m) => TurnSends(s, a.from, m, a.draw, replies)
  {
    hide After, DecodeMessage, TurnSends, HandleMessage, BitStrings.Pow2;
    StartInv();
    RunKeepsInv(START, arrivals);
    if DecodeMessage(a.buffer).Some? {
      if DecodeMessage(a.buffer).value.transactionId.Some? {
        DecodedIdFits(a.buffer);
      }
      TurnReplies(After(START, arrivals).server, a.from, DecodeMessage(a.buffer).value, a.draw);
    }
  }

  /** The `n`-th datagram of the run is the request that matched this pair, and `first` and `second`
      are the responses to the two. */
  predicate PairAnswered(arrivals: seq<Arrival>, n: nat, pair: (PeerId, PeerId), first: Reply, second: Reply)
    requires n < |arrivals|
  {
    var s, a := After(START, arrivals[..n]).server, arrivals[n];
    && s.Running? && DecodeMessage(a.buffer).Some?
    && DecodeMessage(a.buffer).value.messageType == Some(Request)
    && GetPid(s.table, a.from) == Some(pair.0) && DecodeMessage(a.buffer).value.payload == pair.1
    && AnswersBoth(s, a.from, DecodeMessage(a.buffer).value, [first, second])
  }

  /** Each pair is answered by two of the responses, at a turn of its own, in order. */
  predicate AnsweredInTurn(arrivals: seq<Arrival>, pairs: seq<(PeerId, PeerId)>, answers: seq<Reply>, turns: seq<nat>) {
    && |turns| == |pairs| && |answers| == 2 * |pairs|
    && (forall i, j :: 0 <= i < j < |turns| ==> turns[i] < turns[j])
    && (forall k :: 0 <= k < |turns| ==>
          turns[k] < |arrivals| && PairAnswered(arrivals, turns[k], pairs[k], answers[2 * k], answers[2 * k + 1]))
  }

  lemma AnsweredStays(front: seq<Arrival>, a: Arrival, pairs: seq<(PeerId, PeerId)>, answers: seq<Reply>,
                      turns: seq<nat>)
    requires AnsweredInTurn(front, pairs, answers, turns)
    ensures AnsweredInTurn(front + [a], pairs, answers, turns)
  {
    hide PairAnswered;
    var arrivals := front + [a];
    forall k | 0 <= k < |turns|
      ensures PairAnswered(arrivals, turns[k], pairs[k], answers[2 * k], answers[2 * k + 1])
    {
      SameTurn(front, a, turns[k], pairs[k], answers[2 * k], answers[2 * k + 1]);
    }
  }

  lemma SameTurn(front: seq<Arrival>, a: Arrival, n: nat, pair: (PeerId, PeerId), first: Reply, second: Reply)
    requires n < |front| && PairAnswered(front, n, pair, first, second)
    ensures PairAnswered(front + [a], n, pair, first, second)
  {
    assert (front + [a])[..n] == front[..n] && (front + [a])[n] == front[n];
  }

  /** One more pair, answered by the last datagram. */
  lemma AnsweredOneMore(front: seq<Arrival>, a: Arrival, pairs: seq<(PeerId, PeerId)>, answers: seq<Reply>,
                        turns: seq<nat>, pair: (PeerId, PeerId), replies: seq<Reply>)
    requires AnsweredInTurn(front, pairs, answers, turns) && |replies| == 2
    requires PairAnswered(front + [a], |front|, pair, replies[0], replies[1])
    ensures AnsweredInTurn(front + [a], pairs + [pair], answers + replies, turns + [|front|])
  {
    hide PairAnswered;
    AnsweredStays(front, a, pairs, answers, turns);
    var all, allPairs, allTurns := answers + replies, pairs + [pair], turns + [|front|];
    forall k | 0 <= k < |allTurns|
      ensures allTurns[k] < |front + [a]|
      ensures PairAnswered(front + [a], allTurns[k], allPairs[k], all[2 * k], all[2 * k + 1])
    {
      if k == |turns| {
        assert all[2 * k] == replies[0] && all[2 * k + 1] == replies[1];
      } else {
        assert all[2 * k] == answers[2 * k] && all[2 * k + 1] == answers[2 * k + 1];
      }
    }
  }

  lemma CrashSendsNothing(s: Server, a: Arrival)
    requires s.Running? && HandleDatagram(s, a.from, a.buffer, a.draw).0.Crashed?
    ensures HandleDatagram(s, a.from, a.buffer, a.draw).1 == []
  {
    hide DecodeMessage, HandleRequest, PairReplies, IndicationBytes, IsAddressValid, AddPeer;
  }

  lemma SuccessesOfFew(first: Reply, second: Reply)
    ensures !IsSuccess(first.data) ==> Successes([first]) == []
    ensures IsSuccess(first.data) && IsSuccess(second.data) ==> Successes([first, second]) == [first, second]
  {
    hide IsSuccess;
    assert [first][..0] == [] && [first, second][..1] == [first];
    assert Successes([first]) == if IsSuccess(first.data) then [first] else [];
  }

  lemma SuccessesOfTurn(s: Server, from: Address, m: Message, draw: nat, replies: seq<Reply>)
    requires s.Running? && TurnSends(s, from, m, draw, replies)
    ensures Successes(replies) == if m.messageType == Some(Request) then replies else []
    ensures replies != [] && m.messageType == Some(Request) ==> AnswersBoth(s, from, m, replies)
  {
    hide DecodeMessage, AddressText, PublicInfoText, IsAddressValid, GetPinfo, Successes;
    NoSuccesses();
    if replies != [] {
      var second := replies[|replies| - 1];
      SuccessesOfFew(replies[0], second);
      if m.messageType == Some(Request) {
        assert replies == [replies[0], second];
      } else {
        assert replies == [replies[0]];
      }
    }
  }

  predicate Drawn(arrivals: seq<Arrival>) {
    forall i :: 0 <= i < |arrivals| ==> arrivals[i].draw < BitStrings.Pow2(96)
  }

  /** The pairs and responses of one more datagram to a running server. */
  lemma AnswersOneMore(front: seq<Arrival>, a: Arrival, turns: seq<nat>) returns (more: seq<nat>)
    requires After(START, front).server.Running? && a.draw < BitStrings.Pow2(96)
    requires AnsweredInTurn(front, After(START, front).ledger.pairs, Successes(Serve(INITIAL_SERVER, front).1), turns)
    ensures AnsweredInTurn(front + [a], After(START, front + [a]).ledger.pairs,
                           Successes(Serve(INITIAL_SERVER, front + [a]).1), more)
  {
    hide After, Serve, HandleDatagram, TurnSends, AnswersBoth, DecodeMessage, AnsweredInTurn, PairAnswered, Successes,
         Record, AcceptedAs, GetPid, BitStrings.Pow2;
    var h := After(START, front);
    var replies := HandleDatagram(h.server, a.from, a.buffer, a.draw).1;
    var pairs, answers := h.ledger.pairs, Successes(Serve(INITIAL_SERVER, front).1);
    HistoryFollowsServer(START, front);
    ServeOneMore(INITIAL_SERVER, front, a);
    AfterLast(START, front, a);
    SuccessesOfConcat(Serve(INITIAL_SERVER, front).1, replies);
    if Advance(h, a).server.Crashed? {
      CrashSendsNothing(h.server, a);
      assert Successes([]) == [] && answers + [] == answers by {
        NoSuccesses();
      }
      AnsweredStays(front, a, pairs, answers, turns);
      more := turns;
    } else {
      PairsAreReplies(front, a);
      RunReplies(front, a);
      var m := DecodeMessage(a.buffer).value;
      SuccessesOfTurn(h.server, a.from, m, a.draw, replies);
      if m.messageType == Some(Request) && replies != [] {
        TwoAnswers(h.server, a.from, m, replies);
        var pair := (GetPid(h.server.table, a.from).value, m.payload);
        LastTurn(front, a, pair, replies);
        AnsweredOneMore(front, a, pairs, answers, turns, pair, replies);
        more := turns + [|front|];
      } else {
        assert answers + [] == answers;
        AnsweredStays(front, a, pairs, answers, turns);
        more := turns;
      }
    }
  }

  lemma NoSuccesses()
    ensures Successes([]) == []
  {
  }

  lemma TwoAnswers(s: Server, from: Address, m: Message, replies: seq<Reply>)
    requires s.Running? && AnswersBoth(s, from, m, replies)
    ensures |replies| == 2 && replies == [replies[0], replies[1]]
  {
    hide DecodeMessage, AddressText;
  }

  lemma LastTurn(front: seq<Arrival>, a: Arrival, pair: (PeerId, PeerId), replies: seq<Reply>)
    requires After(START, front).server.Running? && DecodeMessage(a.buffer).Some? && |replies| == 2
    requires DecodeMessage(a.buffer).value.messageType == Some(Request)
    requires GetPid(After(START, front).server.table, a.from) == Some(pair.0)
    requires DecodeMessage(a.buffer).value.payload == pair.1 && replies == [replies[0], replies[1]]
    requires AnswersBoth(After(START, front).server, a.from, DecodeMessage(a.buffer).value, replies)
    ensures PairAnswered(front + [a], |front|, pair, replies[0], replies[1])
  {
    hide After, AnswersBoth, DecodeMessage, GetPid;
    assert (front + [a])[..|front|] == front;
  }

  /** Over every run: the success responses sent, in order, are two for each pair of the ledger,
      sent when its second request arrived, each to its peer with the peer's own transaction id
      and the address of the other. */
  lemma {:induction false} RunAnswersPairs(arrivals: seq<Arrival>) returns (turns: seq<nat>)
    requires Drawn(arrivals)
    ensures AnsweredInTurn(arrivals, After(START, arrivals).ledger.pairs,
                           Successes(Serve(INITIAL_SERVER, arrivals).1), turns)
    decreases |arrivals|
  {
    hide After, Serve, HandleDatagram, AnsweredInTurn, Successes, Advance, BitStrings.Pow2;
    if arrivals == [] {
      turns := [];
      NothingSent();
    } else {
      var front, a := arrivals[..|arrivals| - 1], arrivals[|arrivals| - 1];
      assert arrivals == front + [a];
      turns := RunAnswersPairs(front);
      if After(START, front).server.Running? {
        turns := AnswersOneMore(front, a, turns);
      } else {
        EndedStays(front, a);
        AnsweredStays(front, a, After(START, front).ledger.pairs, Successes(Serve(INITIAL_SERVER, front).1), turns);
      }
    }
  }

  lemma NothingSent()
    ensures AnsweredInTurn([], After(START, []).ledger.pairs, Successes(Serve(INITIAL_SERVER, []).1), [])
  {
  }

  lemma EndedStays(front: seq<Arrival>, a: Arrival)
    requires After(START, front).server.Crashed?
    ensures After(START, front + [a]) == After(START, front)
    ensures Serve(INITIAL_SERVER, front + [a]).1 == Serve(INITIAL_SERVER, front).1
  {
    hide After, Serve, HandleDatagram;
    HistoryFollowsServer(START, front);
    ServeOneMore(INITIAL_SERVER, front, a);
    AfterLast(START, front, a);
  }

  /** Where the requests go, one by one: an accepted request that leaves the server running replaces
      the pending one of its peer; it is pending itself when its destination is unknown, answered
      together with the pending one of the destination when that asks for the peer, and dropped
      together with it otherwise. */
  lemma LedgerMeaning(arrivals: seq<Arrival>, a: Arrival, x: Accepted)
    requires After(START, arrivals).server.Running? && Advance(After(START, arrivals), a).server.Running?
    requires DecodeMessage(a.buffer).Some?
    requires AcceptedAs(After(START, arrivals).server.table, a.from, DecodeMessage(a.buffer).value).Some?
    ensures var h := After(START, arrivals);
            var l, l', s := h.ledger, Advance(h, a).ledger, h.server;
            var r := AcceptedAs(s.table, a.from, DecodeMessage(a.buffer).value).value;
            var replaced := if x.pid == r.pid && IsPending(s.pending, x) then 1 else 0;
            var taken := (if x == r then 1 else 0) + (if x.pid == r.dest && IsPending(s.pending, x) then 1 else 0);
            var answered := HandleDatagram(s, a.from, a.buffer, a.draw).1 != [];
            && l'.accepted[x] == l.accepted[x] + (if x == r then 1 else 0)
            && l'.superseded[x] == l.superseded[x] + replaced
            && l'.matched[x] == l.matched[x] + (if answered then taken else 0)
            && l'.mismatched[x] == l.mismatched[x] + (if r.dest in s.table.idInfo && !answered then taken else 0)
  {
    hide After, AddressText, IsAddressValid, DecodeMessage, AnswersBoth, TablesOk, HandleMessage, BitStrings.Pow2,
         EndsServer, Waiting, IsPending;
    StartInv();
    RunKeepsInv(START, arrivals);
    var s, m := After(START, arrivals).server, DecodeMessage(a.buffer).value;
    if m.transactionId.Some? {
      DecodedIdFits(a.buffer);
    }
    var r := AcceptedAs(s.table, a.from, m).value;
    AcceptedRequestOutcome(s, a.from, m, a.draw);
    MessageEffect(s, a.from, m, a.draw);
    WaitingCount(s.pending, r.pid, x);
    WaitingCount(s.pending, r.dest, x);
  }
}
