/** The server's two-way table of peer ids and public addresses. */
module MatchTables {
  import opened Wrappers
  import opened Addresses

  type PeerId = string

  datatype Table = Table(infoId: map<string, PeerId>, idInfo: map<PeerId, string>)

  const EMPTY_TABLE := Table(map[], map[])

  function AddPeer(t: Table, pid: PeerId, a: Address): Table {
    var info := AddressText(a);
    Table(t.infoId[info := pid], t.idInfo[pid := info])
  }

  function GetPid(t: Table, a: Address): Option<PeerId> {
    var info := AddressText(a);
    if info in t.infoId then Some(t.infoId[info]) else None
  }

  /** Outcome of `get_pinfo`; `Raised` where the stored text cannot be split into an address. */
  datatype Lookup = Unknown | Found(address: Address) | Raised

  function GetPinfo(t: Table, pid: PeerId): Lookup {
    if pid !in t.idInfo then Unknown
    else
      match ParseAddress(t.idInfo[pid])
      case None => Raised
      case Some((ip, port)) => if port < 0 then Raised else Found(Address(ip, port))
  }

  class MatchTable {
    var infoIdDict: map<string, PeerId>
    var idInfoDict: map<PeerId, string>

    function View(): Table
      reads this
    {
      Table(infoIdDict, idInfoDict)
    }

    constructor ()
      ensures View() == EMPTY_TABLE
    {
      infoIdDict, idInfoDict := map[], map[];
    }

    method Add(pid: PeerId, a: Address)
      modifies this
      ensures View() == AddPeer(old(View()), pid, a)
    {
      var info := AddressText(a);
      infoIdDict := infoIdDict[info := pid];
      idInfoDict := idInfoDict[pid := info];
    }
  }

  /** A registration the server accepted. */
  datatype Registration = Registration(pid: PeerId, address: Address)

  function Register(t: Table, rs: seq<Registration>): Table {
    if rs == [] then t
    else
      var last := rs[|rs| - 1];
      AddPeer(Register(t, rs[..|rs| - 1]), last.pid, last.address)
  }

  /** Each id's address is a key of the other dictionary and each address's id of the first. */
  predicate Closed(t: Table) {
    && (forall pid :: pid in t.idInfo ==> t.idInfo[pid] in t.infoId)
    && (forall info :: info in t.infoId ==> t.infoId[info] in t.idInfo)
  }

  ghost predicate OfValidAddresses(t: Table) {
    forall info :: info in t.infoId ==> exists a :: IsAddressValid(a) && AddressText(a) == info
  }

  /** The dictionaries are inverse bijections. */
  predicate Inverse(t: Table) {
    && (forall pid :: pid in t.idInfo ==> t.idInfo[pid] in t.infoId && t.infoId[t.idInfo[pid]] == pid)
    && (forall info :: info in t.infoId ==> t.infoId[info] in t.idInfo && t.idInfo[t.infoId[info]] == info)
  }

  lemma AddKeepsClosed(t: Table, pid: PeerId, a: Address)
    requires Closed(t)
    ensures Closed(AddPeer(t, pid, a))
  {
  }

  lemma AddKeepsValid(t: Table, pid: PeerId, a: Address)
    requires OfValidAddresses(t) && IsAddressValid(a)
    ensures OfValidAddresses(AddPeer(t, pid, a))
  {
    hide IsAddressValid, AddressText;
  }

  /** A registration keeps the dictionaries inverse exactly when it repeats an entry or when
      both the id and the address are new. */
  lemma AddKeepsInverseIff(t: Table, pid: PeerId, a: Address)
    requires Inverse(t)
    ensures Inverse(AddPeer(t, pid, a))
            <==> || (pid !in t.idInfo && AddressText(a) !in t.infoId)
                 || (pid in t.idInfo && t.idInfo[pid] == AddressText(a))
  {
    hide AddressText;
    var info := AddressText(a);
    var t' := AddPeer(t, pid, a);
    if pid in t.idInfo && t.idInfo[pid] != info {
      assert t'.infoId[t.idInfo[pid]] == pid && t'.idInfo[pid] != t.idInfo[pid];
    }
    if info in t.infoId && t.infoId[info] != pid {
      assert t'.idInfo[t.infoId[info]] == info && t'.infoId[info] != t.infoId[info];
    }
  }

  /** Id and address are paired the same way by every registration. */
  predicate Consistent(rs: seq<Registration>) {
    forall i, j :: 0 <= i < j < |rs| ==>
      (rs[i].pid == rs[j].pid <==> AddressText(rs[i].address) == AddressText(rs[j].address))
  }

  /** Both dictionaries hold exactly the registrations made: the last one of each key wins. */
  lemma {:induction false} LastRegistrationWins(rs: seq<Registration>, i: nat)
    requires i < |rs|
    ensures var t := Register(EMPTY_TABLE, rs);
            && rs[i].pid in t.idInfo && AddressText(rs[i].address) in t.infoId
            && ((forall j :: i < j < |rs| ==> rs[j].pid != rs[i].pid)
                ==> t.idInfo[rs[i].pid] == AddressText(rs[i].address))
            && ((forall j :: i < j < |rs| ==> AddressText(rs[j].address) != AddressText(rs[i].address))
                ==> t.infoId[AddressText(rs[i].address)] == rs[i].pid)
    decreases |rs|
  {
    hide AddressText;
    if i == |rs| - 1 {
    } else {
      LastRegistrationWins(rs[..|rs| - 1], i);
    }
  }

  /** Registrations that agree with one another so far stay so exactly when the next one repeats
      an entry of the table or is new in both dictionaries. */
  lemma ConsistentGrows(rs: seq<Registration>, r: Registration)
    requires Consistent(rs)
    ensures var t, info := Register(EMPTY_TABLE, rs), AddressText(r.address);
            Consistent(rs + [r])
            <==> (r.pid !in t.idInfo && info !in t.infoId) || (r.pid in t.idInfo && t.idInfo[r.pid] == info)
  {
    hide AddressText, Register;
    var t, info, longer := Register(EMPTY_TABLE, rs), AddressText(r.address), rs + [r];
    OnlyRegistered(rs);
    forall i | 0 <= i < |rs|
      ensures t.idInfo.Keys >= {rs[i].pid} && t.idInfo[rs[i].pid] == AddressText(rs[i].address)
      ensures t.infoId.Keys >= {AddressText(rs[i].address)} && t.infoId[AddressText(rs[i].address)] == rs[i].pid
    {
      ConsistentEntry(rs, i);
    }
    assert longer[|rs|] == r && forall i :: 0 <= i < |rs| ==> longer[i] == rs[i];
    assert r.pid in t.idInfo ==> Made(rs, r.pid, t.idInfo[r.pid]);
    assert info in t.infoId ==> Made(rs, t.infoId[info], info);
  }

  /** The dictionaries are inverse all along exactly when no id and no address was ever paired
      in two ways. */
  lemma {:induction false} InverseThroughoutIff(rs: seq<Registration>)
    ensures (forall k :: 0 <= k <= |rs| ==> Inverse(Register(EMPTY_TABLE, rs[..k]))) <==> Consistent(rs)
    decreases |rs|
  {
    hide AddressText, Register, Inverse;
    if rs == [] {
      EmptyIsInverse();
      assert forall k :: 0 <= k <= |rs| ==> rs[..k] == [];
    } else {
      var front, last := rs[..|rs| - 1], rs[|rs| - 1];
      InverseThroughoutIff(front);
      assert forall k :: 0 <= k < |rs| ==> rs[..k] == front[..k];
      assert rs[..|rs|] == rs == front + [last] && front[..|front|] == front;
      RegisterLast(EMPTY_TABLE, front, last);
      if Consistent(rs) {
        assert forall i :: 0 <= i < |front| ==> front[i] == rs[i];
      }
      if Consistent(front) {
        ConsistentGrows(front, last);
        AddKeepsInverseIff(Register(EMPTY_TABLE, front), last.pid, last.address);
      }
    }
  }

  lemma EmptyIsInverse()
    ensures Inverse(Register(EMPTY_TABLE, []))
  {
  }

  lemma RegisterLast(t: Table, rs: seq<Registration>, r: Registration)
    ensures Register(t, rs + [r]) == AddPeer(Register(t, rs), r.pid, r.address)
  {
    hide AddPeer;
    assert (rs + [r])[..|rs|] == rs;
  }

  lemma {:induction false} RegisterFirst(t: Table, r: Registration, rs: seq<Registration>)
    ensures Register(t, [r] + rs) == Register(AddPeer(t, r.pid, r.address), rs)
    decreases |rs|
  {
    hide Register, AddPeer;
    if rs == [] {
      NoRegistrations(t);
      NoRegistrations(AddPeer(t, r.pid, r.address));
      RegisterLast(t, [], r);
      assert [r] + rs == [] + [r];
    } else {
      var front, last := rs[..|rs| - 1], rs[|rs| - 1];
      RegisterFirst(t, r, front);
      RegisterLast(t, [r] + front, last);
      RegisterLast(AddPeer(t, r.pid, r.address), front, last);
      assert [r] + rs == [r] + front + [last] && rs == front + [last];
    }
  }

  lemma NoRegistrations(t: Table)
    ensures Register(t, []) == t
  {
  }

  predicate Made(rs: seq<Registration>, pid: PeerId, info: string) {
    exists i :: 0 <= i < |rs| && rs[i].pid == pid && AddressText(rs[i].address) == info
  }

  lemma MadeBefore(rs: seq<Registration>, pid: PeerId, info: string)
    requires rs != [] && Made(rs[..|rs| - 1], pid, info)
    ensures Made(rs, pid, info)
  {
    hide AddressText;
    var front := rs[..|rs| - 1];
    var i :| 0 <= i < |front| && front[i].pid == pid && AddressText(front[i].address) == info;
    assert rs[i].pid == pid;
  }

  predicate HoldsOnly(t: Table, rs: seq<Registration>) {
    && (forall pid :: pid in t.idInfo ==> Made(rs, pid, t.idInfo[pid]))
    && (forall info :: info in t.infoId ==> Made(rs, t.infoId[info], info))
  }

  /** The dictionaries hold nothing that was not registered. */
  lemma {:induction false} OnlyRegistered(rs: seq<Registration>)
    ensures HoldsOnly(Register(EMPTY_TABLE, rs), rs)
    decreases |rs|
  {
    hide AddressText, Made;
    if rs != [] {
      var front, last := rs[..|rs| - 1], rs[|rs| - 1];
      OnlyRegistered(front);
      var t0, t := Register(EMPTY_TABLE, front), Register(EMPTY_TABLE, rs);
      LastIsMade(rs);
      assert t == AddPeer(t0, last.pid, last.address);
      forall pid | pid in t.idInfo ensures Made(rs, pid, t.idInfo[pid]) {
        if pid != last.pid {
          assert Made(front, pid, t0.idInfo[pid]);
          MadeBefore(rs, pid, t0.idInfo[pid]);
        }
      }
      forall info | info in t.infoId ensures Made(rs, t.infoId[info], info) {
        if info != AddressText(last.address) {
          assert Made(front, t0.infoId[info], info);
          MadeBefore(rs, t0.infoId[info], info);
        }
      }
    }
  }

  lemma LastIsMade(rs: seq<Registration>)
    requires rs != []
    ensures Made(rs, rs[|rs| - 1].pid, AddressText(rs[|rs| - 1].address))
  {
  }

  lemma ConsistentEntry(rs: seq<Registration>, i: nat)
    requires Consistent(rs) && i < |rs|
    ensures var t, info := Register(EMPTY_TABLE, rs), AddressText(rs[i].address);
            && rs[i].pid in t.idInfo && t.idInfo[rs[i].pid] == info
            && info in t.infoId && t.infoId[info] == rs[i].pid
  {
    hide AddressText, Register;
    LastRegistrationWins(rs, i);
    OnlyRegistered(rs);
    var t := Register(EMPTY_TABLE, rs);
    var j :| 0 <= j < |rs| && rs[j].pid == rs[i].pid && AddressText(rs[j].address) == t.idInfo[rs[i].pid];
    var info := AddressText(rs[i].address);
    var k :| 0 <= k < |rs| && rs[k].pid == t.infoId[info] && AddressText(rs[k].address) == info;
  }

  /** After registrations that never pair an id or an address in two ways, the dictionaries are
      inverse and looking an id up gives exactly the address it was registered with. */
  lemma ConsistentRegistrations(rs: seq<Registration>)
    requires Consistent(rs) && forall i :: 0 <= i < |rs| ==> IsAddressValid(rs[i].address)
    ensures Inverse(Register(EMPTY_TABLE, rs))
    ensures forall i :: 0 <= i < |rs| ==>
              && GetPinfo(Register(EMPTY_TABLE, rs), rs[i].pid) == Found(rs[i].address)
              && GetPid(Register(EMPTY_TABLE, rs), rs[i].address) == Some(rs[i].pid)
  {
    hide AddressText, IsAddressValid, ParseAddress, Register, Consistent;
    var t := Register(EMPTY_TABLE, rs);
    OnlyRegistered(rs);
    forall pid | pid in t.idInfo
      ensures t.idInfo[pid] in t.infoId && t.infoId[t.idInfo[pid]] == pid
    {
      var i :| 0 <= i < |rs| && rs[i].pid == pid && AddressText(rs[i].address) == t.idInfo[pid];
      ConsistentEntry(rs, i);
    }
    forall info | info in t.infoId
      ensures t.infoId[info] in t.idInfo && t.idInfo[t.infoId[info]] == info
    {
      assert Made(rs, t.infoId[info], info);
      var i :| 0 <= i < |rs| && rs[i].pid == t.infoId[info] && AddressText(rs[i].address) == info;
      ConsistentEntry(rs, i);
    }
    forall i | 0 <= i < |rs|
      ensures GetPinfo(t, rs[i].pid) == Found(rs[i].address)
      ensures GetPid(t, rs[i].address) == Some(rs[i].pid)
    {
      ConsistentEntry(rs, i);
      AddressRoundTrip(rs[i].address);
    }
  }

  /** Looking up finds nothing exactly for an id that was never registered. */
  lemma UnknownIdIff(rs: seq<Registration>, pid: PeerId)
    ensures GetPinfo(Register(EMPTY_TABLE, rs), pid) == Unknown <==> forall i :: 0 <= i < |rs| ==> rs[i].pid != pid
  {
    hide AddressText, ParseAddress, Register;
    OnlyRegistered(rs);
    var t := Register(EMPTY_TABLE, rs);
    if i :| 0 <= i < |rs| && rs[i].pid == pid {
      LastRegistrationWins(rs, i);
    } else {
      assert pid in t.idInfo ==> Made(rs, pid, t.idInfo[pid]);
    }
  }

  /** Nor for an address that was never registered. */
  lemma UnknownAddressIff(rs: seq<Registration>, a: Address)
    ensures GetPid(Register(EMPTY_TABLE, rs), a) == None
            <==> forall i :: 0 <= i < |rs| ==> AddressText(rs[i].address) != AddressText(a)
  {
    hide AddressText, ParseAddress, Register;
    OnlyRegistered(rs);
    var t, info := Register(EMPTY_TABLE, rs), AddressText(a);
    if i :| 0 <= i < |rs| && AddressText(rs[i].address) == info {
      LastRegistrationWins(rs, i);
    } else {
      assert info in t.infoId ==> Made(rs, t.infoId[info], info);
    }
  }
}
