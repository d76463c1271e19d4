/** The access point's table of associated stations and its allocation of association ids. */
module ApAssociation {
  import opened Addresses

  const MAX_ASSOCIATION_ID: nat := 2007

  type Table = map<MacAddress, nat>

  /** Ids are in 1..2007 and no two stations share one. */
  ghost predicate Distinct(table: Table) {
    && (forall a :: a in table ==> 1 <= table[a] <= MAX_ASSOCIATION_ID)
    && (forall a, b :: a in table && b in table && a != b ==> table[a] != table[b])
  }

  ghost predicate Held(table: Table, id: nat) {
    exists a :: a in table && table[a] == id
  }

  // ---------------------------------------------------------------------------------
  // Counting

  /** Distinct ids drawn from 1..n are at most n. */
  lemma {:induction false} AtMost(table: Table, n: nat)
    requires forall a :: a in table ==> 1 <= table[a] <= n
    requires forall a, b :: a in table && b in table && a != b ==> table[a] != table[b]
    ensures |table| <= n
    decreases n
  {
    if n == 0 {
      assert table == map[];
    } else if a :| a in table && table[a] == n {
      AtMost(table - {a}, n - 1);
      assert table.Keys == (table - {a}).Keys + {a};
    } else {
      AtMost(table, n - 1);
    }
  }

  /** If every id in 1..n is held, there are at least n stations. */
  lemma {:induction false} AtLeast(table: Table, n: nat)
    requires forall id :: 1 <= id <= n ==> Held(table, id)
    ensures |table| >= n
    decreases n
  {
    if n > 0 {
      assert Held(table, n);
      var a :| a in table && table[a] == n;
      var rest := table - {a};
      forall id | 1 <= id <= n - 1
        ensures Held(rest, id)
      {
        assert Held(table, id);
        var b :| b in table && table[b] == id;
        assert b in rest && rest[b] == id;
      }
      AtLeast(rest, n - 1);
      assert table.Keys == rest.Keys + {a};
    }
  }

  /** Some id is free exactly when fewer than 2007 stations are associated. */
  lemma {:induction false} FreeIffRoom(table: Table)
    requires Distinct(table)
    ensures (exists id :: 1 <= id <= MAX_ASSOCIATION_ID && !Held(table, id)) <==> |table| < MAX_ASSOCIATION_ID
  {
    AtMost(table, MAX_ASSOCIATION_ID);
    if |table| < MAX_ASSOCIATION_ID {
      if forall id :: 1 <= id <= MAX_ASSOCIATION_ID ==> Held(table, id) {
        AtLeast(table, MAX_ASSOCIATION_ID);
      }
    } else if id :| 1 <= id <= MAX_ASSOCIATION_ID && !Held(table, id) {
      FullLeavesNone(table, id);
    }
  }

  lemma {:induction false} FullLeavesNone(table: Table, id: nat)
    requires Distinct(table) && 1 <= id <= MAX_ASSOCIATION_ID && !Held(table, id)
    ensures |table| < MAX_ASSOCIATION_ID
  {
    var newcomer := Newcomer(table);
    var more := table[newcomer := id];
    forall a | a in table
      ensures table[a] != id
    {
      assert !(table[a] == id) || Held(table, id);
    }
    AtMost(more, MAX_ASSOCIATION_ID);
    assert more.Keys == table.Keys + {newcomer};
  }

  /** An address that is not in the table. */
  ghost function Newcomer(table: Table): (a: MacAddress)
    ensures a !in table
  {
    OutsideExists(table.Keys);
    var a :| a !in table;
    a
  }

  lemma {:induction false} OutsideExists(keys: set<MacAddress>)
    ensures exists a: MacAddress :: a !in keys && forall k :: k in keys ==> k < a
  {
    if keys == {} {
      assert 0 !in keys;
    } else {
      var x :| x in keys;
      OutsideExists(keys - {x});
      var a: MacAddress :| a !in keys - {x} && forall k :: k in keys - {x} ==> k < a;
      var b := if x < a then a else x + 1;
      assert forall k :: k in keys ==> k == x || k in keys - {x};
      assert b !in keys && forall k :: k in keys ==> k < b;
    }
  }

  // ---------------------------------------------------------------------------------
  // The allocator as a function

  datatype Ap = Ap(table: Table, current: nat)

  ghost predicate Inv(s: Ap) {
    && Distinct(s.table) && s.current <= MAX_ASSOCIATION_ID
    && forall a :: a in s.table ==> s.table[a] <= s.current
  }

  ghost function LeastFree(table: Table, from: nat): (id: nat)
    requires from <= MAX_ASSOCIATION_ID
    ensures from <= id <= MAX_ASSOCIATION_ID && forall i :: from <= i < id ==> Held(table, i)
    ensures Held(table, id) ==> forall i :: from <= i <= MAX_ASSOCIATION_ID ==> Held(table, i)
    decreases MAX_ASSOCIATION_ID - from
  {
    if !Held(table, from) || from == MAX_ASSOCIATION_ID then from else LeastFree(table, from + 1)
  }

  /** The id a newcomer gets: a new one as long as there are any, then the least free one. */
  ghost function Pick(s: Ap): nat {
    if s.current < MAX_ASSOCIATION_ID then s.current + 1 else LeastFree(s.table, 1)
  }

  /** A newcomer gets an id that nobody holds, exactly when fewer than 2007 are associated. */
  lemma {:induction false} PickIsFree(s: Ap)
    requires Inv(s)
    ensures 1 <= Pick(s) <= MAX_ASSOCIATION_ID
    ensures !Held(s.table, Pick(s)) <==> |s.table| < MAX_ASSOCIATION_ID
  {
    FreeIffRoom(s.table);
  }

  datatype Request =
    | Associate(address: MacAddress)
    | Reassociate(address: MacAddress, from: MacAddress)
    | Disassociate(address: MacAddress)

  ghost predicate Admits(s: Ap, a: MacAddress) {
    a in s.table || |s.table| < MAX_ASSOCIATION_ID
  }

  ghost function Admit(s: Ap, a: MacAddress): Ap {
    if a in s.table || !Admits(s, a) then s
    else Ap(s.table[a := Pick(s)], if s.current < MAX_ASSOCIATION_ID then s.current + 1 else s.current)
  }

  ghost function Next(s: Ap, e: Request): Ap {
    match e
    case Associate(a) => Admit(s, a)
    case Reassociate(a, _) => Admit(s, a)
    case Disassociate(a) => s.(table := s.table - {a})
  }

  lemma {:induction false} NextKeepsInv(s: Ap, e: Request)
    requires Inv(s)
    ensures Inv(Next(s, e))
  {
    PickIsFree(s);
    if !Held(s.table, Pick(s)) {
      assert forall a :: a in s.table ==> s.table[a] != Pick(s);
    }
  }

  /** A request for association lets in exactly whom it finds or has room for, at the expense of
      nobody. */
  lemma {:induction false} AdmissionIff(s: Ap, e: Request, a: MacAddress, s': Ap)
    requires Inv(s) && s' == Next(s, e) && (e == Associate(a) || (e.Reassociate? && e.address == a))
    ensures a in s'.table <==> a in s.table || |s.table| < MAX_ASSOCIATION_ID
    ensures forall b :: b != a ==> (b in s'.table <==> b in s.table)
    ensures forall b :: b in s.table ==> s'.table[b] == s.table[b]
  {
  }

  /** A station that disassociates is gone, its id is held by nobody, and no other is touched. */
  lemma {:induction false} DisassociationFrees(s: Ap, a: MacAddress, s': Ap)
    requires Inv(s) && s' == Next(s, Disassociate(a))
    ensures a !in s'.table && s'.current == s.current
    ensures a in s.table ==> !Held(s'.table, s.table[a])
    ensures forall b :: b != a ==> (b in s'.table <==> b in s.table) && (b in s.table ==> s'.table[b] == s.table[b])
  {
  }

  /** Ids are new as long as there are any; after that a newcomer gets the least one that is free. */
  lemma {:induction false} PickIsLeast(s: Ap)
    requires Inv(s) && |s.table| < MAX_ASSOCIATION_ID
    ensures s.current < MAX_ASSOCIATION_ID ==> Pick(s) == s.current + 1
    ensures s.current == MAX_ASSOCIATION_ID ==> forall i :: 1 <= i < Pick(s) ==> Held(s.table, i)
    ensures !Held(s.table, Pick(s))
  {
    PickIsFree(s);
  }

  lemma {:induction false} FreedIdIsPicked(s: Ap, a: MacAddress, s': Ap)
    requires Inv(s) && |s.table| == MAX_ASSOCIATION_ID && a in s.table && s' == Next(s, Disassociate(a))
    ensures Inv(s') && |s'.table| < MAX_ASSOCIATION_ID && s'.current == MAX_ASSOCIATION_ID
    ensures Pick(s') == s.table[a]
  {
    assert s.table.Keys == s'.table.Keys + {a};
    AtMost(s.table, s.current);
    NextKeepsInv(s, Disassociate(a));
    PickIsFree(s');
    FreeIffRoom(s.table);
    HeldAfterErase(s.table, a);
  }

  /** When the table is full and one station leaves, the next newcomer gets its id. */
  lemma {:induction false} FreedIdComesBack(s: Ap, a: MacAddress, b: MacAddress, t: Ap)
    requires Inv(s) && |s.table| == MAX_ASSOCIATION_ID && a in s.table && b !in s.table
    requires t == Next(Next(s, Disassociate(a)), Associate(b))
    ensures b in t.table && t.table[b] == s.table[a]
  {
    FreedIdIsPicked(s, a, Next(s, Disassociate(a)));
  }

  // ---------------------------------------------------------------------------------
  // Runs

  ghost function After(run: seq<Request>): Ap {
    if run == [] then Ap(map[], 0) else Next(After(run[..|run| - 1]), run[|run| - 1])
  }

  /** Over any sequence of associations and disassociations: ids in range, and pairwise distinct. */
  lemma {:induction false} IdsStayDistinct(run: seq<Request>)
    ensures Inv(After(run))
  {
    if run != [] {
      IdsStayDistinct(run[..|run| - 1]);
      NextKeepsInv(After(run[..|run| - 1]), run[|run| - 1]);
    }
  }

  lemma {:induction false} StepKeepsId(s: Ap, e: Request, a: MacAddress)
    requires a in s.table && e != Disassociate(a)
    ensures a in Next(s, e).table && Next(s, e).table[a] == s.table[a]
  {
  }

  /** A station keeps its id from whenever it is associated until it disassociates. */
  lemma {:induction false} IdIsKept(run: seq<Request>, since: nat, a: MacAddress)
    requires since <= |run| && a in After(run[..since]).table
    requires forall i :: since <= i < |run| ==> run[i] != Disassociate(a)
    ensures a in After(run).table && After(run).table[a] == After(run[..since]).table[a]
  {
    var n := |run| - 1;
    if since == |run| {
      assert run[..since] == run;
    } else {
      assert run[..n][..since] == run[..since];
      IdIsKept(run[..n], since, a);
      StepKeepsId(After(run[..n]), run[n], a);
    }
  }

  /** Request `i` let station `a` in, for good. */
  ghost predicate JoinsAt(run: seq<Request>, i: int, a: MacAddress) {
    && 0 <= i < |run| && !run[i].Disassociate? && run[i].address == a
    && (a in After(run[..i]).table || |After(run[..i]).table| < MAX_ASSOCIATION_ID)
    && forall j :: i < j < |run| ==> run[j] != Disassociate(a)
  }

  ghost predicate Joined(run: seq<Request>, a: MacAddress) {
    exists i :: JoinsAt(run, i, a)
  }

  lemma {:induction false} JoinedByLast(run: seq<Request>, a: MacAddress, before: seq<Request>, e: Request)
    requires run != [] && before == run[..|run| - 1] && e == run[|run| - 1]
    ensures Joined(run, a) <==> JoinsAt(run, |before|, a) || (Joined(before, a) && e != Disassociate(a))
  {
    forall i | 0 <= i < |before|
      ensures JoinsAt(run, i, a) <==> JoinsAt(before, i, a) && e != Disassociate(a)
    {
      assert run[..i] == before[..i];
      assert forall j :: i < j < |before| ==> run[j] == before[j];
    }
    if i :| JoinsAt(run, i, a) {
      assert i == |before| || JoinsAt(before, i, a);
    }
    if i :| JoinsAt(before, i, a) {
      assert JoinsAt(run, i, a) <==> e != Disassociate(a);
    }
  }

  /** Over every run, a station is associated exactly if some request let it in and no later one
      took it out. */
  lemma {:induction false} AssociatedIff(run: seq<Request>, a: MacAddress)
    ensures a in After(run).table <==> Joined(run, a)
  {
    if run != [] {
      var before, e := run[..|run| - 1], run[|run| - 1];
      AssociatedIff(before, a);
      IdsStayDistinct(before);
      JoinedByLast(run, a, before, e);
    }
  }

  /** The ids given to newcomers, in order. */
  ghost function Issued(run: seq<Request>): seq<nat> {
    if run == [] then []
    else
      var s := After(run[..|run| - 1]);
      var e := run[|run| - 1];
      Issued(run[..|run| - 1]) +
      (if e.Disassociate? || e.address in s.table || !Admits(s, e.address) then [] else [Pick(s)])
  }

  /** The first 2007 newcomers get 1, 2, 3, … whoever leaves in between: no id is used a second
      time before every id was used once. */
  lemma {:induction false} NoEarlyReuse(run: seq<Request>, i: nat)
    requires i < |Issued(run)| && i < MAX_ASSOCIATION_ID
    ensures Issued(run)[i] == i + 1
  {
    var n := |run| - 1;
    CounterCountsIssued(run[..n]);
    if i < |Issued(run[..n])| {
      NoEarlyReuse(run[..n], i);
    }
  }

  lemma {:induction false} CounterCountsIssued(run: seq<Request>)
    ensures After(run).current == (if |Issued(run)| < MAX_ASSOCIATION_ID then |Issued(run)| else MAX_ASSOCIATION_ID)
  {
    if run != [] {
      CounterCountsIssued(run[..|run| - 1]);
    }
  }

  // ---------------------------------------------------------------------------------

  /** An id for the newcomer, or the assertion that there are too many stations. */
  datatype Allocation = Allocated(id: nat) | TooManyStations

  /** What is sent to stations, other access points and the network layer. */
  datatype Message =
    | NewLink(to: MacAddress)
    | AssociationResponse(to: MacAddress, id: nat)
    | ReassociationResponse(to: MacAddress, id: nat)
    | ReassociationNotification(station: MacAddress, previousAp: MacAddress)

  class Dot11ApManagementController {
    var associatedStaInformation: Table
    var associationIdIsBeingUsed: seq<bool>
    var currentAssociationId: nat

    ghost function Abs(): Ap
      reads this
    {
      Ap(associatedStaInformation, currentAssociationId)
    }

    /** The bit of an id is set exactly while some station holds it. */
    ghost predicate Valid()
      reads this
    {
      && |associationIdIsBeingUsed| == MAX_ASSOCIATION_ID + 1
      && Inv(Abs())
      && forall id :: 0 <= id <= MAX_ASSOCIATION_ID ==>
           (associationIdIsBeingUsed[id] <==> Held(associatedStaInformation, id))
    }

    constructor ()
      ensures Valid() && Abs() == After([])
    {
      associatedStaInformation := map[];
      associationIdIsBeingUsed := seq(MAX_ASSOCIATION_ID + 1, i => false);
      currentAssociationId := 0;
    }

    predicate IsAnAssociatedStaAddress(address: MacAddress)
      reads this
    {
      address in associatedStaInformation
    }

    /** The least free id, once every id has been handed out at least once. */
    method FindFree() returns (id: nat)
      requires Valid()
      ensures id == 0 <==> forall i :: 1 <= i <= MAX_ASSOCIATION_ID ==> associationIdIsBeingUsed[i]
      ensures id != 0 ==>
                && id <= MAX_ASSOCIATION_ID && !associationIdIsBeingUsed[id]
                && forall i :: 1 <= i < id ==> associationIdIsBeingUsed[i]
    {
      var i := 1;
      while i <= MAX_ASSOCIATION_ID
        invariant 1 <= i <= MAX_ASSOCIATION_ID + 1
        invariant forall j :: 1 <= j < i ==> associationIdIsBeingUsed[j]
      {
        if !associationIdIsBeingUsed[i] {
          return i;
        }
        i := i + 1;
      }
      return 0;
    }

    method AddNewAssociatedStaRecord(staAddress: MacAddress) returns (r: Allocation)
      requires Valid() && !IsAnAssociatedStaAddress(staAddress)
      modifies this
      ensures Valid() && Abs() == Admit(old(Abs()), staAddress)
      ensures r == if Admits(old(Abs()), staAddress) then Allocated(Pick(old(Abs()))) else TooManyStations
    {
      ghost var s := Abs();
      PickIsFree(s);
      var id;
      if currentAssociationId < MAX_ASSOCIATION_ID {
        currentAssociationId := currentAssociationId + 1;
        id := currentAssociationId;
      } else {
        id := FindFree();
        LeastFreeIs(s.table, id);
        if id == 0 {
          return TooManyStations;
        }
      }
      associationIdIsBeingUsed := associationIdIsBeingUsed[id := true];
      associatedStaInformation := associatedStaInformation[staAddress := id];
      HeldAfterAdd(s.table, staAddress, id);
      NextKeepsInv(s, Associate(staAddress));
      return Allocated(id);
    }

    method ProcessAssociationRequestFrame(address: MacAddress) returns (r: Allocation, sent: seq<Message>)
      requires Valid()
      modifies this
      ensures Valid() && Abs() == Next(old(Abs()), Associate(address))
      ensures r.Allocated? <==> Admits(old(Abs()), address)
      ensures r.Allocated? ==>
                && address in associatedStaInformation && r.id == associatedStaInformation[address]
                && sent == [NewLink(address), AssociationResponse(address, r.id)]
      ensures r == TooManyStations ==> sent == []
    {
      sent := [];
      if !IsAnAssociatedStaAddress(address) {
        r := AddNewAssociatedStaRecord(address);
        if r == TooManyStations {
          return;
        }
      }
      sent := sent + [NewLink(address)];
      r := Allocated(associatedStaInformation[address]);
      sent := sent + [AssociationResponse(address, associatedStaInformation[address])];
    }

    method ProcessReassociationRequestFrame(address: MacAddress, previousAp: MacAddress)
      returns (r: Allocation, sent: seq<Message>)
      requires Valid()
      modifies this
      ensures Valid() && Abs() == Next(old(Abs()), Reassociate(address, previousAp))
      ensures r.Allocated? <==> Admits(old(Abs()), address)
      ensures r.Allocated? ==>
                && address in associatedStaInformation && r.id == associatedStaInformation[address]
                && sent == [ReassociationNotification(address, previousAp), NewLink(address),
                            ReassociationResponse(address, r.id)]
      ensures r == TooManyStations ==> sent == []
    {
      sent := [];
      if !IsAnAssociatedStaAddress(address) {
        r := AddNewAssociatedStaRecord(address);
        if r == TooManyStations {
          return;
        }
      }
      sent := sent + [ReassociationNotification(address, previousAp)];
      sent := sent + [NewLink(address)];
      r := Allocated(associatedStaInformation[address]);
      sent := sent + [ReassociationResponse(address, associatedStaInformation[address])];
    }

    method ProcessDisassociationFrame(address: MacAddress)
      requires Valid()
      modifies this
      ensures Valid() && Abs() == Next(old(Abs()), Disassociate(address))
      ensures !IsAnAssociatedStaAddress(address)
    {
      if IsAnAssociatedStaAddress(address) {
        HeldAfterErase(associatedStaInformation, address);
        associationIdIsBeingUsed := associationIdIsBeingUsed[associatedStaInformation[address] := false];
        associatedStaInformation := associatedStaInformation - {address};
      } else {
        assert associatedStaInformation - {address} == associatedStaInformation;
      }
    }
  }

  lemma {:induction false} LeastFreeIs(table: Table, id: nat)
    requires id <= MAX_ASSOCIATION_ID
    requires id == 0 <==> forall i :: 1 <= i <= MAX_ASSOCIATION_ID ==> Held(table, i)
    requires id != 0 ==> !Held(table, id) && forall i :: 1 <= i < id ==> Held(table, i)
    ensures id != 0 ==> id == LeastFree(table, 1)
    ensures id == 0 ==> Held(table, LeastFree(table, 1))
  {
  }

  lemma {:induction false} HeldAfterErase(table: Table, a: MacAddress)
    requires Distinct(table) && a in table
    ensures forall i :: Held(table - {a}, i) <==> i != table[a] && Held(table, i)
  {
    var rest := table - {a};
    forall i
      ensures Held(rest, i) <==> i != table[a] && Held(table, i)
    {
      if Held(rest, i) {
        var b :| b in rest && rest[b] == i;
        assert b in table && table[b] == i;
      }
      if i != table[a] && Held(table, i) {
        var b :| b in table && table[b] == i;
        assert b in rest && rest[b] == i;
      }
    }
  }

  lemma {:induction false} HeldAfterAdd(table: Table, a: MacAddress, id: nat)
    requires a !in table
    ensures forall i :: Held(table[a := id], i) <==> i == id || Held(table, i)
  {
    forall i
      ensures Held(table[a := id], i) <==> i == id || Held(table, i)
    {
      if Held(table, i) {
        var b :| b in table && table[b] == i;
        assert table[a := id][b] == i;
      }
      assert table[a := id][a] == id;
    }
  }
}
