/**
The consistency check of the address manager, `CheckAddrman` in src/addrman.cpp, with what a
zero result means, and that every consistent state passes it.
*/
module AddrManCheck {
  import opened AddrManState
  import opened AddrManager
  import AddrManOps
  import AddrManTimes

  // ---------------------------------------------------------------- what is checked

  ghost predicate EntryOk(s: State, id: Id)
    requires id in s.info
  {
    var info := s.info[id];
    && (if info.inTried then info.lastSuccess != 0 && info.nRefCount == 0
        else 0 < info.nRefCount <= NEW_BUCKETS_PER_ADDRESS)
    && info.addr in s.addr && s.addr[info.addr] == id
    && 0 <= info.randomPos < |s.random| && s.random[info.randomPos] == id
    && info.lastTry >= 0 && info.lastSuccess >= 0
  }

  ghost predicate EntriesChecked(s: State) {
    forall id <- s.info :: EntryOk(s, id)
  }

  ghost predicate NewRefsOk(s: State) {
    forall id <- NewIds(s.info) :: s.info[id].nRefCount == |SlotsOf(s.newT, id)|
  }

  ghost predicate Consistent(net: Net, s: State) {
    && |s.random| == s.nTried + s.nNew && EntriesChecked(s) && Counts(s, 0, 0)
    && TriedOk(net, s.info, s.triedT) && NewOk(net, s.info, s.newT) && NewRefsOk(s)
  }

  // ---------------------------------------------------------------- consistent states pass

  lemma {:induction false} RandomIsAll(info: Infos, random: seq<Id>)
    requires RandomOk(info, random)
    ensures |random| == |info.Keys|
    decreases |random|
  {
    if random != [] {
      var n := |random| - 1;
      RemoveRandom(info, random, random[n]);
      RandomIsAll(info - {random[n]}, random[..n]);
      assert (info - {random[n]}).Keys == info.Keys - {random[n]};
    } else {
      assert info.Keys == {};
    }
  }

  lemma InvIsConsistent(net: Net, s: State)
    requires Inv(net, s) && TimesOk(s.info)
    ensures Consistent(net, s)
  {
    hide AddrOk, RandomOk, EntriesOk, NewOk, RefOk, TriedOk, AllSettled, CollisionsOk, NewIds, TriedIds, TimesOk;
    RandomIsAll(s.info, s.random);
    TwoKinds(s.info);
    EntriesPass(net, s);
    RefsPass(s);
  }

  /** Every state a manager gets into, whatever it is told, passes as long as successes have positive times
      and attempts times that are not negative. */
  lemma ReachablePasses(net: Net, events: seq<AddrManOps.Event>)
    requires forall i | 0 <= i < |events| :: AddrManTimes.PositiveTimes(events[i])
    ensures Consistent(net, AddrManOps.Run(net, Empty(), events))
  {
    hide Inv, AddrManOps.Run, Consistent;
    EmptyOk(net);
    AddrManOps.RunOk(net, Empty(), events);
    AddrManTimes.RunTimes(net, Empty(), events);
    InvIsConsistent(net, AddrManOps.Run(net, Empty(), events));
  }

  lemma TwoKinds(info: Infos)
    ensures |info.Keys| == |NewIds(info)| + |TriedIds(info)|
  {
    assert info.Keys == NewIds(info) + TriedIds(info);
  }

  lemma EntriesPass(net: Net, s: State)
    requires AddrOk(s.info, s.addr) && RandomOk(s.info, s.random) && AllSettled(s.info, {}) && TimesOk(s.info)
    ensures EntriesChecked(s)
  {
  }

  lemma RefsPass(s: State)
    requires RefOk(s.info, s.newT)
    ensures NewRefsOk(s)
  {
    hide SlotsOf;
  }

  // ---------------------------------------------------------------- what the check leaves open

  predicate Unplaced(info: AddrInfo) {
    !info.inTried && info.nRefCount == 0
  }

  /** The part of the invariant that `CheckAddrman` does not look at. */
  ghost predicate Traced(net: Net, s: State) {
    && (forall a <- s.addr :: s.addr[a] in s.info && s.info[s.addr[a]].addr == a)
    && (forall id <- s.info :: id < s.nIdCount && (net.valid(s.info[id].addr) || Unplaced(s.info[id])))
  }

  ghost function Places(info: Infos, ids: set<Id>): set<int>
    requires ids <= info.Keys
  {
    set id | id in ids :: info[id].randomPos
  }

  lemma {:induction false} PlacesCount(info: Infos, ids: set<Id>)
    requires ids <= info.Keys && forall a, b | a in ids && b in ids && a != b :: info[a].randomPos != info[b].randomPos
    ensures |Places(info, ids)| == |ids|
  {
    if ids == {} {
      assert Places(info, ids) == {};
    } else {
      var id :| id in ids;
      PlacesCount(info, ids - {id});
      assert Places(info, ids) == Places(info, ids - {id}) + {info[id].randomPos};
    }
  }

  /** Pigeonhole: as many places as there are leave none free. */
  lemma {:induction false} AllTaken(places: set<int>, n: nat)
    requires |places| >= n && forall i :: i in places ==> 0 <= i < n
    ensures |places| == n && forall i | 0 <= i < n :: i in places
  {
    if n > 0 {
      AllTaken(places - {n - 1}, n - 1);
    } else {
      assert forall i: int :: i !in places;
      assert places == {};
    }
  }

  /** Entries that each find themselves in an order of their number make up the order. */
  lemma RandomFromCount(s: State)
    requires EntriesChecked(s) && |s.random| == |s.info.Keys|
    ensures RandomOk(s.info, s.random)
  {
    PlacesCount(s.info, s.info.Keys);
    AllTaken(Places(s.info, s.info.Keys), |s.random|);
    forall i | 0 <= i < |s.random| ensures s.random[i] in s.info && s.info[s.random[i]].randomPos == i {
      assert i in Places(s.info, s.info.Keys);
    }
  }

  lemma EntriesBack(net: Net, s: State)
    requires EntriesChecked(s) && Traced(net, s)
    ensures AddrOk(s.info, s.addr) && EntriesOk(net, s.info, s.nIdCount) && AllSettled(s.info, {}) && TimesOk(s.info)
  {
  }

  lemma RefsBack(net: Net, s: State)
    requires EntriesChecked(s) && NewRefsOk(s) && NewOk(net, s.info, s.newT)
    ensures RefOk(s.info, s.newT)
  {
    forall id <- s.info | s.info[id].inTried ensures SlotsOf(s.newT, id) == {} {
    }
  }

  /** A state that passes the check is one the operations can leave behind if and only if it also
      meets what the check passes over. */
  lemma ConsistentIsInv(net: Net, s: State)
    ensures Inv(net, s) && TimesOk(s.info) <==>
              Consistent(net, s) && Traced(net, s) && CollisionsOk(net, s.info, s.triedT, s.nIdCount, s.collisions)
  {
    hide RandomOk, NewOk, RefOk, TriedOk, AllSettled, CollisionsOk, NewIds, TriedIds, EntriesChecked, NewRefsOk, TimesOk;
    if Inv(net, s) && TimesOk(s.info) {
      InvIsConsistent(net, s);
    } else if Consistent(net, s) && Traced(net, s) {
      TwoKinds(s.info);
      RandomFromCount(s);
      EntriesBack(net, s);
      RefsBack(net, s);
    }
  }

  // ---------------------------------------------------------------- the entries

  ghost function RefMap(info: Infos): map<Id, int> {
    map id | id in info && !info[id].inTried :: info[id].nRefCount
  }

  /** The tried ids and the counts of the others, of all entries that are not left to do. */
  ghost predicate Tallied(info: Infos, todo: set<Id>, setTried: set<Id>, mapNew: map<Id, int>) {
    setTried == TriedIds(info) - todo && mapNew == RefMap(info) - todo
  }

  lemma TallyStep(info: Infos, todo: set<Id>, setTried: set<Id>, mapNew: map<Id, int>, id: Id)
    requires Tallied(info, todo, setTried, mapNew) && id in todo && id in info
    ensures if info[id].inTried then Tallied(info, todo - {id}, setTried + {id}, mapNew)
            else Tallied(info, todo - {id}, setTried, mapNew[id := info[id].nRefCount])
  {
  }

  ghost predicate Passed(s: State, todo: set<Id>) {
    forall id <- s.info | id !in todo :: EntryOk(s, id)
  }

  method CheckEntries(m: AddrManImpl) returns (code: int, setTried: set<Id>, mapNew: map<Id, int>)
    ensures code == 0 <==> EntriesChecked(m.View())
    ensures code == 0 ==> Tallied(m.mapInfo, {}, setTried, mapNew)
  {
    hide TableOf, Tallied, EntryOk;
    ghost var s := m.View();
    code, setTried, mapNew := 0, {}, map[];
    var todo := m.mapInfo.Keys;
    TallyNothing(m.mapInfo);
    while todo != {} && code == 0
      invariant todo <= m.mapInfo.Keys
      invariant if code == 0 then Passed(s, todo) && Tallied(m.mapInfo, todo, setTried, mapNew) else !EntriesChecked(s)
      decreases |todo|, code == 0
    {
      var id :| id in todo;
      code := CheckEntry(m, id);
      TallyStep(m.mapInfo, todo, setTried, mapNew, id);
      if code == 0 {
        if m.mapInfo[id].inTried {
          setTried := setTried + {id};
        } else {
          mapNew := mapNew[id := m.mapInfo[id].nRefCount];
        }
      }
      todo := todo - {id};
    }
  }

  lemma TallyNothing(info: Infos)
    ensures Tallied(info, info.Keys, {}, map[])
  {
  }

  method CheckEntry(m: AddrManImpl, id: Id) returns (code: int)
    requires id in m.mapInfo
    ensures code == 0 <==> EntryOk(m.View(), id)
  {
    var info := m.mapInfo[id];
    code := 0;
    if info.inTried {
      if info.lastSuccess == 0 { return -1; }
      if info.nRefCount != 0 { return -2; }
    } else {
      if info.nRefCount < 0 || info.nRefCount > NEW_BUCKETS_PER_ADDRESS { return -3; }
      if info.nRefCount == 0 { return -4; }
    }
    if info.addr !in m.mapAddr || m.mapAddr[info.addr] != id { return -5; }
    if info.randomPos < 0 || info.randomPos >= |m.vRandom| || m.vRandom[info.randomPos] != id { return -14; }
    if info.lastTry < 0 { return -6; }
    if info.lastSuccess < 0 { return -8; }
  }

  // ---------------------------------------------------------------- the tried table

  /** Slots in the order in which the tables are read. */
  ghost predicate Before(t: Slot, n: nat, i: nat) {
    t.bucket < n || (t.bucket == n && t.pos < i)
  }

  lemma BeforeNext(slot: Slot)
    ensures forall t :: Before(t, slot.bucket, slot.pos + 1) <==> Before(t, slot.bucket, slot.pos) || t == slot
  {
    forall t ensures Before(t, slot.bucket, slot.pos + 1) <==> Before(t, slot.bucket, slot.pos) || t == slot {
      assert t == Slot(t.bucket, t.pos) && slot == Slot(slot.bucket, slot.pos);
    }
  }

  ghost predicate TriedSlotOk(net: Net, s: State, t: Slot)
    requires t in s.triedT
  {
    s.triedT[t] in s.info && s.info[s.triedT[t]].inTried && t == TriedSlot(net, s.info[s.triedT[t]].addr)
  }

  ghost predicate TriedSlotsOk(net: Net, s: State) {
    forall t <- s.triedT :: TriedSlotOk(net, s, t)
  }

  ghost predicate TriedSoFar(net: Net, s: State, n: nat, i: nat, setTried: set<Id>) {
    && (forall t <- s.triedT | Before(t, n, i) :: TriedSlotOk(net, s, t) && s.triedT[t] !in setTried)
    && setTried <= TriedIds(s.info)
    && (forall id <- TriedIds(s.info) | id !in setTried :: exists t :: t in s.triedT && Before(t, n, i) && s.triedT[t] == id)
  }

  /** One slot: it is free, or it passes, or the table is wrong. */
  lemma TriedStep(net: Net, s: State, slot: Slot, setTried: set<Id>)
    requires TriedSoFar(net, s, slot.bucket, slot.pos, setTried)
    ensures slot !in s.triedT ==> TriedSoFar(net, s, slot.bucket, slot.pos + 1, setTried)
    ensures slot in s.triedT ==>
              var id := s.triedT[slot];
              if id in setTried && TriedSlotOk(net, s, slot)
              then TriedSoFar(net, s, slot.bucket, slot.pos + 1, setTried - {id}) else !TriedSlotsOk(net, s)
  {
    hide TriedSlot;
    BeforeNext(slot);
  }

  lemma TriedRow(net: Net, s: State, n: nat, setTried: set<Id>)
    requires TriedSoFar(net, s, n, BUCKET_SIZE, setTried) && forall t <- s.triedT :: t.pos < BUCKET_SIZE
    ensures TriedSoFar(net, s, n + 1, 0, setTried)
  {
    hide TriedSlotOk;
    assert forall t <- s.triedT :: Before(t, n + 1, 0) <==> Before(t, n, BUCKET_SIZE);
  }

  /** All slots passed and no tried entry is left over: the table is right. */
  lemma TriedDone(net: Net, s: State, setTried: set<Id>)
    requires TriedSoFar(net, s, TRIED_BUCKET_COUNT, 0, setTried) && forall t <- s.triedT :: t.bucket < TRIED_BUCKET_COUNT
    ensures setTried == {} <==> TriedOk(net, s.info, s.triedT)
  {
    hide TriedSlot;
    assert forall t <- s.triedT :: Before(t, TRIED_BUCKET_COUNT, 0) && TriedSlotOk(net, s, t) && s.triedT[t] !in setTried;
    if setTried == {} {
      forall id <- s.info | s.info[id].inTried
        ensures TriedSlot(net, s.info[id].addr) in s.triedT && s.triedT[TriedSlot(net, s.info[id].addr)] == id
      {
        assert id in TriedIds(s.info);
        var t :| t in s.triedT && Before(t, TRIED_BUCKET_COUNT, 0) && s.triedT[t] == id;
        assert TriedSlotOk(net, s, t);
      }
    } else {
      var id :| id in setTried;
      assert id in TriedIds(s.info);
      assert !(TriedSlot(net, s.info[id].addr) in s.triedT && s.triedT[TriedSlot(net, s.info[id].addr)] == id);
    }
  }

  method CheckTriedSlot(m: AddrManImpl, slot: Slot, setTried: set<Id>) returns (code: int, left: set<Id>)
    requires m.Shaped() && InTable(TRIED_BUCKET_COUNT, slot) && TriedSoFar(m.net, m.View(), slot.bucket, slot.pos, setTried)
    ensures if code == 0 then TriedSoFar(m.net, m.View(), slot.bucket, slot.pos + 1, left) else !TriedSlotsOk(m.net, m.View())
  {
    hide TableOf, TriedSoFar, TriedSlotsOk;
    TriedStep(m.net, m.View(), slot, setTried);
    code, left := 0, setTried;
    var id := m.TriedAt(slot);
    if id != -1 {
      if id !in setTried {
        code := -11;
      } else if id !in m.mapInfo || TriedBucket(m.net, m.mapInfo[id].addr) != slot.bucket {
        code := -17;
      } else if Position(m.net, m.mapInfo[id].addr, false, slot.bucket) != slot.pos {
        code := -18;
      } else {
        TriedMember(m.net, m.View(), slot.bucket, slot.pos, setTried, id);
        left := setTried - {id};
      }
    }
  }

  lemma TriedMember(net: Net, s: State, n: nat, i: nat, setTried: set<Id>, id: Id)
    requires TriedSoFar(net, s, n, i, setTried) && id in setTried
    ensures id in s.info && s.info[id].inTried
  {
  }

  method CheckTriedTable(m: AddrManImpl, setTried: set<Id>) returns (code: int, left: set<Id>)
    requires m.Shaped() && setTried == TriedIds(m.mapInfo)
    ensures code == 0 && left == {} <==> TriedOk(m.net, m.mapInfo, m.View().triedT)
  {
    hide TableOf, TriedSoFar, TriedSlotsOk, TriedOk, TriedIds;
    ghost var s := m.View();
    code, left := 0, setTried;
    TriedStart(m.net, s);
    SlotsInRange(m.vvTried);
    var n := 0;
    while n < TRIED_BUCKET_COUNT && code == 0
      invariant 0 <= n <= TRIED_BUCKET_COUNT
      invariant if code == 0 then TriedSoFar(m.net, s, n, 0, left) else !TriedSlotsOk(m.net, s)
    {
      code, left := CheckTriedRow(m, n, left);
      n := n + 1;
    }
    if code == 0 {
      TriedDone(m.net, s, left);
    } else {
      TriedOkParts(m.net, s);
    }
  }

  method CheckTriedRow(m: AddrManImpl, n: nat, setTried: set<Id>) returns (code: int, left: set<Id>)
    requires m.Shaped() && n < TRIED_BUCKET_COUNT && TriedSoFar(m.net, m.View(), n, 0, setTried)
    ensures if code == 0 then TriedSoFar(m.net, m.View(), n + 1, 0, left) else !TriedSlotsOk(m.net, m.View())
  {
    hide TableOf, TriedSoFar, TriedSlotsOk;
    code, left := 0, setTried;
    var i := 0;
    while i < BUCKET_SIZE && code == 0
      invariant 0 <= i <= BUCKET_SIZE
      invariant if code == 0 then TriedSoFar(m.net, m.View(), n, i, left) else !TriedSlotsOk(m.net, m.View())
    {
      code, left := CheckTriedSlot(m, Slot(n, i), left);
      i := i + 1;
    }
    if code == 0 {
      SlotsInRange(m.vvTried);
      TriedRow(m.net, m.View(), n, left);
    }
  }

  lemma SlotsInRange(a: array2<Cell>)
    ensures forall t <- TableOf(a) :: t.bucket < a.Length0 && t.pos < a.Length1
  {
    forall t <- TableOf(a) ensures t.bucket < a.Length0 {
      SlotInAll(a.Length0, t);
    }
  }

  lemma TriedStart(net: Net, s: State)
    ensures TriedSoFar(net, s, 0, 0, TriedIds(s.info))
  {
  }

  lemma TriedOkParts(net: Net, s: State)
    ensures TriedOk(net, s.info, s.triedT) ==> TriedSlotsOk(net, s)
  {
  }

  // ---------------------------------------------------------------- the new table

  ghost predicate NewSlotOk(net: Net, s: State, t: Slot)
    requires t in s.newT
  {
    && t.bucket < NEW_BUCKET_COUNT && s.newT[t] in s.info && !s.info[s.newT[t]].inTried
    && t.pos == Position(net, s.info[s.newT[t]].addr, true, t.bucket)
  }

  ghost predicate NewTableOk(net: Net, s: State) {
    NewOk(net, s.info, s.newT) && NewRefsOk(s)
  }

  ghost function Seen(t: Table, id: Id, n: nat, i: nat): set<Slot> {
    set x | x in t && t[x] == id && Before(x, n, i)
  }

  lemma SeenStep(t: Table, id: Id, slot: Slot)
    ensures Seen(t, id, slot.bucket, slot.pos + 1)
            == Seen(t, id, slot.bucket, slot.pos) + if slot in t && t[slot] == id then {slot} else {}
    ensures slot !in Seen(t, id, slot.bucket, slot.pos)
  {
    BeforeNext(slot);
  }

  /** What is left to find of one entry. */
  ghost predicate Owed(s: State, n: nat, i: nat, mapNew: map<Id, int>, id: Id)
    requires id in s.info
  {
    var due := s.info[id].nRefCount - |Seen(s.newT, id, n, i)|;
    if id in mapNew then mapNew[id] == due > 0 else due == 0
  }

  ghost predicate NewSoFar(net: Net, s: State, n: nat, i: nat, mapNew: map<Id, int>) {
    && (forall t <- s.newT | Before(t, n, i) :: NewSlotOk(net, s, t))
    && mapNew.Keys <= NewIds(s.info)
    && (forall id <- NewIds(s.info) :: Owed(s, n, i, mapNew, id))
  }

  function Decrement(mapNew: map<Id, int>, id: Id): map<Id, int>
    requires id in mapNew
  {
    if mapNew[id] == 1 then mapNew - {id} else mapNew[id := mapNew[id] - 1]
  }

  lemma NewStep(net: Net, s: State, slot: Slot, mapNew: map<Id, int>)
    requires NewSoFar(net, s, slot.bucket, slot.pos, mapNew)
    ensures slot !in s.newT ==> NewSoFar(net, s, slot.bucket, slot.pos + 1, mapNew)
    ensures slot in s.newT ==>
              var id := s.newT[slot];
              if id in mapNew && NewSlotOk(net, s, slot)
              then NewSoFar(net, s, slot.bucket, slot.pos + 1, Decrement(mapNew, id)) else !NewTableOk(net, s)
  {
    hide Seen, NewOk, Owed;
    BeforeNext(slot);
    if slot !in s.newT {
      forall id <- NewIds(s.info) ensures Owed(s, slot.bucket, slot.pos + 1, mapNew, id) {
        OwedStep(s, slot, mapNew, id);
      }
    } else {
      var id := s.newT[slot];
      if !NewSlotOk(net, s, slot) {
        BadSlot(net, s, slot);
      } else if id !in mapNew {
        Overdrawn(net, s, slot, mapNew);
      } else {
        forall x <- NewIds(s.info) ensures Owed(s, slot.bucket, slot.pos + 1, Decrement(mapNew, id), x) {
          OwedStep(s, slot, mapNew, x);
        }
      }
    }
  }

  lemma OwedStep(s: State, slot: Slot, mapNew: map<Id, int>, x: Id)
    requires x in NewIds(s.info) && Owed(s, slot.bucket, slot.pos, mapNew, x)
    ensures slot !in s.newT ==> Owed(s, slot.bucket, slot.pos + 1, mapNew, x)
    ensures slot in s.newT && s.newT[slot] in mapNew ==>
              Owed(s, slot.bucket, slot.pos + 1, Decrement(mapNew, s.newT[slot]), x)
  {
    hide Seen;
    SeenStep(s.newT, x, slot);
    assert slot !in s.newT ==> Seen(s.newT, x, slot.bucket, slot.pos) + {} == Seen(s.newT, x, slot.bucket, slot.pos);
  }

  lemma BadSlot(net: Net, s: State, slot: Slot)
    requires slot in s.newT && !NewSlotOk(net, s, slot)
    ensures !NewTableOk(net, s)
  {
  }

  /** A slot of an entry whose count is used up. */
  lemma Overdrawn(net: Net, s: State, slot: Slot, mapNew: map<Id, int>)
    requires slot in s.newT && NewSlotOk(net, s, slot) && s.newT[slot] !in mapNew
    requires Owed(s, slot.bucket, slot.pos, mapNew, s.newT[slot])
    ensures !NewTableOk(net, s)
  {
    var id := s.newT[slot];
    var seen := Seen(s.newT, id, slot.bucket, slot.pos);
    assert id in NewIds(s.info);
    assert seen <= SlotsOf(s.newT, id) && slot in SlotsOf(s.newT, id) - seen;
    SubsetCard(seen + {slot}, SlotsOf(s.newT, id));
  }

  lemma NewRow(net: Net, s: State, n: nat, mapNew: map<Id, int>)
    requires NewSoFar(net, s, n, BUCKET_SIZE, mapNew) && forall t <- s.newT :: t.pos < BUCKET_SIZE
    ensures NewSoFar(net, s, n + 1, 0, mapNew)
  {
    hide NewSlotOk, NewIds;
    assert forall t <- s.newT :: Before(t, n + 1, 0) <==> Before(t, n, BUCKET_SIZE);
    forall id | id in NewIds(s.info) ensures Seen(s.newT, id, n + 1, 0) == Seen(s.newT, id, n, BUCKET_SIZE) {
    }
    assert forall id <- NewIds(s.info) :: id in s.info by { NewIdsKnown(s.info); }
  }

  lemma NewIdsKnown(info: Infos)
    ensures NewIds(info) <= info.Keys
  {
  }

  lemma NewDone(net: Net, s: State, mapNew: map<Id, int>)
    requires NewSoFar(net, s, NEW_BUCKET_COUNT, 0, mapNew) && forall t <- s.newT :: t.bucket < NEW_BUCKET_COUNT
    ensures mapNew == map[] <==> NewTableOk(net, s)
  {
    assert forall t <- s.newT :: Before(t, NEW_BUCKET_COUNT, 0);
    forall id <- NewIds(s.info) ensures Seen(s.newT, id, NEW_BUCKET_COUNT, 0) == SlotsOf(s.newT, id) {
    }
    assert NewOk(net, s.info, s.newT);
    if mapNew != map[] {
      var id :| id in mapNew;
      assert Owed(s, NEW_BUCKET_COUNT, 0, mapNew, id);
    }
  }

  lemma NewStart(net: Net, s: State)
    requires EntriesChecked(s)
    ensures NewSoFar(net, s, 0, 0, RefMap(s.info))
  {
    forall id <- NewIds(s.info) ensures Seen(s.newT, id, 0, 0) == {} {
    }
  }

  method CheckNewSlot(m: AddrManImpl, slot: Slot, mapNew: map<Id, int>) returns (code: int, left: map<Id, int>)
    requires m.Shaped() && InTable(NEW_BUCKET_COUNT, slot) && NewSoFar(m.net, m.View(), slot.bucket, slot.pos, mapNew)
    ensures if code == 0 then NewSoFar(m.net, m.View(), slot.bucket, slot.pos + 1, left) else !NewTableOk(m.net, m.View())
  {
    hide TableOf, NewSoFar, NewTableOk;
    NewStep(m.net, m.View(), slot, mapNew);
    code, left := 0, mapNew;
    var id := m.NewAt(slot);
    if id != -1 {
      if id !in mapNew {
        code := -12;
      } else if id !in m.mapInfo || Position(m.net, m.mapInfo[id].addr, true, slot.bucket) != slot.pos {
        code := -19;
      } else {
        NewMember(m.net, m.View(), slot.bucket, slot.pos, mapNew, id);
        left := Decrement(mapNew, id);
      }
    }
  }

  lemma NewMember(net: Net, s: State, n: nat, i: nat, mapNew: map<Id, int>, id: Id)
    requires NewSoFar(net, s, n, i, mapNew) && id in mapNew
    ensures id in s.info && !s.info[id].inTried
  {
    assert id in NewIds(s.info);
  }

  method CheckNewRow(m: AddrManImpl, n: nat, mapNew: map<Id, int>) returns (code: int, left: map<Id, int>)
    requires m.Shaped() && n < NEW_BUCKET_COUNT && NewSoFar(m.net, m.View(), n, 0, mapNew)
    ensures if code == 0 then NewSoFar(m.net, m.View(), n + 1, 0, left) else !NewTableOk(m.net, m.View())
  {
    hide TableOf, NewSoFar, NewTableOk;
    code, left := 0, mapNew;
    var i := 0;
    while i < BUCKET_SIZE && code == 0
      invariant 0 <= i <= BUCKET_SIZE
      invariant if code == 0 then NewSoFar(m.net, m.View(), n, i, left) else !NewTableOk(m.net, m.View())
    {
      code, left := CheckNewSlot(m, Slot(n, i), left);
      i := i + 1;
    }
    if code == 0 {
      SlotsInRange(m.vvNew);
      NewRow(m.net, m.View(), n, left);
    }
  }

  method CheckNewTable(m: AddrManImpl, mapNew: map<Id, int>) returns (code: int, left: map<Id, int>)
    requires m.Shaped() && EntriesChecked(m.View()) && mapNew == RefMap(m.mapInfo)
    ensures code == 0 && left == map[] <==> NewTableOk(m.net, m.View())
  {
    hide TableOf, NewSoFar, NewTableOk, EntriesChecked, RefMap;
    ghost var s := m.View();
    code, left := 0, mapNew;
    NewStart(m.net, s);
    SlotsInRange(m.vvNew);
    var n := 0;
    while n < NEW_BUCKET_COUNT && code == 0
      invariant 0 <= n <= NEW_BUCKET_COUNT
      invariant if code == 0 then NewSoFar(m.net, s, n, 0, left) else !NewTableOk(m.net, s)
    {
      code, left := CheckNewRow(m, n, left);
      n := n + 1;
    }
    if code == 0 {
      NewDone(m.net, s, left);
    }
  }

  // ---------------------------------------------------------------- the whole check

  /** Zero exactly for consistent states; a valid manager always passes. */
  method CheckAddrman(m: AddrManImpl) returns (code: int)
    requires m.Shaped()
    ensures code == 0 <==> Consistent(m.net, m.View())
    ensures m.Valid() && TimesOk(m.mapInfo) ==> code == 0
  {
    hide TableOf, Inv, EntriesChecked, TriedOk, NewTableOk, NewOk, NewRefsOk, TriedIds, NewIds;
    code := CheckParts(m);
    if m.Valid() && TimesOk(m.mapInfo) {
      InvIsConsistent(m.net, m.View());
    }
  }

  method CheckParts(m: AddrManImpl) returns (code: int)
    requires m.Shaped()
    ensures code == 0 <==> Consistent(m.net, m.View())
  {
    hide TableOf, EntriesChecked, TriedOk, NewOk, NewRefsOk;
    if |m.vRandom| != m.nTried + m.nNew {
      return -7;
    }
    var setTried, mapNew;
    code, setTried, mapNew := CheckEntries(m);
    if code == 0 {
      Sizes(m.mapInfo, setTried, mapNew);
      if |setTried| != m.nTried {
        code := -9;
      } else if |mapNew| != m.nNew {
        code := -10;
      } else {
        code := CheckTables(m, setTried, mapNew);
      }
    }
  }

  method CheckTables(m: AddrManImpl, setTried: set<Id>, mapNew: map<Id, int>) returns (code: int)
    requires m.Shaped() && EntriesChecked(m.View()) && setTried == TriedIds(m.mapInfo) && mapNew == RefMap(m.mapInfo)
    ensures code == 0 <==> TriedOk(m.net, m.mapInfo, m.View().triedT) && NewTableOk(m.net, m.View())
  {
    hide TableOf, EntriesChecked, TriedOk, NewOk, NewRefsOk, TriedIds, RefMap;
    var leftTried, leftNew;
    code, leftTried := CheckTriedTable(m, setTried);
    if code == 0 {
      code, leftNew := CheckNewTable(m, mapNew);
      if code == 0 {
        if |leftTried| != 0 {
          code := -13;
        } else if |leftNew| != 0 {
          code := -15;
        }
      }
    }
  }

  lemma Sizes(info: Infos, setTried: set<Id>, mapNew: map<Id, int>)
    requires Tallied(info, {}, setTried, mapNew)
    ensures setTried == TriedIds(info) && mapNew == RefMap(info) && |mapNew| == |NewIds(info)|
  {
    assert mapNew.Keys == NewIds(info);
  }
}
