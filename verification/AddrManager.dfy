/**
The address manager as it is kept in memory, `AddrManImpl` in src/addrman.cpp and
src/addrman_impl.h: two arrays of slots, an id map, an address map, a vector in random
order and counters, updated in place.

`View` reads the fields and arrays as a state of AddrManState; every method is proved to do
to the view what its operation in AddrManOps does, so the consistency of whole runs carries over.
*/
module AddrManager {
  import opened Basics
  import opened Numbers
  import opened AddrManState
  import Ops = AddrManOps
  import Times = AddrManTimes

  /** An id, or -1 for a free slot. */
  type Cell = x: int | -1 <= x witness -1

  ghost function AllSlots(rows: nat): set<Slot> {
    set b, p | 0 <= b < rows && 0 <= p < BUCKET_SIZE :: Slot(b, p)
  }

  ghost predicate InTable(rows: nat, slot: Slot) {
    slot.bucket < rows && slot.pos < BUCKET_SIZE
  }

  lemma SlotInAll(rows: nat, slot: Slot)
    ensures slot in AllSlots(rows) <==> InTable(rows, slot)
  {
    if InTable(rows, slot) {
      assert slot == Slot(slot.bucket, slot.pos);
    }
  }

  ghost function TableOf(a: array2<Cell>): Table
    reads a
  {
    map t | t in AllSlots(a.Length0) && t.pos < a.Length1 && a[t.bucket, t.pos] >= 0 :: a[t.bucket, t.pos]
  }

  lemma TableAt(a: array2<Cell>, slot: Slot)
    requires a.Length1 == BUCKET_SIZE && InTable(a.Length0, slot)
    ensures slot in TableOf(a) <==> a[slot.bucket, slot.pos] >= 0
    ensures slot in TableOf(a) ==> TableOf(a)[slot] == a[slot.bucket, slot.pos]
  {
    SlotInAll(a.Length0, slot);
  }

  ghost function Write(t: Table, slot: Slot, v: Cell): Table {
    if v == -1 then t - {slot} else t[slot := v]
  }

  method SetSlot(a: array2<Cell>, slot: Slot, v: Cell)
    requires a.Length1 == BUCKET_SIZE && InTable(a.Length0, slot)
    modifies a
    ensures TableOf(a) == Write(old(TableOf(a)), slot, v)
  {
    SlotInAll(a.Length0, slot);
    a[slot.bucket, slot.pos] := v;
    forall t
      ensures t in TableOf(a) <==> t in Write(old(TableOf(a)), slot, v)
      ensures t in TableOf(a) ==> TableOf(a)[t] == Write(old(TableOf(a)), slot, v)[t]
    {
      SlotInAll(a.Length0, t);
    }
  }

  class AddrManImpl {
    const net: Net
    const vvTried: array2<Cell>
    const vvNew: array2<Cell>
    var nIdCount: nat
    var mapInfo: map<Id, AddrInfo>
    var mapAddr: map<Service, Id>
    var vRandom: seq<Id>
    var nTried: int
    var nNew: int
    var lastGood: int
    var triedCollisions: set<Id>

    ghost predicate Shaped() {
      && vvNew.Length0 == NEW_BUCKET_COUNT && vvNew.Length1 == BUCKET_SIZE
      && vvTried.Length0 == TRIED_BUCKET_COUNT && vvTried.Length1 == BUCKET_SIZE && vvNew != vvTried
    }

    ghost function View(): State
      reads this, vvNew, vvTried
    {
      State(mapInfo, mapAddr, vRandom, TableOf(vvNew), TableOf(vvTried), nNew, nTried, nIdCount, triedCollisions, lastGood)
    }

    ghost predicate Valid()
      reads this, vvNew, vvTried
    {
      Shaped() && Inv(net, View())
    }

    constructor (net: Net)
      ensures Valid() && this.net == net && View() == Empty() && fresh(vvNew) && fresh(vvTried)
    {
      this.net := net;
      vvTried := new Cell[TRIED_BUCKET_COUNT, BUCKET_SIZE]((_, _) => -1);
      vvNew := new Cell[NEW_BUCKET_COUNT, BUCKET_SIZE]((_, _) => -1);
      nIdCount := 0;
      mapInfo := map[];
      mapAddr := map[];
      vRandom := [];
      nTried, nNew, lastGood := 0, 0, 1;
      triedCollisions := {};
      new;
      assert TableOf(vvNew) == map[] && TableOf(vvTried) == map[];
      EmptyOk(net);
    }

    method NewAt(slot: Slot) returns (v: Cell)
      requires Shaped() && InTable(NEW_BUCKET_COUNT, slot)
      ensures v == -1 <==> slot !in View().newT
      ensures v != -1 ==> v == View().newT[slot]
    {
      v := vvNew[slot.bucket, slot.pos];
      TableAt(vvNew, slot);
    }

    method TriedAt(slot: Slot) returns (v: Cell)
      requires Shaped() && InTable(TRIED_BUCKET_COUNT, slot)
      ensures v == -1 <==> slot !in View().triedT
      ensures v != -1 ==> v == View().triedT[slot]
    {
      v := vvTried[slot.bucket, slot.pos];
      TableAt(vvTried, slot);
    }

    method SwapRandom(i: nat, j: nat)
      requires RandomOk(mapInfo, vRandom) && i < |vRandom| && j < |vRandom|
      modifies this`mapInfo, this`vRandom
      ensures View() == Swap(old(View()), i, j)
    {
      if i != j {
        var id1, id2 := vRandom[i], vRandom[j];
        assert id1 in mapInfo && id2 in mapInfo;
        mapInfo := mapInfo[id1 := mapInfo[id1].(randomPos := j)];
        mapInfo := mapInfo[id2 := mapInfo[id2].(randomPos := i)];
        vRandom := vRandom[i := id2];
        vRandom := vRandom[j := id1];
      }
    }

    method Delete(id: Id)
      requires RandomOk(mapInfo, vRandom) && id in mapInfo && !mapInfo[id].inTried && mapInfo[id].nRefCount == 0
      modifies this`mapInfo, this`vRandom, this`mapAddr, this`nNew
      ensures View() == AddrManState.Delete(old(View()), id)
    {
      hide TableOf, RandomOk, Swap;
      PosInRange(mapInfo, vRandom, id);
      SwapRandom(mapInfo[id].randomPos, |vRandom| - 1);
      SwapOk(old(View()), old(mapInfo[id].randomPos), |old(vRandom)| - 1);
      vRandom := vRandom[..|vRandom| - 1];
      mapAddr := mapAddr - {mapInfo[id].addr};
      mapInfo := mapInfo - {id};
      nNew := nNew - 1;
    }

    method ClearNew(slot: Slot)
      requires Shaped() && Core(net, View()) && InTable(NEW_BUCKET_COUNT, slot)
      modifies this`mapInfo, this`vRandom, this`mapAddr, this`nNew, vvNew
      ensures View() == AddrManState.ClearNew(old(View()), slot)
    {
      hide TableOf, AddrOk, RandomOk, EntriesOk, RefOk, TriedOk, AddrManState.Delete;
      var id := NewAt(slot);
      if id != -1 {
        DropOk(net, View(), slot);
        assert mapInfo[id].nRefCount > 0;
        mapInfo := mapInfo[id := mapInfo[id].(nRefCount := mapInfo[id].nRefCount - 1)];
        SetSlot(vvNew, slot, -1);
        assert View() == Drop(old(View()), slot);
        if mapInfo[id].nRefCount == 0 {
          Delete(id);
        }
      }
    }

    /** Frees one slot if the entry holds it. */
    method SweepSlot(id: Id, slot: Slot, ghost s0: State, ghost removed: set<Slot>)
      returns (hit: bool, ghost next: set<Slot>)
      requires Shaped() && InTable(NEW_BUCKET_COUNT, slot) && id in s0.info && Swept(s0, id, removed, View())
      modifies this`mapInfo, vvNew
      ensures Swept(s0, id, next, View()) && removed <= next && (slot in SlotsOf(s0.newT, id) ==> slot in next)
    {
      hide TableOf;
      next := removed;
      var v := NewAt(slot);
      hit := v == id;
      if hit {
        next := removed + {slot};
        SweptMore(s0, id, removed, slot, View());
        mapInfo := mapInfo[id := mapInfo[id].(nRefCount := mapInfo[id].nRefCount - 1)];
        SetSlot(vvNew, slot, -1);
      }
    }

    /** Goes round the buckets from the entry's own one and frees its slots until no reference is left. */
    method SweepNew(id: Id)
      requires Shaped() && Core(net, View()) && id in mapInfo
      modifies this`mapInfo, vvNew
      ensures View() == Sweep(old(View()), id)
    {
      hide TableOf, AddrOk, RandomOk, EntriesOk, NewOk, TriedOk, RefOk, SlotsOf;
      ghost var s0, removed := View(), {};
      var a := mapInfo[id].addr;
      var start := NewBucket(net, a, mapInfo[id].source);
      SweptNothing(s0, id);
      var n := 0;
      while n < NEW_BUCKET_COUNT
        invariant 0 <= n <= NEW_BUCKET_COUNT && Swept(s0, id, removed, View())
        invariant Visited(net, s0, id, start, n, removed)
        decreases NEW_BUCKET_COUNT - n
      {
        var bucket := (start + n) % NEW_BUCKET_COUNT;
        var hit;
        hit, removed := SweepSlot(id, Slot(bucket, Position(net, a, true, bucket)), s0, removed);
        n := n + 1;
        if hit && mapInfo[id].nRefCount == 0 {
          break;
        }
      }
      AllSwept(net, s0, id, start, n, removed);
    }

    method TakeFromTried(slot: Slot, o: Id)
      requires Shaped() && InTable(TRIED_BUCKET_COUNT, slot) && o in mapInfo
      requires slot in View().triedT && View().triedT[slot] == o
      modifies this`mapInfo, this`nTried, vvTried
      ensures View() == EvictStep(old(View()), slot)
    {
      hide TableOf;
      mapInfo := mapInfo[o := mapInfo[o].(inTried := false)];
      SetSlot(vvTried, slot, -1);
      nTried := nTried - 1;
    }

    method PutIntoNew(slot: Slot, id: Id, nRefCount: int)
      requires Shaped() && InTable(NEW_BUCKET_COUNT, slot) && id in mapInfo && nRefCount == mapInfo[id].nRefCount + 1
      modifies this`mapInfo, vvNew
      ensures View() == Insert(old(View()), slot, id)
    {
      hide TableOf;
      mapInfo := mapInfo[id := mapInfo[id].(nRefCount := nRefCount)];
      SetSlot(vvNew, slot, id);
    }

    /** Moves an entry out of its tried slot into its own slot of the new table. */
    method EvictTried(id: Id, slot: Slot, o: Id)
      requires Shaped() && InTable(TRIED_BUCKET_COUNT, slot) && Stage(net, View(), -1, 0, {id})
      requires id in mapInfo && !mapInfo[id].inTried && mapInfo[id].nRefCount == 0
      requires slot in View().triedT && View().triedT[slot] == o
      modifies this`mapInfo, this`vRandom, this`mapAddr, this`nNew, this`nTried, vvNew, vvTried
      ensures View() == ReturnStep(net, EvictStep(old(View()), slot), o)
    {
      hide TableOf, AddrOk, RandomOk, EntriesOk, RefOk, NewOk, TriedOk, AllSettled, NewIds, TriedIds, AddrManState.ClearNew;
      hide Evict, Insert;
      EvictStage(net, View(), id, slot);
      Ops.EvictShape(View(), slot, id);
      assert o in mapInfo;
      TakeFromTried(slot, o);
      ghost var e := View();
      var u := NewSlot(net, mapInfo[o].addr, mapInfo[o].source);
      ReturnClears(net, e, id, o, u);
      ClearNew(u);
      var free := NewAt(u);
      assert free == -1;
      PutIntoNew(u, o, 1);
      nNew := nNew + 1;
    }

    /** Moves an entry from the new table to the tried table. */
    method MakeTried(id: Id)
      requires Valid() && id in mapInfo && !mapInfo[id].inTried
      modifies this`mapInfo, this`vRandom, this`mapAddr, this`nNew, this`nTried, vvNew, vvTried
      ensures View() == Ops.MakeTried(net, old(View()), id)
    {
      hide TableOf, AddrOk, RandomOk, EntriesOk, RefOk, NewOk, TriedOk, AllSettled, NewIds, TriedIds, Sweep, Evict, ReturnStep;
      ghost var s0 := View();
      var slot := TriedSlot(net, mapInfo[id].addr);
      SweepNew(id);
      nNew := nNew - 1;
      SweepStage(net, s0, id);
      Ops.SweepShape(s0, id);
      assert mapInfo[id].nRefCount == 0;
      ghost var s1 := View();
      assert s1 == SweepStep(s0, id);
      var evict := TriedAt(slot);
      if evict != -1 {
        EvictStage(net, s1, id, slot);
        Ops.EvictShape(s1, slot, id);
        ReturnStage(net, EvictStep(s1, slot), id, evict);
        EvictTried(id, slot, evict);
      }
      var free := TriedAt(slot);
      assert free == -1;
      EnterTried(id, slot);
    }

    method EnterTried(id: Id, slot: Slot)
      requires Shaped() && id in mapInfo && slot == TriedSlot(net, mapInfo[id].addr)
      modifies this`mapInfo, this`nTried, vvTried
      ensures View() == PromoteStep(net, old(View()), id)
    {
      hide TableOf;
      SetSlot(vvTried, slot, id);
      nTried := nTried + 1;
      mapInfo := mapInfo[id := mapInfo[id].(inTried := true)];
    }

    method Find(a: Service) returns (found: bool, id: Id)
      requires Valid()
      ensures found <==> a in mapAddr
      ensures found ==> id == mapAddr[a] && id in mapInfo && mapInfo[id].addr == a
    {
      found, id := false, 0;
      if a in mapAddr {
        Ops.Found(net, View(), a);
        id := mapAddr[a];
        found := id in mapInfo;
      }
    }

    method Create(a: Service, nTime: int, nServices: nat, source: NetAddr) returns (id: Id)
      modifies this`mapInfo, this`vRandom, this`mapAddr, this`nIdCount
      ensures View() == AddrManState.Create(old(View()), a, nTime, nServices, source) && id == old(nIdCount)
    {
      id := nIdCount;
      nIdCount := nIdCount + 1;
      mapInfo := mapInfo[id := FreshInfo(a, nTime, nServices, source, -1)];
      mapAddr := mapAddr[a := id];
      mapInfo := mapInfo[id := mapInfo[id].(randomPos := |vRandom|)];
      vRandom := vRandom + [id];
    }

    method PlaceNew(id: Id, source: NetAddr, now: int) returns (inserted: bool)
      requires Shaped() && Core(net, View()) && id in mapInfo && !mapInfo[id].inTried
      modifies this`mapInfo, this`vRandom, this`mapAddr, this`nNew, vvNew
      ensures Ops.Added(View(), inserted) == Ops.PlaceNew(net, old(View()), id, source, now)
    {
      hide TableOf, AddrOk, RandomOk, EntriesOk, RefOk, TriedOk, AddrManState.ClearNew, AddrManState.Delete, IsTerrible, Insert;
      var slot := NewSlot(net, mapInfo[id].addr, source);
      var holder := NewAt(slot);
      inserted := holder == -1;
      if holder != id {
        if !inserted {
          var existing := mapInfo[holder];
          if IsTerrible(existing, now) || (existing.nRefCount > 1 && mapInfo[id].nRefCount == 0) {
            inserted := true;
          }
        }
        if inserted {
          ClearNewOk(net, View(), slot);
          ClearNew(slot);
          PutIntoNew(slot, id, mapInfo[id].nRefCount + 1);
        } else if mapInfo[id].nRefCount == 0 {
          Delete(id);
        }
      }
    }

    method AddAgain(id: Id, nTime: int, nServices: nat, source: NetAddr, penalty: int, now: int, random: nat)
      returns (inserted: bool)
      requires Valid() && id in mapInfo
      modifies this`mapInfo, this`vRandom, this`mapAddr, this`nNew, vvNew
      ensures Ops.Added(View(), inserted)
              == Ops.AddAgain(net, old(View()), id, nTime, nServices, source, penalty, now, random)
    {
      hide TableOf, AddrOk, RandomOk, EntriesOk, RefOk, NewOk, TriedOk, NewIds, TriedIds, CollisionsOk, Ops.PlaceNew, Pow, BitOr;
      inserted := false;
      Ops.EntryFound(net, View(), id);
      Ops.Found(net, View(), mapInfo[id].addr);
      ghost var v := Ops.Reannounced(mapInfo[id], nTime, nServices, penalty, now);
      Ops.TouchOk(net, View(), id, v);
      var updateInterval := if now - nTime < 24 * 3600 then 3600 else 24 * 3600;
      if mapInfo[id].nTime < nTime - updateInterval - penalty {
        mapInfo := mapInfo[id := mapInfo[id].(nTime := Ops.Max0(nTime - penalty))];
      }
      mapInfo := mapInfo[id := mapInfo[id].(nServices := BitOr(mapInfo[id].nServices, nServices))];
      assert View() == old(View()).(info := old(mapInfo)[id := v]);
      if nTime > mapInfo[id].nTime && !mapInfo[id].inTried && mapInfo[id].nRefCount != NEW_BUCKETS_PER_ADDRESS {
        var nFactor := PowerOfTwo(mapInfo[id].nRefCount);
        if nFactor <= 1 || random % nFactor == 0 {
          OneDivides(random);
          inserted := PlaceNew(id, source, now);
        }
      }
    }

    method AddFresh(a: Service, nTime: int, nServices: nat, source: NetAddr, now: int) returns (inserted: bool)
      requires Valid() && a !in mapAddr && IsRoutable(net, a)
      modifies this, vvNew
      ensures Ops.Added(View(), inserted) == Ops.AddFresh(net, old(View()), a, nTime, nServices, source, now)
    {
      hide TableOf, AddrOk, RandomOk, EntriesOk, RefOk, NewOk, TriedOk, AllSettled, NewIds, TriedIds, CollisionsOk, Ops.PlaceNew;
      CreateOk(net, View(), a, nTime, nServices, source);
      var id := Create(a, nTime, nServices, source);
      nNew := nNew + 1;
      inserted := PlaceNew(id, source, now);
    }

    /** Announces an address; true when it got a new place in the new table. */
    method AddSingle(a: Service, nTime: int, nServices: nat, source: NetAddr, timePenalty: int, now: int, random: nat)
      returns (inserted: bool)
      requires Valid()
      modifies this, vvNew
      ensures Valid() && Ops.Progress(old(View()), View()) && (old(TimesOk(mapInfo)) ==> TimesOk(mapInfo))
      ensures Ops.Added(View(), inserted)
              == Ops.AddSingle(net, old(View()), a, nTime, nServices, source, timePenalty, now, random)
    {
      hide TableOf, Inv, Ops.AddAgain, Ops.AddFresh, Ops.Progress, TimesOk;
      Ops.AddSingleOk(net, View(), a, nTime, nServices, source, timePenalty, now, random);
      if TimesOk(mapInfo) {
        Times.AddSingleTimes(net, View(), a, nTime, nServices, source, timePenalty, now, random);
      }
      inserted := false;
      if IsRoutable(net, a) {
        var found, id := Find(a);
        var penalty := if net.host(a) == source then 0 else timePenalty;
        if found {
          inserted := AddAgain(id, nTime, nServices, source, penalty, now, random);
        } else {
          inserted := AddFresh(a, Ops.Max0(nTime - penalty), nServices, source, now);
        }
      }
    }

    method Add(addrs: seq<(Service, int, nat)>, source: NetAddr, timePenalty: int, now: nat -> int, random: nat -> nat)
      returns (any: bool)
      requires Valid()
      modifies this, vvNew
      ensures Valid()
      ensures Ops.Added(View(), any) == Ops.AddFirst(net, old(View()), addrs, |addrs|, source, timePenalty, now, random)
    {
      hide Inv, TableOf, Ops.AddSingle, Ops.Progress;
      var added := 0;
      for i := 0 to |addrs|
        invariant Valid() && added >= 0
        invariant Ops.Added(View(), added > 0) == Ops.AddFirst(net, old(View()), addrs, i, source, timePenalty, now, random)
      {
        var inserted := AddSingle(addrs[i].0, addrs[i].1, addrs[i].2, source, timePenalty, now(i), random(i));
        added := added + if inserted then 1 else 0;
      }
      any := added > 0;
    }

    ghost predicate Moves(s: State, id: Id, testBeforeEvict: bool) {
      && id in s.info && !s.info[id].inTried && s.info[id].nRefCount > 0
      && !(testBeforeEvict && TriedSlot(net, s.info[id].addr) in s.triedT)
    }

    method Advance(id: Id, testBeforeEvict: bool) returns (moved: bool)
      requires Valid() && id in mapInfo
      modifies this, vvNew, vvTried
      ensures View() == Ops.Advance(net, old(View()), id, testBeforeEvict)
      ensures moved <==> old(Moves(View(), id, testBeforeEvict))
    {
      hide TableOf, Inv, Ops.MakeTried;
      moved := false;
      if !mapInfo[id].inTried && mapInfo[id].nRefCount > 0 {
        var slot := TriedSlot(net, mapInfo[id].addr);
        var holder := TriedAt(slot);
        if testBeforeEvict && holder != -1 {
          if |triedCollisions| < SET_TRIED_COLLISION_SIZE {
            triedCollisions := triedCollisions + {id};
          }
        } else {
          MakeTried(id);
          moved := true;
        }
      }
    }

    /** A connection worked: the entry moves to the tried table, or waits when its slot there is taken. */
    method Good(a: Service, testBeforeEvict: bool, time: int) returns (moved: bool)
      requires Valid()
      modifies this, vvNew, vvTried
      ensures View() == Ops.Good(net, old(View()), a, testBeforeEvict, time) && Shaped()
      ensures testBeforeEvict ==> Valid()
      ensures Ops.Progress(old(View()), View()) && (old(TimesOk(mapInfo)) && time > 0 ==> TimesOk(mapInfo))
      ensures moved <==> a in old(mapAddr) && old(Moves(View(), mapAddr[a], testBeforeEvict))
    {
      hide TableOf, Inv, Ops.Advance, Ops.Progress, Ops.InvBut, TimesOk;
      Ops.GoodOk(net, View(), a, testBeforeEvict, time);
      if TimesOk(mapInfo) {
        Times.GoodTimes(net, View(), a, testBeforeEvict, time);
      }
      moved := false;
      var found, id := Find(a);
      ghost var s0 := View();
      lastGood := time;
      if found {
        Ops.Found(net, s0, a);
        Ops.TouchOk(net, s0, id, Ops.Succeeded(mapInfo[id], time));
        Ops.GoodTime(net, s0.(info := mapInfo[id := Ops.Succeeded(mapInfo[id], time)]), time);
        mapInfo := mapInfo[id := mapInfo[id].(lastSuccess := time, lastTry := time, nAttempts := 0)];
        moved := Advance(id, testBeforeEvict);
      }
    }

    method Attempt(a: Service, countFailure: bool, time: int)
      requires Valid()
      modifies this`mapInfo
      ensures Valid() && View() == Ops.OnEntry(old(View()), a, info => Ops.AttemptInfo(info, countFailure, old(lastGood), time))
      ensures old(TimesOk(mapInfo)) && time >= 0 ==> TimesOk(mapInfo)
    {
      hide Inv, TableOf, TimesOk;
      ghost var f := info => Ops.AttemptInfo(info, countFailure, old(lastGood), time);
      if TimesOk(mapInfo) {
        Times.AttemptTimes(net, View(), a, countFailure, time);
      }
      Ops.TouchableEntry(net, View(), a);
      Ops.OnEntryOk(net, View(), a, f);
      var found, id := Find(a);
      if found {
        mapInfo := mapInfo[id := mapInfo[id].(lastTry := time)];
        if countFailure && mapInfo[id].lastCountAttempt < lastGood {
          mapInfo := mapInfo[id := mapInfo[id].(lastCountAttempt := time, nAttempts := mapInfo[id].nAttempts + 1)];
        }
      }
      assert View() == Ops.OnEntry(old(View()), a, f);
    }

    method Connected(a: Service, time: int)
      requires Valid()
      modifies this`mapInfo
      ensures Valid() && View() == Ops.OnEntry(old(View()), a, info => Ops.ConnectedInfo(info, time))
    {
      hide Inv, TableOf;
      ghost var f := info => Ops.ConnectedInfo(info, time);
      Ops.TouchableEntry(net, View(), a);
      Ops.OnEntryOk(net, View(), a, f);
      var found, id := Find(a);
      if found && time - mapInfo[id].nTime > 20 * 60 {
        mapInfo := mapInfo[id := mapInfo[id].(nTime := time)];
      }
      assert View() == Ops.OnEntry(old(View()), a, f);
    }

    method SetServices(a: Service, nServices: nat)
      requires Valid()
      modifies this`mapInfo
      ensures Valid() && View() == Ops.OnEntry(old(View()), a, (info: AddrInfo) => info.(nServices := nServices))
    {
      hide Inv, TableOf;
      ghost var f := (info: AddrInfo) => info.(nServices := nServices);
      Ops.TouchableEntry(net, View(), a);
      Ops.OnEntryOk(net, View(), a, f);
      var found, id := Find(a);
      if found {
        mapInfo := mapInfo[id := mapInfo[id].(nServices := nServices)];
      }
      assert View() == Ops.OnEntry(old(View()), a, f);
    }

    /** Decides one pending collision. */
    method ResolveOne(id: Id, now: int)
      requires Valid()
      modifies this, vvNew, vvTried
      ensures Valid() && View() == Ops.ResolveOne(net, old(View()), id, now)
      ensures old(TimesOk(mapInfo)) && (id in old(triedCollisions) || now > 0) ==> TimesOk(mapInfo)
    {
      hide TableOf, Inv, Ops.Good, TimesOk;
      Ops.ResolveOneOk(net, View(), id, now);
      Times.ResolvedTimes(net, View(), id, now);
      var erase := false;
      if id !in mapInfo {
        erase := true;
      } else {
        var info := mapInfo[id];
        var slot := TriedSlot(net, info.addr);
        var holder := TriedAt(slot);
        if !net.valid(info.addr) {
          erase := true;
        } else if holder != -1 {
          HolderKnown(net, View(), slot);
          var other := mapInfo[holder];
          if now - other.lastSuccess < REPLACEMENT {
            erase := true;
          } else if now - other.lastTry < REPLACEMENT {
            if now - other.lastTry > 60 {
              var moved := Good(info.addr, false, now);
              erase := true;
            }
          } else if now - info.lastSuccess > TEST_WINDOW {
            var moved := Good(info.addr, false, now);
            erase := true;
          }
        } else {
          var moved := Good(info.addr, false, now);
          erase := true;
        }
      }
      if erase {
        triedCollisions := triedCollisions - {id};
      }
    }

    /** Decides the pending collisions in the order of their ids. */
    method ResolveCollisions(clock: Id -> int) returns (ghost order: seq<Id>)
      requires Valid()
      modifies this, vvNew, vvTried
      ensures Valid() && Ops.Progress(old(View()), View()) && triedCollisions <= old(triedCollisions)
      ensures InOrder(order, {}, old(triedCollisions))
      ensures View() == Ops.ResolveInOrder(net, old(View()), order, clock)
      ensures old(TimesOk(mapInfo)) ==> TimesOk(mapInfo)
    {
      hide TableOf, Inv, Ops.ResolveOne, Ops.Progress, InOrder, TimesOk;
      var todo := triedCollisions;
      order := [];
      Ops.ProgressRefl(net, View());
      NothingInOrder(todo);
      while todo != {}
        invariant Valid() && Ops.Progress(old(View()), View()) && triedCollisions <= old(triedCollisions)
        invariant InOrder(order, todo, old(triedCollisions))
        invariant View() == Ops.ResolveInOrder(net, old(View()), order, clock)
        invariant todo <= triedCollisions && (old(TimesOk(mapInfo)) ==> TimesOk(mapInfo))
        decreases |todo|
      {
        var id := Smallest(todo);
        ghost var s := View();
        Ops.ResolveOneOk(net, s, id, clock(id));
        ResolveOne(id, clock(id));
        Ops.ProgressTrans(old(View()), s, View());
        NextInOrder(order, todo, old(triedCollisions), id);
        todo := todo - {id};
        assert (order + [id])[..|order|] == order;
        order := order + [id];
      }
    }

    /** A random pending collision: the entry it waits for, to be tested.  A dead one is dropped. */
    method SelectTriedCollision(random: nat) returns (r: Option<AddrInfo>)
      requires Valid()
      modifies this`triedCollisions
      ensures Valid()
      ensures r.Some? ==>
                && triedCollisions == old(triedCollisions)
                && exists id :: id in triedCollisions && OpponentOf(net, View(), id, r.value)
      ensures r.None? ==>
                if old(triedCollisions) == {} then triedCollisions == {}
                else exists id :: id in old(triedCollisions) && id !in mapInfo && triedCollisions == old(triedCollisions) - {id}
    {
      hide TableOf, AddrOk, RandomOk, EntriesOk, RefOk, NewOk, TriedOk, NewIds, TriedIds, AllSettled, CollisionsOk;
      r := None;
      if |triedCollisions| > 0 {
        var id := Pick(triedCollisions, random);
        if id !in mapInfo {
          Ops.Forget(net, View(), id);
          triedCollisions := triedCollisions - {id};
        } else {
          Ops.CollisionHasOpponent(net, View(), id);
          var slot := TriedSlot(net, mapInfo[id].addr);
          var other := TriedAt(slot);
          assert other != -1;
          r := Some(mapInfo[other]);
          assert OpponentOf(net, View(), id, r.value);
        }
      }
    }

    /** Moves a random one of the remaining entries to place n. */
    method Draw(n: nat, random: nat)
      requires Valid() && n < |vRandom|
      modifies this`mapInfo, this`vRandom
      ensures Valid() && SameBut(old(mapInfo), mapInfo) && |vRandom| == |old(vRandom)| && vRandom[..n] == old(vRandom)[..n]
    {
      hide TableOf, AddrOk, RandomOk, EntriesOk, RefOk, NewOk, TriedOk, NewIds, TriedIds, AllSettled, CollisionsOk;
      var pos := random % (|vRandom| - n) + n;
      Ops.SwapInv(net, View(), n, pos);
      SwapOk(View(), n, pos);
      SwapRandom(n, pos);
    }

    /** The qualifying entries in the order they are drawn, until the limit or the end is reached. */
    method GetAddr(maxAddresses: nat, maxPct: nat, wanted: Service -> bool, now: int, random: nat -> nat)
      returns (addresses: seq<Ops.NetAddress>, ghost drawn: nat)
      requires Valid()
      modifies this`mapInfo, this`vRandom
      ensures Valid() && SameBut(old(mapInfo), mapInfo) && drawn <= |vRandom| == |old(vRandom)|
      ensures addresses == Ops.Selected(mapInfo, vRandom[..drawn], wanted, now)
      ensures Ops.OnlyQualifying(mapInfo, addresses, wanted, now) && Ops.DistinctAddresses(addresses)
      ensures |addresses| <= Limit(|vRandom|, maxAddresses, maxPct)
      ensures |addresses| < Limit(|vRandom|, maxAddresses, maxPct) ==>
                drawn == |vRandom| && Ops.AllQualifying(mapInfo, addresses, wanted, now)
    {
      hide TableOf, Inv, Ops.Selected, Ops.OnlyQualifying, Ops.AllQualifying, Ops.DistinctAddresses;
      addresses := [];
      var nNodes := Limit(|vRandom|, maxAddresses, maxPct);
      var n := 0;
      Ops.SelectedNone(mapInfo, wanted, now);
      while n < |vRandom| && |addresses| < nNodes
        invariant Valid() && SameBut(old(mapInfo), mapInfo) && |vRandom| == |old(vRandom)|
        invariant 0 <= n <= |vRandom| && |addresses| <= nNodes
        invariant addresses == Ops.Selected(mapInfo, vRandom[..n], wanted, now)
        decreases |vRandom| - n
      {
        ghost var before := mapInfo;
        Draw(n, random(n));
        Ops.SelectedSame(before, mapInfo, vRandom[..n], wanted, now);
        PlaceKnown(net, View(), n);
        Ops.SelectedNext(mapInfo, vRandom, n, wanted, now);
        var ai := mapInfo[vRandom[n]];
        if wanted(ai.addr) && !IsTerrible(ai, now) {
          addresses := addresses + [Ops.AddressOf(ai)];
        }
        n := n + 1;
      }
      drawn := n;
      Ops.SelectedFrom(net, View(), n, wanted, now);
    }
  }

  function Limit(size: nat, maxAddresses: nat, maxPct: nat): nat {
    var nNodes := if maxPct != 0 then maxPct * size / 100 else size;
    if maxAddresses != 0 && maxAddresses < nNodes then maxAddresses else nNodes
  }

  lemma PlaceKnown(net: Net, s: State, i: nat)
    requires Inv(net, s) && i < |s.random|
    ensures s.random[i] in s.info
  {
  }

  ghost predicate OpponentOf(net: Net, s: State, id: Id, info: AddrInfo) {
    && id in s.info && TriedSlot(net, s.info[id].addr) in s.triedT
    && var o := s.triedT[TriedSlot(net, s.info[id].addr)];
       o != id && o in s.info && s.info[o] == info && info.inTried
  }

  ghost function Below(ids: set<Id>, bound: Id): set<Id> {
    set x | x in ids && x < bound
  }

  /** The element of a random rank. */
  method Pick(ids: set<Id>, random: nat) returns (id: Id)
    requires |ids| > 0
    ensures id in ids && |Below(ids, id)| == random % |ids|
  {
    var rest := ids;
    id := Smallest(rest);
    var k := random % |ids|;
    while k > 0
      invariant k >= 0 && rest <= ids && |rest| == |ids| - random % |ids| + k && id in rest
      invariant forall x <- ids :: if x in rest then id <= x else x < id
    {
      rest := rest - {id};
      id := Smallest(rest);
      k := k - 1;
    }
    assert Below(ids, id) == ids - rest;
    assert |rest| + |ids - rest| == |ids| by { assert ids == rest + (ids - rest); }
  }

  /** The ids handled so far ascend and come before all that are left. */
  ghost predicate InOrder(order: seq<Id>, todo: set<Id>, all: set<Id>) {
    && (forall id :: id in all <==> id in order || id in todo)
    && (forall i, j | 0 <= i < j < |order| :: order[i] < order[j])
    && (forall i, id | 0 <= i < |order| && id in todo :: order[i] < id)
  }

  lemma NothingInOrder(all: set<Id>)
    ensures InOrder([], all, all)
  {
  }

  lemma NextInOrder(order: seq<Id>, todo: set<Id>, all: set<Id>, id: Id)
    requires InOrder(order, todo, all) && id in todo && forall x <- todo :: id <= x
    ensures InOrder(order + [id], todo - {id}, all)
  {
  }

  lemma HolderKnown(net: Net, s: State, slot: Slot)
    requires Inv(net, s) && slot in s.triedT
    ensures s.triedT[slot] in s.info
  {
  }

  method Smallest(ids: set<Id>) returns (least: Id)
    requires ids != {}
    ensures least in ids && forall x <- ids :: least <= x
  {
    least :| least in ids;
    var rest := ids - {least};
    while rest != {}
      invariant least in ids && rest <= ids && forall x <- ids :: x in rest || least <= x
      decreases |rest|
    {
      var x :| x in rest;
      least := if x < least then x else least;
      rest := rest - {x};
    }
  }

  method PowerOfTwo(n: nat) returns (f: nat)
    ensures f == Pow2(n) > 0
  {
    f := 1;
    for i := 0 to n
      invariant f == Pow2(i) > 0
    {
      f := f * 2;
    }
  }

  lemma OneDivides(x: nat)
    ensures x % 1 == 0
  {
  }

  /** Clearing the slot for an evicted entry leaves that entry alone. */
  lemma ReturnClears(net: Net, s: State, id: Id, o: Id, u: Slot)
    requires Stage(net, s, -2, 0, {id, o}) && o in s.info && s.info[o].nRefCount == 0
    ensures var c := AddrManState.ClearNew(s, u);
            u !in c.newT && o in c.info && c.info[o].nRefCount == 0
  {
    hide AddrOk, RandomOk, EntriesOk, RefOk, NewOk, TriedOk, AllSettled, NewIds, TriedIds, AddrManState.ClearNew;
    NotInSlot(s.info, s.newT, u, o);
    ClearNewOk(net, s, u);
  }

  /** Some slots of an entry are freed and its count is lowered by as many. */
  ghost predicate Swept(s0: State, id: Id, removed: set<Slot>, t: State)
    requires id in s0.info
  {
    && removed <= SlotsOf(s0.newT, id)
    && t == s0.(info := s0.info[id := WithRef(s0.info[id], |SlotsOf(s0.newT, id)| - |removed|)], newT := s0.newT - removed)
  }

  lemma SweptNothing(s: State, id: Id)
    requires RefOk(s.info, s.newT) && id in s.info
    ensures Swept(s, id, {}, s)
  {
    assert s.info[id := WithRef(s.info[id], |SlotsOf(s.newT, id)|)] == s.info;
    assert s.newT - {} == s.newT;
  }

  lemma SweptMore(s0: State, id: Id, removed: set<Slot>, slot: Slot, t: State)
    requires id in s0.info && Swept(s0, id, removed, t) && slot in t.newT && t.newT[slot] == id
    ensures Swept(s0, id, removed + {slot},
                  t.(info := t.info[id := WithRef(t.info[id], t.info[id].nRefCount - 1)], newT := t.newT - {slot}))
  {
    assert s0.newT - removed - {slot} == s0.newT - (removed + {slot});
    assert |removed + {slot}| == |removed| + 1;
  }

  ghost predicate Visited(net: Net, s: State, id: Id, start: nat, n: nat, removed: set<Slot>)
    requires id in s.info
  {
    forall k | 0 <= k < n ::
      Nth(net, s.info[id].addr, start, k) in SlotsOf(s.newT, id) ==> Nth(net, s.info[id].addr, start, k) in removed
  }

  lemma AllSwept(net: Net, s: State, id: Id, start: nat, n: nat, removed: set<Slot>)
    requires NewOk(net, s.info, s.newT) && id in s.info && start < NEW_BUCKET_COUNT && removed <= SlotsOf(s.newT, id)
    requires Visited(net, s, id, start, n, removed) && (n >= NEW_BUCKET_COUNT || |SlotsOf(s.newT, id)| == |removed|)
    ensures removed == SlotsOf(s.newT, id)
  {
    if n >= NEW_BUCKET_COUNT {
      forall t | t in SlotsOf(s.newT, id) ensures t in removed {
        var k := (t.bucket - start) % NEW_BUCKET_COUNT;
        assert t == Nth(net, s.info[id].addr, start, k);
      }
    } else {
      SubsetSameSize(removed, SlotsOf(s.newT, id));
    }
  }

  /** The slot looked at in the k-th round. */
  ghost function Nth(net: Net, a: Service, start: nat, k: nat): Slot {
    Slot((start + k) % NEW_BUCKET_COUNT, Position(net, a, true, (start + k) % NEW_BUCKET_COUNT))
  }

  lemma SubsetSameSize(a: set<Slot>, b: set<Slot>)
    requires a <= b && |a| >= |b|
    ensures a == b
  {
    if x :| x in b && x !in a {
      SubsetCard(a, b - {x});
    }
  }

  lemma {:induction false} SubsetCard(a: set<Slot>, b: set<Slot>)
    requires a <= b
    ensures |a| <= |b|
  {
    if x :| x in a {
      SubsetCard(a - {x}, b - {x});
    }
  }
}
