/**
The operations of the address manager on values, and that each of them keeps the whole
consistency condition `Inv`: src/addrman.cpp.
*/
module AddrManOps {
  import opened Numbers
  import opened AddrManState

  // ---------------------------------------------------------------- MakeTried

  ghost function MakeTried(net: Net, s: State, id: Id): State {
    if id !in s.info then s
    else
      var slot := TriedSlot(net, s.info[id].addr);
      var s1 := SweepStep(s, id);
      var s2 := if slot in s1.triedT then ReturnStep(net, EvictStep(s1, slot), s1.triedT[slot]) else s1;
      PromoteStep(net, s2, id)
  }

  lemma NarrowedTrans(s: State, t: State, u: State, id: Id)
    requires Narrowed(s, t, id) && Narrowed(t, u, id)
    ensures Narrowed(s, u, id)
  {
  }

  /** An entry is back in the new table, in the one slot that its own source selects. */
  ghost predicate Demoted(net: Net, s: State, t: State, o: Id) {
    && o in s.info && o in t.info && !t.info[o].inTried
    && SlotsOf(t.newT, o) == {NewSlot(net, s.info[o].addr, s.info[o].source)}
  }

  function Tried(info: AddrInfo, pos: int): AddrInfo {
    info.(inTried := true, nRefCount := 0, randomPos := pos)
  }

  /** The entry moves; what was in its tried slot goes back to the new table, and nothing else becomes tried. */
  lemma MakeTriedOk(net: Net, s: State, id: Id)
    requires Stage(net, s, 0, 0, {}) && id in s.info && !s.info[id].inTried
    ensures var t := MakeTried(net, s, id);
            && Stage(net, t, 0, 0, {}) && Narrowed(s, t, id)
            && t.triedT == s.triedT[TriedSlot(net, s.info[id].addr) := id]
            && id in t.info && t.info[id] == Tried(s.info[id], t.info[id].randomPos)
            && (TriedSlot(net, s.info[id].addr) in s.triedT ==> Demoted(net, s, t, s.triedT[TriedSlot(net, s.info[id].addr)]))
  {
    hide Stage, Narrowed, Sweep, Evict, ReturnStep, Promote, SlotsOf;
    var slot := TriedSlot(net, s.info[id].addr);
    SweepStage(net, s, id);
    var s1 := SweepStep(s, id);
    SweepShape(s, id);
    if slot in s.triedT {
      var o := s.triedT[slot];
      EvictStage(net, s1, id, slot);
      var e := EvictStep(s1, slot);
      EvictShape(s1, slot, id);
      NarrowedTrans(s, s1, e, id);
      ReturnStage(net, e, id, o);
      var s2 := ReturnStep(net, e, o);
      NarrowedTrans(s, e, s2, id);
      PromoteStage(net, s2, id);
      NarrowedTrans(s, s2, PromoteStep(net, s2, id), id);
      PromoteShape(net, s2, id);
      assert (s.triedT - {slot})[slot := id] == s.triedT[slot := id];
    } else {
      PromoteStage(net, s1, id);
      NarrowedTrans(s, s1, PromoteStep(net, s1, id), id);
      PromoteShape(net, s1, id);
    }
  }

  lemma SweepShape(s: State, id: Id)
    requires id in s.info
    ensures var t := SweepStep(s, id);
            && Narrowed(s, t, id) && t.triedT == s.triedT && id in t.info && t.info[id] == WithRef(s.info[id], 0)
            && forall x <- s.info | x != id :: x in t.info && t.info[x] == s.info[x]
  {
  }

  lemma EvictShape(s: State, slot: Slot, id: Id)
    requires slot in s.triedT && s.triedT[slot] in s.info && s.triedT[slot] != id && id in s.info
    ensures var t, o := EvictStep(s, slot), s.triedT[slot];
            && Narrowed(s, t, id) && t.triedT == s.triedT - {slot} && id in t.info && t.info[id] == s.info[id]
            && o in t.info && t.info[o] == s.info[o].(inTried := false)
  {
  }

  lemma PromoteShape(net: Net, s: State, id: Id)
    requires id in s.info
    ensures var t := PromoteStep(net, s, id);
            && t.triedT == s.triedT[TriedSlot(net, s.info[id].addr) := id] && t.newT == s.newT
            && t.info == s.info[id := s.info[id].(inTried := true)]
  {
  }

  // ---------------------------------------------------------------- updating one entry

  /** A new value for an entry that stays where it is. */
  ghost predicate Touches(info: AddrInfo, v: AddrInfo) {
    && v.addr == info.addr && v.nRefCount == info.nRefCount && v.inTried == info.inTried && v.randomPos == info.randomPos
  }

  lemma TouchOk(net: Net, s: State, id: Id, v: AddrInfo)
    requires Inv(net, s) && id in s.info && Touches(s.info[id], v)
    ensures Inv(net, s.(info := s.info[id := v]))
  {
    hide AddrOk, RandomOk, EntriesOk, RefOk, TriedOk, NewOk, NewIds, TriedIds, AllSettled, CollisionsOk;
    UpdateKeepsIndex(net, s, id, v);
    ShapeKeepsTables(net, s, s.info[id := v]);
    ShapeKeepsCounts(net, s, s.info[id := v]);
    TouchSettled(s.info, id, v);
  }

  lemma TouchSettled(info: Infos, id: Id, v: AddrInfo)
    requires AllSettled(info, {}) && id in info && Touches(info[id], v)
    ensures AllSettled(info[id := v], {})
  {
  }

  // ---------------------------------------------------------------- Good

  function Succeeded(info: AddrInfo, time: int): AddrInfo {
    info.(lastSuccess := time, lastTry := time, nAttempts := 0)
  }

  /** Moves an entry to the tried table, or makes it wait when its slot there is taken. */
  ghost function Advance(net: Net, s: State, id: Id, testBeforeEvict: bool): State
    requires id in s.info
  {
    if s.info[id].inTried || s.info[id].nRefCount <= 0 then s
    else if testBeforeEvict && TriedSlot(net, s.info[id].addr) in s.triedT then
      if |s.collisions| < SET_TRIED_COLLISION_SIZE then s.(collisions := s.collisions + {id}) else s
    else MakeTried(net, s, id)
  }

  ghost function Good(net: Net, s: State, a: Service, testBeforeEvict: bool, time: int): State {
    var s0 := s.(lastGood := time);
    if a !in s.addr || s.addr[a] !in s.info then s0
    else
      var id := s.addr[a];
      Advance(net, s0.(info := s.info[id := Succeeded(s.info[id], time)]), id, testBeforeEvict)
  }

  /** Everything but one pending collision, which is about to be erased. */
  ghost predicate InvBut(net: Net, s: State, id: Id) {
    Stage(net, s, 0, 0, {}) && CollisionsOk(net, s.info, s.triedT, s.nIdCount, s.collisions - {id})
  }

  lemma NarrowedKeepsCollisions(net: Net, s: State, t: State, id: Id)
    requires Narrowed(s, t, id) && s.triedT.Keys <= t.triedT.Keys
    requires CollisionsOk(net, s.info, s.triedT, s.nIdCount, s.collisions)
    ensures CollisionsOk(net, t.info, t.triedT, t.nIdCount, t.collisions - {id})
  {
  }

  /** A tried slot once occupied stays occupied, and an id stands for one address for ever. */
  ghost predicate Progress(s: State, t: State) {
    && s.triedT.Keys <= t.triedT.Keys && s.nIdCount <= t.nIdCount
    && (forall id <- t.info | id < s.nIdCount :: id in s.info && t.info[id].addr == s.info[id].addr)
  }

  lemma ProgressRefl(net: Net, s: State)
    requires Inv(net, s)
    ensures Progress(s, s)
  {
  }

  lemma ProgressTrans(s: State, t: State, u: State)
    requires Progress(s, t) && Progress(t, u)
    ensures Progress(s, u)
  {
  }

  lemma MakeTriedInv(net: Net, s: State, id: Id)
    requires Inv(net, s) && id in s.info && !s.info[id].inTried
    ensures var t := MakeTried(net, s, id);
            && InvBut(net, t, id) && Progress(s, t) && t.collisions == s.collisions
            && (TriedSlot(net, s.info[id].addr) !in s.triedT ==> Inv(net, t))
  {
    hide AddrOk, RandomOk, EntriesOk, RefOk, TriedOk, NewOk, Counts, AllSettled, MakeTried;
    MakeTriedOk(net, s, id);
    var t := MakeTried(net, s, id);
    NarrowedKeepsCollisions(net, s, t, id);
    if TriedSlot(net, s.info[id].addr) !in s.triedT {
      assert id !in s.collisions;
      assert s.collisions - {id} == s.collisions;
    }
  }

  /** With the test before eviction everything is kept; without it, all but the collision being resolved. */
  lemma GoodOk(net: Net, s: State, a: Service, testBeforeEvict: bool, time: int)
    requires Inv(net, s)
    ensures var t := Good(net, s, a, testBeforeEvict, time);
            && Progress(s, t)
            && if testBeforeEvict then Inv(net, t)
               else t.collisions == s.collisions && (a in s.addr ==> InvBut(net, t, s.addr[a])) && (a !in s.addr ==> Inv(net, t))
  {
    hide AddrOk, RandomOk, EntriesOk, RefOk, TriedOk, NewOk, Counts, AllSettled, MakeTried, CollisionsOk;
    if a in s.addr {
      var id := s.addr[a];
      Found(net, s, a);
      var s1 := s.(lastGood := time, info := s.info[id := Succeeded(s.info[id], time)]);
      TouchOk(net, s, id, Succeeded(s.info[id], time));
      GoodTime(net, s.(info := s.info[id := Succeeded(s.info[id], time)]), time);
      if s.info[id].inTried {
        InvIsInvBut(net, s1, id);
      } else if testBeforeEvict && TriedSlot(net, a) in s.triedT {
        Collide(net, s1, id);
      } else {
        MakeTriedInv(net, s1, id);
      }
    } else {
      GoodTime(net, s, time);
    }
  }

  /** The entry has taken the slot, and the one that was there is new again. */
  ghost predicate Replaced(net: Net, s: State, t: State, id: Id, time: int)
    requires id in s.info
  {
    var slot := TriedSlot(net, s.info[id].addr);
    && t.triedT == s.triedT[slot := id]
    && id in t.info && t.info[id] == Tried(Succeeded(s.info[id], time), t.info[id].randomPos)
    && (slot in s.triedT ==> s.triedT[slot] != id && Demoted(net, s, t, s.triedT[slot]))
  }

  /** A tried entry only gets its times; a new one gets the tried slot, unless that is taken and may not
      be, when it waits if there is room to. */
  ghost predicate GoodOn(net: Net, s: State, t: State, id: Id, testBeforeEvict: bool, time: int)
    requires id in s.info
  {
    if s.info[id].inTried || (testBeforeEvict && TriedSlot(net, s.info[id].addr) in s.triedT) then
      && t.triedT == s.triedT && t.newT == s.newT && t.info == s.info[id := Succeeded(s.info[id], time)]
      && t.collisions == if s.info[id].inTried || |s.collisions| >= SET_TRIED_COLLISION_SIZE then s.collisions
                         else s.collisions + {id}
    else
      Replaced(net, s, t, id, time) && t.collisions == s.collisions
  }

  /** What a success changes; for an unknown address that is nothing but the time. */
  lemma GoodEffect(net: Net, s: State, a: Service, testBeforeEvict: bool, time: int)
    requires Inv(net, s)
    ensures var t := Good(net, s, a, testBeforeEvict, time);
            && t.lastGood == time
            && (a !in s.addr ==> t == s.(lastGood := time))
            && (a in s.addr ==> s.addr[a] in s.info && GoodOn(net, s, t, s.addr[a], testBeforeEvict, time))
  {
    hide AddrOk, RandomOk, EntriesOk, RefOk, TriedOk, NewOk, Counts, AllSettled, MakeTried, CollisionsOk;
    if a in s.addr {
      var id := s.addr[a];
      Found(net, s, a);
      var s1 := s.(lastGood := time, info := s.info[id := Succeeded(s.info[id], time)]);
      TouchOk(net, s, id, Succeeded(s.info[id], time));
      GoodTime(net, s.(info := s.info[id := Succeeded(s.info[id], time)]), time);
      if !s.info[id].inTried && !(testBeforeEvict && TriedSlot(net, a) in s.triedT) {
        MakeTriedOk(net, s1, id);
        NotThere(net, s, id);
      }
    }
  }

  /** An entry that is not tried is in no tried slot. */
  lemma NotThere(net: Net, s: State, id: Id)
    requires TriedOk(net, s.info, s.triedT) && id in s.info && !s.info[id].inTried
    ensures forall slot <- s.triedT :: s.triedT[slot] != id
  {
  }

  lemma GoodTime(net: Net, s: State, time: int)
    ensures Inv(net, s.(lastGood := time)) <==> Inv(net, s)
  {
  }

  lemma Found(net: Net, s: State, a: Service)
    requires Inv(net, s) && a in s.addr
    ensures s.addr[a] in s.info && s.info[s.addr[a]].addr == a
    ensures s.info[s.addr[a]].inTried || s.info[s.addr[a]].nRefCount > 0
  {
  }

  lemma InvIsInvBut(net: Net, s: State, id: Id)
    requires Inv(net, s)
    ensures InvBut(net, s, id)
  {
  }

  lemma Collide(net: Net, s: State, id: Id)
    requires Inv(net, s) && id in s.info && !s.info[id].inTried && TriedSlot(net, s.info[id].addr) in s.triedT
    ensures |s.collisions| < SET_TRIED_COLLISION_SIZE ==> Inv(net, s.(collisions := s.collisions + {id}))
  {
    hide AddrOk, RandomOk, RefOk, TriedOk, NewOk, NewIds, TriedIds, AllSettled;
  }

  // ---------------------------------------------------------------- AddSingle

  datatype Added = Added(state: State, inserted: bool)

  /** Puts an entry into the bucket its source selects, if the slot is free or its holder gives way. */
  function PlaceNew(net: Net, s: State, id: Id, source: NetAddr, now: int): Added {
    if id !in s.info then Added(s, false)
    else
      var slot := NewSlot(net, s.info[id].addr, source);
      if slot in s.newT && s.newT[slot] == id then Added(s, false)
      else if GivesWay(s, slot, id, now) then Added(Insert(ClearNew(s, slot), slot, id), true)
      else Added(if s.info[id].nRefCount == 0 then Delete(s, id) else s, false)
  }

  predicate GivesWay(s: State, slot: Slot, id: Id, now: int)
    requires id in s.info
  {
    slot !in s.newT || s.newT[slot] !in s.info || IsTerrible(s.info[s.newT[slot]], now)
    || (s.info[s.newT[slot]].nRefCount > 1 && s.info[id].nRefCount == 0)
  }

  lemma PlaceNewOk(net: Net, s: State, id: Id, source: NetAddr, now: int)
    requires Stage(net, s, 0, 0, {id}) && CollisionsOk(net, s.info, s.triedT, s.nIdCount, s.collisions)
    requires id in s.info && !s.info[id].inTried && 0 <= s.info[id].nRefCount < NEW_BUCKETS_PER_ADDRESS
    ensures var t := PlaceNew(net, s, id, source, now).state;
            Inv(net, t) && Progress(s, t) && t.nIdCount == s.nIdCount
  {
    hide AddrOk, RandomOk, EntriesOk, RefOk, TriedOk, NewOk, NewIds, TriedIds, AllSettled, CollisionsOk, ClearNew, Delete, Insert;
    var slot := NewSlot(net, s.info[id].addr, source);
    if slot in s.newT && s.newT[slot] == id {
      if s.info[id].nRefCount == 0 {
        NotInSlot(s.info, s.newT, slot, id);
      }
      SettledAgain(s.info, id);
    } else if GivesWay(s, slot, id, now) {
      PlaceInserted(net, s, id, slot);
    } else if s.info[id].nRefCount == 0 {
      DeleteOk(net, s, id);
      DeleteCounts(net, s, Delete(s, id), id);
    } else {
      SettledAgain(s.info, id);
    }
  }

  lemma SettledAgain(info: Infos, id: Id)
    requires AllSettled(info, {id}) && id in info && Settled(info[id])
    ensures AllSettled(info, {})
  {
  }

  lemma DeleteCounts(net: Net, s: State, t: State, id: Id)
    requires Counts(s, 0, 0) && AllSettled(s.info, {id}) && Without(s, t, id) && id in s.info && !s.info[id].inTried
    requires CollisionsOk(net, s.info, s.triedT, s.nIdCount, s.collisions)
    ensures Counts(t, 0, 0) && AllSettled(t.info, {}) && CollisionsOk(net, t.info, t.triedT, t.nIdCount, t.collisions)
  {
    assert NewIds(t.info) == NewIds(s.info) - {id};
    assert TriedIds(t.info) == TriedIds(s.info);
  }

  lemma PlaceInserted(net: Net, s: State, id: Id, slot: Slot)
    requires Stage(net, s, 0, 0, {id}) && CollisionsOk(net, s.info, s.triedT, s.nIdCount, s.collisions)
    requires id in s.info && !s.info[id].inTried && 0 <= s.info[id].nRefCount < NEW_BUCKETS_PER_ADDRESS
    requires slot.bucket < NEW_BUCKET_COUNT && slot.pos == Position(net, s.info[id].addr, true, slot.bucket)
    requires slot in s.newT ==> s.newT[slot] != id
    ensures var t := Insert(ClearNew(s, slot), slot, id);
            Inv(net, t) && Progress(s, t) && t.nIdCount == s.nIdCount
  {
    hide AddrOk, RandomOk, EntriesOk, RefOk, TriedOk, NewOk, NewIds, TriedIds, AllSettled, CollisionsOk, ClearNew;
    ClearNewOk(net, s, slot);
    var c := ClearNew(s, slot);
    ClearedKeeps(net, s, c, slot, {id});
    InsertOk(net, c, slot, id);
    var v := WithRef(c.info[id], c.info[id].nRefCount + 1);
    SameFlag(c.info, id, v);
    SettledNow(c.info, id, v, {id});
    assert {id} - {id} == {};
    ShapelessCollisions(net, c, id, v);
  }

  lemma ShapelessCollisions(net: Net, s: State, id: Id, v: AddrInfo)
    requires CollisionsOk(net, s.info, s.triedT, s.nIdCount, s.collisions)
    requires id in s.info && v.addr == s.info[id].addr && v.inTried == s.info[id].inTried
    ensures CollisionsOk(net, s.info[id := v], s.triedT, s.nIdCount, s.collisions)
  {
  }

  function Max0(x: int): int { if x > 0 then x else 0 }

  /** The time and the services another announcement of a known address leaves behind. */
  function Reannounced(info: AddrInfo, nTime: int, nServices: nat, penalty: int, now: int): AddrInfo {
    var interval := if now - nTime < 24 * 3600 then 3600 else 24 * 3600;
    info.(nTime := if info.nTime < nTime - interval - penalty then Max0(nTime - penalty) else info.nTime,
          nServices := BitOr(info.nServices, nServices))
  }

  /** An address that is known: it may get one more place, the less likely the more it has. */
  function AddAgain(net: Net, s: State, id: Id, nTime: int, nServices: nat, source: NetAddr,
                    penalty: int, now: int, random: nat): Added
    requires id in s.info
  {
    var v := Reannounced(s.info[id], nTime, nServices, penalty, now);
    var s1 := s.(info := s.info[id := v]);
    if nTime <= v.nTime || v.inTried || v.nRefCount == NEW_BUCKETS_PER_ADDRESS || v.nRefCount < 0
       || random % Pow2(v.nRefCount) != 0 then Added(s1, false)
    else PlaceNew(net, s1, id, source, now)
  }

  function AddFresh(net: Net, s: State, a: Service, nTime: int, nServices: nat, source: NetAddr, now: int): Added {
    PlaceNew(net, Create(s, a, nTime, nServices, source).(nNew := s.nNew + 1), s.nIdCount, source, now)
  }

  function AddSingle(net: Net, s: State, a: Service, nTime: int, nServices: nat, source: NetAddr,
                     timePenalty: int, now: int, random: nat): Added
  {
    var penalty := if net.host(a) == source then 0 else timePenalty;
    if !IsRoutable(net, a) then Added(s, false)
    else if a in s.addr && s.addr[a] in s.info then
      AddAgain(net, s, s.addr[a], nTime, nServices, source, penalty, now, random)
    else AddFresh(net, s, a, Max0(nTime - penalty), nServices, source, now)
  }

  /** The slot is free, its holder is terrible, or the holder has other slots and the newcomer none. */
  ghost predicate FreshFits(s: State, slot: Slot, now: int) {
    slot !in s.newT || s.newT[slot] !in s.info || IsTerrible(s.info[s.newT[slot]], now) || s.info[s.newT[slot]].nRefCount > 1
  }

  /** True means a new place in the slot its source selects; false leaves both tables as they were.
      An unknown address is entered exactly when that slot can be had. */
  lemma AddSingleEffect(net: Net, s: State, a: Service, nTime: int, nServices: nat, source: NetAddr,
                        timePenalty: int, now: int, random: nat)
    requires Inv(net, s)
    ensures var r := AddSingle(net, s, a, nTime, nServices, source, timePenalty, now, random);
            var slot := NewSlot(net, a, source);
            && r.state.triedT == s.triedT
            && (r.inserted ==> a in r.state.addr && r.state.newT == s.newT[slot := r.state.addr[a]])
            && (!r.inserted ==> r.state.newT == s.newT && r.state.addr.Keys == s.addr.Keys && r.state.nNew == s.nNew)
            && (a !in s.addr ==> (r.inserted <==> IsRoutable(net, a) && FreshFits(s, slot, now)))
  {
    hide RandomOk, EntriesOk, RefOk, TriedOk, NewOk, NewIds, TriedIds, AllSettled, CollisionsOk, PlaceNew;
    hide Pow, IsTerrible, BitOr, NewSlot;
    var penalty := if net.host(a) == source then 0 else timePenalty;
    if IsRoutable(net, a) {
      if a in s.addr {
        Found(net, s, a);
        var id := s.addr[a];
        var v := Reannounced(s.info[id], nTime, nServices, penalty, now);
        TouchOk(net, s, id, v);
        if !v.inTried && v.nRefCount != NEW_BUCKETS_PER_ADDRESS {
          PlaceNewEffect(net, s.(info := s.info[id := v]), id, a, source, now);
        }
      } else {
        FreshEffect(net, s, a, Max0(nTime - penalty), nServices, source, now);
      }
    }
  }

  /** The slot is free, or another entry holds it that is terrible. */
  ghost predicate KnownFits(s: State, slot: Slot, id: Id, now: int) {
    slot !in s.newT || (s.newT[slot] != id && s.newT[slot] in s.info && IsTerrible(s.info[s.newT[slot]], now))
  }

  /** A known address gets another place exactly if it is announced as newer, is not tried, has room for one more
      and wins the draw against the places it has, and that slot can be had. */
  lemma KnownEffect(net: Net, s: State, a: Service, nTime: int, nServices: nat, source: NetAddr,
                    timePenalty: int, now: int, random: nat)
    requires Inv(net, s) && a in s.addr && IsRoutable(net, a)
    ensures s.addr[a] in s.info
    ensures var r := AddSingle(net, s, a, nTime, nServices, source, timePenalty, now, random);
            var info := s.info[s.addr[a]];
            var penalty := if net.host(a) == source then 0 else timePenalty;
            r.inserted <==>
              && !info.inTried && 0 < info.nRefCount < NEW_BUCKETS_PER_ADDRESS
              && nTime > Reannounced(info, nTime, nServices, penalty, now).nTime
              && random % Pow2(info.nRefCount) == 0 && KnownFits(s, NewSlot(net, a, source), s.addr[a], now)
  {
    hide RandomOk, EntriesOk, RefOk, TriedOk, NewIds, TriedIds, CollisionsOk, ClearNew, Delete, Insert, IsTerrible;
    hide NewSlot, Pow, BitOr, Position;
    Found(net, s, a);
    var id := s.addr[a];
    assert Settled(s.info[id]);
    var slot := NewSlot(net, a, source);
    assert slot in s.newT ==> s.newT[slot] in s.info;
  }

  lemma PlaceNewEffect(net: Net, s: State, id: Id, a: Service, source: NetAddr, now: int)
    requires Core(net, s) && id in s.info && s.info[id].addr == a && !s.info[id].inTried
    ensures var r := PlaceNew(net, s, id, source, now);
            var slot := NewSlot(net, a, source);
            && r.state.triedT == s.triedT
            && (r.inserted ==> a in r.state.addr && r.state.addr[a] == id && r.state.newT == s.newT[slot := id])
            && (!r.inserted ==> r.state.newT == s.newT)
            && (!r.inserted && s.info[id].nRefCount > 0 ==> r.state == s)
            && (!r.inserted && s.info[id].nRefCount == 0 ==> r.state.addr == s.addr - {a} && r.state.nNew == s.nNew - 1)
            && (s.info[id].nRefCount == 0 ==> (r.inserted <==> FreshFits(s, slot, now)))
  {
    hide AddrOk, RandomOk, EntriesOk, RefOk, TriedOk, NewOk, NewIds, TriedIds, ClearNew, Delete, Insert, IsTerrible, NewSlot;
    var slot := NewSlot(net, a, source);
    if s.info[id].nRefCount == 0 {
      NotInSlot(s.info, s.newT, slot, id);
      DeleteOk(net, s, id);
      DeleteAddr(s, id);
    } else {
      PositiveRefs(s.info, s.newT, id);
    }
    if !(slot in s.newT && s.newT[slot] == id) {
      InsertedEffect(net, s, slot, id);
    }
  }

  /** The slot is cleared for the entry and filled with it. */
  lemma InsertedEffect(net: Net, s: State, slot: Slot, id: Id)
    requires Core(net, s) && id in s.info && !(slot in s.newT && s.newT[slot] == id)
    ensures var t := Insert(ClearNew(s, slot), slot, id);
            var a := s.info[id].addr;
            t.triedT == s.triedT && a in t.addr && t.addr[a] == id && t.newT == s.newT[slot := id]
  {
    hide RandomOk, EntriesOk, RefOk, TriedOk, NewOk, NewIds, TriedIds, ClearNew;
    ClearNewOk(net, s, slot);
    assert (s.newT - {slot})[slot := id] == s.newT[slot := id];
  }

  lemma PositiveRefs(info: Infos, newT: Table, id: Id)
    requires RefOk(info, newT) && id in info
    ensures info[id].nRefCount >= 0
  {
  }

  lemma DeleteAddr(s: State, id: Id)
    requires id in s.info && RandomOk(s.info, s.random)
    ensures Delete(s, id).addr == s.addr - {s.info[id].addr}
  {
    hide RandomOk, Swap;
    PosInRange(s.info, s.random, id);
    SwapOk(s, s.info[id].randomPos, |s.random| - 1);
  }

  lemma FreshEffect(net: Net, s: State, a: Service, nTime: int, nServices: nat, source: NetAddr, now: int)
    requires Inv(net, s) && IsRoutable(net, a) && a !in s.addr
    ensures var r := AddFresh(net, s, a, nTime, nServices, source, now);
            var slot := NewSlot(net, a, source);
            && r.state.triedT == s.triedT
            && (r.inserted ==> a in r.state.addr && r.state.newT == s.newT[slot := r.state.addr[a]])
            && (!r.inserted ==> r.state.newT == s.newT && r.state.addr.Keys == s.addr.Keys && r.state.nNew == s.nNew)
            && (r.inserted <==> FreshFits(s, slot, now))
  {
    hide AddrOk, RandomOk, EntriesOk, RefOk, TriedOk, NewIds, TriedIds, AllSettled, CollisionsOk, PlaceNew, IsTerrible, NewSlot;
    CreateOk(net, s, a, nTime, nServices, source);
    var s1 := Create(s, a, nTime, nServices, source).(nNew := s.nNew + 1);
    PlaceNewEffect(net, s1, s.nIdCount, a, source, now);
    var slot := NewSlot(net, a, source);
    assert slot in s.newT ==> s.newT[slot] in s.info && s1.info[s.newT[slot]] == s.info[s.newT[slot]];
  }

  /** One announcement after the other; true if any of them got a new place. */
  function AddFirst(net: Net, s: State, addrs: seq<(Service, int, nat)>, n: nat, source: NetAddr,
                    timePenalty: int, now: nat -> int, random: nat -> nat): Added
    requires n <= |addrs|
  {
    if n == 0 then Added(s, false)
    else
      var before := AddFirst(net, s, addrs, n - 1, source, timePenalty, now, random);
      var a := addrs[n - 1];
      var last := AddSingle(net, before.state, a.0, a.1, a.2, source, timePenalty, now(n - 1), random(n - 1));
      Added(last.state, before.inserted || last.inserted)
  }

  lemma AddSingleOk(net: Net, s: State, a: Service, nTime: int, nServices: nat, source: NetAddr,
                    timePenalty: int, now: int, random: nat)
    requires Inv(net, s)
    ensures var t := AddSingle(net, s, a, nTime, nServices, source, timePenalty, now, random).state;
            Inv(net, t) && Progress(s, t)
  {
    hide AddrOk, RandomOk, EntriesOk, RefOk, TriedOk, NewOk, NewIds, TriedIds, AllSettled, CollisionsOk, PlaceNew, Create, Pow;
    var penalty := if net.host(a) == source then 0 else timePenalty;
    if IsRoutable(net, a) {
      if a in s.addr {
        Found(net, s, a);
        var id := s.addr[a];
        var v := Reannounced(s.info[id], nTime, nServices, penalty, now);
        TouchOk(net, s, id, v);
        AddKnown(net, s.(info := s.info[id := v]), id, source, now);
      } else {
        AddNew(net, s, a, Max0(nTime - penalty), nServices, source, now);
      }
    }
  }

  lemma AddKnown(net: Net, s: State, id: Id, source: NetAddr, now: int)
    requires Inv(net, s) && id in s.info
    ensures !s.info[id].inTried && s.info[id].nRefCount != NEW_BUCKETS_PER_ADDRESS ==>
              var t := PlaceNew(net, s, id, source, now).state;
              Inv(net, t) && Progress(s, t)
  {
    hide Core, Counts, CollisionsOk, PlaceNew;
    if !s.info[id].inTried && s.info[id].nRefCount != NEW_BUCKETS_PER_ADDRESS {
      PlaceNewOk(net, s, id, source, now);
    }
  }

  lemma AddNew(net: Net, s: State, a: Service, nTime: int, nServices: nat, source: NetAddr, now: int)
    requires Inv(net, s) && IsRoutable(net, a) && a !in s.addr
    ensures var s1 := Create(s, a, nTime, nServices, source).(nNew := s.nNew + 1);
            var t := PlaceNew(net, s1, s.nIdCount, source, now).state;
            Inv(net, t) && Progress(s, t)
  {
    hide AddrOk, RandomOk, EntriesOk, RefOk, TriedOk, NewOk, NewIds, TriedIds, AllSettled, CollisionsOk, PlaceNew;
    CreateOk(net, s, a, nTime, nServices, source);
    CreateCounts(net, s, FreshInfo(a, nTime, nServices, source, |s.random|));
    PlaceNewOk(net, Create(s, a, nTime, nServices, source).(nNew := s.nNew + 1), s.nIdCount, source, now);
  }

  lemma CreateCounts(net: Net, s: State, v: AddrInfo)
    requires Counts(s, 0, 0) && AllSettled(s.info, {}) && s.nIdCount !in s.info && !v.inTried
    requires CollisionsOk(net, s.info, s.triedT, s.nIdCount, s.collisions)
    ensures |NewIds(s.info[s.nIdCount := v])| == |NewIds(s.info)| + 1 && |TriedIds(s.info[s.nIdCount := v])| == |TriedIds(s.info)|
    ensures AllSettled(s.info[s.nIdCount := v], {s.nIdCount})
    ensures CollisionsOk(net, s.info[s.nIdCount := v], s.triedT, s.nIdCount + 1, s.collisions)
  {
    IdsUpdate(s.info, s.nIdCount, v);
    assert s.nIdCount !in NewIds(s.info) && TriedIds(s.info) - {s.nIdCount} == TriedIds(s.info);
  }

  // ---------------------------------------------------------------- operations on one entry

  function AttemptInfo(info: AddrInfo, countFailure: bool, lastGood: int, time: int): AddrInfo {
    if countFailure && info.lastCountAttempt < lastGood
    then info.(lastTry := time, lastCountAttempt := time, nAttempts := info.nAttempts + 1)
    else info.(lastTry := time)
  }

  function ConnectedInfo(info: AddrInfo, time: int): AddrInfo {
    if time - info.nTime > 20 * 60 then info.(nTime := time) else info
  }

  function OnEntry(s: State, a: Service, f: AddrInfo -> AddrInfo): State {
    if a in s.addr && s.addr[a] in s.info then s.(info := s.info[s.addr[a] := f(s.info[s.addr[a]])]) else s
  }

  lemma OnEntryOk(net: Net, s: State, a: Service, f: AddrInfo -> AddrInfo)
    requires Inv(net, s) && (a in s.addr && s.addr[a] in s.info ==> Touches(s.info[s.addr[a]], f(s.info[s.addr[a]])))
    ensures Inv(net, OnEntry(s, a, f)) && Progress(s, OnEntry(s, a, f))
  {
    hide Inv;
    if a in s.addr && s.addr[a] in s.info {
      TouchOk(net, s, s.addr[a], f(s.info[s.addr[a]]));
      InvIds(net, s);
    }
  }

  lemma InvIds(net: Net, s: State)
    requires Inv(net, s)
    ensures forall id <- s.info :: id < s.nIdCount
  {
  }

  // ---------------------------------------------------------------- collisions

  datatype Verdict = Keep | Erase | Replace

  /** What becomes of a pending collision: it waits, is dropped, or replaces the tried entry. */
  function Resolution(net: Net, s: State, id: Id, now: int): Verdict {
    if id !in s.info || !net.valid(s.info[id].addr) then Erase
    else
      var slot := TriedSlot(net, s.info[id].addr);
      if slot !in s.triedT || s.triedT[slot] !in s.info then Replace
      else
        var o := s.info[s.triedT[slot]];
        if now - o.lastSuccess < REPLACEMENT then Erase
        else if now - o.lastTry < REPLACEMENT then if now - o.lastTry > 60 then Replace else Keep
        else if now - s.info[id].lastSuccess > TEST_WINDOW then Replace
        else Keep
  }

  ghost function ResolveOne(net: Net, s: State, id: Id, now: int): State {
    match Resolution(net, s, id, now)
    case Keep => s
    case Erase => s.(collisions := s.collisions - {id})
    case Replace =>
      var t := Good(net, s, s.info[id].addr, false, now);
      t.(collisions := t.collisions - {id})
  }

  lemma ResolveOneOk(net: Net, s: State, id: Id, now: int)
    requires Inv(net, s)
    ensures var t := ResolveOne(net, s, id, now);
            Inv(net, t) && Progress(s, t) && s.collisions - {id} <= t.collisions <= s.collisions
  {
    hide AddrOk, RandomOk, EntriesOk, RefOk, TriedOk, NewOk, NewIds, TriedIds, AllSettled, Good;
    InvIds(net, s);
    match Resolution(net, s, id, now)
    case Keep =>
    case Erase =>
      Forget(net, s, id);
    case Replace =>
      EntryFound(net, s, id);
      GoodOk(net, s, s.info[id].addr, false, now);
      Forget(net, Good(net, s, s.info[id].addr, false, now), id);
  }

  /** A pending collision is dropped when it is dead or the tried entry has proved itself, replaces that
      entry when a test of it is over or none was made in time, and otherwise waits. */
  lemma ResolveOneEffect(net: Net, s: State, id: Id, now: int)
    requires Inv(net, s) && id in s.collisions
    ensures var t := ResolveOne(net, s, id, now);
            && (id !in s.info ==> t == s.(collisions := s.collisions - {id}))
            && (id in s.info ==>
                  var slot := TriedSlot(net, s.info[id].addr);
                  slot in s.triedT && s.triedT[slot] in s.info &&
                  var o := s.info[s.triedT[slot]];
                  var proved := now - o.lastSuccess < REPLACEMENT;
                  var tested := now - o.lastTry < REPLACEMENT;
                  if proved then t == s.(collisions := s.collisions - {id})
                  else if (if tested then now - o.lastTry > 60 else now - s.info[id].lastSuccess > TEST_WINDOW) then
                    Replaced(net, s, t, id, now) && t.collisions == s.collisions - {id}
                  else t == s)
  {
    hide AddrOk, RandomOk, RefOk, TriedOk, NewOk, NewIds, TriedIds, AllSettled, Good, Replaced;
    if id in s.info {
      CollisionHasOpponent(net, s, id);
      Routable(net, s, id);
      if Resolution(net, s, id, now) == Replace {
        EntryFound(net, s, id);
        GoodEffect(net, s, s.info[id].addr, false, now);
        var t := Good(net, s, s.info[id].addr, false, now);
        ReplacedStill(net, s, t, id, now, t.collisions - {id});
      }
    }
  }

  lemma Routable(net: Net, s: State, id: Id)
    requires EntriesOk(net, s.info, s.nIdCount) && id in s.info
    ensures net.valid(s.info[id].addr)
  {
  }

  lemma ReplacedStill(net: Net, s: State, t: State, id: Id, now: int, collisions: set<Id>)
    requires id in s.info && Replaced(net, s, t, id, now)
    ensures Replaced(net, s, t.(collisions := collisions), id, now)
  {
    hide SlotsOf;
  }

  lemma EntryFound(net: Net, s: State, id: Id)
    requires Inv(net, s) && id in s.info
    ensures s.info[id].addr in s.addr && s.addr[s.info[id].addr] == id
  {
  }

  lemma Forget(net: Net, s: State, id: Id)
    requires InvBut(net, s, id) || Inv(net, s)
    ensures Inv(net, s.(collisions := s.collisions - {id}))
  {
    hide AddrOk, RandomOk, EntriesOk, RefOk, TriedOk, NewOk, NewIds, TriedIds, AllSettled;
  }

  ghost function ResolveInOrder(net: Net, s: State, order: seq<Id>, clock: Id -> int): State
    decreases |order|
  {
    if order == [] then s
    else
      var n := |order| - 1;
      ResolveOne(net, ResolveInOrder(net, s, order[..n], clock), order[n], clock(order[n]))
  }

  /** The tried entry a live pending collision waits for: there always is one. */
  lemma CollisionHasOpponent(net: Net, s: State, id: Id)
    requires Inv(net, s) && id in s.collisions && id in s.info
    ensures var slot := TriedSlot(net, s.info[id].addr);
            slot in s.triedT && s.triedT[slot] in s.info && s.info[s.triedT[slot]].inTried && s.triedT[slot] != id
  {
  }

  // ---------------------------------------------------------------- addresses for other nodes

  datatype NetAddress = NetAddress(addr: Service, nTime: int, nServices: nat)

  function AddressOf(info: AddrInfo): NetAddress {
    NetAddress(info.addr, info.nTime, info.nServices)
  }

  predicate Qualifies(info: AddrInfo, wanted: Service -> bool, now: int) {
    wanted(info.addr) && !IsTerrible(info, now)
  }

  /** The qualifying addresses among some ids, in their order. */
  function Selected(info: Infos, ids: seq<Id>, wanted: Service -> bool, now: int): (r: seq<NetAddress>)
    ensures |r| <= |ids|
  {
    if ids == [] then []
    else
      var n := |ids| - 1;
      var before := Selected(info, ids[..n], wanted, now);
      if ids[n] in info && Qualifies(info[ids[n]], wanted, now) then before + [AddressOf(info[ids[n]])] else before
  }

  lemma {:induction false} SelectedSame(info: Infos, next: Infos, ids: seq<Id>, wanted: Service -> bool, now: int)
    requires SameBut(info, next)
    ensures Selected(next, ids, wanted, now) == Selected(info, ids, wanted, now)
  {
    if ids != [] {
      SelectedSame(info, next, ids[..|ids| - 1], wanted, now);
    }
  }

  lemma SelectedNone(info: Infos, wanted: Service -> bool, now: int)
    ensures forall ids: seq<Id> :: Selected(info, ids[..0], wanted, now) == []
  {
  }

  lemma SelectedNext(info: Infos, ids: seq<Id>, n: nat, wanted: Service -> bool, now: int)
    requires n < |ids| && ids[n] in info
    ensures var before := Selected(info, ids[..n], wanted, now);
            Selected(info, ids[..n + 1], wanted, now)
            == if Qualifies(info[ids[n]], wanted, now) then before + [AddressOf(info[ids[n]])] else before
  {
    assert ids[..n + 1][..n] == ids[..n];
  }

  /** Each is the address of one of the ids, which qualifies. */
  lemma {:induction false} SelectedSound(info: Infos, ids: seq<Id>, wanted: Service -> bool, now: int, a: NetAddress)
    requires a in Selected(info, ids, wanted, now)
    ensures exists id :: id in ids && id in info && Qualifies(info[id], wanted, now) && AddressOf(info[id]) == a
  {
    var n := |ids| - 1;
    if a in Selected(info, ids[..n], wanted, now) {
      SelectedSound(info, ids[..n], wanted, now, a);
    } else {
      assert ids[n] in ids;
    }
  }

  lemma {:induction false} SelectedComplete(info: Infos, ids: seq<Id>, wanted: Service -> bool, now: int, id: Id)
    requires id in ids && id in info && Qualifies(info[id], wanted, now)
    ensures AddressOf(info[id]) in Selected(info, ids, wanted, now)
  {
    var n := |ids| - 1;
    if id in ids[..n] {
      SelectedComplete(info, ids[..n], wanted, now, id);
    }
  }

  predicate DistinctAddresses(r: seq<NetAddress>) {
    forall i, j | 0 <= i < j < |r| :: r[i].addr != r[j].addr
  }

  /** No address is given twice. */
  lemma {:induction false} SelectedDistinct(net: Net, s: State, n: nat, wanted: Service -> bool, now: int)
    requires Inv(net, s) && n <= |s.random|
    ensures DistinctAddresses(Selected(s.info, s.random[..n], wanted, now))
  {
    hide Inv, IsTerrible;
    if n > 0 {
      SelectedDistinct(net, s, n - 1, wanted, now);
      assert s.random[..n][..n - 1] == s.random[..n - 1];
      var before, last := Selected(s.info, s.random[..n - 1], wanted, now), s.random[n - 1];
      assert s.random[..n][n - 1] == last;
      if last !in s.info || !Qualifies(s.info[last], wanted, now) {
        assert Selected(s.info, s.random[..n], wanted, now) == before;
      } else {
        forall i | 0 <= i < |before| ensures before[i].addr != s.info[last].addr {
          NotYetGiven(net, s, n - 1, wanted, now, before[i]);
        }
        assert AddressOf(s.info[last]).addr == s.info[last].addr;
        assert Selected(s.info, s.random[..n], wanted, now) == before + [AddressOf(s.info[last])];
      }
    }
  }

  lemma NotYetGiven(net: Net, s: State, n: nat, wanted: Service -> bool, now: int, a: NetAddress)
    requires Inv(net, s) && n < |s.random| && s.random[n] in s.info && a in Selected(s.info, s.random[..n], wanted, now)
    ensures a.addr != s.info[s.random[n]].addr
  {
    hide Inv, IsTerrible, Selected;
    SelectedSound(s.info, s.random[..n], wanted, now, a);
    var id :| id in s.random[..n] && id in s.info && AddressOf(s.info[id]) == a;
    var k: nat :| k < n && s.random[..n][k] == id;
    DistinctPlaces(net, s, k, n);
    assert s.random[k] == id;
    assert a.addr == AddressOf(s.info[id]).addr;
    assert AddressOf(s.info[id]).addr == s.info[id].addr;
  }

  lemma DistinctPlaces(net: Net, s: State, i: nat, j: nat)
    requires Inv(net, s) && i < j < |s.random|
    ensures s.random[i] in s.info && s.random[j] in s.info && s.info[s.random[i]].addr != s.info[s.random[j]].addr
  {
  }

  /** The random order holds every id. */
  lemma EveryIdPlaced(net: Net, s: State, id: Id)
    requires Inv(net, s) && id in s.info
    ensures id in s.random
  {
  }

  ghost predicate OnlyQualifying(info: Infos, r: seq<NetAddress>, wanted: Service -> bool, now: int) {
    forall a <- r :: exists id :: id in info && Qualifies(info[id], wanted, now) && AddressOf(info[id]) == a
  }

  ghost predicate AllQualifying(info: Infos, r: seq<NetAddress>, wanted: Service -> bool, now: int) {
    forall id <- info :: Qualifies(info[id], wanted, now) ==> AddressOf(info[id]) in r
  }

  /** What is given out after n entries were drawn: qualifying entries, none twice, and all of them at the end. */
  lemma SelectedFrom(net: Net, s: State, n: nat, wanted: Service -> bool, now: int)
    requires Inv(net, s) && n <= |s.random|
    ensures var r := Selected(s.info, s.random[..n], wanted, now);
            && OnlyQualifying(s.info, r, wanted, now) && DistinctAddresses(r)
            && (n == |s.random| ==> AllQualifying(s.info, r, wanted, now))
  {
    hide Inv, IsTerrible, Selected;
    var r := Selected(s.info, s.random[..n], wanted, now);
    SelectedDistinct(net, s, n, wanted, now);
    forall a <- r ensures exists id :: id in s.info && Qualifies(s.info[id], wanted, now) && AddressOf(s.info[id]) == a {
      SelectedSound(s.info, s.random[..n], wanted, now, a);
    }
    if n == |s.random| {
      forall id <- s.info | Qualifies(s.info[id], wanted, now) ensures AddressOf(s.info[id]) in r {
        EveryIdPlaced(net, s, id);
        assert s.random[..n] == s.random;
        SelectedComplete(s.info, s.random, wanted, now, id);
      }
    }
  }

  // ---------------------------------------------------------------- whole runs

  datatype Event =
    | AddEvent(a: Service, nTime: int, nServices: nat, source: NetAddr, timePenalty: int, now: int, random: nat)
    | GoodEvent(a: Service, time: int)
    | AttemptEvent(a: Service, countFailure: bool, time: int)
    | ConnectedEvent(a: Service, time: int)
    | SetServicesEvent(a: Service, nServices: nat)
    | ResolveEvent(id: Id, now: int)
    | SwapEvent(i: nat, j: nat)

  ghost function Apply(net: Net, s: State, e: Event): State {
    match e
    case AddEvent(a, nTime, nServices, source, timePenalty, now, random) =>
      AddSingle(net, s, a, nTime, nServices, source, timePenalty, now, random).state
    case GoodEvent(a, time) => Good(net, s, a, true, time)
    case AttemptEvent(a, countFailure, time) => OnEntry(s, a, info => AttemptInfo(info, countFailure, s.lastGood, time))
    case ConnectedEvent(a, time) => OnEntry(s, a, info => ConnectedInfo(info, time))
    case SetServicesEvent(a, nServices) => OnEntry(s, a, (info: AddrInfo) => info.(nServices := nServices))
    case ResolveEvent(id, now) => if id in s.collisions then ResolveOne(net, s, id, now) else s
    case SwapEvent(i, j) => Swap(s, i, j)
  }

  lemma ApplyOk(net: Net, s: State, e: Event)
    requires Inv(net, s)
    ensures Inv(net, Apply(net, s, e)) && Progress(s, Apply(net, s, e))
  {
    hide Inv, AddSingle, Good, ResolveOne, Swap, Progress;
    match e
    case AddEvent(a, nTime, nServices, source, timePenalty, now, random) =>
      AddSingleOk(net, s, a, nTime, nServices, source, timePenalty, now, random);
    case GoodEvent(a, time) => GoodOk(net, s, a, true, time);
    case AttemptEvent(a, countFailure, time) =>
      TouchableEntry(net, s, a);
      OnEntryOk(net, s, a, info => AttemptInfo(info, countFailure, s.lastGood, time));
    case ConnectedEvent(a, time) =>
      TouchableEntry(net, s, a);
      OnEntryOk(net, s, a, info => ConnectedInfo(info, time));
    case SetServicesEvent(a, nServices) =>
      TouchableEntry(net, s, a);
      OnEntryOk(net, s, a, (info: AddrInfo) => info.(nServices := nServices));
    case ResolveEvent(id, now) =>
      ResolveOneOk(net, s, id, now);
      ProgressRefl(net, s);
    case SwapEvent(i, j) => SwapInv(net, s, i, j);
  }

  lemma TouchableEntry(net: Net, s: State, a: Service)
    requires Inv(net, s)
    ensures a in s.addr && s.addr[a] in s.info ==> Touches(s.info[s.addr[a]], s.info[s.addr[a]])
  {
    if a in s.addr {
      Found(net, s, a);
    }
  }

  lemma SwapInv(net: Net, s: State, i: nat, j: nat)
    requires Inv(net, s)
    ensures Inv(net, Swap(s, i, j)) && Progress(s, Swap(s, i, j))
  {
    hide AddrOk, RandomOk, EntriesOk, RefOk, TriedOk, NewOk, NewIds, TriedIds, AllSettled, CollisionsOk;
    if i < |s.random| && j < |s.random| {
      SwapOk(s, i, j);
      var t := Swap(s, i, j);
      ShapeKeepsTables(net, s, t.info);
      ShapeKeepsCounts(net, s, t.info);
      PositionsKeepEntries(net, s.info, t.info, s.nIdCount);
      PositionsKeepSettled(s.info, t.info);
    }
    InvIds(net, s);
  }

  lemma PositionsKeepSettled(info: Infos, next: Infos)
    requires SameBut(info, next) && AllSettled(info, {})
    ensures AllSettled(next, {})
  {
  }

  ghost function Run(net: Net, s: State, events: seq<Event>): State
    decreases |events|
  {
    if events == [] then s else Run(net, Apply(net, s, events[0]), events[1..])
  }

  /** In every reachable state everything is consistent; tried slots stay occupied and ids are not reused. */
  lemma {:induction false} RunOk(net: Net, s: State, events: seq<Event>)
    requires Inv(net, s)
    ensures Inv(net, Run(net, s, events)) && Progress(s, Run(net, s, events))
    decreases |events|
  {
    hide Inv, Apply;
    if events == [] {
      InvIds(net, s);
    } else {
      ApplyOk(net, s, events[0]);
      RunOk(net, Apply(net, s, events[0]), events[1..]);
    }
  }
}
