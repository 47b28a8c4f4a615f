/**
The state of the address manager as a value, and what its operations do to it:
src/addrman.cpp and src/addrman_impl.h.

Tables hold only their occupied slots.  The consistency conditions are split into parts that
hold at every intermediate step (`Core`) and parts that hold between operations (`Inv`).
Hashes, network groups and address properties are parameters (`Net`); so are the clock and
the random numbers of the operations.
*/
module AddrManState {
  import opened Numbers

  const TRIED_BUCKET_COUNT := 256
  const NEW_BUCKET_COUNT := 1024
  const BUCKET_SIZE := 64
  const NEW_BUCKETS_PER_ADDRESS := 8
  const HORIZON := 30 * 24 * 3600
  const RETRIES := 3
  const MAX_FAILURES := 10
  const MIN_FAIL := 7 * 24 * 3600
  const REPLACEMENT := 4 * 3600
  const SET_TRIED_COLLISION_SIZE := 10
  const TEST_WINDOW := 40 * 60

  type Service = nat
  type NetAddr = nat

  datatype Net = Net(
    triedHash: Service -> nat,
    newHash: (Service, NetAddr) -> nat,
    positionHash: (Service, bool, nat) -> nat,
    host: Service -> NetAddr,
    valid: Service -> bool,
    reserved: Service -> bool)

  predicate IsRoutable(net: Net, a: Service) { net.valid(a) && !net.reserved(a) }

  datatype Slot = Slot(bucket: nat, pos: nat)

  function TriedBucket(net: Net, a: Service): nat { net.triedHash(a) % TRIED_BUCKET_COUNT }
  function NewBucket(net: Net, a: Service, source: NetAddr): nat { net.newHash(a, source) % NEW_BUCKET_COUNT }
  function Position(net: Net, a: Service, isNew: bool, bucket: nat): nat { net.positionHash(a, isNew, bucket) % BUCKET_SIZE }

  function TriedSlot(net: Net, a: Service): Slot {
    Slot(TriedBucket(net, a), Position(net, a, false, TriedBucket(net, a)))
  }

  function NewSlot(net: Net, a: Service, source: NetAddr): Slot {
    Slot(NewBucket(net, a, source), Position(net, a, true, NewBucket(net, a, source)))
  }

  datatype AddrInfo = AddrInfo(
    addr: Service, nTime: int, nServices: nat, source: NetAddr,
    lastTry: int, lastCountAttempt: int, lastSuccess: int, nAttempts: nat,
    nRefCount: int, inTried: bool, randomPos: int)

  predicate IsTerrible(info: AddrInfo, now: int) {
    if now - info.lastTry <= 60 then false
    else if info.nTime > now + 600 then true
    else if now - info.nTime > HORIZON then true
    else if info.lastSuccess == 0 && info.nAttempts >= RETRIES then true
    else now - info.lastSuccess > MIN_FAIL && info.nAttempts >= MAX_FAILURES
  }

  type Id = nat
  type Table = map<Slot, Id>
  type Infos = map<Id, AddrInfo>

  datatype State = State(
    info: Infos, addr: map<Service, Id>, random: seq<Id>,
    newT: Table, triedT: Table,
    nNew: int, nTried: int, nIdCount: nat, collisions: set<Id>, lastGood: int)

  // ---------------------------------------------------------------- counting

  ghost function SlotsOf(t: Table, id: Id): set<Slot> {
    set s | s in t && t[s] == id
  }

  ghost function NewIds(info: Infos): set<Id> {
    set id | id in info && !info[id].inTried
  }

  ghost function TriedIds(info: Infos): set<Id> {
    set id | id in info && info[id].inTried
  }

  lemma SlotsRemove(t: Table, s: Slot, id: Id)
    ensures SlotsOf(t - {s}, id) == SlotsOf(t, id) - {s}
  {
  }

  lemma SlotsAdd(t: Table, s: Slot, x: Id, id: Id)
    requires s !in t
    ensures SlotsOf(t[s := x], id) == if id == x then SlotsOf(t, id) + {s} else SlotsOf(t, id)
  {
  }

  lemma IdsUpdate(info: Infos, id: Id, v: AddrInfo)
    ensures NewIds(info[id := v]) == if v.inTried then NewIds(info) - {id} else NewIds(info) + {id}
    ensures TriedIds(info[id := v]) == if v.inTried then TriedIds(info) + {id} else TriedIds(info) - {id}
  {
  }

  // ---------------------------------------------------------------- consistency

  /** Addresses and ids determine each other. */
  ghost predicate AddrOk(info: Infos, addr: map<Service, Id>) {
    && (forall id <- info :: info[id].addr in addr && addr[info[id].addr] == id)
    && (forall a <- addr :: addr[a] in info && info[addr[a]].addr == a)
  }

  /** The random order and the positions kept in the entries are inverse to each other. */
  ghost predicate RandomOk(info: Infos, random: seq<Id>) {
    && (forall id <- info :: 0 <= info[id].randomPos < |random| && random[info[id].randomPos] == id)
    && (forall i | 0 <= i < |random| :: random[i] in info && info[random[i]].randomPos == i)
  }

  /** Ids come from the counter, and addresses are valid. */
  ghost predicate EntriesOk(net: Net, info: Infos, nIdCount: nat) {
    forall id <- info :: id < nIdCount && net.valid(info[id].addr)
  }

  /** Slots of the new table hold entries that are not tried, at their hash positions. */
  ghost predicate NewOk(net: Net, info: Infos, newT: Table) {
    forall t <- newT ::
      && t.bucket < NEW_BUCKET_COUNT && newT[t] in info && !info[newT[t]].inTried
      && t.pos == Position(net, info[newT[t]].addr, true, t.bucket)
  }

  /** Reference counts are numbers of slots. */
  ghost predicate RefOk(info: Infos, newT: Table) {
    forall id <- info :: info[id].nRefCount == |SlotsOf(newT, id)|
  }

  /** The tried table holds each tried entry at its one slot, and nothing else. */
  ghost predicate TriedOk(net: Net, info: Infos, triedT: Table) {
    && (forall t <- triedT ::
          triedT[t] in info && info[triedT[t]].inTried && t == TriedSlot(net, info[triedT[t]].addr))
    && (forall id <- info | info[id].inTried ::
          TriedSlot(net, info[id].addr) in triedT && triedT[TriedSlot(net, info[id].addr)] == id)
  }

  ghost predicate Core(net: Net, s: State) {
    && AddrOk(s.info, s.addr) && RandomOk(s.info, s.random) && EntriesOk(net, s.info, s.nIdCount)
    && NewOk(net, s.info, s.newT) && RefOk(s.info, s.newT) && TriedOk(net, s.info, s.triedT)
  }

  /** An entry between operations: tried, or referenced from the new table. */
  ghost predicate Settled(info: AddrInfo) {
    if info.inTried then info.nRefCount == 0
    else 1 <= info.nRefCount <= NEW_BUCKETS_PER_ADDRESS
  }

  ghost predicate AllSettled(info: Infos, except: set<Id>) {
    forall id <- info | id !in except :: Settled(info[id])
  }

  /** The counters are off by the given amounts. */
  ghost predicate Counts(s: State, dNew: int, dTried: int) {
    s.nNew == |NewIds(s.info)| + dNew && s.nTried == |TriedIds(s.info)| + dTried
  }

  /** At most ten collisions; a live one waits for an occupied slot and is not tried itself. */
  ghost predicate CollisionsOk(net: Net, info: Infos, triedT: Table, nIdCount: nat, collisions: set<Id>) {
    && |collisions| <= SET_TRIED_COLLISION_SIZE
    && (forall id <- collisions ::
          id < nIdCount && (id in info ==> !info[id].inTried && TriedSlot(net, info[id].addr) in triedT))
  }

  /** What holds between operations, whatever the clock says. */
  ghost predicate Inv(net: Net, s: State) {
    && Core(net, s) && AllSettled(s.info, {}) && Counts(s, 0, 0)
    && CollisionsOk(net, s.info, s.triedT, s.nIdCount, s.collisions)
  }

  /** No time is negative, and a tried entry has been reached at some time. */
  ghost predicate TimesOk(info: Infos) {
    forall id <- info :: info[id].lastTry >= 0 && info[id].lastSuccess >= 0 && (info[id].inTried ==> info[id].lastSuccess > 0)
  }

  function Empty(): State {
    State(map[], map[], [], map[], map[], 0, 0, 0, {}, 1)
  }

  lemma EmptyOk(net: Net)
    ensures Inv(net, Empty())
  {
    assert NewIds(Empty().info) == {} && TriedIds(Empty().info) == {};
  }

  // ---------------------------------------------------------------- entries that keep their shape

  /** Everything that tables, counters and maps depend on is the same. */
  ghost predicate SameShape(info: Infos, next: Infos) {
    && next.Keys == info.Keys
    && (forall id <- info ::
          && next[id].addr == info[id].addr
          && next[id].nRefCount == info[id].nRefCount && next[id].inTried == info[id].inTried)
  }

  lemma ShapeKeepsTables(net: Net, s: State, next: Infos)
    requires SameShape(s.info, next)
    ensures AddrOk(s.info, s.addr) ==> AddrOk(next, s.addr)
    ensures NewOk(net, s.info, s.newT) ==> NewOk(net, next, s.newT)
    ensures RefOk(s.info, s.newT) ==> RefOk(next, s.newT)
    ensures TriedOk(net, s.info, s.triedT) ==> TriedOk(net, next, s.triedT)
  {
    hide SlotsOf;
  }

  lemma ShapeKeepsCounts(net: Net, s: State, next: Infos)
    requires SameShape(s.info, next)
    ensures NewIds(next) == NewIds(s.info) && TriedIds(next) == TriedIds(s.info)
    ensures CollisionsOk(net, s.info, s.triedT, s.nIdCount, s.collisions)
            ==> CollisionsOk(net, next, s.triedT, s.nIdCount, s.collisions)
  {
  }

  // ---------------------------------------------------------------- random order

  function WithPos(info: AddrInfo, pos: int): AddrInfo {
    info.(randomPos := pos)
  }

  function SwapInfos(info: Infos, a: Id, b: Id, i: nat, j: nat): Infos
    requires a in info && b in info
  {
    info[a := WithPos(info[a], j)][b := WithPos(info[b], i)]
  }

  function Swap(s: State, i: int, j: int): State {
    if i == j || !(0 <= i < |s.random| && 0 <= j < |s.random| && s.random[i] in s.info && s.random[j] in s.info) then s
    else
      var a, b := s.random[i], s.random[j];
      s.(info := SwapInfos(s.info, a, b, i, j), random := s.random[i := b][j := a])
  }

  /** The same entries up to their positions. */
  ghost predicate SameBut(info: Infos, next: Infos) {
    next.Keys == info.Keys && forall id <- info :: next[id] == WithPos(info[id], next[id].randomPos)
  }

  lemma SwapOk(s: State, i: nat, j: nat)
    requires RandomOk(s.info, s.random) && i < |s.random| && j < |s.random|
    ensures var t := Swap(s, i, j);
            && RandomOk(t.info, t.random) && SameBut(s.info, t.info)
            && |t.random| == |s.random| && t == s.(info := t.info, random := t.random)
            && t.random[i] == s.random[j] && t.random[j] == s.random[i]
  {
    if i != j {
      assert s.random[i] != s.random[j];
      SwappedOrder(s.info, s.random, i, j);
    }
  }

  lemma SwappedOrder(info: Infos, random: seq<Id>, i: nat, j: nat)
    requires RandomOk(info, random) && i < |random| && j < |random| && random[i] != random[j]
    ensures RandomOk(SwapInfos(info, random[i], random[j], i, j), random[i := random[j]][j := random[i]])
  {
    var a, b := random[i], random[j];
    var next, order := SwapInfos(info, a, b, i, j), random[i := b][j := a];
    forall id <- next ensures 0 <= next[id].randomPos < |order| && order[next[id].randomPos] == id {
      assert id != a && id != b ==> next[id] == info[id];
    }
    forall k | 0 <= k < |order| ensures order[k] in next && next[order[k]].randomPos == k {
      assert k != i && k != j ==> order[k] == random[k] && random[k] != a && random[k] != b;
    }
  }

  // ---------------------------------------------------------------- deletion

  function Delete(s: State, id: Id): State {
    if id !in s.info then s else RemoveLast(Swap(s, s.info[id].randomPos, |s.random| - 1), id)
  }

  function RemoveLast(s: State, id: Id): State {
    if id !in s.info || |s.random| == 0 then s
    else s.(random := s.random[..|s.random| - 1], addr := s.addr - {s.info[id].addr}, info := s.info - {id}, nNew := s.nNew - 1)
  }

  /** Everything but one entry, its address and its place in the order stays. */
  ghost predicate Without(s: State, t: State, id: Id) {
    && t.info.Keys == s.info.Keys - {id} && SameBut(s.info - {id}, t.info)
    && t == s.(info := t.info, random := t.random, addr := t.addr, nNew := s.nNew - 1)
  }

  lemma DeleteOk(net: Net, s: State, id: Id)
    requires Core(net, s) && id in s.info && !s.info[id].inTried && s.info[id].nRefCount == 0
    ensures Core(net, Delete(s, id)) && Without(s, Delete(s, id), id)
  {
    hide AddrOk, RandomOk, EntriesOk, NewOk, RefOk, TriedOk, RemoveLast, Swap;
    PosInRange(s.info, s.random, id);
    var t := Swap(s, s.info[id].randomPos, |s.random| - 1);
    SwapOk(s, s.info[id].randomPos, |s.random| - 1);
    ShapeKeepsTables(net, s, t.info);
    PositionsKeepEntries(net, s.info, t.info, s.nIdCount);
    RemoveOk(net, t, id);
    RemoveShape(s, t, id);
  }

  lemma RemoveShape(s: State, t: State, id: Id)
    requires id in s.info && SameBut(s.info, t.info) && t == s.(info := t.info, random := t.random) && |t.random| > 0
    ensures Without(s, RemoveLast(t, id), id)
  {
  }

  lemma PosInRange(info: Infos, random: seq<Id>, id: Id)
    requires RandomOk(info, random) && id in info
    ensures 0 <= info[id].randomPos < |random| && random[info[id].randomPos] == id
    ensures random[|random| - 1] in info
  {
  }

  lemma PositionsKeepEntries(net: Net, info: Infos, next: Infos, nIdCount: nat)
    requires SameBut(info, next) && EntriesOk(net, info, nIdCount)
    ensures EntriesOk(net, next, nIdCount)
  {
  }

  lemma RemoveOk(net: Net, s: State, id: Id)
    requires Core(net, s) && id in s.info && !s.info[id].inTried && s.info[id].nRefCount == 0
    requires |s.random| > 0 && s.random[|s.random| - 1] == id
    ensures Core(net, RemoveLast(s, id))
  {
    hide AddrOk, RandomOk, EntriesOk, NewOk, RefOk, TriedOk;
    RemoveAddr(s.info, s.addr, id);
    RemoveRandom(s.info, s.random, id);
    RemoveEntry(net, s, id);
    RemoveNew(net, s.info, s.newT, id);
    RemoveTried(net, s.info, s.triedT, id);
  }

  lemma RemoveAddr(info: Infos, addr: map<Service, Id>, id: Id)
    requires AddrOk(info, addr) && id in info
    ensures AddrOk(info - {id}, addr - {info[id].addr})
  {
  }

  lemma RemoveRandom(info: Infos, random: seq<Id>, id: Id)
    requires RandomOk(info, random) && |random| > 0 && random[|random| - 1] == id
    ensures RandomOk(info - {id}, random[..|random| - 1])
  {
  }

  lemma RemoveEntry(net: Net, s: State, id: Id)
    requires EntriesOk(net, s.info, s.nIdCount) && RefOk(s.info, s.newT)
    ensures EntriesOk(net, s.info - {id}, s.nIdCount) && RefOk(s.info - {id}, s.newT)
  {
    hide SlotsOf;
  }

  lemma RemoveNew(net: Net, info: Infos, newT: Table, id: Id)
    requires NewOk(net, info, newT) && RefOk(info, newT) && id in info && info[id].nRefCount == 0
    ensures NewOk(net, info - {id}, newT)
  {
    forall t <- newT ensures newT[t] != id {
      assert t in SlotsOf(newT, newT[t]);
    }
  }

  lemma RemoveTried(net: Net, info: Infos, triedT: Table, id: Id)
    requires TriedOk(net, info, triedT) && id in info && !info[id].inTried
    ensures TriedOk(net, info - {id}, triedT)
  {
  }

  // ---------------------------------------------------------------- single steps

  /** A new value for an entry that keeps its address and position. */
  lemma UpdateKeepsIndex(net: Net, s: State, id: Id, v: AddrInfo)
    requires AddrOk(s.info, s.addr) && RandomOk(s.info, s.random) && EntriesOk(net, s.info, s.nIdCount)
    requires id in s.info && v.addr == s.info[id].addr && v.randomPos == s.info[id].randomPos
    ensures AddrOk(s.info[id := v], s.addr) && RandomOk(s.info[id := v], s.random)
    ensures EntriesOk(net, s.info[id := v], s.nIdCount)
  {
  }

  function WithRef(info: AddrInfo, n: int): AddrInfo {
    info.(nRefCount := n)
  }

  /** Frees a slot of the new table and lowers the count of its entry. */
  function Drop(s: State, slot: Slot): State {
    if slot !in s.newT || s.newT[slot] !in s.info then s
    else
      var id := s.newT[slot];
      s.(newT := s.newT - {slot}, info := s.info[id := WithRef(s.info[id], s.info[id].nRefCount - 1)])
  }

  lemma DropOk(net: Net, s: State, slot: Slot)
    requires Core(net, s) && slot in s.newT
    ensures s.newT[slot] in s.info && s.info[s.newT[slot]].nRefCount > 0 && Core(net, Drop(s, slot))
  {
    hide AddrOk, RandomOk, EntriesOk, RefOk, TriedOk;
    var id := s.newT[slot];
    EntryKnown(net, s, id);
    UpdateKeepsIndex(net, s, id, WithRef(s.info[id], s.info[id].nRefCount - 1));
    DropRefs(s.info, s.newT, slot);
    RefKeepsTried(net, s.info, s.triedT, id, s.info[id].nRefCount - 1);
  }

  lemma EntryKnown(net: Net, s: State, id: Id)
    requires EntriesOk(net, s.info, s.nIdCount) && id in s.info
    ensures id < s.nIdCount && net.valid(s.info[id].addr)
  {
  }

  lemma DropRefs(info: Infos, newT: Table, slot: Slot)
    requires RefOk(info, newT) && slot in newT && newT[slot] in info
    ensures info[newT[slot]].nRefCount > 0
    ensures RefOk(info[newT[slot] := WithRef(info[newT[slot]], info[newT[slot]].nRefCount - 1)], newT - {slot})
  {
    var id := newT[slot];
    assert slot in SlotsOf(newT, id);
    forall x <- info ensures |SlotsOf(newT - {slot}, x)| == if x == id then info[x].nRefCount - 1 else info[x].nRefCount {
      SlotsRemove(newT, slot, x);
    }
  }

  lemma RefKeepsTried(net: Net, info: Infos, triedT: Table, id: Id, n: int)
    requires TriedOk(net, info, triedT) && id in info
    ensures TriedOk(net, info[id := WithRef(info[id], n)], triedT)
  {
  }

  /** Puts an entry into a free slot of the new table and raises its count. */
  function Insert(s: State, slot: Slot, id: Id): State {
    if id !in s.info then s
    else s.(newT := s.newT[slot := id], info := s.info[id := WithRef(s.info[id], s.info[id].nRefCount + 1)])
  }

  lemma InsertOk(net: Net, s: State, slot: Slot, id: Id)
    requires Core(net, s) && id in s.info && !s.info[id].inTried && slot !in s.newT
    requires slot.bucket < NEW_BUCKET_COUNT && slot.pos == Position(net, s.info[id].addr, true, slot.bucket)
    ensures Core(net, Insert(s, slot, id))
  {
    hide AddrOk, RandomOk, EntriesOk, RefOk, TriedOk;
    EntryKnown(net, s, id);
    UpdateKeepsIndex(net, s, id, WithRef(s.info[id], s.info[id].nRefCount + 1));
    InsertRefs(s.info, s.newT, slot, id);
    RefKeepsTried(net, s.info, s.triedT, id, s.info[id].nRefCount + 1);
  }

  lemma InsertRefs(info: Infos, newT: Table, slot: Slot, id: Id)
    requires RefOk(info, newT) && slot !in newT && id in info
    ensures RefOk(info[id := WithRef(info[id], info[id].nRefCount + 1)], newT[slot := id])
  {
    forall x <- info ensures |SlotsOf(newT[slot := id], x)| == if x == id then info[x].nRefCount + 1 else info[x].nRefCount {
      SlotsAdd(newT, slot, id, x);
    }
  }

  /** Takes an entry out of all its slots of the new table. */
  ghost function Sweep(s: State, id: Id): State {
    if id !in s.info then s
    else s.(newT := s.newT - SlotsOf(s.newT, id), info := s.info[id := WithRef(s.info[id], 0)])
  }

  lemma SweepOk(net: Net, s: State, id: Id)
    requires Core(net, s) && id in s.info
    ensures Core(net, Sweep(s, id)) && SlotsOf(Sweep(s, id).newT, id) == {}
  {
    hide AddrOk, RandomOk, EntriesOk, RefOk, TriedOk;
    EntryKnown(net, s, id);
    UpdateKeepsIndex(net, s, id, WithRef(s.info[id], 0));
    SweepRefs(s.info, s.newT, id);
    RefKeepsTried(net, s.info, s.triedT, id, 0);
  }

  lemma SweepRefs(info: Infos, newT: Table, id: Id)
    requires RefOk(info, newT) && id in info
    ensures RefOk(info[id := WithRef(info[id], 0)], newT - SlotsOf(newT, id)) && SlotsOf(newT - SlotsOf(newT, id), id) == {}
  {
    forall x <- info
      ensures SlotsOf(newT - SlotsOf(newT, id), x) == if x == id then {} else SlotsOf(newT, x)
    {
    }
  }

  /** Takes an entry out of the tried table; for the moment it is in no table. */
  function Evict(s: State, slot: Slot): State {
    if slot !in s.triedT || s.triedT[slot] !in s.info then s
    else
      var old_ := s.triedT[slot];
      s.(triedT := s.triedT - {slot}, info := s.info[old_ := s.info[old_].(inTried := false)])
  }

  lemma EvictOk(net: Net, s: State, slot: Slot)
    requires Core(net, s) && slot in s.triedT
    ensures s.triedT[slot] in s.info && Core(net, Evict(s, slot))
  {
    hide AddrOk, RandomOk, EntriesOk, RefOk, NewOk;
    var id := s.triedT[slot];
    EntryKnown(net, s, id);
    UpdateKeepsIndex(net, s, id, s.info[id].(inTried := false));
    FlagKeepsNew(net, s.info, s.newT, id, false);
  }

  lemma FlagKeepsNew(net: Net, info: Infos, newT: Table, id: Id, flag: bool)
    requires NewOk(net, info, newT) && RefOk(info, newT) && id in info && (flag ==> info[id].nRefCount == 0)
    ensures NewOk(net, info[id := info[id].(inTried := flag)], newT) && RefOk(info[id := info[id].(inTried := flag)], newT)
  {
    if flag {
      forall t <- newT ensures newT[t] != id {
        assert t in SlotsOf(newT, newT[t]);
      }
    }
  }

  /** Puts an entry that is in no table into its free slot of the tried table. */
  function Promote(net: Net, s: State, id: Id): State {
    if id !in s.info then s
    else s.(triedT := s.triedT[TriedSlot(net, s.info[id].addr) := id], info := s.info[id := s.info[id].(inTried := true)])
  }

  lemma PromoteOk(net: Net, s: State, id: Id)
    requires Core(net, s) && id in s.info && !s.info[id].inTried && s.info[id].nRefCount == 0
    requires TriedSlot(net, s.info[id].addr) !in s.triedT
    ensures Core(net, Promote(net, s, id))
  {
    hide AddrOk, RandomOk, EntriesOk, RefOk, NewOk;
    EntryKnown(net, s, id);
    UpdateKeepsIndex(net, s, id, s.info[id].(inTried := true));
    FlagKeepsNew(net, s.info, s.newT, id, true);
  }

  function FreshInfo(a: Service, nTime: int, nServices: nat, source: NetAddr, pos: int): AddrInfo {
    AddrInfo(a, nTime, nServices, source, 0, 0, 0, 0, 0, false, pos)
  }

  /** A new entry under a new id; for the moment it is in no table. */
  function Create(s: State, a: Service, nTime: int, nServices: nat, source: NetAddr): State {
    s.(info := s.info[s.nIdCount := FreshInfo(a, nTime, nServices, source, |s.random|)],
       addr := s.addr[a := s.nIdCount], random := s.random + [s.nIdCount], nIdCount := s.nIdCount + 1)
  }

  lemma CreateOk(net: Net, s: State, a: Service, nTime: int, nServices: nat, source: NetAddr)
    requires Core(net, s) && a !in s.addr && net.valid(a)
    ensures s.nIdCount !in s.info && Core(net, Create(s, a, nTime, nServices, source))
  {
    hide AddrOk, RandomOk, EntriesOk, NewOk, RefOk, TriedOk;
    var v := FreshInfo(a, nTime, nServices, source, |s.random|);
    CreateIndex(net, s, v);
    CreateTables(net, s.info, s.newT, s.triedT, s.nIdCount, v);
  }

  lemma CreateIndex(net: Net, s: State, v: AddrInfo)
    requires AddrOk(s.info, s.addr) && RandomOk(s.info, s.random) && EntriesOk(net, s.info, s.nIdCount)
    requires v.addr !in s.addr && net.valid(v.addr) && v.randomPos == |s.random|
    ensures s.nIdCount !in s.info && AddrOk(s.info[s.nIdCount := v], s.addr[v.addr := s.nIdCount])
    ensures RandomOk(s.info[s.nIdCount := v], s.random + [s.nIdCount])
    ensures EntriesOk(net, s.info[s.nIdCount := v], s.nIdCount + 1)
  {
  }

  lemma CreateTables(net: Net, info: Infos, newT: Table, triedT: Table, id: Id, v: AddrInfo)
    requires NewOk(net, info, newT) && RefOk(info, newT) && TriedOk(net, info, triedT)
    requires id !in info && v.nRefCount == 0 && !v.inTried
    ensures NewOk(net, info[id := v], newT) && RefOk(info[id := v], newT) && TriedOk(net, info[id := v], triedT)
  {
    assert SlotsOf(newT, id) == {};
  }

  // ---------------------------------------------------------------- clearing a slot

  function ClearNew(s: State, slot: Slot): State {
    if slot !in s.newT || s.newT[slot] !in s.info then s
    else
      var id := s.newT[slot];
      if s.info[id].nRefCount == 1 then Delete(Drop(s, slot), id) else Drop(s, slot)
  }

  /** The entry in the slot loses one reference, and is deleted with its last one. */
  ghost predicate Cleared(s: State, t: State, slot: Slot) {
    && t == s.(info := t.info, addr := t.addr, random := t.random, newT := s.newT - {slot}, nNew := t.nNew)
    && t.info.Keys <= s.info.Keys && t.nNew - |NewIds(t.info)| == s.nNew - |NewIds(s.info)|
    && TriedIds(t.info) == TriedIds(s.info)
    && forall x <- s.info ::
         if slot in s.newT && s.newT[slot] == x then
           && (x in t.info <==> s.info[x].nRefCount > 1)
           && (x in t.info ==> t.info[x] == WithPos(WithRef(s.info[x], s.info[x].nRefCount - 1), t.info[x].randomPos))
         else x in t.info && t.info[x] == WithPos(s.info[x], t.info[x].randomPos)
  }

  lemma ClearNewOk(net: Net, s: State, slot: Slot)
    requires Core(net, s)
    ensures Core(net, ClearNew(s, slot)) && Cleared(s, ClearNew(s, slot), slot)
  {
    hide AddrOk, RandomOk, EntriesOk, RefOk, TriedOk, Delete;
    if slot in s.newT {
      DropOk(net, s, slot);
      var id, d := s.newT[slot], Drop(s, slot);
      if s.info[id].nRefCount == 1 {
        DeleteOk(net, d, id);
        DropDeleteShape(s, slot, Delete(d, id));
      } else {
        DropShape(s, slot);
      }
    } else {
      assert s.newT - {slot} == s.newT;
    }
  }

  lemma DropShape(s: State, slot: Slot)
    requires slot in s.newT && s.newT[slot] in s.info && s.info[s.newT[slot]].nRefCount > 1
             && !s.info[s.newT[slot]].inTried
    ensures Cleared(s, Drop(s, slot), slot)
  {
    assert NewIds(Drop(s, slot).info) == NewIds(s.info);
    assert TriedIds(Drop(s, slot).info) == TriedIds(s.info);
  }

  lemma DropDeleteShape(s: State, slot: Slot, t: State)
    requires slot in s.newT && s.newT[slot] in s.info && s.info[s.newT[slot]].nRefCount == 1
             && !s.info[s.newT[slot]].inTried && Without(Drop(s, slot), t, s.newT[slot])
    ensures Cleared(s, t, slot)
  {
    var id := s.newT[slot];
    assert NewIds(t.info) == NewIds(s.info) - {id};
    assert TriedIds(t.info) == TriedIds(s.info);
    assert id in NewIds(s.info);
  }

  /** Settled entries and waiting collisions are not disturbed. */
  lemma ClearedKeeps(net: Net, s: State, t: State, slot: Slot, except: set<Id>)
    requires Cleared(s, t, slot)
    ensures AllSettled(s.info, except) ==> AllSettled(t.info, except)
    ensures CollisionsOk(net, s.info, s.triedT, s.nIdCount, s.collisions)
            ==> CollisionsOk(net, t.info, t.triedT, t.nIdCount, t.collisions)
  {
  }

  // ---------------------------------------------------------------- moving an entry to the tried table

  lemma SameFlag(info: Infos, id: Id, v: AddrInfo)
    requires id in info && v.inTried == info[id].inTried
    ensures NewIds(info[id := v]) == NewIds(info) && TriedIds(info[id := v]) == TriedIds(info)
  {
  }

  lemma OtherFlag(info: Infos, id: Id, v: AddrInfo)
    requires id in info && v.inTried != info[id].inTried
    ensures |NewIds(info[id := v])| == |NewIds(info)| + if v.inTried then -1 else 1
    ensures |TriedIds(info[id := v])| == |TriedIds(info)| + if v.inTried then 1 else -1
  {
    IdsUpdate(info, id, v);
    assert if v.inTried then id in NewIds(info) && id !in TriedIds(info) else id !in NewIds(info) && id in TriedIds(info);
  }

  lemma SettledExcept(info: Infos, id: Id, v: AddrInfo, except: set<Id>)
    requires AllSettled(info, except)
    ensures AllSettled(info[id := v], except + {id})
  {
  }

  lemma SettledNow(info: Infos, id: Id, v: AddrInfo, except: set<Id>)
    requires AllSettled(info, except) && Settled(v)
    ensures AllSettled(info[id := v], except - {id})
  {
  }

  /** A state in the middle of an operation: counters are off, and some entries are not settled. */
  ghost predicate Stage(net: Net, s: State, dNew: int, dTried: int, except: set<Id>) {
    Core(net, s) && Counts(s, dNew, dTried) && AllSettled(s.info, except)
  }

  ghost function SweepStep(s: State, id: Id): State {
    Sweep(s, id).(nNew := s.nNew - 1)
  }

  lemma SweepStage(net: Net, s: State, id: Id)
    requires Stage(net, s, 0, 0, {}) && id in s.info && !s.info[id].inTried
    ensures Stage(net, SweepStep(s, id), -1, 0, {id})
  {
    hide AddrOk, RandomOk, EntriesOk, RefOk, TriedOk, NewOk, SlotsOf, NewIds, TriedIds, AllSettled;
    SweepOk(net, s, id);
    SameFlag(s.info, id, WithRef(s.info[id], 0));
    SettledExcept(s.info, id, WithRef(s.info[id], 0), {});
    assert {} + {id} == {id};
  }

  function EvictStep(s: State, slot: Slot): State {
    Evict(s, slot).(nTried := s.nTried - 1)
  }

  /** An entry of the tried table has no references. */
  lemma TriedEntry(net: Net, s: State, slot: Slot, except: set<Id>)
    requires Core(net, s) && slot in s.triedT
    ensures s.triedT[slot] in s.info && s.info[s.triedT[slot]].inTried
    ensures AllSettled(s.info, except) && s.triedT[slot] !in except ==> s.info[s.triedT[slot]].nRefCount == 0
  {
  }

  lemma EvictStage(net: Net, s: State, id: Id, slot: Slot)
    requires Stage(net, s, -1, 0, {id}) && id in s.info && !s.info[id].inTried && slot in s.triedT
    ensures s.triedT[slot] in s.info && s.triedT[slot] != id && s.info[s.triedT[slot]].nRefCount == 0
    ensures Stage(net, EvictStep(s, slot), -2, 0, {id, s.triedT[slot]})
  {
    hide AddrOk, RandomOk, EntriesOk, RefOk, TriedOk, NewOk, SlotsOf, NewIds, TriedIds, AllSettled;
    TriedEntry(net, s, slot, {id});
    EvictOk(net, s, slot);
    var o := s.triedT[slot];
    OtherFlag(s.info, o, s.info[o].(inTried := false));
    SettledExcept(s.info, o, s.info[o].(inTried := false), {id});
    assert {id} + {o} == {id, o};
  }

  /** The evicted entry goes back to a slot of the new table, which is cleared for it. */
  function ReturnStep(net: Net, s: State, o: Id): State {
    if o !in s.info then s
    else
      var u := NewSlot(net, s.info[o].addr, s.info[o].source);
      var c := ClearNew(s, u);
      Insert(c, u, o).(nNew := c.nNew + 1)
  }

  /** No entry appears, changes its address or its times, or becomes tried, except the given one. */
  ghost predicate Narrowed(s: State, t: State, id: Id) {
    && t.nIdCount == s.nIdCount && t.collisions == s.collisions && t.lastGood == s.lastGood && t.info.Keys <= s.info.Keys
    && (forall x <- t.info :: t.info[x].addr == s.info[x].addr && (t.info[x].inTried ==> s.info[x].inTried || x == id))
    && (forall x <- t.info :: t.info[x].lastTry == s.info[x].lastTry && t.info[x].lastSuccess == s.info[x].lastSuccess)
  }

  /** Entries without references have no slot. */
  lemma NotInSlot(info: Infos, newT: Table, slot: Slot, id: Id)
    requires RefOk(info, newT) && id in info && info[id].nRefCount == 0
    ensures slot in newT ==> newT[slot] != id
  {
    assert slot in newT ==> slot in SlotsOf(newT, newT[slot]);
  }

  lemma ReturnStage(net: Net, s: State, id: Id, o: Id)
    requires Stage(net, s, -2, 0, {id, o}) && id in s.info && o in s.info && id != o
    requires !s.info[o].inTried && s.info[id].nRefCount == 0 && s.info[o].nRefCount == 0
    ensures var t := ReturnStep(net, s, o);
            && Stage(net, t, -1, 0, {id}) && t.triedT == s.triedT && Narrowed(s, t, id)
            && id in t.info && t.info[id] == WithPos(s.info[id], t.info[id].randomPos)
            && o in t.info && !t.info[o].inTried && SlotsOf(t.newT, o) == {NewSlot(net, s.info[o].addr, s.info[o].source)}
  {
    hide AddrOk, RandomOk, EntriesOk, RefOk, TriedOk, NewOk, SlotsOf, NewIds, TriedIds, AllSettled, ClearNew, Narrowed;
    var u := NewSlot(net, s.info[o].addr, s.info[o].source);
    NotInSlot(s.info, s.newT, u, id);
    NotInSlot(s.info, s.newT, u, o);
    ClearNewOk(net, s, u);
    var c := ClearNew(s, u);
    ClearedKeeps(net, s, c, u, {id, o});
    InsertOk(net, c, u, o);
    var v := WithRef(c.info[o], 1);
    SameFlag(c.info, o, v);
    SettledNow(c.info, o, v, {id, o});
    assert {id, o} - {o} == {id};
    OnlySlot(s, c, u, o);
    ReturnNarrowed(s, c, u, o, id);
  }

  lemma ReturnNarrowed(s: State, c: State, u: Slot, o: Id, id: Id)
    requires Cleared(s, c, u) && o in c.info
    ensures Narrowed(s, Insert(c, u, o).(nNew := c.nNew + 1), id)
  {
    hide NewIds, TriedIds;
    var t := Insert(c, u, o);
    forall x <- t.info ensures x in s.info && t.info[x].addr == s.info[x].addr && t.info[x].inTried == s.info[x].inTried
                               && t.info[x].lastTry == s.info[x].lastTry && t.info[x].lastSuccess == s.info[x].lastSuccess {
      assert x in s.info;
    }
  }

  lemma OnlySlot(s: State, c: State, u: Slot, o: Id)
    requires RefOk(s.info, s.newT) && o in s.info && s.info[o].nRefCount == 0 && c.newT == s.newT - {u} && o in c.info
    ensures SlotsOf(Insert(c, u, o).newT, o) == {u}
  {
    assert SlotsOf(s.newT, o) == {};
    SlotsRemove(s.newT, u, o);
    SlotsAdd(c.newT, u, o, o);
  }

  function PromoteStep(net: Net, s: State, id: Id): State {
    Promote(net, s, id).(nTried := s.nTried + 1)
  }

  lemma PromoteStage(net: Net, s: State, id: Id)
    requires Stage(net, s, -1, 0, {id}) && id in s.info && !s.info[id].inTried && s.info[id].nRefCount == 0
    requires TriedSlot(net, s.info[id].addr) !in s.triedT
    ensures Stage(net, PromoteStep(net, s, id), 0, 0, {}) && Narrowed(s, PromoteStep(net, s, id), id)
  {
    hide AddrOk, RandomOk, EntriesOk, RefOk, TriedOk, NewOk, SlotsOf, NewIds, TriedIds, AllSettled;
    PromoteOk(net, s, id);
    OtherFlag(s.info, id, s.info[id].(inTried := true));
    SettledNow(s.info, id, s.info[id].(inTried := true), {id});
    assert {id} - {id} == {};
  }
}
