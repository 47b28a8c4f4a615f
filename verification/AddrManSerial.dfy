/**
Writing the address manager to disk and reading it back: `Serialize` and `Unserialize` in
src/addrman.cpp.

The stream is modelled by its fields in order (`Dump`), not by its bytes.  The iteration order
of the unordered id map is a parameter.  Reading back renames ids: an entry gets its place in
the stream, entries of the new table first.
*/
module AddrManSerial {
  import opened AddrManState
  import opened AddrManCheck
  import AddrManager

  const FILE_FORMAT := 4
  const INCOMPATIBILITY_BASE := 32

  /** The fields of an entry that are written. */
  datatype Record = Record(addr: Service, nTime: int, nServices: nat, source: NetAddr, lastSuccess: int, nAttempts: nat)

  datatype Dump = Dump(
    format: nat, compat: nat, news: seq<Record>, trieds: seq<Record>, buckets: seq<seq<int>>, asmap: nat)

  function ToRecord(info: AddrInfo): Record {
    Record(info.addr, info.nTime, info.nServices, info.source, info.lastSuccess, info.nAttempts)
  }

  function FromRecord(r: Record, pos: int): AddrInfo {
    AddrInfo(r.addr, r.nTime, r.nServices, r.source, 0, 0, r.lastSuccess, r.nAttempts, 0, false, pos)
  }

  // ---------------------------------------------------------------- writing

  /** The ids of one kind, in iteration order. */
  function OfKind(info: Infos, order: seq<Id>, tried: bool): (r: seq<Id>)
    ensures |r| <= |order|
  {
    if order == [] then []
    else
      var n := |order| - 1;
      var before := OfKind(info, order[..n], tried);
      if order[n] in info && info[order[n]].inTried == tried then before + [order[n]] else before
  }

  function Records(info: Infos, ids: seq<Id>): (r: seq<Record>)
    requires forall id <- ids :: id in info
  {
    seq(|ids|, i requires 0 <= i < |ids| => ToRecord(info[ids[i]]))
  }

  /** The occupied slots of a row below a position, in order. */
  function RowSlots(t: Table, bucket: nat, pos: nat): seq<Slot> {
    if pos == 0 then []
    else RowSlots(t, bucket, pos - 1) + if Slot(bucket, pos - 1) in t then [Slot(bucket, pos - 1)] else []
  }

  /** The occupied slots of the first rows, in order. */
  function SlotList(t: Table, rows: nat): seq<Slot> {
    if rows == 0 then [] else SlotList(t, rows - 1) + RowSlots(t, rows - 1, BUCKET_SIZE)
  }

  /** The place of an id in a list. */
  function IndexOf(ids: seq<Id>, id: Id): nat {
    if ids == [] || ids[|ids| - 1] == id then if ids == [] then 0 else |ids| - 1 else IndexOf(ids[..|ids| - 1], id)
  }

  function RowIndexes(t: Table, ids: seq<Id>, slots: seq<Slot>): seq<int>
    requires forall x <- slots :: x in t
  {
    seq(|slots|, i requires 0 <= i < |slots| => IndexOf(ids, t[slots[i]]))
  }

  lemma {:induction false} RowSlotsIn(t: Table, bucket: nat, pos: nat)
    ensures forall x :: x in RowSlots(t, bucket, pos) <==> x in t && x.bucket == bucket && x.pos < pos
  {
    if pos > 0 {
      RowSlotsIn(t, bucket, pos - 1);
      forall x ensures x in RowSlots(t, bucket, pos) <==> x in t && x.bucket == bucket && x.pos < pos {
        assert x == Slot(x.bucket, x.pos);
      }
    }
  }

  lemma {:induction false} SlotListIn(t: Table, rows: nat)
    requires forall x <- t :: x.pos < BUCKET_SIZE
    ensures forall x :: x in SlotList(t, rows) <==> x in t && x.bucket < rows
  {
    if rows > 0 {
      SlotListIn(t, rows - 1);
      RowSlotsIn(t, rows - 1, BUCKET_SIZE);
    }
  }

  lemma {:induction false} OfKindIn(info: Infos, order: seq<Id>, tried: bool)
    ensures forall id :: id in OfKind(info, order, tried) <==> id in order && id in info && info[id].inTried == tried
  {
    if order != [] {
      var n := |order| - 1;
      OfKindIn(info, order[..n], tried);
      assert order == order[..n] + [order[n]];
    }
  }

  function Save(s: State, order: seq<Id>, asmap: nat): Dump {
    OfKindIn(s.info, order, false);
    OfKindIn(s.info, order, true);
    var news, trieds := OfKind(s.info, order, false), OfKind(s.info, order, true);
    Dump(FILE_FORMAT, INCOMPATIBILITY_BASE + FILE_FORMAT, Records(s.info, news), Records(s.info, trieds),
         SaveRows(s.newT, news, NEW_BUCKET_COUNT), asmap)
  }

  function SaveRow(t: Table, news: seq<Id>, bucket: nat): seq<int> {
    RowSlotsIn(t, bucket, BUCKET_SIZE);
    RowIndexes(t, news, RowSlots(t, bucket, BUCKET_SIZE))
  }

  // ---------------------------------------------------------------- reading

  /** A record becomes an entry under the next id. */
  function LoadEntry(s: State, r: Record): State {
    s.(info := s.info[s.nIdCount := FromRecord(r, |s.random|)], addr := s.addr[r.addr := s.nIdCount],
       random := s.random + [s.nIdCount], nIdCount := s.nIdCount + 1)
  }

  function LoadNews(s: State, news: seq<Record>): State {
    if news == [] then s else LoadEntry(LoadNews(s, news[..|news| - 1]), news[|news| - 1])
  }

  /** A record of the tried table is lost when its address is bad or its slot is taken. */
  predicate Lost(net: Net, s: State, r: Record) {
    !net.valid(r.addr) || TriedSlot(net, r.addr) in s.triedT
  }

  function LoadTried(net: Net, s: State, r: Record): State {
    if Lost(net, s, r) then s.(nTried := s.nTried - 1) else Promote(net, LoadEntry(s, r), s.nIdCount)
  }

  function LoadTrieds(net: Net, s: State, trieds: seq<Record>): State {
    if trieds == [] then s else LoadTried(net, LoadTrieds(net, s, trieds[..|trieds| - 1]), trieds[|trieds| - 1])
  }

  /** One reference from a bucket: to its old slot, or to the slot its source selects. */
  function LoadReference(net: Net, s: State, bucket: nat, id: int, restore: bool): State {
    if id < 0 || id !in s.info || !net.valid(s.info[id].addr) || s.info[id].nRefCount >= NEW_BUCKETS_PER_ADDRESS then s
    else
      var slot := Slot(bucket, Position(net, s.info[id].addr, true, bucket));
      var own := NewSlot(net, s.info[id].addr, s.info[id].source);
      if restore && slot !in s.newT then Insert(s, slot, id)
      else if own !in s.newT then Insert(s, own, id)
      else s
  }

  datatype Reference = Reference(bucket: nat, id: int)

  /** The references of a bucket to entries that were read. */
  function RowReferences(bucket: nat, indexes: seq<int>, nNew: nat): seq<Reference> {
    if indexes == [] then []
    else
      var last := indexes[|indexes| - 1];
      RowReferences(bucket, indexes[..|indexes| - 1], nNew) + if 0 <= last < nNew then [Reference(bucket, last)] else []
  }

  function AllReferences(buckets: seq<seq<int>>, nNew: nat): seq<Reference> {
    if buckets == [] then []
    else
      var n := |buckets| - 1;
      AllReferences(buckets[..n], nNew) + RowReferences(n, buckets[n], nNew)
  }

  function LoadReferences(net: Net, s: State, refs: seq<Reference>, restore: bool): State {
    if refs == [] then s
    else
      var last := refs[|refs| - 1];
      LoadReference(net, LoadReferences(net, s, refs[..|refs| - 1], restore), last.bucket, last.id, restore)
  }

  /** Deletes the entries that no bucket refers to. */
  function Prune(s: State, order: seq<Id>): State {
    if order == [] then s
    else
      var t, id := Prune(s, order[..|order| - 1]), order[|order| - 1];
      if id in t.info && !t.info[id].inTried && t.info[id].nRefCount == 0 then Delete(t, id) else t
  }

  predicate Compatible(d: Dump) {
    INCOMPATIBILITY_BASE <= d.compat <= INCOMPATIBILITY_BASE + FILE_FORMAT
  }

  predicate Readable(d: Dump) {
    && Compatible(d)
    && |d.news| <= NEW_BUCKET_COUNT * BUCKET_SIZE && |d.trieds| <= TRIED_BUCKET_COUNT * BUCKET_SIZE
  }

  predicate Restores(d: Dump, asmap: nat) {
    |d.buckets| == NEW_BUCKET_COUNT && (if d.format >= 2 then d.asmap else 0) == asmap
  }

  function LoadTables(net: Net, d: Dump, asmap: nat): State {
    var s0 := Empty().(nNew := |d.news|, nTried := |d.trieds|);
    LoadReferences(net, LoadTrieds(net, LoadNews(s0, d.news), d.trieds), AllReferences(d.buckets, |d.news|), Restores(d, asmap))
  }

  function Load(net: Net, d: Dump, asmap: nat, order: seq<Id>): State {
    Prune(LoadTables(net, d, asmap), order)
  }

  // ---------------------------------------------------------------- ids in the stream

  ghost predicate DistinctIds(ids: seq<Id>) {
    forall i, j | 0 <= i < j < |ids| :: ids[i] != ids[j]
  }

  ghost predicate Enumerates(order: seq<Id>, info: Infos) {
    DistinctIds(order) && forall id: Id :: id in order <==> id in info
  }

  lemma {:induction false} KindDistinct(info: Infos, order: seq<Id>, tried: bool)
    requires DistinctIds(order)
    ensures DistinctIds(OfKind(info, order, tried))
  {
    if order != [] {
      var n := |order| - 1;
      KindDistinct(info, order[..n], tried);
      OfKindIn(info, order[..n], tried);
      assert order[n] !in order[..n];
    }
  }

  /** Entries of the new table first, then tried entries: the ids an entry gets back are its places here. */
  ghost function Stream(info: Infos, order: seq<Id>): seq<Id> {
    OfKind(info, order, false) + OfKind(info, order, true)
  }

  lemma StreamEnumerates(info: Infos, order: seq<Id>)
    requires Enumerates(order, info)
    ensures Enumerates(Stream(info, order), info)
  {
    OfKindIn(info, order, false);
    OfKindIn(info, order, true);
    KindDistinct(info, order, false);
    KindDistinct(info, order, true);
    var a, b := OfKind(info, order, false), OfKind(info, order, true);
    forall i, j | 0 <= i < j < |a + b| ensures (a + b)[i] != (a + b)[j] {
      if i < |a| && j >= |a| {
        assert a[i] in a && b[j - |a|] in b;
      }
    }
  }

  // ---------------------------------------------------------------- what has been read back

  /** An entry read back: times of attempts are forgotten, the rest is as it was. */
  ghost predicate CopyOf(info: AddrInfo, copy: AddrInfo, pos: int) {
    copy == info.(lastTry := 0, lastCountAttempt := 0, nRefCount := copy.nRefCount, randomPos := pos)
  }

  /** The first n entries of the stream are back, under their places as ids. */
  ghost predicate Copied(s: State, all: seq<Id>, n: nat, t: State) {
    && n <= |all| && t.nIdCount == n && |t.random| == n
    && (forall j: Id :: j in t.info <==> j < n)
    && (forall j | 0 <= j < n :: t.random[j] == j && all[j] in s.info && CopyOf(s.info[all[j]], t.info[j], j))
  }

  /** The setting of the round trip: a consistent state and the order of the stream. */
  ghost predicate Source(net: Net, s: State, all: seq<Id>) {
    Inv(net, s) && Enumerates(all, s.info)
  }

  lemma NotYetRead(net: Net, s: State, all: seq<Id>, n: nat, t: State)
    requires Source(net, s, all) && Copied(s, all, n, t) && AddrOk(t.info, t.addr) && n < |all|
    ensures all[n] in s.info && s.info[all[n]].addr !in t.addr
  {
    hide RandomOk, EntriesOk, NewOk, RefOk, TriedOk, AllSettled, Counts, CollisionsOk;
    assert all[n] in all;
    var a := s.info[all[n]].addr;
    if a in t.addr {
      assert false;
    }
  }

  lemma SourceEntry(net: Net, s: State, all: seq<Id>, n: nat)
    requires Source(net, s, all) && n < |all|
    ensures all[n] in s.info && net.valid(s.info[all[n]].addr)
    ensures Settled(s.info[all[n]])
  {
    assert all[n] in all;
  }

  lemma LoadEntryOk(net: Net, s: State, all: seq<Id>, n: nat, t: State)
    requires Source(net, s, all) && Copied(s, all, n, t) && Core(net, t) && n < |all|
    ensures all[n] in s.info && Core(net, LoadEntry(t, ToRecord(s.info[all[n]])))
  {
    hide Inv, AddrOk, RandomOk, EntriesOk, NewOk, RefOk, TriedOk, Copied;
    NotYetRead(net, s, all, n, t);
    SourceEntry(net, s, all, n);
    var v := FromRecord(ToRecord(s.info[all[n]]), |t.random|);
    CreateIndex(net, t, v);
    CreateTables(net, t.info, t.newT, t.triedT, t.nIdCount, v);
  }

  lemma CopyEntry(s: State, all: seq<Id>, n: nat, t: State)
    requires Copied(s, all, n, t) && n < |all| && all[n] in s.info
    ensures var u := LoadEntry(t, ToRecord(s.info[all[n]]));
            if s.info[all[n]].inTried then forall net :: Copied(s, all, n + 1, Promote(net, u, n)) else Copied(s, all, n + 1, u)
  {
  }

  /** All entries of the new table are back; no table is filled yet. */
  lemma {:induction false} LoadNewsOk(net: Net, s: State, all: seq<Id>, n: nat, t0: State)
    requires Source(net, s, all) && n <= |all| && t0 == Empty().(nNew := t0.nNew, nTried := t0.nTried)
    requires forall j | 0 <= j < n :: all[j] in s.info && !s.info[all[j]].inTried
    ensures forall j | 0 <= j < n :: all[j] in s.info
    ensures var t := LoadNews(t0, Records(s.info, all[..n]));
            && Core(net, t) && Copied(s, all, n, t) && t.newT == map[] && t.triedT == map[]
            && t.nNew == t0.nNew && t.nTried == t0.nTried && t.collisions == {}
  {
    hide Inv, AddrOk, RandomOk, EntriesOk, NewOk, RefOk, TriedOk;
    if n == 0 {
      EmptyCore(net, t0);
      assert all[..0] == [] && Records(s.info, all[..0]) == [];
      assert LoadNews(t0, Records(s.info, all[..0])) == t0;
      assert t0.info == map[] && Copied(s, all, 0, t0);
    } else {
      LoadNewsOk(net, s, all, n - 1, t0);
      RecordsNext(s.info, all, n - 1);
      var t := LoadNews(t0, Records(s.info, all[..n - 1]));
      LoadEntryOk(net, s, all, n - 1, t);
      CopyEntry(s, all, n - 1, t);
    }
  }

  lemma EmptyCore(net: Net, t: State)
    requires t == Empty().(nNew := t.nNew, nTried := t.nTried)
    ensures Core(net, t)
  {
  }

  lemma RecordsNext(info: Infos, ids: seq<Id>, n: nat)
    requires n < |ids| && forall j | 0 <= j <= n :: ids[j] in info
    ensures var r := Records(info, ids[..n + 1]);
            |r| == n + 1 && r[..n] == Records(info, ids[..n]) && r[n] == ToRecord(info[ids[n]])
  {
  }

  lemma SlotFree(net: Net, s: State, all: seq<Id>, n: nat, t: State)
    requires Source(net, s, all) && Copied(s, all, n, t) && TriedOk(net, t.info, t.triedT) && n < |all|
    requires all[n] in s.info && s.info[all[n]].inTried
    ensures TriedSlot(net, s.info[all[n]].addr) !in t.triedT
  {
    hide AddrOk, RandomOk, EntriesOk, NewOk, RefOk, AllSettled, Counts, CollisionsOk, TriedSlot;
    var slot := TriedSlot(net, s.info[all[n]].addr);
    if slot in t.triedT {
      SameSlotSameId(net, s, all, t.triedT[slot], n);
    }
  }

  lemma SameSlotSameId(net: Net, s: State, all: seq<Id>, i: nat, j: nat)
    requires TriedOk(net, s.info, s.triedT) && Enumerates(all, s.info) && i < |all| && j < |all|
    requires all[i] in s.info && all[j] in s.info && s.info[all[i]].inTried && s.info[all[j]].inTried
    requires TriedSlot(net, s.info[all[i]].addr) == TriedSlot(net, s.info[all[j]].addr)
    ensures i == j
  {
    hide TriedSlot;
  }

  lemma LoadTriedOk(net: Net, s: State, all: seq<Id>, n: nat, t: State)
    requires Source(net, s, all) && Copied(s, all, n, t) && Core(net, t) && n < |all|
    requires all[n] in s.info && s.info[all[n]].inTried
    ensures var u := LoadTried(net, t, ToRecord(s.info[all[n]]));
            && Core(net, u) && Copied(s, all, n + 1, u) && u.newT == t.newT
            && u.nNew == t.nNew && u.nTried == t.nTried && u.collisions == t.collisions
  {
    hide Inv, AddrOk, RandomOk, EntriesOk, NewOk, RefOk, TriedOk;
    SlotFree(net, s, all, n, t);
    SourceEntry(net, s, all, n);
    LoadEntryOk(net, s, all, n, t);
    CopyEntry(s, all, n, t);
    PromoteOk(net, LoadEntry(t, ToRecord(s.info[all[n]])), n);
  }

  lemma {:induction false} LoadTriedsOk(net: Net, s: State, all: seq<Id>, n: nat, trieds: seq<Id>, t0: State)
    requires Source(net, s, all) && n + |trieds| <= |all| && trieds == all[n..n + |trieds|]
    requires forall id <- trieds :: id in s.info && s.info[id].inTried
    requires Core(net, t0) && Copied(s, all, n, t0)
    ensures var t := LoadTrieds(net, t0, Records(s.info, trieds));
            && Core(net, t) && Copied(s, all, n + |trieds|, t) && t.newT == t0.newT
            && t.nNew == t0.nNew && t.nTried == t0.nTried && t.collisions == t0.collisions
    decreases |trieds|
  {
    hide Inv, AddrOk, RandomOk, EntriesOk, NewOk, RefOk, TriedOk, Copied, LoadTried;
    if trieds != [] {
      var k := |trieds| - 1;
      assert trieds[..k] == all[n..n + k];
      LoadTriedsOk(net, s, all, n, trieds[..k], t0);
      assert trieds[k] == all[n + k] && trieds[k] in trieds;
      var r := Records(s.info, trieds);
      assert r[..k] == Records(s.info, trieds[..k]);
      LoadTriedOk(net, s, all, n + k, LoadTrieds(net, t0, Records(s.info, trieds[..k])));
    } else {
      assert Records(s.info, trieds) == [];
    }
  }

  // ---------------------------------------------------------------- references

  /** The slots of a list are filled, with the entries that were in them. */
  ghost predicate Filled(s: State, all: seq<Id>, slots: seq<Slot>, t: State) {
    && (forall x :: x in t.newT <==> x in slots)
    && (forall x <- t.newT :: x in s.newT && t.newT[x] < |all| && all[t.newT[x]] == s.newT[x])
  }

  /** Fewer slots than in the source are filled, so there is room for one more reference. */
  lemma RoomForReference(net: Net, s: State, all: seq<Id>, slots: seq<Slot>, t: State, slot: Slot, id: nat)
    requires Source(net, s, all) && Filled(s, all, slots, t) && RefOk(t.info, t.newT) && id in t.info
    requires slot in s.newT && slot !in slots && id < |all| && all[id] == s.newT[slot]
    ensures t.info[id].nRefCount < NEW_BUCKETS_PER_ADDRESS
  {
    hide AddrOk, RandomOk, EntriesOk, NewOk, TriedOk, Counts, CollisionsOk, SlotsOf, AllSettled;
    SourceEntry(net, s, all, id);
    assert s.info[all[id]].nRefCount == |SlotsOf(s.newT, all[id])|;
    FewerSlots(s, all, slots, t, slot, id);
  }

  lemma FewerSlots(s: State, all: seq<Id>, slots: seq<Slot>, t: State, slot: Slot, id: nat)
    requires Filled(s, all, slots, t) && slot in s.newT && slot !in slots && id < |all| && all[id] == s.newT[slot]
    ensures 0 <= |SlotsOf(t.newT, id)| < |SlotsOf(s.newT, all[id])|
  {
    var o := s.newT[slot];
    assert SlotsOf(t.newT, id) <= SlotsOf(s.newT, o) - {slot};
    AddrManager.SubsetCard(SlotsOf(t.newT, id), SlotsOf(s.newT, o) - {slot});
    assert slot in SlotsOf(s.newT, o);
  }

  /** One reference goes back to its slot. */
  lemma LoadReferenceOk(net: Net, s: State, all: seq<Id>, slots: seq<Slot>, t: State, slot: Slot, id: nat)
    requires Source(net, s, all) && Core(net, t) && Copied(s, all, |all|, t) && Filled(s, all, slots, t)
    requires slot in s.newT && slot !in slots && id < |all| && all[id] == s.newT[slot]
    ensures var u := LoadReference(net, t, slot.bucket, id, true);
            && Core(net, u) && Copied(s, all, |all|, u) && Filled(s, all, slots + [slot], u)
            && u == t.(info := u.info, newT := u.newT)
  {
    hide Inv, AddrOk, RandomOk, EntriesOk, RefOk, TriedOk, NewOk, Copied, Filled, Insert;
    ReferencedEntry(net, s, all, t, slot, id);
    FilledFree(s, all, slots, t, slot);
    RoomForReference(net, s, all, slots, t, slot, id);
    InsertOk(net, t, slot, id);
    InsertCopied(s, all, slots, t, slot, id);
    assert LoadReference(net, t, slot.bucket, id, true) == Insert(t, slot, id);
  }

  lemma FilledFree(s: State, all: seq<Id>, slots: seq<Slot>, t: State, slot: Slot)
    requires Filled(s, all, slots, t) && slot !in slots
    ensures slot !in t.newT
  {
  }

  /** The entry a reference names stands where the slot of the source is. */
  lemma ReferencedEntry(net: Net, s: State, all: seq<Id>, t: State, slot: Slot, id: nat)
    requires Source(net, s, all) && Copied(s, all, |all|, t) && slot in s.newT && id < |all| && all[id] == s.newT[slot]
    ensures id in t.info && net.valid(t.info[id].addr) && !t.info[id].inTried
    ensures slot.bucket < NEW_BUCKET_COUNT && slot == Slot(slot.bucket, Position(net, t.info[id].addr, true, slot.bucket))
  {
    hide AddrOk, RandomOk, EntriesOk, RefOk, TriedOk, AllSettled, Counts, CollisionsOk;
    SourceEntry(net, s, all, id);
    assert CopyOf(s.info[all[id]], t.info[id], id);
    assert slot == Slot(slot.bucket, slot.pos);
  }

  lemma InsertCopied(s: State, all: seq<Id>, slots: seq<Slot>, t: State, slot: Slot, id: nat)
    requires Copied(s, all, |all|, t) && Filled(s, all, slots, t) && slot in s.newT && id < |all| && all[id] == s.newT[slot]
    ensures var u := Insert(t, slot, id);
            && Copied(s, all, |all|, u) && Filled(s, all, slots + [slot], u) && u == t.(info := u.info, newT := u.newT)
  {
  }

  ghost function ReferencesOf(t: Table, news: seq<Id>, slots: seq<Slot>): seq<Reference>
    requires forall x <- slots :: x in t
  {
    seq(|slots|, i requires 0 <= i < |slots| => Reference(slots[i].bucket, IndexOf(news, t[slots[i]])))
  }

  ghost predicate DistinctSlots(slots: seq<Slot>) {
    forall i, j | 0 <= i < j < |slots| :: slots[i] != slots[j]
  }

  lemma {:induction false} IndexOfIn(ids: seq<Id>, id: Id)
    requires id in ids
    ensures IndexOf(ids, id) < |ids| && ids[IndexOf(ids, id)] == id
  {
    var n := |ids| - 1;
    if ids[n] != id {
      IndexOfIn(ids[..n], id);
    }
  }

  lemma {:induction false} LoadReferencesOk(net: Net, s: State, news: seq<Id>, all: seq<Id>, slots: seq<Slot>, t0: State)
    requires Source(net, s, all) && Core(net, t0) && Copied(s, all, |all|, t0) && t0.newT == map[]
    requires news <= all && DistinctSlots(slots) && forall x <- slots :: x in s.newT && s.newT[x] in news
    ensures var t := LoadReferences(net, t0, ReferencesOf(s.newT, news, slots), true);
            && Core(net, t) && Copied(s, all, |all|, t) && Filled(s, all, slots, t)
            && t == t0.(info := t.info, newT := t.newT)
    decreases |slots|
  {
    hide Core, Inv, Copied, LoadReference, IndexOf, Enumerates, Filled;
    if slots != [] {
      var k := |slots| - 1;
      LoadReferencesOk(net, s, news, all, slots[..k], t0);
      var refs := ReferencesOf(s.newT, news, slots);
      assert refs[..k] == ReferencesOf(s.newT, news, slots[..k]);
      assert slots[k] in slots && slots[k] !in slots[..k];
      var id := IndexOf(news, s.newT[slots[k]]);
      IndexOfIn(news, s.newT[slots[k]]);
      LoadReferenceOk(net, s, all, slots[..k], LoadReferences(net, t0, refs[..k], true), slots[k], id);
      assert slots[..k] + [slots[k]] == slots;
    } else {
      assert ReferencesOf(s.newT, news, slots) == [];
      NothingFilled(s, all, t0);
    }
  }

  lemma NothingFilled(s: State, all: seq<Id>, t: State)
    requires t.newT == map[]
    ensures Filled(s, all, [], t)
  {
  }

  // ---------------------------------------------------------------- the references in the stream

  lemma {:induction false} RowOfReferences(t: Table, news: seq<Id>, bucket: nat, slots: seq<Slot>)
    requires forall x <- slots :: x in t && x.bucket == bucket && t[x] in news
    ensures RowReferences(bucket, RowIndexes(t, news, slots), |news|) == ReferencesOf(t, news, slots)
    decreases |slots|
  {
    if slots != [] {
      var k := |slots| - 1;
      RowOfReferences(t, news, bucket, slots[..k]);
      assert RowIndexes(t, news, slots)[..k] == RowIndexes(t, news, slots[..k]);
      assert slots[k] in slots;
      IndexOfIn(news, t[slots[k]]);
      assert ReferencesOf(t, news, slots) == ReferencesOf(t, news, slots[..k]) + [Reference(bucket, IndexOf(news, t[slots[k]]))];
    }
  }

  lemma ReferencesAppend(t: Table, news: seq<Id>, a: seq<Slot>, b: seq<Slot>)
    requires (forall x <- a :: x in t) && (forall x <- b :: x in t)
    ensures forall x <- a + b :: x in t
    ensures ReferencesOf(t, news, a + b) == ReferencesOf(t, news, a) + ReferencesOf(t, news, b)
  {
    hide IndexOf;
  }

  function SaveRows(t: Table, news: seq<Id>, n: nat): seq<seq<int>> {
    seq(n, b requires 0 <= b => SaveRow(t, news, b))
  }

  lemma {:induction false} StreamReferences(t: Table, news: seq<Id>, n: nat)
    requires forall x <- t :: x.pos < BUCKET_SIZE && t[x] in news
    ensures forall x <- SlotList(t, n) :: x in t
    ensures AllReferences(SaveRows(t, news, n), |news|) == ReferencesOf(t, news, SlotList(t, n))
  {
    hide IndexOf, RowSlots, RowReferences, SaveRow, ReferencesOf;
    SlotListIn(t, n);
    if n > 0 {
      StreamReferences(t, news, n - 1);
      SlotListIn(t, n - 1);
      RowSlotsIn(t, n - 1, BUCKET_SIZE);
      assert SaveRows(t, news, n)[..n - 1] == SaveRows(t, news, n - 1);
      SaveRowReferences(t, news, n - 1);
      ReferencesAppend(t, news, SlotList(t, n - 1), RowSlots(t, n - 1, BUCKET_SIZE));
    } else {
      NoReferences(t, news);
    }
  }

  lemma NoReferences(t: Table, news: seq<Id>)
    ensures ReferencesOf(t, news, []) == []
  {
  }

  lemma SaveRowReferences(t: Table, news: seq<Id>, bucket: nat)
    requires forall x <- t :: t[x] in news
    ensures forall x <- RowSlots(t, bucket, BUCKET_SIZE) :: x in t
    ensures RowReferences(bucket, SaveRow(t, news, bucket), |news|) == ReferencesOf(t, news, RowSlots(t, bucket, BUCKET_SIZE))
  {
    RowSlotsIn(t, bucket, BUCKET_SIZE);
    RowOfReferences(t, news, bucket, RowSlots(t, bucket, BUCKET_SIZE));
  }

  lemma {:induction false} RowDistinct(t: Table, bucket: nat, pos: nat)
    ensures DistinctSlots(RowSlots(t, bucket, pos))
  {
    if pos > 0 {
      RowDistinct(t, bucket, pos - 1);
      RowSlotsIn(t, bucket, pos - 1);
      assert Slot(bucket, pos - 1) !in RowSlots(t, bucket, pos - 1);
    }
  }

  lemma {:induction false} ListDistinct(t: Table, rows: nat)
    requires forall x <- t :: x.pos < BUCKET_SIZE
    ensures DistinctSlots(SlotList(t, rows))
  {
    if rows > 0 {
      ListDistinct(t, rows - 1);
      SlotListIn(t, rows - 1);
      RowSlotsIn(t, rows - 1, BUCKET_SIZE);
      RowDistinct(t, rows - 1, BUCKET_SIZE);
      AppendDistinct(SlotList(t, rows - 1), RowSlots(t, rows - 1, BUCKET_SIZE));
    }
  }

  lemma AppendDistinct(a: seq<Slot>, b: seq<Slot>)
    requires DistinctSlots(a) && DistinctSlots(b) && forall x <- a :: x !in b
    ensures DistinctSlots(a + b)
  {
    forall i, j | 0 <= i < j < |a + b| ensures (a + b)[i] != (a + b)[j] {
      if i < |a| && j >= |a| {
        assert a[i] in a && b[j - |a|] in b;
      }
    }
  }

  // ---------------------------------------------------------------- how many entries there can be

  lemma {:induction false} RowBound(keys: set<Slot>, bucket: nat, pos: nat)
    requires forall x <- keys :: x.bucket == bucket && x.pos < pos
    ensures |keys| <= pos
  {
    if pos > 0 {
      var last := Slot(bucket, pos - 1);
      forall x <- keys - {last} ensures x.pos < pos - 1 {
        assert x == Slot(x.bucket, x.pos);
      }
      RowBound(keys - {last}, bucket, pos - 1);
    } else {
      assert keys == {};
    }
  }

  lemma {:induction false} SlotBound(keys: set<Slot>, rows: nat)
    requires forall x <- keys :: x.bucket < rows && x.pos < BUCKET_SIZE
    ensures |keys| <= rows * BUCKET_SIZE
  {
    if rows > 0 {
      var row := set x | x in keys && x.bucket == rows - 1;
      RowBound(row, rows - 1, BUCKET_SIZE);
      SlotBound(keys - row, rows - 1);
      assert keys == keys - row + row;
    } else {
      assert keys == {};
    }
  }

  /** Entries that each have a slot are no more than the slots. */
  lemma {:induction false} IdsFit(t: Table, ids: set<Id>)
    requires forall id <- ids :: SlotsOf(t, id) != {}
    ensures |ids| <= |t.Keys|
  {
    if ids != {} {
      var id :| id in ids;
      var rest := t - SlotsOf(t, id);
      forall x <- ids - {id} ensures SlotsOf(rest, x) != {} {
        assert SlotsOf(rest, x) == SlotsOf(t, x);
      }
      IdsFit(rest, ids - {id});
      assert rest.Keys == t.Keys - SlotsOf(t, id) && SlotsOf(t, id) <= t.Keys;
      AddrManager.SubsetCard(SlotsOf(t, id), t.Keys);
      assert |SlotsOf(t, id)| >= 1;
      assert t.Keys == rest.Keys + SlotsOf(t, id);
    }
  }

  lemma {:induction false} DistinctCard(ids: seq<Id>, all: set<Id>)
    requires DistinctIds(ids) && forall id: Id :: id in ids <==> id in all
    ensures |ids| == |all|
    decreases |ids|
  {
    if ids != [] {
      var n := |ids| - 1;
      assert ids == ids[..n] + [ids[n]] && ids[n] !in ids[..n];
      DistinctCard(ids[..n], all - {ids[n]});
    } else {
      assert all == {};
    }
  }

  lemma KindCounts(net: Net, s: State, order: seq<Id>)
    requires Inv(net, s) && Enumerates(order, s.info)
    ensures |OfKind(s.info, order, false)| == s.nNew <= NEW_BUCKET_COUNT * BUCKET_SIZE
    ensures |OfKind(s.info, order, true)| == s.nTried <= TRIED_BUCKET_COUNT * BUCKET_SIZE
  {
    hide AddrOk, RandomOk, EntriesOk, CollisionsOk;
    KindDistinct(s.info, order, false);
    KindDistinct(s.info, order, true);
    OfKindIn(s.info, order, false);
    OfKindIn(s.info, order, true);
    DistinctCard(OfKind(s.info, order, false), NewIds(s.info));
    DistinctCard(OfKind(s.info, order, true), TriedIds(s.info));
    NewFits(net, s);
    TriedFits(net, s);
  }

  lemma NewFits(net: Net, s: State)
    requires NewOk(net, s.info, s.newT) && RefOk(s.info, s.newT) && AllSettled(s.info, {})
    ensures |NewIds(s.info)| <= NEW_BUCKET_COUNT * BUCKET_SIZE
  {
    forall id <- NewIds(s.info) ensures SlotsOf(s.newT, id) != {} {
      assert Settled(s.info[id]);
    }
    IdsFit(s.newT, NewIds(s.info));
    SlotBound(s.newT.Keys, NEW_BUCKET_COUNT);
  }

  lemma TriedFits(net: Net, s: State)
    requires TriedOk(net, s.info, s.triedT)
    ensures |TriedIds(s.info)| <= TRIED_BUCKET_COUNT * BUCKET_SIZE
  {
    forall id <- TriedIds(s.info) ensures SlotsOf(s.triedT, id) != {} {
      assert TriedSlot(net, s.info[id].addr) in SlotsOf(s.triedT, id);
    }
    IdsFit(s.triedT, TriedIds(s.info));
    SlotBound(s.triedT.Keys, TRIED_BUCKET_COUNT);
  }

  // ---------------------------------------------------------------- the round trip

  /** The same entries, tables, maps and counts, up to the renaming of ids given by the stream. */
  ghost predicate Renamed(s: State, all: seq<Id>, t: State) {
    && Enumerates(all, s.info) && Copied(s, all, |all|, t)
    && (forall j | 0 <= j < |all| :: t.info[j].nRefCount == s.info[all[j]].nRefCount)
    && SameTable(s.newT, all, t.newT) && SameTable(s.triedT, all, t.triedT)
    && t.addr.Keys == s.addr.Keys && (forall a <- s.addr :: t.addr[a] < |all| && all[t.addr[a]] == s.addr[a])
    && t.nNew == s.nNew && t.nTried == s.nTried
  }

  ghost predicate SameTable(a: Table, all: seq<Id>, b: Table) {
    b.Keys == a.Keys && forall x <- a :: b[x] < |all| && all[b[x]] == a[x]
  }

  lemma AllFilled(net: Net, s: State, all: seq<Id>, t: State)
    requires NewOk(net, s.info, s.newT) && Filled(s, all, SlotList(s.newT, NEW_BUCKET_COUNT), t)
    ensures SameTable(s.newT, all, t.newT)
  {
    SlotListIn(s.newT, NEW_BUCKET_COUNT);
  }

  lemma SameRefs(net: Net, s: State, all: seq<Id>, t: State)
    requires Source(net, s, all) && Copied(s, all, |all|, t) && SameTable(s.newT, all, t.newT) && RefOk(t.info, t.newT)
    ensures forall j | 0 <= j < |all| :: t.info[j].nRefCount == s.info[all[j]].nRefCount
    ensures AllSettled(t.info, {})
  {
    hide AddrOk, RandomOk, EntriesOk, NewOk, TriedOk, Counts, CollisionsOk;
    forall j | 0 <= j < |all| ensures t.info[j].nRefCount == s.info[all[j]].nRefCount && Settled(t.info[j]) {
      assert all[j] in all && CopyOf(s.info[all[j]], t.info[j], j);
      SameSlots(s.newT, all, t.newT, j);
    }
  }

  lemma SameSlots(a: Table, all: seq<Id>, b: Table, j: nat)
    requires SameTable(a, all, b) && DistinctIds(all) && j < |all|
    ensures SlotsOf(b, j) == SlotsOf(a, all[j])
  {
  }

  lemma SameTried(net: Net, s: State, all: seq<Id>, t: State)
    requires TriedOk(net, s.info, s.triedT) && TriedOk(net, t.info, t.triedT)
    requires Enumerates(all, s.info) && Copied(s, all, |all|, t)
    ensures SameTable(s.triedT, all, t.triedT)
  {
    hide TriedOk, Copied, Enumerates;
    forall x <- t.triedT ensures x in s.triedT && t.triedT[x] < |all| && all[t.triedT[x]] == s.triedT[x] {
      TriedBack(net, s, all, t, x);
    }
    forall x <- s.triedT ensures x in t.triedT {
      TriedKept(net, s, all, t, x);
    }
  }

  lemma TriedBack(net: Net, s: State, all: seq<Id>, t: State, x: Slot)
    requires TriedOk(net, s.info, s.triedT) && TriedOk(net, t.info, t.triedT) && Copied(s, all, |all|, t) && x in t.triedT
    ensures x in s.triedT && t.triedT[x] < |all| && all[t.triedT[x]] == s.triedT[x]
  {
    hide TriedSlot;
    var j := t.triedT[x];
    assert j in t.info && CopyOf(s.info[all[j]], t.info[j], j);
  }

  lemma TriedKept(net: Net, s: State, all: seq<Id>, t: State, x: Slot)
    requires TriedOk(net, s.info, s.triedT) && TriedOk(net, t.info, t.triedT) && Copied(s, all, |all|, t)
    requires Enumerates(all, s.info) && x in s.triedT
    ensures x in t.triedT
  {
    hide TriedSlot;
    var id := s.triedT[x];
    assert id in all;
    var j: nat :| j < |all| && all[j] == id;
    assert CopyOf(s.info[all[j]], t.info[j], j);
  }

  lemma SameAddr(s: State, all: seq<Id>, t: State)
    requires AddrOk(s.info, s.addr) && AddrOk(t.info, t.addr)
    requires Enumerates(all, s.info) && Copied(s, all, |all|, t)
    ensures t.addr.Keys == s.addr.Keys && (forall a <- s.addr :: t.addr[a] < |all| && all[t.addr[a]] == s.addr[a])
  {
    hide AddrOk, Copied, Enumerates;
    forall a <- t.addr ensures a in s.addr && t.addr[a] < |all| && all[t.addr[a]] == s.addr[a] {
      AddrBack(s, all, t, a);
    }
    forall a <- s.addr ensures a in t.addr {
      AddrKept(s, all, t, a);
    }
  }

  lemma AddrBack(s: State, all: seq<Id>, t: State, a: Service)
    requires AddrOk(s.info, s.addr) && AddrOk(t.info, t.addr) && Copied(s, all, |all|, t) && a in t.addr
    ensures a in s.addr && t.addr[a] < |all| && all[t.addr[a]] == s.addr[a]
  {
    var j := t.addr[a];
    assert j in t.info && CopyOf(s.info[all[j]], t.info[j], j);
  }

  lemma AddrKept(s: State, all: seq<Id>, t: State, a: Service)
    requires AddrOk(s.info, s.addr) && AddrOk(t.info, t.addr) && Copied(s, all, |all|, t) && Enumerates(all, s.info) && a in s.addr
    ensures a in t.addr
  {
    var id := s.addr[a];
    assert id in all;
    var j: nat :| j < |all| && all[j] == id;
    assert CopyOf(s.info[all[j]], t.info[j], j);
  }

  lemma {:induction false} NothingToPrune(t: State, order: seq<Id>)
    requires AllSettled(t.info, {})
    ensures Prune(t, order) == t
  {
    if order != [] {
      NothingToPrune(t, order[..|order| - 1]);
    }
  }

  lemma {:induction false} Interval(lo: nat, hi: nat, ids: set<Id>)
    requires lo <= hi && forall j: Id :: j in ids <==> lo <= j < hi
    ensures |ids| == hi - lo
    decreases hi - lo
  {
    if lo < hi {
      Interval(lo, hi - 1, ids - {hi - 1});
    } else {
      assert ids == {};
    }
  }

  lemma CopiedCounts(s: State, order: seq<Id>, t: State)
    requires var all := Stream(s.info, order); Enumerates(all, s.info) && Copied(s, all, |all|, t)
    ensures |NewIds(t.info)| == |OfKind(s.info, order, false)| && |TriedIds(t.info)| == |OfKind(s.info, order, true)|
  {
    var all, n := Stream(s.info, order), |OfKind(s.info, order, false)|;
    OfKindIn(s.info, order, false);
    OfKindIn(s.info, order, true);
    forall j | 0 <= j < |all| ensures t.info[j].inTried <==> j >= n {
      assert CopyOf(s.info[all[j]], t.info[j], j);
      assert if j < n then all[j] in OfKind(s.info, order, false) else all[j] in OfKind(s.info, order, true);
    }
    Interval(0, n, NewIds(t.info));
    Interval(n, |all|, TriedIds(t.info));
  }

  /** Entries and tried table are back. */
  lemma LoadedEntries(net: Net, s: State, order: seq<Id>, asmap: nat)
    requires Inv(net, s) && Enumerates(order, s.info)
    ensures var d, all := Save(s, order, asmap), Stream(s.info, order);
            var t := LoadTrieds(net, LoadNews(Empty().(nNew := |d.news|, nTried := |d.trieds|), d.news), d.trieds);
            && Source(net, s, all) && Core(net, t) && Copied(s, all, |all|, t) && t.newT == map[]
            && t.nNew == |d.news| && t.nTried == |d.trieds| && t.collisions == {}
  {
    hide Inv, Core, Copied, LoadTrieds, LoadNews, OfKind;
    var d, all := Save(s, order, asmap), Stream(s.info, order);
    var news, trieds := OfKind(s.info, order, false), OfKind(s.info, order, true);
    OfKindIn(s.info, order, false);
    OfKindIn(s.info, order, true);
    StreamEnumerates(s.info, order);
    assert all[..|news|] == news && all[|news|..|news| + |trieds|] == trieds;
    forall j | 0 <= j < |news| ensures all[j] in s.info && !s.info[all[j]].inTried {
      assert all[j] == news[j] && news[j] in news;
    }
    var t0 := Empty().(nNew := |d.news|, nTried := |d.trieds|);
    LoadNewsOk(net, s, all, |news|, t0);
    LoadTriedsOk(net, s, all, |news|, trieds, LoadNews(t0, d.news));
  }

  lemma LoadedTables(net: Net, s: State, order: seq<Id>, asmap: nat)
    requires Inv(net, s) && Enumerates(order, s.info)
    ensures var all, t := Stream(s.info, order), LoadTables(net, Save(s, order, asmap), asmap);
            && Source(net, s, all) && Core(net, t) && Copied(s, all, |all|, t) && SameTable(s.newT, all, t.newT)
            && t.nNew == |OfKind(s.info, order, false)| && t.nTried == |OfKind(s.info, order, true)| && t.collisions == {}
  {
    hide Inv, Core, Copied, LoadTrieds, LoadNews, OfKind, LoadReferences, AllReferences, SlotList, SaveRows, SameTable;
    LoadedEntries(net, s, order, asmap);
    var d, all, news := Save(s, order, asmap), Stream(s.info, order), OfKind(s.info, order, false);
    SourceSlots(net, s, order);
    StreamReferences(s.newT, news, NEW_BUCKET_COUNT);
    SlotListIn(s.newT, NEW_BUCKET_COUNT);
    ListDistinct(s.newT, NEW_BUCKET_COUNT);
    assert |d.buckets| == NEW_BUCKET_COUNT by { RowCount(s.newT, news, NEW_BUCKET_COUNT); }
    var t := LoadTrieds(net, LoadNews(Empty().(nNew := |d.news|, nTried := |d.trieds|), d.news), d.trieds);
    LoadReferencesOk(net, s, news, all, SlotList(s.newT, NEW_BUCKET_COUNT), t);
    InvNewOk(net, s);
    AllFilled(net, s, all, LoadTables(net, d, asmap));
  }

  lemma RowCount(t: Table, news: seq<Id>, n: nat)
    ensures |SaveRows(t, news, n)| == n
  {
  }

  lemma InvNewOk(net: Net, s: State)
    requires Inv(net, s)
    ensures NewOk(net, s.info, s.newT)
  {
  }

  lemma SourceSlots(net: Net, s: State, order: seq<Id>)
    requires Inv(net, s) && Enumerates(order, s.info)
    ensures forall x <- s.newT :: x.pos < BUCKET_SIZE && s.newT[x] in OfKind(s.info, order, false)
  {
    OfKindIn(s.info, order, false);
  }

  /** Reading back what was written gives the same address manager, up to the names of the ids; it passes
      the check when the times are in order. */
  lemma RoundTrip(net: Net, s: State, order: seq<Id>, asmap: nat, next: seq<Id>)
    requires Inv(net, s) && Enumerates(order, s.info)
    ensures var d, t := Save(s, order, asmap), Load(net, Save(s, order, asmap), asmap, next);
            && Readable(d) && Renamed(s, Stream(s.info, order), t) && Inv(net, t)
            && (TimesOk(s.info) ==> TimesOk(t.info) && Consistent(net, t))
  {
    hide AddrOk, RandomOk, EntriesOk, NewOk, RefOk, TriedOk, AllSettled, CollisionsOk, NewIds, TriedIds;
    hide Copied, LoadTables, OfKind, SameTable, Prune, Save;
    var d, all := Save(s, order, asmap), Stream(s.info, order);
    var t := LoadTables(net, d, asmap);
    LoadedTables(net, s, order, asmap);
    KindCounts(net, s, order);
    SaveSizes(s, order, asmap);
    SameRefs(net, s, all, t);
    SameTried(net, s, all, t);
    SameAddr(s, all, t);
    CopiedCounts(s, order, t);
    NothingToPrune(t, next);
    NoCollisions(net, t);
    if TimesOk(s.info) {
      CopiedTimes(s, all, t);
      InvIsConsistent(net, t);
    }
  }

  lemma CopiedTimes(s: State, all: seq<Id>, t: State)
    requires Copied(s, all, |all|, t) && TimesOk(s.info)
    ensures TimesOk(t.info)
  {
  }

  lemma SaveSizes(s: State, order: seq<Id>, asmap: nat)
    ensures var d := Save(s, order, asmap);
            && d.format == FILE_FORMAT && d.compat == INCOMPATIBILITY_BASE + FILE_FORMAT
            && |d.news| == |OfKind(s.info, order, false)| && |d.trieds| == |OfKind(s.info, order, true)|
  {
  }

  lemma NoCollisions(net: Net, t: State)
    requires t.collisions == {}
    ensures CollisionsOk(net, t.info, t.triedT, t.nIdCount, t.collisions)
  {
  }
}
