/**
Reading a peers file under other hash functions than it was written with, as after a change of
the network map: src/addrman.cpp, `AddrManImpl::Unserialize`.  Every sane file is accepted, and
an entry is lost only when another one has its slot.
*/
module AddrManRebucket {
  import opened AddrManState
  import opened AddrManager
  import opened AddrManCheck
  import opened AddrManSerial
  import opened AddrManFile
  import Ops = AddrManOps

  ghost predicate DistinctRecords(rs: seq<Record>) {
    forall i, j | 0 <= i < j < |rs| :: rs[i].addr != rs[j].addr
  }

  /** Addresses are valid and do not repeat, and tried entries have been reached. */
  ghost predicate Sane(net: Net, d: Dump) {
    && DistinctRecords(d.news + d.trieds)
    && (forall r <- d.news :: net.valid(r.addr) && r.lastSuccess >= 0)
    && (forall r <- d.trieds :: net.valid(r.addr) && r.lastSuccess > 0)
  }

  // ---------------------------------------------------------------- while reading

  /** Every entry comes from a record of its kind. */
  ghost predicate Known(info: Infos, news: seq<Record>, trieds: seq<Record>) {
    forall id <- info :: info[id].lastTry == 0 && ToRecord(info[id]) in if info[id].inTried then trieds else news
  }

  ghost predicate Reading(net: Net, s: State, news: seq<Record>, trieds: seq<Record>, dNew: int, dTried: int) {
    Core(net, s) && Counts(s, dNew, dTried) && Known(s.info, news, trieds) && s.collisions == {}
  }

  /** The records of the new table are there under their numbers. */
  ghost predicate Listed(info: Infos, news: seq<Record>) {
    forall j: Id :: j < |news| ==> j in info && !info[j].inTried && ToRecord(info[j]) == news[j]
  }

  lemma NewAddress(info: Infos, addr: map<Service, Id>, news: seq<Record>, trieds: seq<Record>, r: Record)
    requires AddrOk(info, addr) && Known(info, news, trieds)
    requires forall x <- news :: x.addr != r.addr
    requires forall x <- trieds :: x.addr != r.addr
    ensures r.addr !in addr
  {
    assert r.addr in addr ==> addr[r.addr] in info && ToRecord(info[addr[r.addr]]).addr == r.addr;
  }

  lemma EntryCounts(s: State, r: Record, dNew: int, dTried: int)
    requires Counts(s, dNew, dTried) && s.nIdCount !in s.info
    ensures Counts(LoadEntry(s, r), dNew - 1, dTried)
  {
    var v := FromRecord(r, |s.random|);
    IdsUpdate(s.info, s.nIdCount, v);
    assert s.nIdCount !in NewIds(s.info) && TriedIds(s.info) - {s.nIdCount} == TriedIds(s.info);
  }

  /** One record becomes an entry. */
  lemma ReadEntry(net: Net, s: State, news: seq<Record>, trieds: seq<Record>, dNew: int, dTried: int, r: Record)
    requires Reading(net, s, news, trieds, dNew, dTried) && net.valid(r.addr)
    requires forall x <- news :: x.addr != r.addr
    requires forall x <- trieds :: x.addr != r.addr
    ensures s.nIdCount !in s.info && Core(net, LoadEntry(s, r)) && Counts(LoadEntry(s, r), dNew - 1, dTried)
  {
    hide AddrOk, RandomOk, EntriesOk, NewOk, RefOk, TriedOk, Counts, Known;
    var v := FromRecord(r, |s.random|);
    NewAddress(s.info, s.addr, news, trieds, r);
    CreateIndex(net, s, v);
    CreateTables(net, s.info, s.newT, s.triedT, s.nIdCount, v);
    EntryCounts(s, r, dNew, dTried);
  }

  lemma ReadNew(net: Net, s: State, news: seq<Record>, dNew: int, dTried: int, r: Record)
    requires Reading(net, s, news, [], dNew, dTried) && net.valid(r.addr)
    requires Listed(s.info, news) && s.nIdCount == |news| && forall x <- news :: x.addr != r.addr
    ensures var t := LoadEntry(s, r);
            Reading(net, t, news + [r], [], dNew - 1, dTried) && Listed(t.info, news + [r]) && t.nIdCount == |news + [r]|
  {
    hide Core, Counts;
    ReadEntry(net, s, news, [], dNew, dTried, r);
  }

  lemma {:induction false} ReadAllNews(net: Net, d: Dump, n: nat)
    requires Sane(net, d) && n <= |d.news|
    ensures var s := LoadNews(Empty().(nNew := |d.news|, nTried := |d.trieds|), d.news[..n]);
            && Reading(net, s, d.news[..n], [], |d.news| - n, |d.trieds|)
            && Listed(s.info, d.news[..n]) && s.nIdCount == n && s.newT == map[] && s.triedT == map[]
  {
    hide Reading, Listed, LoadEntry;
    var s0 := Empty().(nNew := |d.news|, nTried := |d.trieds|);
    if n == 0 {
      NothingRead(net, |d.news|, |d.trieds|);
      assert d.news[..0] == [];
    } else {
      ReadAllNews(net, d, n - 1);
      assert d.news[..n][..n - 1] == d.news[..n - 1] && d.news[..n - 1] + [d.news[n - 1]] == d.news[..n];
      OthersBefore(d, n - 1);
      var s := LoadNews(s0, d.news[..n - 1]);
      ReadNew(net, s, d.news[..n - 1], |d.news| - n + 1, |d.trieds|, d.news[n - 1]);
      TablesStay(s, d.news[n - 1]);
    }
  }

  lemma TablesStay(s: State, r: Record)
    ensures var t := LoadEntry(s, r);
            t.newT == s.newT && t.triedT == s.triedT && t.collisions == s.collisions && t.nIdCount == s.nIdCount + 1
  {
  }

  lemma NothingRead(net: Net, nNew: nat, nTried: nat)
    ensures Reading(net, Empty().(nNew := nNew, nTried := nTried), [], [], nNew, nTried)
    ensures Listed(Empty().info, [])
  {
    var s := Empty().(nNew := nNew, nTried := nTried);
    assert NewIds(s.info) == {} && TriedIds(s.info) == {};
    EmptyCore(net, s);
  }

  lemma OthersBefore(d: Dump, n: nat)
    requires DistinctRecords(d.news + d.trieds) && n < |d.news|
    ensures forall x <- d.news[..n] :: x.addr != d.news[n].addr
  {
    forall x <- d.news[..n] ensures x.addr != d.news[n].addr {
      var i :| 0 <= i < n && d.news[..n][i] == x;
      assert (d.news + d.trieds)[i] == x && (d.news + d.trieds)[n] == d.news[n];
    }
  }

  lemma OthersBeforeTried(d: Dump, n: nat)
    requires DistinctRecords(d.news + d.trieds) && n < |d.trieds|
    ensures forall x <- d.news :: x.addr != d.trieds[n].addr
    ensures forall x <- d.trieds[..n] :: x.addr != d.trieds[n].addr
  {
    var all := d.news + d.trieds;
    assert all[|d.news| + n] == d.trieds[n];
    forall x <- d.news ensures x.addr != d.trieds[n].addr {
      var i :| 0 <= i < |d.news| && d.news[i] == x;
      assert all[i] == x;
    }
    forall x <- d.trieds[..n] ensures x.addr != d.trieds[n].addr {
      var i :| 0 <= i < n && d.trieds[..n][i] == x;
      assert all[|d.news| + i] == x;
    }
  }

  // ---------------------------------------------------------------- tried entries

  ghost predicate SlotsTaken(net: Net, triedT: Table, trieds: seq<Record>) {
    forall r <- trieds :: TriedSlot(net, r.addr) in triedT
  }

  lemma ReadOneTried(net: Net, s: State, news: seq<Record>, trieds: seq<Record>, dTried: int, r: Record)
    requires Reading(net, s, news, trieds, 0, dTried) && net.valid(r.addr)
    requires Listed(s.info, news) && s.nIdCount >= |news| && SlotsTaken(net, s.triedT, trieds)
    requires forall x <- news :: x.addr != r.addr
    requires forall x <- trieds :: x.addr != r.addr
    ensures var t := LoadTried(net, s, r);
            && Reading(net, t, news, trieds + [r], 0, dTried - 1) && Listed(t.info, news) && t.nIdCount >= |news|
            && SlotsTaken(net, t.triedT, trieds + [r]) && t.newT == s.newT
  {
    hide Core, Counts, TriedSlot;
    if Lost(net, s, r) {
      FewerTried(net, s, 0, dTried);
    } else {
      ReadEntry(net, s, news, trieds, 0, dTried, r);
      var u := LoadEntry(s, r);
      PromoteOk(net, u, s.nIdCount);
      PromoteCounts(net, u, s.nIdCount, -1, dTried);
    }
  }

  lemma FewerTried(net: Net, s: State, dNew: int, dTried: int)
    requires Core(net, s) && Counts(s, dNew, dTried)
    ensures Core(net, s.(nTried := s.nTried - 1)) && Counts(s.(nTried := s.nTried - 1), dNew, dTried - 1)
  {
  }

  lemma PromoteCounts(net: Net, s: State, id: Id, dNew: int, dTried: int)
    requires Counts(s, dNew, dTried) && id in s.info && !s.info[id].inTried
    ensures Counts(Promote(net, s, id), dNew + 1, dTried - 1)
  {
    OtherFlag(s.info, id, s.info[id].(inTried := true));
  }

  lemma {:induction false} ReadAllTrieds(net: Net, d: Dump, s: State, n: nat)
    requires Sane(net, d) && n <= |d.trieds| && Reading(net, s, d.news, [], 0, |d.trieds|)
    requires Listed(s.info, d.news) && s.nIdCount == |d.news|
    ensures var t := LoadTrieds(net, s, d.trieds[..n]);
            && Reading(net, t, d.news, d.trieds[..n], 0, |d.trieds| - n) && Listed(t.info, d.news) && t.nIdCount >= |d.news|
            && SlotsTaken(net, t.triedT, d.trieds[..n]) && t.newT == s.newT
  {
    hide Reading, Listed, LoadTried;
    if n == 0 {
      assert d.trieds[..0] == [];
    } else {
      ReadAllTrieds(net, d, s, n - 1);
      assert d.trieds[..n][..n - 1] == d.trieds[..n - 1] && d.trieds[..n - 1] + [d.trieds[n - 1]] == d.trieds[..n];
      OthersBeforeTried(d, n - 1);
      ReadOneTried(net, LoadTrieds(net, s, d.trieds[..n - 1]), d.news, d.trieds[..n - 1], |d.trieds| - n + 1, d.trieds[n - 1]);
    }
  }

  // ---------------------------------------------------------------- references

  ghost predicate Bounded(info: Infos) {
    forall id <- info :: info[id].nRefCount <= NEW_BUCKETS_PER_ADDRESS
  }

  /** The entry has a slot, or the slot of its source is taken. */
  ghost predicate PlacedOrTaken(net: Net, s: State, id: Id)
    requires id in s.info
  {
    s.info[id].nRefCount > 0 || NewSlot(net, s.info[id].addr, s.info[id].source) in s.newT
  }

  /** Entries keep everything but their numbers of references, which do not fall, and slots stay taken. */
  ghost predicate Filling(s: State, t: State) {
    && t == s.(info := t.info, newT := t.newT) && t.info.Keys == s.info.Keys && s.newT.Keys <= t.newT.Keys
    && forall id <- s.info :: t.info[id] == WithRef(s.info[id], t.info[id].nRefCount) && s.info[id].nRefCount <= t.info[id].nRefCount
  }

  lemma ReadReferenceOk(net: Net, s: State, bucket: nat, id: int, restore: bool)
    requires Core(net, s) && Bounded(s.info) && 0 <= id && id in s.info && !s.info[id].inTried
    requires restore ==> bucket < NEW_BUCKET_COUNT
    ensures var t := LoadReference(net, s, bucket, id, restore);
            Core(net, t) && Bounded(t.info) && Filling(s, t) && PlacedOrTaken(net, t, id)
  {
    hide AddrOk, RandomOk, NewOk, RefOk, TriedOk;
    EntryKnown(net, s, id);
    PlacedRefs(s.info, s.newT, id);
    var slot := Slot(bucket, Position(net, s.info[id].addr, true, bucket));
    var own := NewSlot(net, s.info[id].addr, s.info[id].source);
    if s.info[id].nRefCount < NEW_BUCKETS_PER_ADDRESS {
      if restore && slot !in s.newT {
        InsertOk(net, s, slot, id);
      } else if own !in s.newT {
        InsertOk(net, s, own, id);
      }
    }
  }

  lemma PlacedRefs(info: Infos, newT: Table, id: Id)
    requires RefOk(info, newT) && id in info
    ensures info[id].nRefCount >= 0
  {
  }

  lemma FillingTrans(s: State, t: State, u: State)
    requires Filling(s, t) && Filling(t, u)
    ensures Filling(s, u)
  {
  }

  lemma FillingKeeps(net: Net, s: State, t: State, id: Id)
    requires Filling(s, t) && id in s.info && PlacedOrTaken(net, s, id)
    ensures PlacedOrTaken(net, t, id)
  {
  }

  lemma {:induction false} ReadAllReferences(net: Net, s: State, refs: seq<Reference>, restore: bool)
    requires Core(net, s) && Bounded(s.info)
    requires forall r <- refs :: 0 <= r.id && r.id in s.info && !s.info[r.id].inTried && (restore ==> r.bucket < NEW_BUCKET_COUNT)
    ensures var t := LoadReferences(net, s, refs, restore);
            && Core(net, t) && Bounded(t.info) && Filling(s, t)
            && forall r <- refs :: r.id in t.info && PlacedOrTaken(net, t, r.id)
  {
    hide Core, Bounded, PlacedOrTaken, LoadReference;
    if refs != [] {
      var n := |refs| - 1;
      var last := refs[n];
      assert last in refs;
      ReadAllReferences(net, s, refs[..n], restore);
      var t := LoadReferences(net, s, refs[..n], restore);
      ReadReferenceOk(net, t, last.bucket, last.id, restore);
      var u := LoadReference(net, t, last.bucket, last.id, restore);
      FillingTrans(s, t, u);
      forall r <- refs ensures r.id in u.info && PlacedOrTaken(net, u, r.id) {
        if r in refs[..n] {
          FillingKeeps(net, t, u, r.id);
        } else {
          assert r == last;
        }
      }
    }
  }

  // ---------------------------------------------------------------- pruning

  /** Only entries without a place have gone. */
  ghost predicate Pruned(s: State, t: State) {
    && t == s.(info := t.info, addr := t.addr, random := t.random, nNew := t.nNew)
    && (forall id <- t.info :: id in s.info && t.info[id] == WithPos(s.info[id], t.info[id].randomPos))
    && (forall id <- s.info :: id in t.info || Unplaced(s.info[id]))
  }

  lemma PruneOne(net: Net, s: State, id: Id)
    requires Core(net, s) && Counts(s, 0, 0) && id in s.info && Unplaced(s.info[id])
    ensures var t := Delete(s, id); Core(net, t) && Counts(t, 0, 0) && Pruned(s, t) && id !in t.info
  {
    hide Core, NewIds, TriedIds, Delete;
    DeleteOk(net, s, id);
    var t := Delete(s, id);
    WithoutIds(s, t, id);
  }

  lemma WithoutIds(s: State, t: State, id: Id)
    requires Without(s, t, id) && id in s.info && !s.info[id].inTried
    ensures |NewIds(t.info)| == |NewIds(s.info)| - 1 && |TriedIds(t.info)| == |TriedIds(s.info)|
  {
    assert NewIds(t.info) == NewIds(s.info) - {id} && TriedIds(t.info) == TriedIds(s.info);
  }

  lemma PrunedTrans(s: State, t: State, u: State)
    requires Pruned(s, t) && Pruned(t, u)
    ensures Pruned(s, u)
  {
  }

  lemma {:induction false} PruneAll(net: Net, s: State, order: seq<Id>)
    requires Core(net, s) && Counts(s, 0, 0)
    ensures var t := Prune(s, order);
            && Core(net, t) && Counts(t, 0, 0) && Pruned(s, t)
            && forall id <- order :: id in t.info ==> !Unplaced(t.info[id])
  {
    hide Core, Counts, Delete;
    if order != [] {
      var n := |order| - 1;
      var id := order[n];
      PruneAll(net, s, order[..n]);
      var t := Prune(s, order[..n]);
      if id in t.info && Unplaced(t.info[id]) {
        PruneOne(net, t, id);
        PrunedTrans(s, t, Delete(t, id));
      }
      var u := Prune(s, order);
      forall x <- order ensures x in u.info ==> !Unplaced(u.info[x]) {
        if x != id {
          assert x in order[..n];
        }
      }
    }
  }

  // ---------------------------------------------------------------- the whole file

  lemma TriedUnreferenced(net: Net, info: Infos, newT: Table, id: Id)
    requires NewOk(net, info, newT) && RefOk(info, newT) && id in info && info[id].inTried
    ensures info[id].nRefCount == 0
  {
    assert SlotsOf(newT, id) == {};
  }

  lemma SettledAtLast(net: Net, d: Dump, t: State)
    requires Sane(net, d) && Core(net, t) && Known(t.info, d.news, d.trieds) && Bounded(t.info)
    requires forall id <- t.info :: !Unplaced(t.info[id])
    ensures AllSettled(t.info, {}) && TimesOk(t.info)
  {
    hide AddrOk, RandomOk, EntriesOk, RefOk, NewOk, TriedOk, DistinctRecords;
    forall id <- t.info ensures Settled(t.info[id]) {
      PlacedRefs(t.info, t.newT, id);
      if t.info[id].inTried {
        TriedUnreferenced(net, t.info, t.newT, id);
      }
    }
  }

  ghost predicate ReferredTo(d: Dump, j: nat) {
    exists r :: r in AllReferences(d.buckets, |d.news|) && r.id == j
  }

  /** What reading all tables of a sane file leaves. */
  ghost predicate TablesRead(net: Net, d: Dump, t: State) {
    && Reading(net, t, d.news, d.trieds, 0, 0) && Listed(t.info, d.news) && Bounded(t.info)
    && SlotsTaken(net, t.triedT, d.trieds)
    && forall j: nat | j < |d.news| && ReferredTo(d, j) :: j in t.info && PlacedOrTaken(net, t, j)
  }

  lemma NoReferencesYet(net: Net, s: State)
    requires RefOk(s.info, s.newT) && s.newT == map[]
    ensures Bounded(s.info)
  {
    forall id <- s.info ensures s.info[id].nRefCount == 0 {
      assert SlotsOf(s.newT, id) == {};
    }
  }

  lemma FilledCounts(s: State, t: State)
    requires Filling(s, t) && Counts(s, 0, 0)
    ensures Counts(t, 0, 0)
  {
    assert NewIds(t.info) == NewIds(s.info) && TriedIds(t.info) == TriedIds(s.info);
  }

  lemma FilledKnown(s: State, t: State, news: seq<Record>, trieds: seq<Record>)
    requires Filling(s, t) && Known(s.info, news, trieds) && Listed(s.info, news)
    ensures Known(t.info, news, trieds) && Listed(t.info, news)
  {
  }

  lemma TablesOfSane(net: Net, d: Dump, asmap: nat)
    requires Sane(net, d)
    ensures TablesRead(net, d, LoadTables(net, d, asmap))
  {
    hide Core, Counts, Known, Listed, SlotsTaken, LoadNews, LoadTrieds, LoadReferences, AllReferences, Bounded, PlacedOrTaken, Sane;
    assert d.news[..|d.news|] == d.news && d.trieds[..|d.trieds|] == d.trieds;
    var s1 := LoadNews(Empty().(nNew := |d.news|, nTried := |d.trieds|), d.news);
    ReadAllNews(net, d, |d.news|);
    ReadAllTrieds(net, d, s1, |d.trieds|);
    var s2 := LoadTrieds(net, s1, d.trieds);
    var refs := AllReferences(d.buckets, |d.news|);
    BucketsReferTo(d.buckets, |d.news|, |d.buckets|);
    Refers(refs, |d.buckets|, |d.news|);
    ListedMeans(s2.info, d.news);
    assert Bounded(s2.info) by { CoreRefs(net, s2); NoReferencesYet(net, s2); }
    ReadAllReferences(net, s2, refs, Restores(d, asmap));
    var t := LoadReferences(net, s2, refs, Restores(d, asmap));
    FilledCounts(s2, t);
    FilledKnown(s2, t, d.news, d.trieds);
  }

  lemma CoreRefs(net: Net, s: State)
    requires Core(net, s)
    ensures RefOk(s.info, s.newT)
  {
  }

  lemma ListedMeans(info: Infos, news: seq<Record>)
    requires Listed(info, news)
    ensures forall j: Id :: j < |news| ==> j in info && !info[j].inTried
  {
  }

  /** An entry of the file is in the manager, or its slot is taken by another one. */
  ghost predicate KeptOrDisplaced(net: Net, d: Dump, t: State) {
    && (forall r <- d.trieds :: TriedSlot(net, r.addr) in t.triedT)
    && (forall j | 0 <= j < |d.news| && ReferredTo(d, j) ::
          d.news[j].addr in t.addr || NewSlot(net, d.news[j].addr, d.news[j].source) in t.newT)
  }

  /** A sane file is always accepted, under any hash functions; what it holds stays, unless its slot is
      taken, and nothing else appears. */
  lemma SaneIsAccepted(net: Net, d: Dump, asmap: nat, order: seq<Id>)
    requires Sane(net, d) && Enumerates(order, LoadTables(net, d, asmap).info)
    ensures var t := Load(net, d, asmap, order);
            && Inv(net, t) && TimesOk(t.info) && Consistent(net, t)
            && Known(t.info, d.news, d.trieds) && KeptOrDisplaced(net, d, t)
  {
    hide Core, Counts, LoadTables, Prune, AllSettled, Consistent, Sane, AllReferences, PlacedOrTaken;
    var s := LoadTables(net, d, asmap);
    TablesOfSane(net, d, asmap);
    PruneAll(net, s, order);
    var t := Prune(s, order);
    PrunedKeeps(net, d, s, t);
    SettledAtLast(net, d, t);
    InvIsConsistent(net, t);
    forall j | 0 <= j < |d.news| && ReferredTo(d, j)
      ensures d.news[j].addr in t.addr || NewSlot(net, d.news[j].addr, d.news[j].source) in t.newT
    {
      NewKept(net, d, s, t, j);
    }
  }

  lemma PrunedKeeps(net: Net, d: Dump, s: State, t: State)
    requires Pruned(s, t) && Known(s.info, d.news, d.trieds) && Bounded(s.info)
    ensures Known(t.info, d.news, d.trieds) && Bounded(t.info)
  {
  }

  lemma NewKept(net: Net, d: Dump, s: State, t: State, j: nat)
    requires Pruned(s, t) && j < |d.news| && Listed(s.info, d.news) && j in s.info && PlacedOrTaken(net, s, j) && Core(net, t)
    ensures d.news[j].addr in t.addr || NewSlot(net, d.news[j].addr, d.news[j].source) in t.newT
  {
    hide RandomOk, EntriesOk, RefOk, NewOk, TriedOk, NewSlot;
    assert ToRecord(s.info[j]) == d.news[j];
    if s.info[j].nRefCount > 0 {
      assert !Unplaced(s.info[j]) && j in t.info;
    }
  }

  // ---------------------------------------------------------------- a saved manager

  /** What is written for an entry, and in which table. */
  ghost predicate SameEntry(info: AddrInfo, copy: AddrInfo) {
    ToRecord(copy) == ToRecord(info) && copy.inTried == info.inTried
  }

  /** The slot an entry asks for in its table is taken. */
  ghost predicate Displaced(net: Net, info: AddrInfo, t: State) {
    if info.inTried then TriedSlot(net, info.addr) in t.triedT else NewSlot(net, info.addr, info.source) in t.newT
  }

  /** The entry `t` has for an address is the one `s` has. */
  ghost predicate CopyOf(s: State, t: State, a: Service)
    requires a in t.addr
  {
    t.addr[a] in t.info && a in s.addr && s.addr[a] in s.info && SameEntry(s.info[s.addr[a]], t.info[t.addr[a]])
  }

  /** Nothing but displaced entries is lost, and what is there is as it was. */
  ghost predicate OnlyDisplaced(net: Net, s: State, t: State) {
    && (forall a <- t.addr :: CopyOf(s, t, a))
    && (forall a <- s.addr :: s.addr[a] in s.info && (a in t.addr || Displaced(net, s.info[s.addr[a]], t)))
  }

  lemma SavedRecords(s: State, order: seq<Id>, asmap: nat)
    requires Enumerates(order, s.info)
    ensures var d, news, trieds := Save(s, order, asmap), OfKind(s.info, order, false), OfKind(s.info, order, true);
            && |d.news| == |news| && |d.trieds| == |trieds|
            && (forall j | 0 <= j < |news| :: news[j] in s.info && !s.info[news[j]].inTried && d.news[j] == ToRecord(s.info[news[j]]))
            && (forall j | 0 <= j < |trieds| ::
                  trieds[j] in s.info && s.info[trieds[j]].inTried && d.trieds[j] == ToRecord(s.info[trieds[j]]))
  {
    hide OfKind;
    var news, trieds := OfKind(s.info, order, false), OfKind(s.info, order, true);
    OfKindIn(s.info, order, false);
    OfKindIn(s.info, order, true);
    assert forall j | 0 <= j < |news| :: news[j] in news;
    assert forall j | 0 <= j < |trieds| :: trieds[j] in trieds;
  }

  /** A record that was written belongs to an entry of its kind. */
  ghost predicate Written(s: State, d: Dump) {
    && (forall r <- d.news ::
          r.addr in s.addr && s.addr[r.addr] in s.info && !s.info[s.addr[r.addr]].inTried && ToRecord(s.info[s.addr[r.addr]]) == r)
    && (forall r <- d.trieds ::
          r.addr in s.addr && s.addr[r.addr] in s.info && s.info[s.addr[r.addr]].inTried && ToRecord(s.info[s.addr[r.addr]]) == r)
  }

  lemma SavedIsWritten(s: State, order: seq<Id>, asmap: nat)
    requires AddrOk(s.info, s.addr) && Enumerates(order, s.info)
    ensures Written(s, Save(s, order, asmap))
  {
    hide Save, OfKind;
    SavedRecords(s, order, asmap);
  }

  lemma SavedIsSane(net: Net, s: State, order: seq<Id>, asmap: nat, other: Net)
    requires Inv(net, s) && TimesOk(s.info) && Enumerates(order, s.info) && forall a <- s.addr :: other.valid(a)
    ensures Sane(other, Save(s, order, asmap))
  {
    hide Save, OfKind, RandomOk, NewOk, RefOk, TriedOk, CollisionsOk, Counts;
    SavedIsWritten(s, order, asmap);
    SavedDistinct(s, order, asmap);
  }

  lemma SavedDistinct(s: State, order: seq<Id>, asmap: nat)
    requires AddrOk(s.info, s.addr) && Enumerates(order, s.info)
    ensures var d := Save(s, order, asmap); DistinctRecords(d.news + d.trieds)
  {
    hide Save, OfKind;
    SavedRecords(s, order, asmap);
    StreamEnumerates(s.info, order);
    var d, all := Save(s, order, asmap), Stream(s.info, order);
    forall i, j | 0 <= i < j < |all| ensures (d.news + d.trieds)[i].addr != (d.news + d.trieds)[j].addr {
      assert all[i] != all[j];
    }
  }

  /** Every entry of the new table is named in a bucket. */
  lemma SavedReferences(net: Net, s: State, order: seq<Id>, asmap: nat, j: nat)
    requires Inv(net, s) && Enumerates(order, s.info) && j < |OfKind(s.info, order, false)|
    ensures ReferredTo(Save(s, order, asmap), j)
  {
    hide OfKind, AllReferences, SlotList, AddrOk, RandomOk, EntriesOk, TriedOk, CollisionsOk, Counts, IndexOf, SaveRows;
    var news := OfKind(s.info, order, false);
    OfKindIn(s.info, order, false);
    assert news[j] in news;
    var x := SomeSlot(s.info, s.newT, news[j]);
    SourceSlots(net, s, order);
    SlotListIn(s.newT, NEW_BUCKET_COUNT);
    StreamReferences(s.newT, news, NEW_BUCKET_COUNT);
    var slots := SlotList(s.newT, NEW_BUCKET_COUNT);
    var refs := ReferencesOf(s.newT, news, slots);
    assert x in slots;
    var i :| 0 <= i < |slots| && slots[i] == x;
    IndexOfIn(news, news[j]);
    KindDistinct(s.info, order, false);
    assert refs[i] in refs && refs[i].id == j;
    SaveSizes(s, order, asmap);
    assert AllReferences(Save(s, order, asmap).buckets, |Save(s, order, asmap).news|) == refs;
  }

  lemma SomeSlot(info: Infos, newT: Table, id: Id) returns (x: Slot)
    requires RefOk(info, newT) && AllSettled(info, {}) && id in info && !info[id].inTried
    ensures x in newT && newT[x] == id
  {
    assert Settled(info[id]);
    assert SlotsOf(newT, id) != {};
    x :| x in SlotsOf(newT, id);
  }

  lemma FromWritten(s: State, d: Dump, t: State)
    requires Written(s, d) && Known(t.info, d.news, d.trieds) && AddrOk(t.info, t.addr)
    ensures forall a <- t.addr :: CopyOf(s, t, a)
  {
    forall a <- t.addr ensures CopyOf(s, t, a) {
      assert ToRecord(t.info[t.addr[a]]).addr == a;
    }
  }

  lemma EntryKept(net: Net, s: State, order: seq<Id>, asmap: nat, other: Net, t: State, a: Service)
    requires Inv(net, s) && Enumerates(order, s.info) && a in s.addr && KeptOrDisplaced(other, Save(s, order, asmap), t)
    ensures s.addr[a] in s.info && (a in t.addr || Displaced(other, s.info[s.addr[a]], t))
  {
    hide Save, OfKind, RandomOk, EntriesOk, NewOk, RefOk, TriedOk, CollisionsOk, Counts, AllSettled, TriedSlot, NewSlot, ReferredTo;
    var d, id := Save(s, order, asmap), s.addr[a];
    SavedRecords(s, order, asmap);
    OfKindIn(s.info, order, s.info[id].inTried);
    var ids := OfKind(s.info, order, s.info[id].inTried);
    assert id in ids;
    var j :| 0 <= j < |ids| && ids[j] == id;
    if s.info[id].inTried {
      assert d.trieds[j] in d.trieds;
    } else {
      SavedReferences(net, s, order, asmap, j);
    }
  }

  /** A saved manager that is read under any other hash functions, with or without the same network map, is
      accepted and valid, and loses only entries whose slots others have taken. */
  lemma Rebucketed(net: Net, s: State, order: seq<Id>, asmap: nat, other: Net, otherMap: nat, next: seq<Id>)
    requires Inv(net, s) && TimesOk(s.info) && Enumerates(order, s.info) && forall a <- s.addr :: other.valid(a)
    requires Enumerates(next, LoadTables(other, Save(s, order, asmap), otherMap).info)
    ensures var d := Save(s, order, asmap);
            var t := Load(other, d, otherMap, next);
            Readable(d) && Inv(other, t) && TimesOk(t.info) && Consistent(other, t) && OnlyDisplaced(other, s, t)
  {
    hide Save, Load, LoadTables, Sane, Enumerates, Written, Known, KeptOrDisplaced, SameEntry, Displaced, Consistent;
    hide RandomOk, EntriesOk, NewOk, RefOk, TriedOk, CollisionsOk, Counts, AllSettled;
    var d := Save(s, order, asmap);
    var t := Load(other, d, otherMap, next);
    SavedIsSane(net, s, order, asmap, other);
    SaneIsAccepted(other, d, otherMap, next);
    SavedIsWritten(s, order, asmap);
    FromWritten(s, d, t);
    KindCounts(net, s, order);
    SaveSizes(s, order, asmap);
    forall a <- s.addr ensures s.addr[a] in s.info && (a in t.addr || Displaced(other, s.info[s.addr[a]], t)) {
      EntryKept(net, s, order, asmap, other, t, a);
    }
  }

  /** Written by one manager and read by another one with other hash functions. */
  method SaveAndRebucket(m: AddrManImpl, order: seq<Id>, asmap: nat, other: Net, otherMap: nat) returns (copy: AddrManImpl, ok: bool)
    requires m.Valid() && TimesOk(m.mapInfo) && Enumerates(order, m.mapInfo) && forall a <- m.mapAddr :: other.valid(a)
    ensures ok && copy.Valid() && TimesOk(copy.mapInfo) && fresh(copy) && copy.net == other
    ensures OnlyDisplaced(other, m.View(), copy.View())
  {
    hide Inv, TableOf, Save, Load, LoadTables, OnlyDisplaced, Consistent, Enumerates;
    var d := Serialize(m, order, asmap);
    copy := new AddrManImpl(other);
    ghost var next;
    assert Readable(d) by { KindCounts(m.net, m.View(), order); SaveSizes(m.View(), order, asmap); }
    ok, next := Unserialize(copy, d, otherMap);
    Rebucketed(m.net, m.View(), order, asmap, other, otherMap, next);
  }
}
