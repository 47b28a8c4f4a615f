/**
`AddrManImpl::Serialize` and `AddrManImpl::Unserialize` in src/addrman.cpp, on the tables in
memory: they write and read what `Save` and `Load` in AddrManSerial say.
*/
module AddrManFile {
  import opened AddrManState
  import opened AddrManager
  import opened AddrManCheck
  import opened AddrManSerial
  import Ops = AddrManOps

  // ---------------------------------------------------------------- writing

  /** The numbers given to the ids of the new table so far. */
  ghost predicate Numbered(mapUnkIds: map<Id, int>, news: seq<Id>) {
    forall id <- news :: id in mapUnkIds && mapUnkIds[id] == IndexOf(news, id)
  }

  lemma KindNext(info: Infos, order: seq<Id>, i: nat, tried: bool)
    requires i < |order| && order[i] in info
    ensures var before := OfKind(info, order[..i], tried);
            OfKind(info, order[..i + 1], tried) == if info[order[i]].inTried == tried then before + [order[i]] else before
  {
    assert order[..i + 1][..i] == order[..i];
  }

  lemma {:induction false} KindPrefix(info: Infos, order: seq<Id>, i: nat, tried: bool)
    requires i <= |order|
    ensures |OfKind(info, order[..i], tried)| <= |OfKind(info, order, tried)|
    decreases |order| - i
  {
    if i < |order| {
      KindPrefix(info, order, i + 1, tried);
      assert order[..i + 1][..i] == order[..i];
    } else {
      assert order[..i] == order;
    }
  }

  lemma NumberNext(mapUnkIds: map<Id, int>, news: seq<Id>, id: Id)
    requires Numbered(mapUnkIds, news) && id !in news
    ensures Numbered(mapUnkIds[id := |news|], news + [id])
  {
    forall x <- news + [id] ensures IndexOf(news + [id], x) == if x == id then |news| else IndexOf(news, x) {
      assert (news + [id])[..|news|] == news;
    }
  }

  lemma NumberOther(mapUnkIds: map<Id, int>, news: seq<Id>, id: Id, n: int)
    requires Numbered(mapUnkIds, news) && id !in news
    ensures Numbered(mapUnkIds[id := n], news)
  {
  }

  lemma EntryKind(net: Net, s: State, order: seq<Id>, i: nat)
    requires Inv(net, s) && Enumerates(order, s.info) && i < |order|
    ensures order[i] in s.info && (s.info[order[i]].nRefCount != 0 <==> !s.info[order[i]].inTried)
    ensures order[i] !in order[..i]
  {
    assert order[i] in order;
  }

  method WriteNews(m: AddrManImpl, order: seq<Id>) returns (news: seq<Record>, mapUnkIds: map<Id, int>)
    requires m.Valid() && Enumerates(order, m.mapInfo)
    ensures forall id <- OfKind(m.mapInfo, order, false) :: id in m.mapInfo
    ensures news == Records(m.mapInfo, OfKind(m.mapInfo, order, false)) && Numbered(mapUnkIds, OfKind(m.mapInfo, order, false))
  {
    hide Inv, TableOf, OfKind, Numbered, WrittenOf;
    news, mapUnkIds := [], map[];
    var nIds := 0;
    KindStart(m.mapInfo, false);
    KindCounts(m.net, m.View(), order);
    assert order[..0] == [];
    for i := 0 to |order|
      invariant nIds == |news| && WrittenOf(m.mapInfo, order, i, false, news)
      invariant Numbered(mapUnkIds, OfKind(m.mapInfo, order[..i], false))
    {
      var id := order[i];
      EntryKind(m.net, m.View(), order, i);
      WrittenNext(m.mapInfo, order, i, false, news);
      NumberedNext(m.mapInfo, order, i, mapUnkIds, nIds);
      mapUnkIds := mapUnkIds[id := nIds];
      if m.mapInfo[id].nRefCount != 0 {
        assert nIds != m.nNew;
        news := news + [ToRecord(m.mapInfo[id])];
        nIds := nIds + 1;
      }
    }
    WrittenAll(m.mapInfo, order, false, news);
    assert order[..|order|] == order;
  }

  /** The records of the first i entries, as far as they are of the kind, have been written. */
  ghost predicate WrittenOf(info: Infos, order: seq<Id>, i: nat, tried: bool, written: seq<Record>)
    requires i <= |order|
  {
    var ids := OfKind(info, order[..i], tried);
    (forall id <- ids :: id in info) && written == Records(info, ids)
  }

  lemma WrittenNext(info: Infos, order: seq<Id>, i: nat, tried: bool, written: seq<Record>)
    requires i < |order| && order[i] in info && WrittenOf(info, order, i, tried, written)
    ensures WrittenOf(info, order, i + 1, tried,
                      if info[order[i]].inTried == tried then written + [ToRecord(info[order[i]])] else written)
    ensures info[order[i]].inTried == tried ==> |written| < |OfKind(info, order, tried)|
    ensures |written| == |OfKind(info, order[..i], tried)|
  {
    hide OfKind, ToRecord;
    KindNext(info, order, i, tried);
    KindPrefix(info, order, i + 1, tried);
  }

  lemma WrittenAll(info: Infos, order: seq<Id>, tried: bool, written: seq<Record>)
    requires WrittenOf(info, order, |order|, tried, written)
    ensures forall id <- OfKind(info, order, tried) :: id in info
    ensures written == Records(info, OfKind(info, order, tried))
  {
    hide OfKind, ToRecord;
    assert order[..|order|] == order;
  }

  lemma NumberedNext(info: Infos, order: seq<Id>, i: nat, mapUnkIds: map<Id, int>, nIds: int)
    requires i < |order| && order[i] in info && order[i] !in order[..i]
    requires Numbered(mapUnkIds, OfKind(info, order[..i], false)) && nIds == |OfKind(info, order[..i], false)|
    ensures Numbered(mapUnkIds[order[i] := nIds], OfKind(info, order[..i + 1], false))
  {
    hide OfKind, Numbered;
    KindNext(info, order, i, false);
    OfKindIn(info, order[..i], false);
    NumberOther(mapUnkIds, OfKind(info, order[..i], false), order[i], nIds);
    NumberNext(mapUnkIds, OfKind(info, order[..i], false), order[i]);
  }

  lemma KindStart(info: Infos, tried: bool)
    ensures OfKind(info, [], tried) == [] && Numbered(map[], OfKind(info, [], tried))
    ensures forall order: seq<Id> :: WrittenOf(info, order, 0, tried, [])
  {
    forall order: seq<Id> ensures WrittenOf(info, order, 0, tried, []) {
      assert order[..0] == [];
    }
  }

  method WriteTrieds(m: AddrManImpl, order: seq<Id>) returns (trieds: seq<Record>)
    requires m.Valid() && Enumerates(order, m.mapInfo)
    ensures forall id <- OfKind(m.mapInfo, order, true) :: id in m.mapInfo
    ensures trieds == Records(m.mapInfo, OfKind(m.mapInfo, order, true))
  {
    hide Inv, TableOf, OfKind, WrittenOf;
    trieds := [];
    var nIds := 0;
    KindStart(m.mapInfo, true);
    KindCounts(m.net, m.View(), order);
    assert order[..0] == [];
    for i := 0 to |order|
      invariant nIds == |trieds| && WrittenOf(m.mapInfo, order, i, true, trieds)
    {
      var id := order[i];
      EntryKind(m.net, m.View(), order, i);
      WrittenNext(m.mapInfo, order, i, true, trieds);
      if m.mapInfo[id].inTried {
        assert nIds != m.nTried;
        trieds := trieds + [ToRecord(m.mapInfo[id])];
        nIds := nIds + 1;
      }
    }
    WrittenAll(m.mapInfo, order, true, trieds);
  }

  /** The size of a bucket and the numbers of its entries. */
  method WriteRow(m: AddrManImpl, bucket: nat, mapUnkIds: map<Id, int>, ghost news: seq<Id>) returns (nSize: nat, row: seq<int>)
    requires m.Shaped() && bucket < NEW_BUCKET_COUNT && Numbered(mapUnkIds, news)
    requires forall x <- m.View().newT :: m.View().newT[x] in news
    ensures row == SaveRow(m.View().newT, news, bucket) && nSize == |row|
  {
    hide TableOf, IndexOf;
    ghost var t := m.View().newT;
    nSize, row := 0, [];
    for i := 0 to BUCKET_SIZE
      invariant nSize == |RowSlots(t, bucket, i)|
    {
      var id := m.NewAt(Slot(bucket, i));
      if id != -1 {
        nSize := nSize + 1;
      }
    }
    for i := 0 to BUCKET_SIZE
      invariant forall x <- RowSlots(t, bucket, i) :: x in t
      invariant row == RowIndexes(t, news, RowSlots(t, bucket, i))
    {
      var id := m.NewAt(Slot(bucket, i));
      if id != -1 {
        row := row + [mapUnkIds[id]];
      }
    }
  }

  method Serialize(m: AddrManImpl, order: seq<Id>, asmap: nat) returns (d: Dump)
    requires m.Valid() && Enumerates(order, m.mapInfo)
    ensures d == Save(m.View(), order, asmap)
  {
    hide Inv, TableOf, OfKind, Numbered, SaveRow;
    ghost var newIds := OfKind(m.mapInfo, order, false);
    SourceSlots(m.net, m.View(), order);
    var news, mapUnkIds := WriteNews(m, order);
    var trieds := WriteTrieds(m, order);
    var buckets: seq<seq<int>> := [];
    for bucket := 0 to NEW_BUCKET_COUNT
      invariant buckets == SaveRows(m.View().newT, newIds, bucket)
    {
      var nSize, row := WriteRow(m, bucket, mapUnkIds, newIds);
      buckets := buckets + [row];
    }
    d := Dump(FILE_FORMAT, INCOMPATIBILITY_BASE + FILE_FORMAT, news, trieds, buckets, asmap);
  }

  // ---------------------------------------------------------------- reading

  /** Whatever is read, ids come from the counter and the random order is kept. */
  ghost predicate Orderly(s: State) {
    RandomOk(s.info, s.random) && forall id <- s.info :: id < s.nIdCount
  }

  lemma LoadEntryOrderly(s: State, r: Record)
    requires Orderly(s)
    ensures Orderly(LoadEntry(s, r))
  {
  }

  lemma {:induction false} LoadNewsOrderly(s: State, news: seq<Record>)
    requires Orderly(s)
    ensures Orderly(LoadNews(s, news)) && LoadNews(s, news).nIdCount == s.nIdCount + |news|
    ensures |LoadNews(s, news).random| == |s.random| + |news|
  {
    hide Orderly;
    if news != [] {
      LoadNewsOrderly(s, news[..|news| - 1]);
      LoadEntryOrderly(LoadNews(s, news[..|news| - 1]), news[|news| - 1]);
    }
  }

  lemma InfoOrderly(s: State, t: State)
    requires Orderly(s) && t.random == s.random && t.nIdCount == s.nIdCount && t.info.Keys == s.info.Keys
    requires forall id <- s.info :: t.info[id].randomPos == s.info[id].randomPos
    ensures Orderly(t)
  {
  }

  lemma LoadTriedOrderly(net: Net, s: State, r: Record)
    requires Orderly(s)
    ensures Orderly(LoadTried(net, s, r))
  {
    LoadEntryOrderly(s, r);
    InfoOrderly(if Lost(net, s, r) then s else LoadEntry(s, r), LoadTried(net, s, r));
  }

  lemma {:induction false} LoadTriedsOrderly(net: Net, s: State, trieds: seq<Record>)
    requires Orderly(s)
    ensures Orderly(LoadTrieds(net, s, trieds))
  {
    hide Orderly, LoadTried;
    if trieds != [] {
      LoadTriedsOrderly(net, s, trieds[..|trieds| - 1]);
      LoadTriedOrderly(net, LoadTrieds(net, s, trieds[..|trieds| - 1]), trieds[|trieds| - 1]);
    }
  }

  lemma {:induction false} LoadReferencesOrderly(net: Net, s: State, refs: seq<Reference>, restore: bool)
    requires Orderly(s)
    ensures Orderly(LoadReferences(net, s, refs, restore)) && LoadReferences(net, s, refs, restore).info.Keys == s.info.Keys
  {
    hide Orderly;
    if refs != [] {
      var n := |refs| - 1;
      LoadReferencesOrderly(net, s, refs[..n], restore);
      InfoOrderly(LoadReferences(net, s, refs[..n], restore), LoadReferences(net, s, refs, restore));
    }
  }

  lemma DeleteOrderly(s: State, id: Id)
    requires Orderly(s) && id in s.info
    ensures Orderly(Delete(s, id)) && Delete(s, id).info.Keys == s.info.Keys - {id}
    ensures SameBut(s.info - {id}, Delete(s, id).info)
  {
    hide RandomOk, Swap;
    PosInRange(s.info, s.random, id);
    SwapOk(s, s.info[id].randomPos, |s.random| - 1);
    var t := Swap(s, s.info[id].randomPos, |s.random| - 1);
    RemoveRandom(t.info, t.random, id);
  }

  method ReadNews(m: AddrManImpl, d: Dump)
    requires m.Shaped() && m.View() == Empty().(nNew := |d.news|, nTried := |d.trieds|)
    modifies m`mapInfo, m`mapAddr, m`vRandom, m`nIdCount
    ensures m.View() == LoadNews(old(m.View()), d.news)
  {
    hide TableOf, Orderly;
    ghost var s0 := m.View();
    EmptyOrderly(s0);
    for n := 0 to |d.news|
      invariant m.View().(nIdCount := n) == LoadNews(s0, d.news[..n]) && m.nIdCount == 0
    {
      assert d.news[..n + 1][..n] == d.news[..n];
      LoadNewsOrderly(s0, d.news[..n]);
      m.mapInfo := m.mapInfo[n := FromRecord(d.news[n], |m.vRandom|)];
      m.mapAddr := m.mapAddr[d.news[n].addr := n];
      m.vRandom := m.vRandom + [n];
    }
    assert d.news[..|d.news|] == d.news;
    m.nIdCount := |d.news|;
  }

  lemma EmptyOrderly(s: State)
    requires s.info == map[] && s.random == []
    ensures Orderly(s)
  {
  }

  method ReadTried(m: AddrManImpl, r: Record) returns (lost: bool)
    requires m.Shaped()
    modifies m`mapInfo, m`mapAddr, m`vRandom, m`nIdCount, m.vvTried
    ensures m.View().(nTried := if lost then old(m.nTried) - 1 else old(m.nTried)) == LoadTried(m.net, old(m.View()), r)
    ensures m.nTried == old(m.nTried)
  {
    hide TableOf;
    var slot := TriedSlot(m.net, r.addr);
    var holder := m.TriedAt(slot);
    lost := !m.net.valid(r.addr) || holder != -1;
    if !lost {
      var info := FromRecord(r, |m.vRandom|).(inTried := true);
      m.vRandom := m.vRandom + [m.nIdCount];
      m.mapInfo := m.mapInfo[m.nIdCount := info];
      m.mapAddr := m.mapAddr[r.addr := m.nIdCount];
      SetSlot(m.vvTried, slot, m.nIdCount);
      m.nIdCount := m.nIdCount + 1;
    }
  }

  method ReadTrieds(m: AddrManImpl, trieds: seq<Record>)
    requires m.Shaped()
    modifies m`mapInfo, m`mapAddr, m`vRandom, m`nIdCount, m`nTried, m.vvTried
    ensures m.View() == LoadTrieds(m.net, old(m.View()), trieds)
  {
    hide TableOf, LoadTried;
    var nLost := 0;
    for n := 0 to |trieds|
      invariant m.nTried == old(m.nTried)
      invariant m.View().(nTried := m.nTried - nLost) == LoadTrieds(m.net, old(m.View()), trieds[..n])
    {
      assert trieds[..n + 1][..n] == trieds[..n];
      ghost var before := m.View();
      var lost := ReadTried(m, trieds[n]);
      LostCount(m.net, before, trieds[n], nLost);
      nLost := nLost + if lost then 1 else 0;
    }
    assert trieds[..|trieds|] == trieds;
    m.nTried := m.nTried - nLost;
  }

  /** The counter of tried entries does not matter while reading them. */
  lemma LostCount(net: Net, s: State, r: Record, nLost: int)
    ensures LoadTried(net, s.(nTried := s.nTried - nLost), r)
            == LoadTried(net, s, r).(nTried := LoadTried(net, s, r).nTried - nLost)
  {
    hide Promote, TriedSlot;
    PromoteCount(net, LoadEntry(s, r), s.nIdCount, s.nTried - nLost);
  }

  lemma PromoteCount(net: Net, s: State, id: Id, nTried: int)
    ensures Promote(net, s.(nTried := nTried), id) == Promote(net, s, id).(nTried := nTried)
    ensures Promote(net, s, id).nTried == s.nTried
  {
  }

  /** The references of all buckets that name an entry that was read. */
  method ReadBuckets(buckets: seq<seq<int>>, nNew: nat) returns (refs: seq<Reference>)
    ensures refs == AllReferences(buckets, nNew)
  {
    refs := [];
    for bucket := 0 to |buckets|
      invariant refs == AllReferences(buckets[..bucket], nNew)
    {
      ghost var before := refs;
      var row := buckets[bucket];
      for n := 0 to |row|
        invariant refs == before + RowReferences(bucket, row[..n], nNew)
      {
        assert row[..n + 1][..n] == row[..n];
        if 0 <= row[n] < nNew {
          refs := refs + [Reference(bucket, row[n])];
        }
      }
      assert row[..|row|] == row && buckets[..bucket + 1][..bucket] == buckets[..bucket];
    }
    assert buckets[..|buckets|] == buckets;
  }

  ghost predicate RefersTo(refs: seq<Reference>, rows: nat, nNew: nat) {
    forall r <- refs :: r.bucket < rows && 0 <= r.id < nNew
  }

  lemma {:induction false} RowRefersTo(bucket: nat, indexes: seq<int>, nNew: nat, rows: nat)
    requires bucket < rows
    ensures RefersTo(RowReferences(bucket, indexes, nNew), rows, nNew)
  {
    if indexes != [] {
      RowRefersTo(bucket, indexes[..|indexes| - 1], nNew, rows);
    }
  }

  lemma {:induction false} BucketsReferTo(buckets: seq<seq<int>>, nNew: nat, rows: nat)
    requires |buckets| <= rows
    ensures RefersTo(AllReferences(buckets, nNew), rows, nNew)
  {
    if buckets != [] {
      var n := |buckets| - 1;
      BucketsReferTo(buckets[..n], nNew, rows);
      RowRefersTo(n, buckets[n], nNew, rows);
    }
  }

  method ReadReference(m: AddrManImpl, r: Reference, restore: bool)
    requires m.Shaped() && r.id >= 0 && r.id in m.mapInfo && (restore ==> r.bucket < NEW_BUCKET_COUNT)
    modifies m`mapInfo, m.vvNew
    ensures m.View() == LoadReference(m.net, old(m.View()), r.bucket, r.id, restore)
  {
    hide TableOf, Insert;
    var info := m.mapInfo[r.id];
    if m.net.valid(info.addr) && info.nRefCount < NEW_BUCKETS_PER_ADDRESS {
      var slot := Slot(r.bucket, Position(m.net, info.addr, true, r.bucket));
      var taken := !restore;
      if restore {
        var holder := m.NewAt(slot);
        taken := holder != -1;
      }
      if !taken {
        m.PutIntoNew(slot, r.id, info.nRefCount + 1);
      } else {
        slot := NewSlot(m.net, info.addr, info.source);
        var holder := m.NewAt(slot);
        if holder == -1 {
          m.PutIntoNew(slot, r.id, info.nRefCount + 1);
        }
      }
    }
  }

  method ReadReferences(m: AddrManImpl, refs: seq<Reference>, restore: bool)
    requires m.Shaped() && Orderly(m.View()) && (restore ==> forall r <- refs :: r.bucket < NEW_BUCKET_COUNT)
    requires forall r <- refs :: r.id >= 0 && r.id in m.mapInfo
    modifies m`mapInfo, m.vvNew
    ensures m.View() == LoadReferences(m.net, old(m.View()), refs, restore)
  {
    hide TableOf, LoadReference, Orderly;
    for n := 0 to |refs|
      invariant m.View() == LoadReferences(m.net, old(m.View()), refs[..n], restore)
    {
      assert refs[..n + 1][..n] == refs[..n] && refs[n] in refs;
      LoadReferencesOrderly(m.net, old(m.View()), refs[..n], restore);
      ReadReference(m, refs[n], restore);
    }
    assert refs[..|refs|] == refs;
  }

  /** Deletes the entries without a place, in the order in which the map is gone through. */
  method PruneEntries(m: AddrManImpl) returns (ghost order: seq<Id>)
    requires Orderly(m.View())
    modifies m`mapInfo, m`vRandom, m`mapAddr, m`nNew
    ensures Enumerates(order, old(m.mapInfo)) && m.View() == Prune(old(m.View()), order)
  {
    hide TableOf, Orderly, Delete;
    order := [];
    var todo := m.mapInfo.Keys;
    while todo != {}
      invariant m.View() == Prune(old(m.View()), order) && Orderly(m.View()) && todo <= m.mapInfo.Keys <= old(m.mapInfo.Keys)
      invariant DistinctIds(order) && forall id: Id :: id in order <==> id in old(m.mapInfo) && id !in todo
      decreases |todo|
    {
      var id :| id in todo;
      assert (order + [id])[..|order|] == order;
      if !m.mapInfo[id].inTried && m.mapInfo[id].nRefCount == 0 {
        DeleteOrderly(m.View(), id);
        assert RandomOk(m.mapInfo, m.vRandom) by { OrderlyRandom(m.View()); }
        m.Delete(id);
      }
      order := order + [id];
      todo := todo - {id};
    }
  }

  lemma OrderlyRandom(s: State)
    requires Orderly(s)
    ensures RandomOk(s.info, s.random)
  {
  }

  // ---------------------------------------------------------------- what an accepted file guarantees

  /** Nothing that the invariant of the addresses depends on has changed. */
  lemma TracedSame(net: Net, s: State, t: State)
    requires Traced(net, s) && t.addr == s.addr && t.nIdCount == s.nIdCount && t.info.Keys == s.info.Keys
    requires forall id <- s.info :: t.info[id].addr == s.info[id].addr
    requires forall id <- s.info :: Unplaced(s.info[id]) ==> Unplaced(t.info[id]) || net.valid(s.info[id].addr)
    ensures Traced(net, t)
  {
  }

  lemma TracedEntry(net: Net, s: State, r: Record)
    requires Traced(net, s)
    ensures Traced(net, LoadEntry(s, r))
  {
  }

  lemma {:induction false} TracedNews(net: Net, s: State, news: seq<Record>)
    requires Traced(net, s)
    ensures Traced(net, LoadNews(s, news)) && LoadNews(s, news).collisions == s.collisions
  {
    hide Traced;
    if news != [] {
      TracedNews(net, s, news[..|news| - 1]);
      TracedEntry(net, LoadNews(s, news[..|news| - 1]), news[|news| - 1]);
    }
  }

  lemma TracedTried(net: Net, s: State, r: Record)
    requires Traced(net, s)
    ensures Traced(net, LoadTried(net, s, r)) && LoadTried(net, s, r).collisions == s.collisions
  {
    hide Traced;
    TracedEntry(net, s, r);
    TracedSame(net, if Lost(net, s, r) then s else LoadEntry(s, r), LoadTried(net, s, r));
  }

  lemma {:induction false} TracedTrieds(net: Net, s: State, trieds: seq<Record>)
    requires Traced(net, s)
    ensures Traced(net, LoadTrieds(net, s, trieds)) && LoadTrieds(net, s, trieds).collisions == s.collisions
  {
    hide Traced, LoadTried;
    if trieds != [] {
      TracedTrieds(net, s, trieds[..|trieds| - 1]);
      TracedTried(net, LoadTrieds(net, s, trieds[..|trieds| - 1]), trieds[|trieds| - 1]);
    }
  }

  lemma {:induction false} TracedReferences(net: Net, s: State, refs: seq<Reference>, restore: bool)
    requires Traced(net, s)
    ensures Traced(net, LoadReferences(net, s, refs, restore)) && LoadReferences(net, s, refs, restore).collisions == s.collisions
  {
    hide Traced;
    if refs != [] {
      var n := |refs| - 1;
      TracedReferences(net, s, refs[..n], restore);
      TracedSame(net, LoadReferences(net, s, refs[..n], restore), LoadReferences(net, s, refs, restore));
    }
  }

  lemma TracedDelete(net: Net, s: State, id: Id)
    requires Orderly(s) && Traced(net, s) && id in s.info
    ensures Orderly(Delete(s, id)) && Traced(net, Delete(s, id)) && Delete(s, id).collisions == s.collisions
  {
    hide Orderly, Delete, RandomOk;
    DeleteOrderly(s, id);
    OrderlyRandom(s);
    Ops.DeleteAddr(s, id);
    DeleteKeeps(s, id);
  }

  lemma DeleteKeeps(s: State, id: Id)
    ensures Delete(s, id).collisions == s.collisions && Delete(s, id).nIdCount == s.nIdCount
  {
  }

  lemma {:induction false} TracedPrune(net: Net, s: State, order: seq<Id>)
    requires Orderly(s) && Traced(net, s)
    ensures Orderly(Prune(s, order)) && Traced(net, Prune(s, order)) && Prune(s, order).collisions == s.collisions
  {
    hide Orderly, Traced, Delete;
    if order != [] {
      var n := |order| - 1;
      TracedPrune(net, s, order[..n]);
      if order[n] in Prune(s, order[..n]).info {
        TracedDelete(net, Prune(s, order[..n]), order[n]);
      }
    }
  }

  lemma TablesOrderly(net: Net, d: Dump, asmap: nat)
    ensures Orderly(LoadTables(net, d, asmap))
  {
    hide Orderly, LoadNews, LoadTrieds, LoadReferences, AllReferences;
    var s0 := Empty().(nNew := |d.news|, nTried := |d.trieds|);
    EmptyOrderly(s0);
    LoadNewsOrderly(s0, d.news);
    LoadTriedsOrderly(net, LoadNews(s0, d.news), d.trieds);
    var s2 := LoadTrieds(net, LoadNews(s0, d.news), d.trieds);
    LoadReferencesOrderly(net, s2, AllReferences(d.buckets, |d.news|), Restores(d, asmap));
  }

  /** Whatever the file says, an accepted one leaves a state that every operation preserves. */
  lemma AcceptedIsInv(net: Net, d: Dump, asmap: nat, order: seq<Id>)
    requires Consistent(net, Load(net, d, asmap, order))
    ensures Inv(net, Load(net, d, asmap, order)) && TimesOk(Load(net, d, asmap, order).info)
  {
    hide Orderly, Traced, Consistent, Inv, TimesOk, LoadNews, LoadTrieds, LoadReferences, AllReferences, Prune;
    var s0 := Empty().(nNew := |d.news|, nTried := |d.trieds|);
    assert Traced(net, s0) by { TracedEmpty(net, |d.news|, |d.trieds|); }
    TracedNews(net, s0, d.news);
    TracedTrieds(net, LoadNews(s0, d.news), d.trieds);
    TracedReferences(net, LoadTrieds(net, LoadNews(s0, d.news), d.trieds), AllReferences(d.buckets, |d.news|),
                     Restores(d, asmap));
    TablesOrderly(net, d, asmap);
    TracedPrune(net, LoadTables(net, d, asmap), order);
    ConsistentIsInv(net, Load(net, d, asmap, order));
  }

  lemma TracedEmpty(net: Net, nNew: nat, nTried: nat)
    ensures Traced(net, Empty().(nNew := nNew, nTried := nTried))
  {
  }

  /** Reads a stream into an empty manager; it fails on a bad header or an inconsistent result.  Counts
      that are too large have been stored already when they are refused. */
  method Unserialize(m: AddrManImpl, d: Dump, asmap: nat) returns (ok: bool, ghost order: seq<Id>)
    requires m.Shaped() && m.View() == Empty()
    modifies m, m.vvNew, m.vvTried
    ensures !Compatible(d) ==> !ok && m.View() == Empty()
    ensures Compatible(d) && !Readable(d) ==> !ok && m.View() == Empty().(nNew := |d.news|, nTried := |d.trieds|)
    ensures Readable(d) ==>
              && Enumerates(order, LoadTables(m.net, d, asmap).info)
              && m.View() == Load(m.net, d, asmap, order) && (ok <==> Consistent(m.net, m.View()))
    ensures ok ==> m.Valid() && TimesOk(m.mapInfo)
  {
    hide TableOf, Consistent, LoadTables, Inv, Orderly, Enumerates, Prune, TimesOk;
    ok, order := false, [];
    if d.compat < INCOMPATIBILITY_BASE || d.compat - INCOMPATIBILITY_BASE > FILE_FORMAT {
      return;
    }
    m.nNew, m.nTried := |d.news|, |d.trieds|;
    if |d.news| <= NEW_BUCKET_COUNT * BUCKET_SIZE && |d.trieds| <= TRIED_BUCKET_COUNT * BUCKET_SIZE {
      ReadTables(m, d, asmap);
      order := PruneEntries(m);
      var code := CheckAddrman(m);
      ok := code == 0;
      if ok {
        AcceptedIsInv(m.net, d, asmap, order);
      }
    }
  }

  method ReadTables(m: AddrManImpl, d: Dump, asmap: nat)
    requires m.Shaped() && m.View() == Empty().(nNew := |d.news|, nTried := |d.trieds|)
    modifies m, m.vvNew, m.vvTried
    ensures m.View() == LoadTables(m.net, d, asmap) && Orderly(m.View())
  {
    hide TableOf, Orderly, LoadNews, LoadTrieds, LoadReferences, AllReferences, RefersTo;
    ghost var s0 := m.View();
    EmptyOrderly(s0);
    ReadNews(m, d);
    LoadNewsOrderly(s0, d.news);
    ghost var s1 := m.View();
    ReadTrieds(m, d.trieds);
    LoadTriedsOrderly(m.net, s1, d.trieds);
    ghost var s2 := m.View();
    var refs := ReadBuckets(d.buckets, |d.news|);
    var restore := |d.buckets| == NEW_BUCKET_COUNT && (if d.format >= 2 then d.asmap else 0) == asmap;
    EntriesRead(m.net, s0, d);
    BucketsReferTo(d.buckets, |d.news|, |d.buckets|);
    assert forall r <- refs :: r.bucket < |d.buckets| && 0 <= r.id < |d.news| by { Refers(refs, |d.buckets|, |d.news|); }
    ReadReferences(m, refs, restore);
    LoadReferencesOrderly(m.net, s2, refs, restore);
  }

  lemma Refers(refs: seq<Reference>, rows: nat, nNew: nat)
    requires RefersTo(refs, rows, nNew)
    ensures forall r <- refs :: r.bucket < rows && 0 <= r.id < nNew
  {
  }

  /** The entries of the new table are there under their numbers. */
  lemma EntriesRead(net: Net, s0: State, d: Dump)
    requires s0 == Empty().(nNew := s0.nNew, nTried := s0.nTried)
    ensures var t := LoadTrieds(net, LoadNews(s0, d.news), d.trieds);
            forall j: Id :: j < |d.news| ==> j in t.info
  {
    NewsRead(s0, d.news);
    TriedsKeep(net, LoadNews(s0, d.news), d.trieds);
  }

  lemma {:induction false} NewsRead(s0: State, news: seq<Record>)
    requires s0.nIdCount == 0
    ensures LoadNews(s0, news).nIdCount == |news| && forall j: Id :: j < |news| ==> j in LoadNews(s0, news).info
  {
    if news != [] {
      NewsRead(s0, news[..|news| - 1]);
    }
  }

  lemma {:induction false} TriedsKeep(net: Net, s: State, trieds: seq<Record>)
    ensures s.info.Keys <= LoadTrieds(net, s, trieds).info.Keys
  {
    if trieds != [] {
      TriedsKeep(net, s, trieds[..|trieds| - 1]);
    }
  }

  /** Written and read back: the same manager up to the names of the ids, and the check passes. */
  method SaveAndLoad(m: AddrManImpl, order: seq<Id>, asmap: nat) returns (copy: AddrManImpl, ok: bool)
    requires m.Valid() && TimesOk(m.mapInfo) && Enumerates(order, m.mapInfo)
    ensures ok && copy.Valid() && TimesOk(copy.mapInfo) && fresh(copy) && Renamed(m.View(), Stream(m.mapInfo, order), copy.View())
  {
    hide Inv, TableOf, Save, Load, Renamed, Consistent, Enumerates, TimesOk;
    var d := Serialize(m, order, asmap);
    copy := new AddrManImpl(m.net);
    ghost var next;
    ok, next := Unserialize(copy, d, asmap);
    RoundTrip(m.net, m.View(), order, asmap, next);
  }
}
