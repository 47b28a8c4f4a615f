/**
Compact blocks, src/blockencodings.cpp and src/blockencodings.h: a block sent as prefilled
transactions and 6-byte short ids, and its reconstruction from the memory pool.

Short ids are a function of the witness hash (a parameter of the compact block, since the key
is derived from its header and nonce).  Whether a bucket of the receiver's hash table gets too
full, and the final check of the block, are parameters too.
*/
module BlockEncodings {
  import opened Basics
  import opened Numbers
  import MessageFraming

  const MAX_U16 := 65535

  type U16 = x: int | 0 <= x <= MAX_U16

  datatype Tx = Tx(witnessHash: Hash, isNull: bool)
  datatype Prefilled = Prefilled(index: U16, tx: Tx)
  datatype ReadStatus = Ok | Invalid | Failed | CheckBlockFailed

  datatype CompactBlock = CompactBlock(headerIsNull: bool, shortIds: seq<nat>, prefilled: seq<Prefilled>, shortId: Hash -> nat)
  {
    function BlockTxCount(): nat { |shortIds| + |prefilled| }
  }

  type Slots = seq<Option<Tx>>

  // ---------------------------------------------------------------- prefilled transactions

  /** The position of the i-th prefilled transaction: indexes are differences. */
  function PosOf(prefilled: seq<Prefilled>, i: nat): (p: int)
    requires i < |prefilled|
    ensures p >= i
  {
    prefilled[i].index + if i == 0 then 0 else PosOf(prefilled, i - 1) + 1
  }

  predicate PrefilledOk(cb: CompactBlock, i: nat)
    requires i < |cb.prefilled|
  {
    !cb.prefilled[i].tx.isNull && PosOf(cb.prefilled, i) <= MAX_U16 && PosOf(cb.prefilled, i) <= |cb.shortIds| + i
  }

  predicate WellFormed(cb: CompactBlock) {
    && !cb.headerIsNull && cb.BlockTxCount() > 0
    && cb.BlockTxCount() <= MAX_BLOCK_WEIGHT / MIN_SERIALIZABLE_TRANSACTION_WEIGHT
    && forall i | 0 <= i < |cb.prefilled| :: PrefilledOk(cb, i)
  }

  /** The slots after the first n prefilled transactions are in place. */
  function Placed(cb: CompactBlock, n: nat): (slots: Slots)
    requires n <= |cb.prefilled| && forall i | 0 <= i < n :: PrefilledOk(cb, i)
    ensures |slots| == cb.BlockTxCount()
  {
    if n == 0 then seq(cb.BlockTxCount(), _ => None)
    else
      assert PrefilledOk(cb, n - 1);
      Placed(cb, n - 1)[PosOf(cb.prefilled, n - 1) := Some(cb.prefilled[n - 1].tx)]
  }

  lemma {:induction false} PosIncreases(prefilled: seq<Prefilled>, i: nat, j: nat)
    requires i < j < |prefilled|
    ensures PosOf(prefilled, i) < PosOf(prefilled, j)
  {
    if i < j - 1 {
      PosIncreases(prefilled, i, j - 1);
    }
  }

  lemma {:induction false} FreeAbove(cb: CompactBlock, n: nat, k: nat)
    requires n <= |cb.prefilled| && forall i | 0 <= i < n :: PrefilledOk(cb, i)
    requires k < cb.BlockTxCount() && (n == 0 || k > PosOf(cb.prefilled, n - 1))
    ensures Placed(cb, n)[k].None?
  {
    if n > 0 {
      FreeAbove(cb, n - 1, k);
    }
  }

  lemma {:induction false} PrefilledPlaced(cb: CompactBlock, n: nat, i: nat)
    requires i < n <= |cb.prefilled| && forall j | 0 <= j < n :: PrefilledOk(cb, j)
    ensures PosOf(cb.prefilled, i) < cb.BlockTxCount() && Placed(cb, n)[PosOf(cb.prefilled, i)] == Some(cb.prefilled[i].tx)
  {
    assert PrefilledOk(cb, i);
    if i < n - 1 {
      PrefilledPlaced(cb, n - 1, i);
      PosIncreases(cb.prefilled, i, n - 1);
    }
  }

  lemma {:induction false} PlacedFrom(cb: CompactBlock, n: nat, k: nat) returns (i: nat)
    requires n <= |cb.prefilled| && forall j | 0 <= j < n :: PrefilledOk(cb, j)
    requires k < cb.BlockTxCount() && Placed(cb, n)[k].Some?
    ensures i < n && PosOf(cb.prefilled, i) == k
  {
    if PosOf(cb.prefilled, n - 1) == k {
      i := n - 1;
    } else {
      i := PlacedFrom(cb, n - 1, k);
    }
  }

  /** Every prefilled transaction is at its own position, and all other slots are free. */
  lemma PlacedAt(cb: CompactBlock, n: nat)
    requires n <= |cb.prefilled| && forall i | 0 <= i < n :: PrefilledOk(cb, i)
    ensures forall i | 0 <= i < n ::
              PosOf(cb.prefilled, i) < cb.BlockTxCount() && Placed(cb, n)[PosOf(cb.prefilled, i)] == Some(cb.prefilled[i].tx)
    ensures forall k | 0 <= k < cb.BlockTxCount() && Placed(cb, n)[k].Some? :: exists i :: 0 <= i < n && PosOf(cb.prefilled, i) == k
    ensures forall k | 0 <= k < cb.BlockTxCount() && (n == 0 || k > PosOf(cb.prefilled, n - 1)) :: Placed(cb, n)[k].None?
  {
    hide Placed, PosOf, PrefilledOk;
    forall i | 0 <= i < n
      ensures PosOf(cb.prefilled, i) < cb.BlockTxCount() && Placed(cb, n)[PosOf(cb.prefilled, i)] == Some(cb.prefilled[i].tx)
    {
      PrefilledPlaced(cb, n, i);
    }
    forall k | 0 <= k < cb.BlockTxCount() && Placed(cb, n)[k].Some? ensures exists i :: 0 <= i < n && PosOf(cb.prefilled, i) == k {
      var i := PlacedFrom(cb, n, k);
    }
    forall k | 0 <= k < cb.BlockTxCount() && (n == 0 || k > PosOf(cb.prefilled, n - 1)) ensures Placed(cb, n)[k].None? {
      FreeAbove(cb, n, k);
    }
  }

  // ---------------------------------------------------------------- free slots

  /** The free slots below n, in order. */
  function FreeBelow(slots: Slots, n: nat): (free: seq<nat>)
    requires n <= |slots|
    ensures |free| <= n && forall i | 0 <= i < |free| :: free[i] < n && slots[free[i]].None?
    ensures forall i, j | 0 <= i < j < |free| :: free[i] < free[j]
  {
    if n == 0 then [] else FreeBelow(slots, n - 1) + if slots[n - 1].None? then [n - 1] else []
  }

  lemma {:induction false} FreeComplete(slots: Slots, n: nat, k: nat)
    requires k < n <= |slots| && slots[k].None?
    ensures k in FreeBelow(slots, n)
  {
    if k < n - 1 {
      FreeComplete(slots, n - 1, k);
    }
  }

  lemma {:induction false} FreePrefix(slots: Slots, p: nat, n: nat)
    requires p <= n <= |slots|
    ensures FreeBelow(slots, p) <= FreeBelow(slots, n)
  {
    if p < n {
      FreePrefix(slots, p, n - 1);
    }
  }

  lemma {:induction false} FreeAfterFilling(slots: Slots, k: nat, v: Tx, n: nat)
    requires k < |slots| && slots[k].None? && n <= |slots|
    ensures |FreeBelow(slots[k := Some(v)], n)| == |FreeBelow(slots, n)| - if k < n then 1 else 0
  {
    if n > 0 {
      FreeAfterFilling(slots, k, v, n - 1);
    }
  }

  lemma {:induction false} AllFree(slots: Slots, n: nat)
    requires n <= |slots| && forall k | 0 <= k < n :: slots[k].None?
    ensures |FreeBelow(slots, n)| == n
  {
    if n > 0 {
      AllFree(slots, n - 1);
    }
  }

  /** As many slots stay free as there are short ids. */
  lemma {:induction false} FreeCount(cb: CompactBlock, n: nat)
    requires n <= |cb.prefilled| && forall i | 0 <= i < n :: PrefilledOk(cb, i)
    ensures |FreeBelow(Placed(cb, n), cb.BlockTxCount())| == cb.BlockTxCount() - n
  {
    if n == 0 {
      AllFree(Placed(cb, 0), cb.BlockTxCount());
    } else {
      FreeCount(cb, n - 1);
      PlacedAt(cb, n - 1);
      var p := PosOf(cb.prefilled, n - 1);
      assert PrefilledOk(cb, n - 1);
      if n > 1 {
        PosIncreases(cb.prefilled, n - 2, n - 1);
      }
      FreeAfterFilling(Placed(cb, n - 1), p, cb.prefilled[n - 1].tx, cb.BlockTxCount());
    }
  }

  /** The slot of the i-th short id: the i-th slot that is not prefilled. */
  ghost function FreeSlots(cb: CompactBlock): (free: seq<nat>)
    requires WellFormed(cb)
    ensures |free| == |cb.shortIds| && forall i | 0 <= i < |free| :: free[i] < cb.BlockTxCount()
    ensures forall i, j | 0 <= i < j < |free| :: free[i] < free[j]
  {
    FreeCount(cb, |cb.prefilled|);
    FreeBelow(Placed(cb, |cb.prefilled|), cb.BlockTxCount())
  }

  // ---------------------------------------------------------------- short ids

  predicate Distinct(ids: seq<nat>) {
    forall i, j | 0 <= i < j < |ids| :: ids[i] != ids[j]
  }

  /** Short ids to slots; a repeated id keeps its last slot. */
  function IdMap(ids: seq<nat>, free: seq<nat>): map<nat, nat>
    requires |ids| <= |free|
  {
    if ids == [] then map[] else IdMap(ids[..|ids| - 1], free)[ids[|ids| - 1] := free[|ids| - 1]]
  }

  lemma {:induction false} IdMapKeys(ids: seq<nat>, free: seq<nat>)
    requires |ids| <= |free|
    ensures forall x :: x in IdMap(ids, free) <==> x in ids
    ensures |IdMap(ids, free)| <= |ids| && (|IdMap(ids, free)| == |ids| <==> Distinct(ids))
  {
    if ids != [] {
      var n := |ids| - 1;
      IdMapKeys(ids[..n], free);
      assert ids == ids[..n] + [ids[n]];
      var before := IdMap(ids[..n], free);
      assert IdMap(ids, free).Keys == before.Keys + {ids[n]};
      assert Distinct(ids) <==> Distinct(ids[..n]) && ids[n] !in ids[..n];
    }
  }

  lemma {:induction false} IdMapGet(ids: seq<nat>, free: seq<nat>, i: nat)
    requires |ids| <= |free| && Distinct(ids) && i < |ids|
    ensures ids[i] in IdMap(ids, free) && IdMap(ids, free)[ids[i]] == free[i]
  {
    if i < |ids| - 1 {
      IdMapGet(ids[..|ids| - 1], free, i);
    }
  }

  // ---------------------------------------------------------------- candidates

  /** The slots, which of them ever had a candidate, and how many candidates are in place. */
  datatype Work = Work(slots: Slots, have: seq<bool>, count: int)

  ghost predicate Shaped(w: Work, ids: map<nat, nat>) {
    |w.have| == |w.slots| && forall id <- ids :: ids[id] < |w.slots|
  }

  /** A transaction of the memory pool: a second one with the same short id voids the slot. */
  function PoolStep(w: Work, ids: map<nat, nat>, id: nat, tx: Tx): Work
    requires Shaped(w, ids)
  {
    if id !in ids then w
    else if !w.have[ids[id]] then Work(w.slots[ids[id] := Some(tx)], w.have[ids[id] := true], w.count + 1)
    else if w.slots[ids[id]].Some? then w.(slots := w.slots[ids[id] := None], count := w.count - 1)
    else w
  }

  /** An extra transaction: it voids the slot only if it is a different transaction. */
  function ExtraStep(w: Work, ids: map<nat, nat>, id: nat, tx: Tx): Work
    requires Shaped(w, ids)
  {
    if id !in ids then w
    else if !w.have[ids[id]] then Work(w.slots[ids[id] := Some(tx)], w.have[ids[id] := true], w.count + 1)
    else if w.slots[ids[id]].Some? && w.slots[ids[id]].value.witnessHash != tx.witnessHash then
      w.(slots := w.slots[ids[id] := None], count := w.count - 1)
    else w
  }

  /** The short ids whose slots are filled. */
  ghost function Filled(slots: Slots, free: seq<nat>): set<nat>
    requires forall i | 0 <= i < |free| :: free[i] < |slots|
  {
    set i | 0 <= i < |free| && slots[free[i]].Some?
  }

  /** A filled slot holds a candidate with its short id; the count is exact; prefilled slots are untouched. */
  ghost predicate WorkOk(cb: CompactBlock, w: Work, sources: set<Tx>)
    requires WellFormed(cb)
  {
    var free, placed := FreeSlots(cb), Placed(cb, |cb.prefilled|);
    && |w.slots| == |w.have| == |placed| && w.count == |Filled(w.slots, free)|
    && (forall k | 0 <= k < |placed| && placed[k].Some? :: w.slots[k] == placed[k])
    && (forall i | 0 <= i < |free| && w.slots[free[i]].Some? ::
          w.have[free[i]] && w.slots[free[i]].value in sources && cb.shortId(w.slots[free[i]].value.witnessHash) == cb.shortIds[i])
  }

  /** The slot of one short id gets a new value. */
  lemma SetSlot(cb: CompactBlock, w: Work, sources: set<Tx>, i: nat, v: Option<Tx>, have: seq<bool>)
    requires WellFormed(cb) && WorkOk(cb, w, sources) && i < |cb.shortIds|
    requires have == w.have[FreeSlots(cb)[i] := true]
    requires v.Some? ==> v.value in sources && cb.shortId(v.value.witnessHash) == cb.shortIds[i]
    ensures var k := FreeSlots(cb)[i];
            var n := w.count + (if v.Some? then 1 else 0) - (if w.slots[k].Some? then 1 else 0);
            WorkOk(cb, Work(w.slots[k := v], have, n), sources)
  {
    hide Placed, Filled, FreeSlots;
    var free := FreeSlots(cb);
    Ascending(free, i);
    FilledAfter(w.slots, free, i, v);
    FreeIsUnplaced(cb, i);
  }

  lemma Ascending(free: seq<nat>, i: nat)
    requires i < |free| && forall j, k | 0 <= j < k < |free| :: free[j] < free[k]
    ensures forall j | 0 <= j < |free| && j != i :: free[j] != free[i]
  {
    forall j | 0 <= j < |free| && j != i ensures free[j] != free[i] {
      assert if j < i then free[j] < free[i] else free[i] < free[j];
    }
  }

  lemma FilledAfter(slots: Slots, free: seq<nat>, i: nat, v: Option<Tx>)
    requires i < |free| && (forall j | 0 <= j < |free| :: free[j] < |slots|)
    requires forall j | 0 <= j < |free| && j != i :: free[j] != free[i]
    ensures |Filled(slots[free[i] := v], free)|
            == |Filled(slots, free)| + (if v.Some? then 1 else 0) - (if slots[free[i]].Some? then 1 else 0)
  {
    hide Filled;
    var before, after := Filled(slots, free), Filled(slots[free[i] := v], free);
    forall j ensures j in after - {i} <==> j in before - {i} {
      FilledAt(slots, free, j);
      FilledAt(slots[free[i] := v], free, j);
    }
    FilledAt(slots, free, i);
    FilledAt(slots[free[i] := v], free, i);
    OneElement(before, after, i);
  }

  lemma OneElement(before: set<nat>, after: set<nat>, i: nat)
    requires after - {i} == before - {i}
    ensures |after| == |before| + (if i in after then 1 else 0) - (if i in before then 1 else 0)
  {
    WithoutOne(before, i);
    WithoutOne(after, i);
  }

  lemma WithoutOne(s: set<nat>, i: nat)
    ensures |s| == |s - {i}| + if i in s then 1 else 0
  {
    if i !in s {
      assert s - {i} == s;
    }
  }

  lemma FilledAt(slots: Slots, free: seq<nat>, j: int)
    requires forall k | 0 <= k < |free| :: free[k] < |slots|
    ensures j in Filled(slots, free) <==> 0 <= j < |free| && slots[free[j]].Some?
  {
  }

  lemma FreeIsUnplaced(cb: CompactBlock, i: nat)
    requires WellFormed(cb) && i < |cb.shortIds|
    ensures Placed(cb, |cb.prefilled|)[FreeSlots(cb)[i]].None?
  {
  }

  ghost predicate IdsOk(cb: CompactBlock, ids: map<nat, nat>)
    requires WellFormed(cb)
  {
    && (forall id :: id in ids <==> id in cb.shortIds)
    && (forall i | 0 <= i < |cb.shortIds| :: ids[cb.shortIds[i]] == FreeSlots(cb)[i])
  }

  lemma PoolStepOk(cb: CompactBlock, w: Work, ids: map<nat, nat>, tx: Tx, sources: set<Tx>)
    requires WellFormed(cb) && IdsOk(cb, ids) && WorkOk(cb, w, sources) && tx in sources
    ensures Shaped(w, ids) && WorkOk(cb, PoolStep(w, ids, cb.shortId(tx.witnessHash), tx), sources)
    ensures WorkOk(cb, ExtraStep(w, ids, cb.shortId(tx.witnessHash), tx), sources)
  {
    hide WorkOk, Filled, FreeSlots, Placed;
    WorkShape(cb, w, ids, sources);
    var id := cb.shortId(tx.witnessHash);
    if id in ids {
      var i :| 0 <= i < |cb.shortIds| && cb.shortIds[i] == id;
      var k := FreeSlots(cb)[i];
      if !w.have[k] {
        EmptyWithoutHave(cb, w, sources, i);
        SetSlot(cb, w, sources, i, Some(tx), w.have[k := true]);
      } else if w.slots[k].Some? {
        assert w.have[k := true] == w.have;
        SetSlot(cb, w, sources, i, None, w.have);
      }
    }
  }

  lemma WorkShape(cb: CompactBlock, w: Work, ids: map<nat, nat>, sources: set<Tx>)
    requires WellFormed(cb) && IdsOk(cb, ids) && WorkOk(cb, w, sources)
    ensures Shaped(w, ids) && |w.slots| == cb.BlockTxCount()
  {
    forall id <- ids ensures ids[id] < |w.slots| {
      var i :| 0 <= i < |cb.shortIds| && cb.shortIds[i] == id;
    }
  }

  lemma EmptyWithoutHave(cb: CompactBlock, w: Work, sources: set<Tx>, i: nat)
    requires WellFormed(cb) && WorkOk(cb, w, sources) && i < |cb.shortIds| && !w.have[FreeSlots(cb)[i]]
    ensures w.slots[FreeSlots(cb)[i]].None?
  {
  }

  // ---------------------------------------------------------------- the block behind a compact block

  /** The compact block was made from these transactions. */
  ghost predicate Encodes(cb: CompactBlock, vtx: seq<Tx>) {
    && WellFormed(cb) && |vtx| == cb.BlockTxCount()
    && (forall i | 0 <= i < |cb.prefilled| :: PrefilledOk(cb, i) && vtx[PosOf(cb.prefilled, i)] == cb.prefilled[i].tx)
    && (forall i | 0 <= i < |cb.shortIds| :: cb.shortIds[i] == cb.shortId(vtx[FreeSlots(cb)[i]].witnessHash))
  }

  /** No candidate has the short id of a different transaction of the block. */
  ghost predicate NoCollisions(cb: CompactBlock, vtx: seq<Tx>, sources: set<Tx>) {
    Encodes(cb, vtx) ==>
      forall tx <- sources, i | 0 <= i < |cb.shortIds| ::
        cb.shortId(tx.witnessHash) == cb.shortIds[i] ==> tx == vtx[FreeSlots(cb)[i]]
  }

  /** The compact block was made from these transactions, and no candidate collides with them. */
  ghost predicate Genuine(cb: CompactBlock, vtx: seq<Tx>, sources: set<Tx>) {
    Encodes(cb, vtx) && NoCollisions(cb, vtx, sources)
  }

  /** A slot has its transaction exactly when that was among the candidates seen. */
  ghost predicate Faithful(cb: CompactBlock, vtx: seq<Tx>, w: Work, seen: set<Tx>) {
    && Encodes(cb, vtx) && |w.slots| == |w.have| == |vtx|
    && forall i | 0 <= i < |cb.shortIds| ::
         var k := FreeSlots(cb)[i];
         (w.have[k] <==> vtx[k] in seen) && (w.have[k] ==> w.slots[k] == Some(vtx[k]))
  }

  lemma FaithfulStep(cb: CompactBlock, vtx: seq<Tx>, w: Work, ids: map<nat, nat>, tx: Tx, sources: set<Tx>, seen: set<Tx>)
    requires Genuine(cb, vtx, sources) && IdsOk(cb, ids) && tx in sources && Shaped(w, ids) && Faithful(cb, vtx, w, seen)
    ensures tx !in seen ==> Faithful(cb, vtx, PoolStep(w, ids, cb.shortId(tx.witnessHash), tx), seen + {tx})
    ensures Faithful(cb, vtx, ExtraStep(w, ids, cb.shortId(tx.witnessHash), tx), seen + {tx})
  {
    hide FreeSlots, WellFormed, PrefilledOk, PosOf, Genuine, IdsOk;
    assert Encodes(cb, vtx);
    WhereItBelongs(cb, vtx, ids, tx, sources);
    var id := cb.shortId(tx.witnessHash);
    if id in ids {
      var i :| 0 <= i < |cb.shortIds| && OnlyPlace(cb, vtx, ids, tx, i);
      Ascending(FreeSlots(cb), i);
    }
  }

  /** The transaction belongs at the i-th free place, and nowhere else. */
  ghost predicate OnlyPlace(cb: CompactBlock, vtx: seq<Tx>, ids: map<nat, nat>, tx: Tx, i: nat)
    requires Encodes(cb, vtx) && i < |cb.shortIds|
  {
    var id := cb.shortId(tx.witnessHash);
    && id in ids && ids[id] == FreeSlots(cb)[i] && vtx[FreeSlots(cb)[i]] == tx
    && forall j | 0 <= j < |cb.shortIds| && j != i :: vtx[FreeSlots(cb)[j]] != tx
  }

  lemma WhereItBelongs(cb: CompactBlock, vtx: seq<Tx>, ids: map<nat, nat>, tx: Tx, sources: set<Tx>)
    requires Genuine(cb, vtx, sources) && IdsOk(cb, ids) && tx in sources
    ensures if cb.shortId(tx.witnessHash) in ids then exists i :: 0 <= i < |cb.shortIds| && OnlyPlace(cb, vtx, ids, tx, i)
            else forall i | 0 <= i < |cb.shortIds| :: vtx[FreeSlots(cb)[i]] != tx
  {
    hide FreeSlots, WellFormed, PrefilledOk, PosOf;
    var id := cb.shortId(tx.witnessHash);
    if id in ids {
      var i :| 0 <= i < |cb.shortIds| && cb.shortIds[i] == id;
      Ascending(FreeSlots(cb), i);
      assert tx == vtx[FreeSlots(cb)[i]];
      forall j | 0 <= j < |cb.shortIds| && j != i ensures vtx[FreeSlots(cb)[j]] != tx {
        assert ids[cb.shortIds[j]] == FreeSlots(cb)[j];
      }
      assert OnlyPlace(cb, vtx, ids, tx, i);
    } else {
      forall i | 0 <= i < |cb.shortIds| ensures vtx[FreeSlots(cb)[i]] != tx {
        assert cb.shortIds[i] in cb.shortIds;
      }
    }
  }

  // ---------------------------------------------------------------- reconstruction

  class PartiallyDownloadedBlock {
    var txnAvailable: Slots
    var headerIsNull: bool
    var prefilledCount: nat
    var mempoolCount: int

    constructor ()
      ensures headerIsNull && txnAvailable == [] && mempoolCount == 0
    {
      txnAvailable := [];
      headerIsNull := true;
      prefilledCount, mempoolCount := 0, 0;
    }

    method PlacePrefilled(cb: CompactBlock) returns (status: ReadStatus)
      requires txnAvailable == seq(cb.BlockTxCount(), _ => None)
      modifies this`txnAvailable
      ensures status == if forall i | 0 <= i < |cb.prefilled| :: PrefilledOk(cb, i) then Ok else Invalid
      ensures status == Ok ==> txnAvailable == Placed(cb, |cb.prefilled|)
    {
      var last := -1;
      for i := 0 to |cb.prefilled|
        invariant forall j | 0 <= j < i :: PrefilledOk(cb, j)
        invariant last == if i == 0 then -1 else PosOf(cb.prefilled, i - 1)
        invariant txnAvailable == Placed(cb, i)
      {
        last := last + cb.prefilled[i].index + 1;
        assert last == PosOf(cb.prefilled, i);
        if cb.prefilled[i].tx.isNull || last > MAX_U16 || last > |cb.shortIds| + i {
          assert !PrefilledOk(cb, i);
          return Invalid;
        }
        txnAvailable := txnAvailable[last := Some(cb.prefilled[i].tx)];
      }
      status := Ok;
    }

    /** The next slot that is not prefilled; it is always inside the vector. */
    method NextFree(i: nat, start: nat) returns (indexOffset: nat)
      requires i + start <= |txnAvailable| && |FreeBelow(txnAvailable, i + start)| == i < |FreeBelow(txnAvailable, |txnAvailable|)|
      ensures i + indexOffset < |txnAvailable| && txnAvailable[i + indexOffset].None?
      ensures |FreeBelow(txnAvailable, i + indexOffset)| == i
    {
      indexOffset := start;
      while txnAvailable[i + indexOffset].Some?
        invariant i + indexOffset < |txnAvailable| && |FreeBelow(txnAvailable, i + indexOffset)| == i
        decreases |txnAvailable| - indexOffset
      {
        indexOffset := indexOffset + 1;
      }
    }

    /** Gives every short id its slot; too full a bucket or a repeated id fails. */
    method MapShortIds(cb: CompactBlock, crowded: nat -> bool) returns (status: ReadStatus, ids: map<nat, nat>)
      requires WellFormed(cb) && txnAvailable == Placed(cb, |cb.prefilled|)
      ensures status == if Distinct(cb.shortIds) && forall i | 0 <= i < |cb.shortIds| :: !crowded(i) then Ok else Failed
      ensures status == Ok ==> IdsOk(cb, ids) && |ids| == |cb.shortIds|
    {
      hide Placed, FreeBelow, IdMap, Distinct, IdsOk, WellFormed;
      ghost var free := FreeSlots(cb);
      var indexOffset := 0;
      var full := false;
      ids := map[];
      assert cb.shortIds[..0] == [];
      MapStart(cb);
      var i := 0;
      while i < |cb.shortIds| && !full
        invariant 0 <= i <= |cb.shortIds| && i + indexOffset <= |txnAvailable|
        invariant |FreeBelow(txnAvailable, i + indexOffset)| == i
        invariant ids == IdMap(cb.shortIds[..i], free)
        invariant if full then i > 0 && crowded(i - 1) else forall j | 0 <= j < i :: !crowded(j)
      {
        indexOffset := NextFree(i, indexOffset);
        FreeNext(txnAvailable, i, i + indexOffset);
        IdMapNext(cb.shortIds, free, i);
        ids := ids[cb.shortIds[i] := i + indexOffset];
        full := crowded(i);
        i := i + 1;
      }
      if full {
        status := Failed;
      } else {
        assert cb.shortIds[..|cb.shortIds|] == cb.shortIds;
        IdMapKeys(cb.shortIds, free);
        status := if |ids| != |cb.shortIds| then Failed else Ok;
        if status == Ok {
          AllMapped(cb, ids);
        }
      }
    }

    /** The slots with what is known of the candidates so far. */
    ghost function Progress(have: seq<bool>): Work
      reads this
    {
      Work(txnAvailable, have, mempoolCount)
    }

    method TryPool(cb: CompactBlock, ids: map<nat, nat>, tx: Tx, have: seq<bool>, ghost sources: set<Tx>) returns (next: seq<bool>)
      requires WellFormed(cb) && IdsOk(cb, ids) && WorkOk(cb, Progress(have), sources) && tx in sources && Shaped(Progress(have), ids)
      modifies this`txnAvailable, this`mempoolCount
      ensures Progress(next) == PoolStep(old(Progress(have)), ids, cb.shortId(tx.witnessHash), tx)
    {
      hide WorkOk, IdsOk, WellFormed;
      next := have;
      var shortId := cb.shortId(tx.witnessHash);
      if shortId in ids {
        var k := ids[shortId];
        if !have[k] {
          txnAvailable := txnAvailable[k := Some(tx)];
          next := have[k := true];
          mempoolCount := mempoolCount + 1;
        } else if txnAvailable[k].Some? {
          txnAvailable := txnAvailable[k := None];
          mempoolCount := mempoolCount - 1;
        }
      }
    }

    method TryExtra(cb: CompactBlock, ids: map<nat, nat>, tx: Tx, have: seq<bool>, ghost sources: set<Tx>) returns (next: seq<bool>)
      requires WellFormed(cb) && IdsOk(cb, ids) && WorkOk(cb, Progress(have), sources) && tx in sources && Shaped(Progress(have), ids)
      modifies this`txnAvailable, this`mempoolCount
      ensures Progress(next) == ExtraStep(old(Progress(have)), ids, cb.shortId(tx.witnessHash), tx)
    {
      hide WorkOk, IdsOk, WellFormed;
      next := have;
      var shortId := cb.shortId(tx.witnessHash);
      if shortId in ids {
        var k := ids[shortId];
        if !have[k] {
          txnAvailable := txnAvailable[k := Some(tx)];
          next := have[k := true];
          mempoolCount := mempoolCount + 1;
        } else if txnAvailable[k].Some? && txnAvailable[k].value.witnessHash != tx.witnessHash {
          txnAvailable := txnAvailable[k := None];
          mempoolCount := mempoolCount - 1;
        }
      }
    }

    /** Goes through the memory pool until every short id has a transaction. */
    method UsePool(cb: CompactBlock, ids: map<nat, nat>, pool: seq<Tx>, start: seq<bool>, ghost sources: set<Tx>, ghost vtx: seq<Tx>)
      returns (have: seq<bool>, ghost used: nat)
      requires WellFormed(cb) && IdsOk(cb, ids) && WorkOk(cb, Progress(start), sources) && forall tx <- pool :: tx in sources
      requires Genuine(cb, vtx, sources) ==> Faithful(cb, vtx, Progress(start), {})
      modifies this`txnAvailable, this`mempoolCount
      ensures WorkOk(cb, Progress(have), sources) && used <= |pool| && (used == |pool| || mempoolCount == |ids|)
      ensures Genuine(cb, vtx, sources) && DistinctTxs(pool) ==> Faithful(cb, vtx, Progress(have), SetOf(pool[..used]))
    {
      hide WorkOk, IdsOk, WellFormed, Genuine, Faithful, PoolStep;
      have := start;
      used := 0;
      var i := 0;
      var done := false;
      assert SetOf(pool[..0]) == {};
      while i < |pool| && !done
        invariant 0 <= i <= |pool| && WorkOk(cb, Progress(have), sources) && (done ==> mempoolCount == |ids|)
        invariant Genuine(cb, vtx, sources) && DistinctTxs(pool) ==> Faithful(cb, vtx, Progress(have), SetOf(pool[..i]))
      {
        var tx := pool[i];
        assert tx in pool;
        ghost var w := Progress(have);
        PoolStepOk(cb, w, ids, tx, sources);
        if Genuine(cb, vtx, sources) && DistinctTxs(pool) {
          FaithfulStep(cb, vtx, w, ids, tx, sources, SetOf(pool[..i]));
          SetOfNext(pool, i);
        }
        have := TryPool(cb, ids, tx, have, sources);
        i := i + 1;
        done := mempoolCount == |ids|;
      }
      used := i;
    }

    /** Goes through the extra transactions until every short id has a transaction. */
    method UseExtra(cb: CompactBlock, ids: map<nat, nat>, extra: seq<Tx>, start: seq<bool>, ghost sources: set<Tx>,
                    ghost vtx: seq<Tx>, ghost seen: set<Tx>)
      returns (have: seq<bool>, ghost used: nat)
      requires WellFormed(cb) && IdsOk(cb, ids) && WorkOk(cb, Progress(start), sources) && forall tx <- extra :: tx in sources
      modifies this`txnAvailable, this`mempoolCount
      ensures WorkOk(cb, Progress(have), sources) && used <= |extra| && (used == |extra| || mempoolCount == |ids|)
      ensures Genuine(cb, vtx, sources) && old(Faithful(cb, vtx, Progress(start), seen)) ==>
                Faithful(cb, vtx, Progress(have), seen + SetOf(extra[..used]))
    {
      hide WorkOk, IdsOk, WellFormed, Genuine, Faithful, ExtraStep;
      ghost var genuine := Genuine(cb, vtx, sources) && Faithful(cb, vtx, Progress(start), seen);
      have := start;
      var i := 0;
      var done := false;
      assert seen + SetOf(extra[..0]) == seen;
      while i < |extra| && !done
        invariant 0 <= i <= |extra| && WorkOk(cb, Progress(have), sources) && (done ==> mempoolCount == |ids|)
        invariant genuine ==> Faithful(cb, vtx, Progress(have), seen + SetOf(extra[..i]))
      {
        var tx := extra[i];
        assert tx in extra;
        ghost var w := Progress(have);
        PoolStepOk(cb, w, ids, tx, sources);
        if genuine {
          FaithfulStep(cb, vtx, w, ids, tx, sources, seen + SetOf(extra[..i]));
          SetOfNext(extra, i);
          assert seen + SetOf(extra[..i]) + {tx} == seen + SetOf(extra[..i + 1]);
        }
        have := TryExtra(cb, ids, tx, have, sources);
        i := i + 1;
        done := mempoolCount == |ids|;
      }
      used := i;
    }

    method UseCandidates(cb: CompactBlock, ids: map<nat, nat>, pool: seq<Tx>, extra: seq<Tx>, ghost vtx: seq<Tx>)
      requires WellFormed(cb) && IdsOk(cb, ids) && txnAvailable == Placed(cb, |cb.prefilled|) && mempoolCount == 0
      requires Distinct(cb.shortIds) && |ids| == |cb.shortIds|
      modifies this`txnAvailable, this`mempoolCount
      ensures Reconstructed(cb, txnAvailable, SetOf(pool) + SetOf(extra))
      ensures mempoolCount == |Filled(txnAvailable, FreeSlots(cb))|
      ensures Genuine(cb, vtx, SetOf(pool) + SetOf(extra)) && DistinctTxs(pool) ==>
                Recovered(cb, txnAvailable, vtx, SetOf(pool) + SetOf(extra))
    {
      hide WorkOk, IdsOk, WellFormed, Genuine, Faithful, Placed, FreeSlots, Recovered, Reconstructed, Filled;
      ghost var sources := SetOf(pool) + SetOf(extra);
      var have := seq(|txnAvailable|, _ => false);
      WorkStarts(cb, Progress(have), sources, vtx);
      ghost var usedPool, usedExtra;
      have, usedPool := UsePool(cb, ids, pool, have, sources, vtx);
      ghost var w := Progress(have);
      have, usedExtra := UseExtra(cb, ids, extra, have, sources, vtx, SetOf(pool[..usedPool]));
      WorkDone(cb, Progress(have), sources);
      if Genuine(cb, vtx, sources) && DistinctTxs(pool) {
        Recovers(cb, vtx, w, Progress(have), pool, extra, usedPool, usedExtra);
      }
    }

    /** Reads a compact block; the transactions that cannot be found stay free slots. */
    method InitData(cb: CompactBlock, pool: seq<Tx>, extra: seq<Tx>, crowded: nat -> bool, ghost vtx: seq<Tx>)
      returns (status: ReadStatus)
      requires headerIsNull && txnAvailable == [] && mempoolCount == 0 && cb.BlockTxCount() <= MAX_U16
      modifies this
      ensures status == Invalid <==> !WellFormed(cb)
      ensures status == Failed <==>
                WellFormed(cb) && !(Distinct(cb.shortIds) && forall i | 0 <= i < |cb.shortIds| :: !crowded(i))
      ensures status == Invalid || status == Failed || status == Ok
      ensures status == Ok ==>
                && !headerIsNull && prefilledCount == |cb.prefilled|
                && Reconstructed(cb, txnAvailable, SetOf(pool) + SetOf(extra))
                && mempoolCount == |Filled(txnAvailable, FreeSlots(cb))|
                && (Genuine(cb, vtx, SetOf(pool) + SetOf(extra)) && DistinctTxs(pool) ==>
                      Recovered(cb, txnAvailable, vtx, SetOf(pool) + SetOf(extra)))
    {
      hide Placed, FreeSlots, Reconstructed, Recovered, Genuine, Filled, PrefilledOk, IdsOk;
      if cb.headerIsNull || (|cb.shortIds| == 0 && |cb.prefilled| == 0) {
        return Invalid;
      }
      if |cb.shortIds| + |cb.prefilled| > MAX_BLOCK_WEIGHT / MIN_SERIALIZABLE_TRANSACTION_WEIGHT {
        return Invalid;
      }
      headerIsNull := false;
      txnAvailable := seq(cb.BlockTxCount(), _ => None);
      status := PlacePrefilled(cb);
      if status == Ok {
        prefilledCount := |cb.prefilled|;
        var ids;
        status, ids := MapShortIds(cb, crowded);
        if status == Ok {
          UseCandidates(cb, ids, pool, extra, vtx);
        }
      }
    }

    /** Puts the requested transactions into the free slots, in order. */
    method FillBlock(missing: seq<Tx>, check: seq<Tx> -> ReadStatus) returns (status: ReadStatus, vtx: seq<Tx>)
      requires !headerIsNull
      modifies this
      ensures status == Invalid <==> |missing| != |FreeBelow(old(txnAvailable), |old(txnAvailable)|)| || check(vtx) == Invalid
      ensures |missing| == |FreeBelow(old(txnAvailable), |old(txnAvailable)|)| ==>
                vtx == Merge(old(txnAvailable), missing, |old(txnAvailable)|) && status == check(vtx)
      ensures headerIsNull <==> |missing| >= |FreeBelow(old(txnAvailable), |old(txnAvailable)|)|
      ensures headerIsNull ==> txnAvailable == []
    {
      ghost var slots := txnAvailable;
      vtx := [];
      var offset := 0;
      var i := 0;
      status := Ok;
      assert |FreeBelow(slots, 0)| == 0 && Merge(slots, missing, 0) == [];
      hide FreeBelow, Merge;
      while i < |txnAvailable| && status == Ok
        invariant 0 <= i <= |txnAvailable| == |slots| && (status == Ok || status == Invalid) && !headerIsNull
        invariant forall k | i <= k < |slots| :: txnAvailable[k] == slots[k]
        invariant offset == |FreeBelow(slots, i)| && offset <= |missing|
        invariant status == Ok ==> vtx == Merge(slots, missing, i)
        invariant status == Invalid ==> |missing| < |FreeBelow(slots, |slots|)|
        decreases |slots| - i, status == Ok
      {
        FreeCounts(slots, i);
        MergeNext(slots, missing, i);
        if txnAvailable[i].None? {
          if |missing| <= offset {
            FreePrefix(slots, i + 1, |slots|);
            status := Invalid;
          } else {
            vtx := vtx + [missing[offset]];
            offset := offset + 1;
            i := i + 1;
          }
        } else {
          vtx := vtx + [txnAvailable[i].value];
          txnAvailable := txnAvailable[i := None];
          i := i + 1;
        }
      }
      if status == Ok {
        headerIsNull := true;
        txnAvailable := [];
        status := if |missing| != offset then Invalid else check(vtx);
      }
    }
  }

  /** Available transactions and missing ones, woven together. */
  function Merge(slots: Slots, missing: seq<Tx>, n: nat): (vtx: seq<Tx>)
    requires n <= |slots| && |FreeBelow(slots, n)| <= |missing|
    ensures |vtx| == n
  {
    if n == 0 then []
    else
      FreePrefix(slots, n - 1, n);
      Merge(slots, missing, n - 1) + [if slots[n - 1].None? then missing[|FreeBelow(slots, n - 1)|] else slots[n - 1].value]
  }

  lemma FreeCounts(slots: Slots, i: nat)
    requires i < |slots|
    ensures |FreeBelow(slots, i + 1)| == |FreeBelow(slots, i)| + if slots[i].None? then 1 else 0
  {
  }

  lemma MergeNext(slots: Slots, missing: seq<Tx>, i: nat)
    requires i < |slots|
    ensures |FreeBelow(slots, i + 1)| <= |missing| ==>
              && |FreeBelow(slots, i)| <= |missing| && (slots[i].None? ==> |FreeBelow(slots, i)| < |missing|)
              && Merge(slots, missing, i + 1)
                 == Merge(slots, missing, i) + [if slots[i].None? then missing[|FreeBelow(slots, i)|] else slots[i].value]
  {
    FreeCounts(slots, i);
  }

  /** The transactions of a block that belong into the free slots. */
  function MissingOf(slots: Slots, vtx: seq<Tx>): (missing: seq<Tx>)
    requires |slots| == |vtx|
  {
    var free := FreeBelow(slots, |slots|);
    seq(|free|, i requires 0 <= i < |free| => vtx[free[i]])
  }

  /** With the right available and the right missing transactions the block is rebuilt. */
  lemma {:induction false} MergeRebuilds(slots: Slots, vtx: seq<Tx>, n: nat)
    requires |slots| == |vtx| && n <= |slots|
    requires forall k | 0 <= k < |vtx| && slots[k].Some? :: slots[k].value == vtx[k]
    ensures |FreeBelow(slots, n)| <= |MissingOf(slots, vtx)| && Merge(slots, MissingOf(slots, vtx), n) == vtx[..n]
  {
    FreePrefix(slots, n, |slots|);
    if n > 0 {
      MergeRebuilds(slots, vtx, n - 1);
      assert vtx[..n] == vtx[..n - 1] + [vtx[n - 1]];
    }
  }

  // ---------------------------------------------------------------- from sender to receiver

  /** The compact form of a block: the first transaction is prefilled. */
  function Compact(vtx: seq<Tx>, shortId: Hash -> nat): CompactBlock
    requires |vtx| > 0
  {
    CompactBlock(false, seq<nat>(|vtx| - 1, i requires 0 <= i < |vtx| - 1 => shortId(vtx[i + 1].witnessHash)),
                 [Prefilled(0, vtx[0])], shortId)
  }

  method MakeCompact(vtx: seq<Tx>, shortId: Hash -> nat) returns (cb: CompactBlock)
    requires |vtx| > 0
    ensures cb == Compact(vtx, shortId)
  {
    var shortIds: seq<nat> := seq(|vtx| - 1, _ => 0);
    var i := 1;
    while i < |vtx|
      invariant 1 <= i <= |vtx| && |shortIds| == |vtx| - 1
      invariant forall k | 0 <= k < i - 1 :: shortIds[k] == shortId(vtx[k + 1].witnessHash)
    {
      shortIds := shortIds[i - 1 := shortId(vtx[i].witnessHash)];
      i := i + 1;
    }
    cb := CompactBlock(false, shortIds, [Prefilled(0, vtx[0])], shortId);
  }

  function OneTo(n: nat): seq<nat> {
    if n == 0 then [] else OneTo(n - 1) + [n]
  }

  lemma {:induction false} OneToAt(n: nat, i: nat)
    requires i < n
    ensures |OneTo(n)| == n && OneTo(n)[i] == i + 1
  {
    if n > 1 {
      OneToAt(n - 1, if i < n - 1 then i else 0);
    }
  }

  lemma CompactFree(vtx: seq<Tx>, shortId: Hash -> nat, n: nat)
    requires 0 < |vtx| <= MAX_U16 && !vtx[0].isNull && n < |vtx|
    ensures var cb := Compact(vtx, shortId);
            WellFormed(cb) && FreeBelow(Placed(cb, 1), n + 1) == OneTo(n)
  {
    var cb := Compact(vtx, shortId);
    assert PrefilledOk(cb, 0);
    assert Placed(cb, 1) == Placed(cb, 0)[0 := Some(vtx[0])];
    if n > 0 {
      CompactFree(vtx, shortId, n - 1);
    }
  }

  lemma CompactEncodes(vtx: seq<Tx>, shortId: Hash -> nat)
    requires 0 < |vtx| <= MAX_U16 && !vtx[0].isNull
    ensures Encodes(Compact(vtx, shortId), vtx)
  {
    hide FreeSlots, WellFormed;
    CompactSlots(vtx, shortId);
    var cb := Compact(vtx, shortId);
    assert PrefilledOk(cb, 0) && PosOf(cb.prefilled, 0) == 0;
  }

  lemma CompactSlots(vtx: seq<Tx>, shortId: Hash -> nat)
    requires 0 < |vtx| <= MAX_U16 && !vtx[0].isNull
    ensures var cb := Compact(vtx, shortId);
            WellFormed(cb) && forall i | 0 <= i < |cb.shortIds| :: FreeSlots(cb)[i] == i + 1
  {
    hide FreeBelow, Placed, OneTo, WellFormed;
    CompactFree(vtx, shortId, |vtx| - 1);
    var cb := Compact(vtx, shortId);
    forall i | 0 <= i < |cb.shortIds| ensures FreeSlots(cb)[i] == i + 1 {
      OneToAt(|vtx| - 1, i);
    }
  }

  ghost predicate Uncrowded(cb: CompactBlock, crowded: nat -> bool) {
    forall i | 0 <= i < |cb.shortIds| :: !crowded(i)
  }

  /** Any accepted compact block of a block, whatever it has prefilled, becomes that block again with the
      transactions the receiver lacks. */
  method Rebuild(cb: CompactBlock, vtx: seq<Tx>, pool: seq<Tx>, extra: seq<Tx>, crowded: nat -> bool, check: seq<Tx> -> ReadStatus)
    returns (init: ReadStatus, status: ReadStatus, block: seq<Tx>)
    requires cb.BlockTxCount() <= MAX_U16 && Genuine(cb, vtx, SetOf(pool) + SetOf(extra)) && DistinctTxs(pool)
    ensures init == if Distinct(cb.shortIds) && Uncrowded(cb, crowded) then Ok else Failed
    ensures init == Ok ==> status == check(vtx) && block == vtx
  {
    hide Placed, FreeSlots, Reconstructed, Merge, FreeBelow, SetOf, NoCollisions;
    var receiver := new PartiallyDownloadedBlock();
    init := receiver.InitData(cb, pool, extra, crowded, vtx);
    status, block := init, [];
    if init == Ok {
      var missing := MissingOf(receiver.txnAvailable, vtx);
      MergeRebuilds(receiver.txnAvailable, vtx, |vtx|);
      assert vtx[..|vtx|] == vtx;
      status, block := receiver.FillBlock(missing, check);
    }
  }

  /** A block goes over as the compact block its sender makes and the transactions the receiver lacks. */
  method Relay(vtx: seq<Tx>, shortId: Hash -> nat, pool: seq<Tx>, extra: seq<Tx>, crowded: nat -> bool, check: seq<Tx> -> ReadStatus)
    returns (init: ReadStatus, status: ReadStatus, block: seq<Tx>)
    requires 0 < |vtx| <= MAX_U16 && !vtx[0].isNull
    requires NoCollisions(Compact(vtx, shortId), vtx, SetOf(pool) + SetOf(extra)) && DistinctTxs(pool)
    ensures init == if Distinct(Compact(vtx, shortId).shortIds) && Uncrowded(Compact(vtx, shortId), crowded) then Ok else Failed
    ensures init == Ok ==> status == check(vtx) && block == vtx
  {
    hide Encodes, NoCollisions, SetOf, Distinct;
    CompactEncodes(vtx, shortId);
    var cb := MakeCompact(vtx, shortId);
    init, status, block := Rebuild(cb, vtx, pool, extra, crowded, check);
  }

  /** Prefilled slots hold their transactions; other filled slots hold candidates with the right short ids. */
  ghost predicate Reconstructed(cb: CompactBlock, slots: Slots, sources: set<Tx>)
    requires WellFormed(cb)
  {
    && |slots| == cb.BlockTxCount()
    && (forall i | 0 <= i < |cb.prefilled| :: PrefilledOk(cb, i) && slots[PosOf(cb.prefilled, i)] == Some(cb.prefilled[i].tx))
    && (forall i | 0 <= i < |cb.shortIds| && slots[FreeSlots(cb)[i]].Some? ::
          slots[FreeSlots(cb)[i]].value in sources
          && cb.shortId(slots[FreeSlots(cb)[i]].value.witnessHash) == cb.shortIds[i])
  }

  /** Every slot is free or right, and it is right if its transaction was among the candidates. */
  ghost predicate Recovered(cb: CompactBlock, slots: Slots, vtx: seq<Tx>, sources: set<Tx>) {
    && Encodes(cb, vtx) && |slots| == |vtx|
    && (forall k | 0 <= k < |vtx| && slots[k].Some? :: slots[k].value == vtx[k])
    && (forall k | 0 <= k < |vtx| && vtx[k] in sources :: slots[k].Some?)
  }

  lemma WorkStarts(cb: CompactBlock, w: Work, sources: set<Tx>, vtx: seq<Tx>)
    requires WellFormed(cb) && w == Work(Placed(cb, |cb.prefilled|), seq(cb.BlockTxCount(), _ => false), 0)
    ensures WorkOk(cb, w, sources) && (Genuine(cb, vtx, sources) ==> Faithful(cb, vtx, w, {}))
  {
    forall i | 0 <= i < |cb.shortIds| ensures w.slots[FreeSlots(cb)[i]].None? {
      FreeIsUnplaced(cb, i);
    }
    assert Filled(w.slots, FreeSlots(cb)) == {};
  }

  lemma WorkDone(cb: CompactBlock, w: Work, sources: set<Tx>)
    requires WellFormed(cb) && WorkOk(cb, w, sources)
    ensures Reconstructed(cb, w.slots, sources) && w.count == |Filled(w.slots, FreeSlots(cb))|
  {
    hide FreeSlots, Filled;
    PlacedAt(cb, |cb.prefilled|);
    forall i | 0 <= i < |cb.prefilled|
      ensures PrefilledOk(cb, i) && w.slots[PosOf(cb.prefilled, i)] == Some(cb.prefilled[i].tx)
    {
      assert PrefilledOk(cb, i);
    }
  }

  /** All short ids have a transaction when their number is reached. */
  lemma AllFilled(cb: CompactBlock, w: Work, sources: set<Tx>)
    requires WellFormed(cb) && WorkOk(cb, w, sources) && w.count == |cb.shortIds|
    ensures forall i | 0 <= i < |cb.shortIds| :: w.have[FreeSlots(cb)[i]]
  {
    hide FreeSlots, Placed;
    var free := FreeSlots(cb);
    FullRange(Filled(w.slots, free), |free|);
    forall i | 0 <= i < |cb.shortIds| ensures w.have[free[i]] {
      assert i in Filled(w.slots, free);
    }
  }

  /** A slot is prefilled or belongs to a short id. */
  lemma SlotKind(cb: CompactBlock, k: nat) returns (i: nat, isPrefilled: bool)
    requires WellFormed(cb) && k < cb.BlockTxCount()
    ensures if isPrefilled then i < |cb.prefilled| && PosOf(cb.prefilled, i) == k
            else i < |cb.shortIds| && FreeSlots(cb)[i] == k
  {
    var placed := Placed(cb, |cb.prefilled|);
    isPrefilled := placed[k].Some?;
    if isPrefilled {
      PlacedAt(cb, |cb.prefilled|);
      i :| 0 <= i < |cb.prefilled| && PosOf(cb.prefilled, i) == k;
    } else {
      FreeComplete(placed, |placed|, k);
      var free := FreeSlots(cb);
      assert |free| == |cb.shortIds|;
      i :| 0 <= i < |free| && free[i] == k;
    }
  }

  lemma SlotRight(cb: CompactBlock, vtx: seq<Tx>, slots: Slots, sources: set<Tx>, k: nat)
    requires Genuine(cb, vtx, sources) && Reconstructed(cb, slots, sources) && k < |vtx| && slots[k].Some?
    ensures slots[k].value == vtx[k]
  {
    hide FreeSlots;
    var i, isPrefilled := SlotKind(cb, k);
    if isPrefilled {
      assert PrefilledOk(cb, i);
    } else {
      assert slots[FreeSlots(cb)[i]].value in sources;
    }
  }

  lemma SlotFound(cb: CompactBlock, vtx: seq<Tx>, w: Work, sources: set<Tx>, seen: set<Tx>, k: nat)
    requires Genuine(cb, vtx, sources) && WorkOk(cb, w, sources) && Faithful(cb, vtx, w, seen) && k < |vtx|
    requires vtx[k] in seen || w.count == |cb.shortIds|
    ensures w.slots[k].Some?
  {
    hide FreeSlots, Filled;
    var i, isPrefilled := SlotKind(cb, k);
    if isPrefilled {
      PlacedAt(cb, |cb.prefilled|);
    } else if w.count == |cb.shortIds| {
      AllFilled(cb, w, sources);
    }
  }

  lemma SeenAll(cb: CompactBlock, vtx: seq<Tx>, w: Work, sources: set<Tx>, seen: set<Tx>, i: nat)
    requires Genuine(cb, vtx, sources) && WorkOk(cb, w, sources) && Faithful(cb, vtx, w, seen)
    requires w.count == |cb.shortIds| && i < |cb.shortIds|
    ensures vtx[FreeSlots(cb)[i]] in seen
  {
    hide FreeSlots, Filled;
    AllFilled(cb, w, sources);
  }

  lemma Recovers(cb: CompactBlock, vtx: seq<Tx>, w: Work, w2: Work, pool: seq<Tx>, extra: seq<Tx>, up: nat, ue: nat)
    requires Genuine(cb, vtx, SetOf(pool) + SetOf(extra)) && up <= |pool| && ue <= |extra|
    requires WorkOk(cb, w, SetOf(pool) + SetOf(extra)) && Faithful(cb, vtx, w, SetOf(pool[..up]))
    requires WorkOk(cb, w2, SetOf(pool) + SetOf(extra)) && Faithful(cb, vtx, w2, SetOf(pool[..up]) + SetOf(extra[..ue]))
    requires (up == |pool| || w.count == |cb.shortIds|) && (ue == |extra| || w2.count == |cb.shortIds|)
    ensures Recovered(cb, w2.slots, vtx, SetOf(pool) + SetOf(extra))
  {
    hide WorkOk, Genuine, Faithful, FreeSlots, Reconstructed, WellFormed, PosOf;
    var sources, seen := SetOf(pool) + SetOf(extra), SetOf(pool[..up]) + SetOf(extra[..ue]);
    GenuineParts(cb, vtx, w2, sources, seen);
    WorkDone(cb, w2, sources);
    forall k | 0 <= k < |vtx| && w2.slots[k].Some? ensures w2.slots[k].value == vtx[k] {
      SlotRight(cb, vtx, w2.slots, sources, k);
    }
    assert up == |pool| ==> pool[..up] == pool;
    assert ue == |extra| ==> extra[..ue] == extra;
    forall k | 0 <= k < |vtx| && vtx[k] in sources ensures w2.slots[k].Some? {
      if w2.count != |cb.shortIds| && up < |pool| {
        var i, isPrefilled := SlotKind(cb, k);
        if isPrefilled {
          PrefilledThere(cb, w2.slots, sources, i);
        } else {
          SeenAll(cb, vtx, w, sources, SetOf(pool[..up]), i);
          SlotFound(cb, vtx, w2, sources, seen, k);
        }
      } else {
        SlotFound(cb, vtx, w2, sources, seen, k);
      }
    }
  }

  lemma GenuineParts(cb: CompactBlock, vtx: seq<Tx>, w: Work, sources: set<Tx>, seen: set<Tx>)
    requires Genuine(cb, vtx, sources) && Faithful(cb, vtx, w, seen)
    ensures Encodes(cb, vtx) && WellFormed(cb) && |vtx| == cb.BlockTxCount() == |w.slots|
  {
  }

  lemma PrefilledThere(cb: CompactBlock, slots: Slots, sources: set<Tx>, i: nat)
    requires WellFormed(cb) && Reconstructed(cb, slots, sources) && i < |cb.prefilled|
    ensures 0 <= PosOf(cb.prefilled, i) < |slots| && slots[PosOf(cb.prefilled, i)].Some?
  {
    assert PrefilledOk(cb, i);
  }

  lemma {:induction false} FullRange(s: set<nat>, n: nat)
    requires (forall i <- s :: i < n) && |s| >= n
    ensures forall i | 0 <= i < n :: i in s
    decreases n
  {
    if n > 0 {
      if n - 1 in s {
        FullRange(s - {n - 1}, n - 1);
        forall i | 0 <= i < n ensures i in s {
          assert i < n - 1 ==> i in s - {n - 1};
        }
      } else {
        RangeCard(s, n - 1);
      }
    }
  }

  lemma {:induction false} RangeCard(s: set<nat>, n: nat)
    requires forall i <- s :: i < n
    ensures |s| <= n
  {
    if n > 0 {
      RangeCard(s - {n - 1}, n - 1);
    } else {
      assert s == {};
    }
  }

  predicate DistinctTxs(txs: seq<Tx>) {
    forall i, j | 0 <= i < j < |txs| :: txs[i] != txs[j]
  }

  ghost function SetOf(txs: seq<Tx>): set<Tx> {
    set tx | tx in txs
  }

  lemma SetOfNext(txs: seq<Tx>, i: nat)
    requires i < |txs|
    ensures SetOf(txs[..i + 1]) == SetOf(txs[..i]) + {txs[i]}
    ensures DistinctTxs(txs) ==> txs[i] !in SetOf(txs[..i])
  {
    assert txs[..i + 1] == txs[..i] + [txs[i]];
  }

  lemma MapStart(cb: CompactBlock)
    requires WellFormed(cb)
    ensures |FreeBelow(Placed(cb, |cb.prefilled|), 0)| == 0 && IdMap([], FreeSlots(cb)) == map[]
    ensures FreeSlots(cb) == FreeBelow(Placed(cb, |cb.prefilled|), cb.BlockTxCount())
  {
  }

  lemma IdMapNext(ids: seq<nat>, free: seq<nat>, i: nat)
    requires i < |ids| <= |free|
    ensures IdMap(ids[..i + 1], free) == IdMap(ids[..i], free)[ids[i] := free[i]]
  {
    assert ids[..i + 1][..i] == ids[..i];
  }

  lemma FreeNext(slots: Slots, i: nat, p: nat)
    requires p < |slots| && slots[p].None? && |FreeBelow(slots, p)| == i
    ensures |FreeBelow(slots, p + 1)| == i + 1 <= |FreeBelow(slots, |slots|)| && FreeBelow(slots, |slots|)[i] == p
  {
    FreePrefix(slots, p + 1, |slots|);
    assert FreeBelow(slots, p + 1)[i] == p;
  }

  lemma AllMapped(cb: CompactBlock, ids: map<nat, nat>)
    requires WellFormed(cb) && Distinct(cb.shortIds) && ids == IdMap(cb.shortIds, FreeSlots(cb))
    ensures IdsOk(cb, ids)
  {
    hide FreeSlots, IdMap;
    IdMapKeys(cb.shortIds, FreeSlots(cb));
    forall i | 0 <= i < |cb.shortIds| ensures ids[cb.shortIds[i]] == FreeSlots(cb)[i] {
      IdMapGet(cb.shortIds, FreeSlots(cb), i);
    }
  }

  // ---------------------------------------------------------------- lists of indexes

  predicate Increasing(values: seq<U16>) {
    forall i | 0 < i < |values| :: values[i - 1] < values[i]
  }

  /** One more than the last value. */
  function ShiftAfter(values: seq<U16>): int {
    if values == [] then 0 else var v: int := values[|values| - 1]; v + 1
  }

  /** What is written for a list: how much each value exceeds the one before by, less one. */
  function Differences(values: seq<U16>): seq<int> {
    if values == [] then []
    else
      var n := |values| - 1;
      var v: int := values[n];
      Differences(values[..n]) + [v - ShiftAfter(values[..n])]
  }

  /** The value a list of differences ends in, or -1. */
  function LastValue(diffs: seq<nat>): int {
    if diffs == [] then -1 else LastValue(diffs[..|diffs| - 1]) + diffs[|diffs| - 1] + 1
  }

  class DifferenceFormatter {
    var shift: nat

    constructor ()
      ensures shift == 0
    {
      shift := 0;
    }

    method Ser(v: U16) returns (r: Option<nat>)
      modifies this
      ensures r == if v < old(shift) then None else Some(v - old(shift))
      ensures shift == if r.Some? then v + 1 else old(shift)
    {
      if v < shift || v >= TWO_64 - 1 {
        r := None;
      } else {
        r := Some(v - shift);
        shift := v + 1;
      }
    }

    /** Reads one difference; ReadCompactSize has already refused numbers above MAX_SIZE. */
    method Unser(n: nat) returns (r: Option<U16>)
      requires n <= MessageFraming.MAX_SIZE && shift <= MAX_U16 + 1
      modifies this
      ensures r == if old(shift) + n > MAX_U16 then None else Some(old(shift) + n)
      ensures r.Some? ==> shift == old(shift) + n + 1
    {
      shift := (shift + n) % TWO_64;
      if shift < n || shift >= TWO_64 - 1 || shift > MAX_U16 {
        r := None;
      } else {
        r := Some(shift);
        shift := shift + 1;
      }
    }
  }

  /** Exactly the strictly increasing lists can be written. */
  method WriteIndexes(values: seq<U16>) returns (ok: bool, diffs: seq<nat>)
    ensures ok <==> Increasing(values)
    ensures ok ==> diffs == Differences(values)
  {
    hide Differences, Increasing, ShiftAfter;
    var f := new DifferenceFormatter();
    diffs := [];
    DifferencesStart();
    assert values[..0] == [];
    ok := true;
    var i := 0;
    while i < |values| && ok
      invariant 0 <= i <= |values|
      invariant ok ==> Increasing(values[..i]) && diffs == Differences(values[..i]) && f.shift == ShiftAfter(values[..i])
      invariant !ok ==> !Increasing(values)
    {
      var r := f.Ser(values[i]);
      if r.Some? {
        DifferencesNext(values[..i], values[i]);
      }
      NotIncreasing(values, i);
      assert values[..i] + [values[i]] == values[..i + 1];
      if r.Some? {
        diffs := diffs + [r.value];
      } else {
        ok := false;
      }
      i := i + 1;
    }
    assert values[..|values|] == values;
  }

  lemma DifferencesStart()
    ensures Differences([]) == [] && Increasing([]) && ShiftAfter([]) == 0 && LastValue([]) == -1
  {
  }

  lemma DifferencesNext(values: seq<U16>, v: U16)
    requires Increasing(values) && v >= ShiftAfter(values)
    ensures Increasing(values + [v]) && Differences(values + [v]) == Differences(values) + [v - ShiftAfter(values)]
    ensures ShiftAfter(values + [v]) == v + 1
  {
    assert (values + [v])[..|values|] == values;
  }

  lemma NotIncreasing(values: seq<U16>, i: nat)
    requires i < |values|
    ensures values[i] < ShiftAfter(values[..i]) ==> !Increasing(values)
  {
  }

  lemma LastValueNext(diffs: seq<nat>, i: nat)
    requires i < |diffs|
    ensures LastValue(diffs[..i + 1]) == LastValue(diffs[..i]) + diffs[i] + 1
  {
    assert diffs[..i + 1][..i] == diffs[..i];
  }

  /** A list is read exactly when its last value fits; it is the increasing list that was written. */
  method ReadIndexes(diffs: seq<nat>) returns (ok: bool, values: seq<U16>)
    requires forall d <- diffs :: d <= MessageFraming.MAX_SIZE
    ensures ok <==> LastValue(diffs) <= MAX_U16
    ensures ok ==> Increasing(values) && Differences(values) == diffs
  {
    hide Differences, Increasing, ShiftAfter, LastValue;
    var f := new DifferenceFormatter();
    values := [];
    DifferencesStart();
    assert diffs[..0] == [];
    ok := true;
    var i := 0;
    while i < |diffs| && ok
      invariant 0 <= i <= |diffs|
      invariant ok ==> |values| == i && Increasing(values) && Differences(values) == diffs[..i]
      invariant ok ==> f.shift == LastValue(diffs[..i]) + 1 == ShiftAfter(values) <= MAX_U16 + 1
      invariant !ok ==> LastValue(diffs[..i]) > MAX_U16
    {
      assert diffs[i] in diffs;
      LastValueNext(diffs, i);
      var r := f.Unser(diffs[i]);
      if r.Some? {
        DifferencesNext(values, r.value);
        assert diffs[..i] + [diffs[i]] == diffs[..i + 1];
        values := values + [r.value];
      } else {
        ok := false;
      }
      i := i + 1;
    }
    LastValueGrows(diffs, i);
    assert diffs[..|diffs|] == diffs;
  }

  lemma {:induction false} LastValueGrows(diffs: seq<nat>, i: nat)
    requires i <= |diffs|
    ensures LastValue(diffs[..i]) <= LastValue(diffs)
    decreases |diffs| - i
  {
    if i < |diffs| {
      LastValueGrows(diffs, i + 1);
      assert diffs[..i + 1][..i] == diffs[..i];
    } else {
      assert diffs[..i] == diffs;
    }
  }

  /** Increasing lists are determined by their differences. */
  lemma {:induction false} DifferencesUnique(a: seq<U16>, b: seq<U16>)
    requires Increasing(a) && Increasing(b) && Differences(a) == Differences(b)
    ensures a == b
  {
    DifferencesLength(a);
    DifferencesLength(b);
    if a != [] {
      var n := |a| - 1;
      assert Differences(a)[..n] == Differences(a[..n]) && Differences(b)[..n] == Differences(b[..n]) by {
        DifferencesLength(a[..n]);
        DifferencesLength(b[..n]);
      }
      DifferencesUnique(a[..n], b[..n]);
      DifferencesLength(a[..n]);
      assert Differences(a)[n] == Differences(b)[n];
      assert a == a[..n] + [a[n]] && b == b[..n] + [b[n]];
    }
  }

  lemma {:induction false} DifferencesLength(a: seq<U16>)
    ensures |Differences(a)| == |a|
  {
    if a != [] {
      DifferencesLength(a[..|a| - 1]);
    }
  }

  lemma {:induction false} LastOfDifferences(values: seq<U16>, diffs: seq<nat>)
    requires Increasing(values) && diffs == Differences(values)
    ensures LastValue(diffs) + 1 == ShiftAfter(values) && forall d <- diffs :: d <= MAX_U16
  {
    DifferencesLength(values);
    if values != [] {
      var n := |values| - 1;
      DifferencesLength(values[..n]);
      assert diffs[..n] == Differences(values[..n]);
      LastOfDifferences(values[..n], diffs[..n]);
      assert diffs == diffs[..n] + [diffs[n]];
    }
  }

  /** Every list that can be written is read back. */
  method IndexesRoundTrip(values: seq<U16>) returns (copy: seq<U16>)
    requires Increasing(values)
    ensures copy == values
  {
    var ok, diffs := WriteIndexes(values);
    LastOfDifferences(values, diffs);
    ok, copy := ReadIndexes(diffs);
    DifferencesUnique(values, copy);
  }
}
