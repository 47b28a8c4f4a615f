/**
The tree of known blocks with its skip pointers, and the active chain: src/chain.cpp,
src/chain.h and `AddToBlockIndex` in src/node/blockstorage.cpp.

The reference is the parent walk, `Ancestor`.  Parents and heights never change once a block
is linked into the tree; the skip pointer is set once, by `BuildSkip`.
*/
module Chain {
  import opened Numbers
  import opened SkipList

  // ---------------------------------------------------------------- the tree of blocks

  class BlockIndex {
    const pprev: BlockIndex?
    const nHeight: nat
    const hash: nat
    const proof: nat         // work of this block alone
    const nChainWork: nat    // work of the chain up to this block, in 256 bits
    const nTimeMax: nat
    var pskip: BlockIndex?

    constructor (hash: nat, nTime: nat, proof: nat, pprev: BlockIndex?)
      requires pprev != null ==> pprev.Linked()
      ensures Linked() && this.pprev == pprev && this.hash == hash && this.proof == proof && pskip == null
      ensures nTimeMax == if pprev != null && pprev.nTimeMax > nTime then pprev.nTimeMax else nTime
    {
      this.pprev := pprev;
      this.nHeight := if pprev != null then pprev.nHeight + 1 else 0;
      this.hash := hash;
      this.proof := proof;
      this.nTimeMax := if pprev != null && pprev.nTimeMax > nTime then pprev.nTimeMax else nTime;
      this.nChainWork := ((if pprev != null then pprev.nChainWork else 0) + proof) % TWO_256;
      this.pskip := null;
    }

    /** Heights count the parents, work adds up, and the maximal time never falls. */
    ghost predicate Linked()
      decreases nHeight
    {
      if pprev == null then nHeight == 0 && nChainWork == proof % TWO_256
      else
        && nHeight == pprev.nHeight + 1 && pprev.nTimeMax <= nTimeMax
        && nChainWork == (pprev.nChainWork + proof) % TWO_256 && pprev.Linked()
    }

    /** The skip pointer is the ancestor at the skip height; only a root has none. */
    ghost predicate SkipOk()
      requires Linked()
      reads this
    {
      pskip == if pprev == null then null else Ancestor(this, GetSkipHeight(nHeight))
    }

    /** The block the parent walk leads to, found in a number of steps that is at most quadratic in the
        number of bits of the height. */
    method GetAncestor(height: int, ghost index: set<BlockIndex>) returns (r: BlockIndex?, ghost steps: nat)
      requires this in index && Closed(index)
      ensures r == if 0 <= height <= nHeight then Ancestor(this, height) else null
      ensures steps == if 0 <= height <= nHeight then Steps(nHeight, height) else 0
      ensures IsShort(steps, nHeight)
    {
      hide IsShort, GetSkipHeight, Steps;
      steps := 0;
      NoStepsAreShort(nHeight);
      if height > nHeight || height < 0 {
        return null, 0;
      }
      var pindexWalk := this;
      var heightWalk := nHeight;
      while heightWalk > height
        invariant pindexWalk in index && height <= heightWalk == pindexWalk.nHeight
        invariant Ancestor(pindexWalk, height) == Ancestor(this, height)
        invariant steps + Steps(heightWalk, height) == Steps(nHeight, height)
      {
        OneStep(heightWalk, height);
        steps := steps + 1;
        var heightSkip := GetSkipHeight(heightWalk);
        var heightSkipPrev := GetSkipHeight(heightWalk - 1);
        if pindexWalk.pskip != null
           && (heightSkip == height
               || (heightSkip > height && !(heightSkipPrev < heightSkip - 2 && heightSkipPrev >= height))) {
          AncestorFacts(pindexWalk, heightSkip);
          AncestorOfAncestor(pindexWalk, heightSkip, height);
          AncestorIn(pindexWalk, heightSkip, index);
          pindexWalk := pindexWalk.pskip;
          heightWalk := heightSkip;
        } else {
          assert pindexWalk.pprev != null;
          pindexWalk := pindexWalk.pprev;
          heightWalk := heightWalk - 1;
        }
      }
      r := pindexWalk;
      Arrived(height);
      EveryWalkIsShort(nHeight, height);
    }

    method BuildSkip(ghost index: set<BlockIndex>)
      requires Linked() && this !in index && Closed(index) && (pprev != null ==> pprev in index)
      requires pskip == null
      modifies this`pskip
      ensures Closed(index + {this})
      ensures pskip == if pprev == null then null else Ancestor(this, GetSkipHeight(nHeight))
    {
      if pprev != null {
        ghost var steps;
        pskip, steps := pprev.GetAncestor(GetSkipHeight(nHeight), index);
      }
    }
  }

  /** The block at a height on the way from b to its root, parent by parent. */
  ghost function Ancestor(b: BlockIndex, height: nat): BlockIndex
    requires b.Linked() && height <= b.nHeight
    decreases b.nHeight
  {
    if height == b.nHeight then b else Ancestor(b.pprev, height)
  }

  lemma {:induction false} AncestorFacts(b: BlockIndex, height: nat)
    requires b.Linked() && height <= b.nHeight
    ensures Ancestor(b, height).Linked() && Ancestor(b, height).nHeight == height
    decreases b.nHeight
  {
    if height < b.nHeight {
      AncestorFacts(b.pprev, height);
    }
  }

  lemma {:induction false} AncestorOfAncestor(b: BlockIndex, k: nat, height: nat)
    requires b.Linked() && height <= k <= b.nHeight
    ensures Ancestor(b, k).Linked() && Ancestor(b, k).nHeight == k
    ensures Ancestor(Ancestor(b, k), height) == Ancestor(b, height)
    decreases b.nHeight
  {
    if k < b.nHeight {
      AncestorOfAncestor(b.pprev, k, height);
    }
  }

  /** A set of linked blocks that holds every parent and keeps every skip pointer right. */
  ghost predicate Closed(index: set<BlockIndex>)
    reads index
  {
    forall b <- index :: b.Linked() && b.SkipOk() && (b.pprev != null ==> b.pprev in index)
  }

  lemma {:induction false} AncestorIn(b: BlockIndex, height: nat, index: set<BlockIndex>)
    requires Closed(index) && b in index && height <= b.nHeight
    ensures Ancestor(b, height) in index
    decreases b.nHeight
  {
    if height < b.nHeight {
      AncestorIn(b.pprev, height, index);
    }
  }

  /** Work of the whole chain below and including b, in unbounded numbers. */
  ghost function TotalWork(b: BlockIndex): nat
    requires b.Linked()
    decreases b.nHeight
  {
    b.proof + if b.pprev == null then 0 else TotalWork(b.pprev)
  }

  lemma {:induction false} ChainWorkIsTotal(b: BlockIndex)
    requires b.Linked()
    ensures b.nChainWork == TotalWork(b) % TWO_256
    decreases b.nHeight
  {
    if b.pprev != null {
      ChainWorkIsTotal(b.pprev);
      ModAdd(TotalWork(b.pprev), b.proof, TWO_256);
    }
  }

  lemma ModAdd(a: nat, b: nat, m: nat)
    requires m > 0
    ensures (a % m + b) % m == (a + b) % m
  {
    QuotientBounds(a, m);
    DivModAddMultiple(a % m + b, a / m, m);
  }

  // ---------------------------------------------------------------- the block index

  class BlockManager {
    var blockIndex: map<nat, BlockIndex>
    var bestHeader: BlockIndex?

    ghost function Blocks(): set<BlockIndex>
      reads this
    {
      set h | h in blockIndex :: blockIndex[h]
    }

    /** One block for each hash, closed under parents, and the best header has the most work. */
    ghost predicate Valid()
      reads this, Blocks()
    {
      && (forall h <- blockIndex :: blockIndex[h].hash == h)
      && Closed(Blocks())
      && (bestHeader == null <==> blockIndex == map[])
      && (bestHeader != null ==> bestHeader in Blocks())
      && (forall h <- blockIndex :: blockIndex[h].nChainWork <= bestHeader.nChainWork)
    }

    constructor ()
      ensures Valid() && blockIndex == map[]
    {
      blockIndex := map[];
      bestHeader := null;
    }

    /** The one known block with this hash; null means that no known block has it. */
    method LookupBlockIndex(hash: nat) returns (r: BlockIndex?)
      requires Valid()
      ensures r != null ==> r in Blocks() && r.hash == hash && forall b <- Blocks() :: b.hash == hash ==> b == r
      ensures r == null ==> forall b <- Blocks() :: b.hash != hash
      ensures r == null <==> hash !in blockIndex
    {
      r := if hash in blockIndex then blockIndex[hash] else null;
    }

    /** A header whose parent is unknown starts a tree of its own at height zero. */
    method AddToBlockIndex(hash: nat, hashPrev: nat, nTime: nat, proof: nat) returns (r: BlockIndex)
      requires Valid()
      modifies this
      ensures Valid()
      ensures hash in old(blockIndex) ==> r == old(blockIndex[hash]) && unchanged(this)
      ensures hash !in old(blockIndex) ==>
                && fresh(r) && blockIndex == old(blockIndex)[hash := r] && r.hash == hash
                && r.pprev == (if hashPrev in old(blockIndex) then old(blockIndex[hashPrev]) else null)
                && bestHeader == if old(bestHeader) == null || old(bestHeader).nChainWork < r.nChainWork then r else old(bestHeader)
    {
      var known := LookupBlockIndex(hash);
      if known != null {
        return known;
      }
      var pprev := LookupBlockIndex(hashPrev);
      r := new BlockIndex(hash, nTime, proof, pprev);
      r.BuildSkip(Blocks());
      Register(r);
    }

    /** Enters a block that is linked into the index. */
    method Register(r: BlockIndex)
      requires Valid() && r.hash !in blockIndex && Closed(Blocks() + {r})
      modifies this
      ensures Valid() && blockIndex == old(blockIndex)[r.hash := r]
      ensures bestHeader == if old(bestHeader) == null || old(bestHeader).nChainWork < r.nChainWork then r else old(bestHeader)
    {
      hide BlockIndex.SkipOk;
      ghost var before := Blocks();
      blockIndex := blockIndex[r.hash := r];
      assert Blocks() == before + {r} by {
        assert blockIndex[r.hash] == r;
        forall h | h in old(blockIndex) ensures blockIndex[h] == old(blockIndex)[h] { }
      }
      if bestHeader == null || bestHeader.nChainWork < r.nChainWork {
        bestHeader := r;
      }
    }
  }

  // ---------------------------------------------------------------- the active chain

  /** Every entry is a block at its own height whose parent is the entry before it. */
  ghost predicate ChainOk(chain: seq<BlockIndex?>) {
    forall i | 0 <= i < |chain| ::
      && chain[i] != null && chain[i].Linked() && chain[i].nHeight == i
      && (i > 0 ==> chain[i].pprev == chain[i - 1])
  }

  lemma {:induction false} EntryIsAncestor(chain: seq<BlockIndex?>, i: nat, j: nat)
    requires ChainOk(chain) && i <= j < |chain|
    ensures chain[i] == Ancestor(chain[j], i)
    decreases j - i
  {
    if i < j {
      EntryIsAncestor(chain, i, j - 1);
    }
  }

  class CChain {
    var vChain: seq<BlockIndex?>

    ghost predicate Valid()
      reads this
    {
      ChainOk(vChain)
    }

    constructor ()
      ensures Valid() && vChain == []
    {
      vChain := [];
    }

    function Height(): int
      reads this
    {
      |vChain| - 1
    }

    predicate Contains(b: BlockIndex)
      reads this
    {
      b.nHeight < |vChain| && vChain[b.nHeight] == b
    }

    /** With a block the chain holds all its ancestors. */
    lemma ContainsAncestors(b: BlockIndex, height: nat)
      requires Valid() && Contains(b) && height <= b.nHeight
      ensures b.Linked() && vChain[height] == Ancestor(b, height) && Contains(Ancestor(b, height))
    {
      EntryIsAncestor(vChain, height, b.nHeight);
      AncestorFacts(b, height);
    }

    method SetTip(block: BlockIndex)
      requires Valid() && block.Linked()
      modifies this
      ensures Valid() && |vChain| == block.nHeight + 1
      ensures forall i | 0 <= i <= block.nHeight :: vChain[i] == Ancestor(block, i)
    {
      ghost var was := vChain;
      var size := block.nHeight + 1;
      vChain := if |vChain| >= size then vChain[..size] else vChain + seq(size - |vChain|, _ => null);
      ghost var resized := vChain;
      var pindex: BlockIndex? := block;
      while pindex != null && vChain[pindex.nHeight] != pindex
        invariant |vChain| == size
        invariant pindex != null ==> pindex.Linked() && pindex.nHeight < size && pindex == Ancestor(block, pindex.nHeight)
        invariant forall i | 0 <= i < size ::
                    vChain[i] == if pindex == null || i > pindex.nHeight then Ancestor(block, i) else resized[i]
        decreases if pindex == null then 0 else pindex.nHeight + 1
      {
        AncestorStep(block, pindex.nHeight);
        vChain := vChain[pindex.nHeight := pindex];
        pindex := pindex.pprev;
      }
      if pindex != null {
        OldChainAgrees(was, block, pindex.nHeight);
      }
      AncestorsAreChain(block, vChain);
    }

    /** No block on the way to b above a height is in the chain. */
    ghost predicate Leaves(b: BlockIndex, below: int)
      requires b.Linked()
      reads this
    {
      forall h: nat | below < h <= b.nHeight :: !Contains(Ancestor(b, h))
    }

    /** The last block on the way to pindex that the chain holds, if any. */
    method FindFork(pindex: BlockIndex?, ghost index: set<BlockIndex>) returns (r: BlockIndex?)
      requires Valid() && Closed(index) && (pindex != null ==> pindex in index)
      ensures pindex == null ==> r == null
      ensures pindex != null && r == null ==> Leaves(pindex, -1)
      ensures r != null ==>
                && r.nHeight <= pindex.nHeight && r.nHeight <= Height() && Leaves(pindex, r.nHeight)
                && forall h | 0 <= h <= r.nHeight :: Ancestor(pindex, h) == vChain[h]
    {
      r := pindex;
      if pindex != null {
        if pindex.nHeight > Height() {
          ghost var steps;
          r, steps := pindex.GetAncestor(Height(), index);
          LeavesAboveTip(pindex);
        }
        r := ForkBelow(r, pindex, if pindex.nHeight > Height() then Height() else pindex.nHeight);
      }
    }

    method ForkBelow(from: BlockIndex?, ghost b: BlockIndex, ghost top: int) returns (r: BlockIndex?)
      requires Valid() && b.Linked() && -1 <= top <= b.nHeight && Leaves(b, top)
      requires from == if top == -1 then null else Ancestor(b, top)
      ensures r == null ==> Leaves(b, -1)
      ensures r != null ==>
                && r.nHeight <= b.nHeight && r.nHeight <= Height() && Leaves(b, r.nHeight)
                && forall h | 0 <= h <= r.nHeight :: Ancestor(b, h) == vChain[h]
    {
      r := from;
      ghost var height := top;
      while r != null && !Contains(r)
        invariant -1 <= height <= b.nHeight && Leaves(b, height)
        invariant r == if height == -1 then null else Ancestor(b, height)
        decreases height
      {
        AncestorStep(b, height);
        r := r.pprev;
        height := height - 1;
      }
      if r != null {
        AncestorStep(b, height);
        SharesChain(b, height);
      }
    }

    lemma SharesChain(b: BlockIndex, height: nat)
      requires Valid() && b.Linked() && height <= b.nHeight && Contains(Ancestor(b, height))
      ensures height <= Height() && forall h | 0 <= h <= height :: Ancestor(b, h) == vChain[h]
    {
      AncestorFacts(b, height);
      forall h | 0 <= h <= height ensures Ancestor(b, h) == vChain[h] {
        ContainsAncestors(Ancestor(b, height), h);
        AncestorOfAncestor(b, height, h);
      }
    }

    lemma LeavesAboveTip(b: BlockIndex)
      requires b.Linked()
      ensures Leaves(b, Height())
    {
      forall h: nat | Height() < h <= b.nHeight ensures !Contains(Ancestor(b, h)) {
        AncestorFacts(b, h);
      }
    }

    /** The first block of the chain that is late and high enough. */
    method FindEarliestAtLeast(nTime: int, height: int) returns (r: BlockIndex?)
      requires Valid()
      ensures r == null ==> forall i | 0 <= i < |vChain| :: vChain[i].nTimeMax < nTime || i < height
      ensures r != null ==>
                && Contains(r) && r.nTimeMax >= nTime && r.nHeight >= height
                && forall i | 0 <= i < r.nHeight :: vChain[i].nTimeMax < nTime || i < height
    {
      var lo, hi := 0, |vChain|;
      while lo < hi
        invariant 0 <= lo <= hi <= |vChain|
        invariant forall i | 0 <= i < lo :: vChain[i].nTimeMax < nTime || i < height
        invariant hi < |vChain| ==> vChain[hi].nTimeMax >= nTime && hi >= height
      {
        var mid := lo + (hi - lo) / 2;
        var b := vChain[mid];
        if b.nTimeMax < nTime || b.nHeight < height {
          forall i | 0 <= i <= mid ensures vChain[i].nTimeMax < nTime || i < height {
            TimesRise(vChain, i, mid);
          }
          lo := mid + 1;
        } else {
          hi := mid;
        }
      }
      r := if lo == |vChain| then null else vChain[lo];
    }
  }

  /** A chain that holds an ancestor of a block holds all the ancestors below it. */
  lemma OldChainAgrees(chain: seq<BlockIndex?>, block: BlockIndex, height: nat)
    requires ChainOk(chain) && block.Linked() && height <= block.nHeight && height < |chain|
    requires chain[height] == Ancestor(block, height)
    ensures forall i | 0 <= i <= height :: chain[i] == Ancestor(block, i)
  {
    forall i | 0 <= i <= height ensures chain[i] == Ancestor(block, i) {
      EntryIsAncestor(chain, i, height);
      AncestorOfAncestor(block, height, i);
    }
  }

  lemma AncestorsAreChain(block: BlockIndex, chain: seq<BlockIndex?>)
    requires block.Linked() && |chain| == block.nHeight + 1 && forall i | 0 <= i < |chain| :: chain[i] == Ancestor(block, i)
    ensures ChainOk(chain)
  {
    forall i | 0 <= i < |chain|
      ensures Ancestor(block, i).Linked() && Ancestor(block, i).nHeight == i
      ensures i > 0 ==> Ancestor(block, i).pprev == Ancestor(block, i - 1)
    {
      AncestorStep(block, i);
    }
  }

  lemma AncestorStep(b: BlockIndex, height: nat)
    requires b.Linked() && height <= b.nHeight
    ensures Ancestor(b, height).Linked() && Ancestor(b, height).nHeight == height
    ensures height > 0 ==> Ancestor(b, height).pprev == Ancestor(b, height - 1)
    ensures height == 0 ==> Ancestor(b, height).pprev == null
  {
    AncestorFacts(b, height);
    if height > 0 {
      AncestorOfAncestor(b, height, height - 1);
    }
  }

  lemma {:induction false} TimesRise(chain: seq<BlockIndex?>, i: nat, j: nat)
    requires ChainOk(chain) && i <= j < |chain|
    ensures chain[i].nTimeMax <= chain[j].nTimeMax
    decreases j - i
  {
    if i < j {
      TimesRise(chain, i, j - 1);
    }
  }

  // ---------------------------------------------------------------- common ancestors

  /** The two walks differ at every height above `below` that both have. */
  ghost predicate Apart(a: BlockIndex, b: BlockIndex, below: int)
    requires a.Linked() && b.Linked()
  {
    forall h: nat | below < h <= a.nHeight && h <= b.nHeight :: Ancestor(a, h) != Ancestor(b, h)
  }

  /** The block where the two walks meet; null exactly when they end in different roots. */
  method LastCommonAncestor(a: BlockIndex, b: BlockIndex, ghost index: set<BlockIndex>) returns (r: BlockIndex?)
    requires Closed(index) && a in index && b in index
    ensures r == null ==> Apart(a, b, -1)
    ensures r != null ==>
              && r.Linked() && r.nHeight <= a.nHeight && r.nHeight <= b.nHeight && Apart(a, b, r.nHeight)
              && forall h | 0 <= h <= r.nHeight :: Ancestor(a, h) == Ancestor(b, h) == Ancestor(r, h)
  {
    var pa, pb := a, b;
    if pa.nHeight > pb.nHeight {
      AncestorFacts(a, b.nHeight);
      AncestorIn(a, b.nHeight, index);
      ghost var steps;
      pa, steps := pa.GetAncestor(pb.nHeight, index);
    } else if pb.nHeight > pa.nHeight {
      AncestorFacts(b, a.nHeight);
      AncestorIn(b, a.nHeight, index);
      ghost var steps;
      pb, steps := pb.GetAncestor(pa.nHeight, index);
    }
    r := WalkTogether(a, b, pa, pb);
    if r != null {
      forall h | 0 <= h <= r.nHeight
        ensures Ancestor(a, h) == Ancestor(b, h) == Ancestor(r, h)
      {
        AncestorOfAncestor(a, r.nHeight, h);
        AncestorOfAncestor(b, r.nHeight, h);
      }
    }
  }

  method WalkTogether(ghost a: BlockIndex, ghost b: BlockIndex, pa0: BlockIndex, pb0: BlockIndex) returns (r: BlockIndex?)
    requires a.Linked() && b.Linked() && pa0.nHeight == pb0.nHeight
    requires (pa0.nHeight == a.nHeight && b.nHeight >= a.nHeight) || (pa0.nHeight == b.nHeight && a.nHeight >= b.nHeight)
    requires pa0 == Ancestor(a, pa0.nHeight) && pb0 == Ancestor(b, pa0.nHeight)
    ensures r == null ==> Apart(a, b, -1)
    ensures r != null ==>
              && r.Linked() && r.nHeight <= a.nHeight && r.nHeight <= b.nHeight && Apart(a, b, r.nHeight)
              && r == Ancestor(a, r.nHeight) == Ancestor(b, r.nHeight)
  {
    var pa: BlockIndex?, pb: BlockIndex? := pa0, pb0;
    ghost var height: int := pa0.nHeight;
    while pa != pb && pa != null && pb != null
      invariant -1 <= height <= a.nHeight && height <= b.nHeight && Apart(a, b, height)
      invariant if height == -1 then pa == pb == null else pa == Ancestor(a, height) && pb == Ancestor(b, height)
      decreases height
    {
      AncestorStep(a, height);
      AncestorStep(b, height);
      pa := pa.pprev;
      pb := pb.pprev;
      height := height - 1;
    }
    assert pa == pb;
    r := pa;
    if height >= 0 {
      AncestorStep(a, height);
    }
  }

  // ---------------------------------------------------------------- block locators

  /** How far below the tip the k-th entry of a locator lies: ten single steps, then doubling ones. */
  ghost function Distance(k: nat): nat {
    if k <= 11 then k else Pow2(k - 10) + 9
  }

  ghost function LocatorHeight(tip: nat, k: nat): nat {
    if Distance(k) <= tip then tip - Distance(k) else 0
  }

  ghost function LocatorStep(k: nat): nat {
    if k <= 10 then 1 else Pow2(k - 10)
  }

  lemma DistanceStep(k: nat)
    ensures Distance(k + 1) == Distance(k) + LocatorStep(k) && LocatorStep(k) > 0
    ensures k >= 11 ==> Distance(k) == LocatorStep(k) + 9
  {
    if k == 11 {
      assert Pow(2, 1) == 2 && Pow(2, 2) == 4;
    }
  }

  /** The height up to which the step of a locator fits into its 32-bit type. */
  const LOCATOR_LIMIT := 0x4000_0009

  /** Beyond the limit, and only there, the doubled step is 2^31 before the walk is over. */
  lemma LimitIsExact(tip: nat)
    ensures tip > LOCATOR_LIMIT <==> exists k: nat :: LocatorHeight(tip, k) > 0 && LocatorStep(k + 1) >= 0x8000_0000
  {
    if tip > LOCATOR_LIMIT {
      Pow2Of30();
      assert Distance(40) == LOCATOR_LIMIT && LocatorStep(41) == 2 * Pow2(30);
      assert LocatorHeight(tip, 40) > 0;
    } else {
      forall k: nat | LocatorHeight(tip, k) > 0 ensures LocatorStep(k + 1) < 0x8000_0000 {
        StepFits(tip, k);
      }
    }
  }

  lemma StepFits(tip: nat, k: nat)
    requires LocatorHeight(tip, k) > 0 && tip <= LOCATOR_LIMIT
    ensures LocatorStep(k + 1) < 0x8000_0000 && 2 * LocatorStep(k) < 0x8000_0000
  {
    DistanceStep(k);
    if k <= 10 {
      assert Pow(2, 1) == 2;
    } else {
      assert Pow2(k - 9) == 2 * Pow2(k - 10);
    }
  }

  /** The entries so far are the hashes of the ancestors at the locator heights. */
  ghost predicate Entries(start: BlockIndex, have: seq<nat>)
    requires start.Linked()
  {
    forall k | 0 <= k < |have| :: have[k] == Ancestor(start, LocatorHeight(start.nHeight, k)).hash
  }

  /** Heights fall strictly from the tip; the last entry, and no other, is at height zero. */
  method LocatorEntries(start: BlockIndex?, ghost index: set<BlockIndex>) returns (have: seq<nat>)
    requires Closed(index) && (start != null ==> start in index && start.nHeight <= LOCATOR_LIMIT)
    ensures start == null <==> have == []
    ensures start != null ==>
              && Entries(start, have) && LocatorHeight(start.nHeight, |have| - 1) == 0
              && (|have| > 1 ==> LocatorHeight(start.nHeight, |have| - 2) > 0)
  {
    have := [];
    if start != null {
      have := EntriesFrom(start, index);
    }
  }

  method EntriesFrom(start: BlockIndex, ghost index: set<BlockIndex>) returns (have: seq<nat>)
    requires Closed(index) && start in index && start.nHeight <= LOCATOR_LIMIT
    ensures |have| > 0 && Entries(start, have) && LocatorHeight(start.nHeight, |have| - 1) == 0
    ensures |have| > 1 ==> LocatorHeight(start.nHeight, |have| - 2) > 0
  {
    hide LocatorHeight, Entries, LocatorStep, Ancestor;
    var step := 1;
    have := [];
    var b := start;
    LocatorStarts(start);
    while true
      invariant b in index && b.nHeight == LocatorHeight(start.nHeight, |have|) && b == Ancestor(start, b.nHeight)
      invariant step == LocatorStep(|have|)
      invariant |have| > 0 ==> LocatorHeight(start.nHeight, |have| - 1) > 0
      invariant Entries(start, have)
      decreases b.nHeight
    {
      ExtendEntries(start, have, b);
      have := have + [b.hash];
      if b.nHeight == 0 {
        break;
      }
      b, step := NextEntry(start, b, step, |have|, index);
    }
  }

  lemma LocatorStarts(start: BlockIndex)
    requires start.Linked()
    ensures LocatorHeight(start.nHeight, 0) == start.nHeight && LocatorStep(0) == 1 && Entries(start, [])
    ensures Ancestor(start, start.nHeight) == start
  {
  }

  lemma ExtendEntries(start: BlockIndex, have: seq<nat>, b: BlockIndex)
    requires start.Linked() && Entries(start, have)
    requires b.nHeight == LocatorHeight(start.nHeight, |have|) && b == Ancestor(start, b.nHeight)
    ensures Entries(start, have + [b.hash])
  {
  }

  method NextEntry(ghost start: BlockIndex, b: BlockIndex, step: nat, size: nat, ghost index: set<BlockIndex>)
    returns (next: BlockIndex, nextStep: nat)
    requires Closed(index) && b in index && start.Linked() && start.nHeight <= LOCATOR_LIMIT
    requires size > 0 && 0 < b.nHeight == LocatorHeight(start.nHeight, size - 1) && step == LocatorStep(size - 1)
    requires b == Ancestor(start, b.nHeight)
    ensures next in index && next.nHeight == LocatorHeight(start.nHeight, size) < b.nHeight
    ensures next == Ancestor(start, next.nHeight) && nextStep == LocatorStep(size)
  {
    hide LocatorHeight, LocatorStep;
    ghost var tip := start.nHeight;
    NextLocatorHeight(tip, size - 1);
    LocatorBelow(tip, size - 1);
    StepFits(tip, size - 1);
    var height := if b.nHeight - step > 0 then b.nHeight - step else 0;
    next := AncestorOf(b, height, start, index);
    nextStep := step;
    if size > 10 {
      assert nextStep * 2 < 0x8000_0000;
      nextStep := nextStep * 2;
    }
  }

  /** An ancestor of an ancestor of a block. */
  method AncestorOf(b: BlockIndex, height: nat, ghost start: BlockIndex, ghost index: set<BlockIndex>) returns (r: BlockIndex)
    requires Closed(index) && b in index && height <= b.nHeight <= start.nHeight && start.Linked() && b == Ancestor(start, b.nHeight)
    ensures r in index && r.nHeight == height && r == Ancestor(start, height)
  {
    hide Steps, Pow2;
    AncestorFacts(b, height);
    AncestorOfAncestor(start, b.nHeight, height);
    AncestorIn(b, height, index);
    ghost var steps;
    r, steps := b.GetAncestor(height, index);
  }

  lemma LocatorBelow(tip: nat, k: nat)
    ensures LocatorHeight(tip, k) <= tip
  {
  }

  lemma NextLocatorHeight(tip: nat, k: nat)
    requires LocatorHeight(tip, k) > 0
    ensures LocatorHeight(tip, k + 1) == if LocatorHeight(tip, k) > LocatorStep(k) then LocatorHeight(tip, k) - LocatorStep(k) else 0
    ensures LocatorStep(k + 1) == if k + 1 > 10 then 2 * LocatorStep(k) else LocatorStep(k)
    ensures 0 < LocatorStep(k) <= tip
  {
    DistanceStep(k);
  }

  lemma LocatorDescends(tip: nat, k: nat)
    requires LocatorHeight(tip, k) > 0
    ensures LocatorHeight(tip, k + 1) < LocatorHeight(tip, k)
  {
    DistanceStep(k);
  }

  /** A locator of n entries needs a tip above 2^(n - 12): the length is logarithmic. */
  lemma LocatorIsShort(tip: nat, n: nat)
    requires n >= 2 && LocatorHeight(tip, n - 2) > 0
    ensures n <= 12 || Pow2(n - 12) < tip
    ensures tip <= LOCATOR_LIMIT ==> n <= 41
  {
    if n > 12 {
      DistanceStep(n - 2);
      if n > 41 {
        PowMonotone(2, 30, n - 12);
        Pow2Of30();
      }
    }
  }

  lemma Pow2Of30()
    ensures Pow2(30) == 0x4000_0000
  {
    Pow2Values();
    assert Pow(2, 4) == 16 && Pow(2, 2) == 4;
    PowAdd(2, 4, 2);
    PowAdd(2, 6, 8);
    PowAdd(2, 14, 16);
  }
}
