/**
Partial Merkle trees, src/merkleblock.cpp and src/merkleblock.h, with the block's own root
computation, src/consensus/merkle.cpp: a prover that compresses a match vector into bits and
hashes, and a verifier that recovers the root and the matches from bits and hashes that may
come from anyone.

The pair hash is a parameter.  A tree over n leaves is never stored: a node is a height and a
position, and covers the leaves [pos * 2^height, (pos + 1) * 2^height) that exist.
*/
module MerkleBlock {
  import opened Basics
  import opened Numbers

  type PairHash = (Hash, Hash) -> Hash

  const NULL_HASH: Hash := 0

  // ---------------------------------------------------------------- the shape of the tree

  /** Number of nodes at a height: each level has half as many as the one below, rounded up. */
  function Width(n: nat, height: nat): nat {
    if height == 0 then n else (Width(n, height - 1) + 1) / 2
  }

  /** First leaf under a node. */
  function Lo(height: nat, pos: nat): nat {
    if height == 0 then pos else Lo(height - 1, 2 * pos)
  }

  lemma {:induction false} LoMonotone(height: nat, pos: nat, other: nat)
    requires pos < other
    ensures Lo(height, pos) < Lo(height, other)
    decreases height
  {
    if height > 0 {
      LoMonotone(height - 1, 2 * pos, 2 * other);
    }
  }

  /** A node exists exactly when its first leaf does. */
  lemma {:induction false} NodeExists(n: nat, height: nat, pos: nat)
    ensures pos < Width(n, height) <==> Lo(height, pos) < n
    decreases height
  {
    if height > 0 {
      NodeExists(n, height - 1, 2 * pos);
    }
  }

  lemma Children(height: nat, pos: nat)
    requires height > 0
    ensures Lo(height - 1, 2 * pos) == Lo(height, pos)
    ensures Lo(height - 1, 2 * pos + 2) == Lo(height, pos + 1)
    ensures Lo(height, pos) < Lo(height - 1, 2 * pos + 1) < Lo(height, pos + 1)
  {
    LoMonotone(height - 1, 2 * pos, 2 * pos + 1);
    LoMonotone(height - 1, 2 * pos + 1, 2 * pos + 2);
  }

  /** The width as src/merkleblock.h computes it, `(n + (1 << height) - 1) >> height`. */
  function CalcTreeWidth(n: nat, height: nat): nat {
    (n + Pow2(height) - 1) / Pow2(height)
  }

  lemma {:induction false} LoIsProduct(height: nat, pos: nat)
    ensures Lo(height, pos) == pos * Pow2(height)
    decreases height
  {
    if height > 0 {
      LoIsProduct(height - 1, 2 * pos);
      assert 2 * pos * Pow2(height - 1) == pos * (2 * Pow2(height - 1));
    }
  }

  lemma CalcTreeWidthExists(n: nat, height: nat, pos: nat)
    ensures pos < CalcTreeWidth(n, height) <==> Lo(height, pos) < n
  {
    var m := Pow2(height);
    var w := CalcTreeWidth(n, height);
    LoIsProduct(height, pos);
    QuotientBounds(n + m - 1, m);
    if pos < w {
      ProductMonotone(pos + 1, w, m);
      assert (pos + 1) * m == pos * m + m;
    } else {
      ProductMonotone(w, pos, m);
    }
  }

  /** The shift expression counts the nodes of a level. */
  lemma CalcTreeWidthIsWidth(n: nat, height: nat)
    ensures CalcTreeWidth(n, height) == Width(n, height)
  {
    var w, v := CalcTreeWidth(n, height), Width(n, height);
    CalcTreeWidthExists(n, height, w);
    CalcTreeWidthExists(n, height, v);
    NodeExists(n, height, w);
    NodeExists(n, height, v);
  }

  /** The first height with at most one node. */
  function TreeHeight(n: nat, from: nat): (height: nat)
    ensures Width(n, height) <= 1 && height >= from
    ensures forall h | from <= h < height :: Width(n, h) > 1
    decreases Width(n, from)
  {
    if Width(n, from) <= 1 then from else TreeHeight(n, from + 1)
  }

  lemma RootExists(n: nat, height: nat)
    requires n > 0
    ensures Width(n, height) > 0
  {
    NodeExists(n, height, 0);
  }

  /** The root covers all leaves. */
  lemma RootCovers(n: nat, height: nat)
    requires Width(n, height) <= 1
    ensures n <= Lo(height, 1)
  {
    NodeExists(n, height, 1);
  }

  // ---------------------------------------------------------------- nodes as trees

  /** The subtree at a height and position; a node without a right sibling child is `Single`. */
  datatype Node = Leaf(pos: nat) | Single(child: Node) | Pair(left: Node, right: Node)

  function NodeAt(n: nat, height: nat, pos: nat): Node {
    if height == 0 then Leaf(pos)
    else if 2 * pos + 1 < Width(n, height - 1) then Pair(NodeAt(n, height - 1, 2 * pos), NodeAt(n, height - 1, 2 * pos + 1))
    else Single(NodeAt(n, height - 1, 2 * pos))
  }

  function RootNode(n: nat): Node {
    NodeAt(n, TreeHeight(n, 0), 0)
  }

  function First(t: Node): nat {
    match t
    case Leaf(pos) => pos
    case Single(child) => First(child)
    case Pair(left, _) => First(left)
  }

  function End(t: Node): nat {
    match t
    case Leaf(pos) => pos + 1
    case Single(child) => End(child)
    case Pair(_, right) => End(right)
  }

  /** The leaves are consecutive and among the first n. */
  predicate Within(t: Node, n: nat) {
    match t
    case Leaf(pos) => pos < n
    case Single(child) => Within(child, n)
    case Pair(left, right) => Within(left, n) && Within(right, n) && End(left) == First(right)
  }

  lemma {:induction false} WithinSpan(t: Node, n: nat)
    requires Within(t, n)
    ensures First(t) < End(t) <= n
  {
    match t
    case Leaf(_) =>
    case Single(child) => WithinSpan(child, n);
    case Pair(left, right) => WithinSpan(left, n); WithinSpan(right, n);
  }

  /** End of the existing leaves under a node. */
  function Hi(n: nat, height: nat, pos: nat): nat {
    if Lo(height, pos + 1) < n then Lo(height, pos + 1) else n
  }

  lemma {:induction false} NodeAtSpan(n: nat, height: nat, pos: nat)
    requires pos < Width(n, height)
    ensures var t := NodeAt(n, height, pos); First(t) == Lo(height, pos) && End(t) == Hi(n, height, pos) && Within(t, n)
    decreases height
  {
    NodeExists(n, height, pos);
    if height > 0 {
      Children(height, pos);
      NodeAtSpan(n, height - 1, 2 * pos);
      NodeExists(n, height - 1, 2 * pos + 1);
      if 2 * pos + 1 < Width(n, height - 1) {
        NodeAtSpan(n, height - 1, 2 * pos + 1);
      }
    }
  }

  lemma RootSpan(n: nat)
    requires n > 0
    ensures First(RootNode(n)) == 0 && End(RootNode(n)) == n && Within(RootNode(n), n)
  {
    var height := TreeHeight(n, 0);
    RootExists(n, height);
    NodeAtSpan(n, height, 0);
    RootCovers(n, height);
    LoZero(height);
  }

  lemma {:induction false} LoZero(height: nat)
    ensures Lo(height, 0) == 0
    decreases height
  {
    if height > 0 {
      LoZero(height - 1);
    }
  }

  // ---------------------------------------------------------------- hashes

  /** The recursion of the code over height and position. */
  function CalcHash(H: PairHash, txids: seq<Hash>, height: nat, pos: nat): Hash {
    if height == 0 then TxAt(txids, pos)
    else
      var left := CalcHash(H, txids, height - 1, 2 * pos);
      var right := if 2 * pos + 1 < Width(|txids|, height - 1) then CalcHash(H, txids, height - 1, 2 * pos + 1) else left;
      H(left, right)
  }

  function TxAt(txids: seq<Hash>, pos: nat): Hash {
    if pos < |txids| then txids[pos] else NULL_HASH
  }

  ghost function TreeHash(H: PairHash, txids: seq<Hash>, t: Node): Hash {
    match t
    case Leaf(pos) => TxAt(txids, pos)
    case Single(child) => var h := TreeHash(H, txids, child); H(h, h)
    case Pair(left, right) => H(TreeHash(H, txids, left), TreeHash(H, txids, right))
  }

  lemma {:induction false} CalcHashIsTreeHash(H: PairHash, txids: seq<Hash>, height: nat, pos: nat)
    ensures CalcHash(H, txids, height, pos) == TreeHash(H, txids, NodeAt(|txids|, height, pos))
    decreases height
  {
    if height > 0 {
      CalcHashIsTreeHash(H, txids, height - 1, 2 * pos);
      if 2 * pos + 1 < Width(|txids|, height - 1) {
        CalcHashIsTreeHash(H, txids, height - 1, 2 * pos + 1);
      }
    }
  }

  ghost function Root(H: PairHash, txids: seq<Hash>): Hash {
    TreeHash(H, txids, RootNode(|txids|))
  }

  /** Two siblings with equal hashes. */
  ghost predicate Twins(H: PairHash, txids: seq<Hash>, height: nat, pos: nat)
    requires height > 0
  {
    && 2 * pos + 1 < Width(|txids|, height - 1)
    && CalcHash(H, txids, height - 1, 2 * pos) == CalcHash(H, txids, height - 1, 2 * pos + 1)
  }

  // ---------------------------------------------------------------- the block's root, level by level

  /** All hashes of one level. */
  ghost function Level(H: PairHash, txids: seq<Hash>, height: nat): (level: seq<Hash>)
    ensures |level| == Width(|txids|, height)
  {
    seq(Width(|txids|, height), pos requires 0 <= pos < Width(|txids|, height) => CalcHash(H, txids, height, pos))
  }

  /** One pass of the root computation: pairs are hashed, the odd one with itself. */
  lemma NextLevel(H: PairHash, txids: seq<Hash>, height: nat, pos: nat)
    requires pos < Width(|txids|, height + 1)
    ensures var level := Level(H, txids, height);
            && 2 * pos < |level|
            && Level(H, txids, height + 1)[pos] == H(level[2 * pos], level[if 2 * pos + 1 < |level| then 2 * pos + 1 else 2 * pos])
            && (Twins(H, txids, height + 1, pos) <==> 2 * pos + 1 < |level| && level[2 * pos] == level[2 * pos + 1])
  {
  }

  ghost predicate MutatedBelow(H: PairHash, leaves: seq<Hash>, top: nat) {
    exists height: nat, pos: nat :: 0 < height <= top && pos < Width(|leaves|, height) && Twins(H, leaves, height, pos)
  }

  lemma LevelZero(H: PairHash, leaves: seq<Hash>)
    ensures Level(H, leaves, 0) == leaves
  {
  }

  lemma MutatedLevel(H: PairHash, leaves: seq<Hash>, height: nat, seen: bool)
    requires var level := Level(H, leaves, height);
             seen <==> exists p :: 0 <= p && 2 * p + 1 < |level| && level[2 * p] == level[2 * p + 1]
    ensures MutatedBelow(H, leaves, height + 1) <==> MutatedBelow(H, leaves, height) || seen
  {
    var level := Level(H, leaves, height);
    if seen {
      var p :| 0 <= p && 2 * p + 1 < |level| && level[2 * p] == level[2 * p + 1];
      NextLevel(H, leaves, height, p);
    }
    if h: nat, pos: nat :| 0 < h <= height + 1 && pos < Width(|leaves|, h) && Twins(H, leaves, h, pos) {
      if h == height + 1 {
        NextLevel(H, leaves, height, pos);
      }
    }
  }

  /** The hashing of all pairs of a level, which the code does in place. */
  method HashPairs(H: PairHash, ghost leaves: seq<Hash>, hashes: seq<Hash>, ghost height: nat) returns (r: seq<Hash>)
    requires hashes == Level(H, leaves, height) && |hashes| > 1
    ensures r == Level(H, leaves, height + 1)
  {
    var padded := if |hashes| % 2 == 1 then hashes + [hashes[|hashes| - 1]] else hashes;
    r := [];
    while |r| < |padded| / 2
      invariant |r| <= |padded| / 2 == Width(|leaves|, height + 1)
      invariant forall pos | 0 <= pos < |r| :: r[pos] == Level(H, leaves, height + 1)[pos]
    {
      NextLevel(H, leaves, height, |r|);
      r := r + [H(padded[2 * |r|], padded[2 * |r| + 1])];
    }
  }

  /** Whether some pair at even position is equal. */
  method EqualPair(hashes: seq<Hash>) returns (seen: bool)
    ensures seen <==> exists p :: 0 <= p && 2 * p + 1 < |hashes| && hashes[2 * p] == hashes[2 * p + 1]
  {
    var pos := 0;
    seen := false;
    while 2 * pos + 1 < |hashes|
      invariant 0 <= pos
      invariant seen <==> exists p :: 0 <= p < pos && 2 * p + 1 < |hashes| && hashes[2 * p] == hashes[2 * p + 1]
    {
      if hashes[2 * pos] == hashes[2 * pos + 1] {
        seen := true;
      }
      pos := pos + 1;
    }
  }

  /** `ComputeMerkleRoot` computes the root of the tree, and reports a mutation exactly when
      some pair of siblings anywhere in the tree has equal hashes. */
  method ComputeMerkleRoot(H: PairHash, leaves: seq<Hash>) returns (root: Hash, mutated: bool)
    ensures root == if leaves == [] then NULL_HASH else Root(H, leaves)
    ensures mutated <==> MutatedBelow(H, leaves, TreeHeight(|leaves|, 0))
  {
    var hashes := leaves;
    mutated := false;
    ghost var height: nat := 0;
    LevelZero(H, leaves);
    while |hashes| > 1
      invariant hashes == Level(H, leaves, height)
      invariant TreeHeight(|leaves|, height) == TreeHeight(|leaves|, 0)
      invariant mutated <==> MutatedBelow(H, leaves, height)
      decreases |hashes|
    {
      var seen := EqualPair(hashes);
      MutatedLevel(H, leaves, height, seen);
      mutated := mutated || seen;
      hashes := HashPairs(H, leaves, hashes, height);
      height := height + 1;
    }
    if |hashes| == 0 {
      NodeExists(|leaves|, height, 0);
      root := NULL_HASH;
    } else {
      root := hashes[0];
      assert leaves != [] by { NodeExists(|leaves|, height, 0); }
      CalcHashIsTreeHash(H, leaves, height, 0);
    }
  }

  // ---------------------------------------------------------------- the prover

  datatype Proof = Proof(bits: seq<bool>, hashes: seq<Hash>)

  /** All there is to know of a subtree: its hash, whether it holds a match, its part of the
      proof, whether no traversed node in it has two equal children, and its matches. */
  datatype Summary = Summary(hash: Hash, any: bool, proof: Proof, twinFree: bool, matches: seq<Hash>, indexes: seq<nat>)

  function OfLeaf(txid: Hash, matched: bool, pos: nat): Summary {
    Summary(txid, matched, Proof([matched], [txid]), true, if matched then [txid] else [], if matched then [pos] else [])
  }

  /** An inner node: below a match the children's parts, otherwise one hash. */
  function OfInner(hash: Hash, any: bool, proof: Proof, twinFree: bool, matches: seq<Hash>, indexes: seq<nat>): Summary {
    if any then Summary(hash, true, proof, twinFree, matches, indexes)
    else Summary(hash, false, Proof([false], [hash]), true, [], [])
  }

  function OfSingle(H: PairHash, s: Summary): Summary {
    OfInner(H(s.hash, s.hash), s.any, Proof([true] + s.proof.bits, s.proof.hashes), s.twinFree, s.matches, s.indexes)
  }

  function OfPair(H: PairHash, l: Summary, r: Summary): Summary {
    OfInner(H(l.hash, r.hash), l.any || r.any,
            Proof([true] + l.proof.bits + r.proof.bits, l.proof.hashes + r.proof.hashes),
            l.hash != r.hash && l.twinFree && r.twinFree, l.matches + r.matches, l.indexes + r.indexes)
  }

  predicate MatchAt(match_: seq<bool>, pos: nat) {
    pos < |match_| && match_[pos]
  }

  function Honest(H: PairHash, txids: seq<Hash>, match_: seq<bool>, t: Node): Summary {
    match t
    case Leaf(pos) => OfLeaf(TxAt(txids, pos), MatchAt(match_, pos), pos)
    case Single(child) => OfSingle(H, Honest(H, txids, match_, child))
    case Pair(left, right) => OfPair(H, Honest(H, txids, match_, left), Honest(H, txids, match_, right))
  }

  lemma {:induction false} HonestHash(H: PairHash, txids: seq<Hash>, match_: seq<bool>, t: Node)
    ensures Honest(H, txids, match_, t).hash == TreeHash(H, txids, t)
  {
    match t
    case Leaf(_) =>
    case Single(child) => HonestHash(H, txids, match_, child);
    case Pair(left, right) => HonestHash(H, txids, match_, left); HonestHash(H, txids, match_, right);
  }

  /** A proof has at most as many hashes as there are leaves, and a bit for each hash: the
      verifier's size guards cannot reject it. */
  lemma {:induction false} HonestSize(H: PairHash, txids: seq<Hash>, match_: seq<bool>, t: Node, n: nat)
    requires Within(t, n)
    ensures var proof := Honest(H, txids, match_, t).proof;
            0 < |proof.hashes| <= End(t) - First(t) && |proof.hashes| <= |proof.bits|
  {
    WithinSpan(t, n);
    match t
    case Leaf(_) =>
    case Single(child) => HonestSize(H, txids, match_, child, n);
    case Pair(left, right) => HonestSize(H, txids, match_, left, n); HonestSize(H, txids, match_, right, n);
  }

  /** A node is the parent of a match exactly when a leaf in its range is matched. */
  lemma {:induction false} AnyInRange(H: PairHash, txids: seq<Hash>, match_: seq<bool>, t: Node, n: nat)
    requires Within(t, n)
    ensures Honest(H, txids, match_, t).any <==> exists p :: First(t) <= p < End(t) && p < |match_| && match_[p]
  {
    match t
    case Leaf(_) =>
    case Single(child) =>
      AnyInRange(H, txids, match_, child, n);
    case Pair(left, right) =>
      AnyInRange(H, txids, match_, left, n);
      AnyInRange(H, txids, match_, right, n);
      WithinSpan(left, n);
      WithinSpan(right, n);
  }

  /** The matched positions in [lo, hi), in order. */
  ghost function MatchedIn(match_: seq<bool>, lo: nat, hi: nat): seq<nat>
    decreases hi
  {
    if lo >= hi then [] else MatchedIn(match_, lo, hi - 1) + if MatchAt(match_, hi - 1) then [hi - 1] else []
  }

  lemma {:induction false} MatchedSplit(match_: seq<bool>, lo: nat, mid: nat, hi: nat)
    requires lo <= mid <= hi
    ensures MatchedIn(match_, lo, hi) == MatchedIn(match_, lo, mid) + MatchedIn(match_, mid, hi)
    decreases hi
  {
    if mid < hi {
      MatchedSplit(match_, lo, mid, hi - 1);
    }
  }

  lemma {:induction false} MatchedRange(match_: seq<bool>, lo: nat, hi: nat)
    ensures forall i | 0 <= i < |MatchedIn(match_, lo, hi)| :: lo <= MatchedIn(match_, lo, hi)[i] < hi
    decreases hi
  {
    if lo < hi {
      MatchedRange(match_, lo, hi - 1);
    }
  }

  /** The matches of a subtree are the matched transactions of its range, in order. */
  lemma {:induction false} HonestMatches(H: PairHash, txids: seq<Hash>, match_: seq<bool>, t: Node, n: nat)
    requires Within(t, n)
    ensures var s := Honest(H, txids, match_, t);
            && s.indexes == MatchedIn(match_, First(t), End(t)) && (!s.any ==> s.indexes == [])
            && |s.matches| == |s.indexes|
            && forall i | 0 <= i < |s.indexes| :: s.matches[i] == TxAt(txids, s.indexes[i])
  {
    match t
    case Leaf(pos) =>
      assert MatchedIn(match_, pos, pos) == [];
    case Single(child) =>
      HonestMatches(H, txids, match_, child, n);
    case Pair(left, right) =>
      WithinSpan(left, n);
      WithinSpan(right, n);
      HonestMatches(H, txids, match_, left, n);
      HonestMatches(H, txids, match_, right, n);
      MatchedSplit(match_, First(left), First(right), End(right));
  }

  // ---------------------------------------------------------------- the verifier

  datatype Cursor = Cursor(bitsUsed: nat, hashUsed: nat, bad: bool, matches: seq<Hash>, indexes: seq<nat>)
  datatype Extracted = Extracted(hash: Hash, cursor: Cursor)

  /** The end of a descent: the next hash is consumed and, at a matched leaf, reported. */
  function ExtractEnd(proof: Proof, matched: bool, pos: nat, c: Cursor): Extracted {
    if c.hashUsed >= |proof.hashes| then Extracted(NULL_HASH, c.(bad := true))
    else
      var hash := proof.hashes[c.hashUsed];
      var c1 := c.(hashUsed := c.hashUsed + 1);
      Extracted(hash, if matched then c1.(matches := c1.matches + [hash], indexes := c1.indexes + [pos]) else c1)
  }

  /** An inner node, from what its children gave; equal siblings are refused. */
  function ExtractPair(H: PairHash, left: Extracted, right: Extracted): Extracted {
    Extracted(H(left.hash, right.hash), if right.hash == left.hash then right.cursor.(bad := true) else right.cursor)
  }

  /** What `TraverseAndExtract` makes of arbitrary bits and hashes. */
  function Extract(H: PairHash, proof: Proof, t: Node, c: Cursor): Extracted {
    if c.bitsUsed >= |proof.bits| then Extracted(NULL_HASH, c.(bad := true))
    else
      var flag := proof.bits[c.bitsUsed];
      var c1 := c.(bitsUsed := c.bitsUsed + 1);
      if !flag then ExtractEnd(proof, false, 0, c1)
      else match t
        case Leaf(pos) => ExtractEnd(proof, true, pos, c1)
        case Single(child) => var e := Extract(H, proof, child, c1); Extracted(H(e.hash, e.hash), e.cursor)
        case Pair(left, right) =>
          var l := Extract(H, proof, left, c1);
          ExtractPair(H, l, Extract(H, proof, right, l.cursor))
  }

  /** Two hashes that are hashed together at a node of the true tree. */
  ghost predicate TreePair(H: PairHash, txids: seq<Hash>, t: Node, p: (Hash, Hash)) {
    match t
    case Leaf(_) => false
    case Single(child) => p == (TreeHash(H, txids, child), TreeHash(H, txids, child)) || TreePair(H, txids, child, p)
    case Pair(left, right) =>
      || p == (TreeHash(H, txids, left), TreeHash(H, txids, right))
      || TreePair(H, txids, left, p) || TreePair(H, txids, right, p)
  }

  /** Two hashes that are hashed together when the proof is read. */
  ghost predicate ProofPair(H: PairHash, proof: Proof, t: Node, c: Cursor, p: (Hash, Hash)) {
    c.bitsUsed < |proof.bits| && proof.bits[c.bitsUsed] &&
    var c1 := c.(bitsUsed := c.bitsUsed + 1);
    match t
    case Leaf(_) => false
    case Single(child) =>
      var e := Extract(H, proof, child, c1);
      p == (e.hash, e.hash) || ProofPair(H, proof, child, c1, p)
    case Pair(left, right) =>
      var l := Extract(H, proof, left, c1);
      || p == (l.hash, Extract(H, proof, right, l.cursor).hash)
      || ProofPair(H, proof, left, c1, p) || ProofPair(H, proof, right, l.cursor, p)
  }

  /** The block and the proof hash different pairs to the same value. */
  ghost predicate Clash(H: PairHash, txids: seq<Hash>, proof: Proof, t: Node, c: Cursor, p: (Hash, Hash), q: (Hash, Hash)) {
    TreePair(H, txids, t, p) && ProofPair(H, proof, t, c, q) && p != q && H(p.0, p.1) == H(q.0, q.1)
  }

  /** The matches from position k on are true: each names its transaction. */
  ghost predicate TrueFrom(txids: seq<Hash>, c: Cursor, k: nat) {
    && |c.matches| == |c.indexes|
    && forall i | k <= i < |c.indexes| :: c.indexes[i] < |txids| && c.matches[i] == txids[c.indexes[i]]
  }

  /** Matches are only appended, and lie under the node, in strictly ascending order. */
  ghost predicate Appends(c: Cursor, d: Cursor, lo: nat, hi: nat) {
    && c.matches <= d.matches && c.indexes <= d.indexes
    && |d.matches| - |c.matches| == |d.indexes| - |c.indexes|
    && (forall i | |c.indexes| <= i < |d.indexes| :: lo <= d.indexes[i] < hi)
    && (forall i, j | |c.indexes| <= i < j < |d.indexes| :: d.indexes[i] < d.indexes[j])
  }

  lemma AppendsTwice(c: Cursor, d: Cursor, e: Cursor, lo: nat, mid: nat, hi: nat)
    requires Appends(c, d, lo, mid) && Appends(d, e, mid, hi) && lo <= mid <= hi
    ensures Appends(c, e, lo, hi)
  {
    forall i, j | |c.indexes| <= i < j < |e.indexes| ensures e.indexes[i] < e.indexes[j] {
      assert i < |d.indexes| ==> e.indexes[i] == d.indexes[i];
      assert j < |d.indexes| ==> e.indexes[j] == d.indexes[j];
    }
    forall i | |c.indexes| <= i < |e.indexes| ensures lo <= e.indexes[i] < hi {
      assert i < |d.indexes| ==> e.indexes[i] == d.indexes[i];
    }
  }

  lemma {:induction false} ExtractAppends(H: PairHash, proof: Proof, t: Node, c: Cursor, n: nat)
    requires Within(t, n)
    ensures Appends(c, Extract(H, proof, t, c).cursor, First(t), End(t))
    decreases t
  {
    WithinSpan(t, n);
    if c.bitsUsed < |proof.bits| && proof.bits[c.bitsUsed] {
      var c1 := c.(bitsUsed := c.bitsUsed + 1);
      match t
      case Leaf(_) =>
      case Single(child) =>
        ExtractAppends(H, proof, child, c1, n);
      case Pair(left, right) =>
        hide Appends;
        var d := Extract(H, proof, left, c1).cursor;
        var e := Extract(H, proof, right, d).cursor;
        WithinSpan(left, n);
        WithinSpan(right, n);
        ExtractAppends(H, proof, left, c1, n);
        ExtractAppends(H, proof, right, d, n);
        AppendsTwice(c1, d, e, First(left), First(right), End(right));
        AppendsSame(c1, e, c, Extract(H, proof, t, c).cursor, First(t), End(t));
    }
  }

  lemma AppendsSame(c: Cursor, d: Cursor, c1: Cursor, d1: Cursor, lo: nat, hi: nat)
    requires Appends(c, d, lo, hi) && c1.matches == c.matches && c1.indexes == c.indexes
    requires d1.matches == d.matches && d1.indexes == d.indexes
    ensures Appends(c1, d1, lo, hi)
  {
  }

  lemma TruePair(txids: seq<Hash>, c: Cursor, d: Cursor, e: Cursor, lo: nat, hi: nat)
    requires |c.indexes| <= |d.indexes| && TrueFrom(txids, d, |c.indexes|)
    requires Appends(d, e, lo, hi) && TrueFrom(txids, e, |d.indexes|)
    ensures TrueFrom(txids, e, |c.indexes|)
  {
    forall i | |c.indexes| <= i < |d.indexes| ensures e.indexes[i] == d.indexes[i] && e.matches[i] == d.matches[i] {
    }
  }

  /** Soundness under a node: if arbitrary bits and hashes yield the node's true hash, every
      match they report under it is true, or a collision of the pair hash can be pointed out. */
  lemma {:induction false} ExtractSound(H: PairHash, txids: seq<Hash>, proof: Proof, t: Node, c: Cursor)
    returns (clash: bool, p: (Hash, Hash), q: (Hash, Hash))
    requires Within(t, |txids|) && |c.matches| == |c.indexes|
    requires Extract(H, proof, t, c).hash == TreeHash(H, txids, t)
    ensures clash ==> Clash(H, txids, proof, t, c, p, q)
    ensures !clash ==> TrueFrom(txids, Extract(H, proof, t, c).cursor, |c.indexes|)
    decreases t
  {
    clash, p, q := false, (NULL_HASH, NULL_HASH), (NULL_HASH, NULL_HASH);
    if c.bitsUsed < |proof.bits| && proof.bits[c.bitsUsed] {
      var c1 := c.(bitsUsed := c.bitsUsed + 1);
      match t
      case Leaf(_) =>
      case Single(child) =>
        var h, e := TreeHash(H, txids, child), Extract(H, proof, child, c1);
        p, q := (h, h), (e.hash, e.hash);
        clash := p != q;
        if !clash {
          clash, p, q := ExtractSound(H, txids, proof, child, c1);
        }
      case Pair(left, right) =>
        clash, p, q := PairSound(H, txids, proof, left, right, c1);
    }
  }

  /** The two subtrees of a node, after its own bit was read. */
  lemma {:induction false} PairSound(H: PairHash, txids: seq<Hash>, proof: Proof, left: Node, right: Node, c: Cursor)
    returns (clash: bool, p: (Hash, Hash), q: (Hash, Hash))
    requires Within(Pair(left, right), |txids|) && |c.matches| == |c.indexes|
    requires var l := Extract(H, proof, left, c);
             H(l.hash, Extract(H, proof, right, l.cursor).hash) == H(TreeHash(H, txids, left), TreeHash(H, txids, right))
    ensures var l := Extract(H, proof, left, c);
            clash ==>
              || (&& p == (TreeHash(H, txids, left), TreeHash(H, txids, right)) != q && H(p.0, p.1) == H(q.0, q.1)
                  && q == (l.hash, Extract(H, proof, right, l.cursor).hash))
              || Clash(H, txids, proof, left, c, p, q) || Clash(H, txids, proof, right, l.cursor, p, q)
    ensures var l := Extract(H, proof, left, c);
            !clash ==> TrueFrom(txids, Extract(H, proof, right, l.cursor).cursor, |c.indexes|)
    decreases Pair(left, right), 0
  {
    hide Extract, TreeHash, TrueFrom, Clash;
    var l := Extract(H, proof, left, c);
    var r := Extract(H, proof, right, l.cursor);
    p, q := (TreeHash(H, txids, left), TreeHash(H, txids, right)), (l.hash, r.hash);
    clash := p != q;
    ExtractAppends(H, proof, left, c, |txids|);
    ExtractAppends(H, proof, right, l.cursor, |txids|);
    if !clash {
      clash, p, q := ExtractSound(H, txids, proof, left, c);
    }
    if !clash {
      clash, p, q := ExtractSound(H, txids, proof, right, l.cursor);
    }
    if !clash {
      TruePair(txids, c, l.cursor, r.cursor, First(right), End(right));
    }
  }

  /** Indexes that were there before stay in front, and nothing else changes. */
  lemma {:induction false} ExtractAfter(H: PairHash, proof: Proof, t: Node, c: Cursor, given: seq<nat>)
    ensures var e := Extract(H, proof, t, c);
            Extract(H, proof, t, After(given, c)) == e.(cursor := After(given, e.cursor))
    decreases t
  {
    if c.bitsUsed < |proof.bits| && proof.bits[c.bitsUsed] {
      var c1 := c.(bitsUsed := c.bitsUsed + 1);
      match t
      case Leaf(pos) =>
        assert given + (c.indexes + [pos]) == given + c.indexes + [pos];
      case Single(child) =>
        ExtractAfter(H, proof, child, c1, given);
      case Pair(left, right) =>
        ExtractAfter(H, proof, left, c1, given);
        ExtractAfter(H, proof, right, Extract(H, proof, left, c1).cursor, given);
    }
  }

  function After(given: seq<nat>, c: Cursor): Cursor {
    c.(indexes := given + c.indexes)
  }

  // ---------------------------------------------------------------- completeness

  /** The proof contains the sub-proof at the cursor. */
  ghost predicate Holds(proof: Proof, c: Cursor, part: Proof) {
    && c.bitsUsed <= |proof.bits| && c.hashUsed <= |proof.hashes|
    && part.bits <= proof.bits[c.bitsUsed..] && part.hashes <= proof.hashes[c.hashUsed..]
  }

  lemma PrefixParts<T>(s: seq<T>, from: nat, a: seq<T>, b: seq<T>)
    requires from <= |s| && a + b <= s[from..]
    ensures a <= s[from..] && from + |a| <= |s| && b <= s[from + |a|..]
  {
    assert s[from + |a|..] == s[from..][|a|..];
    assert b == (a + b)[|a|..];
  }

  lemma HoldsChildren(proof: Proof, c: Cursor, left: Proof, right: Proof)
    requires Holds(proof, c, Proof([true] + left.bits + right.bits, left.hashes + right.hashes))
    ensures c.bitsUsed < |proof.bits| && proof.bits[c.bitsUsed]
    ensures Holds(proof, c.(bitsUsed := c.bitsUsed + 1), left)
    ensures forall d: Cursor | d.bitsUsed == c.bitsUsed + 1 + |left.bits| && d.hashUsed == c.hashUsed + |left.hashes| ::
              Holds(proof, d, right)
  {
    PrefixParts(proof.bits, c.bitsUsed, [true] + left.bits, right.bits);
    PrefixParts(proof.bits, c.bitsUsed, [true], left.bits);
    PrefixParts(proof.hashes, c.hashUsed, left.hashes, right.hashes);
    assert proof.bits[c.bitsUsed..][0] == [true][0];
  }

  /** What the verifier gets from an honest sub-proof: the node's hash and exactly its matches,
      using exactly its bits and hashes, called bad exactly when a traversed node has two
      equal children. */
  ghost function Result(s: Summary, c: Cursor): Extracted {
    Extracted(s.hash, Cursor(c.bitsUsed + |s.proof.bits|, c.hashUsed + |s.proof.hashes|, c.bad || !s.twinFree,
                             c.matches + s.matches, c.indexes + s.indexes))
  }

  lemma EndResult(H: PairHash, proof: Proof, t: Node, c: Cursor, s: Summary)
    requires Holds(proof, c, s.proof)
    requires (t.Leaf? && s == OfLeaf(s.hash, s.any, t.pos)) || (!s.any && s == OfInner(s.hash, false, s.proof, true, [], []))
    ensures Extract(H, proof, t, c) == Result(s, c)
  {
    assert proof.bits[c.bitsUsed] == s.proof.bits[0];
    assert proof.hashes[c.hashUsed] == s.proof.hashes[0];
  }

  lemma SingleResult(H: PairHash, c: Cursor, s: Summary)
    requires s.any
    ensures var e := Result(s, c.(bitsUsed := c.bitsUsed + 1));
            Extracted(H(e.hash, e.hash), e.cursor) == Result(OfSingle(H, s), c)
  {
  }

  lemma PairResult(H: PairHash, c: Cursor, l: Summary, r: Summary)
    requires l.any || r.any
    ensures var e := Result(l, c.(bitsUsed := c.bitsUsed + 1));
            ExtractPair(H, e, Result(r, e.cursor)) == Result(OfPair(H, l, r), c)
  {
    assert c.matches + l.matches + r.matches == c.matches + (l.matches + r.matches);
    assert c.indexes + l.indexes + r.indexes == c.indexes + (l.indexes + r.indexes);
  }

  /** Completeness under a node. */
  lemma {:induction false} ExtractHonest(H: PairHash, txids: seq<Hash>, match_: seq<bool>, proof: Proof, t: Node, c: Cursor)
    requires Holds(proof, c, Honest(H, txids, match_, t).proof)
    ensures Extract(H, proof, t, c) == Result(Honest(H, txids, match_, t), c)
    decreases t
  {
    var s := Honest(H, txids, match_, t);
    if t.Leaf? || !s.any {
      EndResult(H, proof, t, c, s);
    } else {
      var c1 := c.(bitsUsed := c.bitsUsed + 1);
      match t
      case Single(child) =>
        var cs := Honest(H, txids, match_, child);
        assert [true] + cs.proof.bits + [] == s.proof.bits && cs.proof.hashes + [] == s.proof.hashes;
        HoldsChildren(proof, c, cs.proof, Proof([], []));
        ExtractHonest(H, txids, match_, proof, child, c1);
        SingleResult(H, c, cs);
      case Pair(left, right) =>
        var ls, rs := Honest(H, txids, match_, left), Honest(H, txids, match_, right);
        HoldsChildren(proof, c, ls.proof, rs.proof);
        ExtractHonest(H, txids, match_, proof, left, c1);
        ExtractHonest(H, txids, match_, proof, right, Result(ls, c1).cursor);
        PairResult(H, c, ls, rs);
    }
  }

  // ---------------------------------------------------------------- bits and bytes

  /** `1 << (p % 8)` as a byte. */
  function Mask(k: nat): bv8
    requires k < 8
  {
    match k
    case 0 => 1
    case 1 => 2
    case 2 => 4
    case 3 => 8
    case 4 => 16
    case 5 => 32
    case 6 => 64
    case 7 => 128
  }

  predicate BitAt(bytes: seq<bv8>, p: nat)
    requires p < 8 * |bytes|
  {
    bytes[p / 8] & Mask(p % 8) != 0
  }

  lemma SetOneBit(b: bv8, k: nat, j: nat)
    requires k < 8 && j < 8
    ensures ((b | Mask(k)) & Mask(j) != 0) <==> (k == j || b & Mask(j) != 0)
  {
  }

  lemma SetBitAt(bytes: seq<bv8>, p: nat, q: nat)
    requires p < 8 * |bytes| && q < 8 * |bytes|
    ensures BitAt(bytes[p / 8 := bytes[p / 8] | Mask(p % 8)], q) <==> q == p || BitAt(bytes, q)
  {
    hide Mask;
    BytePlaces(p, q);
    SetBitInside(bytes, p / 8, p % 8, q / 8, q % 8);
  }

  lemma SetBitInside(bytes: seq<bv8>, k: nat, i: nat, l: nat, j: nat)
    requires k < |bytes| && l < |bytes| && i < 8 && j < 8
    ensures bytes[k := bytes[k] | Mask(i)][l] & Mask(j) != 0 <==> (l == k && j == i) || bytes[l] & Mask(j) != 0
  {
    hide Mask;
    if l == k {
      SetOneBit(bytes[k], i, j);
    }
  }

  lemma BytePlaces(p: nat, q: nat)
    ensures q == p <==> q / 8 == p / 8 && q % 8 == p % 8
  {
  }

  lemma ClearBits(bytes: seq<bv8>)
    requires forall i | 0 <= i < |bytes| :: bytes[i] == 0
    ensures forall q | 0 <= q < 8 * |bytes| :: !BitAt(bytes, q)
  {
  }

  /** Packs bits into bytes, lowest bit first; the unused bits of the last byte are clear. */
  method BitsToBytes(bits: seq<bool>) returns (bytes: seq<bv8>)
    ensures |bytes| == (|bits| + 7) / 8
    ensures forall p | 0 <= p < 8 * |bytes| :: BitAt(bytes, p) <==> p < |bits| && bits[p]
  {
    bytes := seq((|bits| + 7) / 8, _ => 0);
    ClearBits(bytes);
    var p := 0;
    while p < |bits|
      invariant 0 <= p <= |bits| && |bytes| == (|bits| + 7) / 8
      invariant forall q | 0 <= q < 8 * |bytes| :: BitAt(bytes, q) <==> q < p && bits[q]
    {
      if bits[p] {
        var next := bytes[p / 8 := bytes[p / 8] | Mask(p % 8)];
        forall q | 0 <= q < 8 * |bytes| ensures BitAt(next, q) <==> q == p || BitAt(bytes, q) {
          SetBitAt(bytes, p, q);
        }
        bytes := next;
      }
      p := p + 1;
    }
  }

  method BytesToBits(bytes: seq<bv8>) returns (bits: seq<bool>)
    ensures |bits| == 8 * |bytes|
    ensures forall p | 0 <= p < |bits| :: bits[p] == BitAt(bytes, p)
  {
    bits := [];
    while |bits| < 8 * |bytes|
      invariant |bits| <= 8 * |bytes|
      invariant forall p | 0 <= p < |bits| :: bits[p] == BitAt(bytes, p)
    {
      bits := bits + [bytes[|bits| / 8] & Mask(|bits| % 8) != 0];
    }
  }

  /** The bits, padded with zeros to whole bytes: what unpacking the packed bits gives. */
  ghost predicate Padded(bits: seq<bool>, padded: seq<bool>) {
    && bits <= padded && |padded| == (|bits| + 7) / 8 * 8
    && forall p | |bits| <= p < |padded| :: !padded[p]
  }

  // ---------------------------------------------------------------- theorems

  datatype Verdict = Verdict(root: Hash, matches: seq<Hash>, indexes: seq<nat>)

  /** What `ExtractMatches` answers for arbitrary bits and hashes. */
  function Verify(H: PairHash, n: nat, proof: Proof, wasBad: bool): Verdict {
    if n == 0 || n > MAX_BLOCK_WEIGHT / MIN_TRANSACTION_WEIGHT || |proof.hashes| > n || |proof.bits| < |proof.hashes| then
      Verdict(NULL_HASH, [], [])
    else
      Judge(proof, Extract(H, proof, RootNode(n), Cursor(0, 0, wasBad, [], [])))
  }

  /** The final guards: all bits, up to the padding, and all hashes were used. */
  function Judge(proof: Proof, e: Extracted): Verdict {
    Verdict(if e.cursor.bad || (e.cursor.bitsUsed + 7) / 8 != (|proof.bits| + 7) / 8 || e.cursor.hashUsed != |proof.hashes|
            then NULL_HASH else e.hash,
            e.cursor.matches, e.cursor.indexes)
  }

  /** Every match names its transaction, and they are in ascending order. */
  ghost predicate TrueMatches(txids: seq<Hash>, v: Verdict) {
    && |v.matches| == |v.indexes|
    && (forall i | 0 <= i < |v.indexes| :: v.indexes[i] < |txids| && v.matches[i] == txids[v.indexes[i]])
    && (forall i, j | 0 <= i < j < |v.indexes| :: v.indexes[i] < v.indexes[j])
  }

  /** Soundness: with the true number of transactions, bits and hashes from anyone that verify to the
      block's root report only true matches, each transaction at its own index, in ascending order --
      or the block and the proof together show two different pairs with the same hash. */
  lemma VerifySound(H: PairHash, txids: seq<Hash>, proof: Proof, wasBad: bool)
    returns (clash: bool, p: (Hash, Hash), q: (Hash, Hash))
    requires txids != []
    requires Verify(H, |txids|, proof, wasBad).root == Root(H, txids) != NULL_HASH
    ensures clash ==> Clash(H, txids, proof, RootNode(|txids|), Cursor(0, 0, wasBad, [], []), p, q)
    ensures !clash ==> TrueMatches(txids, Verify(H, |txids|, proof, wasBad))
  {
    var c := Cursor(0, 0, wasBad, [], []);
    RootSpan(|txids|);
    ExtractAppends(H, proof, RootNode(|txids|), c, |txids|);
    clash, p, q := ExtractSound(H, txids, proof, RootNode(|txids|), c);
  }

  ghost predicate Injective(H: PairHash) {
    forall a, b, c, d :: H(a, b) == H(c, d) ==> a == c && b == d
  }

  /** With a collision-free pair hash the matches are true. */
  lemma VerifyInjective(H: PairHash, txids: seq<Hash>, proof: Proof, wasBad: bool)
    requires txids != [] && Injective(H)
    requires Verify(H, |txids|, proof, wasBad).root == Root(H, txids) != NULL_HASH
    ensures TrueMatches(txids, Verify(H, |txids|, proof, wasBad))
  {
    hide Verify, TreePair, ProofPair;
    var clash, p, q := VerifySound(H, txids, proof, wasBad);
  }

  ghost function HonestRoot(H: PairHash, txids: seq<Hash>, match_: seq<bool>): Summary {
    Honest(H, txids, match_, RootNode(|txids|))
  }

  /** Completeness: the honest proof, with its bits padded to whole bytes, passes all guards and
      yields exactly the matches; it yields the root exactly when no traversed node has two
      equal children. */
  lemma VerifyHonest(H: PairHash, txids: seq<Hash>, match_: seq<bool>, padded: seq<bool>)
    requires 0 < |txids| <= MAX_BLOCK_WEIGHT / MIN_TRANSACTION_WEIGHT && |match_| == |txids|
    requires Padded(HonestRoot(H, txids, match_).proof.bits, padded)
    ensures var s := HonestRoot(H, txids, match_);
            Verify(H, |txids|, Proof(padded, s.proof.hashes), false)
            == Verdict(if s.twinFree then Root(H, txids) else NULL_HASH, s.matches, s.indexes)
  {
    var t, s := RootNode(|txids|), HonestRoot(H, txids, match_);
    RootSpan(|txids|);
    HonestHash(H, txids, match_, t);
    JudgeHonest(H, txids, match_, padded, t, s);
  }

  lemma JudgeHonest(H: PairHash, txids: seq<Hash>, match_: seq<bool>, padded: seq<bool>, t: Node, s: Summary)
    requires s == Honest(H, txids, match_, t) && Padded(s.proof.bits, padded)
    requires Within(t, |txids|) && First(t) == 0 && End(t) == |txids|
    ensures var proof := Proof(padded, s.proof.hashes);
            && |proof.hashes| <= |txids| && |proof.bits| >= |proof.hashes|
            && Judge(proof, Extract(H, proof, t, Cursor(0, 0, false, [], [])))
               == Verdict(if s.twinFree then s.hash else NULL_HASH, s.matches, s.indexes)
  {
    HonestSize(H, txids, match_, t, |txids|);
    assert padded[0..] == padded && s.proof.hashes[0..] == s.proof.hashes;
    ExtractHonest(H, txids, match_, Proof(padded, s.proof.hashes), t, Cursor(0, 0, false, [], []));
  }

  lemma NodeAtShape(n: nat, height: nat, pos: nat)
    requires pos < Width(n, height)
    ensures var t := NodeAt(n, height, pos);
            && (t.Leaf? <==> height == 0)
            && (t.Single? ==> 2 * pos < Width(n, height - 1) && t.child == NodeAt(n, height - 1, 2 * pos))
            && (t.Pair? ==> 2 * pos + 1 < Width(n, height - 1) && t.left == NodeAt(n, height - 1, 2 * pos)
                            && t.right == NodeAt(n, height - 1, 2 * pos + 1))
  {
  }

  lemma TwinsHere(H: PairHash, txids: seq<Hash>, height: nat, pos: nat)
    requires height > 0 && 2 * pos + 1 < Width(|txids|, height - 1)
    requires TreeHash(H, txids, NodeAt(|txids|, height - 1, 2 * pos)) == TreeHash(H, txids, NodeAt(|txids|, height - 1, 2 * pos + 1))
    ensures Twins(H, txids, height, pos)
  {
    hide TreeHash, NodeAt, CalcHash, Width;
    CalcHashIsTreeHash(H, txids, height - 1, 2 * pos);
    CalcHashIsTreeHash(H, txids, height - 1, 2 * pos + 1);
  }

  /** Equal siblings in a subtree are equal siblings at some height and position. */
  lemma {:induction false} LocateTwins(H: PairHash, txids: seq<Hash>, height: nat, pos: nat, t: Node) returns (h: nat, p: nat)
    requires pos < Width(|txids|, height) && t == NodeAt(|txids|, height, pos) && HasTwins(H, txids, t)
    ensures 0 < h <= height && p < Width(|txids|, h) && Twins(H, txids, h, p)
    decreases height
  {
    NodeAtShape(|txids|, height, pos);
    if t.Single? {
      h, p := LocateTwins(H, txids, height - 1, 2 * pos, t.child);
    } else if HasTwins(H, txids, t.left) {
      h, p := LocateTwins(H, txids, height - 1, 2 * pos, t.left);
    } else if HasTwins(H, txids, t.right) {
      h, p := LocateTwins(H, txids, height - 1, 2 * pos + 1, t.right);
    } else {
      TwinsHere(H, txids, height, pos);
      h, p := height, pos;
    }
  }

  /** Some pair of siblings in the subtree has equal hashes. */
  ghost predicate HasTwins(H: PairHash, txids: seq<Hash>, t: Node) {
    match t
    case Leaf(_) => false
    case Single(child) => HasTwins(H, txids, child)
    case Pair(left, right) =>
      TreeHash(H, txids, left) == TreeHash(H, txids, right) || HasTwins(H, txids, left) || HasTwins(H, txids, right)
  }

  lemma {:induction false} NoTwinsTwinFree(H: PairHash, txids: seq<Hash>, match_: seq<bool>, t: Node)
    requires !HasTwins(H, txids, t)
    ensures Honest(H, txids, match_, t).twinFree
  {
    match t
    case Leaf(_) =>
    case Single(child) => NoTwinsTwinFree(H, txids, match_, child);
    case Pair(left, right) =>
      NoTwinsTwinFree(H, txids, match_, left);
      NoTwinsTwinFree(H, txids, match_, right);
      HonestHash(H, txids, match_, left);
      HonestHash(H, txids, match_, right);
  }

  /** A block whose root computation reports no mutation has no equal siblings under any match
      vector, so every proof built for it verifies. */
  lemma UnmutatedTwinFree(H: PairHash, txids: seq<Hash>, match_: seq<bool>)
    requires txids != [] && !MutatedBelow(H, txids, TreeHeight(|txids|, 0))
    ensures HonestRoot(H, txids, match_).twinFree
  {
    var height := TreeHeight(|txids|, 0);
    RootExists(|txids|, height);
    if HasTwins(H, txids, RootNode(|txids|)) {
      var h, p := LocateTwins(H, txids, height, 0, RootNode(|txids|));
      assert false;
    }
    NoTwinsTwinFree(H, txids, match_, RootNode(|txids|));
  }

  lemma HonestIsCalcHash(H: PairHash, txids: seq<Hash>, match_: seq<bool>, height: nat, pos: nat)
    ensures Honest(H, txids, match_, NodeAt(|txids|, height, pos)).hash == CalcHash(H, txids, height, pos)
  {
    CalcHashIsTreeHash(H, txids, height, pos);
    HonestHash(H, txids, match_, NodeAt(|txids|, height, pos));
  }

  lemma PairParts(H: PairHash, l: Summary, r: Summary, bits: seq<bool>, hashes: seq<Hash>)
    requires l.any || r.any
    ensures bits + [true] + l.proof.bits + r.proof.bits == bits + OfPair(H, l, r).proof.bits
    ensures hashes + l.proof.hashes + r.proof.hashes == hashes + OfPair(H, l, r).proof.hashes
  {
  }

  lemma SingleParts(H: PairHash, s: Summary, bits: seq<bool>)
    requires s.any
    ensures bits + [true] + s.proof.bits == bits + OfSingle(H, s).proof.bits
    ensures s.proof.hashes == OfSingle(H, s).proof.hashes
  {
  }

  // ---------------------------------------------------------------- the class

  class PartialMerkleTree {
    const H: PairHash
    var nTransactions: nat
    var vBits: seq<bool>
    var vHash: seq<Hash>
    var fBad: bool

    /** The prover. */
    constructor (H: PairHash, vTxid: seq<Hash>, vMatch: seq<bool>)
      requires vTxid != [] && |vMatch| == |vTxid|
      ensures this.H == H && nTransactions == |vTxid| && !fBad
      ensures Proof(vBits, vHash) == HonestRoot(H, vTxid, vMatch).proof
    {
      this.H := H;
      nTransactions := |vTxid|;
      vBits, vHash := [], [];
      fBad := false;
      new;
      var nHeight := FindHeight();
      RootSpan(|vTxid|);
      RootExists(|vTxid|, nHeight);
      TraverseAndBuild(nHeight, 0, vTxid, vMatch, RootNode(|vTxid|));
    }

    /** Deserialization: the bits arrive packed in bytes. */
    constructor Received(H: PairHash, nTransactions: nat, vHash: seq<Hash>, vBits: seq<bool>)
      ensures this.H == H && this.nTransactions == nTransactions && this.vHash == vHash && this.vBits == vBits && !fBad
    {
      this.H := H;
      this.nTransactions := nTransactions;
      this.vHash := vHash;
      this.vBits := vBits;
      fBad := false;
    }

    method FindHeight() returns (nHeight: nat)
      ensures nHeight == TreeHeight(nTransactions, 0)
    {
      nHeight := 0;
      CalcTreeWidthIsWidth(nTransactions, 0);
      while CalcTreeWidth(nTransactions, nHeight) > 1
        invariant CalcTreeWidth(nTransactions, nHeight) == Width(nTransactions, nHeight)
        invariant TreeHeight(nTransactions, nHeight) == TreeHeight(nTransactions, 0)
        decreases Width(nTransactions, nHeight)
      {
        nHeight := nHeight + 1;
        CalcTreeWidthIsWidth(nTransactions, nHeight);
      }
    }

    method TraverseAndBuild(height: nat, pos: nat, vTxid: seq<Hash>, vMatch: seq<bool>, ghost t: Node)
      requires |vMatch| == |vTxid| == nTransactions && pos < Width(nTransactions, height)
      requires t == NodeAt(nTransactions, height, pos)
      modifies this`vBits, this`vHash
      ensures vBits == old(vBits) + Honest(H, vTxid, vMatch, t).proof.bits
      ensures vHash == old(vHash) + Honest(H, vTxid, vMatch, t).proof.hashes
      decreases height
    {
      var fParentOfMatch := FindMatch(height, pos, vTxid, vMatch, t);
      vBits := vBits + [fParentOfMatch];
      if height == 0 || !fParentOfMatch {
        HonestIsCalcHash(H, vTxid, vMatch, height, pos);
        vHash := vHash + [CalcHash(H, vTxid, height, pos)];
      } else {
        CalcTreeWidthIsWidth(nTransactions, height - 1);
        if pos * 2 + 1 < CalcTreeWidth(nTransactions, height - 1) {
          TraverseAndBuild(height - 1, pos * 2, vTxid, vMatch, t.left);
          TraverseAndBuild(height - 1, pos * 2 + 1, vTxid, vMatch, t.right);
          PairParts(H, Honest(H, vTxid, vMatch, t.left), Honest(H, vTxid, vMatch, t.right), old(vBits), old(vHash));
        } else {
          TraverseAndBuild(height - 1, pos * 2, vTxid, vMatch, t.child);
          SingleParts(H, Honest(H, vTxid, vMatch, t.child), old(vBits));
        }
      }
    }

    /** The scan of the leaves under a node. */
    method FindMatch(height: nat, pos: nat, ghost vTxid: seq<Hash>, vMatch: seq<bool>, ghost t: Node) returns (found: bool)
      requires |vMatch| == nTransactions && pos < Width(nTransactions, height) && t == NodeAt(nTransactions, height, pos)
      ensures found <==> Honest(H, vTxid, vMatch, t).any
    {
      LoIsProduct(height, pos);
      LoIsProduct(height, pos + 1);
      NodeAtSpan(nTransactions, height, pos);
      AnyInRange(H, vTxid, vMatch, t, nTransactions);
      found := false;
      var p := pos * Pow2(height);
      var end := (pos + 1) * Pow2(height);
      while p < end && p < nTransactions
        invariant Lo(height, pos) <= p
        invariant found <==> exists q :: Lo(height, pos) <= q < p && q < |vMatch| && q < end && vMatch[q]
        decreases nTransactions - p
      {
        found := found || vMatch[p];
        p := p + 1;
      }
    }

    method TraverseAndExtract(height: nat, pos: nat, c: Cursor, ghost t: Node) returns (hash: Hash, after: Cursor)
      requires t == NodeAt(nTransactions, height, pos) && c.bad == fBad
      modifies this`fBad
      ensures Extracted(hash, after) == Extract(H, Proof(vBits, vHash), t, c)
      ensures after.bad == fBad
      decreases height
    {
      if c.bitsUsed >= |vBits| {
        fBad := true;
        return NULL_HASH, c.(bad := true);
      }
      var fParentOfMatch := vBits[c.bitsUsed];
      after := c.(bitsUsed := c.bitsUsed + 1);
      if height == 0 || !fParentOfMatch {
        if after.hashUsed >= |vHash| {
          fBad := true;
          return NULL_HASH, after.(bad := true);
        }
        hash := vHash[after.hashUsed];
        after := after.(hashUsed := after.hashUsed + 1);
        if height == 0 && fParentOfMatch {
          after := after.(matches := after.matches + [hash], indexes := after.indexes + [pos]);
        }
      } else {
        CalcTreeWidthIsWidth(nTransactions, height - 1);
        var wide := pos * 2 + 1 < CalcTreeWidth(nTransactions, height - 1);
        var left, right;
        left, after := TraverseAndExtract(height - 1, pos * 2, after, if wide then t.left else t.child);
        if wide {
          right, after := TraverseAndExtract(height - 1, pos * 2 + 1, after, t.right);
          if right == left {
            fBad := true;
            after := after.(bad := true);
          }
        } else {
          right := left;
        }
        hash := H(left, right);
      }
    }

    /** The verifier; indexes that the caller has already are kept in front. */
    method ExtractMatches(given: seq<nat>) returns (root: Hash, vMatch: seq<Hash>, vnIndex: seq<nat>)
      modifies this`fBad
      ensures var v := Verify(H, nTransactions, Proof(vBits, vHash), old(fBad));
              root == v.root && vMatch == v.matches && vnIndex == given + v.indexes
    {
      root, vMatch, vnIndex := NULL_HASH, [], given;
      assert given + [] == given;
      if nTransactions == 0 || nTransactions > MAX_BLOCK_WEIGHT / MIN_TRANSACTION_WEIGHT {
        return;
      }
      if |vHash| > nTransactions || |vBits| < |vHash| {
        return;
      }
      var nHeight := FindHeight();
      RootExists(nTransactions, nHeight);
      ExtractAfter(H, Proof(vBits, vHash), RootNode(nTransactions), Cursor(0, 0, fBad, [], []), given);
      var hashMerkleRoot, c := TraverseAndExtract(nHeight, 0, Cursor(0, 0, fBad, [], given), RootNode(nTransactions));
      vMatch, vnIndex := c.matches, c.indexes;
      if fBad || (c.bitsUsed + 7) / 8 != (|vBits| + 7) / 8 || c.hashUsed != |vHash| {
        return;
      }
      root := hashMerkleRoot;
    }
  }

  /** Build, pack, unpack, extract: for every transaction list within the size cap and every
      match vector the receiver gets exactly the matched transactions and their indexes in
      order, and the block's root exactly when no traversed node has two equal children -- in
      particular whenever the block's own root computation reports no mutation. */
  method RoundTrip(H: PairHash, vTxid: seq<Hash>, vMatch: seq<bool>) returns (root: Hash, matches: seq<Hash>, indexes: seq<nat>)
    requires 0 < |vTxid| <= MAX_BLOCK_WEIGHT / MIN_TRANSACTION_WEIGHT && |vMatch| == |vTxid|
    ensures root == if HonestRoot(H, vTxid, vMatch).twinFree then Root(H, vTxid) else NULL_HASH
    ensures indexes == MatchedIn(vMatch, 0, |vMatch|)
    ensures |matches| == |indexes| && forall i | 0 <= i < |indexes| :: indexes[i] < |vTxid| && matches[i] == vTxid[indexes[i]]
    ensures !MutatedBelow(H, vTxid, TreeHeight(|vTxid|, 0)) ==> root == Root(H, vTxid)
  {
    hide Root, RootNode, MutatedBelow, TreeHeight, MatchedIn, BitAt;
    var sent := new PartialMerkleTree(H, vTxid, vMatch);
    var bytes := BitsToBytes(sent.vBits);
    var bits := BytesToBits(bytes);
    assert Padded(sent.vBits, bits);
    VerifyHonest(H, vTxid, vMatch, bits);
    RootSpan(|vTxid|);
    HonestMatches(H, vTxid, vMatch, RootNode(|vTxid|), |vTxid|);
    MatchedRange(vMatch, 0, |vMatch|);
    var received := new PartialMerkleTree.Received(H, |vTxid|, sent.vHash, bits);
    root, matches, indexes := received.ExtractMatches([]);
    if !MutatedBelow(H, vTxid, TreeHeight(|vTxid|, 0)) {
      UnmutatedTwinFree(H, vTxid, vMatch);
    }
  }
}
