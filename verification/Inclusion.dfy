/** Inclusion proofs: the commitment query service, and what its proofs establish for whoever checks them. */
module Inclusion {
  import opened Base
  import opened Encoding
  import opened Merkle

  const TWO63: int := 0x8000_0000_0000_0000

  // ----- Proofs

  /** A proof that a leaf is item `index` of `total`; the aunts go from the leaf up to the root. */
  datatype Proof = Proof(total: int, index: int, leafHash: bytes, aunts: seq<bytes>)

  /** The audit path of section 2.1.1 of RFC 6962. */
  function Path(h: Hash, items: seq<bytes>, i: nat): seq<bytes>
    requires i < |items|
    decreases |items|
  {
    if |items| == 1 then []
    else
      SplitPointInside(|items|);
      var k := SplitPoint(|items|);
      if i < k then Path(h, items[..k], i) + [Root(h, items[k..])]
      else Path(h, items[k..], i - k) + [Root(h, items[..k])]
  }

  function ProofFor(h: Hash, items: seq<bytes>, i: nat): Proof
    requires i < |items|
  {
    Proof(|items|, i, h(LeafInput(items[i])), Path(h, items, i))
  }

  /** The root that a proof leads to, if its number of aunts fits its index and total. */
  function Climb(h: Hash, index: int, total: int, leafHash: bytes, aunts: seq<bytes>): Option<bytes>
    decreases total
  {
    if index < 0 || index >= total then None
    else if total == 1 then (if aunts == [] then Some(leafHash) else None)
    else if aunts == [] then None
    else
      SplitPointInside(total);
      var k := SplitPoint(total);
      var rest, aunt := aunts[..|aunts| - 1], aunts[|aunts| - 1];
      if index < k then
        var left := Climb(h, index, k, leafHash, rest);
        if left.None? then None else Some(h(InnerInput(left.value, aunt)))
      else
        var right := Climb(h, index - k, total - k, leafHash, rest);
        if right.None? then None else Some(h(InnerInput(aunt, right.value)))
  }

  predicate Verifies(h: Hash, root: bytes, p: Proof, leaf: bytes) {
    p.leafHash == h(LeafInput(leaf)) && Climb(h, p.index, p.total, p.leafHash, p.aunts) == Some(root)
  }

  lemma {:induction false} ClimbStep(h: Hash, index: nat, total: nat, leafHash: bytes, rest: seq<bytes>, aunt: bytes)
    requires index < total && total >= 2
    ensures var k := SplitPoint(total);
            && (index < k && Climb(h, index, k, leafHash, rest).Some? ==>
                  Climb(h, index, total, leafHash, rest + [aunt]) ==
                  Some(h(InnerInput(Climb(h, index, k, leafHash, rest).value, aunt))))
            && (index >= k && Climb(h, index - k, total - k, leafHash, rest).Some? ==>
                  Climb(h, index, total, leafHash, rest + [aunt]) ==
                  Some(h(InnerInput(aunt, Climb(h, index - k, total - k, leafHash, rest).value))))
  {
    hide SplitPoint, InnerInput;
    var aunts := rest + [aunt];
    assert aunts[..|aunts| - 1] == rest && aunts[|aunts| - 1] == aunt;
  }

  /** A proof for one of several items ends with the tree hash of the half the item is not in. */
  lemma {:induction false} TopAunt(h: Hash, items: seq<bytes>, i: nat, k: nat)
    requires i < |items| && PowerOfTwo(k) && k < |items| <= 2 * k
    ensures var aunts := ProofFor(h, items, i).aunts;
            && aunts != []
            && aunts[|aunts| - 1] == TreeHash(h, if i < k then items[k..] else items[..k])
            && aunts[..|aunts| - 1] == (if i < k then ProofFor(h, items[..k], i).aunts else ProofFor(h, items[k..], i - k).aunts)
  {
    hide SplitPoint, Root, TreeHash, LeafInput;
    assert |items| >= 2;
    SplitPointIsUnique(|items|, k);
    RootIsTreeHash(h, items[..k]);
    RootIsTreeHash(h, items[k..]);
  }

  /** Every proof that is produced verifies. */
  lemma {:induction false} ProofVerifies(h: Hash, items: seq<bytes>, i: nat)
    requires i < |items|
    ensures Verifies(h, Root(h, items), ProofFor(h, items, i), items[i])
    decreases |items|
  {
    hide SplitPoint, InnerInput, LeafInput;
    if |items| >= 2 {
      hide Climb;
      SplitPointInside(|items|);
      var n, k, leafHash := |items|, SplitPoint(|items|), h(LeafInput(items[i]));
      var left, right := items[..k], items[k..];
      if i < k {
        ProofVerifies(h, left, i);
        ClimbStep(h, i, n, leafHash, Path(h, left, i), Root(h, right));
      } else {
        ProofVerifies(h, right, i - k);
        ClimbStep(h, i, n, leafHash, Path(h, right, i - k), Root(h, left));
      }
    }
  }

  lemma {:induction false} SameInner(a: bytes, b: bytes, c: bytes, d: bytes)
    requires |c| == 32 && |d| == 32 && InnerInput(a, b) == InnerInput(c, d) && (|a| == 32 || |b| == 32)
    ensures a == c && b == d
  {
    assert |InnerInput(a, b)| == 1 + |a| + |b|;
    InnerInputInjective(a, b, c, d);
  }

  lemma {:induction false} RootLength(h: Hash, items: seq<bytes>)
    requires Digest(h)
    ensures |Root(h, items)| == 32
  {
  }

  lemma {:induction false} ClimbLength(h: Hash, index: int, total: int, leafHash: bytes, aunts: seq<bytes>)
    requires Digest(h) && |leafHash| == 32 && Climb(h, index, total, leafHash, aunts).Some?
    ensures |Climb(h, index, total, leafHash, aunts).value| == 32
  {
    hide SplitPoint;
  }

  /**
   * Soundness: whatever proof verifies against a root, with whatever total, index and aunts, its leaf is
   * one of the items -- item `index` if the total is right -- or the hash function has a collision,
   * found by walking down the tree beside the proof.
   */
  lemma {:induction false} Member(h: Hash, items: seq<bytes>, index: int, total: int, leaf: bytes, aunts: seq<bytes>)
    returns (i: nat, x: bytes, y: bytes)
    requires Digest(h) && Climb(h, index, total, h(LeafInput(leaf)), aunts) == Some(Root(h, items))
    ensures Collides(h, x, y) || (i < |items| && items[i] == leaf && (total == |items| ==> i == index))
    decreases total
  {
    hide SplitPoint, Root, InnerInput;
    if total == 1 {
      i, x, y := MemberLeaf(h, items, leaf);
    } else {
      SplitPointInside(total);
      var k := SplitPoint(total);
      var rest, aunt := aunts[..|aunts| - 1], aunts[|aunts| - 1];
      var goLeft := index < k;
      var sub := if goLeft then Climb(h, index, k, h(LeafInput(leaf)), rest)
                 else Climb(h, index - k, total - k, h(LeafInput(leaf)), rest);
      if goLeft {
        ClimbLength(h, index, k, h(LeafInput(leaf)), rest);
        x, y := InnerStep(h, items, sub.value, aunt);
      } else {
        ClimbLength(h, index - k, total - k, h(LeafInput(leaf)), rest);
        x, y := InnerStep(h, items, aunt, sub.value);
      }
      i := 0;
      if !Collides(h, x, y) {
        var m := SplitPoint(|items|);
        SplitPointInside(|items|);
        if goLeft {
          i, x, y := Member(h, items[..m], index, k, leaf, rest);
        } else {
          i, x, y := Member(h, items[m..], index - k, total - k, leaf, rest);
          i := m + i;
        }
      }
    }
  }

  lemma {:induction false} RootIsTop(h: Hash, items: seq<bytes>)
    ensures Root(h, items) == h(TopInput(h, items))
  {
    hide SplitPoint;
  }

  lemma {:induction false} MemberLeaf(h: Hash, items: seq<bytes>, leaf: bytes) returns (i: nat, x: bytes, y: bytes)
    requires h(LeafInput(leaf)) == Root(h, items)
    ensures i == 0 && (Collides(h, x, y) || (|items| == 1 && items[0] == leaf))
  {
    hide Root, SplitPoint;
    RootIsTop(h, items);
    i, x, y := 0, LeafInput(leaf), TopInput(h, items);
    if x == y {
      TopKind(h, items);
      assert x[0] == 0;
      assert LeafInput(items[0])[1..] == items[0] && x[1..] == leaf;
    }
  }

  lemma {:induction false} InnerStep(h: Hash, items: seq<bytes>, l: bytes, r: bytes) returns (x: bytes, y: bytes)
    requires Digest(h) && h(InnerInput(l, r)) == Root(h, items) && (|l| == 32 || |r| == 32)
    ensures
      || Collides(h, x, y)
      || (|items| >= 2 && 1 <= SplitPoint(|items|) < |items|
          && l == Root(h, items[..SplitPoint(|items|)]) && r == Root(h, items[SplitPoint(|items|)..]))
  {
    hide Root, SplitPoint;
    RootIsTop(h, items);
    x, y := InnerInput(l, r), TopInput(h, items);
    if x == y {
      TopKind(h, items);
      assert x[0] == 1;
      SplitPointInside(|items|);
      var m := SplitPoint(|items|);
      RootLength(h, items[..m]);
      RootLength(h, items[m..]);
      SameInner(l, r, Root(h, items[..m]), Root(h, items[m..]));
    }
  }

  /** The root does not fix the total: with a wrong one, a proof can name a wrong index. */
  lemma {:induction false} IndexNeedsTotal(h: Hash, a: bytes, b: bytes, c: bytes)
    ensures Verifies(h, Root(h, [a, b, c]), Proof(2, 1, h(LeafInput(c)), [Root(h, [a, b])]), c)
  {
    SplitPointIsUnique(3, 2);
    SplitPointIsUnique(2, 1);
    assert PowerOfTwo(2) by {
      assert Varints.Shl(1, 1) == 2;
    }
    assert PowerOfTwo(1) by {
      assert Varints.Shl(1, 0) == 1;
    }
    hide SplitPoint;
    var items := [a, b, c];
    assert items[..2] == [a, b] && items[2..] == [c];
    var aunts := [Root(h, [a, b])];
    assert aunts[..0] == [];
  }

  // ----- The query service

  /** What the node knows: the latest height, the results hash in each header, each block's results. */
  datatype Chain = Chain(latest: Option<nat>, lastResultsHash: nat -> Option<bytes>, results: nat -> Option<seq<bytes>>)

  /** `validateBridgeCommitmentRange`. */
  predicate ValidRange(chain: Chain, maxQueryRange: uint64, start: uint64, end: uint64) {
    && start != 0
    && start < end
    && end - start <= maxQueryRange
    && chain.latest.Some?
    && end <= chain.latest.value + 1
  }

  ghost predicate Loads(chain: Chain, start: nat, end: nat) {
    forall g :: start <= g < end ==> chain.lastResultsHash(g).Some?
  }

  /** The leaves of an end-exclusive range of heights. */
  ghost function LeavesOf(chain: Chain, start: nat, end: nat): (leaves: seq<Leaf>)
    requires start <= end && Loads(chain, start, end)
  {
    seq(end - start, i requires 0 <= i < end - start => Leaf(start + i, chain.lastResultsHash(start + i).value))
  }

  /** `fetchBridgeCommitmentLeaves`. */
  method FetchLeaves(chain: Chain, start: uint64, end: uint64) returns (r: Option<seq<Leaf>>)
    requires start <= end
    ensures r.Some? <==> Loads(chain, start, end)
    ensures r.Some? ==> r.value == LeavesOf(chain, start, end)
  {
    var leaves: seq<Leaf> := [];
    for g := start to end
      invariant Loads(chain, start, g)
      invariant leaves == LeavesOf(chain, start, g)
    {
      var commit := chain.lastResultsHash(g);
      if commit.None? {
        return None;
      }
      leaves := leaves + [Leaf(g, commit.value)];
    }
    return Some(leaves);
  }

  /** `encodeBridgeCommitment`: the Go service's loop, on heights that are uint64; it never fails. */
  method EncodeBridgeCommitment(leaves: seq<Leaf>) returns (r: Option<seq<bytes>>)
    requires forall i :: 0 <= i < |leaves| ==> 0 <= leaves[i].height < TWO64
    ensures r.Some? && r == EncodedLeaves(leaves) && AbiItems(r.value, leaves)
  {
    hide Word, AbiItem;
    LeavesLayout(leaves);
    var encoded: seq<bytes> := [];
    for i := 0 to |leaves|
      invariant EncodedLeaves(leaves[..i]) == Some(encoded)
    {
      EveryHeightEncodes(leaves[i].height);
      var padded := To32PaddedHexBytes(leaves[i].height);
      if padded.None? {
        assert false;
        return None;
      }
      EncodedSnoc(leaves, i);
      encoded := encoded + [padded.value + leaves[i].lastResultsHash];
    }
    assert leaves[..|leaves|] == leaves;
    return Some(encoded);
  }

  /** The encoded leaves of a range; they always exist. */
  ghost function EncodedRange(chain: Chain, start: uint64, end: uint64): (items: seq<bytes>)
    requires start <= end && Loads(chain, start, end)
    ensures EncodedLeaves(LeavesOf(chain, start, end)) == Some(items) && |items| == end - start
    ensures forall i :: 0 <= i < |items| ==> AbiItem(items[i], start + i, chain.lastResultsHash(start + i).value)
  {
    LeavesLayout(LeavesOf(chain, start, end));
    RangeEncodes(chain, start, end);
    LeavesLength(LeavesOf(chain, start, end));
    EncodedLeaves(LeavesOf(chain, start, end)).value
  }

  lemma {:induction false} RangeEncodes(chain: Chain, start: uint64, end: uint64)
    requires start <= end && Loads(chain, start, end)
    ensures EncodedLeaves(LeavesOf(chain, start, end)).Some?
  {
    hide EncodedLeaves;
    CommitmentExists(x => x, LeavesOf(chain, start, end));
  }

  /** `BridgeCommitment`: the tree hash of the range's leaves, whenever the range is valid and loads. */
  method BridgeCommitment(h: Hash, chain: Chain, maxQueryRange: uint64, start: uint64, end: uint64)
    returns (r: Option<bytes>)
    ensures r.Some? <==>
            && 0 < start < end && end - start <= maxQueryRange
            && chain.latest.Some? && end <= chain.latest.value + 1
            && forall g :: start <= g < end ==> chain.lastResultsHash(g).Some?
    ensures r.Some? ==> Loads(chain, start, end)
    ensures r.Some? ==> r.value == TreeHash(h, EncodedRange(chain, start, end))
  {
    hide EncodedLeaves, Root, TreeHash;
    if !ValidRange(chain, maxQueryRange, start, end) {
      return None;
    }
    var leaves := FetchLeaves(chain, start, end);
    if leaves.None? {
      return None;
    }
    var encoded := EncodeBridgeCommitment(leaves.value);
    ghost var items := EncodedRange(chain, start, end);
    RootIsTreeHash(h, items);
    return Some(Root(h, encoded.value));
  }

  datatype ResultProof = ResultProof(proof: Proof, marshalled: bytes)

  datatype Answer = Answer(blockProof: Proof, leaf: Leaf, result: Option<ResultProof>)

  /** A block's header holds the tree hash of the results of the block before. */
  ghost predicate Linked(h: Hash, chain: Chain, g: nat) {
    && g >= 1
    && chain.results(g - 1).Some?
    && chain.lastResultsHash(g) == Some(Root(h, chain.results(g - 1).value))
  }

  /** Go's conversion of an int64 to a uint64. */
  function AsUint64(n: int): uint64
    requires -TWO63 <= n < TWO63
  {
    if n < 0 then n + TWO64 else n
  }

  /** When the service has a proof to give; a negative transaction index falls outside the results. */
  ghost predicate Provable(chain: Chain, maxQueryRange: uint64, height: int, txIndex: int, start: uint64, end: uint64) {
    && 0 < start < end && end - start <= maxQueryRange
    && chain.latest.Some? && end <= chain.latest.value + 1
    && Loads(chain, start, end)
    && start <= height < end
    && var results := chain.results(height - 1);
       && results.Some?
       && (0 <= txIndex < |results.value| || (txIndex == 0 && results.value == []))
  }

  /** What a good answer is: both of its proofs verify, each against the hash above it. */
  ghost predicate Convincing(h: Hash, chain: Chain, root: bytes, height: nat, txIndex: int, a: Answer)
    requires height >= 1 && chain.results(height - 1).Some?
  {
    && a.leaf.height == height
    && chain.lastResultsHash(height) == Some(a.leaf.lastResultsHash)
    && EncodedLeaf(a.leaf).Some?
    && Verifies(h, root, a.blockProof, EncodedLeaf(a.leaf).value)
    && var results := chain.results(height - 1).value;
       && (a.result.None? <==> results == [])
       && (a.result.Some? ==>
             && 0 <= txIndex < |results|
             && a.result.value.marshalled == results[txIndex]
             && (Linked(h, chain, height) ==>
                   Verifies(h, a.leaf.lastResultsHash, a.result.value.proof, results[txIndex])))
  }

  /** The proof that the header of `height` is in the commitment. */
  method ProveBlock(h: Hash, chain: Chain, leaves: seq<Leaf>, height: nat, start: uint64, end: uint64)
    returns (p: Proof, leaf: Leaf)
    requires start <= height < end && Loads(chain, start, end) && leaves == LeavesOf(chain, start, end)
    ensures leaf.height == height && chain.lastResultsHash(height) == Some(leaf.lastResultsHash)
    ensures EncodedLeaf(leaf).Some?
    ensures Verifies(h, Root(h, EncodedRange(chain, start, end)), p, EncodedLeaf(leaf).value)
  {
    hide EncodedLeaves, EncodedLeaf, Root, Path, Climb, Verifies;
    var blockIndex := height - leaves[0].height;
    var encoded := EncodeBridgeCommitment(leaves);
    ghost var items := EncodedRange(chain, start, end);
    EncodedItem(leaves, blockIndex);
    ProofVerifies(h, items, blockIndex);
    return ProofFor(h, encoded.value, blockIndex), leaves[blockIndex];
  }

  /** `BridgeCommitmentInclusionProof`: answers exactly the provable requests, and convincingly. */
  method BridgeCommitmentInclusionProof(h: Hash, chain: Chain, maxQueryRange: uint64,
                                        height: int, txIndex: int, start: uint64, end: uint64)
    returns (r: Option<Answer>)
    requires -TWO63 <= height < TWO63 && (chain.latest.Some? ==> chain.latest.value < TWO63)
    ensures r.Some? <==> Provable(chain, maxQueryRange, height, txIndex, start, end)
    ensures r.Some? ==>
              Convincing(h, chain, Root(h, EncodedRange(chain, start, end)), height, txIndex, r.value)
  {
    hide EncodedLeaves, EncodedLeaf, Root, Path, Climb, Verifies, ProofFor;
    if !ValidRange(chain, maxQueryRange, start, end) || AsUint64(height) < start || AsUint64(height) >= end {
      return None;
    }
    var leaves := FetchLeaves(chain, start, end);
    if leaves.None? {
      return None;
    }
    var blockProof, leaf := ProveBlock(h, chain, leaves.value, height, start, end);
    var results := chain.results(height - 1);
    if results.None? {
      return None;
    }
    if |results.value| == 0 && txIndex == 0 {
      return Some(Answer(blockProof, leaf, None));
    }
    if txIndex >= |results.value| || txIndex < 0 {
      return None;
    }
    ProofVerifies(h, results.value, txIndex);
    return Some(Answer(blockProof, leaf, Some(ResultProof(ProofFor(h, results.value, txIndex), results.value[txIndex]))));
  }

  // ----- What a checker learns

  /**
   * Two-level soundness: a leaf that verifies against the commitment of a range, and a result that
   * verifies against that leaf, are the real header entry of a height in the range and a real result
   * of the block before it -- at the proof's index, if its total is right -- or the hash collides. The
   * height itself needs no trust in the totals, since the leaf spells it out.
   */
  lemma {:induction false} VerifiedResultIsReal(h: Hash, chain: Chain, start: uint64, end: uint64,
                                                p: Proof, leaf: Leaf, q: Proof, result: bytes)
    returns (i: nat, x: bytes, y: bytes)
    requires Digest(h) && 1 <= start <= end && Loads(chain, start, end)
    requires forall g :: start <= g < end ==> Linked(h, chain, g)
    requires EncodedLeaf(leaf).Some?
    requires Verifies(h, Root(h, EncodedRange(chain, start, end)), p, EncodedLeaf(leaf).value)
    requires Verifies(h, leaf.lastResultsHash, q, result)
    ensures
      || Collides(h, x, y)
      || (&& start <= leaf.height < end
          && chain.lastResultsHash(leaf.height) == Some(leaf.lastResultsHash)
          && Linked(h, chain, leaf.height)
          && var results := chain.results(leaf.height - 1).value;
             i < |results| && results[i] == result && (q.total == |results| ==> i == q.index))
  {
    hide EncodedLeaves, EncodedLeaf, Root, Climb, TreeHash;
    var items := EncodedRange(chain, start, end);
    var leaves := LeavesOf(chain, start, end);
    var j: nat;
    i := 0;
    j, x, y := Member(h, items, p.index, p.total, EncodedLeaf(leaf).value, p.aunts);
    if !Collides(h, x, y) {
      EncodedItem(leaves, j);
      LeafInjective(leaves[j], leaf);
      assert Linked(h, chain, start + j);
      i, x, y := Member(h, chain.results(leaf.height - 1).value, q.index, q.total, result, q.aunts);
    }
  }
}
