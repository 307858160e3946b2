/** The bridge commitment: a Merkle tree over ABI-encoded leaves, for any 32-byte hash function. */
module Merkle {
  import opened Base
  import opened Varints
  import opened Encoding

  type Hash = bytes -> bytes

  ghost predicate Digest(h: Hash) {
    forall x: bytes :: |h(x)| == 32
  }

  /** Two different inputs with the same hash. */
  predicate Collides(h: Hash, x: bytes, y: bytes) {
    x != y && h(x) == h(y)
  }

  // ----- The split point

  /** `get_split_point`: from the bit length, halved when the length is itself a power of two. */
  function SplitPoint(n: nat): nat
    requires n >= 1
  {
    var k := Shl(1, BitLen(n) - 1);
    if k == n then k / 2 else k
  }

  method GetSplitPoint(length: int) returns (r: Option<nat>)
    ensures r == if length < 1 then None else Some(SplitPoint(length))
  {
    if length < 1 {
      return None;
    }
    var k := Shl(1, BitLen(length) - 1);
    if k == length {
      k := k / 2;
    }
    return Some(k);
  }

  ghost predicate PowerOfTwo(k: nat) {
    exists e: nat :: k == Shl(1, e)
  }

  lemma {:induction false} BitLenBounds(n: nat)
    requires n >= 1
    ensures BitLen(n) >= 1 && Shl(1, BitLen(n) - 1) <= n < Shl(1, BitLen(n))
  {
    if n > 1 {
      BitLenBounds(n / 2);
    }
  }

  lemma {:induction false} SplitPointIsPower(n: nat) returns (e: nat)
    requires n >= 2
    ensures SplitPoint(n) == Shl(1, e) && Shl(1, e) < n <= 2 * Shl(1, e)
  {
    hide BitLen;
    BitLenBounds(n);
    e := BitLen(n) - 1;
    assert BitLen(n) >= 2;
    assert Shl(1, e) == 2 * Shl(1, e - 1);
    if Shl(1, e) == n {
      e := e - 1;
    }
  }

  /** The split point is the one power of two below the length and at least half of it. */
  lemma {:induction false} SplitPointIsUnique(n: nat, k: nat)
    requires n >= 2
    ensures k == SplitPoint(n) <==> PowerOfTwo(k) && k < n <= 2 * k
  {
    hide SplitPoint, Shl;
    var e := SplitPointIsPower(n);
    if PowerOfTwo(k) && k < n <= 2 * k {
      var f: nat :| k == Shl(1, f);
      OnePower(f, e, n);
    }
  }

  lemma {:induction false} OnePower(f: nat, g: nat, n: nat)
    requires Shl(1, f) < n <= 2 * Shl(1, f) && Shl(1, g) < n <= 2 * Shl(1, g)
    ensures f == g
  {
    if f < g {
      ShlGrows(f + 1, g);
    } else if g < f {
      ShlGrows(g + 1, f);
    }
  }

  lemma {:induction false} SplitPointInside(n: nat)
    requires n >= 2
    ensures 1 <= SplitPoint(n) < n <= 2 * SplitPoint(n)
  {
    SplitPointIsUnique(n, SplitPoint(n));
  }

  // ----- The tree

  function LeafInput(leaf: bytes): bytes {
    [0] + leaf
  }

  function InnerInput(left: bytes, right: bytes): bytes {
    [1] + left + right
  }

  /** `_hash_from_byte_slices`. */
  function Root(h: Hash, items: seq<bytes>): bytes
    decreases |items|
  {
    if |items| == 0 then h([])
    else if |items| == 1 then h(LeafInput(items[0]))
    else
      SplitPointInside(|items|);
      var k := SplitPoint(|items|);
      h(InnerInput(Root(h, items[..k]), Root(h, items[k..])))
  }

  /** The largest power of two below `n`, found by doubling. */
  function LargestBelow(n: nat, k: nat): (r: nat)
    requires 1 <= k < n
    ensures k <= r < n <= 2 * r
    decreases n - k
  {
    if 2 * k < n then LargestBelow(n, 2 * k) else k
  }

  /** The Merkle Tree Hash of section 2.1 of RFC 6962. */
  function TreeHash(h: Hash, d: seq<bytes>): bytes
    decreases |d|
  {
    if d == [] then h([])
    else if |d| == 1 then h([0] + d[0])
    else
      var k := LargestBelow(|d|, 1);
      h([1] + TreeHash(h, d[..k]) + TreeHash(h, d[k..]))
  }

  lemma {:induction false} LargestBelowIsPower(n: nat, e: nat)
    requires Shl(1, e) >= 1 && Shl(1, e) < n
    ensures PowerOfTwo(LargestBelow(n, Shl(1, e)))
    decreases n - Shl(1, e)
  {
    if 2 * Shl(1, e) < n {
      assert Shl(1, e + 1) == 2 * Shl(1, e);
      LargestBelowIsPower(n, e + 1);
    }
  }

  /** The script computes the hash of the standard, for every list. */
  lemma {:induction false} RootIsTreeHash(h: Hash, items: seq<bytes>)
    ensures Root(h, items) == TreeHash(h, items)
    decreases |items|
  {
    if |items| >= 2 {
      var k := LargestBelow(|items|, 1);
      assert Shl(1, 0) == 1;
      LargestBelowIsPower(|items|, 0);
      SplitPointIsUnique(|items|, k);
      RootIsTreeHash(h, items[..k]);
      RootIsTreeHash(h, items[k..]);
    }
  }

  /** The length of the longest path in the tree. */
  function Depth(n: nat): nat
  {
    if n <= 1 then 0
    else
      SplitPointInside(n);
      var l, r := Depth(SplitPoint(n)), Depth(n - SplitPoint(n));
      1 + if l >= r then l else r
  }

  /** The tree is as shallow as can be: its depth is the binary logarithm of its size, rounded up. */
  lemma {:induction false} DepthIsLogarithm(n: nat)
    requires n >= 1
    ensures n <= Shl(1, Depth(n)) && (n >= 2 ==> n > Shl(1, Depth(n) - 1))
  {
    hide SplitPoint;
    if n >= 2 {
      SplitPointInside(n);
      SplitPointIsUnique(n, SplitPoint(n));
      var k := SplitPoint(n);
      var e: nat :| k == Shl(1, e);
      PowerDepth(e);
      DepthIsLogarithm(n - k);
      DepthAtMost(n - k, e);
      assert Depth(n) == 1 + e;
    }
  }

  lemma {:induction false} DepthAtMost(n: nat, e: nat)
    requires n >= 1 && n <= Shl(1, e)
    ensures Depth(n) <= e
    decreases e
  {
    hide SplitPoint;
    if n >= 2 {
      SplitPointInside(n);
      var k := SplitPoint(n);
      assert k < Shl(1, e);
      SplitPointIsUnique(n, k);
      var f: nat :| k == Shl(1, f);
      if f >= e {
        ShlGrows(e, f);
      }
      ShlGrows(f, e - 1);
      DepthAtMost(k, e - 1);
      DepthAtMost(n - k, e - 1);
    }
  }

  lemma {:induction false} PowerDepth(e: nat)
    ensures Depth(Shl(1, e)) == e
    decreases e
  {
    hide SplitPoint;
    if e > 0 {
      var n := Shl(1, e);
      ShlGrows(1, e);
      assert Shl(1, 1) == 2;
      SplitPointInside(n);
      var k := Shl(1, e - 1);
      SplitPointIsUnique(n, k);
      PowerDepth(e - 1);
    }
  }

  // ----- Binding

  lemma {:induction false} InnerInputInjective(a: bytes, b: bytes, c: bytes, d: bytes)
    requires |a| == 32 && |c| == 32 && InnerInput(a, b) == InnerInput(c, d)
    ensures a == c && b == d
  {
    var x, y := InnerInput(a, b), InnerInput(c, d);
    assert a == x[1..33] && b == x[33..];
    assert c == y[1..33] && d == y[33..];
  }

  /** What is hashed at the top of the tree. */
  function TopInput(h: Hash, items: seq<bytes>): bytes {
    if |items| == 0 then []
    else if |items| == 1 then LeafInput(items[0])
    else
      SplitPointInside(|items|);
      var k := SplitPoint(|items|);
      InnerInput(Root(h, items[..k]), Root(h, items[k..]))
  }

  /**
   * Binding: two different lists with the same root, of whatever lengths, give two different inputs
   * with the same hash. The collision is found by walking down both trees.
   */
  lemma {:induction false} Collision(h: Hash, a: seq<bytes>, b: seq<bytes>) returns (x: bytes, y: bytes)
    requires Digest(h) && Root(h, a) == Root(h, b) && a != b
    ensures Collides(h, x, y)
    decreases |a|
  {
    hide SplitPoint;
    x, y := TopInput(h, a), TopInput(h, b);
    if x == y {
      if |a| >= 2 && |b| >= 2 {
        SplitPointInside(|a|);
        SplitPointInside(|b|);
        var j, k := SplitPoint(|a|), SplitPoint(|b|);
        InnerInputInjective(Root(h, a[..j]), Root(h, a[j..]), Root(h, b[..k]), Root(h, b[k..]));
        assert a == a[..j] + a[j..] && b == b[..k] + b[k..];
        if a[..j] != b[..k] {
          x, y := Collision(h, a[..j], b[..k]);
        } else {
          x, y := Collision(h, a[j..], b[k..]);
        }
      } else {
        SameTop(h, a, b);
      }
    }
  }

  lemma {:induction false} TopKind(h: Hash, a: seq<bytes>)
    ensures var t := TopInput(h, a);
            && (|a| == 0 <==> t == [])
            && (|a| == 1 <==> t != [] && t[0] == 0)
            && (|a| >= 2 <==> t != [] && t[0] == 1)
  {
    hide Root, SplitPoint;
  }

  /** Different kinds of node never share an input, and leaves share one only if they are equal. */
  lemma {:induction false} SameTop(h: Hash, a: seq<bytes>, b: seq<bytes>)
    requires TopInput(h, a) == TopInput(h, b) && (|a| < 2 || |b| < 2)
    ensures a == b
  {
    hide Root;
    TopKind(h, a);
    TopKind(h, b);
    if |a| == 1 {
      assert LeafInput(a[0])[1..] == a[0] && LeafInput(b[0])[1..] == b[0];
    }
  }

  // ----- The commitment

  /** A height and the hash of that height's last results. */
  datatype Leaf = Leaf(height: int, lastResultsHash: bytes)

  function EncodedLeaf(leaf: Leaf): Option<bytes> {
    if leaf.height < 0 then None
    else
      var w := Word(leaf.height);
      if w.None? then None else Some(w.value + leaf.lastResultsHash)
  }

  function EncodedLeaves(leaves: seq<Leaf>): Option<seq<bytes>> {
    if leaves == [] then Some([])
    else
      var init, last := EncodedLeaves(leaves[..|leaves| - 1]), EncodedLeaf(leaves[|leaves| - 1]);
      if init.None? || last.None? then None else Some(init.value + [last.value])
  }

  lemma {:induction false} LeafFailureStays(leaves: seq<Leaf>, i: nat)
    requires i < |leaves| && EncodedLeaf(leaves[i]).None?
    ensures EncodedLeaves(leaves).None?
    decreases |leaves|
  {
    hide EncodedLeaf;
    if i < |leaves| - 1 {
      LeafFailureStays(leaves[..|leaves| - 1], i);
    }
  }

  lemma {:induction false} EncodedSnoc(leaves: seq<Leaf>, i: nat)
    requires i < |leaves| && EncodedLeaves(leaves[..i]).Some? && EncodedLeaf(leaves[i]).Some?
    ensures EncodedLeaves(leaves[..i + 1]) == Some(EncodedLeaves(leaves[..i]).value + [EncodedLeaf(leaves[i]).value])
  {
    hide EncodedLeaf;
    assert leaves[..i + 1][..i] == leaves[..i];
  }

  lemma {:induction false} EncodedItem(leaves: seq<Leaf>, i: nat)
    requires i < |leaves| && EncodedLeaves(leaves).Some?
    ensures |EncodedLeaves(leaves).value| == |leaves|
    ensures EncodedLeaf(leaves[i]) == Some(EncodedLeaves(leaves).value[i])
  {
    hide EncodedLeaf;
    LeavesLength(leaves);
    if i < |leaves| - 1 {
      EncodedItem(leaves[..|leaves| - 1], i);
    } else {
      LeavesLength(leaves[..|leaves| - 1]);
    }
  }

  /** The layout of `abi.encode`: the height as a 32-byte big-endian word, then the hash. */
  ghost predicate AbiItem(item: bytes, height: int, hash: bytes) {
    |item| >= 32 && Value(item[..32]) == height && item[32..] == hash
  }

  ghost predicate AbiItems(items: seq<bytes>, leaves: seq<Leaf>) {
    |items| == |leaves| && forall i :: 0 <= i < |items| ==> AbiItem(items[i], leaves[i].height, leaves[i].lastResultsHash)
  }

  /** A leaf encodes iff its height is a uint256, and then in that layout. */
  lemma {:induction false} LeafLayout(leaf: Leaf)
    ensures EncodedLeaf(leaf).Some? <==> 0 <= leaf.height < Pow256(32)
    ensures EncodedLeaf(leaf).Some? ==> AbiItem(EncodedLeaf(leaf).value, leaf.height, leaf.lastResultsHash)
  {
    hide Word, Value, Pow256;
    if leaf.height >= 0 {
      WordIsUint256(leaf.height);
      if Word(leaf.height).Some? {
        var w, h := Word(leaf.height).value, leaf.lastResultsHash;
        assert (w + h)[..32] == w && (w + h)[32..] == h;
      }
    }
  }

  lemma {:induction false} LeavesLayout(leaves: seq<Leaf>)
    ensures EncodedLeaves(leaves).Some? <==> forall i :: 0 <= i < |leaves| ==> 0 <= leaves[i].height < Pow256(32)
    ensures EncodedLeaves(leaves).Some? ==> AbiItems(EncodedLeaves(leaves).value, leaves)
    decreases |leaves|
  {
    hide EncodedLeaf, AbiItem, Pow256;
    if leaves != [] {
      var m := |leaves| - 1;
      LeavesLayout(leaves[..m]);
      LeafLayout(leaves[m]);
      assert forall i :: 0 <= i < m ==> leaves[..m][i] == leaves[i];
    }
  }

  /** `abi_encode_bridge_commitment_leaves`. */
  method EncodeLeaves(leaves: seq<Leaf>) returns (r: Option<seq<bytes>>)
    ensures r == EncodedLeaves(leaves)
    ensures r.Some? <==> forall i :: 0 <= i < |leaves| ==> 0 <= leaves[i].height < Pow256(32)
    ensures r.Some? ==> AbiItems(r.value, leaves)
  {
    hide Word, AbiItem, Pow256;
    LeavesLayout(leaves);
    var encoded: seq<bytes> := [];
    for i := 0 to |leaves|
      invariant EncodedLeaves(leaves[..i]) == Some(encoded)
    {
      var padded := PythonTo32PaddedHexBytes(leaves[i].height);
      if padded.None? {
        LeafFailureStays(leaves, i);
        return None;
      }
      EncodedSnoc(leaves, i);
      encoded := encoded + [padded.value + leaves[i].lastResultsHash];
    }
    assert leaves[..|leaves|] == leaves;
    return Some(encoded);
  }

  /** The encoding of a leaf determines its height and its hash, whatever the length of the hash. */
  lemma {:induction false} LeafInjective(a: Leaf, b: Leaf)
    requires EncodedLeaf(a).Some? && EncodedLeaf(a) == EncodedLeaf(b)
    ensures a == b
  {
    hide Word;
    WordIsUint256(a.height);
    WordIsUint256(b.height);
    var x, y := Word(a.height).value, Word(b.height).value;
    assert x == (x + a.lastResultsHash)[..32] && y == (y + b.lastResultsHash)[..32];
    assert a.lastResultsHash == (x + a.lastResultsHash)[32..] && b.lastResultsHash == (y + b.lastResultsHash)[32..];
  }

  lemma {:induction false} LeavesInjective(a: seq<Leaf>, b: seq<Leaf>)
    requires EncodedLeaves(a).Some? && EncodedLeaves(a) == EncodedLeaves(b)
    ensures a == b
    decreases |a|
  {
    hide EncodedLeaf;
    LeavesLength(a);
    LeavesLength(b);
    if a != [] {
      var m := |a| - 1;
      var x, y := EncodedLeaves(a[..m]).value, EncodedLeaves(b[..m]).value;
      assert x == EncodedLeaves(a).value[..m] && y == EncodedLeaves(b).value[..m];
      LeavesInjective(a[..m], b[..m]);
      LeafInjective(a[m], b[m]);
      assert a == a[..m] + [a[m]] && b == b[..m] + [b[m]];
    }
  }

  lemma {:induction false} LeavesLength(a: seq<Leaf>)
    requires EncodedLeaves(a).Some?
    ensures |EncodedLeaves(a).value| == |a|
  {
    hide EncodedLeaf;
    if a != [] {
      LeavesLength(a[..|a| - 1]);
    }
  }

  /** The bridge commitment over a range of heights. */
  function Commitment(h: Hash, leaves: seq<Leaf>): Option<bytes> {
    var e := EncodedLeaves(leaves);
    if e.None? then None else Some(Root(h, e.value))
  }

  /** A commitment binds its leaves: two ways to open it yield a collision of the hash function. */
  lemma {:induction false} CommitmentBinds(h: Hash, a: seq<Leaf>, b: seq<Leaf>) returns (x: bytes, y: bytes)
    requires Digest(h) && a != b
    requires Commitment(h, a).Some? && Commitment(h, a) == Commitment(h, b)
    ensures Collides(h, x, y)
  {
    hide Root, EncodedLeaves;
    var m, n := EncodedLeaves(a).value, EncodedLeaves(b).value;
    if m == n {
      LeavesInjective(a, b);
    }
    x, y := Collision(h, m, n);
  }

  /** On the heights the chain has, a commitment always exists. */
  lemma {:induction false} CommitmentExists(h: Hash, leaves: seq<Leaf>)
    requires forall i :: 0 <= i < |leaves| ==> 0 <= leaves[i].height < TWO64
    ensures Commitment(h, leaves).Some?
    decreases |leaves|
  {
    hide Root, Word;
    if leaves != [] {
      CommitmentExists(h, leaves[..|leaves| - 1]);
      EveryHeightEncodes(leaves[|leaves| - 1].height);
    }
  }
}
