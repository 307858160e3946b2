/** The `MsgIndex` message: its wire form, its trimming operations and its size budget. */
module MsgIndexes {
  import opened Base
  import opened Varints
  import opened TxWire

  datatype MsgIndex = MsgIndex(authority: bytes, num: nat, newBlock: bool, block: nat) {
    predicate IsFullSync() { newBlock }
    predicate IsPartialSync() { !newBlock && num > 0 }
    predicate NoSync() { !IsFullSync() && !IsPartialSync() }
  }

  function Ascii(s: string): bytes {
    seq(|s|, i requires 0 <= i < |s| => s[i] as int % 256)
  }

  const INDEX_URL: bytes := Ascii("/fuelsequencer.bridge.v1.MsgIndex")

  function IndexBytes(m: MsgIndex): bytes {
    OptBytes(0x0a, m.authority) + (OptNat(0x10, m.num) + (OptNat(0x18, if m.newBlock then 1 else 0) + OptNat(0x20, m.block)))
  }

  /** The generated `Size` method. */
  function IndexSize(m: MsgIndex): nat {
    (if |m.authority| > 0 then 1 + |m.authority| + Sov(|m.authority|) else 0)
    + (if m.num != 0 then 1 + Sov(m.num) else 0)
    + (if m.newBlock then 2 else 0)
    + (if m.block != 0 then 1 + Sov(m.block) else 0)
  }

  lemma IndexSizeIsLength(m: MsgIndex)
    ensures IndexSize(m) == |IndexBytes(m)|
  {
    SovIsLength(|m.authority|);
    SovIsLength(m.num);
    SovIsLength(m.block);
  }

  /** The message's bytes determine the message. */
  lemma {:induction false} IndexBytesInjective(m: MsgIndex, k: MsgIndex)
    requires IndexBytes(m) == IndexBytes(k)
    ensures m == k
  {
    var mb, kb := if m.newBlock then 1 else 0, if k.newBlock then 1 else 0;
    var m3, k3 := OptNat(0x20, m.block), OptNat(0x20, k.block);
    var m2, k2 := OptNat(0x18, mb) + m3, OptNat(0x18, kb) + k3;
    var m1, k1 := OptNat(0x10, m.num) + m2, OptNat(0x10, k.num) + k2;
    NotStarting(m);
    NotStarting(k);
    OptBytesPrefixFree(0x0a, m.authority, k.authority, m1, k1);
    OptNatPrefixFree(0x10, m.num, k.num, m2, k2);
    OptNatPrefixFree(0x18, mb, kb, m3, k3);
    assert m3 + [] == k3 + [];
    OptNatPrefixFree(0x20, m.block, k.block, [], []);
  }

  lemma NotStarting(m: MsgIndex)
    ensures var m3 := OptNat(0x20, m.block);
            var m2 := OptNat(0x18, if m.newBlock then 1 else 0) + m3;
            var m1 := OptNat(0x10, m.num) + m2;
            !StartsWith(m3, 0x18) && !StartsWith(m2, 0x10) && !StartsWith(m1, 0x0a)
  {
  }

  /** `RawTxBytes`: the transaction that carries the message. */
  function IndexTx(m: MsgIndex, sequence: nat): bytes {
    RawTx([Any(INDEX_URL, IndexBytes(m))], sequence)
  }

  // ----- Trimming

  datatype Plan = Plan(msg: MsgIndex, txs: seq<bytes>)

  /** Dropping the `n` events already processed; some event must remain if any is dropped. */
  function TrimHead(m: MsgIndex, txs: seq<bytes>, n: nat): Option<Plan> {
    if n == 0 then Some(Plan(m, txs))
    else if n < |txs| then Some(Plan(m.(num := |txs| - n), txs[n..]))
    else None
  }

  /** Keeping exactly the first `n` events; a proper cut keeps at least one and is no longer a full sync. */
  function KeepHead(m: MsgIndex, txs: seq<bytes>, n: nat): Option<Plan> {
    if n == |txs| then Some(Plan(m, txs))
    else if 0 < n < |txs| then Some(Plan(m.(num := n, newBlock := false), txs[..n]))
    else None
  }

  /** How many leading transactions fit in `budget` bytes, taken greedily. */
  function FitCount(txs: seq<bytes>, budget: nat): (n: nat)
    ensures n <= |txs|
  {
    if txs == [] || TxSize(txs[0]) > budget then 0
    else 1 + FitCount(txs[1..], budget - TxSize(txs[0]))
  }

  /** The greedy count is the largest prefix within the budget. */
  lemma {:induction false} FitCountIsLargest(txs: seq<bytes>, budget: nat, k: nat)
    requires k <= |txs|
    ensures TxsSize(txs[..k]) <= budget <==> k <= FitCount(txs, budget)
  {
    if k == 0 {
      assert txs[..0] == [];
    } else {
      assert txs[..k][1..] == txs[1..][..k - 1];
      if TxSize(txs[0]) <= budget {
        FitCountIsLargest(txs[1..], budget - TxSize(txs[0]), k - 1);
      }
    }
  }

  /** Fewer events and a cleared flag never make the message longer. */
  lemma {:induction false} CutShrinks(m: MsgIndex, n: nat, newBlock: bool)
    requires n <= m.num && (newBlock ==> m.newBlock)
    ensures IndexSize(m.(num := n, newBlock := newBlock)) <= IndexSize(m)
  {
    SovIsLength(n);
    SovIsLength(m.num);
    VarintMonotone(n, m.num);
  }

  /** A message that is no longer gives a transaction that is no larger. */
  lemma {:induction false} IndexTxFollowsSize(m: MsgIndex, k: MsgIndex, s: nat)
    requires IndexSize(m) <= IndexSize(k)
    ensures TxSize(IndexTx(m, s)) <= TxSize(IndexTx(k, s))
  {
    IndexSizeIsLength(m);
    IndexSizeIsLength(k);
    SizeFollowsMessage(INDEX_URL, IndexBytes(m), IndexBytes(k), s);
  }

  /**
   * The budget survives the cut: the count is chosen with the message as it was before the cut,
   * yet the message and the events kept after it fit in the same bytes.
   */
  lemma {:induction false} CutFitsBudget(m: MsgIndex, txs: seq<bytes>, s: nat, maxBytes: nat, p: Plan)
    requires m.num == |txs| && TxSize(IndexTx(m, s)) <= maxBytes
    requires KeepHead(m, txs, FitCount(txs, maxBytes - TxSize(IndexTx(m, s)))) == Some(p)
    ensures TxSize(IndexTx(p.msg, s)) + TxsSize(p.txs) <= maxBytes
  {
    var n := FitCount(txs, maxBytes - TxSize(IndexTx(m, s)));
    FitCountIsLargest(txs, maxBytes - TxSize(IndexTx(m, s)), n);
    assert p.txs == txs[..n];
    CutShrinks(m, n, p.msg.newBlock);
    IndexTxFollowsSize(p.msg, m, s);
  }

  /** The message as the handlers hold it, updated in place while events are trimmed. */
  class IndexRef {
    var authority: bytes
    var num: nat
    var newBlock: bool
    var block: nat

    function Value(): MsgIndex
      reads this
    {
      MsgIndex(authority, num, newBlock, block)
    }

    constructor (m: MsgIndex)
      ensures Value() == m
    {
      authority, num, newBlock, block := m.authority, m.num, m.newBlock, m.block;
    }

    /** `TrimEventsFromHead`; the size check after the update never fires. */
    method TrimEventsFromHead(txs: seq<bytes>, n: nat) returns (r: Option<seq<bytes>>)
      requires num == |txs|
      modifies this
      ensures r.None? ==> TrimHead(old(Value()), txs, n).None? && Value() == old(Value())
      ensures r.Some? ==> TrimHead(old(Value()), txs, n) == Some(Plan(Value(), r.value))
    {
      if n == 0 {
        return Some(txs);
      } else if num > 0 && num == n {
        return None;
      } else if n > num {
        return None;
      }
      var before := IndexSize(Value());
      CutShrinks(Value(), |txs| - n, newBlock);
      num := |txs[n..]|;
      if IndexSize(Value()) > before {
        assert false;
        return None;
      }
      return Some(txs[n..]);
    }

    /** `KeepEventsFromHead`; the size check after the update never fires. */
    method KeepEventsFromHead(txs: seq<bytes>, n: nat) returns (r: Option<seq<bytes>>, trimmed: nat)
      requires num == |txs|
      modifies this
      ensures r.None? ==> KeepHead(old(Value()), txs, n).None? && Value() == old(Value())
      ensures r.Some? ==> KeepHead(old(Value()), txs, n) == Some(Plan(Value(), r.value))
      ensures r.Some? ==> trimmed == |txs| - n
    {
      if num == n {
        return Some(txs), 0;
      } else if num > 0 && n == 0 {
        return None, 0;
      } else if num < n {
        return None, 0;
      }
      var before := IndexSize(Value());
      CutShrinks(Value(), n, false);
      trimmed := num - n;
      num := |txs[..n]|;
      newBlock := false;
      if IndexSize(Value()) > before {
        assert false;
        return None, trimmed;
      }
      return Some(txs[..n]), trimmed;
    }

    /** `NumberOfEventsWithMaxBytes`: the counting loop. */
    method NumberOfEventsWithMaxBytes(txs: seq<bytes>, maxBytes: nat, sequence: nat) returns (r: Option<nat>)
      ensures r.None? <==> TxSize(IndexTx(Value(), sequence)) > maxBytes
      ensures r.Some? ==> r.value == FitCount(txs, maxBytes - TxSize(IndexTx(Value(), sequence)))
    {
      var size := TxSize(IndexTx(Value(), sequence));
      if size > maxBytes {
        return None;
      }
      var n := size;
      for i := 0 to |txs|
        invariant n <= maxBytes
        invariant FitCount(txs, maxBytes - size) == i + FitCount(txs[i..], maxBytes - n)
      {
        if n + TxSize(txs[i]) > maxBytes {
          return Some(i);
        }
        assert txs[i..][1..] == txs[i + 1..];
        n := n + TxSize(txs[i]);
      }
      return Some(|txs|);
    }
  }
}
