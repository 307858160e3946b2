/**
 * The wire form of the transactions that consensus injects: protobuf messages packed in an Any,
 * wrapped in a Cosmos SDK TxRaw that carries a sequence and a zero gas limit.
 */
module TxWire {
  import opened Base
  import opened Varints

  datatype Any = Any(typeUrl: bytes, value: bytes)

  /** A length-delimited field that is always written (repeated or embedded messages). */
  function LenDelim(tag: byte, payload: bytes): bytes {
    [tag] + (Varint(|payload|) + payload)
  }

  /** A length-delimited proto3 scalar; empty is left out. */
  function OptBytes(tag: byte, payload: bytes): bytes {
    if payload == [] then [] else LenDelim(tag, payload)
  }

  /** A varint proto3 scalar; zero is left out. */
  function OptNat(tag: byte, v: nat): bytes {
    if v == 0 then [] else [tag] + Varint(v)
  }

  function AnyBytes(a: Any): bytes {
    OptBytes(0x0a, a.typeUrl) + OptBytes(0x12, a.value)
  }

  function TxBody(msgs: seq<Any>): bytes {
    if msgs == [] then [] else LenDelim(0x0a, AnyBytes(msgs[0])) + TxBody(msgs[1..])
  }

  /** One signer with the given sequence, and a fee whose gas limit is zero. */
  function AuthInfo(sequence: nat): bytes {
    LenDelim(0x0a, OptNat(0x18, sequence)) + LenDelim(0x12, [])
  }

  /** `ValidRawTxBytesFromAnyMsgs`. */
  function RawTx(msgs: seq<Any>, sequence: nat): bytes {
    OptBytes(0x0a, TxBody(msgs)) + OptBytes(0x12, AuthInfo(sequence))
  }

  /** `TxSize`: the bytes a transaction takes inside CometBFT's block data. */
  function TxSize(tx: bytes): nat {
    1 + Sov(|tx|) + |tx|
  }

  function TxsSize(txs: seq<bytes>): nat {
    if txs == [] then 0 else TxSize(txs[0]) + TxsSize(txs[1..])
  }

  lemma {:induction false} TxsSizeAppend(a: seq<bytes>, b: seq<bytes>)
    ensures TxsSize(a + b) == TxsSize(a) + TxsSize(b)
  {
    if a == [] {
      assert a + b == b;
    } else {
      assert (a + b)[1..] == a[1..] + b;
      TxsSizeAppend(a[1..], b);
    }
  }

  lemma {:induction false} TxsSizePrefix(txs: seq<bytes>, n: nat)
    requires n < |txs|
    ensures TxsSize(txs[..n + 1]) == TxsSize(txs[..n]) + TxSize(txs[n])
  {
    assert txs[..n + 1] == txs[..n] + [txs[n]];
    TxsSizeAppend(txs[..n], [txs[n]]);
    assert TxsSize([txs[n]]) == TxSize(txs[n]) + TxsSize([]);
  }

  /** CometBFT's block data: one length-delimited field a transaction, empty ones included. */
  function BlockData(txs: seq<bytes>): bytes {
    if txs == [] then [] else LenDelim(0x0a, txs[0]) + BlockData(txs[1..])
  }

  /** The sizes that are budgeted are the bytes the transactions take in a block. */
  lemma {:induction false} TxsSizeIsBlockData(txs: seq<bytes>)
    ensures TxsSize(txs) == |BlockData(txs)|
  {
    if txs != [] {
      SovIsLength(|txs[0]|);
      TxsSizeIsBlockData(txs[1..]);
    }
  }

  lemma {:induction false} TxSizeIsBlockData(tx: bytes)
    ensures TxSize(tx) == |BlockData([tx])|
  {
    TxsSizeIsBlockData([tx]);
    assert [tx][1..] == [] && TxsSize([tx]) == TxSize(tx) + TxsSize([]);
  }

  /** `TxsSize`, the accumulating loop. */
  method ComputeTxsSize(txs: seq<bytes>) returns (size: nat)
    ensures size == TxsSize(txs) == |BlockData(txs)|
  {
    TxsSizeIsBlockData(txs);
    size := 0;
    for i := 0 to |txs|
      invariant size == TxsSize(txs[..i])
    {
      TxsSizePrefix(txs, i);
      size := size + TxSize(txs[i]);
    }
    assert txs[..|txs|] == txs;
  }

  // ----- No two (messages, sequence) pairs share a transaction.

  ghost predicate StartsWith(x: bytes, tag: byte) {
    x != [] && x[0] == tag
  }

  lemma {:induction false} LenDelimPrefixFree(tag: byte, a: bytes, b: bytes, x: bytes, y: bytes)
    requires LenDelim(tag, a) + x == LenDelim(tag, b) + y
    ensures a == b && x == y
  {
    assert (LenDelim(tag, a) + x)[1..] == Varint(|a|) + (a + x);
    assert (LenDelim(tag, b) + y)[1..] == Varint(|b|) + (b + y);
    VarintPrefixFree(|a|, |b|, a + x, b + y);
    assert a == (a + x)[..|a|] && b == (b + y)[..|b|];
    assert x == (a + x)[|a|..] && y == (b + y)[|b|..];
  }

  lemma {:induction false} OptBytesPrefixFree(tag: byte, a: bytes, b: bytes, x: bytes, y: bytes)
    requires OptBytes(tag, a) + x == OptBytes(tag, b) + y
    requires !StartsWith(x, tag) && !StartsWith(y, tag)
    ensures a == b && x == y
  {
    var l, r := OptBytes(tag, a) + x, OptBytes(tag, b) + y;
    if a == [] {
      assert l == x;
    } else {
      assert l[0] == tag;
    }
    if b == [] {
      assert r == y;
    } else {
      assert r[0] == tag;
    }
    if a != [] && b != [] {
      LenDelimPrefixFree(tag, a, b, x, y);
    }
  }

  lemma {:induction false} TaggedPrefixFree(tag: byte, a: nat, b: nat, x: bytes, y: bytes)
    requires [tag] + Varint(a) + x == [tag] + Varint(b) + y
    ensures a == b && x == y
  {
    assert ([tag] + Varint(a) + x)[1..] == Varint(a) + x;
    assert ([tag] + Varint(b) + y)[1..] == Varint(b) + y;
    VarintPrefixFree(a, b, x, y);
  }

  lemma {:induction false} OptNatPrefixFree(tag: byte, a: nat, b: nat, x: bytes, y: bytes)
    requires OptNat(tag, a) + x == OptNat(tag, b) + y
    requires !StartsWith(x, tag) && !StartsWith(y, tag)
    ensures a == b && x == y
  {
    var l, r := OptNat(tag, a) + x, OptNat(tag, b) + y;
    assert if a == 0 then l == x else StartsWith(l, tag);
    assert if b == 0 then r == y else StartsWith(r, tag);
    if a != 0 && b != 0 {
      TaggedPrefixFree(tag, a, b, x, y);
    }
  }

  lemma {:induction false} AnyInjective(a: Any, b: Any)
    requires AnyBytes(a) == AnyBytes(b)
    ensures a == b
  {
    OptBytesPrefixFree(0x0a, a.typeUrl, b.typeUrl, OptBytes(0x12, a.value), OptBytes(0x12, b.value));
    assert OptBytes(0x12, a.value) + [] == OptBytes(0x12, b.value) + [];
    OptBytesPrefixFree(0x12, a.value, b.value, [], []);
  }

  lemma {:induction false} BodyInjective(a: seq<Any>, b: seq<Any>)
    requires TxBody(a) == TxBody(b)
    ensures a == b
  {
    if a != [] && b != [] {
      LenDelimPrefixFree(0x0a, AnyBytes(a[0]), AnyBytes(b[0]), TxBody(a[1..]), TxBody(b[1..]));
      AnyInjective(a[0], b[0]);
      BodyInjective(a[1..], b[1..]);
      assert a == [a[0]] + a[1..] && b == [b[0]] + b[1..];
    }
  }

  lemma {:induction false} AuthInfoInjective(s: nat, t: nat)
    requires AuthInfo(s) == AuthInfo(t)
    ensures s == t
  {
    LenDelimPrefixFree(0x0a, OptNat(0x18, s), OptNat(0x18, t), LenDelim(0x12, []), LenDelim(0x12, []));
    assert OptNat(0x18, s) + [] == OptNat(0x18, t) + [];
    OptNatPrefixFree(0x18, s, t, [], []);
  }

  /** The bytes determine the messages and the sequence: a fresh sequence makes a fresh transaction. */
  lemma {:induction false} RawTxInjective(a: seq<Any>, s: nat, b: seq<Any>, t: nat)
    requires RawTx(a, s) == RawTx(b, t)
    ensures a == b && s == t
  {
    OptBytesPrefixFree(0x0a, TxBody(a), TxBody(b), OptBytes(0x12, AuthInfo(s)), OptBytes(0x12, AuthInfo(t)));
    assert OptBytes(0x12, AuthInfo(s)) + [] == OptBytes(0x12, AuthInfo(t)) + [];
    OptBytesPrefixFree(0x12, AuthInfo(s), AuthInfo(t), [], []);
    BodyInjective(a, b);
    AuthInfoInjective(s, t);
  }

  /** Of two one-message transactions of the same type and sequence, the longer message is the larger. */
  lemma {:induction false} SizeFollowsMessage(url: bytes, v: bytes, w: bytes, s: nat)
    requires |v| <= |w|
    ensures TxSize(RawTx([Any(url, v)], s)) <= TxSize(RawTx([Any(url, w)], s))
  {
    var a, b := Any(url, v), Any(url, w);
    VarintMonotone(|v|, |w|);
    assert |AnyBytes(a)| <= |AnyBytes(b)|;
    VarintMonotone(|AnyBytes(a)|, |AnyBytes(b)|);
    OneMessage(a);
    OneMessage(b);
    VarintMonotone(|TxBody([a])|, |TxBody([b])|);
    assert |RawTx([a], s)| <= |RawTx([b], s)|;
    SovIsLength(|RawTx([a], s)|);
    SovIsLength(|RawTx([b], s)|);
    VarintMonotone(|RawTx([a], s)|, |RawTx([b], s)|);
  }

  lemma OneMessage(a: Any)
    ensures TxBody([a]) == LenDelim(0x0a, AnyBytes(a))
  {
    assert [a][1..] == [];
    assert LenDelim(0x0a, AnyBytes(a)) + [] == LenDelim(0x0a, AnyBytes(a));
  }
}
