/**
 * The wire forms read back by a reader that knows nothing but the protobuf encoding: base 128 varints, tags
 * of a field number and a wire type, and length-delimited payloads.
 */
module WireForms {
  import opened Base
  import opened Varints
  import opened TxWire
  import opened MsgIndexes
  import opened Events
  import Codec = IndexCodec

  datatype WireField = Number(num: nat, value: nat) | Payload(num: nat, payload: bytes)

  /** A varint read without a limit on its size: seven bits a byte, the lowest first. */
  function Unvarint(b: bytes): (r: Option<(nat, bytes)>)
    ensures r.Some? ==> |r.value.1| < |b|
  {
    if b == [] then None
    else if b[0] < 128 then Some((b[0], b[1..]))
    else
      var r := Unvarint(b[1..]);
      if r.None? then None else Some((b[0] - 128 + 128 * r.value.0, r.value.1))
  }

  function Onto(f: WireField, rest: Option<seq<WireField>>): Option<seq<WireField>> {
    if rest.None? then None else Some([f] + rest.value)
  }

  /** The fields of a message, in the order they are written. */
  function FieldsOf(b: bytes): Option<seq<WireField>>
    decreases |b|
  {
    if b == [] then Some([])
    else
      var tag := Unvarint(b);
      var next := if tag.None? then None else Unvarint(tag.value.1);
      if next.None? then None
      else
        var num, wire := tag.value.0 / 8, tag.value.0 % 8;
        var n, rest := next.value.0, next.value.1;
        if wire == 0 then Onto(Number(num, n), FieldsOf(rest))
        else if wire == 2 && n <= |rest| then Onto(Payload(num, rest[..n]), FieldsOf(rest[n..]))
        else None
  }

  /** The varint is the base 128 form: reading it back yields the number, of whatever size, and the rest. */
  lemma {:induction false} UnvarintBack(n: nat, tail: bytes)
    ensures Unvarint(Varint(n) + tail) == Some((n, tail))
  {
    hide Varint;
    VarintHead(n, tail);
    if n >= 128 {
      UnvarintBack(n / 128, tail);
    }
  }

  lemma {:induction false} UnvarintTag(tag: byte, tail: bytes)
    requires tag < 128
    ensures Unvarint([tag] + tail) == Some((tag, tail))
  {
    assert ([tag] + tail)[1..] == tail;
  }

  lemma {:induction false} ReadsNumber(num: nat, v: nat, rest: bytes)
    requires 1 <= num <= 15
    ensures FieldsOf([8 * num] + Varint(v) + rest) == Onto(Number(num, v), FieldsOf(rest))
  {
    hide Varint, Unvarint;
    assert [8 * num] + Varint(v) + rest == [8 * num] + (Varint(v) + rest);
    UnvarintTag(8 * num, Varint(v) + rest);
    UnvarintBack(v, rest);
  }

  lemma {:induction false} ReadsPayload(num: nat, p: bytes, rest: bytes)
    requires 1 <= num <= 15
    ensures FieldsOf(LenDelim(8 * num + 2, p) + rest) == Onto(Payload(num, p), FieldsOf(rest))
  {
    hide Varint, Unvarint;
    var b := LenDelim(8 * num + 2, p) + rest;
    assert b == [8 * num + 2] + (Varint(|p|) + (p + rest));
    UnvarintTag(8 * num + 2, Varint(|p|) + (p + rest));
    UnvarintBack(|p|, p + rest);
    assert (p + rest)[..|p|] == p && (p + rest)[|p|..] == rest;
    assert (8 * num + 2) / 8 == num && (8 * num + 2) % 8 == 2;
  }

  // ----- Scalars that proto3 leaves out when they have their default value

  /** The fields that are not default. */
  function Present(fs: seq<WireField>): seq<WireField> {
    if fs == [] then []
    else if (fs[0].Number? && fs[0].value == 0) || (fs[0].Payload? && fs[0].payload == []) then Present(fs[1..])
    else [fs[0]] + Present(fs[1..])
  }

  function WriteScalar(f: WireField): bytes
    requires 1 <= f.num <= 15
  {
    if f.Number? then OptNat(8 * f.num, f.value) else OptBytes(8 * f.num + 2, f.payload)
  }

  ghost predicate Scalars(fs: seq<WireField>) {
    forall i :: 0 <= i < |fs| ==> 1 <= fs[i].num <= 15
  }

  function Written(fs: seq<WireField>): bytes
    requires Scalars(fs)
  {
    if fs == [] then [] else WriteScalar(fs[0]) + Written(fs[1..])
  }

  /** Reading what was written yields the fields that are not default. */
  lemma {:induction false} WrittenReads(fs: seq<WireField>)
    requires Scalars(fs)
    ensures FieldsOf(Written(fs)) == Some(Present(fs))
  {
    hide FieldsOf, Varint, LenDelim;
    if fs == [] {
      Nothing();
    } else {
      var f, rest := fs[0], Written(fs[1..]);
      WrittenReads(fs[1..]);
      if f.Number? && f.value != 0 {
        ReadsNumber(f.num, f.value, rest);
      } else if f.Payload? && f.payload != [] {
        ReadsPayload(f.num, f.payload, rest);
      } else {
        assert [] + rest == rest;
      }
    }
  }

  lemma Nothing()
    ensures FieldsOf([]) == Some([])
  {
  }

  lemma {:induction false} WrittenCons(f: WireField, fs: seq<WireField>)
    requires 1 <= f.num <= 15 && Scalars(fs)
    ensures Scalars([f] + fs) && Written([f] + fs) == WriteScalar(f) + Written(fs)
  {
    assert ([f] + fs)[1..] == fs;
  }

  // ----- The messages

  /** MsgIndex: authority, number of events, new-block flag and Ethereum block are fields 1 to 4. */
  lemma {:induction false} IndexFields(m: MsgIndex)
    ensures FieldsOf(IndexBytes(m)) == Some(Present([
              Payload(1, m.authority), Number(2, m.num), Number(3, if m.newBlock then 1 else 0), Number(4, m.block)]))
  {
    hide FieldsOf, Present, OptNat, OptBytes;
    var a, b, c, d := Payload(1, m.authority), Number(2, m.num), Number(3, if m.newBlock then 1 else 0), Number(4, m.block);
    WrittenReads([a, b, c, d]);
    assert [a, b, c, d] == [a] + ([b] + ([c] + ([d] + [])));
    WrittenCons(d, []);
    WrittenCons(c, [d] + []);
    WrittenCons(b, [c] + ([d] + []));
    WrittenCons(a, [b] + ([c] + ([d] + [])));
    assert OptNat(0x20, m.block) + [] == OptNat(0x20, m.block);
  }

  /** MsgSupplyDelta: the authority is field 1. */
  lemma {:induction false} SupplyDeltaFields(authority: bytes)
    ensures SupplyDeltaAny(authority).typeUrl == Ascii("/fuelsequencer.bridge.v1.MsgSupplyDelta")
    ensures FieldsOf(SupplyDeltaAny(authority).value) == Some(Present([Payload(1, authority)]))
  {
    hide FieldsOf, Present, OptBytes;
    var a := Payload(1, authority);
    WrittenReads([a]);
    assert [a] == [a] + [];
    WrittenCons(a, []);
    assert OptBytes(0x0a, authority) + [] == OptBytes(0x0a, authority);
  }

  /** MsgSkippedEventTx: authority, reason, Ethereum block, log index, transaction index and hash are fields 1 to 6. */
  lemma {:induction false} SkippedFields(authority: bytes, reason: bytes, block: nat, e: Event)
    ensures SkipAny(authority, reason, block, e).typeUrl == Ascii("/fuelsequencer.bridge.v1.MsgSkippedEventTx")
    ensures FieldsOf(SkipAny(authority, reason, block, e).value) == Some(Present([
              Payload(1, authority), Payload(2, TrimReason(reason)), Number(3, block),
              Number(4, e.logIndex), Number(5, e.txIndex), Payload(6, e.txHash)]))
  {
    hide FieldsOf, Present, OptNat, OptBytes, TrimReason, Ascii;
    var a, b, c := Payload(1, authority), Payload(2, TrimReason(reason)), Number(3, block);
    var d, f, g := Number(4, e.logIndex), Number(5, e.txIndex), Payload(6, e.txHash);
    WrittenReads([a, b, c, d, f, g]);
    var s4, s3 := [g] + [], [f] + ([g] + []);
    var s2 := [d] + s3;
    var s1 := [c] + s2;
    var s0 := [b] + s1;
    assert [a, b, c, d, f, g] == [a] + s0;
    WrittenCons(g, []);
    WrittenCons(f, s4);
    WrittenCons(d, s3);
    WrittenCons(c, s2);
    WrittenCons(b, s1);
    WrittenCons(a, s0);
    assert WriteScalar(g) + [] == WriteScalar(g);
  }

  /** The per-block Index: total, seen and failed are fields 1 to 3. */
  lemma {:induction false} RecordFields(x: Codec.Index)
    requires x.unknown == []
    ensures FieldsOf(Codec.Encoded(x)) == Some(Present([Number(1, x.total), Number(2, x.ante), Number(3, x.failed)]))
  {
    hide FieldsOf, Present, OptNat;
    var a, b, c := Number(1, x.total), Number(2, x.ante), Number(3, x.failed);
    WrittenReads([a, b, c]);
    assert [a, b, c] == [a] + ([b] + ([c] + []));
    WrittenCons(c, []);
    WrittenCons(b, [c] + []);
    WrittenCons(a, [b] + ([c] + []));
    Codec.EncodedNested(x);
  }

  // ----- Transactions and blocks

  /** A wrapped message: its type is field 1 and its bytes are field 2. */
  lemma {:induction false} AnyFields(a: Any)
    ensures FieldsOf(AnyBytes(a)) == Some(Present([Payload(1, a.typeUrl), Payload(2, a.value)]))
  {
    hide FieldsOf, Present, OptBytes;
    var x, y := Payload(1, a.typeUrl), Payload(2, a.value);
    WrittenReads([x, y]);
    assert [x, y] == [x] + ([y] + []);
    WrittenCons(y, []);
    WrittenCons(x, [y] + []);
    assert OptBytes(0x12, a.value) + [] == OptBytes(0x12, a.value);
  }

  function EachAny(msgs: seq<Any>): seq<WireField> {
    if msgs == [] then [] else [Payload(1, AnyBytes(msgs[0]))] + EachAny(msgs[1..])
  }

  function EachTx(txs: seq<bytes>): seq<WireField> {
    if txs == [] then [] else [Payload(1, txs[0])] + EachTx(txs[1..])
  }

  /** The body holds the wrapped messages, in order, each as field 1. */
  lemma {:induction false} BodyFields(msgs: seq<Any>)
    ensures FieldsOf(TxBody(msgs)) == Some(EachAny(msgs))
  {
    hide FieldsOf, LenDelim, AnyBytes;
    if msgs == [] {
      Nothing();
    } else {
      BodyFields(msgs[1..]);
      ReadsPayload(1, AnyBytes(msgs[0]), TxBody(msgs[1..]));
    }
  }

  /** One signer, whose sequence is field 3, and a fee that leaves its gas limit at zero. */
  lemma {:induction false} AuthFields(sequence: nat)
    ensures FieldsOf(AuthInfo(sequence)) == Some([Payload(1, OptNat(0x18, sequence)), Payload(2, [])])
    ensures FieldsOf(OptNat(0x18, sequence)) == Some(Present([Number(3, sequence)]))
  {
    hide FieldsOf, LenDelim, OptNat, Present;
    ReadsPayload(1, OptNat(0x18, sequence), LenDelim(0x12, []));
    assert LenDelim(0x12, []) + [] == LenDelim(0x12, []);
    ReadsPayload(2, [], []);
    Nothing();
    assert [Payload(1, OptNat(0x18, sequence))] + ([Payload(2, [])] + []) == [Payload(1, OptNat(0x18, sequence)), Payload(2, [])];
    var x := Number(3, sequence);
    WrittenReads([x]);
    assert [x] == [x] + [];
    WrittenCons(x, []);
    assert OptNat(0x18, sequence) + [] == OptNat(0x18, sequence);
  }

  /** A transaction: the body is field 1, the signer and fee are field 2, and there are no signatures. */
  lemma {:induction false} RawTxFields(msgs: seq<Any>, sequence: nat)
    ensures FieldsOf(RawTx(msgs, sequence)) == Some(Present([Payload(1, TxBody(msgs)), Payload(2, AuthInfo(sequence))]))
  {
    hide FieldsOf, Present, OptBytes, TxBody, AuthInfo;
    var x, y := Payload(1, TxBody(msgs)), Payload(2, AuthInfo(sequence));
    WrittenReads([x, y]);
    assert [x, y] == [x] + ([y] + []);
    WrittenCons(y, []);
    WrittenCons(x, [y] + []);
    assert OptBytes(0x12, AuthInfo(sequence)) + [] == OptBytes(0x12, AuthInfo(sequence));
  }

  /** Block data holds the transactions, in order, each as field 1. */
  lemma {:induction false} BlockDataFields(txs: seq<bytes>)
    ensures FieldsOf(BlockData(txs)) == Some(EachTx(txs))
  {
    hide FieldsOf, LenDelim;
    if txs == [] {
      Nothing();
    } else {
      BlockDataFields(txs[1..]);
      ReadsPayload(1, txs[0], BlockData(txs[1..]));
    }
  }
}
