/** The protobuf codec of the per-block `Index` record. */
module IndexCodec {
  import opened Base
  import opened TxWire
  import opened Varints

  datatype Index = Index(total: uint64, ante: uint64, failed: uint64, unknown: bytes)

  /** The wire form: the three counters by field number, then the unknown fields. */
  function Encoded(x: Index): bytes {
    OptNat(0x08, x.total) + OptNat(0x10, x.ante) + OptNat(0x18, x.failed) + x.unknown
  }

  function FieldSize(v: uint64): nat {
    if v == 0 then 0 else 1 + Sov(v)
  }

  /** The size closure. */
  function Size(x: Index): nat {
    FieldSize(x.total) + FieldSize(x.ante) + FieldSize(x.failed) + |x.unknown|
  }

  /** The computed size is the number of bytes of the wire form. */
  lemma SizeIsLength(x: Index)
    ensures Size(x) == |Encoded(x)|
  {
    SovIsLength(x.total);
    SovIsLength(x.ante);
    SovIsLength(x.failed);
  }

  method WriteField(buf: array<byte>, offset: nat, tag: byte, v: uint64) returns (i: nat)
    requires FieldSize(v) <= offset <= buf.Length
    modifies buf
    ensures i == offset - FieldSize(v)
    ensures buf[i..] == OptNat(tag, v) + old(buf[offset..])
  {
    i := offset;
    if v != 0 {
      i := EncodeVarint(buf, i, v);
      i := i - 1;
      buf[i] := tag;
      assert buf[i..] == [tag] + buf[i + 1..offset] + buf[offset..];
    }
  }

  method WriteUnknown(buf: array<byte>, unknown: bytes) returns (i: nat)
    requires |unknown| <= buf.Length
    modifies buf
    ensures i == buf.Length - |unknown| && buf[i..] == unknown
  {
    i := buf.Length - |unknown|;
    for k := 0 to |unknown|
      invariant forall j :: 0 <= j < k ==> buf[i + j] == unknown[j]
    {
      buf[i + k] := unknown[k];
    }
  }

  /** The marshal closure: fills a buffer of the computed size from its end. */
  method Marshal(x: Index) returns (buf: array<byte>)
    ensures fresh(buf) && buf[..] == Encoded(x)
  {
    SizeIsLength(x);
    buf := new byte[Size(x)](_ => 0);
    var i := WriteUnknown(buf, x.unknown);
    i := WriteField(buf, i, 0x18, x.failed);
    i := WriteField(buf, i, 0x10, x.ante);
    i := WriteField(buf, i, 0x08, x.total);
    assert i == 0 && buf[0..] == buf[..];
    EncodedNested(x);
  }

  lemma EncodedNested(x: Index)
    ensures Encoded(x) == OptNat(0x08, x.total) + (OptNat(0x10, x.ante) + (OptNat(0x18, x.failed) + x.unknown))
  {
  }

  /** `int32(wire >> 3)`, with the truncation to a signed 32-bit word. */
  function FieldNumber(wire: uint64): (num: int)
    ensures -0x8000_0000 <= num < 0x8000_0000 && (wire / 8 - num) % 0x1_0000_0000 == 0
  {
    var low := (wire / 8) % 0x1_0000_0000;
    if low < 0x8000_0000 then low else low - 0x1_0000_0000
  }

  /** `runtime.Skip`: how many bytes one unknown field takes; at least the tag it reads. */
  ghost predicate Skips(skip: bytes -> Option<int>) {
    forall d: bytes :: skip(d).Some? && d != [] ==> skip(d).value != 0
  }

  function Set(x: Index, num: int, v: uint64): Index {
    if num == 1 then x.(total := v) else if num == 2 then x.(ante := v) else x.(failed := v)
  }

  /** What one turn of the unmarshal loop leaves to read, and the record so far. */
  datatype Turn = Turn(rest: bytes, x: Index)

  function ReadField(data: bytes, x: Index, skip: bytes -> Option<int>, discard: bool): (t: Option<Turn>)
    requires Skips(skip) && data != []
    ensures t.Some? ==> |t.value.rest| < |data|
  {
    var tag := ReadVarint(data);
    if tag.None? || tag.value.value % 8 == 4 || FieldNumber(tag.value.value) <= 0 then None
    else
      var num := FieldNumber(tag.value.value);
      if num <= 3 then
        if tag.value.value % 8 != 0 then None
        else
          var v := ReadVarint(tag.value.rest);
          if v.None? then None else Some(Turn(v.value.rest, Set(x, num, v.value.value)))
      else
        var n := skip(data);
        if n.None? || n.value < 0 || n.value > |data| then None
        else
          var unknown := if discard then x.unknown else x.unknown + data[..n.value];
          Some(Turn(data[n.value..], x.(unknown := unknown)))
  }

  /** The unmarshal closure over what is left to read; None is any error. */
  function Decoded(data: bytes, x: Index, skip: bytes -> Option<int>, discard: bool): Option<Index>
    requires Skips(skip)
    decreases |data|
  {
    if data == [] then Some(x)
    else
      var t := ReadField(data, x, skip, discard);
      if t.None? then None else Decoded(t.value.rest, t.value.x, skip, discard)
  }

  method UnmarshalField(data: bytes, i: nat, x: Index, skip: bytes -> Option<int>, discard: bool)
    returns (next: nat, y: Index, ok: bool)
    requires Skips(skip) && i < |data|
    ensures ok <==> ReadField(data[i..], x, skip, discard).Some?
    ensures ok ==> i < next <= |data| && ReadField(data[i..], x, skip, discard) == Some(Turn(data[next..], y))
  {
    y := x;
    var wire, valueAt, read := DecodeVarint(data, i);
    if !read || wire % 8 == 4 || FieldNumber(wire) <= 0 {
      return i, y, false;
    }
    var num := FieldNumber(wire);
    if num <= 3 {
      if wire % 8 != 0 {
        return i, y, false;
      }
      var v;
      v, next, ok := DecodeVarint(data, valueAt);
      y := Set(x, num, v);
    } else {
      var n := skip(data[i..]);
      if n.None? || n.value < 0 || i + n.value > |data| {
        return i, y, false;
      }
      next, ok := i + n.value, true;
      assert data[i..][n.value..] == data[next..];
      assert data[i..][..n.value] == data[i..next];
      if !discard {
        y := x.(unknown := x.unknown + data[i..next]);
      }
    }
  }

  method Unmarshal(data: bytes, skip: bytes -> Option<int>, discard: bool) returns (r: Option<Index>)
    requires Skips(skip)
    ensures r == Decoded(data, Index(0, 0, 0, []), skip, discard)
  {
    var x := Index(0, 0, 0, []);
    var i: nat := 0;
    assert data[0..] == data;
    while i < |data|
      invariant 0 <= i <= |data|
      invariant Decoded(data, Index(0, 0, 0, []), skip, discard) == Decoded(data[i..], x, skip, discard)
      decreases |data| - i
    {
      var next, y, ok := UnmarshalField(data, i, x, skip, discard);
      if !ok {
        return None;
      }
      x, i := y, next;
    }
    return Some(x);
  }

  /** Reading one printed field sets it and moves past it, whatever follows. */
  lemma {:induction false} DecodesField(num: int, v: uint64, tail: bytes, x: Index, skip: bytes -> Option<int>, discard: bool)
    requires Skips(skip) && 1 <= num <= 3
    ensures Decoded(OptNat(8 * num, v) + tail, x, skip, discard)
         == Decoded(tail, if v == 0 then x else Set(x, num, v), skip, discard)
  {
    if v == 0 {
      assert OptNat(8 * num, v) + tail == tail;
    } else {
      var tag := 8 * num;
      assert OptNat(tag, v) + tail == Varint(tag) + (Varint(v) + tail);
      ReadBack(tag, Varint(v) + tail);
      ReadBack(v, tail);
      assert FieldNumber(tag) == num;
      assert ReadField(Varint(tag) + (Varint(v) + tail), x, skip, discard) == Some(Turn(tail, Set(x, num, v)));
    }
  }

  /** Reading one printed record overwrites the counters it carries and keeps the others. */
  lemma {:induction false} DecodesRecord(x: Index, tail: bytes, from: Index, skip: bytes -> Option<int>, discard: bool)
    requires Skips(skip) && x.unknown == []
    ensures Decoded(Encoded(x) + tail, from, skip, discard)
         == Decoded(tail, Index(if x.total == 0 then from.total else x.total,
                                if x.ante == 0 then from.ante else x.ante,
                                if x.failed == 0 then from.failed else x.failed, from.unknown), skip, discard)
  {
    var f1, f2, f3 := OptNat(0x08, x.total), OptNat(0x10, x.ante), OptNat(0x18, x.failed);
    assert Encoded(x) + tail == f1 + (f2 + (f3 + tail));
    var y1 := if x.total == 0 then from else Set(from, 1, x.total);
    var y2 := if x.ante == 0 then y1 else Set(y1, 2, x.ante);
    DecodesField(1, x.total, f2 + (f3 + tail), from, skip, discard);
    DecodesField(2, x.ante, f3 + tail, y1, skip, discard);
    DecodesField(3, x.failed, tail, y2, skip, discard);
  }

  /**
   * When unmarshalling fails, for any bytes: at the first field whose tag does not read, ends a group or
   * numbers no field, whose counter has another wire type or does not read, or which cannot be skipped.
   */
  lemma {:induction false} FailsIff(data: bytes, x: Index, skip: bytes -> Option<int>, discard: bool)
    requires Skips(skip)
    ensures Decoded(data, x, skip, discard).None? <==>
            data != [] &&
            var tag := ReadVarint(data);
            || tag.None?
            || tag.value.value % 8 == 4
            || FieldNumber(tag.value.value) <= 0
            || (FieldNumber(tag.value.value) <= 3 &&
                  (tag.value.value % 8 != 0 || ReadVarint(tag.value.rest).None?
                   || Decoded(ReadVarint(tag.value.rest).value.rest, x, skip, discard).None?))
            || (FieldNumber(tag.value.value) > 3 &&
                  (skip(data).None? || !(0 < skip(data).value <= |data|)
                   || Decoded(data[skip(data).value..], x, skip, discard).None?))
  {
    if data != [] {
      hide FieldNumber, ReadVarint;
      var t := ReadField(data, x, skip, discard);
      if t.Some? {
        FailureIgnoresRecord(t.value.rest, t.value.x, x, skip, discard);
      }
    }
  }

  /** Whether it fails depends on the bytes alone, not on what was read before. */
  lemma {:induction false} FailureIgnoresRecord(data: bytes, x: Index, y: Index, skip: bytes -> Option<int>, discard: bool)
    requires Skips(skip)
    ensures Decoded(data, x, skip, discard).None? <==> Decoded(data, y, skip, discard).None?
    decreases |data|
  {
    if data != [] {
      hide FieldNumber, ReadVarint;
      var t, u := ReadField(data, x, skip, discard), ReadField(data, y, skip, discard);
      if t.Some? {
        FailureIgnoresRecord(t.value.rest, t.value.x, u.value.x, skip, discard);
      }
    }
  }

  /** The bytes start with a field that the record does not know. */
  ghost predicate UnknownField(u: bytes, skip: bytes -> Option<int>) {
    && u != []
    && var tag := ReadVarint(u);
    && tag.Some? && tag.value.value % 8 != 4 && FieldNumber(tag.value.value) > 3
    && skip(u).Some? && 0 < skip(u).value <= |u|
  }

  /** The bytes are a sequence of fields that the record does not know. */
  ghost predicate Unknowns(u: bytes, skip: bytes -> Option<int>)
    decreases |u|
  {
    u == [] || (UnknownField(u, skip) && Unknowns(u[skip(u).value..], skip))
  }

  lemma {:induction false} UnknownsKept(u: bytes, x: Index, skip: bytes -> Option<int>, discard: bool)
    requires Skips(skip) && Unknowns(u, skip)
    ensures Decoded(u, x, skip, discard) == Some(x.(unknown := if discard then x.unknown else x.unknown + u))
    decreases |u|
  {
    if u == [] {
      assert x.unknown + u == x.unknown;
    } else {
      hide FieldNumber, ReadVarint;
      var n := skip(u).value;
      var y := x.(unknown := if discard then x.unknown else x.unknown + u[..n]);
      assert ReadField(u, x, skip, discard) == Some(Turn(u[n..], y));
      UnknownsKept(u[n..], y, skip, discard);
      assert x.unknown + u[..n] + u[n..] == x.unknown + u;
    }
  }

  /** Only unknown fields are kept, so keeping every byte means that there was nothing else. */
  lemma {:induction false} KeptIsUnknown(u: bytes, x: Index, skip: bytes -> Option<int>)
    requires Skips(skip) && Decoded(u, x, skip, false).Some?
    ensures |Decoded(u, x, skip, false).value.unknown| <= |x.unknown| + |u|
    ensures |Decoded(u, x, skip, false).value.unknown| == |x.unknown| + |u| ==> Unknowns(u, skip)
    decreases |u|
  {
    if u != [] {
      hide FieldNumber, ReadVarint;
      var t := ReadField(u, x, skip, false).value;
      KeptIsUnknown(t.rest, t.x, skip);
    }
  }

  /**
   * Round trip: for all counters and all unknown bytes, unmarshalling what marshal wrote gives the record
   * back iff the unknown bytes are a sequence of fields that the record does not know; if these are to be
   * discarded, it gives the record without them.
   */
  lemma {:induction false} RoundTrip(x: Index, skip: bytes -> Option<int>)
    requires Skips(skip)
    ensures Decoded(Encoded(x), Index(0, 0, 0, []), skip, false) == Some(x) <==> Unknowns(x.unknown, skip)
    ensures Unknowns(x.unknown, skip) ==> Decoded(Encoded(x), Index(0, 0, 0, []), skip, true) == Some(x.(unknown := []))
  {
    hide Decoded, Unknowns;
    var known := x.(unknown := []);
    assert Encoded(x) == Encoded(known) + x.unknown;
    DecodesRecord(known, x.unknown, Index(0, 0, 0, []), skip, false);
    DecodesRecord(known, x.unknown, Index(0, 0, 0, []), skip, true);
    if Unknowns(x.unknown, skip) {
      UnknownsKept(x.unknown, known, skip, false);
      UnknownsKept(x.unknown, known, skip, true);
      assert [] + x.unknown == x.unknown;
    } else if Decoded(x.unknown, known, skip, false).Some? {
      KeptIsUnknown(x.unknown, known, skip);
    }
  }

  // ----- Records that were read

  /** The library skips what it reads: at least the tag, and nothing that follows matters. */
  ghost predicate Local(skip: bytes -> Option<int>) {
    forall d: bytes, t: bytes :: skip(d).Some? && 0 < skip(d).value <= |d| && ReadVarint(d).Some? ==>
      && |d| - |ReadVarint(d).value.rest| <= skip(d).value
      && skip(d[..skip(d).value] + t) == skip(d)
  }

  lemma {:induction false} UnknownFieldLocal(u: bytes, t: bytes, skip: bytes -> Option<int>)
    requires Local(skip) && UnknownField(u, skip)
    ensures UnknownField(u[..skip(u).value] + t, skip) && skip(u[..skip(u).value] + t) == skip(u)
  {
    hide FieldNumber;
    var e := u[..skip(u).value] + t;
    var k := |u| - |ReadVarint(u).value.rest|;
    assert u[..k] == e[..k];
    ReadIsLocal(u, e, 0, 0);
  }

  lemma {:induction false} UnknownsAppend(a: bytes, b: bytes, skip: bytes -> Option<int>)
    requires Local(skip) && Unknowns(a, skip) && Unknowns(b, skip)
    ensures Unknowns(a + b, skip)
    decreases |a|
  {
    hide UnknownField;
    if a == [] {
      assert a + b == b;
    } else {
      var n := UnknownLength(a, skip);
      assert a[..n] + (a[n..] + b) == a + b;
      UnknownFieldLocal(a, a[n..] + b, skip);
      UnknownsAppend(a[n..], b, skip);
      assert (a + b)[n..] == a[n..] + b;
    }
  }

  lemma UnknownLength(u: bytes, skip: bytes -> Option<int>) returns (n: nat)
    requires UnknownField(u, skip)
    ensures skip(u) == Some(n) && 0 < n <= |u|
  {
    n := skip(u).value;
  }

  /** What unmarshal keeps as unknown is a sequence of unknown fields. */
  lemma {:induction false} ReadUnknowns(data: bytes, x: Index, skip: bytes -> Option<int>)
    requires Skips(skip) && Local(skip) && Unknowns(x.unknown, skip) && Decoded(data, x, skip, false).Some?
    ensures Unknowns(Decoded(data, x, skip, false).value.unknown, skip)
    decreases |data|
  {
    if data != [] {
      hide FieldNumber, ReadVarint, Local, Unknowns;
      var t := ReadField(data, x, skip, false).value;
      if t.x.unknown != x.unknown {
        var n := skip(data).value;
        assert UnknownField(data, skip);
        OneUnknown(data, skip);
        UnknownsAppend(x.unknown, data[..n], skip);
      }
      ReadUnknowns(t.rest, t.x, skip);
    }
  }

  lemma {:induction false} OneUnknown(u: bytes, skip: bytes -> Option<int>)
    requires Local(skip) && UnknownField(u, skip)
    ensures Unknowns(u[..skip(u).value], skip)
  {
    hide UnknownField;
    var n := UnknownLength(u, skip);
    UnknownFieldLocal(u, [], skip);
    assert u[..n] + [] == u[..n] && u[..n][n..] == [];
  }

  /** So every record that was read survives being written and read again. */
  lemma {:induction false} ReadRoundTrip(data: bytes, skip: bytes -> Option<int>)
    requires Skips(skip) && Local(skip) && Decoded(data, Index(0, 0, 0, []), skip, false).Some?
    ensures var x := Decoded(data, Index(0, 0, 0, []), skip, false).value;
            Decoded(Encoded(x), Index(0, 0, 0, []), skip, false) == Some(x)
  {
    hide Decoded, Encoded, Local;
    ReadUnknowns(data, Index(0, 0, 0, []), skip);
    RoundTrip(Decoded(data, Index(0, 0, 0, []), skip, false).value, skip);
  }
}
