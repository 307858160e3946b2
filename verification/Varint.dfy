/** Base 128 varints: the printer that fills a buffer, its size formula, and the shifting reader. */
module Varints {
  import opened Base

  /** The wire form of `n`: seven bits a byte, least significant group first. */
  function Varint(n: nat): (v: bytes)
    ensures |v| >= 1
  {
    if n < 128 then [n] else [128 + n % 128] + Varint(n / 128)
  }

  /** `bits.Len64`. */
  function BitLen(n: nat): nat {
    if n == 0 then 0 else 1 + BitLen(n / 2)
  }

  /** The generated size formula, `(bits.Len64(x|1) + 6) / 7`. */
  function Sov(n: nat): nat {
    (BitLen(if n % 2 == 0 then n + 1 else n) + 6) / 7
  }

  lemma BitLenShift2(n: nat)
    requires n >= 2
    ensures BitLen(n) == 2 + BitLen(n / 4)
  {
    assert n / 2 / 2 == n / 4;
  }

  lemma {:induction false} BitLenShift7(n: nat)
    requires n >= 128
    ensures BitLen(n) == 7 + BitLen(n / 128)
  {
    BitLenShift2(n);
    BitLenShift2(n / 4);
    BitLenShift2(n / 16);
    assert n / 4 / 4 == n / 16 && n / 16 / 4 == n / 64 && n / 64 / 2 == n / 128;
  }

  /** The size formula counts exactly the bytes the printer writes. */
  lemma {:induction false} SovIsLength(n: nat)
    ensures Sov(n) == |Varint(n)|
    decreases n
  {
    var x := if n % 2 == 0 then n + 1 else n;
    if n < 128 {
      SmallBitLen(x);
    } else {
      BitLenShift7(x);
      SovIsLength(n / 128);
      var y := n / 128;
      var y1 := if y % 2 == 0 then y + 1 else y;
      assert x / 128 == y;
      BitLenOrOne(y);
      assert BitLen(y1) == BitLen(y);
    }
  }

  lemma {:induction false} SmallBitLen(x: nat)
    requires 1 <= x < 128
    ensures 1 <= BitLen(x) <= 7
  {
    assert Shl(1, 5) == 32 by { assert Shl(1, 3) == 8; }
    BitLenBound(x, 7);
  }

  lemma {:induction false} BitLenBound(x: nat, k: nat)
    requires x < Shl(1, k)
    ensures BitLen(x) <= k
  {
    if x > 0 {
      BitLenBound(x / 2, k - 1);
    }
  }

  lemma BitLenOrOne(y: nat)
    requires y > 0
    ensures BitLen(if y % 2 == 0 then y + 1 else y) == BitLen(y)
  {
    var y1 := if y % 2 == 0 then y + 1 else y;
    assert y1 / 2 == y / 2;
  }

  /** A larger number never has a shorter varint. */
  lemma {:induction false} VarintMonotone(a: nat, b: nat)
    requires a <= b
    ensures |Varint(a)| <= |Varint(b)|
  {
    if a >= 128 {
      VarintMonotone(a / 128, b / 128);
    }
  }

  lemma {:induction false} VarintHead(a: nat, x: bytes)
    ensures Varint(a) + x != []
    ensures (Varint(a) + x)[0] == if a < 128 then a else 128 + a % 128
    ensures (Varint(a) + x)[1..] == if a < 128 then x else Varint(a / 128) + x
  {
    if a >= 128 {
      assert Varint(a) == [128 + a % 128] + Varint(a / 128);
    }
  }

  /** Varints are prefix-free: a buffer that starts with one starts with exactly one. */
  lemma {:induction false} VarintPrefixFree(a: nat, b: nat, x: bytes, y: bytes)
    requires Varint(a) + x == Varint(b) + y
    ensures a == b && x == y
  {
    hide Varint;
    VarintHead(a, x);
    VarintHead(b, y);
    if a >= 128 {
      VarintPrefixFree(a / 128, b / 128, x, y);
    }
  }

  /** `runtime.EncodeVarint`: writes the varint of `v` so that it ends just before `offset`. */
  method EncodeVarint(buf: array<byte>, offset: nat, v: uint64) returns (base: nat)
    requires Sov(v) <= offset <= buf.Length
    modifies buf
    ensures base == offset - Sov(v)
    ensures buf[base..offset] == Varint(v)
    ensures buf[..base] == old(buf[..base]) && buf[offset..] == old(buf[offset..])
  {
    SovIsLength(v);
    base := offset - Sov(v);
    var i, w := base, v;
    while w >= 128
      invariant base <= i < offset
      invariant i + |Varint(w)| == offset
      invariant Varint(v) == buf[base..i] + Varint(w)
      invariant forall k :: 0 <= k < base || offset <= k < buf.Length ==> buf[k] == old(buf[k])
      decreases w
    {
      buf[i] := 128 + w % 128;
      WriteStep(buf[base..i], w, Varint(v));
      assert buf[base..i + 1] == buf[base..i] + [128 + w % 128];
      w := w / 128;
      i := i + 1;
    }
    buf[i] := w;
    assert buf[base..offset] == buf[base..i] + [w];
  }

  lemma WriteStep(done: bytes, w: nat, all: bytes)
    requires w >= 128 && all == done + Varint(w)
    ensures all == done + [128 + w % 128] + Varint(w / 128)
  {
  }

  /** A number read, and the bytes after it. */
  datatype Read = Read(value: uint64, rest: bytes)

  /** `v << s`, before any truncation. */
  function Shl(v: nat, s: nat): nat {
    if s == 0 then v else 2 * Shl(v, s - 1)
  }

  /**
   * One turn of the reading loop: `value |= uint64(b & 0x7F) << shift`. The bits of the two
   * operands never overlap, so the disjunction is an addition; the shift drops what passes bit 63,
   * which is the remainder modulo 2^64.
   */
  function Accumulate(acc: uint64, b: byte, shift: nat): uint64 {
    (acc + Shl(b % 128, shift)) % TWO64
  }

  /** The reading loop, at most ten bytes. */
  function ReadFrom(data: bytes, shift: nat, acc: uint64): (r: Option<Read>)
    ensures r.Some? ==> |r.value.rest| < |data|
    decreases |data|
  {
    if shift >= 64 || data == [] then None
    else
      var acc' := Accumulate(acc, data[0], shift);
      if data[0] < 128 then Some(Read(acc', data[1..])) else ReadFrom(data[1..], shift + 7, acc')
  }

  function ReadVarint(data: bytes): (r: Option<Read>)
    ensures r.Some? ==> |r.value.rest| < |data|
  {
    ReadFrom(data, 0, 0)
  }

  /** The same loop over an index into the buffer; `next` is where the reader stops. */
  method DecodeVarint(data: bytes, i: nat) returns (value: uint64, next: nat, ok: bool)
    requires i <= |data|
    ensures ok <==> ReadVarint(data[i..]).Some?
    ensures ok ==> i < next <= |data| && ReadVarint(data[i..]) == Some(Read(value, data[next..]))
  {
    var shift: nat := 0;
    value, next := 0, i;
    while true
      invariant i <= next <= |data|
      invariant ReadVarint(data[i..]) == ReadFrom(data[next..], shift, value)
      decreases |data| - next
    {
      if shift >= 64 || next >= |data| {
        return value, next, false;
      }
      var b := data[next];
      assert data[next..][1..] == data[next + 1..];
      value := Accumulate(value, b, shift);
      next := next + 1;
      if b < 128 {
        return value, next, true;
      }
      shift := shift + 7;
    }
  }

  /** A varint fails to read iff it does not end within the data or within ten bytes. */
  lemma {:induction false} ReadFailsIff(data: bytes, shift: nat, acc: uint64, n: nat)
    requires shift == 7 * n && n <= 10
    ensures ReadFrom(data, shift, acc).None? <==>
            forall k :: 0 <= k < |data| && n + k < 10 ==> data[k] >= 128
    decreases |data|
  {
    if shift < 64 && data != [] {
      var rest := data[1..];
      if data[0] >= 128 {
        ReadFailsIff(rest, shift + 7, Accumulate(acc, data[0], shift), n + 1);
        assert forall k :: 1 <= k < |data| ==> data[k] == rest[k - 1];
        assert forall k :: 0 <= k < |rest| ==> rest[k] == data[k + 1];
      }
    }
  }

  /** What is read depends only on the bytes that are read. */
  lemma {:induction false} ReadIsLocal(d: bytes, e: bytes, shift: nat, acc: uint64)
    requires ReadFrom(d, shift, acc).Some?
    requires var k := |d| - |ReadFrom(d, shift, acc).value.rest|; k <= |e| && d[..k] == e[..k]
    ensures var r := ReadFrom(d, shift, acc).value;
            ReadFrom(e, shift, acc) == Some(Read(r.value, e[|d| - |r.rest|..]))
    decreases |d|
  {
    var k := |d| - |ReadFrom(d, shift, acc).value.rest|;
    assert d[0] == d[..k][0] == e[..k][0] == e[0];
    if d[0] >= 128 {
      assert d[1..][..k - 1] == d[..k][1..] && e[1..][..k - 1] == e[..k][1..];
      ReadIsLocal(d[1..], e[1..], shift + 7, Accumulate(acc, d[0], shift));
    }
  }

  /** Reading back what was printed yields the number, for every uint64 and whatever follows. */
  lemma {:induction false} ReadBack(v: uint64, tail: bytes)
    ensures ReadVarint(Varint(v) + tail) == Some(Read(v, tail))
  {
    ReadBackFrom(0, 0, v, tail);
  }

  lemma {:induction false} ReadBackFrom(shift: nat, acc: uint64, v: uint64, tail: bytes)
    requires shift < 64 && acc < Shl(1, shift)
    requires acc + Shl(v, shift) < TWO64
    ensures ReadFrom(Varint(v) + tail, shift, acc) == Some(Read(acc + Shl(v, shift), tail))
    decreases v
  {
    hide ReadFrom, Accumulate, Shl;
    if v < 128 {
      ReadLast(v, tail, shift, acc);
    } else {
      NextGroup(shift, acc, v);
      var b := 128 + v % 128;
      assert Varint(v) + tail == [b] + (Varint(v / 128) + tail);
      ReadMore(b, Varint(v / 128) + tail, shift, acc);
      ReadBackFrom(shift + 7, Accumulate(acc, b, shift), v / 128, tail);
    }
  }

  lemma {:induction false} ReadLast(b: byte, tail: bytes, shift: nat, acc: uint64)
    requires b < 128 && shift < 64 && acc + Shl(b, shift) < TWO64
    ensures ReadFrom([b] + tail, shift, acc) == Some(Read(acc + Shl(b, shift), tail))
  {
    assert ([b] + tail)[1..] == tail;
    AccumulateExact(acc, b, shift);
  }

  lemma {:induction false} ReadMore(b: byte, rest: bytes, shift: nat, acc: uint64)
    requires b >= 128 && shift < 64
    ensures ReadFrom([b] + rest, shift, acc) == ReadFrom(rest, shift + 7, Accumulate(acc, b, shift))
  {
    assert ([b] + rest)[1..] == rest;
  }

  /** The arithmetic of one more group: the low seven bits join the accumulator, the rest moves up. */
  lemma {:induction false} NextGroup(shift: nat, acc: uint64, v: nat)
    requires shift < 64 && acc < Shl(1, shift) && v >= 128
    requires acc + Shl(v, shift) < TWO64
    ensures shift + 7 < 64
    ensures Accumulate(acc, 128 + v % 128, shift) < Shl(1, shift + 7)
    ensures Accumulate(acc, 128 + v % 128, shift) + Shl(v / 128, shift + 7) == acc + Shl(v, shift)
  {
    var lo, hi := v % 128, v / 128;
    ShlAdd(lo, 128 * hi, shift);
    AccumulateExact(acc, 128 + lo, shift);
    Shl7(hi, shift);
    Shl7(1, shift);
    ShlMonotone(lo, 127, shift);
    ShlAdd(127, 1, shift);
    if shift >= 57 {
      ShlMonotone(1, hi, shift + 7);
      ShlGrows(64, shift + 7);
      Shl64();
    }
  }

  lemma {:induction false} AccumulateExact(acc: uint64, b: byte, shift: nat)
    requires acc + Shl(b % 128, shift) < TWO64
    ensures Accumulate(acc, b, shift) == acc + Shl(b % 128, shift)
  {
  }

  lemma {:induction false} ShlAdd(a: nat, b: nat, s: nat)
    ensures Shl(a + b, s) == Shl(a, s) + Shl(b, s)
  {
    if s > 0 {
      ShlAdd(a, b, s - 1);
    }
  }

  lemma {:induction false} ShlMonotone(a: nat, b: nat, s: nat)
    requires a <= b
    ensures Shl(a, s) <= Shl(b, s)
  {
    if s > 0 {
      ShlMonotone(a, b, s - 1);
    }
  }

  lemma {:induction false} ShlGrows(s: nat, t: nat)
    requires s <= t
    ensures Shl(1, s) <= Shl(1, t)
    decreases t
  {
    if s < t {
      ShlGrows(s, t - 1);
    }
  }

  lemma {:induction false} Shl7(v: nat, s: nat)
    ensures Shl(v, s + 7) == Shl(128 * v, s)
  {
    if s == 0 {
      assert Shl(v, 1) == 2 * v;
      assert Shl(v, 3) == 8 * v;
      assert Shl(v, 5) == 32 * v;
    } else {
      Shl7(v, s - 1);
    }
  }

  lemma {:induction false} Shl64()
    ensures Shl(1, 64) == TWO64
  {
    Shl7(1, 57);
    Shl7(128, 50);
    Shl7(0x4000, 43);
    Shl7(0x20_0000, 36);
    Shl7(0x1000_0000, 29);
    Shl7(0x8_0000_0000, 22);
    Shl7(0x400_0000_0000, 15);
    Shl7(0x2_0000_0000_0000, 8);
    Shl7(0x100_0000_0000_0000, 1);
  }
}
