/** Block heights as 32-byte words, the way the Go service and the Python script both produce them. */
module Encoding {
  import opened Base

  // ----- Hexadecimal text

  function Digit(d: nat): char
    requires d < 16
  {
    "0123456789abcdef"[d]
  }

  /** `strconv.FormatUint(n, 16)` and `format(n, 'x')`. */
  function Hex(n: nat): (s: string)
    ensures |s| >= 1
  {
    if n < 16 then [Digit(n)] else Hex(n / 16) + [Digit(n % 16)]
  }

  function EvenHex(n: nat): string {
    if |Hex(n)| % 2 == 1 then "0" + Hex(n) else Hex(n)
  }

  /** The value of one hexadecimal character of either case. */
  function Nibble(c: char): Option<nat> {
    if '0' <= c <= '9' then Some(c as int - '0' as int)
    else if 'a' <= c <= 'f' then Some(c as int - 'a' as int + 10)
    else if 'A' <= c <= 'F' then Some(c as int - 'A' as int + 10)
    else None
  }

  /** `hex.DecodeString` and `binascii.unhexlify`: two characters a byte. */
  function Unhex(s: string): Option<bytes> {
    if s == "" then Some([])
    else if |s| == 1 then None
    else
      var init := Unhex(s[..|s| - 2]);
      var hi, lo := Nibble(s[|s| - 2]), Nibble(s[|s| - 1]);
      if init.None? || hi.None? || lo.None? || hi.value > 15 || lo.value > 15 then None
      else Some(init.value + [16 * hi.value + lo.value])
  }

  // ----- Padding

  function Zeros(n: nat): bytes {
    seq(n, _ => 0)
  }

  /** Left padding to `length` bytes; longer input is an error. */
  function Padded(b: bytes, length: nat): Option<bytes> {
    if |b| > length then None else Some(Zeros(length - |b|) + b)
  }

  /** `padBytes`: a zeroed buffer with the bytes copied to its end. */
  method PadBytes(b: bytes, length: nat) returns (r: Option<bytes>)
    ensures r == Padded(b, length)
  {
    var l := |b|;
    if l > length {
      return None;
    }
    if l == length {
      assert Zeros(0) + b == b;
      return Some(b);
    }
    var tmp := new byte[length](_ => 0);
    for i := 0 to l
      invariant forall k :: 0 <= k < length - l ==> tmp[k] == 0
      invariant forall k :: 0 <= k < i ==> tmp[length - l + k] == b[k]
    {
      tmp[length - l + i] := b[i];
    }
    assert tmp[..] == Zeros(length - l) + b;
    return Some(tmp[..]);
  }

  /** `To32PaddedHexBytes`. */
  method To32PaddedHexBytes(number: uint64) returns (r: Option<bytes>)
    ensures r == Word(number)
  {
    var hexRepresentation := Hex(number);
    if |hexRepresentation| % 2 == 1 {
      hexRepresentation := "0" + hexRepresentation;
    }
    var hexBytes := Unhex(hexRepresentation);
    if hexBytes.None? {
      return None;
    }
    r := PadBytes(hexBytes.value, 32);
  }

  /** The Python script's version; its `format` writes a sign before a negative number. */
  method PythonTo32PaddedHexBytes(number: int) returns (r: Option<bytes>)
    ensures number >= 0 ==> r == Word(number)
    ensures number < 0 ==> r.None?
  {
    hide Hex, Unhex, Nibble;
    var hexRepresentation := if number < 0 then "-" + Hex(-number) else Hex(number);
    if |hexRepresentation| % 2 == 1 {
      hexRepresentation := "0" + hexRepresentation;
    }
    if number < 0 {
      SignedFails(-number);
    }
    var hexBytes := Unhex(hexRepresentation);
    if hexBytes.None? {
      return None;
    }
    var missing := if |hexBytes.value| < 32 then 32 - |hexBytes.value| else 0;
    var padded := Zeros(missing) + hexBytes.value;
    if |padded| != 32 {
      return None;
    }
    return Some(padded);
  }

  /** The word: hexadecimal text made even, decoded and padded; None if any step fails. */
  function Word(n: nat): Option<bytes> {
    var b := Unhex(EvenHex(n));
    if b.None? then None else Padded(b.value, 32)
  }

  // ----- What it means

  /** The shortest big-endian form. */
  function Shortest(n: nat): (b: bytes)
    ensures |b| >= 1
  {
    if n < 256 then [n] else Shortest(n / 256) + [n % 256]
  }

  /** The number a big-endian byte string stands for. */
  function Value(b: bytes): nat {
    if b == [] then 0 else 256 * Value(b[..|b| - 1]) + b[|b| - 1]
  }

  lemma NibbleOfDigit(d: nat)
    requires d < 16
    ensures Nibble(Digit(d)) == Some(d)
  {
  }

  lemma {:induction false} HexStep(n: nat)
    requires n >= 256
    ensures Hex(n) == Hex(n / 256) + [Digit(n / 16 % 16), Digit(n % 16)]
  {
    assert n / 16 / 16 == n / 256;
    assert Hex(n / 16) == Hex(n / 256) + [Digit(n / 16 % 16)];
  }

  lemma {:induction false} EvenHexStep(n: nat)
    requires n >= 256
    ensures EvenHex(n) == EvenHex(n / 256) + [Digit(n / 16 % 16), Digit(n % 16)]
  {
    hide Hex, Digit;
    HexStep(n);
  }

  lemma {:induction false} UnhexPair(s: string, hi: nat, lo: nat)
    requires hi < 16 && lo < 16 && Unhex(s).Some?
    ensures Unhex(s + [Digit(hi), Digit(lo)]) == Some(Unhex(s).value + [16 * hi + lo])
  {
    hide Digit, Nibble;
    var t := s + [Digit(hi), Digit(lo)];
    assert t[..|t| - 2] == s;
    NibbleOfDigit(hi);
    NibbleOfDigit(lo);
  }

  lemma {:induction false} EvenHexByte(n: nat)
    requires n < 256
    ensures EvenHex(n) == [Digit(n / 16), Digit(n % 16)]
  {
    if n >= 16 {
      assert Hex(n / 16) == [Digit(n / 16)];
    }
  }

  /** Decoding the text of a number gives its shortest big-endian form. */
  lemma {:induction false} UnhexIsShortest(n: nat)
    ensures Unhex(EvenHex(n)) == Some(Shortest(n))
  {
    hide Digit, EvenHex, Nibble;
    if n < 256 {
      EvenHexByte(n);
      assert "" + EvenHex(n) == EvenHex(n);
      UnhexPair("", n / 16, n % 16);
      assert Unhex("").value + [n] == [n];
    } else {
      UnhexIsShortest(n / 256);
      EvenHexStep(n);
      UnhexPair(EvenHex(n / 256), n / 16 % 16, n % 16);
      assert 16 * (n / 16 % 16) + n % 16 == n % 256;
    }
  }

  lemma {:induction false} ShortestValue(n: nat)
    ensures Value(Shortest(n)) == n
  {
    var b := Shortest(n);
    if n < 256 {
      assert b[..0] == [];
    } else {
      assert b[..|b| - 1] == Shortest(n / 256);
      ShortestValue(n / 256);
    }
  }

  function Pow256(k: nat): nat {
    if k == 0 then 1 else 256 * Pow256(k - 1)
  }

  lemma {:induction false} ShortestLength(n: nat, k: nat)
    requires k >= 1
    ensures |Shortest(n)| <= k <==> n < Pow256(k)
    decreases k
  {
    if k == 1 {
      assert Pow256(1) == 256;
    } else if n >= 256 {
      ShortestLength(n / 256, k - 1);
      assert n / 256 < Pow256(k - 1) <==> n < 256 * Pow256(k - 1);
    } else {
      Pow256Grows(k);
    }
  }

  lemma {:induction false} Pow256Grows(k: nat)
    requires k >= 1
    ensures Pow256(k) >= 256
  {
    if k > 1 {
      Pow256Grows(k - 1);
    }
  }

  lemma {:induction false} ValueOfPadded(z: nat, b: bytes)
    ensures Value(Zeros(z) + b) == Value(b)
  {
    if b == [] {
      ValueOfZeros(z);
      assert Zeros(z) + b == Zeros(z);
    } else {
      var t := Zeros(z) + b;
      assert t[..|t| - 1] == Zeros(z) + b[..|b| - 1];
      ValueOfPadded(z, b[..|b| - 1]);
    }
  }

  lemma {:induction false} ValueOfZeros(z: nat)
    ensures Value(Zeros(z)) == 0
  {
    if z > 0 {
      assert Zeros(z)[..z - 1] == Zeros(z - 1);
      ValueOfZeros(z - 1);
    }
  }

  /**
   * Height encoding: for every number, the word exists iff the number is below 256^32, and then it is
   * 32 bytes whose big-endian value is the number -- the ABI encoding of a uint256.
   */
  lemma {:induction false} WordIsUint256(n: nat)
    ensures Word(n).Some? <==> n < Pow256(32)
    ensures Word(n).Some? ==> |Word(n).value| == 32 && Value(Word(n).value) == n
  {
    hide Pow256, Unhex, EvenHex, Shortest, Value;
    UnhexIsShortest(n);
    ShortestLength(n, 32);
    if |Shortest(n)| <= 32 {
      ValueOfPadded(32 - |Shortest(n)|, Shortest(n));
      ShortestValue(n);
    }
  }

  /** No uint64 is ever refused. */
  lemma {:induction false} EveryHeightEncodes(n: uint64)
    ensures Word(n).Some?
  {
    WordIsUint256(n);
    Pow256Bigger();
  }

  lemma {:induction false} Pow256Bigger()
    ensures Pow256(32) > TWO64
  {
    assert Pow256(2) == 0x1_0000;
    assert Pow256(4) == 0x1_0000_0000;
    assert Pow256(6) == 0x1_0000_0000_0000;
    assert Pow256(8) == TWO64;
    Pow256Monotone(9, 32);
  }

  lemma {:induction false} Pow256Monotone(a: nat, b: nat)
    requires a <= b
    ensures Pow256(a) <= Pow256(b)
    decreases b
  {
    if a < b {
      Pow256Monotone(a, b - 1);
    }
  }

  /** A sign is no hexadecimal digit, so a negative number is always refused. */
  lemma {:induction false} SignedFails(n: nat)
    ensures var s := "-" + Hex(n);
            Unhex(if |s| % 2 == 1 then "0" + s else s).None?
  {
    var s := "-" + Hex(n);
    if |s| % 2 == 1 {
      assert ("0" + s)[1] == '-';
      BadDigit("0" + s, 1);
    } else {
      BadDigit(s, 0);
    }
  }

  lemma {:induction false} BadDigit(s: string, i: nat)
    requires i < |s| && Nibble(s[i]).None?
    ensures Unhex(s).None?
    decreases |s|
  {
    if |s| >= 2 && i < |s| - 2 {
      BadDigit(s[..|s| - 2], i);
    }
  }
}
