/** Bit vectors as sequences of bits, least significant bit first, and the few
    operations on them that the checker relies on. */
module BitVectors {

  type Bits = seq<bool>

  /** A byte, as its eight bits. */
  datatype Byte = Byte(b0: bool, b1: bool, b2: bool, b3: bool, b4: bool, b5: bool, b6: bool, b7: bool) {
    function Bits(): (v: seq<bool>)
      ensures |v| == 8
    {
      [b0, b1, b2, b3, b4, b5, b6, b7]
    }
  }

  const ZERO_BYTE := Byte(false, false, false, false, false, false, false, false)

  const TWO_TO_THE_32: int := 0x1_0000_0000
  const TWO_TO_THE_64: int := 0x1_0000_0000_0000_0000

  type U32 = x: int | 0 <= x < TWO_TO_THE_32
  type U64 = x: int | 0 <= x < TWO_TO_THE_64

  datatype Option<+T> = None | Some(value: T)

  /** Truncation or zero extension to n bits. */
  function Resize(v: Bits, n: nat): (r: Bits)
    ensures |r| == n
    ensures forall i :: 0 <= i < n ==> r[i] == (i < |v| && v[i])
  {
    seq(n, i requires 0 <= i => i < |v| && v[i])
  }

  lemma ResizeSame(v: Bits)
    ensures Resize(v, |v|) == v
  {
  }

  /** v with the bits lo, ..., hi-1 set to zero. */
  function ClearRange(v: Bits, lo: nat, hi: nat): (r: Bits)
    ensures |r| == |v|
    ensures forall i :: 0 <= i < |v| ==> r[i] == (v[i] && !(lo <= i < hi))
  {
    seq(|v|, i requires 0 <= i < |v| => v[i] && !(lo <= i < hi))
  }

  /** The 64-bit word (v >> shift) & (2^width - 1). */
  function Field(v: Bits, shift: nat, width: nat): (r: Bits)
    ensures |r| == 64
    ensures forall i :: 0 <= i < 64 ==> r[i] == (i < width && shift + i < |v| && v[shift + i])
  {
    seq(64, i requires 0 <= i => i < width && shift + i < |v| && v[shift + i])
  }

  /** Both vectors have the same bit b; behind its end a vector has zeros. */
  predicate SameBit(s: Bits, t: Bits, b: int) {
    (0 <= b < |s| && s[b]) == (0 <= b < |t| && t[b])
  }

  predicate IsZero(v: Bits) {
    forall i :: 0 <= i < |v| ==> !v[i]
  }

  /** The first n bits of little-endian data. */
  function FromBytesLE(data: seq<Byte>, n: nat): (r: Bits)
    requires n <= 8 * |data|
    ensures |r| == n
  {
    seq(n, i requires 0 <= i < n => data[i / 8].Bits()[i % 8])
  }

  /** The eight bits of v that start at position i, padded with zeros. */
  function ByteOf(v: Bits, i: nat): Byte
    requires i <= |v|
  {
    var w := Resize(v[i..], 8);
    Byte(w[0], w[1], w[2], w[3], w[4], w[5], w[6], w[7])
  }

  /** The bytes that hold v, least significant byte first; the last one is padded with zeros. */
  function ToBytesLE(v: Bits): (r: seq<Byte>)
    ensures |r| == (|v| + 7) / 8
  {
    seq((|v| + 7) / 8, j requires 0 <= j < (|v| + 7) / 8 => ByteOf(v, 8 * j))
  }

  function Reverse<T>(s: seq<T>): (r: seq<T>)
    ensures |r| == |s|
    ensures forall i :: 0 <= i < |s| ==> r[i] == s[|s| - 1 - i]
  {
    seq(|s|, i requires 0 <= i < |s| => s[|s| - 1 - i])
  }

  function Pow2(n: nat): (p: nat)
    ensures p > 0
  {
    if n == 0 then 1 else 2 * Pow2(n - 1)
  }

  function ToNat(v: Bits): (n: nat)
    ensures n < Pow2(|v|)
  {
    if |v| == 0 then 0 else (if v[0] then 1 else 0) + 2 * ToNat(v[1..])
  }

  function FromNat(n: nat, len: nat): (v: Bits)
    ensures |v| == len
  {
    if len == 0 then [] else [n % 2 == 1] + FromNat(n / 2, len - 1)
  }

  lemma {:induction false} NatRoundTrip(n: nat, len: nat)
    requires n < Pow2(len)
    ensures ToNat(FromNat(n, len)) == n
  {
    if len > 0 {
      NatRoundTrip(n / 2, len - 1);
      assert FromNat(n, len)[1..] == FromNat(n / 2, len - 1);
    }
  }

  /** Zero extension keeps the number. */
  lemma {:induction false} ResizeUp(v: Bits, len: nat)
    requires |v| <= len
    ensures ToNat(Resize(v, len)) == ToNat(v)
  {
    if len > 0 {
      if |v| == 0 {
        ResizeUp(v, len - 1);
        assert Resize(v, len)[1..] == Resize(v, len - 1);
      } else {
        ResizeUp(v[1..], len - 1);
        assert Resize(v, len)[1..] == Resize(v[1..], len - 1);
      }
    }
  }

  /** rz_bv_to_ut64: the low 64 bits as a number. */
  function ToU64(v: Bits): (n: U64)
  {
    assert Pow2(64) == TWO_TO_THE_64 by { Pow2Of64(); }
    ToNat(Resize(v, 64))
  }

  lemma Pow2Of64()
    ensures Pow2(64) == TWO_TO_THE_64
  {
    assert Pow2(8) == 0x100;
    assert Pow2(16) == 0x1_0000;
    assert Pow2(24) == 0x100_0000;
    assert Pow2(32) == 0x1_0000_0000;
    assert Pow2(40) == 0x100_0000_0000;
    assert Pow2(48) == 0x1_0000_0000_0000;
    assert Pow2(56) == 0x100_0000_0000_0000;
  }

  // ----- Bits and numbers

  /** Bits behind others count from their position on. */
  lemma {:induction false} NumberOfConcat(v: Bits, w: Bits)
    ensures ToNat(v + w) == ToNat(v) + Pow2(|v|) * ToNat(w)
  {
    if v == [] {
      assert v + w == w;
    } else {
      NumberOfConcat(v[1..], w);
      assert (v + w)[1..] == v[1..] + w;
      TwiceProduct(Pow2(|v| - 1), ToNat(w));
    }
  }

  lemma TwiceProduct(x: nat, y: nat)
    ensures 2 * (x * y) == (2 * x) * y
  {
  }

  /** Low and high part of a number. */
  lemma NumberOfParts(v: Bits, n: nat)
    requires n <= |v|
    ensures ToNat(v[..n]) == ToNat(v) % Pow2(n)
    ensures ToNat(v[n..]) == ToNat(v) / Pow2(n)
  {
    assert v == v[..n] + v[n..];
    NumberOfConcat(v[..n], v[n..]);
    QuotientAndRemainder(ToNat(v), Pow2(n), ToNat(v[n..]), ToNat(v[..n]));
  }

  lemma QuotientAndRemainder(x: nat, d: nat, q: nat, r: nat)
    requires x == r + d * q && r < d
    ensures x / d == q && x % d == r
  {
    if q < x / d {
      LargerProduct(d, q, x / d);
    } else if x / d < q {
      LargerProduct(d, x / d, q);
    }
  }

  lemma LargerProduct(d: nat, q: nat, q': nat)
    requires q < q'
    ensures d * q + d <= d * q'
  {
    var k := q' - q - 1;
    assert d * q' == d * (q + 1 + k) == d * q + d + d * k;
  }

  lemma SmallNumber(x: nat, d: nat)
    requires x < d
    ensures x / d == 0 && x % d == x
  {
    QuotientAndRemainder(x, d, 0, x);
  }

  lemma {:induction false} Pow2Monotone(m: nat, n: nat)
    requires m <= n
    ensures Pow2(m) <= Pow2(n)
  {
    if m < n { Pow2Monotone(m, n - 1); }
  }

  /** Truncation is a remainder. */
  lemma NumberOfResize(v: Bits, n: nat)
    ensures ToNat(Resize(v, n)) == ToNat(v) % Pow2(n)
  {
    if n <= |v| {
      assert Resize(v, n) == v[..n];
      NumberOfParts(v, n);
    } else {
      ResizeUp(v, n);
      Pow2Monotone(|v|, n);
      SmallNumber(ToNat(v), Pow2(n));
    }
  }

  lemma NumberModU64(v: Bits)
    ensures ToU64(v) == ToNat(v) % TWO_TO_THE_64
  {
    NumberOfResize(v, 64);
    Pow2Of64();
  }

  /** A shift drops low bits, also more than there are. */
  lemma NumberOfShift(v: Bits, s: nat)
    ensures ToNat(if s <= |v| then v[s..] else []) == ToNat(v) / Pow2(s)
  {
    if s <= |v| {
      NumberOfParts(v, s);
    } else {
      Pow2Monotone(|v|, s);
      SmallNumber(ToNat(v), Pow2(s));
    }
  }

  /** A field is a quotient and a remainder. */
  lemma NumberOfField(v: Bits, shift: nat, width: nat)
    requires width <= 64
    ensures ToNat(Field(v, shift, width)) == ToNat(v) / Pow2(shift) % Pow2(width)
  {
    var w := if shift <= |v| then v[shift..] else [];
    NumberOfShift(v, shift);
    assert Field(v, shift, width) == Resize(Resize(w, width), 64);
    NumberOfResize(w, width);
    ResizeUp(Resize(w, width), 64);
  }

  /** Vectors of the same size are equal when their numbers are. */
  lemma {:induction false} SameNumberSameBits(v: Bits, w: Bits)
    requires |v| == |w|
    ensures ToNat(v) == ToNat(w) <==> v == w
  {
    if v != [] && ToNat(v) == ToNat(w) {
      SameNumberSameBits(v[1..], w[1..]);
      assert v == [v[0]] + v[1..] && w == [w[0]] + w[1..];
    }
  }

  lemma {:induction false} ZeroHasNoBits(v: Bits)
    ensures IsZero(v) <==> ToNat(v) == 0
  {
    if v != [] {
      ZeroHasNoBits(v[1..]);
      assert forall i :: 0 < i < |v| ==> v[i] == v[1..][i - 1];
    }
  }

  /** The number that bytes spell, the first one counting least. */
  function LittleEndian(data: seq<Byte>): nat {
    if data == [] then 0 else ToNat(data[0].Bits()) + 256 * LittleEndian(data[1..])
  }

  lemma {:induction false} NumberOfBytes(data: seq<Byte>)
    ensures ToNat(FromBytesLE(data, 8 * |data|)) == LittleEndian(data)
  {
    var v := FromBytesLE(data, 8 * |data|);
    if data != [] {
      var w := FromBytesLE(data[1..], 8 * |data[1..]|);
      forall i | 0 <= i < |v| ensures v[i] == (data[0].Bits() + w)[i] {
        if i >= 8 { assert (i - 8) / 8 == i / 8 - 1 && (i - 8) % 8 == i % 8; }
      }
      assert v == data[0].Bits() + w;
      NumberOfConcat(data[0].Bits(), w);
      assert Pow2(8) == 256;
      NumberOfBytes(data[1..]);
    }
  }

  lemma NumberOfBytesLE(data: seq<Byte>, n: nat)
    requires n <= 8 * |data|
    ensures ToNat(FromBytesLE(data, n)) == LittleEndian(data) % Pow2(n)
  {
    assert FromBytesLE(data, n) == Resize(FromBytesLE(data, 8 * |data|), n);
    NumberOfResize(FromBytesLE(data, 8 * |data|), n);
    NumberOfBytes(data);
  }

  lemma U64RoundTrip(x: U64)
    ensures ToNat(FromNat(x, 64)) == x
  {
    Pow2Of64();
    NatRoundTrip(x, 64);
  }

  /** A number that is stored in n bits loses what does not fit. */
  lemma StoredNumber(x: U64, n: nat)
    ensures ToU64(Resize(FromNat(x, 64), n)) == x % Pow2(n)
  {
    var v := FromNat(x, 64);
    assert ToNat(Resize(v, n)) == x % Pow2(n) by {
      U64RoundTrip(x);
      NumberOfResize(v, n);
    }
    NumberModU64(Resize(v, n));
    RemainderIsLess(x, Pow2(n));
    SmallNumber(x % Pow2(n), TWO_TO_THE_64);
  }

  lemma RemainderIsLess(x: nat, d: nat)
    requires d > 0
    ensures x % d <= x
  {
    if x < d { SmallNumber(x, d); }
  }
}
