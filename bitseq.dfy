/**
 * Bit sequences: the abstract view of what the bit stream holds.
 *
 * A bit sequence is written most-significant bit first, exactly as the QR
 * standard (ISO/IEC 18004, section 6.4) lays out mode indicators, character
 * counts and data.  `NatBits(v, w)` is "the low w bits of v, MSB first";
 * `BitsToNat` reads such a field back.  Bytes are `bv8`, and `ByteBit(b, k)`
 * is bit k of b counted from the most significant end.
 */
module BitSeq {

  /** Go's `uint8`, as a number; `Byte` turns it into the bits the stream writes. */
  type uint8 = x: nat | x < 256

  function Pow2(n: nat): (r: nat)
    ensures r >= 1
  {
    if n == 0 then 1 else 2 * Pow2(n - 1)
  }

  /** The low `w` bits of `v`, most significant first. */
  function NatBits(v: nat, w: nat): (r: seq<bool>)
    ensures |r| == w
  {
    if w == 0 then [] else NatBits(v / 2, w - 1) + [v % 2 == 1]
  }

  /** The value of a most-significant-first bit field. */
  function BitsToNat(b: seq<bool>): (r: nat)
    ensures r < Pow2(|b|)
  {
    if b == [] then 0 else 2 * BitsToNat(b[..|b| - 1]) + (if b[|b| - 1] then 1 else 0)
  }

  /** Go's `uint8(x)` conversion: the low eight bits of `x` (see `ByteValue`). */
  function Byte(x: nat): bv8
  {
    ByteOf(x, 8)
  }

  /** The low `w` bits of `x` as a byte, built from the least significant bit up. */
  function ByteOf(x: nat, w: nat): bv8
    decreases w
  {
    if w == 0 then 0 else (ByteOf(x / 2, w - 1) << 1) | (if x % 2 == 1 then 1 else 0)
  }

  /** The byte with only bit `k` set, counting from the most significant bit (k = 0). */
  function BitMask(k: nat): bv8
    requires k < 8
  {
    if k == 0 then 0x80 else if k == 1 then 0x40 else if k == 2 then 0x20 else if k == 3 then 0x10
    else if k == 4 then 0x08 else if k == 5 then 0x04 else if k == 6 then 0x02 else 0x01
  }

  /** Bit `k` of a byte, counting from the most significant bit (k = 0). */
  function ByteBit(b: bv8, k: nat): bool
    requires k < 8
  {
    b & BitMask(k) != 0
  }

  /** Go's `x << k` on a byte: bits moved past the top are lost. */
  function ShiftLeft(x: bv8, k: nat): bv8
    decreases k
  {
    if k == 0 then x else ShiftLeft(x << 1, k - 1)
  }

  /** Go's `x >> k` on a byte: bits moved past the bottom are lost. */
  function ShiftRight(x: bv8, k: nat): bv8
    decreases k
  {
    if k == 0 then x else ShiftRight(x >> 1, k - 1)
  }

  lemma ShlOneBit(x: bv8, r: nat)
    requires r < 8
    ensures ByteBit(x << 1, r) == (r < 7 && ByteBit(x, r + 1))
  {
    if r < 7 {
    }
  }

  /** Bit `r` of `x << k` is bit `r + k` of `x`, or zero past the end. */
  lemma {:induction false} ShlBit(x: bv8, k: nat, r: nat)
    requires r < 8
    ensures ByteBit(ShiftLeft(x, k), r) == (r + k < 8 && ByteBit(x, r + k))
    decreases k
  {
    if k > 0 {
      ShlBit(x << 1, k - 1, r);
      if r + k - 1 < 8 {
        ShlOneBit(x, r + k - 1);
      }
    }
  }

  lemma ShrOneBit(x: bv8, r: nat)
    requires r < 8
    ensures ByteBit(x >> 1, r) == (r >= 1 && ByteBit(x, r - 1))
  {
    if r >= 1 {
      ByteBitShift(x, r);
    }
  }

  /** Bit `r` of `x >> k` is bit `r - k` of `x`, or zero before the start. */
  lemma {:induction false} ShrBit(x: bv8, k: nat, r: nat)
    requires r < 8
    ensures ByteBit(ShiftRight(x, k), r) == (r >= k && ByteBit(x, r - k))
    decreases k
  {
    if k > 0 {
      ShrBit(x >> 1, k - 1, r);
      if r >= k - 1 {
        ShrOneBit(x, r - k + 1);
      }
    }
  }

  lemma OrBit(a: bv8, x: bv8, k: nat)
    requires k < 8
    ensures ByteBit(a | x, k) == (ByteBit(a, k) || ByteBit(x, k))
  {
  }

  lemma AndBit(a: bv8, x: bv8, k: nat)
    requires k < 8
    ensures ByteBit(a & x, k) == (ByteBit(a, k) && ByteBit(x, k))
  {
  }

  /** The eight bits of a byte, most significant first. */
  function ByteBits(b: bv8): (r: seq<bool>)
    ensures |r| == 8
  {
    LowBits(b, 8)
  }

  /** The low `w` bits of a byte, most significant first. */
  function LowBits(b: bv8, w: nat): (r: seq<bool>)
    requires w <= 8
    ensures |r| == w
  {
    if w == 0 then [] else [ByteBit(b, 8 - w)] + LowBits(b, w - 1)
  }

  /** The bits of a byte sequence, byte by byte, each byte MSB first. */
  function BytesBits(s: seq<bv8>): (r: seq<bool>)
    ensures |r| == 8 * |s|
  {
    if s == [] then [] else BytesBits(s[..|s| - 1]) + ByteBits(s[|s| - 1])
  }

  /** Bit `i` of a byte sequence is bit `i % 8` of byte `i / 8`. */
  lemma {:induction false} BytesBitsIndex(s: seq<bv8>, i: nat)
    requires i < 8 * |s|
    ensures BytesBits(s)[i] == ByteBit(s[i / 8], i % 8)
  {
    var p := s[..|s| - 1];
    if i < 8 * |p| {
      BytesBitsIndex(p, i);
      assert s[i / 8] == p[i / 8];
    } else {
      assert i / 8 == |p| && i % 8 == i - 8 * |p|;
      ByteBitsIndex(s[|s| - 1], i % 8);
    }
  }

  lemma ByteBitsIndex(b: bv8, j: nat)
    requires j < 8
    ensures ByteBits(b)[j] == ByteBit(b, j)
  {
    LowBitsIndex(b, 8, j);
  }

  /** Bit `k` of the low `w` bits is byte bit `8 - w + k`. */
  lemma {:induction false} LowBitsIndex(b: bv8, w: nat, k: nat)
    requires k < w <= 8
    ensures LowBits(b, w)[k] == ByteBit(b, 8 - w + k)
  {
    if k > 0 {
      LowBitsIndex(b, w - 1, k - 1);
    }
  }

  /** The low bits of a byte are the field of its value. */
  lemma LowBitsValue(b: bv8, w: nat)
    requires w <= 8
    ensures LowBits(b, w) == NatBits(b as nat, w)
  {
    var l, f := LowBits(b, w), NatBits(b as nat, w);
    forall k | 0 <= k < w
      ensures l[k] == f[k]
    {
      LowBitsIndex(b, w, k);
      NatBitsOfByte(b, w, k);
    }
  }

  lemma DivDiv(v: nat, n: nat)
    ensures v / 2 / Pow2(n) == v / Pow2(n + 1)
  {
    var p := Pow2(n);
    var q := v / 2 / p;
    var r := v / 2 % p;
    assert v / 2 == q * p + r;
    assert v == 2 * q * p + 2 * r + v % 2;
    assert 2 * r + v % 2 < 2 * p;
    assert Pow2(n + 1) == 2 * p;
    DivUnique(v, 2 * p, q, 2 * r + v % 2);
  }

  lemma DivUnique(v: nat, d: nat, q: nat, r: nat)
    requires d > 0 && r < d && v == q * d + r
    ensures v / d == q && v % d == r
  {
    var q', r' := v / d, v % d;
    assert q' * d + r' == q * d + r;
    assert (q' - q) * d == r - r';
    if q' > q {
      MulAtLeast(q' - q, d);
    } else if q > q' {
      MulAtLeast(q - q', d);
    }
  }

  /** v mod 2p, computed from v / 2 mod p and the last bit of v. */
  lemma ModStep(v: nat, p: nat)
    requires p > 0
    ensures v % (2 * p) == 2 * ((v / 2) % p) + v % 2
  {
    var q, r := v / 2 / p, v / 2 % p;
    DivMod(v / 2, p);
    Regroup(v, q, p, r);
    DivUnique(v, 2 * p, q, 2 * r + v % 2);
  }

  lemma DivMod(a: nat, d: nat)
    requires d > 0
    ensures a == (a / d) * d + a % d && a % d < d
  {
  }

  lemma Regroup(v: nat, q: nat, p: nat, r: nat)
    requires v / 2 == q * p + r
    ensures v == q * (2 * p) + (2 * r + v % 2)
  {
  }

  lemma {:induction false} MulAtLeast(a: int, d: int)
    requires a >= 1 && d >= 0
    ensures a * d >= d
  {
    if a > 1 {
      MulAtLeast(a - 1, d);
      assert a * d == (a - 1) * d + d;
    }
  }

  /** Reading a field back gives the low `w` bits of the value written. */
  lemma {:induction false} BitsToNatOfNatBits(v: nat, w: nat)
    ensures BitsToNat(NatBits(v, w)) == v % Pow2(w)
  {
    if w > 0 {
      var b := NatBits(v, w);
      assert b[..w - 1] == NatBits(v / 2, w - 1);
      BitsToNatOfNatBits(v / 2, w - 1);
      ModStep(v, Pow2(w - 1));
    }
  }

  /** Every bit field is the field of its own value. */
  lemma {:induction false} NatBitsOfBitsToNat(b: seq<bool>)
    ensures NatBits(BitsToNat(b), |b|) == b
  {
    if b != [] {
      var w := |b|;
      var v := BitsToNat(b);
      assert v / 2 == BitsToNat(b[..w - 1]);
      NatBitsOfBitsToNat(b[..w - 1]);
      assert b == b[..w - 1] + [b[w - 1]];
    }
  }

  /** A field depends on the value only modulo 2^w. */
  lemma {:induction false} NatBitsMod(v: nat, q: nat, w: nat)
    ensures NatBits(v + q * Pow2(w), w) == NatBits(v, w)
  {
    if w > 0 {
      var p := Pow2(w - 1);
      assert v + q * Pow2(w) == v + 2 * (q * p);
      assert (v + q * Pow2(w)) / 2 == v / 2 + q * p;
      assert (v + q * Pow2(w)) % 2 == v % 2;
      NatBitsMod(v / 2, q, w - 1);
    }
  }

  /** Bit `j` of `ByteOf(x, w)` is the matching bit of the field `NatBits(x, w)`. */
  lemma {:induction false} ByteOfBit(x: nat, w: nat, j: nat)
    requires w <= 8 && 8 - w <= j < 8
    ensures ByteBit(ByteOf(x, w), j) == NatBits(x, w)[j + w - 8]
    decreases w
  {
    if w > 0 {
      var f := NatBits(x / 2, w - 1);
      assert NatBits(x, w) == f + [x % 2 == 1];
      ByteOfStep(x, w, j);
      if j < 7 {
        ByteOfBit(x / 2, w - 1, j + 1);
        assert NatBits(x, w)[j + w - 8] == f[j + w - 8];
      }
    }
  }

  /** The last bit of `ByteOf(x, w)` is the parity of `x`; the others come from `ByteOf(x / 2, w - 1)`. */
  lemma ByteOfStep(x: nat, w: nat, j: nat)
    requires 1 <= w && j < 8
    ensures ByteBit(ByteOf(x, w), j) == if j == 7 then x % 2 == 1 else ByteBit(ByteOf(x / 2, w - 1), j + 1)
  {
    var y: bv8, b: bv8 := ByteOf(x / 2, w - 1), if x % 2 == 1 then 1 else 0;
    OrBit(y << 1, b, j);
    ShlOneBit(y, j);
  }

  /** Go's `uint8` conversion keeps every field of up to eight bits. */
  lemma ByteLowBits(x: nat, w: nat)
    requires w <= 8
    ensures LowBits(Byte(x), w) == NatBits(x, w)
  {
    forall k | 0 <= k < w
      ensures LowBits(Byte(x), w)[k] == NatBits(x, w)[k]
    {
      ByteLowBitAt(x, w, k);
    }
  }

  /** One bit of `ByteLowBits`: bit `k` of the low `w` bits, read through the byte. */
  lemma ByteLowBitAt(x: nat, w: nat, k: nat)
    requires k < w <= 8
    ensures LowBits(Byte(x), w)[k] == NatBits(x, w)[k]
  {
    var g, h := NatBits(Shr(x, w), 8 - w), NatBits(x, w);
    NatBitsSplit(x, 8 - w, w);
    assert NatBits(x, 8) == g + h;
    LowBitsIndex(Byte(x), w, k);
    ByteOfBit(x, 8, 8 - w + k);
    AppendIndex(g, h, k);
  }

  lemma AppendIndex<T>(g: seq<T>, h: seq<T>, k: nat)
    requires k < |h|
    ensures (g + h)[|g| + k] == h[k]
  {
  }

  /** `uint8(x)` is `x mod 256`. */
  lemma ByteValue(x: nat)
    ensures Byte(x) as nat == x % 256
  {
    var b := Byte(x);
    var v := b as nat;
    LowBitsValue(b, 8);
    ByteLowBits(x, 8);
    assert NatBits(v, 8) == NatBits(x, 8);
    BitsToNatOfNatBits(v, 8);
    BitsToNatOfNatBits(x, 8);
    assert Pow2(8) == 256;
    SmallMod(v, x);
  }

  lemma SmallMod(v: nat, x: nat)
    requires v < 256 && v % 256 == x % 256
    ensures v == x % 256
  {
  }

  /** Go's `v >> n` on an unsigned value. */
  function Shr(v: nat, n: nat): (r: nat)
  {
    if n == 0 then v else Shr(v / 2, n - 1)
  }

  /** Splitting a field: the high `a` bits followed by the low `b` bits. */
  lemma {:induction false} NatBitsSplit(v: nat, a: nat, b: nat)
    ensures NatBits(v, a + b) == NatBits(Shr(v, b), a) + NatBits(v, b)
  {
    if b > 0 {
      NatBitsSplit(v / 2, a, b - 1);
      var hi, lo := NatBits(Shr(v, b), a), NatBits(v / 2, b - 1);
      assert NatBits(v, a + b) == NatBits(v / 2, a + (b - 1)) + [v % 2 == 1];
      assert (hi + lo) + [v % 2 == 1] == hi + (lo + [v % 2 == 1]);
    }
  }

  lemma LowBit(x: bv8)
    ensures ((x as nat) % 2 == 1) == ByteBit(x, 7)
  {
  }

  lemma HalfByte(x: bv8)
    ensures (x >> 1) as nat == x as nat / 2
  {
  }

  lemma ByteBitShift(x: bv8, k: nat)
    requires 1 <= k < 8
    ensures ByteBit(x >> 1, k) == ByteBit(x, k - 1)
  {
  }

  /** Bit `k` (MSB first) of the low `w` bits of a byte is byte bit `8 - w + k`. */
  lemma {:induction false} NatBitsOfByte(x: bv8, w: nat, k: nat)
    requires w <= 8 && k < w
    ensures NatBits(x as nat, w)[k] == ByteBit(x, 8 - w + k)
  {
    if k == w - 1 {
      LowBit(x);
    } else {
      HalfByte(x);
      NatBitsOfByte(x >> 1, w - 1, k);
      ByteBitShift(x, 9 - w + k);
    }
  }
}
