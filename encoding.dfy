/**
 * The payload encoders of internal/qrcode/encoding.go: numeric mode packs
 * digit triples into 10 bits (ISO/IEC 18004, section 6.4.3), alphanumeric
 * mode packs code pairs into 11 bits (section 6.4.4) and byte mode writes
 * each byte as 8 bits (section 6.4.5).
 *
 * Each encoder is a loop over the segment's data that writes through the
 * bit stream.  Its contract ties the bits it ORs in to a specification
 * function on the data (`NumericBits`, `AlphaBits`, `ByteBits8`), whose
 * length and inverse are proved separately.
 */
module Encoding {
  import opened BitSeq
  import opened Bitstream

  // ---------------------------------------------------------------------
  // Numeric mode

  /** The value of the digit triple at `i`: `100*d[i] + 10*d[i+1] + d[i+2]`. */
  function Triple(d: seq<uint8>, i: nat): nat
    requires i + 2 < |d|
  {
    100 * (d[i] as nat) + 10 * (d[i + 1] as nat) + d[i + 2] as nat
  }

  /** The value of the digit pair at `i`: `10*d[i] + d[i+1]`. */
  function NumericPair(d: seq<uint8>, i: nat): nat
    requires i + 1 < |d|
  {
    10 * (d[i] as nat) + d[i + 1] as nat
  }

  /** The first `g` triples of `d`, each as a 10-bit field, in input order. */
  function NumericGroups(d: seq<uint8>, g: nat): (r: seq<bool>)
    requires 3 * g <= |d|
    ensures |r| == 10 * g
  {
    if g == 0 then [] else NumericGroups(d, g - 1) + NatBits(Triple(d, 3 * (g - 1)), 10)
  }

  /** What follows the last whole triple at `i`: a digit in 4 bits, a pair in 7, or nothing. */
  function NumericTail(d: seq<uint8>, i: nat): (r: seq<bool>)
    requires i <= |d| < i + 3
  {
    if |d| - i == 1 then NatBits(d[i], 4)
    else if |d| - i == 2 then NatBits(NumericPair(d, i), 7)
    else []
  }

  /** The numeric-mode bits of a digit sequence. */
  function NumericBits(d: seq<uint8>): seq<bool>
  {
    NumericGroups(d, |d| / 3) + NumericTail(d, 3 * (|d| / 3))
  }

  /** The numeric-mode bit count for `n` digits: 10 per triple, then 0, 4 or 7. */
  function NumericBitCount(n: nat): nat
  {
    10 * (n / 3) + (if n % 3 == 0 then 0 else if n % 3 == 1 then 4 else 7)
  }

  /** The encoder writes exactly `NumericBitCount` bits. */
  lemma NumericBitsLength(d: seq<uint8>)
    ensures |NumericBits(d)| == NumericBitCount(|d|)
  {
  }

  /** Every element is a decimal digit. */
  predicate AllDigits(d: seq<uint8>)
  {
    forall i :: 0 <= i < |d| ==> d[i] <= 9
  }

  // ---------------------------------------------------------------------
  // Alphanumeric mode

  /** The value of the code pair at `i`: `45*d[i] + d[i+1]`. */
  function AlphaPair(d: seq<uint8>, i: nat): nat
    requires i + 1 < |d|
  {
    45 * (d[i] as nat) + d[i + 1] as nat
  }

  /** The first `g` pairs of `d`, each as an 11-bit field, in input order. */
  function AlphaGroups(d: seq<uint8>, g: nat): (r: seq<bool>)
    requires 2 * g <= |d|
    ensures |r| == 11 * g
  {
    if g == 0 then [] else AlphaGroups(d, g - 1) + NatBits(AlphaPair(d, 2 * (g - 1)), 11)
  }

  /** A code left over after the last pair, as a 6-bit field. */
  function AlphaTail(d: seq<uint8>, i: nat): (r: seq<bool>)
    requires i <= |d| < i + 2
  {
    if i < |d| then NatBits(d[i], 6) else []
  }

  /** The alphanumeric-mode bits of a code sequence. */
  function AlphaBits(d: seq<uint8>): seq<bool>
  {
    AlphaGroups(d, |d| / 2) + AlphaTail(d, 2 * (|d| / 2))
  }

  /** The alphanumeric-mode bit count for `n` codes: 11 per pair, 6 for a last single. */
  function AlphaBitCount(n: nat): nat
  {
    11 * (n / 2) + 6 * (n % 2)
  }

  /** The encoder writes exactly `AlphaBitCount` bits. */
  lemma AlphaBitsLength(d: seq<uint8>)
    ensures |AlphaBits(d)| == AlphaBitCount(|d|)
  {
  }

  /** Every element is an alphanumeric code (0..44). */
  predicate AllCodes(d: seq<uint8>)
  {
    forall i :: 0 <= i < |d| ==> d[i] <= 44
  }

  // ---------------------------------------------------------------------
  // Byte mode

  /** The first `k` bytes of `d`, eight bits each, in input order. */
  function ByteBits8(d: seq<uint8>, k: nat): (r: seq<bool>)
    requires k <= |d|
    ensures |r| == 8 * k
  {
    if k == 0 then [] else ByteBits8(d, k - 1) + NatBits(d[k - 1], 8)
  }

  // ---------------------------------------------------------------------
  // Reading the fields back

  /** Split `g` 10-bit fields into three decimal digits each. */
  function DecodeTriples(b: seq<bool>, g: nat): (r: seq<nat>)
    requires |b| == 10 * g
    ensures |r| == 3 * g
  {
    if g == 0 then []
    else
      DecodeTriples(b[..10 * (g - 1)], g - 1) + Digits3(BitsToNat(b[10 * (g - 1)..]))
  }

  /** The three decimal digits of a value below 1000. */
  function Digits3(v: nat): seq<nat>
  {
    [v / 100, v / 10 % 10, v % 10]
  }

  /** Read numeric-mode bits back into `n` digits. */
  function DecodeNumeric(b: seq<bool>, n: nat): (r: seq<nat>)
    requires |b| == NumericBitCount(n)
    ensures |r| == n
  {
    var g := n / 3;
    DecodeTriples(b[..10 * g], g) + DecodeNumericTail(b[10 * g..], n % 3)
  }

  /** Read the field after the last triple: one digit, a digit pair, or nothing. */
  function DecodeNumericTail(t: seq<bool>, r: nat): seq<nat>
  {
    if r == 0 then []
    else if r == 1 then [BitsToNat(t)]
    else var v := BitsToNat(t); [v / 10, v % 10]
  }

  /** Split `g` 11-bit fields into two codes each. */
  function DecodePairs(b: seq<bool>, g: nat): (r: seq<nat>)
    requires |b| == 11 * g
    ensures |r| == 2 * g
  {
    if g == 0 then []
    else
      DecodePairs(b[..11 * (g - 1)], g - 1) + Codes2(BitsToNat(b[11 * (g - 1)..]))
  }

  /** The two codes of an 11-bit pair value. */
  function Codes2(v: nat): seq<nat>
  {
    [v / 45, v % 45]
  }

  /** Read alphanumeric-mode bits back into `n` codes. */
  function DecodeAlpha(b: seq<bool>, n: nat): (r: seq<nat>)
    requires |b| == AlphaBitCount(n)
    ensures |r| == n
  {
    var g := n / 2;
    if n % 2 == 0 then DecodePairs(b, g)
    else DecodePairs(b[..11 * g], g) + [BitsToNat(b[11 * g..])]
  }

  /** Read byte-mode bits back into `k` bytes. */
  function DecodeBytes(b: seq<bool>, k: nat): (r: seq<nat>)
    requires |b| == 8 * k
    ensures |r| == k
  {
    if k == 0 then [] else DecodeBytes(b[..8 * (k - 1)], k - 1) + [BitsToNat(b[8 * (k - 1)..])]
  }

  /** A field holding a value that fits reads back as that value. */
  lemma FieldValue(v: nat, w: nat)
    requires v < Pow2(w)
    ensures BitsToNat(NatBits(v, w)) == v
  {
    BitsToNatOfNatBits(v, w);
  }

  lemma Pow2Values()
    ensures Pow2(4) == 16 && Pow2(6) == 64 && Pow2(7) == 128
    ensures Pow2(8) == 256 && Pow2(10) == 1024 && Pow2(11) == 2048
  {
  }

  /** The parts of a concatenation are its prefix and suffix. */
  lemma SplitConcat<T>(a: seq<T>, b: seq<T>)
    ensures (a + b)[..|a|] == a && (a + b)[|a|..] == b
  {
  }

  /** The whole of a sequence is its longest prefix. */
  lemma PrefixWhole(d: seq<uint8>)
    ensures d[..|d|] == d
  {
    assert d[..|d|] == d;
  }

  /** A prefix extended by one element. */
  lemma PrefixStep(d: seq<uint8>, k: nat)
    requires k < |d|
    ensures d[..k + 1] == d[..k] + [d[k]]
  {
    assert d[..k + 1][..k] == d[..k];
  }

  /** Decoding one more triple field appends its three digits. */
  lemma DecodeTriplesStep(a: seq<bool>, h: nat, t: nat)
    requires |a| == 10 * h
    requires t < 1024
    ensures DecodeTriples(a + NatBits(t, 10), h + 1) == DecodeTriples(a, h) + Digits3(t)
  {
    var b := a + NatBits(t, 10);
    SplitConcat(a, NatBits(t, 10));
    assert b[..10 * h] == a && b[10 * h..] == NatBits(t, 10);
    Pow2Values();
    FieldValue(t, 10);
  }

  /** A prefix extended by three elements. */
  lemma PrefixStep3(d: seq<uint8>, i: nat)
    requires i + 2 < |d|
    ensures d[..i + 3] == d[..i] + [d[i], d[i + 1], d[i + 2]]
  {
    PrefixStep(d, i);
    PrefixStep(d, i + 1);
    PrefixStep(d, i + 2);
  }

  /**
   * Numeric round trip: when every element is a digit, the triples read
   * back as the digits they were packed from.
   */
  lemma {:induction false} DecodeTriplesInverse(d: seq<uint8>, g: nat)
    requires 3 * g <= |d| && AllDigits(d)
    ensures DecodeTriples(NumericGroups(d, g), g) == d[..3 * g]
  {
    if g > 0 {
      var i, h := 3 * (g - 1), g - 1;
      var a, t := NumericGroups(d, h), Triple(d, i);
      TripleDigits(d, i);
      DecodeTriplesStep(a, h, t);
      DecodeTriplesInverse(d, h);
      PrefixStep3(d, i);
      assert 3 * g == i + 3;
    }
  }

  lemma TripleDigits(d: seq<uint8>, i: nat)
    requires i + 2 < |d| && AllDigits(d)
    ensures Triple(d, i) < 1000
    ensures Digits3(Triple(d, i)) == [d[i], d[i + 1], d[i + 2]]
  {
    DigitsOfTriple(d[i], d[i + 1], d[i + 2]);
  }

  lemma DigitsOfTriple(x: nat, y: nat, z: nat)
    requires x <= 9 && y <= 9 && z <= 9
    ensures Digits3(100 * x + 10 * y + z) == [x, y, z]
  {
    DivUnique(100 * x + 10 * y + z, 100, x, 10 * y + z);
    DivUnique(100 * x + 10 * y + z, 10, 10 * x + y, z);
    DivUnique(10 * x + y, 10, x, y);
  }

  /** Numeric mode is invertible on digit sequences: `DecodeNumeric` undoes `NumericBits`. */
  lemma NumericRoundTrip(d: seq<uint8>)
    requires AllDigits(d)
    ensures |NumericBits(d)| == NumericBitCount(|d|)
    ensures DecodeNumeric(NumericBits(d), |d|) == d
  {
    var n, g := |d|, |d| / 3;
    var i := 3 * g;
    var a, t := NumericGroups(d, g), NumericTail(d, i);
    DivUnique(n, 3, g, n - i);
    SplitConcat(a, t);
    DecodeTriplesInverse(d, g);
    PrefixWhole(d);
    if n - i == 1 {
      SingleDigit(d, i);
    } else if n - i == 2 {
      PairDigits(d, i);
    }
  }

  /** A last single digit reads back from its 4-bit field. */
  lemma SingleDigit(d: seq<uint8>, i: nat)
    requires i + 1 == |d| && d[i] <= 9
    ensures d[..i] + DecodeNumericTail(NumericTail(d, i), 1) == d[..i + 1]
  {
    Pow2Values();
    FieldValue(d[i], 4);
    PrefixStep(d, i);
  }

  /** A last digit pair reads back from its 7-bit field. */
  lemma PairDigits(d: seq<uint8>, i: nat)
    requires i + 2 == |d| && d[i] <= 9 && d[i + 1] <= 9
    ensures d[..i] + DecodeNumericTail(NumericTail(d, i), 2) == d[..i + 2]
  {
    Pow2Values();
    FieldValue(NumericPair(d, i), 7);
    DivUnique(NumericPair(d, i), 10, d[i], d[i + 1]);
    PrefixStep2(d, i);
  }

  /** Decoding one more pair field appends its two codes. */
  lemma DecodePairsStep(a: seq<bool>, h: nat, t: nat)
    requires |a| == 11 * h
    requires t < 2048
    ensures DecodePairs(a + NatBits(t, 11), h + 1) == DecodePairs(a, h) + Codes2(t)
  {
    var b := a + NatBits(t, 11);
    SplitConcat(a, NatBits(t, 11));
    assert b[..11 * h] == a && b[11 * h..] == NatBits(t, 11);
    Pow2Values();
    FieldValue(t, 11);
  }

  /** A prefix extended by two elements. */
  lemma PrefixStep2(d: seq<uint8>, i: nat)
    requires i + 1 < |d|
    ensures d[..i + 2] == d[..i] + [d[i], d[i + 1]]
  {
    PrefixStep(d, i);
    PrefixStep(d, i + 1);
  }

  /**
   * Alphanumeric round trip on pairs: when every element is a code, the
   * pairs read back as the codes they were packed from.
   */
  lemma {:induction false} DecodePairsInverse(d: seq<uint8>, g: nat)
    requires 2 * g <= |d| && AllCodes(d)
    ensures DecodePairs(AlphaGroups(d, g), g) == d[..2 * g]
  {
    if g > 0 {
      var i, h := 2 * (g - 1), g - 1;
      var a, t := AlphaGroups(d, h), AlphaPair(d, i);
      PairCodes(d, i);
      DecodePairsStep(a, h, t);
      DecodePairsInverse(d, h);
      PrefixStep2(d, i);
      assert 2 * g == i + 2;
    }
  }

  /** A code pair's value fits 11 bits and splits back into the two codes. */
  lemma PairCodes(d: seq<uint8>, i: nat)
    requires i + 1 < |d| && AllCodes(d)
    ensures AlphaPair(d, i) < 2025
    ensures Codes2(AlphaPair(d, i)) == [d[i], d[i + 1]]
  {
    DivUnique(AlphaPair(d, i), 45, d[i], d[i + 1]);
  }

  /** Alphanumeric mode is invertible on code sequences: `DecodeAlpha` undoes `AlphaBits`. */
  lemma AlphaRoundTrip(d: seq<uint8>)
    requires AllCodes(d)
    ensures |AlphaBits(d)| == AlphaBitCount(|d|)
    ensures DecodeAlpha(AlphaBits(d), |d|) == d
  {
    var n, g := |d|, |d| / 2;
    var i := 2 * g;
    var a, t := AlphaGroups(d, g), AlphaTail(d, i);
    DecodeAlphaParts(a, t, g, n);
    DecodePairsInverse(d, g);
    PrefixWhole(d);
    if i < n {
      SingleCode(d, i);
      PrefixStep(d, i);
    }
  }

  /** Decoding splits at the end of the whole pairs. */
  lemma DecodeAlphaParts(a: seq<bool>, t: seq<bool>, g: nat, n: nat)
    requires |a| == 11 * g && 2 * g <= n < 2 * g + 2
    requires |t| == 6 * (n - 2 * g)
    ensures DecodeAlpha(a + t, n) == DecodePairs(a, g) + (if n == 2 * g then [] else [BitsToNat(t)])
  {
    DivUnique(n, 2, g, n - 2 * g);
    SplitConcat(a, t);
    if n == 2 * g {
      assert a + t == a;
    }
  }

  /** A last single code reads back from its 6-bit field. */
  lemma SingleCode(d: seq<uint8>, i: nat)
    requires i < |d| && AllCodes(d)
    ensures BitsToNat(NatBits(d[i], 6)) == d[i]
  {
    Pow2Values();
    FieldValue(d[i], 6);
  }

  /** Decoding one more byte field appends its value. */
  lemma DecodeBytesStep(a: seq<bool>, h: nat, x: uint8)
    requires |a| == 8 * h
    ensures DecodeBytes(a + NatBits(x, 8), h + 1) == DecodeBytes(a, h) + [x]
  {
    var b := a + NatBits(x, 8);
    SplitConcat(a, NatBits(x, 8));
    assert b[..8 * h] == a && b[8 * h..] == NatBits(x, 8);
    Pow2Values();
    FieldValue(x, 8);
  }

  /** Byte mode is invertible on every byte sequence. */
  lemma {:induction false} BytesRoundTrip(d: seq<uint8>, k: nat)
    requires k <= |d|
    ensures DecodeBytes(ByteBits8(d, k), k) == d[..k]
  {
    if k > 0 {
      DecodeBytesStep(ByteBits8(d, k - 1), k - 1, d[k - 1]);
      BytesRoundTrip(d, k - 1);
      PrefixStep(d, k - 1);
    }
  }

  // ---------------------------------------------------------------------
  // From Go's shifted writes to fields

  /** `(v >> a) >> b == v >> (a + b)`. */
  lemma {:induction false} ShrShr(v: nat, a: nat, b: nat)
    ensures Shr(Shr(v, a), b) == Shr(v, a + b)
  {
    if a > 0 {
      ShrShr(v / 2, a - 1, b);
    }
  }

  /** `Write8(uint8(v >> 2)); Write2(uint8(v))` writes the 10-bit field of `v`. */
  lemma TripleField(v: nat)
    ensures LowBits(Byte(Shr(v, 2)), 8) + LowBits(Byte(v), 2) == NatBits(v, 10)
  {
    ByteLowBits(Shr(v, 2), 8);
    ByteLowBits(v, 2);
    NatBitsSplit(v, 8, 2);
  }

  /** `Write4(uint8(v >> 3)); Write2(uint8(v >> 1)); Write1(uint8(v))` writes the 7-bit field of `v`. */
  lemma NumericPairField(v: nat)
    ensures LowBits(Byte(Shr(v, 3)), 4) + LowBits(Byte(Shr(v, 1)), 2) + LowBits(Byte(v), 1) == NatBits(v, 7)
  {
    ByteLowBits(Shr(v, 3), 4);
    ByteLowBits(Shr(v, 1), 2);
    ByteLowBits(v, 1);
    NatBitsSplit(v, 6, 1);
    NatBitsSplit(Shr(v, 1), 4, 2);
    ShrShr(v, 1, 2);
  }

  /** `Write8(uint8(v >> 3)); Write2(uint8(v >> 1)); Write1(uint8(v))` writes the 11-bit field of `v`. */
  lemma AlphaPairField(v: nat)
    ensures LowBits(Byte(Shr(v, 3)), 8) + LowBits(Byte(Shr(v, 1)), 2) + LowBits(Byte(v), 1) == NatBits(v, 11)
  {
    ByteLowBits(Shr(v, 3), 8);
    ByteLowBits(Shr(v, 1), 2);
    ByteLowBits(v, 1);
    NatBitsSplit(v, 10, 1);
    NatBitsSplit(Shr(v, 1), 8, 2);
    ShrShr(v, 1, 2);
  }

  /** `Write4(uint8(v >> 2)); Write2(uint8(v))` writes the 6-bit field of `v`. */
  lemma AlphaSingleField(v: nat)
    ensures LowBits(Byte(Shr(v, 2)), 4) + LowBits(Byte(v), 2) == NatBits(v, 6)
  {
    ByteLowBits(Shr(v, 2), 4);
    ByteLowBits(v, 2);
    NatBitsSplit(v, 4, 2);
  }

  // ---------------------------------------------------------------------
  // Successive writes

  /** ORing nothing leaves a sequence as it is. */
  lemma OredNothing(s: seq<bool>, c: nat)
    requires c <= |s|
    ensures OredInto(s, s, c, [])
  {
    OredIntoAll(s, s, c, []);
  }

  /** Two successive ORed fields are one ORed field: their concatenation. */
  lemma OredAppend(s: seq<bool>, a: seq<bool>, b: seq<bool>, c: nat, x: seq<bool>, y: seq<bool>)
    requires OredInto(a, s, c, x) && OredInto(b, a, c + |x|, y)
    ensures OredInto(b, s, c, x + y)
  {
    OredIntoAll(a, s, c, x);
    OredIntoAll(b, a, c + |x|, y);
    OredIntoAll(b, s, c, x + y);
    forall i | 0 <= i < |s|
      ensures b[i] == (s[i] || (c <= i < c + |x + y| && (x + y)[i - c]))
    {
      if c <= i < c + |x| {
        assert (x + y)[i - c] == x[i - c];
      } else if c + |x| <= i < c + |x| + |y| {
        assert (x + y)[i - c] == y[i - c - |x|];
      }
    }
  }

  /** What a write leaves to write: the count after `g` whole triples. */
  lemma NumericCountAfter(n: nat, g: nat)
    requires 3 * g <= n
    ensures NumericBitCount(n) == 10 * g + NumericBitCount(n - 3 * g)
  {
    DivUnique(n, 3, n / 3, n % 3);
    DivUnique(n - 3 * g, 3, n / 3 - g, n % 3);
  }

  /** Two successive writes, the second at the cursor the first left: one field ORed in. */
  lemma OredTwoAt(s: seq<bool>, a: seq<bool>, b: seq<bool>, c: nat, ca: nat, x: seq<bool>, y: seq<bool>)
    requires OredInto(a, s, c, x) && ca == c + |x|
    requires OredInto(b, a, ca, y)
    ensures OredInto(b, s, c, x + y)
  {
    OredAppend(s, a, b, c, x, y);
  }

  /** Three successive writes, each at the cursor the one before left: one field ORed in. */
  lemma OredThreeAt(s: seq<bool>, a: seq<bool>, b: seq<bool>, e: seq<bool>, c: nat, ca: nat, cb: nat,
                    x: seq<bool>, y: seq<bool>, z: seq<bool>)
    requires OredInto(a, s, c, x) && ca == c + |x|
    requires OredInto(b, a, ca, y) && cb == ca + |y|
    requires OredInto(e, b, cb, z)
    ensures OredInto(e, s, c, x + y + z)
  {
    OredAppend(s, a, b, c, x, y);
    OredAppend(s, b, e, c, x + y, z);
  }

  // ---------------------------------------------------------------------
  // The fields of the encoders, each written by Go's run of short writes

  /** `Write8(uint8(v >> 2)); Write2(uint8(v))`: the 10-bit field of a digit triple. */
  method WriteTriple(v: nat, bits: BitStream)
    requires bits.Valid() && bits.HasRoom(10)
    modifies bits, bits.data
    ensures bits.Valid() && bits.data == old(bits.data)
    ensures bits.Count() == old(bits.Count()) + 10
    ensures OredInto(bits.Content(), old(bits.Content()), old(bits.Count()), NatBits(v, 10))
  {
    ghost var s, c := bits.Content(), bits.Count();
    bits.Write8(Byte(Shr(v, 2)));
    ghost var a, ca := bits.Content(), bits.Count();
    bits.Write2(Byte(v));
    TripleField(v);
    OredTwoAt(s, a, bits.Content(), c, ca, LowBits(Byte(Shr(v, 2)), 8), LowBits(Byte(v), 2));
  }

  /** `Write4(uint8(d))`: the 4-bit field of a last single digit. */
  method WriteDigit(x: nat, bits: BitStream)
    requires bits.Valid() && bits.HasRoom(4)
    modifies bits, bits.data
    ensures bits.Valid() && bits.data == old(bits.data)
    ensures bits.Count() == old(bits.Count()) + 4
    ensures OredInto(bits.Content(), old(bits.Content()), old(bits.Count()), NatBits(x, 4))
  {
    bits.Write4(Byte(x));
    ByteLowBits(x, 4);
  }

  /** `Write4(uint8(v >> 3)); Write2(uint8(v >> 1)); Write1(uint8(v))`: the 7-bit field of a last digit pair. */
  method WriteDigitPair(v: nat, bits: BitStream)
    requires bits.Valid() && bits.HasRoom(7)
    modifies bits, bits.data
    ensures bits.Valid() && bits.data == old(bits.data)
    ensures bits.Count() == old(bits.Count()) + 7
    ensures OredInto(bits.Content(), old(bits.Content()), old(bits.Count()), NatBits(v, 7))
  {
    ghost var s, c := bits.Content(), bits.Count();
    bits.Write4(Byte(Shr(v, 3)));
    ghost var a, ca := bits.Content(), bits.Count();
    bits.Write2(Byte(Shr(v, 1)));
    ghost var b, cb := bits.Content(), bits.Count();
    bits.Write1(Byte(v));
    NumericPairField(v);
    OredThreeAt(s, a, b, bits.Content(), c, ca, cb, LowBits(Byte(Shr(v, 3)), 4), LowBits(Byte(Shr(v, 1)), 2), LowBits(Byte(v), 1));
  }

  /** `Write8(uint8(v >> 3)); Write2(uint8(v >> 1)); Write1(uint8(v))`: the 11-bit field of a code pair. */
  method WriteCodePair(v: nat, bits: BitStream)
    requires bits.Valid() && bits.HasRoom(11)
    modifies bits, bits.data
    ensures bits.Valid() && bits.data == old(bits.data)
    ensures bits.Count() == old(bits.Count()) + 11
    ensures OredInto(bits.Content(), old(bits.Content()), old(bits.Count()), NatBits(v, 11))
  {
    ghost var s, c := bits.Content(), bits.Count();
    bits.Write8(Byte(Shr(v, 3)));
    ghost var a, ca := bits.Content(), bits.Count();
    bits.Write2(Byte(Shr(v, 1)));
    ghost var b, cb := bits.Content(), bits.Count();
    bits.Write1(Byte(v));
    AlphaPairField(v);
    OredThreeAt(s, a, b, bits.Content(), c, ca, cb, LowBits(Byte(Shr(v, 3)), 8), LowBits(Byte(Shr(v, 1)), 2), LowBits(Byte(v), 1));
  }

  /** `Write4(uint8(v >> 2)); Write2(uint8(v))`: the 6-bit field of a last single code. */
  method WriteCode(v: nat, bits: BitStream)
    requires bits.Valid() && bits.HasRoom(6)
    modifies bits, bits.data
    ensures bits.Valid() && bits.data == old(bits.data)
    ensures bits.Count() == old(bits.Count()) + 6
    ensures OredInto(bits.Content(), old(bits.Content()), old(bits.Count()), NatBits(v, 6))
  {
    ghost var s, c := bits.Content(), bits.Count();
    bits.Write4(Byte(Shr(v, 2)));
    ghost var a, ca := bits.Content(), bits.Count();
    bits.Write2(Byte(v));
    AlphaSingleField(v);
    OredTwoAt(s, a, bits.Content(), c, ca, LowBits(Byte(Shr(v, 2)), 4), LowBits(Byte(v), 2));
  }

  /** `Write8(d)`: the 8-bit field of a byte. */
  method WriteByte(x: uint8, bits: BitStream)
    requires bits.Valid() && bits.HasRoom(8)
    modifies bits, bits.data
    ensures bits.Valid() && bits.data == old(bits.data)
    ensures bits.Count() == old(bits.Count()) + 8
    ensures OredInto(bits.Content(), old(bits.Content()), old(bits.Count()), NatBits(x, 8))
  {
    bits.Write8(Byte(x));
    ByteLowBits(x, 8);
  }

  // ---------------------------------------------------------------------
  // The encoders

  /**
   * `encodeNumeric`: each whole digit triple as a 10-bit field, then a last
   * single digit as 4 bits or a last pair as 7, ORed into the stream at its
   * cursor (`OrIntoClean`: appended, when nothing is set past the cursor).
   */
  method EncodeNumeric(data: seq<uint8>, bits: BitStream)
    requires bits.Valid() && bits.HasRoom(NumericBitCount(|data|))
    modifies bits, bits.data
    ensures bits.Valid() && bits.data == old(bits.data)
    ensures bits.Count() == old(bits.Count()) + NumericBitCount(|data|)
    ensures OredInto(bits.Content(), old(bits.Content()), old(bits.Count()), NumericBits(data))
    ensures old(bits.Clean()) ==> bits.Clean() && bits.Written() == old(bits.Written()) + NumericBits(data)
  {
    ghost var s, c0, total := bits.Content(), bits.Count(), NumericBitCount(|data|);
    ghost var g := 0;
    var n := |data|;
    var i := 0;
    OredNothing(s, c0);
    while i + 2 < n
      invariant i == 3 * g && i <= n
      invariant bits.Valid() && bits.data == old(bits.data)
      invariant bits.Count() == c0 + 10 * g && c0 + total <= bits.Capacity()
      invariant OredInto(bits.Content(), s, c0, NumericGroups(data, g))
      decreases n - i
    {
      NumericCountAfter(n, g + 1);
      NumericTriple(data, i, bits, g, s, c0);
      i := i + 3;
      g := g + 1;
    }
    NumericCountAfter(n, g);
    NumericLast(data, i, bits, g, s, c0);
    if ZeroFrom(s, c0) {
      NumericBitsLength(data);
      bits.AppendedWhenClean(s, c0, NumericBits(data));
    }
  }

  /** One turn of the loop of `encodeNumeric`: the triple at `i` as its 10-bit field. */
  method NumericTriple(data: seq<uint8>, i: nat, bits: BitStream, ghost g: nat, ghost s: seq<bool>, ghost c0: nat)
    requires i == 3 * g && i + 2 < |data|
    requires bits.Valid() && bits.HasRoom(10) && bits.Count() == c0 + 10 * g
    requires OredInto(bits.Content(), s, c0, NumericGroups(data, g))
    modifies bits, bits.data
    ensures bits.Valid() && bits.data == old(bits.data) && bits.Count() == c0 + 10 * (g + 1)
    ensures OredInto(bits.Content(), s, c0, NumericGroups(data, g + 1))
  {
    var v := 100 * (data[i] as nat);
    v := v + 10 * (data[i + 1] as nat);
    v := v + data[i + 2] as nat;
    ghost var a, ca := bits.Content(), bits.Count();
    WriteTriple(v, bits);
    TripleAppended(data, g, v, s, a, bits.Content(), c0, ca);
  }

  /** The tail of `encodeNumeric`: a last digit as 4 bits, a last pair as 7, or nothing. */
  method NumericLast(data: seq<uint8>, i: nat, bits: BitStream, ghost g: nat, ghost s: seq<bool>, ghost c0: nat)
    requires i == 3 * g && i <= |data| < i + 3
    requires bits.Valid() && bits.HasRoom(NumericBitCount(|data| - i)) && bits.Count() == c0 + 10 * g
    requires OredInto(bits.Content(), s, c0, NumericGroups(data, g))
    modifies bits, bits.data
    ensures bits.Valid() && bits.data == old(bits.data)
    ensures bits.Count() == c0 + NumericBitCount(|data|)
    ensures OredInto(bits.Content(), s, c0, NumericBits(data))
  {
    NumericBitsAt(data, g);
    var n := |data|;
    if n - i == 1 {
      ghost var a, ca := bits.Content(), bits.Count();
      WriteDigit(data[i], bits);
      DigitAppended(data, g, data[i], s, a, bits.Content(), c0, ca);
    } else if n - i == 2 {
      var v := 10 * (data[i] as nat) + data[i + 1] as nat;
      ghost var a, ca := bits.Content(), bits.Count();
      WriteDigitPair(v, bits);
      PairAppended(data, g, v, s, a, bits.Content(), c0, ca);
    }
  }

  /** The numeric bits are the whole triples followed by the tail after them. */
  lemma NumericBitsAt(d: seq<uint8>, g: nat)
    requires 3 * g <= |d| < 3 * g + 3
    ensures NumericBits(d) == NumericGroups(d, g) + NumericTail(d, 3 * g)
    ensures NumericBitCount(|d|) == 10 * g + |NumericTail(d, 3 * g)|
    ensures |d| == 3 * g ==> NumericBits(d) == NumericGroups(d, g)
  {
    DivUnique(|d|, 3, g, |d| - 3 * g);
  }

  /** The loop body of `encodeNumeric`: triple `g` written after the first `g`. */
  lemma TripleAppended(d: seq<uint8>, g: nat, v: nat, s: seq<bool>, a: seq<bool>, e: seq<bool>, c0: nat, ca: nat)
    requires 3 * g + 2 < |d| && v == Triple(d, 3 * g)
    requires OredInto(a, s, c0, NumericGroups(d, g)) && ca == c0 + 10 * g
    requires OredInto(e, a, ca, NatBits(v, 10))
    ensures OredInto(e, s, c0, NumericGroups(d, g + 1))
  {
    OredAppend(s, a, e, c0, NumericGroups(d, g), NatBits(Triple(d, 3 * g), 10));
  }

  /** A last single digit written after the whole triples completes the numeric bits. */
  lemma DigitAppended(d: seq<uint8>, g: nat, x: nat, s: seq<bool>, a: seq<bool>, e: seq<bool>, c0: nat, ca: nat)
    requires |d| == 3 * g + 1 && x == d[3 * g]
    requires OredInto(a, s, c0, NumericGroups(d, g)) && ca == c0 + 10 * g
    requires OredInto(e, a, ca, NatBits(x, 4))
    ensures OredInto(e, s, c0, NumericBits(d))
  {
    NumericBitsAt(d, g);
    OredAppend(s, a, e, c0, NumericGroups(d, g), NumericTail(d, 3 * g));
  }

  /** A last digit pair written after the whole triples completes the numeric bits. */
  lemma PairAppended(d: seq<uint8>, g: nat, v: nat, s: seq<bool>, a: seq<bool>, e: seq<bool>, c0: nat, ca: nat)
    requires |d| == 3 * g + 2 && v == NumericPair(d, 3 * g)
    requires OredInto(a, s, c0, NumericGroups(d, g)) && ca == c0 + 10 * g
    requires OredInto(e, a, ca, NatBits(v, 7))
    ensures OredInto(e, s, c0, NumericBits(d))
  {
    NumericBitsAt(d, g);
    OredAppend(s, a, e, c0, NumericGroups(d, g), NumericTail(d, 3 * g));
  }

  /**
   * `encodeAlphaNumeric`: each whole code pair as an 11-bit field, then a
   * last single code as 6 bits, ORed into the stream at its cursor.
   */
  method EncodeAlphaNumeric(data: seq<uint8>, bits: BitStream)
    requires bits.Valid() && bits.HasRoom(AlphaBitCount(|data|))
    modifies bits, bits.data
    ensures bits.Valid() && bits.data == old(bits.data)
    ensures bits.Count() == old(bits.Count()) + AlphaBitCount(|data|)
    ensures OredInto(bits.Content(), old(bits.Content()), old(bits.Count()), AlphaBits(data))
    ensures old(bits.Clean()) ==> bits.Clean() && bits.Written() == old(bits.Written()) + AlphaBits(data)
  {
    ghost var s, c0, total := bits.Content(), bits.Count(), AlphaBitCount(|data|);
    ghost var g := 0;
    var n := |data|;
    var i := 0;
    OredNothing(s, c0);
    while i + 1 < n
      invariant i == 2 * g && i <= n
      invariant bits.Valid() && bits.data == old(bits.data)
      invariant bits.Count() == c0 + 11 * g && c0 + total <= bits.Capacity()
      invariant OredInto(bits.Content(), s, c0, AlphaGroups(data, g))
      decreases n - i
    {
      AlphaCountAfter(n, g + 1);
      AlphaPairStep(data, i, bits, g, s, c0);
      i := i + 2;
      g := g + 1;
    }
    AlphaCountAfter(n, g);
    AlphaLast(data, i, bits, g, s, c0);
    if ZeroFrom(s, c0) {
      AlphaBitsLength(data);
      bits.AppendedWhenClean(s, c0, AlphaBits(data));
    }
  }

  /** One turn of the loop of `encodeAlphaNumeric`: the pair at `i` as its 11-bit field. */
  method AlphaPairStep(data: seq<uint8>, i: nat, bits: BitStream, ghost g: nat, ghost s: seq<bool>, ghost c0: nat)
    requires i == 2 * g && i + 1 < |data|
    requires bits.Valid() && bits.HasRoom(11) && bits.Count() == c0 + 11 * g
    requires OredInto(bits.Content(), s, c0, AlphaGroups(data, g))
    modifies bits, bits.data
    ensures bits.Valid() && bits.data == old(bits.data) && bits.Count() == c0 + 11 * (g + 1)
    ensures OredInto(bits.Content(), s, c0, AlphaGroups(data, g + 1))
  {
    var v := (data[i] as nat) * 45 + data[i + 1] as nat;
    ghost var a, ca := bits.Content(), bits.Count();
    WriteCodePair(v, bits);
    CodePairAppended(data, g, v, s, a, bits.Content(), c0, ca);
  }

  /** The tail of `encodeAlphaNumeric`: a last single code as 6 bits, or nothing. */
  method AlphaLast(data: seq<uint8>, i: nat, bits: BitStream, ghost g: nat, ghost s: seq<bool>, ghost c0: nat)
    requires i == 2 * g && i <= |data| < i + 2
    requires bits.Valid() && bits.HasRoom(AlphaBitCount(|data| - i)) && bits.Count() == c0 + 11 * g
    requires OredInto(bits.Content(), s, c0, AlphaGroups(data, g))
    modifies bits, bits.data
    ensures bits.Valid() && bits.data == old(bits.data)
    ensures bits.Count() == c0 + AlphaBitCount(|data|)
    ensures OredInto(bits.Content(), s, c0, AlphaBits(data))
  {
    AlphaBitsAt(data, g);
    if i < |data| {
      var v := data[i] as nat;
      ghost var a, ca := bits.Content(), bits.Count();
      WriteCode(v, bits);
      CodeAppended(data, g, v, s, a, bits.Content(), c0, ca);
    }
  }

  /** What a write leaves to write: the count after `g` whole pairs. */
  lemma AlphaCountAfter(n: nat, g: nat)
    requires 2 * g <= n
    ensures AlphaBitCount(n) == 11 * g + AlphaBitCount(n - 2 * g)
  {
    DivUnique(n, 2, n / 2, n % 2);
    DivUnique(n - 2 * g, 2, n / 2 - g, n % 2);
  }

  /** The alphanumeric bits are the whole pairs followed by the tail after them. */
  lemma AlphaBitsAt(d: seq<uint8>, g: nat)
    requires 2 * g <= |d| < 2 * g + 2
    ensures AlphaBits(d) == AlphaGroups(d, g) + AlphaTail(d, 2 * g)
    ensures AlphaBitCount(|d|) == 11 * g + |AlphaTail(d, 2 * g)|
    ensures |d| == 2 * g ==> AlphaBits(d) == AlphaGroups(d, g)
  {
    DivUnique(|d|, 2, g, |d| - 2 * g);
  }

  /** The loop body of `encodeAlphaNumeric`: pair `g` written after the first `g`. */
  lemma CodePairAppended(d: seq<uint8>, g: nat, v: nat, s: seq<bool>, a: seq<bool>, e: seq<bool>, c0: nat, ca: nat)
    requires 2 * g + 1 < |d| && v == AlphaPair(d, 2 * g)
    requires OredInto(a, s, c0, AlphaGroups(d, g)) && ca == c0 + 11 * g
    requires OredInto(e, a, ca, NatBits(v, 11))
    ensures OredInto(e, s, c0, AlphaGroups(d, g + 1))
  {
    OredAppend(s, a, e, c0, AlphaGroups(d, g), NatBits(v, 11));
  }

  /** A last single code written after the whole pairs completes the alphanumeric bits. */
  lemma CodeAppended(d: seq<uint8>, g: nat, v: nat, s: seq<bool>, a: seq<bool>, e: seq<bool>, c0: nat, ca: nat)
    requires |d| == 2 * g + 1 && v == d[2 * g]
    requires OredInto(a, s, c0, AlphaGroups(d, g)) && ca == c0 + 11 * g
    requires OredInto(e, a, ca, NatBits(v, 6))
    ensures OredInto(e, s, c0, AlphaBits(d))
  {
    AlphaBitsAt(d, g);
    OredAppend(s, a, e, c0, AlphaGroups(d, g), AlphaTail(d, 2 * g));
  }

  /** `encodeBytes`: every byte as an 8-bit field, ORed into the stream at its cursor. */
  method EncodeBytes(data: seq<uint8>, bits: BitStream)
    requires bits.Valid() && bits.HasRoom(8 * |data|)
    modifies bits, bits.data
    ensures bits.Valid() && bits.data == old(bits.data)
    ensures bits.Count() == old(bits.Count()) + 8 * |data|
    ensures OredInto(bits.Content(), old(bits.Content()), old(bits.Count()), ByteBits8(data, |data|))
    ensures old(bits.Clean()) ==> bits.Clean() && bits.Written() == old(bits.Written()) + ByteBits8(data, |data|)
  {
    ghost var s, c0 := bits.Content(), bits.Count();
    OredNothing(s, c0);
    for k := 0 to |data|
      invariant bits.Valid() && bits.data == old(bits.data)
      invariant bits.Count() == c0 + 8 * k && c0 + 8 * |data| <= bits.Capacity()
      invariant OredInto(bits.Content(), s, c0, ByteBits8(data, k))
    {
      ghost var a, ca := bits.Content(), bits.Count();
      WriteByte(data[k], bits);
      ByteAppended(data, k, s, a, bits.Content(), c0, ca);
    }
    if ZeroFrom(s, c0) {
      bits.AppendedWhenClean(s, c0, ByteBits8(data, |data|));
    }
  }

  /** The loop body of `encodeBytes`: byte `k` written after the first `k`. */
  lemma ByteAppended(d: seq<uint8>, k: nat, s: seq<bool>, a: seq<bool>, e: seq<bool>, c0: nat, ca: nat)
    requires k < |d|
    requires OredInto(a, s, c0, ByteBits8(d, k)) && ca == c0 + 8 * k
    requires OredInto(e, a, ca, NatBits(d[k], 8))
    ensures OredInto(e, s, c0, ByteBits8(d, k + 1))
  {
    OredAppend(s, a, e, c0, ByteBits8(d, k), NatBits(d[k], 8));
  }

  // ---------------------------------------------------------------------
  // Vectors from the encoder tests, with an expected bit string written as
  // the value of its leading bits

  /** 673: the 10 bits at the front of 0xA8 0x40. */
  lemma NumericVector673()
    ensures NumericBits([6, 7, 3]) == NatBits(0xA840 / 64, 10)
  {
  }

  /** "A" (code 10): the 6 bits at the front of 0x28. */
  lemma AlphaVectorA()
    ensures AlphaBits([10]) == NatBits(0x28 / 4, 6)
  {
  }

  /** "a": the byte 0x61. */
  lemma ByteVectorA()
    ensures ByteBits8([0x61], 1) == NatBits(0x61, 8)
  {
  }
}
