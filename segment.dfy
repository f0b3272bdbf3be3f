/**
 * Segments (internal/qrcode/segment.go): a mode and its data, the
 * constructors for numbers, alphanumeric text and UTF-8 text, the bit counts
 * of the character count indicator and of the data, and `Encode`, which
 * writes mode indicator, character count and data into a bit stream.
 *
 * The layout is that of ISO/IEC 18004 section 6.4: a 4-bit mode indicator,
 * a character count indicator whose width depends on mode and version
 * (Table 3), then the data bits.  Two of Go's count-field writes and two of
 * its `DataBits` cases depart from it; each is modelled as written, shown by
 * an input, and corrected.
 */
module Segments {
  import opened BitSeq
  import opened Bitstream
  import opened Digits
  import opened Codes
  import opened Encoding

  datatype Option<T> = None | Some(value: T)

  /** A Go result, or a panic with its message. */
  datatype Outcome<T> = Value(value: T) | Panic(message: string)

  /** How `Encode` ends: normally, or in a panic after the mode indicator is written. */
  datatype Status = Done | Panicked(message: string)

  /** The mode indicators of ISO/IEC 18004 Table 2, as `SegmentMode` constants. */
  const NumericMode: uint8 := 1
  const AlphaNumericMode: uint8 := 2
  const ByteMode: uint8 := 4

  predicate KnownMode(m: nat)
  {
    m == NumericMode as nat || m == AlphaNumericMode as nat || m == ByteMode as nat
  }

  /** A version of ISO/IEC 18004: 1 to 40. */
  predicate KnownVersion(v: int)
  {
    1 <= v <= 40
  }

  /** `Segment`: a mode and the data in that mode's units (digits, codes or bytes). */
  datatype Segment = Segment(mode: uint8, data: seq<uint8>)

  /** What Go's `Segment{}` is: mode 0, no data. */
  const ZeroSegment := Segment(0, [])

  // ---------------------------------------------------------------------
  // The standard's layout

  /**
   * ISO/IEC 18004 Table 3: character count indicator widths, one row per
   * mode (numeric, alphanumeric, byte), one column per version group
   * (1-9, 10-26, 27-40).
   */
  const CountWidths: seq<seq<nat>> := [[10, 12, 14], [9, 11, 13], [8, 16, 16]]

  function ModeRow(m: nat): (i: nat)
    requires KnownMode(m)
    ensures i < 3
  {
    if m == NumericMode as nat then 0 else if m == AlphaNumericMode as nat then 1 else 2
  }

  function VersionGroup(v: int): (j: nat)
    requires KnownVersion(v)
    ensures j < 3
  {
    if v <= 9 then 0 else if v <= 26 then 1 else 2
  }

  /** The width of the character count indicator for mode `m` at version `v`. */
  function CountWidth(m: nat, v: int): nat
    requires KnownMode(m) && KnownVersion(v)
  {
    CountWidths[ModeRow(m)][VersionGroup(v)]
  }

  /** The data bits of a segment in its mode. */
  function SegmentBits(seg: Segment): seq<bool>
    requires KnownMode(seg.mode)
  {
    if seg.mode == NumericMode then NumericBits(seg.data)
    else if seg.mode == AlphaNumericMode then AlphaBits(seg.data)
    else ByteBits8(seg.data, |seg.data|)
  }

  /** The data of a segment is in its mode's range: digits, alphanumeric codes, any bytes. */
  predicate DataInRange(seg: Segment)
  {
    (seg.mode == NumericMode ==> AllDigits(seg.data)) &&
    (seg.mode == AlphaNumericMode ==> AllCodes(seg.data))
  }

  /**
   * The bits of a segment at version `v`: mode indicator, character count
   * indicator and data; only the mode indicator when mode or version is unknown.
   */
  function Encoded(seg: Segment, v: int): seq<bool>
  {
    if KnownMode(seg.mode) && KnownVersion(v) then
      NatBits(seg.mode, 4) + NatBits(|seg.data|, CountWidth(seg.mode, v)) + SegmentBits(seg)
    else
      NatBits(seg.mode, 4)
  }

  // ---------------------------------------------------------------------
  // Constructors

  /** `NewSegment`: a segment from a mode and data as given. */
  function NewSegment(mode: uint8, data: seq<uint8>): (seg: Segment)
    ensures seg.mode == mode && seg.data == data
  {
    Segment(mode, data)
  }

  /** The value of a digit sequence, most significant digit first. */
  function DecimalValue(d: seq<uint8>): nat
  {
    if d == [] then 0 else (d[0] as nat) * Pow10(|d| - 1) + DecimalValue(d[1..])
  }

  /**
   * `NewNumericSegment`: the decimal digits of `num`, most significant
   * first, filled in from the last position while dividing by ten.
   */
  method NewNumericSegment(num: uint64) returns (seg: Segment)
    ensures seg.mode == NumericMode
    ensures |seg.data| == DigitCount(num) && AllDigits(seg.data)
    ensures DecimalValue(seg.data) == num
  {
    var c := ComputeDigits(num);
    DigitsBound(num);
    var buf := new uint8[c](_ => 0);
    var x: nat := num;
    ghost var k, ds := c, [];
    while c > 0
      invariant c <= k == buf.Length && ds == buf[c..]
      invariant x < Pow10(c)
      invariant num == x * Pow10(k - c) + DecimalValue(ds)
      invariant AllDigits(ds)
      decreases c
    {
      var digit: uint8 := x % 10;
      DigitStep(num, x, c, k, ds);
      DigitsCons(digit, ds);
      buf[c - 1] := digit;
      assert buf[c - 1..] == [digit] + ds;
      ds := [digit] + ds;
      x := x / 10;
      c := c - 1;
    }
    seg := Segment(NumericMode, buf[..]);
  }

  /** `computeDigits` leaves room for every digit of `num`. */
  lemma DigitsBound(num: uint64)
    ensures ComputeDigits(num) == DigitCount(num) && num < Pow10(ComputeDigits(num))
  {
    ComputeDigitsCorrect(num);
  }

  /** One turn of the digit loop keeps the value equation and the bound on what is left. */
  lemma DigitStep(num: nat, x: nat, c: nat, k: nat, t: seq<uint8>)
    requires 1 <= c <= k && |t| == k - c && x < Pow10(c)
    requires num == x * Pow10(k - c) + DecimalValue(t)
    ensures x / 10 < Pow10(c - 1)
    ensures num == (x / 10) * Pow10(k - (c - 1)) + DecimalValue([x % 10] + t)
  {
    assert Pow10(c) == 10 * Pow10(c - 1);
    assert Pow10(k - (c - 1)) == 10 * Pow10(k - c);
    DecimalValueCons(x % 10, t);
    SplitLastDigit(x, Pow10(k - c));
  }

  /** `x` in place `p` is its tens in place `10 p` and its last digit in place `p`. */
  lemma SplitLastDigit(x: nat, p: nat)
    ensures x * p == (x / 10) * (10 * p) + (x % 10) * p
  {
    var q, r := x / 10, x % 10;
    assert x == 10 * q + r;
    MulDistrib(10 * q, r, p);
    assert (10 * q) * p == q * (10 * p);
  }

  lemma DigitsCons(x: uint8, t: seq<uint8>)
    requires x <= 9 && AllDigits(t)
    ensures AllDigits([x] + t)
  {
  }

  /** A leading digit is worth its place. */
  lemma DecimalValueCons(x: uint8, t: seq<uint8>)
    ensures DecimalValue([x] + t) == (x as nat) * Pow10(|t|) + DecimalValue(t)
  {
    var e := [x] + t;
    assert e[0] == x && e[1..] == t && |e| - 1 == |t|;
  }

  lemma MulMono(a: nat, b: nat, p: nat)
    requires a <= b
    ensures a * p <= b * p
  {
  }

  lemma MulDistrib(a: nat, b: nat, p: nat)
    ensures (a + b) * p == a * p + b * p
  {
  }

  /** Digits are worth less than the next power of ten. */
  lemma {:induction false} DecimalValueBound(d: seq<uint8>)
    requires AllDigits(d)
    ensures DecimalValue(d) < Pow10(|d|)
  {
    if d != [] {
      assert AllDigits(d[1..]) by {
        forall i | 0 <= i < |d[1..]|
          ensures d[1..][i] <= 9
        {
          assert d[1..][i] == d[i + 1];
        }
      }
      DecimalValueBound(d[1..]);
      MulMono(d[0] as nat, 9, Pow10(|d| - 1));
    }
  }

  /** Two digit sequences of one length with one value are the same sequence. */
  lemma {:induction false} DecimalValueInjective(d: seq<uint8>, e: seq<uint8>)
    requires AllDigits(d) && AllDigits(e) && |d| == |e|
    requires DecimalValue(d) == DecimalValue(e)
    ensures d == e
  {
    if d != [] {
      assert AllDigits(d[1..]) && AllDigits(e[1..]) by {
        forall i | 0 <= i < |d| - 1
          ensures d[1..][i] <= 9 && e[1..][i] <= 9
        {
          assert d[1..][i] == d[i + 1] && e[1..][i] == e[i + 1];
        }
      }
      DecimalValueBound(d[1..]);
      DecimalValueBound(e[1..]);
      var p := Pow10(|d| - 1);
      DivUnique(DecimalValue(d), p, d[0], DecimalValue(d[1..]));
      DivUnique(DecimalValue(e), p, e[0], DecimalValue(e[1..]));
      DecimalValueInjective(d[1..], e[1..]);
      assert d == [d[0]] + d[1..] && e == [e[0]] + e[1..];
    }
  }

  /**
   * A number from the segment tests: 10001 has the five digits 1, 0, 0, 0, 1,
   * in 17 numeric-mode bits.
   */
  lemma NumericSegmentOf10001(d: seq<uint8>)
    requires |d| == DigitCount(10001) && AllDigits(d) && DecimalValue(d) == 10001
    ensures d == [1, 0, 0, 0, 1]
    ensures |NumericBits(d)| == 17
  {
    var e: seq<uint8> := [1, 0, 0, 0, 1];
    assert DecimalValue(e) == 10001 by {
      assert DecimalValue(e[4..]) == 1;
      assert DecimalValue(e[3..]) == 1;
      assert DecimalValue(e[2..]) == 1;
      assert DecimalValue(e[1..]) == 1;
    }
    DecimalValueInjective(d, e);
    NumericBitsLength(d);
  }

  /** What `NewAlphaSegment` returns: a segment, an error (with Go's `Segment{}`), or a fault. */
  datatype Built = Ok(seg: Segment) | Err(seg: Segment, error: string) | Fault

  /** The first `k` characters all have codes. */
  predicate Accepted(s: seq<rune>, k: nat)
    requires k <= |s|
  {
    forall i :: 0 <= i < k ==> GetAlphaCode(s[i]).Found?
  }

  /** How `NewAlphaSegment` ends at a character without a code. */
  function Rejection(l: Lookup): Built
    requires !l.Found?
  {
    if l.IndexFault? then Fault else Err(ZeroSegment, l.error)
  }

  /**
   * `NewAlphaSegment`: the code of each character, stopping at the first
   * character without one.  `s` is the text as runes; every accepted
   * character is ASCII, so on success rune and byte positions coincide.
   */
  method NewAlphaSegment(s: seq<rune>) returns (r: Built)
    ensures r.Ok? <==> Accepted(s, |s|)
    ensures r.Ok? ==> r.seg.mode == AlphaNumericMode && |r.seg.data| == |s|
    ensures r.Ok? ==> forall i :: 0 <= i < |s| ==> r.seg.data[i] == GetAlphaCode(s[i]).code
    ensures !r.Ok? ==> exists j :: 0 <= j < |s| && Accepted(s, j) && !GetAlphaCode(s[j]).Found? &&
                                  r == Rejection(GetAlphaCode(s[j]))
  {
    var buf := new uint8[|s|](_ => 0);
    var i := 0;
    while i < |s|
      invariant i <= |s| && Accepted(s, i)
      invariant forall j :: 0 <= j < i ==> buf[j] as nat == GetAlphaCode(s[j]).code
    {
      var code := GetAlphaCode(s[i]);
      if !code.Found? {
        return Rejection(code);
      }
      buf[i] := code.code;
      i := i + 1;
    }
    return Ok(Segment(AlphaNumericMode, buf[..]));
  }

  /**
   * The codes of an accepted text name its characters in the alphanumeric
   * table, and are codes the alphanumeric encoding can carry.
   */
  lemma AlphaCodesNameCharacters(s: seq<rune>, d: seq<uint8>)
    requires |d| == |s| && Accepted(s, |s|)
    requires forall i :: 0 <= i < |s| ==> d[i] == GetAlphaCode(s[i]).code
    ensures AllCodes(d)
    ensures forall i :: 0 <= i < |s| ==> Alphabet[d[i]] as int == s[i]
  {
    forall i | 0 <= i < |s|
      ensures d[i] <= 44 && Alphabet[d[i]] as int == s[i]
    {
      assert GetAlphaCode(s[i]).Found?;
      LookupsAgree(s[i]);
      SwitchInverse(s[i]);
    }
  }

  /**
   * `NewUTF8Segment`: the bytes of the text in byte mode.  The text is taken
   * as already valid UTF-8, so the `?` substitution never applies.
   */
  function NewUTF8Segment(s: seq<uint8>): (seg: Segment)
    ensures seg.mode == ByteMode && DataInRange(seg)
    ensures DecodeBytes(SegmentBits(seg), |seg.data|) == s
  {
    BytesRoundTrip(s, |s|);
    assert s[..|s|] == s;
    Segment(ByteMode, s)
  }

  // ---------------------------------------------------------------------
  // Bit counts

  /**
   * `DataBits` as written: numeric mode is right, but a last single
   * alphanumeric code counts 1 bit instead of 6 and byte mode counts bytes
   * instead of bits.
   */
  function DataBits(seg: Segment): (r: Outcome<nat>)
    ensures r.Value? <==> KnownMode(seg.mode)
    ensures !r.Value? ==> r == Panic("unsupported data mode in segment")
    ensures seg.mode == NumericMode ==> r.value == |NumericBits(seg.data)|
    ensures seg.mode == AlphaNumericMode && |seg.data| % 2 == 0 ==> r.value == |AlphaBits(seg.data)|
    ensures seg.mode == AlphaNumericMode && |seg.data| % 2 == 1 ==> r.value == |AlphaBits(seg.data)| - 5
    ensures seg.mode == ByteMode ==> r.value == |seg.data|
  {
    var l := |seg.data|;
    if seg.mode == NumericMode then
      NumericBitsLength(seg.data);
      var c := (l / 3) * 10;
      if l % 3 == 0 then Value(c) else if l % 3 == 1 then Value(c + 4) else Value(c + 7)
    else if seg.mode == AlphaNumericMode then
      AlphaBitsLength(seg.data);
      var c := (l / 2) * 11;
      if l % 2 == 1 then Value(c + 1) else Value(c)
    else if seg.mode == ByteMode then
      Value(l)
    else
      Panic("unsupported data mode in segment")
  }

  /** `DataBits` with the last code counted as 6 bits and each byte as 8. */
  function DataBitsFixed(seg: Segment): (r: Outcome<nat>)
    ensures r.Value? <==> KnownMode(seg.mode)
    ensures !r.Value? ==> r == Panic("unsupported data mode in segment")
    ensures r.Value? ==> r.value == |SegmentBits(seg)|
  {
    var l := |seg.data|;
    if seg.mode == NumericMode then
      NumericBitsLength(seg.data);
      var c := (l / 3) * 10;
      if l % 3 == 0 then Value(c) else if l % 3 == 1 then Value(c + 4) else Value(c + 7)
    else if seg.mode == AlphaNumericMode then
      AlphaBitsLength(seg.data);
      var c := (l / 2) * 11;
      if l % 2 == 1 then Value(c + 6) else Value(c)
    else if seg.mode == ByteMode then
      Value(8 * l)
    else
      Panic("unsupported data mode in segment")
  }

  /**
   * `DataBits` as written is right exactly for numeric segments, for an even
   * number of codes, and for no bytes at all.
   */
  lemma DataBitsRightExactly(seg: Segment)
    requires KnownMode(seg.mode)
    ensures DataBits(seg) == DataBitsFixed(seg) <==>
      seg.mode == NumericMode ||
      (seg.mode == AlphaNumericMode && |seg.data| % 2 == 0) ||
      (seg.mode == ByteMode && |seg.data| == 0)
  {
  }

  /** One alphanumeric code, and one byte: each counted as 1 bit. */
  lemma DataBitsUndercounts()
    ensures DataBits(Segment(AlphaNumericMode, [10])) == Value(1)
    ensures |SegmentBits(Segment(AlphaNumericMode, [10]))| == 6
    ensures DataBits(Segment(ByteMode, [0x61])) == Value(1)
    ensures |SegmentBits(Segment(ByteMode, [0x61]))| == 8
  {
    AlphaBitsLength([10]);
  }

  /**
   * `LengthBits`: the width of the character count indicator, by mode and
   * version; a panic for an unknown version or mode.  Version 10 is matched
   * by the middle range first, as ISO/IEC 18004 Table 3 has it.
   */
  function LengthBits(seg: Segment, v: int): (r: Outcome<nat>)
    ensures r.Value? <==> KnownMode(seg.mode) && KnownVersion(v)
    ensures r.Value? ==> r.value == CountWidth(seg.mode, v)
    ensures !KnownMode(seg.mode) ==> r == Panic("unsupported data mode in segment")
    ensures KnownMode(seg.mode) && !KnownVersion(v) ==> r == Panic("invalid version")
  {
    if seg.mode == NumericMode then
      if 27 <= v <= 40 then Value(14)
      else if 10 <= v <= 26 then Value(12)
      else if 1 <= v <= 10 then Value(10)
      else Panic("invalid version")
    else if seg.mode == AlphaNumericMode then
      if 27 <= v <= 40 then Value(13)
      else if 10 <= v <= 26 then Value(11)
      else if 1 <= v <= 10 then Value(9)
      else Panic("invalid version")
    else if seg.mode == ByteMode then
      if 10 <= v <= 40 then Value(16)
      else if 1 <= v <= 10 then Value(8)
      else Panic("invalid version")
    else
      Panic("unsupported data mode in segment")
  }

  // ---------------------------------------------------------------------
  // The character count indicator

  /** The count field `Encode` writes, shift by shift, as written. */
  function CountFieldAsWritten(m: nat, l: nat, v: int): seq<bool>
    requires KnownMode(m) && KnownVersion(v)
  {
    if m == NumericMode as nat then
      if v >= 27 then NatBits(Shr(l, 6), 8) + NatBits(Shr(l, 2), 4) + NatBits(l, 2)
      else if v >= 10 then NatBits(Shr(l, 4), 8) + NatBits(l, 4)
      else NatBits(Shr(l, 2), 8) + NatBits(l, 2)
    else if m == AlphaNumericMode as nat then
      if v >= 27 then NatBits(Shr(l, 6), 8) + NatBits(Shr(l, 1), 4) + NatBits(l, 1)
      else if v >= 10 then NatBits(Shr(l, 3), 8) + NatBits(Shr(l, 1), 2) + NatBits(l, 1)
      else NatBits(Shr(l, 1), 8) + NatBits(l, 1)
    else
      if v >= 10 then NatBits(Shr(l, 8), 8) + NatBits(l, 8)
      else NatBits(Shr(l, 1), 8)
  }

  /** Three fields of one value, each starting where the next ends, are one wide field. */
  lemma Field3(x: nat, a: nat, b: nat, c: nat)
    ensures NatBits(Shr(x, b + c), a) + NatBits(Shr(x, c), b) + NatBits(x, c) == NatBits(x, a + b + c)
  {
    NatBitsSplit(x, a + b, c);
    NatBitsSplit(Shr(x, c), a, b);
    ShrShr(x, c, b);
  }

  /**
   * The count field as written is the character count in the width of
   * Table 3 everywhere except at versions 27-40 in alphanumeric mode with
   * 32 characters or more, and at versions 1-9 in byte mode.
   */
  lemma CountFieldAsWrittenAgrees(m: nat, l: nat, v: int)
    requires KnownMode(m) && KnownVersion(v)
    requires m == AlphaNumericMode as nat && v >= 27 ==> l < 32
    requires m == ByteMode as nat ==> v >= 10
    ensures CountFieldAsWritten(m, l, v) == NatBits(l, CountWidth(m, v))
  {
    if m == NumericMode as nat {
      if v >= 27 {
        Field3(l, 8, 4, 2);
      } else if v >= 10 {
        NatBitsSplit(l, 8, 4);
      } else {
        NatBitsSplit(l, 8, 2);
      }
    } else if m == AlphaNumericMode as nat {
      if v >= 27 {
        ShrSmall(l, 5);
        ShrSmall(l, 6);
        Field3(l, 8, 4, 1);
      } else if v >= 10 {
        Field3(l, 8, 2, 1);
      } else {
        NatBitsSplit(l, 8, 1);
      }
    } else {
      NatBitsSplit(l, 8, 8);
    }
  }

  /** Shifting a number right by at least its width leaves nothing. */
  lemma {:induction false} ShrSmall(x: nat, n: nat)
    requires x < Pow2(n)
    ensures Shr(x, n) == 0
  {
    if n > 0 {
      ShrSmall(x / 2, n - 1);
    }
  }

  /**
   * As written, a count of 32 alphanumeric characters at version 27 is
   * written like a count of 0, and a count of 1 byte at version 1 like a
   * count of 0, where the standard's fields differ.
   */
  lemma CountFieldAsWrittenLoses()
    ensures CountFieldAsWritten(AlphaNumericMode as nat, 32, 27) == CountFieldAsWritten(AlphaNumericMode as nat, 0, 27)
    ensures NatBits(32, CountWidth(AlphaNumericMode as nat, 27)) != NatBits(0, CountWidth(AlphaNumericMode as nat, 27))
    ensures CountFieldAsWritten(ByteMode as nat, 1, 1) == CountFieldAsWritten(ByteMode as nat, 0, 1)
    ensures NatBits(1, CountWidth(ByteMode as nat, 1)) != NatBits(0, CountWidth(ByteMode as nat, 1))
  {
    ShrSmall(32, 6);
    ShrSmall(0, 6);
    ShrSmall(0, 1);
    assert Pow2(4) == 16 && Pow2(1) == 2;
    NatBitsMod(0, 1, 4);
    NatBitsMod(0, 16, 1);
    BitsToNatOfNatBits(32, 13);
    BitsToNatOfNatBits(0, 13);
    BitsToNatOfNatBits(1, 8);
    BitsToNatOfNatBits(0, 8);
  }

  // ---------------------------------------------------------------------
  // Writing the character count indicator

  /**
   * The count field of a numeric segment, written by `Encode` in two or
   * three writes by version range; nothing for an unknown version.
   */
  method WriteNumericCount(l: nat, v: int, bits: BitStream) returns (ok: bool)
    requires bits.Valid() && (KnownVersion(v) ==> bits.HasRoom(CountWidth(NumericMode as nat, v)))
    modifies bits, bits.data
    ensures ok <==> KnownVersion(v)
    ensures bits.Valid() && bits.data == old(bits.data)
    ensures ok ==> bits.Count() == old(bits.Count()) + CountWidth(NumericMode as nat, v)
    ensures ok ==> OredInto(bits.Content(), old(bits.Content()), old(bits.Count()),
                            CountFieldAsWritten(NumericMode as nat, l, v))
    ensures !ok ==> bits.Count() == old(bits.Count()) && bits.Content() == old(bits.Content())
  {
    ghost var s, c := bits.Content(), bits.Count();
    if 27 <= v <= 40 {
      bits.Write8(Byte(Shr(l, 6)));
      ghost var a, ca := bits.Content(), bits.Count();
      bits.Write4(Byte(Shr(l, 2)));
      ghost var b, cb := bits.Content(), bits.Count();
      bits.Write2(Byte(l));
      ByteLowBits(Shr(l, 6), 8);
      ByteLowBits(Shr(l, 2), 4);
      ByteLowBits(l, 2);
      OredThreeAt(s, a, b, bits.Content(), c, ca, cb, NatBits(Shr(l, 6), 8), NatBits(Shr(l, 2), 4), NatBits(l, 2));
      ok := true;
    } else if 10 <= v <= 26 {
      bits.Write8(Byte(Shr(l, 4)));
      ghost var a, ca := bits.Content(), bits.Count();
      bits.Write4(Byte(l));
      ByteLowBits(Shr(l, 4), 8);
      ByteLowBits(l, 4);
      OredTwoAt(s, a, bits.Content(), c, ca, NatBits(Shr(l, 4), 8), NatBits(l, 4));
      ok := true;
    } else if 1 <= v <= 10 {
      bits.Write8(Byte(Shr(l, 2)));
      ghost var a, ca := bits.Content(), bits.Count();
      bits.Write2(Byte(l));
      ByteLowBits(Shr(l, 2), 8);
      ByteLowBits(l, 2);
      OredTwoAt(s, a, bits.Content(), c, ca, NatBits(Shr(l, 2), 8), NatBits(l, 2));
      ok := true;
    } else {
      ok := false;
    }
  }

  /**
   * The count field of an alphanumeric segment as `Encode` writes it; at
   * versions 27-40 the first write drops bit 5 of the count.
   */
  method WriteAlphaCount(l: nat, v: int, bits: BitStream) returns (ok: bool)
    requires bits.Valid() && (KnownVersion(v) ==> bits.HasRoom(CountWidth(AlphaNumericMode as nat, v)))
    modifies bits, bits.data
    ensures ok <==> KnownVersion(v)
    ensures bits.Valid() && bits.data == old(bits.data)
    ensures ok ==> bits.Count() == old(bits.Count()) + CountWidth(AlphaNumericMode as nat, v)
    ensures ok ==> OredInto(bits.Content(), old(bits.Content()), old(bits.Count()),
                            CountFieldAsWritten(AlphaNumericMode as nat, l, v))
    ensures !ok ==> bits.Count() == old(bits.Count()) && bits.Content() == old(bits.Content())
  {
    ghost var s, c := bits.Content(), bits.Count();
    if 27 <= v <= 40 {
      bits.Write8(Byte(Shr(l, 6)));
      ghost var a, ca := bits.Content(), bits.Count();
      bits.Write4(Byte(Shr(l, 1)));
      ghost var b, cb := bits.Content(), bits.Count();
      bits.Write1(Byte(l));
      ByteLowBits(Shr(l, 6), 8);
      ByteLowBits(Shr(l, 1), 4);
      ByteLowBits(l, 1);
      OredThreeAt(s, a, b, bits.Content(), c, ca, cb, NatBits(Shr(l, 6), 8), NatBits(Shr(l, 1), 4), NatBits(l, 1));
      ok := true;
    } else if 10 <= v <= 26 {
      bits.Write8(Byte(Shr(l, 3)));
      ghost var a, ca := bits.Content(), bits.Count();
      bits.Write2(Byte(Shr(l, 1)));
      ghost var b, cb := bits.Content(), bits.Count();
      bits.Write1(Byte(l));
      ByteLowBits(Shr(l, 3), 8);
      ByteLowBits(Shr(l, 1), 2);
      ByteLowBits(l, 1);
      OredThreeAt(s, a, b, bits.Content(), c, ca, cb, NatBits(Shr(l, 3), 8), NatBits(Shr(l, 1), 2), NatBits(l, 1));
      ok := true;
    } else if 1 <= v <= 10 {
      bits.Write8(Byte(Shr(l, 1)));
      ghost var a, ca := bits.Content(), bits.Count();
      bits.Write1(Byte(l));
      ByteLowBits(Shr(l, 1), 8);
      ByteLowBits(l, 1);
      OredTwoAt(s, a, bits.Content(), c, ca, NatBits(Shr(l, 1), 8), NatBits(l, 1));
      ok := true;
    } else {
      ok := false;
    }
  }

  /**
   * The count field of a byte segment as `Encode` writes it; at versions
   * 1-9 the one write holds the count shifted right by one.
   */
  method WriteByteCount(l: nat, v: int, bits: BitStream) returns (ok: bool)
    requires bits.Valid() && (KnownVersion(v) ==> bits.HasRoom(CountWidth(ByteMode as nat, v)))
    modifies bits, bits.data
    ensures ok <==> KnownVersion(v)
    ensures bits.Valid() && bits.data == old(bits.data)
    ensures ok ==> bits.Count() == old(bits.Count()) + CountWidth(ByteMode as nat, v)
    ensures ok ==> OredInto(bits.Content(), old(bits.Content()), old(bits.Count()),
                            CountFieldAsWritten(ByteMode as nat, l, v))
    ensures !ok ==> bits.Count() == old(bits.Count()) && bits.Content() == old(bits.Content())
  {
    ghost var s, c := bits.Content(), bits.Count();
    if 10 <= v <= 40 {
      bits.Write8(Byte(Shr(l, 8)));
      ghost var a, ca := bits.Content(), bits.Count();
      bits.Write8(Byte(l));
      ByteLowBits(Shr(l, 8), 8);
      ByteLowBits(l, 8);
      OredTwoAt(s, a, bits.Content(), c, ca, NatBits(Shr(l, 8), 8), NatBits(l, 8));
      ok := true;
    } else if 1 <= v <= 10 {
      bits.Write8(Byte(Shr(l, 1)));
      ByteLowBits(Shr(l, 1), 8);
      ok := true;
    } else {
      ok := false;
    }
  }

  /**
   * `WriteAlphaCount` with the first shift at versions 27-40 corrected to
   * five: the count in the width of Table 3 at every version.
   */
  method WriteAlphaCountFixed(l: nat, v: int, bits: BitStream) returns (ok: bool)
    requires bits.Valid() && (KnownVersion(v) ==> bits.HasRoom(CountWidth(AlphaNumericMode as nat, v)))
    modifies bits, bits.data
    ensures ok <==> KnownVersion(v)
    ensures bits.Valid() && bits.data == old(bits.data)
    ensures ok ==> bits.Count() == old(bits.Count()) + CountWidth(AlphaNumericMode as nat, v)
    ensures ok ==> OredInto(bits.Content(), old(bits.Content()), old(bits.Count()),
                            NatBits(l, CountWidth(AlphaNumericMode as nat, v)))
    ensures !ok ==> bits.Count() == old(bits.Count()) && bits.Content() == old(bits.Content())
  {
    ghost var s, c := bits.Content(), bits.Count();
    if 27 <= v <= 40 {
      bits.Write8(Byte(Shr(l, 5)));
      ghost var a, ca := bits.Content(), bits.Count();
      bits.Write4(Byte(Shr(l, 1)));
      ghost var b, cb := bits.Content(), bits.Count();
      bits.Write1(Byte(l));
      ByteLowBits(Shr(l, 5), 8);
      ByteLowBits(Shr(l, 1), 4);
      ByteLowBits(l, 1);
      OredThreeAt(s, a, b, bits.Content(), c, ca, cb, NatBits(Shr(l, 5), 8), NatBits(Shr(l, 1), 4), NatBits(l, 1));
      Field3(l, 8, 4, 1);
      ok := true;
    } else {
      ok := WriteAlphaCount(l, v, bits);
      if ok {
        CountFieldAsWrittenAgrees(AlphaNumericMode as nat, l, v);
      }
    }
  }

  /**
   * `WriteByteCount` with the count written unshifted at versions 1-9: the
   * count in the width of Table 3 at every version.
   */
  method WriteByteCountFixed(l: nat, v: int, bits: BitStream) returns (ok: bool)
    requires bits.Valid() && (KnownVersion(v) ==> bits.HasRoom(CountWidth(ByteMode as nat, v)))
    modifies bits, bits.data
    ensures ok <==> KnownVersion(v)
    ensures bits.Valid() && bits.data == old(bits.data)
    ensures ok ==> bits.Count() == old(bits.Count()) + CountWidth(ByteMode as nat, v)
    ensures ok ==> OredInto(bits.Content(), old(bits.Content()), old(bits.Count()),
                            NatBits(l, CountWidth(ByteMode as nat, v)))
    ensures !ok ==> bits.Count() == old(bits.Count()) && bits.Content() == old(bits.Content())
  {
    if 1 <= v <= 9 {
      bits.Write8(Byte(l));
      ByteLowBits(l, 8);
      ok := true;
    } else {
      ok := WriteByteCount(l, v, bits);
      if ok {
        CountFieldAsWrittenAgrees(ByteMode as nat, l, v);
      }
    }
  }

  // ---------------------------------------------------------------------
  // Encoding a segment

  /**
   * The bits `Encode` writes: the mode indicator, the count field as
   * written and the data; only the mode indicator before a panic.
   */
  function EncodedAsWritten(seg: Segment, v: int): seq<bool>
  {
    if KnownMode(seg.mode) && KnownVersion(v) then
      NatBits(seg.mode, 4) + CountFieldAsWritten(seg.mode, |seg.data|, v) + SegmentBits(seg)
    else
      NatBits(seg.mode, 4)
  }

  /** The count field as written has the width of Table 3. */
  lemma CountFieldWidth(m: nat, l: nat, v: int)
    requires KnownMode(m) && KnownVersion(v)
    ensures |CountFieldAsWritten(m, l, v)| == CountWidth(m, v)
  {
  }

  /** Both layouts are the mode indicator, then count field and data when mode and version are known. */
  lemma EncodedLength(seg: Segment, v: int)
    ensures KnownMode(seg.mode) && KnownVersion(v) ==>
      |Encoded(seg, v)| == |EncodedAsWritten(seg, v)| == 4 + CountWidth(seg.mode, v) + |SegmentBits(seg)|
    ensures !(KnownMode(seg.mode) && KnownVersion(v)) ==> |Encoded(seg, v)| == |EncodedAsWritten(seg, v)| == 4
  {
    if KnownMode(seg.mode) && KnownVersion(v) {
      CountFieldWidth(seg.mode, |seg.data|, v);
    }
  }

  /** The number of data bits of a segment, as the encoders count them. */
  lemma SegmentBitsLength(seg: Segment)
    requires KnownMode(seg.mode)
    ensures seg.mode == NumericMode ==> |SegmentBits(seg)| == NumericBitCount(|seg.data|)
    ensures seg.mode == AlphaNumericMode ==> |SegmentBits(seg)| == AlphaBitCount(|seg.data|)
    ensures seg.mode == ByteMode ==> |SegmentBits(seg)| == 8 * |seg.data|
  {
    if seg.mode == NumericMode {
      NumericBitsLength(seg.data);
    } else if seg.mode == AlphaNumericMode {
      AlphaBitsLength(seg.data);
    }
  }

  /**
   * As written, `Encode` lays out a segment as the standard does when the
   * count field comes out right: always in numeric mode, below 32
   * characters at versions 27-40 in alphanumeric mode, from version 10 in
   * byte mode.
   */
  lemma EncodedAsWrittenAgrees(seg: Segment, v: int)
    requires seg.mode == AlphaNumericMode && v >= 27 ==> |seg.data| < 32
    requires seg.mode == ByteMode ==> v >= 10
    ensures EncodedAsWritten(seg, v) == Encoded(seg, v)
  {
    if KnownMode(seg.mode) && KnownVersion(v) {
      CountFieldAsWrittenAgrees(seg.mode, |seg.data|, v);
    }
  }

  /**
   * `Encode`: the mode indicator, then the count field and the data for a
   * known mode and version; a panic after the mode indicator otherwise.
   * The bits are ORed in at the cursor; on a stream with nothing set past
   * the cursor they are appended.
   */
  method Encode(seg: Segment, v: int, bits: BitStream) returns (r: Status)
    requires bits.Valid() && bits.HasRoom(|Encoded(seg, v)|)
    modifies bits, bits.data
    ensures r.Done? <==> KnownMode(seg.mode) && KnownVersion(v)
    ensures !KnownMode(seg.mode) ==> r == Panicked("unsupported data mode in segment")
    ensures KnownMode(seg.mode) && !KnownVersion(v) ==> r == Panicked("invalid version")
    ensures bits.Valid() && bits.data == old(bits.data)
    ensures bits.Count() == old(bits.Count()) + |Encoded(seg, v)|
    ensures OredInto(bits.Content(), old(bits.Content()), old(bits.Count()), EncodedAsWritten(seg, v))
    ensures old(bits.Clean()) ==> bits.Clean() && bits.Written() == old(bits.Written()) + EncodedAsWritten(seg, v)
  {
    EncodedLength(seg, v);
    ghost var s, c := bits.Content(), bits.Count();
    bits.Write4(Byte(seg.mode));
    ByteLowBits(seg.mode, 4);
    ghost var a, ca := bits.Content(), bits.Count();
    var l := |seg.data|;
    if !KnownMode(seg.mode) {
      r := Panicked("unsupported data mode in segment");
      return;
    }
    var ok := WriteCount(seg.mode, l, v, bits);
    if !ok {
      r := Panicked("invalid version");
      return;
    }
    CountFieldWidth(seg.mode, l, v);
    ghost var b, cb := bits.Content(), bits.Count();
    WriteData(seg, bits);
    OredThreeAt(s, a, b, bits.Content(), c, ca, cb, NatBits(seg.mode, 4),
                CountFieldAsWritten(seg.mode, l, v), SegmentBits(seg));
    r := Done;
    if ZeroFrom(s, c) {
      bits.AppendedWhenClean(s, c, EncodedAsWritten(seg, v));
    }
  }

  /** The count part of `Encode`: the count writer of the segment's mode. */
  method WriteCount(m: uint8, l: nat, v: int, bits: BitStream) returns (ok: bool)
    requires KnownMode(m) && bits.Valid() && (KnownVersion(v) ==> bits.HasRoom(CountWidth(m, v)))
    modifies bits, bits.data
    ensures ok <==> KnownVersion(v)
    ensures bits.Valid() && bits.data == old(bits.data)
    ensures ok ==> bits.Count() == old(bits.Count()) + CountWidth(m, v)
    ensures ok ==> OredInto(bits.Content(), old(bits.Content()), old(bits.Count()), CountFieldAsWritten(m, l, v))
    ensures !ok ==> bits.Count() == old(bits.Count()) && bits.Content() == old(bits.Content())
  {
    if m == NumericMode {
      ok := WriteNumericCount(l, v, bits);
    } else if m == AlphaNumericMode {
      ok := WriteAlphaCount(l, v, bits);
    } else {
      ok := WriteByteCount(l, v, bits);
    }
  }

  /** The data part of `Encode`: the encoder of the segment's mode. */
  method WriteData(seg: Segment, bits: BitStream)
    requires KnownMode(seg.mode) && bits.Valid() && bits.HasRoom(|SegmentBits(seg)|)
    modifies bits, bits.data
    ensures bits.Valid() && bits.data == old(bits.data)
    ensures bits.Count() == old(bits.Count()) + |SegmentBits(seg)|
    ensures OredInto(bits.Content(), old(bits.Content()), old(bits.Count()), SegmentBits(seg))
  {
    SegmentBitsLength(seg);
    if seg.mode == NumericMode {
      EncodeNumeric(seg.data, bits);
    } else if seg.mode == AlphaNumericMode {
      EncodeAlphaNumeric(seg.data, bits);
    } else {
      EncodeBytes(seg.data, bits);
    }
  }

  /**
   * `Encode` with the two count fields corrected: the layout of ISO/IEC
   * 18004 section 6.4 for every mode and version it knows.
   */
  method EncodeFixed(seg: Segment, v: int, bits: BitStream) returns (r: Status)
    requires bits.Valid() && bits.HasRoom(|Encoded(seg, v)|)
    modifies bits, bits.data
    ensures r.Done? <==> KnownMode(seg.mode) && KnownVersion(v)
    ensures !KnownMode(seg.mode) ==> r == Panicked("unsupported data mode in segment")
    ensures KnownMode(seg.mode) && !KnownVersion(v) ==> r == Panicked("invalid version")
    ensures bits.Valid() && bits.data == old(bits.data)
    ensures bits.Count() == old(bits.Count()) + |Encoded(seg, v)|
    ensures OredInto(bits.Content(), old(bits.Content()), old(bits.Count()), Encoded(seg, v))
    ensures old(bits.Clean()) ==> bits.Clean() && bits.Written() == old(bits.Written()) + Encoded(seg, v)
  {
    EncodedLength(seg, v);
    ghost var s, c := bits.Content(), bits.Count();
    bits.Write4(Byte(seg.mode));
    ByteLowBits(seg.mode, 4);
    ghost var a, ca := bits.Content(), bits.Count();
    var l := |seg.data|;
    if !KnownMode(seg.mode) {
      r := Panicked("unsupported data mode in segment");
      return;
    }
    var ok := WriteCountFixed(seg.mode, l, v, bits);
    if !ok {
      r := Panicked("invalid version");
      return;
    }
    ghost var b, cb := bits.Content(), bits.Count();
    WriteData(seg, bits);
    OredThreeAt(s, a, b, bits.Content(), c, ca, cb, NatBits(seg.mode, 4),
                NatBits(l, CountWidth(seg.mode, v)), SegmentBits(seg));
    r := Done;
    if ZeroFrom(s, c) {
      bits.AppendedWhenClean(s, c, Encoded(seg, v));
    }
  }

  /** `WriteCount` with the corrected alphanumeric and byte writers. */
  method WriteCountFixed(m: uint8, l: nat, v: int, bits: BitStream) returns (ok: bool)
    requires KnownMode(m) && bits.Valid() && (KnownVersion(v) ==> bits.HasRoom(CountWidth(m, v)))
    modifies bits, bits.data
    ensures ok <==> KnownVersion(v)
    ensures bits.Valid() && bits.data == old(bits.data)
    ensures ok ==> bits.Count() == old(bits.Count()) + CountWidth(m, v)
    ensures ok ==> OredInto(bits.Content(), old(bits.Content()), old(bits.Count()), NatBits(l, CountWidth(m, v)))
    ensures !ok ==> bits.Count() == old(bits.Count()) && bits.Content() == old(bits.Content())
  {
    if m == NumericMode {
      ok := WriteNumericCount(l, v, bits);
      if ok {
        CountFieldAsWrittenAgrees(m, l, v);
      }
    } else if m == AlphaNumericMode {
      ok := WriteAlphaCountFixed(l, v, bits);
    } else {
      ok := WriteByteCountFixed(l, v, bits);
    }
  }

  // ---------------------------------------------------------------------
  // Reading a segment back

  /** The data bits of `l` characters in mode `m`. */
  function DataBitCount(m: nat, l: nat): nat
    requires KnownMode(m)
  {
    if m == NumericMode as nat then NumericBitCount(l)
    else if m == AlphaNumericMode as nat then AlphaBitCount(l)
    else 8 * l
  }

  /** The characters of `l`-character data bits `z` in mode `m`. */
  function DecodeData(m: nat, z: seq<bool>, l: nat): seq<nat>
    requires KnownMode(m) && |z| == DataBitCount(m, l)
  {
    if m == NumericMode as nat then DecodeNumeric(z, l)
    else if m == AlphaNumericMode as nat then DecodeAlpha(z, l)
    else DecodeBytes(z, l)
  }

  /**
   * A segment read from the front of `b` at version `v`: the mode, the
   * count in the width of Table 3, then that many characters of data in
   * the mode's units; `None` for an unknown mode or when the bits run out.
   */
  function DecodeSegment(b: seq<bool>, v: int): Option<(nat, seq<nat>)>
    requires KnownVersion(v)
  {
    if |b| < 4 then None
    else
      var m := BitsToNat(b[..4]);
      if !KnownMode(m) then None
      else
        var w := CountWidth(m, v);
        if |b| < 4 + w then None
        else
          var l := BitsToNat(b[4..4 + w]);
          var t := b[4 + w..];
          var n := DataBitCount(m, l);
          if |t| < n then None else Some((m, DecodeData(m, t[..n], l)))
  }

  /** The data bits of a segment in its mode's range read back as its data. */
  lemma DataRoundTrip(seg: Segment)
    requires KnownMode(seg.mode) && DataInRange(seg)
    ensures |SegmentBits(seg)| == DataBitCount(seg.mode, |seg.data|)
    ensures DecodeData(seg.mode, SegmentBits(seg), |seg.data|) == seg.data
  {
    SegmentBitsLength(seg);
    if seg.mode == NumericMode {
      NumericRoundTrip(seg.data);
    } else if seg.mode == AlphaNumericMode {
      AlphaRoundTrip(seg.data);
    } else {
      BytesRoundTrip(seg.data, |seg.data|);
      assert seg.data[..|seg.data|] == seg.data;
    }
  }

  /** The three parts of a concatenation, sliced back out. */
  lemma Slices3<T>(x: seq<T>, y: seq<T>, t: seq<T>)
    ensures (x + y + t)[..|x|] == x
    ensures (x + y + t)[|x|..|x| + |y|] == y
    ensures (x + y + t)[|x| + |y|..] == t
  {
  }

  /**
   * Mode indicator and count field, followed by at least the count's data
   * bits, read back as the mode and the decoded data.
   */
  lemma DecodeLayout(m: nat, l: nat, v: int, t: seq<bool>)
    requires KnownMode(m) && KnownVersion(v) && l < Pow2(CountWidth(m, v))
    requires |t| >= DataBitCount(m, l)
    ensures DecodeSegment(NatBits(m, 4) + NatBits(l, CountWidth(m, v)) + t, v)
         == Some((m, DecodeData(m, t[..DataBitCount(m, l)], l)))
  {
    Slices3(NatBits(m, 4), NatBits(l, CountWidth(m, v)), t);
    assert Pow2(4) == 16 by { Pow2Values(); }
    FieldValue(m, 4);
    FieldValue(l, CountWidth(m, v));
  }

  /**
   * A segment whose data is in its mode's range and whose count fits the
   * count field reads back from its layout, whatever follows it.
   */
  lemma SegmentRoundTrip(seg: Segment, v: int, rest: seq<bool>)
    requires KnownMode(seg.mode) && KnownVersion(v) && DataInRange(seg)
    requires |seg.data| < Pow2(CountWidth(seg.mode, v))
    ensures DecodeSegment(Encoded(seg, v) + rest, v) == Some((seg.mode as nat, seg.data))
  {
    var x, y, z := NatBits(seg.mode, 4), NatBits(|seg.data|, CountWidth(seg.mode, v)), SegmentBits(seg);
    DataRoundTrip(seg);
    assert Encoded(seg, v) + rest == x + y + (z + rest);
    assert (z + rest)[..|z|] == z;
    DecodeLayout(seg.mode, |seg.data|, v, z + rest);
  }

  /**
   * What `Encode` writes for one byte "a" at version 1, as written, reads
   * back as a byte segment with no data.
   */
  lemma ByteCountMisreads()
    ensures DecodeSegment(EncodedAsWritten(Segment(ByteMode, [0x61]), 1), 1) == Some((ByteMode as nat, []))
  {
    var b := Segment(ByteMode, [0x61]);
    assert Pow2(1) == 2;
    ShrSmall(1, 1);
    assert EncodedAsWritten(b, 1) == NatBits(4, 4) + NatBits(0, 8) + SegmentBits(b);
    DecodeLayout(ByteMode as nat, 0, 1, SegmentBits(b));
  }

  /**
   * What `Encode` writes for 32 alphanumeric characters at version 27, as
   * written, reads back as an alphanumeric segment with no data.
   */
  lemma AlphaCountMisreads()
    ensures DecodeSegment(EncodedAsWritten(Segment(AlphaNumericMode, seq(32, _ => 0)), 27), 27)
         == Some((AlphaNumericMode as nat, []))
  {
    var a := Segment(AlphaNumericMode, seq(32, _ => 0));
    CountFieldAsWrittenLoses();
    CountFieldAsWrittenAgrees(AlphaNumericMode as nat, 0, 27);
    assert EncodedAsWritten(a, 27) == NatBits(2, 4) + NatBits(0, 13) + SegmentBits(a);
    DecodeLayout(AlphaNumericMode as nat, 0, 27, SegmentBits(a));
  }
}
