/**
 * The MSB-first bit writer of internal/qrcode/bitstream.go.
 *
 * A stream owns (or wraps) a byte buffer and a cursor made of a byte index and
 * the number of bits still free in that byte.  Writes of 1, 2, 4 or 8 bits OR
 * the low bits of their argument into the buffer at the cursor, splitting them
 * over a byte boundary when they do not fit.  The abstract view is the bit
 * sequence `Content()` of the whole buffer, of which the first `Count()` bits
 * are `Written()`.
 */
module Bitstream {
  import opened BitSeq

  const Uint32Limit: nat := 0x1_0000_0000

  /** The number of bytes needed for `capacity` bits: the ceiling of capacity / 8. */
  function NeededBytes(capacity: nat): (n: nat)
    ensures 8 * n >= capacity && 8 * n < capacity + 8
  {
    (capacity + 7) / 8
  }

  /**
   * `(capacity + 7) >> 3` evaluated in uint32 arithmetic, as `newBits` does:
   * the addition wraps for the seven largest capacities.
   */
  function NeededBytesAsWritten(capacity: nat): nat
    requires capacity < Uint32Limit
  {
    ((capacity + 7) % Uint32Limit) / 8
  }

  /** Below the wrap-around both computations agree. */
  lemma NeededBytesAsWrittenAgrees(capacity: nat)
    requires capacity + 7 < Uint32Limit
    ensures NeededBytesAsWritten(capacity) == NeededBytes(capacity)
  {
  }

  /** The largest uint32 capacity yields an empty buffer instead of 2^29 bytes. */
  lemma NeededBytesAsWrittenWraps()
    ensures NeededBytesAsWritten(Uint32Limit - 1) == 0
    ensures NeededBytes(Uint32Limit - 1) == 0x2000_0000
  {
  }

  /** The space test of `ensureState` as written: `(len - index) * 8 + left >= needed`. */
  function GuardAsWritten(len: nat, index: nat, left: nat, needed: nat): bool
  {
    index < len && (len - index) * 8 + left >= needed
  }

  /** The bits still free in a buffer of `len` bytes at cursor (`index`, `left`). */
  function Room(len: nat, index: nat, left: nat): int
  {
    len * 8 - (index * 8 + (8 - left))
  }

  /** For every cursor on a byte of the buffer, the guard counts eight bits too many. */
  lemma GuardOverstatesRoom(len: nat, index: nat, left: nat, needed: nat)
    requires index < len && 1 <= left <= 8
    ensures GuardAsWritten(len, index, left, needed) <==> needed <= Room(len, index, left) + 8
  {
  }

  /** A one-byte buffer with seven bits written passes the guard for an 8-bit write. */
  lemma GuardAdmitsOverflow()
    ensures GuardAsWritten(1, 0, 1, 8)
    ensures Room(1, 0, 1) == 1
  {
  }

  /** The mask for the low `w` bits of a write of width `w`. */
  function Mask(w: nat): (m: bv8)
    requires w == 1 || w == 2 || w == 4 || w == 8
  {
    if w == 1 then 1 else if w == 2 then 3 else if w == 4 then 0xF else 0xFF
  }

  /**
   * `a` is `s` with the bits of `v` ORed in starting at bit `c`.  It is
   * stated bit by bit from the end, like `ZeroFrom`; `OredIntoAll` gives
   * the quantified form.
   */
  ghost predicate OredInto(a: seq<bool>, s: seq<bool>, c: nat, v: seq<bool>)
  {
    |a| == |s| && c + |v| <= |s| && OredBelow(a, s, c, v, |s|)
  }

  /** The first `k` bits of `a` are those of `s` with `v` ORed in at `c`. */
  ghost predicate OredBelow(a: seq<bool>, s: seq<bool>, c: nat, v: seq<bool>, k: nat)
  {
    k == 0 ||
    (k <= |a| && k <= |s| && OredBelow(a, s, c, v, k - 1) &&
     a[k - 1] == (s[k - 1] || (c <= k - 1 < c + |v| && v[k - 1 - c])))
  }

  lemma {:induction false} OredBelowAll(a: seq<bool>, s: seq<bool>, c: nat, v: seq<bool>, k: nat)
    requires k <= |a| && k <= |s|
    ensures OredBelow(a, s, c, v, k) <==>
      forall i :: 0 <= i < k ==> a[i] == (s[i] || (c <= i < c + |v| && v[i - c]))
  {
    if k > 0 {
      OredBelowAll(a, s, c, v, k - 1);
    }
  }

  /** `OredInto` holds exactly when every bit of `a` is the bit of `s` ORed with the field's. */
  lemma OredIntoAll(a: seq<bool>, s: seq<bool>, c: nat, v: seq<bool>)
    ensures OredInto(a, s, c, v) <==>
      |a| == |s| && c + |v| <= |s| &&
      forall i :: 0 <= i < |s| ==> a[i] == (s[i] || (c <= i < c + |v| && v[i - c]))
  {
    if |a| == |s| {
      OredBelowAll(a, s, c, v, |s|);
    }
  }

  /** No bit at or after position `c` is set. */
  ghost predicate ZeroFrom(b: seq<bool>, c: nat)
  {
    |b| <= c || (!b[|b| - 1] && ZeroFrom(b[..|b| - 1], c))
  }

  /** `ZeroFrom` holds exactly when every bit from `c` on is clear. */
  lemma {:induction false} ZeroFromAll(b: seq<bool>, c: nat)
    ensures ZeroFrom(b, c) <==> forall i :: c <= i < |b| ==> !b[i]
  {
    if |b| > c {
      ZeroFromAll(b[..|b| - 1], c);
    }
  }

  /**
   * ORing a field into an all-zero tail appends the field: the prefix is kept,
   * the field follows it, and the tail after it stays zero.
   */
  lemma OrIntoClean(a: seq<bool>, s: seq<bool>, c: nat, v: seq<bool>)
    requires OredInto(a, s, c, v) && ZeroFrom(s, c)
    ensures a[..c + |v|] == s[..c] + v
    ensures ZeroFrom(a, c + |v|)
  {
    OredIntoAll(a, s, c, v);
    ZeroFromAll(s, c);
    ZeroFromAll(a, c + |v|);
    assert forall i :: 0 <= i < c + |v| ==> a[i] == (s[..c] + v)[i];
  }

  /** A zeroed buffer has no bit set. */
  lemma ZeroBytesClean(s: seq<bv8>)
    requires forall j :: 0 <= j < |s| ==> s[j] == 0
    ensures ZeroFrom(BytesBits(s), 0)
  {
    var b := BytesBits(s);
    forall i | 0 <= i < |b|
      ensures !b[i]
    {
      BytesBitsIndex(s, i);
    }
    ZeroFromAll(b, 0);
  }

  lemma MaskBit(w: nat, r: nat)
    requires w == 1 || w == 2 || w == 4 || w == 8
    requires r < 8
    ensures ByteBit(Mask(w), r) == (r >= 8 - w)
  {
  }

  /** Bit `j` of `n & Mask(w)`: the bits of `n` among the low `w`, zero above them. */
  lemma MaskedBit(n: bv8, w: nat, j: nat)
    requires w == 1 || w == 2 || w == 4 || w == 8
    requires j < 8
    ensures ByteBit(n & Mask(w), j) == (8 - w <= j && ByteBit(n, j))
  {
    AndBit(n, Mask(w), j);
    MaskBit(w, j);
  }

  /** `m` holds the low `w` bits of `n` and nothing above them. */
  ghost predicate Fits(m: bv8, n: bv8, w: nat)
    requires w <= 8
  {
    forall j :: 0 <= j < 8 ==> ByteBit(m, j) == (8 - w <= j && ByteBit(n, j))
  }

  /** Masking with `Mask(w)`, as the writes do, leaves exactly the low `w` bits. */
  lemma MaskedFits(n: bv8, mask: bv8, w: nat)
    requires w == 1 || w == 2 || w == 4 || w == 8
    requires mask == Mask(w)
    ensures Fits(n & mask, n, w)
  {
    forall j | 0 <= j < 8
      ensures ByteBit(n & mask, j) == (8 - w <= j && ByteBit(n, j))
    {
      MaskedBit(n, w, j);
    }
  }

  /** A byte holds all eight of its own bits. */
  lemma WholeFits(n: bv8)
    ensures Fits(n, n, 8)
  {
  }

  /** Bit `r` of the masked value moved up by `sh`: the field's bit, or zero outside the field. */
  lemma NoSplitBit(n: bv8, m: bv8, w: nat, left: nat, sh: nat, r: nat)
    requires w == 1 || w == 2 || w == 4 || w == 8
    requires w <= left <= 8 && sh == left - w && r < 8 && Fits(m, n, w)
    ensures ByteBit(ShiftLeft(m, sh), r) == (8 - left <= r < 8 - left + w && ByteBit(n, r + sh))
  {
    ShlBit(m, sh, r);
    if r + sh < 8 {
      assert ByteBit(m, r + sh) == (8 - w <= r + sh && ByteBit(n, r + sh));
    }
  }

  /** Bit `r` of the high part `m >> hs` of a split field. */
  lemma SplitHighBit(n: bv8, m: bv8, w: nat, left: nat, hs: nat, r: nat)
    requires w == 2 || w == 4 || w == 8
    requires 1 <= left < w && hs == w - left && r < 8 && Fits(m, n, w)
    ensures ByteBit(ShiftRight(m, hs), r) == (8 - left <= r && ByteBit(n, r - hs))
  {
    ShrBit(m, hs, r);
    if r >= hs {
      assert ByteBit(m, r - hs) == (8 - w <= r - hs && ByteBit(n, r - hs));
    }
  }

  /** Bit `r` of the low part `m << ls` of a split field. */
  lemma SplitLowBit(n: bv8, m: bv8, w: nat, left: nat, ls: nat, r: nat)
    requires w == 2 || w == 4 || w == 8
    requires 1 <= left < w && ls == 8 - w + left && r < 8 && Fits(m, n, w)
    ensures ByteBit(ShiftLeft(m, ls), r) == (r < w - left && ByteBit(n, r + ls))
  {
    ShlBit(m, ls, r);
    if r + ls < 8 {
      assert ByteBit(m, r + ls) == (8 - w <= r + ls && ByteBit(n, r + ls));
    }
  }

  lemma FieldBit(n: bv8, w: nat, k: nat, j: nat)
    requires w <= 8 && k < w && j == 8 - w + k
    ensures LowBits(n, w)[k] == ByteBit(n, j)
  {
    LowBitsIndex(n, w, k);
  }

  /**
   * Bit `r` of byte `x`, which lies at stream position `i`, after a field
   * written from stream position `c` on was ORed into the byte `b` as `x`.
   */
  predicate OredBit(x: bv8, b: bv8, r: nat, n: bv8, w: nat, c: nat, i: nat)
    requires r < 8 && w <= 8
  {
    ByteBit(x, r) == (ByteBit(b, r) || (c <= i < c + w && LowBits(n, w)[i - c]))
  }

  /**
   * Bit `r` of `x` is bit `r` of `b`, ORed with byte bit `j` of the field's
   * value exactly where stream position `i` lies in the field.
   */
  lemma FieldOred(x: bv8, b: bv8, r: nat, n: bv8, w: nat, c: nat, i: nat, inField: bool, j: int)
    requires r < 8 && w <= 8
    requires inField == (c <= i < c + w)
    requires inField ==> 0 <= j < 8 && j == 8 - w + (i - c)
    requires ByteBit(x, r) == (ByteBit(b, r) || (inField && ByteBit(n, j)))
    ensures OredBit(x, b, r, n, w, c, i)
  {
    if inField {
      FieldBit(n, w, i - c, j);
    }
  }

  /** A byte the write does not touch keeps its bits. */
  lemma OredBitSame(b: bv8, r: nat, n: bv8, w: nat, c: nat, i: nat)
    requires r < 8 && w <= 8 && !(c <= i < c + w)
    ensures OredBit(b, b, r, n, w, c, i)
  {
  }

  /** ORing a field that fits in the `left` free bits of a byte, seen bit by bit. */
  lemma NoSplitByte(x: bv8, b: bv8, n: bv8, m: bv8, w: nat, left: nat, sh: nat, r: nat, c: nat, i: nat)
    requires w == 1 || w == 2 || w == 4 || w == 8
    requires w <= left <= 8 && sh == left - w && r < 8 && i + 8 == c + r + left && Fits(m, n, w)
    requires x == b | ShiftLeft(m, sh)
    ensures OredBit(x, b, r, n, w, c, i)
  {
    OrBit(b, ShiftLeft(m, sh), r);
    NoSplitBit(n, m, w, left, sh, r);
    FieldOred(x, b, r, n, w, c, i, 8 - left <= r < 8 - left + w, r + sh);
  }

  /** The high part of a split field, ORed into the end of its first byte. */
  lemma SplitHighByte(x: bv8, b: bv8, n: bv8, m: bv8, w: nat, left: nat, hs: nat, r: nat, c: nat, i: nat)
    requires w == 2 || w == 4 || w == 8
    requires 1 <= left < w && hs == w - left && r < 8 && i + 8 == c + r + left && Fits(m, n, w)
    requires x == b | ShiftRight(m, hs)
    ensures OredBit(x, b, r, n, w, c, i)
  {
    OrBit(b, ShiftRight(m, hs), r);
    SplitHighBit(n, m, w, left, hs, r);
    FieldOred(x, b, r, n, w, c, i, 8 - left <= r, r - hs);
  }

  /** The low part of a split field, ORed into the start of the next byte. */
  lemma SplitLowByte(x: bv8, b: bv8, n: bv8, m: bv8, w: nat, left: nat, ls: nat, r: nat, c: nat, i: nat)
    requires w == 2 || w == 4 || w == 8
    requires 1 <= left < w && ls == 8 - w + left && r < 8 && i == c + r + left && Fits(m, n, w)
    requires x == b | ShiftLeft(m, ls)
    ensures OredBit(x, b, r, n, w, c, i)
  {
    OrBit(b, ShiftLeft(m, ls), r);
    SplitLowBit(n, m, w, left, ls, r);
    FieldOred(x, b, r, n, w, c, i, r < w - left, r + ls);
  }

  /** Bit `i` of the buffer is bit `r` of byte `q`: a per-byte fact lifts to the bit sequences. */
  lemma BitAt(s: seq<bv8>, t: seq<bv8>, n: bv8, w: nat, c: nat, i: nat, q: nat, r: nat)
    requires w <= 8 && |t| == |s| && c + w <= 8 * |s|
    requires i == 8 * q + r && r < 8 && q < |s|
    requires OredBit(t[q], s[q], r, n, w, c, i)
    ensures BytesBits(t)[i] == (BytesBits(s)[i] || (c <= i < c + w && LowBits(n, w)[i - c]))
  {
    DivUnique(i, 8, q, r);
    BytesBitsIndex(t, i);
    BytesBitsIndex(s, i);
  }

  lemma ByteOffset(i: nat, len: nat)
    requires i < 8 * len
    ensures i == 8 * (i / 8) + i % 8 && i / 8 < len && i % 8 < 8
  {
  }

  /**
   * A write that fits in the current byte: ORing the masked value `m`, moved
   * up by `sh` to the free bits, into byte `i0` ORs the field into the bit
   * sequence.
   */
  lemma ApplyNoSplit(s: seq<bv8>, t: seq<bv8>, x: bv8, i0: nat, left: nat, c: nat, n: bv8, m: bv8, w: nat, sh: nat)
    requires w == 1 || w == 2 || w == 4 || w == 8
    requires w <= left <= 8 && i0 < |s| && c == 8 * i0 + 8 - left && Fits(m, n, w) && sh == left - w
    requires |t| == |s| && t[i0] == x && x == s[i0] | ShiftLeft(m, sh)
    requires forall j :: 0 <= j < |s| && j != i0 ==> t[j] == s[j]
    ensures OredInto(BytesBits(t), BytesBits(s), c, LowBits(n, w))
  {
    var a, b, v := BytesBits(t), BytesBits(s), LowBits(n, w);
    forall i | 0 <= i < |b|
      ensures a[i] == (b[i] || (c <= i < c + w && v[i - c]))
    {
      NoSplitAt(s, t, x, i0, left, c, n, m, w, sh, i);
    }
    OredIntoAll(a, b, c, v);
  }

  lemma NoSplitAt(s: seq<bv8>, t: seq<bv8>, x: bv8, i0: nat, left: nat, c: nat, n: bv8, m: bv8, w: nat, sh: nat, i: nat)
    requires w == 1 || w == 2 || w == 4 || w == 8
    requires w <= left <= 8 && i0 < |s| && i < 8 * |s| && Fits(m, n, w) && c == 8 * i0 + 8 - left && sh == left - w
    requires |t| == |s| && t[i0] == x && x == s[i0] | ShiftLeft(m, sh)
    requires forall j :: 0 <= j < |s| && j != i0 ==> t[j] == s[j]
    ensures BytesBits(t)[i] == (BytesBits(s)[i] || (c <= i < c + w && LowBits(n, w)[i - c]))
  {
    var q, r := i / 8, i % 8;
    ByteOffset(i, |s|);
    if q == i0 {
      NoSplitByte(x, s[q], n, m, w, left, sh, r, c, i);
    } else {
      assert t[q] == s[q] && !(c <= i < c + w);
      OredBitSame(s[q], r, n, w, c, i);
    }
    BitAt(s, t, n, w, c, i, q, r);
  }

  /**
   * A write that straddles a byte boundary: its high part `m >> hs` ends
   * byte `i0`, its low part `m << ls` opens byte `i0 + 1`.
   */
  lemma ApplySplit(s: seq<bv8>, t: seq<bv8>, x: bv8, y: bv8, i0: nat, left: nat, c: nat, n: bv8, m: bv8, w: nat, hs: nat, ls: nat)
    requires w == 2 || w == 4 || w == 8
    requires 1 <= left < w && i0 + 1 < |s| && c == 8 * i0 + 8 - left && Fits(m, n, w)
    requires hs == w - left && ls == 8 - w + left
    requires |t| == |s| && t[i0] == x && t[i0 + 1] == y
    requires forall j :: 0 <= j < |s| && j != i0 && j != i0 + 1 ==> t[j] == s[j]
    requires x == s[i0] | ShiftRight(m, hs)
    requires y == s[i0 + 1] | ShiftLeft(m, ls)
    ensures OredInto(BytesBits(t), BytesBits(s), c, LowBits(n, w))
  {
    var a, b, v := BytesBits(t), BytesBits(s), LowBits(n, w);
    forall i | 0 <= i < |b|
      ensures a[i] == (b[i] || (c <= i < c + w && v[i - c]))
    {
      SplitAt(s, t, x, y, i0, left, c, n, m, w, hs, ls, i);
    }
    OredIntoAll(a, b, c, v);
  }

  lemma SplitAt(s: seq<bv8>, t: seq<bv8>, x: bv8, y: bv8, i0: nat, left: nat, c: nat, n: bv8, m: bv8, w: nat, hs: nat, ls: nat, i: nat)
    requires w == 2 || w == 4 || w == 8
    requires 1 <= left < w && i0 + 1 < |s| && i < 8 * |s| && Fits(m, n, w) && c == 8 * i0 + 8 - left
    requires hs == w - left && ls == 8 - w + left
    requires |t| == |s| && t[i0] == x && t[i0 + 1] == y
    requires forall j :: 0 <= j < |s| && j != i0 && j != i0 + 1 ==> t[j] == s[j]
    requires x == s[i0] | ShiftRight(m, hs)
    requires y == s[i0 + 1] | ShiftLeft(m, ls)
    ensures BytesBits(t)[i] == (BytesBits(s)[i] || (c <= i < c + w && LowBits(n, w)[i - c]))
  {
    var q, r := i / 8, i % 8;
    ByteOffset(i, |s|);
    if q == i0 {
      SplitHighAt(s, t, x, i0, left, c, n, m, w, hs, i, q, r);
    } else if q == i0 + 1 {
      SplitLowAt(s, t, y, i0, left, c, n, m, w, ls, i, q, r);
    } else {
      assert t[q] == s[q] && !(c <= i < c + w);
      OredBitSame(s[q], r, n, w, c, i);
      BitAt(s, t, n, w, c, i, q, r);
    }
  }

  lemma SplitHighAt(s: seq<bv8>, t: seq<bv8>, x: bv8, i0: nat, left: nat, c: nat, n: bv8, m: bv8, w: nat, hs: nat, i: nat, q: nat, r: nat)
    requires w == 2 || w == 4 || w == 8
    requires 1 <= left < w && i0 + 1 < |s| && i < 8 * |s| && Fits(m, n, w) && c == 8 * i0 + 8 - left
    requires hs == w - left && q == i0 && i == 8 * q + r && r < 8
    requires |t| == |s| && t[i0] == x && x == s[i0] | ShiftRight(m, hs)
    ensures BytesBits(t)[i] == (BytesBits(s)[i] || (c <= i < c + w && LowBits(n, w)[i - c]))
  {
    SplitHighByte(x, s[q], n, m, w, left, hs, r, c, i);
    BitAt(s, t, n, w, c, i, q, r);
  }

  lemma SplitLowAt(s: seq<bv8>, t: seq<bv8>, y: bv8, i0: nat, left: nat, c: nat, n: bv8, m: bv8, w: nat, ls: nat, i: nat, q: nat, r: nat)
    requires w == 2 || w == 4 || w == 8
    requires 1 <= left < w && i0 + 1 < |s| && i < 8 * |s| && Fits(m, n, w) && c == 8 * i0 + 8 - left
    requires ls == 8 - w + left && q == i0 + 1 && i == 8 * q + r && r < 8
    requires |t| == |s| && t[i0 + 1] == y && y == s[i0 + 1] | ShiftLeft(m, ls)
    ensures BytesBits(t)[i] == (BytesBits(s)[i] || (c <= i < c + w && LowBits(n, w)[i - c]))
  {
    SplitLowByte(y, s[q], n, m, w, left, ls, r, c, i);
    BitAt(s, t, n, w, c, i, q, r);
  }

  /**
   * The bytes `t` after a write of `m` (the low `w` bits of `n`) at the cursor
   * (`i0`, `l0`) of `s`: when the field fits in byte `i0` it is shifted left
   * by `sh` into place there, otherwise its high part (shifted right by `hs`)
   * ends byte `i0` and its low part (shifted left by `ls`) starts byte `i0 + 1`.
   */
  ghost predicate Stored(s: seq<bv8>, t: seq<bv8>, i0: nat, l0: nat, m: bv8, w: nat, sh: nat, hs: nat, ls: nat)
  {
    i0 < |s| && |t| == |s| &&
    if w <= l0 then
      sh == l0 - w && t[i0] == s[i0] | ShiftLeft(m, sh) &&
      forall j :: 0 <= j < |s| && j != i0 ==> t[j] == s[j]
    else
      hs == w - l0 && ls == 8 - w + l0 && i0 + 1 < |s| &&
      t[i0] == s[i0] | ShiftRight(m, hs) && t[i0 + 1] == s[i0 + 1] | ShiftLeft(m, ls) &&
      forall j :: 0 <= j < |s| && j != i0 && j != i0 + 1 ==> t[j] == s[j]
  }

  /**
   * A write of `w` bits at the cursor: the buffer's bits are the old ones
   * with the field ORed in, and when nothing was set past the cursor exactly
   * the field was appended.
   */
  lemma Wrote(s: seq<bv8>, t: seq<bv8>, i0: nat, l0: nat, c: nat, n: bv8, m: bv8, w: nat, sh: nat, hs: nat, ls: nat)
    requires w == 1 || w == 2 || w == 4 || w == 8
    requires 1 <= l0 <= 8 && c == 8 * i0 + 8 - l0
    requires Fits(m, n, w) && Stored(s, t, i0, l0, m, w, sh, hs, ls)
    ensures OredInto(BytesBits(t), BytesBits(s), c, LowBits(n, w))
  {
    if w <= l0 {
      ApplyNoSplit(s, t, t[i0], i0, l0, c, n, m, w, sh);
    } else {
      ApplySplit(s, t, t[i0], t[i0 + 1], i0, l0, c, n, m, w, hs, ls);
    }
  }

  /** The `bitStream` struct: a byte buffer, the byte cursor `index` and the free bits `left` in that byte. */
  class BitStream {
    var data: array<bv8>
    var index: nat
    var left: nat

    /**
     * The cursor invariant: 1..8 bits free in the current byte, the cursor
     * inside the buffer, and past its end only with a whole byte "free".
     */
    ghost predicate Valid()
      reads this
    {
      1 <= left <= 8 && index <= data.Length && (left < 8 ==> index < data.Length)
    }

    /** `Capacity`: the bits the buffer can hold. */
    function Capacity(): (c: nat)
      reads this
      ensures c % 8 == 0 && c / 8 == data.Length
    {
      data.Length * 8
    }

    /** `Count`: the bits written so far. */
    function Count(): (c: nat)
      requires Valid()
      reads this
      ensures c <= Capacity()
    {
      index * 8 + (8 - left)
    }

    /** Whether `needed` more bits fit: the check `ensureState` is meant to make. */
    predicate HasRoom(needed: nat)
      requires Valid()
      reads this
    {
      Count() + needed <= Capacity()
    }

    /** Every bit of the buffer, MSB first within each byte. */
    ghost function Content(): seq<bool>
      reads this, data
    {
      BytesBits(data[..])
    }

    /** The bits written so far. */
    ghost function Written(): seq<bool>
      requires Valid()
      reads this, data
    {
      Content()[..Count()]
    }

    /** No bit past the cursor is set: writes then append exactly their bits. */
    ghost predicate Clean()
      requires Valid()
      reads this, data
    {
      ZeroFrom(Content(), Count())
    }

    /**
     * `newBits`: a fresh zeroed buffer of `(capacity + 7) >> 3` bytes in
     * uint32 arithmetic, which is ceil(capacity / 8) below the wrap-around.
     */
    constructor New(capacity: nat)
      requires capacity < Uint32Limit
      ensures Valid() && Clean() && fresh(data)
      ensures data.Length == NeededBytesAsWritten(capacity)
      ensures capacity + 7 < Uint32Limit ==> capacity <= Capacity() < capacity + 8
      ensures index == 0 && left == 8 && Count() == 0 && Written() == []
    {
      if capacity + 7 < Uint32Limit {
        NeededBytesAsWrittenAgrees(capacity);
      }
      data := new bv8[NeededBytesAsWritten(capacity)](_ => 0);
      index := 0;
      left := 8;
      new;
      ZeroBytesClean(data[..]);
      assert Content() == BytesBits(data[..]) && Count() == 0;
    }

    /** `wrapBits`: a stream over a caller's buffer, which it shares and does not clear. */
    constructor Wrap(buf: array<bv8>)
      ensures Valid() && data == buf
      ensures Capacity() == buf.Length * 8
      ensures index == 0 && left == 8 && Count() == 0 && Written() == []
    {
      data := buf;
      index := 0;
      left := 8;
    }

    /** `ensureState` with the corrected room test: a write of `needed` bits stays in the buffer. */
    lemma HasRoomPassesGuard(needed: nat)
      requires Valid() && HasRoom(needed) && needed >= 1
      ensures GuardAsWritten(data.Length, index, left, needed)
    {
    }

    /** A field ORed in at the end of what was written, with nothing set past it, is appended. */
    lemma AppendedWhenClean(s: seq<bool>, c: nat, v: seq<bool>)
      requires Valid() && OredInto(Content(), s, c, v) && Count() == c + |v|
      requires ZeroFrom(s, c)
      ensures Clean() && Written() == s[..c] + v
    {
      OrIntoClean(Content(), s, c, v);
    }

    /** `Write1`: append the low bit of `n`. */
    method Write1(n: bv8)
      requires Valid() && HasRoom(1)
      modifies this, data
      ensures Valid() && data == old(data)
      ensures Count() == old(Count()) + 1
      ensures OredInto(Content(), old(Content()), old(Count()), LowBits(n, 1))
      ensures old(Clean()) ==> Clean() && Written() == old(Written()) + LowBits(n, 1)
    {
      var v := n & 1;
      MaskedFits(n, 1, 1);
      if left == 0 {
        assert false;
      } else if left == 1 {
        PutClosing(n, v, 1);
      } else {
        PutWithin(n, v, 1);
      }
    }

    /** `Write2`: append the low two bits of `n`, MSB first. */
    method Write2(n: bv8)
      requires Valid() && HasRoom(2)
      modifies this, data
      ensures Valid() && data == old(data)
      ensures Count() == old(Count()) + 2
      ensures OredInto(Content(), old(Content()), old(Count()), LowBits(n, 2))
      ensures old(Clean()) ==> Clean() && Written() == old(Written()) + LowBits(n, 2)
    {
      var v := n & 3;
      MaskedFits(n, 3, 2);
      if left == 0 {
        assert false;
      } else if left == 1 {
        PutSplit(n, v, 2);
      } else if left == 2 {
        PutClosing(n, v, 2);
      } else {
        PutWithin(n, v, 2);
      }
    }

    /** `Write4`: append the low four bits of `n`, MSB first. */
    method Write4(n: bv8)
      requires Valid() && HasRoom(4)
      modifies this, data
      ensures Valid() && data == old(data)
      ensures Count() == old(Count()) + 4
      ensures OredInto(Content(), old(Content()), old(Count()), LowBits(n, 4))
      ensures old(Clean()) ==> Clean() && Written() == old(Written()) + LowBits(n, 4)
    {
      var v := n & 0xF;
      MaskedFits(n, 0xF, 4);
      if left > 4 {
        PutWithin(n, v, 4);
      } else if left == 4 {
        PutClosing(n, v, 4);
      } else {
        PutSplit(n, v, 4);
      }
    }

    /** `Write8`: append all eight bits of `n`, MSB first. */
    method Write8(n: bv8)
      requires Valid() && HasRoom(8)
      modifies this, data
      ensures Valid() && data == old(data)
      ensures Count() == old(Count()) + 8
      ensures OredInto(Content(), old(Content()), old(Count()), LowBits(n, 8))
      ensures old(Clean()) ==> Clean() && Written() == old(Written()) + LowBits(n, 8)
    {
      WholeFits(n);
      if left == 0 {
        assert false;
      } else if left == 8 {
        PutClosing(n, n, 8);
      } else {
        PutSplit(n, n, 8);
      }
    }

    /**
     * The arm of a write where the field `m` (the low `w` bits of `n`) ends
     * before the current byte does: it is shifted into place and the free
     * bits shrink by `w`.
     */
    method PutWithin(n: bv8, m: bv8, w: nat)
      requires Valid() && HasRoom(w)
      requires w == 1 || w == 2 || w == 4 || w == 8
      requires Fits(m, n, w)
      requires w < left
      modifies this, data
      ensures Valid() && data == old(data)
      ensures Count() == old(Count()) + w
      ensures OredInto(Content(), old(Content()), old(Count()), LowBits(n, w))
      ensures old(Clean()) ==> Clean() && Written() == old(Written()) + LowBits(n, w)
    {
      ghost var s, i0, l0, c := data[..], index, left, Count();
      data[index] := data[index] | ShiftLeft(m, left - w);
      left := left - w;
      Wrote(s, data[..], i0, l0, c, n, m, w, l0 - w, 0, 0);
      if ZeroFrom(BytesBits(s), c) {
        AppendedWhenClean(BytesBits(s), c, LowBits(n, w));
      }
    }

    /**
     * The arm where the field fills exactly the free bits of the current
     * byte: it is ORed in unshifted and the cursor moves to the next byte.
     */
    method PutClosing(n: bv8, m: bv8, w: nat)
      requires Valid() && HasRoom(w)
      requires w == 1 || w == 2 || w == 4 || w == 8
      requires Fits(m, n, w)
      requires w == left
      modifies this, data
      ensures Valid() && data == old(data)
      ensures Count() == old(Count()) + w
      ensures OredInto(Content(), old(Content()), old(Count()), LowBits(n, w))
      ensures old(Clean()) ==> Clean() && Written() == old(Written()) + LowBits(n, w)
    {
      ghost var s, i0, l0, c := data[..], index, left, Count();
      data[index] := data[index] | m;
      index := index + 1;
      left := 8;
      Wrote(s, data[..], i0, l0, c, n, m, w, 0, 0, 0);
      if ZeroFrom(BytesBits(s), c) {
        AppendedWhenClean(BytesBits(s), c, LowBits(n, w));
      }
    }

    /**
     * The arm where the field is wider than the free bits: its high part ends
     * the current byte, the cursor moves on, and its low part starts the next
     * byte, leaving `8 - w + left` bits free there.
     */
    method PutSplit(n: bv8, m: bv8, w: nat)
      requires Valid() && HasRoom(w)
      requires w == 1 || w == 2 || w == 4 || w == 8
      requires Fits(m, n, w)
      requires left < w
      modifies this, data
      ensures Valid() && data == old(data)
      ensures Count() == old(Count()) + w
      ensures OredInto(Content(), old(Content()), old(Count()), LowBits(n, w))
      ensures old(Clean()) ==> Clean() && Written() == old(Written()) + LowBits(n, w)
    {
      ghost var s, i0, l0, c := data[..], index, left, Count();
      data[index] := data[index] | ShiftRight(m, w - left);
      index := index + 1;
      left := 8 - w + left;
      data[index] := data[index] | ShiftLeft(m, left);
      Wrote(s, data[..], i0, l0, c, n, m, w, 0, w - l0, left);
      if ZeroFrom(BytesBits(s), c) {
        AppendedWhenClean(BytesBits(s), c, LowBits(n, w));
      }
    }
  }
}
