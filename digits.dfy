/**
 * Decimal digit counts (internal/qrcode/digits.go): the threshold chains
 * `computeDigits` and `computeDigitsUInt32`, the descending switch, the
 * nested-branch variant and the divide-by-ten loop, all measured against one
 * reference count.
 */
module Digits {

  /** Go's `uint32`. */
  type uint32 = x: nat | x < 0x1_0000_0000

  /** Go's `uint64`. */
  type uint64 = x: nat | x < 0x1_0000_0000_0000_0000

  /** `10^k`. */
  function Pow10(k: nat): (p: nat)
    ensures p >= 1
  {
    if k == 0 then 1 else 10 * Pow10(k - 1)
  }

  /**
   * The reference count: one digit for 0..9, and one more for every division
   * by ten it takes to get there.
   */
  function DigitCount(n: nat): (k: nat)
    ensures k >= 1
  {
    if n <= 9 then 1 else 1 + DigitCount(n / 10)
  }

  lemma {:induction false} Pow10AtLeastTen(k: nat)
    requires k >= 1
    ensures Pow10(k) >= 10
  {
    if k > 1 {
      Pow10AtLeastTen(k - 1);
    }
  }

  /**
   * A number has `k` digits exactly when it lies below `10^k` and, unless
   * `k` is 1, at or above `10^(k-1)`.
   */
  lemma {:induction false} DigitCountIs(n: nat, k: nat)
    requires k >= 1
    ensures DigitCount(n) == k <==> (k == 1 || Pow10(k - 1) <= n) && n < Pow10(k)
    decreases k
  {
    if n <= 9 {
      if k > 1 {
        Pow10AtLeastTen(k - 1);
      }
    } else if k > 1 {
      DigitCountIs(n / 10, k - 1);
      if k > 2 {
        assert Pow10(k - 2) <= n / 10 <==> Pow10(k - 1) <= n;
      }
    }
  }

  /** `computeDigits`: the digit count of a 64-bit number by nineteen thresholds. */
  function ComputeDigits(num: uint64): (r: nat)
    ensures 1 <= r <= 20
  {
    if num < 10 then 1
    else if num < 100 then 2
    else if num < 1_000 then 3
    else if num < 10_000 then 4
    else if num < 100_000 then 5
    else if num < 1_000_000 then 6
    else if num < 10_000_000 then 7
    else if num < 100_000_000 then 8
    else if num < 1_000_000_000 then 9
    else if num < 10_000_000_000 then 10
    else if num < 100_000_000_000 then 11
    else if num < 1_000_000_000_000 then 12
    else if num < 10_000_000_000_000 then 13
    else if num < 100_000_000_000_000 then 14
    else if num < 1_000_000_000_000_000 then 15
    else if num < 10_000_000_000_000_000 then 16
    else if num < 100_000_000_000_000_000 then 17
    else if num < 1_000_000_000_000_000_000 then 18
    else if num < 10_000_000_000_000_000_000 then 19
    else 20
  }

  /**
   * The thresholds are the powers of ten: `computeDigits` is the reference
   * count for every 64-bit number, so `10^(r-1) <= num < 10^r` for `num > 0`.
   */
  lemma ComputeDigitsCorrect(num: uint64)
    ensures ComputeDigits(num) == DigitCount(num)
    ensures num > 0 ==> Pow10(DigitCount(num) - 1) <= num < Pow10(DigitCount(num))
  {
    var r := ComputeDigits(num);
    assert Pow10(r) == 10 * Pow10(r - 1);
    DigitCountIs(num, r);
    DigitCountIs(num, DigitCount(num));
  }

  /** `computeDigitsUInt32`: the same chain stopped at ten digits. */
  function ComputeDigitsUInt32(num: uint32): (r: nat)
    ensures 1 <= r <= 10
  {
    if num < 10 then 1
    else if num < 100 then 2
    else if num < 1_000 then 3
    else if num < 10_000 then 4
    else if num < 100_000 then 5
    else if num < 1_000_000 then 6
    else if num < 10_000_000 then 7
    else if num < 100_000_000 then 8
    else if num < 1_000_000_000 then 9
    else 10
  }

  /** On 32-bit numbers the short chain agrees with the 64-bit one. */
  lemma ComputeDigitsUInt32Agrees(num: uint32)
    ensures ComputeDigitsUInt32(num) == ComputeDigits(num) == DigitCount(num)
  {
    ComputeDigitsCorrect(num);
  }

  /** `computeDigitsUInt32_Switch`: the thresholds compared from the top down. */
  function ComputeDigitsSwitch(num: uint32): (r: nat)
    ensures 1 <= r <= 10
  {
    if num > 999_999_999 then 10
    else if num > 99_999_999 then 9
    else if num > 9_999_999 then 8
    else if num > 999_999 then 7
    else if num > 99_999 then 6
    else if num > 9_999 then 5
    else if num > 999 then 4
    else if num > 99 then 3
    else if num > 9 then 2
    else 1
  }

  lemma ComputeDigitsSwitchAgrees(num: uint32)
    ensures ComputeDigitsSwitch(num) == ComputeDigitsUInt32(num) == DigitCount(num)
  {
    ComputeDigitsUInt32Agrees(num);
  }

  /**
   * `computeDigitsUInt32_Branch` as written: a binary search over the
   * thresholds whose last test is `num > 10` where the others use `>=`.
   */
  function ComputeDigitsBranch(num: uint32): (r: nat)
    ensures 1 <= r <= 10
  {
    if num >= 10_000 then
      if num >= 1_000_000 then
        if num >= 100_000_000 then
          if num >= 1_000_000_000 then 10 else 9
        else if num >= 10_000_000 then 8
        else 7
      else if num >= 100_000 then 6
      else 5
    else if num >= 100 then
      if num >= 1000 then 4 else 3
    else if num > 10 then 2
    else 1
  }

  /** Everywhere but at ten the binary search gives the digit count. */
  lemma ComputeDigitsBranchAgrees(num: uint32)
    requires num != 10
    ensures ComputeDigitsBranch(num) == DigitCount(num)
  {
    ComputeDigitsUInt32Agrees(num);
  }

  /** Ten has two digits, but the binary search as written counts one. */
  lemma ComputeDigitsBranchAtTen()
    ensures ComputeDigitsBranch(10) == 1 && DigitCount(10) == 2
  {
  }

  /** The binary search with the last test written `num >= 10`. */
  function ComputeDigitsBranchFixed(num: uint32): (r: nat)
    ensures r == DigitCount(num)
  {
    ComputeDigitsUInt32Agrees(num);
    if num >= 10_000 then
      if num >= 1_000_000 then
        if num >= 100_000_000 then
          if num >= 1_000_000_000 then 10 else 9
        else if num >= 10_000_000 then 8
        else 7
      else if num >= 100_000 then 6
      else 5
    else if num >= 100 then
      if num >= 1000 then 4 else 3
    else if num >= 10 then 2
    else 1
  }

  /**
   * `computeDigitsUInt32_Compute`: divide by ten until one digit is left,
   * counting the divisions; `x` strictly decreases, so the loop ends.
   */
  method ComputeDigitsCompute(num: uint32) returns (n: nat)
    ensures n == DigitCount(num) && n <= 10
  {
    var x: nat := num;
    n := 1;
    while x > 9
      invariant n >= 1 && n - 1 + DigitCount(x) == DigitCount(num)
      decreases x
    {
      x := x / 10;
      n := n + 1;
    }
    ComputeDigitsUInt32Agrees(num);
  }
}
