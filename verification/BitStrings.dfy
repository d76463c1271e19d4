/** Machine words and messages as strings of bits.  A word keeps its least significant bit
    at index 0; a message is listed in the order in which its bits are transmitted. */
module BitStrings {
  import opened Powers

  type Bits = seq<bool>

  function Zeros(n: nat): (r: Bits)
    ensures |r| == n
  {
    seq(n, i => false)
  }

  /** Bitwise exclusive or of two words of the same width. */
  function Xor(a: Bits, b: Bits): (r: Bits)
    requires |a| == |b|
    ensures |r| == |a|
  {
    seq(|a|, i requires 0 <= i < |a| => a[i] != b[i])
  }

  /** Shift towards the most significant end, within the width. */
  function ShiftLeft(a: Bits, k: nat): (r: Bits)
    ensures |r| == |a|
  {
    seq(|a|, i requires 0 <= i < |a| => i >= k && a[i - k])
  }

  /** Shift towards the least significant end. */
  function ShiftRight(a: Bits, k: nat): (r: Bits)
    ensures |r| == |a|
  {
    seq(|a|, i requires 0 <= i < |a| => i + k < |a| && a[i + k])
  }

  function Reverse(a: Bits): (r: Bits)
    ensures |r| == |a|
  {
    seq(|a|, i requires 0 <= i < |a| => a[|a| - 1 - i])
  }

  // ---------------------------------------------------------------------------------
  // Words as numbers

  function ToNat(a: Bits): (n: nat) {
    if a == [] then 0 else (if a[0] then 1 else 0) + 2 * ToNat(a[1..])
  }

  function FromNat(n: nat, width: nat): (a: Bits)
    ensures |a| == width
  {
    if width == 0 then [] else [n % 2 == 1] + FromNat(n / 2, width - 1)
  }

  lemma {:induction false} FromToNat(a: Bits)
    ensures ToNat(a) < Pow2(|a|) && FromNat(ToNat(a), |a|) == a
  {
    if a != [] {
      FromToNat(a[1..]);
    }
  }

  lemma {:induction false} ToFromNat(n: nat, width: nat)
    requires n < Pow2(width)
    ensures ToNat(FromNat(n, width)) == n
  {
    if width > 0 {
      ToFromNat(n / 2, width - 1);
    }
  }
}
