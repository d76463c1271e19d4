/** The twelve-bit sequence numbers of 802.11 headers and their conversion to and
    from the simulator's unbounded ("non-wrapping") counters. */
module SequenceNumbers {

  type SeqNum = n: nat | n < 4096

  /** Circular "less than": the shorter way round the ring of 4096 leads upwards. */
  predicate TwelveBitLessThan(a: SeqNum, b: SeqNum) {
    (a < b && b - a <= 4095 / 2) || (a > b && a - b > 4095 / 2)
  }

  /** A representative of a - b modulo 4096 of least magnitude.  At the antipode both
      +2048 and -2048 qualify, and the larger operand decides which one is taken. */
  function TwelveBitDifference(a: SeqNum, b: SeqNum): (d: int)
    ensures (b + d) % 4096 == a
    ensures -2048 <= d <= 2048
    ensures d == 2048 ==> a < b
    ensures d == -2048 ==> b < a
  {
    if TwelveBitLessThan(a, b) then
      if a <= b then a - b else a - 4096 - b
    else
      if a >= b then a - b else a + (4096 - b)
  }

  /** The low twelve bits of a non-wrapping number. */
  function ToHeader(n: nat): SeqNum {
    n % 4096
  }

  /** The non-wrapping number a header stands for, near a reference number.  The source
      asserts that the result is not negative; callers state that as a precondition. */
  function ToNonWrapping(reference: nat, header: SeqNum): int {
    reference + TwelveBitDifference(header, ToHeader(reference))
  }

  /** The numbers whose header decodes back to them: less than half the ring away, or
      exactly half the ring away on the side that the comparison of headers favours. */
  predicate Decodable(reference: nat, n: nat) {
    || -2048 < n - reference < 2048
    || (n == reference + 2048 && reference % 4096 >= 2048)
    || (n + 2048 == reference && reference % 4096 < 2048)
  }

  /** Decoding a truncated number gives it back exactly on the Decodable numbers. */
  lemma DecodeAfterTruncate(reference: nat, n: nat)
    ensures ToNonWrapping(reference, ToHeader(n)) == n <==> Decodable(reference, n)
  {
    var d := TwelveBitDifference(ToHeader(n), ToHeader(reference));
    var r, k := reference % 4096, reference / 4096;
    assert reference == 4096 * k + r;
    var m, j := n % 4096, n / 4096;
    assert n == 4096 * j + m;
  }

  /** Below half the ring, the difference of two headers is the difference of the numbers. */
  lemma DifferenceIsDistance(w: nat, n: nat)
    requires w <= n < w + 2048
    ensures TwelveBitDifference(ToHeader(n), ToHeader(w)) == n - w
  {
    DecodeAfterTruncate(w, n);
  }

  /** Truncating a decoded number gives the header back, for every header. */
  lemma TruncateAfterDecode(reference: nat, header: SeqNum)
    requires ToNonWrapping(reference, header) >= 0
    ensures ToHeader(ToNonWrapping(reference, header)) == header
  {
    var r, k := reference % 4096, reference / 4096;
    var d := TwelveBitDifference(header, r);
    assert reference + d == 4096 * k + (r + d);
    assert (reference + d) % 4096 == (r + d) % 4096;
  }

  /** The symmetric range of 4096 numbers around the reference is not decodable as a
      whole: half the ring above the reference 4096 comes back half the ring below it. */
  lemma HalfRingIsAmbiguous()
    ensures ToNonWrapping(4096, ToHeader(4096 + 2048)) == 2048
    ensures ToNonWrapping(4096 + 2048, ToHeader(4096)) == 4096 + 4096
  {
  }
}
