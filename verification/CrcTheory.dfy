/** Division of bit strings by a polynomial over GF(2), as the bit-serial engine defines
    it, and why whole chunks of bits can be divided with a table.  Everything holds for
    every register width of at least one bit and every polynomial. */
module CrcTheory {
  import opened BitStrings

  /** One step of the shift register: the incoming bit is compared with the top bit, and
      if they differ the polynomial is subtracted after the shift. */
  function Step(poly: Bits, r: Bits, b: bool): (r': Bits)
    requires |poly| == |r| > 0
    ensures |r'| == |r|
  {
    Xor(ShiftLeft(r, 1), Selected(poly, r[|r| - 1] != b))
  }

  function Selected(poly: Bits, c: bool): (p: Bits)
    ensures |p| == |poly|
  {
    if c then poly else Zeros(|poly|)
  }

  /** The register after a string of bits. */
  function Feed(poly: Bits, r: Bits, bs: Bits): (r': Bits)
    requires |poly| == |r| > 0
    ensures |r'| == |r|
    decreases |bs|
  {
    if bs == [] then r else Feed(poly, Step(poly, r, bs[0]), bs[1..])
  }

  lemma {:induction false} FeedConcat(poly: Bits, r: Bits, x: Bits, y: Bits)
    requires |poly| == |r| > 0
    ensures Feed(poly, r, x + y) == Feed(poly, Feed(poly, r, x), y)
    decreases |x|
  {
    if x == [] {
      assert x + y == y;
    } else {
      assert (x + y)[1..] == x[1..] + y;
      FeedConcat(poly, Step(poly, r, x[0]), x[1..], y);
    }
  }

  lemma {:induction false} FeedOneMore(poly: Bits, r: Bits, x: Bits, b: bool)
    requires |poly| == |r| > 0
    ensures Feed(poly, r, x + [b]) == Step(poly, Feed(poly, r, x), b)
  {
    FeedConcat(poly, r, x, [b]);
    assert Feed(poly, Feed(poly, r, x), [b]) == Feed(poly, Step(poly, Feed(poly, r, x), b), []);
  }

  /** The top k bits of a register in the order in which they are shifted out; a register
      of fewer bits is followed by zeros. */
  function Top(r: Bits, k: nat): (t: Bits)
    ensures |t| == k
  {
    seq(k, i requires 0 <= i => i < |r| && r[|r| - 1 - i])
  }

  /** What division does to k bits, from an empty register. */
  function Quotient(poly: Bits, bs: Bits): (r: Bits)
    requires |poly| > 0
    ensures |r| == |poly|
  {
    Feed(poly, Zeros(|poly|), bs)
  }

  lemma {:induction false} QuotientStep(poly: Bits, y: Bits)
    requires |poly| > 0 && y != []
    ensures Quotient(poly, y) == Feed(poly, Selected(poly, y[0]), y[1..])
  {
    assert Step(poly, Zeros(|poly|), y[0]) == Selected(poly, y[0]);
  }

  /** Bits compared after a step are those compared before it, corrected by the part of the
      polynomial that was added. */
  lemma {:induction false} TopAfterStep(r: Bits, p: Bits, x: Bits, k: nat)
    requires |r| == |p| > 0 && |x| == k + 1
    ensures Xor(Xor(x, Top(r, k + 1))[1..], Top(p, k)) == Xor(x[1..], Top(Xor(ShiftLeft(r, 1), p), k))
  {
  }

  lemma {:induction false} ShiftAfterStep(r: Bits, p: Bits, q: Bits, k: nat)
    requires |r| == |p| == |q|
    ensures Xor(ShiftLeft(r, k + 1), Xor(ShiftLeft(p, k), q)) == Xor(ShiftLeft(Xor(ShiftLeft(r, 1), p), k), q)
  {
  }

  /** Feeding k bits to a register is shifting it k places and adding the division of the
      bits that were compared with its top.  This is what makes a table enough. */
  lemma {:induction false} Absorb(poly: Bits, r: Bits, bs: Bits)
    requires |poly| == |r| > 0
    ensures Feed(poly, r, bs) == Xor(ShiftLeft(r, |bs|), Quotient(poly, Xor(bs, Top(r, |bs|))))
    decreases |bs|
  {
    if bs == [] {
      assert Xor(bs, Top(r, 0)) == [];
      assert Xor(ShiftLeft(r, 0), Zeros(|r|)) == r;
    } else {
      var k, rest := |bs| - 1, bs[1..];
      var p := Selected(poly, r[|r| - 1] != bs[0]);
      var r1, y := Step(poly, r, bs[0]), Xor(bs, Top(r, |bs|));
      Absorb(poly, r1, rest);
      QuotientStep(poly, y);
      Absorb(poly, p, y[1..]);
      TopAfterStep(r, p, bs, k);
      ShiftAfterStep(r, p, Quotient(poly, Xor(rest, Top(r1, k))), k);
    }
  }

  // ---------------------------------------------------------------------------------
  // Augmented messages

  /** One step when the message itself is shifted through the register from below. */
  function AugmentedStep(poly: Bits, r: Bits, b: bool): (r': Bits)
    requires |poly| == |r| > 0
    ensures |r'| == |r|
  {
    Xor([b] + r[..|r| - 1], Selected(poly, r[|r| - 1]))
  }

  function AugmentedFeed(poly: Bits, r: Bits, bs: Bits): (r': Bits)
    requires |poly| == |r| > 0
    ensures |r'| == |r|
    decreases |bs|
  {
    if bs == [] then r else AugmentedFeed(poly, AugmentedStep(poly, r, bs[0]), bs[1..])
  }

  lemma {:induction false} AugmentedFeedConcat(poly: Bits, r: Bits, x: Bits, y: Bits)
    requires |poly| == |r| > 0
    ensures AugmentedFeed(poly, r, x + y) == AugmentedFeed(poly, AugmentedFeed(poly, r, x), y)
    decreases |x|
  {
    if x == [] {
      assert x + y == y;
    } else {
      assert (x + y)[1..] == x[1..] + y;
      AugmentedFeedConcat(poly, AugmentedStep(poly, r, x[0]), x[1..], y);
    }
  }

  lemma {:induction false} TopAfterAugmentedStep(r: Bits, p: Bits, b: bool, k: nat)
    requires |r| == |p| && k < |r|
    ensures Xor(Top(r, k + 1)[1..], Top(p, k)) == Top(Xor([b] + r[..|r| - 1], p), k)
  {
  }

  lemma {:induction false} ShiftAfterAugmentedStep(r: Bits, p: Bits, q: Bits, x: Bits, k: nat)
    requires |r| == |p| == |q| && |x| == k + 1 <= |r|
    ensures Xor(Reverse(x) + r[..|r| - (k + 1)], Xor(ShiftLeft(p, k), q))
         == Xor(Reverse(x[1..]) + Xor([x[0]] + r[..|r| - 1], p)[..|r| - k], q)
  {
  }

  /** Dividing the top k + 1 bits of a register is dividing its top bit and then the top k
      bits after one augmented step. */
  lemma {:induction false} QuotientOfTop(poly: Bits, r: Bits, b: bool, k: nat, p: Bits, r1: Bits)
    requires |poly| == |r| > k
    requires p == Selected(poly, r[|r| - 1]) && r1 == AugmentedStep(poly, r, b)
    ensures Quotient(poly, Top(r, k + 1)) == Xor(ShiftLeft(p, k), Quotient(poly, Top(r1, k)))
  {
    var y := Top(r, k + 1);
    QuotientStep(poly, y);
    Absorb(poly, p, y[1..]);
    TopAfterAugmentedStep(r, p, b, k);
  }

  /** Shifting up to a register's width of bits in from below: the bits that leave at the
      top are divided, the new ones only take their places. */
  lemma {:induction false} AugmentedAbsorb(poly: Bits, r: Bits, bs: Bits, k: nat)
    requires |poly| == |r| >= |bs| == k && |r| > 0
    ensures AugmentedFeed(poly, r, bs) == Xor(Reverse(bs) + r[..|r| - k], Quotient(poly, Top(r, k)))
    decreases k
  {
    if k == 0 {
      AugmentedAbsorbNothing(poly, r);
    } else {
      var rest, p, r1 := bs[1..], Selected(poly, r[|r| - 1]), AugmentedStep(poly, r, bs[0]);
      AugmentedAbsorb(poly, r1, rest, k - 1);
      var q := Quotient(poly, Top(r1, k - 1));
      assert AugmentedFeed(poly, r, bs) == Xor(Reverse(rest) + r1[..|r| - (k - 1)], q);
      ShiftAfterAugmentedStep(r, p, q, bs, k - 1);
      QuotientOfTop(poly, r, bs[0], k - 1, p, r1);
    }
  }

  lemma {:induction false} AugmentedAbsorbNothing(poly: Bits, r: Bits)
    requires |poly| == |r| > 0
    ensures r == Xor(Reverse([]) + r[..|r|], Quotient(poly, Top(r, 0)))
  {
    assert Top(r, 0) == [];
    assert Reverse([]) + r[..|r|] == r;
  }

  lemma {:induction false} ReverseAfterAugmentedStep(r: Bits, p: Bits, b: bool)
    requires |r| == |p| > 0
    ensures Xor((Reverse(r) + [b])[1..], Top(p, |p|)) == Reverse(Xor([b] + r[..|r| - 1], p))
  {
  }

  /** Dividing the register's own bits commutes with feeding it one more. */
  lemma {:induction false} AugmentedStepIsFeed(poly: Bits, r: Bits, b: bool)
    requires |poly| == |r| > 0
    ensures Quotient(poly, Reverse(AugmentedStep(poly, r, b))) == Quotient(poly, Reverse(r) + [b])
  {
    var p := Selected(poly, r[|r| - 1]);
    var y := (Reverse(r) + [b])[1..];
    var q := Quotient(poly, Reverse(AugmentedStep(poly, r, b)));
    assert Feed(poly, p, y) == Xor(ShiftLeft(p, |p|), q) by {
      Absorb(poly, p, y);
      ReverseAfterAugmentedStep(r, p, b);
    }
    XorShiftedOut(p, q);
    QuotientStep(poly, Reverse(r) + [b]);
  }

  lemma {:induction false} XorShiftedOut(p: Bits, q: Bits)
    requires |p| == |q|
    ensures Xor(ShiftLeft(p, |p|), q) == q
  {
  }

  lemma {:induction false} XorZeros(q: Bits)
    ensures Xor(Zeros(|q|), q) == q
  {
  }

  /** Two words cancel exactly when they are equal. */
  lemma {:induction false} XorCancels(a: Bits, b: Bits)
    requires |a| == |b|
    ensures Xor(a, b) == Zeros(|a|) <==> a == b
  {
    if Xor(a, b) == Zeros(|a|) {
      forall i | 0 <= i < |a| ensures a[i] == b[i] {
        assert !Xor(a, b)[i];
      }
    } else {
      var i :| 0 <= i < |a| && Xor(a, b)[i] != Zeros(|a|)[i];
    }
  }

  lemma {:induction false} ReverseTwice(a: Bits)
    ensures Reverse(Reverse(a)) == a
  {
  }

  /** Two prefixes with the same remainder can be exchanged. */
  lemma {:induction false} SwapPrefix(poly: Bits, x: Bits, y: Bits, rest: Bits)
    requires |poly| > 0 && Quotient(poly, x) == Quotient(poly, y)
    ensures Quotient(poly, x + rest) == Quotient(poly, y + rest)
  {
    FeedConcat(poly, Zeros(|poly|), x, rest);
    FeedConcat(poly, Zeros(|poly|), y, rest);
  }

  lemma {:induction false} AugmentedIsFeed(poly: Bits, r: Bits, bs: Bits)
    requires |poly| == |r| > 0
    ensures Quotient(poly, Reverse(AugmentedFeed(poly, r, bs))) == Quotient(poly, Reverse(r) + bs)
    decreases |bs|
  {
    if bs == [] {
      assert Reverse(r) + bs == Reverse(r);
    } else {
      var r1 := AugmentedStep(poly, r, bs[0]);
      AugmentedIsFeed(poly, r1, bs[1..]);
      AugmentedStepIsFeed(poly, r, bs[0]);
      SwapPrefix(poly, Reverse(r1), Reverse(r) + [bs[0]], bs[1..]);
      assert Reverse(r) + [bs[0]] + bs[1..] == Reverse(r) + bs;
    }
  }

  /** A register's width of trailing bits: they are added to the plain remainder of what
      came before, which for the purpose begins with the initial register's bits. */
  lemma {:induction false} AugmentedTrailer(poly: Bits, r: Bits, bs: Bits, trailer: Bits)
    requires |poly| == |r| == |trailer| > 0
    ensures AugmentedFeed(poly, r, bs + trailer) == Xor(Reverse(trailer), Quotient(poly, Reverse(r) + bs))
  {
    var s := AugmentedFeed(poly, r, bs);
    AugmentedFeedConcat(poly, r, bs, trailer);
    AugmentedAbsorb(poly, s, trailer, |s|);
    assert Top(s, |s|) == Reverse(s);
    assert Reverse(trailer) + s[..0] == Reverse(trailer);
    AugmentedIsFeed(poly, r, bs);
  }

  /** Leading zeros do not disturb an empty register. */
  lemma {:induction false} ZerosFeedNothing(poly: Bits, k: nat)
    requires |poly| > 0
    ensures Quotient(poly, Zeros(k)) == Zeros(|poly|)
    decreases k
  {
    if k > 0 {
      QuotientStep(poly, Zeros(k));
      assert Zeros(k)[1..] == Zeros(k - 1);
      ZerosFeedNothing(poly, k - 1);
    }
  }

  /** From an empty register, a message followed by zeros leaves the plain remainder. */
  lemma {:induction false} AugmentedByZeros(poly: Bits, bs: Bits)
    requires |poly| > 0
    ensures AugmentedFeed(poly, Zeros(|poly|), bs + Zeros(|poly|)) == Quotient(poly, bs)
  {
    AugmentedFromEmpty(poly, bs, Zeros(|poly|));
    assert Reverse(Zeros(|poly|)) == Zeros(|poly|);
    XorZeros(Quotient(poly, bs));
  }

  lemma {:induction false} AugmentedFromEmpty(poly: Bits, bs: Bits, trailer: Bits)
    requires |poly| == |trailer| > 0
    ensures AugmentedFeed(poly, Zeros(|poly|), bs + trailer) == Xor(Reverse(trailer), Quotient(poly, bs))
  {
    var n := |poly|;
    AugmentedTrailer(poly, Zeros(n), bs, trailer);
    assert Reverse(Zeros(n)) == Zeros(n);
    FeedConcat(poly, Zeros(n), Zeros(n), bs);
    ZerosFeedNothing(poly, n);
  }

  /** From an empty register, a message with a trailer leaves zero exactly when the
      trailer is the plain remainder, most significant bit first. */
  lemma {:induction false} ZeroIffTrailerIsRemainder(poly: Bits, bs: Bits, trailer: Bits)
    requires |poly| == |trailer| > 0
    ensures AugmentedFeed(poly, Zeros(|poly|), bs + trailer) == Zeros(|poly|)
            <==> trailer == Reverse(Quotient(poly, bs))
  {
    var q := Quotient(poly, bs);
    AugmentedFromEmpty(poly, bs, trailer);
    XorCancels(Reverse(trailer), q);
    ReverseTwice(trailer);
    ReverseTwice(q);
  }
}
