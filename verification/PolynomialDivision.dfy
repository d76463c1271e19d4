/** What the register of a CRC engine holds, in terms of polynomials over GF(2) alone: the remainder
    of dividing the message, shifted up by the register's width, by the polynomial.  A polynomial
    is the string of its coefficients, that of x^0 first. */
module PolynomialDivision {
  import opened BitStrings
  import opened CrcTheory

  /** The whole polynomial: its truncated form and the leading one. */
  function Divisor(poly: Bits): (p: Bits)
    ensures |p| == |poly| + 1
  {
    poly + [true]
  }

  /** The product of a polynomial of |q| coefficients with the divisor. */
  function Times(q: Bits, poly: Bits): (r: Bits)
    ensures |r| == |q| + |poly|
  {
    if q == [] then Zeros(|poly|)
    else Xor(if q[0] then Divisor(poly) + Zeros(|q| - 1) else Zeros(|q| + |poly|), [false] + Times(q[1..], poly))
  }

  /** The message as a polynomial, first bit leading, times x^n, with the register's initial value
      added to its n leading places. */
  function Dividend(init: Bits, bs: Bits): (d: Bits)
    ensures |d| == |bs| + |init|
  {
    Xor(Zeros(|init|) + Reverse(bs), Zeros(|bs|) + init)
  }

  /** One more bit of message is one more place. */
  lemma {:induction false} DividendGrows(init: Bits, bs: Bits, b: bool)
    requires |init| > 0
    ensures Dividend(init, bs + [b]) ==
            Xor([false] + Dividend(init, bs), Zeros(|init|) + [b] + Zeros(|bs|))
  {
    var n, k := |init|, |bs|;
    var l, r := Dividend(init, bs + [b]), Xor([false] + Dividend(init, bs), Zeros(n) + [b] + Zeros(k));
    assert Reverse(bs + [b]) == [b] + Reverse(bs);
    forall i | 0 <= i < n + k + 1
      ensures l[i] == r[i]
    {
      if i > n {
        assert (Zeros(n) + ([b] + Reverse(bs)))[i] == Reverse(bs)[i - n - 1];
        assert (Zeros(n) + Reverse(bs))[i - 1] == Reverse(bs)[i - 1 - n];
      }
    }
  }

  /** One step of the register, as an identity of polynomials. */
  lemma {:induction false} StepIdentity(poly: Bits, r: Bits, b: bool, top: bool, k: nat)
    requires |poly| == |r| > 0 && top == (r[|r| - 1] != b)
    ensures Xor([false] + (r + Zeros(k)), Zeros(|r|) + [b] + Zeros(k)) ==
            Xor(if top then Divisor(poly) + Zeros(k) else Zeros(k + 1 + |poly|), Step(poly, r, b) + Zeros(k + 1))
  {
    var n := |r|;
    var x := if top then Divisor(poly) + Zeros(k) else Zeros(k + 1 + n);
    var s := Step(poly, r, b);
    forall i | 0 <= i < n + k + 1
      ensures Xor([false] + (r + Zeros(k)), Zeros(n) + [b] + Zeros(k))[i] == Xor(x, s + Zeros(k + 1))[i]
    {
      if i < n {
        assert s[i] == ((i >= 1 && r[i - 1]) != (top && poly[i]));
      }
    }
  }

  lemma {:induction false} Regroup(a: Bits, x: Bits, t: Bits, b: Bits, s: Bits, d: Bits)
    requires |a| == |x| == |t| == |b| == |s| == |d|
    requires d == Xor(t, a) && Xor(a, b) == Xor(x, s)
    ensures Xor(d, b) == Xor(Xor(x, t), s)
  {
    forall i | 0 <= i < |a|
      ensures Xor(d, b)[i] == Xor(Xor(x, t), s)[i]
    {
      assert Xor(a, b)[i] == Xor(x, s)[i];
    }
  }

  lemma {:induction false} ShiftedXor(a: Bits, b: Bits)
    requires |a| == |b|
    ensures [false] + Xor(a, b) == Xor([false] + a, [false] + b)
  {
  }

  /** For every width, polynomial, initial value and message: dividend = quotient * divisor +
      register, the register having fewer places than the divisor. */
  lemma {:induction false} RegisterIsRemainder(poly: Bits, init: Bits, bs: Bits) returns (q: Bits)
    requires |poly| == |init| > 0
    ensures |q| == |bs|
    ensures Dividend(init, bs) == Xor(Times(q, poly), Feed(poly, init, bs) + Zeros(|bs|))
  {
    var n := |poly|;
    if bs == [] {
      q := [];
      assert Dividend(init, bs) == init;
      assert Xor(Zeros(n), init + Zeros(0)) == init;
    } else {
      var k := |bs| - 1;
      var before, b := bs[..k], bs[k];
      assert bs == before + [b];
      var q0 := RegisterIsRemainder(poly, init, before);
      var r := Feed(poly, init, before);
      FeedOneMore(poly, init, before, b);
      DividendGrows(init, before, b);
      var top := r[n - 1] != b;
      q := [top] + q0;
      assert q[1..] == q0;
      StepIdentity(poly, r, b, top, k);
      ShiftedXor(Times(q0, poly), r + Zeros(k));
      Regroup([false] + (r + Zeros(k)), if top then Divisor(poly) + Zeros(k) else Zeros(k + 1 + n),
              [false] + Times(q0, poly), Zeros(n) + [b] + Zeros(k), Step(poly, r, b) + Zeros(k + 1),
              [false] + Dividend(init, before));
    }
  }

  // ---------------------------------------------------------------------------------
  // There is only one such remainder

  /** The product seen from its leading coefficient. */
  lemma {:induction false} TimesFromTop(q: Bits, poly: Bits, init: Bits, top: bool)
    requires q == init + [top] && |poly| > 0
    ensures Times(q, poly) ==
            Xor(Times(init, poly) + [false], if top then Zeros(|init|) + Divisor(poly) else Zeros(|q| + |poly|))
    decreases |q|
  {
    var n, k := |poly|, |init|;
    if init == [] {
      assert q[1..] == [] && q[0] == top;
      assert Times([], poly) + [false] == Zeros(n + 1) && [false] + Times([], poly) == Zeros(n + 1);
      assert Zeros(0) + Divisor(poly) == Divisor(poly) + Zeros(0);
    } else {
      var rest := init[1..];
      assert q[1..] == rest + [top];
      TimesFromTop(q[1..], poly, rest, top);
      TopAndBottom(q[0], top, Times(rest, poly), poly, k);
    }
  }

  lemma {:induction false} TopAndBottom(low: bool, top: bool, t: Bits, poly: Bits, k: nat)
    requires |poly| > 0 && k > 0 && |t| == k - 1 + |poly|
    ensures Xor(if low then Divisor(poly) + Zeros(k) else Zeros(k + 1 + |poly|),
                [false] + Xor(t + [false], if top then Zeros(k - 1) + Divisor(poly) else Zeros(k + |poly|)))
            == Xor(Xor(if low then Divisor(poly) + Zeros(k - 1) else Zeros(k + |poly|), [false] + t) + [false],
                   if top then Zeros(k) + Divisor(poly) else Zeros(k + 1 + |poly|))
  {
  }

  lemma {:induction false} NothingAdded(poly: Bits, q: Bits, r: Bits)
    requires |poly| == |r| && q == []
    ensures Xor(Times(q, poly), r + Zeros(|q|)) == r
  {
    assert r + Zeros(0) == r;
  }

  /** Two ways to write a dividend as a multiple of the divisor and a remainder with fewer places
      are the same way. */
  lemma {:induction false} RemainderIsUnique(poly: Bits, q: Bits, r: Bits, q': Bits, r': Bits)
    requires |poly| == |r| == |r'| > 0 && |q| == |q'|
    requires Xor(Times(q, poly), r + Zeros(|q|)) == Xor(Times(q', poly), r' + Zeros(|q|))
    ensures q == q' && r == r'
    decreases |q|
  {
    var n, k := |poly|, |q|;
    if k == 0 {
      NothingAdded(poly, q, r);
      NothingAdded(poly, q', r');
    } else {
      var i, i', a, a' := q[..k - 1], q'[..k - 1], q[k - 1], q'[k - 1];
      TimesFromTop(q, poly, i, a);
      TimesFromTop(q', poly, i', a');
      SameTop(poly, Times(i, poly), Times(i', poly), a, a', r, r', k);
      RemainderIsUnique(poly, i, r, i', r');
    }
  }

  lemma {:induction false} SameTop(poly: Bits, t: Bits, t': Bits, a: bool, a': bool, r: Bits, r': Bits, k: nat)
    requires |poly| == |r| == |r'| > 0 && k > 0 && |t| == |t'| == k - 1 + |poly|
    requires Xor(Xor(t + [false], if a then Zeros(k - 1) + Divisor(poly) else Zeros(k + |poly|)), r + Zeros(k))
             == Xor(Xor(t' + [false], if a' then Zeros(k - 1) + Divisor(poly) else Zeros(k + |poly|)), r' + Zeros(k))
    ensures a == a' && Xor(t, r + Zeros(k - 1)) == Xor(t', r' + Zeros(k - 1))
  {
    var m := k + |poly| - 1;
    var x := if a then Zeros(k - 1) + Divisor(poly) else Zeros(k + |poly|);
    var x' := if a' then Zeros(k - 1) + Divisor(poly) else Zeros(k + |poly|);
    var l, l' := Xor(Xor(t + [false], x), r + Zeros(k)), Xor(Xor(t' + [false], x'), r' + Zeros(k));
    assert l[m] == a && l'[m] == a';
    var u, u' := Xor(t, r + Zeros(k - 1)), Xor(t', r' + Zeros(k - 1));
    forall i | 0 <= i < m
      ensures u[i] == u'[i]
    {
      assert l[i] == l'[i];
    }
  }
}
