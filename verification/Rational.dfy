/** Exact rational numbers kept in lowest terms: the in-place operators, which divide out
    only the gcds that can matter, and the comparison by continued fractions. */
module Rational {
  import opened Gcd

  datatype Outcome = Done | ZeroDenominator | SingularDenominator

  /** n1/d1 and n2/d2 are the same number (for denominators other than zero). */
  predicate SameValue(n1: int, d1: int, n2: int, d2: int) {
    n1 * d2 == n2 * d1
  }

  ghost predicate Normal(n: int, d: int) {
    d > 0 && Coprime(n, d)
  }

  // ---------------------------------------------------------------------------------
  // Why partial gcds are enough

  lemma {:induction false} ExactDiv(g: int, k: int)
    requires g > 0
    ensures TruncDiv(g * k, g) == k
  {
    if k >= 0 {
      DivideProduct(g, k);
    } else {
      DivideProduct(g, -k);
      assert g * k == -(g * (-k)) && g * (-k) > 0;
    }
  }

  lemma {:induction false} DivideProduct(g: nat, k: nat)
    requires g > 0
    ensures g * k >= 0 && (g * k) / g == k
  {
    var q, r := (g * k) / g, (g * k) % g;
    DivMod(g * k, g);
    assert g * (k - q) == r;
    SmallMultiple(g, k - q);
  }

  lemma {:induction false} SmallMultiple(g: int, m: int)
    requires 0 <= g * m < g
    ensures m == 0
  {
    assert m >= 1 ==> g * m == g + g * (m - 1);
  }

  lemma {:induction false} PositiveProduct(a: int, b: int)
    requires a > 0 && b > 0
    ensures a * b > 0
  {
  }

  lemma {:induction false} PositiveFactor(a: int, b: int)
    requires a > 0 && a * b > 0
    ensures b > 0
  {
  }

  /** The quotient of an argument by its gcd, with the source's division. */
  lemma {:induction false} Reduce(a: int, b: int) returns (p: int, q: int)
    requires a != 0 || b != 0
    ensures var g := IntGcd(a, b);
            && a == g * p && b == g * q && Coprime(p, q)
            && TruncDiv(a, g) == p && TruncDiv(b, g) == q
  {
    p, q := CoprimeAfterGcd(a, b);
    ExactDiv(IntGcd(a, b), p);
    ExactDiv(IntGcd(a, b), q);
  }

  /** The numerator of a sum over reduced denominators is coprime to each of them. */
  lemma {:induction false} SumCoprime(a: int, c: int, b1: int, d1: int, g: int)
    requires Coprime(a, b1 * g) && Coprime(d1, b1)
    ensures Coprime(a * d1 + c * b1, b1)
  {
    CoprimeSymmetric(a, b1 * g);
    CoprimeFactor(b1, g, a);
    CoprimeSymmetric(d1, b1);
    CoprimeProduct(b1, a, d1);
    CoprimeSymmetric(b1, a * d1);
    CoprimeShift(a * d1, b1, c);
    assert b1 * c == c * b1;
  }

  /** What is left of the sum after dividing by gcd(numerator, g) has no factor in common
      with the new denominator. */
  lemma {:induction false} SumReduced(a: int, b1: int, c: int, d1: int, g: int, h: int, num: int, g1: int)
    requires Coprime(a, b1 * g) && Coprime(c, d1 * g) && Coprime(b1, d1)
    requires a * d1 + c * b1 == h * num && g == h * g1 && Coprime(num, g1)
    ensures Coprime(num, b1 * (d1 * g1))
  {
    var t := a * d1 + c * b1;
    CoprimeSymmetric(b1, d1);
    SumCoprime(a, c, b1, d1, g);
    SumCoprime(c, a, d1, b1, g);
    assert c * b1 + a * d1 == t && h * num == num * h;
    CoprimeFactor(num, h, b1);
    CoprimeFactor(num, h, d1);
    CoprimeProduct(num, d1, g1);
    CoprimeProduct(num, b1, d1 * g1);
  }

  lemma {:induction false} SumValue(a: int, b1: int, c: int, d1: int, g: int, h: int, num: int, g1: int)
    requires a * d1 + c * b1 == h * num && g == h * g1
    ensures SameValue(num, b1 * (d1 * g1), a * (d1 * g) + c * (b1 * g), (b1 * g) * (d1 * g))
  {
    var m := b1 * (d1 * g1);
    assert (b1 * g) * (d1 * g) == (h * m) * g by {
      assert (b1 * g) * (d1 * g) == (b1 * d1) * g * g;
      assert (b1 * d1) * (h * g1) == h * m;
    }
    assert a * (d1 * g) + c * (b1 * g) == (h * num) * g;
    assert num * ((h * m) * g) == ((h * num) * g) * m;
  }

  /** A product after cross reduction. */
  lemma {:induction false} ProductReduced(a1: int, b1: int, c1: int, d1: int, g1: int, g2: int)
    requires Coprime(a1 * g1, b1 * g2) && Coprime(c1 * g2, d1 * g1)
    requires Coprime(a1, d1) && Coprime(c1, b1)
    ensures Coprime(a1 * c1, b1 * d1)
  {
    CoprimeFactor(a1, g1, b1 * g2);
    CoprimeSymmetric(a1, b1 * g2);
    CoprimeFactor(b1, g2, a1);
    CoprimeFactor(c1, g2, d1 * g1);
    CoprimeSymmetric(c1, d1 * g1);
    CoprimeFactor(d1, g1, c1);
    CoprimeSymmetric(c1, b1);
    CoprimeSymmetric(a1, d1);
    CoprimeProduct(b1, a1, c1);
    CoprimeProduct(d1, a1, c1);
    CoprimeSymmetric(b1, a1 * c1);
    CoprimeSymmetric(d1, a1 * c1);
    CoprimeProduct(a1 * c1, b1, d1);
  }

  lemma {:induction false} ProductValue(a1: int, b1: int, c1: int, d1: int, g1: int, g2: int)
    ensures SameValue(a1 * c1, b1 * d1, (g1 * a1) * (g2 * c1), (g2 * b1) * (g1 * d1))
  {
    assert (g2 * b1) * (g1 * d1) == (g1 * g2) * (b1 * d1);
    assert (g1 * a1) * (g2 * c1) == (g1 * g2) * (a1 * c1);
    assert (a1 * c1) * ((g1 * g2) * (b1 * d1)) == ((g1 * g2) * (a1 * c1)) * (b1 * d1);
  }

  // ---------------------------------------------------------------------------------
  // What normalising a pair comes to

  /** A pair whose denominator has no opposite, in lowest terms. */
  predicate Singular(t: IntegerType, n: int, d: int) {
    t.TwosComplement? && n != 0 && d == -(t.max + 1) && IntGcd(n, d) == 1
  }

  /** A pair in lowest terms whose numerator has no opposite but needs one. */
  predicate SignLost(t: IntegerType, n: int, d: int) {
    t.TwosComplement? && n == -(t.max + 1) && d < 0 && IntGcd(n, d) == 1
  }

  /** In eight bits, -128/-3 ends as the normal pair -128/3, another number. */
  lemma {:induction false} LeastNumeratorKeepsSign()
    ensures var t := TwosComplement(127);
            && t.Has(-128) && t.Has(-3) && SignLost(t, -128, -3) && Verdict(t, -128, -3) == Done
            && t.Negate(-128) == -128 && t.Negate(-3) == 3
            && !SameValue(-128, 3, -128, -3)
  {
    assert Gcd.Gcd(128, 3) == Gcd.Gcd(3, 2) == Gcd.Gcd(2, 1) == Gcd.Gcd(1, 0) == 1;
  }

  /** In eight bits, 1/-128 is refused. */
  lemma {:induction false} LeastDenominatorIsRefused()
    ensures var t := TwosComplement(127);
            && t.Has(1) && t.Has(-128) && Singular(t, 1, -128) && Verdict(t, 1, -128) == SingularDenominator
  {
    assert Gcd.Gcd(1, 128) == Gcd.Gcd(128, 1) == Gcd.Gcd(1, 0) == 1;
  }

  function Verdict(t: IntegerType, n: int, d: int): Outcome {
    if d == 0 then ZeroDenominator else if Singular(t, n, d) then SingularDenominator else Done
  }

  lemma {:induction false} QuotientHas(t: IntegerType, g: int, k: int, x: int)
    requires g > 0 && x == g * k && x != 0 && t.Has(x)
    ensures k != 0 && t.Has(k) && (k < 0 <==> x < 0)
    ensures t.TwosComplement? ==> (k == -(t.max + 1) <==> x == -(t.max + 1) && g == 1)
  {
    if k > 0 {
      assert g * k == k + (g - 1) * k && (g - 1) * k >= 0;
    } else if k < 0 {
      assert g * k == k + (g - 1) * k && (g - 1) * k <= 0;
      if g > 1 {
        assert (g - 1) * k == k + (g - 2) * k && (g - 2) * k <= 0;
      }
    }
  }

  /** Dividing both by what the library's gcd gives, be it the true gcd or its negative. */
  lemma {:induction false} DivideByGcd(t: IntegerType, n: int, d: int, h: int, g: int, p: int, q: int)
    requires t.Has(n) && t.Has(d) && n != 0 && d != 0
    requires h == IntGcd(n, d) && g == if t.Has(h) then h else -h
    requires n == h * p && d == h * q && TruncDiv(n, h) == p && TruncDiv(d, h) == q
    ensures g != 0
    ensures TruncDiv(n, g) == (if t.Has(h) then p else 1) && TruncDiv(d, g) == (if t.Has(h) then q else 1)
    ensures !t.Has(h) ==> n == d
  {
    if !t.Has(h) {
      GcdOverflowsIff(t, n, d);
      assert Abs(n) / Abs(g) == 1;
    }
  }

  /** The fields after the division and the change of signs. */
  lemma {:induction false} NormalizeResult(t: IntegerType, n: int, d: int, h: int, p: int, q: int, num: int, den: int)
    requires t.Has(n) && t.Has(d) && t.Has(1) && n != 0 && d != 0
    requires h == IntGcd(n, d) && h > 0 && n == h * p && d == h * q && Coprime(p, q)
    requires t.Has(p) && t.Has(q)
    requires num == (if q < 0 then t.Negate(p) else p) && den == (if q < 0 then t.Negate(q) else q)
    ensures den < 0 <==> Singular(t, n, d)
    ensures den >= 0 ==> Normal(num, den) && (SameValue(num, den, n, d) <==> !SignLost(t, n, d))
  {
    QuotientHas(t, h, p, n);
    QuotientHas(t, h, q, d);
    ReducedIsNormal(n, d, h, p, q);
    if q < 0 && t.Negate(p) == p {
      assert h == 1 && n == p && d == q;
      CoprimeSymmetric(p, q);
      CoprimeNegate(q, p);
      CoprimeSymmetric(-q, p);
      SignMatters(p, q);
    }
  }

  lemma {:induction false} SignMatters(p: int, q: int)
    requires p != 0 && q != 0
    ensures !SameValue(p, -q, p, q)
  {
    assert p * (-q) == -(p * q);
    assert p * q != 0;
  }

  // ---------------------------------------------------------------------------------
  // The class

  class Rational {
    var num: int
    var den: int

    /** Lowest terms with a positive denominator. */
    ghost predicate Valid()
      reads this
    {
      Normal(num, den)
    }

    constructor ()
      ensures Valid() && num == 0 && den == 1
    {
      num, den := 0, 1;
      NormalInt(0);
    }

    constructor FromInt(n: int)
      ensures Valid() && num == n && den == 1
    {
      num, den := n, 1;
      NormalInt(n);
    }

    /** Reduce the fields in place, wherever they come from and whatever integers they are.  Only
        the least value of a two's complement word makes trouble: as the reduced denominator it
        is refused, as the reduced numerator it silently keeps its sign. */
    method Normalize(t: IntegerType) returns (outcome: Outcome)
      requires t.Has(num) && t.Has(den) && t.Has(1)
      modifies this
      ensures outcome == Verdict(t, old(num), old(den))
      ensures outcome.ZeroDenominator? ==> num == old(num) && den == old(den)
      ensures outcome.Done? ==> Valid() && t.Has(num) && t.Has(den)
      ensures outcome.Done? ==> (SameValue(num, den, old(num), old(den)) <==> !SignLost(t, old(num), old(den)))
    {
      if den == 0 {
        return ZeroDenominator;
      }
      outcome := Done;
      if num == 0 {
        den := 1;
        NormalInt(0);
        return;
      }
      ghost var n, d := num, den;
      ghost var h := IntGcd(n, d);
      ghost var p, q := Reduce(n, d);
      var g := GcdInteger(t, num, den);
      DivideByGcd(t, n, d, h, g, p, q);
      if t.Has(h) {
        QuotientHas(t, h, p, n);
        QuotientHas(t, h, q, d);
      }
      num := TruncDiv(num, g);
      den := TruncDiv(den, g);
      if den < 0 {
        num := t.Negate(num);
        den := t.Negate(den);
      }
      if t.Has(h) {
        NormalizeResult(t, n, d, h, p, q, num, den);
      } else {
        NormalInt(1);
      }
      if den < 0 {
        return SingularDenominator;
      }
    }

    /** Assignment of a pair; a refused one leaves the object as it was. */
    method Assign(t: IntegerType, n: int, d: int) returns (outcome: Outcome)
      requires Valid() && t.Has(n) && t.Has(d) && t.Has(1)
      modifies this
      ensures Valid() && outcome == Verdict(t, n, d)
      ensures outcome.Done? ==> (SameValue(num, den, n, d) <==> !SignLost(t, n, d))
      ensures !outcome.Done? ==> num == old(num) && den == old(den)
    {
      var temporary := new Rational();
      temporary.num, temporary.den := n, d;
      outcome := temporary.Normalize(t);
      if outcome.Done? {
        num, den := temporary.num, temporary.den;
      }
    }

    /** += ; `r` may be this very object. */
    method AddAssign(r: Rational)
      requires Valid() && r.Valid()
      modifies this
      ensures Valid()
      ensures SameValue(num, den, old(num) * old(r.den) + old(r.num) * old(den), old(den) * old(r.den))
    {
      var rNum, rDen := r.num, r.den;
      ghost var a, b := num, den;
      ghost var b1, d1 := Reduce(den, rDen);

      var g := GcdInteger(Unbounded, den, rDen);
      den := TruncDiv(den, g);
      num := num * TruncDiv(rDen, g) + rNum * den;
      ghost var g0, t := g, num;
      ghost var n1, g1 := Reduce(t, g0);
      g := GcdInteger(Unbounded, num, g);
      num := TruncDiv(num, g);
      den := den * TruncDiv(rDen, g);
      SumResult(a, b, rNum, rDen, g0, b1, d1, g, n1, g1, den);
    }

    /** -= ; the same with the other sign. */
    method SubtractAssign(r: Rational)
      requires Valid() && r.Valid()
      modifies this
      ensures Valid()
      ensures SameValue(num, den, old(num) * old(r.den) - old(r.num) * old(den), old(den) * old(r.den))
    {
      var rNum, rDen := r.num, r.den;
      ghost var a, b := num, den;
      ghost var b1, d1 := Reduce(den, rDen);

      var g := GcdInteger(Unbounded, den, rDen);
      den := TruncDiv(den, g);
      num := num * TruncDiv(rDen, g) - rNum * den;
      ghost var g0, t := g, num;
      ghost var n1, g1 := Reduce(t, g0);
      g := GcdInteger(Unbounded, num, g);
      num := TruncDiv(num, g);
      den := den * TruncDiv(rDen, g);
      DifferenceResult(a, b, rNum, rDen, g0, b1, d1, g, n1, g1, den);
    }

    /** *= by cross reduction. */
    method MultiplyAssign(r: Rational)
      requires Valid() && r.Valid()
      modifies this
      ensures Valid()
      ensures SameValue(num, den, old(num) * old(r.num), old(den) * old(r.den))
    {
      var rNum, rDen := r.num, r.den;
      ghost var a, b := num, den;
      ghost var a1, d1 := Reduce(num, rDen);
      ghost var c1, b1 := Reduce(rNum, den);

      var gcd1 := GcdInteger(Unbounded, num, rDen);
      var gcd2 := GcdInteger(Unbounded, rNum, den);
      num := TruncDiv(num, gcd1) * TruncDiv(rNum, gcd2);
      den := TruncDiv(den, gcd2) * TruncDiv(rDen, gcd1);
      ProductResult(a, b, rNum, rDen, gcd1, gcd2, a1, b1, c1, d1);
    }

    /** /= ; dividing by zero is refused and changes nothing. */
    method DivideAssign(r: Rational) returns (outcome: Outcome)
      requires Valid() && r.Valid()
      modifies this
      ensures Valid()
      ensures outcome == if old(r.num) == 0 then ZeroDenominator else Done
      ensures if outcome.Done? then SameValue(num, den, old(num) * old(r.den), old(den) * old(r.num))
              else num == old(num) && den == old(den)
    {
      var rNum, rDen := r.num, r.den;
      if rNum == 0 {
        return ZeroDenominator;
      }
      outcome := Done;
      if num == 0 {
        return;
      }
      ghost var a, b := num, den;
      ghost var a1, c1 := Reduce(num, rNum);
      ghost var d1, b1 := Reduce(rDen, den);

      var gcd1 := GcdInteger(Unbounded, num, rNum);
      var gcd2 := GcdInteger(Unbounded, rDen, den);
      num := TruncDiv(num, gcd1) * TruncDiv(rDen, gcd2);
      den := TruncDiv(den, gcd2) * TruncDiv(rNum, gcd1);
      QuotientResult(a, b, rNum, rDen, gcd1, gcd2, a1, b1, c1, d1);
      if den < 0 {
        num := -num;
        den := -den;
      }
    }

    method AddInt(i: int)
      requires Valid()
      modifies this
      ensures Valid() && SameValue(num, den, old(num) + i * old(den), old(den))
    {
      CoprimeShift(num, den, i);
      assert i * den == den * i;
      num := num + i * den;
    }

    method SubtractInt(i: int)
      requires Valid()
      modifies this
      ensures Valid() && SameValue(num, den, old(num) - i * old(den), old(den))
    {
      CoprimeShift(num, den, -i);
      assert num + den * (-i) == num - i * den;
      num := num - i * den;
    }

    method MultiplyInt(i: int)
      requires Valid()
      modifies this
      ensures Valid() && SameValue(num, den, old(num) * i, old(den))
    {
      ghost var a, b := num, den;
      ghost var i1, b1 := Reduce(i, den);
      var gcd := GcdInteger(Unbounded, i, den);
      num := num * TruncDiv(i, gcd);
      den := TruncDiv(den, gcd);
      TimesIntResult(a, b, i, gcd, i1, b1);
    }

    method DivideInt(i: int) returns (outcome: Outcome)
      requires Valid()
      modifies this
      ensures Valid()
      ensures outcome == if i == 0 then ZeroDenominator else Done
      ensures if outcome.Done? then SameValue(num, den, old(num), old(den) * i)
              else num == old(num) && den == old(den)
    {
      if i == 0 {
        return ZeroDenominator;
      }
      outcome := Done;
      if num == 0 {
        return;
      }
      ghost var a, b := num, den;
      ghost var a1, i1 := Reduce(num, i);
      var gcd := GcdInteger(Unbounded, num, i);
      num := TruncDiv(num, gcd);
      den := den * TruncDiv(i, gcd);
      OverIntResult(a, b, i, gcd, a1, i1);
      if den < 0 {
        num := -num;
        den := -den;
      }
    }

    /** < by expanding both numbers into continued fractions in lock step.  The caller's
        integers may be bounded: every value computed on the way fits in the two's
        complement range of the operands. */
    method LessThan(r: Rational, ghost max: nat) returns (less: bool)
      requires den > 0 && r.den > 0
      requires Fits(num, max) && Fits(den, max) && Fits(r.num, max) && Fits(r.den, max)
      ensures less == (num * r.den < r.num * den)
    {
      var tn, td := num, den;
      var tq, tr := Floor(num, den, max);
      var rn, rd := r.num, r.den;
      var rq, rr := Floor(r.num, r.den, max);
      var reverse := false;
      ghost var answer := Order(false, num, den, r.num, r.den);

      while true
        invariant Expansion(tn, td, tq, tr, max) && Expansion(rn, rd, rq, rr, max)
        invariant answer == Order(reverse, tn, td, rn, rd)
        decreases td
      {
        OrderStep(reverse, tn, td, tq, tr, rn, rd, rq, rr);
        if tq != rq {
          return if reverse then tq > rq else tq < rq;
        }
        reverse := !reverse;
        if tr == 0 || rr == 0 {
          break;
        }
        QuotientFits(td, tr, max);
        QuotientFits(rd, rr, max);
        tn, td := td, tr;
        tq, tr := Int(TruncDiv(tn, td), max), Int(TruncMod(tn, td), max);
        rn, rd := rd, rr;
        rq, rr := Int(TruncDiv(rn, rd), max), Int(TruncMod(rn, rd), max);
      }

      if tr == rr {
        return false;
      } else {
        return (tr != 0) != reverse;
      }
    }

    /** Mixed <, by the floor of the number alone. */
    method LessThanInt(i: int, ghost max: nat) returns (less: bool)
      requires den > 0 && Fits(num, max) && Fits(den, max)
      ensures less == (num < i * den)
    {
      var q, r := Floor(num, den, max);
      FloorCompare(num, den, q, r, i);
      less := q < i;
    }

    method GreaterThanInt(i: int, ghost max: nat) returns (greater: bool)
      requires Valid() && Fits(num, max) && Fits(den, max)
      ensures greater == (num > i * den)
    {
      var equal := EqualsInt(i);
      if equal {
        return false;
      }
      var less := LessThanInt(i, max);
      greater := !less;
    }

    /** Equality looks at the fields only; on normal forms that is equality of the values. */
    method Equals(r: Rational) returns (equal: bool)
      requires Valid() && r.Valid()
      ensures equal == SameValue(num, den, r.num, r.den)
    {
      equal := num == r.num && den == r.den;
      NormalFormUnique(num, den, r.num, r.den);
    }

    method EqualsInt(i: int) returns (equal: bool)
      requires Valid()
      ensures equal == (num == i * den)
    {
      equal := den == 1 && num == i;
      NormalInt(i);
      NormalFormUnique(num, den, i, 1);
    }
  }

  // ---------------------------------------------------------------------------------
  // Comparison

  /** n/d is less than n'/d' (denominators positive), or the other way round. */
  predicate Order(reverse: bool, n: int, d: int, n': int, d': int) {
    if reverse then n' * d < n * d' else n * d' < n' * d
  }

  /** A value of the bounded integer type: it may only be formed inside the range. */
  function Int(x: int, ghost max: nat): int
    requires Fits(x, max)
  {
    x
  }

  /** One level of a continued fraction, in range. */
  ghost predicate Expansion(n: int, d: int, q: int, r: int, max: nat) {
    n == q * d + r && 0 <= r < d && Fits(n, max) && Fits(d, max) && Fits(q, max)
  }

  lemma {:induction false} ProductNotNegative(a: int, b: int)
    requires a >= 0 && b >= 0
    ensures a * b >= 0
  {
  }

  lemma {:induction false} AtLeastOnce(k: int, e: int)
    requires k >= 1 && e > 0
    ensures k * e >= e
  {
    ProductNotNegative(k - 1, e);
    assert k * e == e + (k - 1) * e;
  }

  lemma {:induction false} QuotientNotLarger(n: nat, d: nat)
    requires d > 0
    ensures n / d <= n
    ensures n / d == n && n > 0 ==> d == 1
  {
    var q := n / d;
    DivMod(n, d);
    ProductNotNegative(d - 1, q);
    assert d * q == q + (d - 1) * q;
    if q == n && n > 0 && d > 1 {
      AtLeastOnce(d - 1, q);
    }
  }

  lemma {:induction false} TruncDivMod(n: int, d: int)
    requires d > 0
    ensures n == TruncDiv(n, d) * d + TruncMod(n, d) && -d < TruncMod(n, d) < d
    ensures n >= 0 ==> 0 <= TruncDiv(n, d) <= n && TruncMod(n, d) >= 0
    ensures n < 0 ==> n <= TruncDiv(n, d) <= 0
    ensures TruncMod(n, d) < 0 ==> n < 0 && TruncDiv(n, d) > n
  {
    var m: nat, q, r := Abs(n), Abs(n) / d, Abs(n) % d;
    DivMod(m, d);
    QuotientNotLarger(m, d);
    if n >= 0 {
      assert TruncDiv(n, d) == q && TruncMod(n, d) == r;
    } else {
      assert TruncDiv(n, d) == -q && TruncMod(n, d) == -r;
      assert (-q) * d == -(d * q);
    }
  }

  lemma {:induction false} QuotientFits(n: int, d: int, max: nat)
    requires n >= 0 && d > 0 && Fits(n, max) && Fits(d, max)
    ensures Expansion(n, d, TruncDiv(n, d), TruncMod(n, d), max)
  {
    TruncDivMod(n, d);
  }

  /** The first level: a truncated quotient, corrected downwards while the remainder is
      negative. */
  method Floor(n: int, d: int, ghost max: nat) returns (q: int, r: int)
    requires d > 0 && Fits(n, max) && Fits(d, max)
    ensures Expansion(n, d, q, r, max)
  {
    TruncDivMod(n, d);
    q, r := Int(TruncDiv(n, d), max), Int(TruncMod(n, d), max);
    while r < 0
      invariant n == q * d + r && -d < r < d && Fits(q, max)
      invariant r < 0 ==> q > n && n < 0
      decreases -r
    {
      assert (q - 1) * d == q * d - d;
      r := Int(r + d, max);
      q := Int(q - 1, max);
    }
  }

  /** A smaller quotient makes the smaller number. */
  lemma {:induction false} QuotientsDecide(n: int, d: int, q: int, r: int, n': int, d': int, q': int, r': int)
    requires n == q * d + r && 0 <= r < d
    requires n' == q' * d' + r' && 0 <= r' < d'
    requires q < q'
    ensures n * d' < n' * d
  {
    PositiveProduct(d, d');
    PositiveProduct(d - r, d');
    ProductNotNegative(r', d);
    AtLeastOnce(q' - q, d * d');
    assert n * d' == q * (d * d') + r * d';
    assert n' * d == q' * (d * d') + r' * d;
    assert (d - r) * d' == d * d' - r * d';
    assert (q' - q) * (d * d') == q' * (d * d') - q * (d * d');
  }

  lemma {:induction false} RemaindersDecide(n: int, d: int, q: int, r: int, n': int, d': int, r': int)
    requires n == q * d + r && n' == q * d' + r'
    ensures n * d' - n' * d == r * d' - r' * d
  {
    assert n * d' == q * (d * d') + r * d';
    assert n' * d == q * (d * d') + r' * d;
  }

  /** Different quotients decide the order; equal ones leave it to the remainders, and the
      reciprocals of the remainders compare the other way round. */
  lemma {:induction false} CompareExpansions(n: int, d: int, q: int, r: int, n': int, d': int, q': int, r': int)
    requires n == q * d + r && 0 <= r < d
    requires n' == q' * d' + r' && 0 <= r' < d'
    ensures q < q' ==> n * d' < n' * d
    ensures q > q' ==> n' * d < n * d'
    ensures q == q' ==> n * d' - n' * d == r * d' - r' * d
    ensures r > 0 ==> r * d' > 0
    ensures r' > 0 ==> r' * d > 0
  {
    if q < q' {
      QuotientsDecide(n, d, q, r, n', d', q', r');
    }
    if q > q' {
      QuotientsDecide(n', d', q', r', n, d, q, r);
    }
    if q == q' {
      RemaindersDecide(n, d, q, r, n', d', r');
    }
    if r > 0 {
      PositiveProduct(r, d');
    }
    if r' > 0 {
      PositiveProduct(r', d);
    }
  }

  /** One turn of the comparison loop: how the quotients, the end of an expansion, or the
      reciprocals of the remainders answer the question. */
  lemma {:induction false} OrderStep(reverse: bool, n: int, d: int, q: int, r: int, n': int, d': int, q': int, r': int)
    requires n == q * d + r && 0 <= r < d
    requires n' == q' * d' + r' && 0 <= r' < d'
    ensures q != q' ==> (Order(reverse, n, d, n', d') <==> if reverse then q > q' else q < q')
    ensures q == q' && (r == 0 || r' == 0) ==>
              (Order(reverse, n, d, n', d') <==> r != r' && (r != 0) == reverse)
    ensures q == q' && r > 0 && r' > 0 ==>
              (Order(reverse, n, d, n', d') <==> Order(!reverse, d, r, d', r'))
  {
    CompareExpansions(n, d, q, r, n', d', q', r');
    assert r * d' == d' * r && r' * d == d * r';
  }

  lemma {:induction false} FloorCompare(n: int, d: int, q: int, r: int, i: int)
    requires n == q * d + r && 0 <= r < d
    ensures n < i * d <==> q < i
  {
    if q < i {
      AtLeastOnce(i - q, d);
      assert (i - q) * d == i * d - q * d;
    } else {
      ProductNotNegative(q - i, d);
      assert (q - i) * d == q * d - i * d;
    }
  }

  /** Two normal pairs with the same value are the same pair. */
  lemma {:induction false} NormalFormUnique(a: int, b: int, c: int, d: int)
    requires Normal(a, b) && Normal(c, d)
    ensures SameValue(a, b, c, d) <==> a == c && b == d
  {
    if a * d == c * b {
      CoprimeSymmetric(a, b);
      CoprimeSymmetric(c, d);
      assert a * d == b * c && c * b == d * a;
      var j := CoprimeDivisor(b, a, d, c);
      var k := CoprimeDivisor(d, c, b, a);
      MutualDivisors(b, d, k, j);
      SameFactor(b, a, c);
    }
  }

  lemma {:induction false} SameFactor(b: int, x: int, y: int)
    requires b != 0 && x * b == y * b
    ensures x == y
  {
    assert (x - y) * b == 0;
  }

  /** Between normal forms neither is less exactly when they are the same pair; so exactly one of
      less, equal and greater holds. */
  lemma {:induction false} TotalOrder(a: int, b: int, c: int, d: int)
    requires Normal(a, b) && Normal(c, d)
    ensures !(a * d < c * b) && !(c * b < a * d) <==> a == c && b == d
  {
    NormalFormUnique(a, b, c, d);
  }

  lemma {:induction false} LessTransitive(a: int, b: int, c: int, d: int, e: int, f: int)
    requires b > 0 && d > 0 && f > 0
    requires a * d < c * b && c * f < e * d
    ensures a * f < e * b
  {
    assert (a * d) * f < (c * b) * f && (c * f) * b < (e * d) * b;
    assert d * (a * f) == (a * d) * f && (c * b) * f == (c * f) * b && d * (e * b) == (e * d) * b;
    assert d * (e * b - a * f) > 0;
    PositiveFactor(d, e * b - a * f);
  }

  // ---------------------------------------------------------------------------------
  // The test for normalised pairs, and its own recursive gcd

  function InnerGcd(a: int, b: int): int
    decreases Abs(b)
  {
    if b == 0 then a
    else
      ModSmaller(a, b);
      InnerGcd(b, TruncMod(a, b))
  }

  predicate IsNormalized(n: int, d: int) {
    d > 0 && (n != 0 || d == 1) && Abs(InnerGcd(n, d)) == 1
  }

  lemma {:induction false} InnerGcdIsGcd(a: int, b: int)
    ensures Abs(InnerGcd(a, b)) == IntGcd(a, b)
    decreases Abs(b)
  {
    if b != 0 {
      ModSmaller(a, b);
      InnerGcdIsGcd(b, TruncMod(a, b));
    }
  }

  /** The test accepts exactly the normal forms. */
  lemma {:induction false} IsNormalizedIffNormal(n: int, d: int)
    ensures IsNormalized(n, d) <==> Normal(n, d)
  {
    InnerGcdIsGcd(n, d);
    CoprimeIffGcd(n, d);
    if n == 0 && d > 0 {
      GcdSymmetric(0, d);
    }
  }

  lemma {:induction false} ProductResult(a: int, b: int, c: int, d: int, g1: int, g2: int,
                                         a1: int, b1: int, c1: int, d1: int)
    requires Normal(a, b) && Normal(c, d) && g1 > 0 && g2 > 0
    requires a == g1 * a1 && d == g1 * d1 && Coprime(a1, d1)
    requires c == g2 * c1 && b == g2 * b1 && Coprime(c1, b1)
    ensures Normal(a1 * c1, b1 * d1) && SameValue(a1 * c1, b1 * d1, a * c, b * d)
  {
    assert a == a1 * g1 && d == d1 * g1 && c == c1 * g2 && b == b1 * g2;
    ProductReduced(a1, b1, c1, d1, g1, g2);
    ProductValue(a1, b1, c1, d1, g1, g2);
    PositiveFactor(g2, b1);
    PositiveFactor(g1, d1);
    PositiveProduct(b1, d1);
  }

  /** Division is multiplication by the reciprocal, whose denominator may be negative. */
  lemma {:induction false} QuotientResult(a: int, b: int, c: int, d: int, g1: int, g2: int,
                                          a1: int, b1: int, c1: int, d1: int)
    requires Normal(a, b) && Normal(c, d) && c != 0 && g1 > 0 && g2 > 0
    requires a == g1 * a1 && c == g1 * c1 && Coprime(a1, c1)
    requires d == g2 * d1 && b == g2 * b1 && Coprime(d1, b1)
    ensures b1 * c1 != 0
    ensures b1 * c1 > 0 ==> Normal(a1 * d1, b1 * c1) && SameValue(a1 * d1, b1 * c1, a * d, b * c)
    ensures b1 * c1 < 0 ==> Normal(-(a1 * d1), -(b1 * c1)) && SameValue(-(a1 * d1), -(b1 * c1), a * d, b * c)
  {
    CoprimeSymmetric(c, d);
    assert a == a1 * g1 && c == c1 * g1 && d == d1 * g2 && b == b1 * g2;
    ProductReduced(a1, b1, d1, c1, g1, g2);
    ProductValue(a1, b1, d1, c1, g1, g2);
    PositiveFactor(g2, b1);
    assert c1 != 0;
    CoprimeFlip(a1 * d1, b1 * c1);
  }

  lemma {:induction false} TimesIntResult(a: int, b: int, i: int, g: int, i1: int, b1: int)
    requires Normal(a, b) && g > 0 && i == g * i1 && b == g * b1 && Coprime(i1, b1)
    ensures Normal(a * i1, b1) && SameValue(a * i1, b1, a * i, b)
  {
    assert b == b1 * g;
    CoprimeSymmetric(a, b);
    CoprimeFactor(b1, g, a);
    CoprimeSymmetric(i1, b1);
    CoprimeProduct(b1, a, i1);
    CoprimeSymmetric(b1, a * i1);
    PositiveFactor(g, b1);
    assert (a * i1) * (g * b1) == (a * (g * i1)) * b1;
  }

  lemma {:induction false} OverIntResult(a: int, b: int, i: int, g: int, a1: int, i1: int)
    requires Normal(a, b) && i != 0 && g > 0 && a == g * a1 && i == g * i1 && Coprime(a1, i1)
    ensures b * i1 != 0
    ensures b * i1 > 0 ==> Normal(a1, b * i1) && SameValue(a1, b * i1, a, b * i)
    ensures b * i1 < 0 ==> Normal(-a1, -(b * i1)) && SameValue(-a1, -(b * i1), a, b * i)
  {
    assert a == a1 * g;
    CoprimeFactor(a1, g, b);
    CoprimeProduct(a1, b, i1);
    CoprimeFlip(a1, b * i1);
    assert i1 != 0;
    assert a1 * (b * (g * i1)) == (g * a1) * (b * i1);
  }

  lemma {:induction false} NormalInt(n: int)
    ensures Normal(n, 1)
  {
    assert Comb(n, 1, 0, 1) == 1;
  }

  /** A reduced pair is normal up to its sign. */
  lemma {:induction false} ReducedIsNormal(n: int, d: int, g: int, p: int, q: int)
    requires n == g * p && d == g * q && g > 0 && d != 0 && Coprime(p, q)
    ensures q != 0
    ensures q > 0 ==> Normal(p, q) && SameValue(p, q, n, d)
    ensures q < 0 ==> Normal(-p, -q) && SameValue(-p, -q, n, d)
  {
    assert p * (g * q) == (g * p) * q;
    CoprimeFlip(p, q);
  }

  lemma {:induction false} CoprimeFlip(p: int, q: int)
    requires Coprime(p, q)
    ensures Coprime(-p, -q)
  {
    CoprimeNegate(p, q);
    CoprimeSymmetric(-p, q);
    CoprimeNegate(q, -p);
    CoprimeSymmetric(-q, -p);
  }

  /** The steps of += taken together: from the reduced denominators and the reduced
      numerator to the exact sum in lowest terms. */
  lemma {:induction false} SumResult(a: int, b: int, c: int, d: int, g: int, b1: int, d1: int,
                                     h: int, num: int, g1: int, den: int)
    requires Normal(a, b) && Normal(c, d)
    requires g > 0 && b == g * b1 && d == g * d1 && Coprime(b1, d1)
    requires h > 0 && a * d1 + c * b1 == h * num && g == h * g1 && Coprime(num, g1)
    requires den == b1 * TruncDiv(d, h)
    ensures Normal(num, den) && SameValue(num, den, a * d + c * b, b * d)
  {
    assert d == h * (d1 * g1) by {
      assert (h * g1) * d1 == h * (d1 * g1);
    }
    ExactDiv(h, d1 * g1);
    assert b == b1 * g && d == d1 * g;
    SumReduced(a, b1, c, d1, g, h, num, g1);
    SumValue(a, b1, c, d1, g, h, num, g1);
    PositiveFactor(g, b1);
    PositiveFactor(h, d1 * g1);
    PositiveProduct(b1, d1 * g1);
  }

  lemma {:induction false} DifferenceResult(a: int, b: int, c: int, d: int, g: int, b1: int, d1: int,
                                            h: int, num: int, g1: int, den: int)
    requires Normal(a, b) && Normal(c, d)
    requires g > 0 && b == g * b1 && d == g * d1 && Coprime(b1, d1)
    requires h > 0 && a * d1 - c * b1 == h * num && g == h * g1 && Coprime(num, g1)
    requires den == b1 * TruncDiv(d, h)
    ensures Normal(num, den) && SameValue(num, den, a * d - c * b, b * d)
  {
    CoprimeNegate(c, d);
    assert (-c) * b1 == -(c * b1) && (-c) * b == -(c * b);
    SumResult(a, b, -c, d, g, b1, d1, h, num, g1, den);
  }
}
