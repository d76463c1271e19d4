/** Greatest common divisors: Euclid's recursion as the definition, the linear combinations
    it admits, and the library's two algorithms proved against it. */
module Gcd {
  import opened Powers

  function Abs(x: int): nat {
    if x < 0 then -x else x
  }

  /** The quotient rounded towards zero, as integer division rounds in the source. */
  function TruncDiv(n: int, d: int): int
    requires d != 0
  {
    if (n < 0) == (d < 0) then Abs(n) / Abs(d) else -(Abs(n) / Abs(d))
  }

  /** The remainder that goes with it; it has the sign of the dividend. */
  function TruncMod(n: int, d: int): int
    requires d != 0
  {
    if n < 0 then -(Abs(n) % Abs(d)) else Abs(n) % Abs(d)
  }

  function Gcd(a: nat, b: nat): (g: nat)
    ensures a > 0 || b > 0 ==> g > 0
    decreases b
  {
    if b == 0 then a else Gcd(b, a % b)
  }

  /** Gcd of integers of any sign. */
  function IntGcd(a: int, b: int): (g: nat)
    ensures a != 0 || b != 0 ==> g > 0
  {
    Gcd(Abs(a), Abs(b))
  }

  // ---------------------------------------------------------------------------------
  // Linear combinations and divisors

  function Comb(a: int, b: int, x: int, y: int): int {
    a * x + b * y
  }

  lemma {:induction false} DivMod(a: nat, b: nat)
    requires b > 0
    ensures a == b * (a / b) + a % b
  {
  }

  lemma {:induction false} CombStep(a: nat, b: nat, x: int, y: int)
    requires b > 0
    ensures Comb(a, b, y, x - (a / b) * y) == Comb(b, a % b, x, y)
  {
    var q, r := a / b, a % b;
    DivMod(a, b);
    assert a * y == (b * q) * y + r * y;
    assert b * (x - q * y) == b * x - (b * q) * y;
  }

  /** The gcd is a linear combination of its arguments. */
  lemma {:induction false} Bezout(a: nat, b: nat) returns (x: int, y: int)
    ensures Comb(a, b, x, y) == Gcd(a, b)
    decreases b
  {
    if b == 0 {
      x, y := 1, 0;
    } else {
      var x', y' := Bezout(b, a % b);
      CombStep(a, b, x', y');
      x, y := y', x' - (a / b) * y';
    }
  }

  /** The gcd divides both arguments. */
  lemma {:induction false} GcdDivides(a: nat, b: nat) returns (p: nat, q: nat)
    ensures a == Gcd(a, b) * p && b == Gcd(a, b) * q
    decreases b
  {
    if b == 0 {
      p, q := 1, 0;
    } else {
      var p', q' := GcdDivides(b, a % b);
      var g, k := Gcd(a, b), a / b;
      DivMod(a, b);
      assert a == (g * p') * k + g * q';
      assert (g * p') * k == g * (p' * k);
      assert g * (p' * k) + g * q' == g * (p' * k + q');
      p, q := p' * k + q', p';
    }
  }

  /** Every common divisor divides the gcd. */
  lemma {:induction false} CommonDivides(a: nat, b: nat, d: int, p: int, q: int) returns (k: int)
    requires a == d * p && b == d * q
    ensures Gcd(a, b) == d * k
  {
    var x, y := Bezout(a, b);
    k := p * x + q * y;
    assert a * x == d * (p * x) && b * y == d * (q * y);
  }

  lemma {:induction false} MultipleAtLeast(h: nat, j: int)
    requires h * j > 0
    ensures h * j >= h
  {
    if j >= 1 {
      assert h * j == h + h * (j - 1);
    }
  }

  lemma {:induction false} MutualDivisors(g: nat, h: nat, j: int, k: int)
    requires g == h * j && h == g * k
    ensures g == h
  {
    if g > 0 {
      MultipleAtLeast(h, j);
    }
    if h > 0 {
      MultipleAtLeast(g, k);
    }
  }

  lemma {:induction false} CombFactor(h: int, p: int, q: int, x: int, y: int)
    ensures Comb(h * p, h * q, x, y) == h * Comb(p, q, x, y)
  {
    assert (h * p) * x == h * (p * x) && (h * q) * y == h * (q * y);
  }

  /** The gcd is the only common divisor that is a combination of its arguments. */
  lemma {:induction false} GcdUnique(a: nat, b: nat, g: nat, p: int, q: int, x: int, y: int)
    requires a == g * p && b == g * q && Comb(a, b, x, y) == g
    ensures g == Gcd(a, b)
  {
    var k := CommonDivides(a, b, g, p, q);
    var p', q' := GcdDivides(a, b);
    CombFactor(Gcd(a, b), p', q', x, y);
    MutualDivisors(g, Gcd(a, b), Comb(p', q', x, y), k);
  }

  lemma {:induction false} GcdSymmetric(a: nat, b: nat)
    ensures Gcd(a, b) == Gcd(b, a)
  {
    if b == 0 || a == 0 {
    } else if a < b {
      SmallMod(a, b);
    } else if b < a {
      SmallMod(b, a);
    }
  }

  lemma {:induction false} SmallMod(a: nat, b: nat)
    requires a < b
    ensures a % b == a
  {
  }

  lemma {:induction false} GcdMod(a: nat, b: nat)
    requires a > 0
    ensures Gcd(a, b % a) == Gcd(a, b)
  {
    GcdSymmetric(a, b);
  }

  // ---------------------------------------------------------------------------------
  // Coprime numbers

  ghost predicate Coprime(a: int, b: int) {
    exists x: int, y: int :: Comb(a, b, x, y) == 1
  }

  function Sign(a: int): (s: int)
    ensures Abs(a) == a * s && a == Abs(a) * s && s * s == 1
  {
    if a < 0 then -1 else 1
  }

  lemma {:induction false} CoprimeIffGcd(a: int, b: int)
    ensures Coprime(a, b) <==> IntGcd(a, b) == 1
  {
    var s, t := Sign(a), Sign(b);
    if IntGcd(a, b) == 1 {
      var x, y := Bezout(Abs(a), Abs(b));
      assert Abs(a) * x == a * (s * x) && Abs(b) * y == b * (t * y);
      assert Comb(a, b, s * x, t * y) == 1;
    }
    if Coprime(a, b) {
      var x, y :| Comb(a, b, x, y) == 1;
      assert a * x == Abs(a) * (s * x) && b * y == Abs(b) * (t * y);
      assert Comb(Abs(a), Abs(b), s * x, t * y) == 1;
      GcdUnique(Abs(a), Abs(b), 1, Abs(a), Abs(b), s * x, t * y);
    }
  }

  lemma {:induction false} CancelFactor(g: int, k: int)
    requires g != 0 && g * k == g
    ensures k == 1
  {
    assert g * (k - 1) == 0;
  }

  lemma {:induction false} NatCoprimeAfterGcd(a: nat, b: nat) returns (m: nat, n: nat)
    requires a != 0 || b != 0
    ensures a == Gcd(a, b) * m && b == Gcd(a, b) * n && Coprime(m, n)
  {
    m, n := GcdDivides(a, b);
    var x, y := Bezout(a, b);
    CombFactor(Gcd(a, b), m, n, x, y);
    CancelFactor(Gcd(a, b), Comb(m, n, x, y));
  }

  /** Dividing by the gcd leaves coprime numbers. */
  lemma {:induction false} CoprimeAfterGcd(a: int, b: int) returns (p: int, q: int)
    requires a != 0 || b != 0
    ensures a == IntGcd(a, b) * p && b == IntGcd(a, b) * q && Coprime(p, q)
  {
    p, q := NatCoprimeAfterGcd(Abs(a), Abs(b));
    if a < 0 {
      CoprimeNegate(p, q);
      p := -p;
    }
    if b < 0 {
      CoprimeSymmetric(p, q);
      CoprimeNegate(q, p);
      CoprimeSymmetric(-q, p);
      q := -q;
    }
  }

  lemma {:induction false} CoprimeSymmetric(a: int, b: int)
    requires Coprime(a, b)
    ensures Coprime(b, a)
  {
    var x, y :| Comb(a, b, x, y) == 1;
    assert Comb(b, a, y, x) == 1;
  }

  /** A factor of one side stays coprime to the other. */
  lemma {:induction false} CoprimeFactor(a: int, k: int, b: int)
    requires Coprime(a * k, b)
    ensures Coprime(a, b)
  {
    var x, y :| Comb(a * k, b, x, y) == 1;
    assert (a * k) * x == a * (k * x);
    assert Comb(a, b, k * x, y) == 1;
  }

  lemma {:induction false} CoprimeNegate(a: int, b: int)
    requires Coprime(a, b)
    ensures Coprime(-a, b)
  {
    var x, y :| Comb(a, b, x, y) == 1;
    assert (-a) * (-x) == a * x;
    assert Comb(-a, b, -x, y) == 1;
  }

  /** Adding a multiple of the other side changes nothing. */
  lemma {:induction false} CoprimeShift(a: int, b: int, k: int)
    requires Coprime(a, b)
    ensures Coprime(a + b * k, b)
  {
    var x, y :| Comb(a, b, x, y) == 1;
    assert (a + b * k) * x == a * x + b * (k * x);
    assert b * (y - k * x) == b * y - b * (k * x);
    assert Comb(a + b * k, b, x, y - k * x) == 1;
  }

  /** Coprime to both factors is coprime to the product. */
  lemma {:induction false} CoprimeProduct(a: int, b: int, c: int)
    requires Coprime(a, b) && Coprime(a, c)
    ensures Coprime(a, b * c)
  {
    var x, y :| Comb(a, b, x, y) == 1;
    var u, v :| Comb(a, c, u, v) == 1;
    var w := x * (a * u + c * v) + b * y * u;
    assert a * w + (b * c) * (y * v) == (a * x + b * y) * (a * u + c * v) by {
      assert (a * x + b * y) * (a * u + c * v)
          == (a * x) * (a * u + c * v) + (b * y) * (a * u) + (b * y) * (c * v);
      assert (a * x) * (a * u + c * v) == a * (x * (a * u + c * v));
      assert (b * y) * (a * u) == a * (b * y * u);
      assert (b * y) * (c * v) == (b * c) * (y * v);
    }
    assert Comb(a, b * c, w, y * v) == 1;
  }

  /** A number that divides a product and is coprime to one factor divides the other. */
  lemma {:induction false} CoprimeDivisor(d: int, a: int, b: int, k: int) returns (j: int)
    requires a * b == d * k && Coprime(d, a)
    ensures b == d * j
  {
    var x, y :| Comb(d, a, x, y) == 1;
    assert b == (d * x + a * y) * b;
    assert (d * x + a * y) * b == d * (x * b) + (a * b) * y;
    assert (d * k) * y == d * (k * y);
    j := x * b + k * y;
    assert d * j == d * (x * b) + d * (k * y);
  }

  // ---------------------------------------------------------------------------------
  // The library's algorithms

  /** Remainders in turn, for integers of any sign. */
  method GcdEuclidean(a0: int, b0: int) returns (g: int)
    ensures Abs(g) == IntGcd(a0, b0)
    ensures a0 <= 0 && b0 <= 0 ==> g <= 0
  {
    var a, b := a0, b0;
    while true
      invariant a0 <= 0 && b0 <= 0 ==> a <= 0 && b <= 0
      invariant IntGcd(a, b) == IntGcd(a0, b0)
      decreases Abs(a) + Abs(b)
    {
      if a == 0 {
        GcdSymmetric(0, Abs(b));
        return b;
      }
      GcdMod(Abs(a), Abs(b));
      ModSmaller(b, a);
      b := TruncMod(b, a);
      if b == 0 {
        return a;
      }
      GcdSymmetric(Abs(a), Abs(b));
      GcdMod(Abs(b), Abs(a));
      ModSmaller(a, b);
      a := TruncMod(a, b);
      GcdSymmetric(Abs(a), Abs(b));
    }
  }

  lemma {:induction false} ModSmaller(n: int, d: int)
    requires d != 0
    ensures Abs(TruncMod(n, d)) == Abs(n) % Abs(d) < Abs(d)
    ensures Abs(TruncMod(n, d)) <= Abs(n)
  {
    DivMod(Abs(n), Abs(d));
    assert Abs(d) * (Abs(n) / Abs(d)) >= 0;
  }

  /** The integers of a number: all of them, or those of a two's complement word. */
  datatype IntegerType = Unbounded | TwosComplement(max: nat) {
    predicate Has(x: int) {
      TwosComplement? ==> Fits(x, max)
    }

    /** The least value has no opposite and is its own negation. */
    function Negate(x: int): (y: int)
      requires Has(x)
      ensures Has(y)
    {
      if TwosComplement? && x == -(max + 1) then x else -x
    }
  }

  predicate Fits(x: int, max: nat) {
    -(max + 1) <= x <= max
  }

  /** Both arguments are zero or the least value, and not both zero. */
  predicate GcdOverflows(t: IntegerType, a: int, b: int) {
    && t.TwosComplement?
    && (a == 0 || a == -(t.max + 1)) && (b == 0 || b == -(t.max + 1))
    && (a != 0 || b != 0)
  }

  /** Exactly then is the gcd out of range, by one. */
  lemma {:induction false} GcdOverflowsIff(t: IntegerType, a: int, b: int)
    requires t.Has(a) && t.Has(b)
    ensures GcdOverflows(t, a, b) <==> !t.Has(IntGcd(a, b))
    ensures GcdOverflows(t, a, b) ==> IntGcd(a, b) == t.max + 1
  {
    if GcdOverflows(t, a, b) {
      var m: nat := t.max + 1;
      assert Gcd(m, 0) == m && Gcd(0, m) == Gcd(m, 0);
      assert Gcd(m, m) == Gcd(m, 0);
    } else if a != 0 || b != 0 {
      GcdAtMost(Abs(a), Abs(b));
    }
  }

  lemma {:induction false} GcdAtMost(a: nat, b: nat)
    requires a > 0 || b > 0
    ensures a > 0 ==> Gcd(a, b) <= a
    ensures b > 0 ==> Gcd(a, b) <= b
  {
    var p, q := GcdDivides(a, b);
    if a > 0 {
      MultipleAtLeast(Gcd(a, b), p);
    }
    if b > 0 {
      MultipleAtLeast(Gcd(a, b), q);
    }
  }

  /** The result without its sign, where the type has it; where it has not, the negation leaves
      the least value as it is. */
  method GcdInteger(t: IntegerType, a: int, b: int) returns (g: int)
    requires t.Has(a) && t.Has(b)
    ensures t.Has(IntGcd(a, b)) <==> !GcdOverflows(t, a, b)
    ensures if GcdOverflows(t, a, b) then g == -(t.max + 1) && g + IntGcd(a, b) == 0 else g == IntGcd(a, b)
  {
    var result := GcdEuclidean(a, b);
    GcdOverflowsIff(t, a, b);
    g := if result < 0 then t.Negate(result) else result;
  }

  lemma {:induction false} GcdDouble(u: nat, v: nat)
    ensures Gcd(2 * u, 2 * v) == 2 * Gcd(u, v)
  {
    var g := Gcd(u, v);
    var p, q := GcdDivides(u, v);
    var x, y := Bezout(u, v);
    CombFactor(2, u, v, x, y);
    assert 2 * (g * p) == (2 * g) * p && 2 * (g * q) == (2 * g) * q;
    GcdUnique(2 * u, 2 * v, 2 * g, p, q, x, y);
  }

  function Mul(a: int, b: int): int {
    a * b
  }

  ghost predicate Divides(d: int, a: int) {
    exists k: int :: a == Mul(d, k)
  }

  lemma {:induction false} GcdDividesBoth(a: nat, b: nat)
    ensures Divides(Gcd(a, b), a) && Divides(Gcd(a, b), b)
  {
    var p, q := GcdDivides(a, b);
    assert a == Mul(Gcd(a, b), p) && b == Mul(Gcd(a, b), q);
  }

  lemma {:induction false} DividesGcd(d: int, a: nat, b: nat)
    requires Divides(d, a) && Divides(d, b)
    ensures Divides(d, Gcd(a, b))
  {
    var p :| a == Mul(d, p);
    var q :| b == Mul(d, q);
    var k := CommonDivides(a, b, d, p, q);
    assert Gcd(a, b) == Mul(d, k);
  }

  lemma {:induction false} DividesEachOther(g: nat, h: nat)
    requires Divides(g, h) && Divides(h, g)
    ensures g == h
  {
    var k :| h == Mul(g, k);
    var j :| g == Mul(h, j);
    MutualDivisors(g, h, j, k);
  }

  /** A common divisor divides every combination. */
  lemma {:induction false} DividesComb(d: int, a: int, b: int, x: int, y: int)
    requires Divides(d, a) && Divides(d, b)
    ensures Divides(d, Comb(a, b, x, y))
  {
    var p :| a == Mul(d, p);
    var q :| b == Mul(d, q);
    CombFactor(d, p, q, x, y);
    assert Comb(a, b, x, y) == Mul(d, Comb(p, q, x, y));
  }

  /** Two pairs of which each is made of combinations of the other have the same gcd. */
  lemma {:induction false} GcdOfCombs(a: nat, b: nat, c: nat, d: nat, x: int, y: int, z: int, w: int)
    requires c == Comb(a, b, x, y) && d == b && a == Comb(c, d, z, w)
    ensures Gcd(a, b) == Gcd(c, d)
  {
    GcdDividesBoth(a, b);
    DividesComb(Gcd(a, b), a, b, x, y);
    DividesGcd(Gcd(a, b), c, d);
    GcdDividesBoth(c, d);
    DividesComb(Gcd(c, d), c, d, z, w);
    DividesGcd(Gcd(c, d), a, b);
    DividesEachOther(Gcd(a, b), Gcd(c, d));
  }

  lemma {:induction false} GcdSubtract(u: nat, v: nat)
    requires u >= v
    ensures Gcd(u - v, v) == Gcd(u, v)
  {
    GcdOfCombs(u - v, v, u, v, 1, 1, 1, -1);
  }

  lemma {:induction false} OddDivisor(v: nat, g: int)
    requires v % 2 == 1 && Divides(g, v)
    ensures g % 2 == 1
  {
    var q :| v == Mul(g, q);
    var h, e := g / 2, g % 2;
    assert g * q == 2 * (h * q) + e * q;
  }

  lemma {:induction false} OddDividesHalf(g: int, u: int)
    requires g % 2 == 1 && Divides(g, 2 * u)
    ensures Divides(g, u)
  {
    var p :| 2 * u == Mul(g, p);
    assert Comb(g, 2, 1, -(g / 2)) == 1;
    var j := CoprimeDivisor(g, 2, u, p);
    assert u == Mul(g, j);
  }

  /** A factor of two on one side does not matter when the other is odd. */
  lemma {:induction false} GcdHalf(u: nat, v: nat)
    requires v % 2 == 1
    ensures Gcd(2 * u, v) == Gcd(u, v)
  {
    var g, h := Gcd(2 * u, v), Gcd(u, v);
    GcdDividesBoth(2 * u, v);
    OddDivisor(v, g);
    OddDividesHalf(g, u);
    DividesGcd(g, u, v);
    GcdDividesBoth(u, v);
    DividesComb(h, u, v, 2, 0);
    assert Comb(u, v, 2, 0) == 2 * u;
    DividesGcd(h, 2 * u, v);
    DividesEachOther(g, h);
  }

  lemma {:induction false} MoveFactor(p: nat, g: nat)
    ensures p * (2 * g) == (2 * p) * g
  {
  }

  /** The binary algorithm: common factors of two are shifted out, then the odd one of the
      pair is subtracted from the other until nothing is left. */
  method GcdBinary(u0: nat, v0: nat) returns (g: nat)
    ensures g == Gcd(u0, v0)
  {
    if u0 != 0 && v0 != 0 {
      var u, v := u0, v0;
      var shifts := 0;
      while u % 2 == 0 && v % 2 == 0
        invariant u > 0 && v > 0
        invariant Pow2(shifts) * Gcd(u, v) == Gcd(u0, v0)
        decreases u
      {
        GcdDouble(u / 2, v / 2);
        MoveFactor(Pow2(shifts), Gcd(u / 2, v / 2));
        shifts := shifts + 1;
        u, v := u / 2, v / 2;
      }
      var odd := WhittleDown(u, v);
      g := odd * Pow2(shifts);
    } else {
      GcdSymmetric(u0, v0);
      g := u0 + v0;
    }
  }

  /** Removes the factors of two from one operand, in place. */
  method RemoveTwos(r: array<nat>, which: nat, ghost g: nat)
    requires r.Length == 2 && which < 2 && r[which] > 0 && r[1 - which] % 2 == 1
    requires Gcd(r[which], r[1 - which]) == g
    modifies r
    ensures r[1 - which] == old(r[1 - which]) && 0 < r[which] <= old(r[which]) && r[which] % 2 == 1
    ensures Gcd(r[which], r[1 - which]) == g
  {
    ghost var odd := r[1 - which];
    while r[which] % 2 == 0
      invariant 0 < r[which] <= old(r[which]) && r[1 - which] == odd
      invariant Gcd(r[which], odd) == g
      decreases r[which]
    {
      GcdHalf(r[which] / 2, odd);
      r[which] := r[which] / 2;
    }
  }

  /** Main loop of GcdBinary, over the two-element array `r` of the source. */
  method WhittleDown(u: nat, v: nat) returns (g: nat)
    requires u > 0 && v > 0 && (u % 2 == 1 || v % 2 == 1)
    ensures g == Gcd(u, v)
  {
    var r := new nat[2];
    r[0], r[1] := u, v;
    var which := if u % 2 == 1 then 1 else 0;
    GcdSymmetric(u, v);
    while r[which] != 0
      invariant r.Length == 2 && 0 <= which < 2
      invariant r[1 - which] % 2 == 1
      invariant Gcd(r[which], r[1 - which]) == Gcd(u, v)
      decreases r[0] + r[1]
    {
      RemoveTwos(r, which, Gcd(u, v));
      if r[1 - which] > r[which] {
        GcdSymmetric(r[which], r[1 - which]);
        which := 1 - which;
      }
      GcdSubtract(r[which], r[1 - which]);
      r[which] := r[which] - r[1 - which];
    }
    GcdSymmetric(0, r[1 - which]);
    g := r[1 - which];
  }
}
