/** Integer arithmetic the deck constructor relies on: JavaScript's
    truncating remainder, primality, congruence modulo `p`, and the fact that
    a linear congruence `d·x + t ≡ 0 (mod p)` with `0 < d < p` has exactly
    one root in `[0, p)` when `p` is prime. */
module ModArith {

  function Abs(a: int): (r: nat)
    ensures r == a || r == -a
  {
    if a < 0 then -a else a
  }

  /** JavaScript's `a % b` on integers: the quotient is truncated toward
      zero, so the remainder takes the sign of the dividend. */
  function JsRem(a: int, b: int): (r: int)
    requires b != 0
    ensures Abs(r) < Abs(b)
    ensures a >= 0 ==> r >= 0
    ensures a <= 0 ==> r <= 0
    ensures Cong(a, r, Abs(b))
  {
    var q := if a >= 0 then a / Abs(b) else -((-a) / Abs(b));
    var r := if a >= 0 then a % Abs(b) else -((-a) % Abs(b));
    assert a - r == q * Abs(b);
    MultipleIsCong(a, r, q, Abs(b));
    r
  }

  /** `p` is prime: at least 2 and divisible by nothing strictly between 1 and itself. */
  ghost predicate Prime(p: int)
  {
    p >= 2 && forall k :: 2 <= k < p ==> p % k != 0
  }

  /** `a` and `b` leave the same remainder modulo `p`. */
  ghost predicate Cong(a: int, b: int, p: int)
    requires p > 0
  {
    (a - b) % p == 0
  }

  /** Euclidean division is unique: any decomposition `a == q*n + r` with
      `0 <= r < n` is the one Dafny's `/` and `%` compute. */
  lemma DivModUnique(a: int, n: int, q: int, r: int)
    requires n > 0 && 0 <= r < n && a == q * n + r
    ensures a / n == q && a % n == r
  {
    var q0, r0 := a / n, a % n;
    assert (q - q0) * n == r0 - r;
    if q > q0 {
      MulAtLeast(q - q0, n);
    } else if q < q0 {
      MulAtLeast(q0 - q, n);
    }
  }

  lemma {:induction false} MulAtLeast(k: int, n: int)
    requires k >= 1 && n > 0
    ensures k * n >= n
    decreases k
  {
    if k > 1 {
      MulAtLeast(k - 1, n);
      assert k * n == (k - 1) * n + n;
    }
  }

  lemma MultipleIsCong(a: int, b: int, k: int, p: int)
    requires p > 0 && a - b == k * p
    ensures Cong(a, b, p)
  {
    DivModUnique(a - b, p, k, 0);
  }

  lemma CongIsMultiple(a: int, b: int, p: int) returns (k: int)
    requires p > 0 && Cong(a, b, p)
    ensures a - b == k * p
  {
    k := (a - b) / p;
  }

  lemma ModIsCong(a: int, p: int)
    requires p > 0
    ensures Cong(a % p, a, p)
  {
    MultipleIsCong(a % p, a, -(a / p), p);
  }

  lemma CongSymm(a: int, b: int, p: int)
    requires p > 0 && Cong(a, b, p)
    ensures Cong(b, a, p)
  {
    var k := CongIsMultiple(a, b, p);
    MultipleIsCong(b, a, -k, p);
  }

  lemma CongTrans(a: int, b: int, c: int, p: int)
    requires p > 0 && Cong(a, b, p) && Cong(b, c, p)
    ensures Cong(a, c, p)
  {
    var k1 := CongIsMultiple(a, b, p);
    var k2 := CongIsMultiple(b, c, p);
    MultipleIsCong(a, c, k1 + k2, p);
  }

  lemma CongAdd(a: int, b: int, c: int, d: int, p: int)
    requires p > 0 && Cong(a, b, p) && Cong(c, d, p)
    ensures Cong(a + c, b + d, p)
  {
    var k1 := CongIsMultiple(a, b, p);
    var k2 := CongIsMultiple(c, d, p);
    MultipleIsCong(a + c, b + d, k1 + k2, p);
  }

  lemma CongMul(a: int, b: int, c: int, p: int)
    requires p > 0 && Cong(a, b, p)
    ensures Cong(a * c, b * c, p)
  {
    var k := CongIsMultiple(a, b, p);
    assert a * c - b * c == (a - b) * c;
    assert a * c - b * c == (k * c) * p;
    MultipleIsCong(a * c, b * c, k * c, p);
  }

  /** Congruence is exactly equality of remainders. */
  lemma CongIffSameMod(a: int, b: int, p: int)
    requires p > 0
    ensures Cong(a, b, p) <==> a % p == b % p
  {
    if Cong(a, b, p) {
      var k := CongIsMultiple(a, b, p);
      DivModUnique(a, p, b / p + k, b % p);
    }
    if a % p == b % p {
      MultipleIsCong(a, b, a / p - b / p, p);
    }
  }

  /** Two residues in `[0, p)` that are congruent are equal. */
  lemma CongSmallEq(x: int, y: int, p: int)
    requires p > 0 && 0 <= x < p && 0 <= y < p && Cong(x, y, p)
    ensures x == y
  {
    if x > y {
      DivModUnique(x - y, p, 0, x - y);
    } else if x < y {
      DivModUnique(x - y, p, -1, p + x - y);
    }
  }

  /** `g` divides `a`, for a positive `g`. */
  ghost predicate Divides(g: int, a: int)
    requires g > 0
  {
    a % g == 0
  }

  lemma DividesCombination(g: int, a: int, b: int, q: int)
    requires g > 0 && Divides(g, b) && Divides(g, a - q * b)
    ensures Divides(g, a)
  {
    var kb := b / g;
    var kr := (a - q * b) / g;
    assert b == kb * g;
    assert a - q * b == kr * g;
    assert a == (q * kb + kr) * g;
    DivModUnique(a, g, q * kb + kr, 0);
  }

  lemma DivisorAtMost(g: int, a: int)
    requires g > 0 && a > 0 && Divides(g, a)
    ensures g <= a
  {
    var k := a / g;
    assert a == k * g;
    if k > 0 {
      MulAtLeast(k, g);
    }
  }

  /** One step of the extended Euclidean algorithm keeps the Bezout identity
      and the common divisor. */
  lemma BezoutStep(a: int, b: int, x: int, y: int, g: int)
    requires b > 0 && b * x + (a % b) * y == g
    requires g > 0 && Divides(g, b) && Divides(g, a % b)
    ensures a * y + b * (x - (a / b) * y) == g
    ensures Divides(g, a)
  {
    var q, r := a / b, a % b;
    assert a == q * b + r;
    assert a * y + b * (x - q * y) == b * x + r * y;
    DividesCombination(g, a, b, q);
  }

  /** The extended Euclidean algorithm: Bezout coefficients `(x, y)` and the
      greatest common divisor `g` of `a` and `b`. */
  function ExtGcd(a: nat, b: nat): (r: (int, int, nat))
    ensures a * r.0 + b * r.1 == r.2
    ensures a > 0 || b > 0 ==> r.2 > 0 && Divides(r.2, a) && Divides(r.2, b)
    decreases b
  {
    if b == 0 then
      (1, 0, a)
    else
      var t := ExtGcd(b, a % b);
      BezoutStep(a, b, t.0, t.1, t.2);
      (t.1, t.0 - (a / b) * t.1, t.2)
  }

  /** Every non-zero residue has a multiplicative inverse modulo a prime. */
  lemma Inverse(p: int, d: int) returns (e: int)
    requires Prime(p) && 0 < d < p
    ensures Cong(d * e, 1, p)
  {
    var (x, y, g) := ExtGcd(d, p);
    DivisorAtMost(g, d);
    assert g == 1;
    e := x;
    assert d * e - 1 == (-y) * p;
    MultipleIsCong(d * e, 1, -y, p);
  }

  /** For a prime `p` and `0 < d < p`, the congruence `d·x + t ≡ 0` has a root
      in `[0, p)` and any two such roots coincide. */
  lemma UniqueRoot(p: int, d: int, t: int) returns (x0: int)
    requires Prime(p) && 0 < d < p
    ensures 0 <= x0 < p && (d * x0 + t) % p == 0
    ensures forall x :: 0 <= x < p && (d * x + t) % p == 0 ==> x == x0
  {
    var e := Inverse(p, d);
    x0 := (e * (-t)) % p;
    // d*x0 + t ≡ d*e*(-t) + t ≡ -t + t == 0
    ModIsCong(e * (-t), p);
    CongMul(x0, e * (-t), d, p);
    assert x0 * d == d * x0;
    assert (e * (-t)) * d == (d * e) * (-t);
    CongMul(d * e, 1, -t, p);
    CongTrans(x0 * d, (d * e) * (-t), 1 * (-t), p);
    CongAdd(d * x0, -t, t, t, p);
    assert (d * x0 + t) - 0 == (d * x0 + t) - (-t + t);
    forall x | 0 <= x < p && (d * x + t) % p == 0
      ensures x == x0
    {
      RootsAgree(p, d, t, e, x, x0);
    }
  }

  lemma RootsAgree(p: int, d: int, t: int, e: int, x1: int, x2: int)
    requires p > 0 && Cong(d * e, 1, p)
    requires 0 <= x1 < p && 0 <= x2 < p
    requires (d * x1 + t) % p == 0 && (d * x2 + t) % p == 0
    ensures x1 == x2
  {
    // d·(x1 - x2) ≡ 0, so x1 - x2 ≡ (d·e)·(x1 - x2) ≡ 0
    var u := x1 - x2;
    var k1 := CongIsMultiple(d * x1 + t, 0, p);
    var k2 := CongIsMultiple(d * x2 + t, 0, p);
    ScaledDifference(d, e, t, x1, x2, k1 - k2, p);
    MultipleIsCong((d * e) * u, 0, e * (k1 - k2), p);
    CongMul(d * e, 1, u, p);
    CongSymm((d * e) * u, 1 * u, p);
    CongTrans(1 * u, (d * e) * u, 0, p);
    assert Cong(x1, x2, p);
    CongSmallEq(x1, x2, p);
  }

  lemma ScaledDifference(d: int, e: int, t: int, x1: int, x2: int, k: int, p: int)
    requires (d * x1 + t) - (d * x2 + t) == k * p
    ensures (d * e) * (x1 - x2) == (e * k) * p
  {
    assert d * (x1 - x2) == k * p;
    assert (d * e) * (x1 - x2) == e * (d * (x1 - x2));
  }
}
