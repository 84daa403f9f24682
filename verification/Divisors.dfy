/** Greatest common divisors: what a counter that moves in equal steps modulo some number can reach. */
module Divisors {

  function Gcd(a: nat, b: nat): nat
    decreases b
  {
    if b == 0 then a else Gcd(b, a % b)
  }

  /** a and b are the same modulo m. */
  ghost predicate Same(a: int, b: int, m: nat) {
    exists q: int :: a - b == q * m
  }

  lemma SameIs(a: int, b: int, m: nat, q: int)
    requires a - b == q * m
    ensures Same(a, b, m)
  {
  }

  lemma SameTrans(a: int, b: int, c: int, m: nat)
    requires Same(a, b, m) && Same(b, c, m)
    ensures Same(a, c, m) && Same(b, a, m)
  {
    var p: int :| a - b == p * m;
    var q: int :| b - c == q * m;
    SameIs(a, c, m, p + q);
    SameIs(b, a, m, -p);
  }

  lemma SameMod(a: int, m: nat)
    requires m > 0
    ensures Same(a, a % m, m)
  {
    SameIs(a, a % m, m, a / m);
  }

  /** Numbers from 0 to m - 1 that are the same modulo m are equal. */
  lemma SameUnique(a: int, b: int, m: nat)
    requires 0 <= a < m && 0 <= b < m && Same(a, b, m)
    ensures a == b
  {
    var q: int :| a - b == q * m;
    Far(q, m);
  }

  lemma Far(q: int, m: int)
    requires m >= 0
    ensures q > 0 ==> q * m >= m
    ensures q < 0 ==> q * m <= -m
  {
    if q > 0 {
      assert (q - 1) * m >= 0;
    } else {
      assert (-q - 1) * m >= -m;
    }
  }

  lemma {:induction false} GcdDivides(a: nat, b: nat)
    requires a > 0 || b > 0
    ensures Gcd(a, b) > 0
    ensures Same(a, 0, Gcd(a, b)) && Same(b, 0, Gcd(a, b))
    decreases b
  {
    var g := Gcd(a, b);
    if b == 0 {
      SameIs(a, 0, g, 1);
      SameIs(b, 0, g, 0);
    } else {
      GcdDivides(b, a % b);
      var p: int :| b - 0 == p * g;
      var q: int :| a % b - 0 == q * g;
      Combine(a, b, a / b, a % b, p, q, g);
      SameIs(a, 0, g, a / b * p + q);
    }
  }

  lemma Combine(a: int, b: int, n: int, r: int, p: int, q: int, g: int)
    requires a == n * b + r && b == p * g && r == q * g
    ensures a == (n * p + q) * g
  {
    assert n * (p * g) == (n * p) * g;
  }

  /** The divisor is a combination of the two numbers. */
  lemma {:induction false} Bezout(a: nat, b: nat) returns (x: int, y: int)
    ensures x * a + y * b == Gcd(a, b)
    decreases b
  {
    if b == 0 {
      x, y := 1, 0;
    } else {
      var u, v := Bezout(b, a % b);
      x, y := v, u - v * (a / b);
      assert v * (a / b * b + a % b) == v * (a / b) * b + v * (a % b);
      assert (u - v * (a / b)) * b == u * b - v * (a / b) * b;
    }
  }

  /** Steps of size a reach, modulo m, everything that is a multiple of the divisor away. */
  lemma StepsReach(a: nat, m: nat, target: int) returns (k: nat)
    requires m > 0 && Same(target, 0, Gcd(a, m))
    ensures k < m && Same(k * a, target, m)
  {
    var q: int :| target - 0 == q * Gcd(a, m);
    var x, y := Bezout(a, m);
    k := (q * x) % m;
    var n := (q * x) / m;
    assert q * x == n * m + k;
    StepSum(a, m, q, x, y, n, k);
    SameIs(k * a, target, m, -(n * a) - q * y);
  }

  lemma StepSum(a: int, m: int, q: int, x: int, y: int, n: int, k: int)
    requires q * x == n * m + k
    ensures k * a - q * (x * a + y * m) == (-(n * a) - q * y) * m
  {
    assert q * (x * a + y * m) == q * x * a + q * y * m;
    assert q * x * a == (n * m + k) * a == n * a * m + k * a;
  }

  lemma SameSum(a: int, b: int, m: nat)
    requires Same(a, 0, m) && Same(b, 0, m)
    ensures Same(a + b, 0, m) && Same(a - b, 0, m)
  {
    var p: int :| a - 0 == p * m;
    var q: int :| b - 0 == q * m;
    SameIs(a + b, 0, m, p + q);
    SameIs(a - b, 0, m, p - q);
  }

  lemma SameMirror(a: int, b: int, c: int, m: nat)
    requires Same(a, b, m)
    ensures Same(c - a, c - b, m)
  {
    var q: int :| a - b == q * m;
    SameIs(c - a, c - b, m, -q);
  }

  lemma PositiveMultiple(a: int, m: nat)
    requires Same(a, 0, m) && a > 0
    ensures a >= m
  {
    var q: int :| a - 0 == q * m;
    Far(q, m);
  }
}
