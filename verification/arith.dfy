/** Small facts about multiplication, division and remainder that the solver
    does not find on its own, each proved once for the modules that need
    them. */
module Arith {

  lemma {:induction false} MulMonotone(a: int, b: int, m: nat)
    requires a <= b
    ensures a * m <= b * m
    decreases m
  {
    if m > 0 {
      MulMonotone(a, b, m - 1);
      assert a * m == a * (m - 1) + a;
      assert b * m == b * (m - 1) + b;
    }
  }

  lemma MulNonNegative(a: nat, b: nat)
    ensures a * b >= 0
  {
    MulMonotone(0, a, b);
  }

  lemma MulAtLeastOne(d: nat, k: int)
    requires k >= 1
    ensures d * k >= d
  {
    MulMonotone(1, k, d);
  }

  /** Division is determined by any quotient/remainder pair. */
  lemma DivUnique(a: int, d: int, q: int, r: int)
    requires d > 0 && 0 <= r < d && a == d * q + r
    ensures a / d == q && a % d == r
  {
    var q' := a / d;
    var r' := a % d;
    assert a == d * q' + r';
    if q > q' {
      assert d * q - d * q' == d * (q - q');
      MulAtLeastOne(d, q - q');
      assert false;
    } else if q < q' {
      assert d * q' - d * q == d * (q' - q);
      MulAtLeastOne(d, q' - q);
      assert false;
    }
  }

  lemma DivNonNegative(a: nat, d: nat)
    requires d > 0
    ensures a / d >= 0
  {
    FloorDivision(a, d);
    if a / d < 0 {
      MulMonotone(a / d + 1, 0, d);
    }
  }

  lemma FloorDivision(a: int, d: int)
    requires d > 0
    ensures (a / d) * d <= a < (a / d + 1) * d
  {
    var q := a / d;
    assert a == d * q + a % d;
    assert (q + 1) * d == q * d + d;
  }

  lemma {:induction false} NestedDivision(a: nat, b: nat, c: nat)
    requires b > 0 && c > 0
    ensures a / b / c == a / (b * c)
  {
    var q := a / b;
    var q2 := q / c;
    var r1 := a % b;
    var r2 := q % c;
    assert a == b * q + r1;
    assert q == c * q2 + r2;
    assert b * q == (b * c) * q2 + b * r2 by {
      assert b * (c * q2 + r2) == b * (c * q2) + b * r2;
    }
    MulNonNegative(b, r2);
    assert b * r2 <= b * c - b by {
      MulMonotone(r2, c - 1, b);
      assert (c - 1) * b == b * c - b;
    }
    DivUnique(a, b * c, q2, b * r2 + r1);
  }

  /** Stepping a counter by one commutes with reducing it modulo len. */
  lemma ModStep(k: nat, len: nat)
    requires len >= 1
    ensures (k % len + 1) % len == (k + 1) % len
  {
    var q := k / len;
    var r := k % len;
    assert k == len * q + r;
    if r + 1 < len {
      DivUnique(k + 1, len, q, r + 1);
      DivUnique(r + 1, len, 0, r + 1);
    } else {
      assert k + 1 == len * (q + 1) + 0;
      DivUnique(k + 1, len, q + 1, 0);
      DivUnique(r + 1, len, 1, 0);
    }
  }

  /** Within one period, distinct offsets give distinct residues. */
  lemma ModDistinct(len: nat, t: nat, p: nat)
    requires 0 < p < len
    ensures (t + p) % len != t % len
  {
    var q := t / len;
    var r := t % len;
    assert t == len * q + r;
    if r + p < len {
      DivUnique(t + p, len, q, r + p);
    } else {
      assert t + p == len * (q + 1) + (r + p - len);
      DivUnique(t + p, len, q + 1, r + p - len);
    }
  }

  lemma ModPeriod(len: nat, t: nat)
    requires len >= 1
    ensures (t + len) % len == t % len
  {
    var q := t / len;
    var r := t % len;
    assert t == len * q + r;
    assert t + len == len * (q + 1) + r;
    DivUnique(t + len, len, q + 1, r);
  }
}
