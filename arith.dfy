/** Small facts about natural-number multiplication and division that both
    counters rely on; the solver does not find them on its own. */
module Arith {

  function Min(a: int, b: int): (m: int)
    ensures m <= a && m <= b
    ensures m == a || m == b
  {
    if a <= b then a else b
  }

  /** Multiplying both sides of an inequality by the same natural keeps it. */
  lemma {:induction false} MulLeMul(a: int, b: int, c: nat)
    requires a <= b
    ensures a * c <= b * c
  {
    if c > 0 {
      MulLeMul(a, b, c - 1);
      assert a * c == a * (c - 1) + a;
      assert b * c == b * (c - 1) + b;
    }
  }

  /** Natural division is monotone in the dividend. */
  lemma DivMonotone(x: nat, y: nat, b: nat)
    requires b > 0 && x <= y
    ensures x / b <= y / b
  {
    var p, q := x / b, y / b;
    assert p * b <= x && y < (q + 1) * b;
    if p > q {
      MulLeMul(q + 1, p, b);
    }
  }

  /** A quotient is bounded by v as soon as the dividend is at most b * v. */
  lemma DivAtMost(x: nat, b: nat, v: nat)
    requires b > 0 && x <= b * v
    ensures x / b <= v
  {
    var q := x / b;
    assert q * b <= x;
    if q > v {
      MulLeMul(v + 1, q, b);
    }
  }

  /** Dividing b * v by b gives v back. */
  lemma MulDivCancel(b: nat, v: nat)
    requires b > 0
    ensures (b * v) / b == v
  {
    var q := (b * v) / b;
    DivAtMost(b * v, b, v);
    assert b * v < (q + 1) * b;
    if q < v {
      MulLeMul(q + 1, v, b);
    }
  }

  /** (t + b - 1) / b is t / b rounded up: the least q with q * b >= t. */
  lemma CeilDivBounds(t: nat, b: nat, s: nat)
    requires b > 0
    ensures (t + b - 1) / b * b >= t
    ensures (t + b - 1) / b > 0 ==> ((t + b - 1) / b - 1) * b < t
    ensures t <= s * b ==> (t + b - 1) / b <= s
  {
    var a := t + b - 1;
    var q := a / b;
    var qb := q * b;
    assert qb <= a < qb + b by {
      assert (q + 1) * b == qb + b;
    }
    assert (q - 1) * b == qb - b;
    if t <= s * b && q > s {
      MulLeMul(s + 1, q, b);
    }
  }
}
