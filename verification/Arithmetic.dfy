/** Facts about quotients, remainders and finite sets that the layouts and tables share. */
module Arithmetic {
  lemma {:induction false} DivModUnique(a: int, b: int, q: int, r: int)
    requires b > 0 && a == q * b + r && 0 <= r < b
    ensures a / b == q && a % b == r
  {
    var d := a / b - q;
    assert a == b * (a / b) + a % b;
    assert b * d == r - a % b;
    if d >= 1 {
      MulAtLeast(b, d);
    } else if d <= -1 {
      MulAtLeast(b, -d);
    }
  }

  lemma {:induction false} MulAtLeast(b: int, d: int)
    requires b > 0 && d >= 1
    ensures b * d >= b && b * -d <= -b
  {}

  lemma {:induction false} DivModRecompose(a: int, b: int)
    requires b > 0
    ensures a == a / b * b + a % b && 0 <= a % b < b
  {}

  lemma {:induction false} DivNonNegative(a: nat, b: nat)
    requires b > 0
    ensures a / b >= 0
  {}

  lemma {:induction false} DivBelow(a: nat, b: nat, q: nat)
    requires b > 0 && a < q * b
    ensures a / b < q
  {
    if a / b >= q {
      MulMonotone(q, a / b, b);
    }
  }

  lemma {:induction false} MulMonotone(x: nat, y: nat, b: nat)
    requires x <= y
    ensures x * b <= y * b
  {}

  lemma {:induction false} AddMultipleMod(a: int, k: int, b: int)
    requires b > 0
    ensures (a + k * b) % b == a % b && (a + k * b) / b == a / b + k
  {
    DivModUnique(a + k * b, b, a / b + k, a % b);
  }

  /** A part of a finite set is no larger. */
  lemma {:induction false} SubsetSize(a: set<nat>, b: set<nat>)
    requires a <= b
    ensures |a| <= |b|
  {
    if a != {} {
      var x :| x in a;
      SubsetSize(a - {x}, b - {x});
    }
  }
}
