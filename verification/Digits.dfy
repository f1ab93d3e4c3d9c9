// Positional arithmetic in base `b`: what a time reads as once its lowest digits are dropped.
// A round of the timer wheel sees a due time only through `Shr`, so every placement fact is
// stated with it and no power of the base is ever divided by.

module Digits {

  lemma MulPos(x: nat, y: nat)
    requires x >= 1 && y >= 1
    ensures x * y >= 1
  {
  }

  // b to the power l.
  function Pow(b: nat, l: nat): (r: nat)
    requires b >= 1
    ensures r >= 1
  {
    if l == 0 then 1 else MulPos(b, Pow(b, l - 1)); b * Pow(b, l - 1)
  }

  // `x` without its `l` lowest base-`b` digits.
  function Shr(x: nat, b: nat, l: nat): nat
    requires b >= 1
  {
    if l == 0 then x else Shr(x, b, l - 1) / b
  }

  lemma MulAssoc(x: int, y: int, z: int)
    ensures (x * y) * z == x * (y * z) == x * (z * y)
  {
  }

  lemma MulGap(b: nat, x: int, y: int)
    requires x < y
    ensures b * x + b <= b * y
  {
    assert b * y == b * x + b * (y - x);
    assert b * (y - x) == b + b * (y - x - 1);
  }

  lemma QuotientUnique(m: nat, q: int, r: int, q': int, r': int)
    requires 0 <= r < m && 0 <= r' < m && m * q + r == m * q' + r'
    ensures q == q' && r == r'
  {
    if q' > q {
      MulGap(m, q, q');
    } else if q' < q {
      MulGap(m, q', q);
    }
  }

  lemma ModUnique(x: int, m: nat, q: int, r: int)
    requires m >= 1 && 0 <= r < m && x == m * q + r
    ensures x % m == r && x / m == q
  {
    QuotientUnique(m, q, r, x / m, x % m);
  }

  lemma DivBounds(x: nat, b: nat)
    requires b >= 1
    ensures x == b * (x / b) + x % b
    ensures 0 <= x % b < b
    ensures b * (x / b) <= x < b * (x / b) + b
  {
  }

  lemma DivUnique(x: nat, b: nat, q: nat)
    requires b >= 1 && b * q <= x < b * q + b
    ensures x / b == q
  {
    DivBounds(x, b);
    if x / b < q {
      MulGap(b, x / b, q);
    } else if x / b > q {
      MulGap(b, q, x / b);
    }
  }

  lemma DivMono(x: nat, y: nat, b: nat)
    requires b >= 1 && x <= y
    ensures x / b <= y / b
  {
    DivBounds(x, b);
    DivBounds(y, b);
    if x / b > y / b {
      MulGap(b, y / b, x / b);
    }
  }

  lemma MulSucc(b: int, q: int)
    ensures b * (q + 1) == b * q + b
  {
  }

  lemma SuccOf(x: nat, b: nat, q: nat, r: nat)
    requires r < b && x == b * q + r
    ensures (x + 1) / b == if (x + 1) % b == 0 then q + 1 else q
  {
    if r == b - 1 {
      MulSucc(b, q);
      ModUnique(x + 1, b, q + 1, 0);
    } else {
      ModUnique(x + 1, b, q, r + 1);
    }
  }

  // Counting up by one carries into the next digit exactly when the digit wraps to zero.
  lemma DivSucc(x: nat, b: nat)
    requires b >= 1
    ensures (x + 1) / b == if (x + 1) % b == 0 then x / b + 1 else x / b
  {
    DivBounds(x, b);
    SuccOf(x, b, x / b, x % b);
  }

  // Equal quotients order the remainders.
  lemma SameQuotient(x: nat, y: nat, b: nat)
    requires b >= 1 && x / b == y / b
    ensures x - y == x % b - y % b
  {
    DivBounds(x, b);
    DivBounds(y, b);
  }

  lemma MulAdd(a: int, x: int, b: int)
    ensures a * (x + b) == a * x + a * b
  {
  }

  lemma DivDiv(x: nat, a: nat, b: nat)
    requires a >= 1 && b >= 1
    ensures a * b >= 1
    ensures x / (a * b) == (x / a) / b
  {
    MulPos(a, b);
    var q := x / a;
    var r := q / b;
    DivBounds(x, a);
    DivBounds(q, b);
    MulGap(a, q, b * r + b);
    MulAssoc(a, b, r);
    MulAdd(a, b * r, b);
    if b * r < q {
      MulGap(a, b * r, q);
    }
    DivUnique(x, a * b, r);
  }

  lemma {:induction false} ShrMono(x: nat, y: nat, b: nat, l: nat)
    requires b >= 1 && x <= y
    ensures Shr(x, b, l) <= Shr(y, b, l)
  {
    if l > 0 {
      ShrMono(x, y, b, l - 1);
      DivMono(Shr(x, b, l - 1), Shr(y, b, l - 1), b);
    }
  }

  // `Shr` is one division by a power.
  lemma {:induction false} ShrIsDiv(x: nat, a: nat, b: nat, l: nat)
    requires a >= 1 && b >= 1
    ensures a * Pow(b, l) >= 1
    ensures x / (a * Pow(b, l)) == Shr(x / a, b, l)
  {
    MulPos(a, Pow(b, l));
    if l > 0 {
      var less := Pow(b, l - 1);
      ShrIsDiv(x, a, b, l - 1);
      MulAssoc(a, less, b);
      DivDiv(x, a * less, b);
    }
  }

  // Below a power, all digits from there on are zero.
  lemma ShrZero(x: nat, a: nat, b: nat, l: nat)
    requires a >= 1 && b >= 1
    ensures x < a * Pow(b, l) <==> Shr(x / a, b, l) == 0
  {
    ShrIsDiv(x, a, b, l);
    var m := a * Pow(b, l);
    DivBounds(x, m);
    if x < m {
      DivUnique(x, m, 0);
    }
  }

  lemma {:induction false} ShrOfZero(b: nat, l: nat)
    requires b >= 1
    ensures Shr(0, b, l) == 0
  {
    if l > 0 {
      ShrOfZero(b, l - 1);
      DivUnique(0, b, 0);
    }
  }

  // Higher digits agree once some lower prefix agrees.
  lemma {:induction false} ShrAgreeUp(x: nat, y: nat, b: nat, l: nat, m: nat)
    requires b >= 1 && l <= m && Shr(x, b, l) == Shr(y, b, l)
    ensures Shr(x, b, m) == Shr(y, b, m)
    decreases m - l
  {
    if l < m {
      assert Shr(x, b, l + 1) == Shr(y, b, l + 1);
      ShrAgreeUp(x, y, b, l + 1, m);
    }
  }

  lemma {:induction false} PowMono(b: nat, l: nat, m: nat)
    requires b >= 1 && l <= m
    ensures Pow(b, l) <= Pow(b, m)
    decreases m - l
  {
    if l < m {
      PowMono(b, l + 1, m);
      assert Pow(b, l + 1) == b * Pow(b, l);
    }
  }

  lemma {:induction false} PowAdd(b: nat, l: nat, m: nat)
    requires b >= 1
    ensures Pow(b, l + m) == Pow(b, l) * Pow(b, m)
  {
    if l > 0 {
      PowAdd(b, l - 1, m);
      MulAssoc(b, Pow(b, l - 1), Pow(b, m));
    }
  }

  lemma PowStep(a: nat, b: nat, l: nat)
    requires b >= 1
    ensures a * Pow(b, l + 1) == (a * Pow(b, l)) * b
  {
    MulAssoc(a, Pow(b, l), b);
  }

  lemma ModMulti(x: int, m: nat, k: int)
    requires m >= 1
    ensures (x + m * k) % m == x % m
  {
    var q := x / m;
    var r := x % m;
    assert x == m * q + r;
    assert x + m * k == m * (q + k) + r;
    ModUnique(x + m * k, m, q + k, r);
  }

  lemma MulNonneg(x: nat, y: nat)
    ensures x * y >= 0
  {
  }

  lemma MulLe(b: nat, x: int, y: int)
    requires x <= y
    ensures b * x <= b * y
  {
    if x < y {
      MulGap(b, x, y);
    }
  }
}
