// The configuration of the timer wheel: how many rounds fit into 64-bit milliseconds.

module WheelConfig {
  import opened Digits
  import opened Calendar
  import opened Common

  const INT64_MAX: int := 0x7fff_ffff_ffff_ffff

  function Clamp(x: int, low: int, high: int): (r: int)
    requires low <= high
    ensures low <= r <= high && (low <= x <= high ==> r == x) && (x < low ==> r == low) && (x > high ==> r == high)
  {
    if x < low then low else if x > high then high else x
  }

  // Multiplication stays inside the limit exactly when the division says so, and it grows.
  lemma Fits(x: nat, scale: nat)
    requires scale >= 1
    ensures x <= INT64_MAX / scale <==> x * scale <= INT64_MAX
    ensures scale >= 2 && x >= 1 ==> x * scale > x
  {
    DivBounds(INT64_MAX, scale);
    assert x * scale == scale * x;
    if x <= INT64_MAX / scale {
      MulLe(scale, x, INT64_MAX / scale);
    } else {
      MulGap(scale, INT64_MAX / scale, x);
    }
    if scale >= 2 {
      MulLe(x, 2, scale);
    }
  }

  lemma TwoTo30()
    ensures Pow(2, 30) == 0x4000_0000
  {
    assert Pow(2, 7) == 128;
    PowAdd(2, 7, 8);
    PowAdd(2, 15, 15);
  }

  lemma FirstRoundFits(p: nat, bit: nat)
    requires p <= INT_MAX && bit <= 30
    ensures p * Pow(2, bit) <= INT64_MAX
  {
    hide Pow;
    PowMono(2, bit, 30);
    TwoTo30();
    MulLe(p, Pow(2, bit), 0x4000_0000);
  }

  // The number of rounds of 2^bit slots whose span fits into 64 bits.
  method SafeCount(precision: int, bit: int) returns (count: int)
    requires precision <= INT_MAX
    ensures 1 <= count
    ensures var p := if precision < 1 then 1 else precision;
      var scale := Pow(2, Clamp(bit, 0, 30));
      if scale == 1 then count == INT_MAX
      else p * Pow(scale, count) <= INT64_MAX < p * Pow(scale, count + 1)
  {
    var p := if precision < 1 then 1 else precision;
    var lbit := Clamp(bit, 0, 30);
    var scale := Pow(2, lbit);
    if scale <= 1 {
      return INT_MAX;
    }
    count := 0;
    var roundMs := p;
    assert p * Pow(scale, 0) == p;
    while roundMs <= INT64_MAX / scale
      invariant 0 <= count && roundMs == p * Pow(scale, count) && p <= roundMs <= INT64_MAX
      decreases INT64_MAX - roundMs
    {
      PowStep(p, scale, count);
      Fits(roundMs, scale);
      roundMs := roundMs * scale;
      count := count + 1;
    }
    PowStep(p, scale, count);
    Fits(roundMs, scale);
    if count == 0 {
      FirstRoundFits(p, lbit);
    }
  }

  lemma {:induction false} PowOne(l: nat)
    ensures Pow(1, l) == 1
  {
    if l > 0 {
      PowOne(l - 1);
    }
  }

  // The configuration the constructor works with.
  method Normalize(precision: int, bit: int, count: int) returns (cfg: Config, lbit: nat)
    requires precision <= INT_MAX && count <= INT_MAX
    ensures cfg.Valid() && lbit == Clamp(bit, 0, 30) && cfg.scale == Pow(2, lbit)
    ensures cfg.precision == if precision <= 0 then 1 else precision
    ensures var asked := if count <= 0 then 1 else count;
      && 1 <= cfg.rounds <= asked
      && (cfg.rounds < asked ==> cfg.precision * Pow(cfg.scale, cfg.rounds + 1) > INT64_MAX)
    ensures forall l :: 0 <= l <= cfg.rounds ==> cfg.precision * Pow(cfg.scale, l) <= INT64_MAX
  {
    var p := if precision <= 0 then 1 else precision;
    lbit := Clamp(bit, 0, 30);
    var rounds := if count <= 0 then 1 else count;
    var safe := SafeCount(p, lbit);
    if rounds > safe {
      rounds := safe;
    }
    MulNonneg(p, Pow(Pow(2, lbit), rounds));
    cfg := Config(p, Pow(2, lbit), rounds, p * Pow(Pow(2, lbit), rounds));
    forall l | 0 <= l <= rounds
      ensures p * Pow(cfg.scale, l) <= INT64_MAX
    {
      if cfg.scale == 1 {
        PowOne(l);
      } else {
        PowMono(cfg.scale, l, safe);
        MulLe(p, Pow(cfg.scale, l), Pow(cfg.scale, safe));
      }
    }
  }

  // The spans of all rounds together.
  function TotalSpan(p: nat, scale: nat, rounds: nat): (r: nat)
    requires scale >= 1
  {
    if rounds == 0 then 0
    else MulNonneg(p, Pow(scale, rounds)); TotalSpan(p, scale, rounds - 1) + p * Pow(scale, rounds)
  }

  // The sum in closed form.
  lemma {:induction false} TotalIs(p: nat, scale: nat, rounds: nat)
    requires scale >= 1
    ensures (scale - 1) * TotalSpan(p, scale, rounds) == p * Pow(scale, rounds + 1) - p * scale
  {
    if rounds == 0 {
      assert Pow(scale, 1) == scale * Pow(scale, 0) == scale;
    } else {
      var x, y := TotalSpan(p, scale, rounds - 1), p * Pow(scale, rounds);
      TotalIs(p, scale, rounds - 1);
      PowStep(p, scale, rounds);
      MulAdd(scale - 1, x, y);
      MulAdd(y, scale, -1);
      assert (scale - 1) * y == y * (scale - 1);
    }
  }

  lemma {:induction false} TotalGrows(p: nat, scale: nat, l: nat, m: nat)
    requires scale >= 1 && l <= m
    ensures TotalSpan(p, scale, l) <= TotalSpan(p, scale, m)
    ensures l >= 1 ==> p * Pow(scale, l) <= TotalSpan(p, scale, m)
  {
    if l < m {
      TotalGrows(p, scale, l, m - 1);
      MulNonneg(p, Pow(scale, m));
    }
  }

  // The total span, saturating at the 64-bit limit.
  method MaxTime(precision: int, bit: int, count: int) returns (total: int)
    ensures var p := if precision < 0 then 0 else precision;
      var sum := TotalSpan(p, Pow(2, Clamp(bit, 0, 30)), if count < 0 then 0 else count);
      precision <= INT64_MAX ==> total == if sum <= INT64_MAX then sum else INT64_MAX
  {
    var p := if precision < 0 then 0 else precision;
    var scale := Pow(2, Clamp(bit, 0, 30));
    var rounds := if count < 0 then 0 else count;
    total := 0;
    var roundMs := p;
    var index := 0;
    assert p * Pow(scale, 0) == p;
    while index < rounds
      invariant 0 <= index <= rounds && roundMs == p * Pow(scale, index)
      invariant total == TotalSpan(p, scale, index) && (precision <= INT64_MAX ==> total <= INT64_MAX)
    {
      PowStep(p, scale, index);
      Fits(roundMs, scale);
      TotalGrows(p, scale, index + 1, rounds);
      if roundMs > INT64_MAX / scale {
        return INT64_MAX;
      }
      roundMs := roundMs * scale;
      if total > INT64_MAX - roundMs {
        return INT64_MAX;
      }
      total := total + roundMs;
      index := index + 1;
    }
  }
}
