// Which slot of which round a due tick belongs to, and what advancing the cursor does to it.

module Placement {
  import opened Digits
  import opened Calendar

  // The 32-bit value of a 64-bit quotient.
  function ToInt32(x: nat): int {
    var low := x % 0x1_0000_0000;
    if low < 0x8000_0000 then low else low - 0x1_0000_0000
  }

  lemma TwoTo32()
    ensures Pow(2, 32) == 0x1_0000_0000
  {
    assert Pow(2, 8) == 256;
    PowAdd(2, 8, 8);
    PowAdd(2, 16, 16);
  }

  // Masking the truncated quotient still reads its lowest digit.
  lemma TruncationKeepsDigit(x: nat, bit: nat)
    requires bit <= 30
    ensures ToInt32(x) % Pow(2, bit) == x % Pow(2, bit)
  {
    var k := if ToInt32(x) >= 0 then x / 0x1_0000_0000 else x / 0x1_0000_0000 + 1;
    assert x == ToInt32(x) + 0x1_0000_0000 * k;
    PowAdd(2, bit, 32 - bit);
    TwoTo32();
    MulAssoc(Pow(2, bit), Pow(2, 32 - bit), k);
    ModMulti(ToInt32(x), Pow(2, bit), Pow(2, 32 - bit) * k);
  }

  // ---------- where a due tick belongs ----------

  // The cursor the upper rounds derive from: before the first tick it reads 0.
  function Base(c: int): nat {
    if c < 0 then 0 else c
  }

  // A node due in tick `d` and consumed by tick `fire` sits in slot `slot` of round `level` while
  // the base cursor is `c` and every tick before `from` is done.  On time, its round is the one
  // where `d` first differs from the cursor, with a larger digit; a node linked into the slot
  // under the cursor waits there for the next revolution.
  ghost predicate Sits(cfg: Config, c: int, from: int, d: nat, fire: int, level: nat, slot: nat)
    requires cfg.Positive()
  {
    var b := cfg.scale;
    && slot == Shr(d, b, level) % b
    && (fire == -1 || fire >= from)
    && if fire == d then
         && Shr(d, b, level + 1) == Shr(Base(c), b, level + 1)
         && (level > 0 ==> Shr(d, b, level) > Shr(Base(c), b, level))
       else
         level == 0 && d < from && fire == if cfg.rounds == 1 && d % b == 0 then -1 else d + b
  }

  // One step of the search for the round: agreeing above, a digit not larger than the cursor's
  // agrees too.
  lemma DigitStep(b: nat, c: nat, d: nat, level: nat)
    requires b >= 1 && d >= c && Shr(d, b, level + 1) == Shr(c, b, level + 1)
    ensures Shr(d, b, level) >= Shr(c, b, level)
    ensures Shr(d, b, level) % b <= Shr(c, b, level) % b <==> Shr(d, b, level) == Shr(c, b, level)
  {
    ShrMono(c, d, b, level);
    SameQuotient(Shr(d, b, level), Shr(c, b, level), b);
  }

  // Advancing the base cursor from `c` carries exactly into the rounds up to `level`.
  ghost predicate Carries(b: nat, c: nat, level: nat)
    requires b >= 1
  {
    Shr(c + 1, b, level) == Shr(c, b, level) + 1
  }

  lemma CarryUp(b: nat, c: nat, level: nat)
    requires b >= 1 && Carries(b, c, level)
    ensures Shr(c + 1, b, level + 1) ==
            Shr(c, b, level + 1) + if Shr(c + 1, b, level) % b == 0 then 1 else 0
  {
    DivSucc(Shr(c, b, level), b);
  }

  lemma {:induction false} NoCarry(b: nat, c: nat, level: nat)
    requires b >= 1 && !Carries(b, c, level)
    ensures Shr(c + 1, b, level) == Shr(c, b, level)
  {
    if level > 0 {
      if !Carries(b, c, level - 1) {
        NoCarry(b, c, level - 1);
      } else {
        CarryUp(b, c, level - 1);
      }
    }
  }

  // What advancing the cursor does to one node when the carry stops in round `level`, or runs off
  // the last round: it stays well placed, or it is in the bucket that has to move down.
  lemma AdvanceNode(cfg: Config, c: nat, level: nat, d: nat, fire: int, at: nat, slot: nat)
    requires cfg.Positive() && Carries(cfg.scale, c, level)
    requires Sits(cfg, c, c + 1, d, fire, at, slot)
    requires Carries(cfg.scale, c, level + 1) ==> Shr(d, cfg.scale, level + 1) == 0
    ensures
      || Sits(cfg, c + 1, c + 1, d, fire, at, slot)
      || (at == level && fire == d && !Carries(cfg.scale, c, level + 1)
          && slot == Shr(c + 1, cfg.scale, level) % cfg.scale && Shr(d, cfg.scale, level) == Shr(c + 1, cfg.scale, level))
  {
    var b := cfg.scale;
    if fire == d {
      CarryUp(b, c, level);
      ShrMono(c + 1, d, b, level + 1);
      assert !Carries(b, c, level + 1);
      if at < level {
        // everything on time in a round below the carry would be due after the carry
        ShrMono(c + 1, d, b, at + 1);
        if Shr(c + 1, b, at + 1) == Shr(c, b, at + 1) {
          ShrAgreeUp(c + 1, c, b, at + 1, level);
        } else {
          ShrMono(c, c + 1, b, at + 1);
        }
      } else {
        ShrAgreeUp(c + 1, c, b, level + 1, at + 1);
        if at == level {
          SameQuotient(Shr(d, b, level), Shr(c + 1, b, level), b);
        } else {
          ShrAgreeUp(c + 1, c, b, level + 1, at);
        }
      }
    }
  }

  lemma NextMultiple(b: nat, x: int, y: int)
    requires b * x < b * y
    ensures b * y <= b * x + b ==> b * y == b * x + b
  {
    if y > x {
      MulGap(b, x, y);
    } else {
      MulLe(b, y, x);
    }
  }

  // Congruent ticks less than a revolution and a bit apart.
  lemma NextRevolution(c: nat, d: nat, b: nat)
    requires b >= 1 && d < c && d % b == c % b
    ensures c <= d + b ==> c == d + b
  {
    DivBounds(c, b);
    DivBounds(d, b);
    NextMultiple(b, d / b, c / b);
  }

  // The slot under the cursor of round 0 holds exactly the nodes consumed by this tick.
  lemma UnderCursor(cfg: Config, c: nat, d: nat, fire: int, at: nat, slot: nat)
    requires cfg.Positive() && Sits(cfg, c, c, d, fire, at, slot)
    requires !(cfg.rounds == 1 && c > 0 && c % cfg.scale == 0)
    ensures (at == 0 && slot == c % cfg.scale) <==> fire == c
  {
    var b := cfg.scale;
    assert Shr(d, b, 0) == d && Shr(c, b, 0) == c;
    if fire == d {
      if at == 0 {
        SameQuotient(d, c, b);
      }
    } else {
      if slot == c % b {
        NextRevolution(c, d, b);
      }
      ModMulti(d, b, 1);
    }
  }
}
