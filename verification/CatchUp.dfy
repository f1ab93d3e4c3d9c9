// What scheduling an overdue timer comes to: the repeat policy answers the same at every step of one
// catch-up, so the outcome and the number of callbacks queued have a closed form.

module CatchUp {
  import opened Calendar
  import opened Common
  import opened Digits

  function Min(x: int, y: int): int {
    if x < y then x else y
  }

  // How often an overdue timer is due in steps of `interval` before its due time reaches `elapsed` or
  // passes `span`.
  function Overdues(elapsed: int, span: int, ms: int, interval: int): int
    requires interval > 0
  {
    if ms >= elapsed || ms > span then 0 else Min((elapsed - ms + interval - 1) / interval, (span - ms) / interval + 1)
  }

  // The due time `k` intervals on.
  function Later(ms: int, interval: int, k: int): int {
    ms + interval * k
  }

  // Still overdue, and inside the span.
  predicate Overdue(elapsed: int, span: int, ms: int) {
    ms < elapsed && ms <= span
  }

  // Steps of `interval` reach a distance after its quotient, rounded up; and pass it after that, rounded
  // down, and one more.
  lemma Reach(x: nat, interval: nat, k: int)
    requires interval > 0 && x > 0
    ensures var n := (x + interval - 1) / interval; n > 0 && interval * n >= x && (k < n ==> interval * k < x)
  {
    var n := (x + interval - 1) / interval;
    DivBounds(x + interval - 1, interval);
    if k < n {
      MulGap(interval, k, n);
    }
    if n <= 0 {
      MulLe(interval, n, 0);
    }
  }

  lemma Pass(x: nat, interval: nat, k: int)
    requires interval > 0
    ensures var n := x / interval + 1; n > 0 && interval * n > x && (k < n ==> interval * k <= x)
  {
    var n := x / interval + 1;
    DivBounds(x, interval);
    MulGap(interval, n - 1, n);
    if k < n {
      MulLe(interval, k, n - 1);
    }
  }

  // The least number of steps with that effect.
  lemma OverduesIsLeast(elapsed: int, span: int, ms: int, interval: int)
    requires interval > 0
    ensures var n := Overdues(elapsed, span, ms, interval);
      && n >= 0
      && !Overdue(elapsed, span, Later(ms, interval, n))
      && forall k {:trigger Later(ms, interval, k)} :: 0 <= k < n ==> Overdue(elapsed, span, Later(ms, interval, k))
  {
    var n := Overdues(elapsed, span, ms, interval);
    if Overdue(elapsed, span, ms) {
      forall k {:trigger Later(ms, interval, k)}
        ensures n >= 0 && (k < n ==> Overdue(elapsed, span, Later(ms, interval, k)))
        ensures k == n ==> !Overdue(elapsed, span, Later(ms, interval, k))
      {
        Reach(elapsed - ms, interval, k);
        Pass(span - ms, interval, k);
      }
    } else {
      assert interval * 0 == 0;
    }
  }

  lemma LaterStep(ms: int, interval: int, k: int)
    ensures Later(ms, interval, 1 + k) == Later(ms + interval, interval, k)
    ensures Later(ms, interval, 0) == ms
  {
    assert interval * (1 + k) == interval + interval * k;
  }

  lemma OverduesStep(elapsed: int, span: int, ms: int, interval: int)
    requires interval > 0 && Overdue(elapsed, span, ms)
    ensures Overdues(elapsed, span, ms, interval) == 1 + Overdues(elapsed, span, ms + interval, interval)
  {
    var n, m := Overdues(elapsed, span, ms, interval), Overdues(elapsed, span, ms + interval, interval);
    OverduesIsLeast(elapsed, span, ms, interval);
    OverduesIsLeast(elapsed, span, ms + interval, interval);
    LaterStep(ms, interval, m);
    LaterStep(ms, interval, n - 1);
    hide Overdues, Later;
    assert 1 + m < n ==> Overdue(elapsed, span, Later(ms, interval, 1 + m));
    assert n < 1 + m ==> Overdue(elapsed, span, Later(ms + interval, interval, n - 1));
  }

  // All outcomes of scheduling a timer.
  ghost predicate Comes(cfg: Config, elapsed: nat, now: int, t: Timer, r: Sched)
    requires cfg.Positive()
  {
    var interval := t.Repeat(now);
    if t.ms > cfg.span then r.log == [] && r.out.Rejected?
    else if t.ms >= elapsed then r.log == [] && if t.ms >= cfg.span then r.out.Rejected? else r.out.Placed?
    else if interval <= 0 || t.count <= 1 then |r.log| == 1 && r.out.Finished?
    else
      var n := Overdues(elapsed, cfg.span, t.ms, interval);
      if t.count <= n then |r.log| == t.count && r.out.Finished?
      else |r.log| == n && if Later(t.ms, interval, n) >= cfg.span then r.out.Rejected? else r.out.Placed?
  }

  lemma NoneOverdue(elapsed: int, span: int, ms: int, interval: int)
    requires interval > 0 && (ms >= elapsed || ms > span)
    ensures Overdues(elapsed, span, ms, interval) == 0
  {
  }

  lemma SomeOverdue(elapsed: int, span: int, ms: int, interval: int)
    requires interval > 0 && ms < elapsed && ms <= span
    ensures Overdues(elapsed, span, ms, interval) >= 1
  {
    OverduesStep(elapsed, span, ms, interval);
    OverduesIsLeast(elapsed, span, ms + interval, interval);
  }

  lemma {:induction false} ScheduleComes(cfg: Config, elapsed: nat, cursor: int, now: int, t: Timer)
    requires cfg.Positive()
    ensures Comes(cfg, elapsed, now, t, Schedule(cfg, elapsed, cursor, now, t))
    decreases t.count
  {
    hide Overdues, FireTick, Later;
    var interval := t.Repeat(now);
    if t.ms <= cfg.span && t.ms < elapsed && interval > 0 && t.count > 1 {
      var next := t.(count := t.count - 1, ms := t.ms + interval);
      ScheduleComes(cfg, elapsed, cursor, now, next);
      OverduesStep(elapsed, cfg.span, t.ms, interval);
      OverduesIsLeast(elapsed, cfg.span, next.ms, interval);
      LaterStep(t.ms, interval, Overdues(elapsed, cfg.span, next.ms, interval));
      LaterStep(next.ms, interval, 0);
      if next.ms > cfg.span || next.ms >= elapsed {
        NoneOverdue(elapsed, cfg.span, next.ms, interval);
      } else {
        SomeOverdue(elapsed, cfg.span, next.ms, interval);
      }
    }
  }

  // An overdue timer that catches up past the span while it has firings left.
  predicate RunsOut(cfg: Config, elapsed: nat, due: int, interval: int, count: int) {
    && due < elapsed && due <= cfg.span && interval > 0
    && var n := Overdues(elapsed, cfg.span, due, interval);
       count > n && Later(due, interval, n) >= cfg.span
  }

  // Callbacks are queued for a timer that is then rejected exactly when it runs out of the span.
  lemma RejectedAfterFiring(cfg: Config, elapsed: nat, cursor: int, now: int, t: Timer)
    requires cfg.Positive()
    ensures var r := Schedule(cfg, elapsed, cursor, now, t);
      r.out.Rejected? && r.log != [] <==> RunsOut(cfg, elapsed, t.ms, t.Repeat(now), t.count)
  {
    ScheduleComes(cfg, elapsed, cursor, now, t);
    hide Schedule, Overdues, Later;
    var interval := t.Repeat(now);
    if t.ms < elapsed && t.ms <= cfg.span && interval > 0 {
      SomeOverdue(elapsed, cfg.span, t.ms, interval);
    }
  }

  lemma {:induction false} IdsPositive(cfg: Config, ss: seq<Cal>, ops: seq<Op>, i: nat)
    requires cfg.Positive() && Run(cfg, ss, ops) && i < |ss|
    ensures ss[i].lastId >= 1
  {
    if i > 0 {
      IdsPositive(cfg, ss, ops, i - 1);
      assert Next(cfg, ss[i - 1], ops[i - 1], ss[i]);
    }
  }

  // How often a timer fires while it is added: not at all when it is not overdue; else once for a timer without
  // another firing, and as often as it is overdue, up to its count, for others.
  function AtOnce(cfg: Config, elapsed: nat, due: int, interval: int, count: int): int {
    if due >= elapsed || due > cfg.span then 0
    else if interval <= 0 || count <= 1 then 1
    else Min(count, Overdues(elapsed, cfg.span, due, interval))
  }

  lemma ComesAtOnce(cfg: Config, elapsed: nat, cursor: int, now: int, t: Timer)
    requires cfg.Positive()
    ensures var r := Schedule(cfg, elapsed, cursor, now, t);
      && |r.log| == AtOnce(cfg, elapsed, t.ms, t.Repeat(now), t.count)
      && (r.out.Rejected? <==>
            t.ms > cfg.span || (t.ms >= elapsed && t.ms >= cfg.span) || RunsOut(cfg, elapsed, t.ms, t.Repeat(now), t.count))
  {
    ScheduleComes(cfg, elapsed, cursor, now, t);
    hide Schedule, Overdues, Later;
    var interval := t.Repeat(now);
    if t.ms < elapsed && t.ms <= cfg.span && interval > 0 {
      SomeOverdue(elapsed, cfg.span, t.ms, interval);
    }
  }

  // In every run: what adding a timer answers and how many callbacks it queues, from what was asked for. The due
  // time is the delay counted from the clock; the policy is asked at the wheel clock.
  lemma AddAnswers(cfg: Config, ss: seq<Cal>, ops: seq<Op>, j: nat)
    requires cfg.Positive() && Run(cfg, ss, ops) && j < |ops| && ops[j].AddOp?
    ensures var AddOp(parm, clock, id) := ops[j];
      var elapsed := ss[j].ticks * cfg.precision;
      var due, interval := parm.ms + clock, Asked(parm, ss[0].start + elapsed);
      && (id == -1 <==> due < 0 || due > cfg.span || (due >= elapsed && due >= cfg.span)
                        || RunsOut(cfg, elapsed, due, interval, Counted(parm)))
      && (id != -1 ==> id == ss[j].lastId + 1)
      && ss[j + 1].lastId == ss[j].lastId + (if due < 0 then 0 else 1)
      && |ss[j + 1].log| == |ss[j].log| + if due < 0 then 0 else AtOnce(cfg, elapsed, due, interval, Counted(parm))
  {
    var AddOp(parm, clock, id) := ops[j];
    var s := ss[j];
    assert Next(cfg, s, ops[j], ss[j + 1]);
    IdsPositive(cfg, ss, ops, j);
    StartStays(cfg, ss, ops, j);
    if parm.ms + clock >= 0 {
      var t := NewTimer(s.lastId + 1, parm, clock);
      assert t.Repeat(Now(s)) == Asked(parm, Now(s)) && t.count == Counted(parm);
      ComesAtOnce(cfg, s.elapsed, s.ticks - 1, Now(s), t);
      hide Schedule, Overdues, Later, RunsOut, AtOnce, Run;
    }
  }

  // So it answers -1 and queues callbacks all the same exactly when the timer, due at the time asked for, runs out
  // of the span; the number queued is the number of times it was overdue.
  lemma AddRejectedAfterFiring(cfg: Config, ss: seq<Cal>, ops: seq<Op>, j: nat)
    requires cfg.Positive() && Run(cfg, ss, ops) && j < |ops| && ops[j].AddOp?
    ensures var AddOp(parm, clock, id) := ops[j];
      var elapsed := ss[j].ticks * cfg.precision;
      var due, interval := parm.ms + clock, Asked(parm, ss[0].start + elapsed);
      var runsOut := due >= 0 && RunsOut(cfg, elapsed, due, interval, Counted(parm));
      && (id == -1 && |ss[j + 1].log| != |ss[j].log| <==> runsOut)
      && (runsOut ==> |ss[j + 1].log| == |ss[j].log| + Overdues(elapsed, cfg.span, due, interval))
  {
    var AddOp(parm, clock, id) := ops[j];
    var elapsed := ss[j].ticks * cfg.precision;
    var due, interval := parm.ms + clock, Asked(parm, ss[0].start + elapsed);
    AddAnswers(cfg, ss, ops, j);
    hide Run, Overdues, Later;
    if due < elapsed && due <= cfg.span && interval > 0 {
      SomeOverdue(elapsed, cfg.span, due, interval);
    }
  }

  // A wheel of one round spanning 2560 ms, 20 ms on: a timer due at 0 every 3000 ms fires once and is rejected.
  lemma OverdueRejected()
    ensures var cfg, t := Config(10, 256, 1, 2560), Timer(2, 0, Some((at: int) => 3000), 5, 0);
      var r := Schedule(cfg, 20, 1, 20, t); r.out.Rejected? && |r.log| == 1
  {
    var cfg, t := Config(10, 256, 1, 2560), Timer(2, 0, Some((at: int) => 3000), 5, 0);
    ScheduleComes(cfg, 20, 1, 20, t);
    assert t.Repeat(20) == 3000 && Overdues(20, 2560, 0, 3000) == 1;
  }
}
