// How late a repeating timer can be: exactly when it is on time, exactly when it is lost, and otherwise never
// later than by a revolution of the base round.

module Punctual {
  import opened Calendar
  import opened Common
  import opened Digits

  // A tick that re-inserts the timer does so for a later tick.
  ghost predicate CarriesForward(cfg: Config, s: Cal, op: Op, id: int)
    requires cfg.Positive()
  {
    op.TickOp? && DueNow(s, id) && Consumed(cfg, s, id).out.Placed? ==>
      Consumed(cfg, s, id).out.entry.timer.ms / cfg.precision > s.ticks
  }

  // What a tick leaves of a timer is due from that tick on.
  lemma ConsumedEntry(cfg: Config, s: Cal, id: int)
    requires cfg.Positive() && DueNow(s, id) && s.elapsed == s.ticks * cfg.precision
    ensures Consumed(cfg, s, id).out.Placed? ==>
      var e := Consumed(cfg, s, id).out.entry;
      && e.timer.ms >= s.elapsed && e.timer.ms / cfg.precision >= s.ticks
      && e.fire == FireTick(cfg, s.ticks, e.timer.ms / cfg.precision)
  {
    var f := Fire(Now(s), id in s.cancelled, s.pending[id].timer);
    if f.left.Some? {
      ScheduleTimes(cfg, s.elapsed, s.ticks, Now(s), f.left.value);
      var r := Schedule(cfg, s.elapsed, s.ticks, Now(s), f.left.value);
      if r.out.Placed? {
        DueFrom(r.out.entry.timer.ms, s.ticks, cfg.precision);
      }
    }
  }

  lemma TickPunctual(cfg: Config, s: Cal, s': Cal, id: int)
    requires cfg.Positive() && WellKept(cfg, s) && TickStep(cfg, s, s') && DueNow(s, id)
    ensures OnTime(cfg, s', id) <==> CarriesForward(cfg, s, TickOp, id)
  {
    hide Consumed;
    ConsumedEntry(cfg, s, id);
    TicksGrow(s.ticks, cfg.precision);
    if Consumed(cfg, s, id).out.Placed? {
      var e := Consumed(cfg, s, id).out.entry;
      assert id in s'.pending && s'.pending[id] == e;
      DueFrom(e.timer.ms, s.ticks + 1, cfg.precision);
    }
  }

  lemma StepOnTimeIff(cfg: Config, s: Cal, op: Op, s': Cal, t: Timer)
    requires cfg.Positive() && WellKept(cfg, s) && Next(cfg, s, op, s')
    requires Tracked(cfg, s, t) && t.id !in s.cancelled && OnTime(cfg, s, t.id)
    ensures OnTime(cfg, s', t.id) <==> CarriesForward(cfg, s, op, t.id)
  {
    hide FireTick;
    match op
    case AddOp(parm, clock, id) => AddOthers(cfg, s, s', parm, clock, id, t.id);
    case CancelOp(_) =>
    case PopOp(_) =>
    case TickOp =>
      if DueNow(s, t.id) {
        ConsumedEntry(cfg, s, t.id);
        TickPunctual(cfg, s, s', t.id);
      } else {
        TickOthers(cfg, s, s', t.id);
      }
  }

  // An accepted timer is on time throughout a run if and only if every re-insertion carries it into a later
  // tick.
  lemma {:induction false} RunOnTimeIff(cfg: Config, ss: seq<Cal>, ops: seq<Op>, j: nat, i: nat, id: int)
    requires cfg.Positive() && Run(cfg, ss, ops) && Accepted(cfg, ss, ops, j, i, id)
    ensures (forall k :: j < k <= i ==> OnTime(cfg, ss[k], id)) <==>
            (forall k :: j < k < i ==> CarriesForward(cfg, ss[k], ops[k], id))
    decreases i
  {
    hide OnTime, CarriesForward, Next, WellKept, Tracked;
    assert Next(cfg, ss[i - 1], ops[i - 1], ss[i]);
    RunKept(cfg, ss, ops, i - 1);
    if i == j + 1 {
      NextIsAdd(cfg, ss[j], ops[j], ss[i]);
      AddTracked(cfg, ss[j], ss[i], ops[j].parm, ops[j].clock, id);
    } else {
      RunOnTimeIff(cfg, ss, ops, j, i - 1, id);
      if OnTime(cfg, ss[i - 1], id) {
        RunTracked(cfg, ss, ops, j, i - 1, id);
        StepOnTimeIff(cfg, ss[i - 1], ops[i - 1], ss[i], NewTimer(id, ops[j].parm, ops[j].clock));
      }
    }
  }

  // ---------- never more than a revolution late ----------

  // A firing was queued at most a revolution after its due tick.
  predicate Prompt(cfg: Config, start: int, f: Firing)
    requires cfg.Positive()
  {
    (f.at - start) / cfg.precision <= f.timer.ms / cfg.precision + cfg.scale
  }

  // A timer waits for a tick that never comes.
  predicate Lost(s: Cal, id: int) {
    id in s.pending && s.pending[id].fire == -1
  }

  // So are all but the first `own` firings of a timer, and what is waiting will be.
  ghost predicate AllPrompt(cfg: Config, s: Cal, id: int, own: nat)
    requires cfg.Positive()
  {
    && own <= |Of(s.log, id)|
    && (forall k :: own <= k < |Of(s.log, id)| ==> Prompt(cfg, s.start, Of(s.log, id)[k]))
    && (id in s.pending && !Lost(s, id) ==>
      s.ticks <= s.pending[id].fire <= s.pending[id].timer.ms / cfg.precision + cfg.scale)
  }

  // Catch-up queues later and later due times, all at the same moment.
  lemma {:induction false} ScheduleRises(cfg: Config, elapsed: nat, cursor: int, now: int, t: Timer)
    requires cfg.Positive()
    ensures var r := Schedule(cfg, elapsed, cursor, now, t);
      forall f :: f in r.log ==> f.at == now && f.timer.ms >= t.ms
    decreases t.count
  {
    hide FireTick;
    if t.ms <= cfg.span && t.ms < elapsed && t.Repeat(now) > 0 && t.count > 1 {
      ScheduleRises(cfg, elapsed, cursor, now, t.(count := t.count - 1, ms := t.ms + t.Repeat(now)));
    }
  }

  lemma ConsumedRises(cfg: Config, s: Cal, id: int)
    requires cfg.Positive() && DueNow(s, id)
    ensures var r := Consumed(cfg, s, id);
      forall f :: f in r.log ==> f.at == Now(s) && f.timer.ms >= s.pending[id].timer.ms
  {
    hide Schedule;
    var f := Fire(Now(s), id in s.cancelled, s.pending[id].timer);
    if f.left.Some? {
      ScheduleRises(cfg, s.elapsed, s.ticks, Now(s), f.left.value);
    }
  }

  lemma TicksOf(k: nat, p: nat)
    requires p >= 1
    ensures k * p / p == k
  {
    assert p * k == k * p;
    DivUnique(k * p, p, k);
  }

  // A tick fires a timer that waited for it at most a revolution.
  lemma FiredPrompt(cfg: Config, s: Cal, id: int, f: Firing)
    requires cfg.Positive() && s.elapsed == s.ticks * cfg.precision && DueNow(s, id)
    requires s.pending[id].timer.ms >= 0 && s.ticks <= s.pending[id].timer.ms / cfg.precision + cfg.scale
    requires f.at == Now(s) && f.timer.ms >= s.pending[id].timer.ms
    ensures Prompt(cfg, s.start, f)
  {
    DivMono(s.pending[id].timer.ms, f.timer.ms, cfg.precision);
    TicksOf(s.ticks, cfg.precision);
  }

  lemma TickPrompt(cfg: Config, s: Cal, s': Cal, id: int, own: nat)
    requires cfg.Positive() && WellKept(cfg, s) && TickStep(cfg, s, s') && DueNow(s, id)
    requires AllPrompt(cfg, s, id, own) && s.pending[id].timer.ms >= 0
    ensures AllPrompt(cfg, s', id, own)
  {
    hide Consumed, Prompt, Of;
    var r := Consumed(cfg, s, id);
    ConsumedRises(cfg, s, id);
    ConsumedEntry(cfg, s, id);
    assert Of(s'.log, id) == Of(s.log, id) + r.log;
    forall k | own <= k < |Of(s'.log, id)| ensures Prompt(cfg, s'.start, Of(s'.log, id)[k]) {
      if k >= |Of(s.log, id)| {
        FiredPrompt(cfg, s, id, r.log[k - |Of(s.log, id)|]);
      }
    }
  }

  lemma NextPrompt(cfg: Config, s: Cal, op: Op, s': Cal, t: Timer, own: nat)
    requires cfg.Positive() && WellKept(cfg, s) && Next(cfg, s, op, s')
    requires Tracked(cfg, s, t) && t.id !in s.cancelled && AllPrompt(cfg, s, t.id, own)
    ensures AllPrompt(cfg, s', t.id, own) && s'.start == s.start
  {
    hide Prompt, Of, Accounted;
    match op
    case AddOp(parm, clock, id) => AddOthers(cfg, s, s', parm, clock, id, t.id);
    case CancelOp(_) =>
    case PopOp(_) =>
    case TickOp =>
      if DueNow(s, t.id) {
        TickPrompt(cfg, s, s', t.id, own);
      } else {
        TickOthers(cfg, s, s', t.id);
      }
  }

  // A timer on time has its own firings behind it and its due tick ahead.
  lemma PromptAtStart(cfg: Config, s: Cal, id: int)
    requires cfg.Positive() && WellKept(cfg, s) && OnTime(cfg, s, id)
    ensures AllPrompt(cfg, s, id, |Of(s.log, id)|)
  {
    if id in s.pending {
      DueFrom(s.pending[id].timer.ms, s.ticks, cfg.precision);
    }
  }

  // ---------- lost in a wheel of one round ----------

  // The first tick fires this timer and would have to fire it again. `start` is the wheel clock at that tick.
  predicate DueTwiceAtFirst(cfg: Config, t: Timer, start: int)
    requires cfg.Positive()
  {
    t.count > 1 && t.Repeat(start) > 0 && 0 <= t.ms && t.ms + t.Repeat(start) < cfg.precision
  }

  lemma NotTicked(cfg: Config, s: Cal, op: Op, s': Cal, id: int)
    requires cfg.Positive() && Next(cfg, s, op, s')
    ensures s'.start == s.start && s'.ticks == s.ticks + if op.TickOp? then 1 else 0
    ensures !op.TickOp? ==> CarriesForward(cfg, s, op, id)
  {
  }

  lemma {:induction false} TicksRise(cfg: Config, ss: seq<Cal>, ops: seq<Op>, j: nat, i: nat, id: int)
    requires cfg.Positive() && Run(cfg, ss, ops) && j <= i < |ss|
    ensures ss[j].ticks <= ss[i].ticks && ss[i].start == ss[j].start
    decreases i
  {
    hide Next;
    if j < i {
      TicksRise(cfg, ss, ops, j, i - 1, id);
      assert Next(cfg, ss[i - 1], ops[i - 1], ss[i]);
      NotTicked(cfg, ss[i - 1], ops[i - 1], ss[i], id);
    }
  }

  // Until the first tick an accepted timer is on time.
  lemma {:induction false} BeforeFirstTick(cfg: Config, ss: seq<Cal>, ops: seq<Op>, j: nat, i: nat, id: int)
    requires cfg.Positive() && Run(cfg, ss, ops) && Accepted(cfg, ss, ops, j, i, id) && ss[i].ticks == 0
    ensures OnTime(cfg, ss[i], id)
    decreases i
  {
    hide WellKept, Tracked, CarriesForward, OnTime, Next;
    assert Next(cfg, ss[i - 1], ops[i - 1], ss[i]);
    RunKept(cfg, ss, ops, i - 1);
    if i == j + 1 {
      NextIsAdd(cfg, ss[j], ops[j], ss[i]);
      AddTracked(cfg, ss[j], ss[i], ops[j].parm, ops[j].clock, id);
    } else {
      NotTicked(cfg, ss[i - 1], ops[i - 1], ss[i], id);
      BeforeFirstTick(cfg, ss, ops, j, i - 1, id);
      RunTracked(cfg, ss, ops, j, i - 1, id);
      StepOnTimeIff(cfg, ss[i - 1], ops[i - 1], ss[i], NewTimer(id, ops[j].parm, ops[j].clock));
    }
  }

  lemma {:induction false} FirstDue(t: Timer, log: seq<Firing>)
    requires Chain(t, log) && log != []
    ensures log[0].timer.ms == t.ms
  {
    if |log| > 1 {
      FirstDue(t, log[..|log| - 1]);
    }
  }

  // Before the first tick nothing has been queued, so the timer waits as it was added.
  lemma AsAdded(cfg: Config, s: Cal, t: Timer)
    requires cfg.Positive() && Tracked(cfg, s, t) && OnTime(cfg, s, t.id) && s.ticks == 0 && t.ms >= 0
    ensures t.id in s.pending && s.pending[t.id] == Entry(t, t.ms / cfg.precision)
  {
    var log := Of(s.log, t.id);
    if log != [] {
      FirstDue(t, log);
    }
  }

  lemma {:induction false} ScheduleInSpan(cfg: Config, elapsed: nat, cursor: int, now: int, t: Timer)
    requires cfg.Positive()
    ensures var r := Schedule(cfg, elapsed, cursor, now, t); r.out.Placed? ==> r.out.entry.timer.ms < cfg.span
    decreases t.count
  {
    hide FireTick;
    if t.ms <= cfg.span && t.ms < elapsed && t.Repeat(now) > 0 && t.count > 1 {
      ScheduleInSpan(cfg, elapsed, cursor, now, t.(count := t.count - 1, ms := t.ms + t.Repeat(now)));
    }
  }

  lemma ConsumedInSpan(cfg: Config, s: Cal, id: int)
    requires cfg.Positive() && DueNow(s, id) && Consumed(cfg, s, id).out.Placed?
    ensures Consumed(cfg, s, id).out.entry.timer.ms < cfg.span
  {
    var f := Fire(Now(s), id in s.cancelled, s.pending[id].timer);
    ScheduleInSpan(cfg, s.elapsed, s.ticks, Now(s), f.left.value);
  }

  lemma SpanOfOne(cfg: Config)
    requires cfg.Valid() && cfg.rounds == 1
    ensures cfg.span == cfg.scale * cfg.precision
  {
    assert Pow(cfg.scale, 1) == cfg.scale * Pow(cfg.scale, 0);
  }

  // A tick the cursor has not passed is missed only in slot 0 of the only round.
  lemma NeverRead(cfg: Config, k: nat, d: nat)
    requires cfg.Positive() && d >= k && (cfg.rounds == 1 ==> d < cfg.scale)
    ensures FireTick(cfg, k, d) == -1 <==> cfg.rounds == 1 && k == 0 && d == 0
  {
    if d < cfg.scale {
      ModUnique(d, cfg.scale, 0, d);
    }
  }

  lemma FireTickNone(cfg: Config, k: nat, ms: nat)
    requires cfg.Valid() && ms < cfg.span && ms / cfg.precision >= k
    ensures FireTick(cfg, k, ms / cfg.precision) == -1 <==> cfg.rounds == 1 && k == 0 && ms < cfg.precision
  {
    hide Pow, FireTick;
    DueFrom(ms, 1, cfg.precision);
    if cfg.rounds == 1 {
      SpanOfOne(cfg);
      DueFrom(ms, cfg.scale, cfg.precision);
    }
    NeverRead(cfg, k, ms / cfg.precision);
  }

  // With one round, only the first tick re-inserts a timer where no tick will find it.
  lemma LostBy(cfg: Config, s: Cal, s': Cal, id: int)
    requires cfg.Valid() && WellKept(cfg, s) && TickStep(cfg, s, s') && DueNow(s, id)
    ensures Lost(s', id) <==>
      cfg.rounds == 1 && s.ticks == 0 && Consumed(cfg, s, id).out.Placed? &&
      Consumed(cfg, s, id).out.entry.timer.ms < cfg.precision
  {
    ConsumedEntry(cfg, s, id);
    hide Consumed, Of, FireTick, WellKept;
    if Consumed(cfg, s, id).out.Placed? {
      ConsumedInSpan(cfg, s, id);
      FireTickNone(cfg, s.ticks, Consumed(cfg, s, id).out.entry.timer.ms);
    }
  }

  // What the first tick leaves of a timer due in it.
  lemma FirstConsumed(cfg: Config, s: Cal, t: Timer)
    requires cfg.Positive() && s.ticks == 0 && s.elapsed == 0 && t.id !in s.cancelled && cfg.span >= cfg.precision
    requires 0 <= t.ms < cfg.precision && t.id in s.pending && s.pending[t.id].timer == t
    ensures Consumed(cfg, s, t.id).out.Placed? && Consumed(cfg, s, t.id).out.entry.timer.ms < cfg.precision <==>
      DueTwiceAtFirst(cfg, t, s.start)
  {
  }

  // One tick loses a timer exactly when it is the first and would have to fire the timer again.
  lemma TickLost(cfg: Config, s: Cal, s': Cal, t: Timer)
    requires cfg.Valid() && WellKept(cfg, s) && TickStep(cfg, s, s') && Tracked(cfg, s, t) && t.id !in s.cancelled
    requires t.ms >= 0 && !Lost(s, t.id) && (s.ticks == 0 ==> OnTime(cfg, s, t.id))
    ensures Lost(s', t.id) <==> cfg.rounds == 1 && s.ticks == 0 && DueTwiceAtFirst(cfg, t, s.start)
  {
    hide Consumed, FireTick, Of, Pow;
    if s.ticks == 0 {
      AsAdded(cfg, s, t);
      DueFrom(t.ms, 1, cfg.precision);
      MulLe(cfg.precision, 1, Pow(cfg.scale, cfg.rounds));
    }
    if DueNow(s, t.id) {
      LostBy(cfg, s, s', t.id);
      if s.ticks == 0 {
        FirstConsumed(cfg, s, t);
      }
    } else {
      TickOthers(cfg, s, s', t.id);
    }
  }

  lemma StepLost(cfg: Config, s: Cal, op: Op, s': Cal, id: int)
    requires cfg.Positive() && WellKept(cfg, s) && Next(cfg, s, op, s') && id <= s.lastId
    ensures Lost(s, id) ==> Lost(s', id) && s'.pending[id] == s.pending[id] && Of(s'.log, id) == Of(s.log, id)
    ensures !op.TickOp? ==> (Lost(s', id) <==> Lost(s, id))
  {
    hide Of, FireTick;
    match op
    case AddOp(parm, clock, r) => AddOthers(cfg, s, s', parm, clock, r, id);
    case CancelOp(_) =>
    case PopOp(_) =>
    case TickOp =>
      if Lost(s, id) {
        TickOthers(cfg, s, s', id);
      }
  }

  lemma AddedDue(cfg: Config, ss: seq<Cal>, ops: seq<Op>, j: nat, id: int)
    requires cfg.Positive() && Run(cfg, ss, ops) && j < |ops| && ops[j].AddOp? && ops[j].id == id && id != -1
    ensures NewTimer(id, ops[j].parm, ops[j].clock).ms >= 0
  {
    assert Next(cfg, ss[j], ops[j], ss[j + 1]);
  }

  lemma TrackedId(cfg: Config, s: Cal, t: Timer)
    requires cfg.Positive() && Tracked(cfg, s, t)
    ensures t.id <= s.lastId
  {
  }

  lemma FoundOnTime(cfg: Config, s: Cal, t: Timer)
    requires cfg.Positive() && Tracked(cfg, s, t) && OnTime(cfg, s, t.id)
    ensures !Lost(s, t.id)
  {
    if t.id in s.pending {
      DueFrom(s.pending[t.id].timer.ms, 0, cfg.precision);
    }
  }

  lemma NextIsTick(cfg: Config, s: Cal, op: Op, s': Cal)
    requires cfg.Positive() && Next(cfg, s, op, s') && op.TickOp?
    ensures TickStep(cfg, s, s')
  {
  }

  lemma {:induction false} LostBySteps(cfg: Config, ss: seq<Cal>, ops: seq<Op>, j: nat, i: nat, id: int)
    requires cfg.Valid() && Run(cfg, ss, ops) && Accepted(cfg, ss, ops, j, i, id)
    ensures Lost(ss[i], id) <==>
      && cfg.rounds == 1 && ss[j].ticks == 0 < ss[i].ticks
      && DueTwiceAtFirst(cfg, NewTimer(id, ops[j].parm, ops[j].clock), ss[0].start)
    decreases i
  {
    hide OnTime, Next, WellKept, Tracked, DueTwiceAtFirst;
    var s, op, t := ss[i - 1], ops[i - 1], NewTimer(id, ops[j].parm, ops[j].clock);
    assert Next(cfg, s, op, ss[i]);
    RunKept(cfg, ss, ops, i - 1);
    NotTicked(cfg, s, op, ss[i], id);
    TicksRise(cfg, ss, ops, j, i - 1, id);
    TicksRise(cfg, ss, ops, 0, i - 1, id);
    if i == j + 1 {
      NextIsAdd(cfg, ss[j], ops[j], ss[i]);
      AddTracked(cfg, ss[j], ss[i], ops[j].parm, ops[j].clock, id);
      FoundOnTime(cfg, ss[i], t);
    } else {
      LostBySteps(cfg, ss, ops, j, i - 1, id);
      RunTracked(cfg, ss, ops, j, i - 1, id);
      TrackedId(cfg, s, t);
      StepLost(cfg, s, op, ss[i], id);
      if op.TickOp? && !Lost(s, id) {
        if s.ticks == 0 {
          BeforeFirstTick(cfg, ss, ops, j, i - 1, id);
        }
        AddedDue(cfg, ss, ops, j, id);
        NextIsTick(cfg, s, op, ss[i]);
        TickLost(cfg, s, ss[i], t);
      }
    }
  }

  // An accepted timer is lost at a state if and only if the wheel has one round, the timer was added before the
  // first tick, that tick is over, and it fired the timer with the next firing due within the same tick.
  lemma LostIff(cfg: Config, ss: seq<Cal>, ops: seq<Op>, j: nat, i: nat, id: int)
    requires cfg.Valid() && Run(cfg, ss, ops) && Accepted(cfg, ss, ops, j, i, id)
    ensures var AddOp(parm, clock, _) := ops[j];
      var interval := Asked(parm, ss[0].start);
      Lost(ss[i], id) <==>
        && cfg.rounds == 1 && ss[j].ticks == 0 < ss[i].ticks
        && Counted(parm) > 1 && interval > 0 && parm.ms + clock >= 0 && parm.ms + clock + interval < cfg.precision
  {
    LostBySteps(cfg, ss, ops, j, i, id);
    var t := NewTimer(id, ops[j].parm, ops[j].clock);
    hide Run, Lost;
    assert t.Repeat(ss[0].start) == Asked(ops[j].parm, ss[0].start) && t.count == Counted(ops[j].parm);
  }

  // Once lost, always lost: nothing of it is queued any more.
  lemma {:induction false} LostForever(cfg: Config, ss: seq<Cal>, ops: seq<Op>, a: nat, b: nat, id: int)
    requires cfg.Positive() && Run(cfg, ss, ops) && a <= b < |ss| && Lost(ss[a], id)
    ensures Lost(ss[b], id) && ss[b].pending[id] == ss[a].pending[id] && Of(ss[b].log, id) == Of(ss[a].log, id)
    decreases b
  {
    hide Next, Of;
    if a < b {
      LostForever(cfg, ss, ops, a, b - 1, id);
      RunKept(cfg, ss, ops, b - 1);
      assert Next(cfg, ss[b - 1], ops[b - 1], ss[b]);
      StepLost(cfg, ss[b - 1], ops[b - 1], ss[b], id);
    }
  }

  lemma {:induction false} Within(cfg: Config, ss: seq<Cal>, ops: seq<Op>, j: nat, i: nat, id: int)
    requires cfg.Positive() && Run(cfg, ss, ops) && Accepted(cfg, ss, ops, j, i, id)
    ensures AllPrompt(cfg, ss[i], id, |Of(ss[j + 1].log, id)|)
    decreases i
  {
    hide Prompt, Of, Next, WellKept, Tracked, AllPrompt;
    assert Next(cfg, ss[i - 1], ops[i - 1], ss[i]);
    RunKept(cfg, ss, ops, i - 1);
    if i == j + 1 {
      NextIsAdd(cfg, ss[j], ops[j], ss[i]);
      AddTracked(cfg, ss[j], ss[i], ops[j].parm, ops[j].clock, id);
      RunKept(cfg, ss, ops, i);
      PromptAtStart(cfg, ss[i], id);
    } else {
      Within(cfg, ss, ops, j, i - 1, id);
      RunTracked(cfg, ss, ops, j, i - 1, id);
      NextPrompt(cfg, ss[i - 1], ops[i - 1], ss[i], NewTimer(id, ops[j].parm, ops[j].clock), |Of(ss[j + 1].log, id)|);
    }
  }

  // Every firing of an accepted timer that the add itself did not queue is queued within one revolution of its
  // due tick, and the timer waits no longer than that unless it is lost; a wheel of two rounds or more loses none.
  lemma WithinRevolution(cfg: Config, ss: seq<Cal>, ops: seq<Op>, j: nat, i: nat, id: int)
    requires cfg.Valid() && Run(cfg, ss, ops) && Accepted(cfg, ss, ops, j, i, id)
    ensures AllPrompt(cfg, ss[i], id, |Of(ss[j + 1].log, id)|)
    ensures cfg.rounds >= 2 ==> !Lost(ss[i], id)
  {
    hide AllPrompt, Of, Next, Pow;
    Within(cfg, ss, ops, j, i, id);
    LostIff(cfg, ss, ops, j, i, id);
  }

  lemma AddsAtStart(cfg: Config, t: Timer, parm: Parm)
    requires cfg.Positive() && 0 <= parm.ms < cfg.precision && cfg.span > parm.ms && t == NewTimer(2, parm, 0)
    ensures var s := Start(0);
      AddStep(cfg, s, s.(lastId := 2, pending := map[2 := Entry(t, 0)]), parm, 0, 2)
  {
    DivUnique(parm.ms, cfg.precision, 0);
  }

  lemma OfFirst(f: Firing)
    ensures forall id {:trigger Of([f], id)} :: Of([f], id) == if f.timer.id == id then [f] else []
  {
    forall id ensures Of([f], id) == if f.timer.id == id then [f] else [] {
      OfOnly([f], f.timer.id, id);
    }
  }

  lemma FirstTick(cfg: Config, s: Cal, s': Cal, left: Timer)
    requires cfg == Config(10, 256, 1, 2560) && left.interval.Some? && left.Repeat(0) == 5 && left.count == 2
    requires left.id == 2 && left.ms == 5
    requires s == Start(0).(lastId := 2, pending := map[2 := Entry(left.(count := 3, ms := 0), 0)])
    requires s' == s.(ticks := 1, elapsed := 10, pending := map[2 := Entry(left, -1)], log := [Firing(left.(ms := 0), 0)])
    ensures TickStep(cfg, s, s') && Of(s'.log, 2) == [Firing(left.(ms := 0), 0)]
  {
    assert forall id :: DueNow(s, id) <==> id == 2;
    assert Consumed(cfg, s, 2) == Sched(s'.log, Placed(Entry(left, -1)));
    hide Consumed;
    OfFirst(s'.log[0]);
  }

  lemma OneRoundRun(cfg: Config, parm: Parm, s1: Cal, s2: Cal)
    requires cfg == Config(10, 256, 1, 2560)
    requires parm.ms == 0 && parm.count == 3 && parm.interval.Some? && parm.interval.value(0) == 5
    requires var t := NewTimer(2, parm, 0);
      && s1 == Start(0).(lastId := 2, pending := map[2 := Entry(t, 0)])
      && s2 == s1.(ticks := 1, elapsed := 10, pending := map[2 := Entry(t.(count := 2, ms := 5), -1)],
                   log := [Firing(t.(count := 2), 0)])
    ensures Run(cfg, [Start(0), s1, s2], [AddOp(parm, 0, 2), TickOp]) && |Of(s2.log, 2)| == 1
  {
    hide AddStep, TickStep, Of, Run;
    var t := NewTimer(2, parm, 0);
    AddsAtStart(cfg, t, parm);
    FirstTick(cfg, s1, s2, t.(count := 2, ms := 5));
    RunStart(cfg, 0);
    RunOneMore(cfg, [Start(0)], [], AddOp(parm, 0, 2), s1);
    assert [Start(0)] + [s1] == [Start(0), s1] && [] + [AddOp(parm, 0, 2)] == [AddOp(parm, 0, 2)];
    RunOneMore(cfg, [Start(0), s1], [AddOp(parm, 0, 2)], TickOp, s2);
    assert [Start(0), s1] + [s2] == [Start(0), s1, s2];
    assert [AddOp(parm, 0, 2)] + [TickOp] == [AddOp(parm, 0, 2), TickOp];
  }

  // A timer due at 0 and every 5 ms, in a wheel of one round: the first tick fires it once and loses it.
  lemma OneRoundLoses() returns (cfg: Config, ss: seq<Cal>, ops: seq<Op>)
    ensures cfg == Config(10, 256, 1, 2560) && cfg.Valid() && Run(cfg, ss, ops)
    ensures ops == [AddOp(Parm(0, Some((at: int) => 5), 3, 0), 0, 2), TickOp]
    ensures |ss| == 3 && |Of(ss[2].log, 2)| == 1 && Lost(ss[2], 2)
  {
    hide Of, Run;
    cfg := Config(10, 256, 1, 2560);
    assert Pow(256, 1) == 256 * Pow(256, 0);
    var parm := Parm(0, Some((at: int) => 5), 3, 0);
    var t := NewTimer(2, parm, 0);
    var s1 := Start(0).(lastId := 2, pending := map[2 := Entry(t, 0)]);
    var s2 := s1.(ticks := 1, elapsed := 10, pending := map[2 := Entry(t.(count := 2, ms := 5), -1)],
                  log := [Firing(t.(count := 2), 0)]);
    OneRoundRun(cfg, parm, s1, s2);
    ss, ops := [Start(0), s1, s2], [AddOp(parm, 0, 2), TickOp];
  }
}
