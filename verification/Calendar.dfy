// What the timer wheel promises, without rounds, slots or cursors.
//
// A `Cal` maps every waiting timer id to the tick that will consume it and keeps the whole
// history of queued callbacks.  The wheel of module `TimeWheel` refines these transitions;
// the theorems over whole runs are proved here.

module Calendar {
  import opened Common
  import opened Digits

  // Checked configuration: `scale` slots a round, `rounds` rounds, `precision` ms a tick, and
  // the `span` of time the last round covers.
  datatype Config = Config(precision: nat, scale: nat, rounds: nat, span: nat) {
    predicate Positive() {
      precision >= 1 && scale >= 1 && rounds >= 1
    }

    predicate Valid() {
      Positive() && span == precision * Pow(scale, rounds)
    }
  }

  // A timer: absolute due time, repeat policy, firings left and an opaque callback handle.
  datatype Timer = Timer(id: int, ms: int, interval: Option<int -> int>, count: int, callback: int) {
    // What the repeat policy answers at clock `at`; a timer without one answers 0.
    function Repeat(at: int): int {
      if interval.Some? then interval.value(at) else 0
    }
  }

  // One callback put on the queue, and the wheel clock it was queued at.
  datatype Firing = Firing(timer: Timer, at: int)

  // A waiting timer and the tick that consumes it; -1 when no tick ever will.
  datatype Entry = Entry(timer: Timer, fire: int)

  datatype Outcome = Placed(entry: Entry) | Finished | Rejected

  datatype Sched = Sched(log: seq<Firing>, out: Outcome)

  // The tick that consumes a timer due in tick `d`, linked while the base cursor stands at
  // `cursor`.  The slot under the cursor comes round again only after a full revolution, and
  // a wheel of one round never reads its slot 0 again.
  function FireTick(cfg: Config, cursor: int, d: nat): int
    requires cfg.Positive()
  {
    if d > cursor then d
    else if cfg.rounds == 1 && d % cfg.scale == 0 then -1
    else d + cfg.scale
  }

  // Scheduling one timer once ticks worth `elapsed` ms are consumed.
  function Schedule(cfg: Config, elapsed: nat, cursor: int, now: int, t: Timer): Sched
    requires cfg.Positive()
    decreases t.count
  {
    if t.ms > cfg.span then Sched([], Rejected)
    else if t.ms < elapsed then
      var interval := t.Repeat(now);
      if interval > 0 && t.count - 1 > 0 then
        var rest := Schedule(cfg, elapsed, cursor, now, t.(count := t.count - 1, ms := t.ms + interval));
        Sched([Firing(t, now)] + rest.log, rest.out)
      else
        Sched([Firing(t, now)], Finished)
    else if t.ms >= cfg.span then Sched([], Rejected)
    else
      Sched([], Placed(Entry(t, FireTick(cfg, cursor, t.ms / cfg.precision))))
  }

  // What is queued at once for a consumed timer, and what is left of it to reschedule.
  datatype Fired = Fired(log: seq<Firing>, left: Option<Timer>)

  function Fire(now: int, cancelled: bool, t: Timer): Fired {
    if cancelled then Fired([], None)
    else if t.interval.None? then Fired([Firing(t, now)], None)
    else
      var interval := t.Repeat(now);
      var left := t.(count := t.count - 1);
      if interval <= 0 || left.count <= 0 then Fired([Firing(left, now)], None)
      else Fired([Firing(left, now)], Some(left.(ms := left.ms + interval)))
  }

  lemma FireIds(now: int, cancelled: bool, t: Timer)
    ensures forall k :: 0 <= k < |Fire(now, cancelled, t).log| ==> Fire(now, cancelled, t).log[k].timer.id == t.id
    ensures Fire(now, cancelled, t).left.Some? ==> Fire(now, cancelled, t).left.value.id == t.id
  {
  }

  // What tick number `k`, starting `elapsed` ms in, does with a timer it consumes.
  function Consume(cfg: Config, elapsed: nat, k: nat, now: int, cancelled: bool, t: Timer): Sched
    requires cfg.Positive()
  {
    var f := Fire(now, cancelled, t);
    match f.left
    case None => Sched(f.log, if cancelled then Rejected else Finished)
    case Some(u) => var rest := Schedule(cfg, elapsed, k, now, u); Sched(f.log + rest.log, rest.out)
  }

  // ---------- the calendar ----------

  datatype Cal = Cal(start: int, ticks: nat, elapsed: nat, lastId: int, pending: map<int, Entry>, cancelled: set<int>,
                     log: seq<Firing>, popped: nat)

  datatype Parm = Parm(ms: int, interval: Option<int -> int>, count: int, callback: int)

  // The wheel clock: it advances by one precision a tick.
  function Now(s: Cal): int {
    s.start + s.elapsed
  }

  function Start(start: int): Cal {
    Cal(start, 0, 0, 1, map[], {}, [], 0)
  }

  // The timer `Add` creates when the steady clock reads `clock` ms since the wheel started.
  function NewTimer(id: int, parm: Parm, clock: int): Timer {
    Timer(id, parm.ms + clock, parm.interval, if parm.count <= 0 then INT_MAX else parm.count, parm.callback)
  }

  function Admit(cfg: Config, s: Cal, t: Timer): Sched
    requires cfg.Positive()
  {
    Schedule(cfg, s.elapsed, s.ticks - 1, Now(s), t)
  }

  ghost predicate AddStep(cfg: Config, s: Cal, s': Cal, parm: Parm, clock: int, id: int)
    requires cfg.Positive()
  {
    if parm.ms + clock < 0 then s' == s && id == -1
    else
      var next := s.lastId + 1;
      var r := Admit(cfg, s, NewTimer(next, parm, clock));
      && s' == s.(lastId := next, log := s.log + r.log,
                  pending := if r.out.Placed? then s.pending[next := r.out.entry] else s.pending)
      && id == if r.out.Rejected? then -1 else next
  }

  ghost predicate CancelStep(s: Cal, s': Cal, id: int) {
    s' == if id in s.pending then s.(cancelled := s.cancelled + {id}) else s
  }

  // The firings of one timer, in order.
  ghost function Of(log: seq<Firing>, id: int): seq<Firing> {
    if log == [] then []
    else Of(log[..|log| - 1], id) + if log[|log| - 1].timer.id == id then [log[|log| - 1]] else []
  }

  ghost predicate DueNow(s: Cal, id: int) {
    id in s.pending && s.pending[id].fire == s.ticks
  }

  ghost function Consumed(cfg: Config, s: Cal, id: int): Sched
    requires cfg.Positive() && id in s.pending
  {
    Consume(cfg, s.elapsed, s.ticks, Now(s), id in s.cancelled, s.pending[id].timer)
  }

  // One tick consumes exactly the timers whose fire tick it is.  Timers consumed together may
  // be queued in any order; the firings of each one are fixed.
  ghost predicate TickStep(cfg: Config, s: Cal, s': Cal)
    requires cfg.Positive()
  {
    && s'.start == s.start && s'.ticks == s.ticks + 1 && s'.elapsed == s.elapsed + cfg.precision && s'.lastId == s.lastId
    && s'.cancelled == s.cancelled && s'.popped == s.popped
    && s.log <= s'.log
    && (forall id :: Of(s'.log, id) == Of(s.log, id) + if DueNow(s, id) then Consumed(cfg, s, id).log else [])
    && s'.pending == map id | id in s.pending && (DueNow(s, id) ==> Consumed(cfg, s, id).out.Placed?)
                     :: if DueNow(s, id) then Consumed(cfg, s, id).out.entry else s.pending[id]
  }

  // Taking the oldest queued callback whose timer is not cancelled.
  ghost predicate PopStep(s: Cal, s': Cal, r: Option<Timer>)
    requires s.popped <= |s.log|
  {
    && s' == s.(popped := s'.popped)
    && s.popped <= s'.popped <= |s.log|
    && (forall k :: s.popped <= k < s'.popped - (if r.Some? then 1 else 0) ==> s.log[k].timer.id in s.cancelled)
    && match r
       case None => s'.popped == |s.log|
       case Some(t) => s.popped < s'.popped && s.log[s'.popped - 1].timer == t && t.id !in s.cancelled
  }

  datatype Op = AddOp(parm: Parm, clock: int, id: int) | CancelOp(id: int) | TickOp | PopOp(got: Option<Timer>)

  ghost predicate Next(cfg: Config, s: Cal, op: Op, s': Cal)
    requires cfg.Positive()
  {
    match op
    case AddOp(parm, clock, id) => AddStep(cfg, s, s', parm, clock, id)
    case CancelOp(id) => CancelStep(s, s', id)
    case TickOp => TickStep(cfg, s, s')
    case PopOp(r) => s.popped <= |s.log| && PopStep(s, s', r)
  }

  // A run: any interleaving of adds, cancels, ticks and pops from a fresh wheel.
  ghost predicate Run(cfg: Config, ss: seq<Cal>, ops: seq<Op>)
    requires cfg.Positive()
  {
    && |ss| == |ops| + 1
    && ss[0] == Start(ss[0].start)
    && forall i :: 0 <= i < |ops| ==> Next(cfg, ss[i], ops[i], ss[i + 1])
  }

  // ---------- firings of one timer ----------

  lemma {:induction false} OfAppend(a: seq<Firing>, b: seq<Firing>, id: int)
    ensures Of(a + b, id) == Of(a, id) + Of(b, id)
  {
    if b == [] {
      assert a + b == a;
    } else {
      assert (a + b)[..|a + b| - 1] == a + b[..|b| - 1];
      OfAppend(a, b[..|b| - 1], id);
    }
  }

  lemma {:induction false} OfOnly(log: seq<Firing>, owner: int, id: int)
    requires forall k :: 0 <= k < |log| ==> log[k].timer.id == owner
    ensures Of(log, id) == if owner == id then log else []
  {
    if log != [] {
      OfOnly(log[..|log| - 1], owner, id);
      assert log == log[..|log| - 1] + [log[|log| - 1]];
    }
  }

  // Appending firings of one timer extends that timer's history only.
  lemma OfExtend(log: seq<Firing>, more: seq<Firing>, owner: int)
    requires forall k :: 0 <= k < |more| ==> more[k].timer.id == owner
    ensures forall id {:trigger Of(log + more, id)} :: Of(log + more, id) == Of(log, id) + if id == owner then more else []
  {
    forall id
      ensures Of(log + more, id) == Of(log, id) + if id == owner then more else []
    {
      OfAppend(log, more, id);
      OfOnly(more, owner, id);
    }
  }

  // The due time following the firings `log` of a timer first due at `due`.
  function NextDue(due: int, log: seq<Firing>): int {
    if log == [] then due else log[|log| - 1].timer.ms + log[|log| - 1].timer.Repeat(log[|log| - 1].at)
  }

  // `u` is the same timer as `t` up to its due time and the firings it has left.
  ghost predicate SameTimer(t: Timer, u: Timer) {
    u.id == t.id && u.interval == t.interval && u.callback == t.callback
  }

  // The repeat policy ended the timer with the last of these firings.
  ghost predicate Stopped(log: seq<Firing>) {
    log != [] && log[|log| - 1].timer.Repeat(log[|log| - 1].at) <= 0
  }

  // Each firing carries the previous due time plus the interval returned when it was queued, and the firings that are
  // left, with itself or without.
  ghost predicate Chain(t: Timer, log: seq<Firing>) {
    log == [] ||
    var rest, last := log[..|log| - 1], log[|log| - 1].timer;
    && Chain(t, rest) && !Stopped(rest) && SameTimer(t, last) && last.ms == NextDue(t.ms, rest)
    && t.count - |rest| - 1 <= last.count <= t.count - |rest|
  }

  // `u` is what is left of `t` after the firings `log`.
  ghost predicate Continues(t: Timer, log: seq<Firing>, u: Timer) {
    && Chain(t, log) && !Stopped(log) && SameTimer(t, u)
    && u.ms == NextDue(t.ms, log) && u.count + |log| == t.count && u.count >= 1
  }

  // Where a timer stands after some of its firings: either waiting with the rest of its count,
  // or ended because the count ran out, the policy stopped it, or its next due time left the
  // span.
  ghost predicate Accounted(cfg: Config, t: Timer, log: seq<Firing>, out: Outcome) {
    && Chain(t, log)
    && |log| <= t.count
    && match out
       case Placed(e) => Continues(t, log, e.timer) && 0 <= e.timer.ms < cfg.span
       case Finished => log != [] && (|log| == t.count || Stopped(log))
       case Rejected => |log| < t.count && NextDue(t.ms, log) >= cfg.span
  }

  // Queueing one more firing of `u`, counted or not.
  lemma FireOnce(t: Timer, log: seq<Firing>, u: Timer, fired: Timer, now: int)
    requires Continues(t, log, u) && SameTimer(u, fired) && fired.ms == u.ms && u.count - 1 <= fired.count <= u.count
    ensures var more := log + [Firing(fired, now)];
      && Chain(t, more) && NextDue(t.ms, more) == u.ms + u.Repeat(now)
      && (Stopped(more) <==> u.Repeat(now) <= 0)
      && (u.count > 1 && u.Repeat(now) > 0 ==> Continues(t, more, u.(count := u.count - 1, ms := u.ms + u.Repeat(now))))
  {
  }

  lemma Regroup(a: seq<Firing>, x: Firing, b: seq<Firing>)
    ensures (a + [x]) + b == a + ([x] + b)
  {
  }

  lemma {:induction false} ScheduleAccounted(cfg: Config, elapsed: nat, cursor: int, now: int,
                                             t: Timer, log: seq<Firing>, u: Timer)
    requires cfg.Positive() && Continues(t, log, u)
    ensures var r := Schedule(cfg, elapsed, cursor, now, u); Accounted(cfg, t, log + r.log, r.out)
    decreases u.count
  {
    hide FireTick, Chain, NextDue, Stopped;
    var r := Schedule(cfg, elapsed, cursor, now, u);
    if u.ms <= cfg.span && u.ms < elapsed {
      FireOnce(t, log, u, u, now);
      if u.Repeat(now) > 0 && u.count > 1 {
        var left := u.(count := u.count - 1, ms := u.ms + u.Repeat(now));
        ScheduleAccounted(cfg, elapsed, cursor, now, t, log + [Firing(u, now)], left);
        Regroup(log, Firing(u, now), Schedule(cfg, elapsed, cursor, now, left).log);
      }
    } else {
      assert log + r.log == log;
    }
  }

  // No entry is consumed before the tick it is due in.
  predicate NeverEarly(cfg: Config, e: Entry)
    requires cfg.Positive()
  {
    e.timer.ms >= 0 && (e.fire == -1 || e.fire >= e.timer.ms / cfg.precision)
  }

  // Catch-up queues only timers already due; what is placed is not.
  lemma {:induction false} ScheduleTimes(cfg: Config, elapsed: nat, cursor: int, now: int, t: Timer)
    requires cfg.Positive()
    ensures var r := Schedule(cfg, elapsed, cursor, now, t);
      && (forall k :: 0 <= k < |r.log| ==> r.log[k].timer.ms < elapsed)
      && (r.out.Placed? ==>
        && r.out.entry.timer.ms >= elapsed
        && NeverEarly(cfg, r.out.entry)
        && r.out.entry.fire == FireTick(cfg, cursor, r.out.entry.timer.ms / cfg.precision))
      && (t.ms >= elapsed ==> r.log == [])
    decreases t.count
  {
    var interval := t.Repeat(now);
    if t.ms <= cfg.span && t.ms < elapsed && interval > 0 && t.count > 1 {
      ScheduleTimes(cfg, elapsed, cursor, now, t.(count := t.count - 1, ms := t.ms + interval));
    }
  }

  // ---------- one timer through a run ----------

  // The clock counts whole ticks, what was queued was due, and nothing waiting is early.
  ghost predicate Timely(cfg: Config, s: Cal, id: int)
    requires cfg.Positive()
  {
    && s.elapsed == s.ticks * cfg.precision
    && (forall k :: 0 <= k < |Of(s.log, id)| ==> Of(s.log, id)[k].timer.ms < s.elapsed)
    && (id in s.pending ==> NeverEarly(cfg, s.pending[id]))
  }

  // The history of timer `t` at a state where it is not cancelled.
  ghost predicate Tracked(cfg: Config, s: Cal, t: Timer)
    requires cfg.Positive()
  {
    var log := Of(s.log, t.id);
    && t.id <= s.lastId
    && Timely(cfg, s, t.id)
    && (log == [] ==> t.id in s.pending)
    && if t.id in s.pending
       then Accounted(cfg, t, log, Placed(s.pending[t.id]))
       else Accounted(cfg, t, log, Finished) || Accounted(cfg, t, log, Rejected)
  }

  // A waiting timer is consumed by the tick it is due in, and that tick is still to come.
  ghost predicate OnTime(cfg: Config, s: Cal, id: int)
    requires cfg.Positive()
  {
    id in s.pending ==>
      && s.pending[id].timer.ms >= s.elapsed
      && s.pending[id].fire == s.pending[id].timer.ms / cfg.precision
  }

  // Every positive interval is at least one precision.
  ghost predicate Coarse(cfg: Config, t: Timer) {
    forall at :: t.Repeat(at) <= 0 || t.Repeat(at) >= cfg.precision
  }

  ghost predicate WellKept(cfg: Config, s: Cal) {
    && s.elapsed == s.ticks * cfg.precision
    && (forall id :: id in s.pending ==> id <= s.lastId && s.pending[id].timer.id == id)
    && (forall k :: 0 <= k < |s.log| ==> s.log[k].timer.id <= s.lastId)
    && (forall id :: id in s.cancelled ==> id <= s.lastId)
    && s.popped <= |s.log|
  }

  lemma {:induction false} ScheduleIds(cfg: Config, elapsed: nat, cursor: int, now: int, t: Timer)
    requires cfg.Positive()
    ensures var r := Schedule(cfg, elapsed, cursor, now, t);
      && (forall k :: 0 <= k < |r.log| ==> r.log[k].timer.id == t.id)
      && (r.out.Placed? ==> r.out.entry.timer.id == t.id)
    decreases t.count
  {
    var interval := t.Repeat(now);
    if t.ms <= cfg.span && t.ms < elapsed && interval > 0 && t.count > 1 {
      ScheduleIds(cfg, elapsed, cursor, now, t.(count := t.count - 1, ms := t.ms + interval));
    }
  }

  lemma {:induction false} OfMember(log: seq<Firing>, k: nat)
    requires k < |log|
    ensures log[k] in Of(log, log[k].timer.id)
  {
    if k < |log| - 1 {
      OfMember(log[..|log| - 1], k);
    }
  }

  lemma {:induction false} OfSource(log: seq<Firing>, id: int, f: Firing)
    requires f in Of(log, id)
    ensures f in log && f.timer.id == id
  {
    if log != [] {
      if f in Of(log[..|log| - 1], id) {
        OfSource(log[..|log| - 1], id, f);
      }
    }
  }

  lemma ConsumedIds(cfg: Config, s: Cal, id: int)
    requires cfg.Positive() && id in s.pending && s.pending[id].timer.id == id
    ensures forall k :: 0 <= k < |Consumed(cfg, s, id).log| ==> Consumed(cfg, s, id).log[k].timer.id == id
    ensures Consumed(cfg, s, id).out.Placed? ==> Consumed(cfg, s, id).out.entry.timer.id == id
  {
    var t := s.pending[id].timer;
    var now := Now(s);
    if t.interval.Some? {
      ScheduleIds(cfg, s.elapsed, s.ticks, now, t.(count := t.count - 1, ms := t.ms + t.Repeat(now)));
    }
  }

  lemma TickLogIds(cfg: Config, s: Cal, s': Cal, k: nat)
    requires cfg.Positive() && WellKept(cfg, s) && TickStep(cfg, s, s') && k < |s'.log|
    ensures s'.log[k].timer.id <= s.lastId
  {
    var f := s'.log[k];
    var id := f.timer.id;
    OfMember(s'.log, k);
    if f in Of(s.log, id) {
      OfSource(s.log, id, f);
    } else {
      assert DueNow(s, id);
    }
  }

  lemma TicksGrow(k: nat, p: nat)
    ensures (k + 1) * p == k * p + p
  {
  }

  lemma NextKept(cfg: Config, s: Cal, op: Op, s': Cal)
    requires cfg.Positive() && WellKept(cfg, s) && Next(cfg, s, op, s')
    ensures WellKept(cfg, s')
  {
    match op
    case AddOp(parm, clock, _) =>
      if parm.ms + clock >= 0 {
        ScheduleIds(cfg, s.elapsed, s.ticks - 1, Now(s), NewTimer(s.lastId + 1, parm, clock));
      }
    case CancelOp(_) =>
    case PopOp(_) =>
    case TickOp =>
      TicksGrow(s.ticks, cfg.precision);
      forall id | id in s'.pending
        ensures id <= s'.lastId && s'.pending[id].timer.id == id
      {
        ConsumedIds(cfg, s, id);
      }
      forall k | 0 <= k < |s'.log|
        ensures s'.log[k].timer.id <= s'.lastId
      {
        TickLogIds(cfg, s, s', k);
      }
  }

  // Whole ticks below a due time.
  lemma DueFrom(ms: nat, k: nat, p: nat)
    requires p >= 1
    ensures ms >= k * p <==> ms / p >= k
  {
    DivBounds(ms, p);
    assert p * k == k * p;
    if ms / p < k {
      MulGap(p, ms / p, k);
    } else if ms / p > k {
      MulGap(p, k, ms / p);
    }
  }

  // Consuming a timer, with whatever catch-up follows, continues its chain of firings.
  lemma ConsumeAccounted(cfg: Config, elapsed: nat, k: nat, now: int, t: Timer, log: seq<Firing>, u: Timer)
    requires cfg.Positive() && Continues(t, log, u)
    ensures var r := Consume(cfg, elapsed, k, now, false, u); Accounted(cfg, t, log + r.log, r.out)
  {
    var fired := if u.interval.Some? then u.(count := u.count - 1) else u;
    FireOnce(t, log, u, fired, now);
    if u.Repeat(now) > 0 && u.count > 1 {
      var left := u.(count := u.count - 1, ms := u.ms + u.Repeat(now));
      ScheduleAccounted(cfg, elapsed, k, now, t, log + [Firing(fired, now)], left);
      Regroup(log, Firing(fired, now), Schedule(cfg, elapsed, k, now, left).log);
    }
  }

  lemma TickTimely(cfg: Config, s: Cal, s': Cal, id: int)
    requires cfg.Positive() && TickStep(cfg, s, s')
    requires Timely(cfg, s, id) && id !in s.cancelled && DueNow(s, id)
    ensures Timely(cfg, s', id)
  {
    hide FireTick, Schedule;
    var u := s.pending[id].timer;
    var now := Now(s);
    TicksGrow(s.ticks, cfg.precision);
    DueFrom(u.ms, s.ticks + 1, cfg.precision);
    if u.interval.Some? {
      ScheduleTimes(cfg, s.elapsed, s.ticks, now, u.(count := u.count - 1, ms := u.ms + u.Repeat(now)));
    }
  }

  lemma TickTracked(cfg: Config, s: Cal, s': Cal, t: Timer)
    requires cfg.Positive() && TickStep(cfg, s, s')
    requires Tracked(cfg, s, t) && t.id !in s.cancelled && DueNow(s, t.id)
    ensures Tracked(cfg, s', t)
  {
    TickTimely(cfg, s, s', t.id);
    ConsumeAccounted(cfg, s.elapsed, s.ticks, Now(s), t, Of(s.log, t.id), s.pending[t.id].timer);
  }

  lemma TickOnTime(cfg: Config, s: Cal, s': Cal, t: Timer)
    requires cfg.Positive() && TickStep(cfg, s, s')
    requires Tracked(cfg, s, t) && t.id !in s.cancelled && DueNow(s, t.id)
    requires Coarse(cfg, t) && OnTime(cfg, s, t.id)
    ensures OnTime(cfg, s', t.id)
  {
    var u := s.pending[t.id].timer;
    var now := Now(s);
    if u.interval.Some? && u.Repeat(now) > 0 {
      var next := u.(count := u.count - 1, ms := u.ms + u.Repeat(now));
      ScheduleTimes(cfg, s.elapsed, s.ticks, now, next);
      TicksGrow(s.ticks, cfg.precision);
      DueFrom(next.ms, s.ticks + 1, cfg.precision);
      assert t.Repeat(now) >= cfg.precision;
    }
  }

  // Adding a timer touches no other.
  lemma AddOthers(cfg: Config, s: Cal, s': Cal, parm: Parm, clock: int, r: int, id: int)
    requires cfg.Positive() && AddStep(cfg, s, s', parm, clock, r) && id <= s.lastId
    ensures Of(s'.log, id) == Of(s.log, id)
    ensures id in s'.pending <==> id in s.pending
    ensures id in s.pending ==> s'.pending[id] == s.pending[id]
  {
    if parm.ms + clock >= 0 {
      var u := NewTimer(s.lastId + 1, parm, clock);
      ScheduleIds(cfg, s.elapsed, s.ticks - 1, Now(s), u);
      OfAppend(s.log, Admit(cfg, s, u).log, id);
      OfOnly(Admit(cfg, s, u).log, u.id, id);
    }
  }

  // A tick leaves a timer alone that is not due in it.
  lemma TickOthers(cfg: Config, s: Cal, s': Cal, id: int)
    requires cfg.Positive() && TickStep(cfg, s, s') && !DueNow(s, id)
    ensures Of(s'.log, id) == Of(s.log, id)
    ensures id in s'.pending <==> id in s.pending
    ensures id in s.pending ==> s'.pending[id] == s.pending[id]
    ensures Timely(cfg, s, id) ==> Timely(cfg, s', id)
    ensures OnTime(cfg, s, id) && Timely(cfg, s, id) ==> OnTime(cfg, s', id)
  {
    TicksGrow(s.ticks, cfg.precision);
    if id in s.pending && Timely(cfg, s, id) {
      DueFrom(s.pending[id].timer.ms, s.ticks, cfg.precision);
      DueFrom(s.pending[id].timer.ms, s.ticks + 1, cfg.precision);
    }
  }

  // The invariant of an uncancelled timer survives every step of the calendar.
  lemma NextTracked(cfg: Config, s: Cal, op: Op, s': Cal, t: Timer)
    requires cfg.Positive() && WellKept(cfg, s) && Next(cfg, s, op, s')
    requires Tracked(cfg, s, t) && t.id !in s.cancelled
    ensures Tracked(cfg, s', t)
    ensures Coarse(cfg, t) && OnTime(cfg, s, t.id) ==> OnTime(cfg, s', t.id)
  {
    match op
    case AddOp(parm, clock, id) => AddOthers(cfg, s, s', parm, clock, id, t.id);
    case CancelOp(_) =>
    case PopOp(_) =>
    case TickOp =>
      if DueNow(s, t.id) {
        TickTracked(cfg, s, s', t);
        if Coarse(cfg, t) && OnTime(cfg, s, t.id) {
          TickOnTime(cfg, s, s', t);
        }
      } else {
        TickOthers(cfg, s, s', t.id);
      }
  }

  // Catch-up queues at one moment.
  lemma {:induction false} ScheduleClock(cfg: Config, elapsed: nat, cursor: int, now: int, t: Timer)
    requires cfg.Positive()
    ensures forall f :: f in Schedule(cfg, elapsed, cursor, now, t).log ==> f.at == now
    decreases t.count
  {
    hide FireTick;
    if t.ms <= cfg.span && t.ms < elapsed && t.Repeat(now) > 0 && t.count > 1 {
      ScheduleClock(cfg, elapsed, cursor, now, t.(count := t.count - 1, ms := t.ms + t.Repeat(now)));
    }
  }

  // ---------- theorems over whole runs ----------

  lemma FireOnTime(cfg: Config, cursor: int, d: nat)
    requires cfg.Positive() && d > cursor
    ensures FireTick(cfg, cursor, d) == d
  {
  }

  lemma AdmitOnTime(cfg: Config, s: Cal, t: Timer)
    requires cfg.Positive() && s.elapsed == s.ticks * cfg.precision
    ensures var r := Admit(cfg, s, t);
      && (forall k :: 0 <= k < |r.log| ==> r.log[k].timer.ms < s.elapsed)
      && (r.out.Placed? ==>
        && r.out.entry.timer.ms >= s.elapsed
        && NeverEarly(cfg, r.out.entry)
        && r.out.entry.fire == r.out.entry.timer.ms / cfg.precision)
  {
    ScheduleTimes(cfg, s.elapsed, s.ticks - 1, Now(s), t);
    var r := Admit(cfg, s, t);
    if r.out.Placed? {
      DueFrom(r.out.entry.timer.ms, s.ticks, cfg.precision);
      FireOnTime(cfg, s.ticks - 1, r.out.entry.timer.ms / cfg.precision);
    }
  }

  lemma {:induction false} OfNone(log: seq<Firing>, id: int)
    requires forall k :: 0 <= k < |log| ==> log[k].timer.id != id
    ensures Of(log, id) == []
  {
    if log != [] {
      OfNone(log[..|log| - 1], id);
    }
  }

  // The history of a timer starts with what adding it queued.
  lemma AdmitLog(cfg: Config, s: Cal, s': Cal, parm: Parm, clock: int, id: int)
    requires cfg.Positive() && WellKept(cfg, s) && AddStep(cfg, s, s', parm, clock, id) && id != -1
    ensures id == s.lastId + 1 && Of(s'.log, id) == Admit(cfg, s, NewTimer(id, parm, clock)).log
  {
    var t := NewTimer(id, parm, clock);
    var r := Admit(cfg, s, t);
    OfNone(s.log, id);
    OfAppend(s.log, r.log, id);
    ScheduleIds(cfg, s.elapsed, s.ticks - 1, Now(s), t);
    OfOnly(r.log, id, id);
  }

  lemma ContinuesFromStart(t: Timer)
    ensures t.count >= 1 ==> Continues(t, [], t)
  {
  }

  // An accepted timer is on record, and on time, from the step that added it.
  lemma AddTracked(cfg: Config, s: Cal, s': Cal, parm: Parm, clock: int, id: int)
    requires cfg.Positive() && WellKept(cfg, s) && AddStep(cfg, s, s', parm, clock, id) && id != -1
    ensures id == s.lastId + 1 && id !in s'.cancelled
    ensures Tracked(cfg, s', NewTimer(id, parm, clock)) && OnTime(cfg, s', id)
  {
    var t := NewTimer(id, parm, clock);
    hide Schedule, Of, Chain, NeverEarly;
    AdmitLog(cfg, s, s', parm, clock, id);
    AdmitOnTime(cfg, s, t);
    ContinuesFromStart(t);
    ScheduleAccounted(cfg, s.elapsed, s.ticks - 1, Now(s), t, [], t);
    assert [] + Admit(cfg, s, t).log == Admit(cfg, s, t).log;
  }

  lemma {:induction false} RunKept(cfg: Config, ss: seq<Cal>, ops: seq<Op>, i: nat)
    requires cfg.Positive() && Run(cfg, ss, ops) && i < |ss|
    ensures WellKept(cfg, ss[i])
  {
    if i > 0 {
      RunKept(cfg, ss, ops, i - 1);
      NextKept(cfg, ss[i - 1], ops[i - 1], ss[i]);
    }
  }

  // Step `j` added a timer that was accepted as `id`, and no step before `i` cancels it.
  ghost predicate Accepted(cfg: Config, ss: seq<Cal>, ops: seq<Op>, j: nat, i: nat, id: int)
    requires cfg.Positive() && Run(cfg, ss, ops)
  {
    && j < i < |ss| && ops[j].AddOp? && ops[j].id == id && id != -1
    && forall k :: j < k < i ==> ops[k] != CancelOp(id)
  }

  lemma NextIsAdd(cfg: Config, s: Cal, op: Op, s': Cal)
    requires cfg.Positive() && Next(cfg, s, op, s') && op.AddOp?
    ensures AddStep(cfg, s, s', op.parm, op.clock, op.id)
  {
  }

  lemma NextUncancelled(cfg: Config, s: Cal, op: Op, s': Cal, id: int)
    requires cfg.Positive() && Next(cfg, s, op, s') && op != CancelOp(id) && id !in s.cancelled
    ensures id !in s'.cancelled
  {
  }

  lemma {:induction false} RunTracked(cfg: Config, ss: seq<Cal>, ops: seq<Op>, j: nat, i: nat, id: int)
    requires cfg.Positive() && Run(cfg, ss, ops) && Accepted(cfg, ss, ops, j, i, id)
    ensures var t := NewTimer(id, ops[j].parm, ops[j].clock);
      && Tracked(cfg, ss[i], t) && id !in ss[i].cancelled && t.id == id
      && (Coarse(cfg, t) ==> OnTime(cfg, ss[i], id))
    decreases i
  {
    var t := NewTimer(id, ops[j].parm, ops[j].clock);
    assert ops[i - 1] != CancelOp(id) && ops[j] == AddOp(ops[j].parm, ops[j].clock, id);
    assert Next(cfg, ss[i - 1], ops[i - 1], ss[i]);
    hide Run, Next, WellKept, Tracked, OnTime, Coarse;
    RunKept(cfg, ss, ops, i - 1);
    if i == j + 1 {
      NextIsAdd(cfg, ss[j], ops[j], ss[i]);
      AddTracked(cfg, ss[j], ss[i], ops[j].parm, ops[j].clock, id);
    } else {
      RunTracked(cfg, ss, ops, j, i - 1, id);
      NextTracked(cfg, ss[i - 1], ops[i - 1], ss[i], t);
      NextUncancelled(cfg, ss[i - 1], ops[i - 1], ss[i], id);
    }
  }

  // ---------- several ticks in one pass ----------

  // `n` ticks, one after the other.
  ghost predicate Ticks(cfg: Config, s: Cal, s': Cal, n: nat)
    requires cfg.Positive()
    decreases n
  {
    if n == 0 then s' == s else exists m :: Ticks(cfg, s, m, n - 1) && TickStep(cfg, m, s')
  }

  // A pass over `m + n` missed ticks is two passes over `m` and `n` of them, and the other way
  // round.
  lemma {:induction false} PassesJoin(cfg: Config, s: Cal, s': Cal, m: nat, n: nat)
    requires cfg.Positive()
    ensures Ticks(cfg, s, s', m + n) <==> exists t :: Ticks(cfg, s, t, m) && Ticks(cfg, t, s', n)
    decreases n
  {
    hide TickStep;
    if n == 0 {
      if Ticks(cfg, s, s', m + n) {
        assert Ticks(cfg, s, s', m) && Ticks(cfg, s', s', 0);
      }
    } else {
      if Ticks(cfg, s, s', m + n) {
        var u :| Ticks(cfg, s, u, m + n - 1) && TickStep(cfg, u, s');
        PassesJoin(cfg, s, u, m, n - 1);
        var t :| Ticks(cfg, s, t, m) && Ticks(cfg, t, u, n - 1);
        assert Ticks(cfg, t, s', n);
      }
      if t :| Ticks(cfg, s, t, m) && Ticks(cfg, t, s', n) {
        var u :| Ticks(cfg, t, u, n - 1) && TickStep(cfg, u, s');
        PassesJoin(cfg, s, u, m, n - 1);
        assert Ticks(cfg, s, t, m) && Ticks(cfg, t, u, n - 1);
        assert Ticks(cfg, s, u, m + (n - 1));
      }
    }
  }

  lemma TickClock(cfg: Config, s: Cal, s': Cal)
    requires cfg.Positive() && TickStep(cfg, s, s')
    ensures s'.ticks == s.ticks + 1 && s'.elapsed == s.elapsed + cfg.precision
  {
  }

  lemma RunLength(cfg: Config, ss: seq<Cal>, ops: seq<Op>)
    requires cfg.Positive() && Run(cfg, ss, ops)
    ensures |ss| == |ops| + 1
  {
  }

  lemma RunOneMore(cfg: Config, ss: seq<Cal>, ops: seq<Op>, op: Op, s': Cal)
    requires cfg.Positive() && Run(cfg, ss, ops) && Next(cfg, ss[|ops|], op, s')
    ensures Run(cfg, ss + [s'], ops + [op])
  {
  }

  // A pass continues a run, so what holds over every run holds after it.
  lemma {:induction false} RunThenPass(cfg: Config, ss: seq<Cal>, ops: seq<Op>, s': Cal, n: nat) returns (more: seq<Cal>)
    requires cfg.Positive() && Run(cfg, ss, ops) && Ticks(cfg, ss[|ops|], s', n)
    ensures |more| == n && Run(cfg, ss + more, ops + seq(n, _ => TickOp)) && (ss + more)[|ops| + n] == s'
    decreases n
  {
    hide Run, TickStep;
    RunLength(cfg, ss, ops);
    if n == 0 {
      more := [];
      assert ss + more == ss && ops + seq(n, _ => TickOp) == ops;
    } else {
      var u :| Ticks(cfg, ss[|ops|], u, n - 1) && TickStep(cfg, u, s');
      var before := RunThenPass(cfg, ss, ops, u, n - 1);
      more := before + [s'];
      RunOneMore(cfg, ss + before, ops + seq(n - 1, _ => TickOp), TickOp, s');
      assert (ss + before) + [s'] == ss + more;
      assert (ops + seq(n - 1, _ => TickOp)) + [TickOp] == ops + seq(n, _ => TickOp);
    }
  }

  lemma RunStart(cfg: Config, start: int)
    requires cfg.Positive()
    ensures Run(cfg, [Start(start)], [])
  {
  }

  lemma OnlyOne(t: Timer, log: seq<Firing>)
    requires t.interval.None? && Chain(t, log)
    ensures |log| <= 1
    ensures log != [] ==> log[0].timer.ms == t.ms && log[0].timer.callback == t.callback
    ensures log != [] ==> Stopped(log)
  {
  }

  // Over every interleaving: an accepted, uncancelled one-shot timer has been queued exactly
  // once when its due time lies in the ticks consumed so far, and not at all otherwise.
  lemma OneShotFiresOnce(cfg: Config, ss: seq<Cal>, ops: seq<Op>, j: nat, i: nat, id: int)
    requires cfg.Positive() && Run(cfg, ss, ops) && Accepted(cfg, ss, ops, j, i, id)
    requires ops[j].parm.interval.None?
    ensures var due := ops[j].parm.ms + ops[j].clock;
      var log := Of(ss[i].log, id);
      && |log| == (if due < ss[i].ticks * cfg.precision then 1 else 0)
      && forall f :: f in log ==> f.timer.ms == due && f.timer.callback == ops[j].parm.callback
  {
    RunTracked(cfg, ss, ops, j, i, id);
    var t := NewTimer(id, ops[j].parm, ops[j].clock);
    assert Coarse(cfg, t);
    OnlyOne(t, Of(ss[i].log, id));
  }

  // What the repeat policy asked for answers at the wheel clock `now`; none answers 0.
  function Asked(parm: Parm, now: int): int {
    if parm.interval.Some? then parm.interval.value(now) else 0
  }

  // A count of 0 or below stands for the largest 32-bit integer.
  function Counted(parm: Parm): (count: int)
    ensures count >= 1
    ensures parm.count > 0 ==> count == parm.count
    ensures parm.count <= 0 ==> count == INT_MAX
  {
    if parm.count <= 0 then INT_MAX else parm.count
  }

  // The due time of firing number `k`: the delay asked for, from the clock at that moment; then, from each due time
  // on, the interval the policy answered when that firing was queued.
  ghost function DueAt(parm: Parm, clock: int, log: seq<Firing>, k: nat): (due: int)
    requires k <= |log|
    ensures k == 0 ==> due == parm.ms + clock
    ensures k > 0 ==> due == log[k - 1].timer.ms + Asked(parm, log[k - 1].at)
  {
    if k == 0 then parm.ms + clock else log[k - 1].timer.ms + Asked(parm, log[k - 1].at)
  }

  // Firing number `k` has the due time and the callback asked for, and the policy asked for it.
  ghost predicate FollowsAt(parm: Parm, clock: int, id: int, log: seq<Firing>, k: nat)
    requires k < |log|
  {
    && log[k].timer.ms == DueAt(parm, clock, log, k)
    && log[k].timer.id == id && log[k].timer.callback == parm.callback
    && Counted(parm) - k - 1 <= log[k].timer.count <= Counted(parm) - k
    && (k > 0 ==> Asked(parm, log[k - 1].at) > 0)
  }

  ghost predicate Follows(parm: Parm, clock: int, id: int, log: seq<Firing>) {
    forall k :: 0 <= k < |log| ==> FollowsAt(parm, clock, id, log, k)
  }

  lemma FollowsSame(parm: Parm, clock: int, id: int, rest: seq<Firing>, log: seq<Firing>, k: nat)
    requires k < |rest| && k < |log| && FollowsAt(parm, clock, id, rest, k) && log[k] == rest[k]
    requires k > 0 ==> log[k - 1] == rest[k - 1]
    ensures FollowsAt(parm, clock, id, log, k)
  {
  }

  lemma FollowsMore(parm: Parm, clock: int, id: int, log: seq<Firing>)
    requires log != [] && Follows(parm, clock, id, log[..|log| - 1]) && FollowsAt(parm, clock, id, log, |log| - 1)
    ensures Follows(parm, clock, id, log)
  {
    hide FollowsAt;
    forall k | 0 <= k < |log| ensures FollowsAt(parm, clock, id, log, k) {
      if k < |log| - 1 {
        FollowsSame(parm, clock, id, log[..|log| - 1], log, k);
      }
    }
  }

  lemma FollowsNone(parm: Parm, clock: int, id: int)
    ensures Follows(parm, clock, id, [])
  {
  }

  // A chain of firings, told from what was asked for.
  lemma {:induction false} ChainFollows(parm: Parm, clock: int, id: int, log: seq<Firing>)
    requires Chain(NewTimer(id, parm, clock), log)
    ensures Follows(parm, clock, id, log)
    ensures NextDue(parm.ms + clock, log) == DueAt(parm, clock, log, |log|)
    ensures Stopped(log) <==> log != [] && Asked(parm, log[|log| - 1].at) <= 0
  {
    hide Follows;
    if log != [] {
      var rest := log[..|log| - 1];
      ChainFollows(parm, clock, id, rest);
      FollowsMore(parm, clock, id, log);
    } else {
      FollowsNone(parm, clock, id);
    }
  }

  // What the invariant says of the history.
  lemma TrackedMeans(cfg: Config, s: Cal, t: Timer)
    requires cfg.Positive() && Tracked(cfg, s, t)
    ensures var log := Of(s.log, t.id);
      && Chain(t, log) && |log| <= t.count
      && (forall k {:trigger log[k]} :: 0 <= k < |log| ==> log[k].timer.ms < s.ticks * cfg.precision)
      && (t.id !in s.pending ==> |log| == t.count || Stopped(log) || NextDue(t.ms, log) >= cfg.span)
      && (t.id in s.pending ==> s.pending[t.id].timer.ms == NextDue(t.ms, log))
  {
    hide Of, Chain, Stopped, NextDue;
  }

  // The same, told from what was asked for.
  lemma TrackedFollows(cfg: Config, s: Cal, parm: Parm, clock: int, id: int)
    requires cfg.Positive() && Tracked(cfg, s, NewTimer(id, parm, clock))
    ensures var log := Of(s.log, id);
      && Follows(parm, clock, id, log) && |log| <= Counted(parm)
      && (forall k {:trigger log[k]} :: 0 <= k < |log| ==> log[k].timer.ms < s.ticks * cfg.precision)
      && (id !in s.pending ==>
        || |log| == Counted(parm)
        || (log != [] && Asked(parm, log[|log| - 1].at) <= 0)
        || DueAt(parm, clock, log, |log|) >= cfg.span)
  {
    TrackedMeans(cfg, s, NewTimer(id, parm, clock));
    hide Of, Chain, Stopped, NextDue, Follows, DueAt, Tracked, Asked;
    ChainFollows(parm, clock, id, Of(s.log, id));
  }

  lemma WaitingFollows(cfg: Config, s: Cal, parm: Parm, clock: int, id: int)
    requires cfg.Positive() && Tracked(cfg, s, NewTimer(id, parm, clock)) && OnTime(cfg, s, id) && id in s.pending
    ensures var log := Of(s.log, id); DueAt(parm, clock, log, |log|) >= s.ticks * cfg.precision
  {
    TrackedMeans(cfg, s, NewTimer(id, parm, clock));
    var log := Of(s.log, id);
    ChainFollows(parm, clock, id, log);
    assert s.elapsed == s.ticks * cfg.precision;
    hide Of, Chain, Stopped, NextDue, Follows, DueAt, Tracked;
  }

  lemma CoarseAsked(cfg: Config, parm: Parm, clock: int, id: int)
    requires forall now :: Asked(parm, now) <= 0 || Asked(parm, now) >= cfg.precision
    ensures Coarse(cfg, NewTimer(id, parm, clock))
  {
    var t := NewTimer(id, parm, clock);
    forall now ensures t.Repeat(now) <= 0 || t.Repeat(now) >= cfg.precision {
      assert t.Repeat(now) == Asked(parm, now);
    }
  }

  // Over every interleaving: an accepted, uncancelled repeating timer with intervals of at least
  // one precision has fired at each due time of its chain below the ticks consumed, up to its
  // count; the chain ends early only when the policy answers 0 or the next due time leaves the
  // span.  Firings by tick and by catch-up count alike.
  lemma RepeatFiresOnTime(cfg: Config, ss: seq<Cal>, ops: seq<Op>, j: nat, i: nat, id: int)
    requires cfg.Positive() && Run(cfg, ss, ops) && Accepted(cfg, ss, ops, j, i, id)
    requires forall now :: Asked(ops[j].parm, now) <= 0 || Asked(ops[j].parm, now) >= cfg.precision
    ensures var AddOp(parm, clock, _) := ops[j];
      var log := Of(ss[i].log, id);
      && Follows(parm, clock, id, log) && |log| <= Counted(parm)
      && (forall k :: 0 <= k < |log| ==> log[k].timer.ms < ss[i].ticks * cfg.precision)
      && (|log| < Counted(parm) && (log != [] ==> Asked(parm, log[|log| - 1].at) > 0)
          && DueAt(parm, clock, log, |log|) < cfg.span ==>
        DueAt(parm, clock, log, |log|) >= ss[i].ticks * cfg.precision)
  {
    var AddOp(parm, clock, _) := ops[j];
    RunTracked(cfg, ss, ops, j, i, id);
    CoarseAsked(cfg, parm, clock, id);
    hide Run, Accepted, Of, Follows, DueAt, Tracked, OnTime, Coarse;
    TrackedFollows(cfg, ss[i], parm, clock, id);
    if id in ss[i].pending {
      WaitingFollows(cfg, ss[i], parm, clock, id);
    }
  }

  // With finer intervals the chain of due times and the count still hold; only the moment of a
  // firing may slip.
  lemma RepeatKeepsCount(cfg: Config, ss: seq<Cal>, ops: seq<Op>, j: nat, i: nat, id: int)
    requires cfg.Positive() && Run(cfg, ss, ops) && Accepted(cfg, ss, ops, j, i, id)
    ensures var AddOp(parm, clock, _) := ops[j];
      var log := Of(ss[i].log, id);
      && Follows(parm, clock, id, log) && |log| <= Counted(parm)
      && (forall k :: 0 <= k < |log| ==> log[k].timer.ms < ss[i].ticks * cfg.precision)
      && (id !in ss[i].pending ==>
        || |log| == Counted(parm)
        || (log != [] && Asked(parm, log[|log| - 1].at) <= 0)
        || DueAt(parm, clock, log, |log|) >= cfg.span)
  {
    RunTracked(cfg, ss, ops, j, i, id);
    hide Run, Accepted, Of, Follows, DueAt, Tracked, OnTime, Coarse;
    TrackedFollows(cfg, ss[i], ops[j].parm, ops[j].clock, id);
  }

  // What a step appends to the history of a timer was queued at the wheel clock of that moment.
  ghost predicate Clocked(s: Cal, s': Cal, id: int, clock: int) {
    var log, log' := Of(s.log, id), Of(s'.log, id);
    && |log| <= |log'| && log'[..|log|] == log
    && forall k {:trigger log'[k]} :: |log| <= k < |log'| ==> log'[k].at == clock
  }

  lemma ClockedBy(s: Cal, s': Cal, id: int, more: seq<Firing>, clock: int)
    requires Of(s'.log, id) == Of(s.log, id) + more && forall f :: f in more ==> f.at == clock
    ensures Clocked(s, s', id, clock)
  {
    hide Of;
    forall k | 0 <= k < |more| ensures more[k].at == clock {
      assert more[k] in more;
    }
  }

  lemma AddHistory(cfg: Config, s: Cal, s': Cal, parm: Parm, clock: int, r: int, id: int)
    requires cfg.Positive() && AddStep(cfg, s, s', parm, clock, r) && parm.ms + clock >= 0
    ensures var t := NewTimer(s.lastId + 1, parm, clock);
      Of(s'.log, id) == Of(s.log, id) + if t.id == id then Admit(cfg, s, t).log else []
  {
    hide Of;
    var t := NewTimer(s.lastId + 1, parm, clock);
    var more := Admit(cfg, s, t).log;
    ScheduleIds(cfg, s.elapsed, s.ticks - 1, Now(s), t);
    OfAppend(s.log, more, id);
    OfOnly(more, t.id, id);
  }

  lemma AddClocked(cfg: Config, s: Cal, s': Cal, parm: Parm, clock: int, r: int, id: int)
    requires cfg.Positive() && AddStep(cfg, s, s', parm, clock, r)
    ensures Clocked(s, s', id, s.start + s.elapsed)
  {
    if parm.ms + clock >= 0 {
      var t := NewTimer(s.lastId + 1, parm, clock);
      AddHistory(cfg, s, s', parm, clock, r, id);
      ScheduleClock(cfg, s.elapsed, s.ticks - 1, Now(s), t);
      hide Of, Schedule, AddStep, Clocked;
      ClockedBy(s, s', id, if t.id == id then Admit(cfg, s, t).log else [], s.start + s.elapsed);
    } else {
      hide Of, Clocked;
      assert Of(s.log, id) + [] == Of(s.log, id);
      ClockedBy(s, s', id, [], s.start + s.elapsed);
    }
  }

  lemma TickClocked(cfg: Config, s: Cal, s': Cal, id: int)
    requires cfg.Positive() && TickStep(cfg, s, s')
    ensures Clocked(s, s', id, s.start + s.elapsed)
  {
    hide Of, Schedule;
    if DueNow(s, id) {
      var f := Fire(Now(s), id in s.cancelled, s.pending[id].timer);
      if f.left.Some? {
        ScheduleClock(cfg, s.elapsed, s.ticks, Now(s), f.left.value);
      }
      ClockedBy(s, s', id, Consumed(cfg, s, id).log, s.start + s.elapsed);
    } else {
      ClockedBy(s, s', id, [], s.start + s.elapsed);
    }
  }

  lemma NextClocked(cfg: Config, s: Cal, op: Op, s': Cal, id: int)
    requires cfg.Positive() && Next(cfg, s, op, s')
    ensures Clocked(s, s', id, s.start + s.elapsed) && s'.start == s.start
  {
    hide Of, Clocked, Schedule, Consumed;
    match op
    case AddOp(parm, clock, r) => AddClocked(cfg, s, s', parm, clock, r, id);
    case TickOp => TickClocked(cfg, s, s', id);
    case _ =>
      assert Of(s.log, id) + [] == Of(s.log, id);
      ClockedBy(s, s', id, [], s.start + s.elapsed);
  }

  lemma {:induction false} StartStays(cfg: Config, ss: seq<Cal>, ops: seq<Op>, i: nat)
    requires cfg.Positive() && Run(cfg, ss, ops) && i < |ss|
    ensures ss[i].start == ss[0].start && ss[i].elapsed == ss[i].ticks * cfg.precision
    decreases i
  {
    hide Next;
    RunKept(cfg, ss, ops, i);
    if i > 0 {
      StartStays(cfg, ss, ops, i - 1);
      assert Next(cfg, ss[i - 1], ops[i - 1], ss[i]);
      NextClocked(cfg, ss[i - 1], ops[i - 1], ss[i], 0);
    }
  }

  // The policy is asked at the wheel clock, which shows the start and the ticks consumed before the step: every
  // firing a step queues carries it.
  lemma AskedAt(cfg: Config, ss: seq<Cal>, ops: seq<Op>, i: nat, id: int)
    requires cfg.Positive() && Run(cfg, ss, ops) && i < |ops|
    ensures var log, log' := Of(ss[i].log, id), Of(ss[i + 1].log, id);
      && |log| <= |log'| && log'[..|log|] == log
      && forall k {:trigger log'[k]} :: |log| <= k < |log'| ==> log'[k].at == ss[0].start + ss[i].ticks * cfg.precision
  {
    hide Next, Of;
    StartStays(cfg, ss, ops, i);
    assert Next(cfg, ss[i], ops[i], ss[i + 1]);
    NextClocked(cfg, ss[i], ops[i], ss[i + 1], id);
  }

  // A repeat re-inserted by tick `k` is consumed in its due tick if and only if that tick is
  // still to come: the caller can check this from the due time and the interval.
  lemma RepeatOnTimeIff(cfg: Config, elapsed: nat, k: nat, now: int, t: Timer)
    requires cfg.Positive() && elapsed == k * cfg.precision && t.ms >= elapsed
    requires t.Repeat(now) > 0 && t.count > 1 && t.ms + t.Repeat(now) < cfg.span
    ensures var r := Consume(cfg, elapsed, k, now, false, t);
      && r.out.Placed?
      && (r.out.entry.fire == r.out.entry.timer.ms / cfg.precision <==> (t.ms + t.Repeat(now)) / cfg.precision > k)
  {
    DueFrom(t.ms + t.Repeat(now), k, cfg.precision);
  }

  // An interval below the precision can cost a whole revolution: due again in tick 0, the timer
  // waits for tick 256 in the default configuration.
  lemma FineIntervalIsLate(span: nat)
    requires span > 5
    ensures var cfg := Config(10, 256, 7, span);
      var t := Timer(2, 0, Some((at: int) => 5), 3, 0);
      Consume(cfg, 0, 0, 0, false, t).out.entry.fire == 256 != Consume(cfg, 0, 0, 0, false, t).out.entry.timer.ms / 10
  {
  }

  lemma NextSilent(cfg: Config, s: Cal, op: Op, s': Cal, id: int)
    requires cfg.Positive() && WellKept(cfg, s) && Next(cfg, s, op, s') && id in s.cancelled
    ensures id in s'.cancelled && Of(s'.log, id) == Of(s.log, id)
  {
    match op
    case AddOp(parm, clock, r) => AddOthers(cfg, s, s', parm, clock, r, id);
    case CancelOp(_) =>
    case PopOp(_) =>
    case TickOp =>
  }

  lemma CancelIs(cfg: Config, s: Cal, s': Cal, id: int)
    requires cfg.Positive() && Next(cfg, s, CancelOp(id), s') && id in s.pending
    ensures id in s'.cancelled && s'.log == s.log
  {
  }

  lemma NextPop(cfg: Config, s: Cal, op: Op, s': Cal)
    requires cfg.Positive() && Next(cfg, s, op, s') && op.PopOp? && op.got.Some?
    ensures op.got.value.id !in s.cancelled
  {
  }

  // Cancelling a timer that no longer waits, or never did, changes nothing: what is queued of it still comes out.
  lemma CancelTooLate(cfg: Config, ss: seq<Cal>, ops: seq<Op>, j: nat, id: int)
    requires cfg.Positive() && Run(cfg, ss, ops) && j < |ops| && ops[j] == CancelOp(id) && id !in ss[j].pending
    ensures ss[j + 1] == ss[j]
  {
    assert Next(cfg, ss[j], ops[j], ss[j + 1]);
  }

  // Once a waiting timer is cancelled nothing more of it is queued, and no later pop returns any
  // firing of it, even one queued before.
  lemma {:induction false} CancelSilences(cfg: Config, ss: seq<Cal>, ops: seq<Op>, j: nat, i: nat, id: int)
    requires cfg.Positive() && Run(cfg, ss, ops) && j < i < |ss|
    requires ops[j] == CancelOp(id) && id in ss[j].pending
    ensures id in ss[i].cancelled && Of(ss[i].log, id) == Of(ss[j].log, id)
    ensures i < |ops| && ops[i].PopOp? && ops[i].got.Some? ==> ops[i].got.value.id != id
    decreases i
  {
    hide Next, WellKept, Of;
    RunKept(cfg, ss, ops, i - 1);
    assert Next(cfg, ss[i - 1], ops[i - 1], ss[i]);
    if i > j + 1 {
      CancelSilences(cfg, ss, ops, j, i - 1, id);
      NextSilent(cfg, ss[i - 1], ops[i - 1], ss[i], id);
    } else {
      CancelIs(cfg, ss[j], ss[i], id);
    }
    if i < |ops| && ops[i].PopOp? && ops[i].got.Some? {
      NextPop(cfg, ss[i], ops[i], ss[i + 1]);
    }
  }
}
