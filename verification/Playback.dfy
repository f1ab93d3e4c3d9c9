// What commands to a timer wheel come to over a whole run: which steps of the calendar each one takes, and
// what the callers of the wheel can count on.

module Playback {
  import opened Calendar
  import opened Common
  import opened Digits

  datatype Command = Add(parm: Parm, clock: int) | Cancel(id: int) | Wake(clock: int) | Fetch

  // What a command answers its caller.
  datatype Answer = Added(id: int) | Done | Fetched(got: Option<Timer>)

  // The whole ticks between the time consumed and the clock.
  function Missed(precision: nat, elapsed: int, clock: int): (n: nat)
    requires precision >= 1
  {
    if clock - elapsed < precision then 0 else (clock - elapsed) / precision
  }

  // The steps one command takes at a state.
  ghost predicate Carried(cfg: Config, s: Cal, command: Command, answer: Answer, ops: seq<Op>)
    requires cfg.Positive()
  {
    match command
    case Add(parm, clock) => answer.Added? && ops == [AddOp(parm, clock, answer.id)]
    case Cancel(id) => answer == Done && ops == [CancelOp(id)]
    case Wake(clock) => answer == Done && ops == seq(Missed(cfg.precision, s.elapsed, clock), _ => TickOp)
    case Fetch => answer.Fetched? && ops == [PopOp(answer.got)]
  }

  // The i-th command takes the steps from `at[i]` to `at[i + 1]`.
  ghost predicate CarriedAt(cfg: Config, ss: seq<Cal>, ops: seq<Op>, commands: seq<Command>, answers: seq<Answer>,
                            at: seq<nat>, i: nat)
    requires cfg.Positive() && i < |commands| == |answers| < |at|
  {
    && at[i] <= at[i + 1] <= |ops| < |ss|
    && Carried(cfg, ss[at[i]], commands[i], answers[i], ops[at[i]..at[i + 1]])
  }

  // A run that carries out the commands in order.
  ghost predicate Plays(cfg: Config, ss: seq<Cal>, ops: seq<Op>, commands: seq<Command>, answers: seq<Answer>,
                        at: seq<nat>)
    requires cfg.Positive()
  {
    && Run(cfg, ss, ops)
    && |answers| == |commands| && |at| == |commands| + 1 && at[0] == 0 && at[|commands|] == |ops|
    && forall i :: 0 <= i < |commands| ==> CarriedAt(cfg, ss, ops, commands, answers, at, i)
  }

  lemma PlaysRun(cfg: Config, ss: seq<Cal>, ops: seq<Op>, commands: seq<Command>, answers: seq<Answer>, at: seq<nat>)
    requires cfg.Positive() && Plays(cfg, ss, ops, commands, answers, at)
    ensures Run(cfg, ss, ops)
  {
  }

  lemma PlaysNothing(cfg: Config, start: int)
    requires cfg.Positive()
    ensures Plays(cfg, [Start(start)], [], [], [], [0])
  {
    RunStart(cfg, start);
  }

  // Carrying out one more command.
  lemma PlaysMore(cfg: Config, ss: seq<Cal>, ops: seq<Op>, commands: seq<Command>, answers: seq<Answer>, at: seq<nat>,
                  command: Command, answer: Answer, ss': seq<Cal>, steps: seq<Op>)
    requires cfg.Positive() && Plays(cfg, ss, ops, commands, answers, at)
    requires |ops| < |ss| && Carried(cfg, ss[|ops|], command, answer, steps)
    requires ss <= ss' && Run(cfg, ss', ops + steps)
    ensures Plays(cfg, ss', ops + steps, commands + [command], answers + [answer], at + [|ops + steps|])
  {
    hide Run, Carried;
    var commands', answers', at', ops' := commands + [command], answers + [answer], at + [|ops + steps|], ops + steps;
    RunLength(cfg, ss', ops');
    forall i | 0 <= i < |commands'| ensures CarriedAt(cfg, ss', ops', commands', answers', at', i) {
      if i < |commands| {
        assert CarriedAt(cfg, ss, ops, commands, answers, at, i);
        assert ops'[at[i]..at[i + 1]] == ops[at[i]..at[i + 1]];
      } else {
        assert ops'[|ops|..|ops'|] == steps;
      }
    }
  }

  // ---------- several missed ticks ----------

  // The same for every single timer: only the order in which timers due together were queued may differ.
  ghost predicate Alike(a: Cal, b: Cal) {
    && b == a.(log := b.log)
    && forall id :: Of(a.log, id) == Of(b.log, id)
  }

  lemma TickAlike(cfg: Config, s: Cal, t: Cal, s': Cal, t': Cal)
    requires cfg.Positive() && Alike(s, t) && TickStep(cfg, s, s') && TickStep(cfg, t, t')
    ensures Alike(s', t')
  {
    hide Consume, Of;
    assert forall id :: DueNow(s, id) ==> Consumed(cfg, s, id) == Consumed(cfg, t, id);
    hide Consumed;
    assert s'.pending == t'.pending;
    forall id ensures Of(s'.log, id) == Of(t'.log, id) {
      assert Of(s.log, id) == Of(t.log, id);
      assert Of(s'.log, id) == Of(s.log, id) + if DueNow(s, id) then Consumed(cfg, s, id).log else [];
    }
  }

  // What the missed ticks do to each timer is fixed.
  lemma {:induction false} TicksAlike(cfg: Config, s: Cal, t: Cal, s': Cal, t': Cal, n: nat)
    requires cfg.Positive() && Alike(s, t) && Ticks(cfg, s, s', n) && Ticks(cfg, t, t', n)
    ensures Alike(s', t')
    decreases n
  {
    hide TickStep, Alike;
    if n > 0 {
      var u :| Ticks(cfg, s, u, n - 1) && TickStep(cfg, u, s');
      var v :| Ticks(cfg, t, v, n - 1) && TickStep(cfg, v, t');
      TicksAlike(cfg, s, t, u, v, n - 1);
      TickAlike(cfg, u, v, s', t');
    }
  }

  lemma {:induction false} TicksElapsed(cfg: Config, s: Cal, s': Cal, n: nat)
    requires cfg.Positive() && Ticks(cfg, s, s', n)
    ensures s'.ticks == s.ticks + n && s'.elapsed == s.elapsed + cfg.precision * n
    decreases n
  {
    hide TickStep;
    if n > 0 {
      var u :| Ticks(cfg, s, u, n - 1) && TickStep(cfg, u, s');
      TicksElapsed(cfg, s, u, n - 1);
      TickClock(cfg, u, s');
      MulAdd(cfg.precision, n - 1, 1);
    }
  }

  // Waking at one clock and then at another misses the ticks the later of the two misses.
  lemma MissedTwice(p: nat, elapsed: int, c1: int, c2: int)
    requires p >= 1
    ensures var n := Missed(p, elapsed, c1);
      n + Missed(p, elapsed + p * n, c2) == Missed(p, elapsed, if c1 <= c2 then c2 else c1)
  {
    var n := Missed(p, elapsed, c1);
    if c1 - elapsed >= p {
      DivBounds(c1 - elapsed, p);
      if c2 - elapsed >= p {
        DivBounds(c2 - elapsed, p);
        var m := (c2 - elapsed) / p;
        if c2 - (elapsed + p * n) >= p {
          DivBounds(c2 - (elapsed + p * n), p);
          var k := (c2 - (elapsed + p * n)) / p;
          MulAdd(p, n, k);
          DivUnique(c2 - elapsed, p, n + k);
        } else if c1 <= c2 {
          DivUnique(c2 - elapsed, p, n);
        }
      }
    }
  }

  // Consuming missed ticks together changes nothing: waking at one clock and then at another leaves what
  // waking once at the later one leaves, for every timer.
  lemma WakeOnce(cfg: Config, s: Cal, a: Cal, b: Cal, once: Cal, c1: int, c2: int)
    requires cfg.Positive()
    requires Ticks(cfg, s, a, Missed(cfg.precision, s.elapsed, c1)) && Ticks(cfg, a, b, Missed(cfg.precision, a.elapsed, c2))
    requires Ticks(cfg, s, once, Missed(cfg.precision, s.elapsed, if c1 <= c2 then c2 else c1))
    ensures Alike(b, once)
  {
    hide Ticks;
    var m := Missed(cfg.precision, s.elapsed, c1);
    var n := Missed(cfg.precision, a.elapsed, c2);
    TicksElapsed(cfg, s, a, m);
    MissedTwice(cfg.precision, s.elapsed, c1, c2);
    PassesJoin(cfg, s, b, m, n);
    assert Ticks(cfg, s, a, m) && Ticks(cfg, a, b, n);
    TicksAlike(cfg, s, s, b, once, m + n);
  }

  // ---------- what is fetched ----------

  // The firings of one timer that pops returned, in order.
  ghost function Popped(ops: seq<Op>, id: int): seq<Timer> {
    if ops == [] then []
    else
      var last := ops[|ops| - 1];
      Popped(ops[..|ops| - 1], id) + if last.PopOp? && last.got.Some? && last.got.value.id == id then [last.got.value] else []
  }

  function Timers(log: seq<Firing>): (ts: seq<Timer>)
    ensures |ts| == |log|
  {
    seq(|log|, k requires 0 <= k < |log| => log[k].timer)
  }

  lemma NextLog(cfg: Config, s: Cal, op: Op, s': Cal)
    requires cfg.Positive() && Next(cfg, s, op, s')
    ensures s.log <= s'.log && s.cancelled <= s'.cancelled && (!op.PopOp? ==> s'.popped == s.popped)
  {
  }

  lemma OfNoneMore(log: seq<Firing>, a: nat, b: nat, id: int)
    requires a <= b <= |log| && forall k :: a <= k < b ==> log[k].timer.id != id
    ensures Of(log[..b], id) == Of(log[..a], id)
  {
    assert log[..b] == log[..a] + log[a..b];
    OfAppend(log[..a], log[a..b], id);
    OfNone(log[a..b], id);
  }

  lemma OfOneMore(log: seq<Firing>, k: nat, id: int)
    requires k < |log|
    ensures Of(log[..k + 1], id) == Of(log[..k], id) + if log[k].timer.id == id then [log[k]] else []
  {
    assert log[..k + 1][..k] == log[..k];
  }

  // Between two queue positions one pop passes over cancelled firings only, but for the one it returns.
  lemma PopSegment(s: Cal, s': Cal, r: Option<Timer>, id: int)
    requires s.popped <= |s.log| && PopStep(s, s', r) && id !in s.cancelled
    ensures Of(s.log[..s'.popped], id) == Of(s.log[..s.popped], id) +
      if r.Some? && r.value.id == id then [s.log[s'.popped - 1]] else []
  {
    hide Of;
    var front := if r.Some? then s'.popped - 1 else s'.popped;
    OfNoneMore(s.log, s.popped, front, id);
    if r.Some? {
      OfOneMore(s.log, front, id);
    }
  }

  lemma PopDelivers(s: Cal, s': Cal, r: Option<Timer>, id: int, got: seq<Timer>)
    requires s.popped <= |s.log| && PopStep(s, s', r) && id !in s.cancelled
    requires got == Timers(Of(s.log[..s.popped], id))
    ensures got + (if r.Some? && r.value.id == id then [r.value] else []) == Timers(Of(s'.log[..s'.popped], id))
  {
    PopSegment(s, s', r, id);
  }

  // Every pop takes the oldest: the firings of an uncancelled timer come out each once, in the order they were
  // queued.
  lemma {:induction false} PopsDeliver(cfg: Config, ss: seq<Cal>, ops: seq<Op>, i: nat, id: int)
    requires cfg.Positive() && Run(cfg, ss, ops) && i < |ss| && id !in ss[i].cancelled
    ensures ss[i].popped <= |ss[i].log| && Popped(ops[..i], id) == Timers(Of(ss[i].log[..ss[i].popped], id))
    decreases i
  {
    RunKept(cfg, ss, ops, i);
    if i > 0 {
      var s, op, s' := ss[i - 1], ops[i - 1], ss[i];
      assert Next(cfg, s, op, s');
      NextLog(cfg, s, op, s');
      PopsDeliver(cfg, ss, ops, i - 1, id);
      assert ops[..i][..i - 1] == ops[..i - 1];
      hide Run, WellKept, Of, AddStep, TickStep;
      if op.PopOp? {
        PopDelivers(s, s', op.got, id, Popped(ops[..i - 1], id));
      } else {
        assert s'.log[..s'.popped] == s.log[..s.popped];
      }
    }
  }

  // ---------- commands ----------

  // The latest clock the wheel was woken at.
  function Latest(commands: seq<Command>): (clock: int)
    ensures clock >= 0
  {
    if commands == [] then 0
    else
      var last, before := commands[|commands| - 1], Latest(commands[..|commands| - 1]);
      if last.Wake? && last.clock > before then last.clock else before
  }

  // The firings of one timer that fetches returned, in order.
  function FetchedOf(answers: seq<Answer>, id: int): seq<Timer> {
    if answers == [] then []
    else
      var last := answers[|answers| - 1];
      FetchedOf(answers[..|answers| - 1], id) +
      if last.Fetched? && last.got.Some? && last.got.value.id == id then [last.got.value] else []
  }

  lemma {:induction false} RunTicks(cfg: Config, ss: seq<Cal>, ops: seq<Op>, a: nat, b: nat)
    requires cfg.Positive() && Run(cfg, ss, ops) && a <= b <= |ops| && forall k :: a <= k < b ==> ops[k] == TickOp
    ensures Ticks(cfg, ss[a], ss[b], b - a)
    decreases b
  {
    hide TickStep;
    if a < b {
      RunTicks(cfg, ss, ops, a, b - 1);
      assert Next(cfg, ss[b - 1], ops[b - 1], ss[b]);
    }
  }

  lemma PlaysOne(cfg: Config, ss: seq<Cal>, ops: seq<Op>, commands: seq<Command>, answers: seq<Answer>, at: seq<nat>, i: nat)
    requires cfg.Positive() && Plays(cfg, ss, ops, commands, answers, at) && i < |commands|
    ensures at[i] <= at[i + 1] <= |ops| < |ss| && Run(cfg, ss, ops)
    ensures Carried(cfg, ss[at[i]], commands[i], answers[i], ops[at[i]..at[i + 1]])
    ensures !commands[i].Wake? ==> at[i + 1] == at[i] + 1 && Next(cfg, ss[at[i]], ops[at[i]..at[i + 1]][0], ss[at[i] + 1])
  {
    assert CarriedAt(cfg, ss, ops, commands, answers, at, i);
    if !commands[i].Wake? {
      assert |ops[at[i]..at[i + 1]]| == 1;
      assert Next(cfg, ss[at[i]], ops[at[i]], ss[at[i] + 1]);
    }
  }

  lemma Woken(cfg: Config, ss: seq<Cal>, ops: seq<Op>, commands: seq<Command>, answers: seq<Answer>, at: seq<nat>, i: nat)
    requires cfg.Positive() && Plays(cfg, ss, ops, commands, answers, at) && i < |commands| && commands[i].Wake?
    ensures at[i] <= at[i + 1] < |ss|
    ensures Ticks(cfg, ss[at[i]], ss[at[i + 1]], Missed(cfg.precision, ss[at[i]].elapsed, commands[i].clock))
  {
    PlaysOne(cfg, ss, ops, commands, answers, at, i);
    var segment := ops[at[i]..at[i + 1]];
    forall k | at[i] <= k < at[i + 1] ensures ops[k] == TickOp {
      assert segment[k - at[i]] == TickOp;
    }
    RunTicks(cfg, ss, ops, at[i], at[i + 1]);
  }

  lemma MissedFrom(p: nat, q: nat, latest: nat, clock: int)
    requires p >= 1 && p * q <= latest < p * q + p
    ensures q + Missed(p, p * q, clock) == (if clock > latest then clock else latest) / p
  {
    DivUnique(latest, p, q);
    if clock - p * q >= p {
      var n := (clock - p * q) / p;
      DivBounds(clock - p * q, p);
      MulAdd(p, q, n);
      DivUnique(clock, p, q + n);
    } else if clock > latest {
      DivUnique(clock, p, q);
    }
  }

  // The whole ticks below the latest clock.
  lemma MissedLatest(p: nat, latest: nat, clock: int)
    requires p >= 1
    ensures p * (latest / p) + p * Missed(p, p * (latest / p), clock) == p * ((if clock > latest then clock else latest) / p)
  {
    hide Missed;
    DivBounds(latest, p);
    var q := latest / p;
    MissedFrom(p, q, latest, clock);
    MulAdd(p, q, Missed(p, p * q, clock));
  }

  // The wheel has consumed the whole ticks below the latest clock it was woken at, no matter how often it was.
  lemma {:induction false} PlayedElapsed(cfg: Config, ss: seq<Cal>, ops: seq<Op>, commands: seq<Command>,
                                         answers: seq<Answer>, at: seq<nat>, m: nat)
    requires cfg.Positive() && Plays(cfg, ss, ops, commands, answers, at) && m <= |commands|
    ensures at[m] < |ss| && ss[at[m]].elapsed == cfg.precision * (Latest(commands[..m]) / cfg.precision)
    decreases m
  {
    if m == 0 {
      DivUnique(0, cfg.precision, 0);
    } else {
      PlayedElapsed(cfg, ss, ops, commands, answers, at, m - 1);
      assert commands[..m][..m - 1] == commands[..m - 1];
      PlaysOne(cfg, ss, ops, commands, answers, at, m - 1);
      if commands[m - 1].Wake? {
        var s := ss[at[m - 1]];
        Woken(cfg, ss, ops, commands, answers, at, m - 1);
        TicksElapsed(cfg, s, ss[at[m]], Missed(cfg.precision, s.elapsed, commands[m - 1].clock));
        MissedLatest(cfg.precision, Latest(commands[..m - 1]), commands[m - 1].clock);
      }
    }
  }

  lemma {:induction false} AtMono(cfg: Config, ss: seq<Cal>, ops: seq<Op>, commands: seq<Command>, answers: seq<Answer>,
                                  at: seq<nat>, i: nat, m: nat)
    requires cfg.Positive() && Plays(cfg, ss, ops, commands, answers, at) && i <= m <= |commands|
    ensures at[i] <= at[m] < |ss|
    decreases m
  {
    if m > 0 {
      PlaysOne(cfg, ss, ops, commands, answers, at, m - 1);
    }
    if i < m {
      AtMono(cfg, ss, ops, commands, answers, at, i, m - 1);
    }
  }

  // Every step belongs to a command.
  lemma {:induction false} CommandOf(cfg: Config, ss: seq<Cal>, ops: seq<Op>, commands: seq<Command>, answers: seq<Answer>,
                                     at: seq<nat>, m: nat, k: nat) returns (c: nat)
    requires cfg.Positive() && Plays(cfg, ss, ops, commands, answers, at) && m <= |commands| && k < at[m]
    ensures c < m && at[c] <= k < at[c + 1] <= |ops|
    decreases m
  {
    PlaysOne(cfg, ss, ops, commands, answers, at, m - 1);
    if k < at[m - 1] {
      c := CommandOf(cfg, ss, ops, commands, answers, at, m - 1, k);
    } else {
      c := m - 1;
    }
  }

  // The wheel accepted the i-th command as timer `id`, and no command between it and the m-th cancels it.
  predicate Took(commands: seq<Command>, answers: seq<Answer>, i: nat, m: nat, id: int) {
    && i < m <= |commands| == |answers| && commands[i].Add? && answers[i] == Added(id) && id != -1
    && forall j :: i < j < m ==> commands[j] != Cancel(id)
  }

  lemma TookIsAccepted(cfg: Config, ss: seq<Cal>, ops: seq<Op>, commands: seq<Command>, answers: seq<Answer>,
                       at: seq<nat>, i: nat, m: nat, id: int)
    requires cfg.Positive() && Plays(cfg, ss, ops, commands, answers, at) && Took(commands, answers, i, m, id)
    ensures Run(cfg, ss, ops) && Accepted(cfg, ss, ops, at[i], at[m], id)
    ensures ops[at[i]] == AddOp(commands[i].parm, commands[i].clock, id)
  {
    hide Run;
    PlaysOne(cfg, ss, ops, commands, answers, at, i);
    AtMono(cfg, ss, ops, commands, answers, at, i + 1, m);
    assert ops[at[i]..at[i + 1]][0] == ops[at[i]];
    forall k | at[i] < k < at[m] ensures ops[k] != CancelOp(id) {
      var c := CommandOf(cfg, ss, ops, commands, answers, at, m, k);
      PlaysOne(cfg, ss, ops, commands, answers, at, c);
      assert ops[at[c]..at[c + 1]][k - at[c]] == ops[k];
      if c <= i {
        AtMono(cfg, ss, ops, commands, answers, at, c + 1, i + 1);
      }
    }
  }

  // An accepted, uncancelled one-shot timer has been queued exactly once when its due time lies in a whole tick
  // below the latest clock the wheel was woken at, and not at all otherwise.
  lemma OneShotPlayed(cfg: Config, ss: seq<Cal>, ops: seq<Op>, commands: seq<Command>, answers: seq<Answer>,
                      at: seq<nat>, i: nat, m: nat, id: int)
    requires cfg.Positive() && Plays(cfg, ss, ops, commands, answers, at) && Took(commands, answers, i, m, id)
    requires commands[i].parm.interval.None?
    ensures at[m] < |ss|
    ensures var due, log := commands[i].parm.ms + commands[i].clock, Of(ss[at[m]].log, id);
      && |log| == (if due < cfg.precision * (Latest(commands[..m]) / cfg.precision) then 1 else 0)
      && forall f :: f in log ==> f.timer.ms == due && f.timer.callback == commands[i].parm.callback
  {
    hide Run, Of, Accepted;
    TookIsAccepted(cfg, ss, ops, commands, answers, at, i, m, id);
    PlayedElapsed(cfg, ss, ops, commands, answers, at, m);
    RunKept(cfg, ss, ops, at[m]);
    OneShotFiresOnce(cfg, ss, ops, at[i], at[m], id);
  }

  lemma {:induction false} NoPops(ops: seq<Op>, a: nat, b: nat, id: int)
    requires a <= b <= |ops| && forall k :: a <= k < b ==> ops[k] == TickOp
    ensures Popped(ops[..b], id) == Popped(ops[..a], id)
    decreases b
  {
    if a < b {
      NoPops(ops, a, b - 1, id);
      assert ops[..b][..b - 1] == ops[..b - 1];
    }
  }

  lemma OnePopped(ops: seq<Op>, a: nat, id: int)
    requires a < |ops|
    ensures Popped(ops[..a + 1], id) == Popped(ops[..a], id) + Popped([ops[a]], id)
  {
    assert ops[..a + 1][..a] == ops[..a];
  }

  lemma CarriedPopped(cfg: Config, s: Cal, command: Command, answer: Answer, ops: seq<Op>, a: nat, b: nat, id: int)
    requires cfg.Positive() && a <= b <= |ops| && Carried(cfg, s, command, answer, ops[a..b])
    ensures Popped(ops[..b], id) == Popped(ops[..a], id) + FetchedOf([answer], id)
  {
    var segment := ops[a..b];
    if command.Wake? {
      forall k | a <= k < b ensures ops[k] == TickOp {
        assert segment[k - a] == TickOp;
      }
      NoPops(ops, a, b, id);
    } else {
      assert ops[a] == segment[0] && b == a + 1;
      OnePopped(ops, a, id);
    }
  }

  lemma FetchedMore(answers: seq<Answer>, m: nat, id: int)
    requires m < |answers|
    ensures FetchedOf(answers[..m + 1], id) == FetchedOf(answers[..m], id) + FetchedOf([answers[m]], id)
  {
    assert answers[..m + 1][..m] == answers[..m];
  }

  lemma {:induction false} PlayedPopped(cfg: Config, ss: seq<Cal>, ops: seq<Op>, commands: seq<Command>,
                                        answers: seq<Answer>, at: seq<nat>, m: nat, id: int)
    requires cfg.Positive() && Plays(cfg, ss, ops, commands, answers, at) && m <= |commands|
    ensures at[m] <= |ops| && Popped(ops[..at[m]], id) == FetchedOf(answers[..m], id)
    decreases m
  {
    if m > 0 {
      PlayedPopped(cfg, ss, ops, commands, answers, at, m - 1, id);
      PlaysOne(cfg, ss, ops, commands, answers, at, m - 1);
      CarriedPopped(cfg, ss[at[m - 1]], commands[m - 1], answers[m - 1], ops, at[m - 1], at[m], id);
      FetchedMore(answers, m - 1, id);
    }
  }

  // What fetches returned of an accepted, uncancelled timer are its firings in order, except those still queued;
  // none is when the last fetch found nothing.
  lemma FetchesDeliver(cfg: Config, ss: seq<Cal>, ops: seq<Op>, commands: seq<Command>, answers: seq<Answer>,
                       at: seq<nat>, i: nat, m: nat, id: int)
    requires cfg.Positive() && Plays(cfg, ss, ops, commands, answers, at) && Took(commands, answers, i, m, id)
    ensures at[m] < |ss| && FetchedOf(answers[..m], id) <= Timers(Of(ss[at[m]].log, id))
    ensures answers[m - 1] == Fetched(None) ==> FetchedOf(answers[..m], id) == Timers(Of(ss[at[m]].log, id))
  {
    hide Run, Of, Accepted;
    TookIsAccepted(cfg, ss, ops, commands, answers, at, i, m, id);
    PlayedPopped(cfg, ss, ops, commands, answers, at, m, id);
    AtMono(cfg, ss, ops, commands, answers, at, m, m);
    RunTracked(cfg, ss, ops, at[i], at[m], id);
    PopsDeliver(cfg, ss, ops, at[m], id);
    var s := ss[at[m]];
    OfAppend(s.log[..s.popped], s.log[s.popped..], id);
    assert s.log == s.log[..s.popped] + s.log[s.popped..];
    if answers[m - 1] == Fetched(None) {
      PlaysOne(cfg, ss, ops, commands, answers, at, m - 1);
      assert s.log[..s.popped] == s.log;
    }
  }

  // All a caller sees: once fetches have emptied the queue, an accepted, uncancelled one-shot timer has come out
  // exactly once, with its own callback, if the wheel was woken late enough, and not at all otherwise.
  lemma OneShotDelivered(cfg: Config, ss: seq<Cal>, ops: seq<Op>, commands: seq<Command>, answers: seq<Answer>,
                         at: seq<nat>, i: nat, m: nat, id: int)
    requires cfg.Positive() && Plays(cfg, ss, ops, commands, answers, at) && Took(commands, answers, i, m, id)
    requires commands[i].parm.interval.None?
    ensures var due, got := commands[i].parm.ms + commands[i].clock, FetchedOf(answers[..m], id);
      && (due >= cfg.precision * (Latest(commands[..m]) / cfg.precision) ==> got == [])
      && |got| <= 1 && (forall t :: t in got ==> t.ms == due && t.callback == commands[i].parm.callback)
      && (due < cfg.precision * (Latest(commands[..m]) / cfg.precision) && answers[m - 1] == Fetched(None) ==> |got| == 1)
  {
    assert m < |at| && m <= |answers|;
    hide Plays, Of, Took, FetchedOf, Latest;
    OneShotPlayed(cfg, ss, ops, commands, answers, at, i, m, id);
    FetchesDeliver(cfg, ss, ops, commands, answers, at, i, m, id);
    var got, log := FetchedOf(answers[..m], id), Of(ss[at[m]].log, id);
    forall t | t in got ensures t in Timers(log) && exists f :: f in log && f.timer == t {
      var k :| 0 <= k < |got| && got[k] == t;
      assert Timers(log)[k] == t && log[k] in log;
    }
  }

  // The due time `k` intervals on.
  function Periodic(due: int, interval: int, k: int): int {
    due + k * interval
  }

  lemma PeriodicStep(due: int, interval: int, k: int)
    ensures Periodic(due, interval, 0) == due && Periodic(due, interval, k) + interval == Periodic(due, interval, k + 1)
  {
    MulAdd(interval, k, 1);
  }

  lemma {:induction false} PeriodicFollows(parm: Parm, clock: int, id: int, interval: int, log: seq<Firing>)
    requires Follows(parm, clock, id, log) && parm.interval.Some? && forall now :: parm.interval.value(now) == interval
    ensures DueAt(parm, clock, log, |log|) == Periodic(parm.ms + clock, interval, |log|)
    ensures forall k {:trigger log[k]} :: 0 <= k < |log| ==>
              log[k].timer.ms == Periodic(parm.ms + clock, interval, k) && log[k].timer.callback == parm.callback
  {
    hide Periodic;
    PeriodicStep(parm.ms + clock, interval, |log| - 1);
    if log != [] {
      var rest := log[..|log| - 1];
      forall k | 0 <= k < |rest| ensures FollowsAt(parm, clock, id, rest, k) {
        FollowsSame(parm, clock, id, log, rest, k);
      }
      PeriodicFollows(parm, clock, id, interval, rest);
      assert FollowsAt(parm, clock, id, log, |rest|);
    }
  }

  lemma PeriodicMono(due: int, interval: nat, k: nat, n: nat)
    requires n <= k
    ensures Periodic(due, interval, n) <= Periodic(due, interval, k)
  {
    MulLe(interval, n, k);
  }

  // All firings due before `end`, at a fixed interval, as far as count and span reach.
  ghost predicate AllPeriodic(ts: seq<Timer>, due: int, interval: int, count: int, end: int, span: int, callback: int) {
    && |ts| <= count
    && (forall k {:trigger ts[k]} :: 0 <= k < |ts| ==> ts[k].ms == Periodic(due, interval, k) < end && ts[k].callback == callback)
    && (forall k: nat {:trigger Periodic(due, interval, k)} ::
          k < count && Periodic(due, interval, k) < end && Periodic(due, interval, k) < span ==> k < |ts|)
  }

  lemma PeriodicAll(log: seq<Firing>, due: int, interval: nat, count: int, end: int, span: int, callback: int)
    requires |log| <= count
    requires forall k {:trigger log[k]} :: 0 <= k < |log| ==>
               log[k].timer.ms == Periodic(due, interval, k) < end && log[k].timer.callback == callback
    requires |log| < count && Periodic(due, interval, |log|) < span ==> Periodic(due, interval, |log|) >= end
    ensures AllPeriodic(Timers(log), due, interval, count, end, span, callback)
  {
    hide Periodic;
    var ts := Timers(log);
    forall k {:trigger ts[k]} | 0 <= k < |ts|
      ensures ts[k].ms == Periodic(due, interval, k) < end && ts[k].callback == callback
    {
      assert ts[k] == log[k].timer;
    }
    forall k: nat {:trigger Periodic(due, interval, k)}
      | k < count && Periodic(due, interval, k) < end && Periodic(due, interval, k) < span
      ensures k < |log|
    {
      if k >= |log| {
        PeriodicMono(due, interval, k, |log|);
      }
    }
  }

  lemma AskedPeriodic(parm: Parm, interval: int)
    requires parm.interval.Some? && forall now :: parm.interval.value(now) == interval
    ensures forall now {:trigger Asked(parm, now)} :: Asked(parm, now) == interval
  {
  }

  // What a fixed interval comes to, from the history of a run.
  lemma PeriodicRun(cfg: Config, ss: seq<Cal>, ops: seq<Op>, j: nat, i: nat, id: int, interval: int)
    requires cfg.Positive() && Run(cfg, ss, ops) && Accepted(cfg, ss, ops, j, i, id)
    requires interval >= cfg.precision && ops[j].parm.interval.Some?
    requires forall now :: ops[j].parm.interval.value(now) == interval
    ensures var AddOp(parm, clock, _) := ops[j];
      AllPeriodic(Timers(Of(ss[i].log, id)), parm.ms + clock, interval, Counted(parm), ss[i].ticks * cfg.precision, cfg.span,
                  parm.callback)
  {
    var AddOp(parm, clock, _) := ops[j];
    RepeatFiresOnTime(cfg, ss, ops, j, i, id);
    hide Run, Accepted, Of, Periodic, DueAt, AllPeriodic, Asked;
    var log, end := Of(ss[i].log, id), ss[i].ticks * cfg.precision;
    PeriodicFollows(parm, clock, id, interval, log);
    hide Follows;
    forall k {:trigger log[k]} | 0 <= k < |log|
      ensures log[k].timer.ms == Periodic(parm.ms + clock, interval, k) < end && log[k].timer.callback == parm.callback
    {
    }
    assert log != [] ==> Asked(parm, log[|log| - 1].at) > 0 by {
      AskedPeriodic(parm, interval);
    }
    PeriodicAll(log, parm.ms + clock, interval, Counted(parm), end, cfg.span, parm.callback);
  }

  // The same for a timer repeating at a fixed interval of at least one precision: it comes out for its due time and
  // every interval after it, in order, as far as its count and the span of the wheel reach; all of that has come out
  // once a fetch finds nothing.
  lemma PeriodicDelivered(cfg: Config, ss: seq<Cal>, ops: seq<Op>, commands: seq<Command>, answers: seq<Answer>,
                          at: seq<nat>, i: nat, m: nat, id: int, interval: int)
    requires cfg.Positive() && Plays(cfg, ss, ops, commands, answers, at) && Took(commands, answers, i, m, id)
    requires interval >= cfg.precision && commands[i].parm.interval.Some?
    requires forall now :: commands[i].parm.interval.value(now) == interval
    ensures var Add(parm, clock) := commands[i];
      var due, count := parm.ms + clock, if parm.count <= 0 then INT_MAX else parm.count;
      var got, end := FetchedOf(answers[..m], id), cfg.precision * (Latest(commands[..m]) / cfg.precision);
      && (exists all :: got <= all && AllPeriodic(all, due, interval, count, end, cfg.span, parm.callback))
      && (answers[m - 1] == Fetched(None) ==> AllPeriodic(got, due, interval, count, end, cfg.span, parm.callback))
  {
    assert m < |at| && m <= |answers|;
    hide Run, Accepted, AllPeriodic, Latest, FetchedOf;
    TookIsAccepted(cfg, ss, ops, commands, answers, at, i, m, id);
    PlayedElapsed(cfg, ss, ops, commands, answers, at, m);
    RunKept(cfg, ss, ops, at[m]);
    PeriodicRun(cfg, ss, ops, at[i], at[m], id, interval);
    FetchesDeliver(cfg, ss, ops, commands, answers, at, i, m, id);
    assert ss[at[m]].elapsed == ss[at[m]].ticks * cfg.precision;
    hide Plays, Of, Took, FetchedOf, Latest, Run, Accepted, AllPeriodic, Timers, WellKept;
    assert FetchedOf(answers[..m], id) <= Timers(Of(ss[at[m]].log, id));
  }
}
