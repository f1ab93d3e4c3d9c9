// The timer wheel itself: rounds, registry of cancel flags, callback queue and clock.  Every
// operation is proved to be the corresponding transition of module `Calendar`.

module TimeWheel {
  import opened Digits
  import opened Calendar
  import opened Placement
  import opened WheelRounds
  import opened CallbackQueue
  import opened Common
  import opened Playback

  class Impl {
    const startMs: int
    const rounds: Rounds
    const queue: Queue
    var elapsed: nat
    var current: int
    var timerId: int
    var registry: map<int, Flag>
    ghost var ticks: nat
    ghost var flags: map<int, Flag>

    // ---------- invariant ----------

    ghost function Cfg(): Config {
      rounds.cfg
    }

    // Ids are handed out once, each with its own cancel flag.
    ghost predicate FlagsOk()
      reads this`flags, this`timerId
    {
      forall id {:trigger id in flags} :: id in flags ==> id <= timerId && flags[id].id == id
    }

    ghost predicate RegistryOk()
      reads this`flags, this`registry
    {
      forall id {:trigger id in registry} :: id in registry ==> id in flags && registry[id] == flags[id]
    }

    ghost predicate FlagOk(n: Node)
      reads this`flags
    {
      n.id in flags && n.flag == flags[n.id]
    }

    // Every node carries the flag of its id.
    ghost predicate NodesOk()
      reads this`flags, rounds, queue
    {
      && (forall n {:trigger n in rounds.layout.at} :: n in rounds.layout.at ==> FlagOk(n))
      && (forall n {:trigger n in queue.list} :: n in queue.list ==> FlagOk(n))
    }

    ghost predicate Separate()
      reads rounds, queue
    {
      forall n {:trigger n in queue.list} {:trigger n in rounds.layout.at} :: n in queue.list ==> n !in rounds.layout.at
    }

    ghost predicate ClockOk()
      reads this`elapsed, this`ticks, this`current
    {
      elapsed == ticks * Cfg().precision && current == startMs + elapsed
    }

    // The rounds, with the base cursor at `c` and tick `c` done, and the queue beside them.
    ghost predicate PartsOk(c: int)
      reads rounds, rounds.wheels, rounds.layout.at.Keys, queue, queue.list
    {
      rounds.Ok(c) && rounds.PlacedOk(c, c + 1) && queue.Valid() && Separate()
    }

    // Between two steps of one operation, with the base cursor at `c` and tick `c` done.
    ghost predicate Mid(c: int)
      reads this, rounds, rounds.wheels, rounds.layout.at.Keys, queue, queue.list
    {
      PartsOk(c) && FlagsOk() && RegistryOk() && NodesOk() && ClockOk()
    }

    ghost predicate Valid()
      reads this, rounds, rounds.wheels, rounds.layout.at.Keys, queue, queue.list
    {
      Mid(ticks - 1) && registry.Keys == rounds.Pending().Keys
    }

    ghost predicate IsLoose(n: Node)
      reads this`flags, rounds, rounds.layout.at.Keys, queue
    {
      n !in queue.list && n.id !in rounds.Pending() && FlagOk(n)
    }

    ghost function Cancelled(): set<int>
      reads this`flags, flags.Values
    {
      set id | id in flags && flags[id].removed
    }

    // The calendar this wheel stands for.
    ghost function Abs(): Cal
      reads this, rounds, rounds.layout.at.Keys, flags.Values, queue
    {
      Cal(startMs, ticks, elapsed, timerId, rounds.Pending(), Cancelled(), queue.log, queue.popped)
    }

    lemma ClockAtStart()
      requires ticks == elapsed == 0 && current == startMs
      ensures ClockOk()
    {
    }

    constructor (cfg: Config, bit: nat, startMs: int)
      requires cfg.Valid() && bit <= 30 && cfg.scale == Pow(2, bit)
      ensures Valid() && Cfg() == cfg && Abs() == Start(startMs)
      ensures fresh(rounds) && fresh(rounds.wheels) && fresh(queue) && Nodes() == {} && flags == map[]
    {
      var r := new Rounds(cfg, bit);
      var q := new Queue();
      assert r.Ok(-1) && r.PlacedOk(-1, 0) && r.Pending() == map[];
      hide Rounds.Ok, Rounds.PlacedOk, Queue.Valid;
      rounds, queue := r, q;
      this.startMs, elapsed, current, timerId, registry := startMs, 0, startMs, 1, map[];
      ticks, flags := 0, map[];
      new;
      hide Rounds.Pending;
      ClockAtStart();
      assert PartsOk(-1);
      assert FlagsOk();
      assert RegistryOk();
      assert NodesOk();
      assert rounds.Pending().Keys == registry.Keys;
    }

    // The nodes in use: waiting, or queued.
    ghost function Nodes(): set<Node>
      reads rounds, queue
    {
      rounds.layout.at.Keys + (set n | n in queue.list)
    }

    lemma MidKnown(c: int)
      requires Mid(c)
      ensures Cfg().Positive()
    {
    }

    lemma RoundsKnown()
      requires Valid()
      ensures Cfg().Positive() && ClockOk()
    {
    }

    lemma PoppedKnown()
      requires Valid()
      ensures Abs().popped <= |Abs().log|
    {
    }

    // What the invariant of the rounds says to the rest of the wheel.
    lemma RoundsOk(c: int)
      requires rounds.Ok(c)
      ensures Cfg().Valid() && c >= -1
      ensures forall n {:trigger n in rounds.layout.at} :: n in rounds.layout.at ==> n.id in rounds.Pending()
    {
    }

    lemma PendingKnown(c: int)
      requires Mid(c)
      ensures Cfg().Valid() && c >= -1
      ensures forall n {:trigger n in rounds.layout.at} :: n in rounds.layout.at ==> n.id in rounds.Pending()
    {
      hide Rounds.Pending;
      RoundsOk(c);
    }

    // ---------- one node ----------

    // Forgets the id of a timer.
    method Remove(n: Node, ghost c: int)
      requires Mid(c)
      modifies this`registry
      ensures Mid(c) && registry == old(registry) - {n.id} && rounds.Pending() == old(rounds.Pending())
    {
      hide PartsOk, Rounds.Pending;
      registry := registry - {n.id};
      assert forall m {:trigger m in rounds.layout.at} :: m in rounds.layout.at ==> unchanged(m);
    }

    // Queues the final firing of a timer and forgets its id.
    method FinishNode(n: Node, ghost c: int)
      requires Mid(c) && IsLoose(n) && n.next == null
      modifies this`registry, queue, queue.list
      ensures Mid(c) && rounds.Pending() == old(rounds.Pending())
      ensures registry == old(registry) - {n.id} && queue.list == old(queue.list) + [n]
      ensures queue.log == old(queue.log) + [Firing(n.Value(), current)] && queue.popped == old(queue.popped)
    {
      hide Rounds.Ok, Rounds.PlacedOk, Queue.Valid, Rounds.Pending;
      RoundsOk(c);
      registry := registry - {n.id};
      queue.Append(n, current);
      assert n !in rounds.layout.at;
    }

    // Queues a copy of a node that will fire again.
    method FireCopy(n: Node, ghost c: int)
      requires Mid(c) && IsLoose(n)
      modifies queue, queue.list
      ensures Mid(c) && IsLoose(n) && rounds.Pending() == old(rounds.Pending())
      ensures fresh(set m | m in queue.list && m !in old(queue.list))
      ensures queue.log == old(queue.log) + [Firing(n.Value(), current)] && queue.popped == old(queue.popped)
    {
      hide Rounds.Ok, Rounds.PlacedOk, Queue.Valid, Rounds.Pending;
      RoundsOk(c);
      var copy := new Node.Copy(n);
      queue.Append(copy, current);
      assert copy !in rounds.layout.at;
    }

    // Links a node that is in neither the rounds nor the queue.
    method Place(n: Node, ghost c: int) returns (ok: bool)
      requires PartsOk(c) && n !in queue.list && n.id !in rounds.Pending()
      requires Cfg().Positive() && n.ms >= 0 && n.ms / Cfg().precision >= Base(c)
      modifies rounds, (set v | v in rounds.wheels)`slots, n`next, n`fire
      ensures PartsOk(c) && ok == (n.ms < Cfg().span)
      ensures rounds.Pending() ==
        if ok then old(rounds.Pending())[n.id := Entry(n.Value(), rounds.FireAt(c, n.ms))] else old(rounds.Pending())
      ensures rounds.layout.at.Keys == old(rounds.layout.at.Keys) + if ok then {n} else {}
    {
      hide Rounds.Ok, Rounds.PlacedOk, Queue.Valid, FireTick, Rounds.FireAt, Rounds.Pending;
      RoundsOk(c);
      n.fire := rounds.FireAt(c, n.ms);
      ok := rounds.Insert(n, c);
    }

    // Registers the id of a timer.
    method Enroll(n: Node, ghost c: int)
      requires Mid(c) && FlagOk(n)
      modifies this`registry
      ensures Mid(c) && registry == old(registry)[n.id := n.flag] && rounds.Pending() == old(rounds.Pending())
    {
      hide PartsOk, Rounds.Pending;
      registry := registry[n.id := n.flag];
      assert forall m {:trigger m in rounds.layout.at} :: m in rounds.layout.at ==> unchanged(m);
    }

    // `n` has joined the waiting timers `was`, as `e`.
    ghost predicate Linked(n: Node, e: Entry, was: map<int, Flag>, pending: map<int, Entry>)
      reads this, rounds, rounds.layout.at.Keys
    {
      && registry == was[n.id := n.flag]
      && rounds.Pending() == pending[n.id := e]
    }

    // Links a node due from now on and registers its id, unless its due time is outside the span.
    method LinkNode(n: Node, ghost c: int) returns (ok: bool)
      requires Mid(c) && IsLoose(n) && c <= ticks && n.ms >= elapsed
      modifies this`registry, rounds, (set v | v in rounds.wheels)`slots, n`next, n`fire
      ensures Mid(c) && ok == (n.ms < Cfg().span)
      ensures if ok
              then Linked(n, Entry(n.Value(), rounds.FireAt(c, n.ms)), old(registry), old(rounds.Pending()))
              else registry == old(registry) && rounds.Pending() == old(rounds.Pending())
      ensures rounds.layout.at.Keys <= old(rounds.layout.at.Keys) + {n}
    {
      hide PartsOk, FireTick, Rounds.FireAt, Rounds.Pending;
      PendingKnown(c);
      DueFrom(n.ms, ticks, rounds.cfg.precision);
      ok := Place(n, c);
      if ok {
        Enroll(n, c);
      }
    }

    // ---------- scheduling ----------

    // The state a node leaves behind once it is scheduled with outcome `out`.
    ghost predicate Settled(n: Node, out: Outcome, was: map<int, Flag>, pending: map<int, Entry>)
      reads this, rounds, rounds.layout.at.Keys
    {
      if out.Placed? then Linked(n, out.entry, was, pending)
      else registry == was - {n.id} && rounds.Pending() == pending
    }

    ghost function Scheduled(c: int, t: Timer): Sched
      reads this`elapsed, this`current
    {
      if Cfg().Positive() then Schedule(Cfg(), elapsed, c, current, t) else Sched([], Rejected)
    }

    // A loose node may be worked on.
    lemma Detached(n: Node, c: int)
      requires Mid(c) && IsLoose(n)
      ensures Cfg().Valid() && n !in queue.list && n !in rounds.layout.at && n.id !in rounds.Pending()
    {
    }

    // Queues a copy of an overdue node and puts the node off by one interval.
    method PutOff(n: Node, interval: int, ghost c: int)
      requires Mid(c) && IsLoose(n)
      modifies queue, queue.list, n
      ensures Mid(c) && IsLoose(n) && rounds.Pending() == old(rounds.Pending())
      ensures n.Value() == old(n.Value()).(count := old(n.count) - 1, ms := old(n.ms) + interval)
      ensures queue.log == old(queue.log) + [Firing(old(n.Value()), current)] && queue.popped == old(queue.popped)
      ensures fresh(set m | m in queue.list && m !in old(queue.list))
    {
      hide PartsOk, Rounds.Pending;
      Detached(n, c);
      FireCopy(n, c);
      Detached(n, c);
      n.count := n.count - 1;
      n.ms := n.ms + interval;
    }

    // Schedules one node: queues every firing already due, then links what is left of it.
    method ScheduleNode(n: Node, ghost c: int) returns (ok: bool)
      requires Mid(c) && IsLoose(n) && c <= ticks
      modifies this`registry, rounds, (set v | v in rounds.wheels)`slots, queue, queue.list, n
      ensures Mid(c)
      ensures var r := Scheduled(c, old(n.Value()));
        && ok == !r.out.Rejected?
        && queue.log == old(queue.log) + r.log && queue.popped == old(queue.popped)
        && Settled(n, r.out, old(registry), old(rounds.Pending()))
      ensures forall k {:trigger queue.list[k]} :: 0 <= k < |queue.list| ==>
        queue.list[k] == n || queue.list[k] in old(queue.list) || fresh(queue.list[k])
      ensures rounds.layout.at.Keys <= old(rounds.layout.at.Keys) + {n}
      decreases n.count
    {
      hide Rounds.Ok, Rounds.PlacedOk, Queue.Valid, FireTick, Rounds.Pending, Linked, Mid, IsLoose;
      Detached(n, c);
      n.next := null;
      if n.ms > rounds.cfg.span {
        Remove(n, c);
        return false;
      }
      if n.ms < elapsed {
        var interval := if n.interval.Some? then n.interval.value(current) else 0;
        if interval > 0 && n.count - 1 > 0 {
          PutOff(n, interval, c);
          ok := ScheduleNode(n, c);
        } else {
          FinishNode(n, c);
          ok := true;
        }
        return;
      }
      ok := LinkNode(n, c);
      if !ok {
        Remove(n, c);
      }
    }

    // ---------- operations ----------

    // The node of a new timer.
    method MakeNode(parm: Parm, clock: int) returns (n: Node)
      requires Valid()
      ensures Valid() && Abs() == old(Abs()) && Nodes() == old(Nodes()) && n !in Nodes()
      ensures fresh(n) && n.Value() == NewTimer(timerId + 1, parm, clock)
      ensures fresh(n.flag) && n.flag.id == n.id && !n.flag.removed
    {
      hide Valid, Abs;
      var flag := new Flag(timerId + 1);
      n := new Node(timerId + 1, flag, parm.ms + clock, parm.interval, if parm.count <= 0 then INT_MAX else parm.count,
                    parm.callback);
      assert forall m {:trigger m in rounds.layout.at} :: m in rounds.layout.at ==> unchanged(m);
    }

    // The next id is new to all records.
    lemma NextIsNew()
      requires Valid()
      ensures timerId + 1 !in flags && timerId + 1 !in registry && timerId + 1 !in rounds.Pending()
    {
      hide PartsOk, NodesOk, Rounds.Pending;
    }

    // Hands out the next id and registers its cancel flag.
    method NextId(flag: Flag)
      requires Valid() && flag.id == timerId + 1
      modifies this`timerId, this`flags, this`registry
      ensures Mid(ticks - 1) && timerId == flag.id && rounds.Pending() == old(rounds.Pending())
      ensures registry == old(registry)[timerId := flag] && flags == old(flags)[timerId := flag]
    {
      hide PartsOk, Rounds.Pending;
      NextIsNew();
      timerId := timerId + 1;
      flags, registry := flags[timerId := flag], registry[timerId := flag];
      assert forall m {:trigger m in rounds.layout.at} :: m in rounds.layout.at ==> unchanged(m);
      assert PartsOk(ticks - 1) && rounds.Pending() == old(rounds.Pending());
      forall m | m in rounds.layout.at || m in queue.list
        ensures FlagOk(m)
      {
        assert old(FlagOk(m));
      }
    }

    // The next id goes to a node outside the wheel.
    method Register(n: Node)
      requires Valid() && n.id == timerId + 1 && n.flag.id == n.id && !n.flag.removed && n !in Nodes()
      modifies this`timerId, this`flags, this`registry
      ensures Mid(ticks - 1) && IsLoose(n)
      ensures timerId == n.id && timerId !in old(registry) && registry == old(registry)[timerId := n.flag]
      ensures flags == old(flags)[timerId := n.flag] && Cancelled() == old(Cancelled())
      ensures rounds.Pending() == old(rounds.Pending())
    {
      hide Valid, Mid, Rounds.Pending;
      NextIsNew();
      NextId(n.flag);
    }

    // Schedules a newly registered node, and forgets its id again when that fails.
    method Enlist(n: Node) returns (ok: bool)
      requires Mid(ticks - 1) && IsLoose(n) && registry.Keys == rounds.Pending().Keys + {n.id}
      modifies this`registry, rounds, (set v | v in rounds.wheels)`slots, queue, queue.list, n
      ensures Valid() && Cancelled() == old(Cancelled())
      ensures var r := Scheduled(ticks - 1, old(n.Value()));
        && ok == !r.out.Rejected?
        && queue.log == old(queue.log) + r.log && queue.popped == old(queue.popped)
        && rounds.Pending() == (if r.out.Placed? then old(rounds.Pending())[n.id := r.out.entry] else old(rounds.Pending()))
      ensures forall m {:trigger m in Nodes()} :: m in Nodes() ==> m in old(Nodes()) || m == n || fresh(m)
    {
      hide Mid, Schedule, Rounds.Pending, Scheduled, Cancelled, IsLoose;
      Detached(n, ticks - 1);
      ok := ScheduleNode(n, ticks - 1);
      if !ok {
        Remove(n, ticks - 1);
      }
    }

    // Adds a timer; -1 when it cannot be scheduled.
    method AddTimer(parm: Parm, clock: int) returns (id: int)
      requires Valid()
      modifies this, rounds, (set v | v in rounds.wheels)`slots, queue, queue.list
      ensures Valid()
      ensures AddStep(Cfg(), old(Abs()), Abs(), parm, clock, id)
      ensures fresh(Nodes() - old(Nodes())) && fresh(flags.Values - old(flags.Values))
    {
      hide Rounds.Ok, Rounds.PlacedOk, Queue.Valid, Schedule, Rounds.Pending, Mid, Cancelled, Nodes;
      RoundsKnown();
      if parm.ms + clock < 0 {
        return -1;
      }
      ghost var s, was := Abs(), Nodes();
      var n := MakeNode(parm, clock);
      Register(n);
      ghost var t := n.Value();
      assert Scheduled(ticks - 1, t) == Admit(Cfg(), s, t);
      hide Scheduled, Admit;
      var ok := Enlist(n);
      id := if ok then timerId else -1;
      assert Abs() == s.(lastId := timerId, log := queue.log, pending := rounds.Pending());
    }

    // Marks the cancel flag of a registered timer; its nodes are dropped later, where they are met.
    method RemoveTimer(id: int)
      requires Valid()
      modifies flags.Values
      ensures Valid() && CancelStep(old(Abs()), Abs(), id)
    {
      hide Rounds.Ok, Rounds.PlacedOk, Queue.Valid, Rounds.Pending;
      if id !in registry {
        return;
      }
      assert forall k {:trigger flags[k]} :: k in flags ==> (flags[k] == registry[id] <==> k == id);
      registry[id].removed := true;
      assert forall m {:trigger m in rounds.layout.at} :: m in rounds.layout.at ==> unchanged(m);
      assert Cancelled() == old(Cancelled()) + {id};
    }

    // Unlinks the oldest queued node, whatever state the rounds are in.
    method Unqueue(ghost c: int) returns (node: Node?)
      requires PartsOk(c)
      modifies queue, queue.list
      ensures PartsOk(c) && rounds.Pending() == old(rounds.Pending()) && queue.log == old(queue.log)
      ensures if old(queue.list) == [] then node == null && queue.list == [] && queue.popped == old(queue.popped)
              else node == old(queue.list[0]) && queue.list == old(queue.list)[1..]
      ensures node == null ==> queue.popped == |queue.log|
      ensures node != null ==>
        queue.popped == old(queue.popped) + 1 <= |queue.log| && node.Value() == queue.log[queue.popped - 1].timer
    {
      hide Rounds.Ok, Rounds.PlacedOk, Rounds.Pending, Queue.Valid;
      queue.Counts();
      node := queue.Take();
      queue.Counts();
      assert forall m {:trigger m in rounds.layout.at} :: m in rounds.layout.at ==> unchanged(m);
      assert forall m {:trigger m in queue.list} :: m in queue.list ==> m in old(queue.list);
    }

    method TakeNode() returns (node: Node?)
      requires Valid()
      modifies queue, queue.list
      ensures Valid() && Abs() == old(Abs()).(popped := queue.popped)
      ensures if old(queue.list) == [] then node == null && queue.list == [] && queue.popped == old(queue.popped)
              else node == old(queue.list[0]) && queue.list == old(queue.list)[1..] && FlagOk(node)
      ensures node == null ==> queue.popped == |queue.log|
      ensures node != null ==>
        queue.popped == old(queue.popped) + 1 <= |queue.log| && node.Value() == queue.log[queue.popped - 1].timer
      ensures Nodes() <= old(Nodes())
    {
      hide PartsOk, Rounds.Pending, Cancelled;
      assert queue.list != [] ==> queue.list[0] in queue.list && FlagOk(queue.list[0]);
      node := Unqueue(ticks - 1);
      assert forall m {:trigger m in queue.list} :: m in queue.list ==> m in old(queue.list);
    }

    // Pops the oldest queued firing whose timer is not cancelled.
    method PopNode() returns (r: Option<Timer>)
      requires Valid()
      modifies queue, queue.list
      ensures Valid() && PopStep(old(Abs()), Abs(), r)
      ensures Nodes() <= old(Nodes())
    {
      hide Mid, Rounds.Pending, Nodes;
      while true
        invariant Valid() && Abs() == old(Abs()).(popped := queue.popped) && Nodes() <= old(Nodes())
        invariant old(queue.popped) <= queue.popped <= old(queue.popped) + |old(queue.list)|
        invariant queue.list == old(queue.list)[queue.popped - old(queue.popped)..]
        invariant forall k :: old(queue.popped) <= k < queue.popped ==> k < |queue.log| && queue.log[k].timer.id in Cancelled()
        decreases |queue.list|
      {
        var node := TakeNode();
        if node == null {
          return None;
        }
        if !node.flag.removed {
          return Some(node.Value());
        }
      }
    }

    // ---------- one tick ----------

    // Queues a copy of a node and keeps the node, due later, linked in front of `rest`.
    method Refire(n: Node, rest: Node?, interval: int, ghost c: int)
      requires Mid(c) && IsLoose(n)
      modifies queue, queue.list, n
      ensures Mid(c) && IsLoose(n) && rounds.Pending() == old(rounds.Pending())
      ensures n.Value() == old(n.Value()).(ms := old(n.ms) + interval) && n.next == rest
      ensures queue.log == old(queue.log) + [Firing(old(n.Value()), current)] && queue.popped == old(queue.popped)
      ensures fresh(set m | m in queue.list && m !in old(queue.list))
    {
      hide PartsOk, Rounds.Pending;
      Detached(n, c);
      FireCopy(n, c);
      Detached(n, c);
      n.ms := n.ms + interval;
      n.next := rest;
    }

    // Fires a node that is not cancelled: finishes it, or queues a copy and keeps it, linked in front of `rest`.
    method FireNode(n: Node, rest: Node?, ghost c: int) returns (r: Node?)
      requires Mid(c) && IsLoose(n) && n.next == null
      modifies this`registry, queue, queue.list, n
      ensures Mid(c) && rounds.Pending() == old(rounds.Pending())
      ensures var f := Fire(current, false, old(n.Value()));
        && queue.log == old(queue.log) + f.log && queue.popped == old(queue.popped)
        && if f.left.Some? then registry == old(registry) && r == n && n.Value() == f.left.value && n.next == rest && IsLoose(n)
           else registry == old(registry) - {n.id} && r == rest
      ensures forall k {:trigger queue.list[k]} :: 0 <= k < |queue.list| ==>
        queue.list[k] == n || queue.list[k] in old(queue.list) || fresh(queue.list[k])
    {
      hide PartsOk, Rounds.Pending;
      Detached(n, c);
      r := rest;
      if n.interval.None? {
        FinishNode(n, c);
        return;
      }
      var interval := n.interval.value(current);
      n.count := n.count - 1;
      assert Mid(c) && IsLoose(n) && rounds.Pending() == old(rounds.Pending());
      hide Mid, IsLoose;
      if interval <= 0 || n.count <= 0 {
        FinishNode(n, c);
      } else {
        Refire(n, rest, interval, c);
        r := n;
      }
    }

    // Consumes one due node: drops it, finishes it, or queues a copy and keeps the node, linked in
    // front of `rest`, to be rescheduled.
    method ConsumeNode(n: Node, rest: Node?, ghost c: int) returns (r: Node?)
      requires Mid(c) && IsLoose(n)
      modifies this`registry, queue, queue.list, n
      ensures Mid(c) && rounds.Pending() == old(rounds.Pending())
      ensures var f := Fire(current, n.flag.removed, old(n.Value()));
        && queue.log == old(queue.log) + f.log && queue.popped == old(queue.popped)
        && if f.left.Some? then registry == old(registry) && r == n && n.Value() == f.left.value && n.next == rest && IsLoose(n)
           else registry == old(registry) - {n.id} && r == rest
      ensures forall k {:trigger queue.list[k]} :: 0 <= k < |queue.list| ==>
        queue.list[k] == n || queue.list[k] in old(queue.list) || fresh(queue.list[k])
    {
      hide PartsOk, Rounds.Pending;
      Detached(n, c);
      n.next := null;
      assert Mid(c) && IsLoose(n) && rounds.Pending() == old(rounds.Pending());
      hide Mid, IsLoose;
      if n.flag.removed {
        Remove(n, c);
        r := rest;
      } else {
        r := FireNode(n, rest, c);
      }
    }

    // ---------- the consumed list ----------

    static ghost function Ids(list: seq<Node>): set<int> {
      set n | n in list :: n.id
    }

    // Detached nodes, free to be worked on.
    ghost predicate AllLoose(list: seq<Node>)
      reads this`flags, rounds, rounds.layout.at.Keys, queue
    {
      forall k {:trigger list[k]} :: 0 <= k < |list| ==> IsLoose(list[k])
    }

    // `fires` says what consuming each of these nodes does.
    ghost predicate FiresOk(list: seq<Node>, fires: map<int, Fired>)
      reads this`current, list, set n | n in list :: n.flag
    {
      forall k {:trigger list[k]} :: 0 <= k < |list| ==>
        list[k].id in fires && fires[list[k].id] == Fire(current, list[k].flag.removed, list[k].Value())
    }

    // These nodes carry what `fires` leaves of their timers.
    static ghost predicate LeftOk(list: seq<Node>, fires: map<int, Fired>)
      reads list
    {
      forall k {:trigger list[k]} :: 0 <= k < |list| ==>
        list[k].id in fires && fires[list[k].id].left == Some(list[k].Value())
    }

    // History and registry once the timers `done` have been consumed.
    static ghost predicate Consumed(log0: seq<Firing>, log: seq<Firing>, reg0: map<int, Flag>, reg: map<int, Flag>,
                                    done: set<int>, fires: map<int, Fired>)
      requires done <= fires.Keys
    {
      && log0 <= log
      && (forall id {:trigger Of(log, id)} :: Of(log, id) == Of(log0, id) + if id in done then fires[id].log else [])
      && reg == map id | id in reg0 && !(id in done && fires[id].left.None?) :: reg0[id]
    }

    static lemma ConsumedStep(log0: seq<Firing>, log: seq<Firing>, reg0: map<int, Flag>, reg: map<int, Flag>,
                              done: set<int>, fires: map<int, Fired>, id: int)
      requires done <= fires.Keys && id in fires && id !in done && Consumed(log0, log, reg0, reg, done, fires)
      requires forall k :: 0 <= k < |fires[id].log| ==> fires[id].log[k].timer.id == id
      ensures Consumed(log0, log + fires[id].log, reg0, if fires[id].left.Some? then reg else reg - {id}, done + {id}, fires)
    {
      OfExtend(log, fires[id].log, id);
    }

    static lemma IdsStep(list: seq<Node>)
      requires list != [] && DistinctIds(list)
      ensures Ids(list) == {list[0].id} + Ids(list[1..]) && list[0].id !in Ids(list[1..]) && DistinctIds(list[1..])
      ensures forall k {:trigger list[1..][k]} :: 0 <= k < |list| - 1 ==> list[1..][k].id != list[0].id
    {
    }

    static lemma ConsumedStart(log: seq<Firing>, reg: map<int, Flag>, fires: map<int, Fired>)
      ensures Consumed(log, log, reg, reg, {}, fires)
    {
    }

    static lemma IdsKept(n: Node, kept: seq<Node>)
      requires DistinctIds(kept) && n.id !in Ids(kept)
      ensures Ids([n] + kept) == {n.id} + Ids(kept) && DistinctIds([n] + kept) && n !in kept
    {
    }

    static lemma ChainTail(first: Node, list: seq<Node>)
      requires IsChain(first, list)
      ensures list != [] && first == list[0] && first in list && IsChain(first.next, list[1..])
      ensures first !in list[1..] && forall m {:trigger m in list[1..]} :: m in list[1..] ==> m in list
    {
    }

    static lemma ChainFront(n: Node, rest: Node?, list: seq<Node>)
      requires IsChain(rest, list) && n.next == rest && n !in list
      ensures IsChain(n, [n] + list)
    {
    }

    static lemma IdsApart(n: Node, a: seq<Node>, b: seq<Node>)
      requires Ids(a) !! Ids(b) && n in b
      ensures n !in a
    {
      assert n.id in Ids(b);
    }

    // Consumes the first of the due nodes `todo` and puts it in front of `kept`, the nodes to be
    // rescheduled, when it has to fire again.
    method ConsumeFront(node: Node, resched: Node?, ghost todo: seq<Node>, ghost kept: seq<Node>, ghost c: int,
                        ghost fires: map<int, Fired>)
      returns (next: Node?, r: Node?, ghost more: seq<Node>)
      requires Mid(c) && IsChain(node, todo) && AllLoose(todo) && FiresOk(todo, fires) && DistinctIds(todo)
      requires IsChain(resched, kept) && AllLoose(kept) && LeftOk(kept, fires) && Ids(kept) !! Ids(todo)
      modifies this`registry, queue, queue.list, node
      ensures Mid(c) && rounds.Pending() == old(rounds.Pending()) && queue.popped == old(queue.popped)
      ensures todo != [] && node == todo[0]
      ensures node.id in fires && fires[node.id] == Fire(current, node.flag.removed, old(node.Value()))
      ensures IsChain(next, todo[1..]) && AllLoose(todo[1..]) && FiresOk(todo[1..], fires)
      ensures var f := fires[node.id];
        && queue.log == old(queue.log) + f.log
        && registry == (if f.left.Some? then old(registry) else old(registry) - {node.id})
        && more == (if f.left.Some? then [node] + kept else kept)
      ensures IsChain(r, more) && AllLoose(more) && LeftOk(more, fires)
      ensures forall k {:trigger queue.list[k]} :: 0 <= k < |queue.list| ==>
        queue.list[k] == node || queue.list[k] in old(queue.list) || fresh(queue.list[k])
    {
      hide Rounds.Ok, Rounds.PlacedOk, Queue.Valid, Rounds.Pending, Fire, Mid, IsChain, DistinctIds, Ids;
      ChainTail(node, todo);
      assert node !in kept by {
        IdsApart(node, kept, todo);
      }
      next, more := node.next, kept;
      r := ConsumeNode(node, resched, c);
      if fires[node.id].left.Some? {
        ChainFront(node, resched, kept);
        more := [node] + kept;
      }
    }

    lemma EmptyChain(fires: map<int, Fired>)
      ensures IsChain(null, []) && DistinctIds([]) && Ids([]) == {} && AllLoose([]) && LeftOk([], fires)
    {
    }

    static lemma NoChain(list: seq<Node>)
      requires IsChain(null, list)
      ensures list == [] && Ids(list) == {}
    {
    }

    // Consumes every due node; what has to be rescheduled comes back as a list.
    method ConsumeAll(first: Node?, ghost list: seq<Node>, ghost c: int, ghost fires: map<int, Fired>)
      returns (resched: Node?, ghost kept: seq<Node>)
      requires Mid(c) && IsChain(first, list) && AllLoose(list) && FiresOk(list, fires)
      requires DistinctIds(list) && fires.Keys == Ids(list)
      modifies this`registry, queue, queue.list, list
      ensures Mid(c) && rounds.Pending() == old(rounds.Pending()) && queue.popped == old(queue.popped)
      ensures IsChain(resched, kept) && AllLoose(kept) && LeftOk(kept, fires)
      ensures DistinctIds(kept) && Ids(kept) == set id | id in fires && fires[id].left.Some?
      ensures Consumed(old(queue.log), queue.log, old(registry), registry, fires.Keys, fires)
      ensures forall k {:trigger kept[k]} :: 0 <= k < |kept| ==> kept[k] in list
      ensures forall k {:trigger queue.list[k]} :: 0 <= k < |queue.list| ==>
        queue.list[k] in old(queue.list) || queue.list[k] in list || fresh(queue.list[k])
    {
      hide Rounds.Ok, Rounds.PlacedOk, Queue.Valid, Rounds.Pending, Fire, Of, Mid, Consumed, IsChain, DistinctIds, Ids,
        AllLoose, FiresOk, LeftOk;
      var node := first;
      ghost var todo, done := list, {};
      resched, kept := null, [];
      ConsumedStart(queue.log, registry, fires);
      EmptyChain(fires);
      while node != null
        invariant Mid(c) && rounds.Pending() == old(rounds.Pending()) && queue.popped == old(queue.popped)
        invariant IsChain(node, todo) && AllLoose(todo) && FiresOk(todo, fires) && DistinctIds(todo)
        invariant IsChain(resched, kept) && AllLoose(kept) && LeftOk(kept, fires) && DistinctIds(kept)
        invariant fires.Keys == done + Ids(todo) && done !! Ids(todo)
        invariant Ids(kept) == set id | id in done && fires[id].left.Some?
        invariant Consumed(old(queue.log), queue.log, old(registry), registry, done, fires)
        invariant forall m {:trigger m in todo} :: m in todo ==> m in list
        invariant forall k {:trigger kept[k]} :: 0 <= k < |kept| ==> kept[k] in list
        invariant forall k {:trigger queue.list[k]} :: 0 <= k < |queue.list| ==>
          queue.list[k] in old(queue.list) || queue.list[k] in list || fresh(queue.list[k])
        decreases |todo|
      {
        ChainTail(node, todo);
        IdsStep(todo);
        IdsKept(node, kept);
        assert node in list;
        FireIds(current, node.flag.removed, node.Value());
        ghost var log, reg := queue.log, registry;
        var next, r;
        next, r, kept := ConsumeFront(node, resched, todo, kept, c, fires);
        ConsumedStep(old(queue.log), log, old(registry), reg, done, fires, node.id);
        resched, done, todo, node := r, done + {node.id}, todo[1..], next;
      }
      NoChain(todo);
    }

    // ---------- the rescheduled list ----------

    static ghost predicate ValuesOk(list: seq<Node>, values: map<int, Timer>)
      reads list
    {
      forall k {:trigger list[k]} :: 0 <= k < |list| ==> list[k].id in values && values[list[k].id] == list[k].Value()
    }

    // The history once the timers `done` have been scheduled.
    static ghost predicate LogMore(log0: seq<Firing>, log: seq<Firing>, done: set<int>, scheds: map<int, Sched>)
      requires done <= scheds.Keys
    {
      && log0 <= log
      && forall id {:trigger Of(log, id)} :: Of(log, id) == Of(log0, id) + if id in done then scheds[id].log else []
    }

    // The waiting timers.
    static ghost predicate PendingMore(pend0: map<int, Entry>, pend: map<int, Entry>, done: set<int>, scheds: map<int, Sched>)
      requires done <= scheds.Keys
    {
      && pend.Keys == pend0.Keys + (set id | id in done && scheds[id].out.Placed?)
      && forall id {:trigger pend[id]} :: id in pend ==>
           if id in done && scheds[id].out.Placed? then pend[id] == scheds[id].out.entry
           else id in pend0 && pend[id] == pend0[id]
    }

    // The registered ids.
    static ghost predicate IdsMore(reg0: set<int>, reg: set<int>, done: set<int>, scheds: map<int, Sched>)
      requires done <= scheds.Keys
    {
      reg == reg0 - (set id | id in done && !scheds[id].out.Placed?) + (set id | id in done && scheds[id].out.Placed?)
    }

    static ghost predicate Rescheduled(log0: seq<Firing>, log: seq<Firing>, reg0: set<int>, reg: set<int>,
                                       pend0: map<int, Entry>, pend: map<int, Entry>,
                                       done: set<int>, scheds: map<int, Sched>)
    {
      && done <= scheds.Keys
      && LogMore(log0, log, done, scheds) && PendingMore(pend0, pend, done, scheds) && IdsMore(reg0, reg, done, scheds)
    }

    static lemma RescheduledStart(log: seq<Firing>, reg: set<int>, pend: map<int, Entry>, scheds: map<int, Sched>)
      ensures Rescheduled(log, log, reg, reg, pend, pend, {}, scheds)
    {
    }

    static lemma LogStep(log0: seq<Firing>, log: seq<Firing>, done: set<int>, scheds: map<int, Sched>, id: int)
      requires done <= scheds.Keys && id in scheds && id !in done && LogMore(log0, log, done, scheds)
      requires forall k :: 0 <= k < |scheds[id].log| ==> scheds[id].log[k].timer.id == id
      ensures LogMore(log0, log + scheds[id].log, done + {id}, scheds)
    {
      OfExtend(log, scheds[id].log, id);
    }

    static lemma PendingStep(pend0: map<int, Entry>, pend: map<int, Entry>, done: set<int>, scheds: map<int, Sched>, id: int)
      requires done <= scheds.Keys && id in scheds && id !in done && id !in pend0 && PendingMore(pend0, pend, done, scheds)
      ensures var s := scheds[id];
        PendingMore(pend0, if s.out.Placed? then pend[id := s.out.entry] else pend, done + {id}, scheds)
    {
    }

    static lemma IdsMoreStep(reg0: set<int>, reg: set<int>, done: set<int>, scheds: map<int, Sched>, id: int)
      requires done <= scheds.Keys && id in scheds && id !in done && IdsMore(reg0, reg, done, scheds)
      ensures IdsMore(reg0, if scheds[id].out.Placed? then reg + {id} else reg - {id}, done + {id}, scheds)
    {
    }

    static lemma RescheduledStep(log0: seq<Firing>, log: seq<Firing>, reg0: set<int>, reg: set<int>,
                                 pend0: map<int, Entry>, pend: map<int, Entry>,
                                 done: set<int>, scheds: map<int, Sched>, id: int)
      requires done <= scheds.Keys && id in scheds && id !in done && id !in pend0
      requires Rescheduled(log0, log, reg0, reg, pend0, pend, done, scheds)
      requires forall k :: 0 <= k < |scheds[id].log| ==> scheds[id].log[k].timer.id == id
      ensures var s := scheds[id];
        Rescheduled(log0, log + s.log, reg0, if s.out.Placed? then reg + {id} else reg - {id}, pend0,
                    if s.out.Placed? then pend[id := s.out.entry] else pend, done + {id}, scheds)
    {
      hide LogMore, PendingMore, IdsMore;
      LogStep(log0, log, done, scheds, id);
      PendingStep(pend0, pend, done, scheds, id);
      IdsMoreStep(reg0, reg, done, scheds, id);
    }

    // Schedules the first node of a list.
    method ScheduleFront(node: Node, ghost todo: seq<Node>, ghost c: int, ghost values: map<int, Timer>) returns (next: Node?)
      requires Mid(c) && c <= ticks && IsChain(node, todo) && AllLoose(todo) && ValuesOk(todo, values) && DistinctIds(todo)
      modifies this`registry, rounds, (set v | v in rounds.wheels)`slots, queue, queue.list, node
      ensures Mid(c) && queue.popped == old(queue.popped)
      ensures todo != [] && node == todo[0] && node.id in values && values[node.id].id == node.id
      ensures IsChain(next, todo[1..]) && AllLoose(todo[1..]) && ValuesOk(todo[1..], values)
      ensures var r := Scheduled(c, values[node.id]);
        && queue.log == old(queue.log) + r.log
        && registry.Keys == (if r.out.Placed? then old(registry.Keys) + {node.id} else old(registry.Keys) - {node.id})
        && rounds.Pending() == (if r.out.Placed? then old(rounds.Pending())[node.id := r.out.entry] else old(rounds.Pending()))
      ensures rounds.layout.at.Keys <= old(rounds.layout.at.Keys) + {node}
      ensures forall k {:trigger queue.list[k]} :: 0 <= k < |queue.list| ==>
        queue.list[k] == node || queue.list[k] in old(queue.list) || fresh(queue.list[k])
    {
      hide Rounds.Ok, Rounds.PlacedOk, Queue.Valid, Rounds.Pending, Mid, IsChain, DistinctIds, Schedule;
      ChainTail(node, todo);
      IdsStep(todo);
      next := node.next;
      var ok := ScheduleNode(node, c);
    }

    lemma ScheduledIds(c: int, t: Timer)
      ensures forall k :: 0 <= k < |Scheduled(c, t).log| ==> Scheduled(c, t).log[k].timer.id == t.id
    {
      if Cfg().Positive() {
        ScheduleIds(Cfg(), elapsed, c, current, t);
      }
    }

    // Schedules the first node of a list and puts it on record among those done.
    method ScheduleNext(node: Node, ghost todo: seq<Node>, ghost c: int, ghost values: map<int, Timer>,
                        ghost scheds: map<int, Sched>, ghost log0: seq<Firing>, ghost reg0: set<int>,
                        ghost pend0: map<int, Entry>, ghost done: set<int>)
      returns (next: Node?)
      requires Mid(c) && c <= ticks && IsChain(node, todo) && AllLoose(todo) && ValuesOk(todo, values) && DistinctIds(todo)
      requires node.id in values && node.id in scheds && scheds[node.id] == Scheduled(c, values[node.id])
      requires done <= scheds.Keys && node.id !in done && node.id !in pend0
      requires Rescheduled(log0, queue.log, reg0, registry.Keys, pend0, rounds.Pending(), done, scheds)
      modifies this`registry, rounds, (set v | v in rounds.wheels)`slots, queue, queue.list, node
      ensures Mid(c) && queue.popped == old(queue.popped)
      ensures todo != [] && node == todo[0]
      ensures IsChain(next, todo[1..]) && AllLoose(todo[1..]) && ValuesOk(todo[1..], values)
      ensures Rescheduled(log0, queue.log, reg0, registry.Keys, pend0, rounds.Pending(), done + {node.id}, scheds)
      ensures rounds.layout.at.Keys <= old(rounds.layout.at.Keys) + {node}
      ensures forall k {:trigger queue.list[k]} :: 0 <= k < |queue.list| ==>
        queue.list[k] == node || queue.list[k] in old(queue.list) || fresh(queue.list[k])
    {
      hide Rounds.Pending, Of, Mid, Rescheduled, IsChain, DistinctIds, Schedule, AllLoose, ValuesOk;
      ghost var log, reg, pend := queue.log, registry.Keys, rounds.Pending();
      next := ScheduleFront(node, todo, c, values);
      ScheduledIds(c, values[node.id]);
      RescheduledStep(log0, log, reg0, reg, pend0, pend, done, scheds, node.id);
    }

    // Schedules every node of a list.
    method ScheduleLocked(first: Node?, ghost list: seq<Node>, ghost c: int, ghost values: map<int, Timer>,
                          ghost scheds: map<int, Sched>)
      requires Mid(c) && c <= ticks && IsChain(first, list) && AllLoose(list) && ValuesOk(list, values)
      requires DistinctIds(list) && values.Keys == Ids(list) && values.Keys !! rounds.Pending().Keys
      requires scheds == map id | id in values :: Scheduled(c, values[id])
      modifies this`registry, rounds, (set v | v in rounds.wheels)`slots, queue, queue.list, list
      ensures Mid(c) && queue.popped == old(queue.popped)
      ensures Rescheduled(old(queue.log), queue.log, old(registry.Keys), registry.Keys,
                          old(rounds.Pending()), rounds.Pending(), values.Keys, scheds)
      ensures rounds.layout.at.Keys <= old(rounds.layout.at.Keys) + (set m | m in list)
      ensures forall k {:trigger queue.list[k]} :: 0 <= k < |queue.list| ==>
        queue.list[k] in old(queue.list) || queue.list[k] in list || fresh(queue.list[k])
    {
      hide Rounds.Ok, Rounds.PlacedOk, Queue.Valid, Rounds.Pending, Of, Mid, Rescheduled, IsChain, DistinctIds, Ids, Schedule,
        AllLoose, ValuesOk;
      var node := first;
      ghost var todo, done := list, {};
      RescheduledStart(queue.log, registry.Keys, rounds.Pending(), scheds);
      while node != null
        invariant Mid(c) && queue.popped == old(queue.popped)
        invariant IsChain(node, todo) && AllLoose(todo) && ValuesOk(todo, values) && DistinctIds(todo)
        invariant values.Keys == done + Ids(todo) && done !! Ids(todo)
        invariant Rescheduled(old(queue.log), queue.log, old(registry.Keys), registry.Keys,
                              old(rounds.Pending()), rounds.Pending(), done, scheds)
        invariant forall m {:trigger m in todo} :: m in todo ==> m in list
        invariant rounds.layout.at.Keys <= old(rounds.layout.at.Keys) + (set m | m in list)
        invariant forall k {:trigger queue.list[k]} :: 0 <= k < |queue.list| ==>
          queue.list[k] in old(queue.list) || queue.list[k] in list || fresh(queue.list[k])
        decreases |todo|
      {
        ChainTail(node, todo);
        IdsStep(todo);
        assert node in list;
        var next := ScheduleNext(node, todo, c, values, scheds, old(queue.log), old(registry.Keys), old(rounds.Pending()), done);
        done, todo, node := done + {node.id}, todo[1..], next;
      }
      NoChain(todo);
    }

    // ---------- the tick ----------

    static ghost function Fires(s: Cal): map<int, Fired> {
      map id | id in s.pending && s.pending[id].fire == s.ticks
        :: Fire(Now(s), id in s.cancelled, s.pending[id].timer)
    }

    static ghost function LeftOver(fires: map<int, Fired>): map<int, Timer> {
      map id | id in fires && fires[id].left.Some? :: fires[id].left.value
    }

    static ghost function Scheds(cfg: Config, s: Cal, values: map<int, Timer>): map<int, Sched>
      requires cfg.Positive()
    {
      map id | id in values :: Schedule(cfg, s.elapsed, s.ticks, Now(s), values[id])
    }

    static ghost function NotDue(s: Cal): map<int, Entry> {
      map id | id in s.pending && s.pending[id].fire != s.ticks :: s.pending[id]
    }

    // What the calendar consumes of one timer is what it fires and what scheduling the rest of it gives.
    static lemma ConsumedParts(cfg: Config, s: Cal, id: int)
      requires cfg.Positive() && DueNow(s, id)
      ensures id in Fires(s)
      ensures var values, r := LeftOver(Fires(s)), Calendar.Consumed(cfg, s, id);
        if id in values then
          var rest := Scheds(cfg, s, values)[id];
          r.log == Fires(s)[id].log + rest.log && r.out == rest.out
        else r.log == Fires(s)[id].log && !r.out.Placed? && Fires(s)[id].left.None?
    {
      hide Fire, Schedule;
    }

    static lemma ComposeLog(cfg: Config, s: Cal, log1: seq<Firing>, log2: seq<Firing>, id: int)
      requires cfg.Positive() && s.log <= log1
      requires Of(log1, id) == Of(s.log, id) + if id in Fires(s) then Fires(s)[id].log else []
      requires LogMore(log1, log2, LeftOver(Fires(s)).Keys, Scheds(cfg, s, LeftOver(Fires(s))))
      ensures s.log <= log2
      ensures Of(log2, id) == Of(s.log, id) + if DueNow(s, id) then Calendar.Consumed(cfg, s, id).log else []
    {
      hide Fire, Schedule, Calendar.Consumed, Of;
      var values := LeftOver(Fires(s));
      var a, f := Of(s.log, id), if id in Fires(s) then Fires(s)[id].log else [];
      var r := if id in values then Scheds(cfg, s, values)[id].log else [];
      assert Of(log2, id) == (a + f) + r == a + (f + r);
      if DueNow(s, id) {
        ConsumedParts(cfg, s, id);
      } else {
        assert f + r == [];
      }
    }

    static lemma ComposePending(cfg: Config, s: Cal, pend: map<int, Entry>)
      requires cfg.Positive()
      requires PendingMore(NotDue(s), pend, LeftOver(Fires(s)).Keys, Scheds(cfg, s, LeftOver(Fires(s))))
      ensures pend == map id | id in s.pending && (DueNow(s, id) ==> Calendar.Consumed(cfg, s, id).out.Placed?)
                          :: if DueNow(s, id) then Calendar.Consumed(cfg, s, id).out.entry else s.pending[id]
    {
      hide Calendar.Consumed;
      forall id | DueNow(s, id)
        ensures id in Fires(s)
        ensures var values, r := LeftOver(Fires(s)), Calendar.Consumed(cfg, s, id);
          if id in values then r.out == Scheds(cfg, s, values)[id].out else !r.out.Placed?
      {
        ConsumedParts(cfg, s, id);
      }
      hide Fire, Schedule, Scheds;
    }

    // Registered is what is waiting.
    static lemma ComposeIds(s: Cal, reg0: map<int, Flag>, reg1: map<int, Flag>, reg2: set<int>, pend: map<int, Entry>,
                            scheds: map<int, Sched>)
      requires reg0.Keys == s.pending.Keys && LeftOver(Fires(s)).Keys <= scheds.Keys
      requires reg1 == map id | id in reg0 && !(id in Fires(s) && Fires(s)[id].left.None?) :: reg0[id]
      requires IdsMore(reg1.Keys, reg2, LeftOver(Fires(s)).Keys, scheds)
      requires PendingMore(NotDue(s), pend, LeftOver(Fires(s)).Keys, scheds)
      ensures reg2 == pend.Keys
    {
      hide Fire;
    }

    // Consuming what is due and rescheduling what is left of it is one calendar tick.
    static lemma ComposeTick(cfg: Config, s: Cal, s': Cal, log: seq<Firing>, reg0: map<int, Flag>, reg1: map<int, Flag>,
                             reg2: set<int>)
      requires cfg.Positive()
      requires s' == s.(ticks := s.ticks + 1, elapsed := s.elapsed + cfg.precision, log := s'.log, pending := s'.pending)
      requires Consumed(s.log, log, reg0, reg1, Fires(s).Keys, Fires(s)) && reg0.Keys == s.pending.Keys
      requires var values := LeftOver(Fires(s));
        Rescheduled(log, s'.log, reg1.Keys, reg2, NotDue(s), s'.pending, values.Keys, Scheds(cfg, s, values))
      ensures TickStep(cfg, s, s') && reg2 == s'.pending.Keys
    {
      hide Of, LogMore, PendingMore, IdsMore, Fires, LeftOver, NotDue, Calendar.Consumed;
      forall id
        ensures s.log <= s'.log
        ensures Of(s'.log, id) == Of(s.log, id) + if DueNow(s, id) then Calendar.Consumed(cfg, s, id).log else []
      {
        assert Of(log, id) == Of(s.log, id) + if id in Fires(s) then Fires(s)[id].log else [];
        ComposeLog(cfg, s, log, s'.log, id);
      }
      ComposePending(cfg, s, s'.pending);
      ComposeIds(s, reg0, reg1, reg2, s'.pending, Scheds(cfg, s, LeftOver(Fires(s))));
    }

    lemma SchedsNow(s: Cal, values: map<int, Timer>)
      requires Cfg().Positive() && s.elapsed == elapsed && s.ticks == ticks && Now(s) == current
      ensures Scheds(Cfg(), s, values) == map id | id in values :: Scheduled(ticks, values[id])
    {
    }

    static lemma LeftValues(list: seq<Node>, fires: map<int, Fired>)
      requires LeftOk(list, fires)
      ensures ValuesOk(list, LeftOver(fires))
    {
    }

    // The nodes taken by a tick are the ones the calendar consumes.
    lemma FiresFromChain(s: Cal, list: seq<Node>)
      requires Rounds.DueChain(s.pending, list, s.ticks) && s.cancelled == Cancelled() && Now(s) == current
      requires forall k {:trigger list[k]} :: 0 <= k < |list| ==> FlagOk(list[k])
      ensures FiresOk(list, Fires(s)) && Fires(s).Keys == Ids(list) && DistinctIds(list)
    {
      hide Fire;
      forall id | id in Fires(s)
        ensures id in Ids(list)
      {
        var k :| 0 <= k < |list| && list[k].id == id;
        assert list[k] in list;
      }
      forall id | id in Ids(list)
        ensures id in Fires(s)
      {
        var n :| n in list && n.id == id;
        var k :| 0 <= k < |list| && list[k] == n;
      }
    }

    // Advances the rounds by one tick; what is due leaves them and is in no queue.
    method TakeParts(ghost c: int) returns (first: Node?, ghost list: seq<Node>)
      requires PartsOk(c)
      modifies rounds, rounds.wheels, rounds.layout.at.Keys`next
      ensures PartsOk(c + 1) && IsChain(first, list) && Rounds.DueChain(old(rounds.Pending()), list, c + 1)
      ensures rounds.Pending() ==
        map id | id in old(rounds.Pending()) && old(rounds.Pending())[id].fire != c + 1 :: old(rounds.Pending())[id]
      ensures forall k {:trigger list[k]} :: 0 <= k < |list| ==>
        list[k] in old(rounds.layout.at.Keys) && list[k] !in rounds.layout.at && list[k] !in queue.list
      ensures rounds.layout.at.Keys <= old(rounds.layout.at.Keys)
    {
      hide Rounds.Ok, Rounds.PlacedOk, Queue.Valid, Rounds.Pending, Rounds.DueChain, IsChain;
      assert forall m {:trigger m in queue.list} :: m in queue.list ==> m !in rounds.layout.at;
      first, list := rounds.TakeTick(c);
    }

    // Advances the rounds by one tick and hands over what is due.
    method Detach() returns (first: Node?, ghost list: seq<Node>)
      requires Valid()
      modifies rounds, rounds.wheels, rounds.layout.at.Keys`next
      ensures Mid(ticks) && IsChain(first, list) && AllLoose(list) && DistinctIds(list)
      ensures FiresOk(list, Fires(old(Abs()))) && Fires(old(Abs())).Keys == Ids(list)
      ensures rounds.Pending() == NotDue(old(Abs())) && Cancelled() == old(Cancelled())
      ensures forall k {:trigger list[k]} :: 0 <= k < |list| ==> list[k] in old(rounds.layout.at.Keys)
      ensures rounds.layout.at.Keys <= old(rounds.layout.at.Keys)
    {
      hide PartsOk, Fire, Rounds.Pending, FiresOk, Ids, DistinctIds, IsChain, Cancelled;
      ghost var s := Abs();
      first, list := TakeParts(ticks - 1);
      assert Cancelled() == s.cancelled;
      assert forall k {:trigger list[k]} :: 0 <= k < |list| ==> FlagOk(list[k]);
      FiresFromChain(s, list);
    }

    // The clock moves on by one precision.
    method Advance()
      requires Mid(ticks) && registry.Keys == rounds.Pending().Keys
      modifies this`elapsed, this`current, this`ticks
      ensures Valid() && rounds.Pending() == old(rounds.Pending()) && Cancelled() == old(Cancelled())
      ensures elapsed == old(elapsed) + Cfg().precision && ticks == old(ticks) + 1 && Nodes() == old(Nodes())
    {
      hide PartsOk, Rounds.Pending, NodesOk;
      TicksGrow(ticks, rounds.cfg.precision);
      elapsed := elapsed + rounds.cfg.precision;
      current := current + rounds.cfg.precision;
      ticks := ticks + 1;
      assert forall m {:trigger m in rounds.layout.at} :: m in rounds.layout.at ==> unchanged(m);
    }

    // Consumes the nodes of a tick and reschedules what is left of them.
    method Drain(first: Node?, ghost list: seq<Node>, ghost s: Cal) returns (ghost log: seq<Firing>, ghost reg: map<int, Flag>)
      requires Mid(ticks) && IsChain(first, list) && AllLoose(list) && DistinctIds(list)
      requires s.elapsed == elapsed && s.ticks == ticks && Now(s) == current && s.log == queue.log
      requires FiresOk(list, Fires(s)) && Fires(s).Keys == Ids(list) && Fires(s).Keys !! rounds.Pending().Keys
      modifies this`registry, rounds, (set v | v in rounds.wheels)`slots, queue, queue.list, list
      ensures Mid(ticks) && Cfg().Positive() && queue.popped == old(queue.popped) && Cancelled() == old(Cancelled())
      ensures Consumed(s.log, log, old(registry), reg, Fires(s).Keys, Fires(s))
      ensures var values := LeftOver(Fires(s));
        Rescheduled(log, queue.log, reg.Keys, registry.Keys, old(rounds.Pending()), rounds.Pending(), values.Keys,
                    Scheds(Cfg(), s, values))
      ensures rounds.layout.at.Keys <= old(rounds.layout.at.Keys) + (set m | m in list)
      ensures forall k {:trigger queue.list[k]} :: 0 <= k < |queue.list| ==>
        queue.list[k] in old(queue.list) || queue.list[k] in list || fresh(queue.list[k])
    {
      hide Rounds.Ok, Rounds.PlacedOk, Queue.Valid, Fire, Schedule, Rounds.Pending, AllLoose, FiresOk, Consumed, Rescheduled,
        IsChain, Mid, DistinctIds, Ids, Scheds, LeftOk, ValuesOk;
      MidKnown(ticks);
      var resched, kept := ConsumeAll(first, list, ticks, Fires(s));
      ghost var values := LeftOver(Fires(s));
      log, reg := queue.log, registry;
      SchedsNow(s, values);
      LeftValues(kept, Fires(s));
      ScheduleLocked(resched, kept, ticks, values, Scheds(Cfg(), s, values));
    }

    // The state at the end of a tick, before the clock moves on.
    ghost function Ahead(): Cal
      requires Cfg().Positive()
      reads this, rounds, rounds.layout.at.Keys, flags.Values, queue
    {
      Abs().(ticks := ticks + 1, elapsed := elapsed + Cfg().precision)
    }

    // Consumes what is due in this tick.
    method ConsumeTick()
      requires Valid()
      modifies this`registry, rounds, rounds.wheels, rounds.layout.at.Keys, queue, queue.list
      ensures Mid(ticks) && registry.Keys == rounds.Pending().Keys
      ensures Cfg().Positive() && TickStep(Cfg(), old(Abs()), Ahead())
      ensures fresh(Nodes() - old(Nodes()))
    {
      hide Rounds.Ok, Rounds.PlacedOk, Queue.Valid, Fire, Schedule, Rounds.Pending, AllLoose, FiresOk, Consumed, Rescheduled,
        IsChain, Mid, DistinctIds, Ids, TickStep, Scheds, Cancelled;
      RoundsKnown();
      ghost var s := Abs();
      var first, list := Detach();
      ghost var log, reg := Drain(first, list, s);
      ComposeTick(Cfg(), s, Ahead(), log, old(registry), reg, registry.Keys);
    }

    // One tick of the scheduler thread.  The cursor of round 0 is a 32-bit integer.
    method Tick()
      requires Valid() && ticks < INT_MAX
      modifies this, rounds, rounds.wheels, rounds.layout.at.Keys, queue, queue.list
      ensures Valid() && TickStep(Cfg(), old(Abs()), Abs())
      ensures fresh(Nodes() - old(Nodes())) && flags == old(flags)
    {
      hide Rounds.Pending, Mid, TickStep, Cancelled, Nodes;
      ConsumeTick();
      Advance();
    }

    // `left` whole ticks of `p` ms are still missing when the clock reads `clock`.
    static ghost predicate Behind(elapsed: int, clock: int, p: nat, left: nat) {
      elapsed + p * left <= clock < elapsed + p * left + p
    }

    static lemma BehindAtStart(elapsed: int, clock: int, p: nat)
      requires p >= 1 && clock >= elapsed
      ensures Behind(elapsed, clock, p, (clock - elapsed) / p)
    {
      DivBounds(clock - elapsed, p);
    }

    static lemma BehindStep(elapsed: int, clock: int, p: nat, left: nat)
      requires left >= 1 && Behind(elapsed, clock, p, left)
      ensures Behind(elapsed + p, clock, p, left - 1)
    {
      assert p * (left - 1) == p * left - p;
    }

    static lemma BehindAtEnd(elapsed: int, clock: int, p: nat)
      requires Behind(elapsed, clock, p, 0)
      ensures elapsed <= clock < elapsed + p
    {
    }

    static lemma TicksLeft(k: nat, elapsed: int, clock: int, left: nat, p: nat)
      requires elapsed == k * p && left >= 1 && p >= 1 && Behind(elapsed, clock, p, left) && clock <= INT_MAX * p
      ensures k < INT_MAX
    {
      MulLe(p, 1, left);
      if k >= INT_MAX {
        MulLe(p, INT_MAX, k);
      }
    }

    // One pass of the scheduler thread, woken when the steady clock reads `clock` ms since the wheel
    // started: it consumes every whole tick missed so far.
    method Pass(clock: int) returns (ghost n: nat)
      requires Valid() && clock <= INT_MAX * Cfg().precision
      modifies this, rounds, rounds.wheels, rounds.layout.at.Keys, queue, queue.list
      ensures Valid() && Ticks(Cfg(), old(Abs()), Abs(), n)
      ensures Cfg().Positive() && n == Missed(Cfg().precision, old(elapsed), clock)
      ensures if clock < old(elapsed) + Cfg().precision then n == 0 else elapsed <= clock < elapsed + Cfg().precision
      ensures fresh(Nodes() - old(Nodes())) && flags == old(flags)
    {
      hide Mid, TickStep, Rounds.Pending, Cancelled, Behind;
      RoundsKnown();
      n := 0;
      var p, delay := rounds.cfg.precision, clock - elapsed;
      if delay < p {
        return;
      }
      BehindAtStart(elapsed, clock, p);
      var count := delay / p;
      var k := 0;
      while k < count
        invariant 0 <= k == n <= count && p == rounds.cfg.precision && p >= 1
        invariant Valid() && Ticks(Cfg(), old(Abs()), Abs(), n)
        invariant fresh(Nodes() - old(Nodes())) && flags == old(flags)
        invariant Behind(elapsed, clock, p, count - k)
      {
        RoundsKnown();
        TicksLeft(ticks, elapsed, clock, count - k, p);
        BehindStep(elapsed, clock, p, count - k);
        ghost var s := Abs();
        Tick();
        TickClock(rounds.cfg, s, Abs());
        k, n := k + 1, n + 1;
      }
      BehindAtEnd(elapsed, clock, p);
    }

    // One command: the steps it takes and what it answers.
    method Do(command: Command) returns (answer: Answer, ghost steps: seq<Op>)
      requires Valid() && (command.Wake? ==> command.clock <= INT_MAX * Cfg().precision)
      modifies this, rounds, rounds.wheels, Nodes(), queue, flags.Values
      ensures Valid() && fresh(Nodes() - old(Nodes())) && fresh(flags.Values - old(flags.Values))
      ensures Cfg().Positive() && Carried(Cfg(), old(Abs()), command, answer, steps)
      ensures if command.Wake? then steps == seq(|steps|, _ => TickOp) && Ticks(Cfg(), old(Abs()), Abs(), |steps|)
              else |steps| == 1 && Next(Cfg(), old(Abs()), steps[0], Abs())
    {
      hide Mid, AddStep, CancelStep, TickStep, PopStep, Calendar.Ticks, FlagsOk, Rounds.Pending, Cancelled, Missed;
      RoundsKnown();
      PoppedKnown();
      match command
      case Add(parm, clock) =>
        var id := AddTimer(parm, clock);
        answer, steps := Added(id), [AddOp(parm, clock, id)];
      case Cancel(id) =>
        RemoveTimer(id);
        answer, steps := Done, [CancelOp(id)];
      case Wake(clock) =>
        ghost var n := Pass(clock);
        answer, steps := Done, seq(n, _ => TickOp);
      case Fetch =>
        var r := PopNode();
        answer, steps := Fetched(r), [PopOp(r)];
    }

    // A command continues a run that has led to the state the wheel stands for.
    method Continue(command: Command, ghost ss: seq<Cal>, ghost ops: seq<Op>)
      returns (answer: Answer, ghost ss': seq<Cal>, ghost steps: seq<Op>)
      requires Valid() && (command.Wake? ==> command.clock <= INT_MAX * Cfg().precision)
      requires Cfg().Positive() && |ss| == |ops| + 1 && Run(Cfg(), ss, ops) && ss[|ops|] == Abs()
      modifies this, rounds, rounds.wheels, Nodes(), queue, flags.Values
      ensures Valid() && fresh(Nodes() - old(Nodes())) && fresh(flags.Values - old(flags.Values))
      ensures Cfg().Positive() && Carried(Cfg(), ss[|ops|], command, answer, steps)
      ensures ss <= ss' && |ss'| == |ops + steps| + 1 && Run(Cfg(), ss', ops + steps) && ss'[|ops + steps|] == Abs()
    {
      hide Valid, Run, Next, Abs, Calendar.Ticks, Nodes, Carried;
      answer, steps := Do(command);
      if command.Wake? {
        ghost var more := RunThenPass(Cfg(), ss, ops, Abs(), |steps|);
        ss' := ss + more;
      } else {
        RunOneMore(Cfg(), ss, ops, steps[0], Abs());
        assert steps == [steps[0]];
        ss' := ss + [Abs()];
      }
    }

    // A new wheel under any sequence of commands plays them: each takes the steps of the calendar that are its
    // own and answers accordingly, and the run ends in the state the wheel stands for. So what is proved over
    // every run holds of every wheel, command by command.
    static method Play(cfg: Config, bit: nat, startMs: int, commands: seq<Command>)
      returns (w: Impl, answers: seq<Answer>, ghost ss: seq<Cal>, ghost ops: seq<Op>, ghost at: seq<nat>)
      requires cfg.Valid() && bit <= 30 && cfg.scale == Pow(2, bit)
      requires forall i :: 0 <= i < |commands| && commands[i].Wake? ==> commands[i].clock <= INT_MAX * cfg.precision
      ensures w.Valid() && w.Cfg() == cfg
      ensures Plays(cfg, ss, ops, commands, answers, at)
      ensures |ss| == |ops| + 1 && ss[0] == Start(startMs) && ss[|ops|] == w.Abs()
    {
      hide Impl.Valid, Run, Impl.Abs, Plays, Carried;
      w := new Impl(cfg, bit, startMs);
      answers, ss, ops, at := [], [w.Abs()], [], [0];
      PlaysNothing(cfg, startMs);
      assert commands[..0] == [];
      for k := 0 to |commands|
        invariant fresh(w) && fresh(w.rounds) && fresh(w.rounds.wheels) && fresh(w.queue)
        invariant fresh(w.Nodes()) && fresh(w.flags.Values)
        invariant w.Valid() && w.Cfg() == cfg
        invariant Plays(cfg, ss, ops, commands[..k], answers, at)
        invariant |ss| == |ops| + 1 && ss[0] == Start(startMs) && ss[|ops|] == w.Abs()
      {
        PlaysRun(cfg, ss, ops, commands[..k], answers, at);
        var answer;
        ghost var ss', steps;
        answer, ss', steps := w.Continue(commands[k], ss, ops);
        PlaysMore(cfg, ss, ops, commands[..k], answers, at, commands[k], answer, ss', steps);
        assert commands[..k + 1] == commands[..k] + [commands[k]];
        answers, ss, ops, at := answers + [answer], ss', ops + steps, at + [|ops + steps|];
      }
      assert commands[..|commands|] == commands;
    }
  }
}
