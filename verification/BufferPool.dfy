// The thread-cached buffer pool, as the steps its threads take between atomic operations and critical
// sections. Any interleaving of the steps is a run.

module BufferPool {
  import opened Common
  import opened PoolState
  import opened PoolSteps

  // Some blocks of thread t's cache are gone, all others are where they were.
  ghost predicate Culled(heads: map<Ptr, Head>, where: map<Ptr, Place>, heads': map<Ptr, Head>, where': map<Ptr, Place>, t: int) {
    && heads'.Keys <= heads.Keys && where'.Keys <= where.Keys
    && (forall p :: p in heads' ==> heads'[p] == heads[p])
    && (forall p :: p in where' ==> where'[p] == where[p])
    && (forall p :: p in where && p !in where' ==> where[p].Cached? && where[p].t == t)
  }

  class Pool {
    const config: Config
    var threads: seq<Thread>
    var slots: seq<int>
    var slotNext: int
    var heads: map<Ptr, Head>
    var held: seq<int>
    ghost var where: map<Ptr, Place>

    ghost function Value(): State
      reads this
    {
      State(threads, slots, heads, where)
    }

    ghost function Whole(): World
      reads this
    {
      World(Value(), slotNext, held)
    }

    // What holds between any two steps of any threads.
    ghost predicate Valid()
      reads this
    {
      Whole().Valid(config)
    }

    constructor (aconfig: Config, count: nat)
      ensures Valid() && config == aconfig && |threads| == count && heads == map[]
    {
      config := aconfig;
      threads := seq(count, _ => Thread(-1, seq(aconfig.count, _ => []), [], false, Idle));
      slots, slotNext := seq(MAX_THREADS, _ => -1), 0;
      heads, where := map[], map[];
      held := seq(aconfig.count, _ => 0);
      new;
      assert forall i :: Value().Held(i) == {};
      forall t {:trigger threads[t]} | 0 <= t < |threads| ensures Value().Recorded(t) && Value().GoodOp(t, config) {
        assert threads[t] == Thread(-1, seq(aconfig.count, _ => []), [], false, Idle);
      }
      ghost var s := Value();
      assert s.Blocks(config);
      assert s.Slots();
      assert forall t {:trigger s.threads[t]} :: 0 <= t < |s.threads| ==> |s.threads[t].local| == config.count;
      assert forall t {:trigger s.Recorded(t)} :: 0 <= t < |s.threads| ==> s.Recorded(t);
      assert forall t {:trigger s.GoodOp(t, config)} :: 0 <= t < |s.threads| ==> s.GoodOp(t, config);
      assert s.Ops(config);
      assert forall i {:trigger held[i]} :: 0 <= i < config.count ==> held[i] == |Value().Held(i)|;
    }

    // A thread's first call takes the next slot, while there is one.
    method Register(t: int)
      requires Valid() && 0 <= t < |threads| && threads[t].op == Idle
      modifies this`threads, this`slots, this`slotNext
      ensures Valid() && heads == old(heads) && where == old(where) && |threads| == |old(threads)|
      ensures old(threads)[t].slot < 0 && old(slotNext) < MAX_THREADS ==> threads[t].slot == old(slotNext)
      ensures old(threads)[t].slot >= 0 ==> threads == old(threads)
      ensures old(Whole()).Enters(t, Whole())
    {
      if threads[t].slot >= 0 || slotNext >= MAX_THREADS {
        return;
      }
      ghost var before := Value();
      slots := slots[slotNext := t];
      threads := threads[t := threads[t].(slot := slotNext)];
      slotNext := slotNext + 1;
      before.RegisterKeeps(config, Value(), t, old(slotNext));
    }

    // A request: none for no bytes; oversized ones get a block of their own at once, others set out for
    // their bucket.
    method MallocBegin(t: int, bytes: int, block: Ptr) returns (p: Ptr)
      requires Valid() && 0 <= t < |threads| && threads[t].op == Idle && block !in heads && block >= 0
      modifies this`threads, this`heads, this`where
      ensures Valid() && |threads| == |old(threads)|
      ensures bytes <= 0 ==> p == -1 && threads == old(threads) && heads == old(heads) && where == old(where)
      ensures bytes > 0 ==>
              var i := config.BucketOf(bytes);
              if i < config.count then
                && p == -1 && heads == old(heads) && where == old(where)
                && threads == old(threads)[t := old(threads)[t].(op := Wanting(i))]
              else
                && p == block && heads == old(heads)[p := Head(-1, threads[t].slot, bytes)]
                && where == old(where)[p := Client] && threads == old(threads)
      ensures old(Whole()).Mallocs(config, t, bytes, block, if p == -1 then Nothing else Given(p), Whole())
    {
      hide State.Valid, State.Counts;
      p := -1;
      if bytes <= 0 {
        return;
      }
      var i := config.BucketOf(bytes);
      ghost var before := Value();
      if i >= config.count {
        p := block;
        heads := heads[p := Head(-1, threads[t].slot, bytes)];
        where := where[p := Client];
        before.OversizedKeeps(config, Value(), p, heads[p], held);
        return;
      }
      threads := threads[t := threads[t].(op := Wanting(i))];
      before.OpKeeps(config, Value(), t, Wanting(i), held);
    }

    // Takes over what other threads have given back, if the flag was seen.
    method DrainBegin(t: int, noticed: bool)
      requires Valid() && 0 <= t < |threads| && threads[t].op.Wanting? && (noticed ==> threads[t].hasPending)
      modifies this`threads, this`where
      ensures Valid() && heads == old(heads) && held == old(held) && |threads| == |old(threads)|
      ensures SameClients(old(where), where)
      ensures threads[t].op ==
              if noticed then Draining(old(threads)[t].op.index, old(threads)[t].pending, 0) else old(threads)[t].op
      ensures noticed ==> threads[t].pending == [] && !threads[t].hasPending
      ensures threads[t].local == old(threads)[t].local
      ensures old(Whole()).Swaps(t, noticed, Whole())
    {
      hide State.Valid, State.Counts;
      if !noticed {
        return;
      }
      ghost var before := Value();
      var th := threads[t];
      threads := threads[t := th.(pending := [], hasPending := false, op := Draining(th.op.index, th.pending, 0))];
      where := map p | p in where :: if where[p].Pending? && where[p].t == t then InDrain(t, where[p].k) else where[p];
      before.DrainKeeps(config, Value(), t, held);
    }

    // One of the blocks taken over goes into its bucket.
    method DrainOne(t: int)
      requires Valid() && 0 <= t < |threads| && threads[t].op.Draining? && threads[t].op.at < |threads[t].op.tmp|
      modifies this`threads, this`where
      ensures Valid() && heads == old(heads) && held == old(held) && |threads| == |old(threads)|
      ensures SameClients(old(where), where)
      ensures threads[t].op == old(threads)[t].op.(at := old(threads)[t].op.at + 1)
      ensures var th := old(threads)[t];
              var p := th.op.tmp[th.op.at];
              && p in heads && 0 <= heads[p].index < |th.local|
              && threads[t].local == th.local[heads[p].index := th.local[heads[p].index] + [p]]
      ensures old(Whole()).Nexts(t, Whole())
    {
      hide State.Valid, State.Counts;
      ghost var before := Value();
      var th := threads[t];
      before.DrainFacts(config, t);
      var p := th.op.tmp[th.op.at];
      var i := heads[p].index;
      ghost var k := |th.local[i]|;
      threads := threads[t := th.(local := th.local[i := th.local[i] + [p]], op := th.op.(at := th.op.at + 1))];
      where := where[p := Cached(t, i, k)];
      before.CacheKeeps(config, Value(), t, p, threads[t].op, held);
    }

    // The newest block of a bucket is deleted.
    method CutLast(t: int, i: int)
      requires Valid() && 0 <= t < |threads| && 0 <= i < config.count == |threads[t].local| && threads[t].local[i] != []
      modifies this`threads, this`where, this`heads
      ensures Valid() && held == old(held) && old(Whole()).CutsLast(t, i, Whole())
      ensures SameClients(old(where), where) && Culled(old(heads), old(where), heads, where, t)
    {
      hide State.Valid, State.Counts;
      ghost var before := Value();
      var th := threads[t];
      var bucket := th.local[i];
      var p := bucket[|bucket| - 1];
      before.BucketFacts(config, t, i);
      threads := threads[t := th.(local := th.local[i := bucket[..|bucket| - 1]])];
      heads := heads - {p};
      where := where - {p};
      before.PopKeeps(config, Value(), t, i, held);
    }

    // Over-full buckets are cut back to twice what clients hold; only cached blocks are ever deleted.
    method Trim(t: int, i: int)
      requires Valid() && 0 <= t < |threads| && threads[t].op.Draining? && threads[t].op.at == |threads[t].op.tmp|
      requires 0 <= i < config.count
      modifies this`threads, this`where, this`heads
      ensures Valid() && held == old(held) && |threads| == |old(threads)| && threads[t].op == old(threads)[t].op
      ensures SameClients(old(where), where)
      ensures Culled(old(heads), old(where), heads, where, t)
      ensures |held| == |threads[t].local| == |old(threads)[t].local| == config.count
      ensures var n := |old(threads)[t].local[i]|;
              |threads[t].local[i]| == if n > 3 * held[i] && held[i] > 0 then 2 * held[i] else n
      ensures var n := |old(threads)[t].local[i]|;
              var kept := if n > 3 * held[i] && held[i] > 0 then 2 * held[i] else n;
              0 <= kept <= n && threads[t].local == old(threads)[t].local[i := old(threads)[t].local[i][..kept]]
      ensures old(Whole()).Cuts(t, i, Whole())
    {
      hide State.Valid, State.Counts, World.CutTo;
      Value().SizeFacts(config, t, held);
      var size := held[i];
      Whole().CutNone(t, i);
      Whole().CutLocal(t, i, |threads[t].local[i]|, Whole());
      if |threads[t].local[i]| <= 3 * size || size <= 0 {
        return;
      }
      while |threads[t].local[i]| > 2 * size
        invariant Valid() && held == old(held) && |threads| == |old(threads)| && threads[t].op == old(threads)[t].op
        invariant |threads[t].local| == config.count && |threads[t].local[i]| >= 2 * size
        invariant Culled(old(heads), old(where), heads, where, t) && SameClients(old(where), where)
        invariant |threads[t].local[i]| <= |old(threads)[t].local[i]|
        invariant old(Whole()).CutTo(t, i, |threads[t].local[i]|, Whole())
      {
        ghost var was := Whole();
        CutLast(t, i);
        old(Whole()).CutOne(t, i, |was.pool.threads[t].local[i]|, was, Whole());
      }
      old(Whole()).CutLocal(t, i, 2 * size, Whole());
    }

    method DrainEnd(t: int)
      requires Valid() && 0 <= t < |threads| && threads[t].op.Draining? && threads[t].op.at == |threads[t].op.tmp|
      modifies this`threads
      ensures Valid() && old(Whole()).Finishes(t, Whole())
    {
      hide State.Valid, State.Counts;
      ghost var before := Value();
      threads := threads[t := threads[t].(op := Wanting(threads[t].op.index))];
      before.OpKeeps(config, Value(), t, threads[t].op, held);
    }

    // The newest cached block of the bucket, or a new one.
    method Take(t: int, block: Ptr)
      requires Valid() && 0 <= t < |threads| && threads[t].op.Wanting? && block !in heads
      modifies this`threads, this`heads, this`where
      ensures Valid() && held == old(held) && |threads| == |old(threads)|
      ensures SameClients(old(where), where)
      ensures threads[t].op.Holding? && threads[t].op.index == old(threads)[t].op.index
      ensures var p := threads[t].op.p;
              p in heads && heads[p].cap == config.Size(threads[t].op.index) && (p in old(where) ==> old(where)[p].Cached?)
      ensures var th := old(threads)[t];
              && 0 <= th.op.index < |th.local|
              && var bucket := th.local[th.op.index];
                 if bucket != [] then
                   && heads == old(heads) && threads[t].op.p == bucket[|bucket| - 1]
                   && threads[t].local == th.local[th.op.index := bucket[..|bucket| - 1]]
                 else threads[t].op.p == block && threads[t].local == th.local
      ensures old(Whole()).Picks(config, t, block, Whole())
    {
      hide State.Valid, State.Counts;
      ghost var before := Value();
      var th := threads[t];
      var i := th.op.index;
      before.SizeFacts(config, t, held);
      before.WantFacts(config, t);
      if th.local[i] != [] {
        var bucket := th.local[i];
        var p := bucket[|bucket| - 1];
        before.BucketFacts(config, t, i);
        threads := threads[t := th.(local := th.local[i := bucket[..|bucket| - 1]], op := Holding(i, p))];
        where := where[p := InHand(t)];
        before.TakeKeeps(config, Value(), t, i, held);
        return;
      }
      heads := heads[block := Head(i, th.slot, config.Size(i))];
      threads := threads[t := th.(op := Holding(i, block))];
      where := where[block := InHand(t)];
      before.FreshKeeps(config, Value(), t, block, heads[block], held);
    }

    // The counter goes up and the client gets the block, which no client held and which is big enough.
    method Deliver(t: int) returns (p: Ptr)
      requires Valid() && 0 <= t < |threads| && threads[t].op.Holding?
      modifies this`threads, this`where, this`held
      ensures Valid() && |threads| == |old(threads)| && threads[t].op == Idle && heads == old(heads)
      ensures p in old(where) && old(where)[p] != Client && where == old(where)[p := Client] && p in heads
      ensures var i := old(threads)[t].op.index;
              && 0 <= i < |old(held)| && held == old(held)[i := old(held)[i] + 1] && heads[p].cap == config.Size(i)
      ensures old(Whole()).Hands(t, Given(p), Whole())
    {
      hide State.Valid, State.Counts;
      ghost var before := Value();
      var i := threads[t].op.index;
      p := threads[t].op.p;
      before.HoldFacts(config, t, held);
      held := held[i := held[i] + 1];
      threads := threads[t := threads[t].(op := Idle)];
      where := where[p := Client];
      before.DeliverKeeps(config, Value(), t, p, i, old(held));
    }

    // A client gives a block back. An oversized one is deleted; for others the counter goes down first.
    method FreeBegin(t: int, p: Ptr)
      requires Valid() && 0 <= t < |threads| && threads[t].op == Idle && p in where && where[p] == Client
      modifies this`threads, this`where, this`heads, this`held
      ensures Valid() && p in old(heads)
      ensures var i := old(heads)[p].index;
              if i == -1 then
                heads == old(heads) - {p} && where == old(where) - {p} && threads == old(threads) && held == old(held)
              else
                && heads == old(heads) && where == old(where)[p := InHand(t)]
                && threads == old(threads)[t := old(threads)[t].(op := Returning(p))]
                && 0 <= i < |old(held)| && held == old(held)[i := old(held)[i] - 1]
      ensures old(Whole()).Frees(t, p, Taken(p), Whole())
    {
      hide State.Valid, State.Counts;
      ghost var before := Value();
      before.HeadFacts(config, p, held);
      var i := heads[p].index;
      if i < 0 || i >= config.count {
        heads := heads - {p};
        where := where - {p};
        before.DeleteKeeps(config, Value(), p, held);
        return;
      }
      held := held[i := held[i] - 1];
      threads := threads[t := threads[t].(op := Returning(p))];
      where := where[p := InHand(t)];
      before.ReturnKeeps(config, Value(), t, p, old(held));
    }

    // Back into the own cache, or into the pending queue of the owner; without an owner it is deleted.
    method FreeEnd(t: int)
      requires Valid() && 0 <= t < |threads| && threads[t].op.Returning?
      modifies this`threads, this`where, this`heads
      ensures Valid() && |threads| == |old(threads)| && threads[t].op == Idle && held == old(held)
      ensures SameClients(old(where), where)
      ensures var p := old(threads)[t].op.p;
              && p in old(heads) && |slots| == MAX_THREADS
              && var slot := old(heads)[p].slot;
                 if slot >= 0 && slot == old(threads)[t].slot then p in where && where[p].Cached? && where[p].t == t
                 else if 0 <= slot < MAX_THREADS && slots[slot] != -1 then
                   p in where && where[p].Pending? && where[p].t == slots[slot]
                 else p !in where
      ensures var p := old(threads)[t].op.p;
              p in where && where[p].Pending? ==>
                var o := where[p].t;
                && 0 <= o < |threads| && threads[o].hasPending
                && threads[o].pending == old(threads)[o].pending + [p]
      ensures var p := old(threads)[t].op.p;
              p in where && where[p].Cached? ==>
                var i := old(heads)[p].index;
                && 0 <= i < |old(threads)[t].local|
                && threads[t].local == old(threads)[t].local[i := old(threads)[t].local[i] + [p]]
      ensures old(Whole()).GivesBack(t, Whole())
    {
      hide State.Valid, State.Counts;
      ghost var before := Value();
      before.HandFacts(config, t);
      var th := threads[t];
      var p := th.op.p;
      var h := heads[p];
      if h.slot >= 0 && h.slot == th.slot {
        ghost var k := |th.local[h.index]|;
        threads := threads[t := th.(local := th.local[h.index := th.local[h.index] + [p]], op := Idle)];
        where := where[p := Cached(t, h.index, k)];
        before.CacheKeeps(config, Value(), t, p, Idle, held);
        return;
      }
      threads := threads[t := th.(op := Idle)];
      if 0 <= h.slot < MAX_THREADS && slots[h.slot] != -1 {
        var o := slots[h.slot];
        var owner := threads[o];
        where := where[p := Pending(o, |owner.pending|)];
        threads := threads[o := owner.(pending := owner.pending + [p], hasPending := true)];
        before.GiveKeeps(config, Value(), t, o, p, held);
        return;
      }
      heads := heads - {p};
      where := where - {p};
      before.DropKeeps(config, Value(), t, p, held);
    }

    ghost predicate Owns(clients: set<Ptr>)
      reads this
    {
      clients == Whole().Clients()
    }

    // A step inside malloc or free, which leaves clients alone.
    method DoInside(step: Step)
      requires Valid() && Whole().Can(config, step) && !step.Malloc? && !step.Hand? && !step.Free?
      modifies this
      ensures Valid() && SameClients(old(where), where) && old(Whole()).Inside(config, step, Whole())
    {
      hide State.Valid, State.Counts, Culled, World.Enters, World.Swaps, World.Nexts, World.Cuts, World.Picks, World.GivesBack;
      match step
      case Enter(t) => Register(t);
      case Swap(t, noticed) => DrainBegin(t, noticed);
      case Next(t) => DrainOne(t);
      case Cut(t, i) => Trim(t, i);
      case Drained(t) => DrainEnd(t);
      case Pick(t, block) => Take(t, block);
      case GiveBack(t) => FreeEnd(t);
      case _ =>
    }

    // One step of one thread, if it can be taken, and what it hands to its client or takes from it.
    method Do(step: Step, clients: set<Ptr>) returns (answer: Answer, now: set<Ptr>)
      requires Valid() && Owns(clients)
      modifies this
      ensures Valid() && old(Whole()).Does(config, step, answer, Whole())
      ensures Owns(now) && now == HeldAfter(clients, answer)
    {
      hide State.Valid, State.Counts, World.Inside, World.Mallocs, World.Hands, World.Frees;
      answer, now := Nothing, clients;
      ghost var before := Whole();
      if !Ready(threads, heads, clients, config.count, step) {
        return;
      }
      match step {
        case Malloc(t, bytes, block) =>
          Value().KeysFacts(config);
          var p := MallocBegin(t, bytes, block);
          answer := if p == -1 then Nothing else Given(p);
        case Hand(t) =>
          var p := Deliver(t);
          answer := Given(p);
        case Free(t, p) =>
          FreeBegin(t, p);
          answer := Taken(p);
        case _ =>
          DoInside(step);
      }
      StepAccounts(config, before, step, answer, Whole());
      now := HeldAfter(clients, answer);
    }

    // Any schedule is a run: each step that can be taken is, the others do nothing, the pool stays in order, and
    // clients hold what was handed out and not given back, as many distinct blocks as there were such steps, so
    // no two of them share one.
    method Run(schedule: seq<Step>) returns (answers: seq<Answer>, clients: set<Ptr>, ghost ws: seq<World>)
      requires Valid() && Owns({})
      modifies this
      ensures Valid() && Runs(config, ws, schedule, answers) && ws[0] == old(Whole()) && ws[|schedule|] == Whole()
      ensures Owns(clients) && clients == Holders(answers) && |clients| == Gives(answers) - Takes(answers)
    {
      hide World.Does, World.Valid, World.Can;
      answers, clients, ws := [], {}, [Whole()];
      assert schedule[..0] == [];
      for k := 0 to |schedule|
        invariant Valid() && Owns(clients) && clients == Holders(answers)
        invariant Runs(config, ws, schedule[..k], answers) && ws[0] == old(Whole()) && ws[k] == Whole()
      {
        var answer;
        answer, clients := Do(schedule[k], clients);
        RunMore(config, ws, schedule[..k], answers, schedule[k], answer, Whole());
        assert schedule[..k + 1] == schedule[..k] + [schedule[k]];
        answers, ws := answers + [answer], ws + [Whole()];
      }
      assert schedule[..|schedule|] == schedule;
      Balance(config, ws, schedule, answers, |schedule|);
      assert answers[..|schedule|] == answers;
    }
  }
}
