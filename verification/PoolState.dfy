// The state of the thread-cached buffer pool: what its threads hold, where each block is, and what single steps
// keep in order.

module PoolState {
  import opened Common

  const MAX_THREADS := 128

  type Ptr = int

  // The header in front of a block, and how many bytes the block has behind it. Index -1 marks a block
  // larger than every bucket.
  datatype Head = Head(index: int, slot: int, cap: int)

  // Where a thread is inside malloc or free. `Holding` and `Returning` have a block in hand.
  datatype Op =
    | Idle
    | Wanting(index: int)
    | Draining(index: int, tmp: seq<Ptr>, at: nat)
    | Holding(index: int, p: Ptr)
    | Returning(p: Ptr)

  datatype Thread = Thread(slot: int, local: seq<seq<Ptr>>, pending: seq<Ptr>, hasPending: bool, op: Op)

  // The one place a live block is in.
  datatype Place =
    | Client
    | Cached(t: int, i: int, k: int)
    | Pending(t: int, k: int)
    | InDrain(t: int, k: int)
    | InHand(t: int)

  // How many bits a number takes.
  function BitWidth(x: nat): nat {
    if x == 0 then 0 else 1 + BitWidth(x / 2)
  }

  lemma {:induction false} BitWidthFits(x: nat, n: nat)
    ensures x < Two(n) <==> BitWidth(x) <= n
    decreases n
  {
    if n > 0 && x > 0 {
      BitWidthFits(x / 2, n - 1);
    }
  }

  // Buckets of 2^shift, 2^(shift+1), ... bytes.
  datatype Config = Config(shift: nat, count: nat) {
    function Size(i: nat): nat {
      Two(shift + i)
    }

    lemma BucketFits(bytes: int)
      requires bytes > 0
      ensures bytes > Two(shift) ==> BitWidth(bytes - 1) >= shift
      ensures var i := if bytes <= Two(shift) then 0 else BitWidth(bytes - 1) - shift;
              bytes <= Size(i) && forall j: nat :: bytes <= Size(j) ==> i <= j
    {
      hide Two, BitWidth;
      BitWidthFits(bytes - 1, shift);
      var w := BitWidth(bytes - 1);
      BitWidthFits(bytes - 1, w);
      forall j: nat | bytes <= Size(j) ensures w <= shift + j {
        BitWidthFits(bytes - 1, shift + j);
      }
    }

    // The bucket the source computes for a request; `count` or more when it is oversized.
    function BucketOf(bytes: int): (i: nat)
      requires bytes > 0
      ensures bytes <= Size(i)
      ensures forall j: nat :: bytes <= Size(j) ==> i <= j
    {
      BucketFits(bytes);
      if bytes <= Two(shift) then 0 else BitWidth(bytes - 1) - shift
    }
  }

  // Everything shared or per thread, with a ghost record of where each block is.
  datatype State = State(threads: seq<Thread>, slots: seq<int>, heads: map<Ptr, Head>, where: map<Ptr, Place>)
  {
    // A thread's structures hold the block at this very place.
    ghost predicate Lies(p: Ptr, place: Place) {
      match place
      case Client => false
      case Cached(t, i, k) =>
        0 <= t < |threads| && 0 <= i < |threads[t].local| && 0 <= k < |threads[t].local[i]| && threads[t].local[i][k] == p
      case Pending(t, k) => 0 <= t < |threads| && 0 <= k < |threads[t].pending| && threads[t].pending[k] == p
      case InDrain(t, k) =>
        0 <= t < |threads| && threads[t].op.Draining? && 0 <= threads[t].op.at <= k < |threads[t].op.tmp|
        && threads[t].op.tmp[k] == p
      case InHand(t) =>
        0 <= t < |threads| && match threads[t].op
                              case Holding(_, q) => q == p
                              case Returning(q) => q == p
                              case _ => false
    }

    // A block is really where the record has it.
    ghost predicate There(p: Ptr)
      requires p in where
    {
      where[p] == Client || Lies(p, where[p])
    }

    ghost predicate At(p: Ptr, place: Place) {
      p in where && where[p] == place
    }

    // Whatever a thread's structures hold is recorded there.
    ghost predicate Recorded(t: int)
      requires 0 <= t < |threads|
    {
      var th := threads[t];
      && (forall i, k {:trigger th.local[i][k]} ::
            0 <= i < |th.local| && 0 <= k < |th.local[i]| ==> At(th.local[i][k], Cached(t, i, k)))
      && (forall k {:trigger th.pending[k]} :: 0 <= k < |th.pending| ==> At(th.pending[k], Pending(t, k)))
      && (th.op.Draining? ==>
            && 0 <= th.op.at <= |th.op.tmp|
            && forall k {:trigger th.op.tmp[k]} :: th.op.at <= k < |th.op.tmp| ==> At(th.op.tmp[k], InDrain(t, k)))
      && (th.op.Holding? ==> At(th.op.p, InHand(t)))
      && (th.op.Returning? ==> At(th.op.p, InHand(t)))
    }

    // Cached blocks lie in the bucket their header names, with the owner's slot; so do those on their way
    // back to a cache.
    ghost predicate Owned(p: Ptr, n: nat)
      requires p in where && p in heads && There(p)
    {
      match where[p]
      case Client => true
      case Cached(t, i, _) => heads[p].slot == threads[t].slot >= 0 && heads[p].index == i
      case Pending(t, _) => heads[p].slot == threads[t].slot >= 0 && 0 <= heads[p].index < n
      case InDrain(t, _) => heads[p].slot == threads[t].slot >= 0 && 0 <= heads[p].index < n
      case InHand(t) =>
        && 0 <= heads[p].index < n
        && (threads[t].op.Holding? ==> heads[p].index == threads[t].op.index)
    }

    ghost predicate HeadOk(p: Ptr, config: Config)
      requires p in heads
    {
      heads[p].index != -1 ==> 0 <= heads[p].index < config.count && heads[p].cap == config.Size(heads[p].index)
    }

    ghost predicate Blocks(config: Config) {
      && where.Keys == heads.Keys
      && (forall p {:trigger where[p]} :: p in where ==> There(p) && Owned(p, config.count))
      && (forall p {:trigger heads[p]} {:trigger HeadOk(p, config)} :: p in heads ==> HeadOk(p, config))
    }

    ghost predicate GoodOp(t: int, config: Config)
      requires 0 <= t < |threads|
    {
      match threads[t].op
      case Wanting(i) => 0 <= i < config.count
      case Draining(i, _, _) => 0 <= i < config.count
      case Holding(i, _) => 0 <= i < config.count
      case _ => true
    }

    ghost predicate Ops(config: Config) {
      && (forall t {:trigger threads[t]} :: 0 <= t < |threads| ==> |threads[t].local| == config.count && Recorded(t))
      && (forall t {:trigger threads[t].op} :: 0 <= t < |threads| ==> GoodOp(t, config))
    }

    // Thread slots and the slot table agree.
    ghost predicate Slots() {
      && |slots| == MAX_THREADS
      && (forall t {:trigger threads[t].slot} ::
            0 <= t < |threads| && threads[t].slot >= 0 ==> threads[t].slot < MAX_THREADS && slots[threads[t].slot] == t)
      && (forall s {:trigger slots[s]} ::
            0 <= s < MAX_THREADS && slots[s] != -1 ==> 0 <= slots[s] < |threads| && threads[slots[s]].slot == s)
    }

    // The blocks of one bucket that clients hold.
    ghost function Held(i: int): set<Ptr> {
      set p | p in where && where[p] == Client && p in heads && heads[p].index == i
    }

    // The counters say how many blocks of each bucket clients hold.
    ghost predicate Counts(held: seq<int>, n: nat) {
      |held| == n && forall i {:trigger held[i]} :: 0 <= i < n ==> held[i] == |Held(i)|
    }

    ghost predicate Valid(config: Config) {
      Blocks(config) && Ops(config) && Slots()
    }

    // Recorded with neither of two threads, nor with a client.
    ghost predicate Elsewhere(p: Ptr, t: int, o: int)
      requires p in where
    {
      match where[p]
      case Client => false
      case Cached(u, _, _) => u != t && u != o
      case Pending(u, _) => u != t && u != o
      case InDrain(u, _) => u != t && u != o
      case InHand(u) => u != t && u != o
    }

    // A thread whose record changed is in order again.
    ghost predicate Settled(s0: State, config: Config, t: int)
      requires 0 <= t < |threads| == |s0.threads|
    {
      threads[t].slot == s0.threads[t].slot && |threads[t].local| == config.count && Recorded(t) && GoodOp(t, config)
    }

    // Blocks recorded with other threads than `t` and `o` have not moved, and all others are in order.
    ghost predicate Moved(s0: State, config: Config, t: int, o: int) {
      && where.Keys == heads.Keys
      && (forall q {:trigger heads[q]} :: q in heads ==> HeadOk(q, config))
      && (forall q {:trigger s0.where[q]} :: q in s0.where && s0.Elsewhere(q, t, o) ==>
            At(q, s0.where[q]) && q in s0.heads && q in heads && heads[q] == s0.heads[q])
      && (forall q {:trigger where[q]} :: q in where && !(q in s0.where && s0.Elsewhere(q, t, o)) ==>
            There(q) && Owned(q, config.count))
    }

    // All blocks but those of `ps` are recorded as they were.
    ghost predicate Changed(s0: State, ps: set<Ptr>) {
      && where.Keys == heads.Keys && where.Keys - ps == s0.where.Keys - ps
      && (forall q {:trigger where[q]} :: q in where && q !in ps ==> q in s0.where && where[q] == s0.where[q])
      && (forall q {:trigger heads[q]} :: q in heads && q !in ps ==> q in s0.heads && heads[q] == s0.heads[q])
    }

    // What lay with `t` or `o`, other than `ps`, still does.
    ghost predicate Still(s0: State, t: int, o: int, ps: set<Ptr>) {
      forall q {:trigger s0.where[q]} :: q in s0.where && q !in ps && s0.where[q] != Client && !s0.Elsewhere(q, t, o) ==>
        && Lies(q, s0.where[q])
        && (s0.where[q].InHand? && 0 <= s0.where[q].t < |threads| == |s0.threads| ==>
              threads[s0.where[q].t].op == s0.threads[s0.where[q].t].op)
    }

    ghost predicate SameSlots(s0: State, t: int, o: int) {
      && slots == s0.slots && |threads| == |s0.threads|
      && (forall u {:trigger threads[u]} :: 0 <= u < |threads| && u != t && u != o ==> threads[u] == s0.threads[u])
      && (0 <= t < |threads| ==> threads[t].slot == s0.threads[t].slot)
      && (0 <= o < |threads| ==> threads[o].slot == s0.threads[o].slot)
    }

    lemma StaysPut(s: State, config: Config, t: int, o: int, ps: set<Ptr>, q: Ptr)
      requires Valid(config) && s.Changed(this, ps) && s.SameSlots(this, t, o) && s.Still(this, t, o, ps)
      requires q in where && q !in ps && !Elsewhere(q, t, o)
      ensures q in s.where && q in s.heads && s.There(q) && s.Owned(q, config.count)
    {
      hide Recorded, HeadOk, GoodOp, Slots;
      assert q in heads && There(q) && Owned(q, config.count);
      assert q in s.where.Keys - ps;
      assert s.where[q] == where[q] && s.heads[q] == heads[q];
      if where[q] != Client {
        var u := where[q].t;
        assert s.Lies(q, where[q]) && 0 <= u < |threads| && s.threads[u].slot == threads[u].slot;
      }
    }

    lemma SameHead(s: State, config: Config, q: Ptr)
      requires Blocks(config) && q in heads && q in s.heads && s.heads[q] == heads[q]
      ensures s.HeadOk(q, config)
    {
      assert HeadOk(q, config);
    }

    // A step that moves the blocks `ps`, which were recorded with `t`, with `o` or with clients.
    lemma SomeMoved(s: State, config: Config, t: int, o: int, ps: set<Ptr>)
      requires Valid(config) && s.Changed(this, ps) && s.SameSlots(this, t, o) && s.Still(this, t, o, ps)
      requires forall p {:trigger where[p]} :: p in ps && p in where ==> !Elsewhere(p, t, o)
      requires forall p {:trigger s.where[p]} :: p in ps && p in s.where ==>
                 p in s.heads && s.There(p) && s.Owned(p, config.count) && s.HeadOk(p, config)
      ensures s.Moved(this, config, t, o)
    {
      hide Ops, Slots, There, Owned, Still, SameSlots, HeadOk, Elsewhere;
      forall q {:trigger s.where[q]} | q in s.where && !(q in where && Elsewhere(q, t, o))
        ensures s.There(q) && s.Owned(q, config.count)
      {
        if q !in ps {
          assert q in s.where.Keys - ps;
          StaysPut(s, config, t, o, ps, q);
        }
      }
      forall q {:trigger where[q]} | q in where && Elsewhere(q, t, o)
        ensures s.At(q, where[q]) && q in heads && q in s.heads && s.heads[q] == heads[q]
      {
        assert q in where.Keys - ps;
      }
      forall q {:trigger s.heads[q]} | q in s.heads ensures s.HeadOk(q, config) {
        if q !in ps {
          SameHead(s, config, q);
        } else {
          assert q in s.where;
        }
      }
    }

    lemma OtherRecorded(s: State, t: int, o: int, u: int)
      requires |s.threads| == |threads| && 0 <= u < |threads| && u != t && u != o
      requires s.threads[u] == threads[u] && Recorded(u)
      requires forall q {:trigger s.At(q, where[q])} :: q in where && Elsewhere(q, t, o) ==> s.At(q, where[q])
      ensures s.Recorded(u)
    {
    }

    lemma OpsKept(s: State, config: Config, t: int, o: int)
      requires Ops(config) && |s.threads| == |threads|
      requires forall u :: 0 <= u < |threads| && u != t && u != o ==> s.threads[u] == threads[u]
      requires 0 <= t < |threads| ==> s.GoodOp(t, config)
      requires 0 <= o < |threads| ==> s.GoodOp(o, config)
      requires forall u {:trigger s.threads[u]} {:trigger s.Recorded(u)} ::
                 0 <= u < |threads| ==> |s.threads[u].local| == config.count && s.Recorded(u)
      ensures s.Ops(config)
    {
      hide Recorded;
      forall u {:trigger s.threads[u].op} {:trigger s.GoodOp(u, config)} | 0 <= u < |threads| ensures s.GoodOp(u, config) {
        if u != t && u != o {
          assert s.threads[u] == threads[u] && GoodOp(u, config);
        }
      }
    }

    lemma SlotsKept(s: State, t: int, o: int)
      requires Slots() && s.slots == slots && |s.threads| == |threads|
      requires forall u :: 0 <= u < |threads| && u != t && u != o ==> s.threads[u] == threads[u]
      requires 0 <= t < |threads| ==> s.threads[t].slot == threads[t].slot
      requires 0 <= o < |threads| ==> s.threads[o].slot == threads[o].slot
      ensures s.Slots()
    {
    }

    lemma StaysElsewhere(s: State, config: Config, t: int, o: int, q: Ptr)
      requires Valid(config) && s.SameSlots(this, t, o) && q in where && q in heads && Elsewhere(q, t, o)
      requires s.At(q, where[q]) && q in s.heads && s.heads[q] == heads[q]
      ensures s.There(q) && s.Owned(q, config.count)
    {
      hide HeadOk, Recorded, GoodOp, Slots;
      assert There(q) && Owned(q, config.count);
      assert s.threads[where[q].t] == threads[where[q].t];
    }

    lemma BlocksKept(s: State, config: Config, t: int, o: int)
      requires Valid(config) && s.SameSlots(this, t, o) && s.Moved(this, config, t, o)
      ensures s.Blocks(config)
    {
      hide HeadOk, Ops, Slots, There, Owned, SameSlots, Elsewhere;
      forall q {:trigger s.where[q]} | q in s.where ensures s.There(q) && s.Owned(q, config.count) {
        if q in where && Elsewhere(q, t, o) {
          StaysElsewhere(s, config, t, o, q);
        }
      }
    }

    // A step that touches the records of threads `t` and `o` (or of none), their blocks and those of clients
    // only, and leaves all of these in order, keeps the pool in order.
    lemma StepKeeps(s: State, config: Config, t: int, o: int)
      requires Valid(config) && s.slots == slots && s.SameSlots(this, t, o) && s.Moved(this, config, t, o)
      requires 0 <= t < |threads| ==> s.Settled(this, config, t)
      requires 0 <= o < |threads| ==> s.Settled(this, config, o)
      ensures s.Valid(config)
    {
      hide GoodOp, HeadOk;
      forall u {:trigger s.threads[u]} {:trigger s.Recorded(u)} | 0 <= u < |threads|
        ensures |s.threads[u].local| == config.count && s.Recorded(u)
      {
        if u != t && u != o {
          assert s.threads[u] == threads[u];
          OtherRecorded(s, t, o, u);
        }
      }
      BlocksKept(s, config, t, o);
      OpsKept(s, config, t, o);
      SlotsKept(s, t, o);
    }

    // A step that moves the blocks `ps` and leaves threads `t` and `o` in order keeps the pool in order.
    lemma MoveKeeps(s: State, config: Config, t: int, o: int, ps: set<Ptr>)
      requires Valid(config) && s.Changed(this, ps) && s.SameSlots(this, t, o) && s.Still(this, t, o, ps)
      requires 0 <= t < |threads| ==> s.Settled(this, config, t)
      requires 0 <= o < |threads| ==> s.Settled(this, config, o)
      requires forall p {:trigger where[p]} :: p in ps && p in where ==> !Elsewhere(p, t, o)
      requires forall p {:trigger s.where[p]} :: p in ps && p in s.where ==>
                 p in s.heads && s.There(p) && s.Owned(p, config.count) && s.HeadOk(p, config)
      ensures s.Valid(config)
    {
      hide There, Owned, HeadOk, Recorded, Settled, Elsewhere, State.Valid, Still, Changed;
      SomeMoved(s, config, t, o, ps);
      StepKeeps(s, config, t, o);
    }

    lemma RegisterSlots(s: State, t: int, slot: int)
      requires Slots() && 0 <= t < |threads| && threads[t].slot < 0 && 0 <= slot < MAX_THREADS
      requires slots[slot] == -1 && s.slots == slots[slot := t] && s.threads == threads[t := threads[t].(slot := slot)]
      ensures s.Slots()
    {
    }

    lemma SameThread(s: State, u: int)
      requires 0 <= u < |threads| == |s.threads| && s.where == where && Recorded(u)
      requires s.threads[u].local == threads[u].local && s.threads[u].pending == threads[u].pending
      requires s.threads[u].op == threads[u].op
      ensures s.Recorded(u)
    {
    }

    // What a thread can rely on before it takes a step.
    lemma Facts(config: Config, t: int)
      requires Valid(config) && 0 <= t < |threads|
      ensures |threads[t].local| == config.count && Recorded(t) && GoodOp(t, config) && where.Keys == heads.Keys
      ensures forall p {:trigger where[p]} :: p in where ==> There(p) && Owned(p, config.count)
      ensures forall p {:trigger heads[p]} :: p in heads ==> HeadOk(p, config)
    {
    }

    lemma RegisterKeeps(config: Config, s: State, t: int, slot: int)
      requires Valid(config) && 0 <= t < |threads| && threads[t].slot < 0 && 0 <= slot < MAX_THREADS
      requires slots[slot] == -1 && s.slots == slots[slot := t] && s.heads == heads && s.where == where
      requires s.threads == threads[t := threads[t].(slot := slot)]
      ensures s.Valid(config)
    {
      hide Config.Size;
      forall q | q in where ensures s.There(q) && s.Owned(q, config.count) {
        assert There(q) && Owned(q, config.count);
      }
      assert s.Blocks(config) by {
        forall q | q in heads ensures s.HeadOk(q, config) {
          assert HeadOk(q, config);
        }
      }
      forall u {:trigger s.threads[u]} {:trigger s.Recorded(u)} | 0 <= u < |threads|
        ensures |s.threads[u].local| == config.count && s.Recorded(u)
      {
        Facts(config, u);
        SameThread(s, u);
      }
      assert GoodOp(t, config) && s.threads[t].op == threads[t].op;
      OpsKept(s, config, t, t);
      RegisterSlots(s, t, slot);
    }

    // Every live block is in exactly one place: with a client and in no structure of any thread, or in one
    // structure, once.
    lemma OnePlace(config: Config, p: Ptr)
      requires Valid(config) && p in heads
      ensures p in where && forall place {:trigger Lies(p, place)} :: place != Client ==> (Lies(p, place) <==> where[p] == place)
    {
      assert There(p);
      forall place {:trigger Lies(p, place)} | Lies(p, place) ensures where[p] == place {
        match place
        case Cached(t, i, k) =>
          Facts(config, t);
          assert At(threads[t].local[i][k], place);
        case Pending(t, k) =>
          Facts(config, t);
          assert At(threads[t].pending[k], place);
        case InDrain(t, k) =>
          Facts(config, t);
          assert At(threads[t].op.tmp[k], place);
        case InHand(t) =>
          Facts(config, t);
          assert At(threads[t].op.p, place);
      }
    }

    // Blocks waiting in a cache or on their way back to one carry the slot of the thread they wait at.
    lemma CarryOwnerSlot(config: Config, p: Ptr)
      requires Valid(config) && p in where
      ensures p in heads
      ensures where[p].Cached? || where[p].Pending? || where[p].InDrain? ==>
                0 <= where[p].t < |threads| && heads[p].slot == threads[where[p].t].slot >= 0
    {
    }

    lemma SizeFacts(config: Config, t: int, held: seq<int>)
      requires Valid(config) && 0 <= t < |threads| && Counts(held, config.count)
      ensures |threads[t].local| == |held| == config.count && where.Keys == heads.Keys
    {
    }

    lemma KeysFacts(config: Config)
      requires Valid(config)
      ensures where.Keys == heads.Keys
    {
    }

    lemma WantFacts(config: Config, t: int)
      requires Valid(config) && 0 <= t < |threads| && threads[t].op.Wanting?
      ensures 0 <= threads[t].op.index < config.count
    {
      assert GoodOp(t, config);
    }

    lemma DrainFacts(config: Config, t: int)
      requires Valid(config) && 0 <= t < |threads| && threads[t].op.Draining? && threads[t].op.at < |threads[t].op.tmp|
      ensures |threads[t].local| == config.count && 0 <= threads[t].op.at
      ensures var p := threads[t].op.tmp[threads[t].op.at];
              && p in heads && 0 <= heads[p].index < config.count && heads[p].slot == threads[t].slot >= 0
              && p in where && where[p] == InDrain(t, threads[t].op.at)
    {
    }

    lemma BucketFacts(config: Config, t: int, i: int)
      requires Valid(config) && 0 <= t < |threads| && 0 <= i < config.count == |threads[t].local| && threads[t].local[i] != []
      ensures var p := threads[t].local[i][|threads[t].local[i]| - 1];
              && p in heads && p in where && where[p] == Cached(t, i, |threads[t].local[i]| - 1)
              && heads[p].cap == config.Size(i)
    {
    }

    lemma HoldFacts(config: Config, t: int, held: seq<int>)
      requires Valid(config) && 0 <= t < |threads| && threads[t].op.Holding? && Counts(held, config.count)
      ensures 0 <= threads[t].op.index < |held|
      ensures var p := threads[t].op.p;
              p in heads && p in where && where[p] == InHand(t) && heads[p].cap == config.Size(threads[t].op.index)
    {
    }

    lemma HeadFacts(config: Config, p: Ptr, held: seq<int>)
      requires Valid(config) && p in where && Counts(held, config.count)
      ensures p in heads && (heads[p].index == -1 || 0 <= heads[p].index < config.count == |held|)
    {
    }

    lemma HandFacts(config: Config, t: int)
      requires Valid(config) && 0 <= t < |threads| && threads[t].op.Returning?
      ensures |threads[t].local| == config.count && |slots| == MAX_THREADS
      ensures var p := threads[t].op.p;
              && p in heads && p in where && where[p] == InHand(t) && 0 <= heads[p].index < config.count
              && (0 <= heads[p].slot < MAX_THREADS && slots[heads[p].slot] != -1 ==> 0 <= slots[heads[p].slot] < |threads|)
    {
    }

    // The bucket of a block that a client holds, or -1.
    ghost function HeldIn(p: Ptr): int {
      if p in where && where[p] == Client && p in heads then heads[p].index else -1
    }

    lemma SameCounts(s: State, held: seq<int>, n: nat)
      requires forall p {:trigger s.HeldIn(p)} :: s.HeldIn(p) == HeldIn(p)
      requires Counts(held, n)
      ensures s.Counts(held, n)
    {
      forall i {:trigger s.Held(i)} | i >= 0 ensures s.Held(i) == Held(i) {
        forall p ensures p in s.Held(i) <==> p in Held(i) {
          assert s.HeldIn(p) == HeldIn(p);
        }
      }
    }

    // One block more is held by a client.
    lemma HeldMore(s: State, p: Ptr)
      requires HeldIn(p) == -1 && s.HeldIn(p) >= 0
      requires forall q {:trigger s.HeldIn(q)} :: q != p ==> s.HeldIn(q) == HeldIn(q)
      ensures forall i {:trigger s.Held(i)} :: i >= 0 ==> |s.Held(i)| == |Held(i)| + if i == s.HeldIn(p) then 1 else 0
    {
      forall i {:trigger s.Held(i)} | i >= 0
        ensures |s.Held(i)| == |Held(i)| + if i == s.HeldIn(p) then 1 else 0
      {
        forall q ensures q in s.Held(i) <==> q in Held(i) || (q == p && i == s.HeldIn(p)) {
          assert q != p ==> s.HeldIn(q) == HeldIn(q);
        }
        assert p !in Held(i);
        assert s.Held(i) == if i == s.HeldIn(p) then Held(i) + {p} else Held(i);
      }
    }

    lemma CountMore(s: State, p: Ptr, held: seq<int>, n: nat)
      requires HeldIn(p) == -1 && 0 <= s.HeldIn(p) < n && Counts(held, n)
      requires forall q {:trigger s.HeldIn(q)} :: q != p ==> s.HeldIn(q) == HeldIn(q)
      ensures var i := s.HeldIn(p); s.Counts(held[i := held[i] + 1], n)
    {
      HeldMore(s, p);
    }

    lemma CountLess(s: State, p: Ptr, held: seq<int>, n: nat)
      requires s.HeldIn(p) == -1 && 0 <= HeldIn(p) < n && Counts(held, n)
      requires forall q {:trigger s.HeldIn(q)} :: q != p ==> s.HeldIn(q) == HeldIn(q)
      ensures var i := HeldIn(p); s.Counts(held[i := held[i] - 1], n)
    {
      s.HeldMore(this, p);
    }

    lemma HandSettles(config: Config, s: State, t: int, op: Op, ps: set<Ptr>)
      requires Valid(config) && 0 <= t < |threads| && s.Changed(this, ps)
      requires s.threads == threads[t := threads[t].(op := op)]
      requires !op.Draining? && s.GoodOp(t, config)
      requires op.Holding? || op.Returning? ==> s.At(op.p, InHand(t))
      requires forall p {:trigger where[p]} :: p in ps && p in where ==> where[p] == Client || where[p] == InHand(t)
      ensures s.Settled(this, config, t)
    {
      Facts(config, t);
      hide There, Owned, HeadOk, Slots, GoodOp;
      forall q {:trigger where[q]} | q in where && where[q] != Client && where[q] != InHand(t)
        ensures s.At(q, where[q])
      {
        assert q in where.Keys - ps;
      }
    }

    // A step of thread `t` that puts a block into its hand, takes it out of its hand, or neither.
    lemma HandStep(config: Config, s: State, t: int, op: Op, ps: set<Ptr>)
      requires Valid(config) && 0 <= t < |threads| && s.Changed(this, ps)
      requires s.slots == slots && s.threads == threads[t := threads[t].(op := op)]
      requires threads[t].op.Draining? ==> threads[t].op.at == |threads[t].op.tmp|
      requires threads[t].op.Holding? || threads[t].op.Returning? ==> ps == {threads[t].op.p}
      requires !op.Draining? && s.GoodOp(t, config)
      requires op.Holding? || op.Returning? ==> s.At(op.p, InHand(t))
      requires forall p {:trigger where[p]} :: p in ps && p in where ==> where[p] == Client || where[p] == InHand(t)
      ensures s.Settled(this, config, t) && s.Still(this, t, t, ps) && s.SameSlots(this, t, t)
    {
      HandSettles(config, s, t, op, ps);
      hide Recorded, Owned, HeadOk, GoodOp, Settled, Changed, Slots;
      forall q {:trigger where[q]} | q in where && q !in ps && where[q] != Client && !Elsewhere(q, t, t)
        ensures s.Lies(q, where[q]) && !where[q].InHand?
      {
        assert There(q);
      }
    }

    lemma OthersHeld(s: State, ps: set<Ptr>, q: Ptr)
      requires s.Changed(this, ps) && where.Keys == heads.Keys && q !in ps
      ensures s.HeldIn(q) == HeldIn(q)
    {
      assert q in s.where.Keys <==> q in (where.Keys - ps);
    }

    // What a step keeps when it moves the blocks `ps` and no client gets or gives one.
    lemma SameHeld(s: State, ps: set<Ptr>, held: seq<int>, n: nat)
      requires Counts(held, n) && s.Changed(this, ps) && where.Keys == heads.Keys
      requires forall p {:trigger s.HeldIn(p)} :: p in ps ==> s.HeldIn(p) == HeldIn(p)
      ensures s.Counts(held, n)
    {
      forall q {:trigger s.HeldIn(q)} ensures s.HeldIn(q) == HeldIn(q) {
        if q !in ps {
          OthersHeld(s, ps, q);
        }
      }
      SameCounts(s, held, n);
    }

    lemma AllOthersHeld(s: State, p: Ptr)
      requires s.Changed(this, {p}) && where.Keys == heads.Keys
      ensures forall q {:trigger s.HeldIn(q)} :: q != p ==> s.HeldIn(q) == HeldIn(q)
    {
      hide HeldIn, Changed;
      forall q {:trigger s.HeldIn(q)} | q != p ensures s.HeldIn(q) == HeldIn(q) {
        OthersHeld(s, {p}, q);
      }
    }

    // A thread only changes what it is about to do.
    lemma OpKeeps(config: Config, s: State, t: int, op: Op, held: seq<int>)
      requires Valid(config) && 0 <= t < |threads| && Counts(held, config.count)
      requires || (threads[t].op == Idle && op.Wanting? && op.index < config.count && op.index >= 0)
               || (threads[t].op.Draining? && threads[t].op.at == |threads[t].op.tmp| && op == Wanting(threads[t].op.index))
      requires s == State(threads[t := threads[t].(op := op)], slots, heads, where)
      ensures s.Valid(config) && s.Counts(held, config.count)
    {
      Facts(config, t);
      hide There, Owned, HeadOk, Recorded, Settled, Elsewhere, State.Valid, Still, SameSlots, Held, HeldIn;
      HandStep(config, s, t, op, {});
      MoveKeeps(s, config, t, t, {});
      SameHeld(s, {}, held, config.count);
    }

    // A step that concerns no thread.
    lemma NoThread(s: State, config: Config, ps: set<Ptr>)
      requires Valid(config) && s.threads == threads && s.slots == slots
      requires forall p {:trigger where[p]} :: p in ps && p in where ==> where[p] == Client
      ensures s.Still(this, -1, -1, ps) && s.SameSlots(this, -1, -1)
      ensures forall p {:trigger where[p]} :: p in ps && p in where ==> !Elsewhere(p, -1, -1)
    {
      hide Recorded, Owned, HeadOk;
      assert forall q {:trigger where[q]} :: q in where ==> There(q);
    }

    // An oversized block for a client.
    lemma OversizedKeeps(config: Config, s: State, p: Ptr, h: Head, held: seq<int>)
      requires Valid(config) && Counts(held, config.count) && p !in heads && h.index == -1
      requires s == State(threads, slots, heads[p := h], where[p := Client])
      ensures s.Valid(config) && s.Counts(held, config.count)
    {
      KeysFacts(config);
      NoThread(s, config, {p});
      assert s.HeldIn(p) == HeldIn(p);
      assert s.There(p) && s.Owned(p, config.count) && s.HeadOk(p, config);
      hide There, Owned, HeadOk, Recorded, Elsewhere, State.Valid, Still, SameSlots, Held, HeldIn;
      MoveKeeps(s, config, -1, -1, {p});
      SameHeld(s, {p}, held, config.count);
    }

    // A fresh block in hand.
    lemma FreshKeeps(config: Config, s: State, t: int, p: Ptr, h: Head, held: seq<int>)
      requires Valid(config) && 0 <= t < |threads| && Counts(held, config.count) && p !in heads
      requires threads[t].op == Wanting(h.index) && 0 <= h.index < config.count && h.cap == config.Size(h.index)
      requires s == State(threads[t := threads[t].(op := Holding(h.index, p))], slots, heads[p := h], where[p := InHand(t)])
      ensures s.Valid(config) && s.Counts(held, config.count)
    {
      KeysFacts(config);
      assert s.HeldIn(p) == HeldIn(p);
      assert s.There(p) && s.Owned(p, config.count) && s.HeadOk(p, config);
      hide There, Owned, HeadOk, Recorded, Settled, Elsewhere, State.Valid, Still, SameSlots, Held, HeldIn;
      HandStep(config, s, t, Holding(h.index, p), {p});
      MoveKeeps(s, config, t, t, {p});
      SameHeld(s, {p}, held, config.count);
    }

    ghost predicate Delivering(config: Config, s: State, t: int, p: Ptr, i: int) {
      && Valid(config) && 0 <= t < |threads| && threads[t].op == Holding(i, p)
      && s == State(threads[t := threads[t].(op := Idle)], slots, heads, where[p := Client])
    }

    lemma DeliverFacts(config: Config, s: State, t: int, p: Ptr, i: int)
      requires Delivering(config, s, t, p, i)
      ensures 0 <= i < config.count && p in where && p in heads && where[p] == InHand(t) && heads[p].index == i
      ensures s.There(p) && s.Owned(p, config.count) && s.HeadOk(p, config)
      ensures HeldIn(p) == -1 && s.HeldIn(p) == i && where.Keys == heads.Keys
    {
      Facts(config, t);
    }

    // A block in hand goes to a client.
    lemma DeliverKeeps(config: Config, s: State, t: int, p: Ptr, i: int, held: seq<int>)
      requires Counts(held, config.count) && Delivering(config, s, t, p, i)
      ensures 0 <= i < |held| && p in where && p in heads && where[p] == InHand(t) && heads[p].index == i
      ensures s.Valid(config) && s.Counts(held[i := held[i] + 1], config.count)
    {
      DeliverFacts(config, s, t, p, i);
      hide There, Owned, HeadOk, Recorded, Settled, State.Valid, Still, SameSlots, Held, HeldIn;
      HandStep(config, s, t, Idle, {p});
      MoveKeeps(s, config, t, t, {p});
      AllOthersHeld(s, p);
      CountMore(s, p, held, config.count);
    }

    lemma ReturnFacts(config: Config, s: State, t: int, p: Ptr)
      requires Valid(config) && 0 <= t < |threads| && p in where && p in heads && where[p] == Client && heads[p].index != -1
      requires s.threads == threads[t := threads[t].(op := Returning(p))] && s.slots == slots && s.heads == heads
      requires s.where == where[p := InHand(t)]
      ensures 0 <= heads[p].index < config.count && where.Keys == heads.Keys
      ensures s.There(p) && s.Owned(p, config.count) && s.HeadOk(p, config)
      ensures s.HeldIn(p) == -1 && HeldIn(p) == heads[p].index
    {
      assert HeadOk(p, config);
      hide Recorded, Slots, GoodOp;
    }

    // A client's block is taken back.
    lemma ReturnKeeps(config: Config, s: State, t: int, p: Ptr, held: seq<int>)
      requires Valid(config) && 0 <= t < |threads| && Counts(held, config.count) && threads[t].op == Idle
      requires p in where && p in heads && where[p] == Client && heads[p].index != -1
      requires s == State(threads[t := threads[t].(op := Returning(p))], slots, heads, where[p := InHand(t)])
      ensures 0 <= heads[p].index < |held|
      ensures s.Valid(config) && s.Counts(held[heads[p].index := held[heads[p].index] - 1], config.count)
    {
      ReturnFacts(config, s, t, p);
      hide There, Owned, HeadOk, Recorded, Settled, State.Valid, Still, SameSlots, Held, HeldIn;
      HandStep(config, s, t, Returning(p), {p});
      MoveKeeps(s, config, t, t, {p});
      AllOthersHeld(s, p);
      CountLess(s, p, held, config.count);
    }

    // A client's oversized block is deleted.
    lemma DeleteKeeps(config: Config, s: State, p: Ptr, held: seq<int>)
      requires Valid(config) && Counts(held, config.count) && p in where && p in heads
      requires where[p] == Client && heads[p].index == -1 && s == State(threads, slots, heads - {p}, where - {p})
      ensures s.Valid(config) && s.Counts(held, config.count)
    {
      KeysFacts(config);
      NoThread(s, config, {p});
      assert s.HeldIn(p) == HeldIn(p);
      hide There, Owned, HeadOk, Recorded, Elsewhere, State.Valid, Still, SameSlots, Held, HeldIn;
      MoveKeeps(s, config, -1, -1, {p});
      SameHeld(s, {p}, held, config.count);
    }

    // A block in hand whose owner is unknown is deleted.
    lemma DropKeeps(config: Config, s: State, t: int, p: Ptr, held: seq<int>)
      requires Valid(config) && 0 <= t < |threads| && Counts(held, config.count) && p in where && p in heads
      requires threads[t].op == Returning(p)
      requires s == State(threads[t := threads[t].(op := Idle)], slots, heads - {p}, where - {p})
      ensures s.Valid(config) && s.Counts(held, config.count)
    {
      HandFacts(config, t);
      KeysFacts(config);
      assert s.HeldIn(p) == HeldIn(p);
      hide There, Owned, HeadOk, Recorded, Settled, State.Valid, Still, SameSlots, Held, HeldIn;
      HandStep(config, s, t, Idle, {p});
      MoveKeeps(s, config, t, t, {p});
      SameHeld(s, {p}, held, config.count);
    }

    ghost predicate TakingOver(config: Config, s: State, t: int) {
      && Valid(config) && 0 <= t < |threads| && threads[t].op.Wanting?
      && s.slots == slots && s.heads == heads
      && var th := threads[t];
         && s.threads == threads[t := th.(pending := [], hasPending := false, op := Draining(th.op.index, th.pending, 0))]
         && s.where == map p | p in where :: if where[p].Pending? && where[p].t == t then InDrain(t, where[p].k) else where[p]
    }

    lemma DrainSettles(config: Config, s: State, t: int)
      requires TakingOver(config, s, t)
      ensures s.Settled(this, config, t) && s.SameSlots(this, t, t)
    {
      hide There, Owned, HeadOk, Slots;
      Facts(config, t);
    }

    lemma DrainMovesOne(config: Config, s: State, t: int, q: Ptr)
      requires TakingOver(config, s, t) && q in where && !Elsewhere(q, t, t)
      ensures q in heads && s.There(q) && s.Owned(q, config.count)
    {
      hide Recorded, HeadOk, GoodOp, Slots;
      assert There(q) && Owned(q, config.count);
    }

    lemma DrainMoves(config: Config, s: State, t: int)
      requires TakingOver(config, s, t)
      ensures s.Moved(this, config, t, t)
    {
      KeysFacts(config);
      forall q {:trigger s.heads[q]} | q in s.heads ensures s.HeadOk(q, config) {
        SameHead(s, config, q);
      }
      hide State.Valid, There, Owned, HeadOk;
      forall q {:trigger s.where[q]} | q in s.where && !Elsewhere(q, t, t) ensures s.There(q) && s.Owned(q, config.count) {
        DrainMovesOne(config, s, t, q);
      }
    }

    // What waited in the pending queue is taken over as a whole.
    lemma DrainKeeps(config: Config, s: State, t: int, held: seq<int>)
      requires Counts(held, config.count) && TakingOver(config, s, t)
      ensures s.Valid(config) && s.Counts(held, config.count)
    {
      hide There, Owned, HeadOk, Recorded, Settled, Moved, State.Valid, SameSlots;
      DrainSettles(config, s, t);
      DrainMoves(config, s, t);
      assert s.Valid(config) by {
        StepKeeps(s, config, t, t);
      }
      assert s.Counts(held, config.count) by {
        SameCounts(s, held, config.count);
      }
    }

    ghost predicate Caching(config: Config, s: State, t: int, p: Ptr, op: Op) {
      && Valid(config) && 0 <= t < |threads| && p in heads && 0 <= heads[p].index < config.count
      && heads[p].slot == threads[t].slot >= 0
      && (|| (threads[t].op == Returning(p) && op == Idle)
          || (threads[t].op.Draining? && 0 <= threads[t].op.at < |threads[t].op.tmp|
              && threads[t].op.tmp[threads[t].op.at] == p && op == threads[t].op.(at := threads[t].op.at + 1)))
      && |threads[t].local| == config.count
      && var th, i := threads[t], heads[p].index;
         s == State(threads[t := th.(local := th.local[i := th.local[i] + [p]], op := op)], slots, heads,
                    where[p := Cached(t, i, |th.local[i]|)])
    }

    lemma CachingAt(config: Config, s: State, t: int, p: Ptr, op: Op)
      requires Caching(config, s, t, p, op)
      ensures p in where && where[p] == if threads[t].op.Returning? then InHand(t) else InDrain(t, threads[t].op.at)
      ensures where.Keys == heads.Keys && s.Changed(this, {p}) && !Elsewhere(p, t, t) && s.HeldIn(p) == HeldIn(p)
      ensures s.There(p) && s.Owned(p, config.count) && s.HeadOk(p, config)
    {
      Facts(config, t);
    }

    lemma CacheSettles(config: Config, s: State, t: int, p: Ptr, op: Op)
      requires Caching(config, s, t, p, op)
      ensures s.Settled(this, config, t) && s.SameSlots(this, t, t)
    {
      CachingAt(config, s, t, p, op);
      hide There, Owned, HeadOk, Slots;
      Facts(config, t);
    }

    lemma CacheStill(config: Config, s: State, t: int, p: Ptr, op: Op)
      requires Caching(config, s, t, p, op)
      ensures s.Still(this, t, t, {p})
    {
      hide Recorded, Owned, HeadOk, Slots;
      forall q {:trigger where[q]} | q in where && q != p && where[q] != Client && !Elsewhere(q, t, t)
        ensures s.Lies(q, where[q]) && !where[q].InHand?
      {
        assert There(q);
      }
    }

    // A block at hand goes to the back of its bucket.
    lemma CacheKeeps(config: Config, s: State, t: int, p: Ptr, op: Op, held: seq<int>)
      requires Counts(held, config.count) && Caching(config, s, t, p, op)
      ensures s.Valid(config) && s.Counts(held, config.count)
    {
      CacheSettles(config, s, t, p, op);
      CacheStill(config, s, t, p, op);
      CachingAt(config, s, t, p, op);
      hide There, Owned, HeadOk, Recorded, Settled, Elsewhere, State.Valid, Still, SameSlots, Held, HeldIn, Changed;
      MoveKeeps(s, config, t, t, {p});
      SameHeld(s, {p}, held, config.count);
    }

    // The last block of a bucket leaves its cache, for good or for the hand of the thread.
    ghost predicate Popping(config: Config, s: State, t: int, i: int, p: Ptr, op: Op) {
      && Valid(config) && 0 <= t < |threads| && 0 <= i < config.count == |threads[t].local| && threads[t].local[i] != []
      && var th := threads[t];
         var last := |th.local[i]| - 1;
         && p == th.local[i][last]
         && s.threads == threads[t := th.(local := th.local[i := th.local[i][..last]], op := op)] && s.slots == slots
         && s.Changed(this, {p})
         && (|| (op == th.op && p !in s.where)
             || (th.op.Wanting? && op == Holding(i, p) && s.At(p, InHand(t))))
    }

    lemma PoppingAt(config: Config, s: State, t: int, i: int, p: Ptr, op: Op)
      requires Popping(config, s, t, i, p, op)
      ensures p in heads && p in where && where[p] == Cached(t, i, |threads[t].local[i]| - 1) && heads[p].index == i
      ensures heads[p].cap == config.Size(i) && where.Keys == heads.Keys
    {
      BucketFacts(config, t, i);
      KeysFacts(config);
      assert Owned(p, config.count);
    }

    lemma PopSettles(config: Config, s: State, t: int, i: int, p: Ptr, op: Op)
      requires Popping(config, s, t, i, p, op)
      ensures s.Settled(this, config, t) && s.SameSlots(this, t, t)
    {
      PoppingAt(config, s, t, i, p, op);
      Facts(config, t);
      hide There, Owned, HeadOk, Slots;
      forall q {:trigger where[q]} | q in where && q != p ensures s.At(q, where[q]) {
        assert q in where.Keys - {p};
      }
    }

    lemma PopStill(config: Config, s: State, t: int, i: int, p: Ptr, op: Op)
      requires Popping(config, s, t, i, p, op)
      ensures s.Still(this, t, t, {p})
    {
      hide Recorded, Owned, HeadOk, Slots;
      forall q {:trigger where[q]} | q in where && q != p && where[q] != Client && !Elsewhere(q, t, t)
        ensures s.Lies(q, where[q]) && (where[q].InHand? ==> s.threads[where[q].t].op == threads[where[q].t].op)
      {
        assert There(q);
      }
    }

    lemma PopFacts(config: Config, s: State, t: int, i: int, p: Ptr)
      requires Valid(config) && 0 <= t < |threads| && 0 <= i < config.count == |threads[t].local|
      requires threads[t].local[i] != []
      requires p == threads[t].local[i][|threads[t].local[i]| - 1]
      requires var th := threads[t]; var last := |th.local[i]| - 1;
               s == State(threads[t := th.(local := th.local[i := th.local[i][..last]])], slots, heads - {p}, where - {p})
      ensures Popping(config, s, t, i, p, threads[t].op) && s.HeldIn(p) == HeldIn(p)
    {
      KeysFacts(config);
      BucketFacts(config, t, i);
      hide State.Valid;
    }

    // The last block of a bucket is deleted.
    lemma PopKeeps(config: Config, s: State, t: int, i: int, held: seq<int>)
      requires Counts(held, config.count)
      requires Valid(config) && 0 <= t < |threads| && 0 <= i < config.count == |threads[t].local|
      requires threads[t].local[i] != []
      requires var th := threads[t]; var last := |th.local[i]| - 1; var p := th.local[i][last];
               s == State(threads[t := th.(local := th.local[i := th.local[i][..last]])], slots, heads - {p}, where - {p})
      ensures s.Valid(config) && s.Counts(held, config.count)
    {
      var p, op := threads[t].local[i][|threads[t].local[i]| - 1], threads[t].op;
      PopFacts(config, s, t, i, p);
      PoppingAt(config, s, t, i, p, op);
      PopSettles(config, s, t, i, p, op);
      PopStill(config, s, t, i, p, op);
      hide Popping, There, Owned, HeadOk, Recorded, Settled, State.Valid, Still, SameSlots, Held, HeldIn;
      MoveKeeps(s, config, t, t, {p});
      SameHeld(s, {p}, held, config.count);
    }

    ghost predicate Picking(config: Config, s: State, t: int, i: int) {
      && Valid(config) && 0 <= t < |threads| && 0 <= i < config.count == |threads[t].local|
      && threads[t].local[i] != [] && threads[t].op == Wanting(i)
      && var th := threads[t];
         var last := |th.local[i]| - 1;
         var p := th.local[i][last];
         s == State(threads[t := th.(local := th.local[i := th.local[i][..last]], op := Holding(i, p))], slots, heads,
                    where[p := InHand(t)])
    }

    lemma TakeFacts(config: Config, s: State, t: int, i: int, p: Ptr)
      requires Picking(config, s, t, i) && p == threads[t].local[i][|threads[t].local[i]| - 1]
      ensures Popping(config, s, t, i, p, Holding(i, p)) && s.HeldIn(p) == HeldIn(p)
      ensures p in s.heads && s.There(p) && s.Owned(p, config.count) && s.HeadOk(p, config)
    {
      KeysFacts(config);
      BucketFacts(config, t, i);
      assert Owned(p, config.count) && HeadOk(p, config);
      hide State.Valid;
    }

    // The last block of a bucket is taken in hand.
    lemma TakeKeeps(config: Config, s: State, t: int, i: int, held: seq<int>)
      requires Counts(held, config.count) && Picking(config, s, t, i)
      ensures s.Valid(config) && s.Counts(held, config.count)
    {
      var p := threads[t].local[i][|threads[t].local[i]| - 1];
      TakeFacts(config, s, t, i, p);
      PoppingAt(config, s, t, i, p, Holding(i, p));
      PopSettles(config, s, t, i, p, Holding(i, p));
      PopStill(config, s, t, i, p, Holding(i, p));
      hide Popping, There, Owned, HeadOk, Recorded, Settled, State.Valid, Still, SameSlots, Held, HeldIn;
      MoveKeeps(s, config, t, t, {p});
      SameHeld(s, {p}, held, config.count);
    }

    ghost predicate Giving(config: Config, s: State, t: int, o: int, p: Ptr) {
      && Valid(config) && 0 <= t < |threads| && p in heads && threads[t].op == Returning(p)
      && 0 <= heads[p].slot < MAX_THREADS && |slots| == MAX_THREADS && slots[heads[p].slot] == o && 0 <= o < |threads|
      && var ts := threads[t := threads[t].(op := Idle)];
         s == State(ts[o := ts[o].(pending := ts[o].pending + [p], hasPending := true)], slots, heads,
                    where[p := Pending(o, |ts[o].pending|)])
    }

    lemma GivingAt(config: Config, s: State, t: int, o: int, p: Ptr)
      requires Giving(config, s, t, o, p)
      ensures p in where && where[p] == InHand(t) && where.Keys == heads.Keys && s.Changed(this, {p})
      ensures s.There(p) && s.Owned(p, config.count) && s.HeadOk(p, config) && s.HeldIn(p) == HeldIn(p)
      ensures s.SameSlots(this, t, o)
    {
      HandFacts(config, t);
      Facts(config, t);
      assert threads[o].slot == heads[p].slot;
    }

    lemma GiveSettles(config: Config, s: State, t: int, o: int, p: Ptr, u: int)
      requires Giving(config, s, t, o, p) && (u == t || u == o)
      ensures s.Settled(this, config, u)
    {
      hide There, Owned, HeadOk, Slots;
      Facts(config, t);
      Facts(config, u);
    }

    lemma GiveStill(config: Config, s: State, t: int, o: int, p: Ptr)
      requires Giving(config, s, t, o, p)
      ensures s.Still(this, t, o, {p})
    {
      hide Recorded, Owned, HeadOk, Slots;
      forall q {:trigger where[q]} | q in where && q != p && where[q] != Client && !Elsewhere(q, t, o)
        ensures s.Lies(q, where[q]) && (where[q].InHand? ==> s.threads[where[q].t].op == threads[where[q].t].op)
      {
        assert There(q);
      }
    }

    // A block goes to the back of its owner's pending queue.
    lemma GiveKeeps(config: Config, s: State, t: int, o: int, p: Ptr, held: seq<int>)
      requires Counts(held, config.count) && Giving(config, s, t, o, p)
      ensures s.Valid(config) && s.Counts(held, config.count)
    {
      GiveSettles(config, s, t, o, p, t);
      GiveSettles(config, s, t, o, p, o);
      GiveStill(config, s, t, o, p);
      GivingAt(config, s, t, o, p);
      hide There, Owned, HeadOk, Recorded, Settled, State.Valid, Still, SameSlots, Held, HeldIn, Changed;
      MoveKeeps(s, config, t, o, {p});
      SameHeld(s, {p}, held, config.count);
    }
  }
}
