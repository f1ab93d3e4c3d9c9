// The steps of the threads of the buffer pool as relations between states, and what holds over any run of them.

module PoolSteps {
  import opened PoolState

  // The steps a scheduler can choose from, each with the thread that takes it.
  datatype Step =
    | Enter(t: int)
    | Malloc(t: int, bytes: int, block: Ptr)
    | Swap(t: int, noticed: bool)
    | Next(t: int)
    | Cut(t: int, i: int)
    | Drained(t: int)
    | Pick(t: int, block: Ptr)
    | Hand(t: int)
    | Free(t: int, p: Ptr)
    | GiveBack(t: int)

  // What a step hands to its client or takes from it.
  datatype Answer = Given(p: Ptr) | Taken(p: Ptr) | Nothing

  // Whether the thread is where it can take the step. New blocks get addresses no live block has, and a client
  // gives back only what it holds.
  predicate Ready(threads: seq<Thread>, heads: map<Ptr, Head>, clients: set<Ptr>, count: nat, step: Step) {
    && 0 <= step.t < |threads|
    && var op := threads[step.t].op;
       match step
       case Enter(_) => op == Idle
       case Malloc(_, _, block) => op == Idle && block !in heads && block >= 0
       case Swap(t, noticed) => op.Wanting? && (noticed ==> threads[t].hasPending)
       case Next(_) => op.Draining? && op.at < |op.tmp|
       case Cut(_, i) => op.Draining? && op.at == |op.tmp| && 0 <= i < count
       case Drained(_) => op.Draining? && op.at == |op.tmp|
       case Pick(_, block) => op.Wanting? && block !in heads
       case Hand(_) => op.Holding?
       case Free(_, p) => op == Idle && p in clients
       case GiveBack(_) => op.Returning?
  }

  function Members(s: seq<Ptr>): set<Ptr> {
    set p | p in s
  }

  datatype World = World(pool: State, slotNext: int, held: seq<int>) {
    // What holds between any two steps of any threads.
    ghost predicate Valid(config: Config) {
      && pool.Valid(config)
      && pool.Counts(held, config.count)
      && 0 <= slotNext <= MAX_THREADS
      && (forall s {:trigger pool.slots[s]} :: slotNext <= s < MAX_THREADS ==> pool.slots[s] == -1)
    }

    // The blocks clients hold.
    ghost function Clients(): set<Ptr> {
      set p | p in pool.where && pool.where[p] == Client
    }

    // Whether the step can be taken.
    ghost predicate Can(config: Config, step: Step) {
      Ready(pool.threads, pool.heads, Clients(), config.count, step)
    }

    // Only the record of thread `t` differs.
    function With(t: int, th: Thread): World
      requires 0 <= t < |pool.threads|
    {
      this.(pool := pool.(threads := pool.threads[t := th]))
    }

    // A thread takes the next slot, unless it has one or there is none.
    ghost predicate Enters(t: int, w: World)
      requires 0 <= t < |pool.threads|
    {
      var th := pool.threads[t];
      if th.slot < 0 && slotNext < MAX_THREADS then
        && 0 <= slotNext < |pool.slots|
        && w == World(pool.(threads := pool.threads[t := th.(slot := slotNext)], slots := pool.slots[slotNext := t]),
                      slotNext + 1, held)
      else w == this
    }

    // A request for no bytes is over; a pooled one sets out for the smallest bucket that fits; an oversized one
    // gets a new block at once.
    ghost predicate Mallocs(config: Config, t: int, bytes: int, block: Ptr, answer: Answer, w: World)
      requires 0 <= t < |pool.threads|
    {
      var th := pool.threads[t];
      if bytes <= 0 then w == this && answer == Nothing
      else if config.BucketOf(bytes) < config.count then
        w == With(t, th.(op := Wanting(config.BucketOf(bytes)))) && answer == Nothing
      else
        && w == this.(pool := pool.(heads := pool.heads[block := Head(-1, th.slot, bytes)],
                                    where := pool.where[block := Client]))
        && answer == Given(block)
    }

    // The thread takes over its pending queue, if it notices the flag.
    ghost predicate Swaps(t: int, noticed: bool, w: World)
      requires 0 <= t < |pool.threads| && pool.threads[t].op.Wanting?
    {
      var th := pool.threads[t];
      if !noticed then w == this
      else
        w == this.(pool := pool.(
                     threads := pool.threads[t := th.(pending := [], hasPending := false,
                                                      op := Draining(th.op.index, th.pending, 0))],
                     where := map p | p in pool.where ::
                                if pool.where[p].Pending? && pool.where[p].t == t then InDrain(t, pool.where[p].k)
                                else pool.where[p]))
    }

    // The next block taken over goes to the back of the bucket its header names.
    ghost predicate Nexts(t: int, w: World)
      requires 0 <= t < |pool.threads| && pool.threads[t].op.Draining? && pool.threads[t].op.at < |pool.threads[t].op.tmp|
    {
      var th := pool.threads[t];
      var p := th.op.tmp[th.op.at];
      && p in pool.heads
      && var i := pool.heads[p].index;
         && 0 <= i < |th.local|
         && w == this.(pool := pool.(
                         threads := pool.threads[t := th.(local := th.local[i := th.local[i] + [p]],
                                                          op := th.op.(at := th.op.at + 1))],
                         where := pool.where[p := Cached(t, i, |th.local[i]|)]))
    }

    // Only the first `n` blocks of a bucket are left.
    ghost predicate CutTo(t: int, i: int, n: int, w: World)
      requires 0 <= t < |pool.threads| && 0 <= i < |pool.threads[t].local| && 0 <= n <= |pool.threads[t].local[i]|
    {
      var th := pool.threads[t];
      var gone := Members(th.local[i][n..]);
      w == this.(pool := pool.(threads := pool.threads[t := th.(local := th.local[i := th.local[i][..n]])],
                               heads := pool.heads - gone, where := pool.where - gone))
    }

    // A bucket of more than three times what clients hold is cut to twice that, from the back.
    ghost predicate Cuts(t: int, i: int, w: World)
      requires 0 <= t < |pool.threads|
    {
      && 0 <= i < |pool.threads[t].local| == |held|
      && var n := |pool.threads[t].local[i]|;
         CutTo(t, i, if n > 3 * held[i] && held[i] > 0 then 2 * held[i] else n, w)
    }

    lemma CutNone(t: int, i: int)
      requires 0 <= t < |pool.threads| && 0 <= i < |pool.threads[t].local|
      ensures CutTo(t, i, |pool.threads[t].local[i]|, this)
    {
      var th, bucket := pool.threads[t], pool.threads[t].local[i];
      assert bucket[..|bucket|] == bucket && bucket[|bucket|..] == [];
      assert th.local[i := bucket] == th.local;
      assert pool.threads[t := th] == pool.threads;
      assert pool.heads - {} == pool.heads && pool.where - {} == pool.where;
    }

    lemma CutLocal(t: int, i: int, n: int, w: World)
      requires 0 <= t < |pool.threads| && 0 <= i < |pool.threads[t].local| && 0 <= n <= |pool.threads[t].local[i]|
      requires CutTo(t, i, n, w)
      ensures |w.pool.threads| == |pool.threads|
      ensures w.pool.threads[t].local == pool.threads[t].local[i := pool.threads[t].local[i][..n]]
    {
    }

    // One more block is cut off.
    ghost predicate CutsLast(t: int, i: int, w: World)
      requires 0 <= t < |pool.threads| && 0 <= i < |pool.threads[t].local| && pool.threads[t].local[i] != []
    {
      var th := pool.threads[t];
      var last := |th.local[i]| - 1;
      var p := th.local[i][last];
      w == this.(pool := pool.(threads := pool.threads[t := th.(local := th.local[i := th.local[i][..last]])],
                               heads := pool.heads - {p}, where := pool.where - {p}))
    }

    lemma CutOne(t: int, i: int, n: int, w: World, w': World)
      requires 0 <= t < |pool.threads| && 0 <= i < |pool.threads[t].local| && 1 <= n <= |pool.threads[t].local[i]|
      requires CutTo(t, i, n, w) && w.CutsLast(t, i, w')
      ensures CutTo(t, i, n - 1, w')
    {
      var th, bucket := pool.threads[t], pool.threads[t].local[i];
      var gone, p := Members(bucket[n..]), bucket[n - 1];
      assert bucket[n - 1..] == [p] + bucket[n..];
      assert Members(bucket[n - 1..]) == gone + {p};
      assert bucket[..n][..n - 1] == bucket[..n - 1] && bucket[..n][n - 1] == p;
      var local := th.local[i := bucket[..n]];
      assert local[i := bucket[..n - 1]] == th.local[i := bucket[..n - 1]];
      assert w.pool.threads[t] == th.(local := local);
      assert w'.pool.threads == pool.threads[t := th.(local := th.local[i := bucket[..n - 1]])];
      assert pool.heads - gone - {p} == pool.heads - (gone + {p});
      assert pool.where - gone - {p} == pool.where - (gone + {p});
    }

    ghost predicate Finishes(t: int, w: World)
      requires 0 <= t < |pool.threads| && pool.threads[t].op.Draining?
    {
      w == With(t, pool.threads[t].(op := Wanting(pool.threads[t].op.index)))
    }

    // The thread takes the newest block of the bucket in hand, or a new one.
    ghost predicate Picks(config: Config, t: int, block: Ptr, w: World)
      requires 0 <= t < |pool.threads| && pool.threads[t].op.Wanting?
    {
      var th := pool.threads[t];
      var i := th.op.index;
      && 0 <= i < |th.local|
      && if th.local[i] != [] then
           var last := |th.local[i]| - 1;
           var p := th.local[i][last];
           w == this.(pool := pool.(
                        threads := pool.threads[t := th.(local := th.local[i := th.local[i][..last]], op := Holding(i, p))],
                        where := pool.where[p := InHand(t)]))
         else
           w == this.(pool := pool.(
                        threads := pool.threads[t := th.(op := Holding(i, block))],
                        heads := pool.heads[block := Head(i, th.slot, config.Size(i))],
                        where := pool.where[block := InHand(t)]))
    }

    // The client gets the block in hand, and the bucket's counter goes up.
    ghost predicate Hands(t: int, answer: Answer, w: World)
      requires 0 <= t < |pool.threads| && pool.threads[t].op.Holding?
    {
      var i, p := pool.threads[t].op.index, pool.threads[t].op.p;
      && 0 <= i < |held|
      && w == World(pool.(threads := pool.threads[t := pool.threads[t].(op := Idle)], where := pool.where[p := Client]),
                    slotNext, held[i := held[i] + 1])
      && answer == Given(p)
    }

    // The client gives a block back: an oversized one is deleted, for others the counter goes down.
    ghost predicate Frees(t: int, p: Ptr, answer: Answer, w: World)
      requires 0 <= t < |pool.threads|
    {
      && p in pool.heads && answer == Taken(p)
      && var i := pool.heads[p].index;
         if i == -1 then w == this.(pool := pool.(heads := pool.heads - {p}, where := pool.where - {p}))
         else
           && 0 <= i < |held|
           && w == World(pool.(threads := pool.threads[t := pool.threads[t].(op := Returning(p))],
                               where := pool.where[p := InHand(t)]),
                         slotNext, held[i := held[i] - 1])
    }

    // It goes into the own cache, into the pending queue of the thread at its slot, or is deleted.
    ghost predicate GivesBack(t: int, w: World)
      requires 0 <= t < |pool.threads| && pool.threads[t].op.Returning?
    {
      var th := pool.threads[t];
      var p, idle := th.op.p, pool.threads[t := th.(op := Idle)];
      && p in pool.heads
      && var i, slot := pool.heads[p].index, pool.heads[p].slot;
         if slot >= 0 && slot == th.slot then
           && 0 <= i < |th.local|
           && w == this.(pool := pool.(
                           threads := pool.threads[t := th.(local := th.local[i := th.local[i] + [p]], op := Idle)],
                           where := pool.where[p := Cached(t, i, |th.local[i]|)]))
         else if 0 <= slot < |pool.slots| && pool.slots[slot] != -1 then
           var o := pool.slots[slot];
           && 0 <= o < |idle|
           && w == this.(pool := pool.(
                           threads := idle[o := idle[o].(pending := idle[o].pending + [p], hasPending := true)],
                           where := pool.where[p := Pending(o, |idle[o].pending|)]))
         else w == this.(pool := pool.(threads := idle, heads := pool.heads - {p}, where := pool.where - {p}))
    }

    // The steps inside malloc and free.
    ghost predicate Inside(config: Config, step: Step, w: World)
      requires Can(config, step)
    {
      match step
      case Enter(t) => Enters(t, w)
      case Swap(t, noticed) => Swaps(t, noticed, w)
      case Next(t) => Nexts(t, w)
      case Cut(t, i) => Cuts(t, i, w)
      case Drained(t) => Finishes(t, w)
      case Pick(t, block) => Picks(config, t, block, w)
      case GiveBack(t) => GivesBack(t, w)
      case _ => false
    }

    // One step, to the state `w`. One that cannot be taken does nothing.
    ghost predicate Does(config: Config, step: Step, answer: Answer, w: World) {
      if !Can(config, step) then w == this && answer == Nothing
      else
        match step
        case Malloc(t, bytes, block) => Mallocs(config, t, bytes, block, answer, w)
        case Hand(t) => Hands(t, answer, w)
        case Free(t, p) => Frees(t, p, answer, w)
        case _ => answer == Nothing && Inside(config, step, w)
    }
  }

  // ---------- runs ----------

  // Any interleaving of the threads' steps.
  ghost predicate Runs(config: Config, ws: seq<World>, steps: seq<Step>, answers: seq<Answer>) {
    && |ws| == |steps| + 1 && |answers| == |steps|
    && (forall i :: 0 <= i < |ws| ==> ws[i].Valid(config))
    && (forall i :: 0 <= i < |steps| ==> ws[i].Does(config, steps[i], answers[i], ws[i + 1]))
  }

  lemma RunMore(config: Config, ws: seq<World>, steps: seq<Step>, answers: seq<Answer>, step: Step, answer: Answer, w: World)
    requires Runs(config, ws, steps, answers) && ws[|steps|].Does(config, step, answer, w) && w.Valid(config)
    ensures Runs(config, ws + [w], steps + [step], answers + [answer])
  {
    hide World.Does, World.Valid;
    var ws', steps', answers' := ws + [w], steps + [step], answers + [answer];
    forall i | 0 <= i < |steps'| ensures ws'[i].Does(config, steps'[i], answers'[i], ws'[i + 1]) {
      if i < |steps| {
        assert ws[i].Does(config, steps[i], answers[i], ws[i + 1]);
      }
    }
  }

  // What clients hold after one more answer, and after all of them.
  function HeldAfter(clients: set<Ptr>, answer: Answer): set<Ptr> {
    match answer
    case Given(p) => clients + {p}
    case Taken(p) => clients - {p}
    case Nothing => clients
  }

  function Holders(answers: seq<Answer>): set<Ptr> {
    if answers == [] then {} else HeldAfter(Holders(answers[..|answers| - 1]), answers[|answers| - 1])
  }

  function Gives(answers: seq<Answer>): nat {
    if answers == [] then 0
    else Gives(answers[..|answers| - 1]) + if answers[|answers| - 1].Given? then 1 else 0
  }

  function Takes(answers: seq<Answer>): nat {
    if answers == [] then 0
    else Takes(answers[..|answers| - 1]) + if answers[|answers| - 1].Taken? then 1 else 0
  }

  // What the clients hold changes by the answer only, and the blocks they keep stay the same.
  ghost predicate Accounts(w: World, answer: Answer, w': World) {
    && w'.Clients() == HeldAfter(w.Clients(), answer)
    && (answer.Given? ==> answer.p !in w.Clients() && answer.p in w'.pool.heads)
    && (answer.Taken? ==> answer.p in w.Clients())
    && forall p :: p in w.Clients() && answer != Taken(p) ==>
         p in w.pool.heads && p in w'.pool.heads && w'.pool.heads[p] == w.pool.heads[p]
  }

  ghost predicate SameClients(where: map<Ptr, Place>, where': map<Ptr, Place>) {
    forall p {:trigger p in where} {:trigger p in where'} ::
      p in where && where[p] == Client <==> p in where' && where'[p] == Client
  }

  // The same, when no client is concerned.
  ghost predicate Keeps(heads: map<Ptr, Head>, where: map<Ptr, Place>, heads': map<Ptr, Head>, where': map<Ptr, Place>) {
    && SameClients(where, where')
    && (forall p {:trigger where[p]} :: p in where && where[p] == Client ==> p in heads && p in heads' && heads'[p] == heads[p])
  }

  lemma KeepsAccounts(w: World, w': World)
    requires Keeps(w.pool.heads, w.pool.where, w'.pool.heads, w'.pool.where)
    ensures Accounts(w, Nothing, w')
  {
    assert forall p :: p in w'.Clients() <==> p in w.Clients();
  }

  lemma SameKeeps(heads: map<Ptr, Head>, where: map<Ptr, Place>)
    requires where.Keys == heads.Keys
    ensures Keeps(heads, where, heads, where)
  {
  }

  lemma MoveKeeps(heads: map<Ptr, Head>, where: map<Ptr, Place>, heads': map<Ptr, Head>, p: Ptr, place: Place)
    requires where.Keys == heads.Keys && (p in where ==> where[p] != Client) && place != Client
    requires forall q {:trigger heads[q]} :: q in heads && q != p ==> q in heads' && heads'[q] == heads[q]
    ensures Keeps(heads, where, heads', where[p := place])
  {
    forall q {:trigger where[q]} | q in where && where[q] == Client
      ensures q in heads && q in heads' && heads'[q] == heads[q]
    {
      assert q in where.Keys;
    }
  }

  lemma DropKeeps(heads: map<Ptr, Head>, where: map<Ptr, Place>, gone: set<Ptr>)
    requires where.Keys == heads.Keys && forall p {:trigger where[p]} :: p in gone && p in where ==> where[p] != Client
    ensures Keeps(heads, where, heads - gone, where - gone)
  {
    forall q {:trigger where[q]} | q in where && where[q] == Client ensures q in heads && q in heads - gone {
      assert q in where.Keys;
    }
  }

  lemma CachedAll(config: Config, s: State, t: int, i: int, n: int)
    requires s.Valid(config) && 0 <= t < |s.threads| && 0 <= i < |s.threads[t].local| && 0 <= n <= |s.threads[t].local[i]|
    ensures forall p {:trigger s.where[p]} :: p in Members(s.threads[t].local[i][n..]) && p in s.where ==> s.where[p].Cached?
  {
    s.Facts(config, t);
    var bucket := s.threads[t].local[i];
    hide State.Valid, State.There, State.Owned, State.HeadOk, State.GoodOp;
    forall p {:trigger s.where[p]} | p in Members(bucket[n..]) && p in s.where ensures s.where[p].Cached? {
      var k :| 0 <= k < |bucket[n..]| && bucket[n..][k] == p;
      assert s.At(s.threads[t].local[i][n + k], Cached(t, i, n + k));
    }
  }

  lemma SwapKeeps(heads: map<Ptr, Head>, where: map<Ptr, Place>, t: int)
    requires where.Keys == heads.Keys
    ensures Keeps(heads, where, heads,
                  map p | p in where :: if where[p].Pending? && where[p].t == t then InDrain(t, where[p].k) else where[p])
  {
    forall q {:trigger where[q]} | q in where ensures q in heads {
      assert q in where.Keys;
    }
  }

  lemma PickAccounts(config: Config, w: World, t: int, block: Ptr, w': World)
    requires w.Valid(config) && 0 <= t < |w.pool.threads| && w.pool.threads[t].op.Wanting? && block !in w.pool.heads
    requires w.Picks(config, t, block, w')
    ensures Accounts(w, Nothing, w')
  {
    w.pool.SizeFacts(config, t, w.held);
    var i := w.pool.threads[t].op.index;
    if w.pool.threads[t].local[i] != [] {
      w.pool.BucketFacts(config, t, i);
    }
    hide World.Valid, Keeps, Accounts;
    var p := if w.pool.threads[t].local[i] != [] then w.pool.threads[t].local[i][|w.pool.threads[t].local[i]| - 1] else block;
    assert block !in w.pool.where.Keys;
    MoveKeeps(w.pool.heads, w.pool.where, w'.pool.heads, p, InHand(t));
    KeepsAccounts(w, w');
  }

  lemma GiveAccounts(config: Config, w: World, t: int, w': World)
    requires w.Valid(config) && 0 <= t < |w.pool.threads| && w.pool.threads[t].op.Returning? && w.GivesBack(t, w')
    ensures Accounts(w, Nothing, w')
  {
    w.pool.KeysFacts(config);
    w.pool.HandFacts(config, t);
    hide World.Valid, Keeps, Accounts;
    var heads, where, p := w.pool.heads, w.pool.where, w.pool.threads[t].op.p;
    if p in w'.pool.where {
      assert w'.pool.where == where[p := w'.pool.where[p]];
      MoveKeeps(heads, where, heads, p, w'.pool.where[p]);
    } else {
      DropKeeps(heads, where, {p});
    }
    KeepsAccounts(w, w');
  }

  lemma NextAccounts(config: Config, w: World, t: int, w': World)
    requires w.Valid(config) && w.Can(config, Next(t)) && w.Nexts(t, w')
    ensures Accounts(w, Nothing, w')
  {
    w.pool.KeysFacts(config);
    w.pool.DrainFacts(config, t);
    hide World.Valid, Keeps, Accounts;
    var p := w.pool.threads[t].op.tmp[w.pool.threads[t].op.at];
    MoveKeeps(w.pool.heads, w.pool.where, w.pool.heads, p, w'.pool.where[p]);
    KeepsAccounts(w, w');
  }

  lemma CutAccounts(config: Config, w: World, t: int, i: int, w': World)
    requires w.Valid(config) && 0 <= t < |w.pool.threads| && w.Cuts(t, i, w')
    ensures Accounts(w, Nothing, w')
  {
    w.pool.KeysFacts(config);
    var n := |w.pool.threads[t].local[i]|;
    var m := if n > 3 * w.held[i] && w.held[i] > 0 then 2 * w.held[i] else n;
    CachedAll(config, w.pool, t, i, m);
    hide World.Valid, Keeps, Accounts;
    DropKeeps(w.pool.heads, w.pool.where, Members(w.pool.threads[t].local[i][m..]));
    KeepsAccounts(w, w');
  }

  lemma InsideAccounts(config: Config, w: World, step: Step, w': World)
    requires w.Valid(config) && w.Can(config, step) && w.Inside(config, step, w')
    ensures Accounts(w, Nothing, w')
  {
    hide State.Valid, State.Counts, Keeps, Accounts, World.Nexts, World.Cuts, World.Picks, World.GivesBack;
    w.pool.KeysFacts(config);
    SameKeeps(w.pool.heads, w.pool.where);
    match step
    case Enter(t) => KeepsAccounts(w, w');
    case Swap(t, noticed) =>
      SwapKeeps(w.pool.heads, w.pool.where, t);
      KeepsAccounts(w, w');
    case Next(t) => NextAccounts(config, w, t, w');
    case Cut(t, i) => CutAccounts(config, w, t, i, w');
    case Drained(t) => KeepsAccounts(w, w');
    case Pick(t, block) => PickAccounts(config, w, t, block, w');
    case GiveBack(t) => GiveAccounts(config, w, t, w');
    case _ =>
  }

  lemma ClientsHaveHeads(w: World)
    requires w.pool.where.Keys == w.pool.heads.Keys
    ensures forall p :: p in w.Clients() ==> p in w.pool.heads
  {
    forall p | p in w.Clients() ensures p in w.pool.heads {
      assert p in w.pool.where.Keys;
    }
  }

  lemma GivenAccounts(w: World, p: Ptr, w': World)
    requires w.pool.where.Keys == w.pool.heads.Keys && p !in w.Clients() && p in w'.pool.heads
    requires w'.pool.where == w.pool.where[p := Client]
    requires forall q {:trigger w.pool.heads[q]} :: q in w.pool.heads && q != p ==>
               q in w'.pool.heads && w'.pool.heads[q] == w.pool.heads[q]
    ensures Accounts(w, Given(p), w')
  {
    ClientsHaveHeads(w);
    assert forall q :: q in w'.Clients() <==> q in w.Clients() + {p};
  }

  lemma TakenAccounts(w: World, p: Ptr, place: Place, w': World)
    requires w.pool.where.Keys == w.pool.heads.Keys && p in w.Clients() && place != Client
    requires
      || (w'.pool.where == w.pool.where - {p} && w'.pool.heads == w.pool.heads - {p})
      || (w'.pool.where == w.pool.where[p := place] && w'.pool.heads == w.pool.heads)
    ensures Accounts(w, Taken(p), w')
  {
    ClientsHaveHeads(w);
    assert forall q :: q in w'.Clients() <==> q in w.Clients() - {p};
  }

  lemma MallocAccounts(config: Config, w: World, t: int, bytes: int, block: Ptr, answer: Answer, w': World)
    requires w.Valid(config) && w.Can(config, Malloc(t, bytes, block)) && w.Mallocs(config, t, bytes, block, answer, w')
    ensures Accounts(w, answer, w')
  {
    w.pool.KeysFacts(config);
    hide World.Valid, Accounts, Keeps;
    if answer.Given? {
      assert block !in w.pool.where.Keys;
      GivenAccounts(w, block, w');
    } else {
      SameKeeps(w.pool.heads, w.pool.where);
      KeepsAccounts(w, w');
    }
  }

  lemma HandAccounts(config: Config, w: World, t: int, answer: Answer, w': World)
    requires w.Valid(config) && w.Can(config, Hand(t)) && w.Hands(t, answer, w')
    ensures Accounts(w, answer, w')
  {
    w.pool.KeysFacts(config);
    w.pool.HoldFacts(config, t, w.held);
    hide World.Valid, Accounts;
    GivenAccounts(w, answer.p, w');
  }

  lemma FreeMoves(w: World, t: int, p: Ptr, answer: Answer, w': World)
    requires 0 <= t < |w.pool.threads| && w.Frees(t, p, answer, w')
    ensures answer == Taken(p)
    ensures
      || (w'.pool.where == w.pool.where - {p} && w'.pool.heads == w.pool.heads - {p})
      || (w'.pool.where == w.pool.where[p := InHand(t)] && w'.pool.heads == w.pool.heads)
  {
  }

  lemma FreeAccounts(config: Config, w: World, t: int, p: Ptr, answer: Answer, w': World)
    requires w.Valid(config) && w.Can(config, Free(t, p)) && w.Frees(t, p, answer, w')
    ensures Accounts(w, answer, w')
  {
    w.pool.KeysFacts(config);
    hide World.Valid, World.Clients, Accounts;
    assert p in w.Clients();
    FreeMoves(w, t, p, answer, w');
    hide World.Can, World.Frees;
    TakenAccounts(w, p, InHand(t), w');
  }

  // A step hands out what no client held, takes back what one did, and leaves every other client's block alone.
  lemma StepAccounts(config: Config, w: World, step: Step, answer: Answer, w': World)
    requires w.Valid(config) && w.Does(config, step, answer, w')
    ensures Accounts(w, answer, w')
  {
    w.pool.KeysFacts(config);
    hide World.Valid, World.Inside, World.Mallocs, World.Hands, World.Frees, World.Can;
    if !w.Can(config, step) {
      ClientsHaveHeads(w);
    } else {
      match step
      case Malloc(t, bytes, block) => MallocAccounts(config, w, t, bytes, block, answer, w');
      case Hand(t) => HandAccounts(config, w, t, answer, w');
      case Free(t, p) => FreeAccounts(config, w, t, p, answer, w');
      case _ => InsideAccounts(config, w, step, w');
    }
  }

  lemma RunStep(config: Config, ws: seq<World>, steps: seq<Step>, answers: seq<Answer>, i: nat)
    requires Runs(config, ws, steps, answers) && i < |steps|
    ensures |ws| == |steps| + 1 && |answers| == |steps|
    ensures ws[i].Valid(config) && ws[i].Does(config, steps[i], answers[i], ws[i + 1])
  {
  }

  // Clients hold exactly what the answers so far gave them and did not take back.
  lemma {:induction false} RunHolders(config: Config, ws: seq<World>, steps: seq<Step>, answers: seq<Answer>, i: nat)
    requires Runs(config, ws, steps, answers) && ws[0].Clients() == {} && i <= |steps|
    ensures ws[i].Clients() == Holders(answers[..i])
    decreases i
  {
    hide World.Does, World.Valid, World.Clients;
    if i > 0 {
      RunHolders(config, ws, steps, answers, i - 1);
      RunStep(config, ws, steps, answers, i - 1);
      StepAccounts(config, ws[i - 1], steps[i - 1], answers[i - 1], ws[i]);
      assert answers[..i][..i - 1] == answers[..i - 1];
    }
  }

  // As many distinct blocks as were handed out and not taken back.
  lemma {:induction false} Balance(config: Config, ws: seq<World>, steps: seq<Step>, answers: seq<Answer>, i: nat)
    requires Runs(config, ws, steps, answers) && ws[0].Clients() == {} && i <= |steps|
    ensures |Holders(answers[..i])| == Gives(answers[..i]) - Takes(answers[..i])
    decreases i
  {
    hide World.Does, World.Valid, World.Clients;
    if i > 0 {
      Balance(config, ws, steps, answers, i - 1);
      RunHolders(config, ws, steps, answers, i - 1);
      RunStep(config, ws, steps, answers, i - 1);
      StepAccounts(config, ws[i - 1], steps[i - 1], answers[i - 1], ws[i]);
      hide Runs;
      assert answers[..i][..i - 1] == answers[..i - 1];
    }
  }

  // A block handed out stays that client's, with its size, until it is given back.
  lemma {:induction false} HeldUntilTaken(config: Config, ws: seq<World>, steps: seq<Step>, answers: seq<Answer>,
                                          i: nat, j: nat, p: Ptr)
    requires Runs(config, ws, steps, answers) && i < j <= |steps| && answers[i] == Given(p)
    requires forall k :: i < k < j ==> answers[k] != Taken(p)
    ensures p in ws[j].Clients() && p in ws[i + 1].pool.heads && p in ws[j].pool.heads
    ensures ws[j].pool.heads[p] == ws[i + 1].pool.heads[p]
    decreases j
  {
    hide World.Does, World.Valid, World.Clients, Runs;
    RunStep(config, ws, steps, answers, j - 1);
    StepAccounts(config, ws[j - 1], steps[j - 1], answers[j - 1], ws[j]);
    if i < j - 1 {
      HeldUntilTaken(config, ws, steps, answers, i, j - 1, p);
    }
  }

  // No block is handed out twice unless it was given back in between.
  lemma HandedOnce(config: Config, ws: seq<World>, steps: seq<Step>, answers: seq<Answer>, i: nat, j: nat, p: Ptr)
    requires Runs(config, ws, steps, answers) && i < j < |steps| && answers[i] == answers[j] == Given(p)
    ensures exists k :: i < k < j && answers[k] == Taken(p)
  {
    hide World.Does, World.Valid, World.Clients;
    if forall k :: i < k < j ==> answers[k] != Taken(p) {
      HeldUntilTaken(config, ws, steps, answers, i, j, p);
      RunStep(config, ws, steps, answers, j);
      StepAccounts(config, ws[j], steps[j], answers[j], ws[j + 1]);
    }
  }

  // ---------- requests ----------

  // The bucket a thread inside malloc is to serve, or -1.
  function Serving(op: Op): int {
    match op
    case Wanting(i) => i
    case Draining(i, _, _) => i
    case Holding(i, _) => i
    case _ => -1
  }

  // Other threads' steps do not touch it, and the own ones keep it until the block is handed over.
  lemma StepServing(config: Config, w: World, step: Step, answer: Answer, w': World, t: int)
    requires w.Valid(config) && w.Does(config, step, answer, w')
    requires 0 <= t < |w.pool.threads| && Serving(w.pool.threads[t].op) >= 0
    ensures |w'.pool.threads| == |w.pool.threads|
    ensures (step == Hand(t) && answer.Given?) || Serving(w'.pool.threads[t].op) == Serving(w.pool.threads[t].op)
  {
    hide State.Valid, State.Counts;
  }

  lemma HandsSize(config: Config, w: World, t: int, answer: Answer, w': World)
    requires w.Valid(config) && w.Does(config, Hand(t), answer, w') && answer.Given?
    ensures 0 <= t < |w.pool.threads| && answer.p in w'.pool.heads
    ensures 0 <= Serving(w.pool.threads[t].op) && w'.pool.heads[answer.p].cap == config.Size(Serving(w.pool.threads[t].op))
  {
    w.pool.HoldFacts(config, t, w.held);
  }

  // Thread `t` asks for `bytes` at step `i`, and until step `j` it is handed nothing.
  ghost predicate Awaits(config: Config, ws: seq<World>, steps: seq<Step>, answers: seq<Answer>, t: int, bytes: int,
                         i: nat, j: nat)
    requires Runs(config, ws, steps, answers)
  {
    && i < j <= |steps| && steps[i].Malloc? && steps[i].t == t && steps[i].bytes == bytes > 0
    && ws[i].Can(config, steps[i]) && answers[i] == Nothing
    && forall k :: i < k < j && steps[k] == Hand(t) ==> answers[k] == Nothing
  }

  lemma SetsOut(config: Config, w: World, t: int, bytes: int, block: Ptr, w': World)
    requires w.Can(config, Malloc(t, bytes, block)) && bytes > 0 && w.Does(config, Malloc(t, bytes, block), Nothing, w')
    ensures 0 <= t < |w'.pool.threads| && Serving(w'.pool.threads[t].op) == config.BucketOf(bytes)
  {
  }

  lemma {:induction false} AwaitsServing(config: Config, ws: seq<World>, steps: seq<Step>, answers: seq<Answer>, t: int,
                                         bytes: int, i: nat, j: nat)
    requires Runs(config, ws, steps, answers) && Awaits(config, ws, steps, answers, t, bytes, i, j)
    ensures 0 <= t < |ws[j].pool.threads| && Serving(ws[j].pool.threads[t].op) == config.BucketOf(bytes)
    decreases j
  {
    hide World.Does, World.Valid, World.Can, Serving, Runs;
    RunStep(config, ws, steps, answers, j - 1);
    if i < j - 1 {
      AwaitsServing(config, ws, steps, answers, t, bytes, i, j - 1);
      StepServing(config, ws[j - 1], steps[j - 1], answers[j - 1], ws[j], t);
    } else {
      SetsOut(config, ws[i], t, bytes, steps[i].block, ws[j]);
    }
  }

  // What a thread is handed is as large as what it asked for, whatever the others did meanwhile.
  lemma RequestMet(config: Config, ws: seq<World>, steps: seq<Step>, answers: seq<Answer>, t: int, bytes: int, i: nat, j: nat)
    requires Runs(config, ws, steps, answers) && Awaits(config, ws, steps, answers, t, bytes, i, j)
    requires j < |steps| && steps[j] == Hand(t) && answers[j].Given?
    ensures answers[j].p in ws[j + 1].pool.heads && ws[j + 1].pool.heads[answers[j].p].cap >= bytes
  {
    AwaitsServing(config, ws, steps, answers, t, bytes, i, j);
    RunStep(config, ws, steps, answers, j);
    HandsSize(config, ws[j], t, answers[j], ws[j + 1]);
  }

  // So is what it is handed at once.
  lemma OversizedMet(config: Config, w: World, step: Step, answer: Answer, w': World)
    requires w.Does(config, step, answer, w') && step.Malloc? && answer.Given?
    ensures answer.p in w'.pool.heads && w'.pool.heads[answer.p].cap == step.bytes
  {
  }

  // No thread is ever stuck inside malloc or free: one at rest may ask, or give back what a client holds; one that
  // wants a block may look at its pending queue and may pick; one that drains has a next block or is done; one that
  // holds a block hands it over, one that returns a block gets rid of it.
  lemma Progress(config: Config, w: World, t: int, bytes: int, block: Ptr)
    requires w.Valid(config) && 0 <= t < |w.pool.threads| && block !in w.pool.heads && block >= 0
    ensures match w.pool.threads[t].op
      case Idle => w.Can(config, Malloc(t, bytes, block)) && forall p :: p in w.Clients() ==> w.Can(config, Free(t, p))
      case Wanting(_) =>
        && w.Can(config, Pick(t, block)) && w.Can(config, Swap(t, false))
        && (w.pool.threads[t].hasPending ==> w.Can(config, Swap(t, true)))
      case Draining(_, tmp, at) =>
        if at < |tmp| then w.Can(config, Next(t))
        else w.Can(config, Drained(t)) && forall i :: 0 <= i < config.count ==> w.Can(config, Cut(t, i))
      case Holding(_, _) => w.Can(config, Hand(t))
      case Returning(_) => w.Can(config, GiveBack(t))
  {
    w.pool.Facts(config, t);
    hide State.There, State.Owned, State.HeadOk, State.Counts, State.GoodOp;
  }

  // ---------- reuse ----------

  // A thread takes the newest block of a bucket that is not empty and makes a new one only when it is.
  lemma PickReuses(config: Config, w: World, t: int, block: Ptr, answer: Answer, w': World)
    requires w.Valid(config) && w.Can(config, Pick(t, block)) && w.Does(config, Pick(t, block), answer, w')
    ensures 0 <= t < |w.pool.threads| == |w'.pool.threads|
    ensures var i, op := Serving(w.pool.threads[t].op), w'.pool.threads[t].op;
      && 0 <= i < |w.pool.threads[t].local| && op.Holding?
      && var bucket := w.pool.threads[t].local[i];
         if bucket != [] then
           && op.p == bucket[|bucket| - 1] && w'.pool.heads == w.pool.heads
           && w'.pool.threads[t].local == w.pool.threads[t].local[i := bucket[..|bucket| - 1]]
         else
           op.p == block && block !in w.pool.heads && block in w'.pool.heads && w'.pool.threads[t].local == w.pool.threads[t].local
  {
    hide State.Valid, State.Counts;
  }

  // What one thread has in its caches and in hand is its own business.
  ghost predicate Leaves(w: World, w': World, t: int) {
    && 0 <= t < |w.pool.threads| == |w'.pool.threads|
    && w'.pool.threads[t].op == w.pool.threads[t].op && w'.pool.threads[t].local == w.pool.threads[t].local
    && w'.pool.threads[t].slot == w.pool.threads[t].slot
  }

  lemma OthersLeave(config: Config, w: World, step: Step, answer: Answer, w': World, t: int)
    requires w.Does(config, step, answer, w') && step.t != t && 0 <= t < |w.pool.threads|
    ensures Leaves(w, w', t)
  {
  }

  lemma {:induction false} LeftAlone(config: Config, ws: seq<World>, steps: seq<Step>, answers: seq<Answer>, t: int, i: nat, j: nat)
    requires Runs(config, ws, steps, answers) && i <= j <= |steps| && 0 <= t < |ws[i].pool.threads|
    requires forall k :: i <= k < j ==> steps[k].t != t
    ensures Leaves(ws[i], ws[j], t)
    decreases j
  {
    hide World.Does, World.Valid, Runs;
    if i < j {
      RunStep(config, ws, steps, answers, j - 1);
      LeftAlone(config, ws, steps, answers, t, i, j - 1);
      OthersLeave(config, ws[j - 1], steps[j - 1], answers[j - 1], ws[j], t);
    }
  }

  // A block in a thread's hand stays there, with its header, whatever other threads do.
  ghost predicate StaysInHand(w: World, w': World, t: int, p: Ptr) {
    && p in w.pool.heads && p in w'.pool.heads && w'.pool.heads[p] == w.pool.heads[p]
    && p in w'.pool.where && w'.pool.where[p] == InHand(t)
  }

  lemma CutKeepsHand(config: Config, w: World, u: int, i: int, w': World, t: int, p: Ptr)
    requires w.Valid(config) && 0 <= u < |w.pool.threads| && w.Cuts(u, i, w')
    requires p in w.pool.where && w.pool.where[p] == InHand(t)
    ensures StaysInHand(w, w', t, p)
  {
    w.pool.KeysFacts(config);
    assert p in w.pool.where.Keys;
    var n := |w.pool.threads[u].local[i]|;
    var m := if n > 3 * w.held[i] && w.held[i] > 0 then 2 * w.held[i] else n;
    CachedAll(config, w.pool, u, i, m);
    hide World.Valid;
    assert p !in Members(w.pool.threads[u].local[i][m..]);
  }

  lemma GiveKeepsHand(config: Config, w: World, u: int, w': World, t: int, p: Ptr)
    requires w.Valid(config) && 0 <= u < |w.pool.threads| && w.pool.threads[u].op.Returning? && w.GivesBack(u, w') && u != t
    requires p in w.pool.where && w.pool.where[p] == InHand(t)
    ensures StaysInHand(w, w', t, p)
  {
    w.pool.KeysFacts(config);
    assert p in w.pool.where.Keys;
    w.pool.HandFacts(config, u);
    hide World.Valid;
  }

  lemma PickKeepsHand(config: Config, w: World, u: int, block: Ptr, w': World, t: int, p: Ptr)
    requires w.Valid(config) && w.Can(config, Pick(u, block)) && w.Picks(config, u, block, w') && u != t
    requires p in w.pool.where && w.pool.where[p] == InHand(t)
    ensures StaysInHand(w, w', t, p)
  {
    w.pool.SizeFacts(config, u, w.held);
    assert p in w.pool.where.Keys;
    var i := w.pool.threads[u].op.index;
    if w.pool.threads[u].local[i] != [] {
      w.pool.BucketFacts(config, u, i);
    }
    hide World.Valid;
  }

  lemma InsideKeepsHand(config: Config, w: World, step: Step, w': World, t: int, p: Ptr)
    requires w.Valid(config) && w.Can(config, step) && w.Inside(config, step, w') && step.t != t
    requires p in w.pool.where && w.pool.where[p] == InHand(t)
    ensures StaysInHand(w, w', t, p)
  {
    w.pool.SizeFacts(config, step.t, w.held);
    assert p in w.pool.where.Keys;
    hide World.Cuts, World.GivesBack, World.Picks, State.Counts;
    match step
    case Next(u) => w.pool.DrainFacts(config, u);
    case Cut(u, i) => CutKeepsHand(config, w, u, i, w', t, p);
    case Pick(u, block) => PickKeepsHand(config, w, u, block, w', t, p);
    case GiveBack(u) => GiveKeepsHand(config, w, u, w', t, p);
    case _ =>
    hide State.Valid;
  }

  lemma OthersKeepHand(config: Config, w: World, step: Step, answer: Answer, w': World, t: int, p: Ptr)
    requires w.Valid(config) && w.Does(config, step, answer, w') && step.t != t
    requires p in w.pool.where && w.pool.where[p] == InHand(t)
    ensures StaysInHand(w, w', t, p)
  {
    w.pool.KeysFacts(config);
    assert p in w.pool.where.Keys;
    if w.Can(config, step) {
      if step.Hand? {
        w.pool.HoldFacts(config, step.t, w.held);
      } else if !step.Malloc? && !step.Free? {
        InsideKeepsHand(config, w, step, w', t, p);
      }
    }
    hide State.Valid, State.Counts, World.Inside;
  }

  lemma {:induction false} KeptInHand(config: Config, ws: seq<World>, steps: seq<Step>, answers: seq<Answer>, t: int, p: Ptr,
                                      i: nat, j: nat)
    requires Runs(config, ws, steps, answers) && i <= j <= |steps| && forall k :: i <= k < j ==> steps[k].t != t
    requires p in ws[i].pool.heads && p in ws[i].pool.where && ws[i].pool.where[p] == InHand(t)
    ensures StaysInHand(ws[i], ws[j], t, p)
    decreases j
  {
    hide World.Does, World.Valid, Runs;
    if i < j {
      RunStep(config, ws, steps, answers, j - 1);
      KeptInHand(config, ws, steps, answers, t, p, i, j - 1);
      OthersKeepHand(config, ws[j - 1], steps[j - 1], answers[j - 1], ws[j], t, p);
    }
  }

  // A thread gives back a block of its own, in two steps: it ends at the back of the block's bucket.
  lemma FreesOwn(config: Config, w: World, t: int, p: Ptr, w': World)
    requires w.Valid(config) && w.Does(config, Free(t, p), Taken(p), w') && p in w.pool.heads && w.pool.heads[p].index >= 0
    ensures 0 <= t < |w.pool.threads| == |w'.pool.threads| && w'.pool.threads[t].op == Returning(p)
    ensures p in w'.pool.heads && w'.pool.heads[p] == w.pool.heads[p] && p in w'.pool.where && w'.pool.where[p] == InHand(t)
    ensures w'.pool.threads[t].slot == w.pool.threads[t].slot
  {
    hide State.Valid, State.Counts;
  }

  lemma GivesOwn(config: Config, w: World, t: int, p: Ptr, answer: Answer, w': World)
    requires w.Valid(config) && w.Does(config, GiveBack(t), answer, w') && 0 <= t < |w.pool.threads|
    requires w.pool.threads[t].op == Returning(p) && p in w.pool.heads
    requires w.pool.heads[p].slot == w.pool.threads[t].slot >= 0
    ensures |w'.pool.threads| == |w.pool.threads| && w'.pool.threads[t].op == Idle
    ensures var i := w.pool.heads[p].index;
      && 0 <= i < |w'.pool.threads[t].local| && w'.pool.threads[t].local[i] != []
      && w'.pool.threads[t].local[i][|w'.pool.threads[t].local[i]| - 1] == p
  {
    hide State.Valid, State.Counts;
  }

  lemma AsksAgain(config: Config, w: World, t: int, bytes: int, block: Ptr, answer: Answer, w': World)
    requires w.Can(config, Malloc(t, bytes, block)) && w.Does(config, Malloc(t, bytes, block), answer, w')
    requires bytes > 0 && config.BucketOf(bytes) < config.count
    ensures 0 <= t < |w.pool.threads| == |w'.pool.threads| && w'.pool.threads[t].op == Wanting(config.BucketOf(bytes))
    ensures w'.pool.threads[t].local == w.pool.threads[t].local
  {
  }

  lemma HandsOver(config: Config, w: World, t: int, answer: Answer, w': World)
    requires w.Does(config, Hand(t), answer, w') && 0 <= t < |w.pool.threads| && w.pool.threads[t].op.Holding?
    ensures answer == Given(w.pool.threads[t].op.p)
  {
  }

  // Bucket `i` of a thread has `p` at its back.
  ghost predicate AtBack(w: World, t: int, i: int, p: Ptr) {
    && 0 <= t < |w.pool.threads| && 0 <= i < |w.pool.threads[t].local|
    && w.pool.threads[t].local[i] != [] && w.pool.threads[t].local[i][|w.pool.threads[t].local[i]| - 1] == p
  }

  lemma GivenBack(config: Config, ws: seq<World>, steps: seq<Step>, answers: seq<Answer>, t: int, p: Ptr, a: nat, b: nat)
    requires Runs(config, ws, steps, answers) && a < b < |steps| && forall k :: a < k < b ==> steps[k].t != t
    requires steps[a] == Free(t, p) && answers[a] == Taken(p) && steps[b] == GiveBack(t)
    requires 0 <= t < |ws[a].pool.threads| && p in ws[a].pool.heads && ws[a].pool.heads[p].index >= 0
    requires ws[a].pool.heads[p].slot == ws[a].pool.threads[t].slot >= 0
    ensures AtBack(ws[b + 1], t, ws[a].pool.heads[p].index, p)
  {
    hide World.Does, World.Valid, World.Can, Runs;
    RunStep(config, ws, steps, answers, a);
    FreesOwn(config, ws[a], t, p, ws[a + 1]);
    LeftAlone(config, ws, steps, answers, t, a + 1, b);
    KeptInHand(config, ws, steps, answers, t, p, a + 1, b);
    RunStep(config, ws, steps, answers, b);
    GivesOwn(config, ws[b], t, p, answers[b], ws[b + 1]);
  }

  // The cache at work: a thread that gives back a block of its own and next asks for one of the same bucket is handed
  // that very block, whatever other threads do meanwhile. Steps `a` to `e` are all the thread takes.
  lemma OwnBlockReused(config: Config, ws: seq<World>, steps: seq<Step>, answers: seq<Answer>, t: int, p: Ptr,
                       a: nat, b: nat, c: nat, d: nat, e: nat)
    requires Runs(config, ws, steps, answers) && a < b < c < d < e < |steps|
    requires forall k :: a < k < e && k != b && k != c && k != d ==> steps[k].t != t
    requires steps[a] == Free(t, p) && answers[a] == Taken(p) && steps[b] == GiveBack(t)
    requires steps[c].Malloc? && steps[c].t == t && ws[c].Can(config, steps[c])
    requires steps[d].Pick? && steps[d].t == t && ws[d].Can(config, steps[d]) && steps[e] == Hand(t)
    requires 0 <= t < |ws[a].pool.threads| && p in ws[a].pool.heads
    requires ws[a].pool.heads[p].slot == ws[a].pool.threads[t].slot >= 0
    requires steps[c].bytes > 0 && config.BucketOf(steps[c].bytes) == ws[a].pool.heads[p].index < config.count
    ensures answers[e] == Given(p)
  {
    hide World.Does, World.Valid, World.Can, Runs;
    GivenBack(config, ws, steps, answers, t, p, a, b);
    RunStep(config, ws, steps, answers, c);
    LeftAlone(config, ws, steps, answers, t, b + 1, c);
    AsksAgain(config, ws[c], t, steps[c].bytes, steps[c].block, answers[c], ws[c + 1]);
    LeftAlone(config, ws, steps, answers, t, c + 1, d);
    RunStep(config, ws, steps, answers, d);
    assert AtBack(ws[d], t, ws[a].pool.heads[p].index, p);
    PickReuses(config, ws[d], t, steps[d].block, answers[d], ws[d + 1]);
    LeftAlone(config, ws, steps, answers, t, d + 1, e);
    RunStep(config, ws, steps, answers, e);
    HandsOver(config, ws[e], t, answers[e], ws[e + 1]);
  }
}
