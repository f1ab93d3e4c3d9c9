// The rounds of the timer wheel: slots holding hand-linked nodes, and the cursors that cascade
// buckets downward.

module WheelRounds {
  import opened Digits
  import opened Calendar
  import opened Common
  import opened Placement

  // The cancel flag shared by all copies of one timer.
  class Flag {
    ghost const id: int
    var removed: bool

    constructor (ghost id: int)
      ensures this.id == id && !removed
    {
      this.id, removed := id, false;
    }
  }

  // A timer instance, linked into one slot or into the callback queue.
  class Node {
    const id: int
    const interval: Option<int -> int>
    const callback: int
    const flag: Flag
    var ms: int
    var count: int
    var next: Node?

    // the tick that will consume the node
    ghost var fire: int

    constructor (id: int, flag: Flag, ms: int, interval: Option<int -> int>, count: int, callback: int)
      ensures Value() == Timer(id, ms, interval, count, callback)
      ensures this.flag == flag && next == null
    {
      this.id, this.flag, this.ms, this.interval, this.count, this.callback := id, flag, ms, interval, count, callback;
      next := null;
    }

    constructor Copy(other: Node)
      ensures Value() == other.Value()
      ensures flag == other.flag && next == null
    {
      id, flag, ms, interval, count, callback :=
        other.id, other.flag, other.ms, other.interval, other.count, other.callback;
      next := null;
    }

    function Value(): (t: Timer)
      reads `ms, `count
      ensures t.id == id
    {
      Timer(id, ms, interval, count, callback)
    }
  }

  // One round: `slots[i]` heads the list of slot i, and `pos` is the cursor.
  class Wheel {
    const level: nat
    const slotMs: nat
    const slotSumMs: nat
    var slots: seq<Node?>
    var pos: int

    constructor (level: nat, slotMs: nat, slotCount: nat)
      ensures this.level == level && this.slotMs == slotMs && slotSumMs == slotMs * slotCount
      ensures |slots| == slotCount
      ensures forall i :: 0 <= i < slotCount ==> slots[i] == null
      ensures pos == if level == 0 then -1 else 0
    {
      MulNonneg(slotMs, slotCount);
      this.level, this.slotMs, this.slotSumMs := level, slotMs, slotMs * slotCount;
      slots := seq(slotCount, _ => null);
      pos := if level == 0 then -1 else 0;
    }
  }

  // ---------- which nodes are linked where ----------

  datatype Slot = Slot(level: nat, index: nat)

  // A node's slot, and how many nodes follow it there; linking in front moves no other node.
  datatype At = At(slot: Slot, rank: nat)

  function HeadOf(list: seq<Node>): Node? {
    if list == [] then null else list[0]
  }

  function NextOf(list: seq<Node>, k: nat): Node?
    requires k < |list|
  {
    if k + 1 < |list| then list[k + 1] else null
  }

  ghost predicate DistinctIds(chain: seq<Node>) {
    forall j, k {:trigger chain[j].id, chain[k].id} :: 0 <= j < k < |chain| ==> chain[j].id != chain[k].id
  }

  // A hand-linked list of distinct nodes.
  ghost predicate IsChain(first: Node?, list: seq<Node>)
    reads list
  {
    && first == HeadOf(list)
    && (forall k {:trigger list[k].next} :: 0 <= k < |list| ==> list[k].next == NextOf(list, k))
    && forall j, k :: 0 <= j < k < |list| ==> list[j] != list[k]
  }

  // The contents of every slot, the position of every linked node, and the one node of each id.
  datatype Layout = Layout(lists: map<Slot, seq<Node>>, at: map<Node, At>, owner: map<int, Node>) {

    ghost predicate Holds(n: Node) {
      && n in at && at[n].slot in lists && at[n].rank < |lists[at[n].slot]|
      && lists[at[n].slot][|lists[at[n].slot]| - 1 - at[n].rank] == n
    }

    ghost predicate PositionsOk() {
      && (forall n {:trigger n in at} :: n in at ==> Holds(n))
      && (forall s, k {:trigger lists[s][k]} :: s in lists && 0 <= k < |lists[s]| ==>
            lists[s][k] in at && at[lists[s][k]] == At(s, |lists[s]| - 1 - k))
    }

    ghost predicate OwnersOk() {
      && (forall n {:trigger n in at} :: n in at ==> n.id in owner && owner[n.id] == n)
      && (forall id {:trigger id in owner} :: id in owner ==> owner[id] in at && owner[id].id == id)
    }

    ghost predicate Ok() {
      PositionsOk() && OwnersOk()
    }

    // The node linked behind `n`.
    ghost function Behind(n: Node): Node?
      requires Ok() && n in at
    {
      assert Holds(n);
      if at[n].rank == 0 then null else lists[at[n].slot][|lists[at[n].slot]| - at[n].rank]
    }

    ghost function Push(s: Slot, n: Node): Layout
      requires s in lists
    {
      Layout(lists[s := [n] + lists[s]], at[n := At(s, |lists[s]|)], owner[n.id := n])
    }

    // `l` is this layout with `n` linked into slot `s`.
    ghost predicate Added(l: Layout, s: Slot, n: Node) {
      && l.at.Keys == at.Keys + {n} && n !in at && l.at[n].slot == s
      && l.owner == owner[n.id := n]
      && (forall m {:trigger l.at[m]} :: m in at ==> l.at[m] == at[m])
    }

    // `l` is this layout without the nodes of `chain`, the contents of slot `s`.
    ghost predicate Removed(l: Layout, s: Slot, chain: seq<Node>) {
      && s in lists && chain == lists[s]
      && l.at.Keys == at.Keys - (set m | m in chain)
      && (forall m {:trigger l.at[m]} {:trigger m in l.at} :: m in l.at ==> l.at[m] == at[m] && at[m].slot != s)
      && (forall k {:trigger chain[k]} :: 0 <= k < |chain| ==>
            chain[k] in at && at[chain[k]].slot == s && chain[k].id in owner && chain[k].id !in l.owner)
      && DistinctIds(chain)
      && (forall id {:trigger id in l.owner} :: id in l.owner ==> id in owner && owner[id] == l.owner[id])
      && (forall id {:trigger id in l.owner} :: id in owner && owner[id] in l.at ==> id in l.owner)
    }

    lemma PushHolds(s: Slot, n: Node, m: Node)
      requires PositionsOk() && s in lists && n !in at && (m == n || m in at)
      ensures Push(s, n).Holds(m)
    {
      if m != n {
        assert Holds(m);
      }
    }

    lemma PushPositions(s: Slot, n: Node)
      requires PositionsOk() && s in lists && n !in at
      ensures Push(s, n).PositionsOk()
    {
      var l := Push(s, n);
      forall m | m in l.at
        ensures l.Holds(m)
      {
        PushHolds(s, n, m);
      }
      hide Holds;
      forall q, k {:trigger l.lists[q][k]} | q in l.lists && 0 <= k < |l.lists[q]|
        ensures l.lists[q][k] in l.at && l.at[l.lists[q][k]] == At(q, |l.lists[q]| - 1 - k)
      {
        if q == s && k > 0 {
          assert l.lists[q][k] == lists[s][k - 1];
        }
      }
    }

    lemma PushOwners(s: Slot, n: Node)
      requires Ok() && s in lists && n.id !in owner
      ensures n !in at && Push(s, n).Ok() && Added(Push(s, n), s, n)
    {
      PushPositions(s, n);
    }

    lemma AtHolds(n: Node)
      requires Ok() && n in at
      ensures Holds(n)
    {
    }

    lemma PushBehind(s: Slot, n: Node, m: Node)
      requires Ok() && s in lists && n !in at && Push(s, n).Ok() && m in at
      ensures Push(s, n).Behind(m) == Behind(m)
    {
      AtHolds(m);
      Push(s, n).AtHolds(m);
      hide Ok;
    }

    lemma PushFront(s: Slot, n: Node)
      requires Ok() && s in lists && Push(s, n).Ok()
      ensures Push(s, n).Behind(n) == HeadOf(lists[s])
    {
      Push(s, n).AtHolds(n);
      hide Ok;
    }

    // Linking in front leaves the rest of every list as it was.
    lemma PushOk(s: Slot, n: Node)
      requires Ok() && s in lists && n.id !in owner
      ensures Push(s, n).Ok() && Push(s, n).lists == lists[s := [n] + lists[s]]
      ensures n !in at && Added(Push(s, n), s, n)
      ensures forall m {:trigger Push(s, n).Behind(m)} :: m in at ==> Push(s, n).Behind(m) == Behind(m)
      ensures Push(s, n).Behind(n) == HeadOf(lists[s])
    {
      PushOwners(s, n);
      hide Ok, Behind, Added;
      forall m | m in at
        ensures Push(s, n).Behind(m) == Behind(m)
      {
        PushBehind(s, n, m);
      }
      PushFront(s, n);
    }

    ghost function Clear(s: Slot): Layout
      requires s in lists
    {
      Layout(lists[s := []], map n | n in at && at[n].slot != s :: at[n],
             map id | id in owner && owner[id] in at && at[owner[id]].slot != s :: owner[id])
    }

    lemma ClearPositions(s: Slot)
      requires PositionsOk() && s in lists
      ensures Clear(s).PositionsOk()
      ensures forall m {:trigger m in lists[s]} :: m in lists[s] <==> m in at && at[m].slot == s
      ensures forall j, k :: 0 <= j < k < |lists[s]| ==> lists[s][j] != lists[s][k]
    {
    }

    lemma ClearBehind(s: Slot, m: Node)
      requires Ok() && s in lists && Clear(s).Ok() && m in Clear(s).at
      ensures Clear(s).Behind(m) == Behind(m)
    {
      AtHolds(m);
      Clear(s).AtHolds(m);
      hide Ok;
    }

    // What was linked behind the nodes of a slot.
    lemma BehindNext(s: Slot, k: nat)
      requires Ok() && s in lists && k < |lists[s]|
      ensures lists[s][k] in at && Behind(lists[s][k]) == NextOf(lists[s], k)
    {
    }

    lemma ClearOwners(s: Slot)
      requires Ok() && s in lists
      ensures Clear(s).Ok() && Removed(Clear(s), s, lists[s])
    {
      ClearPositions(s);
    }

    lemma ClearOk(s: Slot)
      requires Ok() && s in lists
      ensures Clear(s).Ok() && Clear(s).lists == lists[s := []]
      ensures Removed(Clear(s), s, lists[s])
      ensures forall m {:trigger Clear(s).Behind(m)} {:trigger m in Clear(s).at} ::
                m in Clear(s).at ==> m in at && Clear(s).Behind(m) == Behind(m)
      ensures forall k {:trigger lists[s][k]} :: 0 <= k < |lists[s]| ==>
                lists[s][k] in at && Behind(lists[s][k]) == NextOf(lists[s], k)
      ensures forall j, k :: 0 <= j < k < |lists[s]| ==> lists[s][j] != lists[s][k]
    {
      ClearOwners(s);
      ClearPositions(s);
      hide Ok, Removed, Behind;
      var l := Clear(s);
      forall m | m in l.at
        ensures m in at && l.Behind(m) == Behind(m)
      {
        ClearBehind(s, m);
      }
      forall k {:trigger lists[s][k]} | 0 <= k < |lists[s]|
        ensures lists[s][k] in at && Behind(lists[s][k]) == NextOf(lists[s], k)
      {
        BehindNext(s, k);
      }
    }
  }

  class Rounds {
    const cfg: Config
    const bit: nat
    const wheels: seq<Wheel>
    ghost var layout: Layout

    // ---------- invariant ----------

    // The fixed shape: distinct rounds, counted upward.
    ghost predicate Geometry() {
      && cfg.Positive() && |wheels| == cfg.rounds
      && (forall i, j :: 0 <= i < j < |wheels| ==> wheels[i] != wheels[j])
      && (forall l {:trigger wheels[l].level} :: 0 <= l < |wheels| ==> wheels[l].level == l)
    }

    // Each round has `scale` slots, each covering the round below.
    ghost predicate Measures()
      requires cfg.Positive()
    {
      && cfg.Valid() && bit <= 30 && cfg.scale == Pow(2, bit)
      && forall l {:trigger wheels[l].slotMs} {:trigger wheels[l].slotSumMs} :: 0 <= l < |wheels| ==>
        wheels[l].slotMs == cfg.precision * Pow(cfg.scale, l)
        && wheels[l].slotSumMs == cfg.precision * Pow(cfg.scale, l + 1)
    }

    ghost function Cursor(c: int, l: nat): int
      requires cfg.Positive()
    {
      if l == 0 then c else Shr(Base(c), cfg.scale, l)
    }

    // Round 0 counts the ticks, and every round above reads the one below without its last digit.
    ghost predicate CursorsOk(c: int)
      requires cfg.Positive()
      reads this, wheels
    {
      forall l {:trigger wheels[l].pos} :: 0 <= l < |wheels| ==> wheels[l].pos == Cursor(c, l)
    }

    // The pointers in the heap spell out the layout.
    ghost predicate HeadsOk()
      reads this, wheels
    {
      && (forall l {:trigger wheels[l].slots} :: 0 <= l < |wheels| ==> |wheels[l].slots| == cfg.scale)
      && (forall l, i {:trigger wheels[l].slots[i]} :: 0 <= l < |wheels| && 0 <= i < cfg.scale ==>
            Slot(l, i) in layout.lists && wheels[l].slots[i] == HeadOf(layout.lists[Slot(l, i)]))
      && (forall s {:trigger s in layout.lists} :: s in layout.lists <==> s.level < |wheels| && s.index < cfg.scale)
    }

    ghost predicate NextsOk()
      requires layout.Ok()
      reads this, layout.at.Keys
    {
      forall n {:trigger n.next} :: n in layout.at ==> n.next == layout.Behind(n)
    }

    ghost predicate SitsOk(c: int, from: int, n: Node)
      requires cfg.Positive() && n in layout.at
      reads this, n
    {
      && 0 <= n.ms < cfg.span
      && Sits(cfg, c, from, n.ms / cfg.precision, n.fire, layout.at[n].slot.level, layout.at[n].slot.index)
    }

    // Every waiting node sits where its due tick belongs.
    ghost predicate PlacedOk(c: int, from: int)
      reads this, layout.at.Keys
    {
      cfg.Positive() && forall n :: n in layout.at ==> SitsOk(c, from, n)
    }

    static ghost function EntryOf(n: Node): Entry
      reads n`ms, n`count, n`fire
    {
      Entry(n.Value(), n.fire)
    }

    // The waiting timers, by id.
    ghost function Pending(): map<int, Entry>
      reads this, layout.at.Keys
    {
      map id | id in layout.owner && layout.owner[id] in layout.at :: EntryOf(layout.owner[id])
    }

    lemma PendingIds()
      requires layout.Ok()
      ensures Pending().Keys == layout.owner.Keys
      ensures forall n {:trigger n in layout.at} :: n in layout.at ==> n.id in Pending()
    {
      assert forall id :: id in Pending() <==> id in layout.owner;
    }

    // The wheel with its base cursor at `c`.
    ghost predicate Ok(c: int)
      reads this, wheels, layout.at.Keys
    {
      c >= -1 && Geometry() && Measures() && CursorsOk(c) && layout.Ok() && HeadsOk() && NextsOk()
    }

    lemma OwnersKnown(c: int)
      requires Ok(c)
      ensures layout.OwnersOk() && Pending().Keys == layout.owner.Keys
    {
      PendingIds();
    }

    constructor (cfg: Config, bit: nat)
      requires cfg.Valid() && bit <= 30 && cfg.scale == Pow(2, bit)
      ensures this.cfg == cfg && fresh(wheels) && layout.at == map[] && layout.owner == map[]
      ensures Ok(-1) && PlacedOk(-1, 0)
    {
      var ws := MakeWheels(cfg);
      this.cfg, this.bit, wheels := cfg, bit, ws;
      layout := Layout(map l: nat, i: nat | l < cfg.rounds && i < cfg.scale :: Slot(l, i) := [], map[], map[]);
      forall l: nat
        ensures Shr(0, cfg.scale, l) == 0
      {
        ShrOfZero(cfg.scale, l);
      }
      new;
      hide Measures, Pow;
    }

    // The rounds, each starting with the time span of the one before.
    static method MakeWheels(cfg: Config) returns (ws: seq<Wheel>)
      requires cfg.Valid()
      ensures |ws| == cfg.rounds && fresh(ws)
      ensures forall i, j :: 0 <= i < j < |ws| ==> ws[i] != ws[j]
      ensures forall l {:trigger ws[l].level} :: 0 <= l < |ws| ==> ws[l].level == l
      ensures forall l {:trigger ws[l].slots} :: 0 <= l < |ws| ==> |ws[l].slots| == cfg.scale
      ensures forall l, i {:trigger ws[l].slots[i]} :: 0 <= l < |ws| && 0 <= i < cfg.scale ==> ws[l].slots[i] == null
      ensures forall l {:trigger ws[l].pos} :: 0 <= l < |ws| ==> ws[l].pos == if l == 0 then -1 else 0
      ensures forall l {:trigger ws[l].slotMs} {:trigger ws[l].slotSumMs} :: 0 <= l < |ws| ==>
        ws[l].slotMs == cfg.precision * Pow(cfg.scale, l) && ws[l].slotSumMs == cfg.precision * Pow(cfg.scale, l + 1)
    {
      ws := [];
      var slotMs := cfg.precision;
      while |ws| < cfg.rounds
        invariant |ws| <= cfg.rounds && slotMs == cfg.precision * Pow(cfg.scale, |ws|)
        invariant fresh(ws)
        invariant forall i, j :: 0 <= i < j < |ws| ==> ws[i] != ws[j]
        invariant forall l {:trigger ws[l].level} :: 0 <= l < |ws| ==> ws[l].level == l
        invariant forall l {:trigger ws[l].slots} :: 0 <= l < |ws| ==> |ws[l].slots| == cfg.scale
        invariant forall l, i {:trigger ws[l].slots[i]} :: 0 <= l < |ws| && 0 <= i < cfg.scale ==> ws[l].slots[i] == null
        invariant forall l {:trigger ws[l].pos} :: 0 <= l < |ws| ==> ws[l].pos == if l == 0 then -1 else 0
        invariant forall l {:trigger ws[l].slotMs} {:trigger ws[l].slotSumMs} :: 0 <= l < |ws| ==>
          ws[l].slotMs == cfg.precision * Pow(cfg.scale, l) && ws[l].slotSumMs == cfg.precision * Pow(cfg.scale, l + 1)
      {
        var w := new Wheel(|ws|, slotMs, cfg.scale);
        PowStep(cfg.precision, cfg.scale, |ws|);
        slotMs := w.slotSumMs;
        ws := ws + [w];
      }
    }

    // ---------- linking ----------

    // Links a node in front of one slot.
    method LinkFront(w: Wheel, index: nat, n: Node, ghost c: int)
      requires Ok(c) && w.level < |wheels| && wheels[w.level] == w && index < cfg.scale && n.id !in layout.owner
      modifies this, w`slots, n`next
      ensures Ok(c)
      ensures old(layout).Added(layout, Slot(w.level, index), n)
    {
      hide Measures, Layout.Ok, Layout.Push, Layout.Clear, Layout.Behind, Layout.Removed;
      layout.PushOk(Slot(w.level, index), n);
      ghost var was := layout;
      n.next := w.slots[index];
      w.slots := w.slots[index := n];
      layout := layout.Push(Slot(w.level, index), n);
      assert HeadsOk() && CursorsOk(c);
      forall m | m in layout.at
        ensures m.next == layout.Behind(m)
      {
        if m != n {
          assert m in was.at && m.next == old(m.next) == was.Behind(m);
        }
      }
    }

    // A due tick the search may still be looking for in round `level`.
    ghost predicate Below(c: int, d: int, level: nat)
      requires cfg.Positive()
    {
      d >= Base(c) && Shr(d, cfg.scale, level + 1) == Shr(Base(c), cfg.scale, level + 1)
    }

    // Where the search leaves a node due in tick `d`.
    ghost predicate Found(c: int, d: nat, s: Slot)
      requires cfg.Positive()
    {
      && s.index == Shr(d, cfg.scale, s.level) % cfg.scale
      && Shr(d, cfg.scale, s.level + 1) == Shr(Base(c), cfg.scale, s.level + 1)
      && (s.level > 0 ==> Shr(d, cfg.scale, s.level) > Shr(Base(c), cfg.scale, s.level))
    }

    // The slot of round `w` for a due time: the low digit of the truncated quotient.
    method SlotIndex(w: Wheel, ms: nat) returns (index: nat)
      requires Geometry() && Measures() && w.level < |wheels| && wheels[w.level] == w
      ensures index == Shr(ms / cfg.precision, cfg.scale, w.level) % cfg.scale
    {
      ShrIsDiv(ms, cfg.precision, cfg.scale, w.level);
      TruncationKeepsDigit(ms / w.slotMs, bit);
      index := ToInt32(ms / w.slotMs) % cfg.scale;
    }

    // Descends from round `w` to the round the node belongs to and links it there; the branch that
    // drops a node is never taken.
    method PushSlots(w: Wheel, n: Node, ghost c: int) returns (ghost s: Slot)
      requires Ok(c) && w.level < |wheels| && wheels[w.level] == w && n.id !in layout.owner
      requires n.ms >= 0 && Below(c, n.ms / cfg.precision, w.level)
      modifies this, (set v | v in wheels)`slots, n`next
      ensures Ok(c)
      ensures old(layout).Added(layout, s, n)
      ensures s.level <= w.level && Found(c, n.ms / cfg.precision, s)
      decreases w.level
    {
      hide Layout.Ok, Layout.Push, Layout.Added;
      var index := SlotIndex(w, n.ms);
      ghost var d := n.ms / cfg.precision;
      DigitStep(cfg.scale, Base(c), d, w.level);
      var under := w.pos % cfg.scale;
      if index <= under && w.pos != -1 {
        if w.level > 0 {
          s := PushSlots(wheels[w.level - 1], n, c);
          return;
        }
        if index != under {
          assert false;
        }
      }
      LinkFront(w, index, n, c);
      s := Slot(w.level, index);
    }

    // The tick recorded for a node agrees with where the search will leave it.
    ghost predicate FireOk(c: int, from: int, d: nat, fire: int)
      requires cfg.Positive()
    {
      (fire == d && d >= from) || (from == c + 1 && d >= c && fire == FireTick(cfg, c, d))
    }

    lemma FoundSits(c: int, from: int, d: nat, fire: int, s: Slot)
      requires cfg.Positive() && c >= -1 && from <= c + 1 && d >= Base(c) && Found(c, d, s) && FireOk(c, from, d, fire)
      ensures Sits(cfg, c, from, d, fire, s.level, s.index)
    {
    }

    // Unlinks a node from its neighbours and links it where its due tick belongs, from round `w`
    // downward.
    method Settle(w: Wheel, n: Node, ghost c: int, ghost from: int)
      requires Ok(c) && PlacedOk(c, from) && from <= c + 1
      requires w.level < |wheels| && wheels[w.level] == w && n.id !in layout.owner && n !in layout.at
      requires 0 <= n.ms < cfg.span && Below(c, n.ms / cfg.precision, w.level)
      requires FireOk(c, from, n.ms / cfg.precision, n.fire)
      modifies this, (set v | v in wheels)`slots, n`next
      ensures Ok(c) && PlacedOk(c, from)
      ensures layout.at.Keys == old(layout.at.Keys) + {n} && layout.owner == old(layout.owner)[n.id := n]
    {
      hide Measures, Layout.Ok, Layout.Behind, HeadsOk, CursorsOk, NextsOk, Sits, FireOk, Found;
      n.next := null;
      var s := PushSlots(w, n, c);
      FoundSits(c, from, n.ms / cfg.precision, n.fire, s);
    }

    // The tick that consumes a node due at `ms` if it is linked now.
    ghost function FireAt(c: int, ms: int): int {
      if cfg.Positive() && ms >= 0 then FireTick(cfg, c, ms / cfg.precision) else -1
    }

    // The timers that `owner` and `entries` stand for, by id.
    static ghost function Entries(owner: map<int, Node>, entries: map<Node, Entry>): map<int, Entry> {
      map id | id in owner && owner[id] in entries :: entries[owner[id]]
    }

    ghost function Snapshot(): map<Node, Entry>
      reads this, layout.at.Keys`ms, layout.at.Keys`count, layout.at.Keys`fire
    {
      map n | n in layout.at :: EntryOf(n)
    }

    lemma PendingIsSnapshot()
      ensures Pending() == Entries(layout.owner, Snapshot())
    {
    }

    static lemma EntriesInsert(was: Layout, now: Layout, v0: map<Node, Entry>, v1: map<Node, Entry>, n: Node)
      requires was.OwnersOk() && v0.Keys == was.at.Keys && n.id !in was.owner
      requires now.owner == was.owner[n.id := n] && v1.Keys == v0.Keys + {n}
      requires forall m {:trigger v1[m]} :: m in v0 ==> v1[m] == v0[m]
      ensures Entries(now.owner, v1) == Entries(was.owner, v0)[n.id := v1[n]]
    {
      forall id | id in was.owner
        ensures was.owner[id] in v0 && was.owner[id] in v1 && now.owner[id] == was.owner[id]
      {
        assert was.owner[id] in was.at;
      }
      assert n in v1;
    }

    static lemma CoversBelow(cfg: Config, c: int, ms: nat, l: nat)
      requires cfg.Valid() && ms < cfg.precision * Pow(cfg.scale, l + 1) && l < cfg.rounds
      requires ms / cfg.precision >= Base(c)
      ensures ms < cfg.span
      ensures Shr(ms / cfg.precision, cfg.scale, l + 1) == Shr(Base(c), cfg.scale, l + 1)
    {
      ShrZero(ms, cfg.precision, cfg.scale, l + 1);
      ShrMono(Base(c), ms / cfg.precision, cfg.scale, l + 1);
      PowMono(cfg.scale, l + 1, cfg.rounds);
      MulLe(cfg.precision, Pow(cfg.scale, l + 1), Pow(cfg.scale, cfg.rounds));
    }

    // Links a node that is due after the cursor into the first round whose span covers it.
    method Insert(n: Node, ghost c: int) returns (ok: bool)
      requires Ok(c) && PlacedOk(c, c + 1) && n.id !in Pending()
      requires n.ms >= 0 && n.ms / cfg.precision >= Base(c) && n.fire == FireAt(c, n.ms)
      modifies this, (set v | v in wheels)`slots, n`next
      ensures Ok(c) && PlacedOk(c, c + 1) && ok == (n.ms < cfg.span)
      ensures Pending() == if ok then old(Pending())[n.id := EntryOf(n)] else old(Pending())
      ensures layout.at.Keys == old(layout.at.Keys) + if ok then {n} else {}
    {
      hide Layout.PositionsOk, CursorsOk, HeadsOk, NextsOk, PlacedOk, FireTick, Pending, Entries;
      var l := 0;
      while l < |wheels|
        invariant 0 <= l <= |wheels|
        invariant l > 0 ==> n.ms >= cfg.precision * Pow(cfg.scale, l)
      {
        var w := wheels[l];
        if n.ms < w.slotSumMs {
          CoversBelow(cfg, c, n.ms, l);
          PendingIds();
          PendingIsSnapshot();
          ghost var was, v0 := layout, Snapshot();
          Settle(w, n, c, c + 1);
          PendingIsSnapshot();
          EntriesInsert(was, layout, v0, Snapshot(), n);
          return true;
        }
        l := l + 1;
      }
      ok := false;
    }

    // ---------- cascading ----------

    // Detaches the list of one slot.
    method TakeSlot(w: Wheel, index: nat, ghost c: int) returns (first: Node?, ghost chain: seq<Node>)
      requires Ok(c) && w.level < |wheels| && wheels[w.level] == w && index < cfg.scale
      modifies this, w`slots
      ensures Ok(c)
      ensures old(layout).Removed(layout, Slot(w.level, index), chain)
      ensures IsChain(first, chain)
    {
      hide Measures, Layout.Ok, Layout.Push, Layout.Clear, Layout.Behind, Layout.Added, Layout.Removed;
      ghost var was, slot := layout, Slot(w.level, index);
      was.ClearOk(slot);
      chain := was.lists[slot];
      first := w.slots[index];
      w.slots := w.slots[index := null];
      layout := was.Clear(slot);
      assert HeadsOk() && CursorsOk(c);
      forall m | m in layout.at
        ensures m.next == layout.Behind(m)
      {
        assert m in was.at && m.next == old(m.next) == was.Behind(m);
      }
      forall k {:trigger chain[k].next} | 0 <= k < |chain|
        ensures chain[k].next == NextOf(chain, k)
      {
        var m := chain[k];
        assert m in was.at && m.next == old(m.next) == was.Behind(m);
      }
    }

    // A node on time that round `level` or one below will take.
    ghost predicate Ready(c: int, level: nat, n: Node)
      requires cfg.Positive()
      reads n
    {
      0 <= n.ms < cfg.span && n.fire == n.ms / cfg.precision && n.fire >= c && Below(c, n.fire, level)
    }

    // A bucket whose nodes have to move to the rounds below once the cursor stands at `c`.
    ghost predicate Ripe(c: int, w: Wheel, index: nat)
      requires cfg.Positive()
      reads this, layout.at.Keys
    {
      forall n :: n in layout.at ==>
        if layout.at[n].slot == Slot(w.level, index) then w.level > 0 && Ready(c, w.level - 1, n)
        else SitsOk(c, c, n)
    }

    // Detaches a bucket that has to move down.
    method TakeRipe(w: Wheel, index: nat, ghost c: int) returns (first: Node?, ghost chain: seq<Node>)
      requires Ok(c) && w.level < |wheels| && wheels[w.level] == w && index < cfg.scale && Ripe(c, w, index)
      modifies this, w`slots
      ensures Ok(c) && PlacedOk(c, c) && IsChain(first, chain) && DistinctIds(chain)
      ensures layout.at.Keys == old(layout.at.Keys) - (set n | n in chain)
      ensures forall k {:trigger chain[k]} :: 0 <= k < |chain| ==>
        chain[k] in old(layout.at) && chain[k].id !in layout.owner && w.level > 0 && Ready(c, w.level - 1, chain[k])
    {
      hide Measures, Layout.Ok, Layout.Behind, HeadsOk, CursorsOk, NextsOk, Sits, Shr, Below;
      first, chain := TakeSlot(w, index, c);
    }

    // The nodes of a chain from place `j` on.
    static ghost function Rest(chain: seq<Node>, j: nat): set<Node>
      requires j <= |chain|
    {
      set n | n in chain[j..]
    }

    static lemma RestEnds(chain: seq<Node>)
      ensures Rest(chain, 0) == (set n | n in chain) && Rest(chain, |chain|) == {}
    {
      assert chain[0..] == chain;
    }

    // One node of the chain goes back among `was`.
    static lemma RestStep(was: set<Node>, chain: seq<Node>, j: nat)
      requires j < |chain| && chain[j] in was && DistinctIds(chain)
      ensures chain[j] !in was - Rest(chain, j) && (was - Rest(chain, j)) + {chain[j]} == was - Rest(chain, j + 1)
      ensures forall k {:trigger chain[k].id} :: j < k < |chain| ==> chain[k].id != chain[j].id
    {
      assert chain[j..] == [chain[j]] + chain[j + 1..];
      forall k | j < k < |chain|
        ensures chain[k] != chain[j]
      {
        assert chain[j].id != chain[k].id;
      }
    }

    // Moves one bucket down.
    method MoveBucket(w: Wheel, index: nat, ghost c: int)
      requires Ok(c) && c >= 0 && 0 < w.level < |wheels| && wheels[w.level] == w && index < cfg.scale
      requires Ripe(c, w, index)
      modifies this, (set v | v in wheels)`slots, layout.at.Keys`next
      ensures Ok(c) && PlacedOk(c, c) && layout.at.Keys == old(layout.at.Keys)
    {
      hide Measures, Layout.Ok, Layout.Behind, HeadsOk, CursorsOk, NextsOk, Below, Ripe, PlacedOk, Rest, DistinctIds;
      ghost var was := layout.at.Keys;
      var node, chain := TakeRipe(w, index, c);
      RestEnds(chain);
      ghost var j := 0;
      while node != null
        invariant 0 <= j <= |chain| && node == if j < |chain| then chain[j] else null
        invariant Ok(c) && PlacedOk(c, c)
        invariant forall k {:trigger chain[k].next} :: j <= k < |chain| ==> chain[k].next == NextOf(chain, k)
        invariant forall k {:trigger chain[k].id} :: j <= k < |chain| ==> chain[k].id !in layout.owner
        invariant layout.at.Keys == was - Rest(chain, j)
        decreases |chain| - j
      {
        var next := node.next;
        RestStep(was, chain, j);
        Settle(wheels[w.level - 1], node, c, c);
        node := next;
        j := j + 1;
      }
    }

    // The cursors while a carry runs upward: below `level` they already stand for `c + 1`.
    ghost predicate Carrying(c: nat, level: nat)
      requires cfg.Positive()
      reads this, wheels
    {
      forall l {:trigger wheels[l].pos} :: 0 <= l < |wheels| ==>
        wheels[l].pos == if l < level then Cursor(c + 1, l) else Cursor(c, l)
    }

    // With the carry going into round `level` the nodes are still placed for `c`; afterwards they
    // are placed for `c + 1`, up to the bucket that has to move down.
    lemma AdvancePlacement(c: nat, w: Wheel)
      requires Geometry() && Measures() && w.level < |wheels| && wheels[w.level] == w && w.level > 0
      requires PlacedOk(c, c + 1) && Carries(cfg.scale, c, w.level)
      requires Carries(cfg.scale, c, w.level + 1) ==> w.level + 1 == |wheels|
      ensures Ripe(c + 1, w, Shr(c + 1, cfg.scale, w.level) % cfg.scale)
      ensures Carries(cfg.scale, c, w.level + 1) ==> PlacedOk(c + 1, c + 1)
    {
      var b := cfg.scale;
      forall n | n in layout.at
        ensures var s := layout.at[n].slot;
          || SitsOk(c + 1, c + 1, n)
          || (!Carries(b, c, w.level + 1) && s == Slot(w.level, Shr(c + 1, b, w.level) % b)
              && Ready(c + 1, w.level - 1, n))
        ensures layout.at[n].slot == Slot(w.level, Shr(c + 1, b, w.level) % b) ==> !SitsOk(c + 1, c + 1, n)
      {
        assert SitsOk(c, c + 1, n);
        var d, s := n.ms / cfg.precision, layout.at[n].slot;
        ShrZero(n.ms, cfg.precision, b, cfg.rounds);
        AdvanceNode(cfg, c, w.level, d, n.fire, s.level, s.index);
        if s == Slot(w.level, Shr(c + 1, b, w.level) % b) && SitsOk(c + 1, c + 1, n) {
          SameQuotient(Shr(d, b, w.level), Shr(c + 1, b, w.level), b);
        }
      }
    }

    lemma CursorsAfter(c: nat, level: nat)
      requires Geometry() && level < |wheels|
      requires Carrying(c, level + 1) && (!Carries(cfg.scale, c, level + 1) || level + 1 == |wheels|)
      ensures CursorsOk(c + 1)
    {
      forall l | level < l < |wheels|
        ensures Cursor(c + 1, l) == Cursor(c, l)
      {
        DivSucc(Shr(c, cfg.scale, level), cfg.scale);
        ShrMono(c, c + 1, cfg.scale, level + 1);
        NoCarry(cfg.scale, c, level + 1);
        ShrAgreeUp(c + 1, c, cfg.scale, level + 1, l);
      }
    }

    // After a wrap nothing waits in slot 0 of an upper round.
    lemma EmptyBucket(c: nat, w: Wheel)
      requires Geometry() && 0 < w.level < |wheels| && PlacedOk(c, c)
      requires Shr(c, cfg.scale, w.level) % cfg.scale == 0
      ensures Ripe(c, w, 0)
    {
      forall n | n in layout.at
        ensures layout.at[n].slot != Slot(w.level, 0)
      {
        assert SitsOk(c, c, n);
        if layout.at[n].slot == Slot(w.level, 0) {
          SameQuotient(Shr(n.ms / cfg.precision, cfg.scale, w.level), Shr(c, cfg.scale, w.level), cfg.scale);
        }
      }
    }

    // Advances round `level` by one slot when the round below has wrapped, pulling one bucket of the
    // round above down first when this round wraps too.
    method ShiftCursor(w: Wheel, ghost c: nat)
      requires Geometry() && Measures() && layout.Ok() && HeadsOk() && NextsOk()
      requires 0 < w.level < |wheels| && wheels[w.level] == w
      requires Carrying(c, w.level) && PlacedOk(c, c + 1) && Carries(cfg.scale, c, w.level)
      modifies this, wheels, layout.at.Keys`next
      ensures Ok(c + 1) && PlacedOk(c + 1, c + 1) && layout.at.Keys == old(layout.at.Keys)
      decreases |wheels| - w.level
    {
      hide Layout.Ok, Layout.Behind, Sits, Ripe, PlacedOk;
      CarryUp(cfg.scale, c, w.level);
      w.pos := w.pos + 1;
      var index := w.pos % cfg.scale;
      if index == 0 && w.pos != 0 {
        if w.level + 1 == |wheels| {
          AdvancePlacement(c, w);
          CursorsAfter(c, w.level);
          return;
        }
        ShiftCursor(wheels[w.level + 1], c);
        EmptyBucket(c + 1, w);
      } else {
        AdvancePlacement(c, w);
        CursorsAfter(c, w.level);
      }
      MoveBucket(w, index, c + 1);
    }

    // ---------- the base round ----------

    static lemma BaseCarries(b: nat, c: nat)
      requires b >= 1
      ensures Carries(b, c, 0)
    {
    }

    lemma BaseSits(c: int, n: Node)
      requires cfg.Valid() && c >= -1 && n in layout.at && SitsOk(c, c + 1, n)
      requires c == -1 || !Carries(cfg.scale, c, 1) || cfg.rounds == 1
      ensures SitsOk(c + 1, c + 1, n)
    {
      hide Carries, Pow;
      var d, s := n.ms / cfg.precision, layout.at[n].slot;
      if c >= 0 {
        hide Sits;
        ShrZero(n.ms, cfg.precision, cfg.scale, cfg.rounds);
        BaseCarries(cfg.scale, c);
        AdvanceNode(cfg, c, 0, d, n.fire, s.level, s.index);
      }
    }

    // Without a carry out of round 0 the nodes stay placed when the cursor advances.
    lemma BasePlacement(c: int)
      requires Geometry() && Measures() && c >= -1 && PlacedOk(c, c + 1)
      requires c == -1 || !Carries(cfg.scale, c, 1) || |wheels| == 1
      ensures PlacedOk(c + 1, c + 1)
    {
      hide SitsOk, Carries;
      forall n | n in layout.at
        ensures SitsOk(c + 1, c + 1, n)
      {
        BaseSits(c, n);
      }
    }

    // A wheel of one round stops reading its slots once it wraps: nothing is due there any more.
    lemma WrappedOut(c: nat)
      requires Geometry() && Measures() && |wheels| == 1 && Carries(cfg.scale, c, 1)
      requires PlacedOk(c + 1, c + 1)
      ensures PlacedOk(c + 1, c + 2)
      ensures forall n :: n in layout.at ==> n.fire != c + 1
    {
      var b := cfg.scale;
      CarryUp(b, c, 0);
      forall n | n in layout.at
        ensures SitsOk(c + 1, c + 2, n) && n.fire != c + 1
      {
        assert SitsOk(c + 1, c + 1, n);
        var d := n.ms / cfg.precision;
        ShrZero(n.ms, cfg.precision, b, 1);
        if n.fire == c + 1 && n.fire != d {
          ModMulti(d, b, 1);
        }
      }
    }

    // Nodes under the cursor of round 0 are the ones this tick consumes.
    lemma DueSlot(c: nat, n: Node)
      requires Geometry() && PlacedOk(c, c) && n in layout.at
      requires !(|wheels| == 1 && c > 0 && c % cfg.scale == 0)
      ensures layout.at[n].slot == Slot(0, c % cfg.scale) <==> n.fire == c
      ensures n.fire != c ==> SitsOk(c, c + 1, n)
    {
      assert SitsOk(c, c, n);
      UnderCursor(cfg, c, n.ms / cfg.precision, n.fire, layout.at[n].slot.level, layout.at[n].slot.index);
    }

    // Detaches the slot under the cursor.
    method TakeDue(w: Wheel, ghost c: nat) returns (first: Node?, ghost chain: seq<Node>)
      requires Ok(c) && PlacedOk(c, c) && |wheels| > 0 && wheels[0] == w
      requires !(|wheels| == 1 && c > 0 && c % cfg.scale == 0)
      modifies this, w`slots
      ensures Ok(c) && PlacedOk(c, c + 1) && IsChain(first, chain)
      ensures old(layout).Removed(layout, Slot(0, c % cfg.scale), chain)
      ensures forall n {:trigger n in old(layout).at} :: n in old(layout).at ==> (n in layout.at <==> n.fire != c)
    {
      hide Layout.PositionsOk, Layout.Behind, Measures, HeadsOk, NextsOk, Sits;
      ghost var was := layout;
      assert w.pos == c && w.level == 0;
      forall n {:trigger n in was.at} | n in was.at
        ensures was.at[n].slot == Slot(0, c % cfg.scale) <==> n.fire == c
        ensures n.fire != c ==> SitsOk(c, c + 1, n)
      {
        DueSlot(c, n);
      }
      first, chain := TakeSlot(w, w.pos % cfg.scale, c);
    }

    // Of the nodes `was`, exactly those consumed by tick `c` have left the wheel, as `chain`.
    ghost predicate Took(was: set<Node>, chain: seq<Node>, c: int)
      reads this, was
    {
      && layout.at.Keys == was - (set n | n in chain)
      && (forall n {:trigger n in was} :: n in was ==> (n in layout.at <==> n.fire != c))
      && (forall k {:trigger chain[k]} :: 0 <= k < |chain| ==> chain[k] in was && chain[k].id !in layout.owner)
      && DistinctIds(chain)
    }

    // Moves the base cursor on and cascades. The last round may have wrapped, in which case nothing
    // can be due and no slot is to be read.
    method MoveCursor(ghost c: int) returns (readable: bool)
      requires Ok(c) && PlacedOk(c, c + 1)
      modifies this, wheels, layout.at.Keys`next
      ensures Ok(c + 1) && PlacedOk(c + 1, c + 1) && layout.at.Keys == old(layout.at.Keys)
      ensures readable <==> !(|wheels| == 1 && c + 1 > 0 && (c + 1) % cfg.scale == 0)
    {
      hide Layout.Ok, Layout.Behind, PlacedOk, Sits, Measures;
      var w := wheels[0];
      w.pos := w.pos + 1;
      var index := w.pos % cfg.scale;
      if c >= 0 {
        CarryUp(cfg.scale, c, 0);
        assert Carries(cfg.scale, c, 1) <==> index == 0;
      }
      if index == 0 && w.pos != 0 {
        if |wheels| == 1 {
          BasePlacement(c);
          return false;
        }
        assert Carrying(c, 1);
        ShiftCursor(wheels[1], c);
      } else {
        BasePlacement(c);
        if c >= 0 {
          CursorsAfter(c, 0);
        }
        assert CursorsOk(c + 1);
      }
      readable := true;
    }

    lemma WrappedNow(c: nat)
      requires Geometry() && (c + 1) % cfg.scale == 0
      ensures Carries(cfg.scale, c, 1)
    {
      CarryUp(cfg.scale, c, 0);
    }

    // Advances the wheel by one tick: cascades, then detaches what is due.
    method Advance(ghost c: int) returns (first: Node?, ghost chain: seq<Node>)
      requires Ok(c) && PlacedOk(c, c + 1)
      modifies this, wheels, layout.at.Keys`next
      ensures Ok(c + 1) && PlacedOk(c + 1, c + 2) && IsChain(first, chain)
      ensures Took(old(layout.at.Keys), chain, c + 1)
    {
      hide Layout.Ok, Layout.Behind, PlacedOk, Sits, Measures, CursorsOk, HeadsOk, NextsOk;
      var readable := MoveCursor(c);
      if !readable {
        WrappedNow(c);
        WrappedOut(c);
        return null, [];
      }
      first, chain := TakeDue(wheels[0], c + 1);
    }

    // `chain` holds exactly the entries of `was` that tick `c` consumes.
    static ghost predicate DueChain(was: map<int, Entry>, chain: seq<Node>, c: int)
      reads chain
    {
      && (forall k {:trigger chain[k]} :: 0 <= k < |chain| ==>
            chain[k].id in was && was[chain[k].id] == EntryOf(chain[k]) && chain[k].fire == c)
      && DistinctIds(chain)
      && (forall id {:trigger id in was} :: id in was && was[id].fire == c ==> exists k :: 0 <= k < |chain| && chain[k].id == id)
    }

    // Taking the nodes that fire at tick `c` out of the wheel takes their ids out of the timers.
    static lemma EntriesAfter(was: Layout, now: Layout, v0: map<Node, Entry>, v1: map<Node, Entry>, c: int)
      requires was.OwnersOk() && now.OwnersOk() && v0.Keys == was.at.Keys && v1.Keys == now.at.Keys
      requires forall n {:trigger n in v0} {:trigger n in v1} :: n in v1 <==> n in v0 && v0[n].fire != c
      requires forall n {:trigger v1[n]} :: n in v1 ==> v1[n] == v0[n]
      ensures var p := Entries(was.owner, v0);
        Entries(now.owner, v1) == map id | id in p && p[id].fire != c :: p[id]
    {
      forall id | id in now.owner
        ensures now.owner[id] in was.at && id in was.owner && was.owner[id] == now.owner[id]
      {
        assert now.owner[id] in v1;
      }
      forall id | id in was.owner && v0[was.owner[id]].fire != c
        ensures id in now.owner
      {
        assert was.owner[id] in v1;
      }
    }

    // The chain that leaves the wheel holds the entries due.
    static lemma ChainIsDue(was: Layout, v0: map<Node, Entry>, chain: seq<Node>, c: int)
      requires was.OwnersOk() && v0.Keys == was.at.Keys && DistinctIds(chain)
      requires forall n {:trigger n in v0} :: n in v0 ==> (n in chain <==> v0[n].fire == c)
      requires forall k {:trigger chain[k]} :: 0 <= k < |chain| ==> chain[k] in v0 && v0[chain[k]] == EntryOf(chain[k])
      ensures DueChain(Entries(was.owner, v0), chain, c)
    {
    }

    // Of the entries `was`, exactly those consumed by tick `c` have left the wheel, as `chain`, and none has
    // changed.
    ghost predicate Left(was: map<Node, Entry>, chain: seq<Node>, c: int)
      reads this, was.Keys
    {
      && layout.at.Keys <= was.Keys
      && (forall n {:trigger was[n]} {:trigger n in layout.at} :: n in was ==> (n in layout.at <==> was[n].fire != c))
      && (forall n {:trigger was[n]} :: n in was ==> EntryOf(n) == was[n] && (n in chain <==> was[n].fire == c))
      && (forall k {:trigger chain[k]} :: 0 <= k < |chain| ==> chain[k] in was && chain[k] !in layout.at)
      && DistinctIds(chain)
    }

    lemma LeftIs(was: map<Node, Entry>, chain: seq<Node>, c: int)
      requires Took(was.Keys, chain, c) && forall n {:trigger was[n]} :: n in was ==> EntryOf(n) == was[n]
      ensures Left(was, chain, c)
    {
      forall n | n in was
        ensures n in chain <==> was[n].fire == c
      {
        assert EntryOf(n) == was[n];
      }
    }

    method TakeFired(ghost c: int) returns (first: Node?, ghost chain: seq<Node>)
      requires Ok(c) && PlacedOk(c, c + 1)
      modifies this, wheels, layout.at.Keys`next
      ensures Ok(c + 1) && PlacedOk(c + 1, c + 2) && IsChain(first, chain)
      ensures Left(old(Snapshot()), chain, c + 1)
    {
      hide Ok, PlacedOk, IsChain, Took, Left;
      ghost var v0 := Snapshot();
      assert v0.Keys == layout.at.Keys;
      first, chain := Advance(c);
      forall n | n in v0
        ensures EntryOf(n) == v0[n]
      {
        assert n.ms == old(n.ms) && n.count == old(n.count) && n.fire == old(n.fire);
      }
      LeftIs(v0, chain, c + 1);
    }

    // What has left the wheel, seen from the waiting timers.
    static lemma LeftEntries(was: Layout, now: Layout, v0: map<Node, Entry>, v1: map<Node, Entry>, r: Rounds,
                             chain: seq<Node>, c: int)
      requires was.OwnersOk() && now.OwnersOk() && v0.Keys == was.at.Keys && v1.Keys == now.at.Keys
      requires r.layout == now && r.Left(v0, chain, c) && v1 == r.Snapshot()
      ensures DueChain(Entries(was.owner, v0), chain, c)
      ensures var p := Entries(was.owner, v0);
        Entries(now.owner, v1) == map id | id in p && p[id].fire != c :: p[id]
    {
      hide DueChain, Entries, Layout.OwnersOk, DistinctIds;
      ChainIsDue(was, v0, chain, c);
      EntriesAfter(was, now, v0, v1, c);
    }

    // One tick of the wheel, seen from the waiting timers.
    method TakeTick(ghost c: int) returns (first: Node?, ghost chain: seq<Node>)
      requires Ok(c) && PlacedOk(c, c + 1)
      modifies this, wheels, layout.at.Keys`next
      ensures Ok(c + 1) && PlacedOk(c + 1, c + 2) && IsChain(first, chain)
      ensures DueChain(old(Pending()), chain, c + 1)
      ensures Pending() == map id | id in old(Pending()) && old(Pending())[id].fire != c + 1 :: old(Pending())[id]
      ensures forall k {:trigger chain[k]} :: 0 <= k < |chain| ==> chain[k] in old(layout.at.Keys) && chain[k] !in layout.at
      ensures layout.at.Keys <= old(layout.at.Keys)
    {
      hide Ok, PlacedOk, IsChain, Pending, Entries, DueChain, Layout.OwnersOk;
      OwnersKnown(c);
      PendingIsSnapshot();
      ghost var was, v0 := layout, Snapshot();
      first, chain := TakeFired(c);
      OwnersKnown(c + 1);
      PendingIsSnapshot();
      LeftEntries(was, layout, v0, Snapshot(), this, chain, c + 1);
    }
  }
}
