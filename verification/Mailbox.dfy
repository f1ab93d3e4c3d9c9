// The actor mailbox: two classes of messages, swapped out and dispatched while handlers and other threads
// keep pushing.

module Mailbox {
  import opened Common
  import opened Gate

  const WARN_GAP := 60000

  // A message with the priority its protocol had when it was pushed.
  datatype Msg = Msg(id: int, high: Option<int>)

  // Zero for normal messages, else the bucket.
  function Level(m: Msg): (k: int)
    ensures k >= 0
  {
    if m.high.Some? && m.high.value > 0 then m.high.value else 0
  }

  // A push by a handler or by another thread, at some time and with what the readiness checks then answer.
  datatype Post = Post(msg: Msg, now: int, answers: Answers)

  datatype Warning = Warning(hight: bool, cnt: int, warncnt: int, skipcnt: int)

  // Depth and warning state of one queue. Ghosts: how many pushes overflowed, how many warnings were sent
  // and how many suppressed ones these reported.
  class QueueWarn {
    const hight: bool
    const warncnt: int
    var lastms: int
    var skipcnt: int
    var cnt: int
    ghost var overflows: int
    ghost var emitted: int
    ghost var reported: int

    ghost predicate Accounted()
      reads this
    {
      overflows == emitted + reported + skipcnt
    }

    constructor (ahight: bool, awarncnt: int)
      ensures hight == ahight && warncnt == awarncnt && cnt == 0 && Accounted()
      ensures overflows == 0 && emitted == 0
    {
      hight, warncnt, lastms, skipcnt, cnt := ahight, awarncnt, 0, 0, 0;
      overflows, emitted, reported := 0, 0, 0;
    }

    method IsWarn(now: int) returns (warn: Option<Warning>)
      requires Accounted()
      modifies this
      ensures Accounted() && cnt == old(cnt)
      ensures overflows == old(overflows) + if warncnt > 0 && cnt > warncnt then 1 else 0
      ensures warn.Some? <==>
                warncnt > 0 && cnt > warncnt && (old(lastms) == 0 || now - old(lastms) >= 60_000)
      ensures warn.Some? ==>
                && warn.value == Warning(hight, cnt, warncnt, old(skipcnt)) && skipcnt == 0 && lastms == now
                && emitted == old(emitted) + 1 && reported == old(reported) + old(skipcnt)
      ensures warn.None? ==> lastms == old(lastms) && emitted == old(emitted) && reported == old(reported)
    {
      if warncnt > 0 && cnt > warncnt {
        overflows := overflows + 1;
        if lastms != 0 && now - lastms < WARN_GAP {
          skipcnt := skipcnt + 1;
          warn := None;
          return;
        }
        warn := Some(Warning(hight, cnt, warncnt, skipcnt));
        emitted, reported := emitted + 1, reported + skipcnt;
        skipcnt := 0;
        lastms := now;
        return;
      }
      warn := None;
    }
  }

  // The messages of one level, in order.
  ghost function Of(ms: seq<Msg>, k: int): seq<Msg> {
    if ms == [] then []
    else Of(ms[..|ms| - 1], k) + if Level(ms[|ms| - 1]) == k then [ms[|ms| - 1]] else []
  }

  lemma OfAppend(ms: seq<Msg>, m: Msg, k: int)
    ensures Of(ms + [m], k) == Of(ms, k) + if Level(m) == k then [m] else []
  {
  }

  lemma OfNothing()
    ensures forall k {:trigger Of([], k)} :: Of([], k) == []
  {
  }

  lemma {:induction false} OfConcat(a: seq<Msg>, b: seq<Msg>, k: int)
    ensures Of(a + b, k) == Of(a, k) + Of(b, k)
    decreases |b|
  {
    if b == [] {
      assert a + b == a;
    } else {
      var last := b[|b| - 1];
      assert a + b == (a + b[..|b| - 1]) + [last];
      OfConcat(a, b[..|b| - 1], k);
      OfAppend(a + b[..|b| - 1], last, k);
    }
  }

  lemma {:induction false} OfLevel(ms: seq<Msg>, k: int)
    ensures forall i :: 0 <= i < |Of(ms, k)| ==> Level(Of(ms, k)[i]) == k
  {
    if ms != [] {
      OfLevel(ms[..|ms| - 1], k);
    }
  }

  function Get(m: map<int, seq<Msg>>, k: int): seq<Msg> {
    if k in m then m[k] else []
  }

  ghost function PickKey(keys: set<int>): (k: int)
    requires keys != {}
    ensures k in keys
  {
    EmptyWithout(keys);
    var k :| k in keys;
    k
  }

  // How many messages a map of buckets holds.
  ghost function Total(m: map<int, seq<Msg>>): nat {
    if m == map[] then 0
    else
      var k := PickKey(m.Keys);
      |m[k]| + Total(m - {k})
  }

  lemma {:induction false} TotalRemove(m: map<int, seq<Msg>>, k: int)
    requires k in m
    ensures Total(m) == |m[k]| + Total(m - {k})
    decreases |m|
  {
    var j := PickKey(m.Keys);
    if j != k {
      assert (m - {j})[k] == m[k];
      TotalRemove(m - {j}, k);
      assert m - {j} - {k} == m - {k} - {j};
      TotalRemove(m - {k}, j);
    }
  }

  lemma TotalUpdate(m: map<int, seq<Msg>>, k: int, v: seq<Msg>)
    ensures Total(m[k := v]) == Total(m) - |Get(m, k)| + |v|
  {
    TotalRemove(m[k := v], k);
    assert m[k := v] - {k} == m - {k};
    if k in m {
      TotalRemove(m, k);
    } else {
      assert m - {k} == m;
    }
  }

  // Every level's pushed messages are its dispatched ones, then those a slice holds, then those queued.
  ghost predicate Conserved(pushed: seq<Msg>, done: seq<Msg>, local: map<int, seq<Msg>>,
                            list: seq<Msg>, high: map<int, seq<Msg>>) {
    forall k {:trigger Of(pushed, k)} ::
      Of(pushed, k) == Of(done, k) + Get(local, k) + if k == 0 then list else Get(high, k)
  }

  lemma PushConserves(pushed: seq<Msg>, done: seq<Msg>, local: map<int, seq<Msg>>,
                      list: seq<Msg>, high: map<int, seq<Msg>>, m: Msg)
    requires Conserved(pushed, done, local, list, high)
    ensures var k := Level(m);
            Conserved(pushed + [m], done, local, if k == 0 then list + [m] else list,
                      if k == 0 then high else high[k := Get(high, k) + [m]])
  {
    hide Of, Level;
    var k := Level(m);
    var list', high' := if k == 0 then list + [m] else list, if k == 0 then high else high[k := Get(high, k) + [m]];
    forall j ensures Of(pushed + [m], j) == Of(done, j) + Get(local, j) + if j == 0 then list' else Get(high', j) {
      OfAppend(pushed, m, j);
      var queued := if j == 0 then list else Get(high, j);
      assert Of(pushed, j) == Of(done, j) + Get(local, j) + queued;
      ConcatAssoc(Of(done, j) + Get(local, j), queued, [m]);
    }
  }

  lemma Shift(a: seq<Msg>, m: Msg, b: seq<Msg>, c: seq<Msg>)
    ensures a + ([m] + b) + c == a + [m] + b + c
  {
  }

  lemma DispatchConserves(pushed: seq<Msg>, done: seq<Msg>, local: map<int, seq<Msg>>,
                          list: seq<Msg>, high: map<int, seq<Msg>>, k: int)
    requires Conserved(pushed, done, local, list, high) && Get(local, k) != []
    ensures Level(local[k][0]) == k
    ensures Conserved(pushed, done + [local[k][0]], local[k := local[k][1..]], list, high)
  {
    hide Of;
    var m, rest := local[k][0], local[k][1..];
    OfLevel(pushed, k);
    assert Of(pushed, k) == Of(done, k) + Get(local, k) + if k == 0 then list else Get(high, k);
    assert Of(pushed, k)[|Of(done, k)|] == m && Get(local, k) == [m] + rest;
    forall j ensures Of(pushed, j) ==
                     Of(done + [m], j) + Get(local[k := rest], j) + if j == 0 then list else Get(high, j)
    {
      OfAppend(done, m, j);
      var queued := if j == 0 then list else Get(high, j);
      assert Of(pushed, j) == Of(done, j) + Get(local, j) + queued;
      if j == k {
        Shift(Of(done, j), m, rest, queued);
      } else {
        assert Of(done, j) + [] == Of(done, j);
      }
    }
  }

  // Taking a queue out, or putting what is left of it back in front.
  lemma MoveConserves(pushed: seq<Msg>, done: seq<Msg>, l: map<int, seq<Msg>>, list: seq<Msg>, high: map<int, seq<Msg>>,
                      l': map<int, seq<Msg>>, list': seq<Msg>, high': map<int, seq<Msg>>)
    requires Conserved(pushed, done, l, list, high)
    requires forall k :: Get(l, k) + (if k == 0 then list else Get(high, k)) ==
                         Get(l', k) + (if k == 0 then list' else Get(high', k))
    ensures Conserved(pushed, done, l', list', high')
  {
    hide Of, Get;
    forall k ensures Of(pushed, k) == Of(done, k) + Get(l', k) + if k == 0 then list' else Get(high', k) {
      assert Of(pushed, k) == Of(done, k) + Get(l, k) + if k == 0 then list else Get(high, k);
      ConcatAssoc(Of(done, k), Get(l, k), if k == 0 then list else Get(high, k));
      ConcatAssoc(Of(done, k), Get(l', k), if k == 0 then list' else Get(high', k));
    }
  }

  ghost predicate Buckets(m: map<int, seq<Msg>>) {
    forall k :: k in m ==> k > 0 && m[k] != []
  }

  lemma SwapConserves(pushed: seq<Msg>, done: seq<Msg>, list: seq<Msg>, high: map<int, seq<Msg>>)
    requires Conserved(pushed, done, map[], list, high) && Buckets(high)
    ensures Conserved(pushed, done, high, list, map[]) && Total(map[]) == 0
  {
  }

  lemma EmptiedBucket(pushed: seq<Msg>, done: seq<Msg>, local: map<int, seq<Msg>>,
                      list: seq<Msg>, high: map<int, seq<Msg>>, k: int)
    requires Conserved(pushed, done, local, list, high) && Get(local, k) == []
    ensures Conserved(pushed, done, local - {k}, list, high)
  {
  }

  lemma {:induction false} OfUniform(ms: seq<Msg>, k: int, j: int)
    requires forall i :: 0 <= i < |ms| ==> Level(ms[i]) == k
    ensures Of(ms, j) == if j == k then ms else []
  {
    if ms != [] {
      hide Of, Level;
      var less, last := ms[..|ms| - 1], ms[|ms| - 1];
      OfUniform(less, k, j);
      assert ms == less + [last];
      OfAppend(less, last, j);
    } else {
      OfNothing();
    }
  }

  // What a slice dispatches of the priority messages: whole buckets below the gate, most urgent first.
  ghost predicate Drained(hs: seq<Msg>, high: map<int, seq<Msg>>, rest: map<int, seq<Msg>>) {
    && rest.Keys <= high.Keys
    && (forall k {:trigger Of(hs, k)} :: Of(hs, k) == if k in high && k !in rest then high[k] else [])
    && (forall i :: 0 <= i < |hs| ==> Level(hs[i]) in high && Level(hs[i]) !in rest)
    && (forall i, j :: 0 <= i < j < |hs| ==> Level(hs[i]) <= Level(hs[j]))
  }

  // The buckets the gate holds back.
  ghost function Held(high: map<int, seq<Msg>>, gap: Option<int>): map<int, seq<Msg>> {
    map k | k in high && !Passes(k, gap) :: high[k]
  }

  // Some buckets, all more urgent than those still there and below the gate, are gone.
  ghost predicate Partway(high: map<int, seq<Msg>>, rest: map<int, seq<Msg>>, gap: Option<int>) {
    && rest.Keys <= high.Keys && (forall k :: k in rest ==> rest[k] == high[k])
    && forall k :: k in high && k !in rest ==> Passes(k, gap) && forall j :: j in rest ==> k < j
  }

  lemma PartwayStart(high: map<int, seq<Msg>>, gap: Option<int>)
    ensures Partway(high, high, gap)
  {
  }

  lemma PartwayStep(high: map<int, seq<Msg>>, rest: map<int, seq<Msg>>, gap: Option<int>, k: int)
    requires Partway(high, rest, gap) && k in rest && Passes(k, gap) && forall j :: j in rest ==> k <= j
    ensures Partway(high, rest - {k}, gap) && k in high && rest[k] == high[k]
    ensures forall j :: j in high && j !in rest ==> j < k
  {
  }

  lemma PartwayEnd(high: map<int, seq<Msg>>, rest: map<int, seq<Msg>>, gap: Option<int>)
    requires Partway(high, rest, gap) && forall k :: k in rest ==> !Passes(k, gap)
    ensures rest == Held(high, gap)
  {
    var held := Held(high, gap);
    assert rest.Keys == held.Keys by {
      assert forall k :: k in rest <==> k in held;
    }
  }

  lemma DrainedNone(high: map<int, seq<Msg>>)
    ensures Drained([], high, high)
  {
  }

  lemma DrainedStep(hs: seq<Msg>, high: map<int, seq<Msg>>, rest: map<int, seq<Msg>>, k: int)
    requires Drained(hs, high, rest) && k in rest && rest[k] == high[k]
    requires forall i :: 0 <= i < |high[k]| ==> Level(high[k][i]) == k
    requires forall j :: j in high && j !in rest ==> j < k
    ensures Drained(hs + high[k], high, rest - {k})
  {
    hide Of, Level;
    var bucket := high[k];
    var all := hs + bucket;
    forall j ensures Of(all, j) == if j in high && j !in rest - {k} then high[j] else [] {
      OfConcat(hs, bucket, j);
      OfUniform(bucket, k, j);
      assert Of(hs, j) == if j in high && j !in rest then high[j] else [];
    }
    forall i | 0 <= i < |all| ensures Level(all[i]) in high && Level(all[i]) !in rest - {k} && Level(all[i]) <= k {
      assert all[i] == if i < |hs| then hs[i] else bucket[i - |hs|];
    }
    forall i, j | 0 <= i < j < |all| ensures Level(all[i]) <= Level(all[j]) {
      if j < |hs| {
        assert Level(hs[i]) <= Level(hs[j]);
      } else {
        assert all[j] == bucket[j - |hs|];
      }
    }
  }

  lemma BucketsLess(m: map<int, seq<Msg>>, k: int)
    requires Buckets(m) && k in m
    ensures m[k] != [] && Buckets(m - {k})
  {
  }

  // What `list_empty` answers.
  ghost predicate Idle(high: map<int, seq<Msg>>, list: seq<Msg>, gap: Option<int>) {
    if gap.None? then list == [] && high == map[] else forall k :: k in high ==> !Passes(k, gap)
  }

  lemma OneGate(ready: map<int, seq<int>>, g: Option<int>, h: Option<int>, answers: Answers)
    requires IsGate(ready, g, answers) && IsGate(ready, h, answers)
    ensures g == h
  {
  }

  lemma GateOrReady(ready: map<int, seq<int>>, gap: Option<int>, answers: Answers)
    requires IsGate(ready, gap, answers)
    ensures gap.None? <==> forall k :: !Unmet(ready, k, answers)
  {
  }

  lemma DispatchedSome(hs: seq<Msg>, high: map<int, seq<Msg>>, gap: Option<int>)
    requires Buckets(high) && Drained(hs, high, Held(high, gap))
    ensures hs != [] <==> exists k :: k in high && Passes(k, gap)
    ensures gap.None? ==> (hs != [] <==> high != map[])
  {
    if hs != [] {
      assert Level(hs[0]) in high && Level(hs[0]) !in Held(high, gap);
    } else {
      forall k | k in high ensures !Passes(k, gap) {
        assert Of(hs, k) == [];
      }
    }
    if gap.None? && high != map[] {
      var k := PickKey(high.Keys);
      assert k in high && Passes(k, gap);
    }
  }

  lemma {:induction false} OfCounts(ms: seq<Msg>, m: Msg)
    ensures multiset(Of(ms, Level(m)))[m] == multiset(ms)[m]
  {
    if ms != [] {
      hide Of, Level;
      var less, last := ms[..|ms| - 1], ms[|ms| - 1];
      OfCounts(less, m);
      assert ms == less + [last];
      OfAppend(less, last, Level(m));
    }
  }

  // Nothing is lost or handled twice: a message has been pushed as often as it has been dispatched plus as
  // often as it still waits in the queue of its level.
  lemma PushedIsDoneOrQueued(pushed: seq<Msg>, done: seq<Msg>, list: seq<Msg>, high: map<int, seq<Msg>>, m: Msg)
    requires Conserved(pushed, done, map[], list, high)
    ensures multiset(pushed)[m] ==
            multiset(done)[m] + multiset(if Level(m) == 0 then list else Get(high, Level(m)))[m]
  {
    var k := Level(m);
    OfCounts(pushed, m);
    OfCounts(done, m);
    assert Of(pushed, k) == Of(done, k) + [] + if k == 0 then list else Get(high, k);
    assert Of(done, k) + [] == Of(done, k);
  }

  lemma NormalSwap(pushed: seq<Msg>, done: seq<Msg>, list: seq<Msg>, high: map<int, seq<Msg>>)
    requires Conserved(pushed, done, map[], list, high)
    ensures Conserved(pushed, done, map[0 := list], [], high)
  {
  }

  lemma NormalReturn(pushed: seq<Msg>, done: seq<Msg>, local: seq<Msg>, list: seq<Msg>, high: map<int, seq<Msg>>)
    requires Conserved(pushed, done, map[0 := local], list, high)
    ensures Conserved(pushed, done, map[], if local != [] then local + list else list, high)
  {
  }

  function Messages(posts: seq<Post>): (ms: seq<Msg>)
    ensures |ms| == |posts|
  {
    seq(|posts|, i requires 0 <= i < |posts| => posts[i].msg)
  }

  // The messages pushed at the moments from `a` to `b` of a slice.
  ghost function Scripted(script: nat -> seq<Post>, a: nat, b: nat): seq<Msg>
    requires a <= b
    decreases b
  {
    if a == b then [] else Scripted(script, a, b - 1) + Messages(script(b - 1))
  }

  lemma {:induction false} ScriptedJoin(script: nat -> seq<Post>, a: nat, b: nat, c: nat)
    requires a <= b <= c
    ensures Scripted(script, a, c) == Scripted(script, a, b) + Scripted(script, b, c)
    decreases c
  {
    if b < c {
      ScriptedJoin(script, a, b, c - 1);
      ConcatAssoc(Scripted(script, a, b), Scripted(script, b, c - 1), Messages(script(c - 1)));
    } else {
      assert Scripted(script, a, b) + [] == Scripted(script, a, b);
    }
  }

  lemma ScriptedOne(script: nat -> seq<Post>, a: nat)
    ensures Scripted(script, a, a + 1) == Messages(script(a)) && Scripted(script, a, a) == []
  {
    assert [] + Messages(script(a)) == Messages(script(a));
  }

  // Exactly `more` has been pushed, in order.
  ghost predicate Arrived(pushed: seq<Msg>, list: seq<Msg>, pushed': seq<Msg>, list': seq<Msg>, more: seq<Msg>) {
    pushed' == pushed + more && list' == list + Of(more, 0)
  }

  lemma ArrivedNone(pushed: seq<Msg>, list: seq<Msg>)
    ensures Arrived(pushed, list, pushed, list, [])
  {
    assert pushed + [] == pushed && list + [] == list;
  }

  lemma ArrivedOne(pushed: seq<Msg>, list: seq<Msg>, p: seq<Msg>, l: seq<Msg>, a: seq<Msg>, m: Msg)
    requires Arrived(pushed, list, p, l, a)
    ensures Arrived(pushed, list, p + [m], if Level(m) == 0 then l + [m] else l, a + [m])
  {
    hide Of, Level;
    OfAppend(a, m, 0);
    ConcatAssoc(pushed, a, [m]);
    ConcatAssoc(list, Of(a, 0), [m]);
    if Level(m) != 0 {
      assert Of(a, 0) + [] == Of(a, 0);
    }
  }

  lemma ArrivedJoin(p0: seq<Msg>, l0: seq<Msg>, p1: seq<Msg>, l1: seq<Msg>, p2: seq<Msg>, l2: seq<Msg>,
                    a: seq<Msg>, b: seq<Msg>)
    requires Arrived(p0, l0, p1, l1, a) && Arrived(p1, l1, p2, l2, b)
    ensures Arrived(p0, l0, p2, l2, a + b)
  {
    OfConcat(a, b, 0);
    ConcatAssoc(p0, a, b);
    ConcatAssoc(l0, Of(a, 0), Of(b, 0));
  }

  // The pushes of a slice up to moment `b`, and then those up to `c`.
  lemma ScriptArrives(p0: seq<Msg>, l0: seq<Msg>, p1: seq<Msg>, l1: seq<Msg>, p2: seq<Msg>, l2: seq<Msg>,
                      script: nat -> seq<Post>, a: nat, b: nat, c: nat)
    requires a <= b <= c
    requires Arrived(p0, l0, p1, l1, Scripted(script, a, b)) && Arrived(p1, l1, p2, l2, Scripted(script, b, c))
    ensures Arrived(p0, l0, p2, l2, Scripted(script, a, c))
  {
    ArrivedJoin(p0, l0, p1, l1, p2, l2, Scripted(script, a, b), Scripted(script, b, c));
    ScriptedJoin(script, a, b, c);
  }

  // ---------- runs ----------

  // What happens to a mailbox: a push, or a slice with whatever happens meanwhile.
  datatype Event =
    | Pushed(p: Post)
    | Slice(script: nat -> seq<Post>, answers1: Answers, answers2: Answers, late: nat -> bool)

  // What it comes to: what a push answers; what a slice answers, with the priority and the normal messages it
  // handed to their handlers and the gate it found.
  datatype Report =
    | Told(ret: bool)
    | Ran(ok: bool, gap: Option<int>, hs: seq<Msg>, ns: seq<Msg>)

  // A mailbox between two events, and its history.
  datatype Box = Box(list: seq<Msg>, high: map<int, seq<Msg>>, pushed: seq<Msg>, done: seq<Msg>)

  ghost predicate Kept(b: Box) {
    Conserved(b.pushed, b.done, map[], b.list, b.high) && Buckets(b.high)
  }

  ghost predicate PushStep(ready: map<int, seq<int>>, b: Box, b': Box, p: Post, ret: bool) {
    var k := Level(p.msg);
    && b'.pushed == b.pushed + [p.msg] && b'.done == b.done
    && if k > 0 then
         && b'.high == b.high[k := Get(b.high, k) + [p.msg]] && b'.list == b.list
         && (ret <==> forall j :: j in b.high ==> k < j)
       else
         && b'.list == b.list + [p.msg] && b'.high == b.high
         && (ret <==> forall j :: !Unmet(ready, j, p.answers))
  }

  // `ns` is what weight and time allow of the normal messages that were waiting.
  ghost predicate Allowed(queue: seq<Msg>, ns: seq<Msg>, weight: int, release: bool, late: nat -> bool) {
    && |ns| <= |queue| && ns == queue[..|ns|]
    && (|ns| < |queue| ==> weight <= |ns| || (!release && late(|ns|)))
    && (|ns| <= weight || ns == [])
    && forall i :: 0 <= i < |ns| ==> release || !late(i)
  }

  // A slice. What is pushed before the normal queue is taken out may still be dispatched by it.
  ghost predicate SliceStep(ready: map<int, seq<int>>, weight: int, release: bool, b: Box, b': Box,
                            script: nat -> seq<Post>, answers1: Answers, answers2: Answers, late: nat -> bool,
                            ok: bool, gap: Option<int>, hs: seq<Msg>, ns: seq<Msg>) {
    var t := 2 + |hs|;
    var queue := b.list + Of(Scripted(script, 0, t), 0);
    && IsGate(ready, gap, answers1) && Drained(hs, b.high, Held(b.high, gap))
    && (ok <==> forall k :: !Unmet(ready, k, answers2))
    && b'.done == b.done + hs + ns
    && if ok then
         && Allowed(queue, ns, weight, release, late)
         && b'.pushed == b.pushed + Scripted(script, 0, t + 2 + |ns|)
         && b'.list == queue[|ns|..] + Of(Scripted(script, t, t + 2 + |ns|), 0)
       else
         ns == [] && b'.pushed == b.pushed + Scripted(script, 0, t) && b'.list == queue
  }

  ghost predicate EventStep(ready: map<int, seq<int>>, weight: int, b: Box, event: Event, report: Report, b': Box) {
    && Kept(b')
    && match event
       case Pushed(p) => report.Told? && PushStep(ready, b, b', p, report.ret)
       case Slice(script, answers1, answers2, late) =>
         && report.Ran?
         && SliceStep(ready, weight, false, b, b', script, answers1, answers2, late, report.ok, report.gap, report.hs, report.ns)
  }

  // A run: what each event does to the mailbox, starting from an empty one.
  ghost predicate Runs(ready: map<int, seq<int>>, weight: int, boxes: seq<Box>, events: seq<Event>, reports: seq<Report>) {
    && |boxes| == |events| + 1 && |reports| == |events|
    && boxes[0] == Box([], map[], [], [])
    && forall i :: 0 <= i < |events| ==> EventStep(ready, weight, boxes[i], events[i], reports[i], boxes[i + 1])
  }

  // What one event pushes and what it handles.
  ghost function SentBy(event: Event, report: Report): seq<Msg> {
    match event
    case Pushed(p) => [p.msg]
    case Slice(script, _, _, _) =>
      if report.Told? then []
      else Scripted(script, 0, 2 + |report.hs| + if report.ok then 2 + |report.ns| else 0)
  }

  function HandledBy(report: Report): seq<Msg> {
    if report.Ran? then report.hs + report.ns else []
  }

  // The messages the events push, each slice's by the script as far as it got.
  ghost function Sent(events: seq<Event>, reports: seq<Report>): seq<Msg>
    requires |reports| == |events|
  {
    if events == [] then []
    else
      var n := |events| - 1;
      Sent(events[..n], reports[..n]) + SentBy(events[n], reports[n])
  }

  function Handled(reports: seq<Report>): seq<Msg> {
    if reports == [] then []
    else
      Handled(reports[..|reports| - 1]) + HandledBy(reports[|reports| - 1])
  }

  lemma StepHistory(ready: map<int, seq<int>>, weight: int, b: Box, event: Event, report: Report, b': Box)
    requires EventStep(ready, weight, b, event, report, b')
    ensures b'.pushed == b.pushed + SentBy(event, report) && b'.done == b.done + HandledBy(report)
  {
    hide Of, Drained, Held, IsGate, Unmet, Kept, Allowed, Scripted, Level;
    if report.Ran? {
      ConcatAssoc(b.done, report.hs, report.ns);
    } else {
      assert b.done + [] == b.done;
    }
  }

  // What has been pushed is what the events pushed, in order, and what is done is what the slices handled.
  lemma {:induction false} RunHistory(ready: map<int, seq<int>>, weight: int, boxes: seq<Box>, events: seq<Event>,
                                      reports: seq<Report>, i: nat)
    requires Runs(ready, weight, boxes, events, reports) && i <= |events|
    ensures boxes[i].pushed == Sent(events[..i], reports[..i]) && boxes[i].done == Handled(reports[..i])
    decreases i
  {
    hide EventStep, SentBy, HandledBy;
    if i > 0 {
      RunHistory(ready, weight, boxes, events, reports, i - 1);
      StepHistory(ready, weight, boxes[i - 1], events[i - 1], reports[i - 1], boxes[i]);
      assert events[..i][..i - 1] == events[..i - 1] && reports[..i][..i - 1] == reports[..i - 1];
    }
  }

  lemma ConservedAll(pushed: seq<Msg>, done: seq<Msg>, list: seq<Msg>, high: map<int, seq<Msg>>)
    requires Conserved(pushed, done, map[], list, high)
    ensures forall k {:trigger Of(pushed, k)} :: Of(pushed, k) == Of(done, k) + if k == 0 then list else Get(high, k)
    ensures forall m {:trigger multiset(pushed)[m]} ::
              multiset(pushed)[m] == multiset(done)[m] + multiset(if Level(m) == 0 then list else Get(high, Level(m)))[m]
  {
    forall m ensures multiset(pushed)[m] == multiset(done)[m] + multiset(if Level(m) == 0 then list else Get(high, Level(m)))[m] {
      PushedIsDoneOrQueued(pushed, done, list, high, m);
    }
    forall k ensures Of(pushed, k) == Of(done, k) + if k == 0 then list else Get(high, k) {
      assert Of(done, k) + [] == Of(done, k);
    }
  }

  lemma RunsMore(ready: map<int, seq<int>>, weight: int, boxes: seq<Box>, events: seq<Event>, reports: seq<Report>,
                 event: Event, report: Report, b: Box)
    requires Runs(ready, weight, boxes, events, reports) && EventStep(ready, weight, boxes[|events|], event, report, b)
    ensures Runs(ready, weight, boxes + [b], events + [event], reports + [report])
  {
    hide EventStep;
    var boxes', events', reports' := boxes + [b], events + [event], reports + [report];
    forall i | 0 <= i < |events'| ensures EventStep(ready, weight, boxes'[i], events'[i], reports'[i], boxes'[i + 1]) {
      if i < |events| {
        assert EventStep(ready, weight, boxes[i], events[i], reports[i], boxes[i + 1]);
      }
    }
  }

  // A slice does nothing exactly when there was nothing to run, if no checks change, weight and time allow a
  // message, and nobody pushes at its start.
  lemma SliceWorks(ready: map<int, seq<int>>, weight: int, release: bool, b: Box, b': Box,
                   script: nat -> seq<Post>, answers: Answers, late: nat -> bool,
                   ok: bool, gap: Option<int>, hs: seq<Msg>, ns: seq<Msg>)
    requires SliceStep(ready, weight, release, b, b', script, answers, answers, late, ok, gap, hs, ns) && Buckets(b.high)
    requires 0 < weight && (release || !late(0)) && script(0) == [] && script(1) == []
    ensures hs + ns == [] <==> Idle(b.high, b.list, gap)
  {
    hide Of, Drained, Held, IsGate, Unmet, Scripted;
    GateOrReady(ready, gap, answers);
    DispatchedSome(hs, b.high, gap);
    if hs == [] {
      ScriptedOne(script, 0);
      ScriptedOne(script, 1);
      ScriptedJoin(script, 0, 1, 2);
      OfNothing();
      assert Scripted(script, 0, 2) == [] && b.list + [] == b.list;
    }
  }

  // ---------- urgency ----------

  // Only normal messages wait in the normal queue.
  lemma ListLevel(b: Box)
    requires Kept(b)
    ensures forall i :: 0 <= i < |b.list| ==> Level(b.list[i]) == 0
  {
    hide Of, Level;
    assert Of(b.pushed, 0) == Of(b.done, 0) + [] + b.list;
    OfLevel(b.pushed, 0);
    forall i | 0 <= i < |b.list| ensures Level(b.list[i]) == 0 {
      assert b.list[i] == Of(b.pushed, 0)[|Of(b.done, 0)| + i];
    }
  }

  // A message of priority `k`.
  predicate IsUrgent(m: Msg, k: int) {
    m.high == Some(k) && k > 0
  }

  predicate IsNormal(m: Msg) {
    m.high == None || m.high.value <= 0
  }

  // What a slice handles, told from the priorities of the messages: first such with one, all below the gate and the
  // more urgent earlier; then normal ones.
  ghost predicate Urgent(gap: Option<int>, hs: seq<Msg>, ns: seq<Msg>) {
    && (forall i :: 0 <= i < |hs| ==> hs[i].high.Some? && hs[i].high.value > 0 && (gap.Some? ==> hs[i].high.value < gap.value))
    && (forall i, j :: 0 <= i < j < |hs| && hs[i].high.Some? && hs[j].high.Some? ==> hs[i].high.value <= hs[j].high.value)
    && (forall i :: 0 <= i < |ns| ==> IsNormal(ns[i]))
  }

  lemma LevelMeans(m: Msg, k: int)
    ensures k > 0 ==> (Level(m) == k <==> IsUrgent(m, k))
    ensures Level(m) == 0 <==> IsNormal(m)
  {
  }

  // Every bucket holds the messages of its own priority.
  lemma BucketLevel(b: Box, k: int)
    requires Kept(b) && k in b.high
    ensures k > 0 && b.high[k] != [] && forall i :: 0 <= i < |b.high[k]| ==> IsUrgent(b.high[k][i], k)
  {
    hide Of;
    assert Of(b.pushed, k) == Of(b.done, k) + [] + b.high[k];
    OfLevel(b.pushed, k);
    forall i | 0 <= i < |b.high[k]| ensures IsUrgent(b.high[k][i], k) {
      assert b.high[k][i] == Of(b.pushed, k)[|Of(b.done, k)| + i];
    }
  }

  lemma DrainedUrgent(high: map<int, seq<Msg>>, gap: Option<int>, hs: seq<Msg>)
    requires Buckets(high) && Drained(hs, high, Held(high, gap))
    ensures Urgent(gap, hs, [])
  {
    hide Of;
    forall i | 0 <= i < |hs|
      ensures hs[i].high.Some? && hs[i].high.value > 0 && (gap.Some? ==> hs[i].high.value < gap.value)
      ensures hs[i].high.value == Level(hs[i])
    {
      var k := Level(hs[i]);
      assert k in high && k !in Held(high, gap);
    }
  }

  lemma AndNormal(gap: Option<int>, hs: seq<Msg>, ns: seq<Msg>)
    requires Urgent(gap, hs, []) && forall i :: 0 <= i < |ns| ==> Level(ns[i]) == 0
    ensures Urgent(gap, hs, ns)
  {
  }

  // A slice lets nothing at or above the gate run, handles the more urgent first, and then normal messages only.
  lemma SliceUrgent(ready: map<int, seq<int>>, weight: int, b: Box, event: Event, report: Report, b': Box)
    requires Kept(b) && event.Slice? && EventStep(ready, weight, b, event, report, b')
    ensures report.Ran? && Urgent(report.gap, report.hs, report.ns)
  {
    hide Of, Drained, IsGate, Unmet, Scripted, Level, Urgent;
    DrainedUrgent(b.high, report.gap, report.hs);
    ListLevel(b);
    var more := Of(Scripted(event.script, 0, 2 + |report.hs|), 0);
    OfLevel(Scripted(event.script, 0, 2 + |report.hs|), 0);
    forall i | 0 <= i < |report.ns| ensures Level(report.ns[i]) == 0 {
      assert report.ns[i] == (b.list + more)[i];
    }
    AndNormal(report.gap, report.hs, report.ns);
  }

  // A push of a priority answers whether it is more urgent than every priority message waiting, and waits behind
  // those of its own priority only; a normal push answers whether no check is unmet.
  lemma PushUrgent(ready: map<int, seq<int>>, weight: int, b: Box, event: Event, report: Report, b': Box)
    requires Kept(b) && event.Pushed? && EventStep(ready, weight, b, event, report, b')
    ensures var m := event.p.msg;
      && report.Told?
      && (IsNormal(m) ==>
            && b'.list == b.list + [m] && b'.high == b.high
            && (report.ret <==> forall key :: !Unmet(ready, key, event.p.answers)))
      && (!IsNormal(m) ==>
            && m.high.value in b'.high && b'.high[m.high.value] == Get(b.high, m.high.value) + [m]
            && b'.high - {m.high.value} == b.high - {m.high.value} && b'.list == b.list
            && (report.ret <==> forall k, i :: k in b.high && 0 <= i < |b.high[k]| && b.high[k][i].high.Some? ==>
                  m.high.value < b.high[k][i].high.value))
  {
    hide Of, Unmet, Conserved;
    forall k | k in b.high
      ensures b.high[k] != [] && forall i :: 0 <= i < |b.high[k]| ==> b.high[k][i].high == Some(k)
    {
      BucketLevel(b, k);
    }
    if !IsNormal(event.p.msg) {
      assert forall k :: k in b.high ==> b.high[k][0].high == Some(k);
    }
  }

  // ---------- catching up ----------

  lemma {:induction false} OfNo(ms: seq<Msg>, k: int)
    requires forall i :: 0 <= i < |ms| ==> Level(ms[i]) != k
    ensures Of(ms, k) == []
  {
    if ms != [] {
      OfNo(ms[..|ms| - 1], k);
    }
  }

  lemma Behind(a: seq<Msg>, x: seq<Msg>, b: seq<Msg>, c: seq<Msg>)
    requires a + x + b == a + c
    ensures c == x + b
  {
    assert (a + x + b)[|a|..] == x + b && (a + c)[|a|..] == c;
  }

  lemma KeptAt(b: Box, k: int)
    requires Kept(b) && k > 0
    ensures Of(b.pushed, k) == Of(b.done, k) + Get(b.high, k)
  {
    assert Of(b.pushed, k) == Of(b.done, k) + [] + Get(b.high, k);
    assert Of(b.done, k) + [] == Of(b.done, k);
  }

  lemma LeftOver(done: seq<Msg>, waiting: seq<Msg>, handled: seq<Msg>, held: seq<Msg>, more: seq<Msg>, left: seq<Msg>)
    requires done + waiting + more == done + handled + [] + left
    requires (handled == waiting && held == []) || (handled == [] && held == waiting)
    ensures left == held + more
  {
    if handled == [] {
      assert done + handled + [] == done;
      Behind(done, waiting, more, left);
    } else {
      assert done + handled + [] == done + waiting;
      assert done + waiting + [] + more == done + waiting + more;
      Behind(done + waiting, [], more, left);
    }
  }

  // A slice leaves at each priority what the gate held back, and behind it what was pushed meanwhile.
  lemma SliceLeaves(ready: map<int, seq<int>>, weight: int, b: Box, script: nat -> seq<Post>, answers1: Answers,
                    answers2: Answers, late: nat -> bool, report: Report, b': Box, k: int)
    requires Kept(b) && k > 0 && EventStep(ready, weight, b, Slice(script, answers1, answers2, late), report, b')
    ensures Get(b'.high, k) == Get(Held(b.high, report.gap), k) + Of(SentBy(Slice(script, answers1, answers2, late), report), k)
  {
    var event := Slice(script, answers1, answers2, late);
    StepHistory(ready, weight, b, event, report, b');
    var more, hs, ns, t := SentBy(event, report), report.hs, report.ns, 2 + |report.hs|;
    hide Scripted, SentBy, HandledBy, Level, Of, IsGate, Unmet;
    ListLevel(b);
    OfLevel(Scripted(script, 0, t), 0);
    var queue := b.list + Of(Scripted(script, 0, t), 0);
    forall i | 0 <= i < |ns| ensures Level(ns[i]) != k {
      assert ns[i] == queue[i] && Level(queue[i]) == 0;
    }
    OfNo(ns, k);
    KeptAt(b, k);
    KeptAt(b', k);
    OfConcat(b.pushed, more, k);
    OfConcat(b.done + hs, ns, k);
    OfConcat(b.done, hs, k);
    assert Of(hs, k) == if k in b.high && k !in Held(b.high, report.gap) then b.high[k] else [];
    LeftOver(Of(b.done, k), Get(b.high, k), Of(hs, k), Get(Held(b.high, report.gap), k), Of(more, k), Get(b'.high, k));
  }

  // A slice with the gate open, in time, during which nothing is pushed.
  ghost predicate Quiet(ready: map<int, seq<int>>, event: Event) {
    && event.Slice?
    && (forall i :: event.script(i) == [] && !event.late(i))
    && forall k :: !Unmet(ready, k, event.answers1) && !Unmet(ready, k, event.answers2)
  }

  lemma {:induction false} QuietScript(script: nat -> seq<Post>, a: nat, b: nat)
    requires a <= b && forall i :: script(i) == []
    ensures Scripted(script, a, b) == []
    decreases b
  {
    if a < b {
      QuietScript(script, a, b - 1);
    }
  }

  lemma NoBucket(b: Box, k: int)
    requires Kept(b) && (k > 0 ==> Get(b.high, k) == [])
    ensures k !in b.high
  {
  }

  // It handles all priority messages and as many normal ones as its weight.
  lemma QuietSlice(ready: map<int, seq<int>>, weight: int, b: Box, event: Event, report: Report, b': Box)
    requires Kept(b) && weight > 0 && Quiet(ready, event) && EventStep(ready, weight, b, event, report, b')
    ensures b'.high == map[] && b'.pushed == b.pushed
    ensures b'.list == if |b.list| <= weight then [] else b.list[weight..]
  {
    hide Scripted, Of, Drained;
    var t, n := 2 + |report.hs|, |report.ns|;
    QuietScript(event.script, 0, t);
    QuietScript(event.script, 0, t + 2 + n);
    QuietScript(event.script, t, t + 2 + n);
    OfNothing();
    assert b.list + [] == b.list && b.pushed + [] == b.pushed;
    GateOrReady(ready, report.gap, event.answers1);
    hide IsGate, Unmet, Kept;
    assert b'.list == b.list[n..] + [] == b.list[n..];
    forall k ensures k !in b'.high {
      if k > 0 {
        SliceLeaves(ready, weight, b, event.script, event.answers1, event.answers2, event.late, report, b', k);
      }
      NoBucket(b', k);
    }
  }

  lemma RunKept(ready: map<int, seq<int>>, weight: int, boxes: seq<Box>, events: seq<Event>, reports: seq<Report>, i: nat)
    requires Runs(ready, weight, boxes, events, reports) && i <= |events|
    ensures Kept(boxes[i])
  {
    if i > 0 {
      assert EventStep(ready, weight, boxes[i - 1], events[i - 1], reports[i - 1], boxes[i]);
    } else {
      OfNothing();
    }
  }

  // So it is in every slice of a run.
  lemma RunUrgent(ready: map<int, seq<int>>, weight: int, boxes: seq<Box>, events: seq<Event>, reports: seq<Report>)
    requires Runs(ready, weight, boxes, events, reports)
    ensures forall i {:trigger reports[i]} :: 0 <= i < |events| && events[i].Slice? ==>
              reports[i].Ran? && Urgent(reports[i].gap, reports[i].hs, reports[i].ns)
  {
    hide EventStep, Kept, Urgent;
    forall i {:trigger reports[i]} | 0 <= i < |events| && events[i].Slice?
      ensures reports[i].Ran? && Urgent(reports[i].gap, reports[i].hs, reports[i].ns)
    {
      RunKept(ready, weight, boxes, events, reports, i);
      assert EventStep(ready, weight, boxes[i], events[i], reports[i], boxes[i + 1]);
      SliceUrgent(ready, weight, boxes[i], events[i], reports[i], boxes[i + 1]);
    }
  }

  // `n` such slices, from any state of any run, leave what exceeds `n` times the weight.
  lemma {:induction false} QuietSlices(ready: map<int, seq<int>>, weight: int, boxes: seq<Box>, events: seq<Event>,
                                       reports: seq<Report>, a: nat, n: nat)
    requires Runs(ready, weight, boxes, events, reports) && weight > 0 && 1 <= n && a + n <= |events|
    requires forall i :: a <= i < a + n ==> Quiet(ready, events[i])
    ensures boxes[a + n].high == map[] && boxes[a + n].pushed == boxes[a].pushed
    ensures boxes[a + n].list == if |boxes[a].list| <= n * weight then [] else boxes[a].list[n * weight..]
    decreases n
  {
    hide EventStep, Kept, Quiet;
    var i := a + n - 1;
    RunKept(ready, weight, boxes, events, reports, i);
    assert EventStep(ready, weight, boxes[i], events[i], reports[i], boxes[i + 1]);
    QuietSlice(ready, weight, boxes[i], events[i], reports[i], boxes[i + 1]);
    if n > 1 {
      QuietSlices(ready, weight, boxes, events, reports, a, n - 1);
      assert n * weight == (n - 1) * weight + weight && (n - 1) * weight >= 0;
    }
  }

  lemma Emptied(b: Box, m: Msg)
    requires Kept(b) && b.list == [] && b.high == map[]
    ensures multiset(b.pushed)[m] == multiset(b.done)[m]
  {
    PushedIsDoneOrQueued(b.pushed, b.done, [], map[], m);
  }

  // Nothing starves: once there have been enough of them, all that was ever pushed has been handled.
  lemma AllHandled(ready: map<int, seq<int>>, weight: int, boxes: seq<Box>, events: seq<Event>, reports: seq<Report>,
                   a: nat, n: nat, m: Msg)
    requires Runs(ready, weight, boxes, events, reports) && weight > 0 && 1 <= n && a + n <= |events|
    requires (forall i :: a <= i < a + n ==> Quiet(ready, events[i])) && |boxes[a].list| <= n * weight
    ensures multiset(Sent(events[..a], reports[..a]))[m] == multiset(Handled(reports[..a + n]))[m]
  {
    hide EventStep, Quiet, Of, Sent, Handled, Kept, Conserved, Level;
    QuietSlices(ready, weight, boxes, events, reports, a, n);
    RunHistory(ready, weight, boxes, events, reports, a);
    RunHistory(ready, weight, boxes, events, reports, a + n);
    RunKept(ready, weight, boxes, events, reports, a + n);
    hide Runs;
    Emptied(boxes[a + n], m);
  }

  class Actor {
    const gate: NReady
    const normalstat: QueueWarn
    const highstat: QueueWarn
    const weight: int
    var list: seq<Msg>
    var hightlist: map<int, seq<Msg>>
    var release: bool

    // All pushes, and all messages handed to a handler, in order.
    ghost var pushed: seq<Msg>
    ghost var done: seq<Msg>

    // What holds whenever the lock is free; `local` is what a running slice has taken out.
    ghost predicate Valid(local: map<int, seq<Msg>>)
      reads this, normalstat, highstat
    {
      && normalstat != highstat && normalstat.Accounted() && highstat.Accounted()
      && Buckets(hightlist)
      && Conserved(pushed, done, local, list, hightlist)
      && normalstat.cnt == |list| && highstat.cnt == Total(hightlist)
    }

    ghost function Value(): Box
      reads this
    {
      Box(list, hightlist, pushed, done)
    }

    // What waits at one level.
    ghost function Queued(k: int): seq<Msg>
      reads this
    {
      if k == 0 then list else Get(hightlist, k)
    }

    constructor (agate: NReady, aweight: int, normalwarn: int, highwarn: int)
      ensures Valid(map[]) && fresh(normalstat) && fresh(highstat) && gate == agate && weight == aweight && !release
      ensures Value() == Box([], map[], [], [])
    {
      gate, weight := agate, aweight;
      normalstat := new QueueWarn(false, normalwarn);
      highstat := new QueueWarn(true, highwarn);
      list, hightlist, release := [], map[], false;
      pushed, done := [], [];
    }

    method HightValue() returns (head: Option<int>)
      ensures head == None <==> hightlist == map[]
      ensures head.Some? ==> head.value in hightlist && forall k :: k in hightlist ==> head.value <= k
    {
      if hightlist == map[] {
        head := None;
      } else {
        var k := First(hightlist.Keys);
        head := Some(k);
      }
    }

    // The result tells the caller whether to schedule the actor: a new most urgent priority, or a normal
    // message while ready.
    method Push(p: Post, ghost local: map<int, seq<Msg>>) returns (ret: bool, warn: Option<Warning>)
      requires Valid(local)
      modifies this, normalstat, highstat
      ensures Valid(local) && release == old(release)
      ensures PushStep(gate.ready, old(Value()), Value(), p, ret)
      ensures var stat := if Level(p.msg) > 0 then highstat else normalstat;
              var depth := if Level(p.msg) > 0 then Total(hightlist) else |list|;
              && stat.overflows == old(stat.overflows) + (if 0 < stat.warncnt < depth then 1 else 0)
              && stat.emitted == old(stat.emitted) + (if warn.Some? then 1 else 0)
              && (warn.Some? ==> warn.value.cnt == depth > stat.warncnt && warn.value.skipcnt == old(stat.skipcnt))
      ensures unchanged(if Level(p.msg) > 0 then normalstat else highstat)
    {
      hide Conserved, Total;
      PushConserves(pushed, done, local, list, hightlist, p.msg);
      pushed := pushed + [p.msg];
      if p.msg.high.Some? && p.msg.high.value > 0 {
        var k := p.msg.high.value;
        var head := HightValue();
        TotalUpdate(hightlist, k, Get(hightlist, k) + [p.msg]);
        hightlist := hightlist[k := Get(hightlist, k) + [p.msg]];
        highstat.cnt := highstat.cnt + 1;
        ret := head.None? || k < head.value;
        warn := highstat.IsWarn(p.now);
      } else {
        list := list + [p.msg];
        normalstat.cnt := normalstat.cnt + 1;
        ret := gate.IsReady(p.answers);
        warn := normalstat.IsWarn(p.now);
      }
    }

    // Pushes that get in between two steps of a slice.
    method Interfere(posts: seq<Post>, ghost local: map<int, seq<Msg>>)
      requires Valid(local)
      modifies this, normalstat, highstat
      ensures Valid(local) && done == old(done) && release == old(release)
      ensures Arrived(old(pushed), old(list), pushed, list, Messages(posts))
      ensures posts == [] ==> hightlist == old(hightlist)
    {
      hide Conserved, Total, Valid, Arrived, Of, Level;
      ArrivedNone(pushed, list);
      assert Messages(posts[..0]) == [];
      for i := 0 to |posts|
        invariant Valid(local) && done == old(done) && release == old(release)
        invariant Arrived(old(pushed), old(list), pushed, list, Messages(posts[..i]))
        invariant i == 0 ==> hightlist == old(hightlist)
      {
        ArrivedOne(old(pushed), old(list), pushed, list, Messages(posts[..i]), posts[i].msg);
        assert Messages(posts[..i + 1]) == Messages(posts[..i]) + [posts[i].msg];
        var ret, warn := Push(posts[i], local);
      }
      assert posts[..|posts|] == posts;
    }

    // Hands a message to its handler, during which others are pushed.
    method Dispatch(m: Msg, posts: seq<Post>, ghost local: map<int, seq<Msg>>, ghost k: int)
      requires Valid(local) && Get(local, k) != [] && local[k][0] == m
      modifies this, normalstat, highstat
      ensures Level(m) == k && Valid(local[k := local[k][1..]]) && done == old(done) + [m]
      ensures release == old(release) && Arrived(old(pushed), old(list), pushed, list, Messages(posts))
    {
      hide Of, Conserved, Total, Arrived;
      DispatchConserves(pushed, done, local, list, hightlist, k);
      done := done + [m];
      Interfere(posts, local[k := local[k][1..]]);
    }

    // Dispatches one whole bucket.
    method DrainBucket(k: int, bucket: seq<Msg>, script: nat -> seq<Post>, t: nat, ghost local: map<int, seq<Msg>>)
      returns (next: nat)
      requires Valid(local) && k in local && local[k] == bucket
      modifies this, normalstat, highstat
      ensures Valid(local - {k}) && done == old(done) + bucket && forall i :: 0 <= i < |bucket| ==> Level(bucket[i]) == k
      ensures release == old(release) && next == t + |bucket|
      ensures Arrived(old(pushed), old(list), pushed, list, Scripted(script, t, next))
    {
      hide Of, Conserved, Total, Level, Buckets, Arrived, Scripted;
      next := t;
      assert local[k := bucket[0..]] == local;
      ArrivedNone(pushed, list);
      ScriptedOne(script, t);
      for i := 0 to |bucket|
        invariant Valid(local[k := bucket[i..]]) && done == old(done) + bucket[..i]
        invariant release == old(release) && next == t + i
        invariant Arrived(old(pushed), old(list), pushed, list, Scripted(script, t, next))
        invariant forall j :: 0 <= j < i ==> Level(bucket[j]) == k
      {
        ghost var held, p, l := local[k := bucket[i..]], pushed, list;
        assert held[k := held[k][1..]] == local[k := bucket[i + 1..]];
        Dispatch(bucket[i], script(next), held, k);
        ScriptedOne(script, next);
        ScriptArrives(old(pushed), old(list), p, l, pushed, list, script, t, next, next + 1);
        next := next + 1;
      }
      EmptiedBucket(pushed, done, local[k := bucket[|bucket|..]], list, hightlist, k);
      assert local[k := bucket[|bucket|..]] - {k} == local - {k};
      assert bucket[..|bucket|] == bucket;
    }

    // Puts what the gate held back in front of what has arrived meanwhile.
    method ReturnHigh(localhigh: map<int, seq<Msg>>)
      requires Valid(localhigh) && Buckets(localhigh)
      modifies this, highstat
      ensures Valid(map[]) && done == old(done) && pushed == old(pushed) && list == old(list) && release == old(release)
    {
      hide Of, Conserved, Total;
      var rest := localhigh;
      while rest != map[]
        invariant Valid(rest) && rest.Keys <= localhigh.Keys && Buckets(rest)
        invariant done == old(done) && pushed == old(pushed) && list == old(list) && release == old(release)
        decreases rest.Keys
      {
        var k := First(rest.Keys);
        ghost var high := hightlist;
        TotalUpdate(hightlist, k, rest[k] + Get(hightlist, k));
        highstat.cnt := highstat.cnt + |rest[k]|;
        hightlist := hightlist[k := rest[k] + Get(hightlist, k)];
        MoveConserves(pushed, done, rest, list, high, rest - {k}, list, hightlist);
        rest := rest - {k};
      }
    }

    // Takes the priority queue out.
    method SwapHigh() returns (localhigh: map<int, seq<Msg>>)
      requires Valid(map[])
      modifies this`hightlist, highstat
      ensures Valid(localhigh) && localhigh == old(hightlist) && Buckets(localhigh)
    {
      hide Of, Conserved, Total;
      SwapConserves(pushed, done, list, hightlist);
      localhigh := hightlist;
      hightlist, highstat.cnt := map[], 0;
    }

    // Dispatches the buckets below the gate, most urgent first, and leaves the others.
    method DispatchHigh(high: map<int, seq<Msg>>, gap: Option<int>, script: nat -> seq<Post>)
      returns (rest: map<int, seq<Msg>>, t: nat, ghost hs: seq<Msg>)
      requires Valid(high) && Buckets(high)
      modifies this, normalstat, highstat
      ensures Valid(rest) && Buckets(rest) && done == old(done) + hs && release == old(release)
      ensures t == 1 + |hs| && Arrived(old(pushed), old(list), pushed, list, Scripted(script, 1, t))
      ensures rest == Held(high, gap) && Drained(hs, high, rest)
    {
      hide Of, Drained, Partway, Held, Valid, Buckets, Arrived, Scripted;
      rest, t, hs := high, 1, [];
      ArrivedNone(pushed, list);
      ScriptedOne(script, 1);
      DrainedNone(high);
      PartwayStart(high, gap);
      while rest != map[]
        invariant Valid(rest) && Buckets(rest) && done == old(done) + hs && release == old(release)
        invariant t == 1 + |hs| && Arrived(old(pushed), old(list), pushed, list, Scripted(script, 1, t))
        invariant Partway(high, rest, gap) && Drained(hs, high, rest)
        decreases rest.Keys
      {
        var k := First(rest.Keys);
        if !Passes(k, gap) {
          assert forall j :: j in rest ==> !Passes(j, gap);
          break;
        }
        BucketsLess(rest, k);
        PartwayStep(high, rest, gap, k);
        ConcatAssoc(old(done), hs, rest[k]);
        ghost var t0, p, l := t, pushed, list;
        t := DrainBucket(k, rest[k], script, t, rest);
        ScriptArrives(old(pushed), old(list), p, l, pushed, list, script, 1, t0, t);
        DrainedStep(hs, high, rest, k);
        hs, rest := hs + rest[k], rest - {k};
      }
      PartwayEnd(high, rest, gap);
    }

    // Phase 1: the priority queue is swapped out, and its buckets below the gate are dispatched.
    method HighPhase(script: nat -> seq<Post>, answers: Answers) returns (gap: Option<int>, t: nat, ghost hs: seq<Msg>)
      requires Valid(map[])
      modifies this, normalstat, highstat
      ensures Valid(map[]) && done == old(done) + hs && release == old(release)
      ensures t == 1 + |hs| && Arrived(old(pushed), old(list), pushed, list, Scripted(script, 0, t))
      ensures IsGate(gate.ready, gap, answers)
      ensures Drained(hs, old(hightlist), Held(old(hightlist), gap))
    {
      hide Of, Drained, IsGate, Held, Valid, Buckets, Arrived, Scripted;
      ScriptedOne(script, 0);
      var localhigh := SwapHigh();
      Interfere(script(0), localhigh);
      gap := gate.HightlevelReady(answers);
      ghost var p, l := pushed, list;
      var rest;
      rest, t, hs := DispatchHigh(localhigh, gap, script);
      ScriptArrives(old(pushed), old(list), p, l, pushed, list, script, 0, 1, t);
      ReturnHigh(rest);
    }

    // Takes the normal queue out.
    method SwapOut() returns (local: seq<Msg>)
      requires Valid(map[])
      modifies this`list, normalstat
      ensures Valid(map[0 := local]) && local == old(list) && list == []
    {
      hide Of, Conserved, Total, Buckets;
      NormalSwap(pushed, done, list, hightlist);
      local := list;
      list, normalstat.cnt := [], 0;
    }

    // Puts what is left of it back in front.
    method PutBack(local: seq<Msg>)
      requires Valid(map[0 := local])
      modifies this`list, normalstat
      ensures Valid(map[]) && list == local + old(list)
    {
      hide Of, Conserved, Total, Buckets;
      NormalReturn(pushed, done, local, list, hightlist);
      if local != [] {
        normalstat.cnt := normalstat.cnt + |local|;
        list := local + list;
      }
    }

    // Dispatches from the front of the local queue, within the weight and the time budget.
    method DispatchNormal(queue: seq<Msg>, script: nat -> seq<Post>, t: nat, late: nat -> bool)
      returns (local: seq<Msg>, ghost ns: seq<Msg>)
      requires Valid(map[0 := queue])
      modifies this, normalstat, highstat
      ensures Valid(map[0 := local]) && queue == ns + local && forall m :: m in ns ==> Level(m) == 0
      ensures done == old(done) + ns && release == old(release) && Allowed(queue, ns, weight, release, late)
      ensures Arrived(old(pushed), old(list), pushed, list, Scripted(script, t, t + |ns|))
    {
      hide Valid, Level, Of, Arrived, Scripted;
      local := queue;
      var lweight, n := weight - 1, 0;
      assert queue[..0] == [];
      ArrivedNone(pushed, list);
      ScriptedOne(script, t);
      while lweight >= 0 && local != []
        invariant 0 <= n <= |queue| && local == queue[n..] && Valid(map[0 := local])
        invariant release == old(release) && done == old(done) + queue[..n]
        invariant Arrived(old(pushed), old(list), pushed, list, Scripted(script, t, t + n))
        invariant forall i :: 0 <= i < n ==> Level(queue[i]) == 0 && (release || !late(i))
        invariant lweight == weight - 1 - n && (n == 0 || n <= weight)
        decreases lweight
      {
        if !release && late(n) {
          break;
        }
        ghost var p, l := pushed, list;
        Dispatch(local[0], script(t + n), map[0 := local], 0);
        ScriptedOne(script, t + n);
        ScriptArrives(old(pushed), old(list), p, l, pushed, list, script, t, t + n, t + n + 1);
        assert map[0 := local][0 := local[1..]] == map[0 := local[1..]];
        assert queue[..n + 1] == queue[..n] + [local[0]];
        local, n, lweight := local[1..], n + 1, lweight - 1;
      }
      ns := queue[..n];
    }

    // Phase 2, while ready: the normal queue is swapped out and dispatched in order; what is left goes back
    // in front. Others may push at any moment in between.
    method NormalPhase(script: nat -> seq<Post>, t: nat, late: nat -> bool) returns (ghost ns: seq<Msg>)
      requires Valid(map[])
      modifies this, normalstat, highstat
      ensures Valid(map[]) && done == old(done) + ns && release == old(release)
      ensures Allowed(old(list), ns, weight, release, late) && forall m :: m in ns ==> Level(m) == 0
      ensures |ns| <= |old(list)| && ns == old(list)[..|ns|] && (|ns| <= weight || ns == [])
      ensures |ns| < |old(list)| ==> weight <= |ns| || (!release && late(|ns|))
      ensures forall i :: 0 <= i < |ns| ==> release || !late(i)
      ensures var more := Scripted(script, t, t + 2 + |ns|);
        pushed == old(pushed) + more && list == old(list)[|ns|..] + Of(more, 0)
    {
      hide Valid, Level, Of, Scripted;
      var queue := SwapOut();
      ScriptedOne(script, t);
      Interfere(script(t), map[0 := queue]);
      ghost var p, l := pushed, list;
      var local;
      local, ns := DispatchNormal(queue, script, t + 1, late);
      ghost var n := |ns|;
      assert ns == queue[..n] && local == queue[n..];
      ScriptArrives(old(pushed), [], p, l, pushed, list, script, t, t + 1, t + 1 + n);
      p, l := pushed, list;
      ScriptedOne(script, t + 1 + n);
      Interfere(script(t + 1 + |queue| - |local|), map[0 := local]);
      ScriptArrives(old(pushed), [], p, l, pushed, list, script, t, t + 1 + n, t + 2 + n);
      assert [] + Of(Scripted(script, t, t + 2 + n), 0) == Of(Scripted(script, t, t + 2 + n), 0);
      PutBack(local);
    }

    // The scheduler's question whether there is anything to run.
    method ListEmpty(answers: Answers) returns (empty: bool)
      ensures forall gap :: IsGate(gate.ready, gap, answers) ==> (empty <==> Idle(hightlist, list, gap))
    {
      var gap := gate.HightlevelReady(answers);
      forall g | IsGate(gate.ready, g, answers) ensures g == gap {
        OneGate(gate.ready, g, gap, answers);
      }
      if gap.None? {
        empty := list == [] && hightlist == map[];
      } else if hightlist == map[] {
        empty := true;
      } else {
        var k := First(hightlist.Keys);
        empty := !(k < gap.value);
      }
    }

    // One scheduling slice, with handlers and other threads pushing whenever they can. The gate is read
    // twice; `answers1` and `answers2` are what its checks then say.
    method ActorHandle(script: nat -> seq<Post>, answers1: Answers, answers2: Answers, late: nat -> bool)
      returns (ok: bool, ghost gap: Option<int>, ghost hs: seq<Msg>, ghost ns: seq<Msg>)
      requires Valid(map[])
      modifies this, normalstat, highstat
      ensures Valid(map[]) && release == old(release) && forall m :: m in ns ==> Level(m) == 0
      ensures SliceStep(gate.ready, weight, release, old(Value()), Value(), script, answers1, answers2, late, ok, gap, hs, ns)
      ensures answers1 == answers2 && 0 < weight && (old(release) || !late(0)) && script(0) == [] && script(1) == [] ==>
                (hs + ns == [] <==> Idle(old(hightlist), old(list), gap))
    {
      hide Of, Conserved, Total, Drained, Held, IsGate, Unmet, Scripted, Allowed, Idle;
      ghost var b := Value();
      var g, t;
      g, t, hs := HighPhase(script, answers1);
      gap, ns := g, [];
      ghost var p, l := pushed, list;
      ScriptedOne(script, t);
      Interfere(script(t), map[]);
      ScriptArrives(old(pushed), old(list), p, l, pushed, list, script, 0, t, t + 1);
      ok := gate.IsReady(answers2);
      if ok {
        ns := NormalPhase(script, t + 1, late);
        ScriptedJoin(script, 0, t + 1, t + 3 + |ns|);
        ConcatAssoc(old(pushed), Scripted(script, 0, t + 1), Scripted(script, t + 1, t + 3 + |ns|));
      }
      if answers1 == answers2 && 0 < weight && (release || !late(0)) && script(0) == [] && script(1) == [] {
        SliceWorks(gate.ready, weight, release, b, Value(), script, answers1, late, ok, gap, hs, ns);
      }
    }

    // One event.
    method Happen(event: Event) returns (ghost report: Report)
      requires Valid(map[]) && !release
      modifies this, normalstat, highstat
      ensures Valid(map[]) && !release && EventStep(gate.ready, weight, old(Value()), event, report, Value())
    {
      hide Conserved, Total, Of, QueueWarn.Accounted, IsGate, Drained, Unmet, Idle, Held, Level, SliceStep;
      match event
      case Pushed(p) =>
        var ret, warn := Push(p, map[]);
        report := Told(ret);
      case Slice(script, answers1, answers2, late) =>
        var ok;
        ghost var gap, hs, ns;
        ok, gap, hs, ns := ActorHandle(script, answers1, answers2, late);
        report := Ran(ok, gap, hs, ns);
    }

    // A new mailbox under any sequence of pushes and slices runs as the steps say, and its history is that of the
    // events: nothing pushed is lost or handled twice, messages of equal priority are handled in push order, the
    // depth counters are right and all overflows accounted for.
    static method Serve(agate: NReady, aweight: int, normalwarn: int, highwarn: int, events: seq<Event>)
      returns (a: Actor, ghost reports: seq<Report>, ghost boxes: seq<Box>)
      ensures a.Valid(map[]) && a.gate == agate && a.weight == aweight
      ensures Runs(agate.ready, aweight, boxes, events, reports) && boxes[|events|] == a.Value()
      ensures a.pushed == Sent(events, reports) && a.done == Handled(reports)
      ensures forall i {:trigger reports[i]} :: 0 <= i < |events| && events[i].Slice? ==>
                reports[i].Ran? && Urgent(reports[i].gap, reports[i].hs, reports[i].ns)
      ensures forall k {:trigger Of(a.pushed, k)} :: Of(a.pushed, k) == Of(a.done, k) + a.Queued(k)
      ensures forall m {:trigger multiset(a.pushed)[m]} ::
                multiset(a.pushed)[m] == multiset(a.done)[m] + multiset(a.Queued(Level(m)))[m]
      ensures a.normalstat.cnt == |a.list| && a.highstat.cnt == Total(a.hightlist)
      ensures a.normalstat.Accounted() && a.highstat.Accounted()
    {
      hide Conserved, Total, Of, QueueWarn.Accounted, IsGate, Drained, Unmet, Idle, Held, Level, SliceStep, PushStep,
        Sent, Handled, Urgent;
      a := new Actor(agate, aweight, normalwarn, highwarn);
      reports, boxes := [], [a.Value()];
      for i := 0 to |events|
        invariant fresh(a) && fresh(a.normalstat) && fresh(a.highstat) && a.Valid(map[]) && !a.release
        invariant a.gate == agate && a.weight == aweight
        invariant |boxes| == i + 1 && boxes[i] == a.Value() && Runs(agate.ready, aweight, boxes, events[..i], reports)
      {
        ghost var report := a.Happen(events[i]);
        RunsMore(agate.ready, aweight, boxes, events[..i], reports, events[i], report, a.Value());
        reports, boxes := reports + [report], boxes + [a.Value()];
        assert events[..i + 1] == events[..i] + [events[i]];
      }
      assert events[..|events|] == events && reports[..|events|] == reports;
      RunHistory(agate.ready, aweight, boxes, events, reports, |events|);
      RunUrgent(agate.ready, aweight, boxes, events, reports);
      ConservedAll(a.pushed, a.done, a.list, a.hightlist);
    }
  }
}
