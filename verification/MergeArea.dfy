// Merged server areas: which area each one ended up in, found by following merge entries with memoisation
// and cycle detection over arrays indexed by the unsigned reading of a 16-bit area.

module MergeArea {
  const NONE := -1
  const SLOTS := 0x1_0000

  predicate IsArea(a: int) {
    -0x8000 <= a < 0x8000
  }

  // The cast to int16_t.
  function ToArea(x: int): (a: int)
    ensures IsArea(a) && (a - x) % SLOTS == 0
    ensures IsArea(x) ==> a == x
  {
    (x + 0x8000) % SLOTS - 0x8000
  }

  function Slot(a: int): (s: int)
    requires IsArea(a)
    ensures 0 <= s < SLOTS
  {
    if a < 0 then a + SLOTS else a
  }

  lemma SlotInjective(a: int, b: int)
    requires IsArea(a) && IsArea(b) && Slot(a) == Slot(b)
    ensures a == b
  {
  }

  // A table over all areas.
  ghost predicate Areas(t: seq<int>) {
    |t| == SLOTS && forall s :: 0 <= s < SLOTS ==> IsArea(t[s])
  }

  function At(t: seq<int>, a: int): int
    requires |t| == SLOTS && IsArea(a)
  {
    t[Slot(a)]
  }

  datatype Row = Row(id: int, mergeid: int)

  // Whether an area has a row, and where its last row merges it into.
  ghost predicate HasRow(rows: seq<Row>, a: int) {
    exists i :: 0 <= i < |rows| && ToArea(rows[i].id) == a
  }

  ghost function Target(rows: seq<Row>, a: int): int {
    if rows == [] then NONE
    else if ToArea(rows[|rows| - 1].id) == a then ToArea(rows[|rows| - 1].mergeid)
    else Target(rows[..|rows| - 1], a)
  }

  ghost predicate IsDirect(rows: seq<Row>, d: seq<int>) {
    Areas(d) && forall a {:trigger At(d, a)} :: IsArea(a) ==> At(d, a) == Target(rows, a)
  }

  // One step along the merge entries; an area that merges nowhere, or into itself, stays.
  ghost function Step(d: seq<int>, a: int): (b: int)
    requires Areas(d) && IsArea(a)
    ensures IsArea(b)
  {
    if At(d, a) == NONE then a else At(d, a)
  }

  ghost function Iter(d: seq<int>, a: int, n: nat): (b: int)
    requires Areas(d) && IsArea(a)
    ensures IsArea(b)
    decreases n
  {
    if n == 0 then a else Iter(d, Step(d, a), n - 1)
  }

  lemma {:induction false} IterAdd(d: seq<int>, a: int, m: nat, n: nat)
    requires Areas(d) && IsArea(a)
    ensures Iter(d, a, m + n) == Iter(d, Iter(d, a, m), n)
    decreases m
  {
    if m > 0 {
      IterAdd(d, Step(d, a), m - 1, n);
    }
  }

  // Two areas whose merge entries lead to a common area.
  ghost predicate Meets(d: seq<int>, a: int, b: int)
    requires Areas(d) && IsArea(a) && IsArea(b)
  {
    exists m: nat, n: nat :: Iter(d, a, m) == Iter(d, b, n)
  }

  // What resolved roots must satisfy: an area that merges nowhere is its own root, others share the root
  // of the area they merge into, a root is its own root, and it belongs to the same chain or cycle.
  ghost predicate Rooted(d: seq<int>, r: seq<int>, a: int)
    requires Areas(d) && Areas(r) && IsArea(a)
  {
    var q := At(r, a);
    && At(r, q) == q && Meets(d, a, q)
    && if Step(d, a) == a then q == a else At(r, Step(d, a)) == q
  }

  ghost predicate Resolved(d: seq<int>, r: seq<int>) {
    && Areas(d) && Areas(r)
    && forall a {:trigger Rooted(d, r, a)} :: IsArea(a) && At(r, a) != NONE ==> Rooted(d, r, a)
  }

  // Walking on does not change the root; so a chain that ends has its last area for root.
  lemma {:induction false} RootAlongChain(d: seq<int>, r: seq<int>, a: int, n: nat)
    requires Resolved(d, r) && IsArea(a) && At(r, a) != NONE
    ensures At(r, Iter(d, a, n)) == At(r, a)
    ensures Step(d, Iter(d, a, n)) == Iter(d, a, n) ==> At(r, a) == Iter(d, a, n)
    decreases n
  {
    assert Rooted(d, r, a);
    if n > 0 {
      RootAlongChain(d, r, Step(d, a), n - 1);
    }
  }

  // The sentinel's chain meets nothing resolved.
  ghost predicate Unmet(d: seq<int>, r: seq<int>)
    requires Areas(d) && Areas(r)
  {
    forall n: nat {:trigger Iter(d, NONE, n)} :: At(r, Iter(d, NONE, n)) == NONE
  }

  // The sentinel's chain runs into a cycle and holds no area below the sentinel.
  ghost predicate Endless(d: seq<int>)
    requires Areas(d)
  {
    forall n: nat {:trigger Iter(d, NONE, n)} ::
      NONE <= Iter(d, NONE, n) && Step(d, Iter(d, NONE, n)) != Iter(d, NONE, n)
  }

  // A visit that starts at the sentinel and finds no other root for it: it merges nowhere, or its chain
  // runs into a cycle, meets nothing resolved before, and holds no area below it.
  ghost predicate Rootless(d: seq<int>, r: seq<int>, area: int)
    requires Areas(d) && Areas(r)
  {
    && area == NONE
    && (At(d, NONE) == NONE || (Endless(d) && Unmet(d, r)))
  }

  ghost predicate OnChain(d: seq<int>, a: int, b: int)
    requires Areas(d) && IsArea(a)
  {
    exists n: nat :: Iter(d, a, n) == b
  }

  ghost predicate FirstSentinel(rows: seq<Row>, i: nat)
    requires i < |rows|
  {
    ToArea(rows[i].id) == NONE && !HasRow(rows[..i], NONE)
  }

  // The chain of an area and that of the sentinel have nothing in common.
  ghost predicate Apart(d: seq<int>, a: int)
    requires Areas(d) && IsArea(a)
  {
    forall n: nat {:trigger Iter(d, NONE, n)} :: !OnChain(d, a, Iter(d, NONE, n))
  }

  ghost predicate AllApart(rows: seq<Row>, i: nat, d: seq<int>)
    requires i <= |rows| && Areas(d)
  {
    forall j {:trigger rows[j]} :: 0 <= j < i ==> Apart(d, ToArea(rows[j].id))
  }

  // What makes a table leave a list for the sentinel, told from its rows: the first row of the sentinel
  // merges it nowhere, or starts a chain that runs into a cycle, holds no area below the sentinel and meets
  // no chain of an earlier row.
  ghost predicate SentinelFails(rows: seq<Row>, d: seq<int>)
    requires IsDirect(rows, d)
  {
    exists i :: 0 <= i < |rows| && FirstSentinel(rows, i)
      && (Target(rows, NONE) == NONE || (Endless(d) && AllApart(rows, i, d)))
  }

  // The path of a visit: areas met one after another, none twice, none resolved before.
  ghost predicate IsPath(d: seq<int>, r: seq<int>, path: seq<int>, area: int, current: int)
    requires Areas(d) && Areas(r)
  {
    && IsArea(area) && IsArea(current)
    && (forall i :: 0 <= i < |path| ==> IsArea(path[i]) && At(r, path[i]) == NONE && (path[i] == NONE ==> area == NONE))
    && (forall i, j :: 0 <= i < j < |path| ==> path[i] != path[j])
    && (path == [] ==> current == area)
    && (path != [] ==> path[0] == area)
    && (forall i :: 0 <= i < |path| - 1 ==> path[i + 1] == Step(d, path[i]))
    && (path != [] ==> current == Step(d, path[|path| - 1]))
  }

  // The roots after all areas of a path got `root`.
  ghost predicate Painted(r: seq<int>, r': seq<int>, path: seq<int>, root: int)
    requires Areas(r)
  {
    && Areas(r')
    && forall a {:trigger At(r', a)} :: IsArea(a) ==> At(r', a) == if a in path then root else At(r, a)
  }

  lemma {:induction false} PathLeads(d: seq<int>, r: seq<int>, path: seq<int>, area: int, current: int, i: nat)
    requires Areas(d) && Areas(r) && IsPath(d, r, path, area, current) && i < |path|
    ensures Iter(d, path[i], |path| - i) == current
    decreases |path| - i
  {
    if i + 1 < |path| {
      PathLeads(d, r, path, area, current, i + 1);
    }
  }

  // How a visit ends: at an area resolved before, at one of its own areas, of which the least becomes the root, or
  // where nothing follows.
  ghost predicate Ends(d: seq<int>, r: seq<int>, path: seq<int>, current: int, root: int)
    requires Areas(d) && Areas(r) && IsArea(current) && forall i :: 0 <= i < |path| ==> IsArea(path[i])
  {
    && IsArea(root) && root != NONE
    && (|| (current !in path && At(r, current) == root)
        || (current in path && root in path && (forall x :: x in path ==> root <= x)
            && Step(d, path[|path| - 1]) != path[|path| - 1])
        || (path != [] && root == current == path[|path| - 1]))
  }

  lemma OthersRooted(d: seq<int>, r: seq<int>, r': seq<int>, path: seq<int>, root: int, a: int)
    requires Resolved(d, r) && IsArea(a) && a !in path && At(r, a) != NONE && Painted(r, r', path, root)
    requires forall i :: 0 <= i < |path| ==> IsArea(path[i]) && At(r, path[i]) == NONE
    ensures Rooted(d, r', a)
  {
    hide Step, Meets;
    assert Rooted(d, r, a);
    assert At(r, a) !in path && Step(d, a) !in path;
  }

  lemma RootStays(d: seq<int>, r: seq<int>, r': seq<int>, path: seq<int>, area: int, current: int, root: int)
    requires Resolved(d, r) && IsPath(d, r, path, area, current) && Ends(d, r, path, current, root)
    requires Painted(r, r', path, root)
    ensures At(r', root) == root && At(r', current) == root
    ensures exists m: nat, n: nat :: Iter(d, current, m) == Iter(d, root, n)
  {
    hide Step;
    if current !in path {
      assert Rooted(d, r, current);
    } else {
      assert root in path;
      var j :| 0 <= j < |path| && path[j] == root;
      PathLeads(d, r, path, area, current, j);
      assert Iter(d, current, 0) == Iter(d, root, |path| - j);
    }
  }

  lemma PaintRooted(d: seq<int>, r: seq<int>, r': seq<int>, path: seq<int>, area: int, current: int, root: int, a: int)
    requires Resolved(d, r) && IsPath(d, r, path, area, current) && Ends(d, r, path, current, root) && a in path
    requires Painted(r, r', path, root) && At(r', root) == root && At(r', current) == root
    requires exists m: nat, n: nat :: Iter(d, current, m) == Iter(d, root, n)
    ensures Rooted(d, r', a)
  {
    hide Step;
    var i :| 0 <= i < |path| && path[i] == a;
    var m: nat, n: nat :| Iter(d, current, m) == Iter(d, root, n);
    PathLeads(d, r, path, area, current, i);
    IterAdd(d, a, |path| - i, m);
    assert Iter(d, a, |path| - i + m) == Iter(d, root, n);
    assert i < |path| - 1 ==> path[i + 1] == Step(d, a) && path[i + 1] != a;
  }

  lemma PaintResolves(d: seq<int>, r: seq<int>, r': seq<int>, path: seq<int>, area: int, current: int, root: int)
    requires Resolved(d, r) && IsPath(d, r, path, area, current) && Ends(d, r, path, current, root)
    requires Painted(r, r', path, root)
    ensures Resolved(d, r') && At(r', area) == root
  {
    hide Rooted, Step;
    RootStays(d, r, r', path, area, current, root);
    forall a | IsArea(a) && At(r', a) != NONE ensures Rooted(d, r', a) {
      if a in path {
        PaintRooted(d, r, r', path, area, current, root, a);
      } else {
        OthersRooted(d, r, r', path, root, a);
      }
    }
  }

  // ---------- which area becomes the root ----------

  // The chain of an area runs into a cycle.
  ghost predicate NeverEnds(d: seq<int>, a: int)
    requires Areas(d) && IsArea(a)
  {
    forall n: nat {:trigger Iter(d, a, n)} :: Step(d, Iter(d, a, n)) != Iter(d, a, n)
  }

  // The least area on the chain of `a`.
  ghost predicate IsLeast(d: seq<int>, a: int, q: int)
    requires Areas(d) && IsArea(a)
  {
    OnChain(d, a, q) && forall n: nat {:trigger Iter(d, a, n)} :: q <= Iter(d, a, n)
  }

  // Row `j` is the first whose chain meets that of `a`.
  ghost predicate FirstMeeting(rows: seq<Row>, d: seq<int>, j: int, a: int)
    requires Areas(d) && IsArea(a)
  {
    && 0 <= j < |rows| && Meets(d, ToArea(rows[j].id), a)
    && forall k {:trigger rows[k]} :: 0 <= k < j ==> !Meets(d, ToArea(rows[k].id), a)
  }

  // `q` is the least area on the chain of the first row that `a` meets, which is among the first `i`.
  ghost predicate LeastOf(rows: seq<Row>, i: nat, d: seq<int>, a: int, q: int)
    requires i <= |rows| && Areas(d) && IsArea(a)
  {
    exists j :: 0 <= j < i && FirstMeeting(rows, d, j, a) && IsLeast(d, ToArea(rows[j].id), q)
  }

  ghost predicate CycleRoots(rows: seq<Row>, i: nat, d: seq<int>, r: seq<int>)
    requires i <= |rows| && Areas(d) && Areas(r)
  {
    forall a {:trigger At(r, a)} :: IsArea(a) && At(r, a) != NONE && NeverEnds(d, a) ==> LeastOf(rows, i, d, a, At(r, a))
  }

  lemma NeverEndsAlong(d: seq<int>, a: int, m: nat)
    requires Areas(d) && IsArea(a) && NeverEnds(d, a)
    ensures NeverEnds(d, Iter(d, a, m))
  {
    hide Step;
    forall n: nat ensures Step(d, Iter(d, Iter(d, a, m), n)) != Iter(d, Iter(d, a, m), n) {
      IterAdd(d, a, m, n);
    }
  }

  // Walking on changes nothing about whom a chain meets.
  lemma MeetsAlong(d: seq<int>, x: int, a: int, m: nat)
    requires Areas(d) && IsArea(x) && IsArea(a)
    ensures Meets(d, x, a) <==> Meets(d, x, Iter(d, a, m))
  {
    hide Step, Iter;
    var b := Iter(d, a, m);
    if Meets(d, x, a) {
      var p: nat, q: nat :| Iter(d, x, p) == Iter(d, a, q);
      IterAdd(d, x, p, m);
      IterAdd(d, a, q, m);
      IterAdd(d, a, m, q);
      assert Iter(d, x, p + m) == Iter(d, b, q);
    }
    if Meets(d, x, b) {
      var p: nat, q: nat :| Iter(d, x, p) == Iter(d, b, q);
      IterAdd(d, a, m, q);
      assert Iter(d, x, p) == Iter(d, a, m + q);
    }
  }

  lemma FirstMeetingBack(rows: seq<Row>, d: seq<int>, j: int, a: int, m: nat)
    requires Areas(d) && IsArea(a) && FirstMeeting(rows, d, j, Iter(d, a, m))
    ensures FirstMeeting(rows, d, j, a)
  {
    hide Iter, Meets, ToArea;
    forall k {:trigger rows[k]} | 0 <= k <= j
      ensures Meets(d, ToArea(rows[k].id), a) <==> Meets(d, ToArea(rows[k].id), Iter(d, a, m))
    {
      MeetsAlong(d, ToArea(rows[k].id), a, m);
    }
  }

  // All rows before `i` have their roots.
  ghost predicate RowsDone(rows: seq<Row>, i: nat, r: seq<int>)
    requires i <= |rows| && Areas(r)
  {
    forall k {:trigger rows[k]} :: 0 <= k < i ==> At(r, ToArea(rows[k].id)) != NONE
  }

  ghost function AllAreas(): set<int> {
    set a | -0x8000 <= a < 0x8000 && IsArea(a)
  }

  ghost function Elements(path: seq<int>): set<int> {
    set a | a in path
  }

  method MinElement(path: seq<int>) returns (m: int)
    requires path != []
    ensures m in path && forall x :: x in path ==> m <= x
  {
    m := path[0];
    for i := 1 to |path|
      invariant m in path && forall j :: 0 <= j < i ==> m <= path[j]
    {
      if path[i] < m {
        m := path[i];
      }
    }
  }

  // A stamp no slot carries. When the counter wraps around, all stamps are wiped.
  method NextVisitStamp(stamps: array<int>, current: int) returns (stamp: int)
    requires 0 <= current < 0x1_0000_0000 && forall k :: 0 <= k < stamps.Length ==> 0 <= stamps[k] <= current
    modifies stamps
    ensures 0 < stamp < 0x1_0000_0000 && forall k :: 0 <= k < stamps.Length ==> 0 <= stamps[k] < stamp
  {
    stamp := (current + 1) % 0x1_0000_0000;
    if stamp == 0 {
      for k := 0 to stamps.Length
        invariant forall j :: 0 <= j < k ==> stamps[j] == 0
      {
        stamps[k] := 0;
      }
      stamp := 1;
    }
  }

  ghost predicate Stamps(stamps: seq<int>, stamp: int, path: seq<int>) {
    && |stamps| == SLOTS && (forall k :: 0 <= k < SLOTS ==> 0 <= stamps[k] <= stamp)
    && forall a {:trigger At(stamps, a)} :: IsArea(a) ==> (At(stamps, a) == stamp <==> a in path)
  }

  lemma StampStep(stamps: seq<int>, stamp: int, path: seq<int>, at: int)
    requires Stamps(stamps, stamp, path) && IsArea(at) && 0 <= stamp
    ensures Stamps(stamps[Slot(at) := stamp], stamp, path + [at])
    ensures Elements(path + [at]) == Elements(path) + {at}
  {
    var next := stamps[Slot(at) := stamp];
    forall a | IsArea(a) ensures At(next, a) == stamp <==> a in path + [at] {
      if a != at && Slot(a) == Slot(at) {
        SlotInjective(a, at);
      }
      assert At(stamps, a) == stamp <==> a in path;
    }
  }

  lemma InAllAreas(a: int)
    ensures a in AllAreas() <==> IsArea(a)
  {
  }

  lemma NoPath(d: seq<int>, r: seq<int>, stamps: seq<int>, stamp: int, area: int)
    requires Areas(d) && Areas(r) && IsArea(area) && |stamps| == SLOTS
    requires 0 < stamp && forall k :: 0 <= k < SLOTS ==> 0 <= stamps[k] < stamp
    ensures IsPath(d, r, [], area, area) && Stamps(stamps, stamp, [])
  {
  }

  lemma PathStep(d: seq<int>, r: seq<int>, path: seq<int>, area: int, at: int)
    requires Areas(d) && Areas(r) && IsPath(d, r, path, area, at)
    requires At(r, at) == NONE && at !in path && (at == NONE ==> area == NONE)
    ensures IsPath(d, r, path + [at], area, Step(d, at))
  {
  }

  lemma IterStep(d: seq<int>, a: int, n: nat)
    requires Areas(d) && IsArea(a)
    ensures Iter(d, a, n + 1) == Step(d, Iter(d, a, n))
  {
    hide Step;
    IterAdd(d, a, n, 1);
    assert Iter(d, Step(d, Iter(d, a, n)), 0) == Step(d, Iter(d, a, n));
  }

  lemma {:induction false} PathIter(d: seq<int>, r: seq<int>, path: seq<int>, area: int, current: int, k: nat)
    requires Areas(d) && Areas(r) && IsPath(d, r, path, area, current) && k <= |path|
    ensures Iter(d, area, k) == if k < |path| then path[k] else current
    decreases k
  {
    hide Step;
    if k > 0 {
      PathIter(d, r, path, area, current, k - 1);
      IterStep(d, area, k - 1);
    }
  }

  lemma {:induction false} StuckAtSentinel(d: seq<int>, n: nat)
    requires Areas(d) && At(d, NONE) == NONE
    ensures Iter(d, NONE, n) == NONE && Step(d, NONE) == NONE
  {
    if n > 0 {
      StuckAtSentinel(d, n - 1);
    }
  }

  // A visit that meets a resolved area.
  lemma MetResolved(d: seq<int>, r: seq<int>, path: seq<int>, area: int, current: int)
    requires Resolved(d, r) && IsPath(d, r, path, area, current) && At(r, current) != NONE
    ensures !Rootless(d, r, area)
  {
    hide Step;
    PathIter(d, r, path, area, current, |path|);
    assert Rooted(d, r, current);
    if At(d, NONE) == NONE {
      StuckAtSentinel(d, |path|);
    }
  }

  lemma StepOfSentinel(d: seq<int>)
    requires Areas(d)
    ensures Step(d, NONE) == NONE <==> At(d, NONE) == NONE
  {
  }

  lemma {:induction false} StaysOnPath(d: seq<int>, r: seq<int>, path: seq<int>, area: int, current: int, n: nat)
    requires Areas(d) && Areas(r) && IsPath(d, r, path, area, current) && current in path
    ensures Iter(d, area, n) in path
    decreases n
  {
    hide Step;
    if n > 0 {
      StaysOnPath(d, r, path, area, current, n - 1);
      IterStep(d, area, n - 1);
      var i :| 0 <= i < |path| && path[i] == Iter(d, area, n - 1);
      assert i + 1 < |path| ==> path[i + 1] == Step(d, path[i]);
    }
  }

  // A visit that runs into its own path.
  lemma MetCycle(d: seq<int>, r: seq<int>, path: seq<int>, area: int, current: int, root: int)
    requires Areas(d) && Areas(r) && IsPath(d, r, path, area, current) && current in path
    requires path[|path| - 1] != current && root in path && forall x :: x in path ==> root <= x
    ensures root == NONE <==> Rootless(d, r, area)
  {
    hide Step;
    if area == NONE {
      forall n: nat ensures Iter(d, NONE, n) in path {
        StaysOnPath(d, r, path, area, current, n);
      }
      forall x | x in path ensures IsArea(x) && Step(d, x) != x && At(r, x) == NONE {
        var i :| 0 <= i < |path| && path[i] == x;
        assert if i + 1 < |path| then path[i + 1] == Step(d, x) && path[i + 1] != path[i] else current == Step(d, x);
      }
      assert path[0] == NONE && NONE in path;
      StepOfSentinel(d);
      if root != NONE {
        var i :| 0 <= i < |path| && path[i] == root;
        PathIter(d, r, path, area, current, i);
        assert Iter(d, NONE, i) < NONE;
      } else {
        assert Endless(d);
      }
    }
  }

  // A visit that ends where nothing follows.
  lemma MetEnd(d: seq<int>, r: seq<int>, path: seq<int>, area: int, last: int)
    requires Areas(d) && Areas(r) && IsArea(last) && path != [] && IsPath(d, r, path, area, Step(d, last))
    requires last == path[|path| - 1] && Step(d, last) == last
    ensures last == NONE <==> Rootless(d, r, area)
  {
    hide Step;
    PathIter(d, r, path, area, Step(d, last), |path| - 1);
    StepOfSentinel(d);
    if last == NONE {
      assert path[|path| - 1] == NONE;
    } else if area == NONE && At(d, NONE) == NONE {
      StuckAtSentinel(d, |path| - 1);
    }
  }

  // Follows merge entries from `area`. The visit path never holds an area twice, so the walk ends on every
  // table; every area on it is resolved afterwards, and none of it was before.
  method Visit(direct: array<int>, resolved: array<int>, stamps: array<int>, stamp: int, area: int)
    returns (path: seq<int>, root: int, ghost current: int)
    requires direct.Length == resolved.Length == stamps.Length == SLOTS && stamps != direct && stamps != resolved
    requires Resolved(direct[..], resolved[..]) && IsArea(area)
    requires 0 < stamp && forall k :: 0 <= k < SLOTS ==> 0 <= stamps[k] < stamp
    modifies stamps
    ensures IsPath(direct[..], resolved[..], path, area, current) && IsArea(root) && (root == NONE ==> area == NONE)
    ensures root != NONE ==> Ends(direct[..], resolved[..], path, current, root)
    ensures path == [] ==> root == resolved[Slot(area)]
    ensures root == NONE <==> Rootless(direct[..], resolved[..], area)
    ensures forall k :: 0 <= k < SLOTS ==> 0 <= stamps[k] <= stamp
  {
    hide Rooted, AllAreas, Rootless;
    ghost var d, r := direct[..], resolved[..];
    path, current, root := [], area, NONE;
    NoPath(d, r, stamps[..], stamp, area);
    var at := area;
    while true
      invariant current == at && IsPath(d, r, path, area, at) && Stamps(stamps[..], stamp, path)
      invariant path != [] ==> at != NONE && Step(d, path[|path| - 1]) != path[|path| - 1]
      decreases AllAreas() - Elements(path)
    {
      var slot := Slot(at);
      if resolved[slot] != NONE {
        root := resolved[slot];
        assert At(r, at) == root;
        MetResolved(d, r, path, area, at);
        return;
      }
      if stamps[slot] == stamp {
        assert At(stamps[..], at) == stamp;
        root := MinElement(path);
        MetCycle(d, r, path, area, at, root);
        return;
      }
      assert At(stamps[..], at) != stamp;
      StampStep(stamps[..], stamp, path, at);
      stamps[slot] := stamp;
      assert At(r, at) == NONE;
      PathStep(d, r, path, area, at);
      InAllAreas(at);
      path := path + [at];
      var next := direct[slot];
      assert At(d, at) == next;
      current := Step(d, at);
      if next == NONE || next == at {
        root := at;
        MetEnd(d, r, path, area, at);
        return;
      }
      at := next;
    }
  }

  // A visit that meets a root hands it on to areas that meet the same rows.
  lemma RootHandedOn(rows: seq<Row>, i: nat, d: seq<int>, r: seq<int>, a: int, m: nat)
    requires i < |rows| && Areas(d) && Areas(r) && IsArea(a) && NeverEnds(d, a)
    requires var c := Iter(d, a, m); CycleRoots(rows, i, d, r) && At(r, c) != NONE
    ensures LeastOf(rows, i + 1, d, a, At(r, Iter(d, a, m)))
  {
    hide Step, Iter, FirstMeeting, IsLeast, NeverEnds;
    var c := Iter(d, a, m);
    NeverEndsAlong(d, a, m);
    assert LeastOf(rows, i, d, c, At(r, c));
    var j :| 0 <= j < i && FirstMeeting(rows, d, j, c) && IsLeast(d, ToArea(rows[j].id), At(r, c));
    FirstMeetingBack(rows, d, j, a, m);
  }

  lemma IterZero(d: seq<int>, a: int)
    requires Areas(d) && IsArea(a)
    ensures Iter(d, a, 0) == a
  {
  }

  // A visit that runs into its own path has met no earlier row, and its path is its whole chain.
  lemma CycleIsFirst(rows: seq<Row>, i: nat, d: seq<int>, r: seq<int>, path: seq<int>, current: int, root: int, x: nat)
    requires i < |rows| && Resolved(d, r) && RowsDone(rows, i, r) && x < |path|
    requires IsPath(d, r, path, ToArea(rows[i].id), current) && current in path
    requires root in path && forall y :: y in path ==> root <= y
    ensures LeastOf(rows, i + 1, d, path[x], root)
  {
    hide Step, Iter, Rooted, ToArea;
    var area, a := ToArea(rows[i].id), path[x];
    PathIter(d, r, path, area, current, x);
    var y :| 0 <= y < |path| && path[y] == root;
    PathIter(d, r, path, area, current, y);
    forall n: nat ensures Iter(d, area, n) in path {
      StaysOnPath(d, r, path, area, current, n);
    }
    assert IsLeast(d, area, root);
    IterZero(d, a);
    assert Meets(d, area, a);
    forall k {:trigger rows[k]} | 0 <= k < i ensures !Meets(d, ToArea(rows[k].id), a) {
      if Meets(d, ToArea(rows[k].id), a) {
        var m: nat, n: nat :| Iter(d, ToArea(rows[k].id), m) == Iter(d, a, n);
        IterAdd(d, area, x, n);
        assert Iter(d, area, x + n) in path;
        RootAlongChain(d, r, ToArea(rows[k].id), m);
      }
    }
    assert FirstMeeting(rows, d, i, a);
  }

  lemma CycleStep(rows: seq<Row>, i: nat, d: seq<int>, r: seq<int>, r': seq<int>, path: seq<int>, current: int, root: int)
    requires i < |rows| && Resolved(d, r) && RowsDone(rows, i, r) && CycleRoots(rows, i, d, r)
    requires IsPath(d, r, path, ToArea(rows[i].id), current) && Ends(d, r, path, current, root) && Painted(r, r', path, root)
    ensures CycleRoots(rows, i + 1, d, r')
  {
    hide Step, Iter, Rooted, ToArea, FirstMeeting, IsLeast;
    var area := ToArea(rows[i].id);
    forall a {:trigger At(r', a)} | IsArea(a) && At(r', a) != NONE && NeverEnds(d, a)
      ensures LeastOf(rows, i + 1, d, a, At(r', a))
    {
      if a in path {
        var x :| 0 <= x < |path| && path[x] == a;
        PathLeads(d, r, path, area, current, x);
        assert Step(d, Iter(d, a, |path| - x)) != Iter(d, a, |path| - x);
        if current !in path {
          RootHandedOn(rows, i, d, r, a, |path| - x);
        } else {
          CycleIsFirst(rows, i, d, r, path, current, root, x);
        }
      } else {
        assert LeastOf(rows, i, d, a, At(r, a));
      }
    }
  }

  // Roots once found stay.
  ghost predicate Kept(r: seq<int>, r': seq<int>)
    requires Areas(r) && Areas(r')
  {
    forall a {:trigger At(r', a)} :: IsArea(a) && At(r, a) != NONE ==> At(r', a) == At(r, a)
  }

  ghost predicate NoRepeats(path: seq<int>) {
    forall i, j :: 0 <= i < j < |path| ==> path[i] != path[j]
  }

  // The areas visited so far: each once, all resolved.
  ghost predicate Spent(visits: seq<int>, r: seq<int>)
    requires Areas(r)
  {
    NoRepeats(visits) && forall i :: 0 <= i < |visits| ==> IsArea(visits[i]) && At(r, visits[i]) != NONE
  }

  lemma NothingSpent(r: seq<int>)
    requires Areas(r)
    ensures Spent([], r)
  {
  }

  lemma SpentOnce(visits: seq<int>, r: seq<int>)
    requires Areas(r)
    ensures Spent(visits, r) ==> NoRepeats(visits)
  {
  }

  lemma SpentStep(visits: seq<int>, path: seq<int>, r: seq<int>, r': seq<int>)
    requires Areas(r) && Areas(r') && Spent(visits, r) && NoRepeats(path) && Kept(r, r')
    requires forall i :: 0 <= i < |path| ==> IsArea(path[i]) && At(r, path[i]) == NONE && At(r', path[i]) != NONE
    ensures Spent(visits + path, r')
  {
  }

  lemma PaintStep(r0: seq<int>, r: seq<int>, r': seq<int>, path: seq<int>, i: nat, root: int)
    requires Areas(r0) && i < |path| && Painted(r0, r, path[..i], root) && IsArea(root) && IsArea(path[i])
    requires r' == r[Slot(path[i]) := root]
    ensures Painted(r0, r', path[..i + 1], root)
  {
    forall a | IsArea(a) ensures At(r', a) == if a in path[..i + 1] then root else At(r0, a) {
      if a != path[i] && Slot(a) == Slot(path[i]) {
        SlotInjective(a, path[i]);
      }
      assert At(r, a) == if a in path[..i] then root else At(r0, a);
      assert path[..i + 1] == path[..i] + [path[i]];
    }
  }

  // Writes the root to every area of the path.
  method Paint(resolved: array<int>, path: seq<int>, root: int)
    requires Areas(resolved[..]) && IsArea(root) && forall i :: 0 <= i < |path| ==> IsArea(path[i])
    modifies resolved
    ensures Painted(old(resolved[..]), resolved[..], path, root)
  {
    for i := 0 to |path|
      invariant Painted(old(resolved[..]), resolved[..], path[..i], root)
    {
      ghost var before := resolved[..];
      resolved[Slot(path[i])] := root;
      PaintStep(old(resolved[..]), before, resolved[..], path, i, root);
    }
    assert path[..|path|] == path;
  }

  // Only areas on the chain of `area` have been resolved.
  ghost predicate Widened(d: seq<int>, r: seq<int>, r': seq<int>, area: int)
    requires Areas(d) && Areas(r) && Areas(r') && IsArea(area)
  {
    forall a {:trigger At(r', a)} :: IsArea(a) && At(r, a) == NONE && At(r', a) != NONE ==> OnChain(d, area, a)
  }

  lemma PaintWidens(d: seq<int>, r: seq<int>, r': seq<int>, path: seq<int>, area: int, current: int, root: int)
    requires Areas(d) && Areas(r) && IsPath(d, r, path, area, current) && Painted(r, r', path, root)
    ensures Widened(d, r, r', area)
  {
    hide Step;
    forall a {:trigger At(r', a)} | IsArea(a) && At(r, a) == NONE && At(r', a) != NONE ensures OnChain(d, area, a) {
      var i :| 0 <= i < |path| && path[i] == a;
      PathIter(d, r, path, area, current, i);
    }
  }

  lemma SameWhenUnpainted(r: seq<int>, r': seq<int>, path: seq<int>)
    requires Areas(r) && Painted(r, r', path, NONE) && forall i :: 0 <= i < |path| ==> IsArea(path[i]) && At(r, path[i]) == NONE
    ensures r' == r
  {
    forall s | 0 <= s < SLOTS ensures r'[s] == r[s] {
      var a := if s < 0x8000 then s else s - SLOTS;
      assert At(r', a) == r'[s] && At(r, a) == r[s];
    }
  }

  method ResolveMergeid(direct: array<int>, resolved: array<int>, stamps: array<int>, current: int, area: int)
    returns (root: int, stamp: int, ghost path: seq<int>, ghost last: int)
    requires direct.Length == resolved.Length == stamps.Length == SLOTS
    requires stamps != direct && stamps != resolved && direct != resolved
    requires Resolved(direct[..], resolved[..]) && IsArea(area)
    requires 0 <= current < 0x1_0000_0000 && forall k :: 0 <= k < SLOTS ==> 0 <= stamps[k] <= current
    modifies resolved, stamps
    ensures Resolved(direct[..], resolved[..]) && Kept(old(resolved[..]), resolved[..])
    ensures root == At(resolved[..], area) && (root == NONE ==> area == NONE)
    ensures root == NONE <==> Rootless(direct[..], old(resolved[..]), area)
    ensures Widened(direct[..], old(resolved[..]), resolved[..], area)
    ensures 0 < stamp < 0x1_0000_0000 && forall k :: 0 <= k < SLOTS ==> 0 <= stamps[k] <= stamp
    ensures NoRepeats(path)
    ensures forall i :: 0 <= i < |path| ==>
              && IsArea(path[i]) && At(old(resolved[..]), path[i]) == NONE
              && (root != NONE ==> At(resolved[..], path[i]) != NONE)
    ensures IsPath(direct[..], old(resolved[..]), path, area, last) && Painted(old(resolved[..]), resolved[..], path, root)
    ensures root != NONE ==> Ends(direct[..], old(resolved[..]), path, last, root)
  {
    hide Rooted, Rootless, Widened;
    stamp := NextVisitStamp(stamps, current);
    ghost var d, r := direct[..], resolved[..];
    var visited;
    visited, root, last := Visit(direct, resolved, stamps, stamp, area);
    path := visited;
    Paint(resolved, visited, root);
    assert direct[..] == d;
    PaintWidens(d, r, resolved[..], path, area, last, root);
    if root != NONE {
      PaintResolves(d, r, resolved[..], path, area, last, root);
    } else {
      SameWhenUnpainted(r, resolved[..], path);
      assert path != [] ==> path[0] == area;
    }
  }

  // The lists of merged areas: one per root, holding it and every area with a row and that root.
  ghost predicate Listed(rows: seq<Row>, r: seq<int>, lists: map<int, set<int>>)
    requires Areas(r)
  {
    && (forall q {:trigger q in lists} ::
          q in lists <==> exists a {:trigger HasRow(rows, a)} :: IsArea(a) && HasRow(rows, a) && At(r, a) == q)
    && (forall q, x {:trigger x in lists[q]} ::
          q in lists ==> (x in lists[q] <==> x == q || (IsArea(x) && HasRow(rows, x) && At(r, x) == q)))
  }

  // What a reload leaves, given the roots found.
  ghost predicate Loaded(rows: seq<Row>, r: seq<int>, merge1: seq<int>, lists: map<int, set<int>>)
    requires Areas(r)
  {
    && |merge1| == SLOTS
    && (forall a {:trigger At(merge1, a)} :: IsArea(a) ==> At(merge1, a) == if HasRow(rows, a) then At(r, a) else NONE)
    && (forall a {:trigger HasRow(rows, a)} :: IsArea(a) && HasRow(rows, a) ==> At(r, a) != NONE)
    && Listed(rows, r, lists)
  }

  lemma LoadedNone(merge1: seq<int>, r: seq<int>, d: seq<int>)
    requires |merge1| == SLOTS && forall k :: 0 <= k < SLOTS ==> merge1[k] == NONE
    requires Areas(d) && |r| == SLOTS && forall k :: 0 <= k < SLOTS ==> r[k] == NONE
    ensures Resolved(d, r) && Loaded([], r, merge1, map[])
  {
  }

  lemma HasRowStep(rows: seq<Row>, i: nat, a: int)
    requires i < |rows|
    ensures HasRow(rows[..i + 1], a) <==> HasRow(rows[..i], a) || a == ToArea(rows[i].id)
    ensures HasRow(rows[..i + 1], a) ==> HasRow(rows, a)
  {
  }

  lemma AreaOf(x: int)
    ensures IsArea(ToArea(x))
  {
  }

  lemma ListStep(rows: seq<Row>, i: nat, r: seq<int>, r': seq<int>, lists: map<int, set<int>>, lists': map<int, set<int>>)
    requires i < |rows| && Areas(r) && Areas(r') && Kept(r, r')
    requires Listed(rows[..i], r, lists) && forall a {:trigger HasRow(rows[..i], a)} ::
               IsArea(a) && HasRow(rows[..i], a) ==> At(r, a) != NONE
    requires var area := ToArea(rows[i].id); var root := At(r', area);
             lists' == lists[root := (if root in lists then lists[root] else {}) + {root, area}]
    ensures Listed(rows[..i + 1], r', lists')
  {
    hide HasRow, ToArea;
    var area := ToArea(rows[i].id);
    var root := At(r', area);
    var old', new' := rows[..i], rows[..i + 1];
    assert IsArea(area) && HasRow(new', area) by {
      HasRowStep(rows, i, area);
      AreaOf(rows[i].id);
    }
    forall a | IsArea(a)
      ensures HasRow(new', a) <==> HasRow(old', a) || a == area
      ensures HasRow(old', a) ==> At(r', a) == At(r, a)
    {
      HasRowStep(rows, i, a);
    }
    forall q ensures q in lists' <==> exists a {:trigger HasRow(new', a)} :: IsArea(a) && HasRow(new', a) && At(r', a) == q {
      if q in lists {
        var a :| IsArea(a) && HasRow(old', a) && At(r, a) == q;
        assert HasRow(new', a) && At(r', a) == q;
      }
      if exists a {:trigger HasRow(new', a)} :: IsArea(a) && HasRow(new', a) && At(r', a) == q {
        var a :| IsArea(a) && HasRow(new', a) && At(r', a) == q;
        assert a == area || HasRow(old', a);
      }
    }
  }

  lemma RowStep(rows: seq<Row>, i: nat, r: seq<int>, r': seq<int>, m: seq<int>, m': seq<int>,
                lists: map<int, set<int>>, lists': map<int, set<int>>)
    requires i < |rows| && Areas(r) && Areas(r') && Kept(r, r')
    requires Loaded(rows[..i], r, m, lists)
    requires var area := ToArea(rows[i].id); var root := At(r', area);
             && root != NONE && m' == m[Slot(area) := root]
             && lists' == lists[root := (if root in lists then lists[root] else {}) + {root, area}]
    ensures Loaded(rows[..i + 1], r', m', lists')
  {
    hide HasRow, ToArea;
    var area := ToArea(rows[i].id);
    var root := At(r', area);
    HasRowStep(rows, i, area);
    forall a | IsArea(a)
      ensures At(m', a) == if HasRow(rows[..i + 1], a) then At(r', a) else NONE
      ensures HasRow(rows[..i + 1], a) ==> At(r', a) != NONE
    {
      HasRowStep(rows, i, a);
      assert At(m, a) == if HasRow(rows[..i], a) then At(r, a) else NONE;
      if a != area && Slot(a) == Slot(area) {
        SlotInjective(a, area);
      }
    }
    ListStep(rows, i, r, r', lists, lists');
  }

  lemma DirectStep(rows: seq<Row>, i: nat, d: seq<int>, d': seq<int>)
    requires i < |rows| && IsDirect(rows[..i], d)
    requires d' == d[Slot(ToArea(rows[i].id)) := ToArea(rows[i].mergeid)]
    ensures IsDirect(rows[..i + 1], d')
  {
    hide ToArea;
    var more := rows[..i + 1];
    assert more[..i] == rows[..i] && more[i] == rows[i];
    forall a | IsArea(a) ensures At(d', a) == Target(more, a) {
      assert At(d, a) == Target(rows[..i], a);
      if a != ToArea(rows[i].id) && Slot(a) == Slot(ToArea(rows[i].id)) {
        SlotInjective(a, ToArea(rows[i].id));
      }
    }
  }

  // The last row of an area decides where it merges into.
  lemma {:induction false} TargetIsLast(rows: seq<Row>, i: nat)
    requires i < |rows| && forall j :: i < j < |rows| ==> ToArea(rows[j].id) != ToArea(rows[i].id)
    ensures Target(rows, ToArea(rows[i].id)) == ToArea(rows[i].mergeid)
  {
    if i < |rows| - 1 {
      TargetIsLast(rows[..|rows| - 1], i);
    }
  }

  lemma {:induction false} NoTarget(rows: seq<Row>, a: int)
    requires !HasRow(rows, a)
    ensures Target(rows, a) == NONE
  {
    if rows != [] {
      var n := |rows| - 1;
      assert ToArea(rows[n].id) != a;
      forall j | 0 <= j < n ensures ToArea(rows[..n][j].id) != a {
        assert rows[..n][j] == rows[j];
      }
      NoTarget(rows[..n], a);
    }
  }

  // Later rows win.
  method FillDirect(rows: seq<Row>, direct: array<int>)
    requires direct.Length == SLOTS && forall k :: 0 <= k < SLOTS ==> direct[k] == NONE
    modifies direct
    ensures IsDirect(rows, direct[..])
  {
    assert rows[..|rows|] == rows;
    for i := 0 to |rows|
      invariant IsDirect(rows[..i], direct[..])
    {
      var area := ToArea(rows[i].id);
      ghost var before := direct[..];
      direct[Slot(area)] := ToArea(rows[i].mergeid);
      DirectStep(rows, i, before, direct[..]);
    }
  }

  lemma NoSentinelList(rows: seq<Row>, r: seq<int>, merge1: seq<int>, lists: map<int, set<int>>)
    requires Areas(r)
    ensures Loaded(rows, r, merge1, lists) ==> NONE !in lists
  {
  }

  // A row that merges the sentinel nowhere cannot be served: no roots, merge ids and lists fit it.
  lemma SentinelRowFails(rows: seq<Row>, d: seq<int>, r: seq<int>, merge1: seq<int>, lists: map<int, set<int>>)
    requires IsDirect(rows, d) && Resolved(d, r) && HasRow(rows, NONE) && Target(rows, NONE) == NONE
    ensures !Loaded(rows, r, merge1, lists)
  {
    assert At(d, NONE) == NONE;
    assert At(r, NONE) == NONE || Rooted(d, r, NONE);
  }

  // While the sentinel has had no row, the resolved areas are those on the chains of the rows so far.
  ghost predicate Reached(rows: seq<Row>, i: nat, d: seq<int>, r: seq<int>)
    requires i <= |rows| && Areas(d) && Areas(r)
  {
    forall a {:trigger At(r, a)} :: IsArea(a) ==>
      (At(r, a) != NONE <==> exists j :: 0 <= j < i && OnChain(d, ToArea(rows[j].id), a))
  }

  lemma ReachedStep(rows: seq<Row>, i: nat, d: seq<int>, r: seq<int>, r': seq<int>)
    requires i < |rows| && Areas(r) && Resolved(d, r') && Reached(rows, i, d, r) && Kept(r, r')
    requires var area := ToArea(rows[i].id); At(r', area) != NONE && Widened(d, r, r', area)
    ensures Reached(rows, i + 1, d, r')
  {
    hide ToArea, Step, Rooted;
    var area := ToArea(rows[i].id);
    forall a {:trigger At(r', a)} | IsArea(a)
      ensures At(r', a) != NONE <==> exists j :: 0 <= j < i + 1 && OnChain(d, ToArea(rows[j].id), a)
    {
      assert At(r, a) != NONE <==> exists j :: 0 <= j < i && OnChain(d, ToArea(rows[j].id), a);
      if At(r', a) != NONE {
        assert At(r, a) == NONE ==> OnChain(d, ToArea(rows[i].id), a);
      }
      if OnChain(d, area, a) {
        var n: nat :| Iter(d, area, n) == a;
        RootAlongChain(d, r', area, n);
      }
    }
  }

  // The state of the sentinel after some rows.
  ghost predicate SentinelState(rows: seq<Row>, i: nat, d: seq<int>, r: seq<int>, lists: map<int, set<int>>)
    requires i <= |rows| && IsDirect(rows, d) && Areas(r)
  {
    if HasRow(rows[..i], NONE) then
      && (NONE in lists <==> SentinelFails(rows, d))
      && (NONE !in lists ==> At(r, NONE) != NONE)
    else Reached(rows, i, d, r) && NONE !in lists
  }

  lemma RootlessIsSentinel(d: seq<int>, r: seq<int>, area: int)
    requires Areas(d) && Areas(r)
    ensures Rootless(d, r, area) ==> area == NONE
  {
  }

  lemma UnmetIffApart(rows: seq<Row>, i: nat, d: seq<int>, r: seq<int>)
    requires i <= |rows| && Areas(d) && Areas(r) && Reached(rows, i, d, r)
    ensures Unmet(d, r) <==> AllApart(rows, i, d)
  {
    hide ToArea, Iter, OnChain;
    if Unmet(d, r) {
      forall j | 0 <= j < i ensures Apart(d, ToArea(rows[j].id)) {
        forall n: nat ensures !OnChain(d, ToArea(rows[j].id), Iter(d, NONE, n)) {
          assert At(r, Iter(d, NONE, n)) == NONE;
        }
      }
    }
    if AllApart(rows, i, d) {
      forall n: nat ensures At(r, Iter(d, NONE, n)) == NONE {
        forall j | 0 <= j < i ensures !OnChain(d, ToArea(rows[j].id), Iter(d, NONE, n)) {
          assert Apart(d, ToArea(rows[j].id));
        }
      }
      assert Unmet(d, r);
    }
  }

  lemma NotFirst(rows: seq<Row>, i: nat, j: nat)
    requires i < j < |rows| && ToArea(rows[i].id) == NONE
    ensures !FirstSentinel(rows, j)
  {
    assert rows[..j][i] == rows[i];
  }

  lemma FirstOnce(rows: seq<Row>, i: nat, j: nat)
    requires i < |rows| && j < |rows| && FirstSentinel(rows, i) && FirstSentinel(rows, j)
    ensures i == j
  {
    if i < j {
      NotFirst(rows, i, j);
    } else if j < i {
      NotFirst(rows, j, i);
    }
  }

  // At its first row the sentinel stays rootless exactly when the table says so.
  lemma SentinelFirst(rows: seq<Row>, i: nat, d: seq<int>, r: seq<int>)
    requires i < |rows| && IsDirect(rows, d) && Areas(r) && Reached(rows, i, d, r)
    requires FirstSentinel(rows, i)
    ensures Rootless(d, r, NONE) <==> SentinelFails(rows, d)
  {
    hide ToArea, Endless, Unmet, AllApart;
    forall j: nat | j < |rows| && FirstSentinel(rows, j) ensures j == i {
      FirstOnce(rows, i, j);
    }
    assert At(d, NONE) == Target(rows, NONE);
    UnmetIffApart(rows, i, d, r);
  }

  lemma SentinelStep(rows: seq<Row>, i: nat, d: seq<int>, r: seq<int>, r': seq<int>,
                     lists: map<int, set<int>>, lists': map<int, set<int>>)
    requires i < |rows| && IsDirect(rows, d) && Areas(r) && Resolved(d, r') && Kept(r, r')
    requires var area := ToArea(rows[i].id);
             && (At(r', area) == NONE <==> Rootless(d, r, area)) && Widened(d, r, r', area)
             && lists'.Keys == lists.Keys + {At(r', area)}
    requires SentinelState(rows, i, d, r, lists)
    ensures SentinelState(rows, i + 1, d, r', lists')
  {
    hide ToArea, Rootless, SentinelFails, Reached, Widened;
    var area := ToArea(rows[i].id);
    HasRowStep(rows, i, NONE);
    if HasRow(rows[..i], NONE) {
      RootlessIsSentinel(d, r, area);
    } else if area == NONE {
      SentinelFirst(rows, i, d, r);
    } else {
      RootlessIsSentinel(d, r, area);
      ReachedStep(rows, i, d, r, r');
    }
  }

  lemma SentinelNone(rows: seq<Row>, d: seq<int>, r: seq<int>)
    requires IsDirect(rows, d) && |r| == SLOTS && forall k :: 0 <= k < SLOTS ==> r[k] == NONE
    ensures SentinelState(rows, 0, d, r, map[])
  {
  }

  lemma SentinelDone(rows: seq<Row>, d: seq<int>, r: seq<int>, lists: map<int, set<int>>)
    requires IsDirect(rows, d) && Areas(r) && SentinelState(rows, |rows|, d, r, lists)
    ensures NONE in lists <==> SentinelFails(rows, d)
    ensures !HasRow(rows, NONE) ==> NONE !in lists
  {
    assert rows[..|rows|] == rows;
    forall i: nat | i < |rows| && FirstSentinel(rows, i) ensures HasRow(rows, NONE) {
      assert ToArea(rows[i].id) == NONE;
    }
  }

  // Two tables that fail: the sentinel merged into itself, and the sentinel leading into a cycle above it.
  lemma SentinelRow(d: seq<int>)
    requires IsDirect([Row(NONE, NONE)], d)
    ensures SentinelFails([Row(NONE, NONE)], d)
  {
    var rows := [Row(NONE, NONE)];
    assert rows[0].id == NONE && FirstSentinel(rows, 0);
  }

  const CYCLE := [Row(NONE, 5), Row(5, 6), Row(6, 5)]

  lemma CycleTargets()
    ensures Target(CYCLE, NONE) == 5 && Target(CYCLE, 5) == 6 && Target(CYCLE, 6) == 5
  {
    var one, two := [Row(NONE, 5)], [Row(NONE, 5), Row(5, 6)];
    assert two[..1] == one && CYCLE[..2] == two;
    assert Target(one, NONE) == 5;
    assert Target(two, NONE) == 5 && Target(two, 5) == 6;
  }

  lemma {:induction false} CycleChain(d: seq<int>, n: nat)
    requires IsDirect(CYCLE, d)
    ensures Iter(d, NONE, n) in {NONE, 5, 6} && Step(d, Iter(d, NONE, n)) in {5, 6} - {Iter(d, NONE, n)}
  {
    CycleTargets();
    assert At(d, NONE) == 5 && At(d, 5) == 6 && At(d, 6) == 5;
    if n > 0 {
      CycleChain(d, n - 1);
      IterStep(d, NONE, n - 1);
    }
  }

  lemma SentinelCycle(d: seq<int>)
    requires IsDirect(CYCLE, d)
    ensures SentinelFails(CYCLE, d) && Target(CYCLE, NONE) == 5
  {
    forall n: nat ensures NONE <= Iter(d, NONE, n) && Step(d, Iter(d, NONE, n)) != Iter(d, NONE, n) {
      CycleChain(d, n);
    }
    CycleTargets();
    assert CYCLE[0].id == NONE && FirstSentinel(CYCLE, 0);
  }

  // Two areas have the same root exactly when their merge entries lead to a common area.
  lemma SameRootIffMeets(d: seq<int>, r: seq<int>, a: int, b: int)
    requires Resolved(d, r) && IsArea(a) && IsArea(b) && At(r, a) != NONE && At(r, b) != NONE
    ensures At(r, a) == At(r, b) <==> Meets(d, a, b)
  {
    hide Step;
    if Meets(d, a, b) {
      var m: nat, n: nat :| Iter(d, a, m) == Iter(d, b, n);
      RootAlongChain(d, r, a, m);
      RootAlongChain(d, r, b, n);
    }
    if At(r, a) == At(r, b) {
      var q := At(r, a);
      assert Rooted(d, r, a) && Rooted(d, r, b);
      var m: nat, n: nat :| Iter(d, a, m) == Iter(d, q, n);
      var k: nat, l: nat :| Iter(d, b, k) == Iter(d, q, l);
      IterAdd(d, a, m, l);
      IterAdd(d, q, n, l);
      IterAdd(d, b, k, n);
      IterAdd(d, q, l, n);
      assert Iter(d, a, m + l) == Iter(d, b, k + n);
    }
  }

  // After a reload: a root that has a row is its own merge id, one without a row has none.
  lemma MergeIdOfRoot(rows: seq<Row>, d: seq<int>, r: seq<int>, merge1: seq<int>, lists: map<int, set<int>>, a: int)
    requires Resolved(d, r) && Loaded(rows, r, merge1, lists) && IsArea(a) && HasRow(rows, a)
    ensures var q := At(merge1, a);
            && q != NONE && IsArea(q) && At(r, q) == q
            && At(merge1, q) == if HasRow(rows, q) then q else NONE
  {
    assert Rooted(d, r, a);
    assert At(merge1, a) == At(r, a);
    assert At(merge1, At(r, a)) == if HasRow(rows, At(r, a)) then At(r, At(r, a)) else NONE;
  }

  // After a reload: an area and the one it merges into have the same merge id.
  lemma MergeIdShared(rows: seq<Row>, d: seq<int>, r: seq<int>, merge1: seq<int>, lists: map<int, set<int>>, a: int)
    requires IsDirect(rows, d) && Resolved(d, r) && Loaded(rows, r, merge1, lists)
    requires IsArea(a) && HasRow(rows, a) && Target(rows, a) != NONE && HasRow(rows, Target(rows, a))
    ensures IsArea(Target(rows, a)) && At(merge1, Target(rows, a)) == At(merge1, a)
  {
    assert Rooted(d, r, a);
    assert At(d, a) == Target(rows, a);
    var b := Target(rows, a);
    assert At(merge1, a) == At(r, a) && At(merge1, b) == At(r, b);
  }

  // After a reload: no area is in two merge lists, and each row's area is in the list of its merge id.
  lemma ListsPartition(rows: seq<Row>, d: seq<int>, r: seq<int>, merge1: seq<int>, lists: map<int, set<int>>)
    requires Resolved(d, r) && Loaded(rows, r, merge1, lists)
    ensures forall p, q :: p in lists && q in lists && p != q ==> lists[p] !! lists[q]
    ensures forall a :: IsArea(a) && HasRow(rows, a) ==> At(merge1, a) in lists && a in lists[At(merge1, a)]
  {
    hide HasRow;
    forall q | q in lists ensures IsArea(q) && At(r, q) == q {
      var a :| IsArea(a) && HasRow(rows, a) && At(r, a) == q;
      assert Rooted(d, r, a);
    }
    forall p, q | p in lists && q in lists && p != q ensures lists[p] !! lists[q] {
      forall x | x in lists[p] ensures x !in lists[q] {
        assert IsArea(x) && At(r, x) == p;
      }
    }
  }

  lemma NoCycleRoots(rows: seq<Row>, d: seq<int>, r: seq<int>)
    requires Areas(d) && |r| == SLOTS && forall k :: 0 <= k < SLOTS ==> r[k] == NONE
    ensures CycleRoots(rows, 0, d, r)
  {
  }

  lemma LoadedDone(rows: seq<Row>, i: nat, r: seq<int>, merge1: seq<int>, lists: map<int, set<int>>)
    requires i < |rows| && Areas(r) && Loaded(rows[..i], r, merge1, lists)
    ensures RowsDone(rows, i, r)
  {
    hide Listed;
    forall k {:trigger rows[k]} | 0 <= k < i ensures At(r, ToArea(rows[k].id)) != NONE {
      assert rows[..i][k] == rows[k];
      assert HasRow(rows[..i], ToArea(rows[k].id));
    }
  }

  // Each list holds its root and every area with a row and that merge id; areas without a row have no merge id.
  lemma LoadedLists(rows: seq<Row>, r: seq<int>, merge1: seq<int>, lists: map<int, set<int>>)
    requires Areas(r) && Loaded(rows, r, merge1, lists)
    ensures forall q, x {:trigger x in lists[q]} ::
              q in lists ==> (x in lists[q] <==> x == q || (IsArea(x) && HasRow(rows, x) && At(merge1, x) == q))
    ensures forall a {:trigger At(merge1, a)} :: IsArea(a) && !HasRow(rows, a) ==> At(merge1, a) == NONE
  {
    hide HasRow;
  }

  // Merge ids told from the rows: the end of the chain, or, if it runs into a cycle, the least area on the chain of
  // the first row it meets.
  lemma LoadedRoots(rows: seq<Row>, d: seq<int>, r: seq<int>, merge1: seq<int>, lists: map<int, set<int>>)
    requires Resolved(d, r) && Loaded(rows, r, merge1, lists) && CycleRoots(rows, |rows|, d, r)
    ensures forall a, n: nat {:trigger At(merge1, a), Iter(d, a, n)} ::
              IsArea(a) && HasRow(rows, a) && Step(d, Iter(d, a, n)) == Iter(d, a, n) ==> At(merge1, a) == Iter(d, a, n)
    ensures forall a {:trigger At(merge1, a)} ::
              IsArea(a) && HasRow(rows, a) && NeverEnds(d, a) ==> LeastOf(rows, |rows|, d, a, At(merge1, a))
  {
    hide HasRow, Step, Iter, Rooted, NeverEnds, LeastOf, Listed;
    forall a, n: nat {:trigger At(merge1, a), Iter(d, a, n)} |
      IsArea(a) && HasRow(rows, a) && Step(d, Iter(d, a, n)) == Iter(d, a, n)
      ensures At(merge1, a) == Iter(d, a, n)
    {
      RootAlongChain(d, r, a, n);
    }
  }

  lemma OneFirst(rows: seq<Row>, d: seq<int>, i: int, j: int, a: int)
    requires Areas(d) && IsArea(a) && FirstMeeting(rows, d, i, a) && FirstMeeting(rows, d, j, a)
    ensures i == j
  {
    hide Meets, ToArea;
    var first, second := rows[i], rows[j];
  }

  // From anywhere on a cycle the walk comes back.
  lemma {:induction false} CycleBack(d: seq<int>, b: int, m: nat, n: nat)
    requires Areas(d) && IsArea(b) && m > 0 && Iter(d, b, m) == b
    ensures OnChain(d, Iter(d, b, n), b)
    decreases n
  {
    hide Step, Iter;
    if n <= m {
      IterAdd(d, b, n, m - n);
      assert Iter(d, Iter(d, b, n), m - n) == b;
    } else {
      IterAdd(d, b, m, n - m);
      CycleBack(d, b, m, n - m);
    }
  }

  // When the first row that meets a cycle lies on it, the least area of the cycle is the root of all who meet it.
  lemma LeastOfCycle(rows: seq<Row>, d: seq<int>, a: int, q: int, j: int, m: nat)
    requires Areas(d) && IsArea(a) && FirstMeeting(rows, d, j, a) && LeastOf(rows, |rows|, d, a, q)
    requires m > 0 && Iter(d, ToArea(rows[j].id), m) == ToArea(rows[j].id)
    ensures IsLeast(d, ToArea(rows[j].id), q)
    ensures forall n: nat {:trigger Iter(d, ToArea(rows[j].id), n)} ::
              OnChain(d, Iter(d, ToArea(rows[j].id), n), ToArea(rows[j].id))
  {
    hide Step, Iter, ToArea, IsLeast, Meets;
    var b := ToArea(rows[j].id);
    var i :| 0 <= i < |rows| && FirstMeeting(rows, d, i, a) && IsLeast(d, ToArea(rows[i].id), q);
    OneFirst(rows, d, i, j, a);
    forall n: nat ensures OnChain(d, Iter(d, b, n), b) {
      CycleBack(d, b, m, n);
    }
  }

  class MergeTable {
    const merge1: array<int>
    var merge2: map<int, set<int>>

    constructor ()
      ensures fresh(merge1) && merge1.Length == SLOTS && merge2 == map[]
      ensures forall a {:trigger At(merge1[..], a)} :: IsArea(a) ==> At(merge1[..], a) == NONE
    {
      merge1 := new int[SLOTS](_ => NONE);
      merge2 := map[];
    }

    function MergeId(a: int): int
      requires IsArea(a) && merge1.Length == SLOTS
      reads merge1
    {
      merge1[Slot(a)]
    }

    // Rows come in ascending order of their ids. Ends on every table. The lists, the merge ids and the roots
    // agree exactly when no list is kept for the sentinel, and never is one kept unless the sentinel has a
    // row; then no area is put on a visit path twice.
    method Reload(rows: seq<Row>) returns (ghost d: seq<int>, ghost r: seq<int>, ghost visits: seq<int>)
      requires merge1.Length == SLOTS
      modifies this, merge1
      ensures IsDirect(rows, d) && Resolved(d, r)
      ensures Loaded(rows, r, merge1[..], merge2) <==> NONE !in merge2
      ensures NONE !in merge2 ==> NoRepeats(visits)
      ensures NONE in merge2 <==> SentinelFails(rows, d)
      ensures !HasRow(rows, NONE) ==> NONE !in merge2
      ensures NONE !in merge2 ==> forall q, x {:trigger x in merge2[q]} ::
        q in merge2 ==> (x in merge2[q] <==> x == q || (IsArea(x) && HasRow(rows, x) && MergeId(x) == q))
      ensures forall a {:trigger MergeId(a)} :: IsArea(a) && !HasRow(rows, a) && NONE !in merge2 ==> MergeId(a) == NONE
      ensures NONE !in merge2 ==> forall a, n: nat {:trigger MergeId(a), Iter(d, a, n)} ::
        IsArea(a) && HasRow(rows, a) && Step(d, Iter(d, a, n)) == Iter(d, a, n) ==> MergeId(a) == Iter(d, a, n)
      ensures NONE !in merge2 ==> forall a {:trigger MergeId(a)} ::
        IsArea(a) && HasRow(rows, a) && NeverEnds(d, a) ==> LeastOf(rows, |rows|, d, a, MergeId(a))
      ensures NONE !in merge2 ==> forall a {:trigger MergeId(a)} ::
        IsArea(a) && HasRow(rows, a) ==> MergeId(a) in merge2 && a in merge2[MergeId(a)]
    {
      hide Rooted, Loaded, HasRow, IsDirect, Target, Spent, SentinelState, SentinelFails, Rootless, Widened, CycleRoots,
        RowsDone, IsPath, Painted, Ends, Step, NeverEnds, LeastOf, NoRepeats;
      for k := 0 to SLOTS
        invariant forall j :: 0 <= j < k ==> merge1[j] == NONE
      {
        merge1[k] := NONE;
      }
      merge2 := map[];
      var direct := new int[SLOTS](_ => NONE);
      var resolved := new int[SLOTS](_ => NONE);
      var stamps := new int[SLOTS](_ => 0);
      var current := 0;
      FillDirect(rows, direct);
      d := direct[..];
      LoadedNone(merge1[..], resolved[..], d);
      NoCycleRoots(rows, d, resolved[..]);
      assert rows[..0] == [];
      visits := [];
      NothingSpent(resolved[..]);
      SentinelNone(rows, d, resolved[..]);
      for i := 0 to |rows|
        invariant direct[..] == d && 0 <= current < 0x1_0000_0000
        invariant forall k :: 0 <= k < SLOTS ==> 0 <= stamps[k] <= current
        invariant Resolved(d, resolved[..])
        invariant NONE !in merge2 ==> Loaded(rows[..i], resolved[..], merge1[..], merge2) && Spent(visits, resolved[..])
        invariant SentinelState(rows, i, d, resolved[..], merge2)
        invariant NONE !in merge2 ==> CycleRoots(rows, i, d, resolved[..])
      {
        var area := ToArea(rows[i].id);
        ghost var before, r0 := merge1[..], resolved[..];
        var root;
        ghost var path, last;
        root, current, path, last := ResolveMergeid(direct, resolved, stamps, current, area);
        merge1[Slot(area)] := root;
        ghost var lists := merge2;
        merge2 := merge2[root := (if root in merge2 then merge2[root] else {}) + {root, area}];
        SentinelStep(rows, i, d, r0, resolved[..], lists, merge2);
        if NONE !in merge2 {
          RowStep(rows, i, r0, resolved[..], before, merge1[..], lists, merge2);
          SpentStep(visits, path, r0, resolved[..]);
          LoadedDone(rows, i, r0, before, lists);
          CycleStep(rows, i, d, r0, resolved[..], path, last, root);
        }
        visits := visits + path;
      }
      assert rows[..|rows|] == rows;
      r := resolved[..];
      SpentOnce(visits, r);
      NoSentinelList(rows, r, merge1[..], merge2);
      SentinelDone(rows, d, r, merge2);
      if NONE !in merge2 {
        ListsPartition(rows, d, r, merge1[..], merge2);
        assert forall a :: IsArea(a) ==> MergeId(a) == At(merge1[..], a);
        LoadedRoots(rows, d, r, merge1[..], merge2);
        LoadedLists(rows, r, merge1[..], merge2);
      }
    }
  }
}
