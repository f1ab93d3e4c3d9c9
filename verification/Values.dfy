// Values of the serializer and the order containers keep them in.

module Values {
  import opened Bytes

  // Containers with keys list their items ascending.
  datatype Value =
    | VInt(n: int)
    | VBool(b: bool)
    | VBytes(bytes: Text)
    | VUnit
    | VPair(first: Value, second: Value)
    | VMany(items: seq<Value>)

  // How a container keeps its items: as they come (vector, list), ascending under a comparison that also
  // says which of them, or of their keys, are the same (set, map), or hashed, where `walk` is the order the
  // container iterates in. Hashed items have no order of their own; `less` only gives each content one name.
  datatype Keyed =
    | Free
    | Ordered(less: (Value, Value) -> bool)
    | Hashed(less: (Value, Value) -> bool, walk: seq<Value> -> seq<Value>)

  predicate SameKey(keyed: Keyed, u: Value, v: Value) {
    !keyed.Free? && !keyed.less(u, v) && !keyed.less(v, u)
  }

  ghost predicate Distinct(keyed: Keyed, items: seq<Value>) {
    forall i, j :: 0 <= i < j < |items| ==> !SameKey(keyed, items[i], items[j])
  }

  // What the standard library demands of a comparison.
  ghost predicate WeakOrder(less: (Value, Value) -> bool) {
    && (forall u :: !less(u, u))
    && (forall u, v, w :: less(u, v) && less(v, w) ==> less(u, w))
    && (forall u, v, w :: less(u, w) ==> less(u, v) || less(v, w))
  }

  ghost predicate Good(keyed: Keyed) {
    match keyed
    case Free => true
    case Ordered(less) => WeakOrder(less)
    case Hashed(less, walk) => WeakOrder(less) && forall items :: multiset(walk(items)) == multiset(items)
  }

  ghost predicate Ascending(less: (Value, Value) -> bool, items: seq<Value>) {
    forall i, j :: 0 <= i < j < |items| ==> less(items[i], items[j])
  }

  function Insert(less: (Value, Value) -> bool, x: Value, items: seq<Value>): seq<Value> {
    if items == [] || less(x, items[0]) then [x] + items else [items[0]] + Insert(less, x, items[1..])
  }

  // The items inserted one by one.
  ghost function Sort(less: (Value, Value) -> bool, items: seq<Value>): seq<Value> {
    if items == [] then [] else Insert(less, items[|items| - 1], Sort(less, items[..|items| - 1]))
  }

  // The container after the items have come in this order.
  ghost function Arranged(keyed: Keyed, items: seq<Value>): seq<Value> {
    if keyed.Free? then items else Sort(keyed.less, items)
  }

  // The order a container is written in.
  function Walk(keyed: Keyed, items: seq<Value>): seq<Value> {
    if keyed.Hashed? then keyed.walk(items) else items
  }

  lemma SameElems(a: seq<Value>, b: seq<Value>)
    requires multiset(a) == multiset(b)
    ensures |a| == |b| && forall x :: x in a <==> x in b
  {
    assert |multiset(a)| == |a| && |multiset(b)| == |b|;
    forall x ensures x in a <==> x in b {
      assert x in multiset(a) <==> x in multiset(b);
    }
  }

  lemma WalkElems(keyed: Keyed, items: seq<Value>)
    requires Good(keyed)
    ensures |Walk(keyed, items)| == |items| && multiset(Walk(keyed, items)) == multiset(items)
    ensures forall x :: x in Walk(keyed, items) <==> x in items
  {
    SameElems(Walk(keyed, items), items);
  }

  lemma {:induction false} InsertElems(less: (Value, Value) -> bool, x: Value, items: seq<Value>)
    ensures multiset(Insert(less, x, items)) == multiset{x} + multiset(items)
  {
    if items != [] && !less(x, items[0]) {
      InsertElems(less, x, items[1..]);
      assert items == [items[0]] + items[1..];
    }
  }

  lemma {:induction false} SortElems(less: (Value, Value) -> bool, items: seq<Value>)
    ensures multiset(Sort(less, items)) == multiset(items)
    ensures forall x :: x in Sort(less, items) <==> x in items
  {
    if items != [] {
      var x, rest := items[|items| - 1], items[..|items| - 1];
      SortElems(less, rest);
      InsertElems(less, x, Sort(less, rest));
      assert items == rest + [x];
    }
    SameElems(Sort(less, items), items);
  }

  // The first of an ascending list comes before all others.
  lemma FirstComes(less: (Value, Value) -> bool, items: seq<Value>, x: Value)
    requires Ascending(less, items) && x in items
    ensures x == items[0] || less(items[0], x)
  {
    var i :| 0 <= i < |items| && items[i] == x;
  }

  lemma ConsAscends(less: (Value, Value) -> bool, x: Value, rest: seq<Value>)
    requires Ascending(less, rest) && forall y :: y in rest ==> less(x, y)
    ensures Ascending(less, [x] + rest)
  {
  }

  lemma BeforeAll(less: (Value, Value) -> bool, x: Value, items: seq<Value>)
    requires WeakOrder(less) && Ascending(less, items) && items != [] && less(x, items[0])
    ensures forall y :: y in items ==> less(x, y)
  {
    forall y | y in items ensures less(x, y) {
      FirstComes(less, items, y);
    }
  }

  lemma {:induction false} InsertAscends(less: (Value, Value) -> bool, x: Value, items: seq<Value>)
    requires WeakOrder(less) && Ascending(less, items)
    requires forall y :: y in items ==> less(x, y) || less(y, x)
    ensures Ascending(less, Insert(less, x, items))
  {
    hide WeakOrder;
    if items == [] {
    } else if less(x, items[0]) {
      BeforeAll(less, x, items);
      ConsAscends(less, x, items);
    } else {
      var more := Insert(less, x, items[1..]);
      InsertAscends(less, x, items[1..]);
      InsertElems(less, x, items[1..]);
      forall y | y in more ensures less(items[0], y) {
        assert y in multiset(more);
        assert y == x || y in items[1..];
        assert items[0] in items;
      }
      ConsAscends(less, items[0], more);
    }
  }

  lemma {:induction false} SortAscends(keyed: Keyed, items: seq<Value>)
    requires !keyed.Free? && WeakOrder(keyed.less) && Distinct(keyed, items)
    ensures Ascending(keyed.less, Sort(keyed.less, items))
  {
    hide WeakOrder;
    if items != [] {
      var x, rest := items[|items| - 1], items[..|items| - 1];
      SortAscends(keyed, rest);
      SortElems(keyed.less, rest);
      forall y | y in Sort(keyed.less, rest) ensures keyed.less(x, y) || keyed.less(y, x) {
        var i :| 0 <= i < |rest| && rest[i] == y;
        assert !SameKey(keyed, items[i], items[|items| - 1]);
      }
      InsertAscends(keyed.less, x, Sort(keyed.less, rest));
    }
  }

  lemma SplitFirst(items: seq<Value>)
    requires items != []
    ensures multiset(items) == multiset{items[0]} + multiset(items[1..])
  {
    assert items == [items[0]] + items[1..];
  }

  lemma SameFirst(less: (Value, Value) -> bool, a: seq<Value>, b: seq<Value>)
    requires WeakOrder(less) && Ascending(less, a) && Ascending(less, b) && a != [] && b != []
    requires forall x :: x in a <==> x in b
    ensures a[0] == b[0]
  {
    FirstComes(less, a, b[0]);
    FirstComes(less, b, a[0]);
  }

  lemma SameRest(a: seq<Value>, b: seq<Value>)
    requires a != [] && b != [] && a[0] == b[0] && multiset(a) == multiset(b)
    ensures multiset(a[1..]) == multiset(b[1..])
  {
    SplitFirst(a);
    SplitFirst(b);
    assert multiset(a[1..]) == multiset(a) - multiset{a[0]};
    assert multiset(b[1..]) == multiset(b) - multiset{b[0]};
  }

  // One content has one ascending list.
  lemma {:induction false} AscendingUnique(less: (Value, Value) -> bool, a: seq<Value>, b: seq<Value>)
    requires WeakOrder(less) && Ascending(less, a) && Ascending(less, b) && multiset(a) == multiset(b)
    ensures a == b
  {
    SameElems(a, b);
    if a != [] {
      SameFirst(less, a, b);
      hide WeakOrder;
      SameRest(a, b);
      AscendingUnique(less, a[1..], b[1..]);
      assert a == [a[0]] + a[1..] && b == [b[0]] + b[1..];
    }
  }

  lemma {:induction false} OnlyOnce(less: (Value, Value) -> bool, items: seq<Value>, x: Value)
    requires WeakOrder(less) && Ascending(less, items)
    ensures multiset(items)[x] <= 1
  {
    if items != [] {
      OnlyOnce(less, items[1..], x);
      SplitFirst(items);
      forall y | y in items[1..] ensures y != items[0] {
        var k :| 0 <= k < |items| - 1 && items[1..][k] == y;
        assert less(items[0], items[k + 1]);
      }
    }
  }

  lemma Twice(items: seq<Value>, i: nat, j: nat)
    requires i < j < |items| && items[i] == items[j]
    ensures multiset(items)[items[i]] >= 2
  {
    assert items == items[..j] + [items[j]] + items[j + 1..];
    assert items[..j][i] in multiset(items[..j]);
  }

  // Whatever order an ascending list is rearranged in, no two items share a key.
  lemma ShuffledDistinct(keyed: Keyed, items: seq<Value>, shuffled: seq<Value>)
    requires !keyed.Free? && WeakOrder(keyed.less) && Ascending(keyed.less, items) && multiset(shuffled) == multiset(items)
    ensures Distinct(keyed, shuffled)
  {
    forall i, j | 0 <= i < j < |shuffled| ensures !SameKey(keyed, shuffled[i], shuffled[j]) {
      var x, y := shuffled[i], shuffled[j];
      assert x in multiset(items) && y in multiset(items);
      OnlyOnce(keyed.less, items, x);
      if x == y {
        Twice(shuffled, i, j);
      }
      var k :| 0 <= k < |items| && items[k] == x;
      var l :| 0 <= l < |items| && items[l] == y;
    }
  }

  // Reading a container in the order it was written gives the container.
  lemma WalkedBack(keyed: Keyed, items: seq<Value>)
    requires Good(keyed) && (keyed.Free? || Ascending(keyed.less, items))
    ensures Distinct(keyed, Walk(keyed, items)) && Arranged(keyed, Walk(keyed, items)) == items
  {
    if !keyed.Free? {
      hide WeakOrder;
      var walked := Walk(keyed, items);
      WalkElems(keyed, items);
      ShuffledDistinct(keyed, items, walked);
      SortAscends(keyed, walked);
      SortElems(keyed.less, walked);
      AscendingUnique(keyed.less, Sort(keyed.less, walked), items);
    }
  }

  lemma ArrangedIsKept(keyed: Keyed, items: seq<Value>)
    requires Good(keyed) && Distinct(keyed, items)
    ensures |Arranged(keyed, items)| == |items| && forall x :: x in Arranged(keyed, items) <==> x in items
    ensures keyed.Free? || Ascending(keyed.less, Arranged(keyed, items))
  {
    if !keyed.Free? {
      SortElems(keyed.less, items);
      SortAscends(keyed, items);
      SameElems(Sort(keyed.less, items), items);
    }
  }

  // Whether the items stand in the order the container they make up is written in.
  ghost predicate InOrder(keyed: Keyed, items: seq<Value>) {
    match keyed
    case Free => true
    case Ordered(less) => Ascending(less, items)
    case Hashed(less, walk) => walk(Sort(less, items)) == items
  }

  lemma InOrderIff(keyed: Keyed, items: seq<Value>)
    requires Good(keyed) && Distinct(keyed, items)
    ensures InOrder(keyed, items) <==> Walk(keyed, Arranged(keyed, items)) == items
  {
    if keyed.Ordered? {
      hide WeakOrder;
      SortElems(keyed.less, items);
      SortAscends(keyed, items);
      if Ascending(keyed.less, items) {
        AscendingUnique(keyed.less, Sort(keyed.less, items), items);
      }
    }
  }
}
