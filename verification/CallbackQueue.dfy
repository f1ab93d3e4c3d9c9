// The hand-linked queue of fired nodes.

module CallbackQueue {
  import opened Calendar
  import opened WheelRounds

  // What appending these nodes puts on record.
  ghost function Firings(nodes: seq<Node>, at: int): seq<Firing>
    reads nodes
  {
    seq(|nodes|, k requires 0 <= k < |nodes| reads nodes => Firing(nodes[k].Value(), at))
  }

  // Fired nodes wait here until a consumer pops them; `log` is everything ever appended.
  class Queue {
    var head: Node?
    var tail: Node?
    ghost var list: seq<Node>
    ghost var log: seq<Firing>
    ghost var popped: nat

    ghost predicate Valid()
      reads this, list
    {
      && IsChain(head, list)
      && tail == (if list == [] then null else list[|list| - 1])
      && popped + |list| == |log|
      && (forall k {:trigger list[k]} :: 0 <= k < |list| ==> list[k].Value() == log[popped + k].timer)
    }

    constructor ()
      ensures Valid() && log == [] && popped == 0 && list == []
    {
      head, tail := null, null;
      list, log, popped := [], [], 0;
    }

    lemma Counts()
      requires Valid()
      ensures popped + |list| == |log|
    {
    }

    // The last node of a list.
    static method CallbackTail(first: Node?, ghost more: seq<Node>) returns (last: Node?)
      requires IsChain(first, more)
      ensures last == if more == [] then null else more[|more| - 1]
    {
      last := first;
      ghost var k := 0;
      while last != null && last.next != null
        invariant more == [] ==> last == null
        invariant more != [] ==> 0 <= k < |more| && last == more[k]
        decreases |more| - k
      {
        last, k := last.next, k + 1;
      }
    }

    static lemma JoinChains(a: seq<Node>, b: seq<Node>)
      requires a != [] && IsChain(HeadOf(b), b) && a[|a| - 1].next == HeadOf(b)
      requires forall k {:trigger a[k].next} :: 0 <= k < |a| - 1 ==> a[k].next == a[k + 1]
      requires forall j, k :: 0 <= j < k < |a| ==> a[j] != a[k]
      requires forall n :: n in b ==> n !in a
      ensures IsChain(a[0], a + b)
    {
      var all := a + b;
      forall k | 0 <= k < |all| ensures all[k].next == NextOf(all, k) {
        if k >= |a| {
          assert b[k - |a|].next == NextOf(b, k - |a|);
        } else if k < |a| - 1 {
          assert a[k].next == a[k + 1];
        }
      }
      forall j, k | 0 <= j < k < |all| ensures all[j] != all[k] {
        if j < |a| <= k {
          assert all[j] in a && all[k] in b;
        }
      }
    }

    method LinkTail(first: Node, ghost more: seq<Node>)
      requires Valid() && head != null && IsChain(first, more) && forall n :: n in more ==> n !in list
      modifies list
      ensures IsChain(first, more) && IsChain(head, list + more)
      ensures forall n {:trigger n.Value()} :: n in list || n in more ==> n.Value() == old(n.Value())
    {
      assert list != [] && tail == list[|list| - 1] && tail in list && more[0] == first;
      assert tail !in more;
      tail.next := first;
      assert forall n :: n in more ==> n != tail;
      assert forall k {:trigger more[k].next} :: 0 <= k < |more| ==> more[k] in more && more[k].next == old(more[k].next);
      JoinChains(list, more);
    }

    // Links a list of nodes behind the tail.
    method LinkBehind(first: Node, ghost more: seq<Node>)
      requires Valid() && IsChain(first, more) && forall n :: n in more ==> n !in list
      modifies this`head, this`tail, list
      ensures more != [] && IsChain(head, list + more) && tail == more[|more| - 1]
      ensures forall n {:trigger n.Value()} :: n in list || n in more ==> n.Value() == old(n.Value())
    {
      assert more[0] == first;
      if head == null {
        head := first;
        assert list + more == more;
      } else {
        LinkTail(first, more);
      }
      tail := CallbackTail(first, more);
    }

    // Puts the nodes just linked on record.
    ghost method Record(more: seq<Node>, at: int)
      requires IsChain(head, list + more) && tail == (if list + more == [] then null else (list + more)[|list + more| - 1])
      requires popped + |list| == |log|
      requires forall k {:trigger list[k]} :: 0 <= k < |list| ==> list[k].Value() == log[popped + k].timer
      modifies this`list, this`log
      ensures Valid() && list == old(list) + more && log == old(log) + Firings(more, at)
    {
      hide IsChain;
      ghost var all, fired := list + more, Firings(more, at);
      assert forall k {:trigger all[k]} :: 0 <= k < |all| ==> all[k].Value() == (log + fired)[popped + k].timer;
      list, log := all, log + fired;
    }

    // Appends a list of nodes behind the tail; `at` is the wheel clock.
    method AppendNodes(first: Node?, ghost more: seq<Node>, ghost at: int)
      requires Valid() && IsChain(first, more) && forall n :: n in more ==> n !in list
      modifies this, list
      ensures Valid() && list == old(list) + more && popped == old(popped)
      ensures log == old(log) + Firings(more, at)
      ensures forall n {:trigger n.Value()} :: n in old(list) || n in more ==> n.Value() == old(n.Value())
    {
      if first == null {
        assert Firings(more, at) == [] && list + more == list && log + [] == log;
        return;
      }
      LinkBehind(first, more);
      hide IsChain;
      Record(more, at);
    }

    // Appends one node.
    method Append(node: Node, ghost at: int)
      requires Valid() && node.next == null && node !in list
      modifies this, list
      ensures Valid() && list == old(list) + [node]
      ensures log == old(log) + [Firing(node.Value(), at)] && popped == old(popped)
      ensures forall n :: n in old(list) ==> n.Value() == old(n.Value())
    {
      AppendNodes(node, [node], at);
    }

    // Unlinks the oldest node.
    method Take() returns (node: Node?)
      requires Valid()
      modifies this, list
      ensures Valid() && log == old(log)
      ensures forall n :: n in old(list) ==> n.Value() == old(n.Value())
      ensures node != null ==> 0 < popped <= |log| && node.Value() == log[popped - 1].timer
      ensures if old(list) == [] then node == null && list == [] && popped == old(popped)
              else node == old(list)[0] && list == old(list)[1..] && popped == old(popped) + 1 && node.next == null
    {
      if head == null {
        return null;
      }
      node := head;
      if head == tail {
        head, tail := null, null;
      } else {
        head := head.next;
        node.next := null;
      }
      list, popped := list[1..], popped + 1;
    }
  }
}
