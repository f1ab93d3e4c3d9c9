// The word automaton as a value: a byte trie whose nodes stand for texts, what its links should be, and
// the facts about breadth-first order that let the links be filled in one pass.

module Automaton {
  import opened Bytes
  import opened Suffixes

  ghost function Elements(q: seq<int>): set<int> {
    set n | n in q
  }

  // The queue after `p` has been taken from it and `pushed` put behind it.
  lemma ElementsOfTurn(q: seq<int>, popped: set<int>, pushed: seq<int>)
    requires q != []
    ensures popped + Elements(q) + Elements(pushed) == popped + {q[0]} + Elements(q[1..] + pushed)
  {
  }

  lemma ElementsOfAppend(done: set<int>, q: seq<int>, n: int)
    ensures done + Elements([]) == done && done + Elements(q + [n]) == done + Elements(q) + {n}
  {
  }

  ghost predicate Distinct(q: seq<int>) {
    forall i, j :: 0 <= i < j < |q| ==> q[i] != q[j]
  }

  datatype AcNode = AcNode(children: map<Byte, int>, fail: int, len: int, hasMatch: bool)

  // The automaton as a value. `labels` gives the text that leads to each node and `at` the node a text
  // leads to; `words` are the patterns loaded.
  datatype Trie = Trie(nodes: seq<AcNode>, outs: seq<int>, labels: seq<Text>, at: map<Text, int>, words: set<Text>)
  {
    ghost predicate IsNode(n: int) {
      0 <= n < |nodes|
    }

    ghost function Nodes(): set<int> {
      set n | 0 <= n < |nodes| && IsNode(n)
    }

    // Nodes and the texts they stand for are in bijection.
    ghost predicate Labelled() {
      && |labels| == |nodes| == |outs|
      && IsNode(0)
      && (forall n {:trigger labels[n]} ::
            IsNode(n) ==> labels[n] in at && at[labels[n]] == n && (labels[n] == [] <==> n == 0))
      && (forall w {:trigger at[w]} :: w in at ==> IsNode(at[w]) && labels[at[w]] == w)
    }

    // Child edges append one byte, and every text with a node is reached along them.
    ghost predicate Edges()
      requires Labelled()
    {
      && PrefixClosed(at.Keys)
      && (forall n, c: Byte {:trigger c in nodes[n].children} ::
            IsNode(n) ==> (c in nodes[n].children <==> labels[n] + [c] in at))
      && (forall n, c: Byte {:trigger nodes[n].children[c]} ::
            IsNode(n) && c in nodes[n].children ==> nodes[n].children[c] == at[labels[n] + [c]])
    }

    ghost predicate Shape() {
      && Labelled()
      && Edges()
      && words <= at.Keys
      && [] !in words
      && nodes[0].fail == -1
      && (forall n {:trigger nodes[n].len} ::
            IsNode(n) ==> nodes[n].len == if labels[n] in words then |labels[n]| else 0)
    }

    lemma Basics()
      requires Shape()
      ensures |labels| == |nodes| == |outs| && IsNode(0) && labels[0] == []
      ensures forall n {:trigger labels[n]} :: IsNode(n) ==> labels[n] in at && (labels[n] == [] <==> n == 0)
      ensures PrefixClosed(at.Keys) && words <= at.Keys && [] !in words
    {
    }

    lemma LenOfWord(n: int)
      requires Shape() && IsNode(n)
      ensures nodes[n].len == (if labels[n] in words then |labels[n]| else 0) && EndsWith(labels[n], labels[n])
      ensures labels[n] in words <==> nodes[n].len > 0
    {
    }

    ghost function Depth(n: int): nat {
      if 0 <= n < |labels| then |labels[n]| else 0
    }

    ghost function NodeOf(s: Text): (n: int)
      requires Shape()
      ensures IsNode(n) && labels[n] == State(s, at.Keys)
    {
      at[State(s, at.Keys)]
    }

    // The node of the longest word that ends `s`, or -1.
    ghost function Link(s: Text): (n: int)
      requires Shape()
      ensures n == -1 <==> Out(s, words) == []
      ensures n != -1 ==> IsNode(n) && labels[n] == Out(s, words)
    {
      if Out(s, words) == [] then -1 else at[Out(s, words)]
    }

    // What the build leaves at a node: the fail link leads to the longest proper suffix that is in the
    // trie, the output link to the longest proper suffix that is a word.
    ghost predicate Linked(n: int)
      requires Shape() && IsNode(n)
    {
      if n == 0 then outs[0] == -1 && !nodes[0].hasMatch
      else
        && nodes[n].fail == NodeOf(labels[n][1..])
        && outs[n] == Link(labels[n][1..])
        && (nodes[n].hasMatch <==> Out(labels[n], words) != [])
    }

    ghost predicate Built() {
      Shape() && forall n {:trigger Linked(n)} :: IsNode(n) ==> Linked(n)
    }

    ghost predicate IsTail(m: int, n: int)
      requires Shape() && IsNode(n)
    {
      IsNode(m) && Depth(m) < Depth(n) && EndsWith(labels[n], labels[m])
    }

    // What holds of the links at any time, also when patterns have been loaded since the last build: they lead
    // to shorter texts that end the node's own, output links to words, and a flag is raised for a reason.
    ghost predicate SaneAt(n: int)
      requires Shape() && IsNode(n)
    {
      && (nodes[n].fail == -1 || (n != 0 && IsTail(nodes[n].fail, n)))
      && (outs[n] == -1 || (outs[n] != 0 && IsTail(outs[n], n) && labels[outs[n]] in words))
      && (nodes[n].hasMatch ==> Out(labels[n], words) != [])
    }

    ghost predicate Sane() {
      Shape() && forall n {:trigger SaneAt(n)} :: IsNode(n) ==> SaneAt(n)
    }

    // The node of the longest end of a shorter text, and that of the longest word that ends it, are tails.
    lemma LinksAreTails(n: int)
      requires Shape() && IsNode(n) && n != 0
      ensures |labels| == |nodes| && labels[n] != []
      ensures IsTail(NodeOf(labels[n][1..]), n)
      ensures var o := Link(labels[n][1..]); o == -1 || (o != 0 && IsTail(o, n) && labels[o] in words)
    {
      var s := labels[n][1..];
      assert labels[n] != [];
      assert EndsWith(labels[n], s);
      StateIsLongest(s, at.Keys);
      OutEnds(s, words);
      hide Edges, State, Out;
      EndsWithTrans(labels[n], s, State(s, at.Keys));
      EndsWithTrans(labels[n], s, Out(s, words));
    }

    lemma LinkedIsSane(n: int)
      requires Shape() && IsNode(n) && Linked(n)
      ensures SaneAt(n)
    {
      hide Edges, NodeOf, Link, IsTail;
      if n != 0 {
        LinksAreTails(n);
      }
    }

    lemma BuiltIsSane()
      requires Built()
      ensures Sane()
    {
      hide Shape, Linked, SaneAt;
      forall n | IsNode(n) ensures SaneAt(n) {
        assert Linked(n);
        LinkedIsSane(n);
      }
    }

    ghost function Grown(parent: int, c: Byte): Trie
      requires Shape() && IsNode(parent)
    {
      var text := labels[parent] + [c];
      var child := |nodes|;
      var up := nodes[parent].(children := nodes[parent].children[c := child]);
      Trie(nodes[parent := up] + [AcNode(map[], -1, 0, false)], outs + [-1], labels + [text], at[text := child], words)
    }

    lemma GrownLabelled(parent: int, c: Byte)
      requires Shape() && IsNode(parent) && c !in nodes[parent].children
      ensures labels[parent] + [c] !in at && Grown(parent, c).Labelled() && PrefixClosed(Grown(parent, c).at.Keys)
    {
      var g := Grown(parent, c);
      var text := labels[parent] + [c];
      assert text !in at;
      assert labels[parent] in at;
      forall w: Text, b: Byte | w + [b] in g.at ensures w in g.at {
        if w + [b] == text {
          assert w == (w + [b])[..|w|] == labels[parent];
        }
      }
    }

    lemma GrownEdge(parent: int, c: Byte, n: int, b: Byte)
      requires Shape() && IsNode(parent) && c !in nodes[parent].children && 0 <= n <= |nodes|
      requires labels[parent] + [c] !in at
      ensures var g := Grown(parent, c);
              && (b in g.nodes[n].children <==> g.labels[n] + [b] in g.at)
              && (b in g.nodes[n].children ==> g.nodes[n].children[b] == g.at[g.labels[n] + [b]])
    {
      var g := Grown(parent, c);
      var w, text := g.labels[n] + [b], labels[parent] + [c];
      if n == |nodes| {
        assert w[..|w| - 1] == text;
        assert w !in at;
      } else if w == text {
        assert w[..|w| - 1] == labels[n] && w[|w| - 1] == b;
        assert text[..|text| - 1] == labels[parent] && text[|text| - 1] == c;
        assert n == parent && b == c;
      }
    }

    lemma GrownShape(parent: int, c: Byte)
      requires Shape() && IsNode(parent) && c !in nodes[parent].children
      ensures Grown(parent, c).Shape()
    {
      var g := Grown(parent, c);
      GrownLabelled(parent, c);
      forall n, b: Byte | g.IsNode(n)
        ensures b in g.nodes[n].children <==> g.labels[n] + [b] in g.at
        ensures b in g.nodes[n].children ==> g.nodes[n].children[b] == g.at[g.labels[n] + [b]]
      {
        GrownEdge(parent, c, n, b);
      }
      assert g.Edges();
    }

    lemma GrownSane(parent: int, c: Byte)
      requires Sane() && IsNode(parent) && c !in nodes[parent].children
      ensures Grown(parent, c).Sane()
    {
      GrownShape(parent, c);
      var g := Grown(parent, c);
      hide Labelled, Edges, Out;
      forall n | g.IsNode(n) ensures g.SaneAt(n) {
        if n < |nodes| {
          assert SaneAt(n) && g.labels[n] == labels[n];
        }
      }
    }

    // The text of `n` becomes a word.
    ghost function Marked(n: int): (t: Trie)
      requires Shape() && IsNode(n) && n != 0
      ensures t.Shape()
    {
      var up := nodes[n].(len := |labels[n]|, hasMatch := true);
      Trie(nodes[n := up], outs, labels, at, words + {labels[n]})
    }

    lemma MarkedSane(n: int)
      requires Sane() && IsNode(n) && n != 0
      ensures Marked(n).Sane()
    {
      var t := Marked(n);
      hide Edges, Out;
      forall m | t.IsNode(m) ensures t.SaneAt(m) {
        assert SaneAt(m);
        if m == n {
          assert EndsWith(labels[n], labels[n]);
          OutOfEnd(labels[n], labels[n], t.words);
        } else if nodes[m].hasMatch {
          OutMore(labels[m], words, t.words);
        }
      }
    }

    lemma GrownRoots(parent: int, c: Byte, b: Byte)
      requires Shape() && IsNode(parent) && c !in nodes[parent].children && Grown(parent, c).Shape()
      ensures Grown(parent, c).NodeOf([b]) == if parent == 0 && b == c then |nodes| else NodeOf([b])
    {
      var text := labels[parent] + [c];
      assert [b][1..] == [];
      assert labels[parent] == text[..|text| - 1];
      assert [b] == text <==> parent == 0 && b == c;
    }

    // Only the links and the flag of `u` change.
    ghost function Relinked(u: int, fail: int, out: int, hasMatch: bool): (t: Trie)
      requires Shape() && IsNode(u) && (u == 0 ==> fail == -1)
      ensures t.Shape()
    {
      var up := nodes[u].(fail := fail, hasMatch := hasMatch);
      Trie(nodes[u := up], outs[u := out], labels, at, words)
    }

    lemma RelinkedShape(u: int, fail: int, out: int, hasMatch: bool)
      requires Shape() && IsNode(u) && (u == 0 ==> fail == -1)
      ensures forall n {:trigger Linked(n)} {:trigger Relinked(u, fail, out, hasMatch).Linked(n)} ::
                IsNode(n) && n != u ==> Relinked(u, fail, out, hasMatch).Linked(n) == Linked(n)
    {
    }

    ghost function Parent(n: int): (p: int)
      requires Shape() && IsNode(n) && n != 0
      ensures IsNode(p) && Depth(p) == Depth(n) - 1 && labels[n] == labels[p] + [labels[n][Depth(p)]]
      ensures labels[n][Depth(p)] in nodes[p].children && nodes[p].children[labels[n][Depth(p)]] == n
    {
      assert labels[n] == labels[n][..|labels[n]| - 1] + [labels[n][|labels[n]| - 1]];
      at[labels[n][..|labels[n]| - 1]]
    }

    lemma ChildIs(p: int, c: Byte)
      requires Shape() && IsNode(p) && c in nodes[p].children
      ensures var u := nodes[p].children[c]; IsNode(u) && u != 0 && labels[u] == labels[p] + [c] && Parent(u) == p
    {
    }

    ghost predicate ByDepth(q: seq<int>) {
      forall i, j :: 0 <= i < j < |q| ==> Depth(q[i]) <= Depth(q[j]) <= Depth(q[0]) + 1
    }

    // The nodes not yet expanded whose parent is.
    ghost predicate Fringe(q: seq<int>, popped: set<int>)
      requires Shape()
    {
      && 0 in popped
      && (forall n {:trigger Parent(n)} :: IsNode(n) && n != 0 && n in popped ==> Parent(n) in popped)
      && (forall n {:trigger n in q} ::
            n in q <==> IsNode(n) && n != 0 && n !in popped && Parent(n) in popped)
    }

    // The breadth-first queue holds the fringe, each node once, by depth.
    ghost predicate Frontier(q: seq<int>, popped: set<int>)
      requires Shape()
    {
      Fringe(q, popped) && Distinct(q) && ByDepth(q)
    }

    // Nodes no deeper than the front of the queue have been reached.
    lemma {:induction false} Shallow(q: seq<int>, popped: set<int>, n: int)
      requires Shape() && Frontier(q, popped) && IsNode(n)
      requires q == [] || Depth(n) <= Depth(q[0])
      ensures n in popped || n in q
      decreases Depth(n)
    {
      if n != 0 && n !in popped {
        var p := Parent(n);
        Shallow(q, popped, p);
      }
    }

    ghost predicate ShallowLinked(d: nat)
      requires Shape()
    {
      forall n {:trigger Linked(n)} :: IsNode(n) && Depth(n) <= d ==> Linked(n)
    }

    // One step along the fail links, taken when no edge for `c` leaves `f`.
    lemma WalkStep(f: int, c: Byte)
      requires Shape() && IsNode(f) && Linked(f) && c !in nodes[f].children
      ensures f == 0 ==> nodes[f].fail == -1 && State(labels[f] + [c], at.Keys) == []
      ensures f != 0 ==>
                && IsNode(nodes[f].fail) && Depth(nodes[f].fail) < Depth(f)
                && State(labels[f] + [c], at.Keys) == State(labels[nodes[f].fail] + [c], at.Keys)
    {
      assert labels[f] + [c] !in at;
      if f == 0 {
        assert (labels[f] + [c])[1..] == [];
      } else {
        FailStep(labels[f], c, at.Keys);
      }
    }

    // The walk starts at the fail link of the parent.
    lemma WalkStart(p: int, c: Byte)
      requires Shape() && IsNode(p) && p != 0 && Linked(p)
      ensures IsNode(nodes[p].fail) && Depth(nodes[p].fail) < Depth(p)
      ensures State(labels[p][1..] + [c], at.Keys) == State(labels[nodes[p].fail] + [c], at.Keys)
    {
      StateOfAppend(labels[p][1..], c, at.Keys);
    }

    lemma SameNode(s: Text, r: Text)
      requires Shape() && State(s, at.Keys) == State(r, at.Keys)
      ensures NodeOf(s) == NodeOf(r)
    {
    }

    lemma NodeOfEmpty()
      requires Shape()
      ensures NodeOf([]) == 0
    {
    }

    lemma NodeOfAppend(s: Text, c: Byte)
      requires Shape()
      ensures NodeOf(s + [c]) == NodeOf(labels[NodeOf(s)] + [c])
    {
      StateOfAppend(s, c, at.Keys);
    }

    lemma FlagOfState(s: Text)
      requires Built()
      ensures nodes[NodeOf(s)].hasMatch <==> Out(s, words) != []
    {
      OutOfState(s, words, at.Keys);
      assert Linked(NodeOf(s));
    }

    lemma WalkEnd(s: Text, f: int, c: Byte)
      requires Shape() && IsNode(f) && c in nodes[f].children
      requires State(s, at.Keys) == State(labels[f] + [c], at.Keys)
      ensures nodes[f].children[c] == NodeOf(s)
    {
    }

    // The output link the build copies from the fail node is the longest word that ends the text.
    lemma LinkThroughFail(s: Text)
      requires Shape() && Linked(NodeOf(s))
      ensures Link(s) == if nodes[NodeOf(s)].len > 0 then NodeOf(s) else outs[NodeOf(s)]
    {
      hide Edges, State;
      var next := NodeOf(s);
      OutOfState(s, words, at.Keys);
      assert Out(s, words) == Out(labels[next], words);
      assert nodes[next].len > 0 <==> labels[next] in words;
    }

    lemma LinksOfChild(p: int, c: Byte, next: int)
      requires Shape() && IsNode(p) && p != 0 && c in nodes[p].children && ShallowLinked(Depth(p))
      requires next == NodeOf(labels[p][1..] + [c])
      ensures |outs| == |nodes| && IsNode(nodes[p].children[c]) && nodes[p].children[c] != 0
      ensures var u := nodes[p].children[c];
              var out := if nodes[next].len > 0 then next else outs[next];
              Relinked(u, next, out, nodes[u].len > 0 || out != -1).Linked(u)
    {
      var u := nodes[p].children[c];
      ChildIs(p, c);
      assert labels[u][1..] == labels[p][1..] + [c];
      hide Edges, State, Out;
      var out := if nodes[next].len > 0 then next else outs[next];
      assert Linked(next);
      LinkThroughFail(labels[u][1..]);
      var t := Relinked(u, next, out, nodes[u].len > 0 || out != -1);
      assert t.NodeOf(labels[u][1..]) == next && t.Link(labels[u][1..]) == out;
      OutOfWord(labels[u], words);
      assert nodes[u].len > 0 <==> labels[u] in words;
    }

    // The hits met along the output chain from `o`.
    ghost function EndingVia(o: int, end: int): seq<Hit>
      requires Shape() && (o != -1 ==> IsNode(o) && o != 0)
    {
      if o == -1 then [] else [Hit(end - Depth(o), Depth(o))] + Ending(labels[o][1..], end, words)
    }

    // One step along the output chain.
    lemma EndingOfLink(n: int, end: int)
      requires Shape() && IsNode(n) && n != 0 && Linked(n)
      ensures outs[n] != -1 ==> IsNode(outs[n]) && outs[n] != 0 && Depth(outs[n]) < Depth(n)
      ensures Ending(labels[n][1..], end, words) == EndingVia(outs[n], end)
      ensures EndingVia(n, end) == [Hit(end - Depth(n), Depth(n))] + EndingVia(outs[n], end)
    {
      hide Edges, State, Ending;
      EndingByOut(labels[n][1..], end, words);
    }

    lemma EndingOfNone(end: int)
      requires Shape()
      ensures EndingVia(-1, end) == []
    {
    }

    // What one node and its output chain contribute: its own word, if any, and the rest of its suffixes.
    lemma EndingOfNode(n: int, end: int)
      requires Shape() && IsNode(n) && n != 0 && Linked(n)
      ensures outs[n] != -1 ==> IsNode(outs[n]) && outs[n] != 0
      ensures Ending(labels[n], end, words) ==
              (if nodes[n].len > 0 then [Hit(end - nodes[n].len, nodes[n].len)] else []) + EndingVia(outs[n], end)
    {
      EndingOfLink(n, end);
    }

    // The children of `p`, each once.
    ghost predicate Brood(pushed: seq<int>, p: int)
      requires Shape()
    {
      && (forall n {:trigger n in pushed} :: n in pushed <==> IsNode(n) && n != 0 && Parent(n) == p)
      && Distinct(pushed)
    }

    // The children of `p` over the bytes outside `rest`, each once.
    ghost predicate Pushed(q: seq<int>, p: int, rest: set<Byte>)
      requires Shape()
    {
      && (forall n {:trigger n in q} ::
            n in q <==> IsNode(n) && n != 0 && Parent(n) == p && labels[n][Depth(p)] !in rest)
      && Distinct(q)
    }

    lemma PushNone(p: int)
      requires Shape() && IsNode(p)
      ensures Pushed([], p, nodes[p].children.Keys)
    {
    }

    lemma PushAll(q: seq<int>, p: int)
      requires Shape() && Pushed(q, p, {})
      ensures Brood(q, p)
    {
    }

    lemma PushStep(q: seq<int>, p: int, rest: set<Byte>, c: Byte)
      requires Shape() && IsNode(p) && Pushed(q, p, rest) && c in rest && c in nodes[p].children
      ensures nodes[p].children[c] !in q && Pushed(q + [nodes[p].children[c]], p, rest - {c})
    {
    }

    ghost predicate AllLinked(done: set<int>)
      requires Shape()
    {
      forall n {:trigger Linked(n)} {:trigger n in done} :: n in done ==> IsNode(n) && Linked(n)
    }

    lemma RootLinked()
      requires Shape()
      ensures var t := Relinked(0, -1, -1, nodes[0].len > 0); t.AllLinked({0}) && t.SameTexts(this)
    {
    }

    lemma LinksOfRootChild(c: Byte)
      requires Shape() && c in nodes[0].children
      ensures var u := nodes[0].children[c];
              && IsNode(u) && u != 0
              && Relinked(u, 0, -1, nodes[u].len > 0).Linked(u)
    {
    }

    lemma LinkOne(u: int, fail: int, out: int, hasMatch: bool, done: set<int>)
      requires Shape() && IsNode(u) && (u == 0 ==> fail == -1)
      requires AllLinked(done) && Relinked(u, fail, out, hasMatch).Linked(u)
      ensures Relinked(u, fail, out, hasMatch).AllLinked(done + {u})
      ensures Relinked(u, fail, out, hasMatch).SameTexts(this)
    {
      hide Shape, Linked;
      RelinkedShape(u, fail, out, hasMatch);
      var t := Relinked(u, fail, out, hasMatch);
      forall n | n in done + {u} ensures t.IsNode(n) && t.Linked(n) {
        if n != u {
          assert n in done && IsNode(n);
          assert Linked(n) && t.Linked(n) == Linked(n);
        }
      }
    }

    lemma ShallowFrom(done: set<int>, d: nat)
      requires Shape() && AllLinked(done)
      requires forall n {:trigger n in done} :: IsNode(n) && Depth(n) <= d ==> n in done
      ensures ShallowLinked(d)
    {
    }

    // `t` differs at most in its links and flags.
    ghost predicate SameTexts(t: Trie) {
      && labels == t.labels && at == t.at && words == t.words && |nodes| == |t.nodes|
      && forall n {:trigger nodes[n]} {:trigger t.nodes[n]} ::
           IsNode(n) ==> nodes[n].children == t.nodes[n].children && nodes[n].len == t.nodes[n].len
    }

    lemma SameTextsTrans(t: Trie, u: Trie)
      requires SameTexts(t) && t.SameTexts(u)
      ensures SameTexts(u) && words == u.words && at == u.at && |nodes| == |u.nodes|
    {
    }

    lemma SameParent(t: Trie, n: int)
      requires Shape() && t.Shape() && SameTexts(t) && IsNode(n) && n != 0
      ensures t.IsNode(n) && Parent(n) == t.Parent(n)
    {
    }

    lemma SameParents(t: Trie)
      requires Shape() && t.Shape() && SameTexts(t)
      ensures forall n {:trigger Parent(n)} {:trigger t.Parent(n)} :: IsNode(n) && n != 0 ==> Parent(n) == t.Parent(n)
    {
      hide Shape, Parent;
      forall n | IsNode(n) && n != 0 ensures t.IsNode(n) && Parent(n) == t.Parent(n) {
        SameParent(t, n);
      }
    }

    lemma SameFrontier(t: Trie, q: seq<int>, popped: set<int>, p: int, rest: set<Byte>)
      requires Shape() && t.Shape() && SameTexts(t)
      ensures Frontier(q, popped) == t.Frontier(q, popped)
      ensures Pushed(q, p, rest) == t.Pushed(q, p, rest)
    {
      hide Shape, Labelled, Edges, Parent;
      SameParents(t);
      assert forall n {:trigger Depth(n)} {:trigger t.Depth(n)} :: Depth(n) == t.Depth(n);
    }

    lemma ExpandFringe(q: seq<int>, popped: set<int>, pushed: seq<int>)
      requires Shape() && q != [] && Fringe(q, popped) && Distinct(q) && Brood(pushed, q[0])
      ensures Fringe(q[1..] + pushed, popped + {q[0]})
      ensures forall n :: n in pushed ==> n !in q && Depth(n) == Depth(q[0]) + 1
    {
      hide Shape, Labelled, Edges, Depth, Parent;
      var p, next := q[0], q[1..] + pushed;
      assert p in q && q == [p] + q[1..];
      forall n ensures n in next <==>
                       IsNode(n) && n != 0 && n !in popped + {p} && Parent(n) in popped + {p}
      {
        assert n in q[1..] ==> n in q && n != p;
        assert n in q ==> n == p || n in q[1..];
      }
    }

    lemma ExpandOrder(q: seq<int>, pushed: seq<int>)
      requires q != [] && ByDepth(q) && Distinct(q) && Distinct(pushed)
      requires forall n :: n in pushed ==> n !in q && Depth(n) == Depth(q[0]) + 1
      ensures ByDepth(q[1..] + pushed) && Distinct(q[1..] + pushed)
    {
    }

    lemma FirstFrontier(q: seq<int>)
      requires Shape() && Brood(q, 0)
      ensures Frontier(q, {0})
    {
      hide Edges, Parent;
      forall i {:trigger q[i]} | 0 <= i < |q| ensures Depth(q[i]) == 1 {
        assert q[i] in q;
        assert Depth(Parent(q[i])) == 0;
      }
    }

    lemma FrontierDone(popped: set<int>)
      requires Shape() && Frontier([], popped) && AllLinked(popped + Elements([]))
      ensures Built()
    {
      forall n | IsNode(n) ensures Linked(n) {
        Shallow([], popped, n);
      }
    }

    lemma FrontierShallow(q: seq<int>, popped: set<int>, n: int)
      requires Shape() && q != [] && Frontier(q, popped) && IsNode(n) && Depth(n) <= Depth(q[0])
      ensures n in popped + Elements(q)
    {
      Shallow(q, popped, n);
    }

    lemma FrontIs(q: seq<int>, popped: set<int>)
      requires Shape() && q != [] && Frontier(q, popped)
      ensures IsNode(q[0]) && q[0] != 0 && q[0] !in popped
    {
      assert q[0] in q;
    }

    lemma Expand(q: seq<int>, popped: set<int>, pushed: seq<int>)
      requires Shape() && q != [] && Frontier(q, popped) && Brood(pushed, q[0])
      ensures Frontier(q[1..] + pushed, popped + {q[0]})
    {
      hide Shape, Depth, Fringe, ByDepth, Distinct;
      ExpandFringe(q, popped, pushed);
      ExpandOrder(q, pushed);
    }
  }
}
