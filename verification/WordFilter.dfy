// The chat filter: loading and building the word automaton, and the searches that run on it. Everything
// it answers is tied to naive search.

module WordFilter {
  import opened Automaton
  import opened Bytes
  import opened Characters
  import opened Common
  import opened Suffixes
  import Utf8

  const STAR: Byte := 0x2A

  lemma EndsWithLast(s: Text, c: Byte)
    ensures EndsWith(s + [c], [c])
  {
  }

  lemma HitOccurs(text: Text, i: nat, own: Text, h: Hit, words: set<Text>)
    requires i < |text| && EndsWith(text[..i + 1], own) && h in Ending(own, i + 1, words)
    ensures Occurs(h, text, words)
  {
    EndingExact(own, i + 1, words, h);
    var seen := text[..i + 1];
    assert seen[|seen| - |own|..] == own;
    assert own[|own| - h.len..] == text[h.start..h.start + h.len];
  }

  class Filter {
    var nodes: seq<AcNode>
    var root: int
    var outputLinks: seq<int>
    const rootTransitions: array<int>

    ghost var labels: seq<Text>
    ghost var at: map<Text, int>
    ghost var words: set<Text>

    ghost function Value(): Trie
      reads this
    {
      Trie(nodes, outputLinks, labels, at, words)
    }

    ghost predicate Cleared()
      reads this
    {
      root == -1 && nodes == [] && outputLinks == [] && words == {} && rootTransitions.Length == 256
    }

    ghost predicate Ready()
      reads this, rootTransitions
    {
      && root == 0
      && Value().Shape()
      && rootTransitions.Length == 256
      && forall c: Byte :: rootTransitions[c] == Value().NodeOf([c])
    }

    // Fit for searching, whether or not patterns have been loaded since the last build.
    ghost predicate Usable()
      reads this, rootTransitions
    {
      Ready() && Value().Sane()
    }

    ghost predicate Valid()
      reads this, rootTransitions
    {
      Cleared() || Usable()
    }

    // Loaded words are findable: nothing loaded since the last build.
    ghost predicate Built()
      reads this, rootTransitions
    {
      Ready() && Value().Built()
    }

    lemma BuiltIsUsable()
      requires Built()
      ensures Usable()
    {
      Value().BuiltIsSane();
    }

    // `cur` is a state that reading `seen` may lead to: it stands for an end of it, the longest in the trie when
    // built.
    ghost predicate Follows(cur: int, seen: Text)
      requires Usable()
      reads this, rootTransitions
    {
      Value().IsNode(cur) && EndsWith(seen, labels[cur]) && (Built() ==> cur == Value().NodeOf(seen))
    }

    constructor ()
      ensures Cleared() && fresh(rootTransitions)
    {
      nodes, outputLinks, root := [], [], -1;
      labels, at, words := [], map[], {};
      rootTransitions := new int[256](_ => 0);
    }

    method NewNode() returns (n: int)
      modifies this`nodes
      ensures nodes == old(nodes) + [AcNode(map[], -1, 0, false)] && n == |old(nodes)|
    {
      nodes := nodes + [AcNode(map[], -1, 0, false)];
      n := |nodes| - 1;
    }

    method Init()
      requires rootTransitions.Length == 256
      modifies this, rootTransitions
      ensures Built() && Usable() && words == {} && at.Keys == {[]}
    {
      nodes := [];
      root := NewNode();
      outputLinks := [-1];
      forall c | 0 <= c < 256 {
        rootTransitions[c] := root;
      }
      labels, at, words := [[]], map[[] := 0], {};
      BuiltIsUsable();
    }

    method Clear()
      requires rootTransitions.Length == 256
      modifies this, rootTransitions
      ensures Cleared()
    {
      nodes, root, outputLinks := [], -1, [];
      forall c | 0 <= c < 256 {
        rootTransitions[c] := -1;
      }
      words := {};
    }

    method EnsureInitialized()
      requires Valid()
      modifies this, rootTransitions
      ensures Usable() && (old(Ready()) ==> unchanged(this) && unchanged(rootTransitions))
      ensures old(Cleared()) ==> Built() && words == {} && at.Keys == {[]}
    {
      if root >= 0 && root < |nodes| {
        return;
      }
      Init();
    }

    // Follows the edge for `c`, making it first where there is none.
    method Extend(cur: int, c: Byte) returns (next: int)
      requires Usable() && Value().IsNode(cur)
      modifies this`nodes, this`outputLinks, this`labels, this`at, rootTransitions
      ensures Usable() && Value().IsNode(next) && next != 0
      ensures old(labels) <= labels && labels[next] == labels[cur] + [c]
      ensures at.Keys == old(at.Keys) + {labels[next]}
    {
      hide Trie.Shape, Trie.NodeOf, State, Trie.Parent, Trie.Depth, Trie.Sane;
      ghost var before := Value();
      before.Basics();
      if c !in nodes[cur].children {
        before.GrownShape(cur, c);
        before.GrownSane(cur, c);
        next := NewNode();
        outputLinks := outputLinks + [-1];
        nodes := nodes[cur := nodes[cur].(children := nodes[cur].children[c := next])];
        if cur == root {
          rootTransitions[c] := next;
        }
        labels, at := labels + [labels[cur] + [c]], at[labels[cur] + [c] := next];
        assert Value() == before.Grown(cur, c);
        forall b: Byte ensures rootTransitions[b] == Value().NodeOf([b]) {
          before.GrownRoots(cur, c, b);
          assert old(rootTransitions[b]) == before.NodeOf([b]);
        }
        assert Ready() && labels[next] == labels[cur] + [c];
      } else {
        next := nodes[cur].children[c];
        before.ChildIs(cur, c);
        assert Ready();
      }
    }

    method Mark(n: int, size: nat)
      requires Usable() && Value().IsNode(n) && n != 0 && size == |labels[n]|
      modifies this`nodes, this`words
      ensures Usable() && words == old(words) + {labels[n]}
    {
      hide Trie.Shape, State, Trie.Sane;
      ghost var before := Value();
      before.Basics();
      before.MarkedSane(n);
      nodes := nodes[n := nodes[n].(len := size, hasMatch := true)];
      words := words + {labels[n]};
      assert Value() == before.Marked(n);
      assert forall b: Byte :: Value().NodeOf([b]) == before.NodeOf([b]);
    }

    // The node of `pattern`, with its whole path in the trie.
    method Trace(pattern: Text) returns (cur: int)
      requires Usable()
      modifies this`nodes, this`outputLinks, this`labels, this`at, rootTransitions
      ensures Usable() && Value().IsNode(cur) && (pattern != [] ==> cur != 0) && labels[cur] == pattern
      ensures at.Keys == old(at.Keys) + Prefixes(pattern)
    {
      hide Trie.Shape, Trie.NodeOf, State, Prefixes, Trie.Sane;
      Value().Basics();
      PrefixesOfEmpty(pattern);
      assert pattern[..0] == [] && pattern[..|pattern|] == pattern;
      cur := root;
      for i := 0 to |pattern|
        invariant Usable() && Value().IsNode(cur) && |labels| == |nodes| && (i > 0 ==> cur != 0) && labels[cur] == pattern[..i]
        invariant at.Keys == old(at.Keys) + Prefixes(pattern[..i])
      {
        PrefixesOfAppend(pattern, i);
        cur := Extend(cur, pattern[i]);
        Value().Basics();
      }
    }

    // A pattern longer than INT_MAX leaves its path in the trie but is never a word.
    method Load(pattern: Text)
      requires Valid()
      modifies this, rootTransitions
      ensures pattern == [] ==> unchanged(this) && unchanged(rootTransitions)
      ensures pattern != [] ==> Usable()
      ensures words == old(words) + if 0 < |pattern| <= INT_MAX then {pattern} else {}
      ensures pattern != [] ==> at.Keys == (if old(Ready()) then old(at.Keys) else {}) + Prefixes(pattern)
    {
      if pattern == [] {
        return;
      }
      hide Trie.Shape, Trie.NodeOf, State, Prefixes, Trie.Sane;
      EnsureInitialized();
      PrefixesOfEmpty(pattern);
      var cur := Trace(pattern);
      if |pattern| > INT_MAX {
        return;
      }
      Mark(cur, |pattern|);
    }

    method Relink(n: int, fail: int, out: int, hasMatch: bool)
      requires Ready() && Value().IsNode(n) && (n == 0 ==> fail == -1)
      modifies this`nodes, this`outputLinks
      ensures Ready() && Value() == old(Value()).Relinked(n, fail, out, hasMatch)
    {
      hide Trie.Shape, State;
      ghost var before := Value();
      before.Basics();
      nodes := nodes[n := nodes[n].(fail := fail, hasMatch := hasMatch)];
      outputLinks := outputLinks[n := out];
      assert Value() == before.Relinked(n, fail, out, hasMatch);
      assert forall b: Byte :: Value().NodeOf([b]) == before.NodeOf([b]);
    }

    // Links the children of the root: nothing shorter than one byte is left to fail to.
    method LinkRootChildren() returns (q: seq<int>)
      requires Ready() && Value().AllLinked({0})
      modifies this`nodes, this`outputLinks
      ensures Ready() && Value().SameTexts(old(Value()))
      ensures Value().Brood(q, 0) && Value().AllLinked({0} + Elements(q))
    {
      hide Trie.Shape, Trie.NodeOf, State, Trie.Linked, Trie.Pushed, Trie.AllLinked, Trie.Relinked, Elements;
      q := [];
      Value().Basics();
      ElementsOfAppend({0}, q, 0);
      var rest := nodes[root].children.Keys;
      Value().PushNone(0);
      while rest != {}
        invariant Ready() && Value().SameTexts(old(Value()))
        invariant rest <= nodes[0].children.Keys
        invariant Value().Pushed(q, 0, rest)
        invariant Value().AllLinked({0} + Elements(q))
        decreases rest
      {
        var c :| c in rest;
        ghost var before := Value();
        var child := nodes[root].children[c];
        before.LinksOfRootChild(c);
        before.PushStep(q, 0, rest, c);
        before.LinkOne(child, 0, -1, nodes[child].len > 0, {0} + Elements(q));
        Relink(child, root, -1, nodes[child].len > 0);
        ElementsOfAppend({0}, q, child);
        q := q + [child];
        rest := rest - {c};
        Value().SameFrontier(before, q, {0}, 0, rest);
      }
      Value().PushAll(q, 0);
    }

    // The node the fail link of the child of `p` over `c` leads to: fail links are followed from `p`
    // until one of the nodes met has an edge for `c`.
    method FindFail(p: int, c: Byte) returns (next: int)
      requires Ready() && Value().IsNode(p) && p != 0
      requires Value().ShallowLinked(Value().Depth(p))
      ensures |labels[p]| > 0 && next == Value().NodeOf(labels[p][1..] + [c])
    {
      hide Trie.Shape, Trie.NodeOf, State;
      ghost var t := Value();
      t.Basics();
      ghost var text := labels[p][1..] + [c];
      assert t.Linked(p);
      t.WalkStart(p, c);
      var failP := nodes[p].fail;
      next := root;
      while failP != -1
        invariant failP != -1 ==>
                    && t.IsNode(failP) && t.Depth(failP) < t.Depth(p)
                    && State(text, at.Keys) == State(labels[failP] + [c], at.Keys)
        invariant failP == -1 ==> State(text, at.Keys) == []
        decreases if failP == -1 then 0 else t.Depth(failP) + 1
      {
        if c in nodes[failP].children {
          t.WalkEnd(text, failP, c);
          next := nodes[failP].children[c];
          return;
        }
        assert t.Linked(failP);
        t.WalkStep(failP, c);
        failP := nodes[failP].fail;
      }
      assert t.NodeOf(text) == 0;
    }

    // Links the children of `p`, given that every node no deeper than `p` is linked.
    method LinkChildren(p: int, ghost done: set<int>) returns (pushed: seq<int>)
      requires Ready() && Value().IsNode(p) && p != 0 && Value().AllLinked(done)
      requires forall n {:trigger n in done} :: Value().IsNode(n) && Value().Depth(n) <= Value().Depth(p) ==> n in done
      modifies this`nodes, this`outputLinks
      ensures Ready() && Value().SameTexts(old(Value()))
      ensures Value().Brood(pushed, p) && Value().AllLinked(done + Elements(pushed))
    {
      hide Trie.Shape, Trie.NodeOf, State, Trie.Linked, Trie.Pushed, Trie.AllLinked, Trie.Relinked, Elements;
      pushed := [];
      Value().Basics();
      ElementsOfAppend(done, pushed, 0);
      var rest := nodes[p].children.Keys;
      Value().PushNone(p);
      while rest != {}
        invariant Ready() && Value().SameTexts(old(Value()))
        invariant rest <= nodes[p].children.Keys
        invariant Value().Pushed(pushed, p, rest)
        invariant Value().AllLinked(done + Elements(pushed))
        decreases rest
      {
        var c :| c in rest;
        ghost var before := Value();
        var child := nodes[p].children[c];
        before.ShallowFrom(done + Elements(pushed), before.Depth(p));
        var next := FindFail(p, c);
        before.LinksOfChild(p, c, next);
        var out := if nodes[next].len > 0 then next else outputLinks[next];
        before.PushStep(pushed, p, rest, c);
        before.LinkOne(child, next, out, nodes[child].len > 0 || out != -1, done + Elements(pushed));
        Relink(child, next, out, nodes[child].len > 0 || out != -1);
        ElementsOfAppend(done, pushed, child);
        pushed := pushed + [child];
        rest := rest - {c};
        Value().SameFrontier(before, pushed, {0}, p, rest);
      }
      Value().PushAll(pushed, p);
    }

    // Breadth first from the root. The output links are never shorter than the nodes, so the source's
    // resize has nothing to do.
    method Build()
      requires Valid()
      modifies this, rootTransitions
      ensures Built() && Usable() && words == old(words)
      ensures old(Ready()) ==> at == old(at)
    {
      hide Trie.Shape, Trie.NodeOf, State, Trie.Linked, Trie.Frontier, Trie.AllLinked, Trie.Relinked, Trie.Built,
           Trie.Brood, Elements, Trie.SameTexts, Trie.Sane;
      EnsureInitialized();
      ghost var start := Value();
      start.Basics();
      start.RootLinked();
      Relink(root, -1, -1, nodes[root].len > 0);
      ghost var first := Value();
      var q := LinkRootChildren();
      Value().SameTextsTrans(first, start);
      Value().FirstFrontier(q);
      ghost var popped, all := {0}, start.Nodes();
      while q != []
        invariant Ready() && Value().SameTexts(start)
        invariant Value().Frontier(q, popped) && Value().AllLinked(popped + Elements(q))
        invariant |nodes| == |start.nodes|
        decreases all - popped
      {
        ghost var before := Value();
        before.FrontIs(q, popped);
        var p := q[0];
        forall n {:trigger n in popped + Elements(q)} | before.IsNode(n) && before.Depth(n) <= before.Depth(p)
          ensures n in popped + Elements(q)
        {
          before.FrontierShallow(q, popped, n);
        }
        var pushed := LinkChildren(p, popped + Elements(q));
        ElementsOfTurn(q, popped, pushed);
        Value().SameTextsTrans(before, start);
        Value().SameFrontier(before, q, popped, p, {});
        Value().Expand(q, popped, pushed);
        q, popped := q[1..] + pushed, popped + {p};
      }
      Value().FrontierDone(popped);
      Value().SameTextsTrans(start, start);
      BuiltIsUsable();
    }

    lemma RootFollows(c: Byte)
      requires Usable()
      ensures |labels| == |nodes| && Follows(rootTransitions[c], [c])
    {
      hide Trie.Shape, Trie.Sane, Trie.Built, State, Trie.NodeOf;
      Value().Basics();
      StateIsLongest([c], at.Keys);
    }

    // Reads one byte: the new state stands for an end of the old one's text and the byte, when built for the
    // longest in the trie. A state that is no node counts as the root.
    method AdvanceState(c: Byte, cur: int) returns (next: int)
      requires Valid()
      ensures Cleared() ==> next == -1
      ensures Usable() ==> Follows(next, (if Value().IsNode(cur) then labels[cur] else []) + [c])
    {
      hide Trie.Shape, Trie.NodeOf, State;
      if root < 0 || root >= |nodes| {
        next := -1;
        return;
      }
      ghost var t := Value();
      t.Basics();
      next := if cur < 0 || cur >= |nodes| then root else cur;
      ghost var text := labels[next] + [c];
      assert text == (if t.IsNode(cur) then labels[cur] else []) + [c];
      RootFollows(c);
      if next == root {
        assert text == [c];
        next := rootTransitions[c];
        return;
      }
      assert text[0..] == text;
      while next != root
        invariant t.IsNode(next) && EndsWith(text, labels[next] + [c])
        invariant Built() ==> State(text, at.Keys) == State(labels[next] + [c], at.Keys)
        decreases t.Depth(next)
      {
        if c in nodes[next].children {
          t.ChildIs(next, c);
          if Built() {
            t.WalkEnd(text, next, c);
          }
          next := nodes[next].children[c];
          return;
        }
        assert t.SaneAt(next);
        if Built() {
          assert t.Linked(next);
          t.WalkStep(next, c);
        }
        var fail := nodes[next].fail;
        if fail < 0 || fail >= |nodes| {
          EndsWithLast(labels[next], c);
          EndsWithTrans(text, labels[next] + [c], [c]);
          next := root;
          break;
        }
        EndsWithAppend(labels[next], labels[fail], c);
        EndsWithTrans(text, labels[next] + [c], labels[fail] + [c]);
        next := fail;
      }
      assert labels[next] + [c] == [c];
      next := rootTransitions[c];
      EndsWithTrans(text, [c], labels[next]);
      if Built() {
        t.SameNode(text, [c]);
      }
    }

    lemma HitIsEnding(cur: int, n: int, i: int)
      requires Usable() && Value().IsNode(cur) && Value().IsNode(n) && EndsWith(labels[cur], labels[n]) && labels[n] in words
      ensures nodes[n].len == |labels[n]| > 0
      ensures Hit(i - nodes[n].len + 1, nodes[n].len) in Ending(labels[cur], i + 1, words)
    {
      hide Trie.Shape, Trie.Sane, Ending;
      Value().LenOfWord(n);
      Value().Basics();
      EndingExact(labels[cur], i + 1, words, Hit(i - nodes[n].len + 1, nodes[n].len));
    }

    // Where an output chain may lead that starts at state `cur`.
    ghost predicate OnChain(o: int, cur: int)
      requires Usable() && Value().IsNode(cur)
      reads this, rootTransitions
    {
      o == -1 || (Value().IsNode(o) && o != 0 && labels[o] in words && EndsWith(labels[cur], labels[o]))
    }

    lemma NextOnChain(n: int, cur: int)
      requires Usable() && Value().IsNode(cur) && Value().IsNode(n) && |labels| == |nodes| && EndsWith(labels[cur], labels[n])
      ensures |outputLinks| == |nodes| && OnChain(outputLinks[n], cur)
      ensures outputLinks[n] != -1 ==> Value().Depth(outputLinks[n]) < Value().Depth(n)
    {
      hide Trie.Shape;
      assert Value().SaneAt(n);
      Value().Basics();
      if outputLinks[n] != -1 {
        EndsWithTrans(labels[cur], labels[n], labels[outputLinks[n]]);
      }
    }

    // The words that end where state `cur` was reached, after `i + 1` bytes, longest first; when not built,
    // only some of them.
    method AppendMatches(cur: int, i: int, res: seq<Hit>) returns (matched: bool, all: seq<Hit>)
      requires Usable()
      ensures res <= all && (matched <==> all != res)
      ensures !Value().IsNode(cur) ==> all == res
      ensures Value().IsNode(cur) ==> forall h :: h in all[|res|..] ==> h in Ending(labels[cur], i + 1, words)
      ensures Value().IsNode(cur) && Built() ==> all == res + Ending(labels[cur], i + 1, words)
    {
      hide Trie.Shape, State, Ending, Out, Trie.Sane, Trie.Linked, Trie.EndingVia;
      all, matched := res, false;
      ghost var t := Value();
      t.Basics();
      if cur < 0 || cur >= |nodes| || cur == root {
        return;
      }
      ghost var found: seq<Hit> := [];
      NextOnChain(cur, cur);
      t.LenOfWord(cur);
      if Built() {
        assert t.Linked(cur);
        t.EndingOfNode(cur, i + 1);
      }
      if nodes[cur].len > 0 {
        HitIsEnding(cur, cur, i);
        all := all + [Hit(i - nodes[cur].len + 1, nodes[cur].len)];
        found := [Hit(i - nodes[cur].len + 1, nodes[cur].len)];
        matched := true;
      }
      var temp := outputLinks[cur];
      while temp >= 0 && temp < |nodes| && temp != root
        invariant OnChain(temp, cur)
        invariant all == res + found && (matched <==> found != [])
        invariant forall h :: h in found ==> h in Ending(labels[cur], i + 1, words)
        invariant Built() ==> found + t.EndingVia(temp, i + 1) == Ending(labels[cur], i + 1, words)
        decreases if temp == -1 then 0 else t.Depth(temp) + 1
      {
        HitIsEnding(cur, temp, i);
        NextOnChain(temp, cur);
        if Built() {
          assert t.Linked(temp);
          t.EndingOfLink(temp, i + 1);
        }
        all := all + [Hit(i - nodes[temp].len + 1, nodes[temp].len)];
        found := found + [Hit(i - nodes[temp].len + 1, nodes[temp].len)];
        matched := true;
        temp := outputLinks[temp];
      }
      if Built() {
        t.EndingOfNone(i + 1);
      }
    }

    // A state that follows a text, and the byte after it.
    lemma FollowsOn(cur: int, seen: Text, c: Byte, next: int)
      requires Usable() && Follows(cur, seen) && Value().IsNode(cur) && |labels| == |nodes| && Follows(next, labels[cur] + [c])
      ensures Follows(next, seen + [c])
    {
      hide Trie.Shape, State;
      EndsWithAppend(seen, labels[cur], c);
      EndsWithTrans(seen + [c], labels[cur] + [c], labels[next]);
      if Built() {
        Value().NodeOfAppend(seen, c);
      }
    }

    lemma NodeIsState(cur: int, seen: Text)
      requires Built() && cur == Value().NodeOf(seen)
      ensures |labels| == |nodes| && Value().IsNode(cur) && labels[cur] == State(seen, at.Keys)
      ensures [] in at && words <= at.Keys
    {
    }

    method MatchByte(text: Text, i: nat, cur: int, res: seq<Hit>) returns (next: int, all: seq<Hit>)
      requires Usable() && i < |text| && Follows(cur, text[..i])
      requires forall h :: h in res ==> Occurs(h, text, words)
      requires Built() ==> res == Matches(text[..i], words)
      ensures Follows(next, text[..i + 1])
      ensures forall h :: h in all ==> Occurs(h, text, words)
      ensures Built() ==> all == Matches(text[..i + 1], words)
    {
      hide Trie.Shape, Trie.NodeOf, State, Ending, Trie.Sane;
      Value().Basics();
      ghost var seen := text[..i + 1];
      assert seen == text[..i] + [text[i]] && seen[..i] == text[..i];
      next := AdvanceState(text[i], cur);
      FollowsOn(cur, text[..i], text[i], next);
      var matched;
      matched, all := AppendMatches(next, i, res);
      if Built() {
        EndingOfState(seen, i + 1, words, at.Keys);
        NodeIsState(next, seen);
      }
      forall h | h in all ensures Occurs(h, text, words) {
        if h !in res {
          assert all == res + all[|res|..];
          HitOccurs(text, i, labels[next], h, words);
        }
      }
    }

    // Every occurrence of a loaded word, as naive search lists them; when not built, only occurrences.
    method Match(text: Text) returns (res: seq<Hit>)
      requires Valid()
      modifies this, rootTransitions
      ensures text == [] || old(Ready()) ==> unchanged(this) && unchanged(rootTransitions)
      ensures Valid() && (text != [] ==> Usable()) && (text != [] && old(Cleared()) ==> Built())
      ensures words == old(words) && forall h :: h in res ==> Occurs(h, text, words)
      ensures Built() || text == [] ==> res == Matches(text, words)
    {
      hide Trie.Shape, Trie.NodeOf, State, Ending, Trie.Sane;
      res := [];
      if text == [] {
        return;
      }
      EnsureInitialized();
      Value().Basics();
      var cur := root;
      assert text[..0] == [] && text[..|text|] == text;
      Value().NodeOfEmpty();
      for i := 0 to |text|
        modifies {}
        invariant Follows(cur, text[..i])
        invariant forall h :: h in res ==> Occurs(h, text, words)
        invariant Built() ==> res == Matches(text[..i], words)
      {
        cur, res := MatchByte(text, i, cur, res);
      }
    }

    // The text with every byte that some occurrence covers replaced by a star; when not built, at most those.
    method FilterText(text: Text) returns (result: Text)
      requires Valid()
      modifies this, rootTransitions
      ensures text == [] || old(Ready()) ==> unchanged(this) && unchanged(rootTransitions)
      ensures Valid() && |result| == |text| && words == old(words)
      ensures forall k :: 0 <= k < |text| ==> result[k] == text[k] || (result[k] == STAR && Covered(k, text, words))
      ensures Built() ==> forall k :: 0 <= k < |text| && Covered(k, text, words) ==> result[k] == STAR
    {
      hide Matches, Trie.Shape, Trie.Sane;
      result := text;
      var matches := Match(text);
      MatchesExact(text, words);
      for j := 0 to |matches|
        invariant |result| == |text|
        invariant forall k :: 0 <= k < |text| ==> result[k] == if CoveredBy(k, matches[..j]) then STAR else text[k]
      {
        var Hit(start, len) := matches[j];
        assert Occurs(matches[j], text, words);
        var begin := if start < 0 then 0 else start;
        var end := if |result| < begin + (if len > 0 then len else 0) then |result| else begin + (if len > 0 then len else 0);
        ghost var before := result;
        for i := begin to end
          invariant |result| == |text|
          invariant forall k :: 0 <= k < |text| ==> result[k] == if begin <= k < i then STAR else before[k]
        {
          result := result[i := STAR];
        }
        assert matches[..j + 1] == matches[..j] + [matches[j]];
        forall k ensures CoveredBy(k, matches[..j + 1]) <==> CoveredBy(k, matches[..j]) || begin <= k < end {
          CoveredByOne(k, matches[..j], matches[j]);
        }
      }
      assert matches[..|matches|] == matches;
      forall k ensures CoveredBy(k, matches) ==> Covered(k, text, words) {
      }
      forall k | Built() && Covered(k, text, words) ensures CoveredBy(k, matches) {
        var h :| Occurs(h, text, words) && h.start <= k < h.start + h.len;
        assert h in matches;
      }
    }

    lemma FlagIsTrue(cur: int, seen: Text)
      requires Usable() && Value().IsNode(cur) && EndsWith(seen, labels[cur]) && nodes[cur].hasMatch
      ensures Contains(seen, words)
    {
      assert Value().SaneAt(cur);
      hide Trie.Shape;
      var w := Out(labels[cur], words);
      OutEnds(labels[cur], words);
      EndsWithTrans(seen, labels[cur], w);
      assert seen[|seen| - |w|..|seen|] == seen[|seen| - |w|..];
      assert Occurs(Hit(|seen| - |w|, |w|), seen, words);
    }

    // Reads one byte after `seen` and looks at the flag of the state it leads to. A raised flag never lies; when
    // built, a word that just ended raises it.
    method Feed(c: Byte, cur: int, ghost seen: Text) returns (found: bool, next: int)
      requires Usable() && Follows(cur, seen) && (Built() ==> !Contains(seen, words))
      ensures Follows(next, seen + [c]) && (found ==> Contains(seen + [c], words))
      ensures Built() ==> (found <==> Contains(seen + [c], words))
    {
      hide Trie.Shape, Trie.NodeOf, State, Contains, Trie.Sane;
      Value().Basics();
      next := AdvanceState(c, cur);
      FollowsOn(cur, seen, c, next);
      found := nodes[next].hasMatch;
      if Built() {
        Value().FlagOfState(seen + [c]);
        ContainsStep(seen, c, words);
      }
      if found {
        FlagIsTrue(next, seen + [c]);
      }
    }

    // Reads the bytes of one character, up to the first that completes a word.
    method FeedAll(bytes: Text, cur: int, ghost seen: Text) returns (found: bool, next: int)
      requires Usable() && Follows(cur, seen) && (Built() ==> !Contains(seen, words))
      ensures found ==> Contains(seen + bytes, words)
      ensures !found ==> Follows(next, seen + bytes)
      ensures Built() ==> (found <==> Contains(seen + bytes, words))
    {
      hide Trie.Shape, Trie.NodeOf, State, Contains, Trie.Sane;
      found, next := false, cur;
      assert seen + bytes[..0] == seen && bytes[..|bytes|] == bytes;
      for k := 0 to |bytes|
        invariant !found && Follows(next, seen + bytes[..k]) && (Built() ==> !Contains(seen + bytes[..k], words))
      {
        ghost var read := seen + bytes[..k];
        found, next := Feed(bytes[k], next, read);
        assert read + [bytes[k]] == seen + bytes[..k + 1];
        if found {
          assert read + [bytes[k]] + bytes[k + 1..] == seen + bytes;
          ContainsMore(read + [bytes[k]], bytes[k + 1..], words);
          return;
        }
      }
    }

    method Walk(text: Text) returns (found: bool)
      requires Usable()
      ensures found ==> Contains(Searched(text), words)
      ensures Built() ==> (found <==> Contains(Searched(text), words))
    {
      hide Trie.Shape, Trie.NodeOf, State, Contains, Searched, IsEmojiSpecial, Trie.Sane;
      Value().Basics();
      var cur, pos := root, 0;
      ghost var seen: Text := [];
      Value().NodeOfEmpty();
      NothingIn(words);
      assert text[0..] == text;
      found := false;
      while pos < |text|
        invariant pos <= |text| && Follows(cur, seen) && (Built() ==> !Contains(seen, words)) && !found
        invariant Searched(text) == seen + Searched(text[pos..])
        decreases |text| - pos
      {
        ghost var rest := text[pos..];
        SearchedStep(rest);
        var first := text[pos];
        if first < 0x80 {
          assert Utf8.Decode(rest) == Utf8.Point(first, 1);
          pos := pos + 1;
          assert rest[1..] == text[pos..] && rest[..1] == [first];
          if !IsAsciiEmojiSpecial(first) {
            found, cur := Feed(first, cur, seen);
            seen := seen + [first];
          }
        } else {
          var next := Utf8.Decode(text[pos..]);
          if next.Bad? {
            assert seen + [] == seen;
            return;
          }
          var begin := pos;
          pos := pos + next.size;
          assert rest[next.size..] == text[pos..] && rest[..next.size] == text[begin..pos];
          if !IsEmojiSpecial(next.code) {
            found, cur := FeedAll(text[begin..pos], cur, seen);
            seen := seen + text[begin..pos];
          }
        }
        assert Searched(text) == seen + Searched(text[pos..]);
        if found {
          ContainsMore(seen, Searched(text[pos..]), words);
          return;
        }
      }
      SearchedStep([]);
      assert text[pos..] == [] && seen + [] == seen;
    }

    // Whether the text, without its special characters and up to the first malformed sequence, holds a
    // loaded word; answered as soon as a word is complete. When not built, an answer of yes is still true.
    method IsFilter(text: Text) returns (found: bool)
      requires Valid()
      modifies this, rootTransitions
      ensures text == [] || old(Ready()) ==> unchanged(this) && unchanged(rootTransitions)
      ensures Valid() && words == old(words) && (found ==> Contains(Searched(text), words))
      ensures Built() || text == [] ==> (found <==> Contains(Searched(text), words))
    {
      hide Trie.Shape, Trie.NodeOf, State, Contains, Searched, IsEmojiSpecial, Trie.Sane;
      SearchedStep(text);
      if text == [] {
        found := false;
        NothingIn(words);
        return;
      }
      EnsureInitialized();
      found := Walk(text);
    }
  }
}
