// What the word automaton computes, said without an automaton: longest suffixes of a text that lie in
// a prefix-closed vocabulary, and the list of all occurrences of a set of words.

module Suffixes {
  import opened Bytes

  datatype Hit = Hit(start: int, len: int)

  ghost predicate PrefixClosed(vocab: set<Text>) {
    && [] in vocab
    && forall w: Text, c: Byte {:trigger w + [c]} :: w + [c] in vocab ==> w in vocab
  }

  ghost function Prefixes(p: Text): set<Text> {
    set k | 0 <= k <= |p| :: p[..k]
  }

  lemma PrefixesOfEmpty(p: Text)
    ensures Prefixes([]) == {[]} && [] in Prefixes(p)
  {
    assert p[..0] == [];
    var none: Text := [];
    assert none[..0] in Prefixes(none);
  }

  lemma PrefixesOfAppend(p: Text, k: nat)
    requires k < |p|
    ensures p[..k + 1] == p[..k] + [p[k]]
    ensures Prefixes(p[..k + 1]) == Prefixes(p[..k]) + {p[..k + 1]}
  {
    var q := p[..k + 1];
    assert q[..k] == p[..k] && q[..k + 1] == q;
    assert forall j :: 0 <= j <= k ==> q[..j] == p[..k][..j];
  }

  // The longest suffix of `s` that lies in `vocab` (which holds the empty text).
  ghost function State(s: Text, vocab: set<Text>): (r: Text)
    requires [] in vocab
    ensures r in vocab && |r| <= |s|
    decreases |s|
  {
    if s in vocab then s else State(s[1..], vocab)
  }

  lemma {:induction false} StateIsLongest(s: Text, vocab: set<Text>)
    requires [] in vocab
    ensures var r := State(s, vocab);
            && s[|s| - |r|..] == r
            && forall k :: 0 <= k <= |s| && s[k..] in vocab ==> |s| - k <= |r|
    decreases |s|
  {
    if s !in vocab {
      StateIsLongest(s[1..], vocab);
      var r := State(s, vocab);
      assert s[|s| - |r|..] == s[1..][|s| - 1 - |r|..];
      forall k | 0 <= k <= |s| && s[k..] in vocab ensures |s| - k <= |r| {
        assert s[0..] == s;
        assert k > 0 ==> s[1..][k - 1..] == s[k..];
      }
    }
  }

  // Reading one more byte needs only the state, not the text read so far.
  lemma {:induction false} StateOfAppend(s: Text, c: Byte, vocab: set<Text>)
    requires PrefixClosed(vocab)
    ensures State(s + [c], vocab) == State(State(s, vocab) + [c], vocab)
    decreases |s|
  {
    if s !in vocab {
      assert (s + [c])[1..] == s[1..] + [c];
      StateOfAppend(s[1..], c, vocab);
    }
  }

  // Where no edge for `c` leaves `w`, the state is the one reached through the fail link of `w`.
  lemma FailStep(w: Text, c: Byte, vocab: set<Text>)
    requires PrefixClosed(vocab) && w != [] && w + [c] !in vocab
    ensures State(w + [c], vocab) == State(State(w[1..], vocab) + [c], vocab)
  {
    assert (w + [c])[1..] == w[1..] + [c];
    StateOfAppend(w[1..], c, vocab);
  }

  // The longest suffix of `s` that is a word, or the empty text.
  ghost function Out(s: Text, words: set<Text>): (r: Text)
    ensures |r| <= |s| && (r != [] ==> r in words)
    decreases |s|
  {
    if s == [] || s in words then s else Out(s[1..], words)
  }

  lemma OutOfWord(s: Text, words: set<Text>)
    requires s != [] && [] !in words
    ensures Out(s, words) != [] <==> s in words || Out(s[1..], words) != []
  {
  }

  lemma {:induction false} OutOfState(s: Text, words: set<Text>, vocab: set<Text>)
    requires [] in vocab && words <= vocab
    ensures Out(s, words) == Out(State(s, vocab), words)
    decreases |s|
  {
    if s !in vocab {
      OutOfState(s[1..], words, vocab);
    }
  }

  // `s` ends with `r`.
  ghost predicate EndsWith(s: Text, r: Text) {
    |r| <= |s| && s[|s| - |r|..] == r
  }

  lemma EndsWithTrans(s: Text, r: Text, q: Text)
    requires EndsWith(s, r) && EndsWith(r, q)
    ensures EndsWith(s, q)
  {
    assert s[|s| - |q|..] == s[|s| - |r|..][|r| - |q|..];
  }

  lemma EndsWithAppend(s: Text, r: Text, c: Byte)
    requires EndsWith(s, r)
    ensures EndsWith(s + [c], r + [c])
  {
    assert (s + [c])[|s| - |r|..] == s[|s| - |r|..] + [c];
  }

  lemma {:induction false} OutEnds(s: Text, words: set<Text>)
    ensures EndsWith(s, Out(s, words))
    decreases |s|
  {
    if s != [] && s !in words {
      OutEnds(s[1..], words);
      assert s[|s| - |Out(s, words)|..] == s[1..][|s| - 1 - |Out(s, words)|..];
    }
  }

  // A word that ends `s` shows that some word does, whatever others there are.
  lemma {:induction false} OutOfEnd(s: Text, r: Text, words: set<Text>)
    requires EndsWith(s, r) && r in words && r != []
    ensures Out(s, words) != []
    decreases |s|
  {
    if s !in words {
      assert |r| < |s|;
      assert s[|s| - |r|..] == s[1..][|s| - 1 - |r|..];
      OutOfEnd(s[1..], r, words);
    }
  }

  lemma OutMore(s: Text, words: set<Text>, more: set<Text>)
    requires Out(s, words) != [] && words <= more
    ensures Out(s, more) != []
  {
    OutEnds(s, words);
    OutOfEnd(s, Out(s, words), more);
  }

  // All suffixes of `s` that are words, longest first, as hits in a text of which `s` is the last part
  // and which is `end` bytes long.
  ghost function Ending(s: Text, end: int, words: set<Text>): (hits: seq<Hit>)
    ensures s == [] ==> hits == []
    decreases |s|
  {
    if s == [] then []
    else (if s in words then [Hit(end - |s|, |s|)] else []) + Ending(s[1..], end, words)
  }

  lemma {:induction false} EndingByOut(s: Text, end: int, words: set<Text>)
    ensures Ending(s, end, words) ==
            if Out(s, words) == [] then []
            else [Hit(end - |Out(s, words)|, |Out(s, words)|)] + Ending(Out(s, words)[1..], end, words)
    decreases |s|
  {
    if s == [] {
    } else if s in words {
      assert Out(s, words) == s;
    } else {
      EndingByOut(s[1..], end, words);
      assert Ending(s, end, words) == Ending(s[1..], end, words) && Out(s, words) == Out(s[1..], words);
    }
  }

  lemma {:induction false} EndingOfState(s: Text, end: int, words: set<Text>, vocab: set<Text>)
    requires [] in vocab && words <= vocab
    ensures Ending(s, end, words) == Ending(State(s, vocab), end, words)
    decreases |s|
  {
    if s !in vocab {
      EndingOfState(s[1..], end, words, vocab);
    }
  }

  lemma {:induction false} EndingExact(s: Text, end: int, words: set<Text>, h: Hit)
    ensures h in Ending(s, end, words) <==>
            0 < h.len <= |s| && h.start == end - h.len && s[|s| - h.len..] in words
    decreases |s|
  {
    if s != [] {
      EndingExact(s[1..], end, words, h);
      assert 0 < h.len <= |s| - 1 ==> s[1..][|s| - 1 - h.len..] == s[|s| - h.len..];
      assert s[0..] == s;
    }
  }

  ghost predicate Before(a: Hit, b: Hit) {
    || a.start + a.len < b.start + b.len
    || (a.start + a.len == b.start + b.len && a.len > b.len)
  }

  ghost predicate Ordered(hits: seq<Hit>) {
    forall i, j :: 0 <= i < j < |hits| ==> Before(hits[i], hits[j])
  }

  lemma {:induction false} EndingOrdered(s: Text, end: int, words: set<Text>)
    ensures Ordered(Ending(s, end, words))
    decreases |s|
  {
    if s != [] {
      EndingOrdered(s[1..], end, words);
      forall h | h in Ending(s[1..], end, words) ensures h.len < |s| && h.start + h.len == end {
        EndingExact(s[1..], end, words, h);
      }
    }
  }

  // Naive search: every occurrence of a word, by end position and then longest first.
  ghost function Matches(text: Text, words: set<Text>): seq<Hit>
    decreases |text|
  {
    if text == [] then [] else Matches(text[..|text| - 1], words) + Ending(text, |text|, words)
  }

  ghost predicate Occurs(h: Hit, text: Text, words: set<Text>) {
    0 < h.len && 0 <= h.start && h.start + h.len <= |text| && text[h.start..h.start + h.len] in words
  }

  lemma OrderedAppend(a: seq<Hit>, b: seq<Hit>, end: int)
    requires Ordered(a) && Ordered(b)
    requires forall h :: h in a ==> h.start + h.len < end
    requires forall h :: h in b ==> h.start + h.len == end
    ensures Ordered(a + b)
  {
  }

  // The list holds exactly the occurrences, each once, ordered by end position and then longest first.
  lemma {:induction false} MatchesExact(text: Text, words: set<Text>)
    ensures forall h :: h in Matches(text, words) <==> Occurs(h, text, words)
    ensures Ordered(Matches(text, words))
    ensures forall i, j :: 0 <= i < j < |Matches(text, words)| ==>
              var a, b := Matches(text, words)[i], Matches(text, words)[j];
              a.start + a.len < b.start + b.len || (a.start + a.len == b.start + b.len && a.len > b.len)
    decreases |text|
  {
    if text != [] {
      var less := text[..|text| - 1];
      MatchesExact(less, words);
      EndingOrdered(text, |text|, words);
      forall h ensures h in Matches(text, words) <==> Occurs(h, text, words) {
        EndingExact(text, |text|, words, h);
        if h.start + h.len == |text| && 0 < h.len <= |text| {
          assert text[|text| - h.len..] == text[h.start..h.start + h.len];
        }
        if 0 < h.len && 0 <= h.start && h.start + h.len < |text| {
          assert less[h.start..h.start + h.len] == text[h.start..h.start + h.len];
        }
      }
      forall h | h in Ending(text, |text|, words) ensures h.start + h.len == |text| {
        EndingExact(text, |text|, words, h);
      }
      OrderedAppend(Matches(less, words), Ending(text, |text|, words), |text|);
    }
  }

  ghost predicate Contains(text: Text, words: set<Text>) {
    exists h :: Occurs(h, text, words)
  }

  // A longer text holds a word exactly when the shorter one does or a word ends at its last byte.
  lemma ContainsStep(text: Text, c: Byte, words: set<Text>)
    requires [] !in words
    ensures Contains(text + [c], words) <==> Contains(text, words) || Out(text + [c], words) != []
  {
    var more := text + [c];
    assert more[..|more| - 1] == text;
    MatchesExact(text, words);
    MatchesExact(more, words);
    EndingByOut(more, |more|, words);
    if Contains(text, words) {
      var h :| Occurs(h, text, words);
      assert h in Matches(more, words);
    }
    if Out(more, words) != [] {
      var h := Hit(|more| - |Out(more, words)|, |Out(more, words)|);
      assert h == Ending(more, |more|, words)[0];
      assert h in Matches(more, words);
    }
    if Contains(more, words) {
      var h :| Occurs(h, more, words);
      assert h in Matches(more, words);
      if h in Matches(text, words) {
        assert Occurs(h, text, words);
      }
    }
  }

  lemma NothingIn(words: set<Text>)
    ensures !Contains([], words)
  {
  }

  lemma ContainsMore(text: Text, more: Text, words: set<Text>)
    requires Contains(text, words)
    ensures Contains(text + more, words)
  {
    var h :| Occurs(h, text, words);
    assert (text + more)[h.start..h.start + h.len] == text[h.start..h.start + h.len];
    assert Occurs(h, text + more, words);
  }

  // The bytes of a text that some occurrence covers.
  ghost predicate Covered(k: int, text: Text, words: set<Text>) {
    exists h :: Occurs(h, text, words) && h.start <= k < h.start + h.len
  }

  ghost predicate CoveredBy(k: int, hits: seq<Hit>) {
    exists h :: h in hits && h.start <= k < h.start + h.len
  }

  lemma CoveredByOne(k: int, hits: seq<Hit>, last: Hit)
    ensures CoveredBy(k, hits + [last]) <==> CoveredBy(k, hits) || last.start <= k < last.start + last.len
  {
  }
}
