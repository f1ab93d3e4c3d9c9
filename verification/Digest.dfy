// Streaming digests over an unspecified block function: the buffering, counting and padding that MD5 and
// SHA-1 have in common, and the HMAC built on top.

module Digest {
  import opened Bytes
  import opened Digits
  import opened LittleEndian
  import opened Xor

  const BLOCK := 64
  const WORD := 0x1_0000_0000

  // What tells one digest from another: the number of 32-bit words in its state, their start values, the
  // block function, and whether words and length are written highest byte first.
  datatype Algorithm = Algorithm(words: nat, start: seq<int>, compress: (seq<int>, Text) -> seq<int>, big: bool)
  {
    ghost predicate Sound() {
      |start| == words && forall s, b {:trigger compress(s, b)} :: |s| == words ==> |compress(s, b)| == words
    }
  }

  // The block function folded over the whole blocks of a text.
  ghost function Fold(alg: Algorithm, s: seq<int>, text: Text): seq<int>
    decreases |text|
  {
    if |text| < BLOCK then s else Fold(alg, alg.compress(s, text[..BLOCK]), text[BLOCK..])
  }

  lemma {:induction false} FoldAppend(alg: Algorithm, s: seq<int>, a: Text, b: Text)
    requires |a| % BLOCK == 0
    ensures Fold(alg, s, a + b) == Fold(alg, Fold(alg, s, a), b)
    decreases |a|
  {
    if a == [] {
      assert a + b == b;
    } else {
      assert (a + b)[..BLOCK] == a[..BLOCK] && (a + b)[BLOCK..] == a[BLOCK..] + b;
      FoldAppend(alg, alg.compress(s, a[..BLOCK]), a[BLOCK..], b);
    }
  }

  // Bytes that do not fill a block leave the fold as it is.
  lemma {:induction false} FoldCut(alg: Algorithm, s: seq<int>, a: Text, n: nat)
    requires n % BLOCK == 0 && n <= |a| < n + BLOCK
    ensures Fold(alg, s, a) == Fold(alg, s, a[..n])
    decreases n
  {
    if n > 0 {
      FoldCut(alg, alg.compress(s, a[..BLOCK]), a[BLOCK..], n - BLOCK);
      assert a[..n][..BLOCK] == a[..BLOCK] && a[..n][BLOCK..] == a[BLOCK..][..n - BLOCK];
    }
  }

  lemma FoldTail(alg: Algorithm, s: seq<int>, a: Text)
    ensures |a| - |a| % BLOCK >= 0
    ensures Fold(alg, s, a) == Fold(alg, s, a[..|a| - |a| % BLOCK])
  {
    hide Fold;
    FoldCut(alg, s, a, |a| - |a| % BLOCK);
  }

  lemma FoldStep(alg: Algorithm, s: seq<int>, a: Text, block: Text)
    requires |a| % BLOCK == 0 && |block| == BLOCK
    ensures Fold(alg, s, a + block) == alg.compress(Fold(alg, s, a), block)
  {
    FoldAppend(alg, s, a, block);
    assert block[..BLOCK] == block && block[BLOCK..] == [];
  }

  // The whole blocks of a text, and of the text behind one that ends a block.
  lemma BlockStep(alg: Algorithm, s: seq<int>, text: Text, from: nat)
    requires from % BLOCK == 0 && from + BLOCK <= |text|
    ensures Fold(alg, s, text[..from + BLOCK]) == alg.compress(Fold(alg, s, text[..from]), text[from..from + BLOCK])
  {
    assert text[..from + BLOCK] == text[..from] + text[from..from + BLOCK];
    FoldStep(alg, s, text[..from], text[from..from + BLOCK]);
  }

  lemma LastBlock(n: nat, base: nat)
    requires base % BLOCK == 0 && base <= n < base + BLOCK
    ensures n % BLOCK == n - base
  {
  }

  // The state covers the first `n` bytes of a text, a number of whole blocks.
  ghost predicate UpTo(alg: Algorithm, state: seq<int>, whole: Text, n: nat) {
    n % BLOCK == 0 && n <= |whole| && state == Fold(alg, alg.start, whole[..n])
  }

  // The next block of a piece of data that ends the text.
  lemma OneBlock(alg: Algorithm, state: seq<int>, whole: Text, data: Text, i: nat)
    requires i + BLOCK <= |data| <= |whole| && whole[|whole| - |data|..] == data
    requires UpTo(alg, state, whole, |whole| - |data| + i)
    ensures UpTo(alg, alg.compress(state, data[i..i + BLOCK]), whole, |whole| - |data| + i + BLOCK)
  {
    var n := |whole| - |data| + i;
    assert data[i..i + BLOCK] == whole[n..n + BLOCK];
    BlockStep(alg, alg.start, whole, n);
  }

  lemma NoMoreBlocks(alg: Algorithm, state: seq<int>, whole: Text, n: nat)
    requires UpTo(alg, state, whole, n) && |whole| < n + BLOCK
    ensures state == Fold(alg, alg.start, whole) && |whole| - n == |whole| % BLOCK
  {
    LastBlock(|whole|, n);
    FoldTail(alg, alg.start, whole);
  }

  ghost function Zeros(n: nat): (z: Text)
    ensures |z| == n
  {
    seq(n, _ => 0)
  }

  lemma ZerosMore(s: Text, k: nat)
    ensures s + Zeros(k) + [0] == s + Zeros(k + 1)
  {
  }

  lemma ZerosTail(n: nat, k: nat)
    requires k <= n
    ensures Zeros(n)[k..] == Zeros(n - k)
  {
  }

  // Section 3.1 and 3.2 of RFC 1321, section 4 of RFC 3174: a one bit, zeros up to 56 bytes of the last
  // block, and the bit length modulo 2^64.
  ghost function PadZeros(n: nat): nat {
    if n % BLOCK < 56 then 55 - n % BLOCK else 119 - n % BLOCK
  }

  function Reverse(s: Text): (r: Text)
    ensures |r| == |s|
  {
    if s == [] then [] else Reverse(s[1..]) + [s[0]]
  }

  lemma {:induction false} ReverseAt(s: Text, k: nat)
    requires k < |s|
    ensures Reverse(s)[k] == s[|s| - 1 - k]
  {
    if k < |s| - 1 {
      ReverseAt(s[1..], k);
    }
  }

  ghost function LengthBytes(n: nat, big: bool): (s: Text)
    ensures |s| == 8
  {
    if big then Reverse(Put(8 * n, 8)) else Put(8 * n, 8)
  }

  lemma PadLength(n: nat)
    ensures (n + 1 + PadZeros(n) + 8) % BLOCK == 0
  {
    var q, r := n / BLOCK, n % BLOCK;
    assert n + 9 + PadZeros(n) == BLOCK * (if r < 56 then q + 1 else q + 2);
  }

  ghost function Padded(text: Text, big: bool): (p: Text)
    ensures |p| % BLOCK == 0
  {
    PadLength(|text|);
    text + [0x80] + Zeros(PadZeros(|text|)) + LengthBytes(|text|, big)
  }

  lemma PadParts(text: Text, zeros: nat, last: Text, p: Text, k: nat)
    requires p == text + [0x80] + Zeros(zeros) + last && |last| == 8
    ensures |p| == |text| + 1 + zeros + 8 && p[..|text|] == text && p[|text|] == 0x80
    ensures |text| < k < |p| - 8 ==> p[k] == 0
    ensures forall i {:trigger last[i]} :: 0 <= i < 8 ==> p[|p| - 8 + i] == last[i]
  {
  }

  lemma PadFew(n: nat)
    ensures PadZeros(n) < BLOCK
  {
  }

  lemma LengthAt(n: nat, big: bool, k: nat)
    requires k < 8
    ensures LengthBytes(n, big)[if big then 7 - k else k] == 8 * n / Span(k) % 256
  {
    hide Put, Reverse, Span;
    PutAt(8 * n, 8, k);
    ReverseAt(Put(8 * n, 8), 7 - k);
  }

  // Read without the functions it is made of: the text, the byte 0x80, zeros, and the number of bits in eight bytes;
  // a whole number of blocks, and the fewest that hold all that.
  lemma PaddedIs(text: Text, big: bool, k: nat)
    ensures var p, n := Padded(text, big), |text|;
      && |p| % BLOCK == 0 && n + 9 <= |p| < n + 9 + BLOCK
      && p[..n] == text && p[n] == 0x80 && (n < k < |p| - 8 ==> p[k] == 0)
      && (k < 8 ==> p[|p| - 8 + (if big then 7 - k else k)] == 8 * n / Span(k) % 256)
  {
    var p, n := Padded(text, big), |text|;
    PadLength(n);
    PadFew(n);
    PadParts(text, PadZeros(n), LengthBytes(n, big), p, k);
    if k < 8 {
      LengthAt(n, big, k);
    }
    hide Put, Reverse, Span, LengthBytes, PadZeros, Padded;
  }

  // The words of a state as bytes.
  function Emit(s: seq<int>, big: bool): (t: Text)
    ensures |t| == 4 * |s|
  {
    if s == [] then [] else (if big then Reverse(Put(s[0], 4)) else Put(s[0], 4)) + Emit(s[1..], big)
  }

  lemma WordAt(v: nat, big: bool, k: nat)
    requires k < 4
    ensures (if big then Reverse(Put(v, 4)) else Put(v, 4))[if big then 3 - k else k] == v / Span(k) % 256
  {
    hide Put, Reverse, Span;
    PutAt(v, 4, k);
    ReverseAt(Put(v, 4), 3 - k);
  }

  // Byte `k` of word `i`, counted from its low end, is the word's k-th digit to the base 256.
  lemma {:induction false} EmitAt(s: seq<int>, big: bool, i: nat, k: nat)
    requires i < |s| && s[i] >= 0 && k < 4
    ensures Emit(s, big)[4 * i + if big then 3 - k else k] == s[i] / Span(k) % 256
  {
    hide Put, Reverse, Span;
    if i == 0 {
      WordAt(s[0], big, k);
    } else {
      EmitAt(s[1..], big, i - 1, k);
    }
  }

  lemma {:induction false} FoldWords(alg: Algorithm, s: seq<int>, text: Text)
    requires alg.Sound() && |s| == alg.words
    ensures |Fold(alg, s, text)| == alg.words
    decreases |text|
  {
    if |text| >= BLOCK {
      FoldWords(alg, alg.compress(s, text[..BLOCK]), text[BLOCK..]);
    }
  }

  ghost function Hash(alg: Algorithm, text: Text): (t: Text)
    requires alg.Sound()
    ensures |t| == 4 * alg.words
  {
    FoldWords(alg, alg.start, Padded(text, alg.big));
    Emit(Fold(alg, alg.start, Padded(text, alg.big)), alg.big)
  }

  lemma ModSum(a: nat, b: nat, m: nat)
    requires m > 0
    ensures (a % m + b) % m == (a + b) % m
  {
    var q := a / m;
    assert a == m * q + a % m;
    ModMulti(a % m + b, m, q);
  }

  // The two counters hold the number of bits modulo 2^64.
  ghost predicate Counted(cnt0: int, cnt1: int, n: nat) {
    cnt0 == 8 * n % WORD && cnt1 == 8 * n / WORD % WORD
  }

  // The low words of two numbers added: the sum wraps exactly when it comes out below what was added.
  lemma SumWords(a: nat, b: nat)
    ensures var lo := b % WORD;
            var next := (a % WORD + lo) % WORD;
            var carry := if next < lo then 1 else 0;
            (a + b) % WORD == next && (a + b) / WORD == a / WORD + b / WORD + carry
  {
    var c, lo := a % WORD, b % WORD;
    var wraps := if c + lo >= WORD then 1 else 0;
    ModUnique(c + lo, WORD, wraps, c + lo - WORD * wraps);
    ModUnique(a + b, WORD, a / WORD + b / WORD + wraps, c + lo - WORD * wraps);
  }

  // Adding m bytes: the low counter wraps, its carry is noticed by comparing, the high counter takes the
  // upper bits.
  lemma CountAdd(cnt0: int, cnt1: int, n: nat, m: nat)
    requires Counted(cnt0, cnt1, n)
    ensures var lo := 8 * m % WORD;
            var next := (cnt0 + lo) % WORD;
            var carry := if next < lo then 1 else 0;
            Counted(next, (cnt1 + carry + m / 0x2000_0000) % WORD, n + m)
  {
    SumWords(8 * n, 8 * m);
    var carry := if (cnt0 + 8 * m % WORD) % WORD < 8 * m % WORD then 1 else 0;
    assert 8 * m / WORD == m / 0x2000_0000;
    ModSum(8 * n / WORD, carry + m / 0x2000_0000, WORD);
  }

  // Where the next byte goes in the buffer.
  lemma CountIndex(cnt0: int, cnt1: int, n: nat)
    requires Counted(cnt0, cnt1, n)
    ensures cnt0 / 8 % BLOCK == n % BLOCK
  {
    var q := 8 * n / WORD;
    assert cnt0 / 8 == n - 0x2000_0000 * q;
    ModMulti(n, BLOCK, -0x80_0000 * q);
  }

  // The state covers the whole blocks fed, the buffer begins with the rest.
  ghost predicate Buffered(alg: Algorithm, fed: Text, state: seq<int>, buf: Text) {
    && |buf| == BLOCK && state == Fold(alg, alg.start, fed)
    && var k := |fed| % BLOCK; buf[..k] == fed[|fed| - k..]
  }

  lemma FoldedState(alg: Algorithm, fed: Text, state: seq<int>, buf: Text)
    requires Buffered(alg, fed, state, buf)
    ensures state == Fold(alg, alg.start, fed)
  {
  }

  // A chunk that does not fill the buffer.
  lemma NoBlock(alg: Algorithm, fed: Text, data: Text, state: seq<int>, buf: Text, buf': Text)
    requires Buffered(alg, fed, state, buf) && |fed| % BLOCK + |data| < BLOCK
    requires var k := |fed| % BLOCK; buf' == buf[..k] + data + buf[k + |data|..]
    ensures Buffered(alg, fed + data, state, buf')
  {
    hide Fold;
    var whole, base := fed + data, |fed| - |fed| % BLOCK;
    LastBlock(|whole|, base);
    FoldTail(alg, alg.start, fed);
    FoldTail(alg, alg.start, whole);
    assert whole[..base] == fed[..base];
    assert whole[base..] == fed[base..] + data;
  }

  // A chunk that completes the buffered block.
  lemma FirstBlock(alg: Algorithm, fed: Text, data: Text, state: seq<int>, buf: Text, buf': Text)
    requires Buffered(alg, fed, state, buf) && |fed| % BLOCK + |data| >= BLOCK
    requires var k := |fed| % BLOCK; buf' == buf[..k] + data[..BLOCK - k] + buf[BLOCK..]
    ensures var i := BLOCK - |fed| % BLOCK;
            UpTo(alg, alg.compress(state, buf'), fed + data, |fed| + i)
  {
    hide Fold;
    var whole, base := fed + data, |fed| - |fed| % BLOCK;
    FoldTail(alg, alg.start, fed);
    assert whole[..base] == fed[..base];
    assert whole[base..base + BLOCK] == fed[base..] + data[..BLOCK - |fed| % BLOCK];
    assert buf[BLOCK..] == [] && base + BLOCK == |fed| + (BLOCK - |fed| % BLOCK);
    assert buf' == whole[base..base + BLOCK];
    BlockStep(alg, alg.start, whole, base);
  }

  lemma LastBytes(alg: Algorithm, whole: Text, data: Text, i: nat, state: seq<int>, buf: Text)
    requires |data| <= |whole| && whole[|whole| - |data|..] == data && i <= |data| && |data| - i == |whole| % BLOCK
    requires state == Fold(alg, alg.start, whole) && |buf| == BLOCK && buf[..|data| - i] == data[i..]
    ensures Buffered(alg, whole, state, buf)
  {
  }

  lemma PadStops(n: nat, k: nat)
    requires k <= PadZeros(n)
    ensures (n + 1 + k) % BLOCK == 56 <==> k == PadZeros(n)
  {
    var q, r := n / BLOCK, n % BLOCK;
    assert n + 1 + k == BLOCK * q + (r + 1 + k);
    if r + 1 + k < BLOCK {
      ModUnique(n + 1 + k, BLOCK, q, r + 1 + k);
    } else {
      ModUnique(n + 1 + k, BLOCK, q + 1, r + 1 + k - BLOCK);
    }
  }

  lemma {:induction false} PutSplit(v: int, m: nat, n: nat)
    ensures Put(v, m + n) == Put(v, m) + Put(Overflow(v, m), n)
    decreases m
  {
    if m > 0 {
      PutSplit(v / 256, m - 1, n);
    }
  }

  lemma {:induction false} ReverseJoin(a: Text, b: Text)
    ensures Reverse(a + b) == Reverse(b) + Reverse(a)
  {
    if a == [] {
      assert a + b == b;
    } else {
      assert (a + b)[1..] == a[1..] + b;
      ReverseJoin(a[1..], b);
    }
  }

  lemma FourBytes(v: nat)
    ensures Put(v % WORD, 4) == Put(v, 4) && Overflow(v, 4) == v / WORD
  {
    assert Span(4) == 256 * (256 * (256 * (256 * Span(0)))) == WORD;
    hide Span, Put, GetUnsigned, Overflow;
    var q := v / WORD;
    assert v % WORD == v + WORD * -q;
    PutShifted(v, -q, 4);
    GetOfPut(v, 4);
    ModUnique(v, WORD, Overflow(v, 4), GetUnsigned(Put(v, 4)));
  }

  // The counters, written out, are the length in bits.
  lemma LengthOf(cnt0: int, cnt1: int, n: nat)
    requires Counted(cnt0, cnt1, n)
    ensures Put(cnt0, 4) + Put(cnt1, 4) == LengthBytes(n, false)
    ensures Reverse(Put(cnt1, 4)) + Reverse(Put(cnt0, 4)) == LengthBytes(n, true)
  {
    var bits := 8 * n;
    PutSplit(bits, 4, 4);
    FourBytes(bits);
    FourBytes(bits / WORD);
    ReverseJoin(Put(cnt0, 4), Put(cnt1, 4));
  }

  class Context {
    const alg: Algorithm
    var state: seq<int>
    var cnt0: int
    var cnt1: int
    const buf: array<Byte>

    // Everything fed so far.
    ghost var fed: Text

    ghost predicate Valid()
      reads this, buf
    {
      && buf.Length == BLOCK
      && 0 <= cnt0 < WORD && 0 <= cnt1 < WORD
      && Counted(cnt0, cnt1, |fed|)
      && Buffered(alg, fed, state, buf[..])
    }

    constructor (aalg: Algorithm)
      ensures Valid() && fresh(buf) && alg == aalg && fed == []
    {
      alg, state := aalg, aalg.start;
      cnt0, cnt1 := 0, 0;
      buf := new Byte[BLOCK](_ => 0);
      fed := [];
    }

    // Adds the bits of m bytes to the counters.
    method Count(m: nat, ghost n: nat)
      requires 0 <= cnt0 < WORD && 0 <= cnt1 < WORD && Counted(cnt0, cnt1, n)
      modifies this`cnt0, this`cnt1
      ensures 0 <= cnt0 < WORD && 0 <= cnt1 < WORD && Counted(cnt0, cnt1, n + m)
    {
      CountAdd(cnt0, cnt1, n, m);
      ghost var c1 := cnt1;
      var lo := 8 * m % WORD;
      cnt0 := (cnt0 + lo) % WORD;
      if cnt0 < lo {
        cnt1 := (cnt1 + 1) % WORD;
      }
      ghost var carry := if cnt0 < lo then 1 else 0;
      ModSum(c1 + carry, m / 0x2000_0000, WORD);
      cnt1 := (cnt1 + m / 0x2000_0000) % WORD;
    }

    // Runs the block function over the whole blocks from `from` on, reading past the buffer.
    method Blocks(data: Text, from: nat, ghost whole: Text) returns (i: nat)
      requires from <= |data| <= |whole| && whole[|whole| - |data|..] == data
      requires UpTo(alg, state, whole, |whole| - |data| + from)
      modifies this`state
      ensures state == Fold(alg, alg.start, whole) && i <= |data|
      ensures |data| - i == |whole| % BLOCK
    {
      hide Fold, UpTo;
      ghost var start := |whole| - |data|;
      i := from;
      while i + 63 < |data|
        invariant from <= i <= |data| && UpTo(alg, state, whole, start + i)
      {
        OneBlock(alg, state, whole, data, i);
        state := alg.compress(state, data[i..i + BLOCK]);
        i := i + BLOCK;
      }
      NoMoreBlocks(alg, state, whole, start + i);
    }

    // The part of a chunk that completes the buffered block, the whole blocks after it, and what is left over.
    method Complete(data: Text, j: nat)
      requires j == |fed| % BLOCK && j + |data| >= BLOCK && buf.Length == BLOCK
      requires Buffered(alg, fed, state, buf[..])
      modifies this`state, buf
      ensures Buffered(alg, fed + data, state, buf[..])
    {
      hide Fold, Buffered, UpTo;
      ghost var whole, before := fed + data, buf[..];
      var i := BLOCK - j;
      Memcpy(buf, j, data[..i]);
      assert buf[..] == before[..j] + data[..i] + before[BLOCK..];
      FirstBlock(alg, fed, data, state, before, buf[..]);
      state := alg.compress(state, buf[..]);
      assert whole[|whole| - |data|..] == data;
      i := Blocks(data, i, whole);
      Memcpy(buf, 0, data[i..]);
      assert buf[..][..|data| - i] == data[i..];
      LastBytes(alg, whole, data, i, state, buf[..]);
    }

    // Feeds a chunk of any length.
    method Update(data: Text)
      requires Valid()
      modifies this`state, this`cnt0, this`cnt1, this`fed, buf
      ensures Valid() && fed == old(fed) + data
    {
      hide Fold, Counted, Buffered;
      CountIndex(cnt0, cnt1, |fed|);
      var j := cnt0 / 8 % BLOCK;
      Count(|data|, |fed|);
      if j + |data| > 63 {
        Complete(data, j);
      } else {
        ghost var before := buf[..];
        Memcpy(buf, j, data);
        assert buf[..] == before[..j] + data + before[j + |data|..];
        NoBlock(alg, fed, data, state, before, buf[..]);
      }
      fed := fed + data;
    }

    // SHA-1: one byte of padding at a time, then the length.
    method FinishSha() returns (dig: Text)
      requires Valid() && alg.big
      modifies this`state, this`cnt0, this`cnt1, this`fed, buf
      ensures dig == Emit(Fold(alg, alg.start, Padded(old(fed), true)), true)
    {
      hide Fold, Counted, Buffered, Put, Emit, Zeros, Reverse;
      ghost var text, n := fed, |fed|;
      LengthOf(cnt0, cnt1, n);
      var count := Reverse(Put(cnt1, 4)) + Reverse(Put(cnt0, 4));
      Update([0x80]);
      ghost var k: nat := 0;
      PadStops(n, 0);
      CountIndex(cnt0, cnt1, |fed|);
      assert fed == text + [0x80] + Zeros(0);
      while cnt0 / 8 % BLOCK != 56
        invariant Valid() && k <= PadZeros(n) && fed == text + [0x80] + Zeros(k)
        invariant cnt0 / 8 % BLOCK == |fed| % BLOCK
        decreases PadZeros(n) - k
      {
        PadStops(n, k);
        Update([0]);
        ZerosMore(text + [0x80], k);
        k := k + 1;
        CountIndex(cnt0, cnt1, |fed|);
      }
      PadStops(n, k);
      Update(count);
      FoldedState(alg, fed, state, buf[..]);
      dig := Emit(state, true);
    }

    // MD5: all the padding in one piece, then the length.
    method FinishMd5() returns (dig: Text)
      requires Valid() && !alg.big
      modifies this`state, this`cnt0, this`cnt1, this`fed, buf
      ensures dig == Emit(Fold(alg, alg.start, Padded(old(fed), false)), false)
    {
      hide Fold, Counted, Buffered, Put, Emit;
      ghost var n := |fed|;
      LengthOf(cnt0, cnt1, n);
      var bits := Put(cnt0, 4) + Put(cnt1, 4);
      CountIndex(cnt0, cnt1, n);
      var idx := cnt0 / 8 % BLOCK;
      var pad := if idx < 56 then 56 - idx else 120 - idx;
      var table := [0x80] + seq(63, _ => 0);
      assert table[..pad] == [0x80] + Zeros(PadZeros(n));
      ghost var text := fed;
      Update(table[..pad]);
      Update(bits);
      assert fed == Padded(text, false);
      FoldedState(alg, fed, state, buf[..]);
      dig := Emit(state, false);
    }

    method Finish() returns (dig: Text)
      requires Valid() && alg.Sound()
      modifies this`state, this`cnt0, this`cnt1, this`fed, buf
      ensures dig == Hash(alg, old(fed))
    {
      if alg.big {
        dig := FinishSha();
      } else {
        dig := FinishMd5();
      }
    }
  }

  // However a text is cut into chunks, its digest is the fold of the block function over its padding.
  method DigestOf(alg: Algorithm, chunks: seq<Text>) returns (dig: Text)
    requires alg.Sound()
    ensures dig == Hash(alg, Concat(chunks))
  {
    assert Concat(chunks[..0]) == [];
    hide Hash, Concat, Context.Valid;
    var ctx := new Context(alg);
    for i := 0 to |chunks|
      invariant ctx.Valid() && ctx.alg == alg && fresh(ctx) && fresh(ctx.buf) && ctx.fed == Concat(chunks[..i])
    {
      assert chunks[..i + 1] == chunks[..i] + [chunks[i]];
      ConcatAppend(chunks[..i], chunks[i]);
      ctx.Update(chunks[i]);
    }
    assert chunks[..|chunks|] == chunks;
    dig := ctx.Finish();
  }

  // Section 2 of RFC 2104.
  ghost function HmacKey(alg: Algorithm, key: Text): (k: Text)
    requires alg.Sound() && alg.words <= 16
    ensures |k| == BLOCK
  {
    var short := if |key| > BLOCK then Hash(alg, key) else key;
    short + Zeros(BLOCK - |short|)
  }

  ghost function XorAll(s: Text, b: Byte): (t: Text)
    ensures |t| == |s|
  {
    seq(|s|, i requires 0 <= i < |s| => XorByte(s[i], b))
  }

  ghost function Hmac(alg: Algorithm, key: Text, text: Text): Text
    requires alg.Sound() && alg.words <= 16
  {
    var k := HmacKey(alg, key);
    Hash(alg, XorAll(k, 0x5C) + Hash(alg, XorAll(k, 0x36) + text))
  }

  // The nested construction in full: the key, hashed when it is longer than a block, filled up with zeros and
  // exclusive-or 0x36 in front of the text, then exclusive-or 0x5C in front of that hash.
  lemma HmacIs(alg: Algorithm, key: Text, text: Text, k: Text, inner: Text, outer: Text)
    requires alg.Sound() && alg.words <= 16 && |k| == |inner| == |outer| == 64
    requires var short := if |key| > 64 then Hash(alg, key) else key;
             forall i {:trigger k[i]} :: 0 <= i < 64 ==> k[i] == if i < |short| then short[i] else 0
    requires forall i {:trigger inner[i]} :: 0 <= i < 64 ==> inner[i] == XorByte(k[i], 0x36)
    requires forall i {:trigger outer[i]} :: 0 <= i < 64 ==> outer[i] == XorByte(k[i], 0x5C)
    ensures Hmac(alg, key, text) == Hash(alg, outer + Hash(alg, inner + text))
  {
    hide Hash, XorByte;
    assert k == HmacKey(alg, key);
    assert inner == XorAll(k, 0x36) && outer == XorAll(k, 0x5C);
  }

  method XorKey(key: array<Byte>, b: Byte)
    modifies key
    ensures key[..] == XorAll(old(key[..]), b)
  {
    for i := 0 to key.Length
      invariant forall k :: 0 <= k < i ==> key[k] == XorByte(old(key[k]), b)
      invariant forall k :: i <= k < key.Length ==> key[k] == old(key[k])
    {
      key[i] := XorByte(key[i], b);
    }
  }

  lemma PadBits()
    ensures XorBits(0x5C, 0x36, 8) == 0x6A && XorBits(0x5C, 0x6A, 8) == 0x36
  {
    assert XorBits(1, 0, 2) == 1 && XorBits(2, 1, 3) == 3 && XorBits(5, 3, 4) == 6 && XorBits(11, 6, 5) == 13;
    assert XorBits(23, 13, 6) == 26 && XorBits(46, 27, 7) == 53;
    assert XorBits(1, 1, 2) == 0 && XorBits(2, 3, 3) == 1 && XorBits(5, 6, 4) == 3 && XorBits(11, 13, 5) == 6;
    assert XorBits(23, 26, 6) == 13 && XorBits(46, 53, 7) == 27;
  }

  // The outer pad is turned into the inner one in place.
  lemma PadSwap(k: Text)
    ensures XorByte(0x5C, 0x36) == 0x6A && XorAll(XorAll(k, 0x5C), 0x6A) == XorAll(k, 0x36)
  {
    PadBits();
    forall i | 0 <= i < |k| ensures XorByte(XorByte(k[i], 0x5C), 0x6A) == XorByte(k[i], 0x36) {
      XorByteAssoc(k[i], 0x5C, 0x6A);
    }
  }

  method BlockKey(alg: Algorithm, key: Text) returns (rkey: array<Byte>)
    requires alg.Sound() && alg.words <= 16
    ensures fresh(rkey) && rkey[..] == HmacKey(alg, key)
  {
    hide Hash, Context.Valid;
    rkey := new Byte[BLOCK](_ => 0);
    assert rkey[..] == Zeros(BLOCK);
    hide Zeros;
    var short := key;
    if |key| > BLOCK {
      var ctx := new Context(alg);
      ctx.Update(key);
      short := ctx.Finish();
      assert [] + key == key;
    }
    ZerosTail(BLOCK, |short|);
    Memcpy(rkey, 0, short);
    assert rkey[..] == short + Zeros(BLOCK - |short|);
  }

  method HmacRaw(alg: Algorithm, key: Text, text: Text) returns (out: Text)
    requires alg.Sound() && alg.words <= 16
    ensures out == Hmac(alg, key, text)
  {
    hide Hash, HmacKey, XorAll, Context.Valid;
    var rkey := BlockKey(alg, key);
    ghost var k := rkey[..];
    PadSwap(k);
    XorKey(rkey, 0x5C);
    assert [] + rkey[..] == XorAll(k, 0x5C);
    var outer := new Context(alg);
    outer.Update(rkey[..]);
    XorKey(rkey, XorByte(0x5C, 0x36));
    assert [] + rkey[..] == XorAll(k, 0x36);
    var inner := new Context(alg);
    inner.Update(rkey[..]);
    inner.Update(text);
    var dig := inner.Finish();
    outer.Update(dig);
    out := outer.Finish();
  }
}
