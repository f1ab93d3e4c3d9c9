// Base64 (section 4 of RFC 4648): three bytes to four letters and back, with padding.

module Base64 {
  import opened Bytes
  import opened Common

  const PAD: Byte := 61

  // The inverse table; -1 for bytes that are no letter.
  function Inv(c: Byte): (i: int)
    ensures -1 <= i < 64
  {
    if 65 <= c <= 90 then c - 65
    else if 97 <= c <= 122 then c - 71
    else if 48 <= c <= 57 then c + 4
    else if c == 43 then 62
    else if c == 47 then 63
    else -1
  }

  // A-Z, a-z, 0-9, '+', '/'.
  function Alpha(i: int): (c: Byte)
    requires 0 <= i < 64
    ensures Inv(c) == i && c != PAD
  {
    if i < 26 then 65 + i else if i < 52 then 71 + i else if i < 62 then i - 4 else if i == 62 then 43 else 47
  }

  // Table 1 of RFC 4648, and its padding character.
  lemma AlphaIs(i: int)
    requires 0 <= i < 64
    ensures i < 26 ==> Alpha(i) == 'A' as int + i
    ensures 26 <= i < 52 ==> Alpha(i) == 'a' as int + i - 26
    ensures 52 <= i < 62 ==> Alpha(i) == '0' as int + i - 52
    ensures Alpha(62) == '+' as int && Alpha(63) == '/' as int && PAD == '=' as int
  {
  }

  // No other byte is a letter.
  lemma InvIs(c: Byte)
    ensures Inv(c) != -1 ==> Alpha(Inv(c)) == c
  {
  }

  // The bytes the callers allot for the encoding of `n` bytes and for what `n` letters decode to.
  function EncSize(n: nat): nat {
    4 * ((n + 2) / 3)
  }

  function DecSize(n: nat): nat {
    n / 4 * 3
  }

  // Three bytes as four six-bit values.
  function Quad(a: Byte, b: Byte, c: Byte): (q: seq<int>)
    ensures |q| == 4 && forall i :: 0 <= i < 4 ==> 0 <= q[i] < 64
  {
    [a / 4, a % 4 * 16 + b / 16, b % 16 * 4 + c / 64, c % 64]
  }

  // The 24 bits of three bytes, highest first.
  lemma QuadIs(a: Byte, b: Byte, c: Byte)
    ensures var q := Quad(a, b, c); ((q[0] * 64 + q[1]) * 64 + q[2]) * 64 + q[3] == (a * 256 + b) * 256 + c
  {
  }

  // Four six-bit values as three bytes; anything shifted out of a byte is lost.
  function Triple(q: seq<int>): (t: Text)
    requires |q| == 4 && forall i :: 0 <= i < 4 ==> 0 <= q[i] < 64
    ensures |t| == 3
  {
    [(q[0] * 4 + q[1] / 16) % 256, (q[1] % 16 * 16 + q[2] / 4) % 256, (q[2] % 4 * 64 + q[3]) % 256]
  }

  lemma Split(x: int, high: nat, low: nat, m: nat)
    requires x == high * m + low && low < m && (m == 64 || m == 16 || m == 4)
    ensures x / m == high && x % m == low
  {
  }

  // The four values hold the bits of the three bytes.
  lemma Parts(a: Byte, b: Byte, c: Byte)
    ensures var q := Quad(a, b, c);
            && q[0] == a / 4 && q[1] / 16 == a % 4 && q[1] % 16 == b / 16
            && q[2] / 4 == b % 16 && q[2] % 4 == c / 64 && q[3] == c % 64
    ensures c == 0 ==> Quad(a, b, c)[3] == 0 && (b == 0 ==> Quad(a, b, c)[2] == 0)
  {
    Split(a % 4 * 16 + b / 16, a % 4, b / 16, 16);
    Split(b % 16 * 4 + c / 64, b % 16, c / 64, 4);
  }

  lemma FirstByte(a: Byte, x: int, y: int)
    requires x == a / 4 && y / 16 == a % 4
    ensures (x * 4 + y / 16) % 256 == a
  {
  }

  lemma MiddleByte(b: Byte, x: int, y: int)
    requires x % 16 == b / 16 && y / 4 == b % 16
    ensures (x % 16 * 16 + y / 4) % 256 == b
  {
  }

  lemma LastByte(c: Byte, x: int, y: int)
    requires x % 4 == c / 64 && y == c % 64
    ensures (x % 4 * 64 + y) % 256 == c
  {
  }

  lemma Together(a: Byte, b: Byte, c: Byte, q: seq<int>)
    requires |q| == 4 && forall i :: 0 <= i < 4 ==> 0 <= q[i] < 64
    requires q[0] == a / 4 && q[1] / 16 == a % 4 && q[1] % 16 == b / 16
    requires q[2] / 4 == b % 16 && q[2] % 4 == c / 64 && q[3] == c % 64
    ensures Triple(q) == [a, b, c]
  {
    FirstByte(a, q[0], q[1]);
    MiddleByte(b, q[1], q[2]);
    LastByte(c, q[2], q[3]);
  }

  lemma TripleOfQuad(a: Byte, b: Byte, c: Byte)
    ensures Triple(Quad(a, b, c)) == [a, b, c]
    ensures c == 0 ==> Quad(a, b, c)[3] == 0 && (b == 0 ==> Quad(a, b, c)[2] == 0)
  {
    hide Quad;
    Parts(a, b, c);
    Together(a, b, c, Quad(a, b, c));
  }

  ghost function Letters(q: seq<int>): (t: Text)
    requires forall i :: 0 <= i < |q| ==> 0 <= q[i] < 64
    ensures |t| == |q|
  {
    seq(|q|, i requires 0 <= i < |q| => Alpha(q[i]))
  }

  ghost function Pads(n: nat): (t: Text)
    ensures |t| == n
  {
    seq(n, _ => PAD)
  }

  // What the standard prescribes.
  ghost function Encoding(s: Text): (t: Text)
    ensures |t| == EncSize(|s|)
  {
    if s == [] then []
    else if |s| == 1 then Letters(Quad(s[0], 0, 0)[..2]) + Pads(2)
    else if |s| == 2 then Letters(Quad(s[0], s[1], 0)[..3]) + Pads(1)
    else Letters(Quad(s[0], s[1], s[2])) + Encoding(s[3..])
  }

  // The encoding of what is left is the last quad, padded, or that of three bytes and the rest.
  lemma EncodingStep(s: Text)
    ensures |s| >= 3 ==> Encoding(s) == Letters(Quad(s[0], s[1], s[2])[..4]) + Encoding(s[3..])
    ensures |s| == 2 ==> Encoding(s) == Letters(Quad(s[0], s[1], 0)[..3]) + Pads(1)
    ensures |s| == 1 ==> Encoding(s) == Letters(Quad(s[0], 0, 0)[..2]) + Pads(2)
    ensures |s| == 0 ==> Encoding(s) == []
  {
    if |s| >= 3 {
      var q := Quad(s[0], s[1], s[2]);
      hide Quad, Letters, Pads;
      assert q[..4] == q;
    }
    hide Quad, Letters, Pads;
  }

  // The first `k` letters of a quad and padding.
  method Put4(dst: array<Byte>, at: nat, q: seq<int>, k: nat) returns (n: nat)
    requires |q| == 4 && (forall i :: 0 <= i < 4 ==> 0 <= q[i] < 64) && k <= 4 && at + 4 <= dst.Length
    modifies dst
    ensures n == at + 4 && dst[..n] == old(dst[..at]) + dst[at..n]
    ensures dst[at..n] == Letters(q[..k]) + Pads(4 - k)
  {
    forall i | 0 <= i < 4 {
      dst[at + i] := if i < k then Alpha(q[i]) else PAD;
    }
    assert forall i :: 0 <= i < k ==> q[..k][i] == q[i];
    n := at + 4;
  }

  method Enc(dst: array<Byte>, src: Text) returns (n: nat)
    requires EncSize(|src|) <= dst.Length
    modifies dst
    ensures n == EncSize(|src|) && dst[..n] == Encoding(src)
  {
    hide Quad, Letters, Encoding;
    n := 0;
    var at := 0;
    assert src[0..] == src;
    while at + 3 <= |src|
      invariant at <= |src| && n + EncSize(|src| - at) == EncSize(|src|)
      invariant dst[..n] + Encoding(src[at..]) == Encoding(src)
    {
      ghost var done, rest := dst[..n], src[at..];
      EncodingStep(rest);
      assert rest[3..] == src[at + 3..];
      n := Put4(dst, n, Quad(src[at], src[at + 1], src[at + 2]), 4);
      ConcatAssoc(done, dst[n - 4..n], Encoding(rest[3..]));
      at := at + 3;
    }
    ghost var rest := src[at..];
    EncodingStep(rest);
    if |src| - at == 2 {
      n := Put4(dst, n, Quad(src[at], src[at + 1], 0), 3);
    } else if |src| - at == 1 {
      n := Put4(dst, n, Quad(src[at], 0, 0), 2);
    } else {
      assert dst[..n] + [] == dst[..n];
    }
  }

  // The values of the letters up to the first byte that is none.
  ghost function Sextets(s: Text): (v: seq<int>)
    ensures |v| <= |s| && forall i :: 0 <= i < |v| ==> 0 <= v[i] < 64
  {
    if s == [] || Inv(s[0]) == -1 then [] else [Inv(s[0])] + Sextets(s[1..])
  }

  // Whole quads give three bytes each; of an incomplete one, one byte less than it has values.
  ghost function Bytes3(v: seq<int>): (t: Text)
    requires forall i :: 0 <= i < |v| ==> 0 <= v[i] < 64
  {
    if v == [] then []
    else if |v| < 4 then Triple(v + seq(4 - |v|, _ => 0))[..|v| - 1]
    else Triple(v[..4]) + Bytes3(v[4..])
  }

  lemma {:induction false} SextetsOfLetters(q: seq<int>, rest: Text)
    requires forall i :: 0 <= i < |q| ==> 0 <= q[i] < 64
    ensures Sextets(Letters(q) + rest) == q + Sextets(rest)
  {
    var s := Letters(q) + rest;
    if q == [] {
      assert s == rest;
    } else {
      assert s[1..] == Letters(q[1..]) + rest;
      SextetsOfLetters(q[1..], rest);
    }
  }

  lemma PadEnds()
    ensures Inv(PAD) == -1
    ensures forall rest: Text :: Sextets([PAD] + rest) == []
    ensures Sextets([PAD]) == []
  {
  }

  // The letters and the padding of an incomplete quad read back as its first `k` values.
  lemma SextetsOfPadded(q: seq<int>, pads: nat)
    requires (forall i :: 0 <= i < |q| ==> 0 <= q[i] < 64) && 1 <= pads
    ensures Sextets(Letters(q) + Pads(pads)) == q
  {
    var rest := Pads(pads);
    SextetsOfLetters(q, rest);
    assert rest[0] == PAD;
    assert q + [] == q;
  }

  // The bytes of an incomplete quad whose missing values are zero.
  lemma LastQuad(q: seq<int>, k: nat, t: Text)
    requires |q| == 4 && (forall i :: 0 <= i < 4 ==> 0 <= q[i] < 64) && 1 <= k < 4
    requires (forall i :: k <= i < 4 ==> q[i] == 0) && Triple(q) == t
    ensures Bytes3(q[..k]) == t[..k - 1]
  {
    hide Triple;
    assert q[..k] + seq(4 - k, _ => 0) == q;
  }

  lemma Nothing()
    ensures Bytes3(Sextets([])) == []
  {
  }

  lemma WholeQuad(q: seq<int>, v: seq<int>)
    requires |q| == 4 && (forall i :: 0 <= i < |q| ==> 0 <= q[i] < 64) && forall i :: 0 <= i < |v| ==> 0 <= v[i] < 64
    ensures Bytes3(q + v) == Triple(q) + Bytes3(v)
  {
    hide Triple;
    assert (q + v)[..4] == q && (q + v)[4..] == v;
  }

  // Decoding undoes encoding.
  lemma {:induction false} RoundTrip(s: Text)
    ensures Bytes3(Sextets(Encoding(s))) == s
    decreases |s|
  {
    EncodingStep(s);
    hide Quad, Triple, Letters, Inv, Encoding, Sextets, Bytes3;
    if |s| == 0 {
      Nothing();
    } else if |s| <= 2 {
      var q := Quad(s[0], if |s| == 1 then 0 else s[1], 0);
      TripleOfQuad(s[0], if |s| == 1 then 0 else s[1], 0);
      SextetsOfPadded(q[..|s| + 1], 3 - |s|);
      LastQuad(q, |s| + 1, Triple(q));
    } else {
      var q, rest := Quad(s[0], s[1], s[2]), Encoding(s[3..]);
      assert q[..4] == q;
      SextetsOfLetters(q, rest);
      TripleOfQuad(s[0], s[1], s[2]);
      RoundTrip(s[3..]);
      WholeQuad(q, Sextets(rest));
    }
  }

  lemma {:induction false} Bytes3Length(v: seq<int>)
    requires forall i :: 0 <= i < |v| ==> 0 <= v[i] < 64
    ensures |Bytes3(v)| == 3 * |v| / 4
    decreases |v|
  {
    hide Triple;
    if |v| >= 4 {
      Bytes3Length(v[4..]);
    }
  }

  // What a text decodes to fits into what the caller allots for it if and only if the letters before the first
  // other byte come to whole quads of the text, or to one more.
  lemma DecFits(s: Text)
    ensures |Bytes3(Sextets(s))| <= DecSize(|s|) <==> |Sextets(s)| <= 4 * (|s| / 4) + 1
  {
    hide Bytes3, Sextets;
    Bytes3Length(Sextets(s));
  }

  // Every encoding meets that.
  lemma EncodingFits(s: Text)
    ensures |Bytes3(Sextets(Encoding(s)))| == |s| <= DecSize(|Encoding(s)|)
    ensures |Sextets(Encoding(s))| <= 4 * (|Encoding(s)| / 4) + 1
  {
    hide Bytes3, Sextets, Encoding;
    RoundTrip(s);
    DecFits(Encoding(s));
  }

  // "QUI" does not: two bytes for which none are allotted.
  lemma UnpaddedOverflows()
    ensures var s: Text := [81, 85, 73]; |Bytes3(Sextets(s))| == 2 && DecSize(|s|) == 0
  {
    var s: Text := [81, 85, 73];
    assert s[1..] == [85, 73] && s[1..][1..] == [73] && s[1..][1..][1..] == [];
    Bytes3Length(Sextets(s));
  }

  lemma {:induction false} Bytes3Join(a: seq<int>, b: seq<int>)
    requires |a| % 4 == 0 && (forall i :: 0 <= i < |a| ==> 0 <= a[i] < 64) && forall i :: 0 <= i < |b| ==> 0 <= b[i] < 64
    ensures Bytes3(a + b) == Bytes3(a) + Bytes3(b)
    decreases |a|
  {
    hide Triple;
    if a == [] {
      assert a + b == b;
    } else {
      hide Bytes3;
      assert a == a[..4] + a[4..];
      WholeQuad(a[..4], a[4..]);
      assert a + b == a[..4] + (a[4..] + b);
      WholeQuad(a[..4], a[4..] + b);
      Bytes3Join(a[4..], b);
    }
  }

  // Whatever the last places of a quad hold, the bytes of the places before do not depend on it.
  lemma StaleTail(q: seq<int>, r: seq<int>, k: nat)
    requires |q| == |r| == 4 && 1 <= k <= 4 && q[..k] == r[..k]
    requires forall i :: 0 <= i < 4 ==> 0 <= q[i] < 64 && 0 <= r[i] < 64
    ensures Triple(q)[..k - 1] == Triple(r)[..k - 1]
  {
  }

  ghost predicate Six(v: seq<int>) {
    forall i :: 0 <= i < |v| ==> 0 <= v[i] < 64
  }

  lemma TakeOne(src: Text, read: nat, taken: seq<int>)
    requires read < |src| && Sextets(src) == taken + Sextets(src[read..]) && Inv(src[read]) != -1
    ensures Sextets(src) == taken + [Inv(src[read])] + Sextets(src[read + 1..])
  {
  }

  lemma TailIs(tail: seq<int>, k: nat)
    requires Six(tail) && |tail| == k && 1 <= k <= 4
    ensures Bytes3(tail) == Triple(tail + seq(4 - k, _ => 0))[..k - 1]
  {
  }

  // A quad filled up to its last letter taken: its bytes follow, stale places or not.
  lemma FlushIs(base: seq<int>, tail: seq<int>, quad: seq<int>)
    requires |quad| == 4 && Six(quad) && Six(base) && Six(tail) && 1 <= |tail| <= 4 && |base| % 4 == 0
    requires quad[..|tail|] == tail
    ensures Bytes3(base + tail) == Bytes3(base) + Triple(quad)[..|tail| - 1]
  {
    hide Triple, Bytes3;
    var k := |tail|;
    Bytes3Join(base, tail);
    TailIs(tail, k);
    StaleTail(quad, tail + seq(4 - k, _ => 0), k);
  }

  // Where the decoder is: `taken` read, all but the last `i` written out, those in the quad buffer.
  ghost predicate Reading(src: Text, read: int, i: int, quad: seq<int>, taken: seq<int>, out: Text) {
    && 0 <= read <= |src| && |taken| == read && Six(taken) && Sextets(src) == taken + Sextets(src[read..])
    && 0 <= i <= 4 && i <= read && (read - i) % 4 == 0 && |quad| == 4 && Six(quad) && quad[..i] == taken[read - i..]
    && out == Bytes3(taken[..read - i])
  }

  lemma ReadOne(src: Text, read: int, i: int, quad: seq<int>, taken: seq<int>, out: Text)
    requires Reading(src, read, i, quad, taken, out) && i < 4 && read < |src| && Inv(src[read]) != -1
    ensures var val := Inv(src[read]); Reading(src, read + 1, i + 1, quad[i := val], taken + [val], out)
  {
    hide Bytes3, Inv;
    var val := Inv(src[read]);
    TakeOne(src, read, taken);
    var quad', taken' := quad[i := val], taken + [val];
    assert quad'[..i + 1] == quad[..i] + [val] == taken'[read - i..];
    assert taken'[..read - i] == taken[..read - i];
  }

  lemma ReadNone(src: Text, quad: seq<int>)
    requires |quad| == 4 && Six(quad)
    ensures Reading(src, 0, 0, quad, [], [])
  {
  }

  lemma Flushed(src: Text, read: int, k: nat, quad: seq<int>, taken: seq<int>, out: Text)
    requires 1 <= k <= 4 && Reading(src, read, k, quad, taken, out) && (k < 4 ==> taken == Sextets(src))
    ensures Six(taken) && Bytes3(taken) == out + Triple(quad)[..k - 1] && |Bytes3(taken)| <= |Bytes3(Sextets(src))|
    ensures k == 4 ==> Reading(src, read, 0, quad, taken, Bytes3(taken))
  {
    hide Bytes3, Triple, Sextets;
    assert taken == taken[..read - k] + taken[read - k..];
    FlushIs(taken[..read - k], taken[read - k..], quad);
    if k == 4 {
      Bytes3Join(taken, Sextets(src[read..]));
      assert taken[..read] == taken && taken[read..] == [];
    }
  }

  // Writes out the bytes of a quad filled up to its k-th place.
  method Flush(dst: array<Byte>, n: nat, quad: array<int>, k: nat, ghost src: Text, ghost read: int, ghost taken: seq<int>)
    requires quad.Length == 4 && n <= dst.Length && 1 <= k <= 4 && Reading(src, read, k, quad[..], taken, dst[..n])
    requires |Bytes3(Sextets(src))| <= dst.Length && (k < 4 ==> taken == Sextets(src))
    modifies dst
    ensures n + k - 1 <= dst.Length && dst[..n + k - 1] == Bytes3(taken)
    ensures k == 4 ==> Reading(src, read, 0, quad[..], taken, dst[..n + k - 1])
  {
    hide Bytes3, Triple, Sextets;
    Flushed(src, read, k, quad[..], taken, dst[..n]);
    hide Reading;
    var bytes := Triple(quad[..]);
    Memcpy(dst, n, bytes[..k - 1]);
    assert dst[..n + k - 1] == dst[..n] + dst[n..n + k - 1];
  }

  lemma ReadingEnds(src: Text, read: int, i: int, quad: seq<int>, taken: seq<int>, out: Text)
    requires Reading(src, read, i, quad, taken, out) && (read == |src| || Inv(src[read]) == -1)
    ensures read >= 0 && taken == Sextets(src) && |taken| == read && (i == 0 ==> out == Bytes3(taken))
  {
  }

  // Decodes up to the first byte that is no letter. The quad buffer is reused and not cleared.
  method Dec(dst: array<Byte>, src: Text) returns (n: nat, read: nat)
    requires |Bytes3(Sextets(src))| <= dst.Length
    modifies dst
    ensures read == |Sextets(src)| && n == |Bytes3(Sextets(src))| && dst[..n] == Bytes3(Sextets(src))
  {
    hide Bytes3, Triple, Inv, Sextets, Reading;
    var quad := new int[4](_ => 0);
    var i := 0;
    n, read := 0, 0;
    ghost var taken: seq<int> := [];
    PadEnds();
    ReadNone(src, quad[..]);
    while read < |src|
      invariant n <= dst.Length && 0 <= i < 4 && fresh(quad) && read <= |src|
      invariant Reading(src, read, i, quad[..], taken, dst[..n])
    {
      var val := Inv(src[read]);
      if src[read] == PAD || val == -1 {
        break;
      }
      ReadOne(src, read, i, quad[..], taken, dst[..n]);
      taken, read := taken + [val], read + 1;
      quad[i] := val;
      i := i + 1;
      if i == 4 {
        Flush(dst, n, quad, 4, src, read, taken);
        n, i := n + 3, 0;
      }
    }
    ReadingEnds(src, read, i, quad[..], taken, dst[..n]);
    if i != 0 {
      Flush(dst, n, quad, i, src, read, taken);
      n := n + i - 1;
    }
  }
}
