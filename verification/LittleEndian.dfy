// Fixed-width integers as little-endian bytes, the byte order of the wire.

module LittleEndian {
  import opened Bytes
  import opened Digits

  // 256 to the power n.
  function Span(n: nat): (p: int)
    ensures p >= 1
  {
    if n == 0 then 1 else 256 * Span(n - 1)
  }

  predicate FitsSigned(v: int, n: nat) {
    -Span(n) <= 2 * v < Span(n)
  }

  predicate FitsUnsigned(v: int, n: nat) {
    0 <= v < Span(n)
  }

  // The n low bytes of v, in two's complement, lowest first.
  function Put(v: int, n: nat): (s: Text)
    ensures |s| == n
    decreases n
  {
    if n == 0 then [] else [v % 256] + Put(v / 256, n - 1)
  }

  function GetUnsigned(s: Text): (v: int)
    ensures 0 <= v < Span(|s|)
  {
    if s == [] then 0 else s[0] + 256 * GetUnsigned(s[1..])
  }

  function GetSigned(s: Text): (v: int)
    ensures FitsSigned(v, |s|)
  {
    var u := GetUnsigned(s);
    if 2 * u < Span(|s|) then u else u - Span(|s|)
  }

  // Byte `k` of a number is its k-th digit to the base 256.
  lemma {:induction false} PutAt(v: nat, n: nat, k: nat)
    requires k < n
    ensures Put(v, n)[k] == v / Span(k) % 256
    decreases k
  {
    if k > 0 {
      PutAt(v / 256, n - 1, k - 1);
      DivDiv(v, 256, Span(k - 1));
    }
  }

  // What `Put` cuts off above the n bytes.
  ghost function Overflow(v: int, n: nat): int
    decreases n
  {
    if n == 0 then v else Overflow(v / 256, n - 1)
  }

  lemma SpanTimes(n: nat, k: int)
    requires n > 0
    ensures Span(n) * k == 256 * (Span(n - 1) * k)
  {
  }

  lemma {:induction false} GetOfPut(v: int, n: nat)
    ensures v == GetUnsigned(Put(v, n)) + Span(n) * Overflow(v, n)
    decreases n
  {
    if n > 0 {
      var low: Byte := v % 256;
      GetOfPut(v / 256, n - 1);
      SpanTimes(n, Overflow(v / 256, n - 1));
      assert Put(v, n) == [low] + Put(v / 256, n - 1);
      assert Put(v, n)[1..] == Put(v / 256, n - 1);
    }
  }

  lemma Multiple(m: int, k: int)
    requires m >= 1
    ensures k >= 1 ==> m * k >= m
    ensures k <= -1 ==> m * k <= -m
  {
    if k >= 1 {
      assert m * (k - 1) >= 0;
    } else if k <= -1 {
      assert m * (-1 - k) >= 0;
    }
  }

  // Two numbers of one window of width m that differ by a multiple of m are equal.
  lemma SameWindow(u: int, v: int, m: int, k: int)
    requires m >= 1 && v == u + m * k && -m < u - v < m
    ensures k == 0 && u == v
  {
    Multiple(m, k);
  }

  lemma UnsignedRoundTrip(v: int, n: nat)
    requires FitsUnsigned(v, n)
    ensures GetUnsigned(Put(v, n)) == v
  {
  }

  lemma SignedRoundTrip(v: int, n: nat)
    requires FitsSigned(v, n)
    ensures GetSigned(Put(v, n)) == v
  {
    GetOfPut(v, n);
    hide Put, GetUnsigned, Overflow, Span;
    var w, k := GetSigned(Put(v, n)), Overflow(v, n);
    if w == GetUnsigned(Put(v, n)) {
      SameWindow(w, v, Span(n), k);
    } else {
      assert Span(n) * (k + 1) == Span(n) * k + Span(n);
      SameWindow(w, v, Span(n), k + 1);
    }
  }

  lemma Digit(low: int, u: int)
    requires 0 <= low < 256
    ensures (low + 256 * u) % 256 == low && (low + 256 * u) / 256 == u
  {
  }

  // `Put` gives back the bytes that were read.
  lemma {:induction false} PutOfUnsigned(s: Text)
    ensures Put(GetUnsigned(s), |s|) == s
  {
    if s != [] {
      PutOfUnsigned(s[1..]);
      Digit(s[0], GetUnsigned(s[1..]));
      assert s == [s[0]] + s[1..];
    }
  }

  lemma {:induction false} PutShifted(v: int, k: int, n: nat)
    ensures Put(v + Span(n) * k, n) == Put(v, n)
    decreases n
  {
    if n > 0 {
      var t := Span(n - 1) * k;
      SpanTimes(n, k);
      Digit(v % 256, v / 256 + t);
      PutShifted(v / 256, k, n - 1);
    }
  }

  // A negative number is written as its complement to 256^n.
  lemma PutNegative(v: int, n: nat)
    requires FitsSigned(v, n) && v < 0
    ensures v + Span(n) >= 0 && Put(v, n) == Put(v + Span(n), n)
  {
    PutShifted(v, 1, n);
  }

  lemma PutOfSigned(s: Text)
    ensures Put(GetSigned(s), |s|) == s
  {
    hide Put, GetUnsigned, Span;
    PutOfUnsigned(s);
    PutShifted(GetUnsigned(s), -1, |s|);
    assert Span(|s|) * -1 == -Span(|s|);
  }
}
