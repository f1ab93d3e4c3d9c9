// Zigzag varints: signed integers of 32 or 64 bits, mapped to unsigned ones with the sign in the lowest
// bit, seven bits to a byte.

module Varint {
  import opened Bytes
  import opened Digits
  import opened LittleEndian

  const W32 := 0x1_0000_0000
  const W64 := 0x1_0000_0000_0000_0000

  // A width, given as the number of values, and the most bytes an encoding takes.
  datatype Width = Width(span: int, size: nat, most: nat)

  const INT32 := Width(W32, 4, 5)
  const INT64 := Width(W64, 8, 10)

  ghost predicate IsWidth(w: Width) {
    w == INT32 || w == INT64
  }

  ghost predicate InRange(v: int, w: Width) {
    -w.span <= 2 * v < w.span
  }

  // (n >> 63) ^ (n << 1): the sign mask flips every bit of a negative number's double.
  function ZigZag(v: int, w: Width): (u: int)
    requires w.span > 0
  {
    var doubled := 2 * v % w.span;
    if v < 0 then w.span - 1 - doubled else doubled
  }

  // (n >> 1) ^ -(n & 1), read as signed.
  function UnZigZag(u: int, w: Width): (v: int)
    requires w.span > 0
  {
    var half := if u % 2 == 1 then w.span - 1 - u / 2 else u / 2;
    if 2 * half < w.span then half else half - w.span
  }

  lemma ZigZagRoundTrip(v: int, w: Width)
    requires IsWidth(w) && InRange(v, w)
    ensures 0 <= ZigZag(v, w) < w.span && UnZigZag(ZigZag(v, w), w) == v
  {
    ModUnique(2 * v, w.span, if v < 0 then -1 else 0, if v < 0 then 2 * v + w.span else 2 * v);
  }

  // Zero and above become their doubles, negative values the odd numbers between.
  lemma ZigZagIs(v: int, w: Width)
    requires IsWidth(w) && InRange(v, w)
    ensures ZigZag(v, w) == if v >= 0 then 2 * v else -2 * v - 1
  {
    ModUnique(2 * v, w.span, if v < 0 then -1 else 0, if v < 0 then 2 * v + w.span else 2 * v);
  }

  // Both ways: every unsigned value is the image of the signed one it stands for.
  lemma UnZigZagRoundTrip(u: int, w: Width)
    requires IsWidth(w) && 0 <= u < w.span
    ensures InRange(UnZigZag(u, w), w) && ZigZag(UnZigZag(u, w), w) == u
  {
    var v := UnZigZag(u, w);
    assert v == if u % 2 == 1 then -1 - u / 2 else u / 2;
    ModUnique(2 * v, w.span, if v < 0 then -1 else 0, if v < 0 then 2 * v + w.span else 2 * v);
  }

  // Seven bits to a byte, lowest first; all but the last byte have the top bit set.
  ghost function Groups(u: nat): (s: Text)
    ensures s != []
  {
    if u < 128 then [u] else [u % 128 + 128] + Groups(u / 128)
  }

  lemma GroupsStep(u: nat)
    ensures Groups(u) == if u < 128 then [u] else [u % 128 + 128] + Groups(u / 128)
  {
  }

  function Shift(n: nat): (p: int)
    ensures p >= 1
  {
    if n == 0 then 1 else 128 * Shift(n - 1)
  }

  lemma ShiftDiv(u: nat, k: nat)
    requires k > 0
    ensures u / 128 / Shift(k - 1) == u / Shift(k)
  {
    DivDiv(u, 128, Shift(k - 1));
  }

  // Byte `k` holds the k-th seven bits, with the top bit while others follow.
  lemma {:induction false} GroupsAt(u: nat, k: nat)
    requires k < |Groups(u)|
    ensures Groups(u)[k] == u / Shift(k) % 128 + if k < |Groups(u)| - 1 then 128 else 0
    decreases u
  {
    if u >= 128 && k > 0 {
      hide Shift;
      GroupsAt(u / 128, k - 1);
      ShiftDiv(u, k);
    }
  }

  // No byte is spent on leading zeros.
  lemma {:induction false} GroupsLeast(u: nat)
    ensures |Groups(u)| > 1 ==> u >= Shift(|Groups(u)| - 1)
    ensures u < Shift(|Groups(u)|)
    decreases u
  {
    if u >= 128 {
      GroupsLeast(u / 128);
      DivBounds(u, 128);
    }
  }

  lemma {:induction false} GroupsLength(u: nat, n: nat)
    requires u < Shift(n)
    ensures |Groups(u)| <= if n == 0 then 1 else n
    decreases n
  {
    if n > 0 && u >= 128 {
      GroupsLength(u / 128, n - 1);
    }
  }

  lemma MostBytes(w: Width)
    requires IsWidth(w)
    ensures w.span <= Shift(w.most)
  {
    assert Shift(5) == 128 * (128 * (128 * (128 * (128 * Shift(0)))));
    assert Shift(10) == 128 * (128 * (128 * (128 * (128 * Shift(5)))));
  }

  // What an encoder does to the buffer: the whole encoding in front, or nothing said.
  ghost predicate Encoded(ok: bool, bytes: int, enc: Text, len: int, before: Text, after: Text) {
    && |before| == |after|
    && (ok <==> |enc| <= len)
    && (if ok then bytes == |enc| <= |after| && after[..bytes] == enc && after[bytes..] == before[bytes..] else bytes == 0)
  }

  // Writing one more byte behind those written.
  lemma OneMore(done: Text, before: Text, byte: Byte)
    requires |done| < |before|
    ensures (done + before[|done|..])[|done| := byte] == done + [byte] + before[|done| + 1..]
  {
  }

  method EncodeGroups(u: nat, most: nat, buf: array<Byte>, len: int) returns (ok: bool, bytes: int)
    requires |Groups(u)| <= most && len <= buf.Length
    modifies buf
    ensures Encoded(ok, bytes, Groups(u), len, old(buf[..]), buf[..])
  {
    hide Groups;
    ok, bytes := false, 0;
    if len <= 0 {
      return;
    }
    var val: nat := u;
    var idx := 0;
    ghost var done: Text, before := [], buf[..];
    while true
      invariant 0 <= idx <= len && |done| == idx && Groups(u) == done + Groups(val)
      invariant buf[..] == done + before[idx..]
      decreases val
    {
      if idx >= len || idx >= most {
        return;
      }
      GroupsStep(val);
      OneMore(done, before, if val < 128 then val else val % 128 + 128);
      if val < 128 {
        buf[idx] := val;
        break;
      }
      buf[idx] := val % 128 + 128;
      assert done + ([val % 128 + 128] + Groups(val / 128)) == done + [val % 128 + 128] + Groups(val / 128);
      done := done + [val % 128 + 128];
      idx, val := idx + 1, val / 128;
    }
    ok, bytes := true, idx + 1;
  }

  // Encodes into a buffer of which `len` bytes may be used.
  method Encode(v: int, w: Width, varint: bool, buf: array<Byte>, len: int) returns (ok: bool, bytes: int)
    requires IsWidth(w) && InRange(v, w) && len <= buf.Length
    modifies buf
    ensures Encoded(ok, bytes, if varint then Groups(ZigZag(v, w)) else Put(v, w.size), len, old(buf[..]), buf[..])
  {
    hide Groups, ZigZag;
    if !varint {
      ok, bytes := w.size <= len, 0;
      if ok {
        Memcpy(buf, 0, Put(v, w.size));
        bytes := w.size;
      }
      return;
    }
    ZigZagRoundTrip(v, w);
    MostBytes(w);
    GroupsLength(ZigZag(v, w), w.most);
    ok, bytes := EncodeGroups(ZigZag(v, w), w.most, buf, len);
  }

  // Seven bits shifted into place; what leaves the width is lost.
  function Field(bits: nat, shift: nat, w: Width): (f: int)
    requires w.span > 0
  {
    bits * Shift(shift) % w.span
  }

  lemma FieldFits(bits: nat, shift: nat, w: Width)
    requires 0 <= bits * Shift(shift) < w.span
    ensures Field(bits, shift, w) == bits * Shift(shift)
  {
    ModUnique(bits * Shift(shift), w.span, 0, bits * Shift(shift));
  }

  // The value of the bytes up to the first without the top bit, and how many these are; zero bytes when
  // there is no such byte.
  ghost function Raw(s: Text, shift: nat, w: Width): (r: (int, nat))
    requires w.span > 0
    ensures r.1 <= |s|
    decreases |s|
  {
    if s == [] then (0, 0)
    else if s[0] < 128 then (Field(s[0], shift, w), 1)
    else
      var (v, n) := Raw(s[1..], shift + 1, w);
      if n == 0 then (0, 0) else (Field(s[0] % 128, shift, w) + v, n + 1)
  }

  // The bytes up to and with the first whose top bit is clear; none when there is no such byte.
  lemma {:induction false} RawEnds(s: Text, shift: nat, w: Width)
    requires w.span > 0
    ensures var n := Raw(s, shift, w).1;
      && (n > 0 ==> s[n - 1] < 128 && forall k :: 0 <= k < n - 1 ==> s[k] >= 128)
      && (n == 0 ==> forall k :: 0 <= k < |s| ==> s[k] >= 128)
    decreases |s|
  {
    hide Field;
    if s != [] && s[0] >= 128 {
      RawEnds(s[1..], shift + 1, w);
      assert forall k :: 1 <= k < |s| ==> s[k] == s[1..][k - 1];
    }
  }

  lemma RawStep(byte: Byte, rest: Text, shift: nat, w: Width)
    requires w.span > 0
    ensures Raw([byte] + rest, shift, w) ==
            if byte < 128 then (Field(byte, shift, w), 1)
            else
              var (v, n) := Raw(rest, shift + 1, w);
              if n == 0 then (0, 0) else (Field(byte % 128, shift, w) + v, n + 1)
  {
    assert ([byte] + rest)[1..] == rest;
  }

  lemma ShiftStep(u: nat, shift: nat)
    ensures u % 128 * Shift(shift) + u / 128 * Shift(shift + 1) == u * Shift(shift)
    ensures u % 128 * Shift(shift) <= u * Shift(shift) && u / 128 * Shift(shift + 1) <= u * Shift(shift)
  {
    var p := Shift(shift);
    assert u == 128 * (u / 128) + u % 128;
    assert u / 128 * (128 * p) == 128 * (u / 128) * p;
    assert u % 128 * p >= 0 && u / 128 * (128 * p) >= 0;
  }

  lemma Product(u: nat, p: nat)
    ensures 0 <= u * p
  {
  }

  lemma {:induction false} RawOfGroups(u: nat, shift: nat, w: Width, rest: Text)
    requires u * Shift(shift) < w.span
    ensures Raw(Groups(u) + rest, shift, w) == (u * Shift(shift), |Groups(u)|)
    decreases u
  {
    hide Shift, Field, Raw, Groups;
    ShiftStep(u, shift);
    Product(u, Shift(shift));
    GroupsStep(u);
    if u < 128 {
      FieldFits(u, shift, w);
      RawStep(u, rest, shift, w);
    } else {
      var low, high := u % 128, u / 128;
      Product(low, Shift(shift));
      RawOfGroups(high, shift + 1, w, rest);
      FieldFits(low, shift, w);
      assert (low + 128) % 128 == low;
      assert Groups(u) + rest == [low + 128] + (Groups(high) + rest);
      RawStep(low + 128, Groups(high) + rest, shift, w);
    }
  }

  // What a decoder makes of the bytes it is given.
  ghost predicate Decoded(s: Text, w: Width, varint: bool, ok: bool, v: int, bytes: int)
    requires IsWidth(w)
  {
    if varint then
      var (u, n) := Raw(s, 0, w);
      (ok <==> 0 < n <= w.most + 1) && (ok ==> bytes == n && v == UnZigZag(u, w))
    else (ok <==> w.size <= |s|) && (ok ==> bytes == w.size && v == GetSigned(s[..w.size]))
  }

  // Where the decoder is: `raw` read from the first `idx` bytes, none of them the last.
  ghost predicate Ahead(s: Text, idx: nat, raw: int, w: Width)
    requires w.span > 0 && idx <= |s|
  {
    var (u, n) := Raw(s[idx..], idx, w);
    Raw(s, 0, w) == if n == 0 then (0, 0) else (raw + u, idx + n)
  }

  lemma AheadAtStart(s: Text, w: Width)
    requires w.span > 0
    ensures Ahead(s, 0, 0, w)
  {
    assert s[0..] == s;
  }

  lemma AheadStep(s: Text, idx: nat, raw: int, w: Width)
    requires w.span > 0 && idx < |s| && Ahead(s, idx, raw, w)
    ensures var more := raw + Field(s[idx] % 128, idx, w);
            if s[idx] < 128 then Raw(s, 0, w) == (more, idx + 1)
            else Ahead(s, idx + 1, more, w) && (Raw(s, 0, w).1 == 0 || Raw(s, 0, w).1 > idx + 1)
  {
    hide Field, Raw;
    var byte, rest := s[idx], s[idx + 1..];
    assert s[idx..] == [byte] + rest;
    RawStep(byte, rest, idx, w);
    if byte < 128 {
      assert byte % 128 == byte;
    } else {
      assert Ahead(s, idx + 1, raw + Field(byte % 128, idx, w), w);
    }
  }

  lemma AheadAtEnd(s: Text, idx: nat, raw: int, w: Width)
    requires w.span > 0 && idx == |s| && Ahead(s, idx, raw, w)
    ensures Raw(s, 0, w).1 == 0
  {
  }

  method Decode(s: Text, w: Width, varint: bool) returns (ok: bool, v: int, bytes: int)
    requires IsWidth(w)
    ensures Decoded(s, w, varint, ok, v, bytes)
  {
    ok, v, bytes := false, 0, 0;
    if !varint {
      ok := w.size <= |s|;
      if ok {
        v, bytes := GetSigned(s[..w.size]), w.size;
      }
      return;
    }
    hide Field, UnZigZag, Raw, Ahead;
    var raw, idx := 0, 0;
    AheadAtStart(s, w);
    while idx < |s|
      invariant 0 <= idx <= |s| && idx <= w.most + 1 && Ahead(s, idx, raw, w)
    {
      var byte := s[idx];
      AheadStep(s, idx, raw, w);
      raw := raw + Field(byte % 128, idx, w);
      if byte < 128 {
        ok, v, bytes := idx + 1 <= w.most + 1, UnZigZag(raw, w), idx + 1;
        return;
      }
      if idx >= w.most {
        return;
      }
      idx := idx + 1;
    }
    AheadAtEnd(s, idx, raw, w);
  }

  lemma Spans()
    ensures Span(4) == W32 && Span(8) == W64
  {
    assert Span(4) == 256 * (256 * (256 * (256 * Span(0))));
    assert Span(8) == 256 * (256 * (256 * (256 * Span(4))));
  }

  lemma FixedReadsBack(v: int, w: Width, rest: Text)
    requires IsWidth(w) && InRange(v, w)
    ensures GetSigned((Put(v, w.size) + rest)[..w.size]) == v
  {
    hide Put, GetSigned, Span;
    assert (Put(v, w.size) + rest)[..w.size] == Put(v, w.size);
    Spans();
    SignedRoundTrip(v, w.size);
  }

  lemma GroupsReadBack(u: nat, w: Width, rest: Text)
    requires IsWidth(w) && u < w.span
    ensures Raw(Groups(u) + rest, 0, w) == (u, |Groups(u)|) && |Groups(u)| <= w.most
  {
    hide Groups, Raw;
    RawOfGroups(u, 0, w, rest);
    MostBytes(w);
    GroupsLength(u, w.most);
  }

  // Decoding undoes encoding, whatever bytes follow.
  lemma DecodeOfEncode(v: int, w: Width, varint: bool, rest: Text, ok: bool, v': int, bytes: int)
    requires IsWidth(w) && InRange(v, w)
    requires var enc := if varint then Groups(ZigZag(v, w)) else Put(v, w.size);
             Decoded(enc + rest, w, varint, ok, v', bytes)
    ensures ok && v' == v && bytes == |if varint then Groups(ZigZag(v, w)) else Put(v, w.size)|
  {
    hide Groups, Raw, ZigZag, UnZigZag, Put, GetSigned;
    if varint {
      ZigZagRoundTrip(v, w);
      GroupsReadBack(ZigZag(v, w), w, rest);
    } else {
      FixedReadsBack(v, w, rest);
    }
  }

  lemma {:induction false} ShiftAtLeast(n: nat)
    requires n >= 1
    ensures Shift(n) >= 128
  {
    if n > 1 {
      ShiftAtLeast(n - 1);
    }
  }

  // The number of groups, told from the size of the value.
  lemma {:induction false} GroupsExact(u: nat, n: nat)
    requires n >= 1
    ensures |Groups(u)| <= n <==> u < Shift(n)
    decreases n
  {
    if u >= 128 {
      if n == 1 {
        assert Shift(1) == 128 * Shift(0);
      } else {
        GroupsExact(u / 128, n - 1);
      }
    } else {
      ShiftAtLeast(n);
    }
  }

  lemma Shifts()
    ensures Shift(1) == 0x80 && Shift(2) == 0x4000 && Shift(3) == 0x20_0000 && Shift(4) == 0x1000_0000
    ensures Shift(5) == 0x8_0000_0000 && Shift(6) == 0x400_0000_0000 && Shift(7) == 0x2_0000_0000_0000
    ensures Shift(8) == 0x100_0000_0000_0000 && Shift(9) == 0x8000_0000_0000_0000
  {
    assert Shift(4) == 128 * (128 * (128 * (128 * Shift(0))));
    assert Shift(8) == 128 * (128 * (128 * (128 * Shift(4))));
  }

  // The 32-bit length is the number of bytes the encoder writes.
  method Length32(v: int, varint: bool) returns (n: int)
    requires InRange(v, INT32)
    ensures n == |if varint then Groups(ZigZag(v, INT32)) else Put(v, 4)|
  {
    if !varint {
      n := 4;
      return;
    }
    ZigZagRoundTrip(v, INT32);
    Shifts();
    var val := ZigZag(v, INT32);
    GroupsExact(val, 1);
    GroupsExact(val, 2);
    GroupsExact(val, 3);
    GroupsExact(val, 4);
    MostBytes(INT32);
    GroupsLength(val, 5);
    n := if val / 0x80 == 0 then 1
         else if val / 0x4000 == 0 then 2
         else if val / 0x20_0000 == 0 then 3
         else if val / 0x1000_0000 == 0 then 4
         else 5;
  }

  // The masks of the 64-bit length reach over 48 bits only.
  predicate Clear(val: nat, p: nat)
    requires p > 0
  {
    val / p % 0x1_0000_0000_0000 == 0
  }

  function Ladder64(val: nat): int {
    if Clear(val, 0x80) then 1
    else if Clear(val, 0x4000) then 2
    else if Clear(val, 0x20_0000) then 3
    else if Clear(val, 0x1000_0000) then 4
    else if Clear(val, 0x8_0000_0000) then 5
    else if Clear(val, 0x400_0000_0000) then 6
    else if Clear(val, 0x2_0000_0000_0000) then 7
    else if Clear(val, 0x100_0000_0000_0000) then 8
    else if Clear(val, 0x8000_0000_0000_0000) then 9
    else 10
  }

  lemma GroupsSome(u: nat)
    ensures |Groups(u)| >= 1
  {
  }

  lemma SizeLadder(val: nat)
    requires val < W64
    ensures |Groups(val)| ==
            if val < Shift(1) then 1 else if val < Shift(2) then 2 else if val < Shift(3) then 3
            else if val < Shift(4) then 4 else if val < Shift(5) then 5 else if val < Shift(6) then 6
            else if val < Shift(7) then 7 else if val < Shift(8) then 8 else if val < Shift(9) then 9 else 10
  {
    hide Shift, Groups;
    forall n | 1 <= n <= 9 ensures |Groups(val)| <= n <==> val < Shift(n) {
      GroupsExact(val, n);
    }
    MostBytes(INT64);
    GroupsLength(val, 10);
    GroupsSome(val);
    assert |Groups(val)| <= 10;
  }

  // A mask that reaches up to the top bit of the value.
  lemma Reaches(val: nat, p: nat)
    requires p > 0 && val < p * 0x1_0000_0000_0000
    ensures Clear(val, p) <==> val < p
  {
    DivBounds(val, p);
    if val / p >= 0x1_0000_0000_0000 {
      MulLe(p, 0x1_0000_0000_0000, val / p);
    }
    if val >= p {
      DivMono(p, val, p);
      DivUnique(p, p, 1);
    } else {
      DivUnique(val, p, 0);
    }
  }

  lemma Wide(val: nat)
    requires val < W64
    ensures Clear(val, 0x80) <==> val < 0x80 || (val >= 0x80_0000_0000_0000 && Clear(val, 0x80))
    ensures Clear(val, 0x4000) <==> val < 0x4000 || (val >= 0x4000_0000_0000_0000 && Clear(val, 0x4000))
    ensures Clear(val, 0x20_0000) <==> val < 0x20_0000
    ensures Clear(val, 0x1000_0000) <==> val < 0x1000_0000
    ensures Clear(val, 0x8_0000_0000) <==> val < 0x8_0000_0000
    ensures Clear(val, 0x400_0000_0000) <==> val < 0x400_0000_0000
    ensures Clear(val, 0x2_0000_0000_0000) <==> val < 0x2_0000_0000_0000
    ensures Clear(val, 0x100_0000_0000_0000) <==> val < 0x100_0000_0000_0000
    ensures Clear(val, 0x8000_0000_0000_0000) <==> val < 0x8000_0000_0000_0000
  {
    hide Clear;
    if val < 0x80_0000_0000_0000 {
      Reaches(val, 0x80);
    }
    if val < 0x4000_0000_0000_0000 {
      Reaches(val, 0x4000);
    }
    Reaches(val, 0x20_0000);
    Reaches(val, 0x1000_0000);
    Reaches(val, 0x8_0000_0000);
    Reaches(val, 0x400_0000_0000);
    Reaches(val, 0x2_0000_0000_0000);
    Reaches(val, 0x100_0000_0000_0000);
    Reaches(val, 0x8000_0000_0000_0000);
  }

  // So it agrees with the encoder exactly when no set bit hides above a mask: not for values of 55 bits
  // and more whose bits 7 to 54 are clear, nor for 62 bits and more with bits 14 to 61 clear.
  lemma Ladder64Exact(val: nat)
    requires val < W64
    ensures Ladder64(val) == |Groups(val)| <==>
            && (val >= 0x80_0000_0000_0000 ==> !Clear(val, 0x80))
            && (val >= 0x4000_0000_0000_0000 ==> !Clear(val, 0x4000))
  {
    Shifts();
    SizeLadder(val);
    Wide(val);
  }

  // What the 64-bit length gives, and when it is the number of bytes the encoder writes.
  method Length64(v: int, varint: bool) returns (n: int)
    requires InRange(v, INT64)
    ensures var val := ZigZag(v, INT64);
            && 0 <= val < W64 && n == (if varint then Ladder64(val) else |Put(v, 8)|)
            && (varint ==> (n == |Groups(val)| <==>
                  && (val >= 0x80_0000_0000_0000 ==> !Clear(val, 0x80))
                  && (val >= 0x4000_0000_0000_0000 ==> !Clear(val, 0x4000))))
  {
    hide Groups, Clear, Ladder64, ZigZag;
    ZigZagRoundTrip(v, INT64);
    Ladder64Exact(ZigZag(v, INT64));
    n := if varint then Ladder64(ZigZag(v, INT64)) else 8;
  }

  // An integer whose 64-bit length comes out as one byte although nine are written.
  lemma Length64Fails()
    ensures InRange(0x80_0000_0000_0000, INT64) && Ladder64(ZigZag(0x80_0000_0000_0000, INT64)) == 1
    ensures |Groups(ZigZag(0x80_0000_0000_0000, INT64))| > 1
  {
    var u := ZigZag(0x80_0000_0000_0000, INT64);
    ModUnique(2 * 0x80_0000_0000_0000, W64, 0, 0x100_0000_0000_0000);
    Shifts();
    GroupsExact(u, 1);
  }
}
