// The checked UTF-8 decoder the filter walks its input with, the encoder, and why they fit together.

module Utf8 {
  import opened Bytes

  // The decoder throws on malformed input; `Bad` stands for any of its exceptions.
  datatype Next = Bad | Point(code: int, size: nat)

  predicate ValidPoint(code: int) {
    0 <= code <= 0x10FFFF && !(0xD800 <= code <= 0xDFFF)
  }

  predicate IsTrail(b: Byte) {
    b / 64 == 2
  }

  // Zero for a byte that cannot lead a sequence.
  function SequenceLength(lead: Byte): int {
    if lead < 0x80 then 1
    else if lead / 32 == 0x6 then 2
    else if lead / 16 == 0xE then 3
    else if lead / 8 == 0x1E then 4
    else 0
  }

  predicate IsOverlong(code: int, length: int) {
    if code < 0x80 then length != 1
    else if code < 0x800 then length != 2
    else code < 0x10000 && length != 3
  }

  // Shifts and masks of the source are written as products and remainders.
  function Join(high: int, low: int): (code: int)
    ensures 0 <= low < 0x80 + 64 && low / 64 == 2 ==> code / 64 == high && code % 64 == low - 0x80
  {
    high * 64 + low % 64
  }

  function Assemble(s: Text, length: int): (code: int)
    requires 1 <= length <= 4 && length <= |s|
  {
    var lead: int := s[0];
    if length == 1 then lead
    else if length == 2 then Join(lead % 32, s[1])
    else if length == 3 then Join(Join(lead % 16, s[1]), s[2])
    else Join(Join(Join(lead % 8, s[1]), s[2]), s[3])
  }

  function Decode(s: Text): Next {
    if s == [] then Bad
    else
      var length := SequenceLength(s[0]);
      if length == 0 || |s| < length || exists k | 1 <= k < length :: !IsTrail(s[k]) then Bad
      else
        var code := Assemble(s, length);
        if ValidPoint(code) && !IsOverlong(code, length) then Point(code, length) else Bad
  }

  function Encode(code: int): (s: Text)
    requires ValidPoint(code)
    ensures 1 <= |s| <= 4
  {
    if code < 0x80 then [code]
    else if code < 0x800 then [code / 64 + 0xC0, code % 64 + 0x80]
    else if code < 0x10000 then [code / 64 / 64 + 0xE0, code / 64 % 64 + 0x80, code % 64 + 0x80]
    else [code / 64 / 64 / 64 + 0xF0, code / 64 / 64 % 64 + 0x80, code / 64 % 64 + 0x80, code % 64 + 0x80]
  }

  // The table of section 3 of RFC 3629.
  lemma EncodeIs(code: int)
    requires ValidPoint(code)
    ensures var s := Encode(code);
      && (forall k :: 1 <= k < |s| ==> 0x80 <= s[k] < 0xC0)
      && (code < 0x80 ==> s == [code])
      && (0x80 <= code < 0x800 ==> |s| == 2 && 0xC0 <= s[0] < 0xE0 && code == (s[0] as int - 0xC0) * 64 + (s[1] as int - 0x80))
      && (0x800 <= code < 0x1_0000 ==>
            |s| == 3 && 0xE0 <= s[0] < 0xF0 && code == ((s[0] as int - 0xE0) * 64 + (s[1] as int - 0x80)) * 64 + (s[2] as int - 0x80))
      && (0x1_0000 <= code ==>
            && |s| == 4 && 0xF0 <= s[0] < 0xF8
            && code == (((s[0] as int - 0xF0) * 64 + (s[1] as int - 0x80)) * 64 + (s[2] as int - 0x80)) * 64 + (s[3] as int - 0x80))
  {
  }

  lemma AssembleOfEncode(code: int, s: Text)
    requires ValidPoint(code) && Encode(code) <= s
    ensures Assemble(s, |Encode(code)|) == code
  {
    var e := Encode(code);
    var a, b := code / 64, code / 64 / 64;
    assert s[0] == e[0];
    if |e| == 2 {
      assert s[1] == e[1];
      assert s[0] % 32 == a;
    } else if |e| == 3 {
      assert s[1] == e[1] && s[2] == e[2];
      assert s[0] % 16 == b;
      assert Join(b, s[1]) == a;
    } else if |e| == 4 {
      assert s[1] == e[1] && s[2] == e[2] && s[3] == e[3];
      assert s[0] % 8 == b / 64;
      assert Join(b / 64, s[1]) == b;
      assert Join(b, s[2]) == a;
    }
  }

  lemma DecodeOfEncode(code: int, rest: Text)
    requires ValidPoint(code)
    ensures Decode(Encode(code) + rest) == Point(code, |Encode(code)|)
  {
    hide Join;
    var e := Encode(code);
    var s := e + rest;
    assert s[0] == e[0];
    assert |e| >= 2 ==> s[1] == e[1] && IsTrail(s[1]);
    assert |e| >= 3 ==> s[2] == e[2] && IsTrail(s[2]);
    assert |e| >= 4 ==> s[3] == e[3] && IsTrail(s[3]);
    assert SequenceLength(s[0]) == |e|;
    AssembleOfEncode(code, s);
  }

  lemma EncodeOfDecode(s: Text)
    requires Decode(s).Point?
    ensures ValidPoint(Decode(s).code)
    ensures 0 < Decode(s).size <= |s| && s[..Decode(s).size] == Encode(Decode(s).code)
  {
    hide Join;
    var n := SequenceLength(s[0]);
    var code := Assemble(s, n);
    assert n >= 2 ==> IsTrail(s[1]);
    assert n >= 3 ==> IsTrail(s[2]);
    assert n >= 4 ==> IsTrail(s[3]);
    if n == 2 {
      assert s[..2] == [s[0], s[1]] == Encode(code);
    } else if n == 3 {
      assert s[..3] == [s[0], s[1], s[2]] == Encode(code);
    } else if n == 4 {
      assert s[..4] == [s[0], s[1], s[2], s[3]] == Encode(code);
    }
  }

  // The syntax of section 4 of RFC 3629: no stray or missing trail bytes, nothing overlong, no surrogates, nothing
  // above 0x10FFFF.
  ghost predicate WellFormed(s: Text) {
    && s != []
    && (|| s[0] < 0x80
        || (|s| >= 2 && 0xC2 <= s[0] < 0xE0 && IsTrail(s[1]))
        || (|s| >= 3 && 0xE0 <= s[0] < 0xF0 && IsTrail(s[1]) && IsTrail(s[2])
            && (s[0] == 0xE0 ==> s[1] >= 0xA0) && (s[0] == 0xED ==> s[1] < 0xA0))
        || (|s| >= 4 && 0xF0 <= s[0] <= 0xF4 && IsTrail(s[1]) && IsTrail(s[2]) && IsTrail(s[3])
            && (s[0] == 0xF0 ==> s[1] >= 0x90) && (s[0] == 0xF4 ==> s[1] < 0x90)))
  }

  lemma DecodeIs(s: Text)
    ensures Decode(s).Point? <==> WellFormed(s)
  {
    if s != [] && s[0] >= 0x80 {
      var n := SequenceLength(s[0]);
      if n == 2 && |s| >= 2 && IsTrail(s[1]) {
        assert Assemble(s, 2) == (s[0] as int - 0xC0) * 64 + s[1] as int - 0x80;
      } else if n == 3 && |s| >= 3 && IsTrail(s[1]) && IsTrail(s[2]) {
        assert Assemble(s, 3) == ((s[0] as int - 0xE0) * 64 + s[1] as int - 0x80) * 64 + s[2] as int - 0x80;
      } else if n == 4 && |s| >= 4 && IsTrail(s[1]) && IsTrail(s[2]) && IsTrail(s[3]) {
        assert Assemble(s, 4) ==
               (((s[0] as int - 0xF0) * 64 + s[1] as int - 0x80) * 64 + s[2] as int - 0x80) * 64 + s[3] as int - 0x80;
      }
    }
  }

  // The code points read before the end of the text or its first malformed sequence.
  ghost function Points(s: Text): (codes: seq<int>)
    ensures forall c :: c in codes ==> ValidPoint(c)
    decreases |s|
  {
    match Decode(s)
    case Bad => []
    case Point(code, n) =>
      EncodeOfDecode(s);
      [code] + Points(s[n..])
  }

  ghost predicate AllValid(codes: seq<int>) {
    forall c :: c in codes ==> ValidPoint(c)
  }

  ghost function EncodeAll(codes: seq<int>): Text
    requires AllValid(codes)
  {
    if codes == [] then [] else Encode(codes[0]) + EncodeAll(codes[1..])
  }

  // `Points` inverts `EncodeAll`, so nothing is lost on well-formed text.
  lemma {:induction false} PointsOfEncodeAll(codes: seq<int>)
    requires AllValid(codes)
    ensures Points(EncodeAll(codes)) == codes
  {
    if codes != [] {
      DecodeOfEncode(codes[0], EncodeAll(codes[1..]));
      PointsOfEncodeAll(codes[1..]);
      assert EncodeAll(codes)[|Encode(codes[0])|..] == EncodeAll(codes[1..]);
    }
  }

  // On any text, the points read are those of its longest well-formed prefix.
  lemma {:induction false} PointsAreLongestPrefix(s: Text, codes: seq<int>)
    requires AllValid(codes)
    ensures EncodeAll(codes) <= s <==> codes <= Points(s)
    decreases |s|
  {
    hide Decode, Encode;
    if codes != [] {
      var head, tail := Encode(codes[0]), EncodeAll(codes[1..]);
      if head <= s {
        var n := |head|;
        assert s == head + s[n..];
        DecodeOfEncode(codes[0], s[n..]);
        PointsAreLongestPrefix(s[n..], codes[1..]);
        assert Points(s) == [codes[0]] + Points(s[n..]);
        assert head + tail <= s <==> tail <= s[n..];
        assert codes == [codes[0]] + codes[1..];
      } else if codes <= Points(s) {
        assert codes[0] == Points(s)[0];
        EncodeOfDecode(s);
        assert false;
      }
    }
  }
}
