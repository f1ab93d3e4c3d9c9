// Which code points the filter looks at: letters of ordinary scripts always, symbol blocks never.

module Characters {
  import opened Bytes
  import opened Utf8

  predicate IsLanguageChar(c: int) {
    || 0x0041 <= c <= 0x005A || 0x0061 <= c <= 0x007A
    || 0x4E00 <= c <= 0x9FFF || 0x3400 <= c <= 0x4DBF || 0x20000 <= c <= 0x2A6DF
    || 0x3040 <= c <= 0x309F || 0x30A0 <= c <= 0x30FF || 0xAC00 <= c <= 0xD7AF
    || 0x0400 <= c <= 0x04FF || 0x0370 <= c <= 0x03FF || 0x0600 <= c <= 0x06FF
  }

  predicate IsSymbolChar(c: int) {
    || 0x0000 <= c <= 0x001F || c == 0x007F || 0x0020 <= c <= 0x002F || 0x003A <= c <= 0x0040
    || 0x005B <= c <= 0x0060 || 0x007B <= c <= 0x007E
    || 0xFF00 <= c <= 0xFFEF
    || 0x2600 <= c <= 0x27BF || 0x1F300 <= c <= 0x1F5FF || 0x1F600 <= c <= 0x1F64F
    || 0x1F680 <= c <= 0x1F6FF || 0x1F900 <= c <= 0x1F9FF || 0x1FA00 <= c <= 0x1FAFF
    || 0x2200 <= c <= 0x22FF || 0x2100 <= c <= 0x214F || 0x2500 <= c <= 0x257F || 0x1D400 <= c <= 0x1D7FF
    || 0x2190 <= c <= 0x21FF || 0x2900 <= c <= 0x297F || 0x2B00 <= c <= 0x2BFF
    || 0x2000 <= c <= 0x206F || 0x2300 <= c <= 0x23FF || 0x3200 <= c <= 0x32FF
    || 0x00A0 <= c <= 0x00FF || 0x20A0 <= c <= 0x20CF
    || c == 0x00A9 || c == 0x00AE || c == 0x2122 || c == 0x2605
    || 0x1F3FB <= c <= 0x1F3FF || c == 0xFE0F || c == 0x200D
  }

  predicate IsEmojiSpecial(c: int) {
    !IsLanguageChar(c) && IsSymbolChar(c)
  }

  // Above ASCII the special code points are those of these blocks, and no letters are among them.
  lemma SpecialBlocks(c: int)
    requires c >= 0x80
    ensures IsEmojiSpecial(c) <==>
      || 0xA0 <= c <= 0xFF || 0x2000 <= c <= 0x206F || 0x20A0 <= c <= 0x20CF || 0x2100 <= c <= 0x214F
      || 0x2190 <= c <= 0x23FF || 0x2500 <= c <= 0x257F || 0x2600 <= c <= 0x27BF || 0x2900 <= c <= 0x297F
      || 0x2B00 <= c <= 0x2BFF || 0x3200 <= c <= 0x32FF || c == 0xFE0F || 0xFF00 <= c <= 0xFFEF
      || 0x1D400 <= c <= 0x1D7FF || 0x1F300 <= c <= 0x1F64F || 0x1F680 <= c <= 0x1F6FF || 0x1F900 <= c <= 0x1FAFF
  {
  }

  // Within ASCII they are all but letters and digits.
  lemma SpecialAscii(c: int)
    requires 0 <= c < 0x80
    ensures IsEmojiSpecial(c) <==> !('A' as int <= c <= 'Z' as int || 'a' as int <= c <= 'z' as int || '0' as int <= c <= '9' as int)
  {
  }

  // The fast test for bytes below 0x80 agrees with the general one.
  predicate IsAsciiEmojiSpecial(c: Byte): (special: bool)
    ensures c < 0x80 ==> special == IsEmojiSpecial(c)
  {
    c <= 0x1F || c == 0x7F || 0x20 <= c <= 0x2F || 0x3A <= c <= 0x40 || 0x5B <= c <= 0x60 || 0x7B <= c <= 0x7E
  }

  // The code points that take part in matching.
  ghost function Kept(codes: seq<int>): (kept: seq<int>)
    requires AllValid(codes)
    ensures AllValid(kept)
  {
    if codes == [] then []
    else (if IsEmojiSpecial(codes[0]) then [] else [codes[0]]) + Kept(codes[1..])
  }

  // Text by text, and one by one.
  lemma {:induction false} KeptAppend(a: seq<int>, b: seq<int>)
    requires AllValid(a) && AllValid(b)
    ensures AllValid(a + b) && Kept(a + b) == Kept(a) + Kept(b)
    ensures |a| == 1 ==> Kept(a) == if IsEmojiSpecial(a[0]) then [] else a
  {
    if a == [] {
      assert a + b == b;
    } else {
      assert (a + b)[1..] == a[1..] + b;
      KeptAppend(a[1..], b);
    }
  }

  // What the filter searches: the text without its special characters, up to the first malformed sequence.
  ghost function Searched(text: Text): Text {
    EncodeAll(Kept(Points(text)))
  }

  lemma SearchedStep(text: Text)
    ensures Decode(text).Bad? ==> Searched(text) == []
    ensures Decode(text).Point? ==>
              && 0 < Decode(text).size <= |text|
              && Searched(text) ==
                   (if IsEmojiSpecial(Decode(text).code) then [] else text[..Decode(text).size])
                   + Searched(text[Decode(text).size..])
  {
    if Decode(text).Point? {
      EncodeOfDecode(text);
      var Point(code, n) := Decode(text);
      var rest := Points(text[n..]);
      assert Points(text) == [code] + rest && ([code] + rest)[1..] == rest;
      if !IsEmojiSpecial(code) {
        assert Kept(Points(text)) == [code] + Kept(rest);
        assert ([code] + Kept(rest))[1..] == Kept(rest);
      } else {
        assert Kept(Points(text)) == Kept(rest);
      }
    }
  }

  // For well-formed text, exactly the special code points are dropped.
  lemma SearchedOfValid(codes: seq<int>)
    requires AllValid(codes)
    ensures Searched(EncodeAll(codes)) == EncodeAll(Kept(codes))
  {
    PointsOfEncodeAll(codes);
  }
}
