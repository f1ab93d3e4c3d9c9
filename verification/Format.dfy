// The recursive binary format: what a value of a type looks like on the wire, and what a reader of that
// type makes of arbitrary bytes.

module Format {
  import opened Bytes
  import opened Common
  import opened LittleEndian
  import opened Values

  const TEXT_LIMIT := 102400

  // A type as the serializer sees it. Enumerations are four-byte integers; records are nested pairs; maps
  // are containers of pairs; `Raw` is a floating-point number taken as its bytes and `Blob` an encoded
  // protobuf message.
  datatype Schema =
    | Int(width: nat, signed: bool)
    | Bool
    | Raw(width: nat)
    | Str
    | Blob
    | Unit
    | Pair(first: Schema, second: Schema)
    | Many(elem: Schema, keyed: Keyed)

  // The C++ type system's part: shapes fit, integers are in range, sets and maps are in order and hold
  // nothing twice.
  ghost predicate Typed(schema: Schema, v: Value)
    decreases schema
  {
    match schema
    case Int(w, signed) => v.VInt? && if signed then FitsSigned(v.n, w) else FitsUnsigned(v.n, w)
    case Bool => v.VBool?
    case Raw(w) => v.VBytes? && |v.bytes| == w
    case Str => v.VBytes?
    case Blob => v.VBytes?
    case Unit => v.VUnit?
    case Pair(a, b) => v.VPair? && Typed(a, v.first) && Typed(b, v.second)
    case Many(e, keyed) =>
      && v.VMany? && (forall x :: x in v.items ==> Typed(e, x))
      && Good(keyed) && (keyed.Free? || Ascending(keyed.less, v.items))
  }

  // The lengths the writer accepts.
  ghost predicate Sized(schema: Schema, v: Value)
    requires Typed(schema, v)
    decreases schema
  {
    match schema
    case Str => |v.bytes| <= TEXT_LIMIT
    case Blob => |v.bytes| <= INT_MAX
    case Pair(a, b) => Sized(a, v.first) && Sized(b, v.second)
    case Many(e, _) => |v.items| <= INT_MAX && forall x :: x in v.items ==> Sized(e, x)
    case _ => true
  }

  ghost function Encode(schema: Schema, v: Value): Text
    requires Typed(schema, v)
    decreases schema, 0
  {
    match schema
    case Int(w, _) => Put(v.n, w)
    case Bool => [if v.b then 1 else 0]
    case Raw(_) => v.bytes
    case Str => Put(|v.bytes|, 4) + v.bytes
    case Blob => Put(|v.bytes|, 4) + v.bytes
    case Unit => []
    case Pair(a, b) => Encode(a, v.first) + Encode(b, v.second)
    case Many(e, keyed) => WalkElems(keyed, v.items); Put(|v.items|, 4) + EncodeItems(e, Walk(keyed, v.items))
  }

  ghost function EncodeItems(elem: Schema, items: seq<Value>): Text
    requires forall x :: x in items ==> Typed(elem, x)
    decreases elem, |items| + 1
  {
    if items == [] then [] else Encode(elem, items[0]) + EncodeItems(elem, items[1..])
  }

  lemma EncodeCons(elem: Schema, items: seq<Value>)
    requires forall x :: x in items ==> Typed(elem, x)
    ensures EncodeItems(elem, items) == if items == [] then [] else Encode(elem, items[0]) + EncodeItems(elem, items[1..])
  {
  }

  datatype Read<T> = Fail | Done(value: T, used: nat)

  ghost function DecodeBytes(s: Text, limit: nat): (r: Read<Value>)
    ensures r.Done? ==> r.used <= |s|
  {
    if |s| < 4 then Fail
    else
      var size := GetSigned(s[..4]);
      if size < 0 || size > limit || size > |s| - 4 then Fail else Done(VBytes(s[4..4 + size]), 4 + size)
  }

  ghost function Decode(schema: Schema, s: Text): (r: Read<Value>)
    ensures r.Done? ==> r.used <= |s|
    decreases schema, 1
  {
    match schema
    case Int(w, signed) =>
      if |s| < w then Fail
      else Done(VInt(if signed then GetSigned(s[..w]) else GetUnsigned(s[..w])), w)
    case Bool => if |s| < 1 then Fail else Done(VBool(s[0] != 0), 1)
    case Raw(w) => if |s| < w then Fail else Done(VBytes(s[..w]), w)
    case Str => DecodeBytes(s, TEXT_LIMIT)
    case Blob => DecodeBytes(s, INT_MAX)
    case Unit => Done(VUnit, 0)
    case Pair(a, b) =>
      DecodePair(a, b, s)
    case Many(e, keyed) =>
      if |s| < 4 || GetSigned(s[..4]) < 0 then Fail
      else
        match DecodeItems(e, GetSigned(s[..4]), s[4..])
        case Fail => Fail
        case Done(items, n) => if Distinct(keyed, items) then Done(VMany(Arranged(keyed, items)), 4 + n) else Fail
  }

  ghost function DecodePair(a: Schema, b: Schema, s: Text): (r: Read<Value>)
    ensures r.Done? ==> r.used <= |s|
    decreases Pair(a, b), 0
  {
    match Decode(a, s)
    case Fail => Fail
    case Done(u, n) =>
      match Decode(b, s[n..])
      case Fail => Fail
      case Done(v, m) => Done(VPair(u, v), n + m)
  }

  ghost function DecodeItems(elem: Schema, count: nat, s: Text): (r: Read<seq<Value>>)
    ensures r.Done? ==> r.used <= |s| && |r.value| == count
    decreases elem, count + 2
  {
    if count == 0 then Done([], 0)
    else
      match Decode(elem, s)
      case Fail => Fail
      case Done(v, n) =>
        match DecodeItems(elem, count - 1, s[n..])
        case Fail => Fail
        case Done(rest, m) => Done([v] + rest, n + m)
  }

  // What reading one item and then the others gives.
  lemma DecodeCons(elem: Schema, count: nat, s: Text)
    requires count > 0
    ensures Decode(elem, s).Fail? ==> DecodeItems(elem, count, s).Fail?
    ensures Decode(elem, s).Done? ==>
              var Done(v, n) := Decode(elem, s);
              var rest := DecodeItems(elem, count - 1, s[n..]);
              DecodeItems(elem, count, s) == if rest.Done? then Done([v] + rest.value, n + rest.used) else Fail
  {
    hide Decode;
  }

  lemma GetPrefix(v: int, n: nat, rest: Text)
    ensures FitsSigned(v, n) ==> GetSigned((Put(v, n) + rest)[..n]) == v
    ensures FitsUnsigned(v, n) ==> GetUnsigned((Put(v, n) + rest)[..n]) == v
    ensures (Put(v, n) + rest)[n..] == rest
  {
    assert (Put(v, n) + rest)[..n] == Put(v, n);
    if FitsSigned(v, n) {
      SignedRoundTrip(v, n);
    }
    if FitsUnsigned(v, n) {
      UnsignedRoundTrip(v, n);
    }
  }

  lemma SizeFits(n: nat)
    requires n <= INT_MAX
    ensures FitsSigned(n, 4)
  {
    assert Span(4) == 256 * (256 * (256 * (256 * Span(0))));
  }

  lemma NoItems(elem: Schema, s: Text)
    ensures DecodeItems(elem, 0, s) == Done([], 0) && EncodeItems(elem, []) == []
  {
  }

  lemma BytesRoundTrip(bytes: Text, limit: nat, rest: Text)
    requires |bytes| <= limit <= INT_MAX
    ensures DecodeBytes(Put(|bytes|, 4) + bytes + rest, limit) == Done(VBytes(bytes), 4 + |bytes|)
  {
    hide Put, GetSigned, GetUnsigned, Span;
    var s := Put(|bytes|, 4) + (bytes + rest);
    assert s == Put(|bytes|, 4) + bytes + rest;
    SizeFits(|bytes|);
    GetPrefix(|bytes|, 4, bytes + rest);
    assert s[4..4 + |bytes|] == bytes;
  }

  // What the bytes are: integers lowest byte first, true as 1, texts and containers behind their length in four bytes,
  // items one after another in the order a container iterates in.
  lemma Layout(schema: Schema, v: Value, k: nat)
    requires Typed(schema, v)
    ensures var s := Encode(schema, v);
      match schema
      case Int(w, _) => |s| == w && (v.n >= 0 && k < w ==> s[k] == v.n / Span(k) % 256)
      case Bool => s == [if v.b then 1 else 0]
      case Raw(_) => s == v.bytes
      case Unit => s == []
      case Pair(a, b) => s == Encode(a, v.first) + Encode(b, v.second)
      case Many(e, keyed) =>
        && multiset(Walk(keyed, v.items)) == multiset(v.items)
        && |s| >= 4 && (k < 4 ==> s[k] == |v.items| / Span(k) % 256)
        && (WalkElems(keyed, v.items); s[4..] == EncodeItems(e, Walk(keyed, v.items)))
      case _ => |s| == 4 + |v.bytes| && (k < 4 ==> s[k] == |v.bytes| / Span(k) % 256) && s[4..] == v.bytes
  {
    match schema
    case Int(w, _) =>
      if v.n >= 0 && k < w {
        PutAt(v.n, w, k);
      }
    case Many(_, _) =>
      if k < 4 {
        PutAt(|v.items|, 4, k);
      }
    case Str =>
      if k < 4 {
        PutAt(|v.bytes|, 4, k);
      }
    case Blob =>
      if k < 4 {
        PutAt(|v.bytes|, 4, k);
      }
    case _ =>
  }

  // A text above 102400 bytes is neither written nor read.
  lemma TextLimit(v: Value, s: Text)
    requires v.VBytes?
    ensures Sized(Str, v) <==> |v.bytes| <= 102400
    ensures |s| >= 4 && GetSigned(s[..4]) > 102400 ==> Decode(Str, s).Fail?
  {
  }

  // Reading undoes writing, whatever bytes follow.
  lemma {:induction false} DecodeOfEncode(schema: Schema, v: Value, rest: Text)
    requires Typed(schema, v) && Sized(schema, v)
    ensures Decode(schema, Encode(schema, v) + rest) == Done(v, |Encode(schema, v)|)
    decreases schema, 0
  {
    hide Put, GetSigned, GetUnsigned, Span, DecodeBytes, DecodeItems, EncodeItems, Distinct, Good, Walk, Arranged, Ascending;
    var s := Encode(schema, v) + rest;
    match schema
    case Int(w, signed) =>
      GetPrefix(v.n, w, rest);
    case Bool =>
    case Raw(w) =>
      assert s[..w] == v.bytes;
    case Str =>
      BytesRoundTrip(v.bytes, TEXT_LIMIT, rest);
    case Blob =>
      BytesRoundTrip(v.bytes, INT_MAX, rest);
    case Unit =>
    case Pair(a, b) =>
      var x, y := Encode(a, v.first), Encode(b, v.second);
      assert s == x + (y + rest);
      DecodeOfEncode(a, v.first, y + rest);
      assert s[|x|..] == y + rest;
      DecodeOfEncode(b, v.second, rest);
    case Many(e, keyed) =>
      var walked := Walk(keyed, v.items);
      WalkElems(keyed, v.items);
      var body := EncodeItems(e, walked);
      assert s == Put(|v.items|, 4) + (body + rest);
      SizeFits(|v.items|);
      GetPrefix(|v.items|, 4, body + rest);
      ItemsRoundTrip(e, walked, rest);
      WalkedBack(keyed, v.items);
  }

  lemma {:induction false} ItemsRoundTrip(elem: Schema, items: seq<Value>, rest: Text)
    requires forall x :: x in items ==> Typed(elem, x) && Sized(elem, x)
    ensures DecodeItems(elem, |items|, EncodeItems(elem, items) + rest) == Done(items, |EncodeItems(elem, items)|)
    decreases elem, |items| + 1
  {
    hide Encode, Decode, Typed, Sized, EncodeItems, DecodeItems;
    EncodeCons(elem, items);
    if items == [] {
      NoItems(elem, EncodeItems(elem, items) + rest);
    } else {
      var x, more := Encode(elem, items[0]), EncodeItems(elem, items[1..]);
      ConcatAssoc(x, more, rest);
      DecodeOfEncode(elem, items[0], more + rest);
      assert (x + (more + rest))[|x|..] == more + rest;
      ItemsRoundTrip(elem, items[1..], rest);
      DecodeCons(elem, |items|, x + (more + rest));
      assert items == [items[0]] + items[1..];
    }
  }

  // The comparisons of a type's containers are what the standard library demands.
  ghost predicate Sound(schema: Schema) {
    match schema
    case Pair(a, b) => Sound(a) && Sound(b)
    case Many(e, keyed) => Sound(e) && Good(keyed)
    case _ => true
  }

  lemma SizeBound(s: Text)
    requires |s| == 4
    ensures GetSigned(s) <= INT_MAX
  {
    assert Span(4) == 256 * (256 * (256 * (256 * Span(0))));
  }

  // Whatever a reader accepts is a value of its type that the writer accepts too.
  lemma {:induction false} DecodedIsSound(schema: Schema, s: Text)
    requires Decode(schema, s).Done? && Sound(schema)
    ensures Typed(schema, Decode(schema, s).value) && Sized(schema, Decode(schema, s).value)
    decreases schema, 0
  {
    hide Put, GetSigned, GetUnsigned, Span, Distinct, Good, Sort, Ascending;
    match schema
    case Pair(a, b) =>
      assert DecodePair(a, b, s).Done?;
      DecodedIsSound(a, s);
      DecodedIsSound(b, s[Decode(a, s).used..]);
    case Many(e, keyed) =>
      SizeBound(s[..4]);
      DecodedItemsAreSound(e, GetSigned(s[..4]), s[4..]);
      ArrangedIsKept(keyed, DecodeItems(e, GetSigned(s[..4]), s[4..]).value);
    case _ =>
  }

  lemma {:induction false} DecodedItemsAreSound(elem: Schema, count: nat, s: Text)
    requires DecodeItems(elem, count, s).Done? && Sound(elem)
    ensures forall x :: x in DecodeItems(elem, count, s).value ==> Typed(elem, x) && Sized(elem, x)
    decreases elem, count + 1
  {
    hide Decode, Typed, Sized;
    if count > 0 {
      DecodedIsSound(elem, s);
      var Done(v, n) := Decode(elem, s);
      DecodedItemsAreSound(elem, count - 1, s[n..]);
    }
  }

  // Bytes a writer could have written: booleans are 0 or 1, sets and maps ascend, hashed containers stand in
  // their iteration order.
  ghost predicate Canonical(schema: Schema, s: Text)
    requires Decode(schema, s).Done?
    decreases schema, 0
  {
    match schema
    case Bool => s[0] <= 1
    case Pair(a, b) =>
      assert DecodePair(a, b, s).Done?;
      Canonical(a, s) && Canonical(b, s[Decode(a, s).used..])
    case Many(e, keyed) =>
      var count := GetSigned(s[..4]);
      CanonicalItems(e, count, s[4..]) && InOrder(keyed, DecodeItems(e, count, s[4..]).value)
    case _ => true
  }

  ghost predicate CanonicalItems(elem: Schema, count: nat, s: Text)
    requires DecodeItems(elem, count, s).Done?
    decreases elem, count + 1
  {
    count == 0 || (Canonical(elem, s) && CanonicalItems(elem, count - 1, s[Decode(elem, s).used..]))
  }

  lemma BytesUnique(s: Text)
    requires |s| >= 4 && 0 <= GetSigned(s[..4]) <= |s| - 4
    ensures var size := GetSigned(s[..4]); Put(size, 4) + s[4..4 + size] == s[..4 + size]
  {
    hide Put, GetSigned;
    PutOfSigned(s[..4]);
  }

  // A type that is neither a pair nor a container.
  lemma LeafUnique(schema: Schema, s: Text)
    requires Decode(schema, s).Done? && !schema.Pair? && !schema.Many?
    ensures Typed(schema, Decode(schema, s).value)
    ensures s[..Decode(schema, s).used] == Encode(schema, Decode(schema, s).value) <==> Canonical(schema, s)
  {
    hide Put, GetSigned, GetUnsigned, Span;
    match schema
    case Int(w, signed) =>
      if signed {
        PutOfSigned(s[..w]);
      } else {
        PutOfUnsigned(s[..w]);
      }
    case Str =>
      BytesUnique(s);
    case Blob =>
      BytesUnique(s);
    case _ =>
  }

  // A pair is canonical when both parts are.
  lemma PairParts(a: Schema, b: Schema, s: Text)
    requires Decode(Pair(a, b), s).Done?
    ensures Decode(a, s).Done? && Decode(b, s[Decode(a, s).used..]).Done?
    ensures var Done(u, m) := Decode(a, s);
            var Done(v, k) := Decode(b, s[m..]);
            && Decode(Pair(a, b), s) == Done(VPair(u, v), m + k)
            && (Canonical(Pair(a, b), s) <==> Canonical(a, s) && Canonical(b, s[m..]))
  {
    assert DecodePair(a, b, s).Done?;
  }

  // A text that begins with the encoding of the value read from it, and goes on with `more`.
  lemma SplitUnique(schema: Schema, s: Text, n: nat, more: Text)
    requires Decode(schema, s).Done? && Decode(schema, s).used <= n <= |s|
    requires Typed(schema, Decode(schema, s).value) && Sized(schema, Decode(schema, s).value)
    ensures var Done(v, m) := Decode(schema, s);
            s[..n] == Encode(schema, v) + more <==> s[..m] == Encode(schema, v) && s[m..][..n - m] == more
  {
    hide Decode, Encode, Typed, Sized;
    var Done(v, m) := Decode(schema, s);
    var x := Encode(schema, v);
    if s[..n] == x + more {
      assert s == x + (more + s[n..]);
      DecodeOfEncode(schema, v, more + s[n..]);
    }
    assert s[..n] == s[..m] + s[m..][..n - m];
  }

  lemma EncodePair(a: Schema, b: Schema, u: Value, v: Value)
    requires Typed(a, u) && Typed(b, v)
    ensures Typed(Pair(a, b), VPair(u, v)) && Encode(Pair(a, b), VPair(u, v)) == Encode(a, u) + Encode(b, v)
  {
  }

  lemma PairUnique(a: Schema, b: Schema, s: Text)
    requires Decode(Pair(a, b), s).Done? && Decode(a, s).Done? && Decode(b, s[Decode(a, s).used..]).Done?
    requires var Done(u, m) := Decode(a, s);
             var Done(v, k) := Decode(b, s[m..]);
             && Typed(a, u) && Sized(a, u) && Typed(b, v)
             && (s[..m] == Encode(a, u) <==> Canonical(a, s)) && (s[m..][..k] == Encode(b, v) <==> Canonical(b, s[m..]))
    ensures var Done(v, n) := Decode(Pair(a, b), s);
            Typed(Pair(a, b), v) && (s[..n] == Encode(Pair(a, b), v) <==> Canonical(Pair(a, b), s))
  {
    PairParts(a, b, s);
    hide Decode, Encode, Sized, Canonical, Typed;
    var Done(u, m) := Decode(a, s);
    var Done(v, k) := Decode(b, s[m..]);
    EncodePair(a, b, u, v);
    SplitUnique(a, s, m + k, Encode(b, v));
  }

  // What was read is written back as the same bytes exactly when these are canonical.
  lemma {:induction false} EncodeOfDecode(schema: Schema, s: Text)
    requires Decode(schema, s).Done? && Sound(schema)
    ensures Typed(schema, Decode(schema, s).value)
    ensures s[..Decode(schema, s).used] == Encode(schema, Decode(schema, s).value) <==> Canonical(schema, s)
    decreases schema, 1
  {
    hide Decode, Encode, Canonical, Typed, Sized;
    match schema
    case Pair(a, b) =>
      PairParts(a, b, s);
      EncodeOfDecode(a, s);
      EncodeOfDecode(b, s[Decode(a, s).used..]);
      DecodedIsSound(a, s);
      PairUnique(a, b, s);
    case Many(e, keyed) =>
      ManyUnique(e, keyed, s);
    case _ =>
      LeafUnique(schema, s);
  }

  lemma ConsParts(v: Value, rest: seq<Value>)
    ensures ([v] + rest)[0] == v && ([v] + rest)[1..] == rest
  {
  }

  // A container of items is canonical when each item is.
  lemma ItemsParts(elem: Schema, count: nat, s: Text)
    requires count > 0 && DecodeItems(elem, count, s).Done?
    ensures Decode(elem, s).Done?
    ensures var Done(v, n) := Decode(elem, s);
            && DecodeItems(elem, count - 1, s[n..]).Done?
            && DecodeItems(elem, count, s).used == n + DecodeItems(elem, count - 1, s[n..]).used
            && DecodeItems(elem, count, s).value == [v] + DecodeItems(elem, count - 1, s[n..]).value
            && (CanonicalItems(elem, count, s) <==> Canonical(elem, s) && CanonicalItems(elem, count - 1, s[n..]))
  {
    hide Decode, Canonical;
  }

  lemma NoneCanonical(elem: Schema, s: Text)
    requires DecodeItems(elem, 0, s).Done?
    ensures CanonicalItems(elem, 0, s)
  {
  }

  lemma {:induction false} ItemsUnique(elem: Schema, count: nat, s: Text)
    requires DecodeItems(elem, count, s).Done? && Sound(elem)
    ensures var r := DecodeItems(elem, count, s);
            && (forall x :: x in r.value ==> Typed(elem, x))
            && (s[..r.used] == EncodeItems(elem, r.value) <==> CanonicalItems(elem, count, s))
    decreases elem, count + 1
  {
    hide Decode, Typed, Encode, Sized, Sound, Canonical, DecodeItems, EncodeItems, CanonicalItems;
    if count == 0 {
      NoItems(elem, s);
      NoneCanonical(elem, s);
    } else {
      ItemsParts(elem, count, s);
      EncodeOfDecode(elem, s);
      DecodedIsSound(elem, s);
      var Done(v, n) := Decode(elem, s);
      ItemsUnique(elem, count - 1, s[n..]);
      var Done(rest, m) := DecodeItems(elem, count - 1, s[n..]);
      ConsParts(v, rest);
      EncodeCons(elem, [v] + rest);
      SplitUnique(elem, s, n + m, EncodeItems(elem, rest));
    }
  }

  lemma {:induction false} ManyUnique(elem: Schema, keyed: Keyed, s: Text)
    requires Decode(Many(elem, keyed), s).Done? && Sound(Many(elem, keyed))
    ensures var Done(v, n) := Decode(Many(elem, keyed), s);
            Typed(Many(elem, keyed), v) && (s[..n] == Encode(Many(elem, keyed), v) <==> Canonical(Many(elem, keyed), s))
    decreases Many(elem, keyed), 0
  {
    hide Put, GetSigned, GetUnsigned, Span, DecodeItems, EncodeItems, CanonicalItems, Distinct, Good, Walk, Arranged, InOrder;
    DecodedIsSound(Many(elem, keyed), s);
    var count := GetSigned(s[..4]);
    var Done(items, n) := DecodeItems(elem, count, s[4..]);
    var walked := Walk(keyed, Arranged(keyed, items));
    ItemsUnique(elem, count, s[4..]);
    DecodedItemsAreSound(elem, count, s[4..]);
    ArrangedIsKept(keyed, items);
    WalkElems(keyed, Arranged(keyed, items));
    InOrderIff(keyed, items);
    PutOfSigned(s[..4]);
    assert s[..4 + n] == s[..4] + s[4..][..n];
    if s[4..][..n] == EncodeItems(elem, walked) {
      assert s[4..] == EncodeItems(elem, walked) + s[4 + n..];
      ItemsRoundTrip(elem, walked, s[4 + n..]);
    }
  }

  // A type without booleans and keyed containers: every value has one encoding.
  predicate Plain(schema: Schema) {
    match schema
    case Bool => false
    case Pair(a, b) => Plain(a) && Plain(b)
    case Many(e, keyed) => Plain(e) && keyed.Free?
    case _ => true
  }

  lemma {:induction false} PlainIsCanonical(schema: Schema, s: Text)
    requires Decode(schema, s).Done? && Plain(schema)
    ensures Canonical(schema, s)
    decreases schema, 0
  {
    match schema
    case Pair(a, b) =>
      PlainIsCanonical(a, s);
      PlainIsCanonical(b, s[Decode(a, s).used..]);
    case Many(e, _) =>
      PlainItemsAreCanonical(e, GetSigned(s[..4]), s[4..]);
    case _ =>
  }

  lemma {:induction false} PlainItemsAreCanonical(elem: Schema, count: nat, s: Text)
    requires DecodeItems(elem, count, s).Done? && Plain(elem)
    ensures CanonicalItems(elem, count, s)
    decreases elem, count + 1
  {
    if count > 0 {
      PlainIsCanonical(elem, s);
      PlainItemsAreCanonical(elem, count - 1, s[Decode(elem, s).used..]);
    }
  }

  // Every byte but zero reads as true, and only one of them is what a writer puts there.
  lemma BoolHasManyEncodings(b: Byte, rest: Text)
    ensures Decode(Bool, [b] + rest) == Done(VBool(b != 0), 1)
    ensures [b] == Encode(Bool, VBool(b != 0)) <==> b <= 1
  {
  }

  lemma SortOne(less: (Value, Value) -> bool, x: Value)
    ensures Sort(less, [x]) == [x]
  {
    assert [x][..0] == [];
  }

  lemma SortTwo(less: (Value, Value) -> bool, x: Value, y: Value)
    requires WeakOrder(less) && less(x, y)
    ensures x != y && !less(y, x) && Sort(less, [x, y]) == Sort(less, [y, x]) == [x, y]
    ensures Distinct(Ordered(less), [x, y]) && Distinct(Ordered(less), [y, x]) && Ascending(less, [x, y])
  {
    assert less(y, x) ==> less(y, y);
    assert [x, y][..1] == [x] && [y, x][..1] == [y];
    SortOne(less, x);
    SortOne(less, y);
  }

  lemma ReadsAs(elem: Schema, less: (Value, Value) -> bool, items: seq<Value>, v: Value)
    requires |items| == 2 && forall x :: x in items ==> Typed(elem, x) && Sized(elem, x)
    requires Distinct(Ordered(less), items) && v == VMany(Sort(less, items))
    ensures var s := Put(2, 4) + EncodeItems(elem, items); Decode(Many(elem, Ordered(less)), s) == Done(v, |s|)
  {
    hide Put, GetSigned, Span, DecodeItems, EncodeItems, Sort;
    SizeFits(2);
    GetPrefix(2, 4, EncodeItems(elem, items));
    ItemsRoundTrip(elem, items, []);
    assert EncodeItems(elem, items) + [] == EncodeItems(elem, items);
  }

  lemma EncodeSet(elem: Schema, less: (Value, Value) -> bool, items: seq<Value>)
    requires WeakOrder(less) && Ascending(less, items) && forall x :: x in items ==> Typed(elem, x)
    ensures var schema := Many(elem, Ordered(less));
            && Typed(schema, VMany(items)) && Encode(schema, VMany(items)) == Put(|items|, 4) + EncodeItems(elem, items)
  {
  }

  lemma OrdersDiffer(elem: Schema, x: Value, y: Value)
    requires x != y && Typed(elem, x) && Typed(elem, y) && Sized(elem, x) && Sized(elem, y)
    ensures Put(2, 4) + EncodeItems(elem, [x, y]) != Put(2, 4) + EncodeItems(elem, [y, x])
  {
    hide Put, Encode, Typed, Sized, EncodeItems, DecodeItems;
    var up, down := EncodeItems(elem, [x, y]), EncodeItems(elem, [y, x]);
    assert [x, y] != [y, x] by {
      assert [x, y][0] != [y, x][0];
    }
    ItemsRoundTrip(elem, [x, y], []);
    ItemsRoundTrip(elem, [y, x], []);
    assert (Put(2, 4) + up)[4..] == up && (Put(2, 4) + down)[4..] == down;
  }

  // Two items of a set in either order on the wire: the same set is read, and written back in one order.
  lemma SetHasManyEncodings(elem: Schema, less: (Value, Value) -> bool, x: Value, y: Value)
    requires WeakOrder(less) && less(x, y) && Typed(elem, x) && Typed(elem, y) && Sized(elem, x) && Sized(elem, y)
    ensures var schema, v := Many(elem, Ordered(less)), VMany([x, y]);
            var up, down := Put(2, 4) + EncodeItems(elem, [x, y]), Put(2, 4) + EncodeItems(elem, [y, x]);
            && Typed(schema, v) && Encode(schema, v) == up != down
            && Decode(schema, up) == Done(v, |up|) && Decode(schema, down) == Done(v, |down|)
  {
    SortTwo(less, x, y);
    EncodeSet(elem, less, [x, y]);
    hide WeakOrder, Sort, Put, EncodeItems, Decode, Typed, Encode, Distinct, Ascending, Sized;
    ReadsAs(elem, less, [x, y], VMany([x, y]));
    ReadsAs(elem, less, [y, x], VMany([x, y]));
    OrdersDiffer(elem, x, y);
  }
}
