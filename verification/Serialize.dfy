// The serializer: a size counter, a writer over a buffer and a reader, each a cursor moved step by step.

module Serialize {
  import opened Bytes
  import opened Common
  import opened Format
  import opened LittleEndian
  import opened Values

  lemma {:induction false} ItemsJoin(elem: Schema, a: seq<Value>, b: seq<Value>)
    requires (forall x :: x in a ==> Typed(elem, x)) && forall x :: x in b ==> Typed(elem, x)
    ensures EncodeItems(elem, a + b) == EncodeItems(elem, a) + EncodeItems(elem, b)
    decreases |a|
  {
    hide Encode, Typed, EncodeItems;
    EncodeCons(elem, a);
    if a == [] {
      assert a + b == b;
    } else {
      EncodeCons(elem, a + b);
      assert (a + b)[1..] == a[1..] + b;
      ItemsJoin(elem, a[1..], b);
      ConcatAssoc(Encode(elem, a[0]), EncodeItems(elem, a[1..]), EncodeItems(elem, b));
    }
  }

  lemma EncodeOne(elem: Schema, x: Value)
    requires Typed(elem, x)
    ensures EncodeItems(elem, [x]) == Encode(elem, x)
  {
    assert [x][1..] == [];
  }

  // The encoding of a container, cut around one of its items.
  lemma ItemsSplit(elem: Schema, items: seq<Value>, i: nat)
    requires i < |items| && forall x :: x in items ==> Typed(elem, x)
    ensures EncodeItems(elem, items[..i + 1]) == EncodeItems(elem, items[..i]) + Encode(elem, items[i])
    ensures EncodeItems(elem, items) == EncodeItems(elem, items[..i + 1]) + EncodeItems(elem, items[i + 1..])
  {
    hide Encode, Typed, EncodeItems;
    assert items[..i + 1] == items[..i] + [items[i]];
    ItemsJoin(elem, items[..i], [items[i]]);
    EncodeOne(elem, items[i]);
    assert items == items[..i + 1] + items[i + 1..];
    ItemsJoin(elem, items[..i + 1], items[i + 1..]);
  }

  // `serialize_byte`: how many bytes the writer would need.
  class Counter {
    var pos: int

    constructor ()
      ensures pos == 0
    {
      pos := 0;
    }

    method MovePos(bytes: int)
      modifies this
      ensures pos == old(pos) + bytes
    {
      pos := pos + bytes;
    }

    method Count(schema: Schema, v: Value)
      requires Typed(schema, v)
      modifies this
      ensures pos == old(pos) + |Encode(schema, v)|
      decreases schema, 0
    {
      match schema
      case Int(w, _) =>
        MovePos(w);
      case Bool =>
        MovePos(1);
      case Raw(w) =>
        MovePos(w);
      case Str =>
        MovePos(4);
        MovePos(|v.bytes|);
      case Blob =>
        MovePos(4);
        MovePos(|v.bytes|);
      case Unit =>
      case Pair(a, b) =>
        Count(a, v.first);
        Count(b, v.second);
      case Many(e, keyed) =>
        var items := Walk(keyed, v.items);
        WalkElems(keyed, v.items);
        MovePos(4);
        for i := 0 to |items|
          invariant pos == old(pos) + 4 + |EncodeItems(e, items[..i])|
        {
          ItemsSplit(e, items, i);
          Count(e, items[i]);
        }
        assert items[..|items|] == items;
    }
  }

  // What a write of `bytes` at cursor `p` does to the buffer and the cursor: all of them, or nothing; what
  // lies before the cursor or past the end of the span is kept, and on success all that lies behind what
  // was written. `fits` says whether the lengths are acceptable at all.
  ghost predicate Written(before: Text, after: Text, len: int, p: int, q: int, ok: bool, fits: bool, bytes: Text) {
    && 0 <= p <= len <= |before| && |after| == |before|
    && (ok <==> fits && |bytes| <= len - p)
    && q == (if ok then p + |bytes| else p)
    && (ok ==> forall i {:trigger bytes[i]} :: 0 <= i < |bytes| ==> after[p + i] == bytes[i])
    && (forall i {:trigger after[i]} ::
          0 <= i < |after| && (i < p || len <= i || (ok && q <= i)) ==> after[i] == before[i])
  }

  // One write behind another; the cursor is put back to `p` when the second fails.
  lemma Then(b0: Text, b1: Text, b2: Text, len: int, p: int, q: int, r: int, ok: bool, f: bool, g: bool, x: Text, y: Text)
    requires Written(b0, b1, len, p, q, true, f, x) && Written(b1, b2, len, q, r, ok, g, y)
    ensures Written(b0, b2, len, p, if ok then r else p, ok, f && g, x + y)
  {
  }

  lemma Stopped(b0: Text, b1: Text, len: int, p: int, q: int, f: bool, g: bool, x: Text, y: Text)
    requires Written(b0, b1, len, p, q, false, f, x)
    ensures Written(b0, b1, len, p, q, false, f && g, x + y)
  {
  }

  ghost predicate AllSized(elem: Schema, items: seq<Value>)
    requires forall x :: x in items ==> Typed(elem, x)
  {
    forall x :: x in items ==> Sized(elem, x)
  }

  lemma AllSizedSplit(elem: Schema, items: seq<Value>, i: nat)
    requires i < |items| && forall x :: x in items ==> Typed(elem, x)
    ensures AllSized(elem, items[..i + 1]) <==> AllSized(elem, items[..i]) && Sized(elem, items[i])
    ensures AllSized(elem, items) <==> AllSized(elem, items[..i + 1]) && AllSized(elem, items[i + 1..])
  {
  }

  // The encoding of a container up to its item `i`.
  ghost function Front(elem: Schema, items: seq<Value>, i: nat): Text
    requires i <= |items| && forall x :: x in items ==> Typed(elem, x)
  {
    Put(|items|, 4) + EncodeItems(elem, items[..i])
  }

  lemma FrontStart(elem: Schema, items: seq<Value>)
    requires forall x :: x in items ==> Typed(elem, x)
    ensures Front(elem, items, 0) == Put(|items|, 4) && AllSized(elem, items[..0])
  {
    hide Typed, Sized, Encode, Put;
  }

  lemma FrontStep(elem: Schema, items: seq<Value>, i: nat)
    requires i < |items| && forall x :: x in items ==> Typed(elem, x)
    ensures Front(elem, items, i + 1) == Front(elem, items, i) + Encode(elem, items[i])
    ensures Put(|items|, 4) + EncodeItems(elem, items) ==
            Front(elem, items, i) + Encode(elem, items[i]) + EncodeItems(elem, items[i + 1..])
    ensures AllSized(elem, items[..i + 1]) <==> AllSized(elem, items[..i]) && Sized(elem, items[i])
    ensures AllSized(elem, items) <==> AllSized(elem, items[..i]) && Sized(elem, items[i]) && AllSized(elem, items[i + 1..])
  {
    hide Typed, Sized, Encode, EncodeItems, Put, AllSized;
    ItemsSplit(elem, items, i);
    AllSizedSplit(elem, items, i);
    ConcatAssoc(Put(|items|, 4), EncodeItems(elem, items[..i]), Encode(elem, items[i]));
    ConcatAssoc(Put(|items|, 4), EncodeItems(elem, items[..i + 1]), EncodeItems(elem, items[i + 1..]));
  }

  lemma FrontEnd(elem: Schema, items: seq<Value>)
    requires forall x :: x in items ==> Typed(elem, x)
    ensures Front(elem, items, |items|) == Put(|items|, 4) + EncodeItems(elem, items)
  {
    hide Typed, Sized, Encode, EncodeItems, Put;
    assert items[..|items|] == items;
  }

  lemma Refused(buff: Text, len: int, p: int, bytes: Text)
    requires 0 <= p <= len <= |buff|
    ensures Written(buff, buff, len, p, p, false, false, bytes)
  {
  }

  // `serialize_push`.
  class Writer {
    const buff: array<Byte>
    const len: int
    var pos: int

    ghost predicate Valid()
      reads this
    {
      0 <= pos <= len <= buff.Length
    }

    ghost function Image(): (s: Text)
      reads buff
      ensures |s| == buff.Length
    {
      buff[..]
    }

    // Over the part of a buffer from `start` to `end`; positions count from the start of the buffer.
    constructor (abuff: array<Byte>, start: int, end: int)
      requires 0 <= start <= end <= abuff.Length
      ensures Valid() && buff == abuff && len == end && pos == start
    {
      buff, len, pos := abuff, end, start;
    }

    method BaseType(bytes: Text) returns (ok: bool)
      requires Valid()
      modifies this`pos, buff
      ensures Valid() && Written(old(Image()), Image(), len, old(pos), pos, ok, true, bytes)
    {
      if |bytes| > len - pos {
        ok := false;
        return;
      }
      Memcpy(buff, pos, bytes);
      pos, ok := pos + |bytes|, true;
      assert buff[old(pos)..pos] == bytes;
    }

    method PushInt(n: int, width: nat) returns (ok: bool)
      requires Valid()
      modifies this`pos, buff
      ensures Valid() && Written(old(Image()), Image(), len, old(pos), pos, ok, true, Put(n, width))
    {
      ok := BaseType(Put(n, width));
    }

    // A length and the bytes themselves, checked together before anything is written.
    method PushBytes(bytes: Text, limit: nat) returns (ok: bool)
      requires Valid()
      modifies this`pos, buff
      ensures Valid() && Written(old(Image()), Image(), len, old(pos), pos, ok, |bytes| <= limit, Put(|bytes|, 4) + bytes)
    {
      var start := pos;
      if |bytes| > limit {
        ok := false;
        return;
      }
      var remain := len - pos;
      if remain < 4 || |bytes| > remain - 4 {
        ok := false;
        return;
      }
      ok := PushInt(|bytes|, 4);
      ghost var mid, first := pos, Image();
      if ok {
        ok := BaseType(bytes);
        Then(old(Image()), first, Image(), len, start, mid, pos, ok, true, true, Put(|bytes|, 4), bytes);
      }
      pos := if ok then pos else start;
    }

    // Writes a value whole, or fails with the cursor where it was; what lies before the cursor is kept.
    method Push(schema: Schema, v: Value) returns (ok: bool)
      requires Valid() && Typed(schema, v)
      modifies this`pos, buff
      ensures Valid() && Written(old(Image()), Image(), len, old(pos), pos, ok, Sized(schema, v), Encode(schema, v))
      decreases schema, 1
    {
      match schema
      case Int(w, _) =>
        ok := PushInt(v.n, w);
      case Bool =>
        ok := BaseType([if v.b then 1 else 0]);
      case Raw(_) =>
        ok := BaseType(v.bytes);
      case Str =>
        ok := PushBytes(v.bytes, TEXT_LIMIT);
      case Blob =>
        ok := PushBytes(v.bytes, INT_MAX);
      case Unit =>
        ok := true;
      case Pair(a, b) =>
        ok := PushPair(a, b, v.first, v.second);
      case Many(e, keyed) =>
        WalkElems(keyed, v.items);
        ok := PushMany(e, Walk(keyed, v.items));
    }

    method PushPair(a: Schema, b: Schema, u: Value, v: Value) returns (ok: bool)
      requires Valid() && Typed(a, u) && Typed(b, v)
      modifies this`pos, buff
      ensures Valid()
      ensures Written(old(Image()), Image(), len, old(pos), pos, ok, Sized(a, u) && Sized(b, v), Encode(a, u) + Encode(b, v))
      decreases Pair(a, b), 0
    {
      hide Encode, Typed, Sized, Written, Put, Image;
      var start := pos;
      ghost var b0, x, y, f, g := Image(), Encode(a, u), Encode(b, v), Sized(a, u), Sized(b, v);
      ok := Push(a, u);
      ghost var mid, b1 := pos, Image();
      if ok {
        ok := Push(b, v);
        Then(b0, b1, Image(), len, start, mid, pos, ok, f, g, x, y);
        pos := if ok then pos else start;
      } else {
        Stopped(b0, b1, len, start, pos, f, g, x, y);
      }
    }

    method PushMany(elem: Schema, items: seq<Value>) returns (ok: bool)
      requires Valid() && forall x :: x in items ==> Typed(elem, x)
      modifies this`pos, buff
      ensures Valid()
      ensures Written(old(Image()), Image(), len, old(pos), pos, ok, |items| <= INT_MAX && AllSized(elem, items),
                      Put(|items|, 4) + EncodeItems(elem, items))
      decreases elem, 2
    {
      hide Encode, Typed, Sized, Put, Written, Image, AllSized, Front, EncodeItems;
      var start := pos;
      ghost var b0 := Image();
      FrontStart(elem, items);
      if |items| > INT_MAX {
        ok := false;
        Refused(b0, len, start, Put(|items|, 4) + EncodeItems(elem, items));
        return;
      }
      ok := PushInt(|items|, 4);
      if !ok {
        Stopped(b0, Image(), len, start, pos, true, AllSized(elem, items), Put(|items|, 4), EncodeItems(elem, items));
        return;
      }
      for i := 0 to |items|
        invariant Valid()
        invariant Written(b0, Image(), len, start, pos, true, AllSized(elem, items[..i]), Front(elem, items, i))
      {
        FrontStep(elem, items, i);
        ghost var mid, before, f, g := pos, Image(), AllSized(elem, items[..i]), Sized(elem, items[i]);
        ghost var x, y := Front(elem, items, i), Encode(elem, items[i]);
        ok := Push(elem, items[i]);
        Then(b0, before, Image(), len, start, mid, pos, ok, f, g, x, y);
        if !ok {
          pos := start;
          Stopped(b0, Image(), len, start, pos, f && g, AllSized(elem, items[i + 1..]), x + y, EncodeItems(elem, items[i + 1..]));
          return;
        }
      }
      assert items[..|items|] == items;
      FrontEnd(elem, items);
    }
  }

  // A container of which `items` have been read and `later` is still ahead.
  ghost predicate Resumes(whole: Format.Read<seq<Value>>, items: seq<Value>, later: Format.Read<seq<Value>>, used: int) {
    if later.Fail? then whole.Fail?
    else used >= 0 && whole == Done(items + later.value, used + later.used)
  }

  lemma ResumesStart(whole: Format.Read<seq<Value>>, elem: Schema, count: nat, ahead: Text)
    requires whole == DecodeItems(elem, count, ahead)
    ensures Resumes(whole, [], whole, 0) && forall keyed :: Distinct(keyed, [])
  {
    assert whole.Done? ==> [] + whole.value == whole.value;
  }

  lemma ResumesStep(whole: Format.Read<seq<Value>>, items: seq<Value>, elem: Schema, count: nat, ahead: Text, used: int)
    requires count > 0 && Resumes(whole, items, DecodeItems(elem, count, ahead), used)
    ensures Decode(elem, ahead).Fail? ==> whole.Fail?
    ensures Decode(elem, ahead).Done? ==>
              var Done(v, n) := Decode(elem, ahead);
              && Resumes(whole, items + [v], DecodeItems(elem, count - 1, ahead[n..]), used + n)
              && (whole.Done? ==> items + [v] <= whole.value)
  {
    hide Decode;
    if Decode(elem, ahead).Done? {
      var Done(v, n) := Decode(elem, ahead);
      var later := DecodeItems(elem, count - 1, ahead[n..]);
      if later.Done? {
        assert items + ([v] + later.value) == items + [v] + later.value;
      }
    }
  }

  lemma ResumesEnd(whole: Format.Read<seq<Value>>, items: seq<Value>, elem: Schema, ahead: Text, used: int)
    requires Resumes(whole, items, DecodeItems(elem, 0, ahead), used)
    ensures used >= 0 && whole == Done(items, used)
  {
    assert items + [] == items;
  }

  lemma ArrangedNone(keyed: Keyed)
    ensures Arranged(keyed, []) == []
  {
  }

  // One more item: the container grows by it, and holds its key exactly when one of those that came did.
  lemma ArrangedStep(keyed: Keyed, came: seq<Value>, v: Value)
    ensures var items := Arranged(keyed, came);
            && Arranged(keyed, came + [v]) == (if keyed.Free? then items + [v] else Insert(keyed.less, v, items))
            && ((exists k :: 0 <= k < |items| && SameKey(keyed, items[k], v)) <==>
                (exists k :: 0 <= k < |came| && SameKey(keyed, came[k], v)))
  {
    hide SameKey;
    assert (came + [v])[..|came|] == came;
    if !keyed.Free? {
      var items := Sort(keyed.less, came);
      SortElems(keyed.less, came);
      assert (exists k :: 0 <= k < |items| && SameKey(keyed, items[k], v)) <==> (exists x :: x in items && SameKey(keyed, x, v));
      assert (exists k :: 0 <= k < |came| && SameKey(keyed, came[k], v)) <==> (exists x :: x in came && SameKey(keyed, x, v));
    }
  }

  lemma DistinctStep(keyed: Keyed, items: seq<Value>, v: Value)
    requires Distinct(keyed, items)
    ensures Distinct(keyed, items + [v]) <==> !exists k :: 0 <= k < |items| && SameKey(keyed, items[k], v)
  {
    var all := items + [v];
    assert all[|items|] == v;
    if Distinct(keyed, all) {
      assert forall k :: 0 <= k < |items| ==> all[k] == items[k];
    }
  }

  lemma Repeated(keyed: Keyed, items: seq<Value>, v: Value, whole: Format.Read<seq<Value>>)
    requires exists k :: 0 <= k < |items| && SameKey(keyed, items[k], v)
    requires whole.Done? ==> items + [v] <= whole.value
    ensures whole.Done? ==> !Distinct(keyed, whole.value)
  {
    if whole.Done? {
      var k :| 0 <= k < |items| && SameKey(keyed, items[k], v);
      assert whole.value[k] == (items + [v])[k] && whole.value[|items|] == (items + [v])[|items|];
    }
  }

  // `serialize_pop`, over an immutable buffer.
  class Reader {
    const buff: Text
    var pos: int

    ghost predicate Valid()
      reads this
    {
      0 <= pos <= |buff|
    }

    ghost function Ahead(): Text
      reads this
      requires Valid()
    {
      buff[pos..]
    }

    constructor (abuff: Text)
      ensures Valid() && buff == abuff && pos == 0
    {
      buff, pos := abuff, 0;
    }

    method BaseType(bytes: int) returns (ok: bool, data: Text)
      requires Valid() && bytes >= 0
      modifies this
      ensures Valid() && (ok <==> bytes <= |old(Ahead())|)
      ensures ok ==> data == old(Ahead())[..bytes] && Ahead() == old(Ahead())[bytes..] && pos == old(pos) + bytes
    {
      if bytes > |buff| - pos {
        ok, data := false, [];
        return;
      }
      ok, data := true, buff[pos..pos + bytes];
      pos := pos + bytes;
    }

    method PopSize() returns (ok: bool, n: int)
      requires Valid()
      modifies this
      ensures Valid() && (ok <==> 4 <= |old(Ahead())|)
      ensures ok ==> n == GetSigned(old(Ahead())[..4]) && Ahead() == old(Ahead())[4..] && pos == old(pos) + 4
    {
      var data;
      ok, data := BaseType(4);
      n := if ok then GetSigned(data) else 0;
    }

    // What a pop must do, given what the format makes of the bytes ahead.
    ghost predicate Read(r: Format.Read<Value>, ok: bool, v: Value, before: int)
      reads this
    {
      (ok <==> r.Done?) && (ok ==> v == r.value && pos == before + r.used)
    }

    method PopBytes(limit: nat) returns (ok: bool, v: Value)
      requires Valid()
      modifies this
      ensures Valid() && Read(DecodeBytes(old(Ahead()), limit), ok, v, old(pos))
    {
      v := VUnit;
      var size, data;
      ok, size := PopSize();
      if !ok {
        return;
      }
      if size < 0 || size > limit || size > |buff| - pos {
        ok := false;
        return;
      }
      ok, data := BaseType(size);
      v := VBytes(data);
    }

    method Pop(schema: Schema) returns (ok: bool, v: Value)
      requires Valid()
      modifies this
      ensures Valid() && Read(Decode(schema, old(Ahead())), ok, v, old(pos))
      decreases schema, 1
    {
      hide GetSigned, GetUnsigned, Span, DecodeItems, DecodeBytes, Distinct;
      v := VUnit;
      var data;
      match schema
      case Int(w, signed) =>
        ok, data := BaseType(w);
        if ok {
          v := VInt(if signed then GetSigned(data) else GetUnsigned(data));
        }
      case Bool =>
        ok, data := BaseType(1);
        if ok {
          v := VBool(data[0] != 0);
        }
      case Raw(w) =>
        ok, data := BaseType(w);
        v := VBytes(data);
      case Str =>
        ok, v := PopBytes(TEXT_LIMIT);
      case Blob =>
        ok, v := PopBytes(INT_MAX);
      case Unit =>
        ok := true;
      case Pair(a, b) =>
        ok, v := PopPair(a, b);
      case Many(e, keyed) =>
        var size;
        ok, size := PopSize();
        if !ok {
          return;
        }
        if size < 0 {
          ok := false;
          return;
        }
        var items;
        ok, items := PopItems(e, keyed, size);
        v := VMany(items);
    }

    method PopPair(a: Schema, b: Schema) returns (ok: bool, v: Value)
      requires Valid()
      modifies this
      ensures Valid() && Read(DecodePair(a, b, old(Ahead())), ok, v, old(pos))
      decreases Pair(a, b), 0
    {
      hide Decode;
      v := VUnit;
      var first, second;
      ok, first := Pop(a);
      if ok {
        ok, second := Pop(b);
        v := VPair(first, second);
      }
    }

    // Items are read one by one and put where the container keeps them; a set or map refuses the first one
    // it already holds.
    method PopItems(elem: Schema, keyed: Keyed, size: nat) returns (ok: bool, items: seq<Value>)
      requires Valid()
      modifies this
      ensures Valid()
      ensures var r := DecodeItems(elem, size, old(Ahead()));
              && (ok <==> r.Done? && Distinct(keyed, r.value))
              && (ok ==> items == Arranged(keyed, r.value) && pos == old(pos) + r.used)
      decreases elem, 2
    {
      hide Decode, DecodeItems, Resumes, Distinct, Arranged, SameKey;
      items, ok := [], true;
      ghost var came: seq<Value> := [];
      ghost var whole := DecodeItems(elem, size, Ahead());
      ResumesStart(whole, elem, size, Ahead());
      ArrangedNone(keyed);
      for i := 0 to size
        invariant Valid() && ok && |came| == i && Distinct(keyed, came) && items == Arranged(keyed, came)
        invariant Resumes(whole, came, DecodeItems(elem, size - i, Ahead()), pos - old(pos))
      {
        var v;
        ghost var ahead := Ahead();
        ResumesStep(whole, came, elem, size - i, ahead, pos - old(pos));
        ok, v := Pop(elem);
        if !ok {
          return;
        }
        assert Ahead() == ahead[Decode(elem, ahead).used..];
        DistinctStep(keyed, came, v);
        ArrangedStep(keyed, came, v);
        if exists k | 0 <= k < |items| :: SameKey(keyed, items[k], v) {
          ok := false;
          Repeated(keyed, came, v, whole);
          return;
        }
        items := if keyed.Free? then items + [v] else Insert(keyed.less, v, items);
        came := came + [v];
      }
      ResumesEnd(whole, came, elem, Ahead(), pos - old(pos));
    }
  }
}
