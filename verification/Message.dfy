// A message from the value handed to the sender to the value the receiver decodes: size, then fill, then
// cipher, header, frame.

module Message {
  import opened Bytes
  import opened Common
  import opened Digits
  import opened Format
  import opened Framing
  import opened LittleEndian
  import opened Segpack
  import opened Serialize
  import opened Values
  import opened Xor

  // The bit length of a number, less one.
  function Log(n: nat): (k: nat)
    requires n >= 1
    ensures k < n && (k == 0 <==> n == 1)
    ensures Two(k) <= n < Two(k + 1)
  {
    if n == 1 then 0 else 1 + Log(n / 2)
  }

  // The configured cipher, and the two protocols that are never enciphered.
  datatype Cipher = Cipher(on: bool, key: Text, plain1: int, plain2: int) {
    predicate Applies(protocol: int) {
      !((plain1 != -1 && protocol == plain1) || (plain2 != -1 && protocol == plain2)) && on
    }

    // How much of the key is used: the configuration takes the bit length of |key| + 1, less one.
    function KeyNum(): (n: nat)
      ensures n <= |key| && (n == 0 <==> key == [])
      ensures Two(n) <= |key| + 1 < Two(n + 1)
    {
      Log(|key| + 1)
    }
  }

  // The place in the key for byte `k`, starting at `apos`.
  function Index(apos: int, k: nat, n: nat): (i: nat)
    requires n > 0
    ensures i < n
  {
    (apos + k) % n
  }

  // The bytes after enciphering from key position `apos` on.
  ghost function Ciphered(s: Text, c: Cipher, apos: int): (t: Text)
    ensures |t| == |s|
  {
    var n := c.KeyNum();
    if !c.on || n == 0 then s
    else seq(|s|, k requires 0 <= k < |s| => XorByte(s[k], c.key[Index(apos, k, n)]))
  }

  lemma CipheredTwice(s: Text, c: Cipher, apos: int)
    ensures Ciphered(Ciphered(s, c, apos), c, apos) == s
  {
    var n := c.KeyNum();
    if c.on && n != 0 {
      hide XorByte, Index, Log;
      forall k | 0 <= k < |s| ensures Ciphered(Ciphered(s, c, apos), c, apos)[k] == s[k] {
        XorTwice(s[k], c.key[Index(apos, k, n)]);
      }
    }
  }

  // C++ remainder: the sign of the dividend.
  function Rem(a: int, b: int): int
    requires b > 0
  {
    if a >= 0 then a % b else -(-a % b)
  }

  lemma NextIndex(apos: int, k: nat, n: nat)
    requires n > 0
    ensures Index(apos, k + 1, n) == if Index(apos, k, n) + 1 == n then 0 else Index(apos, k, n) + 1
  {
    var a := apos + k;
    var q, r := a / n, a % n;
    assert a == n * q + r;
    if r + 1 == n {
      assert n * (q + 1) == n * q + n;
      ModUnique(a + 1, n, q + 1, 0);
    } else {
      ModUnique(a + 1, n, q, r + 1);
    }
  }

  lemma StartIndex(apos: int, n: nat)
    requires n > 0
    ensures Index(apos, 0, n) == if Rem(apos, n) < 0 then Rem(apos, n) + n else Rem(apos, n)
  {
    if apos < 0 {
      var q, r := -apos / n, -apos % n;
      assert -apos == n * q + r;
      assert n * -q == -(n * q) && n * (-q - 1) == -(n * q) - n;
      if r == 0 {
        ModUnique(apos, n, -q, 0);
      } else {
        ModUnique(apos, n, -q - 1, n - r);
      }
    }
  }

  // What the loop does to a part of a buffer, and what leaving it out does when the cipher is off.
  lemma Patched(was: Text, now: Text, from: nat, len: nat, apos: int, c: Cipher)
    requires |now| == |was| && from + len <= |was|
    requires forall j {:trigger now[j]} :: 0 <= j < |was| ==>
               now[j] == if from <= j < from + len then Ciphered(was[from..from + len], c, apos)[j - from] else was[j]
    ensures now == was[..from] + Ciphered(was[from..from + len], c, apos) + was[from + len..]
  {
    hide Ciphered;
  }

  method ByteXor(a: array<Byte>, from: nat, len: int, apos: int, c: Cipher)
    requires from + len <= a.Length
    modifies a
    ensures len <= 0 ==> a[..] == old(a[..])
    ensures len > 0 ==>
              a[..] == old(a[..])[..from] + Ciphered(old(a[..])[from..from + len], c, apos) + old(a[..])[from + len..]
  {
    hide Index, XorByte, Rem, Log;
    ghost var was := a[..];
    if len <= 0 {
      return;
    }
    var n := c.KeyNum();
    if c.on && n >= 1 {
      var idx := Rem(apos, n);
      if idx < 0 {
        idx := idx + n;
      }
      StartIndex(apos, n);
      for k := 0 to len
        invariant idx == Index(apos, k, n)
        invariant forall j {:trigger a[j]} :: 0 <= j < a.Length ==>
          a[j] == if from <= j < from + k then XorByte(was[j], c.key[Index(apos, j - from, n)]) else was[j]
      {
        a[from + k] := XorByte(a[from + k], c.key[idx]);
        NextIndex(apos, k, n);
        idx := idx + 1;
        if idx == n {
          idx := 0;
        }
      }
    }
    Patched(was, a[..], from, len, apos, c);
  }

  // What goes into a header besides the payload: receiver, sender, protocol and the sender's clock.
  datatype Route = Route(actor: int, request: int, protocol: int, now: int)

  ghost predicate ValidRoute(r: Route) {
    FitsSigned(r.actor, 8) && FitsSigned(r.request, 8) && FitsSigned(r.protocol, 4) && FitsSigned(r.now, 4)
  }

  function MaskBytes(): (s: Text)
    ensures |s| == MASK_BYTES
  {
    seq(MASK_BYTES, _ => MASK_VALUE)
  }

  function HeadBytes(size: int, r: Route): (h: Text)
    ensures |h| == HEAD_BYTES
  {
    MaskBytes() + Put(size, 4) + Put(r.now, 4) + Put(r.protocol, 4) + Put(r.actor, 8) + Put(r.request, 8)
  }

  lemma Cut(a: Text, b: Text, c: Text)
    ensures (a + b + c)[|a|..|a| + |b|] == b && (a + (b + c))[|a|..|a| + |b|] == b
  {
  }

  // The fields of a header.
  lemma HeadParts(size: int, r: Route)
    ensures var h := HeadBytes(size, r);
            && MaskOk(h) && h[8..12] == Put(size, 4) && h[12..16] == Put(r.now, 4) && h[16..20] == Put(r.protocol, 4)
            && h[20..28] == Put(r.actor, 8) && h[28..36] == Put(r.request, 8)
  {
    hide Put;
    var h, m := HeadBytes(size, r), MaskBytes();
    var front := m + Put(size, 4) + Put(r.now, 4) + Put(r.protocol, 4);
    Cut(front + Put(r.actor, 8), Put(r.request, 8), []);
    assert h == front + Put(r.actor, 8) + Put(r.request, 8) + [];
    Cut(front, Put(r.actor, 8), Put(r.request, 8));
    var back := Put(r.actor, 8) + Put(r.request, 8);
    assert h == m + Put(size, 4) + Put(r.now, 4) + (Put(r.protocol, 4) + back);
    Cut(m + Put(size, 4) + Put(r.now, 4), Put(r.protocol, 4), back);
    Cut(m + Put(size, 4), Put(r.now, 4), Put(r.protocol, 4) + back);
    Cut(m, Put(size, 4), Put(r.now, 4) + (Put(r.protocol, 4) + back));
  }

  // A header is known by its fields.
  lemma HeadOf(d: Text, size: int, r: Route)
    requires |d| == HEAD_BYTES && forall k {:trigger MaskBytes()[k]} :: 0 <= k < 8 ==> d[k] == MaskBytes()[k]
    requires forall k {:trigger Put(size, 4)[k]} :: 0 <= k < 4 ==> d[8 + k] == Put(size, 4)[k]
    requires forall k {:trigger Put(r.now, 4)[k]} :: 0 <= k < 4 ==> d[12 + k] == Put(r.now, 4)[k]
    requires forall k {:trigger Put(r.protocol, 4)[k]} :: 0 <= k < 4 ==> d[16 + k] == Put(r.protocol, 4)[k]
    requires forall k {:trigger Put(r.actor, 8)[k]} :: 0 <= k < 8 ==> d[20 + k] == Put(r.actor, 8)[k]
    requires forall k {:trigger Put(r.request, 8)[k]} :: 0 <= k < 8 ==> d[28 + k] == Put(r.request, 8)[k]
    ensures d == HeadBytes(size, r)
  {
    hide Put;
  }

  // The receiver finds in the header what the sender put there.
  lemma HeadReadsBack(size: nat, r: Route)
    requires ValidRoute(r) && size <= INT_MAX
    ensures var h := HeadBytes(size, r);
            && MaskOk(h) && Slot(h, SLOT_BYTES) == size && Slot(h, SLOT_TIME) == r.now
            && Slot(h, SLOT_PROTOCOL) == r.protocol
            && GetSigned(h[20..28]) == r.actor && GetSigned(h[28..36]) == r.request
  {
    hide Put, GetSigned, Span;
    var h := HeadBytes(size, r);
    HeadParts(size, r);
    hide HeadBytes, MaskBytes;
    SizeFits(size);
    SignedRoundTrip(size, 4);
    SignedRoundTrip(r.now, 4);
    SignedRoundTrip(r.protocol, 4);
    SignedRoundTrip(r.actor, 8);
    SignedRoundTrip(r.request, 8);
  }

  // The payload on the wire.
  ghost function Payload(schema: Schema, v: Value, protocol: int, c: Cipher): (t: Text)
    requires Typed(schema, v)
    ensures |t| == |Encode(schema, v)|
  {
    if c.Applies(protocol) then Ciphered(Encode(schema, v), c, 0) else Encode(schema, v)
  }

  // One of the two protocols that stay plain, or nothing to encipher with.
  predicate StaysPlain(c: Cipher, protocol: int) {
    !c.on || c.key == [] || (protocol != -1 && (protocol == c.plain1 || protocol == c.plain2))
  }

  // Byte by byte, `t` is `s` exclusive-or the key, of which the first `n` bytes are used over and over.
  ghost predicate Enciphered(s: Text, t: Text, key: Text, n: nat) {
    && 0 < n <= |key| && Two(n) <= |key| + 1 < Two(n + 1) && |t| == |s|
    && forall k {:trigger s[k]} :: 0 <= k < |s| ==> t[k] == XorByte(s[k], key[k % n])
  }

  lemma CipheredIs(s: Text, c: Cipher)
    requires c.on && c.key != []
    ensures Enciphered(s, Ciphered(s, c, 0), c.key, c.KeyNum())
  {
    hide XorByte, Log;
  }

  lemma EncipheredOnce(s: Text, t: Text, u: Text, key: Text, n: nat)
    requires Enciphered(s, t, key, n) && Enciphered(s, u, key, n)
    ensures t == u
  {
    hide XorByte;
    forall k | 0 <= k < |t| ensures t[k] == u[k] {
      assert t[k] == XorByte(s[k], key[k % n]);
    }
  }

  // The two exempt protocols go out as they are, and so does everything while the cipher is off or has no key; all
  // others go out enciphered.
  lemma PayloadIs(schema: Schema, v: Value, protocol: int, c: Cipher)
    requires Typed(schema, v)
    ensures if StaysPlain(c, protocol) then Payload(schema, v, protocol, c) == Encode(schema, v)
            else Enciphered(Encode(schema, v), Payload(schema, v, protocol, c), c.key, c.KeyNum())
  {
    hide Encode, Typed, Enciphered;
    if c.on && c.key != [] {
      CipheredIs(Encode(schema, v), c);
    }
  }

  method SetHead(head: PackHead, size: int, r: Route)
    requires head.data.Length == HEAD_BYTES
    modifies head.data
    ensures head.data[..] == HeadBytes(size, r)
  {
    hide Put, HeadBytes;
    head.Write(4 * SLOT_BYTES, Put(size, 4));
    head.Write(0, MaskBytes());
    head.Write(4 * SLOT_TIME, Put(r.now, 4));
    head.Write(4 * SLOT_ACTOR, Put(r.actor, 8));
    head.Write(4 * SLOT_REQUEST, Put(r.request, 8));
    head.Write(4 * SLOT_PROTOCOL, Put(r.protocol, 4));
    HeadOf(head.data[..], size, r);
  }

  // Serializes into a part of a buffer, and enciphers what was written.
  method Fill(buff: array<Byte>, start: nat, end: int, schema: Schema, v: Value, protocol: int, c: Cipher)
    returns (ok: bool, size: int)
    requires Typed(schema, v) && start <= end <= buff.Length
    modifies buff
    ensures ok <==> Sized(schema, v) && |Encode(schema, v)| <= end - start
    ensures ok ==> size == |Encode(schema, v)| && start + size <= end
    ensures ok ==> buff[start..start + size] == Payload(schema, v, protocol, c)
  {
    hide Encode, Typed, Sized;
    var ser := new Writer(buff, start, end);
    ok := ser.Push(schema, v);
    size := ser.pos - start;
    if !ok {
      return;
    }
    hide Written, Ciphered;
    ghost var before := buff[..];
    assert before[start..start + size] == Encode(schema, v);
    if size > 0 && c.Applies(protocol) {
      ByteXor(buff, start, size, 0, c);
      Cut(before[..start], Payload(schema, v, protocol, c), before[start + size..]);
    }
  }

  // The header in front of the payload.
  method Embed(head: PackHead, buff: array<Byte>)
    requires head.data.Length == HEAD_BYTES <= buff.Length && head.data != buff
    modifies buff
    ensures buff[..] == head.data[..] + old(buff[HEAD_BYTES..])
  {
    var top := new Writer(buff, 0, buff.Length);
    var ok := top.BaseType(head.data[..]);
    assert ok;
    assert buff[..] == buff[..HEAD_BYTES] + buff[HEAD_BYTES..];
  }

  // Serializes into the pack's buffer, behind the header when that is embedded, and fills in the header.
  method ToBytes(p: Pack, schema: Schema, v: Value, r: Route, ahead: bool, c: Cipher) returns (ok: bool)
    requires Typed(schema, v) && p.buff != null && p.buff.Length == p.len <= INT_MAX
    requires p.head.data.Length == HEAD_BYTES && p.head.data != p.buff
    modifies p`len, p`pos, p.buff, p.head.data
    ensures p.buff == old(p.buff)
    ensures var need := |Encode(schema, v)| + if ahead then HEAD_BYTES else 0;
            ok <==> Sized(schema, v) && need <= old(p.len)
    ensures ok ==>
              var body := Payload(schema, v, r.protocol, c);
              && p.head.data[..] == HeadBytes(|body|, r) && 0 <= p.len <= p.buff.Length && p.pos == p.len
              && p.buff[..p.len] == (if ahead then HeadBytes(|body|, r) else []) + body
  {
    hide Encode, Typed, Sized, Payload, HeadBytes;
    var start := if ahead then HEAD_BYTES else 0;
    if p.len < start {
      ok := false;
      return;
    }
    var size;
    ok, size := Fill(p.buff, start, p.len, schema, v, r.protocol, c);
    if !ok {
      return;
    }
    SetHead(p.head, size, r);
    ghost var body := Payload(schema, v, r.protocol, c);
    assert p.buff[start..start + size] == body;
    if ahead {
      Embed(p.head, p.buff);
      assert p.buff[..HEAD_BYTES + size] == p.buff[..HEAD_BYTES] + p.buff[HEAD_BYTES..HEAD_BYTES + size];
    }
    p.len, p.pos := start + size, start + size;
  }

  // Counts, allocates once, fills. A payload of no bytes without an embedded header gives no pack at all.
  method Npack(schema: Schema, v: Value, r: Route, ahead: bool, c: Cipher) returns (p: Pack?)
    requires Typed(schema, v) && |Encode(schema, v)| + HEAD_BYTES <= INT_MAX
    ensures p != null <==> Sized(schema, v) && (ahead || Encode(schema, v) != [])
    ensures p != null ==>
              var body := Payload(schema, v, r.protocol, c);
              && p.buff != null && p.head.data[..] == HeadBytes(|body|, r) && p.pos == p.len
              && 0 <= p.len <= p.buff.Length
              && p.buff[..p.len] == (if ahead then HeadBytes(|body|, r) else []) + body
    ensures p != null ==>
              var start, plain := if ahead then HEAD_BYTES else 0, Encode(schema, v);
              && p.buff != null && start <= p.len <= p.buff.Length
              && if StaysPlain(c, r.protocol) then p.buff[start..p.len] == plain
                 else Enciphered(plain, p.buff[start..p.len], c.key, c.KeyNum())
  {
    hide Encode, Typed, Sized, Payload, HeadBytes, StaysPlain, Enciphered;
    PayloadIs(schema, v, r.protocol, c);
    var counter := new Counter();
    counter.Count(schema, v);
    var bytes := if ahead then counter.pos + HEAD_BYTES else counter.pos;
    var made := new Pack(0);
    var ok := made.Malloc(bytes);
    if !ok {
      p := null;
      return;
    }
    ok := ToBytes(made, schema, v, r, ahead, c);
    p := if ok then made else null;
    if ok {
      ghost var body := Payload(schema, v, r.protocol, c);
      assert made.buff[..made.len] == (if ahead then HeadBytes(|body|, r) else []) + body;
      assert made.buff[if ahead then HEAD_BYTES else 0..made.len] == body;
    }
  }

  // What a receiver of this type makes of a packet.
  ghost function Opened(schema: Schema, frame: Frame, c: Cipher): Format.Read<Value>
    requires |frame.head| == HEAD_BYTES
  {
    var applies := c.Applies(Slot(frame.head, SLOT_PROTOCOL));
    Decode(schema, if applies then Ciphered(frame.body, c, 0) else frame.body)
  }

  // `plain` is what a receiver has to read: the body of an exempt protocol as it came, that of any other deciphered.
  ghost predicate Reads(body: Text, protocol: int, c: Cipher, plain: Text) {
    if StaysPlain(c, protocol) then plain == body else Enciphered(body, plain, c.key, c.KeyNum())
  }

  lemma OpenedIs(schema: Schema, frame: Frame, c: Cipher)
    requires |frame.head| == HEAD_BYTES
    ensures forall plain: Text {:trigger Decode(schema, plain)} ::
              Reads(frame.body, Slot(frame.head, SLOT_PROTOCOL), c, plain) ==> Opened(schema, frame, c) == Decode(schema, plain)
  {
    hide Enciphered, Slot, Decode;
    forall plain: Text {:trigger Decode(schema, plain)} | Reads(frame.body, Slot(frame.head, SLOT_PROTOCOL), c, plain)
      ensures Opened(schema, frame, c) == Decode(schema, plain)
    {
      if c.on && c.key != [] {
        CipheredIs(frame.body, c);
        if !StaysPlain(c, Slot(frame.head, SLOT_PROTOCOL)) {
          EncipheredOnce(frame.body, plain, Ciphered(frame.body, c, 0), c.key, c.KeyNum());
        }
      }
    }
  }

  // Deciphers in place, so a pack can be opened once only; then reads the value.
  method ToStruct(p: Pack, schema: Schema, c: Cipher) returns (ok: bool, v: Value)
    requires p.Valid() && p.head.wpos == HEAD_BYTES
    modifies if p.buff == null then {} else {p.buff}
    ensures p.buff == null ==> (ok <==> old(p.head.GetValue(SLOT_BYTES)) == 0)
    ensures p.buff != null && p.pos != p.len ==> !ok
    ensures p.buff != null && p.pos == p.len ==>
              var found := Opened(schema, Frame(old(p.head.Contents()), old(p.buff[..])), c);
              (ok <==> found.Done?) && (ok ==> v == found.value)
    ensures p.buff != null && p.pos == p.len ==>
              forall plain: Text {:trigger Decode(schema, plain)} ::
                Reads(old(p.buff[..]), old(p.head.GetValue(SLOT_PROTOCOL)), c, plain) ==>
                  (ok <==> Decode(schema, plain).Done?) && (ok ==> v == Decode(schema, plain).value)
  {
    hide Slot, GetSigned, MaskOk, Reads, Decode;
    v := VUnit;
    var size := p.head.GetValue(SLOT_BYTES);
    if size < 0 {
      ok := false;
      return;
    }
    if p.buff == null {
      ok := size == 0;
      return;
    }
    if size != p.pos {
      ok := false;
      return;
    }
    ghost var frame := Frame(p.head.Contents(), p.buff[..]);
    OpenedIs(schema, frame, c);
    assert frame.body == p.buff[0..p.len] && p.buff[..0] == [] && p.buff[p.len..] == [];
    if c.Applies(p.head.GetValue(SLOT_PROTOCOL)) {
      ByteXor(p.buff, 0, p.len, 0, c);
    }
    var ser := new Reader(p.buff[..size]);
    assert ser.Ahead() == p.buff[..];
    ok, v := ser.Pop(schema);
  }

  datatype Note = Note(schema: Schema, value: Value, route: Route)

  ghost predicate Sendable(n: Note) {
    && Typed(n.schema, n.value) && Sized(n.schema, n.value) && ValidRoute(n.route)
    && 0 < |Encode(n.schema, n.value)| <= INT_MAX
  }

  // The frame of a message: what `Npack` builds, header then payload.
  ghost function FrameOf(n: Note, c: Cipher): (f: Frame)
    requires Sendable(n)
    ensures |f.head| == HEAD_BYTES
  {
    var body := Payload(n.schema, n.value, n.route.protocol, c);
    Frame(HeadBytes(|body|, n.route), body)
  }

  lemma OpenedIsSent(n: Note, c: Cipher)
    requires Sendable(n)
    ensures var f := FrameOf(n, c);
            && Opened(n.schema, f, c) == Done(n.value, |f.body|)
            && Slot(f.head, SLOT_PROTOCOL) == n.route.protocol
            && GetSigned(f.head[20..28]) == n.route.actor && GetSigned(f.head[28..36]) == n.route.request
  {
    hide Encode, Decode, HeadBytes, Slot, Typed, Sized, GetSigned;
    var f := FrameOf(n, c);
    HeadReadsBack(|f.body|, n.route);
    CipheredTwice(Encode(n.schema, n.value), c, 0);
    DecodeOfEncode(n.schema, n.value, []);
    assert Encode(n.schema, n.value) + [] == Encode(n.schema, n.value);
  }

  ghost predicate Accepted(n: Note, rules: Rules)
    requires Sendable(n)
  {
    && (rules.lan || rules.robot || |Encode(n.schema, n.value)| < BODY_LIMIT)
    && rules.now < n.route.now + rules.timeout
  }

  ghost function FramesOf(notes: seq<Note>, c: Cipher): (frames: seq<Frame>)
    requires forall i :: 0 <= i < |notes| ==> Sendable(notes[i])
  {
    seq(|notes|, i requires 0 <= i < |notes| => FrameOf(notes[i], c))
  }

  lemma FrameIsWellFormed(n: Note, c: Cipher, rules: Rules)
    requires Sendable(n) && Accepted(n, rules)
    ensures WellFormed(FrameOf(n, c), rules) && !IsBeat(FrameOf(n, c), rules) && Timely(FrameOf(n, c), rules)
  {
    hide Encode, Typed, Sized, Slot, MaskOk, HeadBytes;
    HeadReadsBack(|FrameOf(n, c).body|, n.route);
  }

  lemma {:induction false} AllDispatched(frames: seq<Frame>, rules: Rules)
    requires AllWellFormed(frames, rules)
    requires forall i :: 0 <= i < |frames| ==> !IsBeat(frames[i], rules) && Timely(frames[i], rules)
    ensures Dispatched(frames, rules) == frames
  {
    if frames != [] {
      AllDispatched(frames[1..], rules);
      assert frames == [frames[0]] + frames[1..];
    }
  }

  // From value to value: messages sent one behind another, the stream cut anywhere, arrive as exactly
  // those messages, in order, with their actors and protocol, whether or not the cipher is on.
  lemma EndToEnd(notes: seq<Note>, fragments: seq<Text>, rules: Rules, c: Cipher)
    requires forall i :: 0 <= i < |notes| ==> Sendable(notes[i]) && Accepted(notes[i], rules)
    requires Concat(fragments) == Wire(FramesOf(notes, c))
    ensures Deliver([], fragments, rules) == Receipt(Packets(FramesOf(notes, c)), [], true)
    ensures forall i {:trigger FramesOf(notes, c)[i]} :: 0 <= i < |notes| ==>
              var f, n := FramesOf(notes, c)[i], notes[i];
              && Opened(n.schema, f, c) == Done(n.value, |f.body|)
              && Slot(f.head, SLOT_PROTOCOL) == n.route.protocol
              && GetSigned(f.head[20..28]) == n.route.actor && GetSigned(f.head[28..36]) == n.route.request
  {
    hide Sendable, Accepted, FrameOf, WellFormed, IsBeat, Timely, Opened, Slot, GetSigned;
    var frames := FramesOf(notes, c);
    forall i | 0 <= i < |notes|
      ensures WellFormed(frames[i], rules) && !IsBeat(frames[i], rules) && Timely(frames[i], rules)
    {
      FrameIsWellFormed(notes[i], c, rules);
    }
    forall i | 0 <= i < |notes| ensures Opened(notes[i].schema, frames[i], c) == Done(notes[i].value, |frames[i].body|) {
      OpenedIsSent(notes[i], c);
    }
    forall i | 0 <= i < |notes|
      ensures Slot(frames[i].head, SLOT_PROTOCOL) == notes[i].route.protocol
      ensures GetSigned(frames[i].head[20..28]) == notes[i].route.actor
      ensures GetSigned(frames[i].head[28..36]) == notes[i].route.request
    {
      OpenedIsSent(notes[i], c);
    }
    AllDispatched(frames, rules);
    LookNothing(rules);
    assert Wire(frames) + [] == Wire(frames);
    WireDelivered(frames, [], fragments, rules);
  }
}
