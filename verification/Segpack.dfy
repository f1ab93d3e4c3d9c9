// Packets reassembled from receive fragments: header and body buffers filled in place, one partial packet
// per socket.

module Segpack {
  import opened Bytes
  import opened Common
  import opened Framing
  import opened LittleEndian

  datatype HeadVal = MaskSuccess | MaskFail | Follow | Success

  ghost function Verdict(head: Text): HeadVal {
    if !MaskOk(head) then MaskFail else if |head| >= HEAD_BYTES then Success else Follow
  }

  // The front of a stream, told from its header and the bytes behind it.
  lemma LookOfHead(h: Text, more: Text, rules: Rules)
    requires |h| <= HEAD_BYTES
    ensures Verdict(h) == MaskFail ==> Look(h + more, rules).Plain?
    ensures Verdict(h) == Follow && more == [] ==> Look(h + more, rules).Partial?
    ensures Verdict(h) == Success ==>
              var front, size := Look(h + more, rules), Slot(h, SLOT_BYTES);
              if size < 0 || (!rules.lan && !rules.robot && size >= BODY_LIMIT) then front.Refused?
              else if |more| < size then front.Partial?
              else (front.Beat? || front.Whole?) && front.size == HEAD_BYTES + size
  {
    HeadStable(h, more);
    assert more == [] ==> h + more == h;
    hide Slot, MaskOk;
    assert |h| == HEAD_BYTES ==> Slot(h + more, SLOT_BYTES) == Slot(h, SLOT_BYTES);
  }

  lemma LookWhenDone(s: Text, done: Text, more: Text, rules: Rules)
    requires s == done + more && (Look(s, rules).Beat? || Look(s, rules).Whole?) && |done| == Look(s, rules).size
    ensures |done| >= HEAD_BYTES && s[|done|..] == more
    ensures var h, body := done[..HEAD_BYTES], done[HEAD_BYTES..];
            var timely := body == [] || rules.now < Slot(h, SLOT_TIME) + rules.timeout;
            && |done| == HEAD_BYTES + Slot(h, SLOT_BYTES)
            && Look(s, rules) == if body == [] && Slot(h, SLOT_PROTOCOL) == rules.heartbeat then Beat(|done|)
                                 else Whole(Frame(h, body), |done|, timely)
  {
    var h, body := done[..HEAD_BYTES], done[HEAD_BYTES..];
    assert done == h + body;
    LookStable(done, more, rules);
    HeadStable(h, body);
    hide MaskOk;
    assert forall k: nat {:trigger Slot(h, k)} :: k < 9 ==> Slot(h, k) == Slot(done, k);
    hide Slot;
  }

  class PackHead {
    const data: array<Byte>
    var wpos: int

    ghost predicate Valid()
      reads this
    {
      data.Length == HEAD_BYTES && 0 <= wpos <= HEAD_BYTES
    }

    // The header bytes received so far.
    ghost function Contents(): Text
      reads this, data
      requires Valid()
    {
      data[..wpos]
    }

    constructor ()
      ensures Valid() && Contents() == [] && fresh(data)
    {
      data := new Byte[HEAD_BYTES](_ => 0);
      wpos := 0;
    }

    method CheckMask() returns (val: HeadVal)
      requires Valid()
      ensures val == if MaskOk(Contents()) then MaskSuccess else MaskFail
    {
      var num := if wpos > MASK_BYTES then MASK_BYTES else wpos;
      for i := 0 to num
        invariant forall k :: 0 <= k < i ==> data[k] == MASK_VALUE
      {
        if data[i] != MASK_VALUE {
          assert Contents()[i] != MASK_VALUE;
          val := MaskFail;
          return;
        }
      }
      val := MaskSuccess;
    }

    method IsReady() returns (val: HeadVal)
      requires Valid()
      ensures val == Verdict(Contents())
    {
      var mask := CheckMask();
      if mask == MaskFail {
        val := MaskFail;
      } else {
        val := if wpos >= HEAD_BYTES then Success else Follow;
      }
    }

    // Takes what the header still lacks from `buf[at..]`.
    method Push(buf: Text, at: nat) returns (val: HeadVal, next: nat)
      requires Valid() && at <= |buf|
      modifies this`wpos, data
      ensures Valid() && val == Verdict(Contents())
      ensures at <= next <= |buf|
      ensures if MaskOk(old(Contents())) then
                && next - at == (if |buf| - at < HEAD_BYTES - old(wpos) then |buf| - at else HEAD_BYTES - old(wpos))
                && Contents() == old(Contents()) + buf[at..next]
              else next == at && Contents() == old(Contents())
    {
      next := at;
      var mask := CheckMask();
      if mask == MaskFail {
        val := MaskFail;
        return;
      }
      var temp := if |buf| - at < HEAD_BYTES - wpos then |buf| - at else HEAD_BYTES - wpos;
      assert old(Contents()) + buf[at..at] == old(Contents());
      if temp <= 0 {
        val := IsReady();
        return;
      }
      Memcpy(data, wpos, buf[at..at + temp]);
      wpos, next := wpos + temp, at + temp;
      assert Contents() == old(Contents()) + buf[at..next];
      val := IsReady();
    }

    // `memcpy` into the raw header.
    method Write(at: nat, bytes: Text)
      requires data.Length == HEAD_BYTES && at + |bytes| <= HEAD_BYTES
      modifies data
      ensures forall k {:trigger bytes[k]} :: 0 <= k < |bytes| ==> data[at + k] == bytes[k]
      ensures forall k {:trigger data[k]} :: 0 <= k < at || at + |bytes| <= k < HEAD_BYTES ==> data[k] == old(data[k])
    {
      Memcpy(data, at, bytes);
      assert data[at..at + |bytes|] == bytes;
    }

    function GetValue(slot: nat): int
      reads this, data
      requires Valid() && slot < 9
      ensures wpos == HEAD_BYTES ==> GetValue(slot) == Slot(Contents(), slot)
    {
      assert wpos == HEAD_BYTES ==> Contents()[4 * slot..4 * slot + 4] == data[4 * slot..4 * slot + 4];
      GetSigned(data[4 * slot..4 * slot + 4])
    }
  }

  // What a pack makes of a fragment.
  datatype Taken = BadMask | Incomplete | Rejected | Complete

  class Pack {
    const head: PackHead
    var id: int
    var buff: array?<Byte>
    var len: int
    var pos: int

    ghost function Repr(): (r: set<object>)
      reads this
      ensures this in r
    {
      {this, head, head.data} + if buff == null then {} else {buff}
    }

    ghost predicate Valid()
      reads this, Repr()
    {
      && head.Valid() && this !in {head, head.data, buff} && head.data != buff
      && (buff == null ==> pos == 0 && len == 0)
      && (buff != null ==>
            && buff.Length == len && 0 <= pos <= len
            && head.wpos == HEAD_BYTES && MaskOk(head.Contents()) && 0 < len == head.GetValue(SLOT_BYTES))
    }

    // All bytes of this packet received so far.
    ghost function Pending(): Text
      reads this, Repr()
      requires Valid()
    {
      head.Contents() + if buff == null then [] else buff[..pos]
    }

    constructor (aid: int)
      ensures Valid() && Pending() == [] && fresh(Repr())
    {
      head := new PackHead();
      id, buff, len, pos := aid, null, 0, 0;
    }

    // The bytes of a packet that turned out not to be framed.
    method Text() returns (text: Text)
      requires Valid()
      ensures text == Pending()
    {
      text := head.data[..head.wpos] + if buff == null then [] else buff[..pos];
    }

    method Parts() returns (header: Text, body: Text)
      requires Valid() && |Pending()| >= HEAD_BYTES
      ensures header == Pending()[..HEAD_BYTES] && body == Pending()[HEAD_BYTES..]
    {
      header, body := head.data[..], if buff == null then [] else buff[..pos];
      assert header == head.Contents()[..HEAD_BYTES];
    }

    lemma Done()
      requires Valid() && |Pending()| >= HEAD_BYTES
      ensures head.Valid() && head.wpos == HEAD_BYTES
      ensures forall k :: 0 <= k < 9 ==> head.GetValue(k) == Slot(Pending()[..HEAD_BYTES], k)
    {
    }

    method Free()
      modifies this`buff, this`len, this`pos
      ensures buff == null
      ensures old(buff) != null ==> len == 0 && pos == 0
    {
      if buff == null {
        return;
      }
      buff, len, pos := null, 0, 0;
    }

    // A body buffer, in place of the one there; no memory is ever refused here.
    method Malloc(size: int) returns (ok: bool)
      modifies this`buff, this`len, this`pos
      ensures pos == 0 && (ok <==> size > 0)
      ensures ok ==> buff != null && fresh(buff) && buff.Length == len == size
      ensures !ok ==> buff == null && len == 0
    {
      if buff != null {
        Free();
      }
      if size <= 0 {
        len, pos, ok := 0, 0, false;
        return;
      }
      buff := new Byte[size](_ => 0);
      len, pos, ok := size, 0, true;
    }

    method IsReady() returns (ready: bool)
      requires Valid()
      ensures ready <==> Verdict(head.Contents()) == Success && pos >= head.GetValue(SLOT_BYTES)
    {
      var val := head.IsReady();
      ready := val == Success && pos >= head.GetValue(SLOT_BYTES);
    }

    // `memcpy` behind the body bytes there.
    method CopyIn(bytes: Text)
      requires Valid() && buff != null && pos + |bytes| <= len
      modifies this`pos, buff
      ensures Valid() && Pending() == old(Pending()) + bytes && pos == old(pos) + |bytes|
    {
      hide MaskOk, GetSigned;
      ghost var front := buff[..pos];
      Memcpy(buff, pos, bytes);
      pos := pos + |bytes|;
      assert buff[..pos] == front + bytes;
      ConcatAssoc(head.Contents(), front, bytes);
    }

    // Copies the body bytes still missing.
    method FillPack(buf: Text, at: nat, size: int) returns (ok: bool, next: nat)
      requires Valid() && at <= |buf|
      requires head.wpos == HEAD_BYTES && MaskOk(head.Contents()) && 0 < size == head.GetValue(SLOT_BYTES)
      modifies this, if buff == null then {} else {buff}
      ensures Valid() && id == old(id) && ok && buff != null && (old(buff) == null ==> fresh(buff))
      ensures old(buff) != null ==> buff == old(buff)
      ensures at <= next <= |buf|
      ensures next - at == if |buf| - at < size - old(pos) then |buf| - at else size - old(pos)
      ensures Pending() == old(Pending()) + buf[at..next] && pos == old(pos) + next - at
    {
      hide MaskOk, GetSigned;
      next, ok := at, true;
      if buff == null {
        ok := Malloc(size);
        if !ok {
          return;
        }
      }
      var missing := size - pos;
      if missing < 0 {
        ok := false;
        return;
      }
      var temp := if missing > |buf| - at then |buf| - at else missing;
      CopyIn(buf[at..at + temp]);
      next := at + temp;
    }

    // The header part of a fragment.
    method TakeHead(buf: Text, at: nat) returns (val: HeadVal, next: nat)
      requires Valid() && at <= |buf|
      modifies head`wpos, head.data
      ensures Valid() && val == Verdict(head.Contents()) && at <= next <= |buf|
      ensures val == Follow ==> next == |buf| && buff == null
      ensures Pending() + buf[next..] == old(Pending()) + buf[at..]
    {
      val, next := head.Push(buf, at);
      assert buf[at..] == buf[at..next] + buf[next..];
      if buff != null {
        assert buf[at..at] == [] && head.Contents() == old(head.Contents());
      }
    }

    lemma PendingSize()
      requires Valid() && head.wpos == HEAD_BYTES
      ensures |Pending()| == HEAD_BYTES + pos && pos <= (if buff == null then 0 else head.GetValue(SLOT_BYTES))
    {
    }

    // The body part, once the header is complete.
    method TakeBody(buf: Text, at: nat, rules: Rules) returns (taken: Taken, next: nat)
      requires Valid() && at <= |buf| && Verdict(head.Contents()) == Success
      modifies this, if buff == null then {} else {buff}
      ensures Valid() && id == old(id) && fresh(Repr() - old(Repr())) && at <= next <= |buf|
      ensures Pending() + buf[next..] == old(Pending()) + buf[at..]
      ensures taken == Incomplete ==> next == |buf|
      ensures var size := old(head.GetValue(SLOT_BYTES));
              taken == if size < 0 || (!rules.lan && !rules.robot && size >= BODY_LIMIT) then Rejected
                       else if |old(Pending()) + buf[at..]| < HEAD_BYTES + size then Incomplete
                       else Complete
      ensures taken == Complete ==> |Pending()| == HEAD_BYTES + old(head.GetValue(SLOT_BYTES))
    {
      hide MaskOk, GetSigned;
      next := at;
      var size := head.GetValue(SLOT_BYTES);
      PendingSize();
      if size < 0 || (!rules.lan && !rules.robot && size >= BODY_LIMIT) {
        taken := Rejected;
        return;
      }
      if size == 0 {
        taken := Complete;
        return;
      }
      var ok;
      ok, next := FillPack(buf, at, size);
      if !ok {
        taken := Rejected;
        return;
      }
      hide Valid, Pending, PackHead.GetValue, PackHead.Contents;
      assert buf[at..] == buf[at..next] + buf[next..];
      ConcatAssoc(old(Pending()), buf[at..next], buf[next..]);
      PendingSize();
      var ready := IsReady();
      taken := if ready then Complete else Incomplete;
    }

    // One fragment, as far as this packet wants it: header, limits, body.
    method Take(buf: Text, at: nat, rules: Rules) returns (taken: Taken, next: nat)
      requires Valid() && at <= |buf|
      modifies Repr()
      ensures Valid() && id == old(id) && fresh(Repr() - old(Repr())) && at <= next <= |buf|
      ensures Pending() + buf[next..] == old(Pending()) + buf[at..]
      ensures var front := Look(old(Pending()) + buf[at..], rules);
              match taken
              case BadMask => front.Plain?
              case Incomplete => front.Partial? && next == |buf|
              case Rejected => front.Refused?
              case Complete => (front.Beat? || front.Whole?) && |Pending()| == front.size
    {
      hide Look, MaskOk, GetSigned, Slot;
      ghost var s := Pending() + buf[at..];
      var val;
      val, next := TakeHead(buf, at);
      ghost var more := (if buff == null then [] else buff[..pos]) + buf[next..];
      assert head.Contents() + more == s;
      LookOfHead(head.Contents(), more, rules);
      if val == MaskFail {
        taken := BadMask;
        return;
      }
      if val == Follow {
        taken := Incomplete;
        return;
      }
      assert head.GetValue(SLOT_BYTES) == Slot(head.Contents(), SLOT_BYTES);
      taken, next := TakeBody(buf, next, rules);
    }
  }

  datatype DoPush = Continue | Break | Error

  lemma ReceiveNothing(tail: Text, fragment: Text, rules: Rules)
    requires Look(tail, rules).Partial?
    ensures fragment == [] ==> Receive(tail + fragment, rules) == Receipt([], tail, true)
  {
    assert tail + [] == tail;
  }

  // What is still to come of a receive of which `sent` has been handed on already.
  ghost predicate Rest(whole: Receipt, later: Receipt, before: seq<Event>, sent: seq<Event>) {
    whole.ok == later.ok && whole.rest == later.rest && before + whole.events == sent + later.events
  }

  lemma RestStart(whole: Receipt, sent: seq<Event>)
    ensures Rest(whole, whole, sent, sent)
  {
  }

  // One step of a receive: a whole packet is handed on and the rest comes later; anything else ends it.
  lemma RestStep(whole: Receipt, s: Text, rules: Rules, before: seq<Event>, sent: seq<Event>)
    requires Rest(whole, Receive(s, rules), before, sent)
    ensures var front, plain := Look(s, rules), rules.lan && |s| < TELNET_LIMIT;
            if front.Whole? then
              Rest(whole, Receive(s[front.size..], rules), before, sent + if front.timely then [Packet(front.frame)] else [])
            else
              && whole.ok == (front.Partial? || (front.Beat? && |s| == front.size) || (front.Plain? && plain))
              && whole.rest == (if front.Partial? then s else [])
              && before + whole.events == sent + if front.Plain? && plain then [Command(s)] else []
  {
    hide Look;
    var front := Look(s, rules);
    if front.Whole? {
      ConcatAssoc(sent, if front.timely then [Packet(front.frame)] else [], Receive(s[front.size..], rules).events);
    }
  }

  class Receiver {
    // One partially received packet per socket, and the packets handed to the protocol queue.
    var packs: map<int, Pack>
    var sent: seq<Event>

    ghost var repr: set<object>

    ghost predicate Holds(a: int)
      reads this, repr
    {
      a in packs ==>
        packs[a] in repr && packs[a].Repr() <= repr && this !in packs[a].Repr() && packs[a].Valid()
    }

    ghost predicate Valid()
      reads this, repr
    {
      && (forall a {:trigger packs[a]} :: a in packs ==> Holds(a))
      && (forall a, b {:trigger packs[a], packs[b]} ::
            a in packs && b in packs && a != b ==> packs[a].Repr() !! packs[b].Repr())
    }

    // What is kept of socket `a`'s unfinished packet.
    ghost function Tail(a: int): Text
      reads this, repr
      requires Valid()
    {
      if a in packs then assert Holds(a); packs[a].Pending() else []
    }

    twostate predicate OthersKept(aid: int)
      requires old(Valid()) && Valid()
      reads this, repr
    {
      forall a {:trigger Tail(a)} :: a != aid ==> Tail(a) == old(Tail(a))
    }

    constructor ()
      ensures Valid() && packs == map[] && sent == []
    {
      packs, sent, repr := map[], [], {};
    }

    // Forgets a socket.
    method Erase(aid: int)
      requires Valid()
      modifies this
      ensures Valid() && Tail(aid) == [] && sent == old(sent) && OthersKept(aid)
    {
      hide Pack.Valid, Pack.Repr, Pack.Pending;
      packs := packs - {aid};
    }

    // A pack in hand: valid, and sharing nothing with those kept.
    ghost predicate Loose(p: Pack)
      reads this, repr, p, p.Repr()
    {
      && p.Repr() <= repr && this !in p.Repr() && p.Valid()
      && forall a {:trigger packs[a]} :: a in packs ==> Holds(a) && p.Repr() !! packs[a].Repr()
    }

    // The pack begun by an earlier fragment, taken out, or a new one.
    method Remnant(aid: int) returns (p: Pack)
      requires Valid()
      modifies this
      ensures Valid() && Loose(p) && fresh(repr - old(repr)) && fresh(p.Repr() - old(repr))
      ensures p.Pending() == old(Tail(aid)) && sent == old(sent)
      ensures packs == old(packs) - {aid} && OthersKept(aid) && Tail(aid) == []
    {
      hide Pack.Valid, Pack.Repr, Pack.Pending;
      if aid in packs {
        assert Holds(aid);
        p := packs[aid];
        packs := packs - {aid};
      } else {
        p := new Pack(aid);
        repr := repr + p.Repr();
      }
    }

    method TakeInto(p: Pack, buf: Text, at: nat, rules: Rules) returns (taken: Taken, next: nat)
      requires Valid() && Loose(p) && at <= |buf|
      modifies this`repr, p.Repr()
      ensures Valid() && Loose(p) && fresh(repr - old(repr)) && fresh(p.Repr() - old(repr) - old(p.Repr()))
      ensures forall a {:trigger Tail(a)} :: Tail(a) == old(Tail(a))
      ensures at <= next <= |buf| && p.Pending() + buf[next..] == old(p.Pending()) + buf[at..]
      ensures var front := Look(old(p.Pending()) + buf[at..], rules);
              match taken
              case BadMask => front.Plain?
              case Incomplete => front.Partial? && next == |buf|
              case Rejected => front.Refused?
              case Complete => (front.Beat? || front.Whole?) && |p.Pending()| == front.size
    {
      hide Look, Pack.Valid, Pack.Repr, Pack.Pending;
      taken, next := p.Take(buf, at, rules);
      repr := repr + p.Repr();
    }

    method Store(aid: int, p: Pack)
      requires Valid() && Loose(p) && aid !in packs
      modifies this`packs
      ensures Valid() && Tail(aid) == p.Pending() && OthersKept(aid)
    {
      hide Pack.Valid, Pack.Repr, Pack.Pending;
      packs := packs[aid := p];
    }

    // What becomes of a packet that is complete.
    method Dispatch(p: Pack, rules: Rules) returns (res: DoPush)
      requires Valid() && Loose(p) && |p.Pending()| >= HEAD_BYTES
      requires |p.Pending()| == HEAD_BYTES + Slot(p.Pending()[..HEAD_BYTES], SLOT_BYTES)
      modifies this`sent
      ensures Valid() && forall a {:trigger Tail(a)} :: Tail(a) == old(Tail(a))
      ensures var h, body := p.Pending()[..HEAD_BYTES], p.Pending()[HEAD_BYTES..];
              var timely := body == [] || rules.now < Slot(h, SLOT_TIME) + rules.timeout;
              if body == [] && Slot(h, SLOT_PROTOCOL) == rules.heartbeat then res == Break && sent == old(sent)
              else res == Continue && sent == old(sent) + if timely then [Packet(Frame(h, body))] else []
    {
      hide Pack.Valid, Pack.Repr, Pack.Pending, Slot;
      p.Done();
      var header, body := p.Parts();
      if p.head.GetValue(SLOT_BYTES) == 0 {
        if p.head.GetValue(SLOT_PROTOCOL) == rules.heartbeat {
          res := Break;
          return;
        }
        sent := sent + [Packet(Frame(header, []))];
      } else if rules.now < p.head.GetValue(SLOT_TIME) + rules.timeout {
        sent := sent + [Packet(Frame(header, body))];
      }
      res := Continue;
    }

    // Hands something on to the protocol queue.
    method Send(event: Event)
      requires Valid()
      modifies this`sent
      ensures Valid() && sent == old(sent) + [event] && forall a {:trigger Tail(a)} :: Tail(a) == old(Tail(a))
    {
      hide Pack.Valid, Pack.Repr, Pack.Pending;
      sent := sent + [event];
    }

    lemma LooseIsValid(p: Pack)
      requires Loose(p)
      ensures p.Valid() && p.Repr() <= repr && this !in p.Repr()
    {
    }

    method DoPush(aid: int, buf: Text, at: nat, rules: Rules) returns (res: DoPush, next: nat)
      requires Valid() && at <= |buf|
      modifies this, repr
      ensures Valid() && fresh(repr - old(repr)) && OthersKept(aid) && at <= next <= |buf|
      ensures at == |buf| ==> res == Break && next == at && Tail(aid) == old(Tail(aid)) && sent == old(sent)
      ensures at < |buf| ==>
                var s := old(Tail(aid)) + buf[at..];
                match Look(s, rules)
                case Partial => res == Break && next == |buf| && Tail(aid) == s && sent == old(sent)
                case Beat(n) => res == Break && buf[next..] == s[n..] && Tail(aid) == [] && sent == old(sent)
                case Whole(f, n, timely) =>
                  && res == Continue && buf[next..] == s[n..] && Tail(aid) == []
                  && sent == old(sent) + if timely then [Packet(f)] else []
                case Refused => res == Error && Tail(aid) == [] && sent == old(sent)
                case Plain =>
                  && Tail(aid) == []
                  && if rules.lan && |s| < TELNET_LIMIT then
                       res == Break && next == |buf| && sent == old(sent) + [Command(s)]
                     else res == Error && sent == old(sent)
    {
      hide Look, Pack.Valid, Pack.Repr, Pack.Pending, Slot, MaskOk, Valid, Tail, Loose;
      res, next := Break, at;
      if |buf| - at <= 0 {
        return;
      }
      ghost var s := Tail(aid) + buf[at..];
      var p := Remnant(aid);
      LooseIsValid(p);
      var taken;
      taken, next := TakeInto(p, buf, at, rules);
      LooseIsValid(p);
      assert OthersKept(aid);
      match taken
      case BadMask =>
        var text := p.Text();
        text := text + buf[next..];
        if !rules.lan || |text| > TELNET_LIMIT - 1 {
          res := Error;
        } else {
          Send(Command(text));
          next := |buf|;
        }
      case Incomplete =>
        Store(aid, p);
      case Rejected =>
        res := Error;
      case Complete =>
        LookWhenDone(s, p.Pending(), buf[next..], rules);
        res := Dispatch(p, rules);
    }

    // One receive buffer, which may hold the end of one packet, several whole ones and the start of another.
    method Push(aid: int, buf: Text, rules: Rules) returns (ok: bool)
      requires Valid()
      modifies this, repr
      ensures Valid() && fresh(repr - old(repr)) && OthersKept(aid)
      ensures buf == [] ==> ok && Tail(aid) == old(Tail(aid)) && sent == old(sent)
      ensures buf != [] ==>
                var r := Receive(old(Tail(aid)) + buf, rules);
                ok == r.ok && Tail(aid) == r.rest && sent == old(sent) + r.events
    {
      hide Look, Valid, Tail, Rest, Receive;
      var at := 0;
      ghost var whole := Receive(Tail(aid) + buf, rules);
      assert buf[0..] == buf;
      LookNothing(rules);
      RestStart(whole, sent);
      while true
        invariant Valid() && fresh(repr - old(repr)) && OthersKept(aid) && at <= |buf|
        invariant buf == [] ==> Tail(aid) == old(Tail(aid)) && sent == old(sent)
        invariant at == |buf| && buf != [] ==> Tail(aid) == []
        invariant buf != [] ==> Rest(whole, Receive(Tail(aid) + buf[at..], rules), old(sent), sent)
        decreases |buf| - at, |Tail(aid)|
      {
        ghost var s := Tail(aid) + buf[at..];
        if buf != [] {
          RestStep(whole, s, rules, old(sent), sent);
        }
        var res;
        res, at := DoPush(aid, buf, at, rules);
        if res == Error {
          ok := false;
          return;
        }
        if res == Break {
          break;
        }
        assert Tail(aid) + buf[at..] == buf[at..] == s[Look(s, rules).size..];
      }
      ok := |buf| - at <= 0;
    }

    // A connection: fragments received one after another until one fails, other sockets untouched.
    method ReceiveAll(aid: int, fragments: seq<Text>, rules: Rules) returns (ok: bool)
      requires Valid() && Look(Tail(aid), rules).Partial?
      modifies this, repr
      ensures Valid() && fresh(repr - old(repr)) && OthersKept(aid)
      ensures var r := Deliver(old(Tail(aid)), fragments, rules);
              ok == r.ok && Tail(aid) == r.rest && sent == old(sent) + r.events
    {
      hide Look, Valid, Tail, Receive;
      ghost var whole := Deliver(Tail(aid), fragments, rules);
      ok := true;
      var k := 0;
      while k < |fragments| && ok
        invariant Valid() && fresh(repr - old(repr)) && OthersKept(aid) && k <= |fragments|
        invariant Look(Tail(aid), rules).Partial?
        invariant ok ==> Rest(whole, Deliver(Tail(aid), fragments[k..], rules), old(sent), sent)
        invariant !ok ==> Rest(whole, Receipt([], Tail(aid), false), old(sent), sent)
      {
        ghost var tail := Tail(aid);
        assert fragments[k..][1..] == fragments[k + 1..];
        ok := Push(aid, fragments[k], rules);
        ReceiveNothing(tail, fragments[k], rules);
        ReceiveRest(tail + fragments[k], rules);
        k := k + 1;
      }
    }
  }
}
