// The framed stream as plain functions: what one receive makes of the bytes pending on a socket, an ideal
// parser that sees the whole stream at once, and how far cutting the stream into fragments matters.

module Framing {
  import opened Bytes
  import opened LittleEndian

  const HEAD_BYTES := 36
  const MASK_BYTES := 8
  const MASK_VALUE: Byte := 0xFF
  const SLOT_BYTES := 2
  const SLOT_TIME := 3
  const SLOT_PROTOCOL := 4
  const SLOT_ACTOR := 5
  const SLOT_REQUEST := 7
  const TELNET_LIMIT := 10240
  const BODY_LIMIT := 8129

  // A packet: its raw header and its body.
  datatype Frame = Frame(head: Text, body: Text)

  datatype Event = Packet(frame: Frame) | Command(text: Text)

  // What the receiver is told from outside: whether the peer is on the LAN, whether this node is a robot,
  // the clock, the configured timeout, and the protocol number of heartbeats.
  datatype Rules = Rules(lan: bool, robot: bool, now: int, timeout: int, heartbeat: int)

  function Slot(head: Text, k: nat): int
    requires 4 * k + 4 <= |head|
  {
    GetSigned(head[4 * k..4 * k + 4])
  }

  ghost predicate MaskOk(s: Text) {
    forall i :: 0 <= i < |s| && i < MASK_BYTES ==> s[i] == MASK_VALUE
  }

  // What stands at the front of the pending bytes.
  datatype Front =
    | Partial
    | Beat(size: nat)
    | Whole(frame: Frame, size: nat, timely: bool)
    | Refused
    | Plain

  // A packet without body is dispatched whatever its age; a heartbeat is such a packet and goes nowhere.
  ghost function Look(s: Text, rules: Rules): (front: Front)
    ensures front.Beat? || front.Whole? ==> HEAD_BYTES <= front.size <= |s|
  {
    if !MaskOk(s) then Plain
    else if |s| < HEAD_BYTES then Partial
    else
      var len := Slot(s, SLOT_BYTES);
      if len < 0 || (!rules.lan && !rules.robot && len >= BODY_LIMIT) then Refused
      else if len == 0 then
        if Slot(s, SLOT_PROTOCOL) == rules.heartbeat then Beat(HEAD_BYTES)
        else Whole(Frame(s[..HEAD_BYTES], []), HEAD_BYTES, true)
      else if |s| < HEAD_BYTES + len then Partial
      else
        Whole(Frame(s[..HEAD_BYTES], s[HEAD_BYTES..HEAD_BYTES + len]), HEAD_BYTES + len,
              rules.now < Slot(s, SLOT_TIME) + rules.timeout)
  }

  datatype Receipt = Receipt(events: seq<Event>, rest: Text, ok: bool)

  // One receive. Unread bytes behind a heartbeat are lost and make the receive fail.
  ghost function Receive(s: Text, rules: Rules): Receipt
    decreases |s|
  {
    match Look(s, rules)
    case Partial => Receipt([], s, true)
    case Beat(n) => Receipt([], [], |s| == n)
    case Whole(f, n, timely) =>
      var r := Receive(s[n..], rules);
      r.(events := (if timely then [Packet(f)] else []) + r.events)
    case Refused => Receipt([], [], false)
    case Plain =>
      if rules.lan && |s| < TELNET_LIMIT then Receipt([Command(s)], [], true) else Receipt([], [], false)
  }

  datatype Outcome = Outcome(frames: seq<Frame>, beats: seq<nat>, rest: Text, good: bool)

  // What was found first, then what was found behind it.
  ghost function Join(o: Outcome, p: Outcome): Outcome {
    Outcome(o.frames + p.frames, o.beats + p.beats, p.rest, p.good)
  }

  lemma JoinAssoc(o: Outcome, p: Outcome, q: Outcome)
    ensures Join(Join(o, p), q) == Join(o, Join(p, q))
  {
  }

  ghost function Found(front: Front, at: nat): Outcome {
    match front
    case Beat(n) => Outcome([], [at + n], [], true)
    case Whole(f, n, timely) => Outcome(if timely then [f] else [], [], [], true)
    case _ => Outcome([], [], [], true)
  }

  // The whole stream from position `at` on: packets in order, the positions at which heartbeats end, the
  // incomplete tail, and whether every frame is acceptable.
  ghost function Parse(s: Text, rules: Rules, at: nat): Outcome
    decreases |s|
  {
    var front := Look(s, rules);
    match front
    case Beat(n) => Join(Found(front, at), Parse(s[n..], rules, at + n))
    case Whole(_, n, _) => Join(Found(front, at), Parse(s[n..], rules, at + n))
    case _ => Outcome([], [], s, front.Partial?)
  }

  lemma HeadStable(a: Text, b: Text)
    ensures MaskOk(a + b) ==> MaskOk(a)
    ensures |a| >= HEAD_BYTES ==> MaskOk(a + b) == MaskOk(a)
    ensures |a| >= HEAD_BYTES ==> forall k: nat {:trigger Slot(a, k)} :: k < 9 ==> Slot(a + b, k) == Slot(a, k)
    ensures |a| >= HEAD_BYTES ==> (a + b)[..HEAD_BYTES] == a[..HEAD_BYTES]
  {
    if MaskOk(a + b) {
      forall i | 0 <= i < |a| && i < MASK_BYTES ensures a[i] == MASK_VALUE {
        assert (a + b)[i] == a[i];
      }
    }
    if |a| >= HEAD_BYTES {
      assert forall k: nat {:trigger Slot(a, k)} :: k < 9 ==> (a + b)[4 * k..4 * k + 4] == a[4 * k..4 * k + 4];
    }
  }

  // More bytes do not change a complete front, nor do they mend a bad one; and a front that ends within a
  // first part is seen there already.
  lemma LookStable(a: Text, b: Text, rules: Rules)
    ensures Look(a, rules).Beat? || Look(a, rules).Whole? ==> Look(a + b, rules) == Look(a, rules)
    ensures Look(a, rules).Refused? || Look(a, rules).Plain? ==> Look(a + b, rules).Refused? || Look(a + b, rules).Plain?
    ensures var front := Look(a + b, rules);
            (front.Beat? || front.Whole?) && front.size <= |a| ==> Look(a, rules) == front
  {
    hide Slot, MaskOk;
    HeadStable(a, b);
    if |a| >= HEAD_BYTES {
      var len := Slot(a, SLOT_BYTES);
      assert len == Slot(a + b, SLOT_BYTES) && Slot(a, SLOT_PROTOCOL) == Slot(a + b, SLOT_PROTOCOL);
      assert Slot(a, SLOT_TIME) == Slot(a + b, SLOT_TIME);
      if 0 < len && HEAD_BYTES + len <= |a| {
        assert (a + b)[HEAD_BYTES..HEAD_BYTES + len] == a[HEAD_BYTES..HEAD_BYTES + len];
      }
    }
  }

  lemma {:induction false} GoodPrefix(a: Text, b: Text, rules: Rules, at: nat)
    requires Parse(a + b, rules, at).good
    ensures Parse(a, rules, at).good
    decreases |a|
  {
    hide Look;
    LookStable(a, b, rules);
    var front := Look(a, rules);
    if front.Beat? || front.Whole? {
      assert (a + b)[front.size..] == a[front.size..] + b;
      GoodPrefix(a[front.size..], b, rules, at + front.size);
    }
  }

  lemma {:induction false} BeatsInside(s: Text, rules: Rules, at: nat)
    ensures forall i :: 0 <= i < |Parse(s, rules, at).beats| ==> at < Parse(s, rules, at).beats[i] <= at + |s|
    ensures Parse(s, rules, at).good ==> Look(Parse(s, rules, at).rest, rules).Partial?
    decreases |s|
  {
    hide Look;
    var front := Look(s, rules);
    if front.Beat? || front.Whole? {
      BeatsInside(s[front.size..], rules, at + front.size);
    }
  }

  // Behind an incomplete tail the next heartbeat can only end further on.
  lemma BeatsBeyond(a: Text, b: Text, rules: Rules, at: nat)
    requires Look(a, rules).Partial?
    ensures forall i :: 0 <= i < |Parse(a + b, rules, at).beats| ==> at + |a| < Parse(a + b, rules, at).beats[i]
  {
    hide Look;
    LookStable(a, b, rules);
    var front := Look(a + b, rules);
    if front.Beat? || front.Whole? {
      BeatsInside((a + b)[front.size..], rules, at + front.size);
    }
  }

  lemma JoinRest(o: Outcome, p: Outcome)
    ensures Join(o, p).rest == p.rest && Join(o, p).good == p.good
  {
  }

  lemma JoinNothing(o: Outcome, p: Outcome)
    requires o.frames == [] && o.beats == []
    ensures Join(o, p) == p
  {
  }

  // Parsing a stream is parsing a first part of it, then the rest behind what that left over.
  lemma {:induction false} ParseAppend(a: Text, b: Text, rules: Rules, at: nat)
    requires Parse(a, rules, at).good
    ensures var o := Parse(a, rules, at);
            && |o.rest| <= |a|
            && Parse(a + b, rules, at) == Join(o, Parse(o.rest + b, rules, at + |a| - |o.rest|))
    decreases |a|
  {
    hide Look, Join;
    var front := Look(a, rules);
    if front.Beat? || front.Whole? {
      LookStable(a, b, rules);
      var a1, at1 := a[front.size..], at + front.size;
      assert (a + b)[front.size..] == a1 + b;
      JoinRest(Found(front, at), Parse(a1, rules, at1));
      ParseAppend(a1, b, rules, at1);
      var o1 := Parse(a1, rules, at1);
      JoinAssoc(Found(front, at), o1, Parse(o1.rest + b, rules, at1 + |a1| - |o1.rest|));
    } else {
      JoinNothing(Parse(a, rules, at), Parse(a + b, rules, at));
    }
  }

  // A heartbeat counts as sent last when nothing follows it in its receive.
  ghost predicate AllAt(beats: seq<nat>, end: nat) {
    forall i :: 0 <= i < |beats| ==> beats[i] == end
  }

  function Packets(frames: seq<Frame>): seq<Event> {
    seq(|frames|, i requires 0 <= i < |frames| => Packet(frames[i]))
  }

  lemma JoinFound(front: Front, at: nat, o: Outcome)
    ensures front.Beat? ==> Join(Found(front, at), o).beats == [at + front.size] + o.beats
    ensures front.Beat? ==> Join(Found(front, at), o).frames == o.frames
    ensures front.Whole? ==>
              && Join(Found(front, at), o).beats == o.beats
              && Packets(Join(Found(front, at), o).frames) ==
                 (if front.timely then [Packet(front.frame)] else []) + Packets(o.frames)
  {
  }

  lemma LookNothing(rules: Rules)
    ensures Look([], rules).Partial? && Packets([]) == []
  {
  }

  // One receive of acceptable frames succeeds exactly when no heartbeat in it is followed by anything,
  // and then it dispatches what the ideal parser finds and keeps the same tail.
  lemma {:induction false} ReceiveIsParse(s: Text, rules: Rules, at: nat)
    requires Parse(s, rules, at).good
    ensures Receive(s, rules).ok <==> AllAt(Parse(s, rules, at).beats, at + |s|)
    ensures Receive(s, rules).ok ==>
              && Receive(s, rules).events == Packets(Parse(s, rules, at).frames)
              && Receive(s, rules).rest == Parse(s, rules, at).rest
    decreases |s|
  {
    hide Look, Join, Packets;
    var front := Look(s, rules);
    if front.Beat? || front.Whole? {
      var o := Parse(s[front.size..], rules, at + front.size);
      JoinRest(Found(front, at), o);
      JoinFound(front, at, o);
      if front.Whole? {
        ReceiveIsParse(s[front.size..], rules, at + front.size);
      } else if |s| == front.size {
        assert s[front.size..] == [];
        LookNothing(rules);
      } else {
        assert ([at + front.size] + o.beats)[0] == at + front.size;
      }
    } else {
      LookNothing(rules);
    }
  }

  lemma {:induction false} ReceiveRest(s: Text, rules: Rules)
    ensures Look(Receive(s, rules).rest, rules).Partial?
    decreases |s|
  {
    hide Look;
    LookNothing(rules);
    var front := Look(s, rules);
    if front.Whole? {
      ReceiveRest(s[front.size..], rules);
    }
  }

  // The stream positions at which a fragment ends.
  ghost function Cuts(fragments: seq<Text>, at: nat): set<nat> {
    if fragments == [] then {} else {at + |fragments[0]|} + Cuts(fragments[1..], at + |fragments[0]|)
  }

  // Fragments received one after another, up to the first failure.
  ghost function Deliver(tail: Text, fragments: seq<Text>, rules: Rules): Receipt
    decreases |fragments|
  {
    if fragments == [] then Receipt([], tail, true)
    else
      var r := Receive(tail + fragments[0], rules);
      if !r.ok then r
      else
        var more := Deliver(r.rest, fragments[1..], rules);
        more.(events := r.events + more.events)
  }

  ghost predicate HeardAtCuts(beats: seq<nat>, cuts: set<nat>) {
    forall i :: 0 <= i < |beats| ==> beats[i] in cuts
  }

  lemma ParsePartial(tail: Text, rules: Rules, at: nat)
    requires Look(tail, rules).Partial?
    ensures Parse(tail, rules, at) == Outcome([], [], tail, true)
    ensures forall cuts :: HeardAtCuts([], cuts)
  {
  }

  lemma {:induction false} CutsAhead(fragments: seq<Text>, at: nat)
    ensures forall c :: c in Cuts(fragments, at) ==> c >= at
  {
    if fragments != [] {
      CutsAhead(fragments[1..], at + |fragments[0]|);
    }
  }

  lemma HeardSplit(early: seq<nat>, late: seq<nat>, end: nat, cuts: set<nat>)
    requires forall i :: 0 <= i < |early| ==> early[i] <= end
    requires forall i :: 0 <= i < |late| ==> end < late[i]
    requires forall c :: c in cuts ==> c >= end
    ensures HeardAtCuts(early + late, {end} + cuts) <==> AllAt(early, end) && HeardAtCuts(late, cuts)
  {
    var all := early + late;
    if HeardAtCuts(all, {end} + cuts) {
      assert forall i :: 0 <= i < |early| ==> all[i] == early[i] && all[i] in {end} + cuts;
      assert forall i :: 0 <= i < |late| ==> all[|early| + i] == late[i] && all[|early| + i] in {end} + cuts;
    }
  }

  // However a stream of acceptable frames is cut, every receive succeeds exactly when each heartbeat ends
  // a fragment; then the packets dispatched and the tail kept are those of the uncut stream.
  lemma {:induction false} Fragmentation(tail: Text, fragments: seq<Text>, rules: Rules, at: nat)
    requires Look(tail, rules).Partial?
    requires Parse(tail + Concat(fragments), rules, at).good
    ensures var o, r := Parse(tail + Concat(fragments), rules, at), Deliver(tail, fragments, rules);
            && (r.ok <==> HeardAtCuts(o.beats, Cuts(fragments, at + |tail|)))
            && (r.ok ==> r.events == Packets(o.frames) && r.rest == o.rest)
    decreases |fragments|
  {
    hide Look, Parse, Receive, HeardAtCuts, AllAt;
    if fragments == [] {
      assert tail + [] == tail;
      ParsePartial(tail, rules, at);
    } else {
      var pending, later := tail + fragments[0], Concat(fragments[1..]);
      var end := at + |pending|;
      assert tail + Concat(fragments) == pending + later;
      GoodPrefix(pending, later, rules, at);
      ParseAppend(pending, later, rules, at);
      BeatsInside(pending, rules, at);
      ReceiveIsParse(pending, rules, at);
      CutsAhead(fragments[1..], end);
      var o := Parse(pending, rules, at);
      var p := Parse(o.rest + later, rules, end - |o.rest|);
      BeatsBeyond(o.rest, later, rules, end - |o.rest|);
      HeardSplit(o.beats, p.beats, end, Cuts(fragments[1..], end));
      if Receive(pending, rules).ok {
        Fragmentation(o.rest, fragments[1..], rules, end - |o.rest|);
      }
    }
  }

  // The header of a frame, and the body length, clock and protocol found in it.
  predicate IsHead(head: Text) {
    |head| == 36 && forall i :: 0 <= i < 8 ==> head[i] == 0xFF
  }

  lemma LookAtHead(head: Text, more: Text, rules: Rules)
    requires IsHead(head)
    ensures var s, len := head + more, GetSigned(head[8..12]);
      && MaskOk(s) && |s| >= HEAD_BYTES && s[..36] == head && s[36..] == more
      && Slot(s, SLOT_BYTES) == len && Slot(s, SLOT_TIME) == GetSigned(head[12..16])
      && Slot(s, SLOT_PROTOCOL) == GetSigned(head[16..20])
      && (0 <= len <= |more| ==> s[36..36 + len] == more[..len] && s[36 + len..] == more[len..])
  {
    hide GetSigned;
    var s := head + more;
    assert s[8..12] == head[8..12] && s[12..16] == head[12..16] && s[16..20] == head[16..20];
  }

  lemma LookCases(head: Text, more: Text, rules: Rules)
    requires IsHead(head)
    ensures var len := GetSigned(head[8..12]);
      var body := if 0 <= len <= |more| then more[..len] else [];
      Look(head + more, rules) ==
        if len < 0 || (len >= 8129 && !rules.lan && !rules.robot) then Refused
        else if len == 0 && GetSigned(head[16..20]) == rules.heartbeat then Beat(36)
        else if |more| < len then Partial
        else Whole(Frame(head, body), 36 + len, len == 0 || rules.now < GetSigned(head[12..16]) + rules.timeout)
  {
    LookAtHead(head, more, rules);
    hide GetSigned, Slot, MaskOk, IsHead;
  }

  // One receive, byte by byte. A length that is negative, or not below 8129 from outside, is refused.
  lemma ReceiveBadLength(head: Text, more: Text, rules: Rules)
    requires IsHead(head)
    requires var len := GetSigned(head[8..12]); len < 0 || (len >= 8129 && !rules.lan && !rules.robot)
    ensures Receive(head + more, rules) == Receipt([], [], false)
  {
    LookCases(head, more, rules);
    hide GetSigned, Look;
  }

  // A packet without body is a heartbeat, by its protocol, and goes nowhere; or it is dispatched.
  lemma ReceiveEmpty(head: Text, more: Text, rules: Rules)
    requires IsHead(head) && GetSigned(head[8..12]) == 0
    ensures if GetSigned(head[16..20]) == rules.heartbeat then Receive(head + more, rules) == Receipt([], [], more == [])
            else
              var r := Receive(more, rules);
              Receive(head + more, rules) == r.(events := [Packet(Frame(head, []))] + r.events)
  {
    LookCases(head, more, rules);
    assert (head + more)[36..] == more;
    hide GetSigned, Look;
  }

  // A packet with a body waits for its bytes, and is dispatched while its clock plus the timeout is ahead of the
  // receiver's.
  lemma ReceiveBody(head: Text, more: Text, rules: Rules)
    requires IsHead(head) && 0 < GetSigned(head[8..12])
    requires GetSigned(head[8..12]) < 8129 || rules.lan || rules.robot
    ensures var len := GetSigned(head[8..12]);
      if |more| < len then Receive(head + more, rules) == Receipt([], head + more, true)
      else
        var r := Receive(more[len..], rules);
        var timely := rules.now < GetSigned(head[12..16]) + rules.timeout;
        Receive(head + more, rules) == r.(events := (if timely then [Packet(Frame(head, more[..len]))] else []) + r.events)
  {
    LookCases(head, more, rules);
    var len := GetSigned(head[8..12]);
    if len <= |more| {
      assert (head + more)[36 + len..] == more[len..];
    }
    hide GetSigned, Look;
  }

  // What begins with another byte than 0xFF is a command, taken whole from the LAN when shorter than 10240 bytes.
  lemma ReceiveOther(s: Text, i: nat, rules: Rules)
    requires i < |s| && i < 8 && s[i] != 0xFF
    ensures Receive(s, rules) == if rules.lan && |s| < 10240 then Receipt([Command(s)], [], true) else Receipt([], [], false)
  {
  }

  // What a peer may send: a header with the mask and the true body length, and a body within the limit.
  ghost predicate WellFormed(f: Frame, rules: Rules) {
    && |f.head| == HEAD_BYTES && MaskOk(f.head) && Slot(f.head, SLOT_BYTES) == |f.body|
    && (rules.lan || rules.robot || |f.body| < BODY_LIMIT)
  }

  ghost predicate IsBeat(f: Frame, rules: Rules)
    requires |f.head| == HEAD_BYTES
  {
    f.body == [] && Slot(f.head, SLOT_PROTOCOL) == rules.heartbeat
  }

  ghost predicate Timely(f: Frame, rules: Rules)
    requires |f.head| == HEAD_BYTES
  {
    f.body == [] || rules.now < Slot(f.head, SLOT_TIME) + rules.timeout
  }

  ghost predicate AllWellFormed(frames: seq<Frame>, rules: Rules) {
    forall i :: 0 <= i < |frames| ==> WellFormed(frames[i], rules)
  }

  ghost predicate NoBeats(frames: seq<Frame>, rules: Rules)
    requires AllWellFormed(frames, rules)
  {
    forall i :: 0 <= i < |frames| ==> !IsBeat(frames[i], rules)
  }

  ghost function Wire(frames: seq<Frame>): Text {
    if frames == [] then [] else frames[0].head + frames[0].body + Wire(frames[1..])
  }

  // The packets of a list of frames that are to be dispatched.
  ghost function Dispatched(frames: seq<Frame>, rules: Rules): seq<Frame>
    requires AllWellFormed(frames, rules)
  {
    if frames == [] then []
    else
      (if !IsBeat(frames[0], rules) && Timely(frames[0], rules) then [frames[0]] else [])
      + Dispatched(frames[1..], rules)
  }

  lemma LookOfFrame(f: Frame, more: Text, rules: Rules)
    requires WellFormed(f, rules)
    ensures Look(f.head + f.body + more, rules) ==
            if IsBeat(f, rules) then Beat(HEAD_BYTES) else Whole(f, HEAD_BYTES + |f.body|, Timely(f, rules))
  {
    var s := f.head + f.body;
    HeadStable(f.head, f.body);
    hide Slot, MaskOk;
    assert s[..HEAD_BYTES] == f.head && s[HEAD_BYTES..HEAD_BYTES + |f.body|] == f.body;
    assert Slot(f.head, SLOT_BYTES) == Slot(s, SLOT_BYTES) && Slot(f.head, SLOT_PROTOCOL) == Slot(s, SLOT_PROTOCOL);
    assert Slot(f.head, SLOT_TIME) == Slot(s, SLOT_TIME);
    LookStable(s, more, rules);
  }

  lemma WellFormedSize(f: Frame, rules: Rules)
    requires WellFormed(f, rules)
    ensures |f.head| == HEAD_BYTES && (IsBeat(f, rules) ==> f.body == [])
  {
  }

  // The parser undoes sending: it finds the frames sent, heartbeats and stale packets apart, and the tail.
  lemma {:induction false} ParseOfWire(frames: seq<Frame>, tail: Text, rules: Rules, at: nat)
    requires AllWellFormed(frames, rules) && Look(tail, rules).Partial?
    ensures var o := Parse(Wire(frames) + tail, rules, at);
            && o.good && o.rest == tail && o.frames == Dispatched(frames, rules)
            && (o.beats == [] <==> NoBeats(frames, rules))
    decreases |frames|
  {
    hide Look, WellFormed, IsBeat, Timely;
    if frames == [] {
      assert Wire(frames) + tail == tail;
    } else {
      var f, more := frames[0], Wire(frames[1..]) + tail;
      var s := Wire(frames) + tail;
      assert s == f.head + f.body + more;
      LookOfFrame(f, more, rules);
      WellFormedSize(f, rules);
      assert s[HEAD_BYTES + |f.body|..] == more;
      ParseOfWire(frames[1..], tail, rules, at + HEAD_BYTES + |f.body|);
      assert forall i :: 0 < i < |frames| ==> frames[i] == frames[1..][i - 1];
    }
  }

  // Frames without heartbeats, cut anyhow: every receive succeeds, exactly the timely packets are
  // dispatched, in order, and exactly the incomplete tail is kept.
  lemma WireDelivered(frames: seq<Frame>, tail: Text, fragments: seq<Text>, rules: Rules)
    requires AllWellFormed(frames, rules) && Look(tail, rules).Partial?
    requires NoBeats(frames, rules)
    requires Concat(fragments) == Wire(frames) + tail
    ensures Deliver([], fragments, rules) == Receipt(Packets(Dispatched(frames, rules)), tail, true)
  {
    ParseOfWire(frames, tail, rules, 0);
    LookNothing(rules);
    assert [] + Concat(fragments) == Concat(fragments);
    Fragmentation([], fragments, rules, 0);
  }

  // A heartbeat with another frame behind it in the same receive: the receive fails and that frame is lost.
  lemma BeatThenFrameFails(beat: Frame, f: Frame, rules: Rules)
    requires WellFormed(beat, rules) && IsBeat(beat, rules) && WellFormed(f, rules)
    ensures Receive(Wire([beat, f]), rules) == Receipt([], [], false)
    ensures Deliver([], [Wire([beat]), Wire([f])], rules).ok
  {
    WellFormedSize(beat, rules);
    WellFormedSize(f, rules);
    hide Look, WellFormed, IsBeat, Timely;
    assert Wire([beat, f]) == beat.head + beat.body + Wire([f]);
    assert |Wire([f])| >= HEAD_BYTES;
    LookOfFrame(beat, Wire([f]), rules);
    LookOfFrame(beat, [], rules);
    LookOfFrame(f, [], rules);
    assert Wire([beat]) == beat.head + beat.body + [] && Wire([f]) == f.head + f.body + [];
    assert [] + Wire([beat]) == Wire([beat]) && [] + Wire([f]) == Wire([f]);
    assert Receive(Wire([beat]), rules) == Receipt([], [], true);
    LookNothing(rules);
    assert Wire([f])[HEAD_BYTES + |f.body|..] == [];
    assert Receive([], rules).ok;
    assert Receive(Wire([f]), rules).ok;
    assert [Wire([beat]), Wire([f])][1..] == [Wire([f])];
    assert Deliver([], [Wire([f])], rules).ok;
  }
}
