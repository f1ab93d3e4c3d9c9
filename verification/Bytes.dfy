// Octets and the strings made of them, shared by the modules that work on raw bytes.

module Bytes {
  type Byte = x: int | 0 <= x < 256

  type Text = seq<Byte>

  ghost function Concat(pieces: seq<Text>): Text {
    if pieces == [] then [] else pieces[0] + Concat(pieces[1..])
  }

  lemma {:induction false} ConcatAppend(pieces: seq<Text>, last: Text)
    ensures Concat(pieces + [last]) == Concat(pieces) + last
  {
    if pieces == [] {
      assert pieces + [last] == [last];
    } else {
      assert (pieces + [last])[1..] == pieces[1..] + [last];
      ConcatAppend(pieces[1..], last);
    }
  }

  // Copies bytes into a buffer.
  method Memcpy(a: array<Byte>, at: nat, bytes: Text)
    requires at + |bytes| <= a.Length
    modifies a
    ensures a[..] == old(a[..at]) + bytes + old(a[at + |bytes|..])
    ensures a[..at] == old(a[..at]) && a[at..at + |bytes|] == bytes
  {
    forall i | 0 <= i < |bytes| {
      a[at + i] := bytes[i];
    }
  }
}
