// Exclusive or of octets, bit by bit.

module Xor {
  import opened Bytes
  import opened Common
  import opened Digits

  // Exclusive or of the n low bits.
  function XorBits(a: nat, b: nat, n: nat): nat {
    if n == 0 then 0 else (a + b) % 2 + 2 * XorBits(a / 2, b / 2, n - 1)
  }

  lemma {:induction false} XorBelow(a: nat, b: nat, n: nat)
    ensures XorBits(a, b, n) < Two(n)
    ensures n == 8 ==> Two(n) == 256
  {
    if n > 0 {
      XorBelow(a / 2, b / 2, n - 1);
    }
    assert Two(8) == 2 * (2 * (2 * (2 * (2 * (2 * (2 * (2 * Two(0))))))));
  }

  // Bit `k` of a number.
  function Bit(x: nat, k: nat): bool {
    x / Two(k) % 2 == 1
  }

  lemma HalfBit(x: nat, k: nat)
    ensures Bit(x, 0) <==> x % 2 == 1
    ensures k > 0 ==> (Bit(x, k) <==> Bit(x / 2, k - 1))
  {
    if k > 0 {
      DivDiv(x, 2, Two(k - 1));
    }
  }

  lemma LowBit(b: nat, r: nat, c: nat)
    requires b < 2
    ensures (b + 2 * r) / 2 == r && (b + 2 * r + c) % 2 == (b + c) % 2 && (c + (b + 2 * r)) % 2 == (c + b) % 2
  {
  }

  // The lowest bit of an exclusive or, and the rest of it.
  lemma XorStep(a: nat, b: nat, n: nat)
    requires n > 0
    ensures var x := XorBits(a, b, n);
            x / 2 == XorBits(a / 2, b / 2, n - 1) && x % 2 == (a + b) % 2
  {
    LowBit((a + b) % 2, XorBits(a / 2, b / 2, n - 1), 0);
  }

  lemma SameBits(x: nat, y: nat)
    requires x % 2 == y % 2 && x / 2 == y / 2
    ensures x == y
  {
  }

  lemma BitUndone(a: nat, b: nat, x: nat)
    requires x % 2 == (a + b) % 2
    ensures (x + b) % 2 == a % 2
  {
  }

  lemma HalfBelow(a: nat, n: nat)
    requires a < Two(n) && n > 0
    ensures a / 2 < Two(n - 1)
  {
  }

  lemma {:induction false} XorUndone(a: nat, b: nat, n: nat)
    requires a < Two(n)
    ensures XorBits(XorBits(a, b, n), b, n) == a
  {
    if n > 0 {
      hide XorBits, Two;
      HalfBelow(a, n);
      var x := XorBits(a, b, n);
      XorStep(a, b, n);
      XorStep(x, b, n);
      BitUndone(a, b, x);
      XorUndone(a / 2, b / 2, n - 1);
      SameBits(XorBits(x, b, n), a);
    }
  }

  lemma OneOfTwo(a: nat, b: nat, x: nat)
    requires x % 2 == (a + b) % 2
    ensures x % 2 == 1 <==> (a % 2 == 1) != (b % 2 == 1)
  {
  }

  // A bit of an exclusive or is set where exactly one of the two is.
  lemma {:induction false} XorBit(a: nat, b: nat, n: nat, k: nat)
    requires k < n
    ensures Bit(XorBits(a, b, n), k) <==> Bit(a, k) != Bit(b, k)
    decreases k
  {
    hide XorBits, Bit;
    var x := XorBits(a, b, n);
    XorStep(a, b, n);
    HalfBit(x, k);
    HalfBit(a, k);
    HalfBit(b, k);
    if k > 0 {
      XorBit(a / 2, b / 2, n - 1, k - 1);
    } else {
      OneOfTwo(a, b, x);
    }
  }

  function XorByte(a: Byte, b: Byte): Byte {
    XorBelow(a, b, 8);
    XorBits(a, b, 8)
  }

  lemma XorByteBit(a: Byte, b: Byte, k: nat)
    requires k < 8
    ensures Bit(XorByte(a, b), k) <==> Bit(a, k) != Bit(b, k)
  {
    XorBit(a, b, 8, k);
  }

  lemma XorTwice(a: Byte, b: Byte)
    ensures XorByte(XorByte(a, b), b) == a
  {
    XorBelow(a, b, 8);
    XorUndone(a, b, 8);
  }

  lemma BitAssoc(a: nat, b: nat, c: nat, x: nat, y: nat)
    requires x % 2 == (a + b) % 2 && y % 2 == (b + c) % 2
    ensures (x + c) % 2 == (a + y) % 2
  {
  }

  lemma {:induction false} XorBitsAssoc(a: nat, b: nat, c: nat, n: nat)
    ensures XorBits(XorBits(a, b, n), c, n) == XorBits(a, XorBits(b, c, n), n)
  {
    if n > 0 {
      hide XorBits;
      var x, y := XorBits(a, b, n), XorBits(b, c, n);
      XorStep(a, b, n);
      XorStep(b, c, n);
      XorStep(x, c, n);
      XorStep(a, y, n);
      BitAssoc(a, b, c, x, y);
      XorBitsAssoc(a / 2, b / 2, c / 2, n - 1);
      SameBits(XorBits(x, c, n), XorBits(a, y, n));
    }
  }

  lemma XorByteAssoc(a: Byte, b: Byte, c: Byte)
    ensures XorByte(XorByte(a, b), c) == XorByte(a, XorByte(b, c))
  {
    XorBitsAssoc(a, b, c, 8);
  }
}
