/** Exclusive or on naturals, bit by bit, as FixedHash and the stream cipher use it. */
module Bits {
  import opened Bytes

  predicate Odd(a: nat) {
    a % 2 == 1
  }

  /** The number with the given last bit and the bits of high above it. */
  function Join(high: nat, low: bool): (r: nat)
    ensures r / 2 == high && (Odd(r) <==> low)
  {
    2 * high + if low then 1 else 0
  }

  function Xor(a: nat, b: nat): (r: nat)
    decreases a + b
  {
    if a == 0 then b
    else if b == 0 then a
    else Join(Xor(a / 2, b / 2), Odd(a) != Odd(b))
  }

  /** The last bits are added without carry and the others are independent of them. */
  lemma {:induction false} XorParts(a: nat, b: nat)
    ensures Xor(a, b) / 2 == Xor(a / 2, b / 2)
    ensures Odd(Xor(a, b)) <==> Odd(a) != Odd(b)
  {
    hide Join;
  }

  lemma {:induction false} XorCommutes(a: nat, b: nat)
    ensures Xor(a, b) == Xor(b, a)
    decreases a + b
  {
    if a > 0 && b > 0 {
      XorCommutes(a / 2, b / 2);
    }
  }

  lemma {:induction false} XorSelf(a: nat)
    ensures Xor(a, a) == 0
  {
    if a > 0 {
      XorSelf(a / 2);
    }
  }

  lemma {:induction false} XorAssociates(a: nat, b: nat, c: nat)
    ensures Xor(Xor(a, b), c) == Xor(a, Xor(b, c))
    decreases a + b + c
  {
    if a + b + c > 0 {
      hide Xor, Odd;
      XorAssociates(a / 2, b / 2, c / 2);
      XorParts(a, b);
      XorParts(b, c);
      XorParts(Xor(a, b), c);
      XorParts(a, Xor(b, c));
      SameParts(Xor(Xor(a, b), c), Xor(a, Xor(b, c)));
    }
  }

  lemma SameParts(x: nat, y: nat)
    requires x / 2 == y / 2 && (Odd(x) <==> Odd(y))
    ensures x == y
  {
  }

  lemma XorUndoes(a: nat, b: nat)
    ensures Xor(Xor(a, b), b) == a
  {
    XorAssociates(a, b, b);
    XorSelf(b);
  }

  function Pow2(n: nat): (r: nat)
    ensures r > 0
  {
    if n == 0 then 1 else 2 * Pow2(n - 1)
  }

  lemma {:induction false} XorBound(a: nat, b: nat, n: nat)
    requires a < Pow2(n) && b < Pow2(n)
    ensures Xor(a, b) < Pow2(n)
  {
    if a > 0 && b > 0 {
      XorBound(a / 2, b / 2, n - 1);
      assert Xor(a, b) <= 2 * Xor(a / 2, b / 2) + 1;
    }
  }

  function XorByte(a: byte, b: byte): (r: byte)
    ensures r as nat == Xor(a as nat, b as nat)
  {
    assert Pow2(8) == 256;
    XorBound(a as nat, b as nat, 8);
    Xor(a as nat, b as nat) as byte
  }

  function XorBytes(a: seq<byte>, b: seq<byte>): (r: seq<byte>)
    requires |a| == |b|
    ensures |r| == |a|
  {
    seq(|a|, i requires 0 <= i < |a| => XorByte(a[i], b[i]))
  }

  lemma XorBytesUndoes(a: seq<byte>, b: seq<byte>)
    requires |a| == |b|
    ensures XorBytes(XorBytes(a, b), b) == a
  {
    forall i | 0 <= i < |a| ensures XorBytes(XorBytes(a, b), b)[i] == a[i] {
      XorUndoes(a[i] as nat, b[i] as nat);
    }
  }
}
