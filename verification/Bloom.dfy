/** The Bloom filter functions of libdevcore/FixedHash.h, bit by bit. */
module Bloom {
  import opened Bytes
  import opened Bits
  import opened Modulo

  /** Bit i of a number. */
  predicate Bit(n: nat, i: nat) {
    if i == 0 then Odd(n) else Bit(n / 2, i - 1)
  }

  function Or(a: nat, b: nat): nat
    decreases a + b
  {
    if a == 0 then b else if b == 0 then a else Join(Or(a / 2, b / 2), Odd(a) || Odd(b))
  }

  function And(a: nat, b: nat): nat
    decreases a
  {
    if a == 0 || b == 0 then 0 else Join(And(a / 2, b / 2), Odd(a) && Odd(b))
  }

  lemma {:induction false} ZeroBits(i: nat)
    ensures !Bit(0, i)
  {
    if i > 0 {
      ZeroBits(i - 1);
    }
  }

  lemma {:induction false} OrBits(a: nat, b: nat, i: nat)
    ensures Bit(Or(a, b), i) <==> Bit(a, i) || Bit(b, i)
    decreases a + b
  {
    ZeroBits(i);
    if a > 0 && b > 0 && i > 0 {
      OrBits(a / 2, b / 2, i - 1);
    }
  }

  lemma {:induction false} AndBits(a: nat, b: nat, i: nat)
    ensures Bit(And(a, b), i) <==> Bit(a, i) && Bit(b, i)
    decreases a
  {
    ZeroBits(i);
    if a > 0 && b > 0 && i > 0 {
      AndBits(a / 2, b / 2, i - 1);
    }
  }

  lemma {:induction false} SameBits(a: nat, b: nat, n: nat)
    requires a < Pow2(n) && b < Pow2(n) && forall i :: 0 <= i < n ==> (Bit(a, i) <==> Bit(b, i))
    ensures a == b
  {
    if n > 0 {
      forall i | 0 <= i < n - 1 ensures Bit(a / 2, i) <==> Bit(b / 2, i) {
        assert Bit(a, i + 1) <==> Bit(b, i + 1);
      }
      SameBits(a / 2, b / 2, n - 1);
      assert Bit(a, 0) <==> Bit(b, 0);
      SameParts(a, b);
    }
  }

  lemma {:induction false} OrBound(a: nat, b: nat, n: nat)
    requires a < Pow2(n) && b < Pow2(n)
    ensures Or(a, b) < Pow2(n)
  {
    if a > 0 && b > 0 {
      OrBound(a / 2, b / 2, n - 1);
      assert Or(a, b) <= 2 * Or(a / 2, b / 2) + 1;
    }
  }

  lemma {:induction false} AndBound(a: nat, b: nat)
    ensures And(a, b) <= b
    decreases a
  {
    if a > 0 && b > 0 {
      AndBound(a / 2, b / 2);
    }
  }

  /** Only one bit of a power of two is set. */
  lemma {:induction false} PowerBits(k: nat, i: nat)
    ensures Bit(Pow2(k), i) <==> i == k
  {
    if k == 0 {
      if i > 0 {
        ZeroBits(i - 1);
      }
    } else if i > 0 {
      PowerBits(k - 1, i - 1);
    }
  }

  /** A mask of ones is a remainder. */
  lemma {:induction false} MaskIsRemainder(x: nat, k: nat)
    ensures And(x, Pow2(k) - 1) == x % Pow2(k)
    decreases k
  {
    hide And;
    if k == 0 {
      AndBound(x, 0);
      ModuloUnique(x, x, 0, 1);
    } else {
      MaskIsRemainder(x / 2, k - 1);
      SplitModulo(x, 2, Pow2(k - 1));
      AndOdd(x, Pow2(k - 1));
    }
  }

  lemma AndOdd(x: nat, m: nat)
    requires m > 0
    ensures And(x, 2 * m - 1) == 2 * And(x / 2, m - 1) + x % 2
  {
    assert (2 * m - 1) / 2 == m - 1 && Odd(2 * m - 1);
  }

  function OrByte(a: byte, b: byte): (r: byte)
    ensures r as nat == Or(a as nat, b as nat)
  {
    assert Pow2(8) == 256;
    OrBound(a as nat, b as nat, 8);
    Or(a as nat, b as nat) as byte
  }

  function AndByte(a: byte, b: byte): (r: byte)
    ensures r as nat == And(a as nat, b as nat)
  {
    AndBound(a as nat, b as nat);
    And(a as nat, b as nat) as byte
  }

  /** Bit k of a hash, counted from its last byte. */
  predicate BitAt(s: seq<byte>, k: nat)
    requires k < 8 * |s|
  {
    Bit(s[|s| - 1 - k / 8] as nat, k % 8)
  }

  /** In-place or: a bit is set if it was set in either. */
  method OrWith(a: array<byte>, b: seq<byte>)
    requires a.Length == |b|
    modifies a
    ensures forall k :: 0 <= k < 8 * |b| ==> (BitAt(a[..], k) <==> BitAt(old(a[..]), k) || BitAt(b, k))
  {
    hide Bit, Or;
    for i := 0 to a.Length
      invariant forall j :: 0 <= j < i ==> a[j] as nat == Or(old(a[j]) as nat, b[j] as nat)
      invariant forall j :: i <= j < a.Length ==> a[j] == old(a[j])
    {
      a[i] := OrByte(a[i], b[i]);
    }
    forall k | 0 <= k < 8 * |b| ensures BitAt(a[..], k) <==> BitAt(old(a[..]), k) || BitAt(b, k) {
      var j := |b| - 1 - k / 8;
      OrBits(old(a[j]) as nat, b[j] as nat, k % 8);
    }
  }

  ghost predicate HasAll(a: seq<byte>, c: seq<byte>)
    requires |a| == |c|
  {
    forall k :: 0 <= k < 8 * |c| && BitAt(c, k) ==> BitAt(a, k)
  }

  /** Whether every bit of c is set in a. */
  method Contains(a: seq<byte>, c: seq<byte>) returns (r: bool)
    requires |a| == |c|
    ensures r <==> HasAll(a, c)
  {
    hide BitAt, And;
    r := true;
    for i := 0 to |a|
      invariant forall k :: 8 * (|c| - i) <= k < 8 * |c| && BitAt(c, k) ==> BitAt(a, k)
    {
      if AndByte(a[i], c[i]) != c[i] {
        var k := LostBit(a, c, i);
        return false;
      }
      forall k | 8 * (|c| - i - 1) <= k < 8 * (|c| - i) && BitAt(c, k) ensures BitAt(a, k) {
        KeptBit(a, c, i, k);
      }
    }
  }

  lemma KeptBit(a: seq<byte>, c: seq<byte>, i: nat, k: nat)
    requires |a| == |c| && i < |a| && 8 * (|c| - i - 1) <= k < 8 * (|c| - i)
    requires And(a[i] as nat, c[i] as nat) == c[i] as nat && BitAt(c, k)
    ensures BitAt(a, k)
  {
    hide Bit, And;
    assert |c| - 1 - k / 8 == i;
    AndBits(a[i] as nat, c[i] as nat, k % 8);
  }

  lemma LostBit(a: seq<byte>, c: seq<byte>, i: nat) returns (k: nat)
    requires |a| == |c| && i < |a| && And(a[i] as nat, c[i] as nat) != c[i] as nat
    ensures k < 8 * |c| && BitAt(c, k) && !BitAt(a, k)
  {
    hide Bit, And;
    var x, y := a[i] as nat, c[i] as nat;
    assert Pow2(8) == 256;
    AndBound(x, y);
    forall j ensures Bit(And(x, y), j) <==> Bit(x, j) && Bit(y, j) {
      AndBits(x, y, j);
    }
    if forall j :: 0 <= j < 8 ==> (Bit(And(x, y), j) <==> Bit(y, j)) {
      SameBits(And(x, y), y, 8);
    }
    var j :| 0 <= j < 8 && Bit(y, j) && !Bit(x, j);
    k := 8 * (|c| - 1 - i) + j;
    ModuloUnique(k, |c| - 1 - i, j, 8);
  }

  /** How many bytes of a hash point to one of 2^k bits. */
  function PointerBytes(k: nat): nat {
    (k + 7) / 8
  }

  /** A hash has bytes for the pointers asked of it, and a pointer fits 32 bits. */
  predicate Fits(h: seq<byte>, parts: nat, k: nat) {
    3 <= k <= 32 && parts * PointerBytes(k) <= |h|
  }

  /** The bit the i-th pointer of a hash points to. */
  function Pointer(h: seq<byte>, parts: nat, k: nat, i: nat): (r: nat)
    requires Fits(h, parts, k) && i < parts
    ensures r < Pow2(k)
  {
    var w := PointerBytes(k);
    NextMultiple(i, parts, w);
    BigEndianValue(h[i * w..i * w + w]) % Pow2(k)
  }

  /** In the filter of 2048 bits a hash has three pointers: the low eleven bits of its first three pairs of bytes. */
  lemma LogPointers(h: seq<byte>, i: nat)
    requires |h| >= 6 && i < 3
    ensures Fits(h, 3, 11) && Pointer(h, 3, 11, i) == (256 * h[2 * i] as nat + h[2 * i + 1] as nat) % 2048
  {
    hide BigEndianValue;
    assert Pow2(11) == 2048 by {
      assert Pow2(5) == 32 && Pow2(8) == 256;
    }
    var s := h[2 * i..2 * i + 2];
    NothingIsZero();
    ValueGrows(s, 0);
    ValueGrows(s, 1);
    assert s[..0] == [] && s[..2] == s;
    assert PointerBytes(11) == 2 && h[i * 2..i * 2 + 2] == s;
  }

  ghost predicate Points(h: seq<byte>, parts: nat, n: nat, k: nat, b: nat)
    requires Fits(h, parts, k) && n <= parts
  {
    exists i :: 0 <= i < n && Pointer(h, parts, k, i) == b
  }

  /** Reads one pointer. */
  method ReadPointer(h: seq<byte>, parts: nat, k: nat, i: nat) returns (index: nat)
    requires Fits(h, parts, k) && i < parts
    ensures index == Pointer(h, parts, k, i)
  {
    hide BigEndianValue;
    var w := PointerBytes(k);
    NextMultiple(i, parts, w);
    ghost var s := h[i * w..i * w + w];
    index := 0;
    assert BigEndianValue(s[..0]) == 0 by {
      NothingIsZero();
    }
    for j := 0 to w
      invariant index == BigEndianValue(s[..j])
    {
      ValueGrows(s, j);
      index := index * 256 + h[i * w + j] as nat;
    }
    assert s[..w] == s;
    MaskIsRemainder(index, k);
    index := And(index, Pow2(k) - 1);
  }

  lemma NothingIsZero()
    ensures BigEndianValue([]) == 0
  {
  }

  lemma ValueGrows(s: seq<byte>, j: nat)
    requires j < |s|
    ensures BigEndianValue(s[..j + 1]) == 256 * BigEndianValue(s[..j]) + s[j] as nat
  {
    assert s[..j + 1][..j] == s[..j];
  }

  lemma EightBitsAByte(k: nat)
    requires k >= 3
    ensures 8 * Pow2(k - 3) == Pow2(k)
  {
    assert Pow2(k) == 2 * (2 * Pow2(k - 2));
  }

  /** Sets one bit. */
  method SetBit(a: array<byte>, index: nat)
    requires index < 8 * a.Length
    modifies a
    ensures forall b :: 0 <= b < 8 * a.Length ==> (BitAt(a[..], b) <==> BitAt(old(a[..]), b) || b == index)
  {
    hide Bit, Or, Pow2;
    var i := a.Length - 1 - index / 8;
    ghost var s := a[..];
    PowerFits(index % 8);
    a[i] := OrByte(a[i], Pow2(index % 8) as byte);
    forall b | 0 <= b < 8 * a.Length ensures BitAt(a[..], b) <==> BitAt(s, b) || b == index {
      if b / 8 == index / 8 {
        OrBits(s[i] as nat, Pow2(index % 8), b % 8);
        PowerBits(index % 8, b % 8);
      }
    }
  }

  lemma PowerFits(j: nat)
    requires j < 8
    ensures Pow2(j) < 256
  {
    assert Pow2(7) == 128;
    if j < 7 {
      PowerBelow(j, 7);
    }
  }

  lemma {:induction false} PowerBelow(j: nat, n: nat)
    requires j <= n
    ensures Pow2(j) <= Pow2(n)
  {
    if j < n {
      PowerBelow(j, n - 1);
    }
  }

  /** The filter of one hash: exactly the bits its pointers point to. */
  method BloomPart(h: seq<byte>, parts: nat, k: nat) returns (a: array<byte>)
    requires Fits(h, parts, k)
    ensures fresh(a) && a.Length == Pow2(k - 3) && 8 * a.Length == Pow2(k)
    ensures forall b :: 0 <= b < Pow2(k) ==> (BitAt(a[..], b) <==> Points(h, parts, parts, k, b))
  {
    hide Bit, Pow2, Pointer;
    EightBitsAByte(k);
    a := new byte[Pow2(k - 3)](_ => 0);
    forall b | 0 <= b < Pow2(k) ensures !BitAt(a[..], b) {
      ZeroBits(b % 8);
    }
    for i := 0 to parts
      invariant forall b :: 0 <= b < Pow2(k) ==> (BitAt(a[..], b) <==> Points(h, parts, i, k, b))
    {
      var index := ReadPointer(h, parts, k, i);
      SetBit(a, index);
    }
  }

  /** Adds a hash to a filter. */
  method ShiftBloom(a: array<byte>, h: seq<byte>, parts: nat, k: nat)
    requires Fits(h, parts, k) && a.Length == Pow2(k - 3) && 8 * a.Length == Pow2(k)
    modifies a
    ensures forall b :: 0 <= b < Pow2(k) ==>
              (BitAt(a[..], b) <==> BitAt(old(a[..]), b) || Points(h, parts, parts, k, b))
  {
    hide BitAt, Pow2, Pointer;
    var part := BloomPart(h, parts, k);
    OrWith(a, part[..]);
  }

  /** Every bit a hash points to is set. */
  ghost predicate Marked(s: seq<byte>, h: seq<byte>, parts: nat, k: nat)
    requires Fits(h, parts, k) && 8 * |s| == Pow2(k)
  {
    forall b :: 0 <= b < Pow2(k) && Points(h, parts, parts, k, b) ==> BitAt(s, b)
  }

  method ContainsBloom(a: array<byte>, h: seq<byte>, parts: nat, k: nat) returns (r: bool)
    requires Fits(h, parts, k) && a.Length == Pow2(k - 3) && 8 * a.Length == Pow2(k)
    ensures r <==> Marked(a[..], h, parts, k)
  {
    hide BitAt, Pow2, Pointer;
    var part := BloomPart(h, parts, k);
    r := Contains(a[..], part[..]);
  }

  /** After any sequence of insertions, the filter contains every inserted hash and no bit without a reason. */
  method InsertAll(a: array<byte>, hashes: seq<seq<byte>>, parts: nat, k: nat)
    requires forall h :: h in hashes ==> Fits(h, parts, k)
    requires 3 <= k && a.Length == Pow2(k - 3) && 8 * a.Length == Pow2(k)
    modifies a
    ensures forall h :: h in hashes ==> Marked(a[..], h, parts, k)
    ensures forall b :: 0 <= b < Pow2(k) && BitAt(a[..], b) ==>
              BitAt(old(a[..]), b) || exists h :: h in hashes && Points(h, parts, parts, k, b)
  {
    hide BitAt, Pow2, Pointer;
    for i := 0 to |hashes|
      invariant forall j :: 0 <= j < i ==> Marked(a[..], hashes[j], parts, k)
      invariant forall b :: 0 <= b < Pow2(k) && BitAt(a[..], b) ==>
                  BitAt(old(a[..]), b) || exists h :: h in hashes && Points(h, parts, parts, k, b)
    {
      ShiftBloom(a, hashes[i], parts, k);
    }
  }
}
