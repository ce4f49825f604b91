/**
 FixedHash of libdevcore: byte arrays of any fixed size as big-endian numbers. Order, increment,
 conversion, exclusive or and the Kademlia distance all agree with the number.
 */
module FixedHash {
  import opened Bytes
  import opened Bits
  import opened Modulo

  lemma ValuePush(s: seq<byte>, b: byte)
    ensures BigEndianValue(s + [b]) == 256 * BigEndianValue(s) + b as int
  {
    assert (s + [b])[..|s|] == s;
  }

  /** The number around one of its bytes. */
  lemma ValueAround(s: seq<byte>, i: nat)
    requires i < |s|
    ensures BigEndianValue(s) == (256 * BigEndianValue(s[..i]) + s[i] as int) * Pow256(|s| - 1 - i) + BigEndianValue(s[i + 1..])
    ensures BigEndianValue(s[i + 1..]) < Pow256(|s| - 1 - i)
  {
    hide BigEndianValue, Pow256;
    assert s == s[..i + 1] + s[i + 1..];
    ValueConcat(s[..i + 1], s[i + 1..]);
    ValueBound(s[i + 1..]);
    assert s[..i + 1] == s[..i] + [s[i]];
    ValuePush(s[..i], s[i]);
  }

  lemma PrefixDecides(a: seq<byte>, b: seq<byte>, i: nat)
    requires |a| == |b| && i < |a| && a[..i] == b[..i] && a[i] < b[i]
    ensures BigEndianValue(a) < BigEndianValue(b)
  {
    hide BigEndianValue, Pow256;
    ValueAround(a, i);
    ValueAround(b, i);
    var p := 256 * BigEndianValue(a[..i]);
    NextMultiple(p + a[i] as int, p + b[i] as int, Pow256(|a| - 1 - i));
  }

  /** The byte-wise comparison is the numeric one. */
  method Less(a: array<byte>, b: array<byte>) returns (r: bool)
    requires a.Length == b.Length
    ensures r <==> BigEndianValue(a[..]) < BigEndianValue(b[..])
  {
    for i := 0 to a.Length
      invariant a[..i] == b[..i]
    {
      if a[i] < b[i] {
        PrefixDecides(a[..], b[..], i);
        return true;
      } else if a[i] > b[i] {
        PrefixDecides(b[..], a[..], i);
        return false;
      }
    }
    assert a[..] == a[..a.Length] == b[..b.Length] == b[..];
    return false;
  }

  /** Bytes of one length are determined by their number. */
  lemma {:induction false} ValueInjective(a: seq<byte>, b: seq<byte>)
    requires |a| == |b| && BigEndianValue(a) == BigEndianValue(b)
    ensures a == b
  {
    if a != [] {
      var i := |a| - 1;
      ValueInjective(a[..i], b[..i]);
      assert a == a[..i] + [a[i]] && b == b[..i] + [b[i]];
    }
  }

  lemma {:induction false} ZerosAreZero(s: seq<byte>)
    requires forall i :: 0 <= i < |s| ==> s[i] == 0
    ensures BigEndianValue(s) == 0
  {
    if s != [] {
      ZerosAreZero(s[..|s| - 1]);
    }
  }

  /** What is left when the bytes from i on have wrapped around. */
  lemma {:induction false} FullAreMaximal(s: seq<byte>)
    requires forall i :: 0 <= i < |s| ==> s[i] == 255
    ensures BigEndianValue(s) == Pow256(|s|) - 1
  {
    if s != [] {
      FullAreMaximal(s[..|s| - 1]);
    }
  }

  /** Full bytes behind position i become zeros; the byte at i takes the carry. */
  lemma CarryAdds(s: seq<byte>, t: seq<byte>, i: nat)
    requires |s| == |t| && i < |s| && s[..i] == t[..i]
    requires s[i] < 255 && t[i] == s[i] + 1
    requires forall j :: i < j < |s| ==> s[j] == 255 && t[j] == 0
    ensures BigEndianValue(t) == BigEndianValue(s) + 1 < Pow256(|s|)
  {
    hide BigEndianValue, Pow256;
    ValueAround(s, i);
    ValueAround(t, i);
    FullAreMaximal(s[i + 1..]);
    ZerosAreZero(t[i + 1..]);
    var x, m := 256 * BigEndianValue(s[..i]) + s[i] as int, Pow256(|s| - 1 - i);
    assert (x + 1) * m == x * m + m;
    ValueBound(t);
  }

  /** The increment is addition of one, wrapping around at the size of the hash. */
  method Increment(a: array<byte>)
    modifies a
    ensures BigEndianValue(a[..]) == (BigEndianValue(old(a[..])) + 1) % Pow256(a.Length)
  {
    hide BigEndianValue, Pow256;
    ghost var s := a[..];
    var i := a.Length;
    var carry := true;
    while i > 0 && carry
      invariant 0 <= i <= a.Length
      invariant carry ==> a[..i] == s[..i] && forall j :: i <= j < a.Length ==> s[j] == 255 && a[j] == 0
      invariant !carry ==> i < a.Length && a[..i] == s[..i] && s[i] < 255 && a[i] == s[i] + 1
      invariant !carry ==> forall j :: i < j < a.Length ==> s[j] == 255 && a[j] == 0
      decreases i, carry
    {
      i := i - 1;
      carry := a[i] == 255;
      a[i] := if carry then 0 else a[i] + 1;
    }
    if carry {
      FullAreMaximal(s);
      ZerosAreZero(a[..]);
      ModuloUnique(Pow256(|s|), 1, 0, Pow256(|s|));
    } else {
      CarryAdds(s, a[..], i);
      ModuloUnique(BigEndianValue(s) + 1, 0, BigEndianValue(s) + 1, Pow256(|s|));
    }
  }

  /** The last n bytes of a number. */
  function Fixed(value: nat, n: nat): (r: seq<byte>)
    ensures |r| == n
  {
    if n == 0 then [] else Fixed(value / 256, n - 1) + [(value % 256) as byte]
  }

  /** They denote the number as far as it fits. */
  lemma {:induction false} FixedDenotes(value: nat, n: nat)
    ensures BigEndianValue(Fixed(value, n)) == value % Pow256(n)
  {
    hide BigEndianValue;
    if n == 0 {
      ZerosAreZero(Fixed(value, n));
      ModuloUnique(value, value, 0, 1);
    } else {
      FixedDenotes(value / 256, n - 1);
      ValuePush(Fixed(value / 256, n - 1), (value % 256) as byte);
      SplitModulo(value, 256, Pow256(n - 1));
    }
  }

  /** Bytes of that size are what their number is written as. */
  lemma {:induction false} FixedOfValue(s: seq<byte>)
    ensures Fixed(BigEndianValue(s), |s|) == s
  {
    if s != [] {
      hide BigEndianValue;
      var i := |s| - 1;
      FixedOfValue(s[..i]);
      assert s == s[..i] + [s[i]];
      ValuePush(s[..i], s[i]);
      ModuloUnique(BigEndianValue(s), BigEndianValue(s[..i]), s[i] as int, 256);
    }
  }

  /** Writes a number into a buffer, last byte first. */
  method ToBigEndian(value: nat, out: array<byte>)
    modifies out
    ensures out[..] == Fixed(value, out.Length)
  {
    var v, i := value, out.Length;
    while i != 0
      invariant 0 <= i <= out.Length
      invariant Fixed(value, out.Length) == Fixed(v, i) + out[i..]
    {
      ghost var tail := out[i..];
      out[i - 1] := (v % 256) as byte;
      assert out[i - 1..] == [out[i - 1]] + tail;
      ConcatAssociative(Fixed(v / 256, i - 1), [out[i - 1]], tail);
      v, i := v / 256, i - 1;
    }
    assert out[0..] == out[..];
  }

  /** Reads a number of width bytes; a longer string loses its first bytes. */
  method FromBigEndian(s: seq<byte>, width: nat) returns (r: nat)
    ensures r == BigEndianValue(s) % Pow256(width)
  {
    hide BigEndianValue, Pow256;
    r := 0;
    ReadsNothing(width);
    for i := 0 to |s|
      invariant r == BigEndianValue(s[..i]) % Pow256(width)
    {
      assert s[..i + 1] == s[..i] + [s[i]];
      ValuePush(s[..i], s[i]);
      TakesDigit(BigEndianValue(s[..i]), s[i] as nat, Pow256(width));
      r := (r * 256 + s[i] as nat) % Pow256(width);
    }
    assert s[..|s|] == s;
  }

  lemma ReadsNothing(width: nat)
    ensures BigEndianValue([]) % Pow256(width) == 0
  {
    ModuloUnique(0, 0, 0, Pow256(width));
  }

  lemma TakesDigit(x: nat, d: nat, m: nat)
    requires m > 0
    ensures (x % m * 256 + d) % m == (256 * x + d) % m
  {
    MulModulo(x, 256, m);
    AddModulo(x % m * 256, d, m);
    AddModulo(x * 256, d, m);
  }

  /** Exclusive or in place. */
  method XorWith(a: array<byte>, b: array<byte>)
    requires a.Length == b.Length
    modifies a
    ensures a[..] == XorBytes(old(a[..]), old(b[..]))
  {
    for i := 0 to a.Length
      invariant forall j :: 0 <= j < i ==> a[j] == XorByte(old(a[j]), old(b[j]))
      invariant forall j :: i <= j < a.Length ==> a[j] == old(a[j]) && b[j] == old(b[j])
    {
      a[i] := XorByte(a[i], b[i]);
    }
  }

  /** Eight more bits on either side. */
  lemma XorShifted(x: nat, y: nat, a: nat, b: nat, n: nat)
    requires a < Pow2(n) && b < Pow2(n)
    ensures Xor(x * Pow2(n) + a, y * Pow2(n) + b) == Xor(x, y) * Pow2(n) + Xor(a, b)
    decreases n
  {
    hide Xor;
    if n == 0 {
      XorSelf(0);
    } else {
      var m := Pow2(n - 1);
      XorShifted(x, y, a / 2, b / 2, n - 1);
      XorOneMore(x * m, y * m, Xor(x, y) * m, a, b);
      Doubled(x, m);
      Doubled(y, m);
      Doubled(Xor(x, y), m);
    }
  }

  lemma Doubled(x: nat, m: nat)
    ensures x * (2 * m) == 2 * (x * m)
  {
  }

  lemma XorOneMore(u: nat, v: nat, w: nat, a: nat, b: nat)
    requires Xor(u + a / 2, v + b / 2) == w + Xor(a / 2, b / 2)
    ensures Xor(2 * u + a, 2 * v + b) == 2 * w + Xor(a, b)
  {
    hide Xor, Odd;
    XorParts(2 * u + a, 2 * v + b);
    XorParts(a, b);
    OddShifted(u, a);
    OddShifted(v, b);
    OddShifted(w, Xor(a, b));
    SameParts(Xor(2 * u + a, 2 * v + b), 2 * w + Xor(a, b));
  }

  lemma OddShifted(h: nat, a: nat)
    ensures (2 * h + a) / 2 == h + a / 2 && (Odd(2 * h + a) <==> Odd(a))
  {
  }

  /** The bytes of an exclusive or are those of the exclusive or of the numbers. */
  lemma {:induction false} XorValue(a: seq<byte>, b: seq<byte>)
    requires |a| == |b|
    ensures BigEndianValue(XorBytes(a, b)) == Xor(BigEndianValue(a), BigEndianValue(b))
  {
    if a != [] {
      var i := |a| - 1;
      XorValue(a[..i], b[..i]);
      assert XorBytes(a, b)[..i] == XorBytes(a[..i], b[..i]);
      assert Pow2(8) == 256;
      XorShifted(BigEndianValue(a[..i]), BigEndianValue(b[..i]), a[i] as nat, b[i] as nat, 8);
    }
  }

  /** The number of binary digits. */
  function BitLength(n: nat): nat {
    if n == 0 then 0 else 1 + BitLength(n / 2)
  }

  lemma {:induction false} BitLengthBound(n: nat, k: nat)
    ensures BitLength(n) <= k <==> n < Pow2(k)
  {
    if n > 0 && k > 0 {
      BitLengthBound(n / 2, k - 1);
    }
  }

  lemma BitLengthStep(n: nat)
    requires n > 0
    ensures BitLength(n) == 1 + BitLength(n / 2)
  {
  }

  lemma {:induction false} BitLengthShifted(d: nat, v: nat, m: nat)
    requires d > 0 && v < Pow2(m)
    ensures BitLength(d * Pow2(m) + v) == m + BitLength(d)
    decreases m
  {
    hide BitLength;
    if m > 0 {
      var h := d * Pow2(m - 1);
      MultipleIsFar(d, Pow2(m - 1));
      Doubled(d, Pow2(m - 1));
      BitLengthShifted(d, v / 2, m - 1);
      OddShifted(h, v);
      BitLengthStep(2 * h + v);
    }
  }

  lemma {:induction false} BytesAreBits(n: nat)
    ensures Pow256(n) == Pow2(8 * n)
  {
    if n > 0 {
      BytesAreBits(n - 1);
      var m := 8 * (n - 1);
      assert Pow2(m + 2) == 4 * Pow2(m);
      assert Pow2(m + 4) == 4 * Pow2(m + 2);
      assert Pow2(m + 6) == 4 * Pow2(m + 4);
      assert Pow2(m + 8) == 4 * Pow2(m + 6);
    }
  }

  /** The position of the highest bit of a byte that is not zero, by shifting it out. */
  method LeadingZeros(byte0: byte) returns (n: nat)
    requires byte0 != 0
    ensures n == 8 - BitLength(byte0 as nat)
  {
    n := 0;
    var d := byte0 as nat;
    while d < 0x80
      invariant 0 < d < 256 && BitLength(d) == BitLength(byte0 as nat) + n
      decreases 256 - d
    {
      BitLengthStep(2 * d);
      d := d * 2 % 256;
      n := n + 1;
    }
    TopBit(d);
  }

  lemma TopBit(d: nat)
    requires 128 <= d < 256
    ensures BitLength(d) == 8
  {
    BitLengthBound(d, 7);
    BitLengthBound(d, 8);
    assert Pow2(7) == 128;
  }

  /** The index of the first bit that is set, from the most significant one; the size in bits if there is none. */
  method FirstBitSet(s: seq<byte>) returns (r: nat)
    ensures r == 8 * |s| - BitLength(BigEndianValue(s))
  {
    r := 0;
    for i := 0 to |s|
      invariant r == 8 * i && forall j :: 0 <= j < i ==> s[j] == 0
    {
      if s[i] != 0 {
        var n := LeadingZeros(s[i]);
        FirstByteDecides(s, i);
        return r + n;
      }
      r := r + 8;
    }
    ZerosAreZero(s);
  }

  lemma FirstByteDecides(s: seq<byte>, i: nat)
    requires i < |s| && s[i] != 0 && forall j :: 0 <= j < i ==> s[j] == 0
    ensures BitLength(BigEndianValue(s)) == 8 * (|s| - 1 - i) + BitLength(s[i] as nat)
  {
    hide BigEndianValue, Pow256, BitLength, Pow2;
    ValueAround(s, i);
    ZerosAreZero(s[..i]);
    BytesAreBits(|s| - 1 - i);
    BitLengthShifted(s[i] as nat, BigEndianValue(s[i + 1..]), 8 * (|s| - 1 - i));
  }

  /** Distance by halving the exclusive or until nothing is left. */
  function Distance(a: nat, b: nat): nat {
    var n := BitLength(Xor(a, b));
    if n == 0 then 0 else n - 1
  }

  method ComputeDistance(a: nat, b: nat) returns (r: nat)
    ensures r == Distance(a, b)
  {
    var d := Xor(a, b);
    r := 0;
    d := d / 2;
    while d != 0
      invariant r + BitLength(d) == Distance(a, b)
    {
      r := r + 1;
      d := d / 2;
    }
  }

  /** For different hashes of 32 bytes the distance is 255 less the first bit in which they differ. */
  lemma DistanceIsFirstBit(a: seq<byte>, b: seq<byte>, first: nat)
    requires |a| == |b| == 32 && a != b
    requires first == 256 - BitLength(BigEndianValue(XorBytes(a, b)))
    ensures Distance(BigEndianValue(a), BigEndianValue(b)) == 255 - first
  {
    hide BigEndianValue, BitLength;
    XorValue(a, b);
    if Xor(BigEndianValue(a), BigEndianValue(b)) == 0 {
      XorUndoes(BigEndianValue(a), BigEndianValue(b));
      ValueInjective(a, b);
    }
    BitLengthBound(Xor(BigEndianValue(a), BigEndianValue(b)), 0);
  }

  /** No detour is shorter: the distance to the end is at most the longer of two legs. */
  lemma DistanceUltrametric(a: nat, b: nat, c: nat)
    ensures Distance(a, c) <= Distance(a, b) || Distance(a, c) <= Distance(b, c)
    ensures Distance(a, b) == Distance(b, a)
  {
    hide Xor, BitLength;
    var x, y := Xor(a, b), Xor(b, c);
    XorAssociates(x, b, c);
    XorUndoes(a, b);
    XorCommutes(a, b);
    var k := if BitLength(x) >= BitLength(y) then BitLength(x) else BitLength(y);
    BitLengthBound(x, k);
    BitLengthBound(y, k);
    XorBound(x, y, k);
    BitLengthBound(Xor(x, y), k);
  }
}
