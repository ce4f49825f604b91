/** Bytes and their big-endian reading: libdevcore/CommonData.h. */
module Bytes {

  newtype byte = x: int | 0 <= x < 256

  /** One more than the largest values of the source's uint16_t, uint32_t and size_t. */
  const TWO_TO_THE_16: nat := 0x1_0000
  const TWO_TO_THE_32: nat := 0x1_0000_0000
  const TWO_TO_THE_64: nat := 0x1_0000_0000_0000_0000

  function Pow256(n: nat): (r: nat)
    ensures r > 0
  {
    if n == 0 then 1 else 256 * Pow256(n - 1)
  }

  /** The number a byte string denotes, most significant byte first. */
  function BigEndianValue(s: seq<byte>): (r: nat)
  {
    if s == [] then 0 else 256 * BigEndianValue(s[..|s| - 1]) + s[|s| - 1] as int
  }

  /** How many base-256 digits n has; zero has none. */
  function BytesRequired(n: nat): (r: nat)
  {
    if n == 0 then 0 else 1 + BytesRequired(n / 256)
  }

  /** The base-256 digits of n, most significant first, without leading zeros. */
  function Compact(n: nat): (s: seq<byte>)
    ensures |s| == BytesRequired(n)
  {
    if n == 0 then [] else Compact(n / 256) + [(n % 256) as byte]
  }

  function Zeros(n: nat): (s: seq<byte>)
    ensures |s| == n
  {
    seq(n, _ => 0)
  }

  lemma ConcatAssociative<T>(a: seq<T>, b: seq<T>, c: seq<T>)
    ensures a + (b + c) == a + b + c
  {
  }

  lemma SliceOfSlice<T>(s: seq<T>, a: nat, b: nat, i: nat, j: nat)
    requires a <= b <= |s| && i <= j <= b - a
    ensures s[a..b][i..j] == s[a + i..a + j]
  {
    forall k | 0 <= k < j - i ensures s[a..b][i..j][k] == s[a + i..a + j][k] {
    }
  }

  lemma {:induction false} CompactDenotes(n: nat)
    ensures BigEndianValue(Compact(n)) == n
    ensures n > 0 ==> |Compact(n)| > 0 && Compact(n)[0] != 0
  {
    if n > 0 {
      CompactDenotes(n / 256);
      assert Compact(n)[..|Compact(n)| - 1] == Compact(n / 256);
    }
  }

  /** Digits without a leading zero are the only ones Compact can produce. */
  lemma {:induction false} CompactUnique(s: seq<byte>)
    requires s != [] ==> s[0] != 0
    ensures Compact(BigEndianValue(s)) == s
    ensures s != [] ==> BigEndianValue(s) > 0
  {
    if s != [] {
      var front := s[..|s| - 1];
      CompactUnique(front);
      assert s == front + [s[|s| - 1]];
    }
  }

  lemma {:induction false} BytesRequiredBound(n: nat, k: nat)
    ensures BytesRequired(n) <= k <==> n < Pow256(k)
  {
    if n > 0 && k > 0 {
      BytesRequiredBound(n / 256, k - 1);
    }
  }

  lemma Pow256Of8()
    ensures Pow256(8) == TWO_TO_THE_64
  {
    assert Pow256(4) == 0x1_0000_0000;
    assert Pow256(8) == 256 * (256 * (256 * (256 * Pow256(4))));
  }

  /** A count fits the eight length bytes of the format exactly when it is a size_t. */
  lemma EightBytes(n: nat)
    ensures BytesRequired(n) <= 8 <==> n < TWO_TO_THE_64
  {
    Pow256Of8();
    BytesRequiredBound(n, 8);
  }

  lemma {:induction false} ValueBound(s: seq<byte>)
    ensures BigEndianValue(s) < Pow256(|s|)
  {
    if s != [] {
      ValueBound(s[..|s| - 1]);
    }
  }

  lemma {:induction false} ValueConcat(s: seq<byte>, t: seq<byte>)
    ensures BigEndianValue(s + t) == BigEndianValue(s) * Pow256(|t|) + BigEndianValue(t)
  {
    if t == [] {
      assert s + t == s;
    } else {
      var front := t[..|t| - 1];
      ValueConcat(s, front);
      assert (s + t)[..|s + t| - 1] == s + front;
      assert 256 * (BigEndianValue(s) * Pow256(|front|)) == BigEndianValue(s) * (256 * Pow256(|front|));
    }
  }
}
