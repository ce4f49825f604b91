/** Remainders: what wrapping arithmetic on unsigned numbers keeps. */
module Modulo {

  lemma MulAssociates(a: int, b: int, c: int)
    ensures a * (b * c) == a * b * c
  {
  }

  lemma MulCommutes(a: int, b: int)
    ensures a * b == b * a
  {
  }

  lemma MulDistributes(a: int, b: int, c: int)
    ensures (a + b) * c == a * c + b * c
  {
  }

  lemma MulExchanges(x: int, y: int, a: int, b: int)
    ensures x * y * (a * b) == x * a * (y * b)
  {
  }

  lemma MultipleIsFar(m: int, d: int)
    requires m > 0
    ensures d >= 1 ==> m * d >= m
    ensures d <= -1 ==> m * d <= -m
  {
    if d >= 1 {
      assert m * (d - 1) >= 0;
    } else if d <= -1 {
      assert m * (d + 1) <= 0;
    }
  }

  /** Between two multiples of m there is room for m. */
  lemma NextMultiple(x: nat, y: nat, m: nat)
    requires x < y
    ensures x * m + m <= y * m
  {
    MulDistributes(x, y - x, m);
    if m > 0 {
      MultipleIsFar(m, y - x);
      MulCommutes(m, y - x);
    }
  }

  lemma ModuloUnique(x: int, q: int, r: int, m: int)
    requires m > 0 && x == m * q + r && 0 <= r < m
    ensures x % m == r && x / m == q
  {
    var q', r' := x / m, x % m;
    assert x == m * q' + r' && 0 <= r' < m;
    MulDifference(m, q, q');
    MultipleIsFar(m, q - q');
  }

  lemma MulDifference(m: int, q: int, q': int)
    ensures m * (q - q') == m * q - m * q'
  {
  }

  lemma AddModulo(x: int, y: int, m: int)
    requires m > 0
    ensures (x % m + y) % m == (x + y) % m
  {
    var z := x % m + y;
    var p, q, r := z / m, x / m, z % m;
    assert z == m * p + r && x == m * q + x % m;
    MulDifference(m, p, -q);
    assert x + y == m * (p + q) + r;
    ModuloUnique(x + y, p + q, r, m);
  }

  lemma MulModulo(x: int, y: int, m: int)
    requires m > 0
    ensures (x % m * y) % m == (x * y) % m
  {
    var a, q := x % m, x / m;
    var z := a * y;
    var p, r := z / m, z % m;
    assert x == m * q + a && z == m * p + r;
    MulDistributes(m * q, a, y);
    MulAssociates(m, q, y);
    MulDifference(m, p, -(q * y));
    assert x * y == m * (p + q * y) + r;
    ModuloUnique(x * y, p + q * y, r, m);
  }

  /** Both factors may be reduced first. */
  lemma ModuloBoth(x: int, y: int, m: int)
    requires m > 0
    ensures x * y % m == x % m * (y % m) % m
  {
    var a, b := x % m, y % m;
    MulModulo(x, y, m);
    MulModulo(y, a, m);
    MulCommutes(a, y);
    MulCommutes(a, b);
  }

  lemma ScaleModulo(x: nat, m: nat, c: nat)
    requires m > 0 && c > 0
    ensures c * m > 0 && c * x % (c * m) == c * (x % m)
  {
    var q, r := x / m, x % m;
    assert x == m * q + r;
    MultipleIsFar(c, m);
    MulDistributes(m * q, r, c);
    MulCommutes(c, x);
    MulCommutes(m * q, c);
    MulCommutes(r, c);
    MulAssociates(c, m, q);
    NextMultiple(r, m, c);
    MulCommutes(m, c);
    ModuloUnique(c * x, q, c * r, c * m);
  }

  /** The remainder by a product, digit by digit. */
  lemma SplitModulo(x: nat, c: nat, m: nat)
    requires m > 0 && c > 0
    ensures c * m > 0 && x % (c * m) == c * (x / c % m) + x % c
  {
    var v, d := x / c, x % c;
    var q, r := v / m, v % m;
    assert x == c * v + d && v == m * q + r;
    MultipleIsFar(c, m);
    MulCommutes(c, v);
    MulDistributes(m * q, r, c);
    MulCommutes(m * q, c);
    MulCommutes(r, c);
    MulAssociates(c, m, q);
    NextMultiple(r, m, c);
    MulCommutes(m, c);
    ModuloUnique(x, q, c * r + d, c * m);
  }
}
