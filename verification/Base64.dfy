/** Base 64 as in libdevcore/Base64.cpp: section 4 of RFC 4648, with the loops over small buffers. */
module Base64 {
  import opened Bytes
  import opened Modulo

  /** A digit of the standard alphabet. */
  function Char(v: nat): (c: char)
    requires v < 64
  {
    if v < 26 then ('A' as int + v) as char
    else if v < 52 then ('a' as int + (v - 26)) as char
    else if v < 62 then ('0' as int + (v - 52)) as char
    else if v == 62 then '+' else '/'
  }

  predicate IsBase64(c: char) {
    'A' <= c <= 'Z' || 'a' <= c <= 'z' || '0' <= c <= '9' || c == '+' || c == '/'
  }

  /** The value of a digit; anything else, such as the filler of an incomplete group, counts as 64. */
  function Index(c: char): (v: nat)
    ensures v <= 64 && (IsBase64(c) <==> v < 64)
  {
    if 'A' <= c <= 'Z' then c as int - 'A' as int
    else if 'a' <= c <= 'z' then c as int - 'a' as int + 26
    else if '0' <= c <= '9' then c as int - '0' as int + 52
    else if c == '+' then 62 else if c == '/' then 63 else 64
  }

  lemma CharIndex(v: nat)
    requires v < 64
    ensures Index(Char(v)) == v && IsBase64(Char(v)) && Char(v) != '='
  {
  }

  /** The four six-bit digits of three bytes. */
  function Sextets(a: nat, b: nat, c: nat): (r: (nat, nat, nat, nat))
    requires a < 256 && b < 256 && c < 256
    ensures r.0 < 64 && r.1 < 64 && r.2 < 64 && r.3 < 64
  {
    (a / 4, a % 4 * 16 + b / 16, b % 16 * 4 + c / 64, c % 64)
  }

  /** The three bytes of four digits; the last digits may be fillers. */
  function Octets(a: nat, b: nat, c: nat, d: nat): (r: (nat, nat, nat))
    ensures r.0 < 256 && r.1 < 256 && r.2 < 256
  {
    ((a * 4 + b / 16 % 4) % 256, (b % 16 * 16 + c / 4 % 16) % 256, (c % 4 * 64 + d) % 256)
  }

  /** The first byte comes back from two digits, whatever else the second carries. */
  lemma FirstOctet(a: nat, low: nat)
    requires a < 256 && low < 16
    ensures (a / 4 * 4 + (a % 4 * 16 + low) / 16 % 4) % 256 == a
  {
    ModuloUnique(a % 4 * 16 + low, a % 4, low, 16);
    ModuloUnique(a % 4, 0, a % 4, 4);
    ModuloUnique(a, 0, a, 256);
  }

  lemma SecondOctet(high: nat, b: nat, low: nat)
    requires high < 4 && b < 256 && low < 4
    ensures ((high * 16 + b / 16) % 16 * 16 + (b % 16 * 4 + low) / 4 % 16) % 256 == b
  {
    ModuloUnique(high * 16 + b / 16, high, b / 16, 16);
    ModuloUnique(b % 16 * 4 + low, b % 16, low, 4);
    ModuloUnique(b % 16, 0, b % 16, 16);
    ModuloUnique(b, 0, b, 256);
  }

  lemma ThirdOctet(high: nat, c: nat)
    requires high < 16 && c < 256
    ensures ((high * 4 + c / 64) % 4 * 64 + c % 64) % 256 == c
  {
    ModuloUnique(high * 4 + c / 64, high, c / 64, 4);
    ModuloUnique(c, 0, c, 256);
  }

  /** The digits give back the bytes, also when fillers stand for the digits that are not there. */
  lemma OctetsOfSextets(a: nat, b: nat, c: nat, filler: nat)
    requires a < 256 && b < 256 && c < 256
    ensures var (w, x, y, z) := Sextets(a, b, c);
            && Octets(w, x, y, z) == (a, b, c)
            && Octets(w, x, y, filler).0 == a && Octets(w, x, y, filler).1 == b
            && Octets(w, x, filler, filler).0 == a
  {
    FirstOctet(a, b / 16);
    SecondOctet(a % 4, b, c / 64);
    ThirdOctet(b % 16, c);
  }

  function Group(a: byte, b: byte, c: byte): (r: string)
    ensures |r| == 4
  {
    var (w, x, y, z) := Sextets(a as nat, b as nat, c as nat);
    [Char(w), Char(x), Char(y), Char(z)]
  }

  /** The text of the first q groups of three bytes. */
  function Groups(s: seq<byte>, q: nat): (r: string)
    requires 3 * q <= |s|
    ensures |r| == 4 * q
  {
    if q == 0 then [] else var n := 3 * q - 3; Groups(s, q - 1) + Group(s[n], s[n + 1], s[n + 2])
  }

  /** The last one or two bytes: one digit more than bytes, and padding to four. */
  function Tail(s: seq<byte>, pad: bool): (r: string)
    requires |s| < 3
    ensures pad ==> |r| == if s == [] then 0 else 4
  {
    if s == [] then []
    else if |s| == 1 then Group(s[0], 0, 0)[..2] + if pad then "==" else ""
    else Group(s[0], s[1], 0)[..3] + if pad then "=" else ""
  }

  function Encoded(s: seq<byte>, pad: bool): (r: string)
  {
    Groups(s, |s| / 3) + Tail(s[3 * (|s| / 3)..], pad)
  }

  /** The padded text has four characters for every three bytes or part of them. */
  lemma PaddedLength(s: seq<byte>)
    ensures |Encoded(s, true)| == (|s| + 2) / 3 * 4
  {
    hide Groups, Tail;
    var q, r := |s| / 3, |s| % 3;
    ModuloUnique(|s| + 2, if r == 0 then q else q + 1, if r == 0 then 2 else r - 1, 3);
  }

  /** The digits up to the first character that is none. */
  function Digits(t: string): (r: string)
    ensures r <= t && forall i :: 0 <= i < |r| ==> IsBase64(r[i])
    ensures |r| < |t| ==> !IsBase64(t[|r|])
  {
    if t == [] || !IsBase64(t[0]) then [] else [t[0]] + Digits(t[1..])
  }

  function Ungroup(a: char, b: char, c: char, d: char): (r: seq<byte>)
    ensures |r| == 3
  {
    var (x, y, z) := Octets(Index(a), Index(b), Index(c), Index(d));
    [x as byte, y as byte, z as byte]
  }

  /** The bytes of the first q groups of four digits. */
  function Ungroups(t: string, q: nat): (r: seq<byte>)
    requires 4 * q <= |t|
    ensures |r| == 3 * q
  {
    if q == 0 then [] else var n := 4 * q - 4; Ungroups(t, q - 1) + Ungroup(t[n], t[n + 1], t[n + 2], t[n + 3])
  }

  /** An incomplete group, filled up, yields one byte less than it has digits. */
  function Untail(t: string): (r: seq<byte>)
    requires |t| < 4
  {
    var f := '\0';
    if |t| <= 1 then []
    else if |t| == 2 then Ungroup(t[0], t[1], f, f)[..1]
    else Ungroup(t[0], t[1], t[2], f)[..2]
  }

  function Decoded(t: string): (r: seq<byte>)
  {
    var d := Digits(t);
    Ungroups(d, |d| / 4) + Untail(d[4 * (|d| / 4)..])
  }

  /** The digits of a group and their values. */
  lemma GroupDigits(a: byte, b: byte, c: byte)
    ensures var (w, x, y, z) := Sextets(a as nat, b as nat, c as nat);
            var g := Group(a, b, c);
            Index(g[0]) == w && Index(g[1]) == x && Index(g[2]) == y && Index(g[3]) == z
  {
    hide Index, Char;
    var (w, x, y, z) := Sextets(a as nat, b as nat, c as nat);
    CharIndex(w);
    CharIndex(x);
    CharIndex(y);
    CharIndex(z);
  }

  lemma UngroupGroup(a: byte, b: byte, c: byte)
    ensures var g := Group(a, b, c);
            Ungroup(g[0], g[1], g[2], g[3]) == [a, b, c] && Untail(g[..3]) == [a, b] && Untail(g[..2]) == [a]
  {
    hide Index, Char, Group, Sextets, Octets;
    GroupDigits(a, b, c);
    OctetsOfSextets(a as nat, b as nat, c as nat, Index('\0'));
  }

  /** A text begins with the first q groups of the bytes. */
  ghost predicate Begins(t: string, s: seq<byte>, q: nat)
    requires 3 * q <= |s| && 4 * q <= |t|
  {
    forall i :: 0 <= i < 4 * q ==> t[i] == Groups(s, q)[i]
  }

  lemma BeginsBefore(t: string, s: seq<byte>, q: nat)
    requires 0 < q && 3 * q <= |s| && 4 * q <= |t| && Begins(t, s, q)
    ensures Begins(t, s, q - 1)
    ensures var n, m := 3 * q - 3, 4 * q - 4;
            var g := Group(s[n], s[n + 1], s[n + 2]);
            t[m] == g[0] && t[m + 1] == g[1] && t[m + 2] == g[2] && t[m + 3] == g[3]
  {
    hide Group;
    var m := 4 * q - 4;
    assert forall i :: 0 <= i < m ==> Groups(s, q)[i] == Groups(s, q - 1)[i];
  }

  /** A text that begins with whole groups gives back their bytes. */
  lemma {:induction false} UngroupsGroups(s: seq<byte>, t: string, q: nat)
    requires 3 * q <= |s| && 4 * q <= |t| && Begins(t, s, q)
    ensures Ungroups(t, q) == s[..3 * q]
  {
    hide Group, Ungroup, Begins, Groups;
    if q > 0 {
      var n := 3 * q - 3;
      BeginsBefore(t, s, q);
      UngroupsGroups(s, t, q - 1);
      UngroupGroup(s[n], s[n + 1], s[n + 2]);
      assert s[..3 * q] == s[..n] + [s[n], s[n + 1], s[n + 2]];
    }
  }

  /** Only the first 4 q characters matter. */
  lemma {:induction false} UngroupsSame(t: string, u: string, q: nat)
    requires 4 * q <= |t| && 4 * q <= |u| && forall i :: 0 <= i < 4 * q ==> t[i] == u[i]
    ensures Ungroups(t, q) == Ungroups(u, q)
  {
    hide Ungroup;
    if q > 0 {
      UngroupsSame(t, u, q - 1);
    }
  }

  /** Every character of whole groups is a digit. */
  lemma {:induction false} GroupsAreDigits(s: seq<byte>, q: nat, i: nat)
    requires 3 * q <= |s| && i < 4 * q
    ensures IsBase64(Groups(s, q)[i])
  {
    hide Group, IsBase64;
    if i < 4 * q - 4 {
      GroupsAreDigits(s, q - 1, i);
    } else {
      GroupIsDigits(s[3 * q - 3], s[3 * q - 2], s[3 * q - 1], i - (4 * q - 4));
    }
  }

  lemma GroupIsDigits(a: byte, b: byte, c: byte, i: nat)
    requires i < 4
    ensures IsBase64(Group(a, b, c)[i])
  {
    var (w, x, y, z) := Sextets(a as nat, b as nat, c as nat);
    CharIndex(w);
    CharIndex(x);
    CharIndex(y);
    CharIndex(z);
  }

  /** The digits of a text end where the padding begins. */
  lemma {:induction false} DigitsOf(d: string, rest: string)
    requires forall i :: 0 <= i < |d| ==> IsBase64(d[i])
    requires rest == [] || !IsBase64(rest[0])
    ensures Digits(d + rest) == d
  {
    if d == [] {
      assert d + rest == rest;
    } else {
      assert (d + rest)[1..] == d[1..] + rest;
      DigitsOf(d[1..], rest);
    }
  }

  /** The tail without its padding. */
  function Bare(s: seq<byte>): (r: string)
    requires |s| < 3
    ensures |r| == if s == [] then 0 else |s| + 1
  {
    if s == [] then [] else if |s| == 1 then Group(s[0], 0, 0)[..2] else Group(s[0], s[1], 0)[..3]
  }

  lemma TailParts(s: seq<byte>, pad: bool) returns (rest: string)
    requires |s| < 3
    ensures Tail(s, pad) == Bare(s) + rest && (rest == [] || !IsBase64(rest[0]))
    ensures Untail(Bare(s)) == s
    ensures forall i :: 0 <= i < |Bare(s)| ==> IsBase64(Bare(s)[i])
  {
    hide Group, Ungroup, Untail;
    if s == [] {
      rest := [];
      assert Untail([]) == [] by {
        UntailNothing();
      }
    } else {
      var b := if |s| == 1 then 0 else s[1];
      UngroupGroup(s[0], b, 0);
      rest := if !pad then "" else if |s| == 1 then "==" else "=";
      forall i | 0 <= i < |Bare(s)| ensures IsBase64(Bare(s)[i]) {
        GroupIsDigits(s[0], b, 0, i);
      }
    }
  }

  lemma UntailNothing()
    ensures Untail([]) == []
  {
  }

  /** The digits are those of table 1 of RFC 4648, here by their ASCII codes: letters, small letters, digits, + and /. */
  lemma DigitsAreStandard(v: nat)
    requires v < 64
    ensures Char(v) as int == if v < 26 then 65 + v else if v < 52 then 97 + v - 26
                              else if v < 62 then 48 + v - 52 else if v == 62 then 43 else 47
    ensures Index(Char(v)) == v
  {
  }

  /** The number that digits denote in base 64, most significant first. */
  function Denoted(t: string): (r: nat) {
    if t == [] then 0 else 64 * Denoted(t[..|t| - 1]) + Index(t[|t| - 1])
  }

  lemma DenotedPush(t: string, c: char)
    ensures Denoted(t + [c]) == 64 * Denoted(t) + Index(c)
  {
    assert (t + [c])[..|t|] == t;
  }

  lemma ValuePush(s: seq<byte>, b: byte)
    ensures BigEndianValue(s + [b]) == 256 * BigEndianValue(s) + b as nat
  {
    assert (s + [b])[..|s|] == s;
  }

  lemma SextetsDenote(a: nat, b: nat, c: nat)
    requires a < 256 && b < 256 && c < 256
    ensures var (w, x, y, z) := Sextets(a, b, c);
            && ((w * 64 + x) * 64 + y) * 64 + z == (a * 256 + b) * 256 + c
            && (b == 0 ==> w * 64 + x == 16 * a)
            && (c == 0 ==> (w * 64 + x) * 64 + y == 4 * (a * 256 + b))
  {
  }

  /** A group denotes the number of its bytes, and its first digits as much of it as they hold. */
  lemma GroupDenotes(t: string, a: byte, b: byte, c: byte)
    ensures var g := Group(a, b, c);
            && Denoted(t + g) == 0x100_0000 * Denoted(t) + (a as nat * 256 + b as nat) * 256 + c as nat
            && (b == 0 ==> Denoted(t + g[..2]) == 4096 * Denoted(t) + 16 * a as nat)
            && (c == 0 ==> Denoted(t + g[..3]) == 0x4_0000 * Denoted(t) + 4 * (a as nat * 256 + b as nat))
  {
    hide Denoted, Index, Sextets, Group;
    var g := Group(a, b, c);
    GroupDigits(a, b, c);
    SextetsDenote(a as nat, b as nat, c as nat);
    DenotedPush(t, g[0]);
    DenotedPush(t + [g[0]], g[1]);
    DenotedPush(t + [g[0]] + [g[1]], g[2]);
    DenotedPush(t + [g[0]] + [g[1]] + [g[2]], g[3]);
    assert t + [g[0]] + [g[1]] == t + g[..2] && t + [g[0]] + [g[1]] + [g[2]] == t + g[..3];
    assert t + [g[0]] + [g[1]] + [g[2]] + [g[3]] == t + g;
  }

  lemma {:induction false} GroupsDenote(s: seq<byte>, q: nat)
    requires 3 * q <= |s|
    ensures Denoted(Groups(s, q)) == BigEndianValue(s[..3 * q])
  {
    hide Group, BigEndianValue, Denoted;
    if q == 0 {
      NothingDenoted();
      assert s[..0] == [];
    } else {
      var n := 3 * q - 3;
      GroupsDenote(s, q - 1);
      GroupDenotes(Groups(s, q - 1), s[n], s[n + 1], s[n + 2]);
      ValuePush(s[..n], s[n]);
      ValuePush(s[..n] + [s[n]], s[n + 1]);
      ValuePush(s[..n] + [s[n]] + [s[n + 1]], s[n + 2]);
      assert s[..3 * q] == s[..n] + [s[n]] + [s[n + 1]] + [s[n + 2]];
    }
  }

  lemma NothingDenoted()
    ensures Denoted([]) == 0 && BigEndianValue([]) == 0
  {
  }

  /**
   The text denotes the number of the bytes, followed by zero bits up to a whole digit, and padding
   fills it up to a whole group.
   */
  lemma TextDenotes(s: seq<byte>)
    ensures Denoted(Encoded(s, false)) == BigEndianValue(s) * (if |s| % 3 == 0 then 1 else if |s| % 3 == 1 then 16 else 4)
    ensures Encoded(s, true) == Encoded(s, false) + if |s| % 3 == 0 then "" else if |s| % 3 == 1 then "==" else "="
  {
    hide Groups, Tail, BigEndianValue, Denoted;
    var q := |s| / 3;
    var g, t := Groups(s, q), s[3 * q..];
    GroupsDenote(s, q);
    TailDenotes(g, s[..3 * q], t);
    assert s == s[..3 * q] + t;
    TailPadded(t);
    ConcatAssociative(g, Tail(t, false), if |t| == 0 then "" else if |t| == 1 then "==" else "=");
  }

  lemma TailPadded(t: seq<byte>)
    requires |t| < 3
    ensures Tail(t, true) == Tail(t, false) + if |t| == 0 then "" else if |t| == 1 then "==" else "="
  {
    hide Group;
  }

  lemma TailDenotes(g: string, s: seq<byte>, t: seq<byte>)
    requires |t| < 3 && Denoted(g) == BigEndianValue(s)
    ensures Denoted(g + Tail(t, false)) == BigEndianValue(s + t) * if |t| == 0 then 1 else if |t| == 1 then 16 else 4
  {
    hide Group, BigEndianValue, Denoted;
    if t == [] {
      assert s + t == s && g + [] == g;
    } else if |t| == 1 {
      GroupDenotes(g, t[0], 0, 0);
      ValuePush(s, t[0]);
      assert s + t == s + [t[0]] && Tail(t, false) == Group(t[0], 0, 0)[..2];
    } else {
      GroupDenotes(g, t[0], t[1], 0);
      ValuePush(s, t[0]);
      ValuePush(s + [t[0]], t[1]);
      assert s + t == s + [t[0]] + [t[1]] && Tail(t, false) == Group(t[0], t[1], 0)[..3];
    }
  }

  /** Three bytes hold what their four digits denote, and the first ones as much of it as they hold. */
  lemma OctetsDenote(w: nat, x: nat, y: nat, z: nat, filler: nat)
    requires w < 64 && x < 64 && y < 64 && z < 64
    ensures var (a, b, c) := Octets(w, x, y, z);
            var (a', b', _) := Octets(w, x, y, filler);
            && (a * 256 + b) * 256 + c == ((w * 64 + x) * 64 + y) * 64 + z
            && a' * 256 + b' == ((w * 64 + x) * 64 + y) / 4
            && Octets(w, x, filler, filler).0 == (w * 64 + x) / 16
  {
    ModuloUnique(w * 4 + x / 16, 0, w * 4 + x / 16, 256);
    ModuloUnique(x / 16, 0, x / 16, 4);
    ModuloUnique(x % 16 * 16 + y / 4, 0, x % 16 * 16 + y / 4, 256);
    ModuloUnique(y / 4, 0, y / 4, 16);
    ModuloUnique(y % 4 * 64 + z, 0, y % 4 * 64 + z, 256);
    ModuloUnique((w * 64 + x) * 64 + y, (w * 64 + x) * 16 + y / 4, y % 4, 4);
    ModuloUnique(w * 64 + x, w * 4 + x / 16, x % 16, 16);
  }

  lemma {:induction false} UngroupsDenote(t: string, q: nat)
    requires 4 * q <= |t| && forall i :: 0 <= i < |t| ==> IsBase64(t[i])
    ensures BigEndianValue(Ungroups(t, q)) == Denoted(t[..4 * q])
  {
    hide Octets, BigEndianValue, Denoted, Index, IsBase64;
    if q == 0 {
      NothingDenoted();
      assert t[..0] == [];
    } else {
      var n := 4 * q - 4;
      var s, front := Ungroups(t, q - 1), t[..n];
      UngroupsDenote(t, q - 1);
      OctetsDenote(Index(t[n]), Index(t[n + 1]), Index(t[n + 2]), Index(t[n + 3]), 0);
      var g := Ungroup(t[n], t[n + 1], t[n + 2], t[n + 3]);
      ValuePush(s, g[0]);
      ValuePush(s + [g[0]], g[1]);
      ValuePush(s + [g[0]] + [g[1]], g[2]);
      assert s + g == s + [g[0]] + [g[1]] + [g[2]];
      DenotedPush(front, t[n]);
      DenotedPush(front + [t[n]], t[n + 1]);
      DenotedPush(front + [t[n]] + [t[n + 1]], t[n + 2]);
      DenotedPush(front + [t[n]] + [t[n + 1]] + [t[n + 2]], t[n + 3]);
      assert t[..4 * q] == front + [t[n]] + [t[n + 1]] + [t[n + 2]] + [t[n + 3]];
    }
  }

  lemma UntailDenotes(s: seq<byte>, front: string, t: string)
    requires |t| < 4 && BigEndianValue(s) == Denoted(front) && forall i :: 0 <= i < |t| ==> IsBase64(t[i])
    ensures BigEndianValue(s + Untail(t))
            == Denoted(front + t) / if |t| == 0 then 1 else if |t| == 1 then 64 else if |t| == 2 then 16 else 4
    ensures |Untail(t)| == if |t| == 0 then 0 else |t| - 1
  {
    hide Octets, BigEndianValue, Denoted, Index, IsBase64;
    var f, v := '\0', Denoted(front);
    if t == [] {
      assert front + t == front && s + [] == s;
    } else if |t| == 1 {
      DenotedPush(front, t[0]);
      assert front + t == front + [t[0]] && s + [] == s;
      ModuloUnique(64 * v + Index(t[0]), v, Index(t[0]), 64);
    } else if |t| == 2 {
      OctetsDenote(Index(t[0]), Index(t[1]), 0, 0, Index(f));
      DenotedPush(front, t[0]);
      DenotedPush(front + [t[0]], t[1]);
      assert front + t == front + [t[0]] + [t[1]];
      var a := Ungroup(t[0], t[1], f, f)[0];
      ValuePush(s, a);
      assert Untail(t) == [a];
      Quotient(256 * v, Index(t[0]) * 64 + Index(t[1]), 16);
    } else {
      OctetsDenote(Index(t[0]), Index(t[1]), Index(t[2]), 0, Index(f));
      DenotedPush(front, t[0]);
      DenotedPush(front + [t[0]], t[1]);
      DenotedPush(front + [t[0]] + [t[1]], t[2]);
      assert front + t == front + [t[0]] + [t[1]] + [t[2]];
      var g := Ungroup(t[0], t[1], t[2], f);
      ValuePush(s, g[0]);
      ValuePush(s + [g[0]], g[1]);
      assert Untail(t) == [g[0], g[1]] && s + Untail(t) == s + [g[0]] + [g[1]];
      Quotient(0x1_0000 * v, (Index(t[0]) * 64 + Index(t[1])) * 64 + Index(t[2]), 4);
    }
  }

  lemma Quotient(a: nat, b: nat, m: nat)
    requires m > 0
    ensures (m * a + b) / m == a + b / m
  {
    var q, r := b / m, b % m;
    assert b == m * q + r;
    MulDifference(m, a, -q);
    ModuloUnique(m * a + b, a + q, r, m);
  }

  /** Whatever the text: its bytes denote what its digits up to the first other character denote, less the bits of no whole byte. */
  lemma DecodedDenotes(t: string)
    ensures var d := Digits(t);
            var r := |d| % 4;
            && |Decoded(t)| == |d| / 4 * 3 + (if r == 0 then 0 else r - 1)
            && BigEndianValue(Decoded(t)) == Denoted(d) / if r == 0 then 1 else if r == 1 then 64 else if r == 2 then 16 else 4
  {
    hide Ungroups, Untail, BigEndianValue, Denoted, IsBase64;
    var d := Digits(t);
    var q := |d| / 4;
    UngroupsDenote(d, q);
    UntailDenotes(Ungroups(d, q), d[..4 * q], d[4 * q..]);
    assert d == d[..4 * q] + d[4 * q..];
  }

  /** Decoding undoes encoding, with or without padding. */
  lemma DecodedEncoded(s: seq<byte>, pad: bool)
    ensures Decoded(Encoded(s, pad)) == s
  {
    hide *;
    var q := |s| / 3;
    EncodedParts(s, q, pad);
    var g, b := Groups(s, q), Bare(s[3 * q..]);
    var rest := TailParts(s[3 * q..], pad);
    forall i | 0 <= i < |g + b| ensures IsBase64((g + b)[i]) {
      if i < |g| {
        GroupsAreDigits(s, q, i);
      }
    }
    DigitsOf(g + b, rest);
    ConcatAssociative(g, b, rest);
    DecodedParts(Encoded(s, pad), g + b, q);
    assert (g + b)[4 * q..] == b;
    BeginsWith(s, g + b, q);
    UngroupsGroups(s, g + b, q);
    assert s[..3 * q] + s[3 * q..] == s;
  }

  lemma BeginsWith(s: seq<byte>, t: string, q: nat)
    requires 3 * q <= |s| && Groups(s, q) <= t
    ensures Begins(t, s, q)
  {
  }

  lemma DecodedParts(t: string, d: string, q: nat)
    requires Digits(t) == d && 0 <= |d| - 4 * q < 4
    ensures Decoded(t) == Ungroups(d, q) + Untail(d[4 * q..])
  {
    hide Digits, Ungroups, Untail;
    ModuloUnique(|d|, q, |d| - 4 * q, 4);
  }

  lemma EncodedParts(s: seq<byte>, q: nat, pad: bool)
    requires 0 <= |s| - 3 * q < 3
    ensures Encoded(s, pad) == Groups(s, q) + Tail(s[3 * q..], pad)
  {
    hide Groups, Tail;
    ModuloUnique(|s|, q, |s| - 3 * q, 3);
  }

  /** The encoder: bytes are collected in threes; what is left over is filled up with zeros. */
  method ToBase64(s: seq<byte>, pad: bool) returns (ret: string)
    ensures ret == Encoded(s, pad)
  {
    hide Group, Tail, Encoded;
    ret := "";
    var three, i := new byte[3], 0;
    ghost var q := 0;
    for n := 0 to |s|
      invariant n == 3 * q + i && i < 3 && ret == Groups(s, q)
      invariant forall k :: 0 <= k < i ==> three[k] == s[3 * q + k]
    {
      three[i] := s[n];
      i := i + 1;
      if i == 3 {
        ret := ret + Group(three[0], three[1], three[2]);
        i, q := 0, q + 1;
      }
    }
    EncodedParts(s, q, pad);
    assert three[..i] == s[3 * q..];
    var rest := EncodeTail(three, i, pad);
    ret := ret + rest;
  }

  method EncodeTail(three: array<byte>, left: nat, pad: bool) returns (ret: string)
    requires three.Length == 3 && left < 3
    modifies three
    ensures ret == Tail(old(three[..left]), pad)
  {
    hide Group;
    ret := "";
    if left == 0 {
      return;
    }
    for j := left to 3
      invariant three[..left] == old(three[..left]) && forall k :: left <= k < j ==> three[k] == 0
    {
      three[j] := 0;
    }
    var four := Group(three[0], three[1], three[2]);
    for j := 0 to left + 1
      invariant ret == four[..j]
    {
      ret := ret + [four[j]];
    }
    ghost var digits := ret;
    var i := left;
    while i < 3 && pad
      invariant left <= i <= 3 && ret == digits + seq(i - left, _ => '=') && (!pad ==> i == left)
    {
      ret := ret + "=";
      i := i + 1;
    }
    assert three[0] == three[..left][0] && (left == 2 ==> three[1] == three[..left][1]);
    assert pad ==> seq(i - left, _ => '=') == if left == 1 then "==" else "=";
    assert !pad ==> seq(i - left, _ => '=') == "";
  }

  /** The first n characters are digits and the next one, if there is one, is none. */
  ghost predicate EndsAt(t: string, n: nat) {
    && n <= |t| && (forall i :: 0 <= i < n ==> IsBase64(t[i]))
    && (n < |t| ==> t[n] == '=' || !IsBase64(t[n]))
  }

  lemma DigitsSplit(t: string, n: nat)
    requires EndsAt(t, n)
    ensures Digits(t) == t[..n]
  {
    assert t == t[..n] + t[n..];
    DigitsOf(t[..n], t[n..]);
  }

  /** The loop of the decoder: digits are collected in fours up to the first character that is none. */
  method DecodeGroups(t: string) returns (ret: seq<byte>, four: array<char>, i: nat, ghost q: nat)
    ensures fresh(four) && four.Length == 4 && i < 4 && EndsAt(t, 4 * q + i)
    ensures ret == Ungroups(t, q) && forall k :: 0 <= k < i ==> four[k] == t[4 * q + k]
  {
    hide Ungroup, IsBase64;
    ret, i, q := [], 0, 0;
    four := new char[4];
    var n := 0;
    while n < |t| && t[n] != '=' && IsBase64(t[n])
      invariant 0 <= n <= |t| && n == 4 * q + i && i < 4 && ret == Ungroups(t, q)
      invariant forall k :: 0 <= k < i ==> four[k] == t[4 * q + k]
      invariant forall k :: 0 <= k < n ==> IsBase64(t[k])
    {
      four[i] := t[n];
      i, n := i + 1, n + 1;
      if i == 4 {
        ret := ret + Ungroup(four[0], four[1], four[2], four[3]);
        i, q := 0, q + 1;
      }
    }
  }

  /** The decoder: an incomplete last group is filled up. */
  method FromBase64(t: string) returns (ret: seq<byte>)
    ensures ret == Decoded(t)
  {
    hide Digits, Decoded, Ungroups, Ungroup, Untail, IsBase64;
    var four, i;
    ghost var q;
    ret, four, i, q := DecodeGroups(t);
    ghost var d := t[..4 * q + i];
    DigitsSplit(t, 4 * q + i);
    DecodedParts(t, d, q);
    UngroupsSame(t, d, q);
    assert d[4 * q..] == four[..i];
    var rest := DecodeTail(four, i);
    ret := ret + rest;
  }

  method DecodeTail(four: array<char>, left: nat) returns (ret: seq<byte>)
    requires four.Length == 4 && left < 4
    modifies four
    ensures ret == Untail(old(four[..left]))
  {
    hide Ungroup;
    ret := [];
    if left == 0 {
      return;
    }
    for j := left to 4
      invariant four[..left] == old(four[..left]) && forall k :: left <= k < j ==> four[k] == '\0'
    {
      four[j] := '\0';
    }
    var three := Ungroup(four[0], four[1], four[2], four[3]);
    for j := 0 to left - 1
      invariant ret == three[..j]
    {
      ret := ret + [three[j]];
    }
    assert left > 1 ==> four[0] == four[..left][0] && four[1] == four[..left][1];
    assert left > 2 ==> four[2] == four[..left][2];
  }
}
