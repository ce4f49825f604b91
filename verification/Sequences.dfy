/** Sequences without repetitions. */
module Sequences {

  ghost predicate Distinct<T>(s: seq<T>) {
    forall i, j :: 0 <= i < j < |s| ==> s[i] != s[j]
  }

  /** The sequence without an element, in the same order. */
  function Without<T(==)>(s: seq<T>, x: T): (r: seq<T>)
    ensures forall y :: y in r ==> y in s && y != x
    ensures forall y :: y in s && y != x ==> y in r
    ensures |r| <= |s| && (x in s ==> |r| < |s|) && (x !in s ==> r == s)
    ensures Distinct(s) ==> Distinct(r) && (x in s ==> |r| == |s| - 1)
  {
    if s == [] then []
    else
      assert Distinct(s) ==> Distinct(s[1..]) && s[0] !in s[1..];
      if s[0] == x then Without(s[1..], x) else [s[0]] + Without(s[1..], x)
  }

  lemma DistinctTail<T>(s: seq<T>)
    requires Distinct(s) && s != []
    ensures Distinct(s[1..]) && s[0] !in s[1..]
    ensures forall x :: x in s ==> x == s[0] || x in s[1..]
  {
  }

  lemma DistinctPart<T>(s: seq<T>, i: nat)
    requires Distinct(s) && i < |s|
    ensures Distinct(s[..i] + s[i + 1..])
  {
    var t := s[..i] + s[i + 1..];
    forall a, b | 0 <= a < b < |t| ensures t[a] != t[b] {
      assert t[a] == s[if a < i then a else a + 1];
    }
  }

  lemma {:induction false} WithoutOne<T>(s: seq<T>, i: nat)
    requires Distinct(s) && i < |s|
    ensures Without(s, s[i]) == s[..i] + s[i + 1..]
  {
    hide Without;
    DistinctTail(s);
    WithoutStep(s, s[i]);
    if i > 0 {
      assert s[1..][i - 1] == s[i];
      WithoutOne(s[1..], i - 1);
      Splice(s, i);
    }
  }

  lemma WithoutStep<T>(s: seq<T>, x: T)
    requires s != []
    ensures Without(s, x) == if s[0] == x then Without(s[1..], x) else [s[0]] + Without(s[1..], x)
  {
  }

  lemma Splice<T>(s: seq<T>, i: nat)
    requires 0 < i < |s|
    ensures s[..i] + s[i + 1..] == [s[0]] + (s[1..][..i - 1] + s[1..][i..])
  {
  }

  /** A sequence without repetitions has as many positions as elements. */
  lemma {:induction false} DistinctCount<T>(s: seq<T>, elements: set<T>)
    requires Distinct(s) && forall x :: x in s <==> x in elements
    ensures |s| == |elements|
  {
    if s == [] {
      assert elements == {};
    } else {
      DistinctTail(s);
      DistinctCount(s[1..], elements - {s[0]});
    }
  }

  /** The sequence without some elements, in the same order. */
  function Minus<T(==)>(s: seq<T>, dropped: set<T>): (r: seq<T>)
    ensures forall x :: x in r ==> x in s && x !in dropped
    ensures forall x :: x in s && x !in dropped ==> x in r
  {
    if s == [] then [] else (if s[0] in dropped then [] else [s[0]]) + Minus(s[1..], dropped)
  }

  lemma {:induction false} MinusNothing<T>(s: seq<T>, dropped: set<T>)
    requires forall x :: x in s ==> x !in dropped
    ensures Minus(s, dropped) == s
  {
    if s != [] {
      MinusNothing(s[1..], dropped);
    }
  }

  lemma {:induction false} MinusFurther<T>(s: seq<T>, dropped: set<T>, x: T)
    ensures Without(Minus(s, dropped), x) == Minus(s, dropped + {x})
  {
    if s != [] {
      hide Without;
      var rest := Minus(s[1..], dropped);
      MinusFurther(s[1..], dropped, x);
      if s[0] !in dropped {
        WithoutStep([s[0]] + rest, x);
        assert ([s[0]] + rest)[1..] == rest;
      } else {
        assert [] + rest == rest;
      }
    }
  }

  lemma {:induction false} WithoutIsMinus<T>(s: seq<T>, x: T)
    ensures Without(s, x) == Minus(s, {x})
  {
    if s != [] {
      WithoutIsMinus(s[1..], x);
      WithoutStep(s, x);
    }
  }

  lemma {:induction false} MinusPush<T>(s: seq<T>, x: T)
    ensures Minus(s + [x], {x}) == Minus(s, {x})
  {
    if s == [] {
      assert s + [x] == [x];
    } else {
      assert (s + [x])[1..] == s[1..] + [x];
      MinusPush(s[1..], x);
    }
  }
}
