/**
 The candidates of common/vrf_wrapper.hpp repeat after 4096 votes and not before. So it can be told
 exactly for which numbers of votes no output gets a higher threshold.
 */
module SortitionPeriod {
  import opened Bits
  import opened Bytes
  import opened Modulo
  import opened Sortition

  const PERIOD: nat := 4096

  lemma {:induction false} PowerAdd(b: nat, m: nat, n: nat)
    ensures Power(b, m + n) == Power(b, m) * Power(b, n)
  {
    if n > 0 {
      PowerAdd(b, m, n - 1);
      MulAssociates(Power(b, m), Power(b, n - 1), b);
    }
  }

  lemma {:induction false} PowerTimes(b: nat, m: nat, n: nat)
    ensures Power(b, m * n) == Power(Power(b, m), n)
  {
    if n > 0 {
      PowerTimes(b, m, n - 1);
      assert m * n == m * (n - 1) + m;
      PowerAdd(b, m * (n - 1), m);
    }
  }

  lemma {:induction false} PowerModulo(b: nat, n: nat, m: nat)
    requires m > 0
    ensures Power(b % m, n) % m == Power(b, n) % m
  {
    if n > 0 {
      PowerModulo(b, n - 1, m);
      ModuloBoth(Power(b, n - 1), b, m);
      ModuloBoth(Power(b % m, n - 1), b % m, m);
      ModuloUnique(b % m, 0, b % m, m);
    }
  }

  lemma SquareStep(x: nat, e: nat, r: nat, q: nat, s: nat)
    requires Power(x, Pow2(e)) % TWO_TO_THE_16 == r && r * r == TWO_TO_THE_16 * q + s && s < TWO_TO_THE_16
    ensures Power(x, Pow2(e + 1)) % TWO_TO_THE_16 == s
  {
    hide Power;
    PowerAdd(x, Pow2(e), Pow2(e));
    ModuloBoth(Power(x, Pow2(e)), Power(x, Pow2(e)), TWO_TO_THE_16);
    ModuloUnique(r * r, q, s, TWO_TO_THE_16);
  }

  /** The multiplier to the powers of two, up to the first that is one. */
  lemma MultiplierOrder(x: nat)
    requires x == MULTIPLIER
    ensures Power(x, Pow2(11)) % TWO_TO_THE_16 == 32769
    ensures Power(x, Pow2(12)) % TWO_TO_THE_16 == 1
  {
    hide Power, Pow2;
    MultiplierOrderHalf(x);
    SquareStep(x, 6, 48129, 35345, 30721);
    SquareStep(x, 7, 30721, 14400, 61441);
    SquareStep(x, 8, 61441, 57601, 57345);
    SquareStep(x, 9, 57345, 50177, 49153);
    SquareStep(x, 10, 49153, 36865, 32769);
    SquareStep(x, 11, 32769, 16385, 1);
  }

  lemma MultiplierOrderHalf(x: nat)
    requires x == MULTIPLIER
    ensures Power(x, Pow2(6)) % TWO_TO_THE_16 == 48129
  {
    hide Power, Pow2;
    FirstPower(x);
    SquareStep(x, 0, 48271, 35554, 22497);
    SquareStep(x, 1, 22497, 7722, 46017);
    SquareStep(x, 2, 46017, 32311, 30593);
    SquareStep(x, 3, 30593, 14281, 12033);
    SquareStep(x, 4, 12033, 2209, 24065);
    SquareStep(x, 5, 24065, 8836, 48129);
  }

  lemma FirstPower(x: nat)
    requires x < TWO_TO_THE_16
    ensures Power(x, Pow2(0)) % TWO_TO_THE_16 == x
  {
    assert Power(x, 1) == Power(x, 0) * x;
  }

  lemma TwelfthPower()
    ensures Pow2(12) == PERIOD
  {
    assert Pow2(4) == 16;
    assert Pow2(8) == 16 * Pow2(4);
    assert Pow2(12) == 16 * Pow2(8);
  }

  lemma {:induction false} OddPower(b: nat, k: nat)
    requires b * b % TWO_TO_THE_16 == 1 && k % 2 == 1
    ensures Power(b, k) % TWO_TO_THE_16 == b % TWO_TO_THE_16
  {
    if k == 1 {
      assert Power(b, 1) == Power(b, 0) * b;
    } else {
      OddPower(b, k - 2);
      var x := Power(b, k - 2);
      MulAssociates(x, b, b);
      assert Power(b, k) == x * (b * b);
      ModuloBoth(x, b * b, TWO_TO_THE_16);
      ModuloUnique(x % TWO_TO_THE_16, 0, x % TWO_TO_THE_16, TWO_TO_THE_16);
    }
  }

  /** What squares to one in e more steps, and not before, has no smaller power that is one. */
  lemma {:induction false} NotOne(x: nat, e: nat, k: nat, b: nat)
    requires Power(x, Pow2(e)) % TWO_TO_THE_16 == b && b != 1 && b * b % TWO_TO_THE_16 == 1
    requires 0 < k < Pow2(e + 1)
    ensures Power(x, k) % TWO_TO_THE_16 != 1
    decreases k
  {
    hide Power;
    if k % 2 == 0 {
      var h := k / 2;
      Halved(x, h);
      Halved(x, Pow2(e - 1));
      NotOne(x * x, e - 1, h, b);
    } else {
      OddNotOne(x, Pow2(e), k, b);
    }
  }

  lemma OddNotOne(x: nat, p: nat, k: nat, b: nat)
    requires Power(x, p) % TWO_TO_THE_16 == b && b != 1 && b * b % TWO_TO_THE_16 == 1 && k % 2 == 1
    ensures Power(x, k) % TWO_TO_THE_16 != 1
  {
    hide Power;
    PowerTimes(x, k, p);
    PowerTimes(x, p, k);
    assert k * p == p * k;
    PowerModulo(Power(x, k), p, TWO_TO_THE_16);
    PowerModulo(Power(x, p), k, TWO_TO_THE_16);
    OddPower(b, k);
    OneToThe(p);
    ModuloUnique(b, 0, b, TWO_TO_THE_16);
  }

  lemma Halved(x: nat, h: nat)
    ensures Power(x, 2 * h) == Power(x * x, h)
  {
    PowerTimes(x, 2, h);
    assert Power(x, 2) == Power(x, 1) * x == x * x;
  }

  lemma {:induction false} OneToThe(n: nat)
    ensures Power(1, n) == 1
  {
    if n > 0 {
      OneToThe(n - 1);
    }
  }

  lemma MultiplierNotOne(k: nat)
    requires 0 < k < PERIOD
    ensures Power(MULTIPLIER, k) % TWO_TO_THE_16 != 1
  {
    hide Power, Pow2;
    MultiplierOrder(MULTIPLIER);
    TwelfthPower();
    NotOne(MULTIPLIER, 11, k, 32769);
  }

  /** The candidates repeat. */
  lemma CandidateRepeats(seed: nat, i: nat)
    ensures Candidate(seed, i + PERIOD) == Candidate(seed, i)
  {
    hide Power;
    var x, y := seed * Power(MULTIPLIER, i), Power(MULTIPLIER, PERIOD);
    MultiplierOrder(MULTIPLIER);
    TwelfthPower();
    PowerAdd(MULTIPLIER, i, PERIOD);
    MulAssociates(seed, Power(MULTIPLIER, i), y);
    ModuloBoth(x, y, TWO_TO_THE_16);
    ModuloUnique(x % TWO_TO_THE_16, 0, x % TWO_TO_THE_16, TWO_TO_THE_16);
  }

  lemma {:induction false} CandidateEarlier(seed: nat, i: nat) returns (j: nat)
    ensures j < PERIOD && Candidate(seed, i) == Candidate(seed, j)
  {
    hide Candidate;
    if i < PERIOD {
      j := i;
    } else {
      CandidateRepeats(seed, i - PERIOD);
      j := CandidateEarlier(seed, i - PERIOD);
    }
  }

  /** From a whole period on the threshold is the least of all candidates. */
  lemma FullPeriod(seed: nat, n: nat, t: nat, i: nat)
    requires n >= PERIOD && IsThreshold(seed, n, t)
    ensures t <= Candidate(seed, i)
  {
    hide Candidate;
    var j := CandidateEarlier(seed, i);
  }

  lemma {:induction false} PowerProduct(a: nat, b: nat, n: nat)
    ensures Power(a * b, n) == Power(a, n) * Power(b, n)
  {
    if n > 0 {
      var x, y := Power(a, n - 1), Power(b, n - 1);
      PowerProduct(a, b, n - 1);
      MulExchanges(x, y, a, b);
    }
  }

  lemma InverseNotOne(k: nat)
    requires 0 < k < PERIOD
    ensures Power(INVERSE, k) % TWO_TO_THE_16 != 1
  {
    hide Power;
    PowerProduct(INVERSE, MULTIPLIER, k);
    PowerModulo(INVERSE * MULTIPLIER, k, TWO_TO_THE_16);
    assert INVERSE * MULTIPLIER % TWO_TO_THE_16 == 1;
    OneToThe(k);
    ModuloBoth(Power(INVERSE, k), Power(MULTIPLIER, k), TWO_TO_THE_16);
    MultiplierNotOne(k);
    var y := Power(MULTIPLIER, k) % TWO_TO_THE_16;
    ModuloUnique(y, 0, y, TWO_TO_THE_16);
  }

  /** The seed whose j-th candidate is one. */
  function SeedFor(j: nat): (r: nat)
    ensures r < TWO_TO_THE_16
  {
    Power(INVERSE, j) % TWO_TO_THE_16
  }

  lemma {:induction false} Backwards(j: nat, i: nat)
    requires i <= j
    ensures Candidate(SeedFor(j), i) == Power(INVERSE, j - i) % TWO_TO_THE_16
  {
    hide Candidate, Power;
    if i == 0 {
      FirstCandidate(SeedFor(j));
    } else {
      Backwards(j, i - 1);
      CandidateStep(SeedFor(j), i - 1);
      InverseStep(j - i);
    }
  }

  lemma InverseStep(k: nat)
    ensures Power(INVERSE, k + 1) % TWO_TO_THE_16 * MULTIPLIER % TWO_TO_THE_16 == Power(INVERSE, k) % TWO_TO_THE_16
  {
    var x := Power(INVERSE, k);
    MulModulo(x * INVERSE, MULTIPLIER, TWO_TO_THE_16);
    assert x * INVERSE * MULTIPLIER == TWO_TO_THE_16 * (42696 * x) + x;
    AddModulo(TWO_TO_THE_16 * (42696 * x), x, TWO_TO_THE_16);
    ModuloUnique(TWO_TO_THE_16 * (42696 * x), 42696 * x, 0, TWO_TO_THE_16);
  }

  lemma {:induction false} ThresholdExists(seed: nat, votes: nat) returns (r: nat)
    ensures IsThreshold(seed, votes, r)
  {
    hide Candidate;
    if votes <= 1 {
      r := Candidate(seed, 0);
    } else {
      r := ThresholdExists(seed, votes - 1);
      if Candidate(seed, votes - 1) < r {
        r := Candidate(seed, votes - 1);
      }
    }
  }

  /** Whatever the seed, n votes get no higher threshold than m votes. */
  ghost predicate NeverRises(m: nat, n: nat) {
    forall seed: nat, t: nat, t': nat :: seed < TWO_TO_THE_16 && IsThreshold(seed, m, t) && IsThreshold(seed, n, t') ==> t' <= t
  }

  predicate Enough(m: nat, n: nat) {
    m <= n || m <= 1 || n >= PERIOD
  }

  lemma EnoughFalls(seed: nat, m: nat, n: nat, t: nat, t': nat)
    requires Enough(m, n) && IsThreshold(seed, m, t) && IsThreshold(seed, n, t')
    ensures t' <= t
  {
    hide Candidate;
    if n >= PERIOD {
      var i :| (0 <= i < m || i == 0) && t == Candidate(seed, i);
      FullPeriod(seed, n, t', i);
    }
  }

  /** With too few votes some seed gets threshold one for the greater number and a higher one for the smaller. */
  lemma RisesOtherwise(m: nat, n: nat, t: nat, t': nat)
    requires !Enough(m, n)
    requires var seed := SeedFor(if n == 0 then 1 else n); IsThreshold(seed, m, t) && IsThreshold(seed, n, t')
    ensures t == 1 < t'
  {
    hide Candidate, Power, SeedFor;
    var j := if n == 0 then 1 else n;
    var seed := SeedFor(j);
    CandidateIsOne(j);
    CandidateZero(seed, j);
    ThresholdZero(seed, m, t);
    ThresholdZero(seed, n, t');
    var i :| (0 <= i < n || i == 0) && t' == Candidate(seed, i);
    CandidateIsNotOne(j, i);
  }

  lemma CandidateIsOne(j: nat)
    ensures Candidate(SeedFor(j), j) == 1
  {
    hide Candidate;
    Backwards(j, j);
  }

  lemma CandidateIsNotOne(j: nat, i: nat)
    requires i < j < PERIOD
    ensures Candidate(SeedFor(j), i) != 1
  {
    hide Candidate;
    Backwards(j, i);
    InverseNotOne(j - i);
  }

  /** Exactly when more of one number of votes than of another never raises the threshold. */
  lemma NeverRisesIff(m: nat, n: nat)
    ensures NeverRises(m, n) <==> Enough(m, n)
  {
    hide IsThreshold, Candidate, Enough;
    if Enough(m, n) {
      forall seed: nat, t: nat, t': nat | seed < TWO_TO_THE_16 && IsThreshold(seed, m, t) && IsThreshold(seed, n, t')
        ensures t' <= t
      {
        EnoughFalls(seed, m, n, t, t');
      }
    } else {
      var seed := SeedFor(if n == 0 then 1 else n);
      var t := ThresholdExists(seed, m);
      var t' := ThresholdExists(seed, n);
      RisesOtherwise(m, n, t, t');
    }
  }

  /** For the same output a node with more of the votes gets no higher difficulty, as long as its share is enough. */
  lemma MoreVotesNeverHarder(p: Params, seed: nat, votes: nat, votes': nat, total: nat, t: nat, t': nat)
    requires Roomy(p) && p.stale >= p.max + 1 && total > 0 && Enough(Share(votes, total), Share(votes', total))
    requires IsThreshold(seed, Share(votes, total), t) && IsThreshold(seed, Share(votes', total), t')
    ensures Difficulty(p, t).Some? && Difficulty(p, t').Some?
    ensures Difficulty(p, t').value <= Difficulty(p, t).value
  {
    hide Difficulty, IsThreshold, Roomy, Share, Enough;
    EnoughFalls(seed, Share(votes, total), Share(votes', total), t, t');
    DifficultyMonotone(p, t', t);
  }

  /** It is, whenever the share fits its 64 and 16 bits; so for every part of the votes. */
  lemma CountedIsEnough(votes: nat, votes': nat, total: nat)
    requires total > 0 && votes <= votes' && Counted(votes', total)
    ensures Enough(Share(votes, total), Share(votes', total))
  {
    hide Share, Counted;
    SharesGrow(votes, votes', total);
  }

  /** Otherwise it may not be: with a thousand votes in all, 65536 count for none. */
  lemma CutShareIsNotEnough()
    ensures !Enough(Share(65535, 1000), Share(65536, 1000)) && !Counted(65536, 1000)
  {
  }
}
