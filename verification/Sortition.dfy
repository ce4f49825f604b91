/**
 VRF thresholds and VDF difficulties: common/vrf_wrapper.hpp, vdf/sortition.cpp and
 vdf/config.cpp, with their 16-bit and 32-bit arithmetic written out.
 */
module Sortition {
  import opened Bytes
  import opened Wrappers
  import opened Modulo

  const MULTIPLIER: nat := 48271
  const THRESHOLD_CORRECTION: nat := 10
  const VOTES_PROPORTION: nat := 1000
  const THRESHOLD_UPPER_MIN: int := 0x50
  const MAX_16: int := 0xffff

  function Power(b: nat, n: nat): nat {
    if n == 0 then 1 else Power(b, n - 1) * b
  }

  /** The i-th candidate in closed form. */
  function Candidate(seed: nat, i: nat): (r: nat)
    ensures r < TWO_TO_THE_16
  {
    seed * Power(MULTIPLIER, i) % TWO_TO_THE_16
  }

  lemma CandidateStep(seed: nat, i: nat)
    ensures Candidate(seed, i + 1) == Candidate(seed, i) * MULTIPLIER % TWO_TO_THE_16
  {
    var x := seed * Power(MULTIPLIER, i);
    assert seed * Power(MULTIPLIER, i + 1) == x * MULTIPLIER by {
      MulAssociates(seed, Power(MULTIPLIER, i), MULTIPLIER);
    }
    MulModulo(x, MULTIPLIER, TWO_TO_THE_16);
  }

  /** A lower bound of all candidates of the votes that is one of them. */
  ghost predicate IsThreshold(seed: nat, votes: nat, r: nat) {
    && (forall i :: 0 <= i < votes || i == 0 ==> r <= Candidate(seed, i))
    && (exists i :: (0 <= i < votes || i == 0) && r == Candidate(seed, i))
  }

  /** The threshold of an output whose first two bytes are low and high. */
  method ThresholdFromOutput(low: nat, high: nat, votes: nat) returns (threshold: nat)
    requires low < 256 && high < 256 && votes < TWO_TO_THE_16
    ensures IsThreshold(256 * high + low, votes, threshold)
  {
    hide Candidate;
    var seed := 256 * high + low;
    threshold := seed;
    FirstCandidate(seed);
    if votes > 1 {
      var minThreshold: nat, candidate: nat := threshold, threshold;
      for i := 1 to votes
        invariant candidate == Candidate(seed, i - 1)
        invariant IsThreshold(seed, i, minThreshold)
      {
        CandidateStep(seed, i - 1);
        candidate := candidate * MULTIPLIER % TWO_TO_THE_16;
        if candidate < minThreshold {
          minThreshold := candidate;
        }
      }
      threshold := minThreshold;
    }
  }

  lemma FirstCandidate(seed: nat)
    requires seed < TWO_TO_THE_16
    ensures Candidate(seed, 0) == seed
  {
  }

  /** More votes never raise the threshold. */
  lemma ThresholdFalls(seed: nat, votes: nat, votes': nat, r: nat, r': nat)
    requires votes <= votes' && IsThreshold(seed, votes, r) && IsThreshold(seed, votes', r')
    ensures r' <= r
  {
    hide Candidate;
  }

  const INVERSE: nat := 57967

  /** Multiplication by an odd number modulo a power of two can be undone. */
  lemma MultiplierUndone(c: nat)
    requires c < TWO_TO_THE_16
    ensures c * MULTIPLIER % TWO_TO_THE_16 * INVERSE % TWO_TO_THE_16 == c
  {
    MulModulo(c * MULTIPLIER, INVERSE, TWO_TO_THE_16);
    assert c * MULTIPLIER * INVERSE == TWO_TO_THE_16 * (42696 * c) + c;
    ModuloUnique(c * MULTIPLIER * INVERSE, 42696 * c, c, TWO_TO_THE_16);
  }

  lemma {:induction false} CandidateZero(seed: nat, i: nat)
    requires seed < TWO_TO_THE_16
    ensures Candidate(seed, i) == 0 <==> seed == 0
  {
    hide Candidate;
    if i == 0 {
      FirstCandidate(seed);
    } else {
      CandidateZero(seed, i - 1);
      CandidateStep(seed, i - 1);
      MultiplierUndone(Candidate(seed, i - 1));
    }
  }

  /** Only a zero seed has a zero threshold. */
  lemma ThresholdZero(seed: nat, votes: nat, r: nat)
    requires seed < TWO_TO_THE_16 && IsThreshold(seed, votes, r)
    ensures r == 0 <==> seed == 0
  {
    hide Candidate;
    var i :| (0 <= i < votes || i == 0) && r == Candidate(seed, i);
    CandidateZero(seed, i);
  }

  /** Difficulty settings, all of 16 bits. */
  datatype Params = Params(thresholdUpper: nat, min: nat, max: nat, stale: nat)

  predicate Sixteen(p: Params) {
    p.thresholdUpper < TWO_TO_THE_16 && p.min < TWO_TO_THE_16 && p.max < TWO_TO_THE_16 && p.stale < TWO_TO_THE_16
  }

  /** How many difficulties there are, from min to max. */
  function Number(p: Params): int {
    p.max - p.min + 1
  }

  /** Signed division, which truncates towards zero. */
  function Truncated(a: nat, n: int): int
    requires n != 0
  {
    if n > 0 then a / n else -(a / -n)
  }

  /** A signed divisor taken as an unsigned one. */
  function Unsigned(x: int): int {
    x % TWO_TO_THE_32
  }

  /** The difficulty for a threshold; None is a division by zero. */
  function Difficulty(p: Params, threshold: nat): (r: Option<nat>)
    requires Sixteen(p)
  {
    var corrected := threshold * THRESHOLD_CORRECTION;
    if corrected >= p.thresholdUpper then Some(p.stale)
    else if Number(p) == 0 then None
    else
      var width := Unsigned(Truncated(p.thresholdUpper, Number(p)));
      if width == 0 then None else Some((p.min + corrected / width) % TWO_TO_THE_16)
  }

  /** The settings the computation is meant for: at least one difficulty and a threshold for each. */
  predicate Proper(p: Params) {
    Sixteen(p) && 1 <= Number(p) <= p.thresholdUpper
  }

  function Width(p: Params): (r: nat)
    requires Proper(p)
    ensures 1 <= r <= p.thresholdUpper
  {
    p.thresholdUpper / Number(p)
  }

  lemma DivideBelow(x: nat, d: nat, k: nat)
    requires d > 0
    ensures x / d < k <==> x < k * d
  {
    var q := x / d;
    assert x == d * q + x % d;
    if q < k {
      assert d * q + d <= d * k by { MultipleIsFar(d, k - q); }
    } else {
      assert d * q >= d * k by { assert d * (q - k) >= 0; }
    }
  }

  /** With proper settings the computation never divides by zero, and without a stale threshold it yields min plus a quotient. */
  lemma DifficultyValue(p: Params, t: nat)
    requires Proper(p) && t * THRESHOLD_CORRECTION < p.thresholdUpper
    ensures Difficulty(p, t) == Some((p.min + t * THRESHOLD_CORRECTION / Width(p)) % TWO_TO_THE_16)
    ensures t * THRESHOLD_CORRECTION / Width(p) < TWO_TO_THE_16
  {
    var w := Width(p);
    DivideBelow(t * THRESHOLD_CORRECTION, w, TWO_TO_THE_16);
    MultipleIsFar(TWO_TO_THE_16, w);
    ModuloUnique(w, 0, w, TWO_TO_THE_32);
  }

  predicate InRange(p: Params, d: nat) {
    p.min <= d <= p.max + 1
  }

  /** The most intervals that lead to difficulties in range: one more than there are, if 16 bits hold it. */
  function Intervals(p: Params): int {
    if p.max == MAX_16 then Number(p) else Number(p) + 1
  }

  /** Exactly which thresholds that are not stale have a difficulty from min to max + 1. */
  lemma DifficultyInRangeIff(p: Params, t: nat)
    requires Proper(p) && t * THRESHOLD_CORRECTION < p.thresholdUpper
    ensures Difficulty(p, t).Some?
    ensures InRange(p, Difficulty(p, t).value) <==> t * THRESHOLD_CORRECTION < Intervals(p) * Width(p)
  {
    hide Difficulty, Width;
    DifficultyValue(p, t);
    DivideBelow(t * THRESHOLD_CORRECTION, Width(p), Intervals(p));
    WrapsOutOfRange(p, t * THRESHOLD_CORRECTION / Width(p));
  }

  /** A sum that does not fit 16 bits ends up below min. */
  lemma WrapsOutOfRange(p: Params, q: nat)
    requires Sixteen(p) && p.min <= p.max && Number(p) < TWO_TO_THE_16 && q < TWO_TO_THE_16
    ensures InRange(p, (p.min + q) % TWO_TO_THE_16) <==> q < Intervals(p)
  {
    if p.min + q < TWO_TO_THE_16 {
      ModuloUnique(p.min + q, 0, p.min + q, TWO_TO_THE_16);
    } else {
      ModuloUnique(p.min + q, 1, p.min + q - TWO_TO_THE_16, TWO_TO_THE_16);
    }
  }

  /** Enough thresholds for the number of difficulties keep all of them in range. */
  predicate Roomy(p: Params) {
    Proper(p) && p.max < MAX_16 && p.thresholdUpper >= Number(p) * (Number(p) - 1)
  }

  lemma RoomyWidth(p: Params)
    requires Roomy(p)
    ensures p.thresholdUpper <= Intervals(p) * Width(p)
  {
    var n, w := Number(p), Width(p);
    assert p.thresholdUpper == n * w + p.thresholdUpper % n;
    DivideBelow(p.thresholdUpper, n, n - 1);
    assert (n - 1) * n == n * (n - 1);
    assert w >= n - 1;
    assert (n + 1) * w == n * w + w;
  }

  lemma RoomyInRange(p: Params, t: nat)
    requires Roomy(p) && t * THRESHOLD_CORRECTION < p.thresholdUpper
    ensures Difficulty(p, t).Some? && InRange(p, Difficulty(p, t).value)
  {
    hide Difficulty;
    RoomyWidth(p);
    DifficultyInRangeIff(p, t);
  }

  lemma DivideMonotone(a: nat, b: nat, d: nat)
    requires a <= b && d > 0
    ensures a / d <= b / d
  {
    DivideBelow(b, d, b / d + 1);
    DivideBelow(a, d, b / d + 1);
  }

  /** A higher threshold never has a lower difficulty, a stale one having the highest. */
  lemma DifficultyMonotone(p: Params, t: nat, t': nat)
    requires Roomy(p) && p.stale >= p.max + 1 && t <= t'
    ensures Difficulty(p, t).Some? && Difficulty(p, t').Some?
    ensures Difficulty(p, t).value <= Difficulty(p, t').value
  {
    if t' * THRESHOLD_CORRECTION < p.thresholdUpper {
      DivideMonotone(t * THRESHOLD_CORRECTION, t' * THRESHOLD_CORRECTION, Width(p));
      PlainValue(p, t);
      PlainValue(p, t');
    } else if t * THRESHOLD_CORRECTION < p.thresholdUpper {
      RoomyInRange(p, t);
    }
  }

  lemma PlainValue(p: Params, t: nat)
    requires Roomy(p) && t * THRESHOLD_CORRECTION < p.thresholdUpper
    ensures Difficulty(p, t) == Some(p.min + t * THRESHOLD_CORRECTION / Width(p))
  {
    hide Difficulty, Width, Intervals;
    DifficultyValue(p, t);
    RoomyQuotient(p, t);
    SumFits(p, t * THRESHOLD_CORRECTION / Width(p));
  }

  lemma RoomyQuotient(p: Params, t: nat)
    requires Roomy(p) && t * THRESHOLD_CORRECTION < p.thresholdUpper
    ensures t * THRESHOLD_CORRECTION / Width(p) < Intervals(p)
  {
    hide Width;
    RoomyWidth(p);
    DivideBelow(t * THRESHOLD_CORRECTION, Width(p), Intervals(p));
  }

  lemma SumFits(p: Params, q: nat)
    requires Sixteen(p) && p.min <= p.max < MAX_16 && q < Intervals(p)
    ensures (p.min + q) % TWO_TO_THE_16 == p.min + q
  {
    ModuloUnique(p.min + q, 0, p.min + q, TWO_TO_THE_16);
  }

  /**
   The bands of the difficulties: below the upper threshold, min plus k belongs to the k-th band, all
   bands being equally wide.
   */
  lemma DifficultyBands(p: Params, t: nat, k: nat)
    requires Roomy(p) && 10 * t < p.thresholdUpper
    ensures var width := p.thresholdUpper / (p.max - p.min + 1);
            Difficulty(p, t) == Some(p.min + k) <==> k * width <= 10 * t < (k + 1) * width
  {
    hide Difficulty, Intervals;
    PlainValue(p, t);
    DivideBelow(10 * t, Width(p), k);
    DivideBelow(10 * t, Width(p), k + 1);
  }

  /**
   Exactly when the difficulty is the stale one: from the upper threshold on and, if the stale
   difficulty is right behind the highest, also in the band left over by the division.
   */
  lemma StaleIff(p: Params, t: nat)
    requires Roomy(p) && p.stale >= p.max + 1
    ensures var n := p.max - p.min + 1;
            Difficulty(p, t) == Some(p.stale)
            <==> 10 * t >= p.thresholdUpper || (p.stale == p.max + 1 && 10 * t >= n * (p.thresholdUpper / n))
  {
    if 10 * t < p.thresholdUpper {
      hide Difficulty;
      var n, w := Number(p), Width(p);
      RoomyWidth(p);
      DifficultyBands(p, t, p.stale - p.min);
      NextMultiple(n, p.stale - p.min + 1, w);
      if p.stale > p.max + 1 {
        NextMultiple(n, p.stale - p.min, w);
      }
      MulDistributes(n, 1, w);
    }
  }

  /** With the default settings it is the stale one from threshold 1000 on. */
  lemma DefaultStale(t: nat)
    ensures Difficulty(Params(0x2710, 16, 21, 22), t) == Some(22) <==> t >= 1000
  {
    StaleIff(Params(0x2710, 16, 21, 22), t);
  }

  /** A node's share of all votes in thousandths. */
  function Proportion(votes: nat, total: nat): nat
    requires total > 0
  {
    votes * VOTES_PROPORTION / total
  }

  /** The share as it is computed, in 64 bits, and handed on, in 16. */
  function Share(votes: nat, total: nat): nat
    requires total > 0
  {
    votes * VOTES_PROPORTION % TWO_TO_THE_64 / total % TWO_TO_THE_16
  }

  /** The votes for which neither width matters; a node with a part of the votes has no others below 2^64 / 1000. */
  predicate Counted(votes: nat, total: nat)
    requires total > 0
  {
    votes * VOTES_PROPORTION < TWO_TO_THE_64 && Proportion(votes, total) < TWO_TO_THE_16
  }

  lemma CountedShare(votes: nat, total: nat)
    requires total > 0 && Counted(votes, total)
    ensures Share(votes, total) == Proportion(votes, total)
  {
    var x := votes * VOTES_PROPORTION;
    ModuloUnique(x, 0, x, TWO_TO_THE_64);
    ModuloUnique(x / total, 0, x / total, TWO_TO_THE_16);
  }

  lemma PartIsCounted(votes: nat, total: nat)
    requires 0 < total && votes <= total && total * VOTES_PROPORTION < TWO_TO_THE_64
    ensures Counted(votes, total) && Share(votes, total) <= VOTES_PROPORTION
  {
    DivideBelow(votes * VOTES_PROPORTION, total, VOTES_PROPORTION + 1);
    CountedShare(votes, total);
  }

  /** The share that counts is the proportion in thousandths, rounded down. */
  lemma ShareIs(votes: nat, total: nat)
    requires total > 0 && Counted(votes, total)
    ensures Share(votes, total) * total <= 1000 * votes < (Share(votes, total) + 1) * total
  {
    hide Share;
    CountedShare(votes, total);
    var q := votes * VOTES_PROPORTION / total;
    DivideBelow(votes * VOTES_PROPORTION, total, q);
    DivideBelow(votes * VOTES_PROPORTION, total, q + 1);
  }

  lemma SharesGrow(votes: nat, votes': nat, total: nat)
    requires total > 0 && votes <= votes' && Counted(votes', total)
    ensures Share(votes, total) <= Share(votes', total)
  {
    hide Share;
    DivideMonotone(votes * VOTES_PROPORTION, votes' * VOTES_PROPORTION, total);
    CountedShare(votes, total);
    CountedShare(votes', total);
  }

  function Abs(x: int): int {
    if x < 0 then -x else x
  }

  /** The change itself, or what is left to the limit if that is less. */
  function FixFromOverflow(value: int, change: int, limit: int): int {
    if Abs(change) > Abs(limit - value) then limit - value else change
  }

  function Clamp(x: int): int {
    if x < THRESHOLD_UPPER_MIN then THRESHOLD_UPPER_MIN else if x > MAX_16 then MAX_16 else x
  }

  class VrfParams {
    var thresholdUpper: nat

    constructor (thresholdUpper: nat)
      requires thresholdUpper < TWO_TO_THE_16
      ensures this.thresholdUpper == thresholdUpper
    {
      this.thresholdUpper := thresholdUpper;
    }

    /**
     The change of the upper threshold by a 32-bit amount other than the least, whose absolute
     value does not exist. It ends at the bounds exactly unless it starts below the lower bound
     and does not leave it.
     */
    method Add(change: int)
      requires thresholdUpper < TWO_TO_THE_16 && -0x8000_0000 < change < 0x8000_0000
      modifies this
      ensures thresholdUpper < TWO_TO_THE_16
      ensures thresholdUpper == Clamp(old(thresholdUpper) + change)
              <==> !(old(thresholdUpper) < THRESHOLD_UPPER_MIN && Abs(change) <= THRESHOLD_UPPER_MIN - old(thresholdUpper)
                     && old(thresholdUpper) + change != THRESHOLD_UPPER_MIN)
      ensures thresholdUpper != Clamp(old(thresholdUpper) + change) ==>
                thresholdUpper == (old(thresholdUpper) + change) % TWO_TO_THE_16
    {
      var limit := if change < 0 then THRESHOLD_UPPER_MIN else MAX_16;
      var fixed := FixFromOverflow(thresholdUpper, change, limit);
      thresholdUpper := (thresholdUpper + fixed) % TWO_TO_THE_16;
    }
  }
}
