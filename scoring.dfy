/**
 The score of a (partial) assignment and the order the optimiser maximises.

 A score is the 64-bit mask of the traits obtained together with the uint32
 total cost. The mask is modelled as the set of trait ids it holds: trait t
 is bit t - 1, so a mask holds ids 1 to 64. Scores are compared on the key
 (priority traits obtained, all traits obtained, -cost), lexicographically and
 strictly, where -cost is the uint32 negation of the cost: it reverses the
 order among positive costs but sends 0 to 0, so a cost of 0 ranks below every
 positive cost on the third key.
 */
module Scoring {

  /** Width of the trait mask (uint64_t). */
  const MaskBits: nat := 64
  /** 2^32: the uint32_t cost wraps modulo this. */
  const U32: nat := 0x1_0000_0000

  /** The trait ids 1 to n: the mask whose low n bits are set. */
  function LowBits(n: nat): (m: set<nat>)
    ensures forall t :: t in m <==> 1 <= t <= n
  {
    if n == 0 then {} else LowBits(n - 1) + {n}
  }

  /** The mask with every bit set: the default argument (-1) of tripod_count. */
  function FullMask(): set<nat> { LowBits(MaskBits) }

  /** prio_mask = (1 << prio_tripods) - 1: the first `prio` trait ids. */
  function PrioMask(prio: nat): set<nat>
    requires prio < MaskBits
  {
    LowBits(prio)
  }

  /** Unary minus on a uint32_t value: the uint32 that adds to c to give 0 modulo 2^32. */
  function Neg32(c: nat): (n: nat)
    ensures n < U32 && (n + c) % U32 == 0
  {
    (U32 - c % U32) % U32
  }

  datatype Score = Score(tripods: set<nat>, cost: nat) {

    /** popcount(tripods & mask): never more than the traits held or the bits asked for. */
    function TripodCount(mask: set<nat>): (n: nat)
      ensures n <= |tripods| && n <= |mask|
      ensures n == |tripods| <==> tripods <= mask
    {
      SubsetSize(tripods * mask, tripods);
      SubsetSize(tripods * mask, mask);
      assert tripods <= mask ==> tripods * mask == tripods;
      assert tripods * mask == tripods ==> tripods <= mask;
      |tripods * mask|
    }

    /**
     The tuple the comparison is made on. Its middle entry, tripod_count with
     the default all-ones mask, is the number of traits in the mask
     (FullMaskCountsAll).
     */
    function Key(prioMask: set<nat>): (nat, nat, nat)
    {
      (TripodCount(prioMask), |tripods|, Neg32(cost))
    }

    /**
     score(*this) > score(other) on std::tuple: the priority count decides
     first, so a better score never has fewer priority traits, and more of them
     is always better.
     */
    predicate BetterThan(other: Score, prioMask: set<nat>)
      ensures BetterThan(other, prioMask) ==> TripodCount(prioMask) >= other.TripodCount(prioMask)
      ensures TripodCount(prioMask) > other.TripodCount(prioMask) ==> BetterThan(other, prioMask)
    {
      LexGreater(Key(prioMask), other.Key(prioMask))
    }
  }

  /** A subset is no larger, and one as large is the whole set. */
  lemma {:induction false} SubsetSize(a: set<nat>, b: set<nat>)
    requires a <= b
    ensures |a| <= |b|
    ensures |a| == |b| ==> a == b
    decreases a
  {
    if a != {} {
      var x :| x in a;
      SubsetSize(a - {x}, b - {x});
      assert a == (a - {x}) + {x} && b == (b - {x}) + {x};
    }
  }

  /** The starting best score and the score of the empty selection. */
  const Zero := Score({}, 0)

  /** operator> of std::tuple on three components. */
  predicate LexGreater(x: (nat, nat, nat), y: (nat, nat, nat))
  {
    x.0 > y.0 || (x.0 == y.0 && (x.1 > y.1 || (x.1 == y.1 && x.2 > y.2)))
  }

  /** With the default mask, tripod_count counts every trait of a 64-bit mask. */
  lemma FullMaskCountsAll(s: Score)
    requires forall t :: t in s.tripods ==> 1 <= t <= MaskBits
    ensures s.TripodCount(FullMask()) == |s.tripods|
  {
    assert s.tripods * FullMask() == s.tripods;
  }

  /** BetterThan is a strict order: irreflexive, asymmetric and transitive. */
  lemma BetterThanIsStrictOrder(a: Score, b: Score, c: Score, prioMask: set<nat>)
    ensures !a.BetterThan(a, prioMask)
    ensures a.BetterThan(b, prioMask) ==> !b.BetterThan(a, prioMask)
    ensures a.BetterThan(b, prioMask) && b.BetterThan(c, prioMask) ==> a.BetterThan(c, prioMask)
  {
  }

  /**
   The cost order the uint32 negation gives: cost a beats cost b exactly when a
   is positive and b is 0 or larger than a.
   */
  predicate CheaperU32(a: nat, b: nat)
  {
    a != 0 && (b == 0 || a < b)
  }

  lemma Neg32Value(c: nat)
    requires c < U32
    ensures Neg32(c) == if c == 0 then 0 else U32 - c
  {
    assert c % U32 == c;
    if c == 0 {
      assert (U32 - 0) % U32 == 0;
    } else {
      assert 0 < U32 - c < U32;
    }
  }

  /** The third key orders costs as CheaperU32 says. */
  lemma Neg32Order(a: nat, b: nat)
    requires a < U32 && b < U32
    ensures Neg32(a) > Neg32(b) <==> CheaperU32(a, b)
  {
    Neg32Value(a);
    Neg32Value(b);
  }

  /**
   BetterThan spelled out: more priority traits; or as many and more traits;
   or as many of both and cheaper in the uint32 sense, where a cost of 0 is
   never cheaper and every positive cost is cheaper than 0.
   */
  lemma BetterThanMeaning(a: Score, b: Score, prio: nat)
    requires prio < MaskBits
    requires a.cost < U32 && b.cost < U32
    requires forall t :: t in a.tripods ==> 1 <= t <= MaskBits
    requires forall t :: t in b.tripods ==> 1 <= t <= MaskBits
    ensures a.BetterThan(b, PrioMask(prio)) <==>
      var pa, pb := |a.tripods * PrioMask(prio)|, |b.tripods * PrioMask(prio)|;
      pa > pb || (pa == pb && (|a.tripods| > |b.tripods| || (|a.tripods| == |b.tripods| && CheaperU32(a.cost, b.cost))))
  {
    Neg32Order(a.cost, b.cost);
  }

  /** Owned items (cost 0) lose the cost tie-break against any bought selection. */
  lemma ZeroCostRanksLast(a: Score, b: Score, prioMask: set<nat>)
    requires a.tripods == b.tripods
    requires a.cost == 0 && 0 < b.cost < U32
    ensures b.BetterThan(a, prioMask) && !a.BetterThan(b, prioMask)
  {
    Neg32Value(0);
    Neg32Value(b.cost);
    assert a.TripodCount(prioMask) == b.TripodCount(prioMask);
  }
}
