/**
 A lexicographic order on fixed-length vectors of bounded digits, encoded as
 one natural number (mixed radix). The search loop's progress is such a
 vector, one digit per trait frame, and the encoding gives the loop a
 `decreases` measure.
 */
module Ranking {

  /** The number of vectors whose digit j is below b[j]. */
  function Prod(b: seq<nat>): nat
  {
    if b == [] then 1 else b[0] * Prod(b[1..])
  }

  /** Every digit below its base. */
  predicate Digits(r: seq<nat>, b: seq<nat>)
  {
    |r| == |b| && forall j :: 0 <= j < |r| ==> r[j] < b[j]
  }

  /** r read as a number whose digit j has base b[j], most significant first. */
  function Enc(r: seq<nat>, b: seq<nat>): nat
    requires |r| == |b|
  {
    if r == [] then 0 else r[0] * Prod(b[1..]) + Enc(r[1..], b[1..])
  }

  lemma MulMonotone(x: nat, y: nat, z: nat)
    requires x <= y
    ensures x * z <= y * z
  {
  }

  /** A digit below c followed by a tail below p stays below c followed by anything. */
  lemma DigitStep(a: nat, c: nat, p: nat, e: nat)
    requires a < c && e < p
    ensures a * p + e < c * p
  {
    MulMonotone(a + 1, c, p);
    assert (a + 1) * p == a * p + p;
  }

  /** An encoding is smaller than the number of vectors. */
  lemma {:induction false} EncBelow(r: seq<nat>, b: seq<nat>)
    requires Digits(r, b)
    ensures Enc(r, b) < Prod(b)
  {
    if r != [] {
      EncBelow(r[1..], b[1..]);
      DigitStep(r[0], b[0], Prod(b[1..]), Enc(r[1..], b[1..]));
    }
  }

  /** Vectors whose first digits differ compare as those digits. */
  lemma EncFirstDigit(r: seq<nat>, s: seq<nat>, b: seq<nat>)
    requires Digits(r, b) && Digits(s, b)
    requires |b| > 0 && r[0] < s[0]
    ensures Enc(r, b) < Enc(s, b)
  {
    EncBelow(r[1..], b[1..]);
    DigitStep(r[0], s[0], Prod(b[1..]), Enc(r[1..], b[1..]));
  }

  /**
   The encoding is strictly monotone in the lexicographic order: vectors that
   agree before position k and differ first at k compare as their digits at k.
   */
  lemma {:induction false} EncLexIncrease(r: seq<nat>, s: seq<nat>, b: seq<nat>, k: nat)
    requires Digits(r, b) && Digits(s, b)
    requires k < |b| && r[..k] == s[..k] && r[k] < s[k]
    ensures Enc(r, b) < Enc(s, b)
  {
    if k == 0 {
      EncFirstDigit(r, s, b);
    } else {
      assert r[0] == r[..k][0] == s[..k][0] == s[0];
      assert r[1..][..k - 1] == r[..k][1..] == s[..k][1..] == s[1..][..k - 1];
      EncLexIncrease(r[1..], s[1..], b[1..], k - 1);
    }
  }
}
