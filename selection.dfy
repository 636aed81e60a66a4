/**
 What a selection of catalog items is worth: the union of their traits and the
 sum of their costs, and how many of them occupy each row of the library.

 The search keeps its selection in two forms: the items its frames picked, in
 frame order, and the `used` flag of every item. This module relates the two:
 for a selection without repeats, reading the flags in catalog order gives the
 same score and the same row counts as the frame order.
 */
module Selection {
  import opened Catalog
  import opened Scoring

  /** The traits an item grants: its non-empty slots. */
  function TraitSet(it: Item): set<nat>
  {
    set t | t in it.tripods && t != 0
  }

  /**
   A score extended by one item: its cost added and its traits OR-ed in. No
   trait is lost, and the traits gained are exactly the item's non-empty slots.
   */
  function Add(s: Score, it: Item): (r: Score)
    ensures s.tripods <= r.tripods && s.cost <= r.cost
    ensures TraitSet(it) <= r.tripods && r.tripods - s.tripods <= TraitSet(it)
  {
    Score(s.tripods + TraitSet(it), s.cost + it.cost)
  }

  predicate InCatalog(items: seq<Item>, p: seq<nat>)
  {
    forall k :: 0 <= k < |p| ==> p[k] < |items|
  }

  /** The score of the items p, added one after the other to the empty score. */
  function ScoreOf(items: seq<Item>, p: seq<nat>): Score
    requires InCatalog(items, p)
  {
    if p == [] then Zero else Add(ScoreOf(items, p[..|p| - 1]), items[p[|p| - 1]])
  }

  /** How many of the items p go to row r. */
  function CountRow(items: seq<Item>, p: seq<nat>, r: nat): nat
    requires InCatalog(items, p)
  {
    if p == [] then 0
    else CountRow(items, p[..|p| - 1], r) + (if items[p[|p| - 1]].row == r then 1 else 0)
  }

  predicate Distinct(p: seq<nat>)
  {
    forall j, k :: 0 <= j < k < |p| ==> p[j] != p[k]
  }

  predicate StrictlyIncreasing(p: seq<nat>)
  {
    forall j, k :: 0 <= j < k < |p| ==> p[j] < p[k]
  }

  /** The `used` flags of n items when the items p are selected. */
  function FlagsOf(p: seq<nat>, n: nat): (u: seq<bool>)
    ensures |u| == n && forall i :: 0 <= i < n ==> (u[i] <==> i in p)
  {
    seq(n, i => i in p)
  }

  /** The indices of the set flags, in ascending order. */
  function Ascending(u: seq<bool>): (p: seq<nat>)
    ensures forall k :: 0 <= k < |p| ==> p[k] < |u|
  {
    if u == [] then [] else Ascending(u[..|u| - 1]) + (if u[|u| - 1] then [|u| - 1] else [])
  }

  /** Ascending lists exactly the set flags, each once, in increasing order. */
  lemma {:induction false} AscendingSpec(u: seq<bool>)
    ensures StrictlyIncreasing(Ascending(u))
    ensures forall i :: i in Ascending(u) <==> 0 <= i < |u| && u[i]
  {
    if u != [] {
      AscendingSpec(u[..|u| - 1]);
      assert forall i :: 0 <= i < |u| - 1 ==> u[..|u| - 1][i] == u[i];
    }
  }

  lemma SelectionSnoc(items: seq<Item>, p: seq<nat>, x: nat)
    requires InCatalog(items, p) && x < |items|
    ensures InCatalog(items, p + [x])
    ensures ScoreOf(items, p + [x]) == Add(ScoreOf(items, p), items[x])
    ensures forall r :: CountRow(items, p + [x], r) == CountRow(items, p, r) + (if items[x].row == r then 1 else 0)
  {
    assert (p + [x])[..|p|] == p;
  }

  /** A selection without repeats grows by an item it does not hold. */
  lemma DistinctSnoc(p: seq<nat>, x: nat)
    ensures Distinct(p + [x]) <==> Distinct(p) && x !in p
  {
    var q := p + [x];
    assert forall k :: 0 <= k < |p| ==> q[k] == p[k];
    assert q[|p|] == x;
  }

  /** Selecting x sets its flag; deselecting it clears the flag again. */
  lemma FlagsSnoc(p: seq<nat>, x: nat, n: nat)
    requires x < n && x !in p
    ensures FlagsOf(p + [x], n) == FlagsOf(p, n)[x := true]
    ensures FlagsOf(p + [x], n)[x := false] == FlagsOf(p, n)
  {
  }

  /** Adding two items in either order gives the same score. */
  lemma AddCommutes(s: Score, a: Item, b: Item)
    ensures Add(Add(s, a), b) == Add(Add(s, b), a)
  {
    assert s.tripods + TraitSet(a) + TraitSet(b) == s.tripods + TraitSet(b) + TraitSet(a);
  }

  /** The ascending indices after flag n (the last) is set or left as it is. */
  lemma AscendingLast(u: seq<bool>)
    requires |u| > 0
    ensures Ascending(u) == Ascending(u[..|u| - 1]) + (if u[|u| - 1] then [|u| - 1] else [])
  {
  }

  /** No flag set, no index. */
  lemma {:induction false} AscendingNone(u: seq<bool>)
    requires forall i :: 0 <= i < |u| ==> !u[i]
    ensures Ascending(u) == []
  {
    if u != [] {
      AscendingNone(u[..|u| - 1]);
      AscendingLast(u);
    }
  }

  /** Setting the flag of item i adds item i to the score, its row count and the length. */
  lemma {:induction false} FlagSet(items: seq<Item>, u: seq<bool>, i: nat)
    requires |u| <= |items| && i < |u| && !u[i]
    decreases |u|, 1
    ensures ScoreOf(items, Ascending(u[i := true])) == Add(ScoreOf(items, Ascending(u)), items[i])
    ensures forall r :: CountRow(items, Ascending(u[i := true]), r)
                        == CountRow(items, Ascending(u), r) + (if items[i].row == r then 1 else 0)
    ensures |Ascending(u[i := true])| == |Ascending(u)| + 1
  {
    var n := |u| - 1;
    var w := u[i := true];
    AscendingLast(u);
    AscendingLast(w);
    if i == n {
      assert w[..n] == u[..n];
      assert Ascending(u) == Ascending(u[..n]);
      assert Ascending(w) == Ascending(u[..n]) + [n];
      SelectionSnoc(items, Ascending(u[..n]), n);
    } else {
      assert w[..n] == u[..n][i := true];
      FlagSetBefore(items, u, i);
    }
  }

  /** FlagSet when i is not the last flag: induction on the flags before the last. */
  lemma {:induction false} FlagSetBefore(items: seq<Item>, u: seq<bool>, i: nat)
    requires |u| <= |items| && i < |u| - 1 && !u[i]
    requires Ascending(u) == Ascending(u[..|u| - 1]) + (if u[|u| - 1] then [|u| - 1] else [])
    requires Ascending(u[i := true]) == Ascending(u[..|u| - 1][i := true]) + (if u[|u| - 1] then [|u| - 1] else [])
    decreases |u|, 0
    ensures ScoreOf(items, Ascending(u[i := true])) == Add(ScoreOf(items, Ascending(u)), items[i])
    ensures forall r :: CountRow(items, Ascending(u[i := true]), r)
                        == CountRow(items, Ascending(u), r) + (if items[i].row == r then 1 else 0)
    ensures |Ascending(u[i := true])| == |Ascending(u)| + 1
  {
    var n := |u| - 1;
    var rest, restW := Ascending(u[..n]), Ascending(u[..n][i := true]);
    FlagSet(items, u[..n], i);
    if u[n] {
      SelectionSnoc(items, rest, n);
      SelectionSnoc(items, restW, n);
      AddCommutes(ScoreOf(items, rest), items[i], items[n]);
    } else {
      assert Ascending(u) == rest;
      assert Ascending(u[i := true]) == restW;
    }
  }

  /**
   Order independence: the flags of a selection without repeats, read in
   catalog order, give the score, the row counts and the size of the selection.
   */
  lemma {:induction false} FlagsOfSelection(items: seq<Item>, p: seq<nat>)
    requires InCatalog(items, p) && Distinct(p)
    ensures ScoreOf(items, Ascending(FlagsOf(p, |items|))) == ScoreOf(items, p)
    ensures forall r :: CountRow(items, Ascending(FlagsOf(p, |items|)), r) == CountRow(items, p, r)
    ensures |Ascending(FlagsOf(p, |items|))| == |p|
  {
    var n := |items|;
    if p == [] {
      AscendingNone(FlagsOf(p, n));
    } else {
      var q, x := p[..|p| - 1], p[|p| - 1];
      assert p == q + [x];
      FlagsOfSelection(items, q);
      assert x !in q;
      assert FlagsOf(p, n) == FlagsOf(q, n)[x := true];
      FlagSet(items, FlagsOf(q, n), x);
      SelectionSnoc(items, q, x);
    }
  }

  /** The traits of a selection are exactly those some selected item grants. */
  lemma {:induction false} ScoreOfTraits(items: seq<Item>, p: seq<nat>, t: nat)
    requires InCatalog(items, p)
    ensures t in ScoreOf(items, p).tripods <==> exists k :: 0 <= k < |p| && t in TraitSet(items[p[k]])
  {
    if p != [] {
      var q := p[..|p| - 1];
      ScoreOfTraits(items, q, t);
      assert forall k :: 0 <= k < |q| ==> q[k] == p[k];
    }
  }

  /** Each item costs less than 2^16, so a selection of m items costs at most m * 65535. */
  lemma {:induction false} ScoreOfCost(items: seq<Item>, p: seq<nat>)
    requires InCatalog(items, p)
    requires forall i :: 0 <= i < |items| ==> items[i].cost < CostBound
    ensures ScoreOf(items, p).cost <= |p| * (CostBound - 1)
  {
    if p != [] {
      ScoreOfCost(items, p[..|p| - 1]);
    }
  }

  /**
   The indices of the used items in catalog order: the loop that lists them
   when a new best assignment is reported.
   */
  method UsedItems(used: array<bool>) returns (picked: seq<nat>)
    ensures picked == Ascending(used[..])
    ensures StrictlyIncreasing(picked)
    ensures forall i :: i in picked <==> 0 <= i < used.Length && used[i]
  {
    picked := [];
    for i := 0 to used.Length
      invariant picked == Ascending(used[..i])
    {
      assert used[..i + 1][..i] == used[..i];
      if used[i] {
        picked := picked + [i];
      }
    }
    assert used[..used.Length] == used[..];
    AscendingSpec(used[..]);
  }
}
