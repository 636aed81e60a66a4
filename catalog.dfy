/**
 The item catalog of the tripod library and the per-trait candidate index built
 from it before the search starts.

 A trait ("tripod") is identified by a positive number; 0 in an item's slot
 means the slot is empty. The index maps trait t to the list (stored at
 position t - 1) of the catalog indices of every item carrying t, in catalog
 order, once per occurrence of t in the item's slots.
 */
module Catalog {

  /** Rows of a library page: helmet, shoulders, chest, pants, gloves, weapon. */
  const Rows: nat := 6
  /** Trait slots per item. */
  const SlotsPerItem: nat := 3
  /** Exclusive bound of the uint8_t fields (row, trait id, free slots). */
  const ByteBound: nat := 0x100
  /** Exclusive bound of the uint16_t item cost. */
  const CostBound: nat := 0x1_0000

  /**
   An item of the catalog. The mutable `used` flag of the source is kept apart,
   as an array of booleans indexed like the catalog.
   */
  datatype Item = Item(row: nat, cost: nat, tripods: seq<nat>)

  /** The field widths of the source record. */
  predicate ValidItem(it: Item) {
    && it.row < Rows
    && it.cost < CostBound
    && |it.tripods| == SlotsPerItem
    && forall k :: 0 <= k < |it.tripods| ==> it.tripods[k] < ByteBound
  }

  function Max(a: nat, b: nat): nat { if a < b then b else a }

  /** The largest entry of `s`, or 0 when `s` is empty. */
  function MaxOf(s: seq<nat>): (m: nat)
    ensures forall k :: 0 <= k < |s| ==> s[k] <= m
    ensures m == 0 || m in s
  {
    if s == [] then 0 else Max(MaxOf(s[..|s| - 1]), s[|s| - 1])
  }

  /** The largest trait id in the catalog: the number of candidate lists. */
  function MaxTrait(items: seq<Item>): (m: nat)
    ensures forall i, k :: 0 <= i < |items| && 0 <= k < |items[i].tripods| ==> items[i].tripods[k] <= m
    ensures m == 0 || exists i :: 0 <= i < |items| && m in items[i].tripods
  {
    if items == [] then 0
    else
      var m := Max(MaxTrait(items[..|items| - 1]), MaxOf(items[|items| - 1].tripods));
      assert forall i :: 0 <= i < |items| - 1 ==> items[..|items| - 1][i] == items[i];
      m
  }

  function Repeat(x: nat, n: nat): (r: seq<nat>)
    ensures |r| == n && forall k :: 0 <= k < n ==> r[k] == x
  {
    seq(n, _ => x)
  }

  /**
   The candidate list of trait t: every catalog index i, in ascending order,
   repeated once for each slot of item i that holds t.
   */
  function Candidates(items: seq<Item>, t: nat): (r: seq<nat>)
    ensures forall k :: 0 <= k < |r| ==> r[k] < |items|
  {
    if items == [] then []
    else Candidates(items[..|items| - 1], t) + Repeat(|items| - 1, multiset(items[|items| - 1].tripods)[t])
  }

  lemma RepeatMultiset(x: nat, n: nat, y: nat)
    ensures multiset(Repeat(x, n))[y] == if y == x then n else 0
  {
    if n > 0 {
      assert Repeat(x, n) == Repeat(x, n - 1) + [x];
      RepeatMultiset(x, n - 1, y);
    }
  }

  /** Item i occurs in the list of t exactly as often as t occurs among its slots. */
  lemma {:induction false} CandidatesCount(items: seq<Item>, t: nat, i: nat)
    ensures multiset(Candidates(items, t))[i] == if i < |items| then multiset(items[i].tripods)[t] else 0
  {
    if items != [] {
      var n := |items| - 1;
      CandidatesCount(items[..n], t, i);
      RepeatMultiset(n, multiset(items[n].tripods)[t], i);
      if i < n {
        assert items[..n][i] == items[i];
      }
    }
  }

  /** Hence the list of t holds exactly the items that carry t. */
  lemma CandidatesMembers(items: seq<Item>, t: nat, i: nat)
    ensures i in Candidates(items, t) <==> i < |items| && t in items[i].tripods
  {
    CandidatesCount(items, t, i);
    assert i in Candidates(items, t) <==> i in multiset(Candidates(items, t));
    if i < |items| {
      assert t in items[i].tripods <==> t in multiset(items[i].tripods);
    }
  }

  /** Candidate lists are in catalog order, and hold catalog indices only. */
  lemma {:induction false} CandidatesOrdered(items: seq<Item>, t: nat)
    ensures forall j, k :: 0 <= j < k < |Candidates(items, t)| ==> Candidates(items, t)[j] <= Candidates(items, t)[k]
    ensures forall k :: 0 <= k < |Candidates(items, t)| ==> Candidates(items, t)[k] < |items|
  {
    if items != [] {
      var n := |items| - 1;
      CandidatesOrdered(items[..n], t);
    }
  }

  /** No item carries a trait above MaxTrait, so its list is empty. */
  lemma {:induction false} CandidatesBeyondMax(items: seq<Item>, t: nat)
    requires t > MaxTrait(items)
    ensures Candidates(items, t) == []
  {
    if items != [] {
      var n := |items| - 1;
      assert MaxTrait(items[..n]) <= MaxTrait(items);
      CandidatesBeyondMax(items[..n], t);
      MultisetBeyondMax(items[n].tripods, t);
    }
  }

  lemma MultisetBeyondMax(s: seq<nat>, t: nat)
    requires t > MaxOf(s)
    ensures multiset(s)[t] == 0
  {
    assert t !in s;
  }

  /**
   What list j holds once the items before i and the first s slots of item i
   (whose slots are `trips`) have been indexed.
   */
  function PartialList(items: seq<Item>, i: nat, trips: seq<nat>, s: nat, j: nat): seq<nat>
    requires i <= |items| && s <= |trips|
  {
    Candidates(items[..i], j + 1) + Repeat(i, multiset(trips[..s])[j + 1])
  }

  /** The state of the index between two iterations of the inner loop. */
  ghost predicate PartlyIndexed(lists: seq<seq<nat>>, items: seq<Item>, i: nat, trips: seq<nat>, s: nat)
    requires i <= |items| && s <= |trips|
  {
    && |lists| == Max(MaxTrait(items[..i]), MaxOf(trips[..s]))
    && forall j :: 0 <= j < |lists| ==> lists[j] == PartialList(items, i, trips, s, j)
  }

  lemma MaxOfSnoc(trips: seq<nat>, s: nat)
    requires s < |trips|
    ensures MaxOf(trips[..s + 1]) == Max(MaxOf(trips[..s]), trips[s])
  {
    assert trips[..s + 1][..s] == trips[..s];
  }

  /** Indexing slot s appends i to the list of the trait it holds, and to no other list. */
  lemma PartialListStep(items: seq<Item>, i: nat, trips: seq<nat>, s: nat, j: nat)
    requires i <= |items| && s < |trips|
    ensures PartialList(items, i, trips, s + 1, j) == PartialList(items, i, trips, s, j) + (if trips[s] == j + 1 then [i] else [])
  {
    assert trips[..s + 1] == trips[..s] + [trips[s]];
    var m := multiset(trips[..s])[j + 1];
    assert multiset(trips[..s + 1])[j + 1] == m + (if trips[s] == j + 1 then 1 else 0);
    assert Repeat(i, m + 1) == Repeat(i, m) + [i];
  }

  /** A slot holding 0 is skipped: nothing changes. */
  lemma IndexEmptySlot(lists: seq<seq<nat>>, items: seq<Item>, i: nat, trips: seq<nat>, s: nat)
    requires i < |items| && s < |trips| && trips[s] == 0
    requires PartlyIndexed(lists, items, i, trips, s)
    ensures PartlyIndexed(lists, items, i, trips, s + 1)
  {
    MaxOfSnoc(trips, s);
    forall j | 0 <= j < |lists|
      ensures lists[j] == PartialList(items, i, trips, s + 1, j)
    {
      PartialListStep(items, i, trips, s, j);
    }
  }

  /** Growing the outer list to t entries adds empty lists, which is what they should be. */
  lemma GrowIndex(lists: seq<seq<nat>>, items: seq<Item>, i: nat, trips: seq<nat>, s: nat, t: nat)
    requires i < |items| && s <= |trips|
    requires PartlyIndexed(lists, items, i, trips, s)
    requires |lists| < t
    ensures forall j :: 0 <= j < t ==> (lists + seq(t - |lists|, _ => []))[j] == PartialList(items, i, trips, s, j)
  {
    var grown := lists + seq(t - |lists|, _ => []);
    forall j | 0 <= j < t
      ensures grown[j] == PartialList(items, i, trips, s, j)
    {
      if j >= |lists| {
        CandidatesBeyondMax(items[..i], j + 1);
        MultisetBeyondMax(trips[..s], j + 1);
      }
    }
  }

  /** A slot holding trait t != 0 appends i to list t - 1 of the (grown) outer list. */
  lemma IndexTraitSlot(lists: seq<seq<nat>>, items: seq<Item>, i: nat, trips: seq<nat>, s: nat, grown: seq<seq<nat>>)
    requires i < |items| && s < |trips| && trips[s] != 0
    requires PartlyIndexed(lists, items, i, trips, s)
    requires |grown| == Max(|lists|, trips[s])
    requires forall j :: 0 <= j < |grown| ==> grown[j] == PartialList(items, i, trips, s, j)
    ensures PartlyIndexed(grown[trips[s] - 1 := grown[trips[s] - 1] + [i]], items, i, trips, s + 1)
  {
    var t := trips[s];
    MaxOfSnoc(trips, s);
    var next := grown[t - 1 := grown[t - 1] + [i]];
    forall j | 0 <= j < |next|
      ensures next[j] == PartialList(items, i, trips, s + 1, j)
    {
      PartialListStep(items, i, trips, s, j);
    }
  }

  /** Starting item i: none of its slots is indexed yet. */
  lemma StartItem(lists: seq<seq<nat>>, items: seq<Item>, i: nat)
    requires i < |items|
    requires |lists| == MaxTrait(items[..i])
    requires forall j :: 0 <= j < |lists| ==> lists[j] == Candidates(items[..i], j + 1)
    ensures PartlyIndexed(lists, items, i, items[i].tripods, 0)
  {
    assert items[i].tripods[..0] == [];
    forall j | 0 <= j < |lists|
      ensures lists[j] == PartialList(items, i, items[i].tripods, 0, j)
    {
    }
  }

  /** Finishing item i: its slots are all indexed. */
  lemma IndexItem(lists: seq<seq<nat>>, items: seq<Item>, i: nat)
    requires i < |items|
    requires PartlyIndexed(lists, items, i, items[i].tripods, |items[i].tripods|)
    ensures |lists| == MaxTrait(items[..i + 1])
    ensures forall j :: 0 <= j < |lists| ==> lists[j] == Candidates(items[..i + 1], j + 1)
  {
    var trips := items[i].tripods;
    assert trips[..|trips|] == trips;
    assert items[..i + 1][..i] == items[..i];
    forall j | 0 <= j < |lists|
      ensures lists[j] == Candidates(items[..i + 1], j + 1)
    {
      assert lists[j] == PartialList(items, i, trips, |trips|, j);
    }
  }

  /**
   Builds the candidate lists (the nested loop over items and their slots):
   the number of lists is the largest trait id seen, and list t - 1 is
   Candidates(items, t).
   */
  method BuildIndex(items: seq<Item>) returns (lists: seq<seq<nat>>)
    ensures |lists| == MaxTrait(items)
    ensures forall j :: 0 <= j < |lists| ==> lists[j] == Candidates(items, j + 1)
  {
    lists := [];
    for i := 0 to |items|
      invariant |lists| == MaxTrait(items[..i])
      invariant forall j :: 0 <= j < |lists| ==> lists[j] == Candidates(items[..i], j + 1)
    {
      var trips := items[i].tripods;
      StartItem(lists, items, i);
      for s := 0 to |trips|
        invariant PartlyIndexed(lists, items, i, trips, s)
      {
        var t := trips[s];
        if t != 0 {
          ghost var before := lists;
          if |lists| < t {
            GrowIndex(lists, items, i, trips, s, t);
            lists := lists + seq(t - |lists|, _ => []);
          }
          IndexTraitSlot(before, items, i, trips, s, lists);
          lists := lists[t - 1 := lists[t - 1] + [i]];
        } else {
          IndexEmptySlot(lists, items, i, trips, s);
        }
      }
      IndexItem(lists, items, i);
    }
    assert items[..|items|] == items;
  }
}
