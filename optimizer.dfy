/**
 The optimiser: branch-and-bound over the traits 1 to T (T = number of
 candidate lists), one frame per trait, with an explicit stack.

 The stack always holds frames 1 to k. It starts with all T frames, each a
 placeholder (no item tried yet, the empty score), and the loop always works on
 the top frame k:
 - a frame that holds an item releases it (clears its `used` flag and gives its
   row the slot back); a placeholder, on its first visit, is popped when trait
   k is already in the previous frame's mask, or when k lies beyond the
   priority traits while the frame's mask misses one of them;
 - the frame then moves its cursor to the next candidate of trait k that is not
   used and whose row has a free slot, or is popped when there is none;
 - the candidate is selected, and the frame's score becomes the previous
   frame's score plus the item (its cost added, its traits OR-ed in);
 - below frame T the stack is refilled to T frames, the new ones placeholders
   carrying that score; at frame T the score is compared with the best so far
   and, when strictly better, becomes the best and is reported.
 The loop ends when the stack is empty.
 */
module Optimizer {
  import opened Catalog
  import opened Scoring
  import opened Selection
  import opened Ranking

  /**
   The redundancy test shifts an `int`: `1 << (tripod - 1)` is undefined from
   33 traits on. At 32 it is INT_MIN, which the 64-bit mask sees as bits 31..63;
   no trait id up to 32 sets bits 32..63, so the test still reads trait 32.
   */
  const MaxTraits: nat := 32

  datatype Option<T> = None | Some(value: T)

  /** A frame's cursor into its candidate list; Unset stands for the size_t(-1) sentinel. */
  datatype Cursor = Unset | At(index: nat)

  /** A frame: the candidate it holds, and the score of the frames up to and including it. */
  datatype Assignment = Assignment(item: Cursor, score: Score)

  /** A report of a new best assignment: its score and the used items in catalog order. */
  datatype Report = Report(score: Score, picked: seq<nat>)

  /** Placeholder frames carrying score s. */
  function Unsets(n: nat, s: Score): seq<Assignment>
  {
    seq(n, _ => Assignment(Unset, s))
  }

  /** Candidate lists hold catalog indices. */
  predicate ListsValid(items: seq<Item>, lists: seq<seq<nat>>)
  {
    forall j, c :: 0 <= j < |lists| && 0 <= c < |lists[j]| ==> lists[j][c] < |items|
  }

  /** At most one frame per list, and every set cursor inside its list. */
  predicate CursorsValid(lists: seq<seq<nat>>, frames: seq<Assignment>)
  {
    |frames| <= |lists| && forall j :: 0 <= j < |frames| && frames[j].item.At? ==> frames[j].item.index < |lists[j]|
  }

  /** What the search is given: field widths, rows within the book, at most 32 traits, a 64-bit priority mask. */
  ghost predicate Setting(items: seq<Item>, lists: seq<seq<nat>>, prio: nat, book0: seq<nat>)
  {
    && (forall i :: 0 <= i < |items| ==> ValidItem(items[i]) && items[i].row < |book0|)
    && ListsValid(items, lists)
    && |lists| <= MaxTraits
    && prio < MaskBits
  }

  /** The item frame j holds, if any. */
  function Own(lists: seq<seq<nat>>, frames: seq<Assignment>, j: nat): seq<nat>
    requires CursorsValid(lists, frames) && j < |frames|
  {
    match frames[j].item
    case Unset => []
    case At(c) => [lists[j][c]]
  }

  /** The items the frames hold, in frame order. */
  function Picks(items: seq<Item>, lists: seq<seq<nat>>, frames: seq<Assignment>): (p: seq<nat>)
    requires ListsValid(items, lists) && CursorsValid(lists, frames)
    ensures InCatalog(items, p) && |p| <= |frames|
  {
    if frames == [] then []
    else Picks(items, lists, frames[..|frames| - 1]) + Own(lists, frames, |frames| - 1)
  }

  /** The score of the top frame, or the empty score for an empty stack. */
  function LastScore(frames: seq<Assignment>): Score
  {
    if frames == [] then Zero else frames[|frames| - 1].score
  }

  /** Frame j's score is its predecessor's score plus its own item, if any. */
  ghost predicate FrameConsistent(items: seq<Item>, lists: seq<seq<nat>>, frames: seq<Assignment>, j: nat)
    requires ListsValid(items, lists) && CursorsValid(lists, frames) && j < |frames|
  {
    var before := if j == 0 then Zero else frames[j - 1].score;
    match frames[j].item
    case Unset => frames[j].score == before
    case At(c) => frames[j].score == Add(before, items[lists[j][c]])
  }

  ghost predicate ScoresConsistent(items: seq<Item>, lists: seq<seq<nat>>, frames: seq<Assignment>)
    requires ListsValid(items, lists) && CursorsValid(lists, frames)
  {
    forall j :: 0 <= j < |frames| ==> FrameConsistent(items, lists, frames, j)
  }

  /**
   The loop invariant: frame scores accumulate the held items; no item is held
   twice; the used flags are exactly the held items; and every row's free
   slots plus its held items give the initial free slots.
   */
  ghost predicate Inv(items: seq<Item>, lists: seq<seq<nat>>, frames: seq<Assignment>,
                      used: seq<bool>, book: seq<nat>, book0: seq<nat>)
  {
    && ListsValid(items, lists)
    && CursorsValid(lists, frames)
    && ScoresConsistent(items, lists, frames)
    && Distinct(Picks(items, lists, frames))
    && used == FlagsOf(Picks(items, lists, frames), |items|)
    && Booked(items, Picks(items, lists, frames), book, book0)
  }

  /** Each row's free slots plus its selected items give its initial free slots. */
  ghost predicate Booked(items: seq<Item>, p: seq<nat>, book: seq<nat>, book0: seq<nat>)
    requires InCatalog(items, p)
  {
    |book| == |book0| && forall r :: 0 <= r < |book| ==> book[r] + CountRow(items, p, r) == book0[r]
  }

  /** Selecting x takes one free slot of its row. */
  lemma BookTake(items: seq<Item>, p: seq<nat>, x: nat, book: seq<nat>, book0: seq<nat>)
    requires InCatalog(items, p) && x < |items| && items[x].row < |book| && book[items[x].row] > 0
    requires Booked(items, p, book, book0)
    ensures InCatalog(items, p + [x])
    ensures Booked(items, p + [x], book[items[x].row := book[items[x].row] - 1], book0)
  {
    SelectionSnoc(items, p, x);
  }

  /** Deselecting x gives its row the slot back. */
  lemma BookPut(items: seq<Item>, p: seq<nat>, x: nat, book: seq<nat>, book0: seq<nat>)
    requires InCatalog(items, p) && x < |items| && items[x].row < |book|
    requires InCatalog(items, p + [x]) && Booked(items, p + [x], book, book0)
    ensures Booked(items, p, book[items[x].row := book[items[x].row] + 1], book0)
  {
    SelectionSnoc(items, p, x);
  }

  /** What a report states: its items, their score, within the book and the uint32 cost. */
  ghost predicate ReportValid(items: seq<Item>, traits: nat, book0: seq<nat>, rep: Report)
  {
    && StrictlyIncreasing(rep.picked)
    && InCatalog(items, rep.picked)
    && |rep.picked| <= traits
    && rep.score == ScoreOf(items, rep.picked)
    && rep.score.cost < U32
    && forall r :: 0 <= r < |book0| ==> CountRow(items, rep.picked, r) <= book0[r]
  }

  /** The score report k must beat: the report before it, or the empty score for the first. */
  function Previous(reports: seq<Report>, k: nat): Score
    requires k <= |reports|
  {
    if k == 0 then Zero else reports[k - 1].score
  }

  /** Each report beats the one before it (the first beats the empty score). */
  predicate Improving(reports: seq<Report>, prioMask: set<nat>)
  {
    forall k {:trigger Previous(reports, k)} :: 0 <= k < |reports| ==> reports[k].score.BetterThan(Previous(reports, k), prioMask)
  }

  /** A report that beats the last one (or the empty score) extends an improving sequence. */
  lemma ImprovingSnoc(reports: seq<Report>, e: Report, prioMask: set<nat>)
    requires Improving(reports, prioMask)
    requires e.score.BetterThan(Previous(reports, |reports|), prioMask)
    ensures Improving(reports + [e], prioMask)
  {
    var all := reports + [e];
    forall k | 0 <= k < |all|
      ensures all[k].score.BetterThan(Previous(all, k), prioMask)
    {
      assert Previous(all, k) == Previous(reports, k);
      if k < |reports| {
        assert all[k] == reports[k];
      }
    }
  }

  /** Hence every report beats every earlier one. */
  lemma {:induction false} ImprovingChain(reports: seq<Report>, prioMask: set<nat>, j: nat, k: nat)
    requires Improving(reports, prioMask)
    requires j < k < |reports|
    ensures reports[k].score.BetterThan(reports[j].score, prioMask)
  {
    assert Previous(reports, k) == reports[k - 1].score;
    if j < k - 1 {
      ImprovingChain(reports, prioMask, j, k - 1);
      BetterThanIsStrictOrder(reports[k].score, reports[k - 1].score, reports[j].score, prioMask);
    }
  }

  /** The first-visit prunes of the top frame. */
  predicate Pruned(frames: seq<Assignment>, prio: nat)
    requires 0 < |frames| && prio < MaskBits
    // only a first visit prunes
    ensures Pruned(frames, prio) ==> frames[|frames| - 1].item == Unset
    // among the priority frames only the redundancy test prunes
    ensures Pruned(frames, prio) && |frames| <= prio ==> |frames| in LastScore(frames[..|frames| - 1]).tripods
  {
    var k := |frames|;
    && frames[k - 1].item.Unset?
    && (k in LastScore(frames[..k - 1]).tripods || (!(PrioMask(prio) <= frames[k - 1].score.tripods) && k > prio))
  }

  // ---------------------------------------------------------------------------
  // Termination: a frame's progress is 0 before its first candidate, c + 1 at
  // candidate c, and |list| + 1 once popped; every iteration raises the first
  // frame whose progress changes, so the progress vector rises lexicographically.

  function Rank(c: Cursor): nat
  {
    match c
    case Unset => 0
    case At(i) => i + 1
  }

  function Bases(lists: seq<seq<nat>>): seq<nat>
  {
    seq(|lists|, j requires 0 <= j < |lists| => |lists[j]| + 2)
  }

  function Ranks(lists: seq<seq<nat>>, frames: seq<Assignment>): seq<nat>
    requires CursorsValid(lists, frames)
  {
    seq(|lists|, j requires 0 <= j < |lists| => if j < |frames| then Rank(frames[j].item) else |lists[j]| + 1)
  }

  lemma RanksAreDigits(lists: seq<seq<nat>>, frames: seq<Assignment>)
    requires CursorsValid(lists, frames)
    ensures Digits(Ranks(lists, frames), Bases(lists))
  {
  }

  /**
   Popping the top frame, or moving its cursor forward (whatever happens to the
   frames above it), raises the progress vector.
   */
  lemma Progress(lists: seq<seq<nat>>, frames: seq<Assignment>, next: seq<Assignment>)
    requires CursorsValid(lists, frames) && CursorsValid(lists, next)
    requires 0 < |frames| && |frames| - 1 <= |next|
    requires next[..|frames| - 1] == frames[..|frames| - 1]
    requires |next| == |frames| - 1 || Rank(frames[|frames| - 1].item) < Rank(next[|frames| - 1].item)
    ensures Enc(Ranks(lists, frames), Bases(lists)) < Enc(Ranks(lists, next), Bases(lists))
  {
    var k := |frames| - 1;
    var r, s := Ranks(lists, frames), Ranks(lists, next);
    RanksAreDigits(lists, frames);
    RanksAreDigits(lists, next);
    assert forall j :: 0 <= j < k ==> next[j] == next[..k][j] == frames[..k][j] == frames[j];
    assert r[..k] == s[..k];
    EncLexIncrease(r, s, Bases(lists), k);
  }

  // ---------------------------------------------------------------------------
  // How the invariant survives the steps of one iteration.

  lemma ScoresPrefix(items: seq<Item>, lists: seq<seq<nat>>, frames: seq<Assignment>, m: nat)
    requires ListsValid(items, lists) && CursorsValid(lists, frames) && ScoresConsistent(items, lists, frames)
    requires m <= |frames|
    ensures CursorsValid(lists, frames[..m]) && ScoresConsistent(items, lists, frames[..m])
  {
    forall j | 0 <= j < m
      ensures FrameConsistent(items, lists, frames[..m], j)
    {
      assert FrameConsistent(items, lists, frames, j);
    }
  }

  /** The top frame adds its own item, if any, to the score of the frames below it. */
  lemma TopFrameScore(items: seq<Item>, lists: seq<seq<nat>>, frames: seq<Assignment>)
    requires ListsValid(items, lists) && CursorsValid(lists, frames) && 0 < |frames|
    requires FrameConsistent(items, lists, frames, |frames| - 1)
    requires CursorsValid(lists, frames[..|frames| - 1])
    requires LastScore(frames[..|frames| - 1]) == ScoreOf(items, Picks(items, lists, frames[..|frames| - 1]))
    ensures LastScore(frames) == ScoreOf(items, Picks(items, lists, frames))
  {
    var m := |frames| - 1;
    var base := frames[..m];
    var before := Picks(items, lists, base);
    assert LastScore(base) == if m == 0 then Zero else frames[m - 1].score;
    assert Picks(items, lists, frames) == before + Own(lists, frames, m);
    match frames[m].item
    case Unset =>
      assert Own(lists, frames, m) == [];
      assert before + [] == before;
    case At(c) =>
      assert Own(lists, frames, m) == [lists[m][c]];
      SelectionSnoc(items, before, lists[m][c]);
  }

  /** The top frame's score is the score of all held items. */
  lemma {:induction false} FrameScores(items: seq<Item>, lists: seq<seq<nat>>, frames: seq<Assignment>)
    requires ListsValid(items, lists) && CursorsValid(lists, frames) && ScoresConsistent(items, lists, frames)
    ensures LastScore(frames) == ScoreOf(items, Picks(items, lists, frames))
  {
    if frames != [] {
      var m := |frames| - 1;
      ScoresPrefix(items, lists, frames, m);
      FrameScores(items, lists, frames[..m]);
      assert FrameConsistent(items, lists, frames, m);
      TopFrameScore(items, lists, frames);
    }
  }

  /** Placeholders hold nothing. */
  lemma {:induction false} PicksUnsets(items: seq<Item>, lists: seq<seq<nat>>, frames: seq<Assignment>, n: nat, s: Score)
    requires ListsValid(items, lists) && CursorsValid(lists, frames) && |frames| + n <= |lists|
    ensures CursorsValid(lists, frames + Unsets(n, s))
    ensures Picks(items, lists, frames + Unsets(n, s)) == Picks(items, lists, frames)
  {
    if n > 0 {
      PicksUnsets(items, lists, frames, n - 1, s);
      var all := frames + Unsets(n, s);
      assert all[..|all| - 1] == frames + Unsets(n - 1, s);
      assert all[|all| - 1].item == Unset;
      assert Own(lists, all, |all| - 1) == [];
    } else {
      assert frames + Unsets(n, s) == frames;
    }
  }

  /** A placeholder on top can be popped without touching flags or the book. */
  lemma DropUnset(items: seq<Item>, lists: seq<seq<nat>>, frames: seq<Assignment>,
                  used: seq<bool>, book: seq<nat>, book0: seq<nat>)
    requires Inv(items, lists, frames, used, book, book0)
    requires 0 < |frames| && frames[|frames| - 1].item.Unset?
    ensures Inv(items, lists, frames[..|frames| - 1], used, book, book0)
  {
    var base := frames[..|frames| - 1];
    ScoresPrefix(items, lists, frames, |frames| - 1);
    assert Own(lists, frames, |frames| - 1) == [];
    assert Picks(items, lists, frames) == Picks(items, lists, base) + [];
    assert Picks(items, lists, base) == Picks(items, lists, frames);
  }

  /** Releasing the top frame's item leaves the invariant of the frames below it. */
  lemma Release(items: seq<Item>, lists: seq<seq<nat>>, frames: seq<Assignment>,
                used: seq<bool>, book: seq<nat>, book0: seq<nat>, x: nat)
    requires Inv(items, lists, frames, used, book, book0)
    requires 0 < |frames| && frames[|frames| - 1].item.At?
    requires x == lists[|frames| - 1][frames[|frames| - 1].item.index]
    requires forall i :: 0 <= i < |items| ==> items[i].row < |book|
    ensures x < |used| && used[x] && items[x].row < |book|
    ensures Inv(items, lists, frames[..|frames| - 1], used[x := false],
                book[items[x].row := book[items[x].row] + 1], book0)
  {
    var base := frames[..|frames| - 1];
    ScoresPrefix(items, lists, frames, |frames| - 1);
    var p := Picks(items, lists, base);
    assert Picks(items, lists, frames) == p + [x];
    DistinctSnoc(p, x);
    FlagsSnoc(p, x, |items|);
    BookPut(items, p, x, book, book0);
  }

  /** A frame that adds its item to the previous score, followed by placeholders, keeps the scores consistent. */
  lemma SelectScores(items: seq<Item>, lists: seq<seq<nat>>, base: seq<Assignment>, c: nat, fill: nat)
    requires ListsValid(items, lists) && CursorsValid(lists, base) && ScoresConsistent(items, lists, base)
    requires |base| < |lists| && c < |lists[|base|]| && |base| + 1 + fill <= |lists|
    ensures
      var top := Assignment(At(c), Add(LastScore(base), items[lists[|base|][c]]));
      var next := base + [top] + Unsets(fill, top.score);
      CursorsValid(lists, next) && ScoresConsistent(items, lists, next)
  {
    var top := Assignment(At(c), Add(LastScore(base), items[lists[|base|][c]]));
    var next := base + [top] + Unsets(fill, top.score);
    forall j | 0 <= j < |next|
      ensures FrameConsistent(items, lists, next, j)
    {
      if j < |base| {
        assert FrameConsistent(items, lists, base, j);
        assert next[j] == base[j];
        assert j > 0 ==> next[j - 1] == base[j - 1];
      }
    }
  }

  /** The frames above then hold the frames below's items plus candidate c. */
  lemma SelectPicks(items: seq<Item>, lists: seq<seq<nat>>, base: seq<Assignment>, c: nat, fill: nat, top: Assignment)
    requires ListsValid(items, lists) && CursorsValid(lists, base)
    requires |base| < |lists| && c < |lists[|base|]| && |base| + 1 + fill <= |lists|
    requires top.item == At(c)
    ensures CursorsValid(lists, base + [top] + Unsets(fill, top.score))
    ensures Picks(items, lists, base + [top] + Unsets(fill, top.score)) == Picks(items, lists, base) + [lists[|base|][c]]
  {
    var grown := base + [top];
    assert CursorsValid(lists, grown);
    PicksUnsets(items, lists, grown, fill, top.score);
    assert grown[..|base|] == base;
  }

  /**
   Selecting candidate c of the next trait on top of `base`, and refilling the
   stack with `fill` placeholders, keeps the invariant.
   */
  lemma Select(items: seq<Item>, lists: seq<seq<nat>>, base: seq<Assignment>,
               used: seq<bool>, book: seq<nat>, book0: seq<nat>, c: nat, fill: nat)
    requires Inv(items, lists, base, used, book, book0)
    requires |base| < |lists| && c < |lists[|base|]| && |base| + 1 + fill <= |lists|
    requires forall i :: 0 <= i < |items| ==> items[i].row < |book|
    requires !used[lists[|base|][c]] && book[items[lists[|base|][c]].row] > 0
    ensures
      var i := lists[|base|][c];
      var top := Assignment(At(c), Add(LastScore(base), items[i]));
      Inv(items, lists, base + [top] + Unsets(fill, top.score),
          used[i := true], book[items[i].row := book[items[i].row] - 1], book0)
  {
    var i := lists[|base|][c];
    var top := Assignment(At(c), Add(LastScore(base), items[i]));
    SelectScores(items, lists, base, c, fill);
    SelectPicks(items, lists, base, c, fill, top);
    var p := Picks(items, lists, base);
    assert i !in p;
    DistinctSnoc(p, i);
    FlagsSnoc(p, i, |items|);
    BookTake(items, p, i, book, book0);
  }

  /** Every frame's cost, the uint32_t sum of at most 32 uint16_t costs, stays below 2^32: the sum never wraps. */
  lemma FrameCostBound(items: seq<Item>, lists: seq<seq<nat>>, frames: seq<Assignment>, j: nat)
    requires ListsValid(items, lists) && CursorsValid(lists, frames) && ScoresConsistent(items, lists, frames)
    requires forall i :: 0 <= i < |items| ==> items[i].cost < CostBound
    requires |frames| <= MaxTraits && j < |frames|
    ensures frames[j].score.cost < U32
  {
    ScoresPrefix(items, lists, frames, j + 1);
    FrameScores(items, lists, frames[..j + 1]);
    ScoreOfCost(items, Picks(items, lists, frames[..j + 1]));
  }

  /** The used flags, read in catalog order, state the top frame's score and stay within the book. */
  lemma ReportFacts(items: seq<Item>, lists: seq<seq<nat>>, frames: seq<Assignment>,
                    used: seq<bool>, book: seq<nat>, book0: seq<nat>)
    requires Inv(items, lists, frames, used, book, book0)
    requires forall i :: 0 <= i < |items| ==> items[i].cost < CostBound
    requires |lists| <= MaxTraits
    ensures InCatalog(items, Ascending(used))
    ensures LastScore(frames) == ScoreOf(items, Ascending(used))
    ensures ScoreOf(items, Ascending(used)).cost < U32
    ensures |Ascending(used)| <= |frames|
    ensures forall r :: 0 <= r < |book0| ==> CountRow(items, Ascending(used), r) <= book0[r]
  {
    var p := Picks(items, lists, frames);
    FlagsOfSelection(items, p);
    FrameScores(items, lists, frames);
    ScoreOfCost(items, p);
  }

  // ---------------------------------------------------------------------------
  // One iteration of the loop, and the whole loop, as functions on values. The
  // methods below are proved to compute exactly these.

  /** The loop state: the frames, the used flags, the free slots per row and the best score. */
  datatype State = State(frames: seq<Assignment>, used: seq<bool>, book: seq<nat>, best: Score)

  /** Item i can be selected: it is not used and its row has a free slot. */
  predicate Eligible(items: seq<Item>, used: seq<bool>, book: seq<nat>, i: nat)
  {
    i < |used| && i < |items| && items[i].row < |book| && !used[i] && book[items[i].row] > 0
  }

  /** The first position from `start` on whose candidate is eligible, or |v| when there is none. */
  function FirstFree(items: seq<Item>, v: seq<nat>, used: seq<bool>, book: seq<nat>, start: nat): (c: nat)
    requires start <= |v|
    decreases |v| - start
    ensures start <= c <= |v|
    ensures c < |v| ==> Eligible(items, used, book, v[c])
  {
    if start == |v| then |v|
    else if Eligible(items, used, book, v[start]) then start
    else FirstFree(items, v, used, book, start + 1)
  }

  /** No candidate before FirstFree is eligible. */
  lemma {:induction false} FirstFreeSkips(items: seq<Item>, v: seq<nat>, used: seq<bool>, book: seq<nat>, start: nat)
    requires start <= |v|
    decreases |v| - start
    ensures forall j :: start <= j < FirstFree(items, v, used, book, start) ==> !Eligible(items, used, book, v[j])
  {
    if start < |v| && !Eligible(items, used, book, v[start]) {
      FirstFreeSkips(items, v, used, book, start + 1);
    }
  }

  /** What one iteration needs of a state to be defined. */
  ghost predicate StepReady(items: seq<Item>, lists: seq<seq<nat>>, prio: nat, st: State)
  {
    && ListsValid(items, lists)
    && CursorsValid(lists, st.frames)
    && 0 < |st.frames|
    && |st.used| == |items|
    && (forall i :: 0 <= i < |items| ==> items[i].row < |st.book|)
    && prio < MaskBits
  }

  /**
   The top frame's release: a frame holding an item clears its flag and gives
   its row the slot back, and the scan resumes after it; a placeholder changes
   nothing and the scan starts at 0.
   */
  function Leaving(items: seq<Item>, lists: seq<seq<nat>>, frames: seq<Assignment>, used: seq<bool>, book: seq<nat>)
    : (r: (seq<bool>, seq<nat>, nat))
    requires ListsValid(items, lists) && CursorsValid(lists, frames) && 0 < |frames|
    requires |used| == |items| && forall i :: 0 <= i < |items| ==> items[i].row < |book|
    ensures |r.0| == |used| && |r.1| == |book|
    // the scan resumes at the frame's progress
    ensures r.2 == Rank(frames[|frames| - 1].item)
    // a release only clears a flag and only gives slots back
    ensures forall i :: 0 <= i < |used| && r.0[i] ==> used[i]
    ensures forall j :: 0 <= j < |book| ==> book[j] <= r.1[j]
    // a placeholder changes nothing
    ensures frames[|frames| - 1].item.Unset? ==> r.0 == used && r.1 == book
  {
    var k := |frames|;
    match frames[k - 1].item
    case Unset => (used, book, 0)
    case At(c) =>
      var x := lists[k - 1][c];
      (used[x := false], book[items[x].row := book[items[x].row] + 1], c + 1)
  }

  /**
   Frame |base| + 1 selects candidate c: the item is marked used and takes a
   slot of its row, the frame's score is the previous score plus the item, the
   stack is refilled to T frames with placeholders carrying that score, and at
   frame T a strictly better score becomes the best and is reported with the
   used items in catalog order.
   */
  function Entering(items: seq<Item>, lists: seq<seq<nat>>, prio: nat, base: seq<Assignment>,
                    used: seq<bool>, book: seq<nat>, c: nat, best: Score): (r: (State, Option<Report>))
    requires ListsValid(items, lists) && |base| < |lists| && c < |lists[|base|]| && prio < MaskBits
    requires Eligible(items, used, book, lists[|base|][c])
    // the stack is refilled to T frames above the frames below, the frame at candidate c
    ensures |r.0.frames| == |lists| && r.0.frames[..|base|] == base && r.0.frames[|base|].item == At(c)
    // the selected item is now used and its row has one free slot less
    ensures |r.0.used| == |used| && |r.0.book| == |book|
    ensures r.0.used[lists[|base|][c]]
    ensures r.0.book[items[lists[|base|][c]].row] + 1 == book[items[lists[|base|][c]].row]
    // a report comes exactly when frame T beats the best, and it becomes the best
    ensures r.1.Some? <==> |base| + 1 == |lists| && r.0.frames[|base|].score.BetterThan(best, PrioMask(prio))
    ensures r.1.Some? ==> r.1.value.score == r.0.frames[|base|].score && r.0.best == r.1.value.score
    ensures r.1.None? ==> r.0.best == best
  {
    var i := lists[|base|][c];
    var s := Add(LastScore(base), items[i]);
    var used' := used[i := true];
    var book' := book[items[i].row := book[items[i].row] - 1];
    var next := base + [Assignment(At(c), s)] + Unsets(|lists| - |base| - 1, s);
    if |base| + 1 == |lists| && s.BetterThan(best, PrioMask(prio))
    then (State(next, used', book', s), Some(Report(s, Ascending(used'))))
    else (State(next, used', book', best), None)
  }

  /** One iteration on the top frame: prune, or release, scan, and pop or select. */
  function Step(items: seq<Item>, lists: seq<seq<nat>>, prio: nat, st: State): (r: (State, Option<Report>))
    requires StepReady(items, lists, prio, st)
    // the top frame is popped, or the stack is refilled to T frames
    ensures |r.0.frames| == |st.frames| - 1 || |r.0.frames| == |lists|
    // the frames below the top are kept
    ensures |st.frames| - 1 <= |r.0.frames| && r.0.frames[..|st.frames| - 1] == st.frames[..|st.frames| - 1]
    // a pruned frame is popped and nothing else changes
    ensures Pruned(st.frames, prio) ==> r == (State(st.frames[..|st.frames| - 1], st.used, st.book, st.best), None)
    // only frame T reports, with a score that strictly beats the best and becomes the best
    ensures r.1.Some? ==> |st.frames| == |lists| && r.1.value.score.BetterThan(st.best, PrioMask(prio))
    ensures r.1.Some? ==> r.0.best == r.1.value.score
    ensures r.1.None? ==> r.0.best == st.best
  {
    var k := |st.frames|;
    var base := st.frames[..k - 1];
    if Pruned(st.frames, prio) then (State(base, st.used, st.book, st.best), None)
    else
      var m := Leaving(items, lists, st.frames, st.used, st.book);
      var c := FirstFree(items, lists[k - 1], m.0, m.1, m.2);
      if c == |lists[k - 1]| then (State(base, m.0, m.1, st.best), None)
      else Entering(items, lists, prio, base, m.0, m.1, c, st.best)
  }

  /** The release keeps the invariant of the frames below, and the scan resumes at the frame's progress. */
  lemma LeavingKeepsInv(items: seq<Item>, lists: seq<seq<nat>>, prio: nat, book0: seq<nat>, st: State)
    requires Setting(items, lists, prio, book0)
    requires Inv(items, lists, st.frames, st.used, st.book, book0) && 0 < |st.frames|
    ensures StepReady(items, lists, prio, st)
    ensures
      var k := |st.frames|;
      var m := Leaving(items, lists, st.frames, st.used, st.book);
      && Inv(items, lists, st.frames[..k - 1], m.0, m.1, book0)
      && m.2 == Rank(st.frames[k - 1].item) <= |lists[k - 1]|
  {
    var k := |st.frames|;
    match st.frames[k - 1].item
    case Unset =>
      DropUnset(items, lists, st.frames, st.used, st.book, book0);
    case At(c) =>
      Release(items, lists, st.frames, st.used, st.book, book0, lists[k - 1][c]);
  }

  /** Selecting an eligible candidate keeps the invariant; a report is valid and beats the best. */
  lemma EnteringFacts(items: seq<Item>, lists: seq<seq<nat>>, prio: nat, book0: seq<nat>, base: seq<Assignment>,
                      used: seq<bool>, book: seq<nat>, c: nat, best: Score)
    requires Setting(items, lists, prio, book0)
    requires Inv(items, lists, base, used, book, book0)
    requires |base| < |lists| && c < |lists[|base|]| && Eligible(items, used, book, lists[|base|][c])
    ensures
      var r := Entering(items, lists, prio, base, used, book, c, best);
      && Inv(items, lists, r.0.frames, r.0.used, r.0.book, book0)
      && |r.0.frames| == |lists| && r.0.frames[..|base|] == base && r.0.frames[|base|].item == At(c)
      && (r.1.Some? ==>
            && |base| + 1 == |lists|
            && r.1.value.score.BetterThan(best, PrioMask(prio))
            && r.0.best == r.1.value.score
            && ReportValid(items, |lists|, book0, r.1.value))
      && (r.1.None? ==> r.0.best == best)
  {
    EnteringState(items, lists, prio, book0, base, used, book, c, best);
    var r := Entering(items, lists, prio, base, used, book, c, best);
    if r.1.Some? {
      EnteringReport(items, lists, book0, r.0.frames, r.0.used, r.0.book);
    }
  }

  /** The selection keeps the invariant and refills the stack above the frames below. */
  lemma EnteringState(items: seq<Item>, lists: seq<seq<nat>>, prio: nat, book0: seq<nat>, base: seq<Assignment>,
                      used: seq<bool>, book: seq<nat>, c: nat, best: Score)
    requires Setting(items, lists, prio, book0)
    requires Inv(items, lists, base, used, book, book0)
    requires |base| < |lists| && c < |lists[|base|]| && Eligible(items, used, book, lists[|base|][c])
    ensures
      var r := Entering(items, lists, prio, base, used, book, c, best);
      && Inv(items, lists, r.0.frames, r.0.used, r.0.book, book0)
      && |r.0.frames| == |lists| && r.0.frames[..|base|] == base && r.0.frames[|base|].item == At(c)
  {
    EnteringShape(items, lists, prio, base, used, book, c, best);
    Select(items, lists, base, used, book, book0, c, |lists| - |base| - 1);
  }

  /** The state Entering builds: the refilled stack, the item marked used and its row's slot taken. */
  lemma EnteringShape(items: seq<Item>, lists: seq<seq<nat>>, prio: nat, base: seq<Assignment>,
                      used: seq<bool>, book: seq<nat>, c: nat, best: Score)
    requires ListsValid(items, lists) && |base| < |lists| && c < |lists[|base|]| && prio < MaskBits
    requires Eligible(items, used, book, lists[|base|][c])
    ensures
      var r := Entering(items, lists, prio, base, used, book, c, best);
      var i := lists[|base|][c];
      var s := Add(LastScore(base), items[i]);
      && r.0.frames == base + [Assignment(At(c), s)] + Unsets(|lists| - |base| - 1, s)
      && r.0.used == used[i := true] && r.0.book == book[items[i].row := book[items[i].row] - 1]
      && |r.0.frames| == |lists| && r.0.frames[..|base|] == base && r.0.frames[|base|].item == At(c)
  {
    var i := lists[|base|][c];
    var s := Add(LastScore(base), items[i]);
    var next := base + [Assignment(At(c), s)] + Unsets(|lists| - |base| - 1, s);
    assert next[..|base|] == base;
  }


  /** At frame T, the report of the used items in catalog order is a valid selection scored as the top frame. */
  lemma EnteringReport(items: seq<Item>, lists: seq<seq<nat>>, book0: seq<nat>,
                       frames: seq<Assignment>, used: seq<bool>, book: seq<nat>)
    requires forall i :: 0 <= i < |items| ==> items[i].cost < CostBound
    requires Inv(items, lists, frames, used, book, book0)
    requires |frames| == |lists| <= MaxTraits
    ensures ReportValid(items, |lists|, book0, Report(LastScore(frames), Ascending(used)))
  {
    ReportFacts(items, lists, frames, used, book, book0);
    AscendingSpec(used);
  }

  /**
   What one iteration promises: the invariant holds of the new state and the
   progress measure rises; the top frame is popped or the stack is refilled to
   T frames; a pruned frame is popped and nothing else changes; a report comes
   only from frame T, beats the best and becomes it, and is valid.
   */
  ghost predicate Outcome(items: seq<Item>, lists: seq<seq<nat>>, prio: nat, book0: seq<nat>, st: State,
                          r: (State, Option<Report>))
    requires CursorsValid(lists, st.frames) && 0 < |st.frames| && prio < MaskBits
  {
    var k := |st.frames|;
    && Inv(items, lists, r.0.frames, r.0.used, r.0.book, book0)
    && Enc(Ranks(lists, st.frames), Bases(lists)) < Enc(Ranks(lists, r.0.frames), Bases(lists))
    && (r.0.frames == st.frames[..k - 1] || (|r.0.frames| == |lists| && r.0.frames[..k - 1] == st.frames[..k - 1]))
    && (Pruned(st.frames, prio) ==> r == (State(st.frames[..k - 1], st.used, st.book, st.best), None))
    && (r.1.Some? ==>
          && k == |lists|
          && r.1.value.score.BetterThan(st.best, PrioMask(prio))
          && r.0.best == r.1.value.score
          && ReportValid(items, |lists|, book0, r.1.value))
    && (r.1.None? ==> r.0.best == st.best)
  }

  /** A pop to a state that keeps the invariant is a good outcome. */
  lemma PopOutcome(items: seq<Item>, lists: seq<seq<nat>>, prio: nat, book0: seq<nat>, st: State,
                   used: seq<bool>, book: seq<nat>)
    requires Setting(items, lists, prio, book0)
    requires Inv(items, lists, st.frames, st.used, st.book, book0) && 0 < |st.frames|
    requires Inv(items, lists, st.frames[..|st.frames| - 1], used, book, book0)
    requires Pruned(st.frames, prio) ==> used == st.used && book == st.book
    ensures Outcome(items, lists, prio, book0, st, (State(st.frames[..|st.frames| - 1], used, book, st.best), None))
  {
    Progress(lists, st.frames, st.frames[..|st.frames| - 1]);
  }

  /** A selection at or after the top frame's progress is a good outcome. */
  lemma EnterOutcome(items: seq<Item>, lists: seq<seq<nat>>, prio: nat, book0: seq<nat>, st: State,
                     used: seq<bool>, book: seq<nat>, c: nat)
    requires Setting(items, lists, prio, book0)
    requires Inv(items, lists, st.frames, st.used, st.book, book0) && 0 < |st.frames|
    requires !Pruned(st.frames, prio)
    requires
      var k := |st.frames|;
      && Inv(items, lists, st.frames[..k - 1], used, book, book0)
      && Rank(st.frames[k - 1].item) <= c < |lists[k - 1]|
      && Eligible(items, used, book, lists[k - 1][c])
    ensures
      var k := |st.frames|;
      Outcome(items, lists, prio, book0, st, Entering(items, lists, prio, st.frames[..k - 1], used, book, c, st.best))
  {
    var k := |st.frames|;
    var base := st.frames[..k - 1];
    EnteringFacts(items, lists, prio, book0, base, used, book, c, st.best);
    var r := Entering(items, lists, prio, base, used, book, c, st.best);
    Progress(lists, st.frames, r.0.frames);
  }

  /** One iteration from a state that keeps the invariant has a good outcome. */
  lemma StepFacts(items: seq<Item>, lists: seq<seq<nat>>, prio: nat, book0: seq<nat>, st: State)
    requires Setting(items, lists, prio, book0)
    requires Inv(items, lists, st.frames, st.used, st.book, book0) && 0 < |st.frames|
    ensures StepReady(items, lists, prio, st)
    ensures Outcome(items, lists, prio, book0, st, Step(items, lists, prio, st))
  {
    var k := |st.frames|;
    LeavingKeepsInv(items, lists, prio, book0, st);
    if Pruned(st.frames, prio) {
      PopOutcome(items, lists, prio, book0, st, st.used, st.book);
    } else {
      var m := Leaving(items, lists, st.frames, st.used, st.book);
      var c := FirstFree(items, lists[k - 1], m.0, m.1, m.2);
      if c == |lists[k - 1]| {
        PopOutcome(items, lists, prio, book0, st, m.0, m.1);
      } else {
        EnterOutcome(items, lists, prio, book0, st, m.0, m.1, c);
      }
    }
  }

  /**
   The scan: a frame that is not pruned is popped exactly when no candidate
   from its progress on is eligible after the release; otherwise it takes the
   first eligible one.
   */
  lemma StepScan(items: seq<Item>, lists: seq<seq<nat>>, prio: nat, st: State)
    requires StepReady(items, lists, prio, st) && !Pruned(st.frames, prio)
    ensures
      var k := |st.frames|;
      var v := lists[k - 1];
      var m := Leaving(items, lists, st.frames, st.used, st.book);
      var r := Step(items, lists, prio, st);
      && (|r.0.frames| < k <==> forall j :: m.2 <= j < |v| ==> !Eligible(items, m.0, m.1, v[j]))
      && (k <= |r.0.frames| ==>
            && r.0.frames[k - 1].item == At(FirstFree(items, v, m.0, m.1, m.2))
            && r.0.frames[k - 1].score == Add(LastScore(st.frames[..k - 1]), items[v[FirstFree(items, v, m.0, m.1, m.2)]]))
  {
    var k := |st.frames|;
    var v := lists[k - 1];
    var m := Leaving(items, lists, st.frames, st.used, st.book);
    assert m.2 <= |v| by {
      match st.frames[k - 1].item
      case Unset =>
      case At(c) =>
    }
    FirstFreeSkips(items, v, m.0, m.1, m.2);
  }

  /** Each report beats the one before it, the first beats `best`. */
  predicate ImprovesOn(best: Score, reports: seq<Report>, prioMask: set<nat>)
  {
    forall k {:trigger reports[k]} :: 0 <= k < |reports| ==> reports[k].score.BetterThan(if k == 0 then best else reports[k - 1].score, prioMask)
  }

  /** A report that beats `best` and becomes the best may precede reports that improve on it. */
  lemma ImprovesOnCons(best: Score, e: Option<Report>, best': Score, rest: seq<Report>, prioMask: set<nat>)
    requires e.Some? ==> e.value.score.BetterThan(best, prioMask) && best' == e.value.score
    requires e.None? ==> best' == best
    requires ImprovesOn(best', rest, prioMask)
    ensures ImprovesOn(best, Emitted(e) + rest, prioMask)
  {
    var all := Emitted(e) + rest;
    if e.Some? {
      forall k | 0 <= k < |all|
        ensures all[k].score.BetterThan(if k == 0 then best else all[k - 1].score, prioMask)
      {
        if k > 0 {
          var j := k - 1;
          assert all[k] == rest[j];
          assert rest[j].score.BetterThan(if j == 0 then best' else rest[j - 1].score, prioMask);
          if k > 1 {
            assert all[k - 1] == rest[k - 2];
          }
        }
      }
    } else {
      assert all == rest;
    }
  }

  /** The reports of the loop run from state st to the empty stack, in the order they are made. */
  ghost function Run(items: seq<Item>, lists: seq<seq<nat>>, prio: nat, book0: seq<nat>, st: State): (reports: seq<Report>)
    requires Setting(items, lists, prio, book0)
    requires Inv(items, lists, st.frames, st.used, st.book, book0)
    decreases Prod(Bases(lists)) - Enc(Ranks(lists, st.frames), Bases(lists))
    // every report strictly beats the one before it, the first beats the best so far
    ensures ImprovesOn(st.best, reports, PrioMask(prio))
    // every report is a selection within the book, scored by its items
    ensures forall k :: 0 <= k < |reports| ==> ReportValid(items, |lists|, book0, reports[k])
  {
    if st.frames == [] then []
    else
      StepFacts(items, lists, prio, book0, st);
      var r := Step(items, lists, prio, st);
      RanksBelow(lists, st.frames);
      RanksBelow(lists, r.0.frames);
      var rest := Run(items, lists, prio, book0, r.0);
      ImprovesOnCons(st.best, r.1, r.0.best, rest, PrioMask(prio));
      assert Emitted(r.1) == (if r.1.Some? then [r.1.value] else []);
      (if r.1.Some? then [r.1.value] else []) + rest
  }

  /** The reports of a whole search: T placeholders with the empty score, nothing used, the best empty. */
  ghost function Reports(items: seq<Item>, lists: seq<seq<nat>>, prio: nat, used0: seq<bool>, book0: seq<nat>)
    : (reports: seq<Report>)
    requires Setting(items, lists, prio, book0)
    requires |used0| == |items| && forall i :: 0 <= i < |used0| ==> !used0[i]
    ensures Improving(reports, PrioMask(prio))
    ensures forall k :: 0 <= k < |reports| ==> ReportValid(items, |lists|, book0, reports[k])
  {
    StartInv(items, lists, used0, book0);
    var reports := Run(items, lists, prio, book0, State(Unsets(|lists|, Zero), used0, book0, Zero));
    ImprovingFromZero(reports, PrioMask(prio));
    reports
  }

  /** Improving from the empty score is Improving. */
  lemma ImprovingFromZero(reports: seq<Report>, prioMask: set<nat>)
    requires ImprovesOn(Zero, reports, prioMask)
    ensures Improving(reports, prioMask)
  {
    forall k | 0 <= k < |reports|
      ensures reports[k].score.BetterThan(Previous(reports, k), prioMask)
    {
    }
  }

  // ---------------------------------------------------------------------------
  // The loop.

  /**
   The cursor scan: from `start`, skip candidates that are used or whose row
   has no free slot; stop at the first other one, or at the end of the list.
   */
  method Advance(items: seq<Item>, v: seq<nat>, used: array<bool>, book: array<nat>, start: nat) returns (c: nat)
    requires start <= |v|
    requires forall k :: 0 <= k < |v| ==> v[k] < used.Length && v[k] < |items| && items[v[k]].row < book.Length
    ensures c == FirstFree(items, v, used[..], book[..], start)
    ensures start <= c <= |v|
    ensures c < |v| ==> !used[v[c]] && book[items[v[c]].row] > 0
    ensures forall k :: start <= k < c ==> used[v[k]] || book[items[v[k]].row] == 0
  {
    c := start;
    while c < |v| && (used[v[c]] || book[items[v[c]].row] == 0)
      invariant start <= c <= |v|
      invariant FirstFree(items, v, used[..], book[..], c) == FirstFree(items, v, used[..], book[..], start)
      invariant forall k :: start <= k < c ==> used[v[k]] || book[items[v[k]].row] == 0
    {
      c := c + 1;
    }
  }

  /** Selecting item i: mark it used and take a free slot of its row r. */
  method Take(used: array<bool>, book: array<nat>, i: nat, r: nat)
    requires i < used.Length && r < book.Length && book[r] > 0
    modifies used, book
    ensures used[..] == old(used[..])[i := true]
    ensures book[..] == old(book[..])[r := old(book[r]) - 1]
  {
    used[i] := true;
    book[r] := book[r] - 1;
  }

  /** Releasing item i: clear its used flag and give its row r the slot back. */
  method PutBack(used: array<bool>, book: array<nat>, i: nat, r: nat)
    requires i < used.Length && r < book.Length
    modifies used, book
    ensures used[..] == old(used[..])[i := false]
    ensures book[..] == old(book[..])[r := old(book[r]) + 1]
  {
    used[i] := false;
    book[r] := book[r] + 1;
  }

  /** The new frame score: the previous one plus the item's cost, with each non-empty slot's bit set. */
  method Accumulate(prev: Score, it: Item) returns (s: Score)
    ensures s == Add(prev, it)
  {
    var mask := prev.tripods;
    for k := 0 to |it.tripods|
      invariant mask == prev.tripods + set t | t in it.tripods[..k] && t != 0
    {
      assert it.tripods[..k + 1] == it.tripods[..k] + [it.tripods[k]];
      if it.tripods[k] != 0 {
        mask := mask + {it.tripods[k]};
      }
    }
    assert it.tripods[..|it.tripods|] == it.tripods;
    s := Score(mask, prev.cost + it.cost);
  }

  /**
   The first half of an iteration: the top frame gives back the item it
   holds, or, on its first visit, is pruned when its trait is already in the
   previous frame's mask or when it lies beyond the priority traits while its
   mask misses one of them. Returns where the cursor scan resumes.
   */
  method Leave(items: seq<Item>, lists: seq<seq<nat>>, prio: nat, used: array<bool>, book: array<nat>,
               frames: seq<Assignment>)
    returns (start: nat, pruned: bool)
    requires ListsValid(items, lists) && CursorsValid(lists, frames) && 0 < |frames| && prio < MaskBits
    requires used.Length == |items| && forall i :: 0 <= i < |items| ==> items[i].row < book.Length
    modifies used, book
    ensures (used[..], book[..], start) == Leaving(items, lists, frames, old(used[..]), old(book[..]))
    ensures pruned == Pruned(frames, prio)
  {
    var k := |frames|;
    var a := frames[k - 1];
    var prev := if k > 1 then frames[k - 2] else Assignment(Unset, Zero);
    assert prev.score == LastScore(frames[..k - 1]);
    pruned := false;
    match a.item
    case At(c) =>
      var x := lists[k - 1][c];
      PutBack(used, book, x, items[x].row);
      start := c + 1;
    case Unset =>
      pruned := k in prev.score.tripods || (!(PrioMask(prio) <= a.score.tripods) && k > prio);
      start := 0;
  }

  /**
   The second half of an iteration: frame |base| + 1 takes candidate c of its
   list, its score becomes the previous score plus the item, and the stack is
   refilled to T frames. At frame T, a score strictly better than the best so
   far becomes the best and is reported with the used items.
   */
  method Enter(items: seq<Item>, lists: seq<seq<nat>>, prio: nat, used: array<bool>, book: array<nat>,
               base: seq<Assignment>, prevScore: Score, c: nat, best: Score)
    returns (next: seq<Assignment>, nextBest: Score, emitted: Option<Report>)
    requires ListsValid(items, lists) && |base| < |lists| && c < |lists[|base|]| && prio < MaskBits
    requires used.Length == |items| && forall i :: 0 <= i < |items| ==> items[i].row < book.Length
    requires Eligible(items, used[..], book[..], lists[|base|][c])
    requires prevScore == LastScore(base)
    modifies used, book
    ensures
      var i := lists[|base|][c];
      var s := Add(prevScore, items[i]);
      && next == base + [Assignment(At(c), s)] + Unsets(|lists| - |base| - 1, s)
      && used[..] == old(used[..])[i := true]
      && book[..] == old(book[..])[items[i].row := old(book[items[i].row]) - 1]
      && (emitted.Some? <==> |base| + 1 == |lists| && s.BetterThan(best, PrioMask(prio)))
      && (emitted.Some? ==> emitted.value == Report(s, Ascending(used[..])) && nextBest == s)
      && (emitted.None? ==> nextBest == best)
  {
    var k := |base| + 1;
    var i := lists[k - 1][c];
    var r := items[i].row;
    var fill := |lists| - k;
    Take(used, book, i, r);
    var score := Accumulate(prevScore, items[i]);
    var top := Assignment(At(c), score);
    next := base + [top] + Unsets(fill, score);
    nextBest, emitted := best, None;
    if k == |lists| && score.BetterThan(best, PrioMask(prio)) {
      var picked := UsedItems(used);
      nextBest, emitted := score, Some(Report(score, picked));
    }
  }

  /** One iteration of the search loop, on the top frame: exactly Step on the array state. */
  method Visit(items: seq<Item>, lists: seq<seq<nat>>, prio: nat, used: array<bool>, book: array<nat>,
               frames: seq<Assignment>, best: Score)
    returns (next: seq<Assignment>, nextBest: Score, emitted: Option<Report>)
    requires StepReady(items, lists, prio, State(frames, used[..], book[..], best))
    modifies used, book
    ensures (State(next, used[..], book[..], nextBest), emitted)
         == Step(items, lists, prio, State(frames, old(used[..]), old(book[..]), best))
  {
    var k := |frames|;
    var base := frames[..k - 1];
    var start, pruned := Leave(items, lists, prio, used, book, frames);
    if pruned {
      return base, best, None;
    }
    var c := Advance(items, lists[k - 1], used, book, start);
    if c == |lists[k - 1]| {
      return base, best, None;
    }
    next, nextBest, emitted := Enter(items, lists, prio, used, book, base, LastScore(base), c, best);
  }

  /** The initial stack: T placeholders with the empty score, nothing used, the book untouched. */
  lemma StartInv(items: seq<Item>, lists: seq<seq<nat>>, used: seq<bool>, book0: seq<nat>)
    requires ListsValid(items, lists)
    requires |used| == |items| && forall i :: 0 <= i < |used| ==> !used[i]
    ensures Inv(items, lists, Unsets(|lists|, Zero), used, book0, book0)
  {
    PicksUnsets(items, lists, [], |lists|, Zero);
    assert [] + Unsets(|lists|, Zero) == Unsets(|lists|, Zero);
    assert used == FlagsOf([], |items|);
  }

  /** An empty stack holds nothing: every flag is clear and the book is as it began. */
  lemma EndState(items: seq<Item>, lists: seq<seq<nat>>, used: seq<bool>, book: seq<nat>, book0: seq<nat>)
    requires Inv(items, lists, [], used, book, book0)
    ensures used == FlagsOf([], |items|) && book == book0
  {
  }

  /** The progress vector stays below the number of vectors. */
  lemma RanksBelow(lists: seq<seq<nat>>, frames: seq<Assignment>)
    requires CursorsValid(lists, frames)
    ensures Enc(Ranks(lists, frames), Bases(lists)) < Prod(Bases(lists))
  {
    RanksAreDigits(lists, frames);
    EncBelow(Ranks(lists, frames), Bases(lists));
  }

  /**
   The invariant of the search loop at state st after `reports`: the state
   keeps Inv, the reports improve strictly, the best is the last one reported,
   and each report is valid.
   */
  ghost predicate Searching(items: seq<Item>, lists: seq<seq<nat>>, prio: nat, book0: seq<nat>,
                            reports: seq<Report>, st: State)
    requires prio < MaskBits
  {
    && Inv(items, lists, st.frames, st.used, st.book, book0)
    && Improving(reports, PrioMask(prio))
    && st.best == Previous(reports, |reports|)
    && forall k :: 0 <= k < |reports| ==> ReportValid(items, |lists|, book0, reports[k])
  }

  /** The reports one iteration adds. */
  function Emitted(e: Option<Report>): seq<Report>
  {
    if e.Some? then [e.value] else []
  }

  /** The run from a non-empty stack: what one iteration reports, then the run from its result. */
  lemma RunStep(items: seq<Item>, lists: seq<seq<nat>>, prio: nat, book0: seq<nat>, st: State)
    requires Setting(items, lists, prio, book0)
    requires Inv(items, lists, st.frames, st.used, st.book, book0) && 0 < |st.frames|
    ensures StepReady(items, lists, prio, st)
    ensures Outcome(items, lists, prio, book0, st, Step(items, lists, prio, st))
    ensures Run(items, lists, prio, book0, st)
         == Emitted(Step(items, lists, prio, st).1) + Run(items, lists, prio, book0, Step(items, lists, prio, st).0)
  {
    StepFacts(items, lists, prio, book0, st);
  }

  /** Concatenation regroups. */
  lemma Regroup<T>(a: seq<T>, b: seq<T>, c: seq<T>)
    ensures a + b + c == a + (b + c)
  {
  }

  /** The reports made so far followed by the rest of the run stay the whole run across one iteration. */
  lemma RunAdvance(items: seq<Item>, lists: seq<seq<nat>>, prio: nat, book0: seq<nat>,
                   reports: seq<Report>, st: State, all: seq<Report>)
    requires Setting(items, lists, prio, book0)
    requires Inv(items, lists, st.frames, st.used, st.book, book0) && 0 < |st.frames|
    requires reports + Run(items, lists, prio, book0, st) == all
    ensures StepReady(items, lists, prio, st)
    ensures
      var r := Step(items, lists, prio, st);
      && Inv(items, lists, r.0.frames, r.0.used, r.0.book, book0)
      && reports + Emitted(r.1) + Run(items, lists, prio, book0, r.0) == all
  {
    RunStep(items, lists, prio, book0, st);
    var r := Step(items, lists, prio, st);
    Regroup(reports, Emitted(r.1), Run(items, lists, prio, book0, r.0));
  }

  /** The reports stay valid and improving, and the best stays the last one reported. */
  lemma ReportsStep(items: seq<Item>, traits: nat, book0: seq<nat>, prioMask: set<nat>,
                    reports: seq<Report>, best: Score, r: (State, Option<Report>))
    requires Improving(reports, prioMask) && best == Previous(reports, |reports|)
    requires forall k :: 0 <= k < |reports| ==> ReportValid(items, traits, book0, reports[k])
    requires r.1.Some? ==>
      r.1.value.score.BetterThan(best, prioMask) && r.0.best == r.1.value.score && ReportValid(items, traits, book0, r.1.value)
    requires r.1.None? ==> r.0.best == best
    ensures Improving(reports + Emitted(r.1), prioMask)
    ensures r.0.best == Previous(reports + Emitted(r.1), |reports + Emitted(r.1)|)
    ensures forall k :: 0 <= k < |reports + Emitted(r.1)| ==> ReportValid(items, traits, book0, (reports + Emitted(r.1))[k])
  {
    if r.1.Some? {
      ImprovingSnoc(reports, r.1.value, prioMask);
    } else {
      assert reports + Emitted(r.1) == reports;
    }
  }

  /** One iteration from a non-empty stack keeps the loop invariant and lowers the bounded progress measure. */
  lemma SearchStep(items: seq<Item>, lists: seq<seq<nat>>, prio: nat, book0: seq<nat>, reports: seq<Report>, st: State)
    requires Setting(items, lists, prio, book0)
    requires Searching(items, lists, prio, book0, reports, st) && 0 < |st.frames|
    ensures StepReady(items, lists, prio, st)
    ensures
      var r := Step(items, lists, prio, st);
      && Searching(items, lists, prio, book0, reports + Emitted(r.1), r.0)
      && 0 <= Prod(Bases(lists)) - Enc(Ranks(lists, r.0.frames), Bases(lists))
           < Prod(Bases(lists)) - Enc(Ranks(lists, st.frames), Bases(lists))
  {
    StepFacts(items, lists, prio, book0, st);
    var r := Step(items, lists, prio, st);
    RanksBelow(lists, st.frames);
    RanksBelow(lists, r.0.frames);
    ReportsStep(items, |lists|, book0, PrioMask(prio), reports, st.best, r);
  }

  /** The loop invariant holds at the start: T placeholders, nothing reported, the whole run ahead. */
  lemma SearchStart(items: seq<Item>, lists: seq<seq<nat>>, prio: nat, book0: seq<nat>, used0: seq<bool>)
    requires Setting(items, lists, prio, book0)
    requires |used0| == |items| && forall i :: 0 <= i < |used0| ==> !used0[i]
    ensures Searching(items, lists, prio, book0, [], State(Unsets(|lists|, Zero), used0, book0, Zero))
    ensures [] + Run(items, lists, prio, book0, State(Unsets(|lists|, Zero), used0, book0, Zero))
         == Reports(items, lists, prio, used0, book0)
  {
    StartInv(items, lists, used0, book0);
    assert [] + Reports(items, lists, prio, used0, book0) == Reports(items, lists, prio, used0, book0);
  }

  /** When the stack is empty the loop has made the whole run, and the flags and book are back where they began. */
  lemma SearchEnd(items: seq<Item>, lists: seq<seq<nat>>, prio: nat, book0: seq<nat>,
                  reports: seq<Report>, st: State, all: seq<Report>)
    requires Setting(items, lists, prio, book0)
    requires Searching(items, lists, prio, book0, reports, st) && st.frames == []
    requires reports + Run(items, lists, prio, book0, st) == all
    ensures reports == all
    ensures st.used == FlagsOf([], |items|) && st.book == book0
  {
    EndState(items, lists, st.used, st.book, book0);
    assert reports + [] == reports;
  }

  /**
   The search loop over a built index: runs until the stack is empty, and
   returns the reports in the order they were made. On return every used flag
   and every free-slot count is back to its initial value.
   */
  method Search(items: seq<Item>, lists: seq<seq<nat>>, prio: nat, used: array<bool>, book: array<nat>)
    returns (reports: seq<Report>)
    requires Setting(items, lists, prio, book[..])
    requires used.Length == |items| && forall i :: 0 <= i < used.Length ==> !used[i]
    modifies used, book
    ensures reports == Reports(items, lists, prio, old(used[..]), old(book[..]))
    ensures used[..] == old(used[..]) && book[..] == old(book[..])
    ensures forall k :: 0 <= k < |reports| ==> ReportValid(items, |lists|, old(book[..]), reports[k])
    ensures Improving(reports, PrioMask(prio))
  {
    ghost var book0 := book[..];
    ghost var used0 := used[..];
    var frames := Unsets(|lists|, Zero);
    var best := Zero;
    reports := [];
    SearchStart(items, lists, prio, book0, used0);
    while |frames| > 0
      invariant Searching(items, lists, prio, book0, reports, State(frames, used[..], book[..], best))
      invariant reports + Run(items, lists, prio, book0, State(frames, used[..], book[..], best))
             == Reports(items, lists, prio, used0, book0)
      decreases Prod(Bases(lists)) - Enc(Ranks(lists, frames), Bases(lists))
    {
      ghost var st := State(frames, used[..], book[..], best);
      SearchStep(items, lists, prio, book0, reports, st);
      RunAdvance(items, lists, prio, book0, reports, st, Reports(items, lists, prio, used0, book0));
      var next, nextBest, emitted := Visit(items, lists, prio, used, book, frames, best);
      reports := reports + Emitted(emitted);
      frames, best := next, nextBest;
    }
    SearchEnd(items, lists, prio, book0, reports, State(frames, used[..], book[..], best),
              Reports(items, lists, prio, used0, book0));
    assert used0 == FlagsOf([], |items|);
  }

  /** The index the search runs over: the candidate list of every trait 1..T. */
  function Index(items: seq<Item>): (lists: seq<seq<nat>>)
    // one list per tripod id up to the largest, holding catalog positions only
    ensures |lists| == MaxTrait(items) && ListsValid(items, lists)
  {
    seq(MaxTrait(items), j requires 0 <= j => Candidates(items, j + 1))
  }

  /** The reports of Optimize: the search over the index, from the caller's flags and book. */
  ghost function OptimizeReports(items: seq<Item>, prio: nat, used0: seq<bool>, book: seq<nat>): (reports: seq<Report>)
    requires forall i :: 0 <= i < |items| ==> ValidItem(items[i])
    requires MaxTrait(items) <= MaxTraits && prio < MaskBits && |book| == Rows
    requires |used0| == |items| && forall i :: 0 <= i < |used0| ==> !used0[i]
    ensures Improving(reports, PrioMask(prio))
    ensures forall k :: 0 <= k < |reports| ==> ReportValid(items, MaxTrait(items), book, reports[k])
  {
    Reports(items, Index(items), prio, used0, book)
  }

  /**
   Optimize: builds the candidate index, copies the book (it is passed by
   value), and runs the search. Reports are strictly improving complete
   assignments that respect the book; the used flags end as they began.
   */
  method Optimize(items: seq<Item>, used: array<bool>, prio: nat, book: seq<nat>) returns (reports: seq<Report>)
    requires forall i :: 0 <= i < |items| ==> ValidItem(items[i])
    requires MaxTrait(items) <= MaxTraits && prio < MaskBits
    requires |book| == Rows && forall r :: 0 <= r < |book| ==> book[r] < ByteBound
    requires used.Length == |items| && forall i :: 0 <= i < used.Length ==> !used[i]
    modifies used
    ensures reports == OptimizeReports(items, prio, old(used[..]), book)
    ensures used[..] == old(used[..])
    ensures forall k :: 0 <= k < |reports| ==> ReportValid(items, MaxTrait(items), book, reports[k])
    ensures Improving(reports, PrioMask(prio))
  {
    var lists := BuildIndex(items);
    assert lists == Index(items);
    var copy := new nat[|book|](r => if 0 <= r < |book| then book[r] else 0);
    assert copy[..] == book;
    reports := Search(items, lists, prio, used, copy);
  }
}
