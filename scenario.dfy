/**
 A three-item catalog on which the search ends with a report that is not the
 best selection, although a selection obtaining every priority tripod exists.

 Item 0 grants tripod 1 (row 0, cost 5), item 1 grants tripods 1 and 2 (row 1,
 cost 3), item 2 grants tripod 2 (row 0, cost 1). Each of rows 0 and 1 has one
 free slot, and tripod 1 is the priority tripod. Scores are compared only when
 frame T = 2 selects an item (la-tripods.cc:115-117). The only report is items
 0 and 1, for 8 gold. Each prune loses a better selection:
 - item 1 alone (3 gold) needs frame 2 to select it with frame 1 empty, which
   only the start state allows; there the priority test (line 95) pops frame
   2, as the empty score lacks tripod 1;
 - items 1 and 2 (4 gold) need frame 2 to select item 2 after frame 1 took
   item 1; but item 1 already obtained tripod 2, so the redundancy test
   (lines 93-94) pops frame 2.
 */
module Scenario {
  import opened Catalog
  import opened Scoring
  import opened Selection
  import opened Optimizer

  function Items(): seq<Item>
  {
    [Item(0, 5, [1, 0, 0]), Item(1, 3, [1, 2, 0]), Item(0, 1, [2, 0, 0])]
  }

  /** One free slot in each of rows 0 and 1. */
  function Book(): seq<nat> { [1, 1, 0, 0, 0, 0] }

  /** The candidate lists of tripods 1 and 2. */
  function Lists(): seq<seq<nat>> { [[0, 1], [1, 2]] }

  function NoneUsed(): seq<bool> { [false, false, false] }

  lemma NoneUsedClear(used: seq<bool>)
    requires used == NoneUsed()
    ensures |used| == 3 && forall i :: 0 <= i < |used| ==> !used[i]
  {
  }

  function U(s: Score): Assignment { Assignment(Unset, s) }
  function AtOf(c: nat, s: Score): Assignment { Assignment(At(c), s) }

  /** The scores the frames reach: item 0; items 0 and 1; item 1 alone. */
  function ScoreA(): Score { Score({1}, 5) }
  function ScoreAB(): Score { Score({1, 2}, 8) }
  function ScoreB(): Score { Score({1, 2}, 3) }

  /** The states of the run, in order. */
  function S0(): State { State([U(Zero), U(Zero)], NoneUsed(), Book(), Zero) }
  function S1(): State { State([U(Zero)], NoneUsed(), Book(), Zero) }
  function S2(): State { State([AtOf(0, ScoreA()), U(ScoreA())], [true, false, false], [0, 1, 0, 0, 0, 0], Zero) }
  function S3(): State
  {
    State([AtOf(0, ScoreA()), AtOf(0, ScoreAB())], [true, true, false], [0, 0, 0, 0, 0, 0], ScoreAB())
  }
  function S4(): State { State([AtOf(0, ScoreA())], [true, false, false], [0, 1, 0, 0, 0, 0], ScoreAB()) }
  function S5(): State { State([AtOf(1, ScoreB()), U(ScoreB())], [false, true, false], [1, 0, 0, 0, 0, 0], ScoreAB()) }
  function S6(): State { State([AtOf(1, ScoreB())], [false, true, false], [1, 0, 0, 0, 0, 0], ScoreAB()) }
  function S7(): State { State([], NoneUsed(), Book(), ScoreAB()) }

  lemma Traits()
    ensures TraitSet(Items()[0]) == {1}
    ensures TraitSet(Items()[1]) == {1, 2}
    ensures TraitSet(Items()[2]) == {2}
  {
    assert forall t :: t in Items()[0].tripods && t != 0 <==> t == 1;
    assert forall t :: t in Items()[1].tripods && t != 0 <==> t == 1 || t == 2;
    assert forall t :: t in Items()[2].tripods && t != 0 <==> t == 2;
  }

  lemma PrioOne()
    ensures PrioMask(1) == {1}
  {
    assert forall t :: t in PrioMask(1) <==> t == 1;
  }

  lemma TripodMaxima()
    ensures MaxOf([1, 0, 0]) == 1 && MaxOf([1, 2, 0]) == 2 && MaxOf([2, 0, 0]) == 2
  {
    assert [1, 0, 0][..2][..1][..0] == [] && [1, 0, 0][..2][..1] == [1] && [1, 0, 0][..2] == [1, 0];
    assert [1, 2, 0][..2][..1][..0] == [] && [1, 2, 0][..2][..1] == [1] && [1, 2, 0][..2] == [1, 2];
    assert [2, 0, 0][..2][..1][..0] == [] && [2, 0, 0][..2][..1] == [2] && [2, 0, 0][..2] == [2, 0];
  }

  lemma ItemPrefixes()
    ensures Items()[..2] == [Item(0, 5, [1, 0, 0]), Item(1, 3, [1, 2, 0])]
    ensures Items()[..2][..1] == [Item(0, 5, [1, 0, 0])]
    ensures Items()[..2][..1][..0] == []
  {
  }

  /** The catalog's largest tripod id is 2: the search has two frames. */
  lemma ScenarioMaxTrait()
    ensures MaxTrait(Items()) == 2
  {
    TripodMaxima();
    ItemPrefixes();
    assert MaxTrait(Items()[..2][..1]) == 1;
    assert MaxTrait(Items()[..2]) == 2;
  }

  /** The search is given this catalog, its index, one priority tripod and the book. */
  lemma ScenarioSetting()
    ensures Setting(Items(), Lists(), 1, Book())
  {
  }

  lemma SlotCounts()
    ensures multiset([1, 0, 0])[1] == 1 && multiset([1, 0, 0])[2] == 0
    ensures multiset([1, 2, 0])[1] == 1 && multiset([1, 2, 0])[2] == 1
    ensures multiset([2, 0, 0])[1] == 0 && multiset([2, 0, 0])[2] == 1
  {
    assert multiset([1, 0, 0]) == multiset{1, 0, 0};
    assert multiset([1, 2, 0]) == multiset{1, 2, 0};
    assert multiset([2, 0, 0]) == multiset{2, 0, 0};
  }

  /** Tripod 1 is on items 0 and 1. */
  lemma FirstCandidates()
    ensures Candidates(Items(), 1) == [0, 1]
  {
    SlotCounts();
    ItemPrefixes();
    assert Repeat(0, 1) == [0] && Repeat(1, 1) == [1] && Repeat(2, 0) == [];
    assert Candidates(Items()[..2][..1], 1) == [0];
    assert Candidates(Items()[..2], 1) == [0, 1];
  }

  lemma SecondCandidatesPrefix()
    ensures Candidates(Items()[..2], 2) == [1]
  {
    SlotCounts();
    ItemPrefixes();
    assert Repeat(0, 0) == [] && Repeat(1, 1) == [1];
    assert Candidates(Items()[..2][..1], 2) == [];
  }

  /** Tripod 2 is on items 1 and 2. */
  lemma SecondCandidates()
    ensures Candidates(Items(), 2) == [1, 2]
  {
    SlotCounts();
    SecondCandidatesPrefix();
    ItemPrefixes();
    assert Repeat(2, 1) == [2];
    assert Candidates(Items(), 2) == Candidates(Items()[..2], 2) + Repeat(2, multiset(Items()[2].tripods)[2]);
  }

  lemma IndexEntries(items: seq<Item>)
    ensures |Index(items)| == MaxTrait(items)
    ensures forall j :: 0 <= j < |Index(items)| ==> Index(items)[j] == Candidates(items, j + 1)
  {
  }

  lemma IndexOf(items: seq<Item>)
    requires MaxTrait(items) == 2
    requires Candidates(items, 1) == [0, 1] && Candidates(items, 2) == [1, 2]
    ensures Index(items) == Lists()
  {
    IndexEntries(items);
  }

  /** The index built from the catalog is Lists(). */
  lemma ScenarioIndex()
    ensures Index(Items()) == Lists()
  {
    ScenarioMaxTrait();
    FirstCandidates();
    SecondCandidates();
    IndexOf(Items());
  }

  /**
   One iteration of the run from a state that keeps the invariant. The run
   lemmas take the catalog as a parameter equal to Items(): on literal
   arguments only, the verifier would unfold the whole search.
   */
  lemma Next(items: seq<Item>, st: State, st': State, e: Option<Report>)
    requires items == Items() && Setting(items, Lists(), 1, Book())
    requires Inv(items, Lists(), st.frames, st.used, st.book, Book()) && 0 < |st.frames|
    requires StepReady(items, Lists(), 1, st) && Step(items, Lists(), 1, st) == (st', e)
    ensures Inv(items, Lists(), st'.frames, st'.used, st'.book, Book())
    ensures Run(items, Lists(), 1, Book(), st) == Emitted(e) + Run(items, Lists(), 1, Book(), st')
  {
    RunStep(items, Lists(), 1, Book(), st);
  }

  /** A state of this run with one or two frames can take a step. */
  lemma Ready(st: State)
    requires 0 < |st.frames| && CursorsValid(Lists(), st.frames)
    requires |st.used| == 3 && |st.book| == Rows
    ensures StepReady(Items(), Lists(), 1, st)
  {
  }

  lemma Step0(items: seq<Item>, at: State)
    requires items == Items() && at == S0()
    ensures StepReady(items, Lists(), 1, at)
    ensures Step(items, Lists(), 1, at) == (S1(), None)
  {
    Ready(S0());
    PrioOne();
    var st := S0();
    assert st.frames[..1] == [U(Zero)];
    assert LastScore(st.frames[..1]) == Zero;
    assert Pruned(st.frames, 1);
    assert Step(Items(), Lists(), 1, S0()) == (S1(), None);
  }

  lemma Step1(items: seq<Item>, at: State)
    requires items == Items() && at == S1()
    ensures StepReady(items, Lists(), 1, at)
    ensures Step(items, Lists(), 1, at) == (S2(), None)
  {
    Ready(S1());
    PrioOne();
    Traits();
    var st := S1();
    assert st.frames[..0] == [];
    assert !Pruned(st.frames, 1);
    assert Leaving(Items(), Lists(), st.frames, st.used, st.book) == (NoneUsed(), Book(), 0);
    assert Eligible(Items(), NoneUsed(), Book(), 0);
    assert FirstFree(Items(), Lists()[0], NoneUsed(), Book(), 0) == 0;
    assert NoneUsed()[0 := true] == [true, false, false];
    assert Book()[0 := Book()[0] - 1] == [0, 1, 0, 0, 0, 0];
    assert Add(Zero, Items()[0]) == ScoreA();
    assert Unsets(1, ScoreA()) == [U(ScoreA())];
    assert [] + [AtOf(0, ScoreA())] + Unsets(1, ScoreA()) == S2().frames;
    assert Entering(Items(), Lists(), 1, [], NoneUsed(), Book(), 0, Zero) == (S2(), None);
    assert Step(Items(), Lists(), 1, S1()) == (S2(), None);
  }

  /** The used items of S3 in catalog order. */
  lemma AscendingFirstTwo()
    ensures Ascending([true, true, false]) == [0, 1]
  {
    var u := [true, true, false];
    assert u[..2] == [true, true] && u[..2][..1] == [true] && u[..2][..1][..0] == [];
    assert Ascending([true]) == [0];
    assert Ascending([true, true]) == [0, 1];
  }

  /** Items 0 and 1 obtain the priority tripod, the empty score does not. */
  lemma FirstReportBetter()
    ensures Add(ScoreA(), Items()[1]) == ScoreAB()
    ensures ScoreAB().BetterThan(Zero, PrioMask(1))
  {
    PrioOne();
    Traits();
    assert ScoreAB().tripods * {1} == {1};
  }

  /** Frame 2 selects item 1 over item 0, and the complete score is reported. */
  lemma SecondFrameEnters()
    ensures Entering(Items(), Lists(), 1, [AtOf(0, ScoreA())], S2().used, S2().book, 0, Zero)
         == (S3(), Some(Report(ScoreAB(), [0, 1])))
  {
    FirstReportBetter();
    AscendingFirstTwo();
    var st, base := S2(), [AtOf(0, ScoreA())];
    assert LastScore(base) == ScoreA();
    assert st.used[1 := true] == [true, true, false];
    assert st.book[1 := st.book[1] - 1] == S3().book;
    assert base + [AtOf(0, ScoreAB())] + Unsets(0, ScoreAB()) == S3().frames;
  }

  lemma Step2(items: seq<Item>, at: State)
    requires items == Items() && at == S2()
    ensures StepReady(items, Lists(), 1, at)
    ensures Step(items, Lists(), 1, at) == (S3(), Some(Report(ScoreAB(), [0, 1])))
  {
    Ready(S2());
    PrioOne();
    var st := S2();
    assert st.frames[..1] == [AtOf(0, ScoreA())];
    assert !Pruned(st.frames, 1);
    assert Leaving(Items(), Lists(), st.frames, st.used, st.book) == (st.used, st.book, 0);
    assert Eligible(Items(), st.used, st.book, 1);
    assert FirstFree(Items(), Lists()[1], st.used, st.book, 0) == 0;
    SecondFrameEnters();
    assert Step(Items(), Lists(), 1, S2()) == (S3(), Some(Report(ScoreAB(), [0, 1])));
  }

  lemma Step3(items: seq<Item>, at: State)
    requires items == Items() && at == S3()
    ensures StepReady(items, Lists(), 1, at)
    ensures Step(items, Lists(), 1, at) == (S4(), None)
  {
    Ready(S3());
    var st := S3();
    assert st.frames[..1] == S4().frames;
    assert !Pruned(st.frames, 1);
    assert st.used[1 := false] == S4().used;
    assert st.book[1 := st.book[1] + 1] == S4().book;
    assert Leaving(Items(), Lists(), st.frames, st.used, st.book) == (S4().used, S4().book, 1);
    assert !Eligible(Items(), S4().used, S4().book, 2);
    assert FirstFree(Items(), Lists()[1], S4().used, S4().book, 2) == 2;
    assert FirstFree(Items(), Lists()[1], S4().used, S4().book, 1) == 2;
    assert Step(Items(), Lists(), 1, S3()) == (S4(), None);
  }

  lemma Step4(items: seq<Item>, at: State)
    requires items == Items() && at == S4()
    ensures StepReady(items, Lists(), 1, at)
    ensures Step(items, Lists(), 1, at) == (S5(), None)
  {
    Ready(S4());
    Traits();
    var st := S4();
    assert st.frames[..0] == [];
    assert !Pruned(st.frames, 1);
    assert st.used[0 := false] == NoneUsed();
    assert st.book[0 := st.book[0] + 1] == Book();
    assert Leaving(Items(), Lists(), st.frames, st.used, st.book) == (NoneUsed(), Book(), 1);
    assert Eligible(Items(), NoneUsed(), Book(), 1);
    assert FirstFree(Items(), Lists()[0], NoneUsed(), Book(), 1) == 1;
    assert Add(Zero, Items()[1]) == ScoreB();
    assert NoneUsed()[1 := true] == S5().used;
    assert Book()[1 := Book()[1] - 1] == S5().book;
    assert Unsets(1, ScoreB()) == [U(ScoreB())];
    assert [] + [AtOf(1, ScoreB())] + Unsets(1, ScoreB()) == S5().frames;
    assert Entering(Items(), Lists(), 1, [], NoneUsed(), Book(), 1, ScoreAB()) == (S5(), None);
    assert Step(Items(), Lists(), 1, S4()) == (S5(), None);
  }

  lemma Step5(items: seq<Item>, at: State)
    requires items == Items() && at == S5()
    ensures StepReady(items, Lists(), 1, at)
    ensures Step(items, Lists(), 1, at) == (S6(), None)
  {
    Ready(S5());
    var st := S5();
    assert st.frames[..1] == S6().frames;
    assert LastScore(st.frames[..1]) == ScoreB();
    assert Pruned(st.frames, 1);
    assert Step(Items(), Lists(), 1, S5()) == (S6(), None);
  }

  lemma Step6(items: seq<Item>, at: State)
    requires items == Items() && at == S6()
    ensures StepReady(items, Lists(), 1, at)
    ensures Step(items, Lists(), 1, at) == (S7(), None)
  {
    Ready(S6());
    var st := S6();
    assert st.frames[..0] == [];
    assert !Pruned(st.frames, 1);
    assert st.used[1 := false] == NoneUsed();
    assert st.book[1 := st.book[1] + 1] == Book();
    assert Leaving(Items(), Lists(), st.frames, st.used, st.book) == (NoneUsed(), Book(), 2);
    assert FirstFree(Items(), Lists()[0], NoneUsed(), Book(), 2) == 2;
    assert Step(Items(), Lists(), 1, S6()) == (S7(), None);
  }

  /** Frame 2 is pruned on its first visit by the priority test: the empty score lacks the priority tripod. */
  lemma RunFrom0(items: seq<Item>, a: State)
    requires items == Items() && a == S0() && Setting(items, Lists(), 1, Book())
    requires Inv(items, Lists(), a.frames, a.used, a.book, Book())
    ensures Run(items, Lists(), 1, Book(), a) == [Report(ScoreAB(), [0, 1])]
  {
    var b := S1();
    Step0(items, a);
    Next(items, a, b, None);
    RunFrom1(items, b);
  }

  /** Frame 1 selects item 0. */
  lemma RunFrom1(items: seq<Item>, a: State)
    requires items == Items() && a == S1() && Setting(items, Lists(), 1, Book())
    requires Inv(items, Lists(), a.frames, a.used, a.book, Book())
    ensures Run(items, Lists(), 1, Book(), a) == [Report(ScoreAB(), [0, 1])]
  {
    var b := S2();
    Step1(items, a);
    Next(items, a, b, None);
    RunFrom2(items, b);
  }

  /** Frame 2 selects item 1: items 0 and 1 are reported, for 8 gold. */
  lemma RunFrom2(items: seq<Item>, a: State)
    requires items == Items() && a == S2() && Setting(items, Lists(), 1, Book())
    requires Inv(items, Lists(), a.frames, a.used, a.book, Book())
    ensures Run(items, Lists(), 1, Book(), a) == [Report(ScoreAB(), [0, 1])]
  {
    var b := S3();
    Step2(items, a);
    Next(items, a, b, Some(Report(ScoreAB(), [0, 1])));
    RunFrom3(items, b);
  }

  /** Frame 2 releases item 1; item 2's row is full, so frame 2 is popped. */
  lemma RunFrom3(items: seq<Item>, a: State)
    requires items == Items() && a == S3() && Setting(items, Lists(), 1, Book())
    requires Inv(items, Lists(), a.frames, a.used, a.book, Book())
    ensures Run(items, Lists(), 1, Book(), a) == []
  {
    var b := S4();
    Step3(items, a);
    Next(items, a, b, None);
    RunFrom4(items, b);
  }

  /** Frame 1 releases item 0 and selects item 1. */
  lemma RunFrom4(items: seq<Item>, a: State)
    requires items == Items() && a == S4() && Setting(items, Lists(), 1, Book())
    requires Inv(items, Lists(), a.frames, a.used, a.book, Book())
    ensures Run(items, Lists(), 1, Book(), a) == []
  {
    var b := S5();
    Step4(items, a);
    Next(items, a, b, None);
    RunFrom5(items, b);
  }

  /** Frame 2 is pruned on its first visit by the redundancy test: item 1 already obtained tripod 2. */
  lemma RunFrom5(items: seq<Item>, a: State)
    requires items == Items() && a == S5() && Setting(items, Lists(), 1, Book())
    requires Inv(items, Lists(), a.frames, a.used, a.book, Book())
    ensures Run(items, Lists(), 1, Book(), a) == []
  {
    var b := S6();
    Step5(items, a);
    Next(items, a, b, None);
    RunFrom6(items, b);
  }

  /** Frame 1 releases item 1 and has no candidate left: the stack is empty. */
  lemma RunFrom6(items: seq<Item>, a: State)
    requires items == Items() && a == S6() && Setting(items, Lists(), 1, Book())
    requires Inv(items, Lists(), a.frames, a.used, a.book, Book())
    ensures Run(items, Lists(), 1, Book(), a) == []
  {
    var b := S7();
    Step6(items, a);
    Next(items, a, b, None);
  }

  /** The search over this catalog reports items 0 and 1, for 8 gold, and nothing else. */
  lemma ScenarioRun(items: seq<Item>)
    requires items == Items()
    ensures Setting(items, Lists(), 1, Book())
    ensures Reports(items, Lists(), 1, NoneUsed(), Book()) == [Report(ScoreAB(), [0, 1])]
  {
    ScenarioSetting();
    StartInv(items, Lists(), NoneUsed(), Book());
    assert Unsets(2, Zero) == S0().frames;
    RunFrom0(items, S0());
  }

  /** What Optimize reports on this catalog: items 0 and 1, for 8 gold, and nothing else. */
  lemma ScenarioReports(items: seq<Item>, used: seq<bool>, book: seq<nat>)
    requires items == Items() && used == NoneUsed() && book == Book()
    ensures MaxTrait(items) == 2
    ensures forall i :: 0 <= i < |items| ==> ValidItem(items[i])
    ensures |used| == |items| && (forall i :: 0 <= i < |used| ==> !used[i]) && |book| == Rows
    ensures OptimizeReports(items, 1, used, book) == [Report(ScoreAB(), [0, 1])]
  {
    NoneUsedClear(used);
    ScenarioMaxTrait();
    ScenarioSetting();
    ScenarioIndex();
    assert Index(items) == Lists();
    ScenarioRun(items);
    assert OptimizeReports(items, 1, used, book) == Reports(items, Lists(), 1, used, book);
  }

  /**
   Item 1 alone is a selection that fits the book and strictly beats the only
   report: the same tripods for 3 gold instead of 8. The priority test cuts
   it (FirstPruneIsPriority).
   */
  lemma CheaperSelectionMissed()
    ensures ReportValid(Items(), 2, Book(), Report(ScoreOf(Items(), [1]), [1]))
    ensures ScoreOf(Items(), [1]) == ScoreB()
    ensures ScoreB().BetterThan(ScoreAB(), PrioMask(1))
    ensures PrioMask(1) <= ScoreB().tripods
  {
    Traits();
    PrioOne();
    assert [1][..0] == [];
    assert Add(Zero, Items()[1]) == ScoreB();
    assert ScoreB().tripods * {1} == {1};
    Neg32Value(3);
    Neg32Value(8);
    forall r | 0 <= r < |Book()|
      ensures CountRow(Items(), [1], r) <= Book()[r]
    {
      assert CountRow(Items(), [1], r) == if r == 1 then 1 else 0;
    }
  }

  /** The used item of S6 in catalog order. */
  lemma AscendingSecond()
    ensures Ascending([false, true, false]) == [1]
  {
    var u := [false, true, false];
    assert u[..2] == [false, true] && u[..2][..1] == [false] && u[..2][..1][..0] == [];
    assert Ascending([false]) == [];
    assert Ascending([false, true]) == [1];
  }

  /**
   Item 1 alone is lost to the priority test, not to the redundancy test. It
   is compared only with frame 1 empty and frame 2 at item 1, which needs
   frame 2 to enter from the start state S0. There the frame's tripod 2 is
   not in the empty mask below it, so the redundancy test (line 93) does not
   fire; but tripod 2 is above the one priority tripod and the empty score
   lacks tripod 1, so the priority test (line 95) pops it. Were it not
   pruned, frame 2 would take item 1 and report it alone, for 3 gold.
   */
  lemma FirstPruneIsPriority()
    ensures Pruned(S0().frames, 1)
    ensures 2 !in LastScore(S0().frames[..1]).tripods
    ensures 2 > 1 && !(PrioMask(1) <= S0().frames[1].score.tripods)
    ensures Lists()[1][0] == 1 && Eligible(Items(), NoneUsed(), Book(), 1)
    ensures Entering(Items(), Lists(), 1, [U(Zero)], NoneUsed(), Book(), 0, Zero).1
         == Some(Report(ScoreB(), [1]))
  {
    PrioOne();
    Traits();
    AscendingSecond();
    assert S0().frames[..1] == [U(Zero)];
    assert Add(Zero, Items()[1]) == ScoreB();
    assert NoneUsed()[1 := true] == [false, true, false];
    assert ScoreB().tripods * {1} == {1};
  }

  /**
   Items 1 and 2, one per frame, also fit the book and beat the report, for 4
   gold. Frame 2 would select item 2 after item 1 on frame 1, were it not
   pruned as redundant.
   */
  lemma FullSelectionMissed()
    ensures ReportValid(Items(), 2, Book(), Report(ScoreOf(Items(), [1, 2]), [1, 2]))
    ensures ScoreOf(Items(), [1, 2]) == Score({1, 2}, 4)
    ensures Score({1, 2}, 4).BetterThan(ScoreAB(), PrioMask(1))
    ensures 1 in Lists()[0] && 2 in Lists()[1] && 2 in ScoreB().tripods
  {
    Traits();
    PrioOne();
    assert [1, 2][..1] == [1] && [1, 2][..1][..0] == [];
    assert Add(Zero, Items()[1]) == ScoreB();
    assert Add(ScoreB(), Items()[2]) == Score({1, 2}, 4);
    assert {1, 2} * {1} == {1};
    Neg32Value(4);
    Neg32Value(8);
    forall r | 0 <= r < |Book()|
      ensures CountRow(Items(), [1, 2], r) <= Book()[r]
    {
      assert CountRow(Items(), [1], r) == if r == 1 then 1 else 0;
      assert CountRow(Items(), [1, 2], r) == if r <= 1 then 1 else 0;
    }
  }
}
