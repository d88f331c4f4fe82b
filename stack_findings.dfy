/**
 * Concrete runs of the paged stack's bookkeeping that exhibit the two defects of
 * search/similarity.go's Stack as written: the capacity drift caused by Pop, and
 * Top reading the wrong slot after a Pop to a page boundary.
 */
module StackFindings {
  import opened Wrappers
  import opened PagedStack

  /** The operations that expose the capacity drift with page size 2:
      Push(a); Push(b,c); Pop x2; Push(d,e,f); Pop x3; Push(g,h,i,j,k); Pop x3. */
  function DriftOps(): seq<Op> {
    RoundOne() + RoundTwo() + RoundThree()
  }
  function RoundOne(): seq<Op> { [PushN(1), PushN(2), PopOne, PopOne] }
  function RoundTwo(): seq<Op> { [PushN(3), PopOne, PopOne, PopOne] }
  function RoundThree(): seq<Op> { [PushN(5), PopOne, PopOne, PopOne] }

  // Single runs of the bookkeeping, each evaluated on its own.
  lemma FirstRound() ensures Replay(Initial(2), RoundOne(), 2, false) == Some(Cursor(1, 1, 0, 2, 2)) {}
  lemma SecondRound() ensures Replay(Cursor(1, 1, 0, 2, 2), RoundTwo(), 2, false) == Some(Cursor(1, 1, 0, 4, 2)) {}
  lemma ThirdRound() ensures Replay(Cursor(1, 1, 0, 4, 2), RoundThree(), 2, false) == Some(Cursor(3, 1, 1, 8, 3)) {}
  lemma OverrunningPush() ensures PushCursor(Cursor(3, 1, 1, 8, 3), 5, 2) == None {}
  lemma TopRun() ensures Replay(Initial(2), [PushN(1), PushN(2), PopOne], 2, false) == Some(Cursor(2, 0, 1, 4, 2)) {}
  lemma TopRead() ensures TopSlotAsWritten(Cursor(2, 0, 1, 4, 2), 2) == 3 {}

  lemma FirstTwoRounds()
    ensures Replay(Initial(2), RoundOne() + RoundTwo(), 2, false) == Some(Cursor(1, 1, 0, 4, 2))
  {
    FirstRound();
    SecondRound();
    ReplayConcat(Initial(2), RoundOne(), RoundTwo(), 2, false);
  }

  lemma AllRounds()
    ensures Replay(Initial(2), DriftOps(), 2, false) == Some(Cursor(3, 1, 1, 8, 3))
  {
    FirstTwoRounds();
    ThirdRound();
    ReplayConcat(Initial(2), RoundOne() + RoundTwo(), RoundThree(), 2, false);
  }

  /** Counterexample: as written, after DriftOps `capacity` is 8 while only 3 pages
      (6 slots) remain, so a following 5-element Push skips allocation and runs
      past the page list. (With the corrected Pop, ReplayFixedNeverFails rules this out.) */
  lemma CapacityDriftCounterexample()
    ensures Replay(Initial(2), DriftOps(), 2, false) == Some(Cursor(3, 1, 1, 8, 3))
    ensures PushCursor(Cursor(3, 1, 1, 8, 3), 5, 2) == None
  {
    AllRounds();
    OverrunningPush();
  }

  /** Counterexample: as written, after Push(a); Push(b,c); Pop() with page size 2
      (two elements left, `offset == 0`), Top reads slot 3, past the two live
      elements, instead of slot 1 (= size-1, the slot TopSlot reads), which holds b. */
  lemma TopSlotCounterexample()
    ensures Replay(Initial(2), [PushN(1), PushN(2), PopOne], 2, false) == Some(Cursor(2, 0, 1, 4, 2))
    ensures TopSlotAsWritten(Cursor(2, 0, 1, 4, 2), 2) == 3
  {
    TopRun();
    TopRead();
  }
}
