/** One book's life end to end: published, lent, marked borrowed, and then
    refused a move back to draft. */
module Scenario {
  import opened BookStates
  import opened Books
  import opened Loans

  lemma LendingWalkthrough()
    ensures var store0 := map[1 := NewBook("B")];
            var r1 := MakeAvailable(store0, [1]);
            && r1.Changed? && r1.store[1].state == Available
            && var loan := Loan(1, 7, 1, 1, 10);
               var table := [loan];
               && CheckBookId(table, [loan], 5) == Pass
               && CheckDates([loan]) == Pass
               && CheckLentAll(table, [1], 5)[1]
               && var r2 := MakeBorrowed(r1.store, [1]);
                  && r2.Changed? && r2.store[1].state == Borrowed
                  && var r3 := ChangeState(r2.store, [1], Key(Draft));
                     && r3.Refused? && r3.error == IllegalTransition(Borrowed, "draft")
                     && r3.store[1].state == Borrowed
  {
  }
}
