/** Loans of books to members: the lending query that says whether a book is
    lent, the latest loan end of a lent book, and the two checks a loan write
    must pass.  The loan table is a sequence in the model's default order
    (latest end date first); dates and the current time are day numbers on
    one timeline, and the current time is an argument. */
module Loans {
  import opened Outcomes
  import opened Books

  type LoanId = nat
  type MemberId = nat
  type Date = int

  datatype Loan = Loan(id: LoanId, member: MemberId, book: BookId, dateStart: Date, dateEnd: Date)

  /** The lending query's filter: a loan of `book` that has not ended before `now`. */
  predicate ActiveFor(loan: Loan, book: BookId, now: Date) {
    loan.book == book && loan.dateEnd >= now
  }

  /** How many loans of the table match the lending query for `book`.  What
      the count means is stated by `CountPositiveIffSomeActive` (positive iff
      some loan matches) and `CountAtMostOneIffUnique` (at most one iff the
      matching loan is unique). */
  function CountActive(loans: seq<Loan>, book: BookId, now: Date): (n: nat)
    ensures n <= |loans|
    decreases |loans|
  {
    if |loans| == 0 then 0
    else
      CountActive(loans[..|loans| - 1], book, now)
      + (if ActiveFor(loans[|loans| - 1], book, now) then 1 else 0)
  }

  /** The count is positive exactly when some loan of the table matches. */
  lemma {:induction false} CountPositiveIffSomeActive(loans: seq<Loan>, book: BookId, now: Date)
    ensures CountActive(loans, book, now) > 0
            <==> exists i :: 0 <= i < |loans| && ActiveFor(loans[i], book, now)
    decreases |loans|
  {
    if |loans| > 0 {
      var init := loans[..|loans| - 1];
      CountPositiveIffSomeActive(init, book, now);
      if exists i :: 0 <= i < |init| && ActiveFor(init[i], book, now) {
        var i :| 0 <= i < |init| && ActiveFor(init[i], book, now);
        assert loans[i] == init[i];
      }
      if exists i :: 0 <= i < |loans| && ActiveFor(loans[i], book, now) {
        var i :| 0 <= i < |loans| && ActiveFor(loans[i], book, now);
        if i < |init| {
          assert init[i] == loans[i];
        }
      }
    }
  }

  /** No two different loans of the table are active loans of `book`. */
  predicate AtMostOneActive(loans: seq<Loan>, book: BookId, now: Date) {
    forall i, j :: (0 <= i < |loans| && 0 <= j < |loans|
                    && ActiveFor(loans[i], book, now) && ActiveFor(loans[j], book, now)) ==> i == j
  }

  /** The count is at most one exactly when no two different loans of the
      table match. */
  lemma {:induction false} CountAtMostOneIffUnique(loans: seq<Loan>, book: BookId, now: Date)
    ensures CountActive(loans, book, now) <= 1
            <==> AtMostOneActive(loans, book, now)
    decreases |loans|
  {
    if |loans| > 0 {
      var n := |loans| - 1;
      var init := loans[..n];
      CountAtMostOneIffUnique(init, book, now);
      CountPositiveIffSomeActive(init, book, now);
      assert forall i :: 0 <= i < n ==> init[i] == loans[i];
      if ActiveFor(loans[n], book, now) && CountActive(init, book, now) > 0 {
        var i :| 0 <= i < n && ActiveFor(init[i], book, now);
        assert ActiveFor(loans[i], book, now) && i != n;
      }
      if CountActive(init, book, now) > 1 {
        var i, j :| 0 <= i < n && 0 <= j < n && ActiveFor(init[i], book, now)
                    && ActiveFor(init[j], book, now) && i != j;
        assert ActiveFor(loans[i], book, now) && ActiveFor(loans[j], book, now);
      }
    }
  }

  /** Appending a loan to the table adds one to the count when it matches. */
  lemma CountAppend(loans: seq<Loan>, loan: Loan, book: BookId, now: Date)
    ensures CountActive(loans + [loan], book, now)
            == CountActive(loans, book, now) + (if ActiveFor(loan, book, now) then 1 else 0)
  {
    assert (loans + [loan])[..|loans|] == loans;
  }

  /** The lent flags the compute method assigns, as written: the method
      returns from inside its loop, so only the first book of the recordset
      gets a value. */
  function CheckLent(loans: seq<Loan>, records: seq<BookId>, now: Date): (lent: map<BookId, bool>)
    ensures |records| == 0 ==> lent == map[]
    ensures |records| > 0 ==>
              && lent.Keys == {records[0]}
              && (lent[records[0]] <==> exists i :: 0 <= i < |loans| && ActiveFor(loans[i], records[0], now))
  {
    if |records| == 0 then map[]
    else
      CountPositiveIffSomeActive(loans, records[0], now);
      map[records[0] := CountActive(loans, records[0], now) > 0]
  }

  /** The lent flags with every book of the recordset computed. */
  function CheckLentAll(loans: seq<Loan>, records: seq<BookId>, now: Date): (lent: map<BookId, bool>)
    ensures forall b :: b in lent <==> b in records
    ensures forall b :: b in lent ==>
              (lent[b] <==> exists i :: 0 <= i < |loans| && ActiveFor(loans[i], b, now))
  {
    LentIffSomeActive(loans, now);
    map b | b in records :: CountActive(loans, b, now) > 0
  }

  lemma LentIffSomeActive(loans: seq<Loan>, now: Date)
    ensures forall b :: CountActive(loans, b, now) > 0
                        <==> exists i :: 0 <= i < |loans| && ActiveFor(loans[i], b, now)
  {
    forall b {
      CountPositiveIffSomeActive(loans, b, now);
    }
  }

  /** On a recordset of two books where only the second is lent, the method
      as written leaves the second book without a value, while computing
      every book marks it lent. */
  lemma CheckLentSkipsLaterBooks()
    ensures var loans := [Loan(1, 1, 2, 0, 10)];
            && 2 !in CheckLent(loans, [1, 2], 5)
            && CheckLentAll(loans, [1, 2], 5)[2]
  {
  }

  /** The loans of `book`, in table order: the book's loan list. */
  function LoanIds(loans: seq<Loan>, book: BookId): (r: seq<Loan>)
    ensures forall l :: l in r <==> l in loans && l.book == book
    ensures |r| > 0 ==> exists i :: 0 <= i < |loans| && loans[i] == r[0]
                                    && forall j :: 0 <= j < i ==> loans[j].book != book
    decreases |loans|
  {
    if |loans| == 0 then []
    else if loans[0].book == book then [loans[0]] + LoanIds(loans[1..], book)
    else
      var rest := LoanIds(loans[1..], book);
      assert |rest| > 0 ==> exists i :: 0 <= i < |loans| && loans[i] == rest[0]
                                        && forall j :: 0 <= j < i ==> loans[j].book != book by {
        if |rest| > 0 {
          var i :| 0 <= i < |loans| - 1 && loans[1..][i] == rest[0]
                   && forall j :: 0 <= j < i ==> loans[1..][j].book != book;
          assert loans[i + 1] == rest[0];
          forall j | 0 <= j < i + 1
            ensures loans[j].book != book
          {
            if j > 0 {
              assert loans[j] == loans[1..][j - 1];
            }
          }
        }
      }
      rest
  }

  /** The end date shown for a book: when the book is lent, the end of the
      first loan in its loan list; otherwise nothing is assigned. */
  function LastLoanEnd(loans: seq<Loan>, book: BookId, now: Date): (r: Option<Date>)
    ensures r.Some? <==> exists i :: 0 <= i < |loans| && ActiveFor(loans[i], book, now)
    ensures r.Some? ==> exists i :: 0 <= i < |loans| && loans[i].book == book && loans[i].dateEnd == r.value
                                    && forall j :: 0 <= j < i ==> loans[j].book != book
  {
    var lent := CheckLentAll(loans, [book], now)[book];
    var ids := LoanIds(loans, book);
    LentBookHasLoans(loans, book, now);
    if lent && |ids| > 0 then Some(ids[0].dateEnd) else None
  }

  lemma LentBookHasLoans(loans: seq<Loan>, book: BookId, now: Date)
    ensures (exists i :: 0 <= i < |loans| && ActiveFor(loans[i], book, now)) ==> |LoanIds(loans, book)| > 0
  {
  }

  /** The table's default order: latest end date first. */
  predicate SortedByEndDesc(loans: seq<Loan>) {
    forall i, j :: 0 <= i < j < |loans| ==> loans[i].dateEnd >= loans[j].dateEnd
  }

  /** In the default order the first loan of a book ends last, so the date
      shown is the latest end of any of its loans, and it is not before now. */
  lemma LastLoanEndIsLatest(loans: seq<Loan>, book: BookId, now: Date)
    requires SortedByEndDesc(loans)
    ensures var r := LastLoanEnd(loans, book, now);
            r.Some? ==> && (forall i :: 0 <= i < |loans| && loans[i].book == book ==> loans[i].dateEnd <= r.value)
                        && r.value >= now
  {
  }

  /** The two ways a loan write is rejected. */
  datatype ValidationError = BookIsLent | StartAfterEnd

  function ErrorMessage(e: ValidationError): string {
    match e
    case BookIsLent => "Book is Lent!"
    case StartAfterEnd => "Start date After end date!"
  }

  datatype Check = Pass | Fail(error: ValidationError)

  /** The double-booking check run on written loans, which are already in
      the table: a loan is rejected when the lending query for its book
      matches more than one loan, the written loan itself included. */
  function CheckBookId(table: seq<Loan>, written: seq<Loan>, now: Date): (r: Check)
    ensures r.Pass? <==> forall k :: 0 <= k < |written| ==> CountActive(table, written[k].book, now) <= 1
    ensures r.Fail? ==> r.error == BookIsLent
    decreases |written|
  {
    if |written| == 0 then Pass
    else if CountActive(table, written[0].book, now) > 1 then Fail(BookIsLent)
    else CheckBookId(table, written[1..], now)
  }

  /** An accepted write leaves at most one active loan for each written
      loan's book. */
  lemma AcceptedWriteLeavesOneActive(table: seq<Loan>, written: seq<Loan>, now: Date)
    requires CheckBookId(table, written, now).Pass?
    ensures forall k :: 0 <= k < |written| ==> AtMostOneActive(table, written[k].book, now)
  {
    forall k | 0 <= k < |written| {
      CountAtMostOneIffUnique(table, written[k].book, now);
    }
  }

  /** Creating a loan that is still running succeeds exactly when no other
      loan of the book is active; a loan created already ended is accepted
      even beside one active loan of the book. */
  lemma NewLoanAcceptedIff(table: seq<Loan>, loan: Loan, now: Date)
    ensures loan.dateEnd >= now ==>
              (CheckBookId(table + [loan], [loan], now).Pass?
               <==> forall i :: 0 <= i < |table| ==> !ActiveFor(table[i], loan.book, now))
    ensures loan.dateEnd < now ==>
              (CheckBookId(table + [loan], [loan], now).Pass? <==> CountActive(table, loan.book, now) <= 1)
  {
    CountAppend(table, loan, loan.book, now);
    CountPositiveIffSomeActive(table, loan.book, now);
  }

  /** No book has two active loans. */
  predicate NoDoubleBooking(table: seq<Loan>, now: Date) {
    forall k :: 0 <= k < |table| ==> AtMostOneActive(table, table[k].book, now)
  }

  /** An accepted new loan keeps the table free of double bookings. */
  lemma AcceptedLoanPreservesNoDoubleBooking(table: seq<Loan>, loan: Loan, now: Date)
    requires NoDoubleBooking(table, now)
    requires CheckBookId(table + [loan], [loan], now).Pass?
    ensures NoDoubleBooking(table + [loan], now)
  {
    NewLoanAcceptedIff(table, loan, now);
    var t := table + [loan];
    forall k | 0 <= k < |t|
      ensures AtMostOneActive(t, t[k].book, now)
    {
      var b := t[k].book;
      forall i, j | 0 <= i < |t| && 0 <= j < |t| && ActiveFor(t[i], b, now) && ActiveFor(t[j], b, now)
        ensures i == j
      {
        if i < |table| && j < |table| {
          assert t[i] == table[i] && t[j] == table[j];
          assert AtMostOneActive(table, table[i].book, now);
        }
      }
    }
  }

  /** The date check run on written loans: a loan is rejected when it starts
      after it ends. */
  function CheckDates(written: seq<Loan>): (r: Check)
    ensures r.Pass? <==> forall k :: 0 <= k < |written| ==> written[k].dateStart <= written[k].dateEnd
    ensures r.Fail? ==> r.error == StartAfterEnd
    decreases |written|
  {
    if |written| == 0 then Pass
    else if written[0].dateStart > written[0].dateEnd then Fail(StartAfterEnd)
    else CheckDates(written[1..])
  }

  /** A loan created with the default dates: the start is the day of one
      clock reading and the end six days after the day of another (each
      default reads the clock separately). */
  function DefaultLoan(id: LoanId, member: MemberId, book: BookId, startClock: Date, endClock: Date): Loan {
    Loan(id, member, book, startClock, endClock + 6)
  }

  /** The default dates pass the date check exactly when the second clock
      reading is at most six days behind the first, so readings taken on the
      same day or on adjacent days always pass; under the same condition the
      loan is active on the day it starts. */
  lemma DefaultLoanPassesDateCheck(id: LoanId, member: MemberId, book: BookId, startClock: Date, endClock: Date)
    ensures CheckDates([DefaultLoan(id, member, book, startClock, endClock)]) == Pass
            <==> startClock <= endClock + 6
    ensures ActiveFor(DefaultLoan(id, member, book, startClock, endClock), book, startClock)
            <==> startClock <= endClock + 6
  {
  }
}
