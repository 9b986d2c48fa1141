# Library books: lifecycle and lending rules

A Dafny model of the business logic in the `my_library` module's
`models/library_book.py`. Everything else in that module is framework
declarations. The model covers two parts:

* **The book lifecycle.** A book's `state` is one of `draft`, `available`,
  `borrowed` or `lost`, and starts as `draft`. The module's own logic
  changes it only through `change_state`, which checks a fixed table of six
  allowed `(old, new)` pairs. `change_state` walks a recordset in order, moves each book, and
  raises a user error at the first pair that is not in the table.
  `make_available`, `make_borrowed` and `make_lost` call it with fixed
  targets.
* **Loans.** A book is lent when some loan of it has not yet ended. The
  end date shown for a lent book is the end of the first loan in its loan
  list, and that list is ordered latest end first. Creating a loan, or
  moving it to another book, is rejected when more than one active loan of
  the book exists, counting the written loan itself. Creating a loan, or
  writing either of its dates, is rejected when the loan starts after it
  ends.

Layout:

* `outcomes.dfy` defines `Option`.
* `book_states.dfy` (module `BookStates`) holds the states, their stored
  keys and the transition table.
* `books.dfy` (module `Books`) holds the book store, `ChangeState` and the
  three wrappers.
* `loans.dfy` (module `Loans`) holds the loan table, the lending count,
  the lent flag, the last loan end, the two write checks and the default
  dates.
* `scenario.dfy` (module `Scenario`) walks one book through its whole life.

Modelling choices:

* The record store is a `map<BookId, Book>`.
* A recordset is the `seq<BookId>` it iterates, so it may name a book twice,
  as a recordset can.
* `change_state` takes the target as a string key, as the source does. A
  key that names no state is simply not in the table.
* The walk checks each book with `CanMove`, which reads the table on
  states after parsing the target key. `BookStates.CanMoveIsTable` proves
  this gives the same answer as looking up the pair of keys in the
  six-entry table.
* The loan table is a `seq<Loan>` in the model's default order.
* Dates and the current time are integer day numbers. The clock is always
  an argument.
* A refused change returns the store as it stood when the error was
  raised, including the moves already made for earlier books in the walk.

Two behaviours of the source are easy to misread. The model keeps both as
written:

* **A refused change has side effects.** Books before the offending one
  have already been moved when `UserError` is raised. Undoing those moves
  is left to the transaction's rollback. `ChangeStateFrame` and
  `ChangeStateMoved` state what the walk itself has written at that point.
* **The `> 1` threshold counts the written loan itself.**
  `NewLoanAcceptedIff` shows this equals "no other active loan" for a new
  loan that is still running. A loan that has already ended is accepted
  beside one active loan of the same book.

## Model

| member | source | states |
|---|---|---|
| `BookStates.Parse` | Chapter06/r6_search_on_model/my_library/models/library_book.py:23-28 | Reading a key back gives the state with that key. No other string names a state. |
| `BookStates.IsAllowedTransition` | Chapter06/r6_search_on_model/my_library/models/library_book.py:56-64 | A move is allowed iff both keys name states and the target is one of the current state's successors: draft→available, available→borrowed or lost, borrowed→available or lost, lost→available. No allowed move is a self-loop or leads into draft. |
| `BookStates.CanMoveIsTable` | Chapter06/r6_search_on_model/my_library/models/library_book.py:57-64 | Checking the key pair against the table gives the same answer as parsing the target key and asking whether that state is a successor of the book's state. The walk below uses this state reading. |
| `BookStates.TableIsAsymmetric` | Chapter06/r6_search_on_model/my_library/models/library_book.py:58-63 | The table is not symmetric. borrowed→lost is allowed but lost→borrowed is not. draft→available is allowed but available→draft is not. |
| `BookStates.AllowedExactlyTable` | Chapter06/r6_search_on_model/my_library/models/library_book.py:57-64 | The set of state pairs the key table allows is exactly the six listed pairs. Every other pair of the sixteen is refused, including all self-loops and `lost→borrowed`. |
| `BookStates.RunNeverReentersDraft` | Chapter06/r6_search_on_model/my_library/models/library_book.py:58-63 | In any run of allowed moves, draft can appear only as the first state. |
| `Books.NewBook` | Chapter06/r6_search_on_model/my_library/models/library_book.py:23-28 | A new book keeps its title and starts in a state that no allowed move leads into (draft). |
| `Books.ChangeState` | Chapter06/r6_search_on_model/my_library/models/library_book.py:66-73 | The store keeps the same records. A refusal happens at a position inside the recordset and reports the requested key. |
| `Books.ChangeStateSucceedsIff` | Chapter06/r6_search_on_model/my_library/models/library_book.py:66-73 | The change succeeds iff every book of the recordset may move to the target and no book appears twice. A repeated book would be asked to move onto the state it was just given. |
| `Books.ChangeStateSucceedsIffTable` | Chapter06/r6_search_on_model/my_library/models/library_book.py:66-73 | The same condition, with each book checked against the table of key pairs. |
| `Books.ChangeStateFrame` | Chapter06/r6_search_on_model/my_library/models/library_book.py:68-70 | On either outcome, every book in the store that the walk did not handle is unchanged. |
| `Books.ChangeStateMoved` | Chapter06/r6_search_on_model/my_library/models/library_book.py:68-70 | On either outcome, every book the walk handled now has the state the target key names. Nothing else about it has changed. |
| `Books.ChangeStateStopsAtFirstOffender` | Chapter06/r6_search_on_model/my_library/models/library_book.py:68-73 | On refusal, every book before the offending position appeared once and was allowed to move. So the walk stops at the first illegal pair. |
| `Books.ChangeStateRefusal` | Chapter06/r6_search_on_model/my_library/models/library_book.py:68-73 | The error names the offending book's current state and the requested key, and that pair is not allowed. The book keeps the state it had before the call, unless it was already moved earlier in the same walk. |
| `Books.ChangeStateNeverEntersDraft` | Chapter06/r6_search_on_model/my_library/models/library_book.py:57-70 | No change puts a book into draft. A book that is in draft afterwards was in draft before and is left exactly as it was. |
| `Books.MessageIdentifiesError` | Chapter06/r6_search_on_model/my_library/models/library_book.py:72-73 | The error message names both states. Two different errors always give different messages. |
| `Books.MakeAvailable` | Chapter06/r6_search_on_model/my_library/models/library_book.py:75-76 | Same as changing to `available`. It succeeds iff no book is named twice and no book is already available. |
| `Books.MakeBorrowed` | Chapter06/r6_search_on_model/my_library/models/library_book.py:78-79 | Same as changing to `borrowed`. It succeeds iff no book is named twice and every book is available. |
| `Books.MakeLost` | Chapter06/r6_search_on_model/my_library/models/library_book.py:81-82 | Same as changing to `lost`. It succeeds iff no book is named twice and every book is available or borrowed. |
| `Loans.CountPositiveIffSomeActive` | Chapter06/r6_search_on_model/my_library/models/library_book.py:44-45 | The lending query's count for a book is positive iff some loan of that book ends on or after now. |
| `Loans.CountAtMostOneIffUnique` | Chapter06/r6_search_on_model/my_library/models/library_book.py:159-161 | The count is at most one iff no two different loans of the book are active. |
| `Loans.CheckLent` | Chapter06/r6_search_on_model/my_library/models/library_book.py:41-46 | As written: an empty recordset assigns nothing. Otherwise only the first book gets a flag, and that flag is true iff the book has an active loan. |
| `Loans.CheckLentAll` | Chapter06/r6_search_on_model/my_library/models/library_book.py:41-46 | Corrected: every book of the recordset gets a flag, and each flag is true iff that book has an active loan. |
| `Loans.CheckLentSkipsLaterBooks` | Chapter06/r6_search_on_model/my_library/models/library_book.py:43-46 | Take two books where only the second is lent. The method as written gives the second book no value. The corrected one marks it lent. |
| `Loans.LoanIds` | Chapter06/r6_search_on_model/my_library/models/library_book.py:34 | A book's loan list holds exactly the loans of that book. Its head is the first such loan in table order. |
| `Loans.LastLoanEnd` | Chapter06/r6_search_on_model/my_library/models/library_book.py:48-54 | A value is shown iff the book has an active loan. The value is the end date of the book's first loan in table order. |
| `Loans.LastLoanEndIsLatest` | Chapter06/r6_search_on_model/my_library/models/library_book.py:48-54 | With the table ordered latest end first (line 145), the value shown is the latest end of any of the book's loans. It is not before now. |
| `Loans.CheckBookId` | Chapter06/r6_search_on_model/my_library/models/library_book.py:155-163 | The write passes iff, for every written loan, at most one loan of its book matches the lending query. Otherwise the error is "Book is Lent!". |
| `Loans.AcceptedWriteLeavesOneActive` | Chapter06/r6_search_on_model/my_library/models/library_book.py:155-163 | After an accepted write, each written loan's book has at most one active loan in the table (`AtMostOneActive`). |
| `Loans.NewLoanAcceptedIff` | Chapter06/r6_search_on_model/my_library/models/library_book.py:159-163 | A new loan that is still running is accepted iff no other loan of the book is active. A new loan that has already ended is accepted iff at most one other loan of the book is active. |
| `Loans.AcceptedLoanPreservesNoDoubleBooking` | Chapter06/r6_search_on_model/my_library/models/library_book.py:155-163 | If no book had two active loans, accepting a new loan keeps it that way. |
| `Loans.CheckDates` | Chapter06/r6_search_on_model/my_library/models/library_book.py:166-170 | The write passes iff every written loan starts on or before its end. Otherwise the error is "Start date After end date!". |
| `Loans.DefaultLoanPassesDateCheck` | Chapter06/r6_search_on_model/my_library/models/library_book.py:149-150 | Each default date reads the clock separately. The defaults pass the date check exactly when the end reading is at most six days behind the start reading, so readings on the same day always pass. Under the same condition the loan is active on its start day. |
| `Scenario.LendingWalkthrough` | Chapter06/r6_search_on_model/my_library/models/library_book.py:66-82 | In order: a new book is made available, a loan from day 1 to day 10 is accepted at day 5, the book is lent and is made borrowed, and a move back to draft is refused with the book still borrowed. |

## Findings

| source | as written | input that shows it | evidently intended | confidence | as-written member | corrected member |
|---|---|---|---|---|---|---|
| Chapter06/r6_search_on_model/my_library/models/library_book.py:43-46 | `return` sits inside the `for` loop of the lent-flag compute method. Only the first book of the recordset gets a value. | A recordset of books 1 and 2 where only book 2 has a loan ending on or after now. | Every book of the recordset gets its flag. | medium, not executed | `Loans.CheckLent` | `Loans.CheckLentAll` |

In framework versions where a compute method runs over a batch, each record
of the batch starts with the field's empty value (false) before the method
runs. So a lent book after the first reads as not lent, and prefetching
can put several books in one batch.

`Loans.LastLoanEnd` uses the corrected `CheckLentAll`. For the single book
it asks about, both versions give the same flag.

## Left out

- ORM machinery is not modelled: search domains, computed-field caching, `@api` decorators and `ensure_one`. `LastLoanEnd` takes one book id instead of a recordset.
- Direct writes of the `state` field are not modelled. The field is a plain writable selection, so a direct write bypasses the transition table. `RunNeverReentersDraft` and `ChangeStateNeverEntersDraft` hold only for changes made through `change_state`.
- The double-booking check runs only when `book_id` is written, at creation or when a loan moves to another book. A write that only changes a loan's dates skips it, so a loan's end date can be moved past now while another loan of the same book is active. `AcceptedLoanPreservesNoDoubleBooking` therefore covers new loans only; date writes are not modelled as operations.
- Transaction rollback is not modelled. A refused change or a rejected loan write aborts the surrounding transaction. The model returns the state at the moment of the error and leaves discarding it to the caller.
- The clock is an argument, never read. `change_update_date` is left out because it only stores the current time.
- Dates are day numbers. The lending query compares a date field with the current date-and-time in SQL, so a loan ending today stops counting after midnight of that day. The model compares days, so that loan still counts for the whole day.
- Unset (empty) dates are not modelled. Loans always carry both dates.
- The double-booking check also assigns the book's non-stored lent flag (`count > 1`). That assignment is not modelled; only the accept/reject decision is.
- `find_book`, `create_categories` and `get_all_library_members` are plain queries or inserts with no logic of their own, so they are left out.
- `LibraryMember` is field declarations only and is left out. So are the cover and member image fields, the related field, logging and message translation. The message text is modelled untranslated.
- Concurrency is not modelled. Two transactions creating loans for the same book at once can both pass the double-booking check; the model treats each write as running alone.
- `Books.ChangeState`: its own contract states only that the store keeps the same records, plus the refusal position. The full behaviour is stated by the `ChangeState…` lemmas listed above.
