/** Books and the guarded change of their lifecycle state.  The record store
    is a map from record ids to books; a recordset is the sequence of ids it
    walks, in order, and may name the same book more than once. */
module Books {
  import opened Outcomes
  import opened BookStates

  type BookId = nat

  /** A book record, reduced to the fields the lifecycle logic touches. */
  datatype Book = Book(name: string, state: State)

  type Store = map<BookId, Book>

  /** A book as created: its state takes the field's default. */
  function NewBook(name: string): (b: Book)
    ensures b.name == name
    ensures forall s: State :: !IsAllowedTransition(Key(s), Key(b.state))
  {
    Book(name, Initial)
  }

  /** The user error raised for a refused move: the book's current state and
      the requested key. */
  datatype TransitionError = IllegalTransition(current: State, target: string)

  /** The fixed pieces of the error text, spelled as in the source. */
  const MessageLead := "Moving from "
  const MessageJoin := " to "
  const MessageTail := " is not allowd"

  /** The text of the error, with both states substituted in. */
  function Message(e: TransitionError): string {
    MessageLead + Key(e.current) + MessageJoin + e.target + MessageTail
  }

  /** Either every book of the recordset moved, or the walk stopped at
      position `at` of the recordset with an error; `store` is the store at
      that point (the moves made before the error included). */
  datatype ChangeOutcome =
    | Changed(store: Store)
    | Refused(store: Store, at: nat, error: TransitionError)

  predicate InStore(store: Store, records: seq<BookId>) {
    forall i :: 0 <= i < |records| ==> records[i] in store
  }

  predicate Distinct(records: seq<BookId>) {
    forall i, j :: 0 <= i < j < |records| ==> records[i] != records[j]
  }

  /** Every book of the recordset, as it stands in `store`, may move to the
      state `target` names. */
  predicate AllAllowed(store: Store, records: seq<BookId>, target: string)
    requires InStore(store, records)
  {
    forall i :: 0 <= i < |records| ==> CanMove(store[records[i]].state, Parse(target))
  }

  /** The store after one book is given the state `target` names. */
  function MoveOne(store: Store, id: BookId, target: string): Store
    requires id in store && Parse(target).Some?
  {
    store[id := store[id].(state := Parse(target).value)]
  }

  /** Walks the recordset in order: each book whose move to `target` the
      table allows (checked on states, see `CanMoveIsTable`) gets the new
      state, and the first refused move stops the walk with an error naming
      both states. */
  function ChangeState(store: Store, records: seq<BookId>, target: string): (r: ChangeOutcome)
    requires InStore(store, records)
    ensures r.store.Keys == store.Keys
    ensures r.Refused? ==> r.at < |records| && r.error.target == target
    decreases |records|
  {
    if |records| == 0 then Changed(store)
    else
      var id := records[0];
      var book := store[id];
      if CanMove(book.state, Parse(target)) then
        match ChangeState(MoveOne(store, id, target), records[1..], target)
        case Changed(s) => Changed(s)
        case Refused(s, k, e) => Refused(s, k + 1, e)
      else
        Refused(store, 0, IllegalTransition(book.state, target))
  }

  /** The ids the walk handled before it ended: all of them on success, the
      ones before the refused position otherwise. */
  function Processed(r: ChangeOutcome, records: seq<BookId>): seq<BookId>
    requires r.Refused? ==> r.at <= |records|
  {
    if r.Changed? then records else records[..r.at]
  }

  lemma DistinctCons(id: BookId, rest: seq<BookId>)
    ensures Distinct([id] + rest) <==> id !in rest && Distinct(rest)
  {
    var s := [id] + rest;
    if id !in rest && Distinct(rest) {
      forall i, j | 0 <= i < j < |s|
        ensures s[i] != s[j]
      {
        assert s[j] == rest[j - 1];
        if i > 0 {
          assert s[i] == rest[i - 1];
        }
      }
    }
    if Distinct(s) {
      forall i, j | 0 <= i < j < |rest|
        ensures rest[i] != rest[j]
      {
        assert s[i + 1] == rest[i] && s[j + 1] == rest[j];
      }
      forall j | 0 <= j < |rest|
        ensures rest[j] != id
      {
        assert s[0] == id && s[j + 1] == rest[j];
      }
    }
  }

  lemma AllAllowedCons(store: Store, id: BookId, rest: seq<BookId>, target: string)
    requires id in store && InStore(store, rest)
    ensures InStore(store, [id] + rest)
    ensures AllAllowed(store, [id] + rest, target)
            <==> CanMove(store[id].state, Parse(target)) && AllAllowed(store, rest, target)
  {
    var s := [id] + rest;
    if AllAllowed(store, s, target) {
      forall j | 0 <= j < |rest|
        ensures CanMove(store[rest[j]].state, Parse(target))
      {
        assert s[j + 1] == rest[j];
      }
      assert s[0] == id;
    }
    if CanMove(store[id].state, Parse(target)) && AllAllowed(store, rest, target) {
      forall i | 0 < i < |s|
        ensures CanMove(store[s[i]].state, Parse(target))
      {
        assert s[i] == rest[i - 1];
      }
    }
  }

  /** After a move the book holds the target state, which cannot move to
      itself; so a rest that is still allowed does not name that book, and
      judging the rest before or after the move is the same. */
  lemma MovedBookBlocksRest(store: Store, id: BookId, rest: seq<BookId>, target: string)
    requires id in store && InStore(store, rest)
    requires CanMove(store[id].state, Parse(target))
    ensures InStore(MoveOne(store, id, target), rest)
    ensures AllAllowed(MoveOne(store, id, target), rest, target) ==> id !in rest
    ensures id !in rest ==> (AllAllowed(store, rest, target) <==> AllAllowed(MoveOne(store, id, target), rest, target))
  {
    var next := MoveOne(store, id, target);
    if AllAllowed(next, rest, target) {
      forall j | 0 <= j < |rest|
        ensures rest[j] != id
      {
        assert CanMove(next[rest[j]].state, Parse(target));
      }
    }
    assert forall j :: 0 <= j < |rest| && rest[j] != id ==> next[rest[j]] == store[rest[j]];
  }

  /** One allowed move at the head of a recordset: the whole recordset is
      repetition-free and allowed from `store` exactly when the rest is,
      judged from the store after the move. */
  lemma ConsStep(store: Store, id: BookId, rest: seq<BookId>, target: string)
    requires id in store && InStore(store, rest)
    requires CanMove(store[id].state, Parse(target))
    ensures InStore(MoveOne(store, id, target), rest)
    ensures Distinct([id] + rest) && AllAllowed(store, [id] + rest, target)
            <==> Distinct(rest) && AllAllowed(MoveOne(store, id, target), rest, target)
  {
    DistinctCons(id, rest);
    AllAllowedCons(store, id, rest, target);
    MovedBookBlocksRest(store, id, rest, target);
  }

  /** The change succeeds exactly when every book of the recordset may move
      to the target and no book is named twice (a repeated book would be
      asked to move onto the state it was just given, and no state may move
      to itself). */
  lemma {:induction false} ChangeStateSucceedsIff(store: Store, records: seq<BookId>, target: string)
    requires InStore(store, records)
    ensures ChangeState(store, records, target).Changed?
            <==> Distinct(records) && AllAllowed(store, records, target)
    decreases |records|
  {
    if |records| > 0 {
      var id := records[0];
      var tail := records[1..];
      assert records == [id] + tail;
      if CanMove(store[id].state, Parse(target)) {
        ConsStep(store, id, tail, target);
        ChangeStateSucceedsIff(MoveOne(store, id, target), tail, target);
      } else {
        assert !AllAllowed(store, records, target);
      }
    }
  }

  /** On either outcome, every book the walk did not handle is untouched. */
  lemma {:induction false} ChangeStateFrame(store: Store, records: seq<BookId>, target: string)
    requires InStore(store, records)
    ensures var r := ChangeState(store, records, target);
            forall id :: id in store && id !in Processed(r, records) ==> r.store[id] == store[id]
    decreases |records|
  {
    var r := ChangeState(store, records, target);
    if |records| > 0 {
      var id := records[0];
      var tail := records[1..];
      if CanMove(store[id].state, Parse(target)) {
        var next := MoveOne(store, id, target);
        ChangeStateFrame(next, tail, target);
        var r' := ChangeState(next, tail, target);
        var done' := Processed(r', tail);
        var done := Processed(r, records);
        assert done == [id] + done' by {
          if r'.Refused? {
            assert records[..r'.at + 1] == [id] + tail[..r'.at];
          }
        }
        forall x | x in store && x !in done
          ensures r.store[x] == store[x]
        {
          assert x != id && x !in done' && next[x] == store[x];
        }
      }
    }
  }

  /** On either outcome, every book the walk handled now has the state the
      target key names, and nothing else about it has changed. */
  lemma {:induction false} ChangeStateMoved(store: Store, records: seq<BookId>, target: string)
    requires InStore(store, records)
    ensures var r := ChangeState(store, records, target);
            forall id :: id in Processed(r, records) ==>
              && id in store && Parse(target).Some?
              && r.store[id] == store[id].(state := Parse(target).value)
    decreases |records|
  {
    var r := ChangeState(store, records, target);
    if |records| > 0 {
      var id := records[0];
      var tail := records[1..];
      if CanMove(store[id].state, Parse(target)) {
        var next := MoveOne(store, id, target);
        ChangeStateMoved(next, tail, target);
        ChangeStateFrame(next, tail, target);
        var r' := ChangeState(next, tail, target);
        var done' := Processed(r', tail);
        var done := Processed(r, records);
        assert done == [id] + done' by {
          if r'.Refused? {
            assert records[..r'.at + 1] == [id] + tail[..r'.at];
          }
        }
        forall x | x in done
          ensures x in store && r.store[x] == store[x].(state := Parse(target).value)
        {
          if x in done' {
            assert r'.store[x] == next[x].(state := Parse(target).value);
          } else {
            assert x == id && r'.store[id] == next[id];
          }
        }
      } else {
        assert Processed(r, records) == [];
      }
    }
  }

  /** A refused change stops at the first offending book: every book before
      it was named once and was allowed to move. */
  lemma {:induction false} ChangeStateStopsAtFirstOffender(store: Store, records: seq<BookId>, target: string)
    requires InStore(store, records)
    ensures var r := ChangeState(store, records, target);
            r.Refused? ==> Distinct(records[..r.at]) && AllAllowed(store, records[..r.at], target)
    decreases |records|
  {
    var r := ChangeState(store, records, target);
    if |records| > 0 && r.Refused? {
      var id := records[0];
      var tail := records[1..];
      if CanMove(store[id].state, Parse(target)) {
        var next := MoveOne(store, id, target);
        ChangeStateStopsAtFirstOffender(next, tail, target);
        var k' := ChangeState(next, tail, target).at;
        assert records[..k' + 1] == [id] + tail[..k'];
        ConsStep(store, id, tail[..k'], target);
      }
    }
  }

  /** The error of a refused change names the state the offending book holds
      at that moment and the requested key; that pair is not in the table,
      and the book's state is the one it had before the call unless the book
      was already moved earlier in the same walk. */
  lemma {:induction false} ChangeStateRefusal(store: Store, records: seq<BookId>, target: string)
    requires InStore(store, records)
    ensures var r := ChangeState(store, records, target);
            r.Refused? ==>
              && r.error.current == r.store[records[r.at]].state
              && !IsAllowedTransition(Key(r.error.current), target)
              && (records[r.at] in records[..r.at] || r.error.current == store[records[r.at]].state)
    decreases |records|
  {
    var r := ChangeState(store, records, target);
    if |records| > 0 && r.Refused? {
      var id := records[0];
      var tail := records[1..];
      if CanMove(store[id].state, Parse(target)) {
        var next := MoveOne(store, id, target);
        ChangeStateRefusal(next, tail, target);
        var r' := ChangeState(next, tail, target);
        var k' := r'.at;
        assert r == Refused(r'.store, k' + 1, r'.error);
        var pre := records[..k' + 1];
        var x := tail[k'];
        assert records[k' + 1] == x;
        if x in tail[..k'] {
          var j :| 0 <= j < k' && tail[..k'][j] == x;
          assert pre[j + 1] == x;
        } else if x == id {
          assert pre[0] == id;
        } else {
          assert next[x] == store[x];
        }
      } else {
        CanMoveIsTable(store[id].state, target);
      }
    }
  }

  /** No change ever puts a book into draft: a book that is in draft
      afterwards was in draft before and was left exactly as it was. */
  lemma ChangeStateNeverEntersDraft(store: Store, records: seq<BookId>, target: string)
    requires InStore(store, records)
    ensures var r := ChangeState(store, records, target);
            forall id :: id in store && r.store[id].state == Draft ==> r.store[id] == store[id]
  {
    var r := ChangeState(store, records, target);
    ChangeStateFrame(store, records, target);
    ChangeStateMoved(store, records, target);
    if |records| > 0 && CanMove(store[records[0]].state, Parse(target)) {
      assert Parse(target).value != Draft;
    } else {
      assert Processed(r, records) == [];
    }
  }

  /** The message names both states, so it determines the error it reports. */
  lemma MessageIdentifiesError(e1: TransitionError, e2: TransitionError)
    ensures Message(e1) == Message(e2) ==> e1 == e2
  {
    if Message(e1) == Message(e2) {
      MessageParts(e1);
      MessageParts(e2);
      assert Key(e1.current)[0] == Key(e2.current)[0];
    }
  }

  /** Where the two substituted parts sit in the message: the state key right
      after `MessageLead`, the requested key between `MessageJoin` and
      `MessageTail`. */
  lemma MessageParts(e: TransitionError)
    ensures var m := Message(e);
            var before := |MessageLead| + |Key(e.current)| + |MessageJoin|;
            && |m| == before + |e.target| + |MessageTail|
            && m[|MessageLead|] == Key(e.current)[0]
            && m[before..|m| - |MessageTail|] == e.target
  {
  }

  /** The condition under which a change to `target` succeeds, restated with
      the table check written against the string keys. */
  lemma ChangeStateSucceedsIffTable(store: Store, records: seq<BookId>, target: string)
    requires InStore(store, records)
    ensures ChangeState(store, records, target).Changed?
            <==> Distinct(records)
                 && forall i :: 0 <= i < |records| ==> IsAllowedTransition(Key(store[records[i]].state), target)
  {
    ChangeStateSucceedsIff(store, records, target);
    forall i | 0 <= i < |records| {
      CanMoveIsTable(store[records[i]].state, target);
    }
  }

  /** Make every book of the recordset available. */
  function MakeAvailable(store: Store, records: seq<BookId>): (r: ChangeOutcome)
    requires InStore(store, records)
    ensures r == ChangeState(store, records, Key(Available))
    ensures r.Changed? <==> Distinct(records)
                            && forall i :: 0 <= i < |records| ==> store[records[i]].state != Available
  {
    ChangeStateSucceedsIff(store, records, Key(Available));
    ChangeState(store, records, Key(Available))
  }

  /** Mark every book of the recordset borrowed. */
  function MakeBorrowed(store: Store, records: seq<BookId>): (r: ChangeOutcome)
    requires InStore(store, records)
    ensures r == ChangeState(store, records, Key(Borrowed))
    ensures r.Changed? <==> Distinct(records)
                            && forall i :: 0 <= i < |records| ==> store[records[i]].state == Available
  {
    ChangeStateSucceedsIff(store, records, Key(Borrowed));
    ChangeState(store, records, Key(Borrowed))
  }

  /** Mark every book of the recordset lost. */
  function MakeLost(store: Store, records: seq<BookId>): (r: ChangeOutcome)
    requires InStore(store, records)
    ensures r == ChangeState(store, records, Key(Lost))
    ensures r.Changed? <==> Distinct(records)
                            && forall i :: 0 <= i < |records| ==> store[records[i]].state in {Available, Borrowed}
  {
    ChangeStateSucceedsIff(store, records, Key(Lost));
    ChangeState(store, records, Key(Lost))
  }
}
