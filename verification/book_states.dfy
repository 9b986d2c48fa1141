/** The lifecycle of a library book: the four values of its `state`
    selection field, the keys under which they are stored, and the fixed
    table of moves between them. */
module BookStates {
  import opened Outcomes

  datatype State = Draft | Available | Borrowed | Lost

  /** Every new book starts as a draft (shown to users as "Unavailable"). */
  const Initial: State := Draft

  /** The key the selection field stores for each state. */
  function Key(s: State): string {
    match s
    case Draft => "draft"
    case Available => "available"
    case Borrowed => "borrowed"
    case Lost => "lost"
  }

  /** Reads a key back into a state; any other string names no state. */
  function Parse(k: string): (r: Option<State>)
    ensures r.Some? ==> Key(r.value) == k
    ensures forall s: State :: Key(s) == k ==> r == Some(s)
  {
    if k == "draft" then Some(Draft)
    else if k == "available" then Some(Available)
    else if k == "borrowed" then Some(Borrowed)
    else if k == "lost" then Some(Lost)
    else None
  }

  /** The allowed (old, new) pairs of keys, in the order they are listed. */
  const AllowedPairs: seq<(string, string)> :=
    [ ("draft", "available"),
      ("available", "borrowed"),
      ("borrowed", "available"),
      ("available", "lost"),
      ("borrowed", "lost"),
      ("lost", "available") ]

  /** A reading of the same table by state: where each state may go next. */
  function Successors(s: State): set<State> {
    match s
    case Draft => {Available}
    case Available => {Borrowed, Lost}
    case Borrowed => {Available, Lost}
    case Lost => {Available}
  }

  /** Whether a book whose state has key `current` may move to the state
      with key `target`.  Both arguments are keys, so a target naming no
      state is simply not allowed. */
  function IsAllowedTransition(current: string, target: string): (r: bool)
    ensures r <==> Parse(current).Some? && Parse(target).Some?
                   && Parse(target).value in Successors(Parse(current).value)
    ensures r ==> current != target
    ensures r ==> target != Key(Draft)
  {
    (current, target) in AllowedPairs
  }

  /** The table read on states: a book in state `s` may move to the state
      a target key names. */
  predicate CanMove(s: State, target: Option<State>) {
    target.Some? && target.value in Successors(s)
  }

  /** Checking the key pair against the table is the same as parsing the
      target key and consulting the state reading of the table. */
  lemma CanMoveIsTable(s: State, target: string)
    ensures IsAllowedTransition(Key(s), target) <==> CanMove(s, Parse(target))
  {
  }

  /** The table is not symmetric: a lost book can be found again (it becomes
      available) but cannot go straight back to borrowed, and a draft can be
      published but never withdrawn. */
  lemma TableIsAsymmetric()
    ensures IsAllowedTransition(Key(Borrowed), Key(Lost))
    ensures !IsAllowedTransition(Key(Lost), Key(Borrowed))
    ensures IsAllowedTransition(Key(Draft), Key(Available))
    ensures !IsAllowedTransition(Key(Available), Key(Draft))
  {
  }

  /** Exactly six of the sixteen state pairs are allowed: the six table
      entries, and no others. */
  lemma AllowedExactlyTable()
    ensures (set c: State, t: State | IsAllowedTransition(Key(c), Key(t)) :: (c, t))
            == {(Draft, Available), (Available, Borrowed), (Borrowed, Available),
                (Available, Lost), (Borrowed, Lost), (Lost, Available)}
  {
  }

  /** A run of the lifecycle: consecutive states joined by allowed moves. */
  predicate IsRun(path: seq<State>) {
    forall i :: 0 < i < |path| ==> IsAllowedTransition(Key(path[i - 1]), Key(path[i]))
  }

  /** Once a book has left draft it never returns: in every run, draft can
      only occur at the start. */
  lemma {:induction false} RunNeverReentersDraft(path: seq<State>)
    requires IsRun(path)
    ensures forall i :: 0 < i < |path| ==> path[i] != Draft
  {
    forall i | 0 < i < |path|
      ensures path[i] != Draft
    {
      assert IsAllowedTransition(Key(path[i - 1]), Key(path[i]));
    }
  }
}
