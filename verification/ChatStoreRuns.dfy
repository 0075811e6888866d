/** Whole runs of the chat message store. */
module ChatStoreRuns {
  import opened Basics
  import opened Ordered
  import opened ChatMessage
  import opened ChatStore

  datatype Op =
    | Add(msg: Message)
    | Remove(id: Text)
    | Get(since: int, limit: Word)
    | Store
    | Load(file: Option<seq<Message>>)

  ghost function Next(s: State, op: Op, k: nat): State {
    match op
    case Add(m) => Added(s, m, k)
    case Remove(id) => Removed(s, id)
    case Get(_, _) => Queried(s, k)
    case Store => Stored(s, k)
    case Load(file) => Loaded(s, file, k)
  }

  /** The state after a run that starts from a new store. */
  ghost function Run(ops: seq<Op>, k: nat): State {
    if ops == [] then State([], false, false)
    else Next(Run(ops[..|ops| - 1], k), ops[|ops| - 1], k)
  }

  /** The distinct messages ever added. */
  ghost function History(ops: seq<Op>): set<Message> {
    if ops == [] then {}
    else
      var before := History(ops[..|ops| - 1]);
      var op := ops[|ops| - 1];
      if op.Add? then before + {op.msg} else before
  }

  predicate Accumulates(ops: seq<Op>) {
    forall i :: 0 <= i < |ops| ==> ops[i].Add? || ops[i].Get? || ops[i].Store?
  }

  lemma NextStaysValid(s: State, op: Op, k: nat)
    requires 1 <= k && StateValid(s, k)
    ensures StateValid(Next(s, op, k), k)
  {
    match op
    case Add(m) => AddKeepsValid(s, m, k);
    case Remove(id) =>
    case Get(_, _) => CanonicalShape(s.messages, k);
    case Store => CanonicalShape(s.messages, k);
    case Load(file) =>
      if file.Some? {
        CanonicalShape(file.value, k);
      }
  }

  /** In every reachable state the store is within its bound, and the flag never
      claims an order the messages do not have. */
  lemma {:induction false} EveryRunStaysValid(ops: seq<Op>, k: nat)
    requires 1 <= k
    ensures StateValid(Run(ops, k), k)
  {
    if ops != [] {
      EveryRunStaysValid(ops[..|ops| - 1], k);
      NextStaysValid(Run(ops[..|ops| - 1], k), ops[|ops| - 1], k);
    }
  }

  /** One append keeps the greatest messages, whichever overflow path it takes. */
  lemma AddKeepsTheGreatest(s: State, m: Message, seen: set<Message>, k: nat)
    requires 1 <= k && StateValid(s, k)
    requires StrictTotalOrder(MsgLess)
    requires Elems(s.messages) == Greatest(MsgLess, seen, k)
    ensures Elems(Added(s, m, k).messages) == Greatest(MsgLess, seen + {m}, k)
  {
    var q := s.messages + [m];
    assert Elems(q) == Elems(s.messages) + {m};
    GreatestAbsorbs(MsgLess, seen, m, k);
    if |q| <= k {
      LengthBoundsElems(q);
      GreatestSize(MsgLess, Elems(q), k);
    } else if s.isSorted && Later(m, s.messages) {
      LaterStaysIncreasing(s.messages, m);
      LastAreGreatest(MsgLess, q, k);
    } else {
      CanonicalShape(q, k);
    }
  }

  lemma CanonicalKeepsBoundedSet(q: seq<Message>, k: nat)
    requires |q| <= k
    ensures Elems(Canonical(q, k)) == Elems(q)
  {
    MsgLessIsStrictTotal();
    CanonicalShape(q, k);
    LengthBoundsElems(q);
    GreatestSize(MsgLess, Elems(q), k);
  }

  /** However appends, queries and saves interleave, the stored messages are the
      `k` greatest of all distinct messages ever added. */
  lemma {:induction false} StoredAreTheGreatestEverAdded(ops: seq<Op>, k: nat)
    requires 1 <= k && Accumulates(ops)
    ensures Elems(Run(ops, k).messages) == (MsgLessIsStrictTotal(); Greatest(MsgLess, History(ops), k))
  {
    MsgLessIsStrictTotal();
    if ops == [] {
      assert Elems<Message>([]) == {};
    } else {
      var before, op := ops[..|ops| - 1], ops[|ops| - 1];
      StoredAreTheGreatestEverAdded(before, k);
      EveryRunStaysValid(before, k);
      if op.Add? {
        AddKeepsTheGreatest(Run(before, k), op.msg, History(before), k);
      } else {
        CanonicalKeepsBoundedSet(Run(before, k).messages, k);
      }
    }
  }

  /** What a query answers after any such run: nothing of the flag, the overflow
      paths or the earlier queries shows. */
  lemma QueryAnswersFromTheGreatest(ops: seq<Op>, k: nat, since: int, limit: nat)
    requires 1 <= k && Accumulates(ops)
    ensures StrictTotalOrder(MsgLess)
    ensures Limited(NotBefore(Queried(Run(ops, k), k).messages, since), limit)
         == Limited(NotBefore(Enumerate(MsgLess, Greatest(MsgLess, History(ops), k)), since), limit)
  {
    MsgLessIsStrictTotal();
    var s := Run(ops, k);
    StoredAreTheGreatestEverAdded(ops, k);
    EveryRunStaysValid(ops, k);
    CanonicalKeepsBoundedSet(s.messages, k);
    CanonicalShape(s.messages, k);
    var q := Queried(s, k).messages;
    assert Elems(q) == Elems(s.messages);
    assert Increasing(MsgLess, q);
    IncreasingIsUnique(MsgLess, q, Enumerate(MsgLess, Greatest(MsgLess, History(ops), k)));
  }

  /** The filter keeps exactly the messages that are not too old, in order. */
  lemma {:induction false} NotBeforeIsTheFilter(q: seq<Message>, since: int)
    requires Increasing(MsgLess, q)
    ensures Increasing(MsgLess, NotBefore(q, since))
    ensures forall m :: m in NotBefore(q, since) <==> m in q && since <= m.createdAt
  {
    if q != [] {
      NotBeforeIsTheFilter(q[1..], since);
      var rest := NotBefore(q[1..], since);
      assert forall m :: m in q <==> m == q[0] || m in q[1..];
      forall i | 0 <= i < |rest|
        ensures MsgLess(q[0], rest[i])
      {
        assert rest[i] in q[1..];
        var j :| 0 <= j < |q[1..]| && q[1..][j] == rest[i];
        assert q[j + 1] == rest[i];
      }
    }
  }

  lemma CanonicalIsIdempotent(q: seq<Message>, k: nat)
    ensures Canonical(Canonical(q, k), k) == Canonical(q, k)
  {
    CanonicalShape(q, k);
    CanonicalIsUnique(Canonical(q, k), Canonical(q, k), k);
  }

  /** Saving a changed store and loading the file, into any store, gives back the
      very sequence the saved store holds. */
  lemma LoadUndoesStore(s: State, other: State, k: nat)
    requires s.isChanged
    ensures Loaded(other, Some(Stored(s, k).messages), k).messages == Stored(s, k).messages
  {
    if s.messages != [] {
      CanonicalIsIdempotent(s.messages, k);
    }
  }

  /** Saving loses no message of a valid store. */
  lemma StoreKeepsTheSet(s: State, k: nat)
    requires StateValid(s, k)
    ensures Elems(Stored(s, k).messages) == Elems(s.messages)
  {
    CanonicalKeepsBoundedSet(s.messages, k);
  }

  /** The object driven through a run is in the state the run says, so the lemmas
      about runs are about the object. */
  method Replay(ops: seq<Op>, k: nat) returns (store: ChatMessagesStorage)
    requires 1 <= k < TWO_63
    ensures fresh(store) && store.Valid() && store.maxMessages == k
    ensures store.Abs() == Run(ops, k)
  {
    store := new ChatMessagesStorage(k);
    for n := 0 to |ops|
      invariant fresh(store) && store.Valid() && store.maxMessages == k
      invariant store.Abs() == Run(ops[..n], k)
    {
      assert ops[..n + 1][..n] == ops[..n];
      match ops[n] {
        case Add(m) => store.AddMessage(m);
        case Remove(id) => var _ := store.RemoveMessage(id);
        case Get(since, limit) => var _ := store.GetMessagesSince(since, limit);
        case Store => var _ := store.Store();
        case Load(file) => store.Load(file);
      }
    }
    assert ops[..|ops|] == ops;
  }

  /** A store that was given a message panics when asked for what is not older, with a
      limit of 2^63 or more. */
  method HugeLimitPanics(m: Message, k: nat, limit: Word) returns (answer: Answer)
    requires 1 <= k < TWO_63 && TWO_63 <= limit as int
    ensures answer == Panic
  {
    var store := new ChatMessagesStorage(k);
    store.AddMessage(m);
    assert store.messages == [] + [m];
    answer := store.GetMessagesSince(m.createdAt, limit);
    CanonicalShape([m], k);
    CanonicalKeepsBoundedSet([m], k);
    assert m in Elems(store.messages);
    NotBeforeKeeps(store.messages, m.createdAt, m);
  }

  lemma {:induction false} NotBeforeKeeps(q: seq<Message>, since: int, m: Message)
    requires m in q && since <= m.createdAt
    ensures NotBefore(q, since) != []
  {
    if q[0] != m {
      NotBeforeKeeps(q[1..], since, m);
    }
  }

  // ---- removal ----------------------------------------------------------

  lemma {:induction false} IndexOfFindsFirst(q: seq<Message>, id: Text)
    ensures var at := IndexOf(q, id);
            && at <= |q|
            && (at < |q| ==> q[at].id == id)
            && forall i :: 0 <= i < at ==> q[i].id != id
  {
    if q != [] && q[0].id != id {
      IndexOfFindsFirst(q[1..], id);
    }
  }

  lemma SwapRemoval(q: seq<Message>, at: nat)
    requires at < |q|
    ensures multiset(q[at := q[|q| - 1]][..|q| - 1]) == multiset(q) - multiset{q[at]}
  {
    var last := |q| - 1;
    var r := q[at := q[last]];
    assert r == r[..last] + [q[last]];
    assert multiset(r) == multiset(r[..last]) + multiset{q[last]};
    assert multiset(r) == multiset(q) - multiset{q[at]} + multiset{q[last]};
    assert multiset(r[..last]) == multiset(r) - multiset{q[last]} == multiset(q) - multiset{q[at]};
  }

  lemma InMultiset(q: seq<Message>, m: Message)
    ensures m in q <==> multiset(q)[m] > 0
  {
    assert m in q <==> m in multiset(q);
  }

  /** A removal takes one occurrence, the first with the ID, out of the multiset; it
      changes nothing exactly when no message has that ID. */
  lemma RemoveTakesOneOccurrence(s: State, id: Text)
    ensures var q, at := s.messages, IndexOf(s.messages, id);
            if exists i :: 0 <= i < |q| && q[i].id == id
            then && at < |q| && q[at].id == id && (forall i :: 0 <= i < at ==> q[i].id != id)
                 && multiset(Removed(s, id).messages) == multiset(q) - multiset{q[at]}
            else Removed(s, id) == s
  {
    IndexOfFindsFirst(s.messages, id);
    if IndexOf(s.messages, id) < |s.messages| {
      SwapRemoval(s.messages, IndexOf(s.messages, id));
    }
  }

  /** How many of the messages have the ID. */
  function Occurrences(q: seq<Message>, id: Text): nat {
    if q == [] then 0 else (if q[0].id == id then 1 else 0) + Occurrences(q[1..], id)
  }

  lemma {:induction false} OccurrencesAdd(p: seq<Message>, q: seq<Message>, id: Text)
    ensures Occurrences(p + q, id) == Occurrences(p, id) + Occurrences(q, id)
  {
    if p == [] {
      assert p + q == q;
    } else {
      assert (p + q)[1..] == p[1..] + q;
      OccurrencesAdd(p[1..], q, id);
    }
  }

  lemma {:induction false} NoOccurrence(q: seq<Message>, id: Text)
    ensures Occurrences(q, id) == 0 <==> forall m :: m in q ==> m.id != id
  {
    if q != [] {
      NoOccurrence(q[1..], id);
      assert forall m :: m in q <==> m == q[0] || m in q[1..];
    }
  }

  lemma OccurrencesOfParts(head: seq<Message>, m: Message, tail: seq<Message>, id: Text)
    ensures Occurrences(head + [m] + tail, id)
            == Occurrences(head, id) + (if m.id == id then 1 else 0) + Occurrences(tail, id)
  {
    OccurrencesAdd(head + [m], tail, id);
    OccurrencesAdd(head, [m], id);
  }

  lemma SwapRemovalParts(q: seq<Message>, at: nat)
    requires at < |q| - 1
    ensures q[at := q[|q| - 1]][..|q| - 1] == q[..at] + [q[|q| - 1]] + q[at + 1..|q| - 1]
    ensures q == (q[..at] + [q[at]] + q[at + 1..|q| - 1]) + [q[|q| - 1]] + []
  {
  }

  lemma SwapRemovalOccurrences(q: seq<Message>, at: nat, id: Text)
    requires at < |q|
    ensures Occurrences(q[at := q[|q| - 1]][..|q| - 1], id)
            == Occurrences(q, id) - (if q[at].id == id then 1 else 0)
  {
    var last := q[|q| - 1];
    if at == |q| - 1 {
      assert q[at := last][..at] == q[..at] && q == q[..at] + [last] + [];
      OccurrencesOfParts(q[..at], last, [], id);
    } else {
      var head, tail := q[..at], q[at + 1..|q| - 1];
      SwapRemovalParts(q, at);
      OccurrencesOfParts(head, last, tail, id);
      OccurrencesOfParts(head, q[at], tail, id);
      OccurrencesOfParts(head + [q[at]] + tail, last, [], id);
    }
  }

  /** A removal takes one message of the ID and none of any other, so no message with
      the ID remains exactly when one stored message had it. */
  lemma RemovedIsGoneIffStoredOnce(s: State, id: Text, other: Text)
    requires IndexOf(s.messages, id) < |s.messages|
    ensures var q, r := s.messages, Removed(s, id).messages;
            && Occurrences(r, other) == Occurrences(q, other) - (if other == id then 1 else 0)
            && ((forall m :: m in r ==> m.id != id) <==> Occurrences(q, id) == 1)
  {
    IndexOfFindsFirst(s.messages, id);
    SwapRemovalOccurrences(s.messages, IndexOf(s.messages, id), other);
    SwapRemovalOccurrences(s.messages, IndexOf(s.messages, id), id);
    NoOccurrence(Removed(s, id).messages, id);
  }

  /** The very message taken is gone exactly when it was stored once. */
  lemma TakenIsGoneIffStoredOnce(s: State, id: Text)
    requires IndexOf(s.messages, id) < |s.messages|
    ensures var m := s.messages[IndexOf(s.messages, id)];
            m !in Removed(s, id).messages <==> multiset(s.messages)[m] == 1
  {
    var at := IndexOf(s.messages, id);
    var m, rest := s.messages[at], Removed(s, id).messages;
    IndexOfFindsFirst(s.messages, id);
    RemoveTakesOneOccurrence(s, id);
    InMultiset(s.messages, m);
    InMultiset(rest, m);
    assert multiset(rest)[m] == multiset(s.messages)[m] - 1;
  }

  lemma DuplicateIsDropped(m: Message, k: nat)
    requires 1 <= k
    ensures Canonical([m, m], k) == [m]
  {
    assert Elems([m]) == Elems([m, m]);
    CanonicalIsUnique([m, m], [m], k);
  }

  lemma AddedTwice(m: Message, k: nat)
    requires 2 <= k
    ensures Added(Added(State([], false, false), m, k), m, k) == State([m, m], false, true)
  {
    var once := Added(State([], false, false), m, k);
    assert once.messages == [] + [m] && once.isChanged && !once.isSorted;
    assert once.messages + [m] == [m, m];
  }

  lemma RemoveFirst(s: State, id: Text)
    requires s.messages != [] && s.messages[0].id == id
    requires |s.messages| == 2 ==> s.messages[0] == s.messages[1]
    requires |s.messages| <= 2
    ensures Removed(s, id).messages == s.messages[..|s.messages| - 1]
  {
    assert IndexOf(s.messages, id) == 0;
  }

  /** A message added twice to a new store survives its removal, unless a query
      came between. */
  lemma DuplicateSurvivesRemoval(m: Message, k: nat)
    requires 2 <= k
    ensures var twice := Next(Next(State([], false, false), Add(m), k), Add(m), k);
            && m in Next(twice, Remove(m.id), k).messages
            && Next(Next(twice, Get(0, 0), k), Remove(m.id), k).messages == []
  {
    AddedTwice(m, k);
    DuplicateIsDropped(m, k);
    var twice := State([m, m], false, true);
    RemoveFirst(twice, m.id);
    assert twice.messages[..1][0] == m;
    RemoveFirst(State([m], true, true), m.id);
  }

  // ---- what is saved ----------------------------------------------------

  /** The operation adds a message, or removes one of an ID that is stored at that point. */
  ghost predicate Changes(op: Op, stored: seq<Message>) {
    op.Add? || (op.Remove? && exists m :: m in stored && m.id == op.id)
  }

  lemma NextChangesIff(s: State, op: Op, k: nat)
    ensures Next(s, op, k).isChanged <==> s.isChanged || Changes(op, s.messages)
  {
    if op.Remove? {
      IndexOfFindsFirst(s.messages, op.id);
      if m :| m in s.messages && m.id == op.id {
        var i :| 0 <= i < |s.messages| && s.messages[i] == m;
        assert IndexOf(s.messages, op.id) <= i;
      }
    }
  }

  ghost predicate ChangesAt(ops: seq<Op>, k: nat, i: int) {
    0 <= i < |ops| && Changes(ops[i], Run(ops[..i], k).messages)
  }

  lemma ChangesBefore(ops: seq<Op>, k: nat, n: nat, i: int)
    requires i < n <= |ops|
    ensures ChangesAt(ops[..n], k, i) <==> ChangesAt(ops, k, i)
  {
    if 0 <= i {
      assert ops[..n][..i] == ops[..i];
    }
  }

  /** A store is marked changed exactly when some operation of its run added a message
      or removed one. */
  lemma {:induction false} ChangedIffAddedOrRemoved(ops: seq<Op>, k: nat)
    ensures Run(ops, k).isChanged <==> exists i :: ChangesAt(ops, k, i)
  {
    if ops != [] {
      var n := |ops| - 1;
      ChangedIffAddedOrRemoved(ops[..n], k);
      NextChangesIff(Run(ops[..n], k), ops[n], k);
      assert ChangesAt(ops, k, n) <==> Changes(ops[n], Run(ops[..n], k).messages);
      if i :| ChangesAt(ops[..n], k, i) {
        ChangesBefore(ops, k, n, i);
      }
      if i :| ChangesAt(ops, k, i) && i < n {
        ChangesBefore(ops, k, n, i);
      }
    }
  }

  /** Saving after any run and loading what is then in the file, into any store, gives
      the saved messages if the run added or removed one; otherwise nothing is written. */
  method SaveAndReload(ops: seq<Op>, k: nat, other: ChatMessagesStorage) returns (saved: Option<seq<Message>>)
    requires 1 <= k < TWO_63 && other.Valid() && other.maxMessages == k
    modifies other
    ensures saved.Some? <==> exists i :: ChangesAt(ops, k, i)
    ensures saved.Some? ==> saved.value == Run(ops + [Store], k).messages == other.messages
    ensures saved.None? ==> Run(ops + [Store], k) == Run(ops, k) && other.messages == old(other.messages)
  {
    var store := Replay(ops, k);
    ChangedIffAddedOrRemoved(ops, k);
    assert (ops + [Store])[..|ops|] == ops;
    saved := store.Store();
    if saved.Some? {
      LoadUndoesStore(Run(ops, k), other.Abs(), k);
      other.Load(saved);
    }
  }

  /** A removal after a load is saved: one message fewer has the ID, the store is marked
      changed, and what is saved are the messages that are left. */
  lemma RemovalIsSaved(file: seq<Message>, id: Text, k: nat)
    requires 1 <= k
    requires Occurrences(Canonical(file, k), id) > 0
    ensures var s := Run([Load(Some(file)), Remove(id)], k);
            && s.isChanged
            && Occurrences(s.messages, id) == Occurrences(Canonical(file, k), id) - 1
            && Elems(Stored(s, k).messages) == Elems(s.messages)
  {
    var load, both := [Load(Some(file))], [Load(Some(file)), Remove(id)];
    assert both[..1] == load && load[..0] == [];
    var loaded := Run(load, k);
    LoadedIsCanonical(file, k);
    EveryRunStaysValid(both, k);
    NoOccurrence(loaded.messages, id);
    var m :| m in loaded.messages && m.id == id;
    NextChangesIff(loaded, Remove(id), k);
    IndexOfFindsFirst(loaded.messages, id);
    RemovedIsGoneIffStoredOnce(loaded, id, id);
    StoreKeepsTheSet(Run(both, k), k);
  }

  /** A load without a file forgets all messages: every query after it answers nothing. */
  lemma MissingFileForgets(ops: seq<Op>, k: nat, since: int, limit: nat)
    ensures var s := Run(ops + [Load(None)], k);
            s.messages == [] && Limited(NotBefore(Queried(s, k).messages, since), limit) == []
  {
    assert (ops + [Load(None)])[..|ops|] == ops;
  }

  lemma LoadedIsCanonical(file: seq<Message>, k: nat)
    ensures Run([Load(Some(file))], k).messages == Canonical(file, k)
  {
    assert [Load(Some(file))][..0] == [];
    if file == [] {
      CanonicalIsUnique([], [], k);
    }
  }

  /** When the list claims to be sorted after an append: a full store always does, any
      other when it did before and all its messages are older. */
  lemma AddKeepsTheFlagIff(s: State, m: Message, k: nat)
    requires StateValid(s, k)
    ensures Added(s, m, k).isSorted <==>
            |s.messages| == k || (s.isSorted && forall x :: x in s.messages ==> x.createdAt < m.createdAt)
  {
    if s.isSorted && s.messages != [] {
      InOrderOfTime(s.messages);
      assert s.messages[|s.messages| - 1] in s.messages;
    }
  }

  /** When the list claims to be sorted after any other operation: after a query, a save
      of changes or a load, if there was anything to sort; not after a removal; and
      otherwise if it did before. */
  lemma OthersSetTheFlag(s: State, op: Op, k: nat)
    requires !op.Add?
    ensures Next(s, op, k).isSorted <==>
            match op
            case Get(_, _) => s.isSorted || s.messages != []
            case Store => s.isSorted || (s.isChanged && s.messages != [])
            case Load(file) => s.isSorted || (file.Some? && file.value != [])
            case _ => s.isSorted && !Changes(op, s.messages)
  {
    NextChangesIff(s.(isChanged := false), op, k);
  }

  /** A limit keeps that many of the last messages, or all if there are no more; zero is
      no limit. */
  lemma LimitKeepsTheLast(q: seq<Message>, limit: nat)
    ensures Limited(q, 0) == q
    ensures 0 < limit ==> |Limited(q, limit)| == if |q| < limit then |q| else limit
    ensures exists head :: q == head + Limited(q, limit)
  {
    var r := Limited(q, limit);
    assert q == q[..|q| - |r|] + r;
  }
}
