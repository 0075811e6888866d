/** The bounded chat message store: what each operation does to the state, the
    store itself as a mutable object, and what the operations keep. */
module ChatStore {
  import opened Basics
  import opened Ordered
  import opened ChatMessage

  /** The mutable fields of the store. */
  datatype State = State(messages: seq<Message>, isSorted: bool, isChanged: bool)

  /** What a query hands back: messages, or a slice bound out of range. */
  datatype Answer = Messages(value: seq<Message>) | Panic

  // ---- machine integers -------------------------------------------------

  const TWO_63: int := 0x8000_0000_0000_0000
  const TWO_64: int := 0x1_0000_0000_0000_0000

  /** A 64-bit `uint`. */
  newtype Word = x: int | 0 <= x < TWO_64

  /** Two's complement wrap-around to a 64-bit `int`. */
  function Wrap(x: int): int {
    (x + TWO_63) % TWO_64 - TWO_63
  }

  // ---- specification of the operations ----------------------------------

  /** The increasing list of the `k` greatest distinct messages of `q`. */
  ghost function Canonical(q: seq<Message>, k: nat): seq<Message> {
    MsgLessIsStrictTotal();
    Enumerate(MsgLess, Greatest(MsgLess, Elems(q), k))
  }

  ghost function Canonicalised(s: State, k: nat): State {
    if s.messages == [] then s else State(Canonical(s.messages, k), true, s.isChanged)
  }

  predicate Later(m: Message, q: seq<Message>) {
    q == [] || q[|q| - 1].createdAt < m.createdAt
  }

  ghost function Added(s: State, m: Message, k: nat): State {
    var sorted := s.isSorted && Later(m, s.messages);
    var q := s.messages + [m];
    if |q| <= k then State(q, sorted, true)
    else if sorted then State(LastN(q, k), true, true)
    else State(Canonical(q, k), true, true)
  }

  function IndexOf(q: seq<Message>, id: Text): nat {
    if q == [] || q[0].id == id then 0 else 1 + IndexOf(q[1..], id)
  }

  /** The first message with the ID, if any, is overwritten by the last one. */
  ghost function Removed(s: State, id: Text): State {
    var at := IndexOf(s.messages, id);
    if at < |s.messages|
    then State(s.messages[at := s.messages[|s.messages| - 1]][..|s.messages| - 1], false, true)
    else s
  }

  ghost function Queried(s: State, k: nat): State {
    if s.isSorted then s else Canonicalised(s, k)
  }

  ghost function Stored(s: State, k: nat): State {
    if s.isChanged then Canonicalised(s, k) else s
  }

  ghost function Loaded(s: State, file: Option<seq<Message>>, k: nat): State {
    if file.None? then s.(messages := []) else Canonicalised(s.(messages := file.value), k)
  }

  /** The messages not older than `since`, by a plain filter. */
  function NotBefore(q: seq<Message>, since: int): seq<Message> {
    if q == [] then []
    else (if q[0].createdAt < since then [] else [q[0]]) + NotBefore(q[1..], since)
  }

  /** At most the last `limit` of them; zero stands for no limit. */
  function Limited(q: seq<Message>, limit: nat): seq<Message> {
    if limit == 0 then q else LastN(q, limit)
  }

  ghost predicate StateValid(s: State, k: nat) {
    && |s.messages| <= k
    && (s.isSorted ==> Increasing(MsgLess, s.messages))
  }

  // ---- the store --------------------------------------------------------

  class ChatMessagesStorage {
    const maxMessages: nat
    var isSorted: bool
    var isChanged: bool
    var messages: seq<Message>

    ghost function Abs(): State
      reads this
    {
      State(messages, isSorted, isChanged)
    }

    ghost predicate Valid()
      reads this
    {
      && 1 <= maxMessages < TWO_63
      && StateValid(Abs(), maxMessages)
    }

    constructor (maxMessages: nat)
      requires 1 <= maxMessages < TWO_63
      ensures Valid() && this.maxMessages == maxMessages
      ensures Abs() == State([], false, false)
    {
      this.maxMessages := maxMessages;
      isSorted, isChanged, messages := false, false, [];
    }

    /** Leaves out what equals the last message kept. */
    static method Deduplicated(sorted: seq<Message>) returns (dedup: seq<Message>)
      requires Ascending(MsgLess, sorted) && sorted != []
      requires StrictTotalOrder(MsgLess)
      ensures Increasing(MsgLess, dedup) && Elems(dedup) == Elems(sorted)
    {
      dedup := [sorted[0]];
      for n := 1 to |sorted|
        invariant dedup != [] && dedup[|dedup| - 1] == sorted[n - 1]
        invariant forall m :: m in dedup <==> m in sorted[..n]
        invariant Ascending(MsgLess, dedup)
        invariant forall i :: 0 < i < |dedup| ==> dedup[i - 1] != dedup[i]
      {
        assert sorted[..n + 1] == sorted[..n] + [sorted[n]];
        if sorted[n] == dedup[|dedup| - 1] {
          continue;
        }
        forall i | 0 <= i < |dedup|
          ensures !MsgLess(sorted[n], dedup[i])
        {
          assert dedup[i] in sorted[..n];
        }
        dedup := dedup + [sorted[n]];
      }
      assert sorted[..|sorted|] == sorted;
      AscendingIsIncreasing(MsgLess, dedup);
    }

    method SortAndDeduplicateAndTruncate()
      requires 1 <= maxMessages
      modifies this
      ensures Abs() == Canonicalised(old(Abs()), maxMessages)
      ensures messages == Canonical(old(messages), maxMessages)
      ensures |messages| <= maxMessages && Increasing(MsgLess, messages)
    {
      MsgLessIsStrictTotal();
      if messages == [] {
        CanonicalIsUnique([], [], maxMessages);
        return;
      }
      var sorted := SortSlice(MsgLess, messages);
      SameElems(sorted, messages);
      isSorted := true;
      var dedup := Deduplicated(sorted);
      CanonicalIsUnique(messages, dedup, maxMessages);
      messages := dedup;
      if |messages| > maxMessages {
        messages := messages[|messages| - maxMessages..];
      }
    }

    method AddMessage(msg: Message)
      requires Valid()
      modifies this
      ensures Valid() && Abs() == Added(old(Abs()), msg, maxMessages)
    {
      ghost var was := Abs();
      AddKeepsValid(was, msg, maxMessages);
      if |messages| > 0 && !(msg.createdAt > messages[|messages| - 1].createdAt) {
        isSorted := false;
      }
      messages := messages + [msg];
      isChanged := true;
      assert Abs() == State(was.messages + [msg], was.isSorted && Later(msg, was.messages), true);
      if |messages| <= maxMessages {
        return;
      }
      if isSorted {
        messages := messages[|messages| - maxMessages..];
        return;
      }
      SortAndDeduplicateAndTruncate();
    }

    method RemoveMessage(msgID: Text) returns (found: bool)
      requires Valid()
      modifies this
      ensures Valid() && Abs() == Removed(old(Abs()), msgID)
      ensures found <==> exists i :: 0 <= i < |old(messages)| && old(messages)[i].id == msgID
    {
      ghost var was := messages;
      for idx := 0 to |messages|
        invariant messages == was && Abs() == old(Abs())
        invariant forall i :: 0 <= i < idx ==> messages[i].id != msgID
        invariant IndexOf(messages, msgID) == idx + IndexOf(messages[idx..], msgID)
      {
        if messages[idx].id != msgID {
          assert messages[idx..][1..] == messages[idx + 1..];
          continue;
        }
        messages := messages[idx := messages[|messages| - 1]];
        messages := messages[..|messages| - 1];
        isSorted := false;
        isChanged := true;
        return true;
      }
      return false;
    }

    /** The library's binary search for the first message not before `since`. */
    method Search(since: int) returns (idx: nat)
      requires Increasing(MsgLess, messages)
      ensures idx <= |messages|
      ensures forall i :: 0 <= i < idx ==> messages[i].createdAt < since
      ensures forall i :: idx <= i < |messages| ==> since <= messages[i].createdAt
    {
      InOrderOfTime(messages);
      var j := |messages|;
      idx := 0;
      while idx < j
        invariant 0 <= idx <= j <= |messages|
        invariant forall i :: 0 <= i < idx ==> messages[i].createdAt < since
        invariant forall i :: j <= i < |messages| ==> since <= messages[i].createdAt
      {
        var h := (idx + j) / 2;
        if messages[h].createdAt < since {
          idx := h + 1;
        } else {
          j := h;
        }
      }
    }

    /** Applies the count limit to the index, in machine integers. */
    static method CorrectIndex(n: nat, idx: nat, limit: Word) returns (corrected: int)
      requires idx < n < TWO_63
      ensures limit as int < TWO_63 ==>
              corrected == if limit > 0 && n - idx > limit as int then n - limit as int else idx
      ensures TWO_63 <= limit as int ==> !(0 <= corrected <= n)
    {
      WrappedIndex(n, limit);
      corrected := idx;
      if limit > 0 && n - idx > Wrap(limit as int) {
        corrected := Wrap(n - Wrap(limit as int));
      }
    }

    /** The last messages from the index on; a bound out of range panics. */
    static method FromIndex(q: seq<Message>, idx: nat, limit: Word) returns (answer: Answer)
      requires idx < |q| < TWO_63
      ensures answer == if limit as int < TWO_63 then Messages(Limited(q[idx..], limit as nat)) else Panic
    {
      var n := |q|;
      var from := CorrectIndex(n, idx, limit);
      if from < n && from < 0 {
        return Panic; // messages[idx] is read for the sanity report
      }
      if !(0 <= from <= n) {
        return Panic; // messages[idx:]
      }
      return Messages(q[from..]);
    }

    /** The fallback branch of the source is kept and shown dead. */
    method GetMessagesSince(since: int, limit: Word) returns (answer: Answer)
      requires Valid()
      modifies this
      ensures Valid() && Abs() == Queried(old(Abs()), maxMessages)
      ensures answer == if limit as int < TWO_63 || NotBefore(messages, since) == []
                        then Messages(Limited(NotBefore(messages, since), limit as nat))
                        else Panic
    {
      if |messages| == 0 {
        return Messages([]);
      }
      if !isSorted {
        SortAndDeduplicateAndTruncate();
      }
      var idx: int := Search(since);
      NotBeforeIsSuffix(messages, since, idx);
      CanonicalKeepsSome(old(messages), maxMessages);
      var n := |messages|;
      if idx >= n {
        if !(since < messages[n - 1].createdAt) {
          return Messages([]);
        }
        assert false;
        idx := 0;
      }
      answer := FromIndex(messages, idx, limit);
    }

    /** Hands back what is written to the file, if anything. */
    method Store() returns (written: Option<seq<Message>>)
      requires Valid()
      modifies this
      ensures Valid() && Abs() == Stored(old(Abs()), maxMessages)
      ensures written == if old(isChanged) then Some(messages) else None
    {
      if !isChanged {
        return None;
      }
      SortAndDeduplicateAndTruncate();
      return Some(messages);
    }

    /** `file` is what the decoder reads; `None` when there is no file. */
    method Load(file: Option<seq<Message>>)
      requires Valid()
      modifies this
      ensures Valid() && Abs() == Loaded(old(Abs()), file, maxMessages)
    {
      if file.None? {
        messages := messages[..0];
        return;
      }
      messages := file.value;
      SortAndDeduplicateAndTruncate();
    }
  }

  // ---- lemmas the methods rest on ---------------------------------------

  lemma SameElems(p: seq<Message>, q: seq<Message>)
    requires multiset(p) == multiset(q)
    ensures Elems(p) == Elems(q) && |p| == |q|
  {
    SameLength(p, q);
    forall m
      ensures m in p <==> m in q
    {
      assert m in p <==> m in multiset(p);
      assert m in q <==> m in multiset(q);
    }
  }

  /** Sorting, dropping neighbours that are equal and keeping the tail can only
      produce the increasing list of the `k` greatest distinct messages. */
  lemma CanonicalIsUnique(q: seq<Message>, distinct: seq<Message>, k: nat)
    requires Increasing(MsgLess, distinct)
    requires Elems(distinct) == Elems(q)
    ensures Canonical(q, k) == LastN(distinct, k)
    ensures Increasing(MsgLess, Canonical(q, k)) && |Canonical(q, k)| <= k
  {
    MsgLessIsStrictTotal();
    LastAreGreatest(MsgLess, distinct, k);
    IncreasingIsUnique(MsgLess, Canonical(q, k), LastN(distinct, k));
  }

  lemma CanonicalShape(q: seq<Message>, k: nat)
    ensures Increasing(MsgLess, Canonical(q, k)) && |Canonical(q, k)| <= k
    ensures Elems(Canonical(q, k)) == Greatest(MsgLess, Elems(q), k)
  {
    MsgLessIsStrictTotal();
    GreatestSize(MsgLess, Elems(q), k);
  }

  lemma CanonicalKeepsSome(q: seq<Message>, k: nat)
    requires q != [] && k >= 1
    ensures Canonical(q, k) != []
  {
    MsgLessIsStrictTotal();
    assert q[0] in Elems(q);
    GreatestSize(MsgLess, Elems(q), k);
  }

  lemma InOrderOfTime(q: seq<Message>)
    requires Increasing(MsgLess, q)
    ensures forall i, j :: 0 <= i < j < |q| ==> q[i].createdAt <= q[j].createdAt
  {
    forall i, j | 0 <= i < j < |q|
      ensures q[i].createdAt <= q[j].createdAt
    {
      assert MsgLess(q[i], q[j]);
    }
  }

  lemma {:induction false} NotBeforeIsSuffix(q: seq<Message>, since: int, at: nat)
    requires at <= |q|
    requires forall i :: 0 <= i < at ==> q[i].createdAt < since
    requires forall i :: at <= i < |q| ==> since <= q[i].createdAt
    ensures NotBefore(q, since) == q[at..]
  {
    if q != [] {
      NotBeforeIsSuffix(q[1..], since, if at > 0 then at - 1 else 0);
      if at == 0 {
        assert q == [q[0]] + q[1..];
      } else {
        assert q[1..][at - 1..] == q[at..];
      }
    }
  }

  /** What the conversion of the limit to a signed integer does to the index. */
  lemma WrappedIndex(n: nat, limit: Word)
    requires n < TWO_63
    ensures limit as int < TWO_63 ==> Wrap(limit as int) == limit as int
    ensures limit as int < n ==> Wrap(n - limit as int) == n - limit as int
    ensures TWO_63 <= limit as int ==> Wrap(limit as int) < 0 && !(0 <= Wrap(n - Wrap(limit as int)) <= n)
  {
    if TWO_63 <= limit as int {
      assert Wrap(limit as int) == limit as int - TWO_64;
    }
  }

  lemma AddKeepsValid(s: State, m: Message, k: nat)
    requires 1 <= k && StateValid(s, k)
    ensures StateValid(Added(s, m, k), k)
  {
    var q := s.messages + [m];
    CanonicalShape(q, k);
    if s.isSorted && Later(m, s.messages) {
      LaterStaysIncreasing(s.messages, m);
    }
  }

  lemma LaterStaysIncreasing(q: seq<Message>, m: Message)
    requires Increasing(MsgLess, q) && Later(m, q)
    ensures Increasing(MsgLess, q + [m])
  {
    InOrderOfTime(q);
    forall i | 0 <= i < |q|
      ensures MsgLess(q[i], m)
    {
      assert i < |q| - 1 ==> q[i].createdAt <= q[|q| - 1].createdAt;
    }
  }
}
