/** Chat messages and the order the store keeps them in.
    A string stands for its bytes; a time stands for an integer instant. */
module ChatMessage {
  import opened Basics
  import opened Ordered

  /** A message as the values the order reads.  `content` is the text the
      `Message` pointer of the event leads to. */
  datatype Message = Message(
    createdAt: int,
    eventType: int,
    platform: Text,
    userId: Text,
    userSlug: Text,
    userName: Text,
    content: Text,
    id: Text)

  /** Go's string order: byte by byte, a proper prefix first. */
  predicate TextLess(a: Text, b: Text) {
    if b == "" then false
    else if a == "" then true
    else if a[0] != b[0] then a[0] < b[0]
    else TextLess(a[1..], b[1..])
  }

  lemma {:induction false} TextTotal(a: Text, b: Text)
    ensures !TextLess(a, a)
    ensures TextLess(a, b) ==> !TextLess(b, a)
    ensures a != b ==> TextLess(a, b) || TextLess(b, a)
    decreases |a| + |b|
  {
    if a != "" {
      TextTotal(a[1..], if b == "" then "" else b[1..]);
      if b != "" && a[0] == b[0] && a[1..] == b[1..] {
        assert a == [a[0]] + a[1..] && b == [b[0]] + b[1..];
      }
    }
  }

  lemma {:induction false} TextTransitive(a: Text, b: Text, c: Text)
    requires TextLess(a, b) && TextLess(b, c)
    ensures TextLess(a, c)
  {
    if a != "" && a[0] == b[0] && b[0] == c[0] {
      TextTransitive(a[1..], b[1..], c[1..]);
    }
  }

  /** The texts agree before byte `n`, where the first one ends or has the smaller byte. */
  predicate LessFrom(a: Text, b: Text, n: nat) {
    n <= |a| && n < |b| && a[..n] == b[..n] && (n == |a| || a[n] as int < b[n] as int)
  }

  lemma HeadsDiffer(a: Text, b: Text, n: nat)
    requires a == "" || b == "" || a[0] != b[0]
    ensures LessFrom(a, b, n) <==> n == 0 && TextLess(a, b)
  {
    if 0 < n <= |a| && n < |b| {
      assert a[..n][0] == a[0] && b[..n][0] == b[0];
    }
  }

  lemma HeadsAgree(a: Text, b: Text, n: nat)
    requires a != "" && b != "" && a[0] == b[0]
    ensures LessFrom(a, b, n + 1) <==> LessFrom(a[1..], b[1..], n)
    ensures !LessFrom(a, b, 0)
  {
    if n < |a| && n + 1 < |b| {
      assert a[..n + 1] == [a[0]] + a[1..][..n] && b[..n + 1] == [b[0]] + b[1..][..n];
      if a[..n + 1] == b[..n + 1] {
        assert a[1..][..n] == a[..n + 1][1..] && b[1..][..n] == b[..n + 1][1..];
      }
    }
  }

  /** Texts are ordered by the first byte in which they differ; a proper prefix is less. */
  lemma {:induction false} TextLessIsByteOrder(a: Text, b: Text)
    ensures TextLess(a, b) <==> exists n: nat :: LessFrom(a, b, n)
  {
    if a == "" || b == "" || a[0] != b[0] {
      HeadsDiffer(a, b, 0);
      if n: nat :| LessFrom(a, b, n) {
        HeadsDiffer(a, b, n);
      }
    } else {
      TextLessIsByteOrder(a[1..], b[1..]);
      if n: nat :| LessFrom(a[1..], b[1..], n) {
        HeadsAgree(a, b, n);
      }
      if n: nat :| LessFrom(a, b, n) {
        HeadsAgree(a, b, if n > 0 then n - 1 else 0);
      }
    }
  }

  predicate MsgLess(a: Message, b: Message) {
    if a.createdAt != b.createdAt then a.createdAt < b.createdAt
    else if a.eventType != b.eventType then a.eventType < b.eventType
    else if a.platform != b.platform then TextLess(a.platform, b.platform)
    else if a.userId != b.userId then TextLess(a.userId, b.userId)
    else if a.userSlug != b.userSlug then TextLess(a.userSlug, b.userSlug)
    else if a.userName != b.userName then TextLess(a.userName, b.userName)
    else if a.content != b.content then TextLess(a.content, b.content)
    else if a.id != b.id then TextLess(a.id, b.id)
    else false
  }

  datatype Key = Number(value: int) | Bytes(text: Text)

  predicate KeyLess(a: Key, b: Key) {
    if a.Number? && b.Number? then a.value < b.value
    else a.Bytes? && b.Bytes? && TextLess(a.text, b.text)
  }

  /** What messages are sorted by, the most significant first. */
  function Keys(m: Message): seq<Key> {
    [Number(m.createdAt), Number(m.eventType), Bytes(m.platform), Bytes(m.userId),
     Bytes(m.userSlug), Bytes(m.userName), Bytes(m.content), Bytes(m.id)]
  }

  ghost predicate LessAt(a: Message, b: Message, n: nat) {
    n < 8 && Keys(a)[..n] == Keys(b)[..n] && KeyLess(Keys(a)[n], Keys(b)[n])
  }

  lemma FirstDifference(a: Message, b: Message) returns (n: nat)
    requires a != b
    ensures n < 8 && Keys(a)[..n] == Keys(b)[..n] && Keys(a)[n] != Keys(b)[n]
    ensures MsgLess(a, b) <==> KeyLess(Keys(a)[n], Keys(b)[n])
  {
    n := if a.createdAt != b.createdAt then 0 else if a.eventType != b.eventType then 1
         else if a.platform != b.platform then 2 else if a.userId != b.userId then 3
         else if a.userSlug != b.userSlug then 4 else if a.userName != b.userName then 5
         else if a.content != b.content then 6 else 7;
  }

  lemma KeyNotLessThanItself(k: Key)
    ensures !KeyLess(k, k)
  {
    if k.Bytes? {
      TextTotal(k.text, k.text);
    }
  }

  lemma OneDifference(a: Message, b: Message, m: nat, n: nat)
    requires m < 8 && Keys(a)[..m] == Keys(b)[..m] && Keys(a)[m] != Keys(b)[m]
    requires LessAt(a, b, n)
    ensures m == n
  {
    KeyNotLessThanItself(Keys(a)[n]);
  }

  /** A message is less than another exactly when its keys are, in the first that differs. */
  lemma MsgLessIsKeyOrder(a: Message, b: Message)
    ensures MsgLess(a, b) <==> exists n: nat :: LessAt(a, b, n)
  {
    if a == b {
      forall n: nat
        ensures !LessAt(a, b, n)
      {
        if n < 8 {
          KeyNotLessThanItself(Keys(a)[n]);
        }
      }
    } else {
      var m := FirstDifference(a, b);
      assert MsgLess(a, b) <==> LessAt(a, b, m);
      if n: nat :| LessAt(a, b, n) {
        OneDifference(a, b, m, n);
      }
    }
  }

  lemma MsgTotal(a: Message, b: Message)
    ensures !MsgLess(a, a)
    ensures MsgLess(a, b) ==> !MsgLess(b, a)
    ensures a != b ==> MsgLess(a, b) || MsgLess(b, a)
  {
    TextTotal(a.platform, b.platform);
    TextTotal(a.userId, b.userId);
    TextTotal(a.userSlug, b.userSlug);
    TextTotal(a.userName, b.userName);
    TextTotal(a.content, b.content);
    TextTotal(a.id, b.id);
  }

  lemma TextChain(a: Text, b: Text, c: Text)
    ensures TextLess(a, b) && TextLess(b, c) ==> TextLess(a, c) && a != c
  {
    if TextLess(a, b) && TextLess(b, c) {
      TextTransitive(a, b, c);
      TextTotal(a, c);
    }
  }

  lemma MsgTransitive(a: Message, b: Message, c: Message)
    requires MsgLess(a, b) && MsgLess(b, c)
    ensures MsgLess(a, c)
  {
    TextChain(a.platform, b.platform, c.platform);
    TextChain(a.userId, b.userId, c.userId);
    TextChain(a.userSlug, b.userSlug, c.userSlug);
    TextChain(a.userName, b.userName, c.userName);
    TextChain(a.content, b.content, c.content);
    TextChain(a.id, b.id, c.id);
  }

  /** The order the store sorts by is strict and total on messages as values. */
  lemma MsgLessIsStrictTotal()
    ensures StrictTotalOrder(MsgLess)
  {
    forall a, b
      ensures !MsgLess(a, a)
      ensures a != b ==> MsgLess(a, b) || MsgLess(b, a)
    {
      MsgTotal(a, b);
    }
    forall a, b, c | MsgLess(a, b) && MsgLess(b, c)
      ensures MsgLess(a, c)
    {
      MsgTransitive(a, b, c);
    }
  }
}

/** What the order does to the events themselves: the text is reached through a
    pointer, two of which may lead to equal texts, a time has more to it than its
    instant, and some fields are never read. */
module EventIdentity {
  import opened Basics
  import opened ChatMessage

  /** A pointer to a text: where it points, and what is there. */
  datatype Body = Body(address: nat, content: Text)

  /** A point in time, and the location and clock reading it is held with. */
  datatype Time = Time(instant: int, representation: nat)

  /** `unread` stands for all the fields the comparison does not look at. */
  datatype Event = Event(
    createdAt: Time,
    eventType: int,
    platform: Text,
    userId: Text,
    userSlug: Text,
    userName: Text,
    body: Body,
    id: Text,
    unread: nat)

  /** The comparison as written: times and bodies are told apart by representation
      and address, but ordered by instant and content. */
  predicate EventLess(a: Event, b: Event) {
    if a.createdAt != b.createdAt then a.createdAt.instant < b.createdAt.instant
    else if a.eventType != b.eventType then a.eventType < b.eventType
    else if a.platform != b.platform then TextLess(a.platform, b.platform)
    else if a.userId != b.userId then TextLess(a.userId, b.userId)
    else if a.userSlug != b.userSlug then TextLess(a.userSlug, b.userSlug)
    else if a.userName != b.userName then TextLess(a.userName, b.userName)
    else if a.body.address != b.body.address then TextLess(a.body.content, b.body.content)
    else if a.id != b.id then TextLess(a.id, b.id)
    else false
  }

  function Value(e: Event): Message {
    Message(e.createdAt.instant, e.eventType, e.platform, e.userId, e.userSlug, e.userName, e.body.content, e.id)
  }

  /** One address holds one text. */
  predicate OneMemory(a: Event, b: Event) {
    a.body.address == b.body.address ==> a.body.content == b.body.content
  }

  /** Equal up to the ID as values. */
  predicate SameUpToId(a: Event, b: Event) {
    Value(a) == Value(b).(id := a.id)
  }

  /** The pairs that go wrong: one instant held in two ways; equal texts at two
      addresses; or a difference nowhere but in the fields that are not read. */
  predicate Twins(a: Event, b: Event) {
    || (a.createdAt.instant == b.createdAt.instant && a.createdAt != b.createdAt)
    || (SameUpToId(a, b) && a.body.address != b.body.address)
    || (SameUpToId(a, b) && a.id == b.id && a.unread != b.unread)
  }

  /** Comparing events agrees with comparing messages by value, in both directions and
      on equality, exactly when the two are not twins. */
  lemma PointerOrderIsValueOrderIffNotTwins(a: Event, b: Event)
    requires OneMemory(a, b)
    ensures !Twins(a, b) <==>
            && (EventLess(a, b) <==> MsgLess(Value(a), Value(b)))
            && (EventLess(b, a) <==> MsgLess(Value(b), Value(a)))
            && (a == b <==> Value(a) == Value(b))
  {
    MsgTotal(Value(a), Value(b));
    TextTotal(a.body.content, b.body.content);
  }

  /** The events of a history are totally ordered exactly when no two are twins. */
  lemma TotalIffNoTwins(events: set<Event>)
    requires forall a, b :: a in events && b in events ==> OneMemory(a, b)
    ensures (forall a, b :: a in events && b in events && a != b ==> EventLess(a, b) || EventLess(b, a))
            <==> (forall a, b :: a in events && b in events ==> !Twins(a, b))
  {
    forall a, b | a in events && b in events && a != b
      ensures EventLess(a, b) || EventLess(b, a) <==> !Twins(a, b)
    {
      PointerOrderIsValueOrderIffNotTwins(a, b);
      MsgTotal(Value(a), Value(b));
      TextTotal(a.body.content, b.body.content);
    }
  }

  /** Events are left unordered that differ only in ID and address, although the order
      of their IDs is decided; that differ only in what is not read; and that hold one
      instant in two ways, whatever else they differ in. */
  lemma TwinsAreUnordered(e: Event, address: nat, id: Text, unread: nat, other: Event)
    requires address != e.body.address && unread != e.unread
    requires other.createdAt.instant == e.createdAt.instant && other.createdAt != e.createdAt
    ensures forall twin :: twin in {e.(body := Body(address, e.body.content), id := id), e.(unread := unread), other} ==>
              e != twin && !EventLess(e, twin) && !EventLess(twin, e)
  {
    TextTotal(e.body.content, e.body.content);
  }
}
