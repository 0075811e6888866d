/** What reaches a connection, and in which order: messages that wait for
    readiness against the readiness declarations and their confirmations. */
module ManagerOrdering {
  import opened Basics
  import opened ProcessManager
  import opened ManagerProtocol

  // ---- what a history says ----------------------------------------------

  /** The connection a name is registered with at the end of a history. */
  function JoinedAs(tr: seq<Event>, n: Name): Option<Conn> {
    if tr == [] then None
    else match tr[|tr| - 1]
      case Joined(m, c) => if m == n then Some(c) else JoinedAs(tr[..|tr| - 1], n)
      case Left(m) => if m == n then None else JoinedAs(tr[..|tr| - 1], n)
      case _ => JoinedAs(tr[..|tr| - 1], n)
  }

  /** The types a name declared since it was last unregistered. */
  function DeclaredSince(tr: seq<Event>, n: Name): set<MsgType> {
    if tr == [] then {}
    else match tr[|tr| - 1]
      case Left(m) => if m == n then {} else DeclaredSince(tr[..|tr| - 1], n)
      case Declared(m, _, ty) => DeclaredSince(tr[..|tr| - 1], n) + (if m == n then {ty} else {})
      case _ => DeclaredSince(tr[..|tr| - 1], n)
  }

  /** The types declared by a name while it was registered with a connection. */
  function DeclaredOn(tr: seq<Event>, c: Conn): set<MsgType> {
    if tr == [] then {}
    else
      var before := tr[..|tr| - 1];
      match tr[|tr| - 1]
      case Declared(m, _, ty) => DeclaredOn(before, c) + (if JoinedAs(before, m) == Some(c) then {ty} else {})
      case _ => DeclaredOn(before, c)
  }

  predicate ConfirmedOn(tr: seq<Event>, c: Conn) {
    Wrote(c, Confirmation) in tr
  }

  /** A confirmation was written to the connection, or its write failed. */
  predicate Answered(tr: seq<Event>, c: Conn) {
    ConfirmedOn(tr, c) || ConfirmationFailed(c) in tr
  }

  predicate IsGated(e: Event) {
    e.Wrote? && e.packet.Gated?
  }

  lemma Extend(tr: seq<Event>, e: Event)
    ensures (tr + [e])[..|tr|] == tr && (tr + [e])[|tr + [e]| - 1] == e
  {
  }

  // ---- the tables are the history ---------------------------------------

  ghost predicate TablesRecordHistory(w: World) {
    && (forall n :: n in w.tables.conns <==> JoinedAs(w.trace, n).Some?)
    && (forall n :: n in w.tables.conns ==> JoinedAs(w.trace, n) == Some(w.tables.conns[n]))
    && (forall n :: ReadyFor(w.tables, n) == DeclaredSince(w.trace, n))
  }

  /** One event more, and the tables changed by it. */
  lemma EventIsRecorded(w: World, w': World, e: Event)
    requires TablesRecordHistory(w)
    requires w'.trace == w.trace + [e]
    requires match e
      case Joined(n, c) => w'.tables == ProcessManager.Registered(w.tables, n, c)
      case Left(n) => w'.tables == Unregistered(w.tables, n)
      case Declared(n, _, ty) => w'.tables == MadeReady(w.tables, n, ty)
      case _ => w'.tables == w.tables
    ensures TablesRecordHistory(w')
  {
    Extend(w.trace, e);
  }

  lemma NextRecordsHistory(w: World, s: Step)
    requires TablesRecordHistory(w) && Enabled(w, s)
    ensures TablesRecordHistory(Next(w, s))
  {
    var w' := Next(w, s);
    if |w'.trace| > |w.trace| {
      EventIsRecorded(w, w', w'.trace[|w.trace|]);
    }
  }

  /** On every run, handover or not, the connection table holds the last
      registration of each name not removed since, and the readiness table holds
      exactly the types the name declared since its last removal. */
  lemma {:induction false} TablesAreTheHistory(expected: set<Name>, steps: seq<Step>, strict: bool)
    requires Run(expected, steps, strict).Some?
    ensures TablesRecordHistory(Run(expected, steps, strict).value)
  {
    if steps != [] {
      var before := steps[..|steps| - 1];
      TablesAreTheHistory(expected, before, strict);
      NextRecordsHistory(Run(expected, before, strict).value, steps[|steps| - 1]);
    }
  }

  // ---- ordering under strict handover -----------------------------------

  /** A type that was declared on the connection, after its confirmation, unless the
      connection broke. */
  ghost predicate Cleared(w: World, c: Conn, ty: MsgType) {
    ty in DeclaredOn(w.trace, c) && (Answered(w.trace, c) || c in w.broken)
  }

  ghost predicate HandlersOwnTheirNames(w: World) {
    && (forall n :: n in w.tables.conns ==>
          var c := w.tables.conns[n]; c in w.handlers && w.handlers[c].name == n && w.handlers[c].duty != Gone)
    && (forall c :: c in w.handlers && w.handlers[c].duty != Gone ==>
          w.handlers[c].name in w.tables.conns && w.tables.conns[w.handlers[c].name] == c)
    && (forall n :: n in w.tables.ready ==> n in w.tables.conns)
  }

  ghost predicate HandlersConfirmFirst(w: World) {
    && (forall c :: c in w.handlers && w.handlers[c].duty.Confirming? && w.handlers[c].duty.wait.Holding? ==>
          w.handlers[c].duty.wait.conn == c)
    && (forall c :: c in w.handlers && w.handlers[c].duty.Declaring? ==>
          Answered(w.trace, c) || c in w.broken)
  }

  ghost predicate ReadyTypesAreCleared(w: World) {
    forall n, ty :: n in w.tables.conns && ty in ReadyFor(w.tables, n) ==>
      Cleared(w, w.tables.conns[n], ty)
  }

  ghost predicate SendsAreCleared(w: World) {
    forall id :: id in w.senders && w.senders[id].wait.Holding? && w.senders[id].want.gate.Some? ==>
      var c, want := w.senders[id].wait.conn, w.senders[id].want;
      && c in w.handlers && w.handlers[c].name == want.dst
      && Cleared(w, c, want.gate.value)
      && (want.dst in w.tables.conns && w.tables.conns[want.dst] == c ==>
            want.gate.value in ReadyFor(w.tables, want.dst))
  }

  ghost predicate ReadinessIsCleared(w: World) {
    ReadyTypesAreCleared(w) && SendsAreCleared(w)
  }

  /** What every gated write found before it. */
  ghost predicate GatedWriteInOrder(tr: seq<Event>, i: nat)
    requires i < |tr| && IsGated(tr[i])
  {
    var c, p := tr[i].conn, tr[i].packet;
    && p.ty in DeclaredOn(tr[..i], c)
    && Answered(tr[..i], c)
    && (JoinedAs(tr[..i], p.name) == Some(c) ==> p.ty in DeclaredSince(tr[..i], p.name))
  }

  ghost predicate GatedWritesInOrder(tr: seq<Event>) {
    forall i :: 0 <= i < |tr| && IsGated(tr[i]) ==> GatedWriteInOrder(tr, i)
  }

  ghost predicate Orderly(w: World) {
    && TablesRecordHistory(w)
    && HandlersOwnTheirNames(w)
    && HandlersConfirmFirst(w)
    && ReadinessIsCleared(w)
    && GatedWritesInOrder(w.trace)
  }

  lemma InOrderExtends(tr: seq<Event>, e: Event)
    requires GatedWritesInOrder(tr)
    requires IsGated(e) ==> GatedWriteInOrder(tr + [e], |tr|)
    ensures GatedWritesInOrder(tr + [e])
  {
    forall i | 0 <= i < |tr + [e]| && IsGated((tr + [e])[i])
      ensures GatedWriteInOrder(tr + [e], i)
    {
      if i < |tr| {
        assert (tr + [e])[..i] == tr[..i];
        assert GatedWriteInOrder(tr, i);
      }
    }
  }

  /** What is cleared or confirmed stays so. */
  lemma NextKeepsCleared(w: World, s: Step)
    requires Enabled(w, s)
    ensures forall c :: Answered(w.trace, c) || c in w.broken ==>
              Answered(Next(w, s).trace, c) || c in Next(w, s).broken
    ensures forall c, ty :: Cleared(w, c, ty) ==> Cleared(Next(w, s), c, ty)
  {
    var w' := Next(w, s);
    if |w'.trace| > |w.trace| {
      Extend(w.trace, w'.trace[|w.trace|]);
    }
  }

  lemma RegisterKeepsReadinessCleared(w: World, s: Step)
    requires Orderly(w) && Enabled(w, s) && HandsOver(w, s) && s.Register?
    ensures ReadinessIsCleared(Next(w, s))
  {
    NextKeepsCleared(w, s);
    assert ReadyFor(w.tables, s.name) == {};
  }

  lemma UnregisterKeepsReadinessCleared(w: World, s: Step)
    requires Orderly(w) && Enabled(w, s) && s.Unregister?
    ensures ReadinessIsCleared(Next(w, s))
  {
    NextKeepsCleared(w, s);
  }

  lemma DeclareKeepsReadyTypesCleared(w: World, s: Step)
    requires Orderly(w) && Enabled(w, s) && s.Declare?
    ensures ReadyTypesAreCleared(Next(w, s))
  {
    NextKeepsCleared(w, s);
    var h := w.handlers[s.conn];
    if h.duty.types != [] {
      var ty := Bare(h.duty.types[0]);
      Extend(w.trace, Declared(h.name, s.conn, ty));
      assert JoinedAs(w.trace, h.name) == Some(s.conn);
      assert Cleared(Next(w, s), s.conn, ty);
    }
  }

  lemma DeclareKeepsSendsCleared(w: World, s: Step)
    requires SendsAreCleared(w) && Enabled(w, s) && s.Declare?
    ensures SendsAreCleared(Next(w, s))
  {
    NextKeepsCleared(w, s);
  }

  lemma NextKeepsReadinessCleared(w: World, s: Step)
    requires Orderly(w) && Enabled(w, s) && HandsOver(w, s)
    ensures ReadinessIsCleared(Next(w, s))
  {
    match s
    case Register(_, _) => RegisterKeepsReadinessCleared(w, s);
    case Unregister(_) => UnregisterKeepsReadinessCleared(w, s);
    case Declare(_) =>
      DeclareKeepsReadyTypesCleared(w, s);
      DeclareKeepsSendsCleared(w, s);
    case _ => NextKeepsCleared(w, s);
  }

  lemma RegisterKeepsNamesOwned(w: World, s: Step)
    requires HandlersOwnTheirNames(w) && Enabled(w, s) && HandsOver(w, s) && s.Register?
    ensures HandlersOwnTheirNames(Next(w, s))
  {
  }

  lemma UnregisterKeepsNamesOwned(w: World, s: Step)
    requires HandlersOwnTheirNames(w) && Enabled(w, s) && s.Unregister?
    ensures HandlersOwnTheirNames(Next(w, s))
  {
  }

  lemma DeclareKeepsNamesOwned(w: World, s: Step)
    requires HandlersOwnTheirNames(w) && Enabled(w, s) && s.Declare?
    ensures HandlersOwnTheirNames(Next(w, s))
  {
  }

  lemma NextKeepsNamesOwned(w: World, s: Step)
    requires HandlersOwnTheirNames(w) && Enabled(w, s) && HandsOver(w, s)
    ensures HandlersOwnTheirNames(Next(w, s))
  {
    match s
    case Register(_, _) => RegisterKeepsNamesOwned(w, s);
    case Unregister(_) => UnregisterKeepsNamesOwned(w, s);
    case Declare(_) => DeclareKeepsNamesOwned(w, s);
    case _ => SameHandlersSameConns(w, Next(w, s));
  }

  lemma SameHandlersSameConns(w: World, w': World)
    requires HandlersOwnTheirNames(w) && w'.tables == w.tables
    requires w'.handlers.Keys == w.handlers.Keys
    requires forall c :: c in w.handlers ==>
               w'.handlers[c].name == w.handlers[c].name && (w'.handlers[c].duty.Gone? <==> w.handlers[c].duty.Gone?)
    ensures HandlersOwnTheirNames(w')
  {
  }

  lemma NextKeepsConfirmFirst(w: World, s: Step)
    requires HandlersOwnTheirNames(w) && HandlersConfirmFirst(w) && Enabled(w, s)
    ensures HandlersConfirmFirst(Next(w, s))
  {
    NextKeepsCleared(w, s);
    var w' := Next(w, s);
    if s.ConfirmWrite? {
      var c := s.conn;
      assert w.handlers[c].duty.wait.conn == c;
      if c !in w.broken {
        assert w'.trace[|w.trace|] == if s.arrives then Wrote(c, Confirmation) else ConfirmationFailed(c);
      }
    }
  }

  lemma NextKeepsWritesInOrder(w: World, s: Step)
    requires Orderly(w) && Enabled(w, s)
    ensures GatedWritesInOrder(Next(w, s).trace)
  {
    var w' := Next(w, s);
    if |w'.trace| > |w.trace| {
      var e := w'.trace[|w.trace|];
      assert w'.trace == w.trace + [e];
      Extend(w.trace, e);
      InOrderExtends(w.trace, e);
    }
  }

  lemma NextStaysOrderly(w: World, s: Step)
    requires Orderly(w) && Enabled(w, s) && HandsOver(w, s)
    ensures Orderly(Next(w, s))
  {
    NextRecordsHistory(w, s);
    NextKeepsNamesOwned(w, s);
    NextKeepsConfirmFirst(w, s);
    NextKeepsReadinessCleared(w, s);
    NextKeepsWritesInOrder(w, s);
  }

  lemma {:induction false} StrictRunsAreOrderly(expected: set<Name>, steps: seq<Step>)
    requires Run(expected, steps, true).Some?
    ensures Orderly(Run(expected, steps, true).value)
  {
    if steps != [] {
      var before := steps[..|steps| - 1];
      StrictRunsAreOrderly(expected, before);
      NextStaysOrderly(Run(expected, before, true).value, steps[|steps| - 1]);
    }
  }

  /** Under strict handover, every message that waits for readiness and reaches a
      connection does so after its type was declared on that very connection and
      after a confirmation was written there, unless the write of one failed on a
      connection that goes on working.  When the connection is still the registered
      one, the declaration is no older than the name's last removal. */
  lemma GatedWritesFollowReadiness(expected: set<Name>, steps: seq<Step>, i: nat)
    requires Run(expected, steps, true).Some?
    requires var tr := Run(expected, steps, true).value.trace; i < |tr| && IsGated(tr[i])
    ensures var tr := Run(expected, steps, true).value.trace;
            var c, p := tr[i].conn, tr[i].packet;
            && p.ty in DeclaredOn(tr[..i], c)
            && (ConfirmationFailed(c) !in tr[..i] ==> ConfirmedOn(tr[..i], c))
            && (JoinedAs(tr[..i], p.name) == Some(c) ==> p.ty in DeclaredSince(tr[..i], p.name))
  {
    StrictRunsAreOrderly(expected, steps);
    assert GatedWriteInOrder(Run(expected, steps, true).value.trace, i);
  }

  // ---- three runs that show the limits ----------------------------------

  /** A child registers and declares one type; then somebody sends it such a message. */
  function Prelude(n: Name, ty: MsgType, arrives: bool): seq<Step> {
    [Register(n, 0), Receive(0, [ty]), ConfirmLook(0), ConfirmWrite(0, arrives), Declare(0), Declare(0), Send(0, n, Some(ty))]
  }

  function PreludeWorld(n: Name, ty: MsgType, arrives: bool, i: nat): World {
    var answer := if arrives then Wrote(0, Confirmation) else ConfirmationFailed(0);
    var joined := Tables(map[n := 0], map[], 1, [0]);
    var ready := Tables(map[n := 0], map[n := {Bare(ty)}], 2, [0, 1]);
    var on := (t: Tables, d: Duty, tr: seq<Event>) => World({n}, t, map[], map[0 := Handler(n, d)], {}, tr);
    match i
    case 0 => Start({n})
    case 1 => on(joined, Serving, [Joined(n, 0)])
    case 2 => on(joined, Confirming(Looking, [ty]), [Joined(n, 0)])
    case 3 => on(joined, Confirming(Holding(0), [ty]), [Joined(n, 0)])
    case 4 => on(joined, Declaring([ty]), [Joined(n, 0), answer])
    case 5 => on(ready, Declaring([]), [Joined(n, 0), answer, Declared(n, 0, Bare(ty))])
    case 6 => on(ready, Serving, [Joined(n, 0), answer, Declared(n, 0, Bare(ty))])
    case _ => on(ready, Serving, [Joined(n, 0), answer, Declared(n, 0, Bare(ty))]).(
      senders := map[0 := Sender(Want(n, Some(Bare(ty))), Looking)])
  }

  ghost predicate PreludeGoesOn(n: Name, ty: MsgType, arrives: bool, i: nat)
    requires i < |Prelude(n, ty, arrives)|
  {
    var w, s := PreludeWorld(n, ty, arrives, i), Prelude(n, ty, arrives)[i];
    Enabled(w, s) && HandsOver(w, s) && Next(w, s) == PreludeWorld(n, ty, arrives, i + 1)
  }

  lemma PreludeRegisters(n: Name, ty: MsgType, arrives: bool)
    ensures PreludeGoesOn(n, ty, arrives, 0)
  {
  }

  lemma PreludeReceives(n: Name, ty: MsgType, arrives: bool)
    ensures PreludeGoesOn(n, ty, arrives, 1)
  {
  }

  lemma PreludeLooks(n: Name, ty: MsgType, arrives: bool)
    ensures PreludeGoesOn(n, ty, arrives, 2)
  {
  }

  lemma PreludeConfirms(n: Name, ty: MsgType, arrives: bool)
    ensures PreludeGoesOn(n, ty, arrives, 3)
  {
  }

  lemma PreludeDeclares(n: Name, ty: MsgType, arrives: bool)
    ensures PreludeGoesOn(n, ty, arrives, 4)
  {
    assert [ty][1..] == [];
    assert ReadyFor(PreludeWorld(n, ty, arrives, 4).tables, n) + {Bare(ty)} == {Bare(ty)};
  }

  lemma PreludeServes(n: Name, ty: MsgType, arrives: bool)
    ensures PreludeGoesOn(n, ty, arrives, 5)
  {
  }

  lemma PreludeSends(n: Name, ty: MsgType, arrives: bool)
    ensures PreludeGoesOn(n, ty, arrives, 6)
  {
  }

  lemma PreludeStep(n: Name, ty: MsgType, arrives: bool, i: nat)
    requires i < |Prelude(n, ty, arrives)|
    ensures PreludeGoesOn(n, ty, arrives, i)
  {
    match i
    case 0 => PreludeRegisters(n, ty, arrives);
    case 1 => PreludeReceives(n, ty, arrives);
    case 2 => PreludeLooks(n, ty, arrives);
    case 3 => PreludeConfirms(n, ty, arrives);
    case 4 => PreludeDeclares(n, ty, arrives);
    case 5 => PreludeServes(n, ty, arrives);
    case _ => PreludeSends(n, ty, arrives);
  }

  lemma {:induction false} PreludeRuns(n: Name, ty: MsgType, arrives: bool, i: nat, strict: bool)
    requires i <= |Prelude(n, ty, arrives)|
    ensures Run({n}, Prelude(n, ty, arrives)[..i], strict) == Some(PreludeWorld(n, ty, arrives, i))
  {
    if i > 0 {
      PreludeRuns(n, ty, arrives, i - 1, strict);
      PreludeStep(n, ty, arrives, i - 1);
      assert Prelude(n, ty, arrives)[..i] == Prelude(n, ty, arrives)[..i - 1] + [Prelude(n, ty, arrives)[i - 1]];
      RunExtends({n}, Prelude(n, ty, arrives)[..i - 1], Prelude(n, ty, arrives)[i - 1], strict);
    }
  }

  /** Any state like the one the prelude leads to. */
  ghost predicate AboutToLook(w: World, n: Name, ty: MsgType) {
    && w.expected == {n} && w.broken == {}
    && w.tables.conns == map[n := 0] && ReadyFor(w.tables, n) == {ty}
    && w.senders == map[0 := Sender(Want(n, Some(ty)), Looking)]
    && w.handlers == map[0 := Handler(n, Serving)]
  }

  /** The world after three steps from `w`, if they are all possible. */
  ghost function After3(w: World, a: Step, b: Step, c: Step, strict: bool): Option<World> {
    if Enabled(w, a) && (strict ==> HandsOver(w, a)) then
      var w1 := Next(w, a);
      if Enabled(w1, b) && (strict ==> HandsOver(w1, b)) then
        var w2 := Next(w1, b);
        if Enabled(w2, c) && (strict ==> HandsOver(w2, c)) then Some(Next(w2, c)) else None
      else None
    else None
  }

  lemma RunExtendsBy3(expected: set<Name>, steps: seq<Step>, a: Step, b: Step, c: Step, strict: bool)
    requires Run(expected, steps, strict).Some?
    ensures Run(expected, steps + [a] + [b] + [c], strict)
         == After3(Run(expected, steps, strict).value, a, b, c, strict)
  {
    RunExtends(expected, steps, a, strict);
    RunExtends(expected, steps + [a], b, strict);
    RunExtends(expected, steps + [a] + [b], c, strict);
  }

  lemma LateWriteFrom(w: World, n: Name, ty: MsgType)
    requires AboutToLook(w, n, ty)
    ensures var w' := After3(w, Look(0), Unregister(0), Write(0, true), true);
            w'.Some? && w'.value.trace == w.trace + [Left(n)] + [Wrote(0, Gated(n, ty))]
  {
  }

  lemma InheritedWriteFrom(w: World, n: Name, ty: MsgType)
    requires AboutToLook(w, n, ty)
    ensures var w' := After3(w, Register(n, 1), Look(0), Write(0, true), false);
            w'.Some? && w'.value.trace == w.trace + [Joined(n, 1)] + [Wrote(1, Gated(n, ty))]
  {
  }

  lemma PreludeDeclaresOnItsConnection(n: Name, ty: MsgType, arrives: bool)
    ensures DeclaredOn(PreludeWorld(n, ty, arrives, 7).trace, 1) == {}
  {
    var answer := if arrives then Wrote(0, Confirmation) else ConfirmationFailed(0);
    var joined, confirmed := [Joined(n, 0)], [Joined(n, 0), answer];
    Extend([], Joined(n, 0));
    assert confirmed[..1] == joined && JoinedAs(confirmed, n) == Some(0);
    assert DeclaredOn(joined, 1) == {} && DeclaredOn(confirmed, 1) == {};
    assert PreludeWorld(n, ty, arrives, 7).trace[..2] == confirmed;
  }

  lemma PreludeEnds(n: Name, ty: MsgType, arrives: bool)
    ensures Run({n}, Prelude(n, ty, arrives), true) == Run({n}, Prelude(n, ty, arrives), false) == Some(PreludeWorld(n, ty, arrives, 7))
    ensures AboutToLook(PreludeWorld(n, ty, arrives, 7), n, Bare(ty))
    ensures |PreludeWorld(n, ty, arrives, 7).trace| == 3 && !ConfirmedOn(PreludeWorld(n, ty, arrives, 7).trace, 1)
  {
    PreludeRuns(n, ty, arrives, 7, true);
    PreludeRuns(n, ty, arrives, 7, false);
    assert Prelude(n, ty, arrives)[..7] == Prelude(n, ty, arrives);
  }

  /** A child that leaves between the look and the write is still written to: no
      declaration of the type has followed its removal. */
  lemma LateWriteFollowsRemoval(n: Name, ty: MsgType)
    ensures var run := Run({n}, Prelude(n, ty, true) + [Look(0)] + [Unregister(0)] + [Write(0, true)], true);
            && run.Some?
            && var tr := run.value.trace;
            && |tr| == 5 && tr[4] == Wrote(0, Gated(n, Bare(ty)))
            && DeclaredSince(tr[..4], n) == {}
  {
    PreludeEnds(n, ty, true);
    var w := PreludeWorld(n, ty, true, 7);
    RunExtendsBy3({n}, Prelude(n, ty, true), Look(0), Unregister(0), Write(0, true), true);
    LateWriteFrom(w, n, Bare(ty));
    Extend(w.trace, Left(n));
    Extend(w.trace + [Left(n)], Wrote(0, Gated(n, Bare(ty))));
  }

  /** Without strict handover a new connection inherits the readiness of the one
      it replaces and is written to before any confirmation. */
  lemma ReplacementInheritsReadiness(n: Name, ty: MsgType)
    ensures var run := Run({n}, Prelude(n, ty, true) + [Register(n, 1)] + [Look(0)] + [Write(0, true)], false);
            && run.Some?
            && var tr := run.value.trace;
            && |tr| == 5 && tr[4] == Wrote(1, Gated(n, Bare(ty)))
            && !ConfirmedOn(tr, 1) && DeclaredOn(tr, 1) == {}
  {
    PreludeEnds(n, ty, true);
    PreludeDeclaresOnItsConnection(n, ty, true);
    var w := PreludeWorld(n, ty, true, 7);
    RunExtendsBy3({n}, Prelude(n, ty, true), Register(n, 1), Look(0), Write(0, true), false);
    InheritedWriteFrom(w, n, Bare(ty));
    Extend(w.trace, Joined(n, 1));
    Extend(w.trace + [Joined(n, 1)], Wrote(1, Gated(n, Bare(ty))));
  }

  lemma PlainWriteFrom(w: World, n: Name, ty: MsgType)
    requires AboutToLook(w, n, ty)
    ensures var w' := After3(w, Look(0), Write(0, true), Break(0), true);
            w'.Some? && w'.value.trace == w.trace + [Wrote(0, Gated(n, ty))]
  {
  }

  /** When the write of a confirmation fails and the connection works again later, the
      declaration counts all the same, and the message is written unconfirmed. */
  lemma FailedConfirmationIsForgotten(n: Name, ty: MsgType)
    ensures var run := Run({n}, Prelude(n, ty, false) + [Look(0)] + [Write(0, true)] + [Break(0)], true);
            && run.Some?
            && var tr := run.value.trace;
            && |tr| == 4 && tr[3] == Wrote(0, Gated(n, Bare(ty)))
            && !ConfirmedOn(tr, 0)
  {
    PreludeEnds(n, ty, false);
    RunExtendsBy3({n}, Prelude(n, ty, false), Look(0), Write(0, true), Break(0), true);
    PlainWriteFrom(PreludeWorld(n, ty, false, 7), n, Bare(ty));
  }
}
