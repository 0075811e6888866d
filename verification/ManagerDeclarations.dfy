/** A readiness message is carried out whole: what its handler declares, and how the
    readiness of the name grows by it. */
module ManagerDeclarations {
  import opened Basics
  import opened ProcessManager
  import opened ManagerProtocol
  import opened ManagerOrdering

  /** The types declared by the handler of a connection, in order. */
  function DeclaredBy(tr: seq<Event>, c: Conn): seq<MsgType> {
    if tr == [] then []
    else
      var e := tr[|tr| - 1];
      DeclaredBy(tr[..|tr| - 1], c) + if e.Declared? && e.handler == c then [e.ty] else []
  }

  /** A type counts for itself, a pointer for what it points to. */
  predicate StandsFor(declared: MsgType, named: MsgType) {
    match named
    case Plain(_) => declared == named
    case PointerTo(elem) => declared == elem
  }

  /** One declaration for each type of a message, in order. */
  predicate CarriedOut(types: seq<MsgType>, declared: seq<MsgType>) {
    |declared| == |types| && forall i :: 0 <= i < |types| ==> StandsFor(declared[i], types[i])
  }

  /** What a handler still has to declare. */
  function LeftOver(d: Duty): seq<MsgType> {
    match d
    case Confirming(_, types) => types
    case Declaring(types) => types
    case _ => []
  }

  /** Of a message some types are declared, and the others are left, in order. */
  ghost predicate Halfway(types: seq<MsgType>, declared: seq<MsgType>, left: seq<MsgType>) {
    |declared| + |left| == |types| && left == types[|declared|..] && CarriedOut(types[..|declared|], declared)
  }

  lemma DeclaredByGrows(tr: seq<Event>, from: nat, e: Event, c: Conn)
    requires from <= |tr|
    ensures DeclaredBy((tr + [e])[from..], c)
            == DeclaredBy(tr[from..], c) + if e.Declared? && e.handler == c then [e.ty] else []
  {
    assert (tr + [e])[from..] == tr[from..] + [e];
    Extend(tr[from..], e);
  }

  lemma HalfwayGoesOn(types: seq<MsgType>, declared: seq<MsgType>, left: seq<MsgType>, ty: MsgType)
    requires Halfway(types, declared, left) && left != [] && StandsFor(ty, left[0])
    ensures Halfway(types, declared + [ty], left[1..])
  {
    assert left[0] == types[|declared|];
    assert types[..|declared| + 1] == types[..|declared|] + [left[0]];
  }

  /** The handler of `c` is at work on the message since the event `from`. */
  ghost predicate AtWork(w: World, from: nat, c: Conn, types: seq<MsgType>) {
    && from <= |w.trace| && c in w.handlers
    && Halfway(types, DeclaredBy(w.trace[from..], c), LeftOver(w.handlers[c].duty))
  }

  lemma TraceGrows(w: World, s: Step)
    requires Enabled(w, s)
    ensures Next(w, s).trace == w.trace || exists e :: Next(w, s).trace == w.trace + [e]
  {
  }

  lemma DeclareKeepsAtWork(w: World, s: Step, from: nat, c: Conn, types: seq<MsgType>)
    requires Enabled(w, s) && s.Declare? && AtWork(w, from, c, types)
    ensures AtWork(Next(w, s), from, c, types)
  {
    var h := w.handlers[s.conn];
    if h.duty.types != [] {
      var e := Next(w, s).trace[|w.trace|];
      assert Next(w, s).trace == w.trace + [e];
      DeclaredByGrows(w.trace, from, e, c);
      if s.conn == c {
        HalfwayGoesOn(types, DeclaredBy(w.trace[from..], c), h.duty.types, e.ty);
      }
    }
  }

  lemma OtherStepKeepsAtWork(w: World, s: Step, from: nat, c: Conn, types: seq<MsgType>)
    requires Enabled(w, s) && !s.Declare? && AtWork(w, from, c, types)
    requires s.Receive? ==> s.conn != c
    ensures AtWork(Next(w, s), from, c, types)
  {
    var w' := Next(w, s);
    assert LeftOver(w'.handlers[c].duty) == LeftOver(w.handlers[c].duty);
    if w'.trace != w.trace {
      TraceGrows(w, s);
      var e :| w'.trace == w.trace + [e];
      assert e == w'.trace[|w.trace|] && !e.Declared?;
      DeclaredByGrows(w.trace, from, e, c);
    }
  }

  lemma StepKeepsAtWork(w: World, s: Step, from: nat, c: Conn, types: seq<MsgType>)
    requires Enabled(w, s) && AtWork(w, from, c, types)
    requires s.Receive? ==> s.conn != c
    ensures AtWork(Next(w, s), from, c, types)
  {
    if s.Declare? {
      DeclareKeepsAtWork(w, s, from, c, types);
    } else {
      OtherStepKeepsAtWork(w, s, from, c, types);
    }
  }

  lemma ReceiveStartsWork(w: World, c: Conn, types: seq<MsgType>)
    requires Enabled(w, Receive(c, types))
    ensures AtWork(Next(w, Receive(c, types)), |w.trace|, c, types)
  {
    assert w.trace[|w.trace|..] == [] && types[..0] == [] && types[0..] == types;
  }

  /** The handler of `c` receives the message in step `r` and none after it. */
  predicate LastReceived(steps: seq<Step>, r: nat, c: Conn, types: seq<MsgType>) {
    r < |steps| && steps[r] == Receive(c, types)
    && forall i :: r < i < |steps| && steps[i].Receive? ==> steps[i].conn != c
  }

  lemma LastReceivedBefore(steps: seq<Step>, r: nat, c: Conn, types: seq<MsgType>)
    requires LastReceived(steps, r, c, types) && r < |steps| - 1
    ensures LastReceived(steps[..|steps| - 1], r, c, types)
    ensures steps[|steps| - 1].Receive? ==> steps[|steps| - 1].conn != c
  {
    var before := steps[..|steps| - 1];
    assert forall i :: 0 <= i < |before| ==> before[i] == steps[i];
  }

  /** The run ends in the receipt. */
  lemma HandlerStartsWork(expected: set<Name>, steps: seq<Step>, strict: bool,
                          r: nat, w0: World, c: Conn, types: seq<MsgType>)
    requires Run(expected, steps, strict).Some? && LastReceived(steps, r, c, types) && r == |steps| - 1
    requires Run(expected, steps[..r], strict) == Some(w0)
    ensures AtWork(Run(expected, steps, strict).value, |w0.trace|, c, types)
  {
    var w := OneStepBack(expected, steps, strict, r);
    assert w == w0 && steps[r] == Receive(c, types);
    ReceiveStartsWork(w0, c, types);
  }

  lemma {:induction false} HandlerIsAtWork(expected: set<Name>, steps: seq<Step>, strict: bool,
                                           r: nat, w0: World, c: Conn, types: seq<MsgType>)
    requires Run(expected, steps, strict).Some? && LastReceived(steps, r, c, types)
    requires Run(expected, steps[..r], strict) == Some(w0)
    ensures AtWork(Run(expected, steps, strict).value, |w0.trace|, c, types)
    decreases |steps|
  {
    if r == |steps| - 1 {
      HandlerStartsWork(expected, steps, strict, r, w0, c, types);
    } else {
      var w := OneStepBack(expected, steps, strict, r);
      LastReceivedBefore(steps, r, c, types);
      HandlerIsAtWork(expected, steps[..|steps| - 1], strict, r, w0, c, types);
      StepKeepsAtWork(w, steps[|steps| - 1], |w0.trace|, c, types);
    }
  }

  /** On every run, when the handler of a connection is serving again, or has left, it has
      since declared each type of the last readiness message it received, once and in
      order. */
  lemma ReadinessIsCarriedOut(expected: set<Name>, steps: seq<Step>, strict: bool,
                              r: nat, w0: World, c: Conn, types: seq<MsgType>)
    requires Run(expected, steps, strict).Some? && LastReceived(steps, r, c, types)
    requires Run(expected, steps[..r], strict) == Some(w0)
    requires DutyOf(Run(expected, steps, strict).value, c, (d: Duty) => d.Serving? || d.Gone?)
    ensures var tr := Run(expected, steps, strict).value.trace;
            |w0.trace| <= |tr| && CarriedOut(types, DeclaredBy(tr[|w0.trace|..], c))
  {
    HandlerIsAtWork(expected, steps, strict, r, w0, c, types);
    assert types[..|types|] == types;
  }

  // ---- what becomes of the readiness ------------------------------------

  /** What the handler of `c` declared since `from` is ready for its name, unless the name
      was removed. */
  ghost predicate StillReady(w: World, from: nat, c: Conn, n: Name) {
    && from <= |w.trace| && c in w.handlers && w.handlers[c].name == n
    && (Left(n) !in w.trace[from..] ==>
          forall ty :: ty in DeclaredBy(w.trace[from..], c) ==> ty in ReadyFor(w.tables, n))
  }

  lemma ReadinessShrinksOnlyByLeaving(w: World, s: Step, n: Name)
    requires Enabled(w, s)
    ensures ReadyFor(w.tables, n) <= ReadyFor(Next(w, s).tables, n)
            || (Next(w, s).trace == w.trace + [Left(n)])
    ensures s.Declare? && w.handlers[s.conn].duty.types != [] ==>
              var e := Declared(w.handlers[s.conn].name, s.conn, Bare(w.handlers[s.conn].duty.types[0]));
              Next(w, s).trace == w.trace + [e] && e.ty in ReadyFor(Next(w, s).tables, e.name)
    ensures !(s.Declare? && w.handlers[s.conn].duty.types != []) ==>
              Next(w, s).trace == w.trace || exists e :: Next(w, s).trace == w.trace + [e] && !e.Declared?
  {
    if !(s.Declare? && w.handlers[s.conn].duty.types != []) && Next(w, s).trace != w.trace {
      assert Next(w, s).trace == w.trace + [Next(w, s).trace[|w.trace|]];
    }
  }

  lemma EventKeepsStillReady(w: World, w': World, e: Event, from: nat, c: Conn, n: Name)
    requires StillReady(w, from, c, n) && w'.trace == w.trace + [e]
    requires c in w'.handlers && w'.handlers[c].name == n
    requires e == Left(n) || ReadyFor(w.tables, n) <= ReadyFor(w'.tables, n)
    requires e.Declared? && e.handler == c ==> e.ty in ReadyFor(w'.tables, n)
    ensures StillReady(w', from, c, n)
  {
    var since := w.trace[from..];
    assert w'.trace[from..] == since + [e];
    DeclaredByGrows(w.trace, from, e, c);
    assert e == (since + [e])[|since|];
    assert forall x :: x in since + [e] <==> x in since || x == e;
  }

  lemma StepKeepsStillReady(w: World, s: Step, from: nat, c: Conn, n: Name)
    requires Enabled(w, s) && StillReady(w, from, c, n)
    ensures StillReady(Next(w, s), from, c, n)
  {
    var w' := Next(w, s);
    ReadinessShrinksOnlyByLeaving(w, s, n);
    assert w'.handlers[c].name == n;
    if w'.trace != w.trace {
      TraceGrows(w, s);
      var e :| w'.trace == w.trace + [e];
      assert e == w'.trace[|w.trace|];
      EventKeepsStillReady(w, w', e, from, c, n);
    }
  }

  lemma {:induction false} DeclaredStaysReady(expected: set<Name>, steps: seq<Step>, strict: bool, r: nat, w0: World, c: Conn)
    requires Run(expected, steps, strict).Some? && r <= |steps|
    requires Run(expected, steps[..r], strict) == Some(w0) && c in w0.handlers
    ensures StillReady(Run(expected, steps, strict).value, |w0.trace|, c, w0.handlers[c].name)
    decreases |steps|
  {
    if r == |steps| {
      assert steps[..r] == steps;
      assert w0.trace[|w0.trace|..] == [];
    } else {
      var w := OneStepBack(expected, steps, strict, r);
      DeclaredStaysReady(expected, steps[..|steps| - 1], strict, r, w0, c);
      StepKeepsStillReady(w, steps[|steps| - 1], |w0.trace|, c, w0.handlers[c].name);
    }
  }

  /** What was ready at `from`, and what the handler of `c` declared since. */
  ghost predicate Grown(base: set<MsgType>, w: World, from: nat, c: Conn, n: Name) {
    && from <= |w.trace| && c in w.handlers && w.handlers[c].name == n && !w.handlers[c].duty.Gone?
    && ReadyFor(w.tables, n) == base + set ty | ty in DeclaredBy(w.trace[from..], c)
  }

  lemma DeclareGrows(base: set<MsgType>, w: World, s: Step, from: nat, c: Conn, n: Name)
    requires HandlersOwnTheirNames(w) && Enabled(w, s) && s.Declare? && Grown(base, w, from, c, n)
    ensures Grown(base, Next(w, s), from, c, n)
  {
    var h := w.handlers[s.conn];
    if h.duty.types != [] {
      var e := Next(w, s).trace[|w.trace|];
      assert Next(w, s).trace == w.trace + [e];
      DeclaredByGrows(w.trace, from, e, c);
      assert s.conn != c ==> h.name != n;
    }
  }

  lemma OtherStepGrows(base: set<MsgType>, w: World, s: Step, from: nat, c: Conn, n: Name)
    requires HandlersOwnTheirNames(w) && Enabled(w, s) && HandsOver(w, s) && !s.Declare? && Grown(base, w, from, c, n)
    requires !Next(w, s).handlers[c].duty.Gone?
    ensures Grown(base, Next(w, s), from, c, n)
  {
    var w' := Next(w, s);
    assert ReadyFor(w'.tables, n) == ReadyFor(w.tables, n);
    if w'.trace != w.trace {
      TraceGrows(w, s);
      var e :| w'.trace == w.trace + [e];
      assert e == w'.trace[|w.trace|] && !e.Declared?;
      DeclaredByGrows(w.trace, from, e, c);
    }
  }

  ghost predicate GrownUnlessGone(base: set<MsgType>, w: World, from: nat, c: Conn, n: Name) {
    c in w.handlers && (w.handlers[c].duty.Gone? || Grown(base, w, from, c, n))
  }

  lemma StepGrows(base: set<MsgType>, w: World, s: Step, from: nat, c: Conn, n: Name)
    requires Orderly(w) && Enabled(w, s) && HandsOver(w, s) && GrownUnlessGone(base, w, from, c, n)
    ensures GrownUnlessGone(base, Next(w, s), from, c, n)
  {
    if !w.handlers[c].duty.Gone? && !Next(w, s).handlers[c].duty.Gone? {
      if s.Declare? {
        DeclareGrows(base, w, s, from, c, n);
      } else {
        OtherStepGrows(base, w, s, from, c, n);
      }
    }
  }

  lemma {:induction false} DeclaredIsAllThatGrows(expected: set<Name>, steps: seq<Step>, r: nat, w0: World, c: Conn)
    requires Run(expected, steps, true).Some? && r <= |steps|
    requires Run(expected, steps[..r], true) == Some(w0) && c in w0.handlers
    ensures var n := w0.handlers[c].name;
            GrownUnlessGone(ReadyFor(w0.tables, n), Run(expected, steps, true).value, |w0.trace|, c, n)
    decreases |steps|
  {
    var m, n := |steps| - 1, w0.handlers[c].name;
    if r == |steps| {
      assert steps[..r] == steps;
      assert w0.trace[|w0.trace|..] == [];
    } else {
      var w := OneStepBack(expected, steps, true, r);
      DeclaredIsAllThatGrows(expected, steps[..m], r, w0, c);
      StrictRunsAreOrderly(expected, steps[..m]);
      StepGrows(ReadyFor(w0.tables, n), w, steps[m], |w0.trace|, c, n);
    }
  }

  lemma CarriedOutElements(types: seq<MsgType>, declared: seq<MsgType>, ty: MsgType)
    requires CarriedOut(types, declared)
    ensures ty in declared <==> exists i :: 0 <= i < |types| && StandsFor(ty, types[i])
  {
    if ty in declared {
      var i :| 0 <= i < |declared| && declared[i] == ty;
      assert StandsFor(ty, types[i]);
    }
    if i :| 0 <= i < |types| && StandsFor(ty, types[i]) {
      assert declared[i] == ty;
    }
  }

  /** On every run every type of the message is ready when its handler is serving again,
      unless the name was removed since. */
  lemma ReadinessTakesEffect(expected: set<Name>, steps: seq<Step>, strict: bool,
                             r: nat, w0: World, c: Conn, types: seq<MsgType>, ty: MsgType)
    requires Run(expected, steps, strict).Some? && LastReceived(steps, r, c, types)
    requires Run(expected, steps[..r], strict) == Some(w0) && c in w0.handlers
    requires var w := Run(expected, steps, strict).value;
             && DutyOf(w, c, (d: Duty) => d.Serving?)
             && |w0.trace| <= |w.trace| && Left(w0.handlers[c].name) !in w.trace[|w0.trace|..]
    requires exists i :: 0 <= i < |types| && StandsFor(ty, types[i])
    ensures ty in ReadyFor(Run(expected, steps, strict).value.tables, w0.handlers[c].name)
  {
    var w := Run(expected, steps, strict).value;
    ReadinessIsCarriedOut(expected, steps, strict, r, w0, c, types);
    DeclaredStaysReady(expected, steps, strict, r, w0, c);
    CarriedOutElements(types, DeclaredBy(w.trace[|w0.trace|..], c), ty);
  }

  /** Under strict handover the name's readiness has then grown by exactly the types of
      the message. */
  lemma ReadinessGrowsByTheMessage(expected: set<Name>, steps: seq<Step>,
                                   r: nat, w0: World, c: Conn, types: seq<MsgType>, ty: MsgType)
    requires Run(expected, steps, true).Some? && LastReceived(steps, r, c, types)
    requires Run(expected, steps[..r], true) == Some(w0) && c in w0.handlers
    requires DutyOf(Run(expected, steps, true).value, c, (d: Duty) => d.Serving?)
    ensures var n := w0.handlers[c].name;
            ty in ReadyFor(Run(expected, steps, true).value.tables, n)
            <==> ty in ReadyFor(w0.tables, n) || exists i :: 0 <= i < |types| && StandsFor(ty, types[i])
  {
    var w := Run(expected, steps, true).value;
    ReadinessIsCarriedOut(expected, steps, true, r, w0, c, types);
    DeclaredIsAllThatGrows(expected, steps, r, w0, c);
    CarriedOutElements(types, DeclaredBy(w.trace[|w0.trace|..], c), ty);
  }
}
