/** The process manager as a protocol: goroutines that interleave one critical
    section, one channel operation or one write at a time. */
module ManagerProtocol {
  import opened Basics
  import opened ProcessManager

  datatype Packet = Confirmation | PreReady | Gated(name: Name, ty: MsgType)

  /** What happened, in order. */
  datatype Event =
    | Joined(name: Name, conn: Conn)
    | Left(name: Name)
    | Declared(name: Name, handler: Conn, ty: MsgType)
    | Wrote(conn: Conn, packet: Packet)
    | ConfirmationFailed(conn: Conn)

  /** Where a goroutine stands in a waiting loop and in the write that follows it. */
  datatype Wait = Looking | Parked(ch: Chan) | Holding(conn: Conn) | Finished

  datatype Sender = Sender(want: Want, wait: Wait)

  /** What the handler of a registered connection is doing.  It confirms a
      readiness message first and declares its types afterwards, even if the
      confirmation could not be written. */
  datatype Duty =
    | Serving
    | Confirming(wait: Wait, types: seq<MsgType>)
    | Declaring(types: seq<MsgType>)
    | Gone

  datatype Handler = Handler(name: Name, duty: Duty)

  datatype World = World(
    expected: set<Name>,
    tables: Tables,
    senders: map<nat, Sender>,
    handlers: map<Conn, Handler>,
    broken: set<Conn>,
    trace: seq<Event>)

  datatype Step =
    | Register(name: Name, conn: Conn)
    | Unregister(conn: Conn)
    | Receive(conn: Conn, types: seq<MsgType>)
    | ConfirmLook(conn: Conn)
    | ConfirmWake(conn: Conn)
    | ConfirmWrite(conn: Conn, arrives: bool)
    | Declare(conn: Conn)
    | Send(id: nat, dst: Name, content: Option<MsgType>)
    | Look(id: nat)
    | Wake(id: nat)
    | Write(id: nat, arrives: bool)
    | Break(conn: Conn)

  function Start(expected: set<Name>): World {
    World(expected, NewTables(), map[], map[], {}, [])
  }

  predicate DutyOf(w: World, c: Conn, test: Duty -> bool) {
    c in w.handlers && test(w.handlers[c].duty)
  }

  predicate WaitOf(w: World, id: nat, test: Wait -> bool) {
    id in w.senders && test(w.senders[id].wait)
  }

  predicate Enabled(w: World, s: Step) {
    match s
    case Register(n, c) => n in w.expected && c !in w.handlers
    case Unregister(c) => DutyOf(w, c, (d: Duty) => d.Serving?)
    case Receive(c, types) => DutyOf(w, c, (d: Duty) => d.Serving?)
    case ConfirmLook(c) => DutyOf(w, c, (d: Duty) => d.Confirming? && d.wait.Looking?)
    case ConfirmWake(c) => DutyOf(w, c, (d: Duty) => d.Confirming? && d.wait.Parked? && d.wait.ch in w.tables.closes)
    case ConfirmWrite(c, _) => DutyOf(w, c, (d: Duty) => d.Confirming? && d.wait.Holding?)
    case Declare(c) => DutyOf(w, c, (d: Duty) => d.Declaring?)
    case Send(id, dst, content) => id !in w.senders && dst in w.expected
    case Look(id) => WaitOf(w, id, (v: Wait) => v.Looking?)
    case Wake(id) => WaitOf(w, id, (v: Wait) => v.Parked? && v.ch in w.tables.closes)
    case Write(id, _) => WaitOf(w, id, (v: Wait) => v.Holding?)
    case Break(c) => true
  }

  /** The critical section of a waiting loop. */
  function Looked(t: Tables, want: Want): Wait {
    if Satisfied(t, want) then Holding(t.conns[want.dst]) else Parked(t.changed)
  }

  /** A write to a broken connection fails; any other may fail, too. */
  function Written(w: World, c: Conn, p: Packet, arrives: bool): seq<Event> {
    if c in w.broken then w.trace
    else if arrives then w.trace + [Wrote(c, p)]
    else if p.Confirmation? then w.trace + [ConfirmationFailed(c)]
    else w.trace
  }

  function OnDuty(w: World, c: Conn, d: Duty): World
    requires c in w.handlers
  {
    w.(handlers := w.handlers[c := w.handlers[c].(duty := d)])
  }

  function Waiting(w: World, id: nat, v: Wait): World
    requires id in w.senders
  {
    w.(senders := w.senders[id := w.senders[id].(wait := v)])
  }

  function PacketOf(want: Want): Packet {
    if want.gate.Some? then Gated(want.dst, want.gate.value) else PreReady
  }

  function Next(w: World, s: Step): World
    requires Enabled(w, s)
  {
    match s
    case Register(n, c) =>
      w.(tables := ProcessManager.Registered(w.tables, n, c),
         handlers := w.handlers[c := Handler(n, Serving)],
         broken := w.broken + (if n in w.tables.conns then {w.tables.conns[n]} else {}),
         trace := w.trace + [Joined(n, c)])
    case Unregister(c) =>
      var n := w.handlers[c].name;
      OnDuty(w, c, Gone).(tables := Unregistered(w.tables, n), trace := w.trace + [Left(n)])
    case Receive(c, types) =>
      OnDuty(w, c, Confirming(Looking, types))
    case ConfirmLook(c) =>
      var h := w.handlers[c];
      OnDuty(w, c, Confirming(Looked(w.tables, Want(h.name, None)), h.duty.types))
    case ConfirmWake(c) =>
      OnDuty(w, c, Confirming(Looking, w.handlers[c].duty.types))
    case ConfirmWrite(c, arrives) =>
      var d := w.handlers[c].duty;
      OnDuty(w, c, Declaring(d.types)).(trace := Written(w, d.wait.conn, Confirmation, arrives))
    case Declare(c) =>
      var h := w.handlers[c];
      if h.duty.types == [] then OnDuty(w, c, Serving)
      else
        var ty := Bare(h.duty.types[0]);
        OnDuty(w, c, Declaring(h.duty.types[1..])).(
          tables := MadeReady(w.tables, h.name, ty), trace := w.trace + [Declared(h.name, c, ty)])
    case Send(id, dst, content) =>
      var gate := if content.Some? then Some(Bare(content.value)) else None;
      w.(senders := w.senders[id := Sender(Want(dst, gate), Looking)])
    case Look(id) =>
      Waiting(w, id, Looked(w.tables, w.senders[id].want))
    case Wake(id) =>
      Waiting(w, id, Looking)
    case Write(id, arrives) =>
      Waiting(w, id, Finished).(
        trace := Written(w, w.senders[id].wait.conn, PacketOf(w.senders[id].want), arrives))
    case Break(c) =>
      w.(broken := w.broken + {c})
  }

  /** A name re-registers only after its old registration was removed. */
  predicate HandsOver(w: World, s: Step) {
    s.Register? ==> s.name !in w.tables.conns
  }

  /** Where a sequence of steps leads, if every step is possible when it is taken. */
  function Run(expected: set<Name>, steps: seq<Step>, strict: bool): Option<World> {
    if steps == [] then Some(Start(expected))
    else
      var before := Run(expected, steps[..|steps| - 1], strict);
      var s := steps[|steps| - 1];
      if before.Some? && Enabled(before.value, s) && (strict ==> HandsOver(before.value, s))
      then Some(Next(before.value, s))
      else None
  }

  lemma RunExtends(expected: set<Name>, steps: seq<Step>, s: Step, strict: bool)
    ensures Run(expected, steps + [s], strict) ==
            var before := Run(expected, steps, strict);
            if before.Some? && Enabled(before.value, s) && (strict ==> HandsOver(before.value, s))
            then Some(Next(before.value, s)) else None
  {
    assert (steps + [s])[..|steps|] == steps;
  }

  // ---- no lost wake-up --------------------------------------------------

  /** Parked on the open channel only while there is nothing to be woken for. */
  predicate NotForgotten(t: Tables, v: Wait, want: Want) {
    v.Parked? ==> v.ch <= t.changed && (v.ch == t.changed ==> !Satisfied(t, want))
  }

  ghost predicate NobodyForgotten(w: World) {
    && OneOpenChannel(w.tables)
    && (forall id :: id in w.senders ==> NotForgotten(w.tables, w.senders[id].wait, w.senders[id].want))
    && (forall c :: c in w.handlers && w.handlers[c].duty.Confirming? ==>
          NotForgotten(w.tables, w.handlers[c].duty.wait, Want(w.handlers[c].name, None)))
  }

  lemma NextForgetsNobody(w: World, s: Step)
    requires NobodyForgotten(w) && Enabled(w, s)
    ensures NobodyForgotten(Next(w, s))
  {
    if s.Declare? && w.handlers[s.conn].duty.types != [] {
      var n, ty := w.handlers[s.conn].name, Bare(w.handlers[s.conn].duty.types[0]);
      if ty in ReadyFor(w.tables, n) {
        assert ReadyFor(w.tables, n) + {ty} == ReadyFor(w.tables, n);
        assert MadeReady(w.tables, n, ty) == w.tables;
      }
    }
  }

  lemma {:induction false} NobodyIsEverForgotten(expected: set<Name>, steps: seq<Step>, strict: bool)
    requires Run(expected, steps, strict).Some?
    ensures NobodyForgotten(Run(expected, steps, strict).value)
  {
    if steps != [] {
      var before := steps[..|steps| - 1];
      NobodyIsEverForgotten(expected, before, strict);
      NextForgetsNobody(Run(expected, before, strict).value, steps[|steps| - 1]);
    }
  }

  /** In every reachable state, whoever is parked either holds a closed channel or
      waits for something that is not the case; one channel is open, the current
      one, and no channel was closed twice. */
  lemma NoLostWakeUp(expected: set<Name>, steps: seq<Step>)
    requires Run(expected, steps, false).Some?
    ensures var w := Run(expected, steps, false).value;
            && (forall id :: id in w.senders && w.senders[id].wait.Parked? ==>
                  w.senders[id].wait.ch in w.tables.closes || !Satisfied(w.tables, w.senders[id].want))
            && (forall c :: c in w.handlers && w.handlers[c].duty.Confirming? && w.handlers[c].duty.wait.Parked? ==>
                  w.handlers[c].duty.wait.ch in w.tables.closes || w.handlers[c].name !in w.tables.conns)
            && (forall ch :: 0 <= ch <= w.tables.changed ==> (ch in w.tables.closes <==> ch != w.tables.changed))
            && (forall i, j :: 0 <= i < j < |w.tables.closes| ==> w.tables.closes[i] != w.tables.closes[j])
  {
    NobodyIsEverForgotten(expected, steps, false);
    var t := Run(expected, steps, false).value.tables;
    forall ch | 0 <= ch <= t.changed
      ensures ch in t.closes <==> ch != t.changed
    {
      if ch < t.changed {
        assert t.closes[ch] == ch;
      }
    }
  }

  /** Whoever is parked although the wait is over can run, and its next look gets
      the connection. */
  lemma SatisfiedWaiterProceeds(expected: set<Name>, steps: seq<Step>, id: nat)
    requires Run(expected, steps, false).Some?
    requires var w := Run(expected, steps, false).value;
             WaitOf(w, id, (v: Wait) => v.Parked?) && Satisfied(w.tables, w.senders[id].want)
    ensures var w := Run(expected, steps, false).value;
            var more := steps + [Wake(id)] + [Look(id)];
            && Run(expected, more, false).Some?
            && Run(expected, more, false).value.senders[id].wait == Holding(w.tables.conns[w.senders[id].want.dst])
  {
    NoLostWakeUp(expected, steps);
    RunExtends(expected, steps, Wake(id), false);
    RunExtends(expected, steps + [Wake(id)], Look(id), false);
  }

  /** So can a handler that is parked before its confirmation while its name has a
      connection. */
  lemma SatisfiedConfirmationProceeds(expected: set<Name>, steps: seq<Step>, c: Conn)
    requires Run(expected, steps, false).Some?
    requires var w := Run(expected, steps, false).value;
             && DutyOf(w, c, (d: Duty) => d.Confirming? && d.wait.Parked?)
             && w.handlers[c].name in w.tables.conns
    ensures var w := Run(expected, steps, false).value;
            var h, more := w.handlers[c], steps + [ConfirmWake(c)] + [ConfirmLook(c)];
            && Run(expected, more, false).Some?
            && Run(expected, more, false).value.handlers[c]
               == Handler(h.name, Confirming(Holding(w.tables.conns[h.name]), h.duty.types))
  {
    NoLostWakeUp(expected, steps);
    RunExtends(expected, steps, ConfirmWake(c), false);
    RunExtends(expected, steps + [ConfirmWake(c)], ConfirmLook(c), false);
  }

  // ---- broken connections -----------------------------------------------

  /** A run and the state it passes after `r` steps, one step further on. */
  lemma OneStepBack(expected: set<Name>, steps: seq<Step>, strict: bool, r: nat) returns (w: World)
    requires Run(expected, steps, strict).Some? && r < |steps|
    ensures var m := |steps| - 1;
            && Run(expected, steps[..m], strict) == Some(w) && steps[..m][..r] == steps[..r]
            && Enabled(w, steps[m]) && (strict ==> HandsOver(w, steps[m]))
            && Run(expected, steps, strict) == Some(Next(w, steps[m]))
  {
    w := Run(expected, steps[..|steps| - 1], strict).value;
  }

  ghost predicate SilentSince(tr: seq<Event>, from: nat, c: Conn) {
    from <= |tr| && forall i :: from <= i < |tr| && tr[i].Wrote? ==> tr[i].conn != c
  }

  lemma StepKeepsSilent(w: World, s: Step, from: nat, c: Conn)
    requires Enabled(w, s) && c in w.broken && SilentSince(w.trace, from, c)
    ensures c in Next(w, s).broken && SilentSince(Next(w, s).trace, from, c)
  {
  }

  lemma {:induction false} BrokenStaysSilent(expected: set<Name>, steps: seq<Step>, strict: bool,
                                             r: nat, w0: World, c: Conn)
    requires Run(expected, steps, strict).Some? && r <= |steps|
    requires Run(expected, steps[..r], strict) == Some(w0) && c in w0.broken
    ensures var w := Run(expected, steps, strict).value;
            c in w.broken && SilentSince(w.trace, |w0.trace|, c)
    decreases |steps|
  {
    if r == |steps| {
      assert steps[..r] == steps;
    } else {
      var w := OneStepBack(expected, steps, strict, r);
      BrokenStaysSilent(expected, steps[..|steps| - 1], strict, r, w0, c);
      StepKeepsSilent(w, steps[|steps| - 1], |w0.trace|, c);
    }
  }

  /** When a name registers again, its replaced connection is closed: on every run
      nothing is written to it from then on. */
  lemma ReplacedConnectionIsSilent(expected: set<Name>, steps: seq<Step>, r: nat, w0: World)
    requires Run(expected, steps, false).Some? && r < |steps| && steps[r].Register?
    requires Run(expected, steps[..r], false) == Some(w0) && steps[r].name in w0.tables.conns
    ensures SilentSince(Run(expected, steps, false).value.trace, |w0.trace|, w0.tables.conns[steps[r].name])
  {
    assert steps[..r + 1] == steps[..r] + [steps[r]];
    RunExtends(expected, steps[..r], steps[r], false);
    PrefixRuns(expected, steps, false, r + 1);
    var w1, c := Run(expected, steps[..r + 1], false).value, w0.tables.conns[steps[r].name];
    BrokenStaysSilent(expected, steps, false, r + 1, w1, c);
    var tr := Run(expected, steps, false).value.trace;
    assert w1.trace == w0.trace + [Joined(steps[r].name, steps[r].conn)];
    TraceOnlyGrows(expected, steps, false, r + 1, w1);
  }

  lemma {:induction false} TraceOnlyGrows(expected: set<Name>, steps: seq<Step>, strict: bool, r: nat, w0: World)
    requires Run(expected, steps, strict).Some? && r <= |steps|
    requires Run(expected, steps[..r], strict) == Some(w0)
    ensures w0.trace <= Run(expected, steps, strict).value.trace
    decreases |steps|
  {
    if r == |steps| {
      assert steps[..r] == steps;
    } else {
      var w := OneStepBack(expected, steps, strict, r);
      TraceOnlyGrows(expected, steps[..|steps| - 1], strict, r, w0);
      assert w.trace <= Next(w, steps[|steps| - 1]).trace;
    }
  }

  lemma {:induction false} PrefixRuns(expected: set<Name>, steps: seq<Step>, strict: bool, n: nat)
    requires Run(expected, steps, strict).Some? && n <= |steps|
    ensures Run(expected, steps[..n], strict).Some?
    decreases |steps|
  {
    if n == |steps| {
      assert steps[..n] == steps;
    } else {
      assert steps[..|steps| - 1][..n] == steps[..n];
      PrefixRuns(expected, steps[..|steps| - 1], strict, n);
    }
  }
}
