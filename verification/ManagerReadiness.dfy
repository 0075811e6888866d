/** Whether a message that waits for readiness is still owed to its receiver when it is
    written: what the history says of the receiver at that moment. */
module ManagerReadiness {
  import opened Basics
  import opened ProcessManager
  import opened ManagerProtocol
  import opened ManagerOrdering

  /** What a name declared since its last removal, it declared on the connection it is
      registered with; a name without one declared nothing. */
  ghost predicate DeclaredWhileJoined(tr: seq<Event>) {
    forall n :: DeclaredSince(tr, n) == if JoinedAs(tr, n).Some? then DeclaredOn(tr, JoinedAs(tr, n).value) else {}
  }

  ghost predicate AlwaysDeclaredWhileJoined(tr: seq<Event>) {
    forall i :: 0 <= i <= |tr| ==> DeclaredWhileJoined(tr[..i])
  }

  /** Nothing is declared on a connection that never registered. */
  ghost predicate StrangersDeclareNothing(w: World) {
    forall c :: c !in w.handlers ==> DeclaredOn(w.trace, c) == {}
  }

  /** No two names are registered with one connection. */
  ghost predicate JoinedApart(tr: seq<Event>) {
    forall m, n :: JoinedAs(tr, m).Some? && JoinedAs(tr, m) == JoinedAs(tr, n) ==> m == n
  }

  lemma OrderlyIsJoinedApart(w: World)
    requires Orderly(w)
    ensures JoinedApart(w.trace)
  {
    forall m, n | JoinedAs(w.trace, m).Some? && JoinedAs(w.trace, m) == JoinedAs(w.trace, n)
      ensures m == n
    {
      assert w.handlers[w.tables.conns[m]].name == m && w.handlers[w.tables.conns[n]].name == n;
    }
  }

  /** The conditions under which strict handover lets an event happen. */
  ghost predicate Fits(tr: seq<Event>, e: Event) {
    match e
    case Joined(n, c) => JoinedAs(tr, n).None? && DeclaredOn(tr, c) == {}
    case Declared(n, _, ty) => JoinedAs(tr, n).Some?
    case _ => true
  }

  lemma EventKeepsDeclaredWhileJoined(tr: seq<Event>, e: Event)
    requires DeclaredWhileJoined(tr) && JoinedApart(tr) && Fits(tr, e)
    ensures DeclaredWhileJoined(tr + [e])
  {
    Extend(tr, e);
    forall n
      ensures DeclaredSince(tr + [e], n)
              == if JoinedAs(tr + [e], n).Some? then DeclaredOn(tr + [e], JoinedAs(tr + [e], n).value) else {}
    {
      assert DeclaredSince(tr, n) == if JoinedAs(tr, n).Some? then DeclaredOn(tr, JoinedAs(tr, n).value) else {};
    }
  }

  lemma NextFits(w: World, s: Step)
    requires Orderly(w) && StrangersDeclareNothing(w) && Enabled(w, s) && HandsOver(w, s)
    ensures |Next(w, s).trace| > |w.trace| ==>
              Next(w, s).trace == w.trace + [Next(w, s).trace[|w.trace|]] && Fits(w.trace, Next(w, s).trace[|w.trace|])
  {
  }

  lemma HandlersStay(w: World, s: Step)
    requires Enabled(w, s)
    ensures w.handlers.Keys <= Next(w, s).handlers.Keys
  {
  }

  lemma EventDeclaresOnTheJoined(tr: seq<Event>, e: Event, c: Conn)
    ensures DeclaredOn(tr + [e], c) == DeclaredOn(tr, c)
            || (e.Declared? && JoinedAs(tr, e.name) == Some(c))
  {
    Extend(tr, e);
  }

  lemma JoinedHaveHandlers(w: World, n: Name)
    requires Orderly(w) && JoinedAs(w.trace, n).Some?
    ensures JoinedAs(w.trace, n).value in w.handlers
  {
    assert n in w.tables.conns;
  }

  lemma NextKeepsStrangersOut(w: World, s: Step)
    requires Orderly(w) && StrangersDeclareNothing(w) && Enabled(w, s) && HandsOver(w, s)
    ensures StrangersDeclareNothing(Next(w, s))
  {
    HandlersStay(w, s);
    NextFits(w, s);
    var tr, tr' := w.trace, Next(w, s).trace;
    forall c | c !in Next(w, s).handlers
      ensures DeclaredOn(tr', c) == {}
    {
      assert c !in w.handlers;
      if |tr'| > |tr| {
        EventDeclaresOnTheJoined(tr, tr'[|tr|], c);
        if tr'[|tr|].Declared? {
          JoinedHaveHandlers(w, tr'[|tr|].name);
        }
      }
    }
  }

  lemma AlwaysExtends(tr: seq<Event>, e: Event)
    requires AlwaysDeclaredWhileJoined(tr) && DeclaredWhileJoined(tr + [e])
    ensures AlwaysDeclaredWhileJoined(tr + [e])
  {
    var all := tr + [e];
    forall i | 0 <= i <= |all|
      ensures DeclaredWhileJoined(all[..i])
    {
      if i <= |tr| {
        assert all[..i] == tr[..i];
      } else {
        assert all[..i] == all;
      }
    }
  }

  lemma {:induction false} StrictRunsDeclareWhileJoined(expected: set<Name>, steps: seq<Step>)
    requires Run(expected, steps, true).Some?
    ensures var w := Run(expected, steps, true).value;
            AlwaysDeclaredWhileJoined(w.trace) && StrangersDeclareNothing(w)
  {
    if steps != [] {
      var before, s := steps[..|steps| - 1], steps[|steps| - 1];
      var w := Run(expected, before, true).value;
      StrictRunsDeclareWhileJoined(expected, before);
      StrictRunsAreOrderly(expected, before);
      OrderlyIsJoinedApart(w);
      NextFits(w, s);
      NextKeepsStrangersOut(w, s);
      if |Next(w, s).trace| > |w.trace| {
        var e := Next(w, s).trace[|w.trace|];
        assert w.trace[..|w.trace|] == w.trace;
        EventKeepsDeclaredWhileJoined(w.trace, e);
        AlwaysExtends(w.trace, e);
      }
    }
  }

  /** Under strict handover a message that waited for readiness is written after a
      declaration that followed the receiver's last removal exactly when the receiver is
      registered at that moment with a connection on which it declared the type. */
  lemma WriteIsOwedIffReceiverIsReady(expected: set<Name>, steps: seq<Step>, i: nat)
    requires Run(expected, steps, true).Some?
    requires var tr := Run(expected, steps, true).value.trace; i < |tr| && IsGated(tr[i])
    ensures var tr := Run(expected, steps, true).value.trace[..i];
            var p := Run(expected, steps, true).value.trace[i].packet;
            p.ty in DeclaredSince(tr, p.name)
            <==> JoinedAs(tr, p.name).Some? && p.ty in DeclaredOn(tr, JoinedAs(tr, p.name).value)
  {
    StrictRunsDeclareWhileJoined(expected, steps);
    assert DeclaredWhileJoined(Run(expected, steps, true).value.trace[..i]);
  }
}
