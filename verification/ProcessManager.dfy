/** The process manager: its tables, the broadcast channel that is replaced on
    every change, and the critical sections of its methods. */
module ProcessManager {
  import opened Basics

  type Name = string
  /** An accepted connection. */
  type Conn = nat
  /** The channels are numbered in the order they are made. */
  type Chan = nat

  datatype MsgType = Plain(name: string) | PointerTo(elem: MsgType)

  /** Readiness is declared and awaited for the type behind at most one pointer. */
  function Bare(t: MsgType): MsgType {
    if t.PointerTo? then t.elem else t
  }

  /** What `connsLocker` guards, with a record of every channel ever closed. */
  datatype Tables = Tables(
    conns: map<Name, Conn>,
    ready: map<Name, set<MsgType>>,
    changed: Chan,
    closes: seq<Chan>)

  function NewTables(): Tables {
    Tables(map[], map[], 0, [])
  }

  /** The broadcast: a new channel takes over, the old one is closed. */
  function Broadcast(t: Tables): Tables {
    t.(changed := t.changed + 1, closes := t.closes + [t.changed])
  }

  function Registered(t: Tables, n: Name, c: Conn): Tables {
    Broadcast(t.(conns := t.conns[n := c]))
  }

  function Unregistered(t: Tables, n: Name): Tables {
    Broadcast(t.(conns := t.conns - {n}, ready := t.ready - {n}))
  }

  function ReadyFor(t: Tables, n: Name): set<MsgType> {
    if n in t.ready then t.ready[n] else {}
  }

  /** A repeated declaration is reported and wakes nobody. */
  function MadeReady(t: Tables, n: Name, ty: MsgType): Tables {
    var table := t.(ready := t.ready[n := ReadyFor(t, n) + {ty}]);
    if ty in ReadyFor(t, n) then table else Broadcast(table)
  }

  /** What a goroutine waits for: a connection, and perhaps readiness for a type. */
  datatype Want = Want(dst: Name, gate: Option<MsgType>)

  predicate Satisfied(t: Tables, w: Want) {
    && w.dst in t.conns
    && (w.gate.Some? ==> w.gate.value in ReadyFor(t, w.dst))
  }

  class Manager {
    const allClientProcesses: seq<Name>
    var conns: map<Name, Conn>
    var childReadyFor: map<Name, set<MsgType>>
    var connsChanged: Chan
    ghost var closes: seq<Chan>
    /** The connections the manager closed. */
    ghost var closedConns: set<Conn>

    ghost function Abs(): Tables
      reads this
    {
      Tables(conns, childReadyFor, connsChanged, closes)
    }

    constructor (expectedClients: seq<Name>)
      ensures Abs() == NewTables() && closedConns == {}
      ensures allClientProcesses == expectedClients
    {
      allClientProcesses := expectedClients;
      conns, childReadyFor, connsChanged := map[], map[], 0;
      closes, closedConns := [], {};
    }

    method IsExpectedProcess(name: Name) returns (expected: bool)
      ensures expected <==> name in allClientProcesses
    {
      for i := 0 to |allClientProcesses|
        invariant name !in allClientProcesses[..i]
      {
        if name == allClientProcesses[i] {
          return true;
        }
      }
      return false;
    }

    /** Closing a channel twice panics; it never is. */
    method CloseChannel(ch: Chan)
      requires ch !in closes
      modifies this`closes
      ensures closes == old(closes) + [ch]
    {
      closes := closes + [ch];
    }

    ghost predicate Valid()
      reads this
    {
      OneOpenChannel(Abs())
    }

    method RegisterConnection(sourceName: Name, conn: Conn) returns (ok: bool)
      requires Valid()
      modifies this
      ensures Valid()
      ensures ok <==> sourceName in allClientProcesses
      ensures Abs() == if ok then Registered(old(Abs()), sourceName, conn) else old(Abs())
      ensures closedConns == old(closedConns) +
                             if ok && sourceName in old(conns) then {old(conns)[sourceName]} else {}
    {
      ok := IsExpectedProcess(sourceName);
      if !ok {
        return;
      }
      if sourceName in conns {
        closedConns := closedConns + {conns[sourceName]};
      }
      conns := conns[sourceName := conn];
      var oldCh := connsChanged;
      connsChanged := connsChanged + 1;
      CloseChannel(oldCh);
    }

    method SetReady(sourceName: Name, msgType: MsgType) returns (ok: bool)
      requires Valid()
      modifies this
      ensures Valid() && closedConns == old(closedConns)
      ensures ok <==> sourceName in allClientProcesses
                      && Bare(msgType) !in ReadyFor(old(Abs()), sourceName)
      ensures Abs() == if sourceName in allClientProcesses
                       then MadeReady(old(Abs()), sourceName, Bare(msgType)) else old(Abs())
    {
      ok := IsExpectedProcess(sourceName);
      if !ok {
        return;
      }
      var bare := if msgType.PointerTo? then msgType.elem else msgType;
      if sourceName !in childReadyFor {
        childReadyFor := childReadyFor[sourceName := {}];
      }
      if bare in childReadyFor[sourceName] {
        assert childReadyFor[sourceName] + {bare} == childReadyFor[sourceName];
        assert childReadyFor[sourceName := childReadyFor[sourceName]] == childReadyFor;
        return false;
      }
      childReadyFor := childReadyFor[sourceName := childReadyFor[sourceName] + {bare}];
      var oldCh := connsChanged;
      connsChanged := connsChanged + 1;
      CloseChannel(oldCh);
    }

    method UnregisterConnection(sourceName: Name)
      requires Valid()
      modifies this
      ensures Valid() && closedConns == old(closedConns)
      ensures Abs() == Unregistered(old(Abs()), sourceName)
    {
      conns := conns - {sourceName};
      childReadyFor := childReadyFor - {sourceName};
      var oldCh := connsChanged;
      connsChanged := connsChanged + 1;
      CloseChannel(oldCh);
    }

    /** The critical section both waiting loops repeat: the connection when the
        wait is over, and otherwise the channel to park on. */
    method Look(want: Want) returns (conn: Option<Conn>, ch: Chan)
      ensures ch == connsChanged
      ensures conn == if Satisfied(Abs(), want) then Some(conns[want.dst]) else None
    {
      ch := connsChanged;
      var isReady := true;
      if want.gate.Some? {
        isReady := want.dst in childReadyFor && want.gate.value in childReadyFor[want.dst];
      }
      if want.dst in conns && isReady {
        return Some(conns[want.dst]), ch;
      }
      return None, ch;
    }
  }

  /** Channels 0 up to the current one exist; all but the current one were closed,
      each exactly once. */
  ghost predicate OneOpenChannel(t: Tables) {
    && |t.closes| == t.changed
    && forall i :: 0 <= i < |t.closes| ==> t.closes[i] == i
  }
}
