/** The monitoring loop of the stream player controller, one tick at a time, and
    whole runs of it interleaved with changes of the jitter buffer. */
module PlayerLoop {
  import opened Basics
  import opened PlayerControl

  /** What a query for the cached duration gives. */
  datatype Cached = Unsupported | CachedFor(duration: int) | CacheFailed

  /** What one tick finds: the clock, the answers of the player, the decay factor,
      and what the averager and the float conversions make of the wanted speed. */
  datatype Probe = Probe(
    now: int,
    position: Option<int>,
    cached: Cached,
    length: Option<int>,
    decay: real,
    averaged: real,
    steps: nat,
    speedAccepted: bool)

  const WORD: int := 0x1_0000_0000_0000_0000

  /** `steps` is what converting 200 times the averaged speed to an unsigned integer
      gives; outside of its range the language leaves the value open. */
  predicate ProbeSane(p: Probe) {
    && 0.0 <= p.decay <= 1.0
    && (0.0 <= p.averaged && p.averaged * 200.0 < WORD as real ==> p.steps == (p.averaged * 200.0).Floor)
  }

  /** A speed sent to the player. */
  datatype Command = SlowTo(speed: real) | CatchUpTo(speed: real)

  /** `fed` are the wanted speeds given to the averager, `None` for a quotient with
      a zero divisor; `sent` are the speeds sent to the player. */
  datatype State = State(
    jitter: Jitter,
    prevPos: int,
    prevLength: int,
    posUpdatedAt: int,
    curSpeed: real,
    isClosed: bool,
    fed: seq<Option<real>>,
    sent: seq<Command>)

  /** The state at the head of the first iteration. */
  function Started(cfg: Config, now: int): State {
    State(Jitter(cfg.jitterBufMin, 0), 0, 0, now, 1.0, false, [], [])
  }

  function Restarted(st: State): State {
    st.(isClosed := true)
  }

  // ---- specification of a tick ------------------------------------------

  datatype LengthRead = Unread | Length(value: int)

  function ReadLength(p: Probe): LengthRead
    requires p.position.Some?
  {
    if p.cached.CacheFailed? then Unread
    else if p.cached.CachedFor? && p.position.value + p.cached.duration >= 0
    then Length(p.position.value + p.cached.duration)
    else if p.length.Some? then Length(p.length.value)
    else Unread
  }

  /** Without progress the time that passed becomes the pending increase. */
  function Tracked(cfg: Config, st: State, p: Probe): (r: State)
    requires p.position.Some?
  {
    var pos := p.position.value;
    if pos != st.prevPos then
      st.(posUpdatedAt := p.now, prevPos := pos,
          jitter := st.jitter.(buffer := Decayed(cfg, st.jitter.buffer, p.decay)))
    else
      st.(jitter := st.jitter.(pending := Max(st.jitter.pending, p.now - st.posUpdatedAt)))
  }

  function SlowDownOf(cfg: Config, buffer: int, lag: int): Option<real> {
    if buffer == 0 then None else Some(SlowDown(cfg, buffer, lag))
  }

  function CatchUpOf(cfg: Config, buffer: int, lag: int): Option<real> {
    if cfg.catchupAtMaxLag - buffer + MILLISECOND == 0 then None else Some(CatchUp(cfg, buffer, lag))
  }

  /** A zero buffer meets only negative lags: the quotient is minus infinity, and not
      a number once multiplied by zero. */
  predicate Unusable(cfg: Config, want: Option<real>) {
    if want.None? then cfg.minSpeed < 1.0 else want.value <= 0.0
  }

  predicate TooClose(cfg: Config, want: Option<real>, curSpeed: real) {
    want.Some? && -cfg.minSpeedDifference < want.value - curSpeed < cfg.minSpeedDifference
  }

  /** The speed the catch-up path sends: in steps of 1/200, capped. */
  function Capped(cfg: Config, steps: nat): real {
    var speed := steps as real / 200.0;
    if speed > cfg.catchupMaxSpeed then cfg.catchupMaxSpeed else speed
  }

  function Steered(cfg: Config, rtmp: bool, st: State, p: Probe, stalling: bool, lag: int): State {
    if rtmp && lag < st.jitter.buffer then
      var s := st.(jitter := Settled(cfg, st.jitter, stalling, lag));
      var want := SlowDownOf(cfg, s.jitter.buffer, lag);
      if Unusable(cfg, want) then s
      else
        var f := s.(fed := s.fed + [want]);
        if TooClose(cfg, want, st.curSpeed) then f
        else f.(curSpeed := p.averaged, sent := f.sent + [SlowTo(p.averaged)])
    else
      var s := if st.jitter.pending > 0 then st.(jitter := Committed(cfg, st.jitter)) else st;
      var f := s.(fed := s.fed + [CatchUpOf(cfg, s.jitter.buffer, lag)]);
      var speed := Capped(cfg, p.steps);
      if speed == f.curSpeed then f
      else f.(curSpeed := if p.speedAccepted then speed else f.curSpeed, sent := f.sent + [CatchUpTo(speed)])
  }

  /** A tick that got a position and a length. */
  function Judged(cfg: Config, rtmp: bool, st: State, p: Probe, l: int): State
    requires p.position.Some?
  {
    var pos := p.position.value;
    if pos < -cfg.readTimeout || l < 0 then Restarted(st)
    else if pos == st.prevPos && p.now - st.posUpdatedAt > cfg.readTimeout
    then Restarted(st.(jitter := st.jitter.(pending := 0)))
    else Steered(cfg, rtmp, Tracked(cfg, st, p), p, pos == st.prevPos, l - pos)
  }

  function Ticked(cfg: Config, rtmp: bool, st: State, p: Probe): State {
    if p.position.None? then
      if p.now - st.posUpdatedAt > cfg.readTimeout then Restarted(st) else st
    else if ReadLength(p).Unread? then
      if st.prevLength != 0 then Restarted(st) else st
    else
      Judged(cfg, rtmp, st.(prevLength := ReadLength(p).value), p, ReadLength(p).value)
  }

  function BufferSet(cfg: Config, st: State, size: int): State {
    st.(jitter := st.jitter.(buffer := Min(Max(cfg.jitterBufMin, size), cfg.jitterBufMax)))
  }

  // ---- runs -------------------------------------------------------------

  datatype Event = Tick(probe: Probe) | SetJitterBuffer(size: int)

  /** The state at the head of the iteration after the events; a closed controller
      iterates no more, though its buffer can still be set. */
  function Run(cfg: Config, rtmp: bool, st: State, events: seq<Event>): State {
    if events == [] then st
    else
      var before := Run(cfg, rtmp, st, events[..|events| - 1]);
      match events[|events| - 1]
      case Tick(p) => if before.isClosed then before else Ticked(cfg, rtmp, before, p)
      case SetJitterBuffer(size) => BufferSet(cfg, before, size)
  }

  /** When the last tick was, or `from`. */
  function Latest(events: seq<Event>, from: int): int {
    if events == [] then from
    else if events[|events| - 1].Tick? then events[|events| - 1].probe.now
    else Latest(events[..|events| - 1], from)
  }

  /** The clock of the ticks is monotone and does not start before `from`. */
  predicate ClockRuns(events: seq<Event>, from: int) {
    events == []
    || var before, e := events[..|events| - 1], events[|events| - 1];
       ClockRuns(before, from) && (e.Tick? ==> Latest(before, from) <= e.probe.now && ProbeSane(e.probe))
  }

  lemma {:induction false} ClockRunsBefore(events: seq<Event>, n: nat, from: int)
    requires n <= |events| && ClockRuns(events, from)
    ensures ClockRuns(events[..n], from)
    decreases |events|
  {
    if n < |events| {
      ClockRunsBefore(events[..|events| - 1], n, from);
      assert events[..|events| - 1][..n] == events[..n];
    } else {
      assert events[..n] == events;
    }
  }

  predicate NotAhead(st: State, now: int) {
    st.posUpdatedAt <= now
  }

  predicate CatchUpsCapped(cfg: Config, sent: seq<Command>) {
    forall i :: 0 <= i < |sent| && sent[i].CatchUpTo? ==> 0.0 <= sent[i].speed <= cfg.catchupMaxSpeed
  }

  lemma CappedIsCapped(cfg: Config, steps: nat)
    requires Accepted(cfg)
    ensures 0.0 <= Capped(cfg, steps) <= cfg.catchupMaxSpeed
  {
    Divide(0.0, steps as real, 200.0);
  }

  predicate Bounded(cfg: Config, st: State) {
    InRange(cfg, st.jitter) && CatchUpsCapped(cfg, st.sent)
  }

  lemma TrackingKeepsBounds(cfg: Config, st: State, p: Probe)
    requires Sensible(cfg) && ProbeSane(p) && p.position.Some?
    requires Bounded(cfg, st) && NotAhead(st, p.now)
    requires p.position.value == st.prevPos ==> p.now - st.posUpdatedAt <= cfg.readTimeout
    ensures Bounded(cfg, Tracked(cfg, st, p)) && NotAhead(Tracked(cfg, st, p), p.now)
  {
    DecayedInRange(cfg, st.jitter.buffer, p.decay);
  }

  lemma SteeringKeepsBounds(cfg: Config, rtmp: bool, st: State, p: Probe, stalling: bool, lag: int)
    requires Accepted(cfg) && Bounded(cfg, st)
    ensures var r := Steered(cfg, rtmp, st, p, stalling, lag);
            Bounded(cfg, r) && r.posUpdatedAt == st.posUpdatedAt
  {
    SettledBounds(cfg, st.jitter, stalling, lag);
    CappedIsCapped(cfg, p.steps);
  }

  lemma TrackedSteeringKeepsBounds(cfg: Config, rtmp: bool, st: State, p: Probe, stalling: bool, lag: int)
    requires Accepted(cfg) && Sensible(cfg) && ProbeSane(p) && p.position.Some?
    requires Bounded(cfg, st) && NotAhead(st, p.now)
    requires p.position.value == st.prevPos ==> p.now - st.posUpdatedAt <= cfg.readTimeout
    ensures var r := Steered(cfg, rtmp, Tracked(cfg, st, p), p, stalling, lag);
            Bounded(cfg, r) && NotAhead(r, p.now)
  {
    var t := Tracked(cfg, st, p);
    TrackingKeepsBounds(cfg, st, p);
    SteeringKeepsBounds(cfg, rtmp, t, p, stalling, lag);
  }

  lemma JudgingKeepsBounds(cfg: Config, rtmp: bool, st: State, p: Probe, l: int)
    requires Accepted(cfg) && Sensible(cfg) && ProbeSane(p) && p.position.Some?
    requires Bounded(cfg, st) && NotAhead(st, p.now)
    ensures Bounded(cfg, Judged(cfg, rtmp, st, p, l)) && NotAhead(Judged(cfg, rtmp, st, p, l), p.now)
  {
    var pos, r := p.position.value, Judged(cfg, rtmp, st, p, l);
    if pos < -cfg.readTimeout || l < 0 {
      assert r == Restarted(st);
    } else if pos == st.prevPos && p.now - st.posUpdatedAt > cfg.readTimeout {
      assert r.jitter == Jitter(st.jitter.buffer, 0) && r.sent == st.sent;
    } else {
      TrackedSteeringKeepsBounds(cfg, rtmp, st, p, pos == st.prevPos, l - pos);
      assert r == Steered(cfg, rtmp, Tracked(cfg, st, p), p, pos == st.prevPos, l - pos);
    }
  }

  /** What the averager is fed while the lag is not negative is the wanted speed: no
      divisor is zero and no slow-down is refused. */
  lemma AveragerGetsTheWantedSpeed(cfg: Config, st: State, p: Probe, stalling: bool, lag: int)
    requires Accepted(cfg) && Sensible(cfg) && InRange(cfg, st.jitter) && 0 <= lag
    ensures Steered(cfg, true, st, p, stalling, lag).fed == st.fed + [Some(Wanted(cfg, st.jitter, stalling, lag))]
  {
    SettledBounds(cfg, st.jitter, stalling, lag);
    if lag < st.jitter.buffer {
      WantedBelowTheBuffer(cfg, st.jitter, stalling, lag, lag);
    }
  }

  lemma TickKeepsBounds(cfg: Config, rtmp: bool, st: State, p: Probe)
    requires Accepted(cfg) && Sensible(cfg) && ProbeSane(p)
    requires Bounded(cfg, st) && NotAhead(st, p.now)
    ensures Bounded(cfg, Ticked(cfg, rtmp, st, p)) && NotAhead(Ticked(cfg, rtmp, st, p), p.now)
  {
    if p.position.Some? && ReadLength(p).Length? {
      JudgingKeepsBounds(cfg, rtmp, st.(prevLength := ReadLength(p).value), p, ReadLength(p).value);
    }
  }

  /** At the head of every iteration of every run, with the buffer set to anything in
      between, the buffer and the pending increase are within their bounds, also
      after the last commit, and no catch-up speed ever sent is above the maximum. */
  lemma {:induction false} EveryRunKeepsBounds(cfg: Config, rtmp: bool, st: State, events: seq<Event>, from: int)
    requires Accepted(cfg) && Sensible(cfg) && InRange(cfg, st.jitter)
    requires NotAhead(st, from) && CatchUpsCapped(cfg, st.sent) && ClockRuns(events, from)
    ensures var r := Run(cfg, rtmp, st, events);
            && InRange(cfg, r.jitter) && InRange(cfg, Committed(cfg, r.jitter))
            && CatchUpsCapped(cfg, r.sent)
            && NotAhead(r, Latest(events, from))
  {
    if events != [] {
      var n := |events| - 1;
      EveryRunKeepsBounds(cfg, rtmp, st, events[..n], from);
      if events[n].Tick? {
        var before := Run(cfg, rtmp, st, events[..n]);
        TickKeepsBounds(cfg, rtmp, before, events[n].probe);
      }
    }
  }

  /** The speed is sent, and becomes the current one, if it is wanted to change by at
      least the configured difference; otherwise nothing is sent. */
  predicate SentIfDue(cfg: Config, before: State, after: State, want: real, p: Probe) {
    var due := want - before.curSpeed >= cfg.minSpeedDifference || before.curSpeed - want >= cfg.minSpeedDifference;
    && after.sent == (if due then before.sent + [SlowTo(p.averaged)] else before.sent)
    && after.curSpeed == if due then p.averaged else before.curSpeed
  }

  /** The speed is sent if it is not the current one, which it becomes if the player
      accepts it. */
  predicate SentIfNew(before: State, after: State, speed: real, p: Probe) {
    && after.sent == (if speed != before.curSpeed then before.sent + [CatchUpTo(speed)] else before.sent)
    && after.curSpeed == if p.speedAccepted then speed else before.curSpeed
  }

  /** Below the buffer the averaged speed is sent exactly when the wanted speed differs
      enough from the current one. */
  lemma SlowDownIsSentIffDue(cfg: Config, st: State, p: Probe, stalling: bool, lag: int)
    requires Accepted(cfg) && Sensible(cfg) && InRange(cfg, st.jitter) && 0 <= lag < st.jitter.buffer
    ensures SentIfDue(cfg, st, Steered(cfg, true, st, p, stalling, lag), Wanted(cfg, st.jitter, stalling, lag), p)
  {
    SettledBounds(cfg, st.jitter, stalling, lag);
    WantedBelowTheBuffer(cfg, st.jitter, stalling, lag, lag);
  }

  /** A negative lag can make the wanted speed negative or zero: it is not used then. */
  lemma SlowDownWithNegativeLag(cfg: Config, st: State, p: Probe, stalling: bool, lag: int)
    requires Accepted(cfg) && Sensible(cfg) && InRange(cfg, st.jitter) && lag < 0 && lag < st.jitter.buffer
    requires Settled(cfg, st.jitter, stalling, lag).buffer != 0
    ensures var r := Steered(cfg, true, st, p, stalling, lag);
            var want := SlowDown(cfg, Settled(cfg, st.jitter, stalling, lag).buffer, lag);
            if want <= 0.0 then r.fed == st.fed && r.sent == st.sent && r.curSpeed == st.curSpeed
            else r.fed == st.fed + [Some(want)] && SentIfDue(cfg, st, r, want, p)
  {
  }

  /** With an empty buffer the wanted speed is not a number or minus infinity: the one is
      fed and its average sent, the other is not used. */
  lemma SlowDownOfAnEmptyBuffer(cfg: Config, st: State, p: Probe, stalling: bool, lag: int)
    requires Accepted(cfg) && Sensible(cfg) && InRange(cfg, st.jitter) && lag < st.jitter.buffer
    requires Settled(cfg, st.jitter, stalling, lag).buffer == 0
    ensures var r := Steered(cfg, true, st, p, stalling, lag);
            if cfg.minSpeed < 1.0 then r.fed == st.fed && r.sent == st.sent && r.curSpeed == st.curSpeed
            else r.fed == st.fed + [None] && r.sent == st.sent + [SlowTo(p.averaged)] && r.curSpeed == p.averaged
  {
  }

  /** From the buffer on, and for any other protocol, the averaged speed is sent rounded
      down to a multiple of 1/200 and at most the maximum, exactly when that is not the
      current speed. */
  lemma CatchUpIsSentIffNew(cfg: Config, rtmp: bool, st: State, p: Probe, stalling: bool, lag: int, n: nat)
    requires ProbeSane(p) && n as real <= p.averaged * 200.0 < (n + 1) as real && n < WORD
    requires !rtmp || st.jitter.buffer <= lag
    ensures var speed := if n as real <= cfg.catchupMaxSpeed * 200.0 then n as real / 200.0 else cfg.catchupMaxSpeed;
            SentIfNew(st, Steered(cfg, rtmp, st, p, stalling, lag), speed, p)
  {
    assert (p.averaged * 200.0).Floor == n && p.steps == n;
  }

  // ---- what a tick does -------------------------------------------------

  /** The length a tick goes by: the position and the cached duration, if the player
      tells one and it does not lead before the start, otherwise the length it tells;
      none when the query for the cached duration failed. */
  predicate GoesBy(p: Probe, l: int) {
    && p.position.Some? && !p.cached.CacheFailed?
    && if p.cached.CachedFor? && 0 <= p.position.value + p.cached.duration
       then l == p.position.value + p.cached.duration
       else p.length == Some(l)
  }

  predicate TimedOut(cfg: Config, st: State, p: Probe) {
    cfg.readTimeout < p.now - st.posUpdatedAt
  }

  /** A tick without a position closes the controller after the read timeout, one
      without a length if there was one before; otherwise nothing changes. */
  lemma TickWithoutAnswer(cfg: Config, rtmp: bool, st: State, p: Probe)
    requires forall l :: !GoesBy(p, l)
    ensures var closes := if p.position.None? then TimedOut(cfg, st, p) else st.prevLength != 0;
            Ticked(cfg, rtmp, st, p) == if closes then st.(isClosed := true) else st
  {
    if p.position.Some? && ReadLength(p).Length? {
      assert GoesBy(p, ReadLength(p).value);
    }
  }

  /** The tick finds something that makes no sense, or a player that stands still. */
  predicate Misbehaves(cfg: Config, st: State, p: Probe, l: int) {
    p.position.Some? && (p.position.value < -cfg.readTimeout || l < 0
                         || (p.position.value == st.prevPos && TimedOut(cfg, st, p)))
  }

  /** It closes the controller and sends nothing; after a standstill nothing stays pending. */
  lemma TickOfMisbehaving(cfg: Config, rtmp: bool, st: State, p: Probe, l: int)
    requires GoesBy(p, l) && Misbehaves(cfg, st, p, l)
    ensures var r := Ticked(cfg, rtmp, st, p);
            && r.isClosed && r.prevLength == l && r.jitter.buffer == st.jitter.buffer
            && r.jitter.pending == (if p.position.value < -cfg.readTimeout || l < 0 then st.jitter.pending else 0)
            && r.fed == st.fed && r.sent == st.sent && r.curSpeed == st.curSpeed
  {
  }

  /** The buffer as progress makes it decay, or the pending increase as the lack of
      progress raises it. */
  function Felt(cfg: Config, st: State, p: Probe): Jitter
    requires p.position.Some?
  {
    if p.position.value != st.prevPos then Jitter(Decayed(cfg, st.jitter.buffer, p.decay), st.jitter.pending)
    else Jitter(st.jitter.buffer, if st.jitter.pending < p.now - st.posUpdatedAt then p.now - st.posUpdatedAt else st.jitter.pending)
  }

  lemma TrackingFeels(cfg: Config, st: State, p: Probe)
    requires p.position.Some?
    ensures var t, pos := Tracked(cfg, st, p), p.position.value;
            && t.jitter == Felt(cfg, st, p) && t.prevPos == pos && t.prevLength == st.prevLength
            && t.posUpdatedAt == (if pos != st.prevPos then p.now else st.posUpdatedAt)
            && t.isClosed == st.isClosed && t.fed == st.fed && t.sent == st.sent && t.curSpeed == st.curSpeed
  {
  }

  lemma TickJudges(cfg: Config, rtmp: bool, st: State, p: Probe, l: int)
    requires GoesBy(p, l)
    ensures Ticked(cfg, rtmp, st, p) == Judged(cfg, rtmp, st.(prevLength := l), p, l)
  {
  }

  lemma TickIsSteering(cfg: Config, rtmp: bool, st: State, p: Probe, l: int)
    requires GoesBy(p, l) && !Misbehaves(cfg, st, p, l)
    ensures var t, pos := Tracked(cfg, st.(prevLength := l), p), p.position.value;
            && Ticked(cfg, rtmp, st, p) == Steered(cfg, rtmp, t, p, pos == st.prevPos, l - pos)
            && t.jitter == Felt(cfg, st, p) && t.prevPos == pos && t.prevLength == l
            && t.posUpdatedAt == (if pos != st.prevPos then p.now else st.posUpdatedAt)
            && t.isClosed == st.isClosed && t.fed == st.fed && t.sent == st.sent && t.curSpeed == st.curSpeed
  {
    TrackingFeels(cfg, st.(prevLength := l), p);
    TickJudges(cfg, rtmp, st, p, l);
  }

  lemma SteeringAdapts(cfg: Config, rtmp: bool, st: State, p: Probe, stalling: bool, lag: int)
    ensures var r := Steered(cfg, rtmp, st, p, stalling, lag);
            && r.isClosed == st.isClosed && r.prevLength == st.prevLength
            && r.prevPos == st.prevPos && r.posUpdatedAt == st.posUpdatedAt
            && r.jitter == if rtmp then Settled(cfg, st.jitter, stalling, lag)
                           else if st.jitter.pending > 0 then Committed(cfg, st.jitter) else st.jitter
  {
  }

  /** Any other tick with a length notes what it found and adapts the buffer. */
  lemma TickAdapts(cfg: Config, rtmp: bool, st: State, p: Probe, l: int)
    requires GoesBy(p, l) && !Misbehaves(cfg, st, p, l)
    ensures var r, pos, j := Ticked(cfg, rtmp, st, p), p.position.value, Felt(cfg, st, p);
            && r.isClosed == st.isClosed && r.prevLength == l && r.prevPos == pos
            && r.posUpdatedAt == (if pos != st.prevPos then p.now else st.posUpdatedAt)
            && r.jitter == if rtmp then Settled(cfg, j, pos == st.prevPos, l - pos)
                           else if j.pending > 0 then Committed(cfg, j) else j
  {
    TickIsSteering(cfg, rtmp, st, p, l);
    SteeringAdapts(cfg, rtmp, Tracked(cfg, st.(prevLength := l), p), p, p.position.value == st.prevPos, l - p.position.value);
  }

  /** And then steers: below the buffer it feeds the wanted speed to the averager and
      sends the averaged one if a change is due. */
  lemma TickSlowsDown(cfg: Config, st: State, p: Probe, l: int)
    requires Accepted(cfg) && Sensible(cfg) && GoesBy(p, l) && !Misbehaves(cfg, st, p, l)
    requires var j := Felt(cfg, st, p); InRange(cfg, j) && 0 <= l - p.position.value < j.buffer
    ensures var r := Ticked(cfg, true, st, p);
            var want := Wanted(cfg, Felt(cfg, st, p), p.position.value == st.prevPos, l - p.position.value);
            r.fed == st.fed + [Some(want)] && SentIfDue(cfg, st, r, want, p)
  {
    var t, stalling, lag := Tracked(cfg, st.(prevLength := l), p), p.position.value == st.prevPos, l - p.position.value;
    TickIsSteering(cfg, true, st, p, l);
    SlowDownIsSentIffDue(cfg, t, p, stalling, lag);
    AveragerGetsTheWantedSpeed(cfg, t, p, stalling, lag);
  }

  /** From the buffer on, and for any other protocol, it sends the averaged speed, rounded
      down to a multiple of 1/200 and capped, if it is a new one. */
  lemma TickCatchesUp(cfg: Config, rtmp: bool, st: State, p: Probe, l: int, n: nat)
    requires GoesBy(p, l) && !Misbehaves(cfg, st, p, l)
    requires !rtmp || Felt(cfg, st, p).buffer <= l - p.position.value
    requires ProbeSane(p) && n as real <= p.averaged * 200.0 < (n + 1) as real && n < WORD
    ensures var speed := if n as real <= cfg.catchupMaxSpeed * 200.0 then n as real / 200.0 else cfg.catchupMaxSpeed;
            SentIfNew(st, Ticked(cfg, rtmp, st, p), speed, p)
  {
    var t, stalling, lag := Tracked(cfg, st.(prevLength := l), p), p.position.value == st.prevPos, l - p.position.value;
    TickIsSteering(cfg, rtmp, st, p, l);
    CatchUpIsSentIffNew(cfg, rtmp, t, p, stalling, lag, n);
  }

  /** A buffer set within the limits is taken as it is, any other becomes the nearest limit. */
  lemma SetBufferIsClamped(cfg: Config, st: State, size: int)
    requires cfg.jitterBufMin <= cfg.jitterBufMax
    ensures var b := BufferSet(cfg, st, size).jitter.buffer;
            && (cfg.jitterBufMin <= size <= cfg.jitterBufMax ==> b == size)
            && (size < cfg.jitterBufMin ==> b == cfg.jitterBufMin)
            && (cfg.jitterBufMax < size ==> b == cfg.jitterBufMax)
  {
  }

  /** While a player tells its cached duration, that duration is the lag, whatever it
      says of its length: the averager of one whose position moves is fed the speed
      wanted for it. */
  lemma LagIsTheCachedDuration(cfg: Config, st: State, p: Probe)
    requires Accepted(cfg) && Sensible(cfg) && ProbeSane(p) && InRange(cfg, st.jitter)
    requires p.position.Some? && p.cached.CachedFor? && 0 <= p.cached.duration
    requires 0 <= p.position.value + p.cached.duration
    requires p.position.value != st.prevPos && -cfg.readTimeout <= p.position.value
    ensures var j := Jitter(Decayed(cfg, st.jitter.buffer, p.decay), st.jitter.pending);
            && InRange(cfg, j)
            && Ticked(cfg, true, st, p).fed == st.fed + [Some(Wanted(cfg, j, false, p.cached.duration))]
  {
    DecayedInRange(cfg, st.jitter.buffer, p.decay);
    var l := p.position.value + p.cached.duration;
    TickIsSteering(cfg, true, st, p, l);
    AveragerGetsTheWantedSpeed(cfg, Tracked(cfg, st.(prevLength := l), p), p, false, p.cached.duration);
  }

  /** A tick ten seconds after the start finds a player that did not move. */
  function StalledWith(length: int): Event {
    Tick(Probe(10_000 * MILLISECOND, Some(0), Unsupported, Some(length), 1.0, 1.0, 200, true))
  }

  lemma StalledTick(cfg: Config, st: State, lag: int)
    requires Accepted(cfg) && Sensible(cfg) && InRange(cfg, st.jitter) && 0 <= lag
    requires st.prevPos == 0 && st.posUpdatedAt == 0
    requires 10_000 * MILLISECOND <= cfg.readTimeout
    ensures var j := Jitter(st.jitter.buffer, Max(st.jitter.pending, 10_000 * MILLISECOND));
            var r := Ticked(cfg, true, st, StalledWith(lag).probe);
            && InRange(cfg, j) && r.jitter == Settled(cfg, j, true, lag)
            && r.fed == st.fed + [Some(Wanted(cfg, j, true, lag))]
            && r.prevPos == 0 && r.posUpdatedAt == 0 && r.isClosed == st.isClosed
  {
    var p := StalledWith(lag).probe;
    var t := Tracked(cfg, st.(prevLength := lag), p);
    AveragerGetsTheWantedSpeed(cfg, t, p, true, lag);
    assert Ticked(cfg, true, st, p) == Steered(cfg, true, t, p, true, lag);
  }

  lemma RunOneMore(cfg: Config, rtmp: bool, st: State, events: seq<Event>, p: Probe)
    requires !Run(cfg, rtmp, st, events).isClosed
    ensures Run(cfg, rtmp, st, events + [Tick(p)]) == Ticked(cfg, rtmp, Run(cfg, rtmp, st, events), p)
  {
    assert (events + [Tick(p)])[..|events|] == events;
  }

  /** A run of a new player with the default configuration on which the averager is fed
      a negative speed, and with a lag of one nanosecond less at least 0.95. */
  lemma ARunDropsTheSpeed()
    ensures var cfg, start := DEFAULT_CONFIG, Started(DEFAULT_CONFIG, 0);
            var events := [SetJitterBuffer(170_000 * MILLISECOND), StalledWith(0)];
            var before := Run(cfg, true, start, events);
            && !before.isClosed
            && before.jitter == Jitter(170_000 * MILLISECOND, 10_000 * MILLISECOND)
            && (forall lag :: ClockRuns(events + [StalledWith(lag)], 0))
            && (exists w :: w < 0.0
                  && Run(cfg, true, start, events + [StalledWith(170_000 * MILLISECOND)]).fed == before.fed + [Some(w)])
            && (exists w :: 0.95 <= w
                  && Run(cfg, true, start, events + [StalledWith(170_000 * MILLISECOND - 1)]).fed
                     == before.fed + [Some(w)])
  {
    var cfg, start := DEFAULT_CONFIG, Started(DEFAULT_CONFIG, 0);
    var change, lag := SetJitterBuffer(170_000 * MILLISECOND), 170_000 * MILLISECOND;
    var events := [change, StalledWith(0)];
    var j := Jitter(lag, 10_000 * MILLISECOND);
    assert [change][..0] == [] && events == [change] + [StalledWith(0)];
    StalledTick(cfg, BufferSet(cfg, start, lag), 0);
    RunOneMore(cfg, true, start, [change], StalledWith(0).probe);
    var before := Run(cfg, true, start, events);
    forall other ensures ClockRuns(events + [StalledWith(other)], 0) {
      ClockRunsAtTheSameTime(change, StalledWith(0), StalledWith(other));
    }
    CommitCanDropTheSpeed(true);
    StalledTick(cfg, before, lag);
    StalledTick(cfg, before, lag - 1);
    RunOneMore(cfg, true, start, events, StalledWith(lag).probe);
    RunOneMore(cfg, true, start, events, StalledWith(lag - 1).probe);
    assert Run(cfg, true, start, events + [StalledWith(lag)]).fed
           == before.fed + [Some(Wanted(cfg, j, true, lag))];
    assert Run(cfg, true, start, events + [StalledWith(lag - 1)]).fed
           == before.fed + [Some(Wanted(cfg, j, true, lag - 1))];
  }

  lemma ClockRunsAtTheSameTime(change: Event, a: Event, b: Event)
    requires change.SetJitterBuffer? && a.Tick? && b.Tick?
    requires 0 <= a.probe.now == b.probe.now && ProbeSane(a.probe) && ProbeSane(b.probe)
    ensures ClockRuns([change, a] + [b], 0)
  {
    var all := [change, a, b];
    assert all == [change, a] + [b] && all[..2] == [change, a];
    assert [change, a][..1] == [change] && [change][..0] == [];
    var one := [change];
    assert one[..|one| - 1] == [] && ClockRuns(one, 0);
    assert one[|one| - 1] == change && !change.Tick?;
    assert Latest(one[..|one| - 1], 0) == 0;
    assert Latest(one, 0) == Latest(one[..|one| - 1], 0);
    assert ClockRuns([change, a], 0) && Latest([change, a], 0) == a.probe.now;
    assert ClockRuns(all, 0);
  }

  // ---- the watchdog -----------------------------------------------------

  /** No tick finds the player anywhere but at `pos`. */
  predicate NoProgress(events: seq<Event>, pos: int) {
    forall i :: 0 <= i < |events| && events[i].Tick? && events[i].probe.position.Some? ==>
      events[i].probe.position.value == pos
  }

  lemma TickWithoutProgress(cfg: Config, rtmp: bool, st: State, p: Probe)
    requires p.position.Some? ==> p.position.value == st.prevPos
    ensures var r := Ticked(cfg, rtmp, st, p);
            && r.prevPos == st.prevPos && r.posUpdatedAt == st.posUpdatedAt
            && (p.now - st.posUpdatedAt > cfg.readTimeout && (p.position.None? || ReadLength(p).Length?) ==> r.isClosed)
            && (st.isClosed ==> r.isClosed)
  {
  }

  lemma {:induction false} StandstillIsRemembered(cfg: Config, rtmp: bool, st: State, events: seq<Event>)
    requires NoProgress(events, st.prevPos)
    ensures var r := Run(cfg, rtmp, st, events);
            r.prevPos == st.prevPos && r.posUpdatedAt == st.posUpdatedAt
  {
    if events != [] {
      var n := |events| - 1;
      StandstillIsRemembered(cfg, rtmp, st, events[..n]);
      if events[n].Tick? {
        TickWithoutProgress(cfg, rtmp, Run(cfg, rtmp, st, events[..n]), events[n].probe);
      }
    }
  }

  /** A player that shows no progress for longer than the read timeout is restarted at
      the first tick after it that can tell, whatever happened to its buffer, its speed
      and its readings in between. */
  lemma StandstillCloses(cfg: Config, rtmp: bool, st: State, events: seq<Event>, p: Probe)
    requires NoProgress(events + [Tick(p)], st.prevPos)
    requires p.now - st.posUpdatedAt > cfg.readTimeout
    requires p.position.None? || ReadLength(p).Length?
    ensures Run(cfg, rtmp, st, events + [Tick(p)]).isClosed
  {
    var all := events + [Tick(p)];
    assert all[..|events|] == events && all[|events|] == Tick(p);
    forall i | 0 <= i < |events| && events[i].Tick? && events[i].probe.position.Some?
      ensures events[i].probe.position.value == st.prevPos
    {
      assert all[i] == events[i];
    }
    StandstillIsRemembered(cfg, rtmp, st, events);
    TickWithoutProgress(cfg, rtmp, Run(cfg, rtmp, st, events), p);
  }

  /** A catch-up speed is the averaged speed rounded down to 1/200, when the averaged
      speed is one that can be sent. */
  lemma CappedRoundsDown(cfg: Config, p: Probe)
    requires Accepted(cfg) && ProbeSane(p)
    requires 0.0 <= p.averaged <= cfg.catchupMaxSpeed && p.averaged * 200.0 < WORD as real
    ensures p.averaged - 0.005 < Capped(cfg, p.steps) <= p.averaged
  {
  }

  // ---- the controller ---------------------------------------------------

  class StreamPlayer {
    const cfg: Config
    const rtmp: bool
    var buffer: int
    var pending: int
    var prevPos: int
    var prevLength: int
    var posUpdatedAt: int
    var curSpeed: real
    var isClosed: bool
    var fed: seq<Option<real>>
    var sent: seq<Command>

    ghost function Abs(): State
      reads this
    {
      State(Jitter(buffer, pending), prevPos, prevLength, posUpdatedAt, curSpeed, isClosed, fed, sent)
    }

    ghost predicate Valid()
      reads this
    {
      && Accepted(cfg) && Sensible(cfg)
      && InRange(cfg, Jitter(buffer, pending))
      && CatchUpsCapped(cfg, sent)
    }

    constructor (cfg: Config, rtmp: bool, now: int)
      ensures this.cfg == cfg && this.rtmp == rtmp
      ensures Abs() == Started(cfg, now) == State(Jitter(cfg.jitterBufMin, 0), 0, 0, now, 1.0, false, [], [])
      ensures Valid() <==> Accepted(cfg) && Sensible(cfg)
    {
      this.cfg, this.rtmp := cfg, rtmp;
      buffer, pending := cfg.jitterBufMin, 0;
      prevPos, prevLength, posUpdatedAt := 0, 0, now;
      curSpeed, isClosed, fed, sent := 1.0, false, [], [];
    }

    method IncreaseJitterBufferBy(inc: int)
      modifies this`buffer
      ensures buffer == Increased(cfg, old(buffer), inc)
    {
      if inc == 0 {
        return;
      }
      buffer := Min(buffer + inc, cfg.jitterBufMax);
    }

    method CommitJitterBufferIncrease()
      modifies this`buffer, this`pending
      ensures Jitter(buffer, pending) == Committed(cfg, old(Jitter(buffer, pending)))
    {
      IncreaseJitterBufferBy(pending);
      pending := 0;
    }

    method SetJitterBuffer(size: int)
      requires Valid()
      modifies this
      ensures Valid() && Abs() == BufferSet(cfg, old(Abs()), size)
    {
      buffer := Min(Max(cfg.jitterBufMin, size), cfg.jitterBufMax);
    }

    /** Slows down while the lag is below the buffer. */
    method SlowDownFor(p: Probe, stalling: bool, lag: int)
      requires Valid() && rtmp && lag < buffer
      modifies this
      ensures Abs() == Steered(cfg, rtmp, old(Abs()), p, stalling, lag)
      ensures 0 <= lag ==>
                SentIfDue(cfg, old(Abs()), Abs(), Wanted(cfg, old(Jitter(buffer, pending)), stalling, lag), p)
    {
      if 0 <= lag {
        SlowDownIsSentIffDue(cfg, Abs(), p, stalling, lag);
      }
      if !stalling {
        var pendingNew := Half(buffer) - lag;
        if pendingNew < pending {
          if pendingNew < 0 {
            pendingNew := 0;
          }
          IncreaseJitterBufferBy(pending - pendingNew);
          pending := pendingNew;
        }
      }
      var wantSpeed := SlowDownOf(cfg, buffer, lag);
      if Unusable(cfg, wantSpeed) {
        return;
      }
      fed := fed + [wantSpeed];
      if TooClose(cfg, wantSpeed, curSpeed) {
        return;
      }
      curSpeed := p.averaged;
      sent := sent + [SlowTo(curSpeed)];
    }

    method CatchUpFor(p: Probe, stalling: bool, lag: int)
      requires Valid() && !(rtmp && lag < buffer)
      modifies this
      ensures Abs() == Steered(cfg, rtmp, old(Abs()), p, stalling, lag)
      ensures var speed := p.steps as real / 200.0;
              SentIfNew(old(Abs()), Abs(), if speed <= cfg.catchupMaxSpeed then speed else cfg.catchupMaxSpeed, p)
    {
      if pending > 0 {
        CommitJitterBufferIncrease();
      }
      fed := fed + [CatchUpOf(cfg, buffer, lag)];
      var setSpeed := p.steps as real / 200.0;
      if setSpeed > cfg.catchupMaxSpeed {
        setSpeed := cfg.catchupMaxSpeed;
      }
      if setSpeed == curSpeed {
        return;
      }
      sent := sent + [CatchUpTo(setSpeed)];
      if !p.speedAccepted {
        return;
      }
      curSpeed := setSpeed;
    }

    method Restart()
      modifies this`isClosed
      ensures isClosed
    {
      isClosed := true;
    }

    /** The cached duration if the player has it, the length otherwise. */
    method MeasureLength(p: Probe) returns (read: LengthRead)
      requires p.position.Some?
      ensures read == ReadLength(p)
    {
      var l := -1;
      match p.cached {
        case CachedFor(dur) => l := p.position.value + dur;
        case Unsupported =>
        case CacheFailed => return Unread;
      }
      if l < 0 {
        if p.length.None? {
          return Unread;
        }
        l := p.length.value;
      }
      return Length(l);
    }

    /** Notes progress or the lack of it; the buffer decays only with progress. */
    method Track(p: Probe) returns (stalling: bool)
      requires p.position.Some?
      modifies this
      ensures Abs() == Tracked(cfg, old(Abs()), p)
      ensures stalling <==> p.position.value == old(prevPos)
    {
      var pos := p.position.value;
      stalling := false;
      if pos != prevPos {
        posUpdatedAt := p.now;
        prevPos := pos;
      } else {
        stalling := true;
        var noMovementDuration := p.now - posUpdatedAt;
        if noMovementDuration > pending {
          pending := noMovementDuration;
        }
      }
      if !stalling {
        buffer := Max(Trunc(buffer as real * p.decay), cfg.jitterBufMin);
      }
    }

    /** Restarts a player that misbehaves or stands still, steers it otherwise. */
    method Judge(p: Probe, l: int)
      requires Valid() && ProbeSane(p) && NotAhead(Abs(), p.now) && p.position.Some?
      modifies this
      ensures Valid() && Abs() == Judged(cfg, rtmp, old(Abs()), p, l)
    {
      JudgingKeepsBounds(cfg, rtmp, Abs(), p, l);
      var pos := p.position.value;
      if pos < -cfg.readTimeout || l < 0 {
        Restart();
        return;
      }
      if pos == prevPos && p.now - posUpdatedAt > cfg.readTimeout {
        pending := 0;
        Restart();
        return;
      }
      TrackingKeepsBounds(cfg, Abs(), p);
      var stalling := Track(p);
      var lag := l - pos;
      if rtmp && lag < buffer {
        SlowDownFor(p, stalling, lag);
        return;
      }
      CatchUpFor(p, stalling, lag);
    }

    method Iterate(p: Probe)
      requires Valid() && ProbeSane(p) && NotAhead(Abs(), p.now)
      modifies this
      ensures Valid() && Abs() == Ticked(cfg, rtmp, old(Abs()), p)
    {
      TickKeepsBounds(cfg, rtmp, Abs(), p);
      if p.position.None? {
        if p.now - posUpdatedAt > cfg.readTimeout {
          Restart();
        }
        return;
      }
      var read := MeasureLength(p);
      if read.Unread? {
        if prevLength != 0 {
          Restart();
        }
        return;
      }
      prevLength := read.value;
      Judge(p, read.value);
    }

    /** The loop until the events end or the controller is closed, and the commit
        that is deferred to its end. */
    method ControllerLoop(events: seq<Event>, from: int)
      requires Valid() && !isClosed && NotAhead(Abs(), from) && ClockRuns(events, from)
      modifies this
      ensures Valid()
      ensures exists n :: 0 <= n <= |events| && (n < |events| ==> isClosed)
                && var r := Run(cfg, rtmp, old(Abs()), events[..n]);
                   Abs() == r.(jitter := Committed(cfg, r.jitter))
    {
      ghost var start := Abs();
      var n := 0;
      while n < |events|
        invariant 0 <= n <= |events| && Valid()
        invariant Abs() == Run(cfg, rtmp, start, events[..n])
      {
        ClockRunsBefore(events, n, from);
        ClockRunsBefore(events, n + 1, from);
        EveryRunKeepsBounds(cfg, rtmp, start, events[..n], from);
        assert events[..n + 1][..n] == events[..n];
        if isClosed {
          break;
        }
        match events[n] {
          case Tick(p) => Iterate(p);
          case SetJitterBuffer(size) => SetJitterBuffer(size);
        }
        n := n + 1;
      }
      CommitJitterBufferIncrease();
    }
  }

  /** Creation fails exactly when one of the two checks of the configuration does. */
  method Create(cfg: Config, rtmp: bool, now: int) returns (player: StreamPlayer?)
    ensures player != null <==> Accepted(cfg)
    ensures player != null ==>
              && fresh(player) && player.cfg == cfg && player.rtmp == rtmp
              && player.Abs() == Started(cfg, now)
              && (Sensible(cfg) ==> player.Valid())
  {
    if cfg.catchupMaxSpeed <= 1.0 {
      return null;
    }
    if cfg.catchupAtMaxLag < cfg.jitterBufMax {
      return null;
    }
    player := new StreamPlayer(cfg, rtmp, now);
  }
}
