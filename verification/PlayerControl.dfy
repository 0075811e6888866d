/** The controller of a stream player: an adaptive jitter buffer and the law that
    turns the lag into a playback speed.  Durations are whole nanoseconds, speeds
    and factors are real numbers. */
module PlayerControl {
  import opened Basics

  const MILLISECOND: int := 1_000_000

  datatype Config = Config(
    jitterBufMin: int,
    jitterBufMax: int,
    catchupMaxSpeed: real,
    catchupAtMaxLag: int,
    readTimeout: int,
    minSpeed: real,
    minSpeedDifference: real)

  /** The two checks made when a player is created. */
  predicate Accepted(cfg: Config) {
    cfg.catchupMaxSpeed > 1.0 && cfg.catchupAtMaxLag >= cfg.jitterBufMax
  }

  /** What is assumed of a configuration beyond the checks. */
  predicate Sensible(cfg: Config) {
    && cfg.jitterBufMin <= cfg.jitterBufMax && 0 <= cfg.jitterBufMax
    && 0.0 < cfg.minSpeed <= 1.0
    && 0 <= cfg.readTimeout
  }

  function Min(a: int, b: int): int { if a < b then a else b }

  function Max(a: int, b: int): int { if a < b then b else a }

  /** Integer halving drops the fraction. */
  function Half(x: int): int {
    if x >= 0 then x / 2 else -((-x) / 2)
  }

  // ---- the jitter buffer ------------------------------------------------

  /** The buffer and the increase that is still pending. */
  datatype Jitter = Jitter(buffer: int, pending: int)

  predicate InRange(cfg: Config, j: Jitter) {
    && cfg.jitterBufMin <= j.buffer <= cfg.jitterBufMax
    && 0 <= j.pending <= cfg.readTimeout
  }

  function Increased(cfg: Config, buffer: int, inc: int): int {
    if inc == 0 then buffer else Min(buffer + inc, cfg.jitterBufMax)
  }

  function Committed(cfg: Config, j: Jitter): Jitter {
    Jitter(Increased(cfg, j.buffer, j.pending), 0)
  }

  function Decayed(cfg: Config, buffer: int, factor: real): int {
    Max(Trunc(buffer as real * factor), cfg.jitterBufMin)
  }

  /** With a moving position and a lag below the buffer, the part of the pending
      increase that the lag has not used up yet stays pending. */
  function PartlyCommitted(cfg: Config, j: Jitter, lag: int): Jitter {
    var rest := Half(j.buffer) - lag;
    if rest >= j.pending then j
    else
      var kept := Max(rest, 0);
      Jitter(Increased(cfg, j.buffer, j.pending - kept), kept)
  }

  /** The jitter state the speed is computed from. */
  function Settled(cfg: Config, j: Jitter, stalling: bool, lag: int): Jitter {
    if lag < j.buffer then (if stalling then j else PartlyCommitted(cfg, j, lag))
    else if j.pending > 0 then Committed(cfg, j)
    else j
  }

  // ---- the speed law ----------------------------------------------------

  /** A line through the origin that reaches `f` at `d`. */
  function Ramp(f: real, a: real, d: real): real
    requires d != 0.0
  {
    f * a / d
  }

  /** What a buffer filled to the part `k` takes off the speed, at most `m`. */
  function Shortfall(k: real, m: real): real {
    (1.0 - k) * m
  }

  function SlowDown(cfg: Config, buffer: int, lag: int): real
    requires buffer != 0
  {
    1.0 - Shortfall(lag as real / buffer as real, 1.0 - cfg.minSpeed)
  }

  function CatchUp(cfg: Config, buffer: int, lag: int): real
    requires cfg.catchupAtMaxLag - buffer + MILLISECOND != 0
  {
    1.0 + Ramp(cfg.catchupMaxSpeed - 1.0, (lag - buffer) as real,
               (cfg.catchupAtMaxLag - buffer + MILLISECOND) as real)
  }

  lemma Divide(a: real, b: real, d: real)
    requires d > 0.0
    ensures a <= b ==> a / d <= b / d
    ensures a < b ==> a / d < b / d
    ensures 0.0 / d == 0.0 && d / d == 1.0
  {
    assert b / d - a / d == (b - a) / d;
  }

  lemma Multiply(k: real, a: real, b: real)
    requires k > 0.0
    ensures a <= b ==> k * a <= k * b
    ensures a < b ==> k * a < k * b
  {
  }

  lemma RampRises(f: real, a: real, b: real, d: real)
    requires f > 0.0 && d > 0.0
    ensures a <= b ==> Ramp(f, a, d) <= Ramp(f, b, d)
    ensures a < b ==> Ramp(f, a, d) < Ramp(f, b, d)
  {
    Multiply(f, a, b);
    Divide(f * a, f * b, d);
  }

  lemma RampLaw(f: real, a: real, b: real, d: real)
    requires f > 0.0 && d > 0.0 && a <= b
    ensures Ramp(f, a, d) <= Ramp(f, b, d)
    ensures 0.0 <= Ramp(f, a, d) <==> 0.0 <= a
    ensures a < d ==> Ramp(f, a, d) < f
    ensures Ramp(f, 0.0, d) == 0.0
  {
    RampRises(f, a, b, d);
    RampRises(f, a, 0.0, d);
    RampRises(f, 0.0, a, d);
    RampRises(f, a, d, d);
    RampEnds(f, d);
  }

  lemma Cancel(q: real, x: real, d: real)
    requires d > 0.0 && q * d == x
    ensures x / d == q
  {
  }

  lemma RampEnds(f: real, d: real)
    requires d > 0.0
    ensures Ramp(f, 0.0, d) == 0.0 && Ramp(f, d, d) == f
  {
    Cancel(0.0, f * 0.0, d);
    Cancel(f, f * d, d);
  }

  lemma Product(x: real, y: real)
    requires 0.0 <= x && 0.0 <= y
    ensures 0.0 <= x * y
    ensures 0.0 < x * y <==> 0.0 < x && 0.0 < y
  {
  }

  lemma ShortfallLaw(k: real, k': real, m: real)
    requires 0.0 <= k <= k' < 1.0 && 0.0 <= m
    ensures 0.0 <= Shortfall(k', m) <= Shortfall(k, m) <= m
    ensures 0.0 < Shortfall(k, m) <==> 0.0 < m
  {
    Product(1.0 - k, m);
    Product(1.0 - k', m);
    Product(k, m);
    Product(k' - k, m);
    assert Shortfall(k, m) == m - k * m;
    assert Shortfall(k, m) == Shortfall(k', m) + (k' - k) * m;
  }

  /** Below the buffer the divisor is positive, the wanted speed is at least the
      minimum speed and rises with the lag; it is below 1 exactly when the minimum is. */
  lemma SlowDownLaw(cfg: Config, buffer: int, lag: int, lag': int)
    requires Sensible(cfg)
    requires 0 <= lag <= lag' < buffer
    ensures buffer > 0
    ensures cfg.minSpeed <= SlowDown(cfg, buffer, lag) <= SlowDown(cfg, buffer, lag') <= 1.0
    ensures SlowDown(cfg, buffer, lag) < 1.0 <==> cfg.minSpeed < 1.0
  {
    var b, m := buffer as real, 1.0 - cfg.minSpeed;
    var k, k' := lag as real / b, lag' as real / b;
    Divide(0.0, lag as real, b);
    Divide(lag as real, lag' as real, b);
    Divide(lag' as real, b, b);
    assert 0.0 <= k <= k' < 1.0;
    ShortfallLaw(k, k', m);
  }

  /** From the buffer on, the divisor is positive and the wanted speed rises with the
      lag: 1 at the buffer, and below the maximum up to the largest lag configured. */
  lemma CatchUpLaw(cfg: Config, buffer: int, lag: int, lag': int)
    requires Accepted(cfg) && buffer <= cfg.jitterBufMax
    requires lag <= lag'
    ensures cfg.catchupAtMaxLag - buffer + MILLISECOND > 0
    ensures CatchUp(cfg, buffer, lag) <= CatchUp(cfg, buffer, lag')
    ensures CatchUp(cfg, buffer, buffer) == 1.0
    ensures 1.0 <= CatchUp(cfg, buffer, lag) <==> buffer <= lag
    ensures lag <= cfg.catchupAtMaxLag ==> CatchUp(cfg, buffer, lag) < cfg.catchupMaxSpeed
  {
    var d, f := (cfg.catchupAtMaxLag - buffer + MILLISECOND) as real, cfg.catchupMaxSpeed - 1.0;
    RampLaw(f, (lag - buffer) as real, (lag' - buffer) as real, d);
  }

  // ---- the speed wanted in one iteration --------------------------------

  /** The pending increase is committed first, so the buffer the speed is computed
      from is not always the one the lag was compared with. */
  function Wanted(cfg: Config, j: Jitter, stalling: bool, lag: int): real
    requires Accepted(cfg) && Sensible(cfg) && InRange(cfg, j) && 0 <= lag
  {
    SettledBounds(cfg, j, stalling, lag);
    if lag < j.buffer then SlowDown(cfg, Settled(cfg, j, stalling, lag).buffer, lag)
    else CatchUp(cfg, Settled(cfg, j, stalling, lag).buffer, lag)
  }

  lemma SettledBounds(cfg: Config, j: Jitter, stalling: bool, lag: int)
    requires InRange(cfg, j)
    ensures InRange(cfg, Settled(cfg, j, stalling, lag))
    ensures j.buffer <= Settled(cfg, j, stalling, lag).buffer
  {
  }

  /** Committing a part first and the rest later gives the buffer that committing all
      at once gives, and an increase adds in full while there is room. */
  lemma PartialCommitsLoseNothing(cfg: Config, j: Jitter, lag: int)
    requires InRange(cfg, j)
    ensures Committed(cfg, PartlyCommitted(cfg, j, lag)) == Committed(cfg, j)
    ensures j.buffer <= PartlyCommitted(cfg, j, lag).buffer <= Committed(cfg, j).buffer <= cfg.jitterBufMax
    ensures j.buffer + j.pending <= cfg.jitterBufMax ==>
              PartlyCommitted(cfg, j, lag).buffer + PartlyCommitted(cfg, j, lag).pending == j.buffer + j.pending
  {
  }

  /** As much of the increase stays pending as the lag can still grow until it is half
      the buffer; the rest is added to the buffer, as far as its maximum allows. */
  lemma HalfTheBufferDecides(cfg: Config, j: Jitter, lag: int)
    requires InRange(cfg, j) && 0 <= lag < j.buffer
    ensures var r := PartlyCommitted(cfg, j, lag);
            && 0 <= r.pending <= j.pending
            && (0 < r.pending ==> 2 * (lag + r.pending) <= j.buffer)
            && (r.pending < j.pending ==> j.buffer < 2 * (lag + r.pending + 1))
            && r.buffer == if j.buffer + (j.pending - r.pending) <= cfg.jitterBufMax
                           then j.buffer + (j.pending - r.pending) else cfg.jitterBufMax
  {
  }

  lemma WholeCommit(cfg: Config, j: Jitter)
    requires InRange(cfg, j)
    ensures Committed(cfg, j).pending == 0
    ensures j.buffer + j.pending <= cfg.jitterBufMax ==> Committed(cfg, j).buffer == j.buffer + j.pending
    ensures cfg.jitterBufMax <= j.buffer + j.pending ==> Committed(cfg, j).buffer == cfg.jitterBufMax
  {
  }

  /** A larger lag commits more of the increase, but never more than the lag grew. */
  lemma SettledGrowsSlowly(cfg: Config, j: Jitter, stalling: bool, lag: int, lag': int)
    requires InRange(cfg, j) && lag <= lag' < j.buffer
    ensures var b, b' := Settled(cfg, j, stalling, lag).buffer, Settled(cfg, j, stalling, lag').buffer;
            b <= b' <= b + (lag' - lag)
  {
  }

  lemma DivideByMore(y: real, b: real, b': real)
    requires 0.0 <= y && 0.0 < b <= b'
    ensures y / b' <= y / b
  {
    var q := y / b';
    Divide(0.0, y, b');
    assert q * b <= q * b' == y;
    Divide(q * b, y, b);
    assert q * b / b == q;
  }

  lemma PartOf(x: real, b: real)
    requires b > 0.0
    ensures x / b == 1.0 - (b - x) / b
  {
    Divide(0.0, 0.0, b);
    assert (b - x) / b == b / b - x / b;
  }

  /** The part grows when what is missing does not and the whole does. */
  lemma PartRises(x: int, b: int, x': int, b': int)
    requires 0 <= x <= x' && x <= b && 0 < b <= b' <= b + (x' - x)
    ensures x as real / b as real <= x' as real / b' as real
  {
    PartOf(x as real, b as real);
    PartOf(x' as real, b' as real);
    Divide((b' - x') as real, (b - x) as real, b' as real);
    DivideByMore((b - x) as real, b as real, b' as real);
  }

  /** Below the buffer, with the buffer adapted to the lag on the way. */
  lemma WantedBelowTheBuffer(cfg: Config, j: Jitter, stalling: bool, lag: int, lag': int)
    requires Accepted(cfg) && Sensible(cfg) && InRange(cfg, j)
    requires 0 <= lag <= lag' < j.buffer
    ensures cfg.minSpeed <= Wanted(cfg, j, stalling, lag) <= Wanted(cfg, j, stalling, lag') <= 1.0
    ensures Wanted(cfg, j, stalling, lag) < 1.0 <==> cfg.minSpeed < 1.0
  {
    SettledBounds(cfg, j, stalling, lag);
    SettledBounds(cfg, j, stalling, lag');
    var b, b' := Settled(cfg, j, stalling, lag).buffer, Settled(cfg, j, stalling, lag').buffer;
    SettledGrowsSlowly(cfg, j, stalling, lag, lag');
    SlowDownLaw(cfg, b, lag, lag);
    SlowDownLaw(cfg, b', lag', lag');
    PartRises(lag, b, lag', b');
    Divide(lag' as real, b' as real, b' as real);
    Divide(0.0, lag as real, b as real);
    ShortfallLaw(lag as real / b as real, lag' as real / b' as real, 1.0 - cfg.minSpeed);
  }

  /** From the buffer on. */
  lemma WantedFromTheBufferOn(cfg: Config, j: Jitter, stalling: bool, lag: int, lag': int)
    requires Accepted(cfg) && Sensible(cfg) && InRange(cfg, j)
    requires 0 <= lag && j.buffer <= lag <= lag'
    ensures Wanted(cfg, j, stalling, lag) <= Wanted(cfg, j, stalling, lag')
    ensures lag <= cfg.catchupAtMaxLag ==> Wanted(cfg, j, stalling, lag) < cfg.catchupMaxSpeed
  {
    SettledBounds(cfg, j, stalling, lag);
    CatchUpLaw(cfg, Settled(cfg, j, stalling, lag).buffer, lag, lag');
  }

  /** At the buffer the wanted speed is 1 exactly when nothing of a pending increase
      can be committed. */
  lemma WantedAtTheBuffer(cfg: Config, j: Jitter, stalling: bool)
    requires Accepted(cfg) && Sensible(cfg) && InRange(cfg, j) && 0 <= j.buffer
    ensures Wanted(cfg, j, stalling, j.buffer) == 1.0 <==> j.pending == 0 || j.buffer == cfg.jitterBufMax
  {
    SettledBounds(cfg, j, stalling, j.buffer);
    CatchUpLaw(cfg, Settled(cfg, j, stalling, j.buffer).buffer, j.buffer, j.buffer);
    CatchUpBelow(cfg, Settled(cfg, j, stalling, j.buffer).buffer, j.buffer);
  }

  ghost predicate WantedRises(cfg: Config, j: Jitter, stalling: bool)
    requires Accepted(cfg) && Sensible(cfg) && InRange(cfg, j)
  {
    forall lag, lag' :: 0 <= lag <= lag' ==> Wanted(cfg, j, stalling, lag) <= Wanted(cfg, j, stalling, lag')
  }

  lemma WantedRisesIfItDoesAtTheBuffer(cfg: Config, j: Jitter, stalling: bool)
    requires Accepted(cfg) && Sensible(cfg) && InRange(cfg, j)
    requires 0 < j.buffer ==>
               Wanted(cfg, j, stalling, j.buffer - 1) <= Wanted(cfg, j, stalling, j.buffer)
    ensures WantedRises(cfg, j, stalling)
  {
    var b := j.buffer;
    forall lag, lag' | 0 <= lag <= lag'
      ensures Wanted(cfg, j, stalling, lag) <= Wanted(cfg, j, stalling, lag')
    {
      if lag' < b {
        WantedBelowTheBuffer(cfg, j, stalling, lag, lag');
      } else if b <= lag {
        WantedFromTheBufferOn(cfg, j, stalling, lag, lag');
      } else {
        WantedBelowTheBuffer(cfg, j, stalling, lag, b - 1);
        WantedFromTheBufferOn(cfg, j, stalling, b, lag');
      }
    }
  }

  /** How much a commit of the whole pending increase adds to the buffer. */
  function Commit(cfg: Config, j: Jitter): int {
    Increased(cfg, j.buffer, j.pending) - j.buffer
  }

  /** The buffer the speed just below it is computed from. */
  function Low(cfg: Config, j: Jitter, stalling: bool): int {
    if stalling then j.buffer else j.buffer + Commit(cfg, j)
  }

  /** The lag that catching up would still allow after the commit. */
  function Room(cfg: Config, j: Jitter): int {
    cfg.catchupAtMaxLag - (j.buffer + Commit(cfg, j)) + MILLISECOND
  }

  predicate AtMost(f: real, c: int, low: int, m: real, gap: int, room: int) {
    f * c as real * low as real <= m * gap as real * room as real
  }

  /** What catching up takes off the speed at the buffer is no more than slowing down
      takes off just below it, both brought to a common denominator. */
  predicate NoDrop(cfg: Config, j: Jitter, stalling: bool) {
    var low := Low(cfg, j, stalling);
    AtMost(cfg.catchupMaxSpeed - 1.0, Commit(cfg, j), low, 1.0 - cfg.minSpeed, low - j.buffer + 1, Room(cfg, j))
  }

  lemma ShortfallAsQuotient(x: real, b: real, m: real, gap: real)
    requires 0.0 < b && gap == b - x
    ensures Shortfall(x / b, m) == Ramp(m, gap, b)
  {
    var q := gap / b;
    PartOf(x, b);
    assert q * b == gap;
    assert (m * q) * b == m * (q * b);
    Cancel(m * q, m * gap, b);
    assert Shortfall(x / b, m) == q * m;
  }

  lemma RampNegates(f: real, a: real, a': real, d: real)
    requires 0.0 < d && a' == -a
    ensures Ramp(f, a', d) == -Ramp(f, a, d)
  {
    var q := f * a / d;
    assert q * d == f * a;
    assert (-q) * d == f * a';
    Cancel(-q, f * a', d);
  }

  lemma CompareQuotients(p: real, d: real, q: real, b: real)
    requires 0.0 < d && 0.0 < b
    ensures p / d <= q / b <==> p * b <= q * d
  {
    var x, y := p / d, q / b;
    assert x * d == p && y * b == q;
    assert p * b == x * (d * b) && q * d == y * (d * b);
    Product(d, b);
    if x <= y {
      Multiply(d * b, x, y);
    } else {
      Multiply(d * b, y, x);
    }
  }

  lemma CatchUpBelow(cfg: Config, b: int, lag: int)
    requires Accepted(cfg) && b <= cfg.jitterBufMax && lag <= b
    ensures CatchUp(cfg, b, lag) == 1.0 <==> lag == b
  {
    CatchUpLaw(cfg, b, lag, b);
    if lag < b {
      CatchUpLaw(cfg, b, lag, lag);
    }
  }

  lemma WantedJustBelow(cfg: Config, j: Jitter, stalling: bool)
    requires Accepted(cfg) && Sensible(cfg) && InRange(cfg, j) && 0 < j.buffer
    ensures var low := Low(cfg, j, stalling);
            && 0 < low
            && Wanted(cfg, j, stalling, j.buffer - 1)
               == 1.0 - Ramp(1.0 - cfg.minSpeed, (low - j.buffer + 1) as real, low as real)
  {
    var b, low, m := j.buffer, Low(cfg, j, stalling), 1.0 - cfg.minSpeed;
    SettledBounds(cfg, j, stalling, b - 1);
    assert Wanted(cfg, j, stalling, b - 1) == SlowDown(cfg, low, b - 1);
    assert SlowDown(cfg, low, b - 1) == 1.0 - Shortfall((b - 1) as real / low as real, m);
    ShortfallAsQuotient((b - 1) as real, low as real, m, (low - b + 1) as real);
  }

  lemma WantedOnTheBuffer(cfg: Config, j: Jitter, stalling: bool)
    requires Accepted(cfg) && Sensible(cfg) && InRange(cfg, j) && 0 < j.buffer
    ensures 0 < Room(cfg, j)
    ensures Wanted(cfg, j, stalling, j.buffer)
            == 1.0 - Ramp(cfg.catchupMaxSpeed - 1.0, Commit(cfg, j) as real, Room(cfg, j) as real)
  {
    var b, c, f := j.buffer, Commit(cfg, j), cfg.catchupMaxSpeed - 1.0;
    SettledBounds(cfg, j, stalling, b);
    assert Wanted(cfg, j, stalling, b) == CatchUp(cfg, b + c, b);
    assert CatchUp(cfg, b + c, b) == 1.0 + Ramp(f, (b - (b + c)) as real, Room(cfg, j) as real);
    RampNegates(f, c as real, (b - (b + c)) as real, Room(cfg, j) as real);
  }

  /** The step onto the buffer as an inequality over the configuration and the state. */
  lemma StepOntoTheBuffer(cfg: Config, j: Jitter, stalling: bool)
    requires Accepted(cfg) && Sensible(cfg) && InRange(cfg, j) && 0 < j.buffer
    ensures Wanted(cfg, j, stalling, j.buffer - 1) <= Wanted(cfg, j, stalling, j.buffer) <==> NoDrop(cfg, j, stalling)
  {
    var low := Low(cfg, j, stalling);
    WantedJustBelow(cfg, j, stalling);
    WantedOnTheBuffer(cfg, j, stalling);
    CompareSteps(cfg.catchupMaxSpeed - 1.0, Commit(cfg, j), low, 1.0 - cfg.minSpeed, low - j.buffer + 1, Room(cfg, j));
  }

  lemma CompareSteps(f: real, c: int, low: int, m: real, gap: int, room: int)
    requires 0 < room && 0 < low
    ensures 1.0 - Ramp(m, gap as real, low as real) <= 1.0 - Ramp(f, c as real, room as real)
            <==> AtMost(f, c, low, m, gap, room)
  {
    CompareQuotients(f * c as real, room as real, m * gap as real, low as real);
  }

  /** The wanted speed rises with the lag over the whole range exactly when the
      configuration and the state satisfy the inequality, or the buffer is empty. */
  lemma WantedRisesIffNoDrop(cfg: Config, j: Jitter, stalling: bool)
    requires Accepted(cfg) && Sensible(cfg) && InRange(cfg, j)
    ensures WantedRises(cfg, j, stalling) <==> j.buffer <= 0 || NoDrop(cfg, j, stalling)
  {
    if 0 < j.buffer {
      StepOntoTheBuffer(cfg, j, stalling);
    }
    if j.buffer <= 0 || NoDrop(cfg, j, stalling) {
      WantedRisesIfItDoesAtTheBuffer(cfg, j, stalling);
    }
  }

  /** With nothing left to commit it rises everywhere. */
  lemma WantedRisesWhenNothingIsPending(cfg: Config, j: Jitter, stalling: bool)
    requires Accepted(cfg) && Sensible(cfg) && InRange(cfg, j)
    requires j.pending == 0 || j.buffer == cfg.jitterBufMax
    ensures WantedRises(cfg, j, stalling)
  {
    if 0 < j.buffer {
      WantedBelowTheBuffer(cfg, j, stalling, j.buffer - 1, j.buffer - 1);
      WantedAtTheBuffer(cfg, j, stalling);
    }
    WantedRisesIfItDoesAtTheBuffer(cfg, j, stalling);
  }

  const DEFAULT_CONFIG := Config(200 * MILLISECOND, 180_000 * MILLISECOND, 1.1, 180_000 * MILLISECOND,
                                 10_000 * MILLISECOND, 0.95, 0.01)

  /** With the default configuration a commit of ten seconds makes the wanted speed
      drop below zero at a buffer of 170 seconds. */
  lemma CommitCanDropTheSpeed(stalling: bool)
    ensures Accepted(DEFAULT_CONFIG) && Sensible(DEFAULT_CONFIG)
    ensures var j := Jitter(170_000_000_000, 10_000_000_000);
            && InRange(DEFAULT_CONFIG, j)
            && Wanted(DEFAULT_CONFIG, j, stalling, j.buffer) < 0.0
            && 0.95 <= Wanted(DEFAULT_CONFIG, j, stalling, j.buffer - 1)
            && !WantedRises(DEFAULT_CONFIG, j, stalling)
  {
    var cfg, j := DEFAULT_CONFIG, Jitter(170_000 * MILLISECOND, 10_000 * MILLISECOND);
    assert Settled(cfg, j, stalling, j.buffer) == Jitter(180_000 * MILLISECOND, 0);
    WantedBelowTheBuffer(cfg, j, stalling, j.buffer - 1, j.buffer - 1);
  }

  /** Decay keeps every buffer of the range inside it exactly when the upper bound
      is not negative: rounding goes towards zero. */
  lemma DecayStaysInRangeIff(cfg: Config)
    requires cfg.jitterBufMin <= cfg.jitterBufMax
    ensures (forall b, f :: cfg.jitterBufMin <= b <= cfg.jitterBufMax && 0.0 <= f <= 1.0 ==>
               cfg.jitterBufMin <= Decayed(cfg, b, f) <= cfg.jitterBufMax)
            <==> 0 <= cfg.jitterBufMax
  {
    if 0 <= cfg.jitterBufMax {
      forall b, f | cfg.jitterBufMin <= b <= cfg.jitterBufMax && 0.0 <= f <= 1.0
        ensures cfg.jitterBufMin <= Decayed(cfg, b, f) <= cfg.jitterBufMax
      {
        DecayedInRange(cfg, b, f);
      }
    } else {
      assert Decayed(cfg, cfg.jitterBufMax, 0.0) == 0;
    }
  }

  lemma DecayedInRange(cfg: Config, b: int, f: real)
    requires 0 <= cfg.jitterBufMax && cfg.jitterBufMin <= b <= cfg.jitterBufMax && 0.0 <= f <= 1.0
    ensures cfg.jitterBufMin <= Decayed(cfg, b, f) <= cfg.jitterBufMax
  {
    if b >= 0 {
      assert b as real * f <= b as real;
    } else {
      assert b as real * f <= 0.0;
    }
  }

  /** The decayed buffer is the product with its fraction dropped, or the minimum if that
      is more. */
  lemma DecayDropsTheFraction(cfg: Config, b: int, f: real)
    requires 0.0 <= f
    ensures var r, x := Decayed(cfg, b, f), b as real * f;
            && cfg.jitterBufMin <= r
            && (0 <= b ==> r as real <= x < (r + 1) as real || (r == cfg.jitterBufMin && x < r as real))
            && (b <= 0 ==> (r - 1) as real < x <= r as real || (r == cfg.jitterBufMin && x < r as real))
  {
    var x := b as real * f;
    if 0 <= b {
      Product(b as real, f);
    } else {
      Product(-(b as real), f);
      assert x == -(-(b as real) * f);
    }
  }
}
