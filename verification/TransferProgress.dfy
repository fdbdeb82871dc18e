/** The ISO transfer watchdog of scripts/bluebuild/release-evidence.py. */
module TransferProgress {
  import opened Wrappers

  const WINDOW := 60.0
  const SETTLE := 120.0
  const STALL := 90.0

  datatype Sample = Sample(time: real, bytes: int)

  datatype Verdict = Continue | Deadline | NoProgress | UnproductiveRate

  datatype ProgressError = InconsistentBytes

  /** The fields of the watchdog that change. */
  datatype Progress = Progress(received: int, lastProgress: real, samples: seq<Sample>, slowSince: Option<real>)

  /** What never changes: expected bytes, timeout, and the time of the start. */
  datatype Transfer = Transfer(expected: int, timeout: real, start: real)

  function Begin(t: Transfer): Progress {
    Progress(0, t.start, [Sample(t.start, 0)], None)
  }

  // ----- One observation -----

  /** Drop samples as long as the next one is already a whole window old. */
  function Trim(samples: seq<Sample>, now: real): (r: seq<Sample>)
    ensures samples != [] ==> r != []
  {
    if |samples| > 1 && samples[1].time <= now - WINDOW then Trim(samples[1..], now) else samples
  }

  /** Both the whole transfer and the window project more than twice the time that is left. */
  predicate Slow(t: Transfer, now: real, received: int, first: Sample) {
    var elapsed, remaining := now - t.start, t.timeout - (now - t.start);
    var missing, bytes := (t.expected - received) as real, received as real;
    var span, progress := now - first.time, (received - first.bytes) as real;
    span >= WINDOW && missing * elapsed > 2.0 * remaining * bytes && missing * span > 2.0 * remaining * progress
  }

  predicate Consistent(t: Transfer, p: Progress, received: int) {
    p.received <= received <= t.expected
  }

  function LastProgress(p: Progress, o: Sample): real {
    if o.bytes > p.received then o.time else p.lastProgress
  }

  function Window(p: Progress, o: Sample): seq<Sample> {
    Trim(p.samples + [o], o.time)
  }

  /** The observation is judged: not too late, settled, incomplete, and not stalled. */
  predicate Judged(t: Transfer, p: Progress, o: Sample) {
    && o.time - t.start < t.timeout && o.time - t.start >= SETTLE && o.bytes != t.expected
    && o.time - LastProgress(p, o) < STALL
  }

  predicate JudgedSlow(t: Transfer, p: Progress, o: Sample)
    requires p.samples != []
  {
    Judged(t, p, o) && Slow(t, o.time, o.bytes, Window(p, o)[0])
  }

  function After(t: Transfer, p: Progress, o: Sample): (q: Progress)
    requires p.samples != []
    ensures q.samples != []
  {
    var slowSince :=
      if !Judged(t, p, o) then p.slowSince
      else if !JudgedSlow(t, p, o) then None
      else if p.slowSince.None? then Some(o.time) else p.slowSince;
    Progress(o.bytes, LastProgress(p, o), Window(p, o), slowSince)
  }

  function VerdictOn(t: Transfer, p: Progress, o: Sample): Verdict
    requires p.samples != []
  {
    if o.time - t.start >= t.timeout then Deadline
    else if o.time - t.start < SETTLE || o.bytes == t.expected then Continue
    else if o.time - LastProgress(p, o) >= STALL then NoProgress
    else if JudgedSlow(t, p, o) && p.slowSince.Some? && o.time - p.slowSince.value >= WINDOW then UnproductiveRate
    else Continue
  }

  class ISOTransferProgress {
    const transfer: Transfer
    var received: int
    var lastProgress: real
    var samples: seq<Sample>
    var slowSince: Option<real>

    ghost function Value(): Progress
      reads this
    {
      Progress(received, lastProgress, samples, slowSince)
    }

    constructor (transfer: Transfer)
      ensures this.transfer == transfer && Value() == Begin(transfer)
    {
      this.transfer := transfer;
      received, lastProgress, samples, slowSince := 0, transfer.start, [Sample(transfer.start, 0)], None;
    }

    /** `observe`: an inconsistent byte count changes nothing and is an error. */
    method Observe(now: real, bytes: int) returns (r: Result<Verdict, ProgressError>)
      requires samples != []
      modifies this
      ensures samples != []
      ensures !Consistent(transfer, old(Value()), bytes) ==> r == Err(InconsistentBytes) && Value() == old(Value())
      ensures Consistent(transfer, old(Value()), bytes) ==>
                && r == Ok(VerdictOn(transfer, old(Value()), Sample(now, bytes)))
                && Value() == After(transfer, old(Value()), Sample(now, bytes))
    {
      hide Slow;
      if bytes < received || bytes > transfer.expected {
        return Err(InconsistentBytes);
      }
      if bytes > received {
        lastProgress := now;
      }
      received := bytes;
      samples := samples + [Sample(now, bytes)];
      ghost var appended := samples;
      while |samples| > 1 && samples[1].time <= now - WINDOW
        invariant samples != [] && Trim(samples, now) == Trim(appended, now)
        invariant received == bytes && slowSince == old(slowSince)
        invariant lastProgress == if bytes > old(received) then now else old(lastProgress)
        decreases |samples|
      {
        samples := samples[1..];
      }
      var elapsed := now - transfer.start;
      if elapsed >= transfer.timeout {
        return Ok(Deadline);
      }
      // Too early to judge, or nothing left to.
      if elapsed < SETTLE || bytes == transfer.expected {
        return Ok(Continue);
      }
      if now - lastProgress >= STALL {
        return Ok(NoProgress);
      }
      if !Slow(transfer, now, bytes, samples[0]) {
        slowSince := None;
      } else if slowSince.None? {
        slowSince := Some(now);
      } else if now - slowSince.value >= WINDOW {
        return Ok(UnproductiveRate);
      }
      r := Ok(Continue);
    }
  }

  // ----- Runs of the driver -----

  /** Observations in time order, from the start on, with consistent byte counts. */
  ghost predicate Observations(t: Transfer, obs: seq<Sample>) {
    && (forall i :: 0 <= i < |obs| ==> t.start <= obs[i].time && 0 <= obs[i].bytes <= t.expected)
    && forall i, j :: 0 <= i < j < |obs| ==> obs[i].time <= obs[j].time && obs[i].bytes <= obs[j].bytes
  }

  /** The state before observation `n`. */
  function StateAt(t: Transfer, obs: seq<Sample>, n: nat): (p: Progress)
    requires n <= |obs|
    ensures p.samples != []
  {
    if n == 0 then Begin(t) else After(t, StateAt(t, obs, n - 1), obs[n - 1])
  }

  function VerdictAt(t: Transfer, obs: seq<Sample>, n: nat): Verdict
    requires n < |obs|
  {
    VerdictOn(t, StateAt(t, obs, n), obs[n])
  }

  predicate SlowAt(t: Transfer, obs: seq<Sample>, n: nat)
    requires n < |obs|
  {
    JudgedSlow(t, StateAt(t, obs, n), obs[n])
  }

  /** The driver is still waiting when observation `n` comes: every earlier verdict was to go on. */
  ghost predicate Waiting(t: Transfer, obs: seq<Sample>, n: nat)
    requires n <= |obs|
  {
    forall i :: 0 <= i < n ==> VerdictAt(t, obs, i) == Continue
  }

  // ----- The window -----

  /** The start sample and one sample per observation. */
  function AllSamples(t: Transfer, obs: seq<Sample>, n: nat): seq<Sample>
    requires n <= |obs|
  {
    [Sample(t.start, 0)] + obs[..n]
  }

  /** `k` is the newest sample at least a window old at `now`, or the start if there is none. */
  ghost predicate NewestOld(all: seq<Sample>, k: nat, now: real) {
    && k < |all|
    && (k == 0 || all[k].time <= now - 60.0)
    && forall j :: k < j < |all| ==> all[j].time > now - 60.0
  }

  ghost predicate InOrder(all: seq<Sample>) {
    forall i, j :: 0 <= i < j < |all| ==> all[i].time <= all[j].time
  }

  lemma {:induction false} TrimFinds(all: seq<Sample>, k: nat, now: real) returns (m: nat)
    requires InOrder(all) && k < |all| && (k == 0 || all[k].time <= now - WINDOW)
    ensures NewestOld(all, m, now) && Trim(all[k..], now) == all[m..]
    decreases |all| - k
  {
    if k + 1 < |all| && all[k + 1].time <= now - WINDOW {
      assert all[k..][1..] == all[k + 1..];
      m := TrimFinds(all, k + 1, now);
    } else {
      m := k;
    }
  }

  /** After every observation the samples start where the rule says. */
  lemma {:induction false} WindowIsRecent(t: Transfer, obs: seq<Sample>, n: nat) returns (k: nat)
    requires n <= |obs| && Observations(t, obs)
    ensures k <= n && StateAt(t, obs, n).samples == AllSamples(t, obs, n)[k..]
    ensures n > 0 ==> NewestOld(AllSamples(t, obs, n), k, obs[n - 1].time)
    ensures n == 0 ==> k == 0
  {
    if n == 0 {
      k := 0;
    } else {
      var before := WindowIsRecent(t, obs, n - 1);
      var all, earlier, now := AllSamples(t, obs, n), AllSamples(t, obs, n - 1), obs[n - 1].time;
      assert all == earlier + [obs[n - 1]];
      assert earlier[before..] + [obs[n - 1]] == all[before..];
      OrderedSamples(t, obs, n);
      if before > 0 {
        assert all[before] == earlier[before] && obs[n - 2].time <= now;
      }
      k := TrimFinds(all, before, now);
    }
  }

  lemma OrderedSamples(t: Transfer, obs: seq<Sample>, n: nat)
    requires n <= |obs| && Observations(t, obs)
    ensures InOrder(AllSamples(t, obs, n))
  {
    var all := AllSamples(t, obs, n);
    forall i, j | 0 <= i < j < |all| ensures all[i].time <= all[j].time {
      if i > 0 {
        assert all[i] == obs[i - 1] && all[j] == obs[j - 1];
      }
    }
  }

  // ----- When a transfer is stopped as unproductive -----

  /** The first observation of the run of slow ones that ends just before `n`, or `n`. */
  function StreakStart(t: Transfer, obs: seq<Sample>, n: nat): (m: nat)
    requires n <= |obs|
    ensures m <= n
    ensures forall i :: m <= i < n ==> SlowAt(t, obs, i)
    ensures m > 0 ==> !SlowAt(t, obs, m - 1)
  {
    if n > 0 && SlowAt(t, obs, n - 1) then StreakStart(t, obs, n - 1) else n
  }

  lemma {:induction false} SlowSinceIsStreak(t: Transfer, obs: seq<Sample>, n: nat)
    requires n <= |obs| && Observations(t, obs) && Waiting(t, obs, n)
    requires n > 0 ==> obs[n - 1].bytes != t.expected
    ensures var m := StreakStart(t, obs, n);
            StateAt(t, obs, n).slowSince == if m < n then Some(obs[m].time) else None
  {
    hide Slow, Trim;
    if n > 0 {
      if n > 1 {
        assert obs[n - 2].bytes <= obs[n - 1].bytes;
      }
      SlowSinceIsStreak(t, obs, n - 1);
      assert VerdictAt(t, obs, n - 1) == Continue;
      if !Judged(t, StateAt(t, obs, n - 1), obs[n - 1]) {
        EarlyIsNotSlow(t, obs, n - 1);
      }
    }
  }

  /** Before settling nothing is slow, so an unjudged observation interrupts no streak. */
  lemma EarlyIsNotSlow(t: Transfer, obs: seq<Sample>, n: nat)
    requires n < |obs| && Observations(t, obs) && Waiting(t, obs, n + 1)
    requires obs[n].bytes != t.expected && !Judged(t, StateAt(t, obs, n), obs[n])
    ensures StreakStart(t, obs, n) == n
  {
    hide Slow, Trim;
    assert VerdictAt(t, obs, n) == Continue;
    assert obs[n].time - t.start < SETTLE;
    if n > 0 {
      assert obs[n - 1].time <= obs[n].time;
    }
  }

  ghost predicate SlowFrom(t: Transfer, obs: seq<Sample>, m: nat, n: nat)
    requires m <= n <= |obs|
  {
    forall i :: m <= i < n ==> SlowAt(t, obs, i)
  }

  lemma VerdictOnSlow(t: Transfer, p: Progress, o: Sample)
    requires p.samples != []
    ensures VerdictOn(t, p, o) == UnproductiveRate <==>
              JudgedSlow(t, p, o) && p.slowSince.Some? && o.time - p.slowSince.value >= WINDOW
  {
    hide Slow, Trim;
  }

  /** The streak in progress is the longest run of slow observations that ends here. */
  lemma StreakIsLongest(t: Transfer, obs: seq<Sample>, n: nat, m: nat)
    requires n < |obs| && m < n && SlowFrom(t, obs, m, n) && Observations(t, obs)
    ensures var s := StreakStart(t, obs, n); s <= m && obs[s].time <= obs[m].time
  {
    hide SlowAt;
    var s := StreakStart(t, obs, n);
    assert s == 0 || !SlowAt(t, obs, s - 1);
  }

  /**
   * A waiting driver sees `unproductive-rate` exactly when this observation is slow and
   * so was every one since some observation at least a window earlier.
   */
  lemma UnproductiveMeansSlowWindow(t: Transfer, obs: seq<Sample>, n: nat)
    requires n < |obs| && Observations(t, obs) && Waiting(t, obs, n)
    ensures VerdictAt(t, obs, n) == UnproductiveRate <==>
              && SlowAt(t, obs, n)
              && exists m :: 0 <= m < n && SlowFrom(t, obs, m, n) && obs[n].time - obs[m].time >= 60.0
  {
    hide VerdictOn, JudgedSlow, StateAt;
    VerdictOnSlow(t, StateAt(t, obs, n), obs[n]);
    if SlowAt(t, obs, n) {
      SlowIsIncomplete(t, obs, n);
      SlowSinceIsStreak(t, obs, n);
      assert SlowFrom(t, obs, StreakStart(t, obs, n), n);
      forall m | 0 <= m < n && SlowFrom(t, obs, m, n)
        ensures var s := StreakStart(t, obs, n); s <= m && obs[s].time <= obs[m].time
      {
        StreakIsLongest(t, obs, n, m);
      }
    }
  }

  lemma SlowIsIncomplete(t: Transfer, obs: seq<Sample>, n: nat)
    requires n < |obs| && Observations(t, obs) && SlowAt(t, obs, n)
    ensures n > 0 ==> obs[n - 1].bytes != t.expected
  {
    hide Slow, Trim;
    if n > 0 {
      assert obs[n - 1].bytes <= obs[n].bytes;
    }
  }

  /** Nothing is stopped as unproductive in the first three minutes, nor after a fast observation. */
  lemma UnproductiveIsLate(t: Transfer, obs: seq<Sample>, n: nat)
    requires n < |obs| && Observations(t, obs) && Waiting(t, obs, n)
    requires VerdictAt(t, obs, n) == UnproductiveRate
    ensures obs[n].time - t.start >= 180.0
    ensures forall i :: 0 <= i <= n && obs[i].time > obs[n].time - 60.0 ==> SlowAt(t, obs, i)
  {
    hide Slow, Trim;
    UnproductiveMeansSlowWindow(t, obs, n);
    var m :| 0 <= m < n && SlowFrom(t, obs, m, n) && obs[n].time - obs[m].time >= 60.0;
    assert SlowAt(t, obs, m);
    assert forall i :: 0 <= i < m ==> obs[i].time <= obs[m].time;
  }

  /** An average rate that still meets the deadline is never slow. */
  lemma OnScheduleIsNotSlow(t: Transfer, now: real, received: int, first: Sample)
    requires 0 <= received && now - t.start < t.timeout
    requires received as real * t.timeout >= t.expected as real * (now - t.start)
    ensures !Slow(t, now, received, first)
  {
    var e, T, R, E := now - t.start, t.timeout, received as real, t.expected as real;
    assert (t.expected - received) as real == E - R;
    assert (E - R) * e == E * e - R * e;
    assert 2.0 * (T - e) * R == R * T + R * T - R * e - R * e;
    assert R * (T - e) >= 0.0;
    assert R * (T - e) == R * T - R * e;
  }

  /** A transfer that is on schedule at every observation is never stopped as unproductive. */
  lemma OnScheduleKeepsRunning(t: Transfer, obs: seq<Sample>, n: nat)
    requires n < |obs| && Observations(t, obs)
    requires obs[n].bytes as real * t.timeout >= t.expected as real * (obs[n].time - t.start)
    ensures VerdictAt(t, obs, n) != UnproductiveRate
  {
    hide Slow, Trim;
    if obs[n].time - t.start < t.timeout {
      OnScheduleIsNotSlow(t, obs[n].time, obs[n].bytes, Window(StateAt(t, obs, n), obs[n])[0]);
    }
  }

  // ----- The verdicts, from the observations alone -----

  /** Observation `i` shows more bytes than the one before it. */
  ghost predicate Grows(obs: seq<Sample>, i: nat)
    requires i < |obs|
  {
    obs[i].bytes > if i == 0 then 0 else obs[i - 1].bytes
  }

  /** `time` is that of the last growth among the first `n` observations, or the start. */
  ghost predicate LastGrowth(t: Transfer, obs: seq<Sample>, n: nat, time: real)
    requires n <= |obs|
  {
    || (time == t.start && forall i :: 0 <= i < n ==> !Grows(obs, i))
    || exists i :: 0 <= i < n && time == obs[i].time && Grows(obs, i) && forall j :: i < j < n ==> !Grows(obs, j)
  }

  lemma {:induction false} LastProgressExactly(t: Transfer, obs: seq<Sample>, n: nat)
    requires n <= |obs|
    ensures LastGrowth(t, obs, n, StateAt(t, obs, n).lastProgress)
  {
    if n > 0 {
      LastProgressExactly(t, obs, n - 1);
      ReceivedIs(t, obs, n - 1);
      ProgressAfter(t, StateAt(t, obs, n - 1), obs[n - 1]);
      hide After;
    }
  }

  lemma ProgressAfter(t: Transfer, p: Progress, o: Sample)
    requires p.samples != []
    ensures After(t, p, o).lastProgress == if o.bytes > p.received then o.time else p.lastProgress
  {
  }

  /** Nothing grew in the last 90 seconds up to observation `n`. */
  ghost predicate Stalled(t: Transfer, obs: seq<Sample>, n: nat)
    requires n < |obs|
  {
    forall i :: 0 <= i <= n && Grows(obs, i) ==> obs[n].time - obs[i].time >= 90.0
  }

  lemma StalledMeans(t: Transfer, obs: seq<Sample>, n: nat)
    requires n < |obs| && Observations(t, obs) && obs[n].time - t.start >= 120.0
    ensures obs[n].time - LastProgress(StateAt(t, obs, n), obs[n]) >= 90.0 <==> Stalled(t, obs, n)
  {
    LastProgressExactly(t, obs, n + 1);
    ProgressAfter(t, StateAt(t, obs, n), obs[n]);
    hide After;
  }

  /** Both the whole transfer and what came since a sample project more than twice the time that is left. */
  ghost predicate TooSlow(t: Transfer, now: real, received: int, since: real, had: int) {
    var left, missing := t.timeout - (now - t.start), (t.expected - received) as real;
    && now - since >= 60.0
    && missing * (now - t.start) > 2.0 * left * received as real
    && missing * (now - since) > 2.0 * left * (received - had) as real
  }

  lemma SlowSince(t: Transfer, now: real, received: int, first: Sample)
    ensures Slow(t, now, received, first) <==> TooSlow(t, now, received, first.time, first.bytes)
  {
  }

  lemma SlowMeans(t: Transfer, obs: seq<Sample>, n: nat) returns (k: nat)
    requires n < |obs| && Observations(t, obs)
    ensures k <= n + 1 && NewestOld(AllSamples(t, obs, n + 1), k, obs[n].time)
    ensures var first := AllSamples(t, obs, n + 1)[k];
            Slow(t, obs[n].time, obs[n].bytes, Window(StateAt(t, obs, n), obs[n])[0])
            <==> TooSlow(t, obs[n].time, obs[n].bytes, first.time, first.bytes)
  {
    k := WindowIsRecent(t, obs, n + 1);
    var all := AllSamples(t, obs, n + 1);
    WindowAfter(t, StateAt(t, obs, n), obs[n]);
    SlowSince(t, obs[n].time, obs[n].bytes, all[k]);
    hide After, Window, Slow, TooSlow;
    assert all[k..][0] == all[k];
  }

  lemma WindowAfter(t: Transfer, p: Progress, o: Sample)
    requires p.samples != []
    ensures After(t, p, o).samples == Window(p, o) && Window(p, o) != []
  {
  }

  /**
   * Which observation is slow: between two minutes and the deadline, incomplete, with some growth
   * in the last 90 seconds, and too slow both overall and since the window's first sample.
   */
  lemma SlowExactly(t: Transfer, obs: seq<Sample>, n: nat) returns (k: nat)
    requires n < |obs| && Observations(t, obs)
    ensures k <= n + 1 && NewestOld(AllSamples(t, obs, n + 1), k, obs[n].time)
    ensures SlowAt(t, obs, n) <==>
              && 120.0 <= obs[n].time - t.start < t.timeout && obs[n].bytes != t.expected && !Stalled(t, obs, n)
              && var first := AllSamples(t, obs, n + 1)[k];
                 TooSlow(t, obs[n].time, obs[n].bytes, first.time, first.bytes)
  {
    k := SlowMeans(t, obs, n);
    hide Slow, TooSlow, Stalled, StateAt, Window, NewestOld;
    if obs[n].time - t.start >= 120.0 {
      StalledMeans(t, obs, n);
    }
  }

  /** When the deadline is over, and when an incomplete transfer made no progress. */
  lemma VerdictExactly(t: Transfer, obs: seq<Sample>, n: nat)
    requires n < |obs| && Observations(t, obs)
    ensures VerdictAt(t, obs, n) == Deadline <==> obs[n].time - t.start >= t.timeout
    ensures VerdictAt(t, obs, n) == NoProgress <==>
              120.0 <= obs[n].time - t.start < t.timeout && obs[n].bytes != t.expected && Stalled(t, obs, n)
  {
    hide JudgedSlow, Stalled, StateAt;
    if obs[n].time - t.start >= 120.0 {
      StalledMeans(t, obs, n);
    }
  }

  // ----- The driver -----

  /**
   * One round: the clock at its head and after the wait, and the file's size then, unless the
   * child has exited.
   */
  datatype Round = Round(head: real, at: real, bytes: int, exit: Option<int>)

  datatype End =
    | Running | Completed | ChildFailed(code: int) | TimedOut
    | Stopped(verdict: Verdict, received: int) | Inconsistent

  function Samples(rounds: seq<Round>): (obs: seq<Sample>)
    ensures |obs| == |rounds|
  {
    seq(|rounds|, i requires 0 <= i < |rounds| => Sample(rounds[i].at, rounds[i].bytes))
  }

  /** How round `n` ends, after rounds that all went on. */
  function EndOf(t: Transfer, rounds: seq<Round>, n: nat): End
    requires n < |rounds|
  {
    var r := rounds[n];
    if r.head - t.start >= t.timeout then TimedOut
    else if r.exit.None? then
      if !Consistent(t, StateAt(t, Samples(rounds), n), r.bytes) then Inconsistent
      else
        match VerdictAt(t, Samples(rounds), n)
        case Continue => Running
        case Deadline => TimedOut
        case verdict => Stopped(verdict, r.bytes)
    else if r.exit.value != 0 then ChildFailed(r.exit.value)
    else if r.at - t.start >= t.timeout then TimedOut
    else Completed
  }

  /** `progress_download`: it ends with the first round that does not go on. */
  method Download(t: Transfer, rounds: seq<Round>) returns (n: nat, end: End)
    ensures n <= |rounds| && forall i :: 0 <= i < n ==> EndOf(t, rounds, i) == Running
    ensures if n < |rounds| then end == EndOf(t, rounds, n) != Running else end == Running
  {
    hide VerdictOn, After, Consistent;
    var progress := new ISOTransferProgress(t);
    n := 0;
    while n < |rounds|
      invariant n <= |rounds| && fresh(progress) && progress.transfer == t
      invariant progress.Value() == StateAt(t, Samples(rounds), n)
      invariant forall i :: 0 <= i < n ==> EndOf(t, rounds, i) == Running
    {
      var r := rounds[n];
      if r.head - t.start >= t.timeout {
        return n, TimedOut;
      }
      if r.exit.Some? {
        if r.exit.value != 0 {
          return n, ChildFailed(r.exit.value);
        }
        return n, if r.at - t.start >= t.timeout then TimedOut else Completed;
      }
      var verdict := progress.Observe(r.at, r.bytes);
      assert Samples(rounds)[n] == Sample(r.at, r.bytes);
      if verdict.Err? {
        return n, Inconsistent;
      }
      if verdict.value == Deadline {
        return n, TimedOut;
      }
      AfterReceives(t, StateAt(t, Samples(rounds), n), Sample(r.at, r.bytes));
      if verdict.value != Continue {
        return n, Stopped(verdict.value, progress.received);
      }
      n := n + 1;
    }
    end := Running;
  }

  /** A clock that does not run backwards, and sizes. */
  ghost predicate Clocked(t: Transfer, rounds: seq<Round>) {
    && (forall i :: 0 <= i < |rounds| ==> t.start <= rounds[i].at && 0 <= rounds[i].bytes)
    && forall i, j :: 0 <= i < j < |rounds| ==> rounds[i].at <= rounds[j].at
  }

  lemma {:induction false} StateOfPrefix(t: Transfer, obs: seq<Sample>, m: nat, n: nat)
    requires n <= m <= |obs|
    ensures StateAt(t, obs[..m], n) == StateAt(t, obs, n)
  {
    hide After;
    if n > 0 {
      StateOfPrefix(t, obs, m, n - 1);
    }
  }

  lemma AfterReceives(t: Transfer, p: Progress, o: Sample)
    requires p.samples != []
    ensures After(t, p, o).received == o.bytes
  {
  }

  ghost predicate AllConsistent(t: Transfer, rounds: seq<Round>, n: nat)
    requires n <= |rounds|
  {
    forall i :: 0 <= i < n ==> Consistent(t, StateAt(t, Samples(rounds), i), rounds[i].bytes)
  }

  lemma ReceivedIs(t: Transfer, obs: seq<Sample>, n: nat)
    requires n <= |obs|
    ensures StateAt(t, obs, n).received == if n == 0 then 0 else obs[n - 1].bytes
  {
    hide After;
    if n > 0 {
      AfterReceives(t, StateAt(t, obs, n - 1), obs[n - 1]);
    }
  }

  /** One accepted size after another: none shrinks nor passes the expected one. */
  lemma SizeGrows(t: Transfer, rounds: seq<Round>, n: nat, i: nat)
    requires i < n <= |rounds| && AllConsistent(t, rounds, n)
    ensures (if i == 0 then 0 else rounds[i - 1].bytes) <= rounds[i].bytes <= t.expected
  {
    hide StateAt;
    ReceivedIs(t, Samples(rounds), i);
  }

  lemma {:induction false} SizesGrow(t: Transfer, rounds: seq<Round>, n: nat, i: nat, j: nat)
    requires i <= j < n <= |rounds| && AllConsistent(t, rounds, n)
    ensures rounds[i].bytes <= rounds[j].bytes
  {
    hide AllConsistent;
    if i < j {
      SizesGrow(t, rounds, n, i, j - 1);
      SizeGrows(t, rounds, n, j);
    }
  }

  lemma AcceptedAreObservations(t: Transfer, rounds: seq<Round>, n: nat)
    requires Clocked(t, rounds) && n <= |rounds| && AllConsistent(t, rounds, n)
    ensures Observations(t, Samples(rounds)[..n])
  {
    hide AllConsistent;
    var obs := Samples(rounds)[..n];
    forall i | 0 <= i < n ensures obs[i] == Sample(rounds[i].at, rounds[i].bytes) && rounds[i].bytes <= t.expected {
      SizeGrows(t, rounds, n, i);
    }
    forall i, j | 0 <= i < j < n ensures obs[i].bytes <= obs[j].bytes {
      SizesGrow(t, rounds, n, i, j);
    }
  }

  lemma RunningIsConsistent(t: Transfer, rounds: seq<Round>, n: nat)
    requires n < |rounds| && (EndOf(t, rounds, n) == Running || EndOf(t, rounds, n).Stopped?)
    ensures Consistent(t, StateAt(t, Samples(rounds), n), rounds[n].bytes)
    ensures EndOf(t, rounds, n) == Running ==> VerdictAt(t, Samples(rounds), n) == Continue
    ensures EndOf(t, rounds, n).Stopped? ==>
              EndOf(t, rounds, n) == Stopped(VerdictAt(t, Samples(rounds), n), rounds[n].bytes)
  {
    hide VerdictAt, StateAt, Consistent;
  }

  /**
   * The driver gives a transfer up as unproductive only after three minutes, and only when
   * every observation of the last minute was slow.
   */
  lemma GivenUpJustly(t: Transfer, rounds: seq<Round>, n: nat, received: int)
    requires Clocked(t, rounds) && n < |rounds|
    requires forall i :: 0 <= i < n ==> EndOf(t, rounds, i) == Running
    requires EndOf(t, rounds, n) == Stopped(UnproductiveRate, received)
    ensures received == rounds[n].bytes && rounds[n].at - t.start >= 180.0
    ensures forall i :: 0 <= i <= n && rounds[i].at > rounds[n].at - 60.0 ==> SlowAt(t, Samples(rounds), i)
  {
    hide EndOf, VerdictOn, JudgedSlow, Consistent, StateAt, Observations, Clocked;
    var all := Samples(rounds);
    var obs := all[..n + 1];
    forall i | 0 <= i <= n
      ensures Consistent(t, StateAt(t, all, i), rounds[i].bytes)
      ensures VerdictAt(t, obs, i) == if i < n then Continue else UnproductiveRate
      ensures SlowAt(t, obs, i) == SlowAt(t, all, i) && obs[i].time == rounds[i].at
    {
      RunningIsConsistent(t, rounds, i);
      StateOfPrefix(t, all, n + 1, i);
    }
    RunningIsConsistent(t, rounds, n);
    AcceptedAreObservations(t, rounds, n + 1);
    UnproductiveIsLate(t, obs, n);
  }
}
