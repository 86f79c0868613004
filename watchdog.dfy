/** `WatchdogInterval` and `Watchdog` (systemd/watchdog_unix.go): read the
    supervisor's watchdog interval from WATCHDOG_USEC and, when it is positive,
    poll the service's health every half interval and send a WATCHDOG=1 pulse
    after each healthy answer. */
module Watchdog {
  import opened Wrappers
  import opened SystemdHost
  import Decimal
  import N = Notify
  import M = NotifyMessages

  const IntervalVariable := "WATCHDOG_USEC"

  /** `time.Microsecond`, in nanoseconds. */
  const Microsecond := 1000

  const TwoTo63: int := 0x8000_0000_0000_0000
  const TwoTo64: int := 0x1_0000_0000_0000_0000

  /** Go's int64 conversion and arithmetic: the value congruent to x modulo 2^64
      that lies in [-2^63, 2^63). */
  function Int64(x: int): (r: int)
    ensures -TwoTo63 <= r < TwoTo63
    ensures (x - r) % TwoTo64 == 0
    ensures -TwoTo63 <= x < TwoTo63 ==> r == x
  {
    var m := x % TwoTo64;
    if m >= TwoTo63 then m - TwoTo64 else m
  }

  /** `time.Duration(u) * time.Microsecond`: both the uint64-to-int64 conversion and
      the multiplication wrap. */
  function Duration(u: nat): (d: int)
    // the two wraps compose into one: the nanosecond count modulo 2^64, read as an int64
    ensures d == Int64(u * Microsecond)
    ensures u * Microsecond < TwoTo63 ==> d == u * Microsecond
  {
    var c := (u - Int64(u)) / TwoTo64;
    assert u - Int64(u) == c * TwoTo64;
    Int64Congruent(Int64(u) * Microsecond, u * Microsecond, -c * Microsecond);
    Int64(Int64(u) * Microsecond)
  }

  /** Values congruent modulo 2^64 are the same int64. */
  lemma Int64Congruent(x: int, y: int, c: int)
    requires x == y + c * TwoTo64
    ensures Int64(x) == Int64(y)
  {
    assert x % TwoTo64 == y % TwoTo64;
  }

  datatype WatchdogError =
    | BadInterval(value: string)        // WATCHDOG_USEC is set but is not a base-10 uint64
    | Unhealthy                         // the health predicate answered false
    | PulseFailed(cause: N.NotifyError) // the WATCHDOG=1 notification failed

  /** `WatchdogInterval()`: the interval in nanoseconds and an error; -1 means not configured. */
  function WatchdogInterval(env: map<string, string>): (r: (int, Option<WatchdogError>))
    // unset: the disabled sentinel, not an error
    ensures IntervalVariable !in env ==> r == (-1, None)
    // set but malformed, out of range or empty: -1 and an error naming the value
    ensures IntervalVariable in env && Decimal.ParseUint(env[IntervalVariable]).None? ==>
      r == (-1, Some(BadInterval(env[IntervalVariable])))
    // an accepted value is its nanosecond count, read as an int64: converted
    // exactly when it fits, wrapped modulo 2^64 when it does not
    ensures IntervalVariable in env && Decimal.ParseUint(env[IntervalVariable]).Some? ==>
      r == (Int64(Decimal.ParseUint(env[IntervalVariable]).value * Microsecond), None)
    ensures IntervalVariable in env ==> var v := env[IntervalVariable];
      Decimal.ParseUint(v).Some? && Decimal.ParseUint(v).value * Microsecond < TwoTo63
      ==> r == (Decimal.ParseUint(v).value * Microsecond, None)
    ensures r.1.Some? ==> r.0 == -1 && r.1.value.BadInterval?
  {
    if IntervalVariable !in env then (-1, None)
    else
      match Decimal.ParseUint(env[IntervalVariable])
      case None => (-1, Some(BadInterval(env[IntervalVariable])))
      case Some(u) => (Duration(u), None)
  }

  /** How a run of the watchdog ends. `Running` is where this model stops
      observing: the health predicate's scripted answers ran out while the
      source would still be looping. */
  datatype Exit = Returned(err: Option<WatchdogError>) | Running

  /** One iteration of the polling loop: sleep half the interval, ask the
      predicate, and after a healthy answer send one pulse. The first component
      is how the loop ends here, or `None` when it goes on. */
  function Step(env: map<string, string>, interval: int, w: World): (r: (Option<Exit>, World))
    requires w.verdicts != []
    // the iteration uses up one answer (what it logs is in `StepIsIteration`)
    ensures r.1.verdicts == w.verdicts[1..]
    // the loop goes on only after a healthy answer and a pulse that did not fail
    ensures r.0.None? ==> w.verdicts[0]
    ensures r.0.Some? ==> r.0 == Some(Returned(Some(Unhealthy))) || (r.0.value.Returned? && r.0.value.err.Some? && r.0.value.err.value.PulseFailed?)
    // an unhealthy answer is the last thing that happens: no pulse follows it
    ensures r.0 == Some(Returned(Some(Unhealthy))) <==> !w.verdicts[0]
    ensures !w.verdicts[0] ==> r.1.log == w.log + [Slept(interval / 2), Asked(false)] && r.1.log[|r.1.log| - 1] == Asked(false)
    // after a healthy answer the pulse decides: a failed pulse ends the loop with
    // Notify's own error wrapped, a successful one lets it go on
    ensures w.verdicts[0] ==>
      var e := N.NotifyEffect(env, M.Pulse, w.(log := w.log + [Slept(interval / 2), Asked(true)], verdicts := w.verdicts[1..])).0;
      r.0 == if e.Some? then Some(Returned(Some(PulseFailed(e.value)))) else None
    // a failed pulse delivers nothing
    ensures r.0.Some? ==> r.1.delivered == w.delivered
  {
    var asked := w.(log := w.log + [Slept(interval / 2), Asked(w.verdicts[0])], verdicts := w.verdicts[1..]);
    if !w.verdicts[0] then (Some(Returned(Some(Unhealthy))), asked)
    else
      var (e, sent) := N.NotifyEffect(env, M.Pulse, asked);
      if e.Some? then (Some(Returned(Some(PulseFailed(e.value)))), sent) else (None, sent)
  }

  /** The loop goes on only after a complete healthy iteration: the pulse
      session opened, wrote and closed, and WATCHDOG=1 was delivered when the
      socket is set. */
  lemma GoesOnAfterFullBeat(env: map<string, string>, interval: int, w: World)
    requires w.verdicts != []
    ensures var r := Step(env, interval, w);
      r.0.None? ==> r.1.log == w.log + Beat(env, interval) && r.1.delivered == w.delivered + BeatDelivery(env)
  {
    var asked := w.(log := w.log + [Slept(interval / 2), Asked(true)], verdicts := w.verdicts[1..]);
    var e := N.NotifyEffect(env, M.Pulse, asked).0;
    assert e.None? && N.SocketAddress(env).Some? ==> Next(asked.dials).Ok?;
  }

  /** Whatever the transport does, one step logs exactly one iteration after
      what was logged before: the sleep, the question and at most one pulse. */
  lemma StepIsIteration(env: map<string, string>, interval: int, w: World)
    requires w.verdicts != []
    ensures var r := Step(env, interval, w);
      && |w.log| <= |r.1.log| && r.1.log[..|w.log|] == w.log
      && Iteration(r.1.log[|w.log|..], interval / 2, w.verdicts[0])
  {
    var asked := w.(log := w.log + [Slept(interval / 2), Asked(w.verdicts[0])], verdicts := w.verdicts[1..]);
    if w.verdicts[0] {
      var sent := N.NotifyEffect(env, M.Pulse, asked).1;
      assert sent.log == w.log + [Slept(interval / 2), Asked(true)] + sent.log[|asked.log|..];
      assert sent.log[|w.log|..] == [Slept(interval / 2), Asked(true)] + sent.log[|asked.log|..];
    } else {
      assert asked.log[|w.log|..] == [Slept(interval / 2), Asked(false)];
    }
  }

  /** The polling loop, from world `w`, with a positive interval. */
  function Pulses(env: map<string, string>, interval: int, w: World): (r: (Exit, World))
    decreases |w.verdicts|
    // the loop never returns nil: it ends unhealthy, on a failed pulse, or is still running
    ensures r.0 == Running || r.0 == Returned(Some(Unhealthy)) ||
      (r.0.Returned? && r.0.err.Some? && r.0.err.value.PulseFailed?)
    // still running only when every answer so far was healthy (and, as
    // `RunningMeansEveryPulseSucceeded` shows, every pulse succeeded)
    ensures r.0 == Running ==> r.1.verdicts == [] && forall i :: 0 <= i < |w.verdicts| ==> w.verdicts[i]
  {
    if w.verdicts == [] then (Running, w)
    else
      var (x, next) := Step(env, interval, w);
      if x.Some? then (x.value, next)
      else
        assert forall i :: 0 <= i < |next.verdicts| ==> next.verdicts[i] == w.verdicts[i + 1];
        Pulses(env, interval, next)
  }

  /** The loop is still running only if every pulse succeeded: each answer got a
      complete iteration (sleep, healthy answer, pulse session) and its WATCHDOG=1
      delivery, so no failed pulse is ever followed by another iteration. */
  lemma {:induction false} RunningMeansEveryPulseSucceeded(env: map<string, string>, interval: int, w: World)
    ensures var r := Pulses(env, interval, w);
      r.0 == Running ==>
        && r.1.log == w.log + Repeat(|w.verdicts|, Beat(env, interval))
        && r.1.delivered == w.delivered + Repeat(|w.verdicts|, BeatDelivery(env))
    decreases |w.verdicts|
  {
    if w.verdicts != [] {
      var (x, next) := Step(env, interval, w);
      if x.None? {
        GoesOnAfterFullBeat(env, interval, w);
        RunningMeansEveryPulseSucceeded(env, interval, next);
        RepeatStep(w.log, Beat(env, interval), |w.verdicts|);
        RepeatStep(w.delivered, BeatDelivery(env), |w.verdicts|);
      }
    }
  }

  /** An unhealthy answer is the last thing the loop does: no sleep, question or
      pulse follows it. */
  lemma {:induction false} UnhealthyIsLast(env: map<string, string>, interval: int, w: World)
    ensures var r := Pulses(env, interval, w);
      r.0 == Returned(Some(Unhealthy)) ==> |r.1.log| > 0 && r.1.log[|r.1.log| - 1] == Asked(false)
    decreases |w.verdicts|
  {
    if w.verdicts != [] {
      var (x, next) := Step(env, interval, w);
      if x.None? {
        assert Pulses(env, interval, w) == Pulses(env, interval, next);
        UnhealthyIsLast(env, interval, next);
      } else {
        assert Pulses(env, interval, w) == (x.value, next);
        assert x.value == Returned(Some(Unhealthy)) ==> !w.verdicts[0];
      }
    }
  }

  /** What `Watchdog(healthy)` does to the world `w`. */
  function WatchdogEffect(env: map<string, string>, w: World): (r: (Exit, World))
    // a configuration error is returned unchanged, with no effect at all
    ensures WatchdogInterval(env).1.Some? ==> r == (Returned(WatchdogInterval(env).1), w)
    // a disabled or non-positive interval returns nil at once: no sleep, no question, no datagram
    ensures WatchdogInterval(env).1.None? && WatchdogInterval(env).0 <= 0 ==> r == (Returned(None), w)
    // and that is the only way the watchdog ever returns nil
    ensures r.0 == Returned(None) <==> WatchdogInterval(env).1.None? && WatchdogInterval(env).0 <= 0
  {
    var (interval, err) := WatchdogInterval(env);
    if err.Some? then (Returned(err), w)
    else if interval <= 0 then (Returned(None), w)
    else Pulses(env, interval, w)
  }

  /** k copies of s, one after another. */
  function Repeat<T>(k: nat, s: seq<T>): seq<T> {
    if k == 0 then [] else s + Repeat(k - 1, s)
  }

  lemma RepeatOnce<T>(a: seq<T>, s: seq<T>, k: nat, t: seq<T>)
    requires k > 0
    ensures a + Repeat(k, s) + t == (a + s) + Repeat(k - 1, s) + t
  {
  }

  lemma RepeatStep<T>(a: seq<T>, s: seq<T>, k: nat)
    requires k > 0
    ensures a + Repeat(k, s) == (a + s) + Repeat(k - 1, s)
  {
  }

  lemma AppendPair<T>(a: seq<T>, x: T, y: T)
    ensures a + [x] + [y] == a + [x, y]
  {
  }

  /** The effects of one healthy iteration when the transport does not fail. */
  function Beat(env: map<string, string>, interval: int): seq<Event> {
    [Slept(interval / 2), Asked(true)] +
    match N.SocketAddress(env)
    case None => []
    case Some(addr) => N.Session(addr, M.Pulse, true)
  }

  /** What one healthy iteration delivers when the transport does not fail. */
  function BeatDelivery(env: map<string, string>): seq<(string, string)> {
    match N.SocketAddress(env)
    case None => []
    case Some(addr) => [(addr, M.Pulse)]
  }

  /** One healthy answer while the next dial and write succeed: one sleep, the
      question, one delivered pulse, and the loop goes on from `next`, with one
      scripted dial and write used up when the socket is set. */
  lemma HealthyStep(env: map<string, string>, interval: int, w: World) returns (next: World)
    requires w.verdicts != [] && w.verdicts[0]
    requires Next(w.dials).Ok? && Next(w.writes).Ok?
    ensures Pulses(env, interval, w) == Pulses(env, interval, next)
    ensures next.log == w.log + Beat(env, interval)
    ensures next.delivered == w.delivered + BeatDelivery(env)
    ensures next.verdicts == w.verdicts[1..]
    ensures N.SocketAddress(env).Some? ==> next.dials == Rest(w.dials) && next.writes == Rest(w.writes)
    ensures N.SocketAddress(env).None? ==> next.dials == w.dials && next.writes == w.writes
  {
    var asked := w.(log := w.log + [Slept(interval / 2), Asked(true)], verdicts := w.verdicts[1..]);
    next := N.NotifyEffect(env, M.Pulse, asked).1;
  }

  /** With a transport that does not fail, a service that answers healthy k times
      and then unhealthy gets exactly k iterations of sleep, question and pulse,
      then one sleep and the unhealthy answer, and the watchdog returns the
      unhealthy error: exactly k pulses are delivered and none after the answer. */
  lemma {:induction false} HealthyThenUnhealthy(env: map<string, string>, interval: int, w: World, k: nat)
    requires k < |w.verdicts| && !w.verdicts[k]
    requires forall i :: 0 <= i < k ==> w.verdicts[i]
    requires Reliable(w.dials) && Reliable(w.writes)
    ensures Pulses(env, interval, w).0 == Returned(Some(Unhealthy))
    ensures Pulses(env, interval, w).1.log ==
      w.log + Repeat(k, Beat(env, interval)) + [Slept(interval / 2), Asked(false)]
    ensures Pulses(env, interval, w).1.delivered == w.delivered + Repeat(k, BeatDelivery(env))
    decreases k
  {
    var beat, tail := Beat(env, interval), [Slept(interval / 2), Asked(false)];
    if k == 0 {
      UnhealthyStep(env, interval, w);
    } else {
      ReliableRest(w.dials);
      ReliableRest(w.writes);
      var next := HealthyStep(env, interval, w);
      assert forall i :: 0 <= i < k - 1 ==> next.verdicts[i] == w.verdicts[i + 1];
      HealthyThenUnhealthy(env, interval, next, k - 1);
      assert Pulses(env, interval, next) == Pulses(env, interval, w);
      RepeatOnce(w.log, beat, k, tail);
      RepeatStep(w.delivered, BeatDelivery(env), k);
    }
  }

  /** With the socket set, a service that answers healthy k + 1 times while the
      first k dials and writes succeed and the next pulse fails (its dial, or
      else its write) gets k full iterations, then the sleep, the question and
      the failed pulse session. The watchdog then returns PulseFailed, wrapping
      Notify's error with its transport cause, and nothing happens after it. */
  lemma {:induction false} HealthyThenPulseFails(env: map<string, string>, interval: int, w: World, k: nat)
    requires N.SocketAddress(env).Some?
    requires k < |w.verdicts| && forall i :: 0 <= i <= k ==> w.verdicts[i]
    requires k < |w.dials| && forall i :: 0 <= i < k ==> w.dials[i] == Ok
    requires k <= |w.writes| && forall i :: 0 <= i < k ==> w.writes[i] == Ok
    requires w.dials[k].Failed? || (k < |w.writes| && w.writes[k].Failed?)
    ensures var r := Pulses(env, interval, w);
      && r.0 == Returned(Some(PulseFailed(
           if w.dials[k].Failed? then N.OpenFailed(w.dials[k].cause) else N.WriteFailed(w.writes[k].cause))))
      && r.1.log == w.log + Repeat(k, Beat(env, interval)) +
           ([Slept(interval / 2), Asked(true)] + N.Session(N.SocketAddress(env).value, M.Pulse, w.dials[k].Ok?))
      && r.1.delivered == w.delivered + Repeat(k, BeatDelivery(env))
    decreases k
  {
    HealthyBeats(env, interval, w, k);
    var after := Skip(env, interval, w, k);
    FailedPulseStep(env, interval, after);
    assert after.dials[0] == w.dials[k];
    assert w.dials[k].Ok? ==> after.writes[0] == w.writes[k];
  }

  /** The world after k healthy iterations whose pulses all succeeded on an
      enabled socket: k beats logged and delivered, and k answers, dials and
      writes used up. */
  function Skip(env: map<string, string>, interval: int, w: World, k: nat): World
    requires k <= |w.verdicts| && k <= |w.dials| && k <= |w.writes|
  {
    w.(log := w.log + Repeat(k, Beat(env, interval)),
       delivered := w.delivered + Repeat(k, BeatDelivery(env)),
       dials := w.dials[k..], writes := w.writes[k..], verdicts := w.verdicts[k..])
  }

  lemma SkipOnce(env: map<string, string>, interval: int, w: World, k: nat)
    requires 0 < k <= |w.verdicts| && k <= |w.dials| && k <= |w.writes|
    ensures Skip(env, interval, w, k) == Skip(env, interval, Skip(env, interval, w, 1), k - 1)
  {
    var one := Skip(env, interval, w, 1);
    RepeatOne(Beat(env, interval));
    RepeatOne(BeatDelivery(env));
    RepeatStep(w.log, Beat(env, interval), k);
    RepeatStep(w.delivered, BeatDelivery(env), k);
    assert w.dials[1..][k - 1..] == w.dials[k..];
    assert w.writes[1..][k - 1..] == w.writes[k..];
    assert w.verdicts[1..][k - 1..] == w.verdicts[k..];
  }

  /** k healthy answers while the first k dials and writes succeed (with the
      socket set) are k full iterations: the loop goes on from `Skip(w, k)`. */
  lemma {:induction false} HealthyBeats(env: map<string, string>, interval: int, w: World, k: nat)
    requires N.SocketAddress(env).Some?
    requires k <= |w.verdicts| && forall i :: 0 <= i < k ==> w.verdicts[i]
    requires k <= |w.dials| && forall i :: 0 <= i < k ==> w.dials[i] == Ok
    requires k <= |w.writes| && forall i :: 0 <= i < k ==> w.writes[i] == Ok
    ensures Pulses(env, interval, w) == Pulses(env, interval, Skip(env, interval, w, k))
    decreases k
  {
    if k == 0 {
      assert w.log + Repeat(0, Beat(env, interval)) == w.log;
      assert w.delivered + Repeat(0, BeatDelivery(env)) == w.delivered;
      assert Skip(env, interval, w, 0) == w;
    } else {
      var next := HealthyStep(env, interval, w);
      HealthyPrefixShifts(w, next, k);
      SkipAfterBeat(env, interval, w, next, k);
      HealthyBeats(env, interval, next, k - 1);
    }
  }

  /** After one healthy beat, skipping the other k - 1 beats lands where
      skipping all k beats does. */
  lemma SkipAfterBeat(env: map<string, string>, interval: int, w: World, next: World, k: nat)
    requires 0 < k <= |w.verdicts| && k <= |w.dials| && k <= |w.writes|
    requires next.log == w.log + Beat(env, interval) && next.delivered == w.delivered + BeatDelivery(env)
    requires next.verdicts == w.verdicts[1..] && next.dials == Rest(w.dials) && next.writes == Rest(w.writes)
    ensures k - 1 <= |next.verdicts| && k - 1 <= |next.dials| && k - 1 <= |next.writes|
    ensures Skip(env, interval, next, k - 1) == Skip(env, interval, w, k)
  {
    RepeatOne(Beat(env, interval));
    RepeatOne(BeatDelivery(env));
    assert next == Skip(env, interval, w, 1);
    SkipOnce(env, interval, w, k);
  }

  /** After one healthy beat, the remaining k - 1 answers are healthy and the
      remaining k - 1 dials and writes succeed. */
  lemma HealthyPrefixShifts(w: World, next: World, k: nat)
    requires 0 < k <= |w.verdicts| && forall i :: 0 <= i < k ==> w.verdicts[i]
    requires k <= |w.dials| && forall i :: 0 <= i < k ==> w.dials[i] == Ok
    requires k <= |w.writes| && forall i :: 0 <= i < k ==> w.writes[i] == Ok
    requires next.verdicts == w.verdicts[1..] && next.dials == Rest(w.dials) && next.writes == Rest(w.writes)
    ensures k - 1 <= |next.verdicts| && forall i :: 0 <= i < k - 1 ==> next.verdicts[i]
    ensures k - 1 <= |next.dials| && forall i :: 0 <= i < k - 1 ==> next.dials[i] == Ok
    ensures k - 1 <= |next.writes| && forall i :: 0 <= i < k - 1 ==> next.writes[i] == Ok
  {
    assert forall i :: 0 <= i < k - 1 ==> next.verdicts[i] == w.verdicts[i + 1];
    assert forall i :: 0 <= i < k - 1 ==> next.dials[i] == w.dials[i + 1];
    assert forall i :: 0 <= i < k - 1 ==> next.writes[i] == w.writes[i + 1];
  }

  /** A healthy answer followed by a failed pulse ends the loop at once with
      PulseFailed wrapping Notify's error. */
  lemma FailedPulseStep(env: map<string, string>, interval: int, w: World)
    requires N.SocketAddress(env).Some?
    requires w.verdicts != [] && w.verdicts[0] && w.dials != []
    requires w.dials[0].Failed? || (w.writes != [] && w.writes[0].Failed?)
    ensures var r := Pulses(env, interval, w);
      && r.0 == Returned(Some(PulseFailed(
           if w.dials[0].Failed? then N.OpenFailed(w.dials[0].cause) else N.WriteFailed(w.writes[0].cause))))
      && r.1.log == w.log + ([Slept(interval / 2), Asked(true)] + N.Session(N.SocketAddress(env).value, M.Pulse, w.dials[0].Ok?))
      && r.1.delivered == w.delivered
  {
    var asked := w.(log := w.log + [Slept(interval / 2), Asked(true)], verdicts := w.verdicts[1..]);
    var (e, sent) := N.NotifyEffect(env, M.Pulse, asked);
    assert Next(w.dials) == w.dials[0];
    assert w.dials[0].Ok? ==> Next(w.writes) == w.writes[0];
    assert Step(env, interval, w).0 == Some(Returned(Some(PulseFailed(e.value))));
  }

  /** An unhealthy answer ends the loop right after the question. */
  lemma UnhealthyStep(env: map<string, string>, interval: int, w: World)
    requires w.verdicts != [] && !w.verdicts[0]
    ensures Pulses(env, interval, w).0 == Returned(Some(Unhealthy))
    ensures Pulses(env, interval, w).1.log == w.log + [Slept(interval / 2), Asked(false)]
    ensures Pulses(env, interval, w).1.delivered == w.delivered
  {
  }

  /** One iteration of the loop, as the log shows it: one sleep of half the
      interval, then one question, then, only after a healthy answer, at most one
      pulse: a dial and, when it succeeded, the WATCHDOG=1 write and the close. */
  predicate Iteration(block: seq<Event>, half: int, healthy: bool) {
    && |block| >= 2 && block[0] == Slept(half) && block[1] == Asked(healthy)
    && var pulse := block[2..];
    || pulse == []
    || (healthy && pulse[0].Opened? && (pulse == [pulse[0]] || pulse == [pulse[0], Wrote(M.Pulse), Closed]))
  }

  /** The blocks of a log, joined. */
  function Flatten(blocks: seq<seq<Event>>): seq<Event> {
    if blocks == [] then [] else blocks[0] + Flatten(blocks[1..])
  }

  lemma FlattenCons(a: seq<Event>, block: seq<Event>, rest: seq<seq<Event>>)
    ensures (a + block) + Flatten(rest) == a + Flatten([block] + rest)
  {
    assert ([block] + rest)[1..] == rest;
  }

  lemma IterationsCons(block: seq<Event>, rest: seq<seq<Event>>, half: int, verdicts: seq<bool>)
    requires |rest| < |verdicts| && Iteration(block, half, verdicts[0])
    requires forall i :: 0 <= i < |rest| ==> Iteration(rest[i], half, verdicts[1..][i])
    ensures forall i :: 0 <= i < |[block] + rest| ==> Iteration(([block] + rest)[i], half, verdicts[i])
  {
    forall i | 0 <= i < |[block] + rest|
      ensures Iteration(([block] + rest)[i], half, verdicts[i])
    {
      if i > 0 {
        assert ([block] + rest)[i] == rest[i - 1] && verdicts[i] == verdicts[1..][i - 1];
      }
    }
  }

  /** Every run of the loop, whatever the transport does, is a sequence of
      iterations, the i-th one driven by the i-th answer of the predicate. */
  lemma {:induction false} RunShape(env: map<string, string>, interval: int, w: World)
    returns (blocks: seq<seq<Event>>)
    ensures Pulses(env, interval, w).1.log == w.log + Flatten(blocks)
    ensures |blocks| == |w.verdicts| - |Pulses(env, interval, w).1.verdicts| <= |w.verdicts|
    ensures forall i :: 0 <= i < |blocks| ==> Iteration(blocks[i], interval / 2, w.verdicts[i])
    decreases |w.verdicts|
  {
    if w.verdicts == [] {
      blocks := [];
    } else {
      var (x, next) := Step(env, interval, w);
      StepIsIteration(env, interval, w);
      var block := next.log[|w.log|..];
      assert next.log == w.log + block;
      var rest: seq<seq<Event>> := [];
      if x.None? {
        rest := RunShape(env, interval, next);
      }
      blocks := [block] + rest;
      FlattenCons(w.log, block, rest);
      IterationsCons(block, rest, interval / 2, w.verdicts);
    }
  }

  /** `Watchdog(healthy)`; the predicate's answers are the host's verdicts. */
  method Watchdog(env: map<string, string>, host: Host) returns (exit: Exit)
    modifies host
    ensures (exit, host.State()) == WatchdogEffect(env, old(host.State()))
  {
    var interval, err := WatchdogInterval(env).0, WatchdogInterval(env).1;
    if err.Some? {
      return Returned(err);
    }
    if interval <= 0 {
      return Returned(None);
    }
    while true
      invariant Pulses(env, interval, host.State()) == Pulses(env, interval, old(host.State()))
      decreases |host.verdicts|
    {
      if host.verdicts == [] {
        return Running;
      }
      ghost var before := host.State();
      host.Sleep(interval / 2);
      var healthy := host.Ask();
      AppendPair(before.log, Slept(interval / 2), Asked(healthy));
      if !healthy {
        return Returned(Some(Unhealthy));
      }
      var e := M.NotifyWatchdog(env, host);
      if e.Some? {
        return Returned(Some(PulseFailed(e.value)));
      }
    }
  }

  /** k zeros appended to a digit string multiply its value by ten k times. */
  lemma {:induction false} ParsesWithZeros(s: string, k: nat)
    requires Decimal.AllDigits(s)
    ensures Decimal.AllDigits(s + Decimal.Zeros(k))
    ensures Decimal.ValueOf(s + Decimal.Zeros(k)) == Decimal.ValueOf(s) * Pow10(k)
    decreases k
  {
    if k == 0 {
      assert s + Decimal.Zeros(0) == s;
    } else {
      ParsesWithZeros(s, k - 1);
      Decimal.ValueOfSnoc(s + Decimal.Zeros(k - 1), '0');
      assert s + Decimal.Zeros(k) == (s + Decimal.Zeros(k - 1)) + ['0'];
      calc {
        Decimal.ValueOf(s + Decimal.Zeros(k));
        Decimal.ValueOf(s + Decimal.Zeros(k - 1)) * 10;
        (Decimal.ValueOf(s) * Pow10(k - 1)) * 10;
        { MulAssoc(Decimal.ValueOf(s), Pow10(k - 1), 10); }
        Decimal.ValueOf(s) * Pow10(k);
      }
    }
  }

  lemma MulAssoc(a: int, b: int, c: int)
    ensures (a * b) * c == a * (c * b)
  {
  }

  function Pow10(k: nat): nat {
    if k == 0 then 1 else 10 * Pow10(k - 1)
  }

  /** WATCHDOG_USEC=30000000 is thirty seconds, in nanoseconds, without error. */
  lemma ThirtySeconds()
    ensures WatchdogInterval(map[IntervalVariable := "30000000"]) == (30_000_000_000, None)
  {
    assert Decimal.ParseUint("30000000") == Some(30_000_000) by {
      ParsesWithZeros("3", 7);
      assert "3" + Decimal.Zeros(7) == "30000000";
    }
  }

  /** A value that is not a base-10 unsigned integer is an error naming the value,
      with the -1 sentinel: a word, a sign, the empty string. */
  lemma RejectedIntervals()
    ensures WatchdogInterval(map[IntervalVariable := "invalid"]) == (-1, Some(BadInterval("invalid")))
    ensures WatchdogInterval(map[IntervalVariable := "-1"]) == (-1, Some(BadInterval("-1")))
    ensures WatchdogInterval(map[IntervalVariable := ""]) == (-1, Some(BadInterval("")))
  {
    assert !Decimal.IsDigit("invalid"[0]) && !Decimal.IsDigit("-1"[0]);
  }

  /** A uint64 whose nanosecond count lies in [2^63, 2^64) wraps to a negative
      duration, and the watchdog then returns nil at once instead of polling. */
  lemma LargeIntervalsWrap(u: nat, w: World)
    requires TwoTo63 <= u * Microsecond < TwoTo64
    ensures var env := map[IntervalVariable := Decimal.FormatInt(u)];
      && WatchdogInterval(env) == (u * Microsecond - TwoTo64, None)
      && WatchdogEffect(env, w) == (Returned(None), w)
  {
    Decimal.FormatThenParse(u);
  }

  /** A uint64 whose nanosecond count lies in (2^64, 2^64 + 2^63) wraps back to a
      small positive duration, and the watchdog polls with that interval. */
  lemma HugeIntervalsWrapPositive(u: nat, w: World)
    requires u <= Decimal.MaxUint64 && TwoTo64 < u * Microsecond < TwoTo64 + TwoTo63
    ensures var env := map[IntervalVariable := Decimal.FormatInt(u)];
      && WatchdogInterval(env) == (u * Microsecond - TwoTo64, None)
      && WatchdogEffect(env, w) == Pulses(env, u * Microsecond - TwoTo64, w)
  {
    var env := map[IntervalVariable := Decimal.FormatInt(u)];
    var x := u * Microsecond;
    Decimal.FormatThenParse(u);
    assert Decimal.ParseUint(env[IntervalVariable]) == Some(u);
    assert x % TwoTo64 == x - TwoTo64;
    assert Int64(x) == x - TwoTo64;
    Polls(env, x - TwoTo64, w);
  }

  /** WATCHDOG_USEC=18446744073709552 is about 2^64 nanoseconds and wraps to an
      interval of 384 ns, so the watchdog polls every 192 ns. */
  lemma HugeIntervalExample(w: World)
    ensures var env := map[IntervalVariable := Decimal.FormatInt(18446744073709552)];
      && WatchdogInterval(env) == (384, None)
      && WatchdogEffect(env, w) == Pulses(env, 384, w)
  {
    HugeIntervalsWrapPositive(18446744073709552, w);
  }

  /** With the socket set, one healthy iteration on a reliable transport is a
      sleep, the question, and one dial, write and close delivering WATCHDOG=1. */
  lemma EnabledBeat(env: map<string, string>, interval: int, addr: string)
    requires N.SocketAddress(env) == Some(addr)
    ensures Beat(env, interval) == [Slept(interval / 2), Asked(true), Opened(addr), Wrote(M.Pulse), Closed]
    ensures BeatDelivery(env) == [(addr, M.Pulse)]
  {
  }

  lemma RepeatOne<T>(s: seq<T>)
    ensures Repeat(1, s) == s
  {
    assert Repeat(1, s) == s + [];
  }

  /** A positive interval starts the polling loop. */
  lemma Polls(env: map<string, string>, interval: int, w: World)
    requires WatchdogInterval(env) == (interval, None) && interval > 0
    ensures WatchdogEffect(env, w) == Pulses(env, interval, w)
  {
  }

  /** The environment of the two-second scenario below. */
  function TwoSecondEnv(socket: string): map<string, string> {
    map[IntervalVariable := "2000000", N.SocketVariable := socket]
  }

  /** WATCHDOG_USEC=2000000 is two seconds, and a non-empty NOTIFY_SOCKET is used as is. */
  lemma TwoSecondConfig(socket: string)
    requires socket != []
    ensures WatchdogInterval(TwoSecondEnv(socket)) == (2_000_000_000, None)
    ensures N.SocketAddress(TwoSecondEnv(socket)) == Some(socket)
  {
    assert Decimal.ParseUint("2000000") == Some(2_000_000) by {
      ParsesWithZeros("2", 6);
      assert "2" + Decimal.Zeros(6) == "2000000";
    }
  }

  /** The supervisor asks for a pulse every two seconds and the socket is set
      (as `TwoSecondConfig` shows for WATCHDOG_USEC=2000000): a healthy answer is
      followed by one WATCHDOG=1 datagram one second later, and the next,
      unhealthy, answer ends the watchdog with an error and no datagram. */
  lemma TwoSecondScenario(env: map<string, string>, socket: string, w: World)
    requires WatchdogInterval(env) == (2_000_000_000, None) && N.SocketAddress(env) == Some(socket)
    requires |w.verdicts| == 2 && w.verdicts[0] && !w.verdicts[1]
    requires Reliable(w.dials) && Reliable(w.writes)
    ensures var r := WatchdogEffect(env, w);
      && r.0 == Returned(Some(Unhealthy))
      && r.1.delivered == w.delivered + [(socket, M.Pulse)]
      && r.1.log == w.log + [Slept(1_000_000_000), Asked(true), Opened(socket), Wrote(M.Pulse), Closed]
                          + [Slept(1_000_000_000), Asked(false)]
  {
    Polls(env, 2_000_000_000, w);
    HealthyThenUnhealthy(env, 2_000_000_000, w, 1);
    EnabledBeat(env, 2_000_000_000, socket);
    RepeatOne(Beat(env, 2_000_000_000));
    RepeatOne(BeatDelivery(env));
  }
}
