/** The session health tracker: a sliding window over cumulative counters, with
    immediate worsening and delayed improvement. */
module Health {
  import opened Prelude

  datatype Level = Healthy | Good | Watching | Hurt | Critical

  function Rank(l: Level): nat {
    match l
    case Healthy => 0
    case Good => 1
    case Watching => 2
    case Hurt => 3
    case Critical => 4
  }

  const WINDOW_MS: nat := 30000
  const BURST_WINDOW_MS: nat := 5000
  const BURST_THRESHOLD: nat := 5
  const DOWNSHIFT_HOLD_MS: nat := 5000
  const WARN_NOISE_THRESHOLD: nat := 10
  const ERROR_HURT_THRESHOLD: nat := 3
  const MAX_EVENTS_PER_TICK: nat := 100

  function SatSub(a: nat, b: nat): nat {
    if a >= b then a - b else 0
  }

  function Min(a: nat, b: nat): nat {
    if a <= b then a else b
  }

  /** The timestamps that are not older than the cutoff. */
  function Recent(ts: seq<nat>, cutoff: nat): (r: seq<nat>)
    ensures |r| <= |ts|
  {
    if ts == [] then [] else if ts[0] >= cutoff then [ts[0]] + Recent(ts[1..], cutoff) else Recent(ts[1..], cutoff)
  }

  /** The queue once its stale front is popped. */
  function DropStale(ts: seq<nat>, cutoff: nat): (r: seq<nat>)
    ensures |r| <= |ts|
  {
    if ts != [] && ts[0] < cutoff then DropStale(ts[1..], cutoff) else ts
  }

  datatype State = State(seenErrors: nat, seenWarns: nat, errors: seq<nat>, warns: seq<nat>, level: Level,
                         lastWorse: nat)

  const INITIAL: State := State(0, 0, [], [], Healthy, 0)

  /** Events a tick contributes: the growth of the counter, capped; a counter that went back contributes none. */
  function TickEvents(now: nat, before: nat, after: nat): seq<nat> {
    seq(Min(SatSub(after, before), MAX_EVENTS_PER_TICK), _ => now)
  }

  /** The level the windows alone call for. */
  function RawLevel(errors: seq<nat>, warns: seq<nat>, now: nat): Level {
    if |Recent(errors, SatSub(now, BURST_WINDOW_MS))| >= BURST_THRESHOLD then Critical
    else if |errors| >= ERROR_HURT_THRESHOLD then Hurt
    else if |warns| > WARN_NOISE_THRESHOLD then Watching
    else if warns != [] then Good
    else Healthy
  }

  function Updated(s: State, now: nat, relayErrors: nat, relayWarns: nat): State {
    var cutoff := SatSub(now, WINDOW_MS);
    var errors := DropStale(s.errors + TickEvents(now, s.seenErrors, relayErrors), cutoff);
    var warns := DropStale(s.warns + TickEvents(now, s.seenWarns, relayWarns), cutoff);
    var raw := RawLevel(errors, warns, now);
    var worse := Rank(raw) >= Rank(s.level);
    State(relayErrors, relayWarns, errors, warns,
          if worse || SatSub(now, s.lastWorse) >= DOWNSHIFT_HOLD_MS then raw else s.level,
          if worse && raw != Healthy then now else s.lastWorse)
  }

  predicate Sorted(ts: seq<nat>) {
    forall i, j :: 0 <= i < j < |ts| ==> ts[i] <= ts[j]
  }

  // ---- The tracker ----

  class HealthTracker {
    var lastSeenErrors: nat
    var lastSeenWarns: nat
    var errorTimestamps: seq<nat>
    var warnTimestamps: seq<nat>
    var currentLevel: Level
    var lastWorseMs: nat

    ghost function View(): State
      reads this
    {
      State(lastSeenErrors, lastSeenWarns, errorTimestamps, warnTimestamps, currentLevel, lastWorseMs)
    }

    constructor ()
      ensures View() == INITIAL
    {
      lastSeenErrors, lastSeenWarns, errorTimestamps, warnTimestamps := 0, 0, [], [];
      currentLevel, lastWorseMs := Healthy, 0;
    }

    method UpdateAt(now: nat, relayErrors: nat, relayWarns: nat) returns (level: Level)
      modifies this
      ensures View() == Updated(old(View()), now, relayErrors, relayWarns) && level == currentLevel
    {
      var deltaErr, deltaWarn := SatSub(relayErrors, lastSeenErrors), SatSub(relayWarns, lastSeenWarns);
      lastSeenErrors, lastSeenWarns := relayErrors, relayWarns;
      errorTimestamps := PushMany(errorTimestamps, now, Min(deltaErr, MAX_EVENTS_PER_TICK));
      warnTimestamps := PushMany(warnTimestamps, now, Min(deltaWarn, MAX_EVENTS_PER_TICK));
      errorTimestamps := EvictOlderThan(errorTimestamps, SatSub(now, WINDOW_MS));
      warnTimestamps := EvictOlderThan(warnTimestamps, SatSub(now, WINDOW_MS));
      Settle(RawLevel(errorTimestamps, warnTimestamps, now), now);
      level := currentLevel;
    }

    /** A worse or equal level is taken at once, a better one only after the hold. */
    method Settle(raw: Level, now: nat)
      modifies this`currentLevel, this`lastWorseMs
      ensures var worse := Rank(raw) >= Rank(old(currentLevel));
              && currentLevel ==
                   (if worse || SatSub(now, old(lastWorseMs)) >= DOWNSHIFT_HOLD_MS then raw else old(currentLevel))
              && lastWorseMs == (if worse && raw != Healthy then now else old(lastWorseMs))
    {
      if Rank(raw) >= Rank(currentLevel) {
        currentLevel := raw;
        if Rank(raw) > Rank(Healthy) { lastWorseMs := now; }
      } else if SatSub(now, lastWorseMs) >= DOWNSHIFT_HOLD_MS {
        currentLevel := raw;
      }
    }

    /** No uplink: the counters become the new baseline and the window is emptied. */
    method FreezeAt(relayErrors: nat, relayWarns: nat) returns (level: Level)
      modifies this
      ensures View() == INITIAL.(seenErrors := relayErrors, seenWarns := relayWarns) && level == Healthy
    {
      lastSeenErrors, lastSeenWarns := relayErrors, relayWarns;
      errorTimestamps, warnTimestamps, currentLevel, lastWorseMs := [], [], Healthy, 0;
      level := Healthy;
    }
  }

  method PushMany(queue: seq<nat>, now: nat, count: nat) returns (r: seq<nat>)
    ensures r == queue + seq(count, _ => now)
  {
    r := queue;
    for i := 0 to count
      invariant r == queue + seq(i, _ => now)
    {
      r := r + [now];
    }
  }

  method EvictOlderThan(queue: seq<nat>, cutoff: nat) returns (r: seq<nat>)
    ensures r == DropStale(queue, cutoff)
  {
    r := queue;
    while r != [] && r[0] < cutoff
      invariant DropStale(r, cutoff) == DropStale(queue, cutoff)
      decreases |r|
    {
      r := r[1..];
    }
  }

  /** On a sorted queue, popping the stale front leaves exactly the recent timestamps. */
  lemma {:induction false} DropIsRecent(ts: seq<nat>, cutoff: nat)
    requires Sorted(ts)
    ensures DropStale(ts, cutoff) == Recent(ts, cutoff)
  {
    if ts != [] {
      DropIsRecent(ts[1..], cutoff);
      if ts[0] >= cutoff { AllRecent(ts, cutoff); }
    }
  }

  lemma {:induction false} AllRecent(ts: seq<nat>, cutoff: nat)
    requires forall i :: 0 <= i < |ts| ==> ts[i] >= cutoff
    ensures Recent(ts, cutoff) == ts
  {
    if ts != [] { AllRecent(ts[1..], cutoff); }
  }

  lemma {:induction false} RecentSorted(ts: seq<nat>, cutoff: nat, bound: nat)
    requires Sorted(ts) && forall i :: 0 <= i < |ts| ==> ts[i] <= bound
    ensures Sorted(Recent(ts, cutoff)) && forall i :: 0 <= i < |Recent(ts, cutoff)| ==> Recent(ts, cutoff)[i] <= bound
  {
    DropIsRecent(ts, cutoff);
    if ts != [] { RecentSorted(ts[1..], cutoff, bound); }
  }

  // ---- Whole runs ----

  datatype Tick = Tick(at: nat, errors: nat, warns: nat)

  /** Ticks of one session, in time order. */
  predicate InOrder(ticks: seq<Tick>) {
    forall i, j :: 0 <= i < j < |ticks| ==> ticks[i].at <= ticks[j].at
  }

  function Run(ticks: seq<Tick>): State {
    if ticks == [] then INITIAL
    else var last := ticks[|ticks| - 1]; Updated(Run(ticks[..|ticks| - 1]), last.at, last.errors, last.warns)
  }

  /** Every error event of the run, each tick's growth capped. */
  function ErrorHistory(ticks: seq<Tick>): seq<nat> {
    if ticks == [] then []
    else
      var n := |ticks| - 1;
      ErrorHistory(ticks[..n]) + TickEvents(ticks[n].at, if n == 0 then 0 else ticks[n - 1].errors, ticks[n].errors)
  }

  function WarnHistory(ticks: seq<Tick>): seq<nat> {
    if ticks == [] then []
    else
      var n := |ticks| - 1;
      WarnHistory(ticks[..n]) + TickEvents(ticks[n].at, if n == 0 then 0 else ticks[n - 1].warns, ticks[n].warns)
  }

  lemma {:induction false} RecentConcat(a: seq<nat>, b: seq<nat>, cutoff: nat)
    ensures Recent(a + b, cutoff) == Recent(a, cutoff) + Recent(b, cutoff)
    decreases a
  {
    if a == [] {
      assert a + b == b;
    } else {
      RecentConcat(a[1..], b, cutoff);
      HeadTail(a, b);
      Grouping([a[0]], Recent(a[1..], cutoff), Recent(b, cutoff));
    }
  }

  /** The window calls for Healthy exactly without warnings and with fewer than three errors. */
  lemma HealthyExactly(errors: seq<nat>, warns: seq<nat>, now: nat)
    ensures RawLevel(errors, warns, now) == Healthy <==> warns == [] && |errors| < ERROR_HURT_THRESHOLD
  {
  }

  /** The tracker reports Healthy exactly when the window calls for it and the level was
      Healthy before, or five seconds have passed since the last worsening. */
  lemma ReportedHealthyExactly(s: State, now: nat, e: nat, w: nat)
    ensures var s' := Updated(s, now, e, w);
            s'.level == Healthy <==>
            && s'.warns == [] && |s'.errors| < ERROR_HURT_THRESHOLD
            && (s.level == Healthy || SatSub(now, s.lastWorse) >= DOWNSHIFT_HOLD_MS)
  {
    var s' := Updated(s, now, e, w);
    HealthyExactly(s'.errors, s'.warns, now);
  }

  /** So an update that has just counted an error can report Healthy. */
  lemma ErrorGoesUnseen(now: nat)
    ensures var s := Updated(INITIAL, now, 1, 0); s.errors == [now] && s.level == Healthy
  {
    assert TickEvents(now, 0, 1) == [now] && TickEvents(now, 0, 0) == [];
    assert INITIAL.errors + [now] == [now];
    var s := Updated(INITIAL, now, 1, 0);
    HealthyExactly(s.errors, s.warns, now);
  }

  /** Another event never makes the windows look better. */
  lemma MoreIsNotBetter(errors: seq<nat>, warns: seq<nat>, now: nat, t: nat)
    ensures Rank(RawLevel(errors + [t], warns, now)) >= Rank(RawLevel(errors, warns, now))
    ensures Rank(RawLevel(errors, warns + [t], now)) >= Rank(RawLevel(errors, warns, now))
  {
    RecentConcat(errors, [t], SatSub(now, BURST_WINDOW_MS));
  }

  lemma {:induction false} RecentRecent(ts: seq<nat>, c: nat, c': nat)
    requires c <= c'
    ensures Recent(Recent(ts, c), c') == Recent(ts, c')
  {
    if ts != [] {
      RecentRecent(ts[1..], c, c');
      if ts[0] >= c { assert ([ts[0]] + Recent(ts[1..], c))[1..] == Recent(ts[1..], c); }
    }
  }

  lemma RecentKeepsOrder(history: seq<nat>, events: seq<nat>, c: nat)
    requires Sorted(history + events)
    ensures Sorted(Recent(history, c) + events)
  {
    var all := history + events;
    assert forall i, j :: 0 <= i < j < |history| ==> history[i] == all[i] && history[j] == all[j];
    assert forall i :: 0 <= i < |events| ==> events[i] == all[|history| + i];
    if events != [] {
      forall i | 0 <= i < |history| ensures history[i] <= events[0] { assert all[i] <= all[|history|]; }
      RecentSorted(history, c, events[0]);
    } else if history != [] {
      RecentSorted(history, c, history[|history| - 1]);
    }
  }

  /** A window already cut earlier, extended and cut again, is the whole history cut once. */
  lemma WindowStep(history: seq<nat>, events: seq<nat>, c: nat, c': nat)
    requires c <= c' && Sorted(history + events)
    ensures DropStale(Recent(history, c) + events, c') == Recent(history + events, c')
  {
    RecentKeepsOrder(history, events, c);
    DropIsRecent(Recent(history, c) + events, c');
    RecentConcat(Recent(history, c), events, c');
    RecentConcat(history, events, c');
    RecentRecent(history, c, c');
  }

  lemma SortedPlus(ts: seq<nat>, now: nat, before: nat, after: nat)
    requires Sorted(ts) && forall i :: 0 <= i < |ts| ==> ts[i] <= now
    ensures Sorted(ts + TickEvents(now, before, after))
  {
  }

  lemma {:induction false} HistorySorted(ticks: seq<Tick>)
    requires InOrder(ticks)
    ensures Sorted(ErrorHistory(ticks)) && Sorted(WarnHistory(ticks))
  {
    if ticks != [] {
      var n := |ticks| - 1;
      var before, last := ticks[..n], ticks[n];
      HistorySorted(before);
      HistoryBounded(before, last.at);
      SortedPlus(ErrorHistory(before), last.at, if n == 0 then 0 else ticks[n - 1].errors, last.errors);
      SortedPlus(WarnHistory(before), last.at, if n == 0 then 0 else ticks[n - 1].warns, last.warns);
    }
  }

  /** The queues are the last 30 seconds of the given histories, at tick `t`. */
  ghost predicate Windows(s: State, t: Tick, errors: seq<nat>, warns: seq<nat>) {
    && s.errors == Recent(errors, SatSub(t.at, WINDOW_MS)) && s.warns == Recent(warns, SatSub(t.at, WINDOW_MS))
    && s.seenErrors == t.errors && s.seenWarns == t.warns
  }

  /** What a tick does to the queues. */
  ghost predicate Ticked(s: State, s': State, t: Tick) {
    && s'.errors == DropStale(s.errors + TickEvents(t.at, s.seenErrors, t.errors), SatSub(t.at, WINDOW_MS))
    && s'.warns == DropStale(s.warns + TickEvents(t.at, s.seenWarns, t.warns), SatSub(t.at, WINDOW_MS))
    && s'.seenErrors == t.errors && s'.seenWarns == t.warns
  }

  lemma LastTick(ticks: seq<Tick>, n: nat)
    requires ticks != [] && n == |ticks| - 1
    ensures Ticked(Run(ticks[..n]), Run(ticks), ticks[n])
  {
  }

  lemma LastEvents(ticks: seq<Tick>, n: nat)
    requires n == |ticks| - 1 && n > 0
    ensures ErrorHistory(ticks) ==
              ErrorHistory(ticks[..n]) + TickEvents(ticks[n].at, ticks[n - 1].errors, ticks[n].errors)
    ensures WarnHistory(ticks) == WarnHistory(ticks[..n]) + TickEvents(ticks[n].at, ticks[n - 1].warns, ticks[n].warns)
  {
  }

  lemma WindowsFirst(s: State, t: Tick, errors: seq<nat>, warns: seq<nat>)
    requires Ticked(INITIAL, s, t) && Sorted(errors) && Sorted(warns)
    requires errors == TickEvents(t.at, 0, t.errors) && warns == TickEvents(t.at, 0, t.warns)
    ensures Windows(s, t, errors, warns)
  {
    Unit(errors);
    Unit(warns);
    DropIsRecent(errors, SatSub(t.at, WINDOW_MS));
    DropIsRecent(warns, SatSub(t.at, WINDOW_MS));
  }

  lemma WindowsNext(s: State, s': State, prev: Tick, t: Tick, errors: seq<nat>, warns: seq<nat>)
    requires Windows(s, prev, errors, warns) && Ticked(s, s', t) && prev.at <= t.at
    requires Sorted(errors + TickEvents(t.at, prev.errors, t.errors))
             && Sorted(warns + TickEvents(t.at, prev.warns, t.warns))
    ensures Windows(s', t, errors + TickEvents(t.at, prev.errors, t.errors),
              warns + TickEvents(t.at, prev.warns, t.warns))
  {
    var c, c' := SatSub(prev.at, WINDOW_MS), SatSub(t.at, WINDOW_MS);
    WindowStep(errors, TickEvents(t.at, prev.errors, t.errors), c, c');
    WindowStep(warns, TickEvents(t.at, prev.warns, t.warns), c, c');
  }

  /** After every run, the queues are the last 30 seconds of the full event history. */
  lemma {:induction false} WindowIsHistory(ticks: seq<Tick>)
    requires ticks != [] && InOrder(ticks)
    ensures Windows(Run(ticks), ticks[|ticks| - 1], ErrorHistory(ticks), WarnHistory(ticks))
  {
    var n := |ticks| - 1;
    LastTick(ticks, n);
    HistorySorted(ticks);
    if n == 0 {
      FirstEvents(ticks);
      WindowsFirst(Run(ticks), ticks[0], ErrorHistory(ticks), WarnHistory(ticks));
    } else {
      WindowIsHistory(ticks[..n]);
      LastEvents(ticks, n);
      WindowsNext(Run(ticks[..n]), Run(ticks), ticks[n - 1], ticks[n], ErrorHistory(ticks[..n]),
        WarnHistory(ticks[..n]));
    }
  }

  lemma FirstEvents(ticks: seq<Tick>)
    requires |ticks| == 1
    ensures Run(ticks[..0]) == INITIAL
    ensures ErrorHistory(ticks) == TickEvents(ticks[0].at, 0, ticks[0].errors)
    ensures WarnHistory(ticks) == TickEvents(ticks[0].at, 0, ticks[0].warns)
  {
    assert ticks[..0] == [];
    Unit(TickEvents(ticks[0].at, 0, ticks[0].errors));
    Unit(TickEvents(ticks[0].at, 0, ticks[0].warns));
  }

  /** The reported level never understates the window, and improves only once 5 seconds
      have passed since the last tick that justified the worse level. */
  lemma NeverUnderstates(s: State, now: nat, e: nat, w: nat)
    ensures var s' := Updated(s, now, e, w); Rank(s'.level) >= Rank(RawLevel(s'.errors, s'.warns, now))
    ensures var s' := Updated(s, now, e, w);
            Rank(s'.level) < Rank(s.level) ==>
              SatSub(now, s.lastWorse) >= DOWNSHIFT_HOLD_MS && s'.level == RawLevel(s'.errors, s'.warns, now)
  {
  }

  /** Timestamps of a history never lie in the future, and the last worsening neither. */
  lemma {:induction false} HistoryBounded(ticks: seq<Tick>, t: nat)
    requires InOrder(ticks) && (ticks != [] ==> ticks[|ticks| - 1].at <= t)
    ensures forall i :: 0 <= i < |ErrorHistory(ticks)| ==> ErrorHistory(ticks)[i] <= t
    ensures forall i :: 0 <= i < |WarnHistory(ticks)| ==> WarnHistory(ticks)[i] <= t
    ensures Run(ticks).lastWorse <= t
  {
    if ticks != [] { HistoryBounded(ticks[..|ticks| - 1], t); }
  }

  lemma {:induction false} NoneRecent(ts: seq<nat>, cutoff: nat)
    requires forall i :: 0 <= i < |ts| ==> ts[i] < cutoff
    ensures Recent(ts, cutoff) == []
  {
    if ts != [] { NoneRecent(ts[1..], cutoff); }
  }

  /** The counters stand still after tick `q`. */
  predicate QuietAfter(ticks: seq<Tick>, q: nat) {
    && q < |ticks|
    && forall i :: q <= i < |ticks| ==> ticks[i].errors == ticks[q].errors && ticks[i].warns == ticks[q].warns
  }

  lemma TickEffects(s: State, now: nat, e: nat, w: nat)
    ensures var s' := Updated(s, now, e, w);
            && (s'.lastWorse == s.lastWorse || s'.lastWorse == now)
            && (s'.errors == [] && s'.warns == [] ==>
                  && s'.lastWorse == s.lastWorse
                  && (SatSub(now, s.lastWorse) >= DOWNSHIFT_HOLD_MS ==> s'.level == Healthy))
  {
  }

  /** A tick that repeats the counters adds no event. */
  lemma QuietTick(ticks: seq<Tick>, n: nat)
    requires 0 < n < |ticks| && ticks[n].errors == ticks[n - 1].errors && ticks[n].warns == ticks[n - 1].warns
    ensures ErrorHistory(ticks[..n + 1]) == ErrorHistory(ticks[..n])
    ensures WarnHistory(ticks[..n + 1]) == WarnHistory(ticks[..n])
  {
    var upto := ticks[..n + 1];
    assert upto[..n] == ticks[..n] && upto[n] == ticks[n] && upto[n - 1] == ticks[n - 1];
    assert TickEvents(ticks[n].at, ticks[n - 1].errors, ticks[n].errors) == [];
    assert TickEvents(ticks[n].at, ticks[n - 1].warns, ticks[n].warns) == [];
  }

  /** Once the counters stop changing, the histories stop growing. */
  lemma {:induction false} QuietHistory(ticks: seq<Tick>, q: nat, n: nat)
    requires QuietAfter(ticks, q) && q <= n < |ticks|
    ensures ErrorHistory(ticks[..n + 1]) == ErrorHistory(ticks[..q + 1])
    ensures WarnHistory(ticks[..n + 1]) == WarnHistory(ticks[..q + 1])
  {
    if q < n {
      QuietHistory(ticks, q, n - 1);
      QuietTick(ticks, n);
    }
  }

  lemma EmptyWindow(history: seq<nat>, t: nat, now: nat)
    requires (forall i :: 0 <= i < |history| ==> history[i] <= t) && now > t + WINDOW_MS
    ensures Recent(history, SatSub(now, WINDOW_MS)) == []
  {
    NoneRecent(history, SatSub(now, WINDOW_MS));
  }

  /** More than 30 seconds after the counters stopped, the windows are empty. */
  lemma QuietWindow(ticks: seq<Tick>, q: nat, n: nat)
    requires InOrder(ticks) && QuietAfter(ticks, q) && q <= n < |ticks| && ticks[n].at > ticks[q].at + WINDOW_MS
    ensures Run(ticks[..n + 1]).errors == [] && Run(ticks[..n + 1]).warns == []
  {
    QuietHistory(ticks, q, n);
    WindowIsHistory(ticks[..n + 1]);
    HistoryBounded(ticks[..q + 1], ticks[q].at);
    EmptyWindow(ErrorHistory(ticks[..q + 1]), ticks[q].at, ticks[n].at);
    EmptyWindow(WarnHistory(ticks[..q + 1]), ticks[q].at, ticks[n].at);
  }

  lemma RunStep(ticks: seq<Tick>, n: nat)
    requires n < |ticks|
    ensures Run(ticks[..n + 1]) == Updated(Run(ticks[..n]), ticks[n].at, ticks[n].errors, ticks[n].warns)
  {
    assert ticks[..n + 1][..n] == ticks[..n];
  }

  lemma WorseStep(ticks: seq<Tick>, n: nat, bound: nat)
    requires n < |ticks| && Run(ticks[..n]).lastWorse <= bound
    requires ticks[n].at > bound ==> Run(ticks[..n + 1]).errors == [] && Run(ticks[..n + 1]).warns == []
    ensures Run(ticks[..n + 1]).lastWorse <= bound
  {
    RunStep(ticks, n);
    TickEffects(Run(ticks[..n]), ticks[n].at, ticks[n].errors, ticks[n].warns);
  }

  /** No tick later than 30 seconds after the counters stopped counts as a worsening. */
  lemma {:induction false} LastWorsening(ticks: seq<Tick>, q: nat, n: nat)
    requires InOrder(ticks) && QuietAfter(ticks, q) && q <= n < |ticks|
    ensures Run(ticks[..n + 1]).lastWorse <= ticks[q].at + WINDOW_MS
  {
    if n == q {
      HistoryBounded(ticks[..q + 1], ticks[q].at);
    } else {
      LastWorsening(ticks, q, n - 1);
      QuietStep(ticks, q, n);
    }
  }

  lemma QuietStep(ticks: seq<Tick>, q: nat, n: nat)
    requires InOrder(ticks) && QuietAfter(ticks, q) && q < n < |ticks|
    requires Run(ticks[..n]).lastWorse <= ticks[q].at + WINDOW_MS
    ensures Run(ticks[..n + 1]).lastWorse <= ticks[q].at + WINDOW_MS
  {
    if ticks[n].at > ticks[q].at + WINDOW_MS { QuietWindow(ticks, q, n); }
    WorseStep(ticks, n, ticks[q].at + WINDOW_MS);
  }

  lemma CalmStep(ticks: seq<Tick>, n: nat)
    requires n < |ticks| && Run(ticks[..n + 1]).errors == [] && Run(ticks[..n + 1]).warns == []
    requires SatSub(ticks[n].at, Run(ticks[..n]).lastWorse) >= DOWNSHIFT_HOLD_MS
    ensures Run(ticks[..n + 1]).level == Healthy
  {
    RunStep(ticks, n);
    TickEffects(Run(ticks[..n]), ticks[n].at, ticks[n].errors, ticks[n].warns);
  }

  /** Every update at least 35 seconds after the counters stopped changing reports Healthy. */
  lemma QuietIsHealthy(ticks: seq<Tick>, q: nat, n: nat)
    requires InOrder(ticks) && QuietAfter(ticks, q) && q <= n < |ticks|
    requires ticks[n].at >= ticks[q].at + WINDOW_MS + DOWNSHIFT_HOLD_MS
    ensures Run(ticks[..n + 1]).level == Healthy
  {
    QuietWindow(ticks, q, n);
    LastWorsening(ticks, q, n - 1);
    CalmStep(ticks, n);
  }

  /** Tick `m` of the run called for at least the level then reported, and not for Healthy. */
  predicate Worsens(ticks: seq<Tick>, m: nat)
    requires m < |ticks|
  {
    var s, s' := Run(ticks[..m]), Run(ticks[..m + 1]);
    var raw := RawLevel(s'.errors, s'.warns, ticks[m].at);
    raw != Healthy && Rank(raw) >= Rank(s.level)
  }

  lemma WorseningStamped(s: State, now: nat, e: nat, w: nat)
    requires var s' := Updated(s, now, e, w);
             var raw := RawLevel(s'.errors, s'.warns, now);
             raw != Healthy && Rank(raw) >= Rank(s.level)
    ensures Updated(s, now, e, w).lastWorse == now
  {
  }

  lemma WorsensStamps(ticks: seq<Tick>, m: nat)
    requires m < |ticks| && Worsens(ticks, m)
    ensures Run(ticks[..m + 1]).lastWorse == ticks[m].at
  {
    RunStep(ticks, m);
    WorseningStamped(Run(ticks[..m]), ticks[m].at, ticks[m].errors, ticks[m].warns);
  }

  lemma LaterStamp(ticks: seq<Tick>, n: nat)
    requires n < |ticks|
    ensures Run(ticks[..n + 1]).lastWorse == Run(ticks[..n]).lastWorse || Run(ticks[..n + 1]).lastWorse == ticks[n].at
  {
    RunStep(ticks, n);
    TickEffects(Run(ticks[..n]), ticks[n].at, ticks[n].errors, ticks[n].warns);
  }

  lemma {:induction false} StampKept(ticks: seq<Tick>, t: nat, k: nat, n: nat)
    requires k <= n <= |ticks| && t <= Run(ticks[..k]).lastWorse && forall i :: k <= i < n ==> t <= ticks[i].at
    ensures t <= Run(ticks[..n]).lastWorse
    decreases n
  {
    if k < n {
      StampKept(ticks, t, k, n - 1);
      LaterStamp(ticks, n - 1);
    }
  }

  lemma DropIsLate(ticks: seq<Tick>, n: nat)
    requires n < |ticks| && Rank(Run(ticks[..n + 1]).level) < Rank(Run(ticks[..n]).level)
    ensures SatSub(ticks[n].at, Run(ticks[..n]).lastWorse) >= DOWNSHIFT_HOLD_MS
  {
    RunStep(ticks, n);
    NeverUnderstates(Run(ticks[..n]), ticks[n].at, ticks[n].errors, ticks[n].warns);
  }

  /** In every run, the level drops only 5 seconds or more after every tick that called for it or worse. */
  lemma DropsOnlyWhenCalm(ticks: seq<Tick>, m: nat, n: nat)
    requires InOrder(ticks) && m < n < |ticks| && Worsens(ticks, m)
    requires Rank(Run(ticks[..n + 1]).level) < Rank(Run(ticks[..n]).level)
    ensures ticks[n].at >= ticks[m].at + DOWNSHIFT_HOLD_MS
  {
    WorsensStamps(ticks, m);
    StampKept(ticks, ticks[m].at, m + 1, n);
    DropIsLate(ticks, n);
  }

  // ---- The level, counted from the ticks ----

  /** The events of one tick: what the counter grew by, at most 100, and none if it went back. */
  function Growth(before: nat, after: nat): nat {
    if after <= before then 0 else if after - before <= 100 then after - before else 100
  }

  /** The errors of the ticks not more than `span` before `now`. */
  function ErrorsWithin(ticks: seq<Tick>, span: nat, now: nat): nat {
    if ticks == [] then 0
    else
      var n := |ticks| - 1;
      ErrorsWithin(ticks[..n], span, now) +
      if ticks[n].at + span >= now then Growth(if n == 0 then 0 else ticks[n - 1].errors, ticks[n].errors) else 0
  }

  /** The warnings of those ticks. */
  function WarnsWithin(ticks: seq<Tick>, span: nat, now: nat): nat {
    if ticks == [] then 0
    else
      var n := |ticks| - 1;
      WarnsWithin(ticks[..n], span, now) +
      if ticks[n].at + span >= now then Growth(if n == 0 then 0 else ticks[n - 1].warns, ticks[n].warns) else 0
  }

  lemma RecentTick(at: nat, before: nat, after: nat, span: nat, now: nat)
    ensures |Recent(TickEvents(at, before, after), SatSub(now, span))| ==
              if at + span >= now then Growth(before, after) else 0
  {
    var events := TickEvents(at, before, after);
    if at >= SatSub(now, span) { AllRecent(events, SatSub(now, span)); } else { NoneRecent(events, SatSub(now, span)); }
  }

  lemma {:induction false} EventsCounted(ticks: seq<Tick>, span: nat, now: nat)
    ensures |Recent(ErrorHistory(ticks), SatSub(now, span))| == ErrorsWithin(ticks, span, now)
    ensures |Recent(WarnHistory(ticks), SatSub(now, span))| == WarnsWithin(ticks, span, now)
  {
    if ticks != [] {
      var n := |ticks| - 1;
      var errors, warns := if n == 0 then 0 else ticks[n - 1].errors, if n == 0 then 0 else ticks[n - 1].warns;
      EventsCounted(ticks[..n], span, now);
      RecentConcat(ErrorHistory(ticks[..n]), TickEvents(ticks[n].at, errors, ticks[n].errors), SatSub(now, span));
      RecentConcat(WarnHistory(ticks[..n]), TickEvents(ticks[n].at, warns, ticks[n].warns), SatSub(now, span));
      RecentTick(ticks[n].at, errors, ticks[n].errors, span, now);
      RecentTick(ticks[n].at, warns, ticks[n].warns, span, now);
    }
  }

  /** The level that the counts call for: five errors in 5 seconds, three errors, more than
      ten warnings or any warning in 30 seconds. */
  ghost predicate CalledFor(level: Level, burst: nat, errors: nat, warns: nat) {
    match level
    case Critical => burst >= 5
    case Hurt => burst < 5 && errors >= 3
    case Watching => burst < 5 && errors < 3 && warns > 10
    case Good => burst < 5 && errors < 3 && 1 <= warns <= 10
    case Healthy => burst < 5 && errors < 3 && warns == 0
  }

  /** The level that tick `n` of the run calls for. */
  function RawAt(ticks: seq<Tick>, n: nat): Level
    requires n < |ticks|
  {
    var s := Run(ticks[..n + 1]);
    RawLevel(s.errors, s.warns, ticks[n].at)
  }

  /** Every tick calls for one level if and only if the events counted from the ticks so far do. */
  lemma RawExactly(ticks: seq<Tick>, n: nat, level: Level)
    requires InOrder(ticks) && n < |ticks|
    ensures RawAt(ticks, n) == level <==>
            var past, now := ticks[..n + 1], ticks[n].at;
            CalledFor(level, ErrorsWithin(past, 5000, now), ErrorsWithin(past, 30000, now),
              WarnsWithin(past, 30000, now))
  {
    var past, now := ticks[..n + 1], ticks[n].at;
    WindowIsHistory(past);
    EventsCounted(past, 30000, now);
    EventsCounted(past, 5000, now);
    RecentRecent(ErrorHistory(past), SatSub(now, 30000), SatSub(now, 5000));
    RawCounted(Run(past).errors, Run(past).warns, now, level);
  }

  lemma RawCounted(errors: seq<nat>, warns: seq<nat>, now: nat, level: Level)
    ensures RawLevel(errors, warns, now) == level <==>
            CalledFor(level, |Recent(errors, SatSub(now, 5000))|, |errors|, |warns|)
  {
  }

  /** Tick `m` called for at least the level then reported, and not for Healthy. */
  lemma WorsensRaw(ticks: seq<Tick>, m: nat)
    requires m < |ticks|
    ensures Worsens(ticks, m) <==> RawAt(ticks, m) != Healthy && Rank(RawAt(ticks, m)) >= Rank(Run(ticks[..m]).level)
  {
  }

  /** Anything but Healthy goes back to a tick that called for it or worse. */
  lemma {:induction false} LevelHasCause(ticks: seq<Tick>, n: nat) returns (m: nat)
    requires n <= |ticks| && Run(ticks[..n]).level != Healthy
    ensures m < n && Worsens(ticks, m) && Run(ticks[..n]).lastWorse == ticks[m].at
  {
    assert |ticks[..n]| == n;
    if Worsens(ticks, n - 1) {
      WorsensStamps(ticks, n - 1);
      m := n - 1;
    } else {
      RunStep(ticks, n - 1);
      NotWorse(Run(ticks[..n - 1]), ticks[n - 1].at, ticks[n - 1].errors, ticks[n - 1].warns);
      m := LevelHasCause(ticks, n - 1);
    }
  }

  lemma NotWorse(s: State, now: nat, e: nat, w: nat)
    requires var s' := Updated(s, now, e, w);
             var raw := RawLevel(s'.errors, s'.warns, now);
             s'.level != Healthy && !(raw != Healthy && Rank(raw) >= Rank(s.level))
    ensures s.level != Healthy && Updated(s, now, e, w).lastWorse == s.lastWorse
  {
  }

  /** Some tick within the last 5 seconds before tick `n` worsened the level. */
  ghost predicate WorsenedLately(ticks: seq<Tick>, n: nat)
    requires n < |ticks|
  {
    exists m :: 0 <= m < n && Worsens(ticks, m) && ticks[m].at + 5000 > ticks[n].at
  }

  /** The stamp tells whether there was such a tick. */
  lemma StampIsLately(ticks: seq<Tick>, n: nat)
    requires InOrder(ticks) && n < |ticks| && Run(ticks[..n]).level != Healthy
    ensures Run(ticks[..n]).lastWorse + 5000 > ticks[n].at <==> WorsenedLately(ticks, n)
  {
    var m := LevelHasCause(ticks, n);
    var stamp := Run(ticks[..n]).lastWorse;
    assert Worsens(ticks, m) && ticks[m].at == stamp;
    forall i | 0 <= i < n && Worsens(ticks, i) ensures ticks[i].at <= stamp {
      StampAfter(ticks, i, n);
    }
  }

  lemma StampAfter(ticks: seq<Tick>, i: nat, n: nat)
    requires InOrder(ticks) && i < n <= |ticks| && Worsens(ticks, i)
    ensures ticks[i].at <= Run(ticks[..n]).lastWorse
  {
    WorsensStamps(ticks, i);
    StampKept(ticks, ticks[i].at, i + 1, n);
  }

  lemma Settled(s: State, now: nat, e: nat, w: nat)
    ensures var s' := Updated(s, now, e, w);
            var raw := RawLevel(s'.errors, s'.warns, now);
            s'.level == if Rank(raw) < Rank(s.level) && s.lastWorse + 5000 > now then s.level else raw
  {
  }

  /** The level reported, from the ticks alone: the one the tick calls for, unless that is
      better than the last and some tick less than 5 seconds ago worsened it; then the last. */
  lemma LevelExactly(ticks: seq<Tick>, n: nat)
    requires InOrder(ticks) && n < |ticks|
    ensures var last := Run(ticks[..n]).level;
            Run(ticks[..n + 1]).level ==
            if Rank(RawAt(ticks, n)) < Rank(last) && WorsenedLately(ticks, n) then last else RawAt(ticks, n)
  {
    var s := Run(ticks[..n]);
    RunStep(ticks, n);
    Settled(s, ticks[n].at, ticks[n].errors, ticks[n].warns);
    if Rank(RawAt(ticks, n)) < Rank(s.level) { StampIsLately(ticks, n); }
  }
}
