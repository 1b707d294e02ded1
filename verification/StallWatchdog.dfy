/** The watchdog that cancels a watch stuck in one licence state (`internal/cli/tfx_wait.go`,
    stallWatchdog and stalledWaitDiagnosis). It runs beside the watch loop: a tick reads the
    fields under the lock, releases it, and acts later under a second lock, so anything can
    happen in between. */
module StallWatchdog {
  import opened Wrappers

  /** What is fixed when the watchdog is made: whether it watches a licence, the stall window,
      and which descriptions are registering states. */
  datatype Config = Config(isLicense: bool, window: nat, registering: string -> bool)

  /** A quarter of the window, or one second when that is nothing (times in nanoseconds). */
  function TickInterval(window: nat): (iv: nat)
    ensures iv > 0
  {
    if window / 4 == 0 then 1_000_000_000 else window / 4
  }

  /** stalledWaitDiagnosis, without its wording. */
  predicate Stuck(cfg: Config, desc: string, unchangedFor: int) {
    cfg.isLicense && cfg.registering(desc) && unchangedFor >= cfg.window
  }

  // ── The state, as a value ─────────────────────────────────────────────────

  /** `since` is None while nothing was observed (Go's zero time); `armed` says the timer is counting
      down, `live` that it has not been stopped for good. */
  datatype Dog = Dog(last: string, since: Option<nat>, tripped: bool, cancelled: bool, live: bool, armed: bool)

  /** What a tick took away from its first lock. */
  datatype Pair = Pair(desc: string, since: Option<nat>)

  const NEW_DOG := Dog("", None, false, false, true, true)

  function AfterObserved(d: Dog, desc: string, now: nat): Dog {
    if desc != d.last then d.(last := desc, since := Some(now)) else d
  }

  function TickPair(d: Dog): Pair {
    Pair(d.last, d.since)
  }

  predicate Trips(cfg: Config, held: Pair, now: nat) {
    held.desc != "" && held.since.Some? && Stuck(cfg, held.desc, now - held.since.value)
  }

  /** The second lock of a tick: trip, or set the timer again unless it was stopped for good. */
  function AfterAct(cfg: Config, d: Dog, held: Pair, now: nat): Dog {
    if Trips(cfg, held, now) then d.(tripped := true)
    else if d.live then d.(armed := true)
    else d
  }

  /** A tick that tripped then cancels the watch, with no lock held. */
  function AfterCancel(d: Dog): Dog {
    d.(cancelled := true)
  }

  function AfterStop(d: Dog): Dog {
    d.(live := false, armed := false)
  }

  // ── The object ────────────────────────────────────────────────────────────

  class Watchdog {
    const cfg: Config
    const interval: nat
    var last: string
    var since: Option<nat>
    var tripped: bool
    var cancelled: bool
    var live: bool
    var armed: bool

    function State(): Dog
      reads this
    {
      Dog(last, since, tripped, cancelled, live, armed)
    }

    /** newStallWatchdog. */
    constructor (cfg: Config)
      ensures State() == NEW_DOG && this.cfg == cfg && interval == TickInterval(cfg.window)
      ensures interval == if cfg.window < 4 then 1_000_000_000 else cfg.window / 4
    {
      this.cfg := cfg;
      interval := TickInterval(cfg.window);
      last, since := "", None;
      tripped, cancelled, live, armed := false, false, true, true;
    }

    /** The time is noted only when the description differs from the last one. */
    method Observed(desc: string, now: nat)
      modifies this
      ensures State() == AfterObserved(old(State()), desc, now)
    {
      if desc != last {
        last := desc;
        since := Some(now);
      }
    }

    /** The timer runs out and the runtime launches a tick: from here on Stop cannot prevent it. */
    method TimerFires()
      modifies this
      ensures State() == old(State()).(armed := false)
    {
      armed := false;
    }

    /** First lock of tick: the pair is read. */
    method TickRead() returns (held: Pair)
      ensures held == TickPair(State())
    {
      held := Pair(last, since);
    }

    /** Second lock of tick, on the pair read earlier. */
    method TickAct(held: Pair, now: nat) returns (trip: bool)
      modifies this
      ensures State() == AfterAct(cfg, old(State()), held, now) && trip == Trips(cfg, held, now)
      ensures trip <==> held.desc != "" && held.since.Some? && cfg.isLicense && cfg.registering(held.desc)
                        && now >= held.since.value + cfg.window
    {
      if held.desc != "" && held.since.Some? {
        if Stuck(cfg, held.desc, now - held.since.value) {
          tripped := true;
          return true;
        }
      }
      if live {
        armed := true;
      }
      return false;
    }

    method TickCancel()
      modifies this
      ensures State() == AfterCancel(old(State()))
    {
      cancelled := true;
    }

    method Fired() returns (r: bool)
      ensures r == State().tripped
    {
      r := tripped;
    }

    method Stop()
      modifies this
      ensures State() == AfterStop(old(State()))
    {
      if live {
        armed := false;
        live := false;
      } else {
        armed := false;
      }
    }
  }

  // ── All interleavings ─────────────────────────────────────────────────────

  /** The watch goroutine observes and stops; the timer fires; its goroutine reads, acts, then may cancel. */
  datatype Action =
    | Observe(desc: string, at: nat)
    | Fire(at: nat)
    | Read(at: nat)
    | Act(at: nat)
    | Cancel(at: nat)
    | Stop(at: nat)

  /** The tick in flight, if any: not yet read, holding the pair it read, or still owing a cancel. */
  datatype Tick = Idle | Launched | Holding(pair: Pair) | Owing

  datatype System = System(dog: Dog, tick: Tick)

  const START := System(NEW_DOG, Idle)

  /** The timer fires only while it counts, which is never during a tick; a tick acts after it has read. */
  predicate Enabled(s: System, a: Action) {
    match a
    case Fire(_) => s.dog.armed && s.tick.Idle?
    case Read(_) => s.tick.Launched?
    case Act(_) => s.tick.Holding?
    case Cancel(_) => s.tick.Owing?
    case _ => true
  }

  function Next(cfg: Config, s: System, a: Action): System
    requires Enabled(s, a)
  {
    match a
    case Observe(desc, at) => s.(dog := AfterObserved(s.dog, desc, at))
    case Fire(_) => System(s.dog.(armed := false), Launched)
    case Read(_) => s.(tick := Holding(TickPair(s.dog)))
    case Act(at) => System(AfterAct(cfg, s.dog, s.tick.pair, at), if Trips(cfg, s.tick.pair, at) then Owing else Idle)
    case Cancel(_) => System(AfterCancel(s.dog), Idle)
    case Stop(_) => s.(dog := AfterStop(s.dog))
  }

  /** The system after a run of actions; an action that is not enabled does not happen. */
  function After(cfg: Config, run: seq<Action>): System {
    if run == [] then START
    else
      var s := After(cfg, run[..|run| - 1]);
      if Enabled(s, run[|run| - 1]) then Next(cfg, s, run[|run| - 1]) else s
  }

  lemma AfterStep(cfg: Config, run: seq<Action>, n: nat)
    requires n < |run|
    ensures var s := After(cfg, run[..n]);
            After(cfg, run[..n + 1]) == if Enabled(s, run[n]) then Next(cfg, s, run[n]) else s
  {
    assert run[..n + 1][..n] == run[..n];
  }

  /** The object goes through the same states: every interleaving of its methods' steps is a run. */
  method Execute(cfg: Config, run: seq<Action>) returns (dog: Watchdog, tick: Tick, fired: bool)
    ensures System(dog.State(), tick) == After(cfg, run)
    ensures fired == After(cfg, run).dog.tripped
  {
    hide Trips;
    dog := new Watchdog(cfg);
    tick := Idle;
    for n := 0 to |run|
      invariant fresh(dog) && dog.cfg == cfg
      invariant System(dog.State(), tick) == After(cfg, run[..n])
    {
      AfterStep(cfg, run, n);
      ghost var s := After(cfg, run[..n]);
      match run[n] {
        case Observe(desc, at) => dog.Observed(desc, at);
        case Fire(_) =>
          if dog.armed && tick.Idle? {
            dog.TimerFires();
            tick := Launched;
          }
        case Read(_) =>
          if tick.Launched? {
            var held := dog.TickRead();
            tick := Holding(held);
          }
        case Act(at) =>
          if tick.Holding? {
            var trip := dog.TickAct(tick.pair, at);
            tick := if trip then Owing else Idle;
          }
        case Cancel(_) =>
          if tick.Owing? {
            dog.TickCancel();
            tick := Idle;
          }
        case Stop(_) => dog.Stop();
      }
    }
    assert run[..|run|] == run;
    fired := dog.Fired();
  }

  /** The state the object was in just before action `n`: what was last observed, and when a change
      to it was first observed, with nothing else observed since. */
  ghost predicate LastObserved(run: seq<Action>, n: nat, desc: string, since: nat)
    requires n <= |run|
  {
    exists k :: 0 <= k < n && run[k] == Observe(desc, since) && SteadyFrom(run, k, n, desc)
  }

  /** Every observation from action `k` up to action `n` was of `desc`. */
  ghost predicate SteadyFrom(run: seq<Action>, k: nat, n: nat, desc: string)
    requires n <= |run|
  {
    forall j :: k <= j < n && run[j].Observe? ==> run[j].desc == desc
  }

  /** The fields always hold the last observation and the time of the change to it. */
  lemma {:induction false} FieldsAreTrue(cfg: Config, run: seq<Action>, n: nat)
    requires n <= |run|
    ensures var d := After(cfg, run[..n]).dog;
            if d.since.Some? then LastObserved(run, n, d.last, d.since.value)
            else d.last == "" && SteadyFrom(run, 0, n, "")
  {
    hide After, Trips;
    if n > 0 {
      FieldsAreTrue(cfg, run, n - 1);
      AfterStep(cfg, run, n - 1);
      var d := After(cfg, run[..n - 1]).dog;
      var a := run[n - 1];
      if a.Observe? && a.desc != d.last {
        assert SteadyFrom(run, n - 1, n, a.desc);
      } else if d.since.Some? {
        var k :| 0 <= k < n - 1 && run[k] == Observe(d.last, d.since.value) && SteadyFrom(run, k, n - 1, d.last);
        assert SteadyFrom(run, k, n, d.last);
      }
    } else {
      StartsBlank(cfg, run);
    }
  }

  lemma StartsBlank(cfg: Config, run: seq<Action>)
    ensures After(cfg, run[..0]) == START
  {
  }

  /** The tick in flight holds what the fields were when it read them. */
  ghost predicate ReadAtAction(cfg: Config, run: seq<Action>, n: nat, r: nat)
    requires n <= |run|
  {
    && r < n && run[r].Read? && Enabled(After(cfg, run[..r]), run[r])
    && After(cfg, run[..n]).tick == Holding(TickPair(After(cfg, run[..r]).dog))
  }

  lemma {:induction false} HeldWasRead(cfg: Config, run: seq<Action>, n: nat) returns (r: nat)
    requires n <= |run| && After(cfg, run[..n]).tick.Holding?
    ensures ReadAtAction(cfg, run, n, r)
  {
    hide After, Trips;
    StartsBlank(cfg, run);
    AfterStep(cfg, run, n - 1);
    var s := After(cfg, run[..n - 1]);
    if run[n - 1].Read? && Enabled(s, run[n - 1]) {
      r := n - 1;
    } else {
      r := HeldWasRead(cfg, run, n - 1);
    }
  }

  /** SOUNDNESS, over every interleaving. When a tick trips, the pair it had read was a registering
      licence state, changed to at `since` and not observed to change again before the read, and the
      clock stands at least the window past `since`. */
  lemma TripIsSound(cfg: Config, run: seq<Action>, n: nat) returns (r: nat, k: nat)
    requires n < |run| && run[n].Act? && Enabled(After(cfg, run[..n]), run[n])
    requires Trips(cfg, After(cfg, run[..n]).tick.pair, run[n].at)
    ensures k < r < n && run[r].Read? && run[k].Observe?
    ensures cfg.isLicense && cfg.registering(run[k].desc) && run[k].desc != "" && run[n].at >= run[k].at + cfg.window
    ensures SteadyFrom(run, k, r, run[k].desc)
    ensures After(cfg, run[..n]).tick.pair == Pair(run[k].desc, Some(run[k].at))
  {
    r := HeldWasRead(cfg, run, n);
    FieldsAreTrue(cfg, run, r);
    var d := After(cfg, run[..r]).dog;
    k :| 0 <= k < r && run[k] == Observe(d.last, d.since.value) && SteadyFrom(run, k, r, d.last);
  }

  /** The verdict is about the state as it is at the trip exactly when no other state was observed
      between the read and the act (the clock having moved on since the change the read saw). */
  lemma TripIsCurrent(cfg: Config, run: seq<Action>, n: nat, r: nat)
    requires n <= |run| && ReadAtAction(cfg, run, n, r)
    requires var held := After(cfg, run[..n]).tick.pair;
             held.since.Some? && forall j :: r <= j < n && run[j].Observe? ==> run[j].at > held.since.value
    ensures var held := After(cfg, run[..n]).tick.pair;
            TickPair(After(cfg, run[..n]).dog) == held <==> SteadyFrom(run, r, n, held.desc)
  {
    PairTracksChanges(cfg, run, r, n);
  }

  lemma {:induction false} PairTracksChanges(cfg: Config, run: seq<Action>, r: nat, n: nat)
    requires r <= n <= |run|
    requires var d := After(cfg, run[..r]).dog;
             d.since.Some? && forall j :: r <= j < n && run[j].Observe? ==> run[j].at > d.since.value
    ensures var d, e := After(cfg, run[..r]).dog, After(cfg, run[..n]).dog;
            if SteadyFrom(run, r, n, d.last) then TickPair(e) == TickPair(d)
            else e.since.Some? && e.since.value > d.since.value
  {
    hide After, Trips;
    if r < n {
      PairTracksChanges(cfg, run, r, n - 1);
      AfterStep(cfg, run, n - 1);
      var d := After(cfg, run[..r]).dog;
      if SteadyFrom(run, r, n - 1, d.last) && run[n - 1].Observe? && run[n - 1].desc == d.last {
        assert SteadyFrom(run, r, n, d.last);
      }
    }
  }

  /** It can be stale: the state moves on after the read, and the tick trips all the same. */
  lemma TripCanBeStale(cfg: Config)
    requires cfg.isLicense && cfg.registering("Registering") && !cfg.registering("Active") && cfg.window > 0
    ensures var w := cfg.window;
            var run := [Observe("Registering", 0), Fire(w), Read(w), Observe("Active", w), Act(w)];
            After(cfg, run).dog.tripped && After(cfg, run).dog.last == "Active"
  {
    var w := cfg.window;
    var run := [Observe("Registering", 0), Fire(w), Read(w), Observe("Active", w), Act(w)];
    hide After;
    assert run[..5] == run;
    StartsBlank(cfg, run);
    AfterStep(cfg, run, 0);
    AfterStep(cfg, run, 1);
    AfterStep(cfg, run, 2);
    AfterStep(cfg, run, 3);
    AfterStep(cfg, run, 4);
  }

  /** No tick is scheduled again after stop; at most the one already launched goes on. */
  lemma {:induction false} StoppedStaysQuiet(cfg: Config, run: seq<Action>, n: nat, m: nat)
    requires n < m <= |run| && run[n].Stop?
    ensures var s := After(cfg, run[..m]);
            && !s.dog.armed && !s.dog.live
            && (After(cfg, run[..n + 1]).tick.Idle? ==> s.tick.Idle? && s.dog.tripped == After(cfg, run[..n + 1]).dog.tripped)
    decreases m
  {
    hide After, Trips;
    AfterStep(cfg, run, m - 1);
    if m - 1 > n {
      StoppedStaysQuiet(cfg, run, n, m - 1);
    }
  }

  /** A trip ends the ticks for good, is never undone, and its cancel is done or still owed. */
  lemma {:induction false} TripIsFinal(cfg: Config, run: seq<Action>, n: nat, m: nat)
    requires n <= m <= |run| && After(cfg, run[..n]).dog.tripped
    ensures var s := After(cfg, run[..m]);
            s.dog.tripped && !s.dog.armed && (s.tick.Owing? || (s.dog.cancelled && s.tick.Idle?))
    decreases m
  {
    hide After, Trips;
    TripsAreExclusive(cfg, run, m);
    if n < m {
      TripIsFinal(cfg, run, n, m - 1);
      AfterStep(cfg, run, m - 1);
    }
  }

  /** The watch is never cancelled without a trip, and the timer never counts during a tick. */
  lemma {:induction false} TripsAreExclusive(cfg: Config, run: seq<Action>, m: nat)
    requires m <= |run|
    ensures var s := After(cfg, run[..m]);
            && (s.dog.tripped <==> s.dog.cancelled || s.tick.Owing?)
            && (s.dog.tripped ==> !s.dog.armed && (s.tick.Owing? || s.tick.Idle?))
            && (!s.tick.Idle? ==> !s.dog.armed)
  {
    hide After, Trips;
    if m > 0 {
      TripsAreExclusive(cfg, run, m - 1);
      AfterStep(cfg, run, m - 1);
    } else {
      StartsBlank(cfg, run);
    }
  }

  // ── Promptness ────────────────────────────────────────────────────────────

  /** When the last tick before action `n` acted; when the watchdog was made, if none did. */
  function LastActed(cfg: Config, run: seq<Action>, made: nat, n: nat): nat
    requires n <= |run|
  {
    if n == 0 then made
    else if run[n - 1].Act? && Enabled(After(cfg, run[..n - 1]), run[n - 1]) then run[n - 1].at
    else LastActed(cfg, run, made, n - 1)
  }

  /** The clock does not run backwards. */
  ghost predicate Timed(run: seq<Action>, made: nat) {
    && (forall j :: 0 <= j < |run| ==> made <= run[j].at)
    && (forall j, k :: 0 <= j < k < |run| ==> run[j].at <= run[k].at)
  }

  /** No tick is overdue by more than `late`: until the watchdog trips, nothing happens later than that
      after one interval since the last tick acted. Ticks at every multiple of the interval, with nothing
      to spare, are a case of this. */
  ghost predicate Prompt(cfg: Config, run: seq<Action>, made: nat, late: nat) {
    forall j :: 0 <= j < |run| && !After(cfg, run[..j]).dog.tripped ==>
                  run[j].at <= LastActed(cfg, run, made, j) + TickInterval(cfg.window) + late
  }

  /** Action `i` observes a change to a registering licence state, and nothing else is observed after it. */
  ghost predicate LastChange(cfg: Config, run: seq<Action>, i: nat) {
    && i < |run| && run[i].Observe? && After(cfg, run[..i]).dog.last != run[i].desc
    && SteadyFrom(run, i, |run|, run[i].desc)
    && cfg.isLicense && cfg.registering(run[i].desc) && run[i].desc != ""
  }

  function PairOf(a: Action): Pair
    requires a.Observe?
  {
    Pair(a.desc, Some(a.at))
  }

  predicate Acts(cfg: Config, run: seq<Action>, n: nat)
    requires n < |run|
  {
    run[n].Act? && Enabled(After(cfg, run[..n]), run[n])
  }

  /** From the change on, the fields are the change's, and so is any pair that a tick holds, unless that
      tick read before the change and still has not acted. */
  lemma {:induction false} PairSinceChange(cfg: Config, run: seq<Action>, made: nat, i: nat, n: nat)
    requires LastChange(cfg, run, i) && i < n <= |run|
    ensures var s, t := After(cfg, run[..n]), After(cfg, run[..i]);
            && TickPair(s.dog) == PairOf(run[i])
            && (s.tick.Holding? ==>
                  (s.tick.pair == PairOf(run[i])
                   || (s.tick == t.tick && LastActed(cfg, run, made, n) == LastActed(cfg, run, made, i))))
  {
    hide After, Trips;
    AfterStep(cfg, run, n - 1);
    if n - 1 > i {
      PairSinceChange(cfg, run, made, i, n - 1);
    }
  }

  lemma {:induction false} ActedInThePast(cfg: Config, run: seq<Action>, made: nat, i: nat)
    requires i < |run| && Timed(run, made)
    ensures LastActed(cfg, run, made, i) <= run[i].at
  {
    hide After;
    if i > 0 {
      ActedInThePast(cfg, run, made, i - 1);
    }
  }

  /** An act on a pair read before the change comes within one interval of the change: too soon for the
      change's own window. */
  lemma OldPairActsEarly(cfg: Config, run: seq<Action>, made: nat, late: nat, i: nat, n: nat)
    requires LastChange(cfg, run, i) && i < n < |run| && Acts(cfg, run, n)
    requires Timed(run, made) && Prompt(cfg, run, made, late) && !After(cfg, run[..n]).dog.tripped
    requires After(cfg, run[..n]).tick.pair != PairOf(run[i])
    ensures run[n].at <= run[i].at + TickInterval(cfg.window) + late
  {
    hide After, LastActed, TickInterval;
    PairSinceChange(cfg, run, made, i, n);
    ActedInThePast(cfg, run, made, i);
  }

  /** While the watchdog has not tripped, its last tick acted before the change's window was over. */
  lemma {:induction false} ActedBeforeDue(cfg: Config, run: seq<Action>, made: nat, late: nat, i: nat, n: nat)
    requires LastChange(cfg, run, i) && i < n <= |run|
    requires Timed(run, made) && Prompt(cfg, run, made, late) && TickInterval(cfg.window) + late < cfg.window
    requires !After(cfg, run[..n]).dog.tripped
    ensures LastActed(cfg, run, made, n) < run[i].at + cfg.window
  {
    hide After, Prompt, Timed, TickInterval;
    if After(cfg, run[..n - 1]).dog.tripped {
      TripIsFinal(cfg, run, n - 1, n);
    }
    if n - 1 > i {
      ActedBeforeDue(cfg, run, made, late, i, n - 1);
      if Acts(cfg, run, n - 1) {
        AfterStep(cfg, run, n - 1);
        if After(cfg, run[..n - 1]).tick.pair != PairOf(run[i]) {
          OldPairActsEarly(cfg, run, made, late, i, n - 1);
        }
      }
    } else {
      ActedInThePast(cfg, run, made, i);
    }
  }

  /** Between an action before which the watchdog had not tripped and one before which it had, there is
      the act that tripped it. */
  lemma FirstTrip(cfg: Config, run: seq<Action>, lo: nat, hi: nat) returns (n: nat)
    requires lo <= hi <= |run| && !After(cfg, run[..lo]).dog.tripped && After(cfg, run[..hi]).dog.tripped
    ensures lo <= n < hi && Acts(cfg, run, n) && Trips(cfg, After(cfg, run[..n]).tick.pair, run[n].at)
    ensures !After(cfg, run[..n]).dog.tripped && After(cfg, run[..n + 1]).dog.tripped
  {
    hide After, Trips;
    n := lo;
    while !After(cfg, run[..n + 1]).dog.tripped
      invariant lo <= n < hi && !After(cfg, run[..n]).dog.tripped
      decreases hi - n
    {
      n := n + 1;
    }
    AfterStep(cfg, run, n);
  }

  /** No tick that had read before the change, and acts after it, trips. */
  ghost predicate OldPairsDoNotTrip(cfg: Config, run: seq<Action>, i: nat)
    requires i < |run| && run[i].Observe?
  {
    forall m :: i < m < |run| && Acts(cfg, run, m) && After(cfg, run[..m]).tick.pair != PairOf(run[i]) ==>
                  !Trips(cfg, After(cfg, run[..m]).tick.pair, run[m].at)
  }

  /** TIMELINESS, over every run in which no tick is overdue by more than `late`. Let a registering licence
      state be observed, and nothing else after it. If the run goes on for the window, one interval and
      `late`, some tick trips, before that time is over. It comes no earlier than the window after the
      change if and only if no tick that had read before the change trips after it. */
  lemma PromptTicksTripInTime(cfg: Config, run: seq<Action>, made: nat, late: nat, i: nat) returns (n: nat)
    requires LastChange(cfg, run, i) && !After(cfg, run[..i]).dog.tripped
    requires Timed(run, made) && Prompt(cfg, run, made, late) && TickInterval(cfg.window) + late < cfg.window
    requires run[|run| - 1].at >= run[i].at + cfg.window + TickInterval(cfg.window) + late
    ensures i < n < |run| && Acts(cfg, run, n)
    ensures !After(cfg, run[..n]).dog.tripped && After(cfg, run[..n + 1]).dog.tripped
    ensures run[n].at < run[i].at + cfg.window + TickInterval(cfg.window) + late
    ensures cfg.window >= 4 ==> run[n].at < run[i].at + cfg.window + cfg.window / 4 + late
    ensures run[n].at >= run[i].at + cfg.window <==> OldPairsDoNotTrip(cfg, run, i)
  {
    hide After, LastActed;
    var last := |run| - 1;
    assert After(cfg, run[..last]).dog.tripped by {
      if !After(cfg, run[..last]).dog.tripped {
        ActedBeforeDue(cfg, run, made, late, i, last);
      }
    }
    n := FirstTrip(cfg, run, i, last);
    ActedBeforeDue(cfg, run, made, late, i, n);
    if After(cfg, run[..n]).tick.pair != PairOf(run[i]) {
      OldPairActsEarly(cfg, run, made, late, i, n);
    }
    forall m | i < m < |run| && m != n && Acts(cfg, run, m) ensures !Trips(cfg, After(cfg, run[..m]).tick.pair, run[m].at) {
      if m > n {
        TripIsFinal(cfg, run, n + 1, m);
      } else {
        AfterStep(cfg, run, m);
        if After(cfg, run[..m + 1]).dog.tripped { TripIsFinal(cfg, run, m + 1, n); }
      }
    }
    assert OldPairsDoNotTrip(cfg, run, i) <==> After(cfg, run[..n]).tick.pair == PairOf(run[i]);
  }

  /** A change that is not observed between the two locks of a tick has no older pair to fear. */
  lemma NoPairHeld(cfg: Config, run: seq<Action>, made: nat, i: nat)
    requires LastChange(cfg, run, i) && !After(cfg, run[..i]).tick.Holding?
    ensures OldPairsDoNotTrip(cfg, run, i)
  {
    hide After, Trips, LastActed;
    forall m | i < m < |run| && Acts(cfg, run, m) ensures After(cfg, run[..m]).tick.pair == PairOf(run[i]) {
      PairSinceChange(cfg, run, made, i, m);
    }
  }

  // ── The regular schedule ──────────────────────────────────────────────────

  /** When tick `n` of a watchdog made at `made` is due. */
  function TickAt(cfg: Config, made: nat, n: nat): nat {
    made + n * TickInterval(cfg.window)
  }

  /** One state observed at the start, and then `n` ticks, each fired, read and acted on when it is due. */
  function Schedule(cfg: Config, made: nat, desc: string, n: nat): seq<Action> {
    if n == 0 then [Observe(desc, made)]
    else
      var t := TickAt(cfg, made, n);
      Schedule(cfg, made, desc, n - 1) + [Fire(t), Read(t), Act(t)]
  }

  lemma {:induction false} LastActedPrefix(cfg: Config, run: seq<Action>, more: seq<Action>, made: nat, n: nat)
    requires n <= |run|
    ensures LastActed(cfg, run + more, made, n) == LastActed(cfg, run, made, n)
  {
    hide After;
    if n > 0 {
      assert (run + more)[..n - 1] == run[..n - 1];
      LastActedPrefix(cfg, run, more, made, n - 1);
    }
  }

  lemma NextTickAt(cfg: Config, made: nat, n: nat)
    requires n > 0
    ensures TickAt(cfg, made, n) == TickAt(cfg, made, n - 1) + TickInterval(cfg.window)
  {
  }

  lemma {:induction false} ScheduleIsTimed(cfg: Config, made: nat, desc: string, n: nat)
    ensures var run := Schedule(cfg, made, desc, n);
            && |run| == 1 + 3 * n && run[0] == Observe(desc, made) && run[|run| - 1].at == TickAt(cfg, made, n)
            && Timed(run, made) && (forall j :: 0 <= j < |run| ==> run[j].at <= TickAt(cfg, made, n))
            && SteadyFrom(run, 0, |run|, desc)
  {
    hide TickInterval;
    if n > 0 {
      ScheduleIsTimed(cfg, made, desc, n - 1);
      NextTickAt(cfg, made, n);
      hide TickAt;
      var s, t := Schedule(cfg, made, desc, n - 1), TickAt(cfg, made, n);
      var run := Schedule(cfg, made, desc, n);
      assert run == s + [Fire(t), Read(t), Act(t)];
      forall j | 0 <= j < |run| ensures made <= run[j].at <= t && (j >= |s| ==> run[j].at == t && !run[j].Observe?) {
        if j < |s| { assert run[j] == s[j]; }
      }
      forall j, k | 0 <= j < k < |run| ensures run[j].at <= run[k].at {
        if k < |s| { assert run[j] == s[j] && run[k] == s[k]; }
      }
    }
  }

  /** After its `n` ticks the watchdog has tripped, or its timer counts again. */
  ghost predicate OnSchedule(cfg: Config, made: nat, run: seq<Action>, n: nat) {
    var s := After(cfg, run);
    s.dog.tripped ||
    (s.dog.armed && s.dog.live && s.tick.Idle? && LastActed(cfg, run, made, |run|) == TickAt(cfg, made, n))
  }

  /** On schedule no tick is overdue. */
  lemma {:induction false} ScheduleIsPrompt(cfg: Config, made: nat, desc: string, n: nat)
    requires desc != ""
    ensures var run := Schedule(cfg, made, desc, n); Prompt(cfg, run, made, 0) && OnSchedule(cfg, made, run, n)
  {
    var run := Schedule(cfg, made, desc, n);
    if n == 0 {
      assert run[..1] == run;
      StartsBlank(cfg, run);
      AfterStep(cfg, run, 0);
    } else {
      hide Prompt, OnSchedule, After;
      var s, t := Schedule(cfg, made, desc, n - 1), TickAt(cfg, made, n);
      ScheduleIsPrompt(cfg, made, desc, n - 1);
      OneMoreTick(cfg, made, n, s, t);
      TickIsNotOverdue(cfg, made, n, s, t);
    }
  }

  lemma OneMoreTick(cfg: Config, made: nat, n: nat, s: seq<Action>, t: nat)
    requires n > 0 && OnSchedule(cfg, made, s, n - 1) && t == TickAt(cfg, made, n)
    ensures OnSchedule(cfg, made, s + [Fire(t), Read(t), Act(t)], n)
  {
    hide After, Trips, TickAt;
    var run, k := s + [Fire(t), Read(t), Act(t)], |s|;
    assert run[..k] == s && run[..k + 3] == run;
    AfterStep(cfg, run, k);
    AfterStep(cfg, run, k + 1);
    AfterStep(cfg, run, k + 2);
    if After(cfg, s).dog.tripped {
      TripIsFinal(cfg, run, k, k + 3);
    }
  }

  lemma TickIsNotOverdue(cfg: Config, made: nat, n: nat, s: seq<Action>, t: nat)
    requires n > 0 && OnSchedule(cfg, made, s, n - 1) && Prompt(cfg, s, made, 0) && t == TickAt(cfg, made, n)
    ensures Prompt(cfg, s + [Fire(t), Read(t), Act(t)], made, 0)
  {
    hide After, Trips, TickAt, LastActed, TickInterval;
    var more, k := [Fire(t), Read(t), Act(t)], |s|;
    var run := s + more;
    NextTickAt(cfg, made, n);
    assert run[..k] == s;
    LastActedPrefix(cfg, s, more, made, k);
    forall j | 0 <= j < |run| && !After(cfg, run[..j]).dog.tripped
      ensures run[j].at <= LastActed(cfg, run, made, j) + TickInterval(cfg.window)
    {
      if j < k {
        assert run[..j] == s[..j] && run[j] == s[j];
        LastActedPrefix(cfg, s, more, made, j);
      } else {
        if After(cfg, s).dog.tripped { TripIsFinal(cfg, run, k, j); }
        NoActYet(cfg, run, made, k, j);
      }
    }
  }

  lemma {:induction false} NoActYet(cfg: Config, run: seq<Action>, made: nat, k: nat, j: nat)
    requires k <= j <= |run| && forall i :: k <= i < j ==> !run[i].Act?
    ensures LastActed(cfg, run, made, j) == LastActed(cfg, run, made, k)
  {
    hide After;
    if j > k { NoActYet(cfg, run, made, k, j - 1); }
  }

  /** So with ticks at every multiple of the interval, a licence that is registering and stays so is
      tripped within the window plus a quarter, by one of the first six ticks. */
  lemma RegularTicksTrip(cfg: Config, made: nat, desc: string) returns (n: nat)
    requires cfg.isLicense && cfg.registering(desc) && desc != "" && cfg.window >= 16
    ensures var run := Schedule(cfg, made, desc, 6);
            && n < |run| && run[n].Act? && !After(cfg, run[..n]).dog.tripped && After(cfg, run[..n + 1]).dog.tripped
            && made + cfg.window <= run[n].at < made + cfg.window + cfg.window / 4
  {
    hide After, Trips, Prompt, Timed, SteadyFrom, LastActed, Schedule, OldPairsDoNotTrip;
    var run := Schedule(cfg, made, desc, 6);
    ScheduleIsTimed(cfg, made, desc, 6);
    ScheduleIsPrompt(cfg, made, desc, 6);
    StartsBlank(cfg, run);
    NoPairHeld(cfg, run, made, 0);
    n := PromptTicksTripInTime(cfg, run, made, 0, 0);
  }

  /** On schedule, ticks that come before the window is over do not trip. */
  lemma ScheduleBeforeDue(cfg: Config, made: nat, desc: string, n: nat)
    requires cfg.isLicense && cfg.registering(desc) && desc != "" && TickAt(cfg, made, n) < made + cfg.window
    ensures !After(cfg, Schedule(cfg, made, desc, n)).dog.tripped
  {
    hide After, Schedule, TickAt, LastActed;
    var run := Schedule(cfg, made, desc, n);
    ScheduleIsTimed(cfg, made, desc, n);
    StartsBlank(cfg, run);
    assert run[..|run|] == run;
    if After(cfg, run).dog.tripped {
      var m := FirstTrip(cfg, run, 0, |run|);
      PairSinceChange(cfg, run, made, 0, m);
    }
  }

  /** The change restarts the clock, and still the watchdog can trip at the very moment of the change: the
      tick that was due for the state before had already read it. Nothing in this run is late. */
  lemma TripsAtTheChange(cfg: Config, desc: string, change: string, u: nat)
    requires cfg.isLicense && cfg.registering(desc) && cfg.registering(change)
    requires desc != "" && change != "" && change != desc && u > 0 && cfg.window == 4 * u
    ensures var t, run := 4 * u, Schedule(cfg, 0, desc, 3) + [Fire(4 * u), Read(4 * u), Observe(change, 4 * u), Act(4 * u)];
            && |run| == 14 && LastChange(cfg, run, 12) && run[12].at == t && run[13].at == t
            && Timed(run, 0) && Prompt(cfg, run, 0, 0)
            && !After(cfg, run[..13]).dog.tripped && After(cfg, run).dog.tripped
            && !OldPairsDoNotTrip(cfg, run, 12)
  {
    hide After, Schedule, Prompt, Timed, LastChange, Trips, TickInterval, TickAt, OldPairsDoNotTrip;
    var t, s := 4 * u, Schedule(cfg, 0, desc, 3);
    var more := [Fire(t), Read(t), Observe(change, t), Act(t)];
    QuarterTicks(cfg, u);
    ScheduleIsTimed(cfg, 0, desc, 3);
    ScheduleIsPrompt(cfg, 0, desc, 3);
    ScheduleBeforeDue(cfg, 0, desc, 3);
    OldPairHeld(cfg, desc, change, s, more, t);
    OldPairTimes(cfg, desc, change, s, more, t);
    NotOverdue(cfg, s, more, u, t);
    OldPairTrips(cfg, s + more);
  }

  lemma QuarterTicks(cfg: Config, u: nat)
    requires u > 0 && cfg.window == 4 * u
    ensures TickInterval(cfg.window) == u && TickAt(cfg, 0, 3) == 3 * u
  {
  }

  /** The last tick reads the old state, and acts on it after the change. */
  lemma OldPairHeld(cfg: Config, desc: string, change: string, s: seq<Action>, more: seq<Action>, t: nat)
    requires cfg.isLicense && cfg.registering(desc) && desc != "" && change != desc
    requires s == Schedule(cfg, 0, desc, 3) && more == [Fire(t), Read(t), Observe(change, t), Act(t)] && t >= cfg.window
    requires !After(cfg, s).dog.tripped && OnSchedule(cfg, 0, s, 3)
    ensures |s| == 10
    ensures var run := s + more;
            && After(cfg, run[..12]).dog.last == desc && !After(cfg, run[..13]).dog.tripped && After(cfg, run).dog.tripped
            && After(cfg, run[..13]).tick == Holding(Pair(desc, Some(0)))
            && Trips(cfg, Pair(desc, Some(0)), t)
  {
    hide After, Schedule, TickAt, LastActed;
    var run := s + more;
    ScheduleIsTimed(cfg, 0, desc, 3);
    assert run[..10] == s && run[..14] == run && s[..|s|] == s;
    StartsBlank(cfg, s);
    PairSinceChange(cfg, s, 0, 0, 10);
    hide SteadyFrom, Timed, LastChange;
    AfterStep(cfg, run, 10);
    AfterStep(cfg, run, 11);
    AfterStep(cfg, run, 12);
    AfterStep(cfg, run, 13);
  }

  lemma OldPairTimes(cfg: Config, desc: string, change: string, s: seq<Action>, more: seq<Action>, t: nat)
    requires |s| == 10 && more == [Fire(t), Read(t), Observe(change, t), Act(t)] && Timed(s, 0)
    requires forall j :: 0 <= j < |s| ==> s[j].at <= t
    requires cfg.isLicense && cfg.registering(change) && change != "" && change != desc
    requires After(cfg, (s + more)[..12]).dog.last == desc
    ensures Timed(s + more, 0) && LastChange(cfg, s + more, 12)
  {
    hide After;
    var run := s + more;
    SteadyAfter(s, more, change);
    forall j, k | 0 <= j < k < |run| ensures run[j].at <= run[k].at {
      if k < 10 { assert run[j] == s[j] && run[k] == s[k]; } else if j < 10 { assert run[j] == s[j]; }
    }
  }

  lemma OldPairTrips(cfg: Config, run: seq<Action>)
    requires |run| == 14 && run[12].Observe? && run[13].Act? && After(cfg, run[..13]).tick.Holding?
    requires After(cfg, run[..13]).tick.pair != PairOf(run[12]) && Trips(cfg, After(cfg, run[..13]).tick.pair, run[13].at)
    ensures !OldPairsDoNotTrip(cfg, run, 12)
  {
    hide After, Trips;
    assert Acts(cfg, run, 13);
  }

  lemma SteadyAfter(s: seq<Action>, more: seq<Action>, desc: string)
    requires |s| == 10 && |more| == 4 && more[2].Observe? && more[2].desc == desc && more[3].Act?
    ensures SteadyFrom(s + more, 12, 14, desc)
  {
  }

  lemma NotOverdue(cfg: Config, s: seq<Action>, more: seq<Action>, u: nat, t: nat)
    requires |s| == 10 && |more| == 4 && t == 4 * u && TickInterval(cfg.window) == u
    requires forall i :: 0 <= i < 4 ==> more[i].at == t && (i < 3 ==> !more[i].Act?)
    requires Prompt(cfg, s, 0, 0) && LastActed(cfg, s, 0, 10) == 3 * u
    ensures Prompt(cfg, s + more, 0, 0)
  {
    hide After, LastActed;
    var run := s + more;
    LastActedPrefix(cfg, s, more, 0, 10);
    forall j | 0 <= j < |run| && !After(cfg, run[..j]).dog.tripped
      ensures run[j].at <= LastActed(cfg, run, 0, j) + TickInterval(cfg.window)
    {
      if j < 10 {
        assert run[..j] == s[..j] && run[j] == s[j];
        LastActedPrefix(cfg, s, more, 0, j);
      } else {
        NoActYet(cfg, run, 0, 10, j);
      }
    }
  }
}
