/** How `tfx wait` chooses between its two strategies (`internal/cli/tfx_wait.go`, runTFXWait). */
module WaitDispatch {
  import P = PollWait
  import W = WatchWait
  import opened Wrappers

  /** What the command reports. `Waiting` means the world given so far did not end the wait. */
  datatype Report = Success | Stalled | TimedOut | Cancelled | PollFailed(verdict: P.Verdict) | Waiting

  /** Everything the two strategies meet: the watch rounds, whether the caller's own context is over
      when the watch gives up, and the poll's clock and turns. */
  datatype World = World(rounds: seq<W.Round>, callerDone: bool, start: nat, turns: seq<P.Turn>)

  function OfPoll(v: P.Verdict): Report {
    match v
    case Satisfied => Success
    case TimedOut => TimedOut
    case Waiting => Waiting
    case _ => PollFailed(v)
  }

  /** The watch gave up for a reason that is neither its deadline nor a stall, and the caller still waits. */
  predicate FallsBack(w: World, terminal: string -> bool) {
    W.Watch(w.rounds, None, terminal).0 == W.Unavailable && !w.callerDone
  }

  /** Some object that a GET or a watch event produced satisfied the matcher. */
  ghost predicate SomeObjectMatched(w: World) {
    || W.Witnessed(w.rounds)
    || exists i :: 0 <= i < |w.turns| && P.Succeeded(w.turns[i]) && w.turns[i].outcome.matched
  }

  // ── The first round with a verdict ────────────────────────────────────────

  /** The loop's resource version as it enters round `i`, provided it gets there. */
  function Entering(rounds: seq<W.Round>, terminal: string -> bool, i: nat): Option<nat>
    requires i <= |rounds|
  {
    if i == 0 then None else W.Turn(rounds[i - 1], Entering(rounds, terminal, i - 1), terminal).1
  }

  ghost predicate Reaches(rounds: seq<W.Round>, terminal: string -> bool, i: nat)
    requires i <= |rounds|
  {
    forall j :: 0 <= j < i ==> W.Turn(rounds[j], Entering(rounds, terminal, j), terminal).0 == W.Pending
  }

  /** The wait has the verdict of the first round that has one. */
  lemma {:induction false} VerdictOfFirst(rounds: seq<W.Round>, terminal: string -> bool, i: nat)
    requires i < |rounds| && Reaches(rounds, terminal, i)
    requires W.Turn(rounds[i], Entering(rounds, terminal, i), terminal).0 != W.Pending
    ensures W.Watch(rounds, None, terminal) == W.Turn(rounds[i], Entering(rounds, terminal, i), terminal)
  {
    hide W.Turn;
    WatchSkips(rounds, terminal, i);
    assert rounds[i..][0] == rounds[i];
  }

  lemma {:induction false} WatchSkips(rounds: seq<W.Round>, terminal: string -> bool, i: nat)
    requires i <= |rounds| && Reaches(rounds, terminal, i)
    ensures W.Watch(rounds, None, terminal) == W.Watch(rounds[i..], Entering(rounds, terminal, i), terminal)
  {
    hide W.Turn;
    if i == 0 {
      assert rounds[0..] == rounds;
    } else {
      WatchSkips(rounds, terminal, i - 1);
      assert rounds[i - 1..][0] == rounds[i - 1] && rounds[i - 1..][1..] == rounds[i..];
    }
  }

  // ── The watch, read off its rounds ────────────────────────────────────────

  /** The object as the drain cannot go past it: it matches, or never will. */
  ghost predicate Final(e: W.Event, terminal: string -> bool) {
    e.Seen? && e.v.Live? && (e.v.matched || terminal(e.v.desc))
  }

  /** Event `k` is the first that the drain cannot go past. */
  ghost predicate CutAt(events: seq<W.Event>, terminal: string -> bool, k: nat) {
    && k < |events| && (events[k].Expired? || events[k].Broken? || Final(events[k], terminal))
    && forall j :: 0 <= j < k ==> !events[j].Expired? && !events[j].Broken? && !Final(events[j], terminal)
  }

  ghost predicate Expires(events: seq<W.Event>, terminal: string -> bool) {
    exists k: nat :: CutAt(events, terminal, k) && events[k].Expired?
  }

  /** The drain gets to a matching object. */
  ghost predicate ComesToMatch(events: seq<W.Event>, terminal: string -> bool) {
    exists k: nat :: CutAt(events, terminal, k) && events[k].Seen? && events[k].v.Live? && events[k].v.matched
  }

  /** The drain breaks, or gets to an object that never will match. */
  ghost predicate ComesToNothing(events: seq<W.Event>, terminal: string -> bool) {
    exists k: nat :: && CutAt(events, terminal, k)
                     && (events[k].Broken? || (events[k].Seen? && events[k].v.Live? && !events[k].v.matched))
  }

  ghost predicate ShowsNoVersion(events: seq<W.Event>) {
    forall k :: 0 <= k < |events| ==> !events[k].Seen?
  }

  /** Round `i` begins with a GET: it is the first, or the one before expired, or neither its GET nor any
      event has shown a version. */
  ghost predicate AsksAgain(rounds: seq<W.Round>, terminal: string -> bool, i: nat)
    requires i <= |rounds|
  {
    || i == 0
    || Expires(rounds[i - 1].events, terminal)
    || (AsksAgain(rounds, terminal, i - 1) && rounds[i - 1].get.NotFound? && ShowsNoVersion(rounds[i - 1].events))
  }

  /** The GET of a round, if it has one, leads to a watch, and the watch can be opened. */
  ghost predicate Watches(r: W.Round, asks: bool) {
    r.established && (asks ==> r.get.NotFound? || (r.get.Found? && !(r.get.v.Live? && r.get.v.matched)))
  }

  /** Nothing in the round ends the wait: its watch just closed or expired. */
  ghost predicate GoesOn(r: W.Round, asks: bool, terminal: string -> bool) {
    && Watches(r, asks) && !r.fired && !r.over
    && !ComesToMatch(r.events, terminal) && !ComesToNothing(r.events, terminal)
  }

  /** A GET found the object matching, or the drain came to it. */
  ghost predicate Succeeds(r: W.Round, asks: bool, terminal: string -> bool) {
    || (asks && r.get.Found? && r.get.v.Live? && r.get.v.matched)
    || (Watches(r, asks) && ComesToMatch(r.events, terminal))
  }

  /** A GET failed, otherwise than with a NotFound or at the deadline; or no watch could be opened after a
      GET that did not match; or the drain broke, or came to an object that will never match. */
  ghost predicate GivesUp(r: W.Round, asks: bool, terminal: string -> bool) {
    || (asks && r.get.GetError?)
    || (!r.established && (asks ==> r.get.NotFound? || (r.get.Found? && !(r.get.v.Live? && r.get.v.matched))))
    || (Watches(r, asks) && ComesToNothing(r.events, terminal))
  }

  /** The drain ended, and the watchdog had fired. */
  ghost predicate StallsOut(r: W.Round, asks: bool, terminal: string -> bool) {
    Watches(r, asks) && !ComesToMatch(r.events, terminal) && !ComesToNothing(r.events, terminal) && r.fired
  }

  /** The deadline passed in a GET, or with no stall by the end of a drain. */
  ghost predicate RunsOut(r: W.Round, asks: bool, terminal: string -> bool) {
    || (asks && r.get.ContextOver?)
    || (Watches(r, asks) && !ComesToMatch(r.events, terminal) && !ComesToNothing(r.events, terminal) && !r.fired && r.over)
  }

  /** Round `i` is the first to end the wait. */
  ghost predicate EndsIn(rounds: seq<W.Round>, terminal: string -> bool, i: nat) {
    && i < |rounds| && !GoesOn(rounds[i], AsksAgain(rounds, terminal, i), terminal)
    && forall j: nat :: j < i ==> GoesOn(rounds[j], AsksAgain(rounds, terminal, j), terminal)
  }

  lemma {:induction false} CutOrNot(events: seq<W.Event>, terminal: string -> bool) returns (k: nat)
    ensures k <= |events| && (forall i :: 0 <= i < k ==> !W.Stops(events[i], terminal))
    ensures k < |events| ==> W.Stops(events[k], terminal)
    ensures forall n: nat :: CutAt(events, terminal, n) <==> n == k < |events|
    decreases |events|
  {
    k := 0;
    while k < |events| && !W.Stops(events[k], terminal)
      invariant k <= |events| && forall i :: 0 <= i < k ==> !W.Stops(events[i], terminal)
    {
      k := k + 1;
    }
  }

  /** What the drain of a round comes to, by its first event that it cannot go past. */
  lemma DrainMeans(events: seq<W.Event>, rv: Option<nat>, terminal: string -> bool)
    ensures var d := W.Drain(events, rv, terminal);
            && (d.Matched? <==> ComesToMatch(events, terminal))
            && (d.Failed? <==> ComesToNothing(events, terminal))
            && (d.Ended? ==> (d.rv.None? <==> Expires(events, terminal) || (rv.None? && ShowsNoVersion(events))))
  {
    hide W.Drain, CutAt;
    var k := CutOrNot(events, terminal);
    W.DrainEndsAtFirstStop(events, rv, terminal, k);
    NothingSeen(events, rv);
  }

  lemma {:induction false} NothingSeen(events: seq<W.Event>, rv: Option<nat>)
    ensures W.LastSeen(events, rv).None? <==> rv.None? && forall k :: 0 <= k < |events| ==> !events[k].Seen?
    decreases |events|
  {
    if events != [] {
      NothingSeen(events[1..], if events[0].Seen? then Some(events[0].rv) else rv);
      assert forall k :: 0 < k < |events| ==> events[k] == events[1..][k - 1];
    }
  }

  /** What one turn of the loop comes to, by the round's fields. */
  lemma TurnMeans(r: W.Round, rv: Option<nat>, terminal: string -> bool)
    ensures var v := W.Turn(r, rv, terminal).0;
            && (v == W.Pending <==> GoesOn(r, rv.None?, terminal))
            && (v == W.Satisfied <==> Succeeds(r, rv.None?, terminal))
            && (v == W.Unavailable <==> GivesUp(r, rv.None?, terminal))
            && (v == W.Stalled <==> StallsOut(r, rv.None?, terminal))
            && (v == W.DeadlineOver <==> RunsOut(r, rv.None?, terminal))
    ensures W.Turn(r, rv, terminal).0 == W.Pending ==>
              (W.Turn(r, rv, terminal).1.None? <==>
                 Expires(r.events, terminal) || (rv.None? && r.get.NotFound? && ShowsNoVersion(r.events)))
  {
    hide W.Drain, CutAt, Expires, ComesToMatch, ComesToNothing, ShowsNoVersion;
    var (sync, from) := W.Sync(r, rv);
    DrainMeans(r.events, from, terminal);
    CutsAreExclusive(r.events, terminal);
  }

  lemma CutsAreExclusive(events: seq<W.Event>, terminal: string -> bool)
    ensures !(ComesToMatch(events, terminal) && ComesToNothing(events, terminal))
  {
  }

  /** While the wait goes on the loop holds no version exactly if it has to ask. */
  lemma {:induction false} HoldsUnlessAsking(rounds: seq<W.Round>, terminal: string -> bool, i: nat)
    requires i <= |rounds| && forall j: nat :: j < i ==> GoesOn(rounds[j], AsksAgain(rounds, terminal, j), terminal)
    ensures Reaches(rounds, terminal, i)
    ensures Entering(rounds, terminal, i).None? <==> AsksAgain(rounds, terminal, i)
  {
    hide W.Turn, GoesOn, Expires, ShowsNoVersion;
    if i > 0 {
      HoldsUnlessAsking(rounds, terminal, i - 1);
      TurnMeans(rounds[i - 1], Entering(rounds, terminal, i - 1), terminal);
    }
  }

  ghost predicate AllGoOn(rounds: seq<W.Round>, terminal: string -> bool) {
    forall i: nat :: i < |rounds| ==> GoesOn(rounds[i], AsksAgain(rounds, terminal, i), terminal)
  }

  /** THE WATCH, read off its rounds: it goes on as long as all of them do, and else ends as the first one
      does that ends it. */
  lemma WatchMeans(rounds: seq<W.Round>, terminal: string -> bool)
    ensures W.Watch(rounds, None, terminal).0 == W.Pending <==> AllGoOn(rounds, terminal)
    ensures W.Watch(rounds, None, terminal).0 == W.Satisfied <==>
            exists i: nat :: EndsIn(rounds, terminal, i) && Succeeds(rounds[i], AsksAgain(rounds, terminal, i), terminal)
    ensures W.Watch(rounds, None, terminal).0 == W.Unavailable <==>
            exists i: nat :: EndsIn(rounds, terminal, i) && GivesUp(rounds[i], AsksAgain(rounds, terminal, i), terminal)
    ensures W.Watch(rounds, None, terminal).0 == W.Stalled <==>
            exists i: nat :: EndsIn(rounds, terminal, i) && StallsOut(rounds[i], AsksAgain(rounds, terminal, i), terminal)
    ensures W.Watch(rounds, None, terminal).0 == W.DeadlineOver <==>
            exists i: nat :: EndsIn(rounds, terminal, i) && RunsOut(rounds[i], AsksAgain(rounds, terminal, i), terminal)
  {
    hide W.Turn, W.Watch, GoesOn, Succeeds, GivesUp, StallsOut, RunsOut, AsksAgain, Reaches, Entering;
    var i := FirstEnd(rounds, terminal);
    HoldsUnlessAsking(rounds, terminal, i);
    if i < |rounds| {
      TurnMeans(rounds[i], Entering(rounds, terminal, i), terminal);
      VerdictOfFirst(rounds, terminal, i);
    } else {
      WatchSkips(rounds, terminal, i);
      NothingToWatch(rounds[i..], Entering(rounds, terminal, i), terminal);
    }
  }

  lemma NothingToWatch(rounds: seq<W.Round>, rv: Option<nat>, terminal: string -> bool)
    requires rounds == []
    ensures W.Watch(rounds, rv, terminal).0 == W.Pending
  {
  }

  lemma FirstEnd(rounds: seq<W.Round>, terminal: string -> bool) returns (i: nat)
    ensures i <= |rounds| && forall j: nat :: j < i ==> GoesOn(rounds[j], AsksAgain(rounds, terminal, j), terminal)
    ensures i < |rounds| ==> !GoesOn(rounds[i], AsksAgain(rounds, terminal, i), terminal)
    ensures forall n: nat :: EndsIn(rounds, terminal, n) <==> n == i < |rounds|
  {
    hide GoesOn, AsksAgain;
    i := 0;
    while i < |rounds| && GoesOn(rounds[i], AsksAgain(rounds, terminal, i), terminal)
      invariant i <= |rounds| && forall j: nat :: j < i ==> GoesOn(rounds[j], AsksAgain(rounds, terminal, j), terminal)
    {
      i := i + 1;
    }
  }

  /** runTFXWait. `budgets` counts the contexts opened with the command's timeout, `polls` the runs of
      the poll loop. The wait polls if it is told to, or if the watch gave up and the caller still waits;
      what it reports is what ended the watch or, if it polled, the poll. */
  method RunWait(mode: string, w: World, cfg: P.Config) returns (report: Report, budgets: nat, polls: nat)
    requires P.Monotone(w.turns, w.start)
    ensures mode == "poll" ==> polls == 1 && budgets == 1
    ensures mode != "poll" ==>
              && budgets == 1 + polls && polls <= 1
              && (polls == 1 <==>
                    (!w.callerDone
                     && exists i: nat :: EndsIn(w.rounds, cfg.terminal, i)
                                         && GivesUp(w.rounds[i], AsksAgain(w.rounds, cfg.terminal, i), cfg.terminal)))
    ensures polls == 0 ==>
              && (report == Success <==>
                    exists i: nat :: EndsIn(w.rounds, cfg.terminal, i)
                                     && Succeeds(w.rounds[i], AsksAgain(w.rounds, cfg.terminal, i), cfg.terminal))
              && (report == Stalled <==>
                    exists i: nat :: EndsIn(w.rounds, cfg.terminal, i)
                                     && StallsOut(w.rounds[i], AsksAgain(w.rounds, cfg.terminal, i), cfg.terminal))
              && (report == TimedOut <==>
                    exists i: nat :: EndsIn(w.rounds, cfg.terminal, i)
                                     && RunsOut(w.rounds[i], AsksAgain(w.rounds, cfg.terminal, i), cfg.terminal))
              && (report == Waiting <==> AllGoOn(w.rounds, cfg.terminal))
              && !report.PollFailed?
    ensures polls == 1 ==>
              && (report == Success <==>
                    exists n: nat :: && P.FirstToEnd(cfg, w.turns, w.start, n)
                                     && w.turns[n].outcome.Got? && w.turns[n].outcome.matched)
              && (report == Waiting <==> forall n: nat :: n < |w.turns| ==> !P.EndsPoll(cfg, w.turns, w.start, n))
              && (forall v :: report == PollFailed(v) ==> v in {P.Unresolvable, P.Terminal, P.Stuck})
              && (forall v :: v in {P.Unresolvable, P.Terminal, P.Stuck} ==>
                    (report == PollFailed(v) <==>
                       exists n: nat :: P.FirstToEnd(cfg, w.turns, w.start, n) && P.VerdictAt(cfg, w.turns, w.start, n) == v))
              && report != Stalled && report != Cancelled
    ensures report == Success ==> SomeObjectMatched(w)
  {
    hide P.VerdictAt, P.Monotone, P.FirstToEnd, P.EndsPoll, W.Watch;
    hide EndsIn, AsksAgain, GivesUp, Succeeds, StallsOut, RunsOut, AllGoOn;
    if mode == "poll" {
      report := Poll(w, cfg);
      return report, 1, 1;
    }
    var v, _ := W.RunWatch(w.rounds, cfg.terminal);
    W.VerdictsAreGrounded(w.rounds, None, cfg.terminal);
    WatchMeans(w.rounds, cfg.terminal);
    match v {
      case Satisfied => return Success, 1, 0;
      case Stalled => return Stalled, 1, 0;
      case DeadlineOver => return TimedOut, 1, 0;
      case Pending => return Waiting, 1, 0;
      case Unavailable =>
        if w.callerDone {
          return Cancelled, 1, 0;
        }
        report := Poll(w, cfg);
        return report, 2, 1;
    }
  }

  method Poll(w: World, cfg: P.Config) returns (report: Report)
    requires P.Monotone(w.turns, w.start)
    ensures report == Success <==>
            exists n: nat :: && P.FirstToEnd(cfg, w.turns, w.start, n)
                             && w.turns[n].outcome.Got? && w.turns[n].outcome.matched
    ensures report == Waiting <==> forall n: nat :: n < |w.turns| ==> !P.EndsPoll(cfg, w.turns, w.start, n)
    ensures forall v :: report == PollFailed(v) ==> v in {P.Unresolvable, P.Terminal, P.Stuck}
    ensures forall v :: v in {P.Unresolvable, P.Terminal, P.Stuck} ==>
              (report == PollFailed(v) <==>
                 exists n: nat :: P.FirstToEnd(cfg, w.turns, w.start, n) && P.VerdictAt(cfg, w.turns, w.start, n) == v)
    ensures report != Stalled && report != Cancelled
    ensures report == Success ==> SomeObjectMatched(w)
  {
    hide P.VerdictAt, P.EndsPoll, P.Monotone;
    var v, used := P.RunPoll(cfg, w.start, w.turns);
    report := OfPoll(v);
  }

  // ── When are a stall and the deadline reported as such? ───────────────────

  /** Where the loop was when its watch context ended. */
  datatype Place = InGet | OpeningWatch | Draining

  /** The watch context ends in round `r` at this place, cancelled by the watchdog (`r.fired`) or at the
      wait's own deadline. A GET then reports the context over while the caller's is not; a watch
      request fails; a drain ends. */
  predicate CutShort(r: W.Round, rv: Option<nat>, terminal: string -> bool, at: Place) {
    && r.over
    && match at
       case InGet => rv.None? && r.get.ContextOver?
       case OpeningWatch => W.Sync(r, rv).0 == W.Pending && !r.established
       case Draining => W.Sync(r, rv).0 == W.Pending && r.established
                        && W.Drain(r.events, W.Sync(r, rv).1, terminal).Ended?
  }

  /** A stall that the watchdog found is reported as a stall exactly if its cancellation reaches the
      loop while it drains a watch. In a GET it is reported as a timeout; while a watch is opened it
      is taken for an unavailable watch, and the poll starts the wait again on a fresh budget. */
  lemma StallIsReportedIff(w: World, terminal: string -> bool, i: nat, at: Place)
    requires i < |w.rounds| && Reaches(w.rounds, terminal, i) && w.rounds[i].fired
    requires CutShort(w.rounds[i], Entering(w.rounds, terminal, i), terminal, at)
    ensures W.Watch(w.rounds, None, terminal).0 == W.Stalled <==> at == Draining
    ensures W.Watch(w.rounds, None, terminal).0 == W.DeadlineOver <==> at == InGet
    ensures FallsBack(w, terminal) <==> at == OpeningWatch && !w.callerDone
  {
    hide W.Drain, W.Watch;
    VerdictOfFirst(w.rounds, terminal, i);
  }

  /** The wait's own deadline is reported as a timeout exactly if it does not pass while a watch is being
      opened. There it is taken for an unavailable watch too, and the wait goes on, by polling, for a
      second full timeout. */
  lemma DeadlineIsReportedIff(w: World, terminal: string -> bool, i: nat, at: Place)
    requires i < |w.rounds| && Reaches(w.rounds, terminal, i) && !w.rounds[i].fired
    requires CutShort(w.rounds[i], Entering(w.rounds, terminal, i), terminal, at)
    ensures W.Watch(w.rounds, None, terminal).0 == W.DeadlineOver <==> at != OpeningWatch
    ensures FallsBack(w, terminal) <==> at == OpeningWatch && !w.callerDone
  {
    hide W.Drain, W.Watch;
    VerdictOfFirst(w.rounds, terminal, i);
  }

  /** The watch's own verdict that an object cannot become ready is not final: the wait falls back to
      the poll, unlike a stall. */
  lemma TerminalDiagnosisFallsBack(w: World, terminal: string -> bool, i: nat, k: nat)
    requires i < |w.rounds| && Reaches(w.rounds, terminal, i) && !w.callerDone
    requires var r := w.rounds[i];
             && W.Sync(r, Entering(w.rounds, terminal, i)).0 == W.Pending && r.established
             && k < |r.events| && (forall j :: 0 <= j < k ==> !W.Stops(r.events[j], terminal))
             && r.events[k].Seen? && r.events[k].v.Live? && !r.events[k].v.matched && terminal(r.events[k].v.desc)
    ensures FallsBack(w, terminal)
  {
    hide W.Drain, W.Watch;
    var r := w.rounds[i];
    W.DrainEndsAtFirstStop(r.events, W.Sync(r, Entering(w.rounds, terminal, i)).1, terminal, k);
    VerdictOfFirst(w.rounds, terminal, i);
  }
}
