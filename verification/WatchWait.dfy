/** The event-driven strategy of `tfx wait` (`internal/cli/tfx_wait.go`, runTFXWaitWatch and
    tfxConsumeWatch), against a server whose history of the object only grows. */
module WatchWait {
  import opened Wrappers

  /** The object at one resource version: present, with what the matcher makes of it, or deleted. */
  datatype Version = Live(matched: bool, desc: string) | Gone

  predicate Matches(v: Version) {
    v.Live? && v.matched
  }

  /** What the watch stream delivers. `Seen` is an Added, Modified or Deleted event for the object;
      `Foreign` one for some other object; `Expired` an error event that says Expired or Gone. */
  datatype Event = Seen(rv: nat, v: Version) | Foreign | Expired | Broken

  // ── Draining one watch ────────────────────────────────────────────────────

  datatype Drained = Matched | Failed | Ended(rv: Option<nat>)

  /** An event after which the drain stops. */
  predicate Stops(e: Event, terminal: string -> bool) {
    match e
    case Seen(_, v) => v.Live? && (v.matched || terminal(v.desc))
    case Foreign => false
    case _ => true
  }

  function Drain(events: seq<Event>, rv: Option<nat>, terminal: string -> bool): Drained {
    if events == [] then Ended(rv)
    else
      match events[0]
      case Foreign => Drain(events[1..], rv, terminal)
      case Expired => Ended(None)
      case Broken => Failed
      case Seen(r, v) =>
        if Matches(v) then Matched
        else if v.Live? && terminal(v.desc) then Failed
        else Drain(events[1..], Some(r), terminal)
  }

  /** tfxConsumeWatch. `events` is what the channel yields until it closes or the context fires. */
  method ConsumeWatch(events: seq<Event>, rv0: Option<nat>, terminal: string -> bool)
    returns (done: bool, failed: bool, rv: Option<nat>)
    ensures Drain(events, rv0, terminal) == if done then Matched else if failed then Failed else Ended(rv)
    ensures !(done && failed)
  {
    rv := rv0;
    for i := 0 to |events|
      invariant Drain(events, rv0, terminal) == Drain(events[i..], rv, terminal)
    {
      assert events[i..][1..] == events[i + 1..];
      match events[i] {
        case Broken => return false, true, rv;
        case Expired => return false, false, None;
        case Foreign =>
        case Seen(r, v) =>
          rv := Some(r);
          if v.Live? {
            if v.matched {
              return true, false, rv;
            }
            if terminal(v.desc) {
              return false, true, rv;
            }
          }
      }
    }
    return false, false, rv;
  }

  /** Independently of the loop: the drain ends with its first stopping event, and otherwise stands
      at the last version seen. */
  lemma {:induction false} DrainEndsAtFirstStop(events: seq<Event>, rv: Option<nat>, terminal: string -> bool, k: nat)
    requires k <= |events| && forall i :: 0 <= i < k ==> !Stops(events[i], terminal)
    requires k < |events| ==> Stops(events[k], terminal)
    ensures Drain(events, rv, terminal) ==
            if k == |events| then Ended(LastSeen(events, rv))
            else match events[k]
                 case Expired => Ended(None)
                 case Seen(_, v) => if Matches(v) then Matched else Failed
                 case _ => Failed
  {
    if k > 0 {
      var rest := events[1..];
      assert forall i :: 0 <= i < k - 1 ==> rest[i] == events[i + 1];
      DrainEndsAtFirstStop(rest, if events[0].Seen? then Some(events[0].rv) else rv, terminal, k - 1);
    }
  }

  function LastSeen(events: seq<Event>, rv: Option<nat>): Option<nat> {
    if events == [] then rv
    else LastSeen(events[1..], if events[0].Seen? then Some(events[0].rv) else rv)
  }

  // ── The watch loop ────────────────────────────────────────────────────────

  datatype GetReply = Found(rv: nat, v: Version) | NotFound | ContextOver | GetError

  /** One turn of the loop as the world answers it: the GET (asked only without a resource version),
      whether a watch could be opened, what it delivered, and, when it ended, whether the stall
      watchdog had fired and whether the watch context was over. */
  datatype Round = Round(get: GetReply, established: bool, events: seq<Event>, fired: bool, over: bool)

  datatype Verdict = Satisfied | Stalled | DeadlineOver | Unavailable | Pending

  /** The resource version the watch of a round starts from, or the verdict its GET already is. */
  function Sync(r: Round, rv: Option<nat>): (Verdict, Option<nat>) {
    if rv.Some? then (Pending, rv)
    else
      match r.get
      case Found(n, v) => if Matches(v) then (Satisfied, rv) else (Pending, Some(n))
      case NotFound => (Pending, None)
      case ContextOver => (DeadlineOver, rv)
      case GetError => (Unavailable, rv)
  }

  function Turn(r: Round, rv: Option<nat>, terminal: string -> bool): (Verdict, Option<nat>) {
    var (sync, from) := Sync(r, rv);
    if sync != Pending then (sync, from)
    else if !r.established then (Unavailable, from)
    else
      match Drain(r.events, from, terminal)
      case Matched => (Satisfied, from)
      case Failed => (Unavailable, from)
      case Ended(next) =>
        if r.fired then (Stalled, next)
        else if r.over then (DeadlineOver, next)
        else (Pending, next)
  }

  /** The loop over the rounds so far, from resource version `rv`. */
  function Watch(rounds: seq<Round>, rv: Option<nat>, terminal: string -> bool): (Verdict, Option<nat>) {
    if rounds == [] then (Pending, rv)
    else
      var (v, next) := Turn(rounds[0], rv, terminal);
      if v != Pending then (v, next) else Watch(rounds[1..], next, terminal)
  }

  /** runTFXWaitWatch. `Pending` means the rounds given so far did not end the wait. */
  method RunWatch(rounds: seq<Round>, terminal: string -> bool) returns (verdict: Verdict, rv: Option<nat>)
    ensures (verdict, rv) == Watch(rounds, None, terminal)
  {
    hide Drain;
    rv := None;
    for i := 0 to |rounds|
      invariant Watch(rounds, None, terminal) == Watch(rounds[i..], rv, terminal)
    {
      var r := rounds[i];
      assert rounds[i..][0] == r && rounds[i..][1..] == rounds[i + 1..];
      if rv == None {
        match r.get {
          case Found(n, v) =>
            if Matches(v) { return Satisfied, rv; }
            rv := Some(n);
          case NotFound =>
          case ContextOver => return DeadlineOver, rv;
          case GetError => return Unavailable, rv;
        }
      }
      if !r.established { return Unavailable, rv; }
      var done, failed, next := ConsumeWatch(r.events, rv, terminal);
      if done { return Satisfied, rv; }
      if failed { return Unavailable, rv; }
      rv := next;
      if r.fired { return Stalled, rv; }
      if r.over { return DeadlineOver, rv; }
    }
    return Pending, rv;
  }

  // ── The server ────────────────────────────────────────────────────────────

  /** The events of one watch carry consecutive versions of the history, from `next` on. */
  ghost predicate Streams(hist: seq<Version>, events: seq<Event>, next: nat) {
    if events == [] then true
    else if events[0].Seen? then
      events[0].rv == next < |hist| && events[0].v == hist[next] && Streams(hist, events[1..], next + 1)
    else Streams(hist, events[1..], next)
  }

  /** A watch from version `r` delivers what follows `r`. A watch from no version starts with the
      object's state when it opens, or its next change: some version not before `now`. */
  ghost predicate StreamsFrom(hist: seq<Version>, events: seq<Event>, from: Option<nat>, now: nat) {
    match from
    case Some(r) => Streams(hist, events, r + 1)
    case None => exists s :: now <= s && Streams(hist, events, s)
  }

  /** A GET answers with the newest of the first `now` versions. */
  ghost predicate Answers(hist: seq<Version>, get: GetReply, now: nat) {
    && now <= |hist|
    && (get.Found? ==> 0 < now && get.rv == now - 1 && get.v == hist[now - 1] && get.v.Live?)
  }

  /** The rounds are answers a server with this history gives; `clock[i]` is how much of the history
      existed at round `i`. */
  ghost predicate Serves(hist: seq<Version>, rounds: seq<Round>, clock: seq<nat>, rv: Option<nat>, terminal: string -> bool)
    requires |clock| == |rounds|
  {
    if rounds == [] then true
    else
      var (sync, from) := Sync(rounds[0], rv);
      var (v, next) := Turn(rounds[0], rv, terminal);
      && (rv.None? ==> Answers(hist, rounds[0].get, clock[0]))
      && (sync == Pending && rounds[0].established ==> StreamsFrom(hist, rounds[0].events, from, clock[0]))
      && (v == Pending ==> Serves(hist, rounds[1..], clock[1..], next, terminal))
  }

  // ── What is looked at ─────────────────────────────────────────────────────

  /** The drain looks at version `k`: it is delivered no later than the event that ends the drain. */
  predicate DrainLooks(events: seq<Event>, terminal: string -> bool, k: nat) {
    && events != []
    && ((events[0].Seen? && events[0].rv == k) || (!Stops(events[0], terminal) && DrainLooks(events[1..], terminal, k)))
  }

  /** The version the drain looked at last; `high` if it looked at none. */
  function DrainHigh(events: seq<Event>, high: int, terminal: string -> bool): int {
    if events == [] then high
    else
      var h := if events[0].Seen? then events[0].rv else high;
      if Stops(events[0], terminal) then h else DrainHigh(events[1..], h, terminal)
  }

  function FirstDelivered(events: seq<Event>): Option<nat> {
    if events == [] || events[0].Expired? || events[0].Broken? then None
    else if events[0].Seen? then Some(events[0].rv)
    else FirstDelivered(events[1..])
  }

  /** A round looks at what its GET returns, if it asks for one, and at what its drain looks at. */
  predicate TurnLooks(r: Round, rv: Option<nat>, terminal: string -> bool, k: nat) {
    || (rv.None? && r.get.Found? && r.get.rv == k)
    || (Sync(r, rv).0 == Pending && r.established && DrainLooks(r.events, terminal, k))
  }

  function TurnHigh(r: Round, rv: Option<nat>, terminal: string -> bool, high: int): int {
    var h := if rv.None? && r.get.Found? then r.get.rv else high;
    if Sync(r, rv).0 == Pending && r.established then DrainHigh(r.events, h, terminal) else h
  }

  /** The version with which a round without a resource version starts over: what its GET returns or,
      after a NotFound, what its watch delivers first. */
  function Obtained(r: Round, rv: Option<nat>): Option<nat> {
    if rv.Some? then None
    else if r.get.Found? then Some(r.get.rv)
    else if r.get.NotFound? && r.established then FirstDelivered(r.events)
    else None
  }

  /** Some round of the run looks at version `k`. */
  predicate Looked(rounds: seq<Round>, rv: Option<nat>, terminal: string -> bool, k: nat) {
    && rounds != []
    && (TurnLooks(rounds[0], rv, terminal, k)
        || (Turn(rounds[0], rv, terminal).0 == Pending && Looked(rounds[1..], Turn(rounds[0], rv, terminal).1, terminal, k)))
  }

  /** Where the range that ends at the held version began: it stays while a version is held, and is
      what was obtained when one had to be obtained again. */
  function Anchor(rounds: seq<Round>, rv: Option<nat>, terminal: string -> bool, a: nat): nat {
    if rounds == [] then a
    else
      var o := Obtained(rounds[0], rv);
      var (v, next) := Turn(rounds[0], rv, terminal);
      var a' := if o.Some? then o.value else a;
      if v != Pending then a' else Anchor(rounds[1..], next, terminal, a')
  }

  /** The wait goes on, or ends with the object it waited for not having been seen. */
  predicate Unmet(v: Verdict) {
    v in {Pending, Stalled, DeadlineOver}
  }

  /** The history reaches up to `hi`, and no version from `lo` to `hi` matches. */
  ghost predicate Unmatched(hist: seq<Version>, lo: nat, hi: int) {
    hi < |hist| && forall i :: lo <= i <= hi ==> !Matches(hist[i])
  }

  ghost predicate Covered(hist: seq<Version>, anchor: nat, rv: nat) {
    anchor <= rv && Unmatched(hist, anchor, rv)
  }

  lemma {:induction false} DrainHighFrom(events: seq<Event>, high: int, other: int, terminal: string -> bool)
    ensures DrainHigh(events, high, terminal) ==
            if FirstDelivered(events).Some? then DrainHigh(events, other, terminal) else high
    decreases |events|
  {
    if events != [] && events[0].Foreign? {
      DrainHighFrom(events[1..], high, other, terminal);
    }
  }

  /** A drain looks at consecutive versions, from the next one on, and stands at the last of them. */
  lemma {:induction false} DrainWalks(hist: seq<Version>, events: seq<Event>, from: Option<nat>, next: nat, terminal: string -> bool)
    requires Streams(hist, events, next) && (from.Some? ==> next == from.value + 1)
    ensures var h := DrainHigh(events, next - 1, terminal);
            && next - 1 <= h
            && (forall k: nat :: DrainLooks(events, terminal, k) <==> next <= k <= h)
            && FirstDelivered(events) == if next <= h then Some(next) else None
    ensures var h, d := DrainHigh(events, next - 1, terminal), Drain(events, from, terminal);
            && (d.Ended? && d.rv.Some? ==> d.rv.value == h && (from.Some? || next <= h))
            && (!d.Matched? && next <= h ==> Unmatched(hist, next, h))
            && (d.Matched? ==> next <= h < |hist| && Matches(hist[h]))
    decreases |events|
  {
    if events != [] {
      match events[0]
      case Foreign => DrainWalks(hist, events[1..], from, next, terminal);
      case Seen(n, v) =>
        if !Stops(events[0], terminal) {
          DrainWalks(hist, events[1..], Some(n), next + 1, terminal);
        }
      case _ =>
    }
  }

  /** One round of a served run looks at consecutive versions: from the one after the held version, or
      from the one it obtains; and holds the last of them, or none, when it goes on or ends unmet. */
  lemma TurnWalks(hist: seq<Version>, r: Round, now: nat, rv: Option<nat>, terminal: string -> bool, high: int)
    returns (low: nat)
    requires -1 <= high && (rv.Some? ==> rv.value == high)
    requires rv.None? ==> Answers(hist, r.get, now)
    requires var (sync, from) := Sync(r, rv);
             sync == Pending && r.established ==> StreamsFrom(hist, r.events, from, now)
    ensures forall k: nat :: TurnLooks(r, rv, terminal, k) <==> low <= k <= TurnHigh(r, rv, terminal, high)
    ensures var o := Obtained(r, rv);
            if o.Some? then low == o.value && now - 1 <= low <= TurnHigh(r, rv, terminal, high)
            else low == high + 1 <= TurnHigh(r, rv, terminal, high) + 1
    ensures var (v, next) := Turn(r, rv, terminal);
            var h := TurnHigh(r, rv, terminal, high);
            && (Unmet(v) && next.Some? ==> next.value == h && (rv.Some? || Obtained(r, rv).Some?))
            && (v != Satisfied && low <= h ==> Unmatched(hist, low, h))
            && (v == Satisfied ==> low <= h < |hist| && Matches(hist[h]))
  {
    hide Streams, Drain, DrainHigh, DrainLooks, FirstDelivered;
    low := high + 1;
    var (sync, from) := Sync(r, rv);
    if rv.None? && r.get.Found? {
      low := r.get.rv;
    }
    if sync == Pending && r.established {
      match from
      case Some(n) => DrainWalks(hist, r.events, from, n + 1, terminal);
      case None =>
        var s :| now <= s && Streams(hist, r.events, s);
        DrainWalks(hist, r.events, from, s, terminal);
        DrainHighFrom(r.events, high, s - 1, terminal);
        if FirstDelivered(r.events).Some? {
          low := s;
        }
    }
  }

  /** WATCH CONTINUITY, over every run against every history, expiries included: whenever the loop holds
      a resource version, and when it ends with one in a stall or at its deadline, every version from the
      one it last had to obtain up to that one was looked at, and none of them matched. */
  lemma {:induction false} WatchIsContinuous(hist: seq<Version>, rounds: seq<Round>, clock: seq<nat>,
                                             rv: Option<nat>, terminal: string -> bool, a: nat)
    requires |clock| == |rounds| && Serves(hist, rounds, clock, rv, terminal)
    requires rv.Some? ==> Covered(hist, a, rv.value)
    ensures var (v, last) := Watch(rounds, rv, terminal);
            Unmet(v) && last.Some? ==>
              && Covered(hist, Anchor(rounds, rv, terminal, a), last.value)
              && forall k :: Anchor(rounds, rv, terminal, a) <= k <= last.value ==>
                               Looked(rounds, rv, terminal, k) || (rv.Some? && a <= k <= rv.value)
    decreases |rounds|
  {
    hide Turn, TurnLooks, TurnHigh, Obtained, Sync, Answers, StreamsFrom;
    if rounds != [] {
      ServedTurn(hist, rounds, clock, rv, terminal);
      var low := TurnWalks(hist, rounds[0], clock[0], rv, terminal, if rv.Some? then rv.value else -1);
      var (v, next) := Turn(rounds[0], rv, terminal);
      if v == Pending {
        var o := Obtained(rounds[0], rv);
        WatchIsContinuous(hist, rounds[1..], clock[1..], next, terminal, if o.Some? then o.value else a);
      }
    }
  }

  lemma ServedTurn(hist: seq<Version>, rounds: seq<Round>, clock: seq<nat>, rv: Option<nat>, terminal: string -> bool)
    requires |clock| == |rounds| > 0 && Serves(hist, rounds, clock, rv, terminal)
    ensures var (sync, from) := Sync(rounds[0], rv);
            var (v, next) := Turn(rounds[0], rv, terminal);
            && (rv.None? ==> Answers(hist, rounds[0].get, clock[0]))
            && (sync == Pending && rounds[0].established ==> StreamsFrom(hist, rounds[0].events, from, clock[0]))
            && (v == Pending ==> Serves(hist, rounds[1..], clock[1..], next, terminal))
    ensures rv.Some? ==> Obtained(rounds[0], rv).None?
  {
  }

  // ── What is passed over ───────────────────────────────────────────────────

  /** Version `k` lies strictly between the last version looked at and the one with which a round that
      held no version, because of an Expired or a NotFound, starts over. `high` is the last version looked
      at before these rounds; before the first GET, the newest one there was. */
  predicate InGap(rounds: seq<Round>, rv: Option<nat>, terminal: string -> bool, high: int, k: nat) {
    && rounds != []
    && ((Obtained(rounds[0], rv).Some? && high < k < Obtained(rounds[0], rv).value)
        || (Turn(rounds[0], rv, terminal).0 == Pending
            && InGap(rounds[1..], Turn(rounds[0], rv, terminal).1, terminal, TurnHigh(rounds[0], rv, terminal, high), k)))
  }

  /** A GET never answers from the past: by the time of each round the versions looked at so far exist. */
  predicate Forward(rounds: seq<Round>, clock: seq<nat>, rv: Option<nat>, terminal: string -> bool, high: int)
    requires |clock| == |rounds|
  {
    rounds == [] ||
    (high < clock[0] &&
     (Turn(rounds[0], rv, terminal).0 == Pending ==>
        Forward(rounds[1..], clock[1..], Turn(rounds[0], rv, terminal).1, terminal, TurnHigh(rounds[0], rv, terminal, high))))
  }

  /** Nothing else is passed over: up to the held version, what was not looked at is in a gap. */
  lemma {:induction false} UnseenIsInGap(hist: seq<Version>, rounds: seq<Round>, clock: seq<nat>, rv: Option<nat>,
                                         terminal: string -> bool, high: int, k: nat)
    requires |clock| == |rounds| && Serves(hist, rounds, clock, rv, terminal)
    requires -1 <= high < k && (rv.Some? ==> rv.value == high)
    requires var (v, last) := Watch(rounds, rv, terminal); Unmet(v) && last.Some? && k <= last.value
    ensures Looked(rounds, rv, terminal, k) || InGap(rounds, rv, terminal, high, k)
    decreases |rounds|
  {
    hide Turn, TurnLooks, TurnHigh, Obtained, Sync, Answers, StreamsFrom;
    if rounds != [] {
      ServedTurn(hist, rounds, clock, rv, terminal);
      var low := TurnWalks(hist, rounds[0], clock[0], rv, terminal, high);
      var high' := TurnHigh(rounds[0], rv, terminal, high);
      if high' < k {
        UnseenIsInGap(hist, rounds[1..], clock[1..], Turn(rounds[0], rv, terminal).1, terminal, high', k);
      }
    }
  }

  /** What a run looks at and passes over lies ahead of what it has looked at; and never both. */
  lemma {:induction false} GapIsUnseen(hist: seq<Version>, rounds: seq<Round>, clock: seq<nat>, rv: Option<nat>,
                                       terminal: string -> bool, high: int, k: nat)
    requires |clock| == |rounds| && Serves(hist, rounds, clock, rv, terminal)
    requires -1 <= high && (rv.Some? ==> rv.value == high) && Forward(rounds, clock, rv, terminal, high)
    ensures Looked(rounds, rv, terminal, k) ==> high <= k
    ensures InGap(rounds, rv, terminal, high, k) ==> high < k && !Looked(rounds, rv, terminal, k)
    decreases |rounds|
  {
    hide Turn, TurnLooks, TurnHigh, Obtained, Sync, Answers, StreamsFrom;
    if rounds != [] {
      ServedTurn(hist, rounds, clock, rv, terminal);
      var low := TurnWalks(hist, rounds[0], clock[0], rv, terminal, high);
      if Turn(rounds[0], rv, terminal).0 == Pending {
        GapIsUnseen(hist, rounds[1..], clock[1..], Turn(rounds[0], rv, terminal).1, terminal,
                    TurnHigh(rounds[0], rv, terminal, high), k);
      }
    }
  }

  /** A run succeeds by looking at a matching version, and without success it has looked at none. */
  lemma {:induction false} SatisfiedIsLooked(hist: seq<Version>, rounds: seq<Round>, clock: seq<nat>, rv: Option<nat>,
                                             terminal: string -> bool, high: int)
    requires |clock| == |rounds| && Serves(hist, rounds, clock, rv, terminal)
    requires -1 <= high && (rv.Some? ==> rv.value == high)
    ensures Watch(rounds, rv, terminal).0 == Satisfied ==>
              exists k: nat :: Looked(rounds, rv, terminal, k) && k < |hist| && Matches(hist[k])
    ensures Watch(rounds, rv, terminal).0 != Satisfied ==>
              forall k: nat :: Looked(rounds, rv, terminal, k) ==> k < |hist| && !Matches(hist[k])
    decreases |rounds|
  {
    hide Turn, TurnLooks, TurnHigh, Obtained, Sync, Answers, StreamsFrom;
    if rounds != [] {
      ServedTurn(hist, rounds, clock, rv, terminal);
      var low := TurnWalks(hist, rounds[0], clock[0], rv, terminal, high);
      var (v, next) := Turn(rounds[0], rv, terminal);
      var h := TurnHigh(rounds[0], rv, terminal, high);
      if v == Pending {
        SatisfiedIsLooked(hist, rounds[1..], clock[1..], next, terminal, h);
      } else if v == Satisfied {
        assert TurnLooks(rounds[0], rv, terminal, h);
        assert Looked(rounds, rv, terminal, h);
      }
    }
  }

  /** SUCCESS, exactly: against every history the watch is satisfied if and only if some version it looked
      at matches, whatever ended it. */
  lemma SatisfiedIff(hist: seq<Version>, rounds: seq<Round>, clock: seq<nat>, terminal: string -> bool)
    requires |clock| == |rounds| && Serves(hist, rounds, clock, None, terminal)
    ensures Watch(rounds, None, terminal).0 == Satisfied <==>
            exists k: nat :: Looked(rounds, None, terminal, k) && k < |hist| && Matches(hist[k])
  {
    hide Watch, Looked, Serves;
    SatisfiedIsLooked(hist, rounds, clock, None, terminal, -1);
  }

  /** WHAT IS PASSED OVER, exactly. Of the versions since the wait began, up to the one it holds, a run
      that goes on or ends unmet has not looked at precisely those strictly between the version an Expired or a NotFound left it with
      and the one it started over from. A matching version can only be among them. */
  lemma PassedOverIff(hist: seq<Version>, rounds: seq<Round>, clock: seq<nat>, terminal: string -> bool, k: nat)
    requires |clock| == |rounds| > 0 && Serves(hist, rounds, clock, None, terminal)
    requires Forward(rounds, clock, None, terminal, clock[0] as int - 1)
    requires var (v, last) := Watch(rounds, None, terminal); Unmet(v) && last.Some? && clock[0] <= k <= last.value
    ensures !Looked(rounds, None, terminal, k) <==> InGap(rounds, None, terminal, clock[0] as int - 1, k)
    ensures k < |hist| && Matches(hist[k]) ==> InGap(rounds, None, terminal, clock[0] as int - 1, k)
  {
    hide Looked, InGap, Serves, Forward, Watch;
    UnseenIsInGap(hist, rounds, clock, None, terminal, clock[0] as int - 1, k);
    GapIsUnseen(hist, rounds, clock, None, terminal, clock[0] as int - 1, k);
    SatisfiedIsLooked(hist, rounds, clock, None, terminal, -1);
  }

  /** An Expired event always costs the resource version, so the next round begins with a GET,
      which sees the object as it is then, even if it stopped changing. */
  lemma ExpiredForcesGet(r: Round, rv: Option<nat>, terminal: string -> bool, k: nat, again: Round)
    requires Sync(r, rv).0 == Pending && r.established && !r.fired && !r.over
    requires k < |r.events| && r.events[k].Expired? && forall i :: 0 <= i < k ==> !Stops(r.events[i], terminal)
    requires again.get.Found?
    ensures Turn(r, rv, terminal) == (Pending, None)
    ensures if Matches(again.get.v) then Watch([r, again], rv, terminal).0 == Satisfied
            else Sync(again, Turn(r, rv, terminal).1) == (Pending, Some(again.get.rv))
  {
    DrainEndsAtFirstStop(r.events, Sync(r, rv).1, terminal, k);
    assert [r, again][1..] == [again];
  }

  /** After a NotFound, a matching version can come and go before the watch delivers its first event. */
  lemma GapAfterNotFound(terminal: string -> bool)
    requires !terminal("late")
    ensures var hist := [Live(true, "early"), Live(false, "late")];
            var rounds := [Round(NotFound, true, [Seen(1, hist[1])], false, false)];
            && Serves(hist, rounds, [0], None, terminal) && Watch(rounds, None, terminal) == (Pending, Some(1))
            && Matches(hist[0]) && !Looked(rounds, None, terminal, 0)
  {
    var hist := [Live(true, "early"), Live(false, "late")];
    var events := [Seen(1, hist[1])];
    var r := Round(NotFound, true, events, false, false);
    assert events[1..] == [];
    assert Streams(hist, events[1..], 2);
    assert Streams(hist, events, 1);
    assert StreamsFrom(hist, events, None, 0);
    assert Drain(events[1..], Some(1), terminal) == Ended(Some(1));
    assert Turn(r, None, terminal) == (Pending, Some(1));
    assert [r][1..] == [] && [0 as nat][1..] == [];
    assert !DrainLooks(events[1..], terminal, 0) && !DrainLooks(events, terminal, 0);
  }

  /** After an Expired, a matching version can come and go before the fresh GET. */
  lemma GapAfterExpired(terminal: string -> bool)
    ensures var hist := [Live(false, "a"), Live(true, "b"), Live(false, "c")];
            var rounds := [Round(Found(0, hist[0]), true, [Expired], false, false),
                           Round(Found(2, hist[2]), true, [], false, false)];
            && Serves(hist, rounds, [1, 3], None, terminal) && Watch(rounds, None, terminal) == (Pending, Some(2))
            && Matches(hist[1]) && !Looked(rounds, None, terminal, 1) && InGap(rounds, None, terminal, 0, 1)
  {
    var hist := [Live(false, "a"), Live(true, "b"), Live(false, "c")];
    var p, q := Round(Found(0, hist[0]), true, [Expired], false, false), Round(Found(2, hist[2]), true, [], false, false);
    assert Streams(hist, [], 1) && [Expired][1..] == [] && Streams(hist, [Expired], 1);
    assert Streams(hist, [], 3);
    assert Turn(p, None, terminal) == (Pending, None) && Turn(q, None, terminal) == (Pending, Some(2));
    assert [p, q][1..] == [q] && [q][1..] == [];
    var clock: seq<nat> := [1, 3];
    assert clock[1..] == [3] && clock[1..][1..] == [];
    assert Watch([q], None, terminal) == (Pending, Some(2));
    assert Serves(hist, [q], [3], None, terminal);
    assert Obtained(q, None) == Some(2) && TurnHigh(p, None, terminal, 0) == 0;
    assert InGap([q], None, terminal, 0, 1) && !Looked([q], None, terminal, 1);
  }

  // ── What each verdict stands on ───────────────────────────────────────────

  /** Some object that a GET or an event produced satisfied the matcher. */
  ghost predicate Witnessed(rounds: seq<Round>) {
    exists i :: 0 <= i < |rounds| && RoundWitnesses(rounds[i])
  }

  ghost predicate RoundWitnesses(r: Round) {
    (r.get.Found? && Matches(r.get.v)) || (exists j :: 0 <= j < |r.events| && r.events[j].Seen? && Matches(r.events[j].v))
  }

  lemma {:induction false} DrainWitness(events: seq<Event>, rv: Option<nat>, terminal: string -> bool)
    requires Drain(events, rv, terminal).Matched?
    ensures exists j :: 0 <= j < |events| && events[j].Seen? && Matches(events[j].v)
    decreases |events|
  {
    if !(events[0].Seen? && Matches(events[0].v)) {
      DrainWitness(events[1..], if events[0].Seen? then Some(events[0].rv) else rv, terminal);
      var j :| 0 <= j < |events[1..]| && events[1..][j].Seen? && Matches(events[1..][j].v);
      assert events[j + 1] == events[1..][j];
    }
  }

  /** Success needs a matching object; a stall verdict needs the watchdog to have fired by the end
      of some drain. */
  lemma {:induction false} VerdictsAreGrounded(rounds: seq<Round>, rv: Option<nat>, terminal: string -> bool)
    ensures Watch(rounds, rv, terminal).0 == Satisfied ==> Witnessed(rounds)
    ensures Watch(rounds, rv, terminal).0 == Stalled ==> exists i :: 0 <= i < |rounds| && rounds[i].fired && rounds[i].established
    decreases |rounds|
  {
    if rounds != [] {
      var r := rounds[0];
      var (v, next) := Turn(r, rv, terminal);
      if v == Pending {
        VerdictsAreGrounded(rounds[1..], next, terminal);
        if Watch(rounds, rv, terminal).0 == Satisfied {
          var i :| 0 <= i < |rounds[1..]| && RoundWitnesses(rounds[1..][i]);
          assert RoundWitnesses(rounds[i + 1]);
        }
        if Watch(rounds, rv, terminal).0 == Stalled {
          var i :| 0 <= i < |rounds[1..]| && rounds[1..][i].fired && rounds[1..][i].established;
          assert rounds[i + 1].fired;
        }
      } else if v == Satisfied {
        var (sync, from) := Sync(r, rv);
        if sync == Pending {
          DrainWitness(r.events, from, terminal);
        }
        assert RoundWitnesses(r);
      }
    }
  }
}
