/** The GET-poll loop of `tfx wait` (`internal/cli/tfx_wait.go`, runTFXWaitPoll). */
module PollWait {

  /** What one GET told the loop. `matched` and `desc` are what the matcher made of the object;
      an error may be a name-resolution failure, a NotFound, or anything else. */
  datatype Outcome =
    | Got(matched: bool, desc: string)
    | Failed(unresolvable: bool, notFound: bool)

  /** One turn: the GET's outcome, the clock when a change is noted and when the stall is judged,
      and whether the select that follows chose the expired context over the interval. */
  datatype Turn = Turn(outcome: Outcome, noted: nat, judged: nat, expired: bool)

  /** What the loop is told about the resource: whether it is a licence, the stall window, and the
      two diagnoses it consults, which recognise registering states and hopeless scheduler verdicts. */
  datatype Config = Config(isLicense: bool, window: nat, registering: string -> bool, terminal: string -> bool)

  datatype Verdict = Satisfied | Unresolvable | Terminal | Stuck | TimedOut | Waiting

  const DNS_FAIL_FAST_ATTEMPTS := 3

  // ── Specification: when is a turn decisive? ───────────────────────────────

  predicate Succeeded(t: Turn) {
    t.outcome.Got?
  }

  predicate FailedToResolve(t: Turn) {
    t.outcome.Failed? && t.outcome.unresolvable
  }

  /** No successful GET strictly between turns `i` and `n`. */
  ghost predicate NoSuccessBetween(trace: seq<Turn>, i: nat, n: nat)
    requires n <= |trace|
  {
    forall j :: i < j < n ==> !Succeeded(trace[j])
  }

  ghost predicate OneFailureBefore(trace: seq<Turn>, i: nat, n: nat)
    requires n <= |trace|
  {
    i < n && FailedToResolve(trace[i]) && NoSuccessBetween(trace, i, n)
  }

  ghost predicate TwoFailuresBefore(trace: seq<Turn>, i: nat, j: nat, n: nat)
    requires n <= |trace|
  {
    i < j < n && FailedToResolve(trace[i]) && FailedToResolve(trace[j]) && NoSuccessBetween(trace, i, n)
  }

  /** Turn `n` is the third resolution failure (or a later one) since the last successful GET.
      Failures of other kinds in between neither count nor start the count again. */
  ghost predicate ThirdResolutionFailure(trace: seq<Turn>, n: nat)
    requires n < |trace|
  {
    FailedToResolve(trace[n]) && exists i: nat, j: nat :: TwoFailuresBefore(trace, i, j, n)
  }

  /** Every object seen from turn `k` to turn `n` had the description that turn `n` saw. */
  ghost predicate SameDescription(trace: seq<Turn>, k: nat, n: nat)
    requires n < |trace| && Succeeded(trace[n])
  {
    forall j :: k <= j <= n && Succeeded(trace[j]) ==> trace[j].outcome.desc == trace[n].outcome.desc
  }

  /** The description at turn `n` was seen at least the window ago, and nothing else since.
      (The loop starts out holding the empty description, as of its start.) */
  ghost predicate Unchanged(trace: seq<Turn>, start: nat, window: nat, n: nat)
    requires n < |trace| && Succeeded(trace[n])
  {
    || (exists k :: 0 <= k <= n && Succeeded(trace[k]) && SameDescription(trace, k, n)
                    && trace[n].judged >= trace[k].noted + window)
    || (trace[n].outcome.desc == "" && SameDescription(trace, 0, n) && trace[n].judged >= start + window)
  }

  ghost predicate StallDiagnosed(cfg: Config, trace: seq<Turn>, start: nat, n: nat)
    requires n < |trace| && Succeeded(trace[n])
  {
    cfg.isLicense && cfg.registering(trace[n].outcome.desc) && Unchanged(trace, start, cfg.window, n)
  }

  /** The verdict of turn `n`, were the loop to get that far. */
  ghost function VerdictAt(cfg: Config, trace: seq<Turn>, start: nat, n: nat): Verdict
    requires n < |trace|
  {
    var t := trace[n];
    if !Succeeded(t) then
      if ThirdResolutionFailure(trace, n) then Unresolvable
      else if t.expired then TimedOut else Waiting
    else if t.outcome.matched then Satisfied
    else if cfg.terminal(t.outcome.desc) then Terminal
    else if StallDiagnosed(cfg, trace, start, n) then Stuck
    else if t.expired then TimedOut
    else Waiting
  }

  /** The clock never runs backwards (Go compares monotonic readings). */
  ghost predicate Monotone(trace: seq<Turn>, start: nat) {
    && (forall i :: 0 <= i < |trace| ==> start <= trace[i].noted <= trace[i].judged)
    && (forall i, j :: 0 <= i < j < |trace| ==> trace[i].judged <= trace[j].noted)
  }

  // ── The loop ──────────────────────────────────────────────────────────────

  /** Number of resolution failures since the last success among the first `n` turns. */
  function FailuresSince(trace: seq<Turn>, n: nat): nat
    requires n <= |trace|
  {
    if n == 0 || Succeeded(trace[n - 1]) then 0
    else FailuresSince(trace, n - 1) + (if FailedToResolve(trace[n - 1]) then 1 else 0)
  }

  /** Failures since the last success are turns that failed since the last success. */
  lemma {:induction false} FailuresAreTurns(trace: seq<Turn>, n: nat)
    requires n <= |trace|
    ensures FailuresSince(trace, n) >= 1 <==> exists i: nat :: OneFailureBefore(trace, i, n)
    ensures FailuresSince(trace, n) >= 2 <==> exists i: nat, j: nat :: TwoFailuresBefore(trace, i, j, n)
  {
    if n > 0 && !Succeeded(trace[n - 1]) {
      FailuresAreTurns(trace, n - 1);
      FailuresStepUp(trace, n - 1, n);
      FailuresStepDown(trace, n - 1, n);
    }
  }

  /** What held one turn earlier still holds, and a new failure joins an old one. */
  lemma FailuresStepUp(trace: seq<Turn>, m: nat, n: nat)
    requires n == m + 1 <= |trace| && !Succeeded(trace[m])
    ensures (exists i: nat :: OneFailureBefore(trace, i, m)) ==> exists i: nat :: OneFailureBefore(trace, i, n)
    ensures (exists i: nat, j: nat :: TwoFailuresBefore(trace, i, j, m)) ==>
              exists i: nat, j: nat :: TwoFailuresBefore(trace, i, j, n)
    ensures FailedToResolve(trace[m]) ==> OneFailureBefore(trace, m, n)
    ensures FailedToResolve(trace[m]) && (exists i: nat :: OneFailureBefore(trace, i, m)) ==>
              exists i: nat, j: nat :: TwoFailuresBefore(trace, i, j, n)
  {
    if i: nat :| OneFailureBefore(trace, i, m) {
      assert OneFailureBefore(trace, i, n);
      if FailedToResolve(trace[m]) {
        assert TwoFailuresBefore(trace, i, m, n);
      }
    }
    if i: nat, j: nat :| TwoFailuresBefore(trace, i, j, m) {
      assert TwoFailuresBefore(trace, i, j, n);
    }
  }

  /** What holds now held one turn earlier, but for the last turn itself. */
  lemma FailuresStepDown(trace: seq<Turn>, m: nat, n: nat)
    requires n == m + 1 <= |trace|
    ensures (exists i: nat :: OneFailureBefore(trace, i, n)) ==>
              FailedToResolve(trace[m]) || exists i: nat :: OneFailureBefore(trace, i, m)
    ensures (exists i: nat, j: nat :: TwoFailuresBefore(trace, i, j, n)) ==>
              if FailedToResolve(trace[m]) then exists i: nat :: OneFailureBefore(trace, i, m)
              else exists i: nat, j: nat :: TwoFailuresBefore(trace, i, j, m)
  {
    if i: nat :| OneFailureBefore(trace, i, n) {
      assert i == m || OneFailureBefore(trace, i, m);
    }
    if i: nat, j: nat :| TwoFailuresBefore(trace, i, j, n) {
      assert OneFailureBefore(trace, i, m);
      assert j == m || TwoFailuresBefore(trace, i, j, m);
    }
  }

  lemma ThirdFailureIsCounted(trace: seq<Turn>, n: nat)
    requires n < |trace| && FailedToResolve(trace[n])
    ensures ThirdResolutionFailure(trace, n) <==> FailuresSince(trace, n + 1) >= DNS_FAIL_FAST_ATTEMPTS
  {
    hide TwoFailuresBefore, OneFailureBefore;
    FailuresAreTurns(trace, n);
  }

  /** What the loop remembers of the first `n` turns: the last description, and when it was first seen. */
  ghost predicate Remembers(trace: seq<Turn>, start: nat, n: nat, lastDesc: string, lastChanged: nat)
    requires n <= |trace|
  {
    || (lastDesc == "" && lastChanged == start && OnlySaw(trace, 0, n, ""))
    || (exists p: nat, k: nat :: FirstSeen(trace, p, k, n, lastDesc) && trace[k].noted == lastChanged)
  }

  /** Every object seen from turn `k` until before turn `n` had this description. */
  ghost predicate OnlySaw(trace: seq<Turn>, k: nat, n: nat, desc: string)
    requires n <= |trace|
  {
    forall j :: k <= j < n && Succeeded(trace[j]) ==> trace[j].outcome.desc == desc
  }

  /** The current run of this description began at turn `k`: between turns `p` and `k` nothing was seen,
      and before `p` something else was, or nothing at all. */
  ghost predicate FirstSeen(trace: seq<Turn>, p: nat, k: nat, n: nat, desc: string)
    requires n <= |trace|
  {
    && p <= k < n && Succeeded(trace[k]) && OnlySaw(trace, k, n, desc)
    && (forall j :: p <= j < k ==> !Succeeded(trace[j]))
    && (p == 0 ==> desc != "")
    && (p > 0 ==> Succeeded(trace[p - 1]) && trace[p - 1].outcome.desc != desc)
  }

  /** The remembered instant decides the window question: it is the earliest one that could. */
  lemma RememberedDecides(trace: seq<Turn>, start: nat, window: nat, n: nat, lastDesc: string, lastChanged: nat)
    requires n < |trace| && Succeeded(trace[n]) && Monotone(trace, start)
    requires Remembers(trace, start, n + 1, lastDesc, lastChanged)
    ensures lastDesc == trace[n].outcome.desc && lastChanged <= trace[n].judged
    ensures Unchanged(trace, start, window, n) <==> trace[n].judged - lastChanged >= window
  {
    var next := n + 1;
    if p: nat, k: nat :| FirstSeen(trace, p, k, next, lastDesc) && trace[k].noted == lastChanged {
      DecidedByFirst(trace, start, window, n, p, k, lastDesc);
    } else {
      assert SameDescription(trace, 0, n);
      if m: nat :| m <= n && Succeeded(trace[m]) && SameDescription(trace, m, n)
                   && trace[n].judged >= trace[m].noted + window
      {
        assert trace[m].noted >= start;
      }
    }
  }

  lemma DecidedByFirst(trace: seq<Turn>, start: nat, window: nat, n: nat, p: nat, k: nat, desc: string)
    requires n < |trace| && Succeeded(trace[n]) && Monotone(trace, start) && FirstSeen(trace, p, k, n + 1, desc)
    ensures desc == trace[n].outcome.desc && trace[k].noted <= trace[n].judged
    ensures Unchanged(trace, start, window, n) <==> trace[n].judged - trace[k].noted >= window
  {
    assert SameDescription(trace, k, n);
    if m: nat :| m <= n && Succeeded(trace[m]) && SameDescription(trace, m, n)
                 && trace[n].judged >= trace[m].noted + window
    {
      NotEarlier(trace, p, k, n, m, desc);
      assert trace[k].noted <= trace[m].noted;
    }
    if SameDescription(trace, 0, n) {
      NotEarlier(trace, p, k, n, 0, desc);
    }
  }

  /** The description was not there before its first turn. */
  lemma NotEarlier(trace: seq<Turn>, p: nat, k: nat, n: nat, m: nat, desc: string)
    requires n < |trace| && Succeeded(trace[n]) && FirstSeen(trace, p, k, n + 1, desc)
    requires m <= n && SameDescription(trace, m, n)
    ensures m >= p && (Succeeded(trace[m]) ==> m >= k)
  {
    assert trace[n].outcome.desc == desc;
  }

  // ── What ends the poll, read off the turns ────────────────────────────────

  /** Turn `n` ends the poll, if the poll gets that far: a match, a third resolution failure, a hopeless
      or a stuck object, or the deadline. */
  ghost predicate EndsPoll(cfg: Config, trace: seq<Turn>, start: nat, n: nat)
    requires n < |trace|
  {
    var o := trace[n].outcome;
    || trace[n].expired
    || (o.Got? && (o.matched || cfg.terminal(o.desc)))
    || (o.Got? && cfg.isLicense && cfg.registering(o.desc) && Unchanged(trace, start, cfg.window, n))
    || (o.Failed? && o.unresolvable && ThirdResolutionFailure(trace, n))
  }

  ghost predicate FirstToEnd(cfg: Config, trace: seq<Turn>, start: nat, n: nat) {
    n < |trace| && EndsPoll(cfg, trace, start, n) && forall m: nat :: m < n ==> !EndsPoll(cfg, trace, start, m)
  }

  /** What each verdict says of its turn, and that a turn without one lets the poll go on. */
  lemma VerdictsMean(cfg: Config, trace: seq<Turn>, start: nat, n: nat)
    requires n < |trace|
    ensures var o, v := trace[n].outcome, VerdictAt(cfg, trace, start, n);
            var stuck := o.Got? && cfg.isLicense && cfg.registering(o.desc) && Unchanged(trace, start, cfg.window, n);
            && (v != Waiting <==> EndsPoll(cfg, trace, start, n))
            && (v == Satisfied <==> o.Got? && o.matched)
            && (v == Unresolvable <==> o.Failed? && o.unresolvable && ThirdResolutionFailure(trace, n))
            && (v == Terminal <==> o.Got? && !o.matched && cfg.terminal(o.desc))
            && (v == Stuck <==> stuck && !o.matched && !cfg.terminal(o.desc))
  {
    hide Unchanged;
  }

  /** The first verdict is that of the first turn to end the poll. */
  lemma FirstVerdictEnds(cfg: Config, start: nat, trace: seq<Turn>, v: Verdict, used: nat)
    requires used <= |trace| && (v == Waiting ==> used == |trace|)
    requires v != Waiting ==> used > 0 && v == VerdictAt(cfg, trace, start, used - 1)
    requires forall n :: 0 <= n < (if v == Waiting then used else used - 1) ==> VerdictAt(cfg, trace, start, n) == Waiting
    ensures v == Waiting <==> forall n: nat :: n < |trace| ==> !EndsPoll(cfg, trace, start, n)
    ensures v != Waiting ==> forall n: nat :: FirstToEnd(cfg, trace, start, n) <==> n == used - 1
  {
    hide VerdictAt, EndsPoll;
    forall n: nat | n < |trace| ensures VerdictAt(cfg, trace, start, n) != Waiting <==> EndsPoll(cfg, trace, start, n) {
      VerdictsMean(cfg, trace, start, n);
    }
  }

  /** runTFXWaitPoll over the turns the world serves it. It stops at the first turn that ends it, and the
      verdict says why; `used` turns were consumed. */
  method RunPoll(cfg: Config, start: nat, trace: seq<Turn>) returns (v: Verdict, used: nat)
    requires Monotone(trace, start)
    ensures used <= |trace|
    ensures v == Waiting <==> forall n: nat :: n < |trace| ==> !EndsPoll(cfg, trace, start, n)
    ensures v != Waiting ==> used > 0 && FirstToEnd(cfg, trace, start, used - 1)
    ensures v == Satisfied <==>
            exists n: nat :: FirstToEnd(cfg, trace, start, n) && trace[n].outcome.Got? && trace[n].outcome.matched
    ensures v == Unresolvable <==> exists n: nat :: FirstToEnd(cfg, trace, start, n) && ThirdResolutionFailure(trace, n)
    ensures v == Terminal <==>
            exists n: nat :: && FirstToEnd(cfg, trace, start, n) && trace[n].outcome.Got?
                        && !trace[n].outcome.matched && cfg.terminal(trace[n].outcome.desc)
    ensures v == Stuck <==>
            exists n: nat :: && FirstToEnd(cfg, trace, start, n) && trace[n].outcome.Got?
                        && !trace[n].outcome.matched && !cfg.terminal(trace[n].outcome.desc)
                        && cfg.isLicense && cfg.registering(trace[n].outcome.desc) && Unchanged(trace, start, cfg.window, n)
    ensures v == Waiting ==> used == |trace| && forall n :: 0 <= n < |trace| ==> VerdictAt(cfg, trace, start, n) == Waiting
    ensures v != Waiting ==> used > 0 && v == VerdictAt(cfg, trace, start, used - 1)
    ensures v != Waiting ==> forall n :: 0 <= n < used - 1 ==> VerdictAt(cfg, trace, start, n) == Waiting
  {
    hide ThirdResolutionFailure, Unchanged, Remembers, FailuresSince;
    StartsBlank(trace, start);
    var unresolvable := 0;
    var lastDesc, lastChanged := "", start;
    v, used := Waiting, 0;
    while used < |trace|
      invariant used <= |trace| && v == Waiting
      invariant forall n :: 0 <= n < used ==> VerdictAt(cfg, trace, start, n) == Waiting
      invariant unresolvable == FailuresSince(trace, used)
      invariant Remembers(trace, start, used, lastDesc, lastChanged)
    {
      var t := trace[used];
      ghost var n := used;
      used := used + 1;
      CountStep(trace, n);
      match t.outcome {
        case Failed(dns, _) =>
          if dns {
            unresolvable := unresolvable + 1;
            ThirdFailureIsCounted(trace, n);
            if unresolvable >= DNS_FAIL_FAST_ATTEMPTS {
              v := Unresolvable;
              break;
            }
          }
          RemembersFailure(trace, start, n, lastDesc, lastChanged);
        case Got(matched, desc) =>
          unresolvable := 0;
          if matched {
            v := Satisfied;
            break;
          }
          RemembersSuccess(trace, start, n, lastDesc, lastChanged);
          if desc != lastDesc {
            lastDesc, lastChanged := desc, t.noted;
          }
          RememberedDecides(trace, start, cfg.window, n, lastDesc, lastChanged);
          if cfg.terminal(desc) {
            v := Terminal;
            break;
          }
          if cfg.isLicense && cfg.registering(desc) && t.judged - lastChanged >= cfg.window {
            v := Stuck;
            break;
          }
      }
      if t.expired {
        v := TimedOut;
        break;
      }
    }
    FirstVerdictEnds(cfg, start, trace, v, used);
    if v != Waiting {
      VerdictsMean(cfg, trace, start, used - 1);
    }
  }

  lemma StartsBlank(trace: seq<Turn>, start: nat)
    ensures FailuresSince(trace, 0) == 0 && Remembers(trace, start, 0, "", start)
  {
  }

  lemma CountStep(trace: seq<Turn>, n: nat)
    requires n < |trace|
    ensures FailuresSince(trace, n + 1) ==
            if Succeeded(trace[n]) then 0 else FailuresSince(trace, n) + (if FailedToResolve(trace[n]) then 1 else 0)
    ensures !FailedToResolve(trace[n]) ==> !ThirdResolutionFailure(trace, n)
  {
  }

  lemma RemembersFailure(trace: seq<Turn>, start: nat, n: nat, lastDesc: string, lastChanged: nat)
    requires n < |trace| && !Succeeded(trace[n]) && Remembers(trace, start, n, lastDesc, lastChanged)
    ensures Remembers(trace, start, n + 1, lastDesc, lastChanged)
  {
    if p: nat, k: nat :| FirstSeen(trace, p, k, n, lastDesc) && trace[k].noted == lastChanged {
      assert FirstSeen(trace, p, k, n + 1, lastDesc);
    }
  }

  lemma RemembersSuccess(trace: seq<Turn>, start: nat, n: nat, lastDesc: string, lastChanged: nat)
    requires n < |trace| && Succeeded(trace[n]) && Remembers(trace, start, n, lastDesc, lastChanged)
    ensures var t := trace[n];
            if t.outcome.desc != lastDesc then Remembers(trace, start, n + 1, t.outcome.desc, t.noted)
            else Remembers(trace, start, n + 1, lastDesc, lastChanged)
  {
    var desc := trace[n].outcome.desc;
    if desc == lastDesc {
      if p: nat, k: nat :| FirstSeen(trace, p, k, n, lastDesc) && trace[k].noted == lastChanged {
        assert FirstSeen(trace, p, k, n + 1, lastDesc);
      }
    } else {
      var p := LastSuccess(trace, n);
      LastSeenIsRemembered(trace, start, n, lastDesc, lastChanged, p);
      assert FirstSeen(trace, p, n, n + 1, desc);
    }
  }

  /** The object seen last had the remembered description; if none was seen, that is the empty one. */
  lemma LastSeenIsRemembered(trace: seq<Turn>, start: nat, n: nat, lastDesc: string, lastChanged: nat, p: nat)
    requires n <= |trace| && p == LastSuccess(trace, n) && Remembers(trace, start, n, lastDesc, lastChanged)
    ensures if p == 0 then lastDesc == "" else trace[p - 1].outcome.desc == lastDesc
  {
    if q: nat, k: nat :| FirstSeen(trace, q, k, n, lastDesc) && trace[k].noted == lastChanged {
      assert k < p;
    }
  }

  /** One past the last successful turn before `n`, or 0. */
  ghost function LastSuccess(trace: seq<Turn>, n: nat): (p: nat)
    requires n <= |trace|
    ensures p <= n && (forall j :: p <= j < n ==> !Succeeded(trace[j]))
    ensures p > 0 ==> Succeeded(trace[p - 1])
  {
    if n == 0 || Succeeded(trace[n - 1]) then n else LastSuccess(trace, n - 1)
  }

  /** The failures need not be consecutive: a NotFound or any other error in between does not
      start the count again, only a successful GET does. */
  lemma FailuresNeedNotBeConsecutive(cfg: Config)
    ensures var dns, gone := Turn(Failed(true, false), 0, 0, false), Turn(Failed(false, true), 0, 0, false);
            && VerdictAt(cfg, [dns, gone, dns, gone, dns], 0, 4) == Unresolvable
            && forall ok: Turn :: Succeeded(ok) ==> VerdictAt(cfg, [dns, dns, ok, dns], 0, 3) != Unresolvable
  {
    var dns, gone := Turn(Failed(true, false), 0, 0, false), Turn(Failed(false, true), 0, 0, false);
    var trace := [dns, gone, dns, gone, dns];
    assert TwoFailuresBefore(trace, 0, 2, 4);
    assert ThirdResolutionFailure(trace, 4);
    forall ok: Turn | Succeeded(ok)
      ensures VerdictAt(cfg, [dns, dns, ok, dns], 0, 3) != Unresolvable
    {
      var trace := [dns, dns, ok, dns];
      assert Succeeded(trace[2]) && !FailedToResolve(trace[2]);
      if i: nat, j: nat :| TwoFailuresBefore(trace, i, j, 3) {
        assert false;
      }
    }
  }
}
