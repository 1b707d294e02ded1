/** Replacing the running binary (`internal/cli/self.go`): staging, the unix rename, and the
    move-aside dance for Windows with its rollback. */
module BinarySwap {
  import opened Wrappers

  /** A complete binary, told apart by its version. */
  type Binary = nat

  datatype Staged = NotStaged | Partial | Whole(binary: Binary)

  /** The three paths the swap touches. */
  datatype Files = Files(target: Option<Binary>, sidecar: Option<Binary>, staged: Staged)

  /** Which steps the operating system refuses. Renaming a file that is not there is refused anyway. */
  datatype Faults = Faults(
    create: bool, write: bool, clearOld: bool, moveAside: bool, install: bool, rollback: bool, dropOld: bool, unstage: bool)

  datatype Result = Installed | Failed | Stranded

  /** Some complete binary is at target or target.old. */
  predicate Recoverable(f: Files) {
    f.target.Some? || f.sidecar.Some?
  }

  predicate OnlyThese(f: Files, a: Binary, b: Binary) {
    && (f.target.Some? ==> f.target.value in {a, b})
    && (f.sidecar.Some? ==> f.sidecar.value in {a, b})
  }

  class Installation {
    var files: Files
    /** Every state the paths have gone through, the present one last. */
    ghost var history: seq<Files>

    ghost predicate Valid()
      reads this
    {
      history != [] && history[|history| - 1] == files
    }

    constructor (f: Files)
      ensures Valid() && files == f && history == [f]
    {
      files := f;
      history := [f];
    }

    method Become(f: Files)
      requires Valid()
      modifies this
      ensures Valid() && files == f && history == old(history) + [f]
    {
      files := f;
      history := history + [f];
    }

    /** installByMoveAside, with a staged binary in place. */
    method InstallByMoveAside(x: Faults) returns (r: Result)
      requires Valid() && files.staged.Whole?
      modifies this
      ensures Valid() && old(history) <= history
      ensures (r, files) == MoveAside(old(files), x)
      ensures old(files).target.Some? ==>
                forall i :: |old(history)| <= i < |history| ==>
                  Recoverable(history[i]) && (i > |old(history)| ==> OnlyThese(history[i], old(files).target.value, old(files).staged.binary))
    {
      ghost var before := history;
      if !x.clearOld {
        Become(files.(sidecar := None));
      } else {
        Become(files);
      }
      if x.moveAside || files.target.None? {
        return Failed;
      }
      Become(files.(target := None, sidecar := files.target));
      if x.install {
        if x.rollback {
          return Stranded;
        }
        Become(files.(target := files.sidecar, sidecar := None));
        return Failed;
      }
      Become(files.(target := Some(files.staged.binary), staged := NotStaged));
      if !x.dropOld {
        Become(files.(sidecar := None));
      }
      r := Installed;
    }

    /** replaceBinary: stage beside the target, install, and take the staged file away again if it was
        not installed. */
    method ReplaceBinary(windows: bool, newBinary: Binary, x: Faults) returns (r: Result)
      requires Valid()
      modifies this
      ensures Valid() && old(history) <= history
      ensures (r, files) == Replace(old(files), windows, newBinary, x)
      ensures old(files).target.Some? ==> forall i :: |old(history)| <= i < |history| ==> Recoverable(history[i])
      ensures !windows && old(files).target.Some? ==>
                forall i :: |old(history)| <= i < |history| ==> history[i].target.Some?
    {
      if x.create {
        return Failed;
      }
      Become(files.(staged := Partial));
      if x.write {
        Unstage(x);
        return Failed;
      }
      Become(files.(staged := Whole(newBinary)));
      if windows {
        r := InstallByMoveAside(x);
      } else if x.install {
        r := Failed;
      } else {
        Become(files.(target := Some(newBinary), staged := NotStaged));
        r := Installed;
      }
      if r != Installed {
        Unstage(x);
      }
    }

    method Unstage(x: Faults)
      requires Valid()
      modifies this
      ensures Valid() && history == old(history) + [files]
      ensures files == if x.unstage then old(files) else old(files).(staged := NotStaged)
    {
      Become(if x.unstage then files else files.(staged := NotStaged));
    }

    /** sweepStaleBinary, run at startup by the binary at target. It may find the sidecar locked. */
    method SweepStaleBinary(windows: bool, locked: bool)
      requires Valid()
      modifies this
      ensures Valid() && old(history) <= history
      ensures files == if windows && !locked then old(files).(sidecar := None) else old(files)
    {
      if !windows || locked {
        return;
      }
      Become(files.(sidecar := None));
    }
  }

  // ── What the swap comes to ────────────────────────────────────────────────

  function MoveAside(f: Files, x: Faults): (Result, Files)
    requires f.staged.Whole?
  {
    var cleared := if x.clearOld then f else f.(sidecar := None);
    if x.moveAside || f.target.None? then (Failed, cleared)
    else if !x.install then
      (Installed, Files(Some(f.staged.binary), if x.dropOld then f.target else None, NotStaged))
    else if x.rollback then (Stranded, f.(target := None, sidecar := f.target))
    else (Failed, f.(sidecar := None))
  }

  function Replace(f: Files, windows: bool, newBinary: Binary, x: Faults): (Result, Files) {
    var tidy := (g: Files) => if x.unstage then g else g.(staged := NotStaged);
    if x.create then (Failed, f)
    else if x.write then (Failed, tidy(f.(staged := Partial)))
    else
      var ready := f.(staged := Whole(newBinary));
      if !windows then
        if x.install then (Failed, tidy(ready)) else (Installed, f.(target := Some(newBinary), staged := NotStaged))
      else
        var (r, g) := MoveAside(ready, x);
        if r == Installed then (r, g) else (r, tidy(g))
  }

  /** What each answer tells the user, when there was a binary at target: success means the new one is
      there; a plain failure, the old one; stranded, that nothing is, and the old one is in the sidecar.
      Stranded is Windows only. Nothing stays staged, unless its removal is refused. */
  lemma AnswerIsTrue(f: Files, windows: bool, newBinary: Binary, x: Faults)
    requires f.target.Some?
    ensures var (r, g) := Replace(f, windows, newBinary, x);
            match r
            case Installed => g.target == Some(newBinary) && g.staged == NotStaged
                              && g.sidecar == if !windows then f.sidecar else if x.dropOld then f.target else None
            case Failed => g.target == f.target && (g.sidecar == f.sidecar || (windows && g.sidecar == None))
                           && (!x.create && !x.unstage ==> g.staged == NotStaged)
            case Stranded => windows && g.target == None && g.sidecar == f.target
                             && (!x.unstage ==> g.staged == NotStaged)
  {
  }

  /** The answer is determined by what was refused: an upgrade strands exactly when, on Windows, the old
      binary went aside, the new one would not come in, and the old one would not come back. */
  lemma StrandedIff(f: Files, windows: bool, newBinary: Binary, x: Faults)
    requires f.target.Some?
    ensures Replace(f, windows, newBinary, x).0 == Stranded <==>
            windows && !x.create && !x.write && !x.moveAside && x.install && x.rollback
    ensures Replace(f, windows, newBinary, x).0 == Installed <==>
            !x.create && !x.write && !x.install && (windows ==> !x.moveAside)
  {
  }

  // ── Runs ──────────────────────────────────────────────────────────────────

  /** What can happen to an installation: an upgrade or a startup sweep, both run by the binary at
      target, and the recovery a stranded user is told to do, which renames the sidecar back. */
  datatype Event = Upgrade(windows: bool, newBinary: Binary, x: Faults) | Sweep(windows: bool, locked: bool) | Recover

  function After(f: Files, e: Event): Files {
    match e
    case Upgrade(windows, v, x) => if f.target.None? then f else Replace(f, windows, v, x).1
    case Sweep(windows, locked) => if f.target.None? || !windows || locked then f else f.(sidecar := None)
    case Recover => if f.sidecar.Some? && f.target.None? then f.(target := f.sidecar, sidecar := None) else f
  }

  function AfterAll(f: Files, events: seq<Event>): Files {
    if events == [] then f else After(AfterAll(f, events[..|events| - 1]), events[|events| - 1])
  }

  /** Over every sequence of upgrades, sweeps and recoveries with whatever refusals, a binary is left,
      and one recovery puts it at target. */
  lemma {:induction false} NeverLost(f: Files, events: seq<Event>)
    requires f.target.Some?
    ensures Recoverable(AfterAll(f, events)) && After(AfterAll(f, events), Recover).target.Some?
    decreases |events|
  {
    hide Replace;
    if events != [] {
      var n := |events| - 1;
      NeverLost(f, events[..n]);
      var g := AfterAll(f, events[..n]);
      match events[n] {
        case Upgrade(windows, v, x) => if g.target.Some? { AnswerIsTrue(g, windows, v, x); }
        case _ =>
      }
    }
  }

  /** What can be at target after any run: one of the versions there was to begin with or was installed. */
  lemma {:induction false} TargetIsKnown(f: Files, events: seq<Event>, known: set<Binary>)
    requires f.target.Some? ==> f.target.value in known
    requires f.sidecar.Some? ==> f.sidecar.value in known
    requires forall i :: 0 <= i < |events| && events[i].Upgrade? ==> events[i].newBinary in known
    ensures var g := AfterAll(f, events);
            (g.target.Some? ==> g.target.value in known) && (g.sidecar.Some? ==> g.sidecar.value in known)
    decreases |events|
  {
    if events != [] {
      var n := |events| - 1;
      assert forall i :: 0 <= i < n ==> events[..n][i] == events[i];
      TargetIsKnown(f, events[..n], known);
    }
  }

  /** The swap relies on its caller to pass a target that is there, as the running executable is: called
      without one, its first step would remove the sidecar unless that is refused. */
  lemma SwapNeedsTarget(f: Files, newBinary: Binary, x: Faults)
    requires f.target == None && f.sidecar.Some? && !x.create && !x.write
    ensures var (r, g) := Replace(f, true, newBinary, x);
            r == Failed && (Recoverable(g) <==> x.clearOld)
  {
  }
}
