/** Tearing a workspace down: gateway down, flp down, tgw disconnect, bnk down, testing down, cluster
    down. When it works, that it can always be finished, and that doing it again is harmless. */
module PhaseTeardown {
  import opened Phases
  import opened PhaseSafety
  import opened Wrappers

  /** The order of an orchestrated teardown. */
  const ORDER: seq<Phase> := [Gateway, Flp, Tgw, Bnk, Testing, Cluster]

  ghost predicate Empty(w: Workspace) {
    forall p: Phase :: !w.File(p).HasAny()
  }

  /** What a teardown needs, phase by phase: every state file readable, and for each phase that still
      has resources what its destroy asks for. */
  predicate TeardownReady(w: Workspace) {
    && w.config.Some? && w.Legible()
    && (w.bnk.HasAny() ==> !w.outputs.BadOutputs?)
    && (w.gateway.HasAny() || w.testing.HasAny() || w.tgw.HasAny() ==> w.VpcKnown())
    && (w.flp.HasAny() ==> w.Standalone() || w.VpcKnown())
    && (w.tgw.HasAny() ==> w.GatewayNamed())
  }

  /** The surroundings of an attempt in which nothing outside the workspace goes wrong. */
  ghost predicate Smooth(w: Workspace, env: Env) {
    && !env.foreignSubnets
    && w.config.Some? && w.config.value.prefix != ""
    && forall p: Phase :: env.ready(p) && env.tf(p).ok && env.tf(p).left == State({})
  }

  // ── One attempt ───────────────────────────────────────────────────────────

  /** The commands of the teardown, each run whatever became of the one before. */
  function TearDown(w: Workspace, env: Env, from: nat): (r: (bool, Workspace))
    requires from <= |ORDER|
    decreases |ORDER| - from
  {
    if from == |ORDER| then (true, w)
    else
      var e := Step(w, DownOf(ORDER[from]), env);
      var (rest, after) := TearDown(e.after, env, from + 1);
      (e.verdict == Ok && rest, after)
  }

  /** The phases before `from` in the order are gone. */
  ghost predicate GoneBefore(w: Workspace, from: nat)
    requires from <= |ORDER|
  {
    forall i :: 0 <= i < from ==> !w.File(ORDER[i]).HasAny()
  }

  /** In its turn, a ready workspace loses exactly one phase, and stays ready. */
  lemma TurnSucceeds(w: Workspace, env: Env, from: nat)
    requires from < |ORDER| && TeardownReady(w) && Smooth(w, env) && GoneBefore(w, from)
    ensures var e := Step(w, DownOf(ORDER[from]), env);
            && e.verdict == Ok && TeardownReady(e.after) && Smooth(e.after, env) && GoneBefore(e.after, from + 1)
  {
    var p := ORDER[from];
    var e := Step(w, DownOf(p), env);
    assert env.ready(p) && env.tf(p) == Outcome(true, State({}));
    match p {
      case Gateway => assert from == 0;
      case Flp => assert from == 1;
      case Tgw => assert from == 2;
      case Bnk => assert from == 3 && !w.File(ORDER[0]).HasAny();
      case Testing => assert from == 4;
      case Cluster =>
        assert from == 5;
        assert !w.File(ORDER[0]).HasAny() && !w.File(ORDER[1]).HasAny() && !w.File(ORDER[2]).HasAny()
          && !w.File(ORDER[3]).HasAny() && !w.File(ORDER[4]).HasAny();
    }
  }

  lemma {:induction false} ReadyTearsDown(w: Workspace, env: Env, from: nat)
    requires from <= |ORDER| && TeardownReady(w) && Smooth(w, env) && GoneBefore(w, from)
    ensures var (ok, after) := TearDown(w, env, from); ok && Empty(after) && TeardownReady(after)
    decreases |ORDER| - from
  {
    hide Step, TeardownReady, Smooth;
    if from < |ORDER| {
      TurnSucceeds(w, env, from);
      ReadyTearsDown(Step(w, DownOf(ORDER[from]), env).after, env, from + 1);
    } else {
      forall p: Phase ensures !w.File(p).HasAny() {
        assert ORDER[0] == Gateway && ORDER[1] == Flp && ORDER[2] == Tgw && ORDER[3] == Bnk && ORDER[4] == Testing && ORDER[5] == Cluster;
      }
    }
  }

  /** Something a teardown needs is missing: it stays missing until the command that asks for it. */
  lemma {:induction false} UnreadyFails(w: Workspace, env: Env, from: nat)
    requires from <= |ORDER| && Smooth(w, env) && Blocked(w, from)
    ensures !TearDown(w, env, from).0
    decreases |ORDER| - from
  {
    hide Smooth;
    if from < |ORDER| {
      BlockedTurn(w, env, from);
      if Step(w, DownOf(ORDER[from]), env).verdict == Ok {
        UnreadyFails(Step(w, DownOf(ORDER[from]), env).after, env, from + 1);
      }
    }
  }

  /** A phase whose turn is still to come cannot be destroyed. */
  ghost predicate Blocked(w: Workspace, from: nat)
    requires from <= |ORDER|
  {
    from < |ORDER| && (!w.Legible() || exists i :: from <= i < |ORDER| && Stuck(w, ORDER[i]))
  }

  predicate Stuck(w: Workspace, p: Phase) {
    && w.File(p).HasAny()
    && match p
       case Bnk => w.outputs.BadOutputs?
       case Flp => !w.Standalone() && !w.VpcKnown()
       case Tgw => !w.VpcKnown() || !w.GatewayNamed()
       case Cluster => false
       case _ => !w.VpcKnown()
  }

  lemma BlockedTurn(w: Workspace, env: Env, from: nat)
    requires from < |ORDER| && Smooth(w, env) && Blocked(w, from)
    ensures var e := Step(w, DownOf(ORDER[from]), env);
            e.verdict == Ok ==> Smooth(e.after, env) && Blocked(e.after, from + 1)
  {
    var e := Step(w, DownOf(ORDER[from]), env);
    var p := ORDER[from];
    assert env.ready(p) && env.tf(p) == Outcome(true, State({}));
    DownIsRespectful(w, DownOf(p), env);
    if e.verdict == Ok {
      if !w.Legible() {
        assert p == Bnk;
        assert !e.after.Legible();
      } else {
        var i :| from <= i < |ORDER| && Stuck(w, ORDER[i]);
        assert i != from;
        assert p != Cluster;
        assert Stuck(e.after, ORDER[i]);
      }
    }
  }

  /** TEARDOWN CONVERGES, and exactly when: with destroys that succeed, no foreign subnets and a
      prefix set, all six commands succeed if and only if the workspace is ready, and then every
      phase, residual network included, is empty. */
  lemma TeardownSucceedsIff(w: Workspace, env: Env)
    requires Smooth(w, env)
    ensures TearDown(w, env, 0).0 <==> TeardownReady(w)
    ensures TeardownReady(w) ==> Empty(TearDown(w, env, 0).1)
  {
    hide Smooth, Step;
    if TeardownReady(w) {
      ReadyTearsDown(w, env, 0);
    } else {
      assert w.config.Some? by { SmoothIsInitialised(w, env); }
      assert Stuck(w, ORDER[0]) || Stuck(w, ORDER[1]) || Stuck(w, ORDER[2]) || Stuck(w, ORDER[3]) || Stuck(w, ORDER[4]) || !w.Legible();
      UnreadyFails(w, env, 0);
    }
  }

  lemma SmoothIsInitialised(w: Workspace, env: Env)
    requires Smooth(w, env)
    ensures w.config.Some?
  {
  }

  /** Doing it again is a success that changes nothing, in whatever surroundings. */
  lemma RepeatIsNoOp(w: Workspace, p: Phase, env: Env)
    requires w.config.Some? && w.Legible() && Empty(w)
    ensures Step(w, DownOf(p), env) == Effect(Ok, w)
  {
    assert !w.File(Bnk).HasAny() && !w.File(Testing).HasAny() && !w.File(Gateway).HasAny()
      && !w.File(Flp).HasAny() && !w.File(Tgw).HasAny() && !w.File(Cluster).HasAny();
  }

  // ── Readiness is never lost ───────────────────────────────────────────────

  /** Readiness, phase by phase. */
  lemma ReadyIff(w: Workspace)
    ensures TeardownReady(w) <==> w.config.Some? && w.Legible() && forall p: Phase :: !Stuck(w, p)
  {
    if forall p: Phase :: !Stuck(w, p) {
      assert !Stuck(w, Bnk) && !Stuck(w, Testing) && !Stuck(w, Gateway) && !Stuck(w, Flp) && !Stuck(w, Tgw);
    }
  }

  /** Nothing that could be torn down before cannot be torn down after. */
  ghost predicate NoneMoreStuck(w: Workspace, a: Workspace) {
    && (w.config.Some? ==> a.config.Some?)
    && forall p: Phase :: Stuck(a, p) ==> Stuck(w, p)
  }

  /** `cluster up` builds a cluster and records it without a VPC, which it does not ask about. */
  predicate RecordsNoVpc(w: Workspace, env: Env) {
    BuildsCluster(w, env) && env.tf(Cluster).ok && env.found.Some? && env.found.value.1 == "" && env.saved
  }

  /** The command records a cluster without a VPC while something is left that cannot be destroyed without. */
  predicate Strands(w: Workspace, c: Command, env: Env) {
    && (c.ClusterUp? || (c.BnkUp? && !w.bnk.HasAny() && !w.cluster.HasAny()))
    && RecordsNoVpc(w, env)
    && (w.gateway.HasAny() || w.testing.HasAny() || w.tgw.HasAny() || (w.flp.HasAny() && !w.Standalone()))
  }

  /** A destroy that fails half way leaves the workspace as ready as it was. */
  lemma DownStrandsNothing(w: Workspace, c: Command, env: Env)
    requires IsDown(c) && Lawful(w, c, env)
    ensures NoneMoreStuck(w, Step(w, c, env).after)
  {
    var a := Step(w, c, env).after;
    DownIsRespectful(w, c, env);
    forall p: Phase | Stuck(a, p) ensures Stuck(w, p) {
      assert DestroyLaw(w.File(p), env.tf(p));
    }
  }

  lemma AttachStrandsNothing(w: Workspace, env: Env)
    ensures NoneMoreStuck(w, AfterAttach(w, env).after) && NoneMoreStuck(w, AfterAutoConnect(w, env))
  {
  }

  lemma RecordingStrandsNothing(w: Workspace, id: string, vpc: string)
    requires vpc != ""
    ensures NoneMoreStuck(w, w.(outputs := Recorded(id, vpc)))
  {
  }

  lemma RegisterStrandsNothing(w: Workspace, env: Env)
    ensures NoneMoreStuck(w, AfterRegister(w, env).after)
  {
    hide Stuck, AfterAutoConnect;
    if AfterRegister(w, env).verdict == Ok {
      var (id, vpc) := env.found.value;
      RecordingStrandsNothing(w, id, vpc);
      AttachStrandsNothing(w.(outputs := Recorded(id, vpc)), env);
    }
  }

  lemma ClusterUpStrandsNothing(w: Workspace, env: Env)
    requires !RecordsNoVpc(w, env)
    ensures NoneMoreStuck(w, AfterClusterUp(w, env).after)
  {
    RegisterStrandsNothing(w, env);
    var applied := w.(cluster := env.tf(Cluster).left);
    assert NoneMoreStuck(w, applied);
    hide Stuck, AfterAutoConnect, AfterRegister;
    if env.found.Some? && env.found.value.1 != "" {
      RecordingStrandsNothing(applied, env.found.value.0, env.found.value.1);
    }
    AttachStrandsNothing(AfterRecording(applied, env), env);
  }

  /** Without a VPC nothing can be attached either, so the record is all that is left of the attempt. */
  lemma ClusterUpWithoutVpc(w: Workspace, env: Env)
    requires RecordsNoVpc(w, env)
    ensures AfterClusterUp(w, env) ==
            Effect(Ok, w.(cluster := env.tf(Cluster).left, outputs := Recorded(env.found.value.0, "")))
  {
  }

  /** Of the commands that build, only a recording without a VPC can strand anything. */
  lemma UpStrandsNothing(w: Workspace, c: Command, env: Env)
    requires !IsDown(c)
    requires (c.ClusterUp? || (c.BnkUp? && !w.bnk.HasAny() && !w.cluster.HasAny())) ==> !RecordsNoVpc(w, env)
    ensures NoneMoreStuck(w, Step(w, c, env).after)
  {
    hide AfterClusterUp, AfterRegister, AfterAttach;
    match c {
      case ClusterUp => ClusterUpStrandsNothing(w, env);
      case ClusterRegister => RegisterStrandsNothing(w, env);
      case BnkUp =>
        if !w.bnk.HasAny() && !w.cluster.HasAny() { ClusterUpStrandsNothing(w, env); }
        TrialUpStrandsNothing(w, env);
        TrialUpStrandsNothing(AfterClusterUp(w, env).after, env);
      case TgwConnect(target) =>
        AttachStrandsNothing(w, env);
        if w.config.Some? {
          var named := w.(config := Some(w.config.value.(gateway := Some(Toggle(false, target)))));
          AttachStrandsNothing(named, env);
          assert target != "" ==> NoneMoreStuck(w, named);
        }
      case FlpUp(nodePort, cidrs) => FlpUpStrandsNothing(w, nodePort, cidrs, env);
      case _ =>
    }
  }

  lemma TrialUpStrandsNothing(w: Workspace, env: Env)
    ensures NoneMoreStuck(w, AfterTrialUp(w, env).after)
  {
  }

  lemma FlpUpStrandsNothing(w: Workspace, nodePort: Option<bool>, cidrs: Option<seq<string>>, env: Env)
    ensures NoneMoreStuck(w, AfterFlpUp(w, nodePort, cidrs, env).after)
  {
    InstallStrandsNothing(w, env);
    if w.config.Some? {
      var told := w.(config := Some(w.config.value.(flp := Some(Intended(w.config.value.flp, nodePort, cidrs)))));
      assert NoneMoreStuck(w, told);
      InstallStrandsNothing(told, env);
      hide Stuck, AfterInstall;
    }
  }

  lemma InstallStrandsNothing(w: Workspace, env: Env)
    ensures NoneMoreStuck(w, AfterInstall(w, env).after)
  {
  }

  /** A step keeps a ready workspace ready, exactly if it does not strand it. */
  lemma ReadyStepIff(w: Workspace, c: Command, env: Env)
    requires TeardownReady(w) && Lawful(w, c, env)
    ensures TeardownReady(Step(w, c, env).after) <==> !Strands(w, c, env)
  {
    hide Step, Lawful;
    StepStaysLegible(w, c, env);
    ReadyIff(w);
    ReadyIff(Step(w, c, env).after);
    if IsDown(c) {
      hide Stuck;
      DownStrandsNothing(w, c, env);
    } else if (c.ClusterUp? || (c.BnkUp? && !w.bnk.HasAny() && !w.cluster.HasAny())) && RecordsNoVpc(w, env) {
      RecordingStrands(w, c, env);
    } else {
      hide Stuck;
      UpStrandsNothing(w, c, env);
    }
  }

  lemma RecordingStrands(w: Workspace, c: Command, env: Env)
    requires TeardownReady(w) && RecordsNoVpc(w, env) && Step(w, c, env).after.Legible()
    requires c.ClusterUp? || (c.BnkUp? && !w.bnk.HasAny() && !w.cluster.HasAny())
    ensures TeardownReady(Step(w, c, env).after) <==> !Strands(w, c, env)
  {
    hide AfterClusterUp;
    ClusterUpWithoutVpc(w, env);
  }

  ghost predicate AlwaysReady(w: Workspace, run: Run) {
    forall i: nat :: i <= |run| ==> TeardownReady(StateAt(w, run, i))
  }

  ghost predicate NeverStrands(w: Workspace, run: Run) {
    forall j: nat :: j < |run| ==> !Strands(StateAt(w, run, j), run[j].0, run[j].1)
  }

  /** Over every run of every command: a ready workspace is ready at every point, if and only if no step
      strands it. */
  lemma ReadinessIsInvariant(w: Workspace, run: Run)
    requires TeardownReady(w) && LawfulRun(w, run)
    ensures AlwaysReady(w, run) <==> NeverStrands(w, run)
  {
    hide Step, Lawful, TeardownReady, Strands;
    if AlwaysReady(w, run) {
      forall j: nat | j < |run| ensures !Strands(StateAt(w, run, j), run[j].0, run[j].1) {
        ReadyStepIff(StateAt(w, run, j), run[j].0, run[j].1);
        assert TeardownReady(StateAt(w, run, j + 1));
      }
    }
    if NeverStrands(w, run) {
      forall i: nat | i <= |run| ensures TeardownReady(StateAt(w, run, i)) {
        ReadySoFar(w, run, i);
      }
    }
  }

  lemma {:induction false} ReadySoFar(w: Workspace, run: Run, i: nat)
    requires TeardownReady(w) && LawfulRun(w, run) && i <= |run|
    requires NeverStrands(w, run)
    ensures TeardownReady(StateAt(w, run, i))
  {
    hide Step, Lawful, TeardownReady, Strands;
    if i > 0 {
      ReadySoFar(w, run, i - 1);
      ReadyStepIff(StateAt(w, run, i - 1), run[i - 1].0, run[i - 1].1);
    }
  }

  lemma EmptyIsReady(w: Workspace)
    requires w.config.Some? && w.Legible() && Empty(w)
    ensures TeardownReady(w)
  {
    ReadyIff(w);
  }

  /** So whatever was done to a workspace that began empty, failed applies and half-finished
      teardowns included, one smooth teardown empties it, and the next one has nothing to do. */
  lemma AnyRunCanBeTornDown(w: Workspace, run: Run, env: Env, p: Phase, again: Env)
    requires w.config.Some? && w.Legible() && Empty(w) && LawfulRun(w, run)
    requires NeverStrands(w, run)
    requires Smooth(StateAt(w, run, |run|), env)
    ensures var (ok, after) := TearDown(StateAt(w, run, |run|), env, 0);
            ok && Empty(after) && Step(after, DownOf(p), again) == Effect(Ok, after)
  {
    hide Step, Lawful, Smooth, Stuck, Strands;
    EmptyIsReady(w);
    ReadySoFar(w, run, |run|);
    var s := StateAt(w, run, |run|);
    ReadyTearsDown(s, env, 0);
    RepeatIsNoOp(TearDown(s, env, 0).1, p, again);
  }

  /** The proviso is needed: recording a cluster without a VPC over a good record leaves the Gateway
      phase with nothing to destroy it by, and through it the whole teardown. */
  lemma EmptyVpcStrands(w: Workspace, r: Resource, up: Env, env: Env)
    requires w.config.Some? && w.config.value.createCluster && w.Legible() && w.outputs == Recorded("c", "v")
    requires w.gateway == State({r}) && w.bnk == Missing && w.testing == Missing && w.flp == Missing && w.tgw == Missing
    requires w.config.value.gateway == None && w.config.value.flp == None
    requires up.modeAgrees && up.ready(Cluster) && up.tf(Cluster) == Outcome(true, State({r}))
    requires up.found == Some(("c", "")) && up.saved
    requires Smooth(w, env)
    ensures TeardownReady(w) && Step(w, ClusterUp, up).verdict == Ok
    ensures !TearDown(Step(w, ClusterUp, up).after, env, 0).0
  {
    var a := Step(w, ClusterUp, up).after;
    assert r in a.gateway.resources;
    assert a.gateway.HasAny() && !a.VpcKnown();
    assert Smooth(a, env);
    hide Smooth, Step;
    TeardownSucceedsIff(a, env);
  }

  // ── Up, then down ─────────────────────────────────────────────────────────

  /** The surroundings of an install in which nothing outside the workspace goes wrong. */
  ghost predicate SmoothUp(env: Env) {
    && env.modeAgrees && env.saved && env.recorded
    && env.found.Some? && env.found.value.0 != "" && env.found.value.1 != ""
    && (forall p: Phase :: env.ready(p) && env.tf(p).ok && env.tf(p).left.Readable())
    && env.tf(Cluster).left.HasCluster() && env.tf(Bnk).left.HasAny()
  }

  const INSTALL: seq<Command> := [BnkUp, GatewayUp, TestingUp, FlpUp(None, None)]

  function InstallFrom(w: Workspace, env: Env, from: nat): (bool, Workspace)
    requires from <= |INSTALL|
    decreases |INSTALL| - from
  {
    if from == |INSTALL| then (true, w)
    else
      var e := Step(w, INSTALL[from], env);
      var (rest, after) := InstallFrom(e.after, env, from + 1);
      (e.verdict == Ok && rest, after)
  }

  /** A workspace on which the phases after the cluster can be built. */
  ghost predicate Installable(w: Workspace) {
    w.config.Some? && w.Legible() && w.VpcKnown() && w.ClusterKnown() && w.cluster.HasCluster()
  }

  /** The phases of the first `from` commands hold what terraform left. */
  ghost predicate BuiltBefore(w: Workspace, env: Env, from: nat) {
    && (from > 0 ==> w.cluster == env.tf(Cluster).left && w.bnk == env.tf(Bnk).left)
    && (from > 1 ==> w.gateway == env.tf(Gateway).left)
    && (from > 2 ==> w.testing == env.tf(Testing).left)
    && (from > 3 ==> w.flp == env.tf(Flp).left)
  }

  /** The guards refuse nothing that should work: in smooth surroundings `bnk up` on an empty workspace
      builds the cluster and BNK, gateway, testing and flp up follow, and every phase then holds what
      terraform left of it. The result can be torn down. */
  lemma InstallSucceeds(w: Workspace, env: Env)
    requires w.config.Some? && w.config.value.createCluster && w.Legible() && Empty(w) && SmoothUp(env)
    ensures InstallFrom(w, env, 0).0
    ensures var a := InstallFrom(w, env, 0).1;
            && a.cluster.HasCluster() && a.bnk.HasAny() && TeardownReady(a)
            && forall p: Phase :: p != Tgw ==> a.File(p) == env.tf(p).left
  {
    BnkUpBootstraps(w, env);
    var s1 := Step(w, BnkUp, env).after;
    LaterPhasesFollow(s1, env, 1);
  }

  lemma BnkUpBootstraps(w: Workspace, env: Env)
    requires w.config.Some? && w.config.value.createCluster && w.Legible() && Empty(w) && SmoothUp(env)
    ensures var e := Step(w, BnkUp, env);
            e.verdict == Ok && Installable(e.after) && TeardownReady(e.after) && BuiltBefore(e.after, env, 1)
  {
    assert !w.File(Bnk).HasAny() && !w.File(Cluster).HasAny();
    assert env.ready(Cluster) && env.tf(Cluster).ok && env.ready(Bnk) && env.tf(Bnk).ok && env.tf(Tgw).left.Readable();
    EmptyIsReady(w);
    UpStrandsNothing(w, BnkUp, env);
    ReadyIff(w);
    var applied := AfterRecording(w.(cluster := env.tf(Cluster).left), env);
    AttachWrites(applied, env);
    AttachKeepsConfig(applied, env);
    assert AfterClusterUp(w, env) == Effect(Ok, AfterAutoConnect(applied, env));
    ReadyIff(Step(w, BnkUp, env).after);
  }

  /** Each later phase succeeds and leaves what the next one needs. */
  lemma {:induction false} LaterPhasesFollow(w: Workspace, env: Env, from: nat)
    requires 1 <= from <= |INSTALL| && Installable(w) && TeardownReady(w) && SmoothUp(env) && BuiltBefore(w, env, from)
    ensures var (ok, a) := InstallFrom(w, env, from);
            ok && Installable(a) && TeardownReady(a) && BuiltBefore(a, env, |INSTALL|)
    decreases |INSTALL| - from
  {
    hide Step, Installable, TeardownReady, SmoothUp, BuiltBefore;
    if from < |INSTALL| {
      OnePhaseFollows(w, env, from);
      LaterPhasesFollow(Step(w, INSTALL[from], env).after, env, from + 1);
    }
  }

  lemma OnePhaseFollows(w: Workspace, env: Env, from: nat)
    requires 1 <= from < |INSTALL| && Installable(w) && TeardownReady(w) && SmoothUp(env) && BuiltBefore(w, env, from)
    ensures var e := Step(w, INSTALL[from], env);
            e.verdict == Ok && Installable(e.after) && TeardownReady(e.after) && BuiltBefore(e.after, env, from + 1)
  {
    var c := INSTALL[from];
    assert c == if from == 1 then GatewayUp else if from == 2 then TestingUp else FlpUp(None, None);
    assert forall p: Phase :: env.ready(p) && env.tf(p).ok && env.tf(p).left.Readable();
    assert env.ready(Gateway) && env.ready(Testing) && env.ready(Flp);
  }
}
