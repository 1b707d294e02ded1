/** Safety of the phase commands over every run: whatever is asked for in whatever order, and
    however far each apply or destroy gets. */
module PhaseSafety {
  import opened Phases
  import opened Wrappers

  // ── What terraform may do ─────────────────────────────────────────────────

  /** It never damages a readable state file, and cannot do anything with a damaged one. */
  ghost predicate ApplyLaw(before: StateFile, o: Outcome) {
    if before.Corrupt? then o == Outcome(false, before) else o.left.Readable()
  }

  /** A destroy only takes away, possibly not everything unless it says so. */
  ghost predicate DestroyLaw(before: StateFile, o: Outcome) {
    && ApplyLaw(before, o)
    && o.left.Contents() <= before.Contents()
    && (o.ok ==> o.left.Contents() == {})
  }

  predicate IsDown(c: Command) {
    c.ClusterDown? || c.BnkDown? || c.GatewayDown? || c.TestingDown? || c.FlpDown? || c.TgwDisconnect?
  }

  function DownOf(p: Phase): Command {
    match p
    case Cluster => ClusterDown
    case Bnk => BnkDown
    case Testing => TestingDown
    case Gateway => GatewayDown
    case Flp => FlpDown
    case Tgw => TgwDisconnect
  }

  ghost predicate Lawful(w: Workspace, c: Command, env: Env) {
    forall p: Phase :: if IsDown(c) then DestroyLaw(w.File(p), env.tf(p)) else ApplyLaw(w.File(p), env.tf(p))
  }

  // ── Runs ──────────────────────────────────────────────────────────────────

  type Run = seq<(Command, Env)>

  ghost function StateAt(w: Workspace, run: Run, i: nat): Workspace
    requires i <= |run|
  {
    if i == 0 then w else Step(StateAt(w, run, i - 1), run[i - 1].0, run[i - 1].1).after
  }

  ghost predicate LawfulRun(w: Workspace, run: Run) {
    forall i :: 0 <= i < |run| ==> Lawful(StateAt(w, run, i), run[i].0, run[i].1)
  }

  // ── A down step takes only what it may ────────────────────────────────────

  /** A down command writes its own phase's state at most; the cluster's only when every dependent
      phase is empty, and BNK's only when Gateway is empty or presence cannot be read. */
  ghost predicate Respectful(w: Workspace, c: Command, after: Workspace) {
    && (forall p: Phase :: after.File(p) != w.File(p) ==> c == DownOf(p))
    && (after.cluster != w.cluster ==> w.Legible() && !w.HasDependents())
    && (after.bnk != w.bnk ==> w.Legible() ==> !w.gateway.HasAny())
  }

  lemma DownIsRespectful(w: Workspace, c: Command, env: Env)
    requires IsDown(c)
    ensures Respectful(w, c, Step(w, c, env).after)
  {
  }

  /** Over every run: no down step takes cluster resources while BNK, Testing, Gateway, FLP or TGW
      resources exist, nor, as long as presence can be read, BNK resources while Gateway ones exist. */
  lemma EveryDownIsRespectful(w: Workspace, run: Run, i: nat)
    requires LawfulRun(w, run) && w.Legible() && i < |run| && IsDown(run[i].0)
    ensures StateAt(w, run, i).Legible()
    ensures Respectful(StateAt(w, run, i), run[i].0, StateAt(w, run, i + 1))
    ensures StateAt(w, run, i + 1).bnk != StateAt(w, run, i).bnk ==> !StateAt(w, run, i).gateway.HasAny()
  {
    hide Step, Lawful;
    StaysLegible(w, run, i);
    DownIsRespectful(StateAt(w, run, i), run[i].0, run[i].1);
  }

  /** Each file ends as it was, or as terraform left it; Gateway's is written by its own commands only. */
  ghost predicate WrittenByTerraform(w: Workspace, env: Env, a: Workspace) {
    forall p: Phase :: a.File(p) == w.File(p) || a.File(p) == env.tf(p).left
  }

  /** Attaching writes the connection's state and nothing else. */
  lemma AttachWrites(w: Workspace, env: Env)
    ensures var a := AfterAttach(w, env).after; a == w.(tgw := a.tgw) && a.tgw in {w.tgw, env.tf(Tgw).left}
    ensures var a := AfterAutoConnect(w, env); a == w.(tgw := a.tgw) && a.tgw in {w.tgw, env.tf(Tgw).left}
  {
  }

  lemma ClusterUpWrites(w: Workspace, env: Env)
    ensures var a := AfterClusterUp(w, env).after;
            WrittenByTerraform(w, env, a) && a.gateway == w.gateway && a.bnk == w.bnk
    ensures var a := AfterRegister(w, env).after; WrittenByTerraform(w, env, a) && a.gateway == w.gateway && a.bnk == w.bnk
  {
    hide AfterAutoConnect;
    if env.found.Some? {
      AttachWrites(w.(outputs := Recorded(env.found.value.0, env.found.value.1)), env);
    }
    var applied := AfterRecording(w.(cluster := env.tf(Cluster).left), env);
    AttachWrites(applied, env);
    assert applied.tgw == w.tgw;
  }

  lemma BnkUpWrites(w: Workspace, env: Env)
    ensures var a := AfterBnkUp(w, env).after; WrittenByTerraform(w, env, a) && a.gateway == w.gateway
  {
    hide AfterClusterUp;
    ClusterUpWrites(w, env);
  }

  lemma DownWrites(w: Workspace, c: Command, env: Env)
    requires IsDown(c)
    ensures var a := Step(w, c, env).after;
            WrittenByTerraform(w, env, a) && (a.gateway == w.gateway || c == GatewayDown)
  {
    hide CanDestroy;
  }

  lemma FlpUpWrites(w: Workspace, nodePort: Option<bool>, cidrs: Option<seq<string>>, env: Env)
    ensures var a := AfterFlpUp(w, nodePort, cidrs, env).after;
            a == w.(config := a.config, flp := a.flp) && a.flp in {w.flp, env.tf(Flp).left}
  {
  }

  lemma TgwConnectWrites(w: Workspace, target: string, env: Env)
    ensures var a := AfterTgwConnect(w, target, env).after;
            a == w.(config := a.config, tgw := a.tgw) && a.tgw in {w.tgw, env.tf(Tgw).left}
  {
    hide AfterAttach;
    AttachWrites(w, env);
    if w.config.Some? {
      AttachWrites(w.(config := Some(w.config.value.(gateway := Some(Toggle(false, target))))), env);
    }
  }

  lemma UpWrites(w: Workspace, c: Command, env: Env)
    requires !IsDown(c)
    ensures var a := Step(w, c, env).after;
            WrittenByTerraform(w, env, a) && (a.gateway == w.gateway || c == GatewayUp)
  {
    hide AfterClusterUp, AfterRegister, AfterBnkUp, AfterFlpUp, AfterTgwConnect;
    match c {
      case ClusterUp => ClusterUpWrites(w, env);
      case ClusterRegister => ClusterUpWrites(w, env);
      case BnkUp => BnkUpWrites(w, env);
      case FlpUp(nodePort, cidrs) => FlpUpWrites(w, nodePort, cidrs, env);
      case TgwConnect(target) => TgwConnectWrites(w, target, env);
      case _ =>
    }
  }

  lemma StepWrites(w: Workspace, c: Command, env: Env)
    ensures var a := Step(w, c, env).after;
            WrittenByTerraform(w, env, a) && (a.gateway == w.gateway || c == GatewayUp || c == GatewayDown)
  {
    hide Step, WrittenByTerraform;
    if IsDown(c) { DownWrites(w, c, env); } else { UpWrites(w, c, env); }
  }

  lemma StepStaysLegible(w: Workspace, c: Command, env: Env)
    requires Lawful(w, c, env) && w.Legible()
    ensures Step(w, c, env).after.Legible()
  {
    hide Step;
    StepWrites(w, c, env);
    var a := Step(w, c, env).after;
    forall p: Phase ensures a.File(p).Readable() {
      assert w.File(p).Readable();
    }
    assert a.File(Cluster).Readable() && a.File(Bnk).Readable() && a.File(Testing).Readable()
      && a.File(Gateway).Readable() && a.File(Flp).Readable() && a.File(Tgw).Readable();
  }

  lemma {:induction false} StaysLegible(w: Workspace, run: Run, i: nat)
    requires LawfulRun(w, run) && w.Legible() && i <= |run|
    ensures StateAt(w, run, i).Legible()
  {
    hide Step, Lawful;
    if i > 0 {
      StaysLegible(w, run, i - 1);
      StepStaysLegible(StateAt(w, run, i - 1), run[i - 1].0, run[i - 1].1);
    }
  }

  /** The Gateway guard of `bnk down` holds exactly if presence can be read: with BNK and Gateway both
      there, and everything the destroy itself asks for in place, the destroy is let through if and only
      if some state file that `bnk down` does not otherwise look at is damaged. */
  lemma BnkGuardHoldsIff(w: Workspace, env: Env)
    requires w.bnk.HasAny() && w.gateway.HasAny() && w.cluster.Readable() && CanDestroy(w, Bnk, env)
    requires Act(w, Bnk, env).after != w
    ensures Step(w, BnkDown, env).after != w <==> !w.Legible()
    ensures Step(w, BnkDown, env) == if w.Legible() then Effect(Error, w) else Act(w, Bnk, env)
  {
  }

  /** Such a workspace, losing its BNK under a live Gateway because the testing state is damaged. */
  lemma BnkGuardBypassed(w: Workspace, r: Resource, env: Env)
    requires w.config.Some? && w.config.value.prefix != "" && w.outputs == Recorded("c", "v") && env.ready(Bnk)
    requires w.cluster == Missing && w.bnk == State({r}) && w.gateway == State({r}) && w.testing == Corrupt
    requires env.tf(Bnk) == Outcome(true, State({}))
    ensures var e := Step(w, BnkDown, env);
            e.verdict == Ok && !e.after.bnk.HasAny() && e.after.gateway.HasAny()
  {
    assert r in w.gateway.resources;
  }

  // ── A Gateway always has a host ───────────────────────────────────────────

  /** Gateway resources imply a cluster or BNK to carry them. */
  ghost predicate Hosted(w: Workspace) {
    w.Legible() && (w.gateway.HasAny() ==> w.cluster.HasCluster() || w.bnk.HasAny())
  }

  /** `cluster up` gets as far as applying, rather than registering or giving up before. */
  predicate BuildsCluster(w: Workspace, env: Env) {
    w.config.Some? && env.modeAgrees && w.config.value.createCluster && env.ready(Cluster)
  }

  /** The command applies to the only host that a Gateway has left, and the apply does away with it. */
  predicate TakesLastHost(w: Workspace, c: Command, env: Env) {
    && w.gateway.HasAny()
    && match c
       case ClusterUp => BuildsCluster(w, env) && !env.tf(Cluster).left.HasCluster() && !w.bnk.HasAny()
       case BnkUp =>
         && w.config.Some? && !w.outputs.BadOutputs? && env.ready(Bnk)
         && !env.tf(Bnk).left.HasAny() && !w.cluster.HasCluster()
       case _ => false
  }

  /** Every command keeps a Gateway hosted, except exactly one that takes its last host. */
  lemma HostedStepIff(w: Workspace, c: Command, env: Env)
    requires Hosted(w) && Lawful(w, c, env)
    ensures Hosted(Step(w, c, env).after) <==> !TakesLastHost(w, c, env)
  {
    StepStaysLegible(w, c, env);
    match c {
      case ClusterUp => ClusterUpHosts(w, env);
      case BnkUp => BnkUpHosts(w, env);
      case _ =>
        if IsDown(c) { DownKeepsHosts(w, c, env); } else { OtherUpsKeepHosts(w, c, env); }
    }
  }

  lemma DownKeepsHosts(w: Workspace, c: Command, env: Env)
    requires Hosted(w) && IsDown(c) && Lawful(w, c, env)
    ensures var a := Step(w, c, env).after; a.gateway.HasAny() ==> a.cluster.HasCluster() || a.bnk.HasAny()
  {
    hide Step;
    var a := Step(w, c, env).after;
    DownIsRespectful(w, c, env);
    if a.gateway.HasAny() {
      assert DestroyLaw(w.File(Gateway), env.tf(Gateway));
      assert a.gateway.HasAny() ==> w.gateway.HasAny() by {
        GatewayOnlyShrinks(w, c, env);
      }
      assert a.File(Cluster) == w.File(Cluster) && a.File(Bnk) == w.File(Bnk);
    }
  }

  lemma GatewayOnlyShrinks(w: Workspace, c: Command, env: Env)
    requires IsDown(c) && Lawful(w, c, env)
    ensures Step(w, c, env).after.gateway.Contents() <= w.gateway.Contents()
  {
    assert DestroyLaw(w.File(Gateway), env.tf(Gateway));
  }

  lemma ClusterUpHosts(w: Workspace, env: Env)
    requires Hosted(w)
    ensures var a := Step(w, ClusterUp, env).after;
            (a.gateway.HasAny() ==> a.cluster.HasCluster() || a.bnk.HasAny()) <==> !TakesLastHost(w, ClusterUp, env)
  {
    hide AfterAutoConnect;
    if env.found.Some? {
      AttachWrites(w.(outputs := Recorded(env.found.value.0, env.found.value.1)), env);
    }
    AttachWrites(AfterRecording(w.(cluster := env.tf(Cluster).left), env), env);
  }

  lemma BnkUpHosts(w: Workspace, env: Env)
    requires Hosted(w)
    ensures var a := Step(w, BnkUp, env).after;
            (a.gateway.HasAny() ==> a.cluster.HasCluster() || a.bnk.HasAny()) <==> !TakesLastHost(w, BnkUp, env)
  {
    hide AfterClusterUp;
    BnkUpWrites(w, env);
    assert w.gateway.HasAny() ==> w.cluster.HasAny() || w.bnk.HasAny();
  }

  lemma OtherUpsKeepHosts(w: Workspace, c: Command, env: Env)
    requires Hosted(w) && !IsDown(c) && c != ClusterUp && c != BnkUp
    ensures var a := Step(w, c, env).after; a.gateway.HasAny() ==> a.cluster.HasCluster() || a.bnk.HasAny()
  {
    hide AfterFlpUp, AfterTgwConnect, AfterAutoConnect;
    match c {
      case ClusterRegister =>
        if env.found.Some? {
          AttachWrites(w.(outputs := Recorded(env.found.value.0, env.found.value.1)), env);
        }
      case FlpUp(nodePort, cidrs) => FlpUpWrites(w, nodePort, cidrs, env);
      case TgwConnect(target) => TgwConnectWrites(w, target, env);
      case _ =>
    }
  }

  ghost predicate AlwaysHosted(w: Workspace, run: Run) {
    forall i: nat :: i <= |run| ==> Hosted(StateAt(w, run, i))
  }

  ghost predicate KeepsLastHosts(w: Workspace, run: Run) {
    forall j: nat :: j < |run| ==> !TakesLastHost(StateAt(w, run, j), run[j].0, run[j].1)
  }

  /** Over every run: a Gateway has a host at every point, if and only if no command takes its last one. */
  lemma GatewayAlwaysHosted(w: Workspace, run: Run)
    requires Hosted(w) && LawfulRun(w, run)
    ensures AlwaysHosted(w, run) <==> KeepsLastHosts(w, run)
  {
    hide Step, Lawful, Hosted, TakesLastHost;
    if AlwaysHosted(w, run) {
      forall j: nat | j < |run| ensures !TakesLastHost(StateAt(w, run, j), run[j].0, run[j].1) {
        HostedStepIff(StateAt(w, run, j), run[j].0, run[j].1);
        assert Hosted(StateAt(w, run, j + 1));
      }
    }
    if KeepsLastHosts(w, run) {
      forall i: nat | i <= |run| ensures Hosted(StateAt(w, run, i)) {
        HostedSoFar(w, run, i);
      }
    }
  }

  lemma {:induction false} HostedSoFar(w: Workspace, run: Run, i: nat)
    requires Hosted(w) && LawfulRun(w, run) && i <= |run|
    requires KeepsLastHosts(w, run)
    ensures Hosted(StateAt(w, run, i))
  {
    hide Step, Lawful, Hosted, TakesLastHost;
    if i > 0 {
      HostedSoFar(w, run, i - 1);
      HostedStepIff(StateAt(w, run, i - 1), run[i - 1].0, run[i - 1].1);
    }
  }

  /** It can happen: an apply that replaces the cluster and dies half way leaves the Gateway without a host. */
  lemma FailedReplacementUnhosts(w: Workspace, r: Resource, env: Env)
    requires w.config.Some? && w.config.value.createCluster && env.modeAgrees && env.ready(Cluster)
    requires w.Legible() && w.cluster == State({r}) && IsCluster(r) && w.bnk == Missing && w.gateway == State({r})
    requires env.tf(Cluster) == Outcome(false, State({}))
    ensures Hosted(w) && ApplyLaw(w.cluster, env.tf(Cluster)) && !Hosted(Step(w, ClusterUp, env).after)
  {
    assert r in w.cluster.resources;
  }

  // ── Workspaces that were never initialised ────────────────────────────────

  /** A mistyped workspace looks empty. Three of the six down commands refuse it, three report success. */
  lemma UninitialisedDowns(w: Workspace, p: Phase, env: Env)
    requires w.config.None? && w.Legible() && forall q: Phase :: !w.File(q).HasAny()
    ensures Step(w, DownOf(p), env) == Effect(if p in {Cluster, Bnk, Tgw} then Error else Ok, w)
  {
  }

  /** Exactly these commands dereference the workspace that is not there. */
  lemma CrashesIff(w: Workspace, c: Command, env: Env)
    ensures Step(w, c, env).verdict == Crash <==>
            && w.config.None? && w.Legible()
            && (c.FlpUp? || (c.TgwConnect? && c.target != "" && (w.cluster.HasCluster() || w.VpcKnown())))
  {
  }

  // ── Stored intent ─────────────────────────────────────────────────────────

  /** What `flp up` renders for node-port access, and the networks it opens it to. */
  function NodePortAccess(w: Workspace): bool {
    w.config.Some? && w.config.value.flp.Some? && w.config.value.flp.value.nodePortAccess
  }

  function SourceCidrs(w: Workspace): seq<string> {
    if w.config.Some? && w.config.value.flp.Some? then w.config.value.flp.value.sourceCidrs else []
  }

  /** The transit gateway that `tgw connect` without a name connects to. */
  function StoredTarget(w: Workspace): Option<Toggle> {
    if w.config.Some? then w.config.value.gateway else None
  }

  lemma AttachKeepsConfig(w: Workspace, env: Env)
    ensures AfterAttach(w, env).after.config == w.config && AfterAutoConnect(w, env).config == w.config
  {
  }

  lemma ClusterUpKeepsConfig(w: Workspace, env: Env)
    ensures AfterClusterUp(w, env).after.config == w.config && AfterRegister(w, env).after.config == w.config
  {
    hide AfterAutoConnect;
    if env.found.Some? {
      AttachKeepsConfig(w.(outputs := Recorded(env.found.value.0, env.found.value.1)), env);
    }
    AttachKeepsConfig(AfterRecording(w.(cluster := env.tf(Cluster).left), env), env);
  }

  /** Only these two commands write config.yaml. */
  lemma OthersKeepConfig(w: Workspace, c: Command, env: Env)
    requires !c.FlpUp? && !c.TgwConnect?
    ensures Step(w, c, env).after.config == w.config
  {
    hide AfterClusterUp, AfterRegister, CanDestroy;
    ClusterUpKeepsConfig(w, env);
  }

  lemma ConnectKeepsFlp(w: Workspace, target: string, env: Env)
    ensures var a := Step(w, TgwConnect(target), env).after;
            NodePortAccess(a) == NodePortAccess(w) && SourceCidrs(a) == SourceCidrs(w)
    ensures target == "" ==> StoredTarget(Step(w, TgwConnect(target), env).after) == StoredTarget(w)
  {
    hide AfterAttach;
    AttachKeepsConfig(w, env);
    if w.config.Some? {
      AttachKeepsConfig(w.(config := Some(w.config.value.(gateway := Some(Toggle(false, target))))), env);
    }
  }

  /** A flag that is not given leaves what it would have set alone. */
  lemma FlpUpKeepsTheRest(w: Workspace, nodePort: Option<bool>, cidrs: Option<seq<string>>, env: Env)
    ensures var a := Step(w, FlpUp(nodePort, cidrs), env).after;
            && (nodePort.None? ==> NodePortAccess(a) == NodePortAccess(w))
            && (cidrs.None? ==> SourceCidrs(a) == SourceCidrs(w))
            && StoredTarget(a) == StoredTarget(w)
  {
  }

  /** A flag that is given is stored before terraform runs, whatever becomes of the apply. */
  lemma FlpUpStoresIntent(w: Workspace, nodePort: Option<bool>, cidrs: Option<seq<string>>, env: Env)
    requires w.config.Some? && w.Legible() && env.saved && (w.Standalone() || w.cluster.HasCluster() || w.ClusterKnown())
    ensures var a := Step(w, FlpUp(nodePort, cidrs), env).after;
            (nodePort.Some? ==> NodePortAccess(a) == nodePort.value) && (cidrs.Some? ==> SourceCidrs(a) == cidrs.value)
  {
  }

  lemma ConnectStoresTarget(w: Workspace, target: string, env: Env)
    requires w.config.Some? && w.Legible() && env.saved && (w.cluster.HasCluster() || w.VpcKnown()) && target != ""
    ensures StoredTarget(Step(w, TgwConnect(target), env).after) == Some(Toggle(false, target))
  {
    hide AfterAttach;
    AttachKeepsConfig(w.(config := Some(w.config.value.(gateway := Some(Toggle(false, target))))), env);
  }

  /** A run that does not ask for anything else. */
  predicate LeavesNodePort(c: Command) { c.FlpUp? ==> c.nodePort.None? }
  predicate LeavesCidrs(c: Command) { c.FlpUp? ==> c.cidrs.None? }
  predicate LeavesTarget(c: Command) { c.TgwConnect? ==> c.target == "" }

  lemma StepKeepsIntent(w: Workspace, c: Command, env: Env)
    ensures var a := Step(w, c, env).after;
            && (LeavesNodePort(c) ==> NodePortAccess(a) == NodePortAccess(w))
            && (LeavesCidrs(c) ==> SourceCidrs(a) == SourceCidrs(w))
            && (LeavesTarget(c) ==> StoredTarget(a) == StoredTarget(w))
  {
    hide Step;
    match c {
      case FlpUp(nodePort, cidrs) => FlpUpKeepsTheRest(w, nodePort, cidrs, env);
      case TgwConnect(target) => ConnectKeepsFlp(w, target, env);
      case _ => OthersKeepConfig(w, c, env);
    }
  }

  /** What was asked for once stays asked for: over every run, each stored setting is as it was until a
      command names it again, so that a later `flp up` or bare `tgw connect` applies with it. */
  lemma {:induction false} IntentSurvives(w: Workspace, run: Run, i: nat)
    requires i <= |run|
    ensures var s := StateAt(w, run, i);
            && ((forall j :: 0 <= j < i ==> LeavesNodePort(run[j].0)) ==> NodePortAccess(s) == NodePortAccess(w))
            && ((forall j :: 0 <= j < i ==> LeavesCidrs(run[j].0)) ==> SourceCidrs(s) == SourceCidrs(w))
            && ((forall j :: 0 <= j < i ==> LeavesTarget(run[j].0)) ==> StoredTarget(s) == StoredTarget(w))
  {
    hide Step, NodePortAccess, SourceCidrs, StoredTarget, LeavesNodePort, LeavesCidrs, LeavesTarget;
    if i > 0 {
      IntentSurvives(w, run, i - 1);
      StepKeepsIntent(StateAt(w, run, i - 1), run[i - 1].0, run[i - 1].1);
    }
  }
}
