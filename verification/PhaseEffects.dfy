/** What each phase command comes to: when terraform runs, on which state, and what the verdict says. */
module PhaseEffects {
  import opened Phases
  import opened PhaseSafety
  import opened Wrappers

  // ── What the guards ask ───────────────────────────────────────────────────

  /** A state file has a cluster if it has a managed cluster resource with an instance, in one of the
      cluster's modules or inside one. */
  lemma HasClusterIff(f: StateFile)
    ensures f.HasCluster() <==>
            f.State? && exists r :: r in f.resources && r.managed && r.kind == "ibm_container_vpc_cluster" && r.instances > 0
                                    && exists m :: m in CLUSTER_MODULES && (r.path == m || m + "." <= r.path)
  {
    hide InClusterModule;
    forall path: string { InModuleIff(path); }
  }

  lemma InModuleIff(path: string)
    ensures InClusterModule(path) <==> exists m :: m in CLUSTER_MODULES && (path == m || m + "." <= path)
  {
    var roks, cert, testing := "module.roks_cluster", "module.cert_manager", "module.testing";
    assert roks + "." == "module.roks_cluster.";
    assert cert + "." == "module.cert_manager.";
    assert testing + "." == "module.testing.";
    assert CLUSTER_MODULES == {roks, cert, testing};
    assert (path == roks || roks + "." <= path) || (path == cert || cert + "." <= path) || (path == testing || testing + "." <= path)
        <==> InClusterModule(path);
  }

  const CLUSTER_MODULES := {"module.roks_cluster", "module.cert_manager", "module.testing"}

  /** The other questions, by what is in the workspace. */
  lemma QuestionsMean(w: Workspace)
    ensures w.Legible() <==> forall p: Phase :: w.File(p) != Corrupt
    ensures w.HasDependents() <==> exists p: Phase :: p != Cluster && w.File(p).State? && w.File(p).resources != {}
    ensures w.VpcKnown() <==> exists id, vpc :: w.outputs == Recorded(id, vpc) && vpc != ""
    ensures w.ClusterKnown() <==> exists id, vpc :: w.outputs == Recorded(id, vpc) && id != ""
    ensures w.GatewayNamed() <==> w.config.Some? && w.config.value.gateway.Some? && w.config.value.gateway.value.existing != ""
    ensures w.Standalone() <==>
            w.config.Some? && w.config.value.flp.Some? && w.config.value.flp.value.mode == "vsi"
            && exists v :: w.config.value.flp.value.vsi == Some(v) && (v.vpc != "" || v.createVpc)
  {
    assert w.File(Cluster) == w.cluster && w.File(Bnk) == w.bnk && w.File(Testing) == w.testing
      && w.File(Gateway) == w.gateway && w.File(Flp) == w.flp && w.File(Tgw) == w.tgw;
    if w.outputs.Recorded? { assert w.outputs == Recorded(w.outputs.clusterId, w.outputs.vpcId); }
  }

  // ── Applies ───────────────────────────────────────────────────────────────

  /** Terraform ran on phase `p` and on nothing else: its state is what terraform left, and a success is
      terraform's, confirmed by `also`. */
  ghost predicate Applied(before: Workspace, p: Phase, env: Env, also: bool, e: Effect) {
    && e.after.File(p) == env.tf(p).left
    && (forall q: Phase :: q != p ==> e.after.File(q) == before.File(q))
    && e.after.config == before.config && e.after.outputs == before.outputs
    && (e.verdict == Ok <==> env.tf(p).ok && also) && e.verdict != Crash
  }

  /** `gateway up` applies exactly with presence readable, a cluster or BNK to stand on, a workspace and
      a recorded VPC; and else refuses. */
  lemma GatewayUpApplies(w: Workspace, env: Env)
    ensures var met := && w.Legible() && (w.cluster.HasCluster() || w.bnk.HasAny())
                       && w.config.Some? && env.ready(Gateway) && w.VpcKnown();
            var e := Step(w, GatewayUp, env);
            if met then Applied(w, Gateway, env, true, e) else e == Effect(Error, w)
  {
  }

  /** `testing up` asks for a workspace and a recorded VPC only. */
  lemma TestingUpApplies(w: Workspace, env: Env)
    ensures var met := w.config.Some? && env.ready(Testing) && w.VpcKnown();
            var e := Step(w, TestingUp, env);
            if met then Applied(w, Testing, env, true, e) else e == Effect(Error, w)
  {
  }

  /** `flp up` applies with the given flags stored, and succeeds if the result was recorded too. */
  lemma FlpUpApplies(w: Workspace, nodePort: Option<bool>, cidrs: Option<seq<string>>, env: Env)
    requires w.Legible() && w.config.Some?
    ensures var asked := nodePort.Some? || cidrs.Some?;
            var met := && (w.Standalone() || w.VpcKnown()) && (w.Standalone() || w.cluster.HasCluster() || w.ClusterKnown())
                       && (asked ==> env.saved) && env.ready(Flp);
            var e := Step(w, FlpUp(nodePort, cidrs), env);
            && (met ==> Applied(w.(config := e.after.config), Flp, env, env.recorded, e))
            && (!met ==> e.verdict == Error && e.after == w.(config := e.after.config))
            && (!asked ==> e.after.config == w.config)
  {
  }

  /** `tgw connect` applies unless the VPC is attached already, and succeeds if the result was recorded. */
  lemma TgwConnectApplies(w: Workspace, target: string, env: Env)
    requires w.Legible() && w.config.Some? && (w.cluster.HasCluster() || w.VpcKnown()) && (target != "" ==> env.saved)
    ensures var named := target != "" || w.GatewayNamed();
            var e := Step(w, TgwConnect(target), env);
            var base := w.(config := e.after.config);
            && (named && w.VpcKnown() && env.attached ==> e == Effect(Ok, base))
            && (named && w.VpcKnown() && !env.attached && env.ready(Tgw) ==> Applied(base, Tgw, env, env.recorded, e))
            && (!named || !w.VpcKnown() || (!env.attached && !env.ready(Tgw)) ==> e == Effect(Error, base))
            && (target == "" ==> base == w)
  {
  }

  /** The connection that `cluster up` and `cluster register` try on the side: made when config.yaml names
      an existing gateway and the VPC, known by then, is not attached yet. */
  ghost predicate ConnectedAside(before: Workspace, env: Env, after: Workspace) {
    var tries := && before.GatewayNamed() && !before.config.value.gateway.value.create
                 && before.VpcKnown() && !env.attached && env.ready(Tgw);
    after == if tries then before.(tgw := env.tf(Tgw).left) else before
  }

  /** `cluster register` records the cluster found, given that it has a VPC and a registry. */
  lemma RegisterRecords(w: Workspace, env: Env)
    ensures var met := w.config.Some? && env.found.Some? && env.found.value.1 != "" && env.registryFound && env.saved;
            var e := Step(w, ClusterRegister, env);
            && (!met ==> e == Effect(Error, w))
            && (met ==> e.verdict == Ok
                        && ConnectedAside(w.(outputs := Recorded(env.found.value.0, env.found.value.1)), env, e.after))
  {
  }

  /** `cluster up` builds, and success is terraform's; what it built is recorded if it is found and can be
      saved. Told not to create a cluster, it registers the one that is named. */
  lemma ClusterUpApplies(w: Workspace, env: Env)
    requires w.config.Some? && env.modeAgrees
    ensures var e := Step(w, ClusterUp, env);
            var built := w.(cluster := env.tf(Cluster).left);
            var known := if env.found.Some? && env.saved
                         then built.(outputs := Recorded(env.found.value.0, env.found.value.1)) else built;
            if !w.config.value.createCluster then
              e == if w.config.value.clusterName == "" then Effect(Error, w) else Step(w, ClusterRegister, env)
            else if !env.ready(Cluster) then e == Effect(Error, w)
            else if !env.tf(Cluster).ok then e == Effect(Error, built)
            else e.verdict == Ok && ConnectedAside(known, env, e.after)
  {
    hide AfterRegister;
  }

  /** `bnk up` applies to BNK; on a workspace with neither cluster nor BNK it does `cluster up` first, and
      goes no further if that fails. */
  lemma BnkUpApplies(w: Workspace, env: Env)
    requires w.bnk.Readable() && w.cluster.Readable()
    ensures var bare := !w.bnk.HasAny() && !w.cluster.HasAny();
            var first := Step(w, ClusterUp, env);
            var from := if bare then first.after else w;
            var e := Step(w, BnkUp, env);
            && (bare && first.verdict != Ok ==> e == first)
            && (!bare || first.verdict == Ok ==>
                  if from.config.Some? && !from.outputs.BadOutputs? && env.ready(Bnk) then Applied(from, Bnk, env, true, e)
                  else e == Effect(Error, from))
  {
    hide AfterClusterUp;
  }

  // ── Success is earned ─────────────────────────────────────────────────────

  function UpPhase(c: Command): Phase
    requires !IsDown(c) && !c.ClusterRegister?
  {
    match c
    case ClusterUp => Cluster
    case BnkUp => Bnk
    case GatewayUp => Gateway
    case TestingUp => Testing
    case FlpUp(_, _) => Flp
    case TgwConnect(_) => Tgw
  }

  /** No up command reports a success unless terraform did, and its phase then holds what terraform left;
      but for a VPC that was attached before, and a cluster that is only registered. */
  lemma SuccessIsEarned(w: Workspace, c: Command, env: Env)
    requires !IsDown(c) && !c.ClusterRegister? && Step(w, c, env).verdict == Ok
    requires c.TgwConnect? ==> !env.attached
    requires c.ClusterUp? ==> w.config.Some? && w.config.value.createCluster
    ensures env.tf(UpPhase(c)).ok && Step(w, c, env).after.File(UpPhase(c)) == env.tf(UpPhase(c)).left
  {
    hide AfterClusterUp, AfterFlpUp, AfterTgwConnect;
    match c {
      case ClusterUp => ClusterUpEarns(w, env);
      case FlpUp(nodePort, cidrs) => FlpUpEarns(w, nodePort, cidrs, env);
      case TgwConnect(target) => ConnectEarns(w, target, env);
      case _ =>
    }
  }

  lemma ClusterUpEarns(w: Workspace, env: Env)
    requires w.config.Some? && w.config.value.createCluster && Step(w, ClusterUp, env).verdict == Ok
    ensures env.tf(Cluster).ok && Step(w, ClusterUp, env).after.cluster == env.tf(Cluster).left
  {
    if env.modeAgrees { ClusterUpApplies(w, env); }
  }

  lemma FlpUpEarns(w: Workspace, nodePort: Option<bool>, cidrs: Option<seq<string>>, env: Env)
    requires Step(w, FlpUp(nodePort, cidrs), env).verdict == Ok
    ensures env.tf(Flp).ok && Step(w, FlpUp(nodePort, cidrs), env).after.File(Flp) == env.tf(Flp).left
  {
  }

  lemma ConnectEarns(w: Workspace, target: string, env: Env)
    requires Step(w, TgwConnect(target), env).verdict == Ok && !env.attached
    ensures env.tf(Tgw).ok && Step(w, TgwConnect(target), env).after.File(Tgw) == env.tf(Tgw).left
  {
  }

  // ── Destroys ──────────────────────────────────────────────────────────────

  /** When the down command of phase `p` lets terraform at what is left of it. */
  ghost predicate LetsDestroy(w: Workspace, p: Phase, env: Env) {
    && w.config.Some? && env.ready(p) && (env.inputs(p) || w.config.value.prefix != "")
    && match p
       case Gateway => w.Legible() && w.VpcKnown()
       case Testing => w.Legible() && w.VpcKnown()
       case Flp => w.Legible() && (w.Standalone() || w.VpcKnown())
       case Tgw => w.Legible() && w.VpcKnown() && w.GatewayNamed()
       case Bnk => w.cluster.Readable() && !w.outputs.BadOutputs? && !(w.Legible() && w.gateway.HasAny())
       case Cluster =>
         && w.Legible() && !env.foreignSubnets
         && !w.bnk.HasAny() && !w.testing.HasAny() && !w.gateway.HasAny() && !w.flp.HasAny() && !w.tgw.HasAny()
  }

  /** A phase that holds something is destroyed exactly then, and is refused else; and the record of the
      cluster goes with the cluster, if the destroy succeeded and that can be saved. */
  lemma DownDestroysIff(w: Workspace, p: Phase, env: Env)
    requires w.File(p).HasAny()
    ensures var e := Step(w, DownOf(p), env);
            var forgets := p == Cluster && env.tf(p).ok && env.saved;
            if LetsDestroy(w, p, env) then
              Applied(w.(outputs := if forgets then NoOutputs else w.outputs), p, env, true, e)
            else e == Effect(Error, w)
  {
  }

  /** A phase that holds nothing is never touched, and that is a success unless presence cannot be read or,
      for three of the commands, there is no workspace; the cluster's also asks for its dependents first. */
  lemma DownOfNothing(w: Workspace, p: Phase, env: Env)
    requires !w.File(p).HasAny()
    ensures var e := Step(w, DownOf(p), env);
            && e.after == w && e.verdict != Crash
            && (e.verdict == Ok <==>
                  && (p in {Cluster, Bnk, Tgw} ==> w.config.Some?)
                  && (if p == Bnk then w.bnk.Readable() && w.cluster.Readable() else w.Legible())
                  && (p == Cluster ==> !w.HasDependents()))
  {
  }
}
