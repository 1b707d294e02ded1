/** The six phases of a workspace and what their commands do to it: `internal/cli/cluster_phase.go`,
    `bnk_phase.go`, `gateway_phase.go`, `flp_phase.go`, `tgw_phase.go` and `testing_phase.go`, with the
    preconditions that `internal/orchestration` adds and the presence rules of `internal/config/tfstate.go`.
    Terraform itself is a parameter: what it would leave in a state file, and whether it says so. */
module Phases {
  import opened Text
  import opened Wrappers

  // ── What is on disk ───────────────────────────────────────────────────────

  /** One entry of a terraform.tfstate's resource list; `id` tells equal-looking ones apart. */
  datatype Resource = Resource(id: nat, managed: bool, kind: string, path: string, instances: nat)

  datatype StateFile = Missing | Corrupt | State(resources: set<Resource>) {
    predicate Readable() { !Corrupt? }
    ghost function Contents(): set<Resource> { if State? then resources else {} }
    predicate HasAny() { State? && resources != {} }

    /** A managed cluster with at least one instance; a block without one is a husk, not a cluster. */
    predicate HasCluster() {
      State? && exists r :: r in resources && IsCluster(r)
    }
  }

  predicate IsCluster(r: Resource) {
    r.managed && r.kind == "ibm_container_vpc_cluster" && r.instances > 0 && InClusterModule(r.path)
  }

  predicate InClusterModule(path: string) {
    || path == "module.roks_cluster" || HasPrefix(path, "module.roks_cluster.")
    || path == "module.cert_manager" || HasPrefix(path, "module.cert_manager.")
    || path == "module.testing" || HasPrefix(path, "module.testing.")
  }

  datatype Phase = Cluster | Bnk | Testing | Gateway | Flp | Tgw

  /** cluster-outputs.json. */
  datatype Outputs = NoOutputs | BadOutputs | Recorded(clusterId: string, vpcId: string)

  datatype Toggle = Toggle(create: bool, existing: string)
  datatype Vsi = Vsi(vpc: string, createVpc: bool)
  datatype FlpConfig = FlpConfig(mode: string, vsi: Option<Vsi>, nodePortAccess: bool, sourceCidrs: seq<string>)

  /** The part of config.yaml that the commands read or write. */
  datatype Config = Config(
    prefix: string, createCluster: bool, clusterName: string,
    gateway: Option<Toggle>, flp: Option<FlpConfig>)

  const DEFAULT_FLP := FlpConfig("", None, false, [])

  /** A workspace: no config means it was never initialised. */
  datatype Workspace = Workspace(
    config: Option<Config>, outputs: Outputs,
    cluster: StateFile, bnk: StateFile, testing: StateFile, gateway: StateFile, flp: StateFile, tgw: StateFile)
  {
    function File(p: Phase): StateFile {
      match p
      case Cluster => cluster
      case Bnk => bnk
      case Testing => testing
      case Gateway => gateway
      case Flp => flp
      case Tgw => tgw
    }

    function With(p: Phase, f: StateFile): Workspace {
      match p
      case Cluster => this.(cluster := f)
      case Bnk => this.(bnk := f)
      case Testing => this.(testing := f)
      case Gateway => this.(gateway := f)
      case Flp => this.(flp := f)
      case Tgw => this.(tgw := f)
    }

    /** Every state file can be read, which DetectPresence needs to say anything at all. */
    predicate Legible() {
      cluster.Readable() && bnk.Readable() && testing.Readable() && gateway.Readable() && flp.Readable() && tgw.Readable()
    }

    predicate VpcKnown() { outputs.Recorded? && outputs.vpcId != "" }
    predicate ClusterKnown() { outputs.Recorded? && outputs.clusterId != "" }

    predicate Standalone() {
      && config.Some? && config.value.flp.Some? && config.value.flp.value.mode == "vsi"
      && config.value.flp.value.vsi.Some?
      && (config.value.flp.value.vsi.value.vpc != "" || config.value.flp.value.vsi.value.createVpc)
    }

    predicate GatewayNamed() {
      config.Some? && config.value.gateway.Some? && config.value.gateway.value.existing != ""
    }

    /** Some phase that lives in the cluster's network still has resources. */
    predicate HasDependents() {
      bnk.HasAny() || testing.HasAny() || gateway.HasAny() || flp.HasAny() || tgw.HasAny()
    }
  }

  // ── What the world does ───────────────────────────────────────────────────

  /** What terraform would do to a phase's state: what it leaves behind, and whether it succeeds. */
  datatype Outcome = Outcome(ok: bool, left: StateFile)

  /** The surroundings of one command. `ready(p)` says that everything before terraform acts on phase
      `p` goes well (API key, prompt, init, plan, create-time guards); `inputs(p)` that a snapshot or a
      var-file is at hand; `found` is the cluster the account knows by the asked name. */
  datatype Env = Env(
    tf: Phase -> Outcome, ready: Phase -> bool, inputs: Phase -> bool,
    modeAgrees: bool, foreignSubnets: bool,
    found: Option<(string, string)>, registryFound: bool, saved: bool, attached: bool, recorded: bool)

  datatype Verdict = Ok | Error | Crash

  datatype Command =
    | ClusterUp | ClusterRegister | ClusterDown
    | BnkUp | BnkDown
    | GatewayUp | GatewayDown
    | TestingUp | TestingDown
    | FlpUp(nodePort: Option<bool>, cidrs: Option<seq<string>>) | FlpDown
    | TgwConnect(target: string) | TgwDisconnect

  datatype Effect = Effect(verdict: Verdict, after: Workspace)

  // ── What each command should do ───────────────────────────────────────────

  /** Terraform acts on one phase. */
  function Act(w: Workspace, p: Phase, env: Env): Effect {
    Effect(if env.tf(p).ok then Ok else Error, w.With(p, env.tf(p).left))
  }

  /** A destroy also wants the variables the phase was applied with, or a prefix from which the
      config renders all of them. */
  predicate CanDestroy(w: Workspace, p: Phase, env: Env) {
    && w.config.Some? && env.ready(p)
    && (env.inputs(p) || w.config.value.prefix != "")
    && (match p
        case Cluster => true
        case Bnk => !w.outputs.BadOutputs?
        case Flp => w.Standalone() || w.VpcKnown()
        case Tgw => w.GatewayNamed() && w.VpcKnown()
        case _ => w.VpcKnown())
  }

  function AfterDestroy(w: Workspace, p: Phase, env: Env): Effect {
    if CanDestroy(w, p, env) then Act(w, p, env) else Effect(Error, w)
  }

  /** gateway, testing and flp down: nothing to do is a success, even in an uninitialised workspace. */
  function AfterPhaseDown(w: Workspace, p: Phase, env: Env): Effect {
    if !w.Legible() then Effect(Error, w)
    else if !w.File(p).HasAny() then Effect(Ok, w)
    else AfterDestroy(w, p, env)
  }

  function AfterTgwDisconnect(w: Workspace, env: Env): Effect {
    if w.config.None? then Effect(Error, w) else AfterPhaseDown(w, Tgw, env)
  }

  /** The Gateway guard asks DetectPresence, and lets the destroy through when that fails. */
  function AfterBnkDown(w: Workspace, env: Env): Effect {
    if w.config.None? || !w.bnk.Readable() || !w.cluster.Readable() then Effect(Error, w)
    else if !w.bnk.HasAny() then Effect(Ok, w)
    else if w.Legible() && w.gateway.HasAny() then Effect(Error, w)
    else AfterDestroy(w, Bnk, env)
  }

  function AfterClusterDown(w: Workspace, env: Env): Effect {
    if w.config.None? || !w.Legible() || w.HasDependents() then Effect(Error, w)
    else if !w.cluster.HasAny() then Effect(Ok, w)
    else if env.foreignSubnets then Effect(Error, w)
    else
      var e := AfterDestroy(w, Cluster, env);
      if e.verdict.Ok? && env.saved then e.(after := e.after.(outputs := NoOutputs)) else e
  }

  /** Attaching is best effort: it never fails the cluster command that tries it. */
  function AfterAutoConnect(w: Workspace, env: Env): Workspace {
    if w.GatewayNamed() && !w.config.value.gateway.value.create then AfterAttach(w, env).after else w
  }

  /** RunTGWConnect. A VPC that is attached already is only recorded. */
  function AfterAttach(w: Workspace, env: Env): Effect {
    if w.config.None? then Effect(Error, w)
    else if w.GatewayNamed() && w.VpcKnown() && env.attached then Effect(Ok, w)
    else if !w.GatewayNamed() || !w.VpcKnown() || !env.ready(Tgw) then Effect(Error, w)
    else
      var e := Act(w, Tgw, env);
      if e.verdict.Ok? && !env.recorded then e.(verdict := Error) else e
  }

  function AfterRegister(w: Workspace, env: Env): Effect {
    if w.config.None? || env.found.None? || env.found.value.1 == "" || !env.registryFound || !env.saved then Effect(Error, w)
    else Effect(Ok, AfterAutoConnect(w.(outputs := Recorded(env.found.value.0, env.found.value.1)), env))
  }

  function AfterClusterUp(w: Workspace, env: Env): Effect {
    if w.config.None? || !env.modeAgrees then Effect(Error, w)
    else if !w.config.value.createCluster then
      if w.config.value.clusterName == "" then Effect(Error, w) else AfterRegister(w, env)
    else if !env.ready(Cluster) then Effect(Error, w)
    else
      var e := Act(w, Cluster, env);
      if !e.verdict.Ok? then e else Effect(Ok, AfterAutoConnect(AfterRecording(e.after, env), env))
  }

  /** Recording what was built is best effort too, and does not ask whether the VPC is known. */
  function AfterRecording(w: Workspace, env: Env): Workspace {
    if env.found.Some? && env.saved then w.(outputs := Recorded(env.found.value.0, env.found.value.1)) else w
  }

  function AfterTrialUp(w: Workspace, env: Env): Effect {
    if w.config.None? || w.outputs.BadOutputs? || !env.ready(Bnk) then Effect(Error, w) else Act(w, Bnk, env)
  }

  function AfterBnkUp(w: Workspace, env: Env): Effect {
    if !w.bnk.Readable() || !w.cluster.Readable() then Effect(Error, w)
    else if w.bnk.HasAny() || w.cluster.HasAny() then AfterTrialUp(w, env)
    else
      var e := AfterClusterUp(w, env);
      if !e.verdict.Ok? then e else AfterTrialUp(e.after, env)
  }

  function AfterGatewayUp(w: Workspace, env: Env): Effect {
    if !w.Legible() || !(w.cluster.HasCluster() || w.bnk.HasAny()) then Effect(Error, w)
    else if w.config.None? || !env.ready(Gateway) || !w.VpcKnown() then Effect(Error, w)
    else Act(w, Gateway, env)
  }

  function AfterTestingUp(w: Workspace, env: Env): Effect {
    if w.config.None? || !env.ready(Testing) || !w.VpcKnown() then Effect(Error, w) else Act(w, Testing, env)
  }

  /** Only the flags that were given change the stored intent. */
  function Intended(f: Option<FlpConfig>, nodePort: Option<bool>, cidrs: Option<seq<string>>): FlpConfig {
    var base := if f.Some? then f.value else DEFAULT_FLP;
    FlpConfig(base.mode, base.vsi,
              if nodePort.Some? then nodePort.value else base.nodePortAccess,
              if cidrs.Some? then cidrs.value else base.sourceCidrs)
  }

  /** The standalone question is put to a workspace that may not exist, and that is a nil dereference. */
  function AfterFlpUp(w: Workspace, nodePort: Option<bool>, cidrs: Option<seq<string>>, env: Env): Effect {
    if !w.Legible() then Effect(Error, w)
    else if w.config.None? then Effect(Crash, w)
    else if !w.Standalone() && !w.cluster.HasCluster() && !w.ClusterKnown() then Effect(Error, w)
    else if nodePort.None? && cidrs.None? then AfterInstall(w, env)
    else if !env.saved then Effect(Error, w)
    else AfterInstall(w.(config := Some(w.config.value.(flp := Some(Intended(w.config.value.flp, nodePort, cidrs))))), env)
  }

  function AfterInstall(w: Workspace, env: Env): Effect {
    if !env.ready(Flp) || !(w.Standalone() || w.VpcKnown()) then Effect(Error, w)
    else
      var e := Act(w, Flp, env);
      if e.verdict.Ok? && !env.recorded then e.(verdict := Error) else e
  }

  function AfterTgwConnect(w: Workspace, target: string, env: Env): Effect {
    if !w.Legible() || !(w.cluster.HasCluster() || w.VpcKnown()) then Effect(Error, w)
    else if target == "" then AfterAttach(w, env)
    else if w.config.None? then Effect(Crash, w)
    else if !env.saved then Effect(Error, w)
    else AfterAttach(w.(config := Some(w.config.value.(gateway := Some(Toggle(false, target))))), env)
  }

  function Step(w: Workspace, c: Command, env: Env): Effect {
    match c
    case ClusterUp => AfterClusterUp(w, env)
    case ClusterRegister => AfterRegister(w, env)
    case ClusterDown => AfterClusterDown(w, env)
    case BnkUp => AfterBnkUp(w, env)
    case BnkDown => AfterBnkDown(w, env)
    case GatewayUp => AfterGatewayUp(w, env)
    case GatewayDown => AfterPhaseDown(w, Gateway, env)
    case TestingUp => AfterTestingUp(w, env)
    case TestingDown => AfterPhaseDown(w, Testing, env)
    case FlpUp(nodePort, cidrs) => AfterFlpUp(w, nodePort, cidrs, env)
    case FlpDown => AfterPhaseDown(w, Flp, env)
    case TgwConnect(target) => AfterTgwConnect(w, target, env)
    case TgwDisconnect => AfterTgwDisconnect(w, env)
  }
}
