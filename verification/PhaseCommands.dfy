/** The phase commands as the CLI runs them, step by step against the files of a workspace
    (the `_phase.go` files of `internal/cli` and the phase entry points of `internal/orchestration`). Every method
    is proved to leave the files as the corresponding function of module Phases says. */
module PhaseCommands {
  import opened Phases
  import opened Wrappers

  datatype Presence = Presence(
    cluster: bool, residual: bool, bnk: bool, testing: bool, gateway: bool, flp: bool, tgw: bool)

  datatype Shape = ShapeEmpty | ShapeClusterOnly | ShapeSplit

  class Store {
    var config: Option<Config>
    var outputs: Outputs
    var cluster: StateFile
    var bnk: StateFile
    var testing: StateFile
    var gateway: StateFile
    var flp: StateFile
    var tgw: StateFile

    function Value(): Workspace
      reads this
    {
      Workspace(config, outputs, cluster, bnk, testing, gateway, flp, tgw)
    }

    constructor (w: Workspace)
      ensures Value() == w
    {
      config, outputs := w.config, w.outputs;
      cluster, bnk, testing, gateway, flp, tgw := w.cluster, w.bnk, w.testing, w.gateway, w.flp, w.tgw;
    }

    /** One unreadable state file makes the whole answer an error. */
    method DetectPresence() returns (p: Option<Presence>)
      ensures p.Some? <==> Value().Legible()
      ensures p.Some? ==> p.value == Presence(cluster.HasCluster(), cluster.HasAny(), bnk.HasAny(), testing.HasAny(),
                                              gateway.HasAny(), flp.HasAny(), tgw.HasAny())
    {
      if cluster.Corrupt? { return None; }
      var hasCluster, residual := cluster.HasCluster(), cluster.HasAny();
      if bnk.Corrupt? { return None; }
      if testing.Corrupt? { return None; }
      if gateway.Corrupt? { return None; }
      if flp.Corrupt? { return None; }
      if tgw.Corrupt? { return None; }
      p := Some(Presence(hasCluster, residual, bnk.HasAny(), testing.HasAny(), gateway.HasAny(), flp.HasAny(), tgw.HasAny()));
    }

    /** The older question looks at two of the files only. */
    method DetectShape() returns (s: Option<Shape>)
      ensures s.Some? <==> bnk.Readable() && cluster.Readable()
      ensures s == Some(ShapeSplit) <==> bnk.HasAny() && cluster.Readable()
      ensures s == Some(ShapeEmpty) <==> bnk.Readable() && cluster.Readable() && !bnk.HasAny() && !cluster.HasAny()
    {
      if bnk.Corrupt? { return None; }
      if cluster.Corrupt? { return None; }
      if bnk.HasAny() { return Some(ShapeSplit); }
      s := if cluster.HasAny() then Some(ShapeClusterOnly) else Some(ShapeEmpty);
    }

    /** terraform writes one phase's state file, and no other. */
    method Terraform(p: Phase, env: Env) returns (ok: bool)
      modifies this
      ensures ok == env.tf(p).ok && Value() == old(Value()).With(p, env.tf(p).left)
    {
      ok := env.tf(p).ok;
      match p {
        case Cluster => cluster := env.tf(p).left;
        case Bnk => bnk := env.tf(p).left;
        case Testing => testing := env.tf(p).left;
        case Gateway => gateway := env.tf(p).left;
        case Flp => flp := env.tf(p).left;
        case Tgw => tgw := env.tf(p).left;
      }
    }

    /** RunGatewayDown, RunTestingDown, RunFLPDown, RunTGWDisconnect, RunTrialDown, and the tail of
        runClusterDown: open, hand over the cluster's identity, ask for inputs, destroy. */
    method Destroy(p: Phase, env: Env) returns (v: Verdict)
      modifies this
      ensures Effect(v, Value()) == AfterDestroy(old(Value()), p, env)
    {
      if config.None? || !env.ready(p) {
        return Error;
      }
      var w := Value();
      match p {
        case Cluster =>
        case Bnk =>
          if w.outputs.BadOutputs? { return Error; }
        case Flp =>
          if !w.Standalone() && !w.VpcKnown() { return Error; }
        case Tgw =>
          if !w.GatewayNamed() || !w.VpcKnown() { return Error; }
        case _ =>
          if !w.VpcKnown() { return Error; }
      }
      if !env.inputs(p) && config.value.prefix == "" {
        return Error;
      }
      var ok := Terraform(p, env);
      v := if ok then Ok else Error;
    }

    method GatewayDown(env: Env) returns (v: Verdict)
      modifies this
      ensures Effect(v, Value()) == Step(old(Value()), Command.GatewayDown, env)
    {
      var pres := DetectPresence();
      if pres.None? { return Error; }
      if !pres.value.gateway { return Ok; }
      v := Destroy(Gateway, env);
    }

    method TestingDown(env: Env) returns (v: Verdict)
      modifies this
      ensures Effect(v, Value()) == Step(old(Value()), Command.TestingDown, env)
    {
      var pres := DetectPresence();
      if pres.None? { return Error; }
      if !pres.value.testing { return Ok; }
      v := Destroy(Testing, env);
    }

    method FlpDown(env: Env) returns (v: Verdict)
      modifies this
      ensures Effect(v, Value()) == Step(old(Value()), Command.FlpDown, env)
    {
      var pres := DetectPresence();
      if pres.None? { return Error; }
      if !pres.value.flp { return Ok; }
      v := Destroy(Flp, env);
    }

    method TgwDisconnect(env: Env) returns (v: Verdict)
      modifies this
      ensures Effect(v, Value()) == Step(old(Value()), Command.TgwDisconnect, env)
    {
      if config.None? { return Error; }
      var pres := DetectPresence();
      if pres.None? { return Error; }
      if !pres.value.tgw { return Ok; }
      v := Destroy(Tgw, env);
    }

    method BnkDown(env: Env) returns (v: Verdict)
      modifies this
      ensures Effect(v, Value()) == Step(old(Value()), Command.BnkDown, env)
    {
      if config.None? { return Error; }
      var shape := DetectShape();
      if shape.None? { return Error; }
      if shape.value != ShapeSplit { return Ok; }
      var pres := DetectPresence();
      if pres.Some? && pres.value.gateway { return Error; }
      v := Destroy(Bnk, env);
    }

    method ClusterDown(env: Env) returns (v: Verdict)
      modifies this
      ensures Effect(v, Value()) == Step(old(Value()), Command.ClusterDown, env)
    {
      if config.None? { return Error; }
      var pres := DetectPresence();
      if pres.None? { return Error; }
      var p := pres.value;
      if p.bnk || p.testing || p.gateway || p.flp || p.tgw { return Error; }
      if !p.cluster && !p.residual { return Ok; }
      if env.foreignSubnets { return Error; }
      v := Destroy(Cluster, env);
      if v == Ok && env.saved {
        outputs := NoOutputs;
      }
    }

    /** RunTGWConnect. */
    method Attach(env: Env) returns (v: Verdict)
      modifies this
      ensures Effect(v, Value()) == AfterAttach(old(Value()), env)
    {
      if config.None? { return Error; }
      var w := Value();
      if w.GatewayNamed() && w.VpcKnown() && env.attached { return Ok; }
      if !w.GatewayNamed() || !w.VpcKnown() || !env.ready(Tgw) { return Error; }
      var ok := Terraform(Tgw, env);
      if !ok { return Error; }
      v := if env.recorded then Ok else Error;
    }

    method AutoConnect(env: Env)
      modifies this
      ensures Value() == AfterAutoConnect(old(Value()), env)
    {
      if config.None? || config.value.gateway.None? || config.value.gateway.value.create
         || config.value.gateway.value.existing == ""
      {
        return;
      }
      var _ := Attach(env);
    }

    method ClusterRegister(env: Env) returns (v: Verdict)
      modifies this
      ensures Effect(v, Value()) == Step(old(Value()), Command.ClusterRegister, env)
    {
      if config.None? || env.found.None? { return Error; }
      var (id, vpc) := env.found.value;
      if vpc == "" { return Error; }
      if !env.registryFound || !env.saved { return Error; }
      outputs := Recorded(id, vpc);
      AutoConnect(env);
      v := Ok;
    }

    method ClusterUp(env: Env) returns (v: Verdict)
      modifies this
      ensures Effect(v, Value()) == Step(old(Value()), Command.ClusterUp, env)
    {
      if config.Some? && !env.modeAgrees { return Error; }
      if config.Some? && !config.value.createCluster {
        if config.value.clusterName == "" { return Error; }
        v := ClusterRegister(env);
        return;
      }
      if config.None? || !env.ready(Cluster) { return Error; }
      var ok := Terraform(Cluster, env);
      if !ok { return Error; }
      if env.found.Some? && env.saved {
        outputs := Recorded(env.found.value.0, env.found.value.1);
      }
      AutoConnect(env);
      v := Ok;
    }

    method BnkUp(env: Env) returns (v: Verdict)
      modifies this
      ensures Effect(v, Value()) == Step(old(Value()), Command.BnkUp, env)
    {
      var shape := DetectShape();
      if shape.None? { return Error; }
      if shape.value == ShapeEmpty {
        v := ClusterUp(env);
        if v != Ok { return; }
      }
      if config.None? || outputs.BadOutputs? || !env.ready(Bnk) { return Error; }
      var ok := Terraform(Bnk, env);
      v := if ok then Ok else Error;
    }

    method GatewayUp(env: Env) returns (v: Verdict)
      modifies this
      ensures Effect(v, Value()) == Step(old(Value()), Command.GatewayUp, env)
    {
      var pres := DetectPresence();
      if pres.None? { return Error; }
      if !pres.value.cluster && !pres.value.bnk { return Error; }
      if config.None? || !env.ready(Gateway) || !Value().VpcKnown() { return Error; }
      var ok := Terraform(Gateway, env);
      v := if ok then Ok else Error;
    }

    method TestingUp(env: Env) returns (v: Verdict)
      modifies this
      ensures Effect(v, Value()) == Step(old(Value()), Command.TestingUp, env)
    {
      if config.None? || !env.ready(Testing) || !Value().VpcKnown() { return Error; }
      var ok := Terraform(Testing, env);
      v := if ok then Ok else Error;
    }

    /** RunFLPUp. */
    method Install(env: Env) returns (v: Verdict)
      requires config.Some?
      modifies this
      ensures Effect(v, Value()) == AfterInstall(old(Value()), env)
    {
      if !env.ready(Flp) || !(Value().Standalone() || Value().VpcKnown()) { return Error; }
      var ok := Terraform(Flp, env);
      if !ok { return Error; }
      v := if env.recorded then Ok else Error;
    }

    /** The node-port intent is written to config.yaml before the apply, so that it outlives it. */
    method FlpUp(nodePort: Option<bool>, cidrs: Option<seq<string>>, env: Env) returns (v: Verdict)
      modifies this
      ensures Effect(v, Value()) == Step(old(Value()), Command.FlpUp(nodePort, cidrs), env)
    {
      hide AfterInstall;
      var pres := DetectPresence();
      if pres.None? { return Error; }
      if config.None? { return Crash; }
      var standalone := Value().Standalone();
      if !standalone && !pres.value.cluster && !Value().ClusterKnown() { return Error; }
      if nodePort.Some? || cidrs.Some? {
        var f := if config.value.flp.Some? then config.value.flp.value else DEFAULT_FLP;
        if nodePort.Some? {
          f := f.(nodePortAccess := nodePort.value);
        }
        if cidrs.Some? {
          f := f.(sourceCidrs := cidrs.value);
        }
        if !env.saved { return Error; }
        config := Some(config.value.(flp := Some(f)));
      }
      v := Install(env);
    }

    /** A named gateway is written to config.yaml before the attach, so that later runs keep it. */
    method TgwConnect(target: string, env: Env) returns (v: Verdict)
      modifies this
      ensures Effect(v, Value()) == Step(old(Value()), Command.TgwConnect(target), env)
    {
      var pres := DetectPresence();
      if pres.None? { return Error; }
      if !pres.value.cluster && !Value().VpcKnown() { return Error; }
      if target != "" {
        if config.None? { return Crash; }
        if !env.saved { return Error; }
        config := Some(config.value.(gateway := Some(Toggle(false, target))));
      }
      v := Attach(env);
    }
  }
}
