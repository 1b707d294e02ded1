/** The bounded kubeconfig self-heal before a remote kubectl or oc (`internal/cli/selfheal.go`). */
module SelfHeal {

  // ── The heal command ──────────────────────────────────────────────────────

  /** What `sh -c` is given: the words of the script, and the parameters from $0 on. */
  datatype Invocation = Invocation(script: seq<string>, params: seq<string>)

  function Ref(n: nat): string
    requires n < 10
  {
    "\"$" + ["0123456789"[n]] + "\""
  }

  /** A quoted reference stands for its parameter, whatever that holds; other words for themselves. */
  function Expand(word: string, params: seq<string>): string {
    if |word| == 4 && word[..2] == "\"$" && word[3] == '"' && '0' <= word[2] <= '9'
       && (word[2] as int - '0' as int) < |params|
    then params[word[2] as int - '0' as int] else word
  }

  function ExpandAll(script: seq<string>, params: seq<string>): seq<string> {
    seq(|script|, i requires 0 <= i < |script| => Expand(script[i], params))
  }

  const CONFIG_WORDS := ["ibmcloud", "ks", "cluster", "config", "--cluster", "\"$1\"", "--admin"]

  /** remoteHealCommand: the reference to an appended value is read off the length of the list. */
  method RemoteHealCommand(clusterId: string, apiKey: string, region: string, resourceGroup: string)
    returns (inv: Invocation)
    ensures ExpandAll(inv.script, inv.params) == Meant(clusterId, apiKey, region, resourceGroup)
    ensures inv.script == ScriptFor(apiKey != "", region != "", resourceGroup != "")
  {
    if apiKey == "" {
      inv := Invocation(CONFIG_WORDS, ["_", clusterId]);
    } else {
      var login := ["ibmcloud", "login", "--apikey", "\"$2\""];
      var params := ["_", clusterId, apiKey];
      if region != "" {
        params := params + [region];
        login := login + ["-r", Ref(|params| - 1)];
      }
      if resourceGroup != "" {
        params := params + [resourceGroup];
        login := login + ["-g", Ref(|params| - 1)];
      }
      inv := Invocation(login + ["&&"] + CONFIG_WORDS, params);
    }
    Refs();
    ExpandsAsMeant(clusterId, apiKey, region, resourceGroup, inv);
  }

  /** What the target should run, in the values themselves. */
  function Meant(clusterId: string, apiKey: string, region: string, resourceGroup: string): seq<string> {
    (if apiKey == "" then []
     else ["ibmcloud", "login", "--apikey", apiKey]
          + (if region == "" then [] else ["-r", region])
          + (if resourceGroup == "" then [] else ["-g", resourceGroup])
          + ["&&"])
    + ["ibmcloud", "ks", "cluster", "config", "--cluster", clusterId, "--admin"]
  }

  /** The script's text depends on which values there are, never on what they are. */
  function ScriptFor(hasKey: bool, hasRegion: bool, hasGroup: bool): seq<string> {
    (if !hasKey then []
     else ["ibmcloud", "login", "--apikey", "\"$2\""]
          + (if hasRegion then ["-r", "\"$3\""] else [])
          + (if hasGroup then ["-g", if hasRegion then "\"$4\"" else "\"$3\""] else [])
          + ["&&"])
    + CONFIG_WORDS
  }

  lemma Refs()
    ensures Ref(3) == "\"$3\"" && Ref(4) == "\"$4\""
  {
  }

  function ParamsFor(clusterId: string, apiKey: string, region: string, resourceGroup: string): seq<string> {
    ["_", clusterId]
    + (if apiKey == "" then []
       else [apiKey] + (if region == "" then [] else [region]) + (if resourceGroup == "" then [] else [resourceGroup]))
  }

  lemma ExpandConcat(a: seq<string>, b: seq<string>, params: seq<string>)
    ensures ExpandAll(a + b, params) == ExpandAll(a, params) + ExpandAll(b, params)
  {
  }

  lemma ConfigExpands(params: seq<string>)
    requires |params| > 1
    ensures ExpandAll(CONFIG_WORDS, params) == ["ibmcloud", "ks", "cluster", "config", "--cluster", params[1], "--admin"]
  {
  }

  lemma LoginExpands(params: seq<string>)
    requires |params| > 2
    ensures ExpandAll(["ibmcloud", "login", "--apikey", "\"$2\""], params) == ["ibmcloud", "login", "--apikey", params[2]]
    ensures ExpandAll(["&&"], params) == ["&&"] && ExpandAll([], params) == []
  {
  }

  lemma OptionExpands(option: string, n: nat, params: seq<string>)
    requires |option| == 2 && 3 <= n <= 4 && n < |params|
    ensures ExpandAll([option, if n == 3 then "\"$3\"" else "\"$4\""], params) == [option, params[n]]
  {
  }

  lemma ExpandsAsMeant(clusterId: string, apiKey: string, region: string, resourceGroup: string, inv: Invocation)
    requires inv.script == ScriptFor(apiKey != "", region != "", resourceGroup != "")
    requires inv.params == ParamsFor(clusterId, apiKey, region, resourceGroup)
    ensures ExpandAll(inv.script, inv.params) == Meant(clusterId, apiKey, region, resourceGroup)
  {
    hide ExpandAll;
    var p := inv.params;
    assert p[1] == clusterId;
    ConfigExpands(p);
    if apiKey != "" {
      assert p[2] == apiKey;
      LoginExpands(p);
      var login := ["ibmcloud", "login", "--apikey", "\"$2\""];
      var r := if region != "" then ["-r", "\"$3\""] else [];
      var g := if resourceGroup != "" then ["-g", if region != "" then "\"$4\"" else "\"$3\""] else [];
      if region != "" { OptionExpands("-r", 3, p); }
      if resourceGroup != "" { OptionExpands("-g", if region != "" then 4 else 3, p); }
      assert inv.script == login + r + g + ["&&"] + CONFIG_WORDS;
      ExpandConcat(login + r + g + ["&&"], CONFIG_WORDS, p);
      ExpandConcat(login + r + g, ["&&"], p);
      ExpandConcat(login + r, g, p);
      ExpandConcat(login, r, p);
    } else {
      assert inv.script == CONFIG_WORDS;
      assert [] + ["ibmcloud", "ks", "cluster", "config", "--cluster", clusterId, "--admin"]
          == ["ibmcloud", "ks", "cluster", "config", "--cluster", clusterId, "--admin"];
    }
  }

  // ── The heal loop ─────────────────────────────────────────────────────────

  /** What the target answers to one command: a transport failure, or an exit code, and whether the
      output says `rc=0`. */
  datatype Reply = TransportFailed | Exited(code: int, saysOk: bool)

  /** A probe that came back clean and found a context. */
  predicate Usable(r: Reply) {
    r.Exited? && r.code == 0 && r.saysOk
  }

  predicate ProbeFailed(r: Reply) {
    r.TransportFailed? || r.code != 0
  }

  /** One attempt as the target answers it: the heal, the probe after it, and whether the caller's
      context ends during the pause that follows. */
  datatype Attempt = Attempt(heal: Reply, probe: Reply, cancelled: bool)

  datatype Command = Probe | Heal
  datatype Verdict = Proceed | ProbeError | NoCluster | Cancelled | Outage

  predicate HealRan(a: Attempt) {
    a.heal.Exited? && a.heal.code == 0
  }

  predicate Healed(a: Attempt) {
    HealRan(a) && Usable(a.probe)
  }

  /** The commands one attempt costs. */
  function Cost(a: Attempt): seq<Command> {
    if HealRan(a) then [Heal, Probe] else [Heal]
  }

  function CostOf(attempts: nat -> Attempt, n: nat): seq<Command> {
    if n == 0 then [] else CostOf(attempts, n - 1) + Cost(attempts(n - 1))
  }

  /** The loop gets to attempt `k`: nothing before it healed the target or was cancelled. */
  ghost predicate Reaches(attempts: nat -> Attempt, k: nat) {
    forall j: nat :: j < k ==> !Healed(attempts(j)) && !attempts(j).cancelled
  }

  /** What the answers come to, with `limit` attempts. */
  ghost predicate Explains(v: Verdict, used: nat, attempts: nat -> Attempt, limit: nat) {
    && used <= limit
    && match v
       case Proceed => used > 0 && Reaches(attempts, used - 1) && Healed(attempts(used - 1))
       case Cancelled => 0 < used < limit && Reaches(attempts, used - 1) && !Healed(attempts(used - 1)) && attempts(used - 1).cancelled
       case Outage =>
         && used == limit && (limit > 0 ==> Reaches(attempts, limit - 1) && !Healed(attempts(limit - 1)))
       case _ => false
  }

  /** healRemoteKubeconfig; `used` attempts were made and `log` is what ran on the target. */
  method HealRemoteKubeconfig(clusterId: string, attempts: nat -> Attempt, limit: nat)
    returns (v: Verdict, used: nat, log: seq<Command>)
    ensures v == NoCluster <==> clusterId == ""
    ensures v == NoCluster ==> used == 0
    ensures v != NoCluster ==> Explains(v, used, attempts, limit)
    ensures v == Proceed <==>
            && clusterId != ""
            && exists k: nat :: k < limit && Reaches(attempts, k) && attempts(k).heal.Exited? && attempts(k).heal.code == 0
                                && attempts(k).probe.Exited? && attempts(k).probe.code == 0 && attempts(k).probe.saysOk
    ensures v == Cancelled <==>
            && clusterId != ""
            && exists k: nat :: k < limit && limit - k > 1 && attempts(k).cancelled && !Healed(attempts(k))
                                && forall j: nat :: j < k ==> !attempts(j).cancelled && !Healed(attempts(j))
    ensures log == CostOf(attempts, used)
  {
    if clusterId == "" {
      return NoCluster, 0, [];
    }
    used, log := 0, [];
    while used < limit
      invariant used <= limit && log == CostOf(attempts, used)
      invariant used < limit ==> Reaches(attempts, used)
      invariant used == limit > 0 ==> Reaches(attempts, limit - 1) && !Healed(attempts(limit - 1))
    {
      var a := attempts(used);
      used := used + 1;
      log := log + [Heal];
      if HealRan(a) {
        log := log + [Probe];
        if Usable(a.probe) {
          return Proceed, used, log;
        }
      }
      assert log == CostOf(attempts, used - 1) + Cost(a);
      if used < limit && a.cancelled {
        return Cancelled, used, log;
      }
    }
    return Outage, used, log;
  }

  predicate KubectlOrOc(argv: seq<string>) {
    |argv| > 0 && (argv[0] == "kubectl" || argv[0] == "oc")
  }

  /** maybeSelfHealRemoteKubeconfig: `first` answers the opening probe. */
  method MaybeSelfHeal(argv: seq<string>, clusterId: string, first: Reply, attempts: nat -> Attempt, limit: nat)
    returns (v: Verdict, used: nat, log: seq<Command>)
    ensures KubectlOrOc(argv) <==> argv != [] && argv[0] in {"kubectl", "oc"}
    ensures !KubectlOrOc(argv) ==> v == Proceed && log == []
    ensures KubectlOrOc(argv) ==> log == [Probe] + CostOf(attempts, used) && used <= limit
    ensures KubectlOrOc(argv) && first.Exited? && first.code == 0 && first.saysOk ==> v == Proceed && log == [Probe]
    ensures KubectlOrOc(argv) && (first.TransportFailed? || first.code != 0) ==> v == ProbeError && log == [Probe]
    ensures KubectlOrOc(argv) && first.Exited? && first.code == 0 && !first.saysOk ==>
              if clusterId == "" then v == NoCluster && used == 0 else Explains(v, used, attempts, limit)
  {
    used, log := 0, [];
    if !KubectlOrOc(argv) {
      return Proceed, 0, [];
    }
    log := [Probe];
    if ProbeFailed(first) {
      return ProbeError, 0, log;
    }
    if first.saysOk {
      return Proceed, 0, log;
    }
    var ran;
    v, used, ran := HealRemoteKubeconfig(clusterId, attempts, limit);
    log := log + ran;
  }

  // ── The bounds ────────────────────────────────────────────────────────────

  function HealsIn(log: seq<Command>): nat {
    if log == [] then 0 else HealsIn(log[..|log| - 1]) + (if log[|log| - 1] == Heal then 1 else 0)
  }

  lemma HealsSnoc(log: seq<Command>, c: Command)
    ensures HealsIn(log + [c]) == HealsIn(log) + (if c == Heal then 1 else 0)
  {
    assert (log + [c])[..|log|] == log;
  }

  lemma {:induction false} CostIsBounded(attempts: nat -> Attempt, n: nat)
    ensures n <= |CostOf(attempts, n)| <= 2 * n && HealsIn([Probe] + CostOf(attempts, n)) == n
  {
    hide HealsIn;
    if n == 0 {
      HealsSnoc([], Probe);
      assert [Probe] + CostOf(attempts, 0) == [] + [Probe];
      NoHeals();
    } else {
      CostIsBounded(attempts, n - 1);
      OneAttempt([Probe] + CostOf(attempts, n - 1), attempts(n - 1));
      assert [Probe] + CostOf(attempts, n) == [Probe] + CostOf(attempts, n - 1) + Cost(attempts(n - 1));
    }
  }

  lemma NoHeals()
    ensures HealsIn([]) == 0
  {
  }

  lemma OneAttempt(log: seq<Command>, a: Attempt)
    ensures HealsIn(log + Cost(a)) == HealsIn(log) + 1 && 1 <= |Cost(a)| <= 2
  {
    hide HealsIn;
    HealsSnoc(log, Heal);
    HealsSnoc(log + [Heal], Probe);
    assert log + [Heal, Probe] == log + [Heal] + [Probe];
  }

  /** The replies to the probes of a run, in order. */
  function Probed(first: Reply, attempts: nat -> Attempt, used: nat): seq<Reply> {
    if used == 0 then [first]
    else Probed(first, attempts, used - 1) + (if HealRan(attempts(used - 1)) then [attempts(used - 1).probe] else [])
  }

  /** THE BOUND: for every target and every limit N, a kubectl or oc proceeds only if the latest probe
      found a usable kubeconfig, having cost at most N heals and 1 + 2N commands; and a healthy target
      costs one probe. */
  lemma HealIsBounded(first: Reply, attempts: nat -> Attempt, limit: nat, v: Verdict, used: nat, log: seq<Command>)
    requires log == [Probe] + CostOf(attempts, used) && used <= limit
    requires if Usable(first) then v == Proceed && used == 0
             else v == ProbeError || v == NoCluster || Explains(v, used, attempts, limit)
    ensures HealsIn(log) == used <= limit && |log| <= 1 + 2 * limit
    ensures v == Proceed ==> var ps := Probed(first, attempts, used); Usable(ps[|ps| - 1])
    ensures Usable(first) ==> log == [Probe]
  {
    CostIsBounded(attempts, used);
  }

  /** What runs on the target, in order: a heal and, if it went through, the probe that judges it, for
      each attempt. So every probe but the first follows a heal, and a heal that fails is not probed. */
  lemma {:induction false} ProbesFollowHeals(attempts: nat -> Attempt, n: nat)
    ensures var log := [Probe] + CostOf(attempts, n);
            forall i :: 0 < i < |log| && log[i] == Probe ==> log[i - 1] == Heal
    ensures n > 0 ==>
              CostOf(attempts, n) == CostOf(attempts, n - 1)
                                     + (if attempts(n - 1).heal.Exited? && attempts(n - 1).heal.code == 0 then [Heal, Probe] else [Heal])
  {
    if n > 0 {
      ProbesFollowHeals(attempts, n - 1);
      var before := [Probe] + CostOf(attempts, n - 1);
      var log := [Probe] + CostOf(attempts, n);
      assert log == before + Cost(attempts(n - 1));
      forall i | 0 < i < |log| && log[i] == Probe ensures log[i - 1] == Heal {
        if i < |before| { assert before[i] == Probe; }
      }
    }
  }

  /** An outage is reported after exactly N heals, none of which left a usable kubeconfig behind. */
  lemma OutageIsNotMasked(attempts: nat -> Attempt, limit: nat, used: nat)
    requires Explains(Outage, used, attempts, limit)
    ensures used == limit && forall k: nat :: k < limit ==> !Healed(attempts(k))
    ensures HealsIn([Probe] + CostOf(attempts, used)) == limit
  {
    CostIsBounded(attempts, used);
    forall k: nat | k < limit ensures !Healed(attempts(k)) {
      if k < limit - 1 { assert Reaches(attempts, limit - 1); }
    }
  }

  /** The verdict is determined by the answers. */
  lemma VerdictIsDetermined(attempts: nat -> Attempt, limit: nat, v: Verdict, m: nat, w: Verdict, n: nat)
    requires Explains(v, m, attempts, limit) && Explains(w, n, attempts, limit)
    ensures v == w && m == n
  {
    assert v != Outage ==> Healed(attempts(m - 1)) || attempts(m - 1).cancelled;
    assert w != Outage ==> Healed(attempts(n - 1)) || attempts(n - 1).cancelled;
  }
}
