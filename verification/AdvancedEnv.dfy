/** The computed family of environment overrides for `bnk.advanced` (`internal/config/advanced_env.go`). */
module AdvancedEnv {
  import opened Text
  import opened Ordering
  import opened Wrappers

  const PREFIX := "ROKSBNKCTL_BNK_ADV_"
  const INFIX := "_ENV_"

  // ── Names ─────────────────────────────────────────────────────────────────

  /** splitAdvancedEnvName: the component and the variable, cut at the first infix. */
  function Split(name: string): Option<(string, string)> {
    var rest := if HasPrefix(name, PREFIX) then name[|PREFIX|..] else name;
    var i := Index(rest, INFIX);
    if i.None? || i.value == 0 then None
    else
      var component, envName := rest[..i.value], rest[i.value + |INFIX|..];
      if component == "" || envName == "" then None else Some((component, envName))
  }

  predicate HasSuffix(s: string, p: string) {
    |p| <= |s| && s[|s| - |p|..] == p
  }

  /** A component that the first infix after it really ends. */
  ghost predicate Splittable(c: string, n: string) {
    c != "" && n != "" && !Contains(c, INFIX) && !HasSuffix(c, "_ENV")
  }

  /** An infix that starts inside the component lies in it wholly, or overlaps the real one by its last character. */
  lemma InfixInside(c: string, n: string, i: nat)
    requires i < |c|
    ensures OccursAt(c + INFIX + n, INFIX, i) <==> OccursAt(c, INFIX, i) || (i == |c| - 4 && HasSuffix(c, "_ENV"))
  {
    var s := c + INFIX + n;
    var k := |c| - i;
    assert s[..|c|] == c && s[|c|..] == INFIX + n;
    if k >= 5 {
      assert s[i..i + 5] == c[i..i + 5];
    } else {
      assert s[i..i + 5] == c[i..] + INFIX[..5 - k];
      if OccursAt(s, INFIX, i) {
        assert INFIX[k] == s[i + k] == INFIX[0];
        assert k == 4;
        assert c[i..] == s[i..i + 4] == "_ENV_"[..4];
      }
      if k == 4 && HasSuffix(c, "_ENV") {
        assert "_ENV" + INFIX[..1] == INFIX;
      }
    }
  }

  /** Splitting undoes joining, for exactly the components that do not hide an infix. */
  lemma SplitJoinIff(c: string, n: string)
    ensures Split(PREFIX + c + INFIX + n) == Some((c, n)) <==> Splittable(c, n)
  {
    var name := PREFIX + c + INFIX + n;
    var rest := c + INFIX + n;
    assert name == PREFIX + rest;
    assert HasPrefix(name, PREFIX) && name[|PREFIX|..] == rest;
    assert rest[|c|..|c| + |INFIX|] == INFIX && rest[|c| + |INFIX|..] == n && rest[..|c|] == c;
    assert OccursAt(rest, INFIX, |c|);
    var i := Index(rest, INFIX);
    assert i.Some? && i.value <= |c|;
    if i.value < |c| {
      InfixInside(c, n, i.value);
      assert Contains(c, INFIX) || HasSuffix(c, "_ENV");
      assert rest[..i.value] != c;
    } else {
      if j: nat :| OccursAt(c, INFIX, j) {
        InfixInside(c, n, j);
      }
      if HasSuffix(c, "_ENV") {
        InfixInside(c, n, |c| - 4);
      }
    }
  }

  /** Joining undoes splitting, and what a split yields can be split again. */
  lemma JoinSplitName(name: string)
    requires HasPrefix(name, PREFIX) && Split(name).Some?
    ensures var (c, n) := Split(name).value; name == PREFIX + c + INFIX + n && Splittable(c, n)
  {
    var rest := name[|PREFIX|..];
    var i := Index(rest, INFIX).value;
    var (c, n) := Split(name).value;
    assert rest == rest[..i] + rest[i..i + |INFIX|] + rest[i + |INFIX|..];
    assert name == PREFIX + rest;
    assert name == PREFIX + c + INFIX + n;
    SplitJoinIff(c, n);
  }

  // ── Components ────────────────────────────────────────────────────────────

  function UpperChar(c: char): char {
    if 'a' <= c <= 'z' then c - 32 as char else c
  }

  function LowerChar(c: char): char {
    if 'A' <= c <= 'Z' then c + 32 as char else c
  }

  function ToUpper(s: string): string {
    seq(|s|, i requires 0 <= i < |s| => UpperChar(s[i]))
  }

  function ToLower(s: string): string {
    seq(|s|, i requires 0 <= i < |s| => LowerChar(s[i]))
  }

  const KNOWN_COMPONENTS: map<string, string> := map[
    "TMM" := "tmm", "CNECONTROLLER" := "cneController", "COREMON" := "coremon", "PSEUDOCNI" := "pseudoCNI",
    "EXTERNALBIGIP" := "externalBigip", "IPAMCONTROLLER" := "ipamController", "ENVDISCOVERY" := "envDiscovery",
    "CRDCONVERSION" := "crdConversion", "OBSERVER" := "observer", "FLUENTD" := "fluentd", "OTEL" := "otel",
    "RABBITMQ" := "rabbitmq", "CWC" := "cwc"]

  function CanonicalComponent(segment: string): string {
    if ToUpper(segment) in KNOWN_COMPONENTS then KNOWN_COMPONENTS[ToUpper(segment)] else ToLower(segment)
  }

  /** Spellings that differ in case only name the same component. */
  lemma CanonicalIgnoresCase(a: string, b: string)
    requires ToUpper(a) == ToUpper(b)
    ensures CanonicalComponent(a) == CanonicalComponent(b)
  {
    assert |a| == |ToUpper(a)| == |b|;
    forall i | 0 <= i < |a| ensures LowerChar(a[i]) == LowerChar(b[i]) {
      assert ToUpper(a)[i] == UpperChar(a[i]) && ToUpper(b)[i] == UpperChar(b[i]);
    }
    assert ToLower(a) == ToLower(b);
  }

  const COMPONENTS := {
    "tmm", "cneController", "coremon", "pseudoCNI", "externalBigip", "ipamController", "envDiscovery",
    "crdConversion", "observer", "fluentd", "otel", "rabbitmq", "cwc"}

  /** A segment that spells a known component, in whatever case, names it as the product spells it; any
      other names the component it spells in lower case. */
  lemma ComponentIsCanonical(segment: string)
    ensures forall c :: c in COMPONENTS && ToLower(c) == ToLower(segment) ==> CanonicalComponent(segment) == c
    ensures (forall c :: c in COMPONENTS ==> ToLower(c) != ToLower(segment)) ==> CanonicalComponent(segment) == ToLower(segment)
  {
    hide ToLower, ToUpper;
    KnownAreComponents();
    forall c | c in COMPONENTS && ToLower(c) == ToLower(segment) ensures ToUpper(c) == ToUpper(segment) {
      CaseAgrees(c, segment);
    }
    if ToUpper(segment) in KNOWN_COMPONENTS {
      var c := KNOWN_COMPONENTS[ToUpper(segment)];
      CaseAgrees(c, segment);
    }
  }

  lemma CaseAgrees(a: string, b: string)
    ensures ToLower(a) == ToLower(b) <==> ToUpper(a) == ToUpper(b)
  {
    if ToLower(a) == ToLower(b) {
      assert |a| == |ToLower(a)| == |b|;
      forall i | 0 <= i < |a| ensures UpperChar(a[i]) == UpperChar(b[i]) {
        assert ToLower(a)[i] == LowerChar(a[i]) && ToLower(b)[i] == LowerChar(b[i]);
      }
      assert ToUpper(a) == ToUpper(b);
    }
    if ToUpper(a) == ToUpper(b) {
      assert |a| == |ToUpper(a)| == |b|;
      forall i | 0 <= i < |a| ensures LowerChar(a[i]) == LowerChar(b[i]) {
        assert ToUpper(a)[i] == UpperChar(a[i]) && ToUpper(b)[i] == UpperChar(b[i]);
      }
      assert ToLower(a) == ToLower(b);
    }
  }

  /** Every known component is listed under its own name in upper case. */
  lemma KnownAreComponents()
    ensures forall c :: c in COMPONENTS ==> ToUpper(c) in KNOWN_COMPONENTS && KNOWN_COMPONENTS[ToUpper(c)] == c
    ensures forall k :: k in KNOWN_COMPONENTS ==> KNOWN_COMPONENTS[k] in COMPONENTS && ToUpper(KNOWN_COMPONENTS[k]) == k
  {
    hide ToUpper;
    UpperPlain();
    UpperMixed();
    UpperLong();
  }

  lemma UpperPlain()
    ensures ToUpper("tmm") == "TMM" && ToUpper("coremon") == "COREMON" && ToUpper("observer") == "OBSERVER"
    ensures ToUpper("fluentd") == "FLUENTD" && ToUpper("otel") == "OTEL" && ToUpper("rabbitmq") == "RABBITMQ"
    ensures ToUpper("cwc") == "CWC"
  {
  }

  lemma UpperMixed()
    ensures ToUpper("cneController") == "CNECONTROLLER" && ToUpper("pseudoCNI") == "PSEUDOCNI"
    ensures ToUpper("externalBigip") == "EXTERNALBIGIP"
  {
  }

  lemma UpperLong()
    ensures ToUpper("ipamController") == "IPAMCONTROLLER" && ToUpper("envDiscovery") == "ENVDISCOVERY"
    ensures ToUpper("crdConversion") == "CRDCONVERSION"
  {
  }

  // ── Merging ───────────────────────────────────────────────────────────────

  type Env = map<string, string>
  type Advanced = map<string, map<string, string>>

  predicate IsOverride(name: string) {
    HasPrefix(name, PREFIX) && Split(name).Some?
  }

  function OverrideNames(environ: Env): set<string> {
    set name | name in environ && IsOverride(name)
  }

  /** The overrides of an environment, in name order. */
  ghost function SortedNames(environ: Env): (names: seq<string>)
    ensures multiset(names) == multiset(OverrideNames(environ)) && Sorted(names, StringLeq)
    ensures forall n :: n in names <==> n in environ && IsOverride(n)
  {
    SameMembers(SortedKeys(OverrideNames(environ)), OverrideNames(environ));
    SortedKeys(OverrideNames(environ))
  }

  function Target(name: string): (string, string)
    requires IsOverride(name)
  {
    (CanonicalComponent(Split(name).value.0), Split(name).value.1)
  }

  /** envValue: what the lookup in use says for this name; nothing, if it does not know it. */
  function ValueOf(values: Env, name: string): string {
    if name in values then TrimSpace(values[name]) else ""
  }

  function Get(adv: Advanced, t: (string, string)): Option<string> {
    if t.0 in adv && t.1 in adv[t.0] then Some(adv[t.0][t.1]) else None
  }

  function Put(adv: Advanced, t: (string, string), v: string): Advanced {
    adv[t.0 := (if t.0 in adv then adv[t.0] else map[])[t.1 := v]]
  }

  lemma PutGet(adv: Advanced, t: (string, string), v: string, u: (string, string))
    ensures Get(Put(adv, t, v), u) == if u == t then Some(v) else Get(adv, u)
  {
  }

  /** The first of these names to speak for this target, with what it says. */
  function FirstFor(names: seq<string>, values: Env, t: (string, string)): Option<string>
    requires forall n :: n in names ==> IsOverride(n)
  {
    if names == [] then None
    else
      var before := FirstFor(names[..|names| - 1], values, t);
      var n := names[|names| - 1];
      if before.Some? then before
      else if Target(n) == t && ValueOf(values, n) != "" then Some(ValueOf(values, n))
      else None
  }

  /** Override `k` says `v` for the target, and none before it says anything for it. */
  ghost predicate SpeaksFirst(names: seq<string>, values: Env, t: (string, string), k: nat, v: string)
    requires forall n :: n in names ==> IsOverride(n)
  {
    && k < |names| && Target(names[k]) == t && names[k] in values && TrimSpace(values[names[k]]) == v != ""
    && forall j :: 0 <= j < k ==> Target(names[j]) != t || names[j] !in values || TrimSpace(values[names[j]]) == ""
  }

  /** Among overrides the first in name order wins, however many there are for a target. */
  lemma {:induction false} FirstOverrideWins(names: seq<string>, values: Env, t: (string, string), v: string)
    requires forall n :: n in names ==> IsOverride(n)
    ensures FirstFor(names, values, t) == Some(v) <==> exists k: nat :: SpeaksFirst(names, values, t, k, v)
    decreases |names|
  {
    hide IsOverride, Target, TrimSpace;
    if names != [] {
      var n := |names| - 1;
      FirstOverrideWins(names[..n], values, t, v);
      forall k: nat | k < n ensures SpeaksFirst(names, values, t, k, v) <==> SpeaksFirst(names[..n], values, t, k, v) { }
      var before := FirstFor(names[..n], values, t);
      if before.Some? {
        FirstOverrideWins(names[..n], values, t, before.value);
        var k: nat :| SpeaksFirst(names[..n], values, t, k, before.value);
        assert SpeaksFirst(names, values, t, k, before.value);
      } else {
        NoneSpeaks(names[..n], values, t);
        assert SpeaksFirst(names, values, t, n, v) <==> Target(names[n]) == t && ValueOf(values, names[n]) == v != "";
      }
    }
  }

  lemma {:induction false} NoneSpeaks(names: seq<string>, values: Env, t: (string, string))
    requires (forall n :: n in names ==> IsOverride(n)) && FirstFor(names, values, t).None?
    ensures forall j :: 0 <= j < |names| ==> Target(names[j]) != t || ValueOf(values, names[j]) == ""
    decreases |names|
  {
    hide IsOverride, Target, ValueOf;
    if names != [] {
      NoneSpeaks(names[..|names| - 1], values, t);
    }
  }

  /** What a target ends up with: the value it had before; else that of the first override for it. */
  function Winner(adv: Advanced, names: seq<string>, values: Env, t: (string, string)): Option<string>
    requires forall n :: n in names ==> IsOverride(n)
  {
    if Get(adv, t).Some? then Get(adv, t) else FirstFor(names, values, t)
  }

  /** AdvancedEnvOverrideNames, over an environment visited in whatever order. */
  method AdvancedEnvOverrideNames(environ: Env) returns (names: seq<string>)
    ensures names == SortedNames(environ)
  {
    hide StringLeq, IsOverride, Sorted;
    var visited := CollectKeys(environ);
    names := [];
    for i := 0 to |visited|
      invariant multiset(names) == multiset(set n | n in visited[..i] && IsOverride(n))
      invariant multiset(visited) == multiset(environ.Keys)
    {
      OnceOnly(visited, environ.Keys, i);
      var before, after := set n | n in visited[..i] && IsOverride(n), set n | n in visited[..i + 1] && IsOverride(n);
      assert visited[..i + 1] == visited[..i] + [visited[i]];
      if HasPrefix(visited[i], PREFIX) && Split(visited[i]).Some? {
        assert IsOverride(visited[i]) by { Spelled(visited[i]); }
        assert after == before + {visited[i]};
        names := names + [visited[i]];
      } else {
        assert !IsOverride(visited[i]) by { Spelled(visited[i]); }
        assert after == before;
      }
    }
    assert visited[..|visited|] == visited;
    SameMembers(visited, environ.Keys);
    assert (set n | n in visited && IsOverride(n)) == OverrideNames(environ);
    StringPreorder();
    names := Sort(names, StringLeq);
    SortedKeysUnique(names, OverrideNames(environ));
  }

  lemma Spelled(name: string)
    ensures IsOverride(name) <==> HasPrefix(name, PREFIX) && Split(name).Some?
  {
  }

  /** OverrideAdvancedEnvFromEnv. The names come from the process environment, the values from the lookup
      in use, which OverrideFromMap swaps. The result is a function of the two, not of the order the
      environment is visited in: every target has its winner's value, and an override is reported as
      applied exactly if it says something and the result agrees with it. */
  method OverrideAdvancedEnvFromEnv(adv0: Advanced, environ: Env, values: Env)
    returns (adv: Advanced, applied: seq<string>)
    ensures forall t :: Get(adv, t) == Winner(adv0, SortedNames(environ), values, t)
    ensures forall n :: n in applied <==>
                        n in OverrideNames(environ) && ValueOf(values, n) != "" && Get(adv, Target(n)) == Some(ValueOf(values, n))
    ensures Sorted(applied, StringLeq)
    ensures applied == Applied(adv, SortedNames(environ), values)
  {
    hide Split, IsOverride, StringLeq, TrimSpace, CanonicalComponent, Sorted, Get, Put, Winner;
    var names := AdvancedEnvOverrideNames(environ);
    adv, applied := adv0, [];
    StartsUnmerged(adv0, names, values);
    for i := 0 to |names|
      invariant forall t :: Get(adv, t) == Winner(adv0, names[..i], values, t)
      invariant applied == Applied(adv, names[..i], values)
    {
      var name := names[i];
      assert name in names;
      var v := ValueOf(values, name);
      assert names[..i + 1][..i] == names[..i];
      if v == "" {
        SilentChangesNothing(adv0, adv, names, values, i);
        continue;
      }
      var t := Target(name);
      MergeOne(adv0, adv, names, values, i);
      var prior := Get(adv, t);
      if prior.Some? && prior.value != v {
        continue;
      }
      adv := Put(adv, t, v);
      applied := applied + [name];
    }
    assert names[..|names|] == names;
    AppliedIffAgreed(adv, names, values);
    AppliedInOrder(adv, names, values);
  }

  /** The names, among these, that the merged map agrees with. */
  function Applied(adv: Advanced, names: seq<string>, values: Env): seq<string>
    requires forall n :: n in names ==> IsOverride(n)
  {
    if names == [] then []
    else
      var n := names[|names| - 1];
      Applied(adv, names[..|names| - 1], values)
      + (if ValueOf(values, n) != "" && Get(adv, Target(n)) == Some(ValueOf(values, n)) then [n] else [])
  }

  lemma {:induction false} AppliedIffAgreed(adv: Advanced, names: seq<string>, values: Env)
    requires forall n :: n in names ==> IsOverride(n)
    ensures forall n :: n in Applied(adv, names, values) <==>
                        n in names && ValueOf(values, n) != "" && Get(adv, Target(n)) == Some(ValueOf(values, n))
    decreases |names|
  {
    hide IsOverride, Target, ValueOf, Get;
    if names != [] {
      var n := |names| - 1;
      AppliedIffAgreed(adv, names[..n], values);
      assert names == names[..n] + [names[n]];
    }
  }

  lemma {:induction false} AppliedInOrder(adv: Advanced, names: seq<string>, values: Env)
    requires (forall n :: n in names ==> IsOverride(n)) && Sorted(names, StringLeq)
    ensures Sorted(Applied(adv, names, values), StringLeq)
    decreases |names|
  {
    hide StringLeq, IsOverride, Target, ValueOf, Get;
    if names != [] {
      var n := |names| - 1;
      AppliedInOrder(adv, names[..n], values);
      AppliedIffAgreed(adv, names[..n], values);
      var head := Applied(adv, names[..n], values);
      forall j | 0 <= j < |head| ensures StringLeq(head[j], names[n]) {
        assert head[j] in head;
        var i :| 0 <= i < n && names[..n][i] == head[j];
      }
    }
  }

  lemma StartsUnmerged(adv0: Advanced, names: seq<string>, values: Env)
    requires forall n :: n in names ==> IsOverride(n)
    ensures forall t :: Get(adv0, t) == Winner(adv0, names[..0], values, t)
    ensures Applied(adv0, names[..0], values) == []
  {
  }

  lemma WinnerStep(adv0: Advanced, names: seq<string>, values: Env, i: nat, t: (string, string))
    requires forall n :: n in names ==> IsOverride(n)
    requires i < |names|
    ensures var before := Winner(adv0, names[..i], values, t);
            Winner(adv0, names[..i + 1], values, t) ==
            if before.Some? then before
            else if Target(names[i]) == t && ValueOf(values, names[i]) != "" then Some(ValueOf(values, names[i]))
            else None
  {
    hide IsOverride, Split, TrimSpace, CanonicalComponent, Get;
    assert names[..i + 1][..i] == names[..i];
  }

  /** A target that an earlier override spoke for is settled. */
  lemma {:induction false} Settled(adv0: Advanced, names: seq<string>, values: Env, n: string)
    requires forall m :: m in names ==> IsOverride(m)
    requires n in names && ValueOf(values, n) != ""
    ensures Winner(adv0, names, values, Target(n)).Some?
    decreases |names|
  {
    hide IsOverride, Split, TrimSpace, CanonicalComponent, Get;
    var k := |names| - 1;
    if names[k] != n {
      assert names == names[..k] + [names[k]];
      Settled(adv0, names[..k], values, n);
    }
  }

  lemma {:induction false} AppliedSame(adv: Advanced, after: Advanced, names: seq<string>, values: Env)
    requires forall n :: n in names ==> IsOverride(n)
    requires forall n :: n in names && ValueOf(values, n) != "" ==> Get(adv, Target(n)) == Get(after, Target(n))
    ensures Applied(adv, names, values) == Applied(after, names, values)
    decreases |names|
  {
    hide IsOverride, Split, TrimSpace, CanonicalComponent, Get;
    if names != [] {
      var k := |names| - 1;
      assert forall n :: n in names[..k] ==> n in names;
      AppliedSame(adv, after, names[..k], values);
    }
  }

  lemma SilentChangesNothing(adv0: Advanced, adv: Advanced, names: seq<string>, values: Env, i: nat)
    requires forall n :: n in names ==> IsOverride(n)
    requires i < |names| && ValueOf(values, names[i]) == ""
    requires forall t :: Get(adv, t) == Winner(adv0, names[..i], values, t)
    ensures forall t :: Get(adv, t) == Winner(adv0, names[..i + 1], values, t)
    ensures Applied(adv, names[..i + 1], values) == Applied(adv, names[..i], values)
  {
    hide IsOverride, Split, TrimSpace, CanonicalComponent, Get, Winner;
    assert names[..i + 1][..i] == names[..i];
    forall t ensures Get(adv, t) == Winner(adv0, names[..i + 1], values, t) {
      WinnerStep(adv0, names, values, i, t);
      assert Get(adv, t) == Winner(adv0, names[..i], values, t);
    }
  }

  /** One override that says something: kept if the target is free or agrees, ignored otherwise. */
  lemma MergeOne(adv0: Advanced, adv: Advanced, names: seq<string>, values: Env, i: nat)
    requires forall n :: n in names ==> IsOverride(n)
    requires i < |names| && ValueOf(values, names[i]) != ""
    requires forall t :: Get(adv, t) == Winner(adv0, names[..i], values, t)
    ensures var t, v := Target(names[i]), ValueOf(values, names[i]);
            var ignored := Get(adv, t).Some? && Get(adv, t).value != v;
            var after := if ignored then adv else Put(adv, t, v);
            && (forall u :: Get(after, u) == Winner(adv0, names[..i + 1], values, u))
            && Applied(after, names[..i + 1], values) == Applied(adv, names[..i], values) + (if ignored then [] else [names[i]])
  {
    hide IsOverride, Split, TrimSpace, CanonicalComponent, Get, Put, Winner;
    var t, v := Target(names[i]), ValueOf(values, names[i]);
    var ignored := Get(adv, t).Some? && Get(adv, t).value != v;
    var after := if ignored then adv else Put(adv, t, v);
    assert names[..i + 1][..i] == names[..i];
    forall u ensures Get(after, u) == Winner(adv0, names[..i + 1], values, u) {
      WinnerStep(adv0, names, values, i, u);
      assert Get(adv, u) == Winner(adv0, names[..i], values, u);
      PutGet(adv, t, v, u);
    }
    forall n | n in names[..i] && ValueOf(values, n) != "" ensures Get(adv, Target(n)) == Get(after, Target(n)) {
      Settled(adv0, names[..i], values, n);
      PutGet(adv, t, v, Target(n));
    }
    AppliedSame(adv, after, names[..i], values);
    assert Get(after, t) == Some(v) <==> !ignored by { PutGet(adv, t, v, t); }
  }

  // ── What can surprise ─────────────────────────────────────────────────────

  /** A value from config.yaml is not overridden: a different one in the environment is set aside. */
  lemma YamlBeatsEnvironment(adv0: Advanced, adv: Advanced, names: seq<string>, values: Env, n: string)
    requires forall m :: m in names ==> IsOverride(m)
    requires n in names && Get(adv0, Target(n)).Some?
    requires forall t :: Get(adv, t) == Winner(adv0, names, values, t)
    ensures Get(adv, Target(n)) == Get(adv0, Target(n))
    ensures n in Applied(adv, names, values) <==> ValueOf(values, n) != "" && Get(adv0, Target(n)) == Some(ValueOf(values, n))
  {
    AppliedIffAgreed(adv, names, values);
  }

  /** Where config.yaml is silent, an override is applied if no other one says anything for its target. */
  lemma LoneOverrideIsApplied(adv0: Advanced, adv: Advanced, names: seq<string>, values: Env, n: string)
    requires forall m :: m in names ==> IsOverride(m)
    requires n in names && ValueOf(values, n) != "" && Get(adv0, Target(n)).None?
    requires forall m :: m in names && Target(m) == Target(n) && ValueOf(values, m) != "" ==> m == n
    requires forall t :: Get(adv, t) == Winner(adv0, names, values, t)
    ensures Get(adv, Target(n)) == Some(ValueOf(values, n)) && n in Applied(adv, names, values)
  {
    hide IsOverride, Split, TrimSpace, CanonicalComponent, Get;
    FirstSaysSomething(names, values, Target(n));
    Settled(adv0, names, values, n);
    AppliedIffAgreed(adv, names, values);
  }

  /** Of the overrides in a file that is converted on its own, those are applied that the process
      environment happens to name too: its values do not matter. The others are dropped without a word. */
  lemma FileOverrideIsAppliedIff(adv0: Advanced, adv: Advanced, environ: Env, file: Env, n: string)
    requires IsOverride(n) && ValueOf(file, n) != "" && Get(adv0, Target(n)).None?
    requires forall m :: m in file && IsOverride(m) && Target(m) == Target(n) && ValueOf(file, m) != "" ==> m == n
    requires forall t :: Get(adv, t) == Winner(adv0, SortedNames(environ), file, t)
    ensures n in Applied(adv, SortedNames(environ), file) <==> n in environ
    ensures Get(adv, Target(n)) == if n in environ then Some(ValueOf(file, n)) else None
  {
    hide IsOverride, Split, TrimSpace, CanonicalComponent, Get, Sorted;
    var names := SortedNames(environ);
    if n in environ {
      LoneOverrideIsApplied(adv0, adv, names, file, n);
    } else {
      FirstSaysSomething(names, file, Target(n));
      AppliedIffAgreed(adv, names, file);
    }
  }

  /** A result that comes from the environment is what some override for that target says. */
  lemma {:induction false} FirstSaysSomething(names: seq<string>, values: Env, t: (string, string))
    requires forall m :: m in names ==> IsOverride(m)
    ensures FirstFor(names, values, t).Some? ==>
              exists m :: m in names && Target(m) == t && ValueOf(values, m) != "" && FirstFor(names, values, t) == Some(ValueOf(values, m))
    decreases |names|
  {
    hide IsOverride, Split, TrimSpace, CanonicalComponent;
    if names != [] {
      var k := |names| - 1;
      FirstSaysSomething(names[..k], values, t);
      assert names == names[..k] + [names[k]];
      assert names[k] in names;
    }
  }
}
