/** The bill of materials of a BNK install (`internal/bnkbom`), from an already decoded manifest. */
module Bom {
  import opened Text
  import opened Ordering
  import opened Wrappers

  datatype Kind = Chart | Image | File
  datatype Origin = FromManifest | CertManager | NodeLabeler | GatewayApi

  datatype Artifact = Artifact(
    kind: Kind, host: string, name: string, tag: string, origin: Origin, sourceUrl: string, sha256: string)

  datatype NameVersion = NameVersion(name: string, version: string)
  datatype Release = Release(version: string, charts: seq<NameVersion>, images: seq<NameVersion>)
  datatype Manifest = Manifest(helmRepo: string, dockerRepo: string, releases: seq<Release>)

  datatype Options = Options(
    version: string, includeDeps: bool, certManagerVersion: string, nodeLabelerTag: string,
    bundleVersion: string, bundleUrl: string)

  datatype Error = NoReleases | NoSuchRelease | ManyReleases | MissingHosts | NoBundleVersion | UnpinnedBundle
  datatype Result<+T> = Ok(value: T) | Err(error: Error)

  datatype BillOfMaterials = BillOfMaterials(version: string, artifacts: seq<Artifact>)

  const MANIFEST_CHART := "release/f5-bigip-k8s-manifest"

  // ── The four-key order ────────────────────────────────────────────────────

  function KindName(k: Kind): string {
    match k
    case Chart => "chart"
    case Image => "image"
    case File => "file"
  }

  function SortKey(a: Artifact): seq<string> {
    [KindName(a.kind), a.host, a.name, a.tag]
  }

  /** The first difference decides. */
  predicate KeyLeq(a: seq<string>, b: seq<string>) {
    a == [] || (b != [] && if a[0] == b[0] then KeyLeq(a[1..], b[1..]) else StringLeq(a[0], b[0]))
  }

  predicate ArtifactLeq(a: Artifact, b: Artifact) {
    KeyLeq(SortKey(a), SortKey(b))
  }

  lemma {:induction false} KeyLeqTotal(a: seq<string>, b: seq<string>)
    ensures KeyLeq(a, b) || KeyLeq(b, a)
    ensures KeyLeq(a, b) && KeyLeq(b, a) ==> a == b
  {
    if a != [] && b != [] {
      StringLeqTotal(a[0], b[0]);
      if a[0] == b[0] {
        KeyLeqTotal(a[1..], b[1..]);
        assert a == [a[0]] + a[1..] && b == [b[0]] + b[1..];
      }
    }
  }

  lemma {:induction false} KeyLeqTransitive(a: seq<string>, b: seq<string>, c: seq<string>)
    requires KeyLeq(a, b) && KeyLeq(b, c)
    ensures KeyLeq(a, c)
  {
    if a != [] {
      if a[0] == b[0] == c[0] {
        KeyLeqTransitive(a[1..], b[1..], c[1..]);
      } else if a[0] != b[0] && b[0] != c[0] {
        StringLeqTransitive(a[0], b[0], c[0]);
        StringLeqTotal(a[0], b[0]);
      }
    }
  }

  lemma ArtifactPreorder()
    ensures Preorder(ArtifactLeq)
  {
    forall a, b ensures ArtifactLeq(a, b) || ArtifactLeq(b, a) {
      KeyLeqTotal(SortKey(a), SortKey(b));
    }
    forall a, b, c | ArtifactLeq(a, b) && ArtifactLeq(b, c) ensures ArtifactLeq(a, c) {
      KeyLeqTransitive(SortKey(a), SortKey(b), SortKey(c));
    }
  }

  lemma TiedIffSameKey(a: Artifact, b: Artifact)
    ensures ArtifactLeq(a, b) && ArtifactLeq(b, a) <==> SortKey(a) == SortKey(b)
  {
    KeyLeqTotal(SortKey(a), SortKey(b));
  }

  // ── What goes in ──────────────────────────────────────────────────────────

  function StripOciScheme(s: string): string {
    var t := TrimSpace(s);
    TrimSpace(if HasPrefix(t, "oci://") then t[6..] else t)
  }

  function OfManifest(kind: Kind, host: string, nv: NameVersion): Artifact {
    Artifact(kind, host, TrimSpace(nv.name), TrimSpace(nv.version), FromManifest, "", "")
  }

  function ManifestChart(host: string, version: string): Artifact {
    Artifact(Chart, host, MANIFEST_CHART, version, FromManifest, "", "")
  }

  /** The multiset of artifacts a list of names stands for. */
  function Listed(kind: Kind, host: string, nvs: seq<NameVersion>): multiset<Artifact> {
    if nvs == [] then multiset{}
    else Listed(kind, host, nvs[..|nvs| - 1]) + multiset{OfManifest(kind, host, nvs[|nvs| - 1])}
  }

  /** The release a version selects: the first of that version; without one, the only release. */
  function Select(m: Manifest, version: string): Result<Release> {
    if m.releases == [] then Err(NoReleases)
    else if version == "" then if |m.releases| > 1 then Err(ManyReleases) else Ok(m.releases[0])
    else FirstOf(m.releases, version)
  }

  function FirstOf(rs: seq<Release>, version: string): Result<Release> {
    if rs == [] then Err(NoSuchRelease)
    else if TrimSpace(rs[0].version) == version then Ok(rs[0])
    else FirstOf(rs[1..], version)
  }

  const CERT_MANAGER_IMAGES := [
    "cert-manager-controller", "cert-manager-webhook", "cert-manager-cainjector",
    "cert-manager-startupapicheck", "cert-manager-acmesolver"]

  function CertManagerImage(name: string, version: string): Artifact {
    Artifact(Image, "quay.io", "jetstack/" + name, version, CertManager, "", "")
  }

  function CertManagerChart(version: string): Artifact {
    Artifact(Chart, "charts.jetstack.io", "charts/cert-manager", version, CertManager, "", "")
  }

  function LabelerImage(tag: string): Artifact {
    Artifact(Image, "registry.k8s.io", "kubectl", tag, NodeLabeler, "", "")
  }

  method Deps(certManagerVersion: string, nodeLabelerTag: string) returns (out: seq<Artifact>)
    ensures out == DepsOf(certManagerVersion, nodeLabelerTag)
  {
    out := [CertManagerChart(certManagerVersion)];
    for i := 0 to |CERT_MANAGER_IMAGES|
      invariant out == [CertManagerChart(certManagerVersion)] + seq(i, k requires 0 <= k < |CERT_MANAGER_IMAGES| =>
                                                                   CertManagerImage(CERT_MANAGER_IMAGES[k], certManagerVersion))
    {
      out := out + [CertManagerImage(CERT_MANAGER_IMAGES[i], certManagerVersion)];
    }
    out := out + [LabelerImage(nodeLabelerTag)];
  }

  function DepsOf(certManagerVersion: string, nodeLabelerTag: string): seq<Artifact> {
    [CertManagerChart(certManagerVersion)]
    + seq(|CERT_MANAGER_IMAGES|, k requires 0 <= k < |CERT_MANAGER_IMAGES| =>
          CertManagerImage(CERT_MANAGER_IMAGES[k], certManagerVersion))
    + [LabelerImage(nodeLabelerTag)]
  }

  function NormalizeBundleVersion(v: string): string {
    var t := TrimSpace(v);
    if HasPrefix(t, "v") then t[1..] else t
  }

  const BUNDLE_PINS: map<string, string> :=
    map["1.5.0" := "510338cf6709f84410efcce5269268f4c7c5067efdc5d04c75aa2fd2f8380c96"]

  function BundleUrl(version: string): string {
    "https://github.com/kubernetes-sigs/gateway-api/releases/download/v"
    + NormalizeBundleVersion(version) + "/standard-install.yaml"
  }

  /** An override changes where the bundle is fetched from, never which content is accepted. */
  function GatewayApiBundle(version: string, url: string): Result<Artifact> {
    var v := NormalizeBundleVersion(version);
    if v == "" then Err(NoBundleVersion)
    else if v !in BUNDLE_PINS then Err(UnpinnedBundle)
    else
      var from := TrimSpace(url);
      Ok(Artifact(File, "github.com", "files/gateway-api-standard-install", "v" + v, GatewayApi,
                  if from == "" then BundleUrl(v) else from, BUNDLE_PINS[v]))
  }

  /** Everything the BOM should hold, in no order. */
  function Contents(m: Manifest, rel: Release, opts: Options): multiset<Artifact> {
    var bundle := GatewayApiBundle(opts.bundleVersion, opts.bundleUrl);
    multiset{ManifestChart(StripOciScheme(m.helmRepo), TrimSpace(rel.version))}
    + Listed(Chart, StripOciScheme(m.helmRepo), rel.charts)
    + Listed(Image, TrimSpace(m.dockerRepo), rel.images)
    + (if opts.includeDeps then multiset(DepsOf(opts.certManagerVersion, opts.nodeLabelerTag)) else multiset{})
    + (if opts.bundleVersion != "" && bundle.Ok? then multiset{bundle.value} else multiset{})
  }

  /** The reason a BOM cannot be built, if any; reasons in the manifest come first. */
  function Refusal(m: Manifest, opts: Options): Option<Error> {
    var rel := Select(m, opts.version);
    var bundle := GatewayApiBundle(opts.bundleVersion, opts.bundleUrl);
    if rel.Err? then Some(rel.error)
    else if StripOciScheme(m.helmRepo) == "" || TrimSpace(m.dockerRepo) == "" then Some(MissingHosts)
    else if opts.bundleVersion != "" && bundle.Err? then Some(bundle.error)
    else None
  }

  // ── Assembly ──────────────────────────────────────────────────────────────

  method ParseManifest(m: Manifest, version: string) returns (r: Result<BillOfMaterials>)
    ensures Select(m, version).Err? ==> r == Err(Select(m, version).error)
    ensures var hostless := StripOciScheme(m.helmRepo) == "" || TrimSpace(m.dockerRepo) == "";
            Select(m, version).Ok? ==> if hostless then r == Err(MissingHosts) else r.Ok?
    ensures r.Ok? ==> var rel := Select(m, version).value;
                      r.value.version == TrimSpace(rel.version) &&
                      multiset(r.value.artifacts) ==
                      multiset{ManifestChart(StripOciScheme(m.helmRepo), TrimSpace(rel.version))}
                      + Listed(Chart, StripOciScheme(m.helmRepo), rel.charts)
                      + Listed(Image, TrimSpace(m.dockerRepo), rel.images)
  {
    hide StripOciScheme, TrimSpace;
    if |m.releases| == 0 { return Err(NoReleases); }
    var rel := m.releases[0];
    if version != "" {
      var found := false;
      for i := 0 to |m.releases|
        invariant !found && FirstOf(m.releases, version) == FirstOf(m.releases[i..], version)
      {
        assert m.releases[i..][0] == m.releases[i] && m.releases[i..][1..] == m.releases[i + 1..];
        if TrimSpace(m.releases[i].version) == version {
          rel, found := m.releases[i], true;
          break;
        }
      }
      if !found { return Err(NoSuchRelease); }
    } else if |m.releases| > 1 {
      return Err(ManyReleases);
    }
    var helmHost, dockerHost := StripOciScheme(m.helmRepo), TrimSpace(m.dockerRepo);
    if helmHost == "" || dockerHost == "" { return Err(MissingHosts); }
    var chart := ManifestChart(helmHost, TrimSpace(rel.version));
    var artifacts := AppendListed([chart], Chart, helmHost, rel.charts);
    artifacts := AppendListed(artifacts, Image, dockerHost, rel.images);
    r := Ok(BillOfMaterials(TrimSpace(rel.version), artifacts));
  }

  method AppendListed(artifacts: seq<Artifact>, kind: Kind, host: string, nvs: seq<NameVersion>) returns (r: seq<Artifact>)
    ensures multiset(r) == multiset(artifacts) + Listed(kind, host, nvs)
  {
    hide TrimSpace;
    r := artifacts;
    for i := 0 to |nvs|
      invariant multiset(r) == multiset(artifacts) + Listed(kind, host, nvs[..i])
    {
      assert nvs[..i + 1][..i] == nvs[..i];
      r := r + [OfManifest(kind, host, nvs[i])];
    }
    assert nvs[..|nvs|] == nvs;
  }

  method Build(m: Manifest, opts: Options) returns (r: Result<BillOfMaterials>)
    ensures Refusal(m, opts).Some? <==> r.Err?
    ensures r.Err? ==> r.error == Refusal(m, opts).value
    ensures r.Ok? ==> var rel := Select(m, opts.version).value;
                      && r.value.version == TrimSpace(rel.version)
                      && Sorted(r.value.artifacts, ArtifactLeq)
                      && multiset(r.value.artifacts) == Contents(m, rel, opts)
  {
    hide StripOciScheme, TrimSpace, GatewayApiBundle, Listed, ArtifactLeq, Sorted, DepsOf;
    var parsed := ParseManifest(m, opts.version);
    if parsed.Err? { return parsed; }
    var artifacts := parsed.value.artifacts;
    if opts.includeDeps {
      var deps := Deps(opts.certManagerVersion, opts.nodeLabelerTag);
      artifacts := artifacts + deps;
    }
    if opts.bundleVersion != "" {
      var bundle := GatewayApiBundle(opts.bundleVersion, opts.bundleUrl);
      if bundle.Err? { return Err(bundle.error); }
      artifacts := artifacts + [bundle.value];
    }
    ArtifactPreorder();
    artifacts := Sort(artifacts, ArtifactLeq);
    r := Ok(BillOfMaterials(parsed.value.version, artifacts));
  }

  /** Every chart and image of the release is in the BOM: of its kind, from its host, with its own trimmed
      name and version; and so is the manifest itself. */
  lemma EveryEntryIsCarried(m: Manifest, rel: Release, opts: Options)
    ensures forall nv :: nv in rel.charts ==>
              exists a :: a in Contents(m, rel, opts) && a.kind == Chart && a.host == StripOciScheme(m.helmRepo)
                          && a.name == TrimSpace(nv.name) && a.tag == TrimSpace(nv.version)
    ensures forall nv :: nv in rel.images ==>
              exists a :: a in Contents(m, rel, opts) && a.kind == Image && a.host == TrimSpace(m.dockerRepo)
                          && a.name == TrimSpace(nv.name) && a.tag == TrimSpace(nv.version)
  {
    hide Listed, TrimSpace, StripOciScheme, DepsOf, GatewayApiBundle;
    var helm, docker := StripOciScheme(m.helmRepo), TrimSpace(m.dockerRepo);
    forall nv | nv in rel.charts
      ensures exists a :: a in Contents(m, rel, opts) && a.kind == Chart && a.host == helm
                          && a.name == TrimSpace(nv.name) && a.tag == TrimSpace(nv.version)
    {
      ListedCarries(Chart, helm, rel.charts, nv);
      assert OfManifest(Chart, helm, nv) in Contents(m, rel, opts);
    }
    forall nv | nv in rel.images
      ensures exists a :: a in Contents(m, rel, opts) && a.kind == Image && a.host == docker
                          && a.name == TrimSpace(nv.name) && a.tag == TrimSpace(nv.version)
    {
      ListedCarries(Image, docker, rel.images, nv);
      assert OfManifest(Image, docker, nv) in Contents(m, rel, opts);
    }
  }

  lemma {:induction false} ListedCarries(kind: Kind, host: string, nvs: seq<NameVersion>, nv: NameVersion)
    requires nv in nvs
    ensures OfManifest(kind, host, nv) in Listed(kind, host, nvs)
    decreases |nvs|
  {
    hide OfManifest;
    var n := |nvs| - 1;
    if nvs[n] != nv {
      assert nvs == nvs[..n] + [nvs[n]];
      ListedCarries(kind, host, nvs[..n], nv);
    }
  }

  // ── Counts ────────────────────────────────────────────────────────────────

  function CountOf(xs: seq<Artifact>, k: Kind): nat {
    if xs == [] then 0 else CountOf(xs[..|xs| - 1], k) + (if xs[|xs| - 1].kind == k then 1 else 0)
  }

  method Counts(artifacts: seq<Artifact>) returns (charts: nat, images: nat, files: nat)
    ensures charts == CountOf(artifacts, Chart) && images == CountOf(artifacts, Image) && files == CountOf(artifacts, File)
    ensures charts + images + files == |artifacts|
  {
    charts, images, files := 0, 0, 0;
    for i := 0 to |artifacts|
      invariant charts == CountOf(artifacts[..i], Chart) && images == CountOf(artifacts[..i], Image)
      invariant files == CountOf(artifacts[..i], File) && charts + images + files == i
    {
      assert artifacts[..i + 1][..i] == artifacts[..i];
      match artifacts[i].kind {
        case Chart => charts := charts + 1;
        case Image => images := images + 1;
        case File => files := files + 1;
      }
    }
    assert artifacts[..|artifacts|] == artifacts;
  }

  lemma {:induction false} CountOfConcat(xs: seq<Artifact>, ys: seq<Artifact>, k: Kind)
    ensures CountOf(xs + ys, k) == CountOf(xs, k) + CountOf(ys, k)
    decreases |ys|
  {
    if ys == [] {
      assert xs + ys == xs;
    } else {
      assert (xs + ys)[..|xs + ys| - 1] == xs + ys[..|ys| - 1];
      CountOfConcat(xs, ys[..|ys| - 1], k);
    }
  }

  lemma {:induction false} CountOfPermutes(xs: seq<Artifact>, ys: seq<Artifact>, k: Kind)
    requires multiset(xs) == multiset(ys)
    ensures CountOf(xs, k) == CountOf(ys, k)
    decreases |xs|
  {
    hide CountOf;
    if xs == [] {
      assert |multiset(ys)| == 0;
    } else {
      var n := |xs| - 1;
      var x := xs[n];
      var j := SameWithoutLast(xs, ys);
      var rest := ys[..j] + ys[j + 1..];
      assert xs == xs[..n] + [x] && ys == ys[..j] + [x] + ys[j + 1..];
      CountOfPermutes(xs[..n], rest, k);
      CountOfConcat(xs[..n], [x], k);
      CountOfConcat(ys[..j] + [x], ys[j + 1..], k);
      CountOfConcat(ys[..j], [x], k);
      CountOfConcat(ys[..j], ys[j + 1..], k);
    }
  }

  /** A list with the artifacts of a manifest section, all of one kind. */
  lemma {:induction false} ListedAsSeq(kind: Kind, host: string, nvs: seq<NameVersion>) returns (xs: seq<Artifact>)
    ensures multiset(xs) == Listed(kind, host, nvs)
    ensures forall k :: CountOf(xs, k) == if k == kind then |nvs| else 0
    decreases |nvs|
  {
    hide CountOf, TrimSpace;
    if nvs == [] {
      CountOfNone();
      xs := [];
    } else {
      var n := |nvs| - 1;
      var head := ListedAsSeq(kind, host, nvs[..n]);
      var last := OfManifest(kind, host, nvs[n]);
      xs := head + [last];
      CountOfOne(last);
      forall k: Kind ensures CountOf(xs, k) == if k == kind then |nvs| else 0 {
        CountOfConcat(head, [last], k);
      }
    }
  }

  lemma DepsCounts(certManagerVersion: string, nodeLabelerTag: string)
    ensures var d := DepsOf(certManagerVersion, nodeLabelerTag);
            CountOf(d, Chart) == 1 && CountOf(d, Image) == 6 && CountOf(d, File) == 0
  {
    var c, l := CertManagerChart(certManagerVersion), LabelerImage(nodeLabelerTag);
    var i := (k: nat) requires k < 5 => CertManagerImage(CERT_MANAGER_IMAGES[k], certManagerVersion);
    var d := DepsOf(certManagerVersion, nodeLabelerTag);
    assert d == [c] + [i(0)] + [i(1)] + [i(2)] + [i(3)] + [i(4)] + [l];
    forall k: Kind ensures CountOf(d, k) == if k == Chart then 1 else if k == Image then 6 else 0 {
      CountOfConcat([c] + [i(0)] + [i(1)] + [i(2)] + [i(3)] + [i(4)], [l], k);
      CountOfConcat([c] + [i(0)] + [i(1)] + [i(2)] + [i(3)], [i(4)], k);
      CountOfConcat([c] + [i(0)] + [i(1)] + [i(2)], [i(3)], k);
      CountOfConcat([c] + [i(0)] + [i(1)], [i(2)], k);
      CountOfConcat([c] + [i(0)], [i(1)], k);
      CountOfConcat([c], [i(0)], k);
    }
  }

  /** The five parts of a BOM, and how many of each kind they hold. */
  lemma ContentsInParts(m: Manifest, rel: Release, opts: Options) 
    returns (chart: seq<Artifact>, charts: seq<Artifact>, images: seq<Artifact>, deps: seq<Artifact>, bundle: seq<Artifact>)
    requires Refusal(m, opts) == None && Select(m, opts.version) == Ok(rel)
    ensures multiset(chart + charts + images + deps + bundle) == Contents(m, rel, opts)
    ensures forall k :: CountOf(chart, k) == if k == Chart then 1 else 0
    ensures forall k :: CountOf(charts, k) == if k == Chart then |rel.charts| else 0
    ensures forall k :: CountOf(images, k) == if k == Image then |rel.images| else 0
    ensures forall k :: CountOf(deps, k) == if !opts.includeDeps || k == File then 0 else if k == Chart then 1 else 6
    ensures forall k :: CountOf(bundle, k) == if opts.bundleVersion != "" && k == File then 1 else 0
  {
    hide StripOciScheme, TrimSpace, GatewayApiBundle, Listed, DepsOf, CountOf;
    var own := ManifestChart(StripOciScheme(m.helmRepo), TrimSpace(rel.version));
    CountOfOne(own);
    chart := [own];
    charts := ListedAsSeq(Chart, StripOciScheme(m.helmRepo), rel.charts);
    images := ListedAsSeq(Image, TrimSpace(m.dockerRepo), rel.images);
    deps := if opts.includeDeps then DepsOf(opts.certManagerVersion, opts.nodeLabelerTag) else [];
    bundle := if opts.bundleVersion != "" then [GatewayApiBundle(opts.bundleVersion, opts.bundleUrl).value] else [];
    DepsCounts(opts.certManagerVersion, opts.nodeLabelerTag);
    CountOfNone();
    if opts.bundleVersion != "" {
      BundleIsFile(opts.bundleVersion, opts.bundleUrl);
      CountOfOne(bundle[0]);
    }
  }

  /** CONSERVATION: whatever BOM Build returns, its counts are those of the release plus the manifest's
      own chart, the seven dependencies if asked for, and the bundle if asked for. */
  lemma BuildConserves(m: Manifest, rel: Release, opts: Options, artifacts: seq<Artifact>)
    requires Refusal(m, opts) == None && Select(m, opts.version) == Ok(rel)
    requires multiset(artifacts) == Contents(m, rel, opts)
    ensures CountOf(artifacts, Chart) == 1 + |rel.charts| + (if opts.includeDeps then 1 else 0)
    ensures CountOf(artifacts, Image) == |rel.images| + (if opts.includeDeps then 6 else 0)
    ensures CountOf(artifacts, File) == if opts.bundleVersion != "" then 1 else 0
  {
    hide Contents, CountOf, Refusal;
    var chart, charts, images, deps, bundle := ContentsInParts(m, rel, opts);
    forall k: Kind
      ensures CountOf(artifacts, k) == CountOf(chart, k) + CountOf(charts, k) + CountOf(images, k)
                                      + CountOf(deps, k) + CountOf(bundle, k)
    {
      CountOfPermutes(artifacts, chart + charts + images + deps + bundle, k);
      CountOfFive(chart, charts, images, deps, bundle, k);
    }
  }

  lemma CountOfFive(a: seq<Artifact>, b: seq<Artifact>, c: seq<Artifact>, d: seq<Artifact>, e: seq<Artifact>, k: Kind)
    ensures CountOf(a + b + c + d + e, k) == CountOf(a, k) + CountOf(b, k) + CountOf(c, k) + CountOf(d, k) + CountOf(e, k)
  {
    hide CountOf;
    CountOfConcat(a + b + c + d, e, k);
    CountOfConcat(a + b + c, d, k);
    CountOfConcat(a + b, c, k);
    CountOfConcat(a, b, k);
  }

  lemma CountOfNone()
    ensures forall k :: CountOf([], k) == 0
  {
  }

  lemma CountOfOne(a: Artifact)
    ensures forall k :: CountOf([a], k) == if a.kind == k then 1 else 0
  {
    assert [a][..0] == [];
  }

  lemma BundleIsFile(version: string, url: string)
    ensures var b := GatewayApiBundle(version, url); b.Ok? ==> b.value.kind == File && b.value.origin == GatewayApi
  {
  }

  // ── Determinism ───────────────────────────────────────────────────────────

  /** The artifacts the manifest itself names. */
  function Named(m: Manifest, rel: Release): multiset<Artifact> {
    multiset{ManifestChart(StripOciScheme(m.helmRepo), TrimSpace(rel.version))}
    + Listed(Chart, StripOciScheme(m.helmRepo), rel.charts)
    + Listed(Image, TrimSpace(m.dockerRepo), rel.images)
  }

  /** The manifest names something that is also a dependency, at the same version. */
  ghost predicate Clashes(m: Manifest, rel: Release, opts: Options) {
    opts.includeDeps && exists a, d ::
      a in Named(m, rel) && d in DepsOf(opts.certManagerVersion, opts.nodeLabelerTag) && SortKey(a) == SortKey(d)
  }

  lemma {:induction false} ListedMembers(kind: Kind, host: string, nvs: seq<NameVersion>)
    ensures forall a :: a in Listed(kind, host, nvs) ==>
              a == Artifact(kind, host, a.name, a.tag, FromManifest, "", "")
    decreases |nvs|
  {
    hide TrimSpace;
    if nvs != [] { ListedMembers(kind, host, nvs[..|nvs| - 1]); }
  }

  lemma NamedMembers(m: Manifest, rel: Release, a: Artifact)
    requires a in Named(m, rel)
    ensures a == Artifact(a.kind, a.host, a.name, a.tag, FromManifest, "", "") && a.kind != File
    ensures a.host == if a.kind == Chart then StripOciScheme(m.helmRepo) else TrimSpace(m.dockerRepo)
  {
    hide Listed, TrimSpace, StripOciScheme;
    ListedMembers(Chart, StripOciScheme(m.helmRepo), rel.charts);
    ListedMembers(Image, TrimSpace(m.dockerRepo), rel.images);
  }

  lemma DepsMembers(certManagerVersion: string, nodeLabelerTag: string, d: Artifact)
    requires d in DepsOf(certManagerVersion, nodeLabelerTag)
    ensures d == Artifact(d.kind, d.host, d.name, d.tag, d.origin, "", "")
    ensures d.kind != File && d.origin == if d.host == "registry.k8s.io" then NodeLabeler else CertManager
    ensures if d.kind == Chart then d.host == "charts.jetstack.io" else d.host == "quay.io" || d.host == "registry.k8s.io"
  {
  }

  lemma SameKeyParts(a: Artifact, b: Artifact)
    requires SortKey(a) == SortKey(b)
    ensures a.kind == b.kind && a.host == b.host && a.name == b.name && a.tag == b.tag
  {
    assert SortKey(a)[0] == SortKey(b)[0] && SortKey(a)[1] == SortKey(b)[1]
      && SortKey(a)[2] == SortKey(b)[2] && SortKey(a)[3] == SortKey(b)[3];
    assert "chart"[0] != "image"[0] && "image"[0] != "file"[0] && "chart"[0] != "file"[0];
  }

  /** Where a member of the BOM came from. */
  lemma ContentsMembers(m: Manifest, rel: Release, opts: Options, a: Artifact)
    requires a in Contents(m, rel, opts)
    ensures || a in Named(m, rel)
            || (opts.includeDeps && a in DepsOf(opts.certManagerVersion, opts.nodeLabelerTag))
            || (GatewayApiBundle(opts.bundleVersion, opts.bundleUrl) == Ok(a) && a.kind == File)
  {
    hide Listed, TrimSpace, StripOciScheme, DepsOf, GatewayApiBundle;
    BundleIsFile(opts.bundleVersion, opts.bundleUrl);
  }

  lemma ClashFreeIsDistinguished(m: Manifest, rel: Release, opts: Options, a: Artifact, b: Artifact)
    requires !Clashes(m, rel, opts) && a in Contents(m, rel, opts) && b in Contents(m, rel, opts)
    requires SortKey(a) == SortKey(b)
    ensures a == b
  {
    ContentsMembers(m, rel, opts, a);
    ContentsMembers(m, rel, opts, b);
    SameKeyParts(a, b);
    hide Contents, Named, DepsOf, GatewayApiBundle, SortKey;
    if a in Named(m, rel) { NamedMembers(m, rel, a); }
    if b in Named(m, rel) { NamedMembers(m, rel, b); }
    var deps := DepsOf(opts.certManagerVersion, opts.nodeLabelerTag);
    if a in deps { DepsMembers(opts.certManagerVersion, opts.nodeLabelerTag, a); }
    if b in deps { DepsMembers(opts.certManagerVersion, opts.nodeLabelerTag, b); }
  }

  lemma ClashIsAmbiguous(m: Manifest, rel: Release, opts: Options) returns (a: Artifact, d: Artifact)
    requires Clashes(m, rel, opts)
    ensures a in Contents(m, rel, opts) && d in Contents(m, rel, opts) && SortKey(a) == SortKey(d) && a != d
  {
    hide Listed, TrimSpace, StripOciScheme, DepsOf, GatewayApiBundle, SortKey;
    a, d :| a in Named(m, rel) && d in DepsOf(opts.certManagerVersion, opts.nodeLabelerTag) && SortKey(a) == SortKey(d);
    NamedMembers(m, rel, a);
    DepsMembers(opts.certManagerVersion, opts.nodeLabelerTag, d);
    assert d in multiset(DepsOf(opts.certManagerVersion, opts.nodeLabelerTag));
  }

  /** DETERMINISM, and exactly when: the sorted BOM is one sequence, whatever order the entries came in
      and however the sort breaks ties, if and only if nothing in the manifest clashes with a dependency. */
  lemma BomIsDeterminedIff(m: Manifest, rel: Release, opts: Options, artifacts: seq<Artifact>)
    requires Sorted(artifacts, ArtifactLeq) && multiset(artifacts) == Contents(m, rel, opts)
    ensures !Clashes(m, rel, opts) <==>
            forall other :: Sorted(other, ArtifactLeq) && multiset(other) == Contents(m, rel, opts) ==> other == artifacts
  {
    hide Contents, Sorted, Clashes, ArtifactLeq, SortKey;
    ArtifactPreorder();
    SortedIsUniqueIff(artifacts, ArtifactLeq);
    if Clashes(m, rel, opts) {
      var a, d := ClashIsAmbiguous(m, rel, opts);
      TiedIffSameKey(a, d);
      assert a in multiset(artifacts) && d in multiset(artifacts);
    } else {
      forall a, b | a in artifacts && b in artifacts && ArtifactLeq(a, b) && ArtifactLeq(b, a)
        ensures a == b
      {
        TiedIffSameKey(a, b);
        assert a in multiset(artifacts) && b in multiset(artifacts);
        ClashFreeIsDistinguished(m, rel, opts, a, b);
      }
    }
  }

  /** F5 hosts that are not the dependencies' hosts rule every clash out. */
  lemma SeparateHostsNeverClash(m: Manifest, rel: Release, opts: Options)
    requires StripOciScheme(m.helmRepo) != "charts.jetstack.io"
    requires TrimSpace(m.dockerRepo) != "quay.io" && TrimSpace(m.dockerRepo) != "registry.k8s.io"
    ensures !Clashes(m, rel, opts)
  {
    hide Named, DepsOf, SortKey, StripOciScheme, TrimSpace;
    if Clashes(m, rel, opts) {
      var a, d :| a in Named(m, rel) && d in DepsOf(opts.certManagerVersion, opts.nodeLabelerTag) && SortKey(a) == SortKey(d);
      NamedMembers(m, rel, a);
      DepsMembers(opts.certManagerVersion, opts.nodeLabelerTag, d);
      SameKeyParts(a, d);
      assert false;
    }
  }

  lemma {:induction false} ListedPermutes(kind: Kind, host: string, nvs: seq<NameVersion>, others: seq<NameVersion>)
    requires multiset(nvs) == multiset(others)
    ensures Listed(kind, host, nvs) == Listed(kind, host, others)
    decreases |nvs|
  {
    if nvs == [] {
      assert |multiset(others)| == 0;
    } else {
      var n := |nvs| - 1;
      var j := SameWithoutLast(nvs, others);
      ListedPermutes(kind, host, nvs[..n], others[..j] + others[j + 1..]);
      ListedLast(kind, host, nvs, n);
      TakenFromMiddle(kind, host, others, j);
    }
  }

  lemma ListedLast(kind: Kind, host: string, nvs: seq<NameVersion>, n: nat)
    requires |nvs| == n + 1
    ensures Listed(kind, host, nvs) == Listed(kind, host, nvs[..n]) + multiset{OfManifest(kind, host, nvs[n])}
  {
  }

  lemma {:induction false} TakenFromMiddle(kind: Kind, host: string, nvs: seq<NameVersion>, j: nat)
    requires j < |nvs|
    ensures Listed(kind, host, nvs) == Listed(kind, host, nvs[..j] + nvs[j + 1..]) + multiset{OfManifest(kind, host, nvs[j])}
    decreases |nvs|
  {
    hide OfManifest, Listed;
    var n := |nvs| - 1;
    var rest := nvs[..j] + nvs[j + 1..];
    ListedLast(kind, host, nvs, n);
    if j == n {
      assert rest == nvs[..n];
    } else {
      TakenFromMiddle(kind, host, nvs[..n], j);
      ListedLast(kind, host, rest, n - 1);
      assert nvs[..n][..j] + nvs[..n][j + 1..] == rest[..n - 1];
    }
  }

  /** Reordering the charts and images of the selected release changes nothing in the result: any two
      BOMs that Build may return for the two manifests are equal. */
  lemma ReorderedManifestSameBom(m: Manifest, n: Manifest, p: Release, q: Release, opts: Options,
                                 xs: seq<Artifact>, ys: seq<Artifact>)
    requires n.helmRepo == m.helmRepo && n.dockerRepo == m.dockerRepo && q.version == p.version
    requires multiset(q.charts) == multiset(p.charts) && multiset(q.images) == multiset(p.images)
    requires !Clashes(m, p, opts)
    requires Sorted(xs, ArtifactLeq) && multiset(xs) == Contents(m, p, opts)
    requires Sorted(ys, ArtifactLeq) && multiset(ys) == Contents(n, q, opts)
    ensures xs == ys
  {
    hide Listed, Sorted, Clashes, ArtifactLeq, DepsOf, GatewayApiBundle, TrimSpace, StripOciScheme;
    ListedPermutes(Chart, StripOciScheme(m.helmRepo), p.charts, q.charts);
    ListedPermutes(Image, TrimSpace(m.dockerRepo), p.images, q.images);
    assert Contents(n, q, opts) == Contents(m, p, opts);
    BomIsDeterminedIff(m, p, opts, xs);
  }
}
