/** What a bill of materials holds and when there is none, read off the manifest and the options. */
module BomContents {
  import opened Text
  import opened Ordering
  import opened Bom
  import opened Wrappers

  // ── The release ───────────────────────────────────────────────────────────

  /** Release `i` is the first of the asked version; or the only one, and no version is asked for. */
  ghost predicate Selects(m: Manifest, version: string, i: nat) {
    && i < |m.releases|
    && if version == "" then |m.releases| == 1
       else TrimSpace(m.releases[i].version) == version
            && forall j :: 0 <= j < i ==> TrimSpace(m.releases[j].version) != version
  }

  /** The release that is built, and why there may be none. */
  lemma SelectedIff(m: Manifest, version: string)
    ensures forall rel :: Select(m, version) == Ok(rel) <==> exists i: nat :: Selects(m, version, i) && m.releases[i] == rel
    ensures Select(m, version) == Err(NoReleases) <==> m.releases == []
    ensures Select(m, version) == Err(ManyReleases) <==> |m.releases| > 1 && version == ""
    ensures Select(m, version) == Err(NoSuchRelease) <==>
            m.releases != [] && version != ""
            && forall i :: 0 <= i < |m.releases| ==> TrimSpace(m.releases[i].version) != version
  {
    hide TrimSpace;
    if version == "" {
      assert |m.releases| == 1 ==> Selects(m, version, 0);
    } else {
      FirstOfIs(m.releases, version);
    }
  }

  lemma {:induction false} FirstOfIs(rs: seq<Release>, version: string)
    ensures match FirstOf(rs, version)
            case Ok(rel) => exists i: nat :: i < |rs| && rs[i] == rel && TrimSpace(rs[i].version) == version
                                             && forall j :: 0 <= j < i ==> TrimSpace(rs[j].version) != version
            case Err(e) => e == NoSuchRelease && forall i :: 0 <= i < |rs| ==> TrimSpace(rs[i].version) != version
    decreases |rs|
  {
    hide TrimSpace;
    if rs != [] && TrimSpace(rs[0].version) != version {
      var rest := rs[1..];
      FirstOfIs(rest, version);
      assert forall i :: 0 < i < |rs| ==> rs[i] == rest[i - 1];
      if FirstOf(rest, version).Ok? {
        var i: nat :| i < |rest| && rest[i] == FirstOf(rest, version).value && TrimSpace(rest[i].version) == version
                      && forall j :: 0 <= j < i ==> TrimSpace(rest[j].version) != version;
        assert rs[i + 1] == rest[i];
      }
    }
  }

  // ── Refusals ──────────────────────────────────────────────────────────────

  /** A scheme in front of the helm host, and whitespace around either, make no difference. */
  lemma HostSpellings(lead: string, gap: string, host: string, trail: string)
    requires AllSpace(lead) && AllSpace(gap) && AllSpace(trail)
    requires host != "" && !IsSpace(host[0]) && !IsSpace(host[|host| - 1]) && !HasPrefix(host, "oci://")
    ensures StripOciScheme(lead + (host + trail)) == host
    ensures StripOciScheme(lead + (("oci://" + (gap + host)) + trail)) == host
  {
    hide IsSpace, TrimSpace;
    var spelled := "oci://" + (gap + host);
    assert spelled[0] == 'o' && spelled[|spelled| - 1] == host[|host| - 1];
    assert !IsSpace('o') by { LetterIsNotSpace(); }
    TrimBetween(lead, host, trail);
    TrimBetween(lead, spelled, trail);
    assert spelled[6..] == gap + host && spelled[..6] == "oci://";
    TrimBetween(gap, host, "");
    TrimBetween("", host, "");
    assert gap + (host + "") == gap + host && "" + (host + "") == host;
  }

  lemma LetterIsNotSpace()
    ensures !IsSpace('o') && !IsSpace('v')
  {
  }

  /** A bundle version may be spelled with or without its `v`. */
  lemma VersionSpellings(lead: string, v: string, trail: string)
    requires AllSpace(lead) && AllSpace(trail) && v != "" && v[0] != 'v' && !IsSpace(v[0]) && !IsSpace(v[|v| - 1])
    ensures NormalizeBundleVersion(lead + (v + trail)) == v && NormalizeBundleVersion(lead + (("v" + v) + trail)) == v
  {
    hide IsSpace, AllSpace, TrimSpace;
    LetterIsNotSpace();
    TrimBetween(lead, v, trail);
    TrimBetween(lead, "v" + v, trail);
    assert ("v" + v)[1..] == v;
    assert v[..1] == [v[0]];
  }

  /** Why a BOM is not built: each reason applies exactly when those before it do not and its own does. */
  lemma RefusalsMean(m: Manifest, opts: Options)
    ensures var why, version := Refusal(m, opts), NormalizeBundleVersion(opts.bundleVersion);
            var selected := exists i: nat :: Selects(m, opts.version, i);
            var hosted := selected && StripOciScheme(m.helmRepo) != "" && TrimSpace(m.dockerRepo) != "";
            && (why == Some(NoReleases) <==> m.releases == [])
            && (why == Some(ManyReleases) <==> |m.releases| > 1 && opts.version == "")
            && (why == Some(NoSuchRelease) <==> m.releases != [] && opts.version != "" && !selected)
            && (why == Some(MissingHosts) <==> selected && !hosted)
            && (why == Some(NoBundleVersion) <==> hosted && opts.bundleVersion != "" && version == "")
            && (why == Some(UnpinnedBundle) <==> hosted && opts.bundleVersion != "" && version != "" && version != "1.5.0")
            && (why == None <==> hosted && (opts.bundleVersion == "" || version == "1.5.0"))
  {
    hide TrimSpace, StripOciScheme, NormalizeBundleVersion, Select;
    SelectedIff(m, opts.version);
    if Select(m, opts.version).Err? {
      NoneSelected(m, opts.version);
      ErrorsAre(m, opts.version);
    } else {
      assert Select(m, opts.version) == Ok(Select(m, opts.version).value);
    }
    assert forall v :: v in BUNDLE_PINS <==> v == "1.5.0";
  }

  lemma NoneSelected(m: Manifest, version: string)
    requires Select(m, version).Err?
    ensures !exists i: nat :: Selects(m, version, i)
  {
    hide Select, TrimSpace;
    SelectedIff(m, version);
    forall i: nat | i < |m.releases| ensures !Selects(m, version, i) {
      assert Select(m, version) != Ok(m.releases[i]);
    }
  }

  lemma ErrorsAre(m: Manifest, version: string)
    requires Select(m, version).Err?
    ensures Select(m, version).error in {NoReleases, ManyReleases, NoSuchRelease}
  {
    hide TrimSpace;
    if version != "" { FirstOfIs(m.releases, version); }
  }

  // ── Contents ──────────────────────────────────────────────────────────────

  lemma {:induction false} ListedFrom(kind: Kind, host: string, nvs: seq<NameVersion>, a: Artifact)
    requires a in Listed(kind, host, nvs)
    ensures exists nv :: nv in nvs && a == Artifact(kind, host, TrimSpace(nv.name), TrimSpace(nv.version), FromManifest, "", "")
    decreases |nvs|
  {
    hide TrimSpace;
    var n := |nvs| - 1;
    if a in Listed(kind, host, nvs[..n]) {
      ListedFrom(kind, host, nvs[..n], a);
      assert nvs == nvs[..n] + [nvs[n]];
    } else {
      assert nvs[n] in nvs;
    }
  }

  /** The dependencies: a chart, the five images of cert-manager, and the image that labels the nodes. */
  lemma DepsAre(certManagerVersion: string, nodeLabelerTag: string)
    ensures var d := DepsOf(certManagerVersion, nodeLabelerTag);
            var images := ["cert-manager-controller", "cert-manager-webhook", "cert-manager-cainjector",
                           "cert-manager-startupapicheck", "cert-manager-acmesolver"];
            && |d| == 7
            && d[0] == Artifact(Chart, "charts.jetstack.io", "charts/cert-manager", certManagerVersion, CertManager, "", "")
            && (forall i :: 0 <= i < 5 ==>
                  d[i + 1] == Artifact(Image, "quay.io", "jetstack/" + images[i], certManagerVersion, CertManager, "", ""))
            && d[6] == Artifact(Image, "registry.k8s.io", "kubectl", nodeLabelerTag, NodeLabeler, "", "")
  {
  }

  /** Nothing else is in a BOM: its own chart, the charts and images of the release, the dependencies if
      they are asked for, and the pinned bundle if its version is. */
  lemma NothingElseIsCarried(m: Manifest, rel: Release, opts: Options, a: Artifact)
    requires a in Contents(m, rel, opts)
    ensures var helm, docker := StripOciScheme(m.helmRepo), TrimSpace(m.dockerRepo);
            || a == Artifact(Chart, helm, "release/f5-bigip-k8s-manifest", TrimSpace(rel.version), FromManifest, "", "")
            || (exists nv :: nv in rel.charts && a == Artifact(Chart, helm, TrimSpace(nv.name), TrimSpace(nv.version), FromManifest, "", ""))
            || (exists nv :: nv in rel.images && a == Artifact(Image, docker, TrimSpace(nv.name), TrimSpace(nv.version), FromManifest, "", ""))
            || (opts.includeDeps && a in DepsOf(opts.certManagerVersion, opts.nodeLabelerTag))
            || (opts.bundleVersion != "" && IsBundle(opts, a))
  {
    hide TrimSpace, StripOciScheme, DepsOf, Listed, GatewayApiBundle, IsBundle;
    var helm, docker := StripOciScheme(m.helmRepo), TrimSpace(m.dockerRepo);
    if a in Listed(Chart, helm, rel.charts) { ListedFrom(Chart, helm, rel.charts, a); }
    if a in Listed(Image, docker, rel.images) { ListedFrom(Image, docker, rel.images, a); }
    BundleIs(opts);
  }

  /** The bundle of the pinned version, from wherever it is to be fetched. */
  ghost predicate IsBundle(opts: Options, a: Artifact) {
    && NormalizeBundleVersion(opts.bundleVersion) == "1.5.0"
    && a == Artifact(File, "github.com", "files/gateway-api-standard-install", "v1.5.0", GatewayApi, a.sourceUrl,
                     "510338cf6709f84410efcce5269268f4c7c5067efdc5d04c75aa2fd2f8380c96")
    && (TrimSpace(opts.bundleUrl) != "" ==> a.sourceUrl == TrimSpace(opts.bundleUrl))
  }

  lemma BundleIs(opts: Options)
    ensures var b := GatewayApiBundle(opts.bundleVersion, opts.bundleUrl); b.Ok? ==> IsBundle(opts, b.value)
  {
    hide TrimSpace, NormalizeBundleVersion, BundleUrl;
    assert forall v :: v in BUNDLE_PINS <==> v == "1.5.0";
    assert "v" + "1.5.0" == "v1.5.0";
  }

  // ── Order ─────────────────────────────────────────────────────────────────

  /** Charts before files before images; then by host, by name and by tag. */
  lemma FourKeysDecide(a: Artifact, b: Artifact)
    ensures ArtifactLeq(a, b) <==>
            if a.kind != b.kind then a.kind == Chart || b.kind == Image
            else if a.host != b.host then StringLeq(a.host, b.host)
            else if a.name != b.name then StringLeq(a.name, b.name)
            else StringLeq(a.tag, b.tag)
  {
    var x, y := SortKey(a), SortKey(b);
    KindNamesDiffer();
    KeyLeqStep(x, y);
    KeyLeqStep(x[1..], y[1..]);
    KeyLeqStep(x[1..][1..], y[1..][1..]);
    KeyLeqStep(x[1..][1..][1..], y[1..][1..][1..]);
    assert x[1..] == [a.host, a.name, a.tag] && y[1..] == [b.host, b.name, b.tag];
    assert x[1..][1..] == [a.name, a.tag] && y[1..][1..] == [b.name, b.tag];
    assert x[1..][1..][1..] == [a.tag] && y[1..][1..][1..] == [b.tag];
    assert x[1..][1..][1..][1..] == [] && y[1..][1..][1..][1..] == [];
    hide StringLeq, KeyLeq;
    StringLeqTotal(a.tag, b.tag);
    StringLeqTotal(KindName(a.kind), KindName(b.kind));
  }

  lemma KeyLeqStep(a: seq<string>, b: seq<string>)
    requires a != [] && b != []
    ensures KeyLeq(a, b) <==> if a[0] == b[0] then KeyLeq(a[1..], b[1..]) else StringLeq(a[0], b[0])
    ensures KeyLeq([], [])
  {
  }

  lemma KindNamesDiffer()
    ensures "chart" != "file" && "file" != "image" && "chart" != "image"
    ensures StringLeq("chart", "file") && StringLeq("file", "image") && StringLeq("chart", "image")
    ensures !StringLeq("file", "chart") && !StringLeq("image", "file") && !StringLeq("image", "chart")
  {
    assert "chart"[0] == 'c' && "file"[0] == 'f' && "image"[0] == 'i';
  }
}
