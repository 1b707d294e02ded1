/** The applied-tfvars snapshot: written from several sources, read back for replay
    (`internal/config/applied_tfvars.go`, renderAppliedTFVars and
    ReadAppliedTFVarsReplayAssignments), and the replay file derived from it
    (`internal/orchestration/applied_replay.go`, writeAppliedReplayFile). */
module AppliedSnapshot {
  import opened Text
  import opened TFVars
  import Scanner = BracketScanner
  import Ordering

  const REDACTED_NAMES := {"ibmcloud_api_key", "bigip_password", "registry_mirror_password"}
  const REDACTED_VALUE := "\"<redacted>\""
  const REDACTED_COMMENT := " source: cred resolver, not persisted"

  // ── Writing ───────────────────────────────────────────────────────────────

  /** A var-file handed to the writer: its title, and its contents when it could be read. */
  datatype Source = Missing(title: string) | File(title: string, text: string) | Unreadable

  datatype Result<+T> = Ok(value: T) | Err

  function EntryText(name: string, value: string): string {
    if name in REDACTED_NAMES then
      name + " = " + (REDACTED_VALUE + ("  " + ("#" + REDACTED_COMMENT))) + "\n"
    else if !Scanner.Balanced(value) then
      "# " + name + " = <skipped: unbalanced brackets>" + "\n"
    else name + " = " + value + "\n"
  }

  function BodyText(m: Assignments, names: seq<string>): string
    requires forall n :: n in names ==> n in m
  {
    if names == [] then ""
    else EntryText(names[0], m[names[0]]) + BodyText(m, names[1..])
  }

  ghost function SortedBody(m: Assignments): string {
    var names := Ordering.SortedKeys(m.Keys);
    Ordering.SameMembers(names, m.Keys);
    BodyText(m, names)
  }

  function SectionLine(title: string): string {
    "# === from " + title + " ===" + "\n"
  }

  ghost function SectionText(src: Source): string
    requires !src.Unreadable?
  {
    match src
    case Missing(title) => SectionLine(title + " (missing)") + "\n"
    case File(title, text) => SectionLine(title) + SortedBody(ParseText(text)) + "\n"
  }

  ghost function SectionsText(sources: seq<Source>): string
    requires Unreadable !in sources
  {
    if sources == [] then "" else SectionText(sources[0]) + SectionsText(sources[1..])
  }

  const HEADER_NOTE := "# Re-generated each apply." + " Do not edit by hand \U{2014}" + " your changes will be overwritten."

  function HeaderText(phase: string, stamp: string, version: string): string {
    "# Generated by roksbnkctl " + version + " at " + stamp + " after terraform apply on phase=" + phase + "." + "\n"
    + HEADER_NOTE + "\n"
    + "\n"
  }

  ghost function SnapshotText(phase: string, stamp: string, version: string, sources: seq<Source>): string
    requires Unreadable !in sources
  {
    HeaderText(phase, stamp, version) + SectionsText(sources)
  }

  /** renderAppliedTFVars. The builder `b` is the string itself. */
  method RenderAppliedTFVars(phase: string, sources: seq<Source>, stamp: string, version: string)
    returns (r: Result<string>)
    ensures r.Err? <==> Unreadable in sources
    ensures r.Ok? ==> r.value == SnapshotText(phase, stamp, version, sources)
  {
    hide HeaderText, SortedBody, SectionLine, SectionsText, SnapshotText, ParseText;
    var b := HeaderText(phase, stamp, version);
    SectionsEmpty(b);
    var n := 0;
    while n < |sources|
      invariant n <= |sources| && Unreadable !in sources[..n]
      invariant b == HeaderText(phase, stamp, version) + SectionsText(sources[..n])
    {
      ghost var before := b;
      match sources[n] {
        case Unreadable => return Err;
        case Missing(title) =>
          b := b + (SectionLine(title + " (missing)") + "\n");
        case File(title, text) =>
          var assigns := ReadAssignments(text);
          var body := RenderEntries(assigns);
          b := b + (SectionLine(title) + body + "\n");
      }
      assert b == before + SectionText(sources[n]);
      assert sources[..n + 1] == sources[..n] + [sources[n]];
      SectionsSnoc(sources[..n], sources[n]);
      n := n + 1;
    }
    assert sources[..n] == sources;
    SnapshotIs(phase, stamp, version, sources);
    r := Ok(b);
  }

  lemma SnapshotIs(phase: string, stamp: string, version: string, sources: seq<Source>)
    requires Unreadable !in sources
    ensures SnapshotText(phase, stamp, version, sources)
         == HeaderText(phase, stamp, version) + SectionsText(sources)
  {
    hide HeaderText, SectionsText;
  }

  lemma SectionsEmpty(b: string)
    ensures b == b + SectionsText([])
  {
  }

  lemma {:induction false} SectionsSnoc(sources: seq<Source>, s: Source)
    requires Unreadable !in sources && !s.Unreadable?
    ensures SectionsText(sources + [s]) == SectionsText(sources) + SectionText(s)
  {
    hide SectionText;
    var all := sources + [s];
    if sources == [] {
      assert all == [s] && all[1..] == [];
    } else {
      assert all[0] == sources[0] && all[1..] == sources[1..] + [s];
      SectionsSnoc(sources[1..], s);
      assert SectionsText(all) == SectionText(sources[0]) + (SectionsText(sources[1..]) + SectionText(s));
    }
  }

  /** The key loop of the writer: gather in map order, sort, emit one entry each. */
  method RenderEntries(assigns: Assignments) returns (body: string)
    ensures body == SortedBody(assigns)
  {
    hide EntryText, BodyText, Ordering.Sorted, Ordering.StringLeq, Ordering.SortedKeys;
    var keys := Ordering.SortedKeysOf(assigns);
    Ordering.SameMembers(keys, assigns.Keys);
    BodyEmpty(assigns);
    body := "";
    for n := 0 to |keys|
      invariant forall k :: k in keys[..n] ==> k in assigns
      invariant body == BodyText(assigns, keys[..n])
    {
      var k := keys[n];
      var text := RenderEntry(k, assigns[k]);
      assert keys[..n + 1] == keys[..n] + [k];
      BodySnoc(assigns, keys[..n], k);
      body := body + text;
    }
    assert keys[..|keys|] == keys;
  }

  method RenderEntry(name: string, value: string) returns (text: string)
    ensures text == EntryText(name, value)
  {
    if name in REDACTED_NAMES {
      return name + " = " + (REDACTED_VALUE + ("  " + ("#" + REDACTED_COMMENT))) + "\n";
    }
    var bad := Scanner.HCLValueIsUnbalanced(value);
    if bad {
      return "# " + name + " = <skipped: unbalanced brackets>" + "\n";
    }
    return name + " = " + value + "\n";
  }

  lemma BodyEmpty(m: Assignments)
    ensures BodyText(m, []) == ""
  {
  }

  lemma {:induction false} BodySnoc(m: Assignments, names: seq<string>, k: string)
    requires (forall n :: n in names ==> n in m) && k in m
    ensures BodyText(m, names + [k]) == BodyText(m, names) + EntryText(k, m[k])
  {
    hide EntryText;
    if names == [] {
      assert names + [k] == [k] && [k][1..] == [];
    } else {
      assert (names + [k])[0] == names[0] && (names + [k])[1..] == names[1..] + [k];
      BodySnoc(m, names[1..], k);
    }
  }

  // ── Reading back ──────────────────────────────────────────────────────────

  /** ReadAppliedTFVarsReplayAssignments on a snapshot that exists. */
  method ReadReplayAssignments(text: string) returns (assigns: Assignments)
    ensures assigns == Replay(text)
  {
    var read := ReadAssignments(text);
    assigns := DeleteKeys(read, REDACTED_NAMES);
  }

  method DeleteKeys(m: Assignments, names: set<string>) returns (r: Assignments)
    ensures r == m - names
  {
    r := m;
    var todo := names;
    while todo != {}
      invariant todo <= names
      invariant r == m - (names - todo)
    {
      var k :| k in todo;
      assert names - (todo - {k}) == (names - todo) + {k};
      r := r - {k};
      todo := todo - {k};
    }
    assert names - todo == names;
  }

  function Replay(text: string): Assignments {
    ParseText(text) - REDACTED_NAMES
  }
}
