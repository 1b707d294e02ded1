/** The record of what a registry mirror holds, and the commands that write and read it:
    `internal/cli/registry_replicate.go`, `registry_diff.go`, `registry_prune.go`, `registry_delete.go`. */
module MirrorRecord {
  import opened Bom
  import opened Wrappers

  datatype MirrorArtifact = MirrorArtifact(kind: string, name: string, tag: string, digest: string)

  /** registry-mirror.json, without the mirror's own identity. */
  datatype Record = Record(missingCount: nat, artifacts: seq<MirrorArtifact>)

  /** What copying one artifact came to. */
  datatype Copied = Copied(artifact: Artifact, failed: bool, digest: string)

  // ── Keys ──────────────────────────────────────────────────────────────────

  function Key(kind: string, name: string, tag: string): string {
    kind + "|" + name + ":" + tag
  }

  function BomKey(a: Artifact): string { Key(KindName(a.kind), a.name, a.tag) }
  function RecordKey(a: MirrorArtifact): string { Key(a.kind, a.name, a.tag) }

  predicate DistinctKeys(bom: seq<Artifact>) {
    forall i, j :: 0 <= i < j < |bom| ==> BomKey(bom[i]) != BomKey(bom[j])
  }

  /** One string holds the three parts apart, as long as no tag has a colon and no kind a bar. */
  lemma KeyIsInjective(k: string, n: string, t: string, k': string, n': string, t': string)
    requires '|' !in k && '|' !in k' && ':' !in t && ':' !in t'
    requires Key(k, n, t) == Key(k', n', t')
    ensures k == k' && n == n' && t == t'
  {
    var s := Key(k, n, t);
    assert s[|k|] == '|' && s[|k'|] == '|';
    assert s[..|k|] == k && s[..|k'|] == k';
    assert |k| == |k'| by {
      assert forall i :: 0 <= i < |k| ==> s[i] == k[i];
      assert forall i :: 0 <= i < |k'| ==> s[i] == k'[i];
    }
    var p, p' := |s| - |t| - 1, |s| - |t'| - 1;
    assert s[p] == ':' && s[p'] == ':' && s[p + 1..] == t && s[p' + 1..] == t';
    assert p == p' by {
      assert forall i :: p < i < |s| ==> s[i] == t[i - p - 1];
      assert forall i :: p' < i < |s| ==> s[i] == t'[i - p' - 1];
    }
    assert s[|k| + 1..p] == n && s[|k'| + 1..p'] == n';
  }

  // ── Filtering ─────────────────────────────────────────────────────────────

  function Filter<T>(xs: seq<T>, keep: T -> bool): seq<T> {
    if xs == [] then []
    else Filter(xs[..|xs| - 1], keep) + (if keep(xs[|xs| - 1]) then [xs[|xs| - 1]] else [])
  }

  lemma {:induction false} FilterMembers<T>(xs: seq<T>, keep: T -> bool)
    ensures forall x :: x in Filter(xs, keep) <==> x in xs && keep(x)
    decreases |xs|
  {
    if xs != [] {
      FilterMembers(xs[..|xs| - 1], keep);
      assert xs == xs[..|xs| - 1] + [xs[|xs| - 1]];
    }
  }

  lemma FilterSnoc<T>(xs: seq<T>, x: T, keep: T -> bool)
    ensures Filter(xs + [x], keep) == Filter(xs, keep) + (if keep(x) then [x] else [])
  {
    assert (xs + [x])[..|xs|] == xs;
  }

  function Both<T>(p: T -> bool, q: T -> bool): T -> bool {
    x => p(x) && q(x)
  }

  lemma {:induction false} FilterTwice<T>(xs: seq<T>, first: T -> bool, second: T -> bool)
    ensures Filter(Filter(xs, first), second) == Filter(xs, Both(first, second))
    decreases |xs|
  {
    if xs != [] {
      var n := |xs| - 1;
      FilterTwice(xs[..n], first, second);
      var head := Filter(xs[..n], first);
      FilterSnoc(head, xs[n], second);
      assert Filter(xs, first) == if first(xs[n]) then head + [xs[n]] else head;
      assert Filter(head, second) + [] == Filter(head, second);
    }
  }

  lemma {:induction false} FilterAgrees<T>(xs: seq<T>, p: T -> bool, q: T -> bool)
    requires forall x :: x in xs ==> p(x) == q(x)
    ensures Filter(xs, p) == Filter(xs, q)
    decreases |xs|
  {
    if xs != [] {
      assert forall x :: x in xs[..|xs| - 1] ==> x in xs;
      FilterAgrees(xs[..|xs| - 1], p, q);
    }
  }

  // ── What the record and the differences should be ─────────────────────────

  function Entry(c: Copied): MirrorArtifact {
    MirrorArtifact(KindName(c.artifact.kind), c.artifact.name, c.artifact.tag, c.digest)
  }

  /** The artifacts that made it, in order. */
  function Mirrored(results: seq<Copied>): seq<MirrorArtifact> {
    if results == [] then []
    else
      var c := results[|results| - 1];
      Mirrored(results[..|results| - 1]) + (if c.failed then [] else [Entry(c)])
  }

  /** The artifacts that did not, in order. */
  function Lost(results: seq<Copied>): seq<Artifact> {
    if results == [] then []
    else
      var c := results[|results| - 1];
      Lost(results[..|results| - 1]) + (if c.failed then [c.artifact] else [])
  }

  function RecordKeys(rec: Option<Record>): set<string> {
    if rec.None? then {} else set a | a in rec.value.artifacts :: RecordKey(a)
  }

  function BomKeys(bom: seq<Artifact>): set<string> {
    set a | a in bom :: BomKey(a)
  }

  /** What the BOM has and the record does not. */
  function Missing(bom: seq<Artifact>, rec: Option<Record>): seq<Artifact> {
    var have := RecordKeys(rec);
    Filter(bom, a => BomKey(a) !in have)
  }

  /** What the record has and the BOM does not. */
  function Stale(bom: seq<Artifact>, rec: Record): seq<MirrorArtifact> {
    var wanted := BomKeys(bom);
    Filter(rec.artifacts, a => RecordKey(a) !in wanted)
  }

  /** One delete run, in which `fails` says which artifacts could not be removed. An empty record stays. */
  function AfterDelete(rec: Option<Record>, fails: MirrorArtifact -> bool): Option<Record> {
    if rec.None? || rec.value.artifacts == [] then rec
    else
      var kept := Filter(rec.value.artifacts, fails);
      if kept == [] then None else Some(rec.value.(artifacts := kept))
  }

  // ── The commands ──────────────────────────────────────────────────────────

  class Store {
    var record: Option<Record>

    /** summarizeReplication. */
    static method SummarizeReplication(results: seq<Copied>) returns (mirrored: seq<MirrorArtifact>, failed: nat)
      ensures mirrored == Mirrored(results) && failed == |Lost(results)|
      ensures |mirrored| + failed == |results|
    {
      mirrored, failed := [], 0;
      for i := 0 to |results|
        invariant mirrored == Mirrored(results[..i]) && failed == |Lost(results[..i])| && |mirrored| + failed == i
      {
        var r := results[i];
        assert results[..i + 1][..i] == results[..i];
        if r.failed {
          failed := failed + 1;
          continue;
        }
        mirrored := mirrored + [Entry(r)];
      }
      assert results[..|results|] == results;
    }

    /** A partial replicate is recorded too, with the number that is missing. */
    method Replicate(results: seq<Copied>) returns (ok: bool)
      modifies this
      ensures record == Some(Record(|Lost(results)|, Mirrored(results)))
      ensures ok <==> Lost(results) == []
    {
      var mirrored, failed := SummarizeReplication(results);
      record := Some(Record(failed, mirrored));
      ok := failed == 0;
    }

    /** runRegistryDiff. A record of some other mirror says nothing about this one. */
    method Diff(bom: seq<Artifact>, mismatch: bool) returns (missing: seq<Artifact>)
      ensures missing == Missing(bom, if mismatch then None else record)
    {
      var have: set<string> := {};
      if record.Some? && !mismatch {
        var recorded := record.value.artifacts;
        for i := 0 to |recorded|
          invariant have == set a | a in recorded[..i] :: RecordKey(a)
        {
          assert recorded[..i + 1] == recorded[..i] + [recorded[i]];
          have := have + {RecordKey(recorded[i])};
        }
        assert recorded[..|recorded|] == recorded;
      }
      missing := [];
      for i := 0 to |bom|
        invariant missing == Filter(bom[..i], a => BomKey(a) !in have)
      {
        assert bom[..i + 1][..i] == bom[..i];
        if BomKey(bom[i]) !in have {
          missing := missing + [bom[i]];
        }
      }
      assert bom[..|bom|] == bom;
    }

    /** runRegistryPrune: refuses without a record of this mirror; else lists, and removes nothing. */
    method Prune(bom: seq<Artifact>, mismatch: bool) returns (stale: Option<seq<MirrorArtifact>>)
      ensures stale.Some? <==> record.Some? && !mismatch
      ensures stale.Some? ==> stale.value == Stale(bom, record.value)
    {
      if record.None? || mismatch {
        return None;
      }
      var wanted: set<string> := {};
      for i := 0 to |bom|
        invariant wanted == BomKeys(bom[..i])
      {
        assert bom[..i + 1] == bom[..i] + [bom[i]];
        wanted := wanted + {BomKey(bom[i])};
      }
      assert bom[..|bom|] == bom;
      var recorded, out := record.value.artifacts, [];
      for i := 0 to |recorded|
        invariant out == Filter(recorded[..i], a => RecordKey(a) !in wanted)
      {
        assert recorded[..i + 1][..i] == recorded[..i];
        if RecordKey(recorded[i]) !in wanted {
          out := out + [recorded[i]];
        }
      }
      assert recorded[..|recorded|] == recorded;
      stale := Some(out);
    }

    /** runRegistryDelete, given which removals the registry refuses. Without a record there is nothing to
        delete, and that is a success. */
    method Delete(mismatch: bool, fails: MirrorArtifact -> bool) returns (ok: bool, deleted: nat)
      modifies this
      ensures record == if mismatch then old(record) else AfterDelete(old(record), fails)
      ensures deleted == if old(record).None? || mismatch then 0
                         else |old(record).value.artifacts| - |Filter(old(record).value.artifacts, fails)|
      ensures ok <==> old(record).None? || (!mismatch && Filter(old(record).value.artifacts, fails) == [])
    {
      deleted := 0;
      if record.None? {
        return true, 0;
      }
      if mismatch {
        return false, 0;
      }
      var arts := record.value.artifacts;
      if arts == [] {
        return true, 0;
      }
      var failed, remaining := 0, [];
      for i := 0 to |arts|
        invariant remaining == Filter(arts[..i], fails) && failed == |remaining| && deleted == i - failed
      {
        assert arts[..i + 1][..i] == arts[..i];
        if fails(arts[i]) {
          failed := failed + 1;
          remaining := remaining + [arts[i]];
          continue;
        }
        deleted := deleted + 1;
      }
      assert arts[..|arts|] == arts;
      if remaining == [] {
        record := None;
      } else {
        record := Some(record.value.(artifacts := remaining));
      }
      ok := failed == 0;
    }
  }

  // ── Replicate, then diff ──────────────────────────────────────────────────

  /** One result for each artifact of the BOM, in its order. */
  predicate ResultsFor(results: seq<Copied>, bom: seq<Artifact>) {
    |results| == |bom| && forall i :: 0 <= i < |bom| ==> results[i].artifact == bom[i]
  }

  /** What was copied is recorded, under its kind, name, tag and digest; and nothing else is. */
  lemma CopiedAreRecorded(results: seq<Copied>)
    ensures forall a :: a in Mirrored(results) <==>
              exists c :: c in results && !c.failed
                          && a == MirrorArtifact(KindName(c.artifact.kind), c.artifact.name, c.artifact.tag, c.digest)
  {
    hide Mirrored;
    MirroredMembers(results);
    assert forall i :: 0 <= i < |results| ==> results[i] in results;
  }

  lemma {:induction false} MirroredMembers(results: seq<Copied>)
    ensures forall a :: a in Mirrored(results) <==> exists i :: 0 <= i < |results| && !results[i].failed && a == Entry(results[i])
    decreases |results|
  {
    if results != [] {
      var n := |results| - 1;
      MirroredMembers(results[..n]);
      assert results == results[..n] + [results[n]];
      forall a ensures a in Mirrored(results) <==> exists i :: 0 <= i < |results| && !results[i].failed && a == Entry(results[i]) {
        if i :| 0 <= i < n && !results[..n][i].failed && a == Entry(results[..n][i]) {
          assert results[i] == results[..n][i];
        }
      }
    }
  }

  /** The record of a replicate holds an artifact's key exactly if that artifact was copied. */
  lemma KeyRecordedIffCopied(bom: seq<Artifact>, results: seq<Copied>, i: nat)
    requires ResultsFor(results, bom) && DistinctKeys(bom) && i < |bom|
    ensures BomKey(bom[i]) in RecordKeys(Some(Record(|Lost(results)|, Mirrored(results)))) <==> !results[i].failed
  {
    hide Mirrored, Lost, Key;
    MirroredMembers(results);
    if !results[i].failed {
      assert Entry(results[i]) in Mirrored(results);
      assert RecordKey(Entry(results[i])) == BomKey(bom[i]);
    } else {
      forall a | a in Mirrored(results) ensures RecordKey(a) != BomKey(bom[i]) {
        var j :| 0 <= j < |results| && !results[j].failed && a == Entry(results[j]);
        assert results[j].artifact == bom[j] && j != i;
        assert BomKey(bom[if i < j then i else j]) != BomKey(bom[if i < j then j else i]);
      }
    }
  }

  lemma {:induction false} FilterIsLost(bom: seq<Artifact>, results: seq<Copied>, have: set<string>)
    requires ResultsFor(results, bom) && forall i :: 0 <= i < |bom| ==> (BomKey(bom[i]) in have <==> !results[i].failed)
    ensures Filter(bom, a => BomKey(a) !in have) == Lost(results)
    decreases |bom|
  {
    if bom != [] {
      FilterIsLost(bom[..|bom| - 1], results[..|bom| - 1], have);
    }
  }

  /** A diff after a replicate lists exactly the artifacts that failed, in the BOM's order; their number
      is the recorded missing count, and with the recorded artifacts it makes up the BOM. */
  lemma DiffAfterReplicate(bom: seq<Artifact>, results: seq<Copied>)
    requires ResultsFor(results, bom) && DistinctKeys(bom)
    ensures var rec := Record(|Lost(results)|, Mirrored(results));
            && Missing(bom, Some(rec)) == Lost(results)
            && rec.missingCount == |Missing(bom, Some(rec))|
            && rec.missingCount + |rec.artifacts| == |bom|
  {
    hide Mirrored, Lost, Key, Filter;
    var rec := Record(|Lost(results)|, Mirrored(results));
    forall i | 0 <= i < |bom| ensures BomKey(bom[i]) in RecordKeys(Some(rec)) <==> !results[i].failed {
      KeyRecordedIffCopied(bom, results, i);
    }
    FilterIsLost(bom, results, RecordKeys(Some(rec)));
    NothingUncounted(results);
  }

  lemma {:induction false} NothingUncounted(results: seq<Copied>)
    ensures |Mirrored(results)| + |Lost(results)| == |results|
    decreases |results|
  {
    if results != [] { NothingUncounted(results[..|results| - 1]); }
  }

  /** Diff and prune are both silent exactly when record and BOM hold the same keys. */
  lemma InSyncIffSameKeys(bom: seq<Artifact>, rec: Record)
    ensures Missing(bom, Some(rec)) == [] && Stale(bom, rec) == [] <==> RecordKeys(Some(rec)) == BomKeys(bom)
  {
    hide Filter, Key;
    var have, wanted := RecordKeys(Some(rec)), BomKeys(bom);
    FilterMembers(bom, a => BomKey(a) !in have);
    FilterMembers(rec.artifacts, a => RecordKey(a) !in wanted);
    if Missing(bom, Some(rec)) == [] && Stale(bom, rec) == [] {
      forall k ensures k in have <==> k in wanted {
        if k in have {
          var a :| a in rec.artifacts && RecordKey(a) == k;
          assert a !in Stale(bom, rec);
        }
        if k in wanted {
          var a :| a in bom && BomKey(a) == k;
          assert a !in Missing(bom, Some(rec));
        }
      }
    }
    if have == wanted {
      assert forall a :: a in bom ==> BomKey(a) in wanted;
      assert forall a :: a in rec.artifacts ==> RecordKey(a) in have;
      NoMembers(Missing(bom, Some(rec)));
      NoMembers(Stale(bom, rec));
    }
  }

  lemma NoMembers<T>(xs: seq<T>)
    ensures xs == [] || exists x :: x in xs
  {
    if xs != [] { assert xs[0] in xs; }
  }

  // ── Deleting, as often as it takes ────────────────────────────────────────

  type Removal = MirrorArtifact -> bool

  function AfterDeletes(rec: Option<Record>, runs: seq<Removal>): Option<Record> {
    if runs == [] then rec else AfterDelete(AfterDeletes(rec, runs[..|runs| - 1]), runs[|runs| - 1])
  }

  predicate FailsAlways(runs: seq<Removal>, a: MirrorArtifact) {
    forall i :: 0 <= i < |runs| ==> runs[i](a)
  }

  function Stubborn(runs: seq<Removal>): Removal {
    a => FailsAlways(runs, a)
  }

  /** After any number of runs the record holds exactly the artifacts that failed in every one of them,
      in the old order, and is gone when there are none. */
  lemma {:induction false} DeletesKeepTheStubborn(rec: Record, runs: seq<Removal>)
    requires rec.artifacts != []
    ensures var kept := Filter(rec.artifacts, Stubborn(runs));
            AfterDeletes(Some(rec), runs) == if kept == [] then None else Some(rec.(artifacts := kept))
    decreases |runs|
  {
    if runs == [] {
      FilterAgrees(rec.artifacts, Stubborn(runs), a => true);
      KeepAll(rec.artifacts);
    } else {
      hide Filter;
      var n := |runs| - 1;
      DeletesKeepTheStubborn(rec, runs[..n]);
      var before := Filter(rec.artifacts, Stubborn(runs[..n]));
      FilterTwice(rec.artifacts, Stubborn(runs[..n]), runs[n]);
      StubbornStep(runs, n);
      FilterAgrees(rec.artifacts, Stubborn(runs), Both(Stubborn(runs[..n]), runs[n]));
      assert Filter(before, runs[n]) == Filter(rec.artifacts, Stubborn(runs));
      if before == [] { FilterMembers(before, runs[n]); NoMembers(Filter(before, runs[n])); }
    }
  }

  /** Any number of runs, none included, leaves what one run would in which everything fails that failed
      in each of them. */
  lemma DeletesAreOneDelete(rec: Record, runs: seq<Removal>)
    ensures AfterDeletes(Some(rec), runs) == AfterDelete(Some(rec), Stubborn(runs))
  {
    if rec.artifacts == [] {
      NothingToDelete(rec, runs);
    } else {
      DeletesKeepTheStubborn(rec, runs);
    }
  }

  lemma {:induction false} NothingToDelete(rec: Record, runs: seq<Removal>)
    requires rec.artifacts == []
    ensures AfterDeletes(Some(rec), runs) == Some(rec)
    decreases |runs|
  {
    if runs != [] {
      NothingToDelete(rec, runs[..|runs| - 1]);
    }
  }

  lemma StubbornStep(runs: seq<Removal>, n: nat)
    requires |runs| == n + 1
    ensures forall a :: Stubborn(runs)(a) == Both(Stubborn(runs[..n]), runs[n])(a)
  {
    forall a ensures FailsAlways(runs, a) == (FailsAlways(runs[..n], a) && runs[n](a)) {
      if FailsAlways(runs[..n], a) && runs[n](a) {
        forall i | 0 <= i < |runs| ensures runs[i](a) {
          if i < n { assert runs[..n][i](a); }
        }
      }
    }
  }

  lemma {:induction false} KeepAll<T>(xs: seq<T>)
    ensures Filter(xs, a => true) == xs
    decreases |xs|
  {
    if xs != [] { KeepAll(xs[..|xs| - 1]); }
  }

  // ── The guard before an install ───────────────────────────────────────────

  /** What `bnk up` asks of the record's contents (MirrorRecordIncompleteError). */
  predicate PassesGuard(rec: Record) {
    rec.missingCount == 0
  }

  /** Right after a replicate the guard is exact. A delete that leaves something over does not touch
      the missing count, so after any number of them the guard passes a mirror with artifacts missing
      exactly if the replicate had been clean and the deletes removed anything. */
  lemma GuardAfterDeletes(bom: seq<Artifact>, results: seq<Copied>, runs: seq<Removal>)
    requires ResultsFor(results, bom) && DistinctKeys(bom)
    ensures var rec := Record(|Lost(results)|, Mirrored(results));
            var after := AfterDeletes(Some(rec), runs);
            && (PassesGuard(rec) <==> Missing(bom, Some(rec)) == [])
            && (after.Some? ==>
                  (PassesGuard(after.value) && Missing(bom, after) != []
                   <==> Lost(results) == [] && exists a :: a in rec.artifacts && !FailsAlways(runs, a)))
  {
    hide Mirrored, Lost, Key, Filter, Missing, FailsAlways, AfterDeletes;
    var rec := Record(|Lost(results)|, Mirrored(results));
    DiffAfterReplicate(bom, results);
    DeletesAreOneDelete(rec, runs);
    var after := AfterDeletes(Some(rec), runs);
    if after.Some? && Lost(results) == [] {
      FilterMembers(rec.artifacts, Stubborn(runs));
      if a :| a in rec.artifacts && !FailsAlways(runs, a) {
        RemovedIsMissing(bom, results, Stubborn(runs), a);
      } else {
        FilterAgrees(rec.artifacts, Stubborn(runs), b => true);
        KeepAll(rec.artifacts);
        assert after == Some(rec);
      }
    }
  }

  lemma RemovedIsMissing(bom: seq<Artifact>, results: seq<Copied>, fails: Removal, a: MirrorArtifact)
    requires ResultsFor(results, bom) && DistinctKeys(bom) && a in Mirrored(results) && !fails(a)
    ensures var rec := Record(|Lost(results)|, Filter(Mirrored(results), fails));
            Missing(bom, Some(rec)) != []
  {
    hide Mirrored, Lost, Key, Filter;
    var kept := Filter(Mirrored(results), fails);
    var rec := Record(|Lost(results)|, kept);
    var have := RecordKeys(Some(rec));
    MirroredMembers(results);
    FilterMembers(Mirrored(results), fails);
    var i :| 0 <= i < |results| && !results[i].failed && a == Entry(results[i]);
    forall b | b in kept ensures RecordKey(b) != BomKey(bom[i]) {
      var j :| 0 <= j < |results| && !results[j].failed && b == Entry(results[j]);
      assert results[j].artifact == bom[j] && results[i].artifact == bom[i] && j != i;
      assert BomKey(bom[if i < j then i else j]) != BomKey(bom[if i < j then j else i]);
    }
    FilterMembers(bom, x => BomKey(x) !in have);
    assert bom[i] in Missing(bom, Some(rec));
  }
}
