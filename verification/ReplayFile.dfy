/** The two places that refuse unbalanced values, and the replay var-file that terraform
    reads (`internal/orchestration/applied_replay.go`, writeAppliedReplayFile). */
module ReplayFile {
  import opened Text
  import opened TFVars
  import opened AppliedSnapshot
  import opened SnapshotRoundTrip
  import Scanner = BracketScanner
  import Ordering
  import opened Wrappers

  // ── Reader and writers count the same brackets ────────────────────────────

  ghost predicate LinesLeaveStrings(value: string, rest: seq<string>) {
    !Scanner.EndsInString(value) && forall i :: 0 <= i < |rest| ==> !Scanner.EndsInString(rest[i])
  }

  /** When no line ends inside a string, the whole block counts as the sum of its lines. */
  lemma {:induction false} BlockCountsItsLines(value: string, rest: seq<string>)
    requires LinesLeaveStrings(value, rest)
    ensures Scanner.Delta(BlockText(value, rest)) == DepthAfter(rest, Scanner.Delta(value), |rest|)
    ensures !Scanner.EndsInString(BlockText(value, rest))
    decreases |rest|
  {
    hide Scanner.Delta, Scanner.EndsInString, TrimCR;
    if rest != [] {
      var n := |rest| - 1;
      assert forall k :: 0 <= k <= n ==> rest[..n][..k] == rest[..k];
      BlockCountsItsLines(value, rest[..n]);
      DepthAfterPrefix(rest, Scanner.Delta(value), n, n);
      TrimCRKeepsDelta(rest[n]);
      TrimCRKeepsMode(rest[n]);
      Scanner.DeltaAddsAtNewline(BlockText(value, rest[..n]), TrimCR(rest[n]));
    }
  }

  lemma {:induction false} DepthAfterPrefix(rest: seq<string>, open: int, n: nat, k: nat)
    requires k <= n <= |rest|
    ensures DepthAfter(rest[..n], open, k) == DepthAfter(rest, open, k)
  {
    if k > 0 { DepthAfterPrefix(rest, open, n, k - 1); }
  }

  lemma TrimCRKeepsMode(l: string)
    requires !Scanner.EndsInString(l)
    ensures !Scanner.EndsInString(TrimCR(l))
  {
    var t := TrimCR(l);
    var tail := l[|t|..];
    assert l == t + tail;
    forall c | c in tail ensures c == '\r' {
      var i :| 0 <= i < |tail| && tail[i] == c;
      assert l[|t| + i] == c;
    }
    Scanner.Compose(Scanner.Code, t, tail);
    StringStaysString(Scanner.Run(Scanner.Code, t), tail);
  }

  lemma {:induction false} StringStaysString(m: Scanner.Mode, tail: string)
    requires forall c :: c in tail ==> c == '\r'
    ensures m in {Scanner.Str, Scanner.Escape} ==> Scanner.Run(m, tail) in {Scanner.Str, Scanner.Escape}
    decreases |tail|
  {
    if tail != "" {
      assert tail[0] in tail;
      forall c | c in tail[1..] ensures c in tail { }
      StringStaysString(Scanner.Step(m, tail[0]), tail[1..]);
    }
  }

  /** A block the reader closes, with no line ending inside a string, is never refused by a writer. */
  lemma ClosedBlockIsBalanced(value: string, rest: seq<string>)
    requires ClosesAt(rest, Scanner.Delta(value), |rest|) && LinesLeaveStrings(value, rest)
    ensures Scanner.Balanced(BlockText(value, rest))
  {
    BlockCountsItsLines(value, rest);
  }

  /** Line `k` of the block starts inside a string that the lines before it left open. */
  predicate StartsInString(value: string, rest: seq<string>, k: nat)
    requires k <= |rest|
  {
    Scanner.EndsInString(BlockText(value, rest[..k]))
  }

  /** What the first `n` lines that start inside a string count, each scanned from mode `m`. */
  function CountInStrings(value: string, rest: seq<string>, m: Scanner.Mode, n: nat): int
    requires n <= |rest|
  {
    if n == 0 then 0
    else CountInStrings(value, rest, m, n - 1)
         + (if StartsInString(value, rest, n - 1) then Scanner.Depth(m, rest[n - 1]) else 0)
  }

  /** The whole-value count is the line count, corrected for the lines that start inside a string. */
  lemma {:induction false} BlockCount(value: string, rest: seq<string>, n: nat)
    requires n <= |rest|
    ensures Scanner.Delta(BlockText(value, rest[..n])) ==
            DepthAfter(rest, Scanner.Delta(value), n)
            - CountInStrings(value, rest, Scanner.Code, n) + CountInStrings(value, rest, Scanner.Str, n)
  {
    hide Scanner.Depth, Scanner.EndsInString, TrimCR;
    if n == 0 {
      assert rest[..0] == [];
    } else {
      BlockCount(value, rest, n - 1);
      var line := rest[n - 1];
      assert rest[..n][..n - 1] == rest[..n - 1] && rest[..n][n - 1] == line;
      TrimCRKeepsDelta(line);
      Scanner.DeltaAtNewline(BlockText(value, rest[..n - 1]), TrimCR(line));
    }
  }

  /** Exactly when reader and writers agree on a closed block: when the lines that start inside an open
      string count the same, in sum, inside it as they do on their own. */
  lemma ClosedBlockIsBalancedIff(value: string, rest: seq<string>)
    requires ClosesAt(rest, Scanner.Delta(value), |rest|)
    ensures Scanner.Balanced(BlockText(value, rest)) <==>
            CountInStrings(value, rest, Scanner.Str, |rest|) == CountInStrings(value, rest, Scanner.Code, |rest|)
  {
    hide BlockText, CountInStrings;
    BlockCount(value, rest, |rest|);
    assert rest[..|rest|] == rest;
  }

  /** They can disagree: a string left open on the first line hides the closer from the whole-value count,
      though the line count saw it. The reader records the value, and no writer will write it. */
  lemma ReaderAndWriterCanDisagree()
    ensures var value := "[\"" + "\n" + "]";
            ParseText("k = " + value) == map["k" := value] && !Scanner.Balanced(value)
  {
    hide ParseText, Scanner.Depth, Scanner.EndsInString;
    CountsOfBrackets();
    Scanner.DeltaAtNewline("[\"", "]");
    ReadOpenString("[\"" + "\n" + "]");
  }

  /** And they can agree although every line ends inside a string. */
  lemma ReaderAndWriterCanAgreeInStrings()
    ensures ClosesAt(["] \"]"], Scanner.Delta("[\""), 1) && !LinesLeaveStrings("[\"", ["] \"]"])
    ensures Scanner.Balanced(BlockText("[\"", ["] \"]"]))
  {
    hide BlockText, ClosesAt, DepthAfter;
    CountsOfBrackets();
    CountsOfQuotedCloser();
    BlockOfOneLine("] \"]");
    Scanner.DeltaAtNewline("[\"", "] \"]");
  }

  lemma CountsOfQuotedCloser()
    ensures Scanner.Delta("] \"]") == -1 && Scanner.Depth(Scanner.Str, "] \"]") == -1 && Scanner.EndsInString("] \"]")
  {
    var s := "] \"]";
    assert s[1..] == " \"]" && " \"]"[1..] == "\"]" && "\"]"[1..] == "]" && "]"[1..] == "";
  }

  lemma CountsOfBrackets()
    ensures Scanner.Delta("]") == -1 && Scanner.Delta("[\"") == 1 && Scanner.EndsInString("[\"")
    ensures Scanner.Depth(Scanner.Str, "]") == 0
  {
    Scanner.Compose(Scanner.Code, "[", "\"");
    assert "[\"" == "[" + "\"";
  }

  lemma BlockOfOneLine(line: string)
    requires Scanner.Delta(line) == -1 && line != "" && line[|line| - 1] == ']'
    ensures ClosesAt([line], 1, 1) && BlockText("[\"", [line]) == "[\"" + "\n" + line
  {
    hide Scanner.Delta;
    assert DepthAfter([line], 1, 0) == 1 && DepthAfter([line], 1, 1) == 0;
    assert [line][..0] == [] && TrimCR(line) == line;
  }

  lemma OpenStringIsRecorded(v: string)
    requires v == "[\"" + "\n" + "]"
    ensures Recorded(v) && Printable(v)
  {
    hide SplitLines, Scanner.Delta, StripComment;
    SplitSeam("[\"", "]");
    SplitSingle("[\"");
    SplitSingle("]");
    var ls := SplitLines(v);
    assert ls == ["[\"", "]"] && ls[1..] == ["]"];
    CountsOfBrackets();
    StripWithoutHash("[\"");
    assert BlockLength(["]"], 1) == Some(1) && TrimCR("]") == "]";
  }

  lemma ReadOpenString(v: string)
    requires v == "[\"" + "\n" + "]"
    ensures ParseText("k = " + v) == map["k" := v]
  {
    hide Parse, SplitLines, Reread, Recorded, Printable;
    OpenStringIsRecorded(v);
    assert IsIdent("k");
    ReadWrittenValue("k", v, [], map[]);
    SplitPrefix("k = ", v);
    assert "k" + " = " == "k = ";
    assert WrittenLines("k", v) + [] == SplitLines("k = " + v);
    RereadIsIdentity(v);
    NothingLeft(map["k" := v]);
    assert map[] + map["k" := v] == map["k" := v];
  }

  // ── The replay var-file ───────────────────────────────────────────────────

  const REPLAY_SKIP_NOTE := " = <skipped: unbalanced brackets in the applied snapshot>"

  function ReplayEntry(name: string, value: string): string {
    if !Scanner.Balanced(value) then "# " + name + REPLAY_SKIP_NOTE + "\n"
    else name + " = " + value + "\n"
  }

  function ReplayBody(m: Assignments, names: seq<string>): string
    requires forall n :: n in names ==> n in m
  {
    if names == [] then "" else ReplayEntry(names[0], m[names[0]]) + ReplayBody(m, names[1..])
  }

  const REPLAY_NOTE_1 := "# Deduped (later-source-wins) and" + " stripped of redacted secret keys."
  const REPLAY_NOTE_2 :=
    "# Re-generated on every down/plan/" + ("apply. Do not edit by hand" + (" \U{2014} your changes will be" + " overwritten."))

  function ReplayHeader(phase: string): string {
    "# Auto-generated by roksbnkctl from " + "terraform.applied.tfvars (phase=" + phase + ")." + "\n"
    + (REPLAY_NOTE_1 + "\n" + (REPLAY_NOTE_2 + "\n" + "\n"))
  }

  ghost function ReplayFileText(phase: string, m: Assignments): string {
    var names := Ordering.SortedKeys(m.Keys);
    Ordering.SameMembers(names, m.Keys);
    ReplayHeader(phase) + ReplayBody(m, names)
  }

  /** writeAppliedReplayFile. */
  method WriteAppliedReplayFile(phase: string, assigns: Assignments) returns (f: string)
    ensures f == ReplayFileText(phase, assigns)
  {
    hide ReplayEntry, ReplayHeader, ReplayBody, Ordering.Sorted, Ordering.StringLeq, Ordering.SortedKeys;
    var keys := Ordering.SortedKeysOf(assigns);
    Ordering.SameMembers(keys, assigns.Keys);
    ReplayBodyEmpty(assigns);
    f := ReplayHeader(phase);
    ghost var header := f;
    for n := 0 to |keys|
      invariant forall k :: k in keys[..n] ==> k in assigns
      invariant f == header + ReplayBody(assigns, keys[..n])
    {
      var k := keys[n];
      var text := WriteReplayEntry(k, assigns[k]);
      assert keys[..n + 1] == keys[..n] + [k];
      ReplayBodySnoc(assigns, keys[..n], k);
      f := f + text;
    }
    assert keys[..|keys|] == keys;
  }

  method WriteReplayEntry(name: string, value: string) returns (text: string)
    ensures text == ReplayEntry(name, value)
  {
    var bad := Scanner.HCLValueIsUnbalanced(value);
    if bad {
      return "# " + name + REPLAY_SKIP_NOTE + "\n";
    }
    return name + " = " + value + "\n";
  }

  lemma ReplayBodyEmpty(m: Assignments)
    ensures ReplayBody(m, []) == ""
  {
  }

  lemma {:induction false} ReplayBodySnoc(m: Assignments, names: seq<string>, k: string)
    requires (forall n :: n in names ==> n in m) && k in m
    ensures ReplayBody(m, names + [k]) == ReplayBody(m, names) + ReplayEntry(k, m[k])
  {
    hide ReplayEntry;
    if names == [] {
      assert names + [k] == [k] && [k][1..] == [];
    } else {
      assert (names + [k])[0] == names[0] && (names + [k])[1..] == names[1..] + [k];
      ReplayBodySnoc(m, names[1..], k);
    }
  }

  /** Assignments that came out of a snapshot: well formed, balanced, printable. */
  ghost predicate Emittable(m: Assignments) {
    WellFormed(m) && forall k :: k in m ==> Scanner.Balanced(m[k]) && Printable(m[k])
  }

  function Chosen(m: Assignments, names: seq<string>): Assignments
    requires forall n :: n in names ==> n in m
  {
    map n | n in names :: m[n]
  }

  lemma {:induction false} ReadReplayBody(m: Assignments, names: seq<string>, acc: Assignments)
    requires Emittable(m) && forall n :: n in names ==> n in m
    ensures Parse(SplitLines(ReplayBody(m, names)), acc) == acc + Chosen(m, names)
    decreases |names|
  {
    hide SplitLines, Parse, Emittable, ReplayEntry;
    if names == [] {
      EmptyTextAddsNothing(acc);
      assert acc + Chosen(m, []) == acc;
    } else {
      var n := names[0];
      assert n in names;
      ReadReplayEntry(m, n, ReplayBody(m, names[1..]), acc);
      ReadReplayBody(m, names[1..], acc + map[n := m[n]]);
      assert (acc + map[n := m[n]]) + Chosen(m, names[1..]) == acc + Chosen(m, names);
    }
  }

  lemma ReadReplayEntry(m: Assignments, n: string, rest: string, acc: Assignments)
    requires Emittable(m) && n in m
    ensures Parse(SplitLines(ReplayEntry(n, m[n]) + rest), acc) == Parse(SplitLines(rest), acc + map[n := m[n]])
  {
    hide IsIdent, Recorded, SplitLines, Parse, Printable, Scanner.Balanced, Reread;
    assert ReplayEntry(n, m[n]) + rest == n + " = " + m[n] + "\n" + rest;
    ReadValueText(n, m[n], rest, acc);
    RereadIsIdentity(m[n]);
  }

  ghost predicate IsCommentLine(line: string) {
    line != "" && line[0] == '#' && NoNewline(line)
  }

  lemma ReplayNote1IsComment()
    ensures IsCommentLine(REPLAY_NOTE_1)
  {
    assert NoNewline("# Deduped (later-source-wins) and") && NoNewline(" stripped of redacted secret keys.");
  }

  lemma ReplayNote2IsComment()
    ensures IsCommentLine(REPLAY_NOTE_2)
  {
    var a, b := "# Re-generated on every down/plan/", "apply. Do not edit by hand";
    var c, d := " \U{2014} your changes will be", " overwritten.";
    assert NoNewline(a) && NoNewline(b) && NoNewline(c) && NoNewline(d);
    CommentOfPieces(a, b, c, d);
  }

  lemma CommentOfPieces(a: string, b: string, c: string, d: string)
    requires a != "" && a[0] == '#'
    requires NoNewline(a) && NoNewline(b) && NoNewline(c) && NoNewline(d)
    ensures IsCommentLine(a + (b + (c + d)))
  {
    hide NoNewline;
    ConcatFitsOnLine(c, d);
    ConcatFitsOnLine(b, c + d);
    ConcatFitsOnLine(a, b + (c + d));
  }

  lemma ReplayTitleIsComment(phase: string)
    requires NoNewline(phase)
    ensures IsCommentLine("# Auto-generated by roksbnkctl from " + "terraform.applied.tfvars (phase=" + phase + ").")
  {
  }

  lemma ReadCommentLine(line: string, rest: string, m: Assignments)
    requires IsCommentLine(line)
    ensures Parse(SplitLines(line + "\n" + rest), m) == Parse(SplitLines(rest), m)
  {
    CommentIsIgnored(line);
    ReadIgnoredLine(line, rest, m);
  }

  lemma ReadReplayHeader(phase: string, rest: string)
    requires NoNewline(phase)
    ensures Parse(SplitLines(ReplayHeader(phase) + rest), map[]) == Parse(SplitLines(rest), map[])
  {
    ReplayTitleIsComment(phase);
    ReplayNote1IsComment();
    ReplayNote2IsComment();
    ReadThreeComments("# Auto-generated by roksbnkctl from " + "terraform.applied.tfvars (phase=" + phase + ").",
                      REPLAY_NOTE_1, REPLAY_NOTE_2, rest, map[]);
  }

  lemma ReadThreeComments(a: string, b: string, c: string, rest: string, m: Assignments)
    requires IsCommentLine(a) && IsCommentLine(b) && IsCommentLine(c)
    ensures Parse(SplitLines((a + "\n" + (b + "\n" + (c + "\n" + "\n"))) + rest), m) == Parse(SplitLines(rest), m)
  {
    hide Parse, SplitLines, IsCommentLine;
    assert (a + "\n" + (b + "\n" + (c + "\n" + "\n"))) + rest == a + "\n" + (b + "\n" + (c + "\n" + ("\n" + rest)));
    ReadCommentLine(a, b + "\n" + (c + "\n" + ("\n" + rest)), m);
    ReadCommentLine(b, c + "\n" + ("\n" + rest), m);
    ReadCommentLine(c, "\n" + rest, m);
    ReadBlank(rest, m);
  }

  // ── No name twice ─────────────────────────────────────────────────────────

  /** The names a file assigns, in the order of its entries, repetitions included. */
  function Names(lines: seq<string>): seq<string>
    decreases |lines|
  {
    if lines == [] then []
    else
      match ReadEntry(lines)
      case Skip => Names(lines[1..])
      case Assign(name, _, used) => [name] + Names(lines[used..])
  }

  lemma NamesSkipLine(line: string, rest: string)
    requires NoNewline(line) && ReadLine(line).None?
    ensures Names(SplitLines(line + "\n" + rest)) == Names(SplitLines(rest))
  {
    hide ReadLine;
    SplitSeam(line, rest);
    SplitSingle(line);
    var all := [line] + SplitLines(rest);
    assert all[0] == line && all[1..] == SplitLines(rest);
  }

  lemma NamesSkipComment(line: string, rest: string)
    requires IsCommentLine(line)
    ensures Names(SplitLines(line + "\n" + rest)) == Names(SplitLines(rest))
  {
    CommentIsIgnored(line);
    NamesSkipLine(line, rest);
  }

  lemma NamesSkipHeader(phase: string, rest: string)
    requires NoNewline(phase)
    ensures Names(SplitLines(ReplayHeader(phase) + rest)) == Names(SplitLines(rest))
  {
    hide Names, SplitLines, IsCommentLine, ReadLine;
    var title := "# Auto-generated by roksbnkctl from " + "terraform.applied.tfvars (phase=" + phase + ").";
    ReplayTitleIsComment(phase);
    ReplayNote1IsComment();
    ReplayNote2IsComment();
    EmptyIsIgnored();
    SkipThreeComments(title, REPLAY_NOTE_1, REPLAY_NOTE_2, rest);
  }

  lemma SkipThreeComments(a: string, b: string, c: string, rest: string)
    requires IsCommentLine(a) && IsCommentLine(b) && IsCommentLine(c)
    ensures Names(SplitLines((a + "\n" + (b + "\n" + (c + "\n" + "\n"))) + rest)) == Names(SplitLines(rest))
  {
    hide Names, SplitLines, IsCommentLine, ReadLine;
    assert (a + "\n" + (b + "\n" + (c + "\n" + "\n"))) + rest == a + "\n" + (b + "\n" + (c + "\n" + ("\n" + rest)));
    NamesSkipComment(a, b + "\n" + (c + "\n" + ("\n" + rest)));
    NamesSkipComment(b, c + "\n" + ("\n" + rest));
    NamesSkipComment(c, "\n" + rest);
    EmptyIsIgnored();
    NamesSkipLine("", rest);
    assert "" + "\n" + rest == "\n" + rest;
  }

  /** A written entry is one entry, whatever its inner lines look like. */
  lemma NamesOfEntry(name: string, value: string, rest: string)
    requires IsIdent(name) && Recorded(value) && Printable(value)
    ensures Names(SplitLines(name + " = " + value + "\n" + rest)) == [name] + Names(SplitLines(rest))
  {
    hide IsIdent, Recorded, Printable, Reread, ReadEntry, WrittenLines, SplitLines;
    SplitSeam(name + " = " + value, rest);
    assert NoNewline(name + " = ") by { IdentIsPlain(name); }
    SplitPrefix(name + " = ", value);
    assert SplitLines(name + " = " + value) == WrittenLines(name, value) by { WrittenLinesAre(name, value); }
    WrittenEntry(name, value, SplitLines(rest));
    WrittenLineCount(name, value);
    RereadIsIdentity(value);
    assert (WrittenLines(name, value) + SplitLines(rest))[|SplitLines(value)|..] == SplitLines(rest);
  }

  lemma WrittenLinesAre(name: string, value: string)
    ensures WrittenLines(name, value) == [name + " = " + SplitLines(value)[0]] + SplitLines(value)[1..]
  {
  }

  lemma {:induction false} NamesOfBody(m: Assignments, names: seq<string>)
    requires Emittable(m) && forall n :: n in names ==> n in m
    ensures Names(SplitLines(ReplayBody(m, names))) == names
    decreases |names|
  {
    hide Names, SplitLines, IsIdent, Recorded, Printable, Scanner.Balanced;
    if names == [] {
      NamesOfNothing();
    } else {
      var n := names[0];
      assert n in names;
      assert ReplayEntry(n, m[n]) + ReplayBody(m, names[1..]) == n + " = " + m[n] + "\n" + ReplayBody(m, names[1..]);
      NamesOfEntry(n, m[n], ReplayBody(m, names[1..]));
      NamesOfBody(m, names[1..]);
    }
  }

  lemma NamesOfNothing()
    ensures Names(SplitLines("")) == []
  {
    hide ReadEntry;
    EmptyIsSkipped();
    assert SplitLines("") == [""] && [""][1..] == [];
  }

  /** The replay file gives back exactly what was put in, with one entry for each name. */
  lemma ReplayFileReadsBack(phase: string, m: Assignments)
    requires NoNewline(phase) && Emittable(m)
    ensures ParseText(ReplayFileText(phase, m)) == m
    ensures Names(SplitLines(ReplayFileText(phase, m))) == Ordering.SortedKeys(m.Keys)
  {
    hide Parse, Names, SplitLines, ReplayHeader, ReplayBody, Emittable, Ordering.Sorted;
    var names := Ordering.SortedKeys(m.Keys);
    Ordering.SameMembers(names, m.Keys);
    ReadReplayHeader(phase, ReplayBody(m, names));
    ReadReplayBody(m, names, map[]);
    assert map[] + Chosen(m, names) == m;
    NamesSkipHeader(phase, ReplayBody(m, names));
    NamesOfBody(m, names);
  }

  /** Everything replayed from a snapshot can be emitted: the second guard never fires. */
  lemma {:induction false} ReplayIsEmittable(sources: seq<Source>)
    requires Unreadable !in sources
    ensures Emittable(MergeSources(sources) - REDACTED_NAMES)
    decreases |sources|
  {
    hide ParseText, ReadBack, IsIdent, Recorded, Printable, Scanner.Balanced;
    if sources != [] {
      ReplayIsEmittable(sources[1..]);
      var rest := MergeSources(sources[1..]) - REDACTED_NAMES;
      if sources[0].File? {
        var m := ParseText(sources[0].text);
        TextIsWellFormed(sources[0].text);
        SurvivorsAreEmittable(m);
        assert MergeSources(sources) - REDACTED_NAMES == Survivors(m) + rest;
      } else {
        assert MergeSources(sources) - REDACTED_NAMES == rest;
      }
    }
  }

  lemma SurvivorsAreEmittable(m: Assignments)
    requires WellFormed(m)
    ensures Emittable(Survivors(m))
  {
    hide Reread, Printable, IsIdent, Recorded, Scanner.Balanced;
    forall k | k in Survivors(m)
      ensures IsIdent(k) && Recorded(Survivors(m)[k])
      ensures Scanner.Balanced(Survivors(m)[k]) && Printable(Survivors(m)[k])
    {
      SurvivorsOfRecordable(m, k);
      RereadIsPrintable(m[k]);
      RereadKeepsBalance(m[k]);
      RereadIsRecorded(m[k]);
    }
  }

  lemma RereadIsRecorded(v: string)
    requires Recorded(v) && Reread(v).Some?
    ensures Recorded(Reread(v).value)
  {
    hide Scanner.Delta, TrimCR, BlockLength, StripComment;
    var ls := SplitLines(v);
    var first := TrimRight(ls[0], IsSpace);
    var rs := [first] + ls[1..];
    assert NoNewline(first) by { forall c | c in first ensures c in ls[0] { } }
    SplitJoin(rs);
    TrimSpaceKeepsDelta(ls[0]);
    StripPrefix(ls[0], |first|);
    SpacesCoverBlanks(first[|first| - 1]);
    assert rs[1..] == ls[1..];
  }

  /** From snapshot to replay file: terraform is handed exactly the replayed assignments, none of them
      skipped, in name order, and no name twice, which terraform would refuse. */
  lemma ReplayFileIsFaithful(phase: string, stamp: string, version: string, sources: seq<Source>)
    requires NoNewline(phase) && NoNewline(stamp) && NoNewline(version) && CleanSources(sources)
    ensures var m := Replay(SnapshotText(phase, stamp, version, sources));
            ParseText(ReplayFileText(phase, m)) == m && forall k :: k in m ==> Scanner.Balanced(m[k])
    ensures var m := Replay(SnapshotText(phase, stamp, version, sources));
            var names := Names(SplitLines(ReplayFileText(phase, m)));
            names == Ordering.SortedKeys(m.Keys) && forall i :: 0 <= i < |names| ==> names[i] !in names[..i]
  {
    hide ParseText, SnapshotText, MergeSources, ReplayFileText, Names, SplitLines, Emittable;
    SnapshotReadsBack(phase, stamp, version, sources);
    ReplayIsEmittable(sources);
    var m := MergeSources(sources) - REDACTED_NAMES;
    ReplayFileReadsBack(phase, m);
    var names := Ordering.SortedKeys(m.Keys);
    forall i | 0 <= i < |names| ensures names[i] !in names[..i] {
      Ordering.OnceOnly(names, m.Keys, i);
    }
    assert forall k :: k in m ==> Scanner.Balanced(m[k]) by { EmittableBalances(m); }
  }

  lemma EmittableBalances(m: Assignments)
    requires Emittable(m)
    ensures forall k :: k in m ==> Scanner.Balanced(m[k])
  {
    hide Scanner.Balanced, WellFormed, Printable;
  }
}
