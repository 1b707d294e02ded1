/** What the applied-tfvars snapshot gives back when it is read. */
module SnapshotRoundTrip {
  import opened Text
  import opened TFVars
  import opened AppliedSnapshot
  import Scanner = BracketScanner
  import Ordering
  import opened Wrappers

  // ── What a recorded value looks like ──────────────────────────────────────

  /** A value as the reader records it: a trimmed, comment-free first line; and, exactly when that
      line leaves brackets open, the continuation lines that close them, without trailing CRs. */
  predicate Recorded(v: string) {
    var ls := SplitLines(v);
    var open := Scanner.Delta(ls[0]);
    && Trimmed(ls[0]) && StripComment(ls[0]) == ls[0]
    && (open <= 0 ==> |ls| == 1)
    && (open > 0 ==> BlockLength(ls[1..], open) == Some(|ls| - 1))
    && forall i :: 1 <= i < |ls| ==> TrimCR(ls[i]) == ls[i]
  }

  ghost predicate WellFormed(m: Assignments) {
    forall k :: k in m ==> IsIdent(k) && Recorded(m[k])
  }

  // ── Comment stripping ─────────────────────────────────────────────────────

  lemma {:induction false} HashSurvivesStrip(s: string)
    requires HashAfterBlanks(StripComment(s))
    ensures HashAfterBlanks(s)
  {
    if s[0] != '#' {
      assert StripComment(s)[1..] == StripComment(s[1..]);
      HashSurvivesStrip(s[1..]);
    }
  }

  lemma {:induction false} StripIsIdempotent(v: string)
    ensures StripComment(StripComment(v)) == StripComment(v)
  {
    if v != "" && !(IsBlank(v[0]) && HashAfterBlanks(v[1..])) {
      var r := StripComment(v);
      assert r[0] == v[0] && r[1..] == StripComment(v[1..]);
      StripIsIdempotent(v[1..]);
      if IsBlank(r[0]) && HashAfterBlanks(r[1..]) {
        HashSurvivesStrip(v[1..]);
      }
    }
  }

  /** Stripping cuts right after a character that is not a blank. */
  lemma {:induction false} StripEndsTrimmed(v: string)
    requires v != "" && !IsBlank(v[|v| - 1]) && StripComment(v) != ""
    ensures !IsBlank(StripComment(v)[|StripComment(v)| - 1])
  {
    if |v| > 1 {
      assert v[1..][|v[1..]| - 1] == v[|v| - 1];
      if StripComment(v[1..]) != "" {
        StripEndsTrimmed(v[1..]);
      }
    }
  }

  lemma StripKeepsTrimmed(v: string)
    requires Trimmed(v)
    ensures Trimmed(StripComment(v)) && StripComment(v)[0] == v[0]
  {
    StripEndsTrimmed(v);
  }

  lemma {:induction false} HashInPrefix(s: string, n: nat)
    requires n <= |s| && HashAfterBlanks(s[..n])
    ensures HashAfterBlanks(s)
  {
    if s[0] != '#' {
      assert s[..n][1..] == s[1..][..n - 1];
      HashInPrefix(s[1..], n - 1);
    }
  }

  /** A prefix of comment-free text is comment-free. */
  lemma {:induction false} StripPrefix(s: string, n: nat)
    requires n <= |s| && StripComment(s) == s
    ensures StripComment(s[..n]) == s[..n]
  {
    if n > 0 {
      var p := s[..n];
      assert StripComment(s)[1..] == StripComment(s[1..]);
      assert p[1..] == s[1..][..n - 1];
      StripPrefix(s[1..], n - 1);
      if IsBlank(p[0]) && HashAfterBlanks(p[1..]) {
        HashInPrefix(s[1..], n - 1);
      }
      assert p == [p[0]] + p[1..];
    }
  }

  lemma {:induction false} StripWithoutHash(v: string)
    requires '#' !in v
    ensures StripComment(v) == v && !HashAfterBlanks(v)
  {
    if v != "" {
      assert v[0] in v;
      forall c | c in v[1..] ensures c in v { }
      StripWithoutHash(v[1..]);
      assert v == [v[0]] + v[1..];
    }
  }

  /** A comment after blanks is cut off, blanks included. */
  lemma {:induction false} StripCuts(v: string, blanks: string, comment: string)
    requires '#' !in v && (v != "" ==> !IsBlank(v[|v| - 1]))
    requires blanks != "" && AllBlank(blanks)
    ensures StripComment(v + (blanks + ("#" + comment))) == v
  {
    hide HashAfterBlanks, IsBlank, AllBlank;
    var tail := blanks + ("#" + comment);
    if v == "" {
      assert v + tail == tail;
      StripCutsAll(blanks, comment);
    } else {
      var s := v + tail;
      assert s[0] == v[0] && s[1..] == v[1..] + tail && v[0] in v;
      forall c | c in v[1..] ensures c in v { }
      StripCuts(v[1..], blanks, comment);
      if |v| > 1 {
        NoHashAhead(v[1..], tail);
      }
      assert v == [v[0]] + v[1..];
    }
  }

  lemma StripCutsAll(blanks: string, comment: string)
    requires blanks != "" && AllBlank(blanks)
    ensures StripComment(blanks + ("#" + comment)) == ""
  {
    var tail := blanks + ("#" + comment);
    assert blanks[0] in blanks && tail[0] == blanks[0];
    assert tail[1..] == blanks[1..] + ("#" + comment);
    BlanksThenHash(blanks[1..], comment);
  }

  lemma {:induction false} BlanksThenHash(blanks: string, comment: string)
    requires AllBlank(blanks)
    ensures HashAfterBlanks(blanks + ("#" + comment))
  {
    var s := blanks + ("#" + comment);
    if blanks == "" {
      assert s[0] == '#';
    } else {
      assert s[0] == blanks[0] && blanks[0] in blanks && s[1..] == blanks[1..] + ("#" + comment);
      BlanksThenHash(blanks[1..], comment);
    }
  }

  lemma {:induction false} NoHashAhead(v: string, tail: string)
    requires '#' !in v && v != "" && !IsBlank(v[|v| - 1])
    ensures !HashAfterBlanks(v + tail)
  {
    var s := v + tail;
    assert s[0] == v[0] && v[0] in v;
    if |v| > 1 {
      assert s[1..] == v[1..] + tail;
      forall c | c in v[1..] ensures c in v { }
      NoHashAhead(v[1..], tail);
    }
  }

  // ── Everything the reader records is well formed ──────────────────────────

  lemma {:induction false} BlockTextLines(value: string, rest: seq<string>)
    requires NoNewline(value) && forall i :: 0 <= i < |rest| ==> NoNewline(rest[i])
    ensures SplitLines(BlockText(value, rest)) == [value] + TrimAll(rest)
  {
    hide TrimCR, SplitLines, NoNewline;
    if rest == [] {
      SplitSingle(value);
      assert [value] + TrimAll(rest) == [value];
    } else {
      var n := |rest| - 1;
      assert forall i :: 0 <= i < n ==> rest[..n][i] == rest[i];
      BlockTextLines(value, rest[..n]);
      SplitSeam(BlockText(value, rest[..n]), TrimCR(rest[n]));
      TrimCRKeepsLines(rest[n]);
      SplitSingle(TrimCR(rest[n]));
      assert TrimAll(rest) == TrimAll(rest[..n]) + [TrimCR(rest[n])];
    }
  }

  lemma TrimCRKeepsLines(l: string)
    requires NoNewline(l)
    ensures NoNewline(TrimCR(l)) && TrimCR(TrimCR(l)) == TrimCR(l)
  {
    forall c | c in TrimCR(l) ensures c in l { }
  }

  /** Dropping trailing CRs from a line does not change its bracket count, wherever the scan stands. */
  lemma TrimCRKeepsDelta(l: string)
    ensures Scanner.Delta(TrimCR(l)) == Scanner.Delta(l)
    ensures Scanner.Depth(Scanner.Str, TrimCR(l)) == Scanner.Depth(Scanner.Str, l)
  {
    var t := TrimCR(l);
    var tail := l[|t|..];
    assert l == t + tail;
    forall c | c in tail ensures Scanner.Inert(c) {
      var i :| 0 <= i < |tail| && tail[i] == c;
      assert l[|t| + i] == c;
    }
    Scanner.InertTail(Scanner.Code, t, tail);
    Scanner.InertTail(Scanner.Str, t, tail);
  }

  lemma {:induction false} TrimAllKeepsLength(rest: seq<string>, open: int)
    ensures BlockLength(TrimAll(rest), open) == BlockLength(rest, open)
  {
    hide Scanner.Delta, TrimCR;
    if rest != [] {
      TrimCRKeepsDelta(rest[0]);
      assert TrimAll(rest)[1..] == TrimAll(rest[1..]);
      TrimAllKeepsLength(rest[1..], open + Scanner.Delta(rest[0]));
    }
  }

  lemma ReadLineIsRecordable(line: string)
    requires NoNewline(line) && ReadLine(line).Some?
    ensures var m := ReadLine(line).value;
            IsIdent(m.name) && Trimmed(m.raw) && StripComment(m.raw) == m.raw && NoNewline(m.raw)
  {
    hide StripComment, Trimmed, IsIdent, MatchAssignment;
    var l := TrimSpace(line);
    var m := MatchAssignment(l).value;
    TrimSpaceKeepsLines(line);
    MatchIsSound(l);
    MatchedValueIsSubstring(l, m.name, m.raw);
    StripKeepsTrimmed(m.raw);
    StripIsIdempotent(m.raw);
    forall c | c in StripComment(m.raw) ensures c in m.raw { }
  }

  lemma TrimSpaceKeepsLines(line: string)
    requires NoNewline(line)
    ensures NoNewline(TrimSpace(line))
  {
    var a := TrimLeft(line, IsSpace);
    forall c | c in TrimSpace(line) ensures c in line { assert c in a; }
  }

  lemma MatchedValueIsSubstring(l: string, name: string, raw: string)
    requires HasShape(l, name, raw) && NoNewline(l)
    ensures IsIdent(name) && Trimmed(raw) && NoNewline(raw)
  {
    hide IsIdent, Trimmed, AllBlank;
    var a, b, c, d :| AllBlank(a) && AllBlank(b) && AllBlank(c) && AllBlank(d)
                      && l == Spelled(a, name, b, c, raw, d);
    forall x | x in raw ensures x in l { }
  }

  lemma EntryIsRecorded(lines: seq<string>)
    requires lines != [] && forall i :: 0 <= i < |lines| ==> NoNewline(lines[i])
    requires ReadEntry(lines).Assign?
    ensures var e := ReadEntry(lines); IsIdent(e.name) && Recorded(e.value)
  {
    hide ReadLine, Scanner.Delta, IsIdent, Trimmed, StripComment, TrimCR;
    var m := ReadLine(lines[0]).value;
    ReadLineIsRecordable(lines[0]);
    var open := Scanner.Delta(m.raw);
    if open <= 0 {
      SplitSingle(m.raw);
    } else {
      var n := BlockLength(lines[1..], open).value;
      var cont := lines[1..][..n];
      assert lines[1..] == cont + lines[1..][n..];
      BlockLengthPrefix(cont, lines[1..][n..], open);
      TrimAllKeepsLength(cont, open);
      BlockTextLines(m.raw, cont);
      assert ([m.raw] + TrimAll(cont))[1..] == TrimAll(cont);
      forall i | 0 <= i < |cont| ensures TrimCR(TrimCR(cont[i])) == TrimCR(cont[i]) {
        TrimCRKeepsLines(cont[i]);
      }
    }
  }

  /** Whatever the reader records, from any text, is well formed. */
  lemma {:induction false} ParseIsWellFormed(lines: seq<string>, m: Assignments)
    requires WellFormed(m) && forall i :: 0 <= i < |lines| ==> NoNewline(lines[i])
    ensures WellFormed(Parse(lines, m))
    decreases |lines|
  {
    hide ReadEntry, IsIdent, Recorded;
    if lines != [] {
      match ReadEntry(lines)
      case Skip => ParseIsWellFormed(lines[1..], m);
      case Assign(name, value, used) =>
        EntryIsRecorded(lines);
        ParseIsWellFormed(lines[used..], m[name := value]);
    }
  }

  // ── One entry, written and read back ──────────────────────────────────────

  /** What a written value reads back as: trimming the line `name = value` also drops whitespace
      that the assignment pattern does not know as whitespace (VT, NEL, NBSP, ...). */
  function Reread(v: string): Option<string> {
    var ls := SplitLines(v);
    var first := TrimRight(ls[0], IsSpace);
    if first == "" then None else Some(JoinLines([first] + ls[1..]))
  }

  /** The first line of `v` does not end in such whitespace. */
  predicate Printable(v: string) {
    var first := SplitLines(v)[0];
    first != "" && !IsSpace(first[|first| - 1])
  }

  /** A value reads back unchanged exactly when it is printable. */
  lemma RereadIsIdentity(v: string)
    ensures Reread(v) == Some(v) <==> Printable(v)
  {
    var ls := SplitLines(v);
    var first := TrimRight(ls[0], IsSpace);
    JoinSplit(v);
    if Printable(v) {
      assert first == ls[0];
      assert [first] + ls[1..] == ls;
    } else if first != "" {
      assert first != ls[0];
      var rs := [first] + ls[1..];
      assert NoNewline(first) by { forall c | c in first ensures c in ls[0] { } }
      SplitJoin(rs);
      assert rs[0] != ls[0];
    }
  }

  lemma SpacesCoverBlanks(c: char)
    requires !IsSpace(c)
    ensures !IsBlank(c)
  {
  }

  lemma SpaceIsInert(c: char)
    requires IsSpace(c) && c != '\n'
    ensures Scanner.Inert(c)
  {
  }

  /** What a right trim takes off a line is inert for the bracket count. */
  lemma TrimmedTailIsInert(l: string)
    requires NoNewline(l)
    ensures forall c :: c in l[|TrimRight(l, IsSpace)|..] ==> Scanner.Inert(c)
  {
    hide IsSpace, Scanner.Inert;
    var t := TrimRight(l, IsSpace);
    forall c | c in l[|t|..] ensures Scanner.Inert(c) {
      var i :| 0 <= i < |l[|t|..]| && l[|t|..][i] == c;
      assert l[|t| + i] == c && c in l;
      SpaceIsInert(c);
    }
  }

  lemma TrimSpaceKeepsDelta(l: string)
    requires NoNewline(l)
    ensures Scanner.Delta(TrimRight(l, IsSpace)) == Scanner.Delta(l)
  {
    hide IsSpace, Scanner.Inert, Scanner.Depth, Scanner.Run;
    var t := TrimRight(l, IsSpace);
    TrimmedTailIsInert(l);
    assert l == t + l[|t|..];
    Scanner.InertTail(Scanner.Code, t, l[|t|..]);
  }

  /** The top-level scan on a written line. */
  lemma ReadWrittenLine(name: string, first: string)
    requires IsIdent(name) && Trimmed(first) && StripComment(first) == first
    ensures var t := TrimRight(first, IsSpace);
            ReadLine(name + " = " + first) == if t == "" then None else Some(Match(name, t))
  {
    hide TrimLeft, TrimRight, MatchAssignment, IsIdent, StripComment, Trimmed, IsSpace;
    var t := TrimRight(first, IsSpace);
    var l := name + " = " + first;
    NameLeads(name, " = " + first);
    assert l == name + (" = " + first);
    if t == "" {
      TrimToEquals(name, first);
      NothingAfterEquals(name);
      NameLeads(name, " =");
    } else {
      TrimRightPrefix(name + " = ", first, IsSpace);
      NameLeads(name, " = " + t);
      assert name + " = " + t == name + (" = " + t);
      WrittenLineMatches(name, first, t);
      StripPrefix(first, |t|);
    }
  }

  /** A line that begins with a name is not trimmed on the left and is not a comment. */
  lemma NameLeads(name: string, s: string)
    requires IsIdent(name)
    ensures TrimLeft(name + s, IsSpace) == name + s
    ensures name + s != "" && !HasPrefix(name + s, "#") && !HasPrefix(name + s, "//")
  {
    IdentIsPlain(name);
    assert (name + s)[0] == name[0];
  }

  lemma WrittenLineMatches(name: string, first: string, t: string)
    requires IsIdent(name) && Trimmed(first) && t == TrimRight(first, IsSpace) != ""
    ensures MatchAssignment(name + " = " + t) == Some(Match(name, t))
  {
    hide TrimLeft, MatchAssignment, IsIdent, IsBlank;
    assert t[0] == first[0];
    SpacesCoverBlanks(t[|t| - 1]);
    MatchIsComplete("", name, " ", " ", t, "") by { assert IsBlank(' ') by { SpaceIsBlank(); } }
    assert name + " = " + t == Spelled("", name, " ", " ", t, "");
  }

  lemma SpaceIsBlank()
    ensures IsBlank(' ')
  {
  }

  lemma IdentIsPlain(name: string)
    requires IsIdent(name)
    ensures name != "" && !IsSpace(name[0]) && name[0] != '#' && name[0] != '/' && NoNewline(name)
  {
  }

  lemma TrimToEquals(name: string, first: string)
    requires IsIdent(name) && TrimRight(first, IsSpace) == ""
    ensures TrimRight(name + " = " + first, IsSpace) == name + " ="
  {
    assert name + " = " + first == (name + " =") + (" " + first);
    forall c | c in " " + first ensures IsSpace(c) {
      if c in first {
        var i :| 0 <= i < |first| && first[i] == c;
        assert |TrimRight(first, IsSpace)| <= i;
      }
    }
    TrimRightAbsorbs(name + " =", " " + first, IsSpace);
  }

  lemma NothingAfterEquals(name: string)
    requires IsIdent(name)
    ensures MatchAssignment(name + " =").None?
  {
    IdentIsPlain(name);
    assert name + " =" == name + (" " + ("=" + ""));
    NameIsRead(name, " ", "");
    assert TrimLeft(name + " =", IsBlank) == name + " =" by {
      assert (name + " =")[0] == name[0];
      SpacesCoverBlanks(name[0]);
    }
    assert ("=" + "")[1..] == "";
  }

  lemma {:induction false} SplitPrefix(p: string, s: string)
    requires NoNewline(p)
    ensures SplitLines(p + s) == [p + SplitLines(s)[0]] + SplitLines(s)[1..]
  {
    if p == "" {
      assert p + s == s && p + SplitLines(s)[0] == SplitLines(s)[0];
    } else {
      assert (p + s)[0] == p[0] && (p + s)[1..] == p[1..] + s && p[0] in p;
      forall c | c in p[1..] ensures c in p { }
      SplitPrefix(p[1..], s);
      assert p + SplitLines(s)[0] == [p[0]] + (p[1..] + SplitLines(s)[0]);
    }
  }

  /** What an entry contributes when the snapshot is read. */
  function EntryMap(name: string, value: string): Assignments {
    if name in REDACTED_NAMES then map[name := REDACTED_VALUE]
    else if !Scanner.Balanced(value) then map[]
    else RereadMap(name, value)
  }

  function RereadMap(name: string, value: string): Assignments {
    match Reread(value)
    case None => map[]
    case Some(w) => map[name := w]
  }

  lemma BlockTextJoins(value: string, rest: seq<string>)
    requires forall i :: 0 <= i < |rest| ==> TrimCR(rest[i]) == rest[i]
    ensures BlockText(value, rest) == JoinLines([value] + rest)
  {
    hide TrimCR, BlockText, JoinLines;
    BlockTextIs(value, rest);
    assert TrimAll(rest) == rest;
  }

  function WrittenLines(name: string, v: string): seq<string> {
    [name + " = " + SplitLines(v)[0]] + SplitLines(v)[1..]
  }

  /** Reading a written value, wherever it stands in a file: it uses up exactly its own lines. */
  lemma ReadWrittenValue(name: string, v: string, rest: seq<string>, m: Assignments)
    requires IsIdent(name) && Recorded(v)
    ensures Parse(WrittenLines(name, v) + rest, m) == Parse(rest, m + RereadMap(name, v))
  {
    hide ReadEntry, Recorded, IsIdent, SplitLines, Reread, WrittenLines;
    var all := WrittenLines(name, v) + rest;
    var n := |SplitLines(v)|;
    WrittenEntry(name, v, rest);
    assert |WrittenLines(name, v)| == n by { WrittenLineCount(name, v); }
    assert all[n..] == rest;
    if Reread(v).Some? {
      assert m + map[name := Reread(v).value] == m[name := Reread(v).value];
    } else {
      assert m + map[] == m;
    }
  }

  lemma WrittenLineCount(name: string, v: string)
    ensures |WrittenLines(name, v)| == |SplitLines(v)|
  {
  }

  lemma WrittenEntry(name: string, v: string, rest: seq<string>)
    requires IsIdent(name) && Recorded(v)
    ensures WrittenLines(name, v) != []
    ensures ReadEntry(WrittenLines(name, v) + rest)
         == if Reread(v).None? then Skip else Assign(name, Reread(v).value, |SplitLines(v)|)
    ensures Reread(v).None? ==> |SplitLines(v)| == 1
  {
    hide ReadLine, Scanner.Delta, TrimCR, TrimRight, StripComment, Trimmed, IsIdent, SplitLines, BlockText;
    var ls := SplitLines(v);
    var all := WrittenLines(name, v) + rest;
    assert all[0] == name + " = " + ls[0] && all[1..] == ls[1..] + rest;
    ReadWrittenLine(name, ls[0]);
    TrimSpaceKeepsDelta(ls[0]);
    var first := TrimRight(ls[0], IsSpace);
    var open := Scanner.Delta(ls[0]);
    if first == "" {
      EmptyHasNoDepth();
    } else {
      BlockTextJoins(first, ls[1..]);
      if open > 0 {
        BlockLengthPrefix(ls[1..], rest, open);
        assert all[1..][..|ls| - 1] == ls[1..];
      } else {
        assert ls[1..] == [] && all[1..][..0] == [];
      }
    }
  }

  lemma EmptyHasNoDepth()
    ensures Scanner.Delta("") == 0
  {
  }

  // ── Text that is read a line at a time ────────────────────────────────────

  /** A line the reader makes nothing of. */
  lemma ReadIgnoredLine(line: string, rest: string, m: Assignments)
    requires NoNewline(line) && ReadLine(line).None?
    ensures Parse(SplitLines(line + "\n" + rest), m) == Parse(SplitLines(rest), m)
  {
    hide ReadLine;
    SplitSeam(line, rest);
    SplitSingle(line);
    var all := [line] + SplitLines(rest);
    assert all[0] == line && all[1..] == SplitLines(rest);
  }

  lemma CommentIsIgnored(line: string)
    requires line != "" && line[0] == '#'
    ensures ReadLine(line).None?
  {
    hide MatchAssignment, StripComment, TrimRight, IsSpace;
    assert !IsSpace('#') by { HashIsNotSpace(); }
    assert TrimLeft(line, IsSpace) == line;
    var l := TrimRight(line, IsSpace);
    assert l != "" && l[0] == '#';
    assert l[..1] == "#";
  }

  lemma HashIsNotSpace()
    ensures !IsSpace('#')
  {
  }

  lemma EmptyIsIgnored()
    ensures ReadLine("").None?
  {
  }

  lemma ReadValueText(name: string, value: string, rest: string, m: Assignments)
    requires IsIdent(name) && Recorded(value)
    ensures Parse(SplitLines(name + " = " + value + "\n" + rest), m)
         == Parse(SplitLines(rest), m + RereadMap(name, value))
  {
    hide IsIdent, Recorded, Parse, RereadMap;
    SplitSeam(name + " = " + value, rest);
    assert NoNewline(name + " = ") by { IdentIsPlain(name); }
    SplitPrefix(name + " = ", value);
    ReadWrittenValue(name, value, SplitLines(rest), m);
  }

  /** `value  #comment`, the form of a redacted entry. */
  function Commented(value: string, comment: string): string {
    value + ("  " + ("#" + comment))
  }

  lemma ReadCommentedText(name: string, value: string, comment: string, rest: string, m: Assignments)
    requires IsIdent(name) && Trimmed(value) && '#' !in value && Scanner.Delta(value) <= 0
    requires Printable(comment) && NoNewline(comment) && NoNewline(value)
    ensures Parse(SplitLines(name + " = " + Commented(value, comment) + "\n" + rest), m)
         == Parse(SplitLines(rest), m + map[name := value])
  {
    hide IsIdent, ReadLine, Trimmed, Printable, Scanner.Delta;
    var line := name + " = " + Commented(value, comment);
    assert NoNewline(line) by { IdentIsPlain(name); }
    ReadCommentedLine(name, value, comment);
    SplitSeam(line, rest);
    SplitSingle(line);
    var all := [line] + SplitLines(rest);
    assert all[0] == line && all[1..] == SplitLines(rest);
    assert m + map[name := value] == m[name := value];
  }

  lemma ReadCommentedLine(name: string, value: string, comment: string)
    requires IsIdent(name) && Trimmed(value) && '#' !in value
    requires Printable(comment) && NoNewline(comment)
    ensures ReadLine(name + " = " + Commented(value, comment)) == Some(Match(name, value))
  {
    hide IsIdent, MatchAssignment, TrimLeft, TrimRight, StripComment, IsSpace, Trimmed, Commented, Printable;
    var raw := Commented(value, comment);
    var l := name + " = " + raw;
    assert l == name + (" = " + raw);
    NameLeads(name, " = " + raw);
    CommentedIsTrimmed(value, comment);
    TrimRightPrefix(name + " = ", raw, IsSpace);
    assert MatchAssignment(l) == Some(Match(name, raw)) by {
      WrittenLineMatches(name, raw, raw);
    }
    CommentIsCut(value, comment);
  }

  lemma CommentedIsTrimmed(value: string, comment: string)
    requires Trimmed(value) && Printable(comment) && NoNewline(comment)
    ensures var raw := Commented(value, comment);
            raw != "" && TrimRight(raw, IsSpace) == raw && Trimmed(raw)
  {
    hide IsSpace, IsBlank;
    SplitSingle(comment);
    var raw := Commented(value, comment);
    assert raw[|raw| - 1] == comment[|comment| - 1];
    assert raw[0] == value[0];
    SpacesCoverBlanks(raw[|raw| - 1]);
  }

  lemma CommentIsCut(value: string, comment: string)
    requires Trimmed(value) && '#' !in value
    ensures StripComment(Commented(value, comment)) == value
  {
    hide StripComment;
    assert AllBlank("  ") by { assert IsBlank(' '); }
    StripCuts(value, "  ", comment);
  }

  lemma MarkIsPlain()
    ensures Trimmed(REDACTED_VALUE) && '#' !in REDACTED_VALUE && NoNewline(REDACTED_VALUE)
  {
  }

  lemma MarkHasNoDepth()
    ensures Scanner.Delta(REDACTED_VALUE) == 0
  {
    hide Scanner.Delta;
    QuotedHasNoDepth("<redacted>");
    assert REDACTED_VALUE == "\"" + "<redacted>" + "\"";
  }

  lemma NoteFitsOnLine()
    ensures NoNewline(REDACTED_COMMENT)
  {
  }

  lemma NoteIsPrintable()
    ensures Printable(REDACTED_COMMENT)
  {
    hide SplitLines;
    NoteFitsOnLine();
    SplitSingle(REDACTED_COMMENT);
  }

  /** Nothing inside a plain quoted string counts. */
  lemma QuotedHasNoDepth(s: string)
    requires '"' !in s && '\\' !in s
    ensures Scanner.Delta("\"" + s + "\"") == 0
  {
    Scanner.Compose(Scanner.Code, "\"" + s, "\"");
    Scanner.Compose(Scanner.Code, "\"", s);
    StringIsSilent(s);
  }

  lemma {:induction false} StringIsSilent(s: string)
    requires '"' !in s && '\\' !in s
    ensures Scanner.Run(Scanner.Str, s) == Scanner.Str && Scanner.Depth(Scanner.Str, s) == 0
  {
    if s != "" {
      assert s[0] in s;
      forall c | c in s[1..] ensures c in s { }
      StringIsSilent(s[1..]);
    }
  }

  /** A written entry, of any of the three kinds, reads back as `EntryMap` says. */
  lemma ReadEntryText(name: string, value: string, rest: string, m: Assignments)
    requires IsIdent(name) && Recorded(value)
    ensures Parse(SplitLines(EntryText(name, value) + rest), m)
         == Parse(SplitLines(rest), m + EntryMap(name, value))
  {
    hide IsIdent, Recorded, Parse, SplitLines, RereadMap, Trimmed, Printable, Scanner.Delta;
    if name in REDACTED_NAMES {
      MarkIsPlain();
      MarkHasNoDepth();
      NoteFitsOnLine();
      NoteIsPrintable();
      ReadCommentedText(name, REDACTED_VALUE, REDACTED_COMMENT, rest, m);
      assert EntryText(name, value) + rest
          == name + " = " + Commented(REDACTED_VALUE, REDACTED_COMMENT) + "\n" + rest;
    } else if !Scanner.Balanced(value) {
      SkipNoteIsIgnored(name, " = <skipped: unbalanced brackets>", rest, m);
      assert EntryText(name, value) + rest == ("# " + name + " = <skipped: unbalanced brackets>") + "\n" + rest;
      assert m + map[] == m;
    } else {
      ReadValueText(name, value, rest, m);
      assert EntryText(name, value) + rest == name + " = " + value + "\n" + rest;
    }
  }

  lemma SkipNoteIsIgnored(name: string, note: string, rest: string, m: Assignments)
    requires IsIdent(name) && NoNewline(note)
    ensures Parse(SplitLines("# " + name + note + "\n" + rest), m) == Parse(SplitLines(rest), m)
  {
    var line := "# " + name + note;
    IdentIsPlain(name);
    assert line[0] == '#';
    CommentIsIgnored(line);
    ReadIgnoredLine(line, rest, m);
  }

  /** What a run of entries contributes. */
  function EntriesMap(m: Assignments, names: seq<string>): Assignments
    requires forall n :: n in names ==> n in m
  {
    if names == [] then map[] else EntryMap(names[0], m[names[0]]) + EntriesMap(m, names[1..])
  }

  lemma {:induction false} ReadBodyText(m: Assignments, names: seq<string>, rest: string, acc: Assignments)
    requires WellFormed(m) && forall n :: n in names ==> n in m
    ensures Parse(SplitLines(BodyText(m, names) + rest), acc)
         == Parse(SplitLines(rest), acc + EntriesMap(m, names))
    decreases |names|
  {
    hide IsIdent, Recorded, Parse, SplitLines, EntryText, EntryMap;
    if names == [] {
      assert BodyText(m, names) + rest == rest && acc + map[] == acc;
    } else {
      var n := names[0];
      var e := EntryMap(n, m[n]);
      assert n in m;
      var tail := BodyText(m, names[1..]) + rest;
      assert BodyText(m, names) + rest == EntryText(n, m[n]) + tail;
      ReadEntryText(n, m[n], tail, acc);
      ReadBodyText(m, names[1..], rest, acc + e);
      assert (acc + e) + EntriesMap(m, names[1..]) == acc + EntriesMap(m, names);
    }
  }

  // ── A whole snapshot ──────────────────────────────────────────────────────

  /** What a written set of assignments reads back as, redaction marks included. */
  function ReadBack(m: Assignments): Assignments {
    map k | k in m && k in EntryMap(k, m[k]) :: EntryMap(k, m[k])[k]
  }

  lemma {:induction false} EntriesByKey(m: Assignments, names: seq<string>, k: string)
    requires forall n :: n in names ==> n in m
    ensures k in EntriesMap(m, names) <==> k in names && k in EntryMap(k, m[k])
    ensures k in EntriesMap(m, names) ==> EntriesMap(m, names)[k] == EntryMap(k, m[k])[k]
    decreases |names|
  {
    if names != [] {
      EntriesByKey(m, names[1..], k);
      assert k in names <==> k == names[0] || k in names[1..];
      EntryMapsItsName(names[0], m[names[0]]);
    }
  }

  lemma EntryMapsItsName(name: string, value: string)
    ensures EntryMap(name, value).Keys <= {name}
  {
  }

  lemma SortedEntriesAreReadBack(m: Assignments)
    ensures var names := Ordering.SortedKeys(m.Keys);
            (forall n :: n in names <==> n in m) && EntriesMap(m, names) == ReadBack(m)
  {
    hide EntryMap, Ordering.Sorted;
    var names := Ordering.SortedKeys(m.Keys);
    Ordering.SameMembers(names, m.Keys);
    forall k ensures k in EntriesMap(m, names) <==> k in ReadBack(m)
             ensures k in ReadBack(m) ==> EntriesMap(m, names)[k] == ReadBack(m)[k]
    {
      EntriesByKey(m, names, k);
    }
  }

  /** Readable sources whose labels fit on a line. */
  ghost predicate CleanSources(sources: seq<Source>) {
    Unreadable !in sources && forall i :: 0 <= i < |sources| ==> NoNewline(sources[i].title)
  }

  function SourceMap(src: Source): Assignments
    requires !src.Unreadable?
  {
    match src
    case Missing(_) => map[]
    case File(_, text) => ReadBack(ParseText(text))
  }

  lemma ReadSection(src: Source, rest: string, acc: Assignments)
    requires !src.Unreadable? && NoNewline(src.title)
    ensures Parse(SplitLines(SectionText(src) + rest), acc) == Parse(SplitLines(rest), acc + SourceMap(src))
  {
    hide Parse, SplitLines, SectionLine, BodyText, ReadBack, WellFormed, Ordering.Sorted;
    match src
    case Missing(title) =>
      ReadSectionLine(title + " (missing)", "\n" + rest, acc);
      assert SectionText(src) + rest == SectionLine(title + " (missing)") + ("\n" + rest);
      ReadBlank(rest, acc);
      assert acc + map[] == acc;
    case File(title, text) =>
      var m := ParseText(text);
      var names := Ordering.SortedKeys(m.Keys);
      Ordering.SameMembers(names, m.Keys);
      var after := "\n" + rest;
      ReadSectionLine(title, SortedBody(m) + after, acc);
      assert SectionText(src) + rest == SectionLine(title) + (SortedBody(m) + after);
      TextIsWellFormed(text);
      ReadBodyText(m, names, after, acc);
      SortedEntriesAreReadBack(m);
      ReadBlank(rest, acc + ReadBack(m));
  }

  lemma TextIsWellFormed(text: string)
    ensures WellFormed(ParseText(text))
  {
    ParseIsWellFormed(SplitLines(text), map[]);
  }

  lemma ReadSectionLine(title: string, rest: string, acc: Assignments)
    requires NoNewline(title)
    ensures Parse(SplitLines(SectionLine(title) + rest), acc) == Parse(SplitLines(rest), acc)
  {
    hide Parse, SplitLines, ReadLine;
    var line := "# === from " + title + " ===";
    assert line[0] == '#';
    CommentIsIgnored(line);
    ReadIgnoredLine(line, rest, acc);
    assert SectionLine(title) + rest == line + "\n" + rest;
  }

  lemma ReadBlank(rest: string, acc: Assignments)
    ensures Parse(SplitLines("\n" + rest), acc) == Parse(SplitLines(rest), acc)
  {
    hide Parse, SplitLines, ReadLine;
    EmptyIsIgnored();
    ReadIgnoredLine("", rest, acc);
    assert "" + "\n" + rest == "\n" + rest;
  }

  /** Later sources win. */
  function MergeSources(sources: seq<Source>): Assignments
    requires Unreadable !in sources
  {
    if sources == [] then map[] else SourceMap(sources[0]) + MergeSources(sources[1..])
  }

  lemma {:induction false} ReadSections(sources: seq<Source>, acc: Assignments)
    requires CleanSources(sources)
    ensures Parse(SplitLines(SectionsText(sources)), acc) == acc + MergeSources(sources)
    decreases |sources|
  {
    hide SectionText, SourceMap, Parse, SplitLines;
    if sources == [] {
      EmptyTextAddsNothing(acc);
      assert acc + map[] == acc;
    } else {
      var s := sources[0];
      ReadSection(s, SectionsText(sources[1..]), acc);
      ReadSections(sources[1..], acc + SourceMap(s));
      assert (acc + SourceMap(s)) + MergeSources(sources[1..]) == acc + MergeSources(sources);
    }
  }

  lemma EmptyIsSkipped()
    ensures ReadEntry([""]) == Skip
  {
    EmptyIsIgnored();
  }

  lemma EmptyTextAddsNothing(acc: Assignments)
    ensures Parse(SplitLines(""), acc) == acc
  {
    hide ReadEntry;
    EmptyIsSkipped();
    assert SplitLines("") == [""] && [""][1..] == [];
  }

  lemma HeaderNoteFitsOnLine()
    ensures NoNewline(HEADER_NOTE)
  {
    var a, b, c := "# Re-generated each apply.", " Do not edit by hand \U{2014}", " your changes will be overwritten.";
    assert NoNewline(a) && NoNewline(b) && NoNewline(c);
    hide NoNewline;
    ConcatFitsOnLine(a, b);
    ConcatFitsOnLine(a + b, c);
  }

  lemma ReadHeader(phase: string, stamp: string, version: string, rest: string)
    requires NoNewline(phase) && NoNewline(stamp) && NoNewline(version)
    ensures Parse(SplitLines(HeaderText(phase, stamp, version) + rest), map[]) == Parse(SplitLines(rest), map[])
  {
    hide Parse, SplitLines, ReadLine;
    var a := "# Generated by roksbnkctl " + version + " at " + stamp + " after terraform apply on phase=" + phase + ".";
    var b := HEADER_NOTE;
    assert HeaderText(phase, stamp, version) + rest == a + "\n" + (b + "\n" + ("\n" + rest));
    assert a[0] == '#' && b[0] == '#';
    CommentIsIgnored(a);
    CommentIsIgnored(b);
    ReadIgnoredLine(a, b + "\n" + ("\n" + rest), map[]);
    HeaderNoteFitsOnLine();
    ReadIgnoredLine(b, "\n" + rest, map[]);
    ReadBlank(rest, map[]);
  }

  /** Reading a snapshot gives the later-wins merge of what its sources read back as. */
  lemma SnapshotReadsBack(phase: string, stamp: string, version: string, sources: seq<Source>)
    requires NoNewline(phase) && NoNewline(stamp) && NoNewline(version)
    requires CleanSources(sources)
    ensures ParseText(SnapshotText(phase, stamp, version, sources)) == MergeSources(sources)
  {
    hide Parse, SplitLines, HeaderText, SectionsText, MergeSources;
    ReadHeader(phase, stamp, version, SectionsText(sources));
    ReadSections(sources, map[]);
    assert map[] + MergeSources(sources) == MergeSources(sources);
  }

  // ── The round trip ────────────────────────────────────────────────────────

  /** The part of a source the snapshot sets out to record. */
  function Recordable(m: Assignments): Assignments {
    map k | k in m && k !in REDACTED_NAMES && Scanner.Balanced(m[k]) :: m[k]
  }

  /** The later-wins merge of the recordable parts of the sources. */
  function Intended(sources: seq<Source>): Assignments
    requires Unreadable !in sources
  {
    if sources == [] then map[]
    else (if sources[0].File? then Recordable(ParseText(sources[0].text)) else map[]) + Intended(sources[1..])
  }

  /** What a set of assignments reads back as, redacted names dropped. */
  function Survivors(m: Assignments): Assignments {
    ReadBack(m) - REDACTED_NAMES
  }

  lemma SurvivorsOfRecordable(m: Assignments, k: string)
    ensures k in Survivors(m) <==> k in Recordable(m) && Reread(m[k]).Some?
    ensures k in Survivors(m) ==> Survivors(m)[k] == Reread(m[k]).value
  {
    hide Reread;
  }

  lemma RereadIsPrintable(v: string)
    requires Reread(v).Some?
    ensures Printable(Reread(v).value)
  {
    var ls := SplitLines(v);
    var first := TrimRight(ls[0], IsSpace);
    var rs := [first] + ls[1..];
    assert NoNewline(first) by { forall c | c in first ensures c in ls[0] { } }
    SplitJoin(rs);
  }

  /** Everything that comes back is printable. */
  lemma {:induction false} ReplayIsPrintable(sources: seq<Source>, k: string)
    requires Unreadable !in sources && k in MergeSources(sources) - REDACTED_NAMES
    ensures Printable(MergeSources(sources)[k])
    decreases |sources|
  {
    hide Reread, Printable, ParseText;
    if k in MergeSources(sources[1..]) {
      ReplayIsPrintable(sources[1..], k);
    } else {
      var m := ParseText(sources[0].text);
      SurvivorsOfRecordable(m, k);
      assert k in Survivors(m);
      RereadIsPrintable(m[k]);
    }
  }

  /** Name by name: a winner that is printable comes back, and a name that was not recordable does not. */
  lemma {:induction false} ReplayOfName(sources: seq<Source>, k: string)
    requires Unreadable !in sources
    ensures var back := MergeSources(sources) - REDACTED_NAMES;
            k in back ==> k in Intended(sources)
    ensures var back := MergeSources(sources) - REDACTED_NAMES;
            k in Intended(sources) && Printable(Intended(sources)[k])
            ==> k in back && back[k] == Intended(sources)[k]
    decreases |sources|
  {
    hide Reread, Printable, ParseText;
    if sources != [] {
      ReplayOfName(sources[1..], k);
      if sources[0].File? {
        var m := ParseText(sources[0].text);
        SurvivorsOfRecordable(m, k);
        if k in m { RereadIsIdentity(m[k]); }
        assert k in ReadBack(m) && k !in REDACTED_NAMES ==> k in Survivors(m);
      }
    }
  }

  /** THE ROUND TRIP. Replaying a snapshot gives exactly the later-wins merge of its sources,
      restricted to names that are not redacted and values whose brackets balance, multi-line
      blocks included, if and only if no winning value's first line ends in whitespace that
      trimming removes and the assignment pattern does not. */
  lemma RoundTrip(phase: string, stamp: string, version: string, sources: seq<Source>)
    requires NoNewline(phase) && NoNewline(stamp) && NoNewline(version) && CleanSources(sources)
    ensures Replay(SnapshotText(phase, stamp, version, sources)) == Intended(sources)
       <==> forall k :: k in Intended(sources) ==> Printable(Intended(sources)[k])
  {
    hide Printable, SnapshotText, ParseText, Intended, MergeSources;
    SnapshotReadsBack(phase, stamp, version, sources);
    var back := MergeSources(sources) - REDACTED_NAMES;
    assert Replay(SnapshotText(phase, stamp, version, sources)) == back;
    forall k ensures k in back ==> Printable(back[k]) {
      if k in back { ReplayIsPrintable(sources, k); }
    }
    if forall k :: k in Intended(sources) ==> Printable(Intended(sources)[k]) {
      forall k ensures k in back <==> k in Intended(sources)
               ensures k in back ==> back[k] == Intended(sources)[k]
      {
        ReplayOfName(sources, k);
      }
      assert back == Intended(sources);
    }
  }

  lemma ReadTabbed(text: string)
    requires text == "k = " + Commented("a\U{0B}", " note") + "\n"
    ensures ParseText(text) == map["k" := "a\U{0B}"]
  {
    hide Parse, Commented, SplitLines;
    var v := "a\U{0B}";
    TabbedValue();
    assert IsIdent("k");
    SplitSingle(" note");
    ReadCommentedText("k", v, " note", "", map[]);
    assert "k" + " = " + Commented(v, " note") + "\n" + "" == text;
    EmptyTextAddsNothing(map["k" := v]);
    assert map[] + map["k" := v] == map["k" := v];
  }

  lemma TabbedValue()
    ensures var v := "a\U{0B}";
            && Trimmed(v) && '#' !in v && NoNewline(v) && Scanner.Delta(v) == 0
            && TrimRight(v, IsSpace) == "a" && "k" !in REDACTED_NAMES
  {
    var v := "a\U{0B}";
    assert v[..1] == "a" && v[1..] == "\U{0B}" && v[1..][1..] == "";
    assert TrimRight("a", IsSpace) == "a";
    assert |"k"| == 1;
  }

  lemma TabbedReadsBack(m: Assignments)
    requires m == map["k" := "a\U{0B}"]
    ensures Recordable(m) == m && ReadBack(m) == map["k" := "a"]
  {
    hide SplitLines;
    var v := "a\U{0B}";
    TabbedValue();
    SplitSingle(v);
    assert ["a"] + SplitLines(v)[1..] == ["a"];
    assert Reread(v) == Some("a");
    assert EntryMap("k", v) == map["k" := "a"];
  }

  /** The condition can fail: a vertical tab between a value and its comment is recorded with the value,
      and lost when the snapshot is read. */
  lemma UnprintableValueIsReached(phase: string, stamp: string, version: string, title: string)
    requires NoNewline(phase) && NoNewline(stamp) && NoNewline(version) && NoNewline(title)
    ensures var source := File(title, "k = " + Commented("a\U{0B}", " note") + "\n");
            && Intended([source]) == map["k" := "a\U{0B}"]
            && Replay(SnapshotText(phase, stamp, version, [source])) == map["k" := "a"]
  {
    hide ParseText, ReadBack, Recordable, SnapshotText, Commented, Reread;
    var text := "k = " + Commented("a\U{0B}", " note") + "\n";
    ReadTabbed(text);
    var m := map["k" := "a\U{0B}"];
    TabbedReadsBack(m);
    RenderedReadsBack(phase, stamp, version, title, text);
    assert [File(title, text)][1..] == [];
    assert m + map[] == m;
  }

  /** The last value each name has in any source, recordable or not: what terraform used. */
  function LastValues(sources: seq<Source>): Assignments
    requires Unreadable !in sources
  {
    if sources == [] then map[]
    else (if sources[0].File? then ParseText(sources[0].text) else map[]) + LastValues(sources[1..])
  }

  /** The recorded merge is the recordable part of what terraform used exactly when no name's
      last value is unbalanced while an earlier one is recordable: then the earlier, stale one is kept. */
  lemma RecordsWhatTerraformUsed(sources: seq<Source>)
    requires Unreadable !in sources
    ensures Intended(sources) == Recordable(LastValues(sources))
       <==> forall k :: k in Intended(sources) ==> k in LastValues(sources) && Scanner.Balanced(LastValues(sources)[k])
  {
    hide Scanner.Balanced, ParseText;
    forall k ensures k in Intended(sources) ==> k in LastValues(sources) && k !in REDACTED_NAMES
             ensures k in Recordable(LastValues(sources))
                     ==> k in Intended(sources) && Intended(sources)[k] == LastValues(sources)[k]
    {
      LastValueOfName(sources, k);
    }
    if forall k :: k in Intended(sources) ==> k in LastValues(sources) && Scanner.Balanced(LastValues(sources)[k]) {
      assert Intended(sources) == Recordable(LastValues(sources));
    }
  }

  lemma {:induction false} LastValueOfName(sources: seq<Source>, k: string)
    requires Unreadable !in sources
    ensures k in Intended(sources) ==> k in LastValues(sources) && k !in REDACTED_NAMES
    ensures k in Recordable(LastValues(sources))
            ==> k in Intended(sources) && Intended(sources)[k] == LastValues(sources)[k]
    decreases |sources|
  {
    hide Scanner.Balanced, ParseText;
    if sources != [] {
      LastValueOfName(sources[1..], k);
    }
  }

  /** A stale value is really kept: `k = 1` in one source, `k = ]` in a later one. */
  lemma StaleValueIsKept()
    ensures var sources := [File("a", "k = 1"), File("b", "k = ]")];
            Intended(sources) == map["k" := "1"] && LastValues(sources) == map["k" := "]"]
  {
    hide ParseText, Scanner.Balanced;
    var a, b := File("a", "k = 1"), File("b", "k = ]");
    ReadSingle("1");
    ReadSingle("]");
    DigitsAndClosers();
    assert "k = 1" == "k = " + "1" && "k = ]" == "k = " + "]";
    assert [a, b][1..] == [b] && [b][1..] == [];
    var one, closer := map["k" := "1"], map["k" := "]"];
    assert Recordable(one) == one && Recordable(closer) == map[];
    assert one + (map[] + map[]) == one && one + (closer + map[]) == closer;
  }

  lemma DigitsAndClosers()
    ensures Scanner.Balanced("1") && !Scanner.Balanced("]") && "k" !in REDACTED_NAMES
  {
    assert |"k"| == 1;
  }

  lemma ReadSingle(v: string)
    requires v in {"1", "]"}
    ensures ParseText("k = " + v) == map["k" := v]
  {
    hide Parse;
    SplitSingle(v);
    assert SplitLines(v)[1..] == [];
    assert IsIdent("k");
    StripWithoutHash(v);
    assert Recorded(v);
    ReadWrittenValue("k", v, [], map[]);
    SplitPrefix("k = ", v);
    assert "k" + " = " + v == "k = " + v;
    assert WrittenLines("k", v) + [] == SplitLines("k = " + v);
    assert TrimRight(v, IsSpace) == v;
    assert Reread(v) == Some(v);
    NothingLeft(map["k" := v]);
    assert map[] + map["k" := v] == map["k" := v];
  }

  // ── Rendering a snapshot again ────────────────────────────────────────────

  lemma ReadBackIsIdempotent(m: Assignments)
    ensures ReadBack(ReadBack(m)) == ReadBack(m)
  {
    hide Reread, Scanner.Balanced;
    forall k | k in m && k in EntryMap(k, m[k])
      ensures EntryMap(k, EntryMap(k, m[k])[k]) == EntryMap(k, m[k])
    {
      if k !in REDACTED_NAMES {
        RereadIsIdempotent(m[k]);
      }
    }
  }

  lemma RereadIsIdempotent(v: string)
    requires Reread(v).Some?
    ensures Reread(Reread(v).value) == Reread(v)
    ensures Scanner.Balanced(Reread(v).value) <==> Scanner.Balanced(v)
  {
    hide Reread, Printable;
    RereadIsPrintable(v);
    RereadIsIdentity(Reread(v).value);
    RereadKeepsBalance(v);
  }

  lemma RereadKeepsBalance(v: string)
    requires Reread(v).Some?
    ensures Scanner.Balanced(Reread(v).value) <==> Scanner.Balanced(v)
  {
    hide TrimRight, Scanner.Depth, Scanner.Run, Scanner.Inert, IsSpace;
    var ls := SplitLines(v);
    var first := TrimRight(ls[0], IsSpace);
    var tail := ls[0][|first|..];
    assert ls[0] == first + tail;
    JoinSplit(v);
    TrimmedTailIsInert(ls[0]);
    Scanner.InertTail(Scanner.Code, first, tail);
    if |ls| > 1 {
      var rest := JoinLines(ls[1..]);
      assert ([first] + ls[1..])[1..] == ls[1..];
      assert Reread(v).value == first + "\n" + rest && v == ls[0] + "\n" + rest;
      SameModeAtNewline(first, ls[0], rest);
    }
  }

  lemma SameModeAtNewline(a: string, b: string, rest: string)
    requires Scanner.Delta(a) == Scanner.Delta(b)
    requires Scanner.Step(Scanner.Run(Scanner.Code, a), '\n') == Scanner.Step(Scanner.Run(Scanner.Code, b), '\n')
    ensures Scanner.Delta(a + "\n" + rest) == Scanner.Delta(b + "\n" + rest)
  {
    Scanner.DeltaAtNewline(a, rest);
    Scanner.DeltaAtNewline(b, rest);
  }

  /** The snapshot of one file. */
  ghost function Rendered(phase: string, stamp: string, version: string, title: string, text: string): string {
    SnapshotText(phase, stamp, version, [File(title, text)])
  }

  lemma RenderedReadsBack(phase: string, stamp: string, version: string, title: string, text: string)
    requires NoNewline(phase) && NoNewline(stamp) && NoNewline(version) && NoNewline(title)
    ensures ParseText(Rendered(phase, stamp, version, title, text)) == ReadBack(ParseText(text))
  {
    hide ParseText, ReadBack, SnapshotText;
    var sources := [File(title, text)];
    SnapshotReadsBack(phase, stamp, version, sources);
    assert sources[1..] == [];
    assert ReadBack(ParseText(text)) + map[] == ReadBack(ParseText(text));
  }

  lemma RenderedDependsOnParse(phase: string, stamp: string, version: string, title: string, a: string, b: string)
    requires ParseText(a) == ParseText(b)
    ensures Rendered(phase, stamp, version, title, a) == Rendered(phase, stamp, version, title, b)
  {
    hide ParseText, HeaderText, SectionLine, SortedBody;
    assert [File(title, a)][1..] == [File(title, b)][1..] == [];
  }

  /** Everything a snapshot holds reads back as it is. */
  lemma {:induction false} MergeReadsBack(sources: seq<Source>)
    requires Unreadable !in sources
    ensures ReadBack(MergeSources(sources)) == MergeSources(sources)
    decreases |sources|
  {
    hide ParseText, EntryMap, ReadBack;
    if sources == [] {
      assert ReadBack(map[]) == map[] by { NothingReadsBack(); }
    } else {
      MergeReadsBack(sources[1..]);
      var m, rest := SourceMap(sources[0]), MergeSources(sources[1..]);
      assert ReadBack(m) == m by {
        if sources[0].File? { ReadBackIsIdempotent(ParseText(sources[0].text)); } else { NothingReadsBack(); }
      }
      MergedReadsBack(m, rest);
    }
  }

  lemma NothingReadsBack()
    ensures ReadBack(map[]) == map[]
  {
  }

  lemma MergedReadsBack(m: Assignments, rest: Assignments)
    requires ReadBack(m) == m && ReadBack(rest) == rest
    ensures ReadBack(m + rest) == m + rest
  {
    hide EntryMap;
    forall k | k in m + rest ensures k in ReadBack(m + rest) && ReadBack(m + rest)[k] == (m + rest)[k] {
      if k in rest { assert k in ReadBack(rest); } else { assert k in ReadBack(m); }
    }
    assert (m + rest).Keys == ReadBack(m + rest).Keys;
  }

  /** RENDERING IS A FIXED POINT. The snapshot of any snapshot, whatever sources that was written from, is
      its own snapshot, to the character, and replays to the same assignments as the first one. */
  lemma RerenderIsFixedPoint(phase: string, stamp: string, version: string, sources: seq<Source>,
                             phase': string, stamp': string, version': string, title: string)
    requires NoNewline(phase) && NoNewline(stamp) && NoNewline(version) && CleanSources(sources)
    requires NoNewline(phase') && NoNewline(stamp') && NoNewline(version') && NoNewline(title)
    ensures var snapshot := SnapshotText(phase, stamp, version, sources);
            var again := Rendered(phase', stamp', version', title, snapshot);
            Rendered(phase', stamp', version', title, again) == again && Replay(again) == Replay(snapshot)
  {
    hide ParseText, ReadBack, Rendered, SnapshotText, MergeSources;
    var snapshot := SnapshotText(phase, stamp, version, sources);
    var again := Rendered(phase', stamp', version', title, snapshot);
    SnapshotReadsBack(phase, stamp, version, sources);
    MergeReadsBack(sources);
    RenderedReadsBack(phase', stamp', version', title, snapshot);
    RenderedDependsOnParse(phase', stamp', version', title, again, snapshot);
  }

  // ── Redaction ─────────────────────────────────────────────────────────────

  /** The same names, and the same values for all but the redacted ones. */
  predicate SameButSecrets(m: Assignments, n: Assignments) {
    m.Keys == n.Keys && forall k :: k in m && k !in REDACTED_NAMES ==> m[k] == n[k]
  }

  /** The same files, but for the values of redacted names. */
  predicate SourcesSameButSecrets(s: Source, t: Source) {
    match s
    case File(title, text) => t.File? && t.title == title && SameButSecrets(ParseText(text), ParseText(t.text))
    case _ => t == s
  }

  lemma {:induction false} BodyHidesSecrets(m: Assignments, n: Assignments, names: seq<string>)
    requires SameButSecrets(m, n) && forall k :: k in names ==> k in m
    ensures BodyText(m, names) == BodyText(n, names)
    decreases |names|
  {
    hide Scanner.Balanced;
    if names != [] {
      assert names[0] in names;
      BodyHidesSecrets(m, n, names[1..]);
    }
  }

  lemma SectionHidesSecrets(s: Source, t: Source)
    requires SourcesSameButSecrets(s, t) && !s.Unreadable?
    ensures SectionText(s) == SectionText(t)
  {
    hide ParseText, SectionLine, BodyText;
    if s.File? {
      var m, n := ParseText(s.text), ParseText(t.text);
      var names := Ordering.SortedKeys(m.Keys);
      Ordering.SameMembers(names, m.Keys);
      BodyHidesSecrets(m, n, names);
    }
  }

  /** REDACTION HIDES: the snapshot is a function of everything but the redacted values. Runs that differ
      only in their secrets write the same file, to the character. */
  lemma {:induction false} SecretsDoNotShow(phase: string, stamp: string, version: string,
                                            sources: seq<Source>, others: seq<Source>)
    requires Unreadable !in sources && Unreadable !in others && |others| == |sources|
    requires forall i :: 0 <= i < |sources| ==> SourcesSameButSecrets(sources[i], others[i])
    ensures SnapshotText(phase, stamp, version, sources) == SnapshotText(phase, stamp, version, others)
    decreases |sources|
  {
    hide SectionText, HeaderText, SourcesSameButSecrets;
    SectionsHideSecrets(sources, others);
  }

  lemma {:induction false} SectionsHideSecrets(sources: seq<Source>, others: seq<Source>)
    requires Unreadable !in sources && Unreadable !in others && |others| == |sources|
    requires forall i :: 0 <= i < |sources| ==> SourcesSameButSecrets(sources[i], others[i])
    ensures SectionsText(sources) == SectionsText(others)
    decreases |sources|
  {
    hide SectionText, SourcesSameButSecrets;
    if sources != [] {
      assert sources[0] in sources && others[0] in others;
      SectionHidesSecrets(sources[0], others[0]);
      SectionsHideSecrets(sources[1..], others[1..]);
    }
  }
}
