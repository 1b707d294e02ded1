/** The tolerant tfvars reader (`internal/config/applied_tfvars.go`, readTFVarsAssignments
    and consumeBlock). */
module TFVars {
  import opened Text
  import Scanner = BracketScanner
  import opened Wrappers

  type Assignments = map<string, string>

  // ── One line ──────────────────────────────────────────────────────────────

  predicate IsIdentStart(c: char) {
    'A' <= c <= 'Z' || 'a' <= c <= 'z' || c == '_'
  }

  predicate IsIdentChar(c: char) {
    IsIdentStart(c) || '0' <= c <= '9'
  }

  predicate IsIdent(s: string) {
    s != "" && IsIdentStart(s[0]) && forall i :: 0 <= i < |s| ==> IsIdentChar(s[i])
  }

  function IdentPrefix(s: string): (n: nat)
    ensures n <= |s|
    ensures forall i :: 0 <= i < n ==> IsIdentChar(s[i])
    ensures n < |s| ==> !IsIdentChar(s[n])
  {
    if s != "" && IsIdentChar(s[0]) then 1 + IdentPrefix(s[1..]) else 0
  }

  /** One `name = value` line: the name and the value with its trailing comment still on. */
  datatype Match = Match(name: string, raw: string)

  /** `^\s*([A-Za-z_][A-Za-z0-9_]*)\s*=\s*(.+?)\s*$` on a line that does not end in a blank. */
  function MatchAssignment(line: string): Option<Match> {
    MatchName(TrimLeft(line, IsBlank))
  }

  function MatchName(s: string): Option<Match> {
    var n := IdentPrefix(s);
    if n == 0 || !IsIdentStart(s[0]) then None
    else MatchValue(s[..n], TrimLeft(s[n..], IsBlank))
  }

  function MatchValue(name: string, s: string): Option<Match> {
    if s == "" || s[0] != '=' then None
    else
      var raw := TrimRight(TrimLeft(s[1..], IsBlank), IsBlank);
      if raw == "" then None else Some(Match(name, raw))
  }

  ghost predicate AllBlank(s: string) {
    forall c :: c in s ==> IsBlank(c)
  }

  /** Begins and ends with a character that is not a blank. */
  predicate Trimmed(s: string) {
    s != "" && !IsBlank(s[0]) && !IsBlank(s[|s| - 1])
  }

  /** The regular expression, read as the shape of the line it accepts. */
  ghost predicate HasShape(line: string, name: string, raw: string) {
    exists a, b, c, d ::
      && AllBlank(a) && AllBlank(b) && AllBlank(c) && AllBlank(d)
      && line == Spelled(a, name, b, c, raw, d)
      && IsIdent(name) && Trimmed(raw)
  }

  function Spelled(a: string, name: string, b: string, c: string, raw: string, d: string): string {
    a + (name + (b + ("=" + (c + (raw + d)))))
  }

  lemma {:induction false} IdentPrefixStops(name: string, s: string)
    requires forall i :: 0 <= i < |name| ==> IsIdentChar(name[i])
    requires s != "" ==> !IsIdentChar(s[0])
    ensures IdentPrefix(name + s) == |name|
    decreases |name|
  {
    if name == "" {
      assert name + s == s;
    } else {
      assert (name + s)[1..] == name[1..] + s;
      IdentPrefixStops(name[1..], s);
    }
  }

  /** Every line of the shape is matched, with that very name and value. */
  lemma MatchIsComplete(a: string, name: string, b: string, c: string, raw: string, d: string)
    requires AllBlank(a) && AllBlank(b) && AllBlank(c) && AllBlank(d)
    requires IsIdent(name) && Trimmed(raw)
    ensures MatchAssignment(Spelled(a, name, b, c, raw, d)) == Some(Match(name, raw))
  {
    hide TrimLeft, MatchName, MatchValue, IsBlank, IsIdent;
    var value := c + (raw + d);
    var tail := b + ("=" + value);
    assert name + tail != "" && !IsBlank((name + tail)[0]) by { NameIsNotBlank(name); }
    assert TrimLeft(a + (name + tail), IsBlank) == name + tail by {
      TrimLeftSkips(a, name + tail, IsBlank);
    }
    assert MatchName(name + tail) == MatchValue(name, "=" + value) by {
      NameIsRead(name, b, value);
    }
    assert MatchValue(name, "=" + value) == Some(Match(name, raw)) by {
      ValueIsRead(name, c, raw, d);
    }
  }

  lemma NameIsNotBlank(name: string)
    requires IsIdent(name)
    ensures name != "" && !IsBlank(name[0])
  {
  }

  lemma NameIsRead(name: string, b: string, value: string)
    requires IsIdent(name) && AllBlank(b)
    ensures MatchName(name + (b + ("=" + value))) == MatchValue(name, "=" + value)
  {
    hide TrimLeft, IdentPrefix, MatchValue;
    var tail := b + ("=" + value);
    assert tail[0] in b || tail[0] == '=';
    IdentPrefixStops(name, tail);
    assert (name + tail)[|name|..] == tail && (name + tail)[..|name|] == name;
    TrimLeftSkips(b, "=" + value, IsBlank);
  }

  lemma ValueIsRead(name: string, c: string, raw: string, d: string)
    requires AllBlank(c) && AllBlank(d) && Trimmed(raw)
    ensures MatchValue(name, "=" + (c + (raw + d))) == Some(Match(name, raw))
  {
    var value := c + (raw + d);
    assert ("=" + value)[1..] == value;
    TrimLeftSkips(c, raw + d, IsBlank);
    TrimRightAbsorbs(raw, d, IsBlank);
  }

  lemma HeadIsBlank(s: string)
    ensures AllBlank(s[..|s| - |TrimLeft(s, IsBlank)|])
  {
    TrimLeftDrops(s, IsBlank);
  }

  lemma TailIsBlank(s: string)
    ensures AllBlank(s[|TrimRight(s, IsBlank)|..])
  {
    TrimRightDrops(s, IsBlank);
  }

  lemma NameIsIdent(s: string)
    requires IdentPrefix(s) > 0 && IsIdentStart(s[0])
    ensures IsIdent(s[..IdentPrefix(s)])
  {
  }

  lemma ValueIsSpelled(name: string, t: string) returns (c: string, raw: string, d: string)
    requires MatchValue(name, t).Some?
    ensures MatchValue(name, t) == Some(Match(name, raw)) && Trimmed(raw)
    ensures AllBlank(c) && AllBlank(d) && t == "=" + (c + (raw + d))
  {
    hide AllBlank, TrimLeft, TrimRight, IsBlank;
    raw := MatchValue(name, t).value.raw;
    var v := TrimLeft(t[1..], IsBlank);
    HeadIsBlank(t[1..]);
    TailIsBlank(v);
    c, d := t[1..][..|t[1..]| - |v|], v[|raw|..];
    assert v == raw + d;
    assert t[1..] == c + v;
    assert t == "=" + t[1..];
  }

  lemma NameIsSpelled(s: string) returns (name: string, b: string, t: string)
    requires MatchName(s).Some?
    ensures MatchName(s) == MatchValue(name, t) && IsIdent(name)
    ensures AllBlank(b) && s == name + (b + t)
  {
    hide AllBlank, MatchValue, IsIdent, IsBlank, TrimLeft, IdentPrefix;
    var n := IdentPrefix(s);
    NameIsIdent(s);
    var rest := s[n..];
    HeadIsBlank(rest);
    name, t := s[..n], TrimLeft(rest, IsBlank);
    b := rest[..|rest| - |t|];
    assert rest == b + t;
    assert s == name + rest;
  }

  /** And nothing else is: a match has the shape. */
  lemma MatchIsSound(line: string)
    requires MatchAssignment(line).Some?
    ensures var m := MatchAssignment(line).value; HasShape(line, m.name, m.raw)
  {
    hide AllBlank, MatchName, MatchValue, IsIdent, IsBlank, TrimLeft, Trimmed;
    var s := TrimLeft(line, IsBlank);
    HeadIsBlank(line);
    var a := line[..|line| - |s|];
    var name, b, t := NameIsSpelled(s);
    var c, raw, d := ValueIsSpelled(name, t);
    assert line == a + s;
    assert line == Spelled(a, name, b, c, raw, d);
  }

  /** Whether `\s+#` matches at the head of `s`, given one blank was already read. */
  predicate HashAfterBlanks(s: string) {
    s != "" && (s[0] == '#' || (IsBlank(s[0]) && HashAfterBlanks(s[1..])))
  }

  /** Drops `\s+#.*$`: everything from the first run of blanks that leads to a `#`. */
  function StripComment(v: string): (r: string)
    ensures |r| <= |v| && r == v[..|r|]
  {
    if v == "" then ""
    else if IsBlank(v[0]) && HashAfterBlanks(v[1..]) then ""
    else [v[0]] + StripComment(v[1..])
  }

  /** What the top-level scan makes of one line: nothing, or a name and its first-line value. */
  function ReadLine(line: string): Option<Match> {
    var l := TrimSpace(line);
    if l == "" || HasPrefix(l, "#") || HasPrefix(l, "//") then None
    else
      match MatchAssignment(l)
      case None => None
      case Some(m) => Some(Match(m.name, StripComment(m.raw)))
  }

  // ── Multi-line blocks ─────────────────────────────────────────────────────

  /** Running depth after the first `n` continuation lines of a block opened at depth `open`. */
  function DepthAfter(rest: seq<string>, open: int, n: nat): int
    requires n <= |rest|
  {
    if n == 0 then open else DepthAfter(rest, open, n - 1) + Scanner.Delta(rest[n - 1])
  }

  /** The block closes with continuation line `n`: its depth is positive until there and zero there. */
  ghost predicate ClosesAt(rest: seq<string>, open: int, n: nat) {
    && 0 < n <= |rest|
    && DepthAfter(rest, open, n) == 0
    && forall k :: 0 < k < n ==> DepthAfter(rest, open, k) > 0
  }

  ghost predicate Closes(rest: seq<string>, open: int) {
    exists n: nat :: ClosesAt(rest, open, n)
  }

  /** Number of continuation lines of the block, or None when it never closes or over-closes. */
  function BlockLength(rest: seq<string>, open: int): (r: Option<nat>)
    ensures r.Some? ==> 0 < r.value <= |rest|
  {
    if rest == [] then None
    else
      var d := open + Scanner.Delta(rest[0]);
      if d == 0 then Some(1)
      else if d < 0 then None
      else match BlockLength(rest[1..], d)
           case None => None
           case Some(n) => Some(n + 1)
  }

  lemma {:induction false} DepthAfterTail(rest: seq<string>, open: int, n: nat)
    requires 0 < n <= |rest|
    ensures DepthAfter(rest, open, n) == DepthAfter(rest[1..], open + Scanner.Delta(rest[0]), n - 1)
  {
    if n > 1 {
      DepthAfterTail(rest, open, n - 1);
    }
  }

  /** The recursive reader finds exactly the first line at which the running depth reaches zero. */
  lemma {:induction false} BlockLengthIsFirstZero(rest: seq<string>, open: int)
    requires open > 0
    ensures BlockLength(rest, open).Some? <==> Closes(rest, open)
    ensures BlockLength(rest, open).Some? ==> ClosesAt(rest, open, BlockLength(rest, open).value)
    ensures forall n: nat :: ClosesAt(rest, open, n) ==> BlockLength(rest, open) == Some(n)
  {
    if rest != [] {
      var d := open + Scanner.Delta(rest[0]);
      assert DepthAfter(rest, open, 1) == d by { DepthAfterTail(rest, open, 1); }
      if d > 0 {
        BlockLengthIsFirstZero(rest[1..], d);
        forall n: nat | 0 < n < |rest|
          ensures ClosesAt(rest[1..], d, n) <==> ClosesAt(rest, open, n + 1)
        {
          ClosesShift(rest, open, n);
        }
        forall n: nat | ClosesAt(rest, open, n)
          ensures BlockLength(rest, open) == Some(n)
        {
          assert n > 1;
          assert ClosesAt(rest[1..], d, n - 1);
        }
      } else if d == 0 {
        assert ClosesAt(rest, open, 1);
      }
    }
  }

  lemma ClosesShift(rest: seq<string>, open: int, n: nat)
    requires 0 < n < |rest| && open + Scanner.Delta(rest[0]) > 0
    ensures ClosesAt(rest[1..], open + Scanner.Delta(rest[0]), n) <==> ClosesAt(rest, open, n + 1)
  {
    var d := open + Scanner.Delta(rest[0]);
    forall k: nat | 0 < k <= n + 1
      ensures DepthAfter(rest, open, k) == DepthAfter(rest[1..], d, k - 1)
    {
      DepthAfterTail(rest, open, k);
    }
    if ClosesAt(rest, open, n + 1) {
      forall k | 0 < k < n ensures DepthAfter(rest[1..], d, k) > 0 {
        assert DepthAfter(rest, open, k + 1) > 0;
      }
    }
  }

  /** The text of a block: its first-line value, then each continuation line without trailing CRs. */
  function BlockText(value: string, rest: seq<string>): string {
    if rest == [] then value
    else BlockText(value, rest[..|rest| - 1]) + "\n" + TrimCR(rest[|rest| - 1])
  }

  function TrimAll(ls: seq<string>): (r: seq<string>)
    ensures |r| == |ls| && forall i :: 0 <= i < |ls| ==> r[i] == TrimCR(ls[i])
  {
    seq(|ls|, i requires 0 <= i < |ls| => TrimCR(ls[i]))
  }

  /** The lines of the block, joined. */
  lemma {:induction false} BlockTextIs(value: string, rest: seq<string>)
    ensures BlockText(value, rest) == JoinLines([value] + TrimAll(rest))
  {
    hide TrimCR;
    if rest == [] {
      assert [value] + TrimAll(rest) == [value];
    } else {
      var n := |rest| - 1;
      BlockTextIs(value, rest[..n]);
      JoinSnoc([value] + TrimAll(rest[..n]), TrimCR(rest[n]));
      assert [value] + TrimAll(rest) == ([value] + TrimAll(rest[..n])) + [TrimCR(rest[n])];
    }
  }

  /** consumeBlock, by index into the file's lines. */
  method ConsumeBlock(lines: seq<string>, start: nat, value: string, trailer: int)
    returns (block: string, end: nat, closed: bool)
    requires start < |lines| && trailer > 0
    ensures closed <==> Closes(lines[start + 1..], trailer)
    ensures closed ==> start < end < |lines| && ClosesAt(lines[start + 1..], trailer, end - start)
    ensures closed ==> block == BlockText(value, lines[start + 1..end + 1])
    ensures !closed ==> end == start && block == ""
    ensures BlockLength(lines[start + 1..], trailer) == if closed then Some(end - start) else None
  {
    hide Scanner.Delta, TrimCR, BlockLength;
    ghost var rest := lines[start + 1..];
    BlockLengthIsFirstZero(rest, trailer);
    block := value;
    var depth := trailer;
    var j := start + 1;
    while j < |lines|
      invariant start < j <= |lines|
      invariant depth == DepthAfter(rest, trailer, j - start - 1)
      invariant forall k :: 0 < k < j - start ==> DepthAfter(rest, trailer, k) > 0
      invariant block == BlockText(value, lines[start + 1..j])
    {
      assert lines[start + 1..j + 1][..j - start - 1] == lines[start + 1..j];
      block := block + "\n";
      block := block + TrimCR(lines[j]);
      assert rest[j - start - 1] == lines[j];
      var d := Scanner.BlockDepthDelta(lines[j]);
      depth := depth + d;
      if depth == 0 {
        assert ClosesAt(rest, trailer, j - start);
        return block, j, true;
      }
      if depth < 0 {
        forall n: nat ensures !ClosesAt(rest, trailer, n) {
          assert DepthAfter(rest, trailer, j - start) < 0;
        }
        return "", start, false;
      }
      j := j + 1;
    }
    return "", start, false;
  }

  // ── The whole file ────────────────────────────────────────────────────────

  /** What the top-level scan does at a line: an entry, if any, and how many lines it uses up. */
  datatype Entry = Skip | Assign(name: string, value: string, used: nat)

  function ReadEntry(lines: seq<string>): (e: Entry)
    requires lines != []
    ensures e.Assign? ==> 0 < e.used <= |lines|
  {
    match ReadLine(lines[0])
    case None => Skip
    case Some(m) => EntryOf(m, lines[1..])
  }

  /** The entry that a first line `m` makes together with the lines that follow it. */
  function EntryOf(m: Match, rest: seq<string>): (e: Entry)
    ensures e.Assign? ==> 0 < e.used <= 1 + |rest|
  {
    var d := Scanner.Delta(m.raw);
    if d <= 0 then Assign(m.name, m.raw, 1)
    else
      match BlockLength(rest, d)
      case None => Skip
      case Some(n) => Assign(m.name, BlockText(m.raw, rest[..n]), n + 1)
  }

  /** The assignments of a file, later lines winning, starting from `m`. */
  function Parse(lines: seq<string>, m: Assignments): Assignments
    decreases |lines|
  {
    if lines == [] then m
    else
      match ReadEntry(lines)
      case Skip => Parse(lines[1..], m)
      case Assign(name, value, used) => Parse(lines[used..], m[name := value])
  }

  function ParseText(text: string): Assignments {
    Parse(SplitLines(text), map[])
  }

  /** One turn of the loop, by index. */
  lemma ParseTurn(lines: seq<string>, i: nat, out: Assignments)
    requires i < |lines|
    ensures Parse(lines[i..], out) == match ReadEntry(lines[i..])
                                      case Skip => Parse(lines[i + 1..], out)
                                      case Assign(n, v, used) => Parse(lines[i + used..], out[n := v])
  {
    hide ReadEntry;
    assert lines[i..][1..] == lines[i + 1..];
    match ReadEntry(lines[i..])
    case Skip =>
    case Assign(n, v, used) => assert lines[i..][used..] == lines[i + used..];
  }

  /** readTFVarsAssignments on the contents of a file: the loop index jumps over consumed blocks. */
  method ReadAssignments(text: string) returns (out: Assignments)
    ensures out == ParseText(text)
  {
    hide Parse, ReadLine, Scanner.Delta, BlockText, BlockLength, Closes, ClosesAt, SplitLines;
    out := map[];
    var lines := SplitLines(text);
    assert lines[0..] == lines;
    var i := 0;
    while i < |lines|
      invariant 0 <= i <= |lines|
      invariant Parse(lines[i..], out) == Parse(lines, map[])
      decreases |lines| - i
    {
      ParseTurn(lines, i, out);
      assert lines[i..][0] == lines[i] && lines[i..][1..] == lines[i + 1..];
      var m := ReadLine(lines[i]);
      if m.None? {
        i := i + 1;
        continue;
      }
      var value := m.value.raw;
      var trailer := Scanner.BlockDepthDelta(value);
      ghost var from := i;
      if trailer > 0 {
        var block, end, closed := ConsumeBlock(lines, i, value, trailer);
        i := end;
        if !closed {
          i := i + 1;
          continue;
        }
        assert lines[from + 1..][..end - from] == lines[from + 1..end + 1];
        value := block;
      }
      out := out[m.value.name := value];
      i := i + 1;
    }
    assert lines[i..] == [];
    NothingLeft(out);
  }

  lemma NothingLeft(out: Assignments)
    ensures Parse([], out) == out
  {
  }

  // ── Isolation of damaged blocks ───────────────────────────────────────────

  /** `lines` splits at a point the top-level scan passes through. */
  ghost predicate ScanReaches(lines: seq<string>, i: nat)
    decreases |lines|
  {
    if i == 0 then true
    else if lines == [] then false
    else
      var used := match ReadEntry(lines) case Skip => 1 case Assign(_, _, n) => n;
      used <= i && ScanReaches(lines[used..], i - used)
  }

  /** An opener that never closes, or closes too hard, contributes nothing, and the lines after it
      contribute exactly what they would on their own, on top of what came before. */
  lemma {:induction false} DamagedBlockIsIsolated(lines: seq<string>, i: nat, m: Assignments)
    requires i < |lines| && ScanReaches(lines, i)
    requires ReadLine(lines[i]).Some?
    requires var d := Scanner.Delta(ReadLine(lines[i]).value.raw);
             d > 0 && !Closes(lines[i + 1..], d)
    ensures Parse(lines, m) == Parse(lines[..i], m) + Parse(lines[i + 1..], map[])
    decreases |lines|
  {
    hide Scanner.Delta, ReadLine, ScanReaches, Closes, BlockText, BlockLength;
    ScanSplits(lines, i, m);
    var d := Scanner.Delta(ReadLine(lines[i]).value.raw);
    assert lines[i..][1..] == lines[i + 1..];
    BlockLengthIsFirstZero(lines[i + 1..], d);
    ParseIsOverlay(lines[i + 1..], Parse(lines[..i], m));
  }

  /** Starting from `m` only overlays the file's own assignments on `m`. */
  lemma {:induction false} ParseIsOverlay(lines: seq<string>, m: Assignments)
    ensures Parse(lines, m) == m + Parse(lines, map[])
    decreases |lines|
  {
    hide ReadEntry;
    if lines != [] {
      match ReadEntry(lines)
      case Skip => ParseIsOverlay(lines[1..], m);
      case Assign(name, value, used) =>
        ParseIsOverlay(lines[used..], m[name := value]);
        ParseIsOverlay(lines[used..], map[name := value]);
        assert map[][name := value] == map[name := value];
    }
  }

  /** The scan of a file is the scan of its head followed by the scan of its tail,
      wherever the top-level scan passes. */
  lemma {:induction false} ScanSplits(lines: seq<string>, i: nat, m: Assignments)
    requires i <= |lines| && ScanReaches(lines, i)
    ensures Parse(lines, m) == Parse(lines[i..], Parse(lines[..i], m))
    decreases |lines|
  {
    hide ReadEntry;
    if i == 0 {
      assert lines[0..] == lines;
    } else {
      var head := lines[..i];
      match ReadEntry(lines)
      case Skip =>
        ScanSplits(lines[1..], i - 1, m);
        assert lines[1..][i - 1..] == lines[i..] && lines[1..][..i - 1] == head[1..];
        SkipInHead(lines, i);
      case Assign(name, value, used) =>
        ScanSplits(lines[used..], i - used, m[name := value]);
        assert lines[used..][i - used..] == lines[i..] && lines[used..][..i - used] == head[used..];
        EntryInHead(lines, i);
    }
  }

  /** An entry that fits in a prefix is read the same from the prefix. */
  lemma EntryInHead(lines: seq<string>, i: nat)
    requires 0 < i <= |lines|
    requires ReadEntry(lines).Assign? && ReadEntry(lines).used <= i
    ensures ReadEntry(lines[..i]) == ReadEntry(lines)
  {
    hide ReadLine, Scanner.Delta, BlockLength, BlockText;
    var r := ReadLine(lines[0]).value;
    var d := Scanner.Delta(r.raw);
    if d > 0 {
      var n := ReadEntry(lines).used - 1;
      var short, tail := lines[1..i], lines[i..];
      assert lines[1..] == short + tail && lines[..i][1..] == short;
      BlockLengthPrefix(short, tail, d);
      assert lines[..i][1..][..n] == lines[1..][..n];
    }
  }

  /** A line that is skipped in the file is skipped in any prefix: a block that does not close
      with more lines does not close with fewer. */
  lemma SkipInHead(lines: seq<string>, i: nat)
    requires 0 < i <= |lines| && ReadEntry(lines).Skip?
    ensures ReadEntry(lines[..i]).Skip?
  {
    hide ReadLine, Scanner.Delta, BlockLength, BlockText;
    if ReadLine(lines[0]).Some? {
      var d := Scanner.Delta(ReadLine(lines[0]).value.raw);
      var short, tail := lines[1..i], lines[i..];
      assert lines[1..] == short + tail && lines[..i][1..] == short;
      BlockLengthPrefix(short, tail, d);
    }
  }

  /** More lines after a closed block do not matter. */
  lemma {:induction false} BlockLengthPrefix(rest: seq<string>, more: seq<string>, open: int)
    ensures BlockLength(rest, open).Some? ==> BlockLength(rest + more, open) == BlockLength(rest, open)
    ensures BlockLength(rest + more, open).Some? && BlockLength(rest + more, open).value <= |rest|
            ==> BlockLength(rest, open) == BlockLength(rest + more, open)
    decreases |rest|
  {
    if rest != [] {
      assert (rest + more)[0] == rest[0] && (rest + more)[1..] == rest[1..] + more;
      BlockLengthPrefix(rest[1..], more, open + Scanner.Delta(rest[0]));
    }
  }
}
