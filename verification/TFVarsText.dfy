/** What the text of a tfvars file says: each line by its shape, each entry by its lines. The reader of
    module TFVars is proved to record exactly that. */
module TFVarsText {
  import opened Text
  import opened TFVars
  import Scanner = BracketScanner
  import opened Wrappers

  // ── Where a comment begins ────────────────────────────────────────────────

  /** Nothing but blanks from position `n` to position `m`, where a `#` stands. */
  ghost predicate LeadsToHash(v: string, n: nat, m: nat) {
    m < |v| && v[m] == '#' && forall j :: n <= j < m ==> IsBlank(v[j])
  }

  /** A comment begins at position `n`, with at least one blank. */
  ghost predicate CommentAt(v: string, n: nat) {
    exists m: nat :: n < m && LeadsToHash(v, n, m)
  }

  lemma LeadsOn(v: string, n: nat, m: nat)
    requires v != ""
    ensures LeadsToHash(v, n + 1, m + 1) <==> LeadsToHash(v[1..], n, m)
  {
    if LeadsToHash(v, n + 1, m + 1) {
      forall j | n <= j < m ensures IsBlank(v[1..][j]) { assert v[1..][j] == v[j + 1]; }
    }
    if LeadsToHash(v[1..], n, m) {
      forall j | n + 1 <= j < m + 1 ensures IsBlank(v[j]) { assert v[1..][j - 1] == v[j]; }
    }
  }

  lemma {:induction false} HashAfterBlanksIff(s: string)
    ensures HashAfterBlanks(s) <==> exists k: nat :: LeadsToHash(s, 0, k)
  {
    if s != "" {
      HashAfterBlanksIff(s[1..]);
      HashAfterBlanksStep(s);
    }
  }

  lemma HashAfterBlanksStep(s: string)
    requires s != ""
    ensures (exists k: nat :: LeadsToHash(s, 0, k)) <==>
            s[0] == '#' || (IsBlank(s[0]) && exists k: nat :: LeadsToHash(s[1..], 0, k))
  {
    if k: nat :| LeadsToHash(s, 0, k) {
      if k > 0 {
        LeadsOn(s, 0, k - 1);
        assert LeadsToHash(s[1..], 0, k - 1);
      }
    }
    if s[0] == '#' {
      assert LeadsToHash(s, 0, 0);
    } else if IsBlank(s[0]) {
      if k: nat :| LeadsToHash(s[1..], 0, k) {
        LeadsOn(s, 0, k);
        assert LeadsToHash(s, 0, k + 1);
      }
    }
  }

  lemma CommentAtHead(v: string)
    requires v != ""
    ensures CommentAt(v, 0) <==> IsBlank(v[0]) && HashAfterBlanks(v[1..])
  {
    HashAfterBlanksIff(v[1..]);
    if m: nat :| 0 < m && LeadsToHash(v, 0, m) {
      LeadsOn(v, 0, m - 1);
    }
    if k: nat :| IsBlank(v[0]) && LeadsToHash(v[1..], 0, k) {
      LeadsOn(v, 0, k);
      assert LeadsToHash(v, 0, k + 1);
    }
  }

  lemma CommentAtShifts(v: string, n: nat)
    requires v != ""
    ensures CommentAt(v, n + 1) <==> CommentAt(v[1..], n)
  {
    var next := n + 1;
    if m: nat :| next < m && LeadsToHash(v, next, m) {
      LeadsOn(v, n, m - 1);
    }
    if m: nat :| n < m && LeadsToHash(v[1..], n, m) {
      LeadsOn(v, n, m);
      assert LeadsToHash(v, n + 1, m + 1);
    }
  }

  /** A value is cut at its leftmost comment, blanks included, and nowhere else. */
  lemma {:induction false} CutAtLeftmostComment(v: string)
    ensures var n := |StripComment(v)|;
            && StripComment(v) == v[..n]
            && (n < |v| ==> CommentAt(v, n))
            && forall k: nat :: k < n ==> !CommentAt(v, k)
  {
    hide CommentAt, IsBlank;
    if v != "" {
      CommentAtHead(v);
      if !CommentAt(v, 0) {
        CutAtLeftmostComment(v[1..]);
        var n := |StripComment(v)|;
        forall k: nat | 0 < k <= n ensures CommentAt(v, k) <==> CommentAt(v[1..], k - 1) {
          CommentAtShifts(v, k - 1);
        }
      }
    }
  }

  // ── One line ──────────────────────────────────────────────────────────────

  /** A value with no comment of its own: a `#` may stand in it, but not after a blank. */
  ghost predicate IsValue(v: string) {
    Trimmed(v) && forall i :: 0 < i < |v| && v[i] == '#' ==> !IsBlank(v[i - 1])
  }

  /** A comment: blanks, and from a `#` on whatever is left of the line. */
  ghost predicate IsComment(tail: string) {
    exists gap, note :: gap != "" && AllBlank(gap) && tail == gap + ("#" + note)
  }

  /** What may follow a value on its line: a comment, or whitespace that the value itself does not end in. */
  ghost predicate MayFollow(v: string, tail: string) {
    IsComment(tail) || (AllSpace(tail) && v != "" && !IsSpace(v[|v| - 1]))
  }

  /** Letters, digits and underscores, and no digit first. */
  ghost predicate IsName(s: string) {
    && s != "" && !('0' <= s[0] <= '9')
    && forall c :: c in s ==> 'A' <= c <= 'Z' || 'a' <= c <= 'z' || '0' <= c <= '9' || c == '_'
  }

  lemma NamesAreIdents(s: string)
    ensures IsName(s) <==> IsIdent(s)
  {
    if IsIdent(s) {
      forall c | c in s ensures IsIdentChar(c) { var i :| 0 <= i < |s| && s[i] == c; }
    }
    assert forall i :: 0 <= i < |s| ==> s[i] in s;
  }

  /** The line reads `name = value`, with whatever whitespace around it and whatever comment after it. */
  ghost predicate Says(line: string, name: string, value: string) {
    && IsName(name) && IsValue(value)
    && exists a, b, c, tail :: AllSpace(a) && AllBlank(b) && AllBlank(c) && MayFollow(value, tail)
                               && line == Spelled(a, name, b, c, value, tail)
  }

  lemma ValueHasNoComment(v: string, k: nat)
    requires IsValue(v)
    ensures !CommentAt(v, k)
  {
    forall m: nat | k < m ensures !LeadsToHash(v, k, m) {
      if m < |v| && v[m] == '#' { assert !IsBlank(v[m - 1]); }
    }
  }

  lemma ValueIsKept(v: string)
    requires IsValue(v)
    ensures StripComment(v) == v
  {
    hide StripComment, IsValue;
    CutAtLeftmostComment(v);
    ValueHasNoComment(v, |StripComment(v)|);
  }

  /** A comment that follows a value is cut off, and nothing of the value with it. */
  lemma CommentIsCut(v: string, gap: string, note: string)
    requires IsValue(v) && gap != "" && AllBlank(gap)
    ensures StripComment(v + (gap + ("#" + note))) == v
  {
    hide StripComment, IsBlank;
    var s := v + (gap + ("#" + note));
    CutAtLeftmostComment(s);
    var end := |v| + |gap|;
    assert LeadsToHash(s, |v|, end) by {
      forall j | |v| <= j < end ensures IsBlank(s[j]) { assert s[j] in gap; }
    }
    assert CommentAt(s, |v|);
    forall k: nat | k < |v| ensures !CommentAt(s, k) {
      NoCommentInValue(v, s, k);
    }
    assert s[..|v|] == v;
  }

  lemma NoCommentInValue(v: string, s: string, k: nat)
    requires IsValue(v) && v <= s && k < |v|
    ensures !CommentAt(s, k)
  {
    hide IsBlank;
    ValueHasNoComment(v, k);
    forall m: nat | k < m ensures !LeadsToHash(s, k, m) {
      if m < |v| {
        assert LeadsToHash(v, k, m) <==> LeadsToHash(s, k, m);
      } else {
        assert !IsBlank(s[|v| - 1]) && k <= |v| - 1 < m;
      }
    }
  }

  /** What is left of a raw value is a value, and what is cut off is a comment. */
  lemma StrippedIsValue(v: string)
    requires Trimmed(v)
    ensures IsValue(StripComment(v))
    ensures StripComment(v) == v || IsComment(v[|StripComment(v)|..])
  {
    hide StripComment, IsBlank;
    CutAtLeftmostComment(v);
    var n := |StripComment(v)|;
    if n < |v| {
      var m: nat :| n < m && LeadsToHash(v, n, m);
      CutLeavesTrimmed(v, n, m);
      CutIsComment(v, n, m);
    }
    forall i | 0 < i < n && v[i] == '#' ensures !IsBlank(v[i - 1]) {
      assert !CommentAt(v, i - 1);
      assert LeadsToHash(v, i - 1, i) <==> IsBlank(v[i - 1]);
    }
  }

  lemma CutIsComment(v: string, n: nat, m: nat)
    requires n < m && LeadsToHash(v, n, m)
    ensures IsComment(v[n..])
  {
    hide IsBlank;
    assert v[n..] == v[n..m] + ("#" + v[m + 1..]);
    assert AllBlank(v[n..m]);
  }

  lemma CutLeavesTrimmed(v: string, n: nat, m: nat)
    requires Trimmed(v) && n < m && LeadsToHash(v, n, m) && forall k: nat :: k < n ==> !CommentAt(v, k)
    ensures Trimmed(v[..n])
  {
    hide IsBlank;
    assert n > 0;
    assert !CommentAt(v, n - 1);
    assert LeadsToHash(v, n - 1, m) <==> IsBlank(v[n - 1]);
  }

  // ── What is read from a line ──────────────────────────────────────────────

  /** The line without the whitespace around it still says the same, with nothing before the name. */
  lemma TrimmedLine(a: string, name: string, b: string, c: string, value: string, tail: string) returns (raw: string)
    requires IsIdent(name) && IsValue(value) && AllSpace(a) && AllBlank(b) && AllBlank(c) && MayFollow(value, tail)
    ensures TrimSpace(Spelled(a, name, b, c, value, tail)) == Spelled("", name, b, c, raw, "")
    ensures Trimmed(raw) && StripComment(raw) == value
  {
    hide StripComment, TrimSpace, IsSpace, IsBlank, IsIdent, Spelled, AllBlank, AllSpace;
    if AllSpace(tail) && !IsSpace(value[|value| - 1]) {
      raw := value;
      TrimmedPlain(a, name, b, c, value, tail);
      ValueIsKept(value);
    } else {
      var gap, note :| gap != "" && AllBlank(gap) && tail == gap + ("#" + note);
      var kept := TrimRight(note, IsSpace);
      raw := value + (gap + ("#" + kept));
      TrimmedNote(a, name, b, c, value, gap, note);
      CommentIsCut(value, gap, kept);
      NoteEndsTrimmed(value, gap, note);
    }
  }

  lemma TrimmedPlain(a: string, name: string, b: string, c: string, value: string, tail: string)
    requires IsIdent(name) && AllSpace(a) && AllSpace(tail) && value != "" && !IsSpace(value[|value| - 1])
    ensures TrimSpace(Spelled(a, name, b, c, value, tail)) == Spelled("", name, b, c, value, "")
  {
    hide TrimSpace, IsSpace, IsIdent, Spelled, AllSpace, Head;
    NameIsNotSpace(name);
    var head := Head(name, b, c, value);
    HeadEnds(name, b, c, value);
    TrimBetween(a, head, tail);
    SpelledByHead(a, name, b, c, value, "", tail);
    SpelledByHead("", name, b, c, value, "", "");
    assert head + "" == head && "" + head == head && "" + tail == tail && value + "" == value && "" + "" == "";
  }

  lemma TrimmedNote(a: string, name: string, b: string, c: string, value: string, gap: string, note: string)
    requires IsIdent(name) && AllSpace(a) && value != ""
    ensures TrimSpace(Spelled(a, name, b, c, value, gap + ("#" + note))) ==
            Spelled("", name, b, c, value + (gap + ("#" + TrimRight(note, IsSpace))), "")
  {
    hide TrimSpace, TrimRight, IsSpace, IsIdent, Spelled, AllSpace, Head;
    NameIsNotSpace(name);
    var head, cut, kept := Head(name, b, c, value), gap + "#", TrimRight(note, IsSpace);
    HeadEnds(name, b, c, value);
    TrimBeforeNote(a, head + cut, note);
    assert cut + note == gap + ("#" + note) && cut + kept == gap + ("#" + kept);
    SpelledByHead(a, name, b, c, value, cut, note);
    SpelledByHead("", name, b, c, value, cut + kept, "");
    assert (head + cut) + kept == "" + ((head + (cut + kept)) + "");
  }

  function Head(name: string, b: string, c: string, value: string): string {
    name + (b + ("=" + (c + value)))
  }

  lemma HeadEnds(name: string, b: string, c: string, value: string)
    requires name != "" && value != ""
    ensures var h := Head(name, b, c, value); h != "" && h[0] == name[0] && h[|h| - 1] == value[|value| - 1]
  {
  }

  /** A spelled line, its tail in two parts, is its head between what comes before and what comes after. */
  lemma SpelledByHead(a: string, name: string, b: string, c: string, value: string, more: string, d: string)
    ensures Spelled(a, name, b, c, value, more + d) == a + ((Head(name, b, c, value) + more) + d)
    ensures Spelled(a, name, b, c, value + more, d) == a + ((Head(name, b, c, value) + more) + d)
  {
    assert (value + more) + d == value + (more + d);
    var w := c + (value + (more + d));
    assert ((c + value) + more) + d == w;
    assert (("=" + (c + value)) + more) + d == "=" + w;
    assert ((b + ("=" + (c + value))) + more) + d == b + ("=" + w);
    assert (Head(name, b, c, value) + more) + d == name + (b + ("=" + w));
  }

  lemma NameIsNotSpace(name: string)
    requires IsIdent(name)
    ensures name != "" && !IsSpace(name[0]) && name[0] != '#' && name[0] != '/'
  {
  }

  lemma NoteEndsTrimmed(value: string, gap: string, note: string)
    requires IsValue(value)
    ensures Trimmed(value + (gap + ("#" + TrimRight(note, IsSpace))))
  {
    var kept := TrimRight(note, IsSpace);
    if kept != "" { SpaceCoversBlank(kept[|kept| - 1]); }
  }

  lemma SpaceCoversBlank(c: char)
    ensures IsBlank(c) ==> IsSpace(c)
  {
  }

  /** Whatever a line says is read from it: a `#` in the value stays, a comment goes. */
  lemma SaidIsRead(line: string, name: string, value: string)
    requires Says(line, name, value)
    ensures ReadLine(line) == Some(Match(name, value))
  {
    hide StripComment, TrimSpace, IsSpace, IsBlank, IsIdent, IsName, IsValue, MatchAssignment, Trimmed;
    NamesAreIdents(name);
    var a, b, c, tail :| AllSpace(a) && AllBlank(b) && AllBlank(c) && MayFollow(value, tail)
                         && line == Spelled(a, name, b, c, value, tail);
    var raw := TrimmedLine(a, name, b, c, value, tail);
    MatchIsComplete("", name, b, c, raw, "");
    NameIsNotSpace(name);
    var l := TrimSpace(line);
    assert l[0] == name[0];
    assert !HasPrefix(l, "#") && !HasPrefix(l, "//") by { assert "#"[0] == '#' && "//"[0] == '/'; }
  }

  /** And nothing else is: a line from which something is read says it. */
  lemma ReadIsSaid(line: string)
    requires ReadLine(line).Some?
    ensures var m := ReadLine(line).value; Says(line, m.name, m.raw)
  {
    hide StripComment, TrimSpace, MatchAssignment, IsIdent, AllBlank, AllSpace, Says, Spelled, ReadLine, HasShape;
    ReadLineMatches(line);
    var name, raw := MatchAssignment(TrimSpace(line)).value.name, MatchAssignment(TrimSpace(line)).value.raw;
    MatchIsSound(TrimSpace(line));
    var a, b, c, d := ShapeParts(TrimSpace(line), name, raw);
    var lead, trail := TrimmedEnds(line);
    EndOfLine(line, a, name, b, c, raw, d);
    Respelled(lead, trail, a, name, b, c, raw);
  }

  lemma ReadLineMatches(line: string)
    requires ReadLine(line).Some?
    ensures var m := MatchAssignment(TrimSpace(line));
            m.Some? && ReadLine(line).value == Match(m.value.name, StripComment(m.value.raw))
  {
  }

  lemma ShapeParts(l: string, name: string, raw: string) returns (a: string, b: string, c: string, d: string)
    requires HasShape(l, name, raw)
    ensures AllBlank(a) && AllBlank(b) && AllBlank(c) && AllBlank(d) && IsIdent(name) && Trimmed(raw)
    ensures l == Spelled(a, name, b, c, raw, d)
  {
    hide AllBlank, Spelled, IsIdent;
    a, b, c, d :| AllBlank(a) && AllBlank(b) && AllBlank(c) && AllBlank(d) && l == Spelled(a, name, b, c, raw, d)
                  && IsIdent(name) && Trimmed(raw);
  }

  lemma Respelled(lead: string, trail: string, a: string, name: string, b: string, c: string, raw: string)
    requires AllSpace(lead) && AllSpace(trail) && AllBlank(a) && AllBlank(b) && AllBlank(c)
    requires IsIdent(name) && Trimmed(raw) && !IsSpace(raw[|raw| - 1])
    ensures Says(lead + (Spelled(a, name, b, c, raw, "") + trail), name, StripComment(raw))
  {
    hide StripComment, IsSpace, IsBlank, IsIdent, IsName, IsValue, IsComment, AllBlank, AllSpace, Spelled;
    NamesAreIdents(name);
    StrippedIsValue(raw);
    var value := StripComment(raw);
    var rest := raw[|value|..];
    assert raw == value + rest;
    assert MayFollow(value, rest + trail) by {
      if value == raw { assert rest + trail == trail; } else { CommentGoesOn(rest, trail); }
    }
    assert AllSpace(lead + a) by { SpacesJoin(lead, a); }
    SpelledEnds(lead, a, name, b, c, value, rest, trail);
  }

  lemma SpelledEnds(lead: string, a: string, name: string, b: string, c: string, value: string, rest: string, trail: string)
    ensures lead + (Spelled(a, name, b, c, value + rest, "") + trail) == Spelled(lead + a, name, b, c, value, rest + trail)
  {
    var v, w := c + ((value + rest) + ""), c + (value + (rest + trail));
    assert v + trail == w;
    assert (b + ("=" + v)) + trail == b + ("=" + w);
    assert (name + (b + ("=" + v))) + trail == name + (b + ("=" + w));
    assert Spelled(a, name, b, c, value + rest, "") + trail == a + (name + (b + ("=" + w)));
  }

  lemma TrimmedEnds(line: string) returns (lead: string, trail: string)
    ensures AllSpace(lead) && AllSpace(trail) && line == lead + (TrimSpace(line) + trail)
  {
    var s := TrimLeft(line, IsSpace);
    lead, trail := line[..|line| - |s|], s[|TrimRight(s, IsSpace)|..];
    assert AllSpace(lead) by { TrimLeftDrops(line, IsSpace); }
    assert AllSpace(trail) by { TrimRightDrops(s, IsSpace); }
    hide *;
    Halves(line, |line| - |s|);
    Halves(s, |TrimRight(s, IsSpace)|);
    TrimSpaceIs(line);
  }

  lemma TrimSpaceIs(s: string)
    ensures TrimSpace(s) == TrimRight(TrimLeft(s, IsSpace), IsSpace)
  {
  }

  lemma Halves(s: string, k: nat)
    requires k <= |s|
    ensures s == s[..k] + s[k..]
  {
  }

  lemma EndOfLine(line: string, a: string, name: string, b: string, c: string, raw: string, d: string)
    requires TrimSpace(line) == Spelled(a, name, b, c, raw, d) && raw != "" && AllBlank(d)
    ensures d == "" && !IsSpace(raw[|raw| - 1])
  {
    hide IsSpace;
    var l, end := TrimSpace(line), raw + d;
    LastOfTail(raw, d);
    BlanksAreSpaces(d);
    assert l[|l| - 1] == end[|end| - 1];
  }

  lemma LastOfTail(s: string, tail: string)
    requires s != ""
    ensures var end := s + tail; if tail == "" then end == s else end[|end| - 1] in tail
  {
    assert tail != "" ==> (s + tail)[|s + tail| - 1] == tail[|tail| - 1];
  }

  lemma SpacesJoin(lead: string, blanks: string)
    requires AllSpace(lead) && AllBlank(blanks)
    ensures AllSpace(lead + blanks)
  {
    BlanksAreSpaces(blanks);
  }

  lemma BlanksAreSpaces(s: string)
    requires AllBlank(s)
    ensures AllSpace(s)
  {
  }

  lemma CommentGoesOn(comment: string, more: string)
    requires IsComment(comment)
    ensures IsComment(comment + more)
  {
    var gap, note :| gap != "" && AllBlank(gap) && comment == gap + ("#" + note);
    assert comment + more == gap + ("#" + (note + more));
  }

  /** ONE LINE, exactly: the reader takes `name` and `value` from a line if and only if the line says so. */
  lemma ReadLineIff(line: string, name: string, value: string)
    ensures ReadLine(line) == Some(Match(name, value)) <==> Says(line, name, value)
  {
    hide ReadLine, Says;
    if ReadLine(line) == Some(Match(name, value)) { ReadIsSaid(line); }
    if Says(line, name, value) { SaidIsRead(line, name, value); }
  }

  // ── What is read from a file ──────────────────────────────────────────────

  /** The block that `open` brackets leave open closes with line `n` of what follows: there, and not
      before, as many are closed as were opened. */
  ghost predicate EndsBlock(rest: seq<string>, open: int, n: nat) {
    && 0 < n <= |rest| && DepthAfter(rest, open, n) == 0
    && forall k: nat :: 0 < k < n ==> DepthAfter(rest, open, k) > 0
  }

  /** A line that says no assignment adds nothing. */
  lemma OtherLinesAddNothing(lines: seq<string>, m: Assignments)
    requires lines != [] && forall name, value :: !Says(lines[0], name, value)
    ensures Parse(lines, m) == Parse(lines[1..], m)
  {
    hide Says;
    if ReadLine(lines[0]).Some? { ReadIsSaid(lines[0]); }
  }

  /** A line that does is an entry on its own if its value opens nothing. If it opens a block, the entry is
      the value and the lines up to the one that closes it, without their carriage returns; and if nothing
      closes it the line adds nothing, and the next one is read for itself. */
  lemma SaidLinesAreEntries(lines: seq<string>, m: Assignments, name: string, value: string)
    requires lines != [] && Says(lines[0], name, value)
    ensures var open := Scanner.Delta(value);
            && (open <= 0 ==> Parse(lines, m) == Parse(lines[1..], m[name := value]))
            && (forall n: nat :: open > 0 && EndsBlock(lines[1..], open, n) ==>
                  Parse(lines, m) == Parse(lines[n + 1..], m[name := JoinLines([value] + TrimAll(lines[1..n + 1]))]))
            && (open > 0 && (forall n: nat :: !EndsBlock(lines[1..], open, n)) ==> Parse(lines, m) == Parse(lines[1..], m))
  {
    hide Says, Scanner.Delta, Parse, JoinLines, TrimAll;
    var open, rest := Scanner.Delta(value), lines[1..];
    if open <= 0 {
      SaidLineAlone(lines, m, name, value);
    } else {
      forall n: nat | EndsBlock(rest, open, n)
        ensures Parse(lines, m) == Parse(lines[n + 1..], m[name := JoinLines([value] + TrimAll(lines[1..n + 1]))])
      {
        SaidLineOpens(lines, m, name, value, n);
      }
      if forall n: nat :: !EndsBlock(rest, open, n) {
        SaidLineIsLost(lines, m, name, value);
      }
    }
  }

  lemma SaidLineAlone(lines: seq<string>, m: Assignments, name: string, value: string)
    requires lines != [] && Says(lines[0], name, value) && Scanner.Delta(value) <= 0
    ensures Parse(lines, m) == Parse(lines[1..], m[name := value])
  {
    hide Says, Scanner.Delta, ReadLine;
    SaidIsRead(lines[0], name, value);
  }

  lemma SaidLineOpens(lines: seq<string>, m: Assignments, name: string, value: string, n: nat)
    requires lines != [] && Says(lines[0], name, value) && Scanner.Delta(value) > 0
    requires EndsBlock(lines[1..], Scanner.Delta(value), n)
    ensures n + 1 <= |lines|
    ensures Parse(lines, m) == Parse(lines[n + 1..], m[name := JoinLines([value] + TrimAll(lines[1..n + 1]))])
  {
    hide Says, Scanner.Delta, ReadLine, BlockLength, BlockText, JoinLines, TrimAll, ClosesAt, EndsBlock;
    var rest := lines[1..];
    SaidIsRead(lines[0], name, value);
    BlockFits(rest, Scanner.Delta(value), n);
    BlockLengthIsFirstZero(rest, Scanner.Delta(value));
    assert rest[..n] == lines[1..n + 1];
    BlockTextIs(value, rest[..n]);
  }

  lemma SaidLineIsLost(lines: seq<string>, m: Assignments, name: string, value: string)
    requires lines != [] && Says(lines[0], name, value) && Scanner.Delta(value) > 0
    requires forall n: nat :: !EndsBlock(lines[1..], Scanner.Delta(value), n)
    ensures Parse(lines, m) == Parse(lines[1..], m)
  {
    hide Says, Scanner.Delta, ReadLine, BlockLength, BlockText, ClosesAt, EndsBlock;
    SaidIsRead(lines[0], name, value);
    BlockLengthIsFirstZero(lines[1..], Scanner.Delta(value));
    forall n: nat ensures !ClosesAt(lines[1..], Scanner.Delta(value), n) { BlockFits(lines[1..], Scanner.Delta(value), n); }
  }

  lemma BlockFits(rest: seq<string>, open: int, n: nat)
    ensures EndsBlock(rest, open, n) <==> ClosesAt(rest, open, n)
    ensures ClosesAt(rest, open, n) ==> n <= |rest|
  {
  }
}
