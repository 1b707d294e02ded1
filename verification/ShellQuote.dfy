/** Values on their way into a shell file and back: shellQuote, envLinesFor and readDotEnv of
    `internal/cli/config_cmd.go`. */
module ShellQuote {
  import opened Text
  import opened Ordering
  import opened Wrappers

  // ── Quoting ───────────────────────────────────────────────────────────────

  /** The characters that make shellQuote quote. */
  predicate Quotable(c: char) {
    c in " \t\"'$`\\#&|" || c in ";<>()*?[]{}!~"
  }

  predicate NeedsQuotes(v: string) {
    v == "" || exists i :: 0 <= i < |v| && Quotable(v[i])
  }

  /** Every single quote leaves the quoted part, stands escaped, and enters it again. */
  function Escape(v: string): string {
    if v == "" then "" else (if v[0] == '\'' then "'\\''" else [v[0]]) + Escape(v[1..])
  }

  function ShellQuoted(v: string): string {
    if NeedsQuotes(v) then "'" + Escape(v) + "'" else v
  }

  // ── The shell ─────────────────────────────────────────────────────────────

  /** What the shell makes of `s` as the rest of one word: sections 2.2.1 (escape character) and 2.2.2
      (single quotes) of the POSIX.1-2017 Shell Command Language. None when the word would end early,
      stay open, or be expanded; double quotes and expansions are not read, as shellQuote writes none. */
  function Lex(s: string, quoted: bool): Option<string>
    decreases |s|
  {
    if s == "" then if quoted then None else Some("")
    else if quoted then
      if s[0] == '\'' then Lex(s[1..], false) else Before(s[0], Lex(s[1..], true))
    else if s[0] == '\'' then Lex(s[1..], true)
    else if s[0] == '\\' then
      if |s| == 1 then None
      else if s[1] == '\n' then Lex(s[2..], false)
      else Before(s[1], Lex(s[2..], false))
    else if s[0] == '\n' || Quotable(s[0]) then None
    else Before(s[0], Lex(s[1..], false))
  }

  function Before(c: char, rest: Option<string>): Option<string> {
    if rest.None? then None else Some([c] + rest.value)
  }

  /** Out of the quotes, one escaped quote, and back in. */
  lemma LexEscapedQuote(rest: string)
    ensures Lex("'\\''" + rest, true) == Before('\'', Lex(rest, true))
  {
    hide Quotable;
    var s := "'\\''" + rest;
    assert s[1..] == "\\''" + rest && s[1..][2..] == "'" + rest && s[1..][2..][1..] == rest;
    assert Lex(s[1..][2..], false) == Lex(rest, true);
    assert Lex(s[1..], false) == Before('\'', Lex(s[1..][2..], false));
  }

  lemma {:induction false} LexEscaped(v: string)
    ensures Lex(Escape(v) + "'", true) == Some(v)
  {
    hide Quotable;
    if v == "" {
      assert "'"[1..] == "";
    } else {
      LexEscaped(v[1..]);
      var rest := Escape(v[1..]) + "'";
      assert v == [v[0]] + v[1..];
      if v[0] == '\'' {
        LexEscapedQuote(rest);
        assert Escape(v) + "'" == "'\\''" + rest;
      } else {
        assert Escape(v) + "'" == [v[0]] + rest;
        assert (Escape(v) + "'")[1..] == rest;
      }
    }
  }

  lemma {:induction false} LexPlain(v: string)
    requires forall i :: 0 <= i < |v| ==> !Quotable(v[i])
    ensures Lex(v, false) == if NoNewline(v) then Some(v) else None
  {
    hide Quotable;
    if v != "" {
      QuotesAreQuoted();
      forall i | 0 <= i < |v[1..]| ensures !Quotable(v[1..][i]) { assert v[1..][i] == v[i + 1]; }
      LexPlain(v[1..]);
      assert v == [v[0]] + v[1..];
    }
  }

  lemma QuotesAreQuoted()
    ensures Quotable('\'') && Quotable('\\') && Quotable('"') && Quotable(' ') && Quotable('#') && !Quotable('\n')
  {
  }

  /** QUOTING INVERTS LEXING: the shell reads the quoted value as that value, one word, unless it holds
      a newline and nothing that calls for quotes. */
  lemma ShellReadsBack(v: string)
    ensures Lex(ShellQuoted(v), false) == Some(v) <==> NoNewline(v) || NeedsQuotes(v)
  {
    if NeedsQuotes(v) {
      var q := ShellQuoted(v);
      assert q[1..] == Escape(v) + "'";
      LexEscaped(v);
    } else {
      LexPlain(v);
    }
  }

  // ── readDotEnv, one line ──────────────────────────────────────────────────

  predicate IsQuote(c: char) {
    c == '"' || c == '\''
  }

  /** The value part of a line: a trailing comment goes, then any quotes around what is left. */
  function CleanValue(text: string): string {
    var v := TrimSpace(text);
    var i := Index(v, " #");
    var w := if i.Some? then TrimSpace(v[..i.value]) else v;
    StripQuotes(w)
  }

  function StripQuotes(w: string): string {
    TrimRight(TrimLeft(w, IsQuote), IsQuote)
  }

  function ReadEnvLine(text: string): Option<(string, string)> {
    var line := TrimSpace(text);
    if line == "" || HasPrefix(line, "#") then None
    else
      var body := if HasPrefix(line, "export ") then line[7..] else line;
      var i := Index(body, "=");
      if i.None? then None
      else Some((TrimSpace(body[..i.value]), CleanValue(body[i.value + 1..])))
  }

  /** The names of the override family. */
  predicate PlainName(n: string) {
    n != "" && forall i :: 0 <= i < |n| ==> 'A' <= n[i] <= 'Z' || '0' <= n[i] <= '9' || n[i] == '_'
  }

  lemma TrimNothing(s: string)
    requires s != "" && !IsSpace(s[0]) && !IsSpace(s[|s| - 1])
    ensures TrimSpace(s) == s
  {
  }

  lemma TrimKeepsHead(s: string)
    requires s != "" && !IsSpace(s[0])
    ensures TrimSpace(s) != "" && TrimSpace(s)[0] == s[0]
  {
    hide IsSpace;
    var t := TrimRight(s, IsSpace);
    assert TrimLeft(s, IsSpace) == s;
    assert IsSpace(s[0]) || |t| > 0;
  }

  lemma PlainNameIsTrimmed(name: string)
    requires PlainName(name)
    ensures !IsSpace(name[0]) && !IsSpace(name[|name| - 1]) && !IsSpace('=') && !IsSpace('\'') && !IsSpace('#')
  {
  }

  /** A plain name in front of the equals sign is read as it stands. */
  lemma AssignmentIsRead(name: string, q: string)
    requires PlainName(name)
    ensures ReadEnvLine(name + "=" + q) == Some((name, CleanValue(TrimRight(q, IsSpace))))
  {
    hide CleanValue, IsSpace, TrimSpace, TrimRight;
    PlainNameIsTrimmed(name);
    var head, r := name + "=", TrimRight(q, IsSpace);
    TrimAssignment(head, q);
    var line := head + r;
    assert line[0] == name[0];
    assert !HasPrefix(line, "#") && !HasPrefix(line, "export ") by {
      assert "#"[0] != name[0] && "export "[0] != name[0];
    }
    FirstEquals(name, r);
    assert line[..|name|] == name && line[|name| + 1..] == r;
    TrimNothing(name);
  }

  lemma FirstEquals(name: string, r: string)
    requires PlainName(name)
    ensures Index(name + "=" + r, "=") == Some(|name|)
  {
    var line := name + "=" + r;
    assert line[|name|..|name| + 1] == "=";
    assert OccursAt(line, "=", |name|);
    forall j: nat | j < |name| ensures !OccursAt(line, "=", j) {
      assert line[j..j + 1] == [name[j]];
    }
  }

  // ── What a line of the file says ──────────────────────────────────────────

  /** The end of a line: whitespace, or a comment after at least one space. */
  ghost predicate EndsLine(tail: string) {
    AllSpace(tail) || exists gap, note :: AllSpace(gap) && tail == gap + (" #" + note)
  }

  ghost predicate AllQuotes(s: string) {
    forall c :: c in s ==> IsQuote(c)
  }

  /** A value as it stands in a line: trimmed, and with no comment of its own. */
  ghost predicate IsWritten(w: string) {
    w != "" && !IsSpace(w[0]) && !IsSpace(w[|w| - 1]) && !Contains(w, " #")
  }

  lemma QuotesAreStripped(q: string, v: string, r: string)
    requires AllQuotes(q) && AllQuotes(r) && (v != "" ==> !IsQuote(v[0]) && !IsQuote(v[|v| - 1]))
    ensures StripQuotes(q + (v + r)) == v
  {
    hide IsQuote;
    if v == "" {
      assert q + (v + r) == (q + r) + "";
      TrimLeftSkips(q + r, "", IsQuote);
    } else {
      TrimLeftSkips(q, v + r, IsQuote);
      TrimRightAbsorbs(v, r, IsQuote);
    }
  }

  lemma CommentIsFound(w: string, gap: string, note: string)
    requires IsWritten(w) && AllSpace(gap)
    ensures Index(w + (gap + (" #" + note)), " #") == Some(|w| + |gap|)
  {
    var s := w + (gap + (" #" + note));
    var at := |w| + |gap|;
    assert s[at..at + 2] == " #";
    assert OccursAt(s, " #", at);
    forall j: nat | j < at ensures !OccursAt(s, " #", j) {
      if j + 2 <= |w| {
        assert s[j..j + 2] == w[j..j + 2];
        assert !OccursAt(w, " #", j);
      } else if j < |w| {
        assert s[j] == w[|w| - 1] && s[j..j + 2][0] == s[j];
        SpaceOrHash();
      } else if j + 1 < at {
        assert s[j + 1] in gap && s[j..j + 2][1] == s[j + 1];
        SpaceOrHash();
      } else {
        assert s[j + 1] == ' ' && s[j..j + 2][1] == s[j + 1];
      }
    }
  }

  lemma SpaceOrHash()
    ensures IsSpace(' ') && !IsSpace('#') && !IsSpace('=') && !IsSpace('e')
  {
  }

  /** A written value is read up to its comment, without the quotes around it. */
  lemma WrittenIsRead(c: string, w: string, tail: string)
    requires AllSpace(c) && IsWritten(w) && EndsLine(tail)
    ensures CleanValue(c + (w + tail)) == StripQuotes(w)
  {
    hide IsSpace, AllSpace, TrimSpace, Index, StripQuotes, CleanValue, Contains;
    if AllSpace(tail) {
      TrimBetween(c, w, tail);
      WrittenIsTrimmed(w);
      CleanWithoutComment(c + (w + tail), w);
    } else {
      var gap, note :| AllSpace(gap) && tail == gap + (" #" + note);
      var kept := TrimRight(note, IsSpace);
      var head := w + (gap + " #");
      TrimBeforeNote(c, head, note);
      assert w + tail == head + note;
      assert head + kept == w + (gap + (" #" + kept));
      CommentIsFound(w, gap, kept);
      CleanWithComment(c + (w + tail), w, gap, " #" + kept);
    }
  }

  lemma CleanWithoutComment(text: string, w: string)
    requires TrimSpace(text) == w && Index(w, " #").None?
    ensures CleanValue(text) == StripQuotes(w)
  {
  }

  lemma CleanWithComment(text: string, w: string, gap: string, rest: string)
    requires IsWritten(w) && AllSpace(gap)
    requires TrimSpace(text) == w + (gap + rest) && Index(w + (gap + rest), " #") == Some(|w| + |gap|)
    ensures CleanValue(text) == StripQuotes(w)
  {
    hide TrimSpace, Index, StripQuotes, IsSpace, AllSpace, Contains;
    assert (w + (gap + rest))[..|w| + |gap|] == "" + (w + gap);
    assert AllSpace("") by { NothingIsSpace(); }
    TrimBetween("", w, gap);
  }

  lemma NothingIsSpace()
    ensures AllSpace("")
  {
  }

  lemma WrittenIsTrimmed(w: string)
    requires IsWritten(w)
    ensures w != "" && !IsSpace(w[0]) && !IsSpace(w[|w| - 1]) && !Contains(w, " #")
    ensures Index(w, " #").None?
  {
  }

  /** The name ends at the first equals sign. */
  lemma NameIsRead(pad: string, name: string, b: string, rest: string)
    requires AllSpace(pad) && AllSpace(b) && PlainName(name)
    ensures Index(pad + (name + (b + ("=" + rest))), "=") == Some(|pad| + |name| + |b|)
  {
    hide IsSpace;
    var s := pad + (name + (b + ("=" + rest)));
    var at := |pad| + |name| + |b|;
    assert s[at..at + 1] == "=";
    assert OccursAt(s, "=", at);
    SpaceOrHash();
    forall j: nat | j < at ensures !OccursAt(s, "=", j) {
      assert s[j] == if j < |pad| then pad[j] else if j < |pad| + |name| then name[j - |pad|] else b[j - |pad| - |name|];
      assert s[j..j + 1][0] == s[j];
    }
  }

  /** Reading what is left of a line once an `export` is gone. */
  lemma BodyIsRead(pad: string, name: string, b: string, c: string, w: string, tail: string)
    requires AllSpace(pad) && AllSpace(b) && AllSpace(c) && PlainName(name) && IsWritten(w) && EndsLine(tail)
    ensures var body := pad + (name + (b + ("=" + (c + (w + tail)))));
            var i := Index(body, "=");
            i.Some? && i.value + 1 <= |body|
            && TrimSpace(body[..i.value]) == name && CleanValue(body[i.value + 1..]) == StripQuotes(w)
  {
    hide IsSpace, IsWritten, TrimSpace, Index, StripQuotes, CleanValue, EndsLine, AllSpace;
    var rest := c + (w + tail);
    var body := pad + (name + (b + ("=" + rest)));
    NameIsRead(pad, name, b, rest);
    var at := |pad| + |name| + |b|;
    assert body[..at] == pad + (name + b) && body[at + 1..] == rest;
    PlainNameIsTrimmed(name);
    TrimBetween(pad, name, b);
    WrittenIsRead(c, w, tail);
  }

  /** Trimming a line takes whitespace from its ends and leaves the rest to be read the same. */
  lemma LineIsTrimmed(lead: string, head: string, w: string, tail: string) returns (kept: string)
    requires AllSpace(lead) && head != "" && !IsSpace(head[0]) && IsWritten(w) && EndsLine(tail)
    ensures TrimSpace(lead + (head + (w + tail))) == head + (w + kept) && EndsLine(kept)
  {
    hide IsSpace, IsWritten, TrimSpace;
    WrittenIsTrimmed(w);
    var all := head + w;
    assert all[|all| - 1] == w[|w| - 1];
    if AllSpace(tail) {
      kept := "";
      TrimBetween(lead, all, tail);
      assert lead + (head + (w + tail)) == lead + (all + tail) && head + (w + kept) == all;
    } else {
      var gap, note :| AllSpace(gap) && tail == gap + (" #" + note);
      kept := gap + (" #" + TrimRight(note, IsSpace));
      var before := all + (gap + " #");
      TrimBeforeNote(lead, before, note);
      assert lead + (head + (w + tail)) == lead + (before + note);
      assert head + (w + kept) == before + TrimRight(note, IsSpace);
    }
  }

  /** ONE LINE of the file, as templates and shells write it: an `export` in front, whitespace, quotes and
      a trailing comment make no difference to the name and value that are read. */
  lemma ReadsSpelledLine(lead: string, exported: bool, pad: string, name: string, b: string, c: string,
                         q: string, v: string, r: string, tail: string)
    requires AllSpace(lead) && AllSpace(pad) && AllSpace(b) && AllSpace(c) && (!exported ==> pad == "")
    requires PlainName(name) && AllQuotes(q) && AllQuotes(r) && (v != "" ==> !IsQuote(v[0]) && !IsQuote(v[|v| - 1]))
    requires IsWritten(q + (v + r)) && EndsLine(tail)
    ensures var start := if exported then "export " + pad else "";
            ReadEnvLine(lead + ((start + (name + (b + ("=" + c)))) + ((q + (v + r)) + tail))) == Some((name, v))
  {
    hide IsSpace, IsWritten, TrimSpace, Index, CleanValue, EndsLine, AllSpace, AllQuotes, IsQuote, StripQuotes;
    var w := q + (v + r);
    var start := if exported then "export " + pad else "";
    var head := start + (name + (b + ("=" + c)));
    PlainNameIsTrimmed(name);
    SpaceOrHash();
    assert head[0] == if exported then 'e' else name[0];
    var kept := LineIsTrimmed(lead, head, w, tail);
    var line := head + (w + kept);
    var body := pad + (name + (b + ("=" + (c + (w + kept)))));
    assert line[0] == head[0];
    assert !HasPrefix(line, "#") by { assert "#"[0] == '#'; }
    if exported {
      assert line == "export " + body;
      assert line[..7] == "export " && line[7..] == body;
    } else {
      assert line == body;
      assert !HasPrefix(line, "export ") by { assert "export "[0] == 'e' && name[0] != 'e'; }
    }
    BodyIsRead(pad, name, b, c, w, kept);
    QuotesAreStripped(q, v, r);
  }

  /** Nothing is read from a blank line, a comment, or a line without an equals sign. */
  lemma OtherLinesAreSilent(lead: string, note: string, text: string)
    requires AllSpace(lead) && '=' !in text
    ensures ReadEnvLine(lead).None? && ReadEnvLine(lead + ("#" + note)).None? && ReadEnvLine(text).None?
  {
    hide ReadEnvLine, IsSpace;
    assert '=' !in lead by { SpaceOrHash(); }
    NoEquals(lead);
    NoEquals(text);
    CommentIsSilent(lead, note);
  }

  lemma CommentIsSilent(lead: string, note: string)
    requires AllSpace(lead)
    ensures ReadEnvLine(lead + ("#" + note)).None?
  {
    hide IsSpace, CleanValue, TrimSpace, TrimRight, Index;
    SpaceOrHash();
    TrimBeforeNote(lead, "#", note);
    var line := "#" + TrimRight(note, IsSpace);
    assert line[..1] == "#";
  }

  lemma NoEquals(text: string)
    requires '=' !in text
    ensures ReadEnvLine(text).None?
  {
    hide IsSpace, CleanValue, TrimSpace, TrimRight, Index;
    TrimMembers(text);
    var line := TrimSpace(text);
    var body := if HasPrefix(line, "export ") then line[7..] else line;
    assert '=' !in body;
    NoEqualsToFind(body);
  }

  lemma NoEqualsToFind(body: string)
    requires '=' !in body
    ensures Index(body, "=").None?
  {
    forall j: nat ensures !OccursAt(body, "=", j) {
      if j < |body| { assert body[j] in body && body[j..j + 1][0] == body[j]; }
    }
  }

  // ── What readDotEnv makes of a quoted value ───────────────────────────────

  predicate EndsInDoubleQuote(v: string) {
    v != "" && (v[0] == '"' || v[|v| - 1] == '"')
  }

  /** The values that survive a line of the file. */
  ghost predicate Readable(v: string) {
    && NoNewline(v)
    && if NeedsQuotes(v) then '\'' !in v && !Contains(v, " #") && !EndsInDoubleQuote(v)
       else TrimSpace(v) == v
  }

  lemma {:induction false} EscapeKeepsEnds(v: string)
    ensures |Escape(v)| >= |v| && (|Escape(v)| == |v| ==> '\'' !in v && Escape(v) == v)
    ensures '\'' !in v ==> Escape(v) == v
    ensures v != "" ==> Escape(v)[0] == v[0] && Escape(v)[|Escape(v)| - 1] == v[|v| - 1]
  {
    if v != "" {
      EscapeKeepsEnds(v[1..]);
      assert v == [v[0]] + v[1..];
      assert v[0] in v;
      if v[1..] != "" { assert v[1..][|v[1..]| - 1] == v[|v| - 1]; }
    }
  }

  /** The second character after a space survives escaping unless it is a quote. */
  lemma {:induction false} EscapeKeepsComments(v: string)
    ensures Contains(Escape(v), " #") <==> Contains(v, " #")
  {
    if v == "" {
      assert forall i: nat :: !OccursAt("", " #", i);
    } else {
      var r, e := v[1..], Escape(v[1..]);
      var lead := if v[0] == '\'' then "'\\''" else [v[0]];
      EscapeKeepsComments(r);
      EscapeKeepsEnds(r);
      assert Escape(v) == lead + e && v == [v[0]] + r;
      CommentInConcat(lead, e);
      CommentInConcat([v[0]], r);
      assert e == "" <==> r == "";
      TooShortForComment(lead);
      TooShortForComment([v[0]]);
    }
  }

  lemma TooShortForComment(s: string)
    requires |s| < 2 || ' ' !in s
    ensures !Contains(s, " #")
  {
    forall i: nat ensures !OccursAt(s, " #", i) {
      if i + 2 <= |s| {
        assert s[i..i + 2][0] == s[i] && s[i] in s && " #"[0] == ' ';
      }
    }
  }

  /** A comment mark in a concatenation is in one of the parts or across the seam. */
  lemma CommentInConcat(a: string, b: string)
    requires a != ""
    ensures Contains(a + b, " #") <==>
            Contains(a, " #") || Contains(b, " #") || (a[|a| - 1] == ' ' && b != "" && b[0] == '#')
  {
    var s := a + b;
    hide OccursAt;
    if i: nat :| OccursAt(s, " #", i) {
      MarkIsInPart(a, b, i);
    }
    if i: nat :| OccursAt(a, " #", i) {
      MarkOf(a, i);
      MarkAt(s, i);
    }
    if i: nat :| OccursAt(b, " #", i) {
      MarkOf(b, i);
      MarkAt(s, i + |a|);
    }
    if a[|a| - 1] == ' ' && b != "" && b[0] == '#' {
      MarkAt(s, |a| - 1);
    }
  }

  lemma MarkAt(s: string, i: nat)
    requires i + 1 < |s| && s[i] == ' ' && s[i + 1] == '#'
    ensures OccursAt(s, " #", i)
  {
    assert s[i..i + 2] == " #";
  }

  lemma MarkOf(s: string, i: nat)
    requires OccursAt(s, " #", i)
    ensures i + 1 < |s| && s[i] == ' ' && s[i + 1] == '#'
  {
    assert s[i..i + 2][0] == s[i] && s[i..i + 2][1] == s[i + 1];
  }

  lemma MarkIsInPart(a: string, b: string, i: nat)
    requires a != "" && OccursAt(a + b, " #", i)
    ensures Contains(a, " #") || Contains(b, " #") || (a[|a| - 1] == ' ' && b != "" && b[0] == '#')
  {
    hide OccursAt;
    MarkOf(a + b, i);
    if i + 2 <= |a| {
      MarkAt(a, i);
    } else if i >= |a| {
      MarkAt(b, i - |a|);
    }
  }

  lemma QuotedComment(v: string)
    ensures Contains("'" + Escape(v) + "'", " #") <==> Contains(v, " #")
  {
    EscapeKeepsComments(v);
    EscapeKeepsEnds(v);
    CommentInConcat("'" + Escape(v), "'");
    CommentInConcat("'", Escape(v));
    assert !Contains("'", " #");
  }

  /** A slice of a string without the comment mark has none either. */
  lemma SliceHasNoComment(s: string, lo: nat, hi: nat)
    requires lo <= hi <= |s| && !Contains(s, " #")
    ensures !Contains(s[lo..hi], " #")
  {
    hide OccursAt;
    var part := s[lo..hi];
    if i: nat :| OccursAt(part, " #", i) {
      MarkOf(part, i);
      MarkAt(s, lo + i);
    }
  }

  lemma TrimIsSlice(s: string, drop: char -> bool)
    ensures var r := TrimRight(TrimLeft(s, drop), drop);
            exists lo: nat, hi: nat :: lo <= hi <= |s| && r == s[lo..hi]
    ensures var r := TrimRight(TrimLeft(s, drop), drop); r != "" ==> !drop(r[0]) && !drop(r[|r| - 1])
  {
    hide TrimLeft, TrimRight;
    var l := TrimLeft(s, drop);
    var r := TrimRight(l, drop);
    var lo := |s| - |l|;
    assert l == s[lo..] && r == l[..|r|];
    assert r == s[lo..lo + |r|];
    if r != "" { assert r[0] == l[0]; }
  }

  /** What stands before the first comment mark contains none. */
  lemma HeadHasNoComment(v: string)
    ensures var i := Index(v, " #"); !Contains(if i.Some? then v[..i.value] else v, " #")
  {
    var i := Index(v, " #");
    var head := if i.Some? then v[..i.value] else v;
    forall j: nat ensures !OccursAt(head, " #", j) {
      if i.Some? && j + 2 <= |head| { assert v[j..j + 2] == head[j..j + 2]; assert !OccursAt(v, " #", j); }
    }
  }

  lemma TrimHasNoComment(s: string, drop: char -> bool)
    requires !Contains(s, " #")
    ensures !Contains(TrimRight(TrimLeft(s, drop), drop), " #")
  {
    hide Contains;
    TrimIsSlice(s, drop);
    var lo: nat, hi: nat :| lo <= hi <= |s| && TrimRight(TrimLeft(s, drop), drop) == s[lo..hi];
    SliceHasNoComment(s, lo, hi);
  }

  /** What is left once a comment is cut off contains no comment. */
  lemma CutHasNoComment(text: string)
    ensures !Contains(CleanValue(text), " #")
  {
    hide Contains, IsSpace, TrimRight, TrimLeft, Index;
    var v := TrimSpace(text);
    var i := Index(v, " #");
    HeadHasNoComment(v);
    var head := if i.Some? then v[..i.value] else v;
    TrimHasNoComment(head, IsSpace);
    TrimHasNoComment(if i.Some? then TrimSpace(head) else head, IsQuote);
  }

  lemma QuotedIsRead(v: string)
    ensures CleanValue("'" + Escape(v) + "'") == v <==> '\'' !in v && !Contains(v, " #") && !EndsInDoubleQuote(v)
  {
    hide IsSpace, Escape, EndsInDoubleQuote, StripQuotes, TrimSpace;
    var q := "'" + Escape(v) + "'";
    PlainNameIsTrimmed("A");
    TrimNothing(q);
    QuotedComment(v);
    CutHasNoComment(q);
    if !Contains(v, " #") {
      assert Index(q, " #").None?;
      UnquotedIff(v);
    }
  }

  /** Stripping quotes gives the value back exactly if it has no single quote and no quote at its ends. */
  lemma UnquotedIff(v: string)
    ensures StripQuotes("'" + Escape(v) + "'") == v <==> '\'' !in v && !EndsInDoubleQuote(v)
  {
    hide Escape, StripQuotes;
    var q := "'" + Escape(v) + "'";
    EscapeKeepsEnds(v);
    StrippedEnds(q);
    if v == "" {
      NothingQuoted();
      assert |Escape(v)| == 0 by { EscapeNothing(); }
      assert q == "''";
    } else if !IsQuote(v[0]) && !IsQuote(v[|v| - 1]) {
      StripQuoted(Escape(v));
      assert StripQuotes(q) == Escape(v);
    } else {
      assert v[0] in v && v[|v| - 1] in v;
    }
  }

  lemma EscapeNothing()
    ensures Escape("") == ""
  {
  }

  lemma NothingQuoted()
    ensures StripQuotes("''") == ""
  {
    assert "''"[1..] == "'" && "'"[1..] == "";
  }

  lemma StrippedEnds(s: string)
    ensures var r := StripQuotes(s); r != "" ==> !IsQuote(r[0]) && !IsQuote(r[|r| - 1])
  {
    TrimIsSlice(s, IsQuote);
  }

  lemma StripQuoted(e: string)
    requires e != "" && !IsQuote(e[0]) && !IsQuote(e[|e| - 1])
    ensures StripQuotes("'" + e + "'") == e
  {
    var x := e + "'";
    assert "'" + e + "'" == "'" + x && x[0] == e[0];
    LeadingQuoteGoes(x);
    TrimRightAbsorbs(e, "'", IsQuote);
    assert TrimRight(e, IsQuote) == e;
  }

  lemma LeadingQuoteGoes(x: string)
    requires x != "" && !IsQuote(x[0])
    ensures TrimLeft("'" + x, IsQuote) == x
  {
    assert ("'" + x)[1..] == x;
    assert TrimLeft(x, IsQuote) == x;
  }

  lemma TrimMembers(s: string)
    ensures forall c :: c in TrimSpace(s) ==> c in s
    ensures forall c :: c in TrimRight(s, IsSpace) ==> c in s
  {
    hide IsSpace;
    var l := TrimLeft(s, IsSpace);
    forall c | c in TrimSpace(s) ensures c in s {
      assert c in l;
    }
  }

  lemma PlainIsRead(v: string)
    requires !NeedsQuotes(v)
    ensures CleanValue(TrimRight(v, IsSpace)) == v <==> TrimSpace(v) == v
  {
    hide IsSpace, TrimRight, TrimLeft, TrimSpace, Quotable, StripQuotes;
    var r := TrimRight(v, IsSpace);
    var t := TrimSpace(r);
    QuotesAreQuoted();
    TrimMembers(v);
    TrimMembers(r);
    forall c | c in t ensures !Quotable(c) { assert c in v; }
    TooShortForComment(t);
    assert t != "" ==> t[0] in t && t[|t| - 1] in t;
    NothingToUnquote(t);
    assert CleanValue(r) == t;
    TrimsAgree(v);
  }

  lemma NothingToUnquote(t: string)
    requires t != "" ==> !IsQuote(t[0]) && !IsQuote(t[|t| - 1])
    ensures StripQuotes(t) == t
  {
  }

  lemma TrimsAgree(v: string)
    ensures TrimSpace(TrimRight(v, IsSpace)) == v <==> TrimSpace(v) == v
  {
    hide IsSpace;
    TrimIsSlice(v, IsSpace);
    if TrimSpace(v) == v {
      assert TrimRight(v, IsSpace) == v;
    }
  }

  /** READING BACK ONE SETTING, and exactly when: the tool's own reader returns the value it wrote if
      and only if the value is readable. */
  lemma DotEnvReadsBackIff(name: string, v: string)
    requires PlainName(name) && NoNewline(v)
    ensures ReadEnvLine(name + "=" + ShellQuoted(v)) == Some((name, v)) <==> Readable(v)
  {
    hide CleanValue, ReadEnvLine, Escape, TrimSpace;
    AssignmentIsRead(name, ShellQuoted(v));
    if NeedsQuotes(v) {
      var q := "'" + Escape(v) + "'";
      assert TrimRight(q, IsSpace) == q by { assert q[|q| - 1] == '\''; }
      QuotedIsRead(v);
    } else {
      PlainIsRead(v);
    }
  }

  // ── The whole file ────────────────────────────────────────────────────────

  /** A setting of the workspace that differs from the empty one; secrets are named, not written. */
  datatype Setting = Setting(name: string, value: string, secret: bool)

  const SECRET_NOTE := "=            # secret \U{2014} set it in" + " the environment, not this file"

  function LineFor(s: Setting): string {
    if s.secret then "# " + s.name + SECRET_NOTE else s.name + "=" + ShellQuoted(s.value)
  }

  /** envLinesFor: empty values are skipped, the lines are sorted. */
  method EnvLinesFor(settings: seq<Setting>) returns (lines: seq<string>)
    ensures Sorted(lines, StringLeq)
    ensures forall l :: l in lines <==> exists s :: s in settings && s.value != "" && l == LineFor(s)
  {
    hide LineFor, StringLeq, Sorted;
    var out := [];
    for i := 0 to |settings|
      invariant forall l :: l in out <==> exists s :: s in settings[..i] && s.value != "" && l == LineFor(s)
    {
      assert settings[..i + 1] == settings[..i] + [settings[i]];
      if settings[i].value != "" {
        out := out + [LineFor(settings[i])];
      }
    }
    assert settings[..|settings|] == settings;
    StringPreorder();
    lines := Sort(out, StringLeq);
    forall l ensures l in lines <==> l in out {
      assert l in multiset(lines) <==> l in multiset(out);
    }
  }

  /** Later lines win. */
  function ReadLines(lines: seq<string>): map<string, string> {
    if lines == [] then map[]
    else
      var before := ReadLines(lines[..|lines| - 1]);
      var r := ReadEnvLine(lines[|lines| - 1]);
      if r.Some? then before[r.value.0 := r.value.1] else before
  }

  /** Line `i` is the last to say anything for this name, and says this. */
  ghost predicate SaysLast(lines: seq<string>, name: string, value: string, i: nat) {
    && i < |lines| && ReadEnvLine(lines[i]) == Some((name, value))
    && forall j :: i < j < |lines| && ReadEnvLine(lines[j]).Some? ==> ReadEnvLine(lines[j]).value.0 != name
  }

  /** However often a name is given, its last line decides. */
  lemma {:induction false} LastLineWins(lines: seq<string>, name: string, value: string)
    ensures name in ReadLines(lines) && ReadLines(lines)[name] == value <==> exists i: nat :: SaysLast(lines, name, value, i)
    decreases |lines|
  {
    hide ReadEnvLine;
    if lines != [] {
      var n := |lines| - 1;
      LastLineWins(lines[..n], name, value);
      var r := ReadEnvLine(lines[n]);
      if r.Some? && r.value.0 == name {
        assert SaysLast(lines, name, r.value.1, n);
        assert forall i: nat :: SaysLast(lines, name, value, i) ==> i == n;
      } else {
        forall i: nat | i < n ensures SaysLast(lines, name, value, i) <==> SaysLast(lines[..n], name, value, i) { }
      }
    }
  }

  /** readDotEnv, over the text of the file. */
  method ReadDotEnv(text: string) returns (env: map<string, string>)
    ensures env == ReadLines(SplitLines(text))
  {
    hide TrimSpace, HasPrefix, Index, CleanValue, SplitLines;
    var lines := SplitLines(text);
    env := map[];
    for i := 0 to |lines|
      invariant env == ReadLines(lines[..i])
    {
      assert lines[..i + 1][..i] == lines[..i];
      var line := TrimSpace(lines[i]);
      if line == "" || HasPrefix(line, "#") {
        continue;
      }
      if HasPrefix(line, "export ") {
        line := line[Prefixed(line, "export ")..];
      }
      var at := Index(line, "=");
      if at.None? {
        continue;
      }
      Found(line, "=");
      env := env[TrimSpace(line[..at.value]) := CleanValue(line[at.value + 1..])];
    }
    assert lines[..|lines|] == lines;
  }

  function Prefixed(s: string, p: string): (n: nat)
    requires HasPrefix(s, p)
    ensures n == |p| <= |s|
  {
    |p|
  }

  lemma Found(s: string, p: string)
    ensures Index(s, p).Some? ==> Index(s, p).value + |p| <= |s|
  {
  }

  /** If every line says nothing or something wanted, and everything wanted is said, that is the result. */
  lemma {:induction false} ReadsWhatIsSaid(lines: seq<string>, want: map<string, string>)
    requires forall l :: l in lines ==> Says(l, want)
    ensures forall k :: k in ReadLines(lines) ==> k in want && ReadLines(lines)[k] == want[k]
    ensures forall l :: l in lines && ReadEnvLine(l).Some? ==> ReadEnvLine(l).value.0 in ReadLines(lines)
    decreases |lines|
  {
    hide ReadEnvLine;
    if lines != [] {
      var n := |lines| - 1;
      assert lines == lines[..n] + [lines[n]];
      assert lines[n] in lines;
      ReadsWhatIsSaid(lines[..n], want);
    }
  }

  predicate Says(l: string, want: map<string, string>) {
    var r := ReadEnvLine(l);
    r.Some? ==> r.value.0 in want && r.value.1 == want[r.value.0]
  }

  predicate Visible(s: Setting) {
    s.value != "" && !s.secret
  }

  lemma SecretsAreSilent(s: Setting)
    requires s.secret
    ensures ReadEnvLine(LineFor(s)).None?
  {
    hide TrimSpace, IsSpace;
    var l := LineFor(s);
    assert l[0] == '#';
    PlainNameIsTrimmed("A");
    TrimKeepsHead(l);
    assert TrimSpace(l)[..1] == "#";
  }

  /** What the reader makes of the written form of a one-line value. */
  function ReadAs(v: string): string {
    CleanValue(TrimRight(ShellQuoted(v), IsSpace))
  }

  /** Settings with plain names: `lines` are theirs, and `want` is what those to be shown say. */
  ghost predicate Describes(settings: seq<Setting>, lines: seq<string>, want: map<string, string>) {
    && (forall l :: l in lines <==> exists s :: s in settings && s.value != "" && l == LineFor(s))
    && (forall s :: s in settings ==> PlainName(s.name))
    && (forall s :: s in settings && Visible(s) ==> s.name in want && want[s.name] == s.value)
    && (forall k :: k in want ==> exists s :: s in settings && Visible(s) && s.name == k)
  }

  /** THE FILE READS BACK, and exactly when: settings with distinct plain names come back, secrets left
      out, in whatever order their lines were written, if and only if every value shown is readable. */
  lemma FileReadsBackIff(settings: seq<Setting>, lines: seq<string>, want: map<string, string>)
    requires Describes(settings, lines, want)
    ensures ReadLines(SplitLines(JoinLines(lines + [""]))) == want <==>
            forall s :: s in settings && Visible(s) ==> Readable(s.value)
  {
    hide LineFor, Readable, PlainName, SplitLines, JoinLines, ReadLines, ReadAs;
    var got := ReadLines(SplitLines(JoinLines(lines + [""])));
    if s :| s in settings && Visible(s) && !NoNewline(s.value) {
      ReadStaysOnLine(SplitLines(JoinLines(lines + [""])));
      assert got != want;
      assert !Readable(s.value) by { ReadAsIff(s.value); }
    } else {
      FileIsRead(settings, lines, want);
      forall s | s in settings && Visible(s) ensures Readable(s.value) <==> ReadAs(want[s.name]) == want[s.name] {
        ReadAsIff(s.value);
      }
    }
  }

  /** With one-line values every setting is read, each as its own line says it. */
  lemma FileIsRead(settings: seq<Setting>, lines: seq<string>, want: map<string, string>)
    requires Describes(settings, lines, want)
    requires forall s :: s in settings && Visible(s) ==> NoNewline(s.value)
    ensures ReadLines(SplitLines(JoinLines(lines + [""]))) == map k | k in want :: ReadAs(want[k])
  {
    hide ReadEnvLine, LineFor, ReadAs, PlainName, SplitLines, JoinLines, ReadLines;
    var said := map k | k in want :: ReadAs(want[k]);
    forall s | s in settings && s.value != ""
      ensures NoNewline(LineFor(s)) && Says(LineFor(s), said)
      ensures !s.secret ==> ReadEnvLine(LineFor(s)) == Some((s.name, ReadAs(s.value)))
    {
      OneSetting(s);
    }
    var all := lines + [""];
    forall k | 0 <= k < |all| ensures NoNewline(all[k]) {
      if k < |lines| { assert all[k] in lines; }
    }
    SplitJoin(all);
    assert Says("", said) by { BlankIsSilent(); }
    ReadsWhatIsSaid(all, said);
    var got := ReadLines(all);
    forall k | k in said ensures k in got {
      var s :| s in settings && Visible(s) && s.name == k;
      assert LineFor(s) in all;
    }
    assert got.Keys == said.Keys;
  }

  lemma ReadAsIff(v: string)
    ensures Readable(v) <==> NoNewline(v) && ReadAs(v) == v
  {
    hide CleanValue, ReadEnvLine, ShellQuoted, TrimSpace;
    if NoNewline(v) {
      AssignmentIsRead("A", ShellQuoted(v));
      DotEnvReadsBackIff("A", v);
    }
  }

  /** No value read from a line holds a newline. */
  lemma {:induction false} ReadStaysOnLine(lines: seq<string>)
    requires forall k :: 0 <= k < |lines| ==> NoNewline(lines[k])
    ensures forall k :: k in ReadLines(lines) ==> NoNewline(ReadLines(lines)[k])
    decreases |lines|
  {
    hide ReadEnvLine, NoNewline;
    if lines != [] {
      ReadStaysOnLine(lines[..|lines| - 1]);
      ValueStaysOnLine(lines[|lines| - 1]);
    }
  }

  lemma ValueStaysOnLine(l: string)
    requires NoNewline(l)
    ensures ReadEnvLine(l).Some? ==> NoNewline(ReadEnvLine(l).value.1)
  {
    hide IsSpace, TrimSpace, CleanValue;
    TrimMembers(l);
    if ReadEnvLine(l).Some? {
      var line := TrimSpace(l);
      var body := if HasPrefix(line, "export ") then line[7..] else line;
      CleanMembers(body[Index(body, "=").value + 1..]);
    }
  }

  lemma CleanMembers(text: string)
    ensures forall c :: c in CleanValue(text) ==> c in text
  {
    hide IsSpace, IsQuote, TrimSpace, TrimLeft, TrimRight;
    var v := TrimSpace(text);
    TrimMembers(text);
    var i := Index(v, " #");
    if i.Some? { TrimMembers(v[..i.value]); }
    var w := if i.Some? then TrimSpace(v[..i.value]) else v;
    var u := TrimLeft(w, IsQuote);
    forall c | c in StripQuotes(w) ensures c in w {
      assert c in u;
    }
  }

  lemma BlankIsSilent()
    ensures ReadEnvLine("").None?
  {
  }

  lemma OneSetting(s: Setting)
    requires PlainName(s.name) && s.value != "" && (Visible(s) ==> NoNewline(s.value))
    ensures NoNewline(LineFor(s))
    ensures ReadEnvLine(LineFor(s)) == if s.secret then None else Some((s.name, ReadAs(s.value)))
  {
    hide ReadEnvLine, TrimSpace;
    assert NoNewline(s.name);
    if s.secret {
      SecretsAreSilent(s);
      ConcatFitsOnLine("# " + s.name, SECRET_NOTE);
    } else {
      AssignmentIsRead(s.name, ShellQuoted(s.value));
      QuotedFitsOnLine(s.value);
      ConcatFitsOnLine(s.name, "=");
      ConcatFitsOnLine(s.name + "=", ShellQuoted(s.value));
    }
  }

  lemma {:induction false} QuotedFitsOnLine(v: string)
    requires NoNewline(v)
    ensures NoNewline(Escape(v)) && NoNewline(ShellQuoted(v))
  {
    if v != "" {
      assert v[0] in v && forall c :: c in v[1..] ==> c in v;
      QuotedFitsOnLine(v[1..]);
      ConcatFitsOnLine(if v[0] == '\'' then "'\\''" else [v[0]], Escape(v[1..]));
    }
    ConcatFitsOnLine("'" + Escape(v), "'");
  }
}
