/** What the bracket counter counts, read off the shape of the text: the brackets of the code, and none
    that stands in a string or in a comment. */
module BracketText {
  import opened Text
  import opened BracketScanner

  /** A text in pieces: characters of code, quoted strings by what stands between the quotes, comments
      with or without the newline that ends them, and a string whose closing quote is missing. */
  datatype Piece = Plain(c: char) | Quoted(body: string) | Note(text: string, ended: bool) | Unclosed(body: string)

  function Spelling(p: Piece): (s: string)
  {
    match p
    case Plain(c) => [c]
    case Quoted(body) => "\"" + (body + "\"")
    case Note(text, ended) => text + (if ended then "\n" else "")
    case Unclosed(body) => "\"" + body
  }

  function Spell(ps: seq<Piece>): string {
    if ps == [] then "" else Spelling(ps[0]) + Spell(ps[1..])
  }

  /** Every quote in it is escaped, and its last backslash escapes something. */
  ghost predicate IsBody(s: string)
    decreases |s|
  {
    || s == ""
    || (s[0] != '"' && s[0] != '\\' && IsBody(s[1..]))
    || (|s| >= 2 && s[0] == '\\' && IsBody(s[2..]))
  }

  ghost predicate EndsInEscape(s: string) {
    s != "" && s[|s| - 1] == '\\' && IsBody(s[..|s| - 1])
  }

  /** The piece is what it claims to be where `after` is the text that follows it. */
  ghost predicate IsPiece(p: Piece, after: string) {
    match p
    case Plain(c) => c != '"' && c != '#' && !(c == '/' && "/" <= after)
    case Quoted(body) => IsBody(body)
    case Note(text, ended) => ("#" <= text || "//" <= text) && NoNewline(text) && (ended || after == "")
    case Unclosed(body) => (IsBody(body) || EndsInEscape(body)) && after == ""
  }

  ghost predicate ArePieces(ps: seq<Piece>) {
    ps == [] || (IsPiece(ps[0], Spell(ps[1..])) && ArePieces(ps[1..]))
  }

  /** The code alone. */
  function CodeOf(ps: seq<Piece>): string {
    if ps == [] then "" else (if ps[0].Plain? then [ps[0].c] else "") + CodeOf(ps[1..])
  }

  /** Openers less closers. */
  function Excess(code: string): int {
    var m := multiset(code);
    (m['{'] + m['['] + m['(']) as int - (m['}'] + m[']'] + m[')']) as int
  }

  lemma ExcessAdds(a: string, b: string)
    ensures Excess(a + b) == Excess(a) + Excess(b)
  {
    assert multiset(a + b) == multiset(a) + multiset(b);
  }

  /** The scan stands between two pieces: in code, perhaps after a slash that begins no comment. */
  predicate Between(m: Mode, rest: string) {
    m == Code || (m == Slash && !("/" <= rest))
  }

  lemma {:induction false} BodyIsSilent(s: string)
    requires IsBody(s)
    ensures Run(Str, s) == Str && Depth(Str, s) == 0
    decreases |s|
  {
    if s != "" {
      if s[0] == '\\' {
        assert s[1..][0] == s[1] && s[1..][1..] == s[2..];
        BodyIsSilent(s[2..]);
      } else {
        BodyIsSilent(s[1..]);
      }
    }
  }

  lemma QuotedIsSilent(m: Mode, body: string)
    requires (m == Code || m == Slash) && IsBody(body)
    ensures Run(m, "\"" + (body + "\"")) == Code && Depth(m, "\"" + (body + "\"")) == 0
  {
    BodyIsSilent(body);
    Compose(Str, body, "\"");
    assert "\""[1..] == "" && ("\"" + (body + "\""))[1..] == body + "\"";
  }

  lemma UnclosedIsSilent(m: Mode, body: string)
    requires (m == Code || m == Slash) && (IsBody(body) || EndsInEscape(body))
    ensures Depth(m, "\"" + body) == 0
  {
    assert ("\"" + body)[1..] == body;
    if IsBody(body) {
      BodyIsSilent(body);
    } else {
      var n := |body| - 1;
      BodyIsSilent(body[..n]);
      Compose(Str, body[..n], "\\");
      assert body == body[..n] + "\\" && "\\"[1..] == "";
    }
  }

  lemma NoteIsSilent(m: Mode, text: string, end: string)
    requires m == Code || (m == Slash && "#" <= text)
    requires ("#" <= text || "//" <= text) && NoNewline(text) && (end == "" || end == "\n")
    ensures Depth(m, text + end) == 0 && (end == "\n" ==> Run(m, text + end) == Code)
  {
    var open := if "#" <= text then 1 else 2;
    var body := text[open..];
    forall c | c in body ensures c in text { }
    CommentIsSilent(body);
    assert Run(m, text) == Comment && Depth(m, text) == 0 by {
      if open == 2 {
        assert text[0] == '/' && text[1] == '/' && text[1..][0] == '/' && text[1..][1..] == body;
      }
    }
    Compose(m, text, end);
    assert "\n"[1..] == "";
  }

  lemma CharCounts(c: char)
    ensures Excess([c]) == Weight(Code, c) == Weight(Slash, c)
  {
    assert forall d :: multiset([c])[d] == if d == c then 1 else 0;
  }

  /** A piece counts for its character of code, if it has one, and leaves the scan between pieces. */
  lemma PieceCounts(m: Mode, p: Piece, after: string)
    requires Between(m, Spelling(p) + after) && IsPiece(p, after)
    ensures Depth(m, Spelling(p)) == if p.Plain? then Excess([p.c]) else 0
    ensures after != "" ==> Between(Run(m, Spelling(p)), after)
  {
    match p
    case Plain(c) =>
      assert [c][1..] == "";
      assert (Spelling(p) + after)[0] == c;
      CharCounts(c);
    case Quoted(body) => QuotedIsSilent(m, body);
    case Note(text, ended) =>
      assert (Spelling(p) + after)[0] == text[0];
      NoteIsSilent(m, text, if ended then "\n" else "");
    case Unclosed(body) => UnclosedIsSilent(m, body);
  }

  lemma NoPieces(ps: seq<Piece>)
    requires ArePieces(ps) && Spell(ps) == ""
    ensures ps == []
  {
  }

  lemma {:induction false} PiecesCount(m: Mode, ps: seq<Piece>)
    requires ArePieces(ps) && Between(m, Spell(ps))
    ensures Depth(m, Spell(ps)) == Excess(CodeOf(ps))
    decreases |ps|
  {
    hide IsPiece, Spelling, Between, Excess, Depth, Run;
    NothingCounts(m);
    if ps != [] {
      var p, after := ps[0], Spell(ps[1..]);
      Compose(m, Spelling(p), after);
      PieceCounts(m, p, after);
      ExcessAdds(if p.Plain? then [p.c] else "", CodeOf(ps[1..]));
      if after == "" {
        NoPieces(ps[1..]);
        NothingCounts(Run(m, Spelling(p)));
      } else {
        PiecesCount(Run(m, Spelling(p)), ps[1..]);
      }
    }
  }

  lemma NothingCounts(m: Mode)
    ensures Depth(m, "") == 0 && Excess("") == 0
  {
  }

  /** WHAT IS COUNTED: however a text is made of code, strings and comments, the openers less the closers
      of its code. */
  lemma DeltaCountsCode(ps: seq<Piece>)
    requires ArePieces(ps)
    ensures Delta(Spell(ps)) == Excess(CodeOf(ps))
  {
    PiecesCount(Code, ps);
  }

  /** In a text without a quote or a comment that is all of them. */
  lemma PlainTextCounts(v: string)
    requires '"' !in v && '#' !in v && forall i :: 0 < i < |v| ==> !(v[i - 1] == '/' && v[i] == '/')
    ensures Delta(v) == Excess(v)
  {
    var ps := AllPlain(v);
    DeltaCountsCode(ps);
  }

  lemma {:induction false} AllPlain(v: string) returns (ps: seq<Piece>)
    requires '"' !in v && '#' !in v && forall i :: 0 < i < |v| ==> !(v[i - 1] == '/' && v[i] == '/')
    ensures ArePieces(ps) && Spell(ps) == v && CodeOf(ps) == v
    decreases |v|
  {
    ps := [];
    if v != "" {
      var rest := v[1..];
      assert v[0] in v;
      forall c | c in rest ensures c in v { }
      forall i | 0 < i < |rest| ensures !(rest[i - 1] == '/' && rest[i] == '/') { assert rest[i] == v[i + 1]; }
      var later := AllPlain(rest);
      ps := [Plain(v[0])] + later;
      assert ps[1..] == later;
      assert "/" <= rest ==> rest[0] == '/' && rest[0] == v[1];
    }
  }

  // ── Every text has pieces ─────────────────────────────────────────────────

  lemma SpellCons(p: Piece, later: seq<Piece>)
    ensures Spell([p] + later) == Spelling(p) + Spell(later)
    ensures ArePieces([p] + later) <==> IsPiece(p, Spell(later)) && ArePieces(later)
  {
    assert ([p] + later)[1..] == later;
  }

  lemma {:induction false} BodyOf(s: string) returns (body: string, rest: string, closed: bool)
    ensures s == body + (if closed then "\"" + rest else "")
    ensures if closed then IsBody(body) else IsBody(body) || EndsInEscape(body)
    decreases |s|
  {
    if s == "" || s[0] == '"' {
      body, rest, closed := "", if s == "" then "" else s[1..], s != "";
    } else if s[0] == '\\' && |s| == 1 {
      body, rest, closed := s, "", false;
      assert s[..0] == "";
    } else {
      var n := if s[0] == '\\' then 2 else 1;
      var b;
      b, rest, closed := BodyOf(s[n..]);
      hide IsBody, EndsInEscape;
      body := s[..n] + b;
      assert s == s[..n] + s[n..];
      BodyGrows(s[..n], b);
    }
  }

  lemma BodyGrows(head: string, b: string)
    requires (|head| == 1 && head[0] != '"' && head[0] != '\\') || (|head| == 2 && head[0] == '\\')
    ensures IsBody(b) ==> IsBody(head + b)
    ensures EndsInEscape(b) ==> EndsInEscape(head + b)
  {
    assert (head + b)[|head|..] == b;
    if EndsInEscape(b) {
      var init := (head + b)[..|head + b| - 1];
      assert init == head + b[..|b| - 1] && init[|head|..] == b[..|b| - 1];
    }
  }

  lemma {:induction false} LineEnd(s: string) returns (n: nat)
    ensures n <= |s| && NoNewline(s[..n]) && (n < |s| ==> s[n] == '\n')
    decreases |s|
  {
    n := 0;
    if s != "" && s[0] != '\n' {
      var m := LineEnd(s[1..]);
      n := m + 1;
      assert s[..n] == [s[0]] + s[1..][..m];
    }
  }

  /** The pieces are no restriction: every text is made of some. */
  lemma {:induction false} PiecesOf(v: string) returns (ps: seq<Piece>)
    ensures ArePieces(ps) && Spell(ps) == v
    decreases |v|
  {
    ps := [];
    if v != "" {
      var p, n := FirstPiece(v);
      var later := PiecesOf(v[n..]);
      SpellCons(p, later);
      ps := [p] + later;
      assert v == v[..n] + v[n..];
    }
  }

  lemma FirstPiece(v: string) returns (p: Piece, n: nat)
    requires v != ""
    ensures 0 < n <= |v| && Spelling(p) == v[..n] && IsPiece(p, v[n..])
  {
    hide IsBody, EndsInEscape, NoNewline;
    if v[0] == '"' {
      var body, rest, closed := BodyOf(v[1..]);
      assert v == "\"" + v[1..];
      if closed {
        p, n := Quoted(body), |body| + 2;
        assert v == ("\"" + (body + "\"")) + rest;
      } else {
        p, n := Unclosed(body), |v|;
      }
    } else if v[0] == '#' || "//" <= v {
      var end := LineEnd(v);
      var text := v[..end];
      assert "#" <= v || "//" <= v;
      assert end > 0 && ("//" <= v ==> end > 1);
      p, n := Note(text, end < |v|), if end < |v| then end + 1 else end;
      assert end < |v| ==> v[..n] == text + "\n";
    } else {
      p, n := Plain(v[0]), 1;
      assert v[..1] == [v[0]];
      assert v[0] == '/' && "/" <= v[1..] ==> "//" <= v;
    }
  }

  /** So the counter is known for every text. */
  lemma EveryTextIsCounted(v: string)
    ensures exists ps :: ArePieces(ps) && Spell(ps) == v && Delta(v) == Excess(CodeOf(ps))
  {
    var ps := PiecesOf(v);
    DeltaCountsCode(ps);
  }
}
