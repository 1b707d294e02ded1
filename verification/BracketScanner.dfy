/** The bracket counter shared by the tfvars reader and both writers
    (`internal/config/applied_tfvars.go`, blockDepthDelta and HCLValueIsUnbalanced). */
module BracketScanner {
  import opened Text

  /** Reference definition: a one-character-at-a-time automaton. `Slash` is "the previous
      character was a lone `/`", `Escape` is "the previous character was a backslash in a string". */
  datatype Mode = Code | Slash | Str | Escape | Comment

  function Step(m: Mode, c: char): Mode {
    match m
    case Comment => if c == '\n' then Code else Comment
    case Str => if c == '\\' then Escape else if c == '"' then Code else Str
    case Escape => Str
    case _ =>
      if c == '"' then Str
      else if c == '#' then Comment
      else if c == '/' then (if m == Slash then Comment else Slash)
      else Code
  }

  function Weight(m: Mode, c: char): int {
    if m != Code && m != Slash then 0
    else if c in "{[(" then 1
    else if c in "}])" then -1
    else 0
  }

  function Run(m: Mode, s: string): Mode
    decreases |s|
  {
    if s == "" then m else Run(Step(m, s[0]), s[1..])
  }

  function Depth(m: Mode, s: string): int
    decreases |s|
  {
    if s == "" then 0 else Weight(m, s[0]) + Depth(Step(m, s[0]), s[1..])
  }

  /** How many more brackets `v` opens than it closes. */
  function Delta(v: string): int {
    Depth(Code, v)
  }

  predicate Balanced(v: string) {
    Delta(v) == 0
  }

  predicate EndsInString(v: string) {
    Run(Code, v) in {Str, Escape}
  }

  lemma {:induction false} Compose(m: Mode, a: string, b: string)
    ensures Run(m, a + b) == Run(Run(m, a), b)
    ensures Depth(m, a + b) == Depth(m, a) + Depth(Run(m, a), b)
    decreases |a|
  {
    if a == "" {
      assert a + b == b;
    } else {
      assert (a + b)[1..] == a[1..] + b;
      Compose(Step(m, a[0]), a[1..], b);
    }
  }

  /** A lone slash that is not followed by another one means nothing. */
  lemma SlashIsCode(s: string)
    requires s == "" || s[0] != '/'
    ensures Depth(Slash, s) == Depth(Code, s)
  {
  }

  /** Inside a comment nothing counts until the newline. */
  lemma {:induction false} CommentIsSilent(s: string)
    requires NoNewline(s)
    ensures Run(Comment, s) == Comment && Depth(Comment, s) == 0
  {
    if s != "" {
      assert s[0] in s;
      forall c | c in s[1..] ensures c in s { }
      CommentIsSilent(s[1..]);
    }
  }

  /** At a newline a text that does not end inside a string can be cut, whatever
      comment, escape or slash stands at the seam: the counts simply add. */
  lemma DeltaAddsAtNewline(a: string, b: string)
    requires !EndsInString(a)
    ensures Delta(a + "\n" + b) == Delta(a) + Delta(b)
    ensures EndsInString(a + "\n" + b) == EndsInString(b)
  {
    DeltaAtNewline(a, b);
  }

  /** The general law: a text that ends inside a string makes the next line start in it. */
  lemma DeltaAtNewline(a: string, b: string)
    ensures var m := if EndsInString(a) then Str else Code;
            Delta(a + "\n" + b) == Delta(a) + Depth(m, b) && Run(Code, a + "\n" + b) == Run(m, b)
  {
    var rest := "\n" + b;
    assert a + "\n" + b == a + rest;
    Compose(Code, a, rest);
    assert rest[0] == '\n' && rest[1..] == b;
  }

  /** What is still to be counted when the scan stands at index `i`. */
  ghost function Remaining(v: string, i: nat, inStr: bool): int {
    if i <= |v| then Depth(if inStr then Str else Code, v[i..]) else 0
  }

  lemma OneStep(m: Mode, v: string, i: nat)
    requires i < |v|
    ensures Depth(m, v[i..]) == Weight(m, v[i]) + Depth(Step(m, v[i]), v[i + 1..])
  {
    assert v[i..][0] == v[i] && v[i..][1..] == v[i + 1..];
  }

  predicate CommentStartsAt(v: string, i: nat)
    requires i < |v|
  {
    v[i] == '#' || (v[i] == '/' && i + 1 < |v| && v[i + 1] == '/')
  }

  /** A comment jump: from its first character to just past the newline that ends it. */
  lemma CommentJump(v: string, start: nat, end: nat)
    requires start < |v| && CommentStartsAt(v, start)
    requires start <= end <= |v| && (end < |v| ==> v[end] == '\n')
    requires forall k :: start <= k < end ==> v[k] != '\n'
    ensures Remaining(v, start, false) == Remaining(v, end + 1, false)
  {
    var open := if v[start] == '#' then start + 1 else start + 2;
    OneStep(Code, v, start);
    if v[start] == '/' {
      OneStep(Slash, v, start + 1);
    }
    assert open <= end;
    var body := v[open..end];
    assert v[open..] == body + v[end..];
    CommentIsSilent(body);
    Compose(Comment, body, v[end..]);
    if end < |v| {
      OneStep(Comment, v, end);
    }
  }

  /** The program's loop, with its look-ahead for `//` and its index jumps, refines the automaton. */
  method BlockDepthDelta(v: string) returns (depth: int)
    ensures depth == Delta(v)
  {
    depth := 0;
    var inStr := false;
    var i := 0;
    while i < |v|
      invariant 0 <= i <= |v| + 1
      invariant depth + Remaining(v, i, inStr) == Delta(v)
      decreases |v| - i
    {
      var c := v[i];
      OneStep(if inStr then Str else Code, v, i);
      if inStr {
        if c == '\\' {
          if i + 1 < |v| { OneStep(Escape, v, i + 1); }
          i := i + 1;
        } else if c == '"' {
          inStr := false;
        }
      } else if c == '"' {
        inStr := true;
      } else if c == '#' || (c == '/' && i + 1 < |v| && v[i + 1] == '/') {
        ghost var start := i;
        while i < |v| && v[i] != '\n'
          invariant start <= i <= |v|
          invariant forall k :: start <= k < i ==> v[k] != '\n'
        {
          i := i + 1;
        }
        CommentJump(v, start, i);
      } else if c == '{' || c == '[' || c == '(' {
        depth := depth + 1;
      } else if c == '}' || c == ']' || c == ')' {
        depth := depth - 1;
      } else if c == '/' {
        SlashIsCode(v[i + 1..]);
      }
      i := i + 1;
    }
  }

  method HCLValueIsUnbalanced(v: string) returns (r: bool)
    ensures r == !Balanced(v)
  {
    var d := BlockDepthDelta(v);
    r := d != 0;
  }

  // ── Characters a trim may drop ────────────────────────────────────────────

  predicate Inert(c: char) {
    c !in "\"#/\\{[(}])\n"
  }

  /** Inert characters at the end of a text leave its depth alone, and leave the
      mode alone as far as the next newline can tell. */
  lemma {:induction false} InertTail(m: Mode, s: string, tail: string)
    requires forall c :: c in tail ==> Inert(c)
    ensures Depth(m, s + tail) == Depth(m, s)
    ensures Step(Run(m, s + tail), '\n') == Step(Run(m, s), '\n')
  {
    Compose(m, s, tail);
    InertRun(Run(m, s), tail);
  }

  lemma {:induction false} InertRun(m: Mode, tail: string)
    requires forall c :: c in tail ==> Inert(c)
    ensures Depth(m, tail) == 0
    ensures Step(Run(m, tail), '\n') == Step(m, '\n')
    decreases |tail|
  {
    if tail != "" {
      assert tail[0] in tail;
      forall c | c in tail[1..] ensures Inert(c) { assert c in tail; }
      InertRun(Step(m, tail[0]), tail[1..]);
    }
  }
}
