/** Strings as Go's `strings` package sees them: whitespace, trimming, lines, substrings.

    A `char` stands for one code point of valid UTF-8 text. Every character the
    program tests for is ASCII, so working on code points and working on bytes agree. */
module Text {
  import opened Wrappers

  /** Whitespace as `strings.TrimSpace` removes it (`unicode.IsSpace`). */
  predicate IsSpace(c: char) {
    || c in "\t\n\r "
    || c == '\U{0B}' || c == '\U{0C}' || c == '\U{85}' || c == '\U{A0}' || c == '\U{1680}'
    || '\U{2000}' <= c <= '\U{200A}'
    || c in {'\U{2028}', '\U{2029}', '\U{202F}', '\U{205F}', '\U{3000}'}
  }

  /** Whitespace as the `\s` class of Go's `regexp` matches it: a strict subset. */
  predicate IsBlank(c: char) {
    c in "\t\n\r " || c == '\U{0C}'
  }

  function TrimLeft(s: string, drop: char -> bool): (r: string)
    ensures |r| <= |s| && r == s[|s| - |r|..]
    ensures r != "" ==> !drop(r[0])
  {
    if s != "" && drop(s[0]) then TrimLeft(s[1..], drop) else s
  }

  function TrimRight(s: string, drop: char -> bool): (r: string)
    ensures |r| <= |s| && r == s[..|r|]
    ensures r != "" ==> !drop(r[|r| - 1])
    ensures forall i :: |r| <= i < |s| ==> drop(s[i])
  {
    if s != "" && drop(s[|s| - 1]) then TrimRight(s[..|s| - 1], drop) else s
  }

  function TrimSpace(s: string): string {
    TrimRight(TrimLeft(s, IsSpace), IsSpace)
  }

  function TrimCR(s: string): string {
    TrimRight(s, c => c == '\r')
  }

  /** Appending dropped characters does not change what a right trim leaves. */
  lemma {:induction false} TrimRightAbsorbs(s: string, tail: string, drop: char -> bool)
    requires forall c :: c in tail ==> drop(c)
    ensures TrimRight(s + tail, drop) == TrimRight(s, drop)
    decreases |tail|
  {
    if tail == "" {
      assert s + tail == s;
    } else {
      var n := |tail| - 1;
      assert (s + tail)[..|s + tail| - 1] == s + tail[..n];
      assert (s + tail)[|s + tail| - 1] == tail[n];
      assert tail[n] in tail;
      TrimRightAbsorbs(s, tail[..n], drop);
    }
  }

  /** A right trim that keeps something of `b` keeps all of what stands before it. */
  lemma {:induction false} TrimRightPrefix(a: string, b: string, drop: char -> bool)
    requires TrimRight(b, drop) != ""
    ensures TrimRight(a + b, drop) == a + TrimRight(b, drop)
    decreases |b|
  {
    var s := a + b;
    assert b != "" && s[|s| - 1] == b[|b| - 1];
    if drop(b[|b| - 1]) {
      assert s[..|s| - 1] == a + b[..|b| - 1];
      TrimRightPrefix(a, b[..|b| - 1], drop);
    }
  }

  lemma {:induction false} TrimLeftSkips(head: string, s: string, drop: char -> bool)
    requires (forall c :: c in head ==> drop(c)) && (s != "" ==> !drop(s[0]))
    ensures TrimLeft(head + s, drop) == s
    decreases |head|
  {
    if head == "" {
      assert head + s == s;
    } else {
      assert (head + s)[0] == head[0] && head[0] in head;
      assert (head + s)[1..] == head[1..] + s;
      TrimLeftSkips(head[1..], s, drop);
    }
  }

  lemma {:induction false} TrimLeftDrops(s: string, drop: char -> bool)
    ensures forall c :: c in s[..|s| - |TrimLeft(s, drop)|] ==> drop(c)
  {
    if s != "" && drop(s[0]) {
      TrimLeftDrops(s[1..], drop);
      var k := |s| - |TrimLeft(s, drop)|;
      assert s[..k] == [s[0]] + s[1..][..k - 1];
    }
  }

  lemma TrimRightDrops(s: string, drop: char -> bool)
    ensures forall c :: c in s[|TrimRight(s, drop)|..] ==> drop(c)
  {
    var tail := s[|TrimRight(s, drop)|..];
    forall x | x in tail ensures drop(x) {
      var i :| 0 <= i < |tail| && tail[i] == x;
      assert s[|TrimRight(s, drop)| + i] == x;
    }
  }

  ghost predicate AllSpace(s: string) {
    forall c :: c in s ==> IsSpace(c)
  }

  /** Whitespace around a trimmed text is what trimming takes away. */
  lemma TrimBetween(a: string, head: string, tail: string)
    requires AllSpace(a) && AllSpace(tail) && head != "" && !IsSpace(head[0]) && !IsSpace(head[|head| - 1])
    ensures TrimSpace(a + (head + tail)) == head
  {
    hide IsSpace;
    TrimLeftSkips(a, head + tail, IsSpace);
    TrimRightAbsorbs(head, tail, IsSpace);
  }

  /** A head that is trimmed already keeps a trim to what comes after it. */
  lemma TrimAssignment(head: string, q: string)
    requires head != "" && !IsSpace(head[0]) && !IsSpace(head[|head| - 1])
    ensures TrimSpace(head + q) == head + TrimRight(q, IsSpace)
  {
    hide IsSpace;
    var r := TrimRight(q, IsSpace);
    assert (head + q)[0] == head[0];
    assert TrimLeft(head + q, IsSpace) == head + q;
    if r != "" {
      TrimRightPrefix(head, q, IsSpace);
    } else {
      forall c | c in q ensures IsSpace(c) { var i :| 0 <= i < |q| && q[i] == c; }
      TrimRightAbsorbs(head, q, IsSpace);
      assert TrimRight(head, IsSpace) == head;
    }
  }

  lemma TrimBeforeNote(a: string, head: string, note: string)
    requires AllSpace(a) && head != "" && !IsSpace(head[0]) && head[|head| - 1] == '#'
    ensures TrimSpace(a + (head + note)) == head + TrimRight(note, IsSpace)
  {
    hide IsSpace;
    assert !IsSpace('#') by { HashIsNotBlank(); }
    TrimLeftSkips(a, head + note, IsSpace);
    TrimAssignment(head, note);
    TrimLeftSkips("", head + note, IsSpace);
    assert "" + (head + note) == head + note;
  }

  lemma HashIsNotBlank()
    ensures !IsSpace('#')
  {
  }

  predicate NoNewline(s: string) {
    '\n' !in s
  }

  lemma ConcatFitsOnLine(a: string, b: string)
    requires NoNewline(a) && NoNewline(b)
    ensures NoNewline(a + b)
  {
  }

  /** `strings.Split(s, "\n")`. */
  function SplitLines(s: string): (ls: seq<string>)
    ensures |ls| >= 1
    ensures forall k :: 0 <= k < |ls| ==> NoNewline(ls[k])
  {
    if s == "" then [""]
    else
      var rest := SplitLines(s[1..]);
      if s[0] == '\n' then [""] + rest
      else [[s[0]] + rest[0]] + rest[1..]
  }

  /** `strings.Join(ls, "\n")`. */
  function JoinLines(ls: seq<string>): string
    requires |ls| >= 1
  {
    if |ls| == 1 then ls[0] else ls[0] + "\n" + JoinLines(ls[1..])
  }

  lemma {:induction false} JoinSnoc(ls: seq<string>, l: string)
    requires |ls| >= 1
    ensures JoinLines(ls + [l]) == JoinLines(ls) + "\n" + l
  {
    if |ls| == 1 {
      assert (ls + [l])[1..] == [l];
    } else {
      assert (ls + [l])[1..] == ls[1..] + [l];
      JoinSnoc(ls[1..], l);
    }
  }

  lemma {:induction false} SplitSingle(s: string)
    requires NoNewline(s)
    ensures SplitLines(s) == [s]
  {
    if s != "" {
      assert s[0] in s;
      forall c | c in s[1..] ensures c in s { }
      SplitSingle(s[1..]);
      assert [s[0]] + s[1..] == s;
    }
  }

  /** A newline is a seam: the lines of the whole are the lines of the parts. */
  lemma {:induction false} SplitSeam(a: string, b: string)
    ensures SplitLines(a + "\n" + b) == SplitLines(a) + SplitLines(b)
  {
    hide SplitLines;
    var s := a + "\n" + b;
    SplitFirst(s);
    if a == "" {
      assert s[0] == '\n' && s[1..] == b;
      SplitSingle("");
    } else {
      assert s[0] == a[0] && s[1..] == a[1..] + "\n" + b;
      SplitSeam(a[1..], b);
      SplitFirst(a);
    }
  }

  lemma SplitFirst(s: string)
    requires s != ""
    ensures var rest := SplitLines(s[1..]);
            SplitLines(s) == if s[0] == '\n' then [""] + rest else [[s[0]] + rest[0]] + rest[1..]
  {
  }

  /** Splitting undoes joining. */
  lemma {:induction false} SplitJoin(ls: seq<string>)
    requires |ls| >= 1 && forall k :: 0 <= k < |ls| ==> NoNewline(ls[k])
    ensures SplitLines(JoinLines(ls)) == ls
  {
    if |ls| == 1 {
      SplitSingle(ls[0]);
    } else {
      SplitSeam(ls[0], JoinLines(ls[1..]));
      SplitSingle(ls[0]);
      SplitJoin(ls[1..]);
    }
  }

  /** Joining undoes splitting. */
  lemma {:induction false} JoinSplit(s: string)
    ensures JoinLines(SplitLines(s)) == s
  {
    if s != "" {
      JoinSplit(s[1..]);
      var rest := SplitLines(s[1..]);
      if s[0] == '\n' {
        assert ([""] + rest)[1..] == rest;
      } else if |rest| > 1 {
        assert ([[s[0]] + rest[0]] + rest[1..])[1..] == rest[1..];
      }
    }
  }

  predicate HasPrefix(s: string, p: string) {
    |p| <= |s| && s[..|p|] == p
  }

  /** Whether `p` occurs in `s` at position `i`. */
  predicate OccursAt(s: string, p: string, i: nat) {
    i + |p| <= |s| && s[i..i + |p|] == p
  }

  ghost predicate Contains(s: string, p: string) {
    exists i: nat :: OccursAt(s, p, i)
  }

  /** `strings.Index`: the first occurrence, or None. */
  function Index(s: string, p: string): (r: Option<nat>)
    ensures r.Some? ==> OccursAt(s, p, r.value) && forall j: nat :: j < r.value ==> !OccursAt(s, p, j)
    ensures r.None? ==> forall j: nat :: !OccursAt(s, p, j)
  {
    IndexFrom(s, p, 0)
  }

  function IndexFrom(s: string, p: string, from: nat): (r: Option<nat>)
    requires from <= |s| + 1
    ensures r.Some? ==> from <= r.value && OccursAt(s, p, r.value)
    ensures r.Some? ==> forall j: nat :: from <= j < r.value ==> !OccursAt(s, p, j)
    ensures r.None? ==> forall j: nat :: from <= j ==> !OccursAt(s, p, j)
    decreases |s| + 1 - from
  {
    if from + |p| > |s| then None
    else if s[from..from + |p|] == p then Some(from)
    else IndexFrom(s, p, from + 1)
  }
}
