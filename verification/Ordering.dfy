/** Go's byte-wise string order, sorting, and why a sorted result does not depend on input order. */
module Ordering {

  /** `a <= b` for Go strings. */
  predicate StringLeq(a: string, b: string) {
    a == "" || (b != "" && (a[0] < b[0] || (a[0] == b[0] && StringLeq(a[1..], b[1..]))))
  }

  lemma {:induction false} StringLeqTotal(a: string, b: string)
    ensures StringLeq(a, b) || StringLeq(b, a)
    ensures StringLeq(a, b) && StringLeq(b, a) ==> a == b
  {
    if a != "" && b != "" && a[0] == b[0] {
      StringLeqTotal(a[1..], b[1..]);
      assert a == [a[0]] + a[1..] && b == [b[0]] + b[1..];
    }
  }

  lemma {:induction false} StringLeqTransitive(a: string, b: string, c: string)
    requires StringLeq(a, b) && StringLeq(b, c)
    ensures StringLeq(a, c)
  {
    if a != "" && a[0] == b[0] == c[0] {
      StringLeqTransitive(a[1..], b[1..], c[1..]);
    }
  }

  /** One string is a prefix of the other, or the first difference decides. */
  lemma {:induction false} FirstDifferenceDecides(a: string, b: string)
    ensures StringLeq(a, b) <==> a <= b || exists k: nat :: DifferAt(a, b, k) && a[k] < b[k]
  {
    if a != "" && b != "" && a[0] == b[0] {
      FirstDifferenceDecides(a[1..], b[1..]);
      assert a <= b <==> a[1..] <= b[1..] by { assert a == [a[0]] + a[1..] && b == [b[0]] + b[1..]; }
      forall k: nat ensures DifferAt(a, b, k + 1) <==> DifferAt(a[1..], b[1..], k) {
        if k < |a| && k < |b| && |a| > k + 1 && |b| > k + 1 {
          assert a[..k + 1] == [a[0]] + a[1..][..k] && b[..k + 1] == [b[0]] + b[1..][..k];
        }
      }
      if k: nat :| DifferAt(a, b, k) && a[k] < b[k] {
        assert DifferAt(a[1..], b[1..], k - 1);
      }
      if k: nat :| DifferAt(a[1..], b[1..], k) && a[1..][k] < b[1..][k] {
        assert DifferAt(a, b, k + 1);
      }
    } else if a != "" && b != "" {
      assert DifferAt(a, b, 0);
      forall k: nat ensures DifferAt(a, b, k) ==> k == 0 {
        if 0 < k <= |a| && k <= |b| { assert a[..k][0] == a[0] && b[..k][0] == b[0]; }
      }
    }
  }

  /** The strings agree up to position `k`, and no further. */
  predicate DifferAt(a: string, b: string, k: nat) {
    k < |a| && k < |b| && a[..k] == b[..k] && a[k] != b[k]
  }

  /** A relation a sort can rely on. */
  ghost predicate Preorder<T(!new)>(leq: (T, T) -> bool) {
    && (forall a, b :: leq(a, b) || leq(b, a))
    && (forall a, b, c :: leq(a, b) && leq(b, c) ==> leq(a, c))
  }

  lemma StringPreorder()
    ensures Preorder(StringLeq)
  {
    forall a: string, b: string ensures StringLeq(a, b) || StringLeq(b, a) {
      StringLeqTotal(a, b);
    }
    forall a: string, b: string, c: string | StringLeq(a, b) && StringLeq(b, c)
      ensures StringLeq(a, c)
    {
      StringLeqTransitive(a, b, c);
    }
  }

  ghost predicate Sorted<T>(xs: seq<T>, leq: (T, T) -> bool) {
    forall i, j :: 0 <= i < j < |xs| ==> leq(xs[i], xs[j])
  }

  /** Elements that the order cannot tell apart are equal. */
  ghost predicate Distinguishes<T>(xs: seq<T>, leq: (T, T) -> bool) {
    forall a, b :: a in xs && b in xs && leq(a, b) && leq(b, a) ==> a == b
  }

  lemma HeadAndTail<T>(xs: seq<T>)
    requires xs != []
    ensures multiset(xs) == multiset{xs[0]} + multiset(xs[1..])
  {
    assert xs == [xs[0]] + xs[1..];
  }

  lemma SameHead<T>(xs: seq<T>, ys: seq<T>, leq: (T, T) -> bool)
    requires Sorted(xs, leq) && Sorted(ys, leq) && multiset(xs) == multiset(ys)
    requires Distinguishes(xs, leq) && xs != []
    ensures ys != [] && xs[0] == ys[0]
  {
    HeadAndTail(xs);
    assert xs[0] in multiset(ys);
    HeadAndTail(ys);
    assert ys[0] in multiset(xs);
    var i :| 0 <= i < |ys| && ys[i] == xs[0];
    var j :| 0 <= j < |xs| && xs[j] == ys[0];
    if i > 0 && j > 0 {
      assert leq(ys[0], ys[i]) && leq(xs[0], xs[j]);
    }
  }

  /** Two sorted arrangements of the same elements are the same sequence,
      as soon as the order tells different elements apart. */
  lemma {:induction false} SortedIsUnique<T>(xs: seq<T>, ys: seq<T>, leq: (T, T) -> bool)
    requires Sorted(xs, leq) && Sorted(ys, leq) && multiset(xs) == multiset(ys)
    requires Distinguishes(xs, leq)
    ensures xs == ys
    decreases |xs|
  {
    if xs == [] {
      if ys != [] { HeadAndTail(ys); }
    } else {
      hide Sorted, Distinguishes;
      SameHead(xs, ys, leq);
      HeadAndTail(xs);
      HeadAndTail(ys);
      CancelOne(xs[0], multiset(xs[1..]), multiset(ys[1..]));
      TailIsSorted(xs, leq);
      TailIsSorted(ys, leq);
      TailIsDistinguished(xs, leq);
      SortedIsUnique(xs[1..], ys[1..], leq);
      assert xs == [xs[0]] + xs[1..] && ys == [ys[0]] + ys[1..];
    }
  }

  /** Only then: elements that the order takes for equal can be swapped, and both results are sorted. */
  lemma SortedIsUniqueIff<T(!new)>(xs: seq<T>, leq: (T, T) -> bool)
    requires Preorder(leq) && Sorted(xs, leq)
    ensures Distinguishes(xs, leq) <==>
            forall ys :: Sorted(ys, leq) && multiset(ys) == multiset(xs) ==> ys == xs
  {
    if Distinguishes(xs, leq) {
      forall ys | Sorted(ys, leq) && multiset(ys) == multiset(xs)
        ensures ys == xs
      {
        SortedIsUnique(xs, ys, leq);
      }
    } else {
      var a, b :| a in xs && b in xs && leq(a, b) && leq(b, a) && a != b;
      var i :| 0 <= i < |xs| && xs[i] == a;
      var j :| 0 <= j < |xs| && xs[j] == b;
      var ys := xs[i := b][j := a];
      SwapEquals(xs, if i < j then i else j, if i < j then j else i, leq);
      assert ys[i] != xs[i];
    }
  }

  lemma SwapEquals<T(!new)>(xs: seq<T>, i: nat, j: nat, leq: (T, T) -> bool)
    requires Preorder(leq) && Sorted(xs, leq) && i < j < |xs| && leq(xs[j], xs[i])
    ensures var ys := xs[i := xs[j]][j := xs[i]]; Sorted(ys, leq) && multiset(ys) == multiset(xs)
    ensures xs[i := xs[j]][j := xs[i]] == xs[j := xs[i]][i := xs[j]]
  {
    var ys := xs[i := xs[j]][j := xs[i]];
    forall p, q | 0 <= p < q < |ys| ensures leq(ys[p], ys[q]) {
      assert leq(xs[i], xs[j]) && leq(xs[j], xs[i]);
      assert p < i ==> leq(xs[p], xs[i]) && leq(xs[p], xs[j]);
      assert q > j ==> leq(xs[j], xs[q]) && leq(xs[i], xs[q]);
      assert i < p < j ==> leq(xs[i], xs[p]) && leq(xs[p], xs[j]);
      assert i < q < j ==> leq(xs[i], xs[q]) && leq(xs[q], xs[j]);
    }
  }

  lemma CancelOne<T>(x: T, a: multiset<T>, b: multiset<T>)
    requires multiset{x} + a == multiset{x} + b
    ensures a == b
  {
    assert a == (multiset{x} + a) - multiset{x};
    assert b == (multiset{x} + b) - multiset{x};
  }

  /** Taking the last element of one arrangement out of another leaves arrangements of the same rest. */
  lemma SameWithoutLast<T>(xs: seq<T>, ys: seq<T>) returns (j: nat)
    requires multiset(xs) == multiset(ys) && xs != []
    ensures j < |ys| && ys[j] == xs[|xs| - 1]
    ensures multiset(xs[..|xs| - 1]) == multiset(ys[..j] + ys[j + 1..])
  {
    var x := xs[|xs| - 1];
    assert x in multiset(ys);
    j :| 0 <= j < |ys| && ys[j] == x;
    assert xs == xs[..|xs| - 1] + [x] && ys == ys[..j] + [x] + ys[j + 1..];
    assert multiset(xs) == multiset{x} + multiset(xs[..|xs| - 1]);
    assert multiset(ys) == multiset{x} + multiset(ys[..j] + ys[j + 1..]);
    CancelOne(x, multiset(xs[..|xs| - 1]), multiset(ys[..j] + ys[j + 1..]));
  }

  lemma TailIsSorted<T>(xs: seq<T>, leq: (T, T) -> bool)
    requires Sorted(xs, leq) && xs != []
    ensures Sorted(xs[1..], leq)
  {
  }

  lemma TailIsDistinguished<T>(xs: seq<T>, leq: (T, T) -> bool)
    requires Distinguishes(xs, leq) && xs != []
    ensures Distinguishes(xs[1..], leq)
  {
    assert forall a :: a in xs[1..] ==> a in xs;
  }

  /** An insertion sort standing for `sort.Strings` and `sort.Slice`: callers may rely only on
      its contract, a sorted arrangement of the input. */
  method Sort<T(!new)>(xs: seq<T>, leq: (T, T) -> bool) returns (ys: seq<T>)
    requires Preorder(leq)
    ensures Sorted(ys, leq) && multiset(ys) == multiset(xs)
  {
    ys := [];
    for n := 0 to |xs|
      invariant Sorted(ys, leq) && multiset(ys) == multiset(xs[..n])
    {
      var x := xs[n];
      var k := 0;
      while k < |ys| && leq(ys[k], x)
        invariant 0 <= k <= |ys|
        invariant forall i :: 0 <= i < k ==> leq(ys[i], x)
      {
        k := k + 1;
      }
      Insert(ys, k, x, leq);
      assert xs[..n + 1] == xs[..n] + [x];
      ys := ys[..k] + [x] + ys[k..];
    }
    assert xs[..|xs|] == xs;
  }

  lemma Insert<T(!new)>(ys: seq<T>, k: nat, x: T, leq: (T, T) -> bool)
    requires Preorder(leq) && Sorted(ys, leq) && k <= |ys|
    requires forall i :: 0 <= i < k ==> leq(ys[i], x)
    requires k < |ys| ==> !leq(ys[k], x)
    ensures Sorted(ys[..k] + [x] + ys[k..], leq)
    ensures multiset(ys[..k] + [x] + ys[k..]) == multiset(ys) + multiset{x}
  {
    forall i | k <= i < |ys| ensures leq(x, ys[i]) {
      assert leq(x, ys[k]);
      assert k < i ==> leq(ys[k], ys[i]);
    }
    InsertSorted(ys, k, x, leq);
    assert ys == ys[..k] + ys[k..];
  }

  lemma InsertSorted<T>(ys: seq<T>, k: nat, x: T, leq: (T, T) -> bool)
    requires Sorted(ys, leq) && k <= |ys|
    requires forall i :: 0 <= i < k ==> leq(ys[i], x)
    requires forall i :: k <= i < |ys| ==> leq(x, ys[i])
    ensures Sorted(ys[..k] + [x] + ys[k..], leq)
  {
  }

  // ── The keys of a map, in order ───────────────────────────────────────────

  ghost predicate IsLeast(k: string, s: set<string>) {
    k in s && forall j :: j in s ==> StringLeq(k, j)
  }

  lemma {:induction false} LeastExists(s: set<string>) returns (k: string)
    requires s != {}
    ensures IsLeast(k, s)
    decreases |s|
  {
    var x :| x in s;
    var rest := s - {x};
    StringLeqTotal(x, x);
    if rest == {} {
      assert s == {x};
      return x;
    }
    var y := LeastExists(rest);
    StringLeqTotal(x, y);
    if StringLeq(x, y) {
      forall j | j in s ensures StringLeq(x, j) {
        if j != x { StringLeqTransitive(x, y, j); }
      }
      return x;
    }
    return y;
  }

  /** The least element of `s`. */
  ghost function Least(s: set<string>): (k: string)
    requires s != {}
    ensures IsLeast(k, s)
  {
    assert exists k :: IsLeast(k, s) by { var k := LeastExists(s); }
    var k :| IsLeast(k, s);
    k
  }

  /** The elements of `s` in string order. */
  ghost function SortedKeys(s: set<string>): (ks: seq<string>)
    ensures Sorted(ks, StringLeq) && multiset(ks) == multiset(s)
    decreases |s|
  {
    if s == {} then []
    else
      var k := Least(s);
      var rest := SortedKeys(s - {k});
      SmallestFirst(k, rest, s);
      [k] + rest
  }

  lemma SmallestFirst(k: string, rest: seq<string>, s: set<string>)
    requires k in s && (forall j :: j in s ==> StringLeq(k, j))
    requires Sorted(rest, StringLeq) && multiset(rest) == multiset(s - {k})
    ensures Sorted([k] + rest, StringLeq) && multiset([k] + rest) == multiset(s)
  {
    hide StringLeq;
    SetMinusElement(s, k);
    assert Sorted([k] + rest, StringLeq) by {
      forall i | 0 <= i < |rest| ensures StringLeq(k, rest[i]) {
        assert rest[i] in multiset(rest);
      }
    }
    assert multiset([k] + rest) == multiset{k} + multiset(rest);
  }

  lemma SetMinusElement<T>(s: set<T>, k: T)
    requires k in s
    ensures multiset(s) == multiset(s - {k}) + multiset{k}
  {
  }

  lemma SameMembers(xs: seq<string>, s: set<string>)
    requires multiset(xs) == multiset(s)
    ensures forall x :: x in xs <==> x in s
  {
    forall x ensures x in xs <==> x in s {
      assert x in multiset(xs) <==> x in multiset(s);
    }
  }

  /** In an arrangement of a set no element comes twice. */
  lemma OnceOnly(xs: seq<string>, s: set<string>, i: nat)
    requires multiset(xs) == multiset(s) && i < |xs|
    ensures xs[i] !in xs[..i]
  {
    assert xs == xs[..i] + [xs[i]] + xs[i + 1..];
    assert multiset(xs) == multiset(xs[..i]) + multiset{xs[i]} + multiset(xs[i + 1..]);
    assert multiset(s)[xs[i]] <= 1;
    assert xs[i] !in multiset(xs[..i]);
  }

  /** Whatever order the keys were gathered in, sorting them gives `SortedKeys`. */
  lemma SortedKeysUnique(ks: seq<string>, s: set<string>)
    requires Sorted(ks, StringLeq) && multiset(ks) == multiset(s)
    ensures ks == SortedKeys(s)
  {
    forall a, b | a in ks && b in ks && StringLeq(a, b) && StringLeq(b, a)
      ensures a == b
    {
      StringLeqTotal(a, b);
    }
    SortedIsUnique(ks, SortedKeys(s), StringLeq);
  }

  /** Iterating over a map visits its keys in no particular order. */
  method CollectKeys<V>(m: map<string, V>) returns (keys: seq<string>)
    ensures multiset(keys) == multiset(m.Keys)
  {
    keys := [];
    var todo := m.Keys;
    while todo != {}
      invariant todo <= m.Keys
      invariant multiset(keys) == multiset(m.Keys - todo)
    {
      var k :| k in todo;
      assert m.Keys - (todo - {k}) == (m.Keys - todo) + {k};
      keys := keys + [k];
      todo := todo - {k};
    }
    assert m.Keys - todo == m.Keys;
  }

  /** Gather the keys in whatever order the map yields them, then sort. */
  method SortedKeysOf<V>(m: map<string, V>) returns (keys: seq<string>)
    ensures keys == SortedKeys(m.Keys)
  {
    hide StringLeq;
    var gathered := CollectKeys(m);
    StringPreorder();
    keys := Sort(gathered, StringLeq);
    SortedKeysUnique(keys, m.Keys);
  }
}
