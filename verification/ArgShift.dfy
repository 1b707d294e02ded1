/** The guard against shifted arguments (`internal/cli/tfx_argshift.go`), behind a flag parser that
    accepts long flags with a space-separated value, switches without one, and positionals anywhere. */
module ArgShift {
  import opened Text
  import opened Ordering

  // ── The flag parser ───────────────────────────────────────────────────────

  datatype Kind = Value | Switch
  type Flags = map<string, Kind>

  datatype Parsed = MissingArgument(flag: string) | UnknownFlag(token: string) | Ok(values: map<string, string>, args: seq<string>)

  predicate Dashed(t: string) {
    |t| > 1 && t[0] == '-'
  }

  predicate IsFlag(flags: Flags, t: string) {
    HasPrefix(t, "--") && t[2..] in flags
  }

  /** A value flag takes the next token, whatever it looks like. The last setting of a flag wins. */
  function ParseArgs(flags: Flags, argv: seq<string>, values: map<string, string>, args: seq<string>): Parsed
    decreases |argv|
  {
    if argv == [] then Ok(values, args)
    else if IsFlag(flags, argv[0]) then
      var name := argv[0][2..];
      if flags[name] == Switch then ParseArgs(flags, argv[1..], values[name := "true"], args)
      else if |argv| == 1 then MissingArgument(name)
      else ParseArgs(flags, argv[2..], values[name := argv[1]], args)
    else if Dashed(argv[0]) then UnknownFlag(argv[0])
    else ParseArgs(flags, argv[1..], values, args + [argv[0]])
  }

  // ── The guard ─────────────────────────────────────────────────────────────

  /** Of these flags, those whose value looks like a flag. */
  function Offenders(values: map<string, string>, names: seq<string>): seq<string> {
    if names == [] then []
    else
      var n := |names| - 1;
      Offenders(values, names[..n]) +
      (if names[n] in values && Dashed(values[names[n]]) then [names[n]] else [])
  }

  lemma {:induction false} OffendersOffend(values: map<string, string>, names: seq<string>)
    ensures forall f :: f in Offenders(values, names) <==> f in names && f in values && Dashed(values[f])
    ensures Sorted(names, StringLeq) ==> Sorted(Offenders(values, names), StringLeq)
    decreases |names|
  {
    hide StringLeq;
    if names != [] {
      var n := |names| - 1;
      var head := Offenders(values, names[..n]);
      OffendersOffend(values, names[..n]);
      assert names == names[..n] + [names[n]];
      if Sorted(names, StringLeq) {
        forall j | 0 <= j < |head| ensures StringLeq(head[j], names[n]) {
          assert head[j] in head;
          var i :| 0 <= i < n && names[..n][i] == head[j];
        }
      }
    }
  }

  /** rejectShiftedFlagValues: `problems` are the flags it names, in the order it visits them. */
  method RejectShiftedFlagValues(values: map<string, string>, args: seq<string>)
    returns (rejected: bool, problems: seq<string>)
    ensures forall f :: f in problems <==> f in values && |values[f]| > 1 && values[f][0] == '-'
    ensures Sorted(problems, StringLeq)
    ensures rejected <==> args != [] || exists f :: f in values && |values[f]| > 1 && values[f][0] == '-'
    ensures rejected <==> !Accepted(Ok(values, args))
  {
    hide Sorted, StringLeq, Offenders;
    var names := SortedKeysOf(values);
    SameMembers(names, values.Keys);
    problems := [];
    assert names[..0] == [];
    NoneOfNone(values);
    for i := 0 to |names|
      invariant problems == Offenders(values, names[..i])
    {
      assert names[i] in names;
      OneMore(values, names, i);
      var v := values[names[i]];
      if |v| > 1 && v[0] == '-' {
        problems := problems + [names[i]];
      }
    }
    assert names[..|names|] == names;
    OffendersOffend(values, names);
    rejected := problems != [] || args != [];
    assert problems != [] ==> problems[0] in problems;
  }

  lemma NoneOfNone(values: map<string, string>)
    ensures Offenders(values, []) == []
  {
  }

  lemma OneMore(values: map<string, string>, names: seq<string>, i: nat)
    requires i < |names| && names[i] in values
    ensures Offenders(values, names[..i + 1]) ==
            Offenders(values, names[..i]) + (if Dashed(values[names[i]]) then [names[i]] else [])
  {
    assert names[..i + 1][..i] == names[..i];
  }

  /** The verdict on a whole command line: parsed, and passed by the guard. */
  predicate Accepted(p: Parsed) {
    p.Ok? && p.args == [] && forall f :: f in p.values ==> !Dashed(p.values[f])
  }

  // ── A command line as its caller meant it ─────────────────────────────────

  /** A switch, or a flag and the value interpolated after it. An empty interpolation drops the value. */
  datatype Item = SwitchItem(name: string) | ValueItem(name: string, value: string, dropped: bool)

  function Render(items: seq<Item>): seq<string> {
    if items == [] then []
    else
      (match items[0]
       case SwitchItem(n) => ["--" + n]
       case ValueItem(n, v, dropped) => if dropped then ["--" + n] else ["--" + n, v]) + Render(items[1..])
  }

  /** Declared flags, each value flag used once, and no value that looks like a flag. */
  predicate Meant(flags: Flags, items: seq<Item>) {
    && (forall i :: 0 <= i < |items| ==> items[i].name in flags)
    && (forall i :: 0 <= i < |items| ==> flags[items[i].name] == if items[i].SwitchItem? then Switch else Value)
    && (forall i :: 0 <= i < |items| && items[i].ValueItem? ==> !HasPrefix(items[i].value, "-"))
    && (forall i, j :: 0 <= i < j < |items| && items[i].ValueItem? && items[j].ValueItem? ==> items[i].name != items[j].name)
  }

  predicate Dropped(i: Item) {
    i.ValueItem? && i.dropped
  }

  /** A stray word ends up among the positionals, in order, and the guard rejects the line. */
  lemma {:induction false} StrayWordsAreKept(flags: Flags, words: seq<string>, values: map<string, string>, args: seq<string>)
    requires forall i :: 0 <= i < |words| ==> !HasPrefix(words[i], "-")
    ensures ParseArgs(flags, words, values, args) == Ok(values, args + words)
    ensures args + words != [] ==> !Accepted(ParseArgs(flags, words, values, args))
    decreases |words|
  {
    if words == [] {
      assert args + words == args;
    } else {
      assert !IsFlag(flags, words[0]) by { assert words[0] == "" || words[0][..1] != "-"; }
      StrayWordsAreKept(flags, words[1..], values, args + [words[0]]);
      assert (args + [words[0]]) + words[1..] == args + words;
    }
  }

  // ── Nothing dropped: accepted ─────────────────────────────────────────────

  /** The values the caller meant. */
  function Intended(items: seq<Item>, values: map<string, string>): map<string, string> {
    if items == [] then values
    else Intended(items[1..], values[items[0].name := if items[0].SwitchItem? then "true" else items[0].value])
  }

  lemma MeantTail(flags: Flags, items: seq<Item>)
    requires Meant(flags, items) && items != []
    ensures Meant(flags, items[1..])
    ensures IsFlag(flags, "--" + items[0].name) && ("--" + items[0].name)[2..] == items[0].name
  {
  }

  lemma {:induction false} CompleteLineIsRead(flags: Flags, items: seq<Item>, values: map<string, string>)
    requires Meant(flags, items) && forall i :: 0 <= i < |items| ==> !Dropped(items[i])
    ensures ParseArgs(flags, Render(items), values, []) == Ok(Intended(items, values), [])
    decreases |items|
  {
    if items != [] {
      var it := items[0];
      MeantTail(flags, items);
      assert !Dropped(it);
      var rest := Render(items[1..]);
      hide Meant, IsFlag;
      match it {
        case SwitchItem(n) =>
          assert (["--" + n] + rest)[1..] == rest;
          CompleteLineIsRead(flags, items[1..], values[n := "true"]);
        case ValueItem(n, v, _) =>
          assert (["--" + n, v] + rest)[2..] == rest;
          assert flags[n] == Value by { ItemKind(flags, items); }
          CompleteLineIsRead(flags, items[1..], values[n := v]);
      }
      assert it.SwitchItem? ==> flags[it.name] == Switch by { ItemKind(flags, items); }
    }
  }

  lemma ItemKind(flags: Flags, items: seq<Item>)
    requires Meant(flags, items) && items != []
    ensures items[0].name in flags && flags[items[0].name] == if items[0].SwitchItem? then Switch else Value
    ensures items[0].ValueItem? ==> !Dashed(items[0].value)
  {
  }

  lemma {:induction false} IntendedIsPlain(flags: Flags, items: seq<Item>, values: map<string, string>)
    requires Meant(flags, items) && forall f :: f in values ==> !Dashed(values[f])
    ensures forall f :: f in Intended(items, values) ==> !Dashed(Intended(items, values)[f])
    decreases |items|
  {
    if items != [] {
      MeantTail(flags, items);
      ItemKind(flags, items);
      hide Meant;
      IntendedIsPlain(flags, items[1..], values[items[0].name := if items[0].SwitchItem? then "true" else items[0].value]);
    }
  }

  /** The undropped line is read as it was meant, and passes. */
  lemma CompleteLineIsAccepted(flags: Flags, items: seq<Item>)
    requires Meant(flags, items) && forall i :: 0 <= i < |items| ==> !Dropped(items[i])
    ensures ParseArgs(flags, Render(items), map[], []) == Ok(Intended(items, map[]), [])
    ensures Accepted(ParseArgs(flags, Render(items), map[], []))
  {
    CompleteLineIsRead(flags, items, map[]);
    IntendedIsPlain(flags, items, map[]);
  }

  // ── Something dropped: caught ─────────────────────────────────────────────

  /** Tokens that a line built from items can hold: declared flags and undashed words. */
  predicate Clean(flags: Flags, argv: seq<string>) {
    forall i :: 0 <= i < |argv| ==> IsFlag(flags, argv[i]) || !Dashed(argv[i])
  }

  lemma {:induction false} RenderIsClean(flags: Flags, items: seq<Item>)
    requires Meant(flags, items)
    ensures Clean(flags, Render(items))
    decreases |items|
  {
    if items != [] {
      MeantTail(flags, items);
      ItemKind(flags, items);
      RenderIsClean(flags, items[1..]);
    }
  }

  /** A token that no item renders to is not on the line. */
  lemma {:induction false} OnLine(items: seq<Item>, t: string)
    requires t in Render(items)
    ensures exists i :: 0 <= i < |items| && (t == "--" + items[i].name || (items[i].ValueItem? && t == items[i].value))
    decreases |items|
  {
    if t in Render(items[1..]) {
      OnLine(items[1..], t);
      var i :| 0 <= i < |items[1..]| && (t == "--" + items[1..][i].name || (items[1..][i].ValueItem? && t == items[1..][i].value));
      assert items[i + 1] == items[1..][i];
    } else {
      assert t == "--" + items[0].name || (items[0].ValueItem? && t == items[0].value);
    }
  }

  /** Later arguments cannot repair a flag that none of them mentions. */
  lemma {:induction false} DashedStays(flags: Flags, argv: seq<string>, values: map<string, string>, args: seq<string>, f: string)
    requires Clean(flags, argv) && "--" + f !in argv && f in values && Dashed(values[f])
    ensures var p := ParseArgs(flags, argv, values, args);
            p.MissingArgument? || (p.Ok? && f in p.values && p.values[f] == values[f])
    decreases |argv|
  {
    if argv != [] {
      assert argv[0] in argv && argv[0] != "--" + f;
      if IsFlag(flags, argv[0]) {
        var name := argv[0][2..];
        assert argv[0] == "--" + name;
        if flags[name] == Switch {
          DashedStays(flags, argv[1..], values[name := "true"], args, f);
        } else if |argv| > 1 {
          DashedStays(flags, argv[2..], values[name := argv[1]], args, f);
        }
      } else {
        DashedStays(flags, argv[1..], values, args + [argv[0]], f);
      }
    }
  }

  /** The flag that lost its value is not named again later on the line. */
  lemma NotNamedAgain(flags: Flags, items: seq<Item>)
    requires Meant(flags, items) && items != [] && items[0].ValueItem?
    ensures "--" + items[0].name !in Render(items[1..])
  {
    var t := "--" + items[0].name;
    assert t[0] == '-' && t[2..] == items[0].name;
    forall i | 0 <= i < |items[1..]|
      ensures t != "--" + items[1..][i].name && (items[1..][i].ValueItem? ==> t != items[1..][i].value)
    {
      var other := items[i + 1];
      assert ("--" + other.name)[2..] == other.name;
      assert items[0].name != other.name;
    }
    if t in Render(items[1..]) {
      OnLine(items[1..], t);
      assert false;
    }
  }

  /** SHIFTS ARE CAUGHT. Drop the values of any items, at least one: the parser misses an argument or
      the guard rejects, naming the first flag that lost its value, with the flag that it swallowed. */
  lemma {:induction false} DroppedValueIsCaught(flags: Flags, items: seq<Item>, values: map<string, string>, k: nat)
    requires Meant(flags, items) && k < |items| && Dropped(items[k]) && forall i :: 0 <= i < k ==> !Dropped(items[i])
    ensures var p := ParseArgs(flags, Render(items), values, []);
            || p.MissingArgument?
            || (p.Ok? && items[k].name in p.values && Dashed(p.values[items[k].name])
                && k + 1 < |items| && p.values[items[k].name] == "--" + items[k + 1].name)
    decreases |items|
  {
    var it := items[0];
    var rest := Render(items[1..]);
    MeantTail(flags, items);
    ItemKind(flags, items);
    if k > 0 {
      assert items[1..][k - 1] == items[k];
      assert !Dropped(it);
      assert k + 1 < |items| ==> items[1..][k] == items[k + 1];
      hide Meant, IsFlag;
      match it {
        case SwitchItem(n) =>
          assert (["--" + n] + rest)[1..] == rest;
          DroppedValueIsCaught(flags, items[1..], values[n := "true"], k - 1);
        case ValueItem(n, v, _) =>
          assert (["--" + n, v] + rest)[2..] == rest;
          DroppedValueIsCaught(flags, items[1..], values[n := v], k - 1);
      }
    } else if |items| > 1 {
      FirstDropped(flags, items, values);
    } else {
      assert Render(items) == ["--" + it.name];
    }
  }

  lemma FirstDropped(flags: Flags, items: seq<Item>, values: map<string, string>)
    requires Meant(flags, items) && |items| > 1 && Dropped(items[0])
    ensures var p := ParseArgs(flags, Render(items), values, []);
            var f := items[0].name;
            p.MissingArgument? || (p.Ok? && f in p.values && Dashed(p.values[f]) && p.values[f] == "--" + items[1].name)
  {
    var f := items[0].name;
    var rest := Render(items[1..]);
    MeantTail(flags, items);
    ItemKind(flags, items);
    NotNamedAgain(flags, items);
    RenderIsClean(flags, items[1..]);
    hide Meant;
    var swallowed := "--" + items[1].name;
    assert rest != [] && rest[0] == swallowed by { assert items[1..][0] == items[1]; }
    var argv := ["--" + f] + rest;
    assert Render(items) == argv;
    assert argv[2..] == rest[1..] && argv[1] == swallowed;
    assert "--" + f !in rest[1..];
    DashedStays(flags, rest[1..], values[f := swallowed], [], f);
  }

  lemma DroppedLineIsRejected(flags: Flags, items: seq<Item>)
    requires Meant(flags, items) && exists i :: 0 <= i < |items| && Dropped(items[i])
    ensures !Accepted(ParseArgs(flags, Render(items), map[], []))
  {
    hide Meant, ParseArgs, Render;
    var k := FirstDrop(items);
    DroppedValueIsCaught(flags, items, map[], k);
  }

  lemma FirstDrop(items: seq<Item>) returns (k: nat)
    requires exists i :: 0 <= i < |items| && Dropped(items[i])
    ensures k < |items| && Dropped(items[k]) && forall i :: 0 <= i < k ==> !Dropped(items[i])
  {
    k := 0;
    while !Dropped(items[k])
      invariant k < |items| && forall i :: 0 <= i < k ==> !Dropped(items[i])
      decreases |items| - k
    {
      var i :| 0 <= i < |items| && Dropped(items[i]);
      k := k + 1;
    }
  }

  /** Complete and exact at once: of the lines a caller can render from one meaning, the guard lets
      through the one in which nothing is missing. */
  lemma AcceptedIffNothingDropped(flags: Flags, items: seq<Item>)
    requires Meant(flags, items)
    ensures Accepted(ParseArgs(flags, Render(items), map[], [])) <==> forall i :: 0 <= i < |items| ==> !Dropped(items[i])
  {
    hide Meant, ParseArgs, Render, Accepted;
    if forall i :: 0 <= i < |items| ==> !Dropped(items[i]) {
      CompleteLineIsAccepted(flags, items);
    } else {
      DroppedLineIsRejected(flags, items);
    }
  }

  /** Why each value flag may be used only once: given twice, the second use repairs the first one's
      shift, the flag swallowed in between is lost, and nothing is reported. */
  lemma RepeatedFlagEscapes(flags: Flags)
    requires flags == map["a" := Value, "q" := Switch]
    ensures var line := Render([ValueItem("a", "x", true), SwitchItem("q"), ValueItem("a", "y", false)]);
            ParseArgs(flags, line, map[], []) == Ok(map["a" := "y"], []) && Accepted(Ok(map["a" := "y"], []))
  {
    var a, b, c := ValueItem("a", "x", true), SwitchItem("q"), ValueItem("a", "y", false);
    assert "--" + "a" == "--a" && "--" + "q" == "--q";
    assert [a, b, c][1..] == [b, c] && [b, c][1..] == [c] && [c][1..] == [];
    assert Render([c]) == ["--a", "y"];
    assert Render([b, c]) == ["--q", "--a", "y"];
    assert Render([a, b, c]) == ["--a", "--q", "--a", "y"];
    var argv := ["--a", "--q", "--a", "y"];
    assert argv[2..] == ["--a", "y"] && ["--a", "y"][2..] == [];
    assert "--a"[2..] == "a";
    var values := map["a" := "--q"];
    assert values["a" := "y"] == map["a" := "y"];
    assert ParseArgs(flags, argv, map[], []) == ParseArgs(flags, ["--a", "y"], values, []);
  }
}
