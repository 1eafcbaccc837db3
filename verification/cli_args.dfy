/**
 The command-line argument parser: `--key` and `--key=value` flags go into
 an object by key, every other argument is appended to the `_` list.

 The parser inherits two JavaScript object quirks, both modelled here. A
 flag whose key is `__proto__` assigns a primitive to the prototype setter,
 which does nothing. A flag whose key is `_` replaces the positional list by
 `true` or a string, after which the next positional argument makes
 `out._.push` throw.
 */
module CliArgs {
  import opened Common

  /** A flag's value (`true` or a string), or the positional list. */
  datatype ArgValue = On | Str(text: string) | List(items: seq<string>)

  const PushFailure: string := "out._.push is not a function"

  /** `a.startsWith('--')`. */
  predicate IsFlag(a: string) {
    "--" <= a
  }

  /** The text before the first `=`, or all of `s`: the first piece of `s.split('=')`. */
  function BeforeSep(s: string): (r: string)
    ensures r <= s && '=' !in r
    ensures |r| < |s| ==> s[|r|] == '='
  {
    if s == [] || s[0] == '=' then [] else [s[0]] + BeforeSep(s[1..])
  }

  /** The text after the first `=`, if there is one. */
  function AfterSep(s: string): (r: Option<string>)
    ensures r.None? <==> '=' !in s
    ensures r.Some? ==> s == BeforeSep(s) + "=" + r.value
  {
    if s == [] then None
    else if s[0] == '=' then Some(s[1..])
    else
      var rest := AfterSep(s[1..]);
      assert s == [s[0]] + s[1..];
      rest
  }

  /** `k` in `const [k, v] = a.slice(2).split('=')`. */
  function FlagKey(a: string): (k: string)
    requires IsFlag(a)
    ensures '=' !in k && k <= a[2..]
  {
    BeforeSep(a[2..])
  }

  /** `v === undefined ? true : v`, where `v` is the second piece of the split. */
  function FlagValue(a: string): (v: ArgValue)
    requires IsFlag(a)
    ensures !v.List?
    ensures v.On? <==> '=' !in a[2..]
    ensures v.Str? ==> '=' !in v.text && FlagKey(a) + "=" + v.text <= a[2..]
    ensures v.Str? && |FlagKey(a) + "=" + v.text| < |a[2..]| ==> a[2..][|FlagKey(a) + "=" + v.text|] == '='
  {
    match AfterSep(a[2..])
    case None => On
    case Some(after) =>
      var v := BeforeSep(after);
      assert after == v + after[|v|..];
      Str(v)
  }

  /** The value of the last flag in `xs` with key `k`, searching from the end. */
  function LastFlag(xs: seq<string>, k: string): (r: Option<ArgValue>)
    ensures r.Some? ==> !r.value.List?
  {
    if xs == [] then None
    else
      var a := xs[|xs| - 1];
      if IsFlag(a) && FlagKey(a) == k then Some(FlagValue(a)) else LastFlag(xs[..|xs| - 1], k)
  }

  /** The non-flag arguments, in their original order. */
  function Positionals(xs: seq<string>): (r: seq<string>)
    ensures |r| <= |xs|
    ensures forall x :: x in r <==> x in xs && !IsFlag(x)
  {
    if xs == [] then []
    else
      var a := xs[|xs| - 1];
      var init := xs[..|xs| - 1];
      assert xs == init + [a];
      Positionals(init) + (if IsFlag(a) then [] else [a])
  }

  /** A positional argument somewhere after a `--_` flag: the parser throws. */
  ghost predicate Crashes(xs: seq<string>) {
    exists i, j :: 0 <= i < j < |xs| && IsFlag(xs[i]) && FlagKey(xs[i]) == "_" && !IsFlag(xs[j])
  }

  /** What the parsed object holds under `k`, when the parser does not throw. */
  function Expected(xs: seq<string>, k: string): Option<ArgValue> {
    if k == "__proto__" then None
    else if k == "_" then
      match LastFlag(xs, "_")
      case Some(v) => Some(v)
      case None => Some(List(Positionals(xs)))
    else LastFlag(xs, k)
  }

  function Lookup(m: map<string, ArgValue>, k: string): Option<ArgValue> {
    if k in m then Some(m[k]) else None
  }

  /** One argument's effect on the object: `None` when the push throws. */
  function Step(out: map<string, ArgValue>, a: string): Option<map<string, ArgValue>> {
    if IsFlag(a) then
      if FlagKey(a) == "__proto__" then Some(out) else Some(out[FlagKey(a) := FlagValue(a)])
    else if "_" in out && out["_"].List? then Some(out["_" := List(out["_"].items + [a])])
    else None
  }

  /** `parseArgs(argv)`: the object by key, or the `TypeError` its push throws. */
  method ParseArgs(argv: seq<string>) returns (r: Result<map<string, ArgValue>>)
    ensures r.Failure? <==> Crashes(argv)
    ensures r.Failure? ==> r.message == PushFailure
    ensures r.Success? ==> forall k :: Lookup(r.value, k) == Expected(argv, k)
  {
    var out: map<string, ArgValue> := map["_" := List([])];
    var i := 0;
    while i < |argv|
      invariant 0 <= i <= |argv|
      invariant !Crashes(argv[..i])
      invariant forall k :: Lookup(out, k) == Expected(argv[..i], k)
    {
      var a := argv[i];
      assert argv[..i + 1] == argv[..i] + [a];
      StepMatchesExpected(out, argv[..i], a);
      var next := Step(out, a);
      if next.None? {
        PrefixCrashes(argv, i + 1);
        return Failure(PushFailure);
      }
      out := next.value;
      i := i + 1;
    }
    assert argv[..i] == argv;
    return Success(out);
  }

  /** A step keeps the object in agreement with the reference reading, and throws exactly on a crash. */
  lemma StepMatchesExpected(out: map<string, ArgValue>, xs: seq<string>, a: string)
    requires forall k :: Lookup(out, k) == Expected(xs, k)
    requires !Crashes(xs)
    ensures Step(out, a).None? <==> Crashes(xs + [a])
    ensures Step(out, a).Some? ==> forall k :: Lookup(Step(out, a).value, k) == Expected(xs + [a], k)
  {
    SnocCrashes(xs, a);
    LastFlagFound(xs, "_");
    assert Lookup(out, "_") == Expected(xs, "_");
    if Step(out, a).Some? {
      forall k
        ensures Lookup(Step(out, a).value, k) == Expected(xs + [a], k)
      {
        StepAgrees(out, xs, a, k);
      }
    }
  }

  /** The step's effect on one key. */
  lemma StepAgrees(out: map<string, ArgValue>, xs: seq<string>, a: string, k: string)
    requires Lookup(out, k) == Expected(xs, k) && Lookup(out, "_") == Expected(xs, "_")
    requires Step(out, a).Some?
    ensures Lookup(Step(out, a).value, k) == Expected(xs + [a], k)
  {
    SnocLastFlag(xs, a, k);
    SnocPositionals(xs, a);
    var next := Step(out, a).value;
    if IsFlag(a) {
      if FlagKey(a) != k {
        assert Lookup(next, k) == Lookup(out, k);
        assert LastFlag(xs + [a], k) == LastFlag(xs, k);
        assert Positionals(xs + [a]) == Positionals(xs);
        assert Expected(xs + [a], k) == Expected(xs, k);
      }
    } else {
      SnocLastFlag(xs, a, "_");
      assert LastFlag(xs, "_").None?;
      if k == "_" {
        assert next["_"] == List(Positionals(xs) + [a]);
      } else {
        assert Lookup(next, k) == Lookup(out, k);
      }
    }
  }

  /** How the last-flag lookup extends by one argument. */
  lemma SnocLastFlag(xs: seq<string>, a: string, k: string)
    ensures LastFlag(xs + [a], k) == if IsFlag(a) && FlagKey(a) == k then Some(FlagValue(a)) else LastFlag(xs, k)
  {
    assert (xs + [a])[..|xs + [a]| - 1] == xs;
  }

  /** How the positional list extends by one argument. */
  lemma SnocPositionals(xs: seq<string>, a: string)
    ensures Positionals(xs + [a]) == Positionals(xs) + (if IsFlag(a) then [] else [a])
  {
    assert (xs + [a])[..|xs + [a]| - 1] == xs;
  }

  /** A flag with key `k` exists exactly when the last-flag lookup finds one. */
  lemma {:induction false} LastFlagFound(xs: seq<string>, k: string)
    ensures LastFlag(xs, k).Some? <==> exists i :: 0 <= i < |xs| && IsFlag(xs[i]) && FlagKey(xs[i]) == k
  {
    if xs != [] {
      var init := xs[..|xs| - 1];
      LastFlagFound(init, k);
      if LastFlag(init, k).Some? {
        var i :| 0 <= i < |init| && IsFlag(init[i]) && FlagKey(init[i]) == k;
        assert xs[i] == init[i];
      }
      if exists i :: 0 <= i < |xs| && IsFlag(xs[i]) && FlagKey(xs[i]) == k {
        var i :| 0 <= i < |xs| && IsFlag(xs[i]) && FlagKey(xs[i]) == k;
        if i < |init| {
          assert init[i] == xs[i];
        }
      }
    }
  }

  /** Appending an argument crashes the parse exactly when it is positional and a `--_` came before. */
  lemma SnocCrashes(xs: seq<string>, a: string)
    ensures Crashes(xs + [a]) <==> Crashes(xs) || (!IsFlag(a) && exists i :: 0 <= i < |xs| && IsFlag(xs[i]) && FlagKey(xs[i]) == "_")
  {
    var ys := xs + [a];
    if Crashes(ys) && !Crashes(xs) {
      var i, j :| 0 <= i < j < |ys| && IsFlag(ys[i]) && FlagKey(ys[i]) == "_" && !IsFlag(ys[j]);
      assert xs[i] == ys[i];
    }
    if Crashes(xs) {
      var i, j :| 0 <= i < j < |xs| && IsFlag(xs[i]) && FlagKey(xs[i]) == "_" && !IsFlag(xs[j]);
      assert ys[i] == xs[i] && ys[j] == xs[j];
    }
    if !IsFlag(a) && exists i :: 0 <= i < |xs| && IsFlag(xs[i]) && FlagKey(xs[i]) == "_" {
      var i :| 0 <= i < |xs| && IsFlag(xs[i]) && FlagKey(xs[i]) == "_";
      assert ys[i] == xs[i] && ys[|xs|] == a;
    }
  }

  /** A crash in a prefix is a crash of the whole argument list. */
  lemma PrefixCrashes(xs: seq<string>, n: nat)
    requires n <= |xs| && Crashes(xs[..n])
    ensures Crashes(xs)
  {
    var i, j :| 0 <= i < j < n && IsFlag(xs[..n][i]) && FlagKey(xs[..n][i]) == "_" && !IsFlag(xs[..n][j]);
    assert xs[i] == xs[..n][i] && xs[j] == xs[..n][j];
  }

  /** A repeated key takes the value of its last occurrence. */
  lemma {:induction false} LastOccurrenceWins(xs: seq<string>, k: string, i: nat)
    requires i < |xs| && IsFlag(xs[i]) && FlagKey(xs[i]) == k
    requires forall j | i < j < |xs| :: !(IsFlag(xs[j]) && FlagKey(xs[j]) == k)
    ensures LastFlag(xs, k) == Some(FlagValue(xs[i]))
  {
    if i < |xs| - 1 {
      var init := xs[..|xs| - 1];
      assert init[i] == xs[i];
      forall j | i < j < |init|
        ensures !(IsFlag(init[j]) && FlagKey(init[j]) == k)
      {
        assert init[j] == xs[j];
      }
      LastOccurrenceWins(init, k, i);
    }
  }

  /** The positional list of a concatenation is the concatenation of the lists: order is kept. */
  lemma {:induction false} PositionalsConcat(xs: seq<string>, ys: seq<string>)
    ensures Positionals(xs + ys) == Positionals(xs) + Positionals(ys)
    decreases |ys|
  {
    if ys == [] {
      assert xs + ys == xs;
    } else {
      var init := ys[..|ys| - 1];
      var a := ys[|ys| - 1];
      var tail := if IsFlag(a) then [] else [a];
      assert ys == init + [a];
      assert xs + ys == (xs + init) + [a];
      calc {
        Positionals(xs + ys);
        { SnocPositionals(xs + init, a); }
        Positionals(xs + init) + tail;
        { PositionalsConcat(xs, init); }
        (Positionals(xs) + Positionals(init)) + tail;
        Positionals(xs) + (Positionals(init) + tail);
        { SnocPositionals(init, a); }
        Positionals(xs) + Positionals(ys);
      }
    }
  }

  /** `--k` with no `=` sets `true`. */
  lemma BareFlagIsOn(a: string)
    requires a == "--host"
    ensures IsFlag(a) && FlagKey(a) == "host" && FlagValue(a) == On
  {
    assert a[2..] == "host";
  }

  /** `--k=` sets the empty string. */
  lemma EmptyValue(a: string)
    requires a == "--k="
    ensures IsFlag(a) && FlagKey(a) == "k" && FlagValue(a) == Str("")
  {
    var s := a[2..];
    assert s == "k=";
    assert s[1..] == "=";
    assert AfterSep(s) == Some("");
  }

  /** Splitting at the first `=`: the text before it and the text after it. */
  lemma {:induction false} SplitAtFirstSep(x: string, y: string)
    requires '=' !in x
    ensures BeforeSep(x + "=" + y) == x
    ensures AfterSep(x + "=" + y) == Some(y)
    decreases |x|
  {
    var s := x + "=" + y;
    if x == [] {
      assert s == "=" + y;
    } else {
      assert s[0] == x[0];
      assert s[1..] == x[1..] + "=" + y;
      SplitAtFirstSep(x[1..], y);
      assert x == [x[0]] + x[1..];
    }
  }

  /** `--k=v=w` keeps only `v`, the text between the first and second `=`; the rest is dropped. */
  lemma SecondSeparatorTruncates(key: string, v: string, w: string)
    requires '=' !in key && '=' !in v
    ensures var a := "--" + key + "=" + v + "=" + w;
      IsFlag(a) && FlagKey(a) == key && FlagValue(a) == Str(v)
  {
    var a := "--" + key + "=" + v + "=" + w;
    var tail := v + "=" + w;
    assert a[..2] == "--";
    assert a[2..] == key + "=" + tail;
    SplitAtFirstSep(key, tail);
    SplitAtFirstSep(v, w);
  }
}
