/**
 The two JavaScript string transformations applied to a submitted public key:
 `String.prototype.trim` and `replace(/[\r\n]+/g, ' ')`.
 */
module JsText {
  import opened Common

  /** ECMAScript WhiteSpace and LineTerminator code points: what `trim` strips. */
  predicate IsTrimmable(c: char) {
    || c == '\t' || c == '\n' || c == '\U{B}' || c == '\U{C}' || c == '\r' || c == ' '
    || c == '\U{A0}' || c == '\U{1680}'
    || ('\U{2000}' <= c <= '\U{200A}')
    || c == '\U{2028}' || c == '\U{2029}' || c == '\U{202F}' || c == '\U{205F}'
    || c == '\U{3000}' || c == '\U{FEFF}'
  }

  /** The character class `[\r\n]`. */
  predicate IsCrLf(c: char) {
    c == '\r' || c == '\n'
  }

  ghost predicate AllTrimmable(s: string) {
    forall i | 0 <= i < |s| :: IsTrimmable(s[i])
  }

  ghost predicate NoCrLf(s: string) {
    forall i | 0 <= i < |s| :: !IsCrLf(s[i])
  }

  /** Drops leading whitespace: `s` is the dropped whitespace followed by `r`. */
  function TrimStart(s: string): (r: string)
    ensures |r| <= |s| && s[|s| - |r|..] == r
    ensures AllTrimmable(s[..|s| - |r|])
    ensures r == [] || !IsTrimmable(r[0])
  {
    if s != [] && IsTrimmable(s[0]) then TrimStart(s[1..]) else s
  }

  /** Drops trailing whitespace: `s` is `r` followed by the dropped whitespace. */
  function TrimEnd(s: string): (r: string)
    ensures |r| <= |s| && s[..|r|] == r
    ensures AllTrimmable(s[|r|..])
    ensures r == [] || !IsTrimmable(r[|r| - 1])
    ensures r != [] ==> r[0] == s[0]
  {
    if s != [] && IsTrimmable(s[|s| - 1]) then
      var init := s[..|s| - 1];
      var r := TrimEnd(init);
      assert s[..|r|] == init[..|r|];
      assert s[|r|..] == init[|r|..] + [s[|s| - 1]];
      r
    else s
  }

  /**
   `s.trim()`: `s` splits as whitespace, then `r`, then whitespace, and `r`
   neither starts nor ends with whitespace.
   */
  function Trim(s: string): (r: string)
    ensures exists i | 0 <= i <= |s| - |r| :: s[i..i + |r|] == r && AllTrimmable(s[..i]) && AllTrimmable(s[i + |r|..])
    ensures r == [] || (!IsTrimmable(r[0]) && !IsTrimmable(r[|r| - 1]))
  {
    var t := TrimStart(s);
    var r := TrimEnd(t);
    TrimPieces(s, t, r);
    r
  }

  /** The trimmed text sits at the offset where the leading whitespace ends. */
  lemma TrimPieces(s: string, t: string, r: string)
    requires |t| <= |s| && s[|s| - |t|..] == t && AllTrimmable(s[..|s| - |t|])
    requires |r| <= |t| && t[..|r|] == r && AllTrimmable(t[|r|..])
    requires t == [] || !IsTrimmable(t[0])
    requires r == [] || !IsTrimmable(r[|r| - 1])
    ensures var i := |s| - |t|;
      s[i..i + |r|] == r && AllTrimmable(s[..i]) && AllTrimmable(s[i + |r|..])
    ensures r == [] || (!IsTrimmable(r[0]) && !IsTrimmable(r[|r| - 1]))
  {
    var i := |s| - |t|;
    assert s[i..i + |r|] == t[..|r|];
    assert s[i + |r|..] == t[|r|..];
    if r != [] {
      assert r[0] == t[0];
    }
  }

  /** Trailing whitespace after a text that does not end in whitespace is what `trimEnd` drops. */
  lemma {:induction false} TrimEndPadding(x: string, pad: string)
    requires x == [] || !IsTrimmable(x[|x| - 1])
    requires AllTrimmable(pad)
    ensures TrimEnd(x + pad) == x
    decreases |pad|
  {
    if pad == [] {
      assert x + pad == x;
    } else {
      var init := pad[..|pad| - 1];
      assert (x + pad)[|x + pad| - 1] == pad[|pad| - 1];
      assert (x + pad)[..|x + pad| - 1] == x + init;
      assert AllTrimmable(init) by {
        forall i | 0 <= i < |init| ensures IsTrimmable(init[i]) {
          assert init[i] == pad[i];
        }
      }
      TrimEndPadding(x, init);
    }
  }

  /** A text that neither starts nor ends with whitespace, followed by whitespace, trims to itself. */
  lemma TrimPadding(x: string, pad: string)
    requires x != [] && !IsTrimmable(x[0]) && !IsTrimmable(x[|x| - 1])
    requires AllTrimmable(pad)
    ensures Trim(x + pad) == x
  {
    assert (x + pad)[0] == x[0];
    assert TrimStart(x + pad) == x + pad;
    TrimEndPadding(x, pad);
  }

  lemma NoCrLfConcat(a: string, b: string)
    requires NoCrLf(a) && NoCrLf(b)
    ensures NoCrLf(a + b)
  {
    forall i | 0 <= i < |a + b| ensures !IsCrLf((a + b)[i]) {
      if i >= |a| {
        assert (a + b)[i] == b[i - |a|];
      }
    }
  }

  /**
   What the replacement emits for a leading `c` followed by `t`: any other
   character is kept, and a CR or LF becomes a space only when it is the last
   of its run.
   */
  function Emitted(c: char, t: string): string {
    if !IsCrLf(c) then [c] else if t != [] && IsCrLf(t[0]) then [] else " "
  }

  /**
   `s.replace(/[\r\n]+/g, ' ')`. A CR or LF becomes a space only when it is the
   last character of its run, so each maximal run yields exactly one space.
   */
  function CollapseLineBreaks(s: string): string {
    if s == [] then [] else Emitted(s[0], s[1..]) + CollapseLineBreaks(s[1..])
  }

  /** The replacement leaves no CR or LF behind and never lengthens the text. */
  lemma {:induction false} CollapseRemovesLineBreaks(s: string)
    ensures NoCrLf(CollapseLineBreaks(s))
    ensures |CollapseLineBreaks(s)| <= |s|
  {
    if s != [] {
      CollapseRemovesLineBreaks(s[1..]);
      CollapseCons(s);
    }
  }

  /** Text without line breaks passes through the replacement unchanged. */
  lemma {:induction false} CollapseIdentity(s: string)
    requires NoCrLf(s)
    ensures CollapseLineBreaks(s) == s
  {
    if s != [] {
      assert NoCrLf(s[1..]) by {
        forall i | 0 <= i < |s[1..]| ensures !IsCrLf(s[1..][i]) {
          assert s[1..][i] == s[i + 1];
        }
      }
      CollapseIdentity(s[1..]);
    }
  }

  /** The replacement is idempotent. */
  lemma CollapseIdempotent(s: string)
    ensures CollapseLineBreaks(CollapseLineBreaks(s)) == CollapseLineBreaks(s)
  {
    CollapseRemovesLineBreaks(s);
    CollapseIdentity(CollapseLineBreaks(s));
  }

  lemma CollapseCons(s: string)
    requires s != []
    ensures CollapseLineBreaks(s) == Emitted(s[0], s[1..]) + CollapseLineBreaks(s[1..])
  {
  }

  /** The replacement on a concatenation, one character into the left part. */
  lemma CollapseStep(a: string, b: string)
    requires a != []
    ensures CollapseLineBreaks(a + b) == Emitted(a[0], a[1..] + b) + CollapseLineBreaks(a[1..] + b)
  {
    assert (a + b)[1..] == a[1..] + b;
    assert (a + b)[0] == a[0];
    CollapseCons(a + b);
  }

  /** Splitting outside a run of line breaks commutes with the replacement. */
  lemma {:induction false} CollapseConcat(a: string, b: string)
    requires a == [] || b == [] || !IsCrLf(a[|a| - 1]) || !IsCrLf(b[0])
    ensures CollapseLineBreaks(a + b) == CollapseLineBreaks(a) + CollapseLineBreaks(b)
    decreases |a|
  {
    if a == [] {
      assert a + b == b;
    } else if |a| == 1 {
      CollapseLast(a, b);
    } else {
      assert a[1..][|a| - 2] == a[|a| - 1];
      CollapseConcat(a[1..], b);
      CollapseConcatStep(a, b);
    }
  }

  /** The base case: one character in front of `b`. */
  lemma CollapseLast(a: string, b: string)
    requires |a| == 1
    requires b == [] || !IsCrLf(a[0]) || !IsCrLf(b[0])
    ensures CollapseLineBreaks(a + b) == CollapseLineBreaks(a) + CollapseLineBreaks(b)
  {
    assert a[1..] == [];
    assert a + b == [a[0]] + b;
    assert (a + b)[1..] == b;
    CollapseCons(a + b);
  }

  /** The inductive step: one more character in front of a split that already commutes. */
  lemma CollapseConcatStep(a: string, b: string)
    requires |a| >= 2
    requires CollapseLineBreaks(a[1..] + b) == CollapseLineBreaks(a[1..]) + CollapseLineBreaks(b)
    ensures CollapseLineBreaks(a + b) == CollapseLineBreaks(a) + CollapseLineBreaks(b)
  {
    var t := a[1..];
    CollapseStep(a, b);
    assert (t + b)[0] == t[0];
    CollapseCons(a);
    ConcatAssoc(Emitted(a[0], t), CollapseLineBreaks(t), CollapseLineBreaks(b));
  }

  /** A non-empty run made only of CR and LF collapses to one space. */
  lemma {:induction false} CollapseRun(run: string)
    requires |run| > 0 && forall i | 0 <= i < |run| :: IsCrLf(run[i])
    ensures CollapseLineBreaks(run) == " "
  {
    if |run| > 1 {
      CollapseRun(run[1..]);
    }
  }

  /** A run of line breaks followed by text that does not start with one. */
  lemma RunThenRest(run: string, b: string)
    requires |run| > 0 && forall i | 0 <= i < |run| :: IsCrLf(run[i])
    requires b == [] || !IsCrLf(b[0])
    ensures CollapseLineBreaks(run + b) == " " + CollapseLineBreaks(b)
  {
    CollapseRun(run);
    CollapseConcat(run, b);
  }

  /** Each maximal run of CR/LF between `a` and `b` is replaced by a single space. */
  lemma MaximalRunBecomesOneSpace(a: string, run: string, b: string)
    requires |run| > 0 && forall i | 0 <= i < |run| :: IsCrLf(run[i])
    requires a == [] || !IsCrLf(a[|a| - 1])
    requires b == [] || !IsCrLf(b[0])
    ensures CollapseLineBreaks(a + (run + b)) == CollapseLineBreaks(a) + (" " + CollapseLineBreaks(b))
  {
    RunThenRest(run, b);
    CollapseConcat(a, run + b);
  }
}
