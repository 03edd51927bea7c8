/**
 Exactly when inlining one parameter after the other is substituting all at once. Two things
 can go wrong at a turn: what was inlined before reads like the placeholder, or the literal
 contains a `$` pattern. Either way the query differs from the substitution from then on.
 */
module SqlInlining {
  import opened Prelude
  import opened Text
  import opened SqlParams

  // ---------------------------------------------------------------- a wrong turn stays wrong

  /** Where the two texts first differ, `q` does not have a `$`. */
  ghost predicate Diverges(q: string, target: string) {
    exists p :: 0 <= p < |q| && p < |target| && q[..p] == target[..p] && q[p] != target[p] && q[p] != '$'
  }

  lemma DivergesAt(q: string, target: string, p: nat)
    requires p < |q| && p < |target| && q[..p] == target[..p] && q[p] != target[p] && q[p] != '$'
    ensures Diverges(q, target)
  {}

  lemma DivergesInContext(a: string, q: string, target: string, rest: string)
    requires Diverges(q, target)
    ensures Diverges(a + q, a + target + rest)
  {
    var p :| 0 <= p < |q| && p < |target| && q[..p] == target[..p] && q[p] != target[p] && q[p] != '$';
    assert (a + q)[..|a| + p] == a + q[..p];
    assert (a + target + rest)[..|a| + p] == a + target[..p];
    DivergesAt(a + q, a + target + rest, |a| + p);
  }

  /** A literal that is not empty and neither starts nor ends with `$`: true of everything
      but an empty list, a list of one null, and objects that print so. */
  predicate IsSolid(lit: string) {
    lit != "" && lit[0] != '$' && lit[|lit| - 1] != '$'
  }

  predicate LiteralsAreSolid(params: seq<Param>) {
    forall i :: 0 <= i < |params| && Literal(params[i]).Some? ==> IsSolid(Literal(params[i]).value)
  }

  /** What is put in the place of an occurrence starts differently from what was there. */
  lemma ReplacementStarts(lit: string, before: string, matched: string, after: string)
    requires IsSolid(lit)
    ensures var e := Expand(lit, before, matched, after); e != "" && e[0] == lit[0] != '$'
  {}

  /** Replacing where both texts still agree makes them differ there. */
  lemma ReplacementDiverges(q: string, target: string, k: nat, lit: string)
    requires IsSolid(lit)
    requires var r := IndexOf(q, Placeholder(k)); 0 <= r < |target| && r < |q| && q[..r + 1] == target[..r + 1]
    ensures Diverges(ReplaceFirst(q, Placeholder(k), lit), target)
  {
    var pat := Placeholder(k);
    var r := IndexOf(q, pat);
    ReplacementStarts(lit, q[..r], pat, q[r + |pat|..]);
    var q' := ReplaceFirst(q, pat, lit);
    assert q[r] == q[r..r + |pat|][0] == '$';
    assert target[r] == target[..r + 1][r] == q[..r + 1][r];
    assert q'[..r] == q[..r] == q[..r + 1][..r] == target[..r + 1][..r] == target[..r];
    DivergesAt(q', target, r);
  }

  lemma ReplacementKeepsDivergence(q: string, target: string, k: nat, lit: string)
    requires Diverges(q, target) && IsSolid(lit)
    ensures Diverges(ReplaceFirst(q, Placeholder(k), lit), target)
  {
    var p :| 0 <= p < |q| && p < |target| && q[..p] == target[..p] && q[p] != target[p] && q[p] != '$';
    var pat := Placeholder(k);
    var r := IndexOf(q, pat);
    if r >= 0 {
      assert q[r] == q[r..r + |pat|][0] == '$';
      if r < p {
        assert q[..r + 1] == q[..p][..r + 1] == target[..p][..r + 1] == target[..r + 1];
        ReplacementDiverges(q, target, k, lit);
      } else {
        ReplacementKeepsPrefix(q, k, lit, p);
        DivergesAt(ReplaceFirst(q, pat, lit), target, p);
      }
    }
  }

  lemma ReplacementKeepsPrefix(q: string, k: nat, lit: string, p: nat)
    requires p < IndexOf(q, Placeholder(k))
    ensures var q' := ReplaceFirst(q, Placeholder(k), lit); p < |q'| && q'[..p] == q[..p] && q'[p] == q[p]
  {
    var r := IndexOf(q, Placeholder(k));
    var tail := Expand(lit, q[..r], Placeholder(k), q[r + |Placeholder(k)|..]) + q[r + |Placeholder(k)|..];
    ConcatAssociates(q[..r], Expand(lit, q[..r], Placeholder(k), q[r + |Placeholder(k)|..]), q[r + |Placeholder(k)|..]);
    assert (q[..r] + tail)[..p] == q[..r][..p] == q[..p];
  }

  lemma {:induction false} DivergenceLasts(texts: seq<string>, params: seq<Param>, k: nat, n: nat)
    requires WellFormed(texts, params) && k <= n <= |params| && LiteralsAreSolid(params)
    requires Diverges(Inlined(Weave(texts, Placeholders(|params|)), params, k), Weave(texts, Fills(params, |params|)))
    ensures Diverges(Inlined(Weave(texts, Placeholders(|params|)), params, n), Weave(texts, Fills(params, |params|)))
  {
    if n > k {
      DivergenceLasts(texts, params, k, n - 1);
      if Literal(params[n - 1]).Some? {
        var q, target := Inlined(Weave(texts, Placeholders(|params|)), params, n - 1),
            Weave(texts, Fills(params, |params|));
        ReplacementKeepsDivergence(q, target, n - 1, Literal(params[n - 1]).value);
      }
    }
  }

  /** The text after placeholder `k` in the end. */
  function FinalAfter(texts: seq<string>, params: seq<Param>, k: nat): string
    requires |texts| == |params| + 1 && k < |params|
  {
    Weave(texts[k + 1..], Fills(params, |params|)[k + 1..])
  }

  lemma TargetSplits(texts: seq<string>, params: seq<Param>, k: nat)
    requires |texts| == |params| + 1 && k < |params|
    ensures Weave(texts, Fills(params, |params|)) ==
            Before(texts, params, k) + Fill(params, k) + FinalAfter(texts, params, k)
  {
    WeaveSplit(texts, Fills(params, |params|), k);
    FillsBefore(params, k);
  }

  lemma FillsBefore(params: seq<Param>, k: nat)
    requires k < |params|
    ensures Fills(params, |params|)[..k] == Fills(params, k)[..k] && Fills(params, |params|)[k] == Fill(params, k)
  {}

  lemma NextTurn(query: string, params: seq<Param>, k: nat)
    requires k < |params| && Literal(params[k]).Some?
    ensures Inlined(query, params, k + 1) ==
            ReplaceFirst(Inlined(query, params, k), Placeholder(k), Literal(params[k]).value)
  {}

  /** A turn at which something before the placeholder reads like it puts the literal there. */
  lemma UnclearTurnDiverges(texts: seq<string>, params: seq<Param>, k: nat)
    requires WellFormed(texts, params) && k < |params|
    requires Literal(params[k]).Some? && IsSolid(Literal(params[k]).value) && !IsClear(texts, params, k)
    ensures Diverges(ReplaceFirst(Weave(texts, Fills(params, k)), Placeholder(k), Literal(params[k]).value),
                     Weave(texts, Fills(params, |params|)))
  {
    TurnSplits(texts, params, k);
    TargetSplits(texts, params, k);
    var a, b, c, lit := Before(texts, params, k), After(texts, params, k), FinalAfter(texts, params, k),
        Fill(params, k);
    ConcatAssociates(a, Placeholder(k), b);
    ConcatAssociates(a, lit, c);
    WrongPlaceDiverges(a, Placeholder(k) + b, lit + c, k, lit);
  }

  lemma WrongPlaceDiverges(a: string, x: string, y: string, k: nat, lit: string)
    requires Occurs(a, Placeholder(k)) && IsSolid(lit)
    ensures Diverges(ReplaceFirst(a + x, Placeholder(k), lit), a + y)
  {
    var pat := Placeholder(k);
    var i :| OccursAt(a, pat, i);
    OccurrenceInPrefix(a, x, pat, i);
    var r := IndexOf(a + x, pat);
    assert r <= i < |a|;
    assert (a + x)[..r + 1] == a[..r + 1] == (a + y)[..r + 1];
    ReplacementDiverges(a + x, a + y, k, lit);
  }

  // ---------------------------------------------------------------- a literal with `$` patterns

  /** Neither empty nor starting with `$`. */
  predicate StartsPlainly(s: string) {
    s != "" && s[0] != '$'
  }

  /** Not ending with `$`. */
  predicate EndsPlainly(s: string) {
    s != "" ==> s[|s| - 1] != '$'
  }

  predicate AllDollars(s: string) {
    forall i :: 0 <= i < |s| ==> s[i] == '$'
  }

  lemma DivergesAfter(c: char, q: string, target: string)
    requires Diverges(q, target)
    ensures Diverges([c] + q, [c] + target)
  {
    DivergesInContext([c], q, target, "");
    assert [c] + target + "" == [c] + target;
  }

  lemma DivergesAtStart(q: string, target: string)
    requires q != "" && target != "" && q[0] != target[0] && q[0] != '$'
    ensures Diverges(q, target)
  {
    assert q[..0] == target[..0];
    DivergesAt(q, target, 0);
  }

  lemma DivergesAtSecond(q: string, target: string)
    requires |q| > 1 && |target| > 1 && q[0] == target[0] && q[1] != target[1] && q[1] != '$'
    ensures Diverges(q, target)
  {
    assert q[..1] == [q[0]] == target[..1];
    DivergesAt(q, target, 1);
  }

  /** The expansion of what follows a pattern or a plain character, with `b` behind. */
  lemma ExpandTail(s: string, a: string, p: string, b: string)
    requires |s| >= 2 && p != ""
    ensures var x := Expand(s, a, p, b) + b;
            if s[0] == '$' && s[1] == '$' then x == ['$'] + (Expand(s[2..], a, p, b) + b)
            else if s[0] == '$' && s[1] == '&' then p <= x
            else if s[0] == '$' && s[1] == '`' then a <= x
            else if s[0] == '$' && s[1] == '\'' then |b| <= |x| && x[..|b|] == b
            else x == [s[0]] + (Expand(s[1..], a, p, b) + b)
  {
    if s[0] == '$' && IsReplacementPattern(s[1]) {
      var e := Expand(s[2..], a, p, b);
      ConcatAssociates("$", e, b);
      ConcatAssociates(p, e, b);
      ConcatAssociates(a, e, b);
      ConcatAssociates(b, e, b);
    } else {
      ConcatAssociates([s[0]], Expand(s[1..], a, p, b), b);
    }
  }

  /** A text that does not end with `$`, expanded, cannot catch up with itself behind
      further `$`s: every run of `$`s gets shorter. */
  lemma {:induction false} ExpansionFallsBehind(s: string, a: string, k: nat, b: string, w: string)
    requires EndsPlainly(s) && s != "" && StartsPlainly(a) && StartsPlainly(b) && w != "" && AllDollars(w)
    ensures Diverges(Expand(s, a, Placeholder(k), b) + b, w + s)
    decreases |s|
  {
    var p := Placeholder(k);
    var x := Expand(s, a, p, b) + b;
    if |s| == 1 {
      DivergesAtStart(x, w + s);
    } else {
      ExpandTail(s, a, p, b);
      if s[0] != '$' {
        DivergesAtStart(x, w + s);
      } else if s[1] == '$' {
        ExpansionFallsBehind(s[2..], a, k, b, w[1..] + "$$");
        DivergesAfter('$', Expand(s[2..], a, p, b) + b, w[1..] + "$$" + s[2..]);
        RunContinues(w, s);
      } else if s[1] == '&' {
        PlaceholderShape(k, 1);
        DivergesAtSecond(x, w + s);
      } else if s[1] == '`' || s[1] == '\'' {
        DivergesAtStart(x, w + s);
      } else {
        assert Expand(s[1..], a, p, b)[0] == s[1];
        DivergesAtSecond(x, w + s);
      }
    }
  }

  lemma RunContinues(w: string, s: string)
    requires w != "" && w[0] == '$' && |s| >= 2 && s[0] == '$' && s[1] == '$'
    ensures w + s == ['$'] + (w[1..] + "$$" + s[2..])
  {
    assert s == "$$" + s[2..] && w == ['$'] + w[1..];
    ConcatAssociates(w[1..], "$$", s[2..]);
    ConcatAssociates(['$'], w[1..], "$$" + s[2..]);
  }

  /** A literal with a `$` pattern is not inserted as it is, and the first difference is not
      a `$`. */
  lemma {:induction false} PatternDiverges(s: string, a: string, k: nat, b: string)
    requires !IsPlain(s) && EndsPlainly(s) && StartsPlainly(a) && StartsPlainly(b)
    ensures Diverges(Expand(s, a, Placeholder(k), b) + b, s)
    decreases |s|
  {
    var p := Placeholder(k);
    var x := Expand(s, a, p, b) + b;
    ExpandTail(s, a, p, b);
    if s[0] == '$' && s[1] == '$' {
      ExpansionFallsBehind(s[2..], a, k, b, "$");
      assert s[1..] == "$" + s[2..];
      DivergesInTail(x, s, Expand(s[2..], a, p, b) + b);
    } else if s[0] == '$' && s[1] == '&' {
      PlaceholderShape(k, 1);
      DivergesAtSecond(x, s);
    } else if s[0] == '$' && IsReplacementPattern(s[1]) {
      DivergesAtStart(x, s);
    } else {
      TailIsNotPlain(s);
      PatternDiverges(s[1..], a, k, b);
      DivergesInTail(x, s, Expand(s[1..], a, p, b) + b);
    }
  }

  lemma DivergesInTail(q: string, target: string, rest: string)
    requires target != "" && q == [target[0]] + rest && Diverges(rest, target[1..])
    ensures Diverges(q, target)
  {
    DivergesAfter(target[0], rest, target[1..]);
    assert target == [target[0]] + target[1..];
  }

  lemma TailIsNotPlain(s: string)
    requires !IsPlain(s) && !(s[0] == '$' && IsReplacementPattern(s[1]))
    ensures !IsPlain(s[1..])
  {
    var i :| 0 <= i < |s| - 1 && s[i] == '$' && IsReplacementPattern(s[i + 1]);
    assert s[1..][i - 1] == '$' && s[1..][i] == s[i + 1];
  }

  lemma PatternTurnDiverges(texts: seq<string>, params: seq<Param>, k: nat)
    requires WellFormed(texts, params) && k < |params| - 1 && texts[0] != "" && texts[k + 1] != ""
    requires Literal(params[k]).Some? && IsSolid(Literal(params[k]).value) && !IsPlain(Literal(params[k]).value)
    requires IsClear(texts, params, k)
    ensures Diverges(ReplaceFirst(Weave(texts, Fills(params, k)), Placeholder(k), Literal(params[k]).value),
                     Weave(texts, Fills(params, |params|)))
  {
    ClearReplacement(texts, params, k);
    TargetSplits(texts, params, k);
    var a, b, c, lit := Before(texts, params, k), After(texts, params, k), FinalAfter(texts, params, k),
        Fill(params, k);
    SurroundingsStartPlainly(texts, params, k);
    PatternDivergesInContext(lit, a, k, b, c);
  }

  lemma SurroundingsStartPlainly(texts: seq<string>, params: seq<Param>, k: nat)
    requires WellFormed(texts, params) && k < |params| && texts[0] != "" && texts[k + 1] != ""
    ensures StartsPlainly(Before(texts, params, k)) && StartsPlainly(After(texts, params, k))
  {
    WeaveStarts(texts[..k + 1], Fills(params, k)[..k]);
    WeaveStarts(texts[k + 1..], Fills(params, k)[k + 1..]);
  }

  lemma PatternDivergesInContext(lit: string, a: string, k: nat, b: string, c: string)
    requires !IsPlain(lit) && EndsPlainly(lit) && StartsPlainly(a) && StartsPlainly(b)
    ensures Diverges(a + Expand(lit, a, Placeholder(k), b) + b, a + lit + c)
  {
    PatternDiverges(lit, a, k, b);
    DivergesInContext(a, Expand(lit, a, Placeholder(k), b) + b, lit, c);
    ConcatAssociates(a, Expand(lit, a, Placeholder(k), b), b);
  }

  lemma WeaveStarts(texts: seq<string>, fills: seq<string>)
    requires |texts| == |fills| + 1 && texts[0] != "" && DollarFree(texts[0])
    ensures StartsPlainly(Weave(texts, fills))
  {}

  /** What a clear turn makes of the query. */
  lemma ClearReplacement(texts: seq<string>, params: seq<Param>, k: nat)
    requires WellFormed(texts, params) && k < |params| && Literal(params[k]).Some? && IsClear(texts, params, k)
    ensures var a, b := Before(texts, params, k), After(texts, params, k);
            ReplaceFirst(Weave(texts, Fills(params, k)), Placeholder(k), Literal(params[k]).value)
            == a + Expand(Literal(params[k]).value, a, Placeholder(k), b) + b
  {
    TurnSplits(texts, params, k);
    var a, b, p := Before(texts, params, k), After(texts, params, k), Placeholder(k);
    FirstAfterClear(a, b, k);
    var s := a + p + b;
    assert s[..|a|] == a && s[|a| + |p|..] == b;
  }

  // ---------------------------------------------------------------- the last turn

  /** How often a `$` stands before a character that makes it special. */
  function Patterns(s: string): nat {
    if |s| < 2 then 0 else (if s[0] == '$' && IsReplacementPattern(s[1]) then 1 else 0) + Patterns(s[1..])
  }

  /** How many patterns an expansion finds, and how many of them are `$$`. */
  function Found(s: string): (n: (nat, nat))
    ensures n.1 <= n.0 <= Patterns(s)
  {
    if |s| < 2 then (0, 0)
    else if s[0] == '$' && IsReplacementPattern(s[1]) then
      var n := Found(s[2..]);
      assert |s| > 2 ==> s[1..][1..] == s[2..];
      (n.0 + 1, n.1 + if s[1] == '$' then 1 else 0)
    else Found(s[1..])
  }

  lemma {:induction false} PlainIffNoPatterns(s: string)
    ensures Patterns(s) == 0 <==> IsPlain(s)
    ensures Found(s).0 == 0 ==> IsPlain(s)
  {
    if |s| >= 2 {
      PlainIffNoPatterns(s[1..]);
      if !IsPlain(s) && !(s[0] == '$' && IsReplacementPattern(s[1])) {
        TailIsNotPlain(s);
      }
      if IsPlain(s) {
        assert s[0] != '$' || !IsReplacementPattern(s[1]);
        forall i | 0 <= i < |s[1..]| - 1 && s[1..][i] == '$'
          ensures !IsReplacementPattern(s[1..][i + 1])
        {
          assert s[i + 1] == '$';
        }
      }
    }
  }

  lemma {:induction false} PatternsOfConcat(x: string, y: string)
    ensures EndsPlainly(x) ==> Patterns(x + y) == Patterns(x) + Patterns(y)
    ensures Patterns(x + y) <= Patterns(x) + Patterns(y) + 1
  {
    if x == "" {
      assert x + y == y;
    } else {
      assert (x + y)[1..] == x[1..] + y;
      PatternsOfConcat(x[1..], y);
      if |x| == 1 { assert x[1..] == ""; }
    }
  }

  /** Between texts without patterns an expansion leaves at most one for every `$$`. */
  lemma {:induction false} ExpansionLeavesFewPatterns(s: string, a: string, p: string, b: string)
    requires Patterns(a) == Patterns(p) == Patterns(b) == 0 && EndsPlainly(a) && EndsPlainly(p) && EndsPlainly(b)
    ensures Patterns(Expand(s, a, p, b)) <= Found(s).1
    ensures Found(s).0 == Found(s).1 ==> |Expand(s, a, p, b)| == |s| - Found(s).0
    decreases |s|
  {
    if |s| >= 2 {
      if s[0] == '$' && IsReplacementPattern(s[1]) {
        ExpansionLeavesFewPatterns(s[2..], a, p, b);
        var x := if s[1] == '$' then "$" else if s[1] == '&' then p else if s[1] == '`' then a else b;
        PatternsOfConcat(x, Expand(s[2..], a, p, b));
      } else {
        ExpansionLeavesFewPatterns(s[1..], a, p, b);
        PatternsAfter(s[0], Expand(s[1..], a, p, b));
      }
    }
  }

  lemma PatternsAfter(c: char, e: string)
    ensures c == '$' && e != "" && IsReplacementPattern(e[0]) ==> Patterns([c] + e) == 1 + Patterns(e)
    ensures !(c == '$' && e != "" && IsReplacementPattern(e[0])) ==> Patterns([c] + e) == Patterns(e)
  {
    assert ([c] + e)[1..] == e;
  }

  /** Between texts without patterns exactly the texts without patterns are inserted as they are. */
  lemma ExpansionIsIdentityIffPlain(s: string, a: string, p: string, b: string)
    requires IsPlain(a) && IsPlain(p) && IsPlain(b) && EndsPlainly(a) && EndsPlainly(p) && EndsPlainly(b)
    ensures Expand(s, a, p, b) == s <==> IsPlain(s)
  {
    PlainIffNoPatterns(a);
    PlainIffNoPatterns(p);
    PlainIffNoPatterns(b);
    PlainIffNoPatterns(s);
    ExpansionLeavesFewPatterns(s, a, p, b);
    if IsPlain(s) {
      PlainExpandsToItself(s, a, p, b);
    }
  }

  lemma PlaceholderIsPlain(k: nat)
    ensures IsPlain(Placeholder(k)) && EndsPlainly(Placeholder(k))
  {
    forall i: nat | i < |Placeholder(k)|
      ensures Placeholder(k)[i] == '$' <==> i == 0
      ensures i > 0 ==> IsDigit(Placeholder(k)[i])
    {
      PlaceholderShape(k, i);
    }
  }

  lemma {:induction false} WeaveIsPlain(texts: seq<string>, fills: seq<string>)
    requires |texts| == |fills| + 1 && forall i :: 0 <= i < |texts| ==> DollarFree(texts[i])
    requires forall i :: 0 <= i < |fills| ==> IsPlain(fills[i]) && EndsPlainly(fills[i])
    ensures IsPlain(Weave(texts, fills)) && EndsPlainly(Weave(texts, fills))
  {
    if fills != [] {
      WeaveIsPlain(texts[1..], fills[1..]);
      var rest := Weave(texts[1..], fills[1..]);
      PlainIffNoPatterns(texts[0]);
      PlainIffNoPatterns(fills[0]);
      PlainIffNoPatterns(rest);
      PatternsOfConcat(texts[0], fills[0]);
      PatternsOfConcat(texts[0] + fills[0], rest);
      PlainIffNoPatterns(texts[0] + fills[0] + rest);
    }
  }

  /** A `$` pattern in the last literal goes wrong even if no text follows it. */
  lemma LastPatternTurnIsWrong(texts: seq<string>, params: seq<Param>, k: nat)
    requires WellFormed(texts, params) && k == |params| - 1 && LiteralsAreSolid(params)
    requires Literal(params[k]).Some? && !IsPlain(Literal(params[k]).value) && IsClear(texts, params, k)
    requires forall j :: 0 <= j < k ==> IsSafe(texts, params, j)
    requires Inlined(Weave(texts, Placeholders(|params|)), params, k) == Weave(texts, Fills(params, k))
    ensures Inlined(Weave(texts, Placeholders(|params|)), params, k + 1) != Weave(texts, Fills(params, |params|))
  {
    var a, b, lit := Before(texts, params, k), After(texts, params, k), Literal(params[k]).value;
    ClearReplacement(texts, params, k);
    TurnSplits(texts, params, k);
    PlaceholderIsPlain(k);
    forall j | 0 <= j < k
      ensures IsPlain(Fills(params, k)[j]) && EndsPlainly(Fills(params, k)[j])
    {
      PlaceholderIsPlain(j);
      assert IsSafe(texts, params, j);
    }
    WeaveIsPlain(texts[..k + 1], Fills(params, k)[..k]);
    assert Fills(params, k)[k + 1..] == [] && b == texts[k + 1];
    ExpansionIsIdentityIffPlain(lit, a, Placeholder(k), b);
    NextTurn(Weave(texts, Placeholders(|params|)), params, k);
    var e := Expand(lit, a, Placeholder(k), b);
    if a + e + b == a + lit + b {
      SameMiddle(a, e, lit, b);
    }
  }

  lemma SameMiddle(a: string, x: string, y: string, b: string)
    requires a + x + b == a + y + b
    ensures x == y
  {
    assert x == (a + x + b)[|a|..|a| + |x|] == (a + y + b)[|a|..|a| + |y|] == y;
  }

  // ---------------------------------------------------------------- exactly when it is right

  lemma {:induction false} LeastUnsafe(texts: seq<string>, params: seq<Param>, n: nat) returns (k: nat)
    requires |texts| == |params| + 1 && n <= |params|
    requires exists j :: 0 <= j < n && !IsSafe(texts, params, j)
    ensures k < n && !IsSafe(texts, params, k)
    ensures forall j :: 0 <= j < k ==> IsSafe(texts, params, j)
  {
    if j :| 0 <= j < n - 1 && !IsSafe(texts, params, j) {
      k := LeastUnsafe(texts, params, n - 1);
    } else {
      k := n - 1;
    }
  }

  /** Inlining is substitution if and only if no literal has a `$` pattern and, at the turn
      of each parameter that is replaced, nothing inlined so far reads like its placeholder.
      Text stands before the first placeholder and between any two; after the last there
      may be none. */
  lemma InliningIsSubstitutionIffSafe(texts: seq<string>, params: seq<Param>)
    requires WellFormed(texts, params) && LiteralsAreSolid(params) && forall i :: 0 <= i < |params| ==> texts[i] != ""
    ensures (Inlined(Weave(texts, Placeholders(|params|)), params, |params|) ==
             Weave(texts, Fills(params, |params|))) <==>
            forall k :: 0 <= k < |params| ==> IsSafe(texts, params, k)
  {
    if forall k :: 0 <= k < |params| ==> IsSafe(texts, params, k) {
      ClearInliningIsSubstitution(texts, params, |params|);
    } else {
      var k := LeastUnsafe(texts, params, |params|);
      ClearInliningIsSubstitution(texts, params, k);
      NextTurn(Weave(texts, Placeholders(|params|)), params, k);
      if IsClear(texts, params, k) && k == |params| - 1 {
        LastPatternTurnIsWrong(texts, params, k);
      } else {
        if IsClear(texts, params, k) {
          PatternTurnDiverges(texts, params, k);
        } else {
          UnclearTurnDiverges(texts, params, k);
        }
        DivergenceLasts(texts, params, k + 1, |params|);
      }
    }
  }

  /** Strings, numbers, booleans and null always give a solid literal. */
  lemma ScalarLiteralsAreSolid(p: Param)
    requires p.String? || p.Number? || p.Boolean? || p.Null?
    ensures IsSolid(Literal(p).value)
  {}

  /** The same without lists and objects: nothing needs to be asked of the literals then. */
  lemma ScalarInliningIsSubstitutionIffSafe(texts: seq<string>, params: seq<Param>)
    requires WellFormed(texts, params) && forall i :: 0 <= i < |params| ==> texts[i] != ""
    requires forall i :: 0 <= i < |params| ==> !params[i].List? && !params[i].Object?
    ensures (Inlined(Weave(texts, Placeholders(|params|)), params, |params|) ==
             Weave(texts, Fills(params, |params|))) <==>
            forall k :: 0 <= k < |params| ==> IsSafe(texts, params, k)
  {
    forall i | 0 <= i < |params| && Literal(params[i]).Some?
      ensures IsSolid(Literal(params[i]).value)
    {
      ScalarLiteralsAreSolid(params[i]);
    }
    InliningIsSubstitutionIffSafe(texts, params);
  }

  /** A turn is not clear if an earlier literal contains its placeholder. */
  lemma PlaceholderInFill(texts: seq<string>, params: seq<Param>, j: nat, k: nat)
    requires |texts| == |params| + 1 && j < k < |params| && Occurs(Fill(params, j), Placeholder(k))
    ensures !IsClear(texts, params, k)
  {
    var ts, fs := texts[..k + 1], Fills(params, k)[..k];
    WeaveSplit(ts, fs, j);
    OccursInside(Weave(ts[..j + 1], fs[..j]), fs[j], Weave(ts[j + 1..], fs[j + 1..]), Placeholder(k));
  }

  lemma OccursInside(a: string, s: string, b: string, pat: string)
    requires Occurs(s, pat)
    ensures Occurs(a + s + b, pat)
  {
    var i :| OccursAt(s, pat, i);
    OccurrenceInSuffix(a, s, pat, |a| + i);
    OccurrenceInPrefix(a + s, b, pat, |a| + i);
  }

  /** A string can read like a later placeholder, and then the wrong place is filled. */
  lemma StringCanShadowPlaceholder()
    ensures var texts, params := ["a = ", " AND b = ", ""], [String("$2"), Number(7)];
            Inlined(Weave(texts, Placeholders(|params|)), params, |params|) != Weave(texts, Fills(params, |params|))
  {
    var texts, params := ["a = ", " AND b = ", ""], [String("$2"), Number(7)];
    SecondPlaceholderInQuotes();
    PlaceholderInFill(texts, params, 0, 1);
    assert !IsSafe(texts, params, 1);
    ScalarInliningIsSubstitutionIffSafe(texts, params);
  }

  lemma SecondPlaceholderInQuotes()
    ensures Occurs(Quoted("$2"), Placeholder(1))
  {
    var quoted := Quoted("$2");
    assert Decimal(2) == ['2'];
    assert quoted[1] == '$' && quoted[2] == '2';
    assert quoted[1..3] == [quoted[1], quoted[2]] == Placeholder(1);
    assert OccursAt(quoted, Placeholder(1), 1);
  }

  /** A string with a doubled dollar sign loses one, although its turn is clear. */
  lemma DoubledDollarIsLost()
    ensures var texts, params := ["a = ", ""], [String("x$$y")];
            && IsClear(texts, params, 0)
            && Inlined(Weave(texts, Placeholders(|params|)), params, |params|) != Weave(texts, Fills(params, |params|))
  {
    var texts, params := ["a = ", ""], [String("x$$y")];
    var lit := Quoted("x$$y");
    assert lit[2] == '$' && lit[3] == '$';
    FirstTurnIsClear(texts, params);
    assert !IsSafe(texts, params, 0);
    ScalarInliningIsSubstitutionIffSafe(texts, params);
  }

  lemma FirstTurnIsClear(texts: seq<string>, params: seq<Param>)
    requires WellFormed(texts, params) && params != []
    ensures IsClear(texts, params, 0)
  {
    assert texts[..1] == [texts[0]] && Before(texts, params, 0) == texts[0];
    forall i
      ensures !OccursAt(texts[0], Placeholder(0), i)
    {
      OccurrenceNeedsDollar(texts[0], 0, i);
    }
  }
}
