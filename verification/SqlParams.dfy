/**
 The inlining of query parameters: one `replace` of a placeholder after the other, against
 the substitution of all placeholders at once.
 */
module SqlParams {
  import opened Prelude
  import opened Text

  // ---------------------------------------------------------------- String.prototype.replace

  /** What follows a `$` makes it special in a replacement text. */
  predicate IsReplacementPattern(c: char) {
    c == '$' || c == '&' || c == '`' || c == '\''
  }

  /** The replacement text with its `$` patterns expanded, for a match of `matched` between
      `before` and `after`. */
  function Expand(replacement: string, before: string, matched: string, after: string): string {
    if |replacement| < 2 then replacement
    else if replacement[0] == '$' && IsReplacementPattern(replacement[1]) then
      (match replacement[1]
       case '$' => "$"
       case '&' => matched
       case '`' => before
       case _ => after) + Expand(replacement[2..], before, matched, after)
    else [replacement[0]] + Expand(replacement[1..], before, matched, after)
  }

  /** `s.replace(pat, replacement)` for a string pattern: only the first occurrence. */
  function ReplaceFirst(s: string, pat: string, replacement: string): string {
    var i := IndexOf(s, pat);
    if i < 0 then s
    else s[..i] + Expand(replacement, s[..i], pat, s[i + |pat|..]) + s[i + |pat|..]
  }

  /** A replacement text without `$` patterns. */
  predicate IsPlain(s: string) {
    forall i :: 0 <= i < |s| - 1 && s[i] == '$' ==> !IsReplacementPattern(s[i + 1])
  }

  lemma {:induction false} PlainExpandsToItself(s: string, before: string, matched: string, after: string)
    requires IsPlain(s)
    ensures Expand(s, before, matched, after) == s
  {
    if |s| >= 2 {
      assert s[0] != '$' || !IsReplacementPattern(s[1]);
      assert IsPlain(s[1..]) by {
        forall i | 0 <= i < |s[1..]| - 1 && s[1..][i] == '$'
          ensures !IsReplacementPattern(s[1..][i + 1])
        {
          assert s[i + 1] == '$';
        }
      }
      PlainExpandsToItself(s[1..], before, matched, after);
      assert s == [s[0]] + s[1..];
    }
  }

  // ---------------------------------------------------------------- parameters

  datatype Scalar = StringItem(text: string) | NumberItem(number: int) | BooleanItem(boolean: bool) | NullItem

  /** `Other` stands for `undefined` and the remaining types, which are left in place;
      `Object` for a date or another object, known by what `String(value)` makes of it. */
  datatype Param =
    | String(text: string)
    | Number(number: int)
    | Boolean(boolean: bool)
    | List(items: seq<Scalar>)
    | Null
    | Object(text: string)
    | Other

  function Quoted(s: string): string {
    "\"" + s + "\""
  }

  function BoolText(b: bool): string {
    if b then "true" else "false"
  }

  function ItemText(item: Scalar): string {
    match item
    case StringItem(text) => Quoted(text)
    case NumberItem(number) => IntText(number)
    case BooleanItem(boolean) => BoolText(boolean)
    case NullItem => ""
  }

  function JoinItems(items: seq<Scalar>): string {
    if items == [] then ""
    else if |items| == 1 then ItemText(items[0])
    else ItemText(items[0]) + "," + JoinItems(items[1..])
  }

  /** The text a parameter is replaced by, if it is replaced. */
  function Literal(p: Param): Option<string> {
    match p
    case String(text) => Some(Quoted(text))
    case Number(number) => Some(IntText(number))
    case Boolean(boolean) => Some(BoolText(boolean))
    case List(items) => Some(JoinItems(items))
    case Null => Some("null")
    case Object(text) => Some(text)
    case Other => None
  }

  /** The placeholder of parameter `i`, counted from 0. */
  function Placeholder(i: nat): string {
    "$" + Decimal(i + 1)
  }

  function Inlined(query: string, params: seq<Param>, n: nat): string
    requires n <= |params|
  {
    if n == 0 then query
    else
      var q := Inlined(query, params, n - 1);
      match Literal(params[n - 1])
      case Some(text) => ReplaceFirst(q, Placeholder(n - 1), text)
      case None => q
  }

  /** The loop over the parameters. */
  method QueryParamsAssign(query: string, params: seq<Param>) returns (q: string)
    ensures q == Inlined(query, params, |params|)
  {
    q := query;
    for i := 0 to |params|
      invariant q == Inlined(query, params, i)
    {
      var text := Literal(params[i]);
      if text.Some? {
        q := ReplaceFirst(q, Placeholder(i), text.value);
      }
    }
  }

  // ---------------------------------------------------------------- templates

  /** texts[0] fills[0] texts[1] fills[1] … texts[n]. */
  function Weave(texts: seq<string>, fills: seq<string>): string
    requires |texts| == |fills| + 1
  {
    if fills == [] then texts[0] else texts[0] + fills[0] + Weave(texts[1..], fills[1..])
  }

  function Placeholders(n: nat): seq<string> {
    seq(n, i requires 0 <= i < n => Placeholder(i))
  }

  /** What stands in the place of parameter `i` in the end. */
  function Fill(params: seq<Param>, i: nat): string
    requires i < |params|
  {
    match Literal(params[i])
    case Some(text) => text
    case None => Placeholder(i)
  }

  /** The fills when the first `k` parameters have been handled. */
  function Fills(params: seq<Param>, k: nat): (fills: seq<string>)
    requires k <= |params|
    ensures |fills| == |params|
  {
    seq(|params|, i requires 0 <= i < |params| => if i < k then Fill(params, i) else Placeholder(i))
  }

  /** The text before placeholder `k` when its turn comes. */
  function Before(texts: seq<string>, params: seq<Param>, k: nat): string
    requires |texts| == |params| + 1 && k < |params|
  {
    Weave(texts[..k + 1], Fills(params, k)[..k])
  }

  /** Nothing inlined so far reads like the placeholder whose turn it is. */
  ghost predicate IsClear(texts: seq<string>, params: seq<Param>, k: nat)
    requires |texts| == |params| + 1 && k < |params|
  {
    !Occurs(Before(texts, params, k), Placeholder(k))
  }

  predicate DollarFree(s: string) {
    forall i :: 0 <= i < |s| ==> s[i] != '$'
  }

  /** The query builder's text contains no `$` of its own. */
  predicate WellFormed(texts: seq<string>, params: seq<Param>) {
    |texts| == |params| + 1 && forall i :: 0 <= i < |texts| ==> DollarFree(texts[i])
  }

  /** If parameter `k` is replaced, then by a text without `$` patterns and at a turn at
      which nothing before reads like its placeholder. */
  ghost predicate IsSafe(texts: seq<string>, params: seq<Param>, k: nat)
    requires |texts| == |params| + 1 && k < |params|
  {
    Literal(params[k]).Some? ==> IsPlain(Literal(params[k]).value) && IsClear(texts, params, k)
  }

  lemma {:induction false} WeaveSplit(texts: seq<string>, fills: seq<string>, k: nat)
    requires |texts| == |fills| + 1 && k < |fills|
    ensures Weave(texts, fills) == Weave(texts[..k + 1], fills[..k]) + fills[k] + Weave(texts[k + 1..], fills[k + 1..])
  {
    if k > 0 {
      WeaveSplit(texts[1..], fills[1..], k - 1);
      assert texts[1..][..k] == texts[..k + 1][1..] && fills[1..][..k - 1] == fills[..k][1..];
      assert texts[1..][k..] == texts[k + 1..] && fills[1..][k..] == fills[k + 1..];
      var a, b, c, d := texts[0] + fills[0], Weave(texts[1..][..k], fills[1..][..k - 1]), fills[k],
          Weave(texts[k + 1..], fills[k + 1..]);
      ConcatAssociates(a, b + c, d);
      ConcatAssociates(a, b, c);
    }
  }

  /** The text after placeholder `k` when its turn comes. */
  function After(texts: seq<string>, params: seq<Param>, k: nat): string
    requires |texts| == |params| + 1 && k < |params|
  {
    Weave(texts[k + 1..], Fills(params, k)[k + 1..])
  }

  /** The query around placeholder `k` before and after its turn. */
  lemma TurnSplits(texts: seq<string>, params: seq<Param>, k: nat)
    requires |texts| == |params| + 1 && k < |params|
    ensures Weave(texts, Fills(params, k)) == Before(texts, params, k) + Placeholder(k) + After(texts, params, k)
    ensures Weave(texts, Fills(params, k + 1)) == Before(texts, params, k) + Fill(params, k) + After(texts, params, k)
  {
    WeaveSplit(texts, Fills(params, k), k);
    WeaveSplit(texts, Fills(params, k + 1), k);
    FillsBesideTurn(params, k);
  }

  /** A turn changes one fill. */
  lemma FillsBesideTurn(params: seq<Param>, k: nat)
    requires k < |params|
    ensures Fills(params, k + 1)[..k] == Fills(params, k)[..k]
    ensures Fills(params, k + 1)[k + 1..] == Fills(params, k)[k + 1..]
  {}

  /** A placeholder has its only `$` at its start. */
  lemma PlaceholderShape(k: nat, i: nat)
    requires i < |Placeholder(k)|
    ensures Placeholder(k)[i] == '$' <==> i == 0
    ensures i > 0 ==> IsDigit(Placeholder(k)[i])
  {}

  /** If `p` does not occur in `a`, its first occurrence in a + p + b is the one after `a`:
      another would have to run into the `$` that starts it. */
  lemma FirstAfterClear(a: string, b: string, k: nat)
    requires !Occurs(a, Placeholder(k))
    ensures IndexOf(a + Placeholder(k) + b, Placeholder(k)) == |a|
  {
    forall i | 0 < i < |Placeholder(k)|
      ensures Placeholder(k)[i] != Placeholder(k)[0]
    {
      PlaceholderShape(k, i);
    }
    FirstOccurrenceAfter(a, Placeholder(k), b);
    assert a + Placeholder(k) + b == a + (Placeholder(k) + b);
  }

  /** One turn, when nothing before reads like the placeholder. */
  lemma ClearTurn(texts: seq<string>, params: seq<Param>, k: nat)
    requires WellFormed(texts, params) && k < |params| && IsSafe(texts, params, k)
    requires Inlined(Weave(texts, Placeholders(|params|)), params, k) == Weave(texts, Fills(params, k))
    ensures Inlined(Weave(texts, Placeholders(|params|)), params, k + 1) == Weave(texts, Fills(params, k + 1))
  {
    TurnSplits(texts, params, k);
    if Literal(params[k]).Some? {
      var a, b, p, lit := Before(texts, params, k), After(texts, params, k), Placeholder(k), Literal(params[k]).value;
      FirstAfterClear(a, b, k);
      var s := a + p + b;
      assert s[..|a|] == a && s[|a| + |p|..] == b;
      PlainExpandsToItself(lit, a, p, b);
    }
  }

  /** Inlining one parameter after the other is substituting all at once, if every literal
      is free of `$` patterns and at each turn nothing before the placeholder reads like it.
      Undefined parameters stay in place. */
  lemma {:induction false} ClearInliningIsSubstitution(texts: seq<string>, params: seq<Param>, k: nat)
    requires WellFormed(texts, params) && k <= |params|
    requires forall j :: 0 <= j < k ==> IsSafe(texts, params, j)
    ensures Inlined(Weave(texts, Placeholders(|params|)), params, k) == Weave(texts, Fills(params, k))
  {
    if k == 0 {
      assert Fills(params, 0) == Placeholders(|params|);
    } else {
      ClearInliningIsSubstitution(texts, params, k - 1);
      ClearTurn(texts, params, k - 1);
    }
  }

  // ---------------------------------------------------------------- literals without `$`

  /** A placeholder that stays in place is told apart from a longer one by what follows. */
  predicate IsDelimited(texts: seq<string>, params: seq<Param>) {
    forall i :: 0 <= i < |params| - 1 && i + 1 < |texts| && Literal(params[i]).None? ==>
      texts[i + 1] != "" && !IsDigit(texts[i + 1][0])
  }

  predicate LiteralsAreDollarFree(params: seq<Param>) {
    forall i :: 0 <= i < |params| && Literal(params[i]).Some? ==> DollarFree(Literal(params[i]).value)
  }

  lemma {:induction false} NoPlaceholderInside(texts: seq<string>, params: seq<Param>, from: nat, k: nat)
    requires |texts| == |params| + 1 && from <= k < |params|
    requires (forall i :: 0 <= i < |texts| ==> DollarFree(texts[i])) && IsDelimited(texts, params) &&
             LiteralsAreDollarFree(params)
    ensures !Occurs(Weave(texts[from..k + 1], Fills(params, k)[from..k]), Placeholder(k))
    decreases k - from
  {
    var ts, fs, pat := texts[from..k + 1], Fills(params, k)[from..k], Placeholder(k);
    var w := Weave(ts, fs);
    if from == k {
      forall i
        ensures !OccursAt(w, pat, i)
      {
        OccurrenceNeedsDollar(w, k, i);
      }
    } else {
      NoPlaceholderInside(texts, params, from + 1, k);
      assert ts[1..] == texts[from + 1..k + 1] && fs[1..] == Fills(params, k)[from + 1..k];
      var rest := Weave(ts[1..], fs[1..]);
      forall i
        ensures !OccursAt(w, pat, i)
      {
        NoPlaceholderAcross(texts[from], Fill(params, from), rest, from, k, i);
      }
    }
  }

  lemma OccurrenceNeedsDollar(s: string, k: nat, i: int)
    ensures OccursAt(s, Placeholder(k), i) ==> 0 <= i < |s| && s[i] == '$'
  {
    if OccursAt(s, Placeholder(k), i) {
      assert s[i] == s[i..i + |Placeholder(k)|][0];
    }
  }

  lemma NoPlaceholderAcross(text: string, fill: string, rest: string, j: nat, k: nat, i: int)
    requires j < k && DollarFree(text) && !Occurs(rest, Placeholder(k))
    requires DollarFree(fill) || (fill == Placeholder(j) && rest != "" && !IsDigit(rest[0]))
    ensures !OccursAt(text + fill + rest, Placeholder(k), i)
  {
    var pat, w := Placeholder(k), text + fill + rest;
    OccurrenceNeedsDollar(w, k, i);
    if 0 <= i < |text| {
      assert w[i] == text[i];
    } else if |text| <= i < |text + fill| {
      assert w[i] == fill[i - |text|];
      if !DollarFree(fill) {
        PlaceholderShape(j, i - |text|);
        PlaceholderNotBefore(rest, j, k);
        OccurrenceInSuffix(text, fill + rest, pat, |text|);
        assert w == text + (fill + rest);
      }
    } else if i >= |text + fill| {
      OccurrenceInSuffix(text + fill, rest, pat, i);
    }
  }

  /** The placeholder of a later parameter does not start where an earlier one stands. */
  lemma PlaceholderNotBefore(rest: string, j: nat, k: nat)
    requires j < k && rest != "" && !IsDigit(rest[0])
    ensures !(Placeholder(k) <= Placeholder(j) + rest)
  {
    var a, b := Decimal(k + 1), Decimal(j + 1);
    var p, q := Placeholder(k), Placeholder(j) + rest;
    if |a| <= |b| {
      GreaterIsNotPrefix(k + 1, j + 1);
      var x :| 0 <= x < |a| && a[x] != b[x];
      assert p[x + 1] == a[x] && q[x + 1] == b[x];
    } else {
      assert p[|b| + 1] == a[|b|] && q[|b| + 1] == rest[0];
    }
  }

  /** With literals free of `$`, inlining is substitution for any number of parameters:
      each defined one is replaced by its literal, each undefined one stays in place. */
  lemma DollarFreeInliningIsSubstitution(texts: seq<string>, params: seq<Param>)
    requires WellFormed(texts, params) && IsDelimited(texts, params) && LiteralsAreDollarFree(params)
    ensures Inlined(Weave(texts, Placeholders(|params|)), params, |params|) == Weave(texts, Fills(params, |params|))
  {
    forall k | 0 <= k < |params|
      ensures IsSafe(texts, params, k)
    {
      NoPlaceholderInside(texts, params, 0, k);
      assert texts[0..k + 1] == texts[..k + 1] && Fills(params, k)[0..k] == Fills(params, k)[..k];
    }
    ClearInliningIsSubstitution(texts, params, |params|);
  }

  /** Numbers, booleans and null never contain a `$`. */
  lemma SimpleLiteralsAreDollarFree(p: Param)
    requires p.Number? || p.Boolean? || p.Null?
    ensures DollarFree(Literal(p).value) && IsPlain(Literal(p).value)
  {}
}
