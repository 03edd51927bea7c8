/**
 `updateFrom`: the statement it composes out of two queries that number their parameters
 independently, and what the composed statement means.
 */
module UpdateFrom {
  import opened Prelude
  import opened Text
  import opened SqlParams

  /** The text from the first FROM on; the whole text if there is none. */
  function FromFirstFrom(sql: string): string {
    Substring(sql, IndexOf(sql, "FROM"), |sql|)
  }

  /** The statement sent for an update query and a select query on the same table. */
  method ComposeUpdateFrom(selectSql: string, selectParams: seq<Param>, updateSql: string, updateParams: seq<Param>)
      returns (query: string)
    ensures query == Inlined(updateSql, updateParams, |updateParams|) + " " +
                     FromFirstFrom(Inlined(selectSql, selectParams, |selectParams|))
  {
    var selectSqlWithParams := QueryParamsAssign(selectSql, selectParams);
    var updateSqlFrom := FromFirstFrom(selectSqlWithParams);
    var updateSqlWithParams := QueryParamsAssign(updateSql, updateParams);
    query := updateSqlWithParams + " " + updateSqlFrom;
  }

  /** A query of the builder whose parameters are free of `$`. */
  ghost predicate Inlinable(texts: seq<string>, params: seq<Param>) {
    WellFormed(texts, params) && IsDelimited(texts, params) && LiteralsAreDollarFree(params)
  }

  /** Both queries count their placeholders from $1. Still, in the composed statement every
      placeholder has got the parameter of its own query, and what remains of the select
      query is exactly what follows its select list, given that the list has neither
      parameters nor a FROM. */
  lemma ComposedStatementKeepsParametersApart(
    list: string, from: string, selectRest: seq<string>, selectParams: seq<Param>, updateTexts: seq<string>,
        updateParams: seq<Param>)
    requires Inlinable([list + "FROM" + from] + selectRest, selectParams) && Inlinable(updateTexts, updateParams)
    requires IndexOf(list + "FROM" + from, "FROM") == |list|
    ensures var selectSql := Weave([list + "FROM" + from] + selectRest, Placeholders(|selectParams|));
            var updateSql := Weave(updateTexts, Placeholders(|updateParams|));
            Inlined(updateSql, updateParams, |updateParams|) + " " +
              FromFirstFrom(Inlined(selectSql, selectParams, |selectParams|))
            == Weave(updateTexts, Fills(updateParams, |updateParams|)) + " " +
               Weave(["FROM" + from] + selectRest, Fills(selectParams, |selectParams|))
  {
    var texts := [list + "FROM" + from] + selectRest;
    DollarFreeInliningIsSubstitution(texts, selectParams);
    DollarFreeInliningIsSubstitution(updateTexts, updateParams);
    CutAtFrom(list, from, selectRest, Fills(selectParams, |selectParams|));
  }

  lemma CutAtFrom(list: string, from: string, rest: seq<string>, fills: seq<string>)
    requires |rest| == |fills| && IndexOf(list + "FROM" + from, "FROM") == |list|
    ensures FromFirstFrom(Weave([list + "FROM" + from] + rest, fills)) == Weave(["FROM" + from] + rest, fills)
  {
    assert list + "FROM" + from == list + ("FROM" + from);
    CutWeave(list, "FROM" + from, rest, fills, "FROM");
  }

  lemma CutWeave(list: string, cut: string, rest: seq<string>, fills: seq<string>, pat: string)
    requires |rest| == |fills| && IndexOf(list + cut, pat) == |list|
    ensures var w := Weave([list + cut] + rest, fills);
            Substring(w, IndexOf(w, pat), |w|) == Weave([cut] + rest, fills)
  {
    var tail := if fills == [] then [] else fills[0] + Weave(rest, fills[1..]);
    WeaveHead(list + cut, rest, fills);
    WeaveHead(cut, rest, fills);
    FirstOccurrenceStays(list + cut, tail, pat);
    CutConcat(list, cut, tail);
  }

  lemma CutConcat(a: string, b: string, c: string)
    ensures Substring(a + b + c, |a|, |a + b + c|) == b + c
  {
    assert a + b + c == a + (b + c);
  }

  lemma WeaveHead(head: string, rest: seq<string>, fills: seq<string>)
    requires |rest| == |fills|
    ensures Weave([head] + rest, fills) == head + if fills == [] then "" else fills[0] + Weave(rest, fills[1..])
  {
    assert ([head] + rest)[1..] == rest;
    if fills != [] {
      assert head + fills[0] + Weave(rest, fills[1..]) == head + (fills[0] + Weave(rest, fills[1..]));
    }
  }

  // ---------------------------------------------------------------- meaning

  /** `UPDATE t SET … FROM t AS t_filtered JOIN others … WHERE filter AND t_filtered.id = t.id`:
      a row is set if some row of the copy, with some joined row, passes the filter and has
      its key. */
  ghost function JoinedUpdate<R, J, K>(
    rows: seq<R>, others: seq<J>, key: R -> K, passes: (R, J) -> bool, assign: R -> R): (result: seq<R>)
  {
    seq(|rows|, i requires 0 <= i < |rows| =>
      if exists f, j :: 0 <= f < |rows| && 0 <= j < |others| && passes(rows[f], others[j]) &&
          key(rows[f]) == key(rows[i])
      then assign(rows[i]) else rows[i])
  }

  /** "Set the data on exactly the rows that pass the filter." */
  ghost function FilteredUpdate<R, J>(rows: seq<R>, others: seq<J>, passes: (R, J) -> bool,
        assign: R -> R): (result: seq<R>)
  {
    seq(|rows|, i requires 0 <= i < |rows| =>
      if exists j :: 0 <= j < |others| && passes(rows[i], others[j]) then assign(rows[i]) else rows[i])
  }

  /** Rows with the same key are the same row. */
  ghost predicate KeyIdentifies<R, K>(rows: seq<R>, key: R -> K) {
    forall i, j :: 0 <= i < |rows| && 0 <= j < |rows| && key(rows[i]) == key(rows[j]) ==> rows[i] == rows[j]
  }

  lemma SelfJoinIsFilter<R, J, K>(
    rows: seq<R>, others: seq<J>, key: R -> K, passes: (R, J) -> bool, assign: R -> R)
    requires KeyIdentifies(rows, key)
    ensures JoinedUpdate(rows, others, key, passes, assign) == FilteredUpdate(rows, others, passes, assign)
  {
    forall i | 0 <= i < |rows|
      ensures JoinedUpdate(rows, others, key, passes, assign)[i] == FilteredUpdate(rows, others, passes, assign)[i]
    {
      if j :| 0 <= j < |others| && passes(rows[i], others[j]) {
        assert key(rows[i]) == key(rows[i]);
      }
    }
  }

  /** The self-join on the key means the filter, for every filter, if and only if the key
      identifies the rows. (For an assignment that changes every row, and something to join.) */
  lemma SelfJoinIsFilterIffKeyIdentifies<R(!new), J(!new), K>(rows: seq<R>, others: seq<J>, key: R -> K, assign: R -> R)
    requires others != [] && forall i :: 0 <= i < |rows| ==> assign(rows[i]) != rows[i]
    ensures (forall passes: (R, J) -> bool ::
            JoinedUpdate(rows, others, key, passes, assign) == FilteredUpdate(rows, others, passes, assign))
            <==> KeyIdentifies(rows, key)
  {
    if KeyIdentifies(rows, key) {
      forall passes: (R, J) -> bool
        ensures JoinedUpdate(rows, others, key, passes, assign) == FilteredUpdate(rows, others, passes, assign)
      {
        SelfJoinIsFilter(rows, others, key, passes, assign);
      }
    } else {
      var i, j :| 0 <= i < |rows| && 0 <= j < |rows| && key(rows[i]) == key(rows[j]) && rows[i] != rows[j];
      var passes: (R, J) -> bool := (r, o) => r == rows[i];
      assert passes(rows[i], others[0]);
      assert JoinedUpdate(rows, others, key, passes, assign)[j] == assign(rows[j]);
      assert FilteredUpdate(rows, others, passes, assign)[j] == rows[j];
    }
  }
}
