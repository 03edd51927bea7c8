/**
 `updateFrom` from the two queries to the rows: the text it sends is the text of one
 statement, and that statement sets exactly the rows the select query selects.
 */
module UpdateStatement {
  import opened Prelude
  import opened Text
  import opened SqlParams
  import opened UpdateFrom

  // ---------------------------------------------------------------- the two queries

  /** A condition of the query builder. Columns are named by alias and column. */
  datatype Condition =
    | Equals(alias: string, column: string, value: Param)
    | SameValue(alias: string, column: string, otherAlias: string, otherColumn: string)
    | Both(left: Condition, right: Condition)
    | Either(left: Condition, right: Condition)

  datatype JoinKind = INNER | LEFT

  datatype Join = Join(kind: JoinKind, table: string, alias: string, on: Condition)

  /** The select query: a list, a table under an alias, joins, and a filter if there is one. */
  datatype Select = Select(list: string, table: string, alias: string, joins: seq<Join>, filter: Option<Condition>)

  datatype Assignment = Assignment(column: string, value: Param)

  /** UPDATE table SET sets FROM table AS alias JOIN … WHERE where */
  datatype Statement = Statement(table: string, sets: seq<Assignment>, alias: string, joins: seq<Join>,
      where: Condition)

  /** The added condition: the key of the copy is the key of the updated row. */
  function WithKey(sel: Select, key: string): Condition {
    var same := SameValue(sel.alias, key, sel.table, key);
    match sel.filter
    case Some(filter) => Both(filter, same)
    case None => same
  }

  function StatementOf(sel: Select, sets: seq<Assignment>, key: string): Statement {
    Statement(sel.table, sets, sel.alias, sel.joins, WithKey(sel, key))
  }

  // ---------------------------------------------------------------- queries as texts with places

  /** A text with numbered places, the way the query builder keeps it. */
  datatype Sql = Sql(texts: seq<string>, params: seq<Param>)

  predicate IsSql(q: Sql) {
    |q.texts| == |q.params| + 1
  }

  function Fixed(s: string): Sql {
    Sql([s], [])
  }

  function Place(p: Param): Sql {
    Sql(["", ""], [p])
  }

  /** One text after the other. */
  function Then(q: Sql, r: Sql): (c: Sql)
    requires IsSql(q) && IsSql(r)
    ensures IsSql(c)
  {
    var n := |q.params|;
    Sql(q.texts[..n] + [q.texts[n] + r.texts[0]] + r.texts[1..], q.params + r.params)
  }

  function ConditionSql(c: Condition): (q: Sql)
    ensures IsSql(q)
  {
    match c
    case Equals(alias, column, value) => Then(Fixed(alias + "." + column + " = "), Place(value))
    case SameValue(alias, column, otherAlias, otherColumn) =>
      Fixed(alias + "." + column + " = " + otherAlias + "." + otherColumn)
    case Both(left, right) =>
      Then(Then(Fixed("("), ConditionSql(left)), Then(Then(Fixed(" AND "), ConditionSql(right)), Fixed(")")))
    case Either(left, right) =>
      Then(Then(Fixed("("), ConditionSql(left)), Then(Then(Fixed(" OR "), ConditionSql(right)), Fixed(")")))
  }

  /** A join up to its condition. */
  function JoinHead(join: Join): string {
    (if join.kind.INNER? then " INNER JOIN " else " LEFT JOIN ") + join.table + " " + join.alias + " ON "
  }

  function JoinsSql(joins: seq<Join>): (q: Sql)
    ensures IsSql(q)
  {
    if joins == [] then Fixed("")
    else Then(Then(Fixed(JoinHead(joins[0])), ConditionSql(joins[0].on)), JoinsSql(joins[1..]))
  }

  /** Everything from FROM on. */
  function SourceSql(table: string, alias: string, joins: seq<Join>, where: Condition): (q: Sql)
    ensures IsSql(q)
  {
    Then(Then(Fixed("FROM " + table + " " + alias), JoinsSql(joins)), Then(Fixed(" WHERE "), ConditionSql(where)))
  }

  function SelectSql(sel: Select, key: string): (q: Sql)
    ensures IsSql(q)
  {
    Then(Fixed("SELECT " + sel.list + " "), SourceSql(sel.table, sel.alias, sel.joins, WithKey(sel, key)))
  }

  function SetsSql(sets: seq<Assignment>): (q: Sql)
    ensures IsSql(q)
  {
    if sets == [] then Fixed("")
    else
      var first := Then(Fixed(sets[0].column + " = "), Place(sets[0].value));
      if |sets| == 1 then first else Then(first, Then(Fixed(", "), SetsSql(sets[1..])))
  }

  function UpdateSql(table: string, sets: seq<Assignment>): (q: Sql)
    ensures IsSql(q)
  {
    Then(Fixed("UPDATE " + table + " SET "), SetsSql(sets))
  }

  /** What the query builder returns: the text with placeholders counted from $1. */
  function QueryText(q: Sql): string
    requires IsSql(q)
  {
    Weave(q.texts, Placeholders(|q.params|))
  }

  // ---------------------------------------------------------------- statements as texts

  function ValueText(p: Param): string {
    match Literal(p)
    case Some(text) => text
    case None => ""
  }

  function ConditionText(c: Condition): string {
    match c
    case Equals(alias, column, value) => alias + "." + column + " = " + ValueText(value)
    case SameValue(alias, column, otherAlias, otherColumn) =>
      alias + "." + column + " = " + otherAlias + "." + otherColumn
    case Both(left, right) => "(" + ConditionText(left) + " AND " + ConditionText(right) + ")"
    case Either(left, right) => "(" + ConditionText(left) + " OR " + ConditionText(right) + ")"
  }

  function JoinsText(joins: seq<Join>): string {
    if joins == [] then ""
    else JoinHead(joins[0]) + ConditionText(joins[0].on) + JoinsText(joins[1..])
  }

  function SetsText(sets: seq<Assignment>): string {
    if sets == [] then ""
    else
      var first := sets[0].column + " = " + ValueText(sets[0].value);
      if |sets| == 1 then first else first + ", " + SetsText(sets[1..])
  }

  function SourceText(table: string, alias: string, joins: seq<Join>, where: Condition): string {
    "FROM " + table + " " + alias + JoinsText(joins) + " WHERE " + ConditionText(where)
  }

  function StatementText(stmt: Statement): string {
    "UPDATE " + stmt.table + " SET " + SetsText(stmt.sets) + " " +
      SourceText(stmt.table, stmt.alias, stmt.joins, stmt.where)
  }

  // ---------------------------------------------------------------- substituting gives the statement's text

  function ValueTexts(params: seq<Param>): (fills: seq<string>)
    ensures |fills| == |params|
  {
    seq(|params|, i requires 0 <= i < |params| => ValueText(params[i]))
  }

  /** The text with every value in its place. */
  function Substituted(q: Sql): string
    requires IsSql(q)
  {
    Weave(q.texts, ValueTexts(q.params))
  }

  lemma {:induction false} SubstitutedThen(q: Sql, r: Sql)
    requires IsSql(q) && IsSql(r)
    ensures Substituted(Then(q, r)) == Substituted(q) + Substituted(r)
    decreases |q.params|
  {
    if q.params == [] {
      ThenFixed(q, r);
    } else {
      var q' := Sql(q.texts[1..], q.params[1..]);
      SubstitutedThen(q', r);
      ThenTail(q, r);
      SubstitutedTail(Then(q, r));
      SubstitutedTail(q);
      ConcatAssociates(q.texts[0] + ValueText(q.params[0]), Substituted(q'), Substituted(r));
    }
  }

  lemma ThenFixed(q: Sql, r: Sql)
    requires IsSql(q) && IsSql(r) && q.params == []
    ensures Substituted(Then(q, r)) == Substituted(q) + Substituted(r)
  {
    var c := Then(q, r);
    assert c.texts == [q.texts[0] + r.texts[0]] + r.texts[1..] && c.params == r.params;
    assert r.texts == [r.texts[0]] + r.texts[1..];
    WeaveHead(q.texts[0] + r.texts[0], r.texts[1..], ValueTexts(r.params));
    WeaveHead(r.texts[0], r.texts[1..], ValueTexts(r.params));
    if r.params != [] {
      ConcatAssociates(q.texts[0], r.texts[0],
        ValueTexts(r.params)[0] + Weave(r.texts[1..], ValueTexts(r.params)[1..]));
    }
  }

  lemma ThenTail(q: Sql, r: Sql)
    requires IsSql(q) && IsSql(r) && q.params != []
    ensures var c := Then(q, r);
            && c.texts[0] == q.texts[0] && c.params[0] == q.params[0]
            && Sql(c.texts[1..], c.params[1..]) == Then(Sql(q.texts[1..], q.params[1..]), r)
  {
    var n := |q.params|;
    assert q.texts[1..][..n - 1] == q.texts[..n][1..];
  }

  lemma SubstitutedTail(q: Sql)
    requires IsSql(q) && q.params != []
    ensures Substituted(q) == q.texts[0] + ValueText(q.params[0]) + Substituted(Sql(q.texts[1..], q.params[1..]))
  {
    assert ValueTexts(q.params)[1..] == ValueTexts(q.params[1..]);
  }

  lemma SubstitutedPlace(s: string, p: Param)
    ensures Substituted(Then(Fixed(s), Place(p))) == s + ValueText(p)
  {
    SubstitutedThen(Fixed(s), Place(p));
    PlaceIsValue(["", ""], [p], ValueTexts([p]));
  }

  lemma PlaceIsValue(texts: seq<string>, params: seq<Param>, fills: seq<string>)
    requires texts == ["", ""] && |params| == 1 && fills == ValueTexts(params)
    ensures Weave(texts, fills) == ValueText(params[0])
  {
    assert texts[1..] == [""] && fills[1..] == [];
    assert fills[0] == ValueText(params[0]);
  }

  lemma SubstitutedFixedThen(s: string, q: Sql)
    requires IsSql(q)
    ensures Substituted(Then(Fixed(s), q)) == s + Substituted(q)
  {
    SubstitutedThen(Fixed(s), q);
  }

  lemma SubstitutedBetween(open: string, q: Sql, mid: string, r: Sql, close: string)
    requires IsSql(q) && IsSql(r)
    ensures Substituted(Then(Then(Fixed(open), q), Then(Then(Fixed(mid), r), Fixed(close)))) ==
            open + Substituted(q) + mid + Substituted(r) + close
  {
    SubstitutedThen(Then(Fixed(open), q), Then(Then(Fixed(mid), r), Fixed(close)));
    SubstitutedFixedThen(open, q);
    SubstitutedThen(Then(Fixed(mid), r), Fixed(close));
    SubstitutedFixedThen(mid, r);
    ConcatAssociates(open + Substituted(q), mid + Substituted(r), close);
    ConcatAssociates(open + Substituted(q), mid, Substituted(r));
  }

  lemma {:induction false} ConditionIsRendered(c: Condition)
    ensures Substituted(ConditionSql(c)) == ConditionText(c)
  {
    match c
    case Equals(alias, column, value) => SubstitutedPlace(alias + "." + column + " = ", value);
    case SameValue(alias, column, otherAlias, otherColumn) =>
    case Both(left, right) =>
      ConditionIsRendered(left);
      ConditionIsRendered(right);
      SubstitutedBetween("(", ConditionSql(left), " AND ", ConditionSql(right), ")");
    case Either(left, right) =>
      ConditionIsRendered(left);
      ConditionIsRendered(right);
      SubstitutedBetween("(", ConditionSql(left), " OR ", ConditionSql(right), ")");
  }

  lemma {:induction false} JoinsAreRendered(joins: seq<Join>)
    ensures Substituted(JoinsSql(joins)) == JoinsText(joins)
  {
    if joins != [] {
      var head := JoinHead(joins[0]);
      JoinsAreRendered(joins[1..]);
      ConditionIsRendered(joins[0].on);
      SubstitutedFixedThen(head, ConditionSql(joins[0].on));
      SubstitutedThen(Then(Fixed(head), ConditionSql(joins[0].on)), JoinsSql(joins[1..]));
    }
  }

  lemma SourceIsRendered(table: string, alias: string, joins: seq<Join>, where: Condition)
    ensures Substituted(SourceSql(table, alias, joins, where)) == SourceText(table, alias, joins, where)
  {
    var head := "FROM " + table + " " + alias;
    JoinsAreRendered(joins);
    ConditionIsRendered(where);
    SubstitutedFixedThen(head, JoinsSql(joins));
    SubstitutedFixedThen(" WHERE ", ConditionSql(where));
    SubstitutedThen(Then(Fixed(head), JoinsSql(joins)), Then(Fixed(" WHERE "), ConditionSql(where)));
    ConcatAssociates(head + JoinsText(joins), " WHERE ", ConditionText(where));
  }

  lemma {:induction false} SetsAreRendered(sets: seq<Assignment>)
    ensures Substituted(SetsSql(sets)) == SetsText(sets)
  {
    if sets != [] {
      var head := sets[0].column + " = ";
      var first := Then(Fixed(head), Place(sets[0].value));
      SubstitutedPlace(head, sets[0].value);
      if |sets| > 1 {
        SetsAreRendered(sets[1..]);
        SubstitutedFixedThen(", ", SetsSql(sets[1..]));
        SubstitutedThen(first, Then(Fixed(", "), SetsSql(sets[1..])));
        ConcatAssociates(head + ValueText(sets[0].value), ", ", SetsText(sets[1..]));
      }
    }
  }

  // ---------------------------------------------------------------- the text that is sent

  /** The query builder's text has no `$` of its own, and every value is a number, a boolean
      or null. */
  predicate IsInlinable(q: Sql) {
    && WellFormed(q.texts, q.params)
    && forall i :: 0 <= i < |q.params| ==> q.params[i].Number? || q.params[i].Boolean? || q.params[i].Null?
  }

  lemma InlinedIsSubstituted(q: Sql)
    requires IsInlinable(q)
    ensures Inlined(QueryText(q), q.params, |q.params|) == Substituted(q)
  {
    forall i | 0 <= i < |q.params|
      ensures DollarFree(Literal(q.params[i]).value)
    {
      SimpleLiteralsAreDollarFree(q.params[i]);
    }
    DollarFreeInliningIsSubstitution(q.texts, q.params);
    FillsAreValues(q.params);
  }

  lemma FillsAreValues(params: seq<Param>)
    requires forall i :: 0 <= i < |params| ==> params[i].Number? || params[i].Boolean? || params[i].Null?
    ensures Fills(params, |params|) == ValueTexts(params)
  {}

  /** Values can be inlined, and the select list does not contain the word that the text is
      cut at. */
  ghost predicate IsComposable(sel: Select, sets: seq<Assignment>, key: string) {
    && IsInlinable(SelectSql(sel, key))
    && IsInlinable(UpdateSql(sel.table, sets))
    && !Occurs("SELECT " + sel.list + " ", "FROM")
  }

  lemma CutSelect(sel: Select, key: string)
    requires !Occurs("SELECT " + sel.list + " ", "FROM")
    ensures FromFirstFrom(Substituted(SelectSql(sel, key))) ==
            SourceText(sel.table, sel.alias, sel.joins, WithKey(sel, key))
  {
    var list, source := "SELECT " + sel.list + " ", SourceText(sel.table, sel.alias, sel.joins, WithKey(sel, key));
    SubstitutedFixedThen(list, SourceSql(sel.table, sel.alias, sel.joins, WithKey(sel, key)));
    SourceIsRendered(sel.table, sel.alias, sel.joins, WithKey(sel, key));
    CutAfter(list, source);
  }

  lemma CutAfter(list: string, source: string)
    requires !Occurs(list, "FROM") && "FROM" <= source
    ensures FromFirstFrom(list + source) == source
  {
    assert source == "FROM" + source[4..];
    FirstOccurrenceAfter(list, "FROM", source[4..]);
  }

  /** The text sent for the two queries, which both count their parameters from $1, is the
      text of the one statement. */
  method SendUpdateFrom(sel: Select, sets: seq<Assignment>, key: string) returns (query: string)
    ensures IsComposable(sel, sets, key) ==> query == StatementText(StatementOf(sel, sets, key))
  {
    var selectQuery := SelectSql(sel, key);
    var updateQuery := UpdateSql(sel.table, sets);
    query := ComposeUpdateFrom(QueryText(selectQuery), selectQuery.params, QueryText(updateQuery), updateQuery.params);
    if IsComposable(sel, sets, key) {
      InlinedIsSubstituted(selectQuery);
      InlinedIsSubstituted(updateQuery);
      CutSelect(sel, key);
      UpdateIsRendered(sel, sets, key);
    }
  }

  lemma UpdateIsRendered(sel: Select, sets: seq<Assignment>, key: string)
    ensures var stmt := StatementOf(sel, sets, key);
            StatementText(stmt) == Substituted(UpdateSql(sel.table, sets)) + " " +
              SourceText(sel.table, sel.alias, sel.joins, stmt.where)
  {
    SetsAreRendered(sets);
    SubstitutedFixedThen("UPDATE " + sel.table + " SET ", SetsSql(sets));
  }

  // ---------------------------------------------------------------- what a statement does

  /** A column that is not in the map is null. */
  type Row = map<string, Param>

  /** The row under each alias. */
  type Rows = map<string, Row>

  type Database = map<string, seq<Row>>

  function TableOf(db: Database, table: string): seq<Row> {
    if table in db then db[table] else []
  }

  function ColumnOf(row: Row, column: string): Option<Param> {
    if column in row && !row[column].Null? then Some(row[column]) else None
  }

  function ValueOf(env: Rows, alias: string, column: string): Option<Param> {
    if alias in env then ColumnOf(env[alias], column) else None
  }

  /** Nothing equals null. */
  predicate Holds(c: Condition, env: Rows) {
    match c
    case Equals(alias, column, value) => !value.Null? && ValueOf(env, alias, column) == Some(value)
    case SameValue(alias, column, otherAlias, otherColumn) =>
      ValueOf(env, alias, column).Some? && ValueOf(env, alias, column) == ValueOf(env, otherAlias, otherColumn)
    case Both(left, right) => Holds(left, env) && Holds(right, env)
    case Either(left, right) => Holds(left, env) || Holds(right, env)
  }

  predicate Fits(join: Join, env: Rows, row: Row) {
    Holds(join.on, env[join.alias := row])
  }

  /** A row of the joined table on which the condition holds; for a left join, nulls if
      there is none. */
  ghost predicate IsPartner(db: Database, join: Join, env: Rows, row: Row) {
    || (row in TableOf(db, join.table) && Fits(join, env, row))
    || (join.kind.LEFT? && row == map[] && forall r :: r in TableOf(db, join.table) ==> !Fits(join, env, r))
  }

  /** `full` is `env` with a partner added for every join. */
  ghost predicate Joins(db: Database, joins: seq<Join>, env: Rows, full: Rows)
    decreases |joins|
  {
    if joins == [] then full == env
    else exists row :: IsPartner(db, joins[0], env, row) && Joins(db, joins[1..], env[joins[0].alias := row], full)
  }

  /** The select query returns row `r` of its table. */
  ghost predicate Selects(db: Database, sel: Select, r: Row) {
    exists full :: Joins(db, sel.joins, map[sel.alias := r], full) &&
      (sel.filter.Some? ==> Holds(sel.filter.value, full))
  }

  /** The statement sets row `r` of its table: some row of the copy, joined, meets the condition. */
  ghost predicate Updates(db: Database, stmt: Statement, r: Row) {
    exists f, full ::
      f in TableOf(db, stmt.table) && Joins(db, stmt.joins, map[stmt.table := r, stmt.alias := f], full) &&
        Holds(stmt.where, full)
  }

  function Assigned(r: Row, sets: seq<Assignment>): Row
    decreases |sets|
  {
    if sets == [] then r else Assigned(r[sets[0].column := sets[0].value], sets[1..])
  }

  /** The statement's table afterwards. */
  ghost function Executed(db: Database, stmt: Statement): seq<Row> {
    var rows := TableOf(db, stmt.table);
    seq(|rows|, i requires 0 <= i < |rows| =>
      if Updates(db, stmt, rows[i]) then Assigned(rows[i], stmt.sets) else rows[i])
  }

  // ---------------------------------------------------------------- it sets the selected rows

  /** The condition names a column of `alias`. */
  predicate Mentions(c: Condition, alias: string) {
    match c
    case Equals(a, _, _) => a == alias
    case SameValue(a, _, b, _) => a == alias || b == alias
    case Both(left, right) => Mentions(left, alias) || Mentions(right, alias)
    case Either(left, right) => Mentions(left, alias) || Mentions(right, alias)
  }

  /** The select query uses its own aliases only: neither a join nor the filter knows the
      table under its plain name, and the joins leave the alias of the copy alone. */
  predicate IsScoped(sel: Select) {
    && sel.alias != sel.table
    && (sel.filter.Some? ==> !Mentions(sel.filter.value, sel.table))
    && AreScoped(sel.joins, sel.table, sel.alias)
  }

  predicate AreScoped(joins: seq<Join>, table: string, alias: string) {
    forall i :: 0 <= i < |joins| ==> joins[i].alias != table && joins[i].alias != alias && !Mentions(joins[i].on, table)
  }

  /** Every row has a value in the key column, and no two different rows the same. */
  ghost predicate IsPrimaryKey(rows: seq<Row>, key: string) {
    (forall r :: r in rows ==> ColumnOf(r, key).Some?) && KeyIdentifies(rows, r => ColumnOf(r, key))
  }

  lemma {:induction false} HoldsWithout(c: Condition, env: Rows, alias: string, r: Row)
    requires !Mentions(c, alias)
    ensures Holds(c, env[alias := r]) <==> Holds(c, env)
  {
    match c
    case Equals(_, _, _) =>
    case SameValue(_, _, _, _) =>
    case Both(left, right) =>
      HoldsWithout(left, env, alias, r);
      HoldsWithout(right, env, alias, r);
    case Either(left, right) =>
      HoldsWithout(left, env, alias, r);
      HoldsWithout(right, env, alias, r);
  }

  lemma PartnerWithout(db: Database, join: Join, env: Rows, alias: string, r: Row, row: Row)
    requires join.alias != alias && !Mentions(join.on, alias)
    ensures IsPartner(db, join, env[alias := r], row) <==> IsPartner(db, join, env, row)
  {
    forall x
      ensures Fits(join, env[alias := r], x) <==> Fits(join, env, x)
    {
      assert env[alias := r][join.alias := x] == env[join.alias := x][alias := r];
      HoldsWithout(join.on, env[join.alias := x], alias, r);
    }
  }

  /** A row under a name that the joins do not use is carried along. */
  lemma {:induction false} JoinsWithout(db: Database, joins: seq<Join>, env: Rows, table: string, alias: string,
        r: Row, full: Rows)
    requires AreScoped(joins, table, alias) && table !in env
    ensures Joins(db, joins, env[table := r], full) <==>
            table in full && full[table] == r && Joins(db, joins, env, full - {table})
    decreases |joins|, 1
  {
    if joins == [] {
      assert full == env[table := r] ==> full - {table} == env;
      assert table in full && full[table] == r && full - {table} == env ==> full == env[table := r];
    } else {
      var wider := env[table := r];
      if row :| IsPartner(db, joins[0], wider, row) && Joins(db, joins[1..], wider[joins[0].alias := row], full) {
        PartnerIsCarried(db, joins, env, table, alias, r, full, row);
        assert Joins(db, joins, env, full - {table});
      }
      if table in full && full[table] == r && Joins(db, joins, env, full - {table}) {
        var row :| IsPartner(db, joins[0], env, row) &&
            Joins(db, joins[1..], env[joins[0].alias := row], full - {table});
        PartnerIsCarried(db, joins, env, table, alias, r, full, row);
        assert Joins(db, joins, wider, full);
      }
    }
  }

  lemma {:induction false} PartnerIsCarried(
    db: Database, joins: seq<Join>, env: Rows, table: string, alias: string, r: Row, full: Rows, row: Row)
    requires joins != [] && AreScoped(joins, table, alias) && table !in env
    ensures IsPartner(db, joins[0], env[table := r], row) <==> IsPartner(db, joins[0], env, row)
    ensures Joins(db, joins[1..], env[table := r][joins[0].alias := row], full) <==>
            table in full && full[table] == r && Joins(db, joins[1..], env[joins[0].alias := row], full - {table})
    decreases |joins|, 0
  {
    PartnerWithout(db, joins[0], env, table, r, row);
    assert env[table := r][joins[0].alias := row] == env[joins[0].alias := row][table := r];
    JoinsWithout(db, joins[1..], env[joins[0].alias := row], table, alias, r, full);
  }

  lemma {:induction false} JoinsKeepCopy(db: Database, joins: seq<Join>, env: Rows, table: string, alias: string,
        full: Rows)
    requires AreScoped(joins, table, alias) && alias in env && Joins(db, joins, env, full)
    ensures alias in full && full[alias] == env[alias]
    ensures table !in env ==> table !in full
    decreases |joins|
  {
    if joins != [] {
      var row :| IsPartner(db, joins[0], env, row) && Joins(db, joins[1..], env[joins[0].alias := row], full);
      JoinsKeepCopy(db, joins[1..], env[joins[0].alias := row], table, alias, full);
    }
  }

  predicate HaveSameKey(f: Row, r: Row, key: string) {
    ColumnOf(f, key).Some? && ColumnOf(f, key) == ColumnOf(r, key)
  }

  lemma WhereIsFilterAndKey(sel: Select, key: string, full: Rows)
    ensures Holds(WithKey(sel, key), full) <==>
            && (sel.filter.Some? ==> Holds(sel.filter.value, full))
            && ValueOf(full, sel.alias, key).Some? && ValueOf(full, sel.alias, key) == ValueOf(full, sel.table, key)
  {}

  /** A combination of rows found by the statement, and the select query's. */
  lemma CombinationIsSelected(db: Database, sel: Select, key: string, r: Row, f: Row, full: Rows)
    requires IsScoped(sel)
    requires Joins(db, sel.joins, map[sel.table := r, sel.alias := f], full) && Holds(WithKey(sel, key), full)
    ensures Selects(db, sel, f) && HaveSameKey(f, r, key)
  {
    var env := map[sel.alias := f];
    assert map[sel.table := r, sel.alias := f] == env[sel.table := r];
    JoinsWithout(db, sel.joins, env, sel.table, sel.alias, r, full);
    var rest := full - {sel.table};
    JoinsKeepCopy(db, sel.joins, env, sel.table, sel.alias, rest);
    WhereIsFilterAndKey(sel, key, full);
    assert full == rest[sel.table := r];
    if sel.filter.Some? {
      HoldsWithout(sel.filter.value, rest, sel.table, r);
    }
  }

  lemma SelectedIsCombination(db: Database, sel: Select, key: string, r: Row, f: Row) returns (full: Rows)
    requires IsScoped(sel) && Selects(db, sel, f) && HaveSameKey(f, r, key)
    ensures Joins(db, sel.joins, map[sel.table := r, sel.alias := f], full) && Holds(WithKey(sel, key), full)
  {
    var env := map[sel.alias := f];
    var rest :| Joins(db, sel.joins, env, rest) && (sel.filter.Some? ==> Holds(sel.filter.value, rest));
    JoinsKeepCopy(db, sel.joins, env, sel.table, sel.alias, rest);
    full := rest[sel.table := r];
    assert full - {sel.table} == rest;
    JoinsWithout(db, sel.joins, env, sel.table, sel.alias, r, full);
    assert map[sel.table := r, sel.alias := f] == env[sel.table := r];
    if sel.filter.Some? {
      HoldsWithout(sel.filter.value, rest, sel.table, r);
    }
    WhereIsFilterAndKey(sel, key, full);
  }

  /** The statement does what joining the table with its filtered copy on the key does. */
  lemma UpdatesIffCopySelected(db: Database, sel: Select, sets: seq<Assignment>, key: string, r: Row)
    requires IsScoped(sel)
    ensures Updates(db, StatementOf(sel, sets, key), r) <==>
            exists f :: f in TableOf(db, sel.table) && Selects(db, sel, f) && HaveSameKey(f, r, key)
  {
    var stmt := StatementOf(sel, sets, key);
    if f, full :|
        f in TableOf(db, sel.table) && Joins(db, sel.joins, map[sel.table := r, sel.alias := f], full) &&
          Holds(stmt.where, full) {
      CombinationIsSelected(db, sel, key, r, f, full);
    }
    if f :| f in TableOf(db, sel.table) && Selects(db, sel, f) && HaveSameKey(f, r, key) {
      var full := SelectedIsCombination(db, sel, key, r, f);
    }
  }

  /** The statement sets exactly the rows that the select query returns, and each of them
      once, however many joined rows it meets. */
  lemma StatementSetsSelectedRows(db: Database, sel: Select, sets: seq<Assignment>, key: string)
    requires IsScoped(sel) && IsPrimaryKey(TableOf(db, sel.table), key)
    ensures var rows, result := TableOf(db, sel.table), Executed(db, StatementOf(sel, sets, key));
            && |result| == |rows|
            && forall i :: 0 <= i < |rows| ==>
                 result[i] == if Selects(db, sel, rows[i]) then Assigned(rows[i], sets) else rows[i]
  {
    var rows, stmt := TableOf(db, sel.table), StatementOf(sel, sets, key);
    var keyOf, assign := r => ColumnOf(r, key), r => Assigned(r, sets);
    var passes := (r, u: ()) => Selects(db, sel, r);
    forall i | 0 <= i < |rows|
      ensures Executed(db, stmt)[i] == JoinedUpdate(rows, [()], keyOf, passes, assign)[i]
      ensures FilteredUpdate(rows, [()], passes, assign)[i] ==
              if Selects(db, sel, rows[i]) then Assigned(rows[i], sets) else rows[i]
    {
      UpdatesIffCopySelected(db, sel, sets, key, rows[i]);
      assert [()][0] == ();
      assert forall u :: passes(rows[i], u) <==> Selects(db, sel, rows[i]);
    }
    SelfJoinIsFilter(rows, [()], keyOf, passes, assign);
  }
}
