/**
 * Brvr_Db_Query_Select (Db/Query/Select.php): a SELECT builder. On top of the
 * shared query state it keeps the select-only parts (DISTINCT, columns,
 * tables, joins, the rollup flag and the lock type) and the aliases already
 * reserved, and it serialises all parts to MySQL text in a fixed clause order.
 */
module DbSelect {
  import opened Wrappers
  import opened Php
  import opened PhpValue
  import opened Decimal
  import opened DbWhereCondition
  import opened DbQuery

  /** One `_parts[JOINS]` entry: LEFT or INNER, and `table[ AS alias] ON condition`. */
  datatype JoinPart = JoinPart(left: bool, text: string)

  /** The select-only `_parts`: DISTINCT, COLUMNS, FROM, JOINS, GROUP_ROLLUP and LOCK_TYPE. */
  datatype SelectClauses = SelectClauses(
    distinct: bool,
    columns: seq<string>,
    from: seq<string>,
    joins: seq<JoinPart>,
    rollup: Value,
    lockType: Option<int>)

  /** Everything `_generateStatement` reads, the conditions already printed. */
  datatype SelectText = SelectText(
    distinct: bool,
    columns: seq<string>,
    from: seq<string>,
    joins: seq<JoinPart>,
    where: Option<string>,
    group: seq<(string, bool)>,
    rollup: Value,
    having: Option<string>,
    order: seq<(string, bool)>,
    limitCount: Option<int>,
    limitOffset: Option<int>,
    lockType: Option<int>)

  /** `JOIN_INNER` and `JOIN_LEFT`. */
  const JoinInnerType := 0
  const JoinLeftType := 1

  /** `FOR_UPDATE` and `SHARE_MODE`. */
  const ForUpdate := 0
  const ShareMode := 1

  predicate NoDuplicates(s: seq<string>) {
    forall i, j :: 0 <= i < j < |s| ==> s[i] != s[j]
  }

  /** One rendered join: ` LEFT JOIN ...` or ` INNER JOIN ...`. */
  function JoinText(join: JoinPart): string {
    (if join.left then " LEFT" else " INNER") + " JOIN " + join.text
  }

  function JoinTexts(joins: seq<JoinPart>): (texts: seq<string>)
    ensures |texts| == |joins|
    ensures forall i :: 0 <= i < |joins| ==> texts[i] == JoinText(joins[i])
  {
    seq(|joins|, i requires 0 <= i < |joins| => JoinText(joins[i]))
  }

  /** What `_renderJoinsFragment` promises: every join rendered, in insertion order. */
  function JoinsFragment(joins: seq<JoinPart>): string {
    Concat(JoinTexts(joins))
  }

  /** A new join lands after the joins already there. */
  lemma {:induction false} JoinsFragmentAppend(joins: seq<JoinPart>, join: JoinPart)
    ensures JoinsFragment(joins + [join]) == JoinsFragment(joins) + JoinText(join)
  {
    var texts := JoinTexts(joins + [join]);
    assert texts[..|texts| - 1] == JoinTexts(joins);
  }

  /** The select list: `*` when no column is set. */
  function ColumnsText(columns: seq<string>): (s: string)
    ensures columns == [] ==> s == "*"
    ensures columns != [] ==> s == ListFragment(columns)
  {
    if columns == [] then "*" else ListFragment(columns)
  }

  /** The lock clause: FOR UPDATE, LOCK IN SHARE MODE, or nothing. */
  function LockClause(lockType: Option<int>): string {
    if lockType == Some(ForUpdate) then " FOR UPDATE"
    else if lockType == Some(ShareMode) then " LOCK IN SHARE MODE"
    else ""
  }

  /** The GROUP BY clause, with ` WITH ROLLUP` only when the list is non-empty and the flag is `=== true`. */
  function GroupClause(group: seq<(string, bool)>, rollup: Value): string {
    if group == [] then ""
    else if rollup == Bool(true) then " GROUP BY " + SortFragment(group) + " WITH ROLLUP"
    else " GROUP BY " + SortFragment(group)
  }

  /**
   * The statement `_generateStatement` produces: SELECT, FROM and joins,
   * WHERE, GROUP BY, HAVING, ORDER BY, LIMIT and the lock, in that order.
   */
  function SelectSql(p: SelectText): string {
    SelectHead(p)
    + ConditionClause(" WHERE ", p.where)
    + GroupClause(p.group, p.rollup)
    + ConditionClause(" HAVING ", p.having)
    + SortClause(" ORDER BY ", p.order)
    + LimitClause(p.limitCount, p.limitOffset)
    + LockClause(p.lockType)
  }

  /** SELECT, DISTINCT, the select list (`*` when empty), FROM, the tables and the joins. */
  function SelectHead(p: SelectText): string {
    (if p.distinct then "SELECT " + " DISTINCT " else "SELECT ") + ColumnsText(p.columns)
    + (" FROM " + ListFragment(p.from) + JoinsFragment(p.joins))
  }

  /** With no optional part set, the statement is the select list, the tables and the joins. */
  lemma SelectBare(p: SelectText)
    requires p.where.None? && p.group == [] && p.having.None? && p.order == []
    requires p.limitCount.None? && p.lockType.None?
    ensures SelectSql(p) == SelectHead(p)
  {
  }

  /** The rollup flag has no effect without a GROUP BY list. */
  lemma RollupNeedsGroup(p: SelectText, rollup: Value)
    requires p.group == []
    ensures SelectSql(p.(rollup := rollup)) == SelectSql(p)
  {
  }

  /** The offset has no effect without a count. */
  lemma OffsetNeedsCount(p: SelectText, offset: Option<int>)
    requires p.limitCount.None?
    ensures SelectSql(p.(limitOffset := offset)) == SelectSql(p)
  {
  }

  /** `_renderJoinsFragment()`: append ` LEFT|INNER JOIN ...` per join. */
  method RenderJoinsFragment(joins: seq<JoinPart>) returns (text: string)
    ensures text == JoinsFragment(joins)
  {
    text := "";
    if joins != [] {
      for k := 0 to |joins|
        invariant text == JoinsFragment(joins[..k])
      {
        var fragment := joins[k];
        if fragment.left {
          text := text + " LEFT";
        } else {
          text := text + " INNER";
        }
        text := text + " JOIN " + fragment.text;
        JoinsFragmentAppend(joins[..k], fragment);
        assert joins[..k + 1] == joins[..k] + [fragment];
      }
      assert joins[..|joins|] == joins;
    }
  }

  /** The GROUP BY step of `_generateStatement()`. */
  method AppendGroupBy(sql: string, group: seq<(string, bool)>, rollup: Value) returns (out: string)
    ensures out == sql + GroupClause(group, rollup)
  {
    hide SortFragment;
    out := sql;
    if group != [] {
      var groupList := RenderSortFragment(group);
      out := out + (" GROUP BY " + groupList);
      if rollup == Bool(true) {
        out := out + " WITH ROLLUP";
        assert out == sql + (" GROUP BY " + groupList + " WITH ROLLUP");
      }
    } else {
      assert sql + GroupClause(group, rollup) == sql;
    }
  }

  /** The LIMIT step of `_generateStatement()`, `$limit` built apart then appended. */
  method AppendLimit(sql: string, count: Option<int>, offset: Option<int>) returns (out: string)
    ensures out == sql + LimitClause(count, offset)
  {
    hide IntToString;
    out := sql;
    if count.Some? {
      var limit := " LIMIT ";
      if offset.Some? {
        limit := limit + (IntToString(offset.value) + ", ");
      }
      out := out + (limit + IntToString(count.value));
    } else {
      assert sql + LimitClause(count, offset) == sql;
    }
  }

  /**
   * `_generateStatement()` over the parts it reads: append each clause that
   * is set, in clause order (each `.=` appends its whole right-hand side).
   */
  method GenerateSelect(p: SelectText) returns (sql: string)
    ensures sql == SelectSql(p)
  {
    hide ListFragment, SortFragment, JoinsFragment, IntToString, GroupClause, LimitClause;
    sql := "SELECT ";
    if p.distinct {
      sql := sql + " DISTINCT ";
    }
    if p.columns != [] {
      sql := sql + ListFragment(p.columns);
    } else {
      sql := sql + "*";
    }
    var joins := RenderJoinsFragment(p.joins);
    sql := sql + (" FROM " + ListFragment(p.from) + joins);
    assert sql == SelectHead(p);
    if p.where.Some? {
      sql := sql + (" WHERE " + p.where.value);
    } else {
      assert sql + ConditionClause(" WHERE ", p.where) == sql;
    }
    sql := AppendGroupBy(sql, p.group, p.rollup);
    if p.having.Some? {
      sql := sql + (" HAVING " + p.having.value);
    } else {
      assert sql + ConditionClause(" HAVING ", p.having) == sql;
    }
    if p.order != [] {
      var orderList := RenderSortFragment(p.order);
      sql := sql + (" ORDER BY " + orderList);
    } else {
      assert sql + SortClause(" ORDER BY ", p.order) == sql;
    }
    sql := AppendLimit(sql, p.limitCount, p.limitOffset);
    if p.lockType == Some(ForUpdate) {
      sql := sql + " FOR UPDATE";
    } else if p.lockType == Some(ShareMode) {
      sql := sql + " LOCK IN SHARE MODE";
    } else {
      assert sql + LockClause(p.lockType) == sql;
    }
  }

  class Select {
    const query: Query
    var clauses: SelectClauses
    var aliases: seq<string>

    /** The query state is valid, GROUP and ORDER are sort lists, and no alias is reserved twice. */
    ghost predicate Valid()
      reads this, query, query.conditions
    {
      query.Valid() && Group in query.parts.sorts && Order in query.parts.sorts && NoDuplicates(aliases)
    }

    /** A builder with the initial `_parts` of Select.php. */
    constructor (conditions: Conditions)
      requires conditions.Valid()
      ensures Valid() && fresh(query) && query.conditions == conditions
      ensures clauses == SelectClauses(false, [], [], [], Bool(false), None) && aliases == []
      ensures query.parts.(sorts := map[]) == Parts(None, None, false, None, None, map[], None, None)
      ensures query.parts.sorts.Keys == {Group, Order} && query.parts.sorts[Group] == [] && query.parts.sorts[Order] == []
      ensures query.bind == map[] && query.bindType == Unfixed && query.statement == None
    {
      query := new Query(conditions, {Group, Order});
      clauses := SelectClauses(false, [], [], [], Bool(false), None);
      aliases := [];
    }

    /** What `_generateStatement` reads from the current state. */
    function Text(): SelectText
      reads this, query, query.conditions
      requires Valid()
    {
      SelectText(
        clauses.distinct, clauses.columns, clauses.from, clauses.joins,
        query.ClauseText(query.parts.where), query.parts.sorts[Group], clauses.rollup,
        query.ClauseText(query.parts.having), query.parts.sorts[Order],
        query.parts.limitCount, query.parts.limitOffset, clauses.lockType)
    }

    /** `distinct()`. */
    method SetDistinct()
      requires Valid()
      modifies this
      ensures Valid()
      ensures clauses == old(clauses).(distinct := true) && aliases == old(aliases)
    {
      clauses := clauses.(distinct := true);
    }

    /**
     * `_reserveAlias($alias)`: a non-empty string not reserved before is
     * added to the reserved aliases; anything else is refused.
     */
    method ReserveAlias(alias: Value) returns (r: Result<()>)
      requires Valid()
      modifies this
      ensures Valid()
      ensures r.Success? <==> alias.Str? && !Empty(alias) && alias.s !in old(aliases)
      ensures r.Success? ==> aliases == old(aliases) + [alias.s]
      ensures r.Failure? ==> aliases == old(aliases)
      ensures r.Failure? && !(alias.Str? && !Empty(alias)) ==> r.error == "Alias must be a non-empty string"
      ensures r.Failure? && alias.Str? && !Empty(alias) ==>
        r.error == "Alias '" + alias.s + "' has already been defined"
      ensures clauses == old(clauses)
    {
      if Empty(alias) || !alias.Str? {
        return Failure("Alias must be a non-empty string");
      }
      if alias.s in aliases {
        return Failure("Alias '" + alias.s + "' has already been defined");
      }
      aliases := aliases + [alias.s];
      r := Success(());
    }

    /** `_makeAliasString($alias)`: reserve the alias and return ` AS alias`. */
    method MakeAliasString(alias: Value) returns (r: Result<string>)
      requires Valid()
      modifies this
      ensures Valid()
      ensures r.Success? <==> alias.Str? && !Empty(alias) && alias.s !in old(aliases)
      ensures r.Success? ==> r.value == " AS " + alias.s && aliases == old(aliases) + [alias.s]
      ensures r.Failure? ==> aliases == old(aliases)
      ensures clauses == old(clauses)
    {
      var reserved := ReserveAlias(alias);
      if reserved.Failure? {
        return Failure(reserved.error);
      }
      r := Success(" AS " + alias.s);
    }

    /** The alias text of an optional alias: nothing for null, otherwise `_makeAliasString`. */
    method OptionalAlias(alias: Value) returns (r: Result<string>)
      requires Valid()
      modifies this
      ensures Valid()
      ensures alias.Null? ==> r == Success("") && aliases == old(aliases)
      ensures !alias.Null? ==> (r.Success? <==> alias.Str? && !Empty(alias) && alias.s !in old(aliases))
      ensures !alias.Null? && r.Success? ==> r.value == " AS " + alias.s && aliases == old(aliases) + [alias.s]
      ensures r.Failure? ==> aliases == old(aliases)
      ensures clauses == old(clauses)
    {
      if alias.Null? {
        return Success("");
      }
      r := MakeAliasString(alias);
    }

    /** `column($columnExpression, $columnAlias = null)`: append the expression with its alias. */
    method Column(expression: string, alias: Value := Null) returns (r: Result<()>)
      requires Valid()
      modifies this
      ensures Valid()
      ensures r.Success? <==> alias.Null? || (alias.Str? && !Empty(alias) && alias.s !in old(aliases))
      ensures r.Success? && alias.Null? ==>
        clauses == old(clauses).(columns := old(clauses).columns + [expression]) && aliases == old(aliases)
      ensures r.Success? && !alias.Null? ==>
        clauses == old(clauses).(columns := old(clauses).columns + [expression + " AS " + alias.s]) &&
        aliases == old(aliases) + [alias.s]
      ensures r.Failure? ==> clauses == old(clauses) && aliases == old(aliases)
    {
      var aliasString := OptionalAlias(alias);
      if aliasString.Failure? {
        return Failure(aliasString.error);
      }
      assert alias.Null? ==> expression + aliasString.value == expression;
      assert !alias.Null? ==> expression + aliasString.value == expression + " AS " + alias.s;
      clauses := clauses.(columns := clauses.columns + [expression + aliasString.value]);
      r := Success(());
    }

    /**
     * The alias handling shared by `from` and `_join`: with an alias, reserve
     * it and return ` AS alias`; without one, reserve the table name itself.
     */
    method TableAlias(tableName: string, alias: Value) returns (r: Result<string>)
      requires Valid()
      modifies this
      ensures Valid()
      ensures alias.Null? ==> (r.Success? <==> !EmptyString(tableName) && tableName !in old(aliases))
      ensures alias.Null? && r.Success? ==> r.value == "" && aliases == old(aliases) + [tableName]
      ensures !alias.Null? ==> (r.Success? <==> alias.Str? && !Empty(alias) && alias.s !in old(aliases))
      ensures !alias.Null? && r.Success? ==> r.value == " AS " + alias.s && aliases == old(aliases) + [alias.s]
      ensures r.Failure? ==> aliases == old(aliases)
      ensures clauses == old(clauses)
    {
      if !alias.Null? {
        r := MakeAliasString(alias);
      } else {
        var reserved := ReserveAlias(Str(tableName));
        if reserved.Failure? {
          return Failure(reserved.error);
        }
        r := Success("");
      }
    }

    /** `from($tableName, $tableAlias = null)`: append the table, reserving its alias or its name. */
    method From(tableName: string, alias: Value := Null) returns (r: Result<()>)
      requires Valid()
      modifies this
      ensures Valid()
      ensures alias.Null? ==> (r.Success? <==> !EmptyString(tableName) && tableName !in old(aliases))
      ensures !alias.Null? ==> (r.Success? <==> alias.Str? && !Empty(alias) && alias.s !in old(aliases))
      ensures r.Success? && alias.Null? ==>
        clauses == old(clauses).(from := old(clauses).from + [tableName]) && aliases == old(aliases) + [tableName]
      ensures r.Success? && !alias.Null? ==>
        clauses == old(clauses).(from := old(clauses).from + [tableName + " AS " + alias.s]) &&
        aliases == old(aliases) + [alias.s]
      ensures r.Failure? ==> clauses == old(clauses) && aliases == old(aliases)
    {
      var aliasString := TableAlias(tableName, alias);
      if aliasString.Failure? {
        return Failure(aliasString.error);
      }
      assert alias.Null? ==> tableName + aliasString.value == tableName;
      assert !alias.Null? ==> tableName + aliasString.value == tableName + " AS " + alias.s;
      clauses := clauses.(from := clauses.from + [tableName + aliasString.value]);
      r := Success(());
    }

    /**
     * `_join($type, $condition, $tableName, $tableAlias = null)`: any type
     * other than `JOIN_LEFT` is an inner join; the join is appended as
     * `table[ AS alias] ON condition`.
     */
    method Join(joinType: Value, condition: string, tableName: string, alias: Value := Null) returns (r: Result<()>)
      requires Valid()
      modifies this
      ensures Valid()
      ensures alias.Null? ==> (r.Success? <==> !EmptyString(tableName) && tableName !in old(aliases))
      ensures !alias.Null? ==> (r.Success? <==> alias.Str? && !Empty(alias) && alias.s !in old(aliases))
      ensures r.Success? ==>
        var aliasString := if alias.Null? then "" else " AS " + alias.s;
        clauses == old(clauses).(joins := old(clauses).joins +
          [JoinPart(joinType == Int(JoinLeftType), tableName + aliasString + " ON " + condition)])
      ensures r.Failure? ==> clauses == old(clauses) && aliases == old(aliases)
    {
      var left := joinType == Int(JoinLeftType);
      var aliasString := TableAlias(tableName, alias);
      if aliasString.Failure? {
        return Failure(aliasString.error);
      }
      clauses := clauses.(joins := clauses.joins + [JoinPart(left, tableName + aliasString.value + " ON " + condition)]);
      r := Success(());
    }

    /** `joinInner(...)`. */
    method JoinInner(condition: string, tableName: string, alias: Value := Null) returns (r: Result<()>)
      requires Valid()
      modifies this
      ensures Valid()
      ensures alias.Null? ==> (r.Success? <==> !EmptyString(tableName) && tableName !in old(aliases))
      ensures !alias.Null? ==> (r.Success? <==> alias.Str? && !Empty(alias) && alias.s !in old(aliases))
      ensures r.Success? ==>
        var aliasString := if alias.Null? then "" else " AS " + alias.s;
        clauses == old(clauses).(joins := old(clauses).joins + [JoinPart(false, tableName + aliasString + " ON " + condition)])
      ensures r.Failure? ==> clauses == old(clauses) && aliases == old(aliases)
    {
      r := Join(Int(JoinInnerType), condition, tableName, alias);
    }

    /** `joinLeft(...)`. */
    method JoinLeft(condition: string, tableName: string, alias: Value := Null) returns (r: Result<()>)
      requires Valid()
      modifies this
      ensures Valid()
      ensures alias.Null? ==> (r.Success? <==> !EmptyString(tableName) && tableName !in old(aliases))
      ensures !alias.Null? ==> (r.Success? <==> alias.Str? && !Empty(alias) && alias.s !in old(aliases))
      ensures r.Success? ==>
        var aliasString := if alias.Null? then "" else " AS " + alias.s;
        clauses == old(clauses).(joins := old(clauses).joins + [JoinPart(true, tableName + aliasString + " ON " + condition)])
      ensures r.Failure? ==> clauses == old(clauses) && aliases == old(aliases)
    {
      r := Join(Int(JoinLeftType), condition, tableName, alias);
    }

    /** `getWhere()`: the where condition, none when unset. */
    method GetWhere() returns (where: Option<nat>)
      ensures where == query.parts.where
    {
      var r := query.GetWhereCondition(Where);
      where := r.value;
    }

    /** `getHaving()`: the having condition, none when unset. */
    method GetHaving() returns (having: Option<nat>)
      ensures having == query.parts.having
    {
      var r := query.GetWhereCondition(Having);
      having := r.value;
    }

    /** `setWhere($whereCondition, $conditionGlue = null)`. */
    method SetWhere(condition: WhereArg, glue: Value := Null) returns (r: Result<()>)
      requires Valid()
      requires condition.ConditionObject? ==> condition.id < |query.conditions.nodes|
      modifies query, query.conditions
      ensures Valid()
      ensures r.Success? <==> !condition.NotCondition? && (condition.ConditionText? ==> glue.Null? || IsGlue(glue))
      ensures r.Success? && condition.ConditionObject? ==>
        query.parts == old(query.parts).(where := Some(condition.id))
      ensures r.Success? && condition.ConditionText? ==>
        query.conditions.nodes == old(query.conditions.nodes) +
          [Node(if glue.Null? then "AND" else glue.s, false, [Component.Text(condition.text)])] &&
        query.parts == old(query.parts).(where := Some(|old(query.conditions.nodes)|))
      ensures r.Success? && condition.ConditionText? ==> Text().where == Some("(" + condition.text + ")")
      ensures r.Success? && condition.ConditionObject? ==> query.conditions.nodes == old(query.conditions.nodes)
      ensures r.Failure? ==> query.parts == old(query.parts) && query.conditions.nodes == old(query.conditions.nodes)
      ensures query.bind == old(query.bind) && query.statement == old(query.statement)
    {
      r := query.SetWhereCondition(Where, condition, glue);
      if r.Success? && condition.ConditionText? {
        var c := query.conditions;
        RenderSingleText(c.nodes, c.rank, query.parts.where.value, condition.text);
      }
    }

    /** `setHaving($whereCondition, $conditionGlue = null)`. */
    method SetHaving(condition: WhereArg, glue: Value := Null) returns (r: Result<()>)
      requires Valid()
      requires condition.ConditionObject? ==> condition.id < |query.conditions.nodes|
      modifies query, query.conditions
      ensures Valid()
      ensures r.Success? <==> !condition.NotCondition? && (condition.ConditionText? ==> glue.Null? || IsGlue(glue))
      ensures r.Success? && condition.ConditionObject? ==>
        query.parts == old(query.parts).(having := Some(condition.id))
      ensures r.Success? && condition.ConditionText? ==>
        query.conditions.nodes == old(query.conditions.nodes) +
          [Node(if glue.Null? then "AND" else glue.s, false, [Component.Text(condition.text)])] &&
        query.parts == old(query.parts).(having := Some(|old(query.conditions.nodes)|))
      ensures r.Success? && condition.ConditionText? ==> Text().having == Some("(" + condition.text + ")")
      ensures r.Success? && condition.ConditionObject? ==> query.conditions.nodes == old(query.conditions.nodes)
      ensures r.Failure? ==> query.parts == old(query.parts) && query.conditions.nodes == old(query.conditions.nodes)
      ensures query.bind == old(query.bind) && query.statement == old(query.statement)
    {
      r := query.SetWhereCondition(Having, condition, glue);
      if r.Success? && condition.ConditionText? {
        var c := query.conditions;
        RenderSingleText(c.nodes, c.rank, query.parts.having.value, condition.text);
      }
    }

    /** `groupBy($columnOrExpr, $sort = true)`. */
    method GroupBy(columnOrExpr: Value, sort: Value := Bool(true)) returns (r: Result<()>)
      requires Valid()
      modifies query
      ensures Valid()
      ensures r.Success? <==> columnOrExpr.Str? && !Empty(columnOrExpr) && sort.Bool?
      ensures r.Success? ==> query.parts.sorts[Group] == Put(old(query.parts.sorts[Group]), Trim(columnOrExpr.s), sort.b)
      ensures r.Success? ==>
        query.parts == old(query.parts).(sorts := old(query.parts.sorts)[Group := Put(old(query.parts.sorts[Group]), Trim(columnOrExpr.s), sort.b)])
      ensures r.Failure? ==> query.parts == old(query.parts)
      ensures query.parts.sorts[Order] == old(query.parts.sorts[Order])
      ensures query.bind == old(query.bind) && query.statement == old(query.statement)
    {
      r := query.AddSortClause(Group, columnOrExpr, sort);
    }

    /** `groupByRollup($rollup = true)`: any value is stored; only `true` renders. */
    method GroupByRollup(rollup: Value := Bool(true))
      requires Valid()
      modifies this
      ensures Valid()
      ensures clauses == old(clauses).(rollup := rollup) && aliases == old(aliases)
    {
      clauses := clauses.(rollup := rollup);
    }

    /** `orderBy($columnOrExpr, $sort = true)`. */
    method OrderBy(columnOrExpr: Value, sort: Value := Bool(true)) returns (r: Result<()>)
      requires Valid()
      modifies query
      ensures Valid()
      ensures r.Success? <==> columnOrExpr.Str? && !Empty(columnOrExpr) && sort.Bool?
      ensures r.Success? ==> query.parts.sorts[Order] == Put(old(query.parts.sorts[Order]), Trim(columnOrExpr.s), sort.b)
      ensures r.Success? ==>
        query.parts == old(query.parts).(sorts := old(query.parts.sorts)[Order := Put(old(query.parts.sorts[Order]), Trim(columnOrExpr.s), sort.b)])
      ensures r.Failure? ==> query.parts == old(query.parts)
      ensures query.parts.sorts[Group] == old(query.parts.sorts[Group])
      ensures query.bind == old(query.bind) && query.statement == old(query.statement)
    {
      r := query.AddSortClause(Order, columnOrExpr, sort);
    }

    /**
     * `limit($rowCount, $offset = 0)`: the offset is stored first, so a
     * numeric offset with a non-numeric count is kept although the call fails.
     */
    method Limit(rowCount: Value, offset: Value := Int(0)) returns (r: Result<()>)
      requires Valid()
      modifies query
      ensures Valid()
      ensures r.Success? <==> IsNumeric(offset) && IsNumeric(rowCount)
      ensures r.Success? ==>
        query.parts == old(query.parts).(limitOffset := Some(IntCast(offset)), limitCount := Some(IntCast(rowCount)))
      ensures !IsNumeric(offset) ==> query.parts == old(query.parts)
      ensures IsNumeric(offset) && !IsNumeric(rowCount) ==>
        query.parts == old(query.parts).(limitOffset := Some(IntCast(offset)))
      ensures query.bind == old(query.bind) && query.statement == old(query.statement)
    {
      r := query.SetLimitClause(LimitOffset, offset);
      if r.Failure? {
        return;
      }
      r := query.SetLimitClause(LimitCount, rowCount);
    }

    /** `lock($lockType)`: only `FOR_UPDATE` or `SHARE_MODE`, compared with `!==`. */
    method Lock(lockType: Value) returns (r: Result<()>)
      requires Valid()
      modifies this
      ensures Valid()
      ensures r.Success? <==> lockType == Int(ForUpdate) || lockType == Int(ShareMode)
      ensures r.Success? ==> clauses == old(clauses).(lockType := Some(lockType.i))
      ensures r.Failure? ==> clauses == old(clauses)
      ensures r.Failure? ==> r.error == "Values for lockType must be either '{self::FOR_UPDATE}' or '{self::SHARE_MODE}'"
      ensures aliases == old(aliases)
    {
      if lockType != Int(ForUpdate) && lockType != Int(ShareMode) {
        return Failure("Values for lockType must be either '{self::FOR_UPDATE}' or '{self::SHARE_MODE}'");
      }
      clauses := clauses.(lockType := Some(lockType.i));
      r := Success(());
    }

    /** `bindParam($parameter, &$variable, $dataType = PDO::PARAM_STR, $length = null)`. */
    method BindParam(parameter: Value, variable: Value, dataType: Value := Int(ParamStr), length: Value := Null)
      returns (r: Result<()>)
      requires Valid()
      modifies query
      ensures Valid()
      ensures r.Success? <==>
        dataType.Int? && (length.Int? || length.Null?) &&
        (parameter.Int? || parameter.Str?) && (old(query.bindType) == Unfixed || old(query.bindType) == StyleOf(parameter))
      ensures r.Success? ==> query.bind == old(query.bind)[parameter :=
        BindEntry(BindParamKind, variable, dataType.i, if length.Int? then Some(length.i) else None)]
      ensures r.Failure? ==> query.bind == old(query.bind)
      ensures query.parts == old(query.parts) && query.statement == old(query.statement)
    {
      r := query.BindParam(parameter, variable, dataType, length);
    }

    /** `bindValue($parameter, $value, $dataType = PDO::PARAM_STR)`. */
    method BindValue(parameter: Value, value: Value, dataType: Value := Int(ParamStr)) returns (r: Result<()>)
      requires Valid()
      modifies query
      ensures Valid()
      ensures r.Success? <==>
        dataType.Int? && (parameter.Int? || parameter.Str?) &&
        (old(query.bindType) == Unfixed || old(query.bindType) == StyleOf(parameter))
      ensures r.Success? ==> query.bind == old(query.bind)[parameter := BindEntry(BindValueKind, value, dataType.i, None)]
      ensures r.Failure? ==> query.bind == old(query.bind)
      ensures query.parts == old(query.parts) && query.statement == old(query.statement)
    {
      r := query.BindValue(parameter, value, dataType);
    }

    /** `_generateStatement()`: the statement for the current parts. */
    method GenerateStatement() returns (sql: string)
      requires Valid()
      ensures sql == SelectSql(Text())
    {
      sql := GenerateSelect(Text());
    }

    /**
     * `_prepare()`: generate the statement only when none is held, so later
     * changes to the parts have no effect until `flushStatement()`.
     */
    method Prepare() returns (statement: string)
      requires Valid()
      modifies query
      ensures Valid()
      ensures old(query.statement).Some? ==> query.statement == old(query.statement)
      ensures old(query.statement).None? ==> query.statement == Some(SelectSql(Text()))
      ensures query.statement == Some(statement)
      ensures query.parts == old(query.parts) && query.bind == old(query.bind) && query.bindType == old(query.bindType)
    {
      if query.statement.None? {
        var sql := GenerateStatement();
        query.statement := Some(sql);
      }
      statement := query.statement.value;
    }
  }
}
