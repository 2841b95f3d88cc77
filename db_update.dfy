/**
 * Brvr_Db_Query_Update (Db/Query/Update.php): `UPDATE [LOW_PRIORITY]
 * [IGNORE] table SET col = :placeholder, ... [WHERE ...] [ORDER BY ...]
 * [LIMIT n]`.
 */
module DbUpdate {
  import opened Wrappers
  import opened Php
  import opened PhpValue
  import opened Decimal
  import opened DbWhereCondition
  import opened DbQuery
  import opened DbAlterRow

  /** What `_prepare()` reads from the parts, with the table and the column assignments present. */
  datatype UpdateText = UpdateText(
    priority: Option<int>,
    ignore: bool,
    table: string,
    columns: seq<string>,
    where: Option<string>,
    order: seq<(string, bool)>,
    limitCount: Option<int>)

  /** `UPDATE`, the options, the table and the assignment list. */
  function UpdateHead(p: UpdateText): string {
    "UPDATE " + LowPriorityKeyword(p.priority) + IgnoreKeyword(p.ignore) + (p.table + " SET ") + ListFragment(p.columns)
  }

  /** The statement text, each `.=` appending its whole right-hand side. */
  function UpdateSql(p: UpdateText): string {
    UpdateHead(p) + ConditionClause(" WHERE ", p.where) + SortClause(" ORDER BY ", p.order) + LimitClause(p.limitCount, None)
  }

  /** With no optional part set the statement is the bare assignment list. */
  lemma UpdateBare(p: UpdateText)
    requires p.priority != Some(LowPriority) && !p.ignore && p.where.None? && p.order == [] && p.limitCount.None?
    ensures UpdateSql(p) == "UPDATE " + p.table + " SET " + ListFragment(p.columns)
  {
  }

  /**
   * The clauses follow the assignments in the order WHERE, ORDER BY, LIMIT,
   * each present exactly when its part is set.
   */
  lemma {:induction false} UpdateClauses(p: UpdateText)
    ensures var head := UpdateHead(p); var sql := UpdateSql(p);
      sql[..|head|] == head &&
      (p.where.Some? ==> sql[|head|..|head| + 7] == " WHERE ") &&
      (p.where.None? && p.order != [] ==> sql[|head|..|head| + 10] == " ORDER BY ") &&
      (p.where.None? && p.order == [] && p.limitCount.Some? ==> sql[|head|..] == " LIMIT " + IntToString(p.limitCount.value)) &&
      (p.where.None? && p.order == [] && p.limitCount.None? ==> sql == head)
  {
    hide ListFragment, IntToString, SortFragment, UpdateHead;
    var head := UpdateHead(p);
    var tail := ConditionClause(" WHERE ", p.where) + SortClause(" ORDER BY ", p.order) + LimitClause(p.limitCount, None);
    assert UpdateSql(p) == head + tail;
  }

  /** `_prepare()`'s text for present parts, built step by step. */
  method GenerateUpdate(p: UpdateText) returns (sql: string)
    ensures sql == UpdateSql(p)
  {
    hide ListFragment, ConditionClause, SortClause, LimitClause;
    sql := "UPDATE ";
    if p.priority == Some(LowPriority) {
      sql := sql + "LOW_PRIORITY ";
    }
    if p.ignore {
      sql := sql + "IGNORE ";
    }
    sql := sql + (p.table + " SET ");
    sql := sql + ListFragment(p.columns);
    sql := AppendWhereOrderLimit(sql, p.where, p.order, p.limitCount);
  }

  class Update {
    const row: AlterRow

    ghost predicate Valid()
      reads this, row, row.query, row.query.conditions
    {
      row.Valid() && Order in row.query.parts.sorts
    }

    /** What `_prepare()` reads, once the table is set. */
    function Text(): UpdateText
      reads this, row, row.query, row.query.conditions
      requires Valid() && row.query.parts.table.Some?
    {
      var p := row.query.parts;
      UpdateText(p.priority, p.ignore, p.table.value, Assignments(row.columns),
        row.query.ClauseText(p.where), p.sorts[Order], p.limitCount)
    }

    /** A builder with nothing set: `_parts` with an empty ORDER BY list and every other part unset. */
    constructor (conditions: Conditions)
      requires conditions.Valid()
      ensures Valid() && fresh(row) && fresh(row.query)
      ensures row.columns == [] && row.placeholders == map[]
      ensures row.query.parts.(sorts := map[]) == Parts(None, None, false, None, None, map[], None, None)
      ensures row.query.parts.sorts.Keys == {Order} && row.query.parts.sorts[Order] == []
      ensures row.query.bind == map[] && row.query.statement == None
    {
      row := new AlterRow(conditions, {Order});
    }

    /** `lowPriority()`: only the priority part changes. */
    method LowPriority()
      requires Valid()
      modifies row.query
      ensures Valid()
      ensures row.query.parts == old(row.query.parts).(priority := Some(DbQuery.LowPriority))
      ensures row.query.bind == old(row.query.bind) && row.query.statement == old(row.query.statement)
    {
      row.query.SetPriority(DbQuery.LowPriority);
    }

    /** `ignore()`. */
    method Ignore()
      requires Valid()
      modifies row.query
      ensures Valid()
      ensures row.query.parts == old(row.query.parts).(ignore := true)
      ensures row.query.bind == old(row.query.bind) && row.query.statement == old(row.query.statement)
    {
      row.Ignore();
    }

    /** `table($tableName)`. */
    method Table(tableName: Value) returns (r: Result<()>)
      requires Valid()
      modifies row.query
      ensures Valid()
      ensures r.Success? <==> tableName.Str? && !Empty(tableName)
      ensures r.Success? ==> row.query.parts == old(row.query.parts).(table := Some(tableName.s))
      ensures r.Failure? ==> row.query.parts == old(row.query.parts)
      ensures row.query.bind == old(row.query.bind) && row.query.statement == old(row.query.statement)
    {
      r := row.query.SetTable(tableName);
    }

    /** `column($columnName)`: add the column once, with its placeholder. */
    method Column(columnName: Value) returns (r: Result<()>)
      requires Valid()
      modifies row
      ensures Valid()
      ensures r.Success? <==> columnName.Str? && !Empty(columnName)
      ensures r.Failure? ==> r.error == "Column name must not be empty"
      ensures r.Failure? ==> row.columns == old(row.columns) && row.placeholders == old(row.placeholders)
      ensures r.Success? && HasColumn(old(row.columns), columnName.s) ==>
        row.columns == old(row.columns) && row.placeholders == old(row.placeholders)
      ensures r.Success? ==> columnName.s in row.placeholders
      ensures r.Success? && !HasColumn(old(row.columns), columnName.s) ==>
        row.columns == old(row.columns) + [(columnName.s, Assignment(columnName.s, row.placeholders[columnName.s]))] &&
        row.placeholders == old(row.placeholders)[columnName.s := row.placeholders[columnName.s]]
    {
      r := row.AddBindableColumn(columnName);
    }

    /** `getWhere()`: the where condition, none when unset. */
    method GetWhere() returns (where: Option<nat>)
      ensures where == row.query.parts.where
    {
      var r := row.query.GetWhereCondition(Where);
      where := r.value;
    }

    /** `setWhere($whereCondition, $conditionGlue = null)`. */
    method SetWhere(condition: WhereArg, glue: Value := Null) returns (r: Result<()>)
      requires Valid()
      requires condition.ConditionObject? ==> condition.id < |row.query.conditions.nodes|
      modifies row.query, row.query.conditions
      ensures Valid()
      ensures r.Success? <==> !condition.NotCondition? && (condition.ConditionText? ==> glue.Null? || IsGlue(glue))
      ensures r.Success? && condition.ConditionObject? ==>
        row.query.parts == old(row.query.parts).(where := Some(condition.id))
      ensures r.Success? && condition.ConditionText? ==>
        row.query.conditions.nodes == old(row.query.conditions.nodes) +
          [Node(if glue.Null? then "AND" else glue.s, false, [Component.Text(condition.text)])] &&
        row.query.parts == old(row.query.parts).(where := Some(|old(row.query.conditions.nodes)|))
      ensures r.Success? && condition.ConditionText? ==>
        row.query.ClauseText(row.query.parts.where) == Some("(" + condition.text + ")")
      ensures r.Success? && condition.ConditionObject? ==> row.query.conditions.nodes == old(row.query.conditions.nodes)
      ensures r.Failure? ==> row.query.parts == old(row.query.parts) && row.query.conditions.nodes == old(row.query.conditions.nodes)
      ensures row.query.bind == old(row.query.bind) && row.query.statement == old(row.query.statement)
    {
      r := row.query.SetWhereCondition(Where, condition, glue);
      if r.Success? && condition.ConditionText? {
        var c := row.query.conditions;
        RenderSingleText(c.nodes, c.rank, row.query.parts.where.value, condition.text);
      }
    }

    /** `orderBy($column, $sort = true)`. */
    method OrderBy(columnOrExpr: Value, sort: Value := Bool(true)) returns (r: Result<()>)
      requires Valid()
      modifies row.query
      ensures Valid()
      ensures r.Success? <==> columnOrExpr.Str? && !Empty(columnOrExpr) && sort.Bool?
      ensures r.Success? ==>
        row.query.parts.sorts[Order] == Put(old(row.query.parts.sorts[Order]), Trim(columnOrExpr.s), sort.b)
      ensures r.Success? ==>
        row.query.parts == old(row.query.parts).(sorts := old(row.query.parts.sorts)[Order := Put(old(row.query.parts.sorts[Order]), Trim(columnOrExpr.s), sort.b)])
      ensures r.Failure? ==> row.query.parts == old(row.query.parts)
      ensures row.query.bind == old(row.query.bind) && row.query.statement == old(row.query.statement)
    {
      r := row.query.AddSortClause(Order, columnOrExpr, sort);
    }

    /** `limit($count)`: a numeric count, or an error. */
    method Limit(count: Value) returns (r: Result<()>)
      requires Valid()
      modifies row.query
      ensures Valid()
      ensures r.Success? <==> IsNumeric(count)
      ensures r.Success? ==> row.query.parts == old(row.query.parts).(limitCount := Some(IntCast(count)))
      ensures r.Failure? ==> row.query.parts == old(row.query.parts)
      ensures row.query.bind == old(row.query.bind) && row.query.statement == old(row.query.statement)
    {
      r := row.query.SetLimitClause(LimitCount, count);
    }

    /** `bindParam($parameter, &$variable, $dataType = PDO::PARAM_STR, $length = null)`. */
    method BindParam(parameter: Value, variable: Value, dataType: Value := Int(ParamStr), length: Value := Null)
      returns (r: Result<()>)
      requires Valid()
      modifies row.query
      ensures Valid()
      ensures r.Success? <==>
        dataType.Int? && (length.Int? || length.Null?) &&
        (parameter.Int? || parameter.Str?) && (old(row.query.bindType) == Unfixed || old(row.query.bindType) == StyleOf(parameter))
      ensures r.Success? ==> row.query.bind == old(row.query.bind)[parameter :=
        BindEntry(BindParamKind, variable, dataType.i, if length.Int? then Some(length.i) else None)]
      ensures r.Failure? ==> row.query.bind == old(row.query.bind)
      ensures row.query.parts == old(row.query.parts) && row.query.statement == old(row.query.statement)
    {
      r := row.query.BindParam(parameter, variable, dataType, length);
    }

    /** `bindValue($parameter, $value, $dataType = PDO::PARAM_STR)`. */
    method BindValue(parameter: Value, value: Value, dataType: Value := Int(ParamStr)) returns (r: Result<()>)
      requires Valid()
      modifies row.query
      ensures Valid()
      ensures r.Success? <==>
        dataType.Int? && (parameter.Int? || parameter.Str?) &&
        (old(row.query.bindType) == Unfixed || old(row.query.bindType) == StyleOf(parameter))
      ensures r.Success? ==> row.query.bind == old(row.query.bind)[parameter := BindEntry(BindValueKind, value, dataType.i, None)]
      ensures r.Failure? ==> row.query.bind == old(row.query.bind)
      ensures row.query.parts == old(row.query.parts) && row.query.statement == old(row.query.statement)
    {
      r := row.query.BindValue(parameter, value, dataType);
    }

    /**
     * `_prepare()`: the held statement when there is one; otherwise an error
     * without a table or columns, or the statement built from the parts and
     * held from then on.
     */
    method Prepare() returns (r: Result<string>)
      requires Valid()
      modifies row.query
      ensures Valid()
      ensures old(row.query.statement).Some? ==>
        r == Success(old(row.query.statement).value) && row.query.statement == old(row.query.statement)
      ensures old(row.query.statement).None? && (row.query.parts.table.None? || row.columns == []) ==>
        r == Failure("Required parts of theQuery (table or columns) have not been set") && row.query.statement == None
      ensures old(row.query.statement).None? && row.query.parts.table.Some? && row.columns != [] ==>
        r == Success(UpdateSql(Text())) && row.query.statement == Some(r.value)
      ensures row.query.parts == old(row.query.parts) && row.query.bind == old(row.query.bind)
    {
      hide UpdateSql;
      if row.query.statement.None? {
        if row.query.parts.table.None? || row.columns == [] {
          return Failure("Required parts of theQuery (table or columns) have not been set");
        }
        var sql := GenerateUpdate(Text());
        row.query.statement := Some(sql);
      }
      r := Success(row.query.statement.value);
    }
  }
}
