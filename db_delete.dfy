/**
 * Brvr_Db_Query_Delete (Db/Query/Delete.php): `DELETE [LOW_PRIORITY]
 * [IGNORE] FROM table [WHERE ...] [ORDER BY ...] [LIMIT n]`.
 */
module DbDelete {
  import opened Wrappers
  import opened Php
  import opened PhpValue
  import opened Decimal
  import opened DbWhereCondition
  import opened DbQuery

  /**
   * What `new E($message, $code)` does for an exception class that adds no
   * constructor of its own, `Exception::__construct(string $message, int
   * $code)`: an exception carrying the message, or a type error when `$code`
   * cannot be read as an integer (a string with no number in front, an array
   * or an object).
   */
  datatype Thrown = Raised(message: string) | ArgumentTypeError(message: string)

  const CodeTypeMessage := "Exception::__construct(): Argument #2 ($code) must be of type int, string given"

  function NewException(message: string, code: Value): (t: Thrown)
    ensures t.Raised? ==> t.message == message
    ensures t.ArgumentTypeError? <==> code.Arr? || code.Object? || (code.Str? && NumberPrefix(code.s).None?)
  {
    match code
    case Str(s) => if NumberPrefix(s).Some? then Raised(message) else ArgumentTypeError(CodeTypeMessage)
    case Arr(_) => ArgumentTypeError(CodeTypeMessage)
    case Object => ArgumentTypeError(CodeTypeMessage)
    case _ => Raised(message)
  }

  /** The two halves `_prepare()` passes when no table is set. */
  const TableMessageStart := "The table to delete "
  const TableMessageEnd := "from has not been set"

  /** The message meant: the two halves joined. */
  const TableNotSetMessage := TableMessageStart + TableMessageEnd

  /**
   * As written, the second half lands in the integer `$code`: the exception
   * is never made, a type error is raised instead.
   */
  function MissingTableAsWritten(): (t: Thrown) {
    NewException(TableMessageStart, Str(TableMessageEnd))
  }

  lemma MissingTableAsWrittenIsTypeError()
    ensures MissingTableAsWritten() == ArgumentTypeError(CodeTypeMessage)
    ensures MissingTableAsWritten() != Raised(TableNotSetMessage)
  {
    NoNumberAhead(TableMessageEnd);
  }

  /** With the halves joined and the default code, the exception carries the whole message. */
  lemma MissingTableRaisesWholeMessage()
    ensures NewException(TableNotSetMessage, Int(0)) == Raised(TableNotSetMessage)
    ensures |TableNotSetMessage| == |TableMessageStart| + |TableMessageEnd|
  {
  }

  /** What `_prepare()` reads from the parts, with the table present. */
  datatype DeleteText = DeleteText(
    priority: Option<int>,
    ignore: bool,
    table: string,
    where: Option<string>,
    order: seq<(string, bool)>,
    limitCount: Option<int>)

  /** `DELETE`, the options and the table. */
  function DeleteHead(p: DeleteText): string {
    "DELETE " + LowPriorityKeyword(p.priority) + IgnoreKeyword(p.ignore) + ("FROM " + p.table)
  }

  /** The statement text, each `.=` appending its whole right-hand side. */
  function DeleteSql(p: DeleteText): string {
    DeleteHead(p) + ConditionClause(" WHERE ", p.where) + SortClause(" ORDER BY ", p.order) + LimitClause(p.limitCount, None)
  }

  /** Without a condition, an order or a limit the statement deletes every row of the table. */
  lemma DeleteBare(p: DeleteText)
    requires p.priority != Some(LowPriority) && !p.ignore && p.where.None? && p.order == [] && p.limitCount.None?
    ensures DeleteSql(p) == "DELETE FROM " + p.table
  {
  }

  /**
   * The clauses follow the table in the order WHERE, ORDER BY, LIMIT, each
   * present exactly when its part is set.
   */
  lemma {:induction false} DeleteClauses(p: DeleteText)
    ensures var head := DeleteHead(p); var sql := DeleteSql(p);
      sql[..|head|] == head &&
      (p.where.Some? ==> sql[|head|..|head| + 7] == " WHERE ") &&
      (p.where.None? && p.order != [] ==> sql[|head|..|head| + 10] == " ORDER BY ") &&
      (p.where.None? && p.order == [] && p.limitCount.Some? ==> sql[|head|..] == " LIMIT " + IntToString(p.limitCount.value)) &&
      (p.where.None? && p.order == [] && p.limitCount.None? ==> sql == head)
  {
    hide IntToString, SortFragment, DeleteHead;
    var head := DeleteHead(p);
    var tail := ConditionClause(" WHERE ", p.where) + SortClause(" ORDER BY ", p.order) + LimitClause(p.limitCount, None);
    assert DeleteSql(p) == head + tail;
  }

  /** `_prepare()`'s text for a set table, built step by step. */
  method GenerateDelete(p: DeleteText) returns (sql: string)
    ensures sql == DeleteSql(p)
  {
    hide ConditionClause, SortClause, LimitClause;
    sql := "DELETE ";
    if p.priority == Some(LowPriority) {
      sql := sql + "LOW_PRIORITY ";
    }
    if p.ignore {
      sql := sql + "IGNORE ";
    }
    sql := sql + ("FROM " + p.table);
    sql := AppendWhereOrderLimit(sql, p.where, p.order, p.limitCount);
  }

  class Delete {
    const query: Query

    ghost predicate Valid()
      reads this, query, query.conditions
    {
      query.Valid() && Order in query.parts.sorts
    }

    /** What `_prepare()` reads, once the table is set. */
    function Text(): DeleteText
      reads this, query, query.conditions
      requires Valid() && query.parts.table.Some?
    {
      var p := query.parts;
      DeleteText(p.priority, p.ignore, p.table.value, query.ClauseText(p.where), p.sorts[Order], p.limitCount)
    }

    /** A builder with nothing set: `_parts` with an empty ORDER BY list and every other part unset. */
    constructor (conditions: Conditions)
      requires conditions.Valid()
      ensures Valid() && fresh(query)
      ensures query.parts.(sorts := map[]) == Parts(None, None, false, None, None, map[], None, None)
      ensures query.parts.sorts.Keys == {Order} && query.parts.sorts[Order] == []
      ensures query.bind == map[] && query.statement == None
    {
      query := new Query(conditions, {Order});
    }

    /** `lowPriority()`: only the priority part changes. */
    method LowPriority()
      requires Valid()
      modifies query
      ensures Valid()
      ensures query.parts == old(query.parts).(priority := Some(DbQuery.LowPriority))
      ensures query.bind == old(query.bind) && query.statement == old(query.statement)
    {
      query.SetPriority(DbQuery.LowPriority);
    }

    /** `ignore()`. */
    method Ignore()
      requires Valid()
      modifies query
      ensures Valid()
      ensures query.parts == old(query.parts).(ignore := true)
      ensures query.bind == old(query.bind) && query.statement == old(query.statement)
    {
      query.Ignore();
    }

    /** `table($tableName)`. */
    method Table(tableName: Value) returns (r: Result<()>)
      requires Valid()
      modifies query
      ensures Valid()
      ensures r.Success? <==> tableName.Str? && !Empty(tableName)
      ensures r.Success? ==> query.parts == old(query.parts).(table := Some(tableName.s))
      ensures r.Failure? ==> query.parts == old(query.parts)
      ensures query.bind == old(query.bind) && query.statement == old(query.statement)
    {
      r := query.SetTable(tableName);
    }

    /** `getWhere()`: the where condition, none when unset. */
    method GetWhere() returns (where: Option<nat>)
      ensures where == query.parts.where
    {
      var r := query.GetWhereCondition(Where);
      where := r.value;
    }

    /** `setWhere($whereCondition, $conditionGlue = null)`. */
    method SetWhere(condition: WhereArg, glue: Value := Null) returns (r: Result<()>)
      requires Valid()
      requires condition.ConditionObject? ==> condition.id < |query.conditions.nodes|
      modifies query, query.conditions
      ensures Valid()
      ensures r.Success? <==> !condition.NotCondition? && (condition.ConditionText? ==> glue.Null? || IsGlue(glue))
      ensures r.Success? && condition.ConditionObject? ==> query.parts == old(query.parts).(where := Some(condition.id))
      ensures r.Success? && condition.ConditionText? ==>
        query.conditions.nodes == old(query.conditions.nodes) +
          [Node(if glue.Null? then "AND" else glue.s, false, [Component.Text(condition.text)])] &&
        query.parts == old(query.parts).(where := Some(|old(query.conditions.nodes)|))
      ensures r.Success? && condition.ConditionText? ==> query.ClauseText(query.parts.where) == Some("(" + condition.text + ")")
      ensures r.Success? && condition.ConditionObject? ==> query.conditions.nodes == old(query.conditions.nodes)
      ensures r.Failure? ==> query.parts == old(query.parts) && query.conditions.nodes == old(query.conditions.nodes)
      ensures query.bind == old(query.bind) && query.statement == old(query.statement)
    {
      r := query.SetWhereCondition(Where, condition, glue);
      if r.Success? && condition.ConditionText? {
        var c := query.conditions;
        RenderSingleText(c.nodes, c.rank, query.parts.where.value, condition.text);
      }
    }

    /** `orderBy($column, $sort = true)`. */
    method OrderBy(columnOrExpr: Value, sort: Value := Bool(true)) returns (r: Result<()>)
      requires Valid()
      modifies query
      ensures Valid()
      ensures r.Success? <==> columnOrExpr.Str? && !Empty(columnOrExpr) && sort.Bool?
      ensures r.Success? ==> query.parts.sorts[Order] == Put(old(query.parts.sorts[Order]), Trim(columnOrExpr.s), sort.b)
      ensures r.Success? ==>
        query.parts == old(query.parts).(sorts := old(query.parts.sorts)[Order := Put(old(query.parts.sorts[Order]), Trim(columnOrExpr.s), sort.b)])
      ensures r.Failure? ==> query.parts == old(query.parts)
      ensures query.bind == old(query.bind) && query.statement == old(query.statement)
    {
      r := query.AddSortClause(Order, columnOrExpr, sort);
    }

    /** `limit($count)`: a numeric count, or an error. */
    method Limit(count: Value) returns (r: Result<()>)
      requires Valid()
      modifies query
      ensures Valid()
      ensures r.Success? <==> IsNumeric(count)
      ensures r.Success? ==> query.parts == old(query.parts).(limitCount := Some(IntCast(count)))
      ensures r.Failure? ==> query.parts == old(query.parts)
      ensures query.bind == old(query.bind) && query.statement == old(query.statement)
    {
      r := query.SetLimitClause(LimitCount, count);
    }

    /** `bindParam($parameter, &$variable, $dataType = PDO::PARAM_STR, $length = null)`. */
    method BindParam(parameter: Value, variable: Value, dataType: Value := Int(ParamStr), length: Value := Null)
      returns (r: Result<()>)
      requires Valid()
      modifies query
      ensures Valid()
      ensures r.Success? <==>
        dataType.Int? && (length.Int? || length.Null?) &&
        (parameter.Int? || parameter.Str?) && (old(query.bindType) == Unfixed || old(query.bindType) == StyleOf(parameter))
      ensures r.Success? ==> query.bind == old(query.bind)[parameter :=
        BindEntry(BindParamKind, variable, dataType.i, if length.Int? then Some(length.i) else None)]
      ensures r.Failure? ==> query.bind == old(query.bind)
      ensures query.parts == old(query.parts) && query.statement == old(query.statement)
    {
      r := query.BindParam(parameter, variable, dataType, length);
    }

    /** `bindValue($parameter, $value, $dataType = PDO::PARAM_STR)`. */
    method BindValue(parameter: Value, value: Value, dataType: Value := Int(ParamStr)) returns (r: Result<()>)
      requires Valid()
      modifies query
      ensures Valid()
      ensures r.Success? <==>
        dataType.Int? && (parameter.Int? || parameter.Str?) &&
        (old(query.bindType) == Unfixed || old(query.bindType) == StyleOf(parameter))
      ensures r.Success? ==> query.bind == old(query.bind)[parameter := BindEntry(BindValueKind, value, dataType.i, None)]
      ensures r.Failure? ==> query.bind == old(query.bind)
      ensures query.parts == old(query.parts) && query.statement == old(query.statement)
    {
      r := query.BindValue(parameter, value, dataType);
    }

    /**
     * `_prepare()`: the held statement when there is one; otherwise an error
     * without a table, or the statement built from the parts and held from
     * then on.
     */
    method Prepare() returns (r: Result<string>)
      requires Valid()
      modifies query
      ensures Valid()
      ensures old(query.statement).Some? ==> r == Success(old(query.statement).value) && query.statement == old(query.statement)
      ensures old(query.statement).None? && query.parts.table.None? ==>
        r == Failure(TableNotSetMessage) && query.statement == None
      ensures old(query.statement).None? && query.parts.table.Some? ==>
        r == Success(DeleteSql(Text())) && query.statement == Some(r.value)
      ensures query.parts == old(query.parts) && query.bind == old(query.bind)
    {
      hide DeleteSql;
      if query.statement.None? {
        if query.parts.table.None? {
          return Failure(TableNotSetMessage);
        }
        var sql := GenerateDelete(Text());
        query.statement := Some(sql);
      }
      r := Success(query.statement.value);
    }
  }
}
