/**
 * Brvr_Db_Query_Insert (Db/Query/Insert.php): `INSERT [priority] [IGNORE]
 * INTO table SET col = :placeholder, ...`.
 */
module DbInsert {
  import opened Wrappers
  import opened Php
  import opened PhpValue
  import opened DbWhereCondition
  import opened DbQuery
  import opened DbAlterRow

  /** `priority()` accepts only the three `*_PRIORITY` constants. */
  predicate IsPriority(priority: int) {
    priority == DelayedPriority || priority == LowPriority || priority == HighPriority
  }

  /** What `_prepare()` reads from the parts, with the table and the column assignments present. */
  datatype InsertText = InsertText(priority: Option<int>, ignore: bool, table: string, columns: seq<string>)

  /**
   * The priority keyword as the `switch` in `_prepare()` chooses it. PHP's
   * `switch` compares loosely and `null == 0`, so an unset priority falls
   * into the `DELAYED_PRIORITY` case.
   */
  function PriorityKeywordAsWritten(priority: Option<int>): string {
    if priority.None? || priority.value == DelayedPriority then "DELAYED "
    else if priority.value == LowPriority then "LOW_PRIORITY "
    else if priority.value == HighPriority then "HIGH_PRIORITY "
    else ""
  }

  /** The priority keyword: one per `*_PRIORITY` constant, none while no priority is set. */
  function PriorityKeyword(priority: Option<int>): (keyword: string)
    ensures keyword == "" <==> priority.None? || !IsPriority(priority.value)
    ensures priority == Some(DelayedPriority) <==> keyword == "DELAYED "
    ensures priority == Some(LowPriority) <==> keyword == "LOW_PRIORITY "
    ensures priority == Some(HighPriority) <==> keyword == "HIGH_PRIORITY "
  {
    if priority.None? then ""
    else PriorityKeywordAsWritten(priority)
  }

  /** The two choices differ only on an unset priority. */
  lemma PriorityKeywordDiffers(priority: Option<int>)
    ensures PriorityKeywordAsWritten(priority) != PriorityKeyword(priority) <==> priority.None?
  {
  }

  /** The statement text, each `.=` appending its whole right-hand side. */
  function InsertSql(p: InsertText): string {
    "INSERT " + PriorityKeyword(p.priority) + IgnoreKeyword(p.ignore) + ("INTO " + p.table + " SET ") +
    ListFragment(p.columns)
  }

  /** The statement text with the priority keyword chosen as written. */
  function InsertSqlAsWritten(p: InsertText): string {
    "INSERT " + PriorityKeywordAsWritten(p.priority) + IgnoreKeyword(p.ignore) + ("INTO " + p.table + " SET ") +
    ListFragment(p.columns)
  }

  /**
   * An insert with no priority set comes out as `INSERT DELAYED ...` as
   * written, eight characters longer than the intended statement without a
   * keyword.
   */
  lemma UnsetPriorityIsDelayed(p: InsertText)
    requires p.priority.None?
    ensures InsertSqlAsWritten(p)[..15] == "INSERT DELAYED "
    ensures |InsertSqlAsWritten(p)| == |InsertSql(p)| + 8
  {
    hide ListFragment;
  }

  /**
   * The statement text reads back: the keyword that follows `INSERT ` is the
   * priority that was set, and the statement ends with the column list.
   */
  lemma {:induction false} InsertSqlShape(p: InsertText)
    ensures var sql := InsertSql(p); var k := PriorityKeyword(p.priority);
      sql[..7] == "INSERT " && sql[7..7 + |k|] == k &&
      sql[|sql| - |ListFragment(p.columns)|..] == ListFragment(p.columns)
  {
  }

  /** `_prepare()`'s text for present parts, built step by step. */
  method GenerateInsert(p: InsertText) returns (sql: string)
    ensures sql == InsertSql(p)
  {
    hide ListFragment;
    sql := "INSERT ";
    if p.priority == Some(DelayedPriority) {
      sql := sql + "DELAYED ";
    } else if p.priority == Some(LowPriority) {
      sql := sql + "LOW_PRIORITY ";
    } else if p.priority == Some(HighPriority) {
      sql := sql + "HIGH_PRIORITY ";
    }
    if p.ignore {
      sql := sql + "IGNORE ";
    }
    sql := sql + ("INTO " + p.table + " SET ");
    sql := sql + ListFragment(p.columns);
  }

  /** The message `priority()` throws for a value that is not one of the priority constants. */
  const PriorityMessage := "Values for priority must be equal to the Brvr_Db_Query_Insert::*_PRIORITY constants"

  class Insert {
    const row: AlterRow

    ghost predicate Valid()
      reads this, row, row.query, row.query.conditions
    {
      row.Valid() && (row.query.parts.priority.Some? ==> IsPriority(row.query.parts.priority.value))
    }

    /** A builder with nothing set (`_parts` with priority null, ignore false, no table and no columns). */
    constructor (conditions: Conditions)
      requires conditions.Valid()
      ensures Valid() && fresh(row) && fresh(row.query)
      ensures row.columns == [] && row.placeholders == map[]
      ensures row.query.parts == Parts(None, None, false, None, None, map[], None, None)
      ensures row.query.bind == map[] && row.query.statement == None
    {
      row := new AlterRow(conditions, {});
    }

    /** `priority($priority)`: one of the three constants, or an error. */
    method Priority(priority: Value) returns (r: Result<()>)
      requires Valid()
      modifies row.query
      ensures Valid()
      ensures r.Success? <==> priority.Int? && IsPriority(priority.i)
      ensures r.Success? ==> row.query.parts == old(row.query.parts).(priority := Some(priority.i))
      ensures r.Failure? ==> row.query.parts == old(row.query.parts)
      ensures r.Failure? ==> r.error == PriorityMessage
      ensures row.query.bind == old(row.query.bind) && row.query.statement == old(row.query.statement)
    {
      if !priority.Int? || !IsPriority(priority.i) {
        return Failure(PriorityMessage);
      }
      row.query.SetPriority(priority.i);
      r := Success(());
    }

    /** `column($columnName)`: add the column once, with its placeholder. */
    method Column(columnName: Value) returns (r: Result<()>)
      requires Valid()
      modifies row
      ensures Valid()
      ensures r.Success? <==> columnName.Str? && !Empty(columnName)
      ensures r.Failure? ==> r.error == "Column name must not be empty"
      ensures r.Failure? ==> row.columns == old(row.columns) && row.placeholders == old(row.placeholders)
      ensures r.Success? && HasColumn(old(row.columns), columnName.s) ==>
        row.columns == old(row.columns) && row.placeholders == old(row.placeholders)
      ensures r.Success? ==> columnName.s in row.placeholders
      ensures r.Success? && !HasColumn(old(row.columns), columnName.s) ==>
        row.columns == old(row.columns) + [(columnName.s, Assignment(columnName.s, row.placeholders[columnName.s]))] &&
        row.placeholders == old(row.placeholders)[columnName.s := row.placeholders[columnName.s]]
    {
      r := row.AddBindableColumn(columnName);
    }

    /** `into($tableName)`. */
    method Into(tableName: Value) returns (r: Result<()>)
      requires Valid()
      modifies row.query
      ensures Valid()
      ensures r.Success? <==> tableName.Str? && !Empty(tableName)
      ensures r.Success? ==> row.query.parts == old(row.query.parts).(table := Some(tableName.s))
      ensures r.Failure? ==> row.query.parts == old(row.query.parts)
      ensures row.query.bind == old(row.query.bind) && row.query.statement == old(row.query.statement)
    {
      r := row.query.SetTable(tableName);
    }

    /**
     * `_prepare()`: the held statement when there is one; otherwise an error
     * without a table or columns, or the statement built from the parts and
     * held from then on.
     */
    method Prepare() returns (r: Result<string>)
      requires Valid()
      modifies row.query
      ensures Valid()
      ensures old(row.query.statement).Some? ==>
        r == Success(old(row.query.statement).value) && row.query.statement == old(row.query.statement)
      ensures old(row.query.statement).None? && (row.query.parts.table.None? || row.columns == []) ==>
        r == Failure("Required parts of the Query (table or columns) have not been set") && row.query.statement == None
      ensures old(row.query.statement).None? && row.query.parts.table.Some? && row.columns != [] ==>
        var p := row.query.parts;
        r == Success(InsertSql(InsertText(p.priority, p.ignore, p.table.value, Assignments(row.columns)))) &&
        row.query.statement == Some(r.value)
      ensures row.query.parts == old(row.query.parts) && row.query.bind == old(row.query.bind)
    {
      hide InsertSql, Assignments;
      if row.query.statement.None? {
        var p := row.query.parts;
        if p.table.None? || row.columns == [] {
          return Failure("Required parts of the Query (table or columns) have not been set");
        }
        var sql := GenerateInsert(InsertText(p.priority, p.ignore, p.table.value, Assignments(row.columns)));
        row.query.statement := Some(sql);
      }
      r := Success(row.query.statement.value);
    }
  }
}
