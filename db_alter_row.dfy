/**
 * Brvr_Db_Query_AlterRowAbstract (Db/Query/AlterRowAbstract.php): what the
 * INSERT and UPDATE builders share. Each column gets a placeholder made of a
 * colon and the column's lowercase letters, lengthened by random lowercase
 * letters while it collides with another column's; a column added to the
 * statement becomes the assignment `` `col` = :placeholder ``.
 */
module DbAlterRow {
  import opened Wrappers
  import opened Php
  import opened PhpValue
  import opened Decimal
  import opened DbWhereCondition
  import opened DbQuery

  predicate IsLowerLetter(c: char) {
    'a' <= c <= 'z'
  }

  /** `strtolower` on one byte: only A to Z change. */
  function Lower(c: char): char {
    if 'A' <= c <= 'Z' then ((c as int) + 32) as char else c
  }

  /** `preg_replace('/[^a-z]+/', '', strtolower($s))`: the letters of `s`, lowercased, in order. */
  function LowerLetters(s: string): (r: string)
    ensures |r| <= |s|
    ensures forall i :: 0 <= i < |r| ==> IsLowerLetter(r[i])
  {
    if s == [] then []
    else (if IsLowerLetter(Lower(s[0])) then [Lower(s[0])] else []) + LowerLetters(s[1..])
  }

  /** A placeholder for `column`: `:`, the column's lowercase letters, then lowercase letters only. */
  predicate PlaceholderFor(placeholder: string, column: string) {
    var base := ":" + LowerLetters(column);
    |base| <= |placeholder| && placeholder[..|base|] == base &&
    forall i :: |base| <= i < |placeholder| ==> IsLowerLetter(placeholder[i])
  }

  /** Distinct columns have distinct placeholders. */
  predicate Injective(placeholders: map<string, string>) {
    forall a, b :: a in placeholders && b in placeholders && a != b ==> placeholders[a] != placeholders[b]
  }

  /** A placeholder starts with a colon, so it is a named parameter, never a positional one. */
  lemma PlaceholderIsNamed(placeholder: string, column: string)
    requires PlaceholderFor(placeholder, column)
    ensures StyleOf(Str(placeholder)) == Named
  {
    assert placeholder[0] == ':';
    NoNumberAhead(placeholder);
  }

  /** One `_parts[COLUMNS]` value: `` `col` = placeholder ``. */
  function Assignment(column: string, placeholder: string): string {
    "`" + column + "` = " + placeholder
  }

  predicate HasColumn(columns: seq<(string, string)>, column: string) {
    exists i :: 0 <= i < |columns| && columns[i].0 == column
  }

  /** The assignments in the order the columns were added, as `_renderListFragment` lists them. */
  function Assignments(columns: seq<(string, string)>): (r: seq<string>)
    ensures |r| == |columns|
    ensures forall i :: 0 <= i < |columns| ==> r[i] == columns[i].1
  {
    seq(|columns|, i requires 0 <= i < |columns| => columns[i].1)
  }

  /** Each listed column appears once, with the assignment to its own placeholder. */
  predicate ColumnsOk(columns: seq<(string, string)>, placeholders: map<string, string>) {
    (forall i, j :: 0 <= i < j < |columns| ==> columns[i].0 != columns[j].0) &&
    (forall i :: 0 <= i < |columns| ==>
      columns[i].0 in placeholders && columns[i].1 == Assignment(columns[i].0, placeholders[columns[i].0]))
  }

  /** A new column with its placeholder keeps the list well formed, as long as no old placeholder moved. */
  lemma ColumnsOkAdd(columns: seq<(string, string)>, before: map<string, string>, after: map<string, string>, column: string)
    requires ColumnsOk(columns, before)
    requires forall c :: c in before ==> c in after && after[c] == before[c]
    requires column in after && !HasColumn(columns, column)
    ensures ColumnsOk(columns + [(column, Assignment(column, after[column]))], after)
  {
    var added := columns + [(column, Assignment(column, after[column]))];
    forall i, j | 0 <= i < j < |added|
      ensures added[i].0 != added[j].0
    {
      if j == |columns| {
        assert added[i] == columns[i];
      }
    }
  }

  /**
   * The loop of `_uniquePlaceholder`: start from `:` and the column's
   * lowercase letters and append a letter chosen at random (`mt_rand(97, 122)`)
   * while the candidate is empty or already taken.
   */
  method FreshPlaceholder(columnName: string, taken: set<string>) returns (placeholder: string)
    ensures PlaceholderFor(placeholder, columnName) && placeholder !in taken
    ensures ":" + LowerLetters(columnName) !in taken ==> placeholder == ":" + LowerLetters(columnName)
  {
    var base := ":" + LowerLetters(columnName);
    placeholder := base;
    while EmptyString(placeholder) || placeholder in taken
      invariant PlaceholderFor(placeholder, columnName)
      invariant base !in taken ==> placeholder == base
      decreases set v | v in taken && |v| >= |placeholder|
    {
      assert placeholder[0] == ':' && placeholder in taken;
      assert IsLowerLetter('a');
      var c: char :| IsLowerLetter(c);
      var longer := placeholder + [c];
      ghost var before := set v | v in taken && |v| >= |placeholder|;
      ghost var after := set v | v in taken && |v| >= |longer|;
      assert placeholder in before - after;
      assert after < before;
      placeholder := longer;
    }
  }

  class AlterRow {
    const query: Query
    /** `_parts[COLUMNS]`: column name to assignment, in insertion order. */
    var columns: seq<(string, string)>
    /** `_placeholders`. */
    var placeholders: map<string, string>

    /**
     * Placeholders are distinct and well formed; each listed column appears
     * once, with the assignment to its own placeholder.
     */
    ghost predicate Valid()
      reads this, query, query.conditions
    {
      query.Valid() &&
      Injective(placeholders) &&
      (forall c :: c in placeholders ==> PlaceholderFor(placeholders[c], c)) &&
      ColumnsOk(columns, placeholders)
    }

    constructor (conditions: Conditions, sortTargets: set<PartKey>)
      requires conditions.Valid()
      ensures Valid() && fresh(query) && query.conditions == conditions
      ensures columns == [] && placeholders == map[]
      ensures query.parts == Parts(None, None, false, None, None, map t | t in sortTargets :: [], None, None)
      ensures query.bind == map[] && query.bindType == Unfixed && query.statement == None
    {
      query := new Query(conditions, sortTargets);
      columns := [];
      placeholders := map[];
    }

    /**
     * `_uniquePlaceholder($columnName)`: the column's placeholder, made on
     * first use from its lowercase letters and lengthened by a letter chosen
     * at random while another column already has it.
     */
    method UniquePlaceholder(columnName: string) returns (placeholder: string)
      requires Valid()
      modifies this
      ensures Valid()
      ensures columnName in placeholders && placeholder == placeholders[columnName]
      ensures columnName in old(placeholders) ==> placeholders == old(placeholders)
      ensures columnName !in old(placeholders) ==>
        placeholders == old(placeholders)[columnName := placeholder] && placeholder !in old(placeholders).Values
      ensures PlaceholderFor(placeholder, columnName)
      ensures columnName !in old(placeholders) && ":" + LowerLetters(columnName) !in old(placeholders).Values ==>
        placeholder == ":" + LowerLetters(columnName)
      ensures columns == old(columns)
    {
      if columnName !in placeholders {
        placeholder := FreshPlaceholder(columnName, placeholders.Values);
        placeholders := placeholders[columnName := placeholder];
      }
      placeholder := placeholders[columnName];
    }

    /**
     * `_addBindableColumn($columnName)`: a non-empty string column is added
     * once, assigned its placeholder; adding it again changes nothing.
     */
    method AddBindableColumn(columnName: Value) returns (r: Result<()>)
      requires Valid()
      modifies this
      ensures Valid()
      ensures r.Success? <==> columnName.Str? && !Empty(columnName)
      ensures r.Failure? ==> r.error == "Column name must not be empty"
      ensures r.Failure? ==> columns == old(columns) && placeholders == old(placeholders)
      ensures r.Success? && HasColumn(old(columns), columnName.s) ==>
        columns == old(columns) && placeholders == old(placeholders)
      ensures r.Success? ==> columnName.s in placeholders
      ensures r.Success? && !HasColumn(old(columns), columnName.s) ==>
        columns == old(columns) + [(columnName.s, Assignment(columnName.s, placeholders[columnName.s]))]
      ensures r.Success? ==> HasColumn(columns, columnName.s)
      ensures r.Success? ==> placeholders == old(placeholders)[columnName.s := placeholders[columnName.s]]
    {
      hide Assignment, PlaceholderFor, Injective, LowerLetters, Query.Valid;
      if Empty(columnName) || !columnName.Str? {
        return Failure("Column name must not be empty");
      }
      var column := columnName.s;
      if exists i :: 0 <= i < |columns| && columns[i].0 == column {
        var i :| 0 <= i < |columns| && columns[i].0 == column;
        assert placeholders == placeholders[column := placeholders[column]];
      } else {
        ghost var before := placeholders;
        var placeholder := UniquePlaceholder(column);
        ColumnsOkAdd(columns, before, placeholders, column);
        hide ColumnsOk;
        columns := columns + [(column, Assignment(column, placeholder))];
        assert columns[|columns| - 1].0 == column;
      }
      r := Success(());
    }

    /** `ignore()`: the statement will not abort on errors. */
    method Ignore()
      requires Valid()
      modifies query
      ensures Valid()
      ensures query.parts == old(query.parts).(ignore := true)
      ensures query.bind == old(query.bind) && query.statement == old(query.statement)
    {
      query.Ignore();
    }

    /**
     * `bindColumnParam($columnName, &$variable, $dataType, $length)`: bind
     * the variable under the column's placeholder.
     */
    method BindColumnParam(columnName: string, variable: Value, dataType: Value := Int(ParamStr), length: Value := Null)
      returns (r: Result<()>)
      requires Valid()
      modifies this, query
      ensures Valid()
      ensures r.Success? <==>
        !EmptyString(columnName) && dataType.Int? && (length.Int? || length.Null?) &&
        old(query.bindType) != Positional
      ensures EmptyString(columnName) ==> r == Failure("Column name must not be empty")
      ensures !EmptyString(columnName) ==> columnName in placeholders
      ensures r.Success? ==> query.bind == old(query.bind)[Str(placeholders[columnName]) :=
        BindEntry(BindParamKind, variable, dataType.i, if length.Int? then Some(length.i) else None)]
      ensures r.Failure? ==> query.bind == old(query.bind)
      ensures !EmptyString(columnName) ==> placeholders == old(placeholders)[columnName := placeholders[columnName]]
      ensures columns == old(columns) && query.parts == old(query.parts) && query.statement == old(query.statement)
    {
      hide StyleOf, IsNumeric, NumericString, NumberPrefix, PlaceholderFor, Query.Valid;
      if EmptyString(columnName) {
        return Failure("Column name must not be empty");
      }
      var parameter := UniquePlaceholder(columnName);
      PlaceholderIsNamed(parameter, columnName);
      r := query.BindParam(Str(parameter), variable, dataType, length);
    }

    /** `bindColumnValue($columnName, $value, $dataType)`: bind the value under the column's placeholder. */
    method BindColumnValue(columnName: string, value: Value, dataType: Value := Int(ParamStr)) returns (r: Result<()>)
      requires Valid()
      modifies this, query
      ensures Valid()
      ensures r.Success? <==> !EmptyString(columnName) && dataType.Int? && old(query.bindType) != Positional
      ensures EmptyString(columnName) ==> r == Failure("Column name must not be empty")
      ensures !EmptyString(columnName) ==> columnName in placeholders
      ensures r.Success? ==>
        query.bind == old(query.bind)[Str(placeholders[columnName]) := BindEntry(BindValueKind, value, dataType.i, None)]
      ensures r.Failure? ==> query.bind == old(query.bind)
      ensures !EmptyString(columnName) ==> placeholders == old(placeholders)[columnName := placeholders[columnName]]
      ensures columns == old(columns) && query.parts == old(query.parts) && query.statement == old(query.statement)
    {
      hide StyleOf, IsNumeric, NumericString, NumberPrefix, PlaceholderFor, Query.Valid;
      if EmptyString(columnName) {
        return Failure("Column name must not be empty");
      }
      var parameter := UniquePlaceholder(columnName);
      PlaceholderIsNamed(parameter, columnName);
      r := query.BindValue(Str(parameter), value, dataType);
    }
  }
}
