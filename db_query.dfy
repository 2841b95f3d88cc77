/**
 * Brvr_Db_Query (Db/Query.php): the state every query builder shares — the
 * clause parts it has collected, the parameters bound to it with the bind
 * style they fixed, and the statement prepared from it — and the protected
 * operations the builders call. Where and having conditions are condition
 * objects of a shared store (DbWhereCondition).
 */
module DbQuery {
  import opened Wrappers
  import opened Php
  import opened PhpValue
  import opened Decimal
  import opened DbWhereCondition

  /** The keys of `_parts`, the class constants of Brvr_Db_Query and its builders. */
  datatype PartKey =
    | Priority | Ignore | Columns | Table | From | Joins | Where | Having | Order | Group
    | LimitCount | LimitOffset | Distinct | GroupRollup | LockType | OnDuplicateKeyUpdate

  /** `BIND_PARAM` or `BIND_VALUE`: how PDO is to be given the entry. */
  datatype BindKind = BindParamKind | BindValueKind

  /** `DELAYED_PRIORITY`, `LOW_PRIORITY` and `HIGH_PRIORITY`. */
  const DelayedPriority := 0
  const LowPriority := 1
  const HighPriority := 2

  /** `PDO::PARAM_STR`, the default data type of the bind methods. */
  const ParamStr := 2

  /** One `_bind` entry: the kind, the variable or value, the PDO data type and an optional length. */
  datatype BindEntry = BindEntry(kind: BindKind, variable: Value, dataType: int, length: Option<int>)

  /** A value that is not a string. */
  type NonString = v: Value | !v.Str? witness Null

  /**
   * The argument of `_setWhereCondition`: a condition object, SQL text, or
   * anything else (another object included).
   */
  datatype WhereArg = ConditionObject(id: nat) | ConditionText(text: string) | NotCondition(value: NonString)

  /** `_bindType`: unset until the first bind, then named (`:name`, PHP true) or positional (`?`, PHP false). */
  datatype BindStyle = Unfixed | Named | Positional

  /** The style a parameter needs: positional for an integer or a numeric string, named for any other string. */
  function StyleOf(parameter: Value): BindStyle {
    if IsNumeric(parameter) then Positional else Named
  }

  /**
   * `is_numeric` decides the style, so a decimal fraction or an exponent form
   * binds positionally like an integer, while text that only starts with a
   * number binds by name.
   */
  lemma {:induction false} NumberTextStyles(n: nat, fraction: string, k: nat, rest: string)
    requires AllDigits(fraction)
    requires rest != [] && !IsDigit(rest[0]) && rest[0] != '.' && rest[0] != 'e' && rest[0] != 'E' && !IsSpace(rest[0])
    ensures StyleOf(Str(NatToString(n) + "." + fraction)) == Positional
    ensures StyleOf(Str(NatToString(n) + "e" + NatToString(k))) == Positional
    ensures StyleOf(Str(NatToString(n) + rest)) == Named
  {
    FractionTruncates(n, fraction);
    ExponentScales(n, k);
    LeadingInteger(n, rest);
  }

  /**
   * What `(integer)` stores for a numeric limit: a decimal fraction is cut
   * off, an exponent form is scaled; text that only starts with a number is
   * not numeric and is refused.
   */
  lemma {:induction false} LimitCasts(n: nat, fraction: string, k: nat, rest: string)
    requires AllDigits(fraction)
    requires rest != [] && !IsDigit(rest[0]) && rest[0] != '.' && rest[0] != 'e' && rest[0] != 'E' && !IsSpace(rest[0])
    ensures IsNumeric(Str(NatToString(n) + "." + fraction)) && IntCast(Str(NatToString(n) + "." + fraction)) == n
    ensures IsNumeric(Str(NatToString(n) + "e" + NatToString(k))) &&
      IntCast(Str(NatToString(n) + "e" + NatToString(k))) == n * Pow10(k)
    ensures !IsNumeric(Str(NatToString(n) + rest))
  {
    FractionTruncates(n, fraction);
    ExponentScales(n, k);
    LeadingInteger(n, rest);
  }

  /** The bound parameters are integers or strings, all of the style the first bind fixed. */
  predicate BindOk(bind: map<Value, BindEntry>, bindType: BindStyle) {
    (bind != map[] ==> bindType != Unfixed) &&
    (forall p :: p in bind ==> (p.Int? || p.Str?) && bindType == StyleOf(p))
  }

  /** Binding one more parameter of an allowed style keeps every parameter of that one style. */
  lemma BindOkPut(bind: map<Value, BindEntry>, oldType: BindStyle, parameter: Value, entry: BindEntry)
    requires BindOk(bind, oldType)
    requires (parameter.Int? || parameter.Str?) && (oldType == Unfixed || oldType == StyleOf(parameter))
    ensures BindOk(bind[parameter := entry], StyleOf(parameter))
  {
  }

  /** A sort list: expressions in the order first added, each with its direction (true ascending). */
  predicate UniqueKeys(items: seq<(string, bool)>) {
    forall i, j :: 0 <= i < j < |items| ==> items[i].0 != items[j].0
  }

  /** Store `direction` for `key`: in place when the key is there, at the end when it is new. */
  function Put(items: seq<(string, bool)>, key: string, direction: bool): (r: seq<(string, bool)>)
    requires UniqueKeys(items)
    ensures (exists i :: 0 <= i < |items| && items[i].0 == key) ==> |r| == |items|
    ensures (forall i :: 0 <= i < |items| ==> items[i].0 != key) ==> r == items + [(key, direction)]
    ensures forall i :: 0 <= i < |items| ==> r[i] == (if items[i].0 == key then (key, direction) else items[i])
  {
    if items == [] then [(key, direction)]
    else if items[0].0 == key then [(key, direction)] + items[1..]
    else [items[0]] + Put(items[1..], key, direction)
  }

  lemma {:induction false} PutKeepsUniqueKeys(items: seq<(string, bool)>, key: string, direction: bool)
    requires UniqueKeys(items)
    ensures UniqueKeys(Put(items, key, direction))
    ensures (key, direction) in Put(items, key, direction)
  {
    var r := Put(items, key, direction);
    if forall i :: 0 <= i < |items| ==> items[i].0 != key {
      assert r == items + [(key, direction)];
      assert r[|items|] == (key, direction);
      forall i, j | 0 <= i < j < |r|
        ensures r[i].0 != r[j].0
      {
        if j < |items| {
          assert r[i] == items[i] && r[j] == items[j];
        }
      }
    } else {
      var k :| 0 <= k < |items| && items[k].0 == key;
      assert |r| == |items|;
      assert r[k] == (key, direction);
      forall i, j | 0 <= i < j < |r|
        ensures r[i].0 != r[j].0
      {
        assert r[i].0 == items[i].0 && r[j].0 == items[j].0;
      }
    }
  }

  lemma SortsStayUnique(sorts: map<PartKey, seq<(string, bool)>>, target: PartKey, items: seq<(string, bool)>,
                        updated: map<PartKey, seq<(string, bool)>>)
    requires forall t :: t in sorts ==> UniqueKeys(sorts[t])
    requires UniqueKeys(items) && updated == sorts[target := items]
    ensures forall t :: t in updated ==> UniqueKeys(updated[t])
  {
  }

  /** One item of an ORDER BY or GROUP BY list. */
  function SortItemText(item: (string, bool)): string {
    if item.1 then item.0 else item.0 + " DESC"
  }

  /** What `_renderSortFragment` promises: the items joined by `, `, descending ones marked ` DESC`. */
  function SortFragment(source: seq<(string, bool)>): (s: string)
    ensures source == [] ==> s == ""
  {
    Join(", ", SortItemTexts(source))
  }

  function SortItemTexts(source: seq<(string, bool)>): (texts: seq<string>)
    ensures |texts| == |source|
    ensures forall i :: 0 <= i < |source| ==> texts[i] == SortItemText(source[i])
  {
    seq(|source|, i requires 0 <= i < |source| => SortItemText(source[i]))
  }

  /** The text `_renderSortFragment` has built before it cuts the leading `, `. */
  function Prefixed(texts: seq<string>): (s: string)
    ensures |s| >= 2 * |texts|
  {
    if texts == [] then "" else Prefixed(texts[..|texts| - 1]) + ", " + texts[|texts| - 1]
  }

  lemma {:induction false} PrefixedJoin(texts: seq<string>)
    requires texts != []
    ensures Tail(Prefixed(texts), 2) == Join(", ", texts)
    decreases |texts|
  {
    var init := texts[..|texts| - 1];
    var last := texts[|texts| - 1];
    if |texts| == 1 {
      assert Prefixed(texts) == "" + ", " + last;
    } else {
      PrefixedJoin(init);
      var p := Prefixed(init);
      assert (p + ", " + last)[2..] == p[2..] + ", " + last;
    }
  }

  /** The clause parts a builder has collected (`_parts`), the ones the shared operations touch. */
  datatype Parts = Parts(
    priority: Option<int>,
    table: Option<string>,
    ignore: bool,
    where: Option<nat>,
    having: Option<nat>,
    sorts: map<PartKey, seq<(string, bool)>>,
    limitCount: Option<int>,
    limitOffset: Option<int>)

  /** The message `_setLimitClause` throws for a target other than the two LIMIT parts. */
  const LimitTargetMessage := "$target must be equal to one of the LIMIT_* constants"

  /** The query state shared by the builders: `_parts`, `_bind`, `_bindType` and `_statement`. */
  class Query {
    var parts: Parts
    var bind: map<Value, BindEntry>
    var bindType: BindStyle
    var statement: Option<string>
    const conditions: Conditions

    /** Every bound parameter has the style fixed by the first bind; conditions exist; sort lists have unique keys. */
    ghost predicate Valid()
      reads this, conditions
    {
      conditions.Valid() &&
      (parts.where.Some? ==> parts.where.value < |conditions.nodes|) &&
      (parts.having.Some? ==> parts.having.value < |conditions.nodes|) &&
      BindOk(bind, bindType) &&
      (forall t :: t in parts.sorts ==> UniqueKeys(parts.sorts[t]))
    }

    /** A builder whose `_parts` holds the sort lists `sortTargets`, and nothing set yet. */
    constructor (conditions: Conditions, sortTargets: set<PartKey>)
      requires conditions.Valid()
      ensures Valid() && this.conditions == conditions
      ensures parts == Parts(None, None, false, None, None, map t | t in sortTargets :: [], None, None)
      ensures bind == map[] && bindType == Unfixed && statement == None
    {
      parts := Parts(None, None, false, None, None, map t | t in sortTargets :: [], None, None);
      bind := map[];
      bindType := Unfixed;
      statement := None;
      this.conditions := conditions;
    }

    /** `flushStatement()`. */
    method FlushStatement()
      modifies this
      ensures statement == None
      ensures parts == old(parts) && bind == old(bind) && bindType == old(bindType)
    {
      statement := None;
    }

    /** `_ignore()`. */
    method Ignore()
      modifies this
      ensures parts == old(parts).(ignore := true)
      ensures bind == old(bind) && bindType == old(bindType) && statement == old(statement)
    {
      parts := parts.(ignore := true);
    }

    /** `$this->_parts[self::PRIORITY] = $priority`, as `priority()` and `lowPriority()` write it. */
    method SetPriority(priority: int)
      requires Valid()
      modifies this
      ensures Valid()
      ensures parts == old(parts).(priority := Some(priority))
      ensures bind == old(bind) && bindType == old(bindType) && statement == old(statement)
    {
      parts := parts.(priority := Some(priority));
    }

    /** `_setTable($tableName)`: a non-empty string, or an error. */
    method SetTable(tableName: Value) returns (r: Result<()>)
      modifies this
      ensures r.Success? <==> tableName.Str? && !Empty(tableName)
      ensures r.Success? ==> parts == old(parts).(table := Some(tableName.s))
      ensures r.Failure? ==> parts == old(parts) && r.error == "Table name must not be empty"
      ensures bind == old(bind) && bindType == old(bindType) && statement == old(statement)
    {
      if Empty(tableName) || !tableName.Str? {
        return Failure("Table name must not be empty");
      }
      parts := parts.(table := Some(tableName.s));
      r := Success(());
    }

    /**
     * `_validateBindParameter($parameter)`: an integer or string, of the
     * style the bind type already fixed (which it fixes when unset).
     */
    method ValidateBindParameter(parameter: Value) returns (r: Result<()>)
      modifies this
      ensures r.Success? <==>
        (parameter.Int? || parameter.Str?) && (old(bindType) == Unfixed || old(bindType) == StyleOf(parameter))
      ensures r.Success? ==> bindType == StyleOf(parameter)
      ensures r.Failure? ==> bindType == old(bindType)
      ensures r.Failure? && !(parameter.Int? || parameter.Str?) ==> r.error == "Parameter of incorrect type"
      ensures r.Failure? && (parameter.Int? || parameter.Str?) ==> r.error == "Incompatible parameter types used with bind functions"
      ensures parts == old(parts) && bind == old(bind) && statement == old(statement)
    {
      if !parameter.Int? && !parameter.Str? {
        return Failure("Parameter of incorrect type");
      }
      if IsNumeric(parameter) {
        if bindType == Named {
          return Failure("Incompatible parameter types used with bind functions");
        }
        bindType := Positional;
      } else {
        if bindType == Positional {
          return Failure("Incompatible parameter types used with bind functions");
        }
        bindType := Named;
      }
      r := Success(());
    }

    /** `_bindParam($parameter, &$variable, $dataType, $length)`: store or replace the parameter's entry. */
    method BindParam(parameter: Value, variable: Value, dataType: Value, length: Value) returns (r: Result<()>)
      requires Valid()
      modifies this
      ensures Valid()
      ensures r.Success? <==>
        dataType.Int? && (length.Int? || length.Null?) &&
        (parameter.Int? || parameter.Str?) && (old(bindType) == Unfixed || old(bindType) == StyleOf(parameter))
      ensures r.Success? ==> bind == old(bind)[parameter :=
        BindEntry(BindParamKind, variable, dataType.i, if length.Int? then Some(length.i) else None)]
      ensures r.Failure? ==> bind == old(bind)
      ensures r.Failure? && !(dataType.Int? && (length.Int? || length.Null?)) ==>
        r.error == "Variables of incrorrect type passed method bindParam" && bindType == old(bindType)
      ensures parts == old(parts) && statement == old(statement)
    {
      hide NumericString, NumberPrefix, BindOk, StyleOf, IsNumeric;
      if !dataType.Int? || (!length.Int? && !length.Null?) {
        return Failure("Variables of incrorrect type passed method bindParam");
      }
      ghost var oldType := bindType;
      r := ValidateBindParameter(parameter);
      if r.Failure? {
        return;
      }
      BindOkPut(bind, oldType, parameter, BindEntry(BindParamKind, variable, dataType.i, if length.Int? then Some(length.i) else None));
      bind := bind[parameter := BindEntry(BindParamKind, variable, dataType.i, if length.Int? then Some(length.i) else None)];
    }

    /** `_bindValue($parameter, $value, $dataType)`: store or replace the parameter's entry. */
    method BindValue(parameter: Value, value: Value, dataType: Value) returns (r: Result<()>)
      requires Valid()
      modifies this
      ensures Valid()
      ensures r.Success? <==>
        dataType.Int? && (parameter.Int? || parameter.Str?) &&
        (old(bindType) == Unfixed || old(bindType) == StyleOf(parameter))
      ensures r.Success? ==> bind == old(bind)[parameter := BindEntry(BindValueKind, value, dataType.i, None)]
      ensures r.Failure? ==> bind == old(bind)
      ensures r.Failure? && !dataType.Int? ==>
        r.error == "Variables of incrorrect type passed method bindValue" && bindType == old(bindType)
      ensures parts == old(parts) && statement == old(statement)
    {
      hide NumericString, NumberPrefix, BindOk, StyleOf, IsNumeric;
      if !dataType.Int? {
        return Failure("Variables of incrorrect type passed method bindValue");
      }
      ghost var oldType := bindType;
      r := ValidateBindParameter(parameter);
      if r.Failure? {
        return;
      }
      BindOkPut(bind, oldType, parameter, BindEntry(BindValueKind, value, dataType.i, None));
      bind := bind[parameter := BindEntry(BindValueKind, value, dataType.i, None)];
    }

    /** `_setLimitClause($target, $limitInteger)`: a LIMIT target and a numeric value, stored as an integer. */
    method SetLimitClause(target: PartKey, limit: Value) returns (r: Result<()>)
      modifies this
      ensures r.Success? <==> (target == LimitCount || target == LimitOffset) && IsNumeric(limit)
      ensures r.Success? && target == LimitCount ==> parts == old(parts).(limitCount := Some(IntCast(limit)))
      ensures r.Success? && target == LimitOffset ==> parts == old(parts).(limitOffset := Some(IntCast(limit)))
      ensures r.Failure? ==> parts == old(parts)
      ensures r.Failure? && target != LimitCount && target != LimitOffset ==>
        r.error == LimitTargetMessage
      ensures bind == old(bind) && bindType == old(bindType) && statement == old(statement)
    {
      hide IsNumeric, IntCast;
      if target != LimitCount && target != LimitOffset {
        return Failure(LimitTargetMessage);
      }
      if !IsNumeric(limit) {
        return Failure("Values assosciated with LIMIT_* keys in the $_parts array must be numerical");
      }
      if target == LimitCount {
        parts := parts.(limitCount := Some(IntCast(limit)));
      } else {
        parts := parts.(limitOffset := Some(IntCast(limit)));
      }
      r := Success(());
    }

    /**
     * `_addSortClause($targetClause, $columnOrExpr, $sort)`: the target must be
     * a sort list of this builder, the expression a non-empty string and the
     * direction a boolean; the trimmed expression is stored with it, in place
     * when it is already listed.
     */
    method AddSortClause(target: PartKey, columnOrExpr: Value, sort: Value) returns (r: Result<()>)
      requires Valid()
      modifies this
      ensures Valid()
      ensures r.Success? <==> target in old(parts.sorts) && columnOrExpr.Str? && !Empty(columnOrExpr) && sort.Bool?
      ensures r.Success? ==>
        parts == old(parts).(sorts := old(parts.sorts)[target := Put(old(parts.sorts)[target], Trim(columnOrExpr.s), sort.b)])
      ensures r.Success? ==> (Trim(columnOrExpr.s), sort.b) in parts.sorts[target]
      ensures r.Failure? ==> parts == old(parts)
      ensures r.Failure? && target !in old(parts.sorts) ==> r.error == "$targetClause parameter must not be empty"
      ensures bind == old(bind) && bindType == old(bindType) && statement == old(statement)
    {
      hide NumericString, NumberPrefix;
      if target !in parts.sorts {
        return Failure("$targetClause parameter must not be empty");
      }
      if !(columnOrExpr.Str? && !Empty(columnOrExpr)) {
        return Failure("$columnOrExpr parameter must not be empty");
      }
      if !sort.Bool? {
        return Failure("orderBy method $sort parameter must be boolean");
      }
      var sortBy := Trim(columnOrExpr.s);
      var items := Put(parts.sorts[target], sortBy, sort.b);
      PutKeepsUniqueKeys(parts.sorts[target], sortBy, sort.b);
      SortsStayUnique(parts.sorts, target, items, parts.sorts[target := items]);
      parts := parts.(sorts := parts.sorts[target := items]);
      r := Success(());
    }

    /** `_getWhereCondition($target)`: the where or having condition, none (PHP false) when unset. */
    method GetWhereCondition(target: PartKey) returns (r: Result<Option<nat>>)
      ensures r.Success? <==> target == Where || target == Having
      ensures r.Success? ==> r.value == if target == Where then parts.where else parts.having
      ensures r.Failure? ==> r.error == "Target must be the where or having clause"
    {
      if target != Where && target != Having {
        return Failure("Target must be the where or having clause");
      }
      r := Success(if target == Where then parts.where else parts.having);
    }

    /**
     * `_setWhereCondition($target, $whereCondition, $conditionGlue)`: store a
     * condition object as it is, or wrap SQL text in a new condition with the
     * glue (AND when none is given).
     */
    method SetWhereCondition(target: PartKey, condition: WhereArg, glue: Value) returns (r: Result<()>)
      requires Valid()
      requires condition.ConditionObject? ==> condition.id < |conditions.nodes|
      modifies this, conditions
      ensures Valid()
      ensures r.Success? <==>
        (target == Where || target == Having) && !condition.NotCondition? &&
        (condition.ConditionText? ==> glue.Null? || IsGlue(glue))
      ensures r.Success? && condition.ConditionObject? ==>
        conditions.nodes == old(conditions.nodes) &&
        parts == if target == Where then old(parts).(where := Some(condition.id)) else old(parts).(having := Some(condition.id))
      ensures r.Success? && condition.ConditionText? ==>
        var id := |old(conditions.nodes)|;
        conditions.nodes == old(conditions.nodes) +
          [Node(if glue.Null? then "AND" else glue.s, false, [Text(condition.text)])] &&
        parts == if target == Where then old(parts).(where := Some(id)) else old(parts).(having := Some(id))
      ensures r.Failure? ==> conditions.nodes == old(conditions.nodes) && parts == old(parts)
      ensures r.Failure? && target != Where && target != Having ==> r.error == "Target must be the where or having clause"
      ensures bind == old(bind) && bindType == old(bindType) && statement == old(statement)
    {
      hide NumericString, NumberPrefix;
      if target != Where && target != Having {
        return Failure("Target must be the where or having clause");
      }
      var given := ConditionOf(condition, glue);
      if given.Failure? {
        return Failure(given.error);
      }
      var id := given.value;
      if target == Where {
        parts := parts.(where := Some(id));
      } else {
        parts := parts.(having := Some(id));
      }
      r := Success(());
    }

    /**
     * The condition object `_setWhereCondition` stores: the one passed, or
     * a new one holding the text; anything else is refused.
     */
    method ConditionOf(condition: WhereArg, glue: Value) returns (r: Result<nat>)
      requires conditions.Valid()
      requires condition.ConditionObject? ==> condition.id < |conditions.nodes|
      modifies conditions
      ensures conditions.Valid()
      ensures r.Success? <==> !condition.NotCondition? && (condition.ConditionText? ==> glue.Null? || IsGlue(glue))
      ensures r.Success? && condition.ConditionObject? ==>
        r.value == condition.id && conditions.nodes == old(conditions.nodes)
      ensures r.Success? && condition.ConditionText? ==>
        r.value == |old(conditions.nodes)| &&
        conditions.nodes == old(conditions.nodes) + [Node(if glue.Null? then "AND" else glue.s, false, [Text(condition.text)])]
      ensures r.Success? ==> r.value < |conditions.nodes|
      ensures r.Failure? ==> conditions.nodes == old(conditions.nodes)
    {
      hide *;
      match condition {
        case ConditionObject(c) =>
          r := Success(c);
        case ConditionText(text) =>
          r := NewTextCondition(text, glue);
        case NotCondition(_) =>
          r := Failure("$whereCondition must be either a string or an instance of Brvr_Db_Query_WhereCondition");
      }
    }

    /** `new Brvr_Db_Query_WhereCondition($conditionGlue)` then `addWhereCondition($whereCondition)`. */
    method NewTextCondition(text: string, glue: Value) returns (r: Result<nat>)
      requires conditions.Valid()
      modifies conditions
      ensures conditions.Valid()
      ensures r.Success? <==> glue.Null? || IsGlue(glue)
      ensures r.Success? ==> r.value == |old(conditions.nodes)|
      ensures r.Success? ==>
        conditions.nodes == old(conditions.nodes) + [Node(if glue.Null? then "AND" else glue.s, false, [Text(text)])]
      ensures r.Failure? ==> conditions.nodes == old(conditions.nodes)
    {
      var created := conditions.NewCondition(if glue.Null? then Str("AND") else glue);
      if created.Failure? {
        return Failure(created.error);
      }
      var id := created.value;
      ghost var before := conditions.nodes;
      var added := conditions.AddWhereCondition(id, TextCondition(text));
      assert before[id].components + [Text(text)] == [Text(text)];
      r := Success(id);
    }

    /** The text of the where or having condition, when one is set. */
    function ClauseText(id: Option<nat>): (text: Option<string>)
      reads this, conditions
      requires Valid() && (id.Some? ==> id.value < |conditions.nodes|)
      ensures text.Some? <==> id.Some?
    {
      if id.Some? then Some(ConditionText(id.value)) else None
    }

    /** The text of a condition, as PHP interpolates the object. */
    function ConditionText(id: nat): string
      reads this, conditions
      requires Valid() && id < |conditions.nodes|
    {
      conditions.ToString(id)
    }
  }

  /** `_renderListFragment($source)`: the items joined by `, `. */
  function ListFragment(source: seq<string>): (s: string)
    ensures source == [] ==> s == ""
    ensures |source| == 1 ==> s == source[0]
  {
    Join(", ", source)
  }

  /** `IGNORE ` when `ignore()` was called (`=== true`). */
  function IgnoreKeyword(ignore: bool): (keyword: string)
    ensures keyword != "" <==> ignore
  {
    if ignore then "IGNORE " else ""
  }

  /** `LOW_PRIORITY ` exactly when the priority is `LOW_PRIORITY` (`=== 1`), as UPDATE and DELETE write it. */
  function LowPriorityKeyword(priority: Option<int>): (keyword: string)
    ensures keyword != "" <==> priority == Some(LowPriority)
  {
    if priority == Some(LowPriority) then "LOW_PRIORITY " else ""
  }

  /** A WHERE or HAVING clause: the keyword and the condition's text when one is set, nothing otherwise. */
  function ConditionClause(keyword: string, condition: Option<string>): string {
    if condition.Some? then keyword + condition.value else ""
  }

  /** A GROUP BY or ORDER BY clause: the keyword and the sort fragment when the list is non-empty. */
  function SortClause(keyword: string, items: seq<(string, bool)>): string {
    if items == [] then "" else keyword + SortFragment(items)
  }

  /** The LIMIT clause: only with a count, as `offset, count` when an offset is set too. */
  function LimitClause(count: Option<int>, offset: Option<int>): string {
    if count.None? then ""
    else if offset.Some? then " LIMIT " + (IntToString(offset.value) + ", ") + IntToString(count.value)
    else " LIMIT " + IntToString(count.value)
  }

  /** `_renderSortFragment($source)`: build `, item[ DESC]` per item, then cut the first `, `. */
  method RenderSortFragment(source: seq<(string, bool)>) returns (sortList: string)
    ensures sortList == SortFragment(source)
  {
    sortList := "";
    if source != [] {
      var texts := SortItemTexts(source);
      for k := 0 to |source|
        invariant sortList == Prefixed(texts[..k])
      {
        var item := source[k];
        sortList := sortList + ", " + item.0;
        if item.1 == false {
          sortList := sortList + " DESC";
        }
        assert texts[..k + 1][..k] == texts[..k];
      }
      assert texts[..|source|] == texts;
      PrefixedJoin(texts);
      sortList := Tail(sortList, 2);
    }
  }

  /**
   * The WHERE, ORDER BY and LIMIT steps the UPDATE and DELETE builders share
   * (each `.=` appends its whole right-hand side).
   */
  method AppendWhereOrderLimit(sql: string, where: Option<string>, order: seq<(string, bool)>, count: Option<int>)
    returns (out: string)
    ensures out == sql + ConditionClause(" WHERE ", where) + SortClause(" ORDER BY ", order) + LimitClause(count, None)
  {
    hide SortFragment, IntToString;
    out := sql;
    if where.Some? {
      out := out + (" WHERE " + where.value);
    } else {
      assert out + ConditionClause(" WHERE ", where) == out;
    }
    if order != [] {
      var orderList := RenderSortFragment(order);
      out := out + (" ORDER BY " + orderList);
    } else {
      assert out + SortClause(" ORDER BY ", order) == out;
    }
    if count.Some? {
      out := out + (" LIMIT " + IntToString(count.value));
    } else {
      assert out + LimitClause(count, None) == out;
    }
  }
}
