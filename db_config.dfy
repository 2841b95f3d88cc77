/**
 * The connection settings `Brvr_Db::__construct` (Db.php) normalises before
 * it opens the PDO connection: the DSN string, built from its parts when it
 * is given as an array, the username, the password and the driver options.
 */
module DbConfig {
  import opened Wrappers
  import opened Php
  import opened PhpValue

  /** The normalised settings (`$c`). */
  datatype Connection = Connection(dsn: string, username: string, password: string, params: Option<seq<(string, Value)>>)

  /** `unset($a[$key])`: the other entries, in order. */
  function Remove(entries: seq<(string, Value)>, key: string): (r: seq<(string, Value)>)
    ensures !HasKey(r, key)
    ensures |r| <= |entries|
  {
    if entries == [] then []
    else if entries[0].0 == key then Remove(entries[1..], key)
    else (assert entries == [entries[0]] + entries[1..]; [entries[0]] + Remove(entries[1..], key))
  }

  /** Removing one key keeps every other key and its value. */
  lemma {:induction false} RemoveKeepsOthers(entries: seq<(string, Value)>, key: string, other: string)
    requires key != other
    ensures HasKey(Remove(entries, key), other) <==> HasKey(entries, other)
    ensures Lookup(Remove(entries, key), other) == Lookup(entries, other)
    decreases |entries|
  {
    if entries != [] {
      RemoveKeepsOthers(entries[1..], key, other);
      var r := Remove(entries[1..], key);
      assert entries == [entries[0]] + entries[1..];
      HasKeyCons(entries[0], entries[1..]);
      if entries[0].0 != key {
        HasKeyCons(entries[0], r);
      }
    }
  }

  /** Removing an absent key changes nothing. */
  lemma {:induction false} RemoveAbsent(entries: seq<(string, Value)>, key: string)
    requires !HasKey(entries, key)
    ensures Remove(entries, key) == entries
    decreases |entries|
  {
    if entries != [] {
      forall i | 0 <= i < |entries[1..]|
        ensures entries[1..][i].0 != key
      {
        assert entries[1..][i] == entries[i + 1];
      }
      RemoveAbsent(entries[1..], key);
    }
  }

  /** Byte-wise string order, a proper prefix first, as PHP compares two non-numeric strings. */
  predicate StrLe(a: string, b: string)
    decreases |a|
  {
    a == [] || (b != [] && (a[0] < b[0] || (a[0] == b[0] && StrLe(a[1..], b[1..]))))
  }

  lemma {:induction false} StrLeTotal(a: string, b: string)
    ensures StrLe(a, b) || StrLe(b, a)
    decreases |a|
  {
    if a != [] && b != [] && a[0] == b[0] {
      StrLeTotal(a[1..], b[1..]);
    }
  }

  lemma {:induction false} StrLeTrans(a: string, b: string, c: string)
    requires StrLe(a, b) && StrLe(b, c)
    ensures StrLe(a, c)
    decreases |a|
  {
    if a != [] && a[0] == b[0] && b[0] == c[0] {
      StrLeTrans(a[1..], b[1..], c[1..]);
    }
  }

  /** DSN parameters in ascending order of value. */
  predicate SortedByValue(pairs: seq<(string, string)>) {
    forall i, j :: 0 <= i < j < |pairs| ==> StrLe(pairs[i].1, pairs[j].1)
  }

  /** Place `x` after every pair whose value is not greater, so equal values keep their order. */
  function InsertByValue(sorted: seq<(string, string)>, x: (string, string)): (r: seq<(string, string)>)
    ensures |r| == |sorted| + 1
    decreases |sorted|
  {
    if sorted == [] || StrLe(sorted[|sorted| - 1].1, x.1) then sorted + [x]
    else InsertByValue(sorted[..|sorted| - 1], x) + [sorted[|sorted| - 1]]
  }

  /** `asort($dsnParts)`: a stable sort by value. */
  function SortByValue(pairs: seq<(string, string)>): (r: seq<(string, string)>)
    ensures |r| == |pairs|
  {
    if pairs == [] then [] else InsertByValue(SortByValue(pairs[..|pairs| - 1]), pairs[|pairs| - 1])
  }

  lemma {:induction false} InsertByValuePermutes(sorted: seq<(string, string)>, x: (string, string))
    ensures multiset(InsertByValue(sorted, x)) == multiset(sorted) + multiset{x}
    decreases |sorted|
  {
    if sorted != [] && !StrLe(sorted[|sorted| - 1].1, x.1) {
      var init := sorted[..|sorted| - 1];
      InsertByValuePermutes(init, x);
      assert sorted == init + [sorted[|sorted| - 1]];
    }
  }

  lemma {:induction false} InsertByValueSorted(sorted: seq<(string, string)>, x: (string, string))
    requires SortedByValue(sorted)
    ensures SortedByValue(InsertByValue(sorted, x))
    decreases |sorted|
  {
    if sorted == [] {
    } else if StrLe(sorted[|sorted| - 1].1, x.1) {
      var r := sorted + [x];
      forall i, j | 0 <= i < j < |r|
        ensures StrLe(r[i].1, r[j].1)
      {
        if j == |sorted| && i < |sorted| - 1 {
          StrLeTrans(sorted[i].1, sorted[|sorted| - 1].1, x.1);
        }
      }
    } else {
      var init := sorted[..|sorted| - 1];
      var last := sorted[|sorted| - 1];
      InsertByValueSorted(init, x);
      InsertByValuePermutes(init, x);
      StrLeTotal(last.1, x.1);
      var front := InsertByValue(init, x);
      var r := front + [last];
      forall i, j | 0 <= i < j < |r|
        ensures StrLe(r[i].1, r[j].1)
      {
        if j == |front| {
          assert r[i] in multiset(front);
          if r[i] != x {
            assert r[i] in multiset(init);
            var k :| 0 <= k < |init| && init[k] == r[i];
            assert sorted[k] == r[i];
          }
        }
      }
    }
  }

  /** What `asort` promises: the same pairs, ordered by value. */
  lemma {:induction false} SortByValueSortsAndPermutes(pairs: seq<(string, string)>)
    ensures SortedByValue(SortByValue(pairs))
    ensures multiset(SortByValue(pairs)) == multiset(pairs)
    decreases |pairs|
  {
    if pairs != [] {
      var init := pairs[..|pairs| - 1];
      SortByValueSortsAndPermutes(init);
      InsertByValueSorted(SortByValue(init), pairs[|pairs| - 1]);
      InsertByValuePermutes(SortByValue(init), pairs[|pairs| - 1]);
      assert pairs == init + [pairs[|pairs| - 1]];
    }
  }

  /** One `"$key=$value;"`. */
  function DsnPair(pair: (string, string)): string {
    pair.0 + "=" + pair.1 + ";"
  }

  /** The concatenated `key=value;` pairs, in the given order. */
  function DsnPairs(pairs: seq<(string, string)>): string {
    if pairs == [] then "" else DsnPairs(pairs[..|pairs| - 1]) + DsnPair(pairs[|pairs| - 1])
  }

  /** The `key=value` texts the DSN lists. */
  function PairTexts(pairs: seq<(string, string)>): (texts: seq<string>)
    ensures |texts| == |pairs|
  {
    seq(|pairs|, i requires 0 <= i < |pairs| => pairs[i].0 + "=" + pairs[i].1)
  }

  /** The parameters: pairs ordered by value, `;` after each, trailing `;` trimmed; nothing without pairs. */
  function DsnParams(pairs: seq<(string, string)>): string {
    if pairs == [] then "" else RTrim(DsnPairs(SortByValue(pairs)), {';'})
  }

  lemma {:induction false} DsnPairsJoin(pairs: seq<(string, string)>)
    requires pairs != []
    ensures DsnPairs(pairs) == Join(";", PairTexts(pairs)) + ";"
    decreases |pairs|
  {
    var init := pairs[..|pairs| - 1];
    if |pairs| == 1 {
      assert init == [];
    } else {
      DsnPairsJoin(init);
      assert PairTexts(pairs)[..|pairs| - 1] == PairTexts(init);
    }
  }

  /** `rtrim` of one more `c` after a string that does not end in `c` gives the string back. */
  lemma RTrimOneMore(s: string, c: char)
    requires s == "" || s[|s| - 1] != c
    ensures RTrim(s + [c], {c}) == s
  {
    assert (s + [c])[..|s|] == s;
  }

  /** The joined texts end with the last text. */
  lemma {:induction false} JoinEndsWith(glue: string, texts: seq<string>)
    requires texts != []
    ensures var j := Join(glue, texts); var t := texts[|texts| - 1]; |j| >= |t| && j[|j| - |t|..] == t
  {
  }

  /**
   * The parameters are the sorted `key=value` texts joined by `;`, unless
   * the last value ends in `;`, which the final `rtrim` also strips.
   */
  lemma DsnParamsJoin(pairs: seq<(string, string)>)
    requires pairs != []
    requires var last := SortByValue(pairs)[|pairs| - 1]; last.1 == "" || last.1[|last.1| - 1] != ';'
    ensures DsnParams(pairs) == Join(";", PairTexts(SortByValue(pairs)))
  {
    var sorted := SortByValue(pairs);
    var texts := PairTexts(sorted);
    var joined := Join(";", texts);
    DsnPairsJoin(sorted);
    JoinEndsWith(";", texts);
    var t := texts[|texts| - 1];
    assert t[|t| - 1] != ';';
    assert joined[|joined| - 1] == t[|t| - 1];
    RTrimOneMore(joined, ';');
  }

  /** The characters `rtrim` removes from the prefix: the blanks and `:`. */
  const PrefixTrim: set<char> := Blank + {':'}

  /** The `(string)` cast of each remaining value, as `"$key=$value;"` makes it. */
  function CastValues(entries: seq<(string, Value)>): (r: Result<seq<(string, string)>>)
    ensures r.Failure? <==> exists i :: 0 <= i < |entries| && entries[i].1.Object?
    ensures r.Success? ==> |r.value| == |entries|
    ensures r.Success? ==> forall i :: 0 <= i < |entries| ==> r.value[i] == (entries[i].0, StrCast(entries[i].1).value)
  {
    if entries == [] then Success([])
    else
      match StrCast(entries[0].1)
      case Failure(e) => Failure(e)
      case Success(v) =>
        match CastValues(entries[1..])
        case Failure(e) => Failure(e)
        case Success(rest) => Success([(entries[0].0, v)] + rest)
  }

  /** The type error `rtrim` raises for an array in place of its string. */
  const PrefixArrayError: string := "rtrim(): Argument #1 ($string) must be of type string, array given"

  /** `rtrim`'s string argument: an array is refused, anything else is cast to a string. */
  function TrimArgument(v: Value): (r: Result<string>)
    ensures v.Arr? ==> r == Failure(PrefixArrayError)
    ensures v.Str? ==> r == Success(v.s)
    ensures r.Failure? <==> v.Arr? || v.Object?
  {
    if v.Arr? then Failure(PrefixArrayError) else StrCast(v)
  }

  /** The DSN built from an array of parts. */
  function DsnFromArray(dsnParts: seq<(string, Value)>): (r: Result<string>)
    ensures Empty(Lookup(dsnParts, "prefix")) ==> r == Failure("No DSN prefix specified")
    ensures !Empty(Lookup(dsnParts, "prefix")) && Lookup(dsnParts, "prefix").Arr? ==> r == Failure(PrefixArrayError)
    ensures r.Success? ==> !Empty(Lookup(dsnParts, "prefix")) && !Lookup(dsnParts, "prefix").Arr?
  {
    var prefix := Lookup(dsnParts, "prefix");
    if Empty(prefix) then Failure("No DSN prefix specified")
    else match TrimArgument(prefix)
      case Failure(e) => Failure(e)
      case Success(prefixText) =>
        var postfix := if HasKey(dsnParts, "postfix") then Lookup(dsnParts, "postfix") else Str("");
        match CastValues(Remove(Remove(dsnParts, "prefix"), "postfix"))
        case Failure(e) => Failure(e)
        case Success(pairs) =>
          match StrCast(postfix)
          case Failure(e) => Failure(e)
          case Success(postfixText) => Success(RTrim(prefixText, PrefixTrim) + ":" + DsnParams(pairs) + postfixText)
  }

  /**
   * A built DSN: the prefix without trailing blanks or colons, one colon,
   * the parameters, the postfix.
   */
  lemma DsnFromArrayShape(dsnParts: seq<(string, Value)>, prefixText: string, pairs: seq<(string, string)>)
    requires DsnFromArray(dsnParts).Success?
    requires TrimArgument(Lookup(dsnParts, "prefix")) == Success(prefixText)
    requires CastValues(Remove(Remove(dsnParts, "prefix"), "postfix")) == Success(pairs)
    ensures var dsn := DsnFromArray(dsnParts).value; var p := RTrim(prefixText, PrefixTrim);
      |dsn| > |p| && dsn[..|p|] == p && dsn[|p|] == ':' && (p == "" || p[|p| - 1] !in PrefixTrim) &&
      dsn[|p| + 1..|p| + 1 + |DsnParams(pairs)|] == DsnParams(pairs)
  {
    hide DsnParams, RTrim;
  }

  /** The configuration the constructor keeps: an array with a DSN, or an error. */
  function Settings(config: Value): (r: Result<Connection>)
    ensures !config.Arr? ==> r == Failure("Adapter configuration parameters must be an array or a Zend_Config object")
    ensures config.Arr? && !(Lookup(config.entries, "dsn").Arr? || Lookup(config.entries, "dsn").Str?) ==>
      r == Failure("No DSN specified")
    ensures config.Arr? && Empty(Lookup(config.entries, "dsn")) ==> r == Failure("No DSN specified")
    ensures r.Success? && Lookup(config.entries, "dsn").Str? ==> r.value.dsn == Lookup(config.entries, "dsn").s
    ensures r.Success? && !HasKey(config.entries, "username") ==> r.value.username == ""
    ensures r.Success? && !HasKey(config.entries, "password") ==> r.value.password == ""
    ensures r.Success? ==> (r.value.params.Some? <==> Lookup(config.entries, "params").Arr? && !Empty(Lookup(config.entries, "params")))
  {
    if !config.Arr? then Failure("Adapter configuration parameters must be an array or a Zend_Config object")
    else
      var dsnValue := Lookup(config.entries, "dsn");
      var dsn :=
        if dsnValue.Arr? && !Empty(dsnValue) then DsnFromArray(dsnValue.entries)
        else if dsnValue.Str? && !Empty(dsnValue) then Success(dsnValue.s)
        else Failure("No DSN specified");
      if dsn.Failure? then Failure(dsn.error)
      else
        var username := if HasKey(config.entries, "username") then StrCast(Lookup(config.entries, "username")) else Success("");
        var password := if HasKey(config.entries, "password") then StrCast(Lookup(config.entries, "password")) else Success("");
        var params := Lookup(config.entries, "params");
        if username.Failure? then Failure(username.error)
        else if password.Failure? then Failure(password.error)
        else Success(Connection(dsn.value, username.value, password.value,
          if !Empty(params) && params.Arr? then Some(params.entries) else None))
  }

  /** The `foreach` over the sorted parts, appending `key=value;` each time, then the `rtrim`. */
  method RenderDsnParams(pairs: seq<(string, string)>) returns (dsnParams: string)
    ensures dsnParams == DsnParams(pairs)
  {
    dsnParams := "";
    if pairs != [] {
      var sorted := SortByValue(pairs);
      for k := 0 to |sorted|
        invariant dsnParams == DsnPairs(sorted[..k])
      {
        dsnParams := dsnParams + DsnPair(sorted[k]);
        assert sorted[..k + 1][..k] == sorted[..k];
      }
      assert sorted[..|sorted|] == sorted;
      dsnParams := RTrim(dsnParams, {';'});
    }
  }

  /** The DSN array branch of the constructor, step by step. */
  method BuildDsn(dsnParts: seq<(string, Value)>) returns (r: Result<string>)
    ensures r == DsnFromArray(dsnParts)
  {
    hide DsnParams, RTrim, CastValues, Remove, Lookup;
    var prefixValue := Lookup(dsnParts, "prefix");
    if Empty(prefixValue) {
      return Failure("No DSN prefix specified");
    }
    var prefixText := TrimArgument(prefixValue);
    if prefixText.Failure? {
      return Failure(prefixText.error);
    }
    var prefix := RTrim(prefixText.value, PrefixTrim);
    var rest := Remove(dsnParts, "prefix");
    RemoveKeepsOthers(dsnParts, "prefix", "postfix");
    var postfix := Str("");
    if HasKey(rest, "postfix") {
      postfix := Lookup(rest, "postfix");
      rest := Remove(rest, "postfix");
    } else {
      RemoveAbsent(rest, "postfix");
    }
    var pairs := CastValues(rest);
    if pairs.Failure? {
      return Failure(pairs.error);
    }
    var dsnParams := RenderDsnParams(pairs.value);
    var postfixText := StrCast(postfix);
    if postfixText.Failure? {
      return Failure(postfixText.error);
    }
    r := Success(prefix + ":" + dsnParams + postfixText.value);
  }

  /** `__construct($config)` up to the point where it opens the connection: the settings it stores in `_config`. */
  method Normalise(config: Value) returns (r: Result<Connection>)
    ensures r == Settings(config)
  {
    hide DsnFromArray, Lookup;
    if !config.Arr? {
      return Failure("Adapter configuration parameters must be an array or a Zend_Config object");
    }
    var dsnValue := Lookup(config.entries, "dsn");
    var dsn: string;
    if dsnValue.Arr? && !Empty(dsnValue) {
      var built := BuildDsn(dsnValue.entries);
      if built.Failure? {
        return Failure(built.error);
      }
      dsn := built.value;
    } else if dsnValue.Str? && !Empty(dsnValue) {
      dsn := dsnValue.s;
    } else {
      return Failure("No DSN specified");
    }
    var username := "";
    if HasKey(config.entries, "username") {
      var cast := StrCast(Lookup(config.entries, "username"));
      if cast.Failure? {
        return Failure(cast.error);
      }
      username := cast.value;
    }
    var password := "";
    if HasKey(config.entries, "password") {
      var cast := StrCast(Lookup(config.entries, "password"));
      if cast.Failure? {
        return Failure(cast.error);
      }
      password := cast.value;
    }
    var paramsValue := Lookup(config.entries, "params");
    var params: Option<seq<(string, Value)>> := None;
    if !Empty(paramsValue) && paramsValue.Arr? {
      params := Some(paramsValue.entries);
    }
    r := Success(Connection(dsn, username, password, params));
  }
}
