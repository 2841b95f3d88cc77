/**
 * Brvr_OpenId_ConsumerComponent (OpenId/ConsumerComponent.php): the base of
 * the OpenID consumer classes. It keeps a configuration array that can be
 * set once and an error message, and it reads responses written in the
 * key-value form of section 4.1.1 of OpenID Authentication 2.0: one
 * `key:value` pair per line.
 */
module OpenIdComponent {
  import opened Wrappers
  import opened Php
  import opened PhpValue

  /**
   * What one line of a response contributes: the line is trimmed, ignored
   * when it is empty in PHP's sense ("" or "0") or holds no colon, and is
   * otherwise split at its first colon into a trimmed key and a trimmed value.
   */
  function LineEntry(line: string): (r: Option<(string, string)>)
    ensures r.None? <==> EmptyString(Trim(line)) || ':' !in Trim(line)
    ensures r.Some? ==>
      exists key, value :: ':' !in key && Trim(line) == key + ":" + value && r.value == (Trim(key), Trim(value))
  {
    var t := Trim(line);
    if EmptyString(t) then None
    else match SplitAtFirst(t, ':')
      case None => None
      case Some((key, value)) => Some((Trim(key), Trim(value)))
  }

  /** One pass of the loop of `responseToArray`: `$params[trim($key)] = trim($value)`. */
  function Step(params: seq<(string, Value)>, line: string): seq<(string, Value)> {
    match LineEntry(line)
    case None => params
    case Some((key, value)) => Assign(params, key, Str(value))
  }

  /** The loop over one more line is one more pass. */
  lemma FoldPrefix(lines: seq<string>, k: nat)
    requires k < |lines|
    ensures Fold([], lines[..k + 1]) == Step(Fold([], lines[..k]), lines[k])
  {
    assert lines[..k + 1][..k] == lines[..k];
  }

  /** One pass, spelled out as the loop body does it: trim, skip an empty line, cut at the first colon. */
  lemma StepOfLine(params: seq<(string, Value)>, line: string)
    ensures Step(params, line) ==
      if EmptyString(Trim(line)) then params
      else match SplitAtFirst(Trim(line), ':')
        case None => params
        case Some((key, value)) => Assign(params, Trim(key), Str(Trim(value)))
  {
  }

  /** The loop of `responseToArray` over `lines`, starting from `params`. */
  function Fold(params: seq<(string, Value)>, lines: seq<string>): seq<(string, Value)> {
    if lines == [] then params else Step(Fold(params, lines[..|lines| - 1]), lines[|lines| - 1])
  }

  /** `responseToArray($responseString)`: every line of the response, in order, into an empty array. */
  function ParseResponse(response: string): seq<(string, Value)> {
    Fold([], Explode(response, '\n'))
  }

  /** Whether the line `line` contributes the key `key`. */
  predicate Gives(line: string, key: string) {
    LineEntry(line).Some? && LineEntry(line).value.0 == key
  }

  /** Whether some line of `lines` contributes the key `key`. */
  predicate GivesKey(lines: seq<string>, key: string) {
    exists i :: 0 <= i < |lines| && Gives(lines[i], key)
  }

  /** The loop over two runs of lines is the loop over the second, started where the first ended. */
  lemma {:induction false} FoldAppend(params: seq<(string, Value)>, a: seq<string>, b: seq<string>)
    ensures Fold(params, a + b) == Fold(Fold(params, a), b)
    decreases |b|
  {
    if b == [] {
      assert a + b == a;
    } else {
      assert (a + b)[..|a + b| - 1] == a + b[..|b| - 1];
      FoldAppend(params, a, b[..|b| - 1]);
    }
  }

  /** One line adds its own key, if it gives one, and leaves every other key and its value alone. */
  lemma StepKeys(params: seq<(string, Value)>, line: string, key: string)
    ensures HasKey(Step(params, line), key) <==> HasKey(params, key) || Gives(line, key)
    ensures LineEntry(line).None? || LineEntry(line).value.0 != key ==> Lookup(Step(params, line), key) == Lookup(params, key)
  {
  }

  lemma GivesKeySnoc(front: seq<string>, line: string, key: string)
    ensures GivesKey(front + [line], key) <==> GivesKey(front, key) || Gives(line, key)
  {
    hide LineEntry, Gives;
    var lines := front + [line];
    assert lines[|front|] == line;
    if GivesKey(front, key) {
      var i :| 0 <= i < |front| && Gives(front[i], key);
      assert lines[i] == front[i];
      assert GivesKey(lines, key);
    }
    if GivesKey(lines, key) && !Gives(line, key) {
      var i :| 0 <= i < |lines| && Gives(lines[i], key);
      assert i != |front|;
      assert front[i] == lines[i];
      assert GivesKey(front, key);
    }
  }

  /** Lines that do not give `key` leave its presence and its value as they were. */
  lemma {:induction false} OtherLinesKeep(params: seq<(string, Value)>, lines: seq<string>, key: string)
    requires !GivesKey(lines, key)
    ensures HasKey(Fold(params, lines), key) <==> HasKey(params, key)
    ensures Lookup(Fold(params, lines), key) == Lookup(params, key)
    decreases |lines|
  {
    hide LineEntry, GivesKey, Step, HasKey, Lookup;
    if lines != [] {
      var front := lines[..|lines| - 1];
      var last := lines[|lines| - 1];
      assert lines == front + [last];
      assert Fold(params, lines) == Step(Fold(params, front), last);
      hide *;
      GivesKeySnoc(front, last, key);
      OtherLinesKeep(params, front, key);
      StepKeys(Fold(params, front), last, key);
    }
  }

  /** The array holds exactly the keys that some line gives. */
  lemma {:induction false} ParsedKeys(lines: seq<string>, key: string)
    ensures HasKey(Fold([], lines), key) <==> GivesKey(lines, key)
    decreases |lines|
  {
    hide LineEntry, Step, Lookup;
    if lines != [] {
      var front := lines[..|lines| - 1];
      var last := lines[|lines| - 1];
      assert lines == front + [last];
      assert Fold([], lines) == Step(Fold([], front), last);
      hide *;
      GivesKeySnoc(front, last, key);
      ParsedKeys(front, key);
      StepKeys(Fold([], front), last, key);
    }
  }

  /** A key takes the value of the last line that gives it: a later duplicate overwrites an earlier one. */
  lemma LastLineWins(before: seq<string>, line: string, after: seq<string>, key: string, value: string)
    requires LineEntry(line) == Some((key, value))
    requires !GivesKey(after, key)
    ensures Lookup(Fold([], before + [line] + after), key) == Str(value)
  {
    FoldAppend([], before + [line], after);
    OtherLinesKeep(Fold([], before + [line]), after, key);
    assert (before + [line])[..|before + [line]| - 1] == before;
  }

  /** A line without a colon is ignored. */
  lemma LineWithoutColon(params: seq<(string, Value)>, line: string)
    requires ':' !in line
    ensures Step(params, line) == params
  {
    var t := Trim(line);
    var r := RTrim(line, Blank);
    assert t == r[|r| - |t|..];
    forall i | 0 <= i < |t|
      ensures t[i] != ':'
    {
      assert t[i] == r[|r| - |t| + i] == line[|r| - |t| + i];
    }
  }

  /** One line of the key-value form: key, colon, value, newline. */
  function KeyValueLine(pair: (string, string)): string {
    pair.0 + ":" + pair.1
  }

  /** The key-value form of a list of pairs, each line ending in a newline. */
  function KeyValueForm(pairs: seq<(string, string)>): string {
    if pairs == [] then "" else KeyValueLine(pairs[0]) + "\n" + KeyValueForm(pairs[1..])
  }

  function KeyValueLines(pairs: seq<(string, string)>): (lines: seq<string>)
    ensures |lines| == |pairs|
    ensures forall i :: 0 <= i < |pairs| ==> lines[i] == KeyValueLine(pairs[i])
  {
    seq(|pairs|, i requires 0 <= i < |pairs| => KeyValueLine(pairs[i]))
  }

  /**
   * A pair the form can carry and `responseToArray` gives back unchanged:
   * no colon in the key, no newline anywhere, and nothing for `trim` to strip.
   */
  predicate Encodable(pair: (string, string)) {
    ':' !in pair.0 && '\n' !in pair.0 && '\n' !in pair.1 &&
    Trim(pair.0) == pair.0 && Trim(pair.1) == pair.1
  }

  predicate DistinctKeys(pairs: seq<(string, string)>) {
    forall i, j :: 0 <= i < j < |pairs| ==> pairs[i].0 != pairs[j].0
  }

  /** A string that starts and ends outside the trimmed characters is its own trim. */
  lemma TrimUnchanged(s: string)
    requires s != "" && s[0] !in Blank && s[|s| - 1] !in Blank
    ensures Trim(s) == s
  {
  }

  /** An encodable pair's line is read back as that pair. */
  lemma LineEntryOfPair(pair: (string, string))
    requires Encodable(pair)
    ensures LineEntry(KeyValueLine(pair)) == Some(pair)
  {
    var line := KeyValueLine(pair);
    assert line == pair.0 + [':'] + pair.1;
    assert line[|pair.0|] == ':';
    assert line[0] !in Blank;
    assert line[|line| - 1] !in Blank;
    TrimUnchanged(line);
    SplitAfter(pair.0, ':', pair.1);
  }

  /** The form splits into its lines and one empty piece after the last newline. */
  lemma {:induction false} ExplodeKeyValueForm(pairs: seq<(string, string)>)
    requires forall i :: 0 <= i < |pairs| ==> '\n' !in pairs[i].0 && '\n' !in pairs[i].1
    ensures Explode(KeyValueForm(pairs), '\n') == KeyValueLines(pairs) + [""]
    decreases |pairs|
  {
    hide Trim, LineEntry, Explode;
    if pairs != [] {
      var line := KeyValueLine(pairs[0]);
      assert KeyValueForm(pairs) == line + ['\n'] + KeyValueForm(pairs[1..]);
      assert '\n' !in line;
      SplitAfter(line, '\n', KeyValueForm(pairs[1..]));
      ExplodeKeyValueForm(pairs[1..]);
      assert KeyValueLines(pairs) == [line] + KeyValueLines(pairs[1..]);
    } else {
      assert KeyValueForm(pairs) == "" && KeyValueLines(pairs) == [];
    }
  }

  /**
   * Round trip: reading the key-value form of distinct encodable pairs gives
   * every pair back under its own key.
   */
  lemma KeyValueRoundTrip(pairs: seq<(string, string)>, i: nat)
    requires forall j :: 0 <= j < |pairs| ==> Encodable(pairs[j])
    requires DistinctKeys(pairs)
    requires i < |pairs|
    ensures Lookup(ParseResponse(KeyValueForm(pairs)), pairs[i].0) == Str(pairs[i].1)
  {
    ExplodeKeyValueForm(pairs);
    TrailingEmptyLine([], KeyValueLines(pairs));
    LinesRoundTrip(pairs, i);
  }

  /** Reading the lines themselves, before the final empty piece, gives the pair back. */
  lemma LinesRoundTrip(pairs: seq<(string, string)>, i: nat)
    requires forall j :: 0 <= j < |pairs| ==> Encodable(pairs[j])
    requires DistinctKeys(pairs)
    requires i < |pairs|
    ensures Lookup(Fold([], KeyValueLines(pairs)), pairs[i].0) == Str(pairs[i].1)
  {
    hide LineEntry, Trim, Fold, Encodable, DistinctKeys, KeyValueLine, GivesKey, Lookup;
    var lines := KeyValueLines(pairs);
    var before := lines[..i];
    var after := lines[i + 1..];
    assert lines == before + [lines[i]] + after;
    LineEntryOfPair(pairs[i]);
    LaterKeysDiffer(pairs, i);
    LastLineWins(before, lines[i], after, pairs[i].0, pairs[i].1);
  }

  /** The empty piece after the final newline adds nothing. */
  lemma TrailingEmptyLine(params: seq<(string, Value)>, lines: seq<string>)
    ensures Fold(params, lines + [""]) == Fold(params, lines)
  {
    assert (lines + [""])[..|lines|] == lines;
    assert LineEntry("") == None;
  }

  /** With distinct keys, no line after the i-th gives the i-th key. */
  lemma LaterKeysDiffer(pairs: seq<(string, string)>, i: nat)
    requires forall j :: 0 <= j < |pairs| ==> Encodable(pairs[j])
    requires DistinctKeys(pairs)
    requires i < |pairs|
    ensures !GivesKey(KeyValueLines(pairs)[i + 1..], pairs[i].0)
  {
    var after := KeyValueLines(pairs)[i + 1..];
    forall j | 0 <= j < |after|
      ensures !Gives(after[j], pairs[i].0)
    {
      LineEntryOfPair(pairs[i + 1 + j]);
    }
  }

  class ConsumerComponent {
    /** `_config`. */
    var config: seq<(string, Value)>
    /** `_error`. */
    var error: string

    /** The declared defaults: an empty configuration and no error. */
    constructor ()
      ensures config == [] && error == ""
    {
      config := [];
      error := "";
    }

    /** `getError()`: the last message stored by `setError`. */
    function GetError(): (e: string)
      reads this
      ensures e == error
    {
      error
    }

    /** `setError($error)`: store the string cast of the argument. */
    method SetError(e: Value) returns (r: Result<()>)
      modifies this
      ensures r.Success? <==> StrCast(e).Success?
      ensures r.Success? ==> GetError() == StrCast(e).value
      ensures r.Failure? ==> error == old(error)
      ensures config == old(config)
    {
      var text := StrCast(e);
      if text.Failure? {
        return Failure(text.error);
      }
      error := text.value;
      r := Success(());
    }

    /**
     * `setConfig($config)`: a non-array is refused; a configuration already
     * set and non-empty is kept and `false` returned; otherwise the array is
     * stored and `true` returned.
     */
    method SetConfig(newConfig: Value) returns (r: Result<bool>)
      modifies this
      ensures !newConfig.Arr? ==> r == Failure("$config must be an array")
      ensures newConfig.Arr? ==> r == Success(old(config) == [])
      ensures r == Success(true) ==> config == newConfig.entries
      ensures r != Success(true) ==> config == old(config)
      ensures error == old(error)
    {
      if !newConfig.Arr? {
        return Failure("$config must be an array");
      }
      if !Empty(Arr(config)) {
        return Success(false);
      }
      config := newConfig.entries;
      r := Success(true);
    }

    /**
     * `responseToArray($responseString)`: explode the response at newlines
     * and fill an array from its lines, a later key replacing an earlier one.
     */
    method ResponseToArray(response: string) returns (params: seq<(string, Value)>)
      ensures params == ParseResponse(response)
      ensures forall key :: HasKey(params, key) <==> GivesKey(Explode(response, '\n'), key)
    {
      var lines := Explode(response, '\n');
      assert lines[..|lines|] == lines;
      assert ParseResponse(response) == Fold([], lines[..|lines|]);
      assert Fold([], lines[..0]) == [];
      hide *;
      params := [];
      for k := 0 to |lines|
        invariant params == Fold([], lines[..k])
      {
        FoldPrefix(lines, k);
        StepOfLine(params, lines[k]);
        var line := Trim(lines[k]);
        if !EmptyString(line) {
          var x := SplitAtFirst(line, ':');
          if x.Some? {
            params := Assign(params, Trim(x.value.0), Str(Trim(x.value.1)));
          }
        }
      }
      forall key
        ensures HasKey(params, key) <==> GivesKey(lines, key)
      {
        ParsedKeys(lines, key);
      }
    }
  }
}
