/**
 * The few PHP string primitives the modelled code relies on, with the
 * behaviour PHP gives them on out-of-range arguments.
 */
module Php {
  import opened Wrappers

  /** `substr($s, $start, $len)` for a non-negative start and length. */
  function Substr(s: string, start: nat, len: nat): (r: string)
    ensures |r| <= len
  {
    if start >= |s| then "" else if start + len <= |s| then s[start..start + len] else s[start..]
  }

  /** `substr($s, $start)`: the tail from `start`, empty past the end. */
  function Tail(s: string, start: nat): string {
    if start >= |s| then "" else s[start..]
  }

  /** `implode('', $parts)`. */
  function Concat(parts: seq<string>): (r: string)
    ensures parts == [] ==> r == ""
  {
    if parts == [] then "" else Concat(parts[..|parts| - 1]) + parts[|parts| - 1]
  }

  /** `implode($glue, $parts)`. */
  function Join(glue: string, parts: seq<string>): string {
    if parts == [] then ""
    else if |parts| == 1 then parts[0]
    else Join(glue, parts[..|parts| - 1]) + glue + parts[|parts| - 1]
  }

  /** `strpos($s, $c)` for a character that occurs: the index of its first occurrence. */
  function IndexOf(s: string, c: char): (i: nat)
    requires c in s
    ensures i < |s| && s[i] == c && c !in s[..i]
  {
    if s[0] == c then 0 else (assert c in s[1..]; 1 + IndexOf(s[1..], c))
  }

  /** `explode($c, $s)` for a one-character separator: the pieces between the separators. */
  function Explode(s: string, c: char): (parts: seq<string>)
    ensures |parts| >= 1
    ensures forall i :: 0 <= i < |parts| ==> c !in parts[i]
    ensures c !in s ==> parts == [s]
    decreases |s|
  {
    if c !in s then [s] else [s[..IndexOf(s, c)]] + Explode(s[IndexOf(s, c) + 1..], c)
  }

  /** `explode($c, $s, 2)` when the result has two pieces: the text before the first separator and the rest. */
  function SplitAtFirst(s: string, c: char): (r: Option<(string, string)>)
    ensures r.None? <==> c !in s
    ensures r.Some? ==> c !in r.value.0 && s == r.value.0 + [c] + r.value.1
  {
    if c !in s then None else Some((s[..IndexOf(s, c)], s[IndexOf(s, c) + 1..]))
  }

  /** The first occurrence of `c` in `a + [c] + b` is right after `a` when `a` has none. */
  lemma {:induction false} IndexOfAfter(a: string, c: char, b: string)
    requires c !in a
    ensures IndexOf(a + [c] + b, c) == |a|
    decreases |a|
  {
    if a != [] {
      assert (a + [c] + b)[1..] == a[1..] + [c] + b;
      IndexOfAfter(a[1..], c, b);
    }
  }

  /** Both splits cut `a + [c] + b` right after `a` when `a` has no `c`. */
  lemma SplitAfter(a: string, c: char, b: string)
    requires c !in a
    ensures Explode(a + [c] + b, c) == [a] + Explode(b, c)
    ensures SplitAtFirst(a + [c] + b, c) == Some((a, b))
  {
    var s := a + [c] + b;
    IndexOfAfter(a, c, b);
    assert s[|a|] == c;
    assert s[..|a|] == a && s[|a| + 1..] == b;
  }

  /** A join is its first part, the glue, then the join of the rest. */
  lemma {:induction false} JoinCons(glue: string, x: string, parts: seq<string>)
    requires parts != []
    ensures Join(glue, [x] + parts) == x + glue + Join(glue, parts)
    decreases |parts|
  {
    var all := [x] + parts;
    var front, last := parts[..|parts| - 1], parts[|parts| - 1];
    assert all[..|all| - 1] == [x] + front && all[|all| - 1] == last;
    assert Join(glue, all) == Join(glue, [x] + front) + glue + last;
    if front != [] {
      assert Join(glue, parts) == Join(glue, front) + glue + last;
      hide Join;
      JoinCons(glue, x, front);
    } else {
      assert Join(glue, [x] + front) == x && Join(glue, parts) == last;
    }
  }

  /** `explode` cuts at the first separator and goes on after it. */
  lemma ExplodeStep(s: string, c: char)
    requires c in s
    ensures Explode(s, c) == [s[..IndexOf(s, c)]] + Explode(s[IndexOf(s, c) + 1..], c)
  {
  }

  /** Without a separator the whole string is the only part, and its own join. */
  lemma ExplodeNone(s: string, c: char)
    requires c !in s
    ensures Join([c], Explode(s, c)) == s
  {
  }

  /** `implode` undoes `explode` with the same separator. */
  lemma {:induction false} ExplodeJoin(s: string, c: char)
    ensures Join([c], Explode(s, c)) == s
    decreases |s|
  {
    hide *;
    if c in s {
      var i := IndexOf(s, c);
      var rest := Explode(s[i + 1..], c);
      ExplodeStep(s, c);
      ExplodeJoin(s[i + 1..], c);
      JoinCons([c], s[..i], rest);
      assert s == s[..i] + [c] + s[i + 1..];
    } else {
      ExplodeNone(s, c);
    }
  }

  /** PHP `empty()` of a string: true for "" and for "0". */
  predicate EmptyString(s: string) {
    s == "" || s == "0"
  }

  /** `substr_count($s, $needle)` for a needle of length 2 (non-overlapping). */
  function CountPair(s: string, a: char, b: char): nat {
    if |s| < 2 then 0
    else if s[0] == a && s[1] == b then 1 + CountPair(s[2..], a, b)
    else CountPair(s[1..], a, b)
  }

  /** `substr_count($s, $c)` for a single character. */
  function CountChar(s: string, c: char): (n: nat)
    ensures n <= |s|
  {
    if s == [] then 0 else (if s[0] == c then 1 else 0) + CountChar(s[1..], c)
  }

  lemma {:induction false} ConcatAppend(parts: seq<string>, more: seq<string>)
    ensures Concat(parts + more) == Concat(parts) + Concat(more)
    decreases |more|
  {
    if more == [] {
      assert parts + more == parts;
    } else {
      var last := more[|more| - 1];
      assert (parts + more)[..|parts + more| - 1] == parts + more[..|more| - 1];
      ConcatAppend(parts, more[..|more| - 1]);
    }
  }

  lemma ConcatSingle(x: string)
    ensures Concat([x]) == x
  {
    assert [x][..0] == [];
  }

  lemma ConcatCons(x: string, parts: seq<string>)
    ensures Concat([x] + parts) == x + Concat(parts)
  {
    ConcatAppend([x], parts);
    assert Concat([x]) == Concat([]) + x;
  }

  lemma {:induction false} CountCharAppend(a: string, b: string, c: char)
    ensures CountChar(a + b, c) == CountChar(a, c) + CountChar(b, c)
    decreases |a|
  {
    if a != "" {
      assert (a + b)[0] == a[0] && (a + b)[1..] == a[1..] + b;
      CountCharAppend(a[1..], b, c);
    } else {
      assert a + b == b;
    }
  }

  lemma {:induction false} CountCharAbsent(s: string, c: char)
    requires c !in s
    ensures CountChar(s, c) == 0
    decreases |s|
  {
    if s != "" {
      CountCharAbsent(s[1..], c);
    }
  }

  /** The characters `trim`, `ltrim` and `rtrim` strip when given none: space, tab, newline, carriage return, NUL, vertical tab. */
  const Blank: set<char> := {' ', '\t', '\n', '\r', '\0', '\U{0B}'}

  /** `rtrim($s, $chars)`: drop the trailing characters of `chars`. */
  function RTrim(s: string, chars: set<char>): (r: string)
    ensures |r| <= |s| && r == s[..|r|]
    ensures r == "" || r[|r| - 1] !in chars
    ensures forall i :: |r| <= i < |s| ==> s[i] in chars
    decreases |s|
  {
    if s != "" && s[|s| - 1] in chars then
      var r := RTrim(s[..|s| - 1], chars);
      assert s[..|s| - 1][..|r|] == s[..|r|];
      assert forall i :: |r| <= i < |s| - 1 ==> s[i] == s[..|s| - 1][i];
      r
    else s
  }

  /** `ltrim($s, $chars)`: drop the leading characters of `chars`. */
  function LTrim(s: string, chars: set<char>): (r: string)
    ensures |r| <= |s| && r == s[|s| - |r|..]
    ensures r == "" || r[0] !in chars
    ensures forall i :: 0 <= i < |s| - |r| ==> s[i] in chars
    decreases |s|
  {
    if s != "" && s[0] in chars then
      var r := LTrim(s[1..], chars);
      assert s[1..][|s| - 1 - |r|..] == s[|s| - |r|..];
      assert forall i :: 1 <= i < |s| - |r| ==> s[i] == s[1..][i - 1];
      r
    else s
  }

  /** `trim($s)`. */
  function Trim(s: string): (r: string)
    ensures r == "" || (r[0] !in Blank && r[|r| - 1] !in Blank)
  {
    LTrim(RTrim(s, Blank), Blank)
  }
}
