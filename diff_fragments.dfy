/**
 * Brvr_Diff::extractFragments (Diff.php): the cutting of a text into the
 * fragments one granularity level compares. With no delimiters the text is
 * cut into single characters; otherwise every fragment is a run of
 * non-delimiters followed by the run of delimiters after it.
 */
module DiffFragments {
  import opened Php

  /** `strcspn($text, $delimiters, $start)`: the run of non-delimiters at `start`. */
  function Strcspn(text: string, delimiters: string, start: nat): (n: nat)
    requires start <= |text|
    ensures start + n <= |text|
    decreases |text| - start
  {
    if start == |text| || text[start] in delimiters then 0
    else 1 + Strcspn(text, delimiters, start + 1)
  }

  /** `strspn($text, $delimiters, $start)`: the run of delimiters at `start`. */
  function Strspn(text: string, delimiters: string, start: nat): (n: nat)
    requires start <= |text|
    ensures start + n <= |text|
    decreases |text| - start
  {
    if start == |text| || text[start] !in delimiters then 0
    else 1 + Strspn(text, delimiters, start + 1)
  }

  /** Where the fragment starting at `start` ends: past its non-delimiters, then its delimiters. */
  function FragmentEnd(text: string, delimiters: string, start: nat): (end: nat)
    requires start <= |text|
    ensures start <= end <= |text|
  {
    var middle := start + Strcspn(text, delimiters, start);
    middle + Strspn(text, delimiters, middle)
  }

  /** The fragments of `text` from `start` on, for a non-empty delimiter set. */
  function FragmentsFrom(text: string, delimiters: string, start: nat): seq<string>
    requires start <= |text|
    decreases |text| - start
  {
    var end := FragmentEnd(text, delimiters, start);
    if end == start then [] else [text[start..end]] + FragmentsFrom(text, delimiters, end)
  }

  /** The fragments cut so far, then the ones still to cut, make up all of them. */
  predicate Completes(done: seq<string>, rest: seq<string>, whole: seq<string>) {
    done + rest == whole
  }

  lemma CompletesStep(done: seq<string>, piece: string, later: seq<string>, whole: seq<string>)
    requires Completes(done, [piece] + later, whole)
    ensures Completes(done + [piece], later, whole)
  {
    assert (done + [piece]) + later == done + ([piece] + later);
  }

  lemma CompletesEnd(done: seq<string>, whole: seq<string>)
    requires Completes(done, [], whole)
    ensures done == whole
  {
    assert done + [] == done;
  }

  /** One pass of the loop: the fragment up to FragmentEnd, then the fragments after it. */
  lemma FragmentsFromStep(text: string, delimiters: string, start: nat)
    requires start <= |text|
    ensures var middle := start + Strcspn(text, delimiters, start);
      var end := middle + Strspn(text, delimiters, middle);
      start <= middle <= end <= |text| &&
      FragmentsFrom(text, delimiters, start) == if end == start then [] else [text[start..end]] + FragmentsFrom(text, delimiters, end)
  {
  }

  /** `str_split($text, 1)`: one fragment per character (none for the empty text). */
  function Chars(text: string): (parts: seq<string>)
    ensures |parts| == |text|
  {
    seq(|text|, i requires 0 <= i < |text| => [text[i]])
  }

  /** What `extractFragments($text, $delimiters)` returns; PHP's `empty()` means "" and "0" split into characters. */
  function Fragments(text: string, delimiters: string): seq<string> {
    if EmptyString(delimiters) then Chars(text) else FragmentsFrom(text, delimiters, 0)
  }

  /** The `for (;;)` loop of extractFragments, proved to cut the text as `Fragments` says. */
  method ExtractFragments(text: string, delimiters: string) returns (fragments: seq<string>)
    ensures fragments == Fragments(text, delimiters)
  {
    ghost var whole := FragmentsFrom(text, delimiters, 0);
    assert Fragments(text, delimiters) == if EmptyString(delimiters) then Chars(text) else whole;
    assert Completes([], whole, whole);
    hide *;
    if EmptyString(delimiters) {
      return Chars(text);
    }
    fragments := [];
    var start, end := 0, 0;
    while true
      invariant start == end <= |text|
      invariant Completes(fragments, FragmentsFrom(text, delimiters, start), whole)
      decreases |text| - start
    {
      FragmentsFromStep(text, delimiters, start);
      end := end + Strcspn(text, delimiters, end);
      end := end + Strspn(text, delimiters, end);
      if end == start {
        CompletesEnd(fragments, whole);
        break;
      }
      var piece := text[start..end];
      CompletesStep(fragments, piece, FragmentsFrom(text, delimiters, end), whole);
      fragments := fragments + [piece];
      start := end;
    }
  }

  /** A fragment's shape: once a delimiter appears, only delimiters follow. */
  predicate DelimitersTrail(f: string, delimiters: string) {
    forall a, b :: 0 <= a < b < |f| && f[a] in delimiters ==> f[b] in delimiters
  }

  /** Adjacent fragments meet where a delimiter run gives way to a non-delimiter. */
  predicate CutAtRunEnds(parts: seq<string>, delimiters: string) {
    forall i :: 0 <= i < |parts| - 1 && parts[i] != "" && parts[i + 1] != "" ==>
      parts[i][|parts[i]| - 1] in delimiters && parts[i + 1][0] !in delimiters
  }

  lemma {:induction false} StrcspnStops(text: string, delimiters: string, start: nat)
    requires start <= |text|
    ensures forall k :: start <= k < start + Strcspn(text, delimiters, start) ==> text[k] !in delimiters
    ensures start + Strcspn(text, delimiters, start) == |text| || text[start + Strcspn(text, delimiters, start)] in delimiters
    decreases |text| - start
  {
    if start < |text| && text[start] !in delimiters {
      StrcspnStops(text, delimiters, start + 1);
    }
  }

  lemma {:induction false} StrspnStops(text: string, delimiters: string, start: nat)
    requires start <= |text|
    ensures forall k :: start <= k < start + Strspn(text, delimiters, start) ==> text[k] in delimiters
    ensures start + Strspn(text, delimiters, start) == |text| || text[start + Strspn(text, delimiters, start)] !in delimiters
    decreases |text| - start
  {
    if start < |text| && text[start] in delimiters {
      StrspnStops(text, delimiters, start + 1);
    }
  }

  /** One turn of the loop: it advances unless the text is used up, and what it cuts has the fragment shape. */
  lemma FragmentEndFacts(text: string, delimiters: string, start: nat)
    requires start <= |text|
    ensures FragmentEnd(text, delimiters, start) == start <==> start == |text|
    ensures DelimitersTrail(text[start..FragmentEnd(text, delimiters, start)], delimiters)
    ensures FragmentEnd(text, delimiters, start) < |text| ==>
      text[FragmentEnd(text, delimiters, start)] !in delimiters
    ensures start < FragmentEnd(text, delimiters, start) < |text| ==>
      text[FragmentEnd(text, delimiters, start) - 1] in delimiters
  {
    var middle := start + Strcspn(text, delimiters, start);
    var end := FragmentEnd(text, delimiters, start);
    StrcspnStops(text, delimiters, start);
    StrspnStops(text, delimiters, middle);
    var f := text[start..end];
    forall a, b | 0 <= a < b < |f| && f[a] in delimiters
      ensures f[b] in delimiters
    {
      assert f[a] == text[start + a] && f[b] == text[start + b];
    }
  }

  /** A fragment ending in a delimiter, put before fragments starting with a non-delimiter, keeps the cuts at run ends. */
  lemma CutsCons(head: string, rest: seq<string>, delimiters: string)
    requires head != ""
    requires CutAtRunEnds(rest, delimiters)
    requires rest != [] && rest[0] != "" ==> head[|head| - 1] in delimiters && rest[0][0] !in delimiters
    ensures CutAtRunEnds([head] + rest, delimiters)
  {
    var parts := [head] + rest;
    forall i | 0 <= i < |parts| - 1 && parts[i] != "" && parts[i + 1] != ""
      ensures parts[i][|parts[i]| - 1] in delimiters && parts[i + 1][0] !in delimiters
    {
      if i > 0 {
        assert parts[i] == rest[i - 1] && parts[i + 1] == rest[i];
      }
    }
  }

  /**
   * The fragments of a non-empty delimiter set: none is empty, each is a run
   * of non-delimiters and then of delimiters, cuts fall only where a
   * delimiter run ends, and together they spell the text from `start`.
   */
  lemma {:induction false} FragmentsFromSplit(text: string, delimiters: string, start: nat)
    requires start <= |text|
    ensures Concat(FragmentsFrom(text, delimiters, start)) == text[start..]
    ensures forall f :: f in FragmentsFrom(text, delimiters, start) ==> f != "" && DelimitersTrail(f, delimiters)
    ensures CutAtRunEnds(FragmentsFrom(text, delimiters, start), delimiters)
    ensures FragmentsFrom(text, delimiters, start) != [] && start < |text| ==>
      FragmentsFrom(text, delimiters, start)[0][0] == text[start]
    decreases |text| - start
  {
    hide DelimitersTrail, Strcspn, Strspn;
    var end := FragmentEnd(text, delimiters, start);
    FragmentEndFacts(text, delimiters, start);
    if end != start {
      var head := text[start..end];
      var rest := FragmentsFrom(text, delimiters, end);
      assert FragmentsFrom(text, delimiters, start) == [head] + rest;
      FragmentsFromSplit(text, delimiters, end);
      if rest != [] {
        assert end < |text|;
        assert head[|head| - 1] == text[end - 1] && rest[0][0] == text[end];
      }
      hide FragmentsFrom, FragmentEnd;
      ConcatCons(head, rest);
      assert head + text[end..] == text[start..];
      CutsCons(head, rest, delimiters);
    }
  }

  /** Splitting into characters loses nothing either. */
  lemma {:induction false} CharsConcat(text: string)
    ensures Concat(Chars(text)) == text
  {
    if text != [] {
      var n := |text| - 1;
      assert Chars(text)[..n] == Chars(text[..n]);
      CharsConcat(text[..n]);
      assert text[..n] + [text[n]] == text;
    }
  }

  /**
   * The fragments of any text at any delimiter set are non-empty and
   * concatenate back to the text; with delimiters they also have the
   * run-then-delimiters shape and the cuts fall only at delimiter-run ends,
   * and without delimiters each is a single character.
   */
  lemma FragmentsSplit(text: string, delimiters: string)
    ensures Concat(Fragments(text, delimiters)) == text
    ensures forall f :: f in Fragments(text, delimiters) ==> f != ""
    ensures !EmptyString(delimiters) ==>
      CutAtRunEnds(Fragments(text, delimiters), delimiters) &&
      forall f :: f in Fragments(text, delimiters) ==> DelimitersTrail(f, delimiters)
    ensures EmptyString(delimiters) ==>
      forall f :: f in Fragments(text, delimiters) ==> |f| == 1
  {
    if EmptyString(delimiters) {
      CharsConcat(text);
    } else {
      FragmentsFromSplit(text, delimiters, 0);
    }
  }
}
