/**
 * Brvr_Diff::arrayDiff (Diff.php), a version of Paul Butler's simple diff:
 * find the longest run of fragments common to both sequences, keep it, and
 * align what lies before it and what lies after it the same way. Fragments
 * are compared with `===` here (see README for PHP's loose comparison).
 */
module DiffMatcher {

  /**
   * One entry of the alignment: a fragment common to both sides (kept as a
   * string in the PHP array), or a change of `deleted` fragments into `inserted`
   * fragments (the `array('d' => ..., 'i' => ...)` entries).
   */
  datatype Entry = Same(fragment: string) | Change(deleted: seq<string>, inserted: seq<string>)

  /** `$matrix[$o][$n]`: the length of the common run that ends with `olds[o]` and `news[n]`. */
  function RunEnding(olds: seq<string>, news: seq<string>, o: nat, n: nat): (r: nat)
    requires o < |olds| && n < |news|
    ensures r <= o + 1 && r <= n + 1
  {
    if olds[o] != news[n] then 0
    else if o == 0 || n == 0 then 1
    else 1 + RunEnding(olds, news, o - 1, n - 1)
  }

  /** `$maxlen`, `$omax` and `$nmax`: the best run so far and where it starts on each side. */
  datatype Run = Run(len: nat, o: nat, n: nat)

  predicate Fits(olds: seq<string>, news: seq<string>, m: Run) {
    m.o + m.len <= |olds| && m.n + m.len <= |news|
  }

  /** The visit of the pair (o, n): a strictly longer run replaces the best one. */
  function Better(olds: seq<string>, news: seq<string>, m: Run, o: nat, n: nat): (r: Run)
    requires o < |olds| && n < |news|
    requires Fits(olds, news, m)
    ensures Fits(olds, news, r)
  {
    var len := RunEnding(olds, news, o, n);
    if len > m.len then Run(len, o + 1 - len, n + 1 - len) else m
  }

  /** The visits of row `o` from column `n` on, in increasing order of `n`. */
  function ScanRow(olds: seq<string>, news: seq<string>, o: nat, n: nat, m: Run): (r: Run)
    requires o < |olds| && n <= |news|
    requires Fits(olds, news, m)
    ensures Fits(olds, news, r)
    decreases |news| - n
  {
    if n == |news| then m else ScanRow(olds, news, o, n + 1, Better(olds, news, m, o, n))
  }

  /** The visits of the rows from `o` on, in increasing order of `o`. */
  function ScanRows(olds: seq<string>, news: seq<string>, o: nat, m: Run): (r: Run)
    requires o <= |olds|
    requires Fits(olds, news, m)
    ensures Fits(olds, news, r)
    decreases |olds| - o
  {
    if o == |olds| then m else ScanRows(olds, news, o + 1, ScanRow(olds, news, o, 0, m))
  }

  /** The run the nested loops of arrayDiff settle on. */
  function Longest(olds: seq<string>, news: seq<string>): (m: Run)
    ensures Fits(olds, news, m)
  {
    ScanRows(olds, news, 0, Run(0, 0, 0))
  }

  /** The pair (a, b) comes before (o, n) in the order the loops visit pairs. */
  predicate Visited(a: int, b: int, o: int, n: int) {
    a < o || (a == o && b < n)
  }

  /** What `$matrix` holds once the pairs before (o, n) are visited. */
  ghost predicate MatrixHolds(olds: seq<string>, news: seq<string>, matrix: map<(int, int), nat>, o: int, n: int) {
    (forall p :: p in matrix ==>
      0 <= p.0 < |olds| && 0 <= p.1 < |news| && olds[p.0] == news[p.1] &&
      matrix[p] == RunEnding(olds, news, p.0, p.1)) &&
    (forall a, b :: 0 <= a < |olds| && 0 <= b < |news| && Visited(a, b, o, n) && olds[a] == news[b] ==>
      (a, b) in matrix)
  }

  lemma MatrixEmpty(olds: seq<string>, news: seq<string>)
    ensures MatrixHolds(olds, news, map[], 0, 0)
  {
  }

  lemma MatrixLookup(olds: seq<string>, news: seq<string>, matrix: map<(int, int), nat>, o: nat, n: nat)
    requires o < |olds| && n < |news| && olds[o] == news[n]
    requires MatrixHolds(olds, news, matrix, o, n)
    ensures (if (o - 1, n - 1) in matrix then matrix[(o - 1, n - 1)] + 1 else 1) == RunEnding(olds, news, o, n)
  {
    if o > 0 && n > 0 && olds[o - 1] == news[n - 1] {
      assert Visited(o - 1, n - 1, o, n);
    }
  }

  lemma MatrixStep(olds: seq<string>, news: seq<string>, matrix: map<(int, int), nat>, o: nat, n: nat)
    requires o < |olds| && n < |news|
    requires MatrixHolds(olds, news, matrix, o, n)
    ensures olds[o] == news[n] ==> MatrixHolds(olds, news, matrix[(o, n) := RunEnding(olds, news, o, n)], o, n + 1)
    ensures olds[o] != news[n] ==> MatrixHolds(olds, news, matrix, o, n + 1)
  {
  }

  lemma MatrixRow(olds: seq<string>, news: seq<string>, matrix: map<(int, int), nat>, o: nat)
    requires MatrixHolds(olds, news, matrix, o, |news|)
    ensures MatrixHolds(olds, news, matrix, o + 1, 0)
  {
    assert forall a, b :: 0 <= b < |news| ==> (Visited(a, b, o + 1, 0) <==> Visited(a, b, o, |news|));
  }

  lemma ScanRowStep(olds: seq<string>, news: seq<string>, o: nat, n: nat, m: Run)
    requires o < |olds| && n < |news| && Fits(olds, news, m)
    ensures ScanRow(olds, news, o, n, m) == ScanRow(olds, news, o, n + 1, Better(olds, news, m, o, n))
    ensures var len := RunEnding(olds, news, o, n);
      Better(olds, news, m, o, n) == if len > m.len then Run(len, o + 1 - len, n + 1 - len) else m
    ensures olds[o] != news[n] ==> RunEnding(olds, news, o, n) == 0
  {
  }

  lemma ScanRowsStep(olds: seq<string>, news: seq<string>, o: nat, m: Run)
    requires o < |olds| && Fits(olds, news, m)
    ensures ScanRows(olds, news, o, m) == ScanRows(olds, news, o + 1, ScanRow(olds, news, o, 0, m))
    ensures ScanRow(olds, news, o, |news|, m) == m
  {
  }

  lemma ScanRowsDone(olds: seq<string>, news: seq<string>, m: Run)
    requires Fits(olds, news, m)
    ensures ScanRows(olds, news, |olds|, m) == m
  {
  }

  /**
   * The nested loops of arrayDiff. `array_keys($new, $ovalue)` lists the
   * indexes of `news` holding `olds[o]` in increasing order, so the inner loop
   * visits exactly those columns, in that order.
   */
  method FindLongest(olds: seq<string>, news: seq<string>) returns (maxlen: nat, omax: nat, nmax: nat)
    ensures Run(maxlen, omax, nmax) == Longest(olds, news)
    ensures omax + maxlen <= |olds| && nmax + maxlen <= |news|
  {
    hide MatrixHolds, ScanRows, ScanRow, Better, RunEnding;
    maxlen, omax, nmax := 0, 0, 0;
    var matrix: map<(int, int), nat> := map[];
    MatrixEmpty(olds, news);
    for o := 0 to |olds|
      invariant Fits(olds, news, Run(maxlen, omax, nmax))
      invariant ScanRows(olds, news, o, Run(maxlen, omax, nmax)) == Longest(olds, news)
      invariant MatrixHolds(olds, news, matrix, o, 0)
    {
      ScanRowsStep(olds, news, o, Run(maxlen, omax, nmax));
      for n := 0 to |news|
        invariant Fits(olds, news, Run(maxlen, omax, nmax))
        invariant ScanRows(olds, news, o + 1, ScanRow(olds, news, o, n, Run(maxlen, omax, nmax))) == Longest(olds, news)
        invariant MatrixHolds(olds, news, matrix, o, n)
      {
        MatrixStep(olds, news, matrix, o, n);
        ScanRowStep(olds, news, o, n, Run(maxlen, omax, nmax));
        if news[n] == olds[o] {
          MatrixLookup(olds, news, matrix, o, n);
          var len: nat := if (o - 1, n - 1) in matrix then matrix[(o - 1, n - 1)] + 1 else 1;
          matrix := matrix[(o, n) := len];
          if len > maxlen {
            maxlen := len;
            omax := o + 1 - maxlen;
            nmax := n + 1 - maxlen;
          }
        }
      }
      ScanRowsStep(olds, news, o, Run(maxlen, omax, nmax));
      MatrixRow(olds, news, matrix, o);
    }
    ScanRowsDone(olds, news, Run(maxlen, omax, nmax));
  }

  /** `array_slice($new, $nmax, $maxlen)`: the common fragments, kept as they are. */
  function Sames(fragments: seq<string>): (r: seq<Entry>)
    ensures |r| == |fragments|
  {
    if fragments == [] then [] else [Same(fragments[0])] + Sames(fragments[1..])
  }

  /** What `arrayDiff($old, $new)` returns. */
  function Alignment(olds: seq<string>, news: seq<string>): seq<Entry>
    decreases |olds| + |news|
  {
    if olds == [] && news == [] then []
    else
      var m := Longest(olds, news);
      if m.len == 0 then [Change(olds, news)]
      else
        Alignment(olds[..m.o], news[..m.n]) +
        Sames(news[m.n..m.n + m.len]) +
        Alignment(olds[m.o + m.len..], news[m.n + m.len..])
  }

  lemma AlignmentUnfold(olds: seq<string>, news: seq<string>)
    ensures olds == [] && news == [] ==> Alignment(olds, news) == []
    ensures olds != [] || news != [] ==> var m := Longest(olds, news);
      m.len == 0 ==> Alignment(olds, news) == [Change(olds, news)]
    ensures var m := Longest(olds, news);
      m.len > 0 ==>
        Alignment(olds, news) ==
          Alignment(olds[..m.o], news[..m.n]) + Sames(news[m.n..m.n + m.len]) + Alignment(olds[m.o + m.len..], news[m.n + m.len..])
  {
  }

  /** arrayDiff itself: recursive, with the nested loops in FindLongest. */
  method ArrayDiff(olds: seq<string>, news: seq<string>) returns (r: seq<Entry>)
    ensures r == Alignment(olds, news)
    decreases |olds| + |news|
  {
    hide *;
    if olds == [] && news == [] {
      AlignmentUnfold(olds, news);
      return [];
    }
    var maxlen, omax, nmax := FindLongest(olds, news);
    AlignmentUnfold(olds, news);
    if maxlen == 0 {
      return [Change(olds, news)];
    }
    var before := ArrayDiff(olds[..omax], news[..nmax]);
    var after := ArrayDiff(olds[omax + maxlen..], news[nmax + maxlen..]);
    r := before + Sames(news[nmax..nmax + maxlen]) + after;
  }

  // ----- What the alignment covers -----

  function EntryOld(e: Entry): seq<string> {
    match e
    case Same(f) => [f]
    case Change(d, _) => d
  }

  function EntryNew(e: Entry): seq<string> {
    match e
    case Same(f) => [f]
    case Change(_, i) => i
  }

  /** The old fragments an alignment accounts for, in order. */
  function OldSide(entries: seq<Entry>): seq<string> {
    if entries == [] then [] else EntryOld(entries[0]) + OldSide(entries[1..])
  }

  /** The new fragments an alignment accounts for, in order. */
  function NewSide(entries: seq<Entry>): seq<string> {
    if entries == [] then [] else EntryNew(entries[0]) + NewSide(entries[1..])
  }

  lemma {:induction false} SidesAppend(a: seq<Entry>, b: seq<Entry>)
    ensures OldSide(a + b) == OldSide(a) + OldSide(b)
    ensures NewSide(a + b) == NewSide(a) + NewSide(b)
  {
    if a != [] {
      assert (a + b)[0] == a[0];
      assert (a + b)[1..] == a[1..] + b;
      SidesAppend(a[1..], b);
      assert OldSide(a + b) == EntryOld(a[0]) + (OldSide(a[1..]) + OldSide(b));
      assert NewSide(a + b) == EntryNew(a[0]) + (NewSide(a[1..]) + NewSide(b));
    } else {
      assert a + b == b;
    }
  }

  lemma {:induction false} SidesOfSames(f: seq<string>)
    ensures OldSide(Sames(f)) == f && NewSide(Sames(f)) == f
  {
    if f != [] {
      SidesOfSames(f[1..]);
    }
  }

  // ----- The scan finds the longest common run, the first one of that length -----

  /** The scan so far: nothing visited beats `m`, and `m` ends at a visited pair no earlier pair ties. */
  ghost predicate ScanHolds(olds: seq<string>, news: seq<string>, o: nat, n: nat, m: Run) {
    (forall a, b :: 0 <= a < |olds| && 0 <= b < |news| && Visited(a, b, o, n) ==>
      RunEnding(olds, news, a, b) <= m.len) &&
    (m.len > 0 ==>
      m.o + m.len - 1 < |olds| && m.n + m.len - 1 < |news| &&
      Visited(m.o + m.len - 1, m.n + m.len - 1, o, n) &&
      RunEnding(olds, news, m.o + m.len - 1, m.n + m.len - 1) == m.len &&
      forall a, b :: 0 <= a < |olds| && 0 <= b < |news| && Visited(a, b, m.o + m.len - 1, m.n + m.len - 1) ==>
        RunEnding(olds, news, a, b) < m.len)
  }

  lemma {:induction false} ScanRowHolds(olds: seq<string>, news: seq<string>, o: nat, n: nat, m: Run)
    requires o < |olds| && n <= |news| && Fits(olds, news, m)
    requires ScanHolds(olds, news, o, n, m)
    ensures ScanHolds(olds, news, o + 1, 0, ScanRow(olds, news, o, n, m))
    decreases |news| - n
  {
    if n == |news| {
      assert forall a, b :: 0 <= b < |news| ==> (Visited(a, b, o + 1, 0) <==> Visited(a, b, o, n));
    } else {
      var m' := Better(olds, news, m, o, n);
      assert ScanHolds(olds, news, o, n + 1, m');
      ScanRowHolds(olds, news, o, n + 1, m');
    }
  }

  lemma {:induction false} ScanRowsHolds(olds: seq<string>, news: seq<string>, o: nat, m: Run)
    requires o <= |olds| && Fits(olds, news, m)
    requires ScanHolds(olds, news, o, 0, m)
    ensures ScanHolds(olds, news, |olds|, 0, ScanRows(olds, news, o, m))
    decreases |olds| - o
  {
    if o < |olds| {
      ScanRowHolds(olds, news, o, 0, m);
      ScanRowsHolds(olds, news, o + 1, ScanRow(olds, news, o, 0, m));
    }
  }

  /** A common run of `k` fragments starting at (i, j) shows in the run length at its last pair. */
  lemma {:induction false} RunEndingOfCommon(olds: seq<string>, news: seq<string>, i: nat, j: nat, k: nat)
    requires 1 <= k && i + k <= |olds| && j + k <= |news|
    requires olds[i..i + k] == news[j..j + k]
    ensures RunEnding(olds, news, i + k - 1, j + k - 1) >= k
  {
    assert olds[i + k - 1] == olds[i..i + k][k - 1] == news[j..j + k][k - 1] == news[j + k - 1];
    if k > 1 {
      assert olds[i..i + k - 1] == olds[i..i + k][..k - 1];
      assert news[j..j + k - 1] == news[j..j + k][..k - 1];
      RunEndingOfCommon(olds, news, i, j, k - 1);
    }
  }

  /** A run length of `k` at (a, b) is a common run of `k` fragments ending there. */
  lemma {:induction false} CommonOfRunEnding(olds: seq<string>, news: seq<string>, a: nat, b: nat, k: nat)
    requires a < |olds| && b < |news| && k <= RunEnding(olds, news, a, b)
    ensures olds[a + 1 - k..a + 1] == news[b + 1 - k..b + 1]
  {
    if k > 0 {
      assert olds[a] == news[b];
      if k > 1 {
        assert RunEnding(olds, news, a, b) == 1 + RunEnding(olds, news, a - 1, b - 1);
        CommonOfRunEnding(olds, news, a - 1, b - 1, k - 1);
        assert olds[a + 1 - k..a + 1] == olds[a + 1 - k..a] + [olds[a]];
        assert news[b + 1 - k..b + 1] == news[b + 1 - k..b] + [news[b]];
      } else {
        assert olds[a..a + 1] == [olds[a]];
        assert news[b..b + 1] == [news[b]];
      }
    }
  }

  /** `k` fragments from `olds[i]` on equal the `k` fragments from `news[j]` on. */
  predicate CommonRun(olds: seq<string>, news: seq<string>, i: nat, j: nat, k: nat) {
    i + k <= |olds| && j + k <= |news| && olds[i..i + k] == news[j..j + k]
  }

  /**
   * The run arrayDiff keeps is common to both sides, no common run is
   * longer, and none of the same length starts earlier in `olds`, or at the
   * same place in `olds` and earlier in `news` (the strict `>` keeps the first).
   */
  lemma LongestIsFirstLongest(olds: seq<string>, news: seq<string>)
    ensures var m := Longest(olds, news); CommonRun(olds, news, m.o, m.n, m.len)
    ensures var m := Longest(olds, news);
      forall i: nat, j: nat, k: nat :: CommonRun(olds, news, i, j, k) ==>
        k <= m.len && (k == m.len && m.len > 0 ==> !Visited(i, j, m.o, m.n))
  {
    var m := Longest(olds, news);
    ScanRowsHolds(olds, news, 0, Run(0, 0, 0));
    assert ScanHolds(olds, news, |olds|, 0, m);
    if m.len > 0 {
      CommonOfRunEnding(olds, news, m.o + m.len - 1, m.n + m.len - 1, m.len);
    }
    forall i: nat, j: nat, k: nat | CommonRun(olds, news, i, j, k)
      ensures k <= m.len && (k == m.len && m.len > 0 ==> !Visited(i, j, m.o, m.n))
    {
      if k > 0 {
        RunEndingOfCommon(olds, news, i, j, k);
        assert Visited(i + k - 1, j + k - 1, |olds|, 0);
      }
    }
  }

  /** With no fragment in common the loops find nothing, and the other way round. */
  lemma LongestIsEmpty(olds: seq<string>, news: seq<string>)
    ensures Longest(olds, news).len == 0 <==> forall x :: x in olds ==> x !in news
  {
    var m := Longest(olds, news);
    LongestIsFirstLongest(olds, news);
    forall i, j | 0 <= i < |olds| && 0 <= j < |news| && olds[i] == news[j]
      ensures m.len >= 1
    {
      assert olds[i..i + 1] == [olds[i]] && news[j..j + 1] == [news[j]];
      assert CommonRun(olds, news, i, j, 1);
    }
    if m.len == 0 {
      forall x | x in olds
        ensures x !in news
      {
        var i :| 0 <= i < |olds| && olds[i] == x;
        assert forall j :: 0 <= j < |news| ==> news[j] != olds[i];
      }
    } else {
      assert olds[m.o..m.o + m.len][0] == news[m.n..m.n + m.len][0];
      assert olds[m.o] in olds && olds[m.o] in news;
    }
  }

  // ----- What the alignment promises -----

  lemma CoversJoin(olds: seq<string>, news: seq<string>, m: Run, before: seq<Entry>, after: seq<Entry>)
    requires CommonRun(olds, news, m.o, m.n, m.len)
    requires OldSide(before) == olds[..m.o] && NewSide(before) == news[..m.n]
    requires OldSide(after) == olds[m.o + m.len..] && NewSide(after) == news[m.n + m.len..]
    ensures OldSide(before + Sames(news[m.n..m.n + m.len]) + after) == olds
    ensures NewSide(before + Sames(news[m.n..m.n + m.len]) + after) == news
  {
    var mid := news[m.n..m.n + m.len];
    SidesJoin(before, mid, after);
    SliceThree(olds, m.o, m.o + m.len);
    SliceThree(news, m.n, m.n + m.len);
  }

  lemma SliceThree(s: seq<string>, i: nat, j: nat)
    requires i <= j <= |s|
    ensures s == s[..i] + s[i..j] + s[j..]
  {
  }

  lemma SidesJoin(before: seq<Entry>, f: seq<string>, after: seq<Entry>)
    ensures OldSide(before + Sames(f) + after) == OldSide(before) + f + OldSide(after)
    ensures NewSide(before + Sames(f) + after) == NewSide(before) + f + NewSide(after)
  {
    hide *;
    SidesOfSames(f);
    SidesAppend(before, Sames(f));
    SidesAppend(before + Sames(f), after);
  }

  /**
   * arrayDiff accounts for every fragment once and in order: reading the
   * old side of its entries gives `olds`, reading the new side gives `news`.
   */
  lemma {:induction false} AlignmentCovers(olds: seq<string>, news: seq<string>)
    ensures OldSide(Alignment(olds, news)) == olds
    ensures NewSide(Alignment(olds, news)) == news
    decreases |olds| + |news|
  {
    hide Alignment, Longest, ScanRows, ScanRow, Sames;
    AlignmentUnfold(olds, news);
    if olds != [] || news != [] {
      var m := Longest(olds, news);
      if m.len == 0 {
        SidesOfChange(olds, news);
      } else {
        LongestIsFirstLongest(olds, news);
        AlignmentCovers(olds[..m.o], news[..m.n]);
        AlignmentCovers(olds[m.o + m.len..], news[m.n + m.len..]);
        CoversJoin(olds, news, m, Alignment(olds[..m.o], news[..m.n]), Alignment(olds[m.o + m.len..], news[m.n + m.len..]));
      }
    }
  }

  lemma SidesOfChange(d: seq<string>, i: seq<string>)
    ensures OldSide([Change(d, i)]) == d && NewSide([Change(d, i)]) == i
  {
    assert OldSide([Change(d, i)]) == d + OldSide([]);
    assert NewSide([Change(d, i)]) == i + NewSide([]);
  }

  lemma {:induction false} InNewSide(entries: seq<Entry>, j: nat)
    requires j < |entries|
    ensures forall x :: x in EntryNew(entries[j]) ==> x in NewSide(entries)
  {
    if j > 0 {
      InNewSide(entries[1..], j - 1);
    }
  }

  /** Every common fragment of the alignment is one of the new fragments. */
  lemma AlignmentSamesAreNew(olds: seq<string>, news: seq<string>)
    ensures forall e :: e in Alignment(olds, news) && e.Same? ==> e.fragment in news
  {
    var entries := Alignment(olds, news);
    AlignmentCovers(olds, news);
    forall e | e in entries && e.Same?
      ensures e.fragment in news
    {
      var j :| 0 <= j < |entries| && entries[j] == e;
      InNewSide(entries, j);
      assert e.fragment in EntryNew(e);
    }
  }

  /** A change entry changes something, and shares no fragment between its sides. */
  predicate ProperChange(e: Entry) {
    e.Change? ==> (e.deleted != [] || e.inserted != []) && forall x :: x in e.deleted ==> x !in e.inserted
  }

  predicate NoAdjacentChanges(entries: seq<Entry>) {
    forall i :: 0 <= i < |entries| - 1 ==> !(entries[i].Change? && entries[i + 1].Change?)
  }

  lemma {:induction false} SamesAreSame(f: seq<string>)
    ensures forall e :: e in Sames(f) ==> e.Same?
  {
    if f != [] {
      SamesAreSame(f[1..]);
    }
  }

  lemma ChangesJoin(before: seq<Entry>, same: seq<Entry>, after: seq<Entry>)
    requires NoAdjacentChanges(before) && NoAdjacentChanges(after)
    requires same != [] && forall e :: e in same ==> e.Same?
    ensures NoAdjacentChanges(before + same + after)
  {
    var all := before + same + after;
    forall i | 0 <= i < |all| - 1
      ensures !(all[i].Change? && all[i + 1].Change?)
    {
      if i < |before| - 1 {
        assert all[i] == before[i] && all[i + 1] == before[i + 1];
      } else if i < |before| + |same| - 1 {
        assert all[i + 1] == same[i + 1 - |before|];
        assert same[i + 1 - |before|] in same;
      } else if i == |before| + |same| - 1 {
        assert all[i] == same[|same| - 1];
        assert same[|same| - 1] in same;
      } else {
        assert all[i] == after[i - |before| - |same|];
        assert all[i + 1] == after[i + 1 - |before| - |same|];
      }
    }
  }

  /**
   * Every change entry is proper, and no two change entries are adjacent
   * (a common run always separates them).
   */
  lemma {:induction false} AlignmentChanges(olds: seq<string>, news: seq<string>)
    ensures forall e :: e in Alignment(olds, news) ==> ProperChange(e)
    ensures NoAdjacentChanges(Alignment(olds, news))
    decreases |olds| + |news|
  {
    hide Alignment, Longest, ScanRows, ScanRow, Sames;
    AlignmentUnfold(olds, news);
    if !(olds == [] && news == []) {
      var m := Longest(olds, news);
      LongestIsEmpty(olds, news);
      if m.len > 0 {
        var before := Alignment(olds[..m.o], news[..m.n]);
        var same := Sames(news[m.n..m.n + m.len]);
        var after := Alignment(olds[m.o + m.len..], news[m.n + m.len..]);
        AlignmentChanges(olds[..m.o], news[..m.n]);
        AlignmentChanges(olds[m.o + m.len..], news[m.n + m.len..]);
        SamesAreSame(news[m.n..m.n + m.len]);
        ChangesJoin(before, same, after);
      }
    }
  }

  /** Equal sequences align as all common fragments; empty ones as nothing. */
  /** Compared with itself, the longest common run is the whole list, from the start. */
  lemma LongestOfEqual(s: seq<string>)
    requires s != []
    ensures Longest(s, s).o == 0 && Longest(s, s).n == 0 && Longest(s, s).len == |s|
  {
    var m := Longest(s, s);
    LongestIsFirstLongest(s, s);
    assert s[0..|s|] == s;
    assert CommonRun(s, s, 0, 0, |s|);
    hide *;
    assert !Visited(0, 0, m.o, m.n);
  }

  lemma AlignmentOfEqual(s: seq<string>)
    ensures Alignment(s, s) == Sames(s)
  {
    AlignmentUnfold([], []);
    if s != [] {
      var m := Longest(s, s);
      LongestOfEqual(s);
      AlignmentUnfold(s, s);
      hide *;
      assert s[..m.o] == [] && s[m.n..m.n + m.len] == s && s[m.o + m.len..] == [];
      calc {
        Alignment(s, s);
        Alignment(s[..m.o], s[..m.n]) + Sames(s[m.n..m.n + m.len]) + Alignment(s[m.o + m.len..], s[m.n + m.len..]);
        Alignment([], []) + Sames(s) + Alignment([], []);
        Sames(s);
      }
    }
  }


}
