/**
 * Brvr_Diff (Diff.php): the diff engine. A granularity stack lists delimiter
 * sets from coarse to fine; each level cuts both texts into fragments,
 * aligns them with arrayDiff, copies what they share and hands what changed
 * to the next level, and the last level turns a change into a Delete and an
 * Insert. The result is a list of ops whose opcodes are the diff.
 */
module DiffEngine {
  import opened Wrappers
  import opened Php
  import opened DiffOp
  import opened DiffFragments
  import opened DiffMatcher
  import opened DiffOps

  // ----- Stock granularity stacks -----

  const ParagraphDelimiters: string := "\n\r"
  const SentenceDelimiters: string := ".\n\r"
  const WordDelimiters: string := " \t.\n\r"
  const CharacterDelimiters: string := ""

  const ParagraphGranularity: seq<string> := [ParagraphDelimiters]
  const SentenceGranularity: seq<string> := [ParagraphDelimiters, SentenceDelimiters]
  const WordGranularity: seq<string> := [ParagraphDelimiters, SentenceDelimiters, WordDelimiters]
  /** The default stack: paragraphs, sentences, words, then characters. */
  const CharacterGranularity: seq<string> :=
    [ParagraphDelimiters, SentenceDelimiters, WordDelimiters, CharacterDelimiters]
  const TextStack: seq<string> := [".", " \t.\n\r", ""]

  // ----- The constructor's granularity argument -----

  /** An element of a granularity array: a delimiter string, or a nested array of them. */
  datatype Level = Delimiters(delimiters: string) | Group(levels: seq<Level>)

  /** The `$granularityStack` argument: a string, an array, or anything else (null by default). */
  datatype StackArg = StackString(s: string) | StackArray(levels: seq<Level>) | StackOther

  /** The leaves of a nested array, depth first, as the recursive iterator yields them. */
  function Flatten(levels: seq<Level>): seq<string>
    decreases levels
  {
    if levels == [] then []
    else
      (match levels[0]
       case Delimiters(s) => [s]
       case Group(inner) => Flatten(inner)) + Flatten(levels[1..])
  }

  /**
   * The stack the constructor settles on: a string is a one-level stack, a
   * non-empty array is flattened, anything else is the default stack. A
   * non-empty array with no leaves never assigns `$flatStack`, so the stack
   * is null: `None` here.
   */
  function GranularityStack(arg: StackArg): (r: Option<seq<string>>)
    ensures r.Some? ==> r.value != []
    ensures arg.StackString? ==> r == Some([arg.s])
    ensures arg.StackOther? || (arg.StackArray? && arg.levels == []) ==> r == Some(CharacterGranularity)
    ensures arg.StackArray? && arg.levels != [] ==>
      (r.None? <==> Flatten(arg.levels) == []) && (r.Some? ==> r.value == Flatten(arg.levels))
  {
    match arg
    case StackString(s) => Some([s])
    case StackArray(levels) =>
      if levels == [] then Some(CharacterGranularity)
      else if Flatten(levels) == [] then None
      else Some(Flatten(levels))
    case StackOther => Some(CharacterGranularity)
  }

  /**
   * The delimiter levels processGranularity works through for a stack. A
   * null stack shifts to null delimiters, which `empty()` takes like "", and
   * leaves nothing for a next stage: one pass over characters.
   */
  function Levels(stack: Option<seq<string>>): (r: seq<string>)
    requires stack.Some? ==> stack.value != []
    ensures r != []
    ensures stack.None? ==> r == [CharacterDelimiters]
    ensures stack.Some? ==> r == stack.value
  {
    if stack.Some? then stack.value else [CharacterDelimiters]
  }

  lemma {:induction false} FlattenAppend(a: seq<Level>, b: seq<Level>)
    ensures Flatten(a + b) == Flatten(a) + Flatten(b)
    decreases |a|
  {
    if a != [] {
      assert (a + b)[0] == a[0] && (a + b)[1..] == a[1..] + b;
      FlattenAppend(a[1..], b);
    } else {
      assert a + b == b;
    }
  }

  /**
   * Flattening keeps the leaves in order whatever the nesting: a flat array
   * of delimiter strings is taken as it is, and wrapping any part of it in
   * a nested array changes nothing.
   */
  lemma {:induction false} FlattenFlat(s: seq<string>)
    ensures Flatten(seq(|s|, i requires 0 <= i < |s| => Delimiters(s[i]))) == s
  {
    var levels := seq(|s|, i requires 0 <= i < |s| => Delimiters(s[i]));
    if s != [] {
      assert levels[1..] == seq(|s[1..]|, i requires 0 <= i < |s[1..]| => Delimiters(s[1..][i]));
      FlattenFlat(s[1..]);
    }
  }

  lemma FlattenGroup(a: seq<Level>, inner: seq<Level>, b: seq<Level>)
    ensures Flatten(a + [Group(inner)] + b) == Flatten(a) + Flatten(inner) + Flatten(b)
  {
    assert Flatten([Group(inner)]) == Flatten(inner) + Flatten([]);
    assert Flatten([]) == [];
    hide *;
    FlattenAppend(a + [Group(inner)], b);
    FlattenAppend(a, [Group(inner)]);
  }

  // ----- One level of processGranularity -----

  /**
   * A common fragment of length `len`: the first op is a Copy, a Copy that
   * ends the ops grows, and otherwise a new Copy is appended.
   */
  function AddCopy(ops: seq<Op>, len: nat): seq<Op> {
    if ops != [] && ops[|ops| - 1].Copy? then ops[..|ops| - 1] + [Copy(ops[|ops| - 1].len + len)]
    else ops + [Copy(len)]
  }

  /** `appendOps`: concatenation, except that a Copy on each side of the seam is fused into one. */
  function AppendOps(ops: seq<Op>, more: seq<Op>): seq<Op> {
    if ops == [] || more == [] then (if ops != [] then ops else more)
    else if ops[|ops| - 1].Copy? && more[0].Copy? then
      ops[..|ops| - 1] + [Copy(ops[|ops| - 1].len + FromLen(more[0]))] + more[1..]
    else ops + more
  }

  /** The last level: a change deletes the old text and inserts the new one, skipping an empty side. */
  function ChangeOps(oldString: string, newString: string): seq<Op> {
    (if oldString != "" then [Delete(oldString)] else []) +
    (if newString != "" then [Insert(newString)] else [])
  }

  /** The same, as written: PHP's `empty()` also skips a side that is the text "0". */
  function ChangeOpsAsWritten(oldString: string, newString: string): seq<Op> {
    (if !EmptyString(oldString) then [Delete(oldString)] else []) +
    (if !EmptyString(newString) then [Insert(newString)] else [])
  }

  /** One turn of the `foreach` over the alignment; `rest` is what is left of the stack. */
  function Step(ops: seq<Op>, entry: Entry, rest: seq<string>): seq<Op>
    decreases |rest|, 2, 0
  {
    match entry
    case Same(f) => AddCopy(ops, |f|)
    case Change(d, i) =>
      if rest == [] then ops + ChangeOps(Concat(d), Concat(i))
      else AppendOps(ops, Process(Concat(d), Concat(i), rest))
  }

  /** The turns of the `foreach` over `entries`, from the ops gathered so far. */
  function Fold(entries: seq<Entry>, rest: seq<string>, ops: seq<Op>): seq<Op>
    decreases |rest|, 2, |entries|
  {
    if entries == [] then ops else Fold(entries[1..], rest, Step(ops, entries[0], rest))
  }

  /** What `processGranularity($from, $to, $stack)` returns. */
  function Process(from: string, to: string, stack: seq<string>): seq<Op>
    requires stack != []
    decreases |stack|, 1
  {
    Fold(Alignment(Fragments(from, stack[0]), Fragments(to, stack[0])), stack[1..], [])
  }

  lemma FoldUnfold(entries: seq<Entry>, rest: seq<string>, ops: seq<Op>)
    ensures entries == [] ==> Fold(entries, rest, ops) == ops
    ensures entries != [] ==> Fold(entries, rest, ops) == Fold(entries[1..], rest, Step(ops, entries[0], rest))
  {
  }

  /** processGranularity: the shift of the stack, the two cuts, the alignment and the loop over it. */
  method ProcessGranularity(from: string, to: string, stack: seq<string>) returns (ops: seq<Op>)
    requires stack != []
    ensures ops == Process(from, to, stack)
    decreases |stack|
  {
    var delimiters := stack[0];
    var rest := stack[1..];
    var hasNextStage := rest != [];
    var olds := ExtractFragments(from, delimiters);
    var news := ExtractFragments(to, delimiters);
    var entries := ArrayDiff(olds, news);
    assert entries[0..] == entries;
    assert Process(from, to, stack) == Fold(entries, rest, []);
    hide Step, Fold, Process, Alignment, Fragments, Concat, ChangeOps, AppendOps;
    ops := [];
    for k := 0 to |entries|
      invariant Fold(entries[k..], rest, ops) == Process(from, to, stack)
    {
      FoldUnfold(entries[k..], rest, ops);
      assert entries[k..][0] == entries[k] && entries[k..][1..] == entries[k + 1..];
      ghost var next := Step(ops, entries[k], rest);
      match entries[k] {
        case Change(d, i) =>
          StepChange(ops, d, i, rest);
          var oldString := Concat(d);
          var newString := Concat(i);
          if hasNextStage {
            var sub := ProcessGranularity(oldString, newString, rest);
            ops := AppendOps(ops, sub);
          } else {
            ghost var before := ops;
            if oldString != "" {
              ops := ops + [Delete(oldString)];
            }
            if newString != "" {
              ops := ops + [Insert(newString)];
            }
            ChangeOpsAppended(before, oldString, newString, ops);
          }
        case Same(f) =>
          StepSame(ops, f, rest);
          if ops == [] {
            ops := ops + [Copy(|f|)];
          } else if ops[|ops| - 1].Copy? {
            ops := ops[..|ops| - 1] + [Copy(ops[|ops| - 1].len + |f|)];
          } else {
            ops := ops + [Copy(|f|)];
          }
      }
      assert ops == next;
    }
    FoldUnfold(entries[|entries|..], rest, ops);
  }

  /** A Change entry is re-diffed one level finer, or at the last level becomes a Delete and an Insert. */
  lemma StepChange(ops: seq<Op>, d: seq<string>, i: seq<string>, rest: seq<string>)
    ensures Step(ops, Change(d, i), rest) ==
      if rest == [] then ops + ChangeOps(Concat(d), Concat(i))
      else AppendOps(ops, Process(Concat(d), Concat(i), rest))
  {
  }

  lemma ChangeOpsAppended(before: seq<Op>, oldString: string, newString: string, after: seq<Op>)
    requires after == (if oldString != "" && newString != "" then before + [Delete(oldString)] + [Insert(newString)]
      else if oldString != "" then before + [Delete(oldString)]
      else if newString != "" then before + [Insert(newString)]
      else before)
    ensures after == before + ChangeOps(oldString, newString)
  {
  }

  // ----- Every level keeps the ops an edit script of its two texts -----

  lemma AddCopyEdits(ops: seq<Op>, f: string, from: string, to: string)
    requires Edits(ops, from, to)
    ensures Edits(AddCopy(ops, |f|), from + f, to + f)
  {
    CopyEdits(f);
    if ops != [] && ops[|ops| - 1].Copy? {
      var p := ops[..|ops| - 1];
      assert ops == p + [Copy(ops[|ops| - 1].len)];
      EditsFuseCopies(p, ops[|ops| - 1].len, |f|, [], from, to, f, f);
      assert p + [Copy(ops[|ops| - 1].len + |f|)] + [] == AddCopy(ops, |f|);
    } else {
      EditsAppend(ops, [Copy(|f|)], from, to, f, f);
    }
  }

  /** appendOps joins two edit scripts into an edit script of the joined texts. */
  lemma AppendOpsEdits(a: seq<Op>, b: seq<Op>, f1: string, t1: string, f2: string, t2: string)
    requires Edits(a, f1, t1) && Edits(b, f2, t2)
    ensures Edits(AppendOps(a, b), f1 + f2, t1 + t2)
  {
    if a == [] || b == [] {
      EditsAppend(a, b, f1, t1, f2, t2);
      assert a + b == AppendOps(a, b);
    } else if a[|a| - 1].Copy? && b[0].Copy? {
      var p := a[..|a| - 1];
      assert a == p + [Copy(a[|a| - 1].len)];
      assert b == [Copy(b[0].len)] + b[1..];
      EditsFuseCopies(p, a[|a| - 1].len, b[0].len, b[1..], f1, t1, f2, t2);
    } else {
      EditsAppend(a, b, f1, t1, f2, t2);
    }
  }

  /** The last level's Delete and Insert edit the old text of a change into its new text. */
  lemma ChangeOpsEdits(oldString: string, newString: string)
    ensures Edits(ChangeOps(oldString, newString), oldString, newString)
  {
    var ops := ChangeOps(oldString, newString);
    EditsUnfold([], "", "");
    if oldString != "" && newString != "" {
      assert ops == [Delete(oldString), Insert(newString)];
      assert ops[1..] == [Insert(newString)] && ops[1..][1..] == [];
      assert oldString[..|oldString|] == oldString && oldString[|oldString|..] == "";
      assert newString[..|newString|] == newString && newString[|newString|..] == "";
    } else if oldString != "" {
      assert ops == [Delete(oldString)] && ops[1..] == [];
      assert oldString[..|oldString|] == oldString && oldString[|oldString|..] == "";
    } else if newString != "" {
      assert ops == [Insert(newString)] && ops[1..] == [];
      assert newString[..|newString|] == newString && newString[|newString|..] == "";
    }
  }

  /** The old and new text an alignment entry stands for. */
  function EntryOldText(e: Entry): string {
    Concat(EntryOld(e))
  }

  function EntryNewText(e: Entry): string {
    Concat(EntryNew(e))
  }

  lemma {:induction false} StepEdits(ops: seq<Op>, entry: Entry, rest: seq<string>, from: string, to: string)
    requires Edits(ops, from, to)
    ensures Edits(Step(ops, entry, rest), from + EntryOldText(entry), to + EntryNewText(entry))
    decreases |rest|, 2, 0
  {
    hide Edits;
    match entry
    case Same(f) =>
      ConcatSingle(f);
      AddCopyEdits(ops, f, from, to);
    case Change(d, i) =>
      if rest == [] {
        ChangeOpsEdits(Concat(d), Concat(i));
        EditsAppend(ops, ChangeOps(Concat(d), Concat(i)), from, to, Concat(d), Concat(i));
      } else {
        ProcessEdits(Concat(d), Concat(i), rest);
        AppendOpsEdits(ops, Process(Concat(d), Concat(i), rest), from, to, Concat(d), Concat(i));
      }
  }

  lemma {:induction false} FoldEdits(entries: seq<Entry>, rest: seq<string>, ops: seq<Op>, from: string, to: string)
    requires Edits(ops, from, to)
    ensures Edits(Fold(entries, rest, ops), from + Concat(OldSide(entries)), to + Concat(NewSide(entries)))
    decreases |rest|, 2, |entries|
  {
    hide Edits, Fold, Step;
    FoldUnfold(entries, rest, ops);
    if entries == [] {
      assert from + Concat(OldSide(entries)) == from && to + Concat(NewSide(entries)) == to;
    } else {
      var e := entries[0];
      StepEdits(ops, e, rest, from, to);
      FoldEdits(entries[1..], rest, Step(ops, e, rest), from + EntryOldText(e), to + EntryNewText(e));
      ConcatAppend(EntryOld(e), OldSide(entries[1..]));
      ConcatAppend(EntryNew(e), NewSide(entries[1..]));
      assert OldSide(entries) == EntryOld(e) + OldSide(entries[1..]);
      assert NewSide(entries) == EntryNew(e) + NewSide(entries[1..]);
      assert from + EntryOldText(e) + Concat(OldSide(entries[1..])) == from + Concat(OldSide(entries));
      assert to + EntryNewText(e) + Concat(NewSide(entries[1..])) == to + Concat(NewSide(entries));
    }
  }

  /**
   * The central promise of the engine: for any stack, the ops
   * processGranularity returns edit `from` into `to`.
   */
  lemma {:induction false} ProcessEdits(from: string, to: string, stack: seq<string>)
    requires stack != []
    ensures Edits(Process(from, to, stack), from, to)
    decreases |stack|, 1
  {
    var olds := Fragments(from, stack[0]);
    var news := Fragments(to, stack[0]);
    FragmentsSplit(from, stack[0]);
    FragmentsSplit(to, stack[0]);
    AlignmentCovers(olds, news);
    EditsUnfold([], "", "");
    FoldEdits(Alignment(olds, news), stack[1..], [], "", "");
    assert "" + from == from && "" + to == to;
  }

  // ----- ... and in the engine's normal form -----

  /** Every op spans something and no two Copy ops are adjacent. */
  predicate Normal(ops: seq<Op>) {
    AllWellFormed(ops) && NoAdjacentCopies(ops)
  }

  lemma AddCopyNormal(ops: seq<Op>, len: nat)
    requires Normal(ops) && len >= 1
    ensures Normal(AddCopy(ops, len))
  {
    var r := AddCopy(ops, len);
    if ops != [] && ops[|ops| - 1].Copy? {
      forall i | 0 <= i < |r| - 1
        ensures !(r[i].Copy? && r[i + 1].Copy?)
      {
        assert r[i] == ops[i] && (i + 1 < |r| - 1 ==> r[i + 1] == ops[i + 1]);
      }
    }
  }

  lemma AppendOpsNormal(a: seq<Op>, b: seq<Op>)
    requires Normal(a) && Normal(b)
    ensures Normal(AppendOps(a, b))
  {
    var r := AppendOps(a, b);
    if a != [] && b != [] {
      if a[|a| - 1].Copy? && b[0].Copy? {
        var n := |a| - 1;
        assert |r| == |a| + |b| - 1;
        forall i | 0 <= i < |r|
          ensures WellFormed(r[i])
        {
          if i < n {
            assert r[i] == a[i];
          } else if i > n {
            assert r[i] == b[i - n];
          }
        }
        forall i | 0 <= i < |r| - 1
          ensures !(r[i].Copy? && r[i + 1].Copy?)
        {
          if i + 1 < n {
            assert r[i] == a[i] && r[i + 1] == a[i + 1];
          } else if i + 1 == n {
            assert r[i] == a[i] && a[i + 1].Copy?;
          } else if i == n {
            assert r[i + 1] == b[1] && b[0].Copy?;
          } else {
            assert r[i] == b[i - n] && r[i + 1] == b[i + 1 - n];
          }
        }
      } else {
        assert r == a + b;
        forall i | 0 <= i < |r|
          ensures WellFormed(r[i])
        {
          if i >= |a| {
            assert r[i] == b[i - |a|];
          }
        }
        forall i | 0 <= i < |r| - 1
          ensures !(r[i].Copy? && r[i + 1].Copy?)
        {
          if i + 1 < |a| {
            assert r[i] == a[i] && r[i + 1] == a[i + 1];
          } else if i + 1 > |a| {
            assert r[i] == b[i - |a|] && r[i + 1] == b[i + 1 - |a|];
          }
        }
      }
    }
  }

  lemma ChangeOpsNormal(ops: seq<Op>, oldString: string, newString: string)
    requires Normal(ops)
    ensures Normal(ops + ChangeOps(oldString, newString))
  {
    var c := ChangeOps(oldString, newString);
    var r := ops + c;
    assert forall j :: 0 <= j < |c| ==> !c[j].Copy? && WellFormed(c[j]);
    forall i | 0 <= i < |r| - 1
      ensures !(r[i].Copy? && r[i + 1].Copy?)
    {
      if i + 1 < |ops| {
        assert r[i] == ops[i] && r[i + 1] == ops[i + 1];
      } else {
        assert r[i + 1] == c[i + 1 - |ops|];
      }
    }
    forall i | 0 <= i < |r|
      ensures WellFormed(r[i])
    {
      if i >= |ops| {
        assert r[i] == c[i - |ops|];
      }
    }
  }

  /** Every common fragment of the entries is non-empty. */
  predicate SamesNonEmpty(entries: seq<Entry>) {
    forall e :: e in entries && e.Same? ==> e.fragment != ""
  }

  lemma {:induction false} StepNormal(ops: seq<Op>, entry: Entry, rest: seq<string>)
    requires Normal(ops)
    requires entry.Same? ==> entry.fragment != ""
    ensures Normal(Step(ops, entry, rest))
    decreases |rest|, 2, 0
  {
    match entry
    case Same(f) =>
      AddCopyNormal(ops, |f|);
    case Change(d, i) =>
      if rest == [] {
        ChangeOpsNormal(ops, Concat(d), Concat(i));
      } else {
        ProcessNormal(Concat(d), Concat(i), rest);
        AppendOpsNormal(ops, Process(Concat(d), Concat(i), rest));
      }
  }

  lemma {:induction false} FoldNormal(entries: seq<Entry>, rest: seq<string>, ops: seq<Op>)
    requires Normal(ops) && SamesNonEmpty(entries)
    ensures Normal(Fold(entries, rest, ops))
    decreases |rest|, 2, |entries|
  {
    FoldUnfold(entries, rest, ops);
    if entries != [] {
      assert entries[0] in entries;
      StepNormal(ops, entries[0], rest);
      assert forall e :: e in entries[1..] ==> e in entries;
      FoldNormal(entries[1..], rest, Step(ops, entries[0], rest));
    }
  }

  /**
   * The ops processGranularity returns are in normal form: no Copy of
   * nothing, no empty Delete or Insert, and no two Copy ops in a row.
   */
  lemma {:induction false} ProcessNormal(from: string, to: string, stack: seq<string>)
    requires stack != []
    ensures Normal(Process(from, to, stack))
    decreases |stack|, 1
  {
    var olds := Fragments(from, stack[0]);
    var news := Fragments(to, stack[0]);
    FragmentsSplit(to, stack[0]);
    AlignmentSamesAreNew(olds, news);
    FoldNormal(Alignment(olds, news), stack[1..], []);
  }

  // ----- Equal texts, the last level, and the `empty()` slip -----

  lemma AddCopyTwice(ops: seq<Op>, a: nat, b: nat)
    ensures AddCopy(AddCopy(ops, a), b) == AddCopy(ops, a + b)
  {
    var once := AddCopy(ops, a);
    if ops != [] && ops[|ops| - 1].Copy? {
      assert once[..|once| - 1] == ops[..|ops| - 1];
    } else {
      assert once[..|once| - 1] == ops;
    }
  }

  /** A Same entry of `n` characters is a Copy of `n` added to the ops. */
  lemma StepSame(ops: seq<Op>, fragment: string, rest: seq<string>)
    ensures Step(ops, Same(fragment), rest) == AddCopy(ops, |fragment|)
  {
  }

  lemma {:induction false} FoldSames(fragments: seq<string>, rest: seq<string>, ops: seq<Op>)
    requires fragments != []
    ensures Fold(Sames(fragments), rest, ops) == AddCopy(ops, |Concat(fragments)|)
  {
    var entries := Sames(fragments);
    assert entries[0] == Same(fragments[0]) && entries[1..] == Sames(fragments[1..]);
    assert [fragments[0]] + fragments[1..] == fragments;
    hide *;
    FoldUnfold(entries, rest, ops);
    var next := AddCopy(ops, |fragments[0]|);
    StepSame(ops, fragments[0], rest);
    ConcatCons(fragments[0], fragments[1..]);
    if fragments[1..] == [] {
      FoldUnfold([], rest, next);
    } else {
      FoldSames(fragments[1..], rest, next);
      AddCopyTwice(ops, |fragments[0]|, |Concat(fragments[1..])|);
    }
  }

  /** A text diffed against itself is one Copy of the whole text, or nothing when it is empty. */
  lemma ProcessOfEqualTexts(text: string, stack: seq<string>)
    requires stack != []
    ensures Process(text, text, stack) == if text == "" then [] else [Copy(|text|)]
  {
    var fragments := Fragments(text, stack[0]);
    FragmentsSplit(text, stack[0]);
    AlignmentOfEqual(fragments);
    if fragments == [] {
      FoldUnfold([], stack[1..], []);
    } else {
      FoldSames(fragments, stack[1..], []);
      ConcatCons(fragments[0], fragments[1..]);
      assert [fragments[0]] + fragments[1..] == fragments;
      assert fragments[0] in fragments;
    }
  }

  /** When both sides have text, the last level emits exactly the Delete and Insert of a Replace. */
  lemma ChangeOpsIsReplace(oldString: string, newString: string)
    requires oldString != "" && newString != ""
    ensures ChangeOps(oldString, newString) ==
      [Replace(oldString, newString).DeleteOp(), Replace(oldString, newString).InsertOp()]
    ensures Opcodes(ChangeOps(oldString, newString)) == Replace(oldString, newString).GetOpcode()
  {
  }

  /** `empty()` differs from a test for "" only on the text "0". */
  lemma ChangeOpsAsWrittenAgrees(oldString: string, newString: string)
    requires oldString != "0" && newString != "0"
    ensures ChangeOpsAsWritten(oldString, newString) == ChangeOps(oldString, newString)
  {
  }

  /**
   * As written, a change of "0" into "1" at the last level loses the
   * deleted "0": the ops no longer edit the old text into the new one.
   */
  lemma ChangeOpsAsWrittenLosesZero()
    ensures ChangeOpsAsWritten("0", "1") == [Insert("1")]
    ensures !Edits(ChangeOpsAsWritten("0", "1"), "0", "1")
    ensures ChangeOps("0", "1") == [Delete("0"), Insert("1")]
    ensures Edits(ChangeOps("0", "1"), "0", "1")
  {
    ChangeOpsEdits("0", "1");
    var ops := [Insert("1")];
    assert ops[1..] == [];
    EditsUnfold(ops, "0", "1");
    EditsUnfold([], "0", "");
  }

  // ----- The Brvr_Diff object -----

  /** One more turn of the `getOpcodes` loop moves the opcode of `ops[k]` from the rest to the joined part. */
  lemma OpcodesStep(codes: seq<string>, ops: seq<Op>, k: nat)
    requires k < |ops|
    ensures Concat(codes + [Opcode(ops[k])]) + Opcodes(ops[k + 1..]) == Concat(codes) + Opcodes(ops[k..])
  {
    assert ops[k..][0] == ops[k] && ops[k..][1..] == ops[k + 1..];
    assert (codes + [Opcode(ops[k])])[..|codes|] == codes;
  }

  /**
   * Brvr_Diff: the two texts, the granularity stack the constructor settled
   * on, and the ops processGranularity produced for them.
   */
  class Diff {
    var fromText: string
    var toText: string
    var granularity: Option<seq<string>>
    var ops: seq<Op>

    /** The object as every constructor call leaves it. */
    ghost predicate Valid()
      reads this
    {
      (granularity.Some? ==> granularity.value != [])
      && ops == Process(fromText, toText, Levels(granularity))
    }

    constructor (fromText: string, toText: string, granularityStack: StackArg)
      ensures this.fromText == fromText && this.toText == toText
      ensures granularity == GranularityStack(granularityStack)
      ensures Valid()
    {
      var stack := GranularityStack(granularityStack);
      hide Flatten, GranularityStack, Process;
      var processed := ProcessGranularity(fromText, toText, Levels(stack));
      this.fromText := fromText;
      this.toText := toText;
      this.granularity := stack;
      this.ops := processed;
    }

    /** `getGranularity()`: null, or a stack that is never empty. */
    function GetGranularity(): (stack: Option<seq<string>>)
      reads this
      requires Valid()
      ensures stack == granularity && (stack.Some? ==> stack.value != [])
    {
      granularity
    }

    /** `getOps()`: an edit script of the two texts, in normal form. */
    function GetOps(): (r: seq<Op>)
      reads this
      requires Valid()
      ensures Edits(r, fromText, toText) && Normal(r)
    {
      ProcessEdits(fromText, toText, Levels(granularity));
      ProcessNormal(fromText, toText, Levels(granularity));
      ops
    }

    /** `getOpcodes()`: the opcodes of the ops, joined; they parse back to the same ops. */
    method GetOpcodes() returns (opcodes: string)
      requires Valid()
      ensures opcodes == Opcodes(ops)
      ensures Parse(opcodes) == Some(ops)
    {
      ProcessNormal(fromText, toText, Levels(granularity));
      assert AllWellFormed(ops);
      assert ops[0..] == ops && ops[|ops|..] == [];
      hide *;
      var codes: seq<string> := [];
      for k := 0 to |ops|
        invariant Concat(codes) + Opcodes(ops[k..]) == Opcodes(ops)
      {
        OpcodesStep(codes, ops, k);
        codes := codes + [Opcode(ops[k])];
      }
      opcodes := Concat(codes);
      ParseOpcodesRoundTrip(ops);
    }

    /** `Brvr_Diff::diff()`: the opcodes of a fresh diff of the two texts. */
    static method DiffTexts(from: string, to: string, granularityStack: StackArg) returns (opcodes: string)
      ensures opcodes == Opcodes(Process(from, to, Levels(GranularityStack(granularityStack))))
      ensures Parse(opcodes).Some? && Edits(Parse(opcodes).value, from, to)
    {
      var diff := new Diff(from, to, granularityStack);
      opcodes := diff.GetOpcodes();
      ProcessEdits(from, to, Levels(diff.granularity));
    }
  }
}
