/**
 * Brvr_Diff_Render_Text (Diff/Render/Text.php): replays an op list over a
 * source text. Forwards the source is the older text and the newer one is
 * rendered; backwards the source is the newer text and the older one is
 * rendered.
 */
module DiffRenderText {
  import opened Wrappers
  import opened Php
  import opened DiffOp
  import opened DiffOps
  import opened DiffRender
  import opened DiffEngine

  /**
   * What `applyOps($forward)` renders from the ops, with the source read
   * from `offset` on. A Copy takes its length of source and moves on; going
   * forwards a Delete skips its text in the source and an Insert emits its
   * own text, going backwards the roles swap.
   */
  function Replay(source: string, ops: seq<Op>, forward: bool, offset: nat): string
    decreases |ops|
  {
    if ops == [] then ""
    else
      match ops[0]
      case Copy(n) => Substr(source, offset, n) + Replay(source, ops[1..], forward, offset + n)
      case Delete(t) =>
        if forward then Replay(source, ops[1..], forward, offset + |t|)
        else t + Replay(source, ops[1..], forward, offset)
      case Insert(t) =>
        if forward then t + Replay(source, ops[1..], forward, offset)
        else Replay(source, ops[1..], forward, offset + |t|)
  }

  /** The first turn of `Replay`, for proofs that keep its body hidden. */
  lemma ReplayUnfold(source: string, ops: seq<Op>, forward: bool, offset: nat)
    ensures ops == [] ==> Replay(source, ops, forward, offset) == ""
    ensures ops != [] && ops[0].Copy? ==>
      Replay(source, ops, forward, offset) ==
        Substr(source, offset, ops[0].len) + Replay(source, ops[1..], forward, offset + ops[0].len)
    ensures ops != [] && ops[0].Delete? && forward ==>
      Replay(source, ops, forward, offset) == Replay(source, ops[1..], forward, offset + |ops[0].text|)
    ensures ops != [] && ops[0].Delete? && !forward ==>
      Replay(source, ops, forward, offset) == ops[0].text + Replay(source, ops[1..], forward, offset)
    ensures ops != [] && ops[0].Insert? && forward ==>
      Replay(source, ops, forward, offset) == ops[0].text + Replay(source, ops[1..], forward, offset)
    ensures ops != [] && ops[0].Insert? && !forward ==>
      Replay(source, ops, forward, offset) == Replay(source, ops[1..], forward, offset + |ops[0].text|)
  {
  }

  /** The `foreach` of `applyOps`, accumulating `$rendered` and advancing `$sourceOffset`. */
  method ApplyOps(r: Renderer, forward: bool) returns (rendered: string)
    ensures rendered == Replay(r.source, r.ops.ops, forward, 0)
  {
    hide *;
    var source := r.GetSource();
    var ops := r.ops.ops;
    rendered := "";
    var offset: nat := 0;
    for k := 0 to |ops|
      invariant rendered + Replay(source, ops[k..], forward, offset) == Replay(source, ops, forward, 0)
    {
      assert ops[k..][0] == ops[k] && ops[k..][1..] == ops[k + 1..];
      ReplayUnfold(source, ops[k..], forward, offset);
      ghost var before, start := rendered, offset;
      var piece := "";
      match ops[k] {
        case Copy(n) =>
          piece := Substr(source, offset, n);
          offset := offset + n;
        case Delete(t) =>
          if forward {
            offset := offset + |t|;
          } else {
            piece := t;
          }
        case Insert(t) =>
          if forward {
            piece := t;
          } else {
            offset := offset + |t|;
          }
      }
      assert Replay(source, ops[k..], forward, start) == piece + Replay(source, ops[k + 1..], forward, offset);
      rendered := rendered + piece;
      assert before + (piece + Replay(source, ops[k + 1..], forward, offset)) ==
        rendered + Replay(source, ops[k + 1..], forward, offset);
    }
    ReplayUnfold(source, ops[|ops|..], forward, offset);
  }

  /** `render()`: replay in the stored direction. */
  method Render(r: Renderer) returns (rendered: string)
    ensures rendered == Replay(r.source, r.ops.ops, r.direction, 0)
  {
    rendered := ApplyOps(r, r.direction);
  }

  /** `renderForward($source, $opcodes)`: construct with the default direction and render. */
  method RenderForward(source: string, opcodes: string) returns (r: Result<string>)
    ensures r.Success? <==> Parse(opcodes).Some?
    ensures r.Success? ==> r.value == Replay(source, Parse(opcodes).value, true, 0)
  {
    var renderer := NewRenderer(source, opcodes, BoolArg(true));
    if renderer.Failure? {
      return Failure(renderer.error);
    }
    var rendered := Render(renderer.value);
    r := Success(rendered);
  }

  /** `renderBackward($source, $opcodes)`: construct with `false` and render. */
  method RenderBackward(source: string, opcodes: string) returns (r: Result<string>)
    ensures r.Success? <==> Parse(opcodes).Some?
    ensures r.Success? ==> r.value == Replay(source, Parse(opcodes).value, false, 0)
  {
    var renderer := NewRenderer(source, opcodes, BoolArg(false));
    if renderer.Failure? {
      return Failure(renderer.error);
    }
    var rendered := Render(renderer.value);
    r := Success(rendered);
  }

  /** The `n` characters at `offset` are the start of the rest from `offset`, and what follows them is the rest from `offset + n`. */
  lemma SliceAt(source: string, offset: nat, n: nat)
    requires offset + n <= |source|
    ensures Substr(source, offset, n) == source[offset..][..n]
    ensures source[offset..][n..] == source[offset + n..]
  {
  }

  /** Replaying an edit script forwards over the rest of the older text gives the newer text. */
  lemma {:induction false} ReplayForward(ops: seq<Op>, source: string, offset: nat, to: string)
    requires offset <= |source| && Edits(ops, source[offset..], to)
    ensures Replay(source, ops, true, offset) == to
    decreases |ops|
  {
    EditsUnfold(ops, source[offset..], to);
    if ops != [] {
      var from := source[offset..];
      match ops[0]
      case Copy(n) =>
        SliceAt(source, offset, n);
        ReplayForward(ops[1..], source, offset + n, to[n..]);
        assert to[..n] + to[n..] == to;
      case Delete(t) =>
        SliceAt(source, offset, |t|);
        ReplayForward(ops[1..], source, offset + |t|, to);
      case Insert(t) =>
        ReplayForward(ops[1..], source, offset, to[|t|..]);
        assert t + to[|t|..] == to;
    }
  }

  /** Replaying an edit script backwards over the rest of the newer text gives the older text. */
  lemma {:induction false} ReplayBackward(ops: seq<Op>, source: string, offset: nat, from: string)
    requires offset <= |source| && Edits(ops, from, source[offset..])
    ensures Replay(source, ops, false, offset) == from
    decreases |ops|
  {
    EditsUnfold(ops, from, source[offset..]);
    if ops != [] {
      var to := source[offset..];
      match ops[0]
      case Copy(n) =>
        SliceAt(source, offset, n);
        ReplayBackward(ops[1..], source, offset + n, from[n..]);
        assert from[..n] + from[n..] == from;
      case Delete(t) =>
        ReplayBackward(ops[1..], source, offset, from[|t|..]);
        assert t + from[|t|..] == from;
      case Insert(t) =>
        SliceAt(source, offset, |t|);
        ReplayBackward(ops[1..], source, offset + |t|, from);
    }
  }

  /**
   * The point of the library: whatever the granularity stack, the ops the
   * engine computes for `from` and `to` serialise to opcodes that parse
   * back to them, replay forwards over `from` to `to`, and backwards over
   * `to` to `from`.
   */
  lemma DiffThenRender(from: string, to: string, stack: seq<string>)
    requires stack != []
    ensures Parse(Opcodes(Process(from, to, stack))) == Some(Process(from, to, stack))
    ensures Replay(from, Process(from, to, stack), true, 0) == to
    ensures Replay(to, Process(from, to, stack), false, 0) == from
  {
    var ops := Process(from, to, stack);
    ProcessEdits(from, to, stack);
    ProcessNormal(from, to, stack);
    ParseOpcodesRoundTrip(ops);
    assert from[0..] == from && to[0..] == to;
    ReplayForward(ops, from, 0, to);
    ReplayBackward(ops, to, 0, from);
  }

  /** The same through the public entry points: `Brvr_Diff::diff` and then renderForward/renderBackward. */
  method DiffAndRender(from: string, to: string, granularityStack: StackArg) returns (newer: string, older: string)
    ensures newer == to && older == from
  {
    var opcodes := Diff.DiffTexts(from, to, granularityStack);
    DiffThenRender(from, to, Levels(GranularityStack(granularityStack)));
    var forward := RenderForward(from, opcodes);
    var backward := RenderBackward(to, opcodes);
    newer, older := forward.value, backward.value;
  }

  /**
   * `applyOps` as written: line 96 reads `$op->getFromLen` as a property,
   * which is null, so the offset does not move past a Copy.
   */
  function ReplayAsWritten(source: string, ops: seq<Op>, forward: bool, offset: nat): string
    decreases |ops|
  {
    if ops == [] then ""
    else
      match ops[0]
      case Copy(n) => Substr(source, offset, n) + ReplayAsWritten(source, ops[1..], forward, offset)
      case Delete(t) =>
        if forward then ReplayAsWritten(source, ops[1..], forward, offset + |t|)
        else t + ReplayAsWritten(source, ops[1..], forward, offset)
      case Insert(t) =>
        if forward then t + ReplayAsWritten(source, ops[1..], forward, offset)
        else ReplayAsWritten(source, ops[1..], forward, offset + |t|)
  }

  /**
   * Inserting "X" in the middle of "ab": the edit script is right, the
   * corrected replay gives "aXb", the replay as written copies "a" twice.
   */
  lemma CopyNeverAdvancesAsWritten()
    ensures Edits([Copy(1), Insert("X"), Copy(1)], "ab", "aXb")
    ensures Replay("ab", [Copy(1), Insert("X"), Copy(1)], true, 0) == "aXb"
    ensures ReplayAsWritten("ab", [Copy(1), Insert("X"), Copy(1)], true, 0) == "aXa"
  {
    var ops := [Copy(1), Insert("X"), Copy(1)];
    assert ops[1..] == [Insert("X"), Copy(1)] && ops[1..][1..] == [Copy(1)] && ops[1..][1..][1..] == [];
    assert Replay("ab", ops, true, 0) == "a" + ("X" + ("b" + ""));
    assert ReplayAsWritten("ab", ops, true, 0) == "a" + ("X" + ("a" + ""));
    assert "ab"[..1] == "a" && "ab"[1..] == "b" && "aXb"[..1] == "a" && "aXb"[1..] == "Xb";
    assert "Xb"[1..] == "b";
    assert Edits([Copy(1)], "b", "b") by { CopyEdits("b"); }
  }

  /**
   * The `empty()` defect of Diff.php seen through the renderer: a change of
   * "0" into "1" followed by "b" loses its Delete, and replaying the ops as
   * written over "0b" gives "10" instead of "1b".
   */
  lemma ZeroDeleteLostInReplay()
    ensures Replay("0b", ChangeOpsAsWritten("0", "1") + [Copy(1)], true, 0) == "10"
    ensures Replay("0b", ChangeOps("0", "1") + [Copy(1)], true, 0) == "1b"
  {
    ChangeOpsAsWrittenLosesZero();
    var copy := Replay("0b", [Copy(1)], true, 1);
    assert [Copy(1)][1..] == [];
    assert copy == "b" by {
      assert Substr("0b", 1, 1) == "0b"[1..2] == "b";
    }
    var bad := ChangeOpsAsWritten("0", "1") + [Copy(1)];
    assert bad == [Insert("1"), Copy(1)] && bad[1..] == [Copy(1)];
    assert Replay("0b", [Copy(1)], true, 0) == "0" by {
      assert Substr("0b", 0, 1) == "0b"[0..1] == "0";
    }
    assert Replay("0b", bad, true, 0) == "1" + "0";
    var good := ChangeOps("0", "1") + [Copy(1)];
    assert good == [Delete("0"), Insert("1"), Copy(1)];
    assert good[1..] == [Insert("1"), Copy(1)] && good[1..][1..] == [Copy(1)];
    assert Replay("0b", good[1..], true, 1) == "1" + copy;
    assert Replay("0b", good, true, 0) == Replay("0b", good[1..], true, 1);
  }
}
