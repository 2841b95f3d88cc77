/**
 * The edit-script operations of the diff engine (Diff/Op/Copy.php,
 * Delete.php, Insert.php and Replace.php): how much of the old and the new
 * text each spans, and its compact opcode.
 */
module DiffOp {
  import opened Wrappers
  import opened Decimal

  /**
   * One operation of an edit script. A Copy takes `len` characters from the
   * old text to the new one; a Delete drops `text` from the old text; an
   * Insert adds `text` to the new text.
   */
  datatype Op = Copy(len: nat) | Delete(text: string) | Insert(text: string)

  /** `getFromLen()`: the characters the op spans in the old text. */
  function FromLen(op: Op): nat {
    match op
    case Copy(n) => n
    case Delete(t) => |t|
    case Insert(_) => 0
  }

  /** `getToLen()`: the characters the op spans in the new text. */
  function ToLen(op: Op): nat {
    match op
    case Copy(n) => n
    case Delete(_) => 0
    case Insert(t) => |t|
  }

  /** The count written after the opcode letter: omitted for a length of 1. */
  function CountText(n: nat): string {
    if n == 1 then "" else NatToString(n)
  }

  /** `getOpcode()`: `c`, `c{n}`, `d:{c}`, `d{n}:{s}`, `i:{c}` or `i{n}:{s}`. */
  function Opcode(op: Op): (code: string)
    ensures |code| >= 1 && code[0] in {'c', 'd', 'i'}
  {
    match op
    case Copy(n) => "c" + CountText(n)
    case Delete(t) => "d" + CountText(|t|) + ":" + t
    case Insert(t) => "i" + CountText(|t|) + ":" + t
  }

  /** `Brvr_Diff::getOpcodes()`: the opcodes of the ops, in order, with no separator. */
  function Opcodes(ops: seq<Op>): (code: string)
    ensures ops == [] <==> code == []
    ensures ops != [] ==> code[0] in {'c', 'd', 'i'}
  {
    if ops == [] then "" else Opcode(ops[0]) + Opcodes(ops[1..])
  }

  /** The ops the diff engine produces: a Copy copies something, a Delete or Insert has text. */
  predicate WellFormed(op: Op) {
    match op
    case Copy(n) => n >= 1
    case Delete(t) => t != ""
    case Insert(t) => t != ""
  }

  predicate AllWellFormed(ops: seq<Op>) {
    forall i :: 0 <= i < |ops| ==> WellFormed(ops[i])
  }

  function SumFromLen(ops: seq<Op>): nat {
    if ops == [] then 0 else FromLen(ops[0]) + SumFromLen(ops[1..])
  }

  function SumToLen(ops: seq<Op>): nat {
    if ops == [] then 0 else ToLen(ops[0]) + SumToLen(ops[1..])
  }

  /**
   * `ops` edit `from` into `to`: read left to right, a Copy takes the same
   * characters from both texts, a Delete takes its text from `from`, an
   * Insert takes its text from `to`, and both texts are used up at the end.
   */
  predicate Edits(ops: seq<Op>, from: string, to: string)
    decreases |ops|
  {
    if ops == [] then from == "" && to == ""
    else
      match ops[0]
      case Copy(n) =>
        n <= |from| && n <= |to| && from[..n] == to[..n] && Edits(ops[1..], from[n..], to[n..])
      case Delete(t) =>
        |t| <= |from| && from[..|t|] == t && Edits(ops[1..], from[|t|..], to)
      case Insert(t) =>
        |t| <= |to| && to[..|t|] == t && Edits(ops[1..], from, to[|t|..])
  }

  /** No two Copy ops follow each other: the diff engine always fuses them. */
  predicate NoAdjacentCopies(ops: seq<Op>) {
    forall i :: 0 <= i < |ops| - 1 ==> !(ops[i].Copy? && ops[i + 1].Copy?)
  }

  lemma EditsUnfold(ops: seq<Op>, from: string, to: string)
    ensures ops == [] ==> (Edits(ops, from, to) <==> from == "" && to == "")
    ensures ops != [] && ops[0].Copy? ==>
      var n := ops[0].len;
      (Edits(ops, from, to) <==>
        n <= |from| && n <= |to| && from[..n] == to[..n] && Edits(ops[1..], from[n..], to[n..]))
    ensures ops != [] && ops[0].Delete? ==>
      var t := ops[0].text;
      (Edits(ops, from, to) <==> |t| <= |from| && from[..|t|] == t && Edits(ops[1..], from[|t|..], to))
    ensures ops != [] && ops[0].Insert? ==>
      var t := ops[0].text;
      (Edits(ops, from, to) <==> |t| <= |to| && to[..|t|] == t && Edits(ops[1..], from, to[|t|..]))
  {
  }

  /** An edit script spans exactly its two texts. */
  lemma {:induction false} EditsLengths(ops: seq<Op>, from: string, to: string)
    requires Edits(ops, from, to)
    ensures SumFromLen(ops) == |from| && SumToLen(ops) == |to|
    decreases |ops|
  {
    if ops != [] {
      match ops[0]
      case Copy(n) => EditsLengths(ops[1..], from[n..], to[n..]);
      case Delete(t) => EditsLengths(ops[1..], from[|t|..], to);
      case Insert(t) => EditsLengths(ops[1..], from, to[|t|..]);
    }
  }

  /** Two edit scripts one after the other edit the concatenated texts. */
  lemma {:induction false} EditsAppend(a: seq<Op>, b: seq<Op>, f1: string, t1: string, f2: string, t2: string)
    requires Edits(a, f1, t1) && Edits(b, f2, t2)
    ensures Edits(a + b, f1 + f2, t1 + t2)
    decreases |a|
  {
    hide Edits;
    EditsUnfold(a, f1, t1);
    if a == [] {
      assert a + b == b && f1 + f2 == f2 && t1 + t2 == t2;
    } else {
      var ab := a + b;
      assert ab[0] == a[0] && ab[1..] == a[1..] + b;
      EditsUnfold(ab, f1 + f2, t1 + t2);
      match a[0]
      case Copy(n) =>
        EditsAppend(a[1..], b, f1[n..], t1[n..], f2, t2);
        SplitAt(f1, f2, n);
        SplitAt(t1, t2, n);
      case Delete(t) =>
        EditsAppend(a[1..], b, f1[|t|..], t1, f2, t2);
        SplitAt(f1, f2, |t|);
      case Insert(t) =>
        EditsAppend(a[1..], b, f1, t1[|t|..], f2, t2);
        SplitAt(t1, t2, |t|);
    }
  }

  lemma SplitAt(x: string, y: string, n: nat)
    requires n <= |x|
    ensures (x + y)[..n] == x[..n] && (x + y)[n..] == x[n..] + y
  {
  }

  /** A Copy of a text's length edits the text into itself. */
  lemma CopyEdits(s: string)
    ensures Edits([Copy(|s|)], s, s)
  {
    assert [Copy(|s|)][1..] == [];
  }

  /** A script ending in a Copy and one starting with a Copy still edit when the two are fused. */
  lemma {:induction false} EditsFuseCopies(p: seq<Op>, m: nat, k: nat, q: seq<Op>, f1: string, t1: string, f2: string, t2: string)
    requires Edits(p + [Copy(m)], f1, t1) && Edits([Copy(k)] + q, f2, t2)
    ensures Edits(p + [Copy(m + k)] + q, f1 + f2, t1 + t2)
    decreases |p|
  {
    hide Edits;
    var whole := p + [Copy(m + k)] + q;
    var pm := p + [Copy(m)];
    EditsUnfold(pm, f1, t1);
    EditsUnfold([Copy(k)] + q, f2, t2);
    EditsUnfold(whole, f1 + f2, t1 + t2);
    if p == [] {
      assert pm[0] == Copy(m) && pm[1..] == [];
      assert ([Copy(k)] + q)[0] == Copy(k) && ([Copy(k)] + q)[1..] == q;
      EditsUnfold([], f1[m..], t1[m..]);
      FuseHead(f1, t1, f2, t2, m, k);
      assert whole[0] == Copy(m + k) && whole[1..] == q;
    } else {
      assert pm[0] == p[0] && pm[1..] == p[1..] + [Copy(m)];
      assert whole[0] == p[0] && whole[1..] == p[1..] + [Copy(m + k)] + q;
      match p[0]
      case Copy(n) =>
        EditsFuseCopies(p[1..], m, k, q, f1[n..], t1[n..], f2, t2);
        SplitAt(f1, f2, n);
        SplitAt(t1, t2, n);
      case Delete(t) =>
        EditsFuseCopies(p[1..], m, k, q, f1[|t|..], t1, f2, t2);
        SplitAt(f1, f2, |t|);
      case Insert(t) =>
        EditsFuseCopies(p[1..], m, k, q, f1, t1[|t|..], f2, t2);
        SplitAt(t1, t2, |t|);
    }
  }

  lemma FuseHead(f1: string, t1: string, f2: string, t2: string, m: nat, k: nat)
    requires m <= |f1| && m <= |t1| && f1[..m] == t1[..m] && f1[m..] == "" && t1[m..] == ""
    requires k <= |f2| && k <= |t2| && f2[..k] == t2[..k]
    ensures m + k <= |f1 + f2| && m + k <= |t1 + t2|
    ensures (f1 + f2)[..m + k] == (t1 + t2)[..m + k]
    ensures (f1 + f2)[m + k..] == f2[k..] && (t1 + t2)[m + k..] == t2[k..]
  {
    assert f1 == f1[..m] + f1[m..] && t1 == t1[..m] + t1[m..];
    assert (f1 + f2)[..m + k] == f1 + f2[..k];
    assert (t1 + t2)[..m + k] == t1 + t2[..k];
  }

  /** A Delete or Insert opcode ends with its text, verbatim, after a `:`. */
  lemma OpcodeEndsWithText(op: Op)
    requires !op.Copy?
    ensures |Opcode(op)| > |op.text|
    ensures Opcode(op)[|Opcode(op)| - |op.text| - 1] == ':'
    ensures Opcode(op)[|Opcode(op)| - |op.text|..] == op.text
  {
  }

  /**
   * Copy.php: a copy operation whose length is bumped in place when the
   * diff engine fuses two adjacent copies.
   */
  class CopyOp {
    var len: nat

    constructor (len: nat)
      ensures this.len == len
    {
      this.len := len;
    }

    /** The op this object stands for. */
    function AsOp(): Op
      reads this
    {
      Copy(len)
    }

    /** `getFromLen()` and `getToLen()` agree: a copy spans the same length in both texts. */
    function GetFromLen(): (n: nat)
      reads this
      ensures n == FromLen(AsOp()) == ToLen(AsOp())
    {
      len
    }

    function GetToLen(): (n: nat)
      reads this
      ensures n == ToLen(AsOp()) == FromLen(AsOp())
    {
      len
    }

    /** `getOpcode()`: `c` for one character, otherwise `c` and the decimal length. */
    function GetOpcode(): (code: string)
      reads this
      ensures code == Opcode(AsOp())
      ensures len == 1 ==> code == "c"
      ensures len != 1 ==> code == "c" + NatToString(len)
    {
      if len == 1 then "c" else "c" + NatToString(len)
    }

    /** `increase($size)`: the only mutator; adds `size` and returns the new length. */
    method Increase(size: nat) returns (newLen: nat)
      modifies this
      ensures len == old(len) + size && newLen == len
    {
      len := len + size;
      newLen := len;
    }
  }

  /**
   * Replace.php: a Delete of `fromText` and an Insert of `toText` composed
   * into one op.
   */
  datatype Replace = Replace(fromText: string, toText: string) {
    function DeleteOp(): Op { Delete(fromText) }
    function InsertOp(): Op { Insert(toText) }

    /** `getFromLen()`: delegated to the Delete part. */
    function GetFromLen(): (n: nat)
      ensures n == FromLen(DeleteOp()) == |fromText|
    {
      FromLen(DeleteOp())
    }

    /** `getToLen()` as evidently intended: delegated to the Insert part. */
    function GetToLen(): (n: nat)
      ensures n == ToLen(InsertOp()) == |toText|
    {
      ToLen(InsertOp())
    }

    /**
     * `getToLen()` as written reads the property `__to`, which the class
     * never declares: the read gives null and the method call on it is a
     * fatal error, so there is no length at all.
     */
    function GetToLenAsWritten(): (r: Option<nat>)
      ensures r.None?
    {
      None
    }

    /** `getOpcode()`: the Delete opcode followed by the Insert opcode. */
    function GetOpcode(): (code: string)
      ensures code == Opcodes([DeleteOp(), InsertOp()])
    {
      Opcode(DeleteOp()) + Opcode(InsertOp())
    }
  }

  /** As written, a Replace has no length in the new text; as intended it has the length of its inserted text. */
  lemma ReplaceToLenAsWrittenFails(r: Replace)
    ensures r.GetToLenAsWritten().None?
    ensures r.GetToLen() == |r.toText| == ToLen(r.InsertOp())
  {
  }
}
