/**
 * Diff/Ops.php: parsing a persisted opcode string back into ops.
 */
module DiffOps {
  import opened Wrappers
  import opened Decimal
  import opened Php
  import opened DiffOp

  /** One parsed op and how many characters it took up in the opcode string. */
  datatype Step = Step(op: Op, next: nat)

  /** A count as `intval` reads it after the opcode letter, and the characters it occupies. */
  datatype Count = Count(n: nat, width: nat)

  /**
   * The count of `$n = intval(...)`: 1 when `intval` reads 0 (nothing is
   * consumed), otherwise the value and `strlen(strval($n))`. None when
   * `intval` reads a negative number (see README, Left out).
   */
  function ReadCount(u: string): (c: Option<Count>)
    ensures c.Some? ==> c.value.n >= 1
  {
    var v := IntVal(u);
    if v < 0 then None
    else if v == 0 then Some(Count(1, 0))
    else Some(Count(v, |NatToString(v)|))
  }

  /**
   * One turn of the parse loop with the opcode letter at `offset`: the
   * letter, then the count, then for `d` and `i` one skipped character and
   * `n` characters of payload (fewer when the text ends first). None for a
   * letter other than `c`, `d`, `i`.
   */
  function StepAt(s: string, offset: nat): (r: Option<Step>)
    requires offset < |s|
    ensures r.Some? ==> r.value.next > 0
  {
    var letter := s[offset];
    if letter != 'c' && letter != 'd' && letter != 'i' then None
    else match ReadCount(Tail(s, offset + 1))
      case None => None
      case Some(Count(n, w)) =>
        var p := offset + 1 + w;
        if letter == 'c' then Some(Step(Copy(n), 1 + w))
        else if letter == 'd' then Some(Step(Delete(Substr(s, p + 1, n)), 1 + w + 1 + n))
        else Some(Step(Insert(Substr(s, p + 1, n)), 1 + w + 1 + n))
  }

  function Prepend(done: seq<Op>, r: Option<seq<Op>>): (p: Option<seq<Op>>)
    ensures p.Some? == r.Some? && (p.Some? ==> p.value == done + r.value)
  {
    match r
    case None => None
    case Some(rest) => Some(done + rest)
  }

  /** The ops parsed from `offset` to the end of `s`, or None on a bad letter. */
  function ParseFrom(s: string, offset: nat): Option<seq<Op>>
    decreases |s| - offset
  {
    if offset >= |s| then Some([])
    else match StepAt(s, offset)
      case None => None
      case Some(Step(op, k)) => Prepend([op], ParseFrom(s, offset + k))
  }

  /** `parseOpcodes($opcodes)`: the ops, or None where the PHP code returns false. */
  function Parse(s: string): Option<seq<Op>> {
    ParseFrom(s, 0)
  }

  /**
   * The parse loop of `parseOpcodes`: each turn reads one op at the offset
   * and appends it to `parsed`; a bad letter ends the parse with None.
   */
  method ParseOpcodes(opcodes: string) returns (r: Option<seq<Op>>)
    ensures r == Parse(opcodes)
  {
    hide *;
    var parsed: seq<Op> := [];
    var offset: nat := 0;
    var len := |opcodes|;
    ParseStart(opcodes);
    while offset < len
      invariant Parse(opcodes) == Prepend(parsed, ParseFrom(opcodes, offset))
      decreases len - offset
    {
      ParseFromUnfold(opcodes, offset);
      var step := ReadOp(opcodes, offset);
      if step.None? {
        return None;
      }
      PrependAssoc(parsed, step.value.op, ParseFrom(opcodes, offset + step.value.next));
      parsed := parsed + [step.value.op];
      offset := offset + step.value.next;
    }
    ParseFromEnd(opcodes, offset);
    PrependNothing(parsed);
    return Some(parsed);
  }

  /**
   * The body of the parse loop: the opcode letter, the count `intval` reads
   * after it (1 when it reads 0), and for `d` and `i` the payload after one
   * skipped character. Returns the op and how far the offset moves.
   */
  method ReadOp(opcodes: string, start: nat) returns (r: Option<Step>)
    requires start < |opcodes|
    ensures r == StepAt(opcodes, start)
  {
    hide *;
    var offset := start;
    var opcode := opcodes[offset];
    offset := offset + 1;
    var n := IntVal(Tail(opcodes, offset));
    ReadCountOfIntVal(Tail(opcodes, offset));
    if opcode != 'c' && opcode != 'd' && opcode != 'i' {
      StepAtNone(opcodes, start);
      return None;
    }
    if n < 0 {
      StepAtNone(opcodes, start);
      return None;
    }
    ghost var count := ReadCount(Tail(opcodes, offset)).value;
    if n != 0 {
      offset := offset + |NatToString(n)|;
    } else {
      n := 1;
    }
    var op: Op;
    if opcode == 'c' {
      op := Copy(n);
    } else {
      var text := Substr(opcodes, offset + 1, n);
      op := if opcode == 'd' then Delete(text) else Insert(text);
      offset := offset + 1 + n;
    }
    StepAtOf(opcodes, start, count, op, offset - start);
    return Some(Step(op, offset - start));
  }

  /** ReadCount in terms of the `intval` it applies. */
  lemma ReadCountOfIntVal(u: string)
    ensures IntVal(u) < 0 ==> ReadCount(u) == None
    ensures IntVal(u) == 0 ==> ReadCount(u) == Some(Count(1, 0))
    ensures IntVal(u) > 0 ==> ReadCount(u) == Some(Count(IntVal(u), |NatToString(IntVal(u))|))
  {
  }

  /** No step at `base`: a letter other than `c`, `d`, `i`, or a negative count. */
  lemma StepAtNone(s: string, base: nat)
    requires base < |s|
    requires s[base] !in {'c', 'd', 'i'} || ReadCount(Tail(s, base + 1)) == None
    ensures StepAt(s, base) == None
  {
  }

  /** The step at `base`, given the letter there and the count after it. */
  lemma StepAtOf(s: string, base: nat, count: Count, op: Op, k: nat)
    requires base < |s| && s[base] in {'c', 'd', 'i'}
    requires ReadCount(Tail(s, base + 1)) == Some(count)
    requires op == (if s[base] == 'c' then Copy(count.n)
      else if s[base] == 'd' then Delete(Substr(s, base + 1 + count.width + 1, count.n))
      else Insert(Substr(s, base + 1 + count.width + 1, count.n)))
    requires k == if s[base] == 'c' then 1 + count.width else 1 + count.width + 1 + count.n
    ensures StepAt(s, base) == Some(Step(op, k))
  {
  }

  lemma PrependAssoc(done: seq<Op>, op: Op, r: Option<seq<Op>>)
    ensures Prepend(done, Prepend([op], r)) == Prepend(done + [op], r)
  {
    if r.Some? {
      assert done + ([op] + r.value) == (done + [op]) + r.value;
    }
  }

  /** Brvr_Diff_Ops: the parsed ops together with the opcode string they came from. */
  datatype Ops = Ops(ops: seq<Op>, opcodes: string)

  /**
   * The constructor: parses, and throws Brvr_Diff_Ops_Exception when the
   * parse fails; `getOps()` and `getOpcodes()` read the two fields.
   */
  method NewOps(opcodes: string) returns (r: Result<Ops>)
    ensures r.Success? <==> Parse(opcodes).Some?
    ensures r.Success? ==> r.value.ops == Parse(opcodes).value && r.value.opcodes == opcodes
    ensures r.Failure? ==> r.error == "Opcodes supplied are invalid"
  {
    var parsed := ParseOpcodes(opcodes);
    if parsed.None? {
      return Failure("Opcodes supplied are invalid");
    }
    return Success(Ops(parsed.value, opcodes));
  }

  /**
   * What follows a serialised op cannot be read as part of its count: it is
   * empty or starts with neither a digit, white space nor a sign.
   */
  predicate EndsCount(t: string) {
    t == [] || (!IsDigit(t[0]) && !IsSpace(t[0]) && t[0] != '+' && t[0] != '-')
  }

  /** `intval` reads back the count a serialised op wrote, when an opcode letter follows. */
  lemma ReadCountOfCountText(n: nat, rest: string)
    requires n >= 1 && EndsCount(rest)
    ensures ReadCount(CountText(n) + rest) == Some(Count(n, |CountText(n)|))
  {
    if n == 1 {
      assert CountText(n) + rest == rest;
      if rest != [] {
        IntValOfNonDigit(rest);
      } else {
        assert IntVal(rest) == 0;
      }
    } else {
      IntValOfNatToString(n, rest);
    }
  }

  /** A single serialised op is read back as itself, consuming exactly its opcode. */
  lemma StepOfOpcode(op: Op, rest: string)
    requires WellFormed(op) && EndsCount(rest)
    ensures StepAt(Opcode(op) + rest, 0) == Some(Step(op, |Opcode(op)|))
  {
    match op
    case Copy(n) => CopyStep(n, rest);
    case Delete(s) => DeleteStep(s, rest);
    case Insert(s) => InsertStep(s, rest);
  }

  lemma CopyStep(n: nat, rest: string)
    requires n >= 1 && EndsCount(rest)
    ensures StepAt(Opcode(Copy(n)) + rest, 0) == Some(Step(Copy(n), |Opcode(Copy(n))|))
  {
    hide StepAt, ReadCount;
    var t := Opcode(Copy(n)) + rest;
    ReadCountOfCountText(n, rest);
    assert Tail(t, 1) == CountText(n) + rest;
    StepAtOf(t, 0, Count(n, |CountText(n)|), Copy(n), 1 + |CountText(n)|);
  }

  lemma DeleteStep(s: string, rest: string)
    requires s != "" && EndsCount(rest)
    ensures StepAt(Opcode(Delete(s)) + rest, 0) == Some(Step(Delete(s), |Opcode(Delete(s))|))
  {
    hide StepAt, ReadCount, Substr;
    var w := |CountText(|s|)|;
    var u := CountText(|s|) + ":" + s + rest;
    var t := ['d'] + u;
    PayloadCount(s, rest);
    PayloadText('d', s, rest);
    assert Opcode(Delete(s)) + rest == t;
    assert Tail(t, 1) == u;
    StepAtOf(t, 0, Count(|s|, w), Delete(s), 1 + w + 1 + |s|);
  }

  lemma InsertStep(s: string, rest: string)
    requires s != "" && EndsCount(rest)
    ensures StepAt(Opcode(Insert(s)) + rest, 0) == Some(Step(Insert(s), |Opcode(Insert(s))|))
  {
    hide StepAt, ReadCount, Substr;
    var w := |CountText(|s|)|;
    var u := CountText(|s|) + ":" + s + rest;
    var t := ['i'] + u;
    PayloadCount(s, rest);
    PayloadText('i', s, rest);
    assert Opcode(Insert(s)) + rest == t;
    assert Tail(t, 1) == u;
    StepAtOf(t, 0, Count(|s|, w), Insert(s), 1 + w + 1 + |s|);
  }

  /** The count of a serialised Delete or Insert reads back. */
  lemma PayloadCount(s: string, rest: string)
    requires s != ""
    ensures ReadCount(CountText(|s|) + ":" + s + rest) == Some(Count(|s|, |CountText(|s|)|))
  {
    var u := ":" + s + rest;
    assert CountText(|s|) + ":" + s + rest == CountText(|s|) + u;
    ReadCountOfCountText(|s|, u);
  }

  /** The payload of a serialised Delete or Insert reads back. */
  lemma PayloadText(letter: char, s: string, rest: string)
    ensures Substr([letter] + (CountText(|s|) + ":" + s + rest), |CountText(|s|)| + 2, |s|) == s
  {
    var t := [letter] + (CountText(|s|) + ":" + s + rest);
    var w := |CountText(|s|)|;
    assert t[w + 2..w + 2 + |s|] == s;
  }

  /** A step read after a prefix is the step read on its own. */
  lemma StepAtShift(a: string, b: string, j: nat)
    requires j < |b|
    ensures StepAt(a + b, |a| + j) == StepAt(b, j)
  {
    hide ReadCount;
    var t := a + b;
    assert t[|a| + j] == b[j];
    assert Tail(t, |a| + j + 1) == Tail(b, j + 1);
    var c := ReadCount(Tail(b, j + 1));
    if c.Some? {
      SubstrShift(a, b, j + 1 + c.value.width + 1, c.value.n);
    }
  }

  /** A substring taken after a prefix is the substring of what follows it. */
  lemma SubstrShift(a: string, b: string, p: nat, n: nat)
    ensures Substr(a + b, |a| + p, n) == Substr(b, p, n)
  {
    var t := a + b;
    if p < |b| {
      if p + n <= |b| {
        assert t[|a| + p..|a| + p + n] == b[p..p + n];
      } else {
        assert t[|a| + p..] == b[p..];
      }
    }
  }

  /** Two texts whose steps agree from some point on parse alike from there. */
  lemma {:induction false} ParseFromAgree(t: string, b: string, d: nat, j: nat)
    requires |t| == d + |b|
    requires forall i :: j <= i < |b| ==> StepAt(t, d + i) == StepAt(b, i)
    ensures ParseFrom(t, d + j) == ParseFrom(b, j)
    decreases |b| - j
  {
    hide StepAt;
    if j < |b| {
      var step := StepAt(b, j);
      if step.Some? {
        ParseFromAgree(t, b, d, j + step.value.next);
      }
      ParseFromOneStep(t, b, d, j);
    }
  }

  /** One step of ParseFromAgree: equal steps, then equal parses of what follows. */
  lemma ParseFromOneStep(t: string, b: string, d: nat, j: nat)
    requires |t| == d + |b| && j < |b|
    requires StepAt(t, d + j) == StepAt(b, j)
    requires StepAt(b, j).Some? ==>
      ParseFrom(t, d + j + StepAt(b, j).value.next) == ParseFrom(b, j + StepAt(b, j).value.next)
    ensures ParseFrom(t, d + j) == ParseFrom(b, j)
  {
    hide StepAt;
    ParseFromUnfold(t, d + j);
    ParseFromUnfold(b, j);
  }

  /** ParseFrom before the end: one step, then the rest. */
  lemma ParseStart(s: string)
    ensures Parse(s) == Prepend([], ParseFrom(s, 0))
  {
    match ParseFrom(s, 0) {
      case None =>
      case Some(v) => assert [] + v == v;
    }
  }

  lemma PrependNothing(done: seq<Op>)
    ensures Prepend(done, Some([])) == Some(done)
  {
    assert done + [] == done;
  }

  lemma ParseFromEnd(s: string, offset: nat)
    requires offset >= |s|
    ensures ParseFrom(s, offset) == Some([])
  {
  }

  lemma ParseFromUnfold(s: string, offset: nat)
    requires offset < |s|
    ensures StepAt(s, offset).None? ==> ParseFrom(s, offset) == None
    ensures StepAt(s, offset).Some? ==>
      ParseFrom(s, offset) == Prepend([StepAt(s, offset).value.op], ParseFrom(s, offset + StepAt(s, offset).value.next))
  {
  }

  /** Parsing after a prefix is parsing on its own. */
  lemma ParseFromShift(a: string, b: string)
    ensures ParseFrom(a + b, |a|) == ParseFrom(b, 0)
  {
    forall i | 0 <= i < |b|
      ensures StepAt(a + b, |a| + i) == StepAt(b, i)
    {
      StepAtShift(a, b, i);
    }
    ParseFromAgree(a + b, b, |a|, 0);
  }

  /** The parse of `head + rest` when `head` is read as one step. */
  lemma ParseCons(t: string, head: string, rest: string, op: Op)
    requires t == head + rest && head != []
    requires StepAt(t, 0) == Some(Step(op, |head|))
    ensures Parse(t) == Prepend([op], Parse(rest))
  {
    ParseFromShift(head, rest);
  }

  /** Parsing the opcodes of well-formed ops gives back those ops. */
  lemma {:induction false} ParseOpcodesRoundTrip(ops: seq<Op>)
    requires AllWellFormed(ops)
    ensures Parse(Opcodes(ops)) == Some(ops)
  {
    if ops != [] {
      var head := Opcode(ops[0]);
      var rest := Opcodes(ops[1..]);
      assert Opcodes(ops) == head + rest;
      StepOfOpcode(ops[0], rest);
      ParseCons(head + rest, head, rest, ops[0]);
      ParseOpcodesRoundTrip(ops[1..]);
      assert [ops[0]] + ops[1..] == ops;
    }
  }

  /** A Replace's opcode parses as its Delete followed by its Insert. */
  lemma ReplaceParsesAsPair(r: Replace)
    requires r.fromText != "" && r.toText != ""
    ensures Parse(r.GetOpcode()) == Some([Delete(r.fromText), Insert(r.toText)])
  {
    ParseOpcodesRoundTrip([r.DeleteOp(), r.InsertOp()]);
  }

  /** A letter other than `c`, `d` or `i` where an op should start makes the whole parse fail. */
  lemma {:induction false} ParseRejectsUnknownLetter(ops: seq<Op>, bad: char, rest: string)
    requires AllWellFormed(ops) && bad !in {'c', 'd', 'i'} && EndsCount([bad])
    ensures Parse(Opcodes(ops) + [bad] + rest) == None
  {
    if ops == [] {
      assert Opcodes(ops) + [bad] + rest == [bad] + rest;
    } else {
      var head := Opcode(ops[0]);
      var tail := Opcodes(ops[1..]) + [bad] + rest;
      assert Opcodes(ops) + [bad] + rest == head + tail;
      assert tail == Opcodes(ops[1..]) + [bad] + rest;
      StepOfOpcode(ops[0], tail);
      ParseCons(head + tail, head, tail, ops[0]);
      ParseRejectsUnknownLetter(ops[1..], bad, rest);
    }
  }

  /** Without a count the length is 1, and the character after it is skipped unchecked. */
  lemma ParseUncheckedSeparator()
    ensures Parse("d!x") == Some([Delete("x")])
    ensures Parse("c") == Some([Copy(1)])
  {
    var t := "d!x";
    assert Tail(t, 1) == "!x";
    IntValOfNonDigit("!x");
    assert Substr(t, 2, 1) == t[2..3] == "x";
    assert StepAt(t, 0) == Some(Step(Delete("x"), 3));
    assert [Delete("x")] + [] == [Delete("x")];
    assert Tail("c", 1) == "";
    assert StepAt("c", 0) == Some(Step(Copy(1), 1));
    assert [Copy(1)] + [] == [Copy(1)];
  }

  /** A payload shorter than its count is not an error: the op takes what is left. */
  lemma ParseTruncatedPayload()
    ensures Parse("d3:xy") == Some([Delete("xy")])
  {
    var t := "d3:xy";
    ReadCountOfCountText(3, ":xy");
    assert CountText(3) == "3";
    assert Tail(t, 1) == CountText(3) + ":xy";
    assert Substr(t, 3, 3) == t[3..] == "xy";
    assert StepAt(t, 0) == Some(Step(Delete("xy"), 6));
    assert [Delete("xy")] + [] == [Delete("xy")];
  }
}
