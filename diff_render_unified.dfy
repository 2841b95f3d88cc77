/**
 * The self-contained helpers of Brvr_Diff_Render_Unified
 * (Diff/Render/Unified.php): line positions in a text, marking the lines of
 * a run with an op character, and the hunk headers of the unified format
 * (section 2.2.2 of the GNU diffutils manual, "Detailed Description of
 * Unified Format": `@@ -from,len +to,len @@`, a length of one written as
 * the bare start line).
 */
module DiffRenderUnified {
  import opened Wrappers
  import opened Php
  import opened Decimal

  // ----- Line positions -----

  /** `strrpos($t, "\n")`: the last newline of `t`. */
  function LastNewline(t: string): (r: Option<nat>)
    ensures r.Some? ==> r.value < |t| && t[r.value] == '\n'
    ensures r.Some? ==> forall i :: r.value < i < |t| ==> t[i] != '\n'
    ensures r.None? ==> forall i :: 0 <= i < |t| ==> t[i] != '\n'
    decreases |t|
  {
    if t == "" then None
    else if t[|t| - 1] == '\n' then Some(|t| - 1)
    else
      var r := LastNewline(t[..|t| - 1]);
      assert forall i :: 0 <= i < |t| - 1 ==> t[..|t| - 1][i] == t[i];
      r
  }

  /**
   * `strpos($s, "\n", $from)`: the first newline at or after `from`; false
   * (none) as well for a start past the end, where PHP 7 warns.
   */
  function FirstNewline(s: string, from: nat): (r: Option<nat>)
    ensures r.Some? ==> from <= r.value < |s| && s[r.value] == '\n'
    ensures r.Some? ==> forall i :: from <= i < r.value ==> s[i] != '\n'
    ensures r.None? ==> forall i :: from <= i < |s| ==> s[i] != '\n'
    decreases |s| - from
  {
    if from >= |s| then None
    else if s[from] == '\n' then Some(from)
    else FirstNewline(s, from + 1)
  }

  /** Where the search of `currentLineFirstCharPos` ends: strictly before `offset`, and inside the text. */
  function SearchEnd(s: string, offset: nat): nat {
    if offset <= |s| then offset else |s|
  }

  /**
   * `currentLineFirstCharPos` corrected: the first position of the line
   * holding the character at `offset` (a newline belongs to the line it
   * ends), which is one past the last newline before `offset`, or 0.
   */
  function CurrentLineStart(s: string, offset: nat): (p: nat)
    ensures p <= offset && p <= |s|
    ensures p > 0 ==> s[p - 1] == '\n'
    ensures forall i :: p <= i < SearchEnd(s, offset) ==> s[i] != '\n'
  {
    var prefix := Substr(s, 0, offset);
    assert prefix == s[..SearchEnd(s, offset)];
    match LastNewline(prefix)
    case Some(pos) => pos + 1
    case None => 0
  }

  /**
   * `currentLineFirstCharPos` as written: when the character at `offset` is
   * a newline it first steps back one, so the search also leaves out the
   * character before it; on an empty line that is the newline ending the
   * line above, and the start of the line above is returned.
   */
  function CurrentLineStartAsWritten(s: string, offset: nat): nat {
    if offset == 0 then 0
    else
      var end := if Substr(s, offset, 1) == "\n" then offset - 1 else offset;
      match LastNewline(Substr(s, 0, end))
      case Some(pos) => pos + 1
      case None => 0
  }

  /** Away from empty lines the two agree. */
  lemma CurrentLineStartAgrees(s: string, offset: nat)
    requires offset == 0 || offset >= |s| || s[offset] != '\n' || s[offset - 1] != '\n'
    ensures CurrentLineStartAsWritten(s, offset) == CurrentLineStart(s, offset)
  {
    if offset > 0 && Substr(s, offset, 1) == "\n" {
      assert offset < |s| && s[offset..offset + 1] == "\n";
      assert s[offset] == '\n';
      var p := CurrentLineStart(s, offset);
      assert Substr(s, 0, offset) == Substr(s, 0, offset - 1) + [s[offset - 1]];
    }
  }

  /** On the empty second line of "a\n\n" the code as written answers 0, the start of the first line. */
  lemma CurrentLineStartEmptyLine()
    ensures CurrentLineStartAsWritten("a\n\n", 2) == 0
    ensures CurrentLineStart("a\n\n", 2) == 2
  {
    assert Substr("a\n\n", 2, 1) == "a\n\n"[2..3] == "\n";
    assert Substr("a\n\n", 0, 1) == "a";
    assert LastNewline("a") == None by {
      assert "a"[..0] == "";
    }
    assert Substr("a\n\n", 0, 2) == "a\n";
  }

  /**
   * `nextLineFirstCharPos`: the position after the first newline at or
   * after `offset`, or none (PHP false) when there is no newline or it is
   * the last character; none too for an offset past the end, where the
   * search answers false.
   */
  function NextLineStart(s: string, offset: nat): (r: Option<nat>)
    ensures r.Some? ==> offset < r.value < |s| && s[r.value - 1] == '\n'
    ensures r.Some? ==> forall i :: offset <= i < r.value - 1 ==> s[i] != '\n'
    ensures r.None? ==> forall i :: offset <= i < |s| - 1 ==> s[i] != '\n'
  {
    match FirstNewline(s, offset)
    case Some(pos) => if pos + 1 < |s| then Some(pos + 1) else None
    case None => None
  }

  /**
   * `prevLineFirstCharPos`: the start of the line before the current one.
   * On the first line the code returns the undefined `$false`, which is
   * null; here that is none. No `false` can come back otherwise, since
   * `currentLineFirstCharPos` turns a failed `strrpos` into 0, so none
   * stands for that null alone.
   */
  function PrevLineStart(s: string, offset: nat): (r: Option<nat>)
    ensures r.None? <==> CurrentLineStart(s, offset) == 0
    ensures r.Some? ==> r.value < CurrentLineStart(s, offset)
    ensures r.Some? ==> r.value == 0 || s[r.value - 1] == '\n'
    ensures r.Some? ==> forall i :: r.value <= i < CurrentLineStart(s, offset) - 1 ==> s[i] != '\n'
  {
    var current := CurrentLineStart(s, offset);
    if current == 0 then None else Some(CurrentLineStart(s, current - 1))
  }

  /** `lineNumber($s, $offset)`: one more than the newlines before `offset`. */
  function LineNumber(s: string, offset: nat): (n: nat)
    ensures n >= 1
  {
    CountChar(Substr(s, 0, offset), '\n') + 1
  }

  /** Each newline passed starts the next line, and nothing else changes the line number. */
  lemma LineNumberStep(s: string, p: nat)
    requires p < |s|
    ensures LineNumber(s, p + 1) == LineNumber(s, p) + (if s[p] == '\n' then 1 else 0)
  {
    assert Substr(s, 0, p + 1) == Substr(s, 0, p) + [s[p]];
    CountCharAppend(Substr(s, 0, p), [s[p]], '\n');
  }

  /** The start of the current line is on the same line as the offset. */
  lemma LineStartSameLine(s: string, offset: nat)
    ensures LineNumber(s, CurrentLineStart(s, offset)) == LineNumber(s, offset)
  {
    var p := CurrentLineStart(s, offset);
    var e := SearchEnd(s, offset);
    assert Substr(s, 0, offset) == s[..e] == s[..p] + s[p..e];
    assert Substr(s, 0, p) == s[..p];
    CountCharAppend(s[..p], s[p..e], '\n');
    CountCharAbsent(s[p..e], '\n');
  }

  // ----- Marking lines -----

  /** The scan of `preg_replace('/(^|\n)(?=.)/', '$1' . $opChar, $s)`, with `lineStart` set at a line start. */
  function MarkLines(s: string, op: char, lineStart: bool): string
    decreases |s|
  {
    if s == "" then ""
    else (if lineStart && s[0] != '\n' then [op] else []) + [s[0]] + MarkLines(s[1..], op, s[0] == '\n')
  }

  /** `insertOpChars($s, $opChar)`. */
  function InsertOpChars(s: string, op: char): string {
    MarkLines(s, op, true)
  }

  /** One line of a run as it is marked: empty lines stay empty, the others gain the op character. */
  function MarkedLine(line: string, op: char): string {
    if line == "" then "" else [op] + line
  }

  lemma {:induction false} MarkLineBody(line: string, op: char, rest: string)
    requires '\n' !in line
    ensures MarkLines(line + rest, op, false) == line + MarkLines(rest, op, false)
    decreases |line|
  {
    if line == "" {
      assert line + rest == rest;
    } else {
      assert (line + rest)[0] == line[0] && (line + rest)[1..] == line[1..] + rest;
      MarkLineBody(line[1..], op, rest);
      assert [line[0]] + line[1..] == line;
    }
  }

  lemma MarkLineHead(line: string, op: char, rest: string, lineStart: bool)
    requires '\n' !in line
    ensures MarkLines(line + rest, op, lineStart) ==
      (if lineStart then MarkedLine(line, op) else line) + MarkLines(rest, op, lineStart && line == "")
  {
    if line != "" {
      assert (line + rest)[0] == line[0] && (line + rest)[1..] == line[1..] + rest;
      MarkLineBody(line[1..], op, rest);
      assert [line[0]] + line[1..] == line;
    } else {
      assert line + rest == rest;
    }
  }

  /** A line followed by more text: the line is marked and the text after its newline starts afresh. */
  lemma InsertOpCharsLine(line: string, op: char, rest: string)
    requires '\n' !in line
    ensures InsertOpChars(line + "\n" + rest, op) == MarkedLine(line, op) + "\n" + InsertOpChars(rest, op)
  {
    assert line + "\n" + rest == line + ("\n" + rest);
    MarkLineHead(line, op, "\n" + rest, true);
    var t := "\n" + rest;
    assert t[0] == '\n' && t[1..] == rest;
  }

  /** The last line of the text. */
  lemma InsertOpCharsLastLine(line: string, op: char)
    requires '\n' !in line
    ensures InsertOpChars(line, op) == MarkedLine(line, op)
  {
    MarkLineHead(line, op, "", true);
    assert line + "" == line;
  }

  // ----- Hunks -----

  /** A range of a hunk header: the bare start line for a length of one, else `start,len`. */
  function Range(start: int, len: nat): string {
    if len == 1 then IntToString(start) else IntToString(start) + "," + NatToString(len)
  }

  /** The header the unified format asks for. */
  function HunkHeader(from: int, fromLen: nat, to: int, toLen: nat): string {
    "@@ -" + Range(from, fromLen) + " +" + Range(to, toLen) + " @@"
  }

  /** The header as written: each range already carries a `-`, and the template adds its own sign. */
  function HunkHeaderAsWritten(from: int, fromLen: nat, to: int, toLen: nat): string {
    "@@ -" + "-" + Range(from, fromLen) + " +" + "-" + Range(to, toLen) + " @@"
  }

  /** As written a header always reads `@@ --`, so the from-range looks negative; the corrected one starts with the line number. */
  lemma HunkHeaderDoubledSigns(from: nat, fromLen: nat, to: int, toLen: nat)
    ensures HunkHeaderAsWritten(from, fromLen, to, toLen)[..5] == "@@ --"
    ensures HunkHeader(from, fromLen, to, toLen)[4] == Range(from, fromLen)[0] != '-'
  {
    assert Range(from, fromLen)[0] == IntToString(from)[0];
  }

  /** The smallest hunk, one line on each side. */
  lemma HunkHeaderOneLine()
    ensures HunkHeaderAsWritten(1, 1, 1, 1) == "@@ --1 +-1 @@"
    ensures HunkHeader(1, 1, 1, 1) == "@@ -1 +1 @@"
  {
    assert IntToString(1) == "1";
    assert Range(1, 1) == "1";
  }

  /** The three line counts of a hunk body, taken from its `"\n "`, `"\n-"` and `"\n+"` pairs. */
  datatype LineCounts = LineCounts(copies: nat, deletes: nat, inserts: nat)

  function CountLines(body: string): LineCounts {
    var text := "\n" + body;
    LineCounts(CountPair(text, '\n', ' '), CountPair(text, '\n', '-'), CountPair(text, '\n', '+'))
  }

  /** The body of a hunk made of `lines`, each behind its newline. */
  function HunkLines(lines: seq<string>): string {
    if lines == [] then "" else "\n" + lines[0] + HunkLines(lines[1..])
  }

  /** A line of a hunk: an op character, then the text of the line. */
  predicate HunkLine(line: string) {
    line != "" && line[0] in {' ', '-', '+'} && '\n' !in line
  }

  /** The lines of `lines` that start with `c`. */
  function LinesStartingWith(lines: seq<string>, c: char): nat {
    if lines == [] then 0 else (if lines[0] != "" && lines[0][0] == c then 1 else 0) + LinesStartingWith(lines[1..], c)
  }

  lemma {:induction false} CountPairNoNewline(x: string, c: char, rest: string)
    requires '\n' !in x && (rest == "" || rest[0] == '\n')
    ensures CountPair(x + rest, '\n', c) == CountPair(rest, '\n', c)
    decreases |x|
  {
    if x != "" {
      var t := x + rest;
      assert t[0] == x[0] != '\n';
      if |t| >= 2 {
        assert t[1..] == x[1..] + rest;
      } else {
        assert x[1..] + rest == "" && rest == "";
        assert CountPair(t, '\n', c) == 0;
      }
      CountPairNoNewline(x[1..], c, rest);
    } else {
      assert x + rest == rest;
    }
  }

  /** Each of the counts is the number of lines of that kind. */
  lemma {:induction false} CountLinesOfHunk(lines: seq<string>, c: char)
    requires forall i :: 0 <= i < |lines| ==> HunkLine(lines[i])
    ensures CountPair(HunkLines(lines), '\n', c) == LinesStartingWith(lines, c)
    decreases |lines|
  {
    if lines != [] {
      var line := lines[0];
      var rest := HunkLines(lines[1..]);
      CountLinesOfHunk(lines[1..], c);
      var t := HunkLines(lines);
      assert t == "\n" + line + rest;
      assert rest == "" || rest[0] == '\n';
      assert t[0] == '\n' && t[1] == line[0];
      CountPairNoNewline(line[1..], c, rest);
      if line[0] == c {
        assert t[2..] == line[1..] + rest;
      } else {
        assert t[1..] == line + rest;
        assert (line + rest)[1..] == line[1..] + rest;
        assert (line + rest)[0] != '\n';
        if |line + rest| < 2 {
          assert line[1..] + rest == "";
        }
      }
    }
  }

  /** The counts `addHunk` takes from a body of context, delete and insert lines. */
  lemma HunkCounts(hunkOps: string, lines: seq<string>)
    requires "\n" + hunkOps == HunkLines(lines)
    requires forall i :: 0 <= i < |lines| ==> HunkLine(lines[i])
    ensures CountLines(hunkOps) ==
      LineCounts(LinesStartingWith(lines, ' '), LinesStartingWith(lines, '-'), LinesStartingWith(lines, '+'))
  {
    CountLinesOfHunk(lines, ' ');
    CountLinesOfHunk(lines, '-');
    CountLinesOfHunk(lines, '+');
  }

  /** The hunks a unified renderer has collected. */
  class Unified {
    var hunks: seq<string>

    constructor ()
      ensures hunks == []
    {
      hunks := [];
    }

    /**
     * `addHunk($hunkOps, $fromLineNumber, $toLineOffset)` with the header
     * corrected: append the hunk and return the line offset of the newer
     * text after it.
     */
    method AddHunk(hunkOps: string, fromLineNumber: int, toLineOffset: int) returns (nextOffset: int)
      modifies this
      ensures hunks == old(hunks) + [HunkHeader(fromLineNumber, CountLines(hunkOps).copies + CountLines(hunkOps).deletes,
                                                fromLineNumber + toLineOffset, CountLines(hunkOps).copies + CountLines(hunkOps).inserts)
                                     + "\n" + hunkOps]
      ensures nextOffset == toLineOffset + CountLines(hunkOps).inserts - CountLines(hunkOps).deletes
    {
      var body := "\n" + hunkOps;
      var from := fromLineNumber;
      var to := from + toLineOffset;
      var copyCount := CountPair(body, '\n', ' ');
      var deleteCount := CountPair(body, '\n', '-');
      var insertCount := CountPair(body, '\n', '+');
      var fromLen := copyCount + deleteCount;
      var toLen := copyCount + insertCount;
      var header := HunkHeader(from, fromLen, to, toLen);
      assert header + body == header + "\n" + hunkOps;
      hunks := hunks + [header + body];
      nextOffset := toLineOffset + toLen - fromLen;
    }

    /** `getHunks()`: the hunks, one after the other on their own lines. */
    function GetHunks(): (r: string)
      reads this
      ensures hunks == [] ==> r == ""
      ensures |hunks| == 1 ==> r == hunks[0]
    {
      Join("\n", hunks)
    }
  }
}
