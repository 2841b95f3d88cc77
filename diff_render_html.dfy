/**
 * Brvr_Diff_Render_Html (Diff/Render/Html.php): the replay of the Text
 * renderer, with every text run escaped for HTML and the changed runs
 * wrapped in `<del>` and `<ins>` elements. Going forwards a deleted run is
 * read from the source; going backwards an inserted run is.
 */
module DiffRenderHtml {
  import opened Wrappers
  import opened Php
  import opened DiffOp
  import opened DiffOps
  import opened DiffRender
  import opened DiffRenderText
  import opened DiffEngine

  /** `htmlentities` on one character, for the five characters HTML gives a meaning to. */
  function EscapeChar(c: char): string {
    if c == '&' then "&amp;"
    else if c == '<' then "&lt;"
    else if c == '>' then "&gt;"
    else if c == '"' then "&quot;"
    else if c == '\'' then "&#039;"
    else [c]
  }

  /** `htmlentities($s)`: the escaped text holds no angle bracket, so no markup. */
  function Escape(s: string): (e: string)
    ensures '<' !in e && '>' !in e
    ensures |e| >= |s|
    decreases |s|
  {
    if s == "" then "" else EscapeChar(s[0]) + Escape(s[1..])
  }

  const DelOpen := "<del>"
  const DelClose := "</del>"
  const InsOpen := "<ins>"
  const InsClose := "</ins>"

  /** `deleteTags($s)`. */
  function DeleteTags(s: string): string {
    DelOpen + Escape(s) + DelClose
  }

  /** `insertTags($s)`. */
  function InsertTags(s: string): string {
    InsOpen + Escape(s) + InsClose
  }

  /** What `applyOps($forward)` renders, with the source read from `offset` on. */
  function HtmlReplay(source: string, ops: seq<Op>, forward: bool, offset: nat): string
    decreases |ops|
  {
    if ops == [] then ""
    else
      match ops[0]
      case Copy(n) => Escape(Substr(source, offset, n)) + HtmlReplay(source, ops[1..], forward, offset + n)
      case Delete(t) =>
        if forward then DeleteTags(Substr(source, offset, |t|)) + HtmlReplay(source, ops[1..], forward, offset + |t|)
        else DeleteTags(t) + HtmlReplay(source, ops[1..], forward, offset)
      case Insert(t) =>
        if forward then InsertTags(t) + HtmlReplay(source, ops[1..], forward, offset)
        else InsertTags(Substr(source, offset, |t|)) + HtmlReplay(source, ops[1..], forward, offset + |t|)
  }

  lemma HtmlReplayUnfold(source: string, ops: seq<Op>, forward: bool, offset: nat)
    ensures ops == [] ==> HtmlReplay(source, ops, forward, offset) == ""
    ensures ops != [] && ops[0].Copy? ==>
      HtmlReplay(source, ops, forward, offset) ==
        Escape(Substr(source, offset, ops[0].len)) + HtmlReplay(source, ops[1..], forward, offset + ops[0].len)
    ensures ops != [] && ops[0].Delete? && forward ==>
      HtmlReplay(source, ops, forward, offset) ==
        DeleteTags(Substr(source, offset, |ops[0].text|)) + HtmlReplay(source, ops[1..], forward, offset + |ops[0].text|)
    ensures ops != [] && ops[0].Delete? && !forward ==>
      HtmlReplay(source, ops, forward, offset) == DeleteTags(ops[0].text) + HtmlReplay(source, ops[1..], forward, offset)
    ensures ops != [] && ops[0].Insert? && forward ==>
      HtmlReplay(source, ops, forward, offset) == InsertTags(ops[0].text) + HtmlReplay(source, ops[1..], forward, offset)
    ensures ops != [] && ops[0].Insert? && !forward ==>
      HtmlReplay(source, ops, forward, offset) ==
        InsertTags(Substr(source, offset, |ops[0].text|)) + HtmlReplay(source, ops[1..], forward, offset + |ops[0].text|)
  {
  }

  /** The `foreach` of `applyOps`, accumulating `$rendered` and advancing `$sourceOffset`. */
  method ApplyOps(r: Renderer, forward: bool) returns (rendered: string)
    ensures rendered == HtmlReplay(r.source, r.ops.ops, forward, 0)
  {
    hide *;
    var source := r.GetSource();
    var ops := r.ops.ops;
    rendered := "";
    var offset: nat := 0;
    for k := 0 to |ops|
      invariant rendered + HtmlReplay(source, ops[k..], forward, offset) == HtmlReplay(source, ops, forward, 0)
    {
      assert ops[k..][0] == ops[k] && ops[k..][1..] == ops[k + 1..];
      HtmlReplayUnfold(source, ops[k..], forward, offset);
      ghost var before, start := rendered, offset;
      var piece;
      match ops[k] {
        case Copy(n) =>
          piece := Escape(Substr(source, offset, n));
          offset := offset + n;
        case Delete(t) =>
          if forward {
            piece := DeleteTags(Substr(source, offset, |t|));
            offset := offset + |t|;
          } else {
            piece := DeleteTags(t);
          }
        case Insert(t) =>
          if forward {
            piece := InsertTags(t);
          } else {
            piece := InsertTags(Substr(source, offset, |t|));
            offset := offset + |t|;
          }
      }
      assert HtmlReplay(source, ops[k..], forward, start) == piece + HtmlReplay(source, ops[k + 1..], forward, offset);
      rendered := rendered + piece;
      assert before + (piece + HtmlReplay(source, ops[k + 1..], forward, offset)) ==
        rendered + HtmlReplay(source, ops[k + 1..], forward, offset);
    }
    HtmlReplayUnfold(source, ops[|ops|..], forward, offset);
  }

  /** `render()`: replay in the stored direction. */
  method Render(r: Renderer) returns (rendered: string)
    ensures rendered == HtmlReplay(r.source, r.ops.ops, r.direction, 0)
  {
    rendered := ApplyOps(r, r.direction);
  }

  /** `renderForward($source, $opcodes)`. */
  method RenderForward(source: string, opcodes: string) returns (r: Result<string>)
    ensures r.Success? <==> Parse(opcodes).Some?
    ensures r.Success? ==> r.value == HtmlReplay(source, Parse(opcodes).value, true, 0)
  {
    var renderer := NewRenderer(source, opcodes, BoolArg(true));
    if renderer.Failure? {
      return Failure(renderer.error);
    }
    var rendered := Render(renderer.value);
    r := Success(rendered);
  }

  /** `renderBackward($source, $opcodes)`. */
  method RenderBackward(source: string, opcodes: string) returns (r: Result<string>)
    ensures r.Success? <==> Parse(opcodes).Some?
    ensures r.Success? ==> r.value == HtmlReplay(source, Parse(opcodes).value, false, 0)
  {
    var renderer := NewRenderer(source, opcodes, BoolArg(false));
    if renderer.Failure? {
      return Failure(renderer.error);
    }
    var rendered := Render(renderer.value);
    r := Success(rendered);
  }

  // ----- Reading the markup back -----

  predicate StartsWith(h: string, p: string) {
    |p| <= |h| && h[..|p|] == p
  }

  /** What follows the first `close` in `t`, or nothing when there is none. */
  function AfterClose(t: string, close: string): (r: string)
    ensures |r| <= |t|
    decreases |t|
  {
    if close != "" && StartsWith(t, close) then t[|close|..]
    else if t == "" then ""
    else AfterClose(t[1..], close)
  }

  /**
   * How a reader takes in the markup at the head of `h`: what it sees and
   * what is left. Forwards a `<del>` block is dropped whole and the `<ins>`
   * tags are passed over, backwards the other way round; the five entities
   * read as their characters, and anything else as itself.
   */
  function Lead(h: string, forward: bool): (r: (string, string))
    requires h != ""
    ensures |r.1| < |h|
  {
    var dropOpen := if forward then DelOpen else InsOpen;
    var dropClose := if forward then DelClose else InsClose;
    var keepOpen := if forward then InsOpen else DelOpen;
    var keepClose := if forward then InsClose else DelClose;
    if h[0] == '<' then
      if StartsWith(h, dropOpen) then ("", AfterClose(h[5..], dropClose))
      else if StartsWith(h, keepOpen) then ("", h[5..])
      else if StartsWith(h, keepClose) then ("", h[6..])
      else ("<", h[1..])
    else if h[0] == '&' then
      if StartsWith(h, "&amp;") then ("&", h[5..])
      else if StartsWith(h, "&lt;") then ("<", h[4..])
      else if StartsWith(h, "&gt;") then (">", h[4..])
      else if StartsWith(h, "&quot;") then ("\"", h[6..])
      else if StartsWith(h, "&#039;") then ("'", h[6..])
      else ("&", h[1..])
    else ([h[0]], h[1..])
  }

  /** What a reader sees of the whole of `h`. */
  function Unmark(h: string, forward: bool): string
    decreases |h|
  {
    if h == "" then "" else Lead(h, forward).0 + Unmark(Lead(h, forward).1, forward)
  }

  lemma UnmarkUnfold(h: string, forward: bool)
    ensures h == "" ==> Unmark(h, forward) == ""
    ensures h != "" ==> Unmark(h, forward) == Lead(h, forward).0 + Unmark(Lead(h, forward).1, forward)
  {
  }

  lemma LeadEscapeChar(c: char, rest: string, forward: bool)
    ensures Lead(EscapeChar(c) + rest, forward) == ([c], rest)
  {
    var e := EscapeChar(c);
    var h := e + rest;
    assert h[0] == e[0];
    assert h[|e|..] == rest;
    if c == '&' {
      assert h[..5] == e;
    } else if c == '<' {
      assert h[1] == 'l';
      assert h[..4] == e;
    } else if c == '>' {
      assert h[1] == 'g';
      assert h[..4] == e;
    } else if c == '"' {
      assert h[1] == 'q';
      assert h[..6] == e;
    } else if c == '\'' {
      assert h[1] == '#';
      assert h[..6] == e;
    }
  }

  lemma UnmarkEscapeChar(c: char, rest: string, forward: bool)
    ensures Unmark(EscapeChar(c) + rest, forward) == [c] + Unmark(rest, forward)
  {
    LeadEscapeChar(c, rest, forward);
    UnmarkUnfold(EscapeChar(c) + rest, forward);
  }

  lemma EscapeUnfold(s: string)
    ensures s == "" ==> Escape(s) == ""
    ensures s != "" ==> Escape(s) == EscapeChar(s[0]) + Escape(s[1..])
  {
  }

  /** Escaped text reads back as itself. */
  lemma {:induction false} UnmarkEscape(s: string, rest: string, forward: bool)
    ensures Unmark(Escape(s) + rest, forward) == s + Unmark(rest, forward)
    decreases |s|
  {
    EscapeUnfold(s);
    hide *;
    if s != "" {
      assert Escape(s) + rest == EscapeChar(s[0]) + (Escape(s[1..]) + rest);
      calc {
        Unmark(Escape(s) + rest, forward);
        Unmark(EscapeChar(s[0]) + (Escape(s[1..]) + rest), forward);
        { UnmarkEscapeChar(s[0], Escape(s[1..]) + rest, forward); }
        [s[0]] + Unmark(Escape(s[1..]) + rest, forward);
        { UnmarkEscape(s[1..], rest, forward); }
        [s[0]] + (s[1..] + Unmark(rest, forward));
        { assert [s[0]] + s[1..] == s; }
        s + Unmark(rest, forward);
      }
    } else {
      assert Escape(s) + rest == rest;
    }
  }

  /** A closing tag is found right after text that holds no `<`. */
  lemma {:induction false} AfterCloseSkips(e: string, close: string, rest: string)
    requires '<' !in e && close != "" && close[0] == '<'
    ensures AfterClose(e + close + rest, close) == rest
    decreases |e|
  {
    var t := e + close + rest;
    if e == "" {
      assert t == close + rest && t[..|close|] == close && t[|close|..] == rest;
    } else {
      assert t[0] == e[0] != close[0];
      assert t[1..] == e[1..] + close + rest;
      AfterCloseSkips(e[1..], close, rest);
    }
  }

  /** The opening tag of the dropped kind starts a block that is skipped up to its closing tag. */
  lemma LeadDropOpen(e: string, forward: bool)
    ensures Lead((if forward then DelOpen else InsOpen) + e, forward) ==
      ("", AfterClose(e, if forward then DelClose else InsClose))
  {
    var h := (if forward then DelOpen else InsOpen) + e;
    assert h[0] == '<' && h[..5] == (if forward then DelOpen else InsOpen) && h[5..] == e;
  }

  /** The opening tag of the kept kind is passed over. */
  lemma LeadKeepOpen(e: string, forward: bool)
    ensures Lead((if forward then InsOpen else DelOpen) + e, forward) == ("", e)
  {
    var h := (if forward then InsOpen else DelOpen) + e;
    assert h[0] == '<' && h[1] == (if forward then 'i' else 'd');
    assert h[..5] == (if forward then InsOpen else DelOpen) && h[5..] == e;
  }

  /** The closing tag of the kept kind is passed over. */
  lemma LeadKeepClose(e: string, forward: bool)
    ensures Lead((if forward then InsClose else DelClose) + e, forward) == ("", e)
  {
    var h := (if forward then InsClose else DelClose) + e;
    assert h[0] == '<' && h[1] == '/';
    assert h[..6] == (if forward then InsClose else DelClose) && h[6..] == e;
  }

  /** An opening tag of the dropped kind skips everything up to its closing tag. */
  lemma UnmarkDropOpen(e: string, forward: bool)
    ensures Unmark((if forward then DelOpen else InsOpen) + e, forward) ==
      Unmark(AfterClose(e, if forward then DelClose else InsClose), forward)
  {
    hide *;
    LeadDropOpen(e, forward);
    UnmarkUnfold((if forward then DelOpen else InsOpen) + e, forward);
  }

  /** A block of the dropped kind disappears. */
  lemma UnmarkDrop(s: string, rest: string, forward: bool)
    ensures Unmark((if forward then DelOpen else InsOpen) + Escape(s) + (if forward then DelClose else InsClose) + rest, forward)
      == Unmark(rest, forward)
  {
    var dropOpen := if forward then DelOpen else InsOpen;
    var dropClose := if forward then DelClose else InsClose;
    assert dropClose != "" && dropClose[0] == '<';
    var escaped := Escape(s);
    hide *;
    var e := escaped + dropClose + rest;
    AfterCloseSkips(escaped, dropClose, rest);
    UnmarkDropOpen(e, forward);
    AppendFour(dropOpen, escaped, dropClose, rest);
  }

  lemma AppendFour(a: string, b: string, c: string, d: string)
    ensures a + b + c + d == a + (b + c + d)
  {
  }

  /** A block of the kept kind shows its text. */
  lemma UnmarkKeep(s: string, rest: string, forward: bool)
    ensures Unmark((if forward then InsOpen else DelOpen) + Escape(s) + (if forward then InsClose else DelClose) + rest, forward)
      == s + Unmark(rest, forward)
  {
    hide *;
    var keepOpen := if forward then InsOpen else DelOpen;
    var keepClose := if forward then InsClose else DelClose;
    var c := keepClose + rest;
    var e := Escape(s) + c;
    LeadKeepOpen(e, forward);
    LeadKeepClose(rest, forward);
    UnmarkUnfold(keepOpen + e, forward);
    UnmarkUnfold(c, forward);
    UnmarkEscape(s, c, forward);
    assert keepOpen + Escape(s) + keepClose + rest == keepOpen + e;
  }

  /** A `<del>` block disappears forwards and reads as its text backwards. */
  lemma UnmarkDeleteTags(s: string, rest: string, forward: bool)
    ensures Unmark(DeleteTags(s) + rest, forward) == (if forward then "" else s) + Unmark(rest, forward)
  {
    if forward {
      UnmarkDrop(s, rest, forward);
    } else {
      UnmarkKeep(s, rest, forward);
    }
  }

  /** An `<ins>` block reads as its text forwards and disappears backwards. */
  lemma UnmarkInsertTags(s: string, rest: string, forward: bool)
    ensures Unmark(InsertTags(s) + rest, forward) == (if forward then s else "") + Unmark(rest, forward)
  {
    if forward {
      UnmarkKeep(s, rest, forward);
    } else {
      UnmarkDrop(s, rest, forward);
    }
  }

  /** Each tag holds exactly one `<`. */
  lemma {:induction false} TagCount(tag: string)
    requires tag != "" && tag[0] == '<' && '<' !in tag[1..]
    ensures CountChar(tag, '<') == 1
  {
    CountCharAbsent(tag[1..], '<');
  }

  /** A `<del>` or `<ins>` block holds exactly two. */
  lemma TagsCount(s: string)
    ensures CountChar(DeleteTags(s), '<') == 2 && CountChar(InsertTags(s), '<') == 2
  {
    assert DelOpen[1..] == "del>" && DelClose[1..] == "/del>";
    assert InsOpen[1..] == "ins>" && InsClose[1..] == "/ins>";
    TagCount(DelOpen);
    TagCount(DelClose);
    TagCount(InsOpen);
    TagCount(InsClose);
    CountCharAbsent(Escape(s), '<');
    CountCharAppend(DelOpen, Escape(s), '<');
    CountCharAppend(DelOpen + Escape(s), DelClose, '<');
    CountCharAppend(InsOpen, Escape(s), '<');
    CountCharAppend(InsOpen + Escape(s), InsClose, '<');
  }


  /**
   * Forwards, a reader who drops the `<del>` blocks, removes the `<ins>`
   * tags and reads the entities sees what the Text renderer renders; the
   * same holds backwards with the two elements swapped.
   */
  lemma {:induction false} UnmarkReplay(source: string, ops: seq<Op>, forward: bool, offset: nat)
    ensures Unmark(HtmlReplay(source, ops, forward, offset), forward) == Replay(source, ops, forward, offset)
    decreases |ops|
  {
    hide *;
    HtmlReplayUnfold(source, ops, forward, offset);
    ReplayUnfold(source, ops, forward, offset);
    UnmarkUnfold("", forward);
    if ops != [] {
      var op := ops[0];
      var next := if op.Copy? then offset + op.len
        else if op.Delete? && forward then offset + |op.text|
        else if op.Insert? && !forward then offset + |op.text|
        else offset;
      var tail := HtmlReplay(source, ops[1..], forward, next);
      UnmarkReplay(source, ops[1..], forward, next);
      match op
      case Copy(n) =>
        UnmarkEscape(Substr(source, offset, n), tail, forward);
      case Delete(t) =>
        UnmarkDeleteTags(if forward then Substr(source, offset, |t|) else t, tail, forward);
      case Insert(t) =>
        UnmarkInsertTags(if forward then t else Substr(source, offset, |t|), tail, forward);
    }
  }

  /** The number of Delete and Insert ops. */
  function Changes(ops: seq<Op>): (n: nat)
    ensures n <= |ops|
  {
    if ops == [] then 0 else (if ops[0].Copy? then 0 else 1) + Changes(ops[1..])
  }

  /** Every change gets exactly one element of two tags, and Copy runs none. */
  lemma {:induction false} TagsPerChange(source: string, ops: seq<Op>, forward: bool, offset: nat)
    ensures CountChar(HtmlReplay(source, ops, forward, offset), '<') == 2 * Changes(ops)
    decreases |ops|
  {
    HtmlReplayUnfold(source, ops, forward, offset);
    if ops != [] {
      var op := ops[0];
      var next := if op.Copy? then offset + op.len
        else if op.Delete? && forward then offset + |op.text|
        else if op.Insert? && !forward then offset + |op.text|
        else offset;
      var tail := HtmlReplay(source, ops[1..], forward, next);
      TagsPerChange(source, ops[1..], forward, next);
      var piece :=
        if op.Copy? then Escape(Substr(source, offset, op.len))
        else if op.Delete? then DeleteTags(if forward then Substr(source, offset, |op.text|) else op.text)
        else InsertTags(if forward then op.text else Substr(source, offset, |op.text|));
      assert HtmlReplay(source, ops, forward, offset) == piece + tail;
      CountCharAppend(piece, tail, '<');
      if op.Copy? {
        CountCharAbsent(piece, '<');
      } else {
        var x := if op.Delete? == forward then Substr(source, offset, |op.text|) else op.text;
        TagsCount(x);
      }
    }
  }

  /** Diffing and rendering as HTML: forwards a reader of the markup sees the newer text, backwards the older. */
  lemma DiffThenUnmark(from: string, to: string, stack: seq<string>)
    requires stack != []
    ensures Unmark(HtmlReplay(from, Process(from, to, stack), true, 0), true) == to
    ensures Unmark(HtmlReplay(to, Process(from, to, stack), false, 0), false) == from
  {
    DiffThenRender(from, to, stack);
    UnmarkReplay(from, Process(from, to, stack), true, 0);
    UnmarkReplay(to, Process(from, to, stack), false, 0);
  }
}
