# Brvr core, modelled in Dafny

This project models the core of Brvr, a PHP library, and proves properties of the model. It covers three parts.

**The fine-grained string diff engine.**
- `Brvr_Diff` computes an edit script between two strings. It works down a granularity stack of delimiter sets: at each level it cuts both strings into fragments, aligns the fragment lists on a longest common run, and re-diffs each unmatched span one level finer. At the last level an unmatched span becomes a Delete and an Insert. Adjacent Copy ops are fused.
- The ops (Copy, Delete, Insert and the composite Replace) serialise to a length-prefixed opcode string (`c`, `c{n}`, `d:{c}`, `d{n}:{s}`, `i:{c}`, `i{n}:{s}`). `Brvr_Diff_Ops` parses that string back.
- The Text and Html renderers replay ops over a source string, forwards (old to new) or backwards (new to old).
- The Unified renderer contributes line-position and hunk-header helpers for the unified format of section 2.2.2 of the GNU diffutils manual.

**The MySQL statement builders.**
- `Brvr_Db_Query` and its Select, Insert, Update and Delete subclasses collect clause parts and print them as SQL text.
- The bind-style machine keeps positional and named parameters from being mixed.
- Select reserves table and column aliases, each at most once.
- Insert and Update give each column a unique named placeholder.
- `Brvr_Db_Query_WhereCondition` is a tree of conditions that refuses cycles and prints itself.
- The `Brvr_Db` constructor normalises a configuration into a DSN, a username, a password and the driver parameters.

**Small keyed stores and parsers.**
- `Brvr_Cache_Object` is a map with expiry times that falls back to a deeper cache.
- `Brvr_OpenId_ConsumerComponent::responseToArray` reads Key-Value Form Encoding (section 4.1.1 of OpenID Authentication 2.0).
- `Brvr_OpenId_Consumer_Discovery` orders services by priority and walks them with a position iterator.

How the model is laid out:
- Code that only computes is modelled by datatypes, functions and lemmas.
- Code that loops or updates objects is modelled by methods and classes. Each such method is proved against a specification function, and the properties are proved about that function.
- PHP semantics the code relies on are modelled in shared modules:
  - `Php`: `explode`, `trim`, `strpos`, `substr`.
  - `Decimal`: `intval`, decimal printing.
  - `PhpValue`: loosely typed values, arrays as ordered key/value lists, `empty()`, string casts, and PHP 8's numeric strings (white space, a sign, digits with an optional fraction and exponent) behind `is_numeric` and `(integer)`.
- The current time, `shuffle`, `mt_rand` and the deeper cache's answers are parameters or nondeterministic choices.
- Strings hold one `char` per PHP byte.

## Model

| member | source | states |
|---|---|---|
| DiffOp.Opcode | Diff/Op/Copy.php:76-82 | an opcode is never empty and starts with the letter `c`, `d` or `i` of its kind |
| DiffOp.Opcodes | Diff.php:210-217 | the joined opcodes are empty exactly when there are no ops, and otherwise start with an opcode letter |
| DiffOp.EditsLengths | Diff/Op/Interface.php:29-41 | the from-lengths of an edit script add up to the length of the older text and the to-lengths to the newer text |
| DiffOp.EditsAppend | Diff.php:300-320 | two edit scripts one after the other edit the concatenation of their older texts into that of their newer texts |
| DiffOp.CopyEdits | Diff/Op/Copy.php:56-69 | a Copy of a text's whole length edits the text into itself |
| DiffOp.EditsFuseCopies | Diff.php:309-315 | fusing the Copy that ends one script with the Copy that starts the next keeps an edit script of the joined texts |
| DiffOp.OpcodeEndsWithText | Diff/Op/Delete.php:74-81 | a Delete or Insert opcode ends with a `:` and then its text verbatim |
| DiffOp.CopyOp.constructor | Diff/Op/Copy.php:46-49 | a new Copy spans the given length |
| DiffOp.CopyOp.GetFromLen | Diff/Op/Copy.php:56-59 | a Copy spans the same length in the older text as in the newer text |
| DiffOp.CopyOp.GetToLen | Diff/Op/Copy.php:66-69 | the to-length equals the from-length |
| DiffOp.CopyOp.GetOpcode | Diff/Op/Copy.php:76-82 | the opcode is `c` alone for one character and `c` followed by the decimal length otherwise |
| DiffOp.CopyOp.Increase | Diff/Op/Copy.php:92-95 | the length grows by exactly the size given, and the new length is returned |
| DiffOp.Replace.GetFromLen | Diff/Op/Replace.php:65-68 | the from-length of a Replace is that of its Delete part, the length of the removed text |
| DiffOp.Replace.GetToLen | Diff/Op/Replace.php:75-78 | the to-length of a Replace is that of its Insert part, the length of the inserted text (as intended) |
| DiffOp.Replace.GetToLenAsWritten | Diff/Op/Replace.php:75-78 | as written the method yields no length at all |
| DiffOp.ReplaceToLenAsWrittenFails | Diff/Op/Replace.php:75-78 | for every Replace the code as written has no to-length while the intended one is the inserted text's length |
| DiffOp.Replace.GetOpcode | Diff/Op/Replace.php:85-88 | a Replace serialises as the opcodes of its Delete followed by its Insert |
| DiffOps.ReadCount | Diff/Ops.php:117-123 | the count read after a letter is at least 1 |
| DiffOps.ReadCountOfIntVal | Diff/Ops.php:117-123 | the count is 1 when `intval` reads 0, the value `intval` reads when positive (consuming its decimal digits), and nothing when negative |
| DiffOps.StepAt | Diff/Ops.php:115-141 | a successful turn of the parse loop always moves the offset forward |
| DiffOps.StepAtNone | Diff/Ops.php:139-141 | a letter other than `c`, `d`, `i` makes the turn fail |
| DiffOps.StepAtOf | Diff/Ops.php:115-138 | a `c` gives a Copy of the count, a `d` or `i` the Delete or Insert of the count's characters after one skipped character, with the offset moving past them |
| DiffOps.ParseOpcodes | Diff/Ops.php:109-144 | the loop returns exactly the ops the opcodes parse to, or nothing where the PHP code returns false |
| DiffOps.ReadOp | Diff/Ops.php:115-141 | one turn of the loop reads the op and the offset step `StepAt` describes |
| DiffOps.NewOps | Diff/Ops.php:61-73 | construction succeeds exactly when the opcodes parse, keeps the ops and the opcode string, and fails with "Opcodes supplied are invalid" otherwise |
| DiffOps.ReadCountOfCountText | Diff/Ops.php:117-123 | the count a serialised op wrote is read back whole when an opcode letter follows |
| DiffOps.StepOfOpcode | Diff/Ops.php:115-141 | a single serialised op is read back as itself, consuming exactly its opcode |
| DiffOps.ParseFromShift | Diff/Ops.php:109-144 | parsing after a prefix is parsing the rest on its own |
| DiffOps.ParseOpcodesRoundTrip | Diff/Ops.php:109-144 | parsing the opcodes of well-formed ops gives back exactly those ops |
| DiffOps.ReplaceParsesAsPair | Diff/Op/Replace.php:85-88 | a Replace's opcode parses back as its Delete followed by its Insert |
| DiffOps.ParseRejectsUnknownLetter | Diff/Ops.php:139-141 | an unknown letter where an op should start makes the whole parse fail |
| DiffOps.ParseUncheckedSeparator | Diff/Ops.php:117-131 | with no count the length is 1, and the character after the count is skipped whatever it is |
| DiffOps.ParseTruncatedPayload | Diff/Ops.php:127-132 | a payload shorter than its count is not an error: the op takes what is left |
| DiffFragments.Strcspn | Diff.php:417 | the run of non-delimiters never reaches past the text |
| DiffFragments.StrcspnStops | Diff.php:417 | the run holds no delimiter and stops at the end of the text or at a delimiter |
| DiffFragments.StrspnStops | Diff.php:418 | the run holds only delimiters and stops at the end of the text or at a non-delimiter |
| DiffFragments.FragmentEnd | Diff.php:417-418 | a fragment ends between its start and the end of the text |
| DiffFragments.FragmentEndFacts | Diff.php:416-424 | the loop stops exactly when the text is used up, and each cut is non-delimiters then delimiters, ending where a delimiter run gives way |
| DiffFragments.Chars | Diff.php:410-413 | one fragment per character |
| DiffFragments.ExtractFragments | Diff.php:407-426 | the loop cuts the text exactly as `Fragments` says |
| DiffFragments.FragmentsFromSplit | Diff.php:414-425 | with delimiters the fragments are non-empty, concatenate back to the text, each is non-delimiters then delimiters, and cuts fall only at the end of a delimiter run |
| DiffFragments.CharsConcat | Diff.php:410-413 | splitting into characters concatenates back to the text |
| DiffFragments.FragmentsSplit | Diff.php:407-426 | for any delimiters the fragments are non-empty and concatenate back to the text; without delimiters (including "0") each is one character |
| DiffMatcher.RunEnding | Diff.php:370-372 | a run ending at (o, n) is no longer than either prefix |
| DiffMatcher.Longest | Diff.php:365-379 | the kept run fits inside both sequences |
| DiffMatcher.MatrixStep | Diff.php:368-372 | one visit keeps the matrix holding the run lengths of exactly the matching pairs visited so far |
| DiffMatcher.FindLongest | Diff.php:365-379 | the nested loops end with the run `Longest` describes, inside both sequences |
| DiffMatcher.Sames | Diff.php:386 | one common entry per fragment of the common run |
| DiffMatcher.ArrayDiff | Diff.php:360-392 | the recursion returns exactly the alignment `Alignment` describes |
| DiffMatcher.ScanRowsHolds | Diff.php:373-377 | after all visits nothing visited beats the kept run, and it ends at the first pair of its length |
| DiffMatcher.RunEndingOfCommon | Diff.php:370-372 | a common run of k fragments shows as a run length of at least k at its last pair |
| DiffMatcher.CommonOfRunEnding | Diff.php:370-372 | a run length of k at a pair is a common run of k fragments ending there |
| DiffMatcher.LongestIsFirstLongest | Diff.php:365-379 | the kept run is common to both sides, no common run is longer, and none of the same length comes earlier in visiting order |
| DiffMatcher.LongestIsEmpty | Diff.php:380 | nothing is found exactly when the two sides share no fragment |
| DiffMatcher.AlignmentCovers | Diff.php:360-392 | reading the old side of the alignment gives the old fragments and the new side the new fragments, each once and in order |
| DiffMatcher.AlignmentSamesAreNew | Diff.php:386 | every common entry is one of the new fragments |
| DiffMatcher.AlignmentChanges | Diff.php:380-391 | every change entry changes something and shares no fragment between its sides, and no two change entries are adjacent |
| DiffMatcher.AlignmentOfEqual | Diff.php:360-392 | a sequence aligned with itself is all common entries |
| DiffEngine.GranularityStack | Diff.php:160-174 | a string is a one-level stack, a non-empty array is flattened, anything else is the character stack; a non-empty array with no leaves leaves the stack null; a stack that is set is never empty |
| DiffEngine.Levels | Diff.php:244-249 | the levels the engine runs through: the stack when set, and the character level when the stack is null; never empty |
| DiffEngine.FlattenFlat | Diff.php:163-171 | a flat array of delimiter strings is taken as it is |
| DiffEngine.FlattenGroup | Diff.php:163-171 | nesting part of the array changes nothing in the order of the leaves |
| DiffEngine.ProcessGranularity | Diff.php:242-289 | the method returns the ops `Process` describes |
| DiffEngine.AddCopyEdits | Diff.php:273-285 | adding a common fragment as a new or grown Copy extends an edit script by that fragment on both sides |
| DiffEngine.AppendOpsEdits | Diff.php:300-320 | appending two edit scripts, fusing Copies at the seam, edits the joined texts |
| DiffEngine.ChangeOpsEdits | Diff.php:264-271 | the Delete and Insert of the last level edit the old text of a change into its new text |
| DiffEngine.StepEdits | Diff.php:250-287 | one turn of the loop extends an edit script by the old and new text of the entry |
| DiffEngine.FoldEdits | Diff.php:250-287 | the loop extends an edit script by the old and new sides of the whole alignment |
| DiffEngine.ProcessEdits | Diff.php:242-289 | for every stack the ops edit `from` into `to` |
| DiffEngine.AddCopyNormal | Diff.php:273-285 | adding a non-empty common fragment keeps ops in normal form |
| DiffEngine.AppendOpsNormal | Diff.php:300-320 | appending two normal scripts gives a normal script |
| DiffEngine.ChangeOpsNormal | Diff.php:264-271 | the last level adds no empty op and no Copy |
| DiffEngine.StepNormal | Diff.php:250-287 | one turn keeps the ops in normal form |
| DiffEngine.FoldNormal | Diff.php:250-287 | the loop keeps the ops in normal form |
| DiffEngine.ProcessNormal | Diff.php:242-289 | the ops hold no empty op and never two Copies in a row |
| DiffEngine.AddCopyTwice | Diff.php:277-281 | two common fragments in a row make one Copy of their total length |
| DiffEngine.FoldSames | Diff.php:273-285 | a run of common fragments becomes one Copy of their total length |
| DiffEngine.ProcessOfEqualTexts | Diff.php:242-289 | a text diffed against itself is one Copy of its length, or nothing when empty |
| DiffEngine.ChangeOpsIsReplace | Diff.php:264-271 | when both sides have text the last level emits exactly the Delete and Insert of a Replace, with the Replace's opcode |
| DiffEngine.ChangeOpsAsWrittenAgrees | Diff.php:265-270 | `empty()` and a test for the empty text differ only on "0" |
| DiffEngine.ChangeOpsAsWrittenLosesZero | Diff.php:265-270 | as written a change of "0" into "1" loses its Delete and no longer edits "0" into "1"; corrected it does |
| DiffEngine.Diff.constructor | Diff.php:155-183 | the object keeps both texts and the settled stack, null for an array without leaves, and its ops are those `Process` gives over `Levels` of that stack |
| DiffEngine.Diff.GetGranularity | Diff.php:190-193 | the stored stack, null or never empty |
| DiffEngine.Diff.GetOps | Diff.php:200-203 | the ops edit the older text into the newer and are in normal form |
| DiffEngine.Diff.GetOpcodes | Diff.php:210-217 | the joined opcodes of the ops, which parse back to the same ops |
| DiffEngine.Diff.DiffTexts | Diff.php:224-228 | for every granularity argument, leafless arrays included, the opcodes of a fresh diff, which parse to an edit script of the two texts |
| DiffRender.Direction | Diff/Render/Abstract.php:70-77 | the direction is backwards exactly when the argument is the boolean `false` |
| DiffRender.Renderer.GetSource | Diff/Render/Abstract.php:84-87 | the source given to the constructor |
| DiffRender.Renderer.GetOpcodes | Diff/Render/Abstract.php:94-97 | the stored opcodes, which parse to the ops that are replayed |
| DiffRender.NewRenderer | Diff/Render/Abstract.php:70-77 | construction succeeds exactly when the opcodes parse, storing source, ops and direction; otherwise it fails with the Ops exception's message |
| DiffRenderText.ApplyOps | Diff/Render/Text.php:87-116 | the loop renders exactly `Replay` of the ops in the given direction |
| DiffRenderText.Render | Diff/Render/Text.php:48-51 | render replays in the stored direction |
| DiffRenderText.RenderForward | Diff/Render/Abstract.php:70-77 | succeeds exactly when the opcodes parse, rendering forwards |
| DiffRenderText.RenderBackward | Diff/Render/Abstract.php:70-77 | succeeds exactly when the opcodes parse, rendering backwards |
| DiffRenderText.ReplayForward | Diff/Render/Text.php:87-116 | replaying an edit script forwards over the older text gives the newer text |
| DiffRenderText.ReplayBackward | Diff/Render/Text.php:87-116 | replaying an edit script backwards over the newer text gives the older text |
| DiffRenderText.DiffThenRender | Diff.php:242-289 | the engine's ops round-trip through their opcodes, replay forwards from `from` to `to` and backwards from `to` to `from` |
| DiffRenderText.DiffAndRender | Diff.php:224-228 | diffing and then rendering forwards gives the newer text, and backwards the older |
| DiffRenderText.CopyNeverAdvancesAsWritten | Diff/Render/Text.php:94-97 | as written the offset never moves past a Copy, so inserting "X" into "ab" renders "aXa" instead of "aXb" |
| DiffRenderText.ZeroDeleteLostInReplay | Diff.php:265-270 | replaying the as-written ops of "0b" to "1b" gives "10" |
| DiffRenderHtml.Escape | Diff/Render/Html.php:144-158 | escaped text holds no angle bracket and is no shorter |
| DiffRenderHtml.ApplyOps | Diff/Render/Html.php:87-136 | the loop renders exactly `HtmlReplay` of the ops in the given direction |
| DiffRenderHtml.Render | Diff/Render/Html.php:48-51 | render replays in the stored direction |
| DiffRenderHtml.RenderForward | Diff/Render/Html.php:60-64 | succeeds exactly when the opcodes parse, rendering forwards |
| DiffRenderHtml.RenderBackward | Diff/Render/Html.php:73-77 | succeeds exactly when the opcodes parse, rendering backwards |
| DiffRenderHtml.UnmarkEscape | Diff/Render/Html.php:144-158 | escaped text reads back as itself |
| DiffRenderHtml.UnmarkDeleteTags | Diff/Render/Html.php:144-147 | a `del` element disappears forwards and reads as its text backwards |
| DiffRenderHtml.UnmarkInsertTags | Diff/Render/Html.php:155-158 | an `ins` element reads as its text forwards and disappears backwards |
| DiffRenderHtml.TagsCount | Diff/Render/Html.php:144-158 | each element has exactly two tags |
| DiffRenderHtml.UnmarkReplay | Diff/Render/Html.php:87-136 | forwards, dropping the `del` elements, unwrapping the `ins` ones and reading the entities gives the Text rendering; backwards the other way round |
| DiffRenderHtml.TagsPerChange | Diff/Render/Html.php:87-136 | every Delete or Insert gets one element of two tags and a Copy none |
| DiffRenderHtml.DiffThenUnmark | Diff/Render/Html.php:60-77 | forwards a reader of the markup sees the newer text, backwards the older |
| DiffRenderUnified.LastNewline | Diff/Render/Unified.php:322 | the result is the last newline, or none when there is none |
| DiffRenderUnified.FirstNewline | Diff/Render/Unified.php:338 | the result is the first newline at or after the start, or none, also for a start past the end |
| DiffRenderUnified.CurrentLineStart | Diff/Render/Unified.php:315-327 | the start is at or before the offset, follows a newline unless 0, and no newline lies between it and the offset (as intended) |
| DiffRenderUnified.CurrentLineStartAgrees | Diff/Render/Unified.php:315-327 | away from empty lines the code as written gives the intended start |
| DiffRenderUnified.CurrentLineStartEmptyLine | Diff/Render/Unified.php:319-321 | on the empty second line of "a\n\n" the code as written answers 0 instead of 2 |
| DiffRenderUnified.NextLineStart | Diff/Render/Unified.php:336-343 | the start of the next line follows the first newline at or after the offset; none when there is no newline before the last character, also for an offset past the end |
| DiffRenderUnified.PrevLineStart | Diff/Render/Unified.php:352-358 | none exactly on the first line; otherwise the start of the line before the current one |
| DiffRenderUnified.LineNumber | Diff/Render/Unified.php:360-362 | line numbers start at 1 |
| DiffRenderUnified.LineNumberStep | Diff/Render/Unified.php:360-362 | the line number grows by one at each newline passed and otherwise stays |
| DiffRenderUnified.LineStartSameLine | Diff/Render/Unified.php:315-362 | the start of the current line has the offset's line number |
| DiffRenderUnified.InsertOpCharsLine | Diff/Render/Unified.php:372-375 | each non-empty line gains the op character in front, and empty lines stay empty |
| DiffRenderUnified.InsertOpCharsLastLine | Diff/Render/Unified.php:372-375 | the last line is marked the same way |
| DiffRenderUnified.HunkHeaderDoubledSigns | Diff/Render/Unified.php:397-407 | as written every header reads `@@ --`; the corrected header has the line number right after `-` |
| DiffRenderUnified.HunkHeaderOneLine | Diff/Render/Unified.php:397-407 | the one-line hunk reads `@@ --1 +-1 @@` as written and `@@ -1 +1 @@` corrected |
| DiffRenderUnified.CountLinesOfHunk | Diff/Render/Unified.php:391-393 | counting newline-then-character pairs counts the lines of that kind |
| DiffRenderUnified.HunkCounts | Diff/Render/Unified.php:387-393 | the counts addHunk takes are the numbers of context, deleted and inserted lines |
| DiffRenderUnified.Unified.constructor | Diff/Render/Unified.php:407 | a renderer starts with no hunks; the first `addHunk` creates the list |
| DiffRenderUnified.Unified.AddHunk | Diff/Render/Unified.php:385-410 | one hunk is appended with its header ranges from the line counts, and the newer text's line offset moves by inserts minus deletes |
| DiffRenderUnified.Unified.GetHunks | Diff/Render/Unified.php:417-420 | no hunks give the empty text, and one hunk gives that hunk |
| DbQuery.Put | Db/Query.php:373-374 | an expression already listed keeps its place and takes the new direction; a new expression goes at the end; every other item is unchanged |
| DbQuery.PutKeepsUniqueKeys | Db/Query.php:373-374 | a sort list keyed by expression stays free of duplicates, and holds the pair just stored |
| DbQuery.SortsStayUnique | Db/Query.php:374 | replacing one sort list with a duplicate-free list keeps every sort list duplicate-free |
| DbQuery.SortItemTexts | Db/Query.php:547-550 | one text per item, in order |
| DbQuery.SortFragment | Db/Query.php:536-555 | an empty list gives the empty text |
| DbQuery.Prefixed | Db/Query.php:546-550 | the text before the cut holds at least the two characters of `, ` per item |
| DbQuery.PrefixedJoin | Db/Query.php:546-552 | cutting the first two characters leaves the item texts joined by `, ` |
| DbQuery.RenderSortFragment | Db/Query.php:536-555 | the loop and the cut give exactly the items joined by `, `, each descending one marked ` DESC` |
| DbQuery.ListFragment | Db/Query.php:513-524 | an empty list gives the empty text and a single item gives itself |
| DbQuery.IgnoreKeyword | Db/Query/Update.php:210-212 | `IGNORE ` appears exactly when ignore is set |
| DbQuery.LowPriorityKeyword | Db/Query/Update.php:206-208 | `LOW_PRIORITY ` appears exactly when the priority is LOW_PRIORITY |
| DbQuery.AppendWhereOrderLimit | Db/Query/Update.php:217-228 | WHERE, ORDER BY and LIMIT are appended in that order, each only when it is set |
| DbQuery.Query.constructor | Db/Query.php:75-96 | nothing set, each sort list empty, nothing bound, bind style not fixed, no statement |
| DbQuery.Query.FlushStatement | Db/Query.php:164-167 | the held statement is dropped and nothing else changes |
| DbQuery.Query.Ignore | Db/Query.php:205-209 | only the ignore part changes, to true |
| DbQuery.Query.SetPriority | Db/Query/Update.php:73-77 | only the priority part changes |
| DbQuery.Query.SetTable | Db/Query.php:221-234 | success exactly for a non-empty string, which becomes the table; otherwise "Table name must not be empty" and no change |
| PhpValue.IntegerNumbers | Db/Query.php:578 | a text is an integer string exactly when it is numeric and its number is an integer, and then that integer is the one `intval` reads |
| PhpValue.NoNumberAhead | Db/Query.php:578 | text that starts with anything but white space, a sign, a digit or a point has no number in front and is not numeric |
| PhpValue.FractionTruncates | Db/Query.php:401-410 | `"n.f"` is numeric, reads whole as a float, and `(integer)` truncates it to n |
| PhpValue.ExponentScales | Db/Query.php:401-410 | `"nek"` is numeric, reads whole as a float, and `(integer)` gives n times 10 to the k |
| PhpValue.LeadingInteger | Db/Query.php:401 | a number followed by other text reads as that integer over its digits only, and the text is not numeric unless white space follows |
| DbQuery.Query.ValidateBindParameter | Db/Query.php:568-601 | success exactly for an int or string whose style (positional for a numeric one, decimal fractions and exponents included, named otherwise) matches the style already fixed, if any; success fixes the style, failure keeps it, with the source's two messages |
| DbQuery.NumberTextStyles | Db/Query.php:578 | `"n.f"` and `"nek"` bind positionally; a number followed by other text binds by name |
| DbQuery.Query.BindParam | Db/Query.php:435-462 | success exactly for an int data type, an int or null length and a valid parameter; success stores or replaces that parameter's entry, failure binds nothing; the bind-style invariant holds |
| DbQuery.Query.BindValue | Db/Query.php:480-502 | success exactly for an int data type and a valid parameter; success stores or replaces that parameter's entry, failure binds nothing |
| DbQuery.Query.SetLimitClause | Db/Query.php:388-413 | success exactly for a LIMIT target and a numeric value, stored as its `(integer)` cast; failure changes nothing |
| DbQuery.LimitCasts | Db/Query.php:401-410 | `"n.f"` is numeric and stored as n, `"nek"` is numeric and stored as n times 10 to the k, and a number followed by other text is refused |
| DbQuery.Query.AddSortClause | Db/Query.php:341-377 | success exactly for a sort list of this builder, a non-empty string and a boolean; the trimmed expression is then listed with that direction, in place if already listed; failure changes nothing |
| DbQuery.Query.GetWhereCondition | Db/Query.php:264-280 | success exactly for WHERE and HAVING, giving that condition or none when unset |
| DbQuery.Query.SetWhereCondition | Db/Query.php:295-328 | success exactly for WHERE or HAVING with a condition object, or with text and a valid or absent glue; an object is stored as it is, text gets one new condition holding just that text, glue AND by default; failure changes nothing |
| DbQuery.Query.ConditionOf | Db/Query.php:308-326 | a condition object is taken as it is; text succeeds exactly with a valid or absent glue and becomes one new condition holding just that text; anything else is refused and nothing changes |
| DbQuery.Query.NewTextCondition | Db/Query.php:313-318 | success exactly for an absent or valid glue; a new condition is appended holding just the text |
| DbQuery.Query.ClauseText | Db/Query/Update.php:217-219 | there is a clause text exactly when a condition is set |
| DbWhereCondition.DescendantRanksBelow | Db/Query/WhereCondition.php:142-157 | whatever a condition reaches through its components ranks strictly below it |
| DbWhereCondition.NoConditionContainsItself | Db/Query/WhereCondition.php:107-115 | in a store the recursion check keeps, no condition contains itself |
| DbWhereCondition.ParentDescends | Db/Query/WhereCondition.php:146-151 | a condition reaches its child and whatever that child reaches |
| DbWhereCondition.Lift | Db/Query/WhereCondition.php:117 | the new ranking has one rank per condition |
| DbWhereCondition.AddKeepsRanked | Db/Query/WhereCondition.php:107-117 | adding a child that is not the parent and does not contain it keeps the store acyclic |
| DbWhereCondition.AddTextKeepsRanked | Db/Query/WhereCondition.php:117 | adding SQL text keeps the store acyclic |
| DbWhereCondition.Render | Db/Query/WhereCondition.php:165-169 | the text ends with `)`; it starts with `NOT (` when negated and with `(` otherwise |
| DbWhereCondition.RenderFrom | Db/Query/WhereCondition.php:168 | one text per component |
| DbWhereCondition.RenderAgrees | Db/Query/WhereCondition.php:165-169 | changing one condition leaves the text of every other condition that does not contain it unchanged |
| DbWhereCondition.AddExtendsText | Db/Query/WhereCondition.php:117-168 | an accepted component adds exactly its own text after the component texts already there |
| DbWhereCondition.RenderSingleText | Db/Query/WhereCondition.php:165-169 | a non-negated condition holding one piece of SQL text prints as that text in brackets |
| DbWhereCondition.ComponentTextAgrees | Db/Query/WhereCondition.php:168 | a component not containing the changed condition prints the same before and after |
| DbWhereCondition.NegateIdempotent | Db/Query/WhereCondition.php:136-140 | negating twice is negating once |
| DbWhereCondition.Conditions.constructor | Db/Query/WhereCondition.php:74-88 | an empty, acyclic store |
| DbWhereCondition.Conditions.NewCondition | Db/Query/WhereCondition.php:74-88 | success exactly for the glues AND, OR and XOR (strict comparison), giving a new empty non-negated condition; otherwise the source's message and no change |
| DbWhereCondition.Conditions.AddWhereCondition | Db/Query/WhereCondition.php:97-119 | success exactly when the value is text, an object that is no condition, or a condition that is neither the receiver nor contains it; exactly one component is appended at the end; failure changes nothing, with the source's two messages; the store stays acyclic |
| DbWhereCondition.Conditions.IsChild | Db/Query/WhereCondition.php:142-157 | the search answers true exactly when the target is reachable through nested components |
| DbWhereCondition.Conditions.Negate | Db/Query/WhereCondition.php:136-140 | only that condition's negated flag changes, to true |
| DbWhereCondition.Conditions.GetType | Db/Query/WhereCondition.php:126-129 | the glue is always AND, OR or XOR |
| DbWhereCondition.Conditions.ToString | Db/Query/WhereCondition.php:165-169 | the text `Render` specifies for that condition in the current store: parenthesised, with a `NOT ` prefix exactly when the condition is negated |
| DbAlterRow.LowerLetters | Db/Query/AlterRowAbstract.php:140-142 | the result holds only lowercase letters and is no longer than the name |
| DbAlterRow.PlaceholderIsNamed | Db/Query/AlterRowAbstract.php:140-142 | a placeholder is never numeric, so binding under it always uses the named style |
| DbAlterRow.Assignments | Db/Query/AlterRowAbstract.php:121-123 | one assignment per column, in the order the columns were added |
| DbAlterRow.FreshPlaceholder | Db/Query/AlterRowAbstract.php:140-148 | the placeholder is `:` and the name's lowercase letters followed only by letters, and is not taken; when that base is free it is the base itself |
| DbAlterRow.AlterRow.constructor | Db/Query/AlterRowAbstract.php:27 | no column and no placeholder, with the shared builder state empty |
| DbAlterRow.AlterRow.UniquePlaceholder | Db/Query/AlterRowAbstract.php:137-154 | a column keeps the placeholder it got first; a new column gets a well-formed placeholder no other column has, the base itself when free; placeholders stay distinct |
| DbAlterRow.AlterRow.AddBindableColumn | Db/Query/AlterRowAbstract.php:112-127 | success exactly for a non-empty string; a new column is appended once with the assignment to its placeholder; a column already listed changes nothing; failure gives "Column name must not be empty" and changes nothing |
| DbAlterRow.AlterRow.Ignore | Db/Query/AlterRowAbstract.php:35-38 | only the ignore part changes, to true |
| DbAlterRow.AlterRow.BindColumnParam | Db/Query/AlterRowAbstract.php:57-72 | an empty name fails; otherwise the column gets its placeholder and success is exactly an int data type, an int or null length and no positional binds so far, storing the variable's entry under the placeholder; failure binds nothing |
| DbAlterRow.AlterRow.BindColumnValue | Db/Query/AlterRowAbstract.php:89-103 | the same for a value: success is exactly a non-empty name, an int data type and no positional binds so far |
| DbSelect.JoinTexts | Db/Query/Select.php:503-518 | one text per join, in order |
| DbSelect.JoinsFragmentAppend | Db/Query/Select.php:503-518 | a join added later renders after the joins already there |
| DbSelect.ColumnsText | Db/Query/Select.php:400-404 | `*` when no column is set, otherwise the columns joined by `, ` |
| DbSelect.SelectBare | Db/Query/Select.php:395-448 | with no WHERE, GROUP BY, HAVING, ORDER BY, LIMIT count or lock the statement is just SELECT, the select list, FROM, the tables and the joins |
| DbSelect.RollupNeedsGroup | Db/Query/Select.php:414-420 | the rollup flag changes nothing while the GROUP BY list is empty |
| DbSelect.OffsetNeedsCount | Db/Query/Select.php:432-438 | the offset changes nothing while no count is set |
| DbSelect.RenderJoinsFragment | Db/Query/Select.php:503-518 | the loop renders every join, LEFT or INNER, in insertion order |
| DbSelect.AppendGroupBy | Db/Query/Select.php:414-420 | GROUP BY is appended only for a non-empty list, with WITH ROLLUP only when the flag is exactly `true` |
| DbSelect.AppendLimit | Db/Query/Select.php:431-438 | LIMIT is appended only with a count, as `offset, count` when an offset is set too |
| DbSelect.GenerateSelect | Db/Query/Select.php:395-448 | the statement is SELECT, FROM and joins, WHERE, GROUP BY, HAVING, ORDER BY, LIMIT and the lock, in that order, each only when set |
| DbSelect.Select.constructor | Db/Query/Select.php:77-90 | the initial parts: not distinct, no column, table or join, empty GROUP BY and ORDER BY lists, rollup false, no limit or lock, no alias reserved |
| DbSelect.Select.SetDistinct | Db/Query/Select.php:99-103 | only the distinct flag changes, to true |
| DbSelect.Select.ReserveAlias | Db/Query/Select.php:541-564 | success exactly for a non-empty string not reserved before, which is then appended to the reserved aliases; failure reserves nothing, with the source's two messages |
| DbSelect.Select.MakeAliasString | Db/Query/Select.php:527-531 | success exactly when the alias can be reserved, giving ` AS alias` |
| DbSelect.Select.OptionalAlias | Db/Query/Select.php:122-126 | no alias gives the empty text and reserves nothing; otherwise as `MakeAliasString` |
| DbSelect.Select.Column | Db/Query/Select.php:115-130 | success exactly with no alias or one that can be reserved; the expression, with ` AS alias` when given, is appended to the select list; failure changes nothing |
| DbSelect.Select.TableAlias | Db/Query/Select.php:142-147 | with an alias, success exactly when it can be reserved, giving ` AS alias`; without one the table name itself must be reservable and is reserved |
| DbSelect.Select.From | Db/Query/Select.php:140-151 | success exactly when the alias, or else the table name, can be reserved; the table, with ` AS alias` when given, is appended; failure changes nothing |
| DbSelect.Select.Join | Db/Query/Select.php:463-496 | same success condition as `From`; the join `table[ AS alias] ON condition` is appended, left exactly for JOIN_LEFT and inner for any other type; failure changes nothing |
| DbSelect.Select.JoinInner | Db/Query/Select.php:173-177 | success exactly when the alias, or else the table name, can be reserved; then one more join, an inner one `table[ AS alias] ON condition`, at the end; failure changes nothing |
| DbSelect.Select.JoinLeft | Db/Query/Select.php:189-193 | success exactly when the alias, or else the table name, can be reserved; then one more join, a left one `table[ AS alias] ON condition`, at the end; failure changes nothing |
| DbSelect.Select.GetWhere | Db/Query/Select.php:201-204 | the where condition, none when unset |
| DbSelect.Select.GetHaving | Db/Query/Select.php:248-251 | the having condition, none when unset |
| DbSelect.Select.SetWhere | Db/Query/Select.php:216-220 | success exactly for a condition object, or text with an absent or valid glue; an object is stored as it is, text becomes one new condition rendering as `(text)`; failure changes nothing |
| DbSelect.Select.SetHaving | Db/Query/Select.php:263-267 | the same for HAVING: success exactly for a condition object or text with an absent or valid glue, the condition stored as it is or made from the text; failure changes nothing |
| DbSelect.Select.GroupBy | Db/Query/Select.php:231-234 | success exactly for a non-empty string and a boolean; the trimmed expression is listed in GROUP BY with that direction and every other part (WHERE, HAVING, LIMIT, ORDER BY, ...) stays as it was; on failure no part changes |
| DbSelect.Select.GroupByRollup | Db/Query/Select.php:236-240 | any value is stored as the rollup flag and nothing else changes |
| DbSelect.Select.OrderBy | Db/Query/Select.php:278-281 | success exactly for a non-empty string and a boolean; the trimmed expression is listed in ORDER BY with that direction and every other part (WHERE, HAVING, LIMIT, GROUP BY, ...) stays as it was; on failure no part changes |
| DbSelect.Select.Limit | Db/Query/Select.php:292-298 | success exactly when both are numeric, storing their `(integer)` casts; a numeric offset with a non-numeric count is stored although the call fails |
| DbSelect.Select.Lock | Db/Query/Select.php:310-325 | success exactly for FOR_UPDATE or SHARE_MODE (strict comparison), stored as the lock type; otherwise the source's message and no change |
| DbSelect.Select.BindParam | Db/Query/Select.php:334-341 | the shared bind rule: success exactly for an int data type, an int or null length and a parameter of the fixed style; the entry is stored or replaced |
| DbSelect.Select.BindValue | Db/Query/Select.php:346-349 | the shared bind rule for values |
| DbSelect.Select.GenerateStatement | Db/Query/Select.php:395-448 | the statement `SelectSql` specifies for the current parts |
| DbSelect.Select.Prepare | Db/Query/Select.php:381-388 | a held statement is returned unchanged, so later changes have no effect until flushed; otherwise the statement for the current parts is built and held |
| DbInsert.PriorityKeyword | Db/Query/Insert.php:154-166 | corrected: one keyword per priority constant, each exactly for its own constant, and no keyword while no priority is set |
| DbInsert.PriorityKeywordDiffers | Db/Query/Insert.php:154-166 | the `switch` as written and the corrected choice differ exactly when no priority is set |
| DbInsert.UnsetPriorityIsDelayed | Db/Query/Insert.php:154-156 | as written, an insert with no priority set starts `INSERT DELAYED ` and is eight characters longer than intended |
| DbInsert.InsertSqlShape | Db/Query/Insert.php:152-173 | the statement starts `INSERT ` followed by the keyword of the priority set, and ends with the assignment list |
| DbInsert.GenerateInsert | Db/Query/Insert.php:152-173 | the steps build exactly `InsertSql`: INSERT, the priority keyword, IGNORE when set, INTO the table SET the assignments |
| DbInsert.Insert.constructor | Db/Query/Insert.php:62-68 | priority unset, ignore false, no table, no column, nothing bound, no statement |
| DbInsert.Insert.Priority | Db/Query/Insert.php:78-94 | success exactly for one of the three priority constants, stored as the priority; otherwise the source's message and no change |
| DbInsert.Insert.Column | Db/Query/Insert.php:102-105 | success exactly for a non-empty string, failing with "Column name must not be empty" otherwise; a new column is appended at the end with its assignment to its own placeholder, the other columns and placeholders staying; a column already listed changes nothing |
| DbInsert.Insert.Into | Db/Query/Insert.php:114-117 | success exactly for a non-empty string, which becomes the table; failure changes nothing |
| DbInsert.Insert.Prepare | Db/Query/Insert.php:137-179 | a held statement is returned unchanged; otherwise no table or no column gives the source's error, else the statement `InsertSql` specifies is built and held |
| DbUpdate.UpdateBare | Db/Query/Update.php:204-228 | with no option and no clause the statement is `UPDATE table SET assignments` |
| DbUpdate.UpdateClauses | Db/Query/Update.php:204-228 | after the head come WHERE, ORDER BY and LIMIT, in that order, each exactly when set; with none the statement is the head |
| DbUpdate.GenerateUpdate | Db/Query/Update.php:204-228 | the steps build exactly `UpdateSql` |
| DbUpdate.Update.constructor | Db/Query/Update.php:55-63 | nothing set, an empty ORDER BY list, no column, nothing bound, no statement |
| DbUpdate.Update.LowPriority | Db/Query/Update.php:73-77 | only the priority part changes, to LOW_PRIORITY |
| DbUpdate.Update.Ignore | Db/Query/Update.php:83-86 | only the ignore part changes, to true |
| DbUpdate.Update.Table | Db/Query/Update.php:93-96 | success exactly for a non-empty string, which becomes the table; failure changes nothing |
| DbUpdate.Update.Column | Db/Query/Update.php:104-107 | success exactly for a non-empty string, failing with "Column name must not be empty" otherwise; a new column is appended at the end with its assignment to its own placeholder, the other columns and placeholders staying; a column already listed changes nothing |
| DbUpdate.Update.GetWhere | Db/Query/Update.php:115-118 | the where condition, none when unset |
| DbUpdate.Update.SetWhere | Db/Query/Update.php:129-133 | success exactly for a condition object, or text with an absent or valid glue; an object is stored as it is, text becomes one new condition rendering as `(text)`; only the where part changes, and failure changes nothing |
| DbUpdate.Update.OrderBy | Db/Query/Update.php:143-146 | success exactly for a non-empty string and a boolean; the trimmed expression is listed in ORDER BY with that direction and the table, WHERE, LIMIT, priority and ignore parts stay as they were; on failure no part changes |
| DbUpdate.Update.Limit | Db/Query/Update.php:154-157 | success exactly for a numeric count, stored as its `(integer)` cast; failure changes nothing |
| DbUpdate.Update.BindParam | Db/Query/Update.php:162-169 | the shared bind rule for variables |
| DbUpdate.Update.BindValue | Db/Query/Update.php:174-177 | the shared bind rule for values |
| DbUpdate.Update.Prepare | Db/Query/Update.php:190-233 | a held statement is returned unchanged; otherwise no table or no column gives the source's error, else the statement `UpdateSql` specifies is built and held |
| DbDelete.DeleteBare | Db/Query/Delete.php:182-205 | without option, condition, order or limit the statement is `DELETE FROM table`, deleting every row |
| DbDelete.DeleteClauses | Db/Query/Delete.php:182-205 | after the head come WHERE, ORDER BY and LIMIT, in that order, each exactly when set; with none the statement is the head |
| DbDelete.GenerateDelete | Db/Query/Delete.php:182-205 | the steps build exactly `DeleteSql` |
| DbDelete.Delete.constructor | Db/Query/Delete.php:47-54 | nothing set, an empty ORDER BY list, nothing bound, no statement |
| DbDelete.Delete.LowPriority | Db/Query/Delete.php:64-68 | only the priority part changes, to LOW_PRIORITY |
| DbDelete.Delete.Ignore | Db/Query/Delete.php:74-77 | only the ignore part changes, to true |
| DbDelete.Delete.Table | Db/Query/Delete.php:84-87 | success exactly for a non-empty string, which becomes the table; failure changes nothing |
| DbDelete.Delete.GetWhere | Db/Query/Delete.php:95-98 | the where condition, none when unset |
| DbDelete.Delete.SetWhere | Db/Query/Delete.php:109-113 | success exactly for a condition object, or text with an absent or valid glue; an object is stored as it is, text becomes one new condition rendering as `(text)`; only the where part changes, and failure changes nothing |
| DbDelete.Delete.OrderBy | Db/Query/Delete.php:123-126 | success exactly for a non-empty string and a boolean; the trimmed expression is listed in ORDER BY with that direction and the table, WHERE, LIMIT, priority and ignore parts stay as they were; on failure no part changes |
| DbDelete.Delete.Limit | Db/Query/Delete.php:134-137 | success exactly for a numeric count, stored as its `(integer)` cast; failure changes nothing |
| DbDelete.Delete.BindParam | Db/Query/Delete.php:142-149 | the shared bind rule for variables |
| DbDelete.Delete.BindValue | Db/Query/Delete.php:154-157 | the shared bind rule for values |
| DbDelete.NewException | Db/Query/Delete.php:178-179 | an exception carries its message; the constructor raises a type error instead exactly when the code is an array, an object or text with no number in front |
| DbDelete.MissingTableAsWrittenIsTypeError | Db/Query/Delete.php:178-179 | as written the missing-table error is a type error about `$code`, not the exception with the whole message |
| DbDelete.MissingTableRaisesWholeMessage | Db/Query/Delete.php:178-179 | with the halves joined the exception carries "The table to delete from has not been set" |
| DbDelete.Delete.Prepare | Db/Query/Delete.php:170-210 | a held statement is returned unchanged; otherwise no table fails with "The table to delete from has not been set" (corrected), else the statement `DeleteSql` specifies is built and held |
| DbConfig.Remove | Db.php:132-136 | the key is gone and nothing is added |
| DbConfig.RemoveKeepsOthers | Db.php:132-136 | every other key is kept, with its value |
| DbConfig.RemoveAbsent | Db.php:134-139 | removing a key that is not there changes nothing |
| DbConfig.StrLeTotal | Db.php:143 | any two values are ordered one way or the other |
| DbConfig.StrLeTrans | Db.php:143 | the order of values is transitive |
| DbConfig.InsertByValue | Db.php:143 | one more pair |
| DbConfig.SortByValue | Db.php:143 | as many pairs as before |
| DbConfig.InsertByValuePermutes | Db.php:143 | inserting adds exactly the one pair |
| DbConfig.InsertByValueSorted | Db.php:143 | inserting into pairs ordered by value keeps them ordered |
| DbConfig.SortByValueSortsAndPermutes | Db.php:143 | the sorted parts are the same pairs, in ascending order of value |
| DbConfig.DsnPairsJoin | Db.php:144-146 | the loop's text is the `key=value` texts joined by `;`, plus one final `;` |
| DbConfig.DsnParamsJoin | Db.php:141-148 | the parameters are the `key=value` texts, ordered by value, joined by `;`, when the last value does not itself end in `;` |
| DbConfig.CastValues | Db.php:145 | every value is cast to text, failing exactly when some value is an object; one pair per part, keys unchanged |
| DbConfig.TrimArgument | Db.php:131 | `rtrim` takes the string cast of its argument and raises a type error for an array or an object |
| DbConfig.DsnFromArray | Db.php:120-149 | a missing or empty prefix fails with "No DSN prefix specified"; an array prefix fails with `rtrim`'s type error; a DSN is built only with a non-empty prefix that is no array |
| DbConfig.DsnFromArrayShape | Db.php:131-149 | a built DSN is the prefix stripped of trailing blanks and colons, one colon, then the parameters |
| DbConfig.Settings | Db.php:99-183 | a non-array fails with the source's message; a DSN neither array nor string, or empty, fails with "No DSN specified"; a string DSN is kept as it is; username and password default to the empty text; params are kept exactly when a non-empty array |
| DbConfig.RenderDsnParams | Db.php:141-148 | the loop and the final `rtrim` give exactly `DsnParams` |
| DbConfig.BuildDsn | Db.php:120-149 | the array branch's steps give exactly `DsnFromArray` |
| DbConfig.Normalise | Db.php:99-186 | the constructor stores exactly `Settings` of its configuration |
| Cache.WithDefaults | Cache/Abstract.php:105-115 | the default expire time is the given one when set, else 300; the strict flag is the given one when set, else false; every other key is kept with its value |
| Cache.IsSerializableLeaves | Cache/Abstract.php:174-194 | a variable is serializable exactly when no resource and no object lacking `Serializable` occurs in it, through arrays at any depth |
| Cache.AllSerializableLeaves | Cache/Abstract.php:184-191 | the loop answers true exactly when no element holds anything unserializable |
| Cache.AddNumber | Cache/Object.php:116 | an integer read from text adds as an integer, a fraction or an exponent gives a float time |
| Cache.AddSeconds | Cache/Object.php:116 | an integer adds its value and null adds nothing; text adds the number it starts with, as an integer or a float; the addition fails exactly for text with no number in front, an array or an object |
| Cache.AddLeadingNumber | Cache/Object.php:116 | `"300 s"` adds 300, and a word is a type error |
| Cache.FractionalDefaultLasts | Cache/Object.php:86-116 | with a default of `"n.f"` an entry stays live through second now + n and is gone after it |
| Cache.ExpireTime | Cache/Object.php:105-117 | a time to live of the integer 0 never expires; another integer counts from now; anything else adds the configured default to now |
| Cache.Fetch | Cache/Object.php:85-89 | a value is answered exactly when the handle is stored and still live, and it is the stored value |
| Cache.AfterGet | Cache/Object.php:85-90 | an expired entry for the handle is dropped; every other entry is kept |
| Cache.SetThenFetch | Cache/Object.php:51-97 | a value stored with a positive time to live is answered until that many seconds have passed |
| Cache.NeverExpires | Cache/Object.php:86-110 | a value stored with a time to live of 0 is answered at any later time |
| Cache.SetKeepsOthers | Cache/Object.php:68-71 | storing one handle leaves what every other handle answers unchanged |
| Cache.ObjectCache.Empty | Cache/Object.php:40 | no configuration, no deeper cache, nothing stored |
| Cache.ConfigValueAsWritten | Cache/Abstract.php:92-93 | as written a `Zend_Config` fails with the call on null; any other value passes unchanged |
| Cache.ConfigValue | Cache/Abstract.php:92-93 | corrected, a `Zend_Config` is read as the array of its entries |
| Cache.ZendConfigAsWrittenFails | Cache/Abstract.php:92-93 | every `Zend_Config` fails as written and is an array as meant |
| Cache.ObjectCache.Construct | Cache/Abstract.php:53-68 | success exactly for an array configuration, or a `Zend_Config` (corrected), and a deeper cache that is null or a cache; the configuration gets its defaults; each failure gives the source's message |
| Cache.ObjectCache.SetConfig | Cache/Abstract.php:81-116 | success exactly when no configuration is stored yet and the parameter is an array or a `Zend_Config` read as its array (corrected), storing it with its defaults; otherwise the source's messages and no change |
| Cache.ObjectCache.GetConfig | Cache/Abstract.php:202-208 | a non-null answer exactly when the key is set |
| Cache.ObjectCache.SetDeep | Cache/Abstract.php:128-139 | false exactly when there is a deeper cache, its `set` failed and the strict flag is exactly `true` |
| Cache.ObjectCache.GetDeep | Cache/Abstract.php:147-153 | null without a deeper cache, otherwise the deeper cache's answer |
| Cache.ObjectCache.Set | Cache/Object.php:51-74 | a non-string handle fails with the source's message; otherwise the entry is replaced with the computed expire time, failing only when that cannot be computed, and the result is `SetDeep`'s; a failure stores nothing |
| Cache.ObjectCache.Get | Cache/Object.php:83-97 | a live entry's value when there is one; otherwise the deeper cache's answer, with an expired entry dropped |
| OpenIdComponent.LineEntry | OpenId/ConsumerComponent.php:203-209 | a line contributes nothing exactly when, once trimmed, it is empty in PHP's sense or has no colon; otherwise its key is the trimmed text before the first colon and its value the trimmed rest |
| OpenIdComponent.FoldAppend | OpenId/ConsumerComponent.php:202-211 | reading two runs of lines is reading the second after the first |
| OpenIdComponent.OtherLinesKeep | OpenId/ConsumerComponent.php:208 | lines that do not give a key leave its presence and value as they were |
| OpenIdComponent.ParsedKeys | OpenId/ConsumerComponent.php:199-213 | the array holds exactly the keys some line gives |
| OpenIdComponent.LastLineWins | OpenId/ConsumerComponent.php:208 | a key takes the value of the last line that gives it |
| OpenIdComponent.LineWithoutColon | OpenId/ConsumerComponent.php:205-206 | a line without a colon is ignored |
| OpenIdComponent.KeyValueLines | OpenId/ConsumerComponent.php:202 | one `key:value` line per pair, in order |
| OpenIdComponent.TrimUnchanged | OpenId/ConsumerComponent.php:203 | text that starts and ends outside the trimmed characters is its own trim |
| OpenIdComponent.LineEntryOfPair | OpenId/ConsumerComponent.php:203-208 | the line of a pair with no colon in the key, no newline and no blank edges reads back as that pair |
| OpenIdComponent.ExplodeKeyValueForm | OpenId/ConsumerComponent.php:202 | the key-value form splits at newlines into its lines and one empty piece after the last |
| OpenIdComponent.KeyValueRoundTrip | OpenId/ConsumerComponent.php:199-213 | reading the key-value form (section 4.1.1 of OpenID Authentication 2.0) of distinct such pairs gives every value back under its key |
| OpenIdComponent.LinesRoundTrip | OpenId/ConsumerComponent.php:202-211 | reading just the lines of such pairs gives every value back under its key |
| OpenIdComponent.ConsumerComponent.constructor | OpenId/ConsumerComponent.php:43-47 | the declared defaults: an empty configuration and no error |
| OpenIdComponent.ConsumerComponent.GetError | OpenId/ConsumerComponent.php:78-81 | the message most recently stored |
| OpenIdComponent.ConsumerComponent.SetError | OpenId/ConsumerComponent.php:88-91 | the string cast of the argument is what `GetError` answers afterwards; a value that has no string cast stores nothing |
| OpenIdComponent.ConsumerComponent.SetConfig | OpenId/ConsumerComponent.php:103-125 | a non-array fails with "$config must be an array"; with a configuration already stored the answer is false and it is kept; otherwise the array is stored and the answer is true |
| OpenIdComponent.ConsumerComponent.ResponseToArray | OpenId/ConsumerComponent.php:199-213 | the loop gives exactly the array `ParseResponse` specifies, whose keys are exactly those some line gives |
| OpenIdDiscovery.KeyLeOrder | OpenId/Consumer/Discovery.php:848 | the key order `ksort` uses is reflexive, total, antisymmetric and transitive |
| OpenIdDiscovery.LeastKeyExists | OpenId/Consumer/Discovery.php:848 | every non-empty set of keys has a least key |
| OpenIdDiscovery.SortedKeysSorted | OpenId/Consumer/Discovery.php:848 | the sorted keys are exactly the array's keys, each once, in strictly ascending order |
| OpenIdDiscovery.SortedKeysHead | OpenId/Consumer/Discovery.php:848 | the sorted keys start with the least key |
| OpenIdDiscovery.LeastKey | OpenId/Consumer/Discovery.php:848 | the least of the remaining keys |
| OpenIdDiscovery.KSort | OpenId/Consumer/Discovery.php:848 | repeatedly taking the least remaining key yields the keys in ascending order |
| OpenIdDiscovery.Values | OpenId/Consumer/Discovery.php:885-887 | the array's values, in order, keys dropped |
| OpenIdDiscovery.ShuffledAppend | OpenId/Consumer/Discovery.php:852-860 | appending one more shuffled group keeps the list a sequence of shuffled groups |
| OpenIdDiscovery.ShuffledPermutes | OpenId/Consumer/Discovery.php:839-863 | the ordered list holds exactly the services of all groups, each as often, and nothing else |
| OpenIdDiscovery.SortedPart | OpenId/Consumer/Discovery.php:841-846 | the `last` group is removed exactly when it is non-empty; every other group is kept |
| OpenIdDiscovery.LastGroupAtEnd | OpenId/Consumer/Discovery.php:843-860 | services without a priority fill the end of the list, after every prioritised one |
| OpenIdDiscovery.AppendShuffledArray | OpenId/Consumer/Discovery.php:873-891 | a non-array to append fails with the source's message; otherwise the receiver is kept as the prefix and followed by the array's values in some order |
| OpenIdDiscovery.AppendGroups | OpenId/Consumer/Discovery.php:852-856 | each array under the keys is appended, shuffled, in key order; other values are skipped |
| OpenIdDiscovery.Discovery.constructor | OpenId/Consumer/Discovery.php:44-118 | nothing discovered and the iterator at the first position |
| OpenIdDiscovery.Discovery.GetServiceArray | OpenId/Consumer/Discovery.php:839-863 | the groups in ascending priority, each shuffled, then the `last` group; values that are not arrays contribute nothing |
| OpenIdDiscovery.Discovery.LoadDiscoveryInfo | OpenId/Consumer/Discovery.php:259-271 | with no stored information nothing changes and the answer is false; otherwise the URI, expiry and grouped services are taken over and the flat list rebuilt from them |
| OpenIdDiscovery.Discovery.Valid | OpenId/Consumer/Discovery.php:197-200 | true exactly when a non-null service is stored at the current position |
| OpenIdDiscovery.Discovery.Key | OpenId/Consumer/Discovery.php:166-169 | the current position |
| OpenIdDiscovery.Discovery.Next | OpenId/Consumer/Discovery.php:176-179 | one position further and nothing else changes |
| OpenIdDiscovery.Discovery.Rewind | OpenId/Consumer/Discovery.php:186-189 | back to the first position and nothing else changes |
| OpenIdDiscovery.Discovery.CurrentService | OpenId/Consumer/Discovery.php:149-154 | the array at the current position, or an empty one when there is none |
| OpenIdDiscovery.Discovery.Current | OpenId/Consumer/Discovery.php:147-158 | the current service with `expire` and `uri` always present and set to the object's own; every other key as in the service |
| OpenIdDiscovery.Discovery.Get | OpenId/Consumer/Discovery.php:127-134 | `uri` and `expire` give the object's own; any other property the current service's value, null when it has none |

## Left out

- PHP's loose comparisons are modelled as strict equality. This covers `array_keys($old, $value)` in `arrayDiff` (Diff.php:368, where `"10" == "1e1"`), `in_array` in `_reserveAlias` and `_uniquePlaceholder`, and `array_key_exists` on numeric-string keys. PHP also turns numeric-string array keys into integers; that is not modelled either.
- DiffOps.ReadCount: a count that `intval` reads as negative (`c-3`) is a parse failure in the model. PHP would go on with a negative length. The count is read as white space, a sign and digits. PHP 7.1 and later also read an exponent, so `c1e2c` is Copy(100) and one more Copy there and a failure at the `e` in the model. Integer overflow in `intval` is not modelled either.
- Diff/Render/Abstract.php:70 (a stray `;`), Diff/Render/Text.php:60 and 73 (a missing `function`) and OpenId/ConsumerComponent.php:59 (a missing `;`) do not parse. Db/Query/AlterRowAbstract.php:71 passes `&$variable` by reference at the call, which PHP 5.4 and later reject. The model gives these methods the meaning their text evidently intends.
- `str_split("")` is modelled as the empty list (PHP 8.2 and later). When a granularity stack runs out, the model splits into characters.
- The Unified renderer proper is not part of this model: `render`, `opsToUnified`, `renderForward` and `renderBackward` do not parse and use undefined names. Only its helpers are modelled.
- `htmlentities` is restricted to the five characters `& < > " '`.
- Delete and Insert are datatype values. `getText` is their `text` field, and `getFromLen`/`getToLen` are `DiffOp.FromLen`/`DiffOp.ToLen`. Likewise Replace's `getFromText`/`getToText` are its two fields.
- The interfaces (Cache/Interface.php, Diff/Op/Interface.php, Diff/Render/Interface.php) and the exception classes appear only as types and as `Failure` messages.
- Db/Query/Delete/Exception.php is not part of this model; like the other query exceptions it is taken to add no constructor of its own, so `Exception::__construct` reads its arguments.
- PhpValue.Value: there are no float values, only integers, so an integer sum that overflows to a float in PHP stays an integer. A numeric string that denotes a float is held exactly as digits and a power of ten, without rounding to double precision. `(integer)` of such a string truncates that exact value toward zero; a huge exponent that PHP saturates or maps to 0 is not modelled.
- PhpValue.NumericString: trailing white space is accepted as PHP 8 accepts it. PHP 7 refuses `"1 "` as numeric; that is not modelled.
- Cache.AddSeconds: PHP 8's warning for text with trailing non-numeric characters (`"300 s"`) is not modelled; the sum is the same. A float time is held exactly, and PHP would round it to a double.
- DbWhereCondition.Conditions.AddWhereCondition: any object that is no condition is accepted as PHP accepts it, with the text it prints; an object without `__toString` would fail only when the condition is printed, which is not modelled.
- DiffEngine.GranularityStack: for a non-empty array with no leaves, `$flatStack` is never assigned. The stack is then null. In PHP 7 `array_shift(null)` warns and gives null delimiters, so the engine splits into characters once and stops; that is what the model does. PHP 8 raises a TypeError in `array_shift` at Diff.php:244, which is not modelled.
- DbAlterRow.AlterRow.BindColumnParam: the column name is typed as a string. PHP accepts any value that `empty()` does not reject, such as the integer 5, and casts it when it builds the placeholder; that is not modelled.
- DbAlterRow.AlterRow.BindColumnValue: the column name is typed as a string in the same way, and a non-string name is not modelled.
- DbSelect.Select.From: the table name is typed as a string. PHP concatenates the string cast of any value it is given; that is not modelled.
- Cache.ObjectCache.Get: the handle is typed as a string. PHP accepts any array key, and because numeric-string keys become integers, `get(5)` finds what `set("5")` stored; that is not modelled.
- DiffRenderUnified.FirstNewline: PHP 8's `strpos` raises a ValueError for an offset past the end; the model answers none, as PHP 7 does (false with a warning).
- DbConfig.TrimArgument: PHP 8 raises a TypeError for an array prefix, which the model follows; PHP 7's `rtrim` returns null with a warning instead, which is not modelled.
- Everything PDO does is out of scope: the `PDO` check in the `Brvr_Db_Query` constructor, `execute`, `errorInfo`, `fetch`/`fetchAll`, `lastInsertId`, the adapter's `prepare` itself, Db/Query/Statement.php, and in Db.php the PDO construction, `_getPdo`, transactions, factories and error accessors. A prepared statement is modelled by its SQL text.
- A non-array configuration that is a `Zend_Config` is converted with `toArray()` in Db.php and OpenId/ConsumerComponent.php. Zend_Config is not part of this model, so there such a value is treated as the non-array it is. In Cache/Abstract.php it is a `ConfigArg` (see Findings).
- DbConfig.SortByValueSortsAndPermutes: the model orders values by their string casts, byte by byte. `asort` with SORT_REGULAR compares an integer with an integer or with a numeric string as numbers, in PHP 7 and 8 alike, and two numeric strings as numbers too. So `['a' => 9, 'b' => 10]` stays `a=9;b=10` in PHP and becomes `b=10;a=9` in the model. Only values that compare as strings are ordered as PHP orders them.
- The deeper cache is not modelled as an object. The result of its `set` and the answer of its `get` are parameters of `Set`, `SetDeep`, `Get` and `GetDeep`.
- The current time (`time()`) is a parameter of `Set` and `Get`. The remark in `get` about concurrently running scripts (Cache/Object.php:91-94) is not modelled.
- `isSerializable` unsets array entries as it goes to break self references. Values in the model are finite trees, so there is no self-referencing array.
- `shuffle` (OpenId/Consumer/Discovery.php:885) and `mt_rand` (Db/Query/AlterRowAbstract.php:147) are nondeterministic choices. The model proves what holds for any permutation and for any appended letter.
- OpenIdDiscovery.AppendShuffledArray: the receiver is typed as a list, so the `is_array` test on it is not modelled; the value to append still goes through `is_array`.
- OpenIdDiscovery.Discovery.LoadDiscoveryInfo: the storage lookup is a parameter (none, or the stored URI, expiry and grouped services). Group keys are modelled as integer priorities and `last`. A non-integer priority text from a service document, and PHP 7's ordering of `last` among numbers under `ksort`, are not modelled.
- The parent constructor's storage check and the HTTP client and storage accessors of `Brvr_OpenId_ConsumerComponent` are not part of this model. `Discovery` is modelled on its own, not as a subclass.
- The OpenID protocol flows (Consumer.php, Consumer/Association.php), the rest of Discovery.php (`resolve`, XRI/Yadis requests, HTML and XRDS parsing, expiry parsing), OpenID storage, the Memcache adapters and Cache/None.php are not part of this model.

## Findings

| source | as written | input that shows it | evidently intended | confidence | as-written member | corrected member |
|---|---|---|---|---|---|---|
| Diff.php:264-269 | `empty($oldString)` / `empty($newString)` also skip a side that is the text "0" | a last-level change of "0" into "1" emits only `Insert("1")`; replaying it over "0b" gives "10" | a side is skipped only when it is the empty text | not executed | DiffEngine.ChangeOpsAsWrittenLosesZero | DiffEngine.ChangeOpsEdits |
| Diff/Render/Text.php:94-97 | `$op->getFromLen` is read as a property, which is null, so the offset never moves past a Copy | replaying `[Copy(1), Insert("X"), Copy(1)]` over "ab" gives "aXa" | `$op->getFromLen()` advances by the Copy's length, giving "aXb" | not executed | DiffRenderText.CopyNeverAdvancesAsWritten | DiffRenderText.ReplayForward |
| Diff/Op/Replace.php:75-78 | `getToLen()` reads the undeclared property `__to` | any Replace, e.g. of "a" by "b", has no to-length | the Insert part's length, the length of the inserted text | not executed | DiffOp.ReplaceToLenAsWrittenFails | DiffOp.Replace.GetToLen |
| Diff/Render/Unified.php:397-407 | each range already carries a `-` and the template adds its own sign | a one-line hunk gets the header `@@ --1 +-1 @@` | `@@ -1 +1 @@`, one sign per range | not executed | DiffRenderUnified.HunkHeaderDoubledSigns | DiffRenderUnified.HunkHeaderOneLine |
| Diff/Render/Unified.php:315-327 | on a newline the search steps back one more character, past the newline ending the line above | offset 2 of "a\n\n" (the empty second line) gives 0 | 2, the start of the empty line itself | not executed | DiffRenderUnified.CurrentLineStartEmptyLine | DiffRenderUnified.CurrentLineStart |
| Db/Query/Insert.php:154-156 | the loose `switch` matches an unset (null) priority with `DELAYED_PRIORITY`, which is 0 | an insert with no priority set starts `INSERT DELAYED ` | no priority keyword while no priority is set | not executed | DbInsert.UnsetPriorityIsDelayed | DbInsert.PriorityKeyword |
| Db/Query/Delete.php:178-179 | the message is passed in two pieces, so the second lands in the integer `$code` of `Exception::__construct` | deleting with no table set raises a type error about `$code` (an Error in PHP 7 as well), not the query exception | one argument, "The table to delete from has not been set" | not executed | DbDelete.MissingTableAsWrittenIsTypeError | DbDelete.Delete.Prepare |
| Cache/Abstract.php:92-93 | a `Zend_Config` is converted through `$config`, a name `setConfig($params)` never defines | any `Zend_Config` configuration: the call `toArray()` on null raises an Error | `$params->toArray()`, the configuration's own array | not executed | Cache.ZendConfigAsWrittenFails | Cache.ObjectCache.SetConfig |
