# take-notes core in Dafny

This project models the core of take-notes, a small markdown-like note editor.
The core covers four things:

- **The markup parser** (`markup.cpp`). A recursive-descent scanner turns the
  buffer's bytes into a flat token stream of line breaks and formatted runs.
  It recognises `**bold**`, `*italic*` and `/italic/`. A construct that meets
  a line break before its closer is rewound to plain text. A construct nested
  inside another merges its format bits into the outer run.
- **The UTF-8 helpers and the CRLF rewrite** (`utility.cpp`).
  `utf8_next_len` and `utf8_prev_len` step over one codepoint. The loop of
  `read_file_text` turns every `"\r\n"` into `"\n"`.
- **The editor state machine** (`editor.cpp`, `editor.hpp`). This is
  `Editor::event` with each of its handlers: text input with auto-pairing,
  Backspace, Return, the cursor keys with Shift and Ctrl, Tab, the Ctrl
  shortcuts, the mouse wheel and the mouse button. It also covers
  `normalize_cursor`, `reparse`, `set_text` and `get_hovered_token`.
  Each event is a pure function from one editor state to the next. The
  clipboard is a parameter of paste and an output of copy and cut.
- **The table layout pass of the renderer** (`editor.cpp`). When the
  renderer meets a table, it collects the table's cells row by row. It then
  decides whether all rows have the same number of cells, measures each
  column's widest cell, and computes the padding of every cell.

Text is a sequence of bytes (`bv8`), because the source works on byte offsets
into a `std::string`. `size_t` arithmetic is written out modulo 2^64 where it
can wrap: the `row_start` shift of `normalize_cursor`, the wheel's increment,
and the table padding subtraction.

Modules follow the source:

- `Bytes`, `Utf8` and `TextFile` model `utility.cpp` and the `std::string`
  operations the editor uses.
- `Markup` models `markup.cpp`, and `MarkupFacts` holds its properties and
  worked examples.
- `Motion` holds the byte scans behind the cursor keys.
- `Editor` models the state machine. Its properties are in `MotionFacts`,
  `EditorFacts` and `NavigationFacts`.
- `TableLayout` models the table scan and layout.

`markup.hpp` declares more parse functions than `markup.cpp` defines:
strike, head, list, image, table, line-begin, code, wrapped and line-wide.
The header also declares other return types, such as `std::vector<Token>`
where the implementation returns a `Token`. The model follows `markup.cpp`.
So the parser only ever produces `NewLine` tokens and runs whose format is
made of the Bold and Italic bits. The editor and the table pass still handle
every format, as the source does.

## Model

| member | source | states |
|---|---|---|
| Bytes.SizeAdd | src/editor.cpp:942-943 | the `size_t` sum never exceeds `SIZE_MAX`; it is the true sum whenever that fits, and it wraps to the sum less `SIZE_MAX + 1` when two in-range operands overflow |
| Bytes.SizeSub | src/editor.cpp:694 | the `size_t` difference is the true difference when it is non-negative and wraps to 2^64 minus the shortfall otherwise |
| Utf8.NextLen | src/utility.cpp:7-20 | 0 exactly at or past the end; otherwise between 1 and 4, the length the lead byte announces under the byte ranges of RFC 3629, and 1 for a continuation byte or 0xF8-0xFF |
| Utf8.PrevLen | src/utility.cpp:22-33 | 0 at offset 0; otherwise the distance back to the nearest byte that is not a continuation byte, with only continuation bytes in between, or the whole prefix when there is none |
| Utf8.NextFromBoundary | src/utility.cpp:7-20 | on well-formed text a forward step from a codepoint boundary stays inside the text and lands on the next boundary |
| Utf8.PrevToBoundary | src/utility.cpp:22-33 | on well-formed text a backward step from any offset lands on a codepoint boundary |
| Utf8.PrevUndoesNext | src/utility.cpp:7-33 | on well-formed text, stepping back from the end of the codepoint just stepped over spans exactly that codepoint |
| Utf8.NextUndoesPrev | src/utility.cpp:7-33 | on well-formed text, stepping forward from where a backward step landed spans exactly the codepoint stepped back over |
| TextFile.FindCrlf | src/utility.cpp:56 | the first `"\r\n"` at or after the start offset, or none when there is none |
| TextFile.ReplaceCrlf | src/utility.cpp:55-58 | the rewritten text equals the left-to-right reference rewrite, and is shorter by exactly the number of pairs |
| TextFile.NoCrlfUnchanged | src/utility.cpp:55-58 | text without a `"\r\n"` pair is returned unchanged |
| TextFile.NormalizedLength | src/utility.cpp:55-58 | each replaced pair shortens the text by exactly one byte |
| TextFile.DoubleReturn | src/utility.cpp:55-58 | because the scan resumes after the new `\n`, `"\r\r\n"` becomes `"\r\n"`, and a second pass would change it again |
| Markup.NewParser | src/markup.hpp:33-50 | a new parser holds its input, with cursor 0 and no tokens |
| Markup.Match | src/markup.cpp:16-25 | succeeds exactly when the pattern occurs at the cursor, and then advances past it; an empty pattern at cursor 0 never matches, because of the `size_t` wrap |
| Markup.ParsePlain | src/markup.cpp:69-77 | a format-0 run of exactly the bytes up to the first `*`, `/` or `\n`, or up to the end |
| Markup.Parse | src/markup.cpp:79-93 | consumes at least one byte, and its token's text is exactly the bytes consumed; the token is a `NewLine` exactly when the input there is `\n`, and a run otherwise, with no `\n` and only Bold and Italic bits |
| Markup.ParseBold | src/markup.cpp:29-47 | after an opening `**`, either a run closed by `**` or ended by the end of input that keeps the Bold bit, or a plain run of `**` and the following plain text; its value is exactly the bytes consumed from the opener |
| Markup.ParseItalic | src/markup.cpp:49-67 | the same for an opening `/` or `*` and the Italic bit |
| Markup.Delimited | src/markup.cpp:33-46 | each loop iteration keeps the formats merged so far; the loop ends closed, ended or rewound, with the value exactly the bytes consumed |
| Markup.RunParseAll | src/markup.cpp:95-99 | the loop runs to the end of the input, keeps the tokens already present, and appends tokens that spell out the rest of the input |
| Markup.ParseAll | src/markup.cpp:95-99 | the token texts of the whole stream concatenate to exactly the input, and every token is one the parser can produce |
| MarkupFacts.FormatBitsDistinct | src/markup.hpp:7-18 | `Plain` is 0 and every other named format is its own single bit; Bold and Italic share no bit with the rest |
| MarkupFacts.PlainAtStopIsFresh | src/markup.cpp:69-77 | at a special byte or at the end, `parse_plain` returns a fresh empty string of format 0 without moving |
| MarkupFacts.MatchFailsAtHead | src/markup.cpp:19-21 | a pattern whose first byte differs from the input never matches |
| MarkupFacts.ParseOpensBold | src/markup.cpp:80-82 | `**` is tried first and opens a bold construct |
| MarkupFacts.ParseOpensSlash | src/markup.cpp:83-85 | `/` opens a slash italic construct |
| MarkupFacts.ParseOpensStar | src/markup.cpp:86-88 | a lone `*` opens a star italic construct |
| MarkupFacts.ParseBreaksLine | src/markup.cpp:89-91 | `\n` becomes a `NewLine` token of one byte |
| MarkupFacts.ParseReadsPlain | src/markup.cpp:92 | any other byte starts a format-0 run up to the next special byte or the end |
| MarkupFacts.LoopAtEnd | src/markup.cpp:45-46 | at the end of input the construct is ended with the bits merged so far |
| MarkupFacts.LoopCloses | src/markup.cpp:33 | the delimiter at the loop cursor closes the construct and is kept in its value |
| MarkupFacts.LoopRewinds | src/markup.cpp:35-39 | a line break met inside the construct rewinds it to the opener plus the plain run after it |
| MarkupFacts.LoopSkipsPlain | src/markup.cpp:34-43 | a plain run inside the construct is skipped without changing the merged bits |
| MarkupFacts.LoopSkipsNested | src/markup.cpp:40-43 | a nested construct is skipped, and its format bits are merged into the outer run |
| MarkupFacts.NoBreakNoRewind | src/markup.cpp:33-46 | a construct that meets no line break keeps every format bit it started with |
| MarkupFacts.RewindNeedsBreak | src/markup.cpp:35-39 | a construct that comes back as format 0 met a line break after the loop cursor |
| MarkupFacts.BreaksAreNewLines | src/markup.cpp:89-91 | in a stream of parser tokens, the `NewLine` tokens are exactly the `\n` bytes of their text |
| MarkupFacts.NewLinesOfParseAll | src/markup.cpp:95-99 | `parse_all` yields exactly one `NewLine` per `\n` of the input |
| MarkupFacts.ExampleBoldRewinds | src/markup.cpp:29-47 | `**bold\nmore` parses as the plain runs `**bold` and `more` around a `NewLine` |
| MarkupFacts.ExampleNestedRewind | src/markup.cpp:29-67 | in `**a/b\n`, the rewound bold discards its scan, and `/b` is read again as its own plain run |
| MarkupFacts.ExampleNested | src/markup.cpp:29-67 | in `**a*b**` the inner italic takes the first closing star, so the whole text is one Bold and Italic run ended by the end of input |
| MarkupFacts.ExampleTripleStar | src/markup.cpp:79-88 | `***x` opens bold before italic and becomes one Bold and Italic run |
| MarkupFacts.ExampleUnterminated | src/markup.cpp:33-46 | `**abc` stays a Bold run at the end of input |
| MarkupFacts.BoldToEnd | src/markup.cpp:29-47 | `**` followed by plain text up to the end of input is one Bold run of the whole input |
| Motion.StopsAreAscii | src/editor.cpp:44-47 | every Ctrl word stop is a single ASCII byte |
| Motion.BackspaceScan | src/editor.cpp:134-143 | Ctrl+Backspace starts deleting strictly before the cursor, at 0 or at a word stop; any stop byte it crossed was inside a multi-byte segment |
| Motion.LeftWordScan | src/editor.cpp:183-194 | Ctrl+Left stops at 0, on a word stop or just after a line break; it crosses no `\n` or stop byte except inside a multi-byte segment |
| Motion.RightWordScan | src/editor.cpp:213-224 | Ctrl+Right moves past its first segment, and stops before a later `\n` or just after a word stop; on malformed text it can overshoot the end by at most three bytes |
| Motion.Columns | src/editor.cpp:251-255 | the column count of a byte range is at most its length, and 0 for an empty range |
| Motion.Advance | src/editor.cpp:272-274 | advancing never moves backwards and does not move from the end |
| Motion.LineStart | src/editor.cpp:244-249 | the line start is at or before the offset, just after a `\n`, with no `\n` between it and the offset |
| Motion.LineEnd | src/editor.cpp:305-307 | the line end is at or after the offset, on a `\n` or at the end of the text, with no `\n` between them |
| MotionFacts.AdvanceWithin | src/editor.cpp:265-274 | between two boundaries, advancing `k` codepoints, for `k` up to the range's column count, lands on a boundary inside the range exactly `k` columns in |
| MotionFacts.AdvanceToEnd | src/editor.cpp:265-274 | advancing by the full column count of a range lands exactly on its end |
| MotionFacts.LineBoundaries | src/editor.cpp:244-249 | on well-formed text, line starts and line ends are codepoint boundaries |
| MotionFacts.LeftScanBoundary | src/editor.cpp:183-194 | on well-formed text Ctrl+Left stops on a codepoint boundary |
| MotionFacts.LeftScanCrossing | src/editor.cpp:183-194 | on well-formed text Ctrl+Left crosses no line break except the byte before the cursor, and crosses a stop only as its last codepoint |
| MotionFacts.RightScanBoundary | src/editor.cpp:213-224 | on well-formed text Ctrl+Right stops on a codepoint boundary |
| MotionFacts.RightScanNoBreak | src/editor.cpp:213-224 | on well-formed text Ctrl+Right stays in the text and crosses no line break after its first codepoint |
| MotionFacts.RightScanNoStop | src/editor.cpp:213-224 | on well-formed text Ctrl+Right crosses a word stop only as its last byte |
| Editor.NewEditor | src/editor.hpp:13-26 | a new editor is empty and unfocused, in Insert mode at offset 0, with `row_max` `SIZE_MAX` |
| Editor.NormalizeCursor | src/editor.cpp:937-947 | the cursor is clamped to the text; `row_start` becomes exactly the cursor's row when that row is above it, is kept when the row lies between `row_start` and `row_max`, is shifted by the excess past `row_max` with `size_t` wrap-around, and nothing else changes |
| Editor.Reparse | src/editor.cpp:863-868 | the token stream becomes the parse of the text, and nothing else changes |
| Editor.Selected | src/editor.cpp:357-363 | the selected bytes are exactly those between the lower and upper end of the selection, clipped to the text |
| Editor.Erase | src/editor.cpp:22-26 | the removed bytes are exactly the gap at the new cursor, and the rest of the text is kept in order |
| Editor.SelectEraseExit | src/editor.cpp:21-30 | the selection is cut out and the cursor sits in the gap it left; the editor is back in Insert mode |
| Editor.LeaveSelect | src/editor.cpp:69-71 | a selection is erased first, and in Insert mode nothing changes |
| Editor.HoverFrom | src/editor.cpp:951-962 | the scan from token `i` finds the first token whose running end reaches the cursor, or reports that none does |
| Editor.HoveredIndex | src/editor.cpp:949-962 | the hovered index is the first token whose running end reaches the cursor; when there is none, every running end is short of it |
| Editor.HoveredToken | src/editor.cpp:949-964 | the hovered token is the one whose span covers the cursor when there is one, the last token when the cursor is past them all, and `NewLine` for an empty stream |
| Editor.Typed | src/editor.cpp:119-121 | the typed bytes are spliced in at the cursor, which moves into them; the tokens are reparsed |
| Editor.DashIsHyphenAsWritten | src/editor.cpp:101 | the test reads outside the string exactly when the text is non-empty and the cursor is 0; otherwise it agrees with the corrected test |
| Editor.AutoPair | src/editor.cpp:85-119 | `*`, `/`, `~` and `[` insert their pair with the cursor between; `-` becomes a bullet at a line start and a hyphen elsewhere, judged by the corrected test of the dash finding below (`Editor.DashIsHyphen`), not the out-of-bounds test as written; anything else is inserted verbatim |
| Editor.InputTyping | src/editor.cpp:73-84 | inside a Code token of the stale stream, or after a backslash, input is verbatim; otherwise it is auto-paired |
| Editor.TextInput | src/editor.cpp:68-122 | after leaving Select mode, the typing is spliced in at the cursor; the mode is Insert, the stream is reparsed and the bounds are kept |
| Editor.ShiftMode | src/editor.cpp:174-181 | Shift starts a selection anchored at the old cursor or extends the current one; no Shift leaves Select mode |
| Editor.MoveTo | src/editor.cpp:198-199 | only the cursor moves and is clamped to the text; `row_start` stays a `size_t`, and whenever the cursor's row is at most `row_max`, `row_start` is at most that row, so the view does not start past the cursor |
| Editor.JumpTo | src/editor.cpp:246-247 | only the cursor moves, and `row_start` is untouched |
| Editor.Backspace | src/editor.cpp:125-151 | a selection is erased; at 0 nothing happens; otherwise exactly the bytes between the delete point and the cursor are removed, the cursor goes to the delete point, and the bounds are kept |
| Editor.DeleteFrom | src/editor.cpp:133-147 | the delete point is before the cursor: one codepoint back, or with Ctrl the word scan's stop |
| Editor.Return | src/editor.cpp:152-170 | a line break is inserted, continued by a tab in Code or a bullet in List, judged by the stale token under the new cursor; the stream is reparsed and the bounds are kept |
| Editor.Left | src/editor.cpp:171-200 | nothing at 0; otherwise the cursor moves back one codepoint, or over a word with Ctrl, and only the motion fields change |
| Editor.Right | src/editor.cpp:201-230 | nothing at the end; otherwise the cursor moves forward one codepoint, or over a word with Ctrl, clamped to the text |
| Editor.PrevLineStart | src/editor.cpp:257-263 | the previous line's start as computed from its end; a previous line ending at offset 0 is taken to start at 1 |
| Editor.Up | src/editor.cpp:231-278 | nothing at 0; from the first line, to 0 without normalizing; otherwise to the cursor's codepoint column in the previous line, clamped to that line's column count |
| Editor.Down | src/editor.cpp:280-332 | nothing at the end; from the last line, to the end without normalizing; otherwise to the cursor's codepoint column in the next line, clamped to that line's column count |
| Editor.Home | src/editor.cpp:398-420 | Ctrl goes to 0; otherwise the cursor goes to its line start, and at offset 0 to 1 when the text starts with `\n` |
| Editor.End | src/editor.cpp:422-442 | Ctrl goes to the end of the text; otherwise the cursor goes to its line end |
| Editor.Tab | src/editor.cpp:333-340 | after leaving Select mode, a tab is inserted at the cursor without normalizing |
| Editor.Paste | src/editor.cpp:341-354 | after leaving Select mode, the clipboard is inserted at the cursor and the cursor moves past it |
| Editor.Copy | src/editor.cpp:355-369 | in Select mode the selection goes to the clipboard and the cursor goes to the anchor in Insert mode; in Insert mode nothing happens |
| Editor.Cut | src/editor.cpp:370-384 | in Select mode the selection goes to the clipboard and is then erased; in Insert mode nothing happens |
| Editor.SelectAll | src/editor.cpp:385-391 | the whole text is selected, anchored at 0 with the cursor at the end |
| Editor.Wheel | src/editor.cpp:50-57 | wheel up scrolls one row up but not past 0; wheel down scrolls one row down, in `size_t` |
| Editor.MouseDown | src/editor.cpp:58-61 | a button press leaves Select mode and changes nothing else |
| Editor.EditKey | src/editor.cpp:125-170 | Backspace, Return and Tab keep the bounds, and whenever they change the text they leave the stream in step with it |
| Editor.CursorKey | src/editor.cpp:171-332 | the cursor keys never change the text or the tokens, and keep the bounds |
| Editor.ShortcutKey | src/editor.cpp:341-391 | only copy and cut in Select mode fill the clipboard, with the selection; every shortcut keeps the bounds and the stream in step |
| Editor.KeyEvent | src/editor.cpp:123-446 | V, C, X and A leave the editor unchanged without Ctrl, and S and unhandled keys change nothing; only Ctrl+C and Ctrl+X in select mode copy, and they copy the selection; every key keeps the bounds and leaves the stream in step after a text change |
| Editor.Handle | src/editor.cpp:40-450 | an unfocused editor ignores every event; every event keeps the bounds and keeps the stream in step with the text; only Ctrl+C and Ctrl+X in Select mode fill the clipboard |
| Editor.SetText | src/editor.cpp:906-912 | the new text is installed and parsed, and the cursor is kept when it fits and otherwise moved to the end of the new text; the mode and the anchor are kept |
| EditorFacts.UnfocusedIgnores | src/editor.hpp:19 | a new editor is unfocused, so it ignores every event |
| EditorFacts.CutThenPaste | src/editor.cpp:341-384 | Ctrl+X then Ctrl+V restores the text, with the cursor at the upper end of the old selection |
| EditorFacts.PlainTypingIsVerbatim | src/editor.cpp:119-120 | input that is not one of the paired keys or `-` is inserted verbatim |
| EditorFacts.TypedCodepointIsPrev | src/utility.cpp:22-33 | stepping back from just after an inserted codepoint spans exactly that codepoint |
| EditorFacts.BackspaceAfterCodepoint | src/editor.cpp:144-148 | plain Backspace just after a whole codepoint deletes exactly that codepoint |
| EditorFacts.TextInputInsert | src/editor.cpp:68-122 | in Insert mode, text input splices its typing in at the cursor |
| EditorFacts.VerbatimTyped | src/editor.cpp:119-121 | input that is not paired and not `-` is spliced in verbatim, and the cursor moves past it |
| EditorFacts.TypeThenBackspace | src/editor.cpp:68-151 | typing one codepoint that is not auto-paired, then Backspace, restores the text and the cursor |
| EditorFacts.BackspaceUndoesInsert | src/editor.cpp:144-148 | Backspace right after a codepoint inserted at an offset restores the text and the offset |
| EditorFacts.StarTyped | src/editor.cpp:85-89 | a typed `*` outside Code and not after a backslash inserts `**` with the cursor between |
| EditorFacts.StarThenBackspace | src/editor.cpp:85-151 | Backspace after an auto-paired `*` leaves the closing star behind |
| EditorFacts.ShapedIsNotCodeOrList | src/markup.cpp:29-93 | no token the parser produces carries the Code or List bit |
| EditorFacts.ParsedHoverIsPlainish | src/editor.cpp:949-964 | on a parsed stream the hovered token is never Code or List |
| EditorFacts.ReturnOnParsedText | src/editor.cpp:156-167 | on an editor whose stream is the parse of its text, Return inserts a bare line break |
| EditorFacts.TypingOnParsedText | src/editor.cpp:73-84 | on a parsed stream, input is auto-paired unless it follows a backslash |
| EditorFacts.ReachIsLength | src/editor.cpp:951-958 | without images, the running index after `k` tokens is the byte length of their text |
| EditorFacts.HoveredSpansCursor | src/editor.cpp:949-962 | on a parsed stream, for a cursor inside the text, the scan finds the token whose bytes reach the cursor while the bytes before it end short of it |
| EditorFacts.NormalizeSettles | src/editor.cpp:937-947 | normalizing twice is normalizing once while the cursor's row is within `row_max` |
| EditorFacts.NormalizeNeverScrollsForward | src/editor.cpp:942-946 | with `row_max` at its initial `SIZE_MAX`, normalizing never moves `row_start` forward |
| EditorFacts.DashAtTextStart | src/editor.cpp:101 | typing `-` at offset 0 of the text "a" reads outside the string as written; the corrected test inserts a bullet |
| EditorFacts.DashBulletAtLineStart | src/editor.cpp:100-111 | with the corrected test, a typed `-` becomes a bullet exactly at a line start (offset 0 or after a line break) and a hyphen exactly elsewhere; where the test as written stays inside the string, it agrees |
| NavigationFacts.LeftKeepsBoundary | src/editor.cpp:171-200 | on well-formed text, Left keeps the cursor on a codepoint boundary |
| NavigationFacts.RightKeepsBoundary | src/editor.cpp:201-230 | on well-formed text, Right keeps the cursor on a codepoint boundary |
| NavigationFacts.UpKeepsBoundary | src/editor.cpp:231-278 | on well-formed text, Up keeps the cursor on a codepoint boundary |
| NavigationFacts.DownKeepsBoundary | src/editor.cpp:280-332 | on well-formed text, Down keeps the cursor on a codepoint boundary |
| NavigationFacts.HomeKeepsBoundary | src/editor.cpp:398-420 | on well-formed text, Home keeps the cursor on a codepoint boundary |
| NavigationFacts.EndKeepsBoundary | src/editor.cpp:422-442 | on well-formed text, End keeps the cursor on a codepoint boundary |
| NavigationFacts.CursorKeysKeepBoundary | src/editor.cpp:171-442 | every cursor key, with any modifiers, keeps the cursor of well-formed text on a codepoint boundary |
| NavigationFacts.UpLandsOnPreviousLine | src/editor.cpp:244-276 | below the second line, Up lands on the previous line, on a boundary, at the old codepoint column clamped to that line's column count |
| NavigationFacts.NextLineColumn | src/editor.cpp:314-328 | the column target advanced from the next line's start stays in that line, on a boundary, exactly that many columns in |
| NavigationFacts.DownLandsOnNextLine | src/editor.cpp:293-330 | above the last line, Down lands on the next line, on a boundary, at the old codepoint column clamped to that line's column count |
| NavigationFacts.UpBelowEmptyFirstLine | src/editor.cpp:257-263 | when the first line is empty, Up from the second line stays at offset 1 and does not reach the first line |
| NavigationFacts.DownExample | src/editor.cpp:280-332 | in "abcdef\nab\n", Down from offset 5 clamps column 5 to the two-column line "ab" and lands at offset 9 |
| TableLayout.ScanStep | src/editor.cpp:615-642 | one step of the loop stops exactly at a token that ends the table; otherwise it keeps the scan's invariants, skipping a separator run, appending any other table run to the open row, and closing a non-empty row at a line break |
| TableLayout.ScanTable | src/editor.cpp:610-645 | the scan stops at the first token that ends the table, or at the end of the tokens, and passes only line breaks and table runs; the cells read row after row are exactly the values of the passed runs other than the separator runs (a lone vertical bar), in order; no row is empty; and two consecutive cells share a row exactly when no line break lies between them |
| TableLayout.ColumnWidth | src/editor.cpp:661-665 | a column's width bounds every cell of that column and is attained by one of them |
| TableLayout.CheckRowsFinds | src/editor.cpp:647-655 | the first row sets the column count, and the table is mismatched exactly when some row has another size |
| TableLayout.LayOut | src/editor.cpp:647-666 | the column count is the first row's size; the table is mismatched exactly when the rows are not uniform; only a table that is not mismatched gets one width per column, each bounding and attained by its cells |
| TableLayout.ConcatCell | src/editor.cpp:692-693 | in rows of `n` cells each, the `m`-th cell in reading order is in column `m % n` |
| TableLayout.Gap | src/editor.cpp:694 | the padding is a `size_t` |
| TableLayout.GapFits | src/editor.cpp:690-694 | in a table that is not mismatched every cell fits its column, so the padding never wraps, and padding plus cell size is the column width |
| TableLayout.PadRows | src/editor.cpp:647-694 | a mismatched table gets no padding; otherwise every cell in reading order gets the padding that fills it to its column's width |
| TableLayout.PadCells | src/editor.cpp:610-694 | the whole pass from the table's first token: its rows and cells are the result of the scan, with every promise of `ScanTable`; the `m`-th padding plus the size of the token `table_elems[m]` is the width of column `m % col_count` |
| TableLayout.RowSplitExample | src/editor.cpp:615-645 | for the table runs a, a lone vertical bar, b, then a line break and c, the rows (a, b) and (c) with cells at 0, 2 and 4 meet every promise of the scan |
| TableLayout.RowSplitExampleRejects | src/editor.cpp:615-645 | for the same runs, three one-cell rows break the scan's promise, because `a` and `b` have no line break between them |
| TableLayout.RowSplitMismatched | src/editor.cpp:647-656 | the rows (a, b) and (c) of that table are mismatched |
| TableLayout.LayOutExample | src/editor.cpp:647-694 | rows (a, bb) and (ccc, d) give two columns of widths 3 and 2, and the first cell is padded by 2 |
| TableLayout.MismatchExample | src/editor.cpp:647-656 | a second row with one cell fewer makes the table mismatched, with no column widths |

## Left out

- Rendering is left out: drawing with ImGui, font measurement, heading sizes (`apply_head`), word wrapping, images and the `in_table` render flag. Of the renderer only the table layout pass is modelled. The renderer calls it from the token walk; the model calls it with the table's first token index.
- Placing the cursor by mouse hit-testing (`do_cursor_choose`, `choose_x`, `choose_y`) is left out. It depends on the rendered geometry, so `MouseDown` models only the change of mode.
- File I/O is left out: `read_file_text` and `read_file_binary` beyond the CRLF loop, `save` (Ctrl+S), the save dialog, error messages, the window title and `update_imgs`. `TextFile.ReplaceCrlf` takes the contents already read.
- SDL and ImGui calls are left out. The clipboard is a parameter of `Editor.Handle`, and copy and cut return the copied bytes. `SDL_GetClipboardText` stops at the first NUL byte; the model takes the clipboard bytes as given. `SDL_SetClipboardText` (src/editor.cpp:364, 379) likewise stops at the first NUL byte, so the cut-then-paste round trip of `EditorFacts.CutThenPaste` holds in the source only for selections without a NUL byte.
- The parse functions that `markup.hpp` declares but `markup.cpp` does not define are left out, because they have no body to model.
- Editor.SetText: keeps the mode and the anchor as the source does, so a selection anchor past the new text's end can break `Valid`. Its contract therefore does not promise `Valid`.
- Editor.HoveredToken: names the covering token through `HoveredIndex`; that this index is the first whose span reaches past the cursor is stated by `EditorFacts.HoveredSpansCursor`.
- TableLayout.Gap: states only that the padding is a `size_t`; `TableLayout.GapFits` states its value on a table that is not mismatched.
- The `size_t` width of the cursor and of offsets is not modelled: a `std::string` cannot reach 2^64 bytes, so offsets never wrap. Only `row_start` and the table padding are modelled modulo 2^64.

## Findings

| source | as written | input that shows it | evidently intended | confidence | as-written member | corrected member |
|---|---|---|---|---|---|---|
| src/editor.cpp:101 | `text.size() != 0 && text[cursor - 1] != '\n'` reads `text[cursor - 1]` whenever the text is non-empty, and at cursor 0 that is an access before the start of the string | text "a", cursor 0, typing `-` (lemma `EditorFacts.DashAtTextStart`; the corrected behaviour is proved in `EditorFacts.DashBulletAtLineStart`) | test the cursor instead (`cursor != 0 && text[cursor - 1] != '\n'`), so that offset 0 counts as a line start and `-` becomes a bullet there | not executed | Editor.DashIsHyphenAsWritten | Editor.DashIsHyphen |
