/**
 * The editor of `editor.cpp` as a state machine: a record of the buffer,
 * the token stream last produced by the parser, the byte cursor, the
 * selection anchor and mode, and the first displayed row. Every input event
 * is a pure transition; the clipboard is a parameter of paste and an output
 * of copy and cut.
 */
module Editor {
  import opened Wrappers
  import opened Bytes
  import opened Utf8
  import opened Markup
  import opened Motion

  datatype Mode = Insert | Select

  /**
   * The editor state that the event handlers read and write. `tokens` is the
   * stream of the last `reparse`, which handlers consult before reparsing.
   */
  datatype Editor = Editor(
    text: seq<byte>,
    tokens: seq<Token>,
    cursor: nat,
    mode: Mode,
    anchor: nat,
    focused: bool,
    rowStart: nat,
    rowMax: nat)

  /** The state of a new editor. */
  function NewEditor(): (e: Editor)
    ensures e.text == [] && e.tokens == [] && e.cursor == 0 && e.anchor == 0 && e.mode == Insert
    ensures !e.focused && e.rowStart == 0 && e.rowMax == SIZE_MAX
  {
    Editor([], [], 0, Insert, 0, false, 0, SIZE_MAX)
  }

  /**
   * The bounds the handlers keep: the cursor inside the text, the anchor
   * inside it while selecting, and `row_start` a `size_t`.
   */
  predicate Valid(e: Editor) {
    && e.cursor <= |e.text|
    && (e.mode == Select ==> e.anchor <= |e.text|)
    && e.rowStart <= SIZE_MAX
  }

  /** The token stream is the parse of the current text. */
  predicate Synced(e: Editor) {
    e.tokens == ParseAll(e.text)
  }

  /** The row of offset `c`: the number of line breaks before it. */
  function Row(text: seq<byte>, c: nat): nat
    requires c <= |text|
  {
    Count(text[..c], NL)
  }

  /** Only the cursor and `row_start` may differ. */
  predicate SameBuffer(e: Editor, r: Editor) {
    && r.text == e.text && r.tokens == e.tokens && r.mode == e.mode
    && r.anchor == e.anchor && r.focused == e.focused && r.rowMax == e.rowMax
  }

  /**
   * `normalize_cursor`: clamp the cursor to the text, then scroll so that the
   * cursor's row is not above `row_start`, or shift `row_start` by how far
   * the row is past `row_max`.
   */
  function NormalizeCursor(e: Editor): (r: Editor)
    ensures SameBuffer(e, r)
    ensures r.cursor == if e.cursor <= |e.text| then e.cursor else |e.text|
    ensures var row := Row(r.text, r.cursor);
      && (row <= e.rowMax ==> r.rowStart <= row)
      && (row < e.rowStart && row <= e.rowMax ==> r.rowStart == row)
      && (e.rowStart <= row <= e.rowMax ==> r.rowStart == e.rowStart)
      && (row > e.rowMax ==> r.rowStart == SizeAdd(e.rowStart, row - e.rowMax))
      && (e.rowStart <= SIZE_MAX ==> r.rowStart <= SIZE_MAX)
  {
    var c := if e.cursor > |e.text| then |e.text| else e.cursor;
    var row := Row(e.text, c);
    var start :=
      if row > e.rowMax then SizeAdd(e.rowStart, row - e.rowMax)
      else if row < e.rowStart then row
      else e.rowStart;
    e.(cursor := c, rowStart := start)
  }

  /** `reparse`: the token stream becomes the parse of the text. */
  function Reparse(e: Editor): (r: Editor)
    ensures Synced(r)
    ensures r.text == e.text && r.cursor == e.cursor && r.mode == e.mode && r.anchor == e.anchor
    ensures r.focused == e.focused && r.rowStart == e.rowStart && r.rowMax == e.rowMax
  {
    e.(tokens := ParseAll(e.text))
  }

  /** Lower end of the selection. */
  function SelLo(e: Editor): nat {
    if e.anchor > e.cursor then e.cursor else e.anchor
  }

  /** Upper end of the selection, clipped to the text as `std::string` clips a count. */
  function SelHi(e: Editor): nat
    requires e.cursor <= |e.text|
  {
    if e.anchor > e.cursor then (if e.anchor <= |e.text| then e.anchor else |e.text|) else e.cursor
  }

  /** The selected bytes, as copy and cut extract them with `substr`. */
  function Selected(e: Editor): (sel: seq<byte>)
    requires e.cursor <= |e.text|
    ensures SelLo(e) <= SelHi(e) <= |e.text| && sel == e.text[SelLo(e)..SelHi(e)]
  {
    if e.anchor > e.cursor then e.text[e.cursor..SelHi(e)]
    else e.text[e.anchor..e.cursor]
  }

  /**
   * `text.erase(lo, hi - lo)` with the cursor put at `lo`: the removed
   * bytes sit exactly in the gap at the new cursor.
   */
  function Erase(e: Editor, lo: nat, hi: nat): (r: Editor)
    requires lo <= hi <= |e.text|
    ensures r.text == e.text[..lo] + e.text[hi..]
    ensures r.cursor == lo <= |r.text| && |r.text| == |e.text| - (hi - lo)
    ensures e.text == r.text[..lo] + e.text[lo..hi] + r.text[lo..]
    ensures r.tokens == e.tokens && r.mode == e.mode && r.anchor == e.anchor
    ensures r.focused == e.focused && r.rowStart == e.rowStart && r.rowMax == e.rowMax
  {
    var text := e.text[..lo] + e.text[hi..];
    assert text[..lo] == e.text[..lo] && text[lo..] == e.text[hi..];
    assert e.text == e.text[..lo] + e.text[lo..hi] + e.text[hi..];
    e.(text := text, cursor := lo)
  }

  /**
   * `select_erase_exit`: erase the selection, leave the cursor where it
   * was, and return to Insert mode. The removed bytes are exactly the
   * selection and the cursor sits in the gap they left.
   */
  function SelectEraseExit(e: Editor): (r: Editor)
    requires e.cursor <= |e.text|
    ensures r.cursor == SelLo(e) <= |r.text|
    ensures e.text == r.text[..r.cursor] + Selected(e) + r.text[r.cursor..]
    ensures r.mode == Insert && r.tokens == e.tokens && r.anchor == e.anchor && r.focused == e.focused
    ensures r.rowMax == e.rowMax && (e.rowStart <= SIZE_MAX ==> r.rowStart <= SIZE_MAX)
  {
    NormalizeCursor(Erase(e, SelLo(e), SelHi(e)).(mode := Insert))
  }

  /** Leave Select mode first when selecting (`if (mode == Select) select_erase_exit()`). */
  function LeaveSelect(e: Editor): (r: Editor)
    requires e.cursor <= |e.text|
    ensures r.cursor <= |r.text| && r.mode == Insert && r.tokens == e.tokens && r.focused == e.focused
    ensures r.rowMax == e.rowMax && (e.rowStart <= SIZE_MAX ==> r.rowStart <= SIZE_MAX)
    ensures e.mode == Insert ==> r == e
  {
    if e.mode.Select? then SelectEraseExit(e) else e
  }

  /** How much a token advances `get_hovered_token`'s running index. */
  function LogicalLen(t: Token): nat {
    match t
    case NewLine => 1
    case FormattedString(_, v) => |v|
    case Image(_) => 0
  }

  /** The running index after the first `k` tokens. */
  function Reach(ts: seq<Token>, k: nat): nat
    requires k <= |ts|
  {
    if k == 0 then 0 else Reach(ts, k - 1) + LogicalLen(ts[k - 1])
  }

  /** The loop of `get_hovered_token` from token `i` on, with `idx` the running index. */
  function HoverFrom(ts: seq<Token>, cursor: nat, i: nat, idx: nat): (r: Option<nat>)
    requires i <= |ts| && idx == Reach(ts, i)
    ensures r.Some? ==> i <= r.value < |ts| && Reach(ts, r.value + 1) >= cursor
    ensures r.Some? ==> forall j :: i < j <= r.value ==> Reach(ts, j) < cursor
    ensures r.None? ==> forall j :: i < j <= |ts| ==> Reach(ts, j) < cursor
    decreases |ts| - i
  {
    if i == |ts| then None
    else
      var idx' := idx + LogicalLen(ts[i]);
      if idx' >= cursor then Some(i) else HoverFrom(ts, cursor, i + 1, idx')
  }

  /**
   * Index of the hovered token: the first whose running end reaches the
   * cursor, if any.
   */
  function HoveredIndex(ts: seq<Token>, cursor: nat): (r: Option<nat>)
    ensures r.Some? ==> r.value < |ts| && Reach(ts, r.value + 1) >= cursor
    ensures r.Some? ==> forall j :: 0 < j <= r.value ==> Reach(ts, j) < cursor
    ensures r.None? ==> forall j :: 0 < j <= |ts| ==> Reach(ts, j) < cursor
  {
    HoverFrom(ts, cursor, 0, 0)
  }

  /**
   * `get_hovered_token`: the token found by the scan, else the last token,
   * else a `NewLine` for an empty stream.
   */
  function HoveredToken(ts: seq<Token>, cursor: nat): (t: Token)
    ensures |ts| == 0 ==> t == NewLine
    ensures |ts| > 0 ==> t in ts
    ensures HoveredIndex(ts, cursor).Some? ==> t == ts[HoveredIndex(ts, cursor).value]
    ensures |ts| > 0 && HoveredIndex(ts, cursor).None? ==> t == ts[|ts| - 1]
  {
    match HoveredIndex(ts, cursor)
    case Some(k) => ts[k]
    case None => if |ts| == 0 then NewLine else ts[|ts| - 1]
  }

  /** A token carrying the given format bit. */
  predicate HasFormat(t: Token, f: Format) {
    t.FormattedString? && t.format & f != 0
  }

  /** Splice `ins` in at the cursor, advance the cursor by `adv` and reparse. */
  function Typed(e: Editor, ins: seq<byte>, adv: nat): (r: Editor)
    requires e.cursor <= |e.text| && adv <= |ins|
    ensures r.text == e.text[..e.cursor] + ins + e.text[e.cursor..]
    ensures r.cursor == e.cursor + adv <= |r.text|
    ensures Synced(r) && r.mode == e.mode && r.anchor == e.anchor && r.focused == e.focused
    ensures r.rowStart == e.rowStart && r.rowMax == e.rowMax
  {
    Reparse(e.(text := Splice(e.text, e.cursor, ins), cursor := e.cursor + adv))
  }

  /** The codepoint before the cursor is a backslash. */
  predicate AfterBackslash(text: seq<byte>, c: nat)
    requires c <= |text|
  {
    c > 0 && text[c - PrevLen(text, c)..c] == [BACKSLASH]
  }

  /**
   * The test that turns a typed `-` into a plain hyphen rather than a
   * bullet, with the cursor at 0 counted as a line start.
   */
  predicate DashIsHyphen(text: seq<byte>, c: nat)
    requires c <= |text|
  {
    |text| != 0 && c > 0 && text[c - 1] != NL
  }

  /**
   * The same test as written: `text[cursor - 1]` is read whenever the text
   * is not empty, which at cursor 0 is outside the string (`None`).
   */
  function DashIsHyphenAsWritten(text: seq<byte>, c: nat): (r: Option<bool>)
    requires c <= |text|
    ensures r.None? <==> |text| != 0 && c == 0
    ensures r.Some? ==> r.value == DashIsHyphen(text, c)
  {
    if |text| != 0 then
      if c == 0 then None else Some(text[c - 1] != NL)
    else Some(false)
  }

  /** The bytes a typed string becomes, and how far the cursor moves into them. */
  datatype Typing = Typing(ins: seq<byte>, adv: nat)

  /**
   * Auto-pairing of text input outside a Code token and not after a
   * backslash: `*`, `/`, `~` and `[` insert a pair with the cursor between,
   * `-` becomes a bullet at a line start, anything else is kept verbatim.
   */
  function AutoPair(text: seq<byte>, c: nat, inp: seq<byte>): (t: Typing)
    requires c <= |text|
    ensures t.adv <= |t.ins|
    ensures inp == [STAR] ==> t == Typing([STAR, STAR], 1)
    ensures inp == [SLASH] ==> t == Typing([SLASH, SLASH], 1)
    ensures inp == [TILDE] ==> t == Typing([TILDE, TILDE], 1)
    ensures inp == [LBRACKET] ==> t == Typing([LBRACKET, RBRACKET], 1)
    ensures inp == [DASH] ==> t == if DashIsHyphen(text, c) then Typing([DASH], 1) else Typing(BULLET, 3)
    ensures inp !in {[STAR], [SLASH], [TILDE], [LBRACKET], [DASH]} ==> t == Typing(inp, |inp|)
  {
    if inp == [STAR] then Typing([STAR, STAR], 1)
    else if inp == [SLASH] then Typing([SLASH, SLASH], 1)
    else if inp == [TILDE] then Typing([TILDE, TILDE], 1)
    else if inp == [DASH] then (if DashIsHyphen(text, c) then Typing([DASH], 1) else Typing(BULLET, 3))
    else if inp == [LBRACKET] then Typing([LBRACKET, RBRACKET], 1)
    else Typing(inp, |inp|)
  }

  /**
   * What a typed string becomes at the cursor: verbatim inside a Code token
   * (judged by the stale token stream) or right after a backslash,
   * otherwise auto-paired.
   */
  function InputTyping(e: Editor, inp: seq<byte>): (t: Typing)
    requires e.cursor <= |e.text|
    ensures t.adv <= |t.ins|
    ensures HasFormat(HoveredToken(e.tokens, e.cursor), Code) || AfterBackslash(e.text, e.cursor) ==> t == Typing(inp, |inp|)
    ensures !HasFormat(HoveredToken(e.tokens, e.cursor), Code) && !AfterBackslash(e.text, e.cursor) ==> t == AutoPair(e.text, e.cursor, inp)
  {
    if HasFormat(HoveredToken(e.tokens, e.cursor), Code) || AfterBackslash(e.text, e.cursor)
    then Typing(inp, |inp|)
    else AutoPair(e.text, e.cursor, inp)
  }

  /**
   * A text-input event: leave Select mode, then splice the typed bytes in
   * at the cursor and reparse. The cursor is not normalized.
   */
  function TextInput(e: Editor, inp: seq<byte>): (r: Editor)
    requires e.cursor <= |e.text|
    ensures var e1 := LeaveSelect(e);
      var t := InputTyping(e1, inp);
      && r.text == e1.text[..e1.cursor] + t.ins + e1.text[e1.cursor..]
      && r.cursor == e1.cursor + t.adv <= |r.text|
      && r.mode == Insert && Synced(r) && r.focused == e.focused
      && r.rowStart == e1.rowStart && r.rowMax == e.rowMax
    ensures Valid(e) ==> Valid(r)
  {
    var e1 := LeaveSelect(e);
    var t := InputTyping(e1, inp);
    Typed(e1, t.ins, t.adv)
  }

  /** Shift extends or starts a selection anchored at the old cursor; no Shift leaves Select mode. */
  function ShiftMode(e: Editor, shift: bool): (r: Editor)
    ensures r.text == e.text && r.tokens == e.tokens && r.cursor == e.cursor && r.focused == e.focused
    ensures r.rowStart == e.rowStart && r.rowMax == e.rowMax
    ensures shift && e.mode == Insert ==> r.mode == Select && r.anchor == e.cursor
    ensures shift && e.mode == Select ==> r.mode == Select && r.anchor == e.anchor
    ensures !shift ==> r.mode == Insert && r.anchor == e.anchor
  {
    if shift then
      if e.mode.Insert? then e.(mode := Select, anchor := e.cursor)
      else e
    else e.(mode := Insert)
  }

  /** A cursor motion: only the cursor, `row_start` and the Shift-driven mode and anchor change. */
  predicate Moved(e: Editor, r: Editor, shift: bool) {
    && r.text == e.text && r.tokens == e.tokens && r.focused == e.focused && r.rowMax == e.rowMax
    && r.mode == ShiftMode(e, shift).mode && r.anchor == ShiftMode(e, shift).anchor
  }

  /** The state with only the cursor moved, then normalized. */
  function MoveTo(e: Editor, c: nat): (r: Editor)
    ensures SameBuffer(e, r) && r.cursor == (if c <= |e.text| then c else |e.text|)
    ensures e.rowStart <= SIZE_MAX ==> r.rowStart <= SIZE_MAX
    ensures Row(r.text, r.cursor) <= e.rowMax ==> r.rowStart <= Row(r.text, r.cursor)
  {
    NormalizeCursor(e.(cursor := c))
  }

  /** The state with only the cursor moved, not normalized (the early exits of Up and Down). */
  function JumpTo(e: Editor, c: nat): (r: Editor)
    ensures SameBuffer(e, r) && r.cursor == c && r.rowStart == e.rowStart
  {
    e.(cursor := c)
  }

  /**
   * Backspace: in Select mode erase the selection; at 0 do nothing;
   * otherwise delete back to the previous codepoint (or, with Ctrl, through
   * the first earlier word stop), reparse and normalize.
   */
  function Backspace(e: Editor, ctrl: bool): (r: Editor)
    requires e.cursor <= |e.text|
    ensures e.mode == Select ==> r == Reparse(SelectEraseExit(e))
    ensures e.mode == Insert && e.cursor == 0 ==> r == e
    ensures e.mode == Insert && e.cursor > 0 ==>
      && r.cursor == DeleteFrom(e.text, e.cursor, ctrl) <= |r.text| && r.mode == Insert && Synced(r)
      && r.text == e.text[..r.cursor] + e.text[e.cursor..]
      && e.text == r.text[..r.cursor] + e.text[r.cursor..e.cursor] + r.text[r.cursor..]
    ensures r.focused == e.focused && r.rowMax == e.rowMax && (e.rowStart <= SIZE_MAX ==> r.rowStart <= SIZE_MAX)
    ensures Valid(e) ==> Valid(r)
  {
    if e.mode.Select? then Reparse(SelectEraseExit(e))
    else if e.cursor == 0 then e
    else NormalizeCursor(Reparse(Erase(e, DeleteFrom(e.text, e.cursor, ctrl), e.cursor)))
  }

  /**
   * Where Backspace starts deleting: one codepoint back, or with Ctrl the
   * result of the word scan from `cursor - 1`.
   */
  function DeleteFrom(text: seq<byte>, c: nat, ctrl: bool): (d: nat)
    requires 0 < c <= |text|
    ensures d < c
    ensures !ctrl ==> c - d == PrevLen(text, c)
    ensures ctrl ==> d == BackspaceScan(text, c - 1)
  {
    if ctrl then BackspaceScan(text, c - 1) else c - PrevLen(text, c)
  }

  /**
   * Return: leave Select mode, insert a line break, then continue a Code
   * token with a tab or a List token with a bullet, judged by the stale
   * token under the new cursor; reparse and normalize.
   */
  function Return(e: Editor): (r: Editor)
    requires e.cursor <= |e.text|
    ensures var e1 := LeaveSelect(e);
      var tok := HoveredToken(e1.tokens, e1.cursor + 1);
      var cont := if HasFormat(tok, Code) then [TAB] else if HasFormat(tok, List) then BULLET else [];
      && r.text == e1.text[..e1.cursor] + [NL] + cont + e1.text[e1.cursor..]
      && r.cursor == e1.cursor + 1 + |cont|
      && r.mode == Insert && Synced(r) && r.focused == e.focused && r.rowMax == e.rowMax
      && (e.rowStart <= SIZE_MAX ==> r.rowStart <= SIZE_MAX)
    ensures Valid(e) ==> Valid(r)
  {
    var e1 := LeaveSelect(e);
    var c := e1.cursor;
    var text1 := Splice(e1.text, c, [NL]);
    var tok := HoveredToken(e1.tokens, c + 1);
    var cont := if HasFormat(tok, Code) then [TAB] else if HasFormat(tok, List) then BULLET else [];
    var text2 := Splice(text1, c + 1, cont);
    assert text2 == e1.text[..c] + [NL] + cont + e1.text[c..] by {
      assert text1[..c + 1] == e1.text[..c] + [NL];
      assert text1[c + 1..] == e1.text[c..];
    }
    NormalizeCursor(Reparse(e1.(text := text2, cursor := c + 1 + |cont|)))
  }

  /** Left: nothing at 0; otherwise one codepoint back, or with Ctrl back over a word. */
  function Left(e: Editor, shift: bool, ctrl: bool): (r: Editor)
    requires e.cursor <= |e.text|
    ensures e.cursor == 0 ==> r == e
    ensures e.cursor > 0 ==>
      && Moved(e, r, shift) && r.cursor < e.cursor
      && (!ctrl ==> r.cursor == e.cursor - PrevLen(e.text, e.cursor))
      && (ctrl ==> r.cursor == LeftWordScan(e.text, e.cursor, e.cursor - 1))
    ensures r.focused == e.focused && r.rowMax == e.rowMax && (e.rowStart <= SIZE_MAX ==> r.rowStart <= SIZE_MAX)
    ensures Valid(e) ==> Valid(r)
  {
    if e.cursor == 0 then e
    else
      var e1 := ShiftMode(e, shift);
      var len := if ctrl then e.cursor - LeftWordScan(e.text, e.cursor, e.cursor - 1) else PrevLen(e.text, e.cursor);
      MoveTo(e1, e.cursor - len)
  }

  /**
   * Right: nothing at the end; otherwise one codepoint forward, or with
   * Ctrl forward over a word. A lead byte announcing more bytes than remain
   * overshoots the end, and normalizing clamps the cursor back.
   */
  function Right(e: Editor, shift: bool, ctrl: bool): (r: Editor)
    requires e.cursor <= |e.text|
    ensures e.cursor == |e.text| ==> r == e
    ensures e.cursor < |e.text| ==>
      && Moved(e, r, shift) && e.cursor < r.cursor <= |e.text|
      && (!ctrl ==> r.cursor == Min(e.cursor + NextLen(e.text, e.cursor), |e.text|))
      && (ctrl ==> r.cursor == Min(RightWordScan(e.text, e.cursor, e.cursor), |e.text|))
    ensures r.focused == e.focused && r.rowMax == e.rowMax && (e.rowStart <= SIZE_MAX ==> r.rowStart <= SIZE_MAX)
    ensures Valid(e) ==> Valid(r)
  {
    if e.cursor >= |e.text| then e
    else
      var e1 := ShiftMode(e, shift);
      var len := if ctrl then RightWordScan(e.text, e.cursor, e.cursor) - e.cursor else NextLen(e.text, e.cursor);
      MoveTo(e1, e.cursor + len)
  }

  function Min(a: nat, b: nat): nat {
    if a <= b then a else b
  }

  /**
   * Start of the previous line as Up computes it from the end `ple` of that
   * line: a previous line ending at offset 0 is taken to start at 1.
   */
  function PrevLineStart(text: seq<byte>, ple: nat): (s: nat)
    requires ple < |text|
    ensures ple == 0 ==> s == 1
    ensures ple > 0 ==> s == LineStart(text, ple)
  {
    if ple == 0 then 1
    else match RFind(text, NL, ple - 1)
      case None => 0
      case Some(q) => q + 1
  }

  /**
   * Up: nothing at 0; on the first line go to 0; otherwise go to the same
   * codepoint column of the previous line, clamped to its length.
   */
  function Up(e: Editor, shift: bool): (r: Editor)
    requires e.cursor <= |e.text|
    ensures e.cursor == 0 ==> r == e
    ensures e.cursor > 0 ==> Moved(e, r, shift)
    ensures e.cursor > 0 && LineStart(e.text, e.cursor) == 0 ==> r.cursor == 0 && r.rowStart == e.rowStart
    ensures e.cursor > 0 && LineStart(e.text, e.cursor) > 0 ==>
      var cls := LineStart(e.text, e.cursor);
      var pls := PrevLineStart(e.text, cls - 1);
      var target := Min(Columns(e.text, cls, e.cursor), Columns(e.text, pls, cls - 1));
      r.cursor == Min(Advance(e.text, pls, target), |e.text|)
    ensures r.focused == e.focused && r.rowMax == e.rowMax && (e.rowStart <= SIZE_MAX ==> r.rowStart <= SIZE_MAX)
    ensures Valid(e) ==> Valid(r)
  {
    if e.cursor == 0 then e
    else
      var e1 := ShiftMode(e, shift);
      var cls := LineStart(e.text, e.cursor);
      if cls == 0 then JumpTo(e1, 0)
      else
        var col := Columns(e.text, cls, e.cursor);
        var ple := cls - 1;
        var pls := PrevLineStart(e.text, ple);
        var prevLen := Columns(e.text, pls, ple);
        MoveTo(e1, Advance(e.text, pls, Min(col, prevLen)))
  }

  /**
   * Down: nothing at the end; on the last line go to the end; otherwise go
   * to the same codepoint column of the next line, clamped to its length.
   */
  function Down(e: Editor, shift: bool): (r: Editor)
    requires e.cursor <= |e.text|
    ensures e.cursor == |e.text| ==> r == e
    ensures e.cursor < |e.text| ==> Moved(e, r, shift)
    ensures e.cursor < |e.text| && LineEnd(e.text, e.cursor) == |e.text| ==> r.cursor == |e.text| && r.rowStart == e.rowStart
    ensures e.cursor < |e.text| && LineEnd(e.text, e.cursor) < |e.text| ==>
      var cls := LineStart(e.text, e.cursor);
      var nls := LineEnd(e.text, e.cursor) + 1;
      var target := Min(Columns(e.text, cls, e.cursor), Columns(e.text, nls, LineEnd(e.text, nls)));
      r.cursor == Min(Advance(e.text, nls, target), |e.text|)
    ensures r.focused == e.focused && r.rowMax == e.rowMax && (e.rowStart <= SIZE_MAX ==> r.rowStart <= SIZE_MAX)
    ensures Valid(e) ==> Valid(r)
  {
    if e.cursor >= |e.text| then e
    else
      var e1 := ShiftMode(e, shift);
      var cls := LineStart(e.text, e.cursor);
      var col := Columns(e.text, cls, e.cursor);
      var cle := LineEnd(e.text, e.cursor);
      if cle >= |e.text| then JumpTo(e1, |e.text|)
      else
        var nls := cle + 1;
        var nle := LineEnd(e.text, nls);
        var nextLen := Columns(e.text, nls, nle);
        MoveTo(e1, Advance(e.text, nls, Min(col, nextLen)))
  }

  /**
   * Home: with Ctrl to 0; otherwise to just after the last line break at
   * or before `cursor - 1` (at cursor 0, at or before offset 0).
   */
  function Home(e: Editor, shift: bool, ctrl: bool): (r: Editor)
    requires e.cursor <= |e.text|
    ensures Moved(e, r, shift)
    ensures ctrl ==> r.cursor == 0
    ensures !ctrl && e.cursor > 0 ==> r.cursor == LineStart(e.text, e.cursor)
    ensures !ctrl && e.cursor == 0 ==> r.cursor == (if |e.text| > 0 && e.text[0] == NL then 1 else 0)
    ensures r.focused == e.focused && r.rowMax == e.rowMax && (e.rowStart <= SIZE_MAX ==> r.rowStart <= SIZE_MAX)
    ensures Valid(e) ==> Valid(r)
  {
    var e1 := ShiftMode(e, shift);
    if ctrl then MoveTo(e1, 0)
    else
      var start := match RFind(e.text, NL, if e.cursor == 0 then 0 else e.cursor - 1)
        case None => 0
        case Some(p) => p + 1;
      MoveTo(e1, start)
  }

  /** End: with Ctrl to the end of the text; otherwise to the next line break or the end. */
  function End(e: Editor, shift: bool, ctrl: bool): (r: Editor)
    requires e.cursor <= |e.text|
    ensures Moved(e, r, shift)
    ensures ctrl ==> r.cursor == |e.text|
    ensures !ctrl ==> r.cursor == LineEnd(e.text, e.cursor)
    ensures r.focused == e.focused && r.rowMax == e.rowMax && (e.rowStart <= SIZE_MAX ==> r.rowStart <= SIZE_MAX)
    ensures Valid(e) ==> Valid(r)
  {
    var e1 := ShiftMode(e, shift);
    if ctrl then MoveTo(e1, |e.text|)
    else MoveTo(e1, LineEnd(e.text, e.cursor))
  }

  /** Tab: leave Select mode and insert a tab; the cursor is not normalized. */
  function Tab(e: Editor): (r: Editor)
    requires e.cursor <= |e.text|
    ensures var e1 := LeaveSelect(e);
      && r.text == e1.text[..e1.cursor] + [TAB] + e1.text[e1.cursor..] && r.cursor == e1.cursor + 1
      && r.mode == Insert && Synced(r) && r.focused == e.focused && r.rowStart == e1.rowStart && r.rowMax == e.rowMax
    ensures Valid(e) ==> Valid(r)
  {
    var e1 := LeaveSelect(e);
    Typed(e1, [TAB], 1)
  }

  /** Ctrl+V: leave Select mode, insert the clipboard at the cursor, reparse and normalize. */
  function Paste(e: Editor, clip: seq<byte>): (r: Editor)
    requires e.cursor <= |e.text|
    ensures var e1 := LeaveSelect(e);
      && r.text == e1.text[..e1.cursor] + clip + e1.text[e1.cursor..] && r.cursor == e1.cursor + |clip|
      && r.mode == Insert && Synced(r) && r.focused == e.focused && r.rowMax == e.rowMax
      && (e.rowStart <= SIZE_MAX ==> r.rowStart <= SIZE_MAX)
    ensures Valid(e) ==> Valid(r)
  {
    var e1 := LeaveSelect(e);
    NormalizeCursor(Typed(e1, clip, |clip|))
  }

  /** What an event produced: the next state and, for copy and cut, the bytes put on the clipboard. */
  datatype Outcome = Outcome(editor: Editor, copied: Option<seq<byte>>)

  /** Ctrl+C: in Select mode copy the selection, move the cursor to the anchor and return to Insert. */
  function Copy(e: Editor): (o: Outcome)
    requires e.cursor <= |e.text|
    ensures e.mode == Insert ==> o == Outcome(e, None)
    ensures e.mode == Select ==>
      && o.copied == Some(Selected(e))
      && o.editor.text == e.text && o.editor.tokens == e.tokens
      && o.editor.cursor == e.anchor && o.editor.mode == Insert
      && o.editor.rowStart == e.rowStart && o.editor.focused == e.focused && o.editor.rowMax == e.rowMax
  {
    if e.mode.Select? then
      Outcome(e.(cursor := e.anchor, mode := Insert), Some(Selected(e)))
    else Outcome(e, None)
  }

  /** Ctrl+X: in Select mode copy the selection, then erase it and reparse. */
  function Cut(e: Editor): (o: Outcome)
    requires e.cursor <= |e.text|
    ensures e.mode == Insert ==> o == Outcome(e, None)
    ensures e.mode == Select ==> o == Outcome(Reparse(SelectEraseExit(e)), Some(Selected(e)))
  {
    if e.mode.Select? then Outcome(Reparse(SelectEraseExit(e)), Some(Selected(e)))
    else Outcome(e, None)
  }

  /** Ctrl+A: select the whole text, anchored at 0 with the cursor at the end. */
  function SelectAll(e: Editor): (r: Editor)
    ensures r.text == e.text && r.tokens == e.tokens && r.mode == Select && r.anchor == 0 && r.cursor == |e.text|
    ensures r.rowStart == e.rowStart && r.focused == e.focused && r.rowMax == e.rowMax
    ensures Valid(e) ==> Valid(r)
  {
    e.(cursor := |e.text|, mode := Select, anchor := 0)
  }

  /** The mouse wheel scrolls `row_start` up (not past 0) or down. */
  function Wheel(e: Editor, dir: int): (r: Editor)
    ensures r.text == e.text && r.tokens == e.tokens && r.cursor == e.cursor && r.mode == e.mode && r.anchor == e.anchor
    ensures r.focused == e.focused && r.rowMax == e.rowMax
    ensures dir > 0 && e.rowStart > 0 ==> r.rowStart == e.rowStart - 1
    ensures dir > 0 && e.rowStart == 0 ==> r.rowStart == 0
    ensures dir == 0 ==> r.rowStart == e.rowStart
    ensures dir < 0 ==> r.rowStart == SizeAdd(e.rowStart, 1)
    ensures Valid(e) ==> Valid(r)
  {
    var start := if dir > 0 && e.rowStart > 0 then e.rowStart - 1 else if dir < 0 then SizeAdd(e.rowStart, 1) else e.rowStart;
    e.(rowStart := start)
  }

  /** A mouse button press leaves Select mode (placing the cursor by hit-testing is not modelled). */
  function MouseDown(e: Editor): (r: Editor)
    ensures r.mode == Insert
    ensures r.text == e.text && r.tokens == e.tokens && r.cursor == e.cursor && r.anchor == e.anchor
    ensures r.rowStart == e.rowStart && r.focused == e.focused && r.rowMax == e.rowMax
    ensures Valid(e) ==> Valid(r)
  {
    e.(mode := Insert)
  }

  /** The keys `event` handles; every other key is ignored. */
  datatype Key = BackspaceKey | ReturnKey | LeftKey | RightKey | UpKey | DownKey | TabKey | KeyV | KeyC | KeyX | KeyA | KeyS | HomeKey | EndKey | OtherKey

  /** Input events as the model sees them. `TextInputEvent` carries the typed bytes. */
  datatype Event =
    | WheelEvent(dir: int)
    | MouseButtonDown
    | TextInputEvent(input: seq<byte>)
    | KeyDown(key: Key, shift: bool, ctrl: bool)
    | OtherEvent

  /** Backspace, Return and Tab: the keys that edit the text. */
  function EditKey(e: Editor, key: Key, ctrl: bool): (r: Editor)
    requires e.cursor <= |e.text| && (key.BackspaceKey? || key.ReturnKey? || key.TabKey?)
    ensures Valid(e) ==> Valid(r)
    ensures r.focused == e.focused && r.rowMax == e.rowMax
    ensures r.text != e.text ==> Synced(r)
    ensures Synced(e) ==> Synced(r)
  {
    match key
    case BackspaceKey => Backspace(e, ctrl)
    case ReturnKey => Return(e)
    case TabKey => Tab(e)
  }

  /** The cursor keys, which move the cursor and never change the text. */
  function CursorKey(e: Editor, key: Key, shift: bool, ctrl: bool): (r: Editor)
    requires e.cursor <= |e.text| && (key.LeftKey? || key.RightKey? || key.UpKey? || key.DownKey? || key.HomeKey? || key.EndKey?)
    ensures Valid(e) ==> Valid(r)
    ensures r.text == e.text && r.tokens == e.tokens && r.focused == e.focused && r.rowMax == e.rowMax
  {
    match key
    case LeftKey => Left(e, shift, ctrl)
    case RightKey => Right(e, shift, ctrl)
    case UpKey => Up(e, shift)
    case DownKey => Down(e, shift)
    case HomeKey => Home(e, shift, ctrl)
    case EndKey => End(e, shift, ctrl)
  }

  /** Ctrl+V, Ctrl+C, Ctrl+X and Ctrl+A. */
  function ShortcutKey(e: Editor, key: Key, clip: seq<byte>): (o: Outcome)
    requires e.cursor <= |e.text| && (key.KeyV? || key.KeyC? || key.KeyX? || key.KeyA?)
    ensures o.copied.Some? ==> e.mode == Select && (key == KeyC || key == KeyX) && o.copied.value == Selected(e)
    ensures Valid(e) ==> Valid(o.editor)
    ensures o.editor.focused == e.focused && o.editor.rowMax == e.rowMax
    ensures o.editor.text != e.text ==> Synced(o.editor)
    ensures Synced(e) ==> Synced(o.editor)
  {
    match key
    case KeyV => Outcome(Paste(e, clip), None)
    case KeyC => Copy(e)
    case KeyX => Cut(e)
    case KeyA => Outcome(SelectAll(e), None)
  }

  /**
   * Dispatch of a key press. Ctrl+S (saving) and every key not listed are
   * ignored; V, C, X and A act only with Ctrl held.
   */
  function KeyEvent(e: Editor, key: Key, shift: bool, ctrl: bool, clip: seq<byte>): (o: Outcome)
    requires e.cursor <= |e.text|
    ensures o.copied.Some? ==> ctrl && e.mode == Select && (key == KeyC || key == KeyX) && o.copied.value == Selected(e)
    ensures !ctrl && (key.KeyV? || key.KeyC? || key.KeyX? || key.KeyA?) ==> o == Outcome(e, None)
    ensures key.KeyS? || key.OtherKey? ==> o == Outcome(e, None)
    ensures Valid(e) ==> Valid(o.editor)
    ensures o.editor.focused == e.focused && o.editor.rowMax == e.rowMax
    ensures o.editor.text != e.text ==> Synced(o.editor)
    ensures Synced(e) ==> Synced(o.editor)
  {
    match key
    case BackspaceKey | ReturnKey | TabKey => Outcome(EditKey(e, key, ctrl), None)
    case LeftKey | RightKey | UpKey | DownKey | HomeKey | EndKey => Outcome(CursorKey(e, key, shift, ctrl), None)
    case KeyV | KeyC | KeyX | KeyA => if ctrl then ShortcutKey(e, key, clip) else Outcome(e, None)
    case KeyS | OtherKey => Outcome(e, None)
  }

  /**
   * `Editor::event`: an unfocused editor ignores every event; otherwise
   * the event's handler runs. `clip` is the clipboard text a paste reads.
   */
  function Handle(e: Editor, ev: Event, clip: seq<byte>): (o: Outcome)
    requires e.cursor <= |e.text|
    ensures !e.focused ==> o == Outcome(e, None)
    ensures Valid(e) ==> Valid(o.editor)
    ensures o.editor.text != e.text ==> Synced(o.editor)
    ensures Synced(e) ==> Synced(o.editor)
    ensures o.editor.focused == e.focused && o.editor.rowMax == e.rowMax
    ensures o.copied.Some? ==> ev.KeyDown? && ev.ctrl && e.mode == Select && (ev.key == KeyC || ev.key == KeyX)
  {
    if !e.focused then Outcome(e, None)
    else match ev
      case WheelEvent(dir) => Outcome(Wheel(e, dir), None)
      case MouseButtonDown => Outcome(MouseDown(e), None)
      case TextInputEvent(inp) => Outcome(TextInput(e, inp), None)
      case KeyDown(key, shift, ctrl) => KeyEvent(e, key, shift, ctrl, clip)
      case OtherEvent => Outcome(e, None)
  }

  /**
   * `set_text`: replace the text, reparse and normalize. The mode and the
   * anchor are kept as they were.
   */
  function SetText(e: Editor, text: seq<byte>): (r: Editor)
    ensures r.text == text && Synced(r) && r.cursor <= |text|
    ensures r.cursor == if e.cursor <= |text| then e.cursor else |text|
    ensures r.mode == e.mode && r.anchor == e.anchor
  {
    NormalizeCursor(Reparse(e.(text := text)))
  }
}
