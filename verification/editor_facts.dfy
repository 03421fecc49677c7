/**
 * Properties of the editor's event handlers: the bounds every event keeps,
 * the token stream staying in step with the text, cut/paste and
 * type/backspace round trips, codepoint-boundary safety of the cursor keys
 * and the column that Up and Down keep.
 */
module EditorFacts {
  import opened Wrappers
  import opened Bytes
  import opened Utf8
  import opened Markup
  import opened Motion
  import opened MotionFacts
  import opened Editor

  // ---------------------------------------------------------------------
  // Bounds and synchronisation kept by every event
  // ---------------------------------------------------------------------

  /** An unfocused editor ignores every event (`is_focused` starts false). */
  lemma UnfocusedIgnores(ev: Event, clip: seq<byte>)
    ensures Handle(NewEditor(), ev, clip) == Outcome(NewEditor(), None)
  {
  }

  // ---------------------------------------------------------------------
  // Round trips
  // ---------------------------------------------------------------------

  /**
   * Cut then paste puts back exactly the text that was there, with the
   * cursor at the upper end of the old selection.
   */
  lemma CutThenPaste(e: Editor)
    requires Valid(e) && e.mode == Select
    ensures var cut := Cut(e);
      && cut.copied == Some(Selected(e))
      && var pasted := Paste(cut.editor, cut.copied.value);
      && pasted.text == e.text
      && pasted.cursor == SelHi(e)
  {
    var r := Reparse(SelectEraseExit(e));
    var sel := Selected(e);
    var pasted := Paste(r, sel);
    assert LeaveSelect(r) == r;
    assert pasted.text == r.text[..r.cursor] + sel + r.text[r.cursor..];
  }

  /** A whole codepoint: a non-continuation byte followed by continuation bytes only. */
  predicate OneCodepoint(inp: seq<byte>) {
    && |inp| > 0 && !IsCont(inp[0])
    && forall k :: 0 < k < |inp| ==> IsCont(inp[k])
  }

  /** Typing inserts a single codepoint verbatim when it is not one of the paired or dash keys. */
  lemma PlainTypingIsVerbatim(e: Editor, inp: seq<byte>)
    requires e.cursor <= |e.text| && inp !in {[STAR], [SLASH], [TILDE], [LBRACKET], [DASH]}
    ensures InputTyping(e, inp) == Typing(inp, |inp|)
  {
  }

  /** Stepping back from the end of an inserted codepoint spans exactly that codepoint. */
  lemma TypedCodepointIsPrev(pre: seq<byte>, inp: seq<byte>, post: seq<byte>)
    requires OneCodepoint(inp)
    ensures PrevLen(pre + inp + post, |pre| + |inp|) == |inp|
  {
    var s := pre + inp + post;
    assert forall k :: 0 <= k < |inp| ==> s[|pre| + k] == inp[k];
  }

  /** Plain Backspace right after a whole codepoint deletes exactly that codepoint. */
  lemma BackspaceAfterCodepoint(t: Editor, pre: seq<byte>, inp: seq<byte>, post: seq<byte>)
    requires t.mode == Insert && OneCodepoint(inp)
    requires t.text == pre + inp + post && t.cursor == |pre| + |inp|
    ensures var r := Backspace(t, false);
      r.text == pre + post && r.cursor == |pre| && r.mode == Insert
  {
    TypedCodepointIsPrev(pre, inp, post);
    var r := Backspace(t, false);
    assert r.cursor == |pre|;
    assert t.text[..|pre|] == pre;
    assert t.text[|pre| + |inp|..] == post;
  }

  /** In Insert mode text input splices its typing in at the cursor. */
  lemma TextInputInsert(e: Editor, inp: seq<byte>)
    requires e.cursor <= |e.text| && e.mode == Insert
    ensures var t := InputTyping(e, inp);
      var r := TextInput(e, inp);
      && r.text == e.text[..e.cursor] + t.ins + e.text[e.cursor..]
      && r.cursor == e.cursor + t.adv && r.mode == Insert
  {
    assert LeaveSelect(e) == e;
  }

  /** A key that is neither paired nor a dash is spliced in verbatim at the cursor. */
  lemma VerbatimTyped(e: Editor, inp: seq<byte>)
    requires e.cursor <= |e.text| && e.mode == Insert
    requires inp !in {[STAR], [SLASH], [TILDE], [LBRACKET], [DASH]}
    ensures var t := TextInput(e, inp);
      && t.text == e.text[..e.cursor] + inp + e.text[e.cursor..]
      && t.cursor == e.cursor + |inp| && t.mode == Insert
  {
    PlainTypingIsVerbatim(e, inp);
    TextInputInsert(e, inp);
  }

  /**
   * Typing one codepoint that is not auto-paired and then pressing
   * Backspace restores the text and the cursor.
   */
  lemma TypeThenBackspace(e: Editor, inp: seq<byte>)
    requires e.cursor <= |e.text| && e.mode == Insert
    requires OneCodepoint(inp) && inp !in {[STAR], [SLASH], [TILDE], [LBRACKET], [DASH]}
    ensures var r := Backspace(TextInput(e, inp), false);
      r.text == e.text && r.cursor == e.cursor && r.mode == Insert
  {
    VerbatimTyped(e, inp);
    BackspaceUndoesInsert(e.text, e.cursor, inp, TextInput(e, inp));
  }

  /** Plain Backspace right after a codepoint spliced in at `c` restores the text and the offset. */
  lemma BackspaceUndoesInsert(text: seq<byte>, c: nat, inp: seq<byte>, t: Editor)
    requires c <= |text| && t.mode == Insert && OneCodepoint(inp)
    requires t.text == text[..c] + inp + text[c..] && t.cursor == c + |inp|
    ensures var r := Backspace(t, false);
      r.text == text && r.cursor == c && r.mode == Insert
  {
    BackspaceAfterCodepoint(t, text[..c], inp, text[c..]);
    assert text[..c] + text[c..] == text;
  }

  /** Outside Code and not after a backslash, a typed `*` becomes `**` with the cursor between. */
  lemma StarTyped(e: Editor)
    requires e.cursor <= |e.text| && e.mode == Insert
    requires !HasFormat(HoveredToken(e.tokens, e.cursor), Code) && !AfterBackslash(e.text, e.cursor)
    ensures var t := TextInput(e, [STAR]);
      && t.text == e.text[..e.cursor] + [STAR] + ([STAR] + e.text[e.cursor..])
      && t.cursor == e.cursor + 1 && t.mode == Insert
  {
    assert InputTyping(e, [STAR]) == Typing([STAR, STAR], 1);
    TextInputInsert(e, [STAR]);
  }

  /**
   * An auto-paired `*` followed by Backspace leaves the closing half behind:
   * Backspace deletes only the byte before the cursor.
   */
  lemma StarThenBackspace(e: Editor)
    requires e.cursor <= |e.text| && e.mode == Insert
    requires !HasFormat(HoveredToken(e.tokens, e.cursor), Code) && !AfterBackslash(e.text, e.cursor)
    ensures var r := Backspace(TextInput(e, [STAR]), false);
      r.text == e.text[..e.cursor] + [STAR] + e.text[e.cursor..] && r.cursor == e.cursor
  {
    StarTyped(e);
    BackspaceAfterCodepoint(TextInput(e, [STAR]), e.text[..e.cursor], [STAR], [STAR] + e.text[e.cursor..]);
  }

  // ---------------------------------------------------------------------
  // Text the parser produced carries no Code or List format
  // ---------------------------------------------------------------------

  /** A token the parser can produce is never Code or List. */
  lemma ShapedIsNotCodeOrList(t: Token)
    requires WellShaped(t)
    ensures !HasFormat(t, Code) && !HasFormat(t, List)
  {
  }

  /** The hovered token of a parsed stream is never Code or List. */
  lemma ParsedHoverIsPlainish(text: seq<byte>, c: nat)
    ensures var t := HoveredToken(ParseAll(text), c);
      !HasFormat(t, Code) && !HasFormat(t, List)
  {
    var ts := ParseAll(text);
    var t := HoveredToken(ts, c);
    if |ts| > 0 {
      var k :| 0 <= k < |ts| && ts[k] == t;
      ShapedIsNotCodeOrList(ts[k]);
    }
  }

  /**
   * On an editor whose tokens are the parse of its text, Return inserts a
   * bare line break: the parser never produces the Code or List tokens that
   * would make it continue with a tab or a bullet.
   */
  lemma ReturnOnParsedText(e: Editor)
    requires e.cursor <= |e.text| && Synced(e)
    ensures var e1 := LeaveSelect(e);
      var r := Return(e);
      r.text == e1.text[..e1.cursor] + [NL] + e1.text[e1.cursor..] && r.cursor == e1.cursor + 1
  {
    var e1 := LeaveSelect(e);
    ParsedHoverIsPlainish(e.text, e1.cursor + 1);
  }

  /** On a parsed stream, text input is auto-paired unless it follows a backslash. */
  lemma TypingOnParsedText(e: Editor, inp: seq<byte>)
    requires e.cursor <= |e.text| && Synced(e) && !AfterBackslash(e.text, e.cursor)
    ensures InputTyping(e, inp) == AutoPair(e.text, e.cursor, inp)
  {
    ParsedHoverIsPlainish(e.text, e.cursor);
  }

  // ---------------------------------------------------------------------
  // The hovered token
  // ---------------------------------------------------------------------

  /** Flattening distributes over appending one token. */
  lemma {:induction false} FlattenSnoc(ts: seq<Token>, t: Token)
    ensures Flatten(ts + [t]) == Flatten(ts) + TokenText(t)
  {
    if |ts| > 0 {
      FlattenSnoc(ts[1..], t);
      assert (ts + [t])[1..] == ts[1..] + [t];
      FlattenCons(ts + [t]);
      FlattenCons(ts);
    }
  }

  /** Without images, the running index after `k` tokens is the byte length of their text. */
  lemma {:induction false} ReachIsLength(ts: seq<Token>, k: nat)
    requires k <= |ts| && forall i :: 0 <= i < |ts| ==> !ts[i].Image?
    ensures Reach(ts, k) == |Flatten(ts[..k])|
  {
    if k > 0 {
      ReachIsLength(ts, k - 1);
      assert ts[..k] == ts[..k - 1] + [ts[k - 1]];
      FlattenSnoc(ts[..k - 1], ts[k - 1]);
    }
  }

  /**
   * On a parsed stream the scan of `get_hovered_token` always finds a token
   * for a cursor inside the text: the one whose bytes end at or after the
   * cursor while the bytes before it end before the cursor.
   */
  lemma HoveredSpansCursor(text: seq<byte>, c: nat)
    requires 0 < c <= |text|
    ensures var ts := ParseAll(text);
      var k := HoveredIndex(ts, c);
      && k.Some?
      && (k.value > 0 ==> |Flatten(ts[..k.value])| < c)
      && c <= |Flatten(ts[..k.value + 1])|
  {
    var ts := ParseAll(text);
    assert ts[..|ts|] == ts;
    ReachIsLength(ts, |ts|);
    var k := HoveredIndex(ts, c);
    if k.None? {
      assert false;
    }
    ReachIsLength(ts, k.value + 1);
    if k.value > 0 {
      ReachIsLength(ts, k.value);
    }
  }

  // ---------------------------------------------------------------------
  // Scrolling
  // ---------------------------------------------------------------------

  /** Normalizing twice is normalizing once when the cursor's row is within `row_max`. */
  lemma NormalizeSettles(e: Editor)
    requires Row(e.text, if e.cursor <= |e.text| then e.cursor else |e.text|) <= e.rowMax
    ensures NormalizeCursor(NormalizeCursor(e)) == NormalizeCursor(e)
  {
  }

  /**
   * With `row_max` still at its initial `SIZE_MAX`, normalizing never pushes
   * `row_start` forward (a `std::string` holds at most `SIZE_MAX` bytes).
   */
  lemma NormalizeNeverScrollsForward(e: Editor)
    requires e.rowMax == SIZE_MAX && |e.text| <= SIZE_MAX
    ensures NormalizeCursor(e).rowStart <= e.rowStart
  {
    var c := if e.cursor <= |e.text| then e.cursor else |e.text|;
    CountBound(e.text[..c], NL);
  }

  // ---------------------------------------------------------------------
  // The dash test at the start of a non-empty text
  // ---------------------------------------------------------------------

  /**
   * Typing `-` at offset 0 of the non-empty text "a": the test as written
   * reads the byte before offset 0, outside the string; the corrected test
   * treats the start of the text as a line start and inserts a bullet.
   */
  lemma DashAtTextStart()
    ensures DashIsHyphenAsWritten([0x61], 0).None?
    ensures AutoPair([0x61], 0, [DASH]) == Typing(BULLET, 3)
  {
  }

  /**
   * With the corrected test a typed `-` becomes a bullet exactly at a line
   * start (offset 0 or just after a line break) and a hyphen elsewhere, and
   * wherever the test as written stays inside the string it agrees.
   */
  lemma DashBulletAtLineStart(text: seq<byte>, c: nat)
    requires c <= |text|
    ensures AutoPair(text, c, [DASH]) == Typing(BULLET, 3) <==> c == 0 || text[c - 1] == NL
    ensures AutoPair(text, c, [DASH]) == Typing([DASH], 1) <==> c > 0 && text[c - 1] != NL
    ensures DashIsHyphenAsWritten(text, c).Some? ==>
      (DashIsHyphenAsWritten(text, c).value <==> AutoPair(text, c, [DASH]) == Typing([DASH], 1))
  {
    assert BULLET != [DASH];
  }
}
