/**
 * The cursor keys on well-formed UTF-8: every one of them leaves the cursor
 * on a codepoint boundary, and Up and Down keep the codepoint column,
 * clamped to the length of the line they land on.
 */
module NavigationFacts {
  import opened Bytes
  import opened Utf8
  import opened Motion
  import opened MotionFacts
  import opened Editor

  /** The cursor sits on a codepoint boundary of well-formed text. */
  predicate OnBoundary(e: Editor) {
    WellFormed(e.text) && Boundary(e.text, e.cursor)
  }

  lemma LeftKeepsBoundary(e: Editor, shift: bool, ctrl: bool)
    requires e.cursor <= |e.text| && OnBoundary(e)
    ensures OnBoundary(Left(e, shift, ctrl))
  {
    if e.cursor > 0 {
      if ctrl {
        LeftScanBoundary(e.text, e.cursor);
      } else {
        PrevToBoundary(e.text, e.cursor);
      }
    }
  }

  lemma RightKeepsBoundary(e: Editor, shift: bool, ctrl: bool)
    requires e.cursor <= |e.text| && OnBoundary(e)
    ensures OnBoundary(Right(e, shift, ctrl))
  {
    if e.cursor < |e.text| {
      if ctrl {
        RightScanBoundary(e.text, e.cursor, e.cursor);
      } else {
        NextFromBoundary(e.text, e.cursor);
      }
    }
  }

  lemma UpKeepsBoundary(e: Editor, shift: bool)
    requires e.cursor <= |e.text| && OnBoundary(e)
    ensures OnBoundary(Up(e, shift))
  {
    if e.cursor > 0 {
      var cls := LineStart(e.text, e.cursor);
      if cls == 1 {
        AsciiThenBoundary(e.text, 0);
      } else if cls > 1 {
        UpLandsOnPreviousLine(e, shift);
      }
    }
  }

  lemma DownKeepsBoundary(e: Editor, shift: bool)
    requires e.cursor <= |e.text| && OnBoundary(e)
    ensures OnBoundary(Down(e, shift))
  {
    if e.cursor < |e.text| && LineEnd(e.text, e.cursor) < |e.text| {
      DownLandsOnNextLine(e, shift);
    }
  }

  lemma HomeKeepsBoundary(e: Editor, shift: bool, ctrl: bool)
    requires e.cursor <= |e.text| && OnBoundary(e)
    ensures OnBoundary(Home(e, shift, ctrl))
  {
    if !ctrl {
      if e.cursor > 0 {
        LineBoundaries(e.text, e.cursor);
      } else if |e.text| > 0 && e.text[0] == NL {
        AsciiThenBoundary(e.text, 0);
      }
    }
  }

  lemma EndKeepsBoundary(e: Editor, shift: bool, ctrl: bool)
    requires e.cursor <= |e.text| && OnBoundary(e)
    ensures OnBoundary(End(e, shift, ctrl))
  {
    if !ctrl {
      LineBoundaries(e.text, e.cursor);
    }
  }

  /**
   * Every cursor key, with or without Shift and Ctrl, leaves the cursor of
   * a well-formed text on a codepoint boundary.
   */
  lemma CursorKeysKeepBoundary(e: Editor, key: Key, shift: bool, ctrl: bool)
    requires e.cursor <= |e.text| && OnBoundary(e)
    requires key.LeftKey? || key.RightKey? || key.UpKey? || key.DownKey? || key.HomeKey? || key.EndKey?
    ensures OnBoundary(CursorKey(e, key, shift, ctrl))
  {
    match key
    case LeftKey => LeftKeepsBoundary(e, shift, ctrl);
    case RightKey => RightKeepsBoundary(e, shift, ctrl);
    case UpKey => UpKeepsBoundary(e, shift);
    case DownKey => DownKeepsBoundary(e, shift);
    case HomeKey => HomeKeepsBoundary(e, shift, ctrl);
    case EndKey => EndKeepsBoundary(e, shift, ctrl);
  }

  /**
   * Up from below the second line lands on the previous line, on a
   * boundary, at the cursor's codepoint column clamped to that line's
   * codepoint length.
   */
  lemma UpLandsOnPreviousLine(e: Editor, shift: bool)
    requires e.cursor <= |e.text| && WellFormed(e.text) && e.cursor > 0 && LineStart(e.text, e.cursor) > 1
    ensures var cls := LineStart(e.text, e.cursor);
      var pls := LineStart(e.text, cls - 1);
      var r := Up(e, shift);
      && pls <= r.cursor <= cls - 1
      && Boundary(e.text, r.cursor)
      && Columns(e.text, pls, r.cursor) == Min(Columns(e.text, cls, e.cursor), Columns(e.text, pls, cls - 1))
  {
    var cls := LineStart(e.text, e.cursor);
    var ple := cls - 1;
    var pls := LineStart(e.text, ple);
    LineBoundaries(e.text, ple);
    var target := Min(Columns(e.text, cls, e.cursor), Columns(e.text, pls, ple));
    AdvanceWithin(e.text, pls, ple, target);
  }

  /**
   * The column target of Down, on text alone: advancing the clamped column
   * from the start of the next line stays inside that line, on a boundary,
   * and crosses exactly that many codepoints.
   */
  lemma NextLineColumn(s: seq<byte>, c: nat)
    requires c < |s| && WellFormed(s) && LineEnd(s, c) < |s|
    ensures var nls := LineEnd(s, c) + 1;
      var nle := LineEnd(s, nls);
      var target := Min(Columns(s, LineStart(s, c), c), Columns(s, nls, nle));
      var p := Advance(s, nls, target);
      && nls <= p <= nle && Boundary(s, p) && Columns(s, nls, p) == target
  {
    var nls := LineEnd(s, c) + 1;
    var nle := LineEnd(s, nls);
    AsciiThenBoundary(s, nls - 1);
    LineBoundaries(s, nls);
    AdvanceWithin(s, nls, nle, Min(Columns(s, LineStart(s, c), c), Columns(s, nls, nle)));
  }

  /**
   * Down from above the last line lands on the next line, on a boundary,
   * at the cursor's codepoint column clamped to that line's codepoint
   * length.
   */
  lemma DownLandsOnNextLine(e: Editor, shift: bool)
    requires e.cursor < |e.text| && WellFormed(e.text) && LineEnd(e.text, e.cursor) < |e.text|
    ensures var cls := LineStart(e.text, e.cursor);
      var nls := LineEnd(e.text, e.cursor) + 1;
      var nle := LineEnd(e.text, nls);
      var r := Down(e, shift);
      && nls <= r.cursor <= nle
      && Boundary(e.text, r.cursor)
      && Columns(e.text, nls, r.cursor) == Min(Columns(e.text, cls, e.cursor), Columns(e.text, nls, nle))
  {
    NextLineColumn(e.text, e.cursor);
    DownCursor(e, shift);
  }

  /** Where Down puts the cursor from above the last line, before clamping to the text. */
  lemma DownCursor(e: Editor, shift: bool)
    requires e.cursor < |e.text| && LineEnd(e.text, e.cursor) < |e.text|
    ensures var nls := LineEnd(e.text, e.cursor) + 1;
      var target := Min(Columns(e.text, LineStart(e.text, e.cursor), e.cursor), Columns(e.text, nls, LineEnd(e.text, nls)));
      Down(e, shift).cursor == Min(Advance(e.text, nls, target), |e.text|)
  {
  }

  /**
   * When the first line is empty, Up from the second line stops at the
   * start of the second line (offset 1), not at 0: the previous line's
   * start is computed as one past its end.
   */
  lemma UpBelowEmptyFirstLine(e: Editor, shift: bool)
    requires e.cursor <= |e.text| && 0 < e.cursor && e.text[0] == NL
    requires LineStart(e.text, e.cursor) == 1
    ensures Up(e, shift).cursor == 1
  {
  }

  /** "abcdef\nab\n" with the cursor after "abcde": Down clamps column 5 to the 2-codepoint line "ab". */
  lemma DownExample(s: seq<byte>)
    requires s == [0x61, 0x62, 0x63, 0x64, 0x65, 0x66, NL, 0x61, 0x62, NL]
    ensures Down(Editor(s, [], 5, Insert, 0, true, 0, SIZE_MAX), false).cursor == 9
  {
    var e := Editor(s, [], 5, Insert, 0, true, 0, SIZE_MAX);
    assert LineStart(s, 5) == 0;
    assert s[5] != NL && s[6] == NL;
    assert LineEnd(s, 5) == 6;
    assert s[7] != NL && s[8] != NL && s[9] == NL;
    assert LineEnd(s, 7) == 9;
    assert Columns(s, 0, 5) == 5;
    assert Columns(s, 7, 9) == 2;
    assert Advance(s, 7, 2) == 9;
  }
}
