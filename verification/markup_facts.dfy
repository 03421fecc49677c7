/**
 * Properties of the markup parser: the format flags, the step-by-step
 * behaviour of `parse` (priority of the constructs), line breaks, and the
 * worked examples of nesting and rewinding.
 */
module MarkupFacts {
  import opened Bytes
  import opened Markup

  /** Every named format is a distinct single bit, and `Plain` is no bit at all. */
  lemma FormatBitsDistinct()
    ensures Plain == 0
    ensures forall i :: 0 <= i < |NamedFormats| ==> NamedFormats[i] != 0 && NamedFormats[i] & (NamedFormats[i] - 1) == 0
    ensures forall i, j :: 0 <= i < j < |NamedFormats| ==> NamedFormats[i] & NamedFormats[j] == 0
    ensures Emphasis & (Head1 | Head2 | Head3 | Code | Strike | List | Table) == 0
  {
  }

  /** One iteration of the `parse_all` loop: the token of `parse` is appended and the cursor moves past it. */
  lemma RunAppends(p: Parser, t: Token, next: nat)
    requires p.cursor < |p.input| && Parse(p.input, p.cursor) == Step(t, next)
    ensures RunParseAll(p) == RunParseAll(Parser(p.input, next, p.tokens + [t]))
  {
  }

  /** At the end of the input the `parse_all` loop stops. */
  lemma RunStops(p: Parser)
    requires p.cursor == |p.input|
    ensures RunParseAll(p) == p
  {
  }

  /** The end of a plain run is determined by its defining property. */
  lemma {:induction false} PlainEndIs(input: seq<byte>, pos: nat, e: nat)
    requires pos <= e <= |input|
    requires forall k :: pos <= k < e ==> !IsSpecial(input[k])
    requires e == |input| || IsSpecial(input[e])
    ensures PlainEnd(input, pos) == e
    decreases e - pos
  {
    if pos < e {
      PlainEndIs(input, pos + 1, e);
    }
  }

  /** A fresh `FormattedString` is exactly what `parse_plain` returns at a special byte or at the end. */
  lemma PlainAtStopIsFresh(input: seq<byte>, pos: nat)
    requires pos <= |input|
    requires pos == |input| || IsSpecial(input[pos])
    ensures ParsePlain(input, pos) == Step(EmptyString, pos)
  {
    PlainEndIs(input, pos, pos);
  }

  /** `match` fails as soon as the first byte differs. */
  lemma MatchFailsAtHead(input: seq<byte>, pos: nat, pat: seq<byte>)
    requires 0 < |pat| && pos < |input| && input[pos] != pat[0]
    ensures !Match(input, pos, pat).ok
  {
    if pos + |pat| <= |input| {
      assert input[pos..pos + |pat|][0] == input[pos];
    }
  }

  // The priority of `parse`: `**`, then `/`, then `*`, then a line break, then a plain run.

  lemma ParseOpensBold(input: seq<byte>, pos: nat)
    requires pos + 2 <= |input| && input[pos] == STAR && input[pos + 1] == STAR
    ensures Parse(input, pos) == Delimited(input, [STAR, STAR], pos + 2, pos + 2, Bold)
  {
    assert input[pos..pos + 2] == [STAR, STAR];
  }

  lemma ParseOpensSlash(input: seq<byte>, pos: nat)
    requires pos < |input| && input[pos] == SLASH
    ensures Parse(input, pos) == Delimited(input, [SLASH], pos + 1, pos + 1, Italic)
  {
    MatchFailsAtHead(input, pos, [STAR, STAR]);
    assert input[pos..pos + 1] == [SLASH];
  }

  lemma ParseOpensStar(input: seq<byte>, pos: nat)
    requires pos < |input| && input[pos] == STAR && (pos + 1 == |input| || input[pos + 1] != STAR)
    ensures Parse(input, pos) == Delimited(input, [STAR], pos + 1, pos + 1, Italic)
  {
    assert !Match(input, pos, [STAR, STAR]).ok by {
      if pos + 2 <= |input| {
        assert input[pos..pos + 2][1] == input[pos + 1];
      }
    }
    MatchFailsAtHead(input, pos, [SLASH]);
    assert input[pos..pos + 1] == [STAR];
  }

  lemma ParseBreaksLine(input: seq<byte>, pos: nat)
    requires pos < |input| && input[pos] == NL
    ensures Parse(input, pos) == Step(NewLine, pos + 1)
  {
    MatchFailsAtHead(input, pos, [STAR, STAR]);
    MatchFailsAtHead(input, pos, [SLASH]);
    MatchFailsAtHead(input, pos, [STAR]);
    assert input[pos..pos + 1] == [NL];
  }

  /** A plain run never contains `*`, `/` or `\n`, and stops at the first of them or at the end. */
  lemma ParseReadsPlain(input: seq<byte>, pos: nat, e: nat)
    requires pos < e <= |input|
    requires forall k :: pos <= k < e ==> !IsSpecial(input[k])
    requires e == |input| || IsSpecial(input[e])
    ensures Parse(input, pos) == Step(FormattedString(Plain, input[pos..e]), e)
  {
    MatchFailsAtHead(input, pos, [STAR, STAR]);
    MatchFailsAtHead(input, pos, [SLASH]);
    MatchFailsAtHead(input, pos, [STAR]);
    MatchFailsAtHead(input, pos, [NL]);
    PlainEndIs(input, pos, e);
  }

  // Steps of the bold/italic loop.

  /** The bytes at `cur` are not the delimiter `which`, because the first byte differs. */
  lemma NotClosing(input: seq<byte>, cur: nat, which: seq<byte>)
    requires 0 < |which| && cur < |input| && input[cur] != which[0]
    ensures !(cur + |which| <= |input| && input[cur..cur + |which|] == which)
  {
    if cur + |which| <= |input| {
      assert input[cur..cur + |which|][0] == input[cur];
    }
  }


  lemma LoopAtEnd(input: seq<byte>, which: seq<byte>, start: nat, fmt: Format)
    requires 0 < |which| <= start <= |input| && input[start - |which|..start] == which
    requires NL !in which && NL !in input[start..] && fmt | Emphasis == Emphasis
    ensures Delimited(input, which, start, |input|, fmt) == Step(FormattedString(fmt, which + input[start..]), |input|)
  {
  }

  lemma LoopCloses(input: seq<byte>, which: seq<byte>, start: nat, cur: nat, fmt: Format)
    requires 0 < |which| <= start <= cur && cur + |which| <= |input| && input[start - |which|..start] == which
    requires NL !in which && NL !in input[start..cur] && fmt | Emphasis == Emphasis
    requires input[cur..cur + |which|] == which
    ensures Delimited(input, which, start, cur, fmt)
         == Step(FormattedString(fmt, which + input[start..cur + |which|]), cur + |which|)
  {
  }

  lemma LoopRewinds(input: seq<byte>, which: seq<byte>, start: nat, cur: nat, fmt: Format, e: nat)
    requires 0 < |which| <= start <= cur < |input| && input[start - |which|..start] == which
    requires NL !in which && NL !in input[start..cur] && fmt | Emphasis == Emphasis
    requires input[cur] == NL
    requires start <= e <= |input| && (forall k :: start <= k < e ==> !IsSpecial(input[k]))
    requires e == |input| || IsSpecial(input[e])
    ensures Delimited(input, which, start, cur, fmt) == Step(FormattedString(Plain, which + input[start..e]), e)
  {
    assert which[0] in which;
    NotClosing(input, cur, which);
    PlainEndIs(input, start, e);
  }

  lemma LoopContinues(input: seq<byte>, which: seq<byte>, start: nat, cur: nat, fmt: Format)
    requires 0 < |which| <= start <= cur < |input| && input[start - |which|..start] == which
    requires NL !in which && NL !in input[start..cur] && fmt | Emphasis == Emphasis
    requires !(cur + |which| <= |input| && input[cur..cur + |which|] == which)
    requires input[cur] != NL
    ensures var t := Parse(input, cur);
      t.token.FormattedString? && cur < t.next <= |input| && NL !in input[start..t.next]
      && Delimited(input, which, start, cur, fmt) == Delimited(input, which, start, t.next, fmt | t.token.format)
  {
    var t := Parse(input, cur);
    SliceJoin(input, start, cur, t.next);
  }

  /** The loop skips a plain run that does not start with the delimiter. */
  lemma LoopSkipsPlain(input: seq<byte>, which: seq<byte>, start: nat, cur: nat, e: nat, fmt: Format)
    requires 0 < |which| <= start <= cur < e <= |input| && input[start - |which|..start] == which
    requires NL !in which && NL !in input[start..cur] && fmt | Emphasis == Emphasis
    requires input[cur] != which[0]
    requires forall k :: cur <= k < e ==> !IsSpecial(input[k])
    requires e == |input| || IsSpecial(input[e])
    ensures NL !in input[start..e]
    ensures Delimited(input, which, start, cur, fmt) == Delimited(input, which, start, e, fmt)
  {
    NotClosing(input, cur, which);
    ParseReadsPlain(input, cur, e);
    LoopContinues(input, which, start, cur, fmt);
    assert fmt | Plain == fmt;
  }

  /** The loop skips a nested construct (or run) `t` and merges its format bits. */
  lemma LoopSkipsNested(input: seq<byte>, which: seq<byte>, start: nat, cur: nat, t: Token, next: nat, fmt: Format)
    requires 0 < |which| <= start <= cur < |input| && input[start - |which|..start] == which
    requires NL !in which && NL !in input[start..cur] && fmt | Emphasis == Emphasis
    requires !(cur + |which| <= |input| && input[cur..cur + |which|] == which) && input[cur] != NL
    requires Parse(input, cur) == Step(t, next)
    ensures t.FormattedString? && cur < next <= |input| && NL !in input[start..next]
    ensures Delimited(input, which, start, cur, fmt) == Delimited(input, which, start, next, fmt | t.format)
  {
    LoopContinues(input, which, start, cur, fmt);
  }

  /** A construct that never meets a line break is never rewound: it keeps its format bits. */
  lemma {:induction false} NoBreakNoRewind(input: seq<byte>, which: seq<byte>, start: nat, cur: nat, fmt: Format)
    requires 0 < |which| <= start <= cur <= |input| && input[start - |which|..start] == which
    requires NL !in which && NL !in input[start..] && fmt | Emphasis == Emphasis
    ensures var s := Delimited(input, which, start, cur, fmt); s.token.format & fmt == fmt
    decreases |input| - cur
  {
    assert input[start..cur] + input[cur..] == input[start..];
    if cur < |input| && !(cur + |which| <= |input| && input[cur..cur + |which|] == which) {
      assert input[cur] in input[start..];
      LoopContinues(input, which, start, cur, fmt);
      var t := Parse(input, cur);
      NoBreakNoRewind(input, which, start, t.next, fmt | t.token.format);
    }
  }

  /** A rewound construct did meet a line break somewhere after the loop cursor. */
  lemma RewindNeedsBreak(input: seq<byte>, which: seq<byte>, start: nat, cur: nat, fmt: Format)
    requires 0 < |which| <= start <= cur <= |input| && input[start - |which|..start] == which
    requires NL !in which && NL !in input[start..cur] && fmt | Emphasis == Emphasis && fmt != Plain
    requires Delimited(input, which, start, cur, fmt).token.format == Plain
    ensures NL in input[cur..]
  {
    if NL !in input[cur..] {
      assert input[start..] == input[start..cur] + input[cur..];
      NoBreakNoRewind(input, which, start, cur, fmt);
      assert false;
    }
  }

  /** Number of `NewLine` tokens in a stream. */
  function LineBreaks(ts: seq<Token>): nat
  {
    if |ts| == 0 then 0 else (if ts[0].NewLine? then 1 else 0) + LineBreaks(ts[1..])
  }

  /** In a stream of well-shaped tokens, every `\n` of the text is exactly one `NewLine` token. */
  lemma {:induction false} BreaksAreNewLines(ts: seq<Token>)
    requires forall k :: 0 <= k < |ts| ==> WellShaped(ts[k])
    ensures LineBreaks(ts) == Count(Flatten(ts), NL)
  {
    if |ts| > 0 {
      BreaksAreNewLines(ts[1..]);
      CountAppend(TokenText(ts[0]), Flatten(ts[1..]), NL);
      if ts[0].NewLine? {
        assert Count([NL], NL) == Count([], NL) + 1 by { assert [NL][..0] == []; }
      } else {
        CountBound(TokenText(ts[0]), NL);
      }
    }
  }

  /** Each `\n` of the input becomes exactly one `NewLine` token of `parse_all`, and nothing else does. */
  lemma NewLinesOfParseAll(input: seq<byte>)
    ensures LineBreaks(ParseAll(input)) == Count(input, NL)
  {
    BreaksAreNewLines(ParseAll(input));
  }

  // Worked examples. Each text is spelled out byte by byte; the comment gives it as characters.

  /** From an empty token list, three `parse` steps that reach the end make up `parse_all`. */
  lemma ParseAllOfThree(input: seq<byte>, t0: Token, n0: nat, t1: Token, n1: nat, t2: Token)
    requires 0 < n0 < n1 < |input|
    requires Parse(input, 0) == Step(t0, n0) && Parse(input, n0) == Step(t1, n1) && Parse(input, n1) == Step(t2, |input|)
    ensures ParseAll(input) == [t0, t1, t2]
  {
    assert [] + [t0] == [t0];
    assert [t0] + [t1] == [t0, t1];
    assert [t0, t1] + [t2] == [t0, t1, t2];
    RunAppends(Parser(input, 0, []), t0, n0);
    RunAppends(Parser(input, n0, [t0]), t1, n1);
    RunAppends(Parser(input, n1, [t0, t1]), t2, |input|);
    RunStops(Parser(input, |input|, [t0, t1, t2]));
  }

  /** A single `parse` step that reaches the end makes up `parse_all`. */
  lemma ParseAllOfOne(input: seq<byte>, t0: Token)
    requires 0 < |input| && Parse(input, 0) == Step(t0, |input|)
    ensures ParseAll(input) == [t0]
  {
    assert [] + [t0] == [t0];
    RunAppends(Parser(input, 0, []), t0, |input|);
    RunStops(Parser(input, |input|, [t0]));
  }

  // `**bold\nmore`

  lemma BoldRewindsLoop(s: seq<byte>)
    requires s == [STAR, STAR, 0x62, 0x6F, 0x6C, 0x64, NL, 0x6D, 0x6F, 0x72, 0x65]
    ensures Delimited(s, [STAR, STAR], 2, 2, Bold) == Step(FormattedString(Plain, s[..6]), 6)
  {
    LoopSkipsPlain(s, [STAR, STAR], 2, 2, 6, Bold);
    LoopRewinds(s, [STAR, STAR], 2, 6, Bold, 6);
    assert [STAR, STAR] + s[2..6] == s[..6];
  }

  lemma BoldRewindsSteps(s: seq<byte>)
    requires s == [STAR, STAR, 0x62, 0x6F, 0x6C, 0x64, NL, 0x6D, 0x6F, 0x72, 0x65]
    ensures Parse(s, 0) == Step(FormattedString(Plain, s[..6]), 6)
  {
    ParseOpensBold(s, 0);
    BoldRewindsLoop(s);
  }

  /** A bold opener that meets a line break before its closer falls back to plain text, and the line break stays a token. */
  lemma ExampleBoldRewinds(s: seq<byte>)
    requires s == [STAR, STAR, 0x62, 0x6F, 0x6C, 0x64, NL, 0x6D, 0x6F, 0x72, 0x65]
    ensures ParseAll(s) == [FormattedString(Plain, [STAR, STAR, 0x62, 0x6F, 0x6C, 0x64]), NewLine,
                            FormattedString(Plain, [0x6D, 0x6F, 0x72, 0x65])]
  {
    BoldRewindsSteps(s);
    ParseBreaksLine(s, 6);
    ParseReadsPlain(s, 7, 11);
    assert s[..6] == [STAR, STAR, 0x62, 0x6F, 0x6C, 0x64];
    assert s[7..11] == [0x6D, 0x6F, 0x72, 0x65];
    ParseAllOfThree(s, FormattedString(Plain, s[..6]), 6, NewLine, 7, FormattedString(Plain, s[7..11]));
  }

  // `**a/b\n`

  lemma InnerRewindSlash(s: seq<byte>)
    requires s == [STAR, STAR, 0x61, SLASH, 0x62, NL]
    ensures Parse(s, 3) == Step(FormattedString(Plain, s[3..5]), 5)
  {
    ParseOpensSlash(s, 3);
    InnerRewindSlashLoop(s);
  }

  lemma InnerRewindSlashLoop(s: seq<byte>)
    requires s == [STAR, STAR, 0x61, SLASH, 0x62, NL]
    ensures Delimited(s, [SLASH], 4, 4, Italic) == Step(FormattedString(Plain, s[3..5]), 5)
  {
    LoopSkipsPlain(s, [SLASH], 4, 4, 5, Italic);
    LoopRewinds(s, [SLASH], 4, 5, Italic, 5);
    assert [SLASH] + s[4..5] == s[3..5];
  }

  lemma InnerRewindBoldLoop(s: seq<byte>)
    requires s == [STAR, STAR, 0x61, SLASH, 0x62, NL]
    ensures Delimited(s, [STAR, STAR], 2, 3, Bold) == Step(FormattedString(Plain, s[..3]), 3)
  {
    InnerRewindSlash(s);
    NotClosing(s, 3, [STAR, STAR]);
    LoopSkipsNested(s, [STAR, STAR], 2, 3, FormattedString(Plain, s[3..5]), 5, Bold);
    assert Bold | Plain == Bold;
    LoopRewinds(s, [STAR, STAR], 2, 5, Bold, 3);
    assert [STAR, STAR] + s[2..3] == s[..3];
  }

  lemma InnerRewindBoldFrom(s: seq<byte>)
    requires s == [STAR, STAR, 0x61, SLASH, 0x62, NL]
    ensures Delimited(s, [STAR, STAR], 2, 2, Bold) == Step(FormattedString(Plain, s[..3]), 3)
  {
    LoopSkipsPlain(s, [STAR, STAR], 2, 2, 3, Bold);
    InnerRewindBoldLoop(s);
  }

  lemma InnerRewindBold(s: seq<byte>)
    requires s == [STAR, STAR, 0x61, SLASH, 0x62, NL]
    ensures Parse(s, 0) == Step(FormattedString(Plain, s[..3]), 3)
  {
    ParseOpensBold(s, 0);
    InnerRewindBoldFrom(s);
  }

  /**
   * A rewound outer construct discards what it scanned: the nested `/b`
   * is read again from scratch after the outer `**` falls back.
   */
  lemma ExampleNestedRewind(s: seq<byte>)
    requires s == [STAR, STAR, 0x61, SLASH, 0x62, NL]
    ensures ParseAll(s) == [FormattedString(Plain, [STAR, STAR, 0x61]), FormattedString(Plain, [SLASH, 0x62]), NewLine]
  {
    InnerRewindBold(s);
    InnerRewindSlash(s);
    ParseBreaksLine(s, 5);
    assert s[..3] == [STAR, STAR, 0x61];
    assert s[3..5] == [SLASH, 0x62];
    ParseAllOfThree(s, FormattedString(Plain, s[..3]), 3, FormattedString(Plain, s[3..5]), 5, NewLine);
  }

  // `**a*b**`

  lemma StarInner(s: seq<byte>)
    requires s == [STAR, STAR, 0x61, STAR, 0x62, STAR, STAR]
    ensures Parse(s, 3) == Step(FormattedString(Italic, s[3..6]), 6)
  {
    ParseOpensStar(s, 3);
    StarInnerLoop(s);
  }

  lemma StarInnerLoop(s: seq<byte>)
    requires s == [STAR, STAR, 0x61, STAR, 0x62, STAR, STAR]
    ensures Delimited(s, [STAR], 4, 4, Italic) == Step(FormattedString(Italic, s[3..6]), 6)
  {
    LoopSkipsPlain(s, [STAR], 4, 4, 5, Italic);
    assert s[5..6] == [STAR];
    LoopCloses(s, [STAR], 4, 5, Italic);
    assert [STAR] + s[4..6] == s[3..6];
  }

  lemma StarTrailing(s: seq<byte>)
    requires s == [STAR, STAR, 0x61, STAR, 0x62, STAR, STAR]
    ensures Parse(s, 6) == Step(FormattedString(Italic, s[6..]), 7)
  {
    ParseOpensStar(s, 6);
    LoopAtEnd(s, [STAR], 7, Italic);
    assert [STAR] + s[7..] == s[6..];
  }

  lemma StarOuterHead(s: seq<byte>)
    requires s == [STAR, STAR, 0x61, STAR, 0x62, STAR, STAR]
    ensures NL !in s[2..6]
    ensures Delimited(s, [STAR, STAR], 2, 2, Bold) == Delimited(s, [STAR, STAR], 2, 6, Bold | Italic)
  {
    LoopSkipsPlain(s, [STAR, STAR], 2, 2, 3, Bold);
    StarInner(s);
    assert s[3..5][1] == 0x62;
    LoopSkipsNested(s, [STAR, STAR], 2, 3, FormattedString(Italic, s[3..6]), 6, Bold);
  }

  lemma StarOuterTail(s: seq<byte>)
    requires s == [STAR, STAR, 0x61, STAR, 0x62, STAR, STAR]
    ensures Delimited(s, [STAR, STAR], 2, 6, Bold | Italic) == Step(FormattedString(Bold | Italic, s), 7)
  {
    StarTrailing(s);
    LoopSkipsNested(s, [STAR, STAR], 2, 6, FormattedString(Italic, s[6..]), 7, Bold | Italic);
    assert Bold | Italic | Italic == Bold | Italic;
    LoopAtEnd(s, [STAR, STAR], 2, Bold | Italic);
    assert [STAR, STAR] + s[2..] == s;
  }

  /**
   * A construct nested inside another merges its format bits into the
   * outer token. Here the inner `*b*` takes the first star of the closing
   * `**`, so the bold run is ended by the end of input instead.
   */
  lemma ExampleNested(s: seq<byte>)
    requires s == [STAR, STAR, 0x61, STAR, 0x62, STAR, STAR]
    ensures ParseAll(s) == [FormattedString(Bold | Italic, s)]
  {
    ParseOpensBold(s, 0);
    StarOuterHead(s);
    StarOuterTail(s);
    ParseAllOfOne(s, FormattedString(Bold | Italic, s));
  }

  // `***x`

  lemma TripleStarInner(s: seq<byte>)
    requires s == [STAR, STAR, STAR, 0x78]
    ensures Parse(s, 2) == Step(FormattedString(Italic, s[2..]), 4)
  {
    ParseOpensStar(s, 2);
    TripleStarLoop(s);
  }

  lemma TripleStarLoop(s: seq<byte>)
    requires s == [STAR, STAR, STAR, 0x78]
    ensures Delimited(s, [STAR], 3, 3, Italic) == Step(FormattedString(Italic, s[2..]), 4)
  {
    LoopSkipsPlain(s, [STAR], 3, 3, 4, Italic);
    LoopAtEnd(s, [STAR], 3, Italic);
    assert [STAR] + s[3..] == s[2..];
  }

  /** `**` is tried before `*`: three stars open bold, then italic inside it. */
  lemma ExampleTripleStar(s: seq<byte>)
    requires s == [STAR, STAR, STAR, 0x78]
    ensures ParseAll(s) == [FormattedString(Bold | Italic, s)]
  {
    ParseOpensBold(s, 0);
    TripleStarInner(s);
    assert s[2..4][1] == 0x78;
    LoopSkipsNested(s, [STAR, STAR], 2, 2, FormattedString(Italic, s[2..]), 4, Bold);
    LoopAtEnd(s, [STAR, STAR], 2, Bold | Italic);
    assert [STAR, STAR] + s[2..] == s;
    ParseAllOfOne(s, FormattedString(Bold | Italic, s));
  }

  // `**abc`

  /** An unterminated construct that reaches the end of input keeps its format. */
  lemma ExampleUnterminated(s: seq<byte>)
    requires s == [STAR, STAR, 0x61, 0x62, 0x63]
    ensures ParseAll(s) == [FormattedString(Bold, s)]
  {
    BoldToEnd(s);
    ParseAllOfOne(s, FormattedString(Bold, s));
  }

  /** `**` followed by a plain run up to the end of input is one Bold token spanning all of it. */
  lemma BoldToEnd(s: seq<byte>)
    requires |s| > 2 && s[0] == STAR && s[1] == STAR
    requires forall k :: 2 <= k < |s| ==> !IsSpecial(s[k])
    ensures Parse(s, 0) == Step(FormattedString(Bold, s), |s|)
  {
    ParseOpensBold(s, 0);
    BoldLoopToEnd(s);
  }

  lemma BoldLoopToEnd(s: seq<byte>)
    requires |s| > 2 && s[0] == STAR && s[1] == STAR
    requires forall k :: 2 <= k < |s| ==> !IsSpecial(s[k])
    ensures Delimited(s, [STAR, STAR], 2, 2, Bold) == Step(FormattedString(Bold, s), |s|)
  {
    assert s[0..2] == [STAR, STAR];
    LoopSkipsPlain(s, [STAR, STAR], 2, 2, |s|, Bold);
    LoopAtEnd(s, [STAR, STAR], 2, Bold);
    assert [STAR, STAR] + s[2..] == s;
  }
}
