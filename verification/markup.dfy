/**
 * The markup parser of `markup.cpp`: a recursive-descent scanner over the
 * bytes of the buffer that recognises `**bold**`, `*italic*`, `/italic/`,
 * line breaks and plain runs, and turns them into a flat token stream.
 */
module Markup {
  import opened Bytes

  /** The `Format` bit flags; a token's format is any OR of them. */
  type Format = bv32

  const Plain: Format := 0x0
  const Italic: Format := 0x1
  const Bold: Format := 0x2
  const Head1: Format := 0x4
  const Head2: Format := 0x8
  const Head3: Format := 0x10
  const Code: Format := 0x20
  const Strike: Format := 0x40
  const List: Format := 0x80
  const Table: Format := 0x100

  /** The named formats other than `Plain`, in declaration order. */
  const NamedFormats: seq<Format> := [Italic, Bold, Head1, Head2, Head3, Code, Strike, List, Table]

  /** The only bits the shown parser ever sets. */
  const Emphasis: Format := Bold | Italic

  /** A token: a hard line break, a run of text sharing one format, or an image reference. */
  datatype Token =
    | NewLine
    | FormattedString(format: Format, value: seq<byte>)
    | Image(path: seq<byte>)

  /** A fresh `FormattedString`: format 0 and an empty value. */
  const EmptyString: Token := FormattedString(Plain, [])

  /** The bytes a token stands for: one `\n` per line break, the value of a run, nothing for an image. */
  function TokenText(t: Token): seq<byte> {
    match t
    case NewLine => [NL]
    case FormattedString(_, v) => v
    case Image(_) => []
  }

  /** Concatenation of the token texts, in order. */
  function Flatten(ts: seq<Token>): seq<byte>
  {
    if |ts| == 0 then [] else TokenText(ts[0]) + Flatten(ts[1..])
  }

  lemma FlattenCons(ts: seq<Token>)
    requires |ts| > 0
    ensures Flatten(ts) == TokenText(ts[0]) + Flatten(ts[1..])
  {
  }

  /** A token as the shown parser can produce it. */
  predicate WellShaped(t: Token) {
    && !t.Image?
    && (t.FormattedString? ==>
          && t.format | Emphasis == Emphasis
          && NL !in t.value)
  }

  /** The parser's state: its input, the byte cursor, and the tokens emitted so far. */
  datatype Parser = Parser(input: seq<byte>, cursor: nat, tokens: seq<Token>)

  /** A new parser: cursor 0 and no tokens. */
  function NewParser(input: seq<byte>): (p: Parser)
    ensures p.input == input && p.cursor == 0 && p.tokens == []
  {
    Parser(input, 0, [])
  }

  /** One parse step: the token produced and the cursor after it. */
  datatype Step = Step(token: Token, next: nat)

  /** Outcome of `match`: whether the pattern matched and the cursor after the attempt. */
  datatype Matched = Matched(ok: bool, cursor: nat)

  predicate IsEof(input: seq<byte>, cur: nat) {
    cur >= |input|
  }

  /** `peek`: the byte at the cursor, or `EOF` (-1, the byte 0xFF as a `char`) past the end. */
  function Peek(input: seq<byte>, cur: nat): byte {
    if IsEof(input, cur) then 0xFF else input[cur]
  }

  predicate IsSpecial(c: byte) {
    c == STAR || c == NL || c == SLASH
  }

  /**
   * `match`: compares `pat` with the input at the cursor and advances past it
   * on success. The size test is done in `size_t`, where `0 - 1` wraps to the
   * largest value, so an empty pattern at cursor 0 never matches.
   */
  function Match(input: seq<byte>, cur: nat, pat: seq<byte>): (m: Matched)
    ensures |pat| > 0 ==> (m.ok <==> cur + |pat| <= |input| && input[cur..cur + |pat|] == pat)
    ensures |pat| == 0 ==> (m.ok <==> 0 < cur <= |input|)
    ensures m.cursor == if m.ok then cur + |pat| else cur
  {
    if cur + |pat| == 0 then Matched(false, cur)
    else if cur + |pat| - 1 >= |input| then Matched(false, cur)
    else if forall i :: 0 <= i < |pat| ==> pat[i] == input[cur + i] then
      assert input[cur..cur + |pat|] == pat;
      Matched(true, cur + |pat|)
    else Matched(false, cur)
  }

  /** End of the plain run starting at `cur`: the first special byte or the end of input. */
  function PlainEnd(input: seq<byte>, cur: nat): (e: nat)
    requires cur <= |input|
    ensures cur <= e <= |input|
    ensures forall k :: cur <= k < e ==> !IsSpecial(input[k])
    ensures e == |input| || IsSpecial(input[e])
    decreases |input| - cur
  {
    if IsEof(input, cur) || IsSpecial(Peek(input, cur)) then cur
    else PlainEnd(input, cur + 1)
  }

  /** `parse_plain`: a format-0 run of non-special bytes, empty at a special byte or at the end. */
  function ParsePlain(input: seq<byte>, cur: nat): (s: Step)
    requires cur <= |input|
    ensures s.next == PlainEnd(input, cur)
    ensures s.token == FormattedString(Plain, input[cur..s.next])
  {
    var e := PlainEnd(input, cur);
    Step(FormattedString(Plain, input[cur..e]), e)
  }

  /** The step consumed input from `pos` onwards and its token text is exactly the consumed slice. */
  predicate Consumes(input: seq<byte>, pos: nat, s: Step) {
    pos < s.next <= |input| && TokenText(s.token) == input[pos..s.next]
  }

  /**
   * `parse`: at a position that is not the end, tries `**`, then `/`, then
   * `*`, then a line break, and otherwise reads a plain run.
   */
  function Parse(input: seq<byte>, pos: nat): (s: Step)
    requires pos < |input|
    ensures Consumes(input, pos, s) && WellShaped(s.token) && (s.token.NewLine? <==> input[pos] == NL)
    decreases |input| - pos, 0
  {
    var bold := Match(input, pos, [STAR, STAR]);
    if bold.ok then ParseBold(input, bold.cursor)
    else
      var slash := Match(input, pos, [SLASH]);
      if slash.ok then ParseItalic(input, SLASH, slash.cursor)
      else
        var star := Match(input, pos, [STAR]);
        if star.ok then ParseItalic(input, STAR, star.cursor)
        else
          var nl := Match(input, pos, [NL]);
          if nl.ok then Step(NewLine, nl.cursor)
          else ParsePlain(input, pos)
  }

  /** `parse_bold`, entered just after an opening `**`. */
  function ParseBold(input: seq<byte>, start: nat): (s: Step)
    requires 2 <= start <= |input| && input[start - 2..start] == [STAR, STAR]
    ensures ConstructResult(input, [STAR, STAR], start, Bold, s)
    decreases |input| - start, 2
  {
    Delimited(input, [STAR, STAR], start, start, Bold)
  }

  /** `parse_italic(which)`, entered just after an opening `/` or `*`. */
  function ParseItalic(input: seq<byte>, which: byte, start: nat): (s: Step)
    requires which == SLASH || which == STAR
    requires 1 <= start <= |input| && input[start - 1] == which
    ensures ConstructResult(input, [which], start, Italic, s)
    decreases |input| - start, 2
  {
    assert input[start - 1..start] == [which];
    Delimited(input, [which], start, start, Italic)
  }

  /**
   * The construct was closed by its delimiter or ended by the end of input:
   * it keeps (at least) the format bits `fmt`.
   */
  predicate Closed(input: seq<byte>, which: seq<byte>, start: nat, fmt: Format, s: Step)
    requires s.token.FormattedString?
  {
    && s.token.format & fmt == fmt
    && (s.next == |input| || (start + |which| <= s.next <= |input| && input[s.next - |which|..s.next] == which))
  }

  /** The construct met a line break before closing and fell back to the opener plus one plain run. */
  predicate Rewound(input: seq<byte>, start: nat, s: Step)
    requires s.token.FormattedString? && start <= |input|
  {
    s.token.format == Plain && s.next == PlainEnd(input, start)
  }

  /**
   * What a construct opened by `which` just before `start` yields: a run
   * whose value is exactly the input consumed from the opener on, which is
   * well shaped, and which is either closed (keeping `fmt`) or rewound.
   */
  predicate ConstructResult(input: seq<byte>, which: seq<byte>, start: nat, fmt: Format, s: Step)
    requires |which| <= start <= |input|
  {
    && Consumes(input, start - |which|, s)
    && WellShaped(s.token) && s.token.FormattedString?
    && (Closed(input, which, start, fmt, s) || Rewound(input, start, s))
  }

  /**
   * The loop shared by `parse_bold` and `parse_italic`: `which` is the
   * delimiter, `start` the offset just after the opener, `cur` the loop
   * cursor and `fmt` the formats merged so far.
   */
  function Delimited(input: seq<byte>, which: seq<byte>, start: nat, cur: nat, fmt: Format): (s: Step)
    requires 0 < |which| <= start <= cur <= |input|
    requires input[start - |which|..start] == which
    requires NL !in which
    requires NL !in input[start..cur]
    requires fmt | Emphasis == Emphasis
    ensures ConstructResult(input, which, start, fmt, s)
    decreases |input| - cur, 1
  {
    if IsEof(input, cur) then
      EndedAt(input, which, start, cur, fmt);
      Step(FormattedString(fmt, which + input[start..cur]), cur)
    else
      var close := Match(input, cur, which);
      if close.ok then
        SliceJoin(input, start, cur, close.cursor);
        EndedAt(input, which, start, close.cursor, fmt);
        Step(FormattedString(fmt, which + input[start..close.cursor]), close.cursor)
      else
        var t := Parse(input, cur);
        if t.token.NewLine? then
          var plain := ParsePlain(input, start);
          RewoundAt(input, which, start, fmt);
          Step(FormattedString(plain.token.format, which + plain.token.value), plain.next)
        else
          var merged := if t.token.FormattedString? then fmt | t.token.format else fmt;
          SliceJoin(input, start, cur, t.next);
          Delimited(input, which, start, t.next, merged)
  }

  /** A construct closed by its delimiter at `end`, or ended by the end of input there. */
  lemma EndedAt(input: seq<byte>, which: seq<byte>, start: nat, end: nat, fmt: Format)
    requires 0 < |which| <= start <= end <= |input| && input[start - |which|..start] == which
    requires NL !in which && NL !in input[start..end] && fmt | Emphasis == Emphasis
    requires end == |input| || (start + |which| <= end && input[end - |which|..end] == which)
    ensures ConstructResult(input, which, start, fmt, Step(FormattedString(fmt, which + input[start..end]), end))
  {
    SliceJoin(input, start - |which|, start, end);
  }

  /** A construct that met a line break: the opener followed by the plain run after it. */
  lemma RewoundAt(input: seq<byte>, which: seq<byte>, start: nat, fmt: Format)
    requires 0 < |which| <= start <= |input| && input[start - |which|..start] == which
    requires NL !in which
    ensures var e := PlainEnd(input, start);
      ConstructResult(input, which, start, fmt, Step(FormattedString(Plain, which + input[start..e]), e))
  {
    var e := PlainEnd(input, start);
    SliceJoin(input, start - |which|, start, e);
    assert forall k :: 0 <= k < e - start ==> input[start..e][k] == input[start + k];
  }

  /** A slice splits at any offset inside it. */
  lemma SliceJoin(input: seq<byte>, a: nat, b: nat, c: nat)
    requires a <= b <= c <= |input|
    ensures input[a..c] == input[a..b] + input[b..c]
  {
  }

  /**
   * `q` extends the tokens of `p` with well-shaped tokens that spell out
   * exactly the input from `p`'s cursor on.
   */
  predicate Extends(p: Parser, q: Parser)
    requires p.cursor <= |p.input|
  {
    && |q.tokens| >= |p.tokens|
    && q.tokens[..|p.tokens|] == p.tokens
    && Flatten(q.tokens[|p.tokens|..]) == p.input[p.cursor..]
    && forall k :: |p.tokens| <= k < |q.tokens| ==> WellShaped(q.tokens[k])
  }

  /**
   * The loop of `parse_all`: while not at the end, append the next token.
   * Tokens already present are kept, and the new ones spell out the rest of
   * the input exactly.
   */
  function RunParseAll(p: Parser): (q: Parser)
    requires p.cursor <= |p.input|
    ensures q.input == p.input && q.cursor == |p.input|
    ensures Extends(p, q)
    decreases |p.input| - p.cursor
  {
    if IsEof(p.input, p.cursor) then p
    else
      var s := Parse(p.input, p.cursor);
      var p' := Parser(p.input, s.next, p.tokens + [s.token]);
      var q := RunParseAll(p');
      AppendedStep(p, s, p', q);
      q
  }

  /** One more step of `parse_all` extends what the earlier steps established. */
  lemma AppendedStep(p: Parser, s: Step, p': Parser, q: Parser)
    requires p.cursor < |p.input| && Consumes(p.input, p.cursor, s) && WellShaped(s.token)
    requires p' == Parser(p.input, s.next, p.tokens + [s.token])
    requires Extends(p', q)
    ensures Extends(p, q)
  {
    var n := |p.tokens|;
    assert q.tokens[..n] == q.tokens[..n + 1][..n];
    assert q.tokens[n] == q.tokens[..n + 1][n] == s.token;
    FlattenCons(q.tokens[n..]);
    assert q.tokens[n..][1..] == q.tokens[n + 1..];
    assert p.input[p.cursor..] == p.input[p.cursor..s.next] + p.input[s.next..];
  }

  /** The whole buffer parsed from a new parser: the tokens spell out the input exactly. */
  function ParseAll(input: seq<byte>): (ts: seq<Token>)
    ensures Flatten(ts) == input
    ensures forall k :: 0 <= k < |ts| ==> WellShaped(ts[k])
  {
    var q := RunParseAll(NewParser(input));
    assert q.tokens[0..] == q.tokens && input[0..] == input;
    q.tokens
  }
}
