/**
 * The byte-offset scans behind the editor's cursor keys: the Ctrl word
 * scans of Backspace, Left and Right, the line searches of Up, Down, Home
 * and End, and the codepoint counting that keeps the column on Up and Down.
 */
module Motion {
  import opened Wrappers
  import opened Bytes
  import opened Utf8

  /** The word-stop strings of `event`, each a single ASCII byte. */
  const StopBytes: set<byte> := {
    NL, 0x20, TAB, 0x28, 0x29, 0x7B, 0x7D, LBRACKET, RBRACKET, 0x3C, 0x3E,
    0x2C, 0x2E, 0x3B, 0x3A, 0x21, 0x3F, 0x22, 0x27, DASH, 0x5F, 0x2B,
    0x3D, STAR, SLASH, 0x25, 0x26, PIPE, 0x5E, TILDE, BACKSLASH, 0x60
  }

  /** Membership of a scanned string in the word-stop set. */
  predicate IsStop(str: seq<byte>) {
    |str| == 1 && str[0] in StopBytes
  }

  /** Every word stop is an ASCII byte, so never a continuation byte. */
  lemma StopsAreAscii(b: byte)
    requires b in StopBytes
    ensures b < 0x80 && !IsCont(b)
  {
  }

  /**
   * The Ctrl+Backspace loop, from loop index `i` (initially `cursor - 1`):
   * step back one `utf8_prev_len` segment at a time and stop right after
   * crossing a word stop, or at 0. The result is where deletion starts.
   */
  function BackspaceScan(text: seq<byte>, i: nat): (j: nat)
    requires i <= |text|
    ensures j <= i && (i > 0 ==> j < i)
    ensures j > 0 ==> text[j] in StopBytes
    ensures forall k :: j < k < i && text[k] in StopBytes ==> k + 1 < i && IsCont(text[k + 1])
    decreases i
  {
    if i == 0 then 0
    else
      var l := PrevLen(text, i);
      if IsStop(text[i - l..i]) then
        ScanCrossed(text, i, l);
        i - l
      else
        var j := BackspaceScan(text, i - l);
        SkippedSegment(text, i, l);
        j
  }

  /** Inside a segment found by `utf8_prev_len` only continuation bytes follow its first byte. */
  lemma ScanCrossed(text: seq<byte>, i: nat, l: nat)
    requires 0 < i <= |text| && l == PrevLen(text, i)
    ensures forall k :: i - l < k < i ==> text[k] !in StopBytes
  {
    forall k | i - l < k < i
      ensures text[k] !in StopBytes
    {
      if text[k] in StopBytes {
        StopsAreAscii(text[k]);
      }
    }
  }

  /** A crossed segment that is not a word stop holds no stop byte, except one followed by a continuation byte. */
  lemma SkippedSegment(text: seq<byte>, i: nat, l: nat)
    requires 0 < i <= |text| && l == PrevLen(text, i) && !IsStop(text[i - l..i])
    ensures forall k :: i - l <= k < i && text[k] in StopBytes ==> k + 1 < i && IsCont(text[k + 1])
  {
    ScanCrossed(text, i, l);
    if l == 1 {
      assert text[i - l..i] == [text[i - 1]];
    } else {
      assert IsCont(text[i - l + 1]);
    }
  }

  /**
   * The Ctrl+Left loop, from loop index `i` (initially `cursor - 1`). It
   * stops before a segment that is a line break (the `i != cursor` test can
   * never fail, since `i < cursor`), or right after crossing a word stop,
   * or at 0.
   */
  function LeftWordScan(text: seq<byte>, cursor: nat, i: nat): (j: nat)
    requires i < cursor <= |text|
    ensures j <= i
    ensures j > 0 ==> text[j] in StopBytes || text[j - 1] == NL
    ensures forall k :: j <= k < i && text[k] == NL ==> k + 1 < i && IsCont(text[k + 1])
    ensures forall k :: j < k < i && text[k] in StopBytes ==> k + 1 < i && IsCont(text[k + 1])
    decreases i
  {
    if i == 0 then 0
    else
      var l := PrevLen(text, i);
      var str := text[i - l..i];
      if str == [NL] && i != cursor then i
      else if IsStop(str) then
        ScanCrossed(text, i, l);
        i - l
      else
        var j := LeftWordScan(text, cursor, i - l);
        SkippedSegment(text, i, l);
        assert NL in StopBytes;
        j
  }

  /**
   * The Ctrl+Right loop, from loop index `i` (initially `cursor`). It
   * steps forward one `utf8_next_len` segment at a time (`substr` clips the
   * last one at the end of the text), stops before a line break other than
   * the first segment, or right after crossing a word stop. On malformed
   * text it can overshoot the end by up to three bytes.
   */
  function RightWordScan(text: seq<byte>, cursor: nat, i: nat): (j: nat)
    requires cursor <= i
    ensures i <= j && (i < |text| ==> j <= |text| + 3)
    ensures i >= |text| ==> j == i
    ensures cursor == i < |text| ==> j > i
    ensures j < |text| && j > i ==> text[j] == NL || text[j - 1] in StopBytes
    ensures j == i < |text| ==> text[j] == NL && i != cursor
    decreases (|text| as int) - (i as int)
  {
    if i >= |text| then i
    else
      var l := NextLen(text, i);
      var str := text[i..if i + l <= |text| then i + l else |text|];
      if str == [NL] && i != cursor then i
      else if IsStop(str) then i + l
      else RightWordScan(text, cursor, i + l)
  }

  /**
   * Codepoint count of the loop `for (i = from; i < to; i += utf8_next_len(text, i)) ++col`:
   * the number of segment steps from `from` until reaching or passing `to`.
   */
  function Columns(text: seq<byte>, from: nat, to: nat): (n: nat)
    requires to <= |text|
    ensures from < to ==> n <= to - from
    ensures from >= to ==> n == 0
    decreases (to as int) - (from as int)
  {
    if from >= to then 0
    else 1 + Columns(text, from + NextLen(text, from), to)
  }

  /** `byte_pos` after `k` steps of `byte_pos += utf8_next_len(text, byte_pos)` from `from`. */
  function Advance(text: seq<byte>, from: nat, k: nat): (p: nat)
    ensures from <= p
    ensures from >= |text| ==> p == from
    decreases k
  {
    if k == 0 then from
    else Advance(text, from + NextLen(text, from), k - 1)
  }

  /** Start of the line holding offset `c` (just after the last line break before it). */
  function LineStart(text: seq<byte>, c: nat): (s: nat)
    requires c <= |text|
    ensures s <= c
    ensures s > 0 ==> text[s - 1] == NL
    ensures forall k :: s <= k < c ==> text[k] != NL
  {
    if c == 0 then 0
    else match RFind(text, NL, c - 1)
      case None => 0
      case Some(p) => p + 1
  }

  /** End of the line holding offset `c`: the first line break at or after it, or the end of the text. */
  function LineEnd(text: seq<byte>, c: nat): (e: nat)
    requires c <= |text|
    ensures c <= e <= |text|
    ensures e < |text| ==> text[e] == NL
    ensures forall k :: c <= k < e ==> text[k] != NL
  {
    match Find(text, NL, c)
    case None => |text|
    case Some(p) => p
  }
}
