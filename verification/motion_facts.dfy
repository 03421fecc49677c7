/**
 * What the cursor scans guarantee on well-formed UTF-8: they stop on
 * codepoint boundaries, counting and advancing by codepoints agree, and
 * the Ctrl word scans never cross a line break other than the first
 * codepoint they step over.
 */
module MotionFacts {
  import opened Bytes
  import opened Utf8
  import opened Motion

  /** On well-formed text an ASCII byte is a whole codepoint: the next offset is a boundary. */
  lemma AsciiThenBoundary(s: seq<byte>, k: nat)
    requires WellFormed(s) && k < |s| && s[k] < 0x80
    ensures Boundary(s, k + 1)
  {
    assert CompleteAt(s, k);
  }

  /** A codepoint step from a boundary never jumps over a later boundary. */
  lemma NoSkip(s: seq<byte>, a: nat, b: nat)
    requires WellFormed(s) && Boundary(s, a) && Boundary(s, b) && a < b
    ensures a + NextLen(s, a) <= b
  {
    assert CompleteAt(s, a);
  }

  /**
   * Between two boundaries `a <= b`, advancing `k` codepoints from `a`
   * (for `k` up to the codepoint count of `[a, b)`) stays on a boundary
   * inside `[a, b]` and has crossed exactly `k` codepoints.
   */
  lemma {:induction false} AdvanceWithin(s: seq<byte>, a: nat, b: nat, k: nat)
    requires WellFormed(s) && Boundary(s, a) && Boundary(s, b) && a <= b
    requires k <= Columns(s, a, b)
    ensures a <= Advance(s, a, k) <= b && Boundary(s, Advance(s, a, k))
    ensures Columns(s, a, Advance(s, a, k)) == k
    decreases k
  {
    if k > 0 {
      var a' := a + NextLen(s, a);
      NextFromBoundary(s, a);
      NoSkip(s, a, b);
      AdvanceWithin(s, a', b, k - 1);
    }
  }

  /** Advancing by the full codepoint count of `[a, b)` lands exactly on `b`. */
  lemma {:induction false} AdvanceToEnd(s: seq<byte>, a: nat, b: nat)
    requires WellFormed(s) && Boundary(s, a) && Boundary(s, b) && a <= b
    ensures Advance(s, a, Columns(s, a, b)) == b
    decreases b - a
  {
    if a < b {
      NextFromBoundary(s, a);
      NoSkip(s, a, b);
      AdvanceToEnd(s, a + NextLen(s, a), b);
    }
  }

  /** Line starts and line ends are codepoint boundaries of well-formed text. */
  lemma LineBoundaries(s: seq<byte>, c: nat)
    requires WellFormed(s) && c <= |s|
    ensures Boundary(s, LineStart(s, c)) && Boundary(s, LineEnd(s, c))
  {
    var ls := LineStart(s, c);
    if ls > 0 {
      AsciiThenBoundary(s, ls - 1);
    }
  }

  /** Ctrl+Left on well-formed text stops on a codepoint boundary. */
  lemma LeftScanBoundary(s: seq<byte>, c: nat)
    requires WellFormed(s) && 0 < c <= |s|
    ensures Boundary(s, LeftWordScan(s, c, c - 1))
  {
    var j := LeftWordScan(s, c, c - 1);
    if j > 0 {
      if s[j] in StopBytes {
        StopsAreAscii(s[j]);
      } else {
        AsciiThenBoundary(s, j - 1);
      }
    }
  }

  /**
   * Apart from the byte just before the cursor, Ctrl+Left on well-formed
   * text crosses no line break, and crosses a word stop only as the last
   * codepoint it steps over.
   */
  lemma LeftScanCrossing(s: seq<byte>, c: nat, k: nat)
    requires WellFormed(s) && 0 < c <= |s|
    requires LeftWordScan(s, c, c - 1) <= k < c - 1
    ensures s[k] != NL
    ensures LeftWordScan(s, c, c - 1) < k ==> s[k] !in StopBytes
  {
    if s[k] == NL || (LeftWordScan(s, c, c - 1) < k && s[k] in StopBytes) {
      StopsAreAscii(s[k]);
      AsciiThenBoundary(s, k);
      assert false;
    }
  }

  /** A byte of a multi-byte codepoint is never a word stop. */
  lemma HighIsNoStop(b: byte)
    requires b >= 0x80
    ensures b !in StopBytes && b != NL
  {
    if b in StopBytes {
      StopsAreAscii(b);
      assert false;
    }
  }

  /** The segment Ctrl+Right steps over from a boundary without stopping holds no line break and no word stop. */
  lemma RightSegmentPlain(s: seq<byte>, i: nat)
    requires WellFormed(s) && Boundary(s, i) && i < |s| && i + NextLen(s, i) <= |s|
    requires !IsStop(s[i..i + NextLen(s, i)])
    ensures forall k :: i <= k < i + NextLen(s, i) ==> s[k] != NL && s[k] !in StopBytes
  {
    var l := NextLen(s, i);
    assert CompleteAt(s, i);
    forall k | i <= k < i + l
      ensures s[k] != NL && s[k] !in StopBytes
    {
      if k == i && l == 1 {
        assert s[i..i + l] == [s[i]];
        assert NL in StopBytes;
      } else {
        HighIsNoStop(s[k]);
      }
    }
  }

  /** Ctrl+Right from a boundary of well-formed text stops on a boundary. */
  lemma {:induction false} RightScanBoundary(s: seq<byte>, c: nat, i: nat)
    requires WellFormed(s) && Boundary(s, i) && c <= i
    ensures Boundary(s, RightWordScan(s, c, i))
    decreases |s| - i
  {
    if i < |s| {
      var l := NextLen(s, i);
      NextFromBoundary(s, i);
      var str := s[i..i + l];
      if str == [NL] && i != c {
      } else if IsStop(str) {
        StopsAreAscii(s[i]);
        AsciiThenBoundary(s, i);
      } else {
        RightScanBoundary(s, c, i + l);
      }
    }
  }

  /** Ctrl+Right from a boundary of well-formed text crosses no line break after its first codepoint. */
  lemma {:induction false} RightScanNoBreak(s: seq<byte>, c: nat, i: nat)
    requires WellFormed(s) && Boundary(s, i) && c <= i
    ensures RightWordScan(s, c, i) <= |s|
    ensures forall k :: i < k < RightWordScan(s, c, i) ==> s[k] != NL
    decreases |s| - i
  {
    RightScanBoundary(s, c, i);
    if i < |s| {
      var l := NextLen(s, i);
      NextFromBoundary(s, i);
      var str := s[i..i + l];
      if !(str == [NL] && i != c) && !IsStop(str) {
        var i' := i + l;
        RightSegmentPlain(s, i);
        RightScanNoBreak(s, c, i');
        assert RightWordScan(s, c, i) == RightWordScan(s, c, i');
        if i' < |s| && s[i'] == NL {
          assert s[i'..i' + 1] == [NL];
          assert RightWordScan(s, c, i') == i';
        }
      }
    }
  }

  /** Ctrl+Right from a boundary of well-formed text crosses a word stop only as its last codepoint. */
  lemma {:induction false} RightScanNoStop(s: seq<byte>, c: nat, i: nat)
    requires WellFormed(s) && Boundary(s, i) && c <= i
    ensures RightWordScan(s, c, i) <= |s|
    ensures forall k :: i <= k < RightWordScan(s, c, i) - 1 ==> s[k] !in StopBytes
    decreases |s| - i
  {
    RightScanBoundary(s, c, i);
    if i < |s| {
      var l := NextLen(s, i);
      NextFromBoundary(s, i);
      var str := s[i..i + l];
      if !(str == [NL] && i != c) && !IsStop(str) {
        RightSegmentPlain(s, i);
        RightScanNoStop(s, c, i + l);
        assert RightWordScan(s, c, i) == RightWordScan(s, c, i + l);
      }
    }
  }
}
