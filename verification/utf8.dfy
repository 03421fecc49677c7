/**
 * The UTF-8 stepping helpers of `utility.cpp`. They are lenient: a lead byte
 * is classified by its high bits as in section 3 of RFC 3629, but neither
 * continuation bytes nor overlong forms are checked.
 */
module Utf8 {
  import opened Bytes

  /** A continuation byte `10xxxxxx`. */
  predicate IsCont(b: byte) {
    b & 0xC0 == 0x80
  }

  /** Offset `k` holds a continuation byte. */
  predicate ContAt(s: seq<byte>, k: int) {
    0 <= k < |s| && IsCont(s[k])
  }

  /**
   * Sequence length announced by a lead byte, written with the byte ranges
   * of section 3 of RFC 3629 rather than with bit masks.
   */
  function LeadLength(b: byte): nat {
    if b < 0x80 then 1
    else if 0xC0 <= b < 0xE0 then 2
    else if 0xE0 <= b < 0xF0 then 3
    else if 0xF0 <= b < 0xF8 then 4
    else 1
  }

  /** `utf8_next_len`: byte length of the codepoint starting at `pos`. */
  function NextLen(s: seq<byte>, pos: nat): (n: nat)
    ensures n == 0 <==> pos >= |s|
    ensures pos < |s| ==> 1 <= n <= 4 && n == LeadLength(s[pos])
  {
    if pos >= |s| then 0
    else
      var c := s[pos];
      if c & 0x80 == 0 then 1
      else if c & 0xE0 == 0xC0 then 2
      else if c & 0xF0 == 0xE0 then 3
      else if c & 0xF8 == 0xF0 then 4
      else 1
  }

  /**
   * `utf8_prev_len`: distance from `pos` back to the greatest index below it
   * that is not a continuation byte, or `pos` when there is none.
   */
  function PrevLen(s: seq<byte>, pos: nat): (n: nat)
    requires pos <= |s|
    ensures pos == 0 ==> n == 0
    ensures pos > 0 ==> 1 <= n <= pos
    ensures pos > 0 && n < pos ==> !IsCont(s[pos - n])
    ensures n == pos || (pos > 0 && !IsCont(s[pos - n]))
    ensures forall k :: pos - n < k < pos ==> IsCont(s[k])
  {
    if pos == 0 then 0 else ScanBack(s, pos, pos)
  }

  /** The backward loop of `utf8_prev_len`, with `i` the index not yet examined. */
  function ScanBack(s: seq<byte>, pos: nat, i: nat): (n: nat)
    requires 0 < pos <= |s| && i <= pos
    requires forall k :: i <= k < pos ==> IsCont(s[k])
    ensures 1 <= n <= pos && pos - n < i + 1
    ensures n == pos || !IsCont(s[pos - n])
    ensures forall k :: pos - n < k < pos ==> IsCont(s[k])
    decreases i
  {
    if i == 0 then pos
    else if !IsCont(s[i - 1]) then pos - (i - 1)
    else ScanBack(s, pos, i - 1)
  }

  /** Offset `i` starts a codepoint (or is the end of the text). */
  predicate Boundary(s: seq<byte>, i: nat) {
    i <= |s| && (i == |s| || !IsCont(s[i]))
  }

  /**
   * The codepoint whose lead byte is at `i` is complete: the bytes it
   * announces are continuation bytes inside the text, and the next byte
   * (if any) is not one.
   */
  predicate CompleteAt(s: seq<byte>, i: nat)
    requires i < |s|
  {
    var n := NextLen(s, i);
    && i + n <= |s|
    && (forall k :: i < k < i + n ==> IsCont(s[k]))
    && Boundary(s, i + n)
  }

  /**
   * Structurally well-formed UTF-8 (lead/continuation shape of section 3 of
   * RFC 3629): the text does not start with a continuation byte and every
   * lead byte begins a complete sequence.
   */
  predicate WellFormed(s: seq<byte>) {
    && (|s| == 0 || !IsCont(s[0]))
    && forall i {:trigger CompleteAt(s, i)} :: 0 <= i < |s| && !IsCont(s[i]) ==> CompleteAt(s, i)
  }

  /** Stepping forward from a boundary lands on the next boundary. */
  lemma NextFromBoundary(s: seq<byte>, p: nat)
    requires WellFormed(s) && Boundary(s, p) && p < |s|
    ensures p + NextLen(s, p) <= |s| && Boundary(s, p + NextLen(s, p))
  {
    assert CompleteAt(s, p);
  }

  /** Stepping backward from any offset of a well-formed text lands on a boundary. */
  lemma PrevToBoundary(s: seq<byte>, p: nat)
    requires WellFormed(s) && 0 < p <= |s|
    ensures Boundary(s, p - PrevLen(s, p))
  {
    var n := PrevLen(s, p);
    assert n == p ==> !IsCont(s[0]);
  }

  /**
   * On well-formed text the two helpers invert each other at a boundary:
   * stepping back over the codepoint just stepped over returns its length.
   */
  lemma {:induction false} PrevUndoesNext(s: seq<byte>, p: nat)
    requires WellFormed(s) && Boundary(s, p) && p < |s|
    ensures p + NextLen(s, p) <= |s| && PrevLen(s, p + NextLen(s, p)) == NextLen(s, p)
  {
    var n := NextLen(s, p);
    assert CompleteAt(s, p);
  }

  /** And stepping forward over the codepoint just stepped back over returns its length. */
  lemma {:induction false} NextUndoesPrev(s: seq<byte>, p: nat)
    requires WellFormed(s) && Boundary(s, p) && 0 < p
    ensures NextLen(s, p - PrevLen(s, p)) == PrevLen(s, p)
  {
    var m := PrevLen(s, p);
    var q := p - m;
    assert !IsCont(s[q]);
    assert CompleteAt(s, q);
    var n := NextLen(s, q);
    assert q + n < p ==> ContAt(s, q + n);
    assert p < q + n ==> ContAt(s, p);
  }
}
