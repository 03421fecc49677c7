/**
 * Byte strings. The editor keeps its buffer as a `std::string` and works on
 * byte offsets into it, so text is modelled as a sequence of 8-bit bytes.
 */
module Bytes {
  import opened Wrappers

  type byte = bv8

  const TAB: byte := 0x09
  const NL: byte := 0x0A
  const CR: byte := 0x0D
  const STAR: byte := 0x2A
  const DASH: byte := 0x2D
  const SLASH: byte := 0x2F
  const LBRACKET: byte := 0x5B
  const BACKSLASH: byte := 0x5C
  const RBRACKET: byte := 0x5D
  const PIPE: byte := 0x7C
  const TILDE: byte := 0x7E

  /** The bullet `•` (U+2022) as its three UTF-8 bytes. */
  const BULLET: seq<byte> := [0xE2, 0x80, 0xA2]

  /** `SIZE_MAX`, the largest `size_t`. */
  const SIZE_MAX: nat := 0xFFFF_FFFF_FFFF_FFFF

  /** `size_t` addition, which wraps around modulo 2^64. */
  function SizeAdd(a: nat, b: nat): (r: nat)
    ensures r <= SIZE_MAX
    ensures a + b <= SIZE_MAX ==> r == a + b
    ensures a <= SIZE_MAX && b <= SIZE_MAX && a + b > SIZE_MAX ==> r == a + b - (SIZE_MAX + 1)
  {
    (a + b) % (SIZE_MAX + 1)
  }

  /** `size_t` subtraction, which wraps around modulo 2^64 when `b > a`. */
  function SizeSub(a: nat, b: nat): (r: nat)
    ensures r <= SIZE_MAX
    ensures b <= a <= SIZE_MAX ==> r == a - b
    ensures a < b <= SIZE_MAX ==> r == SIZE_MAX + 1 + a - b
  {
    (a - b) % (SIZE_MAX + 1)
  }

  /** `s` with `ins` spliced in at offset `at` (`std::string::insert`). */
  function Splice(s: seq<byte>, at: nat, ins: seq<byte>): (r: seq<byte>)
    requires at <= |s|
    ensures |r| == |s| + |ins|
    ensures r[..at] == s[..at] && r[at..at + |ins|] == ins && r[at + |ins|..] == s[at..]
  {
    s[..at] + ins + s[at..]
  }

  /** Number of occurrences of `b` in `s`. */
  function Count(s: seq<byte>, b: byte): nat
  {
    if |s| == 0 then 0 else Count(s[..|s| - 1], b) + (if s[|s| - 1] == b then 1 else 0)
  }

  lemma {:induction false} CountAppend(s: seq<byte>, t: seq<byte>, b: byte)
    ensures Count(s + t, b) == Count(s, b) + Count(t, b)
    decreases |t|
  {
    if |t| == 0 {
      assert s + t == s;
    } else {
      assert (s + t)[..|s + t| - 1] == s + t[..|t| - 1];
      CountAppend(s, t[..|t| - 1], b);
    }
  }

  lemma {:induction false} CountBound(s: seq<byte>, b: byte)
    ensures Count(s, b) <= |s|
    ensures Count(s, b) == 0 <==> b !in s
    decreases |s|
  {
    if |s| > 0 {
      CountBound(s[..|s| - 1], b);
      assert s == s[..|s| - 1] + [s[|s| - 1]];
      assert b in s <==> b in s[..|s| - 1] || b == s[|s| - 1];
    }
  }

  /** `std::string::find(b, from)`: the first index at or after `from` holding `b`. */
  function Find(s: seq<byte>, b: byte, from: nat): (r: Option<nat>)
    ensures r.Some? ==> from <= r.value < |s| && s[r.value] == b
    ensures r.Some? ==> forall k :: from <= k < r.value ==> s[k] != b
    ensures r.None? ==> forall k :: from <= k < |s| ==> s[k] != b
    decreases |s| - from
  {
    if from >= |s| then None
    else if s[from] == b then Some(from)
    else Find(s, b, from + 1)
  }

  /**
   * `std::string::rfind(b, pos)`: the last index not after `pos` holding `b`
   * (positions past the end are treated as the last byte).
   */
  function RFind(s: seq<byte>, b: byte, pos: nat): (r: Option<nat>)
    ensures r.Some? ==> r.value <= pos && r.value < |s| && s[r.value] == b
    ensures r.Some? ==> forall k :: r.value < k <= pos && k < |s| ==> s[k] != b
    ensures r.None? ==> forall k :: 0 <= k <= pos && k < |s| ==> s[k] != b
    decreases pos
  {
    if |s| == 0 then None
    else if pos >= |s| then RFind(s, b, |s| - 1)
    else if s[pos] == b then Some(pos)
    else if pos == 0 then None
    else RFind(s, b, pos - 1)
  }
}
