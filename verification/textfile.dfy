/**
 * The line-ending rewrite of `read_file_text`, lifted out of the file
 * reading: every `"\r\n"` found scanning left to right becomes `"\n"`.
 */
module TextFile {
  import opened Wrappers
  import opened Bytes

  /** A `"\r\n"` pair starts at offset `i`. */
  predicate CrlfAt(s: seq<byte>, i: nat) {
    i + 1 < |s| && s[i] == CR && s[i + 1] == NL
  }

  /** `contents.find("\r\n", from)`. */
  function FindCrlf(s: seq<byte>, from: nat): (r: Option<nat>)
    ensures r.Some? ==> from <= r.value && CrlfAt(s, r.value)
    ensures r.Some? ==> forall k :: from <= k < r.value ==> !CrlfAt(s, k)
    ensures r.None? ==> forall k :: from <= k < |s| ==> !CrlfAt(s, k)
    decreases |s| - from
  {
    if from + 1 >= |s| then None
    else if s[from] == CR && s[from + 1] == NL then Some(from)
    else FindCrlf(s, from + 1)
  }

  /** Reference meaning of the rewrite: pairs are replaced left to right, a replaced `\n` is never revisited. */
  function Normalized(s: seq<byte>): seq<byte>
    decreases |s|
  {
    if |s| == 0 then []
    else if CrlfAt(s, 0) then [NL] + Normalized(s[2..])
    else [s[0]] + Normalized(s[1..])
  }

  /** Number of `"\r\n"` pairs in `s` (they cannot overlap). */
  function CrlfCount(s: seq<byte>): nat
    decreases |s|
  {
    if |s| == 0 then 0
    else (if CrlfAt(s, 0) then 1 else 0) + CrlfCount(s[1..])
  }

  /** The loop of `read_file_text`, on the contents already read. */
  method ReplaceCrlf(contents: seq<byte>) returns (r: seq<byte>)
    ensures r == Normalized(contents)
    ensures |r| == |contents| - CrlfCount(contents)
  {
    r := contents;
    var pos := 0;
    while true
      invariant pos <= |r|
      invariant r[..pos] + Normalized(r[pos..]) == Normalized(contents)
      decreases |r| - pos
    {
      var found := FindCrlf(r, pos);
      if found.None? {
        RestUnchanged(r, pos);
        break;
      }
      var q := found.value;
      ReplaceFirst(r, pos, q);
      r := r[..q] + [NL] + r[q + 2..];
      pos := q + 1;
    }
    NormalizedLength(contents);
  }

  /** Once no pair is left after `pos`, the rest of the text is already normalized. */
  lemma RestUnchanged(r: seq<byte>, pos: nat)
    requires pos <= |r|
    requires forall k :: pos <= k < |r| ==> !CrlfAt(r, k)
    ensures r[..pos] + Normalized(r[pos..]) == r
  {
    forall k | 0 <= k < |r[pos..]| ensures !CrlfAt(r[pos..], k) {
      assert !CrlfAt(r, pos + k);
    }
    NoCrlfUnchanged(r[pos..]);
    assert r[..pos] + r[pos..] == r;
  }

  /** Replacing the first pair at or after `pos` keeps the loop invariant, with the scan resuming after the new `\n`. */
  lemma ReplaceFirst(r: seq<byte>, pos: nat, q: nat)
    requires pos <= q && CrlfAt(r, q)
    requires forall k :: pos <= k < q ==> !CrlfAt(r, k)
    ensures var r' := r[..q] + [NL] + r[q + 2..];
      r'[..q + 1] + Normalized(r'[q + 1..]) == r[..pos] + Normalized(r[pos..])
  {
    forall k | 0 <= k < q - pos ensures !CrlfAt(r[pos..], k) {
      assert !CrlfAt(r, pos + k);
    }
    SkipToFirstCrlf(r[pos..], q - pos);
    assert r[pos..][q - pos + 2..] == r[q + 2..];
    assert r[pos..][..q - pos] == r[pos..q];
    var r' := r[..q] + [NL] + r[q + 2..];
    assert r'[..q + 1] == r[..pos] + r[pos..q] + [NL];
    assert r'[q + 1..] == r[q + 2..];
  }

  /** Bytes before the first pair are copied; the pair becomes one `\n`. */
  lemma {:induction false} SkipToFirstCrlf(s: seq<byte>, q: nat)
    requires CrlfAt(s, q)
    requires forall k :: 0 <= k < q ==> !CrlfAt(s, k)
    ensures Normalized(s) == s[..q] + [NL] + Normalized(s[q + 2..])
    decreases q
  {
    if q > 0 {
      assert !CrlfAt(s, 0);
      forall k | 0 <= k < q - 1 ensures !CrlfAt(s[1..], k) {
        assert !CrlfAt(s, k + 1);
      }
      SkipToFirstCrlf(s[1..], q - 1);
      assert s[1..][q - 1 + 2..] == s[q + 2..];
      assert [s[0]] + s[1..][..q - 1] == s[..q];
    }
  }

  /** Text without `"\r\n"` is left unchanged. */
  lemma {:induction false} NoCrlfUnchanged(s: seq<byte>)
    requires forall k :: 0 <= k < |s| ==> !CrlfAt(s, k)
    ensures Normalized(s) == s
    ensures CrlfCount(s) == 0
    decreases |s|
  {
    if |s| > 0 {
      assert !CrlfAt(s, 0);
      forall k | 0 <= k < |s| - 1 ensures !CrlfAt(s[1..], k) {
        assert !CrlfAt(s, k + 1);
      }
      NoCrlfUnchanged(s[1..]);
    }
  }

  /** The output is shorter than the input by exactly the number of replacements. */
  lemma {:induction false} NormalizedLength(s: seq<byte>)
    ensures |Normalized(s)| == |s| - CrlfCount(s)
    decreases |s|
  {
    if |s| > 0 {
      NormalizedLength(s[1..]);
      if CrlfAt(s, 0) {
        NormalizedLength(s[2..]);
        assert !CrlfAt(s[1..], 0);
        assert s[1..][1..] == s[2..];
      }
    }
  }

  /** `"\r\r\n"` becomes `"\r\n"`: the rewrite is a single pass, not idempotent. */
  lemma DoubleReturn()
    ensures Normalized([CR, CR, NL]) == [CR, NL]
    ensures Normalized(Normalized([CR, CR, NL])) == [NL]
  {
    var s: seq<byte> := [CR, CR, NL];
    assert !CrlfAt(s, 0) && s[1..] == [CR, NL];
    assert CrlfAt(s[1..], 0) && s[1..][2..] == [];
    assert Normalized(s[1..]) == [NL];
    assert Normalized(s) == [CR] + [NL];
  }
}
