/** Bytes, byte strings and the small wrappers shared by every server model. */
module Bytes {

  type byte = x: int | 0 <= x < 256

  type Bytes = seq<byte>

  datatype Option<+T> = None | Some(value: T)

  datatype Result<+T, +E> = Ok(value: T) | Err(error: E)

  const NL: byte := 10
  const SPACE: byte := 32
  const COMMA: byte := 44
  const EQUALS: byte := 61

  /** Concatenation regroups freely. */
  lemma AppendAssoc<T>(a: seq<T>, b: seq<T>, c: seq<T>)
    ensures (a + b) + c == a + (b + c)
  {
  }

  /** The bytes of an ASCII string literal. */
  function Lit(s: string): (r: Bytes)
    ensures |r| == |s|
    ensures forall i :: 0 <= i < |s| ==> r[i] == s[i] as int % 256
  {
    seq(|s|, i requires 0 <= i < |s| => s[i] as int % 256)
  }

  /** A character missing from an 8-bit string literal is missing from its bytes. */
  lemma LitExcludes(s: string, c: char)
    requires c !in s && c as int < 256 && forall i :: 0 <= i < |s| ==> s[i] as int < 256
    ensures c as int !in Lit(s)
  {
  }

  function Zeros(n: nat): (r: Bytes)
    ensures |r| == n && forall i :: 0 <= i < n ==> r[i] == 0
  {
    seq(n, _ => 0)
  }

  /** The position of the first `b` in `s`, as Rust's `iter().position(|&e| e == b)`. */
  function FirstIndex(s: Bytes, b: byte): (r: Option<nat>)
    ensures r.None? <==> b !in s
    ensures r.Some? ==> r.value < |s| && s[r.value] == b && b !in s[..r.value]
  {
    if s == [] then None
    else if s[0] == b then Some(0)
    else match FirstIndex(s[1..], b)
      case None => None
      case Some(i) =>
        assert s[..i + 1] == [s[0]] + s[1..][..i];
        Some(i + 1)
  }

  /** The first occurrence is unique: any position holding `b` with no `b` before it is it. */
  lemma FirstIndexIs(s: Bytes, b: byte, i: nat)
    requires i < |s| && s[i] == b && b !in s[..i]
    ensures FirstIndex(s, b) == Some(i)
  {
  }

  /** Searching a concatenation finds the first part's occurrence, or else the second's, shifted. */
  lemma FirstIndexAppend(a: Bytes, c: Bytes, b: byte)
    ensures b in a ==> FirstIndex(a + c, b) == FirstIndex(a, b)
    ensures b !in a && b in c ==> FirstIndex(a + c, b) == Some(|a| + FirstIndex(c, b).value)
    ensures b !in a && b !in c ==> b !in a + c
  {
    if b in a {
      FirstInFront(a, c, b);
    } else if b in c {
      FirstInBack(a, c, b);
    }
  }

  lemma FirstInFront(a: Bytes, c: Bytes, b: byte)
    requires b in a
    ensures FirstIndex(a + c, b) == FirstIndex(a, b)
  {
    var i := FirstIndex(a, b).value;
    assert (a + c)[..i] == a[..i];
    FirstIndexIs(a + c, b, i);
  }

  lemma FirstInBack(a: Bytes, c: Bytes, b: byte)
    requires b !in a && b in c
    ensures FirstIndex(a + c, b) == Some(|a| + FirstIndex(c, b).value)
  {
    var j := FirstIndex(c, b).value;
    PrefixOfConcat(a, c, j);
    AbsentFromBoth(a, c[..j], b);
    FirstIndexIs(a + c, b, |a| + j);
  }

  lemma AbsentFromBoth(a: Bytes, c: Bytes, b: byte)
    requires b !in a && b !in c
    ensures b !in a + c
  {
  }

  lemma PrefixOfConcat(a: Bytes, c: Bytes, j: nat)
    requires j <= |c|
    ensures (a + c)[..|a| + j] == a + c[..j]
  {
  }

  /** Rust's `dst[at..at + src.len()].copy_from_slice(src)`, one byte at a time. */
  method CopyInto(dst: array<byte>, at: nat, src: Bytes)
    requires at + |src| <= dst.Length
    modifies dst
    ensures dst[..] == old(dst[..at]) + src + old(dst[at + |src|..])
  {
    ghost var before := dst[..];
    var k := 0;
    while k < |src|
      invariant 0 <= k <= |src|
      invariant forall j :: 0 <= j < dst.Length ==>
        dst[j] == if at <= j < at + k then src[j - at] else before[j]
    {
      dst[at + k] := src[k];
      k := k + 1;
    }
    Overwritten(before, dst[..], at, src);
  }

  /** After copying `src` to `at`: the part up to its end, and the copied part itself. */
  lemma CopiedSlices(prev: Bytes, now: Bytes, at: nat, src: Bytes)
    requires at + |src| <= |prev| && now == prev[..at] + src + prev[at + |src|..]
    ensures now[..at + |src|] == prev[..at] + src
    ensures now[at..at + |src|] == src
  {
  }

  /** After copying `src` to `at`: the part up to `idx` bytes into the copy. */
  lemma PartOfCopy(prev: Bytes, now: Bytes, at: nat, src: Bytes, idx: nat)
    requires at + |src| <= |prev| && now == prev[..at] + src + prev[at + |src|..] && idx <= |src|
    ensures now[..at + idx] == prev[..at] + src[..idx]
  {
  }

  /** A sequence that agrees with `src` on `[at, at + |src|)` and with `before` elsewhere. */
  lemma Overwritten(before: Bytes, after: Bytes, at: nat, src: Bytes)
    requires |after| == |before| && at + |src| <= |before|
    requires forall j :: 0 <= j < |after| ==>
      after[j] == if at <= j < at + |src| then src[j - at] else before[j]
    ensures after == before[..at] + src + before[at + |src|..]
  {
  }
}
