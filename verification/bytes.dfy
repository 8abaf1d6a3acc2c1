/** Bytes, byte sequences and the few generic facts about them the model needs. */
module Bytes {
  import opened Wrappers

  /** One unsigned 8-bit byte, kept as a bounded integer so that sums need no conversion. */
  type Byte = b: int | 0 <= b < 256

  const NUL: Byte := 0
  const SPACE: Byte := 32
  const EQUALS: Byte := 61

  /** The sum of the values of the bytes of `s`. */
  function Sum(s: seq<Byte>): nat
  {
    if |s| == 0 then 0 else Sum(s[..|s| - 1]) + s[|s| - 1]
  }

  lemma {:induction false} SumAppend(a: seq<Byte>, b: seq<Byte>)
    ensures Sum(a + b) == Sum(a) + Sum(b)
    decreases |b|
  {
    if |b| == 0 {
      assert a + b == a;
    } else {
      assert (a + b)[..|a + b| - 1] == a + b[..|b| - 1];
      SumAppend(a, b[..|b| - 1]);
    }
  }

  /** A byte sum is zero exactly when every byte is zero. */
  lemma {:induction false} SumZeroIff(s: seq<Byte>)
    ensures Sum(s) == 0 <==> forall i :: 0 <= i < |s| ==> s[i] == 0
    decreases |s|
  {
    if |s| > 0 {
      SumZeroIff(s[..|s| - 1]);
      assert forall i :: 0 <= i < |s| - 1 ==> s[..|s| - 1][i] == s[i];
    }
  }

  /** The index of the first occurrence of `x` in `s`, as Swift's `firstIndex(of:)`. */
  function FirstIndexOf(s: seq<Byte>, x: Byte): (r: Option<nat>)
    ensures r.Some? ==> r.value < |s| && s[r.value] == x
    ensures r.Some? ==> forall j :: 0 <= j < r.value ==> s[j] != x
    ensures r.None? <==> x !in s
    decreases |s|
  {
    if |s| == 0 then None
    else if s[0] == x then Some(0)
    else match FirstIndexOf(s[1..], x)
      case None => None
      case Some(i) => Some(i + 1)
  }

  /** `s` cut before its first NUL byte, or the whole of `s` when it holds none. */
  function UpToNul(s: seq<Byte>): (r: seq<Byte>)
    ensures r <= s
    ensures NUL !in r
    ensures |r| < |s| ==> s[|r|] == NUL
  {
    match FirstIndexOf(s, NUL)
    case None => s
    case Some(i) => s[..i]
  }

  /** The longest prefix of `s` whose bytes all satisfy `p`. */
  function TakeWhile(s: seq<Byte>, p: Byte -> bool): (r: seq<Byte>)
    ensures r <= s
    ensures forall i :: 0 <= i < |r| ==> p(r[i])
    ensures |r| < |s| ==> !p(s[|r|])
    decreases |s|
  {
    if |s| == 0 || !p(s[0]) then [] else [s[0]] + TakeWhile(s[1..], p)
  }

  /** Cutting at the first NUL recovers text that a NUL (or the end) follows. */
  lemma UpToNulOfTerminated(s: seq<Byte>, k: nat)
    requires k <= |s| && NUL !in s[..k]
    requires k < |s| ==> s[k] == NUL
    ensures UpToNul(s) == s[..k]
  {
  }
}
