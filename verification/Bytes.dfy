/** Bytes, 32-bit words and occurrences of a byte string in another. */
module Bytes {
  type byte = x: int | 0 <= x < 0x100
  type word = x: int | 0 <= x < 0x1_0000_0000

  datatype Option<T> = None | Some(value: T)

  const NEWLINE: byte := 10
  const RETURN: byte := 13

  function Ascii(text: string): (b: seq<byte>)
    requires forall k :: 0 <= k < |text| ==> text[k] as int < 0x100
    ensures |b| == |text| && forall k :: 0 <= k < |text| ==> b[k] == text[k] as int
  {
    seq(|text|, k requires 0 <= k < |text| => text[k] as int)
  }

  function Max(a: int, b: int): int {
    if a >= b then a else b
  }

  /** `m` occurs in `s` at index `i`. */
  predicate At(s: seq<byte>, i: int, m: seq<byte>) {
    0 <= i <= i + |m| <= |s| && Agree(s, i, m, 0)
  }

  /** From index `k` of `m` on, `s` and `m` agree. */
  predicate Agree(s: seq<byte>, i: nat, m: seq<byte>, k: nat)
    requires i + |m| <= |s|
    decreases |m| - k
  {
    k >= |m| || (s[i + k] == m[k] && Agree(s, i, m, k + 1))
  }

  ghost predicate Occurs(s: seq<byte>, m: seq<byte>) {
    exists i :: At(s, i, m)
  }

  lemma {:induction false} AgreeAll(s: seq<byte>, i: nat, m: seq<byte>, k: nat)
    requires i + |m| <= |s|
    ensures Agree(s, i, m, k) <==> forall j :: k <= j < |m| ==> s[i + j] == m[j]
    decreases |m| - k
  {
    if k < |m| {
      AgreeAll(s, i, m, k + 1);
    }
  }

  /** An occurrence, byte by byte. */
  lemma AtBytes(s: seq<byte>, i: int, m: seq<byte>)
    ensures At(s, i, m) <==> 0 <= i && i + |m| <= |s| && forall j :: 0 <= j < |m| ==> s[i + j] == m[j]
  {
    if 0 <= i && i + |m| <= |s| {
      AgreeAll(s, i, m, 0);
    }
  }

  lemma AtByte(s: seq<byte>, i: int, m: seq<byte>, k: int)
    requires At(s, i, m) && 0 <= k < |m|
    ensures s[i + k] == m[k]
  {
    AtBytes(s, i, m);
  }

  /** An occurrence in a slice is an occurrence in the whole that lies inside the slice. */
  lemma AtSlice(s: seq<byte>, lo: nat, hi: nat, m: seq<byte>, i: int)
    requires lo <= hi <= |s|
    ensures At(s[lo..hi], i, m) <==> 0 <= i && lo + i + |m| <= hi && At(s, lo + i, m)
  {
    AtBytes(s[lo..hi], i, m);
    AtBytes(s, lo + i, m);
    if 0 <= i && lo + i + |m| <= hi {
      assert forall k {:trigger m[k]} :: 0 <= k < |m| ==> s[lo..hi][i + k] == s[lo + i + k];
    }
  }

  lemma AtTail(s: seq<byte>, lo: nat, m: seq<byte>, i: int)
    requires lo <= |s|
    ensures At(s[lo..], i, m) <==> 0 <= i && At(s, lo + i, m)
  {
    AtSlice(s, lo, |s|, m, i);
    assert s[lo..] == s[lo..|s|];
  }

  lemma Assoc<T>(a: seq<T>, b: seq<T>, c: seq<T>)
    ensures a + b + c == a + (b + c)
  {
  }

  lemma SliceOfSlice(s: seq<byte>, lo: nat, hi: nat, a: nat, b: nat)
    requires lo <= a <= b <= hi <= |s|
    ensures s[lo..hi][a - lo..b - lo] == s[a..b]
  {
    var t, u := s[lo..hi][a - lo..b - lo], s[a..b];
    assert forall k :: 0 <= k < |t| ==> t[k] == s[lo..hi][a - lo + k];
    assert forall k :: 0 <= k < |u| ==> u[k] == s[a + k];
  }

  /** The first occurrence of `m` at or after index `i`, or -1. */
  function FirstAt(s: seq<byte>, m: seq<byte>, i: nat): (j: int)
    ensures j == -1 || (i <= j && At(s, j, m))
    ensures forall k :: i <= k && At(s, k, m) ==> j != -1 && j <= k
    decreases |s| - i
  {
    if i + |m| > |s| then -1
    else if At(s, i, m) then i
    else FirstAt(s, m, i + 1)
  }
}
