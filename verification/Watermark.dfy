/**
 The stack watermark.  `mem` is the memory from `&__bss_end__` (index 0) up to `&_stack` (one past the end);
 the stack grows downwards, and neither loop touches index 0.
 */
module Watermark {
  import opened Bytes

  const MARKER: word := 0xDEAD_BEEF

  /** How many words `mark_stack` leaves alone below its own stack pointer. */
  const GAP := 0x100

  // ---------- painting

  function Painted(s: seq<word>, sp: int): (t: seq<word>)
    ensures |t| == |s|
    ensures forall i :: 0 <= i < |s| ==> t[i] == if 0 < i <= sp - GAP then MARKER else s[i]
  {
    seq(|s|, i requires 0 <= i < |s| => if 0 < i <= sp - GAP then MARKER else s[i])
  }

  method MarkStack(mem: array<word>, sp: nat)
    requires sp <= mem.Length
    modifies mem
    ensures mem[..] == Painted(old(mem[..]), sp)
    ensures forall i :: 0 <= i < mem.Length ==>
              mem[i] == if 0 < i <= sp - 256 then 0xDEAD_BEEF else old(mem[i])
  {
    var ptr := sp - GAP;
    while ptr > 0
      invariant ptr <= sp - GAP
      invariant forall i :: 0 <= i < mem.Length ==>
                  mem[i] == if 0 < i && ptr < i <= sp - GAP then MARKER else old(mem[i])
    {
      mem[ptr] := MARKER;
      ptr := ptr - 1;
    }
  }

  // ---------- counting

  /** The number of words that the scan can reach. */
  function Scanned(s: seq<word>): nat {
    if s == [] then 0 else |s| - 1
  }

  /** Is the `k`-th word from the top a marker? */
  predicate Marked(s: seq<word>, k: nat)
    requires k < Scanned(s)
  {
    s[|s| - 1 - k] == MARKER
  }

  /** Eight markers in a row, the first of them `k` words from the top. */
  predicate RunAt(s: seq<word>, k: nat) {
    k + 8 <= Scanned(s) && forall j :: k <= j < k + 8 ==> Marked(s, j)
  }

  /** The bytes above the topmost run of eight markers; without one, all but the eight lowest words, modulo 2^32. */
  ghost function StackUse(s: seq<word>): word {
    if exists k: nat :: RunAt(s, k) then
      4 * FirstRun(s, 0) % 0x1_0000_0000
    else
      (4 * Scanned(s) - 32) % 0x1_0000_0000
  }

  ghost function FirstRun(s: seq<word>, from: nat): (k: nat)
    requires exists k: nat :: from <= k && RunAt(s, k)
    ensures RunAt(s, k) && forall j: nat :: from <= j < k ==> !RunAt(s, j)
    decreases Scanned(s) - from
  {
    if RunAt(s, from) then from else FirstRun(s, from + 1)
  }

  method CountStack(mem: array<word>) returns (bytes: word)
    requires 4 * mem.Length <= 0x1_0000_0000
    ensures bytes == StackUse(mem[..])
  {
    ghost var s := mem[..];
    var result: word := 0;
    var consecMarkers := 0;
    var ptr := mem.Length - 1;
    ghost var seen := 0;
    while ptr > 0 && consecMarkers < 8
      invariant seen <= Scanned(s) && (mem.Length > 0 ==> ptr == |s| - 1 - seen)
      invariant result == 4 * seen
      invariant 0 <= consecMarkers <= 8 && consecMarkers <= seen
      invariant forall j :: seen - consecMarkers <= j < seen ==> Marked(s, j)
      invariant consecMarkers < seen ==> !Marked(s, seen - consecMarkers - 1)
      invariant forall k: nat :: k + 8 <= seen && RunAt(s, k) ==> consecMarkers == 8 && k == seen - 8
      decreases ptr
    {
      if mem[ptr] == MARKER {
        consecMarkers := consecMarkers + 1;
      } else {
        consecMarkers := 0;
      }
      result := result + 4;
      ptr := ptr - 1;
      seen := seen + 1;
      assert consecMarkers == 0 <==> !Marked(s, seen - 1);
    }
    bytes := (result as int - 32) % 0x1_0000_0000;
    if consecMarkers == 8 {
      assert RunAt(s, seen - 8);
    } else {
      assert seen == Scanned(s);
    }
  }

  /** With eight words to scan the subtraction cannot wrap, and the result is that of a least-run search. */
  lemma StackUseIsLeastRun(s: seq<word>)
    requires 8 <= Scanned(s) && 4 * |s| <= 0x1_0000_0000
    ensures 0 <= StackUse(s) <= 4 * (Scanned(s) - 8) && StackUse(s) % 4 == 0
    ensures forall k: nat :: RunAt(s, k) ==> StackUse(s) <= 4 * k
    ensures RunAt(s, StackUse(s) / 4) || (StackUse(s) == 4 * (Scanned(s) - 8) && forall k: nat :: !RunAt(s, k))
  {
    if exists k: nat :: RunAt(s, k) {
      var k := FirstRun(s, 0);
      assert StackUse(s) == 4 * k;
    }
  }

  /** Eight words in a row, from index `i` up, that carry the marker; the lowest word is never looked at. */
  ghost predicate EightMarkers(s: seq<word>, i: nat) {
    1 <= i && i + 8 <= |s| && forall j :: i <= j < i + 8 ==> s[j] == 0xDEAD_BEEF
  }

  /** The same on the memory's own indices: four bytes for every word above the topmost eight markers. */
  lemma ScanLaw(s: seq<word>)
    requires 9 <= |s| && 4 * |s| <= 0x1_0000_0000
    ensures forall i: nat :: EightMarkers(s, i) ==> StackUse(s) <= 4 * (|s| - 8 - i)
    ensures (exists i: nat :: EightMarkers(s, i) && StackUse(s) == 4 * (|s| - 8 - i))
            || (StackUse(s) == 4 * (|s| - 9) && forall i: nat :: !EightMarkers(s, i))
  {
    StackUseIsLeastRun(s);
    forall i: nat | 1 <= i && i + 8 <= |s| ensures EightMarkers(s, i) <==> RunAt(s, |s| - 8 - i) {
      IndexedRun(s, i);
    }
    var k := StackUse(s) / 4;
    if RunAt(s, k) {
      assert EightMarkers(s, |s| - 8 - k);
    }
  }

  lemma IndexedRun(s: seq<word>, i: nat)
    requires 1 <= i && i + 8 <= |s|
    ensures EightMarkers(s, i) <==> RunAt(s, |s| - 8 - i)
  {
    var k := |s| - 8 - i;
    if EightMarkers(s, i) {
      assert forall j :: k <= j < k + 8 ==> Marked(s, j);
    }
    if RunAt(s, k) {
      forall j | i <= j < i + 8 ensures s[j] == 0xDEAD_BEEF {
        assert Marked(s, |s| - 1 - j);
      }
    }
  }

  /** With fewer than eight it always wraps. */
  lemma ShortScanWraps(s: seq<word>)
    requires Scanned(s) < 8
    ensures StackUse(s) == 0x1_0000_0000 - 4 * (8 - Scanned(s))
  {
  }

  /** Fewer markers, more use: also when one of the snapshots, or neither, has a run of eight. */
  lemma StackUseIsMonotone(s: seq<word>, t: seq<word>)
    requires |s| == |t| && 8 <= Scanned(s) && 4 * |s| <= 0x1_0000_0000
    requires forall k: nat :: k < Scanned(t) && Marked(t, k) ==> Marked(s, k)
    ensures StackUse(s) <= StackUse(t)
  {
    StackUseIsLeastRun(s);
    StackUseIsLeastRun(t);
    var k := StackUse(t) / 4;
    if RunAt(t, k) {
      assert RunAt(s, k);
    }
  }

  // ---------- whole runs

  datatype Write = Write(at: nat, value: word)

  function Apply(s: seq<word>, writes: seq<Write>): (t: seq<word>)
    requires forall w :: w in writes ==> w.at < |s|
    ensures |t| == |s|
    decreases |writes|
  {
    if writes == [] then s else Apply(s[writes[0].at := writes[0].value], writes[1..])
  }

  /** How many words below the top of the stack a write goes, its own word included. */
  function DepthOf(size: nat, w: Write): int {
    size - w.at
  }

  lemma {:induction false} ApplyLeavesOthers(s: seq<word>, writes: seq<Write>, i: nat)
    requires forall w :: w in writes ==> w.at < |s|
    requires i < |s| && forall w :: w in writes ==> w.at != i
    ensures Apply(s, writes)[i] == s[i]
    decreases |writes|
  {
    if writes != [] {
      var w := writes[0];
      assert w in writes;
      ApplyLeavesOthers(s[w.at := w.value], writes[1..], i);
    }
  }

  /** The memory when `count_stack` runs: painted with the stack pointer at index `sp`, then written in any way. */
  function AfterRun(s: seq<word>, sp: nat, writes: seq<Write>): (t: seq<word>)
    requires forall w :: w in writes ==> w.at < |s|
    ensures |t| == |s|
  {
    Apply(Painted(s, sp), writes)
  }

  /**
   Nothing disturbs the eight words below depth `d`: they are painted, and every write goes to the stack above
   them or, as those to the heap do, to memory below them.
   */
  ghost predicate ClearBelow(size: nat, sp: nat, writes: seq<Write>, d: nat) {
    && sp <= size && size - sp + GAP - 1 <= d
    && forall w :: w in writes ==> w.at < size && (DepthOf(size, w) <= d || d + 8 < DepthOf(size, w))
  }

  lemma ClearIsMarked(s: seq<word>, sp: nat, writes: seq<Write>, d: nat, k: nat)
    requires ClearBelow(|s|, sp, writes, d) && d <= k < d + 8 && k < Scanned(s)
    ensures Marked(AfterRun(s, sp, writes), k)
  {
    ApplyLeavesOthers(Painted(s, sp), writes, |s| - 1 - k);
  }

  lemma ClearIsRun(s: seq<word>, sp: nat, writes: seq<Write>, d: nat)
    requires ClearBelow(|s|, sp, writes, d) && d + 8 <= Scanned(s)
    ensures RunAt(AfterRun(s, sp, writes), d)
  {
    forall k | d <= k < d + 8 ensures Marked(AfterRun(s, sp, writes), k) {
      ClearIsMarked(s, sp, writes, d, k);
    }
  }

  /** Never more than the depth, whatever was written above and below the clear words. */
  lemma WatermarkBound(s: seq<word>, sp: nat, writes: seq<Write>, d: nat)
    requires ClearBelow(|s|, sp, writes, d)
    requires 8 <= Scanned(s) && 4 * |s| <= 0x1_0000_0000
    ensures StackUse(AfterRun(s, sp, writes)) <= 4 * d
  {
    StackUseIsLeastRun(AfterRun(s, sp, writes));
    if d + 8 <= Scanned(s) {
      ClearIsRun(s, sp, writes, d);
    }
  }

  /**
   The reported use is the depth itself if and only if the word at that depth does not happen to be a marker and
   no eight markers in a row stand above it.
   */
  lemma WatermarkExact(s: seq<word>, sp: nat, writes: seq<Write>, d: nat)
    requires ClearBelow(|s|, sp, writes, d) && d + 8 <= Scanned(s) && 4 * |s| <= 0x1_0000_0000
    ensures var t := AfterRun(s, sp, writes);
            StackUse(t) == 4 * d <==> !Marked(t, d - 1) && forall k: nat :: k + 8 <= d ==> !RunAt(t, k)
  {
    var t := AfterRun(s, sp, writes);
    StackUseIsLeastRun(t);
    ClearIsRun(s, sp, writes, d);
    if Marked(t, d - 1) {
      assert RunAt(t, d - 1);
    }
    var k := StackUse(t) / 4;
    assert RunAt(t, k);
    if k < d && d < k + 8 {
      assert Marked(t, d - 1);
    }
  }

  /** `h` is the greatest depth of the stack writes, where those deeper than `limit` are the heap's. */
  ghost predicate StackReaches(size: nat, writes: seq<Write>, limit: int, h: nat) {
    && (forall w :: w in writes && DepthOf(size, w) <= limit ==> DepthOf(size, w) <= h)
    && (h == 0 || exists w :: w in writes && DepthOf(size, w) == h <= limit)
  }

  /** In that case the report never falls short of the stack really used, and exceeds it by at most 1020 bytes. */
  lemma WatermarkError(s: seq<word>, sp: nat, writes: seq<Write>, h: nat)
    requires sp <= |s|
    requires var d := Max(|s| - sp + GAP - 1, h);
             && ClearBelow(|s|, sp, writes, d) && d + 8 <= Scanned(s) && 4 * |s| <= 0x1_0000_0000
             && StackReaches(|s|, writes, d + 8, h)
             && !Marked(AfterRun(s, sp, writes), d - 1)
             && forall k: nat :: k + 8 <= d ==> !RunAt(AfterRun(s, sp, writes), k)
    ensures var used := 4 * Max(|s| - sp, h);
            used <= StackUse(AfterRun(s, sp, writes)) <= used + 1020
  {
    WatermarkExact(s, sp, writes, Max(|s| - sp + GAP - 1, h));
  }

  // ---------- the result in terms of the writes alone

  /** Memory and writes in which no word happens to look like a marker. */
  ghost predicate Unmarked(s: seq<word>, writes: seq<Write>) {
    && (forall i :: 0 <= i < |s| ==> s[i] != 0xDEAD_BEEF)
    && forall w :: w in writes ==> w.at < |s| && w.value != 0xDEAD_BEEF
  }

  lemma {:induction false} ApplyMarker(s: seq<word>, writes: seq<Write>, i: nat)
    requires forall w :: w in writes ==> w.at < |s| && w.value != 0xDEAD_BEEF
    requires i < |s|
    ensures Apply(s, writes)[i] == 0xDEAD_BEEF <==> s[i] == 0xDEAD_BEEF && forall w :: w in writes ==> w.at != i
    decreases |writes|
  {
    if writes != [] {
      var w, rest := writes[0], writes[1..];
      assert w in writes && forall v :: v in writes <==> v == w || v in rest;
      ApplyMarker(s[w.at := w.value], rest, i);
    }
  }

  /** Some write goes to one of the eight words behind the first `k` from the top. */
  ghost predicate Touched(size: nat, writes: seq<Write>, k: nat) {
    exists w :: w in writes && k < size - w.at <= k + 8
  }

  /** Eight markers in a row are eight painted words that nothing has written. */
  lemma RunIffUntouched(s: seq<word>, sp: nat, writes: seq<Write>, k: nat)
    requires Unmarked(s, writes) && sp <= |s|
    ensures RunAt(AfterRun(s, sp, writes), k)
            <==> |s| - sp + 255 <= k && k + 8 <= Scanned(s) && !Touched(|s|, writes, k)
  {
    var t := AfterRun(s, sp, writes);
    if k + 8 <= Scanned(s) {
      forall j | k <= j < k + 8
        ensures Marked(t, j) <==> |s| - sp + 255 <= j && forall w :: w in writes ==> |s| - w.at != j + 1
      {
        ApplyMarker(Painted(s, sp), writes, |s| - 1 - j);
      }
      if w :| w in writes && k < |s| - w.at <= k + 8 {
        assert !Marked(t, |s| - w.at - 1);
      }
      assert Marked(t, k) ==> |s| - sp + 255 <= k;
    }
  }

  /**
   The reported use, for a memory without stray markers: with `h` the greatest depth written on the stack and the
   eight words below it and below the unpainted words clear, it is exactly that depth, if and only if the stack
   writes leave no eight painted words in a row untouched above it.
   */
  lemma WatermarkOfWrites(s: seq<word>, sp: nat, writes: seq<Write>, h: nat)
    requires Unmarked(s, writes) && sp <= |s| && 4 * |s| <= 0x1_0000_0000
    requires Max(|s| - sp + 255, h) + 8 <= Scanned(s)
    requires forall w :: w in writes ==> |s| - w.at <= h || Max(|s| - sp + 255, h) + 8 < |s| - w.at
    requires h == 0 || exists w :: w in writes && |s| - w.at == h
    ensures var d := Max(|s| - sp + 255, h);
            StackUse(AfterRun(s, sp, writes)) == 4 * d
            <==> forall k: nat :: |s| - sp + 255 <= k && k + 8 <= d ==> Touched(|s|, writes, k)
  {
    var d := Max(|s| - sp + 255, h);
    var t := AfterRun(s, sp, writes);
    StackUseIsLeastRun(t);
    forall k: nat
      ensures RunAt(t, k) <==> |s| - sp + 255 <= k && k + 8 <= Scanned(s) && !Touched(|s|, writes, k)
    {
      RunIffUntouched(s, sp, writes, k);
    }
    assert RunAt(t, d);
    if h == d && h > 0 {
      var w :| w in writes && |s| - w.at == h;
      forall k: nat | k < d < k + 8 ensures Touched(|s|, writes, k) {
      }
    }
  }

  /** A board without deep writes: the 255 unpainted words are reported as used. */
  lemma ShallowStackReports(s: seq<word>, sp: nat)
    requires Unmarked(s, []) && sp <= |s| && 4 * |s| <= 0x1_0000_0000
    requires |s| - sp + 255 + 8 <= Scanned(s)
    ensures StackUse(AfterRun(s, sp, [])) == 4 * (|s| - sp) + 1020
  {
    WatermarkOfWrites(s, sp, [], 0);
  }

  /** One write 1000 words down, and none between: only 1420 bytes are reported, of 4000. */
  lemma GapHidesDeepWrite(s: seq<word>)
    requires |s| == 2000 && Unmarked(s, [])
    ensures StackUse(AfterRun(s, 1900, [Write(1000, 0)])) == 1420
  {
    var writes := [Write(1000, 0)];
    RunIffUntouched(s, 1900, writes, 355);
    StackUseIsLeastRun(AfterRun(s, 1900, writes));
    RunIffUntouched(s, 1900, writes, StackUse(AfterRun(s, 1900, writes)) / 4);
  }
}
