/**
 The device's heap, known only through the contract on the addresses that the real allocator returns,
 and the claim of the heap trace: what the host replays is what happened.
 */
module Allocator {
  import opened Bytes
  import opened HeapRecord
  import opened Replay

  /**
   A call together with the address it returned.  A block is allocated at null (failure) or at an address
   that is not live; only null and live blocks are freed or reallocated.  Reallocating to size 0 with a
   null result is left to the C library and excluded.
   */
  predicate Legal(live: Heap, call: Record) {
    match call
    case Malloc(ptr, _) => ptr !in live
    case Realloc(src, dst, size) =>
      && (src == 0 || src in live)
      && (if dst == 0 then src == 0 || size != 0 else dst !in live || dst == src)
    case Free(ptr) => ptr == 0 || ptr in live
  }

  /** The live blocks after the call; a failed realloc leaves its block alone. */
  function Next(live: Heap, call: Record): Heap {
    match call
    case Malloc(ptr, size) => if ptr == 0 then live else live[ptr := size]
    case Realloc(src, dst, size) => if dst == 0 then live else (live - {src})[dst := size]
    case Free(ptr) => live - {ptr}
  }

  /** Null is never a live block. */
  predicate Proper(live: Heap) {
    0 !in live
  }

  predicate LegalRun(live: Heap, calls: seq<Record>)
    decreases |calls|
  {
    calls == [] || (Legal(live, calls[0]) && LegalRun(Next(live, calls[0]), calls[1..]))
  }

  function After(live: Heap, calls: seq<Record>): Heap
    decreases |calls|
  {
    if calls == [] then live else After(Next(live, calls[0]), calls[1..])
  }

  /** The largest number of live bytes at any moment of the run. */
  ghost function HighWater(live: Heap, calls: seq<Record>): nat
    decreases |calls|
  {
    if calls == [] then Sum(live)
    else
      var later := HighWater(Next(live, calls[0]), calls[1..]);
      if Sum(live) >= later then Sum(live) else later
  }

  /** It is an upper bound of the live bytes after every prefix, and some prefix attains it. */
  lemma {:induction false} HighWaterIsMaximum(live: Heap, calls: seq<Record>)
    ensures forall k :: 0 <= k <= |calls| ==> Sum(After(live, calls[..k])) <= HighWater(live, calls)
    ensures exists k :: 0 <= k <= |calls| && Sum(After(live, calls[..k])) == HighWater(live, calls)
    decreases |calls|
  {
    if calls == [] {
      assert Sum(After(live, calls[..0])) == HighWater(live, calls);
    } else {
      var next, rest := Next(live, calls[0]), calls[1..];
      HighWaterIsMaximum(next, rest);
      forall k | 0 < k <= |calls| ensures After(live, calls[..k]) == After(next, rest[..k - 1]) {
        assert calls[..k][1..] == rest[..k - 1];
      }
      assert After(live, calls[..0]) == live;
      var k :| 0 <= k <= |rest| && Sum(After(next, rest[..k])) == HighWater(next, rest);
      assert After(live, calls[..k + 1]) == After(next, rest[..k]);
      var best := if Sum(live) >= HighWater(next, rest) then 0 else k + 1;
      assert Sum(After(live, calls[..best])) == HighWater(live, calls);
    }
  }

  lemma {:induction false} LegalRunAppend(live: Heap, a: seq<Record>, b: seq<Record>)
    ensures LegalRun(live, a + b) <==> LegalRun(live, a) && LegalRun(After(live, a), b)
    ensures After(live, a + b) == After(After(live, a), b)
    decreases |a|
  {
    if a == [] {
      assert a + b == b;
    } else {
      assert (a + b)[1..] == a[1..] + b;
      LegalRunAppend(Next(live, a[0]), a[1..], b);
    }
  }

  /** One legal call: the host's map follows the live map, without an exception, and nothing is clobbered. */
  lemma StepFollows(live: Heap, call: Record, peak: int)
    requires Proper(live) && Legal(live, call) && Sum(live) <= peak
    ensures Proper(Next(live, call))
    ensures var next := Next(live, call);
            Step(State(live, Sum(live), peak), Known(call)) == Ok(State(next, Sum(next), Max(peak, Sum(next))))
  {
    var st, next := State(live, Sum(live), peak), Next(live, call);
    assert live - {0} == live;
    assert Step(st, Known(call)).Ok?;
    StepAccounting(st, Known(call));
    assert Clobbered(st, Known(call)) == 0;
    StepPeak(st, Known(call));
    assert Step(st, Known(call)).state.memmap == next;
  }

  /** Every legal run: the replay succeeds, ends in the live map, and its peak is the high-water mark. */
  lemma {:induction false} ReplayFollows(live: Heap, calls: seq<Record>, peak: int)
    requires Proper(live) && LegalRun(live, calls) && Sum(live) <= peak
    ensures var end := After(live, calls);
            Run(State(live, Sum(live), peak), Slots(calls))
            == Ok(State(end, Sum(end), Max(peak, HighWater(live, calls))))
    decreases |calls|
  {
    if calls == [] {
      assert Slots(calls) == [];
    } else {
      var next := Next(live, calls[0]);
      StepFollows(live, calls[0], peak);
      assert Slots(calls)[1..] == Slots(calls[1..]);
      ReplayFollows(next, calls[1..], Max(peak, Sum(next)));
      NextBelowHighWater(next, calls[1..]);
    }
  }

  lemma NextBelowHighWater(live: Heap, calls: seq<Record>)
    ensures Sum(live) <= HighWater(live, calls)
  {
  }

  /** From an empty heap. */
  lemma PeakIsHighWater(calls: seq<Record>)
    requires LegalRun(map[], calls)
    ensures var end := After(map[], calls);
            Run(INITIAL, Slots(calls)) == Ok(State(end, Sum(end), HighWater(map[], calls)))
  {
    ReplayFollows(map[], calls, 0);
  }

  /** After every call of the run, not just the last, the host's map is the live map and its total the live bytes. */
  lemma MapFollowsAtEveryStep(calls: seq<Record>, k: nat)
    requires LegalRun(map[], calls) && k <= |calls|
    ensures var live := After(map[], calls[..k]);
            Run(INITIAL, Slots(calls)[..k]) == Ok(State(live, Sum(live), HighWater(map[], calls[..k])))
  {
    assert calls == calls[..k] + calls[k..];
    LegalRunAppend(map[], calls[..k], calls[k..]);
    PeakIsHighWater(calls[..k]);
    assert Slots(calls)[..k] == Slots(calls[..k]);
  }
}
