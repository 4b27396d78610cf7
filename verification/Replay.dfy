/** The host's replay of the decoded records: the live-block map, the running total and the peak. */
module Replay {
  import opened Bytes
  import opened HeapRecord

  datatype Error = AssertionFailed | MissingKey | UnknownType | CutShort

  type Heap = map<word, word>

  datatype State = State(memmap: Heap, total: int, peak: int)

  datatype Result = Ok(state: State) | Raised(error: Error)

  const INITIAL := State(map[], 0, 0)

  /** The last statement of the loop body, which the `continue` branches skip. */
  function Bump(st: State): State {
    st.(peak := Max(st.peak, st.total))
  }

  function Step(st: State, slot: Slot): Result {
    match slot
    case BadTag => Raised(UnknownType)
    case Known(Malloc(ptr, size)) =>
      if ptr == 0 then Ok(st)
      else if ptr in st.memmap then Raised(AssertionFailed)
      else Ok(Bump(st.(memmap := st.memmap[ptr := size], total := st.total + size)))
    case Known(Realloc(src, dst, size)) =>
      if dst == 0 then Ok(st)
      else if src != 0 && src !in st.memmap then Raised(MissingKey)
      else Ok(Bump(Moved(st, src, dst, size)))
    case Known(Free(ptr)) =>
      if ptr == 0 || ptr !in st.memmap then Ok(st)
      else Ok(Bump(st.(memmap := st.memmap - {ptr}, total := st.total - st.memmap[ptr])))
  }

  /** What the accounts knew about the block that a realloc replaces. */
  function OldSize(m: Heap, src: word): int
    requires src != 0 ==> src in m
  {
    if src != 0 then m[src] else 0
  }

  function Moved(st: State, src: word, dst: word, size: word): State
    requires src != 0 ==> src in st.memmap
  {
    st.(memmap := Without(st.memmap, src)[dst := size], total := st.total + size - OldSize(st.memmap, src))
  }

  /** The map without `src`, where the null pointer stands for no block. */
  function Without(m: Heap, src: word): Heap {
    if src == 0 then m else m - {src}
  }

  function Run(st: State, slots: seq<Slot>): Result
    decreases |slots|
  {
    if slots == [] then Ok(st)
    else
      match Step(st, slots[0])
      case Raised(e) => Raised(e)
      case Ok(next) => Run(next, slots[1..])
  }

  /** Replaying a concatenation is replaying the second part from where the first part ended. */
  lemma {:induction false} RunAppend(st: State, a: seq<Slot>, b: seq<Slot>)
    ensures Run(st, a + b) == match Run(st, a) case Raised(e) => Raised(e) case Ok(mid) => Run(mid, b)
    decreases |a|
  {
    if a == [] {
      assert a + b == b;
    } else {
      assert (a + b)[0] == a[0] && (a + b)[1..] == a[1..] + b;
      match Step(st, a[0])
      case Raised(_) =>
      case Ok(next) => RunAppend(next, a[1..], b);
    }
  }

  lemma RunStep(st: State, slots: seq<Slot>, i: nat)
    requires i < |slots|
    ensures Run(st, slots[i..])
            == match Step(st, slots[i]) case Raised(e) => Raised(e) case Ok(next) => Run(next, slots[i + 1..])
  {
    assert slots[i..][0] == slots[i] && slots[i..][1..] == slots[i + 1..];
  }

  /** The replay loop of `get_heap`. */
  method ReplayAll(slots: seq<Slot>) returns (r: Result)
    ensures r == Run(INITIAL, slots)
  {
    var memmap: Heap, peak, total := map[], 0, 0;
    for i := 0 to |slots|
      invariant Run(INITIAL, slots) == Run(State(memmap, total, peak), slots[i..])
    {
      ghost var before := State(memmap, total, peak);
      RunStep(before, slots, i);
      match slots[i] {
        case Known(Malloc(ptr, size)) =>
          if ptr == 0 {
            continue;
          }
          if ptr in memmap {
            return Raised(AssertionFailed);
          }
          memmap := memmap[ptr := size];
          total := total + size;
        case Known(Realloc(src, dst, size)) =>
          if dst == 0 {
            continue;
          }
          var oldSize: int := 0;
          if src != 0 {
            if src !in memmap {
              return Raised(MissingKey);
            }
            oldSize := memmap[src];
            memmap := memmap - {src};
          }
          memmap := memmap[dst := size];
          total := total + size - oldSize;
        case Known(Free(ptr)) =>
          if ptr == 0 {
            continue;
          }
          if ptr !in memmap {
            continue;
          }
          var oldSize := memmap[ptr];
          memmap := memmap - {ptr};
          total := total - oldSize;
        case BadTag =>
          return Raised(UnknownType);
      }
      peak := Max(peak, total);
      assert Step(before, slots[i]) == Ok(State(memmap, total, peak));
    }
    assert slots[|slots|..] == [];
    r := Ok(State(memmap, total, peak));
  }

  /** Records that change nothing: a failed call, a free of null, and a free of an address that is not live. */
  predicate Ignored(st: State, slot: Slot) {
    match slot
    case Known(Malloc(ptr, _)) => ptr == 0
    case Known(Realloc(_, dst, _)) => dst == 0
    case Known(Free(ptr)) => ptr == 0 || ptr !in st.memmap
    case BadTag => false
  }

  /** Such a record can be struck out anywhere in any trace. */
  lemma StrikeOut(a: seq<Slot>, slot: Slot, b: seq<Slot>)
    requires Run(INITIAL, a).Ok? && Ignored(Run(INITIAL, a).state, slot)
    ensures Run(INITIAL, a + [slot] + b) == Run(INITIAL, a + b)
  {
    var st := Run(INITIAL, a).state;
    assert [slot][1..] == [];
    RunAppend(INITIAL, a + [slot], b);
    RunAppend(INITIAL, a, [slot]);
    RunAppend(INITIAL, a, b);
    assert Run(st, [slot]) == Ok(st);
  }

  // ---------- when the replay raises

  /** The record puts a block of `SizeOf` bytes at `a`. */
  predicate Places(slot: Slot, a: word) {
    match slot
    case Known(Malloc(ptr, _)) => ptr == a && a != 0
    case Known(Realloc(_, dst, _)) => dst == a && a != 0
    case _ => false
  }

  function SizeOf(slot: Slot): word {
    match slot
    case Known(Malloc(_, size)) => size
    case Known(Realloc(_, _, size)) => size
    case _ => 0
  }

  /** The record takes the block at `a` away: a free, or a realloc that moved it. */
  predicate Removes(slot: Slot, a: word) {
    match slot
    case Known(Realloc(src, dst, _)) => src == a && a != 0 && dst != 0 && dst != a
    case Known(Free(ptr)) => ptr == a
    case _ => false
  }

  /** The size of the block at `a`, if there is one, as the history alone tells it: by the last record about `a`. */
  function BlockAt(history: seq<Slot>, a: word): Option<word>
    decreases |history|
  {
    if history == [] then None
    else
      var last := history[|history| - 1];
      if Places(last, a) then Some(SizeOf(last))
      else if Removes(last, a) then None
      else BlockAt(history[..|history| - 1], a)
  }

  /** The map holds exactly the blocks of the history. */
  ghost predicate MapTells(m: Heap, history: seq<Slot>) {
    forall a: word :: BlockAt(history, a) == if a in m then Some(m[a]) else None
  }

  /** How `slot` fails behind `history`: a malloc onto a block, a realloc of none, or an unknown tag. */
  predicate FailsNow(history: seq<Slot>, slot: Slot, e: Error) {
    match slot
    case Known(Malloc(ptr, _)) => e == AssertionFailed && ptr != 0 && BlockAt(history, ptr).Some?
    case Known(Realloc(src, dst, _)) => e == MissingKey && dst != 0 && src != 0 && BlockAt(history, src).None?
    case Known(Free(_)) => false
    case BadTag => e == UnknownType
  }

  lemma {:induction false} NoBlockAtNull(history: seq<Slot>)
    ensures BlockAt(history, 0) == None
    decreases |history|
  {
    if history != [] {
      NoBlockAtNull(history[..|history| - 1]);
    }
  }

  lemma StepTells(st: State, history: seq<Slot>, slot: Slot)
    requires MapTells(st.memmap, history)
    ensures forall e :: Step(st, slot) == Raised(e) <==> FailsNow(history, slot, e)
    ensures Step(st, slot).Ok? ==> MapTells(Step(st, slot).state.memmap, history + [slot])
  {
    var h := history + [slot];
    assert h[..|h| - 1] == history;
    NoBlockAtNull(history);
    match slot {
      case Known(Malloc(ptr, _)) => assert BlockAt(history, ptr).Some? <==> ptr in st.memmap;
      case Known(Realloc(src, _, _)) => assert BlockAt(history, src).Some? <==> src in st.memmap;
      case _ =>
    }
    if Step(st, slot).Ok? {
      var m := Step(st, slot).state.memmap;
      forall a: word ensures BlockAt(h, a) == if a in m then Some(m[a]) else None {
        assert BlockAt(history, a) == if a in st.memmap then Some(st.memmap[a]) else None;
      }
    }
  }

  /** The first record that fails is number `k`, with `e`. */
  ghost predicate FirstFailure(slots: seq<Slot>, k: nat, e: Error) {
    && k < |slots| && FailsNow(slots[..k], slots[k], e)
    && forall i, e' :: 0 <= i < k ==> !FailsNow(slots[..i], slots[i], e')
  }

  ghost predicate FailsWith(slots: seq<Slot>, e: Error) {
    exists k: nat :: FirstFailure(slots, k, e)
  }

  /**
   Whether, how and where any trace fails, and which blocks are left when it does not, all in terms of what
   stands in the trace.
   */
  lemma {:induction false} RaisesIff(slots: seq<Slot>)
    ensures Run(INITIAL, slots).Ok? ==> MapTells(Run(INITIAL, slots).state.memmap, slots)
    ensures Run(INITIAL, slots).Ok? <==> forall k, e :: 0 <= k < |slots| ==> !FailsNow(slots[..k], slots[k], e)
    ensures forall e :: Run(INITIAL, slots) == Raised(e) <==> FailsWith(slots, e)
    decreases |slots|
  {
    if slots != [] {
      var n := |slots| - 1;
      var front, last := slots[..n], slots[n];
      assert slots == front + [last];
      RaisesIff(front);
      RunAppend(INITIAL, front, [last]);
      assert [last][1..] == [];
      assert forall k :: 0 <= k < n ==> front[..k] == slots[..k];
      assert slots[..n] == front;
      if Run(INITIAL, front).Ok? {
        var st := Run(INITIAL, front).state;
        assert Run(st, [last]) == Step(st, last);
        StepTells(st, front, last);
        FailsLast(slots);
      } else {
        FailsEarlier(slots, front);
      }
    }
  }

  lemma FailsLast(slots: seq<Slot>)
    requires slots != []
    requires var n := |slots| - 1; forall k, e :: 0 <= k < n ==> !FailsNow(slots[..k], slots[k], e)
    ensures var n := |slots| - 1;
            forall e :: FailsNow(slots[..n], slots[n], e) <==> FailsWith(slots, e)
  {
    var n := |slots| - 1;
    forall e ensures FailsNow(slots[..n], slots[n], e) <==> FailsWith(slots, e) {
      if FailsNow(slots[..n], slots[n], e) {
        assert FirstFailure(slots, n, e);
      }
    }
  }

  lemma FailsEarlier(slots: seq<Slot>, front: seq<Slot>)
    requires slots != [] && front == slots[..|slots| - 1]
    requires exists k: nat, e :: FirstFailure(front, k, e)
    ensures forall e :: FailsWith(front, e) <==> FailsWith(slots, e)
    ensures exists k, e :: 0 <= k < |slots| && FailsNow(slots[..k], slots[k], e)
  {
    assert forall k :: 0 <= k <= |front| ==> front[..k] == slots[..k];
    var k0: nat, e0 :| FirstFailure(front, k0, e0);
    assert FailsNow(slots[..k0], slots[k0], e0);
    forall e ensures FailsWith(front, e) <==> FailsWith(slots, e) {
      if k: nat :| FirstFailure(front, k, e) {
        assert FirstFailure(slots, k, e);
      }
      if k: nat :| FirstFailure(slots, k, e) {
        assert k <= k0;
        assert FirstFailure(front, k, e);
      }
    }
  }

  /** What one record adds to the total, as the history in front of it tells. */
  function Change(history: seq<Slot>, slot: Slot): int {
    match slot
    case Known(Malloc(ptr, size)) => if ptr == 0 then 0 else size as int
    case Known(Realloc(src, dst, size)) => if dst == 0 then 0 else size - HeldAt(history, src)
    case Known(Free(ptr)) => -HeldAt(history, ptr)
    case BadTag => 0
  }

  function HeldAt(history: seq<Slot>, a: word): int {
    match BlockAt(history, a)
    case None => 0
    case Some(size) => size as int
  }

  function Tally(history: seq<Slot>): int
    decreases |history|
  {
    if history == [] then 0
    else
      var front := history[..|history| - 1];
      Tally(front) + Change(front, history[|history| - 1])
  }

  /** The total of any trace that does not fail, in terms of what stands in the trace. */
  lemma {:induction false} TotalTells(slots: seq<Slot>)
    requires Run(INITIAL, slots).Ok?
    ensures Run(INITIAL, slots).state.total == Tally(slots)
    decreases |slots|
  {
    if slots != [] {
      var front, last := slots[..|slots| - 1], slots[|slots| - 1];
      assert slots == front + [last] && [last][1..] == [];
      RunAppend(INITIAL, front, [last]);
      TotalTells(front);
      RaisesIff(front);
      NoBlockAtNull(front);
      ChangeTells(Run(INITIAL, front).state, front, last);
      assert Run(Run(INITIAL, front).state, [last]) == Step(Run(INITIAL, front).state, last);
    }
  }

  lemma ChangeTells(st: State, history: seq<Slot>, slot: Slot)
    requires MapTells(st.memmap, history) && BlockAt(history, 0) == None && Step(st, slot).Ok?
    ensures Step(st, slot).state.total == st.total + Change(history, slot)
  {
    match slot
    case Known(Realloc(src, _, _)) => assert BlockAt(history, src).Some? <==> src in st.memmap;
    case Known(Free(ptr)) => assert BlockAt(history, ptr).Some? <==> ptr in st.memmap;
    case _ =>
  }

  /** A realloc of a block that was allocated before the trace began. */
  lemma ReallocOfOlderBlock()
    ensures Run(INITIAL, [Known(Realloc(0x2000_0100, 0x2000_0200, 64))]) == Raised(MissingKey)
  {
  }

  // ---------- accounting

  ghost function Sum(m: Heap): nat
    decreases m.Keys
  {
    if m.Keys == {} then 0
    else
      var k :| k in m.Keys;
      m[k] + Sum(m - {k})
  }

  lemma {:induction false} SumWithout(m: Heap, k: word)
    requires k in m
    ensures Sum(m) == m[k] + Sum(m - {k})
    decreases m.Keys
  {
    var j :| j in m.Keys && Sum(m) == m[j] + Sum(m - {j});
    if j != k {
      SumWithout(m - {j}, k);
      SumWithout(m - {k}, j);
      assert m - {j} - {k} == m - {k} - {j};
    }
  }

  lemma SumWith(m: Heap, k: word, size: word)
    ensures Sum(m[k := size]) == size + Sum(m - {k})
  {
    SumWithout(m[k := size], k);
    assert m[k := size] - {k} == m - {k};
  }

  /** The size of the live block that a realloc's new address overwrites without its ever being freed. */
  function Clobbered(st: State, slot: Slot): nat {
    match slot
    case Known(Realloc(src, dst, _)) =>
      var rest := Without(st.memmap, src);
      if dst != 0 && dst in rest then rest[dst] else 0
    case _ => 0
  }

  function Leak(st: State, slots: seq<Slot>): nat
    decreases |slots|
  {
    if slots == [] || Step(st, slots[0]).Raised? then 0
    else Clobbered(st, slots[0]) + Leak(Step(st, slots[0]).state, slots[1..])
  }

  lemma StepAccounting(st: State, slot: Slot)
    requires Step(st, slot).Ok?
    ensures var next := Step(st, slot).state;
            next.total - Sum(next.memmap) == st.total - Sum(st.memmap) + Clobbered(st, slot)
  {
    var m := st.memmap;
    match slot
    case Known(Malloc(ptr, size)) =>
      SumWith(m, ptr, size);
      assert ptr !in m ==> m - {ptr} == m;
    case Known(Realloc(src, dst, size)) =>
      if dst != 0 {
        var rest := Without(m, src);
        if src != 0 {
          SumWithout(m, src);
        }
        SumWith(rest, dst, size);
        if dst in rest {
          SumWithout(rest, dst);
        } else {
          assert rest - {dst} == rest;
        }
      }
    case Known(Free(ptr)) =>
      if ptr in m {
        SumWithout(m, ptr);
      }
  }

  /** On every trace the total exceeds the live bytes by exactly what reallocs have clobbered. */
  lemma {:induction false} Accounting(st: State, slots: seq<Slot>)
    requires Run(st, slots).Ok?
    ensures var end := Run(st, slots).state;
            end.total - Sum(end.memmap) == st.total - Sum(st.memmap) + Leak(st, slots)
    decreases |slots|
  {
    if slots != [] {
      StepAccounting(st, slots[0]);
      Accounting(Step(st, slots[0]).state, slots[1..]);
    }
  }

  /** From the start: the total is the sum of the live map, if and only if nothing was clobbered. */
  lemma TotalIsSumIffNoLeak(slots: seq<Slot>)
    requires Run(INITIAL, slots).Ok?
    ensures var end := Run(INITIAL, slots).state; end.total == Sum(end.memmap) <==> Leak(INITIAL, slots) == 0
  {
    Accounting(INITIAL, slots);
  }

  /** Two blocks, and a realloc of the first onto the second: 24 bytes accounted for, 16 live. */
  lemma ClobberingRealloc()
    ensures var slots := [Known(Malloc(1, 4)), Known(Malloc(2, 8)), Known(Realloc(1, 2, 16))];
            && Run(INITIAL, slots) == Ok(State(map[2 := 16], 24, 24))
            && Leak(INITIAL, slots) == 8 && Sum(map[2 := 16]) == 16
  {
    var s0, s1, s2 := Known(Malloc(1, 4)), Known(Malloc(2, 8)), Known(Realloc(1, 2, 16));
    var a, b, c := State(map[1 := 4], 4, 4), State(map[1 := 4, 2 := 8], 12, 12), State(map[2 := 16], 24, 24);
    assert Step(INITIAL, s0) == Ok(a) && Step(a, s1) == Ok(b);
    assert b.memmap - {1} == map[2 := 8];
    assert Step(b, s2) == Ok(c);
    assert [s0, s1, s2][1..] == [s1, s2] && [s1, s2][1..] == [s2] && [s2][1..] == [];
    assert Run(c, []) == Ok(c) && Run(b, [s2]) == Ok(c) && Run(a, [s1, s2]) == Ok(c);
    assert Leak(b, [s2]) == 8 && Leak(a, [s1, s2]) == 8;
    Accounting(INITIAL, [s0, s1, s2]);
  }

  // ---------- the peak

  /** The peak is an upper bound of every prefix's total, and one prefix attains it. */
  ghost predicate IsPeak(st: State, slots: seq<Slot>, peak: int) {
    && (forall k :: 0 <= k <= |slots| ==> Run(st, slots[..k]).Ok? && Run(st, slots[..k]).state.total <= peak)
    && (exists k :: 0 <= k <= |slots| && Run(st, slots[..k]).Ok? && Run(st, slots[..k]).state.total == peak)
  }

  lemma StepPeak(st: State, slot: Slot)
    requires Step(st, slot).Ok? && st.total <= st.peak
    ensures var next := Step(st, slot).state; next.peak == Max(st.peak, next.total)
  {
  }

  lemma RunPrefix(st: State, slots: seq<Slot>, k: nat)
    requires k < |slots| && Step(st, slots[0]).Ok?
    ensures Run(st, slots[..k + 1]) == Run(Step(st, slots[0]).state, slots[1..][..k])
  {
    assert slots[..k + 1][0] == slots[0] && slots[..k + 1][1..] == slots[1..][..k];
  }

  /** The final peak is the larger of the initial peak and every total on the way, `continue` or not. */
  lemma {:induction false} PeakBoundsTotals(st: State, slots: seq<Slot>)
    requires Run(st, slots).Ok? && st.total <= st.peak
    ensures st.peak <= Run(st, slots).state.peak
    ensures forall k :: 0 <= k <= |slots| ==>
              Run(st, slots[..k]).Ok? && Run(st, slots[..k]).state.total <= Run(st, slots).state.peak
    ensures Run(st, slots).state.peak == st.peak
            || exists k :: 0 <= k <= |slots| && Run(st, slots[..k]).state.total == Run(st, slots).state.peak
    decreases |slots|
  {
    if slots != [] {
      var next, rest := Step(st, slots[0]).state, slots[1..];
      StepPeak(st, slots[0]);
      PeakBoundsTotals(next, rest);
      var peak := Run(next, rest).state.peak;
      forall k | 0 <= k <= |slots|
        ensures Run(st, slots[..k]).Ok? && Run(st, slots[..k]).state.total <= peak
      {
        if k > 0 {
          RunPrefix(st, slots, k - 1);
        }
      }
      if peak == next.peak && peak != st.peak {
        RunPrefix(st, slots, 0);
        assert rest[..0] == [];
        assert Run(st, slots[..1]).state.total == peak;
      } else if peak != next.peak {
        var k :| 0 <= k <= |rest| && Run(next, rest[..k]).state.total == peak;
        RunPrefix(st, slots, k);
        assert Run(st, slots[..k + 1]).state.total == peak;
      }
    }
  }

  lemma PeakIsMaximum(slots: seq<Slot>)
    requires Run(INITIAL, slots).Ok?
    ensures IsPeak(INITIAL, slots, Run(INITIAL, slots).state.peak)
  {
    PeakBoundsTotals(INITIAL, slots);
    assert slots[..0] == [];
    assert Run(INITIAL, slots[..0]) == Ok(INITIAL);
  }

  // ---------- only the identity of addresses matters

  ghost predicate Renaming(f: word -> word) {
    f(0) == 0 && forall x: word, y: word :: f(x) == f(y) ==> x == y
  }

  ghost function RenameSlot(slot: Slot, f: word -> word): Slot {
    match slot
    case Known(Malloc(ptr, size)) => Known(Malloc(f(ptr), size))
    case Known(Realloc(src, dst, size)) => Known(Realloc(f(src), f(dst), size))
    case Known(Free(ptr)) => Known(Free(f(ptr)))
    case BadTag => BadTag
  }

  ghost function RenameAll(slots: seq<Slot>, f: word -> word): (r: seq<Slot>)
    ensures |r| == |slots|
  {
    if slots == [] then [] else [RenameSlot(slots[0], f)] + RenameAll(slots[1..], f)
  }

  /** The same blocks under their new addresses. */
  ghost predicate SameBlocks(m: Heap, m': Heap, f: word -> word) {
    forall k: word :: (k in m <==> f(k) in m') && (k in m ==> m[k] == m'[f(k)])
  }

  /** Equal accounts over the same blocks, or the same exception. */
  ghost predicate SameResult(r: Result, r': Result, f: word -> word) {
    match (r, r')
    case (Ok(st), Ok(st')) => st.total == st'.total && st.peak == st'.peak && SameBlocks(st.memmap, st'.memmap, f)
    case (Raised(e), Raised(e')) => e == e'
    case _ => false
  }

  lemma SameAfterRemove(m: Heap, m': Heap, f: word -> word, src: word)
    requires Renaming(f) && SameBlocks(m, m', f)
    ensures SameBlocks(m - {src}, m' - {f(src)}, f)
  {
  }

  lemma SameAfterUpdate(m: Heap, m': Heap, f: word -> word, dst: word, size: word)
    requires Renaming(f) && SameBlocks(m, m', f)
    ensures SameBlocks(m[dst := size], m'[f(dst) := size], f)
  {
  }

  /** The renamed step on the renamed map. */
  ghost predicate Commutes(st: State, st': State, slot: Slot, f: word -> word) {
    SameResult(Step(st, slot), Step(st', RenameSlot(slot, f)), f)
  }

  lemma RenameMalloc(st: State, st': State, ptr: word, size: word, f: word -> word)
    requires Renaming(f) && SameResult(Ok(st), Ok(st'), f)
    ensures Commutes(st, st', Known(Malloc(ptr, size)), f)
  {
    assert f(ptr) == 0 <==> ptr == 0;
    SameAfterUpdate(st.memmap, st'.memmap, f, ptr, size);
  }

  lemma SameNull(f: word -> word, p: word)
    requires Renaming(f)
    ensures f(p) == 0 <==> p == 0
  {
  }

  lemma SameWithout(m: Heap, m': Heap, f: word -> word, src: word)
    requires Renaming(f) && SameBlocks(m, m', f)
    ensures SameBlocks(Without(m, src), Without(m', f(src)), f)
  {
    SameNull(f, src);
    SameAfterRemove(m, m', f, src);
  }

  lemma SameOldSize(m: Heap, m': Heap, f: word -> word, src: word)
    requires Renaming(f) && SameBlocks(m, m', f) && (src != 0 ==> src in m)
    ensures f(src) != 0 ==> f(src) in m'
    ensures OldSize(m, src) == OldSize(m', f(src))
  {
    SameNull(f, src);
  }

  lemma SameMoved(st: State, st': State, src: word, dst: word, size: word, f: word -> word)
    requires Renaming(f) && SameResult(Ok(st), Ok(st'), f) && (src != 0 ==> src in st.memmap)
    ensures f(src) != 0 ==> f(src) in st'.memmap
    ensures SameResult(Ok(Bump(Moved(st, src, dst, size))), Ok(Bump(Moved(st', f(src), f(dst), size))), f)
  {
    SameOldSize(st.memmap, st'.memmap, f, src);
    SameWithout(st.memmap, st'.memmap, f, src);
    SameAfterUpdate(Without(st.memmap, src), Without(st'.memmap, f(src)), f, dst, size);
  }

  lemma RenameRealloc(st: State, st': State, src: word, dst: word, size: word, f: word -> word)
    requires Renaming(f) && SameResult(Ok(st), Ok(st'), f)
    ensures Commutes(st, st', Known(Realloc(src, dst, size)), f)
  {
    SameNull(f, src);
    SameNull(f, dst);
    if src != 0 ==> src in st.memmap {
      SameMoved(st, st', src, dst, size, f);
    }
  }

  lemma RenameFree(st: State, st': State, ptr: word, f: word -> word)
    requires Renaming(f) && SameResult(Ok(st), Ok(st'), f)
    ensures Commutes(st, st', Known(Free(ptr)), f)
  {
    assert f(ptr) == 0 <==> ptr == 0;
    SameAfterRemove(st.memmap, st'.memmap, f, ptr);
  }

  lemma RenameStep(st: State, st': State, slot: Slot, f: word -> word)
    requires Renaming(f) && SameResult(Ok(st), Ok(st'), f)
    ensures Commutes(st, st', slot, f)
  {
    match slot
    case BadTag =>
    case Known(Malloc(ptr, size)) => RenameMalloc(st, st', ptr, size, f);
    case Known(Realloc(src, dst, size)) => RenameRealloc(st, st', src, dst, size, f);
    case Known(Free(ptr)) => RenameFree(st, st', ptr, f);
  }

  /** Any injective renaming of addresses that fixes null: the same accounts, or the same exception, on any trace. */
  lemma {:induction false} RenameRun(st: State, st': State, slots: seq<Slot>, f: word -> word)
    requires Renaming(f) && SameResult(Ok(st), Ok(st'), f)
    ensures SameResult(Run(st, slots), Run(st', RenameAll(slots, f)), f)
    decreases |slots|
  {
    if slots != [] {
      RenameStep(st, st', slots[0], f);
      assert RenameAll(slots, f)[1..] == RenameAll(slots[1..], f);
      if Step(st, slots[0]).Ok? {
        RenameRun(Step(st, slots[0]).state, Step(st', RenameSlot(slots[0], f)).state, slots[1..], f);
      }
    }
  }

  lemma AddressesDoNotMatter(slots: seq<Slot>, f: word -> word)
    requires Renaming(f)
    ensures SameResult(Run(INITIAL, slots), Run(INITIAL, RenameAll(slots, f)), f)
  {
    RenameRun(INITIAL, INITIAL, slots, f);
  }
}
