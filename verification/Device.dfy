/** The wrapped allocator on the device, and the trace it leaves on the wire. */
module Device {
  import opened Bytes
  import opened Framing
  import opened HeapRecord
  import opened Replay
  import opened Allocator
  import opened Itm
  import opened GetHeap

  class Tracer {
    /** Everything written to the ITM so far, packet headers included. */
    var wire: seq<byte>

    ghost var before: seq<byte>
    ghost var log: seq<Emitted>
    ghost var live: Heap

    /** The wire carries exactly the logged calls, and the logged calls are a legal run that ends in `live`. */
    ghost predicate Valid()
      reads this
    {
      && wire == Frame(before + START + EncodeAll(log))
      && LegalRun(map[], Records(log)) && live == After(map[], Records(log)) && Proper(live)
      && (forall p :: p in live ==> InRam(p))
      && OnRam(log)
    }

    /** The start of `post_main`, after whatever the device had sent before. */
    constructor PostMain(ghost earlier: seq<byte>, sent: seq<byte>)
      requires sent == Frame(earlier)
      ensures Valid() && before == earlier && log == [] && live == map[]
    {
      wire, before, log, live := sent, earlier, [], map[];
      new;
      TraceBuffer(START);
      FrameAppend(before, START);
      assert before + START + EncodeAll(log) == before + START;
    }

    method TraceBuffer(buffer: seq<byte>)
      modifies this`wire
      ensures wire == old(wire) + Frame(buffer)
    {
      for c := 0 to |buffer|
        invariant wire == old(wire) + Frame(buffer[..c])
      {
        wire := wire + [1, buffer[c]];
        FrameAppend(buffer[..c], [buffer[c]]);
        FrameStep([buffer[c]]);
        assert buffer[..c] + [buffer[c]] == buffer[..c + 1];
      }
      assert buffer[..|buffer|] == buffer;
    }

    /** One wrapper call: the record goes out, and the run is one legal call longer. */
    method Emit(rec: Record, junk: junk)
      requires Valid() && Legal(live, rec) && NullOrRam(FirstPointer(rec))
      requires forall p :: p in Next(live, rec) ==> InRam(p)
      modifies this
      ensures Valid() && before == old(before)
      ensures log == old(log) + [Emitted(rec, junk)] && live == Next(old(live), rec)
    {
      var e := Emitted(rec, junk);
      TraceBuffer(Encode(e));
      LogGrows(before, log, e);
      log := log + [e];
      live := Next(live, rec);
    }

    method WrapMalloc(size: word, got: word, junk: junk) returns (ptr: word)
      requires Valid() && NullOrRam(got) && got !in live
      modifies this
      ensures Valid() && before == old(before) && ptr == got
      ensures log == old(log) + [Emitted(Malloc(got, size), junk)]
      ensures live == if got == 0 then old(live) else old(live)[got := size]
    {
      ptr := got;
      Emit(Malloc(ptr, size), junk);
    }

    method WrapRealloc(ptr: word, n: word, got: word, junk: junk) returns (newPtr: word)
      requires Valid() && NullOrRam(got)
      requires ptr == 0 || ptr in live
      requires if got == 0 then ptr == 0 || n != 0 else got !in live || got == ptr
      modifies this
      ensures Valid() && before == old(before) && newPtr == got
      ensures log == old(log) + [Emitted(Realloc(ptr, got, n), junk)]
      ensures live == if got == 0 then old(live) else (old(live) - {ptr})[got := n]
    {
      newPtr := got;
      Emit(Realloc(ptr, newPtr, n), junk);
    }

    method WrapFree(ptr: word, junk: junk)
      requires Valid() && (ptr == 0 || ptr in live)
      modifies this
      ensures Valid() && before == old(before)
      ensures log == old(log) + [Emitted(Free(ptr), junk)] && live == old(live) - {ptr}
    {
      Emit(Free(ptr), junk);
    }

    /** The end of `post_main`: from here on the host prints the run's high-water mark. */
    method Done()
      requires Valid() && !HasTrace(before, START, END)
      modifies this`wire
      ensures HeapOf(Itm.Decode(wire)) == Peak(HighWater(map[], Records(log)))
    {
      TraceBuffer(END);
      var data := Carrying(before, EncodeAll(log), []);
      FrameAppend(before + START + EncodeAll(log), END);
      assert before + START + EncodeAll(log) + END == data;
      EndToEnd(before, log, [], NoneLost(|data|), []);
      assert Frame(data) + [] == wire;
    }
  }

  lemma LogGrows(before: seq<byte>, log: seq<Emitted>, e: Emitted)
    ensures Frame(before + START + EncodeAll(log)) + Frame(Encode(e)) == Frame(before + START + EncodeAll(log + [e]))
    ensures Records(log + [e]) == Records(log) + [e.rec]
    ensures LegalRun(map[], Records(log + [e]))
            <==> LegalRun(map[], Records(log)) && Legal(After(map[], Records(log)), e.rec)
    ensures After(map[], Records(log + [e])) == Next(After(map[], Records(log)), e.rec)
  {
    FrameAppend(before + START + EncodeAll(log), Encode(e));
    EncodeAllAppend(log, [e]);
    assert EncodeAll([e]) == Encode(e) + EncodeAll([]) == Encode(e);
    Assoc(before + START, EncodeAll(log), Encode(e));
    assert Records(log + [e]) == Records(log) + [e.rec];
    LegalRunAppend(map[], Records(log), [e.rec]);
    SingleCall(After(map[], Records(log)), e.rec);
  }

  lemma SingleCall(live: Heap, call: Record)
    ensures LegalRun(live, [call]) <==> Legal(live, call)
    ensures After(live, [call]) == Next(live, call)
  {
    assert [call][1..] == [];
  }
}
