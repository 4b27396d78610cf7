/** The packed 13-byte trace records: the device's encoder and the host's decoder. */
module HeapRecord {
  import opened Bytes
  import opened Framing

  datatype Record =
    | Malloc(ptr: word, size: word)
    | Realloc(src: word, dst: word, size: word)
    | Free(ptr: word)

  /** The twelve bytes of stack the union lands on; what a short variant does not overwrite is sent as it was. */
  type junk = s: seq<byte> | |s| == 12 witness [0, 0, 0, 0, 0, 0, 0, 0, 0, 0, 0, 0]

  datatype Emitted = Emitted(rec: Record, junk: junk)

  // ---------- little-endian words

  function Le32(w: word): (b: seq<byte>)
    ensures |b| == 4
  {
    [w % 0x100, w / 0x100 % 0x100, w / 0x100 / 0x100 % 0x100, w / 0x100 / 0x100 / 0x100]
  }

  function UnLe32(b: seq<byte>): word
    requires |b| == 4
  {
    b[0] as int + 0x100 * (b[1] as int + 0x100 * (b[2] as int + 0x100 * (b[3] as int)))
  }

  lemma WordRoundTrip(w: word)
    ensures UnLe32(Le32(w)) == w
  {
  }

  lemma BytesRoundTrip(b: seq<byte>)
    requires |b| == 4
    ensures Le32(UnLe32(b)) == b
  {
    var w := UnLe32(b);
    var b0: int, b1: int, b2: int, b3: int := b[0], b[1], b[2], b[3];
    assert w / 0x100 == b1 + 0x100 * (b2 + 0x100 * b3);
    assert w / 0x100 / 0x100 == b2 + 0x100 * b3;
  }

  // ---------- one record

  function Tag(r: Record): byte {
    match r
    case Malloc(_, _) => 0
    case Realloc(_, _, _) => 1
    case Free(_) => 2
  }

  function Fields(r: Record): (b: seq<byte>)
    ensures |b| <= 12
  {
    match r
    case Malloc(ptr, size) => Le32(ptr) + Le32(size)
    case Realloc(src, dst, size) => Le32(src) + Le32(dst) + Le32(size)
    case Free(ptr) => Le32(ptr)
  }

  function Encode(e: Emitted): (b: seq<byte>)
    ensures |b| == 13 && b[0] == Tag(e.rec)
  {
    [Tag(e.rec)] + Fields(e.rec) + e.junk[|Fields(e.rec)|..]
  }

  /** The packed layout of the three records: the tag, then the words in this order, each with its low byte first. */
  lemma RecordLayout(e: Emitted)
    ensures var b := Encode(e);
            match e.rec
            case Malloc(ptr, size) => b[0] == 0 && b[1..5] == Le32(ptr) && b[5..9] == Le32(size)
            case Realloc(src, dst, size) =>
              b[0] == 1 && b[1..5] == Le32(src) && b[5..9] == Le32(dst) && b[9..13] == Le32(size)
            case Free(ptr) => b[0] == 2 && b[1..5] == Le32(ptr)
  {
    var b, r := Encode(e), e.rec;
    assert b[1..] == Fields(r) + e.junk[|Fields(r)|..];
    assert b[1..5] == b[1..][0..4] && b[5..9] == b[1..][4..8] && b[9..13] == b[1..][8..12];
  }

  lemma WordLayout(b0: byte, b1: byte, b2: byte, b3: byte)
    ensures var w: int := b0 as int + 0x100 * b1 as int + 0x1_0000 * b2 as int + 0x100_0000 * b3 as int;
            0 <= w < 0x1_0000_0000 && Le32(w) == [b0, b1, b2, b3]
  {
    BytesRoundTrip([b0, b1, b2, b3]);
  }

  /** A decoded record, or one whose tag is none of the three. */
  datatype Slot = Known(rec: Record) | BadTag

  function Decode(b: seq<byte>): Slot
    requires |b| == 13
  {
    var w1, w2, w3 := UnLe32(b[1..5]), UnLe32(b[5..9]), UnLe32(b[9..13]);
    match b[0]
    case 0 => Known(Malloc(w1, w2))
    case 1 => Known(Realloc(w1, w2, w3))
    case 2 => Known(Free(w1))
    case _ => BadTag
  }

  /** Decoding forgets the junk and nothing else. */
  lemma RecordRoundTrip(e: Emitted)
    ensures Decode(Encode(e)) == Known(e.rec)
  {
    var b, r := Encode(e), e.rec;
    var fields := b[1..];
    assert fields == Fields(r) + e.junk[|Fields(r)|..];
    assert b[1..5] == fields[..4];
    match r
    case Malloc(ptr, size) =>
      assert b[1..5] == Le32(ptr) && b[5..9] == Le32(size);
      WordRoundTrip(ptr);
      WordRoundTrip(size);
    case Realloc(src, dst, size) =>
      assert b[1..5] == Le32(src) && b[5..9] == Le32(dst) && b[9..13] == Le32(size);
      WordRoundTrip(src);
      WordRoundTrip(dst);
      WordRoundTrip(size);
    case Free(ptr) =>
      assert b[1..5] == Le32(ptr);
      WordRoundTrip(ptr);
  }

  /** Every 13 bytes that decode are the encoding of what they decode to. */
  lemma RecordIsEncoding(b: seq<byte>)
    requires |b| == 13 && Decode(b).Known?
    ensures Encode(Emitted(Decode(b).rec, b[1..])) == b
  {
    BytesRoundTrip(b[1..5]);
    BytesRoundTrip(b[5..9]);
    BytesRoundTrip(b[9..13]);
    assert b == [b[0]] + b[1..5] + b[5..9] + b[9..13];
  }

  // ---------- a trace

  function EncodeAll(es: seq<Emitted>): seq<byte> {
    if es == [] then [] else Encode(es[0]) + EncodeAll(es[1..])
  }

  function Records(es: seq<Emitted>): (rs: seq<Record>)
    ensures |rs| == |es| && forall k :: 0 <= k < |es| ==> rs[k] == es[k].rec
  {
    seq(|es|, k requires 0 <= k < |es| => es[k].rec)
  }

  function Slots(rs: seq<Record>): (ss: seq<Slot>)
    ensures |ss| == |rs| && forall k :: 0 <= k < |rs| ==> ss[k] == Known(rs[k])
  {
    seq(|rs|, k requires 0 <= k < |rs| => Known(rs[k]))
  }

  /** The slots at offsets 0, 13, 26, ...; `None` when the last one is cut short. */
  function DecodeAll(data: seq<byte>): Option<seq<Slot>> {
    if data == [] then Some([])
    else if |data| < 13 then None
    else
      match DecodeAll(data[13..])
      case None => None
      case Some(slots) => Some([Decode(data[..13])] + slots)
  }

  lemma {:induction false} EncodeAllLength(es: seq<Emitted>)
    ensures |EncodeAll(es)| == 13 * |es|
  {
    if es != [] {
      EncodeAllLength(es[1..]);
    }
  }

  /** Record `k` stands at offset 13 * k. */
  lemma {:induction false} EncodeAllAt(es: seq<Emitted>, k: nat, at: nat)
    requires k < |es| && at == 13 * k
    ensures at + 13 <= |EncodeAll(es)| && EncodeAll(es)[at..at + 13] == Encode(es[k])
  {
    EncodeAllLength(es);
    var head, tail := Encode(es[0]), EncodeAll(es[1..]);
    if k > 0 {
      EncodeAllAt(es[1..], k - 1, at - 13);
      Behind(head, tail, at - 13, at);
    }
  }

  lemma Behind(head: seq<byte>, tail: seq<byte>, from: nat, to: nat)
    requires from <= to <= |tail|
    ensures (head + tail)[|head| + from..|head| + to] == tail[from..to]
  {
  }

  lemma {:induction false} EncodeAllAppend(a: seq<Emitted>, b: seq<Emitted>)
    ensures EncodeAll(a + b) == EncodeAll(a) + EncodeAll(b)
  {
    if a == [] {
      assert a + b == b;
    } else {
      assert (a + b)[1..] == a[1..] + b;
      EncodeAllAppend(a[1..], b);
      Assoc(Encode(a[0]), EncodeAll(a[1..]), EncodeAll(b));
    }
  }

  /** Decoding at stride 13 gives back the records, whatever the unused union bytes hold. */
  lemma {:induction false} TraceRoundTrip(es: seq<Emitted>)
    ensures DecodeAll(EncodeAll(es)) == Some(Slots(Records(es)))
  {
    if es != [] {
      var head, tail := Encode(es[0]), EncodeAll(es[1..]);
      assert (head + tail)[..13] == head && (head + tail)[13..] == tail;
      RecordRoundTrip(es[0]);
      TraceRoundTrip(es[1..]);
      assert [Known(es[0].rec)] + Slots(Records(es[1..])) == Slots(Records(es));
    }
  }

  /** A payload decodes to known records exactly when it is the encoding of some run. */
  lemma {:induction false} DecodesIffEncoded(data: seq<byte>) returns (es: seq<Emitted>)
    ensures DecodeAll(data).None? <==> |data| % 13 != 0
    ensures DecodeAll(data).Some? && BadTag !in DecodeAll(data).value
            ==> data == EncodeAll(es) && DecodeAll(data) == Some(Slots(Records(es)))
  {
    es := [];
    if |data| >= 13 {
      var head, tail := data[..13], data[13..];
      var rest := DecodesIffEncoded(tail);
      assert |data| == 13 + |tail|;
      if DecodeAll(tail).Some? && BadTag !in DecodeAll(data).value {
        assert Decode(head) == DecodeAll(data).value[0];
        assert forall s :: s in DecodeAll(tail).value ==> s in DecodeAll(data).value;
        es := [Emitted(Decode(head).rec, head[1..])] + rest;
        RecordIsEncoding(head);
        assert es[1..] == rest;
        TraceRoundTrip(es);
        assert data == head + tail;
      }
    }
  }

  // ---------- when a record can forge the end marker

  /** An end marker behind the tag. */
  predicate SpellsEnd(block: seq<byte>) {
    At(block, 1, END) || At(block, 2, END)
  }

  predicate Forged(e: Emitted) {
    SpellsEnd(Encode(e))
  }

  /** The pointer directly behind the tag. */
  function FirstPointer(r: Record): word {
    match r
    case Malloc(ptr, _) => ptr
    case Realloc(src, _, _) => src
    case Free(ptr) => ptr
  }

  /** The device's RAM, 0x20000000 and 512 KiB. */
  predicate InRam(p: word) {
    0x2000_0000 <= p < 0x2008_0000
  }

  predicate NullOrRam(p: word) {
    p == 0 || InRam(p)
  }

  predicate OnRam(es: seq<Emitted>) {
    forall k :: 0 <= k < |es| ==> NullOrRam(FirstPointer(es[k].rec))
  }

  predicate NoneForged(es: seq<Emitted>) {
    forall k :: 0 <= k < |es| ==> !Forged(es[k])
  }

  lemma RamRunsDoNotForge(es: seq<Emitted>)
    requires OnRam(es)
    ensures NoneForged(es)
  {
    forall k | 0 <= k < |es| ensures !Forged(es[k]) {
      RamPointersDoNotForge(es[k]);
    }
  }

  /** No address in RAM, and no null pointer, can spell the end marker. */
  lemma RamPointersDoNotForge(e: Emitted)
    requires NullOrRam(FirstPointer(e.rec))
    ensures !Forged(e)
  {
    var b, p := Encode(e), FirstPointer(e.rec);
    assert b[4] == Le32(p)[3];
    assert b[4] == 0 || b[4] == 0x20;
    if At(b, 1, END) {
      AtByte(b, 1, END, 3);
    }
    if At(b, 2, END) {
      AtByte(b, 2, END, 2);
    }
  }

  lemma EncodeAllTagged(es: seq<Emitted>)
    ensures Tagged(EncodeAll(es))
  {
    EncodeAllLength(es);
    var s := EncodeAll(es);
    forall i | 0 <= i < |s| && i % 13 == 0 ensures Foreign(s[i]) {
      EncodeAllAt(es, i / 13, i);
      assert s[i] == s[i..i + 13][0];
      TagsAreForeign(s[i]);
    }
  }

  /** A forged marker is seen in the payload exactly when it is in a 13-byte block. */
  lemma ForgedInBlocks(payload: seq<byte>, blocks: seq<seq<byte>>, k: nat)
    requires |payload| == 13 * |blocks|
    requires k < |blocks| ==> payload[13 * k..13 * k + 13] == blocks[k]
    ensures ForgedAt(payload, k) <==> k < |blocks| && SpellsEnd(blocks[k])
  {
    if k < |blocks| {
      AtSlice(payload, 13 * k, 13 * k + 13, END, 1);
      AtSlice(payload, 13 * k, 13 * k + 13, END, 2);
    }
  }

  function Blocks(es: seq<Emitted>): (bs: seq<seq<byte>>)
    ensures |bs| == |es| && forall k :: 0 <= k < |es| ==> bs[k] == Encode(es[k])
  {
    seq(|es|, k requires 0 <= k < |es| => Encode(es[k]))
  }

  lemma ForgedInPayload(es: seq<Emitted>, payload: seq<byte>, blocks: seq<seq<byte>>)
    requires payload == EncodeAll(es) && blocks == Blocks(es)
    ensures forall k: nat :: ForgedAt(payload, k) <==> k < |blocks| && SpellsEnd(blocks[k])
  {
    EncodeAllLength(es);
    forall k: nat ensures ForgedAt(payload, k) <==> k < |blocks| && SpellsEnd(blocks[k]) {
      if k < |es| {
        EncodeAllAt(es, k, 13 * k);
      }
      ForgedInBlocks(payload, blocks, k);
    }
  }

  /** The host gets exactly the encoded run, if and only if no record forges an end marker. */
  lemma FramingExact(pre: seq<byte>, es: seq<Emitted>, post: seq<byte>)
    requires !HasTrace(pre, START, END)
    ensures HostExtract(Carrying(pre, EncodeAll(es), post)) == Extracted(EncodeAll(es), post)
            <==> NoneForged(es)
  {
    EncodeAllTagged(es);
    ForgedRecords(es);
    ExtractIffNoForgedEnd(pre, EncodeAll(es), post);
  }

  /** A forged marker in the payload is a forged marker in a record. */
  lemma ForgedRecords(es: seq<Emitted>)
    ensures NoneForged(es) <==> forall k: nat :: !ForgedAt(EncodeAll(es), k)
  {
    var payload, blocks := EncodeAll(es), Blocks(es);
    ForgedInPayload(es, payload, blocks);
    forall k | 0 <= k < |es| ensures Forged(es[k]) <==> SpellsEnd(blocks[k]) {
    }
  }

  /** A record that does forge it: the words after its tag spell "TRACE_DONE\n". */
  lemma ForgedRecordExists(junk: junk)
    ensures Forged(Emitted(Realloc(0x4341_5254, 0x4F44_5F45, 0x000A_454E), junk))
  {
    var e := Emitted(Realloc(0x4341_5254, 0x4F44_5F45, 0x000A_454E), junk);
    var b := Encode(e);
    assert b[1..] == Le32(0x4341_5254) + Le32(0x4F44_5F45) + Le32(0x000A_454E);
    assert Le32(0x4341_5254) == [84, 82, 65, 67];
    assert Le32(0x4F44_5F45) == [69, 95, 68, 79];
    assert Le32(0x000A_454E) == [78, 69, 10, 0];
    assert forall j :: 0 <= j < |END| ==> b[1..][j] == END[j];
    AtBytes(b[1..], 0, END);
    AtTail(b, 1, END, 0);
  }
}
