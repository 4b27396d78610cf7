/** `get_heap`: lines, regular expression, records, replay; and the end-to-end claim. */
module GetHeap {
  import opened Bytes
  import opened Framing
  import opened HeapRecord
  import opened Replay
  import opened Allocator
  import opened Itm

  datatype Outcome = Waits | Fails(error: Error) | NoGroup | Peak(bytes: int)

  function HeapOf(stream: seq<byte>): Outcome {
    match HostExtract(stream)
    case Waiting => Waits
    case NoMatch => NoGroup
    case Extracted(data, _) => HeapOfData(data)
  }

  function HeapOfData(data: seq<byte>): Outcome {
    match DecodeAll(data)
    case None => Fails(CutShort)
    case Some(slots) =>
      match Run(INITIAL, slots)
      case Raised(e) => Fails(e)
      case Ok(st) => Peak(st.peak)
  }

  /** The slots from offset `i` on, behind those already decoded. */
  function Resume(packets: seq<Slot>, data: seq<byte>): Option<seq<Slot>> {
    match DecodeAll(data)
    case None => None
    case Some(rest) => Some(packets + rest)
  }

  lemma ResumeFromStart(data: seq<byte>)
    ensures Resume([], data[0..]) == DecodeAll(data)
  {
    assert data[0..] == data;
    assert DecodeAll(data).Some? ==> [] + DecodeAll(data).value == DecodeAll(data).value;
  }

  lemma ResumeStep(packets: seq<Slot>, data: seq<byte>)
    requires |data| >= 13
    ensures Resume(packets, data) == Resume(packets + [HeapRecord.Decode(data[..13])], data[13..])
  {
    var slot := HeapRecord.Decode(data[..13]);
    match DecodeAll(data[13..])
    case None =>
    case Some(rest) => Assoc(packets, [slot], rest);
  }

  /** The record loop with stride 13; `None` stands for the exception on a record that is cut short. */
  method DecodePackets(data: seq<byte>) returns (slots: Option<seq<Slot>>)
    ensures slots == DecodeAll(data)
  {
    var packets := [];
    var i := 0;
    ResumeFromStart(data);
    while i < |data|
      invariant 0 <= i <= |data|
      invariant Resume(packets, data[i..]) == DecodeAll(data)
    {
      assert data[i..] != [];
      if |data| - i < 13 {
        return None;
      }
      ResumeStep(packets, data[i..]);
      assert data[i..][..13] == data[i..i + 13] && data[i..][13..] == data[i + 13..];
      packets := packets + [HeapRecord.Decode(data[i..i + 13])];
      i := i + 13;
    }
    assert data[i..] == [] && packets + [] == packets;
    slots := Some(packets);
  }

  /** The first loop keeps only the line that ends with the marker. */
  method LineWith(reader: SwoReader, marker: seq<byte>) returns (line: Option<seq<byte>>)
    modifies reader
    ensures match ScanLines(old(reader.Stream()), marker)
            case Blocked => line == None
            case Found(_, last, rest) => line == Some(last) && reader.Stream() == rest
  {
    ghost var s := reader.Stream();
    while true
      invariant ScanLines(s, marker).Blocked? <==> ScanLines(reader.Stream(), marker).Blocked?
      invariant ScanLines(s, marker).Found? ==>
                  && ScanLines(s, marker).last == ScanLines(reader.Stream(), marker).last
                  && ScanLines(s, marker).rest == ScanLines(reader.Stream(), marker).rest
      decreases |reader.Stream()|
    {
      line := reader.ReadLine();
      if line == None || EndsWith(line.value, marker) {
        return;
      }
    }
  }

  lemma PrependPrepend(a: seq<byte>, b: seq<byte>, scan: Scan)
    ensures Prepend(a, Prepend(b, scan)) == Prepend(a + b, scan)
  {
    if scan.Found? {
      Assoc(a, b, scan.before);
    }
  }

  /** The second loop collects every line, behind what the first has kept. */
  method LinesThrough(reader: SwoReader, ready: seq<byte>, marker: seq<byte>) returns (total: Option<seq<byte>>)
    modifies reader
    ensures match ScanLines(old(reader.Stream()), marker)
            case Blocked => total == None
            case Found(before, last, rest) => total == Some(ready + (before + last)) && reader.Stream() == rest
  {
    ghost var scan := ScanLines(reader.Stream(), marker);
    var lines := [];
    while true
      invariant scan == Prepend(lines, ScanLines(reader.Stream(), marker))
      decreases |reader.Stream()|
    {
      ghost var s := reader.Stream();
      var line := reader.ReadLine();
      if line == None {
        return None;
      }
      if EndsWith(line.value, marker) {
        assert ScanLines(s, marker) == Found([], line.value, reader.Stream());
        assert lines + [] == lines;
        return Some(ready + (lines + line.value));
      }
      PrependPrepend(lines, line.value, ScanLines(reader.Stream(), marker));
      lines := lines + line.value;
    }
  }

  method GetHeap(reader: SwoReader) returns (outcome: Outcome)
    modifies reader
    ensures outcome == HeapOf(old(reader.Stream()))
    ensures HostExtract(old(reader.Stream())).Extracted? ==> reader.Stream() == HostExtract(old(reader.Stream())).rest
  {
    var ready := LineWith(reader, START);
    if ready == None {
      return Waits;
    }
    var total := LinesThrough(reader, ready.value, END);
    if total == None {
      return Waits;
    }
    var data := RegexData(total.value, START, END);
    if data == None {
      return NoGroup;
    }
    outcome := PeakOf(data.value);
  }

  /** The rest of `get_heap`: records and replay. */
  method PeakOf(data: seq<byte>) returns (outcome: Outcome)
    ensures outcome == HeapOfData(data)
  {
    var packets := DecodePackets(data);
    if packets == None {
      return Fails(CutShort);
    }
    var result := ReplayAll(packets.value);
    match result
    case Raised(e) => outcome := Fails(e);
    case Ok(st) => outcome := Peak(st.peak);
  }

  // ---------- every outcome, on any stream and any payload

  /** `get_heap` waits for ever exactly while there is no complete trace, and its expression always matches. */
  lemma WaitsIff(stream: seq<byte>)
    ensures HeapOf(stream) == Waits <==> !HasTrace(stream, START, END)
    ensures HeapOf(stream) != NoGroup
  {
    MarkersAreLines();
    ExtractDecidesTrace(stream, START, END);
  }

  /** Cut short, whatever the records say, exactly when the length is no multiple of 13. */
  lemma CutShortIff(data: seq<byte>)
    ensures HeapOfData(data) == Fails(CutShort) <==> |data| % 13 != 0
    ensures HeapOfData(data) == Fails(CutShort) <==> DecodeAll(data) == None
  {
    var _ := DecodesIffEncoded(data);
    if DecodeAll(data).Some? {
      RaisesIff(DecodeAll(data).value);
      NeverCutShort(DecodeAll(data).value);
    }
  }

  lemma NeverCutShort(slots: seq<Slot>)
    ensures !FailsWith(slots, CutShort)
  {
  }

  /** A whole number of records: the first failure of the trace, or else the largest total on the way. */
  lemma WholeRecords(data: seq<byte>, slots: seq<Slot>)
    requires DecodeAll(data) == Some(slots)
    ensures forall e :: HeapOfData(data) == Fails(e) <==> FailsWith(slots, e)
    ensures HeapOfData(data).Peak? <==> Run(INITIAL, slots).Ok?
    ensures HeapOfData(data).Peak? ==> IsPeak(INITIAL, slots, HeapOfData(data).bytes)
  {
    RaisesIff(slots);
    if Run(INITIAL, slots).Ok? {
      PeakIsMaximum(slots);
    }
  }

  /** Any tagged payload without a forged marker, whole records or not: its outcome is that of its bytes. */
  lemma PayloadOutcome(pre: seq<byte>, payload: seq<byte>, post: seq<byte>)
    requires Tagged(payload) && !HasTrace(pre, START, END) && forall k: nat :: !ForgedAt(payload, k)
    ensures HeapOf(Carrying(pre, payload, post)) == HeapOfData(payload)
  {
    ExtractIffNoForgedEnd(pre, payload, post);
    HeapOfExtracted(Carrying(pre, payload, post), payload);
  }

  /** A forged marker leaves one or two bytes of a record, so it always raises and never gives a wrong peak. */
  lemma ForgedPayloadCutShort(pre: seq<byte>, payload: seq<byte>, post: seq<byte>, k: nat)
    requires Tagged(payload) && !HasTrace(pre, START, END) && ForgedAt(payload, k)
    ensures HeapOf(Carrying(pre, payload, post)) == Fails(CutShort)
  {
    var f := ExtractPayload(pre, payload, post);
    GenuineOrForged(payload, f);
    HeapOfExtracted(Carrying(pre, payload, post), payload[..f]);
    CutShortIff(payload[..f]);
  }

  /** Any encoded run, legal or not: it is cut short if and only if a record forges the end marker. */
  lemma RunOutcome(pre: seq<byte>, es: seq<Emitted>, post: seq<byte>)
    requires !HasTrace(pre, START, END)
    ensures HeapOf(Carrying(pre, EncodeAll(es), post)) == Fails(CutShort) <==> !NoneForged(es)
    ensures NoneForged(es) ==> HeapOf(Carrying(pre, EncodeAll(es), post)) == HeapOfData(EncodeAll(es))
    ensures DecodeAll(EncodeAll(es)) == Some(Slots(Records(es)))
  {
    EncodeAllTagged(es);
    ForgedRecords(es);
    TraceRoundTrip(es);
    CutShortIff(EncodeAll(es));
    if k: nat :| ForgedAt(EncodeAll(es), k) {
      ForgedPayloadCutShort(pre, EncodeAll(es), post, k);
    } else {
      PayloadOutcome(pre, EncodeAll(es), post);
    }
  }

  /** The same run with its last bytes lost is cut short, wherever it ends inside a record. */
  lemma TruncatedRun(pre: seq<byte>, es: seq<Emitted>, n: nat, post: seq<byte>)
    requires !HasTrace(pre, START, END) && NoneForged(es)
    requires n <= |EncodeAll(es)| && n % 13 != 0
    ensures HeapOf(Carrying(pre, EncodeAll(es)[..n], post)) == Fails(CutShort)
  {
    var payload := EncodeAll(es);
    EncodeAllTagged(es);
    ForgedRecords(es);
    assert payload[0..n] == payload[..n];
    forall k: nat ensures !ForgedAt(payload[..n], k) {
      assert !ForgedAt(payload, k);
      AtSlice(payload, 0, n, END, 13 * k + 1);
      AtSlice(payload, 0, n, END, 13 * k + 2);
    }
    PayloadOutcome(pre, payload[..n], post);
    CutShortIff(payload[..n]);
  }

  lemma HeapOfExtracted(stream: seq<byte>, data: seq<byte>)
    requires HostExtract(stream).Extracted? && HostExtract(stream).data == data
    ensures HeapOf(stream) == HeapOfData(data)
  {
  }

  // ---------- end to end

  /** What the host makes of the records of a legal run. */
  lemma DataPeak(es: seq<Emitted>)
    requires LegalRun(map[], Records(es))
    ensures HeapOfData(EncodeAll(es)) == Peak(HighWater(map[], Records(es)))
  {
    TraceRoundTrip(es);
    PeakIsHighWater(Records(es));
  }

  /** What the host prints for one run, at the level of the data stream. */
  lemma StreamPeak(pre: seq<byte>, es: seq<Emitted>, post: seq<byte>)
    requires !HasTrace(pre, START, END)
    requires LegalRun(map[], Records(es))
    requires NoneForged(es)
    ensures HeapOf(Carrying(pre, EncodeAll(es), post)) == Peak(HighWater(map[], Records(es)))
  {
    FramingExact(pre, es, post);
    HeapOfExtracted(Carrying(pre, EncodeAll(es), post), EncodeAll(es));
    DataPeak(es);
  }

  /**
   From the allocator to the printed number: any legal run on RAM addresses, any junk in the records,
   anything but a complete trace in front, anything behind, and any loss of packet headers that the decoder
   can repair.
   */
  lemma EndToEnd(pre: seq<byte>, es: seq<Emitted>, post: seq<byte>, lost: seq<bool>, more: seq<byte>)
    requires !HasTrace(pre, START, END)
    requires LegalRun(map[], Records(es))
    requires OnRam(es)
    requires var data := Carrying(pre, EncodeAll(es), post); |lost| == |data| && Recoverable(data, lost)
    ensures HeapOf(Itm.Decode(Send(Carrying(pre, EncodeAll(es), post), lost) + more))
            == Peak(HighWater(map[], Records(es)))
  {
    var data, tail := Carrying(pre, EncodeAll(es), post), Itm.Decode(more);
    DecodeRecovers(data, lost, more);
    CarryingAppend(pre, EncodeAll(es), post, tail);
    RamRunsDoNotForge(es);
    StreamPeak(pre, es, post + tail);
  }

  lemma CarryingAppend(pre: seq<byte>, payload: seq<byte>, post: seq<byte>, tail: seq<byte>)
    ensures Carrying(pre, payload, post) + tail == Carrying(pre, payload, post + tail)
  {
    Assoc(payload + END, post, tail);
    Assoc(pre + START, payload + END + post, tail);
  }

  // ---------- one run after another

  /** A run, and what the board sends in front of its start marker. */
  datatype Session = Session(pre: seq<byte>, es: seq<Emitted>)

  function Streamed(sessions: seq<Session>, post: seq<byte>): seq<byte> {
    if sessions == [] then post
    else Carrying(sessions[0].pre, EncodeAll(sessions[0].es), Streamed(sessions[1..], post))
  }

  /** The results of `n` calls of `get_heap` on one stream; a call that waits for ever is the last. */
  function Outcomes(stream: seq<byte>, n: nat): seq<Outcome>
    decreases n
  {
    if n == 0 then []
    else if HostExtract(stream).Extracted? then [HeapOf(stream)] + Outcomes(HostExtract(stream).rest, n - 1)
    else [HeapOf(stream)]
  }

  lemma OutcomesStep(stream: seq<byte>, n: nat)
    requires n > 0
    ensures HostExtract(stream).Extracted? <==> HeapOf(stream) != Waits && HeapOf(stream) != NoGroup
    ensures Outcomes(stream, n)
            == [HeapOf(stream)]
               + if HostExtract(stream).Extracted? then Outcomes(HostExtract(stream).rest, n - 1) else []
  {
  }

  /** Successive calls on one reader, one per benchmark. */
  method GetHeaps(reader: SwoReader, n: nat) returns (outcomes: seq<Outcome>)
    modifies reader
    ensures outcomes == Outcomes(old(reader.Stream()), n)
  {
    ghost var stream := reader.Stream();
    outcomes := [];
    for i := 0 to n
      invariant Outcomes(stream, n) == outcomes + Outcomes(reader.Stream(), n - i)
    {
      OutcomesStep(reader.Stream(), n - i);
      var outcome := GetHeap(reader);
      ghost var later := if outcome == Waits || outcome == NoGroup then [] else Outcomes(reader.Stream(), n - i - 1);
      Assoc(outcomes, [outcome], later);
      outcomes := outcomes + [outcome];
      if outcome == Waits || outcome == NoGroup {
        return;
      }
    }
  }

  ghost predicate GoodSession(session: Session) {
    !HasTrace(session.pre, START, END) && LegalRun(map[], Records(session.es)) && OnRam(session.es)
  }

  /** The high-water mark of each run. */
  ghost function PeaksOf(sessions: seq<Session>): (ps: seq<Outcome>)
    ensures |ps| == |sessions|
    ensures forall i :: 0 <= i < |sessions| ==> ps[i] == Peak(HighWater(map[], Records(sessions[i].es)))
  {
    if sessions == [] then []
    else [Peak(HighWater(map[], Records(sessions[0].es)))] + PeaksOf(sessions[1..])
  }

  /** One call, and the stream it leaves to the next. */
  lemma OneSession(session: Session, post: seq<byte>)
    requires GoodSession(session)
    ensures var s := Carrying(session.pre, EncodeAll(session.es), post);
            && HostExtract(s) == Extracted(EncodeAll(session.es), post)
            && HeapOf(s) == Peak(HighWater(map[], Records(session.es)))
  {
    RamRunsDoNotForge(session.es);
    FramingExact(session.pre, session.es, post);
    StreamPeak(session.pre, session.es, post);
  }

  /** Runs back to back on one stream: the n-th call returns the n-th high-water mark. */
  lemma {:induction false} BackToBack(sessions: seq<Session>, post: seq<byte>)
    requires forall i :: 0 <= i < |sessions| ==> GoodSession(sessions[i])
    ensures Outcomes(Streamed(sessions, post), |sessions|) == PeaksOf(sessions)
  {
    if sessions != [] {
      assert GoodSession(sessions[0]);
      OneSession(sessions[0], Streamed(sessions[1..], post));
      BackToBack(sessions[1..], post);
    }
  }

  lemma {:induction false} StreamedAppend(sessions: seq<Session>, post: seq<byte>, tail: seq<byte>)
    ensures Streamed(sessions, post) + tail == Streamed(sessions, post + tail)
  {
    if sessions != [] {
      StreamedAppend(sessions[1..], post, tail);
      CarryingAppend(sessions[0].pre, EncodeAll(sessions[0].es), Streamed(sessions[1..], post), tail);
    }
  }

  /** The same from the wire, under any loss of headers that the decoder can repair. */
  lemma BackToBackOnTheWire(sessions: seq<Session>, post: seq<byte>, lost: seq<bool>, more: seq<byte>)
    requires forall i :: 0 <= i < |sessions| ==> GoodSession(sessions[i])
    requires |lost| == |Streamed(sessions, post)| && Recoverable(Streamed(sessions, post), lost)
    ensures Outcomes(Itm.Decode(Send(Streamed(sessions, post), lost) + more), |sessions|) == PeaksOf(sessions)
  {
    DecodeRecovers(Streamed(sessions, post), lost, more);
    StreamedAppend(sessions, post, Itm.Decode(more));
    BackToBack(sessions, post + Itm.Decode(more));
  }

  /** A run that traced nothing, left unread, is what the next call reports, whatever follows. */
  lemma UnreadEmptyTraceWins(more: seq<byte>)
    ensures HeapOf(START + (END + more)) == Peak(0)
  {
    assert [] + START + ([] + END + more) == START + (END + more);
    assert EncodeAll([]) == [] && Records([]) == [];
    OneSession(Session([], []), more);
  }
}
