/**
 How `get_heap` cuts the trace out of the byte stream: two line-reading loops, then one regular
 expression.  Nothing in the stream is escaped, so what is proved here is when that is safe.
 */
module Framing {
  import opened Bytes

  // "trace ready!\n" and "TRACE_DONE\n"
  const START: seq<byte> := [116, 114, 97, 99, 101, 32, 114, 101, 97, 100, 121, 33, 10]
  const END: seq<byte> := [84, 82, 65, 67, 69, 95, 68, 79, 78, 69, 10]

  /** The only newline of `m` is its last byte. */
  predicate LineMarker(m: seq<byte>) {
    |m| > 0 && forall k :: 0 <= k < |m| ==> (m[k] == NEWLINE <==> k == |m| - 1)
  }

  predicate EndsWith(s: seq<byte>, m: seq<byte>) {
    At(s, |s| - |m|, m)
  }

  // ---------- reading lines

  /** The index of the first newline, or the length when there is none. */
  function FirstNewline(s: seq<byte>): (n: nat)
    ensures n <= |s|
    ensures n < |s| ==> s[n] == NEWLINE
    ensures forall k :: 0 <= k < n ==> s[k] != NEWLINE
  {
    if s == [] || s[0] == NEWLINE then 0 else 1 + FirstNewline(s[1..])
  }

  /** What a line-reading loop has taken when it stops: earlier lines, the matching line, and what is left. */
  datatype Scan = Blocked | Found(before: seq<byte>, last: seq<byte>, rest: seq<byte>)

  function Prepend(line: seq<byte>, scan: Scan): Scan {
    match scan
    case Blocked => Blocked
    case Found(b, l, r) => Found(line + b, l, r)
  }

  /** Read whole lines until one ends with `m`; Blocked when the stream runs dry first. */
  function ScanLines(s: seq<byte>, m: seq<byte>): Scan
    decreases |s|
  {
    var n := FirstNewline(s);
    if n == |s| then Blocked
    else if EndsWith(s[..n + 1], m) then Found([], s[..n + 1], s[n + 1..])
    else Prepend(s[..n + 1], ScanLines(s[n + 1..], m))
  }

  /** A line marker ends at the first newline or starts after it. */
  lemma MarkerVersusLine(s: seq<byte>, m: seq<byte>, j: int)
    requires LineMarker(m) && At(s, j, m)
    ensures var n := FirstNewline(s); n < |s| && (j + |m| == n + 1 || n < j)
  {
    AtByte(s, j, m, |m| - 1);
    var n := FirstNewline(s);
    if j <= n {
      AtByte(s, j, m, n - j);
    }
  }

  /** What the reading loop promises, stated without it: the text up to the first occurrence of the marker. */
  ghost predicate FirstCut(s: seq<byte>, m: seq<byte>, scan: Scan) {
    match scan
    case Blocked => !Occurs(s, m)
    case Found(b, l, r) =>
      && s == b + l + r
      && EndsWith(l, m)
      && (forall k :: 0 <= k < |l| - 1 ==> l[k] != NEWLINE)
      && (forall j :: At(s, j, m) ==> |b| + |l| - |m| <= j)
  }

  lemma FirstCutPrepend(line: seq<byte>, tail: seq<byte>, m: seq<byte>, scan: Scan)
    requires FirstCut(tail, m, scan)
    requires forall j :: At(line + tail, j, m) ==> |line| <= j
    ensures FirstCut(line + tail, m, Prepend(line, scan))
  {
    var s := line + tail;
    assert s[|line|..|s|] == tail;
    forall j ensures At(tail, j - |line|, m) <==> |line| <= j && At(s, j, m) {
      AtSlice(s, |line|, |s|, m, j - |line|);
    }
    if i :| At(tail, i, m) {
      assert At(s, |line| + i, m);
    }
    if scan.Found? {
      var Found(b, l, r) := scan;
      assert line + (b + l + r) == (line + b) + l + r;
    }
  }

  /** Reading line by line finds the first occurrence of the marker anywhere in the stream. */
  lemma {:induction false} ScanFindsFirst(s: seq<byte>, m: seq<byte>)
    requires LineMarker(m)
    ensures FirstCut(s, m, ScanLines(s, m))
    decreases |s|
  {
    forall j | At(s, j, m)
      ensures FirstNewline(s) < |s| && (j + |m| == FirstNewline(s) + 1 || FirstNewline(s) < j)
    {
      MarkerVersusLine(s, m, j);
    }
    var n := FirstNewline(s);
    if n < |s| {
      var line, tail := s[..n + 1], s[n + 1..];
      assert s == line + tail;
      if !EndsWith(line, m) {
        ScanFindsFirst(tail, m);
        AtSlice(s, 0, n + 1, m, n + 1 - |m|);
        FirstCutPrepend(line, tail, m, ScanLines(tail, m));
      }
    }
  }

  // ---------- the regular expression  .*<start>(?P<data>.*?)<stop>

  /** The start marker the greedy `.*` settles on: the last one before `k` that an end marker follows. */
  function GreedyStart(s: seq<byte>, start: seq<byte>, stop: seq<byte>, k: nat): (i: int)
    ensures i == -1 || (0 <= i < k && At(s, i, start) && FirstAt(s, stop, i + |start|) != -1)
    ensures forall j :: i < j < k && At(s, j, start) ==> FirstAt(s, stop, j + |start|) == -1
  {
    if k == 0 then -1
    else if At(s, k - 1, start) && FirstAt(s, stop, k - 1 + |start|) != -1 then k - 1
    else GreedyStart(s, start, stop, k - 1)
  }

  function RegexData(s: seq<byte>, start: seq<byte>, stop: seq<byte>): Option<seq<byte>> {
    var i := GreedyStart(s, start, stop, |s| + 1);
    if i == -1 then None
    else Some(s[i + |start|..FirstAt(s, stop, i + |start|)])
  }

  // ---------- the whole extraction

  datatype Extraction = Waiting | NoMatch | Extracted(data: seq<byte>, rest: seq<byte>)

  function Extract(s: seq<byte>, start: seq<byte>, stop: seq<byte>): Extraction {
    match ScanLines(s, start)
    case Blocked => Waiting
    case Found(_, ready, afterReady) =>
      match ScanLines(afterReady, stop)
      case Blocked => Waiting
      case Found(lines, done, rest) =>
        match RegexData(ready + (lines + done), start, stop)
        case None => NoMatch
        case Some(data) => Extracted(data, rest)
  }

  /** A start marker and, behind it, an end marker. */
  ghost predicate HasTrace(s: seq<byte>, start: seq<byte>, stop: seq<byte>) {
    exists i, j :: At(s, i, start) && At(s, j, stop) && i + |start| <= j
  }

  /** The expression matches whatever the loops kept: a line ending in the start marker, lines, an end marker. */
  lemma RegexMatches(ready: seq<byte>, lines: seq<byte>, start: seq<byte>, stop: seq<byte>)
    requires EndsWith(ready, start) && EndsWith(lines, stop)
    ensures RegexData(ready + lines, start, stop).Some?
  {
    var t := ready + lines;
    assert t[..|ready|] == ready && t[|ready|..] == lines;
    AtSlice(t, 0, |ready|, start, |ready| - |start|);
    AtTail(t, |ready|, stop, |lines| - |stop|);
    assert At(t, |ready| - |start|, start);
    assert At(t, |t| - |stop|, stop);
  }

  /** Where a line-reading loop has stopped. */
  lemma CutPosition(s: seq<byte>, m: seq<byte>, cut: Scan)
    requires cut.Found? && FirstCut(s, m, cut)
    ensures var e := |cut.before| + |cut.last|;
            && |m| <= |cut.last| && e <= |s|
            && At(s, e - |m|, m)
            && cut.before + cut.last == s[..e] && cut.last == s[|cut.before|..e] && cut.rest == s[e..]
            && forall j :: At(s, j, m) ==> e - |m| <= j
  {
    var Found(b, l, r) := cut;
    assert l == s[|b|..|b| + |l|];
    AtSlice(s, |b|, |b| + |l|, m, |l| - |m|);
  }

  /** Once the first loop has stopped, the stream holds a complete trace exactly when an end marker is still to come. */
  lemma TraceIsEndAfterStart(s: seq<byte>, start: seq<byte>, stop: seq<byte>, cut: Scan)
    requires cut.Found? && FirstCut(s, start, cut)
    ensures HasTrace(s, start, stop) <==> Occurs(cut.rest, stop)
  {
    var p := |cut.before| + |cut.last|;
    CutPosition(s, start, cut);
    if j :| At(cut.rest, j, stop) {
      AtTail(s, p, stop, j);
      assert At(s, p - |start|, start) && At(s, p + j, stop);
    }
    if i, j :| At(s, i, start) && At(s, j, stop) && i + |start| <= j {
      AtTail(s, p, stop, j - p);
    }
  }

  /** The expression matches whenever both loops have stopped. */
  lemma LoopsFeedRegex(s: seq<byte>, start: seq<byte>, stop: seq<byte>, first: Scan, second: Scan)
    requires first.Found? && FirstCut(s, start, first)
    requires second.Found? && FirstCut(first.rest, stop, second)
    ensures RegexData(first.last + (second.before + second.last), start, stop).Some?
  {
    var lines := second.before + second.last;
    assert lines[|second.before|..] == second.last;
    AtTail(lines, |second.before|, stop, |second.last| - |stop|);
    RegexMatches(first.last, lines, start, stop);
  }

  /** The two reading loops stop, and then the expression matches, exactly when the stream holds a complete trace. */
  lemma ExtractDecidesTrace(s: seq<byte>, start: seq<byte>, stop: seq<byte>)
    requires LineMarker(start) && LineMarker(stop)
    ensures Extract(s, start, stop).Extracted? <==> HasTrace(s, start, stop)
    ensures Extract(s, start, stop).Waiting? <==> !HasTrace(s, start, stop)
  {
    ScanFindsFirst(s, start);
    var first := ScanLines(s, start);
    if first.Found? {
      TraceIsEndAfterStart(s, start, stop, first);
      ScanFindsFirst(first.rest, stop);
      var second := ScanLines(first.rest, stop);
      if second.Found? {
        CutPosition(first.rest, stop, second);
        LoopsFeedRegex(s, start, stop, first, second);
      }
    }
  }

  lemma AppendSlices(s: seq<byte>, more: seq<byte>, k: nat)
    requires k <= |s|
    ensures (s + more)[..k] == s[..k] && (s + more)[k..] == s[k..] + more
  {
  }

  /** What follows a stream in which the line loop has already found its marker changes nothing but the rest. */
  lemma {:induction false} ScanIsLazy(s: seq<byte>, more: seq<byte>, m: seq<byte>)
    requires ScanLines(s, m).Found?
    ensures ScanLines(s + more, m) == ScanLines(s, m).(rest := ScanLines(s, m).rest + more)
    decreases |s|
  {
    var n := FirstNewline(s);
    AppendSlices(s, more, n + 1);
    assert (s + more)[..n + 1] == s[..n + 1];
    assert (s + more)[n] == s[n];
    assert forall k :: 0 <= k < n ==> (s + more)[k] == s[k];
    assert FirstNewline(s + more) == n;
    if !EndsWith(s[..n + 1], m) {
      ScanIsLazy(s[n + 1..], more, m);
    }
  }

  /** A complete older trace in front hides everything behind it: that is what the host reports instead. */
  lemma StaleTraceWins(stale: seq<byte>, more: seq<byte>, start: seq<byte>, stop: seq<byte>)
    requires LineMarker(start) && LineMarker(stop)
    requires HasTrace(stale, start, stop)
    ensures var older := Extract(stale, start, stop);
            older.Extracted? && Extract(stale + more, start, stop) == older.(rest := older.rest + more)
  {
    ExtractDecidesTrace(stale, start, stop);
    ScanIsLazy(stale, more, start);
    ScanIsLazy(ScanLines(stale, start).rest, more, stop);
  }

  /** The match is the last start marker that an end marker follows, up to the first such end marker. */
  lemma RegexIs(t: seq<byte>, start: seq<byte>, stop: seq<byte>, i: nat, j: nat, data: seq<byte>)
    requires At(t, i, start) && At(t, j, stop) && i + |start| <= j
    requires forall k, e :: At(t, k, start) && At(t, e, stop) && i < k ==> e < k + |start|
    requires forall e :: At(t, e, stop) && i + |start| <= e ==> j <= e
    requires data == t[i + |start|..j]
    ensures RegexData(t, start, stop) == Some(data)
  {
    assert FirstAt(t, stop, i + |start|) == j;
    var g := GreedyStart(t, start, stop, |t| + 1);
    assert g >= i;
    assert At(t, FirstAt(t, stop, g + |start|), stop);
  }

  /** The regular expression on what the loops kept: the text from `q`, ending with the end marker at `f`. */
  lemma RegexFindsPayload(s: seq<byte>, start: seq<byte>, stop: seq<byte>, q: nat, i: nat, f: nat, t: seq<byte>)
    requires q <= i && i + |start| <= f && f + |stop| <= |s| && t == s[q..f + |stop|]
    requires At(s, i, start) && At(s, f, stop)
    requires forall j :: i < j && At(s, j, start) ==> f < j + |start|
    requires forall j :: i + |start| <= j && At(s, j, stop) ==> f <= j
    ensures RegexData(t, start, stop) == Some(s[i + |start|..f])
  {
    var hi := f + |stop|;
    AtSlice(s, q, hi, stop, f - q);
    AtSlice(s, q, hi, start, i - q);
    forall k, e | At(t, k, start) && At(t, e, stop) && i - q < k ensures e < k + |start| {
      AtSlice(s, q, hi, start, k);
    }
    forall e | At(t, e, stop) && i - q + |start| <= e ensures f - q <= e {
      AtSlice(s, q, hi, stop, e);
    }
    SliceOfSlice(s, q, hi, i + |start|, f);
    RegexIs(t, start, stop, i - q, f - q, s[i + |start|..f]);
  }

  /** The second loop stops right behind the end marker at `f`, so the loops have kept one slice of the stream. */
  lemma LoopsKeepSlice(s: seq<byte>, start: seq<byte>, stop: seq<byte>, f: nat, first: Scan, second: Scan)
    requires first.Found? && FirstCut(s, start, first)
    requires FirstCut(first.rest, stop, second)
    requires var p := |first.before| + |first.last|;
             p <= f && At(s, f, stop) && forall j :: p <= j && At(s, j, stop) ==> f <= j
    ensures second.Found? && |first.before| <= f
    ensures first.last + (second.before + second.last) == s[|first.before|..f + |stop|]
    ensures second.rest == s[f + |stop|..]
  {
    var p := |first.before| + |first.last|;
    CutPosition(s, start, first);
    SecondEnd(s, stop, p, f, second);
    CutPosition(s[p..], stop, second);
    JoinSlices(s, |first.before|, p, |second.before| + |second.last|);
  }

  lemma SecondEnd(s: seq<byte>, stop: seq<byte>, p: nat, f: nat, cut: Scan)
    requires p <= f && At(s, f, stop) && forall j :: p <= j && At(s, j, stop) ==> f <= j
    requires FirstCut(s[p..], stop, cut)
    ensures cut.Found? && |cut.before| + |cut.last| == f + |stop| - p
  {
    AtTail(s, p, stop, f - p);
    CutPosition(s[p..], stop, cut);
    AtTail(s, p, stop, |cut.before| + |cut.last| - |stop|);
  }

  lemma JoinSlices(s: seq<byte>, a: nat, p: nat, e: nat)
    requires a <= p && p + e <= |s|
    ensures s[a..p] + s[p..][..e] == s[a..p + e] && s[p..][e..] == s[p + e..]
  {
  }

  /**
   The extraction for any two line markers: `i` is a start marker, `f` the first end marker behind the
   first start marker, and no other start marker fits between them.
   */
  lemma ExtractBetween(s: seq<byte>, start: seq<byte>, stop: seq<byte>, i: nat, f: nat,
                       data: seq<byte>, rest: seq<byte>)
    requires LineMarker(start) && LineMarker(stop)
    requires At(s, i, start) && At(s, f, stop) && i + |start| <= f
    requires forall j :: i < j && At(s, j, start) ==> f < j + |start|
    requires forall k, j :: At(s, k, start) && k + |start| <= j && At(s, j, stop) ==> f <= j
    requires data == s[i + |start|..f] && rest == s[f + |stop|..]
    ensures Extract(s, start, stop) == Extracted(data, rest)
  {
    ScanFindsFirst(s, start);
    var first := ScanLines(s, start);
    CutPosition(s, start, first);
    ScanFindsFirst(first.rest, stop);
    var second := ScanLines(first.rest, stop);
    LoopsKeepSlice(s, start, stop, f, first, second);
    RegexFindsPayload(s, start, stop, |first.before|, i, f, first.last + (second.before + second.last));
  }

  /** The stream around one payload. */
  function Around(pre: seq<byte>, start: seq<byte>, payload: seq<byte>, stop: seq<byte>, post: seq<byte>): seq<byte> {
    pre + start + (payload + stop + post)
  }

  /** No end marker starts in front of the payload, unless it lies wholly in front of the start marker. */
  ghost predicate NoneAcross(pre: seq<byte>, start: seq<byte>, tail: seq<byte>, stop: seq<byte>) {
    forall i :: At(pre + start + tail, i, stop) && i < |pre| + |start| ==> At(pre, i, stop)
  }

  /** Where the pieces lie in the stream. */
  lemma AroundSlices(pre: seq<byte>, start: seq<byte>, payload: seq<byte>, stop: seq<byte>, post: seq<byte>)
    ensures var s := Around(pre, start, payload, stop, post);
            var body := |pre| + |start|;
            var end := body + |payload| + |stop|;
            && end <= |s|
            && s[0..|pre|] == pre
            && At(s, |pre|, start)
            && s[|pre|..end] == start + payload + stop
            && s[body..end] == payload + stop
            && s[body..] == payload + stop + post
  {
    var s := Around(pre, start, payload, stop, post);
    assert s == pre + (start + payload + stop) + post;
    Middle(pre, start + payload + stop, post);
    assert s == (pre + start) + (payload + stop) + post;
    Middle(pre + start, payload + stop, post);
    AtBytes(s, |pre|, start);
  }

  lemma Middle(a: seq<byte>, b: seq<byte>, c: seq<byte>)
    ensures var s := a + b + c; s[0..|a|] == a && s[|a|..|a| + |b|] == b && s[|a|..] == b + c
  {
  }

  lemma AroundCut(pre: seq<byte>, start: seq<byte>, payload: seq<byte>, stop: seq<byte>, post: seq<byte>, f: nat)
    requires f <= |payload|
    ensures var s := Around(pre, start, payload, stop, post);
            var body := |pre| + |start|;
            && body + f + |stop| <= |s|
            && s[body..body + f] == payload[..f]
            && s[body + f + |stop|..] == (payload + stop + post)[f + |stop|..]
  {
    var s := Around(pre, start, payload, stop, post);
    var body := |pre| + |start|;
    assert s[body..] == payload + stop + post;
    assert s[body + f + |stop|..] == s[body..][f + |stop|..];
  }

  /** Any end marker behind any start marker is at or behind the payload's first. */
  lemma FirstEndBehindStart(pre: seq<byte>, start: seq<byte>, payload: seq<byte>, stop: seq<byte>, post: seq<byte>,
                            f: nat, k: int, j: int)
    requires !HasTrace(pre, start, stop) && NoneAcross(pre, start, payload + stop + post, stop)
    requires f <= |payload| && forall e :: At(payload + stop, e, stop) ==> f <= e
    requires var s := Around(pre, start, payload, stop, post);
             At(s, k, start) && k + |start| <= j && At(s, j, stop)
    ensures |pre| + |start| + f <= j
  {
    var s := Around(pre, start, payload, stop, post);
    var body := |pre| + |start|;
    var end := body + |payload| + |stop|;
    AroundSlices(pre, start, payload, stop, post);
    if j < body {
      AtSlice(s, 0, |pre|, start, k);
    } else if j + |stop| <= end {
      AtSlice(s, body, end, stop, j - body);
    }
  }

  /** Everything about one payload in its stream that the extraction depends on. */
  ghost predicate Clear(pre: seq<byte>, start: seq<byte>, payload: seq<byte>, stop: seq<byte>, post: seq<byte>,
                        f: nat)
  {
    && !HasTrace(pre, start, stop)
    && NoneAcross(pre, start, payload + stop + post, stop)
    && (forall i :: At(start + payload + stop, i, start) ==> i == 0)
    && f <= |payload| && At(payload + stop, f, stop)
    && (forall e :: At(payload + stop, e, stop) ==> f <= e)
  }

  /** No start marker fits between the one in front of the payload and the end marker. */
  lemma NoLaterStart(pre: seq<byte>, start: seq<byte>, payload: seq<byte>, stop: seq<byte>, post: seq<byte>,
                     f: nat, j: int)
    requires Clear(pre, start, payload, stop, post, f)
    requires |pre| < j && At(Around(pre, start, payload, stop, post), j, start)
    ensures |pre| + |start| + f < j + |start|
  {
    var s := Around(pre, start, payload, stop, post);
    var end := |pre| + |start| + |payload| + |stop|;
    AroundSlices(pre, start, payload, stop, post);
    if j + |start| <= end {
      AtSlice(s, |pre|, end, start, j - |pre|);
    }
  }

  /**
   A payload between the markers, with anything in front that is not a complete trace: the host gets the
   payload up to `f`, the first end marker, and leaves what follows that marker in the stream.
   */
  lemma ExtractAround(pre: seq<byte>, start: seq<byte>, payload: seq<byte>, stop: seq<byte>, post: seq<byte>, f: nat)
    requires LineMarker(start) && LineMarker(stop) && Clear(pre, start, payload, stop, post, f)
    ensures Extract(Around(pre, start, payload, stop, post), start, stop)
            == Extracted(payload[..f], (payload + stop + post)[f + |stop|..])
  {
    var s := Around(pre, start, payload, stop, post);
    var body := |pre| + |start|;
    AroundSlices(pre, start, payload, stop, post);
    AtSlice(s, body, body + |payload| + |stop|, stop, f);
    forall j | |pre| < j && At(s, j, start) ensures body + f < j + |start| {
      NoLaterStart(pre, start, payload, stop, post, f, j);
    }
    forall k, j | At(s, k, start) && k + |start| <= j && At(s, j, stop) ensures body + f <= j {
      FirstEndBehindStart(pre, start, payload, stop, post, f, k, j);
    }
    AroundCut(pre, start, payload, stop, post, f);
    ExtractBetween(s, start, stop, |pre|, body + f, payload[..f], (payload + stop + post)[f + |stop|..]);
  }

  // ---------- the markers of this protocol

  lemma MarkerText()
    ensures START == Ascii("trace ready!\n") && END == Ascii("TRACE_DONE\n")
  {
  }

  /** A byte that is in neither marker, as the record tags 0, 1 and 2 are not. */
  predicate Foreign(b: byte) {
    b !in START && b !in END
  }

  /** Every 13th byte is foreign to the markers; the payload may end anywhere. */
  predicate Tagged(payload: seq<byte>) {
    forall k :: 0 <= k < |payload| && k % 13 == 0 ==> Foreign(payload[k])
  }

  lemma TagsAreForeign(b: byte)
    requires b <= 2
    ensures Foreign(b)
  {
  }

  lemma MarkersAreLines()
    ensures LineMarker(START) && LineMarker(END)
  {
  }

  /** No foreign byte is in a marker, and `T` is in the end marker only at its front. */
  lemma MarkerBytes(k: int)
    ensures 0 <= k < |START| ==> !Foreign(START[k]) && START[k] != END[0]
    ensures 0 <= k < |END| ==> !Foreign(END[k]) && (END[k] == END[0] <==> k == 0)
  {
  }

  /** In every window of 13 bytes that starts inside the payload there is a tag, or the `T` of the end marker. */
  lemma TagInWindow(payload: seq<byte>, x: nat, s: seq<byte>) returns (k: nat)
    requires Tagged(payload) && x < |payload| && s == payload + END
    ensures x <= k <= x + 12 && k <= |payload|
    ensures k < |payload| ==> k % 13 == 0 && Foreign(s[k])
    ensures k == |payload| ==> s[k] == END[0] && forall j :: x <= j < k ==> j % 13 != 0
  {
    k := (x + 12) / 13 * 13;
    assert k % 13 == 0 && x <= k <= x + 12;
    if k >= |payload| {
      k := |payload|;
    }
  }

  /** Under a start marker there is no foreign byte and no `T`. */
  lemma UnderStart(s: seq<byte>, t: seq<byte>, i: int, k: nat)
    requires s == START + t && At(s, i, START)
    requires k < |t| && 0 <= k + |START| - i < |START|
    ensures !Foreign(t[k]) && t[k] != END[0]
  {
    AtByte(s, i, START, k + |START| - i);
    MarkerBytes(k + |START| - i);
  }

  /** The start marker cannot occur again once the payload has begun. */
  lemma NoSecondStart(payload: seq<byte>, i: int)
    requires Tagged(payload) && At(START + payload + END, i, START)
    ensures i == 0
  {
    var s, t := START + payload + END, payload + END;
    assert s == START + t;
    if i > 0 && i - |START| < |payload| {
      var k: nat := 0;
      if i >= |START| {
        k := TagInWindow(payload, i - |START|, t);
      }
      assert if k < |payload| then Foreign(t[k]) else t[k] == END[0];
      UnderStart(s, t, i, k);
    }
  }

  lemma OffsetBefore(i: nat)
    requires forall j :: i <= j < i + 11 ==> j % 13 != 0
    ensures i % 13 == 1 || i % 13 == 2
  {
    var j := (i + 12) / 13 * 13;
    assert j % 13 == 0 && i <= j <= i + 12;
  }

  /** The end marker can occur inside the payload only at offset 1 or 2 of a record. */
  lemma EndOnlyAfterTag(payload: seq<byte>, i: int)
    requires Tagged(payload) && At(payload + END, i, END) && i < |payload|
    ensures i % 13 == 1 || i % 13 == 2
    ensures At(payload, i, END)
  {
    var s := payload + END;
    assert s[0..|payload|] == payload;
    if i + |END| > |payload| {
      AtByte(s, i, END, |payload| - i);
      MarkerBytes(|payload| - i);
    }
    forall j | i <= j < i + 11 ensures j % 13 != 0 {
      AtByte(s, i, END, j - i);
      MarkerBytes(j - i);
    }
    OffsetBefore(i);
    AtSlice(s, 0, |payload|, END, i);
  }

  /** No end marker starts in front of the start marker's end, unless it lies wholly in front of it. */
  lemma NoEndAcrossStart(pre: seq<byte>, tail: seq<byte>, i: int)
    requires At(pre + START + tail, i, END) && i < |pre| + |START|
    ensures At(pre, i, END)
  {
    var s := pre + START + tail;
    var nl := |pre| + |START| - 1;
    MarkersAreLines();
    assert s[nl] == NEWLINE && s[nl - 1] == START[11] && s[0..|pre|] == pre;
    assert forall k :: |pre| <= k < nl ==> s[k] == START[k - |pre|];
    AtByte(s, i, END, 10);
    if i + 10 > nl {
      AtByte(s, i, END, nl - i);
    } else if i + 10 == nl {
      AtByte(s, i, END, 9);
    }
    AtSlice(s, 0, |pre|, END, i);
  }

  // ---------- main results

  function HostExtract(s: seq<byte>): Extraction {
    Extract(s, START, END)
  }

  /** A stream that carries `payload` between the two markers. */
  function Carrying(pre: seq<byte>, payload: seq<byte>, post: seq<byte>): seq<byte> {
    Around(pre, START, payload, END, post)
  }

  /** The framed payload always ends with an end marker, so there is a first one. */
  lemma FirstEndExists(payload: seq<byte>) returns (f: nat)
    ensures f == FirstAt(payload + END, END, 0) && f <= |payload| && At(payload + END, f, END)
  {
    assert (payload + END)[|payload|..] == END;
    AtTail(payload + END, |payload|, END, 0);
    f := FirstAt(payload + END, END, 0);
  }

  /** The host gets the payload up to the first end marker, whatever is in front short of a complete trace. */
  lemma ExtractPayload(pre: seq<byte>, payload: seq<byte>, post: seq<byte>) returns (f: nat)
    requires Tagged(payload) && !HasTrace(pre, START, END)
    ensures f == FirstAt(payload + END, END, 0) && f <= |payload| && At(payload + END, f, END)
    ensures HostExtract(Carrying(pre, payload, post)) == Extracted(payload[..f], (payload + END + post)[f + |END|..])
  {
    MarkersAreLines();
    f := FirstEndExists(payload);
    forall i | At(START + payload + END, i, START) ensures i == 0 {
      NoSecondStart(payload, i);
    }
    forall i | At(pre + START + (payload + END + post), i, END) && i < |pre| + |START| ensures At(pre, i, END) {
      NoEndAcrossStart(pre, payload + END + post, i);
    }
    ExtractAround(pre, START, payload, END, post, f);
  }

  /** An end marker inside record `k` of the payload, at offset 1 or 2. */
  predicate ForgedAt(payload: seq<byte>, k: nat) {
    At(payload, 13 * k + 1, END) || At(payload, 13 * k + 2, END)
  }

  lemma ForgedByOffset(payload: seq<byte>, f: nat)
    requires At(payload, f, END) && (f % 13 == 1 || f % 13 == 2)
    ensures exists k: nat :: ForgedAt(payload, k)
  {
    var k := f / 13;
    assert f == 13 * k + f % 13;
    assert ForgedAt(payload, k);
  }

  lemma NoneInPayload(payload: seq<byte>, stop: seq<byte>, i: nat)
    requires |stop| > 0 && FirstAt(payload + stop, stop, 0) == |payload|
    ensures !At(payload, i, stop)
  {
    assert (payload + stop)[0..|payload|] == payload;
    AtSlice(payload + stop, 0, |payload|, stop, i);
  }

  /** The first end marker is the genuine one, or it is forged inside a record. */
  lemma GenuineOrForged(payload: seq<byte>, f: nat)
    requires Tagged(payload) && f == FirstAt(payload + END, END, 0) && f <= |payload|
    ensures f < |payload| ==> (f % 13 == 1 || f % 13 == 2) && exists k: nat :: ForgedAt(payload, k)
    ensures f == |payload| ==> forall k: nat :: !ForgedAt(payload, k)
  {
    if f < |payload| {
      EndOnlyAfterTag(payload, f);
      ForgedByOffset(payload, f);
    } else {
      forall k: nat ensures !ForgedAt(payload, k) {
        NoneInPayload(payload, END, 13 * k + 1);
        NoneInPayload(payload, END, 13 * k + 2);
      }
    }
  }

  /** The host gets exactly the payload, if and only if no end marker is forged inside it. */
  lemma ExtractIffNoForgedEnd(pre: seq<byte>, payload: seq<byte>, post: seq<byte>)
    requires Tagged(payload) && !HasTrace(pre, START, END)
    ensures HostExtract(Carrying(pre, payload, post)) == Extracted(payload, post)
            <==> forall k: nat :: !ForgedAt(payload, k)
  {
    var f := ExtractPayload(pre, payload, post);
    GenuineOrForged(payload, f);
    if f == |payload| {
      CutAtEnd(payload, END, post);
    }
  }

  lemma CutAtEnd(payload: seq<byte>, stop: seq<byte>, post: seq<byte>)
    ensures payload[..|payload|] == payload && (payload + stop + post)[|payload| + |stop|..] == post
  {
  }
}
