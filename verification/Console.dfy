/** The console of the board: a line editor over a circular buffer, its echo, and the reads that drain it. */
module Console {
  import opened Bytes

  const BUFLEN := 127

  const BEL: byte := 7
  const BS: byte := 8
  const DEL: byte := 127
  const CTRL_W: byte := 0x17
  const CTRL_U: byte := 0x15
  const BLANK: byte := 32

  /** C's remainder, which takes the sign of the dividend. */
  function CRem(a: int, b: int): int
    requires b > 0
  {
    if a >= 0 then a % b else -(-a % b)
  }

  function IncNdx(n: int): int {
    CRem(n + 1, BUFLEN)
  }

  function DecNdx(n: int): int {
    CRem(n + BUFLEN - 1, BUFLEN)
  }

  predicate IsSpace(c: byte) {
    c == BLANK || 9 <= c <= 13
  }

  /** The static variables, and everything sent to the USART so far. */
  datatype Ring = Ring(start: nat, end: nat, buf: seq<byte>, tx: seq<byte>)

  predicate Safe(r: Ring) {
    r.start < BUFLEN && r.end < BUFLEN && |r.buf| == BUFLEN + 1
  }

  function BufLen(r: Ring): int {
    CRem(r.end - r.start, BUFLEN)
  }

  /** The indices coincide exactly when the remainder is zero; it is negative exactly in a wrapped buffer. */
  lemma BufLenSigns(r: Ring)
    requires Safe(r)
    ensures BufLen(r) == r.end - r.start
    ensures BufLen(r) == 0 <==> r.start == r.end
    ensures BufLen(r) == BUFLEN - 1 <==> r.start == 0 && r.end == BUFLEN - 1
  {
  }

  function Say(r: Ring, bytes: seq<byte>): Ring {
    r.(tx := r.tx + bytes)
  }

  // ---------- one keystroke

  function BackUp(r: Ring): (r': Ring)
    requires Safe(r)
    ensures Safe(r')
  {
    Say(r.(end := DecNdx(r.end)), [BS, BLANK, BS])
  }

  function EraseWord(r: Ring): (r': Ring)
    requires Safe(r)
    ensures Safe(r') && r'.start == r.start && r'.buf == r.buf
    decreases r.end
  {
    if BufLen(r) > 0 && !IsSpace(r.buf[r.end]) then EraseWord(BackUp(r)) else r
  }

  function EraseLine(r: Ring): (r': Ring)
    requires Safe(r)
    ensures Safe(r') && r'.start == r.start && r'.buf == r.buf
    decreases r.end
  {
    if BufLen(r) > 0 then EraseLine(BackUp(r)) else r
  }

  /** Store a byte at the end and advance. */
  function Push(r: Ring, c: byte): (r': Ring)
    requires Safe(r)
    ensures Safe(r')
  {
    r.(buf := r.buf[r.end := c], end := IncNdx(r.end))
  }

  /** Any key but the return key. */
  function Key(r: Ring, c: byte): (r': Ring)
    requires Safe(r)
    ensures Safe(r') && r'.start == r.start && r'.buf[BUFLEN] == r.buf[BUFLEN]
  {
    if c == BS || c == DEL then
      if BufLen(r) == 0 then Say(r, [BEL]) else BackUp(r)
    else if c == CTRL_W then EraseWord(r)
    else if c == CTRL_U then EraseLine(r)
    else if BufLen(r) == BUFLEN - 1 then Say(r, [BEL])
    else Say(Push(r, c), [c])
  }

  /** The return key: a newline, and a terminator that does not count. */
  function Enter(r: Ring): (r': Ring)
    requires Safe(r)
    ensures Safe(r') && r'.start == r.start && r'.buf[BUFLEN] == r.buf[BUFLEN]
  {
    var p := Push(r, NEWLINE);
    Say(p.(buf := p.buf[p.end := 0]), [RETURN, NEWLINE])
  }

  datatype Edited = Typing(ring: Ring) | Entered(ring: Ring, keys: seq<byte>)

  /** The editing loop on the keys that arrive; Typing when they run out before the return key. */
  function EditLine(r: Ring, keys: seq<byte>): (e: Edited)
    requires Safe(r)
    ensures Safe(e.ring) && e.ring.start == r.start && e.ring.buf[BUFLEN] == r.buf[BUFLEN]
    decreases |keys|
  {
    if keys == [] then Typing(r)
    else if keys[0] == RETURN then Entered(Enter(r), keys[1..])
    else EditLine(Key(r, keys[0]), keys[1..])
  }

  function GetLine(r: Ring, keys: seq<byte>): (e: Edited)
    requires Safe(r)
    ensures Safe(e.ring) && e.ring.start == r.start
  {
    if r.start != r.end then Entered(r, keys) else EditLine(r, keys)
  }

  // ---------- reads

  datatype Reading = Blocked(ring: Ring) | Got(data: seq<byte>, ring: Ring, keys: seq<byte>)

  function Min(a: int, b: int): int {
    if a <= b then a else b
  }

  /** The copying loop: only an unwrapped buffer yields anything. */
  function Drain(r: Ring, len: int): (d: (seq<byte>, Ring))
    requires Safe(r)
    ensures Safe(d.1)
  {
    if r.start < r.end && len > 0 then
      var k := Min(len, r.end - r.start);
      (r.buf[r.start..r.start + k], r.(start := r.start + k))
    else ([], r)
  }

  lemma DrainTakes(r: Ring, len: int, n: nat)
    requires Safe(r) && n == if r.start < r.end && len > 0 then Min(len, r.end - r.start) else 0
    ensures Drain(r, len) == (r.buf[r.start..r.start + n], r.(start := r.start + n))
  {
    assert r.buf[r.start..r.start] == [];
  }

  function Read(r: Ring, keys: seq<byte>, len: int): (g: Reading)
    requires Safe(r)
    ensures Safe(g.ring)
  {
    match GetLine(r, keys)
    case Typing(r') => Blocked(r')
    case Entered(r', rest) => var d := Drain(r', len); Got(d.0, d.1, rest)
  }

  /** Several reads in a row, their results concatenated. */
  function Reads(r: Ring, keys: seq<byte>, lens: seq<int>): (g: Reading)
    requires Safe(r)
    ensures Safe(g.ring)
    decreases |lens|
  {
    if lens == [] then Got([], r, keys)
    else
      match Read(r, keys, lens[0])
      case Blocked(r') => Blocked(r')
      case Got(data, r', rest) =>
        match Reads(r', rest, lens[1..])
        case Blocked(r'') => Blocked(r'')
        case Got(more, r'', rest') => Got(data + more, r'', rest')
  }

  // ---------- the editor as it should be

  /**
   The buffer seen from the start index: the line typed so far, then the cells behind the cursor with whatever
   they last held, 127 in all.  `room` cells are left before the end index wraps to 0.
   */
  datatype Line = Line(room: nat, text: seq<byte>, stale: seq<byte>)

  predicate Wrapped(l: Line) {
    |l.text| >= l.room
  }

  predicate Proper(l: Line) {
    1 <= l.room <= BUFLEN && |l.text| < BUFLEN && |l.text| + |l.stale| == BUFLEN
  }

  /** The last whitespace of `t`, or 0 when there is none. */
  function LastSpace(t: seq<byte>): (i: nat)
    ensures if t == [] then i == 0 else i < |t| && (i == 0 || IsSpace(t[i]))
    ensures forall k :: i < k < |t| ==> !IsSpace(t[k])
  {
    if t == [] then 0
    else if IsSpace(t[|t| - 1]) then |t| - 1
    else LastSpace(t[..|t| - 1])
  }

  /** Keep the first `n` bytes of the line; the rest goes stale. */
  function Keep(l: Line, n: nat): Line
    requires n <= |l.text|
  {
    Line(l.room, l.text[..n], l.text[n..] + l.stale)
  }

  function Append(l: Line, c: byte): Line
    requires Proper(l)
  {
    if |l.text| == BUFLEN - 1 then Line(l.room, [], l.text + [c])
    else Line(l.room, l.text + [c], l.stale[1..])
  }

  function LineKey(l: Line, c: byte): (l': Line)
    requires Proper(l)
    ensures Proper(l') && l'.room == l.room
  {
    if c == BS || c == DEL then
      if l.text == [] then l else Keep(l, |l.text| - 1)
    else if c == CTRL_W then
      if Wrapped(l) || l.text == [] || IsSpace(l.stale[0]) then l else Keep(l, LastSpace(l.text))
    else if c == CTRL_U then
      if Wrapped(l) then l else Keep(l, 0)
    else if l.room == BUFLEN && |l.text| == BUFLEN - 1 then l
    else Append(l, c)
  }

  function LineKeys(l: Line, keys: seq<byte>): (l': Line)
    requires Proper(l)
    ensures Proper(l') && l'.room == l.room
    decreases |keys|
  {
    if keys == [] then l else LineKeys(LineKey(l, keys[0]), keys[1..])
  }

  function LineEnter(l: Line): (l': Line)
    requires Proper(l)
    ensures Proper(l') && l'.room == l.room
  {
    var p := Append(l, NEWLINE);
    p.(stale := p.stale[0 := 0])
  }

  // ---------- the buffer as a line

  function Count(r: Ring): (n: nat)
    requires Safe(r)
    ensures n < BUFLEN
  {
    if r.end >= r.start then r.end - r.start else r.end - r.start + BUFLEN
  }

  /** The index of the `k`-th cell from the start index. */
  function Cell(start: nat, k: nat): nat {
    if start + k < BUFLEN then start + k else start + k - BUFLEN
  }

  function Cells(r: Ring): (s: seq<byte>)
    requires Safe(r)
    ensures |s| == BUFLEN && forall k :: 0 <= k < BUFLEN ==> s[k] == r.buf[Cell(r.start, k)]
  {
    seq(BUFLEN, k requires 0 <= k < BUFLEN => r.buf[Cell(r.start, k)])
  }

  function AsLine(r: Ring): (l: Line)
    requires Safe(r)
    ensures Proper(l)
  {
    Line(BUFLEN - r.start, Cells(r)[..Count(r)], Cells(r)[Count(r)..])
  }

  /** The tests of the source, in terms of the line. */
  lemma LineTests(r: Ring)
    requires Safe(r)
    ensures var l := AsLine(r);
            && (BufLen(r) == 0 <==> l.text == [])
            && (BufLen(r) > 0 <==> !Wrapped(l) && l.text != [])
            && (BufLen(r) == BUFLEN - 1 <==> l.room == BUFLEN && |l.text| == BUFLEN - 1)
            && r.buf[r.end] == l.stale[0]
            && (Wrapped(l) <==> r.end < r.start)
  {
    assert Cell(r.start, Count(r)) == r.end;
  }

  lemma SplitEarlier(s: seq<byte>, m: nat, n: nat)
    requires m <= n <= |s|
    ensures s[..n][..m] == s[..m] && s[..n][m..] + s[n..] == s[m..]
  {
  }

  lemma BackUpDropsLast(r: Ring)
    requires Safe(r) && r.start != r.end
    ensures AsLine(BackUp(r)) == Keep(AsLine(r), Count(r) - 1)
  {
    var s, n := Cells(r), Count(r);
    assert Count(BackUp(r)) == n - 1;
    assert Cells(BackUp(r)) == s;
    SplitEarlier(s, n - 1, n);
  }

  lemma PokeCells(r: Ring, c: byte)
    requires Safe(r)
    ensures Cells(r.(buf := r.buf[r.end := c])) == Cells(r)[Count(r) := c]
  {
    assert Cell(r.start, Count(r)) == r.end;
  }

  lemma PushAppends(r: Ring, c: byte)
    requires Safe(r)
    ensures AsLine(Push(r, c)) == Append(AsLine(r), c)
  {
    var s, n := Cells(r), Count(r);
    PokeCells(r, c);
    var t := s[n := c];
    assert Cells(Push(r, c)) == Cells(r.(buf := r.buf[r.end := c])) == t;
    if n == BUFLEN - 1 {
      assert Count(Push(r, c)) == 0;
      assert t == s[..n] + [c];
    } else {
      assert Count(Push(r, c)) == n + 1;
      assert t[..n + 1] == s[..n] + [c];
      assert t[n + 1..] == s[n..][1..];
    }
  }

  lemma EnterRefines(r: Ring)
    requires Safe(r)
    ensures AsLine(Enter(r)) == LineEnter(AsLine(r))
  {
    var p := Push(r, NEWLINE);
    PushAppends(r, NEWLINE);
    PokeCells(p, 0);
    var s, n := Cells(p), Count(p);
    var e := Enter(r);
    assert Cells(e) == Cells(p.(buf := p.buf[p.end := 0])) && Count(e) == n;
    assert s[n := 0][..n] == s[..n];
    assert s[n := 0][n..] == s[n..][0 := 0];
  }

  lemma KeepKeep(l: Line, n: nat, m: nat)
    requires m <= n <= |l.text|
    ensures Keep(Keep(l, n), m) == Keep(l, m)
  {
    assert l.text[..n][..m] == l.text[..m];
    assert l.text[..n][m..] + (l.text[n..] + l.stale) == l.text[m..] + l.stale;
  }

  /** Dropping bytes until one of them is whitespace keeps what stands before the last whitespace. */
  lemma {:induction false} EraseWordRefines(r: Ring)
    requires Safe(r)
    ensures AsLine(EraseWord(r)) == LineKey(AsLine(r), CTRL_W)
    decreases r.end
  {
    LineTests(r);
    if BufLen(r) > 0 && !IsSpace(r.buf[r.end]) {
      var l, b := AsLine(r), BackUp(r);
      var n := |l.text|;
      BackUpDropsLast(r);
      EraseWordRefines(b);
      LineTests(b);
      assert AsLine(b).stale[0] == l.text[n - 1];
      KeepKeep(l, n - 1, LastSpace(l.text));
    }
  }

  lemma {:induction false} EraseLineRefines(r: Ring)
    requires Safe(r)
    ensures AsLine(EraseLine(r)) == LineKey(AsLine(r), CTRL_U)
    decreases r.end
  {
    LineTests(r);
    var l := AsLine(r);
    if BufLen(r) > 0 {
      BackUpDropsLast(r);
      EraseLineRefines(BackUp(r));
      LineTests(BackUp(r));
      KeepKeep(l, |l.text| - 1, 0);
    } else if !Wrapped(l) {
      assert Keep(l, 0) == l;
    }
  }

  /** Every keystroke in every reachable state, wrapped or not, does to the line what the editor should. */
  lemma KeyRefines(r: Ring, c: byte)
    requires Safe(r)
    ensures AsLine(Key(r, c)) == LineKey(AsLine(r), c)
  {
    LineTests(r);
    if c == BS || c == DEL {
      if BufLen(r) != 0 {
        BackUpDropsLast(r);
      }
    } else if c == CTRL_W {
      EraseWordRefines(r);
    } else if c == CTRL_U {
      EraseLineRefines(r);
    } else {
      PushAppends(r, c);
    }
  }

  /** The erasing keys take bytes off the end of the line, never past its start, and overwrite no cell. */
  lemma EraseKeysOnlyDrop(r: Ring, c: byte)
    requires Safe(r) && (c == BS || c == DEL || c == CTRL_W || c == CTRL_U)
    ensures Key(r, c).buf == r.buf && Count(Key(r, c)) <= Count(r)
    ensures AsLine(Key(r, c)).text <= AsLine(r).text
  {
    KeyRefines(r, c);
  }

  predicate NoReturn(keys: seq<byte>) {
    forall k :: 0 <= k < |keys| ==> keys[k] != RETURN
  }

  /** A whole line: the keys up to the return key, edited, then the newline. */
  lemma {:induction false} EditRefines(r: Ring, keys: seq<byte>, rest: seq<byte>)
    requires Safe(r) && NoReturn(keys)
    ensures EditLine(r, keys).Typing? && AsLine(EditLine(r, keys).ring) == LineKeys(AsLine(r), keys)
    ensures EditLine(r, keys + [RETURN] + rest) == Entered(Enter(EditLine(r, keys).ring), rest)
    decreases |keys|
  {
    var all := keys + [RETURN] + rest;
    if keys == [] {
      assert all[0] == RETURN && all[1..] == rest;
    } else {
      assert all[0] == keys[0] && all[1..] == keys[1..] + [RETURN] + rest;
      KeyRefines(r, keys[0]);
      EditRefines(Key(r, keys[0]), keys[1..], rest);
    }
  }

  // ---------- delivery

  /** One line, typed into an empty buffer, up to the return key. */
  lemma LineEntered(r: Ring, keys: seq<byte>, rest: seq<byte>) returns (e: Ring)
    requires Safe(r) && r.start == r.end && NoReturn(keys)
    ensures Safe(e) && GetLine(r, keys + [RETURN] + rest) == Entered(e, rest)
    ensures AsLine(e) == LineEnter(LineKeys(AsLine(r), keys))
    ensures Wrapped(AsLine(e)) <==> e.end < e.start
    ensures AsLine(e).text == [] <==> e.start == e.end
  {
    EditRefines(r, keys, rest);
    var typed := EditLine(r, keys).ring;
    e := Enter(typed);
    EnterRefines(typed);
    LineTests(e);
  }

  /** What one read returns right after the return key: the line, if and only if it ends before the wrap. */
  lemma LineDeliveredIff(r: Ring, keys: seq<byte>, rest: seq<byte>, len: int)
    requires Safe(r) && r.start == r.end && NoReturn(keys)
    requires len > |LineKeys(AsLine(r), keys).text|
    ensures var line := LineKeys(AsLine(r), keys).text + [NEWLINE];
            var g := Read(r, keys + [RETURN] + rest, len);
            && g.Got? && g.keys == rest
            && g.data == (if |line| < BUFLEN - r.start then line else [])
            && (|line| < BUFLEN - r.start ==> g.ring.start == g.ring.end == r.start + |line|)
  {
    var e := LineEntered(r, keys, rest);
    if e.start < e.end {
      UnwrappedText(e);
    }
  }

  lemma UnwrappedText(r: Ring)
    requires Safe(r) && r.start <= r.end
    ensures AsLine(r).text == r.buf[r.start..r.end]
  {
  }

  function Sum(lens: seq<int>): int {
    if lens == [] then 0 else lens[0] + Sum(lens[1..])
  }

  /** Positive lengths, and at every call something is left to read. */
  predicate StillWaiting(lens: seq<int>, left: int)
    decreases |lens|
  {
    lens == [] || (left > 0 && lens[0] > 0 && StillWaiting(lens[1..], left - Min(lens[0], left)))
  }

  /** What the reads take off `left` waiting bytes. */
  function Taken(lens: seq<int>, left: nat): (n: nat)
    requires StillWaiting(lens, left)
    ensures n <= left
    decreases |lens|
  {
    if lens == [] then 0
    else
      var k := Min(lens[0], left);
      k + Taken(lens[1..], left - k)
  }

  lemma {:induction false} TakenIsMin(lens: seq<int>, left: nat)
    requires StillWaiting(lens, left)
    ensures Sum(lens) >= 0 && Taken(lens, left) == Min(Sum(lens), left)
    decreases |lens|
  {
    if lens != [] {
      TakenIsMin(lens[1..], left - Min(lens[0], left));
    }
  }

  lemma JoinData(s: seq<byte>, a: nat, k: nat, n: nat)
    requires k <= n && a + n <= |s|
    ensures s[a..a + k] + s[a + k..a + n] == s[a..a + n]
  {
  }

  /** The first read, then the others. */
  lemma ReadsCons(r: Ring, keys: seq<byte>, lens: seq<int>, data: seq<byte>, r': Ring, tail: seq<byte>, end: Ring)
    requires lens != [] && Safe(r) && Safe(r') && Read(r, keys, lens[0]) == Got(data, r', keys)
    requires Reads(r', keys, lens[1..]) == Got(tail, end, keys)
    ensures Reads(r, keys, lens) == Got(data + tail, end, keys)
  {
  }

  lemma ReadsStep(r: Ring, keys: seq<byte>, lens: seq<int>, data: seq<byte>, r': Ring, keys': seq<byte>)
    requires lens != [] && Safe(r) && Safe(r') && Read(r, keys, lens[0]) == Got(data, r', keys')
    requires Reads(r', keys', lens[1..]).Got?
    ensures var g := Reads(r', keys', lens[1..]); Reads(r, keys, lens) == g.(data := data + g.data)
  {
  }

  lemma ReadWaiting(r: Ring, keys: seq<byte>, len: int)
    requires Safe(r) && r.start < r.end && len > 0
    ensures var k := Min(len, r.end - r.start);
            Read(r, keys, len) == Got(r.buf[r.start..r.start + k], r.(start := r.start + k), keys)
  {
  }

  lemma TakeMore(r: Ring, keys: seq<byte>, lens: seq<int>, k: nat, m: nat, end: Ring)
    requires lens != [] && lens[0] > 0 && Safe(r) && r.start < r.end && k == Min(lens[0], r.end - r.start)
    requires r.start + k + m <= r.end
    requires Reads(r.(start := r.start + k), keys, lens[1..])
             == Got(r.buf[r.start + k..r.start + k + m], end, keys)
    ensures Reads(r, keys, lens) == Got(r.buf[r.start..r.start + k + m], end, keys)
  {
    ReadWaiting(r, keys, lens[0]);
    ReadsCons(r, keys, lens, r.buf[r.start..r.start + k], r.(start := r.start + k),
              r.buf[r.start + k..r.start + k + m], end);
    JoinData(r.buf, r.start, k, k + m);
  }

  lemma {:induction false} ReadsTake(r: Ring, keys: seq<byte>, lens: seq<int>, end: Ring)
    requires Safe(r) && r.start <= r.end && StillWaiting(lens, r.end - r.start)
    requires end == r.(start := r.start + Taken(lens, r.end - r.start))
    ensures Reads(r, keys, lens) == Got(r.buf[r.start..end.start], end, keys)
    decreases |lens|
  {
    if lens != [] {
      var k := Min(lens[0], r.end - r.start);
      ReadsTake(r.(start := r.start + k), keys, lens[1..], end);
      TakeMore(r, keys, lens, k, end.start - r.start - k, end);
    }
  }

  /**
   Partial reads of a waiting line: until it is drained they deliver it in order, each as much as asked for or
   as is left, and no keystroke is consumed.
   */
  lemma FifoDelivery(r: Ring, keys: seq<byte>, lens: seq<int>)
    requires Safe(r) && r.start <= r.end && StillWaiting(lens, r.end - r.start)
    ensures var n := Min(Sum(lens), r.end - r.start);
            && 0 <= n
            && Reads(r, keys, lens) == Got(r.buf[r.start..r.start + n], r.(start := r.start + n), keys)
  {
    TakenIsMin(lens, r.end - r.start);
    var n := Taken(lens, r.end - r.start);
    ReadsTake(r, keys, lens, r.(start := r.start + n));
  }

  /** Once the buffer has wrapped, every later read returns nothing and changes nothing, for ever. */
  lemma {:induction false} WrappedIsDead(r: Ring, keys: seq<byte>, lens: seq<int>)
    requires Safe(r) && r.end < r.start
    ensures Reads(r, keys, lens) == Got([], r, keys)
    decreases |lens|
  {
    if lens != [] {
      WrappedIsDead(r, keys, lens[1..]);
    }
  }

  /** However much is typed and read, the start index only grows: the console hands out 126 bytes in its lifetime. */
  lemma {:induction false} LifetimeBound(r: Ring, keys: seq<byte>, lens: seq<int>)
    requires Safe(r)
    ensures var g := Reads(r, keys, lens); g.Got? ==> |g.data| == g.ring.start - r.start <= BUFLEN - 1 - r.start
    decreases |lens|
  {
    if lens != [] && Read(r, keys, lens[0]).Got? {
      var g := Read(r, keys, lens[0]);
      LifetimeBound(g.ring, g.keys, lens[1..]);
    }
  }

  // ---------- whole sessions

  /** The keystrokes of several lines, each ended by the return key. */
  function KeysOf(inputs: seq<seq<byte>>): seq<byte> {
    if inputs == [] then [] else inputs[0] + [RETURN] + KeysOf(inputs[1..])
  }

  /** One read per line, each long enough for any line. */
  function FullReads(n: nat): seq<int> {
    seq(n, _ => BUFLEN)
  }

  /** The line once all of it has been read: its cells are the farthest from the cursor now. */
  function Drained(l: Line): Line
    requires !Wrapped(l)
  {
    Line(l.room - |l.text|, [], l.stale + l.text)
  }

  /**
   What a program that reads line after line gets.  A line that reaches the wrap is never delivered, nor is
   anything after it; a line of 127 bytes, newline included, makes the buffer look empty and is lost.
   */
  function SessionText(l: Line, inputs: seq<seq<byte>>): seq<byte>
    requires Proper(l)
    decreases |inputs|
  {
    if inputs == [] then []
    else
      var e := LineEnter(LineKeys(l, inputs[0]));
      if e.text == [] then SessionText(e, inputs[1..])
      else if Wrapped(e) then []
      else e.text + SessionText(Drained(e), inputs[1..])
  }

  lemma DrainRefines(r: Ring)
    requires Safe(r) && r.start <= r.end
    ensures AsLine(r.(start := r.end)) == Drained(AsLine(r))
  {
    var s, n, d := Cells(r), Count(r), r.(start := r.end);
    assert Count(d) == 0;
    assert Cells(d) == s[n..] + s[..n];
  }

  /** The read of a line that waits whole. */
  lemma ReadWhole(r: Ring, keys: seq<byte>, e: Ring, rest: seq<byte>)
    requires Safe(r) && Safe(e) && GetLine(r, keys) == Entered(e, rest) && e.start < e.end
    ensures Read(r, keys, BUFLEN) == Got(AsLine(e).text, e.(start := e.end), rest)
  {
    UnwrappedText(e);
  }

  lemma ReadNothing(r: Ring, keys: seq<byte>, e: Ring, rest: seq<byte>, len: int)
    requires Safe(r) && Safe(e) && GetLine(r, keys) == Entered(e, rest) && e.end <= e.start
    ensures Read(r, keys, len) == Got([], e, rest)
  {
  }

  /** Any session, from any state with an empty buffer: the reads together return exactly that text. */
  lemma {:induction false} SessionRefines(r: Ring, inputs: seq<seq<byte>>)
    requires Safe(r) && r.start == r.end && forall i :: 0 <= i < |inputs| ==> NoReturn(inputs[i])
    ensures var g := Reads(r, KeysOf(inputs), FullReads(|inputs|));
            g.Got? && g.data == SessionText(AsLine(r), inputs)
    decreases |inputs|
  {
    if inputs != [] {
      var keys, rest, lens := KeysOf(inputs), KeysOf(inputs[1..]), FullReads(|inputs|);
      assert lens[1..] == FullReads(|inputs[1..]|);
      var e := LineEntered(r, inputs[0], rest);
      if e.end < e.start {
        ReadNothing(r, keys, e, rest, BUFLEN);
        WrappedIsDead(e, rest, lens[1..]);
        ReadsStep(r, keys, lens, [], e, rest);
      } else if e.end == e.start {
        ReadNothing(r, keys, e, rest, BUFLEN);
        SessionRefines(e, inputs[1..]);
        ReadsStep(r, keys, lens, [], e, rest);
      } else {
        ReadWhole(r, keys, e, rest);
        DrainRefines(e);
        SessionRefines(e.(start := e.end), inputs[1..]);
        ReadsStep(r, keys, lens, AsLine(e).text, e.(start := e.end), rest);
      }
    }
  }

  // ---------- the keys, byte by byte

  /** The board after reset. */
  function Fresh(): (r: Ring)
    ensures Safe(r)
  {
    Ring(0, 0, seq(BUFLEN + 1, _ => 0), [])
  }

  lemma FreshLine()
    ensures AsLine(Fresh()) == Line(127, [], seq(127, _ => 0))
  {
    assert Cells(Fresh()) == seq(127, _ => 0);
  }

  /** The bytes at which the word key stops. */
  lemma SpaceBytes(c: byte)
    ensures IsSpace(c) <==> c in Ascii(" \t\n\r") || c == 11 || c == 12
    ensures IsSpace(c) <==> c in [9, 10, 11, 12, 13, 32]
  {
    assert Ascii(" \t\n\r") == [32, 9, 10, 13];
  }

  /** Neither an editing key nor return. */
  predicate Plain(c: byte) {
    c != 8 && c != 127 && c != 0x17 && c != 0x15 && c != 13
  }

  predicate AllPlain(keys: seq<byte>) {
    forall k :: 0 <= k < |keys| ==> Plain(keys[k])
  }

  /** Plain keys are appended as they are. */
  lemma {:induction false} TypePlain(l: Line, keys: seq<byte>)
    requires Proper(l) && |l.text| + |keys| < BUFLEN && AllPlain(keys)
    ensures LineKeys(l, keys) == Line(l.room, l.text + keys, l.stale[|keys|..])
    decreases |keys|
  {
    if keys == [] {
      assert l.text + [] == l.text && l.stale[0..] == l.stale;
    } else {
      var next, rest := LineKey(l, keys[0]), keys[1..];
      assert Plain(keys[0]) && next == Append(l, keys[0]);
      TypePlain(next, rest);
      assert l.text + [keys[0]] + rest == l.text + keys;
      assert l.stale[1..][|rest|..] == l.stale[|keys|..];
    }
  }

  lemma {:induction false} LineKeysAppend(l: Line, a: seq<byte>, b: seq<byte>)
    requires Proper(l)
    ensures LineKeys(l, a + b) == LineKeys(LineKeys(l, a), b)
    decreases |a|
  {
    if a == [] {
      assert a + b == b;
    } else {
      assert (a + b)[0] == a[0] && (a + b)[1..] == a[1..] + b;
      LineKeysAppend(LineKey(l, a[0]), a[1..], b);
    }
  }

  lemma OneKey(l: Line, c: byte)
    requires Proper(l)
    ensures LineKeys(l, [c]) == LineKey(l, c)
  {
    assert [c][1..] == [];
  }

  /** Plain keys and then one more, on a fresh board. */
  lemma TypedThen(keys: seq<byte>, c: byte) returns (l: Line)
    requires AllPlain(keys) && |keys| < 127
    ensures Proper(l) && l == Line(127, keys, seq(127 - |keys|, _ => 0))
    ensures LineKeys(AsLine(Fresh()), keys + [c]) == LineKey(l, c)
  {
    FreshLine();
    TypePlain(AsLine(Fresh()), keys);
    LineKeysAppend(AsLine(Fresh()), keys, [c]);
    l := LineKeys(AsLine(Fresh()), keys);
    OneKey(l, c);
    assert [] + keys == keys && AsLine(Fresh()).stale[|keys|..] == seq(127 - |keys|, _ => 0);
  }

  /** What stands in the buffer of a board that has not delivered anything yet. */
  lemma FreshBuffer(keys: seq<byte>)
    requires NoReturn(keys)
    requires |LineKeys(AsLine(Fresh()), keys).text| < 127
    ensures var r := EditLine(Fresh(), keys).ring; var text := LineKeys(AsLine(Fresh()), keys).text;
            r.start == 0 && r.end == |text| && r.buf[..|text|] == text
  {
    EditRefines(Fresh(), keys, []);
    var r := EditLine(Fresh(), keys).ring;
    UnwrappedText(r);
    assert r.buf[0..r.end] == r.buf[..r.end];
  }

  /** The erase keys 8 and 127 take back the last byte. */
  lemma EraseKeyLaw(pre: seq<byte>, c: byte, erase: byte)
    requires AllPlain(pre + [c]) && |pre| < 126 && (erase == 8 || erase == 127)
    ensures var r := EditLine(Fresh(), pre + [c] + [erase]).ring;
            r.start == 0 && r.end == |pre| && r.buf[..|pre|] == pre
  {
    var l := TypedThen(pre + [c], erase);
    assert (pre + [c])[..|pre|] == pre;
    FreshBuffer(pre + [c] + [erase]);
  }

  /** The line key 0x15 takes back everything. */
  lemma LineKeyLaw(pre: seq<byte>)
    requires AllPlain(pre) && |pre| < 127
    ensures var r := EditLine(Fresh(), pre + [0x15]).ring; r.start == r.end == 0
  {
    var l := TypedThen(pre, 0x15);
    FreshBuffer(pre + [0x15]);
  }

  /** The word key 0x17 takes back a word and the one whitespace byte in front of it. */
  lemma WordKeyLaw(pre: seq<byte>, w: byte, word: seq<byte>)
    requires AllPlain(pre) && AllPlain(word) && w in [9, 10, 11, 12, 32]
    requires |pre| + 1 + |word| < 127
    requires forall k :: 0 <= k < |word| ==> word[k] !in [9, 10, 11, 12, 32]
    ensures var r := EditLine(Fresh(), pre + [w] + word + [0x17]).ring;
            r.start == 0 && r.end == |pre| && r.buf[..|pre|] == pre
  {
    SpaceBytes(w);
    forall k | 0 <= k < |word| ensures !IsSpace(word[k]) {
      SpaceBytes(word[k]);
    }
    WordTyped(pre, w, word);
    FreshBuffer(pre + [w] + word + [0x17]);
  }

  lemma WordTyped(pre: seq<byte>, w: byte, word: seq<byte>)
    requires AllPlain(pre) && AllPlain(word) && Plain(w) && IsSpace(w) && |pre| + 1 + |word| < 127
    requires forall k :: 0 <= k < |word| ==> !IsSpace(word[k])
    ensures LineKeys(AsLine(Fresh()), pre + [w] + word + [0x17]).text == pre
    ensures NoReturn(pre + [w] + word + [0x17])
  {
    var typed := pre + [w] + word;
    LastSpaceIs(typed, |pre|);
    var l := TypedThen(typed, 0x17);
    assert typed[..|pre|] == pre;
  }

  lemma LastSpaceIs(t: seq<byte>, i: nat)
    requires i < |t| && IsSpace(t[i]) && forall k :: i < k < |t| ==> !IsSpace(t[k])
    ensures LastSpace(t) == i
  {
    assert LastSpace(t) <= i;
  }

  /** Return, byte 13, stores a newline, byte 10, and a NUL behind it. */
  lemma ReturnKeyLaw(pre: seq<byte>)
    requires AllPlain(pre) && |pre| < 126
    ensures var r := Read(Fresh(), pre + [13], 127);
            && r.Got? && r.data == pre + [10] && r.keys == []
            && r.ring.start == r.ring.end == |pre| + 1 && r.ring.buf[|pre| + 1] == 0
  {
    FreshLine();
    TypePlain(AsLine(Fresh()), pre);
    assert [] + pre == pre && pre + [RETURN] + [] == pre + [13];
    LineDeliveredIff(Fresh(), pre, [], 127);
    EditRefines(Fresh(), pre, []);
    var e := Enter(EditLine(Fresh(), pre).ring);
    var l := LineEntered(Fresh(), pre, []);
  }

  lemma {:induction false} EraseWordLaw(r: Ring)
    requires Safe(r) && r.start <= r.end
    ensures var i := EraseWord(r).end;
            && r.start <= i <= r.end
            && (i == r.start || r.buf[i] in [9, 10, 11, 12, 13, 32])
            && forall k :: i < k <= r.end ==> r.buf[k] !in [9, 10, 11, 12, 13, 32]
    decreases r.end
  {
    SpaceBytes(r.buf[r.end]);
    if r.start < r.end && !IsSpace(r.buf[r.end]) {
      EraseWordLaw(BackUp(r));
    }
  }

  lemma {:induction false} EraseLineLaw(r: Ring)
    requires Safe(r) && r.start <= r.end
    ensures EraseLine(r).end == r.start
    decreases r.end
  {
    if r.start < r.end {
      EraseLineLaw(BackUp(r));
    }
  }

  /** Every key on the indices and the cells themselves. */
  lemma KeyLaw(r: Ring, c: byte)
    requires Safe(r)
    ensures Plain(c) && !(r.start == 0 && r.end == 126) ==>
              Key(r, c).buf == r.buf[r.end := c] && Key(r, c).end == if r.end == 126 then 0 else r.end + 1
    ensures (!Plain(c) && c != 13) || (Plain(c) && r.start == 0 && r.end == 126) ==> Key(r, c).buf == r.buf
    ensures Plain(c) && r.start == 0 && r.end == 126 ==> Key(r, c).end == r.end
    ensures c == 8 || c == 127 ==>
              Key(r, c).end == if r.start == r.end then r.end else if r.end == 0 then 126 else r.end - 1
    ensures (c == 0x17 || c == 0x15) && r.end < r.start ==> Key(r, c) == r
    ensures c == 0x15 && r.start <= r.end ==> Key(r, c).end == r.start
    ensures c == 0x17 && r.start <= r.end ==>
              var i := Key(r, c).end;
              && r.start <= i <= r.end
              && (i == r.start || r.buf[i] in [9, 10, 11, 12, 13, 32])
              && forall k :: i < k <= r.end ==> r.buf[k] !in [9, 10, 11, 12, 13, 32]
  {
    if r.start <= r.end {
      EraseWordLaw(r);
      EraseLineLaw(r);
    }
  }

  /** Return on the indices and the cells themselves. */
  lemma EnterLaw(r: Ring)
    requires Safe(r)
    ensures var next := if r.end == 126 then 0 else r.end + 1;
            Enter(r).end == next && Enter(r).start == r.start && Enter(r).buf == r.buf[r.end := 10][next := 0]
  {
  }

  /** What each key sends back: itself, back-blank-back for a byte taken back, and a bell when it can do nothing. */
  lemma EchoBytes(r: Ring, c: byte)
    requires Safe(r)
    ensures Plain(c) && r.end - r.start != 126 ==> Key(r, c).tx == r.tx + [c]
    ensures Plain(c) && r.end - r.start == 126 ==> Key(r, c).tx == r.tx + [7]
    ensures c == 8 || c == 127 ==> Key(r, c).tx == r.tx + if r.start == r.end then [7] else [8, 32, 8]
    ensures Enter(r).tx == r.tx + [13, 10]
  {
  }

  // ---------- boards that lose a line

  const LETTER: byte := 97

  /** The same letter, `n` times. */
  function Letters(n: nat): (s: seq<byte>)
    ensures |s| == n && forall k :: 0 <= k < n ==> s[k] == LETTER
  {
    seq(n, _ => LETTER)
  }

  lemma TypeLetters(l: Line, n: nat)
    requires Proper(l) && |l.text| + n < BUFLEN
    ensures LineKeys(l, Letters(n)) == Line(l.room, l.text + Letters(n), l.stale[n..])
  {
    TypePlain(l, Letters(n));
  }

  /** On a fresh board, 126 letters and the return key: the read returns nothing, and the line is gone. */
  lemma FullLineIsLost()
    ensures var g := Read(Fresh(), Letters(126) + [RETURN], BUFLEN);
            g.Got? && g.data == [] && g.keys == [] && g.ring.start == g.ring.end
  {
    FreshLine();
    TypeLetters(AsLine(Fresh()), 126);
    assert Letters(126) + [RETURN] + [] == Letters(126) + [RETURN];
    LineDeliveredIff(Fresh(), Letters(126), [], BUFLEN);
    var e := LineEntered(Fresh(), Letters(126), []);
  }

  /** A line of letters, as the session sees it. */
  lemma LettersEntered(l: Line, n: nat)
    requires Proper(l) && l.text == [] && n < BUFLEN - 1
    ensures var e := LineEnter(LineKeys(l, Letters(n)));
            e.room == l.room && e.text == Letters(n) + [NEWLINE]
  {
    TypeLetters(l, n);
  }

  /** From an empty line with 127 cells of room, of two lines that do not both fit only the first arrives. */
  lemma SecondLineWraps(l: Line, n: nat, m: nat)
    requires Proper(l) && l.room == BUFLEN && l.text == []
    requires n + 1 < BUFLEN && m + 1 < BUFLEN && BUFLEN <= n + 1 + m + 1
    ensures SessionText(l, [Letters(n), Letters(m)]) == Letters(n) + [NEWLINE]
  {
    LettersEntered(l, n);
    var e := LineEnter(LineKeys(l, Letters(n)));
    var d := Drained(e);
    LettersEntered(d, m);
    assert [Letters(n), Letters(m)][1..] == [Letters(m)];
    assert SessionText(d, [Letters(m)]) == [];
    assert e.text + [] == e.text;
  }

  /** On a fresh board, lines of 60 and 70 letters: only the first ever arrives. */
  lemma SecondLineIsLost()
    ensures var inputs := [Letters(60), Letters(70)];
            var g := Reads(Fresh(), KeysOf(inputs), FullReads(2));
            g.Got? && g.data == Letters(60) + [NEWLINE]
  {
    var inputs := [Letters(60), Letters(70)];
    FreshLine();
    SessionRefines(Fresh(), inputs);
    SecondLineWraps(AsLine(Fresh()), 60, 70);
  }

  lemma LineKeysStep(l: Line, c: byte, rest: seq<byte>)
    requires Proper(l)
    ensures LineKeys(l, [c] + rest) == LineKeys(LineKey(l, c), rest)
  {
    assert ([c] + rest)[1..] == rest;
  }

  /** A letter, a blank, one erased: the stale blank stops `^W` from erasing the letter. */
  lemma WordKeyStopsAtStaleBlank()
    ensures LineKeys(AsLine(Fresh()), [LETTER] + ([BLANK] + ([BS] + ([CTRL_W] + [])))).text == [LETTER]
  {
    FreshLine();
    var l := AsLine(Fresh());
    var a := LineKey(l, LETTER);
    var b := LineKey(a, BLANK);
    var c := LineKey(b, BS);
    LineKeysStep(l, LETTER, [BLANK] + ([BS] + ([CTRL_W] + [])));
    LineKeysStep(a, BLANK, [BS] + ([CTRL_W] + []));
    LineKeysStep(b, BS, [CTRL_W] + []);
    LineKeysStep(c, CTRL_W, []);
    assert b.text == [LETTER, BLANK] && c.text == [LETTER] && c.stale[0] == BLANK;
  }

  // ---------- the board

  class Board {
    var startNdx: nat
    var endNdx: nat
    const buf: array<byte>
    /** Keystrokes that will arrive, and bytes sent. */
    var rx: seq<byte>
    var tx: seq<byte>

    ghost predicate Valid()
      reads this, buf
    {
      Safe(State())
    }

    ghost function State(): Ring
      reads this, buf
    {
      Ring(startNdx, endNdx, buf[..], tx)
    }

    constructor (rx: seq<byte>)
      ensures Valid() && fresh(buf) && this.rx == rx
      ensures startNdx == endNdx == 0 && tx == [] && forall k :: 0 <= k < buf.Length ==> buf[k] == 0
    {
      startNdx, endNdx, this.rx, tx := 0, 0, rx, [];
      buf := new byte[BUFLEN + 1](_ => 0);
    }

    function BufLength(): int
      reads this
    {
      CRem(endNdx - startNdx, BUFLEN)
    }

    method SendBlocking(bytes: seq<byte>)
      requires Valid()
      modifies this`tx
      ensures Valid() && State() == Say(old(State()), bytes)
    {
      tx := tx + bytes;
    }

    method StepBack()
      requires Valid()
      modifies this`endNdx, this`tx
      ensures Valid() && State() == BackUp(old(State()))
    {
      endNdx := DecNdx(endNdx);
      SendBlocking([BS, BLANK, BS]);
    }

    method Insert(c: byte)
      requires Valid()
      modifies this`endNdx, buf
      ensures Valid() && State() == Push(old(State()), c)
    {
      buf[endNdx] := c;
      endNdx := IncNdx(endNdx);
    }

    /** The `^W` loop. */
    method DropWord()
      requires Valid()
      modifies this`endNdx, this`tx
      ensures Valid() && State() == EraseWord(old(State()))
    {
      while BufLength() > 0 && !IsSpace(buf[endNdx])
        invariant Valid() && startNdx == old(startNdx)
        invariant EraseWord(State()) == EraseWord(old(State()))
        decreases endNdx
      {
        StepBack();
      }
    }

    /** The `^U` loop. */
    method DropLine()
      requires Valid()
      modifies this`endNdx, this`tx
      ensures Valid() && State() == EraseLine(old(State()))
    {
      while BufLength() > 0
        invariant Valid() && startNdx == old(startNdx)
        invariant EraseLine(State()) == EraseLine(old(State()))
        decreases endNdx
      {
        StepBack();
      }
    }

    method PressKey(c: byte)
      requires Valid() && c != RETURN
      modifies this`endNdx, this`tx, buf
      ensures Valid() && State() == Key(old(State()), c)
    {
      if c == BS || c == DEL {
        if BufLength() == 0 {
          SendBlocking([BEL]);
        } else {
          StepBack();
        }
      } else if c == CTRL_W {
        DropWord();
      } else if c == CTRL_U {
        DropLine();
      } else if BufLength() == BUFLEN - 1 {
        SendBlocking([BEL]);
      } else {
        Insert(c);
        SendBlocking([c]);
      }
    }

    /** `done` is false for a call that waits for ever because no return key arrives. */
    method GetBufferedLine() returns (done: bool)
      requires Valid()
      modifies this`endNdx, this`tx, this`rx, buf
      ensures Valid()
      ensures match GetLine(old(State()), old(rx))
              case Typing(r) => !done && State() == r
              case Entered(r, rest) => done && State() == r && rx == rest
    {
      if startNdx != endNdx {
        return true;
      }
      while rx != []
        invariant Valid()
        invariant EditLine(State(), rx) == EditLine(old(State()), old(rx))
        decreases |rx|
      {
        var c := rx[0];
        rx := rx[1..];
        if c == RETURN {
          Insert(NEWLINE);
          buf[endNdx] := 0;
          SendBlocking([RETURN, NEWLINE]);
          return true;
        }
        PressKey(c);
      }
      done := false;
    }

    /** The copying loop of `_read`. */
    method CopyOut(ptr: array<byte>, len: int) returns (n: nat)
      requires Valid() && ptr != buf && len <= ptr.Length
      modifies this`startNdx, ptr
      ensures n == if old(startNdx) < endNdx && len > 0 then Min(len, endNdx - old(startNdx)) else 0
      ensures startNdx == old(startNdx) + n && n <= ptr.Length
      ensures forall k :: 0 <= k < n ==> ptr[k] == buf[old(startNdx) + k]
    {
      n := 0;
      var left := len;
      while BufLength() > 0 && left > 0
        invariant startNdx == old(startNdx) + n && (n > 0 ==> startNdx <= endNdx && left >= 0)
        invariant startNdx < BUFLEN && left == len - n && n <= ptr.Length
        invariant forall k :: 0 <= k < n ==> ptr[k] == buf[old(startNdx) + k]
        decreases left
      {
        ptr[n] := buf[startNdx];
        startNdx := IncNdx(startNdx);
        n := n + 1;
        left := left - 1;
      }
    }

    /** -1 for a bad descriptor, else the number of bytes put into `ptr`; `done` as above. */
    method ReadInto(fd: int, ptr: array<byte>, len: int) returns (done: bool, n: int)
      requires Valid() && ptr != buf && len <= ptr.Length
      modifies this, buf, ptr
      ensures Valid()
      ensures fd > 2 ==> done && n == -1 && State() == old(State()) && rx == old(rx)
      ensures fd <= 2 ==>
                match Read(old(State()), old(rx), len)
                case Blocked(r) => !done && State() == r
                case Got(data, r, rest) =>
                  && done && n == |data| <= ptr.Length && ptr[..n] == data
                  && State() == r && rx == rest
    {
      if fd > 2 {
        return true, -1;
      }
      n := 0;
      done := GetBufferedLine();
      if done {
        ghost var r := State();
        n := CopyOut(ptr, len);
        DrainTakes(r, len, n);
        assert buf[..] == r.buf && ptr[..n] == r.buf[r.start..r.start + n];
      }
    }
  }
}
