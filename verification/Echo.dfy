/** What the user sees: the bytes sent to the USART, interpreted by a one-line terminal. */
module Echo {
  import opened Bytes
  import opened Console

  /** Everything to the right of `cells` is blank. */
  datatype Screen = Screen(cells: seq<byte>, cursor: nat)

  const EMPTY := Screen([], 0)

  function Show(s: Screen, b: byte): Screen {
    if b == BEL then s
    else if b == BS then s.(cursor := if s.cursor > 0 then s.cursor - 1 else 0)
    else if b == RETURN then s.(cursor := 0)
    else if b == NEWLINE then Screen(seq(s.cursor, _ => BLANK), s.cursor)
    else if s.cursor < |s.cells| then Screen(s.cells[s.cursor := b], s.cursor + 1)
    else Screen(s.cells + [b], s.cursor + 1)
  }

  function ShowAll(s: Screen, bytes: seq<byte>): Screen
    decreases |bytes|
  {
    if bytes == [] then s else ShowAll(Show(s, bytes[0]), bytes[1..])
  }

  /** The screen shows exactly `text`, with the cursor behind it. */
  predicate Shows(s: Screen, text: seq<byte>) {
    && s.cursor == |text| <= |s.cells|
    && s.cells[..s.cursor] == text
    && forall k :: s.cursor <= k < |s.cells| ==> s.cells[k] == BLANK
  }

  /** The echo so far shows exactly the line so far. */
  predicate Agrees(r: Ring)
    requires Safe(r)
  {
    Shows(ShowAll(EMPTY, r.tx), AsLine(r).text)
  }

  predicate Printable(c: byte) {
    32 <= c <= 126
  }

  predicate Echoable(c: byte) {
    Printable(c) || c == BS || c == DEL || c == CTRL_W || c == CTRL_U
  }

  /** A 127th byte that the full-buffer test does not catch: it tests for a line that starts at index 0. */
  predicate Overflows(l: Line, c: byte) {
    Printable(c) && |l.text| == BUFLEN - 1 && l.room < BUFLEN
  }

  lemma {:induction false} ShowAppend(s: Screen, a: seq<byte>, b: seq<byte>)
    ensures ShowAll(s, a + b) == ShowAll(ShowAll(s, a), b)
    decreases |a|
  {
    if a == [] {
      assert a + b == b;
    } else {
      assert (a + b)[0] == a[0] && (a + b)[1..] == a[1..] + b;
      ShowAppend(Show(s, a[0]), a[1..], b);
    }
  }

  lemma ShowOne(s: Screen, b: byte)
    ensures ShowAll(s, [b]) == Show(s, b)
  {
  }

  lemma ShowErase(s: Screen)
    ensures ShowAll(s, [BS, BLANK, BS]) == Show(Show(Show(s, BS), BLANK), BS)
  {
    assert [BS, BLANK, BS] == [BS] + ([BLANK] + [BS]);
    ShowAppend(s, [BS], [BLANK] + [BS]);
    ShowAppend(Show(s, BS), [BLANK], [BS]);
  }

  lemma EraseShows(s: Screen, text: seq<byte>)
    requires Shows(s, text) && text != []
    ensures Shows(ShowAll(s, [BS, BLANK, BS]), text[..|text| - 1])
  {
    ShowErase(s);
    var n := |text| - 1;
    assert s.cells[n := BLANK][..n] == s.cells[..n + 1][..n];
  }

  lemma EchoBackUp(r: Ring)
    requires Safe(r) && r.start != r.end && Agrees(r)
    ensures Agrees(BackUp(r))
  {
    ShowAppend(EMPTY, r.tx, [BS, BLANK, BS]);
    EraseShows(ShowAll(EMPTY, r.tx), AsLine(r).text);
    BackUpDropsLast(r);
  }

  lemma {:induction false} EchoEraseWord(r: Ring)
    requires Safe(r) && Agrees(r)
    ensures Agrees(EraseWord(r))
    decreases r.end
  {
    if BufLen(r) > 0 && !IsSpace(r.buf[r.end]) {
      EchoBackUp(r);
      EchoEraseWord(BackUp(r));
    }
  }

  lemma {:induction false} EchoEraseLine(r: Ring)
    requires Safe(r) && Agrees(r)
    ensures Agrees(EraseLine(r))
    decreases r.end
  {
    if BufLen(r) > 0 {
      EchoBackUp(r);
      EchoEraseLine(BackUp(r));
    }
  }

  lemma EchoBell(r: Ring)
    requires Safe(r) && Agrees(r)
    ensures Agrees(Say(r, [BEL]))
  {
    ShowAppend(EMPTY, r.tx, [BEL]);
    ShowOne(ShowAll(EMPTY, r.tx), BEL);
    assert AsLine(Say(r, [BEL])) == AsLine(r);
  }

  lemma PrintShows(s: Screen, text: seq<byte>, c: byte)
    requires Shows(s, text) && Printable(c)
    ensures Shows(Show(s, c), text + [c])
  {
    if s.cursor < |s.cells| {
      assert s.cells[s.cursor := c][..s.cursor + 1] == text + [c];
    } else {
      assert s.cells == text;
    }
  }

  lemma EchoInsert(r: Ring, c: byte)
    requires Safe(r) && Agrees(r) && Printable(c)
    ensures Agrees(Say(Push(r, c), [c])) <==> |AsLine(r).text| < BUFLEN - 1
  {
    ShowAppend(EMPTY, r.tx, [c]);
    ShowOne(ShowAll(EMPTY, r.tx), c);
    PrintShows(ShowAll(EMPTY, r.tx), AsLine(r).text, c);
    PushAppends(r, c);
    assert AsLine(Say(Push(r, c), [c])) == AsLine(Push(r, c));
  }

  /** One keystroke keeps screen and buffer in agreement, if and only if it does not overflow the buffer. */
  lemma EchoKey(r: Ring, c: byte)
    requires Safe(r) && Agrees(r) && Echoable(c)
    ensures Agrees(Key(r, c)) <==> !Overflows(AsLine(r), c)
  {
    LineTests(r);
    if c == BS || c == DEL {
      if BufLen(r) == 0 {
        EchoBell(r);
      } else {
        EchoBackUp(r);
      }
    } else if c == CTRL_W {
      EchoEraseWord(r);
    } else if c == CTRL_U {
      EchoEraseLine(r);
    } else if BufLen(r) == BUFLEN - 1 {
      EchoBell(r);
    } else {
      EchoInsert(r, c);
    }
  }

  predicate NeverOverflows(l: Line, keys: seq<byte>)
    requires Proper(l)
    decreases |keys|
  {
    keys == [] || (!Overflows(l, keys[0]) && NeverOverflows(LineKey(l, keys[0]), keys[1..]))
  }

  predicate AllEchoable(keys: seq<byte>) {
    forall k :: 0 <= k < |keys| ==> Echoable(keys[k])
  }

  /** The echo agrees with the buffer before every keystroke of a line, and after the last. */
  ghost predicate AgreesThroughout(r: Ring, keys: seq<byte>)
    requires Safe(r)
  {
    forall k :: 0 <= k <= |keys| ==> Agrees(EditLine(r, keys[..k]).ring)
  }

  lemma ThroughoutStep(r: Ring, keys: seq<byte>)
    requires Safe(r) && keys != [] && keys[0] != RETURN && Agrees(r)
    ensures AgreesThroughout(r, keys) <==> AgreesThroughout(Key(r, keys[0]), keys[1..])
  {
    var next, rest := Key(r, keys[0]), keys[1..];
    forall k | 0 <= k < |keys| ensures EditLine(r, keys[..k + 1]) == EditLine(next, rest[..k]) {
      assert keys[..k + 1][0] == keys[0] && keys[..k + 1][1..] == rest[..k];
    }
    assert keys[..0] == [];
    if AgreesThroughout(r, keys) {
      forall k | 0 <= k <= |rest| ensures Agrees(EditLine(next, rest[..k]).ring) {
        assert Agrees(EditLine(r, keys[..k + 1]).ring);
      }
    }
    if AgreesThroughout(next, rest) {
      forall k | 0 <= k <= |keys| ensures Agrees(EditLine(r, keys[..k]).ring) {
        assert k > 0 ==> Agrees(EditLine(next, rest[..k - 1]).ring);
      }
    }
  }

  lemma ThroughoutStart(r: Ring, keys: seq<byte>)
    requires Safe(r) && AgreesThroughout(r, keys)
    ensures Agrees(r)
  {
    assert keys[..0] == [] && Agrees(EditLine(r, keys[..0]).ring);
  }

  /** Over whole runs: the screen shows exactly the line at every moment, if and only if no key overflows the buffer. */
  lemma {:induction false} EchoRun(r: Ring, keys: seq<byte>)
    requires Safe(r) && Agrees(r) && AllEchoable(keys)
    ensures AgreesThroughout(r, keys) <==> NeverOverflows(AsLine(r), keys)
    decreases |keys|
  {
    if keys == [] {
      assert keys[..0] == [];
    } else {
      assert Echoable(keys[0]);
      var next, rest := Key(r, keys[0]), keys[1..];
      EchoKey(r, keys[0]);
      KeyRefines(r, keys[0]);
      ThroughoutStep(r, keys);
      if Agrees(next) {
        EchoRun(next, rest);
      } else if AgreesThroughout(next, rest) {
        ThroughoutStart(next, rest);
      }
    }
  }

  /** Fewer keys than free cells cannot overflow. */
  lemma {:induction false} ShortRunsNeverOverflow(l: Line, keys: seq<byte>)
    requires Proper(l) && |l.text| + |keys| < BUFLEN
    ensures NeverOverflows(l, keys)
    decreases |keys|
  {
    if keys != [] {
      ShortRunsNeverOverflow(LineKey(l, keys[0]), keys[1..]);
    }
  }

  /** The return key leaves an empty line, which agrees with the buffer as soon as it has been drained. */
  lemma EchoEnter(r: Ring)
    requires Safe(r) && Agrees(r)
    ensures ShowAll(EMPTY, Enter(r).tx) == EMPTY
    ensures var e := Enter(r); Agrees(e.(start := e.end))
  {
    var s := ShowAll(EMPTY, r.tx);
    assert [RETURN, NEWLINE] == [RETURN] + [NEWLINE];
    ShowAppend(EMPTY, r.tx, [RETURN, NEWLINE]);
    ShowAppend(s, [RETURN], [NEWLINE]);
    ShowOne(s, RETURN);
    ShowOne(Show(s, RETURN), NEWLINE);
  }

  lemma {:induction false} EditOneMore(r: Ring, keys: seq<byte>, c: byte)
    requires Safe(r) && NoReturn(keys) && c != RETURN
    ensures EditLine(r, keys + [c]).ring == Key(EditLine(r, keys).ring, c)
    decreases |keys|
  {
    if keys == [] {
      assert (keys + [c])[0] == c && (keys + [c])[1..] == [];
    } else {
      assert (keys + [c])[0] == keys[0] && (keys + [c])[1..] == keys[1..] + [c];
      EditOneMore(Key(r, keys[0]), keys[1..], c);
    }
  }

  /** A fresh board that has delivered a line of one letter. */
  lemma OneLetterLine() returns (r: Ring)
    ensures Safe(r) && Agrees(r) && AsLine(r).text == [] && AsLine(r).room == BUFLEN - 2
    ensures Read(Fresh(), Letters(1) + [RETURN], BUFLEN) == Got([LETTER, NEWLINE], r, [])
  {
    var f, keys := Fresh(), Letters(1);
    FreshLine();
    assert Agrees(f);
    ShortRunsNeverOverflow(AsLine(f), keys);
    EchoRun(f, keys);
    assert keys[..1] == keys;
    var typed := EditLine(f, keys).ring;
    assert Agrees(typed);
    EchoEnter(typed);
    EditRefines(f, keys, []);
    TypeLetters(AsLine(f), 1);
    var e := LineEntered(f, keys, []);
    assert keys + [RETURN] + [] == keys + [RETURN];
    ReadWhole(f, keys + [RETURN], e, []);
    DrainRefines(e);
    r := e.(start := e.end);
    assert AsLine(e).text == [LETTER, NEWLINE];
  }

  /** A line of 126 letters that does not start at index 0 still agrees; one more does not. */
  lemma OneTooMany(r: Ring, keys: seq<byte>)
    requires Safe(r) && Agrees(r) && AsLine(r).text == [] && AsLine(r).room < BUFLEN
    requires keys == Letters(126)
    ensures Agrees(EditLine(r, keys).ring) && !Agrees(EditLine(r, keys + [LETTER]).ring)
  {
    ShortRunsNeverOverflow(AsLine(r), keys);
    EchoRun(r, keys);
    assert keys[..|keys|] == keys;
    EditRefines(r, keys, []);
    TypeLetters(AsLine(r), 126);
    EchoKey(EditLine(r, keys).ring, LETTER);
    EditOneMore(r, keys, LETTER);
  }

  /** After a first line of one letter, the 127th letter of the second leaves a full screen and an empty buffer. */
  lemma LongSecondLineBreaksEcho() returns (r: Ring)
    ensures Safe(r) && Read(Fresh(), Letters(1) + [RETURN], BUFLEN) == Got([LETTER, NEWLINE], r, [])
    ensures Agrees(EditLine(r, Letters(126)).ring) && !Agrees(EditLine(r, Letters(127)).ring)
  {
    r := OneLetterLine();
    OneTooMany(r, Letters(126));
    assert Letters(127) == Letters(126) + [LETTER];
  }
}
