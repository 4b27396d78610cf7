/** WASI `fd_write`: a gather write from the application's memory to the console. */
module GatherWrite {
  import opened Bytes

  const NUL: byte := 0
  const FAILURE: word := 0xFFFF
  const UINT32_MAX := 0xFFFF_FFFF

  /** Offset and length in the application's memory, as the application passes them. */
  datatype Iovec = Iovec(offset: word, len: word)

  datatype Outcome = Errno(code: word) | Spins

  // ---------- what reaches the console

  /** Every newline is followed by a carriage return. */
  function Crlf(s: seq<byte>): seq<byte> {
    if s == [] then []
    else (if s[0] == NEWLINE then [NEWLINE, RETURN] else [s[0]]) + Crlf(s[1..])
  }

  /** The length of the string at the front of `s`: up to the first NUL. */
  function NulAt(s: seq<byte>): (n: nat)
    ensures n <= |s| && (n < |s| ==> s[n] == NUL)
    ensures forall k :: 0 <= k < n ==> s[k] != NUL
  {
    if s == [] || s[0] == NUL then 0 else 1 + NulAt(s[1..])
  }

  /** Writing `piece` from its start again until at least `len` bytes are written: what comes out, and the count. */
  function Rewrites(piece: seq<byte>, len: nat, written: nat): (seq<byte>, nat)
    requires piece != []
    decreases len - written
  {
    if written >= len then ([], written)
    else
      var later := Rewrites(piece, len, written + |piece|);
      (Crlf(piece) + later.0, later.1)
  }

  /** Output and byte count, or an endless loop after some output. */
  datatype Emission = Sent(out: seq<byte>, count: nat) | Stuck(out: seq<byte>)

  function EmitOne(d: seq<byte>): Emission {
    if d == [] then Sent([], 0)
    else if NulAt(d) == 0 then Stuck([])
    else var r := Rewrites(d[..NulAt(d)], |d|, 0); Sent(r.0, r.1)
  }

  function Emit(buffers: seq<seq<byte>>): Emission {
    if buffers == [] then Sent([], 0)
    else
      match EmitOne(buffers[0])
      case Stuck(out) => Stuck(out)
      case Sent(out, n) => After(out, n, Emit(buffers[1..]))
  }

  function After(out: seq<byte>, n: nat, later: Emission): Emission {
    match later
    case Sent(more, m) => Sent(out + more, n + m)
    case Stuck(more) => Stuck(out + more)
  }

  // ---------- what the gather write should do

  function Gathered(buffers: seq<seq<byte>>): seq<byte> {
    if buffers == [] then [] else buffers[0] + Gathered(buffers[1..])
  }

  lemma {:induction false} CrlfAppend(a: seq<byte>, b: seq<byte>)
    ensures Crlf(a + b) == Crlf(a) + Crlf(b)
  {
    if a == [] {
      assert a + b == b;
    } else {
      assert (a + b)[0] == a[0] && (a + b)[1..] == a[1..] + b;
      CrlfAppend(a[1..], b);
      Assoc(if a[0] == NEWLINE then [NEWLINE, RETURN] else [a[0]], Crlf(a[1..]), Crlf(b));
    }
  }

  lemma CrlfStep(s: seq<byte>, n: nat)
    requires n < |s|
    ensures Crlf(s[..n + 1]) == Crlf(s[..n]) + if s[n] == NEWLINE then [s[n]] + [RETURN] else [s[n]]
  {
    assert s[..n + 1] == s[..n] + [s[n]];
    CrlfAppend(s[..n], [s[n]]);
  }

  lemma {:induction false} CrlfKeepsNul(s: seq<byte>)
    ensures NUL in Crlf(s) <==> NUL in s
  {
    if s != [] {
      CrlfKeepsNul(s[1..]);
      assert s == [s[0]] + s[1..];
    }
  }

  lemma {:induction false} NulAtAll(s: seq<byte>)
    ensures NulAt(s) == |s| <==> NUL !in s
    ensures NUL !in s[..NulAt(s)]
  {
  }

  lemma {:induction false} RewritesNoNul(piece: seq<byte>, len: nat, written: nat)
    requires piece != [] && NUL !in piece
    ensures NUL !in Rewrites(piece, len, written).0
    decreases len - written
  {
    CrlfKeepsNul(piece);
    if written < len {
      RewritesNoNul(piece, len, written + |piece|);
    }
  }

  /** A buffer without NUL goes out once, whole. */
  lemma EmitWhole(d: seq<byte>)
    requires NUL !in d
    ensures EmitOne(d) == Sent(Crlf(d), |d|)
  {
    NulAtAll(d);
    assert d[..|d|] == d;
    if d != [] {
      assert Rewrites(d, |d|, |d|) == ([], |d|);
      assert Crlf(d) + [] == Crlf(d);
    }
  }

  /** No NUL ever reaches the console, not even from a call that gets stuck. */
  lemma {:induction false} EmitNoNul(buffers: seq<seq<byte>>)
    ensures NUL !in Emit(buffers).out
  {
    if buffers != [] {
      var d := buffers[0];
      NulAtAll(d);
      if NulAt(d) > 0 {
        RewritesNoNul(d[..NulAt(d)], |d|, 0);
      }
      EmitNoNul(buffers[1..]);
    }
  }

  /** A non-empty buffer that starts with a NUL. */
  predicate StartsWithNul(d: seq<byte>) {
    d != [] && d[0] == NUL
  }

  /** The call never returns if and only if some buffer starts with a NUL. */
  lemma {:induction false} StuckIff(buffers: seq<seq<byte>>)
    ensures Emit(buffers).Stuck? <==> exists i :: 0 <= i < |buffers| && StartsWithNul(buffers[i])
  {
    if buffers != [] {
      var d, rest := buffers[0], buffers[1..];
      StuckIff(rest);
      assert EmitOne(d).Stuck? <==> StartsWithNul(d);
      assert forall i :: 0 < i < |buffers| ==> buffers[i] == rest[i - 1];
      if i :| 0 <= i < |rest| && StartsWithNul(rest[i]) {
        assert StartsWithNul(buffers[i + 1]);
      }
    }
  }

  lemma {:induction false} GatheredNul(buffers: seq<seq<byte>>)
    ensures NUL in Gathered(buffers) <==> exists i :: 0 <= i < |buffers| && NUL in buffers[i]
  {
    if buffers != [] {
      GatheredNul(buffers[1..]);
      assert forall i :: 0 < i < |buffers| ==> buffers[i] == buffers[1..][i - 1];
      if i :| 0 <= i < |buffers[1..]| && NUL in buffers[1..][i] {
        assert NUL in buffers[i + 1];
      }
    }
  }

  lemma {:induction false} EmitExact(buffers: seq<seq<byte>>)
    requires forall i :: 0 <= i < |buffers| ==> NUL !in buffers[i]
    ensures Emit(buffers) == Sent(Crlf(Gathered(buffers)), |Gathered(buffers)|)
  {
    if buffers != [] {
      assert NUL !in buffers[0];
      EmitWhole(buffers[0]);
      EmitExact(buffers[1..]);
      CrlfAppend(buffers[0], Gathered(buffers[1..]));
    }
  }

  /** Every buffer once, in order, and the sum of the lengths: if and only if no buffer contains a NUL. */
  lemma GatherExactIff(buffers: seq<seq<byte>>)
    ensures Emit(buffers) == Sent(Crlf(Gathered(buffers)), |Gathered(buffers)|)
            <==> forall i :: 0 <= i < |buffers| ==> NUL !in buffers[i]
  {
    if forall i :: 0 <= i < |buffers| ==> NUL !in buffers[i] {
      EmitExact(buffers);
    } else {
      EmitNoNul(buffers);
      GatheredNul(buffers);
      CrlfKeepsNul(Gathered(buffers));
    }
  }

  /** A letter and a NUL: the letter goes out twice, and two bytes are counted. */
  lemma NulRepeatsTheFront()
    ensures Emit([[65, NUL]]) == Sent([65, 65], 2)
  {
    var d: seq<byte> := [65, NUL];
    assert d[1..] == [NUL] && NulAt([NUL]) == 0 && NulAt(d) == 1 && d[..1] == [65];
    assert [d][1..] == [];
    var piece: seq<byte> := [65];
    assert piece[1..] == [] && Crlf(piece) == piece;
    assert Rewrites(piece, 2, 2) == ([], 2) && Rewrites(piece, 2, 1) == (piece, 2);
    assert Rewrites(piece, 2, 0) == (piece + piece, 2);
  }

  // ---------- output and count, in closed form

  /** `s`, `n` times. */
  function Repeat(s: seq<byte>, n: nat): seq<byte> {
    if n == 0 then [] else s + Repeat(s, n - 1)
  }

  /** The least number of rounds that write at least `|d|` bytes, `NulAt(d)` at a time. */
  ghost predicate Rounds(d: seq<byte>, r: nat) {
    if d == [] then r == 0 else r >= 1 && r * NulAt(d) >= |d| && (r - 1) * NulAt(d) < |d|
  }

  lemma {:induction false} RewritesRounds(piece: seq<byte>, len: nat, done: nat, r: nat)
    requires piece != [] && done <= r && r >= 1
    requires r * |piece| >= len && (r - 1) * |piece| < len
    ensures Rewrites(piece, len, done * |piece|) == (Repeat(Crlf(piece), r - done), r * |piece|)
    decreases r - done
  {
    if done < r {
      Multiples(|piece|, done, r - 1);
      RewritesRounds(piece, len, done + 1, r);
      assert (done + 1) * |piece| == done * |piece| + |piece|;
    }
  }

  lemma Multiples(p: nat, a: nat, b: nat)
    ensures a <= b ==> a * p <= b * p
  {
  }

  /** One buffer: what stands before its first NUL, as often as it takes; the count is what was written. */
  lemma EmitOneClosed(d: seq<byte>, r: nat)
    requires !StartsWithNul(d) && Rounds(d, r)
    ensures EmitOne(d) == Sent(Repeat(Crlf(d[..NulAt(d)]), r), r * NulAt(d))
  {
    if d != [] {
      RewritesRounds(d[..NulAt(d)], |d|, 0, r);
    }
  }

  /** The count exceeds the length exactly when the length is no multiple of what stands before the NUL. */
  lemma CountExceedsIff(d: seq<byte>, r: nat)
    requires d != [] && !StartsWithNul(d) && Rounds(d, r)
    ensures r * NulAt(d) > |d| <==> |d| % NulAt(d) != 0
  {
    ExceedsIff(|d|, NulAt(d), r);
  }

  lemma ExceedsIff(n: nat, p: nat, r: nat)
    requires p > 0 && r >= 1 && r * p >= n && (r - 1) * p < n
    ensures r * p > n <==> n % p != 0
  {
    var q := n / p;
    Division(n, p);
    Multiples(p, q, r);
    if q <= r - 1 {
      Multiples(p, q, r - 1);
    } else {
      Multiples(p, r, q);
    }
    if r * p == n {
      ExactQuotient(n, p, r);
    }
  }

  lemma Division(n: nat, p: nat)
    requires p > 0
    ensures n == n / p * p + n % p && 0 <= n % p < p
  {
  }

  lemma ExactQuotient(n: nat, p: nat, r: nat)
    requires p > 0 && n == r * p
    ensures n % p == 0
  {
    Division(n, p);
    var q := n / p;
    assert (q + 1) * p == q * p + p;
    if q < r {
      Multiples(p, q + 1, r);
    } else {
      Multiples(p, r, q);
    }
  }

  ghost predicate AllRounds(buffers: seq<seq<byte>>, rs: seq<nat>) {
    && |rs| == |buffers|
    && forall i :: 0 <= i < |buffers| ==> !StartsWithNul(buffers[i]) && Rounds(buffers[i], rs[i])
  }

  function AllOutput(buffers: seq<seq<byte>>, rs: seq<nat>): seq<byte>
    requires |rs| == |buffers|
  {
    if buffers == [] then []
    else Repeat(Crlf(buffers[0][..NulAt(buffers[0])]), rs[0]) + AllOutput(buffers[1..], rs[1..])
  }

  function AllCounts(buffers: seq<seq<byte>>, rs: seq<nat>): nat
    requires |rs| == |buffers|
  {
    if buffers == [] then 0 else rs[0] * NulAt(buffers[0]) + AllCounts(buffers[1..], rs[1..])
  }

  /** All buffers in order, and the sum of their counts. */
  lemma {:induction false} EmitClosed(buffers: seq<seq<byte>>, rs: seq<nat>)
    requires AllRounds(buffers, rs)
    ensures Emit(buffers) == Sent(AllOutput(buffers, rs), AllCounts(buffers, rs))
  {
    if buffers != [] {
      assert !StartsWithNul(buffers[0]) && Rounds(buffers[0], rs[0]);
      EmitOneClosed(buffers[0], rs[0]);
      EmitClosed(buffers[1..], rs[1..]);
    }
  }

  /** A call that gets stuck has sent the buffers in front of the one that starts with a NUL, and nothing else. */
  lemma {:induction false} StuckOutput(front: seq<seq<byte>>, d: seq<byte>, more: seq<seq<byte>>)
    requires StartsWithNul(d) && forall i :: 0 <= i < |front| ==> !StartsWithNul(front[i])
    ensures Emit(front).Sent? && Emit(front + [d] + more) == Stuck(Emit(front).out)
  {
    var all := front + [d] + more;
    if front != [] {
      assert !StartsWithNul(front[0]);
      assert all[0] == front[0] && all[1..] == front[1..] + [d] + more;
      StuckOutput(front[1..], d, more);
    } else {
      assert all[0] == d;
    }
  }

  /** Bytes without a newline go out as they are; behind a newline, byte 10, comes a return, byte 13. */
  lemma CrlfLaw(a: seq<byte>, b: seq<byte>)
    ensures (forall k :: 0 <= k < |a| ==> a[k] != 10) ==> Crlf(a) == a
    ensures Crlf(a + [10] + b) == Crlf(a) + [10, 13] + Crlf(b)
  {
    if forall k :: 0 <= k < |a| ==> a[k] != 10 {
      CrlfPlain(a);
    }
    CrlfAppend(a + [10], b);
    CrlfAppend(a, [10]);
    var n: seq<byte> := [10];
    assert n[1..] == [] && Crlf(n) == [10, 13];
  }

  lemma {:induction false} CrlfPlain(a: seq<byte>)
    requires forall k :: 0 <= k < |a| ==> a[k] != 10
    ensures Crlf(a) == a
  {
    if a != [] {
      CrlfPlain(a[1..]);
    }
  }

  // ---------- the board's side

  class Host {
    /** The application's memory, the cell for the byte count, the console output, and live temporary arrays. */
    const mem: seq<byte>
    var cell: word
    var tx: seq<byte>
    var arrays: nat

    constructor (mem: seq<byte>, cell: word)
      ensures this.mem == mem && this.cell == cell && tx == [] && arrays == 0
    {
      this.mem, this.cell, tx, arrays := mem, cell, [], 0;
    }

    /** The runtime's check of an application buffer. */
    predicate InMemory(v: Iovec) {
      v.offset as int + v.len as int <= |mem|
    }

    function Buffer(v: Iovec): seq<byte>
      requires InMemory(v)
    {
      mem[v.offset..v.offset as int + v.len as int]
    }

    function Buffers(iovs: seq<Iovec>): (bs: seq<seq<byte>>)
      requires forall i :: 0 <= i < |iovs| ==> InMemory(iovs[i])
      ensures |bs| == |iovs| && forall i :: 0 <= i < |iovs| ==> bs[i] == Buffer(iovs[i])
    {
      seq(|iovs|, i requires 0 <= i < |iovs| => Buffer(iovs[i]))
    }

    /** `_write`: stops at a NUL. */
    method Write(fd: word, ptr: nat, len: nat) returns (n: int)
      requires ptr + len <= |mem|
      modifies this`tx
      ensures fd > 2 ==> n == -1 && tx == old(tx)
      ensures fd <= 2 ==>
                var d := mem[ptr..ptr + len];
                n == NulAt(d) && tx == old(tx) + Crlf(d[..n])
    {
      if fd > 2 {
        return -1;
      }
      ghost var d := mem[ptr..ptr + len];
      n := 0;
      while n < len && mem[ptr + n] != NUL
        invariant 0 <= n <= NulAt(d)
        invariant tx == old(tx) + Crlf(d[..n])
      {
        var c := mem[ptr + n];
        assert d[n] == c;
        CrlfStep(d, n);
        tx := tx + [c];
        if c == NEWLINE {
          tx := tx + [RETURN];
        }
        n := n + 1;
      }
    }

    /** One buffer, written again from its start until enough bytes have been counted; -1 for an endless loop. */
    method WriteFully(fd: word, v: Iovec) returns (written: int)
      requires (fd == 1 || fd == 2) && InMemory(v) && v.len > 0
      modifies this`tx
      ensures match EmitOne(Buffer(v))
              case Stuck(out) => written == -1 && tx == old(tx) + out
              case Sent(out, n) => written == n && tx == old(tx) + out
    {
      ghost var d := Buffer(v);
      ghost var piece := d[..NulAt(d)];
      written := 0;
      ghost var out := [];
      while written < v.len
        invariant written >= 0 && tx == old(tx) + out && (NulAt(d) == 0 ==> out == [] && written == 0)
        invariant NulAt(d) > 0 ==>
                    && Rewrites(piece, |d|, 0).0 == out + Rewrites(piece, |d|, written).0
                    && Rewrites(piece, |d|, 0).1 == Rewrites(piece, |d|, written).1
        decreases v.len - written
      {
        var n := Write(fd, v.offset, v.len);
        if n == 0 {
          assert Crlf(piece) == [];
          return -1;
        }
        Assoc(out, Crlf(piece), Rewrites(piece, |d|, written + n).0);
        Assoc(old(tx), out, Crlf(piece));
        out := out + Crlf(piece);
        written := written + n;
      }
      assert NulAt(d) > 0 ==> out + [] == out;
    }

    /** One vector: an empty one is skipped. */
    method WriteVector(fd: word, v: Iovec) returns (written: int)
      requires (fd == 1 || fd == 2) && InMemory(v)
      modifies this`tx
      ensures match EmitOne(Buffer(v))
              case Stuck(out) => written == -1 && tx == old(tx) + out
              case Sent(out, n) => written == n && tx == old(tx) + out
    {
      if v.len > 0 {
        written := WriteFully(fd, v);
      } else {
        assert Buffer(v) == [];
        written := 0;
      }
    }

    /** `wasmtime_ssp_fd_write`: `result` is where the byte count would go. */
    method SspFdWrite(fd: word, ciovec: array<Iovec>) returns (o: Outcome, result: word)
      requires forall i :: 0 <= i < ciovec.Length ==> InMemory(ciovec[i])
      modifies this`tx
      ensures fd != 1 && fd != 2 ==> o == Errno(FAILURE) && tx == old(tx)
      ensures fd == 1 || fd == 2 ==>
                match Emit(Buffers(ciovec[..]))
                case Stuck(out) => o == Spins && tx == old(tx) + out
                case Sent(out, n) => o == Errno(0) && tx == old(tx) + out && result == n % 0x1_0000_0000
    {
      if fd != 1 && fd != 2 {
        return Errno(FAILURE), 0;
      }
      ghost var bs := Buffers(ciovec[..]);
      ghost var out := [];
      var len := 0;
      ProgressStart(bs);
      for i := 0 to ciovec.Length
        invariant tx == old(tx) + out && len >= 0
        invariant Emit(bs) == Progress(out, len, bs, i)
      {
        ProgressStep(bs, i, out, len);
        var written := WriteVector(fd, ciovec[i]);
        Assoc(old(tx), out, EmitOne(bs[i]).out);
        out := out + EmitOne(bs[i]).out;
        if written == -1 {
          return Spins, 0;
        }
        len := len + written;
      }
      ProgressEnd(bs, out, len);
      o, result := Errno(0), len % 0x1_0000_0000;
    }

    /**
     `fd_write`: all or nothing, and the temporary array never outlives the call.  The three flags are the
     runtime's answers: whether the count cell and the iovec array are valid, and whether there is memory.
     */
    method FdWrite(fd: word, iovs: seq<Iovec>, cellOk: bool, iovsOk: bool, allocOk: bool) returns (o: Outcome)
      modifies this
      ensures o == Spins <==>
                && cellOk && 8 * |iovs| < 0xFFFF_FFFF && iovsOk && allocOk
                && (forall i :: 0 <= i < |iovs| ==> InMemory(iovs[i])) && (fd == 1 || fd == 2)
                && exists i :: 0 <= i < |iovs| && StartsWithNul(Buffer(iovs[i]))
      ensures var ok := cellOk && 8 * |iovs| < 0xFFFF_FFFF && iovsOk && allocOk
                        && (forall i :: 0 <= i < |iovs| ==> InMemory(iovs[i])) && (fd == 1 || fd == 2);
              if !ok then o == Errno(0xFFFF) && tx == old(tx) && cell == old(cell) && arrays == old(arrays)
              else
                match Emit(Buffers(iovs))
                case Stuck(out) => o == Spins && tx == old(tx) + out && cell == old(cell)
                case Sent(out, n) =>
                  && o == Errno(0) && tx == old(tx) + out && cell == n % 0x1_0000_0000 && arrays == old(arrays)
    {
      if !cellOk || 8 * |iovs| >= UINT32_MAX || !iovsOk {
        return Errno(FAILURE);
      }
      if !allocOk {
        return Errno(FAILURE);
      }
      var ciovec := new Iovec[|iovs|](_ => Iovec(0, 0));
      arrays := arrays + 1;
      o := Errno(FAILURE);
      label fail: {
        for i := 0 to |iovs|
          invariant tx == old(tx) && cell == old(cell) && arrays == old(arrays) + 1 && o == Errno(FAILURE)
          invariant forall k :: 0 <= k < i ==> InMemory(iovs[k]) && ciovec[k] == iovs[k]
        {
          if !InMemory(iovs[i]) {
            break fail;
          }
          ciovec[i] := iovs[i];
        }
        assert ciovec[..] == iovs;
        var n;
        o, n := SspFdWrite(fd, ciovec);
        StuckIff(Buffers(iovs));
        if o == Spins {
          return;
        }
        if o.code != 0 {
          break fail;
        }
        cell := n;
      }
      arrays := arrays - 1;
    }
  }

  /** The emission of all buffers, when those in front of `i` have been sent. */
  function Progress(out: seq<byte>, n: nat, buffers: seq<seq<byte>>, i: nat): Emission
    requires i <= |buffers|
  {
    After(out, n, Emit(buffers[i..]))
  }

  lemma ProgressStart(buffers: seq<seq<byte>>)
    ensures Progress([], 0, buffers, 0) == Emit(buffers)
  {
    assert buffers[0..] == buffers;
    assert [] + Emit(buffers).out == Emit(buffers).out;
  }

  lemma ProgressEnd(buffers: seq<seq<byte>>, out: seq<byte>, n: nat)
    ensures Progress(out, n, buffers, |buffers|) == Sent(out, n)
  {
    assert buffers[|buffers|..] == [] && out + [] == out;
  }

  lemma ProgressStep(buffers: seq<seq<byte>>, i: nat, out: seq<byte>, n: nat)
    requires i < |buffers|
    ensures Progress(out, n, buffers, i)
            == match EmitOne(buffers[i])
               case Stuck(more) => Stuck(out + more)
               case Sent(more, m) => Progress(out + more, n + m, buffers, i + 1)
  {
    assert buffers[i..][0] == buffers[i] && buffers[i..][1..] == buffers[i + 1..];
    match EmitOne(buffers[i])
    case Stuck(_) =>
    case Sent(more, m) =>
      match Emit(buffers[i + 1..])
      case Sent(rest, _) => Assoc(out, more, rest);
      case Stuck(rest) => Assoc(out, more, rest);
  }
}
