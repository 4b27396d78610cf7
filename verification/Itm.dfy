/**
 The ITM packet layer: `SWOReader.readinto` strips packet headers and resynchronises on bytes that
 cannot be headers; the buffered reader above it hands out lines.
 */
module Itm {
  import opened Bytes
  import opened Framing

  datatype Packet = Incomplete | Complete(data: seq<byte>, rest: seq<byte>)

  /** The table lookup on the header's size bits. */
  function PayloadSize(header: byte): nat
    requires 1 <= header <= 3
  {
    if header == 3 then 4 else header
  }

  predicate IsHeader(b: byte) {
    !(b > 3 || b % 4 == 0)
  }

  /** What one call of `readinto` takes off the wire.  A byte that is no header stands for itself. */
  function NextPacket(w: seq<byte>): Packet {
    if w == [] then Incomplete
    else if !IsHeader(w[0]) then Complete([w[0]], w[1..])
    else
      var size := PayloadSize(w[0]);
      if |w| < 1 + size then Incomplete else Complete(w[1..1 + size], w[1 + size..])
  }

  /** The data stream that repeated calls of `readinto` deliver. */
  function Decode(w: seq<byte>): seq<byte>
    decreases |w|
  {
    match NextPacket(w)
    case Incomplete => []
    case Complete(data, rest) => data + Decode(rest)
  }

  // ---------- well-formed packets

  predicate WellFormed(payload: seq<byte>) {
    |payload| == 1 || |payload| == 2 || |payload| == 4
  }

  /** A source packet on port 0: the header's low bits encode the payload size. */
  function PacketBytes(payload: seq<byte>): seq<byte>
    requires WellFormed(payload)
  {
    [if |payload| == 4 then 3 else |payload|] + payload
  }

  function Concat(parts: seq<seq<byte>>): seq<byte> {
    if parts == [] then [] else parts[0] + Concat(parts[1..])
  }

  function Packets(payloads: seq<seq<byte>>): seq<byte>
    requires forall p :: p in payloads ==> WellFormed(p)
  {
    if payloads == [] then [] else PacketBytes(payloads[0]) + Packets(payloads[1..])
  }

  lemma DecodePacket(payload: seq<byte>, more: seq<byte>)
    requires WellFormed(payload)
    ensures NextPacket(PacketBytes(payload) + more) == Complete(payload, more)
    ensures Decode(PacketBytes(payload) + more) == payload + Decode(more)
  {
    var w := PacketBytes(payload) + more;
    assert w[1..1 + |payload|] == payload;
    assert w[1 + |payload|..] == more;
  }

  lemma DecodeByte(b: byte, more: seq<byte>)
    requires !IsHeader(b)
    ensures Decode([b] + more) == [b] + Decode(more)
  {
    assert ([b] + more)[1..] == more;
  }

  /** Any sequence of well-formed packets decodes to its payloads, and does not disturb what follows. */
  lemma {:induction false} PacketsRoundTrip(payloads: seq<seq<byte>>, more: seq<byte>)
    requires forall p :: p in payloads ==> WellFormed(p)
    ensures Decode(Packets(payloads) + more) == Concat(payloads) + Decode(more)
  {
    if payloads == [] {
      assert Packets(payloads) + more == more;
    } else {
      var p, rest := payloads[0], payloads[1..];
      PacketsRoundTrip(rest, more);
      Assoc(PacketBytes(p), Packets(rest), more);
      DecodePacket(p, Packets(rest) + more);
      Assoc(p, Concat(rest), Decode(more));
    }
  }

  // ---------- lost headers

  /** `trace_send_blocking` for each byte: header 01 and the byte; `lost` marks the headers that never arrive. */
  function Send(data: seq<byte>, lost: seq<bool>): seq<byte>
    requires |data| == |lost|
  {
    if data == [] then []
    else (if lost[0] then [data[0]] else [1, data[0]]) + Send(data[1..], lost[1..])
  }

  /** No lost header belongs to a byte that itself looks like a header. */
  predicate Recoverable(data: seq<byte>, lost: seq<bool>)
    requires |data| == |lost|
  {
    forall i :: 0 <= i < |data| && lost[i] ==> !IsHeader(data[i])
  }

  /** The decoder recovers the stream, however many such headers are lost. */
  lemma {:induction false} DecodeRecovers(data: seq<byte>, lost: seq<bool>, more: seq<byte>)
    requires |data| == |lost| && Recoverable(data, lost)
    ensures Decode(Send(data, lost) + more) == data + Decode(more)
  {
    if data == [] {
      assert Send(data, lost) + more == more;
    } else {
      var c, rest, sent := data[0], data[1..], Send(data[1..], lost[1..]);
      DecodeRecovers(rest, lost[1..], more);
      if lost[0] {
        Assoc([c], sent, more);
        DecodeByte(c, sent + more);
      } else {
        Assoc([1, c], sent, more);
        assert PacketBytes([c]) == [1, c];
        DecodePacket([c], sent + more);
      }
      Assoc([c], rest, Decode(more));
      assert [c] + rest == data;
    }
  }

  function NoneLost(n: nat): seq<bool> {
    seq(n, _ => false)
  }

  /** The wire when every header arrives. */
  function Frame(data: seq<byte>): seq<byte> {
    Send(data, NoneLost(|data|))
  }

  lemma {:induction false} FrameAppend(a: seq<byte>, b: seq<byte>)
    ensures Frame(a + b) == Frame(a) + Frame(b)
  {
    if a == [] {
      assert a + b == b;
    } else {
      assert (a + b)[1..] == a[1..] + b;
      assert NoneLost(|a + b|)[1..] == NoneLost(|a[1..] + b|);
      assert NoneLost(|a|)[1..] == NoneLost(|a[1..]|);
      FrameAppend(a[1..], b);
    }
  }

  /**
   Whether the loss of the header in front of `data[0]` goes unnoticed: a 1 swallows the next header and so
   passes the loss on to the byte behind it; a 2 or 3, or a 1 at the very end, does damage.
   */
  predicate Survives(data: seq<byte>)
    requires data != []
  {
    if data[0] == 1 then |data| > 1 && Survives(data[1..]) else data[0] != 2 && data[0] != 3
  }

  /** Exactly which single header losses the decoder repairs. */
  lemma {:induction false} SingleLossExact(before: seq<byte>, data: seq<byte>)
    requires data != []
    ensures Decode(Frame(before) + [data[0]] + Frame(data[1..])) == before + data <==> Survives(data)
  {
    var w := [data[0]] + Frame(data[1..]);
    assert Frame(before) + [data[0]] + Frame(data[1..]) == Frame(before) + w;
    DecodeRecovers(before, NoneLost(|before|), w);
    FirstLossExact(data);
    CancelFront(before, Decode(w), data);
  }

  lemma CancelFront(a: seq<byte>, x: seq<byte>, y: seq<byte>)
    ensures a + x == a + y <==> x == y
  {
    assert (a + x)[|a|..] == x && (a + y)[|a|..] == y;
  }

  /** The frame of a non-empty stream starts with a header. */
  lemma FrameStep(data: seq<byte>)
    requires data != []
    ensures Frame(data) == [1, data[0]] + Frame(data[1..])
  {
    assert NoneLost(|data|)[1..] == NoneLost(|data[1..]|);
  }

  lemma DecodeFrame(data: seq<byte>)
    ensures Decode(Frame(data)) == data
  {
    DecodeRecovers(data, NoneLost(|data|), []);
    assert Frame(data) + [] == Frame(data);
  }

  lemma {:induction false} FirstLossExact(data: seq<byte>)
    requires data != []
    ensures Decode([data[0]] + Frame(data[1..])) == data <==> Survives(data)
    decreases |data|
  {
    var c, after := data[0], data[1..];
    var w := [c] + Frame(after);
    assert data == [c] + after;
    if !IsHeader(c) {
      DecodeByte(c, Frame(after));
      DecodeFrame(after);
    } else if after == [] {
      assert w == [c];
    } else {
      FrameStep(after);
      assert w[1] == 1;
      if c == 1 {
        var w' := [after[0]] + Frame(after[1..]);
        assert w == PacketBytes([1]) + w';
        DecodePacket([1], w');
        FirstLossExact(after);
        CancelFront([1], Decode(w'), after);
      } else {
        assert NextPacket(w).Complete? ==> NextPacket(w).data[0] == 1;
      }
    }
  }

  // ---------- the reader

  /** `SWOReader` below a buffered reader: what the socket will still deliver, and what is not yet handed out. */
  class SwoReader {
    var wire: seq<byte>
    var pending: seq<byte>

    constructor (wire: seq<byte>)
      ensures this.wire == wire && pending == []
    {
      this.wire, pending := wire, [];
    }

    /** Everything the readers above will ever see. */
    ghost function Stream(): seq<byte>
      reads this
    {
      pending + Decode(wire)
    }

    /** The socket may deliver fewer bytes than asked for, but delivers some while there are any. */
    method Recv(n: nat) returns (data: seq<byte>)
      requires n > 0
      modifies this`wire
      ensures old(wire) == data + wire && |data| <= n
      ensures old(wire) != [] ==> data != []
    {
      if wire == [] {
        data := [];
      } else {
        var k :| 1 <= k <= n && k <= |wire|;
        data, wire := wire[..k], wire[k..];
      }
    }

    /** The inner receive loop: `size` bytes, in however many pieces; `None` when the wire runs dry first. */
    method RecvAll(size: nat) returns (data: Option<seq<byte>>)
      modifies this`wire
      ensures if |old(wire)| < size then data == None
              else data == Some(old(wire)[..size]) && wire == old(wire)[size..]
    {
      var got := [];
      while |got| < size
        invariant |got| <= size && old(wire) == got + wire
        decreases size - |got|
      {
        var more := Recv(size - |got|);
        if more == [] {
          return None;
        }
        got := got + more;
      }
      data := Some(got);
    }

    /** One packet into `b`; 0 stands for a call that waits for ever because the wire has run dry. */
    method ReadInto(b: array<byte>) returns (n: nat)
      requires b.Length >= 4
      modifies this`wire, b
      ensures match NextPacket(old(wire))
              case Incomplete => n == 0
              case Complete(data, rest) => n == |data| && b[..n] == data && wire == rest && n in {1, 2, 4}
    {
      ghost var w := wire;
      var header := RecvAll(1);
      if header == None {
        return 0;
      }
      if !IsHeader(header.value[0]) {
        b[0] := header.value[0];
        return 1;
      }
      n := PayloadSize(header.value[0]);
      var data := RecvAll(n);
      if data == None {
        return 0;
      }
      for i := 0 to n
        invariant wire == w[1..][n..]
        invariant forall k :: 0 <= k < i ==> b[k] == data.value[k]
      {
        b[i] := data.value[i];
      }
      PacketSlices(w, n);
      assert b[..n] == data.value;
    }

    /** A whole line, newline included; `None` stands for a call that waits for ever. */
    method ReadLine() returns (line: Option<seq<byte>>)
      modifies this
      ensures var s := old(Stream());
              var n := FirstNewline(s);
              if n == |s| then line == None
              else line == Some(s[..n + 1]) && Stream() == s[n + 1..]
    {
      ghost var s := Stream();
      var b := new byte[8192](_ => 0);
      while FirstNewline(pending) == |pending|
        invariant Stream() == s
        invariant fresh(b) && b.Length == 8192
        decreases |wire|
      {
        ghost var before := wire;
        var n := ReadInto(b);
        if n == 0 {
          assert Decode(before) == [] && s == pending;
          return None;
        }
        pending := pending + b[..n];
        assert Decode(before) == b[..n] + Decode(wire);
      }
      var n := FirstNewline(pending);
      LineIsInPending(pending, Decode(wire));
      line := Some(pending[..n + 1]);
      pending := pending[n + 1..];
    }
  }

  lemma PacketSlices(w: seq<byte>, n: nat)
    requires 1 + n <= |w|
    ensures w[1..][..n] == w[1..1 + n] && w[1..][n..] == w[1 + n..]
  {
  }

  lemma LineIsInPending(pending: seq<byte>, coming: seq<byte>)
    requires FirstNewline(pending) < |pending|
    ensures var n := FirstNewline(pending);
            && FirstNewline(pending + coming) == n
            && (pending + coming)[..n + 1] == pending[..n + 1]
            && (pending + coming)[n + 1..] == pending[n + 1..] + coming
  {
    var n := FirstNewline(pending);
    var s := pending + coming;
    AppendSlices(pending, coming, n + 1);
    assert s[n] == NEWLINE && forall k :: 0 <= k < n ==> s[k] == pending[k];
    assert FirstNewline(s) == n;
  }

  /** The header in front of a 2 is lost: the decoder takes the next header and data byte for its payload. */
  lemma LostHeaderDamages()
    ensures Decode([2] + Frame([5])) == [1, 5]
  {
    FrameStep([5]);
    assert [2] + Frame([5]) == PacketBytes([1, 5]) + [];
    DecodePacket([1, 5], []);
  }
}
