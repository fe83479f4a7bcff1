/**
  The WebSocket echo endpoint of the browser fixture server: an incremental frame
  decoder over a growing buffer, the unmasking loop and the echo encoder
  (sections 5.2 and 5.3 of RFC 6455).
 */
module WebSocketFrames {
  import opened Wrappers
  import opened Arithmetic

  /** A byte; masking with 0x0f and 0x7f is the remainder by 16 and 128, bit 0x80 is `b >= 128`. */
  type Byte = b: int | 0 <= b < 256
  type Bytes = seq<Byte>

  /** A decoded frame and the number of buffer bytes it occupied. */
  datatype Frame = Frame(opcode: Byte, payload: Bytes, size: nat)

  /** A call on the socket: write an echo, or answer a close frame and end. */
  datatype Event = Wrote(frame: Bytes) | Ended

  /** `len` and `off` as the decoder computes them, and the mask bit. */
  datatype Header = Header(len: nat, off: nat, masked: bool)

  /** One turn of the `data` callback: the events, the bytes kept, and whether a close frame stopped it. */
  datatype Drained = Drained(events: seq<Event>, rest: Bytes, closed: bool)

  const TEXT: Byte := 0x1
  const BINARY: Byte := 0x2
  const CLOSE: Byte := 0x8

  function Pow2(n: nat): (p: nat)
    ensures p > 0
  {
    if n == 0 then 1 else 2 * Pow2(n - 1)
  }

  /** Exclusive or of the low `bits` bits, least significant bit last. */
  function XorBits(a: nat, b: nat, bits: nat): (x: nat)
    ensures x < Pow2(bits)
  {
    if bits == 0 then 0 else 2 * XorBits(a / 2, b / 2, bits - 1) + (a + b) % 2
  }

  lemma XorBitsStep(a: nat, b: nat, bits: nat)
    requires bits > 0
    ensures XorBits(a, b, bits) == 2 * XorBits(a / 2, b / 2, bits - 1) + (a + b) % 2
    ensures a < Pow2(bits) ==> a / 2 < Pow2(bits - 1)
  {
  }

  lemma {:induction false} XorBitsTwice(a: nat, b: nat, bits: nat)
    requires a < Pow2(bits)
    ensures XorBits(XorBits(a, b, bits), b, bits) == a
  {
    if bits > 0 {
      var high, x := XorBits(a / 2, b / 2, bits - 1), XorBits(a, b, bits);
      XorBitsStep(a, b, bits);
      XorBitsStep(x, b, bits);
      hide XorBits;
      hide Pow2;
      LowBit(high, a, b);
      XorBitsTwice(a / 2, b / 2, bits - 1);
    }
  }

  lemma LowBit(high: nat, a: nat, b: nat)
    ensures (2 * high + (a + b) % 2) / 2 == high
    ensures (2 * high + (a + b) % 2 + b) % 2 == a % 2
    ensures 2 * (a / 2) + a % 2 == a
  {
  }

  lemma Halved(x: nat, high: nat, a: nat, b: nat)
    requires x == 2 * high + (a + b) % 2
    ensures x / 2 == high
    ensures x % 2 == 1 <==> (a % 2 == 1 <==> b % 2 != 1)
  {
  }

  lemma EightBits()
    ensures Pow2(8) == 256
  {
    assert Pow2(2) == 4;
    assert Pow2(4) == 4 * Pow2(2);
    assert Pow2(6) == 4 * Pow2(4);
  }

  function Xor(a: Byte, b: Byte): Byte {
    EightBits();
    XorBits(a, b, 8)
  }

  lemma XorTwice(a: Byte, b: Byte)
    ensures Xor(Xor(a, b), b) == a
  {
    EightBits();
    XorBitsTwice(a, b, 8);
  }

  /** Bit `i` of a number, the least significant one first. */
  predicate Bit(x: nat, i: nat) {
    x / Pow2(i) % 2 == 1
  }

  lemma BitOfHalf(x: nat, i: nat)
    ensures Bit(x, 0) <==> x % 2 == 1
    ensures Bit(x, i + 1) <==> Bit(x / 2, i)
  {
    var q := Pow2(i);
    assert Pow2(i + 1) == 2 * q;
    hide Pow2;
    DivMod(x, 2);
    DivMod(x / 2, q);
    var k, r := x / 2 / q, x / 2 % q;
    DoubleQuotient(x, q, k, r);
  }

  lemma DoubleQuotient(x: nat, q: nat, k: nat, r: nat)
    requires x / 2 == q * k + r && r < q
    ensures x / (2 * q) == k
  {
    var d := 2 * q;
    assert x == d * k + (2 * r + x % 2) by {
      DivMod(x, 2);
      MulAssociative(2, q, k);
    }
    QuotientUnique(k, 2 * r + x % 2, d);
  }

  lemma {:induction false} XorBitsAt(a: nat, b: nat, bits: nat, i: nat)
    requires i < bits
    ensures Bit(XorBits(a, b, bits), i) <==> (Bit(a, i) <==> !Bit(b, i))
  {
    var high, x := XorBits(a / 2, b / 2, bits - 1), XorBits(a, b, bits);
    XorBitsStep(a, b, bits);
    hide XorBits;
    Halved(x, high, a, b);
    hide Bit;
    if i == 0 {
      BitOfHalf(x, 0);
      BitOfHalf(a, 0);
      BitOfHalf(b, 0);
    } else {
      BitOfHalf(x, i - 1);
      BitOfHalf(a, i - 1);
      BitOfHalf(b, i - 1);
      XorBitsAt(a / 2, b / 2, bits - 1, i - 1);
    }
  }

  /** Exclusive or, bit by bit: a bit of the result is set iff it is set in exactly one of the two bytes. */
  lemma XorExactly(a: Byte, b: Byte, i: nat)
    requires i < 8
    ensures Bit(Xor(a, b), i) <==> (Bit(a, i) <==> !Bit(b, i))
  {
    EightBits();
    XorBitsAt(a, b, 8, i);
  }

  // ----- big-endian integers -----

  function Pow256(n: nat): (p: nat)
    ensures p > 0
  {
    if n == 0 then 1 else 256 * Pow256(n - 1)
  }

  function ReadUInt(bytes: Bytes): nat {
    if bytes == [] then 0 else 256 * ReadUInt(bytes[..|bytes| - 1]) + bytes[|bytes| - 1]
  }

  function WriteUInt(n: nat, width: nat): (bytes: Bytes)
    ensures |bytes| == width
  {
    if width == 0 then [] else WriteUInt(n / 256, width - 1) + [n % 256]
  }

  lemma {:induction false} ReadWrite(n: nat, width: nat)
    requires n < Pow256(width)
    ensures ReadUInt(WriteUInt(n, width)) == n
  {
    if width > 0 {
      ReadWrite(n / 256, width - 1);
      var bytes := WriteUInt(n, width);
      assert bytes[..|bytes| - 1] == WriteUInt(n / 256, width - 1);
    }
  }

  /** Big-endian: byte `k` holds the digit of weight 256 to the power of the number of bytes after it. */
  lemma {:induction false} WrittenByte(n: nat, width: nat, k: nat)
    requires k < width
    ensures WriteUInt(n, width)[k] == n / Pow256(width - 1 - k) % 256
  {
    if k < width - 1 {
      WrittenByte(n / 256, width - 1, k);
      var w := Pow256(width - 2 - k);
      assert Pow256(width - 1 - k) == 256 * w;
      assert WriteUInt(n, width)[k] == WriteUInt(n / 256, width - 1)[k];
      hide WriteUInt;
      hide Pow256;
      QuotientTwice(n, w);
    }
  }

  lemma QuotientTwice(n: nat, w: nat)
    requires w > 0
    ensures n / 256 / w == n / (256 * w)
  {
    var k, r := n / 256 / w, n / 256 % w;
    DivMod(n, 256);
    DivMod(n / 256, w);
    assert n == 256 * w * k + (256 * r + n % 256) by { MulAssociative(256, w, k); }
    QuotientUnique(k, 256 * r + n % 256, 256 * w);
  }

  lemma {:induction false} ReadBound(bytes: Bytes)
    ensures ReadUInt(bytes) < Pow256(|bytes|)
  {
    if bytes != [] {
      ReadBound(bytes[..|bytes| - 1]);
    }
  }

  lemma Pow256Values()
    ensures Pow256(2) == 65536
    ensures Pow256(8) == 0x1_0000_0000_0000_0000
  {
    assert Pow256(1) == 256;
    assert Pow256(3) == 256 * Pow256(2);
    assert Pow256(4) == 256 * Pow256(3);
    assert Pow256(5) == 256 * Pow256(4);
    assert Pow256(6) == 256 * Pow256(5);
    assert Pow256(7) == 256 * Pow256(6);
  }

  // ----- decoding -----

  /** The length field, or nothing while the header itself is incomplete. */
  function DecodeHeader(buf: Bytes): Option<Header> {
    if |buf| < 2 then None
    else
      var short := buf[1] % 128;
      var masked := buf[1] >= 128;
      if short == 126 then
        if |buf| < 4 then None else Some(Header(ReadUInt(buf[2..4]), 4, masked))
      else if short == 127 then
        if |buf| < 10 then None else Some(Header(ReadUInt(buf[2..10]), 10, masked))
      else
        Some(Header(short, 2, masked))
  }

  function Unmask(payload: Bytes, mask: Bytes): (out: Bytes)
    requires |mask| == 4
    ensures |out| == |payload|
    ensures forall i :: 0 <= i < |payload| ==> out[i] == Xor(payload[i], mask[i % 4])
  {
    seq(|payload|, i requires 0 <= i < |payload| => Xor(payload[i], mask[i % 4]))
  }

  /** The first frame of the buffer, or nothing while it is incomplete; a frame always shrinks the buffer. */
  function DecodeFrame(buf: Bytes): (r: Option<Frame>)
    ensures r.Some? ==> 2 <= r.value.size <= |buf| && r.value.opcode < 16
  {
    match DecodeHeader(buf)
    case None => None
    case Some(h) =>
      var start := h.off + if h.masked then 4 else 0;
      if |buf| < start + h.len then None
      else
        var raw := buf[start..start + h.len];
        var payload := if h.masked then Unmask(raw, buf[h.off..h.off + 4]) else raw;
        Some(Frame(buf[0] % 16, payload, start + h.len))
  }

  /** The server frame: unmasked, final, with the length encoding the encoder picks. */
  function EchoFrame(opcode: Byte, payload: Bytes): Bytes {
    EchoHeader(opcode, |payload|) + payload
  }

  /** `0x80 | opcode` */
  function Final(opcode: Byte): Byte {
    if opcode < 128 then 128 + opcode else opcode
  }

  function EchoHeader(opcode: Byte, len: nat): Bytes {
    if len < 126 then [Final(opcode), len]
    else if len < 65536 then [Final(opcode), 126] + WriteUInt(len, 2)
    else [Final(opcode), 127] + WriteUInt(len, 8)
  }

  function Answer(f: Frame): seq<Event> {
    if f.opcode == TEXT || f.opcode == BINARY then [Wrote(EchoFrame(f.opcode, f.payload))] else []
  }

  /** Everything one callback does with the buffer it sees. */
  function Drain(buf: Bytes): Drained
    decreases |buf|
  {
    match DecodeFrame(buf)
    case None => Drained([], buf, false)
    case Some(f) =>
      if f.opcode == CLOSE then Drained([Ended], buf[f.size..], true)
      else
        var d := Drain(buf[f.size..]);
        d.(events := Answer(f) + d.events)
  }

  // ----- the socket -----

  /** `end` half-closes the socket; a call after that sends nothing and destroys it. */
  datatype Connection = Open | HalfClosed | Destroyed

  /** The bytes the socket has taken for sending, and its state. */
  datatype Socket = Socket(sent: Bytes, state: Connection)

  /** The answer to a close frame. */
  const CLOSE_ANSWER: Bytes := [0x88, 0x00]

  function Payload(e: Event): Bytes {
    match e
    case Wrote(frame) => frame
    case Ended => CLOSE_ANSWER
  }

  function Call(k: Socket, e: Event): Socket {
    match k.state
    case Open => Socket(k.sent + Payload(e), if e == Ended then HalfClosed else Open)
    case HalfClosed => k.(state := Destroyed)
    case Destroyed => k
  }

  function Calls(k: Socket, events: seq<Event>): Socket
    decreases |events|
  {
    if events == [] then k else Calls(Call(k, events[0]), events[1..])
  }

  /** The closure variable and the socket of one upgraded connection. */
  datatype Endpoint = Endpoint(buf: Bytes, socket: Socket)

  const UPGRADED := Endpoint([], Socket([], Open))

  /** A `data` event; a destroyed socket delivers none. */
  function Receive(e: Endpoint, chunk: Bytes): Endpoint {
    if e.socket.state == Destroyed then e
    else
      var d := Drain(e.buf + chunk);
      Endpoint(d.rest, Calls(e.socket, d.events))
  }

  function Converse(e: Endpoint, chunks: seq<Bytes>): Endpoint
    decreases |chunks|
  {
    if chunks == [] then e else Converse(Receive(e, chunks[0]), chunks[1..])
  }

  lemma {:induction false} CallsConcat(k: Socket, a: seq<Event>, b: seq<Event>)
    ensures Calls(k, a + b) == Calls(Calls(k, a), b)
    decreases |a|
  {
    hide Call;
    if a == [] {
      assert a + b == b;
    } else {
      assert (a + b)[1..] == a[1..] + b;
      CallsConcat(Call(k, a[0]), a[1..], b);
    }
  }

  // ----- the callback -----

  /** One upgraded socket: the closure variable `buf`, and what its calls have made of the socket. */
  class EchoSocket {
    var buf: Bytes
    var sent: Bytes
    var state: Connection

    ghost function Connected(): Endpoint
      reads this
    {
      Endpoint(buf, Socket(sent, state))
    }

    constructor ()
      ensures Connected() == UPGRADED
    {
      buf, sent, state := [], [], Open;
    }

    /** The socket's side of `write` and `end`. */
    method Perform(e: Event)
      modifies this`sent, this`state
      ensures Connected() == Endpoint(buf, Call(old(Connected()).socket, e))
    {
      if state == Open {
        sent := sent + Payload(e);
        state := if e == Ended then HalfClosed else Open;
      } else {
        state := Destroyed;
      }
    }

    /** The unmasking loop fills a fresh buffer by index. */
    method UnmaskInto(payload: Bytes, mask: Bytes) returns (unmasked: array<Byte>)
      requires |mask| == 4
      ensures fresh(unmasked)
      ensures unmasked[..] == Unmask(payload, mask)
    {
      unmasked := new Byte[|payload|](_ => 0);
      var i := 0;
      while i < |payload|
        invariant 0 <= i <= |payload|
        invariant forall k :: 0 <= k < i ==> unmasked[k] == Xor(payload[k], mask[k % 4])
      {
        unmasked[i] := Xor(payload[i], mask[i % 4]);
        i := i + 1;
      }
    }

    /** `writeUInt16BE` and `writeBigUInt64BE`: the length behind the two leading header bytes. */
    method WriteLength(header: array<Byte>, len: nat)
      requires header.Length >= 2
      modifies header
      ensures header[..2] == old(header[..2])
      ensures header[2..] == WriteUInt(len, header.Length - 2)
    {
      var width := header.Length - 2;
      var n, i := len, width;
      while i > 0
        invariant 0 <= i <= width
        invariant header[..2] == old(header[..2])
        invariant WriteUInt(n, i) + header[2 + i..] == WriteUInt(len, width)
      {
        ghost var done := header[2 + i..];
        header[1 + i] := n % 256;
        assert header[1 + i..] == [n % 256] + done;
        assert WriteUInt(n, i) + done == WriteUInt(n / 256, i - 1) + ([n % 256] + done);
        n, i := n / 256, i - 1;
      }
    }

    method EncodeHeader(opcode: Byte, len: nat) returns (header: array<Byte>)
      ensures fresh(header)
      ensures header[..] == EchoHeader(opcode, len)
    {
      if len < 126 {
        header := new Byte[2](_ => 0);
        header[0] := Final(opcode);
        header[1] := len;
      } else {
        header := new Byte[if len < 65536 then 4 else 10](_ => 0);
        header[0] := Final(opcode);
        header[1] := if len < 65536 then 126 else 127;
        WriteLength(header, len);
        assert header[..] == header[..2] + header[2..];
      }
    }

    /** The first half of a loop turn: cut the next complete frame off the buffer. */
    method TakeFrame() returns (r: Option<Frame>)
      modifies this`buf
      ensures r == DecodeFrame(old(buf))
      ensures buf == if r.Some? then old(buf)[r.value.size..] else old(buf)
    {
      hide Unmask;
      if |buf| < 2 { return None; }
      var opcode := buf[0] % 16;
      var len, off := buf[1] % 128, 2;
      if len == 126 {
        if |buf| < 4 { return None; }
        len, off := ReadUInt(buf[2..4]), 4;
      } else if len == 127 {
        if |buf| < 10 { return None; }
        len, off := ReadUInt(buf[2..10]), 10;
      }
      var masked := buf[1] >= 128;
      var payloadStart := off + if masked then 4 else 0;
      if |buf| < payloadStart + len { return None; }
      var payload := buf[payloadStart..payloadStart + len];
      if masked {
        var unmasked := UnmaskInto(payload, buf[off..off + 4]);
        payload := unmasked[..];
      }
      buf := buf[payloadStart + len..];
      r := Some(Frame(opcode, payload, payloadStart + len));
    }

    /** One turn of the loop; it goes on unless the frame was incomplete or a close. */
    method Turn() returns (more: bool)
      modifies this
      ensures var f := DecodeFrame(old(buf));
              if f.None? then !more && Connected() == old(Connected())
              else if f.value.opcode == CLOSE then
                !more && Connected() == Endpoint(old(buf)[f.value.size..], Call(old(Connected()).socket, Ended))
              else
                more && Connected() == Endpoint(old(buf)[f.value.size..], Calls(old(Connected()).socket, Answer(f.value)))
    {
      hide DecodeFrame;
      hide EchoHeader;
      hide Call;
      var next := TakeFrame();
      if next.None? { return false; }
      var f := next.value;
      if f.opcode == CLOSE {
        Perform(Ended);
        return false;
      }
      if f.opcode == TEXT || f.opcode == BINARY {
        var header := EncodeHeader(f.opcode, |f.payload|);
        Perform(Wrote(header[..] + f.payload));
        assert Answer(f)[1..] == [];
      }
      more := true;
    }

    method OnData(chunk: Bytes)
      modifies this
      ensures var d := Drain(old(buf) + chunk);
              Connected() == Endpoint(d.rest, Calls(old(Connected()).socket, d.events))
    {
      hide DecodeFrame;
      hide Drain;
      hide Calls;
      hide Call;
      ghost var k := Connected().socket;
      buf := buf + chunk;
      ghost var d := Drain(buf);
      var more := true;
      while more
        invariant more ==> d.rest == Drain(buf).rest && Calls(k, d.events) == Calls(Connected().socket, Drain(buf).events)
        invariant !more ==> Connected() == Endpoint(d.rest, Calls(k, d.events))
        decreases more, |buf|
      {
        DrainTurn(buf);
        TurnCalls(Connected().socket, buf);
        more := Turn();
      }
    }
  }

  /** What one turn takes off a drain is what it does to the socket. */
  lemma TurnCalls(k: Socket, buf: Bytes)
    ensures var f := DecodeFrame(buf);
            if f.None? then Calls(k, Drain(buf).events) == k
            else if f.value.opcode == CLOSE then Calls(k, Drain(buf).events) == Call(k, Ended)
            else Calls(k, Drain(buf).events) == Calls(Calls(k, Answer(f.value)), Drain(buf[f.value.size..]).events)
  {
    hide DecodeFrame;
    hide Call;
    hide Answer;
    if DecodeFrame(buf).Some? {
      var f := DecodeFrame(buf).value;
      if f.opcode == CLOSE {
        assert Drain(buf).events == [Ended] && [Ended][1..] == [];
      } else {
        CallsConcat(k, Answer(f), Drain(buf[f.size..]).events);
      }
    }
  }

  lemma DecodeTurn(buf: Bytes)
    ensures DecodeHeader(buf).None? ==> DecodeFrame(buf).None?
    ensures DecodeHeader(buf).Some? ==>
              var h := DecodeHeader(buf).value;
              var start := h.off + if h.masked then 4 else 0;
              DecodeFrame(buf) ==
                if |buf| < start + h.len then None
                else
                  var raw := buf[start..start + h.len];
                  Some(Frame(buf[0] % 16, if h.masked then Unmask(raw, buf[h.off..h.off + 4]) else raw, start + h.len))
  {
  }

  lemma DrainTurn(buf: Bytes)
    ensures DecodeFrame(buf).None? ==> Drain(buf) == Drained([], buf, false)
    ensures DecodeFrame(buf).Some? ==>
              var f := DecodeFrame(buf).value;
              var next := Drain(buf[f.size..]);
              Drain(buf) ==
                if f.opcode == CLOSE then Drained([Ended], buf[f.size..], true)
                else next.(events := Answer(f) + next.events)
  {
  }

  // ----- chunking -----

  function Concat(chunks: seq<Bytes>): Bytes {
    if chunks == [] then [] else chunks[0] + Concat(chunks[1..])
  }

  /** The calls of one callback per chunk, whatever became of the socket, and the bytes kept. */
  function Run(buf: Bytes, chunks: seq<Bytes>): (seq<Event>, Bytes)
    decreases |chunks|
  {
    if chunks == [] then ([], buf)
    else
      var d := Drain(buf + chunks[0]);
      var (events, rest) := Run(d.rest, chunks[1..]);
      (d.events + events, rest)
  }

  /** The events up to and including the first close answer. */
  function UpToClose(events: seq<Event>): seq<Event> {
    if events == [] then []
    else if events[0] == Ended then [Ended]
    else [events[0]] + UpToClose(events[1..])
  }

  lemma DecodeFrameAppend(a: Bytes, b: Bytes)
    requires DecodeFrame(a).Some?
    ensures DecodeFrame(a + b) == DecodeFrame(a)
    ensures (a + b)[DecodeFrame(a).value.size..] == a[DecodeFrame(a).value.size..] + b
  {
    hide DecodeFrame;
    hide Unmask;
    DecodeTurn(a);
    DecodeTurn(a + b);
    var h := DecodeHeader(a).value;
    if h.off == 4 { SliceOfConcat(a, b, 2, 4); }
    if h.off == 10 { SliceOfConcat(a, b, 2, 10); }
    assert DecodeHeader(a + b) == Some(h);
    var start := h.off + if h.masked then 4 else 0;
    SliceOfConcat(a, b, start, start + h.len);
    if h.masked { SliceOfConcat(a, b, h.off, h.off + 4); }
    SliceOfConcat(a, b, start + h.len, |a|);
  }

  lemma SliceOfConcat(a: Bytes, b: Bytes, i: nat, j: nat)
    requires i <= j <= |a|
    ensures (a + b)[i..j] == a[i..j]
    ensures (a + b)[i..] == a[i..] + b
  {
  }

  /** Bytes that arrive later change neither the events so far nor where a close frame stops. */
  lemma {:induction false} DrainAppend(a: Bytes, b: Bytes)
    ensures Drain(a).closed ==> Drain(a + b) == Drain(a).(rest := Drain(a).rest + b)
    ensures !Drain(a).closed ==>
              var later := Drain(Drain(a).rest + b);
              Drain(a + b) == later.(events := Drain(a).events + later.events)
    decreases |a|
  {
    hide DecodeFrame;
    hide Answer;
    if DecodeFrame(a).Some? {
      var f := DecodeFrame(a).value;
      DecodeFrameAppend(a, b);
      if f.opcode != CLOSE {
        var next := a[f.size..];
        DrainAppend(next, b);
        assert Drain(a) == Drain(next).(events := Answer(f) + Drain(next).events);
        assert Drain(a + b) == Drain(next + b).(events := Answer(f) + Drain(next + b).events);
      }
    }
  }

  lemma {:induction false} DrainEvents(buf: Bytes)
    ensures UpToClose(Drain(buf).events) == Drain(buf).events
    ensures Drain(buf).closed <==> Ended in Drain(buf).events
    decreases |buf|
  {
    hide DecodeFrame;
    hide EchoFrame;
    if DecodeFrame(buf).Some? && DecodeFrame(buf).value.opcode != CLOSE {
      var f := DecodeFrame(buf).value;
      DrainEvents(buf[f.size..]);
      UpToCloseConcat(Answer(f), Drain(buf[f.size..]).events);
    }
  }

  lemma UpToCloseStep(e: Event, rest: seq<Event>)
    ensures UpToClose([e] + rest) == if e == Ended then [Ended] else [e] + UpToClose(rest)
  {
    assert ([e] + rest)[1..] == rest;
  }

  lemma Associative(a: seq<Event>, b: seq<Event>, c: seq<Event>)
    ensures a + b + c == a + (b + c)
  {
  }

  lemma {:induction false} UpToCloseConcat(a: seq<Event>, b: seq<Event>)
    ensures UpToClose(a + b) == if Ended in a then UpToClose(a) else a + UpToClose(b)
  {
    if a == [] {
      assert a + b == b;
    } else {
      var e, rest := a[0], a[1..];
      UpToCloseStep(e, rest);
      UpToCloseStep(e, rest + b);
      UpToCloseConcat(rest, b);
      hide UpToClose;
      assert a == [e] + rest;
      Associative([e], rest, b);
      Associative([e], rest, UpToClose(b));
    }
  }

  lemma {:induction false} RunFrom(buf: Bytes, chunks: seq<Bytes>)
    requires chunks != []
    ensures UpToClose(Run(buf, chunks).0) == Drain(buf + Concat(chunks)).events
    ensures !Drain(buf + Concat(chunks)).closed ==>
              Run(buf, chunks) == (Drain(buf + Concat(chunks)).events, Drain(buf + Concat(chunks)).rest)
    decreases |chunks|
  {
    hide DecodeFrame;
    var a, later := buf + chunks[0], Concat(chunks[1..]);
    var d := Drain(a);
    assert buf + Concat(chunks) == a + later;
    DrainAppend(a, later);
    DrainEvents(a);
    UpToCloseConcat(d.events, Run(d.rest, chunks[1..]).0);
    if chunks[1..] == [] {
      assert a + later == a;
      assert Run(d.rest, chunks[1..]) == ([], d.rest);
    } else {
      RunFrom(d.rest, chunks[1..]);
    }
  }

  /**
    For every byte stream and every split of it into chunks, the calls up to and including the first
    close answer are those of one callback over the whole stream, and a stream without a close frame
    also leaves the same residual buffer.
   */
  lemma ChunkingIrrelevant(chunks: seq<Bytes>)
    ensures UpToClose(Run([], chunks).0) == Drain(Concat(chunks)).events
    ensures !Drain(Concat(chunks)).closed ==>
              Run([], chunks) == (Drain(Concat(chunks)).events, Drain(Concat(chunks)).rest)
  {
    if chunks == [] {
      assert DecodeFrame([]).None?;
    } else {
      assert [] + Concat(chunks) == Concat(chunks);
      RunFrom([], chunks);
    }
  }

  // ----- what reaches the peer -----

  function Wire(events: seq<Event>): Bytes {
    if events == [] then [] else Payload(events[0]) + Wire(events[1..])
  }

  /** What the calls after the first close answer do: the first of them destroys the socket. */
  lemma {:induction false} CallsAfterEnd(k: Socket, events: seq<Event>)
    requires k.state != Open
    ensures Calls(k, events).sent == k.sent
    ensures Calls(k, events).state == if events == [] then k.state else Destroyed
    decreases |events|
  {
    if events != [] { CallsAfterEnd(Call(k, events[0]), events[1..]); }
  }

  lemma {:induction false} SentFromOpen(k: Socket, events: seq<Event>)
    requires k.state == Open
    ensures Calls(k, events).sent == k.sent + Wire(UpToClose(events))
    decreases |events|
  {
    hide Payload;
    if events != [] {
      var e, rest := events[0], events[1..];
      if e == Ended {
        CallsAfterEnd(Call(k, e), rest);
        assert Wire([Ended]) == Payload(Ended) + Wire([Ended][1..]) == Payload(Ended);
      } else {
        SentFromOpen(Call(k, e), rest);
        var cut := UpToClose(events);
        assert cut[0] == e && cut[1..] == UpToClose(rest);
        assert k.sent + Payload(e) + Wire(cut[1..]) == k.sent + (Payload(e) + Wire(cut[1..]));
      }
    }
  }

  lemma {:induction false} StateFromOpen(k: Socket, events: seq<Event>)
    requires k.state == Open
    ensures Calls(k, events).state ==
            if Ended !in events then Open else if UpToClose(events) == events then HalfClosed else Destroyed
    decreases |events|
  {
    hide Payload;
    if events != [] {
      var e, rest := events[0], events[1..];
      assert events == [e] + rest;
      if e == Ended {
        CallsAfterEnd(Call(k, e), rest);
      } else {
        StateFromOpen(Call(k, e), rest);
        assert UpToClose(events)[1..] == UpToClose(rest);
      }
    }
  }

  /** That a destroyed socket hears no more makes no difference: its calls would do nothing. */
  lemma {:induction false} ConverseCalls(e: Endpoint, chunks: seq<Bytes>)
    ensures Converse(e, chunks).socket == Calls(e.socket, Run(e.buf, chunks).0)
    decreases |chunks|
  {
    hide Drain;
    hide Call;
    if e.socket.state == Destroyed {
      CallsAfterEnd(e.socket, Run(e.buf, chunks).0);
      DestroyedStays(e, chunks);
    } else if chunks != [] {
      var d := Drain(e.buf + chunks[0]);
      CallsConcat(e.socket, d.events, Run(d.rest, chunks[1..]).0);
      ConverseCalls(Receive(e, chunks[0]), chunks[1..]);
    }
  }

  lemma {:induction false} DestroyedStays(e: Endpoint, chunks: seq<Bytes>)
    requires e.socket.state == Destroyed
    ensures Converse(e, chunks) == e
  {
    if chunks != [] { DestroyedStays(e, chunks[1..]); }
  }

  /**
    For every byte stream and every split of it into chunks, the bytes sent are the same: those of one
    callback over the whole stream. A close frame makes no exception, for nothing is sent after its
    answer.
   */
  lemma SentIsIndependentOfChunking(chunks: seq<Bytes>)
    ensures Converse(UPGRADED, chunks).socket.sent == Wire(Drain(Concat(chunks)).events)
    ensures Converse(UPGRADED, chunks).socket.state == Open <==> !Drain(Concat(chunks)).closed
  {
    hide Drain;
    hide Run;
    hide Calls;
    ConverseCalls(UPGRADED, chunks);
    SentFromOpen(UPGRADED.socket, Run([], chunks).0);
    StateFromOpen(UPGRADED.socket, Run([], chunks).0);
    ChunkingIrrelevant(chunks);
    DrainEvents(Concat(chunks));
    ClosedBefore(Run([], chunks).0);
  }

  lemma {:induction false} ClosedBefore(events: seq<Event>)
    ensures Ended in UpToClose(events) <==> Ended in events
  {
    if events != [] {
      assert events == [events[0]] + events[1..];
      ClosedBefore(events[1..]);
    }
  }

  /** Whether every split of the stream leaves the socket in the state one callback would leave it in. */
  ghost predicate StateIndependentOfChunking(stream: Bytes) {
    forall chunks :: Concat(chunks) == stream ==>
      Converse(UPGRADED, chunks).socket.state == Calls(UPGRADED.socket, Drain(stream).events).state
  }

  /** Nothing answerable follows the first close frame. */
  predicate QuietAfterClose(stream: Bytes) {
    Drain(stream).closed ==> Drain(Drain(stream).rest).events == []
  }

  lemma {:induction false} QuietRun(buf: Bytes, chunks: seq<Bytes>)
    requires Drain(buf + Concat(chunks)).events == []
    ensures Run(buf, chunks).0 == []
    decreases |chunks|
  {
    hide DecodeFrame;
    if chunks != [] {
      RunFrom(buf, chunks);
      DrainEvents(buf + Concat(chunks));
    }
  }

  lemma {:induction false} QuietRunFrom(buf: Bytes, chunks: seq<Bytes>)
    requires chunks != []
    requires QuietAfterClose(buf + Concat(chunks))
    ensures Run(buf, chunks).0 == Drain(buf + Concat(chunks)).events
    decreases |chunks|
  {
    hide DecodeFrame;
    var a, later := buf + chunks[0], Concat(chunks[1..]);
    var d := Drain(a);
    assert buf + Concat(chunks) == a + later;
    DrainAppend(a, later);
    if d.closed {
      QuietRun(d.rest, chunks[1..]);
    } else if chunks[1..] == [] {
      assert a + later == a;
    } else {
      QuietRunFrom(d.rest, chunks[1..]);
    }
  }

  /** The bytes of a stream up to the end of its first close frame are a stream of their own. */
  lemma {:induction false} CutAtClose(stream: Bytes)
    requires Drain(stream).closed
    ensures |Drain(stream).rest| <= |stream|
    ensures var cut := |stream| - |Drain(stream).rest|;
            stream[cut..] == Drain(stream).rest &&
            Drain(stream[..cut]) == Drain(stream).(rest := [])
    decreases |stream|
  {
    hide DecodeFrame;
    hide Answer;
    DrainTurn(stream);
    hide Drain;
    var f := DecodeFrame(stream).value;
    var next := stream[f.size..];
    if f.opcode == CLOSE {
      DecodeFramePrefix(stream, f.size);
      DrainTurn(stream[..f.size]);
    } else {
      CutAtClose(next);
      var cut := |stream| - |Drain(stream).rest|;
      DecodeFramePrefix(stream, cut);
      DrainTurn(stream[..cut]);
      assert next[cut - f.size..] == stream[cut..];
      assert stream[..cut][f.size..] == next[..cut - f.size];
    }
  }

  lemma HeaderPrefix(buf: Bytes, cut: nat)
    requires DecodeHeader(buf).Some? && DecodeHeader(buf).value.off <= cut <= |buf|
    ensures DecodeHeader(buf[..cut]) == DecodeHeader(buf)
  {
    var h := DecodeHeader(buf).value;
    if h.off == 4 { SliceOfPrefix(buf, cut, 2, 4); }
    if h.off == 10 { SliceOfPrefix(buf, cut, 2, 10); }
  }

  /** A frame is decoded from its own bytes alone. */
  lemma DecodeFramePrefix(buf: Bytes, cut: nat)
    requires DecodeFrame(buf).Some? && DecodeFrame(buf).value.size <= cut <= |buf|
    ensures DecodeFrame(buf[..cut]) == DecodeFrame(buf)
  {
    hide DecodeFrame;
    hide Unmask;
    DecodeTurn(buf);
    DecodeTurn(buf[..cut]);
    hide DecodeHeader;
    var h := DecodeHeader(buf).value;
    var start := h.off + if h.masked then 4 else 0;
    HeaderPrefix(buf, cut);
    SliceOfPrefix(buf, cut, start, start + h.len);
    if h.masked { SliceOfPrefix(buf, cut, h.off, h.off + 4); }
  }

  lemma SliceOfPrefix(s: Bytes, cut: nat, i: nat, j: nat)
    requires i <= j <= cut <= |s|
    ensures s[..cut][i..j] == s[i..j]
  {
  }

  lemma StateOfRun(stream: Bytes, chunks: seq<Bytes>)
    requires Concat(chunks) == stream && QuietAfterClose(stream)
    ensures Converse(UPGRADED, chunks).socket == Calls(UPGRADED.socket, Drain(stream).events)
  {
    hide Drain;
    ConverseCalls(UPGRADED, chunks);
    if chunks == [] {
      ChunkingIrrelevant(chunks);
    } else {
      assert [] + Concat(chunks) == stream;
      QuietRunFrom([], chunks);
    }
  }

  /**
    The callback goes on listening after a close frame, so a later chunk can make it call the ended
    socket, which destroys it. Whether that happens is independent of the split exactly when nothing
    answerable follows the first close frame.
   */
  lemma ChunkingIrrelevantExactly(stream: Bytes)
    ensures StateIndependentOfChunking(stream) <==> QuietAfterClose(stream)
  {
    hide Drain;
    hide Converse;
    hide Calls;
    if QuietAfterClose(stream) {
      forall chunks | Concat(chunks) == stream
        ensures Converse(UPGRADED, chunks).socket.state == Calls(UPGRADED.socket, Drain(stream).events).state {
        StateOfRun(stream, chunks);
      }
    } else {
      CloseHalfCloses(stream);
      var chunks := CloseCutDestroys(stream);
    }
  }

  /** Calls that go on after the first close answer destroy the socket; those that end with it do not. */
  lemma CallsPastClose(before: seq<Event>, after: seq<Event>)
    requires Ended in before && UpToClose(before) == before && after != []
    ensures Calls(UPGRADED.socket, before).state == HalfClosed
    ensures Calls(UPGRADED.socket, before + after).state == Destroyed
  {
    hide Calls;
    UpToCloseConcat(before, after);
    assert |before + after| > |before|;
    StateFromOpen(UPGRADED.socket, before);
    StateFromOpen(UPGRADED.socket, before + after);
    hide UpToClose;
  }

  /** A chunk that ends with a close frame, then one with something answerable. */
  lemma AnswerAfterClose(head: Bytes, rest: Bytes)
    requires Drain(head).closed && Drain(head).rest == [] && Drain(rest).events != []
    ensures Converse(UPGRADED, [head, rest]).socket.state == Destroyed
  {
    DrainEvents(head);
    RunTwo(head, rest);
    ConverseCalls(UPGRADED, [head, rest]);
    assert [] + rest == rest;
    hide Drain;
    hide Calls;
    hide Converse;
    hide UpToClose;
    hide Run;
    hide Concat;
    CallsPastClose(Drain(head).events, Drain(rest).events);
  }

  lemma CloseHalfCloses(stream: Bytes)
    requires Drain(stream).closed
    ensures Calls(UPGRADED.socket, Drain(stream).events).state == HalfClosed
  {
    DrainEvents(stream);
    StateFromOpen(UPGRADED.socket, Drain(stream).events);
    hide Drain;
    hide Calls;
  }

  /** Cut behind its close frame, a stream that goes on with something answerable destroys the socket. */
  lemma CloseCutDestroys(stream: Bytes) returns (chunks: seq<Bytes>)
    requires Drain(stream).closed && Drain(Drain(stream).rest).events != []
    ensures Concat(chunks) == stream && Converse(UPGRADED, chunks).socket.state == Destroyed
  {
    CutAtClose(stream);
    hide Drain;
    hide Converse;
    var rest := Drain(stream).rest;
    var head := stream[..|stream| - |rest|];
    assert head + rest == stream;
    AnswerAfterClose(head, rest);
    RunTwo(head, rest);
    chunks := [head, rest];
    hide Run;
    hide Concat;
  }

  lemma RunTwo(a: Bytes, b: Bytes)
    ensures Concat([a, b]) == a + b
    ensures Run([], [a, b]).0 == Drain(a).events + Drain(Drain(a).rest + b).events
  {
    hide Drain;
    var chunks, second: seq<Bytes> := [a, b], [b];
    assert chunks[1..] == second;
    assert Concat(second) == b + Concat(second[1..]) == b;
    assert [] + a == a;
    var d := Drain(Drain(a).rest + b);
    assert Run(Drain(a).rest, second) == (d.events + Run(d.rest, second[1..]).0, d.rest);
  }

  /** A close frame followed by the text frame "A": one chunk leaves the socket half-closed, two destroy it. */
  lemma CloseThenTextDependsOnChunking()
    ensures !StateIndependentOfChunking([136, 0, 129, 1, 65])
  {
    var stream: Bytes := [136, 0, 129, 1, 65];
    assert stream[2..2] == [];
    assert DecodeFrame(stream) == Some(Frame(8, [], 2));
    var tail := stream[2..];
    assert tail == [129, 1, 65];
    assert tail[2..3] == [65];
    assert DecodeFrame(tail) == Some(Frame(1, [65], 3));
    assert Drain(stream) == Drained([Ended], tail, true);
    assert Drain(tail).events != [];
    ChunkingIrrelevantExactly(stream);
  }

  // ----- the echo is the shortest readable frame -----

  datatype LengthForm = Short | Medium | Long

  predicate FormFits(form: LengthForm, len: nat) {
    match form
    case Short => len < 126
    case Medium => len < 65536
    case Long => len < 0x1_0000_0000_0000_0000
  }

  /** The header of a masked client frame in each length form. */
  function ClientHeader(b0: Byte, form: LengthForm, len: nat): Bytes
    requires FormFits(form, len)
  {
    match form
    case Short => [b0, 128 + len]
    case Medium => [b0, 0xfe] + WriteUInt(len, 2)
    case Long => [b0, 0xff] + WriteUInt(len, 8)
  }

  /** A masked client frame; RFC 6455 lets a reader meet any of the three length forms. */
  function ClientFrame(b0: Byte, form: LengthForm, mask: Bytes, payload: Bytes): Bytes
    requires |mask| == 4 && FormFits(form, |payload|)
  {
    ClientHeader(b0, form, |payload|) + mask + Unmask(payload, mask)
  }

  lemma UnmaskTwice(payload: Bytes, mask: Bytes)
    requires |mask| == 4
    ensures Unmask(Unmask(payload, mask), mask) == payload
  {
    forall i | 0 <= i < |payload| ensures Unmask(Unmask(payload, mask), mask)[i] == payload[i] {
      XorTwice(payload[i], mask[i % 4]);
    }
  }

  /** A length form is read back by the header decoder, whatever follows it. */
  lemma ReadShort(wire: Bytes, len: nat)
    requires |wire| >= 2 && len < 126 && wire[1] % 128 == len
    ensures DecodeHeader(wire) == Some(Header(len, 2, wire[1] >= 128))
  {
  }

  lemma ReadMedium(wire: Bytes, head: Bytes, rest: Bytes, len: nat)
    requires len < 65536 && |head| == 2 && head[1] % 128 == 126 && wire == head + WriteUInt(len, 2) + rest
    ensures DecodeHeader(wire) == Some(Header(len, 4, head[1] >= 128))
  {
    Pow256Values();
    ReadWrite(len, 2);
    assert wire[2..4] == WriteUInt(len, 2);
  }

  lemma ReadLong(wire: Bytes, head: Bytes, rest: Bytes, len: nat)
    requires FormFits(Long, len) && |head| == 2 && head[1] % 128 == 127 && wire == head + WriteUInt(len, 8) + rest
    ensures DecodeHeader(wire) == Some(Header(len, 10, head[1] >= 128))
  {
    Pow256Values();
    ReadWrite(len, 8);
    assert wire[2..10] == WriteUInt(len, 8);
  }

  lemma UnmaskedBits(payload: Bytes, mask: Bytes, k: nat, i: nat)
    requires |mask| == 4 && k < |payload| && i < 8
    ensures Bit(Unmask(payload, mask)[k], i) <==> (Bit(payload[k], i) <==> !Bit(mask[k % 4], i))
  {
    XorExactly(payload[k], mask[k % 4], i);
    hide Bit;
  }

  /** The offset behind the length field, from the second byte of a frame. */
  function LengthEnd(second: Byte): nat {
    if second % 128 == 126 then 4 else if second % 128 == 127 then 10 else 2
  }

  /**
    What a decoded frame says, on its bytes: the opcode is the low half of the first byte, and payload
    byte `k` is the one on the wire, with each bit flipped that is set in byte `k % 4` of the mask key
    if the second byte announces one.
   */
  lemma DecodedFrame(buf: Bytes, k: nat, i: nat)
    requires DecodeFrame(buf).Some? && k < |DecodeFrame(buf).value.payload| && i < 8
    ensures var f := DecodeFrame(buf).value;
            var key := LengthEnd(buf[1]);
            && f.opcode == buf[0] % 16
            && (buf[1] < 128 ==> f.size == key + |f.payload| && f.payload[k] == buf[key + k])
            && (buf[1] >= 128 ==>
                  && f.size == key + 4 + |f.payload|
                  && (Bit(f.payload[k], i) <==> (Bit(buf[key + 4 + k], i) <==> !Bit(buf[key + k % 4], i))))
  {
    hide DecodeFrame;
    hide Unmask;
    hide Bit;
    DecodeTurn(buf);
    var h := DecodeHeader(buf).value;
    assert h.off == LengthEnd(buf[1]) && (h.masked <==> buf[1] >= 128);
    hide DecodeHeader;
    hide LengthEnd;
    if h.masked {
      var raw, mask := buf[h.off + 4..h.off + 4 + h.len], buf[h.off..h.off + 4];
      UnmaskedBits(raw, mask, k, i);
      assert raw[k] == buf[h.off + 4 + k] && mask[k % 4] == buf[h.off + k % 4];
    }
  }

  lemma DecodeMasked(wire: Bytes, header: Bytes, mask: Bytes, body: Bytes)
    requires |mask| == 4 && |header| >= 2 && wire == header + mask + body
    requires DecodeHeader(wire) == Some(Header(|body|, |header|, true))
    ensures DecodeFrame(wire) == Some(Frame(header[0] % 16, Unmask(body, mask), |wire|))
  {
    hide DecodeFrame;
    hide DecodeHeader;
    hide Unmask;
    var start := |header| + 4;
    assert wire[|header|..start] == mask;
    assert wire[start..start + |body|] == body;
    DecodeTurn(wire);
  }

  lemma ReadClientHeader(b0: Byte, form: LengthForm, len: nat, rest: Bytes)
    requires FormFits(form, len)
    ensures var header := ClientHeader(b0, form, len);
            DecodeHeader(header + rest) == Some(Header(len, |header|, true))
  {
    hide DecodeHeader;
    match form
    case Short => ReadShort(ClientHeader(b0, form, len) + rest, len);
    case Medium => ReadMedium([b0, 0xfe] + WriteUInt(len, 2) + rest, [b0, 0xfe], rest, len);
    case Long => ReadLong([b0, 0xff] + WriteUInt(len, 8) + rest, [b0, 0xff], rest, len);
  }

  lemma DecodeClientFrame(b0: Byte, form: LengthForm, mask: Bytes, payload: Bytes)
    requires |mask| == 4 && FormFits(form, |payload|)
    ensures var wire := ClientFrame(b0, form, mask, payload);
            DecodeFrame(wire) == Some(Frame(b0 % 16, payload, |wire|))
  {
    hide DecodeFrame;
    hide DecodeHeader;
    hide Unmask;
    var header, body := ClientHeader(b0, form, |payload|), Unmask(payload, mask);
    var wire := ClientFrame(b0, form, mask, payload);
    assert header[0] == b0;
    hide ClientHeader;
    assert wire == header + (mask + body);
    ReadClientHeader(b0, form, |payload|, mask + body);
    DecodeMasked(wire, header, mask, body);
    UnmaskTwice(payload, mask);
  }

  lemma ReadEchoHeader(opcode: Byte, payload: Bytes)
    requires opcode < 16 && FormFits(Long, |payload|)
    ensures var header := EchoHeader(opcode, |payload|);
            DecodeHeader(header + payload) == Some(Header(|payload|, |header|, false)) && header[1] < 128
  {
    hide DecodeHeader;
    var len := |payload|;
    if len < 126 {
      ReadShort(EchoHeader(opcode, len) + payload, len);
    } else if len < 65536 {
      ReadMedium([Final(opcode), 126] + WriteUInt(len, 2) + payload, [Final(opcode), 126], payload, len);
    } else {
      ReadLong([Final(opcode), 127] + WriteUInt(len, 8) + payload, [Final(opcode), 127], payload, len);
    }
  }

  lemma DecodeEcho(opcode: Byte, payload: Bytes)
    requires opcode < 16 && FormFits(Long, |payload|)
    ensures var wire := EchoFrame(opcode, payload);
            DecodeFrame(wire) == Some(Frame(opcode, payload, |wire|)) && wire[1] < 128
  {
    hide DecodeFrame;
    hide DecodeHeader;
    hide Unmask;
    var header := EchoHeader(opcode, |payload|);
    var wire := header + payload;
    assert header[0] % 16 == opcode;
    ReadEchoHeader(opcode, payload);
    hide EchoHeader;
    assert wire[|header|..|header| + |payload|] == payload;
    DecodeTurn(wire);
  }

  /** No bytes that this decoder reads as one frame with that payload are fewer than the echo. */
  lemma EchoIsShortest(opcode: Byte, payload: Bytes, wire: Bytes)
    requires DecodeFrame(wire).Some? && DecodeFrame(wire).value.payload == payload
    ensures |EchoFrame(opcode, payload)| <= DecodeFrame(wire).value.size
  {
    var h := DecodeHeader(wire).value;
    assert h.len == |payload|;
    if h.off == 4 {
      ReadBound(wire[2..4]);
      Pow256Values();
    }
  }

  /**
    Echo round trip: a masked text or binary frame in any length form, followed by any bytes, is
    answered with one unmasked frame that the decoder reads back as the same opcode and payload.
   */
  lemma EchoRoundTrip(b0: Byte, form: LengthForm, mask: Bytes, payload: Bytes, tail: Bytes)
    requires |mask| == 4 && FormFits(form, |payload|)
    requires b0 % 16 == TEXT || b0 % 16 == BINARY
    ensures var wire := ClientFrame(b0, form, mask, payload);
            var echo := EchoFrame(b0 % 16, payload);
            && Drain(wire + tail).events == [Wrote(echo)] + Drain(tail).events
            && Drain(wire + tail).rest == Drain(tail).rest
            && DecodeFrame(echo + tail) == Some(Frame(b0 % 16, payload, |echo|))
            && echo[1] < 128 && |echo| <= |wire|
  {
    var wire := ClientFrame(b0, form, mask, payload);
    var echo := EchoFrame(b0 % 16, payload);
    DecodeClientFrame(b0, form, mask, payload);
    DecodeFrameAppend(wire, tail);
    assert wire[|wire|..] + tail == tail;
    DecodeEcho(b0 % 16, payload);
    DecodeFrameAppend(echo, tail);
    EchoIsShortest(b0 % 16, payload, wire);
  }

  /** The masked and the unmasked example of section 5.7 of RFC 6455: the text "Hello" and its echo. */
  const MASKED_HELLO: Bytes := [0x81, 0x85, 0x37, 0xfa, 0x21, 0x3d, 0x7f, 0x9f, 0x4d, 0x51, 0x58]
  const HELLO: Bytes := [0x48, 0x65, 0x6c, 0x6c, 0x6f]

  lemma HelloIsUnmasked()
    ensures DecodeFrame(MASKED_HELLO) == Some(Frame(1, HELLO, 11))
    ensures Drain(MASKED_HELLO) == Drained([Wrote([0x81, 0x05, 0x48, 0x65, 0x6c, 0x6c, 0x6f])], [], false)
  {
    HelloDecoded();
    hide DecodeFrame;
    NothingDecoded();
    DrainTurn(MASKED_HELLO);
    hide Drain;
    assert MASKED_HELLO[11..] == [];
    assert EchoFrame(1, HELLO) == [0x81, 0x05] + HELLO;
    hide EchoFrame;
    assert [0x81, 0x05] + HELLO == [0x81, 0x05, 0x48, 0x65, 0x6c, 0x6c, 0x6f];
    assert Answer(Frame(1, HELLO, 11)) + [] == [Wrote([0x81, 0x05] + HELLO)];
  }

  lemma HelloDecoded()
    ensures DecodeFrame(MASKED_HELLO) == Some(Frame(1, HELLO, 11))
  {
    hide DecodeFrame;
    hide Unmask;
    var wire := MASKED_HELLO;
    HelloHeader();
    HelloPayload();
    hide DecodeHeader;
    DecodeMasked(wire, wire[..2], wire[2..6], wire[6..]);
    assert wire[..2][0] == 0x81;
  }

  lemma HelloHeader()
    ensures DecodeHeader(MASKED_HELLO) == Some(Header(5, 2, true))
    ensures MASKED_HELLO == MASKED_HELLO[..2] + MASKED_HELLO[2..6] + MASKED_HELLO[6..]
  {
  }

  lemma HelloPayload()
    ensures Unmask(MASKED_HELLO[6..], MASKED_HELLO[2..6]) == HELLO
  {
    hide Xor;
    assert MASKED_HELLO[2..6] == [0x37, 0xfa, 0x21, 0x3d];
    assert MASKED_HELLO[6..] == [0x7f, 0x9f, 0x4d, 0x51, 0x58];
    UnmaskedH();
    UnmaskedE();
    UnmaskedL();
    UnmaskedSecondL();
    UnmaskedO();
  }

  lemma UnmaskedH()
    ensures Xor(0x7f, 0x37) == 0x48
  {
    hide Xor;
    hide XorBits;
    XorOf(0x7f, 0x37, 0x7, 0x3, 0x4, 0x8);
  }

  lemma UnmaskedE()
    ensures Xor(0x9f, 0xfa) == 0x65
  {
    hide Xor;
    hide XorBits;
    XorOf(0x9f, 0xfa, 0x9, 0xf, 0x6, 0x5);
  }

  lemma UnmaskedL()
    ensures Xor(0x4d, 0x21) == 0x6c
  {
    hide Xor;
    hide XorBits;
    XorOf(0x4d, 0x21, 0x4, 0x2, 0x6, 0xc);
  }

  lemma UnmaskedSecondL()
    ensures Xor(0x51, 0x3d) == 0x6c
  {
    hide Xor;
    hide XorBits;
    XorOf(0x51, 0x3d, 0x5, 0x3, 0x6, 0xc);
  }

  lemma UnmaskedO()
    ensures Xor(0x58, 0x37) == 0x6f
  {
    hide Xor;
    hide XorBits;
    XorOf(0x58, 0x37, 0x5, 0x3, 0x6, 0xf);
  }

  /** The exclusive or of the low four bits. */
  function XorNibble(a: nat, b: nat): nat {
    8 * ((a / 2 / 2 / 2 + b / 2 / 2 / 2) % 2) + 4 * ((a / 2 / 2 + b / 2 / 2) % 2) + 2 * ((a / 2 + b / 2) % 2) + (a + b) % 2
  }

  lemma XorOf(a: Byte, b: Byte, p: nat, q: nat, high: nat, low: nat)
    requires a / 2 / 2 / 2 / 2 == p && b / 2 / 2 / 2 / 2 == q && XorNibble(p, q) == high && XorNibble(a, b) == low
    ensures Xor(a, b) == 16 * high + low
  {
    hide XorBits;
    hide XorNibble;
    XorFour(a, b, 4);
    XorFour(p, q, 0);
    NoBits(p / 2 / 2 / 2 / 2, q / 2 / 2 / 2 / 2);
  }

  lemma NoBits(a: nat, b: nat)
    ensures XorBits(a, b, 0) == 0
  {
  }

  lemma XorFour(a: nat, b: nat, n: nat)
    ensures XorBits(a, b, n + 4) == 16 * XorBits(a / 2 / 2 / 2 / 2, b / 2 / 2 / 2 / 2, n) + XorNibble(a, b)
  {
    hide XorBits;
    hide Pow2;
    XorTwo(a, b, n + 2);
    XorTwo(a / 2 / 2, b / 2 / 2, n);
  }

  lemma XorTwo(a: nat, b: nat, n: nat)
    ensures XorBits(a, b, n + 2) == 4 * XorBits(a / 2 / 2, b / 2 / 2, n) + 2 * ((a / 2 + b / 2) % 2) + (a + b) % 2
  {
    hide XorBits;
    hide Pow2;
    XorBitsStep(a, b, n + 2);
    XorBitsStep(a / 2, b / 2, n + 1);
  }

  // ----- what a whole conversation is answered with -----

  /** The layout of an echoed frame, byte by byte: final, unmasked, the length big-endian in its shortest form. */
  lemma EchoLayout(opcode: Byte, payload: Bytes, k: nat)
    requires opcode < 16 && FormFits(Long, |payload|)
    ensures var wire := EchoFrame(opcode, payload);
            var len := |payload|;
            && wire[0] == 0x80 + opcode
            && wire[1] == (if len < 126 then len else if len < 65536 then 126 else 127)
            && |wire| == LengthEnd(wire[1]) + len && wire[LengthEnd(wire[1])..] == payload
            && (2 <= k < LengthEnd(wire[1]) ==> wire[k] == len / Pow256(LengthEnd(wire[1]) - 1 - k) % 256)
  {
    var len := |payload|;
    if 126 <= len {
      var width := if len < 65536 then 2 else 8;
      if 2 <= k < 2 + width { WrittenByte(len, width, k - 2); }
    }
  }

  /** A complete masked client frame. */
  datatype Message = Message(b0: Byte, form: LengthForm, mask: Bytes, payload: Bytes) {
    predicate Valid() {
      |mask| == 4 && FormFits(form, |payload|)
    }
  }

  predicate AllValid(messages: seq<Message>) {
    forall i :: 0 <= i < |messages| ==> messages[i].Valid()
  }

  function Sent(m: Message): Bytes
    requires m.Valid()
  {
    ClientFrame(m.b0, m.form, m.mask, m.payload)
  }

  function Stream(messages: seq<Message>): Bytes
    requires AllValid(messages)
  {
    if messages == [] then [] else Sent(messages[0]) + Stream(messages[1..])
  }

  /** Text and binary are echoed, a close frame is answered with an empty close frame, anything else with nothing. */
  function Reply(messages: seq<Message>): Bytes {
    if messages == [] then []
    else
      var opcode := messages[0].b0 % 16;
      if opcode == 8 then [0x88, 0x00]
      else if opcode == 1 || opcode == 2 then EchoFrame(opcode, messages[0].payload) + Reply(messages[1..])
      else Reply(messages[1..])
  }

  predicate HasClose(messages: seq<Message>) {
    exists i :: 0 <= i < |messages| && messages[i].b0 % 16 == 8
  }

  lemma {:induction false} DrainOfStream(messages: seq<Message>)
    requires AllValid(messages)
    ensures Wire(Drain(Stream(messages)).events) == Reply(messages)
    ensures Drain(Stream(messages)).closed <==> HasClose(messages)
  {
    hide DecodeFrame;
    hide EchoFrame;
    if messages == [] {
      NothingDecoded();
    } else {
      var m, rest := messages[0], messages[1..];
      var wire := Sent(m);
      DecodeClientFrame(m.b0, m.form, m.mask, m.payload);
      DecodeFrameAppend(wire, Stream(rest));
      assert wire[|wire|..] + Stream(rest) == Stream(rest);
      DrainTurn(wire + Stream(rest));
      hide Drain;
      DrainOfStream(rest);
      CloseSplit(messages);
      hide HasClose;
      if m.b0 % 16 == 8 {
        assert Wire([Ended]) == Payload(Ended) + Wire([Ended][1..]);
      } else {
        WireConcat(Answer(Frame(m.b0 % 16, m.payload, |wire|)), Drain(Stream(rest)).events);
        assert Wire([Wrote(EchoFrame(m.b0 % 16, m.payload))][1..]) == [];
      }
    }
  }

  lemma NothingDecoded()
    ensures DecodeFrame([]).None? && Drain([]) == Drained([], [], false)
  {
  }

  lemma CloseSplit(messages: seq<Message>)
    requires messages != []
    ensures HasClose(messages) <==> messages[0].b0 % 16 == 8 || HasClose(messages[1..])
  {
    if HasClose(messages[1..]) {
      var i :| 0 <= i < |messages[1..]| && messages[1..][i].b0 % 16 == 8;
      assert messages[i + 1] == messages[1..][i];
    }
    if HasClose(messages) && messages[0].b0 % 16 != 8 {
      var i :| 0 <= i < |messages| && messages[i].b0 % 16 == 8;
      assert messages[1..][i - 1] == messages[i];
    }
  }

  lemma {:induction false} WireConcat(a: seq<Event>, b: seq<Event>)
    ensures Wire(a + b) == Wire(a) + Wire(b)
  {
    if a == [] {
      assert a + b == b;
    } else {
      assert (a + b)[1..] == a[1..] + b;
      WireConcat(a[1..], b);
    }
  }

  /**
    The whole endpoint: however a list of masked client frames is split into chunks, the bytes sent
    are the reply to it, and the connection stays open iff there is no close frame among them.
   */
  lemma ConversationIsAnswered(messages: seq<Message>, chunks: seq<Bytes>)
    requires AllValid(messages) && Concat(chunks) == Stream(messages)
    ensures Converse(UPGRADED, chunks).socket.sent == Reply(messages)
    ensures Converse(UPGRADED, chunks).socket.state == Open <==> !HasClose(messages)
  {
    SentIsIndependentOfChunking(chunks);
    DrainOfStream(messages);
  }
}
