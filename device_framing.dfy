/**
 * The microcontroller's framing state machines (`resolve_single_input` and
 * `resolve_single_output` in usart.c) as pure functions of their state: the
 * byte counter and the message being assembled or sent. The device class in
 * module Usart is proved to follow these functions.
 *
 * The type constants live in headers that are not part of this model; they are
 * taken to be the four classes of the top two bits, as the host's length table
 * and the `type >> 6` size rule suggest.
 */
module DeviceFraming {
  import opened Wrappers

  const DataMask: Byte := 0xC0
  const NoDataType: Byte := 0x00
  const Data1BType: Byte := 0x40
  const Data2BType: Byte := 0x80
  const DataNBType: Byte := 0xC0

  /** The data class of a message type. */
  function Class(t: Byte): Byte
  {
    t & DataMask
  }

  /** Messages whose size travels in a length byte after the type. */
  predicate IsNB(t: Byte)
  {
    Class(t) == DataNBType
  }

  /** A message: type byte, size byte and the data buffer (`malloc`ed in C). */
  datatype Message = Message(msgType: Byte, size: Byte, data: seq<Byte>)

  /** A freshly allocated data buffer; its contents are modelled as zero. */
  function Zeros(n: nat): (s: seq<Byte>)
    ensures |s| == n && forall i :: 0 <= i < n ==> s[i] == 0
  {
    seq(n, _ => 0)
  }

  /** A store through the data pointer; one outside the buffer is dropped. */
  function Store(s: seq<Byte>, i: int, b: Byte): (r: seq<Byte>)
    ensures |r| == |s|
    ensures 0 <= i < |s| ==> r[i] == b
    ensures forall j :: 0 <= j < |s| && j != i ==> r[j] == s[j]
  {
    if 0 <= i < |s| then s[i := b] else s
  }

  /** A load through the data pointer; one outside the buffer reads as zero. */
  function ByteAt(s: seq<Byte>, i: int): (b: Byte)
    ensures 0 <= i < |s| ==> b == s[i]
  {
    if 0 <= i < |s| then s[i] else 0
  }

  /** The first `n` data bytes as the serialiser reads them. */
  function Prefix(s: seq<Byte>, n: nat): (r: seq<Byte>)
    ensures |r| == n
    ensures n <= |s| ==> r == s[..n]
  {
    seq(n, i => ByteAt(s, i))
  }

  // ---------------------------------------------------------------- input side

  /** `in_count` and `m_in`. */
  datatype Parser = Parser(count: nat, msg: Message)

  /** The parser after one byte, and the message it completed, if any. */
  datatype Parsed = Parsed(parser: Parser, done: Option<Message>)

  /** The end of `resolve_single_input`: queue a complete message and reset, or count the byte. */
  function Complete(count: nat, m: Message, done: bool): (r: Parsed)
    ensures r.done.Some? <==> (Class(m.msgType) == NoDataType || done)
    ensures r.done.Some? ==> r.done.value == m && r.parser == Parser(0, m)
    ensures r.done.None? ==> r.parser == Parser(count + 1, m)
  {
    if Class(m.msgType) == NoDataType || done then Parsed(Parser(0, m), Some(m))
    else Parsed(Parser(count + 1, m), None)
  }

  /**
   * One call of `resolve_single_input` on byte `b`. With `corrected` false this
   * is the code as written, whose completion test for N-byte messages reads
   * `NB ? (offset + 2) : (offset + 1 == size)` and so finishes after the first
   * data byte. With `corrected` true an N-byte message finishes when its last
   * data byte arrives, or right after a zero length byte.
   */
  function ParseByte(p: Parser, b: Byte, corrected: bool): Parsed
  {
    if p.count == 0 then
      // type byte: record it and size the data buffer by class
      var size: Byte := if Class(b) == NoDataType then 0 else if Class(b) == Data1BType then 1 else 2;
      var data := if Class(b) == Data1BType then Zeros(1) else if Class(b) == Data2BType then Zeros(2) else [];
      Complete(0, Message(b, size, data), false)
    else if p.count == 1 && IsNB(p.msg.msgType) then
      // length byte of an N-byte message
      Complete(1, p.msg.(size := b, data := Zeros(b as nat)), corrected && b == 0)
    else
      // data byte
      var nb := IsNB(p.msg.msgType);
      var offset: int := if nb then p.count - 2 else p.count - 1;
      var done := if nb && !corrected then offset + 2 != 0 else offset + 1 == p.msg.size as int;
      Complete(p.count, p.msg.(data := Store(p.msg.data, offset, b)), done)
  }

  /** The parser state and the messages completed after a run of bytes. */
  datatype Parsing = Parsing(parser: Parser, msgs: seq<Message>)

  /** One call of the input state machine, as a function value. */
  function ParseStep(corrected: bool): (Parser, Byte) -> Parsed
  {
    (p, b) => ParseByte(p, b, corrected)
  }

  /** Feeds bytes to `step` one call at a time, collecting completed messages in order. */
  function Fold(step: (Parser, Byte) -> Parsed, p: Parser, bytes: seq<Byte>): Parsing
    decreases |bytes|
  {
    if bytes == [] then Parsing(p, [])
    else
      var r := Fold(step, p, bytes[..|bytes| - 1]);
      var s := step(r.parser, bytes[|bytes| - 1]);
      Parsing(s.parser, r.msgs + if s.done.Some? then [s.done.value] else [])
  }

  /** Feeding one more byte is one more call of `step` after the rest. */
  lemma FoldSnoc(step: (Parser, Byte) -> Parsed, p: Parser, s: seq<Byte>, b: Byte)
    ensures Fold(step, p, s + [b]) ==
      Parsing(step(Fold(step, p, s).parser, b).parser,
              Fold(step, p, s).msgs + if step(Fold(step, p, s).parser, b).done.Some? then [step(Fold(step, p, s).parser, b).done.value] else [])
  {
    assert (s + [b])[..|s|] == s;
  }

  /** Feeds bytes to the input state machine one call at a time. */
  function ParseAll(p: Parser, bytes: seq<Byte>, corrected: bool): Parsing
  {
    Fold(ParseStep(corrected), p, bytes)
  }

  // --------------------------------------------------------------- output side

  /** `out_count` and `m_out`. */
  datatype Serialiser = Serialiser(count: nat, msg: Message)

  /** The serialiser after one call, the output queue, and the byte it pushed, if any. */
  datatype Emitted = Emitted(ser: Serialiser, queue: seq<Message>, byte: Option<Byte>)

  /** The end of `resolve_single_output`: push the byte, then reset at the end of a message. */
  function Sent(count: nat, m: Message, queue: seq<Message>, b: Byte, offset: int): (r: Emitted)
    ensures r.byte == Some(b) && r.queue == queue && r.ser.msg == m
    ensures r.ser.count == 0 <==> (Class(m.msgType) == NoDataType || offset + 1 == m.size as int)
  {
    if Class(m.msgType) == NoDataType || offset + 1 == m.size as int then Emitted(Serialiser(0, m), queue, Some(b))
    else Emitted(Serialiser(count + 1, m), queue, Some(b))
  }

  /**
   * One call of `resolve_single_output`: at count 0 take the next message off the
   * queue (forcing the size of a non-N-byte type to `type >> 6`) and send its type;
   * then the size byte (N-byte only); then the data bytes.
   */
  function EmitByte(s: Serialiser, queue: seq<Message>): Emitted
  {
    if s.count == 0 then
      if queue == [] then Emitted(s, queue, None)
      else
        var m0 := queue[0];
        var m := if !IsNB(m0.msgType) then m0.(size := m0.msgType >> 6) else m0;
        Sent(0, m, queue[1..], m.msgType, -2)
    else if IsNB(s.msg.msgType) && s.count == 1 then
      Sent(1, s.msg, queue, s.msg.size, -2)
    else
      var offset: int := if IsNB(s.msg.msgType) then s.count - 2 else s.count - 1;
      Sent(s.count, s.msg, queue, ByteAt(s.msg.data, offset), offset)
  }

  /** The serialiser, the queue and the bytes pushed after `n` calls. */
  datatype Emission = Emission(ser: Serialiser, queue: seq<Message>, bytes: seq<Byte>)

  /** `n` calls of the serialiser. */
  function EmitAll(s: Serialiser, queue: seq<Message>, n: nat): Emission
  {
    if n == 0 then Emission(s, queue, [])
    else
      var r := EmitAll(s, queue, n - 1);
      var e := EmitByte(r.ser, r.queue);
      Emission(e.ser, e.queue, r.bytes + if e.byte.Some? then [e.byte.value] else [])
  }

  // -------------------------------------------------------------- wire format

  /** The message the serialiser actually sends: sizes of non-N-byte types forced to `type >> 6`. */
  function OutForm(m: Message): Message
  {
    if IsNB(m.msgType) then m else m.(size := m.msgType >> 6)
  }

  /** The bytes one message occupies on the wire: type, size (N-byte only), data. */
  function Wire(m: Message): (w: seq<Byte>)
    ensures |w| >= 1 && w[0] == m.msgType
  {
    var o := OutForm(m);
    if IsNB(m.msgType) then [m.msgType, m.size] + Prefix(m.data, m.size as nat)
    else [m.msgType] + Prefix(m.data, o.size as nat)
  }

  /** The message as it is reassembled: the size the wire carries and exactly that much data. */
  function Normalise(m: Message): Message
  {
    var o := OutForm(m);
    Message(m.msgType, o.size, Prefix(m.data, o.size as nat))
  }

  /** Messages whose wire form the serialiser finishes: every non-N-byte type, N-byte with size >= 1. */
  predicate Serialisable(m: Message)
  {
    !IsNB(m.msgType) || m.size >= 1
  }

  /** The size a non-N-byte type implies is its class number, at most 2. */
  lemma {:induction false} FixedSize(t: Byte)
    ensures !IsNB(t) ==> (t >> 6) as nat <= 2
    ensures Class(t) == NoDataType <==> t >> 6 == 0
    ensures Class(t) == Data1BType <==> t >> 6 == 1
    ensures Class(t) == Data2BType <==> t >> 6 == 2
    ensures IsNB(t) <==> t >> 6 == 3
  {
    if t < 0x40 {
      assert Class(t) == 0 && t >> 6 == 0;
    } else if t < 0x80 {
      assert Class(t) == 0x40 && t >> 6 == 1;
    } else if t < 0xC0 {
      assert Class(t) == 0x80 && t >> 6 == 2;
    } else {
      assert Class(t) == 0xC0 && t >> 6 == 3;
    }
  }

  // -------------------------------------------------------------- round trips

  /** The serialiser's first call on a queued message pushes its type byte. */
  lemma {:induction false} EmitFirst(m: Message, other: Message, q: seq<Message>)
    ensures EmitByte(Serialiser(0, other), [m] + q) ==
      Emitted(Serialiser(if |Wire(m)| == 1 then 0 else 1, OutForm(m)), q, Some(Wire(m)[0]))
  {
    FixedSize(m.msgType);
    assert ([m] + q)[0] == m && ([m] + q)[1..] == q;
  }

  /** A later call on a message without length byte pushes data byte `j - 1`. */
  lemma {:induction false} EmitNextFixed(m: Message, q: seq<Message>, j: nat)
    requires !IsNB(m.msgType)
    requires 1 <= j <= (m.msgType >> 6) as nat
    ensures EmitByte(Serialiser(j, OutForm(m)), q) ==
      Emitted(Serialiser(if j == (m.msgType >> 6) as nat then 0 else j + 1, OutForm(m)), q, Some(ByteAt(m.data, j - 1)))
  {
    FixedSize(m.msgType);
  }

  /** A later call on an N-byte message pushes its size byte, then data byte `j - 2`. */
  lemma {:induction false} EmitNextNb(m: Message, q: seq<Message>, j: nat)
    requires IsNB(m.msgType) && m.size >= 1
    requires 1 <= j <= m.size as nat + 1
    ensures EmitByte(Serialiser(j, m), q) ==
      Emitted(Serialiser(if j == m.size as nat + 1 then 0 else j + 1, m), q,
              Some(if j == 1 then m.size else ByteAt(m.data, j - 2)))
  {
  }

  /** Every later call pushes the next byte of the wire form, and the last one resets the count. */
  lemma {:induction false} EmitNext(m: Message, q: seq<Message>, j: nat)
    requires Serialisable(m)
    requires 1 <= j < |Wire(m)|
    ensures EmitByte(Serialiser(j, OutForm(m)), q) ==
      Emitted(Serialiser(if j + 1 == |Wire(m)| then 0 else j + 1, OutForm(m)), q, Some(Wire(m)[j]))
  {
    FixedSize(m.msgType);
    if IsNB(m.msgType) {
      EmitNextNb(m, q, j);
    } else {
      EmitNextFixed(m, q, j);
    }
  }

  /**
   * Serialising a queued message: after `j` calls the serialiser has pushed the
   * first `j` bytes of its wire form, and after the last one it is back at count 0
   * with the message removed from the queue.
   */
  lemma {:induction false} EmitPrefix(m: Message, other: Message, q: seq<Message>, j: nat)
    requires Serialisable(m)
    requires 1 <= j <= |Wire(m)|
    ensures EmitAll(Serialiser(0, other), [m] + q, j) ==
      Emission(Serialiser(if j == |Wire(m)| then 0 else j, OutForm(m)), q, Wire(m)[..j])
  {
    var w := Wire(m);
    if j == 1 {
      EmitFirst(m, other, q);
      assert w[..1] == [w[0]];
    } else {
      EmitPrefix(m, other, q, j - 1);
      EmitNext(m, q, j - 1);
      EmitAllSnoc(Serialiser(0, other), [m] + q, j - 1, Serialiser(j - 1, OutForm(m)), q, w[..j - 1]);
      TakeSnoc(w, j);
    }
  }

  /** A prefix one longer is the shorter prefix and the next element. */
  lemma TakeSnoc<T>(w: seq<T>, j: nat)
    requires 1 <= j <= |w|
    ensures w[..j - 1] + [w[j - 1]] == w[..j]
  {
  }

  /** One more call of the serialiser appends the byte it pushes. */
  lemma {:induction false} EmitAllSnoc(s: Serialiser, queue: seq<Message>, n: nat,
                                       ser: Serialiser, q: seq<Message>, bytes: seq<Byte>)
    requires EmitAll(s, queue, n) == Emission(ser, q, bytes)
    ensures EmitAll(s, queue, n + 1) ==
      Emission(EmitByte(ser, q).ser, EmitByte(ser, q).queue,
               bytes + if EmitByte(ser, q).byte.Some? then [EmitByte(ser, q).byte.value] else [])
  {
  }

  /** The message being assembled after the first `j` bytes of a wire form. */
  function Received(m: Message, j: nat): Message
    requires 1 <= j <= |Wire(m)|
  {
    var k := OutForm(m).size as nat;
    if !IsNB(m.msgType) then Message(m.msgType, OutForm(m).size, Prefix(m.data, j - 1) + Zeros(k - (j - 1)))
    else if j == 1 then Message(m.msgType, 2, [])
    else Message(m.msgType, m.size, Prefix(m.data, j - 2) + Zeros(m.size as nat - (j - 2)))
  }

  /** Storing the next data byte extends the received prefix by one. */
  lemma {:induction false} StoreNext(data: seq<Byte>, i: nat, k: nat)
    requires i < k
    ensures Store(Prefix(data, i) + Zeros(k - i), i, ByteAt(data, i)) == Prefix(data, i + 1) + Zeros(k - (i + 1))
  {
    var lhs := Store(Prefix(data, i) + Zeros(k - i), i, ByteAt(data, i));
    var rhs := Prefix(data, i + 1) + Zeros(k - (i + 1));
    assert |lhs| == k == |rhs|;
    forall n | 0 <= n < k
      ensures lhs[n] == rhs[n]
    {
      if n < i {
        assert lhs[n] == Prefix(data, i)[n];
      } else if n > i {
        assert lhs[n] == 0;
      }
    }
  }

  /** The parser's result after the first `j` bytes of a wire form. */
  function ParsedAt(m: Message, j: nat): Parsed
    requires 1 <= j <= |Wire(m)|
  {
    if j == |Wire(m)| then Parsed(Parser(0, Received(m, j)), Some(Received(m, j)))
    else Parsed(Parser(j, Received(m, j)), None)
  }

  /** The type byte starts a message of the size its class implies. */
  lemma {:induction false} ParseFirst(m: Message, other: Message, corrected: bool)
    ensures ParseByte(Parser(0, other), Wire(m)[0], corrected) == ParsedAt(m, 1)
  {
    FixedSize(m.msgType);
    var k := OutForm(m).size as nat;
    assert Prefix(m.data, 0) + Zeros(k) == Zeros(k);
  }

  /** A data byte of a message without length byte is stored at `j - 1`. */
  lemma {:induction false} ParseNextFixed(m: Message, j: nat, corrected: bool)
    requires !IsNB(m.msgType)
    requires 1 <= j <= (m.msgType >> 6) as nat
    ensures ParseByte(Parser(j, Received(m, j)), ByteAt(m.data, j - 1), corrected) == ParsedAt(m, j + 1)
  {
    FixedSize(m.msgType);
    StoreNext(m.data, j - 1, (m.msgType >> 6) as nat);
  }

  /** The length byte of an N-byte message sizes its data buffer. */
  lemma {:induction false} ParseNextNbSize(m: Message, corrected: bool)
    requires IsNB(m.msgType) && (corrected || m.size >= 1)
    ensures ParseByte(Parser(1, Received(m, 1)), m.size, corrected) == ParsedAt(m, 2)
  {
    assert Prefix(m.data, 0) + Zeros(m.size as nat) == Zeros(m.size as nat);
  }

  /** A data byte of an N-byte message is stored at `j - 2`. */
  lemma {:induction false} ParseNextNbData(m: Message, j: nat, corrected: bool)
    requires IsNB(m.msgType) && corrected
    requires 2 <= j <= m.size as nat + 1
    ensures ParseByte(Parser(j, Received(m, j)), ByteAt(m.data, j - 2), corrected) == ParsedAt(m, j + 1)
  {
    var k := m.size as nat;
    NbReceived(m, j);
    NbReceived(m, j + 1);
    StoreNext(m.data, j - 2, k);
    NbDataStep(Parser(j, Received(m, j)), ByteAt(m.data, j - 2));
  }

  /** With the completion test corrected, an N-byte data byte is stored at `in_count - 2` and the last one completes. */
  lemma NbDataStep(p: Parser, b: Byte)
    requires IsNB(p.msg.msgType) && p.count >= 2
    ensures ParseByte(p, b, true) ==
      Complete(p.count, p.msg.(data := Store(p.msg.data, p.count - 2, b)), p.count - 1 == p.msg.size as int)
  {
  }

  /** An N-byte message after its type, length and some data bytes: the data so far, then zeros. */
  lemma NbReceived(m: Message, j: nat)
    requires IsNB(m.msgType) && 2 <= j <= m.size as nat + 2
    ensures |Wire(m)| == m.size as nat + 2
    ensures Received(m, j) == Message(m.msgType, m.size, Prefix(m.data, j - 2) + Zeros(m.size as nat - (j - 2)))
  {
  }

  /** Each later byte of a wire form is stored in its place; the last one completes the message. */
  lemma {:induction false} ParseNext(m: Message, j: nat, corrected: bool)
    requires corrected || !IsNB(m.msgType)
    requires 1 <= j < |Wire(m)|
    ensures ParseByte(Parser(j, Received(m, j)), Wire(m)[j], corrected) == ParsedAt(m, j + 1)
  {
    FixedSize(m.msgType);
    if !IsNB(m.msgType) {
      ParseNextFixed(m, j, corrected);
    } else if j == 1 {
      ParseNextNbSize(m, corrected);
    } else {
      ParseNextNbData(m, j, corrected);
    }
  }

  /**
   * A run of any step function that passes through the results `trace`, one per
   * byte, and completes a message only at its last byte: after `j` bytes the
   * state is the `j`-th result, and the only message is the last one's.
   */
  lemma {:induction false} FoldTrace(step: (Parser, Byte) -> Parsed, p0: Parser, w: seq<Byte>, trace: seq<Parsed>, j: nat)
    requires |trace| == |w| && 1 <= j <= |w|
    requires step(p0, w[0]) == trace[0]
    requires forall i :: 0 < i < |w| ==> step(trace[i - 1].parser, w[i]) == trace[i]
    requires forall i :: 0 <= i < |w| - 1 ==> trace[i].done.None?
    ensures Fold(step, p0, w[..j]) ==
      Parsing(trace[j - 1].parser, if trace[j - 1].done.Some? then [trace[j - 1].done.value] else [])
  {
    if j == 1 {
      assert w[..1] == [] + [w[0]];
      FoldSnoc(step, p0, [], w[0]);
    } else {
      FoldTrace(step, p0, w, trace, j - 1);
      assert trace[j - 2].done.None?;
      TakeSnoc(w, j);
      FoldSnoc(step, p0, w[..j - 1], w[j - 1]);
    }
  }

  /** The parser's results along a wire form, one per byte. */
  function Trace(m: Message): (t: seq<Parsed>)
    ensures |t| == |Wire(m)|
  {
    seq(|Wire(m)|, i requires 0 <= i < |Wire(m)| => ParsedAt(m, i + 1))
  }

  /** One step along `Trace(m)`: the parser takes the next wire byte to the next result. */
  lemma TraceStep(m: Message, i: nat, corrected: bool)
    requires corrected || !IsNB(m.msgType)
    requires 0 < i < |Wire(m)|
    ensures ParseStep(corrected)(Trace(m)[i - 1].parser, Wire(m)[i]) == Trace(m)[i]
  {
    ParseNext(m, i, corrected);
    assert Trace(m)[i - 1] == ParsedAt(m, i);
  }

  /** The parser follows `Trace(m)` along `Wire(m)`, completing only at the last byte. */
  lemma TraceSteps(m: Message, other: Message, corrected: bool)
    requires corrected || !IsNB(m.msgType)
    ensures var w, t, step := Wire(m), Trace(m), ParseStep(corrected);
            step(Parser(0, other), w[0]) == t[0] &&
            (forall i :: 0 < i < |w| ==> step(t[i - 1].parser, w[i]) == t[i]) &&
            (forall i :: 0 <= i < |w| - 1 ==> t[i].done.None?)
  {
    ParseFirst(m, other, corrected);
    forall i | 0 < i < |Wire(m)|
      ensures ParseStep(corrected)(Trace(m)[i - 1].parser, Wire(m)[i]) == Trace(m)[i]
    {
      TraceStep(m, i, corrected);
    }
  }

  /**
   * Parsing a wire form: after `j` of its bytes the parser holds the first data
   * bytes received so far, and the last byte completes exactly one message.
   * It holds for the code as written on every non-N-byte type, and for the
   * corrected parser on every type.
   */
  lemma {:induction false} ParsePrefix(m: Message, other: Message, j: nat, corrected: bool)
    requires corrected || !IsNB(m.msgType)
    requires 1 <= j <= |Wire(m)|
    ensures ParseAll(Parser(0, other), Wire(m)[..j], corrected) ==
      Parsing(ParsedAt(m, j).parser, if j == |Wire(m)| then [Received(m, j)] else [])
  {
    TraceSteps(m, other, corrected);
    FoldTrace(ParseStep(corrected), Parser(0, other), Wire(m), Trace(m), j);
    assert Trace(m)[j - 1] == ParsedAt(m, j);
  }

  /** Once the whole wire form has arrived the parser holds the normalised message. */
  lemma {:induction false} ReceivedAll(m: Message)
    ensures Received(m, |Wire(m)|) == Normalise(m)
  {
    FixedSize(m.msgType);
    var k := OutForm(m).size as nat;
    if IsNB(m.msgType) {
      assert |Wire(m)| == 2 + k;
      assert Prefix(m.data, k) + Zeros(0) == Prefix(m.data, k);
    } else {
      assert |Wire(m)| == 1 + k;
      assert Prefix(m.data, k) + Zeros(0) == Prefix(m.data, k);
    }
  }

  /**
   * For messages without data and with one or two data bytes, the bytes the
   * serialiser emits for a queued message are exactly what the parser, as
   * written, reassembles into that message (with its size normalised).
   */
  lemma {:induction false} FixedRoundTrip(m: Message, out: Message, inMsg: Message, q: seq<Message>)
    requires !IsNB(m.msgType)
    ensures EmitAll(Serialiser(0, out), [m] + q, |Wire(m)|) == Emission(Serialiser(0, OutForm(m)), q, Wire(m))
    ensures ParseAll(Parser(0, inMsg), Wire(m), false) == Parsing(Parser(0, Normalise(m)), [Normalise(m)])
  {
    EmitPrefix(m, out, q, |Wire(m)|);
    ParsePrefix(m, inMsg, |Wire(m)|, false);
    ReceivedAll(m);
    assert Wire(m)[..|Wire(m)|] == Wire(m);
  }

  /**
   * The code as written completes an N-byte message after its first data byte:
   * of the 2 + L wire bytes of a message of length L >= 2 only three are read
   * into it, and the parser is back at count 0 for the remaining L - 1.
   */
  lemma NbFrameCompletesEarly(t: Byte, len: Byte, d: Byte, other: Message)
    requires IsNB(t) && len >= 2
    ensures ParseAll(Parser(0, other), [t, len, d], false) ==
      Parsing(Parser(0, Message(t, len, [d] + Zeros(len as nat - 1))), [Message(t, len, [d] + Zeros(len as nat - 1))])
  {
    NbHeader(t, len, other, false);
    assert [t, len, d] == [t, len] + [d];
    FoldSnoc(ParseStep(false), Parser(0, other), [t, len], d);
    NbFirstDataAsWritten(t, len, d);
  }

  /** As written, the first data byte of an N-byte message completes it whatever its length. */
  lemma NbFirstDataAsWritten(t: Byte, len: Byte, d: Byte)
    requires IsNB(t) && len >= 1
    ensures var m := Message(t, len, [d] + Zeros(len as nat - 1));
            ParseByte(Parser(2, Message(t, len, Zeros(len as nat))), d, false) == Parsed(Parser(0, m), Some(m))
  {
    StoreFirst(len as nat, d);
  }

  /** Storing at index 0 of a zeroed buffer. */
  lemma StoreFirst(n: nat, d: Byte)
    requires n >= 1
    ensures Store(Zeros(n), 0, d) == [d] + Zeros(n - 1)
  {
    assert Zeros(n)[0 := d] == [d] + Zeros(n - 1);
  }

  /**
   * The first two bytes of an N-byte frame, type and length, leave the parser
   * waiting for data with a zeroed buffer of the announced size.
   */
  lemma NbHeader(t: Byte, len: Byte, other: Message, corrected: bool)
    requires IsNB(t) && len >= 1
    ensures ParseAll(Parser(0, other), [t, len], corrected) == Parsing(Parser(2, Message(t, len, Zeros(len as nat))), [])
  {
    var step := ParseStep(corrected);
    var p0 := Parser(0, other);
    assert [t] == [] + [t];
    FoldSnoc(step, p0, [], t);
    assert Fold(step, p0, [t]) == Parsing(Parser(1, Message(t, 2, [])), []);
    assert [t, len] == [t] + [len];
    FoldSnoc(step, p0, [t], len);
  }

  /**
   * The corrected parser finishes an N-byte message whose length byte is 0 on
   * that byte, since no data byte follows it.
   */
  lemma CorrectedEmptyNb(t: Byte, other: Message)
    requires IsNB(t)
    ensures ParseAll(Parser(0, other), [t, 0], true) == Parsing(Parser(0, Message(t, 0, [])), [Message(t, 0, [])])
  {
    var step := ParseStep(true);
    var p0 := Parser(0, other);
    assert [t] == [] + [t];
    FoldSnoc(step, p0, [], t);
    assert Fold(step, p0, [t]) == Parsing(Parser(1, Message(t, 2, [])), []);
    assert [t, 0] == [t] + [0];
    FoldSnoc(step, p0, [t], 0);
    assert Zeros(0) == [];
  }

  /**
   * With the completion test corrected, every message the serialiser finishes,
   * N-byte ones included, is reassembled by the parser exactly.
   */
  lemma {:induction false} CorrectedRoundTrip(m: Message, out: Message, inMsg: Message, q: seq<Message>)
    requires Serialisable(m)
    ensures EmitAll(Serialiser(0, out), [m] + q, |Wire(m)|) == Emission(Serialiser(0, OutForm(m)), q, Wire(m))
    ensures ParseAll(Parser(0, inMsg), Wire(m), true) == Parsing(Parser(0, Normalise(m)), [Normalise(m)])
  {
    EmitPrefix(m, out, q, |Wire(m)|);
    ParsePrefix(m, inMsg, |Wire(m)|, true);
    ReceivedAll(m);
    assert Wire(m)[..|Wire(m)|] == Wire(m);
  }
}
