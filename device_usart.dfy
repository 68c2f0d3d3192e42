/**
 * The device's USART resolver (usart.c): the input and output ring buffers,
 * the byte counters and message caches of the two framing state machines,
 * the error flag, and `resolve_buffers`, which alternates between parsing
 * received bytes and serialising queued messages under a byte budget.
 *
 * The message queues (`queue_push`, `queue_pop`, `out_queue`) and the
 * `start_ok` flag are defined outside usart.c; the queues are modelled as
 * sequences with a fixed capacity, a push failing when the queue is full, and
 * `out_queue` as "the output queue is not empty".
 */
module Usart {
  import opened Wrappers
  import opened DeviceFraming
  import opened UsartBuffer

  /** Whose turn it is in `resolve_buffers` (IN_QUEUE or OUT_QUEUE). */
  datatype Turn = InTurn | OutTurn

  /** `(turn + 1) % 2`: the other side. */
  function Flip(t: Turn): Turn
  {
    if t == InTurn then OutTurn else InTurn
  }

  /** Everything the resolver reads and writes, as values. */
  datatype State = State(
    inBuf: seq<Byte>,            // bytes waiting in `in_buffer`
    outBuf: seq<Byte>,           // bytes waiting in `out_buffer`
    max: nat,                    // MAX_BUFFER_LENGTH
    parser: Parser,              // `in_count`, `m_in`
    ser: Serialiser,             // `out_count`, `m_out`
    inQueue: seq<Message>,       // received messages
    outQueue: seq<Message>,      // messages waiting to be sent
    queueCapacity: nat,
    error: int,                  // `error`
    startOk: bool)               // `start_ok`

  /** `queue_push`: append when there is room, and say whether it succeeded. */
  function QueuePush(q: seq<Message>, capacity: nat, m: Message): (r: (seq<Message>, int))
    ensures r.1 == OK <==> |q| < capacity
    ensures r.0 == if |q| < capacity then q + [m] else q
  {
    if |q| < capacity then (q + [m], OK) else (q, MessageErrorType)
  }

  /** The output buffer's full test, on the abstract state. */
  predicate OutFull(st: State)
  {
    |st.outBuf| + 1 == st.max
  }

  /**
   * The loop condition of `resolve_buffers` without the budget: input is waiting,
   * or output may proceed (room in the output buffer, a message queued or half
   * sent, and `start_ok`).
   */
  predicate HasWork(st: State)
  {
    |st.inBuf| > 0 || (!OutFull(st) && (|st.outQueue| > 0 || st.ser.count != 0) && st.startOk)
  }

  /** The turn rule: output when no input waits, input when output may not start, else alternate. */
  function ChooseTurn(st: State, turn: Turn): (t: Turn)
    ensures t == InTurn ==> |st.inBuf| > 0
    ensures HasWork(st) && t == OutTurn ==> !OutFull(st) && st.startOk
  {
    if |st.inBuf| == 0 then OutTurn
    else if OutFull(st) || |st.outQueue| == 0 || !st.startOk then InTurn
    else Flip(turn)
  }

  /**
   * `resolve_single_input`: pop one byte, feed it to the parser, and queue a
   * completed message; if the queue refuses it, set `error` to MESSAGE_ERROR_TYPE.
   */
  function InputTurn(st: State): State
    requires |st.inBuf| > 0
  {
    var r := ParseByte(st.parser, st.inBuf[0], false);
    var st1 := st.(inBuf := st.inBuf[1..], parser := r.parser);
    if r.done.None? then st1
    else
      var (q, status) := QueuePush(st.inQueue, st.queueCapacity, r.done.value);
      if status != OK then st1.(error := MessageErrorType) else st1.(inQueue := q)
  }

  /** `resolve_single_output`: one serialiser call; its byte goes into the output buffer unless it is full. */
  function OutputTurn(st: State): State
  {
    var e := EmitByte(st.ser, st.outQueue);
    var outBuf := if e.byte.Some? && !OutFull(st) then st.outBuf + [e.byte.value] else st.outBuf;
    st.(ser := e.ser, outQueue := e.queue, outBuf := outBuf)
  }

  /** The error handling at the end of each iteration: queue a size-0 message typed by the error. */
  function ReportError(st: State): State
  {
    if st.error == OK then st
    else
      var m := Message((st.error % 256) as Byte, 0, []);
      st.(outQueue := QueuePush(st.outQueue, st.queueCapacity, m).0, error := OK)
  }

  /** One iteration of the loop body. */
  function Iterate(st: State, turn: Turn): (r: (State, Turn))
    requires HasWork(st)
  {
    var t := ChooseTurn(st, turn);
    var st1 := if t == InTurn then InputTurn(st) else OutputTurn(st);
    (ReportError(st1), t)
  }

  /** Where the loop ends: the state, the last turn and the budget left. */
  datatype Resolved = Resolved(st: State, turn: Turn, budget: int)

  /**
   * `resolve_buffers` from a given turn and budget: it stops only when the budget
   * is spent or there is no work left, and never leaves more budget than it had.
   */
  function ResolveFrom(st: State, turn: Turn, bytes: int): (r: Resolved)
    ensures r.budget <= 0 || !HasWork(r.st)
    ensures r.budget <= bytes
    ensures bytes > 0 ==> r.budget >= 0
    decreases if bytes > 0 then bytes else 0
  {
    if HasWork(st) && bytes > 0 then
      var (st', t') := Iterate(st, turn);
      ResolveFrom(st', t', bytes - 1)
    else Resolved(st, turn, bytes)
  }

  /** `resolve_buffers(bytes)`: the loop starts on the input side. */
  function ResolveBuffersSpec(st: State, bytes: int): State
  {
    ResolveFrom(st, InTurn, bytes).st
  }

  // ------------------------------------------------------------------ lemmas

  /**
   * An input turn takes exactly the first input byte and leaves the output side
   * alone. A message the byte completes is queued when the input queue has room;
   * otherwise it is dropped and `error` becomes MESSAGE_ERROR_TYPE.
   */
  lemma InputTurnEffect(st: State)
    requires |st.inBuf| > 0
    ensures var r := InputTurn(st);
            r.inBuf == st.inBuf[1..] && r.outBuf == st.outBuf && r.ser == st.ser && r.outQueue == st.outQueue
    ensures var r, done := InputTurn(st), ParseByte(st.parser, st.inBuf[0], false).done;
            if done.None? then r.inQueue == st.inQueue && r.error == st.error
            else if |st.inQueue| < st.queueCapacity then r.inQueue == st.inQueue + [done.value] && r.error == st.error
            else r.inQueue == st.inQueue && r.error == MessageErrorType
  {
  }

  /**
   * An output turn leaves the input side and the error flag alone, appends at
   * most one byte to the output buffer, and takes at most the head of the
   * output queue.
   */
  lemma OutputTurnEffect(st: State)
    ensures var r := OutputTurn(st);
            r.inBuf == st.inBuf && r.parser == st.parser && r.inQueue == st.inQueue && r.error == st.error
    ensures var r := OutputTurn(st);
            st.outBuf <= r.outBuf && |r.outBuf| <= |st.outBuf| + 1
    ensures var r := OutputTurn(st);
            r.outQueue == st.outQueue || (|st.outQueue| > 0 && r.outQueue == st.outQueue[1..])
  {
  }

  /**
   * The error handling at the end of an iteration clears the flag, touches
   * nothing but the output queue, and adds at most one message at its back.
   */
  lemma ReportErrorEffect(st: State)
    ensures var r := ReportError(st);
            r.error == OK && r.inBuf == st.inBuf && r.outBuf == st.outBuf &&
            r.parser == st.parser && r.ser == st.ser && r.inQueue == st.inQueue
    ensures var r := ReportError(st);
            st.outQueue <= r.outQueue && |r.outQueue| <= |st.outQueue| + 1
  {
  }

  /**
   * One iteration ends with no pending error and only appends output; an input
   * turn takes the first input byte, an output turn leaves the input side alone.
   */
  lemma IterateEffect(st: State, turn: Turn)
    requires HasWork(st)
    ensures var (r, t) := Iterate(st, turn);
            r.error == OK && st.outBuf <= r.outBuf &&
            (t == InTurn ==> |st.inBuf| > 0 && r.inBuf == st.inBuf[1..]) &&
            (t == OutTurn ==> r.inBuf == st.inBuf && r.inQueue == st.inQueue)
  {
    var t := ChooseTurn(st, turn);
    if t == InTurn {
      InputTurnEffect(st);
      ReportErrorEffect(InputTurn(st));
    } else {
      OutputTurnEffect(st);
      ReportErrorEffect(OutputTurn(st));
    }
  }

  /** Feeding bytes in two runs is the same as feeding them in one. */
  lemma {:induction false} FoldAppend(step: (Parser, Byte) -> Parsed, p: Parser, a: seq<Byte>, b: seq<Byte>)
    ensures Fold(step, p, a + b) ==
      Parsing(Fold(step, Fold(step, p, a).parser, b).parser,
              Fold(step, p, a).msgs + Fold(step, Fold(step, p, a).parser, b).msgs)
    decreases |b|
  {
    if b == [] {
      assert a + b == a;
    } else {
      var b' := b[..|b| - 1];
      var x := b[|b| - 1];
      FoldAppend(step, p, a, b');
      assert a + b == (a + b') + [x];
      assert b == b' + [x];
      FoldSnoc(step, p, a + b', x);
      FoldSnoc(step, Fold(step, p, a).parser, b', x);
    }
  }

  /**
   * `r` is what `st` becomes after the input bytes `c` at the front of its
   * input buffer have been fed to `step`: those bytes are gone from the input
   * buffer, the parser is in the state they lead to, every message they
   * complete is at the back of the input queue, and output bytes have only been
   * appended.
   */
  ghost predicate Feeds(step: (Parser, Byte) -> Parsed, st: State, r: State, c: seq<Byte>)
  {
    st.inBuf == c + r.inBuf &&
    r.parser == Fold(step, st.parser, c).parser &&
    r.inQueue == st.inQueue + Fold(step, st.parser, c).msgs &&
    st.outBuf <= r.outBuf && r.queueCapacity == st.queueCapacity
  }

  /**
   * One iteration either takes the first input byte and feeds it to the parser,
   * queueing what it completes, or leaves the input side untouched; output
   * bytes are only appended. While the input queue has room for every pending
   * byte's message, it still has after the iteration.
   */
  lemma IterateFeeds(st: State, turn: Turn)
    requires HasWork(st)
    requires st.queueCapacity >= |st.inQueue| + |st.inBuf|
    ensures var (st', t') := Iterate(st, turn);
            Feeds(ParseStep(false), st, st', if t' == InTurn then [st.inBuf[0]] else []) &&
            st'.queueCapacity >= |st'.inQueue| + |st'.inBuf|
  {
    var (st', t') := Iterate(st, turn);
    if t' == InTurn {
      assert [st.inBuf[0]] == [] + [st.inBuf[0]];
      FoldSnoc(ParseStep(false), st.parser, [], st.inBuf[0]);
      assert st.inBuf == [st.inBuf[0]] + st'.inBuf;
    } else {
      assert st.inBuf == [] + st'.inBuf;
    }
  }

  /** Feeding `a` and then `b` is feeding `a + b`. */
  lemma FeedsTrans(step: (Parser, Byte) -> Parsed, st: State, mid: State, r: State, a: seq<Byte>, b: seq<Byte>)
    requires Feeds(step, st, mid, a) && Feeds(step, mid, r, b)
    ensures Feeds(step, st, r, a + b)
  {
    FoldAppend(step, st.parser, a, b);
    assert st.inBuf == a + (b + r.inBuf);
    assert a + (b + r.inBuf) == (a + b) + r.inBuf;
  }

  /**
   * A run of `resolve_buffers` that started at `st` with budget `bytes` and
   * ended in `r` has fed `step` a prefix of its input, at most one byte per
   * unit of budget spent.
   */
  ghost predicate FedWithin(step: (Parser, Byte) -> Parsed, st: State, r: Resolved, bytes: int)
  {
    exists c :: Feeds(step, st, r.st, c) &&
      |c| <= (if bytes > 0 then bytes else 0) - (if r.budget > 0 then r.budget else 0)
  }

  /** Feeding at most one byte and then the rest of a run is a run with one more unit of budget. */
  lemma FedStep(step: (Parser, Byte) -> Parsed, st: State, mid: State, a: seq<Byte>, rest: Resolved, bytes: int)
    requires Feeds(step, st, mid, a) && |a| <= 1 && bytes > 0
    requires FedWithin(step, mid, rest, bytes - 1)
    ensures FedWithin(step, st, rest, bytes)
  {
    var c :| Feeds(step, mid, rest.st, c) &&
      |c| <= (if bytes - 1 > 0 then bytes - 1 else 0) - (if rest.budget > 0 then rest.budget else 0);
    FeedsTrans(step, st, mid, rest.st, a, c);
  }

  /** One iteration followed by the rest of the run, as `ResolveFrom` unfolds it. */
  lemma FedIterate(st: State, turn: Turn, bytes: int)
    requires HasWork(st) && bytes > 0
    requires st.queueCapacity >= |st.inQueue| + |st.inBuf|
    requires FedWithin(ParseStep(false), Iterate(st, turn).0,
                       ResolveFrom(Iterate(st, turn).0, Iterate(st, turn).1, bytes - 1), bytes - 1)
    ensures FedWithin(ParseStep(false), st, ResolveFrom(st, turn, bytes), bytes)
  {
    var it := Iterate(st, turn);
    IterateFeeds(st, turn);
    FedStep(ParseStep(false), st, it.0, if it.1 == InTurn then [st.inBuf[0]] else [],
            ResolveFrom(it.0, it.1, bytes - 1), bytes);
  }

  /**
   * `resolve_buffers` takes input bytes from the front of the input buffer, at
   * most one per unit of budget, and feeds exactly those bytes, in order, to the
   * parser as written; while the input queue has room for every message, each
   * completed message is appended to it. Output bytes are only ever appended.
   */
  lemma {:induction false} ResolveFeedsParser(st: State, turn: Turn, bytes: int)
    requires st.queueCapacity >= |st.inQueue| + |st.inBuf|
    ensures FedWithin(ParseStep(false), st, ResolveFrom(st, turn, bytes), bytes)
    decreases if bytes > 0 then bytes else 0
  {
    if HasWork(st) && bytes > 0 {
      var it := Iterate(st, turn);
      IterateFeeds(st, turn);
      ResolveFeedsParser(it.0, it.1, bytes - 1);
      FedIterate(st, turn, bytes);
    } else {
      assert st.inBuf == [] + st.inBuf;
      assert Feeds(ParseStep(false), st, st, []);
    }
  }

  /** Each iteration clears a pending error, so once the loop has run `error` is OK. */
  lemma {:induction false} ResolveClearsError(st: State, turn: Turn, bytes: int)
    requires HasWork(st) && bytes > 0
    ensures ResolveFrom(st, turn, bytes).st.error == OK
    decreases bytes
  {
    var (st', t') := Iterate(st, turn);
    if HasWork(st') && bytes - 1 > 0 {
      ResolveClearsError(st', t', bytes - 1);
    }
  }

  /**
   * Without `start_ok` the output side never runs: every iteration consumes one
   * input byte until the budget or the input runs out, and the output buffer is
   * left alone.
   */
  lemma {:induction false} ResolveWithoutStart(st: State, turn: Turn, bytes: int)
    requires !st.startOk && bytes >= 0
    ensures var r := ResolveFrom(st, turn, bytes).st;
            r.inBuf == st.inBuf[if bytes < |st.inBuf| then bytes else |st.inBuf|..] &&
            r.outBuf == st.outBuf && !r.startOk
    decreases bytes
  {
    if HasWork(st) && bytes > 0 {
      var (st', t') := Iterate(st, turn);
      assert ChooseTurn(st, turn) == InTurn;
      ResolveWithoutStart(st', t', bytes - 1);
      assert st'.inBuf == st.inBuf[1..];
    }
  }

  /**
   * A pending error becomes an outgoing message of that type with size 0 at the
   * back of the output queue (when the queue has room), and the flag is reset.
   */
  lemma ReportErrorQueuesMessage(st: State)
    requires st.error != OK && |st.outQueue| < st.queueCapacity
    ensures ReportError(st).outQueue == st.outQueue + [Message((st.error % 256) as Byte, 0, [])]
    ensures ReportError(st).error == OK
  {
  }

  // -------------------------------------------------------------- the device

  /** The resolver's global state, with the two ring buffers it owns. */
  class UsartState {
    const inBuffer: Buffer
    const outBuffer: Buffer
    var inCount: nat
    var mIn: Message
    var outCount: nat
    var mOut: Message
    var error: int
    var inQueue: seq<Message>
    var outQueue: seq<Message>
    const queueCapacity: nat
    var startOk: bool

    /** Two distinct buffers of the same length, each with its indices in range. */
    ghost predicate Valid()
      reads this, inBuffer, outBuffer
    {
      inBuffer != outBuffer && inBuffer.data != outBuffer.data &&
      inBuffer.Valid() && outBuffer.Valid() && inBuffer.data.Length == outBuffer.data.Length
    }

    /** The abstract value of the device state. */
    ghost function Abstract(): State
      reads this, inBuffer, outBuffer, inBuffer.data, outBuffer.data
      requires Valid()
    {
      State(inBuffer.Contents(), outBuffer.Contents(), outBuffer.data.Length,
            Parser(inCount, mIn), Serialiser(outCount, mOut),
            inQueue, outQueue, queueCapacity, error, startOk)
    }

    /**
     * The state after `initialize_usart`: two zeroed buffers, both counts 0,
     * no error; the static message caches start zeroed.
     */
    constructor (max: nat, capacity: nat, started: bool)
      requires max > 0
      ensures Valid() && fresh(inBuffer) && fresh(outBuffer) && fresh(inBuffer.data) && fresh(outBuffer.data)
      ensures Abstract() == State([], [], max, Parser(0, Message(0, 0, [])), Serialiser(0, Message(0, 0, [])),
                                  [], [], capacity, OK, started)
    {
      inBuffer := new Buffer(max);
      outBuffer := new Buffer(max);
      inCount, outCount := 0, 0;
      mIn, mOut := Message(0, 0, []), Message(0, 0, []);
      error := OK;
      inQueue, outQueue := [], [];
      queueCapacity := capacity;
      startOk := started;
    }

    /** `wipe_in_buffer`: drop pending input (`start := end`) and abandon the message being parsed. */
    method WipeInBuffer()
      requires Valid()
      modifies this`inCount, inBuffer
      ensures Valid() && inBuffer.end == old(inBuffer.end)
      ensures Abstract() == old(Abstract()).(inBuf := [], parser := old(Abstract()).parser.(count := 0))
    {
      inBuffer.Wipe();
      inCount := 0;
    }

    /** `wipe_out_buffer`: drop pending output and abandon the message being sent. */
    method WipeOutBuffer()
      requires Valid()
      modifies this`outCount, outBuffer
      ensures Valid() && outBuffer.end == old(outBuffer.end)
      ensures Abstract() == old(Abstract()).(outBuf := [], ser := old(Abstract()).ser.(count := 0))
    {
      outBuffer.Wipe();
      outCount := 0;
    }

    /**
     * The first half of `resolve_single_input`: interpret one byte according to
     * `in_count` (type, N-byte length, or data) and say whether the message is
     * complete by the code's own completion test.
     */
    method AbsorbInputByte(data: Byte) returns (done: bool)
      modifies this`mIn
      ensures Complete(inCount, mIn, done) == ParseByte(Parser(inCount, old(mIn)), data, false)
    {
      var nb := IsNB(mIn.msgType);
      done := false;
      if inCount == 0 {
        mIn := Message(data, 0, []);
        if Class(data) == NoDataType {
          mIn := mIn.(size := 0);
        } else if Class(data) == Data1BType {
          mIn := mIn.(size := 1, data := Zeros(1));
        } else if Class(data) == Data2BType {
          mIn := mIn.(size := 2, data := Zeros(2));
        } else {
          mIn := mIn.(size := 2);
        }
      } else if inCount == 1 && nb {
        mIn := mIn.(size := data, data := Zeros(data as nat));
      } else {
        var offset: int := if nb then inCount - 2 else inCount - 1;
        mIn := mIn.(data := Store(mIn.data, offset, data));
        done := if nb then offset + 2 != 0 else offset + 1 == mIn.size as int;
      }
    }

    /**
     * `resolve_single_input`. Its only caller runs it when the input buffer is
     * not empty; on an empty buffer the C code would parse an uninitialised byte.
     */
    method ResolveSingleInput()
      requires Valid() && !inBuffer.IsEmpty()
      modifies this`inCount, this`mIn, this`inQueue, this`error, inBuffer
      ensures Valid()
      ensures Abstract() == InputTurn(old(Abstract()))
    {
      ghost var before := Abstract();
      var status, data := inBuffer.Pop();
      var done := AbsorbInputByte(data);
      ghost var r := Complete(inCount, mIn, done);
      assert r == ParseByte(before.parser, before.inBuf[0], false);
      assert Abstract() == before.(inBuf := before.inBuf[1..], parser := Parser(inCount, mIn));
      if Class(mIn.msgType) == NoDataType || done {
        if |inQueue| < queueCapacity {
          inQueue := inQueue + [mIn];
        } else {
          error := MessageErrorType;
        }
        inCount := 0;
      } else {
        inCount := inCount + 1;
      }
      assert Parser(inCount, mIn) == r.parser;
    }

    /**
     * The first half of `resolve_single_output`: when idle take the next message
     * (forcing a non-N-byte size to `type >> 6`), then choose the byte to send
     * according to `out_count` (type, N-byte size, or data).
     */
    method NextOutputByte() returns (e: Emitted)
      modifies this`mOut, this`outQueue
      ensures e == EmitByte(Serialiser(outCount, old(mOut)), old(outQueue))
      ensures mOut == e.ser.msg && outQueue == e.queue
    {
      var data: Byte;
      var offset: int := -2;
      if outCount == 0 {
        if outQueue == [] {
          return Emitted(Serialiser(0, mOut), outQueue, None);
        }
        mOut, outQueue := outQueue[0], outQueue[1..];
        data := mOut.msgType;
        if !IsNB(mOut.msgType) {
          mOut := mOut.(size := mOut.msgType >> 6);
        }
      } else if IsNB(mOut.msgType) && outCount == 1 {
        data := mOut.size;
      } else {
        offset := if IsNB(mOut.msgType) then outCount - 2 else outCount - 1;
        data := ByteAt(mOut.data, offset);
      }
      var next := outCount + 1;
      if Class(mOut.msgType) == NoDataType || offset + 1 == mOut.size as int {
        next := 0;
      }
      e := Emitted(Serialiser(next, mOut), outQueue, Some(data));
    }

    /**
     * `resolve_single_output`: one byte of the current message goes into the
     * output buffer (a push into a full buffer is dropped), and `out_count`
     * returns to 0 at the end of the message.
     */
    method ResolveSingleOutput()
      requires Valid()
      modifies this`outCount, this`mOut, this`outQueue, outBuffer, outBuffer.data
      ensures Valid()
      ensures Abstract() == OutputTurn(old(Abstract()))
    {
      var e := NextOutputByte();
      if e.byte.Some? {
        var status := outBuffer.Push(e.byte.value);
      }
      outCount := e.ser.count;
    }

    /** The loop condition of `resolve_buffers`, read off the buffer indices. */
    method HasWorkNow() returns (b: bool)
      requires Valid()
      ensures b == HasWork(Abstract())
    {
      b := !inBuffer.IsEmpty() ||
           (!outBuffer.IsFull() && (|outQueue| > 0 || outCount != 0) && startOk);
    }

    /** The turn rule of `resolve_buffers`, read off the buffer indices and the queue. */
    method NextTurn(prev: Turn) returns (turn: Turn)
      requires Valid()
      ensures turn == ChooseTurn(Abstract(), prev)
    {
      if inBuffer.IsEmpty() {
        turn := OutTurn;
      } else if outBuffer.IsFull() || |outQueue| == 0 || !startOk {
        turn := InTurn;
      } else {
        turn := Flip(prev);
      }
    }

    /** The loop body's dispatch: `resolve_single_input` or `resolve_single_output`. */
    method ResolveTurn(turn: Turn)
      requires Valid() && (turn == InTurn ==> !inBuffer.IsEmpty())
      modifies this`inCount, this`mIn, this`inQueue, this`error, this`outCount, this`mOut, this`outQueue
      modifies inBuffer, outBuffer, outBuffer.data
      ensures Valid()
      ensures Abstract() == if turn == InTurn then InputTurn(old(Abstract())) else OutputTurn(old(Abstract()))
    {
      if turn == InTurn {
        ResolveSingleInput();
      } else {
        ResolveSingleOutput();
      }
    }

    /** The end of each iteration: a pending error is queued as a size-0 message of that type. */
    method ReportPendingError()
      requires Valid()
      modifies this`outQueue, this`error
      ensures Valid()
      ensures Abstract() == ReportError(old(Abstract()))
    {
      if error != OK {
        var m := Message((error % 256) as Byte, 0, []);
        outQueue := QueuePush(outQueue, queueCapacity, m).0;
        error := OK;
      }
    }

    /** One pass of the loop body in `resolve_buffers`, after the previous turn `prev`. */
    method Iteration(prev: Turn) returns (turn: Turn)
      requires Valid() && HasWork(Abstract())
      modifies this`inCount, this`mIn, this`inQueue, this`error, this`outCount, this`mOut, this`outQueue
      modifies inBuffer, outBuffer, outBuffer.data
      ensures Valid()
      ensures (Abstract(), turn) == Iterate(old(Abstract()), prev)
    {
      turn := NextTurn(prev);
      ResolveTurn(turn);
      ReportPendingError();
    }

    /**
     * `resolve_buffers(bytes)`: alternate between input and output for at most
     * `bytes` iterations, turning a pending error into an outgoing message after
     * each one.
     */
    method ResolveBuffers(bytes: int)
      requires Valid()
      modifies this`inCount, this`mIn, this`inQueue, this`error, this`outCount, this`mOut, this`outQueue
      modifies inBuffer, outBuffer, outBuffer.data
      ensures Valid()
      ensures Abstract() == ResolveBuffersSpec(old(Abstract()), bytes)
    {
      var turn := InTurn;
      var left := bytes;
      var work := HasWorkNow();
      while work && left > 0
        invariant Valid()
        invariant work == HasWork(Abstract())
        invariant ResolveFrom(Abstract(), turn, left).st == ResolveBuffersSpec(old(Abstract()), bytes)
        decreases left
      {
        turn := Iteration(turn);
        left := left - 1;
        work := HasWorkNow();
      }
    }
  }
}
