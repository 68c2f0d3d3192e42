/**
 * The body of the host's read loop (`Communicator.read_packets`): classify one
 * opcode by its top two bits, decide how many bytes the frame occupies, and
 * choose the handler it is dispatched to. The serial port is a finite byte
 * sequence with a read cursor; a read that would need bytes beyond its end
 * blocks, which the model reports as `Blocked` without consuming anything.
 */
module HostDecoder {
  import opened Wrappers
  import opened HostProfile

  /** Opcode bits that select the length class. */
  const TypeMask: Byte := 0xC0
  /** Opcode bits that, both set, flag a device-side error. */
  const ErrorMask: Byte := 0x30

  /** What a handler is called with: Python's `None`, or the string `serial.read` returned. */
  datatype Payload = Absent | Bytes(bytes: seq<Byte>)

  /** What the loop does with one frame. */
  datatype Outcome =
    | Dispatch(handler: Handler, payload: Payload)  // the registered handler is called
    | NoActionFun                                   // table-length opcode without a handler
    | NotRecognised                                 // neither table-length nor registered

  /** One decoded frame: its opcode, the computed error flag and what was done with it. */
  datatype Frame = Frame(opcode: Byte, error: bool, outcome: Outcome)

  /** One iteration of the loop: a frame and the cursor after it, or a read that blocks. */
  datatype Step = Decoded(frame: Frame, next: nat) | Blocked

  /** The length-class key of an opcode. */
  function LengthClass(op: Byte): Byte
  {
    op & TypeMask
  }

  /** The error flag: both error bits set. */
  predicate ErrorFlag(op: Byte)
  {
    op & ErrorMask == ErrorMask
  }

  /**
   * One iteration of the read loop starting at `pos`. With `intended` false this
   * is the code as written: a table-length frame never reads payload bytes,
   * classes with a non-zero length pass `None` and class 0 passes the result of
   * `read(0)`, the empty string. With `intended` true the two branches of that
   * test are swapped, so a table-length frame reads its payload.
   * An N-byte frame's length byte is taken as an unsigned byte value.
   */
  function ReadFrame(p: Profile, input: seq<Byte>, pos: nat, intended: bool): (s: Step)
    ensures s.Decoded? ==> pos < s.next <= |input|
    ensures s.Decoded? ==> s.frame.opcode == input[pos] && s.frame.error == ErrorFlag(input[pos])
    ensures pos >= |input| ==> s.Blocked?
  {
    if pos >= |input| then Blocked
    else
      var op := input[pos];
      var err := ErrorFlag(op);
      var cls := LengthClass(op) as int;
      if cls in p.byteTypeDefs then
        var n := p.byteTypeDefs[cls];
        if intended && n > 0 && pos + 1 + n > |input| then Blocked
        else
          var data :=
            if intended then (if n > 0 then Bytes(input[pos + 1 .. pos + 1 + n]) else Absent)
            else (if n > 0 then Absent else Bytes([]));
          var next := if intended && n > 0 then pos + 1 + n else pos + 1;
          var outcome := if op as int in p.actions then Dispatch(p.actions[op as int], data) else NoActionFun;
          Decoded(Frame(op, err, outcome), next)
      else if op as int in p.actions then
        if pos + 1 >= |input| then Blocked
        else
          var n := input[pos + 1] as nat;
          if pos + 2 + n > |input| then Blocked
          else Decoded(Frame(op, err, Dispatch(p.actions[op as int], Bytes(input[pos + 2 .. pos + 2 + n]))), pos + 2 + n)
      else Decoded(Frame(op, err, NotRecognised), pos + 1)
  }

  /** One iteration of the read loop as the source does it. */
  function DecodeStep(p: Profile, input: seq<Byte>, pos: nat): Step
  {
    ReadFrame(p, input, pos, false)
  }

  /** One iteration with the table-length test the other way round. */
  function DecodeStepIntended(p: Profile, input: seq<Byte>, pos: nat): Step
  {
    ReadFrame(p, input, pos, true)
  }

  /** Opcodes whose top two bits are 00, 01 or 10 are table-length; 0xC0..0xFF never are. */
  lemma {:induction false} TableClasses(op: Byte)
    ensures (LengthClass(op) as int in ByteTypeDefs) <==> op < 0xC0
    ensures op < 0xC0 ==> ByteTypeDefs[LengthClass(op) as int] == (op >> 6) as nat
  {
    if op < 0x40 {
      assert LengthClass(op) == 0;
    } else if op < 0x80 {
      assert LengthClass(op) == 0x40;
    } else if op < 0xC0 {
      assert LengthClass(op) == 0x80;
    } else {
      assert LengthClass(op) == 0xC0;
    }
  }

  /**
   * The error flag is exactly "bits 5 and 4 both set", and those bits are not
   * part of the length class, so setting or clearing them never changes it.
   */
  lemma ErrorFlagBits(op: Byte)
    ensures ErrorFlag(op) <==> (op as int / 16) % 4 == 3
    ensures LengthClass(op | ErrorMask) == LengthClass(op)
    ensures LengthClass(op & !ErrorMask) == LengthClass(op)
  {
  }

  /**
   * A table-length frame consumes only its opcode. The handler, looked up by the
   * exact opcode, gets the empty read for class 0 and `None` for classes 1 and 2;
   * without a handler nothing is called.
   */
  lemma {:induction false} TableFrame(p: Profile, input: seq<Byte>, pos: nat)
    requires p.byteTypeDefs == ByteTypeDefs
    requires pos < |input| && input[pos] < 0xC0
    ensures DecodeStep(p, input, pos) ==
      Decoded(Frame(input[pos], ErrorFlag(input[pos]),
                    if input[pos] as int in p.actions
                    then Dispatch(p.actions[input[pos] as int], if input[pos] < 0x40 then Bytes([]) else Absent)
                    else NoActionFun),
              pos + 1)
  {
    TableClasses(input[pos]);
  }

  /**
   * An N-byte frame (class 11, registered opcode) consumes the opcode, a length
   * byte L and L payload bytes, and its handler receives exactly those L bytes.
   */
  lemma {:induction false} NByteFrame(p: Profile, prefix: seq<Byte>, op: Byte, len: Byte, payload: seq<Byte>, rest: seq<Byte>)
    requires p.byteTypeDefs == ByteTypeDefs
    requires op >= 0xC0 && op as int in p.actions
    requires len as int == |payload|
    ensures DecodeStep(p, prefix + [op, len] + payload + rest, |prefix|) ==
      Decoded(Frame(op, ErrorFlag(op), Dispatch(p.actions[op as int], Bytes(payload))), |prefix| + 2 + |payload|)
  {
    TableClasses(op);
    NByteLayout(prefix, op, len, payload, rest);
  }

  /** Where the opcode, the length byte and the payload sit in a stream holding an N-byte frame. */
  lemma NByteLayout(prefix: seq<Byte>, op: Byte, len: Byte, payload: seq<Byte>, rest: seq<Byte>)
    ensures var input := prefix + [op, len] + payload + rest;
            |input| == |prefix| + 2 + |payload| + |rest| &&
            input[|prefix|] == op && input[|prefix| + 1] == len &&
            input[|prefix| + 2 .. |prefix| + 2 + |payload|] == payload
  {
    var input := prefix + [op, len] + payload + rest;
    assert input[|prefix|] == op && input[|prefix| + 1] == len;
    assert input[|prefix| + 2 .. |prefix| + 2 + |payload|] == payload;
  }

  /**
   * An opcode of class 11 without a handler consumes only itself, calls nothing,
   * and decoding resumes at the very next byte.
   */
  lemma {:induction false} UnrecognisedFrame(p: Profile, input: seq<Byte>, pos: nat)
    requires p.byteTypeDefs == ByteTypeDefs
    requires pos < |input| && input[pos] >= 0xC0 && input[pos] as int !in p.actions
    ensures DecodeStep(p, input, pos) == Decoded(Frame(input[pos], ErrorFlag(input[pos]), NotRecognised), pos + 1)
  {
    TableClasses(input[pos]);
  }

  /**
   * How many bytes a frame consumes depends on the opcode only through its length
   * class and whether it is registered: two opcodes that agree on those (for
   * instance ones that differ only in the error bits) consume the same bytes.
   */
  lemma {:induction false} ConsumptionIgnoresErrorBits(p: Profile, input: seq<Byte>, pos: nat, other: Byte)
    requires pos < |input|
    requires LengthClass(other) == LengthClass(input[pos])
    requires (other as int in p.actions) <==> (input[pos] as int in p.actions)
    ensures DecodeStep(p, input[pos := other], pos).Blocked? == DecodeStep(p, input, pos).Blocked?
    ensures DecodeStep(p, input, pos).Decoded? ==>
              DecodeStep(p, input[pos := other], pos).next == DecodeStep(p, input, pos).next
  {
    var input' := input[pos := other];
    assert input'[pos + 1..] == input[pos + 1..];
    if pos + 1 < |input| {
      assert input'[pos + 1] == input[pos + 1];
    }
    if pos + 2 <= |input| {
      var n := input[pos + 1] as nat;
      if pos + 2 + n <= |input| {
        assert input'[pos + 2 .. pos + 2 + n] == input[pos + 2 .. pos + 2 + n];
      }
    }
  }

  /** The result of running the loop for at most `fuel` iterations. */
  datatype Run = Run(frames: seq<Frame>, pos: nat)

  /**
   * The read loop bounded to `fuel` iterations: it stops early only when the
   * next read would block.
   */
  function DecodeRun(p: Profile, input: seq<Byte>, pos: nat, fuel: nat): (r: Run)
    ensures |r.frames| <= fuel
    ensures pos <= r.pos && (r.pos == pos || r.pos <= |input|)
    decreases fuel
  {
    if fuel == 0 then Run([], pos)
    else
      match DecodeStep(p, input, pos)
      case Blocked => Run([], pos)
      case Decoded(f, next) =>
        var r := DecodeRun(p, input, next, fuel - 1);
        Run([f] + r.frames, r.pos)
  }

  /**
   * The read loop, stopped after `maxFrames` frames or at the first read that
   * would block; it returns the frames in the order their handlers are called
   * and the read cursor.
   */
  method ReadPackets(p: Profile, input: seq<Byte>, maxFrames: nat) returns (frames: seq<Frame>, pos: nat)
    ensures Run(frames, pos) == DecodeRun(p, input, 0, maxFrames)
    ensures |frames| <= maxFrames && pos <= |input|
  {
    frames, pos := [], 0;
    var left: nat := maxFrames;
    while left > 0
      invariant pos <= |input| && |frames| + left <= maxFrames
      invariant DecodeRun(p, input, 0, maxFrames) ==
                  Run(frames + DecodeRun(p, input, pos, left).frames, DecodeRun(p, input, pos, left).pos)
    {
      var step := DecodeStep(p, input, pos);
      if step.Blocked? {
        assert DecodeRun(p, input, pos, left) == Run([], pos);
        assert frames + [] == frames;
        return;
      }
      RunDecoded(p, input, pos, left);
      frames, pos, left := frames + [step.frame], step.next, left - 1;
    }
    assert frames + [] == frames;
  }

  /** After a decoded frame the loop goes on from where that frame ended. */
  lemma RunDecoded(p: Profile, input: seq<Byte>, pos: nat, fuel: nat)
    requires fuel > 0 && DecodeStep(p, input, pos).Decoded?
    ensures var s := DecodeStep(p, input, pos);
            var r := DecodeRun(p, input, s.next, fuel - 1);
            DecodeRun(p, input, pos, fuel) == Run([s.frame] + r.frames, r.pos)
  {
  }

  /** A frame's decoding never looks past its last byte: appending input changes nothing. */
  lemma {:induction false} DecodeStepExtends(p: Profile, input: seq<Byte>, more: seq<Byte>, pos: nat)
    requires DecodeStep(p, input, pos).Decoded?
    ensures DecodeStep(p, input + more, pos) == DecodeStep(p, input, pos)
  {
    var all := input + more;
    assert all[pos] == input[pos];
    if pos + 1 < |input| {
      assert all[pos + 1] == input[pos + 1];
    }
    forall i, j | pos + 1 <= i <= j <= |input|
      ensures all[i .. j] == input[i .. j]
    {
    }
  }

  /** A frame decodes the same wherever it sits in the stream. */
  lemma {:induction false} DecodeStepShift(p: Profile, prefix: seq<Byte>, input: seq<Byte>, pos: nat)
    ensures DecodeStep(p, prefix + input, |prefix| + pos) ==
      match DecodeStep(p, input, pos)
      case Blocked => Blocked
      case Decoded(f, next) => Decoded(f, |prefix| + next)
  {
    var all := prefix + input;
    if pos < |input| {
      assert all[|prefix| + pos] == input[pos];
      if pos + 1 < |input| {
        assert all[|prefix| + pos + 1] == input[pos + 1];
      }
      assert all[|prefix| + pos + 1 ..] == input[pos + 1 ..];
      forall i, j | pos + 1 <= i <= j <= |input|
        ensures all[|prefix| + i .. |prefix| + j] == input[i .. j]
      {
      }
    }
  }

  /** The bounded loop decodes the same frames wherever the stream starts. */
  lemma {:induction false} DecodeRunShift(p: Profile, prefix: seq<Byte>, input: seq<Byte>, pos: nat, fuel: nat)
    ensures DecodeRun(p, prefix + input, |prefix| + pos, fuel).frames == DecodeRun(p, input, pos, fuel).frames
    ensures DecodeRun(p, prefix + input, |prefix| + pos, fuel).pos == |prefix| + DecodeRun(p, input, pos, fuel).pos
    decreases fuel
  {
    if fuel > 0 {
      DecodeStepShift(p, prefix, input, pos);
      match DecodeStep(p, input, pos)
      case Blocked =>
      case Decoded(f, next) =>
        DecodeRunShift(p, prefix, input, next, fuel - 1);
    }
  }

  /** `k` back-to-back copies of a byte string. */
  function Repeat(f: seq<Byte>, k: nat): seq<Byte>
  {
    if k == 0 then [] else f + Repeat(f, k - 1)
  }

  /**
   * A complete frame at the head of the stream is decoded on its own, and the
   * loop then decodes what follows as if the stream started there.
   */
  lemma {:induction false} FirstFrameThenRest(p: Profile, f: seq<Byte>, fr: Frame, rest: seq<Byte>, fuel: nat)
    requires DecodeStep(p, f, 0) == Decoded(fr, |f|) && fuel > 0
    ensures DecodeRun(p, f + rest, 0, fuel) ==
      Run([fr] + DecodeRun(p, rest, 0, fuel - 1).frames, |f| + DecodeRun(p, rest, 0, fuel - 1).pos)
  {
    DecodeStepExtends(p, f, rest, 0);
    RunDecoded(p, f + rest, 0, fuel);
    DecodeRunShift(p, f, rest, 0, fuel - 1);
  }

  /**
   * No state leaks from one frame to the next: a stream of `k` identical frames
   * produces `k` identical dispatches and consumes exactly those frames.
   */
  lemma {:induction false} RepeatedFrames(p: Profile, f: seq<Byte>, fr: Frame, k: nat)
    requires DecodeStep(p, f, 0) == Decoded(fr, |f|)
    ensures DecodeRun(p, Repeat(f, k), 0, k) == Run(seq(k, _ => fr), |Repeat(f, k)|)
  {
    if k > 0 {
      var rest := Repeat(f, k - 1);
      FirstFrameThenRest(p, f, fr, rest, k);
      RepeatedFrames(p, f, fr, k - 1);
      assert seq(k, _ => fr) == [fr] + seq(k - 1, _ => fr);
    }
  }

  /** A nunchuck frame: opcode 0xC0, length 6 and six bytes reach the nunchuck handler intact. */
  lemma NunchuckScenario(s: seq<Byte>)
    requires |s| == 6
    ensures DecodeRun(MilaurProfile(), [0xC0, 0x06] + s, 0, 1) ==
      Run([Frame(0xC0, false, Dispatch(TowbotNunchuckEcho, Bytes(s)))], 8)
  {
    MilaurTables();
    NByteFrame(MilaurProfile(), [], 0xC0, 0x06, s, []);
    assert [] + [0xC0 as Byte, 0x06] + s + [] == [0xC0, 0x06] + s;
  }

  /** Two 0x40 opcodes call the test handler twice, with `None`, and consume two bytes. */
  lemma TwoTestFrames()
    ensures DecodeRun(MilaurProfile(), [0x40, 0x40], 0, 2) ==
      Run([Frame(0x40, false, Dispatch(GotTest, Absent)), Frame(0x40, false, Dispatch(GotTest, Absent))], 2)
  {
    MilaurTables();
    TableFrame(MilaurProfile(), [0x40, 0x40], 0);
    TableFrame(MilaurProfile(), [0x40, 0x40], 1);
  }

  /**
   * The code as written does not read a table-length payload: a 0x40 frame
   * followed by its data byte 0x05 dispatches `None` and then decodes 0x05 as
   * a new opcode, for which no handler exists.
   */
  lemma TableClassDropsPayload()
    ensures DecodeRun(MilaurProfile(), [0x40, 0x05], 0, 2) ==
      Run([Frame(0x40, false, Dispatch(GotTest, Absent)), Frame(0x05, false, NoActionFun)], 2)
  {
    MilaurTables();
    TableFrame(MilaurProfile(), [0x40, 0x05], 0);
    TableFrame(MilaurProfile(), [0x40, 0x05], 1);
  }

  /**
   * With the test the intended way round, a table-length frame consumes its
   * opcode and the `op >> 6` bytes that follow, and hands those bytes to the
   * handler (`None` for class 0).
   */
  lemma {:induction false} IntendedTableFrame(p: Profile, op: Byte, payload: seq<Byte>, rest: seq<Byte>)
    requires p.byteTypeDefs == ByteTypeDefs
    requires op < 0xC0 && |payload| == (op >> 6) as nat
    ensures DecodeStepIntended(p, [op] + payload + rest, 0) ==
      Decoded(Frame(op, ErrorFlag(op),
                    if op as int in p.actions
                    then Dispatch(p.actions[op as int], if op < 0x40 then Absent else Bytes(payload))
                    else NoActionFun),
              1 + |payload|)
  {
    TableClasses(op);
    var input := [op] + payload + rest;
    assert input[0] == op;
    assert input[1 .. 1 + |payload|] == payload;
  }
}
