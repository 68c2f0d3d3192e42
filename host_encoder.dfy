/**
 * The host's outbound path (`Communicator.write_packet`): resolve a symbolic
 * name to an opcode through `poll_messages`, then write the opcode byte and the
 * payload bytes one at a time, without a length prefix.
 */
module HostEncoder {
  import opened Wrappers
  import opened HostProfile

  /** How a write request ends. */
  datatype WriteStatus =
    | Sent            // opcode (and payload) written
    | NotRegistered   // name not in `poll_messages`: "Write type not recognized", nothing written
    | ChrFailed       // `chr` raised on the stored value: nothing written

  /** The bytes a write request puts on the link, and how it ended. */
  datatype Written = Written(wire: seq<Byte>, status: WriteStatus)

  /**
   * Python's `chr` on a stored poll value: a one-byte string for an integer in
   * 0..255; a `ValueError` for any other integer and a `TypeError` for a string.
   */
  function Chr(v: PollValue): (r: Option<Byte>)
    ensures r.Some? <==> v.Code? && 0 <= v.n < 256
  {
    match v
    case Code(n) => if 0 <= n < 256 then Some(n as Byte) else None
    case Text(_) => None
  }

  /**
   * What one write request produces: for a registered name whose value `chr`
   * accepts, that opcode followed by the payload bytes in order (no length
   * byte); otherwise nothing at all.
   */
  function Encode(polls: map<string, PollValue>, name: string, data: Option<seq<Byte>>): (w: Written)
    ensures w.status == NotRegistered <==> name !in polls
    ensures w.status == ChrFailed <==> name in polls && Chr(polls[name]).None?
    ensures w.status != Sent ==> w.wire == []
    ensures w.status == Sent ==>
              |w.wire| == 1 + |Flatten(data)| && Chr(polls[name]) == Some(w.wire[0]) && w.wire[1..] == Flatten(data)
  {
    if name !in polls then Written([], NotRegistered)
    else
      match Chr(polls[name])
      case None => Written([], ChrFailed)
      case Some(op) => Written([op] + Flatten(data), Sent)
  }

  /** `write_packet`: writes the opcode, then each payload byte in turn. */
  method WritePacket(polls: map<string, PollValue>, name: string, data: Option<seq<Byte>>)
    returns (wire: seq<Byte>, status: WriteStatus)
    ensures Written(wire, status) == Encode(polls, name, data)
  {
    wire := [];
    if name !in polls {
      status := NotRegistered;
      return;
    }
    var op := Chr(polls[name]);
    if op.None? {
      status := ChrFailed;
      return;
    }
    wire := [op.value];
    if data.Some? {
      var i := 0;
      while i < |data.value|
        invariant 0 <= i <= |data.value|
        invariant wire == [op.value] + data.value[..i]
      {
        wire := wire + [data.value[i]];
        i := i + 1;
      }
      assert data.value[..i] == data.value;
    }
    status := Sent;
  }

  /** 'motors' with payload [1, 2] puts exactly 0x80, 1, 2 on the link. */
  lemma MotorsExample()
    ensures Encode(MilaurProfile().polls, "motors", Some([1, 2])) == Written([0x80, 1, 2], Sent)
  {
    MilaurTables();
    assert Chr(Code(0x80)) == Some(0x80);
  }

  /** 'init_towbot_poll', written by the nunchuck handler, is not registered: nothing is written. */
  lemma UnregisteredNameWritesNothing(data: Option<seq<Byte>>)
    ensures Encode(MilaurProfile().polls, "init_towbot_poll", data) == Written([], NotRegistered)
  {
    MilaurTables();
  }

  /** The base table's 'example_poll_msg' stores the string '0F', which `chr` rejects. */
  lemma ExamplePollMessageFails(data: Option<seq<Byte>>)
    ensures Encode(MilaurProfile().polls, "example_poll_msg", data) == Written([], ChrFailed)
  {
    MilaurTables();
  }
}
