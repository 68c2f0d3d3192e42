/**
 * The two ends of the serial link together: what the host's reader makes of
 * the bytes the device's serialiser sends, and what the device's parser makes
 * of the bytes the host's writer sends. Both sides agree on the type classes
 * (the top two bits of the type byte); the host decides payload lengths with
 * `byte_type_defs` and a length byte, the device with `DATA_MASK` and a size
 * byte.
 */
module Link {
  import opened Wrappers
  import HostProfile
  import HostDecoder
  import HostEncoder
  import DeviceFraming

  /**
   * A fixed-length message the device sends (classes 00, 01, 10) is read by a
   * host whose table-length test is the intended way round as one frame of
   * exactly its wire length; the handler registered for its type, if any, gets
   * the data the device actually put on the wire.
   */
  lemma {:induction false} FixedFrameReadByIntendedHost(p: HostProfile.Profile, m: DeviceFraming.Message, rest: seq<Byte>)
    requires p.byteTypeDefs == HostProfile.ByteTypeDefs
    requires !DeviceFraming.IsNB(m.msgType)
    ensures var t := m.msgType;
            var w := DeviceFraming.Wire(m);
            HostDecoder.DecodeStepIntended(p, w + rest, 0) ==
              HostDecoder.Decoded(
                HostDecoder.Frame(t, HostDecoder.ErrorFlag(t),
                  if t as int in p.actions
                  then HostDecoder.Dispatch(p.actions[t as int],
                         if t < 0x40 then HostDecoder.Absent else HostDecoder.Bytes(DeviceFraming.Normalise(m).data))
                  else HostDecoder.NoActionFun),
                |w|)
  {
    var t := m.msgType;
    DeviceFraming.FixedSize(t);
    var payload := DeviceFraming.Prefix(m.data, (t >> 6) as nat);
    assert DeviceFraming.Wire(m) == [t] + payload;
    assert DeviceFraming.Wire(m) + rest == [t] + payload + rest;
    HostDecoder.IntendedTableFrame(p, t, payload, rest);
  }

  /**
   * An N-byte message the device sends (class 11) is read by the host, as
   * written, as one frame of exactly its wire length when a handler is
   * registered for its type, and the handler gets its data.
   */
  lemma {:induction false} NbFrameReadByHost(p: HostProfile.Profile, m: DeviceFraming.Message, rest: seq<Byte>)
    requires p.byteTypeDefs == HostProfile.ByteTypeDefs
    requires DeviceFraming.IsNB(m.msgType) && m.msgType as int in p.actions
    ensures var t := m.msgType;
            var w := DeviceFraming.Wire(m);
            HostDecoder.DecodeStep(p, w + rest, 0) ==
              HostDecoder.Decoded(
                HostDecoder.Frame(t, HostDecoder.ErrorFlag(t),
                  HostDecoder.Dispatch(p.actions[t as int], HostDecoder.Bytes(DeviceFraming.Normalise(m).data))),
                |w|)
  {
    var t := m.msgType;
    var payload := DeviceFraming.Normalise(m).data;
    NbWire(m);
    assert [] + [t, m.size] + payload + rest == DeviceFraming.Wire(m) + rest;
    HostDecoder.NByteFrame(p, [], t, m.size, payload, rest);
  }

  /** An N-byte message's wire form: type, size, then as many data bytes as the size says. */
  lemma NbWire(m: DeviceFraming.Message)
    requires DeviceFraming.IsNB(m.msgType)
    ensures var d := DeviceFraming.Normalise(m).data;
            |d| == m.size as int && DeviceFraming.Wire(m) == [m.msgType, m.size] + d
  {
    DeviceFraming.FixedSize(m.msgType);
  }

  /**
   * What the host writes for a registered fixed-length opcode, with exactly the
   * payload its class calls for, is parsed by the device, as written, into one
   * message carrying that opcode and payload, after which the parser is idle.
   */
  lemma {:induction false} HostWriteParsedByDevice(polls: map<string, HostProfile.PollValue>, name: string,
                                                   d: seq<Byte>, other: DeviceFraming.Message)
    requires HostEncoder.Encode(polls, name, Some(d)).status == HostEncoder.Sent
    requires var op := HostEncoder.Encode(polls, name, Some(d)).wire[0];
             !DeviceFraming.IsNB(op) && |d| == (op >> 6) as nat
    ensures var op := HostEncoder.Encode(polls, name, Some(d)).wire[0];
            var m := DeviceFraming.Message(op, op >> 6, d);
            DeviceFraming.ParseAll(DeviceFraming.Parser(0, other), HostEncoder.Encode(polls, name, Some(d)).wire, false) ==
              DeviceFraming.Parsing(DeviceFraming.Parser(0, m), [m])
  {
    var w := HostEncoder.Encode(polls, name, Some(d)).wire;
    var op := w[0];
    var m := DeviceFraming.Message(op, op >> 6, d);
    assert w == [op] + d;
    assert DeviceFraming.Wire(m) == w;
    assert DeviceFraming.Normalise(m) == m;
    DeviceFraming.FixedRoundTrip(m, other, other, []);
  }
}
