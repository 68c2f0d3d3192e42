/**
 * The host's lookup tables: the length-class table, the opcode -> handler table
 * (`action_dict`) and the name -> opcode table (`poll_messages`), for the generic
 * communicator and for the MILAUR device profile that extends it.
 */
module HostProfile {
  import opened Wrappers

  /** The handlers the MILAUR profile registers; only their identity matters to framing. */
  datatype Handler = GotXmegaError | TowbotNunchuckEcho | GotTest

  /**
   * A value stored in `poll_messages`. The base table stores the string '0F',
   * the device profile stores integers, and `chr` accepts only the latter.
   */
  datatype PollValue = Code(n: int) | Text(s: string)

  /** The three tables one communicator consults; as in the source, their keys are integers. */
  datatype Profile = Profile(
    actions: map<int, Handler>,
    polls: map<string, PollValue>,
    byteTypeDefs: map<int, nat>)

  /** Length class key -> number of payload bytes, for opcodes of known length. */
  const ByteTypeDefs: map<int, nat> := map[0x00 := 0, 0x40 := 1, 0x80 := 2]

  /** The generic communicator: no handlers, one example poll message stored as a string. */
  function BaseProfile(): (p: Profile)
    ensures p.actions == map[]
    ensures p.byteTypeDefs.Keys == {0x00, 0x40, 0x80}
  {
    Profile(map[], map["example_poll_msg" := Text("0F")], ByteTypeDefs)
  }

  /**
   * Layers entries on top of a profile the way `dict.update` does: every added key
   * is present with its new value, every other key keeps its old value, and the
   * length-class table is shared unchanged.
   */
  function Extend(base: Profile, actions: map<int, Handler>, polls: map<string, PollValue>): (p: Profile)
    ensures p.actions.Keys == base.actions.Keys + actions.Keys
    ensures forall k :: k in actions ==> p.actions[k] == actions[k]
    ensures forall k :: k in base.actions && k !in actions ==> p.actions[k] == base.actions[k]
    ensures p.polls.Keys == base.polls.Keys + polls.Keys
    ensures forall n :: n in polls ==> p.polls[n] == polls[n]
    ensures forall n :: n in base.polls && n !in polls ==> p.polls[n] == base.polls[n]
    ensures p.byteTypeDefs == base.byteTypeDefs
  {
    var a := base.actions + actions;
    var q := base.polls + polls;
    Profile(a, q, base.byteTypeDefs)
  }

  /** Handlers added by the MILAUR profile. */
  const MilaurActions: map<int, Handler> :=
    map[0xF0 := GotXmegaError, 0xC0 := TowbotNunchuckEcho, 0x40 := GotTest]

  /** Outbound names added by the MILAUR profile. */
  const MilaurPolls: map<string, PollValue> :=
    map["robot_start" := Code(0x02), "motors" := Code(0x80), "debug" := Code(0x40)]

  /** The MILAUR communicator: the base profile with the device's entries layered on top. */
  function MilaurProfile(): Profile
  {
    Extend(BaseProfile(), MilaurActions, MilaurPolls)
  }

  /** Which tables the MILAUR profile ends up with, including the base entry it keeps. */
  lemma MilaurTables()
    ensures MilaurProfile().actions.Keys == {0xF0, 0xC0, 0x40}
    ensures MilaurProfile().actions[0xC0] == TowbotNunchuckEcho
    ensures MilaurProfile().actions[0xF0] == GotXmegaError
    ensures MilaurProfile().actions[0x40] == GotTest
    ensures MilaurProfile().polls.Keys == {"example_poll_msg", "robot_start", "motors", "debug"}
    ensures MilaurProfile().polls["example_poll_msg"] == Text("0F")
    ensures MilaurProfile().polls["motors"] == Code(0x80)
    ensures MilaurProfile().byteTypeDefs == ByteTypeDefs
  {
  }
}
