/** The option negotiator of telnet.c: the table of option states and the steps of the Q method of
    RFC 1143, as functions. */
module TelnetOptions {
  import opened Bytes

  datatype Q = No | Yes | WantNo | WantYes | WantNoOp | WantYesOp

  datatype Command = Will | Wont | Do | Dont

  /** A negotiation: IAC, the command, the option. */
  datatype Message = Message(cmd: Command, opt: byte)

  datatype Event = OptionEvent(cmd: Command, opt: byte) | Warning

  /** One entry of the table; memory added in advance holds zeroes. */
  datatype Slot = Slot(telopt: byte, us: Q, him: Q)

  datatype State = State(us: Q, him: Q)

  const SPARE := Slot(0, No, No)
  const OFF := State(No, No)

  /** What the application accepts: options it performs itself, options it lets the peer perform. */
  datatype Support = Support(us: set<byte>, him: set<byte>)

  // ---------------------------------------------------------------- the table

  /** Position of the option's entry, or |q|. */
  function Position(q: seq<Slot>, opt: byte): (i: nat)
    ensures i <= |q| && (i < |q| ==> q[i].telopt == opt)
    ensures forall j :: 0 <= j < i ==> q[j].telopt != opt
  {
    if q == [] || q[0].telopt == opt then 0 else 1 + Position(q[1..], opt)
  }

  function Get(q: seq<Slot>, opt: byte): State {
    var i := Position(q, opt);
    if i < |q| then State(q[i].us, q[i].him) else OFF
  }

  /** The table grows by four entries; its size is kept in an unsigned byte. */
  function Put(q: seq<Slot>, opt: byte, s: State): seq<Slot> {
    var i := Position(q, opt);
    if i < |q| then q[i := Slot(opt, s.us, s.him)]
    else (q + [Slot(opt, s.us, s.him), SPARE, SPARE, SPARE])[..(|q| + 4) % 256]
  }

  /** Adding one more option wraps the size to zero. */
  predicate Wraps(q: seq<Slot>, opt: byte) {
    Position(q, opt) == |q| == 252
  }

  predicate WellSized(q: seq<Slot>) {
    |q| % 4 == 0 && |q| <= 252
  }

  lemma {:induction false} PositionUnique(q: seq<Slot>, opt: byte, i: nat)
    requires i <= |q| && (i < |q| ==> q[i].telopt == opt)
    requires forall j :: 0 <= j < i ==> q[j].telopt != opt
    ensures Position(q, opt) == i
  {
  }

  /** Writing one option's state and reading any option's: as in a map, except that the addition that wraps
      the size forgets every option. */
  lemma GetPut(q: seq<Slot>, opt: byte, s: State, other: byte)
    requires WellSized(q)
    ensures WellSized(Put(q, opt, s))
    ensures Get(Put(q, opt, s), other) ==
      if Wraps(q, opt) then OFF else if other == opt then s else Get(q, other)
  {
    var i, r := Position(q, opt), Put(q, opt, s);
    var k := Position(q, other);
    if i < |q| {
      PositionUnique(r, other, if other == opt then i else k);
    } else if |q| < 252 {
      if other == opt {
        PositionUnique(r, other, |q|);
      } else if k < |q| {
        PositionUnique(r, other, k);
      } else if other == 0 {
        PositionUnique(r, other, |q| + 1);
      } else {
        PositionUnique(r, other, |r|);
      }
    }
  }

  /** So a state that was written reads back exactly when the addition did not wrap, or wrote nothing but the
      initial state. */
  lemma WriteReadsBack(q: seq<Slot>, opt: byte, s: State)
    requires WellSized(q)
    ensures Get(Put(q, opt, s), opt) == s <==> !Wraps(q, opt) || s == OFF
  {
    GetPut(q, opt, s, opt);
  }

  // ---------------------------------------------------------------- one option, one message

  datatype Reply = Reply(q: Q, sent: seq<Command>, events: seq<Event>)

  /** WILL or WONT arrives: the new `him` and what is sent back.  None when nothing is stored. */
  function HearPeer(him: Q, will: bool, accepted: bool, opt: byte): Reply {
    if will then
      match him
      case No => if accepted then Reply(Yes, [Do], [OptionEvent(Will, opt)]) else Reply(No, [Dont], [])
      case Yes => Reply(Yes, [], [])
      case WantNo => Reply(No, [], [OptionEvent(Wont, opt), Warning])
      case WantNoOp => Reply(Yes, [], [OptionEvent(Will, opt), Warning])
      case WantYes => Reply(Yes, [], [OptionEvent(Will, opt)])
      case WantYesOp => Reply(WantNo, [Dont], [OptionEvent(Will, opt)])
    else
      match him
      case No => Reply(No, [], [])
      case Yes => Reply(No, [Dont], [OptionEvent(Wont, opt)])
      case WantNo => Reply(No, [], [OptionEvent(Wont, opt)])
      case WantNoOp => Reply(WantYes, [], [OptionEvent(Do, opt)])
      case WantYes => Reply(No, [], [])
      case WantYesOp => Reply(No, [], [])
  }

  /** DO or DONT arrives: the new `us` and what is sent back. */
  function HearOrder(us: Q, order: bool, accepted: bool, opt: byte): Reply {
    if order then
      match us
      case No => if accepted then Reply(Yes, [Will], [OptionEvent(Do, opt)]) else Reply(No, [Wont], [])
      case Yes => Reply(Yes, [], [])
      case WantNo => Reply(No, [], [OptionEvent(Dont, opt), Warning])
      case WantNoOp => Reply(Yes, [], [OptionEvent(Do, opt), Warning])
      case WantYes => Reply(Yes, [], [OptionEvent(Do, opt)])
      case WantYesOp => Reply(WantNo, [Wont], [OptionEvent(Do, opt)])
    else
      match us
      case No => Reply(No, [], [])
      case Yes => Reply(No, [Wont], [OptionEvent(Dont, opt)])
      case WantNo => Reply(No, [], [OptionEvent(Wont, opt)])
      case WantNoOp => Reply(WantYes, [Will], [OptionEvent(Will, opt)])
      case WantYes => Reply(No, [], [])
      case WantYesOp => Reply(No, [], [])
  }

  /** The user asks to turn one side of an option on or off (`telnet_negotiate`); `on` and `off` are the
      commands that say so. */
  function Ask(q: Q, enable: bool, on: Command, off: Command): (Q, seq<Command>) {
    if enable then
      match q
      case No => (WantYes, [on])
      case WantNo => (WantNoOp, [])
      case WantYesOp => (WantYes, [])
      case _ => (q, [])
    else
      match q
      case Yes => (WantNo, [off])
      case WantYes => (WantYesOp, [])
      case WantNoOp => (WantNo, [])
      case _ => (q, [])
  }

  predicate AboutPeer(cmd: Command) {
    cmd == Will || cmd == Wont
  }

  // ---------------------------------------------------------------- one endpoint

  /** The effect of one call: the table, the negotiations sent, the events raised. */
  datatype Outcome = Outcome(q: seq<Slot>, sent: seq<Message>, events: seq<Event>)

  function Addressed(cmds: seq<Command>, opt: byte): (r: seq<Message>)
    ensures |r| == |cmds| && forall i :: 0 <= i < |r| ==> r[i] == Message(cmds[i], opt)
  {
    seq(|cmds|, i requires 0 <= i < |cmds| => Message(cmds[i], opt))
  }

  /** A table entry is written only when the state changes; every branch of the code that writes changes it. */
  function Store(q: seq<Slot>, opt: byte, s: State): seq<Slot> {
    if s == Get(q, opt) then q else Put(q, opt, s)
  }

  /** `_negotiate`, not in proxy mode. */
  function Receive(q: seq<Slot>, support: Support, m: Message): Outcome {
    var s := Get(q, m.opt);
    if AboutPeer(m.cmd) then
      var r := HearPeer(s.him, m.cmd == Will, m.opt in support.him, m.opt);
      Outcome(Store(q, m.opt, s.(him := r.q)), Addressed(r.sent, m.opt), r.events)
    else
      var r := HearOrder(s.us, m.cmd == Do, m.opt in support.us, m.opt);
      Outcome(Store(q, m.opt, s.(us := r.q)), Addressed(r.sent, m.opt), r.events)
  }

  /** `telnet_negotiate`, not in proxy mode. */
  function Request(q: seq<Slot>, m: Message): Outcome {
    var s := Get(q, m.opt);
    if AboutPeer(m.cmd) then
      var (us, sent) := Ask(s.us, m.cmd == Will, Will, Wont);
      Outcome(Store(q, m.opt, s.(us := us)), Addressed(sent, m.opt), [])
    else
      var (him, sent) := Ask(s.him, m.cmd == Do, Do, Dont);
      Outcome(Store(q, m.opt, s.(him := him)), Addressed(sent, m.opt), [])
  }
}
