/** What the application is told about options: when the events it sees agree with the states in the table. */
module TelnetEvents {
  import opened Sequences
  import opened Bytes
  import opened TelnetOptions

  /** The option is in use on that side: on, or on until the other side has answered. */
  predicate InUse(q: Q) {
    q == Yes || q == WantNo || q == WantNoOp
  }

  predicate Requested(q: Q) {
    q == WantYes || q == WantYesOp
  }

  predicate BeingTurnedOff(q: Q) {
    q == WantNo || q == WantNoOp
  }

  /** The events of a WILL or WONT: none when the state stays or a request was refused; otherwise one that says
      whether the option is now in use, except that a WONT in WANTNO_OP is announced as DO; and a warning when a
      DONT was answered by WILL. */
  lemma PeerEvents(him: Q, will: bool, accepted: bool, opt: byte)
    ensures var r := HearPeer(him, will, accepted, opt);
      r.events ==
        (if r.q == him || (!will && Requested(him)) then []
         else [OptionEvent(if him == WantNoOp && !will then Do else if InUse(r.q) then Will else Wont, opt)])
        + (if will && BeingTurnedOff(him) then [Warning] else [])
  {
  }

  /** The same for DO and DONT; a DONT that answers a WONT is announced as WONT or WILL. */
  lemma OrderEvents(us: Q, order: bool, accepted: bool, opt: byte)
    ensures var r := HearOrder(us, order, accepted, opt);
      r.events ==
        (if r.q == us || (!order && Requested(us)) then []
         else [OptionEvent(if !order && us == WantNo then Wont else if !order && us == WantNoOp then Will
                           else if InUse(r.q) then Do else Dont, opt)])
        + (if order && BeingTurnedOff(us) then [Warning] else [])
  {
  }

  // ---------------------------------------------------------------- what the application believes

  /** Whether the option is believed to be in use after the events: WILL and WONT are about the peer, DO and DONT
      about this side. */
  function Believes(before: bool, es: seq<Event>, opt: byte, peer: bool): bool {
    if es == [] then before
    else
      Told(Believes(before, es[..|es| - 1], opt, peer), es[|es| - 1], opt, peer)
  }

  lemma {:induction false} BelievesConcat(before: bool, a: seq<Event>, b: seq<Event>, opt: byte, peer: bool)
    ensures Believes(before, a + b, opt, peer) == Believes(Believes(before, a, opt, peer), b, opt, peer)
  {
    if b == [] {
      Assoc(a, [], []);
    } else {
      BelievesConcat(before, a, b[..|b| - 1], opt, peer);
      assert (a + b)[..|a + b| - 1] == a + b[..|b| - 1];
    }
  }

  function Told(b: bool, e: Event, opt: byte, peer: bool): bool {
    if e == OptionEvent(if peer then Will else Do, opt) then true
    else if e == OptionEvent(if peer then Wont else Dont, opt) then false
    else b
  }

  lemma BelievesAfter(b: bool, es: seq<Event>, opt: byte, peer: bool)
    ensures |es| == 0 ==> Believes(b, es, opt, peer) == b
    ensures |es| == 1 ==> Believes(b, es, opt, peer) == Told(b, es[0], opt, peer)
    ensures |es| == 2 ==> Believes(b, es, opt, peer) == Told(Told(b, es[0], opt, peer), es[1], opt, peer)
  {
    if |es| == 2 { assert es[..1][..0] == [] && es[..1][0] == es[0]; }
  }

  /** The application knows which sides of the option are in use. */
  predicate Knows(st: State, own: bool, peer: bool) {
    own == InUse(st.us) && peer == InUse(st.him)
  }

  /** The messages that mislead it: a WONT that answers this side's DONT after a DO has been requested, and every
      DONT that answers this side's WONT. */
  predicate Misleads(st: State, m: Message) {
    (m.cmd == Wont && st.him == WantNoOp) || (m.cmd == Dont && BeingTurnedOff(st.us))
  }

  function StateAfter(st: State, support: Support, m: Message): State {
    if AboutPeer(m.cmd) then st.(him := HearPeer(st.him, m.cmd == Will, m.opt in support.him, m.opt).q)
    else st.(us := HearOrder(st.us, m.cmd == Do, m.opt in support.us, m.opt).q)
  }

  function EventsOf(st: State, support: Support, m: Message): seq<Event> {
    if AboutPeer(m.cmd) then HearPeer(st.him, m.cmd == Will, m.opt in support.him, m.opt).events
    else HearOrder(st.us, m.cmd == Do, m.opt in support.us, m.opt).events
  }

  /** An application that knows still knows after the events of a message exactly when the message is none of
      those; what it believes about other options is not touched. */
  lemma EventsTell(st: State, support: Support, m: Message)
    ensures var es := EventsOf(st, support, m);
      Knows(StateAfter(st, support, m), Believes(InUse(st.us), es, m.opt, false),
          Believes(InUse(st.him), es, m.opt, true))
      <==> !Misleads(st, m)
    ensures forall b, o, peer :: o != m.opt ==> Believes(b, EventsOf(st, support, m), o, peer) == b
  {
    var es := EventsOf(st, support, m);
    BelievesAfter(InUse(st.us), es, m.opt, false);
    BelievesAfter(InUse(st.him), es, m.opt, true);
    hide Believes;
    forall b, o, peer | o != m.opt ensures Believes(b, es, o, peer) == b { BelievesAfter(b, es, o, peer); }
  }

  /** A request of the application raises no event, and changes nothing about which sides are in use. */
  lemma RequestKeepsUse(q: Q, enable: bool, on: Command, off: Command)
    ensures InUse(Ask(q, enable, on, off).0) == InUse(q)
  {
  }

  // ---------------------------------------------------------------- every run of one endpoint

  datatype Input = Hears(m: Message) | Asks(m: Message)

  /** One endpoint and all the events it has raised. */
  datatype Endpoint = Endpoint(q: seq<Slot>, events: seq<Event>)

  function Step(e: Endpoint, support: Support, i: Input): Endpoint {
    match i
    case Hears(m) => var o := Receive(e.q, support, m); Endpoint(o.q, e.events + o.events)
    case Asks(m) => Endpoint(Request(e.q, m).q, e.events)
  }

  function Run(support: Support, inputs: seq<Input>): Endpoint {
    if inputs == [] then Endpoint([], [])
    else Step(Run(support, inputs[..|inputs| - 1]), support, inputs[|inputs| - 1])
  }

  /** No message misleads, and no 64th option is added. */
  ghost predicate Plain(support: Support, inputs: seq<Input>) {
    inputs != [] ==>
      var e, i := Run(support, inputs[..|inputs| - 1]), inputs[|inputs| - 1];
      && Plain(support, inputs[..|inputs| - 1]) && !Wraps(e.q, i.m.opt)
      && (i.Hears? ==> !Misleads(Get(e.q, i.m.opt), i.m))
  }

  ghost predicate AllKnown(e: Endpoint) {
    && WellSized(e.q)
    && forall opt :: Knows(Get(e.q, opt), Believes(false, e.events, opt, false), Believes(false, e.events, opt, true))
  }

  /** In every such run the application knows, of every option and both sides, whether it is in use. */
  lemma {:induction false} ApplicationKnows(support: Support, inputs: seq<Input>)
    requires Plain(support, inputs)
    ensures AllKnown(Run(support, inputs))
  {
    if inputs != [] {
      var inputs', i := inputs[..|inputs| - 1], inputs[|inputs| - 1];
      ApplicationKnows(support, inputs');
      hide Run, Step, AllKnown, Misleads, Wraps;
      StepKnows(Run(support, inputs'), support, i);
      assert Run(support, inputs) == Step(Run(support, inputs'), support, i) by { RunIs(support, inputs); }
    }
  }

  lemma RunIs(support: Support, inputs: seq<Input>)
    requires inputs != []
    ensures Run(support, inputs) == Step(Run(support, inputs[..|inputs| - 1]), support, inputs[|inputs| - 1])
  {
  }

  lemma StoredState(q: seq<Slot>, opt: byte, s: State, other: byte)
    requires WellSized(q) && !Wraps(q, opt)
    ensures WellSized(Store(q, opt, s)) && Get(Store(q, opt, s), other) == if other == opt then s else Get(q, other)
  {
    GetPut(q, opt, s, other);
  }

  lemma StepKnows(e: Endpoint, support: Support, i: Input)
    requires AllKnown(e) && !Wraps(e.q, i.m.opt) && (i.Hears? ==> !Misleads(Get(e.q, i.m.opt), i.m))
    ensures AllKnown(Step(e, support, i))
  {
    var m, st, e' := i.m, Get(e.q, i.m.opt), Step(e, support, i);
    StepIs(e, support, i);
    hide Get, Store, Wraps, Believes, Step, StateAfter, EventsOf, WellSized, Misleads;
    StoredState(e.q, m.opt, StateNext(st, support, i), m.opt);
    EventsTell(st, support, m);
    forall opt
      ensures Knows(Get(e'.q, opt), Believes(false, e'.events, opt, false), Believes(false, e'.events, opt, true))
    {
      StoredState(e.q, m.opt, StateNext(st, support, i), opt);
      assert Knows(Get(e.q, opt), Believes(false, e.events, opt, false), Believes(false, e.events, opt, true));
      if i.Hears? {
        BelievesConcat(false, e.events, EventsOf(st, support, m), opt, false);
        BelievesConcat(false, e.events, EventsOf(st, support, m), opt, true);
      } else {
        RequestKeepsUse(st.us, m.cmd == Will, Will, Wont);
        RequestKeepsUse(st.him, m.cmd == Do, Do, Dont);
      }
    }
  }

  function StateNext(st: State, support: Support, i: Input): State {
    match i
    case Hears(m) => StateAfter(st, support, m)
    case Asks(m) =>
      if AboutPeer(m.cmd) then st.(us := Ask(st.us, m.cmd == Will, Will, Wont).0)
      else st.(him := Ask(st.him, m.cmd == Do, Do, Dont).0)
  }

  lemma StepIs(e: Endpoint, support: Support, i: Input)
    ensures var st, e' := Get(e.q, i.m.opt), Step(e, support, i);
      && e'.q == Store(e.q, i.m.opt, StateNext(st, support, i))
      && e'.events == if i.Hears? then e.events + EventsOf(st, support, i.m) else e.events
  {
    hide Get, Store;
  }

  /** The simplest run that misleads: this side turns an option on and off again, the peer agreeing both times.  It
      is off, and the application has not been told. */
  lemma TurnedOffUnnoticed(support: Support, opt: byte)
    ensures var e := Run(support, [Asks(Message(Will, opt)), Hears(Message(Do, opt)),
                                   Asks(Message(Wont, opt)), Hears(Message(Dont, opt))]);
      Get(e.q, opt) == OFF && Believes(false, e.events, opt, false)
  {
    var a, b, c, d :=
      Asks(Message(Will, opt)), Hears(Message(Do, opt)), Asks(Message(Wont, opt)), Hears(Message(Dont, opt));
    var e0 := Endpoint([], []);
    var e1 := Step(e0, support, a);
    var e2 := Step(e1, support, b);
    var e3 := Step(e2, support, c);
    var e4 := Step(e3, support, d);
    FourSteps(support, a, b, c, d);
    StepIs(e0, support, a);
    StepIs(e1, support, b);
    StepIs(e2, support, c);
    StepIs(e3, support, d);
    BelievesAfter(false, e4.events, opt, false);
    hide Run, Step, Get, Store, Believes;
    FirstEntry(opt);
    Overwritten(e1.q, opt, State(Yes, No));
    Overwritten(e2.q, opt, State(WantNo, No));
    Overwritten(e3.q, opt, OFF);
  }

  lemma FirstEntry(opt: byte)
    ensures Get([], opt) == OFF
    ensures var q := Store([], opt, State(WantYes, No));
      |q| == 4 && Position(q, opt) < 4 && Get(q, opt) == State(WantYes, No)
  {
  }

  lemma Overwritten(q: seq<Slot>, opt: byte, s: State)
    requires |q| == 4 && Position(q, opt) < 4
    ensures var q' := Store(q, opt, s); |q'| == 4 && Position(q', opt) < 4 && Get(q', opt) == s
  {
    GetPut(q, opt, s, opt);
    if Put(q, opt, s) != q { PositionUnique(Put(q, opt, s), opt, Position(q, opt)); }
  }

  lemma FourSteps(support: Support, a: Input, b: Input, c: Input, d: Input)
    ensures Run(support, [a, b, c, d]) ==
      Step(Step(Step(Step(Endpoint([], []), support, a), support, b), support, c), support, d)
  {
    assert [a, b, c, d][..3] == [a, b, c] && [a, b, c][..2] == [a, b] && [a, b][..1] == [a] && [a][..0] == [];
    RunIs(support, [a, b, c, d]);
    RunIs(support, [a, b, c]);
    RunIs(support, [a, b]);
    RunIs(support, [a]);
    hide Step;
  }
}
