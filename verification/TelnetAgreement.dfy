/** Two endpoints running the negotiator of telnet.c, joined by a reliable FIFO channel each way: they always
    come to rest, after a bounded number of messages, and at rest they agree. */
module TelnetAgreement {
  import opened Sequences
  import opened Bytes
  import opened TelnetOptions
  import opened TelnetHalves
  import opened TelnetFate

  datatype Endpoint = Endpoint(q: seq<Slot>, support: Support)

  /** `fromA` and `fromB` are the channels; `asked` and `moved` count requests and deliveries. */
  datatype System = System(a: Endpoint, b: Endpoint, fromA: seq<Message>, fromB: seq<Message>, asked: nat, moved: nat)

  /** Side false is A, side true is B. */
  datatype Action = UserAsks(side: bool, m: Message) | Deliver(side: bool)

  function End(s: System, side: bool): Endpoint {
    if side then s.b else s.a
  }

  /** The channel that this side writes to. */
  function Wire(s: System, side: bool): seq<Message> {
    if side then s.fromB else s.fromA
  }

  /** One side's table is replaced, messages are appended to its channel and `taken` removed from the other's. */
  function Update(s: System, side: bool, o: Outcome, taken: nat): System
    requires taken <= |Wire(s, !side)|
  {
    if side then s.(b := s.b.(q := o.q), fromB := s.fromB + o.sent, fromA := s.fromA[taken..])
    else s.(a := s.a.(q := o.q), fromA := s.fromA + o.sent, fromB := s.fromB[taken..])
  }

  function Apply(s: System, act: Action): System {
    match act
    case UserAsks(side, m) => Update(s, side, Request(End(s, side).q, m), 0).(asked := s.asked + 1)
    case Deliver(side) =>
      if Wire(s, !side) == [] then s
      else Update(s, side, Receive(End(s, side).q, End(s, side).support, Wire(s, !side)[0]), 1).(moved := s.moved + 1)
  }

  /** The state of the option that a request leads to. */
  function AskedState(q: seq<Slot>, m: Message): State {
    var st := Get(q, m.opt);
    if AboutPeer(m.cmd) then st.(us := Ask(st.us, m.cmd == Will, Will, Wont).0)
    else st.(him := Ask(st.him, m.cmd == Do, Do, Dont).0)
  }

  /** The state of the option that an arriving negotiation leads to. */
  function HeardState(q: seq<Slot>, support: Support, m: Message): State {
    var st := Get(q, m.opt);
    if AboutPeer(m.cmd) then st.(him := HearPeer(st.him, m.cmd == Will, m.opt in support.him, m.opt).q)
    else st.(us := HearOrder(st.us, m.cmd == Do, m.opt in support.us, m.opt).q)
  }

  predicate Acts(s: System, act: Action) {
    act.UserAsks? || Wire(s, !act.side) != []
  }

  /** The option that a step is about, and the state it is to have at the acting side. */
  function OptionOf(s: System, act: Action): byte
    requires Acts(s, act)
  {
    if act.UserAsks? then act.m.opt else Wire(s, !act.side)[0].opt
  }

  function Target(s: System, act: Action): State
    requires Acts(s, act)
  {
    var e := End(s, act.side);
    if act.UserAsks? then AskedState(e.q, act.m) else HeardState(e.q, e.support, Wire(s, !act.side)[0])
  }

  /** The step writes a 64th option into a full table. */
  predicate Overflows(s: System, act: Action) {
    Acts(s, act) && Wraps(End(s, act.side).q, OptionOf(s, act)) && Target(s, act) != OFF
  }

  predicate DoBehindDont(s: System, act: Action) {
    act.UserAsks? && act.m.cmd == Do && Get(End(s, act.side).q, act.m.opt).him == WantNo
  }

  predicate Fine(s: System, act: Action) {
    !Overflows(s, act) && !DoBehindDont(s, act)
  }

  function Initial(a: Support, b: Support): System {
    System(Endpoint([], a), Endpoint([], b), [], [], 0, 0)
  }

  function RunFrom(s: System, acts: seq<Action>): System {
    if acts == [] then s else Apply(RunFrom(s, acts[..|acts| - 1]), acts[|acts| - 1])
  }

  /** Every step of the run is fine. */
  predicate FineRun(s: System, acts: seq<Action>) {
    acts != [] ==> FineRun(s, acts[..|acts| - 1]) && Fine(RunFrom(s, acts[..|acts| - 1]), acts[|acts| - 1])
  }

  predicate AtRest(s: System) {
    s.fromA == [] && s.fromB == []
  }

  // ---------------------------------------------------------------- one option, one direction

  /** The commands about one option in a channel: those about the sender's own side, or those about the
      receiver's. */
  function Pick(w: seq<Message>, opt: byte, own: bool): seq<Command> {
    if w == [] then [] else Mine(w[0], opt, own) + Pick(w[1..], opt, own)
  }

  function Mine(m: Message, opt: byte, own: bool): seq<Command> {
    if m.opt == opt && AboutPeer(m.cmd) == own then [m.cmd] else []
  }

  lemma {:induction false} PickAppend(v: seq<Message>, w: seq<Message>, opt: byte, own: bool)
    ensures Pick(v + w, opt, own) == Pick(v, opt, own) + Pick(w, opt, own)
  {
    if v == [] {
      assert v + w == w;
    } else {
      PickAppend(v[1..], w, opt, own);
      HeadOfJoin(v, w);
      PickUnfolds(v, opt, own);
      PickUnfolds(v + w, opt, own);
      hide Pick, Mine;
      Assoc(Mine(v[0], opt, own), Pick(v[1..], opt, own), Pick(w, opt, own));
    }
  }

  lemma PickUnfolds(w: seq<Message>, opt: byte, own: bool)
    requires w != []
    ensures Pick(w, opt, own) == Mine(w[0], opt, own) + Pick(w[1..], opt, own)
  {
  }

  lemma HeadOfJoin(v: seq<Message>, w: seq<Message>)
    requires v != []
    ensures (v + w)[1..] == v[1..] + w && (v + w)[0] == v[0] && v + w != []
  {
  }

  /** The side that performs the option, seen together with its peer. */
  function HalfOf(s: System, performer: bool, opt: byte): Half {
    Half(Get(End(s, performer).q, opt).us, Get(End(s, !performer).q, opt).him,
         Pick(Wire(s, performer), opt, true), Pick(Wire(s, !performer), opt, false))
  }

  predicate Sized(s: System) {
    WellSized(s.a.q) && WellSized(s.b.q)
  }

  ghost predicate Inv(s: System) {
    && Sized(s)
    && forall performer, opt :: Left(HalfOf(s, performer, opt)) >= 0
  }

  lemma InitialInv(a: Support, b: Support)
    ensures Inv(Initial(a, b))
  {
  }

  lemma StoreGet(q: seq<Slot>, opt: byte, s: State, other: byte)
    requires WellSized(q) && !(Wraps(q, opt) && s != OFF)
    ensures WellSized(Store(q, opt, s)) && Get(Store(q, opt, s), other) == if other == opt then s else Get(q, other)
  {
    if !Wraps(q, opt) { GetPut(q, opt, s, other); }
  }

  lemma PickSent(cmds: seq<Command>, m: byte, opt: byte, own: bool)
    requires |cmds| <= 1
    ensures Pick(Addressed(cmds, m), opt, own) ==
      if cmds != [] && m == opt && AboutPeer(cmds[0]) == own then cmds else []
  {
    if cmds != [] {
      var w := Addressed(cmds, m);
      assert w == [Message(cmds[0], m)] && cmds == [cmds[0]];
      assert Pick(w[1..], opt, own) == [];
    }
  }

  /** What one endpoint's step does to a half in which it is the performer, or the peer. */
  lemma UpdateEffect(s: System, side: bool, q: seq<Slot>, m: byte, cmds: seq<Command>, events: seq<Event>,
      taken: nat, opt: byte)
    requires taken <= |Wire(s, !side)| && |cmds| <= 1
    ensures var s' := Update(s, side, Outcome(q, Addressed(cmds, m), events), taken);
      && End(s', side) == End(s, side).(q := q) && End(s', !side) == End(s, !side)
      && HalfOf(s', side, opt) ==
           Half(Get(q, opt).us, Get(End(s, !side).q, opt).him,
                Pick(Wire(s, side), opt, true) + (if cmds != [] && m == opt && AboutPeer(cmds[0]) then cmds else []),
                Pick(Wire(s, !side)[taken..], opt, false))
      && HalfOf(s', !side, opt) ==
           Half(Get(End(s, !side).q, opt).us, Get(q, opt).him,
                Pick(Wire(s, !side)[taken..], opt, true),
                Pick(Wire(s, side), opt, false) + (if cmds != [] && m == opt && !AboutPeer(cmds[0]) then cmds else []))
  {
    hide Get, Pick, Addressed;
    PickSent(cmds, m, opt, true);
    PickSent(cmds, m, opt, false);
    PickAppend(Wire(s, side), Addressed(cmds, m), opt, true);
    PickAppend(Wire(s, side), Addressed(cmds, m), opt, false);
  }

  lemma AskEffect(s: System, side: bool, m: Message, opt: byte)
    requires WellSized(End(s, side).q) && !Overflows(s, UserAsks(side, m))
    ensures var s', mine := Apply(s, UserAsks(side, m)), AboutPeer(m.cmd);
      && WellSized(End(s', side).q) && End(s', !side) == End(s, !side)
      && HalfOf(s', side, opt) ==
           (if opt == m.opt && mine then PerformerAsks(HalfOf(s, side, opt), m.cmd == Will) else HalfOf(s, side, opt))
      && HalfOf(s', !side, opt) ==
           (if opt == m.opt && !mine then PeerAsks(HalfOf(s, !side, opt), m.cmd == Do) else HalfOf(s, !side, opt))
  {
    var q := End(s, side).q;
    var st, st' := Get(q, m.opt), AskedState(q, m);
    hide Get, Store, Pick, Addressed, Wraps, WellSized;
    StoreGet(q, m.opt, st', opt);
    Whole(Wire(s, !side));
    Whole(Pick(Wire(s, side), opt, true));
    Whole(Pick(Wire(s, side), opt, false));
    if AboutPeer(m.cmd) {
      UpdateEffect(s, side, Store(q, m.opt, st'), m.opt, Ask(st.us, m.cmd == Will, Will, Wont).1, [], 0, opt);
    } else {
      UpdateEffect(s, side, Store(q, m.opt, st'), m.opt, Ask(st.him, m.cmd == Do, Do, Dont).1, [], 0, opt);
    }
  }

  lemma PickHead(w: seq<Message>, opt: byte, own: bool)
    requires w != []
    ensures Pick(w, opt, own) ==
      if w[0].opt == opt && AboutPeer(w[0].cmd) == own then [w[0].cmd] + Pick(w[1..], opt, own)
      else Pick(w[1..], opt, own)
    ensures w[0].opt == opt && AboutPeer(w[0].cmd) == own ==>
      Pick(w, opt, own) != [] && Pick(w, opt, own)[0] == w[0].cmd && Pick(w, opt, own)[1..] == Pick(w[1..], opt, own)
  {
    Whole(Pick(w[1..], opt, own));
    assert [] + Pick(w[1..], opt, own) == Pick(w[1..], opt, own);
    assert ([w[0].cmd] + Pick(w[1..], opt, own))[1..] == Pick(w[1..], opt, own);
  }

  /** A delivery to `side` concerns one half and is one of its two hearing steps. */
  lemma DeliverEffect(s: System, side: bool, opt: byte)
    requires Wire(s, !side) != [] && WellSized(End(s, side).q) && !Overflows(s, Deliver(side))
    ensures var s', m, h, g := Apply(s, Deliver(side)), Wire(s, !side)[0], HalfOf(s, side, opt), HalfOf(s, !side, opt);
      && WellSized(End(s', side).q) && End(s', !side) == End(s, !side)
      && (if opt == m.opt && !AboutPeer(m.cmd)
          then h.orders != [] && HalfOf(s', side, opt) == PerformerHears(h, opt in End(s, side).support.us, opt)
          else HalfOf(s', side, opt) == h)
      && (if opt == m.opt && AboutPeer(m.cmd)
          then g.said != [] && HalfOf(s', !side, opt) == PeerHears(g, opt in End(s, side).support.him, opt)
          else HalfOf(s', !side, opt) == g)
  {
    if AboutPeer(Wire(s, !side)[0].cmd) { DeliverToPeer(s, side, opt); } else { DeliverToPerformer(s, side, opt); }
  }

  lemma DeliverToPeer(s: System, side: bool, opt: byte)
    requires Wire(s, !side) != [] && WellSized(End(s, side).q) && !Overflows(s, Deliver(side))
    requires AboutPeer(Wire(s, !side)[0].cmd)
    ensures var s', m, g := Apply(s, Deliver(side)), Wire(s, !side)[0], HalfOf(s, !side, opt);
      && WellSized(End(s', side).q) && End(s', !side) == End(s, !side) && HalfOf(s', side, opt) == HalfOf(s, side, opt)
      && (if opt == m.opt
          then g.said != [] && HalfOf(s', !side, opt) == PeerHears(g, opt in End(s, side).support.him, opt)
          else HalfOf(s', !side, opt) == g)
  {
    var m, q := Wire(s, !side)[0], End(s, side).q;
    var st, st' := Get(q, m.opt), HeardState(q, End(s, side).support, m);
    var p := HearPeer(st.him, m.cmd == Will, m.opt in End(s, side).support.him, m.opt);
    hide Get, Store, Pick, Addressed, Wraps, WellSized, HearPeer, HearOrder;
    Whole(Pick(Wire(s, side), opt, true));
    Whole(Pick(Wire(s, side), opt, false));
    PickHead(Wire(s, !side), opt, true);
    PickHead(Wire(s, !side), opt, false);
    Replies(st, m, End(s, side).support);
    StoreGet(q, m.opt, st', opt);
    UpdateEffect(s, side, Store(q, m.opt, st'), m.opt, p.sent, p.events, 1, opt);
  }

  lemma DeliverToPerformer(s: System, side: bool, opt: byte)
    requires Wire(s, !side) != [] && WellSized(End(s, side).q) && !Overflows(s, Deliver(side))
    requires !AboutPeer(Wire(s, !side)[0].cmd)
    ensures var s', m, h := Apply(s, Deliver(side)), Wire(s, !side)[0], HalfOf(s, side, opt);
      && WellSized(End(s', side).q) && End(s', !side) == End(s, !side)
      && HalfOf(s', !side, opt) == HalfOf(s, !side, opt)
      && (if opt == m.opt
          then h.orders != [] && HalfOf(s', side, opt) == PerformerHears(h, opt in End(s, side).support.us, opt)
          else HalfOf(s', side, opt) == h)
  {
    var m, q := Wire(s, !side)[0], End(s, side).q;
    var st, st' := Get(q, m.opt), HeardState(q, End(s, side).support, m);
    var o := HearOrder(st.us, m.cmd == Do, m.opt in End(s, side).support.us, m.opt);
    hide Get, Store, Pick, Addressed, Wraps, WellSized, HearPeer, HearOrder;
    Whole(Pick(Wire(s, side), opt, true));
    Whole(Pick(Wire(s, side), opt, false));
    PickHead(Wire(s, !side), opt, true);
    PickHead(Wire(s, !side), opt, false);
    Replies(st, m, End(s, side).support);
    StoreGet(q, m.opt, st', opt);
    UpdateEffect(s, side, Store(q, m.opt, st'), m.opt, o.sent, o.events, 1, opt);
  }

  /** Every reply is at most one command, and about the same half. */
  lemma Replies(st: State, m: Message, support: Support)
    ensures var o := HearOrder(st.us, m.cmd == Do, m.opt in support.us, m.opt);
      |o.sent| <= 1 && forall c :: c in o.sent ==> AboutPeer(c)
    ensures var p := HearPeer(st.him, m.cmd == Will, m.opt in support.him, m.opt);
      |p.sent| <= 1 && forall c :: c in p.sent ==> !AboutPeer(c)
  {
  }

  // ---------------------------------------------------------------- deliveries still to come

  function Both(s: System, opt: byte): int {
    Pending(HalfOf(s, false, opt)) + Pending(HalfOf(s, true, opt))
  }

  /** Deliveries left over all options below n. */
  function Total(s: System, n: nat): int
    requires n <= 256
  {
    if n == 0 then 0 else Total(s, n - 1) + Both(s, n - 1)
  }

  /** Every half is in a combination whose fate is known. */
  ghost predicate Settling(s: System) {
    Sized(s) && forall performer, opt :: Pending(HalfOf(s, performer, opt)) >= 0
  }

  lemma InvSettles(s: System)
    requires Inv(s)
    ensures Settling(s)
  {
    hide HalfOf, Left, Astray, Apart;
  }

  lemma {:induction false} TotalDiffers(s: System, s': System, opt: byte, n: nat)
    requires n <= 256
    requires forall performer, o :: o != opt ==> HalfOf(s', performer, o) == HalfOf(s, performer, o)
    ensures Total(s', n) - Total(s, n) == if opt < n then Both(s', opt) - Both(s, opt) else 0
  {
    hide HalfOf, Pending;
    if n > 0 { TotalDiffers(s, s', opt, n - 1); }
  }

  lemma {:induction false} TotalAtLeast(s: System, opt: byte, n: nat)
    requires n <= 256 && forall performer, o :: Pending(HalfOf(s, performer, o)) >= 0
    ensures Total(s, n) >= 0 && (opt < n ==> Total(s, n) >= Both(s, opt))
  {
    hide HalfOf, Pending;
    if n > 0 { TotalAtLeast(s, opt, n - 1); }
  }

  lemma {:induction false} TotalZero(s: System, n: nat)
    requires n <= 256 && forall performer, o :: Pending(HalfOf(s, performer, o)) == 0
    ensures Total(s, n) == 0
  {
    hide HalfOf, Pending;
    if n > 0 { TotalZero(s, n - 1); }
  }

  lemma NothingUnderWay(s: System, performer: bool, opt: byte)
    requires AtRest(s)
    ensures |HalfOf(s, performer, opt).said| == 0 && |HalfOf(s, performer, opt).orders| == 0
  {
  }

  /** Something is under way exactly when deliveries are left. */
  lemma RestIsZero(s: System)
    requires Settling(s)
    ensures Total(s, 256) >= 0 && (AtRest(s) <==> Total(s, 256) == 0)
  {
    hide Pending, Left, Astray, Apart;
    TotalAtLeast(s, 0, 256);
    if AtRest(s) {
      forall performer, o ensures Pending(HalfOf(s, performer, o)) == 0 {
        NothingUnderWay(s, performer, o);
        NeverBoth(HalfOf(s, performer, o));
        AtTheEnd(HalfOf(s, performer, o));
      }
      TotalZero(s, 256);
    } else {
      var side := s.fromA == [];
      var m := Wire(s, side)[0];
      PickHead(Wire(s, side), m.opt, AboutPeer(m.cmd));
      SomethingPending(HalfOf(s, if AboutPeer(m.cmd) then side else !side, m.opt));
      TotalAtLeast(s, m.opt, 256);
    }
  }

  ghost predicate OnlyAt(s: System, s': System, opt: byte) {
    forall performer, o :: o != opt ==> HalfOf(s', performer, o) == HalfOf(s, performer, o)
  }

  /** A step that changes one half by d deliveries changes the total by d. */
  lemma OneHalf(s: System, s': System, opt: byte, performer: bool)
    requires Settling(s) && Sized(s') && OnlyAt(s, s', opt) && HalfOf(s', !performer, opt) == HalfOf(s, !performer, opt)
    requires Pending(HalfOf(s', performer, opt)) >= 0
    ensures Settling(s')
    ensures Total(s', 256) - Total(s, 256) == Pending(HalfOf(s', performer, opt)) - Pending(HalfOf(s, performer, opt))
  {
    hide HalfOf, Pending;
    TotalDiffers(s, s', opt, 256);
    forall p, o ensures Pending(HalfOf(s', p, o)) >= 0 {
      if o != opt { assert HalfOf(s', p, o) == HalfOf(s, p, o); }
    }
  }

  /** The same for the reachable combinations. */
  lemma OneReachableHalf(s: System, s': System, opt: byte, performer: bool)
    requires Inv(s) && Sized(s') && OnlyAt(s, s', opt) && HalfOf(s', !performer, opt) == HalfOf(s, !performer, opt)
    requires Left(HalfOf(s', performer, opt)) >= 0
    ensures Inv(s')
    ensures Total(s', 256) - Total(s, 256) == Left(HalfOf(s', performer, opt)) - Left(HalfOf(s, performer, opt))
  {
    InvSettles(s);
    hide HalfOf, Left, Astray, Apart;
    OneHalf(s, s', opt, performer);
    forall p, o ensures Left(HalfOf(s', p, o)) >= 0 {
      if o != opt { assert HalfOf(s', p, o) == HalfOf(s, p, o); }
    }
  }

  lemma AskElsewhere(s: System, side: bool, m: Message)
    requires Sized(s) && !Overflows(s, UserAsks(side, m))
    ensures var s' := Apply(s, UserAsks(side, m)); Sized(s') && OnlyAt(s, s', m.opt)
  {
    var s' := Apply(s, UserAsks(side, m));
    hide HalfOf, Apply, Overflows;
    AskEffect(s, side, m, m.opt);
    forall p, o | o != m.opt ensures HalfOf(s', p, o) == HalfOf(s, p, o) { AskEffect(s, side, m, o); }
  }

  lemma DeliverElsewhere(s: System, side: bool)
    requires Sized(s) && !Overflows(s, Deliver(side)) && Wire(s, !side) != []
    ensures var s', m := Apply(s, Deliver(side)), Wire(s, !side)[0]; Sized(s') && OnlyAt(s, s', m.opt)
  {
    var s', m := Apply(s, Deliver(side)), Wire(s, !side)[0];
    hide HalfOf, Apply, Overflows;
    DeliverEffect(s, side, m.opt);
    forall p, o | o != m.opt ensures HalfOf(s', p, o) == HalfOf(s, p, o) { DeliverEffect(s, side, o); }
  }

  // ---------------------------------------------------------------- every run

  lemma AskKeepsInv(s: System, side: bool, m: Message)
    requires Inv(s) && Fine(s, UserAsks(side, m))
    ensures var s' := Apply(s, UserAsks(side, m)); Inv(s') && Total(s', 256) <= Total(s, 256) + 2
  {
    var s' := Apply(s, UserAsks(side, m));
    AskElsewhere(s, side, m);
    hide Left, HalfOf, PerformerAsks, PeerAsks, Apply, OnlyAt, Total, Overflows;
    AskEffect(s, side, m, m.opt);
    if AboutPeer(m.cmd) {
      PerformerAsksKeeps(HalfOf(s, side, m.opt), m.cmd == Will);
      OneReachableHalf(s, s', m.opt, side);
    } else {
      HimOf(s, !side, m.opt);
      PeerAsksKeeps(HalfOf(s, !side, m.opt), m.cmd == Do);
      OneReachableHalf(s, s', m.opt, !side);
    }
  }

  lemma HimOf(s: System, performer: bool, opt: byte)
    ensures HalfOf(s, performer, opt).him == Get(End(s, !performer).q, opt).him
    ensures HalfOf(s, performer, opt).us == Get(End(s, performer).q, opt).us
  {
  }

  lemma DeliverKeepsInv(s: System, side: bool)
    requires Inv(s) && !Overflows(s, Deliver(side)) && Wire(s, !side) != []
    ensures var s' := Apply(s, Deliver(side)); Inv(s') && Total(s', 256) < Total(s, 256)
  {
    var s', m, support := Apply(s, Deliver(side)), Wire(s, !side)[0], End(s, side).support;
    DeliverElsewhere(s, side);
    hide Left, HalfOf, PerformerHears, PeerHears, Apply, OnlyAt, Total, Overflows;
    DeliverEffect(s, side, m.opt);
    if AboutPeer(m.cmd) {
      PeerHearsSettles(HalfOf(s, !side, m.opt), m.opt in support.him, m.opt);
      OneReachableHalf(s, s', m.opt, !side);
    } else {
      PerformerHearsSettles(HalfOf(s, side, m.opt), m.opt in support.us, m.opt);
      OneReachableHalf(s, s', m.opt, side);
    }
  }

  /** Over every run whose steps write no 64th option and queue no DO behind a pending DONT: at most two
      messages are delivered per user request, and whenever both channels are empty each side's `us` equals
      the other's `him` for every option and nobody waits. */
  lemma {:induction false} RunsSettle(a: Support, b: Support, acts: seq<Action>)
    requires FineRun(Initial(a, b), acts)
    ensures var s := RunFrom(Initial(a, b), acts);
      && Inv(s) && s.moved + Total(s, 256) <= 2 * s.asked && Total(s, 256) >= 0
      && (AtRest(s) <==> Total(s, 256) == 0)
      && (AtRest(s) ==> forall performer, opt :: Agrees(HalfOf(s, performer, opt)))
    decreases |acts|
  {
    var s := RunFrom(Initial(a, b), acts);
    if acts == [] {
      InitialInv(a, b);
      InvSettles(s);
      RestIsZero(s);
    } else {
      RunsSettle(a, b, acts[..|acts| - 1]);
      StepSettles(RunFrom(Initial(a, b), acts[..|acts| - 1]), acts[|acts| - 1]);
    }
    if AtRest(s) { AgreesAtRest(s); }
  }

  lemma StepSettles(s: System, act: Action)
    requires Inv(s) && Fine(s, act)
    ensures var s' := Apply(s, act);
      && Inv(s') && s'.moved + Total(s', 256) - 2 * s'.asked <= s.moved + Total(s, 256) - 2 * s.asked
      && Total(s', 256) >= 0 && (AtRest(s') <==> Total(s', 256) == 0)
  {
    if act.UserAsks? {
      AskKeepsInv(s, act.side, act.m);
    } else if Wire(s, !act.side) != [] {
      DeliverKeepsInv(s, act.side);
    }
    hide Inv, Total, Settling;
    InvSettles(Apply(s, act));
    RestIsZero(Apply(s, act));
  }

  lemma AgreesAtRest(s: System)
    requires Inv(s) && AtRest(s)
    ensures forall performer, opt :: Agrees(HalfOf(s, performer, opt))
  {
  }

  // ---------------------------------------------------------------- deliveries alone

  /** Every action is a delivery and none overflows a table. */
  predicate OnlyDeliveries(s: System, acts: seq<Action>) {
    acts != [] ==>
      && OnlyDeliveries(s, acts[..|acts| - 1]) && acts[|acts| - 1].Deliver?
      && !Overflows(RunFrom(s, acts[..|acts| - 1]), acts[|acts| - 1])
  }

  ghost predicate Alike(g: Half, h: Half) {
    (WillAgree(g) <==> WillAgree(h)) && (WillDiffer(g) <==> WillDiffer(h))
  }

  /** Each half has the same fate in both states. */
  ghost predicate SameFate(s: System, s': System) {
    forall performer, opt :: Alike(HalfOf(s, performer, opt), HalfOf(s', performer, opt))
  }

  lemma SameFateTransitive(s: System, t: System, u: System)
    requires SameFate(s, t) && SameFate(t, u)
    ensures SameFate(s, u)
  {
    hide HalfOf, WillAgree, WillDiffer;
  }

  lemma SameFateOne(s: System, s': System, opt: byte, performer: bool)
    requires OnlyAt(s, s', opt) && HalfOf(s', !performer, opt) == HalfOf(s, !performer, opt)
    requires Alike(HalfOf(s, performer, opt), HalfOf(s', performer, opt))
    ensures SameFate(s, s')
  {
    hide HalfOf, WillAgree, WillDiffer;
    forall p, o ensures Alike(HalfOf(s, p, o), HalfOf(s', p, o)) {
      if o != opt { assert HalfOf(s', p, o) == HalfOf(s, p, o); }
    }
  }

  /** The half that a delivery concerns. */
  lemma DeliveredHalf(s: System, side: bool, performer: bool)
    requires Settling(s) && !Overflows(s, Deliver(side)) && Wire(s, !side) != []
    requires performer == if AboutPeer(Wire(s, !side)[0].cmd) then !side else side
    ensures var s', opt := Apply(s, Deliver(side)), Wire(s, !side)[0].opt;
      && 0 <= Pending(HalfOf(s', performer, opt)) < Pending(HalfOf(s, performer, opt))
      && Alike(HalfOf(s, performer, opt), HalfOf(s', performer, opt))
      && HalfOf(s', !performer, opt) == HalfOf(s, !performer, opt)
  {
    var m, support := Wire(s, !side)[0], End(s, side).support;
    hide HalfOf, PerformerHears, PeerHears, Apply, Overflows, Pending, WillAgree, WillDiffer;
    DeliverEffect(s, side, m.opt);
    if AboutPeer(m.cmd) {
      PeerHearsKeepsFate(HalfOf(s, !side, m.opt), m.opt in support.him, m.opt);
    } else {
      PerformerHearsKeepsFate(HalfOf(s, side, m.opt), m.opt in support.us, m.opt);
    }
  }

  lemma DeliverKeepsFate(s: System, side: bool)
    requires Settling(s) && !Overflows(s, Deliver(side)) && Wire(s, !side) != []
    ensures var s' := Apply(s, Deliver(side));
      Settling(s') && SameFate(s, s') && Total(s', 256) < Total(s, 256) && s'.moved == s.moved + 1
  {
    var s', m := Apply(s, Deliver(side)), Wire(s, !side)[0];
    var performer := if AboutPeer(m.cmd) then !side else side;
    assert s'.moved == s.moved + 1 && Sized(s);
    hide HalfOf, Apply, Overflows, Pending, Alike, Settling, SameFate, OnlyAt, Total;
    DeliverElsewhere(s, side);
    DeliveredHalf(s, side, performer);
    SameFateOne(s, s', m.opt, performer);
    OneHalf(s, s', m.opt, performer);
  }

  /** Deliveries change no fate, and there are at most `Total` of them. */
  lemma {:induction false} DeliveriesRunOut(s: System, acts: seq<Action>)
    requires Settling(s) && OnlyDeliveries(s, acts)
    ensures var end := RunFrom(s, acts);
      && Settling(end) && SameFate(s, end) && end.moved - s.moved + Total(end, 256) <= Total(s, 256)
      && Total(end, 256) >= 0 && (AtRest(end) <==> Total(end, 256) == 0)
    decreases |acts|
  {
    hide Settling, SameFate, Total;
    if acts == [] {
      RestIsZero(s);
      FateStays(s);
    } else {
      DeliveriesRunOut(s, acts[..|acts| - 1]);
      OneMoreDelivery(s, RunFrom(s, acts[..|acts| - 1]), acts[|acts| - 1]);
    }
  }

  lemma FateStays(s: System)
    ensures SameFate(s, s)
  {
    hide HalfOf, WillAgree, WillDiffer;
  }

  lemma OneMoreDelivery(s: System, t: System, act: Action)
    requires Settling(t) && SameFate(s, t) && act.Deliver? && !Overflows(t, act)
    ensures var u := Apply(t, act);
      && Settling(u) && SameFate(s, u) && u.moved - t.moved + Total(u, 256) <= Total(t, 256)
      && Total(u, 256) >= 0 && (AtRest(u) <==> Total(u, 256) == 0)
  {
    var u := Apply(t, act);
    hide Settling, SameFate, Total, Overflows;
    if Wire(t, !act.side) != [] {
      DeliverKeepsFate(t, act.side);
      hide Apply;
      SameFateTransitive(s, t, u);
    }
    RestIsZero(u);
  }

  /** At rest each fate has come true. */
  lemma FateAtRest(s: System, performer: bool, opt: byte)
    requires AtRest(s)
    ensures WillAgree(HalfOf(s, performer, opt)) ==> Agrees(HalfOf(s, performer, opt))
    ensures WillDiffer(HalfOf(s, performer, opt)) ==> !Agrees(HalfOf(s, performer, opt))
  {
    NothingUnderWay(s, performer, opt);
    hide HalfOf;
    AtTheEnd(HalfOf(s, performer, opt));
  }

  /** What deliveries lead to: the state comes to rest within `Total` of them, and then each half agrees if that
      was its fate, and differs if that was. */
  lemma FatesComeTrue(s: System, acts: seq<Action>, performer: bool, opt: byte)
    requires Settling(s) && OnlyDeliveries(s, acts) && AtRest(RunFrom(s, acts))
    ensures WillAgree(HalfOf(s, performer, opt)) <==> Agrees(HalfOf(RunFrom(s, acts), performer, opt))
    ensures RunFrom(s, acts).moved - s.moved <= Total(s, 256)
  {
    var end := RunFrom(s, acts);
    hide HalfOf, WillAgree, WillDiffer, Agrees, RunFrom, Total, OnlyDeliveries, AtRest, Pending;
    DeliveriesRunOut(s, acts);
    assert Alike(HalfOf(s, performer, opt), HalfOf(end, performer, opt));
    FateAtRest(end, performer, opt);
    NeverBoth(HalfOf(s, performer, opt));
  }

  // ---------------------------------------------------------------- a DO behind a pending DONT

  /** A DO queued behind a pending DONT: the option's fate is to differ, every other fate is to agree. */
  lemma DoBehindDontFate(s: System, side: bool, opt: byte, performer: bool, o: byte)
    requires Inv(s) && Get(End(s, side).q, opt).him == WantNo && !Overflows(s, UserAsks(side, Message(Do, opt)))
    ensures var s1 := Apply(s, UserAsks(side, Message(Do, opt)));
      Settling(s1) &&
      if performer == !side && o == opt then WillDiffer(HalfOf(s1, performer, o))
      else WillAgree(HalfOf(s1, performer, o))
  {
    var s1 := Apply(s, UserAsks(side, Message(Do, opt)));
    hide HalfOf, Apply, Overflows, Get, WillAgree, WillDiffer, Pending, Inv, OnlyAt;
    DoQueued(s, side, opt);
    InvSettles(s);
    NeverBoth(HalfOf(s1, !side, opt));
    OneHalf(s, s1, opt, !side);
    if !(performer == !side && o == opt) {
      InvAgrees(s, performer, o);
      SameElsewhere(s, s1, opt, !side, performer, o);
    }
  }

  /** What the queued DO does to the halves. */
  lemma DoQueued(s: System, side: bool, opt: byte)
    requires Inv(s) && Get(End(s, side).q, opt).him == WantNo && !Overflows(s, UserAsks(side, Message(Do, opt)))
    ensures var s1 := Apply(s, UserAsks(side, Message(Do, opt)));
      && Sized(s1) && OnlyAt(s, s1, opt) && HalfOf(s1, side, opt) == HalfOf(s, side, opt)
      && WillDiffer(HalfOf(s1, !side, opt))
  {
    var m, h := Message(Do, opt), HalfOf(s, !side, opt);
    assert Left(h) >= 0;
    hide HalfOf, Left, PeerAsks, Apply, Overflows, Get, WillDiffer, Inv;
    HimOf(s, !side, opt);
    AskElsewhere(s, side, m);
    AskEffect(s, side, m, opt);
    PeerAsksKeeps(h, true);
    QueuedDoDiffers(h);
  }

  lemma SameElsewhere(s: System, s1: System, opt: byte, p: bool, performer: bool, o: byte)
    requires OnlyAt(s, s1, opt) && HalfOf(s1, !p, opt) == HalfOf(s, !p, opt) && !(performer == p && o == opt)
    ensures HalfOf(s1, performer, o) == HalfOf(s, performer, o)
  {
    hide HalfOf;
  }

  /** A user asks the peer to enable an option, in any reachable state, and everything under way is then
      delivered: the two sides agree about the option exactly when the DO was not queued behind a pending
      DONT, because the WONT that answers the DONT makes the code wait for a WILL without sending the DO.
      About every other option, and in the other direction, they agree in any case. */
  lemma {:induction false} DoBehindDontDisagrees(s: System, side: bool, opt: byte, acts: seq<Action>,
      performer: bool, o: byte)
    requires Inv(s) && !Overflows(s, UserAsks(side, Message(Do, opt)))
    requires var s1 := Apply(s, UserAsks(side, Message(Do, opt))); OnlyDeliveries(s1, acts) && AtRest(RunFrom(s1, acts))
    ensures var s1 := Apply(s, UserAsks(side, Message(Do, opt)));
      && RunFrom(s1, acts).moved - s1.moved <= Total(s1, 256)
      && (Agrees(HalfOf(RunFrom(s1, acts), performer, o)) <==>
          !(performer == !side && o == opt && Get(End(s, side).q, opt).him == WantNo))
  {
    var m := Message(Do, opt);
    var s1 := Apply(s, UserAsks(side, m));
    hide Overflows, Apply, HalfOf, RunFrom, OnlyDeliveries, Get, WillAgree, WillDiffer, Total, Inv, Settling, Agrees;
    if Get(End(s, side).q, opt).him == WantNo {
      DoBehindDontFate(s, side, opt, performer, o);
    } else {
      AskKeepsInv(s, side, m);
      InvSettles(s1);
      InvAgrees(s1, performer, o);
    }
    NeverBoth(HalfOf(s1, performer, o));
    FatesComeTrue(s1, acts, performer, o);
  }

  lemma InvAgrees(s: System, performer: bool, opt: byte)
    requires Inv(s)
    ensures WillAgree(HalfOf(s, performer, opt))
  {
  }
}
