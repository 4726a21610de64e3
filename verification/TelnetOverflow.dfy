/** The 64th option: the size of the option table is kept in an unsigned byte, wraps to zero, and the endpoint
    forgets every option.  From any reachable state this costs agreement about exactly the options that were on. */
module TelnetOverflow {
  import opened Sequences
  import opened Bytes
  import opened TelnetOptions
  import opened TelnetHalves
  import opened TelnetFate
  import opened TelnetAgreement

  lemma StoreForgets(q: seq<Slot>, opt: byte, s: State)
    requires Wraps(q, opt) && s != OFF
    ensures Store(q, opt, s) == [] && Get(q, opt) == OFF
  {
  }

  lemma EmptyTable(opt: byte)
    ensures Get([], opt) == OFF && WellSized([])
  {
  }

  /** The state that the acting side should have for an option after the step. */
  function Kept(s: System, act: Action, o: byte): State
    requires Acts(s, act)
  {
    if o == OptionOf(s, act) then Target(s, act) else Get(End(s, act.side).q, o)
  }

  // ---------------------------------------------------------------- what the step does

  /** A request that overflows: its message is sent, and the acting side's part of every half is off. */
  lemma AskForgets(s: System, side: bool, m: Message, o: byte)
    requires Overflows(s, UserAsks(side, m))
    ensures var s', h, g := Apply(s, UserAsks(side, m)), HalfOf(s, side, o), HalfOf(s, !side, o);
      && m.cmd == (if AboutPeer(m.cmd) then Will else Do)
      && End(s', side).q == [] && End(s', !side) == End(s, !side)
      && HalfOf(s', side, o) == h.(us := No, said := if o == m.opt && AboutPeer(m.cmd) then h.said + [Will] else h.said)
      && HalfOf(s', !side, o) ==
           g.(him := No, orders := if o == m.opt && !AboutPeer(m.cmd) then g.orders + [Do] else g.orders)
  {
    var q := End(s, side).q;
    var st, st' := Get(q, m.opt), AskedState(q, m);
    StoreForgets(q, m.opt, st');
    EmptyTable(o);
    hide Get, Store, Pick, Addressed, Wraps, WellSized;
    Whole(Wire(s, !side));
    Whole(Pick(Wire(s, side), o, true));
    Whole(Pick(Wire(s, side), o, false));
    if AboutPeer(m.cmd) {
      UpdateEffect(s, side, [], m.opt, Ask(st.us, m.cmd == Will, Will, Wont).1, [], 0, o);
    } else {
      UpdateEffect(s, side, [], m.opt, Ask(st.him, m.cmd == Do, Do, Dont).1, [], 0, o);
    }
  }

  /** A delivery that overflows is the acceptance of an offer or of a request. */
  lemma DeliverForgets(s: System, side: bool, o: byte)
    requires Overflows(s, Deliver(side))
    ensures var s', m, h, g := Apply(s, Deliver(side)), Wire(s, !side)[0], HalfOf(s, side, o), HalfOf(s, !side, o);
      && m.cmd == (if AboutPeer(m.cmd) then Will else Do)
          && Target(s, Deliver(side)) == (if AboutPeer(m.cmd) then State(No, Yes) else State(Yes, No))
      && End(s', side).q == [] && End(s', !side) == End(s, !side)
      && (if o == m.opt && !AboutPeer(m.cmd)
          then |h.orders| > 0 && h.orders[0] == Do && HalfOf(s', side, o) ==
              h.(us := No, said := h.said + [Will], orders := h.orders[1..])
          else HalfOf(s', side, o) == h.(us := No))
      && (if o == m.opt && AboutPeer(m.cmd)
          then |g.said| > 0 && g.said[0] == Will && HalfOf(s', !side, o) ==
              g.(him := No, said := g.said[1..], orders := g.orders + [Do])
          else HalfOf(s', !side, o) == g.(him := No))
  {
    var m, q, support := Wire(s, !side)[0], End(s, side).q, End(s, side).support;
    var st, st' := Get(q, m.opt), HeardState(q, support, m);
    StoreForgets(q, m.opt, st');
    EmptyTable(o);
    PickHead(Wire(s, !side), o, true);
    PickHead(Wire(s, !side), o, false);
    hide Get, Store, Pick, Addressed, Wraps, WellSized;
    Whole(Pick(Wire(s, side), o, true));
    Whole(Pick(Wire(s, side), o, false));
    if AboutPeer(m.cmd) {
      var p := HearPeer(st.him, m.cmd == Will, m.opt in support.him, m.opt);
      UpdateEffect(s, side, [], m.opt, p.sent, p.events, 1, o);
    } else {
      var p := HearOrder(st.us, m.cmd == Do, m.opt in support.us, m.opt);
      UpdateEffect(s, side, [], m.opt, p.sent, p.events, 1, o);
    }
  }

  /** The state before, of the option the step is about. */
  lemma OffBefore(s: System, act: Action)
    requires Overflows(s, act)
    ensures var o := OptionOf(s, act);
      HalfOf(s, act.side, o).us == No && HalfOf(s, !act.side, o).him == No
  {
    StoreForgets(End(s, act.side).q, OptionOf(s, act), Target(s, act));
    HimOf(s, act.side, OptionOf(s, act));
    HimOf(s, !act.side, OptionOf(s, act));
  }

  lemma UsAndHim(s: System, side: bool, o: byte)
    ensures Get(End(s, side).q, o) == State(HalfOf(s, side, o).us, HalfOf(s, !side, o).him)
  {
  }

  // ---------------------------------------------------------------- what becomes of it

  ghost predicate Fated(h: Half, on: bool) {
    if on then WillDiffer(h) else WillAgree(h)
  }

  lemma AskFates(s: System, side: bool, m: Message, o: byte)
    requires Inv(s) && Overflows(s, UserAsks(side, m))
    ensures var act := UserAsks(side, m);
      var s', k := Apply(s, act), Kept(s, act, o);
      Fated(HalfOf(s', side, o), k.us == Yes) && Fated(HalfOf(s', !side, o), k.him == Yes)
  {
    var act := UserAsks(side, m);
    var h, g := HalfOf(s, side, o), HalfOf(s, !side, o);
    assert Left(h) >= 0 && Left(g) >= 0;
    AskForgets(s, side, m, o);
    OffBefore(s, act);
    UsAndHim(s, side, o);
    assert o == m.opt ==> Kept(s, act, o) == (if AboutPeer(m.cmd) then State(WantYes, No) else State(No, WantYes));
    hide HalfOf, Left, Astray, Apart, Apply, Overflows, Get, Inv;
    ForgetUs(h);
    ForgetHim(g);
    if o == m.opt {
      if AboutPeer(m.cmd) { ForgetOffer(h); } else { ForgetOrder(g); }
    }
  }

  lemma DeliverFates(s: System, side: bool, o: byte)
    requires Inv(s) && Overflows(s, Deliver(side))
    ensures var act := Deliver(side);
      var s', k := Apply(s, act), Kept(s, act, o);
      Fated(HalfOf(s', side, o), k.us == Yes) && Fated(HalfOf(s', !side, o), k.him == Yes)
  {
    var act, m := Deliver(side), Wire(s, !side)[0];
    var h, g := HalfOf(s, side, o), HalfOf(s, !side, o);
    assert Left(h) >= 0 && Left(g) >= 0;
    DeliverForgets(s, side, o);
    OffBefore(s, act);
    UsAndHim(s, side, o);
    hide HalfOf, Left, Astray, Apart, Apply, Overflows, Get, Inv, Target;
    ForgetUs(h);
    ForgetHim(g);
    if o == m.opt {
      if AboutPeer(m.cmd) { ForgetAcceptedOffer(g); } else { ForgetAcceptedOrder(h); }
    }
  }

  lemma OverflowFates(s: System, act: Action, o: byte)
    requires Inv(s) && Overflows(s, act)
    ensures var s', k := Apply(s, act), Kept(s, act, o);
      Fated(HalfOf(s', act.side, o), k.us == Yes) && Fated(HalfOf(s', !act.side, o), k.him == Yes)
  {
    if act.UserAsks? { AskFates(s, act.side, act.m, o); } else { DeliverFates(s, act.side, o); }
  }

  lemma OverflowSettles(s: System, act: Action)
    requires Inv(s) && Overflows(s, act)
    ensures Settling(Apply(s, act))
  {
    var s' := Apply(s, act);
    if act.UserAsks? { AskForgets(s, act.side, act.m, 0); } else { DeliverForgets(s, act.side, 0); }
    EmptyTable(0);
    assert Sized(s');
    hide HalfOf, Left, Astray, Apart, Apply, Overflows, Get, Inv, WellSized, Pending;
    forall p, o ensures Pending(HalfOf(s', p, o)) >= 0 {
      OverflowFates(s, act, o);
      NeverBoth(HalfOf(s', p, o));
      assert p == act.side || p == !act.side;
    }
  }

  /** A step of either side overflows its table, in any reachable state, and everything under way is then
      delivered: the two sides agree about an option, in either direction, exactly when the overflowing side
      should not have it on there. */
  lemma {:induction false} OverflowForgets(s: System, act: Action, acts: seq<Action>, o: byte)
    requires Inv(s) && Overflows(s, act) && OnlyDeliveries(Apply(s, act), acts) && AtRest(RunFrom(Apply(s, act), acts))
    ensures var s1, k := Apply(s, act), Kept(s, act, o);
      var end := RunFrom(s1, acts);
      && end.moved - s1.moved <= Total(s1, 256)
      && (Agrees(HalfOf(end, act.side, o)) <==> k.us != Yes) && (Agrees(HalfOf(end, !act.side, o)) <==> k.him != Yes)
  {
    var s1 := Apply(s, act);
    OverflowSettles(s, act);
    OverflowFates(s, act, o);
    hide HalfOf, WillAgree, WillDiffer, Apply, Overflows, RunFrom, OnlyDeliveries, Get, Inv, Settling, Total, Agrees,
        AtRest, Kept;
    FatesComeTrue(s1, acts, act.side, o);
    FatesComeTrue(s1, acts, !act.side, o);
    NeverBoth(HalfOf(s1, act.side, o));
    NeverBoth(HalfOf(s1, !act.side, o));
  }

  /** So everything is agreed again if and only if no option was on at the overflowing side. */
  lemma {:induction false} OverflowHarmless(s: System, act: Action, acts: seq<Action>)
    requires Inv(s) && Overflows(s, act) && OnlyDeliveries(Apply(s, act), acts) && AtRest(RunFrom(Apply(s, act), acts))
    ensures (forall performer, o :: Agrees(HalfOf(RunFrom(Apply(s, act), acts), performer, o))) <==>
            forall o :: Kept(s, act, o).us != Yes && Kept(s, act, o).him != Yes
  {
    var end := RunFrom(Apply(s, act), acts);
    assert Acts(s, act);
    forall o ensures (Agrees(HalfOf(end, act.side, o)) <==> Kept(s, act, o).us != Yes)
                  && (Agrees(HalfOf(end, !act.side, o)) <==> Kept(s, act, o).him != Yes)
    {
      hide HalfOf, Apply, RunFrom, OnlyDeliveries, Inv, Agrees, AtRest, Kept, Acts, Overflows;
      OverflowForgets(s, act, acts, o);
    }
    hide HalfOf, Apply, RunFrom, OnlyDeliveries, Inv, Agrees, AtRest, Kept, Acts, Overflows;
    if forall o :: Kept(s, act, o).us != Yes && Kept(s, act, o).him != Yes {
      forall p, o ensures Agrees(HalfOf(end, p, o)) {
        assert Kept(s, act, o).us != Yes;
        assert p == act.side || p == !act.side;
      }
    }
  }

  // ---------------------------------------------------------------- a run that fills the table

  /** The table after the options 1 to n were added one after another and all reached the same state. */
  function Filled(n: nat, s: State): seq<Slot>
    requires n < 256
  {
    seq(4 * n, j requires 0 <= j < 4 * n => if j % 4 == 0 then Slot(j / 4 + 1, s.us, s.him) else SPARE)
  }

  /** A offers the options 1 to n one after another, and each answer is delivered before the next offer. */
  function Rounds(n: nat): seq<Action>
    requires n < 256
  {
    if n == 0 then [] else Rounds(n - 1) + [UserAsks(false, Message(Will, n)), Deliver(true), Deliver(false)]
  }

  lemma FilledGet(n: nat, s: State, opt: byte)
    requires n < 256 && opt >= 1
    ensures Position(Filled(n, s), opt) == (if opt <= n then 4 * (opt - 1) else 4 * n)
    ensures Get(Filled(n, s), opt) == if opt <= n then s else OFF
  {
    PositionUnique(Filled(n, s), opt, if opt <= n then 4 * (opt - 1) else 4 * n);
  }

  /** One more option is added to the table, in one state, and then moves to another. */
  lemma FilledPut(n: nat, first: State, s: State)
    requires 1 <= n <= 63
    ensures var q := Put(Filled(n - 1, s), n, first); Get(q, n) == first && Put(q, n, s) == Filled(n, s)
  {
    var q, e := Filled(n - 1, s), [Slot(n, first.us, first.him), SPARE, SPARE, SPARE];
    FilledGet(n - 1, s, n);
    Whole(q + e);
    assert Put(q, n, first) == q + e;
    PositionUnique(q + e, n, 4 * (n - 1));
    assert Put(q + e, n, s) == Filled(n, s);
  }

  /** Both sides have the options 1 to n, which A performs, and nothing is under way. */
  predicate Full(s: System, n: nat)
    requires n < 256
  {
    s.a.q == Filled(n, State(Yes, No)) && s.b.q == Filled(n, State(No, Yes)) && AtRest(s)
  }

  lemma OfferMade(s: System, n: nat)
    requires 1 <= n <= 63 && AtRest(s) && Get(s.a.q, n) == OFF && Position(s.a.q, n) < 252
    ensures var act := UserAsks(false, Message(Will, n));
      && Fine(s, act)
      && Apply(s, act) == s.(a := s.a.(q := Put(s.a.q, n, State(WantYes, No))), fromA := [Message(Will, n)],
          asked := s.asked + 1)
  {
    hide Get, Put, Position;
    assert Addressed([Will], n) == [Message(Will, n)];
  }

  lemma OfferAccepted(s: System, n: nat)
    requires 1 <= n <= 63 && s.fromA == [Message(Will, n)] && s.fromB == [] && n in s.b.support.him
    requires Get(s.b.q, n) == OFF && Position(s.b.q, n) < 252
    ensures Fine(s, Deliver(true))
      && Apply(s, Deliver(true)) ==
           s.(b := s.b.(q := Put(s.b.q, n, State(No, Yes))), fromA := [], fromB := [Message(Do, n)],
               moved := s.moved + 1)
  {
    hide Get, Put, Position;
    assert Addressed([Do], n) == [Message(Do, n)];
  }

  lemma OrderTaken(s: System, n: nat)
    requires 1 <= n <= 63 && s.fromA == [] && s.fromB == [Message(Do, n)]
    requires Get(s.a.q, n) == State(WantYes, No) && Position(s.a.q, n) < 252
    ensures Fine(s, Deliver(false))
      && Apply(s, Deliver(false)) == s.(a := s.a.(q := Put(s.a.q, n, State(Yes, No))), fromB := [],
          moved := s.moved + 1)
  {
    hide Get, Put, Position;
    assert Addressed([], n) == [];
  }

  lemma Round(s: System, n: nat)
    requires 1 <= n <= 63 && Full(s, n - 1) && n in s.b.support.him
    ensures var act := UserAsks(false, Message(Will, n));
      var s1 := Apply(s, act);
      var s2 := Apply(s1, Deliver(true));
      var s3 := Apply(s2, Deliver(false));
      && Fine(s, act) && Fine(s1, Deliver(true)) && Fine(s2, Deliver(false))
      && Full(s3, n) && s3.a.support == s.a.support && s3.b.support == s.b.support
  {
    FilledGet(n - 1, State(Yes, No), n);
    FilledGet(n - 1, State(No, Yes), n);
    FilledPut(n, State(WantYes, No), State(Yes, No));
    FilledPut(n, State(No, Yes), State(No, Yes));
    hide Filled, Put, Get, Apply, Fine, Position;
    OfferMade(s, n);
    var s1 := Apply(s, UserAsks(false, Message(Will, n)));
    OfferAccepted(s1, n);
    OrderTaken(Apply(s1, Deliver(true)), n);
  }

  lemma {:induction false} RoundsFill(a: Support, b: Support, n: nat)
    requires n <= 63 && forall o: byte :: 1 <= o <= n ==> o in b.him
    ensures var s := RunFrom(Initial(a, b), Rounds(n));
      FineRun(Initial(a, b), Rounds(n)) && Full(s, n) && s.a.support == a && s.b.support == b
  {
    if n > 0 {
      RoundsFill(a, b, n - 1);
      hide RunFrom, FineRun, Apply, Full, Fine;
      Round(RunFrom(Initial(a, b), Rounds(n - 1)), n);
      RunThreeMore(Initial(a, b), Rounds(n - 1), UserAsks(false, Message(Will, n)), Deliver(true), Deliver(false));
    }
  }

  lemma RunThreeMore(s: System, acts: seq<Action>, x: Action, y: Action, z: Action)
    ensures var t := RunFrom(s, acts);
      && RunFrom(s, acts + [x, y, z]) == Apply(Apply(Apply(t, x), y), z)
      && (FineRun(s, acts + [x, y, z]) <==>
          FineRun(s, acts) && Fine(t, x) && Fine(Apply(t, x), y) && Fine(Apply(Apply(t, x), y), z))
  {
    RunOneMore(s, acts, x);
    RunOneMore(s, acts + [x], y);
    RunOneMore(s, acts + [x] + [y], z);
    hide Apply, Fine, RunFrom, FineRun;
    assert acts + [x] + [y] + [z] == acts + [x, y, z];
  }

  lemma RunOneMore(s: System, acts: seq<Action>, act: Action)
    ensures RunFrom(s, acts + [act]) == Apply(RunFrom(s, acts), act)
    ensures FineRun(s, acts + [act]) <==> FineRun(s, acts) && Fine(RunFrom(s, acts), act)
  {
    hide Apply, Fine;
    assert (acts + [act])[..|acts|] == acts;
  }

  /** An offer of a 64th option in a full table: the table is emptied. */
  lemma LastOffer(s: System)
    requires Full(s, 63)
    ensures var act := UserAsks(false, Message(Will, 64));
      && Overflows(s, act) && Kept(s, act, 64) == State(WantYes, No)
      && Apply(s, act) == s.(a := s.a.(q := []), fromA := [Message(Will, 64)], asked := s.asked + 1)
      && forall o: byte :: 1 <= o <= 63 ==> Kept(s, act, o) == State(Yes, No)
  {
    FilledGet(63, State(Yes, No), 64);
    forall o: byte | 1 <= o <= 63 ensures Get(s.a.q, o) == State(Yes, No) { FilledGet(63, State(Yes, No), o); }
    StoreForgets(s.a.q, 64, State(WantYes, No));
    hide Filled, Get, Store;
    assert Addressed([Will], 64) == [Message(Will, 64)];
  }

  /** The offer is refused. */
  lemma OfferRefused(s: System)
    requires s.fromA == [Message(Will, 64)] && s.fromB == [] && 64 !in s.b.support.him && Get(s.b.q, 64) == OFF
        && s.a.q == []
    ensures !Overflows(s, Deliver(true)) && !Overflows(Apply(s, Deliver(true)), Deliver(false))
    ensures var end := Apply(Apply(s, Deliver(true)), Deliver(false));
      AtRest(end) && end.a.q == [] && end.b == s.b
  {
    EmptyTable(64);
    hide Get, Put;
    assert Addressed([Dont], 64) == [Message(Dont, 64)];
    assert Addressed([], 64) == [];
  }

  /** A table that overflows, reached from two new endpoints by fine steps only: 63 options are turned on and a
      64th is offered and refused.  Nothing is under way any more, A has forgotten all 63, and B has not. */
  lemma {:induction false} OverflowReached(a: Support, b: Support)
    requires 64 !in b.him && forall o: byte :: 1 <= o <= 63 ==> o in b.him
    ensures var s, act := RunFrom(Initial(a, b), Rounds(63)), UserAsks(false, Message(Will, 64));
      var end := RunFrom(Apply(s, act), [Deliver(true), Deliver(false)]);
      && FineRun(Initial(a, b), Rounds(63)) && AtRest(s) && (forall p, o :: Agrees(HalfOf(s, p, o)))
      && Overflows(s, act) && AtRest(end) && end.a.q == []
      && forall o: byte :: 1 <= o <= 63 ==> Get(end.b.q, o) == State(No, Yes) && !Agrees(HalfOf(end, false, o))
  {
    var s, act := RunFrom(Initial(a, b), Rounds(63)), UserAsks(false, Message(Will, 64));
    RoundsFill(a, b, 63);
    RunsSettle(a, b, Rounds(63));
    LastOffer(s);
    FilledGet(63, State(No, Yes), 64);
    var s1, acts := Apply(s, act), [Deliver(true), Deliver(false)];
    OfferRefused(s1);
    TwoDeliveries(s1);
    forall o: byte | 1 <= o <= 63 ensures Get(s.b.q, o) == State(No, Yes) { FilledGet(63, State(No, Yes), o); }
    forall o: byte | 1 <= o <= 63 ensures !Agrees(HalfOf(RunFrom(s1, acts), false, o)) {
      hide HalfOf, Agrees, Apply, RunFrom, FineRun, Inv, Overflows, AtRest, OnlyDeliveries, Filled, Full, Get, Rounds;
      OverflowForgets(s, act, acts, o);
    }
  }

  lemma TwoDeliveries(s: System)
    requires !Overflows(s, Deliver(true)) && !Overflows(Apply(s, Deliver(true)), Deliver(false))
    ensures OnlyDeliveries(s, [Deliver(true), Deliver(false)])
      && RunFrom(s, [Deliver(true), Deliver(false)]) == Apply(Apply(s, Deliver(true)), Deliver(false))
  {
    var acts := [Deliver(true), Deliver(false)];
    assert acts[..1] == [Deliver(true)] && acts[..0] == [] && [Deliver(true)][..0] == [];
    hide Apply, Overflows;
    assert OnlyDeliveries(s, [Deliver(true)]) && RunFrom(s, [Deliver(true)]) == Apply(s, Deliver(true));
  }
}
