/** A run of two new endpoints in which a DO is queued behind a pending DONT. */
module TelnetQueued {
  import opened Sequences
  import opened Bytes
  import opened TelnetOptions
  import opened TelnetHalves
  import opened TelnetAgreement
  import opened TelnetOverflow

  /** The table with one option in it. */
  function Single(opt: byte, s: State): seq<Slot> {
    [Slot(opt, s.us, s.him), SPARE, SPARE, SPARE]
  }

  lemma SingleTable(opt: byte, s: State, s': State)
    ensures Position([], opt) == 0 && Get([], opt) == OFF && Put([], opt, s) == Single(opt, s)
    ensures Position(Single(opt, s), opt) == 0 && Get(Single(opt, s), opt) == s
        && Put(Single(opt, s), opt, s') == Single(opt, s')
  {
  }

  /** A asks for the option, B turns it on and A hears so. */
  function TurnOn(opt: byte): seq<Action> {
    [UserAsks(false, Message(Do, opt)), Deliver(true), Deliver(false)]
  }

  lemma Asks(s: System, opt: byte)
    requires AtRest(s) && s.a.q == []
    ensures var act := UserAsks(false, Message(Do, opt));
      && Fine(s, act)
      && Apply(s, act) == s.(a := s.a.(q := Single(opt, State(No, WantYes))), fromA := [Message(Do, opt)],
          asked := s.asked + 1)
  {
    SingleTable(opt, State(No, WantYes), OFF);
    hide Get, Put, Position;
    assert Addressed([Do], opt) == [Message(Do, opt)];
  }

  lemma TurnsOn(s: System, opt: byte)
    requires s.fromA == [Message(Do, opt)] && s.fromB == [] && s.b.q == [] && opt in s.b.support.us
    ensures Fine(s, Deliver(true))
      && Apply(s, Deliver(true)) ==
           s.(b := s.b.(q := Single(opt, State(Yes, No))), fromA := [], fromB := [Message(Will, opt)],
               moved := s.moved + 1)
  {
    SingleTable(opt, State(Yes, No), OFF);
    hide Get, Put, Position;
    assert Addressed([Will], opt) == [Message(Will, opt)];
  }

  lemma HearsWill(s: System, opt: byte)
    requires s.fromA == [] && s.fromB == [Message(Will, opt)] && s.a.q == Single(opt, State(No, WantYes))
    ensures Fine(s, Deliver(false))
      && Apply(s, Deliver(false)) == s.(a := s.a.(q := Single(opt, State(No, Yes))), fromB := [], moved := s.moved + 1)
  {
    SingleTable(opt, State(No, WantYes), State(No, Yes));
    hide Get, Put, Position;
    assert Addressed([], opt) == [];
  }

  lemma AsksNot(s: System, opt: byte)
    requires AtRest(s) && s.a.q == Single(opt, State(No, Yes))
    ensures var act := UserAsks(false, Message(Dont, opt));
      && Fine(s, act)
      && Apply(s, act) == s.(a := s.a.(q := Single(opt, State(No, WantNo))), fromA := [Message(Dont, opt)],
          asked := s.asked + 1)
  {
    SingleTable(opt, State(No, Yes), State(No, WantNo));
    hide Get, Put, Position;
    assert Addressed([Dont], opt) == [Message(Dont, opt)];
  }

  lemma AsksAgain(s: System, opt: byte)
    requires s.a.q == Single(opt, State(No, WantNo))
    ensures var act := UserAsks(false, Message(Do, opt));
      && DoBehindDont(s, act) && !Overflows(s, act)
      && Apply(s, act) == s.(a := s.a.(q := Single(opt, State(No, WantNoOp))), asked := s.asked + 1)
  {
    SingleTable(opt, State(No, WantNo), State(No, WantNoOp));
    hide Get, Put, Position;
    assert Addressed([], opt) == [];
    Assoc(s.fromA, [], []);
  }

  lemma TurnsOff(s: System, opt: byte)
    requires s.fromA == [Message(Dont, opt)] && s.fromB == [] && s.b.q == Single(opt, State(Yes, No))
    ensures !Overflows(s, Deliver(true))
      && Apply(s, Deliver(true)) ==
           s.(b := s.b.(q := Single(opt, OFF)), fromA := [], fromB := [Message(Wont, opt)], moved := s.moved + 1)
  {
    SingleTable(opt, State(Yes, No), OFF);
    hide Get, Put, Position;
    assert Addressed([Wont], opt) == [Message(Wont, opt)];
  }

  lemma HearsWont(s: System, opt: byte)
    requires s.fromA == [] && s.fromB == [Message(Wont, opt)] && s.a.q == Single(opt, State(No, WantNoOp))
    ensures !Overflows(s, Deliver(false))
      && Apply(s, Deliver(false)) == s.(a := s.a.(q := Single(opt, State(No, WantYes))), fromB := [],
          moved := s.moved + 1)
  {
    SingleTable(opt, State(No, WantNoOp), State(No, WantYes));
    hide Get, Put, Position;
    assert Addressed([], opt) == [];
  }

  /** Fine steps that lead to a pending DONT. */
  lemma DontPending(a: Support, b: Support, opt: byte)
    requires opt in b.us
    ensures var acts := TurnOn(opt) + [UserAsks(false, Message(Dont, opt))];
      var s := RunFrom(Initial(a, b), acts);
      && FineRun(Initial(a, b), acts) && s.fromA == [Message(Dont, opt)] && s.fromB == []
      && s.a.q == Single(opt, State(No, WantNo)) && s.b.q == Single(opt, State(Yes, No))
  {
    var s0, ask := Initial(a, b), UserAsks(false, Message(Do, opt));
    NoSteps(s0);
    hide RunFrom, FineRun, Apply, Fine, Single;
    var s1 := Apply(s0, ask);
    Asks(s0, opt);
    TurnsOn(s1, opt);
    var s2 := Apply(s1, Deliver(true));
    HearsWill(s2, opt);
    AsksNot(Apply(s2, Deliver(false)), opt);
    RunThreeMore(s0, [], ask, Deliver(true), Deliver(false));
    Assoc([], TurnOn(opt), []);
    RunOneMore(s0, TurnOn(opt), UserAsks(false, Message(Dont, opt)));
  }

  lemma NoSteps(s: System)
    ensures RunFrom(s, []) == s && FineRun(s, [])
  {
  }

  /** From two new endpoints: B turns an option on that A has asked for, and then A asks for it to be turned off
      and on again before the answer to the first is there.  At rest A waits for a WILL and B has the option off;
      about everything else the two agree. */
  lemma {:induction false} QueuedDoReached(a: Support, b: Support, opt: byte)
    requires opt in b.us
    ensures var acts := TurnOn(opt) + [UserAsks(false, Message(Dont, opt))];
      var s, act := RunFrom(Initial(a, b), acts), UserAsks(false, Message(Do, opt));
      var end := RunFrom(Apply(s, act), [Deliver(true), Deliver(false)]);
      && FineRun(Initial(a, b), acts) && DoBehindDont(s, act) && !Overflows(s, act) && AtRest(end)
      && Get(end.a.q, opt).him == WantYes && Get(end.b.q, opt).us == No
      && forall performer, o :: Agrees(HalfOf(end, performer, o)) <==> !(performer && o == opt)
  {
    var acts := TurnOn(opt) + [UserAsks(false, Message(Dont, opt))];
    var s, act, rest := RunFrom(Initial(a, b), acts), UserAsks(false, Message(Do, opt)),
        [Deliver(true), Deliver(false)];
    hide RunFrom, FineRun, Apply, HalfOf, Agrees, Single, Inv, OnlyDeliveries, Fine, TurnOn;
    DontPending(a, b, opt);
    RunsSettle(a, b, acts);
    AsksAgain(s, opt);
    var s1 := Apply(s, act);
    TurnsOff(s1, opt);
    HearsWont(Apply(s1, Deliver(true)), opt);
    TwoDeliveries(s1);
    SingleTable(opt, State(No, WantYes), OFF);
    SingleTable(opt, OFF, OFF);
    forall performer, o ensures Agrees(HalfOf(RunFrom(s1, rest), performer, o)) <==> !(performer && o == opt) {
      DoBehindDontDisagrees(s, false, opt, rest, performer, o);
    }
  }
}
