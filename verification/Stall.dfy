/** Safety is all two of these clients can promise: a lost PUBCOMP is never made good, because PUBREL is
    always repeated with DUP clear and a PUBREL for an unknown id is then not answered. */
module Stall {
  import opened Sequences
  import opened Bytes
  import opened MqttTypes
  import opened WirePackets
  import opened ClientHandlers
  import opened Session
  import opened StoreRecovery
  import opened ExactlyOnce

  /** A waits for a PUBCOMP that is not on its way, for a publication B has forgotten. */
  ghost predicate Stalled(s: System, m: Message) {
    && m in s.a.outbound && m.qos == 2 && m.next == AwaitPubcomp
    && !HasId(s.b.inbound, m.msgid) && NoPub2(s.toB, m.msgid) && NoComp(s.toA, m.msgid)
  }

  ghost function RunFrom(s: System, acts: seq<Action>): System {
    if acts == [] then s else Apply(RunFrom(s, acts[..|acts| - 1]), acts[|acts| - 1])
  }

  lemma {:induction false} RunFromConcat(s: System, a: seq<Action>, b: seq<Action>)
    ensures RunFrom(s, a + b) == RunFrom(RunFrom(s, a), b)
  {
    if b == [] {
      Whole(a);
    } else {
      RunFromConcat(s, a, b[..|b| - 1]);
      assert (a + b)[..|a + b| - 1] == a + b[..|b| - 1];
    }
  }

  lemma RunFromFirst(s: System, act: Action, acts: seq<Action>)
    ensures RunFrom(s, [act] + acts) == RunFrom(Apply(s, act), acts)
  {
    RunFromConcat(s, [act], acts);
    assert [act][..0] == [] && RunFrom(s, []) == s;
    hide Apply;
  }

  lemma NoSteps(s: System)
    ensures RunFrom(s, []) == s
  {
  }

  lemma {:induction false} RetriesNoPub2(l: seq<Message>, out: seq<Message>, m: Message)
    requires DistinctIds(out) && m in out && m.qos == 2 && m.next == AwaitPubcomp && forall x :: x in l ==> x in out
    ensures NoPub2(RetryPackets(l), m.msgid)
  {
    if l != [] {
      RetriesNoPub2(l[..|l| - 1], out, m);
      var x := l[|l| - 1];
      assert x in out && (x.msgid == m.msgid ==> x == m);
      assert NoPub2(RetryPacket(x), m.msgid);
    }
  }

  lemma ASendsKeepsStalled(s: System, s': System, m: Message, ps: seq<Packet>)
    requires Stalled(s, m) && NoPub2(ps, m.msgid)
    requires s'.toB == s.toB + ps && s'.toA == s.toA && s'.b == s.b && m in s'.a.outbound
    ensures Stalled(s', m)
  {
  }

  lemma AcceptKeepsStalled(s: System, topic: seq<byte>, payload: seq<byte>, qos: nat, retain: bool, m: Message)
    requires Inv(s) && Stalled(s, m) && qos <= 2
    ensures Stalled(Accept(s, topic, payload, qos, retain), m)
  {
    var s' := Accept(s, topic, payload, qos, retain);
    if s' != s {
      NewIdUnused(s.a.msgID, Ids(s.a.outbound), 1);
      var id := if qos == 0 then 0 else NextId(s.a.msgID, Ids(s.a.outbound));
      ASendsKeepsStalled(s, s', m, [Publish(id, qos, false, retain, Publication(topic, payload, NextSerial(s, qos)))]);
    }
  }

  /** What B does with a packet that does not offer the id: it gets no record and no PUBCOMP for it. */
  lemma OtherPacketAtB(c: ClientState, p: Packet, id: nat)
    requires DistinctIds(c.inbound) && FitsB(p) && !IsPub2(p, id) && !HasId(c.inbound, id)
    ensures var o := Handle(c, p); !HasId(o.client.inbound, id) && NoComp(o.sent, id)
  {
    if p.Publish? { OtherPublishAtB(c, p, id); } else { OtherPubrelAtB(c, p, id); }
  }

  lemma OtherPublishAtB(c: ClientState, p: Packet, id: nat)
    requires p.Publish? && p.qos <= 2 && !IsPub2(p, id) && !HasId(c.inbound, id)
    ensures var o := Handle(c, p); !HasId(o.client.inbound, id) && NoComp(o.sent, id)
  {
    if p.qos == 2 { StorePublishKeepsIdle(c, p, id); }
  }

  lemma OtherPubrelAtB(c: ClientState, p: Packet, id: nat)
    requires DistinctIds(c.inbound) && p.Pubrel? && !p.dup && !HasId(c.inbound, id)
    ensures var o := Handle(c, p); !HasId(o.client.inbound, id) && NoComp(o.sent, id)
  {
    HasIdFind(c.inbound, p.msgid);
    var i := Find(c.inbound, p.msgid);
    if i < |c.inbound| { RemoveAtRecords(c.inbound, i); }
    hide RemoveAt;
  }

  lemma BReceivesKeepsStalled(s: System, m: Message)
    requires Inv(s) && Stalled(s, m) && s.toB != []
    ensures Stalled(BSends(DropB(s), Handle(s.b, s.toB[0])), m)
  {
    var p := s.toB[0];
    assert FitsB(p) && !IsPub2(p, m.msgid) && DistinctIds(s.b.inbound);
    hide Handle, Exchanges, Accounting, StoreHolds, ClientsGood, ChannelTypes, OnlyQos2, NotQos2;
    OtherPacketAtB(s.b, p, m.msgid);
  }

  /** No acknowledgement but its own PUBCOMP touches a record that waits for one. */
  lemma AckLeavesRecord(c: ClientState, p: Packet, m: Message)
    requires DistinctIds(c.outbound) && FitsA(p) && !IsComp(p, m.msgid)
    requires m in c.outbound && m.qos == 2 && m.next == AwaitPubcomp
    ensures var o := Handle(c, p);
      m in o.client.outbound && NoPub2(o.sent, m.msgid) && (forall x :: x in o.sent ==> !x.Publish?)
  {
    var i := Find(c.outbound, p.msgid);
    HasIdFind(c.outbound, p.msgid);
    if i < |c.outbound| {
      if c.outbound[i].msgid == m.msgid { SameIdSameRecord(c.outbound, i, m); }
      RemoveAtRecords(c.outbound, i);
      UpdateRecords(c.outbound, i, c.outbound[i].(next := AwaitPubcomp));
      hide RemoveAt;
    }
  }

  lemma AReceivesKeepsStalled(s: System, m: Message)
    requires Inv(s) && Stalled(s, m) && s.toA != []
    ensures Stalled(ASends(DropA(s), Handle(s.a, s.toA[0])), m)
  {
    var p, o := s.toA[0], Handle(s.a, s.toA[0]);
    StalledHead(s, m);
    hide Inv, Handle, Stalled, NoPub2, FitsA, DistinctIds;
    AckLeavesRecord(s.a, p, m);
    ASendsKeepsStalled(DropA(s), ASends(DropA(s), o), m, o.sent);
  }

  lemma StalledHead(s: System, m: Message)
    requires Inv(s) && Stalled(s, m) && s.toA != []
    ensures FitsA(s.toA[0]) && !IsComp(s.toA[0], m.msgid) && DistinctIds(s.a.outbound) && Stalled(DropA(s), m)
    ensures m in s.a.outbound && m.qos == 2 && m.next == AwaitPubcomp
  {
    hide Exchanges, Accounting, StoreHolds;
  }

  lemma CrashKeepsStalled(s: System, keys: seq<Key>, m: Message)
    requires Inv(s) && Stalled(s, m) && Possible(s, CrashInPubcomp(keys))
    ensures Stalled(Apply(s, CrashInPubcomp(keys)), m)
  {
    CrashBetweenRemovals(s.a, s.toA[0].msgid, keys);
    AReceivesKeepsStalled(s, m);
  }

  lemma ApplyKeepsStalled(s: System, act: Action, m: Message)
    requires Inv(s) && Stalled(s, m)
    ensures Stalled(Apply(s, act), m)
  {
    hide Inv, Stalled, Accept, Handle, Restore, Retries;
    if Possible(s, act) {
      match act
      case PublishNew(topic, payload, qos, retain) => AcceptKeepsStalled(s, topic, payload, qos, retain, m);
      case Retry(ks) => RetriesKeepStalled(s, s, Chosen(s.a.outbound, ks), m);
      case BReceives => BReceivesKeepsStalled(s, m);
      case AReceives => AReceivesKeepsStalled(s, m);
      case Lose(_, _) => LossKeepsStalled(s, act, m);
      case Disconnect => LossKeepsStalled(s, act, m);
      case Reconnect(n) => RetriesKeepStalled(s, s.(connected := true), s.a.outbound[..n], m);
      case RestartA(_) => RestartKeepsStalled(s, act, m);
      case RestartB(_) => RestartKeepsStalled(s, act, m);
      case CrashInPubcomp(keys) => CrashKeepsStalled(s, keys, m);
      case CrashInPubrel(keys) => InterruptedKeepsStalled(s, keys, m);
    }
  }

  lemma InterruptedKeepsStalled(s: System, keys: seq<Key>, m: Message)
    requires Inv(s) && Stalled(s, m) && Possible(s, CrashInPubrel(keys))
    ensures Stalled(Apply(s, CrashInPubrel(keys)), m)
  {
    hide Inv, Handle, Restore;
    RestartKeepsStalled(s, RestartB(keys), m);
  }

  lemma RestartKeepsStalled(s: System, act: Action, m: Message)
    requires Inv(s) && Stalled(s, m) && Possible(s, act) && (act.RestartA? || act.RestartB?)
    ensures Stalled(Apply(s, act), m)
  {
    hide Exchanges, Accounting, ChannelTypes, Restore;
    if act.RestartA? { RestoreRebuilds(s.a, {}, act.keys); } else { RestoreRebuilds(s.b, {}, act.keys); }
  }

  lemma LossKeepsStalled(s: System, act: Action, m: Message)
    requires Stalled(s, m) && (act.Lose? || act.Disconnect?)
    ensures Stalled(Apply(s, act), m)
  {
  }

  lemma RetriesKeepStalled(s: System, s0: System, l: seq<Message>, m: Message)
    requires Inv(s) && Stalled(s, m) && (s0 == s || s0 == s.(connected := true))
        && forall x :: x in l ==> x in s.a.outbound
    ensures Stalled(ASends(s0, Retries(s.a, l)), m)
  {
    assert DistinctIds(s.a.outbound);
    hide Exchanges, Accounting, StoreHolds, ClientsGood, ChannelTypes;
    RetriesNoPub2(l, s.a.outbound, m);
    ASendsKeepsStalled(s, ASends(s0, Retries(s.a, l)), m, RetryPackets(l));
  }

  /** Once stalled, a record stays on A's list whatever happens: every later retry, reconnect and restart
      included. */
  lemma {:induction false} StalledForever(s: System, acts: seq<Action>, m: Message)
    requires Inv(s) && Stalled(s, m)
    ensures Inv(RunFrom(s, acts)) && Stalled(RunFrom(s, acts), m)
  {
    if acts != [] {
      StalledForever(s, acts[..|acts| - 1], m);
      ApplyKeepsInv(RunFrom(s, acts[..|acts| - 1]), acts[|acts| - 1]);
      ApplyKeepsStalled(RunFrom(s, acts[..|acts| - 1]), acts[|acts| - 1], m);
    }
  }

  /** A disconnect stalls a record exactly when B has already handed its publication over. */
  lemma DisconnectStalls(s: System, m: Message)
    requires Inv(s) && m in s.a.outbound && m.qos == 2
    ensures Stalled(Apply(s, Disconnect), m) <==> IsDelivered(s.delivered, m.publication.serial)
  {
    hide Inv, Apply, CompIsLast, HeldAsIn, PubsCarry, NoRelAfterPub, NoPubAfterRel;
    DisconnectCuts(s);
    ExchangeOf(s, m);
  }

  lemma DisconnectCuts(s: System)
    ensures Apply(s, Disconnect) == Cut(s)
  {
  }

  lemma RunOneMore(acts: seq<Action>, act: Action)
    ensures Run(acts + [act]) == Apply(Run(acts), act)
  {
    assert (acts + [act])[..|acts|] == acts;
  }

  lemma AReceivesIs(s: System)
    requires s.connected && s.toA != []
    ensures Apply(s, AReceives) == ASends(DropA(s), Handle(s.a, s.toA[0]))
  {
    hide Handle;
  }

  lemma BReceivesIs(s: System)
    requires s.connected && s.toB != []
    ensures Apply(s, BReceives) == BSends(DropB(s), Handle(s.b, s.toB[0]))
  {
    hide Handle;
  }

  lemma OfferAndRelease(p: Packet, m: Message)
    requires p.Publish? && p.msgid == 1 && p.qos == 2 && !p.dup && p.publication.serial == 0 && m == CreateMessage(p)
    requires Fits(p.publication.topic, p.publication.payload, 2)
    ensures var s2 := Apply(Apply(INITIAL, Reconnect(0)),
        PublishNew(p.publication.topic, p.publication.payload, 2, p.retain));
      && s2.connected && s2.a == ClientState([m], [], 1, map[Sent(1) := p]) && s2.b == EMPTY_CLIENT
      && s2.toB == [p] && s2.toA == [] && s2.delivered == [] && s2.interrupted == []
  {
    assert INITIAL.a.outbound[..0] == [] && RetryPackets([]) == [] && PersistAll(map[], []) == map[];
    assert Apply(INITIAL, Reconnect(0)) == INITIAL.(connected := true);
    assert Ids([]) == {} && NthId(0, 1) == 1 && NextId(0, {}) == 1;
  }

  lemma PublishStored(s: System, p: Packet, m: Message)
    requires p.Publish? && p.msgid == 1 && p.qos == 2 && m == CreateMessage(p)
    requires s.connected && s.b == EMPTY_CLIENT && s.toB == [p] && s.toA == [] && s.delivered == []
    ensures var s' := Apply(s, BReceives);
      && s' == s.(b := s'.b, toB := [], toA := [Pubrec(1)])
      && s'.b == ClientState([], [m.(next := AwaitPubrel)], 0, map[Received(1) := p])
  {
    assert OnlyQos2([]) == [] && NotQos2([]) == [] && s.lower + [] == s.lower;
  }

  lemma Acknowledged(s: System, p: Packet, m: Message)
    requires p.Publish? && p.msgid == 1 && p.qos == 2 && m == CreateMessage(p)
    requires s.connected && s.a == ClientState([m], [], 1, map[Sent(1) := p]) && s.toB == [] && s.toA == [Pubrec(1)]
    ensures var s' := Apply(s, AReceives);
      && s' == s.(a := s'.a, toB := [Pubrel(1, false)], toA := []) && s'.a.outbound == [m.(next := AwaitPubcomp)]
      && s'.a.store == map[Sent(1) := p, Rel(1) := Pubrel(1, false)]
  {
  }

  lemma StoreAndRelease(s: System, p: Packet, m: Message)
    requires p.Publish? && p.msgid == 1 && p.qos == 2 && m == CreateMessage(p)
    requires s.connected && s.a == ClientState([m], [], 1, map[Sent(1) := p]) && s.b == EMPTY_CLIENT
    requires s.toB == [p] && s.toA == [] && s.delivered == []
    ensures var s4 := Apply(Apply(s, BReceives), AReceives);
      && s4.connected && s4.a.outbound == [m.(next := AwaitPubcomp)]
      && s4.a.store == map[Sent(1) := p, Rel(1) := Pubrel(1, false)]
      && s4.b == ClientState([], [m.(next := AwaitPubrel)], 0, map[Received(1) := p]) && s4.toB == [Pubrel(1, false)]
      && s4.toA == [] && s4.delivered == []
      && s4.interrupted == s.interrupted
  {
    hide Apply;
    PublishStored(s, p, m);
    Acknowledged(Apply(s, BReceives), p, m);
  }

  lemma HandedOver(s: System, p: Packet, m: Message)
    requires p.Publish? && p.msgid == 1 && p.qos == 2 && m == CreateMessage(p)
    requires s.connected && s.b.inbound == [m.(next := AwaitPubrel)] && s.toB == [Pubrel(1, false)] && s.toA == []
        && s.delivered == []
    ensures var s' := Apply(s, BReceives);
      && s' == s.(b := s'.b, toB := [], toA := [Pubcomp(1)], delivered := [Handover(2, p.retain, p.publication)],
          lower := s'.lower)
  {
    var h := Handover(2, p.retain, p.publication);
    BReceivesIs(s);
    hide Apply, Handle, HandlePubrel, OnlyQos2, NotQos2, BSends, RemoveAt;
    HandOverEffect(s, m, 0);
    Assoc([], [h], []);
    Assoc([], [Pubcomp(1)], []);
  }

  lemma ExchangeCompleted(s: System, p: Packet, m: Message)
    requires p.Publish? && p.msgid == 1 && p.qos == 2 && m == CreateMessage(p)
    requires s.connected && s.a.outbound == [m.(next := AwaitPubcomp)] && s.toA == [Pubcomp(1)]
    requires s.a.store == map[Sent(1) := p, Rel(1) := Pubrel(1, false)]
    ensures var s' := Apply(s, AReceives); s'.delivered == s.delivered && s'.a.outbound == [] && s'.a.store == map[]
  {
  }

  lemma HandOverAndComplete(s: System, p: Packet, m: Message)
    requires p.Publish? && p.msgid == 1 && p.qos == 2 && m == CreateMessage(p)
    requires s.connected && s.a.outbound == [m.(next := AwaitPubcomp)]
        && s.a.store == map[Sent(1) := p, Rel(1) := Pubrel(1, false)]
    requires s.b.inbound == [m.(next := AwaitPubrel)] && s.toB == [Pubrel(1, false)] && s.toA == [] && s.delivered == []
    ensures var s6 := Apply(Apply(s, BReceives), AReceives);
      s6.delivered == [Handover(2, p.retain, p.publication)] && s6.a.outbound == [] && s6.a.store == map[]
  {
    hide Apply;
    HandedOver(s, p, m);
    ExchangeCompleted(Apply(s, BReceives), p, m);
  }

  /** The model is not empty: one publication on a fresh session goes through and leaves nothing behind. */
  lemma OneExchange(topic: seq<byte>, payload: seq<byte>, retain: bool)
    requires Fits(topic, payload, 2)
    ensures var s := Run([Reconnect(0), PublishNew(topic, payload, 2, retain)]
                         + [BReceives] + [AReceives] + [BReceives] + [AReceives]);
      s.delivered == [Handover(2, retain, Publication(topic, payload, 0))] && s.a.outbound == [] && s.a.store == map[]
  {
    var p := Publish(1, 2, false, retain, Publication(topic, payload, 0));
    var a2 := [Reconnect(0), PublishNew(topic, payload, 2, retain)];
    StoredAndReleased(topic, payload, retain);
    RunOneMore(a2 + [BReceives] + [AReceives], BReceives);
    RunOneMore(a2 + [BReceives] + [AReceives] + [BReceives], AReceives);
    hide Apply, Run;
    HandOverAndComplete(Run(a2 + [BReceives] + [AReceives]), p, CreateMessage(p));
  }

  /** The first half of an exchange on a fresh session. */
  lemma StoredAndReleased(topic: seq<byte>, payload: seq<byte>, retain: bool)
    requires Fits(topic, payload, 2)
    ensures var p := Publish(1, 2, false, retain, Publication(topic, payload, 0));
      var m := CreateMessage(p);
      var s := Run([Reconnect(0), PublishNew(topic, payload, 2, retain)] + [BReceives] + [AReceives]);
      && s.connected && s.a.outbound == [m.(next := AwaitPubcomp)]
      && s.a.store == map[Sent(1) := p, Rel(1) := Pubrel(1, false)]
      && s.b == ClientState([], [m.(next := AwaitPubrel)], 0, map[Received(1) := p]) && s.toB == [Pubrel(1, false)]
      && s.toA == [] && s.delivered == [] && s.interrupted == []
  {
    var p := Publish(1, 2, false, retain, Publication(topic, payload, 0));
    var a2 := [Reconnect(0), PublishNew(topic, payload, 2, retain)];
    RunOneMore([], Reconnect(0));
    RunOneMore([Reconnect(0)], PublishNew(topic, payload, 2, retain));
    assert [] + [Reconnect(0)] == [Reconnect(0)] && [Reconnect(0)] + [PublishNew(topic, payload, 2, retain)] == a2;
    RunOneMore(a2, BReceives);
    RunOneMore(a2 + [BReceives], AReceives);
    OfferAndRelease(p, CreateMessage(p));
    hide Apply, Run;
    StoreAndRelease(Run(a2), p, CreateMessage(p));
  }

  /** The shortest stalling run: the connection is lost before A reads the PUBCOMP. */
  lemma LostPubcompStalls(topic: seq<byte>, payload: seq<byte>, retain: bool)
    requires Fits(topic, payload, 2)
    ensures var p := Publish(1, 2, false, retain, Publication(topic, payload, 0));
      var s := Run([Reconnect(0), PublishNew(topic, payload, 2, retain)]
                   + [BReceives] + [AReceives] + [BReceives] + [Disconnect]);
      Stalled(s, CreateMessage(p).(next := AwaitPubcomp)) && |s.delivered| == 1
  {
    var p := Publish(1, 2, false, retain, Publication(topic, payload, 0));
    var a4 := [Reconnect(0), PublishNew(topic, payload, 2, retain)] + [BReceives] + [AReceives];
    var m := CreateMessage(p);
    hide Run, Apply, Inv, Stalled, Fits;
    StoredAndReleased(topic, payload, retain);
    RunOneMore(a4, BReceives);
    RunOneMore(a4 + [BReceives], Disconnect);
    HandedOver(Run(a4), p, m);
    RunKeepsInv(a4 + [BReceives]);
    CutAfterHandOver(Run(a4 + [BReceives]), m.(next := AwaitPubcomp));
  }

  lemma CutAfterHandOver(s: System, m: Message)
    requires Inv(s) && s.a.outbound == [m] && m.qos == 2
    requires |s.delivered| == 1 && s.delivered[0].publication == m.publication
    ensures Stalled(Apply(s, Disconnect), m) && Apply(s, Disconnect).delivered == s.delivered
  {
    assert s.a.outbound[0] == m && s.delivered[0].publication.serial == m.publication.serial;
    hide Inv, Apply, Stalled;
    DisconnectStalls(s, m);
    DisconnectCuts(s);
  }
}
