/** When an exchange can still finish: exactly when it is not stalled. */
module Completion {
  import opened Sequences
  import opened MqttTypes
  import opened ClientHandlers
  import opened Session
  import opened StoreRecovery
  import opened ExactlyOnce
  import opened Stall

  /** A QoS 2 record of A in a reachable state. */
  ghost predicate OnRecord(s: System, m: Message) {
    Inv(s) && m in s.a.outbound && m.qos == 2
  }

  /** After the actions the record is gone. */
  ghost predicate Gone(s: System, acts: seq<Action>, m: Message) {
    !HasId(RunFrom(s, acts).a.outbound, m.msgid)
  }

  lemma GoneLater(s: System, act: Action, acts: seq<Action>, m: Message)
    requires Gone(Apply(s, act), acts, m)
    ensures Gone(s, [act] + acts, m)
  {
    hide Apply, RunFrom;
    RunFromFirst(s, act, acts);
  }

  // ---------------------------------------------------------------- the PUBCOMP is under way

  lemma CompletedIsGone(c: ClientState, m: Message)
    requires DistinctIds(c.outbound) && m in c.outbound && m.qos == 2 && m.next == AwaitPubcomp
    ensures !HasId(Handle(c, Pubcomp(m.msgid)).client.outbound, m.msgid)
  {
    HasIdFind(c.outbound, m.msgid);
    var i := Find(c.outbound, m.msgid);
    SameIdSameRecord(c.outbound, i, m);
    RemoveAtRecords(c.outbound, i);
    hide RemoveAt;
  }

  /** For a stalled record the DUP bit is all that is missing: a PUBREL with it set would be answered, with nothing
      handed over again, and the answer would take the record off the list. */
  lemma DupWouldRelease(s: System, m: Message)
    requires Inv(s) && Stalled(s, m) && s.connected && s.toA == []
    ensures var s1 := Apply(s.(toB := [Pubrel(m.msgid, true)]), BReceives);
      && s1.b == s.b && s1.delivered == s.delivered && s1.toA == [Pubcomp(m.msgid)]
      && !HasId(Apply(s1, AReceives).a.outbound, m.msgid)
  {
    hide Inv, Handle;
    HasIdFind(s.b.inbound, m.msgid);
    RecordsDistinct(s);
    CompletedIsGone(s.a, m);
    DupIsAnswered(s.b, m.msgid);
    var s0 := s.(toB := [Pubrel(m.msgid, true)]);
    var s1 := Apply(s0, BReceives);
    assert s0.toB[1..] == [] && s1.toA == [Pubcomp(m.msgid)] && s1.a == s.a && s1.connected;
  }

  lemma DupIsAnswered(c: ClientState, id: nat)
    requires Find(c.inbound, id) == |c.inbound|
    ensures Handle(c, Pubrel(id, true)) == Outcome(c, [Pubcomp(id)], [])
  {
  }

  /** A handles everything in front of the PUBCOMP, and then the PUBCOMP. */
  lemma {:induction false} PubcompArrives(s: System, m: Message) returns (acts: seq<Action>)
    requires OnRecord(s, m) && m.next == AwaitPubcomp && s.connected && !NoComp(s.toA, m.msgid)
    ensures Gone(s, acts, m)
    decreases |s.toA|
  {
    var p, s' := s.toA[0], Apply(s, AReceives);
    RecordsDistinct(s);
    AReceivesIs(s);
    ApplyKeepsInv(s, AReceives);
    hide Inv, Apply, Handle, RunFrom;
    if IsComp(p, m.msgid) {
      assert p == Pubcomp(m.msgid);
      CompletedIsGone(s.a, m);
      acts := [];
      NoSteps(s');
    } else {
      AckLeavesRecord(s.a, p, m);
      CompIsBehind(s.toA, m.msgid);
      acts := PubcompArrives(s', m);
    }
    GoneLater(s, AReceives, acts, m);
    acts := [AReceives] + acts;
  }

  lemma CompIsBehind(ch: seq<Packet>, id: nat)
    requires ch != [] && !NoComp(ch, id) && !IsComp(ch[0], id)
    ensures !NoComp(ch[1..], id)
  {
    var i :| 0 <= i < |ch| && IsComp(ch[i], id);
    assert ch[1..][i - 1] == ch[i];
  }

  // ---------------------------------------------------------------- B still has to hand over

  /** The PUBREL of an undelivered record is the only packet under way. */
  lemma PubrelArrives(s: System, m: Message) returns (acts: seq<Action>)
    requires OnRecord(s, m) && m.next == AwaitPubcomp && !IsDelivered(s.delivered, m.publication.serial)
    requires s.connected && s.toB == [Pubrel(m.msgid, false)]
    ensures Gone(s, acts, m)
  {
    var s' := Apply(s, BReceives);
    ExchangeOf(s, m);
    BReceivesIs(s);
    ApplyKeepsInv(s, BReceives);
    assert HasId(s.b.inbound, m.msgid);
    hide Inv, Apply, Handle, HandlePubrel, RunFrom, BSends, Released, Finished, RemoveAt;
    var m', i := PubrelReleases(s);
    HandOverEffect(s, m', i);
    assert s'.toA[|s.toA|] == Pubcomp(m.msgid);
    acts := PubcompArrives(s', m);
    GoneLater(s, BReceives, acts, m);
    acts := [BReceives] + acts;
  }

  /** The repeated PUBLISH of an undelivered record is the only packet under way. */
  lemma PublishArrives(s: System, m: Message) returns (acts: seq<Action>)
    requires OnRecord(s, m) && m.next == AwaitPubrec && !IsDelivered(s.delivered, m.publication.serial)
    requires s.connected && s.toA == [] && |s.toB| == 1 && IsPub2(s.toB[0], m.msgid)
    ensures Gone(s, acts, m)
  {
    var s1 := Apply(s, BReceives);
    PublishIsAnswered(s, m.msgid);
    ApplyKeepsInv(s, BReceives);
    acts := PubrecArrives(s1, m);
    hide Inv, Apply, RunFrom;
    GoneLater(s, BReceives, acts, m);
    acts := [BReceives] + acts;
  }

  lemma PublishIsAnswered(s: System, id: nat)
    requires s.connected && s.toA == [] && |s.toB| == 1 && IsPub2(s.toB[0], id)
    ensures var s1 := Apply(s, BReceives);
      s1.connected && s1.a == s.a && s1.toB == [] && s1.toA == [Pubrec(id)] && s1.delivered == s.delivered
  {
    BReceivesIs(s);
    StoreOutcome(s.b, s.toB[0]);
    assert OnlyQos2([]) == [];
    hide Apply, Handle, HandlePublish, OnlyQos2, NotQos2;
    Assoc(s.delivered, [], []);
  }

  lemma PubrecArrives(s: System, m: Message) returns (acts: seq<Action>)
    requires OnRecord(s, m) && m.next == AwaitPubrec && !IsDelivered(s.delivered, m.publication.serial)
    requires s.connected && s.toB == [] && s.toA == [Pubrec(m.msgid)]
    ensures Gone(s, acts, m)
  {
    var s' := Apply(s, AReceives);
    AReceivesIs(s);
    ApplyKeepsInv(s, AReceives);
    assert Handle(s.a, s.toA[0]) == HandlePubrec(s.a, m.msgid);
    hide Inv, Apply, Handle, HandlePubrec, RunFrom, ASends;
    var i := ReleasedRecord(s, m);
    assert s'.a.outbound[i] == m.(next := AwaitPubcomp);
    acts := PubrelArrives(s', m.(next := AwaitPubcomp));
    GoneLater(s, AReceives, acts, m);
    acts := [AReceives] + acts;
  }

  /** Nothing is under way, and B has not handed the publication over: it is offered again, or released again. */
  lemma CutFinishes(s: System, m: Message) returns (acts: seq<Action>)
    requires OnRecord(s, m) && !IsDelivered(s.delivered, m.publication.serial)
    requires !s.connected && s.toB == [] && s.toA == []
    ensures Gone(s, acts, m)
  {
    var i :| 0 <= i < |s.a.outbound| && s.a.outbound[i] == m;
    var s1 := Apply(s, Reconnect(0));
    var s2 := Apply(s1, Retry([i]));
    ReconnectIs(s);
    RetryIs(s1, i);
    ApplyKeepsInv(s, Reconnect(0));
    ApplyKeepsInv(s1, Retry([i]));
    ExchangeOf(s, m);
    hide Inv, Apply, RunFrom, OpenExchange;
    Assoc([], RetryPacket(m), []);
    if m.next == AwaitPubrec {
      acts := PublishArrives(s2, m);
    } else {
      acts := PubrelArrives(s2, m);
    }
    GoneLater(s1, Retry([i]), acts, m);
    acts := [Retry([i])] + acts;
    GoneLater(s, Reconnect(0), acts, m);
    acts := [Reconnect(0)] + acts;
  }

  lemma ReconnectIs(s: System)
    requires !s.connected
    ensures Apply(s, Reconnect(0)) == s.(connected := true)
  {
    assert s.a.outbound[..0] == [] && RetryPackets([]) == [] && PersistAll(s.a.store, []) == s.a.store;
    Assoc(s.toB, [], []);
  }

  lemma RetryIs(s: System, i: nat)
    requires s.connected && i < |s.a.outbound|
    ensures Apply(s, Retry([i])) == s.(toB := s.toB + RetryPacket(s.a.outbound[i]),
                                       a := s.a.(store := PersistAll(s.a.store, RetryPacket(s.a.outbound[i]))))
  {
    assert [i][..0] == [] && Chosen(s.a.outbound, []) == [];
    Assoc([], [s.a.outbound[i]], []);
    assert Chosen(s.a.outbound, [i]) == [s.a.outbound[i]];
    RetryOne(s, s.a.outbound[i]);
  }

  // ---------------------------------------------------------------- the theorems

  lemma Finishes(s: System, m: Message) returns (acts: seq<Action>)
    requires OnRecord(s, m) && !Stalled(s, m)
    ensures Gone(s, acts, m)
  {
    ExchangeOf(s, m);
    hide RunFrom, Inv, Released, Offered;
    if !IsDelivered(s.delivered, m.publication.serial) {
      var s' := Apply(s, Disconnect);
      DisconnectCuts(s);
      ApplyKeepsInv(s, Disconnect);
      hide Apply;
      acts := CutFinishes(s', m);
      GoneLater(s, Disconnect, acts, m);
      acts := [Disconnect] + acts;
    } else {
      DeliveredIsFinished(s, m);
      if s.connected {
        acts := PubcompArrives(s, m);
      } else {
        ReconnectIs(s);
        ApplyKeepsInv(s, Reconnect(0));
        hide Apply;
        acts := PubcompArrives(Apply(s, Reconnect(0)), m);
        GoneLater(s, Reconnect(0), acts, m);
        acts := [Reconnect(0)] + acts;
      }
    }
  }

  lemma DeliveredIsFinished(s: System, m: Message)
    requires OnRecord(s, m) && IsDelivered(s.delivered, m.publication.serial)
    ensures m.next == AwaitPubcomp && Finished(s, m)
  {
    ExchangeOf(s, m);
  }

  /** In every reachable state: a record stays on the list in every continuation exactly when it is stalled. */
  lemma StuckIsStalled(s: System, m: Message)
    requires Inv(s) && m in s.a.outbound && m.qos == 2
    ensures (forall acts :: HasId(RunFrom(s, acts).a.outbound, m.msgid)) <==> Stalled(s, m)
  {
    hide Inv, Stalled, RunFrom;
    if Stalled(s, m) {
      forall acts ensures HasId(RunFrom(s, acts).a.outbound, m.msgid) {
        StalledForever(s, acts, m);
        StalledIsThere(RunFrom(s, acts), m);
      }
    } else {
      var acts := Finishes(s, m);
      assert !HasId(RunFrom(s, acts).a.outbound, m.msgid);
    }
  }

  lemma StalledIsThere(s: System, m: Message)
    requires Stalled(s, m)
    ensures HasId(s.a.outbound, m.msgid)
  {
  }

  /** So a disconnect leaves a record behind for good exactly when its publication has been handed over. */
  lemma DisconnectDecides(s: System, m: Message)
    requires Inv(s) && m in s.a.outbound && m.qos == 2
    ensures (forall acts :: HasId(RunFrom(Apply(s, Disconnect), acts).a.outbound, m.msgid)) <==>
            IsDelivered(s.delivered, m.publication.serial)
  {
    DisconnectCuts(s);
    ApplyKeepsInv(s, Disconnect);
    hide Inv, Apply, RunFrom, Stalled, HasId;
    DisconnectStalls(s, m);
    StuckIsStalled(Apply(s, Disconnect), m);
  }
}
