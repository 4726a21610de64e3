/** All hand-overs of QoS 2 publications to B's application, those included during which B died. */
module HandOvers {
  import opened Sequences
  import opened Bytes
  import opened MqttTypes
  import opened WirePackets
  import opened ClientHandlers
  import opened Session
  import opened StoreRecovery
  import opened ExactlyOnce
  import opened OrderedDelivery
  import Stall

  /** How many actions of the run are crashes of B inside its PUBREL handler. */
  function Crashes(acts: seq<Action>): nat {
    if acts == [] then 0 else Crashes(acts[..|acts| - 1]) + if acts[|acts| - 1].CrashInPubrel? then 1 else 0
  }

  /** What B's application has been handed; the order of the two parts is not that of the hand-overs. */
  function Handed(s: System): seq<Handover> {
    s.delivered + s.interrupted
  }

  /** The publication that the step hands over, if any. */
  ghost function HandedBy(s: System, act: Action): seq<Handover> {
    Apply(s, act).delivered[|s.delivered|..] + Apply(s, act).interrupted[|s.interrupted|..]
  }

  /** Every interrupted hand-over was of an accepted publication. */
  ghost predicate Genuine(s: System) {
    forall h :: h in s.interrupted ==> h in s.published
  }

  // ---------------------------------------------------------------- one step

  /** A hand-over, completed or not, is of a publication that is accepted and not yet delivered. */
  lemma HandOverIsFirst(s: System)
    requires Inv(s) && s.toB != [] && s.toB[0].Pubrel? && Handle(s.b, s.toB[0]).handed != []
    ensures exists h :: Handle(s.b, s.toB[0]).handed == [h] && h.qos == 2 && h in s.published && h !in s.delivered
  {
    HasIdFind(s.b.inbound, s.toB[0].msgid);
    hide Exchanges, Recoverable, Find, HandlePubrel, IsDelivered;
    var m, i := PubrelReleases(s);
    hide Released, Finished;
    ReleasedIsNew(s, m);
    PubrelOutcome(s.b, m, i, s.toB[0].dup);
    assert Handle(s.b, s.toB[0]).handed == [Handover(2, m.retain, m.publication)];
  }

  lemma ReleasedIsNew(s: System, m: Message)
    requires Accounting(s) && m in s.a.outbound && m.qos == 2 && Released(s, m)
    ensures var h := Handover(2, m.retain, m.publication); h in s.published && h !in s.delivered
  {
    var k := m.publication.serial;
    assert s.published[k] == Handover(2, m.retain, m.publication);
    forall i | 0 <= i < |s.delivered| ensures s.delivered[i].publication.serial != k {}
  }

  lemma CrashHandsOver(s: System, keys: seq<Key>)
    requires Possible(s, CrashInPubrel(keys))
    ensures var s' := Apply(s, CrashInPubrel(keys));
      s'.interrupted == s.interrupted + Handle(s.b, s.toB[0]).handed && s'.published == s.published
  {
    hide Handle, Restore;
  }

  /** No other step adds to the interrupted hand-overs. */
  lemma OthersInterruptNothing(s: System, act: Action)
    requires !act.CrashInPubrel?
    ensures Apply(s, act).interrupted == s.interrupted && s.published <= Apply(s, act).published
  {
    hide Handle, Restore, Retries, StartPublish;
  }

  lemma StepIsGenuine(s: System, act: Action)
    requires Inv(s) && Genuine(s)
    ensures Genuine(Apply(s, act))
    ensures |Apply(s, act).interrupted| <= |s.interrupted| + if act.CrashInPubrel? then 1 else 0
  {
    hide Inv, Apply, Handle;
    if act.CrashInPubrel? {
      if Possible(s, act) {
        HandOverIsFirst(s);
        CrashHandsOver(s, act.keys);
      } else {
        NothingHappens(s, act);
      }
    } else {
      OthersInterruptNothing(s, act);
    }
  }

  lemma NothingHappens(s: System, act: Action)
    requires !Possible(s, act)
    ensures Apply(s, act) == s
  {
  }

  // ---------------------------------------------------------------- every run

  lemma {:induction false} RunIsGenuine(acts: seq<Action>)
    ensures Genuine(Run(acts)) && |Run(acts).interrupted| <= Crashes(acts)
  {
    if acts != [] {
      var acts' := acts[..|acts| - 1];
      RunIsGenuine(acts');
      RunKeepsInv(acts');
      hide Inv, Apply, Genuine;
      StepIsGenuine(Run(acts'), acts[|acts| - 1]);
    }
  }

  /** Over every run, everything the application has been handed is an accepted publication, unchanged, and each
      is handed over at most once more than B has died inside its PUBREL handler: without such a crash, at most
      once. */
  lemma AtMostOncePerCrash(acts: seq<Action>)
    ensures var s := Run(acts);
      && (forall h :: h in Handed(s) ==> h in s.published)
      && (forall h :: multiset(Handed(s))[h] <= 1 + Crashes(acts))
  {
    var s := Run(acts);
    ExactlyOnceDelivery(acts);
    RunIsGenuine(acts);
    hide Run;
    forall h ensures multiset(Handed(s))[h] <= 1 + Crashes(acts) {
      assert multiset(Handed(s)) == multiset(s.delivered) + multiset(s.interrupted);
      Occurrences(s.delivered, h);
      AtMostAll(s.interrupted, h);
    }
  }

  lemma {:induction false} Occurrences(hs: seq<Handover>, h: Handover)
    requires forall i, j :: 0 <= i < j < |hs| ==> hs[i] != hs[j]
    ensures multiset(hs)[h] <= 1
  {
    if hs != [] {
      var front, last := hs[..|hs| - 1], hs[|hs| - 1];
      assert hs == front + [last];
      Occurrences(front, h);
      if h == last { assert h !in front; }
    }
  }

  lemma AtMostAll(hs: seq<Handover>, h: Handover)
    ensures multiset(hs)[h] <= |hs|
  {
    assert |multiset(hs)| == |hs|;
  }

  /** A step hands over at most one publication, and never one whose hand-over has been completed: handed over
      before, it can only have been so while B died. */
  lemma RepeatedOnlyAfterCrash(acts: seq<Action>, act: Action)
    ensures var s := Run(acts);
      && |HandedBy(s, act)| <= 1
      && forall h :: h in HandedBy(s, act) && h in Handed(s) ==> h in s.interrupted && h !in s.delivered
  {
    RunKeepsInv(acts);
    hide Inv, Run, HandedBy;
    StepHandsNew(Run(acts), act);
  }

  lemma StepHandsNew(s: System, act: Action)
    requires Inv(s)
    ensures |HandedBy(s, act)| <= 1 && forall h :: h in HandedBy(s, act) ==> h in s.published && h !in s.delivered
  {
    var s' := Apply(s, act);
    hide Inv, Apply, Handle, OnlyQos2;
    if !Possible(s, act) {
      NothingHappens(s, act);
    } else if act.CrashInPubrel? {
      HandOverIsFirst(s);
      CrashHandsOver(s, act.keys);
      OthersDeliverNothing(s, act);
      Appended(s.interrupted, Handle(s.b, s.toB[0]).handed);
    } else if act.BReceives? {
      BHands(s);
      BReceivesAppends(s);
      OthersInterruptNothing(s, act);
      Appended(s.delivered, OnlyQos2(Handle(s.b, s.toB[0]).handed));
      Whole(OnlyQos2(Handle(s.b, s.toB[0]).handed));
    } else {
      OthersInterruptNothing(s, act);
      OthersDeliverNothing(s, act);
    }
  }

  lemma Appended(a: seq<Handover>, b: seq<Handover>)
    ensures (a + b)[|a|..] == b && a[|a|..] == [] && [] + b == b
  {
  }

  lemma OthersDeliverNothing(s: System, act: Action)
    requires !act.BReceives?
    ensures Apply(s, act).delivered == s.delivered
  {
    hide Handle, Restore, Retries, StartPublish;
  }

  lemma BHands(s: System)
    requires Inv(s) && s.toB != []
    ensures var hs := OnlyQos2(Handle(s.b, s.toB[0]).handed);
      |hs| <= 1 && forall h :: h in hs ==> h in s.published && h !in s.delivered
  {
    HeadFits(s);
    hide Inv, Handle, OnlyQos2, FitsB;
    if s.toB[0].Pubrel? && Handle(s.b, s.toB[0]).handed != [] {
      HandOverIsFirst(s);
      var h :| Handle(s.b, s.toB[0]).handed == [h] && h.qos == 2 && h in s.published && h !in s.delivered;
      OnlyQos2One(h);
    } else {
      HandsNothing(s.b, s.toB[0]);
    }
  }

  lemma BReceivesAppends(s: System)
    requires s.connected && s.toB != []
    ensures Apply(s, BReceives).delivered == s.delivered + OnlyQos2(Handle(s.b, s.toB[0]).handed)
  {
    hide Handle;
  }

  lemma HandsNothing(c: ClientState, p: Packet)
    requires FitsB(p) && (p.Pubrel? ==> Handle(c, p).handed == [])
    ensures OnlyQos2(Handle(c, p).handed) == []
  {
    if p.Publish? { OnlyQos2One(Handover(p.qos, p.retain, p.publication)); }
  }

  // ---------------------------------------------------------------- a run in which it happens

  /** One exchange on a fresh session during which B dies once: the publication is handed over twice. */
  lemma CrashRepeats(topic: seq<byte>, payload: seq<byte>, retain: bool)
    requires Fits(topic, payload, 2)
    ensures var h := Handover(2, retain, Publication(topic, payload, 0));
      var s := Run([Reconnect(0), PublishNew(topic, payload, 2, retain)] + [BReceives] + [AReceives] +
                   [CrashInPubrel([Received(1)])] + [Reconnect(1)] + [BReceives]);
      s.delivered == [h] && s.interrupted == [h]
  {
    var p := Publish(1, 2, false, retain, Publication(topic, payload, 0));
    var m, h := CreateMessage(p), Handover(2, retain, p.publication);
    var a4 := [Reconnect(0), PublishNew(topic, payload, 2, retain)] + [BReceives] + [AReceives];
    var crash := CrashInPubrel([Received(1)]);
    hide Run, Apply, Fits, OnlyQos2, Stall.RunFrom;
    Stall.StoredAndReleased(topic, payload, retain);
    RunThreeMore(a4, crash, Reconnect(1), BReceives);
    HandedOverTwice(Run(a4), p, m);
  }

  lemma RunThreeMore(acts: seq<Action>, x: Action, y: Action, z: Action)
    ensures Run(acts + [x] + [y] + [z]) == Apply(Apply(Apply(Run(acts), x), y), z)
  {
    hide Apply, Run;
    Stall.RunOneMore(acts, x);
    Stall.RunOneMore(acts + [x], y);
    Stall.RunOneMore(acts + [x] + [y], z);
  }

  lemma HandedOverTwice(s: System, p: Packet, m: Message)
    requires p.Publish? && p.msgid == 1 && p.qos == 2 && m == CreateMessage(p) && s.connected
    requires s.a.outbound == [m.(next := AwaitPubcomp)] && s.toB == [Pubrel(1, false)] && s.delivered == []
        && s.interrupted == []
    requires s.b == ClientState([], [m.(next := AwaitPubrel)], 0, map[Received(1) := p])
    ensures var h := Handover(2, p.retain, p.publication);
      var s' := Apply(Apply(Apply(s, CrashInPubrel([Received(1)])), Reconnect(1)), BReceives);
      s'.delivered == [h] && s'.interrupted == [h]
  {
    hide Apply;
    DiesInHandOver(s, p, m);
    var s1 := Apply(s, CrashInPubrel([Received(1)]));
    ReleasedAgain(s1, m);
    Stall.HandedOver(Apply(s1, Reconnect(1)), p, m);
  }

  lemma DiesInHandOver(s: System, p: Packet, m: Message)
    requires p.Publish? && p.msgid == 1 && p.qos == 2 && m == CreateMessage(p)
    requires s.connected && s.b == ClientState([], [m.(next := AwaitPubrel)], 0, map[Received(1) := p])
    requires s.toB == [Pubrel(1, false)] && s.delivered == [] && s.interrupted == []
    ensures var s' := Apply(s, CrashInPubrel([Received(1)]));
      && s' == Cut(s).(b := s.b, interrupted := [Handover(2, p.retain, p.publication)])
  {
    var keys := [Received(1)];
    PubrelOutcome(s.b, m, 0, false);
    assert Handle(s.b, s.toB[0]) == HandlePubrel(s.b, 1, false);
    assert Received(1) in keys && ListsKeys(s.b.store, keys);
    hide Restore, Handle, HandlePubrel;
    RestoredInbound(p, m);
    CrashOutcome(s, keys);
    Assoc([], Handle(s.b, s.toB[0]).handed, []);
  }

  lemma CrashOutcome(s: System, keys: seq<Key>)
    requires s.connected && s.toB != [] && s.toB[0].Pubrel? && Handle(s.b, s.toB[0]).handed != []
        && ListsKeys(s.b.store, keys)
    ensures Apply(s, CrashInPubrel(keys)) ==
            Cut(s).(b := Restore(s.b.store, keys), interrupted := s.interrupted + Handle(s.b, s.toB[0]).handed)
  {
    hide Handle, Restore, ListsKeys;
  }

  lemma RestoredInbound(p: Packet, m: Message)
    requires p.Publish? && p.msgid == 1 && p.qos == 2 && m == CreateMessage(p)
    ensures Restore(map[Received(1) := p], [Received(1)]) ==
            ClientState([], [m.(next := AwaitPubrel)], 0, map[Received(1) := p])
  {
    var c := ClientState([], [], 0, map[Received(1) := p]);
    assert [Received(1)][..0] == [] && RestoreKeys(c, []) == c;
    assert RestoreKey(c, Received(1)).inbound == [m.(next := AwaitPubrel)];
    assert WrapMsgId([]) == [];
  }

  lemma ReleasedAgain(s: System, m: Message)
    requires !s.connected && s.toB == [] && s.a.outbound == [m.(next := AwaitPubcomp)] && m.msgid == 1 && m.qos == 2
    ensures var s' := Apply(s, Reconnect(1)); s' == s.(connected := true, toB := [Pubrel(1, false)], a := s'.a)
  {
    var l := s.a.outbound;
    assert l[..1] == l && l[..0] == [] && RetryPackets([]) == [] && RetryPackets(l) == RetryPacket(l[0]);
  }

  // ---------------------------------------------------------------- in order

  /** In every ordered run a hand-over cut short by a crash is of the next publication in order. */
  lemma InterruptedInOrder(acts: seq<Action>, keys: seq<Key>)
    requires OrderedRun(acts) && Possible(Run(acts), CrashInPubrel(keys))
    ensures var s := Run(acts);
      |s.delivered| < |s.published| && Handle(s.b, s.toB[0]).handed == [s.published[|s.delivered|]]
  {
    var s := Run(acts);
    var d, r := OrderedRunKeepsOrder(acts);
    RunKeepsInv(acts);
    CrashNeeds(s, keys);
    hide Run, OrderedRun, OrdInv, Inv, Handle, Possible;
    NextIsInterrupted(s, d, r);
  }

  lemma CrashNeeds(s: System, keys: seq<Key>)
    requires Possible(s, CrashInPubrel(keys))
    ensures s.connected && s.toB != [] && s.toB[0].Pubrel? && Handle(s.b, s.toB[0]).handed != []
  {
  }

  lemma NextIsInterrupted(s: System, d: nat, r: nat)
    requires Inv(s) && OrdInv(s, d, r) && s.connected && s.toB != [] && s.toB[0].Pubrel?
        && Handle(s.b, s.toB[0]).handed != []
    ensures |s.delivered| < |s.published| && Handle(s.b, s.toB[0]).handed == [s.published[|s.delivered|]]
  {
    RecordsDistinct(s);
    InvAccounting(s);
    HandsOverHasRecord(s.b, s.toB[0]);
    hide Inv, Find, HandlePubrel, OrdInv, Released, Accounting, DistinctIds, Handle;
    var m, i := PubrelReleases(s);
    PubrelOutcome(s.b, m, i, s.toB[0].dup);
    HeadTail(s.toB);
    PubrelIsNext(s, s.toB[1..], d, r, m);
    NextSerial(s, d, r, m);
  }

  lemma HandsOverHasRecord(c: ClientState, p: Packet)
    requires p.Pubrel? && Handle(c, p).handed != []
    ensures HasId(c.inbound, p.msgid) && Handle(c, p) == HandlePubrel(c, p.msgid, p.dup)
  {
    HasIdFind(c.inbound, p.msgid);
  }

  lemma NextSerial(s: System, d: nat, r: nat, m: Message)
    requires Accounting(s) && OrdInv(s, d, r) && d < r && Qos2Of(s.a.outbound)[d] == m && m in s.a.outbound
        && m.qos == 2
    ensures m.publication.serial == |s.delivered| < |s.published|
    ensures s.published[|s.delivered|] == Handover(2, m.retain, m.publication)
  {
  }
}
