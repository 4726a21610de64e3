/** That a QoS 1 publication can really be lost: a restarted sender counts its ids from 1 again, while a second copy
    of an earlier publication with id 1 is under way. */
module StaleIds {
  import opened Sequences
  import opened Bytes
  import opened MqttTypes
  import opened WirePackets
  import opened ClientHandlers
  import opened Session
  import opened StoreRecovery
  import opened ExactlyOnce
  import opened Stall
  import opened AtLeastOnce

  const ANY := PublishNew([], [], 1, false)

  /** Publication number `serial`, under id 1. */
  function Sent1(serial: nat): (p: Packet)
    ensures p.Publish?
  {
    Publish(1, 1, false, false, Publication([], [], serial))
  }

  const AGAIN := Publish(1, 1, true, false, Publication([], [], 0))

  /** The publication on record, and whether it has been written again. */
  function OnRecord(serial: nat, msgID: nat, dup: bool): ClientState {
    ClientState([CreateMessage(Sent1(serial))], [], msgID, map[Sent(1) := Sent1(serial).(dup := dup)])
  }

  lemma Accepts(s: System, serial: nat)
    requires s.connected && s.a == ClientState([], [], 0, map[]) && serial == |s.offered|
    ensures Apply(s, ANY) ==
      s.(a := OnRecord(serial, 1, false), toB := s.toB + [Sent1(serial)], offered := s.offered + [Sent1(serial)])
  {
    assert Ids([]) == {} && NthId(0, 1) == 1 && NextId(0, {}) == 1;
  }

  lemma Restarts(s: System)
    requires s.a == OnRecord(0, 1, false)
    ensures Apply(s, RestartA([Sent(1)])) == Cut(s).(a := OnRecord(0, 0, false))
  {
    var c, keys := ClientState([], [], 0, s.a.store), [Sent(1)];
    assert keys[..0] == [] && RestoreKeys(c, keys) == RestoreKey(c, Sent(1));
    var l := [CreateMessage(Sent1(0))];
    assert WrapPoint(IdSeq(l)) == 0 && RotateAt(l, 0) == l;
    assert keys[0] == Sent(1) && ListsKeys(s.a.store, keys);
  }

  lemma Reconnects(s: System)
    requires s.a == OnRecord(0, 0, false) && !s.connected
    ensures Apply(s, Reconnect(1)) == s.(connected := true, a := OnRecord(0, 0, true), toB := s.toB + [AGAIN])
  {
    hide Retries, Handle, Restore, Accept, OnRecord;
    RetryIs(false);
    assert s.a.outbound[..1] == s.a.outbound;
  }

  lemma Retried(s: System)
    requires s.a == OnRecord(0, 0, true) && s.connected
    ensures Apply(s, Retry([0])) == s.(a := OnRecord(0, 0, true), toB := s.toB + [AGAIN])
  {
    hide Retries, Handle, Restore, Accept, OnRecord;
    RetryIs(true);
    var l, ks: seq<nat> := s.a.outbound, [0];
    assert ks[..0] == [] && Chosen(l, ks) == l;
  }

  lemma RetryIs(dup: bool)
    ensures |OnRecord(0, 0, dup).outbound| == 1
    ensures var c := OnRecord(0, 0, dup); Retries(c, c.outbound) == Outcome(OnRecord(0, 0, true), [AGAIN], [])
  {
    var c := OnRecord(0, 0, dup);
    assert c.outbound[..0] == [] && RetryPackets(c.outbound) == [AGAIN];
    assert [AGAIN][..0] == [] && PersistAll(c.store, [AGAIN]) == map[Sent(1) := AGAIN];
  }

  /** B handles the copy in front and A its PUBACK, which takes the record with id 1 away, whose ever it is. */
  lemma CopyArrives(s: System, serial: nat, msgID: nat, dup: bool)
    requires s.connected && s.toB != [] && s.toB[0] == AGAIN && s.toA == [] && s.a == OnRecord(serial, msgID, dup)
    ensures Apply(Apply(s, BReceives), AReceives) ==
      s.(a := ClientState([], [], msgID, map[]), toB := s.toB[1..], lower := s.lower + [HandoverOf(Sent1(0))])
  {
    LowIsHandedOver(s);
    AReceivesIs(Apply(s, BReceives));
    hide Apply;
    assert s.a.store - {Sent(1)} == map[];
    Assoc(s.toB[1..], [], []);
  }

  /** The first publication is made, the sender restarts and writes it twice, and the first copy is handed over and
      acknowledged.  The list is empty then and the second copy under way. */
  function Before(): seq<Action> {
    [Reconnect(0)] + [ANY] + [RestartA([Sent(1)])] + [Reconnect(1)] + [Retry([0])] + [BReceives] + [AReceives]
  }

  /** The second publication, again under id 1: its record is taken away by the second copy's PUBACK, and a lost
      connection takes its packet. */
  function After(): seq<Action> {
    [ANY] + [BReceives] + [AReceives] + [Disconnect]
  }

  /** The run that loses a QoS 1 publication: accepted, never handed over, and neither on record nor under way. */
  lemma PublicationIsLost()
    ensures var s, s' := Run(Before()), RunFrom(Run(Before()), After());
      && s.connected && s.a == ClientState([], [], 0, map[]) && s.toB == [AGAIN] && !FreshId(s, 1)
      && s'.offered == [Sent1(0), Sent1(1)] && s'.lower == [HandoverOf(Sent1(0)), HandoverOf(Sent1(0))]
      && s'.a == ClientState([], [], 1, map[]) && s'.toB == [] && s'.toA == []
  {
    var s0 := INITIAL.(connected := true);
    NothingToRetry();
    RunSeven();
    RunFour(Run(Before()));
    hide Run, RunFrom, Apply, OnRecord;
    Accepts(s0, 0);
    var s1 := Apply(s0, ANY);
    Restarts(s1);
    Reconnects(Apply(s1, RestartA([Sent(1)])));
    var s2 := Apply(Apply(s1, RestartA([Sent(1)])), Reconnect(1));
    Retried(s2);
    CopyArrives(Apply(s2, Retry([0])), 0, 0, true);
    var s3 := Run(Before());
    Accepts(s3, 1);
    CopyArrives(Apply(s3, ANY), 1, 1, false);
    assert AGAIN in s3.toB;
    Cutting(Apply(Apply(Apply(s3, ANY), BReceives), AReceives));
  }

  lemma Cutting(s: System)
    ensures Apply(s, Disconnect) == Cut(s)
  {
  }

  lemma RunSeven()
    ensures Run(Before()) == Apply(Apply(Apply(Apply(Apply(Apply(Apply(INITIAL,
      Reconnect(0)), ANY), RestartA([Sent(1)])), Reconnect(1)), Retry([0])), BReceives), AReceives)
  {
    var a1 := [Reconnect(0)];
    var a2 := a1 + [ANY];
    var a3 := a2 + [RestartA([Sent(1)])];
    var a4 := a3 + [Reconnect(1)];
    var a5 := a4 + [Retry([0])];
    RunOneMore([], Reconnect(0));
    Assoc([], a1, []);
    RunOneMore(a1, ANY);
    RunOneMore(a2, RestartA([Sent(1)]));
    RunOneMore(a3, Reconnect(1));
    RunOneMore(a4, Retry([0]));
    RunOneMore(a5, BReceives);
    RunOneMore(a5 + [BReceives], AReceives);
    hide Run, Apply;
  }

  lemma RunFour(s: System)
    ensures RunFrom(s, After()) == Apply(Apply(Apply(Apply(s, ANY), BReceives), AReceives), Disconnect)
  {
    var b2 := [ANY] + [BReceives];
    RunFromConcat(s, [ANY], [BReceives]);
    RunFromConcat(s, b2, [AReceives]);
    RunFromConcat(s, b2 + [AReceives], [Disconnect]);
    OneStep(s, ANY);
    OneStep(Apply(s, ANY), BReceives);
    OneStep(Apply(Apply(s, ANY), BReceives), AReceives);
    OneStep(Apply(Apply(Apply(s, ANY), BReceives), AReceives), Disconnect);
    hide RunFrom, Apply;
  }

  lemma OneStep(s: System, act: Action)
    ensures RunFrom(s, [act]) == Apply(s, act)
  {
    assert [act][..0] == [] && RunFrom(s, []) == s;
  }
}
