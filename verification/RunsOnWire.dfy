/** Every packet in a channel or a store of a run, as the bytes that are sent and stored. */
module RunsOnWire {
  import opened Sequences
  import opened Bytes
  import opened MqttTypes
  import opened WirePackets
  import opened ClientHandlers
  import opened Session
  import opened StoreRecovery
  import opened ExactlyOnce
  import Wire = MqttWire

  ghost predicate AllTravel(ps: seq<Packet>) {
    forall p :: p in ps ==> Travels(p)
  }

  ghost predicate StoreTravels(store: map<Key, Packet>) {
    forall k :: k in store ==> Travels(store[k])
  }

  /** Whatever a retry writes for the record travels. */
  predicate RecordTravels(m: Message) {
    m.msgid <= MAX_MSG_ID && m.qos <= 2 && (m.qos == 0 ==> m.msgid == 0)
        && Fits(m.publication.topic, m.publication.payload, m.qos)
  }

  ghost predicate RecordsTravel(l: seq<Message>) {
    forall m :: m in l ==> RecordTravels(m)
  }

  ghost predicate ClientTravels(c: ClientState) {
    StoreTravels(c.store) && RecordsTravel(c.outbound)
  }

  ghost predicate OutcomeTravels(o: Outcome) {
    ClientTravels(o.client) && AllTravel(o.sent)
  }

  ghost predicate TravelInv(s: System) {
    AllTravel(s.toB) && AllTravel(s.toA) && ClientTravels(s.a) && ClientTravels(s.b)
  }

  // ---------------------------------------------------------------- handlers

  lemma PersistTravels(store: map<Key, Packet>, p: Packet)
    requires StoreTravels(store) && Travels(p)
    ensures StoreTravels(Persist(store, p))
  {
    hide Travels;
  }

  lemma RemovedTravels(store: map<Key, Packet>, k: Key)
    requires StoreTravels(store)
    ensures StoreTravels(RemoveKey(store, k))
  {
  }

  lemma HandleTravels(c: ClientState, p: Packet)
    requires ClientTravels(c) && Travels(p)
    ensures OutcomeTravels(Handle(c, p))
  {
    match p
    case Publish(_, _, _, _, _) => PublishTravels(c, p);
    case Puback(id) => PubackTravels(c, id);
    case Pubrec(id) => PubrecTravels(c, id);
    case Pubrel(id, dup) => PubrelTravels(c, id, dup);
    case Pubcomp(id) => PubcompTravels(c, id);
  }

  lemma PublishTravels(c: ClientState, p: Packet)
    requires ClientTravels(c) && Travels(p) && p.Publish?
    ensures OutcomeTravels(HandlePublish(c, p))
  {
    assert p.qos > 0 ==> Travels(Puback(p.msgid)) && Travels(Pubrec(p.msgid));
    hide Travels, RecordTravels;
  }

  lemma PubackTravels(c: ClientState, id: nat)
    requires ClientTravels(c)
    ensures OutcomeTravels(HandlePuback(c, id))
  {
    hide Travels, RecordTravels;
  }

  lemma PubrecTravels(c: ClientState, id: nat)
    requires ClientTravels(c) && id <= MAX_MSG_ID
    ensures OutcomeTravels(HandlePubrec(c, id))
  {
    var rel, i := Pubrel(id, false), Find(c.outbound, id);
    assert Travels(rel);
    if i < |c.outbound| {
      assert RecordTravels(c.outbound[i]) && RecordTravels(c.outbound[i].(next := AwaitPubcomp));
    }
    hide Travels, RecordTravels;
  }

  lemma PubrelTravels(c: ClientState, id: nat, dup: bool)
    requires ClientTravels(c) && id <= MAX_MSG_ID
    ensures OutcomeTravels(HandlePubrel(c, id, dup))
  {
    assert Travels(Pubcomp(id));
    hide Travels, RecordTravels;
  }

  lemma PubcompTravels(c: ClientState, id: nat)
    requires ClientTravels(c)
    ensures OutcomeTravels(HandlePubcomp(c, id))
  {
    hide Travels, RecordTravels;
  }

  lemma StartTravels(c: ClientState, p: Packet)
    requires ClientTravels(c) && Travels(p) && p.Publish?
    ensures OutcomeTravels(StartPublish(c, p))
  {
    assert RecordTravels(CreateMessage(p));
    PersistTravels(c.store, p);
    hide Travels, RecordTravels, Persist;
  }

  lemma {:induction false} RetriesTravel(c: ClientState, l: seq<Message>)
    requires ClientTravels(c) && RecordsTravel(l)
    ensures OutcomeTravels(Retries(c, l))
  {
    if l != [] {
      var l', x := l[..|l| - 1], l[|l| - 1];
      assert x in l && forall m :: m in l' ==> m in l;
      RetriesTravel(c, l');
      RetryTravels(x);
      RetryStores(Retries(c, l').client.store, RetryPacket(x));
      PersistAllAppend(c.store, RetryPackets(l'), RetryPacket(x));
      hide Travels, RecordTravels, RetryPacket, PersistAll;
    }
  }

  lemma RetryTravels(m: Message)
    requires RecordTravels(m)
    ensures AllTravel(RetryPacket(m)) && |RetryPacket(m)| <= 1
  {
  }

  lemma RetryStores(store: map<Key, Packet>, ps: seq<Packet>)
    requires StoreTravels(store) && AllTravel(ps) && |ps| <= 1
    ensures StoreTravels(PersistAll(store, ps))
  {
    hide Travels;
    if ps != [] {
      assert ps[..0] == [] && PersistAll(store, []) == store && ps[0] in ps;
      PersistTravels(store, ps[0]);
    }
  }

  // ---------------------------------------------------------------- restart

  lemma {:induction false} RestoreOnlyRemoves(c: ClientState, keys: seq<Key>)
    requires StoreTravels(c.store)
    ensures StoreTravels(RestoreKeys(c, keys).store)
  {
    if keys != [] {
      RestoreOnlyRemoves(c, keys[..|keys| - 1]);
      hide Travels;
    }
  }

  lemma RestoredTravels(c: ClientState, orphans: set<nat>, keys: seq<Key>)
    requires GoodRecords(c) && StoreHolds(c, orphans) && ListsKeys(c.store, keys) && ClientTravels(c)
    ensures ClientTravels(Restore(c.store, keys))
  {
    RestoreOnlyRemoves(ClientState([], [], 0, c.store), keys);
    assert Restore(c.store, keys).store == RestoreKeys(ClientState([], [], 0, c.store), keys).store;
    hide Travels, RecordTravels, Restore, RestoreKeys;
    RestoreRebuilds(c, orphans, keys);
  }

  // ---------------------------------------------------------------- one step

  lemma AcceptTravels(s: System, topic: seq<byte>, payload: seq<byte>, qos: nat, retain: bool)
    requires Inv(s) && TravelInv(s) && qos <= 2 && Fits(topic, payload, qos)
    ensures TravelInv(Accept(s, topic, payload, qos, retain))
  {
    NewIdUnused(s.a.msgID, Ids(s.a.outbound), 1);
    var id := if qos == 0 then 0 else NextId(s.a.msgID, Ids(s.a.outbound));
    var p := Publish(id, qos, false, retain, Publication(topic, payload, NextSerial(s, qos)));
    if qos == 0 || id != 0 {
      StartTravels(s.a.(msgID := if qos == 0 then s.a.msgID else id), p);
      assert Travels(p);
    }
    hide Travels, RecordTravels, Inv, StartPublish;
  }

  lemma ASendsTravels(s: System, s0: System, o: Outcome)
    requires TravelInv(s) && OutcomeTravels(o) && s0.b == s.b && s0.toB == s.toB && AllTravel(s0.toA)
    ensures TravelInv(ASends(s0, o))
  {
    hide Travels, RecordTravels;
  }

  lemma BReceivesTravels(s: System)
    requires Inv(s) && TravelInv(s) && s.toB != []
    ensures TravelInv(BSends(DropB(s), Handle(s.b, s.toB[0])))
  {
    hide Travels, RecordTravels, Inv, Handle;
    HandleTravels(s.b, s.toB[0]);
  }

  lemma AReceivesTravels(s: System)
    requires Inv(s) && TravelInv(s) && s.toA != []
    ensures TravelInv(ASends(DropA(s), Handle(s.a, s.toA[0])))
  {
    hide Travels, RecordTravels, Inv, Handle;
    HandleTravels(s.a, s.toA[0]);
    ASendsTravels(s, DropA(s), Handle(s.a, s.toA[0]));
  }

  lemma RetryStepTravels(s: System, s0: System, l: seq<Message>)
    requires TravelInv(s) && (s0 == s || s0 == s.(connected := true)) && forall m :: m in l ==> m in s.a.outbound
    ensures TravelInv(ASends(s0, Retries(s.a, l)))
  {
    hide Travels, RecordTravels, Retries;
    RetriesTravel(s.a, l);
    ASendsTravels(s, s0, Retries(s.a, l));
  }

  lemma LoseTravels(s: System, towardsB: bool, k: nat)
    requires TravelInv(s) && Possible(s, Lose(towardsB, k))
    ensures TravelInv(Apply(s, Lose(towardsB, k)))
  {
    hide Travels, RecordTravels;
  }

  lemma CutTravels(s: System, s': System, a: ClientState, b: ClientState)
    requires TravelInv(s) && s' == Cut(s).(a := a, b := b, interrupted := s'.interrupted) && ClientTravels(a)
        && ClientTravels(b)
    ensures TravelInv(s')
  {
  }

  lemma RestartTravels(s: System, act: Action)
    requires Inv(s) && TravelInv(s) && Possible(s, act) && (act.RestartA? || act.RestartB? || act.CrashInPubrel?)
    ensures TravelInv(Apply(s, act))
  {
    assert Recoverable(s.a) && Recoverable(s.b);
    if act.RestartA? { RestoredTravels(s.a, {}, act.keys); } else { RestoredTravels(s.b, {}, act.keys); }
    hide Travels, RecordTravels, Inv, Restore, Handle, ListsKeys;
    CutTravels(s, Apply(s, act), Apply(s, act).a, Apply(s, act).b);
  }

  lemma CrashTravels(s: System, keys: seq<Key>)
    requires Inv(s) && TravelInv(s) && Possible(s, CrashInPubcomp(keys))
    ensures TravelInv(Apply(s, CrashInPubcomp(keys)))
  {
    var id, act := s.toA[0].msgid, CrashInPubcomp(keys);
    assert Recoverable(s.a) && Completes(s.a, id);
    PubcompTravels(s.a, id);
    RemovedTravels(s.a.store, Sent(id));
    hide Travels, RecordTravels, Inv, Restore, Handle, ListsKeys, Completes, GoodRecords, StoreHolds, HandlePubcomp;
    HalfRemovedHolds(s.a, id);
    RestoredTravels(HalfRemoved(s.a, id), {id}, keys);
    CutTravels(s, Apply(s, act), Apply(s, act).a, s.b);
  }

  lemma ApplyTravels(s: System, act: Action)
    requires Inv(s) && TravelInv(s)
    ensures TravelInv(Apply(s, act))
  {
    hide Inv, TravelInv, Accept, Handle, Restore, Retries, HandlePubcomp;
    if Possible(s, act) {
      match act
      case PublishNew(topic, payload, qos, retain) => AcceptTravels(s, topic, payload, qos, retain);
      case Retry(ks) => RetryStepTravels(s, s, Chosen(s.a.outbound, ks));
      case BReceives => BReceivesTravels(s);
      case AReceives => AReceivesTravels(s);
      case Lose(towardsB, k) => LoseTravels(s, towardsB, k);
      case Disconnect => DisconnectTravels(s);
      case Reconnect(n) => RetryStepTravels(s, s.(connected := true), s.a.outbound[..n]);
      case RestartA(_) => RestartTravels(s, act);
      case RestartB(_) => RestartTravels(s, act);
      case CrashInPubcomp(keys) => CrashTravels(s, keys);
      case CrashInPubrel(_) => RestartTravels(s, act);
    }
  }

  lemma DisconnectTravels(s: System)
    requires TravelInv(s)
    ensures TravelInv(Cut(s))
  {
    CutTravels(s, Cut(s), s.a, s.b);
  }

  // ---------------------------------------------------------------- every run

  lemma {:induction false} RunTravels(acts: seq<Action>)
    ensures TravelInv(Run(acts))
  {
    if acts != [] {
      hide Inv, TravelInv, Apply;
      RunTravels(acts[..|acts| - 1]);
      RunKeepsInv(acts[..|acts| - 1]);
      ApplyTravels(Run(acts[..|acts| - 1]), acts[|acts| - 1]);
    } else {
      NothingTravels();
    }
  }

  lemma NothingTravels()
    ensures TravelInv(INITIAL)
  {
  }

  /** Over every run each packet under way is read back from its bytes as the same packet, whatever comes behind
      it, and each packet in a store is restored from its bytes as the same packet. */
  lemma PacketsSurvive(acts: seq<Action>)
    ensures var s := Run(acts);
      && (forall p :: p in s.toA || p in s.toB ==> Arrives(p))
      && (forall k :: k in s.a.store ==> Restored(s.a.store[k]))
      && (forall k :: k in s.b.store ==> Restored(s.b.store[k]))
  {
    var s := Run(acts);
    RunTravels(acts);
    hide Run, Travels, RecordsTravel, Restored, Arrives;
    forall p | p in s.toA || p in s.toB ensures Arrives(p) { ArrivesAsBytes(p); }
    forall k | k in s.a.store ensures Restored(s.a.store[k]) { RestoredAsBytes(s.a.store[k]); }
    forall k | k in s.b.store ensures Restored(s.b.store[k]) { RestoredAsBytes(s.b.store[k]); }
  }

  predicate Restored(p: Packet) {
    Wire.Sendable(OnWire(p)) && Wire.RestorePacket(Wire.PacketBytes(OnWire(p))) == Wire.Parsed(OnWire(p))
  }

  ghost predicate Arrives(p: Packet) {
    Wire.Sendable(OnWire(p)) && forall rest :: ReadBack(p, rest)
  }

  lemma ArrivesAsBytes(p: Packet)
    requires Travels(p)
    ensures Arrives(p)
  {
    assert Wire.Sendable(OnWire(p));
    hide ReadBack, Travels;
    forall rest ensures ReadBack(p, rest) { TravelsOnWire(p, rest); }
  }

  lemma RestoredAsBytes(p: Packet)
    requires Travels(p)
    ensures Restored(p)
  {
    TravelsInStore(p);
  }

  // ---------------------------------------------------------------- what a long topic does

  /** A QoS 2 publication with a topic of more than 65535 bytes reaches the receiver as another one, which nobody
      published, under an id made of two of its topic's bytes; a PUBREL for that id hands it over. */
  lemma LongTopicIsMisread(p: Packet)
    requires p.Publish? && p.qos == 2 && Wire.Sendable(OnWire(p)) && |p.publication.topic| > MAX_TOPIC
    ensures var read := Wire.Misread(OnWire(p));
      && Wire.ReadPacket(Wire.Header(OnWire(p)), Wire.Body(OnWire(p))) == Wire.Parsed(read)
      && read.topic != p.publication.topic
      && var q := FromWire(read, p.publication.serial);
         var c := HandlePublish(EMPTY_CLIENT, q).client;
         HandlePubrel(c, q.msgid, false).handed == [Handover(2, p.retain, q.publication)]
  {
    hide Wire.ReadPacket, Wire.Body, Wire.Header, Wire.ReadInt, Wire.WriteInt;
    Wire.LongTopic(OnWire(p));
    var q := FromWire(Wire.Misread(OnWire(p)), p.publication.serial);
    var r := Message(q.msgid, 2, q.retain, q.publication, AwaitPubrel);
    assert HandlePublish(EMPTY_CLIENT, q).client.inbound == [r];
  }
}
