/** QoS 0 and QoS 1 publications: what reaches the application, and when a QoS 1 publication is sure to. */
module AtLeastOnce {
  import opened Sequences
  import opened Bytes
  import opened MqttTypes
  import opened WirePackets
  import opened ClientHandlers
  import opened Session
  import opened StoreRecovery
  import opened ExactlyOnce
  import opened Stall

  predicate IsLow(p: Packet) {
    p.Publish? && p.qos < 2
  }

  predicate IsPub1(p: Packet, id: nat) {
    p.Publish? && p.qos == 1 && p.msgid == id
  }

  function HandoverOf(p: Packet): Handover
    requires p.Publish?
  {
    Handover(p.qos, p.retain, p.publication)
  }

  /** The packet is publication number `serial`, sent for the first time or again. */
  predicate IsOffered(s: System, p: Packet)
    requires p.Publish?
  {
    p.publication.serial < |s.offered| && s.offered[p.publication.serial] == p.(dup := false)
  }

  function FirstSent(m: Message): Packet {
    Publish(m.msgid, m.qos, false, m.retain, m.publication)
  }

  /** Some QoS 1 publication with this id has been handed over. */
  ghost predicate Acknowledgeable(s: System, id: nat) {
    exists k :: 0 <= k < |s.offered| && IsPub1(s.offered[k], id) && HandoverOf(s.offered[k]) in s.lower
  }

  predicate Numbered(ps: seq<Packet>) {
    forall k :: 0 <= k < |ps| ==> IsLow(ps[k]) && !ps[k].dup && ps[k].publication.serial == k
  }

  ghost predicate RecordsOffered(s: System) {
    forall m :: m in s.a.outbound && m.qos == 1 ==> IsOffered(s, FirstSent(m))
  }

  ghost predicate PacketsOffered(s: System) {
    forall p :: p in s.toB && IsLow(p) ==> IsOffered(s, p)
  }

  ghost predicate LowerOffered(s: System) {
    forall h :: h in s.lower ==>
      h.publication.serial < |s.offered| && IsLow(s.offered[h.publication.serial])
      && h == HandoverOf(s.offered[h.publication.serial])
  }

  ghost predicate AcksEarned(s: System) {
    forall p :: p in s.toA && p.Puback? ==> Acknowledgeable(s, p.msgid)
  }

  /** What the channels, the records and the application hold of QoS 0 and 1 was accepted; and every PUBACK under
      way is for a publication that has been handed over. */
  ghost predicate LowInv(s: System) {
    Numbered(s.offered) && RecordsOffered(s) && PacketsOffered(s) && LowerOffered(s) && AcksEarned(s)
  }

  // ---------------------------------------------------------------- steps that keep it

  /** Nothing is taken back, and what is new is as it should be. */
  ghost predicate Grows(s: System, s': System) {
    && s.offered <= s'.offered && Numbered(s'.offered)
    && (forall h :: h in s.lower ==> h in s'.lower)
    && (forall h :: h in s'.lower && h !in s.lower ==> exists p :: p in s.toB && IsLow(p) && h == HandoverOf(p))
    && (forall p :: p in s'.toB && IsLow(p) && p !in s.toB ==> IsOffered(s', p))
    && (forall m :: m in s'.a.outbound && m.qos == 1 && m !in s.a.outbound ==> IsOffered(s', FirstSent(m)))
    && (forall p :: p in s'.toA && p.Puback? && p !in s.toA ==> Acknowledgeable(s', p.msgid))
  }

  lemma StillOffered(s: System, s': System, p: Packet)
    requires s.offered <= s'.offered && p.Publish? && IsOffered(s, p)
    ensures IsOffered(s', p)
  {
    assert s'.offered[..|s.offered|] == s.offered;
  }

  lemma StillAcknowledgeable(s: System, s': System, id: nat)
    requires s.offered <= s'.offered && (forall h :: h in s.lower ==> h in s'.lower) && Acknowledgeable(s, id)
    ensures Acknowledgeable(s', id)
  {
    var k :| 0 <= k < |s.offered| && IsPub1(s.offered[k], id) && HandoverOf(s.offered[k]) in s.lower;
    assert s'.offered[k] == s.offered[k];
  }

  lemma GrowsKeeps(s: System, s': System)
    requires LowInv(s) && Grows(s, s')
    ensures LowInv(s')
  {
    forall m | m in s'.a.outbound && m.qos == 1 ensures IsOffered(s', FirstSent(m)) {
      if m in s.a.outbound { StillOffered(s, s', FirstSent(m)); }
    }
    forall p | p in s'.toB && IsLow(p) ensures IsOffered(s', p) {
      if p in s.toB { StillOffered(s, s', p); }
    }
    forall p | p in s'.toA && p.Puback? ensures Acknowledgeable(s', p.msgid) {
      if p in s.toA { StillAcknowledgeable(s, s', p.msgid); }
    }
    forall h | h in s'.lower
      ensures h.publication.serial < |s'.offered| && IsLow(s'.offered[h.publication.serial])
      ensures h == HandoverOf(s'.offered[h.publication.serial])
    {
      if h in s.lower {
        assert s'.offered[h.publication.serial] == s.offered[h.publication.serial];
      } else {
        var p :| p in s.toB && IsLow(p) && h == HandoverOf(p);
        StillOffered(s, s', p);
      }
    }
  }

  // ---------------------------------------------------------------- B

  lemma NotQos2One(h: Handover)
    ensures NotQos2([h]) == if h.qos == 2 then [] else [h]
  {
    assert [h][..0] == [] && NotQos2([]) == [];
  }

  /** A QoS 0 or QoS 1 PUBLISH is handed over as it is, and QoS 1 acknowledged. */
  lemma LowIsHandedOver(s: System)
    requires s.connected && s.toB != [] && IsLow(s.toB[0])
    ensures var p := s.toB[0];
      Apply(s, BReceives) ==
        s.(toB := s.toB[1..], lower := s.lower + [HandoverOf(p)],
           toA := s.toA + if p.qos == 1 then [Puback(p.msgid)] else [])
  {
    var p := s.toB[0];
    BReceivesIs(s);
    NotQos2One(HandoverOf(p));
    OnlyQos2One(HandoverOf(p));
    Assoc(s.delivered, [], []);
  }

  /** Nothing else that B receives concerns QoS 0 or QoS 1. */
  lemma OthersAtB(s: System)
    requires Inv(s) && s.connected && s.toB != [] && !IsLow(s.toB[0])
    ensures var s' := Apply(s, BReceives);
      && s'.lower == s.lower && s'.offered == s.offered && s'.a == s.a && s'.toB == s.toB[1..] && s'.connected
      && exists sent :: s'.toA == s.toA + sent && forall p :: p in sent ==> !p.Puback?
  {
    var p := s.toB[0];
    HeadFits(s);
    BReceivesIs(s);
    hide Inv, Apply;
    HandsNothingLow(s.b, p);
    Assoc(s.lower, [], []);
  }

  lemma HandsNothingLow(c: ClientState, p: Packet)
    requires FitsB(p) && !IsLow(p)
    ensures NotQos2(Handle(c, p).handed) == [] && forall x :: x in Handle(c, p).sent ==> !x.Puback?
  {
    if p.Pubrel? && Handle(c, p).handed != [] { NotQos2One(Handle(c, p).handed[0]); }
  }

  lemma BKeepsLow(s: System)
    requires Inv(s) && LowInv(s) && s.connected && s.toB != []
    ensures LowInv(Apply(s, BReceives))
  {
    var p, s' := s.toB[0], Apply(s, BReceives);
    if IsLow(p) {
      LowIsHandedOver(s);
      assert p in s.toB;
      hide Inv, Apply;
      if p.qos == 1 { NowAcknowledgeable(s, s', p); }
    } else {
      OthersAtB(s);
      hide Inv, Apply;
    }
    GrowsKeeps(s, s');
  }

  lemma NowAcknowledgeable(s: System, s': System, p: Packet)
    requires p.Publish? && p.qos == 1 && IsOffered(s, p) && s'.offered == s.offered
        && s'.lower == s.lower + [HandoverOf(p)]
    ensures Acknowledgeable(s', p.msgid)
  {
    assert IsPub1(s'.offered[p.publication.serial], p.msgid);
    assert s'.lower[|s.lower|] == HandoverOf(p);
  }

  // ---------------------------------------------------------------- A

  /** What A does with an acknowledgement: only a PUBACK takes a QoS 1 record away, its own. */
  lemma AckAtA(c: ClientState, p: Packet)
    requires DistinctIds(c.outbound) && FitsA(p)
    ensures var o := Handle(c, p);
      && (forall m: Message :: m.qos == 1 ==> (m in o.client.outbound <==> m in c.outbound && p != Puback(m.msgid)))
      && (forall x :: x in o.sent ==> !x.Publish?)
  {
    var i := Find(c.outbound, p.msgid);
    HasIdFind(c.outbound, p.msgid);
    if i < |c.outbound| {
      RemoveAtRecords(c.outbound, i);
      UpdateRecords(c.outbound, i, c.outbound[i].(next := AwaitPubcomp));
    }
    hide RemoveAt;
    forall m | m in c.outbound && m.msgid == p.msgid ensures i < |c.outbound| && m == c.outbound[i] {
      SameIdSameRecord(c.outbound, i, m);
    }
  }

  lemma AReceivesLow(s: System)
    requires Inv(s) && s.connected && s.toA != []
    ensures var s' := Apply(s, AReceives);
      && s'.lower == s.lower && s'.offered == s.offered && s'.toA == s.toA[1..] && s'.connected && s'.b == s.b
      && (forall m: Message :: m.qos == 1 ==>
            (m in s'.a.outbound <==> m in s.a.outbound && s.toA[0] != Puback(m.msgid)))
      && exists sent :: s'.toB == s.toB + sent && forall p :: p in sent ==> !p.Publish?
  {
    RecordsDistinct(s);
    AReceivesIs(s);
    hide Inv, Apply, Handle, DistinctIds, FitsA;
    AckAtA(s.a, s.toA[0]);
  }

  lemma AKeepsLow(s: System)
    requires Inv(s) && LowInv(s) && s.connected && s.toA != []
    ensures LowInv(Apply(s, AReceives))
  {
    AReceivesLow(s);
    hide Inv, Apply, Numbered;
    GrowsKeeps(s, Apply(s, AReceives));
  }

  /** A PUBLISH of QoS 0 or 1 in a retry pass is that of a QoS 1 record. */
  lemma {:induction false} RetryLow(l: seq<Message>, p: Packet)
    requires p in RetryPackets(l) && IsLow(p)
    ensures exists m :: m in l && m.qos == 1 && p == FirstSent(m).(dup := true)
  {
    var l', x := l[..|l| - 1], l[|l| - 1];
    assert l == l' + [x];
    if p in RetryPackets(l') {
      RetryLow(l', p);
    } else {
      assert p in RetryPacket(x);
    }
  }

  lemma RetryKeepsLow(s: System, s': System, l: seq<Message>)
    requires LowInv(s) && forall m :: m in l ==> m in s.a.outbound
    requires s'.toB == s.toB + RetryPackets(l) && s'.toA == s.toA && s'.a.outbound == s.a.outbound
    requires s'.lower == s.lower && s'.offered == s.offered
    ensures LowInv(s')
  {
    hide RetryPackets;
    forall p | p in s'.toB && IsLow(p) && p !in s.toB ensures IsOffered(s', p) {
      assert p in RetryPackets(l);
      RetryLow(l, p);
      var m :| m in l && m.qos == 1 && p == FirstSent(m).(dup := true);
      assert IsOffered(s, FirstSent(m));
    }
    GrowsKeeps(s, s');
  }

  lemma AcceptKeepsLow(s: System, s': System, p: Packet, id: nat)
    requires Inv(s) && LowInv(s) && Accepted(s, s', p, id) && !p.dup
    ensures LowInv(s')
  {
    AcceptedRecords(s, s', p, id);
    hide Inv, StartPublish, Ids;
    if p.qos < 2 {
      assert s'.offered[|s.offered|] == p;
      assert IsOffered(s', p);
    }
    GrowsKeeps(s, s');
  }

  lemma AcceptedRecords(s: System, s': System, p: Packet, id: nat)
    requires Accepted(s, s', p, id)
    ensures forall m :: m in s'.a.outbound <==> m in s.a.outbound || (p.qos > 0 && m == CreateMessage(p))
  {
  }

  lemma PublishIsAccepted(s: System, topic: seq<byte>, payload: seq<byte>, qos: nat, retain: bool) returns (p: Packet)
    requires Inv(s) && qos <= 2
    ensures var s' := Accept(s, topic, payload, qos, retain);
      s' != s ==> Accepted(s, s', p, p.msgid) && !p.dup && p.qos == qos
    ensures p == Publish(if qos == 0 then 0 else NextId(s.a.msgID, Ids(s.a.outbound)), qos, false, retain,
                         Publication(topic, payload, NextSerial(s, qos)))
  {
    NewIdUnused(s.a.msgID, Ids(s.a.outbound), 1);
    p := Publish(if qos == 0 then 0 else NextId(s.a.msgID, Ids(s.a.outbound)), qos, false, retain,
                 Publication(topic, payload, NextSerial(s, qos)));
  }

  /** Losses, disconnects, restarts and crashes: channels lose packets, and A's list is at most reordered, or loses
      a QoS 2 record. */
  lemma LossKeepsLow(s: System, s': System)
    requires LowInv(s) && s'.lower == s.lower && s'.offered == s.offered
    requires forall p :: p in s'.toB ==> p in s.toB
    requires forall p :: p in s'.toA ==> p in s.toA
    requires forall m :: m in s'.a.outbound && m.qos == 1 ==> m in s.a.outbound
    ensures LowInv(s')
  {
    GrowsKeeps(s, s');
  }

  lemma RestartKeepsLow(s: System, act: Action)
    requires Inv(s) && LowInv(s) && Possible(s, act)
    requires act.RestartA? || act.RestartB? || act.CrashInPubcomp? || act.CrashInPubrel?
    ensures LowInv(Apply(s, act))
  {
    RestartIs(s, act);
    hide Inv, Apply, Possible;
    LossKeepsLow(s, Apply(s, act));
  }

  /** After a restart of either side, or a crash, nothing is under way and A has its QoS 1 records. */
  lemma RestartIs(s: System, act: Action)
    requires Inv(s) && Possible(s, act) && (act.RestartA? || act.RestartB? || act.CrashInPubcomp? || act.CrashInPubrel?)
    ensures var s' := Apply(s, act);
      && s'.toA == [] && s'.toB == [] && s'.lower == s.lower && s'.offered == s.offered
      && forall m: Message :: m.qos == 1 ==> (m in s'.a.outbound <==> m in s.a.outbound)
  {
    match act
    case RestartA(keys) => RestoreRebuilds(s.a, {}, keys);
    case RestartB(_) =>
    case CrashInPubcomp(keys) => CrashKeepsLowRecords(s.a, s.toA[0].msgid, keys);
    case CrashInPubrel(_) =>
  }

  lemma CrashKeepsLowRecords(c: ClientState, id: nat, keys: seq<Key>)
    requires Recoverable(c) && Completes(c, id) && ListsKeys(RemoveKey(c.store, Sent(id)), keys)
    ensures forall m: Message :: m.qos == 1 ==>
      (m in Restore(RemoveKey(c.store, Sent(id)), keys).outbound <==> m in c.outbound)
  {
    CrashBetweenRemovals(c, id, keys);
    var i := Find(c.outbound, id);
    RemoveAtRecords(c.outbound, i);
    hide RemoveAt, Restore;
    forall m | m in c.outbound && m.msgid == id ensures m.qos == 2 { SameIdSameRecord(c.outbound, i, m); }
  }

  lemma ApplyKeepsLow(s: System, act: Action)
    requires Inv(s) && LowInv(s)
    ensures LowInv(Apply(s, act))
  {
    hide Inv, LowInv, Accept, Handle, Restore, HandlePubcomp, Accepted;
    if Possible(s, act) {
      match act
      case PublishNew(topic, payload, qos, retain) =>
        var p := PublishIsAccepted(s, topic, payload, qos, retain);
        if Accept(s, topic, payload, qos, retain) != s {
          AcceptKeepsLow(s, Accept(s, topic, payload, qos, retain), p, p.msgid);
        }
      case Retry(ks) => RetryKeepsLow(s, Apply(s, act), Chosen(s.a.outbound, ks));
      case BReceives => BKeepsLow(s);
      case AReceives => AKeepsLow(s);
      case Lose(_, _) => LossKeepsLow(s, Apply(s, act));
      case Disconnect => LossKeepsLow(s, Apply(s, act));
      case Reconnect(n) => RetryKeepsLow(s, Apply(s, act), s.a.outbound[..n]);
      case RestartA(_) => RestartKeepsLow(s, act);
      case RestartB(_) => RestartKeepsLow(s, act);
      case CrashInPubcomp(_) => RestartKeepsLow(s, act);
      case CrashInPubrel(_) => RestartKeepsLow(s, act);
    }
  }

  lemma InitialLow()
    ensures LowInv(INITIAL)
  {
  }

  lemma {:induction false} RunKeepsLow(acts: seq<Action>)
    ensures LowInv(Run(acts))
  {
    hide Inv, LowInv, Apply;
    if acts == [] {
      InitialLow();
    } else {
      RunKeepsLow(acts[..|acts| - 1]);
      RunKeepsInv(acts[..|acts| - 1]);
      ApplyKeepsLow(Run(acts[..|acts| - 1]), acts[|acts| - 1]);
    }
  }

  /** Over every run: whatever of QoS 0 and QoS 1 the application is handed was accepted, unchanged, and every
      PUBACK under way is for an accepted QoS 1 publication of its id that the application has been handed. */
  lemma {:induction false} AcknowledgedIsHandedOver(acts: seq<Action>)
    ensures var s := Run(acts);
      && (forall h :: h in s.lower ==> exists p :: p in s.offered && IsLow(p) && h == HandoverOf(p))
      && (forall id :: Puback(id) in s.toA ==>
            exists p :: p in s.offered && IsPub1(p, id) && HandoverOf(p) in s.lower)
  {
    var s := Run(acts);
    RunKeepsLow(acts);
    hide Run;
    forall h | h in s.lower ensures exists p :: p in s.offered && IsLow(p) && h == HandoverOf(p) {
      assert s.offered[h.publication.serial] in s.offered;
    }
    forall id | Puback(id) in s.toA ensures exists p :: p in s.offered && IsPub1(p, id) && HandoverOf(p) in s.lower {
      assert Acknowledgeable(s, id);
      var k :| 0 <= k < |s.offered| && IsPub1(s.offered[k], id) && HandoverOf(s.offered[k]) in s.lower;
      assert s.offered[k] in s.offered;
    }
  }

  // ---------------------------------------------------------------- one QoS 1 publication

  predicate HandedOn(s: System, k: nat)
    requires k < |s.offered| && s.offered[k].Publish?
  {
    HandoverOf(s.offered[k]) in s.lower
  }

  ghost predicate OnRecord1(s: System, k: nat)
    requires k < |s.offered|
  {
    exists m :: m in s.a.outbound && m.qos == 1 && FirstSent(m) == s.offered[k]
  }

  /** Nothing of another QoS 1 publication with this id is under way. */
  predicate NoneUnderWay(s: System, id: nat, k: nat) {
    Puback(id) !in s.toA && forall p :: p in s.toB && IsPub1(p, id) ==> p.publication.serial == k
  }

  ghost predicate Offered1(s: System, k: nat) {
    k < |s.offered| && s.offered[k].Publish? && s.offered[k].qos == 1
  }

  ghost predicate Waiting(s: System, k: nat)
    requires Offered1(s, k)
  {
    OnRecord1(s, k) && NoneUnderWay(s, s.offered[k].msgid, k)
  }

  ghost predicate Safe(s: System, k: nat) {
    Offered1(s, k) && (HandedOn(s, k) || Waiting(s, k))
  }

  lemma NothingForgotten(s: System, act: Action)
    ensures s.offered <= Apply(s, act).offered && forall h :: h in s.lower ==> h in Apply(s, act).lower
  {
    hide Handle, Restore, Retries, StartPublish;
  }

  lemma StillHanded(s: System, s': System, k: nat)
    requires Offered1(s, k) && HandedOn(s, k) && s.offered <= s'.offered && forall h :: h in s.lower ==> h in s'.lower
    ensures Safe(s', k)
  {
    assert s'.offered[k] == s.offered[k];
  }

  /** The record stays and nothing of its id comes under way that is not its own. */
  lemma StillWaiting(s: System, s': System, k: nat)
    requires Offered1(s, k) && Waiting(s, k) && s.offered <= s'.offered
    requires forall m :: m in s.a.outbound && m.qos == 1 && m.msgid == s.offered[k].msgid ==> m in s'.a.outbound
    requires Puback(s.offered[k].msgid) !in s'.toA
    requires forall p :: p in s'.toB && IsPub1(p, s.offered[k].msgid) ==> p in s.toB || p.publication.serial == k
    ensures Safe(s', k)
  {
    assert s'.offered[k] == s.offered[k];
    var m :| m in s.a.outbound && m.qos == 1 && FirstSent(m) == s.offered[k];
    assert m in s'.a.outbound;
  }

  lemma BKeepsSafe(s: System, k: nat)
    requires Inv(s) && LowInv(s) && Offered1(s, k) && Waiting(s, k) && s.connected && s.toB != []
    ensures Safe(Apply(s, BReceives), k)
  {
    var p, s' := s.toB[0], Apply(s, BReceives);
    if IsLow(p) {
      LowIsHandedOver(s);
      assert p in s.toB && IsOffered(s, p);
      hide Inv, Apply;
      if IsPub1(p, s.offered[k].msgid) {
        assert s'.lower[|s.lower|] == HandoverOf(s.offered[k]);
      } else {
        StillWaiting(s, s', k);
      }
    } else {
      OthersAtB(s);
      hide Inv, Apply;
      StillWaiting(s, s', k);
    }
  }

  lemma AKeepsSafe(s: System, k: nat)
    requires Inv(s) && LowInv(s) && Offered1(s, k) && Waiting(s, k) && s.connected && s.toA != []
    ensures Safe(Apply(s, AReceives), k)
  {
    AReceivesLow(s);
    hide Inv, Apply, LowInv;
    StillWaiting(s, Apply(s, AReceives), k);
  }

  lemma RetryKeepsSafe(s: System, s': System, l: seq<Message>, k: nat)
    requires Inv(s) && LowInv(s) && Offered1(s, k) && Waiting(s, k) && forall m :: m in l ==> m in s.a.outbound
    requires s'.toB == s.toB + RetryPackets(l) && s'.toA == s.toA && s'.a.outbound == s.a.outbound
        && s'.offered == s.offered
    ensures Safe(s', k)
  {
    RecordsDistinct(s);
    hide Inv, RetryPackets, DistinctIds;
    var id := s.offered[k].msgid;
    var m :| m in s.a.outbound && m.qos == 1 && FirstSent(m) == s.offered[k];
    forall p | p in s'.toB && IsPub1(p, id) && p !in s.toB ensures p.publication.serial == k || p in s.toB {
      assert p in RetryPackets(l);
      RetryLow(l, p);
      var x :| x in l && x.qos == 1 && p == FirstSent(x).(dup := true);
      SameRecord(s.a.outbound, x, m);
    }
    StillWaiting(s, s', k);
  }

  lemma SameRecord(l: seq<Message>, x: Message, m: Message)
    requires DistinctIds(l) && x in l && m in l && x.msgid == m.msgid
    ensures x == m
  {
    var i :| 0 <= i < |l| && l[i] == x;
    SameIdSameRecord(l, i, m);
  }

  lemma AcceptKeepsSafe(s: System, s': System, p: Packet, id: nat, k: nat)
    requires Inv(s) && Offered1(s, k) && Waiting(s, k) && Accepted(s, s', p, id)
    ensures Safe(s', k)
  {
    var m :| m in s.a.outbound && m.qos == 1 && FirstSent(m) == s.offered[k];
    assert m.msgid in Ids(s.a.outbound);
    assert forall x :: x in s.a.outbound ==> x in s'.a.outbound;
    hide Inv, StartPublish;
    StillWaiting(s, s', k);
  }

  lemma LossKeepsSafe(s: System, s': System, k: nat)
    requires Offered1(s, k) && Waiting(s, k) && s'.offered == s.offered
    requires forall p :: p in s'.toB ==> p in s.toB
    requires forall p :: p in s'.toA ==> p in s.toA
    requires forall m :: m in s.a.outbound && m.qos == 1 ==> m in s'.a.outbound
    ensures Safe(s', k)
  {
    StillWaiting(s, s', k);
  }

  lemma RestartKeepsSafe(s: System, act: Action, k: nat)
    requires Inv(s) && Offered1(s, k) && Waiting(s, k) && Possible(s, act)
    requires act.RestartA? || act.RestartB? || act.CrashInPubcomp? || act.CrashInPubrel?
    ensures Safe(Apply(s, act), k)
  {
    RestartIs(s, act);
    hide Inv, Apply, Possible;
    LossKeepsSafe(s, Apply(s, act), k);
  }

  lemma StepKeepsSafe(s: System, act: Action, k: nat)
    requires Inv(s) && LowInv(s) && Safe(s, k)
    ensures Safe(Apply(s, act), k)
  {
    hide Inv, LowInv, Accept, Handle, Restore, HandlePubcomp, Accepted, Waiting, HandedOn, Retries;
    if HandedOn(s, k) {
      NothingForgotten(s, act);
      StillHanded(s, Apply(s, act), k);
    } else if Possible(s, act) {
      match act
      case PublishNew(topic, payload, qos, retain) =>
        var p := PublishIsAccepted(s, topic, payload, qos, retain);
        if Accept(s, topic, payload, qos, retain) != s {
          AcceptKeepsSafe(s, Accept(s, topic, payload, qos, retain), p, p.msgid, k);
        }
      case Retry(ks) => RetryStepKeepsSafe(s, s, Chosen(s.a.outbound, ks), k);
      case BReceives => BKeepsSafe(s, k);
      case AReceives => AKeepsSafe(s, k);
      case Lose(_, _) => LossKeepsSafe(s, Apply(s, act), k);
      case Disconnect => LossKeepsSafe(s, Apply(s, act), k);
      case Reconnect(n) => RetryStepKeepsSafe(s, s.(connected := true), s.a.outbound[..n], k);
      case RestartA(_) => RestartKeepsSafe(s, act, k);
      case RestartB(_) => RestartKeepsSafe(s, act, k);
      case CrashInPubcomp(_) => RestartKeepsSafe(s, act, k);
      case CrashInPubrel(_) => RestartKeepsSafe(s, act, k);
    }
  }

  lemma RetryStepKeepsSafe(s: System, s0: System, l: seq<Message>, k: nat)
    requires Inv(s) && LowInv(s) && Offered1(s, k) && Waiting(s, k) && forall m :: m in l ==> m in s.a.outbound
    requires s0 == s || s0 == s.(connected := true)
    ensures Safe(ASends(s0, Retries(s.a, l)), k)
  {
    hide Inv, LowInv, Waiting, RetryPackets, PersistAll;
    RetryKeepsSafe(s, ASends(s0, Retries(s.a, l)), l, k);
  }

  /** The publication has been handed over or is still on record. */
  ghost predicate NotLost(s: System, k: nat) {
    Offered1(s, k) && (HandedOn(s, k) || OnRecord1(s, k))
  }

  lemma {:induction false} SafeForever(s: System, acts: seq<Action>, k: nat)
    requires Inv(s) && LowInv(s) && Safe(s, k)
    ensures Inv(RunFrom(s, acts)) && LowInv(RunFrom(s, acts)) && Safe(RunFrom(s, acts), k)
        && NotLost(RunFrom(s, acts), k)
  {
    hide Inv, LowInv, Apply, HandedOn;
    if acts != [] {
      var t, act := RunFrom(s, acts[..|acts| - 1]), acts[|acts| - 1];
      SafeForever(s, acts[..|acts| - 1], k);
      ApplyKeepsInv(t, act);
      ApplyKeepsLow(t, act);
      StepKeepsSafe(t, act, k);
    }
  }

  // ---------------------------------------------------------------- how it can be lost

  /** Publication k is on record under an id for which a PUBACK is under way, and B has not handed it over. */
  ghost predicate Doomed(s: System, k: nat) {
    && Inv(s) && s.connected && Offered1(s, k) && !HandedOn(s, k) && OnRecord1(s, k)
    && Puback(s.offered[k].msgid) in s.toA
  }

  /** A handles what is in front of the PUBACK, drops the record, and the connection is lost. */
  lemma {:induction false} AckTakesIt(s: System, k: nat) returns (acts: seq<Action>)
    requires Doomed(s, k) && LowInv(s)
    ensures !NotLost(RunFrom(s, acts), k)
    decreases |s.toA|
  {
    var p, s' := s.toA[0], Apply(s, AReceives);
    AReceivesLow(s);
    ApplyKeepsInv(s, AReceives);
    ApplyKeepsLow(s, AReceives);
    RecordsDistinct(s);
    hide Inv, LowInv, Apply, RunFrom, DistinctIds;
    if p == Puback(s.offered[k].msgid) {
      RecordTaken(s, s', k);
      acts := [];
      NoSteps(s');
    } else {
      RecordKept(s, s', k);
      assert Puback(s.offered[k].msgid) in s.toA[1..] by { HeadTail(s.toA); }
      acts := AckTakesIt(s', k);
    }
    RunFromFirst(s, AReceives, acts);
    acts := [AReceives] + acts;
  }

  lemma RecordTaken(s: System, s': System, k: nat)
    requires Offered1(s, k) && !HandedOn(s, k) && s'.lower == s.lower && s'.offered == s.offered
    requires forall m: Message :: m.qos == 1 && m in s'.a.outbound ==> m.msgid != s.offered[k].msgid
    ensures !NotLost(s', k)
  {
  }

  lemma RecordKept(s: System, s': System, k: nat)
    requires Offered1(s, k) && OnRecord1(s, k) && s'.offered == s.offered
    requires forall m: Message ::
        m.qos == 1 && m.msgid == s.offered[k].msgid && m in s.a.outbound ==> m in s'.a.outbound
    ensures OnRecord1(s', k)
  {
    var m :| m in s.a.outbound && m.qos == 1 && FirstSent(m) == s.offered[k];
    assert m in s'.a.outbound;
  }

  /** A PUBLISH of another QoS 1 publication with the same id is on its way to B, in front of publication k's. */
  ghost predicate StaleAhead(s: System, k: nat, i: nat) {
    && Offered1(s, k) && i < |s.toB| && IsPub1(s.toB[i], s.offered[k].msgid)
    && forall j :: 0 <= j <= i && IsLow(s.toB[j]) ==> s.toB[j].publication.serial != k
  }

  ghost predicate Trailing(s: System, k: nat, i: nat) {
    Inv(s) && LowInv(s) && s.connected && StaleAhead(s, k, i) && !HandedOn(s, k) && OnRecord1(s, k)
  }

  /** B handles it first, and its PUBACK dooms the record. */
  lemma {:induction false} StaleArrives(s: System, k: nat, i: nat) returns (acts: seq<Action>)
    requires Trailing(s, k, i)
    ensures !NotLost(RunFrom(s, acts), k)
    decreases i
  {
    var s' := Apply(s, BReceives);
    hide Trailing, Doomed, LowInv, Apply, RunFrom, NotLost;
    StaleStep(s, k, i);
    if i == 0 {
      acts := AckTakesIt(s', k);
    } else {
      acts := StaleArrives(s', k, i - 1);
    }
    RunFromFirst(s, BReceives, acts);
    acts := [BReceives] + acts;
  }

  /** What B's receiving step means for QoS 0 and QoS 1, whatever the packet. */
  lemma HeadAtB(s: System)
    requires Inv(s) && s.connected && s.toB != []
    ensures var s', p := Apply(s, BReceives), s.toB[0];
      && s'.offered == s.offered && s'.a == s.a && s'.toB == s.toB[1..] && s'.connected
      && s'.lower == (if IsLow(p) then s.lower + [HandoverOf(p)] else s.lower)
      && (p.Publish? && p.qos == 1 ==> Puback(p.msgid) in s'.toA)
  {
    if IsLow(s.toB[0]) { LowIsHandedOver(s); } else { OthersAtB(s); }
    hide Inv, Apply;
    if s.toB[0].Publish? && s.toB[0].qos == 1 { assert Apply(s, BReceives).toA[|s.toA|] == Puback(s.toB[0].msgid); }
  }

  lemma StaleStep(s: System, k: nat, i: nat)
    requires Trailing(s, k, i)
    ensures var s' := Apply(s, BReceives);
      LowInv(s') && if i == 0 then Doomed(s', k) else Trailing(s', k, i - 1)
  {
    ApplyKeepsInv(s, BReceives);
    ApplyKeepsLow(s, BReceives);
    HeadAtB(s);
    assert Numbered(s.offered);
    hide Inv, Apply, OnRecord1, LowInv, HandedOn, Numbered;
    StaleNext(s, Apply(s, BReceives), k, i);
  }

  lemma StaleNext(s: System, s': System, k: nat, i: nat)
    requires Numbered(s.offered) && StaleAhead(s, k, i) && !HandedOn(s, k) && OnRecord1(s, k)
    requires s'.offered == s.offered && s'.a == s.a && s'.toB == s.toB[1..]
    requires var p := s.toB[0]; s'.lower == (if IsLow(p) then s.lower + [HandoverOf(p)] else s.lower)
    ensures Offered1(s', k) && !HandedOn(s', k) && OnRecord1(s', k) && (i > 0 ==> StaleAhead(s', k, i - 1))
  {
    assert s.offered[k].publication.serial == k;
    hide OnRecord1;
    RecordUntouched(s, s', k);
    if i > 0 { StaleBehind(s, s', k, i); }
  }

  lemma StaleBehind(s: System, s': System, k: nat, i: nat)
    requires StaleAhead(s, k, i) && i > 0 && s'.toB == s.toB[1..] && s'.offered == s.offered
    ensures StaleAhead(s', k, i - 1)
  {
    assert forall j :: 0 <= j < |s'.toB| ==> s'.toB[j] == s.toB[j + 1];
  }

  lemma RecordUntouched(s: System, s': System, k: nat)
    requires Offered1(s, k) && OnRecord1(s, k) && s'.offered == s.offered && s'.a == s.a
    ensures OnRecord1(s', k)
  {
  }

  // ---------------------------------------------------------------- the theorems

  /** No packet of an earlier QoS 1 publication with this id is still under way. */
  predicate FreshId(s: System, id: nat) {
    Puback(id) !in s.toA && forall p :: p in s.toB ==> !IsPub1(p, id)
  }

  /** The state right after A has accepted a QoS 1 publication. */
  lemma JustAccepted(s: System, topic: seq<byte>, payload: seq<byte>, retain: bool)
    requires Inv(s) && LowInv(s) && s.connected && Fits(topic, payload, 1) && NextId(s.a.msgID, Ids(s.a.outbound)) != 0
    ensures var id, k, s' := NextId(s.a.msgID, Ids(s.a.outbound)), |s.offered|,
        Apply(s, PublishNew(topic, payload, 1, retain));
      var p := Publish(id, 1, false, retain, Publication(topic, payload, k));
      && s'.connected && s'.toB == s.toB + [p] && s'.toA == s.toA && s'.lower == s.lower
          && s'.offered == s.offered + [p]
      && Offered1(s', k) && s'.offered[k] == p && OnRecord1(s', k)
  {
    var k, act := |s.offered|, PublishNew(topic, payload, 1, retain);
    var p := PublishIsAccepted(s, topic, payload, 1, retain);
    var s' := Apply(s, act);
    assert Possible(s, act) && s' == Accept(s, topic, payload, 1, retain);
    assert s'.offered == s.offered + [p];
    assert s'.a.outbound[|s.a.outbound|] == CreateMessage(p) && FirstSent(CreateMessage(p)) == p;
  }

  /** A QoS 1 publication is, in every continuation, handed over or still on record, if and only if no packet of an
      earlier QoS 1 publication with its id is under way when it is accepted. */
  lemma SurelyHandedOver(s: System, topic: seq<byte>, payload: seq<byte>, retain: bool)
    requires Inv(s) && LowInv(s) && s.connected && Fits(topic, payload, 1) && NextId(s.a.msgID, Ids(s.a.outbound)) != 0
    ensures var s' := Apply(s, PublishNew(topic, payload, 1, retain));
      (forall acts :: NotLost(RunFrom(s', acts), |s.offered|)) <==> FreshId(s, NextId(s.a.msgID, Ids(s.a.outbound)))
  {
    var id, k, act := NextId(s.a.msgID, Ids(s.a.outbound)), |s.offered|, PublishNew(topic, payload, 1, retain);
    var s' := Apply(s, act);
    JustAccepted(s, topic, payload, retain);
    ApplyKeepsInv(s, act);
    ApplyKeepsLow(s, act);
    NotYetHanded(s, s');
    hide Inv, Apply, RunFrom, OnRecord1, NextId, Ids, Fits, NotLost, HandedOn;
    if FreshId(s, id) {
      FreshWaits(s, s', id);
      forall acts ensures NotLost(RunFrom(s', acts), k) { SafeForever(s', acts, k); }
    } else {
      var acts := CanBeLost(s, s', id);
      assert !NotLost(RunFrom(s', acts), k);
    }
  }

  lemma NotYetHanded(s: System, s': System)
    requires LowInv(s) && s'.lower == s.lower && Offered1(s', |s.offered|) && LowInv(s')
    ensures !HandedOn(s', |s.offered|)
  {
    assert s'.offered[|s.offered|].publication.serial == |s.offered|;
  }

  lemma FreshWaits(s: System, s': System, id: nat)
    requires FreshId(s, id) && Offered1(s', |s.offered|) && OnRecord1(s', |s.offered|)
        && s'.offered[|s.offered|].msgid == id
    requires s'.toA == s.toA && s'.toB == s.toB + [s'.offered[|s.offered|]] && LowInv(s')
    ensures Safe(s', |s.offered|)
  {
    hide OnRecord1;
  }

  lemma CanBeLost(s: System, s': System, id: nat) returns (acts: seq<Action>)
    requires LowInv(s) && !FreshId(s, id) && Inv(s') && LowInv(s') && s'.connected
    requires Offered1(s', |s.offered|) && OnRecord1(s', |s.offered|) && s'.offered[|s.offered|].msgid == id
    requires s'.toA == s.toA && s'.toB == s.toB + [s'.offered[|s.offered|]] && !HandedOn(s', |s.offered|)
    ensures !NotLost(RunFrom(s', acts), |s.offered|)
  {
    hide Inv, RunFrom, OnRecord1, NotLost, HandedOn;
    if Puback(id) in s.toA {
      acts := AckTakesIt(s', |s.offered|);
    } else {
      var p :| p in s.toB && IsPub1(p, id);
      var i :| 0 <= i < |s.toB| && s.toB[i] == p;
      forall j | 0 <= j <= i && IsLow(s'.toB[j]) ensures s'.toB[j].publication.serial != |s.offered| {
        assert s'.toB[j] == s.toB[j] && IsOffered(s, s.toB[j]);
      }
      acts := StaleArrives(s', |s.offered|, i);
    }
  }

  /** Every QoS 1 publication of the run takes a fresh id. */
  ghost predicate FreshRun(acts: seq<Action>) {
    acts != [] ==>
      var s, act := Run(acts[..|acts| - 1]), acts[|acts| - 1];
      && FreshRun(acts[..|acts| - 1])
      && (act.PublishNew? && act.qos == 1 ==> FreshId(s, NextIdOf(s)))
  }

  function NextIdOf(s: System): nat {
    if s.a.msgID <= MAX_MSG_ID then NextId(s.a.msgID, Ids(s.a.outbound)) else 0
  }

  /** In every run whose QoS 1 publications take fresh ids, each of them is at all times handed over or on record. */
  lemma {:induction false} AtLeastOnceDelivery(acts: seq<Action>, k: nat)
    requires FreshRun(acts) && Offered1(Run(acts), k)
    ensures NotLost(Run(acts), k)
  {
    EachIsSafe(acts, k);
  }

  lemma {:induction false} EachIsSafe(acts: seq<Action>, k: nat)
    requires FreshRun(acts) && Offered1(Run(acts), k)
    ensures Safe(Run(acts), k)
  {
    if acts != [] {
      var acts', act := acts[..|acts| - 1], acts[|acts| - 1];
      var s := Run(acts');
      RunKeepsInv(acts');
      RunKeepsLow(acts');
      hide Inv, LowInv, Apply, Safe, Run;
      if k < |s.offered| {
        NothingForgotten(s, act);
        assert Apply(s, act).offered[k] == s.offered[k];
        EachIsSafe(acts', k);
        StepKeepsSafe(s, act, k);
      } else {
        OneMoreOffered(s, act, k);
        JustAccepted(s, act.topic, act.payload, act.retain);
        ApplyKeepsLow(s, act);
        FreshWaits(s, Apply(s, act), NextIdOf(s));
      }
    }
  }

  /** Only the acceptance of a QoS 1 publication offers one. */
  lemma OneMoreOffered(s: System, act: Action, k: nat)
    requires Inv(s) && |s.offered| <= k && Offered1(Apply(s, act), k)
    ensures act.PublishNew? && act.qos == 1 && s.connected && Fits(act.topic, act.payload, 1) && k == |s.offered|
    ensures NextIdOf(s) == NextId(s.a.msgID, Ids(s.a.outbound)) != 0
  {
    hide Handle, Restore, Retries, StartPublish;
  }

  /** One QoS 1 publication on a fresh session: handed over, acknowledged and forgotten. */
  lemma OneQos1Exchange(topic: seq<byte>, payload: seq<byte>, retain: bool)
    requires Fits(topic, payload, 1)
    ensures var s := Run([Reconnect(0)] + [PublishNew(topic, payload, 1, retain)] + [BReceives] + [AReceives]);
      s.lower == [Handover(1, retain, Publication(topic, payload, 0))] && s.a.outbound == [] && s.a.store == map[]
  {
    var a1 := [Reconnect(0)];
    var p := Publish(1, 1, false, retain, Publication(topic, payload, 0));
    var act := PublishNew(topic, payload, 1, retain);
    RunOneMore([], Reconnect(0));
    Assoc([], a1, []);
    RunOneMore(a1, act);
    RunOneMore(a1 + [act], BReceives);
    RunOneMore(a1 + [act] + [BReceives], AReceives);
    NothingToRetry();
    hide Run;
    FirstQos1(p);
    var s := Apply(INITIAL.(connected := true), act);
    LowIsHandedOver(s);
    AcknowledgedQos1(Apply(s, BReceives), p);
  }

  lemma NothingToRetry()
    ensures Apply(INITIAL, Reconnect(0)) == INITIAL.(connected := true)
  {
    assert INITIAL.a.outbound[..0] == [] && RetryPackets([]) == [] && PersistAll(map[], []) == map[];
  }

  lemma FirstQos1(p: Packet)
    requires p.Publish? && p == Publish(1, 1, false, p.retain, p.publication) && p.publication.serial == 0
    requires Fits(p.publication.topic, p.publication.payload, 1)
    ensures Apply(INITIAL.(connected := true), PublishNew(p.publication.topic, p.publication.payload, 1, p.retain)) ==
      INITIAL.(connected := true, a := ClientState([CreateMessage(p)], [], 1, map[Sent(1) := p]), toB := [p],
          offered := [p])
  {
    assert Ids([]) == {} && NthId(0, 1) == 1 && NextId(0, {}) == 1;
  }

  lemma AcknowledgedQos1(s: System, p: Packet)
    requires p.Publish? && p == Publish(1, 1, false, p.retain, p.publication) && s.connected && s.toA == [Puback(1)]
    requires s.a == ClientState([CreateMessage(p)], [], 1, map[Sent(1) := p])
    ensures var s' := Apply(s, AReceives); s'.lower == s.lower && s'.a.outbound == [] && s'.a.store == map[]
  {
    AReceivesIs(s);
  }
}
