/** Exactly-once delivery of QoS 2 publications (section 4.3.3 of MQTT Version 3.1.1) over every run of
    the session: retries, lost packets, disconnects, id reuse, restarts between two handlers, and crashes inside
    the PUBCOMP handler and inside the PUBREL handler.  `HandOvers` counts the hand-overs that a crash cut short. */
module ExactlyOnce {
  import opened Sequences
  import opened Bytes
  import opened MqttTypes
  import opened ClientHandlers
  import opened Session
  import opened StoreRecovery

  predicate IsPub2(p: Packet, id: nat) { p.Publish? && p.qos == 2 && p.msgid == id }
  predicate IsRec(p: Packet, id: nat) { p.Pubrec? && p.msgid == id }
  predicate IsRel(p: Packet, id: nat) { p.Pubrel? && p.msgid == id }
  predicate IsComp(p: Packet, id: nat) { p.Pubcomp? && p.msgid == id }

  ghost predicate NoPub2(ch: seq<Packet>, id: nat) { forall i :: 0 <= i < |ch| ==> !IsPub2(ch[i], id) }
  ghost predicate NoRec(ch: seq<Packet>, id: nat) { forall i :: 0 <= i < |ch| ==> !IsRec(ch[i], id) }
  ghost predicate NoRel(ch: seq<Packet>, id: nat) { forall i :: 0 <= i < |ch| ==> !IsRel(ch[i], id) }
  ghost predicate NoComp(ch: seq<Packet>, id: nat) { forall i :: 0 <= i < |ch| ==> !IsComp(ch[i], id) }

  ghost predicate NoRelAfterPub(ch: seq<Packet>, id: nat) {
    forall i, j :: 0 <= i < j < |ch| && IsPub2(ch[i], id) ==> !IsRel(ch[j], id)
  }
  ghost predicate NoPubAfterRel(ch: seq<Packet>, id: nat) {
    forall i, j :: 0 <= i < j < |ch| && IsRel(ch[i], id) ==> !IsPub2(ch[j], id)
  }
  ghost predicate CompIsLast(ch: seq<Packet>, id: nat) {
    forall i, j :: 0 <= i < j < |ch| && IsComp(ch[i], id) ==> !IsRec(ch[j], id) && !IsComp(ch[j], id)
  }
  ghost predicate PubsCarry(ch: seq<Packet>, m: Message) {
    forall i :: 0 <= i < |ch| && IsPub2(ch[i], m.msgid) ==>
        ch[i].retain == m.retain && ch[i].publication == m.publication
  }

  ghost predicate HeldAsIn(l: seq<Message>, m: Message) {
    forall r :: r in l && r.msgid == m.msgid ==> r.retain == m.retain && r.publication == m.publication
  }

  ghost predicate IsDelivered(log: seq<Handover>, serial: nat) {
    exists i :: 0 <= i < |log| && log[i].publication.serial == serial
  }

  // ---------------------------------------------------------------- the invariant

  /** No QoS 2 exchange is open on this id: nothing of an earlier one is left to disturb the next. */
  ghost predicate Idle(s: System, id: nat) {
    !HasId(s.b.inbound, id) && NoPub2(s.toB, id) && NoRec(s.toA, id) && NoComp(s.toA, id)
  }

  /** The sender still waits for PUBREC.  A PUBREL left over from an earlier use of the id can only be
      ahead of the first PUBLISH, so it meets no record. */
  ghost predicate Offered(s: System, m: Message) {
    && !IsDelivered(s.delivered, m.publication.serial)
    && HeldAsIn(s.b.inbound, m) && PubsCarry(s.toB, m)
    && NoComp(s.toA, m.msgid) && NoRelAfterPub(s.toB, m.msgid)
    && (if HasId(s.b.inbound, m.msgid) then NoRel(s.toB, m.msgid) else NoRec(s.toA, m.msgid))
  }

  /** PUBREL is sent and B still holds the publication. */
  ghost predicate Released(s: System, m: Message) {
    && !IsDelivered(s.delivered, m.publication.serial)
    && HasId(s.b.inbound, m.msgid) && HeldAsIn(s.b.inbound, m) && PubsCarry(s.toB, m)
    && NoComp(s.toA, m.msgid) && NoPubAfterRel(s.toB, m.msgid)
  }

  /** B has handed the publication over and forgotten it. */
  ghost predicate Finished(s: System, m: Message) {
    && IsDelivered(s.delivered, m.publication.serial)
    && !HasId(s.b.inbound, m.msgid) && NoPub2(s.toB, m.msgid) && CompIsLast(s.toA, m.msgid)
  }

  ghost predicate OpenExchange(s: System, m: Message) {
    if m.next == AwaitPubrec then Offered(s, m) else Released(s, m) || Finished(s, m)
  }

  ghost predicate HasOpen(l: seq<Message>, id: nat) {
    exists m :: m in l && m.qos == 2 && m.msgid == id
  }

  predicate FitsB(p: Packet) {
    (p.Publish? && p.qos <= 2) || (p.Pubrel? && !p.dup)
  }

  predicate FitsA(p: Packet) {
    p.Puback? || p.Pubrec? || p.Pubcomp?
  }

  ghost predicate ChannelTypes(s: System) {
    (forall i :: 0 <= i < |s.toB| ==> FitsB(s.toB[i])) && (forall i :: 0 <= i < |s.toA| ==> FitsA(s.toA[i]))
  }

  ghost predicate ClientsGood(s: System) {
    && Recoverable(s.a) && Recoverable(s.b) && s.a.inbound == [] && s.b.outbound == []
    && s.a.msgID <= MAX_MSG_ID && (forall m :: m in s.a.outbound ==> 1 <= m.msgid <= MAX_MSG_ID)
  }

  /** Serial numbers: position in the publication log; one open record per number; nothing is lost. */
  ghost predicate Accounting(s: System) {
    && (forall k :: 0 <= k < |s.published| ==> s.published[k].qos == 2 && s.published[k].publication.serial == k)
    && (forall i :: 0 <= i < |s.delivered| ==>
          s.delivered[i].publication.serial < |s.published|
              && s.delivered[i] == s.published[s.delivered[i].publication.serial])
    && (forall i, j :: 0 <= i < j < |s.delivered| ==>
          s.delivered[i].publication.serial != s.delivered[j].publication.serial)
    && (forall m :: m in s.a.outbound && m.qos == 2 ==>
          m.publication.serial < |s.published|
          && s.published[m.publication.serial] == Handover(2, m.retain, m.publication))
    && (forall m, m' :: m in s.a.outbound && m' in s.a.outbound && m.qos == 2 && m'.qos == 2 ==>
          m.publication.serial == m'.publication.serial ==> m == m')
    && (forall k :: 0 <= k < |s.published| ==> IsDelivered(s.delivered, k) || HasSerial(s.a.outbound, k))
  }

  ghost predicate HasSerial(l: seq<Message>, k: nat) {
    exists m :: m in l && m.qos == 2 && m.publication.serial == k
  }

  ghost predicate Exchanges(s: System) {
    && (forall m :: m in s.a.outbound && m.qos == 2 ==> OpenExchange(s, m))
    && (forall id :: !HasOpen(s.a.outbound, id) ==> Idle(s, id))
  }

  ghost predicate Inv(s: System) {
    ChannelTypes(s) && ClientsGood(s) && Accounting(s) && Exchanges(s)
  }

  /** The invariant does not speak of interrupted hand-overs. */
  lemma InterruptedKeepsInv(s: System, s': System)
    requires Inv(s) && s' == s.(interrupted := s'.interrupted)
    ensures Inv(s')
  {
    hide Exchanges, Accounting, Recoverable;
    AccountingFrame(s, s');
    ExchangesFrame(s, s');
  }

  lemma ExchangesFrame(s: System, s': System)
    requires Exchanges(s) && s' == s.(interrupted := s'.interrupted)
    ensures Exchanges(s')
  {
    forall m | m in s'.a.outbound && m.qos == 2 ensures OpenExchange(s', m) { assert OpenExchange(s, m); }
    forall id | !HasOpen(s'.a.outbound, id) ensures Idle(s', id) { assert Idle(s, id); }
  }

  lemma RecordsDistinct(s: System)
    requires Inv(s)
    ensures DistinctIds(s.a.outbound) && forall i :: 0 <= i < |s.toA| ==> FitsA(s.toA[i])
  {
  }

  lemma ExchangeOf(s: System, m: Message)
    requires Inv(s) && m in s.a.outbound && m.qos == 2
    ensures OpenExchange(s, m) && (m.next == AwaitPubrec || m.next == AwaitPubcomp)
  {
  }

  // ---------------------------------------------------------------- channels only lose, or A's list only reorders

  /** Packets of `ch'` are packets of `ch` in the same order. */
  ghost predicate Thinned(ch: seq<Packet>, ch': seq<Packet>, f: seq<nat>) {
    && |f| == |ch'|
    && (forall i :: 0 <= i < |f| ==> f[i] < |ch| && ch'[i] == ch[f[i]])
    && (forall i, j :: 0 <= i < j < |f| ==> f[i] < f[j])
  }

  /** Losing packets and reordering the lists (a restart) disturb nothing. */
  lemma LosingKeepsInv(s: System, s': System, fB: seq<nat>, fA: seq<nat>)
    requires Inv(s) && ClientsGood(s')
    requires Thinned(s.toB, s'.toB, fB) && Thinned(s.toA, s'.toA, fA)
    requires SameRecords(s.a.outbound, s'.a.outbound) && SameRecords(s.b.inbound, s'.b.inbound)
    requires s'.published == s.published && s'.delivered == s.delivered
    ensures Inv(s')
  {
    assert ChannelTypes(s');
    forall id ensures HasId(s'.b.inbound, id) == HasId(s.b.inbound, id) {}
    forall m | m in s'.a.outbound && m.qos == 2 ensures OpenExchange(s', m) {
      assert OpenExchange(s, m);
      LosingKeepsExchange(s, s', m, fB, fA);
    }
    forall id | !HasOpen(s'.a.outbound, id) ensures Idle(s', id) {
      assert !HasOpen(s.a.outbound, id);
      assert Idle(s, id);
    }
    forall k | 0 <= k < |s.published| ensures IsDelivered(s'.delivered, k) || HasSerial(s'.a.outbound, k) {
      if HasSerial(s.a.outbound, k) {
        var m :| m in s.a.outbound && m.qos == 2 && m.publication.serial == k;
        assert m in s'.a.outbound;
      }
    }
  }

  lemma LosingKeepsExchange(s: System, s': System, m: Message, fB: seq<nat>, fA: seq<nat>)
    requires OpenExchange(s, m)
    requires Thinned(s.toB, s'.toB, fB) && Thinned(s.toA, s'.toA, fA)
    requires SameRecords(s.b.inbound, s'.b.inbound) && s'.delivered == s.delivered
    ensures OpenExchange(s', m)
  {
    assert HasId(s'.b.inbound, m.msgid) == HasId(s.b.inbound, m.msgid);
    assert HeldAsIn(s.b.inbound, m) ==> HeldAsIn(s'.b.inbound, m);
    assert PubsCarry(s.toB, m) ==> PubsCarry(s'.toB, m);
    assert NoRelAfterPub(s.toB, m.msgid) ==> NoRelAfterPub(s'.toB, m.msgid);
    assert NoPubAfterRel(s.toB, m.msgid) ==> NoPubAfterRel(s'.toB, m.msgid);
    assert CompIsLast(s.toA, m.msgid) ==> CompIsLast(s'.toA, m.msgid);
    assert NoComp(s.toA, m.msgid) ==> NoComp(s'.toA, m.msgid);
    assert NoRec(s.toA, m.msgid) ==> NoRec(s'.toA, m.msgid);
    assert NoRel(s.toB, m.msgid) ==> NoRel(s'.toB, m.msgid);
    assert NoPub2(s.toB, m.msgid) ==> NoPub2(s'.toB, m.msgid);
  }

  ghost function Identity(n: nat): (f: seq<nat>)
    ensures |f| == n && forall i :: 0 <= i < n ==> f[i] == i
  {
    seq(n, i => i)
  }

  ghost function Skip(n: nat, k: nat): (f: seq<nat>)
    requires k < n
    ensures |f| == n - 1 && forall i :: 0 <= i < n - 1 ==> f[i] == if i < k then i else i + 1
  {
    seq(n - 1, i => if i < k then i else i + 1)
  }

  lemma LoseKeepsInv(s: System, towardsB: bool, k: nat)
    requires Inv(s) && Possible(s, Lose(towardsB, k))
    ensures Inv(Apply(s, Lose(towardsB, k)))
  {
    var s' := Apply(s, Lose(towardsB, k));
    hide Exchanges, Accounting, ChannelTypes, Recoverable;
    if towardsB {
      LosingKeepsInv(s, s', Skip(|s.toB|, k), Identity(|s.toA|));
    } else {
      LosingKeepsInv(s, s', Identity(|s.toB|), Skip(|s.toA|, k));
    }
  }

  lemma SomeRecord(l: seq<Message>)
    requires l != []
    ensures exists m :: m in l
  {
    assert l[0] in l;
  }

  lemma SameEmpty(l: seq<Message>)
    requires SameRecords(l, [])
    ensures l == []
  {
    if l != [] { SomeRecord(l); }
  }

  lemma CutKeepsInv(s: System, act: Action)
    requires Inv(s) && Possible(s, act) && (act.Disconnect? || act.RestartA? || act.RestartB?)
    ensures Inv(Apply(s, act))
  {
    var s' := Apply(s, act);
    match act {
      case Disconnect =>
      case RestartA(keys) => RestoreRebuilds(s.a, {}, keys); SameEmpty(s'.a.inbound);
      case RestartB(keys) => RestoreRebuilds(s.b, {}, keys); SameEmpty(s'.b.outbound);
    }
    LosingKeepsInv(s, s', [], []);
  }

  // ---------------------------------------------------------------- A writes

  /** Re-sending what a record waits for. */
  lemma RetryKeepsExchange(s: System, s': System, m: Message, x: Message)
    requires x in s.a.outbound && m in s.a.outbound && m.qos == 2 && OpenExchange(s, m) && DistinctIds(s.a.outbound)
    requires s' == s.(toB := s.toB + RetryPacket(x), a := s'.a)
    ensures OpenExchange(s', m)
  {
    var ps := RetryPacket(x);
    if x.msgid == m.msgid {
      assert x == m;
    }
    if ps != [] {
      var p := ps[0];
      assert s'.toB == s.toB + [p];
      assert p.msgid == m.msgid ==> x == m;
      assert PubsCarry(s.toB, m) ==> PubsCarry(s'.toB, m);
      assert m.next == AwaitPubrec ==> !IsRel(p, m.msgid);
      assert m.next != AwaitPubrec ==> !IsPub2(p, m.msgid);
      assert m.next == AwaitPubrec && NoRelAfterPub(s.toB, m.msgid) ==> NoRelAfterPub(s'.toB, m.msgid);
      assert m.next != AwaitPubrec && NoPubAfterRel(s.toB, m.msgid) ==> NoPubAfterRel(s'.toB, m.msgid);
      assert m.next != AwaitPubrec && NoPub2(s.toB, m.msgid) ==> NoPub2(s'.toB, m.msgid);
    } else {
      assert s'.toB == s.toB;
    }
  }

  lemma AccountingFrame(s: System, s': System)
    requires Accounting(s)
    requires s'.a.outbound == s.a.outbound && s'.published == s.published && s'.delivered == s.delivered
    ensures Accounting(s')
  {
  }

  lemma IdleAfterSend(s: System, s': System, id: nat, ps: seq<Packet>)
    requires Idle(s, id) && NoPub2(ps, id)
    requires s'.toB == s.toB + ps && s'.toA == s.toA && s'.b == s.b
    ensures Idle(s', id)
  {
  }

  lemma RetryPacketNotPub2(l: seq<Message>, x: Message, id: nat)
    requires x in l && !HasOpen(l, id)
    ensures NoPub2(RetryPacket(x), id)
  {
  }

  /** Dropping heads and appending fitting packets keeps the channels typed. */
  lemma TypesAfter(s: System, s': System, dropB: nat, dropA: nat, ps: seq<Packet>, qs: seq<Packet>)
    requires ChannelTypes(s) && dropB <= |s.toB| && dropA <= |s.toA|
    requires s'.toB == s.toB[dropB..] + ps && s'.toA == s.toA[dropA..] + qs
    requires (forall i :: 0 <= i < |ps| ==> FitsB(ps[i])) && (forall i :: 0 <= i < |qs| ==> FitsA(qs[i]))
    ensures ChannelTypes(s')
  {
  }

  lemma RetryOne(s: System, x: Message)
    ensures ASends(s, Retries(s.a, [x])) ==
            s.(toB := s.toB + RetryPacket(x), a := s.a.(store := PersistAll(s.a.store, RetryPacket(x))))
  {
    assert [x][..0] == [] && RetryPackets([x]) == RetryPacket(x);
  }

  lemma OneRetryKeepsInv(s: System, x: Message)
    requires Inv(s) && x in s.a.outbound
    ensures Inv(ASends(s, Retries(s.a, [x])))
  {
    var s' := ASends(s, Retries(s.a, [x]));
    RetryOne(s, x);
    TypesAfter(s, s', 0, 0, RetryPacket(x), []);
    assert ClientsGood(s') by { RetryPersistKeeps(s.a, x); }
    AccountingFrame(s, s');
    assert Exchanges(s') by {
      forall m | m in s'.a.outbound && m.qos == 2 ensures OpenExchange(s', m) {
        RetryKeepsExchange(s, s', m, x);
      }
      forall id | !HasOpen(s'.a.outbound, id) ensures Idle(s', id) {
        RetryPacketNotPub2(s.a.outbound, x, id);
        IdleAfterSend(s, s', id, RetryPacket(x));
      }
    }
  }

  lemma RetriesSplit(s: System, l: seq<Message>)
    requires l != []
    ensures var mid := ASends(s, Retries(s.a, l[..|l| - 1]));
            ASends(s, Retries(s.a, l)) == ASends(mid, Retries(mid.a, [l[|l| - 1]]))
  {
    var l', x := l[..|l| - 1], l[|l| - 1];
    var mid := ASends(s, Retries(s.a, l'));
    RetryOne(mid, x);
    assert RetryPackets(l) == RetryPackets(l') + RetryPacket(x);
    hide RetryPackets, RetryPacket, PersistAll;
    PersistAllAppend(s.a.store, RetryPackets(l'), RetryPacket(x));
    Assoc(s.toB, RetryPackets(l'), RetryPacket(x));
  }

  lemma {:induction false} RetriesKeepInv(s: System, l: seq<Message>)
    requires Inv(s) && forall m :: m in l ==> m in s.a.outbound
    ensures Inv(ASends(s, Retries(s.a, l)))
  {
    if l == [] {
      assert ASends(s, Retries(s.a, [])) == s;
    } else {
      var l' := l[..|l| - 1];
      RetriesKeepInv(s, l');
      RetriesSplit(s, l);
      assert l[|l| - 1] in l;
      OneRetryKeepsInv(ASends(s, Retries(s.a, l')), l[|l| - 1]);
    }
  }

  /** A new exchange starts on an id no record of A uses. */
  lemma NewIdUnused(msgID: nat, used: set<nat>, k: nat)
    requires msgID <= MAX_MSG_ID && 1 <= k <= MAX_MSG_ID
    ensures var id := NextIdFrom(msgID, used, k); id != 0 ==> 1 <= id <= MAX_MSG_ID && id !in used
    decreases MAX_MSG_ID - k
  {
  }

  /** The state after A's application published: `p` is written, and recorded unless its QoS is 0. */
  ghost predicate Accepted(s: System, s': System, p: Packet, id: nat) {
    && p.Publish? && p.qos <= 2 && p.msgid == id && p.publication.serial == NextSerial(s, p.qos)
    && (p.qos != 0 ==> 1 <= id <= MAX_MSG_ID && id !in Ids(s.a.outbound))
    && s' == s.(a := StartPublish(s.a.(msgID := if p.qos == 0 then s.a.msgID else id), p).client,
                toB := s.toB + [p],
                published := if p.qos == 2 then s.published + [Handover(2, p.retain, p.publication)] else s.published,
                offered := if p.qos == 2 then s.offered else s.offered + [p])
  }

  lemma AcceptedKeepsIdle(s: System, s': System, p: Packet, id: nat, x: nat)
    requires Accepted(s, s', p, id) && Exchanges(s) && !HasOpen(s'.a.outbound, x)
    ensures Idle(s', x)
  {
    forall m | m in s.a.outbound ensures m in s'.a.outbound {}
    assert !HasOpen(s.a.outbound, x) && Idle(s, x);
    if p.qos == 2 {
      assert s'.a.outbound[|s.a.outbound|] == CreateMessage(p);
      assert CreateMessage(p) in s'.a.outbound;
    }
    IdleAfterSend(s, s', x, [p]);
  }

  lemma AcceptedOpens(s: System, s': System, p: Packet, id: nat)
    requires Accepted(s, s', p, id) && Exchanges(s) && Accounting(s) && p.qos == 2
    ensures Offered(s', CreateMessage(p))
  {
    assert !HasOpen(s.a.outbound, id);
    assert Idle(s, id);
    forall i | 0 <= i < |s.delivered| ensures s.delivered[i].publication.serial != |s.published| {}
  }

  lemma AcceptedKeepsInv(s: System, s': System, p: Packet, id: nat)
    requires Inv(s) && Accepted(s, s', p, id)
    ensures Inv(s')
  {
    TypesAfter(s, s', 0, 0, [p], []);
    AcceptedClients(s, s', p, id);
    AcceptKeepsAccounting(s, s', p, CreateMessage(p));
    forall x | !HasOpen(s'.a.outbound, x) ensures Idle(s', x) {
      AcceptedKeepsIdle(s, s', p, id, x);
    }
    forall m | m in s'.a.outbound && m.qos == 2 ensures OpenExchange(s', m) {
      if m in s.a.outbound {
        assert OpenExchange(s, m) && !IsPub2(p, m.msgid);
        OtherPublishKeepsExchange(s, s', m, p);
      } else {
        AcceptedOpens(s, s', p, id);
      }
    }
  }

  lemma AcceptedClients(s: System, s': System, p: Packet, id: nat)
    requires ClientsGood(s) && Accepted(s, s', p, id)
    ensures ClientsGood(s')
  {
    var a0 := s.a.(msgID := if p.qos == 0 then s.a.msgID else id);
    assert Recoverable(a0);
    StartPublishKeepsRecoverable(a0, p);
  }

  lemma AcceptKeepsInv(s: System, topic: seq<byte>, payload: seq<byte>, qos: nat, retain: bool)
    requires Inv(s) && qos <= 2
    ensures Inv(Accept(s, topic, payload, qos, retain))
  {
    var s' := Accept(s, topic, payload, qos, retain);
    if s' != s {
      NewIdUnused(s.a.msgID, Ids(s.a.outbound), 1);
      var id := if qos == 0 then 0 else NextId(s.a.msgID, Ids(s.a.outbound));
      var p := Publish(id, qos, false, retain, Publication(topic, payload, NextSerial(s, qos)));
      AcceptedKeepsInv(s, s', p, id);
    }
  }

  lemma OtherPublishKeepsExchange(s: System, s': System, m: Message, p: Packet)
    requires OpenExchange(s, m) && p.Publish? && !IsPub2(p, m.msgid)
    requires s'.toB == s.toB + [p] && s'.toA == s.toA && s'.b == s.b && s'.delivered == s.delivered
    ensures OpenExchange(s', m)
  {
    assert PubsCarry(s.toB, m) ==> PubsCarry(s'.toB, m);
    assert NoRelAfterPub(s.toB, m.msgid) ==> NoRelAfterPub(s'.toB, m.msgid);
    assert NoPubAfterRel(s.toB, m.msgid) ==> NoPubAfterRel(s'.toB, m.msgid);
    assert NoPub2(s.toB, m.msgid) ==> NoPub2(s'.toB, m.msgid);
    assert NoRel(s.toB, m.msgid) ==> NoRel(s'.toB, m.msgid);
  }

  lemma AcceptKeepsAccounting(s: System, s': System, p: Packet, m0: Message)
    requires Accounting(s) && p.Publish? && (p.qos == 2 ==> p.publication.serial == |s.published|)
        && m0 == CreateMessage(p)
    requires s'.a.outbound == if p.qos == 0 then s.a.outbound else s.a.outbound + [m0]
    requires s'.delivered == s.delivered
    requires s'.published == if p.qos == 2 then s.published + [Handover(2, p.retain, p.publication)] else s.published
    ensures Accounting(s')
  {
    assert forall m :: m in s'.a.outbound <==> m in s.a.outbound || (p.qos != 0 && m == m0);
    forall k | 0 <= k < |s'.published| ensures IsDelivered(s'.delivered, k) || HasSerial(s'.a.outbound, k) {
      if k == |s.published| {
        assert s'.a.outbound[|s.a.outbound|] == m0;
        assert m0 in s'.a.outbound;
      } else if !IsDelivered(s.delivered, k) {
        assert HasSerial(s.a.outbound, k);
        var m :| m in s.a.outbound && m.qos == 2 && m.publication.serial == k;
        assert m in s'.a.outbound;
      }
    }
  }

  // ---------------------------------------------------------------- B handles a packet

  ghost function DropB(s: System): System
    requires s.toB != []
  {
    s.(toB := s.toB[1..])
  }

  ghost function DropA(s: System): System
    requires s.toA != []
  {
    s.(toA := s.toA[1..])
  }

  lemma DropBKeepsInv(s: System)
    requires Inv(s) && s.toB != []
    ensures Inv(DropB(s))
  {
    LosingKeepsInv(s, DropB(s), Skip(|s.toB|, 0), Identity(|s.toA|));
  }

  lemma DropAKeepsInv(s: System)
    requires Inv(s) && s.toA != []
    ensures Inv(DropA(s))
  {
    LosingKeepsInv(s, DropA(s), Identity(|s.toB|), Skip(|s.toA|, 0));
  }

  lemma OnlyQos2One(h: Handover)
    ensures OnlyQos2([h]) == if h.qos == 2 then [h] else []
  {
    assert [h][..0] == [] && OnlyQos2([]) == [];
  }

  /** A packet towards A that is neither PUBREC nor PUBCOMP disturbs no exchange. */
  lemma SendPubackKeepsExchange(s: System, s': System, ps: seq<Packet>, m: Message)
    requires OpenExchange(s, m) && forall i :: 0 <= i < |ps| ==> ps[i].Puback?
    requires s' == s.(toA := s.toA + ps, lower := s'.lower)
    ensures OpenExchange(s', m)
  {
    assert CompIsLast(s.toA, m.msgid) ==> CompIsLast(s'.toA, m.msgid);
    assert NoComp(s.toA, m.msgid) ==> NoComp(s'.toA, m.msgid);
    assert NoRec(s.toA, m.msgid) ==> NoRec(s'.toA, m.msgid);
  }

  lemma SendPubackKeepsInv(s: System, s': System, ps: seq<Packet>)
    requires Inv(s) && forall i :: 0 <= i < |ps| ==> ps[i].Puback?
    requires s' == s.(toA := s.toA + ps, lower := s'.lower)
    ensures Inv(s')
  {
    AccountingFrame(s, s');
    TypesAfter(s, s', 0, 0, [], ps);
    assert ClientsGood(s');
    assert Exchanges(s') by {
      forall m | m in s'.a.outbound && m.qos == 2 ensures OpenExchange(s', m) {
        SendPubackKeepsExchange(s, s', ps, m);
      }
      forall id | !HasOpen(s'.a.outbound, id) ensures Idle(s', id) {
        assert Idle(s, id);
      }
    }
  }

  /** B stores a QoS 2 PUBLISH that belongs to A's open record `m`, and answers PUBREC. */
  lemma StorePublishRecords(c: ClientState, p: Packet) returns (r: Message)
    requires p.Publish? && p.qos == 2 && DistinctIds(c.inbound)
    ensures r == Message(p.msgid, 2, p.retain, p.publication, AwaitPubrel)
    ensures forall y :: y in HandlePublish(c, p).client.inbound <==> y == r || (y in c.inbound && y.msgid != p.msgid)
  {
    r := Message(p.msgid, 2, p.retain, p.publication, AwaitPubrel);
    var i := Find(c.inbound, p.msgid);
    if i < |c.inbound| {
      UpdateRecords(c.inbound, i, r);
    } else {
      HasIdFind(c.inbound, p.msgid);
      assert HandlePublish(c, p).client.inbound[i] == r;
    }
  }

  lemma StoreOwnPublish(s: System, s': System, m: Message, p: Packet)
    requires OpenExchange(s, m) && s.toB != [] && p == s.toB[0] && IsPub2(p, m.msgid) && DistinctIds(s.b.inbound)
    requires s' == DropB(s).(b := HandlePublish(s.b, p).client, toA := s.toA + [Pubrec(p.msgid)])
    ensures OpenExchange(s', m)
  {
    var r := StorePublishRecords(s.b, p);
    hide HandlePublish;
    assert !NoPub2(s.toB, m.msgid) && r in s'.b.inbound;
    assert PubsCarry(s'.toB, m) && HeldAsIn(s'.b.inbound, m);
    assert NoRelAfterPub(s.toB, m.msgid) ==> NoRel(s'.toB, m.msgid);
    assert NoComp(s.toA, m.msgid) ==> NoComp(s'.toA, m.msgid);
  }

  lemma StoreOtherPublish(s: System, s': System, x: Message, p: Packet)
    requires OpenExchange(s, x) && s.toB != [] && p == s.toB[0] && p.Publish? && p.qos == 2 && p.msgid != x.msgid
    requires DistinctIds(s.b.inbound)
    requires s' == DropB(s).(b := HandlePublish(s.b, p).client, toA := s.toA + [Pubrec(p.msgid)])
    ensures OpenExchange(s', x)
  {
    LosingKeepsExchange(s, DropB(s), x, Skip(|s.toB|, 0), Identity(|s.toA|));
    var r := StorePublishRecords(s.b, p);
    hide HandlePublish;
    assert forall y: Message :: y.msgid == x.msgid ==> (y in s'.b.inbound <==> y in s.b.inbound);
    assert HasId(s'.b.inbound, x.msgid) == HasId(s.b.inbound, x.msgid);
    assert CompIsLast(s.toA, x.msgid) ==> CompIsLast(s'.toA, x.msgid);
    assert NoRec(s.toA, x.msgid) ==> NoRec(s'.toA, x.msgid);
    assert NoComp(s.toA, x.msgid) ==> NoComp(s'.toA, x.msgid);
  }

  lemma StorePublishKeepsExchanges(s: System, s': System)
    requires Inv(s) && s.toB != [] && s.toB[0].Publish? && s.toB[0].qos == 2
    requires s' == DropB(s).(b := HandlePublish(s.b, s.toB[0]).client, toA := s.toA + [Pubrec(s.toB[0].msgid)])
    ensures Exchanges(s')
  {
    var p := s.toB[0];
    var m := PublishBelongs(s);
    forall x | x in s'.a.outbound && x.qos == 2 ensures OpenExchange(s', x) {
      if x == m { StoreOwnPublish(s, s', m, p); } else { StoreOtherPublish(s, s', x, p); }
    }
    forall id | !HasOpen(s'.a.outbound, id) ensures Idle(s', id) {
      assert Idle(s, id);
      StorePublishKeepsIdle(s.b, p, id);
    }
  }

  lemma StorePublishKeepsInv(s: System)
    requires Inv(s) && s.toB != [] && s.toB[0].Publish? && s.toB[0].qos == 2
    ensures Inv(BSends(DropB(s), Handle(s.b, s.toB[0])))
  {
    var p := s.toB[0];
    StoreOutcome(s.b, p);
    assert OnlyQos2([]) == [] && NotQos2([]) == [];
    hide Inv, Handle, HandlePublish, OnlyQos2, NotQos2;
    Assoc(s.delivered, [], []);
    Assoc(s.lower, [], []);
    StorePublishDone(s, BSends(DropB(s), Handle(s.b, p)));
  }

  lemma StoreOutcome(c: ClientState, p: Packet)
    requires p.Publish? && p.qos == 2
    ensures var o := Handle(c, p);
      && o == HandlePublish(c, p) && o.sent == [Pubrec(p.msgid)] && o.handed == [] && o.client.outbound == c.outbound
  {
  }

  lemma StorePublishDone(s: System, s': System)
    requires Inv(s) && s.toB != [] && s.toB[0].Publish? && s.toB[0].qos == 2
    requires s' == DropB(s).(b := HandlePublish(s.b, s.toB[0]).client, toA := s.toA + [Pubrec(s.toB[0].msgid)])
    requires s'.b.outbound == s.b.outbound
    ensures Inv(s')
  {
    hide Exchanges, Accounting, ChannelTypes, Recoverable, HandlePublish;
    AccountingFrame(s, s');
    PublishKeeps(s.b, s.toB[0]);
    TypesAfter(s, s', 1, 0, [], [Pubrec(s.toB[0].msgid)]);
    StorePublishKeepsExchanges(s, s');
  }

  /** A QoS 2 PUBLISH in transit belongs to an open record of A. */
  lemma PublishBelongs(s: System) returns (m: Message)
    requires Inv(s) && s.toB != [] && s.toB[0].Publish? && s.toB[0].qos == 2
    ensures m in s.a.outbound && m.qos == 2 && m.msgid == s.toB[0].msgid
  {
    assert IsPub2(s.toB[0], s.toB[0].msgid);
    assert !Idle(s, s.toB[0].msgid);
    m :| m in s.a.outbound && m.qos == 2 && m.msgid == s.toB[0].msgid;
  }

  lemma StorePublishKeepsIdle(c: ClientState, p: Packet, id: nat)
    requires p.Publish? && p.msgid != id && !HasId(c.inbound, id)
    ensures !HasId(HandlePublish(c, p).client.inbound, id)
  {
    forall y | y in HandlePublish(c, p).client.inbound ensures y in c.inbound || y.msgid == p.msgid {}
  }

  /** PUBREL reaches a record B holds: the publication is handed over, for the first time. */
  lemma HandOverKeepsInv(s: System)
    requires Inv(s) && s.toB != [] && s.toB[0].Pubrel? && HasId(s.b.inbound, s.toB[0].msgid)
    ensures Inv(BSends(DropB(s), Handle(s.b, s.toB[0])))
  {
    hide Inv, Released, RemoveAt, Handle, HandlePubrel, BSends, Find;
    var m, i := PubrelReleases(s);
    HandOverEffect(s, m, i);
    HandOverDone(s, BSends(DropB(s), Handle(s.b, s.toB[0])), m, i);
  }

  lemma HandOverDone(s: System, s': System, m: Message, i: nat)
    requires Inv(s) && m in s.a.outbound && m.qos == 2 && Released(s, m)
    requires s.toB != [] && s.toB[0].Pubrel? && s.toB[0].msgid == m.msgid
    requires i < |s.b.inbound| && s.b.inbound[i].msgid == m.msgid && s'.b.inbound == RemoveAt(s.b.inbound, i)
    requires s' == DropB(s).(b := HandlePubrel(s.b, m.msgid, s.toB[0].dup).client, toA := s.toA + [Pubcomp(m.msgid)],
                             delivered := s.delivered + [Handover(2, m.retain, m.publication)])
    ensures Inv(s')
  {
    hide Exchanges, Accounting, ChannelTypes, RemoveAt, HandlePubrel, ClientsGood;
    HandOverClients(s, s');
    TypesAfter(s, s', 1, 0, [], [Pubcomp(m.msgid)]);
    HandOverAccounting(s, s', m);
    HandOverKeepsExchanges(s, s', m, i);
  }

  lemma HandOverClients(s: System, s': System)
    requires ClientsGood(s) && s.toB != [] && s.toB[0].Pubrel?
    requires s'.a == s.a && s'.b == HandlePubrel(s.b, s.toB[0].msgid, s.toB[0].dup).client
    ensures ClientsGood(s')
  {
    PubrelKeeps(s.b, s.toB[0].msgid, s.toB[0].dup);
    hide Recoverable;
  }

  lemma HandOverEffect(s: System, m: Message, i: nat)
    requires s.toB != [] && s.toB[0].Pubrel? && s.toB[0].msgid == m.msgid
    requires i == Find(s.b.inbound, m.msgid) && i < |s.b.inbound|
    requires s.b.inbound[i].retain == m.retain && s.b.inbound[i].publication == m.publication
    requires s.b.inbound[i].qos == 2 && s.b.inbound[i].next == AwaitPubrel
    ensures var s' := BSends(DropB(s), Handle(s.b, s.toB[0]));
      && s' == DropB(s).(b := HandlePubrel(s.b, m.msgid, s.toB[0].dup).client, toA := s.toA + [Pubcomp(m.msgid)],
                         delivered := s.delivered + [Handover(2, m.retain, m.publication)])
      && s'.b.inbound == RemoveAt(s.b.inbound, i) && s'.b.outbound == s.b.outbound
      && s.toB == [s.toB[0]] + s'.toB && s'.toA == s.toA + [Pubcomp(m.msgid)] && s'.a == s.a
      && s'.delivered == s.delivered + [Handover(2, m.retain, m.publication)]
      && s'.connected == s.connected && s'.published == s.published
  {
    var h := Handover(2, m.retain, m.publication);
    PubrelOutcome(s.b, m, i, s.toB[0].dup);
    HeadTail(s.toB);
    OnlyQos2One(h);
    assert [h][..0] == [] && NotQos2([]) == [] && NotQos2([h]) == [];
    hide HandlePubrel, OnlyQos2, NotQos2;
    assert s.lower + [] == s.lower;
  }

  lemma PubrelOutcome(c: ClientState, m: Message, i: nat, dup: bool)
    requires i == Find(c.inbound, m.msgid) && i < |c.inbound| && c.inbound[i].qos == 2
        && c.inbound[i].next == AwaitPubrel
    requires c.inbound[i].retain == m.retain && c.inbound[i].publication == m.publication
    ensures var o := HandlePubrel(c, m.msgid, dup);
      && o.client.inbound == RemoveAt(c.inbound, i) && o.client.outbound == c.outbound
      && o.sent == [Pubcomp(m.msgid)] && o.handed == [Handover(2, m.retain, m.publication)]
  {
  }

  lemma HandOverKeepsExchanges(s: System, s': System, m: Message, i: nat)
    requires Inv(s) && m in s.a.outbound && m.qos == 2 && Released(s, m)
    requires s.toB != [] && s.toB[0].Pubrel? && s.toB[0].msgid == m.msgid
    requires i < |s.b.inbound| && s.b.inbound[i].msgid == m.msgid
    requires s' == DropB(s).(b := s'.b, toA := s.toA + [Pubcomp(m.msgid)],
                             delivered := s.delivered + [Handover(2, m.retain, m.publication)])
    requires s'.b.inbound == RemoveAt(s.b.inbound, i)
    ensures Exchanges(s')
  {
    RemoveAtRecords(s.b.inbound, i);
    forall x | x in s'.a.outbound && x.qos == 2 ensures OpenExchange(s', x) {
      if x == m {
        HandOverFinishes(s, s', m);
      } else {
        HandOverKeepsOther(s, s', x, m, i);
      }
    }
    forall id' | !HasOpen(s'.a.outbound, id') ensures Idle(s', id') {
      assert Idle(s, id');
    }
  }

  /** A PUBREL that meets a record was sent for that record, and the record is what A published. */
  lemma PubrelReleases(s: System) returns (m: Message, i: nat)
    requires Inv(s) && s.toB != [] && s.toB[0].Pubrel? && HasId(s.b.inbound, s.toB[0].msgid)
    ensures m in s.a.outbound && m.qos == 2 && m.msgid == s.toB[0].msgid && m.next == AwaitPubcomp && Released(s, m)
    ensures i == Find(s.b.inbound, m.msgid) && i < |s.b.inbound|
    ensures s.b.inbound[i].retain == m.retain && s.b.inbound[i].publication == m.publication
    ensures s.b.inbound[i].qos == 2 && s.b.inbound[i].next == AwaitPubrel
  {
    var id := s.toB[0].msgid;
    HasIdFind(s.b.inbound, id);
    i := Find(s.b.inbound, id);
    assert s.b.inbound[i] in s.b.inbound;
    assert !Idle(s, id);
    m :| m in s.a.outbound && m.qos == 2 && m.msgid == id;
    assert IsRel(s.toB[0], id) && !NoRel(s.toB, id);
    assert OpenExchange(s, m);
  }

  lemma HandOverAccounting(s: System, s': System, m: Message)
    requires Accounting(s) && m in s.a.outbound && m.qos == 2 && !IsDelivered(s.delivered, m.publication.serial)
    requires s'.a.outbound == s.a.outbound && s'.published == s.published
    requires s'.delivered == s.delivered + [Handover(2, m.retain, m.publication)]
    ensures Accounting(s')
  {
    forall k | 0 <= k < |s.published| ensures IsDelivered(s'.delivered, k) || HasSerial(s'.a.outbound, k) {
      if IsDelivered(s.delivered, k) {
        var i :| 0 <= i < |s.delivered| && s.delivered[i].publication.serial == k;
        assert s'.delivered[i].publication.serial == k;
      }
    }
  }

  lemma HandOverFinishes(s: System, s': System, m: Message)
    requires s.toB != [] && s.toB[0].Pubrel? && s.toB[0].msgid == m.msgid && Released(s, m)
    requires s'.toB == s.toB[1..] && s'.toA == s.toA + [Pubcomp(m.msgid)]
    requires s'.delivered == s.delivered + [Handover(2, m.retain, m.publication)]
    requires !HasId(s'.b.inbound, m.msgid)
    ensures Finished(s', m)
  {
    assert s'.delivered[|s.delivered|].publication.serial == m.publication.serial;
    assert IsRel(s.toB[0], m.msgid);
  }

  lemma HandOverKeepsOther(s: System, s': System, x: Message, m: Message, i: nat)
    requires OpenExchange(s, x) && x.msgid != m.msgid && x.publication.serial != m.publication.serial
    requires i < |s.b.inbound| && s.b.inbound[i].msgid == m.msgid && DistinctIds(s.b.inbound)
    requires s.toB != [] && s'.toB == s.toB[1..] && s'.toA == s.toA + [Pubcomp(m.msgid)]
    requires s'.delivered == s.delivered + [Handover(2, m.retain, m.publication)]
    requires s'.b.inbound == RemoveAt(s.b.inbound, i)
    ensures OpenExchange(s', x)
  {
    LosingKeepsExchange(s, DropB(s), x, Skip(|s.toB|, 0), Identity(|s.toA|));
    RemoveAtRecords(s.b.inbound, i);
    hide RemoveAt;
    assert forall y: Message :: y.msgid == x.msgid ==> (y in s'.b.inbound <==> y in s.b.inbound);
    assert HasId(s'.b.inbound, x.msgid) == HasId(s.b.inbound, x.msgid);
    AlsoDelivered(s.delivered, Handover(2, m.retain, m.publication), x.publication.serial);
    assert CompIsLast(s.toA, x.msgid) ==> CompIsLast(s'.toA, x.msgid);
    assert NoComp(s.toA, x.msgid) ==> NoComp(s'.toA, x.msgid);
    assert NoRec(s.toA, x.msgid) ==> NoRec(s'.toA, x.msgid);
  }

  lemma AlsoDelivered(log: seq<Handover>, h: Handover, serial: nat)
    requires h.publication.serial != serial
    ensures IsDelivered(log + [h], serial) == IsDelivered(log, serial)
  {
    forall j | 0 <= j < |log| ensures (log + [h])[j] == log[j] {}
  }

  lemma BReceivesKeepsInv(s: System)
    requires Inv(s) && s.toB != []
    ensures Inv(BSends(DropB(s), Handle(s.b, s.toB[0])))
  {
    var p := s.toB[0];
    if p.Publish? && p.qos == 2 {
      hide Inv, BSends, Handle;
      StorePublishKeepsInv(s);
    } else if p.Pubrel? && HasId(s.b.inbound, p.msgid) {
      HandOverKeepsInv(s);
    } else {
      HeadFits(s);
      DropBKeepsInv(s);
      UnstoredOutcome(s.b, p);
      Assoc(s.delivered, [], []);
      SendPubackKeepsInv(DropB(s), BSends(DropB(s), Handle(s.b, p)), Handle(s.b, p).sent);
    }
  }

  lemma HeadFits(s: System)
    requires Inv(s) && s.toB != []
    ensures FitsB(s.toB[0])
  {
  }

  /** What B does with a PUBLISH of QoS 0 or 1, and with a PUBREL for an id it has no record of. */
  lemma UnstoredOutcome(c: ClientState, p: Packet)
    requires FitsB(p) && !(p.Publish? && p.qos == 2) && !(p.Pubrel? && HasId(c.inbound, p.msgid))
    ensures var o := Handle(c, p);
      o.client == c && OnlyQos2(o.handed) == [] && forall i :: 0 <= i < |o.sent| ==> o.sent[i].Puback?
  {
    HasIdFind(c.inbound, p.msgid);
    if p.Publish? { OnlyQos2One(Handover(p.qos, p.retain, p.publication)); }
  }

  // ---------------------------------------------------------------- A handles a packet

  /** PUBREC reaches a record still waiting for it: B holds the publication, so PUBREL releases it. */
  lemma ReleaseKeepsInv(s: System, m: Message)
    requires Inv(s) && s.toA != [] && IsRec(s.toA[0], m.msgid)
    requires m in s.a.outbound && m.qos == 2 && m.next == AwaitPubrec
    ensures Inv(ASends(DropA(s), HandlePubrec(s.a, m.msgid)))
  {
    hide Inv, HandlePubrec, ASends, NoRel, DistinctIds;
    var i := ReleasedRecord(s, m);
    UpdateRecords(s.a.outbound, i, m.(next := AwaitPubcomp));
    ReleaseDone(s, ASends(DropA(s), HandlePubrec(s.a, m.msgid)), m, m.(next := AwaitPubcomp));
  }

  lemma ReleaseDone(s: System, s': System, m: Message, m': Message)
    requires Inv(s) && s.toA != [] && IsRec(s.toA[0], m.msgid)
    requires m in s.a.outbound && m.qos == 2 && m.next == AwaitPubrec && m' == m.(next := AwaitPubcomp)
        && DistinctIds(s.a.outbound)
    requires s' == DropA(s).(a := HandlePubrec(s.a, m.msgid).client, toB := s.toB + [Pubrel(m.msgid, false)])
    requires s'.a.inbound == s.a.inbound && s'.a.msgID == s.a.msgID
    requires forall x :: x in s'.a.outbound <==> x == m' || (x in s.a.outbound && x.msgid != m'.msgid)
    ensures Inv(s')
  {
    hide Exchanges, Accounting, HandlePubrec, ClientsGood, ChannelTypes, DistinctIds;
    ReleaseClients(s, s', m, m');
    UpdateAccounting(s, s', m, m');
    TypesAfter(s, s', 0, 1, [Pubrel(m.msgid, false)], []);
    ReleaseKeepsExchanges(s, s', m, m');
  }

  lemma ReleaseClients(s: System, s': System, m: Message, m': Message)
    requires ClientsGood(s) && m in s.a.outbound && m'.msgid == m.msgid
    requires s'.b == s.b && s'.a == HandlePubrec(s.a, m.msgid).client && s'.a.inbound == s.a.inbound
        && s'.a.msgID == s.a.msgID
    requires forall x :: x in s'.a.outbound <==> x == m' || (x in s.a.outbound && x.msgid != m'.msgid)
    ensures ClientsGood(s')
  {
    PubrecKeeps(s.a, m.msgid);
    hide Recoverable, HandlePubrec;
  }

  lemma ReleasedRecord(s: System, m: Message) returns (i: nat)
    requires Inv(s) && s.toA != [] && IsRec(s.toA[0], m.msgid)
    requires m in s.a.outbound && m.qos == 2 && m.next == AwaitPubrec
    ensures i < |s.a.outbound| && s.a.outbound[i] == m && NoRel(s.toB, m.msgid) && DistinctIds(s.a.outbound)
    ensures var s' := ASends(DropA(s), HandlePubrec(s.a, m.msgid));
      && s'.a.outbound == s.a.outbound[i := m.(next := AwaitPubcomp)] && s'.a.inbound == s.a.inbound
      && s'.a.msgID == s.a.msgID
      && s'.toB == s.toB + [Pubrel(m.msgid, false)] && s'.toA == s.toA[1..] && s.toA == [s.toA[0]] + s'.toA
      && s' == DropA(s).(a := HandlePubrec(s.a, m.msgid).client, toB := s.toB + [Pubrel(m.msgid, false)])
      && s'.connected == s.connected && s'.delivered == s.delivered && s'.published == s.published
  {
    hide Accounting, StoreHolds, ChannelTypes;
    HeadTail(s.toA);
    HasIdFind(s.a.outbound, m.msgid);
    i := Find(s.a.outbound, m.msgid);
    assert s.a.outbound[i] in s.a.outbound;
    assert OpenExchange(s, m) && !NoRec(s.toA, m.msgid);
  }

  lemma ReleaseKeepsExchanges(s: System, s': System, m: Message, m': Message)
    requires Inv(s) && s.toA != [] && IsRec(s.toA[0], m.msgid)
    requires m in s.a.outbound && m.qos == 2 && m.next == AwaitPubrec && m' == m.(next := AwaitPubcomp)
    requires forall x :: x in s'.a.outbound <==> x == m' || (x in s.a.outbound && x.msgid != m'.msgid)
    requires s' == DropA(s).(a := s'.a, toB := s.toB + [Pubrel(m.msgid, false)])
    ensures Exchanges(s')
  {
    hide ClientsGood, Accounting, ChannelTypes;
    forall x | x in s'.a.outbound && x.qos == 2 ensures OpenExchange(s', x) {
      if x == m' {
        assert OpenExchange(s, m) && !NoRec(s.toA, m.msgid);
        assert Released(s', m');
      } else {
        LosingKeepsExchange(s, DropA(s), x, Identity(|s.toB|), Skip(|s.toA|, 0));
        SendRelKeepsOther(DropA(s), s', x, m.msgid);
      }
    }
    forall id' | !HasOpen(s'.a.outbound, id') ensures Idle(s', id') {
      assert !HasOpen(s.a.outbound, id') by {
        if y :| y in s.a.outbound && y.qos == 2 && y.msgid == id' { OpenStays(s.a.outbound, s'.a.outbound, m', y); }
      }
      assert Idle(s, id') && Idle(DropA(s), id');
      IdleAfterSend(DropA(s), s', id', [Pubrel(m.msgid, false)]);
    }
  }

  lemma OpenStays(l: seq<Message>, l': seq<Message>, m': Message, y: Message)
    requires forall x :: x in l' <==> x == m' || (x in l && x.msgid != m'.msgid)
    requires y in l && y.qos == 2 && m'.qos == 2
    ensures HasOpen(l', y.msgid)
  {
    assert m' in l' && (y.msgid == m'.msgid || y in l');
  }

  lemma UpdateAccounting(s: System, s': System, m: Message, m': Message)
    requires Accounting(s) && m in s.a.outbound && m.qos == 2 && m' == m.(next := AwaitPubcomp)
    requires forall x :: x in s'.a.outbound <==> x == m' || (x in s.a.outbound && x.msgid != m.msgid)
    requires DistinctIds(s.a.outbound)
    requires s'.published == s.published && s'.delivered == s.delivered
    ensures Accounting(s')
  {
    forall k | 0 <= k < |s.published| && !IsDelivered(s.delivered, k) ensures HasSerial(s'.a.outbound, k) {
      assert HasSerial(s.a.outbound, k);
      var x :| x in s.a.outbound && x.qos == 2 && x.publication.serial == k;
      if x.msgid == m.msgid {
        assert x == m && m' in s'.a.outbound;
      } else {
        assert x in s'.a.outbound;
      }
    }
  }

  lemma SendRelKeepsOther(s: System, s': System, x: Message, id: nat)
    requires OpenExchange(s, x) && x.msgid != id
    requires s'.toB == s.toB + [Pubrel(id, false)] && s'.toA == s.toA && s'.b == s.b && s'.delivered == s.delivered
    ensures OpenExchange(s', x)
  {
    assert PubsCarry(s.toB, x) ==> PubsCarry(s'.toB, x);
    assert NoRelAfterPub(s.toB, x.msgid) ==> NoRelAfterPub(s'.toB, x.msgid);
    assert NoPubAfterRel(s.toB, x.msgid) ==> NoPubAfterRel(s'.toB, x.msgid);
    assert NoPub2(s.toB, x.msgid) ==> NoPub2(s'.toB, x.msgid);
    assert NoRel(s.toB, x.msgid) ==> NoRel(s'.toB, x.msgid);
  }

  /** A record leaves A's list: a QoS 1 record, or a QoS 2 record whose exchange is over. */
  lemma ForgetKeepsInv(s: System, s': System, m: Message)
    requires Inv(s) && m in s.a.outbound
    requires s' == s.(a := s'.a) && ClientsGood(s')
    requires forall x :: x in s'.a.outbound <==> x in s.a.outbound && x.msgid != m.msgid
    requires m.qos == 2 ==> Idle(s, m.msgid) && IsDelivered(s.delivered, m.publication.serial)
    ensures Inv(s')
  {
    assert forall x :: x in s.a.outbound && x.msgid == m.msgid ==> x == m;
    hide ClientsGood, ChannelTypes, Accounting, Exchanges;
    assert ChannelTypes(s') by { TypesAfter(s, s', 0, 0, [], []); }
    ForgetAccounting(s, s', m);
    ForgetExchanges(s, s', m);
  }

  lemma ForgetExchanges(s: System, s': System, m: Message)
    requires Exchanges(s) && s' == s.(a := s'.a)
    requires forall x :: x in s.a.outbound && x.msgid == m.msgid ==> x == m
    requires forall x :: x in s'.a.outbound <==> x in s.a.outbound && x.msgid != m.msgid
    requires m.qos == 2 ==> Idle(s, m.msgid)
    ensures Exchanges(s')
  {
    forall x | x in s'.a.outbound && x.qos == 2 ensures OpenExchange(s', x) {
      assert OpenExchange(s, x);
    }
    forall id | !HasOpen(s'.a.outbound, id) ensures Idle(s', id) {
      if y :| y in s.a.outbound && y.qos == 2 && y.msgid == id {
        assert y == m || y in s'.a.outbound;
      } else {
        assert !HasOpen(s.a.outbound, id) && Idle(s, id);
      }
    }
  }

  lemma ForgetAccounting(s: System, s': System, m: Message)
    requires Accounting(s) && s' == s.(a := s'.a)
    requires forall x :: x in s.a.outbound && x.msgid == m.msgid ==> x == m
    requires forall x :: x in s'.a.outbound <==> x in s.a.outbound && x.msgid != m.msgid
    requires m.qos == 2 ==> IsDelivered(s.delivered, m.publication.serial)
    ensures Accounting(s')
  {
    forall k | 0 <= k < |s.published| && !IsDelivered(s.delivered, k) ensures HasSerial(s'.a.outbound, k) {
      assert HasSerial(s.a.outbound, k);
      var x :| x in s.a.outbound && x.qos == 2 && x.publication.serial == k;
      assert x in s'.a.outbound;
    }
  }

  /** PUBCOMP at the head: the exchange it answers is finished and leaves nothing behind. */
  lemma PubcompMeansDelivered(s: System, m: Message)
    requires Inv(s) && s.toA != [] && IsComp(s.toA[0], m.msgid) && m in s.a.outbound && m.qos == 2
    ensures Finished(s, m) && Idle(DropA(s), m.msgid) && IsDelivered(s.delivered, m.publication.serial)
  {
    assert OpenExchange(s, m) && !NoComp(s.toA, m.msgid);
  }

  lemma CompletedRecord(s: System) returns (i: nat, m: Message)
    requires Inv(s) && s.toA != [] && s.toA[0].Pubcomp? && Completes(s.a, s.toA[0].msgid)
    ensures i < |s.a.outbound| && m == s.a.outbound[i] && m.qos == 2 && m.msgid == s.toA[0].msgid
    ensures IsDelivered(s.delivered, m.publication.serial) && Idle(DropA(s), m.msgid)
    ensures var s' := ASends(DropA(s), HandlePubcomp(s.a, s.toA[0].msgid));
      && s'.a.outbound == RemoveAt(s.a.outbound, i) && s'.toB == s.toB && s.toA == [s.toA[0]] + s'.toA
      && s'.connected == s.connected && s'.delivered == s.delivered && s'.published == s.published
  {
    hide Accounting, StoreHolds, ChannelTypes, Exchanges;
    HeadTail(s.toA);
    assert s.toB + [] == s.toB;
    i := Find(s.a.outbound, s.toA[0].msgid);
    m := s.a.outbound[i];
    assert m in s.a.outbound;
    PubcompMeansDelivered(s, m);
  }

  lemma CompleteKeepsInv(s: System)
    requires Inv(s) && s.toA != [] && s.toA[0].Pubcomp? && Completes(s.a, s.toA[0].msgid)
    ensures Inv(ASends(DropA(s), HandlePubcomp(s.a, s.toA[0].msgid)))
  {
    hide Exchanges, Accounting, StoreHolds, ChannelTypes;
    var i, m := CompletedRecord(s);
    DropAKeepsInv(s);
    RemoveAtRecords(s.a.outbound, i);
    PubcompKeeps(s.a, m.msgid);
    hide RemoveAt;
    var s' := ASends(DropA(s), HandlePubcomp(s.a, m.msgid));
    ForgetKeepsInv(DropA(s), s', m);
  }

  lemma PubackKeepsInv(s: System)
    requires Inv(s) && s.toA != [] && s.toA[0].Puback?
    ensures Inv(ASends(DropA(s), HandlePuback(s.a, s.toA[0].msgid)))
  {
    var id := s.toA[0].msgid;
    var i := Find(s.a.outbound, id);
    var s' := ASends(DropA(s), HandlePuback(s.a, id));
    assert s'.toB == s.toB;
    DropAKeepsInv(s);
    if i < |s.a.outbound| && s.a.outbound[i].qos == 1 {
      RemoveAtRecords(s.a.outbound, i);
      PubackKeeps(s.a, id);
      assert s.a.outbound[i] in s.a.outbound;
      ForgetKeepsInv(DropA(s), s', s.a.outbound[i]);
    } else {
      assert s' == DropA(s);
    }
  }

  lemma AReceivesKeepsInv(s: System)
    requires Inv(s) && s.toA != []
    ensures Inv(ASends(DropA(s), Handle(s.a, s.toA[0])))
  {
    var p := s.toA[0];
    var s' := ASends(DropA(s), Handle(s.a, p));
    DropAKeepsInv(s);
    var i := Find(s.a.outbound, p.msgid);
    if p.Puback? {
      PubackKeepsInv(s);
    } else if p.Pubcomp? && Completes(s.a, p.msgid) {
      CompleteKeepsInv(s);
    } else if p.Pubrec? && i < |s.a.outbound| && s.a.outbound[i].qos == 2 && s.a.outbound[i].next == AwaitPubrec {
      assert s.a.outbound[i] in s.a.outbound;
      ReleaseKeepsInv(s, s.a.outbound[i]);
    } else {
      assert s'.toB == s.toB + [] == s.toB;
      assert s' == DropA(s);
    }
  }

  lemma CrashInPubrelKeepsInv(s: System, keys: seq<Key>)
    requires Inv(s) && Possible(s, CrashInPubrel(keys))
    ensures Inv(Apply(s, CrashInPubrel(keys)))
  {
    hide Inv, Handle, Restore;
    CutKeepsInv(s, RestartB(keys));
    InterruptedKeepsInv(Apply(s, RestartB(keys)), Apply(s, CrashInPubrel(keys)));
  }

  lemma CrashKeepsInv(s: System, keys: seq<Key>)
    requires Inv(s) && Possible(s, CrashInPubcomp(keys))
    ensures Inv(Apply(s, CrashInPubcomp(keys)))
  {
    var id := s.toA[0].msgid;
    CompleteKeepsInv(s);
    CrashBetweenRemovals(s.a, id, keys);
    var s1 := ASends(DropA(s), HandlePubcomp(s.a, id));
    var s' := Apply(s, CrashInPubcomp(keys));
    SameEmpty(s'.a.inbound);
    LosingKeepsInv(s1, s', [], []);
  }

  // ---------------------------------------------------------------- the theorems

  lemma ApplyKeepsInv(s: System, act: Action)
    requires Inv(s)
    ensures Inv(Apply(s, act))
  {
    if Possible(s, act) {
      match act
      case PublishNew(topic, payload, qos, retain) => AcceptKeepsInv(s, topic, payload, qos, retain);
      case Retry(chosen) => RetriesKeepInv(s, Chosen(s.a.outbound, chosen));
      case BReceives => BReceivesKeepsInv(s);
      case AReceives => AReceivesKeepsInv(s);
      case Lose(towardsB, k) => LoseKeepsInv(s, towardsB, k);
      case Disconnect => CutKeepsInv(s, act);
      case Reconnect(n) =>
        var s1 := s.(connected := true);
        LosingKeepsInv(s, s1, Identity(|s.toB|), Identity(|s.toA|));
        RetriesKeepInv(s1, s.a.outbound[..n]);
      case RestartA(keys) => CutKeepsInv(s, act);
      case RestartB(keys) => CutKeepsInv(s, act);
      case CrashInPubcomp(keys) => CrashKeepsInv(s, keys);
      case CrashInPubrel(keys) => CrashInPubrelKeepsInv(s, keys);
    }
  }

  lemma {:induction false} RunKeepsInv(acts: seq<Action>)
    ensures Inv(Run(acts))
  {
    if acts != [] {
      RunKeepsInv(acts[..|acts| - 1]);
      ApplyKeepsInv(Run(acts[..|acts| - 1]), acts[|acts| - 1]);
    }
  }

  /** Exactly once: over every run, each hand-over that B's handler has completed is of a publication A accepted,
      unchanged, and no publication has two of them; and every accepted publication has one or is still on
      record at A, so A drops its record only after the hand-over. */
  lemma {:induction false} ExactlyOnceDelivery(acts: seq<Action>)
    ensures var s := Run(acts);
      && (forall i :: 0 <= i < |s.delivered| ==> s.delivered[i] in s.published)
      && (forall i, j :: 0 <= i < j < |s.delivered| ==> s.delivered[i] != s.delivered[j])
      && (forall j, k :: 0 <= j < k < |s.published| ==> s.published[j] != s.published[k])
      && (forall k :: 0 <= k < |s.published| ==>
            s.published[k] in s.delivered ||
            exists m :: m in s.a.outbound && m.qos == 2 && Handover(2, m.retain, m.publication) == s.published[k])
  {
    RunKeepsInv(acts);
    var s := Run(acts);
    forall k | 0 <= k < |s.published|
      ensures s.published[k] in s.delivered ||
        exists m :: m in s.a.outbound && m.qos == 2 && Handover(2, m.retain, m.publication) == s.published[k]
    {
      if IsDelivered(s.delivered, k) {
        var i :| 0 <= i < |s.delivered| && s.delivered[i].publication.serial == k;
        assert s.delivered[i] == s.published[k];
      } else {
        assert HasSerial(s.a.outbound, k);
      }
    }
  }

  /** The ids of A's outbound records stay pairwise distinct and the store stays recoverable on both
      sides, over every run. */
  lemma {:induction false} IdsStayDistinct(acts: seq<Action>)
    ensures DistinctIds(Run(acts).a.outbound) && DistinctIds(Run(acts).b.inbound)
    ensures Recoverable(Run(acts).a) && Recoverable(Run(acts).b)
  {
    RunKeepsInv(acts);
  }
}
