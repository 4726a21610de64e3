/** The client object of MQTTProtocolClient.c: handlers that update the message lists in place, each
    proved to do what the handler functions say. */
module Client {
  import opened Sequences
  import opened MqttTypes
  import Spec = ClientHandlers
  import opened Session

  class Client {
    var outboundMsgs: seq<Message>
    var inboundMsgs: seq<Message>
    var msgID: nat
    var store: map<Key, Packet>
    var unreadable: set<Key> // stored keys whose bytes make no packet

    ghost function State(): ClientState
      reads this
    {
      ClientState(outboundMsgs, inboundMsgs, msgID, store)
    }

    /** Opens a client on an existing store, reading its keys in the given order; `bad` are the keys whose
        stored bytes make no packet. */
    constructor Restore(saved: map<Key, Packet>, bad: set<Key>, keys: seq<Key>)
      ensures Spec.Opening(State(), unreadable) == Spec.Open(saved, bad, keys)
      ensures unreadable == bad - set k | k in keys
      ensures bad == {} ==> State() == Spec.Restore(saved, keys)
    {
      outboundMsgs, inboundMsgs, msgID, store, unreadable := [], [], 0, saved, bad;
      new;
      var i := 0;
      ghost var start := Spec.Opening(ClientState([], [], 0, saved), bad);
      while i < |keys|
        invariant 0 <= i <= |keys|
        invariant Spec.Opening(State(), unreadable) == Spec.ReadKeys(start, keys[..i])
      {
        assert keys[..i + 1][..i] == keys[..i];
        ReadRecord(keys[i]);
        i := i + 1;
      }
      assert keys[..i] == keys;
      Spec.BadRecordsGo(start, keys);
      Spec.OpenReadable(saved, keys);
      outboundMsgs := Spec.WrapMsgId(outboundMsgs);
    }

    method ReadRecord(key: Key)
      modifies this
      ensures Spec.Opening(State(), unreadable) == Spec.ReadKey(old(Spec.Opening(State(), unreadable)), key)
    {
      if key in unreadable {
        unreadable := unreadable - {key};
      } else if key in store {
        var pack := store[key];
        match key {
          case Received(_) =>
            if pack.Publish? {
              inboundMsgs := inboundMsgs + [Spec.CreateMessage(pack).(next := AwaitPubrel)];
            }
          case Sent(_) =>
            if pack.Publish? {
              var msg := Spec.CreateMessage(pack);
              if Rel(msg.msgid) in store || Rel(msg.msgid) in unreadable {
                msg := msg.(next := AwaitPubcomp);
              }
              InsertInOrder(msg);
            }
          case Rel(_) =>
            if pack.Pubrel? && Sent(pack.msgid) !in store && Sent(pack.msgid) !in unreadable {
              store := RemoveKey(store, key);
            }
        }
      }
    }

    method InsertInOrder(msg: Message)
      modifies this`outboundMsgs
      ensures outboundMsgs == Spec.InsertInOrder(old(outboundMsgs), msg)
    {
      var list := outboundMsgs;
      var index := 0;
      while index < |list| && msg.msgid >= list[index].msgid
        invariant 0 <= index <= |list|
        invariant Spec.InsertInOrder(list, msg) == list[..index] + Spec.InsertInOrder(list[index..], msg)
      {
        Spec.InsertSkips(list, index, msg);
        index := index + 1;
      }
      Spec.InsertStops(list[index..], msg);
      outboundMsgs := list[..index] + ([msg] + list[index..]);
    }

    /** The search comes to an end from a nonzero counter, or when some id is free. */
    method AssignMsgId() returns (id: nat)
      requires msgID <= MAX_MSG_ID
      requires msgID != 0 || exists x :: 1 <= x <= MAX_MSG_ID && x !in Ids(outboundMsgs)
      modifies this`msgID
      ensures id == Spec.NextId(old(msgID), Ids(outboundMsgs))
      ensures msgID == if id != 0 then id else old(msgID)
    {
      var start, list := msgID, outboundMsgs;
      ghost var used, k := Ids(list), 1;
      hide Ids, Spec.NthId;
      NthIdStep(start, 1);
      id := if start == MAX_MSG_ID then 1 else start + 1;
      while id != 0 && Find(list, id) < |list|
        invariant msgID == start
        invariant 1 <= k <= MAX_MSG_ID && id == (if Spec.NthId(start, k) == start then 0 else Spec.NthId(start, k))
        invariant Spec.NextId(start, used) == Spec.NextIdFrom(start, used, k)
        invariant start == 0 ==> forall x :: 1 <= x < k ==> x in used
        decreases MAX_MSG_ID - k
      {
        FindHits(list, id);
        NthIdStep(start, k);
        id := if id == MAX_MSG_ID then 1 else id + 1;
        if id == start {
          id := 0;
        }
        assert k < MAX_MSG_ID;
        k := k + 1;
        NthIdStep(start, k);
      }
      if id != 0 {
        FindMisses(list, id);
        msgID := id;
      }
    }

    method StartPublish(p: Packet) returns (sent: seq<Packet>)
      requires p.Publish?
      modifies this
      ensures Outcome(State(), sent, []) == Spec.StartPublish(old(State()), p)
      ensures Spec.OnlyId(old(State()), State(), p.msgid) && inboundMsgs == old(inboundMsgs)
      ensures p.qos > 0 ==> old(outboundMsgs) < outboundMsgs && Sent(p.msgid) in store && store[Sent(p.msgid)] == p
      ensures p.qos == 0 ==> State() == old(State())
      ensures sent == [p]
    {
      if p.qos > 0 {
        outboundMsgs := outboundMsgs + [Spec.CreateMessage(p)];
      }
      store := Spec.Persist(store, p);
      sent := [p];
    }

    method HandlePublish(p: Packet) returns (sent: seq<Packet>, handed: seq<Handover>)
      requires p.Publish?
      modifies this
      ensures Outcome(State(), sent, handed) == Spec.HandlePublish(old(State()), p)
      ensures Spec.OnlyId(old(State()), State(), p.msgid) && outboundMsgs == old(outboundMsgs)
      ensures p.qos == 2 ==> handed == [] && Received(p.msgid) in store && p.msgid in Ids(inboundMsgs)
      ensures p.qos < 2 ==> handed == [Handover(p.qos, p.retain, p.publication)] && State() == old(State())
      ensures sent == if p.qos == 1 then [Puback(p.msgid)] else if p.qos == 2 then [Pubrec(p.msgid)] else []
    {
      sent, handed := [], [];
      if p.qos == 0 {
        handed := [Handover(0, p.retain, p.publication)];
      } else if p.qos == 1 {
        sent := [Puback(p.msgid)];
        handed := [Handover(1, p.retain, p.publication)];
      } else if p.qos == 2 {
        store := store[Received(p.msgid) := p];
        var m := Message(p.msgid, 2, p.retain, p.publication, AwaitPubrel);
        var i := Find(inboundMsgs, p.msgid);
        if i < |inboundMsgs| {
          Spec.RecordReplaced(inboundMsgs, i, m);
          inboundMsgs := inboundMsgs[i := m];
        } else {
          inboundMsgs := inboundMsgs + [m];
        }
        sent := [Pubrec(p.msgid)];
      }
    }

    method HandlePuback(id: nat)
      modifies this
      ensures Outcome(State(), [], []) == Spec.HandlePuback(old(State()), id)
      ensures Spec.OnlyId(old(State()), State(), id) && inboundMsgs == old(inboundMsgs)
      ensures outboundMsgs == old(outboundMsgs) || (Sent(id) !in store && |outboundMsgs| + 1 == |old(outboundMsgs)|)
      ensures var i := Find(old(outboundMsgs), id);
        outboundMsgs != old(outboundMsgs) <==> i < |old(outboundMsgs)| && old(outboundMsgs)[i].qos == 1
    {
      var i := Find(outboundMsgs, id);
      if i < |outboundMsgs| && outboundMsgs[i].qos == 1 {
        Spec.RecordRemoved(outboundMsgs, i);
        store := RemoveKey(store, Sent(id));
        outboundMsgs := RemoveAt(outboundMsgs, i);
      }
    }

    method HandlePubrec(id: nat) returns (sent: seq<Packet>)
      modifies this
      ensures Outcome(State(), sent, []) == Spec.HandlePubrec(old(State()), id)
      ensures Spec.OnlyId(old(State()), State(), id) && inboundMsgs == old(inboundMsgs)
          && Ids(outboundMsgs) == old(Ids(outboundMsgs))
      ensures if sent == [] then State() == old(State()) else sent == [Pubrel(id, false)] && Rel(id) in store
      ensures var i, was := Find(old(outboundMsgs), id), old(outboundMsgs);
        sent != [] <==> i < |was| && was[i].qos == 2 && was[i].next == AwaitPubrec
    {
      sent := [];
      var i := Find(outboundMsgs, id);
      if i < |outboundMsgs| && outboundMsgs[i].qos == 2 && outboundMsgs[i].next == AwaitPubrec {
        var rel := Pubrel(id, false);
        store := Spec.Persist(store, rel);
        sent := [rel];
        Spec.RecordReplaced(outboundMsgs, i, outboundMsgs[i].(next := AwaitPubcomp));
        outboundMsgs := outboundMsgs[i := outboundMsgs[i].(next := AwaitPubcomp)];
      }
    }

    method HandlePubrel(id: nat, dup: bool) returns (sent: seq<Packet>, handed: seq<Handover>)
      modifies this
      ensures Outcome(State(), sent, handed) == Spec.HandlePubrel(old(State()), id, dup)
      ensures Spec.OnlyId(old(State()), State(), id) && outboundMsgs == old(outboundMsgs)
      ensures if handed == [] then State() == old(State())
              else Received(id) !in store && |inboundMsgs| + 1 == |old(inboundMsgs)|
      ensures var i, was := Find(old(inboundMsgs), id), old(inboundMsgs);
        if i == |was| then handed == [] && sent == (if dup then [Pubcomp(id)] else [])
        else if was[i].qos == 2 && was[i].next == AwaitPubrel then
          handed == [Handover(2, was[i].retain, was[i].publication)] && sent == [Pubcomp(id)]
        else handed == [] && sent == []
    {
      sent, handed := [], [];
      var i := Find(inboundMsgs, id);
      if i == |inboundMsgs| {
        if dup {
          sent := [Pubcomp(id)];
        }
      } else {
        var m := inboundMsgs[i];
        if m.qos == 2 && m.next == AwaitPubrel {
          sent := [Pubcomp(id)];
          handed := [Handover(2, m.retain, m.publication)];
          store := RemoveKey(store, Received(id));
          Spec.RecordRemoved(inboundMsgs, i);
          inboundMsgs := RemoveAt(inboundMsgs, i);
        }
      }
    }

    method HandlePubcomp(id: nat)
      modifies this
      ensures Outcome(State(), [], []) == Spec.HandlePubcomp(old(State()), id)
      ensures Spec.OnlyId(old(State()), State(), id) && inboundMsgs == old(inboundMsgs)
      ensures outboundMsgs == old(outboundMsgs) ||
              (Sent(id) !in store && Rel(id) !in store && |outboundMsgs| + 1 == |old(outboundMsgs)|)
      ensures var i, was := Find(old(outboundMsgs), id), old(outboundMsgs);
        outboundMsgs != was <==> i < |was| && was[i].qos == 2 && was[i].next == AwaitPubcomp
    {
      var i := Find(outboundMsgs, id);
      if i < |outboundMsgs| && outboundMsgs[i].qos == 2 && outboundMsgs[i].next == AwaitPubcomp {
        store := RemoveKey(store, Sent(id));
        store := RemoveKey(store, Rel(id));
        Spec.RecordRemoved(outboundMsgs, i);
        outboundMsgs := RemoveAt(outboundMsgs, i);
      }
    }

    /** One retry pass.  `elapsed` gives the seconds since each record was last touched; the pass stops
        when `room` packets have been written, because the last one is still pending on the socket.
        `ks` are the positions gone over: on a reconnect (`regardless`) the first ones of the list, all of
        them when there is room; otherwise those whose time has come, all of them when there is room, and all
        up to the last one gone over when there is not.  A record for which no packet is due is passed over. */
    method Retries(retryInterval: int, regardless: bool, elapsed: seq<int>, room: nat)
      returns (sent: seq<Packet>, ghost ks: seq<nat>)
      requires |elapsed| == |outboundMsgs|
      modifies this`store
      ensures Outcome(State(), sent, []) == Spec.Retries(old(State()), Chosen(outboundMsgs, ks))
      ensures AllDue(elapsed, retryInterval, regardless, ks) && |sent| <= room
      ensures Increasing(ks)
      ensures forall k: nat :: Due(elapsed, retryInterval, k) && k !in ks ==> |sent| == room && Behind(ks, k)
      ensures forall p :: p in sent ==> (p.Publish? && p.dup) || (p.Pubrel? && !p.dup)
      ensures regardless ==> |ks| <= |outboundMsgs| && Chosen(outboundMsgs, ks) == outboundMsgs[..|ks|]
                             && (|sent| < room ==> |ks| == |outboundMsgs|)
    {
      var saved;
      sent, saved, ks := RetryPass(outboundMsgs, store, elapsed, retryInterval, regardless, room);
      store := saved;
      RetriesAreMarked(Chosen(outboundMsgs, ks));
    }
  }

  /** A PUBLISH is repeated with DUP set, a PUBREL without. */
  lemma {:induction false} RetriesAreMarked(l: seq<Message>)
    ensures forall p :: p in Spec.RetryPackets(l) ==> (p.Publish? && p.dup) || (p.Pubrel? && !p.dup)
  {
    if l != [] { RetriesAreMarked(l[..|l| - 1]); }
  }

  /** The loop of the retry pass. */
  method RetryPass(list: seq<Message>, store: map<Key, Packet>, elapsed: seq<int>, retryInterval: int,
      regardless: bool, room: nat)
    returns (sent: seq<Packet>, saved: map<Key, Packet>, ghost ks: seq<nat>)
    requires |elapsed| == |list|
    ensures sent == Spec.RetryPackets(Chosen(list, ks)) && saved == Spec.PersistAll(store, sent)
    ensures AllDue(elapsed, retryInterval, regardless, ks) && |sent| <= room
    ensures Increasing(ks)
    ensures forall k: nat :: Due(elapsed, retryInterval, k) && k !in ks ==> |sent| == room && Behind(ks, k)
    ensures regardless ==> |ks| <= |list| && Chosen(list, ks) == list[..|ks|] && (|sent| < room ==> |ks| == |list|)
  {
    sent, ks, saved := [], [], store;
    PassStarts(list, store, elapsed, retryInterval, regardless);
    NoneMissedYet(elapsed, retryInterval);
    hide Pass, Spec.RetryPacket, AllDue, Chosen, Spec.RetryPackets, Spec.PersistAll, Spec.Persist, NoneMissed,
         Increasing, Behind;
    var i, rate := 0, if retryInterval > 10 then retryInterval else 10;
    while (regardless || retryInterval > 0) && i < |list| && |sent| < room
      invariant 0 <= i <= |list| && |sent| <= room
      invariant NoneMissed(elapsed, retryInterval, i, ks)
      invariant Pass(list, store, elapsed, retryInterval, regardless, i, ks, sent, saved)
    {
      NextMissed(elapsed, retryInterval, i, ks);
      if regardless || elapsed[i] > rate {
        var packets := Spec.RetryPacket(list[i]);
        PassRetries(list, store, elapsed, retryInterval, regardless, i, ks, sent, saved);
        if packets != [] {
          saved := Spec.Persist(saved, packets[0]);
          sent := sent + [packets[0]];
        }
        ks := ks + [i];
      } else {
        PassSkips(list, store, elapsed, retryInterval, regardless, i, ks, sent, saved);
      }
      i := i + 1;
    }
    PassEnds(list, store, elapsed, retryInterval, regardless, i, ks, sent, saved);
    MissedAtEnd(elapsed, retryInterval, i, ks);
  }

  /** The record at this position has not been touched for longer than the interval, and for more than ten
      seconds; an interval of zero or less turns retries off. */
  ghost predicate Due(elapsed: seq<int>, retryInterval: int, k: nat) {
    k < |elapsed| && retryInterval > 0 && elapsed[k] > retryInterval && elapsed[k] > 10
  }

  ghost predicate Increasing(ks: seq<nat>) {
    forall i, j :: 0 <= i < j < |ks| ==> ks[i] < ks[j]
  }

  /** The position lies behind all those in ks. */
  ghost predicate Behind(ks: seq<nat>, k: nat) {
    forall j :: 0 <= j < |ks| ==> ks[j] < k
  }

  /** No position below i whose time has come has been missed. */
  ghost predicate NoneMissed(elapsed: seq<int>, retryInterval: int, i: nat, ks: seq<nat>) {
    Increasing(ks) && Behind(ks, i) && forall k: nat :: k < i && Due(elapsed, retryInterval, k) ==> k in ks
  }

  lemma NoneMissedYet(elapsed: seq<int>, retryInterval: int)
    ensures NoneMissed(elapsed, retryInterval, 0, [])
  {
  }

  lemma NextMissed(elapsed: seq<int>, retryInterval: int, i: nat, ks: seq<nat>)
    requires NoneMissed(elapsed, retryInterval, i, ks)
    ensures NoneMissed(elapsed, retryInterval, i + 1, ks + [i])
    ensures !Due(elapsed, retryInterval, i) ==> NoneMissed(elapsed, retryInterval, i + 1, ks)
  {
  }

  lemma MissedAtEnd(elapsed: seq<int>, retryInterval: int, i: nat, ks: seq<nat>)
    requires NoneMissed(elapsed, retryInterval, i, ks)
    ensures Increasing(ks)
    ensures forall k: nat :: Due(elapsed, retryInterval, k) && k !in ks ==> i <= k < |elapsed| && Behind(ks, k)
  {
  }

  /** Every position in ks is one whose record is due for a retry. */
  ghost predicate AllDue(elapsed: seq<int>, retryInterval: int, regardless: bool, ks: seq<nat>) {
    forall j :: 0 <= j < |ks| ==>
      ks[j] < |elapsed| && (regardless || Due(elapsed, retryInterval, ks[j]))
  }

  /** The pass after its first i records. */
  ghost predicate Pass(list: seq<Message>, store: map<Key, Packet>, elapsed: seq<int>, retryInterval: int,
                       regardless: bool, i: nat, ks: seq<nat>, sent: seq<Packet>, saved: map<Key, Packet>)
  {
    && sent == Spec.RetryPackets(Chosen(list, ks)) && saved == Spec.PersistAll(store, sent)
    && AllDue(elapsed, retryInterval, regardless, ks)
    && (regardless ==> i <= |list| && |ks| == i && Chosen(list, ks) == list[..i])
  }

  lemma PassStarts(list: seq<Message>, store: map<Key, Packet>, elapsed: seq<int>, retryInterval: int, regardless: bool)
    ensures Pass(list, store, elapsed, retryInterval, regardless, 0, [], [], store)
  {
  }

  lemma PassSkips(list: seq<Message>, store: map<Key, Packet>, elapsed: seq<int>, retryInterval: int, regardless: bool,
                  i: nat, ks: seq<nat>, sent: seq<Packet>, saved: map<Key, Packet>)
    requires Pass(list, store, elapsed, retryInterval, regardless, i, ks, sent, saved) && !regardless
    ensures Pass(list, store, elapsed, retryInterval, regardless, i + 1, ks, sent, saved)
  {
  }

  /** One record is retried. */
  lemma PassRetries(list: seq<Message>, store: map<Key, Packet>, elapsed: seq<int>, retryInterval: int,
                    regardless: bool, i: nat, ks: seq<nat>, sent: seq<Packet>, saved: map<Key, Packet>)
    requires Pass(list, store, elapsed, retryInterval, regardless, i, ks, sent, saved)
    requires i < |list| == |elapsed|
    requires regardless || Due(elapsed, retryInterval, i)
    ensures var ps := Spec.RetryPacket(list[i]);
      && |ps| <= 1
      && if ps == [] then Pass(list, store, elapsed, retryInterval, regardless, i + 1, ks + [i], sent, saved)
         else Pass(list, store, elapsed, retryInterval, regardless, i + 1, ks + [i], sent + [ps[0]],
             Spec.Persist(saved, ps[0]))
  {
    var ps := Spec.RetryPacket(list[i]);
    ChosenOneMore(list, ks, i);
    RetryPacketsOneMore(Chosen(list, ks), list[i]);
    if ps != [] {
      assert ps == [ps[0]];
      PersistAllOneMore(store, sent, ps[0]);
    }
    SliceOneMore(list, i);
    Whole(sent);
    AllDueOneMore(elapsed, retryInterval, regardless, ks, i);
    hide Chosen, Spec.RetryPackets, Spec.PersistAll, Spec.Persist, AllDue;
  }

  lemma AllDueOneMore(elapsed: seq<int>, retryInterval: int, regardless: bool, ks: seq<nat>, i: nat)
    requires AllDue(elapsed, retryInterval, regardless, ks) && i < |elapsed|
    requires regardless || Due(elapsed, retryInterval, i)
    ensures AllDue(elapsed, retryInterval, regardless, ks + [i])
  {
  }

  lemma PassEnds(list: seq<Message>, store: map<Key, Packet>, elapsed: seq<int>, retryInterval: int, regardless: bool,
                 i: nat, ks: seq<nat>, sent: seq<Packet>, saved: map<Key, Packet>)
    requires Pass(list, store, elapsed, retryInterval, regardless, i, ks, sent, saved)
    ensures sent == Spec.RetryPackets(Chosen(list, ks)) && saved == Spec.PersistAll(store, sent)
    ensures AllDue(elapsed, retryInterval, regardless, ks)
    ensures regardless ==> |ks| == i <= |list| && Chosen(list, ks) == list[..i]
  {
  }

  lemma ChosenOneMore(l: seq<Message>, ks: seq<nat>, i: nat)
    requires i < |l|
    ensures Chosen(l, ks + [i]) == Chosen(l, ks) + [l[i]]
  {
    assert (ks + [i])[..|ks|] == ks;
  }

  lemma RetryPacketsOneMore(l: seq<Message>, m: Message)
    ensures Spec.RetryPackets(l + [m]) == Spec.RetryPackets(l) + Spec.RetryPacket(m)
  {
    assert (l + [m])[..|l|] == l;
  }

  lemma PersistAllOneMore(store: map<Key, Packet>, ps: seq<Packet>, p: Packet)
    ensures Spec.PersistAll(store, ps + [p]) == Spec.Persist(Spec.PersistAll(store, ps), p)
  {
    assert (ps + [p])[..|ps|] == ps;
  }

  /** One increment of the counter is one step along the successors. */
  lemma NthIdStep(msgID: nat, k: nat)
    requires msgID <= MAX_MSG_ID && k >= 1
    ensures Spec.NthId(msgID, 1) == if msgID == MAX_MSG_ID then 1 else msgID + 1
    ensures Spec.NthId(msgID, k + 1) == if Spec.NthId(msgID, k) == MAX_MSG_ID then 1 else Spec.NthId(msgID, k) + 1
    ensures 1 <= k <= MAX_MSG_ID ==> (Spec.NthId(msgID, k) == msgID <==> k == MAX_MSG_ID && msgID != 0)
    ensures msgID == 0 && k <= MAX_MSG_ID ==> Spec.NthId(msgID, k) == k
  {
  }

  lemma FindHits(l: seq<Message>, id: nat)
    requires Find(l, id) < |l|
    ensures id in Ids(l)
  {
    assert l[Find(l, id)] in l;
  }

  lemma FindMisses(l: seq<Message>, id: nat)
    requires Find(l, id) == |l|
    ensures id !in Ids(l)
  {
    forall m | m in l ensures m.msgid != id {
      var j :| 0 <= j < |l| && l[j] == m;
    }
  }
}
