/** Crash and restart: the store determines the in-flight state of both directions. */
module StoreRecovery {
  import opened Sequences
  import opened MqttTypes
  import opened ClientHandlers
  import opened Session

  // ---------------------------------------------------------------- what the store must hold

  ghost predicate GoodRecords(c: ClientState) {
    && DistinctIds(c.outbound) && DistinctIds(c.inbound)
    && (forall m :: m in c.outbound ==>
          (m.qos == 1 && m.next == NotSet) || (m.qos == 2 && m.next in {AwaitPubrec, AwaitPubcomp}))
    && (forall m :: m in c.inbound ==> m.qos == 2 && m.next == AwaitPubrel)
  }

  ghost predicate SavesOut(store: map<Key, Packet>, m: Message) {
    && Sent(m.msgid) in store && store[Sent(m.msgid)].Publish?
    && CreateMessage(store[Sent(m.msgid)]).(next := m.next) == m
    && (m.next == AwaitPubcomp <==> Rel(m.msgid) in store)
  }

  ghost predicate SavesIn(store: map<Key, Packet>, m: Message) {
    && Received(m.msgid) in store && store[Received(m.msgid)].Publish?
    && CreateMessage(store[Received(m.msgid)]).(next := AwaitPubrel) == m
  }

  ghost predicate HasId(l: seq<Message>, id: nat) {
    exists m :: m in l && m.msgid == id
  }

  /** Every key belongs to a record, except the `sc-` keys of the ids in `orphans`. */
  ghost predicate NoStrayKeys(c: ClientState, orphans: set<nat>) {
    forall k :: k in c.store ==>
      match k
      case Sent(id) => HasId(c.outbound, id)
      case Received(id) => HasId(c.inbound, id)
      case Rel(id) => c.store[k].Pubrel? && c.store[k].msgid == id && (HasId(c.outbound, id) <==> id !in orphans)
  }

  ghost predicate StoreHolds(c: ClientState, orphans: set<nat>) {
    && (forall m :: m in c.outbound ==> SavesOut(c.store, m))
    && (forall m :: m in c.inbound ==> SavesIn(c.store, m))
    && NoStrayKeys(c, orphans)
  }

  /** The store determines the records: the invariant kept at every handler boundary. */
  ghost predicate Recoverable(c: ClientState) {
    GoodRecords(c) && StoreHolds(c, {})
  }

  ghost predicate SameRecords(l: seq<Message>, l': seq<Message>) {
    forall m :: m in l <==> m in l'
  }

  lemma HasIdFind(l: seq<Message>, id: nat)
    ensures HasId(l, id) <==> Find(l, id) < |l|
  {
    if m :| m in l && m.msgid == id {
      var j :| 0 <= j < |l| && l[j] == m;
      assert !(j < Find(l, id));
    }
    if Find(l, id) < |l| { assert l[Find(l, id)] in l; }
  }

  lemma SameIdSameRecord(l: seq<Message>, i: nat, m: Message)
    requires DistinctIds(l) && m in l && i < |l| && l[i].msgid == m.msgid
    ensures l[i] == m
  {
  }

  lemma RemoveAtRecords(l: seq<Message>, i: nat)
    requires i < |l| && DistinctIds(l)
    ensures DistinctIds(RemoveAt(l, i))
    ensures forall m :: m in RemoveAt(l, i) <==> m in l && m.msgid != l[i].msgid
  {
    var r := RemoveAt(l, i);
    forall j | 0 <= j < |r| ensures r[j] == l[if j < i then j else j + 1] {}
    forall m | m in l && m.msgid != l[i].msgid ensures m in r {
      var j :| 0 <= j < |l| && l[j] == m;
      assert r[if j < i then j else j - 1] == m;
    }
  }

  lemma UpdateRecords(l: seq<Message>, i: nat, m: Message)
    requires i < |l| && DistinctIds(l) && m.msgid == l[i].msgid
    ensures DistinctIds(l[i := m])
    ensures forall x :: x in l[i := m] <==> x == m || (x in l && x.msgid != m.msgid)
  {
    var r := l[i := m];
    assert r[i] == m;
    forall x | x in l && x.msgid != m.msgid ensures x in r {
      var j :| 0 <= j < |l| && l[j] == x;
      assert r[j] == x;
    }
  }

  // ---------------------------------------------------------------- every handler keeps it

  lemma PubackKeeps(c: ClientState, id: nat)
    requires Recoverable(c)
    ensures Recoverable(HandlePuback(c, id).client)
  {
    var i := Find(c.outbound, id);
    var c' := HandlePuback(c, id).client;
    if c' != c {
      assert SavesOut(c.store, c.outbound[i]);
      RemoveAtRecords(c.outbound, i);
      hide RemoveAt, Find;
      RecordGone(c, c', id);
    }
  }

  /** A record leaves the outbound list together with its keys. */
  lemma RecordGone(c: ClientState, c': ClientState, id: nat)
    requires Recoverable(c) && DistinctIds(c'.outbound) && c'.inbound == c.inbound
    requires forall m :: m in c'.outbound <==> m in c.outbound && m.msgid != id
    requires c'.store == RemoveKey(RemoveKey(c.store, Sent(id)), Rel(id))
    ensures Recoverable(c')
  {
    forall m | m in c'.outbound ensures SavesOut(c'.store, m) { assert SavesOut(c.store, m); }
    forall m | m in c'.inbound ensures SavesIn(c'.store, m) { assert SavesIn(c.store, m); }
    forall x | HasId(c.outbound, x) && x != id ensures HasId(c'.outbound, x) {
      var m :| m in c.outbound && m.msgid == x;
      assert m in c'.outbound;
    }
  }

  lemma PubrecKeeps(c: ClientState, id: nat)
    requires Recoverable(c)
    ensures Recoverable(HandlePubrec(c, id).client)
  {
    var i := Find(c.outbound, id);
    var c' := HandlePubrec(c, id).client;
    if c' != c {
      var m0 := c.outbound[i].(next := AwaitPubcomp);
      UpdateRecords(c.outbound, i, m0);
      assert SavesOut(c.store, c.outbound[i]);
      forall m | m in c'.outbound ensures SavesOut(c'.store, m) { assert m == m0 || SavesOut(c.store, m); }
      forall m | m in c'.inbound ensures SavesIn(c'.store, m) { assert SavesIn(c.store, m); }
      forall x | HasId(c.outbound, x) ensures HasId(c'.outbound, x) {
        var m :| m in c.outbound && m.msgid == x;
        assert m0 in c'.outbound && (m in c'.outbound || x == id);
      }
    }
  }

  lemma PubcompKeeps(c: ClientState, id: nat)
    requires Recoverable(c)
    ensures Recoverable(HandlePubcomp(c, id).client)
  {
    var i := Find(c.outbound, id);
    var c' := HandlePubcomp(c, id).client;
    if c' != c {
      RemoveAtRecords(c.outbound, i);
      hide RemoveAt, Find;
      RecordGone(c, c', id);
    }
  }

  lemma PublishKeeps(c: ClientState, p: Packet)
    requires Recoverable(c) && p.Publish?
    ensures Recoverable(HandlePublish(c, p).client)
  {
    var i := Find(c.inbound, p.msgid);
    var c' := HandlePublish(c, p).client;
    if p.qos == 2 {
      var m0 := Message(p.msgid, 2, p.retain, p.publication, AwaitPubrel);
      if i < |c.inbound| { UpdateRecords(c.inbound, i, m0); }
      assert m0 in c'.inbound;
      forall m | m in c'.outbound ensures SavesOut(c'.store, m) { assert SavesOut(c.store, m); }
      forall m | m in c'.inbound ensures SavesIn(c'.store, m) { assert m == m0 || SavesIn(c.store, m); }
      forall x | HasId(c.inbound, x) ensures HasId(c'.inbound, x) {
        var m :| m in c.inbound && m.msgid == x;
        assert m in c'.inbound || x == p.msgid;
      }
    }
  }

  lemma PubrelKeeps(c: ClientState, id: nat, dup: bool)
    requires Recoverable(c)
    ensures Recoverable(HandlePubrel(c, id, dup).client)
  {
    var i := Find(c.inbound, id);
    var c' := HandlePubrel(c, id, dup).client;
    if c' != c {
      RemoveAtRecords(c.inbound, i);
      forall m | m in c'.outbound ensures SavesOut(c'.store, m) { assert SavesOut(c.store, m); }
      forall m | m in c'.inbound ensures SavesIn(c'.store, m) { assert SavesIn(c.store, m); }
      forall x | HasId(c.inbound, x) && x != id ensures HasId(c'.inbound, x) {
        var m :| m in c.inbound && m.msgid == x;
        assert m in c'.inbound;
      }
    }
  }

  lemma HandleKeepsRecoverable(c: ClientState, p: Packet)
    requires Recoverable(c)
    ensures Recoverable(Handle(c, p).client)
  {
    match p
    case Publish(_, _, _, _, _) => PublishKeeps(c, p);
    case Puback(id) => PubackKeeps(c, id);
    case Pubrec(id) => PubrecKeeps(c, id);
    case Pubrel(id, dup) => PubrelKeeps(c, id, dup);
    case Pubcomp(id) => PubcompKeeps(c, id);
  }

  lemma StartPublishKeepsRecoverable(c: ClientState, p: Packet)
    requires Recoverable(c) && p.Publish? && p.qos <= 2 && (p.qos > 0 ==> p.msgid !in Ids(c.outbound))
    ensures Recoverable(StartPublish(c, p).client)
  {
    if p.qos > 0 {
      var c' := StartPublish(c, p).client;
      var m0 := CreateMessage(p);
      assert c'.outbound[|c.outbound|] == m0;
      assert forall m :: m in c'.outbound <==> m in c.outbound || m == m0;
      assert Rel(p.msgid) !in c.store;
      forall m | m in c'.outbound ensures SavesOut(c'.store, m) { assert m == m0 || SavesOut(c.store, m); }
      forall m | m in c'.inbound ensures SavesIn(c'.store, m) { assert SavesIn(c.store, m); }
    }
  }

  lemma RetryPersistKeeps(c: ClientState, m: Message)
    requires Recoverable(c) && m in c.outbound
    ensures Recoverable(c.(store := PersistAll(c.store, RetryPacket(m))))
  {
    assert SavesOut(c.store, m);
    var ps := RetryPacket(m);
    assert ps[..|ps| - 1] == [] && PersistAll(c.store, []) == c.store;
    var c' := c.(store := PersistAll(c.store, ps));
    assert c'.store == Persist(c.store, ps[0]);
    forall x | x in c'.outbound ensures SavesOut(c'.store, x) { assert SavesOut(c.store, x); }
    forall x | x in c'.inbound ensures SavesIn(c'.store, x) { assert SavesIn(c.store, x); }
  }

  lemma {:induction false} PersistAllAppend(store: map<Key, Packet>, p: seq<Packet>, q: seq<Packet>)
    ensures PersistAll(store, p + q) == PersistAll(PersistAll(store, p), q)
  {
    if q == [] {
      assert p + q == p;
    } else {
      PersistAllAppend(store, p, q[..|q| - 1]);
      assert (p + q)[..|p + q| - 1] == p + q[..|q| - 1];
    }
  }

  lemma {:induction false} RetriesKeepRecoverable(c: ClientState, l: seq<Message>)
    requires Recoverable(c) && forall m :: m in l ==> m in c.outbound
    ensures Recoverable(Retries(c, l).client)
  {
    if l != [] {
      var l' := l[..|l| - 1];
      RetriesKeepRecoverable(c, l');
      PersistAllAppend(c.store, RetryPackets(l'), RetryPacket(l[|l| - 1]));
      RetryPersistKeeps(Retries(c, l').client, l[|l| - 1]);
    }
  }

  // ---------------------------------------------------------------- restore rebuilds it

  ghost predicate Sorted(l: seq<Message>) {
    forall i, j :: 0 <= i < j < |l| ==> l[i].msgid < l[j].msgid
  }

  lemma {:induction false} InsertInOrderSorts(l: seq<Message>, m: Message)
    requires Sorted(l) && !HasId(l, m.msgid)
    ensures Sorted(InsertInOrder(l, m))
    ensures forall x :: x in InsertInOrder(l, m) <==> x == m || x in l
  {
    if l != [] && m.msgid >= l[0].msgid {
      assert l[0] in l && forall x :: x in l <==> x == l[0] || x in l[1..];
      InsertInOrderSorts(l[1..], m);
      SortedInFront(l[0], InsertInOrder(l[1..], m));
    }
  }

  lemma SortedInFront(x: Message, r: seq<Message>)
    requires Sorted(r) && forall y :: y in r ==> x.msgid < y.msgid
    ensures Sorted([x] + r) && forall y :: y in [x] + r <==> y == x || y in r
  {
  }

  /** What the restore loop has rebuilt after the keys in `done`. */
  ghost predicate Rebuilt(c: ClientState, r: ClientState, orphans: set<nat>, done: seq<Key>) {
    && Sorted(r.outbound) && DistinctIds(r.inbound) && r.msgID == 0
    && (forall m :: m in r.outbound <==> m in c.outbound && Sent(m.msgid) in done)
    && (forall m :: m in r.inbound <==> m in c.inbound && Received(m.msgid) in done)
    && (forall k :: k in r.store <==> k in c.store && !(k.Rel? && k.id in orphans && k in done))
    && (forall k :: k in r.store ==> r.store[k] == c.store[k])
  }

  lemma RestoreSent(c: ClientState, r: ClientState, orphans: set<nat>, done: seq<Key>, id: nat)
    requires GoodRecords(c) && StoreHolds(c, orphans)
    requires Rebuilt(c, r, orphans, done) && Sent(id) in c.store && Sent(id) !in done
    ensures Rebuilt(c, RestoreKey(r, Sent(id)), orphans, done + [Sent(id)])
  {
    var m :| m in c.outbound && m.msgid == id;
    assert SavesOut(c.store, m);
    assert !HasId(r.outbound, id);
    InsertInOrderSorts(r.outbound, m);
    var r' := RestoreKey(r, Sent(id));
    assert r' == r.(outbound := InsertInOrder(r.outbound, m));
    forall x | x in c.outbound && x.msgid == id ensures x == m {}
  }

  lemma RestoreReceived(c: ClientState, r: ClientState, orphans: set<nat>, done: seq<Key>, id: nat)
    requires GoodRecords(c) && StoreHolds(c, orphans)
    requires Rebuilt(c, r, orphans, done) && Received(id) in c.store && Received(id) !in done
    ensures Rebuilt(c, RestoreKey(r, Received(id)), orphans, done + [Received(id)])
  {
    var m :| m in c.inbound && m.msgid == id;
    assert SavesIn(c.store, m);
    forall x | x in c.inbound && x.msgid == id ensures x == m {}
    assert RestoreKey(r, Received(id)) == r.(inbound := r.inbound + [m]);
  }

  lemma RestoreRel(c: ClientState, r: ClientState, orphans: set<nat>, done: seq<Key>, id: nat)
    requires GoodRecords(c) && StoreHolds(c, orphans)
    requires Rebuilt(c, r, orphans, done) && Rel(id) in c.store && Rel(id) !in done
    ensures Rebuilt(c, RestoreKey(r, Rel(id)), orphans, done + [Rel(id)])
  {
    RelFits(c, orphans, id);
    RestoredRel(r, id);
    hide GoodRecords, StoreHolds, HasId, RestoreKey, Sorted, DistinctIds;
  }

  lemma RelFits(c: ClientState, orphans: set<nat>, id: nat)
    requires GoodRecords(c) && StoreHolds(c, orphans) && Rel(id) in c.store
    ensures c.store[Rel(id)].Pubrel? && c.store[Rel(id)].msgid == id && (Sent(id) in c.store <==> id !in orphans)
  {
    if HasId(c.outbound, id) {
      var m :| m in c.outbound && m.msgid == id;
      assert SavesOut(c.store, m);
    }
  }

  lemma RestoredRel(r: ClientState, id: nat)
    requires Rel(id) in r.store && r.store[Rel(id)].Pubrel? && r.store[Rel(id)].msgid == id
    ensures RestoreKey(r, Rel(id)) == if Sent(id) in r.store then r else r.(store := RemoveKey(r.store, Rel(id)))
  {
  }

  lemma RestoreStep(c: ClientState, r: ClientState, orphans: set<nat>, done: seq<Key>, k: Key)
    requires GoodRecords(c) && StoreHolds(c, orphans)
    requires Rebuilt(c, r, orphans, done) && k in c.store && k !in done
    ensures Rebuilt(c, RestoreKey(r, k), orphans, done + [k])
  {
    match k
    case Sent(id) => RestoreSent(c, r, orphans, done, id);
    case Received(id) => RestoreReceived(c, r, orphans, done, id);
    case Rel(id) => RestoreRel(c, r, orphans, done, id);
  }

  lemma {:induction false} RestoreKeysRebuild(c: ClientState, orphans: set<nat>, keys: seq<Key>)
    requires GoodRecords(c) && StoreHolds(c, orphans)
    requires forall k :: k in keys ==> k in c.store
    requires forall i, j :: 0 <= i < j < |keys| ==> keys[i] != keys[j]
    ensures Rebuilt(c, RestoreKeys(ClientState([], [], 0, c.store), keys), orphans, keys)
  {
    if keys != [] {
      var keys', k := keys[..|keys| - 1], keys[|keys| - 1];
      RestoreKeysRebuild(c, orphans, keys');
      hide StoreHolds, GoodRecords, Rebuilt, RestoreKey;
      assert k !in keys';
      RestoreStep(c, RestoreKeys(ClientState([], [], 0, c.store), keys'), orphans, keys', k);
      assert keys == keys' + [k];
    }
  }

  lemma RotateKeepsRecords(l: seq<Message>, k: nat)
    requires k <= |l| && DistinctIds(l)
    ensures DistinctIds(RotateAt(l, k)) && SameRecords(l, RotateAt(l, k))
  {
    var r := RotateAt(l, k);
    assert l == l[..k] + l[k..];
    forall m ensures m in l <==> m in r {
      assert m in l <==> m in l[..k] || m in l[k..];
    }
    forall i, j | 0 <= i < j < |r| ensures r[i].msgid != r[j].msgid {
      var i' := if i < |l| - k then i + k else i - (|l| - k);
      var j' := if j < |l| - k then j + k else j - (|l| - k);
      assert r[i] == l[i'] && r[j] == l[j'];
    }
  }

  /** The heart of the recovery: whatever order the keys are listed in, `restore` rebuilds exactly the
      records of both directions, and clears the `sc-` keys that lost their `s-` key. */
  lemma RestoreRebuilds(c: ClientState, orphans: set<nat>, keys: seq<Key>)
    requires GoodRecords(c) && StoreHolds(c, orphans) && ListsKeys(c.store, keys)
    ensures var r := Restore(c.store, keys);
            SameRecords(r.outbound, c.outbound) && SameRecords(r.inbound, c.inbound) && Recoverable(r) && r.msgID == 0
  {
    RestoreKeysRebuild(c, orphans, keys);
    var r0 := RestoreKeys(ClientState([], [], 0, c.store), keys);
    RotateKeepsRecords(r0.outbound, WrapPoint(IdSeq(r0.outbound)));
    var r := Restore(c.store, keys);
    forall m | m in c.outbound ensures Sent(m.msgid) in keys { assert SavesOut(c.store, m); }
    forall m | m in c.inbound ensures Received(m.msgid) in keys { assert SavesIn(c.store, m); }
    assert SameRecords(r.outbound, c.outbound) && SameRecords(r.inbound, c.inbound);
    forall m | m in r.outbound ensures SavesOut(r.store, m) { assert SavesOut(c.store, m); }
    forall m | m in r.inbound ensures SavesIn(r.store, m) { assert SavesIn(c.store, m); }
    forall k | k in r.store
      ensures match k
              case Sent(id) => HasId(r.outbound, id)
              case Received(id) => HasId(r.inbound, id)
              case Rel(id) => r.store[k].Pubrel? && r.store[k].msgid == id && (HasId(r.outbound, id) <==> id !in {})
    {
      match k
      case Sent(id) => var m :| m in c.outbound && m.msgid == id; assert m in r.outbound;
      case Received(id) => var m :| m in c.inbound && m.msgid == id; assert m in r.inbound;
      case Rel(id) => var m :| m in c.outbound && m.msgid == id; assert m in r.outbound;
    }
  }

  /** A crash after the first of the two removals made on PUBCOMP recovers to the same records as if
      both had been made. */
  lemma CrashBetweenRemovals(c: ClientState, id: nat, keys: seq<Key>)
    requires Recoverable(c) && Completes(c, id) && ListsKeys(RemoveKey(c.store, Sent(id)), keys)
    ensures var r := Restore(RemoveKey(c.store, Sent(id)), keys);
            var done := HandlePubcomp(c, id).client;
            SameRecords(r.outbound, done.outbound) && SameRecords(r.inbound, done.inbound) && Recoverable(r)
                && r.msgID == 0
  {
    HalfRemovedHolds(c, id);
    hide Restore, HandlePubcomp, GoodRecords, StoreHolds, Completes;
    RestoreRebuilds(HalfRemoved(c, id), {id}, keys);
  }

  /** The records after a PUBCOMP, with the store as it is between the two removals. */
  function HalfRemoved(c: ClientState, id: nat): ClientState {
    HandlePubcomp(c, id).client.(store := RemoveKey(c.store, Sent(id)))
  }

  lemma HalfRemovedHolds(c: ClientState, id: nat)
    requires Recoverable(c) && Completes(c, id)
    ensures GoodRecords(HalfRemoved(c, id)) && StoreHolds(HalfRemoved(c, id), {id})
  {
    var done, half := HandlePubcomp(c, id).client, HalfRemoved(c, id);
    PubcompKeeps(c, id);
    var i := Find(c.outbound, id);
    RemoveAtRecords(c.outbound, i);
    assert c.outbound[i] in c.outbound && SavesOut(c.store, c.outbound[i]);
    forall m | m in half.outbound ensures SavesOut(half.store, m) { assert SavesOut(done.store, m); }
    forall m | m in half.inbound ensures SavesIn(half.store, m) { assert SavesIn(done.store, m); }
    assert !HasId(half.outbound, id);
    forall k | k in half.store && k != Rel(id) ensures k in done.store {}
  }

  /** The receiver's half of a release is not atomic: the publication is handed over before its key is removed.
      After a crash in between the record is restored, and the next PUBREL hands the publication over again;
      after a crash behind the removal it does not. */
  lemma CrashBeforeRemovalRepeats(c: ClientState, id: nat, dup: bool, dup': bool, keys: seq<Key>, keys': seq<Key>)
    requires Recoverable(c) && HandlePubrel(c, id, dup).handed != []
    requires ListsKeys(c.store, keys) && ListsKeys(HandlePubrel(c, id, dup).client.store, keys')
    ensures HandlePubrel(Restore(c.store, keys), id, dup').handed == HandlePubrel(c, id, dup).handed
    ensures HandlePubrel(Restore(HandlePubrel(c, id, dup).client.store, keys'), id, dup').handed == []
  {
    var m := c.inbound[Find(c.inbound, id)];
    assert m in c.inbound;
    var r := Restore(c.store, keys);
    RestoreRebuilds(c, {}, keys);
    var after := HandlePubrel(c, id, dup).client;
    RemoveAtRecords(c.inbound, Find(c.inbound, id));
    PubrelKeeps(c, id, dup);
    var r' := Restore(after.store, keys');
    RestoreRebuilds(after, {}, keys');
    hide Restore, RemoveAt;
    HasIdFind(r.inbound, id);
    SameIdSameRecord(r.inbound, Find(r.inbound, id), m);
    HasIdFind(r'.inbound, id);
  }
}
