/** Order recovery: sorted insertion of the restored ids followed by the largest-gap rotation gives the
    outbound list back as it was, exactly when its ids were in issue order and the gap in front of the oldest
    one is the largest. */
module OrderRecovery {
  import opened Sequences
  import opened MqttTypes
  import opened ClientHandlers
  import opened Session
  import opened StoreRecovery
  import opened ExactlyOnce
  import opened OrderedDelivery

  /** Steps from the first id to id x, counting cyclically over 1..65535. */
  function Offset(first: int, x: int): int {
    if x >= first then x - first else x - first + MAX_MSG_ID
  }

  /** Ids in issue order: they increase cyclically, without a full turn. */
  ghost predicate IssueOrder(ids: seq<int>) {
    && (forall i :: 0 <= i < |ids| ==> 1 <= ids[i] <= MAX_MSG_ID)
    && (forall i, j :: 0 <= i < j < |ids| ==> Offset(ids[0], ids[i]) < Offset(ids[0], ids[j]))
  }

  /** The steps from the newest id round to the oldest. */
  function FirstGap(ids: seq<int>): int
    requires ids != []
  {
    MAX_MSG_ID - Offset(ids[0], ids[|ids| - 1])
  }

  /** No gap between neighbours beats the one in front of the oldest id; a gap in the wrapped part, which
      the scan meets first, must be strictly smaller. */
  ghost predicate FirstGapWins(ids: seq<int>) {
    forall j :: 1 <= j < |ids| ==>
      var gap := Offset(ids[0], ids[j]) - Offset(ids[0], ids[j - 1]);
      if ids[j] < ids[0] then gap < FirstGap(ids) else gap <= FirstGap(ids)
  }

  // ---------------------------------------------------------------- what the scan finds

  function GapAt(ids: seq<int>, i: nat): int
    requires i < |ids|
  {
    if i == 0 then MAX_MSG_ID - ids[|ids| - 1] + ids[0] else ids[i] - ids[i - 1]
  }

  /** `r` is the first position of a largest gap. */
  ghost predicate FirstLargest(ids: seq<int>, r: nat) {
    && r < |ids|
    && (forall j :: 0 <= j < |ids| ==> GapAt(ids, j) <= GapAt(ids, r))
    && (forall j :: 0 <= j < r ==> GapAt(ids, j) < GapAt(ids, r))
  }

  lemma {:induction false} LargestGapFinds(ids: seq<int>, i: nat, best: nat)
    requires 1 <= i <= |ids| && best < i
    requires forall j :: 0 <= j < i ==> GapAt(ids, j) <= GapAt(ids, best)
    requires forall j :: 0 <= j < best ==> GapAt(ids, j) < GapAt(ids, best)
    ensures FirstLargest(ids, LargestGap(ids, i, GapAt(ids, best), best))
    decreases |ids| - i
  {
    if i < |ids| {
      if GapAt(ids, i) > GapAt(ids, best) {
        LargestGapFinds(ids, i + 1, i);
      } else {
        LargestGapFinds(ids, i + 1, best);
      }
    }
  }

  lemma FirstLargestUnique(ids: seq<int>, r: nat, w: nat)
    requires FirstLargest(ids, r) && FirstLargest(ids, w)
    ensures r == w
  {
    assert GapAt(ids, r) <= GapAt(ids, w) && GapAt(ids, w) <= GapAt(ids, r);
  }

  /** `wrapMsgID` picks a position exactly when it is the first one with a largest gap. */
  lemma WrapPointIs(ids: seq<int>, r: nat)
    requires r < |ids|
    ensures WrapPoint(ids) == r <==> FirstLargest(ids, r)
  {
    LargestGapFinds(ids, 1, 0);
    if FirstLargest(ids, r) { FirstLargestUnique(ids, r, WrapPoint(ids)); }
  }

  // ---------------------------------------------------------------- issue order is a rotation of sorted order

  /** How many ids were issued before the counter wrapped. */
  function Unwrapped(ids: seq<int>, i: nat): (p: nat)
    requires i <= |ids|
    ensures i <= p <= |ids|
    ensures p < |ids| ==> ids[p] < ids[0]
    ensures forall j :: i <= j < p ==> ids[j] >= ids[0]
    decreases |ids| - i
  {
    if i == |ids| || ids[i] < ids[0] then i else Unwrapped(ids, i + 1)
  }

  ghost predicate SortedIds(ids: seq<int>) {
    forall i, j :: 0 <= i < j < |ids| ==> ids[i] < ids[j]
  }

  lemma WrappedTail(ids: seq<int>)
    requires IssueOrder(ids) && ids != []
    ensures var p := Unwrapped(ids, 0); p > 0 && forall j :: p <= j < |ids| ==> ids[j] < ids[0]
  {
    var p := Unwrapped(ids, 0);
    forall j | p < j < |ids| ensures ids[j] < ids[0] {
      assert Offset(ids[0], ids[p]) < Offset(ids[0], ids[j]);
    }
  }

  lemma RotationSorted(ids: seq<int>)
    requires IssueOrder(ids) && ids != []
    ensures SortedIds(RotateAt(ids, Unwrapped(ids, 0)))
  {
    var p := Unwrapped(ids, 0);
    var r, n := RotateAt(ids, p), |ids| - p;
    WrappedTail(ids);
    RotatedIndex(ids, p);
    hide RotateAt;
    forall i, j | 0 <= i < j < |r| ensures r[i] < r[j] {
      if j < n {
        assert Offset(ids[0], ids[i + p]) < Offset(ids[0], ids[j + p]);
      } else if i >= n {
        assert Offset(ids[0], ids[i - n]) < Offset(ids[0], ids[j - n]);
      }
    }
  }

  /** Where the gap in front of the j-th issued id is found after the rotation. */
  function At(ids: seq<int>, p: nat, j: nat): (i: nat)
    requires j < |ids| && p <= |ids|
    ensures i < |ids|
  {
    if j < p then (if p == |ids| then j else j + (|ids| - p)) else j - p
  }

  lemma GapOfRotation(ids: seq<int>, j: nat)
    requires IssueOrder(ids) && 1 <= j < |ids|
    ensures var p := Unwrapped(ids, 0);
      GapAt(RotateAt(ids, p), At(ids, p, j)) == Offset(ids[0], ids[j]) - Offset(ids[0], ids[j - 1])
  {
    var p, k := Unwrapped(ids, 0), At(ids, Unwrapped(ids, 0), j);
    TailSide(ids, j - 1);
    TailSide(ids, j);
    hide RotateAt, Unwrapped, IssueOrder, GapAt, Offset;
    RotatedId(ids, p, k);
    if j == p {
      RotatedId(ids, p, |ids| - 1);
      GapAcross(ids, RotateAt(ids, p), j);
    } else {
      RotatedId(ids, p, k - 1);
      GapInside(ids, RotateAt(ids, p), k, j);
    }
  }

  lemma GapInside(ids: seq<int>, r: seq<int>, k: nat, j: nat)
    requires 0 < j < |ids| && 0 < k < |r| && r[k] == ids[j] && r[k - 1] == ids[j - 1]
    requires ids[j] < ids[0] <==> ids[j - 1] < ids[0]
    ensures GapAt(r, k) == Offset(ids[0], ids[j]) - Offset(ids[0], ids[j - 1])
  {
  }

  lemma GapAcross(ids: seq<int>, r: seq<int>, j: nat)
    requires 0 < j < |ids| && r != [] && r[0] == ids[j] < ids[0] <= ids[j - 1] == r[|r| - 1]
    ensures GapAt(r, 0) == Offset(ids[0], ids[j]) - Offset(ids[0], ids[j - 1])
  {
  }

  lemma TailSide(ids: seq<int>, j: nat)
    requires IssueOrder(ids) && j < |ids|
    ensures Unwrapped(ids, 0) > 0 && (ids[j] < ids[0] <==> j >= Unwrapped(ids, 0))
  {
    WrappedTail(ids);
  }

  lemma RotatedId(ids: seq<int>, p: nat, k: nat)
    requires p <= |ids| && k < |ids|
    ensures |RotateAt(ids, p)| == |ids| && RotateAt(ids, p)[k] == ids[if k < |ids| - p then k + p else k - (|ids| - p)]
  {
    RotatedIndex(ids, p);
  }

  lemma FirstGapOfRotation(ids: seq<int>)
    requires IssueOrder(ids) && ids != []
    ensures var p := Unwrapped(ids, 0); GapAt(RotateAt(ids, p), At(ids, p, 0)) == FirstGap(ids)
  {
    WrappedTail(ids);
    RotatedIndex(ids, Unwrapped(ids, 0));
    hide RotateAt;
  }

  /** The gap rule finds the oldest id exactly when no other gap beats the one in front of it. */
  lemma WrapPointOfIssueOrder(ids: seq<int>)
    requires IssueOrder(ids) && ids != []
    ensures var p := Unwrapped(ids, 0); WrapPoint(RotateAt(ids, p)) == At(ids, p, 0) <==> FirstGapWins(ids)
  {
    var p := Unwrapped(ids, 0);
    var r, at := RotateAt(ids, p), At(ids, p, 0);
    WrappedTail(ids);
    FirstGapOfRotation(ids);
    RotatedIndex(ids, p);
    forall j | 1 <= j < |ids|
      ensures GapAt(r, At(ids, p, j)) == Offset(ids[0], ids[j]) - Offset(ids[0], ids[j - 1])
    {
      GapOfRotation(ids, j);
    }
    hide RotateAt, GapAt, Offset;
    WrapPointIs(r, at);
    WinsIfLargest(ids, r, p);
    LargestIfWins(ids, r, p);
  }

  lemma LargestIfWins(ids: seq<int>, r: seq<int>, p: nat)
    requires |r| == |ids| && ids != [] && 0 < p <= |ids| && p == Unwrapped(ids, 0)
    requires forall j :: p <= j < |ids| ==> ids[j] < ids[0]
    requires GapAt(r, At(ids, p, 0)) == FirstGap(ids)
    requires forall j :: 1 <= j < |ids| ==>
        GapAt(r, At(ids, p, j)) == Offset(ids[0], ids[j]) - Offset(ids[0], ids[j - 1])
    ensures FirstGapWins(ids) ==> FirstLargest(r, At(ids, p, 0))
  {
    if FirstGapWins(ids) {
      var at := At(ids, p, 0);
      forall i | 0 <= i < |r| && i != at
        ensures GapAt(r, i) <= GapAt(r, at) && (i < at ==> GapAt(r, i) < GapAt(r, at))
      {
        var j := if p == |ids| then i else if i < |ids| - p then i + p else i - (|ids| - p);
        assert 1 <= j < |ids| && At(ids, p, j) == i;
        assert GapAt(r, At(ids, p, j)) == Offset(ids[0], ids[j]) - Offset(ids[0], ids[j - 1]);
        assert i < at ==> ids[j] < ids[0];
      }
    }
  }

  lemma WinsIfLargest(ids: seq<int>, r: seq<int>, p: nat)
    requires |r| == |ids| && ids != [] && 0 < p <= |ids| && p == Unwrapped(ids, 0)
    requires GapAt(r, At(ids, p, 0)) == FirstGap(ids)
    requires forall j :: 1 <= j < |ids| ==>
        GapAt(r, At(ids, p, j)) == Offset(ids[0], ids[j]) - Offset(ids[0], ids[j - 1])
    ensures FirstLargest(r, At(ids, p, 0)) ==> FirstGapWins(ids)
  {
    if FirstLargest(r, At(ids, p, 0)) {
      forall j | 1 <= j < |ids|
        ensures var gap := Offset(ids[0], ids[j]) - Offset(ids[0], ids[j - 1]);
                if ids[j] < ids[0] then gap < FirstGap(ids) else gap <= FirstGap(ids)
      {
        assert GapAt(r, At(ids, p, j)) <= FirstGap(ids);
        assert ids[j] < ids[0] ==> At(ids, p, j) < At(ids, p, 0);
      }
    }
  }

  // ---------------------------------------------------------------- back to the records

  lemma {:induction false} SortedUnique(l: seq<Message>, l': seq<Message>)
    requires Sorted(l) && Sorted(l') && SameRecords(l, l')
    ensures l == l'
  {
    if l == [] {
      if l' != [] { SomeRecord(l'); }
    } else {
      assert l[0] in l';
      var j :| 0 <= j < |l'| && l'[j] == l[0];
      assert l'[0] in l;
      var i :| 0 <= i < |l| && l[i] == l'[0];
      assert i == 0 && j == 0;
      assert l == [l[0]] + l[1..] && l' == [l[0]] + l'[1..];
      forall m ensures m in l[1..] <==> m in l'[1..] {
        assert m in l <==> m == l[0] || m in l[1..];
        assert m in l' <==> m == l[0] || m in l'[1..];
        assert l[0] !in l[1..] && l[0] !in l'[1..];
      }
      SortedUnique(l[1..], l'[1..]);
    }
  }

  lemma RotateBack<T>(l: seq<T>, p: nat)
    requires 0 < p <= |l|
    ensures RotateAt(RotateAt(l, p), if p == |l| then 0 else |l| - p) == l
  {
  }

  lemma RotationsOf(l: seq<Message>, p: nat, k: nat)
    requires 0 < p <= |l| && k < |l| && DistinctIds(l)
    ensures RotateAt(l, p) != [] && k <= |RotateAt(l, p)|
    ensures RotateAt(RotateAt(l, p), k) == l <==> k == if p == |l| then 0 else |l| - p
  {
    var r := RotateAt(l, p);
    RotateBack(l, p);
    RotatedIndex(l, p);
    RotatedIndex(r, k);
    hide RotateAt;
    if RotateAt(r, k) == l {
      assert r[k] == l[0];
    }
  }

  lemma SortedByIds(l: seq<Message>)
    requires SortedIds(IdSeq(l))
    ensures Sorted(l)
  {
    forall i, j | 0 <= i < j < |l| ensures l[i].msgid < l[j].msgid { assert IdSeq(l)[i] < IdSeq(l)[j]; }
  }

  lemma SortedRestore(c: ClientState, orphans: set<nat>, keys: seq<Key>) returns (sorted: seq<Message>)
    requires GoodRecords(c) && StoreHolds(c, orphans) && ListsKeys(c.store, keys)
    ensures Sorted(sorted) && SameRecords(sorted, c.outbound) && Restore(c.store, keys).outbound == WrapMsgId(sorted)
  {
    RestoreKeysRebuild(c, orphans, keys);
    sorted := RestoreKeys(ClientState([], [], 0, c.store), keys).outbound;
    forall m | m in c.outbound ensures Sent(m.msgid) in keys { assert SavesOut(c.store, m); }
  }

  lemma SortedIsRotation(l: seq<Message>, sorted: seq<Message>)
    requires IssueOrder(IdSeq(l)) && l != [] && DistinctIds(l) && Sorted(sorted) && SameRecords(sorted, l)
    ensures sorted == RotateAt(l, Unwrapped(IdSeq(l), 0)) && IdSeq(sorted) == RotateAt(IdSeq(l), Unwrapped(IdSeq(l), 0))
  {
    var p := Unwrapped(IdSeq(l), 0);
    var r := RotateAt(l, p);
    RotationSorted(IdSeq(l));
    assert IdSeq(r) == RotateAt(IdSeq(l), p);
    SortedByIds(r);
    RotateKeepsRecords(l, p);
    SortedUnique(sorted, r);
  }

  ghost predicate IdsInRange(ids: seq<int>) {
    forall i :: 0 <= i < |ids| ==> 1 <= ids[i] <= MAX_MSG_ID
  }

  /** Any rotation of sorted ids is in issue order. */
  lemma RotationIsIssueOrder(ids: seq<int>, k: nat)
    requires SortedIds(ids) && IdsInRange(ids) && k <= |ids|
    ensures IssueOrder(RotateAt(ids, k))
  {
    var r, n := RotateAt(ids, k), |ids| - k;
    RotatedIndex(ids, k);
    hide RotateAt;
    forall i, j | 0 <= i < j < |r| ensures Offset(r[0], r[i]) < Offset(r[0], r[j]) {
      assert r[0] == if k < |ids| then ids[k] else ids[0];
      assert r[i] == if i < n then ids[i + k] else ids[i - n];
      assert r[j] == if j < n then ids[j + k] else ids[j - n];
    }
  }

  lemma SortedHasSortedIds(l: seq<Message>)
    requires Sorted(l)
    ensures SortedIds(IdSeq(l))
  {
  }

  lemma SameIdRange(l: seq<Message>, l': seq<Message>)
    requires IdsInRange(IdSeq(l)) && SameRecords(l', l)
    ensures IdsInRange(IdSeq(l'))
  {
    var ids, ids' := IdSeq(l), IdSeq(l');
    forall i | 0 <= i < |ids'| ensures 1 <= ids'[i] <= MAX_MSG_ID {
      assert l'[i] in l;
      var j :| 0 <= j < |l| && l[j] == l'[i];
      assert ids[j] == ids'[i];
    }
  }

  lemma RotatedIds(l: seq<Message>, k: nat)
    requires k <= |l|
    ensures IdSeq(RotateAt(l, k)) == RotateAt(IdSeq(l), k)
  {
  }

  /** Whatever is restored comes in issue order. */
  lemma RestoredInIssueOrder(c: ClientState, orphans: set<nat>, keys: seq<Key>)
    requires GoodRecords(c) && StoreHolds(c, orphans) && ListsKeys(c.store, keys) && IdsInRange(IdSeq(c.outbound))
    ensures IssueOrder(IdSeq(Restore(c.store, keys).outbound))
  {
    var sorted := SortedRestore(c, orphans, keys);
    hide Restore, GoodRecords, StoreHolds;
    SortedHasSortedIds(sorted);
    SameIdRange(c.outbound, sorted);
    var k := WrapPoint(IdSeq(sorted));
    RotationIsIssueOrder(IdSeq(sorted), k);
    RotatedIds(sorted, k);
  }

  /** Whatever the order of the keys, a restart gives A's list back as it was if and only if it was in issue
      order and the gap in front of the oldest id wins. */
  lemma RestartRestoresOrder(c: ClientState, keys: seq<Key>)
    requires Recoverable(c) && ListsKeys(c.store, keys) && IdsInRange(IdSeq(c.outbound))
    ensures Restore(c.store, keys).outbound == c.outbound <==>
            IssueOrder(IdSeq(c.outbound)) && FirstGapWins(IdSeq(c.outbound))
  {
    hide GoodRecords, StoreHolds, Restore, ListsKeys, IssueOrder, FirstGapWins, IdSeq;
    RestoreGivesOrder(c, {}, keys);
  }

  /** The same for a store that holds release keys without a record. */
  lemma RestoreGivesOrder(c: ClientState, orphans: set<nat>, keys: seq<Key>)
    requires GoodRecords(c) && StoreHolds(c, orphans) && ListsKeys(c.store, keys) && IdsInRange(IdSeq(c.outbound))
    ensures Restore(c.store, keys).outbound == c.outbound <==>
            IssueOrder(IdSeq(c.outbound)) && FirstGapWins(IdSeq(c.outbound))
  {
    hide GoodRecords, StoreHolds, Restore, ListsKeys, IssueOrder, FirstGapWins, IdSeq;
    RestoredInIssueOrder(c, orphans, keys);
    if IssueOrder(IdSeq(c.outbound)) { IssueOrderRestored(c, orphans, keys); }
  }

  lemma IssueOrderRestored(c: ClientState, orphans: set<nat>, keys: seq<Key>)
    requires GoodRecords(c) && StoreHolds(c, orphans) && ListsKeys(c.store, keys) && IssueOrder(IdSeq(c.outbound))
    ensures Restore(c.store, keys).outbound == c.outbound <==> FirstGapWins(IdSeq(c.outbound))
  {
    var sorted := SortedRestore(c, orphans, keys);
    hide StoreHolds, Restore, ListsKeys, WrapMsgId, FirstGapWins, IssueOrder, DistinctIds;
    WrappedAsIssued(c.outbound, sorted);
  }

  lemma WrappedAsIssued(l: seq<Message>, sorted: seq<Message>)
    requires DistinctIds(l) && Sorted(sorted) && SameRecords(sorted, l) && IssueOrder(IdSeq(l))
    ensures WrapMsgId(sorted) == l <==> FirstGapWins(IdSeq(l))
  {
    if l == [] {
      SameEmpty(sorted);
      assert WrapMsgId([]) == [];
    } else {
      hide SameRecords, RotateAt, WrapPoint, Sorted, FirstGapWins, IssueOrder, DistinctIds;
      SortedIsRotation(l, sorted);
      WrapPointOfIssueOrder(IdSeq(l));
      WrappedTail(IdSeq(l));
      RotationsOf(l, Unwrapped(IdSeq(l), 0), WrapPoint(IdSeq(sorted)));
    }
  }

  /** A total span below half the id space is enough. */
  lemma ShortSpanWins(ids: seq<int>)
    requires IssueOrder(ids) && ids != [] && 2 * Offset(ids[0], ids[|ids| - 1]) < MAX_MSG_ID
    ensures FirstGapWins(ids)
  {
    forall j | 1 <= j < |ids|
      ensures Offset(ids[0], ids[j]) - Offset(ids[0], ids[j - 1]) < FirstGap(ids)
    {
      assert j < |ids| - 1 ==> Offset(ids[0], ids[j]) < Offset(ids[0], ids[|ids| - 1]);
    }
  }

  /** A restart of A inside an ordered run keeps the run ordered if and only if A's ids are in issue order and
      the gap in front of the oldest one wins. */
  lemma RestartKeepsOrder(s: System, keys: seq<Key>)
    requires Inv(s) && Possible(s, RestartA(keys))
    ensures KeepsOrder(s, RestartA(keys)) <==>
            IssueOrder(IdSeq(s.a.outbound)) && FirstGapWins(IdSeq(s.a.outbound))
  {
    RecordIdsInRange(s, s.a.outbound);
    assert Recoverable(s.a);
    hide Inv, Restore, IssueOrder, FirstGapWins, Recoverable, ListsKeys;
    RestartRestoresOrder(s.a, keys);
  }

  /** And a crash between the two removals made on PUBCOMP exactly when that is so of the other records. */
  lemma CrashKeepsOrder(s: System, keys: seq<Key>)
    requires Inv(s) && Possible(s, CrashInPubcomp(keys))
    ensures var left := IdSeq(HandlePubcomp(s.a, s.toA[0].msgid).client.outbound);
      KeepsOrder(s, CrashInPubcomp(keys)) <==> IssueOrder(left) && FirstGapWins(left)
  {
    var id := s.toA[0].msgid;
    var half := HalfRemoved(s.a, id);
    assert Recoverable(s.a);
    CrashIs(s, keys);
    hide Inv, Possible, KeepsOrder, Restore, IssueOrder, FirstGapWins, Recoverable, ListsKeys, Completes, GoodRecords,
         StoreHolds, HandlePubcomp;
    RemovedIsPart(s.a, id);
    RecordIdsInRange(s, half.outbound);
    HalfRemovedHolds(s.a, id);
    RestoreGivesOrder(half, {id}, keys);
  }

  lemma CrashIs(s: System, keys: seq<Key>)
    requires Possible(s, CrashInPubcomp(keys))
    ensures Completes(s.a, s.toA[0].msgid)
    ensures var half := HalfRemoved(s.a, s.toA[0].msgid);
      && half.outbound == HandlePubcomp(s.a, s.toA[0].msgid).client.outbound && ListsKeys(half.store, keys)
      && (KeepsOrder(s, CrashInPubcomp(keys)) <==> Restore(half.store, keys).outbound == half.outbound)
  {
    hide Restore, HandlePubcomp, ListsKeys, Completes;
  }

  lemma RemovedIsPart(c: ClientState, id: nat)
    ensures forall m :: m in HandlePubcomp(c, id).client.outbound ==> m in c.outbound
  {
  }

  lemma RecordIdsInRange(s: System, l: seq<Message>)
    requires Inv(s) && forall m :: m in l ==> m in s.a.outbound
    ensures IdsInRange(IdSeq(l))
  {
    hide Exchanges, Accounting, StoreHolds;
    forall i | 0 <= i < |l| ensures 1 <= l[i].msgid <= MAX_MSG_ID { assert l[i] in s.a.outbound; }
  }

  /** The condition can fail: ids 1 and 40000, published in that order, come back the other way round. */
  lemma LargeSpanTurnsRound(m1: Message, m2: Message)
    requires m1.msgid == 1 && m2.msgid == 40000
    ensures WrapMsgId([m1, m2]) == [m2, m1] && IssueOrder(IdSeq([m1, m2])) && !FirstGapWins(IdSeq([m1, m2]))
  {
    var ids := IdSeq([m1, m2]);
    assert ids == [1, 40000];
    assert FirstLargest(ids, 1);
    WrapPointIs(ids, 1);
  }
}
