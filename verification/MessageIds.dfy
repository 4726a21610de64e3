/** Message ids: what `assignMsgId` returns, for every counter and every set of ids in use. */
module MessageIds {
  import opened MqttTypes
  import opened ClientHandlers

  lemma {:induction false} NextIdFromFinds(msgID: nat, used: set<nat>, k: nat)
    requires msgID <= MAX_MSG_ID && 1 <= k <= MAX_MSG_ID
    requires forall j :: 1 <= j < k ==> NthId(msgID, j) in used && NthId(msgID, j) != msgID
    ensures var id := NextIdFrom(msgID, used, k);
      if id == 0 then forall j :: 1 <= j <= MAX_MSG_ID ==> NthId(msgID, j) in used || NthId(msgID, j) == msgID
      else exists n :: 1 <= n <= MAX_MSG_ID && id == NthId(msgID, n) && id !in used
                       && forall j :: 1 <= j < n ==> NthId(msgID, j) in used
    decreases MAX_MSG_ID - k
  {
    if NthId(msgID, k) == msgID {
      OnlyLastIsStart(msgID, k);
    } else if NthId(msgID, k) in used && k < MAX_MSG_ID {
      NextIdFromFinds(msgID, used, k + 1);
    }
  }

  lemma OnlyLastIsStart(msgID: nat, k: nat)
    requires msgID <= MAX_MSG_ID && 1 <= k <= MAX_MSG_ID
    ensures NthId(msgID, k) == msgID <==> k == MAX_MSG_ID && msgID != 0
  {
  }

  lemma EveryIdIsReached(msgID: nat, x: nat) returns (k: nat)
    requires msgID <= MAX_MSG_ID && 1 <= x <= MAX_MSG_ID
    ensures 1 <= k <= MAX_MSG_ID && NthId(msgID, k) == x
  {
    k := if x > msgID then x - msgID else x + MAX_MSG_ID - msgID;
  }

  /** A nonzero result is the first unused id after the counter, going round 1..65535. */
  lemma NextIdIsNextUnused(msgID: nat, used: set<nat>)
    requires msgID <= MAX_MSG_ID && NextId(msgID, used) != 0
    ensures exists n :: 1 <= n <= MAX_MSG_ID && NextId(msgID, used) == NthId(msgID, n) && NthId(msgID, n) !in used
                        && forall j :: 1 <= j < n ==> NthId(msgID, j) in used
  {
    NextIdFromFinds(msgID, used, 1);
  }

  /** 0 means exactly that every id is in use, except possibly the one the search started from. */
  lemma NextIdIsZero(msgID: nat, used: set<nat>)
    requires msgID <= MAX_MSG_ID
    ensures NextId(msgID, used) == 0 <==> forall x :: 1 <= x <= MAX_MSG_ID && x != msgID ==> x in used
  {
    NextIdFromFinds(msgID, used, 1);
    if NextId(msgID, used) == 0 {
      forall x | 1 <= x <= MAX_MSG_ID && x != msgID ensures x in used {
        var k := EveryIdIsReached(msgID, x);
      }
    } else {
      var n :| 1 <= n <= MAX_MSG_ID && NextId(msgID, used) == NthId(msgID, n) && NthId(msgID, n) !in used
               && forall j :: 1 <= j < n ==> NthId(msgID, j) in used;
      NotStart(msgID, used, 1);
      assert 1 <= NthId(msgID, n) <= MAX_MSG_ID;
    }
  }

  lemma {:induction false} NotStart(msgID: nat, used: set<nat>, k: nat)
    requires msgID <= MAX_MSG_ID && 1 <= k <= MAX_MSG_ID
    ensures NextIdFrom(msgID, used, k) != 0 ==> NextIdFrom(msgID, used, k) != msgID
    decreases MAX_MSG_ID - k
  {
    if k < MAX_MSG_ID { NotStart(msgID, used, k + 1); }
  }

  /** The search comes to an end exactly when the counter is not zero or some id is free: from zero, with every
      id in use, neither of its two stopping conditions is ever met. */
  lemma SearchEnds(msgID: nat, used: set<nat>)
    requires msgID <= MAX_MSG_ID
    ensures (exists n :: n >= 1 && (NthId(msgID, n) == msgID || NthId(msgID, n) !in used)) <==>
            msgID != 0 || exists x :: 1 <= x <= MAX_MSG_ID && x !in used
  {
    if msgID != 0 {
      assert NthId(msgID, MAX_MSG_ID) == msgID;
    } else if x :| 1 <= x <= MAX_MSG_ID && x !in used {
      var n := EveryIdIsReached(msgID, x);
      assert NthId(msgID, n) !in used;
    }
  }

  function Below(n: nat): (ids: set<nat>)
    ensures forall x :: x in ids <==> 1 <= x <= n
  {
    if n == 0 then {} else Below(n - 1) + {n}
  }

  lemma {:induction false} BelowSize(n: nat)
    ensures |Below(n)| == n
  {
    if n > 0 { BelowSize(n - 1); }
  }

  lemma {:induction false} FewIds(l: seq<Message>)
    ensures |Ids(l)| <= |l|
  {
    if l != [] {
      var front, last := l[..|l| - 1], l[|l| - 1];
      FewIds(front);
      assert l == front + [last];
      assert Ids(l) == Ids(front) + {last.msgid};
    }
  }

  lemma SubsetSize(a: set<nat>, b: set<nat>)
    requires a <= b
    ensures |a| <= |b|
  {
    assert b == a + (b - a);
  }

  /** With fewer than 65534 records, which is what the asynchronous client waits for before it takes a command,
      a message id is found. */
  lemma {:induction false} IdIsLeft(msgID: nat, l: seq<Message>)
    requires msgID <= MAX_MSG_ID && |l| < 65534
    ensures NextId(msgID, Ids(l)) != 0
  {
    var others := Below(MAX_MSG_ID) - {msgID};
    BelowSize(MAX_MSG_ID);
    FewIds(l);
    if others <= Ids(l) { SubsetSize(others, Ids(l)); }
    var x :| x in others && x !in Ids(l);
    NextIdIsZero(msgID, Ids(l));
  }
}
