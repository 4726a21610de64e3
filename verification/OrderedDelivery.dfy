/** Ordered delivery (section 4.6 of MQTT Version 3.1.1): in runs where every reconnect retries the whole
    outbound list and nothing else is lost, B's application sees a prefix of A's QoS 2 publications. */
module OrderedDelivery {
  import opened Sequences
  import opened Bytes
  import opened MqttTypes
  import opened ClientHandlers
  import opened Session
  import opened StoreRecovery
  import opened ExactlyOnce

  /** Only complete reconnect passes, no packet lost inside a connection, and restarts of A that give the
      outbound list back in its order (OrderRecovery says when they do). */
  ghost predicate KeepsOrder(s: System, act: Action) {
    match act
    case Lose(_, _) => false
    case Reconnect(n) => n == |s.a.outbound|
    case RestartA(keys) => Possible(s, act) ==> Apply(s, act).a.outbound == s.a.outbound
    case CrashInPubcomp(keys) =>
      Possible(s, act) ==> Apply(s, act).a.outbound == HandlePubcomp(s.a, s.toA[0].msgid).client.outbound
    case _ => true
  }

  ghost predicate OrderedRun(acts: seq<Action>) {
    acts == [] ||
    (OrderedRun(acts[..|acts| - 1]) && KeepsOrder(Run(acts[..|acts| - 1]), acts[|acts| - 1]))
  }

  // ---------------------------------------------------------------- projections

  function Qos2Part(m: Message): seq<Message> {
    if m.qos == 2 then [m] else []
  }

  function Qos2Of(l: seq<Message>): seq<Message> {
    if l == [] then [] else Qos2Part(l[0]) + Qos2Of(l[1..])
  }

  datatype Kind = Publish2Kind | PubrecKind | PubrelKind

  function KindPart(p: Packet, k: Kind): seq<int> {
    match k
    case Publish2Kind => if p.Publish? && p.qos == 2 then [p.msgid] else []
    case PubrecKind => if p.Pubrec? then [p.msgid] else []
    case PubrelKind => if p.Pubrel? then [p.msgid] else []
  }

  /** The ids of the packets of one kind, in channel order. */
  function IdsOf(ch: seq<Packet>, k: Kind): seq<int> {
    if ch == [] then [] else KindPart(ch[0], k) + IdsOf(ch[1..], k)
  }

  /** PUBLISH packets on their way to B, behind the PUBRECs earlier ones have already turned into. */
  function Pipeline(toA: seq<Packet>, toB: seq<Packet>): seq<int> {
    IdsOf(toA, PubrecKind) + IdsOf(toB, Publish2Kind)
  }

  lemma {:induction false} Qos2OfConcat(l: seq<Message>, l': seq<Message>)
    ensures Qos2Of(l + l') == Qos2Of(l) + Qos2Of(l')
  {
    if l == [] {
      assert l + l' == l';
    } else {
      Qos2OfConcat(l[1..], l');
      assert (l + l')[1..] == l[1..] + l';
      Assoc(Qos2Part(l[0]), Qos2Of(l[1..]), Qos2Of(l'));
    }
  }

  lemma Qos2OfOne(m: Message)
    ensures Qos2Of([m]) == Qos2Part(m)
  {
    assert [m][1..] == [] && Qos2Of([]) == [];
  }

  lemma Qos2OfSplit(front: seq<Message>, m: Message, back: seq<Message>)
    ensures Qos2Of(front + [m] + back) == Qos2Of(front) + Qos2Part(m) + Qos2Of(back)
  {
    Qos2OfConcat(front, [m]);
    Qos2OfOne(m);
    Qos2OfConcat(front + [m], back);
  }

  lemma {:induction false} IdsOfConcat(c: seq<Packet>, c': seq<Packet>, k: Kind)
    ensures IdsOf(c + c', k) == IdsOf(c, k) + IdsOf(c', k)
  {
    if c == [] {
      assert c + c' == c';
    } else {
      IdsOfConcat(c[1..], c', k);
      assert (c + c')[1..] == c[1..] + c';
      Assoc(KindPart(c[0], k), IdsOf(c[1..], k), IdsOf(c', k));
    }
  }

  lemma IdsOfNone(k: Kind)
    ensures IdsOf([], k) == []
  {
  }

  lemma EmptyFirst<T>(x: seq<T>)
    ensures [] + x == x
  {
  }

  lemma IdsOfOne(p: Packet, k: Kind)
    ensures IdsOf([p], k) == KindPart(p, k)
  {
    assert [p][1..] == [] && IdsOf([], k) == [];
  }

  lemma IdsOfFirst(p: Packet, rest: seq<Packet>, k: Kind)
    ensures IdsOf([p] + rest, k) == KindPart(p, k) + IdsOf(rest, k)
  {
    IdsOfConcat([p], rest, k);
    IdsOfOne(p, k);
  }

  lemma IdsOfAppend(c: seq<Packet>, p: Packet, k: Kind)
    ensures IdsOf(c + [p], k) == IdsOf(c, k) + KindPart(p, k)
  {
    IdsOfConcat(c, [p], k);
    IdsOfOne(p, k);
  }

  lemma {:induction false} IdsOfAbsent(c: seq<Packet>, id: nat, k: Kind)
    requires forall i :: 0 <= i < |c| ==> KindPart(c[i], k) != [id]
    ensures id !in IdsOf(c, k)
  {
    if c != [] { IdsOfAbsent(c[1..], id, k); }
  }

  // ---------------------------------------------------------------- introducing ids in order

  ghost predicate Distinct(l: seq<int>) {
    forall i, j :: 0 <= i < j < |l| ==> l[i] != l[j]
  }

  /** Everything of `l` occurs in `v`, and nothing of it occurs before its predecessor has. */
  ghost predicate Introduces(v: seq<int>, l: seq<int>) {
    && (forall j, x :: 0 < j < |l| && 0 <= x < |v| && v[x] == l[j] ==> l[j - 1] in v[..x])
    && (l != [] ==> l[|l| - 1] in v)
  }

  lemma {:induction false} AllPresent(v: seq<int>, l: seq<int>, j: nat)
    requires Introduces(v, l) && j < |l|
    ensures l[j] in v
    decreases |l| - j
  {
    if j + 1 < |l| {
      AllPresent(v, l, j + 1);
      var x :| 0 <= x < |v| && v[x] == l[j + 1];
      assert l[j] in v[..x];
    }
  }

  lemma NothingBefore(v: seq<int>, x: int)
    ensures x !in v[..0]
  {
  }

  lemma HeadIsFirst(v: seq<int>, l: seq<int>)
    requires Introduces(v, l) && v != [] && v[0] in l
    ensures v[0] == l[0]
  {
    var j :| 0 <= j < |l| && l[j] == v[0];
    if j > 0 { NothingBefore(v, l[j - 1]); }
  }

  lemma DropOther(v: seq<int>, l: seq<int>)
    requires Introduces(v, l) && v != [] && v[0] !in l
    ensures Introduces(v[1..], l)
  {
    assert v == [v[0]] + v[1..];
    forall j, x | 0 < j < |l| && 0 <= x < |v[1..]| && v[1..][x] == l[j] ensures l[j - 1] in v[1..][..x] {
      assert v[x + 1] == l[j] && l[j - 1] in v[..x + 1];
      assert v[..x + 1] == [v[0]] + v[1..][..x];
    }
  }

  lemma DropFirst(v: seq<int>, l: seq<int>)
    requires Introduces(v, l) && v != [] && l != [] && v[0] == l[0] && Distinct(l)
    ensures Introduces(v[1..], l[1..])
  {
    assert v == [v[0]] + v[1..];
    forall j, x | 0 < j < |l[1..]| && 0 <= x < |v[1..]| && v[1..][x] == l[1..][j]
      ensures l[1..][j - 1] in v[1..][..x]
    {
      assert v[x + 1] == l[j + 1] && l[j] in v[..x + 1];
      assert v[..x + 1] == [v[0]] + v[1..][..x];
      assert l[j] != l[0];
    }
  }

  lemma AppendAny(v: seq<int>, l: seq<int>, x: int)
    requires Introduces(v, l)
    ensures Introduces(v + [x], l)
  {
    forall j, y | 0 < j < |l| && 0 <= y < |v + [x]| && (v + [x])[y] == l[j] ensures l[j - 1] in (v + [x])[..y] {
      AllPresent(v, l, j - 1);
      assert (v + [x])[..y] == v[..y];
      assert y == |v| ==> v[..y] == v;
    }
  }

  lemma {:induction false} AppendMany(v: seq<int>, l: seq<int>, w: seq<int>)
    requires Introduces(v, l)
    ensures Introduces(v + w, l)
  {
    if w == [] {
      assert v + w == v;
    } else {
      AppendMany(v, l, w[..|w| - 1]);
      AppendAny(v + w[..|w| - 1], l, w[|w| - 1]);
      assert v + w == v + w[..|w| - 1] + [w[|w| - 1]];
    }
  }

  lemma AppendNew(v: seq<int>, l: seq<int>, x: int)
    requires Introduces(v, l) && x !in v
    ensures Introduces(v + [x], l + [x])
  {
    AppendAny(v, l, x);
    var v', l' := v + [x], l + [x];
    forall j, y | 0 < j < |l'| && 0 <= y < |v'| && v'[y] == l'[j] ensures l'[j - 1] in v'[..y] {
      if j == |l| {
        assert y == |v| && v'[..y] == v;
      } else {
        assert l[j - 1] in (v + [x])[..y];
      }
    }
    assert v'[|v|] == x;
  }

  lemma IntroducesItself(p: seq<int>, l: seq<int>)
    requires Distinct(p + l)
    ensures Introduces(p + l, l)
  {
    forall j, x | 0 < j < |l| && 0 <= x < |p + l| && (p + l)[x] == l[j] ensures l[j - 1] in (p + l)[..x] {
      assert (p + l)[|p| + j] == l[j];
      assert x == |p| + j;
      assert (p + l)[..x][|p| + j - 1] == l[j - 1];
    }
    if l != [] { assert (p + l)[|p| + |l| - 1] == l[|l| - 1]; }
  }

  // ---------------------------------------------------------------- the order invariant

  /** Of A's QoS 2 records `q`, the first `d` are delivered and the first `r` wait for PUBCOMP: the
      waiting-for-PUBCOMP records precede the waiting-for-PUBREC ones, and the undelivered ones carry
      the next publications in order. */
  ghost predicate ListInOrder(s: System, q: seq<Message>, d: nat, r: nat) {
    var n := |s.delivered|;
    && n <= |s.published| && s.delivered == s.published[..n]
    && d <= r <= |q| && n + (|q| - d) == |s.published|
    && (forall i :: 0 <= i < |q| ==> (q[i].next == AwaitPubcomp <==> i < r))
    && (forall i :: 0 <= i < d ==> q[i].publication.serial < n)
    && (forall i :: d <= i < |q| ==> q[i].publication.serial == n + (i - d))
  }

  /** `rels` introduces the undelivered records waiting for PUBCOMP, and `pubs` those waiting for
      PUBREC, in list order. */
  ghost predicate FlowInOrder(rels: seq<int>, pubs: seq<int>, q: seq<Message>, d: nat, r: nat)
    requires d <= r <= |q|
  {
    Introduces(rels, IdSeq(q[d..r])) && Introduces(pubs, IdSeq(q[r..]))
  }

  ghost predicate ChannelsInOrder(s: System, q: seq<Message>, d: nat, r: nat)
    requires d <= r <= |q|
  {
    if s.connected then FlowInOrder(IdsOf(s.toB, PubrelKind), Pipeline(s.toA, s.toB), q, d, r)
    else s.toB == [] && s.toA == []
  }

  ghost predicate OrdInv(s: System, d: nat, r: nat) {
    ListInOrder(s, Qos2Of(s.a.outbound), d, r) && ChannelsInOrder(s, Qos2Of(s.a.outbound), d, r)
  }

  lemma {:induction false} Qos2OfRecords(l: seq<Message>)
    requires DistinctIds(l)
    ensures forall m :: m in Qos2Of(l) <==> m in l && m.qos == 2
    ensures DistinctIds(Qos2Of(l))
  {
    if l != [] {
      Qos2OfRecords(l[1..]);
      var q := Qos2Of(l[1..]);
      assert l == [l[0]] + l[1..];
      assert forall i :: 0 <= i < |q| ==> q[i] in l[1..];
    }
  }

  lemma SliceIdsDistinct(q: seq<Message>, i: nat, j: nat)
    requires i <= j <= |q| && DistinctIds(q)
    ensures Distinct(IdSeq(q[i..j]))
  {
  }

  lemma SplitAt(l: seq<Message>, i: nat) returns (front: seq<Message>, back: seq<Message>)
    requires i < |l|
    ensures l == front + [l[i]] + back && RemoveAt(l, i) == front + back
    ensures forall m :: l[i := m] == front + [m] + back
  {
    front, back := l[..i], l[i + 1..];
  }

  lemma Qos2OfRemove(l: seq<Message>, i: nat)
    requires i < |l|
    ensures l[i].qos != 2 ==> Qos2Of(RemoveAt(l, i)) == Qos2Of(l)
    ensures l[i].qos == 2 ==>
      exists j :: 0 <= j < |Qos2Of(l)| && Qos2Of(l)[j] == l[i] && Qos2Of(RemoveAt(l, i)) == RemoveAt(Qos2Of(l), j)
  {
    hide Qos2Of;
    var front, back := SplitAt(l, i);
    Qos2OfSplit(front, l[i], back);
    Qos2OfConcat(front, back);
    RemoveMiddle(Qos2Of(front), Qos2Part(l[i]), Qos2Of(back));
    if l[i].qos == 2 {
      var j := |Qos2Of(front)|;
      assert Qos2Of(l)[j] == l[i] && Qos2Of(RemoveAt(l, i)) == RemoveAt(Qos2Of(l), j);
    }
  }

  lemma RemoveMiddle<T>(x: seq<T>, y: seq<T>, z: seq<T>)
    ensures y == [] ==> x + y + z == x + z
    ensures |y| == 1 ==> RemoveAt(x + y + z, |x|) == x + z && (x + y + z)[|x|] == y[0]
  {
  }

  lemma Qos2OfUpdate(l: seq<Message>, i: nat, m: Message)
    requires i < |l| && l[i].qos == 2 && m.qos == 2
    ensures exists j :: 0 <= j < |Qos2Of(l)| && Qos2Of(l)[j] == l[i] && Qos2Of(l[i := m]) == Qos2Of(l)[j := m]
  {
    hide Qos2Of;
    var front, back := SplitAt(l, i);
    Qos2OfSplit(front, l[i], back);
    Qos2OfSplit(front, m, back);
    var j := |Qos2Of(front)|;
    assert Qos2Of(l)[j] == l[i] && Qos2Of(l[i := m]) == Qos2Of(l)[j := m];
  }

  lemma DeliveredIsBefore(s: System, k: nat)
    requires Accounting(s) && |s.delivered| <= |s.published| && s.delivered == s.published[..|s.delivered|]
    ensures IsDelivered(s.delivered, k) <==> k < |s.delivered|
  {
    if k < |s.delivered| { assert s.delivered[k].publication.serial == k; }
  }

  // ---------------------------------------------------------------- the flow alone

  lemma FlowAfterReconnect(q: seq<Message>, d: nat, r: nat)
    requires d <= r <= |q| && DistinctIds(q)
    ensures FlowInOrder(IdSeq(q[..r]), IdSeq(q[r..]), q, d, r)
  {
    SliceIdsDistinct(q, 0, r);
    SliceIdsDistinct(q, r, |q|);
    assert IdSeq(q[..r]) == IdSeq(q[..d]) + IdSeq(q[d..r]);
    IntroducesItself(IdSeq(q[..d]), IdSeq(q[d..r]));
    assert IdSeq(q[r..]) == [] + IdSeq(q[r..]);
    IntroducesItself([], IdSeq(q[r..]));
  }

  lemma FlowAfterRetry(rels: seq<int>, pubs: seq<int>, rels': seq<int>, pubs': seq<int>, q: seq<Message>, d: nat,
      r: nat)
    requires d <= r <= |q| && FlowInOrder(rels, pubs, q, d, r)
    ensures FlowInOrder(rels + rels', pubs + pubs', q, d, r)
  {
    AppendMany(rels, IdSeq(q[d..r]), rels');
    AppendMany(pubs, IdSeq(q[r..]), pubs');
  }

  lemma FlowAfterPublish(rels: seq<int>, pubs: seq<int>, m: Message, q: seq<Message>, d: nat, r: nat)
    requires d <= r <= |q| && FlowInOrder(rels, pubs, q, d, r) && m.msgid !in pubs
    ensures FlowInOrder(rels, pubs + [m.msgid], q + [m], d, r)
  {
    AppendNew(pubs, IdSeq(q[r..]), m.msgid);
    assert (q + [m])[d..r] == q[d..r] && IdSeq((q + [m])[r..]) == IdSeq(q[r..]) + [m.msgid];
  }

  lemma FlowAfterHandOver(rels: seq<int>, pubs: seq<int>, q: seq<Message>, d: nat, r: nat)
    requires d < r <= |q| && FlowInOrder([q[d].msgid] + rels, pubs, q, d, r) && DistinctIds(q)
    ensures FlowInOrder(rels, pubs, q, d + 1, r)
  {
    SliceIdsDistinct(q, d, r);
    var v := [q[d].msgid] + rels;
    DropFirst(v, IdSeq(q[d..r]));
    assert v[1..] == rels && IdSeq(q[d..r])[1..] == IdSeq(q[d + 1..r]);
  }

  lemma FlowAfterRelease(rels: seq<int>, pubs: seq<int>, m: Message, q: seq<Message>, d: nat, r: nat)
    requires d <= r < |q| && FlowInOrder(rels, [q[r].msgid] + pubs, q, d, r) && DistinctIds(q)
    requires m.msgid == q[r].msgid && m.msgid !in rels
    ensures FlowInOrder(rels + [m.msgid], pubs, q[r := m], d, r + 1)
  {
    SliceIdsDistinct(q, r, |q|);
    var v, q' := [q[r].msgid] + pubs, q[r := m];
    DropFirst(v, IdSeq(q[r..]));
    assert v[1..] == pubs && IdSeq(q'[r + 1..]) == IdSeq(q[r..])[1..];
    AppendNew(rels, IdSeq(q[d..r]), m.msgid);
    assert IdSeq(q'[d..r + 1]) == IdSeq(q[d..r]) + [m.msgid];
  }

  lemma FlowHeads(rels: seq<int>, pubs: seq<int>, q: seq<Message>, d: nat, r: nat, j: nat)
    requires d <= r <= |q| && FlowInOrder(rels, pubs, q, d, r) && j < |q| && DistinctIds(q)
    ensures d <= j < r && rels != [] && rels[0] == q[j].msgid ==> j == d
    ensures r <= j && pubs != [] && pubs[0] == q[j].msgid ==> j == r
  {
    if d <= j < r && rels != [] && rels[0] == q[j].msgid {
      assert IdSeq(q[d..r])[j - d] == q[j].msgid;
      HeadIsFirst(rels, IdSeq(q[d..r]));
    }
    if r <= j && pubs != [] && pubs[0] == q[j].msgid {
      assert IdSeq(q[r..])[j - r] == q[j].msgid;
      HeadIsFirst(pubs, IdSeq(q[r..]));
    }
  }

  lemma FlowSkipsRel(id: int, rels: seq<int>, pubs: seq<int>, q: seq<Message>, d: nat, r: nat)
    requires d <= r <= |q| && FlowInOrder([id] + rels, pubs, q, d, r)
    requires forall j :: d <= j < r ==> q[j].msgid != id
    ensures FlowInOrder(rels, pubs, q, d, r)
  {
    DropOther([id] + rels, IdSeq(q[d..r]));
    assert ([id] + rels)[1..] == rels;
  }

  lemma FlowSkipsRec(id: int, rels: seq<int>, pubs: seq<int>, q: seq<Message>, d: nat, r: nat)
    requires d <= r <= |q| && FlowInOrder(rels, [id] + pubs, q, d, r)
    requires forall j :: r <= j < |q| ==> q[j].msgid != id
    ensures FlowInOrder(rels, pubs, q, d, r)
  {
    DropOther([id] + pubs, IdSeq(q[r..]));
    assert ([id] + pubs)[1..] == pubs;
  }

  // ---------------------------------------------------------------- A writes

  /** Retrying a whole list writes the PUBRELs of its first `r` QoS 2 records, in order, and the
      PUBLISHes of the others, in order. */
  lemma {:induction false} RetryPacketIds(l: seq<Message>, r: nat)
    requires r <= |Qos2Of(l)|
    requires forall m :: m in l ==>
        (m.qos == 1 && m.next == NotSet) || (m.qos == 2 && m.next in {AwaitPubrec, AwaitPubcomp})
    requires forall i :: 0 <= i < |Qos2Of(l)| ==> (Qos2Of(l)[i].next == AwaitPubcomp <==> i < r)
    ensures IdsOf(RetryPackets(l), PubrelKind) == IdSeq(Qos2Of(l)[..r])
    ensures IdsOf(RetryPackets(l), Publish2Kind) == IdSeq(Qos2Of(l)[r..])
  {
    if l != [] {
      var l', x := l[..|l| - 1], l[|l| - 1];
      var q', p := Qos2Of(l'), RetryPacket(x);
      var r' := if r <= |q'| then r else |q'|;
      assert x in l && l == l' + [x];
      RetryLast(l', x);
      ReleasedOfLast(q', x, r);
      RetryPacketIds(l', r');
      hide Qos2Of, IdsOf, RetryPackets, RetryPacket, IdSeq, KindPart, Qos2Part;
      RetryIdsStep(q', x, r, r');
      IdsOfAppend(RetryPackets(l'), p[0], PubrelKind);
      IdsOfAppend(RetryPackets(l'), p[0], Publish2Kind);
      assert p == [p[0]];
    }
  }

  /** Which records wait for PUBCOMP, without the last record. */
  lemma ReleasedOfLast(q: seq<Message>, x: Message, r: nat)
    requires r <= |q + Qos2Part(x)|
    requires forall i :: 0 <= i < |q + Qos2Part(x)| ==> ((q + Qos2Part(x))[i].next == AwaitPubcomp <==> i < r)
    ensures forall i :: 0 <= i < |q| ==> (q[i].next == AwaitPubcomp <==> i < r)
    ensures x.qos == 2 ==> (x.next == AwaitPubcomp <==> |q| < r)
  {
    assert forall i :: 0 <= i < |q| ==> (q + Qos2Part(x))[i] == q[i];
    if x.qos == 2 { assert (q + Qos2Part(x))[|q|] == x; }
  }

  lemma RetryLast(l: seq<Message>, x: Message)
    ensures RetryPackets(l + [x]) == RetryPackets(l) + RetryPacket(x)
    ensures Qos2Of(l + [x]) == Qos2Of(l) + Qos2Part(x) && (x.qos == 2 ==> Qos2Part(x) == [x])
  {
    assert (l + [x])[..|l|] == l;
    hide Qos2Of;
    Qos2OfConcat(l, [x]);
    Qos2OfOne(x);
  }

  lemma RetryIdsStep(q: seq<Message>, x: Message, r: nat, r': nat)
    requires (x.qos == 1 && x.next == NotSet) || (x.qos == 2 && x.next in {AwaitPubrec, AwaitPubcomp})
    requires r <= |q + Qos2Part(x)| && r' == (if r <= |q| then r else |q|)
    requires x.qos == 2 ==> (x.next == AwaitPubcomp <==> |q| < r)
    ensures |RetryPacket(x)| == 1
    ensures IdSeq((q + Qos2Part(x))[..r]) == IdSeq(q[..r']) + KindPart(RetryPacket(x)[0], PubrelKind)
    ensures IdSeq((q + Qos2Part(x))[r..]) == IdSeq(q[r'..]) + KindPart(RetryPacket(x)[0], Publish2Kind)
  {
  }

  lemma ReconnectInOrder(s: System, s': System, d: nat, r: nat)
    requires GoodRecords(s.a) && OrdInv(s, d, r) && s'.connected
    requires s'.toB == RetryPackets(s.a.outbound) && s'.toA == []
    requires s'.a.outbound == s.a.outbound && s'.delivered == s.delivered && s'.published == s.published
    ensures OrdInv(s', d, r)
  {
    var q := Qos2Of(s.a.outbound);
    IdsOfNone(PubrecKind);
    hide Introduces, IdsOf, Qos2Of, RetryPackets, IdSeq, StoreHolds;
    RetryPacketIds(s.a.outbound, r);
    Qos2OfRecords(s.a.outbound);
    FlowAfterReconnect(q, d, r);
    EmptyFirst(IdSeq(q[r..]));
  }

  lemma RetryInOrder(s: System, s': System, ps: seq<Packet>, d: nat, r: nat)
    requires OrdInv(s, d, r) && s.connected && s'.connected
    requires s'.toB == s.toB + ps && s'.toA == s.toA
    requires s'.a.outbound == s.a.outbound && s'.delivered == s.delivered && s'.published == s.published
    ensures OrdInv(s', d, r)
  {
    hide Qos2Of, IdsOf, Introduces;
    IdsOfConcat(s.toB, ps, PubrelKind);
    IdsOfConcat(s.toB, ps, Publish2Kind);
    var pubs, pubs' := Pipeline(s.toA, s.toB), IdsOf(ps, Publish2Kind);
    FlowAfterRetry(IdsOf(s.toB, PubrelKind), pubs, IdsOf(ps, PubrelKind), pubs', Qos2Of(s.a.outbound), d, r);
    assert Pipeline(s'.toA, s'.toB) == pubs + pubs';
  }

  lemma AcceptedInOrder(s: System, s': System, p: Packet, id: nat, d: nat, r: nat)
    requires Exchanges(s) && OrdInv(s, d, r) && s.connected && Accepted(s, s', p, id) && p.qos == 2
    ensures OrdInv(s', d, r)
  {
    hide Introduces, IdsOf, Qos2Of;
    var m, q := CreateMessage(p), Qos2Of(s.a.outbound);
    Qos2OfConcat(s.a.outbound, [m]);
    Qos2OfOne(m);
    IdNotInPipeline(s, id);
    FlowAfterPublish(IdsOf(s.toB, PubrelKind), Pipeline(s.toA, s.toB), m, q, d, r);
    IdsOfAppend(s.toB, p, PubrelKind);
    IdsOfAppend(s.toB, p, Publish2Kind);
    assert Pipeline(s'.toA, s'.toB) == Pipeline(s.toA, s.toB) + [id];
    assert IdsOf(s'.toB, PubrelKind) == IdsOf(s.toB, PubrelKind);
    assert ListInOrder(s', q + [m], d, r);
  }

  lemma IdNotInPipeline(s: System, id: nat)
    requires Exchanges(s) && id !in Ids(s.a.outbound)
    ensures id !in Pipeline(s.toA, s.toB)
  {
    assert !HasOpen(s.a.outbound, id) && Idle(s, id);
    forall i | 0 <= i < |s.toA| ensures KindPart(s.toA[i], PubrecKind) != [id] { assert !IsRec(s.toA[i], id); }
    IdsOfAbsent(s.toA, id, PubrecKind);
    forall i | 0 <= i < |s.toB| ensures KindPart(s.toB[i], Publish2Kind) != [id] { assert !IsPub2(s.toB[i], id); }
    IdsOfAbsent(s.toB, id, Publish2Kind);
  }

  lemma AcceptedLowInOrder(s: System, s': System, p: Packet, id: nat, d: nat, r: nat)
    requires OrdInv(s, d, r) && s.connected && Accepted(s, s', p, id) && p.qos < 2
    ensures OrdInv(s', d, r)
  {
    Qos2OfConcat(s.a.outbound, [CreateMessage(p)]);
    Qos2OfOne(CreateMessage(p));
    IdsOfAppend(s.toB, p, PubrelKind);
    IdsOfAppend(s.toB, p, Publish2Kind);
    assert Qos2Of(s'.a.outbound) == Qos2Of(s.a.outbound);
    assert IdsOf(s'.toB, PubrelKind) == IdsOf(s.toB, PubrelKind);
    assert IdsOf(s'.toB, Publish2Kind) == IdsOf(s.toB, Publish2Kind);
  }

  lemma PublishInOrder(s: System, topic: seq<byte>, payload: seq<byte>, qos: nat, retain: bool, d: nat, r: nat)
    requires Inv(s) && OrdInv(s, d, r) && s.connected && qos <= 2
    ensures OrdInv(Accept(s, topic, payload, qos, retain), d, r)
  {
    var s' := Accept(s, topic, payload, qos, retain);
    if s' != s {
      NewIdUnused(s.a.msgID, Ids(s.a.outbound), 1);
      var id := if qos == 0 then 0 else NextId(s.a.msgID, Ids(s.a.outbound));
      var p := Publish(id, qos, false, retain, Publication(topic, payload, NextSerial(s, qos)));
      assert Accepted(s, s', p, id);
      if qos == 2 { AcceptedInOrder(s, s', p, id, d, r); } else { AcceptedLowInOrder(s, s', p, id, d, r); }
    }
  }

  // ---------------------------------------------------------------- B handles a packet

  /** The only PUBREL B acts on is that of the oldest undelivered publication. */
  lemma PubrelIsNext(s: System, rest: seq<Packet>, d: nat, r: nat, m: Message)
    requires Accounting(s) && DistinctIds(s.a.outbound) && OrdInv(s, d, r) && s.connected
    requires s.toB != [] && s.toB == [s.toB[0]] + rest && IsRel(s.toB[0], m.msgid)
    requires m in s.a.outbound && m.qos == 2 && Released(s, m) && m.next == AwaitPubcomp
    ensures d < r && Qos2Of(s.a.outbound)[d] == m
  {
    hide Qos2Of, IdsOf, Introduces;
    var q := Qos2Of(s.a.outbound);
    Qos2OfRecords(s.a.outbound);
    DeliveredIsBefore(s, m.publication.serial);
    var j :| 0 <= j < |q| && q[j] == m;
    IdsOfFirst(s.toB[0], rest, PubrelKind);
    FlowHeads(IdsOf(s.toB, PubrelKind), Pipeline(s.toA, s.toB), q, d, r, j);
  }

  lemma HandOverInOrder(s: System, s': System, d: nat, r: nat, m: Message)
    requires OrdInv(s, d, r) && s.connected && s'.connected && DistinctIds(s.a.outbound) && Accounting(s)
    requires s.toB != [] && s.toB == [s.toB[0]] + s'.toB && IsRel(s.toB[0], m.msgid) && d < r
        && Qos2Of(s.a.outbound)[d] == m
    requires s'.toA == s.toA + [Pubcomp(m.msgid)]
    requires s'.a.outbound == s.a.outbound && s'.published == s.published
    requires s'.delivered == s.delivered + [Handover(2, m.retain, m.publication)]
    ensures OrdInv(s', d + 1, r)
  {
    hide Introduces, IdsOf, Qos2Of;
    var q := Qos2Of(s.a.outbound);
    Qos2OfRecords(s.a.outbound);
    IdsOfFirst(s.toB[0], s'.toB, PubrelKind);
    IdsOfFirst(s.toB[0], s'.toB, Publish2Kind);
    IdsOfAppend(s.toA, Pubcomp(m.msgid), PubrecKind);
    assert Pipeline(s'.toA, s'.toB) == Pipeline(s.toA, s.toB);
    FlowAfterHandOver(IdsOf(s'.toB, PubrelKind), Pipeline(s.toA, s.toB), q, d, r);
    assert q[d] in s.a.outbound;
    assert ListInOrder(s', q, d + 1, r);
  }

  function Reply(p: Packet): seq<Packet>
    requires p.Publish?
  {
    if p.qos == 2 then [Pubrec(p.msgid)] else if p.qos == 1 then [Puback(p.msgid)] else []
  }

  lemma ReplyIds(p: Packet)
    requires p.Publish?
    ensures IdsOf(Reply(p), PubrecKind) == KindPart(p, Publish2Kind)
  {
    if p.qos == 2 {
      IdsOfOne(Pubrec(p.msgid), PubrecKind);
    } else if p.qos == 1 {
      IdsOfOne(Puback(p.msgid), PubrecKind);
    }
  }

  lemma StorePublishInOrder(s: System, s': System, p: Packet, d: nat, r: nat)
    requires OrdInv(s, d, r) && s.connected && s'.connected
    requires p.Publish? && s.toB == [p] + s'.toB && s'.toA == s.toA + Reply(p)
    requires s'.a.outbound == s.a.outbound && s'.delivered == s.delivered && s'.published == s.published
    ensures OrdInv(s', d, r)
  {
    hide Introduces, IdsOf, Qos2Of;
    IdsOfFirst(p, s'.toB, PubrelKind);
    IdsOfFirst(p, s'.toB, Publish2Kind);
    IdsOfConcat(s.toA, Reply(p), PubrecKind);
    ReplyIds(p);
    assert Pipeline(s'.toA, s'.toB) == Pipeline(s.toA, s.toB);
    assert IdsOf(s'.toB, PubrelKind) == IdsOf(s.toB, PubrelKind);
  }

  lemma IgnoreRelInOrder(s: System, s': System, p: Packet, d: nat, r: nat)
    requires OrdInv(s, d, r) && s.connected && s'.connected && p.Pubrel?
    requires forall j :: d <= j < r ==> Qos2Of(s.a.outbound)[j].msgid != p.msgid
    requires s.toB == [p] + s'.toB && s'.toA == s.toA
    requires s'.a.outbound == s.a.outbound && s'.delivered == s.delivered && s'.published == s.published
    ensures OrdInv(s', d, r)
  {
    IdsOfFirst(p, s'.toB, PubrelKind);
    IdsOfFirst(p, s'.toB, Publish2Kind);
    assert IdsOf(s'.toB, Publish2Kind) == IdsOf(s.toB, Publish2Kind);
    FlowSkipsRel(p.msgid, IdsOf(s'.toB, PubrelKind), Pipeline(s.toA, s.toB), Qos2Of(s.a.outbound), d, r);
  }

  lemma NotReleased(s: System, d: nat, r: nat, id: nat)
    requires Inv(s) && OrdInv(s, d, r) && !HasId(s.b.inbound, id)
    ensures forall j :: d <= j < r ==> Qos2Of(s.a.outbound)[j].msgid != id
  {
    var q := Qos2Of(s.a.outbound);
    Qos2OfRecords(s.a.outbound);
    forall j | d <= j < r ensures q[j].msgid != id {
      assert q[j] in s.a.outbound;
      DeliveredIsBefore(s, q[j].publication.serial);
      assert OpenExchange(s, q[j]);
    }
  }

  lemma BIgnoresEffect(s: System)
    requires Inv(s) && s.toB != [] && (s.toB[0].Publish? || !HasId(s.b.inbound, s.toB[0].msgid))
    ensures var s' := BSends(DropB(s), Handle(s.b, s.toB[0]));
      && s'.delivered == s.delivered && s'.published == s.published && s'.a == s.a && s'.connected == s.connected
      && s'.toA == s.toA + (if s.toB[0].Publish? then Reply(s.toB[0]) else []) && s'.toB == s.toB[1..]
    ensures s.toB[0].Publish? || s.toB[0].Pubrel?
  {
    var p := s.toB[0];
    HasIdFind(s.b.inbound, p.msgid);
    if p.Publish? { OnlyQos2One(Handover(p.qos, p.retain, p.publication)); }
    assert OnlyQos2([]) == [] && s.delivered + [] == s.delivered;
  }

  /** PUBREL meets a record: it is the next publication in order that is handed over. */
  lemma BHandsOverInOrder(s: System, d: nat, r: nat)
    requires Inv(s) && OrdInv(s, d, r) && s.connected && s.toB != []
    requires s.toB[0].Pubrel? && HasId(s.b.inbound, s.toB[0].msgid)
    ensures OrdInv(BSends(DropB(s), Handle(s.b, s.toB[0])), d + 1, r)
  {
    var s' := BSends(DropB(s), Handle(s.b, s.toB[0]));
    hide OrdInv, StoreHolds, Handle, HandlePubrel, Exchanges, Accounting, ChannelTypes, BSends, DropB;
    var m, i := PubrelReleases(s);
    HandOverEffect(s, m, i);
    PubrelIsNext(s, s'.toB, d, r, m);
    HandOverInOrder(s, s', d, r, m);
  }

  lemma BReceivesInOrder(s: System, d: nat, r: nat) returns (d': nat)
    requires Inv(s) && OrdInv(s, d, r) && s.connected && s.toB != []
    ensures OrdInv(BSends(DropB(s), Handle(s.b, s.toB[0])), d', r)
  {
    hide OrdInv, Exchanges, Accounting, StoreHolds, Handle;
    var s' := BSends(DropB(s), Handle(s.b, s.toB[0]));
    var p := s.toB[0];
    d' := d;
    assert s.toB == [p] + s.toB[1..];
    if p.Pubrel? && HasId(s.b.inbound, p.msgid) {
      BHandsOverInOrder(s, d, r);
      d' := d + 1;
    } else {
      BIgnoresEffect(s);
      if p.Publish? {
        StorePublishInOrder(s, s', p, d, r);
      } else {
        assert s.toA + [] == s.toA;
        NotReleased(s, d, r, p.msgid);
        IgnoreRelInOrder(s, s', p, d, r);
      }
    }
  }

  // ---------------------------------------------------------------- A handles a packet

  /** The only PUBREC A acts on is that of the oldest record waiting for one. */
  lemma PubrecIsNext(s: System, rest: seq<Packet>, d: nat, r: nat, m: Message)
    requires OrdInv(s, d, r) && s.connected && DistinctIds(s.a.outbound)
    requires s.toA != [] && s.toA == [s.toA[0]] + rest && IsRec(s.toA[0], m.msgid)
    requires m in s.a.outbound && m.qos == 2 && m.next == AwaitPubrec
    ensures r < |Qos2Of(s.a.outbound)| && Qos2Of(s.a.outbound)[r] == m
  {
    hide Qos2Of, IdsOf, Introduces;
    var q := Qos2Of(s.a.outbound);
    Qos2OfRecords(s.a.outbound);
    var j :| 0 <= j < |q| && q[j] == m;
    IdsOfFirst(s.toA[0], rest, PubrecKind);
    FlowHeads(IdsOf(s.toB, PubrelKind), Pipeline(s.toA, s.toB), q, d, r, j);
  }

  lemma ReleaseInOrder(s: System, s': System, m: Message, d: nat, r: nat)
    requires OrdInv(s, d, r) && s.connected && s'.connected && DistinctIds(s.a.outbound)
    requires s.toA != [] && s.toA == [s.toA[0]] + s'.toA && IsRec(s.toA[0], m.msgid) && NoRel(s.toB, m.msgid)
    requires r < |Qos2Of(s.a.outbound)| && Qos2Of(s.a.outbound)[r] == m
    requires Qos2Of(s'.a.outbound) == Qos2Of(s.a.outbound)[r := m.(next := AwaitPubcomp)]
    requires s'.toB == s.toB + [Pubrel(m.msgid, false)]
    requires s'.delivered == s.delivered && s'.published == s.published
    ensures OrdInv(s', d, r + 1)
  {
    hide Introduces, IdsOf, Qos2Of;
    var q := Qos2Of(s.a.outbound);
    var rel := Pubrel(m.msgid, false);
    Qos2OfRecords(s.a.outbound);
    IdsOfFirst(s.toA[0], s'.toA, PubrecKind);
    IdsOfAppend(s.toB, rel, PubrelKind);
    IdsOfAppend(s.toB, rel, Publish2Kind);
    forall i | 0 <= i < |s.toB| ensures KindPart(s.toB[i], PubrelKind) != [m.msgid] {
      assert !IsRel(s.toB[i], m.msgid);
    }
    IdsOfAbsent(s.toB, m.msgid, PubrelKind);
    assert Pipeline(s.toA, s.toB) == [m.msgid] + Pipeline(s'.toA, s'.toB);
    FlowAfterRelease(IdsOf(s.toB, PubrelKind), Pipeline(s'.toA, s'.toB), m.(next := AwaitPubcomp), q, d, r);
  }

  /** q' is q without its j-th record. */
  ghost predicate OneLess(q: seq<Message>, q': seq<Message>, j: nat) {
    && j < |q| == |q'| + 1
    && (forall i :: 0 <= i < j ==> q'[i] == q[i]) && (forall i :: j <= i < |q'| ==> q'[i] == q[i + 1])
  }

  lemma RemoveAtIsOneLess(q: seq<Message>, j: nat)
    requires j < |q|
    ensures OneLess(q, RemoveAt(q, j), j)
  {
  }

  /** From position d of q and from position d - 1 of q' on, the records are the same. */
  ghost predicate SameTail(q: seq<Message>, q': seq<Message>, d: nat) {
    0 < d <= |q| == |q'| + 1 && forall i :: d - 1 <= i < |q'| ==> q'[i] == q[i + 1]
  }

  lemma CompleteInOrder(s: System, s': System, q: seq<Message>, q': seq<Message>, j: nat, d: nat, r: nat)
    requires ListInOrder(s, q, d, r) && OneLess(q, q', j) && q[j].publication.serial < |s.delivered|
    requires s'.delivered == s.delivered && s'.published == s.published
    ensures 0 < d <= r && ListInOrder(s', q', d - 1, r - 1) && SameTail(q, q', d)
  {
    var n := |s.delivered|;
    assert j < d;
    forall i | 0 <= i < |q'|
      ensures q'[i].next == AwaitPubcomp <==> i < r - 1
      ensures if i < d - 1 then q'[i].publication.serial < n else q'[i].publication.serial == n + (i - (d - 1))
    {
      OneLessAt(q, q', j, i);
    }
  }

  lemma OneLessAt(q: seq<Message>, q': seq<Message>, j: nat, i: nat)
    requires OneLess(q, q', j) && i < |q'|
    ensures q'[i] == if i < j then q[i] else q[i + 1]
  {
  }

  lemma AIgnoresInOrder(s: System, s': System, p: Packet, d: nat, r: nat)
    requires OrdInv(s, d, r) && s.connected && s'.connected && DistinctIds(s.a.outbound)
    requires p.Pubrec? ==> forall m :: m in s.a.outbound && m.msgid == p.msgid && m.qos == 2 ==> m.next == AwaitPubcomp
    requires s'.toB == s.toB && s.toA == [p] + s'.toA && Qos2Of(s'.a.outbound) == Qos2Of(s.a.outbound)
    requires s'.delivered == s.delivered && s'.published == s.published
    ensures OrdInv(s', d, r)
  {
    hide Introduces, IdsOf, Qos2Of;
    var q := Qos2Of(s.a.outbound);
    IdsOfFirst(p, s'.toA, PubrecKind);
    if p.Pubrec? {
      Qos2OfRecords(s.a.outbound);
      forall j | r <= j < |q| ensures q[j].msgid != p.msgid { assert q[j] in s.a.outbound; }
      assert Pipeline(s.toA, s.toB) == [p.msgid] + Pipeline(s'.toA, s'.toB);
      FlowSkipsRec(p.msgid, IdsOf(s.toB, PubrelKind), Pipeline(s'.toA, s'.toB), q, d, r);
    } else {
      assert IdsOf(s'.toA, PubrecKind) == IdsOf(s.toA, PubrecKind);
    }
  }

  lemma ReleaseUpdates(l: seq<Message>, i: nat, r: nat, m: Message)
    requires DistinctIds(l) && i < |l| && l[i].qos == 2 && m.qos == 2 && r < |Qos2Of(l)| && Qos2Of(l)[r] == l[i]
    ensures Qos2Of(l[i := m]) == Qos2Of(l)[r := m]
  {
    hide Qos2Of;
    Qos2OfUpdate(l, i, m);
    var j :| 0 <= j < |Qos2Of(l)| && Qos2Of(l)[j] == l[i] && Qos2Of(l[i := m]) == Qos2Of(l)[j := m];
    Qos2OfRecords(l);
    assert j == r;
  }

  lemma AReleasesInOrder(s: System, m: Message, d: nat, r: nat)
    requires Inv(s) && OrdInv(s, d, r) && s.connected && s.toA != [] && IsRec(s.toA[0], m.msgid)
    requires m in s.a.outbound && m.qos == 2 && m.next == AwaitPubrec
    ensures OrdInv(ASends(DropA(s), HandlePubrec(s.a, m.msgid)), d, r + 1)
  {
    var s' := ASends(DropA(s), HandlePubrec(s.a, m.msgid));
    hide OrdInv, Qos2Of, Exchanges, Accounting, StoreHolds, HandlePubrec, ChannelTypes, ASends, DropA;
    var i := ReleasedRecord(s, m);
    PubrecIsNext(s, s'.toA, d, r, m);
    ReleaseUpdates(s.a.outbound, i, r, m.(next := AwaitPubcomp));
    ReleaseInOrder(s, s', m, d, r);
  }

  lemma DropPubcomp(toA: seq<Packet>, rest: seq<Packet>, toB: seq<Packet>, p: Packet)
    requires toA == [p] + rest && !p.Pubrec?
    ensures Pipeline(rest, toB) == Pipeline(toA, toB)
  {
    IdsOfFirst(p, rest, PubrecKind);
  }

  lemma SameFlow(rels: seq<int>, pubs: seq<int>, q: seq<Message>, q': seq<Message>, d: nat, r: nat)
    requires 0 < d <= r <= |q| && SameTail(q, q', d) && FlowInOrder(rels, pubs, q, d, r)
    ensures FlowInOrder(rels, pubs, q', d - 1, r - 1)
  {
    assert q'[d - 1..r - 1] == q[d..r] && q'[r - 1..] == q[r..];
  }

  lemma ACompletesInOrder(s: System, d: nat, r: nat)
    requires Inv(s) && OrdInv(s, d, r) && s.connected && s.toA != [] && s.toA[0].Pubcomp?
        && Completes(s.a, s.toA[0].msgid)
    ensures 0 < d <= r && OrdInv(ASends(DropA(s), HandlePubcomp(s.a, s.toA[0].msgid)), d - 1, r - 1)
  {
    hide Inv, OrdInv, ASends, DropA, HandlePubcomp, Completes;
    var s' := ASends(DropA(s), HandlePubcomp(s.a, s.toA[0].msgid));
    var i, m := CompletedRecord(s);
    InvAccounting(s);
    DeliveredSerial(s, d, r, m.publication.serial);
    Qos2OfRemove(s.a.outbound, i);
    var q, q' := Qos2Of(s.a.outbound), Qos2Of(s'.a.outbound);
    var j :| 0 <= j < |q| && q[j] == m && q' == RemoveAt(q, j);
    RemoveAtIsOneLess(q, j);
    hide RemoveAt, Accounting, IsDelivered, Qos2Of;
    CompleteKeepsFlow(s, s', q, q', j, d, r);
  }

  lemma DeliveredSerial(s: System, d: nat, r: nat, k: nat)
    requires Accounting(s) && OrdInv(s, d, r) && IsDelivered(s.delivered, k)
    ensures k < |s.delivered|
  {
    DeliveredIsBefore(s, k);
  }

  lemma InvAccounting(s: System)
    requires Inv(s)
    ensures Accounting(s)
  {
  }

  lemma CompleteKeepsFlow(s: System, s': System, q: seq<Message>, q': seq<Message>, j: nat, d: nat, r: nat)
    requires OrdInv(s, d, r) && s.connected && s'.connected && q == Qos2Of(s.a.outbound) && q' == Qos2Of(s'.a.outbound)
    requires s.toA != [] && s.toA == [s.toA[0]] + s'.toA && s.toA[0].Pubcomp? && s'.toB == s.toB
    requires OneLess(q, q', j) && q[j].publication.serial < |s.delivered|
    requires s'.delivered == s.delivered && s'.published == s.published
    ensures 0 < d <= r && OrdInv(s', d - 1, r - 1)
  {
    hide Qos2Of, IdsOf, FlowInOrder, Pipeline, ListInOrder, OneLess;
    CompleteInOrder(s, s', q, q', j, d, r);
    DropPubcomp(s.toA, s'.toA, s.toB, s.toA[0]);
    SameFlow(IdsOf(s.toB, PubrelKind), Pipeline(s.toA, s.toB), q, q', d, r);
  }

  /** What A does with a packet that neither releases nor completes a QoS 2 exchange. */
  lemma AIgnores(s: System) returns (p: Packet)
    requires Inv(s) && s.toA != [] && NoAwaitedPubrec(s) && !(s.toA[0].Pubcomp? && Completes(s.a, s.toA[0].msgid))
    ensures p == s.toA[0]
    ensures p.Pubrec? ==> forall m :: m in s.a.outbound && m.msgid == p.msgid && m.qos == 2 ==> m.next == AwaitPubcomp
    ensures var s' := ASends(DropA(s), Handle(s.a, p));
      && s'.toB == s.toB && s.toA == [p] + s'.toA && Qos2Of(s'.a.outbound) == Qos2Of(s.a.outbound)
      && s'.connected == s.connected && s'.delivered == s.delivered && s'.published == s.published
  {
    p := s.toA[0];
    assert FitsA(p) && DistinctIds(s.a.outbound);
    hide Qos2Of, Exchanges, Accounting, StoreHolds, ClientsGood, ChannelTypes, Inv;
    var i := Find(s.a.outbound, p.msgid);
    var s' := ASends(DropA(s), Handle(s.a, p));
    assert s'.toB == s.toB + [] == s.toB;
    HeadTail(s.toA);
    if p.Puback? && i < |s.a.outbound| && s.a.outbound[i].qos == 1 { Qos2OfRemove(s.a.outbound, i); }
    forall m | m in s.a.outbound && m.msgid == p.msgid && m.qos == 2 && p.Pubrec? ensures m.next == AwaitPubcomp {
      HasIdFind(s.a.outbound, p.msgid);
      SameIdSameRecord(s.a.outbound, i, m);
    }
  }

  /** The head of A's channel is no PUBREC that a record is waiting for. */
  predicate NoAwaitedPubrec(s: System)
    requires s.toA != []
  {
    var i := Find(s.a.outbound, s.toA[0].msgid);
    s.toA[0].Pubrec? && i < |s.a.outbound| && s.a.outbound[i].qos == 2 ==> s.a.outbound[i].next != AwaitPubrec
  }

  lemma AReceivesInOrder(s: System, d: nat, r: nat) returns (d': nat, r': nat)
    requires Inv(s) && OrdInv(s, d, r) && s.connected && s.toA != []
    ensures OrdInv(ASends(DropA(s), Handle(s.a, s.toA[0])), d', r')
  {
    hide OrdInv, Qos2Of, Exchanges, Accounting, StoreHolds, HandlePubrec, HandlePubcomp, HandlePuback;
    d', r' := d, r;
    var p := s.toA[0];
    var i := Find(s.a.outbound, p.msgid);
    if !NoAwaitedPubrec(s) {
      assert s.a.outbound[i] in s.a.outbound;
      AReleasesInOrder(s, s.a.outbound[i], d, r);
      r' := r + 1;
    } else if p.Pubcomp? && Completes(s.a, p.msgid) {
      ACompletesInOrder(s, d, r);
      d', r' := d - 1, r - 1;
    } else {
      p := AIgnores(s);
      AIgnoresInOrder(s, ASends(DropA(s), Handle(s.a, p)), p, d, r);
    }
  }

  // ---------------------------------------------------------------- the theorem

  lemma CrashInOrder(s: System, keys: seq<Key>, d: nat, r: nat)
    requires Inv(s) && OrdInv(s, d, r) && Possible(s, CrashInPubcomp(keys)) && KeepsOrder(s, CrashInPubcomp(keys))
    ensures d > 0 && OrdInv(Apply(s, CrashInPubcomp(keys)), d - 1, r - 1)
  {
    ACompletesInOrder(s, d, r);
  }

  lemma ReconnectStep(s: System, d: nat, r: nat)
    requires Inv(s) && OrdInv(s, d, r) && !s.connected
    ensures OrdInv(Apply(s, Reconnect(|s.a.outbound|)), d, r)
  {
    hide Qos2Of, FlowInOrder, Exchanges, Accounting, StoreHolds, RetryPackets;
    assert s.a.outbound[..|s.a.outbound|] == s.a.outbound;
    EmptyFirst(RetryPackets(s.a.outbound));
    ReconnectInOrder(s, Apply(s, Reconnect(|s.a.outbound|)), d, r);
  }

  lemma ApplyKeepsOrder(s: System, act: Action, d: nat, r: nat) returns (d': nat, r': nat)
    requires Inv(s) && OrdInv(s, d, r) && KeepsOrder(s, act)
    ensures OrdInv(Apply(s, act), d', r')
  {
    hide Inv, Handle, HandlePubcomp, RetryPackets, Qos2Of, FlowInOrder, Accept, Restore;
    d', r' := d, r;
    if Possible(s, act) {
      match act {
        case PublishNew(topic, payload, qos, retain) => PublishInOrder(s, topic, payload, qos, retain, d, r);
        case Retry(chosen) => RetryInOrder(s, Apply(s, act), RetryPackets(Chosen(s.a.outbound, chosen)), d, r);
        case BReceives => d' := BReceivesInOrder(s, d, r);
        case AReceives => d', r' := AReceivesInOrder(s, d, r);
        case Disconnect =>
        case Reconnect(n) =>
          ReconnectStep(s, d, r);
        case RestartA(keys) =>
        case RestartB(keys) =>
        case CrashInPubcomp(keys) =>
          CrashInOrder(s, keys, d, r);
          d', r' := d - 1, r - 1;
        case CrashInPubrel(keys) =>
      }
    }
  }

  lemma {:induction false} OrderedRunKeepsOrder(acts: seq<Action>) returns (d: nat, r: nat)
    requires OrderedRun(acts)
    ensures OrdInv(Run(acts), d, r)
  {
    if acts == [] {
      d, r := 0, 0;
    } else {
      d, r := OrderedRunKeepsOrder(acts[..|acts| - 1]);
      RunKeepsInv(acts[..|acts| - 1]);
      d, r := ApplyKeepsOrder(Run(acts[..|acts| - 1]), acts[|acts| - 1], d, r);
    }
  }

  /** In every ordered run B's application has seen, at all times, a prefix of A's publications. */
  lemma {:induction false} DeliveredInOrder(acts: seq<Action>)
    requires OrderedRun(acts)
    ensures Run(acts).delivered <= Run(acts).published
  {
    var d, r := OrderedRunKeepsOrder(acts);
  }
}
