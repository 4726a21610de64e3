/** The session logic of MQTTProtocolClient.c as functions on the client state, one per handler. */
module ClientHandlers {
  import opened Sequences
  import opened MqttTypes

  // ---------------------------------------------------------------- message ids

  /** The id reached from `msgID` by k increments that wrap from 65535 to 1. */
  function NthId(msgID: nat, k: nat): (id: nat)
    requires msgID <= MAX_MSG_ID && k >= 1
    ensures 1 <= id <= MAX_MSG_ID
  {
    (msgID + k - 1) % MAX_MSG_ID + 1
  }

  /** `assignMsgId`: the first unused id among the k-th, (k+1)-th, ... successors; the search gives up
      with 0 when it is back at the id it started from. */
  function NextIdFrom(msgID: nat, used: set<nat>, k: nat): nat
    requires msgID <= MAX_MSG_ID && 1 <= k <= MAX_MSG_ID
    decreases MAX_MSG_ID - k
  {
    if NthId(msgID, k) == msgID then 0
    else if NthId(msgID, k) !in used then NthId(msgID, k)
    else if k == MAX_MSG_ID then 0
    else NextIdFrom(msgID, used, k + 1)
  }

  function NextId(msgID: nat, used: set<nat>): nat
    requires msgID <= MAX_MSG_ID
  {
    NextIdFrom(msgID, used, 1)
  }

  // ---------------------------------------------------------------- sending half

  function CreateMessage(p: Packet): Message
    requires p.Publish?
  {
    Message(p.msgid, p.qos, p.retain, p.publication, if p.qos == 2 then AwaitPubrec else NotSet)
  }

  /** Writing a PUBLISH or PUBREL first saves it in the store (QoS 0 is not saved). */
  function Persist(store: map<Key, Packet>, p: Packet): map<Key, Packet> {
    match p
    case Publish(id, qos, _, _, _) => if qos != 0 then store[Sent(id) := p] else store
    case Pubrel(id, _) => store[Rel(id) := p]
    case _ => store
  }

  function StartPublish(c: ClientState, p: Packet): Outcome
    requires p.Publish?
  {
    Outcome(c.(outbound := if p.qos > 0 then c.outbound + [CreateMessage(p)] else c.outbound,
               store := Persist(c.store, p)),
            [p], [])
  }

  /** The packet one step of `retries` writes for a record (QoS 1, or QoS 2 waiting for PUBREC: the
      PUBLISH again with DUP; waiting for PUBCOMP: the PUBREL again, with dup clear). */
  function RetryPacket(m: Message): seq<Packet> {
    if m.qos == 1 || (m.qos == 2 && m.next == AwaitPubrec) then
      [Publish(m.msgid, m.qos, true, m.retain, m.publication)]
    else if m.qos != 0 && m.next == AwaitPubcomp then
      [Pubrel(m.msgid, false)]
    else
      []
  }

  function RetryPackets(l: seq<Message>): seq<Packet> {
    if l == [] then [] else RetryPackets(l[..|l| - 1]) + RetryPacket(l[|l| - 1])
  }

  function PersistAll(store: map<Key, Packet>, ps: seq<Packet>): map<Key, Packet> {
    if ps == [] then store else Persist(PersistAll(store, ps[..|ps| - 1]), ps[|ps| - 1])
  }

  /** Retrying the chosen records, in list order. */
  function Retries(c: ClientState, chosen: seq<Message>): Outcome {
    Outcome(c.(store := PersistAll(c.store, RetryPackets(chosen))), RetryPackets(chosen), [])
  }

  function HandlePuback(c: ClientState, id: nat): Outcome {
    var i := Find(c.outbound, id);
    if i == |c.outbound| || c.outbound[i].qos != 1 then
      Outcome(c, [], [])
    else
      Outcome(c.(outbound := RemoveAt(c.outbound, i), store := RemoveKey(c.store, Sent(id))), [], [])
  }

  function HandlePubrec(c: ClientState, id: nat): Outcome {
    var i := Find(c.outbound, id);
    if i == |c.outbound| || c.outbound[i].qos != 2 || c.outbound[i].next != AwaitPubrec then
      Outcome(c, [], [])
    else
      Outcome(c.(outbound := c.outbound[i := c.outbound[i].(next := AwaitPubcomp)],
                 store := Persist(c.store, Pubrel(id, false))),
              [Pubrel(id, false)], [])
  }

  /** True when PUBCOMP for this id completes an exchange. */
  predicate Completes(c: ClientState, id: nat) {
    var i := Find(c.outbound, id);
    i < |c.outbound| && c.outbound[i].qos == 2 && c.outbound[i].next == AwaitPubcomp
  }

  function HandlePubcomp(c: ClientState, id: nat): Outcome {
    if !Completes(c, id) then
      Outcome(c, [], [])
    else
      Outcome(c.(outbound := RemoveAt(c.outbound, Find(c.outbound, id)),
                 store := RemoveKey(RemoveKey(c.store, Sent(id)), Rel(id))),
              [], [])
  }

  // ---------------------------------------------------------------- receiving half

  /** The packet factory saves a QoS 2 PUBLISH before it is handled. */
  function HandlePublish(c: ClientState, p: Packet): Outcome
    requires p.Publish?
  {
    if p.qos == 0 then
      Outcome(c, [], [Handover(0, p.retain, p.publication)])
    else if p.qos == 1 then
      Outcome(c, [Puback(p.msgid)], [Handover(1, p.retain, p.publication)])
    else if p.qos == 2 then
      var m := Message(p.msgid, 2, p.retain, p.publication, AwaitPubrel);
      var i := Find(c.inbound, p.msgid);
      Outcome(c.(inbound := if i < |c.inbound| then c.inbound[i := m] else c.inbound + [m],
                 store := c.store[Received(p.msgid) := p]),
              [Pubrec(p.msgid)], [])
    else
      Outcome(c, [], [])
  }

  function HandlePubrel(c: ClientState, id: nat, dup: bool): Outcome {
    var i := Find(c.inbound, id);
    if i == |c.inbound| then
      Outcome(c, if dup then [Pubcomp(id)] else [], [])
    else if c.inbound[i].qos != 2 || c.inbound[i].next != AwaitPubrel then
      Outcome(c, [], [])
    else
      Outcome(c.(inbound := RemoveAt(c.inbound, i), store := RemoveKey(c.store, Received(id))),
              [Pubcomp(id)],
              [Handover(2, c.inbound[i].retain, c.inbound[i].publication)])
  }

  /** The dispatch on the packet type made by the receive loop. */
  function Handle(c: ClientState, p: Packet): Outcome {
    match p
    case Publish(_, _, _, _, _) => HandlePublish(c, p)
    case Puback(id) => HandlePuback(c, id)
    case Pubrec(id) => HandlePubrec(c, id)
    case Pubrel(id, dup) => HandlePubrel(c, id, dup)
    case Pubcomp(id) => HandlePubcomp(c, id)
  }

  // ---------------------------------------------------------------- what a handler leaves alone

  /** At most the records and the stored packets of this id differ. */
  ghost predicate OnlyId(c: ClientState, d: ClientState, id: nat) {
    && c.msgID == d.msgID
    && (forall m: Message :: m.msgid != id ==>
          (m in c.outbound <==> m in d.outbound) && (m in c.inbound <==> m in d.inbound))
    && (forall k: Key :: k.id != id ==> (k in c.store <==> k in d.store) && (k in c.store ==> c.store[k] == d.store[k]))
  }

  lemma RecordRemoved(l: seq<Message>, i: nat)
    requires i < |l|
    ensures forall m: Message :: m.msgid != l[i].msgid ==> (m in l <==> m in RemoveAt(l, i))
  {
    assert l == l[..i] + [l[i]] + l[i + 1..];
  }

  lemma RecordReplaced(l: seq<Message>, i: nat, r: Message)
    requires i < |l| && r.msgid == l[i].msgid
    ensures forall m: Message :: m.msgid != r.msgid ==> (m in l <==> m in l[i := r])
    ensures r in l[i := r] && Ids(l[i := r]) == Ids(l)
  {
    assert l == l[..i] + [l[i]] + l[i + 1..];
    assert l[i := r] == l[..i] + [r] + l[i + 1..];
    assert l[i := r][i] == r;
  }

  // ---------------------------------------------------------------- restart

  /** `insertInOrder`: before the first record with a larger id, or at the end. */
  function InsertInOrder(l: seq<Message>, m: Message): (r: seq<Message>) {
    if l == [] then [m]
    else if m.msgid < l[0].msgid then [m] + l
    else [l[0]] + InsertInOrder(l[1..], m)
  }

  /** Behind all records with ids up to this one, as far as they stand in front of a larger id. */
  lemma {:induction false} InsertPlace(l: seq<Message>, m: Message) returns (at: nat)
    ensures at <= |l| && InsertInOrder(l, m) == l[..at] + [m] + l[at..]
    ensures (forall j :: 0 <= j < at ==> l[j].msgid <= m.msgid) && (at < |l| ==> m.msgid < l[at].msgid)
  {
    at := 0;
    if l != [] && m.msgid >= l[0].msgid {
      var k := InsertPlace(l[1..], m);
      at := k + 1;
      assert l[1..][k..] == l[at..] && l[..at] == [l[0]] + l[1..][..k];
    }
  }

  lemma InsertSkips(list: seq<Message>, index: nat, msg: Message)
    requires index < |list| && msg.msgid >= list[index].msgid
    ensures list[..index] + InsertInOrder(list[index..], msg)
            == list[..index + 1] + InsertInOrder(list[index + 1..], msg)
  {
    assert list[index..][1..] == list[index + 1..];
    var rest := InsertInOrder(list[index + 1..], msg);
    assert list[..index + 1] + rest == list[..index] + ([list[index]] + rest);
  }

  lemma InsertStops(rest: seq<Message>, msg: Message)
    requires rest == [] || msg.msgid < rest[0].msgid
    ensures InsertInOrder(rest, msg) == [msg] + rest
  {
  }

  /** The scan of `wrapMsgID` over a list of ids: the position of the largest gap found so far
      (0 stands for "none", the gap from the last id round to the first). */
  function LargestGap(ids: seq<int>, i: nat, gap: int, best: nat): (r: nat)
    requires 1 <= i <= |ids| && best < i
    ensures r < |ids|
    decreases |ids| - i
  {
    if i == |ids| then best
    else if ids[i] - ids[i - 1] > gap then LargestGap(ids, i + 1, ids[i] - ids[i - 1], i)
    else LargestGap(ids, i + 1, gap, best)
  }

  function WrapPoint(ids: seq<int>): (r: nat)
    ensures r == 0 || r < |ids|
  {
    if ids == [] then 0
    else LargestGap(ids, 1, MAX_MSG_ID - ids[|ids| - 1] + ids[0], 0)
  }

  function IdSeq(l: seq<Message>): (r: seq<int>)
    ensures |r| == |l|
  {
    seq(|l|, i requires 0 <= i < |l| => l[i].msgid)
  }

  function WrapMsgId(l: seq<Message>): seq<Message> {
    RotateAt(l, WrapPoint(IdSeq(l)))
  }

  /** A client being opened; `bad` are the stored keys whose bytes make no packet. */
  datatype Opening = Opening(client: ClientState, bad: set<Key>)

  /** One key of the loop in `restore`; a bad record is removed. */
  function ReadKey(o: Opening, key: Key): Opening {
    var c := o.client;
    if key in o.bad then o.(bad := o.bad - {key})
    else if key !in c.store then o
    else match key
      case Received(_) =>
        if c.store[key].Publish? then
          o.(client := c.(inbound := c.inbound + [CreateMessage(c.store[key]).(next := AwaitPubrel)]))
        else o
      case Sent(_) =>
        if c.store[key].Publish? then
          var m := CreateMessage(c.store[key]);
          var m' := if Rel(m.msgid) in c.store || Rel(m.msgid) in o.bad then m.(next := AwaitPubcomp) else m;
          o.(client := c.(outbound := InsertInOrder(c.outbound, m')))
        else o
      case Rel(_) =>
        if c.store[key].Pubrel? && Sent(c.store[key].msgid) !in c.store && Sent(c.store[key].msgid) !in o.bad then
          o.(client := c.(store := RemoveKey(c.store, key)))
        else o
  }

  function ReadKeys(o: Opening, keys: seq<Key>): Opening {
    if keys == [] then o else ReadKey(ReadKeys(o, keys[..|keys| - 1]), keys[|keys| - 1])
  }

  /** A new client opened on an existing store, whose keys are listed in the order `keys`. */
  function Open(store: map<Key, Packet>, bad: set<Key>, keys: seq<Key>): Opening {
    var o := ReadKeys(Opening(ClientState([], [], 0, store), bad), keys);
    o.(client := o.client.(outbound := WrapMsgId(o.client.outbound)))
  }

  /** The same when every stored record is readable. */
  function RestoreKey(c: ClientState, key: Key): ClientState {
    ReadKey(Opening(c, {}), key).client
  }

  function RestoreKeys(c: ClientState, keys: seq<Key>): ClientState {
    if keys == [] then c else RestoreKey(RestoreKeys(c, keys[..|keys| - 1]), keys[|keys| - 1])
  }

  function Restore(store: map<Key, Packet>, keys: seq<Key>): ClientState {
    var c := RestoreKeys(ClientState([], [], 0, store), keys);
    c.(outbound := WrapMsgId(c.outbound))
  }

  /** Exactly the bad records that are listed are gone afterwards. */
  lemma {:induction false} BadRecordsGo(o: Opening, keys: seq<Key>)
    ensures ReadKeys(o, keys).bad == o.bad - set k | k in keys
  {
    if keys != [] {
      var front, k := keys[..|keys| - 1], keys[|keys| - 1];
      BadRecordsGo(o, front);
      assert keys == front + [k];
    }
  }

  lemma {:induction false} ReadableKeys(c: ClientState, keys: seq<Key>)
    ensures ReadKeys(Opening(c, {}), keys) == Opening(RestoreKeys(c, keys), {})
  {
    if keys != [] { ReadableKeys(c, keys[..|keys| - 1]); }
  }

  lemma OpenReadable(store: map<Key, Packet>, keys: seq<Key>)
    ensures Open(store, {}, keys) == Opening(Restore(store, keys), {})
  {
    ReadableKeys(ClientState([], [], 0, store), keys);
  }

  /** The bad keys stand for no stored packet, and no stored packet has the id of one. */
  ghost predicate Apart(bad: set<Key>, store: map<Key, Packet>) {
    forall b: Key, k: Key :: b in bad && k in store ==> b != k && b.id != store[k].msgid
  }

  /** Bad records whose ids no other record has: what is restored is what would be without them. */
  lemma OpenApart(store: map<Key, Packet>, bad: set<Key>, keys: seq<Key>)
    requires Apart(bad, store)
    ensures Open(store, bad, keys) == Opening(Restore(store, keys), bad - set k | k in keys)
  {
    var c := ClientState([], [], 0, store);
    BadRecordsGo(Opening(c, bad), keys);
    ReadApart(Opening(c, bad), keys);
  }

  lemma {:induction false} ReadApart(o: Opening, keys: seq<Key>)
    requires Apart(o.bad, o.client.store)
    ensures var r := ReadKeys(o, keys); r.client == RestoreKeys(o.client, keys) && Apart(r.bad, r.client.store)
  {
    if keys != [] {
      ReadApart(o, keys[..|keys| - 1]);
      hide ReadKeys, RestoreKeys;
    }
  }

  /** Without that it depends on the order of the keys: the PUBLISH of an exchange whose PUBREL record is bad is
      taken to be released if its key comes first, and goes back to waiting for PUBREC if it comes last. */
  lemma BadReleaseByOrder(p: Packet)
    requires p.Publish? && p.qos == 2
    ensures var store, bad, id := map[Sent(p.msgid) := p], {Rel(p.msgid)}, p.msgid;
      && Open(store, bad, [Sent(id), Rel(id)]).client.outbound == [CreateMessage(p).(next := AwaitPubcomp)]
      && Open(store, bad, [Rel(id), Sent(id)]).client.outbound == [CreateMessage(p)]
      && CreateMessage(p).next == AwaitPubrec
  {
    var id, c := p.msgid, ClientState([], [], 0, map[Sent(p.msgid) := p]);
    var o := Opening(c, {Rel(id)});
    TwoKeys(o, Sent(id), Rel(id));
    TwoKeys(o, Rel(id), Sent(id));
    assert o.bad - {Rel(id)} == {};
  }

  lemma TwoKeys(o: Opening, k: Key, l: Key)
    ensures ReadKeys(o, [k, l]) == ReadKey(ReadKey(o, k), l)
  {
    assert [k, l][..1] == [k] && [k][..0] == [];
    assert ReadKeys(o, [k]) == ReadKey(o, k);
  }
}
