/** Two clients of this code, A publishing to B, joined by one FIFO channel each way.  A run is any
    sequence of actions; an action that is not possible in the current state changes nothing. */
module Session {
  import opened Sequences
  import opened Bytes
  import opened MqttTypes
  import opened WirePackets
  import opened ClientHandlers

  datatype System = System(
    a: ClientState,
    b: ClientState,
    connected: bool,
    toB: seq<Packet>,
    toA: seq<Packet>,
    published: seq<Handover>,  // every QoS 2 publication accepted from A's application
    delivered: seq<Handover>,  // every QoS 2 publication handed to B's application, and gone from B's store
    lower: seq<Handover>,      // the QoS 0 and QoS 1 publications handed to B's application
    interrupted: seq<Handover>, // the QoS 2 publications during whose hand-over B died
    offered: seq<Packet>)       // every QoS 0 and QoS 1 publication accepted from A's application, as first sent

  datatype Action =
    | PublishNew(topic: seq<byte>, payload: seq<byte>, qos: nat, retain: bool)
    | Retry(chosen: seq<nat>)        // an in-session retry pass writes these entries of A's list
    | BReceives                      // B handles the packet at the head of its channel
    | AReceives
    | Lose(towardsB: bool, k: nat)   // a failed write: this packet never reaches the peer
    | Disconnect                     // both channels lose everything
    | Reconnect(n: nat)              // the retry pass on CONNACK writes the first n entries
    | RestartA(keys: seq<Key>)       // A dies and restarts from its store
    | RestartB(keys: seq<Key>)
    | CrashInPubcomp(keys: seq<Key>) // A dies between the two removals made on PUBCOMP
    | CrashInPubrel(keys: seq<Key>)  // B dies between the hand-over and the removal made on PUBREL

  const EMPTY_CLIENT := ClientState([], [], 0, map[])
  const INITIAL := System(EMPTY_CLIENT, EMPTY_CLIENT, false, [], [], [], [], [], [], [])

  function OnlyQos2(hs: seq<Handover>): seq<Handover> {
    if hs == [] then [] else OnlyQos2(hs[..|hs| - 1]) + if hs[|hs| - 1].qos == 2 then [hs[|hs| - 1]] else []
  }

  function NotQos2(hs: seq<Handover>): seq<Handover> {
    if hs == [] then [] else NotQos2(hs[..|hs| - 1]) + if hs[|hs| - 1].qos == 2 then [] else [hs[|hs| - 1]]
  }

  /** `keys` lists every key of the store once: what `pkeys` returns, in any order. */
  ghost predicate ListsKeys(store: map<Key, Packet>, keys: seq<Key>) {
    && (forall k :: k in keys <==> k in store)
    && (forall i, j :: 0 <= i < j < |keys| ==> keys[i] != keys[j])
  }

  /** The list entries at the given positions, in the order given; positions past the end are skipped. */
  function Chosen(l: seq<Message>, ks: seq<nat>): (r: seq<Message>)
    ensures forall m :: m in r ==> m in l
  {
    if ks == [] then []
    else Chosen(l, ks[..|ks| - 1]) + if ks[|ks| - 1] < |l| then [l[ks[|ks| - 1]]] else []
  }

  function ASends(s: System, o: Outcome): System {
    s.(a := o.client, toB := s.toB + o.sent)
  }

  function BSends(s: System, o: Outcome): System {
    s.(b := o.client, toA := s.toA + o.sent,
       delivered := s.delivered + OnlyQos2(o.handed), lower := s.lower + NotQos2(o.handed))
  }

  function Cut(s: System): System {
    s.(connected := false, toB := [], toA := [])
  }

  function NextSerial(s: System, qos: nat): nat {
    if qos == 2 then |s.published| else |s.offered|
  }

  /** `MQTTClient_publish` up to the write: QoS 0 takes no id; an id of 0 refuses the publication. */
  function Accept(s: System, topic: seq<byte>, payload: seq<byte>, qos: nat, retain: bool): System
    requires s.a.msgID <= MAX_MSG_ID
  {
    var m := Publication(topic, payload, NextSerial(s, qos));
    if qos == 0 then
      var p := Publish(0, 0, false, retain, m);
      ASends(s, StartPublish(s.a, p)).(offered := s.offered + [p])
    else
      var id := NextId(s.a.msgID, Ids(s.a.outbound));
      if id == 0 then s
      else
        var p := Publish(id, qos, false, retain, m);
        var s1 := ASends(s, StartPublish(s.a.(msgID := id), p));
        if qos == 2 then s1.(published := s.published + [Handover(2, retain, m)]) else s1.(offered := s.offered + [p])
  }

  ghost predicate Possible(s: System, act: Action) {
    match act
    case PublishNew(topic, payload, qos, _) =>
      s.connected && qos <= 2 && s.a.msgID <= MAX_MSG_ID && Fits(topic, payload, qos)
    case Retry(_) => s.connected
    case BReceives => s.connected && s.toB != []
    case AReceives => s.connected && s.toA != []
    case Lose(towardsB, k) => k < |if towardsB then s.toB else s.toA|
    case Disconnect => true
    case Reconnect(n) => !s.connected && n <= |s.a.outbound|
    case RestartA(keys) => ListsKeys(s.a.store, keys)
    case RestartB(keys) => ListsKeys(s.b.store, keys)
    case CrashInPubcomp(keys) =>
      && s.connected && s.toA != [] && s.toA[0].Pubcomp? && Completes(s.a, s.toA[0].msgid)
      && ListsKeys(RemoveKey(s.a.store, Sent(s.toA[0].msgid)), keys)
    case CrashInPubrel(keys) =>
      && s.connected && s.toB != [] && s.toB[0].Pubrel? && Handle(s.b, s.toB[0]).handed != []
      && ListsKeys(s.b.store, keys)
  }

  ghost function Apply(s: System, act: Action): System {
    if !Possible(s, act) then s
    else match act
      case PublishNew(topic, payload, qos, retain) => Accept(s, topic, payload, qos, retain)
      case Retry(chosen) => ASends(s, Retries(s.a, Chosen(s.a.outbound, chosen)))
      case BReceives => BSends(s.(toB := s.toB[1..]), Handle(s.b, s.toB[0]))
      case AReceives => ASends(s.(toA := s.toA[1..]), Handle(s.a, s.toA[0]))
      case Lose(towardsB, k) =>
        if towardsB then s.(toB := RemoveAt(s.toB, k)) else s.(toA := RemoveAt(s.toA, k))
      case Disconnect => Cut(s)
      case Reconnect(n) => ASends(s.(connected := true), Retries(s.a, s.a.outbound[..n]))
      case RestartA(keys) => Cut(s).(a := Restore(s.a.store, keys))
      case RestartB(keys) => Cut(s).(b := Restore(s.b.store, keys))
      case CrashInPubcomp(keys) =>
        Cut(s).(a := Restore(RemoveKey(s.a.store, Sent(s.toA[0].msgid)), keys))
      case CrashInPubrel(keys) =>
        Cut(s).(b := Restore(s.b.store, keys), interrupted := s.interrupted + Handle(s.b, s.toB[0]).handed)
  }

  ghost function Run(acts: seq<Action>): System {
    if acts == [] then INITIAL else Apply(Run(acts[..|acts| - 1]), acts[|acts| - 1])
  }
}
