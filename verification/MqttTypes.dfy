/** Values shared by the MQTT modules: publications, in-flight records, packets and store keys. */
module MqttTypes {
  import opened Bytes

  const MAX_MSG_ID := 65535

  /** The content of a PUBLISH.  `serial` numbers the QoS 2 publications of a run, and the others; no branch of
      the client reads it, it only lets the theorems tell two equal messages apart. */
  datatype Publication = Publication(topic: seq<byte>, payload: seq<byte>, serial: nat)

  /** The acknowledgement a record waits for (`nextMessageType`); it is not set for QoS 1. */
  datatype Awaited = NotSet | AwaitPubrec | AwaitPubrel | AwaitPubcomp

  /** One in-flight record of `outboundMsgs` or `inboundMsgs`. */
  datatype Message = Message(msgid: nat, qos: nat, retain: bool, publication: Publication, next: Awaited)

  datatype Packet =
    | Publish(msgid: nat, qos: nat, dup: bool, retain: bool, publication: Publication)
    | Puback(msgid: nat)
    | Pubrec(msgid: nat)
    | Pubrel(msgid: nat, dup: bool)
    | Pubcomp(msgid: nat)

  /** Keys of the persistent store: `s-<id>`, `sc-<id>` and `r-<id>`. */
  datatype Key = Sent(id: nat) | Rel(id: nat) | Received(id: nat)

  /** What the application receives through `Protocol_processPublication`. */
  datatype Handover = Handover(qos: nat, retain: bool, publication: Publication)

  /** The session state of one client that the delivery protocol uses. */
  datatype ClientState = ClientState(
    outbound: seq<Message>,
    inbound: seq<Message>,
    msgID: nat,
    store: map<Key, Packet>)

  /** The effect of one handler: new state, packets written to the socket, publications handed over. */
  datatype Outcome = Outcome(client: ClientState, sent: seq<Packet>, handed: seq<Handover>)

  ghost predicate DistinctIds(l: seq<Message>) {
    forall i, j :: 0 <= i < j < |l| ==> l[i].msgid != l[j].msgid
  }

  function Ids(l: seq<Message>): (ids: set<nat>)
    ensures forall m :: m in l ==> m.msgid in ids
  {
    set m | m in l :: m.msgid
  }

  /** Position of the first record with this id, or |l|. */
  function Find(l: seq<Message>, id: nat): (i: nat)
    ensures i <= |l|
    ensures i < |l| ==> l[i].msgid == id
    ensures forall j :: 0 <= j < i ==> l[j].msgid != id
  {
    if l == [] then 0
    else if l[0].msgid == id then 0
    else 1 + Find(l[1..], id)
  }

  function RemoveKey(store: map<Key, Packet>, key: Key): map<Key, Packet> {
    store - {key}
  }
}
