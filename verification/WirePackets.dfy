/** The packets of the delivery protocol as the packets that `MqttWire` turns into bytes. */
module WirePackets {
  import opened Sequences
  import opened Bytes
  import opened MqttTypes
  import Wire = MqttWire

  const MAX_TOPIC := 65535

  /** The labels of publications are not sent. */
  function OnWire(p: Packet): Wire.Packet {
    match p
    case Publish(id, qos, dup, retain, m) => Wire.Publish(m.topic, id, qos, dup, retain, m.payload)
    case Puback(id) => Wire.Ack(Wire.PUBACK, id, false)
    case Pubrec(id) => Wire.Ack(Wire.PUBREC, id, false)
    case Pubrel(id, dup) => Wire.Ack(Wire.PUBREL, id, dup)
    case Pubcomp(id) => Wire.Ack(Wire.PUBCOMP, id, false)
  }

  /** What the receive loop makes of a packet that was read. */
  function FromWire(p: Wire.Packet, serial: nat): Packet
    requires p.Ack? ==> Wire.PUBACK <= p.kind <= Wire.PUBCOMP
  {
    match p
    case Publish(topic, id, qos, dup, retain, payload) =>
      Publish(id, qos, dup, retain, Publication(topic, payload, serial))
    case Ack(kind, id, dup) =>
      if kind == Wire.PUBACK then Puback(id)
      else if kind == Wire.PUBREC then Pubrec(id)
      else if kind == Wire.PUBREL then Pubrel(id, dup)
      else Pubcomp(id)
  }

  /** The topic and the whole body fit their length fields. */
  predicate Fits(topic: seq<byte>, payload: seq<byte>, qos: nat) {
    |topic| <= MAX_TOPIC && 2 + |topic| + (if qos > 0 then 2 else 0) + |payload| <= Wire.MAX_REMAINING
  }

  /** The packet can be sent at all, and fits. */
  predicate Travels(p: Packet) {
    && Wire.Sendable(OnWire(p))
    && (p.Publish? ==> Fits(p.publication.topic, p.publication.payload, p.qos))
  }

  /** Reading the packet's bytes from a socket gives the packet and consumes nothing beyond it. */
  predicate ReadBack(p: Packet, rest: seq<byte>)
    requires Wire.Sendable(OnWire(p))
  {
    var next := Wire.NextFrame(Wire.PacketBytes(OnWire(p)) + rest);
    && next.Complete? && next.rest == rest
    && Wire.ReadPacket(next.frame.header, next.frame.body) == Wire.Parsed(OnWire(p))
  }

  lemma BodyLength(p: Packet)
    ensures |Wire.Body(OnWire(p))| ==
      if p.Publish? then 2 + |p.publication.topic| + (if p.qos > 0 then 2 else 0) + |p.publication.payload| else 2
  {
  }

  /** A packet that can be sent is read back from a socket exactly when it fits, and what is read is the packet
      itself. */
  lemma TravelsOnWire(p: Packet, rest: seq<byte>)
    requires Wire.Sendable(OnWire(p))
    ensures ReadBack(p, rest) <==> Travels(p)
    ensures p.Publish? || FromWire(OnWire(p), 0) == p
    ensures p.Publish? ==> FromWire(OnWire(p), p.publication.serial) == p
  {
    BodyLength(p);
    hide Wire.Body, Wire.NextFrame, Wire.ReadPacket, Wire.PacketBytes;
    Wire.WireRoundTrip(OnWire(p), rest);
  }

  /** From the store it is restored as long as it fits. */
  lemma TravelsInStore(p: Packet)
    requires Travels(p)
    ensures Wire.RestorePacket(Wire.PacketBytes(OnWire(p))) == Wire.Parsed(OnWire(p))
  {
    hide Wire.Body, Wire.RestorePacket, Wire.PacketBytes;
    Wire.StoreRoundTrip(OnWire(p));
  }
}
