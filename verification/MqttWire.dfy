/** MQTT packets as bytes: framing with the variable-length remaining length, and PUBLISH and
    acknowledgement packets. */
module MqttWire {
  import opened Sequences
  import opened Bytes

  const MAX_REMAINING := 268435455

  // ---------------------------------------------------------------- remaining length

  function EncodeLength(n: nat): (s: seq<byte>)
    ensures |s| > 0
  {
    if n < 128 then [n] else [n % 128 + 128] + EncodeLength(n / 128)
  }

  /** `MQTTPacket_encode` */
  method Encode(length: nat) returns (buf: seq<byte>)
    ensures buf == EncodeLength(length)
  {
    buf := [];
    var left := length;
    var more := true;
    Assoc([], EncodeLength(length), []);
    hide EncodeLength;
    while more
      invariant more ==> EncodeLength(length) == buf + EncodeLength(left)
      invariant !more ==> EncodeLength(length) == buf
      decreases left, more
    {
      var d := left % 128;
      EncodeUnfolds(left);
      Assoc(buf, [d + 128], EncodeLength(left / 128));
      left := left / 128;
      if left > 0 {
        d := d + 128;
      }
      buf := buf + [d];
      more := left > 0;
    }
  }

  datatype Length = More | Bad | Length(value: nat, size: nat)

  /** Reads a remaining length of which k bytes have been read; a fifth byte is never read. */
  function DecodeLength(s: seq<byte>, k: nat): (r: Length)
    requires k <= 4
    ensures r.Length? ==> 0 < r.size <= |s| && k + r.size <= 4
    decreases 4 - k
  {
    if k == 4 then Bad
    else if s == [] then More
    else if s[0] < 128 then Length(s[0], 1)
    else match DecodeLength(s[1..], k + 1)
      case Length(v, n) => Length(s[0] - 128 + 128 * v, n + 1)
      case other => other
  }

  function Power128(k: nat): nat {
    if k == 0 then 1 else 128 * Power128(k - 1)
  }

  /** Decoding inverts encoding exactly for the values that fit in the digits left. */
  lemma {:induction false} LengthRoundTrip(n: nat, k: nat, rest: seq<byte>)
    requires k <= 4 && (k == 4 ==> n > 0)
    ensures n < Power128(4 - k) ==> DecodeLength(EncodeLength(n) + rest, k) == Length(n, |EncodeLength(n)|)
    ensures n >= Power128(4 - k) ==> DecodeLength(EncodeLength(n) + rest, k) == Bad
    decreases 4 - k
  {
    hide EncodeLength, DecodeLength, Power128;
    if k == 4 {
      FourDigits(EncodeLength(n) + rest);
    } else if n < 128 {
      LastDigit(n, k, rest);
    } else {
      var d, tail := n % 128 + 128, EncodeLength(n / 128);
      FirstDigit(n, 4 - k);
      LengthRoundTrip(n / 128, k + 1, rest);
      DecodeDigit(d, tail + rest, k);
      Div128(n, Power128(3 - k));
      assert ([d] + tail) + rest == [d] + (tail + rest);
    }
  }

  lemma FourDigits(s: seq<byte>)
    ensures DecodeLength(s, 4) == Bad && Power128(0) == 1
  {
  }

  lemma EncodeUnfolds(n: nat)
    ensures EncodeLength(n) == if n / 128 == 0 then [n % 128] else [n % 128 + 128] + EncodeLength(n / 128)
  {
  }

  lemma FirstDigit(n: nat, k: nat)
    requires n >= 128 && k > 0
    ensures EncodeLength(n) == [n % 128 + 128] + EncodeLength(n / 128) && Power128(k) == 128 * Power128(k - 1)
  {
  }

  lemma LastDigit(n: nat, k: nat, rest: seq<byte>)
    requires n < 128 && k < 4
    ensures DecodeLength(EncodeLength(n) + rest, k) == Length(n, |EncodeLength(n)|) && n < Power128(4 - k)
  {
    PowerIsPositive(3 - k);
  }

  lemma DecodeDigit(d: byte, s: seq<byte>, k: nat)
    requires k < 4 && d >= 128
    ensures DecodeLength([d] + s, k) ==
      match DecodeLength(s, k + 1)
      case Length(v, n) => Length(d - 128 + 128 * v, n + 1)
      case other => other
  {
    assert ([d] + s)[1..] == s;
  }

  lemma Div128(n: nat, m: nat)
    ensures n < 128 * m <==> n / 128 < m
  {
  }

  lemma {:induction false} PowerIsPositive(k: nat)
    ensures Power128(k) >= 1
  {
    if k > 0 { PowerIsPositive(k - 1); }
  }

  lemma MaxRemaining()
    ensures Power128(4) == MAX_REMAINING + 1
  {
    assert Power128(1) == 128 * Power128(0);
    assert Power128(2) == 128 * Power128(1);
    assert Power128(3) == 128 * Power128(2);
  }

  /** More bytes do not change what has been decoded. */
  lemma {:induction false} LengthStable(s: seq<byte>, t: seq<byte>, k: nat)
    requires k <= 4 && !DecodeLength(s, k).More?
    ensures DecodeLength(s + t, k) == DecodeLength(s, k)
    decreases 4 - k
  {
    if k < 4 && s[0] >= 128 {
      LengthStable(s[1..], t, k + 1);
      assert (s + t)[1..] == s[1..] + t;
    }
  }

  // ---------------------------------------------------------------- frames

  datatype Frame = Frame(header: byte, body: seq<byte>)

  datatype Next = Incomplete | Malformed | Complete(frame: Frame, rest: seq<byte>)

  /** The first packet in the bytes received. */
  function NextFrame(s: seq<byte>): (r: Next)
    ensures r.Complete? ==> |r.rest| < |s|
  {
    if s == [] then Incomplete
    else match DecodeLength(s[1..], 0)
      case More => Incomplete
      case Bad => Malformed
      case Length(v, n) =>
        if |s| < 1 + n + v then Incomplete
        else Complete(Frame(s[0], s[1 + n..1 + n + v]), s[1 + n + v..])
  }

  function FrameBytes(f: Frame): seq<byte> {
    [f.header] + EncodeLength(|f.body|) + f.body
  }

  /** A packet written as header, remaining length and body is read back, with nothing consumed beyond it,
      exactly when its body has at most 268435455 bytes. */
  lemma FrameRoundTrip(f: Frame, rest: seq<byte>)
    ensures NextFrame(FrameBytes(f) + rest) ==
      if |f.body| <= MAX_REMAINING then Complete(f, rest) else Malformed
  {
    var l := EncodeLength(|f.body|);
    var s := FrameBytes(f) + rest;
    assert s[1..] == l + (f.body + rest);
    LengthRoundTrip(|f.body|, 0, f.body + rest);
    MaxRemaining();
    assert s[1 + |l|..1 + |l| + |f.body|] == f.body && s[1 + |l| + |f.body|..] == rest;
  }

  lemma NextFrameStable(s: seq<byte>, t: seq<byte>)
    ensures NextFrame(s).Complete? ==> NextFrame(s + t) == Complete(NextFrame(s).frame, NextFrame(s).rest + t)
    ensures NextFrame(s).Malformed? ==> NextFrame(s + t).Malformed?
  {
    if s != [] && !NextFrame(s).Incomplete? {
      hide DecodeLength;
      SliceOfJoin(s, t, 1, |s|);
      LengthStable(s[1..], t, 0);
      match DecodeLength(s[1..], 0)
      case Length(v, n) => SliceOfJoin(s, t, 1 + n, 1 + n + v);
      case _ =>
    }
  }

  lemma SliceOfJoin(s: seq<byte>, t: seq<byte>, i: nat, j: nat)
    requires i <= j <= |s|
    ensures (s + t)[i..j] == s[i..j] && (s + t)[i..] == s[i..] + t && (s + t)[j..] == s[j..] + t
  {
  }

  /** All packets of a byte stream, and the bytes behind the last one. */
  function AllFrames(s: seq<byte>): (seq<Frame>, seq<byte>)
    decreases |s|
  {
    match NextFrame(s)
    case Complete(f, rest) => ([f] + AllFrames(rest).0, AllFrames(rest).1)
    case _ => ([], s)
  }

  // ---------------------------------------------------------------- packets

  /** Packet types. */
  const CONNACK := 2
  const PUBLISH := 3
  const PUBACK := 4
  const PUBREC := 5
  const PUBREL := 6
  const PUBCOMP := 7
  const SUBACK := 9
  const UNSUBACK := 11
  const PINGREQ := 12
  const DISCONNECT := 14

  datatype Packet =
    | Publish(topic: seq<byte>, msgId: nat, qos: nat, dup: bool, retain: bool, payload: seq<byte>)
    | Ack(kind: nat, msgId: nat, dup: bool)

  /** BeyondEnd: the code would read past the end of the packet.  Further: a packet of a type whose fields are
      not modelled. */
  datatype Parsed = NoPacket | BeyondEnd | Further(kind: nat) | Parsed(packet: Packet)

  function Bit(b: bool): nat {
    if b then 1 else 0
  }

  /** The header byte: type, DUP, QoS, RETAIN from the top bit down. */
  function HeaderByte(kind: nat, dup: bool, qos: nat, retain: bool): byte
    requires kind < 16 && qos < 4
  {
    16 * kind + 8 * Bit(dup) + 2 * qos + Bit(retain)
  }

  function TypeOf(h: byte): nat { h / 16 }
  function DupOf(h: byte): bool { h / 8 % 2 == 1 }
  function QosOf(h: byte): nat { h / 2 % 4 }
  function RetainOf(h: byte): bool { h % 2 == 1 }

  /** `writeInt` keeps the low 16 bits. */
  function WriteInt(n: nat): seq<byte> {
    [n / 256 % 256, n % 256]
  }

  function ReadInt(s: seq<byte>): nat
    requires |s| >= 2
  {
    256 * (s[0] as int) + s[1] as int
  }

  predicate Sendable(p: Packet) {
    match p
    case Publish(_, msgId, qos, _, _, _) => qos <= 2 && (if qos == 0 then msgId == 0 else msgId <= 65535)
    case Ack(kind, msgId, _) => PUBACK <= kind <= PUBCOMP && msgId <= 65535
  }

  function Body(p: Packet): seq<byte> {
    match p
    case Publish(topic, msgId, qos, _, _, payload) =>
      WriteInt(|topic|) + topic + (if qos > 0 then WriteInt(msgId) else []) + payload
    case Ack(_, msgId, _) => WriteInt(msgId)
  }

  /** A PUBREL goes out with QoS 1 in its header. */
  function Header(p: Packet): byte
    requires Sendable(p)
  {
    match p
    case Publish(_, _, qos, dup, retain, _) => HeaderByte(PUBLISH, dup, qos, retain)
    case Ack(kind, _, dup) => HeaderByte(kind, dup, if kind == PUBREL then 1 else 0, false)
  }

  function PacketBytes(p: Packet): seq<byte>
    requires Sendable(p)
  {
    FrameBytes(Frame(Header(p), Body(p)))
  }

  /** `MQTTPacket_publish` */
  function ReadPublish(h: byte, data: seq<byte>): Parsed {
    if |data| < 2 || 2 + ReadInt(data) > |data| then NoPacket
    else
      var n := 2 + ReadInt(data);
      if QosOf(h) == 0 then Parsed(Publish(data[2..n], 0, 0, DupOf(h), RetainOf(h), data[n..]))
      else if |data| < n + 2 then BeyondEnd
      else Parsed(Publish(data[2..n], ReadInt(data[n..]), QosOf(h), DupOf(h), RetainOf(h), data[n + 2..]))
  }

  /** The table `new_packets`: types 0, 1, 8, 10 and 15 have no entry. */
  function ReadPacket(h: byte, data: seq<byte>): Parsed {
    if TypeOf(h) == PUBLISH then ReadPublish(h, data)
    else if PUBACK <= TypeOf(h) <= PUBCOMP || TypeOf(h) == UNSUBACK then
      if |data| < 2 then BeyondEnd else Parsed(Ack(TypeOf(h), ReadInt(data), DupOf(h)))
    else if TypeOf(h) == CONNACK || TypeOf(h) == SUBACK || PINGREQ <= TypeOf(h) <= DISCONNECT then Further(TypeOf(h))
    else NoPacket
  }

  lemma HeaderBits(kind: nat, dup: bool, qos: nat, retain: bool)
    requires kind < 16 && qos < 4
    ensures var h := HeaderByte(kind, dup, qos, retain);
      TypeOf(h) == kind && DupOf(h) == dup && QosOf(h) == qos && RetainOf(h) == retain
  {
    Digits(kind, Bit(dup), qos, Bit(retain));
    hide Bit;
    BitIs(dup);
    BitIs(retain);
  }

  lemma BitIs(b: bool)
    ensures Bit(b) == if b then 1 else 0
  {
  }

  lemma Digits(kind: nat, dup: nat, qos: nat, retain: nat)
    requires dup < 2 && qos < 4 && retain < 2
    ensures var h := 16 * kind + 8 * dup + 2 * qos + retain;
      h / 16 == kind && h / 8 % 2 == dup && h / 2 % 4 == qos && h % 2 == retain
  {
    Halved(8 * kind + 4 * dup + qos, retain);
    Quartered(2 * kind + dup, qos);
    Halved(kind, dup);
    Eighth(2 * kind + dup, 2 * qos + retain);
    Sixteenth(kind, 8 * dup + 2 * qos + retain);
  }

  lemma Halved(q: nat, r: nat)
    requires r < 2
    ensures (2 * q + r) / 2 == q && (2 * q + r) % 2 == r
  {
  }

  lemma Quartered(q: nat, r: nat)
    requires r < 4
    ensures (4 * q + r) % 4 == r
  {
  }

  lemma Eighth(q: nat, r: nat)
    requires r < 8
    ensures (8 * q + r) / 8 == q
  {
  }

  lemma Sixteenth(q: nat, r: nat)
    requires r < 16
    ensures (16 * q + r) / 16 == q
  {
  }

  lemma IntRoundTrip(n: nat, rest: seq<byte>)
    ensures ReadInt(WriteInt(n) + rest) == n % 65536
  {
  }

  /** A packet's body is read back as the packet exactly when its topic has at most 65535 bytes. */
  lemma BodyRoundTrip(p: Packet)
    requires Sendable(p)
    ensures ReadPacket(Header(p), Body(p)) == Parsed(p) <==> (p.Publish? ==> |p.topic| <= 65535)
  {
    HeaderFacts(p);
    hide Header, HeaderByte, TypeOf, DupOf, QosOf, RetainOf, ReadPublish, ReadInt, WriteInt;
    match p
    case Publish(topic, msgId, _, _, _, payload) => PublishRoundTrip(Header(p), topic, msgId, payload);
    case Ack(kind, msgId, dup) => AckRoundTrip(Header(p), msgId);
  }

  lemma HeaderFacts(p: Packet)
    requires Sendable(p)
    ensures var h := Header(p);
      match p
      case Publish(_, _, qos, dup, retain, _) =>
        TypeOf(h) == PUBLISH && QosOf(h) == qos && DupOf(h) == dup && RetainOf(h) == retain
      case Ack(kind, _, dup) => TypeOf(h) == kind && DupOf(h) == dup
  {
    hide TypeOf, DupOf, QosOf, RetainOf, HeaderByte;
    match p
    case Publish(_, _, qos, dup, retain, _) => HeaderBits(PUBLISH, dup, qos, retain);
    case Ack(kind, _, dup) => HeaderBits(kind, dup, if kind == PUBREL then 1 else 0, false);
  }

  lemma AckRoundTrip(h: byte, msgId: nat)
    requires PUBACK <= TypeOf(h) <= PUBCOMP && msgId <= 65535
    ensures ReadPacket(h, WriteInt(msgId)) == Parsed(Ack(TypeOf(h), msgId, DupOf(h)))
  {
    hide TypeOf, DupOf;
    IntRoundTrip(msgId, []);
    assert WriteInt(msgId) + [] == WriteInt(msgId);
  }

  lemma PublishRoundTrip(h: byte, topic: seq<byte>, msgId: nat, payload: seq<byte>)
    requires TypeOf(h) == PUBLISH && (if QosOf(h) == 0 then msgId == 0 else msgId <= 65535)
    ensures var p := Publish(topic, msgId, QosOf(h), DupOf(h), RetainOf(h), payload);
      ReadPublish(h, Body(p)) == Parsed(p) <==> |topic| <= 65535
  {
    hide TypeOf, DupOf, QosOf, RetainOf, ReadPublish, ReadInt;
    var p := Publish(topic, msgId, QosOf(h), DupOf(h), RetainOf(h), payload);
    TopicBound(h, Body(p));
    if |topic| <= 65535 {
      var id := if QosOf(h) > 0 then WriteInt(msgId) else [];
      Slices(WriteInt(|topic|), topic, id, payload, Body(p));
      IntRoundTrip(|topic|, topic + (id + payload));
      IntRoundTrip(msgId, payload);
      hide ReadInt, WriteInt, Body;
      PublishFits(h, topic, id, msgId, payload, Body(p));
    }
  }

  /** What a PUBLISH is read back as whose topic is too long: only the low 16 bits of the length are sent, so
      the rest of the topic is taken for the packet id and the beginning of the payload. */
  function Misread(p: Packet): Packet
    requires p.Publish? && |p.topic| > 65535
  {
    var t := |p.topic| % 65536;
    if p.qos == 0 then p.(topic := p.topic[..t], payload := p.topic[t..] + p.payload)
    else p.(topic := p.topic[..t], msgId := ReadInt(p.topic[t..]),
        payload := p.topic[t + 2..] + WriteInt(p.msgId) + p.payload)
  }

  lemma LongTopic(p: Packet)
    requires p.Publish? && Sendable(p) && |p.topic| > 65535
    ensures ReadPacket(Header(p), Body(p)) == Parsed(Misread(p))
  {
    var n, t, data := |p.topic|, |p.topic| % 65536, Body(p);
    var id := if p.qos > 0 then WriteInt(p.msgId) else [];
    HeaderFacts(p);
    Slices(WriteInt(n), p.topic, id, p.payload, data);
    IntRoundTrip(n, p.topic + (id + p.payload));
    LongSlices(WriteInt(n), p.topic, id + p.payload, t, data);
    Assoc(p.topic[t + 2..], id, p.payload);
    Assoc(p.topic[t..], [], p.payload);
    hide Header, HeaderByte, TypeOf, DupOf, QosOf, RetainOf, WriteInt, Body;
    IntAtFront(p.topic[t..], id + p.payload);
  }

  lemma IntAtFront(a: seq<byte>, b: seq<byte>)
    requires |a| >= 2
    ensures ReadInt(a + b) == ReadInt(a)
  {
  }

  lemma LongSlices(a: seq<byte>, topic: seq<byte>, rest: seq<byte>, t: nat, s: seq<byte>)
    requires s == a + (topic + rest) && |a| == 2 && t + 2 <= |topic|
    ensures s[2..2 + t] == topic[..t] && s[2 + t..] == topic[t..] + rest && s[4 + t..] == topic[t + 2..] + rest
  {
  }

  lemma TopicBound(h: byte, data: seq<byte>)
    ensures var r := ReadPublish(h, data); r.Parsed? ==> |r.packet.topic| <= 65535
  {
    hide TypeOf, DupOf, QosOf, RetainOf;
  }

  lemma PublishFits(h: byte, topic: seq<byte>, id: seq<byte>, msgId: nat, payload: seq<byte>, data: seq<byte>)
    requires |data| == 2 + |topic| + |id| + |payload| && ReadInt(data) == |topic|
    requires data[2..2 + |topic|] == topic && data[2 + |topic|..] == id + payload
    requires if QosOf(h) == 0 then id == [] && msgId == 0 && id + payload == payload
             else |id| == 2 && data[4 + |topic|..] == payload && ReadInt(id + payload) == msgId
    ensures ReadPublish(h, data) == Parsed(Publish(topic, msgId, QosOf(h), DupOf(h), RetainOf(h), payload))
  {
    hide TypeOf, DupOf, QosOf, RetainOf, ReadInt;
  }

  lemma Slices(a: seq<byte>, b: seq<byte>, c: seq<byte>, d: seq<byte>, s: seq<byte>)
    requires s == a + b + c + d
    ensures s == a + (b + (c + d)) && s[|a|..|a| + |b|] == b && s[|a| + |b|..] == c + d && s[|a| + |b| + |c|..] == d
    ensures c == [] ==> c + d == d
  {
  }

  /** From a socket: a packet this code sends is received as the same packet, and nothing beyond it is
      consumed, exactly when the remaining length fits in four digits and the topic length in two bytes. */
  lemma WireRoundTrip(p: Packet, rest: seq<byte>)
    requires Sendable(p)
    ensures var next := NextFrame(PacketBytes(p) + rest);
      (next.Complete? && next.rest == rest && ReadPacket(next.frame.header, next.frame.body) == Parsed(p))
      <==> |Body(p)| <= MAX_REMAINING && (p.Publish? ==> |p.topic| <= 65535)
  {
    FrameRoundTrip(Frame(Header(p), Body(p)), rest);
    BodyRoundTrip(p);
  }

  // ---------------------------------------------------------------- the format in numbers

  /** At most four digits of seven bits, lowest first, all but the last with the top bit set. */
  lemma LengthInDigits(a: nat, b: nat, c: nat, d: nat)
    requires a < 128 && b < 128 && c < 128 && d < 128
    ensures EncodeLength(a + 128 * b + 16384 * c + 2097152 * d) ==
      if d > 0 then [128 + a, 128 + b, 128 + c, d]
      else if c > 0 then [128 + a, 128 + b, c]
      else if b > 0 then [128 + a, b]
      else [a]
  {
    hide EncodeLength;
    LowestDigit(a, b + 128 * c + 16384 * d);
    LowestDigit(b, c + 128 * d);
    LowestDigit(c, d);
    LowestDigit(d, 0);
  }

  lemma LowestDigit(a: nat, m: nat)
    requires a < 128
    ensures EncodeLength(a + 128 * m) == if m == 0 then [a] else [128 + a] + EncodeLength(m)
  {
  }

  /** Every byte of the packets sent, as section 2.2 of MQTT 3.1.1 numbers the types and flags. */
  lemma Format(p: Packet)
    requires Sendable(p)
    ensures p.Ack? ==>
      PacketBytes(p) == [16 * p.kind + (if p.kind == 6 then 2 else 0) + (if p.dup then 8 else 0), 2,
                         p.msgId / 256, p.msgId % 256]
    ensures p.Publish? ==>
      var body := [|p.topic| / 256 % 256, |p.topic| % 256] + p.topic
                  + (if p.qos == 0 then [] else [p.msgId / 256, p.msgId % 256]) + p.payload;
      PacketBytes(p) == [48 + (if p.dup then 8 else 0) + 2 * p.qos + (if p.retain then 1 else 0)]
                        + EncodeLength(|body|) + body
    ensures p.Ack? ==> 4 <= p.kind <= 7
  {
    var id := WriteInt(p.msgId);
    assert p.msgId <= 65535 ==> id == [p.msgId / 256, p.msgId % 256];
  }

  /** A topic with its length in front, and what follows it. */
  ghost predicate IsPublishBody(data: seq<byte>, topic: seq<byte>, rest: seq<byte>) {
    |topic| <= 65535 && data == [|topic| / 256, |topic| % 256] + topic + rest
  }

  /** What is read is what is there: a PUBLISH is written back as the very bytes it was read from, and a body is
      read as one exactly when its topic, and the packet id unless QoS is 0, lie within it. */
  lemma ReadIsWritten(h: byte, data: seq<byte>)
    requires 48 <= h < 64
    ensures var r := ReadPacket(h, data); r.Parsed? ==>
      r.packet.Publish? && Body(r.packet) == data && (QosOf(h) < 3 ==> Sendable(r.packet) && Header(r.packet) == h)
    ensures ReadPacket(h, data).Parsed? <==>
      exists topic: seq<byte>, rest: seq<byte> ::
        IsPublishBody(data, topic, rest) && (h / 2 % 4 == 0 || |rest| >= 2)
  {
    PublishHeader(h);
    hide TypeOf, DupOf, RetainOf, HeaderByte;
    if |data| >= 2 {
      ReadPublishIs(h, data);
    }
  }

  lemma PublishHeader(h: byte)
    requires 48 <= h < 64
    ensures TypeOf(h) == PUBLISH && HeaderByte(PUBLISH, DupOf(h), QosOf(h), RetainOf(h)) == h
  {
  }

  lemma ReadPublishIs(h: byte, data: seq<byte>)
    requires |data| >= 2
    ensures var r, n := ReadPublish(h, data), 2 + ReadInt(data);
      && (n <= |data| ==> IsPublishBody(data, data[2..n], data[n..]))
      && (r.Parsed? <==> n <= |data| && (QosOf(h) == 0 || n + 2 <= |data|))
      && (r.Parsed? ==> Body(r.packet) == data)
  {
    hide TypeOf, DupOf, QosOf, RetainOf, ReadPublish, Body;
    LengthInFront(data);
    if 2 + ReadInt(data) <= |data| {
      var topic, rest := data[2..2 + ReadInt(data)], data[2 + ReadInt(data)..];
      TopicAndRest(data, topic, rest);
      BodyIs(h, data, topic, rest);
    } else {
      TopicBeyondEnd(h, data);
    }
  }

  lemma TopicBeyondEnd(h: byte, data: seq<byte>)
    requires |data| >= 2 && 2 + ReadInt(data) > |data|
    ensures ReadPublish(h, data) == NoPacket
  {
  }

  lemma TwoBytesOn(data: seq<byte>, n: nat, rest: seq<byte>)
    requires n <= |data| && rest == data[n..] && |rest| >= 2
    ensures data[n + 2..] == rest[2..] && rest == rest[..2] + rest[2..]
  {
  }

  lemma LengthInFront(data: seq<byte>)
    requires |data| >= 2
    ensures WriteInt(ReadInt(data)) == data[..2] && ReadInt(data) <= 65535
  {
  }

  lemma TopicAndRest(data: seq<byte>, topic: seq<byte>, rest: seq<byte>)
    requires |data| >= 2 && 2 + ReadInt(data) <= |data|
    requires topic == data[2..2 + ReadInt(data)] && rest == data[2 + ReadInt(data)..]
    ensures data == data[..2] + topic + rest && |topic| == ReadInt(data)
  {
    hide ReadInt;
  }

  lemma BodyIs(h: byte, data: seq<byte>, topic: seq<byte>, rest: seq<byte>)
    requires |topic| <= 65535 && data == WriteInt(|topic|) + topic + rest
    requires |data| >= 2 + |topic| && ReadInt(data) == |topic|
    requires topic == data[2..2 + |topic|] && rest == data[2 + |topic|..]
    ensures var r := ReadPublish(h, data);
      && (r.Parsed? <==> QosOf(h) == 0 || |rest| >= 2)
      && (r.Parsed? ==> Body(r.packet) == data)
  {
    hide TypeOf, DupOf, QosOf, RetainOf, ReadInt, WriteInt;
    if QosOf(h) == 0 {
      Assoc(WriteInt(|topic|) + topic, [], rest);
    } else if |rest| >= 2 {
      LengthInFront(rest);
      TwoBytesOn(data, 2 + |topic|, rest);
      Assoc(WriteInt(|topic|) + topic, rest[..2], rest[2..]);
    }
  }

  /** The acknowledgements (and UNSUBACK) need their two bytes; the DUP bit is kept and the rest of the header is
      not looked at. */
  lemma AcksAreRead(h: byte, data: seq<byte>)
    requires 64 <= h < 128 || 176 <= h < 192
    ensures ReadPacket(h, data) ==
      if |data| < 2 then BeyondEnd else Parsed(Ack(h / 16, 256 * (data[0] as int) + data[1] as int, h / 8 % 2 == 1))
  {
  }

  /** The other types: CONNACK, SUBACK and those of header-only packets are read by functions of their own, the
      rest is refused. */
  lemma OtherTypes(h: byte, data: seq<byte>)
    requires h < 48 || 128 <= h < 176 || 192 <= h
    ensures ReadPacket(h, data) ==
      if 32 <= h < 48 || 144 <= h < 160 || 192 <= h < 240 then Further(h / 16) else NoPacket
  {
  }

  // ---------------------------------------------------------------- from the store

  /** `MQTTPersistence_restorePacket` reads a length of any number of digits. */
  function StoredLength(s: seq<byte>): (r: Length)
    ensures r.Length? ==> 0 < r.size <= |s|
  {
    if s == [] then More
    else if s[0] < 128 then Length(s[0], 1)
    else match StoredLength(s[1..])
      case Length(v, n) => Length(s[0] - 128 + 128 * v, n + 1)
      case other => other
  }

  function RestorePacket(buffer: seq<byte>): Parsed {
    if buffer == [] then BeyondEnd
    else match StoredLength(buffer[1..])
      case Length(v, n) =>
        if 1 + n + v == |buffer| then ReadPacket(buffer[0], buffer[1 + n..]) else NoPacket
      case _ => BeyondEnd
  }

  lemma {:induction false} StoredRoundTrip(n: nat, rest: seq<byte>)
    ensures StoredLength(EncodeLength(n) + rest) == Length(n, |EncodeLength(n)|)
  {
    if n >= 128 {
      var d, tail := n % 128 + 128, EncodeLength(n / 128);
      StoredRoundTrip(n / 128, rest);
      assert EncodeLength(n) + rest == [d] + (tail + rest);
      assert ([d] + (tail + rest))[1..] == tail + rest;
    }
  }

  /** A packet put into the store is restored as the same packet exactly when its topic length fits. */
  lemma StoreRoundTrip(p: Packet)
    requires Sendable(p)
    ensures RestorePacket(PacketBytes(p)) == Parsed(p) <==> (p.Publish? ==> |p.topic| <= 65535)
  {
    var s, l := PacketBytes(p), EncodeLength(|Body(p)|);
    assert s[1..] == l + Body(p);
    StoredRoundTrip(|Body(p)|, Body(p));
    assert s[1 + |l|..] == Body(p);
    BodyRoundTrip(p);
  }

  lemma {:induction false} LengthCutShort(n: nat, k: nat)
    requires k < |EncodeLength(n)|
    ensures StoredLength(EncodeLength(n)[..k]).More?
  {
    if k > 0 {
      EncodeUnfolds(n);
      hide EncodeLength;
      LengthCutShort(n / 128, k - 1);
      assert EncodeLength(n)[..k][1..] == EncodeLength(n / 128)[..k - 1];
    }
  }

  /** What is restored depends on whether as many bytes follow the length as it says. */
  lemma RestoreIs(h: byte, n: nat, rest: seq<byte>)
    ensures RestorePacket([h] + (EncodeLength(n) + rest)) == if |rest| == n then ReadPacket(h, rest) else NoPacket
  {
    var l := EncodeLength(n);
    var s := [h] + (l + rest);
    StoredRoundTrip(n, rest);
    hide ReadPacket, StoredLength, EncodeLength;
    assert s[1..] == l + rest && s[1 + |l|..] == rest;
  }

  lemma RestoreCut(h: byte, l: seq<byte>)
    requires StoredLength(l).More?
    ensures RestorePacket([h] + l) == BeyondEnd
  {
    assert ([h] + l)[1..] == l;
  }

  lemma Beginning(h: byte, l: seq<byte>, body: seq<byte>, k: nat)
    requires 0 < k <= 1 + |l| + |body|
    ensures ([h] + l + body)[..k] ==
      if k <= |l| then [h] + l[..k - 1] else [h] + (l + body[..k - 1 - |l|])
  {
  }

  /** A record of which only a beginning has reached the store is never taken for a packet, and neither is one with
      bytes behind it. */
  lemma TornRecord(p: Packet, k: nat, more: seq<byte>)
    requires Sendable(p) && k < |PacketBytes(p)| && more != []
    ensures RestorePacket(PacketBytes(p)[..k]) ==
      if k <= |EncodeLength(|Body(p)|)| then BeyondEnd else NoPacket
    ensures RestorePacket(PacketBytes(p) + more) == NoPacket
  {
    var h, l, body := Header(p), EncodeLength(|Body(p)|), Body(p);
    assert PacketBytes(p) == [h] + l + body;
    hide Header, Body, StoredLength, EncodeLength, PacketBytes;
    RestoreIs(h, |body|, body + more);
    Assoc([h] + l, body, more);
    Assoc([h], l, body + more);
    if k == 0 {
      assert RestorePacket([]) == BeyondEnd;
    } else {
      Beginning(h, l, body, k);
      hide RestorePacket;
      if k <= |l| {
        LengthCutShort(|body|, k - 1);
        RestoreCut(h, l[..k - 1]);
      } else {
        RestoreIs(h, |body|, body[..k - 1 - |l|]);
      }
    }
  }

  // ---------------------------------------------------------------- writing

  lemma {:induction false} JoinedLength(bufs: seq<seq<byte>>, i: nat)
    requires i < |bufs|
    ensures |Joined(bufs[..i + 1])| == |Joined(bufs[..i])| + |bufs[i]|
  {
    assert bufs[..i + 1][..i] == bufs[..i];
  }

  /** `MQTTPacket_sends`: the fixed header, and the buffers that follow it, for one `writev`. */
  method FixedHeader(header: byte, buffers: seq<seq<byte>>) returns (buf: seq<byte>)
    ensures buf == [header] + EncodeLength(|Joined(buffers)|)
  {
    var total, i := 0, 0;
    while i < |buffers|
      invariant 0 <= i <= |buffers| && total == |Joined(buffers[..i])|
    {
      JoinedLength(buffers, i);
      total := total + |buffers[i]|;
      i := i + 1;
    }
    assert buffers[..i] == buffers;
    var length := Encode(total);
    buf := [header] + length;
  }

  /** `MQTTPacket_send_publish`: the buffers handed to the socket make up the packet's bytes. */
  method SendPublish(p: Packet) returns (iovecs: seq<seq<byte>>)
    requires p.Publish? && Sendable(p)
    ensures |iovecs| == (if p.qos > 0 then 5 else 4) && Joined(iovecs) == PacketBytes(p)
  {
    var topiclen := WriteInt(|p.topic|);
    var buffers := [topiclen, p.topic];
    if p.qos > 0 {
      var id := WriteInt(p.msgId);
      buffers := buffers + [id];
    }
    buffers := buffers + [p.payload];
    JoinedBuffers(p, buffers);
    var buf := FixedHeader(HeaderByte(PUBLISH, p.dup, p.qos, p.retain), buffers);
    iovecs := [buf] + buffers;
    JoinedFirst(buf, buffers);
  }

  lemma JoinedBuffers(p: Packet, buffers: seq<seq<byte>>)
    requires p.Publish?
    requires buffers == [WriteInt(|p.topic|), p.topic] + (if p.qos > 0 then [WriteInt(p.msgId)] else []) + [p.payload]
    ensures Joined(buffers) == Body(p)
  {
    var a, b := [WriteInt(|p.topic|)], [WriteInt(|p.topic|), p.topic];
    JoinedAppend([], WriteInt(|p.topic|));
    assert [] + a == a;
    JoinedAppend(a, p.topic);
    assert a + [p.topic] == b;
    JoinedAppend(b, WriteInt(p.msgId));
    JoinedAppend(if p.qos > 0 then b + [WriteInt(p.msgId)] else b, p.payload);
    assert b + [] == b;
    assert (WriteInt(|p.topic|) + p.topic) + [] == WriteInt(|p.topic|) + p.topic;
  }

}
