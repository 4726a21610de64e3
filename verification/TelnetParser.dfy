/** The receiving side of telnet.c: one step per byte, and the loop over a chunk of input that passes runs of
    text on without copying them. */
module TelnetParser {
  import opened Bytes
  import opened TelnetOptions
  import Environ

  const IAC: byte := 255
  const DONT: byte := 254
  const DO: byte := 253
  const WONT: byte := 252
  const WILL: byte := 251
  const SB: byte := 250
  const SE: byte := 240

  const TTYPE: byte := 24
  const ENVIRON: byte := 36
  const NEW_ENVIRON: byte := 39
  const MSSP: byte := 70
  const COMPRESS: byte := 85
  const ZMP: byte := 93

  const LIMIT := 16384

  /** `state` of telnet_t. */
  datatype Phase = Data | Iac | Negotiation(cmd: Command) | Sb | SbData | SbDataIac

  /** `buffer` holds the subnegotiation bytes so far, `room` is the allocated size. */
  datatype Parser = Parser(phase: Phase, buffer: seq<byte>, room: nat, sb: byte, q: seq<Slot>)

  datatype Config = Config(support: Support, proxy: bool)

  datatype Output =
    | Text(bytes: seq<byte>)           // a DATA event
    | Overrun                          // a DATA event whose size has wrapped below zero
    | IacCommand(cmd: byte)
    | OptionChange(event: Event)
    | Send(m: Message)
    | Sub(opt: byte, payload: seq<byte>)
    | Environment(cmd: byte, entries: seq<Environ.Entry>)
    | TerminalType(cmd: byte, name: seq<byte>)
    | Further(opt: byte, payload: seq<byte>) // what the MSSP and ZMP parsers make of the payload
    | Warn

  const START := Parser(Data, [], 0, 0, [])

  // ---------------------------------------------------------------- one byte

  /** The allocation sizes: 0, 512, 2048, 8192, 16384; nothing follows the last one. */
  function NextRoom(room: nat): nat {
    if room == 0 then 512
    else if room == 512 then 2048
    else if room == 2048 then 8192
    else if room == 8192 then LIMIT
    else room
  }

  predicate Grown(p: Parser) {
    (p.room == 0 || p.room == 512 || p.room == 2048 || p.room == 8192 || p.room == LIMIT) && |p.buffer| <= p.room
  }

  /** `_buffer_byte`; on failure nothing is stored. */
  function BufferByte(p: Parser, b: byte): (Parser, bool) {
    if |p.buffer| < p.room then (p.(buffer := p.buffer + [b]), true)
    else if NextRoom(p.room) == p.room then (p, false)
    else (p.(buffer := p.buffer + [b], room := NextRoom(p.room)), true)
  }

  lemma BufferByteFits(p: Parser, b: byte)
    requires Grown(p)
    ensures var (p', ok) := BufferByte(p, b);
      && Grown(p') && (ok <==> |p.buffer| < LIMIT)
      && p'.buffer == (if ok then p.buffer + [b] else p.buffer) && p' == p.(buffer := p'.buffer, room := p'.room)
      && p'.room == (if |p.buffer| < p.room || !ok then p.room
                     else if p.room == 0 then 512 else if 4 * p.room < 16384 then 4 * p.room else 16384)
  {
  }

  /** `_subnegotiate`: the events, and whether it returns nonzero. */
  function Subnegotiate(opt: byte, payload: seq<byte>): (r: (seq<Output>, bool))
    ensures |r.0| > 0 && r.0[0] == Sub(opt, payload) && forall o :: o in r.0[1..] ==> !o.Sub? && !o.Text? && !o.Overrun?
  {
    if opt == ENVIRON || opt == NEW_ENVIRON then
      var d := Environ.Decode(payload);
      if d.Decoded? then ([Sub(opt, payload), Environment(d.cmd, d.entries)], true)
      else (if payload == [] then [Sub(opt, payload)] else [Sub(opt, payload), Warn], false)
    else if opt == TTYPE then
      ([Sub(opt, payload),
        if payload == [] || payload[0] > 1 then Warn
        else TerminalType(payload[0], if payload[0] == 0 then payload[1..] else [])], false)
    else if opt == MSSP || opt == ZMP then ([Sub(opt, payload), Further(opt, payload)], false)
    else ([Sub(opt, payload)], false)
  }

  function Sends(ms: seq<Message>): (r: seq<Output>)
    ensures |r| == |ms| && forall o :: o in r ==> o.Send?
  {
    seq(|ms|, i requires 0 <= i < |ms| => Send(ms[i]))
  }

  function Changes(es: seq<Event>): (r: seq<Output>)
    ensures |r| == |es| && forall o :: o in r ==> o.OptionChange?
  {
    seq(|es|, i requires 0 <= i < |es| => OptionChange(es[i]))
  }

  /** A negotiation is complete: `_negotiate`. */
  function Negotiated(c: Config, p: Parser, b: byte): (Parser, seq<Output>)
    requires p.phase.Negotiation?
  {
    if c.proxy then (p.(phase := Data), [OptionChange(OptionEvent(p.phase.cmd, b))])
    else
      var o := Receive(p.q, c.support, Message(p.phase.cmd, b));
      (p.(phase := Data, q := o.q), Sends(o.sent) + Changes(o.events))
  }

  /** The byte after IAC outside a subnegotiation. */
  function AfterIac(p: Parser, b: byte): (Parser, seq<Output>) {
    if b == SB then (p.(phase := Sb), [])
    else if b == WILL then (p.(phase := Negotiation(Will)), [])
    else if b == WONT then (p.(phase := Negotiation(Wont)), [])
    else if b == DO then (p.(phase := Negotiation(Do)), [])
    else if b == DONT then (p.(phase := Negotiation(Dont)), [])
    else if b == IAC then (p.(phase := Data), [Text([IAC])])
    else (p.(phase := Data), [IacCommand(b)])
  }

  function Buffered(p: Parser, b: byte): (Parser, seq<Output>) {
    var (p', ok) := BufferByte(p, b);
    if ok then (p'.(phase := SbData), []) else (p'.(phase := Data), [Warn])
  }

  /** The byte after IAC inside a subnegotiation.  After an unexpected byte the payload so far is processed
      and the byte is taken as a command, unless the payload was a valid ENVIRON one: then it is dropped. */
  function AfterSbIac(p: Parser, b: byte): (Parser, seq<Output>) {
    var (outs, stop) := Subnegotiate(p.sb, p.buffer);
    if b == SE then (p.(phase := Data), outs)
    else if b == IAC then Buffered(p, IAC)
    else if stop then (p.(phase := Iac), [Warn] + outs)
    else var (p', more) := AfterIac(p.(phase := Iac), b); (p', [Warn] + outs + more)
  }

  /** The sequence that once started compression. */
  predicate Mccp1(p: Parser, b: byte) {
    p.phase.SbData? && p.sb == COMPRESS && b == WILL
  }

  function Step(c: Config, p: Parser, b: byte): (Parser, seq<Output>) {
    match p.phase
    case Data => if b == IAC then (p.(phase := Iac), []) else (p, [Text([b])])
    case Iac => AfterIac(p, b)
    case Negotiation(_) => Negotiated(c, p, b)
    case Sb => (p.(phase := SbData, sb := b, buffer := []), [])
    case SbData =>
      if b == IAC then (p.(phase := SbDataIac), [])
      else if Mccp1(p, b) then (p.(phase := Data), [])
      else Buffered(p, b)
    case SbDataIac => AfterSbIac(p, b)
  }

  /** The whole input, byte by byte. */
  function Fold(c: Config, p: Parser, s: seq<byte>): (Parser, seq<Output>)
    decreases |s|
  {
    if s == [] then (p, [])
    else
      var (p1, outs) := Step(c, p, s[0]);
      var (p2, more) := Fold(c, p1, s[1..]);
      (p2, outs + more)
  }

  predicate FreeOfMccp1(c: Config, p: Parser, s: seq<byte>)
    decreases |s|
  {
    s != [] ==> !Mccp1(p, s[0]) && FreeOfMccp1(c, Step(c, p, s[0]).0, s[1..])
  }

  // ---------------------------------------------------------------- one chunk

  /** The text between `start` and i is passed on, if there is any; both are unsigned. */
  function Flush(s: seq<byte>, start: nat, i: nat): seq<Output>
    requires i <= |s|
  {
    if start == i then [] else if start < i then [Text(s[start..i])] else [Overrun]
  }

  /** The loop of `_process` from byte i on, with `start` where the pending text begins. */
  function Loop(c: Config, p: Parser, s: seq<byte>, i: nat, start: nat): (Parser, seq<Output>)
    requires i <= |s|
    decreases |s| - i
  {
    if i == |s| then (p, if p.phase.Data? then Flush(s, start, i) else [])
    else if p.phase.Data? then
      if s[i] == IAC then
        var (p', outs) := Loop(c, p.(phase := Iac), s, i + 1, start);
        (p', Flush(s, start, i) + outs)
      else Loop(c, p, s, i + 1, start)
    else
      var (p1, outs) := Step(c, p, s[i]);
      var (p2, more) := Loop(c, p1, s, i + 1, if Mccp1(p, s[i]) then i + 2 else i + 1);
      (p2, outs + more)
  }

  function Process(c: Config, p: Parser, s: seq<byte>): (Parser, seq<Output>) {
    Loop(c, p, s, 0, 0)
  }

  /** Chunk after chunk. */
  function Chunks(c: Config, p: Parser, chunks: seq<seq<byte>>): (Parser, seq<Output>)
    decreases |chunks|
  {
    if chunks == [] then (p, [])
    else
      var (p1, outs) := Process(c, p, chunks[0]);
      var (p2, more) := Chunks(c, p1, chunks[1..]);
      (p2, outs + more)
  }

  /** The outputs with every text event cut into single bytes: equal for two sequences exactly when they
      differ only in how adjacent text is divided. */
  function Singles(s: seq<byte>): seq<Output> {
    if s == [] then [] else [Text([s[0]])] + Singles(s[1..])
  }

  function Cut(o: Output): seq<Output> {
    if o.Text? then Singles(o.bytes) else [o]
  }

  function Explode(outs: seq<Output>): seq<Output> {
    if outs == [] then [] else Cut(outs[0]) + Explode(outs[1..])
  }
}
