/** Negotiations and commands as bytes: what arrives of them at the parser of telnet.c, and that this is what the
    negotiator on messages does. */
module TelnetMessages {
  import opened Sequences
  import opened Bytes
  import opened TelnetOptions
  import opened TelnetParser
  import opened TelnetChunking
  import opened TelnetRoundTrip
  import Environ

  /** WILL, WONT, DO and DONT. */
  function CommandByte(cmd: Command): byte {
    match cmd
    case Will => 251
    case Wont => 252
    case Do => 253
    case Dont => 254
  }

  /** `_send_negotiate` */
  function MessageBytes(m: Message): seq<byte> {
    [255, CommandByte(m.cmd), m.opt]
  }

  /** What the parser makes of one negotiation. */
  function Heard(c: Config, q: seq<Slot>, m: Message): (seq<Slot>, seq<Output>) {
    if c.proxy then (q, [OptionChange(OptionEvent(m.cmd, m.opt))])
    else
      var o := Receive(q, c.support, m);
      (o.q, Sends(o.sent) + Changes(o.events))
  }

  /** The three bytes of a negotiation do to the parser what `Receive` does to the table, and answer and tell the
      application what `Receive` says; in proxy mode they only tell the application. */
  lemma NegotiationArrives(c: Config, p: Parser, m: Message, rest: seq<byte>)
    requires p.phase.Data?
    ensures var (q, outs) := Heard(c, p.q, m);
      var p' := p.(q := q);
      && Fold(c, p, MessageBytes(m) + rest) == (Fold(c, p', rest).0, outs + Fold(c, p', rest).1)
      && (FreeOfMccp1(c, p, MessageBytes(m) + rest) <==> FreeOfMccp1(c, p', rest))
  {
    var (q, outs) := Heard(c, p.q, m);
    var b := CommandByte(m.cmd);
    var p1, p2 := p.(phase := Iac), p.(phase := Negotiation(m.cmd));
    assert Step(c, p, 255) == (p1, []) && Step(c, p1, b) == (p2, []) && Step(c, p2, m.opt) == (p.(q := q), outs);
    assert MessageBytes(m) + rest == [255, b] + ([m.opt] + rest);
    hide Step, Fold, FreeOfMccp1, Heard;
    FoldTwo(c, p, 255, b, [m.opt] + rest);
    FoldOne(c, p2, m.opt, rest);
    Assoc([], outs + Fold(c, p.(q := q), rest).1, []);
  }

  function AllBytes(ms: seq<Message>): seq<byte> {
    if ms == [] then [] else MessageBytes(ms[0]) + AllBytes(ms[1..])
  }

  /** The table and the outputs after several negotiations. */
  function AllHeard(c: Config, q: seq<Slot>, ms: seq<Message>): (seq<Slot>, seq<Output>)
    decreases |ms|
  {
    if ms == [] then (q, [])
    else
      var (q1, outs) := Heard(c, q, ms[0]);
      var (q2, more) := AllHeard(c, q1, ms[1..]);
      (q2, outs + more)
  }

  /** Negotiations that arrive in any chunks are heard one after another. */
  lemma NegotiationsArrive(c: Config, p: Parser, ms: seq<Message>, chunks: seq<seq<byte>>)
    requires p.phase.Data? && Joined(chunks) == AllBytes(ms)
    ensures var (q, outs) := AllHeard(c, p.q, ms);
      Chunks(c, p, chunks).0 == p.(q := q) && Explode(Chunks(c, p, chunks).1) == outs
  {
    NegotiationsFold(c, p, ms);
    hide Fold, FreeOfMccp1, AllHeard, Chunks, AllBytes;
    ChunksAreFold(c, p, chunks);
  }

  lemma {:induction false} NegotiationsFold(c: Config, p: Parser, ms: seq<Message>)
    requires p.phase.Data?
    ensures var (q, outs) := AllHeard(c, p.q, ms);
      Fold(c, p, AllBytes(ms)) == (p.(q := q), outs) && FreeOfMccp1(c, p, AllBytes(ms))
    decreases |ms|
  {
    if ms != [] {
      hide Fold, FreeOfMccp1, Heard, MessageBytes;
      NegotiationArrives(c, p, ms[0], AllBytes(ms[1..]));
      NegotiationsFold(c, p.(q := Heard(c, p.q, ms[0]).0), ms[1..]);
    }
  }

  /** The messages that are answered. */
  function Answers(outs: seq<Output>): seq<Message> {
    if outs == [] then [] else AnswerIn(outs[0]) + Answers(outs[1..])
  }

  function AnswerIn(o: Output): seq<Message> {
    if o.Send? then [o.m] else []
  }

  /** What the application is told about options. */
  function Told(outs: seq<Output>): seq<Event> {
    if outs == [] then [] else EventIn(outs[0]) + Told(outs[1..])
  }

  function EventIn(o: Output): seq<Event> {
    if o.OptionChange? then [o.event] else []
  }

  lemma AnswersUnfold(o: Output, outs: seq<Output>)
    ensures Answers([o] + outs) == AnswerIn(o) + Answers(outs) && Told([o] + outs) == EventIn(o) + Told(outs)
  {
    assert ([o] + outs)[1..] == outs;
  }

  lemma {:induction false} AnswersConcat(a: seq<Output>, b: seq<Output>)
    ensures Answers(a + b) == Answers(a) + Answers(b) && Told(a + b) == Told(a) + Told(b)
  {
    if a == [] {
      Assoc([], b, []);
      Assoc([], Answers(b), []);
      Assoc([], Told(b), []);
    } else {
      var o, a' := a[0], a[1..];
      AnswersConcat(a', b);
      AnswersUnfold(o, a');
      AnswersUnfold(o, a' + b);
      HeadTail(a);
      hide Answers, Told, AnswerIn, EventIn;
      Assoc([o], a', b);
      Assoc(AnswerIn(o), Answers(a'), Answers(b));
      Assoc(EventIn(o), Told(a'), Told(b));
    }
  }

  lemma {:induction false} AnswersOfSends(ms: seq<Message>)
    ensures Answers(Sends(ms)) == ms && Told(Sends(ms)) == []
  {
    if ms != [] {
      assert Sends(ms)[1..] == Sends(ms[1..]);
      AnswersOfSends(ms[1..]);
      HeadTail(ms);
    }
  }

  lemma {:induction false} ToldOfChanges(es: seq<Event>)
    ensures Told(Changes(es)) == es && Answers(Changes(es)) == []
  {
    if es != [] {
      assert Changes(es)[1..] == Changes(es[1..]);
      ToldOfChanges(es[1..]);
      HeadTail(es);
    }
  }

  /** A receiver fed with a message's bytes is the endpoint that the agreement theorems are about: the same table
      afterwards, the same answer, the same events. */
  lemma ReceiverIsEndpoint(c: Config, p: Parser, m: Message, chunks: seq<seq<byte>>)
    requires p.phase.Data? && !c.proxy && Joined(chunks) == [255, CommandByte(m.cmd), m.opt]
    ensures var (p', outs), o := Chunks(c, p, chunks), Receive(p.q, c.support, m);
      p' == p.(q := o.q) && Answers(Explode(outs)) == o.sent && Told(Explode(outs)) == o.events
  {
    var o := Receive(p.q, c.support, m);
    OneMessage(c, p.q, m);
    hide Chunks, Explode, Receive, AllHeard;
    NegotiationsArrive(c, p, [m], chunks);
    AnswersConcat(Sends(o.sent), Changes(o.events));
    AnswersOfSends(o.sent);
    ToldOfChanges(o.events);
    Assoc([], o.sent, []);
    Assoc([], o.events, []);
  }

  lemma OneMessage(c: Config, q: seq<Slot>, m: Message)
    ensures AllBytes([m]) == [255, CommandByte(m.cmd), m.opt] && AllHeard(c, q, [m]) == Heard(c, q, m)
  {
    assert [m][1..] == [];
    Assoc(MessageBytes(m), [], []);
    Assoc(Heard(c, q, m).1, [], []);
  }

  // ---------------------------------------------------------------- commands and special subnegotiations

  /** Any other command byte is passed on as a command, and a doubled 255 is text. */
  lemma CommandArrives(c: Config, p: Parser, b: byte)
    requires p.phase.Data? && (b < 250 || b == 255)
    ensures Fold(c, p, [255, b]) == (p, [if b == 255 then Text([255]) else IacCommand(b)])
  {
    var p1 := p.(phase := Iac);
    assert Step(c, p, 255) == (p1, []) && Step(c, p1, b) == (p, [if b == 255 then Text([255]) else IacCommand(b)]);
    var out := if b == 255 then Text([255]) else IacCommand(b);
    assert [255, b] + [] == [255, b] && Fold(c, p, []) == (p, []);
    hide Fold, Step, FreeOfMccp1;
    FoldTwo(c, p, 255, b, []);
    Assoc([out], [], []);
    Assoc([], [out], []);
  }

  /** A byte after IAC that can neither end nor continue a subnegotiation: the payload so far is processed with a
      warning, and the byte is then taken as one after IAC outside it, unless the payload was a valid ENVIRON one. */
  lemma CutShort(c: Config, p: Parser, b: byte)
    requires p.phase.SbDataIac? && b != 240 && b != 255
    ensures var (subs, stop), (p', more) := Subnegotiate(p.sb, p.buffer), Step(c, p.(phase := Iac), b);
      Step(c, p, b) == if stop then (p.(phase := Iac), [Warn] + subs) else (p', [Warn] + subs + more)
    ensures b < 250 ==> Step(c, p.(phase := Iac), b) == (p.(phase := Data), [IacCommand(b)])
  {
    hide Subnegotiate;
  }

  lemma {:induction false} NothingToEscape(w: seq<byte>)
    requires 255 !in w
    ensures Escaped(w) == w
  {
    if w != [] {
      NothingToEscape(w[1..]);
      HeadTail(w);
    }
  }

  /** `telnet_ttype_is`, whose name is not escaped. */
  lemma TerminalTypeArrives(c: Config, p: Parser, name: seq<byte>)
    requires p.phase.Data? && Grown(p) && 255 !in name && |name| < 16384
    ensures Fold(c, p, [255, 250, 24, 0] + name + [255, 240]).1 == [Sub(24, [0] + name), TerminalType(0, name)]
  {
    var payload := [0] + name;
    NothingToEscape(payload);
    assert [255, 250, 24, 0] + name + [255, 240] == SubnegotiationBytes(24, payload);
    assert payload[1..] == name;
    hide Fold, SubnegotiationBytes;
    SubnegotiationRoundTrip(c, p, 24, payload);
  }

  /** `telnet_ttype_send` */
  lemma TerminalTypeRequested(c: Config, p: Parser)
    requires p.phase.Data? && Grown(p)
    ensures Fold(c, p, [255, 250, 24, 1, 255, 240]).1 == [Sub(24, [1]), TerminalType(1, [])]
  {
    NothingToEscape([1]);
    assert [255, 250, 24, 1, 255, 240] == SubnegotiationBytes(24, [1]);
    hide Fold, SubnegotiationBytes;
    SubnegotiationRoundTrip(c, p, 24, [1]);
  }

  /** Of a terminal-type payload that starts with 0 the rest is the name, of one that starts with 1 it is not
      looked at; any other draws a warning. */
  lemma TerminalTypePayload(payload: seq<byte>)
    ensures Subnegotiate(24, payload) ==
      ([Sub(24, payload), if payload == [] || payload[0] > 1 then Warn
                          else if payload[0] == 1 then TerminalType(1, [])
                          else TerminalType(0, payload[1..])], false)
  {
  }

  /** An ENVIRON list, escaped as RFC 1572 says, arrives as its entries, unless it ends in an escaped ESC; the rest
      of the chunk is then processed afresh. */
  lemma EnvironArrives(c: Config, p: Parser, opt: byte, cmd: byte, es: seq<Environ.Entry>)
    requires p.phase.Data? && Grown(p) && (opt == 36 || opt == 39) && cmd <= 2
    requires forall e :: e in es ==> e.kind == 0 || e.kind == 3
    requires |Environ.EncodeAll(es)| < 16384
    ensures var payload := [cmd] + Environ.EncodeAll(es);
      Fold(c, p, SubnegotiationBytes(opt, payload)).1 ==
        if es != [] && payload[|payload| - 1] == 2 then [Sub(opt, payload), Warn]
        else [Sub(opt, payload), Environment(cmd, es)]
  {
    var payload := [cmd] + Environ.EncodeAll(es);
    Environ.DecodeEncoded(cmd, es);
    hide Fold, SubnegotiationBytes, Environ.EncodeAll, Environ.Decode;
    SubnegotiationRoundTrip(c, p, opt, payload);
  }

  /** A payload that is no ENVIRON list draws a warning, unless it is empty; one that is ends the parsing of what
      it was cut short by. */
  lemma EnvironPayload(opt: byte, payload: seq<byte>)
    requires opt == 36 || opt == 39
    ensures forall cmd, es :: Environ.Decode(payload) == Environ.Decoded(cmd, es) ==>
      Subnegotiate(opt, payload) == ([Sub(opt, payload), Environment(cmd, es)], true)
    ensures Environ.Decode(payload).Refused? ==>
      Subnegotiate(opt, payload) == (if payload == [] then [Sub(opt, payload)] else [Sub(opt, payload), Warn], false)
  {
  }

  /** The options without a parser of their own raise one event; MSSP and ZMP hand the payload to theirs. */
  lemma OtherSubnegotiations(opt: byte, payload: seq<byte>)
    requires opt != 24 && opt != 36 && opt != 39
    ensures Subnegotiate(opt, payload) ==
      (if opt == 70 || opt == 93 then [Sub(opt, payload), Further(opt, payload)] else [Sub(opt, payload)], false)
  {
  }
}
