/** What the sending side of telnet.c writes, and that the parser reads it back. */
module TelnetRoundTrip {
  import opened Sequences
  import opened Bytes
  import opened TelnetOptions
  import opened TelnetParser
  import opened TelnetChunking

  function EscapedByte(b: byte): seq<byte> {
    if b == IAC then [IAC, IAC] else [b]
  }

  /** Every IAC doubled. */
  function Escaped(w: seq<byte>): seq<byte> {
    if w == [] then [] else EscapedByte(w[0]) + Escaped(w[1..])
  }

  lemma EscapedUnfolds(b: byte, w: seq<byte>)
    ensures Escaped([b] + w) == EscapedByte(b) + Escaped(w)
  {
    assert ([b] + w)[1..] == w;
  }

  lemma {:induction false} EscapedAppend(a: seq<byte>, b: seq<byte>)
    ensures Escaped(a + b) == Escaped(a) + Escaped(b)
  {
    if a == [] {
      assert a + b == b;
    } else {
      var x, a' := a[0], a[1..];
      EscapedAppend(a', b);
      EscapedUnfolds(x, a');
      EscapedUnfolds(x, a' + b);
      assert [x] + a' == a && [x] + (a' + b) == a + b;
      hide Escaped, EscapedByte;
      Assoc(EscapedByte(x), Escaped(a'), Escaped(b));
    }
  }

  lemma EscapedNext(w: seq<byte>, i: nat)
    requires i < |w|
    ensures Escaped(w[..i + 1]) == Escaped(w[..i]) + EscapedByte(w[i])
  {
    EscapedAppend(w[..i], [w[i]]);
    assert w[..i + 1] == w[..i] + [w[i]];
    EscapedUnfolds(w[i], []);
    assert [w[i]] + [] == [w[i]];
    Assoc(EscapedByte(w[i]), [], []);
  }

  /** `sent` and the pending text from l on make up the first i bytes. */
  ghost predicate Progress(w: seq<byte>, l: nat, i: nat, sent: seq<byte>) {
    l <= i <= |w| && Escaped(w[..i]) == sent + w[l..i]
  }

  lemma ProgressNext(w: seq<byte>, l: nat, i: nat, sent: seq<byte>)
    requires i < |w| && Progress(w, l, i, sent)
    ensures w[i] != IAC ==> Progress(w, l, i + 1, sent)
    ensures w[i] == IAC ==> Progress(w, i + 1, i + 1, sent + w[l..i] + [IAC, IAC])
  {
    EscapedNext(w, i);
    hide Escaped;
    if w[i] != IAC {
      assert w[l..i + 1] == w[l..i] + [w[i]];
      Assoc(sent, w[l..i], [w[i]]);
    } else {
      assert w[i + 1..i + 1] == [];
      Assoc(sent + w[l..i] + [IAC, IAC], [], []);
    }
  }

  lemma ProgressEnds(w: seq<byte>, l: nat, sent: seq<byte>)
    requires Progress(w, l, |w|, sent)
    ensures Escaped(w) == if l == |w| then sent else sent + w[l..]
  {
    hide Escaped;
    Whole(w);
    assert w[l..|w|] == w[l..];
    Assoc(sent, [], []);
  }

  /** The pieces written so far, the text from l on pending. */
  ghost predicate Written(w: seq<byte>, l: nat, i: nat, pieces: seq<seq<byte>>) {
    Progress(w, l, i, Joined(pieces))
  }

  /** The pieces with the text from l to i, if there is any. */
  function WithText(w: seq<byte>, l: nat, i: nat, pieces: seq<seq<byte>>): (r: seq<seq<byte>>)
    requires l <= i <= |w|
    ensures Joined(r) == Joined(pieces) + w[l..i]
  {
    JoinedAppend(pieces, w[l..i]);
    if i != l then pieces + [w[l..i]] else pieces
  }

  lemma WrittenNext(w: seq<byte>, l: nat, i: nat, pieces: seq<seq<byte>>)
    requires i < |w| && Written(w, l, i, pieces)
    ensures if w[i] == IAC then l <= i && Written(w, i + 1, i + 1, WithText(w, l, i, pieces) + [[IAC, IAC]])
            else Written(w, l, i + 1, pieces)
  {
    hide Escaped, Joined;
    ProgressNext(w, l, i, Joined(pieces));
    if w[i] == IAC { JoinedAppend(WithText(w, l, i, pieces), [IAC, IAC]); }
  }

  lemma WrittenFirst(w: seq<byte>)
    ensures Written(w, 0, 0, [])
  {
    assert w[..0] == [] && w[0..0] == [] && Joined<byte>([]) == [];
  }

  lemma WrittenAll(w: seq<byte>, l: nat, pieces: seq<seq<byte>>)
    requires Written(w, l, |w|, pieces)
    ensures l <= |w| && Joined(WithText(w, l, |w|, pieces)) == Escaped(w)
  {
    hide Escaped, Joined;
    ProgressEnds(w, l, Joined(pieces));
    assert w[l..|w|] == w[l..];
    Assoc(Joined(pieces), [], []);
  }

  /** `telnet_send`: the pieces written. */
  method SendText(buffer: seq<byte>) returns (pieces: seq<seq<byte>>)
    ensures Joined(pieces) == Escaped(buffer)
  {
    pieces := [];
    var i, l := 0, 0;
    WrittenFirst(buffer);
    hide Escaped, Joined, Written;
    while i != |buffer|
      invariant l <= i <= |buffer| && Written(buffer, l, i, pieces)
    {
      WrittenNext(buffer, l, i, pieces);
      if buffer[i] == IAC {
        if i != l {
          pieces := pieces + [buffer[l..i]];
        }
        l := i + 1;
        pieces := pieces + [[IAC, IAC]];
      }
      i := i + 1;
    }
    WrittenAll(buffer, l, pieces);
    if i != l {
      pieces := pieces + [buffer[l..i]];
    }
  }

  function SubnegotiationBytes(opt: byte, payload: seq<byte>): seq<byte> {
    [IAC, SB, opt] + Escaped(payload) + [IAC, SE]
  }

  /** `telnet_subnegotiation` */
  method SendSubnegotiation(opt: byte, payload: seq<byte>) returns (pieces: seq<seq<byte>>)
    ensures Joined(pieces) == SubnegotiationBytes(opt, payload)
  {
    var text := SendText(payload);
    JoinedParts([IAC, SB, opt], text, [IAC, SE]);
    pieces := [[IAC, SB, opt]] + text + [[IAC, SE]];
  }

  lemma JoinedParts(first: seq<byte>, text: seq<seq<byte>>, last: seq<byte>)
    ensures Joined([first] + text + [last]) == first + Joined(text) + last
  {
    JoinedConcat([first], text);
    JoinedAppend([first] + text, last);
    JoinedOne(first);
  }

  // ---------------------------------------------------------------- text

  lemma FoldOne(c: Config, p: Parser, b: byte, s: seq<byte>)
    ensures Fold(c, p, [b] + s) == (Fold(c, Step(c, p, b).0, s).0, Step(c, p, b).1 + Fold(c, Step(c, p, b).0, s).1)
    ensures FreeOfMccp1(c, p, [b] + s) <==> !Mccp1(p, b) && FreeOfMccp1(c, Step(c, p, b).0, s)
  {
    FoldUnfolds(c, p, b, s);
  }

  lemma FoldTwo(c: Config, p: Parser, b: byte, d: byte, s: seq<byte>)
    ensures var p1 := Step(c, p, b).0;
      var p2 := Step(c, p1, d).0;
      && Fold(c, p, [b, d] + s) == (Fold(c, p2, s).0, Step(c, p, b).1 + (Step(c, p1, d).1 + Fold(c, p2, s).1))
      && (FreeOfMccp1(c, p, [b, d] + s) <==> !Mccp1(p, b) && !Mccp1(p1, d) && FreeOfMccp1(c, p2, s))
  {
    FoldOne(c, p, b, [d] + s);
    FoldOne(c, Step(c, p, b).0, d, s);
    assert [b, d] + s == [b] + ([d] + s);
  }

  /** What arrives of a text is the text, byte by byte, and the parser is where it was. */
  lemma {:induction false} TextRoundTrip(c: Config, p: Parser, w: seq<byte>)
    requires p.phase.Data?
    ensures Fold(c, p, Escaped(w)) == (p, Singles(w)) && FreeOfMccp1(c, p, Escaped(w))
  {
    if w != [] {
      var rest := Escaped(w[1..]);
      TextRoundTrip(c, p, w[1..]);
      hide Fold, FreeOfMccp1;
      if w[0] == IAC {
        FoldTwo(c, p, IAC, IAC, rest);
        assert Step(c, Step(c, p, IAC).0, IAC) == (p, [Text([IAC])]);
        Assoc([], [Text([IAC])] + Singles(w[1..]), []);
      } else {
        FoldOne(c, p, w[0], rest);
      }
    }
  }

  // ---------------------------------------------------------------- subnegotiations

  /** Bytes of a payload that fit are stored. */
  lemma {:induction false} PayloadFits(c: Config, p: Parser, w: seq<byte>)
    requires p.phase.SbData? && Grown(p) && |p.buffer| + |w| <= LIMIT && !(p.sb == COMPRESS && WILL in w)
    ensures var (p', outs) := Fold(c, p, Escaped(w));
      && outs == [] && Grown(p') && p'.buffer == p.buffer + w && p' == p.(buffer := p'.buffer, room := p'.room)
      && FreeOfMccp1(c, p, Escaped(w))
    decreases |w|
  {
    if w == [] {
      assert p.buffer + w == p.buffer;
    } else {
      var p1, b, w', rest := BufferByte(p, w[0]).0, w[0], w[1..], Escaped(w[1..]);
      BufferByteFits(p, b);
      assert w == [b] + w' && Escaped(w) == EscapedByte(b) + rest;
      hide Fold, FreeOfMccp1, BufferByte, Escaped, EscapedByte, Grown;
      PayloadFits(c, p1, w');
      PayloadByte(c, p, b, rest);
      Assoc(p.buffer, [b], w');
    }
  }

  /** One stored byte, escaped if need be. */
  lemma PayloadByte(c: Config, p: Parser, b: byte, rest: seq<byte>)
    requires p.phase.SbData? && Grown(p) && |p.buffer| < LIMIT && !(p.sb == COMPRESS && b == WILL)
    ensures var s := EscapedByte(b) + rest;
      Fold(c, p, s) == Fold(c, BufferByte(p, b).0, rest)
      && (FreeOfMccp1(c, p, s) <==> FreeOfMccp1(c, BufferByte(p, b).0, rest))
  {
    BufferByteFits(p, b);
    var q := BufferByte(p, b).0;
    if b == IAC {
      FoldTwo(c, p, IAC, IAC, rest);
      BufferIgnoresPhase(p, IAC);
    } else {
      FoldOne(c, p, b, rest);
    }
    hide Fold, FreeOfMccp1, BufferByte;
    Assoc([], Fold(c, q, rest).1, []);
  }

  lemma BufferIgnoresPhase(p: Parser, b: byte)
    ensures BufferByte(p.(phase := SbDataIac), b) == (BufferByte(p, b).0.(phase := SbDataIac), BufferByte(p, b).1)
  {
  }

  lemma StartSub(c: Config, p: Parser, opt: byte, s: seq<byte>)
    requires p.phase.Data?
    ensures Fold(c, p, [IAC, SB, opt] + s) == Fold(c, p.(phase := SbData, sb := opt, buffer := []), s)
    ensures FreeOfMccp1(c, p, [IAC, SB, opt] + s) <==> FreeOfMccp1(c, p.(phase := SbData, sb := opt, buffer := []), s)
  {
    var q := p.(phase := SbData, sb := opt, buffer := []);
    FoldTwo(c, p, IAC, SB, [opt] + s);
    FoldOne(c, p.(phase := Sb), opt, s);
    assert [IAC, SB, opt] + s == [IAC, SB] + ([opt] + s);
    hide Fold, FreeOfMccp1;
    Assoc([], Fold(c, q, s).1, []);
  }

  lemma EndSub(c: Config, p: Parser)
    requires p.phase.SbData?
    ensures Fold(c, p, [IAC, SE]) == (p.(phase := Data), Subnegotiate(p.sb, p.buffer).0) && FreeOfMccp1(c, p, [IAC, SE])
  {
    var outs := Subnegotiate(p.sb, p.buffer).0;
    FoldTwo(c, p, IAC, SE, []);
    assert [IAC, SE] + [] == [IAC, SE];
    Assoc(outs, [], []);
    Assoc([], outs, []);
  }

  predicate Accepts(opt: byte, payload: seq<byte>) {
    |payload| <= 16384 && !(opt == 85 && 251 in payload)
  }

  lemma SubArrives(c: Config, p: Parser, opt: byte, payload: seq<byte>)
    requires p.phase.Data? && Grown(p) && Accepts(opt, payload)
    ensures var (p', outs) := Fold(c, p, SubnegotiationBytes(opt, payload));
      && outs == Subnegotiate(opt, payload).0 && Grown(p') && p'.phase.Data? && p'.q == p.q
      && FreeOfMccp1(c, p, SubnegotiationBytes(opt, payload))
  {
    var q := p.(phase := SbData, sb := opt, buffer := []);
    var w := Escaped(payload);
    PayloadFits(c, q, payload);
    assert SubnegotiationBytes(opt, payload) == [IAC, SB, opt] + (w + [IAC, SE]);
    hide Fold, FreeOfMccp1, Escaped, Subnegotiate;
    Assoc([], payload, []);
    FoldConcat(c, q, w, [IAC, SE]);
    EndSub(c, Fold(c, q, w).0);
    StartSub(c, p, opt, w + [IAC, SE]);
    Assoc([], Subnegotiate(opt, payload).0, []);
  }

  /** The payload byte at which the parser falls back to text: one too many, or WILL for option 85. */
  lemma {:induction false} PayloadBreaks(c: Config, p: Parser, w: seq<byte>)
    requires p.phase.SbData? && Grown(p) && (|p.buffer| + |w| > LIMIT || (p.sb == COMPRESS && WILL in w))
    ensures var (p', outs) := Fold(c, p, Escaped(w)); p'.phase.Data? && forall o :: o in outs ==> !o.Sub?
    decreases |w|
  {
    var b, w' := w[0], w[1..];
    BufferByteFits(p, b);
    HeadTail(w);
    EscapedUnfolds(b, w');
    hide Fold, FreeOfMccp1, Escaped, EscapedByte, Grown, BufferByte, Singles;
    if p.sb == COMPRESS && b == WILL {
      AfterBreak(c, p, w');
      EscapedWill();
    } else if |p.buffer| == LIMIT {
      TooMuch(c, p, b, Escaped(w'));
      TextRoundTrip(c, p.(phase := Data), w');
      SinglesAreText(w');
    } else {
      PayloadByte(c, p, b, Escaped(w'));
      PayloadBreaks(c, BufferByte(p, b).0, w');
    }
  }

  lemma EscapedWill()
    ensures EscapedByte(WILL) == [WILL]
  {
  }

  /** The old compression sequence throws the payload so far away; what follows is text. */
  lemma AfterBreak(c: Config, p: Parser, w: seq<byte>)
    requires p.phase.SbData? && p.sb == COMPRESS
    ensures Fold(c, p, [WILL] + Escaped(w)) == (p.(phase := Data), Singles(w))
        && forall o :: o in Singles(w) ==> !o.Sub?
  {
    FoldOne(c, p, WILL, Escaped(w));
    hide Fold, FreeOfMccp1, Escaped, Singles;
    TextRoundTrip(c, p.(phase := Data), w);
    SinglesAreText(w);
    Assoc([], Singles(w), []);
  }

  lemma TooMuch(c: Config, p: Parser, b: byte, rest: seq<byte>)
    requires p.phase.SbData? && Grown(p) && |p.buffer| == LIMIT && !(p.sb == COMPRESS && b == WILL)
    ensures var s := EscapedByte(b) + rest;
      var q := p.(phase := Data); Fold(c, p, s) == (Fold(c, q, rest).0, [Warn] + Fold(c, q, rest).1)
  {
    var q := p.(phase := Data);
    if b == IAC {
      FoldTwo(c, p, IAC, IAC, rest);
      assert Step(c, p, IAC) == (p.(phase := SbDataIac), []);
      assert Step(c, p.(phase := SbDataIac), IAC) == (q, [Warn]);
    } else {
      FoldOne(c, p, b, rest);
      assert Step(c, p, b) == (q, [Warn]);
    }
    hide Fold;
    Assoc([], [Warn] + Fold(c, q, rest).1, []);
  }

  lemma {:induction false} SinglesAreText(w: seq<byte>)
    ensures forall o :: o in Singles(w) ==> o.Text?
  {
    if w != [] { SinglesAreText(w[1..]); }
  }

  /** A subnegotiation sent by this code arrives as exactly one event with its option and payload, followed
      by the option's own events, exactly when the payload has at most 16384 bytes and does not complete the
      old compression sequence; otherwise no subnegotiation event arrives at all. */
  lemma SubnegotiationRoundTrip(c: Config, p: Parser, opt: byte, payload: seq<byte>)
    requires p.phase.Data? && Grown(p)
    ensures var (p', outs) := Fold(c, p, SubnegotiationBytes(opt, payload));
      && p'.phase.Data?
      && (Accepts(opt, payload) ==> outs == Subnegotiate(opt, payload).0 && outs[0] == Sub(opt, payload))
      && ((exists o :: o in outs && o.Sub?) <==> Accepts(opt, payload))
  {
    var outs := Fold(c, p, SubnegotiationBytes(opt, payload)).1;
    if Accepts(opt, payload) {
      SubArrives(c, p, opt, payload);
      assert outs[0] in outs;
    } else {
      SubLost(c, p, opt, payload);
    }
  }

  lemma SubLost(c: Config, p: Parser, opt: byte, payload: seq<byte>)
    requires p.phase.Data? && Grown(p) && !Accepts(opt, payload)
    ensures var (p', outs) := Fold(c, p, SubnegotiationBytes(opt, payload));
      p'.phase.Data? && forall o :: o in outs ==> !o.Sub?
  {
    var q := p.(phase := SbData, sb := opt, buffer := []);
    var w := Escaped(payload);
    PayloadBreaks(c, q, payload);
    var q' := Fold(c, q, w).0;
    FoldConcat(c, q, w, [IAC, SE]);
    FoldTwo(c, q', IAC, SE, []);
    assert [IAC, SE] + [] == [IAC, SE];
    StartSub(c, p, opt, w + [IAC, SE]);
    assert SubnegotiationBytes(opt, payload) == [IAC, SB, opt] + (w + [IAC, SE]);
  }

  /** Together with chunking: a text sent by this code and received in any pieces arrives as that text. */
  lemma TextArrives(c: Config, p: Parser, w: seq<byte>, chunks: seq<seq<byte>>)
    requires p.phase.Data? && Joined(chunks) == Escaped(w)
    ensures Chunks(c, p, chunks).0 == p && Explode(Chunks(c, p, chunks).1) == Singles(w)
  {
    TextRoundTrip(c, p, w);
    ChunksAreFold(c, p, chunks);
  }

  lemma SubnegotiationArrives(c: Config, p: Parser, opt: byte, payload: seq<byte>, chunks: seq<seq<byte>>)
    requires p.phase.Data? && Grown(p) && Accepts(opt, payload) && Joined(chunks) == SubnegotiationBytes(opt, payload)
    ensures Explode(Chunks(c, p, chunks).1) == Subnegotiate(opt, payload).0
  {
    SubArrives(c, p, opt, payload);
    ChunksAreFold(c, p, chunks);
  }

  /** Every step keeps the buffer within one of the five allocation sizes. */
  lemma StepKeepsGrown(c: Config, p: Parser, b: byte)
    requires Grown(p)
    ensures Grown(Step(c, p, b).0)
  {
    hide AfterIac, AfterSbIac, Negotiated, Buffered;
    AfterIacGrown(p, b);
    AfterSbIacGrown(p, b);
    BufferedGrown(p, b);
    if p.phase.Negotiation? { NegotiatedGrown(c, p, b); }
  }

  lemma AfterIacGrown(p: Parser, b: byte)
    requires Grown(p)
    ensures Grown(AfterIac(p, b).0)
  {
  }

  lemma NegotiatedGrown(c: Config, p: Parser, b: byte)
    requires p.phase.Negotiation? && Grown(p)
    ensures Grown(Negotiated(c, p, b).0)
  {
    hide Receive;
  }

  lemma BufferedGrown(p: Parser, b: byte)
    requires Grown(p)
    ensures Grown(Buffered(p, b).0)
  {
    hide BufferByte;
    BufferByteFits(p, b);
  }

  lemma AfterSbIacGrown(p: Parser, b: byte)
    requires Grown(p)
    ensures Grown(AfterSbIac(p, b).0)
  {
    hide Subnegotiate, AfterIac, Buffered;
    AfterIacGrown(p.(phase := Iac), b);
    BufferedGrown(p, IAC);
  }
}
