/** How the input is divided into chunks makes no difference to the parser of telnet.c, unless the stream
    contains the old compression sequence. */
module TelnetChunking {
  import opened Sequences
  import opened Bytes
  import opened TelnetOptions
  import opened TelnetParser

  lemma {:induction false} SinglesConcat(a: seq<byte>, b: seq<byte>)
    ensures Singles(a + b) == Singles(a) + Singles(b)
  {
    if a == [] {
      assert a + b == b;
    } else {
      SinglesConcat(a[1..], b);
      assert (a + b)[1..] == a[1..] + b;
    }
  }

  lemma SinglesOne(b: byte)
    ensures Singles([b]) == [Text([b])]
  {
  }

  lemma ExplodeUnfolds(o: Output, outs: seq<Output>)
    ensures Explode([o] + outs) == Cut(o) + Explode(outs)
  {
    assert ([o] + outs)[1..] == outs;
  }

  lemma ExplodesNothing()
    ensures Explode([]) == []
  {
  }

  lemma {:induction false} ExplodeConcat(a: seq<Output>, b: seq<Output>)
    ensures Explode(a + b) == Explode(a) + Explode(b)
  {
    if a == [] {
      ExplodesNothing();
      Assoc([], b, []);
      Assoc([], Explode(b), []);
    } else {
      var o, a' := a[0], a[1..];
      hide Explode, Cut;
      ExplodeConcat(a', b);
      ExplodeUnfolds(o, a');
      ExplodeUnfolds(o, a' + b);
      HeadTail(a);
      Assoc([o], a', b);
      Assoc(Cut(o), Explode(a'), Explode(b));
    }
  }

  ghost predicate NoLongText(outs: seq<Output>) {
    forall o :: o in outs ==> !o.Overrun? && (o.Text? ==> |o.bytes| == 1)
  }

  lemma {:induction false} ExplodeNothing(outs: seq<Output>)
    requires NoLongText(outs)
    ensures Explode(outs) == outs
  {
    if outs != [] {
      var o, more := outs[0], outs[1..];
      assert o in outs && forall x :: x in more ==> x in outs;
      assert [o] + more == outs;
      ExplodeNothing(more);
      ExplodeUnfolds(o, more);
      if o.Text? {
        SinglesOne(o.bytes[0]);
        assert o.bytes == [o.bytes[0]];
      }
    }
  }

  lemma StepIsShort(c: Config, p: Parser, b: byte)
    ensures NoLongText(Step(c, p, b).1)
  {
    var (outs, stop) := Subnegotiate(p.sb, p.buffer);
    forall o | o in outs ensures !o.Overrun? && !o.Text? {
      if o != outs[0] { assert o in outs[1..]; }
    }
  }

  lemma StepExplodes(c: Config, p: Parser, b: byte, more: seq<Output>)
    ensures Explode(Step(c, p, b).1 + more) == Step(c, p, b).1 + Explode(more)
  {
    hide Step, Explode;
    StepIsShort(c, p, b);
    ExplodeNothing(Step(c, p, b).1);
    ExplodeConcat(Step(c, p, b).1, more);
  }

  lemma FoldUnfolds(c: Config, p: Parser, b: byte, s: seq<byte>)
    ensures var (p1, outs) := Step(c, p, b);
      var (p2, more) := Fold(c, p1, s);
      && Fold(c, p, [b] + s) == (p2, outs + more)
      && (FreeOfMccp1(c, p, [b] + s) <==> !Mccp1(p, b) && FreeOfMccp1(c, p1, s))
  {
    assert ([b] + s)[1..] == s;
  }

  lemma FlushIs(s: seq<byte>, start: nat, i: nat)
    requires start <= i <= |s|
    ensures Explode(Flush(s, start, i)) == Singles(s[start..i])
  {
    if start < i {
      assert Flush(s, start, i)[1..] == [];
      Assoc(Singles(s[start..i]), [], []);
    }
  }

  /** The loop does what the bytes do one by one, the pending text coming first. */
  lemma {:induction false} LoopIsFold(c: Config, p: Parser, s: seq<byte>, i: nat, start: nat, rest: seq<byte>)
    requires i <= |s| && rest == s[i..] && FreeOfMccp1(c, p, rest) && (p.phase.Data? ==> start <= i)
    ensures Loop(c, p, s, i, start).0 == Fold(c, p, rest).0
    ensures Explode(Loop(c, p, s, i, start).1) ==
        (if p.phase.Data? then Singles(s[start..i]) else []) + Fold(c, p, rest).1
    decreases |s| - i
  {
    if i == |s| {
      if p.phase.Data? { FlushIs(s, start, i); Assoc(Singles(s[start..i]), [], []); }
    } else {
      var b, rest' := s[i], s[i + 1..];
      TailIs(s, i);
      FoldUnfolds(c, p, b, rest');
      var p1, outs := Step(c, p, b).0, Step(c, p, b).1;
      if p.phase.Data? {
        DataByte(c, p, s, i, start, rest');
      } else {
        LoopIsFold(c, p1, s, i + 1, i + 1, rest');
        OtherByte(c, p, s, i, start, rest');
      }
    }
  }

  lemma {:induction false} DataByte(c: Config, p: Parser, s: seq<byte>, i: nat, start: nat, rest: seq<byte>)
    requires i < |s| && p.phase.Data? && start <= i && rest == s[i + 1..] && FreeOfMccp1(c, Step(c, p, s[i]).0, rest)
    ensures Loop(c, p, s, i, start).0 == Fold(c, Step(c, p, s[i]).0, rest).0
    ensures Explode(Loop(c, p, s, i, start).1) ==
      Singles(s[start..i]) + (Step(c, p, s[i]).1 + Fold(c, Step(c, p, s[i]).0, rest).1)
    decreases |s| - i, 0
  {
    var p1 := Step(c, p, s[i]).0;
    LoopIsFold(c, p1, s, i + 1, start, rest);
    if s[i] == IAC {
      LoopAtIac(c, p, s, i, start);
      hide Explode, Singles, Fold, Loop, Flush;
      Assoc([], Fold(c, p1, rest).1, []);
    } else {
      OneMoreSingle(s, start, i);
      hide Explode, Singles, Fold, Flush;
      Assoc(Singles(s[start..i]), [Text([s[i]])], Fold(c, p1, rest).1);
    }
  }

  lemma LoopAtIac(c: Config, p: Parser, s: seq<byte>, i: nat, start: nat)
    requires i < |s| && p.phase.Data? && start <= i && s[i] == IAC
    ensures var l, next := Loop(c, p, s, i, start), Loop(c, Step(c, p, s[i]).0, s, i + 1, start);
      l.0 == next.0 && Explode(l.1) == Singles(s[start..i]) + Explode(next.1)
          && Step(c, p, s[i]) == (p.(phase := Iac), [])
  {
    var next := Loop(c, p.(phase := Iac), s, i + 1, start);
    assert Loop(c, p, s, i, start) == (next.0, Flush(s, start, i) + next.1);
    hide Loop, Flush, Explode, Singles;
    FlushIs(s, start, i);
    ExplodeConcat(Flush(s, start, i), next.1);
  }

  lemma OneMoreSingle(s: seq<byte>, start: nat, i: nat)
    requires start <= i < |s|
    ensures Singles(s[start..i + 1]) == Singles(s[start..i]) + [Text([s[i]])]
  {
    SinglesConcat(s[start..i], [s[i]]);
    SinglesOne(s[i]);
    hide Singles;
    assert s[start..i + 1] == s[start..i] + [s[i]];
  }

  lemma OtherByte(c: Config, p: Parser, s: seq<byte>, i: nat, start: nat, rest: seq<byte>)
    requires i < |s| && !p.phase.Data? && !Mccp1(p, s[i])
    requires var p1 := Step(c, p, s[i]).0;
      && Loop(c, p1, s, i + 1, i + 1).0 == Fold(c, p1, rest).0
      && Explode(Loop(c, p1, s, i + 1, i + 1).1) ==
          (if p1.phase.Data? then Singles(s[i + 1..i + 1]) else []) + Fold(c, p1, rest).1
    ensures Loop(c, p, s, i, start).0 == Fold(c, Step(c, p, s[i]).0, rest).0
    ensures Explode(Loop(c, p, s, i, start).1) == Step(c, p, s[i]).1 + Fold(c, Step(c, p, s[i]).0, rest).1
  {
    hide Explode, Fold, Step, Singles, Loop;
    var p1, outs := Step(c, p, s[i]).0, Step(c, p, s[i]).1;
    LoopOther(c, p, s, i, start);
    StepExplodes(c, p, s[i], Loop(c, p1, s, i + 1, i + 1).1);
    NothingPending(s, i + 1);
    Assoc([], Fold(c, p1, rest).1, []);
  }

  lemma LoopOther(c: Config, p: Parser, s: seq<byte>, i: nat, start: nat)
    requires i < |s| && !p.phase.Data? && !Mccp1(p, s[i])
    ensures var (p1, outs) := Step(c, p, s[i]);
      Loop(c, p, s, i, start) == (Loop(c, p1, s, i + 1, i + 1).0, outs + Loop(c, p1, s, i + 1, i + 1).1)
  {
    hide Step;
  }

  lemma NothingPending(s: seq<byte>, i: nat)
    requires i <= |s|
    ensures Singles(s[i..i]) == []
  {
  }

  // ---------------------------------------------------------------- chunk after chunk

  lemma {:induction false} FoldConcat(c: Config, p: Parser, a: seq<byte>, b: seq<byte>)
    ensures var (p1, outs) := Fold(c, p, a);
      var (p2, more) := Fold(c, p1, b);
      && Fold(c, p, a + b) == (p2, outs + more)
      && (FreeOfMccp1(c, p, a + b) <==> FreeOfMccp1(c, p, a) && FreeOfMccp1(c, p1, b))
    decreases |a|
  {
    if a == [] {
      assert a + b == b;
      Assoc([], Fold(c, p, b).1, []);
    } else {
      var x, a' := a[0], a[1..];
      var p1, outs := Step(c, p, x).0, Step(c, p, x).1;
      FoldConcat(c, p1, a', b);
      FoldUnfolds(c, p, x, a');
      FoldUnfolds(c, p, x, a' + b);
      assert [x] + a' == a && [x] + (a' + b) == a + b;
      hide Fold, FreeOfMccp1, Step;
      Assoc(outs, Fold(c, p1, a').1, Fold(c, Fold(c, p1, a').0, b).1);
    }
  }

  lemma ProcessIsFold(c: Config, p: Parser, s: seq<byte>)
    requires FreeOfMccp1(c, p, s)
    ensures Process(c, p, s).0 == Fold(c, p, s).0 && Explode(Process(c, p, s).1) == Fold(c, p, s).1
  {
    assert s[0..] == s && Singles(s[0..0]) == [];
    LoopIsFold(c, p, s, 0, 0, s);
    Assoc([], Fold(c, p, s).1, []);
  }

  lemma {:induction false} ChunksAreFold(c: Config, p: Parser, chunks: seq<seq<byte>>)
    requires FreeOfMccp1(c, p, Joined(chunks))
    ensures Chunks(c, p, chunks).0 == Fold(c, p, Joined(chunks)).0
    ensures Explode(Chunks(c, p, chunks).1) == Fold(c, p, Joined(chunks)).1
    decreases |chunks|
  {
    if chunks != [] {
      var s, rest := chunks[0], Joined(chunks[1..]);
      HeadTail(chunks);
      JoinedFirst(s, chunks[1..]);
      var p1 := Fold(c, p, s).0;
      FoldConcat(c, p, s, rest);
      ProcessIsFold(c, p, s);
      ChunksAreFold(c, p1, chunks[1..]);
      ExplodeConcat(Process(c, p, s).1, Chunks(c, p1, chunks[1..]).1);
    }
  }

  // ---------------------------------------------------------------- the exception

  lemma {:induction false} FoldIsShort(c: Config, p: Parser, s: seq<byte>)
    ensures NoLongText(Fold(c, p, s).1)
    decreases |s|
  {
    if s != [] {
      StepIsShort(c, p, s[0]);
      FoldIsShort(c, Step(c, p, s[0]).0, s[1..]);
    }
  }

  lemma {:induction false} OverrunStays(outs: seq<Output>)
    requires Overrun in outs
    ensures Overrun in Explode(outs)
  {
    if outs[0] != Overrun {
      assert Overrun in outs[1..];
      OverrunStays(outs[1..]);
    }
  }

  /** The last byte is the first one to complete the old compression sequence. */
  predicate HitAtEnd(c: Config, p: Parser, s: seq<byte>)
    decreases |s|
  {
    s != [] && if |s| == 1 then Mccp1(p, s[0]) else !Mccp1(p, s[0]) && HitAtEnd(c, Step(c, p, s[0]).0, s[1..])
  }

  lemma {:induction false} FirstHit(c: Config, p: Parser, s: seq<byte>) returns (k: nat)
    requires !FreeOfMccp1(c, p, s)
    ensures k <= |s| && HitAtEnd(c, p, s[..k])
    decreases |s|
  {
    if Mccp1(p, s[0]) {
      k := 1;
    } else {
      k := FirstHit(c, Step(c, p, s[0]).0, s[1..]);
      k := k + 1;
      assert s[..k][1..] == s[1..][..k - 1] && s[..k][0] == s[0];
    }
  }

  /** A chunk that ends there passes on text of negative length. */
  lemma {:induction false} ChunkOverruns(c: Config, p: Parser, s: seq<byte>, i: nat, start: nat, rest: seq<byte>)
    requires i < |s| && rest == s[i..] && HitAtEnd(c, p, rest)
    ensures Overrun in Loop(c, p, s, i, start).1
    decreases |s| - i
  {
    TailIs(s, i);
    assert rest[1..] == s[i + 1..];
    if i + 1 == |s| {
      assert Loop(c, Step(c, p, s[i]).0, s, i + 1, i + 2).1 == [Overrun];
    } else {
      hide Step;
      ChunkOverruns(c, Step(c, p, s[i]).0, s, i + 1, if p.phase.Data? then start else i + 1, rest[1..]);
      assert p.phase.Data? ==> Step(c, p, s[i]).0 == if s[i] == IAC then p.(phase := Iac) else p by {
        DataStep(c, p, s[i]);
      }
    }
  }

  lemma DataStep(c: Config, p: Parser, b: byte)
    ensures p.phase.Data? ==> Step(c, p, b).0 == if b == IAC then p.(phase := Iac) else p
  {
  }

  ghost predicate SameAsBytes(c: Config, p: Parser, s: seq<byte>, chunks: seq<seq<byte>>) {
    Chunks(c, p, chunks).0 == Fold(c, p, s).0 && Explode(Chunks(c, p, chunks).1) == Fold(c, p, s).1
  }

  /** Every way of cutting the input into chunks gives the same parser state, replies and events, up to how
      adjacent text is divided, exactly when the old compression sequence does not occur in it. */
  lemma ChunkingIndependence(c: Config, p: Parser, s: seq<byte>)
    ensures (forall chunks: seq<seq<byte>> :: Joined(chunks) == s ==> SameAsBytes(c, p, s, chunks)) <==>
        FreeOfMccp1(c, p, s)
  {
    if FreeOfMccp1(c, p, s) {
      forall chunks: seq<seq<byte>> | Joined(chunks) == s ensures SameAsBytes(c, p, s, chunks) {
        ChunksAreFold(c, p, chunks);
      }
    } else {
      var k := FirstHit(c, p, s);
      CutThere(c, p, s, k);
    }
  }

  /** The cut right behind the first occurrence. */
  lemma CutThere(c: Config, p: Parser, s: seq<byte>, k: nat)
    requires k <= |s| && HitAtEnd(c, p, s[..k])
    ensures Joined([s[..k], s[k..]]) == s && !SameAsBytes(c, p, s, [s[..k], s[k..]])
  {
    var a, b := s[..k], s[k..];
    JoinedFirst(a, [b]);
    JoinedOne(b);
    assert [a] + [b] == [a, b] && a + b == s && a[0..] == a && [a, b][1..] == [b];
    ChunkOverruns(c, p, a, 0, 0, a);
    hide Loop, Explode, Fold, HitAtEnd, Joined;
    OverrunStays(Chunks(c, p, [a, b]).1);
    FoldIsShort(c, p, s);
  }

  /** The shortest such chunk: IAC SB 85 WILL is answered by a text event of negative length. */
  lemma OldCompressionOverruns(c: Config)
    ensures Overrun in Process(c, START, [255, 250, 85, 251]).1
  {
    var s := [IAC, SB, COMPRESS, WILL];
    var p := START.(phase := SbData, sb := COMPRESS);
    assert s[1..] == [SB, COMPRESS, WILL] && s[1..][1..] == [COMPRESS, WILL] && s[1..][1..][1..] == [WILL];
    assert Step(c, START, IAC).0 == START.(phase := Iac);
    assert Step(c, START.(phase := Iac), SB).0 == START.(phase := Sb);
    assert Step(c, START.(phase := Sb), COMPRESS).0 == p && Mccp1(p, WILL);
    hide Step;
    assert HitAtEnd(c, p, [WILL]);
    assert HitAtEnd(c, START.(phase := Sb), [COMPRESS, WILL]);
    assert HitAtEnd(c, START.(phase := Iac), [SB, COMPRESS, WILL]);
    assert HitAtEnd(c, START, s) && s[0..] == s;
    ChunkOverruns(c, START, s, 0, 0, s);
  }
}
