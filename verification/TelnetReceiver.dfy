/** The receiving side of telnet.c as an object with its buffer, state and option table. */
module TelnetReceiver {
  import opened Sequences
  import opened Bytes
  import opened TelnetOptions
  import opened TelnetNegotiator
  import opened TelnetParser
  import Environ

  const SIZES: seq<nat> := [0, 512, 2048, 8192, 16384]

  ghost predicate Extends(total: (Parser, seq<Output>), out: seq<Output>, rest: (Parser, seq<Output>)) {
    total == (rest.0, out + rest.1)
  }

  lemma ExtendsFurther(total: (Parser, seq<Output>), out: seq<Output>, before: (Parser, seq<Output>), outs: seq<Output>,
                       rest: (Parser, seq<Output>), p: Parser)
    requires Extends(total, out, before)
    ensures Extends(before, outs, rest) ==> Extends(total, out + outs, rest)
    ensures before == (p, outs) ==> total == (p, out + outs)
  {
    Assoc(out, outs, rest.1);
  }

  /** One round of the loop. */
  lemma LoopIs(c: Config, p: Parser, s: seq<byte>, i: nat, start: nat)
    requires i < |s|
    ensures var l := Loop(c, p, s, i, start);
      if p.phase.Data? then
        if s[i] == IAC then Extends(l, Flush(s, start, i), Loop(c, p.(phase := Iac), s, i + 1, start))
        else Extends(l, [], Loop(c, p, s, i + 1, start))
      else
        var (p1, outs) := Step(c, p, s[i]);
        if p.phase.SbData? && p.sb == COMPRESS && s[i] == WILL then
          p1 == p.(phase := Data) && Extends(l, [], Loop(c, p1, s, i + 1, i + 2))
        else Extends(l, outs, Loop(c, p1, s, i + 1, i + 1))
  {
    Assoc([], Loop(c, p, s, i + 1, start).1, []);
    Assoc([], Loop(c, Step(c, p, s[i]).0, s, i + 1, i + 2).1, []);
  }

  /** The loop on the rest of the input is the loop on that rest alone. */
  lemma LoopShift(c: Config, p: Parser, s: seq<byte>, k: nat, i: nat, start: nat)
    requires k + i <= |s|
    ensures Loop(c, p, s, k + i, k + start) == Loop(c, p, s[k..], i, start)
  {
    hide Loop;
    LoopOnRest(c, p, s, s[k..], k, i, start);
  }

  lemma {:induction false} LoopOnRest(c: Config, p: Parser, s: seq<byte>, t: seq<byte>, k: nat, i: nat, start: nat)
    requires k + i <= |s| && |t| == |s| - k && forall j :: 0 <= j < |t| ==> t[j] == s[k + j]
    ensures Loop(c, p, s, k + i, k + start) == Loop(c, p, t, i, start)
    decreases |s| - k - i
  {
    hide Step, Loop, Flush;
    FlushShift(s, t, k, i, start);
    LoopUnfolds(c, p, s, k + i, k + start);
    LoopUnfolds(c, p, t, i, start);
    if i < |t| {
      var b := t[i];
      assert s[k + i] == b;
      if p.phase.Data? {
        LoopOnRest(c, if b == IAC then p.(phase := Iac) else p, s, t, k, i + 1, start);
      } else {
        LoopOnRest(c, Step(c, p, b).0, s, t, k, i + 1, if Mccp1(p, b) then i + 2 else i + 1);
      }
    }
  }

  lemma FlushShift(s: seq<byte>, t: seq<byte>, k: nat, i: nat, start: nat)
    requires k + i <= |s| && |t| == |s| - k && forall j :: 0 <= j < |t| ==> t[j] == s[k + j]
    ensures Flush(s, k + start, k + i) == Flush(t, start, i)
  {
    if start < i { assert s[k + start..k + i] == t[start..i]; }
  }

  lemma LoopUnfolds(c: Config, p: Parser, s: seq<byte>, i: nat, start: nat)
    requires i <= |s|
    ensures Loop(c, p, s, i, start) ==
      if i == |s| then (p, if p.phase.Data? then Flush(s, start, i) else [])
      else
        var p1 := if !p.phase.Data? then Step(c, p, s[i]).0 else if s[i] == IAC then p.(phase := Iac) else p;
        var next := Loop(c, p1, s, i + 1, if p.phase.Data? then start else if Mccp1(p, s[i]) then i + 2 else i + 1);
        if !p.phase.Data? then (next.0, Step(c, p, s[i]).1 + next.1)
        else if s[i] == IAC then (next.0, Flush(s, start, i) + next.1)
        else next
  {
    hide Step, Flush;
  }

  lemma ExtendsAtFirst(c: Config, p: Parser, s: seq<byte>)
    ensures Extends(Process(c, p, s), [], Loop(c, p, s, 0, 0))
  {
    Assoc([], Process(c, p, s).1, []);
  }

  lemma ExtendsAtLast(c: Config, p: Parser, s: seq<byte>, start: nat, total: (Parser, seq<Output>), out: seq<Output>)
    requires Extends(total, out, Loop(c, p, s, |s|, start))
    ensures total == (p, if p.phase.Data? then out + Flush(s, start, |s|) else out)
  {
    Assoc(out, [], []);
  }

  /** At the end of a subnegotiation the loop may be left, with the rest of the input processed afresh. */
  lemma SubIs(c: Config, p: Parser, s: seq<byte>, i: nat, start: nat)
    requires i < |s| && p.phase.SbDataIac? && s[i] != IAC
    ensures var (p1, first) := AfterSbIac(p, s[i]);
      var (p2, more) := Process(c, p1, s[i + 1..]);
      && Loop(c, p, s, i, start) == (p2, first + more)
      && Extends(Loop(c, p, s, i, start), first, Loop(c, p1, s, i + 1, i + 1))
  {
    LoopIs(c, p, s, i, start);
    LoopShift(c, AfterSbIac(p, s[i]).0, s, i + 1, 0, 0);
  }

  lemma OneByte(c: Config, p: Parser, b: byte)
    requires p.phase.Iac?
    ensures TelnetParser.Process(c, p, [b]) == AfterIac(p, b)
  {
    var (p1, outs) := AfterIac(p, b);
    assert Loop(c, p1, [b], 1, 1) == (p1, []);
    Assoc(outs, [], []);
  }

  class Receiver {
    var state: Phase
    var buffer: array<byte>
    var buffer_pos: nat
    var sb_telopt: byte
    const options: Negotiator

    ghost predicate Valid()
      reads this, buffer, options
    {
      options.Valid() && buffer_pos <= buffer.Length && Grown(View())
    }

    ghost function View(): Parser
      requires options.Valid() && buffer_pos <= buffer.Length
      reads this, buffer, options
    {
      Parser(state, buffer[..buffer_pos], buffer.Length, sb_telopt, options.Table())
    }

    ghost function Setup(): Config
      reads this
    {
      Config(options.support, options.proxy)
    }

    constructor (support: Support, proxy: bool)
      ensures Valid() && View() == START && Setup() == Config(support, proxy) && fresh(buffer) && fresh(options)
    {
      state, buffer_pos, sb_telopt := Data, 0, 0;
      buffer := new byte[0];
      options := new Negotiator(support, proxy);
    }

    /** `_buffer_byte` */
    method StoreByte(b: byte) returns (ok: bool)
      requires Valid()
      modifies this`buffer, this`buffer_pos, buffer
      ensures Valid() && (buffer == old(buffer) || fresh(buffer))
      ensures (View(), ok) == BufferByte(old(View()), b)
    {
      ghost var was := buffer[..buffer_pos];
      if buffer_pos == buffer.Length {
        var i := 0;
        while i != |SIZES|
          invariant 0 <= i <= |SIZES| && forall j :: 0 <= j < i ==> SIZES[j] != buffer.Length
        {
          if SIZES[i] == buffer.Length { break; }
          i := i + 1;
        }
        if i >= |SIZES| - 1 {
          assert SIZES[0] != buffer.Length && SIZES[1] != buffer.Length && SIZES[2] != buffer.Length
              && SIZES[3] != buffer.Length;
          return false;
        }
        var grown := new byte[SIZES[i + 1]];
        forall k | 0 <= k < buffer_pos { grown[k] := buffer[k]; }
        buffer := grown;
      }
      buffer[buffer_pos] := b;
      buffer_pos := buffer_pos + 1;
      assert buffer[..buffer_pos] == was + [b];
      return true;
    }

    /** `_subnegotiate` on the buffer as it stands. */
    method Finish() returns (outs: seq<Output>, stop: bool)
      requires Valid()
      ensures (outs, stop) == Subnegotiate(sb_telopt, buffer[..buffer_pos])
      ensures |outs| > 0 && outs[0] == Sub(sb_telopt, buffer[..buffer_pos])
          && Sub(sb_telopt, buffer[..buffer_pos]) !in outs[1..]
      ensures stop <==> exists cmd, entries :: Environment(cmd, entries) in outs
    {
      var payload := buffer[..buffer_pos];
      var event := Sub(sb_telopt, payload);
      outs, stop := [event], false;
      if sb_telopt == ZMP || sb_telopt == MSSP {
        outs := [event, Further(sb_telopt, payload)];
      } else if sb_telopt == TTYPE {
        if |payload| == 0 {
          outs := [event, Warn];
        } else if payload[0] != 0 && payload[0] != 1 {
          outs := [event, Warn];
        } else if payload[0] == 0 {
          outs := [event, TerminalType(0, payload[1..])];
        } else {
          outs := [event, TerminalType(1, [])];
        }
      } else if sb_telopt == ENVIRON || sb_telopt == NEW_ENVIRON {
        var d := Environ.Decode(payload);
        if d.Decoded? {
          outs, stop := [event, Environment(d.cmd, d.entries)], true;
        } else if |payload| > 0 {
          outs := [event, Warn];
        }
      }
    }

    method OnIac(b: byte) returns (outs: seq<Output>)
      requires Valid()
      modifies this`state
      ensures Valid() && (View(), outs) == AfterIac(old(View()), b)
    {
      outs := [];
      if b == SB {
        state := Sb;
      } else if b == WILL {
        state := Negotiation(Will);
      } else if b == WONT {
        state := Negotiation(Wont);
      } else if b == DO {
        state := Negotiation(Do);
      } else if b == DONT {
        state := Negotiation(Dont);
      } else if b == IAC {
        outs := [Text([b])];
        state := Data;
      } else {
        outs := [IacCommand(b)];
        state := Data;
      }
    }

    method OnNegotiation(b: byte) returns (outs: seq<Output>)
      requires Valid() && state.Negotiation?
      modifies this`state, options
      ensures Valid() && (View(), outs) == Negotiated(Setup(), old(View()), b)
    {
      var sent, events := options.Negotiate(state.cmd, b);
      outs := Sends(sent) + Changes(events);
      state := Data;
      assert options.proxy ==> outs == [OptionChange(OptionEvent(old(state).cmd, b))];
    }

    /** A byte outside plain text whose handling does not end the loop. */
    method OnByte(b: byte) returns (outs: seq<Output>)
      requires Valid() && !state.Data? && !Mccp1(View(), b) && (state.SbDataIac? ==> b == IAC)
      modifies this, buffer, options
      ensures Valid() && (buffer == old(buffer) || fresh(buffer))
      ensures (View(), outs) == Step(Setup(), old(View()), b)
    {
      outs := [];
      match state
      case Iac => outs := OnIac(b);
      case Negotiation(_) => outs := OnNegotiation(b);
      case Sb =>
        sb_telopt := b;
        buffer_pos := 0;
        state := SbData;
      case SbData =>
        if b == IAC {
          state := SbDataIac;
        } else {
          var ok := StoreByte(b);
          if !ok {
            outs := [Warn];
            state := Data;
          }
        }
      case SbDataIac =>
        var ok := StoreByte(IAC);
        if !ok {
          outs := [Warn];
          state := Data;
        } else {
          state := SbData;
        }
    }

    /** SE or an unexpected byte ends the subnegotiation.  After a valid ENVIRON payload the rest of the input
        is processed afresh and the loop is left. */
    method EndSub(b: byte, rest: seq<byte>) returns (outs: seq<Output>, done: bool)
      requires Valid() && state.SbDataIac? && b != IAC
      modifies this, buffer, options
      ensures Valid() && (buffer == old(buffer) || fresh(buffer))
      ensures !done ==> (View(), outs) == AfterSbIac(old(View()), b)
      ensures done ==>
        var (p1, first) := AfterSbIac(old(View()), b);
        var (p2, more) := TelnetParser.Process(Setup(), p1, rest);
        (View(), outs) == (p2, first + more)
      decreases |rest| + 1, 1, 0
    {
      ghost var p := View();
      var stop;
      state := if b == SE then Data else Iac;
      outs, stop := Finish();
      if b != SE {
        outs := [Warn] + outs;
      }
      if stop {
        var more := Process(rest);
        return outs + more, true;
      }
      if b != SE {
        OneByte(Setup(), View(), b);
        var more := Process([b]);
        outs := outs + more;
      }
      done := false;
    }

    /** The body of the loop of `_process`, for byte i. */
    method HandleByte(input: seq<byte>, i: nat, start0: nat, ghost from0: nat)
      returns (outs: seq<Output>, start: nat, ghost from: nat, done: bool)
      requires Valid() && i < |input| && (state.Data? ==> from0 == start0)
      modifies this, buffer, options
      ensures Valid() && (buffer == old(buffer) || fresh(buffer))
      ensures var before := Loop(Setup(), old(View()), input, i, from0);
        if done then (View(), outs) == before
        else (state.Data? ==> from == start) && Extends(before, outs, Loop(Setup(), View(), input, i + 1, from))
      decreases |input| - i, if state.SbDataIac? then 2 else 0, 0
    {
      var b := input[i];
      ghost var before := Loop(Setup(), View(), input, i, from0);
      outs, start, from, done := [], start0, from0, false;
      hide Step, Subnegotiate, Receive, Loop, AfterSbIac, TelnetParser.Process, Grown, Flush;
      LoopIs(Setup(), View(), input, i, from0);
      if state.Data? {
        if b == IAC {
          outs := Flush(input, start0, i);
          state := Iac;
        }
      } else if state.SbData? && sb_telopt == COMPRESS && b == WILL {
        start, from := i + 2, i + 2;
        state := Data;
      } else if state.SbDataIac? && b != IAC {
        SubIs(Setup(), View(), input, i, from0);
        start, from := i + 1, i + 1;
        outs, done := EndSub(b, input[start..]);
      } else {
        outs := OnByte(b);
        start, from := i + 1, i + 1;
      }
    }

    /** `_process` */
    method Process(input: seq<byte>) returns (out: seq<Output>)
      requires Valid()
      modifies this, buffer, options
      ensures Valid() && (buffer == old(buffer) || fresh(buffer))
      ensures (View(), out) == TelnetParser.Process(Setup(), old(View()), input)
      decreases |input|, if state.SbDataIac? then 2 else 0, 1
    {
      ghost var total := TelnetParser.Process(Setup(), View(), input);
      out := [];
      var i, start := 0, 0;
      ghost var from := 0;
      ExtendsAtFirst(Setup(), View(), input);
      hide Loop, Extends, TelnetParser.Process, Grown, Flush;
      while i != |input|
        invariant 0 <= i <= |input| && Valid() && (buffer == old(buffer) || fresh(buffer))
        invariant state.Data? ==> from == start
        invariant i == 0 ==> state == old(state)
        invariant Extends(total, out, Loop(Setup(), View(), input, i, from))
      {
        ghost var before := Loop(Setup(), View(), input, i, from);
        var outs, done;
        outs, start, from, done := HandleByte(input, i, start, from);
        ExtendsFurther(total, out, before, outs, Loop(Setup(), View(), input, i + 1, from), View());
        out := out + outs;
        if done { return; }
        i := i + 1;
      }
      ExtendsAtLast(Setup(), View(), input, from, total, out);
      if state.Data? {
        out := out + Flush(input, start, i);
      }
    }
  }
}
