/** The negotiator of telnet.c as an object that updates its table of option states. */
module TelnetNegotiator {
  import opened Bytes
  import opened TelnetOptions

  class Negotiator {
    var q: seq<Slot>
    var q_size: nat
    const support: Support
    const proxy: bool

    predicate Valid()
      reads this
    {
      q_size <= |q| && WellSized(q[..q_size])
    }

    ghost function Table(): seq<Slot>
      requires Valid()
      reads this
    {
      q[..q_size]
    }

    constructor (support: Support, proxy: bool)
      ensures Valid() && Table() == [] && this.support == support && this.proxy == proxy
    {
      this.q, this.q_size, this.support, this.proxy := [], 0, support, proxy;
    }

    /** `_get_rfc1143` */
    method GetState(telopt: byte) returns (s: State)
      requires Valid()
      ensures s == Get(Table(), telopt)
    {
      var i := 0;
      while i != q_size
        invariant i <= q_size && forall j :: 0 <= j < i ==> q[j].telopt != telopt
      {
        if q[i].telopt == telopt {
          PositionUnique(Table(), telopt, i);
          return State(q[i].us, q[i].him);
        }
        i := i + 1;
      }
      PositionUnique(Table(), telopt, q_size);
      return OFF;
    }

    /** `_set_rfc1143` */
    method SetState(telopt: byte, us: Q, him: Q)
      requires Valid()
      modifies this
      ensures Valid() && Table() == Put(old(Table()), telopt, State(us, him))
    {
      ghost var table := Table();
      var i := 0;
      while i != q_size
        invariant i <= q_size && Valid() && q == old(q) && q_size == old(q_size)
        invariant forall j :: 0 <= j < i ==> q[j].telopt != telopt
      {
        if q[i].telopt == telopt {
          PositionUnique(table, telopt, i);
          q := q[i := Slot(telopt, us, him)];
          GetPut(table, telopt, State(us, him), telopt);
          assert Table() == Put(table, telopt, State(us, him));
          return;
        }
        i := i + 1;
      }
      PositionUnique(table, telopt, q_size);
      GetPut(table, telopt, State(us, him), telopt);
      q := q[..q_size] + [SPARE, SPARE, SPARE, SPARE];
      q := q[q_size := Slot(telopt, us, him)];
      assert q == table + [Slot(telopt, us, him), SPARE, SPARE, SPARE];
      q_size := (q_size + 4) % 256;
    }

    /** `_negotiate`: a negotiation arrives. */
    method Negotiate(cmd: Command, telopt: byte) returns (sent: seq<Message>, events: seq<Event>)
      requires Valid()
      modifies this
      ensures Valid()
      ensures proxy ==> sent == [] && events == [OptionEvent(cmd, telopt)] && Table() == old(Table())
      ensures !proxy ==> Outcome(Table(), sent, events) == Receive(old(Table()), support, Message(cmd, telopt))
    {
      sent, events := [], [];
      if proxy {
        events := [OptionEvent(cmd, telopt)];
        return;
      }
      var s := GetState(telopt);
      if cmd == Will || cmd == Wont {
        sent, events := HearFromPeer(cmd, telopt, s);
      } else {
        sent, events := HearForUs(cmd, telopt, s);
      }
    }

    /** The cases of WILL and WONT. */
    method HearFromPeer(cmd: Command, telopt: byte, s: State) returns (sent: seq<Message>, events: seq<Event>)
      requires Valid() && AboutPeer(cmd) && s == Get(Table(), telopt)
      modifies this
      ensures Valid() && Outcome(Table(), sent, events) == Receive(old(Table()), support, Message(cmd, telopt))
    {
      sent, events := [], [];
      hide Put, WellSized;
      match cmd
      case Will =>
        match s.him {
          case No =>
            if telopt in support.him {
              SetState(telopt, s.us, Yes);
              sent, events := [Message(Do, telopt)], [OptionEvent(Will, telopt)];
            } else {
              sent := [Message(Dont, telopt)];
            }
          case WantNo =>
            SetState(telopt, s.us, No);
            events := [OptionEvent(Wont, telopt), Warning];
          case WantNoOp =>
            SetState(telopt, s.us, Yes);
            events := [OptionEvent(Will, telopt), Warning];
          case WantYes =>
            SetState(telopt, s.us, Yes);
            events := [OptionEvent(Will, telopt)];
          case WantYesOp =>
            SetState(telopt, s.us, WantNo);
            sent, events := [Message(Dont, telopt)], [OptionEvent(Will, telopt)];
          case Yes =>
        }
      case Wont =>
        match s.him {
          case Yes =>
            SetState(telopt, s.us, No);
            sent, events := [Message(Dont, telopt)], [OptionEvent(Wont, telopt)];
          case WantNo =>
            SetState(telopt, s.us, No);
            events := [OptionEvent(Wont, telopt)];
          case WantNoOp =>
            SetState(telopt, s.us, WantYes);
            events := [OptionEvent(Do, telopt)];
          case WantYes => SetState(telopt, s.us, No);
          case WantYesOp => SetState(telopt, s.us, No);
          case No =>
        }
    }

    /** The cases of DO and DONT. */
    method HearForUs(cmd: Command, telopt: byte, s: State) returns (sent: seq<Message>, events: seq<Event>)
      requires Valid() && !AboutPeer(cmd) && s == Get(Table(), telopt)
      modifies this
      ensures Valid() && Outcome(Table(), sent, events) == Receive(old(Table()), support, Message(cmd, telopt))
    {
      sent, events := [], [];
      hide Put, WellSized;
      match cmd
      case Do =>
        match s.us {
          case No =>
            if telopt in support.us {
              SetState(telopt, Yes, s.him);
              sent, events := [Message(Will, telopt)], [OptionEvent(Do, telopt)];
            } else {
              sent := [Message(Wont, telopt)];
            }
          case WantNo =>
            SetState(telopt, No, s.him);
            events := [OptionEvent(Dont, telopt), Warning];
          case WantNoOp =>
            SetState(telopt, Yes, s.him);
            events := [OptionEvent(Do, telopt), Warning];
          case WantYes =>
            SetState(telopt, Yes, s.him);
            events := [OptionEvent(Do, telopt)];
          case WantYesOp =>
            SetState(telopt, WantNo, s.him);
            sent, events := [Message(Wont, telopt)], [OptionEvent(Do, telopt)];
          case Yes =>
        }
      case Dont =>
        match s.us {
          case Yes =>
            SetState(telopt, No, s.him);
            sent, events := [Message(Wont, telopt)], [OptionEvent(Dont, telopt)];
          case WantNo =>
            SetState(telopt, No, s.him);
            events := [OptionEvent(Wont, telopt)];
          case WantNoOp =>
            SetState(telopt, WantYes, s.him);
            sent, events := [Message(Will, telopt)], [OptionEvent(Will, telopt)];
          case WantYes => SetState(telopt, No, s.him);
          case WantYesOp => SetState(telopt, No, s.him);
          case No =>
        }
    }

    /** `telnet_negotiate`: the user asks for a change. */
    method Request(cmd: Command, telopt: byte) returns (sent: seq<Message>)
      requires Valid()
      modifies this
      ensures Valid()
      ensures proxy ==> sent == [Message(cmd, telopt)] && Table() == old(Table())
      ensures !proxy ==>
        Outcome(Table(), sent, []) == TelnetOptions.Request(old(Table()), Message(cmd, telopt))
    {
      sent := [];
      if proxy {
        sent := [Message(cmd, telopt)];
        return;
      }
      var s := GetState(telopt);
      hide Put, WellSized;
      match cmd
      case Will =>
        match s.us {
          case No =>
            SetState(telopt, WantYes, s.him);
            sent := [Message(Will, telopt)];
          case WantNo => SetState(telopt, WantNoOp, s.him);
          case WantYesOp => SetState(telopt, WantYes, s.him);
          case _ =>
        }
      case Wont =>
        match s.us {
          case Yes =>
            SetState(telopt, WantNo, s.him);
            sent := [Message(Wont, telopt)];
          case WantYes => SetState(telopt, WantYesOp, s.him);
          case WantNoOp => SetState(telopt, WantNo, s.him);
          case _ =>
        }
      case Do =>
        match s.him {
          case No =>
            SetState(telopt, s.us, WantYes);
            sent := [Message(Do, telopt)];
          case WantNo => SetState(telopt, s.us, WantNoOp);
          case WantYesOp => SetState(telopt, s.us, WantYes);
          case _ =>
        }
      case Dont =>
        match s.him {
          case Yes =>
            SetState(telopt, s.us, WantNo);
            sent := [Message(Dont, telopt)];
          case WantYes => SetState(telopt, s.us, WantYesOp);
          case WantNoOp => SetState(telopt, s.us, WantNo);
          case _ =>
        }
    }
  }
}
