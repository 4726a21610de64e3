/** Reading packets from non-blocking sockets: SocketBuffer.c, the reading half of Socket.c and
    `MQTTPacket_Factory`.  A read that is interrupted keeps the bytes it has and is resumed by the next call. */
module SocketReads {
  import opened Sequences
  import opened Bytes
  import opened MqttWire
  import opened ReadHeader

  /** What the socket has to say to one `recv`: it would block, fails, or has up to n bytes. */
  datatype Grant = Block | Fail | Ready(n: nat)

  /** How many bytes a `recv` of at most n gets when so many are there. */
  function Granted(grants: seq<Grant>, n: nat, available: nat): nat {
    if grants == [] || !grants[0].Ready? then 0
    else
      var k := if grants[0].n < n then grants[0].n else n;
      if k < available then k else available
  }

  /** How many coming calls, one after another, get all they ask for as far as it is there. */
  function Covered(grants: seq<Grant>, available: nat): nat {
    if grants != [] && grants[0].Ready? && grants[0].n >= available then 1 + Covered(grants[1..], available) else 0
  }

  lemma {:induction false} FewerAreCovered(grants: seq<Grant>, available: nat, fewer: nat)
    requires fewer <= available
    ensures Covered(grants, fewer) >= Covered(grants, available)
  {
    if grants != [] { FewerAreCovered(grants[1..], available, fewer); }
  }

  /** One socket's input: the bytes of the stream that have not been received, and the outcomes of the
      coming calls.  `failed` is set by a socket error or by a peer that closes; `shorts` counts the calls that
      have got less than they asked for. */
  class Feed {
    var rest: seq<byte>
    var grants: seq<Grant>
    var failed: bool
    ghost var shorts: nat

    constructor (stream: seq<byte>, grants: seq<Grant>)
      ensures rest == stream && this.grants == grants && !failed && shorts == 0
    {
      rest, this.grants, failed, shorts := stream, grants, false, 0;
    }

    ghost function Coverage(): nat
      reads this
    {
      Covered(grants, |rest|)
    }

    /** `recv` of at most n bytes; nothing is returned when it would block. */
    method Recv(n: nat) returns (got: seq<byte>)
      requires n > 0 && !failed
      modifies this
      ensures |got| <= n && old(rest) == got + rest && (failed ==> got == []) && (got == [] ==> rest == old(rest))
      ensures |got| == Granted(old(grants), n, |old(rest)|)
          && grants == if old(grants) == [] then [] else old(grants)[1..]
      ensures failed <==> old(grants) != [] && old(grants)[0].Fail?
      ensures shorts == old(shorts) + if |got| < n && !failed then 1 else 0
      ensures Coverage() + 1 >= old(Coverage()) && (old(Coverage()) > 0 ==> !failed && (|got| < n ==> rest == []))
    {
      var k := 0;
      if grants != [] {
        if grants[0].Fail? {
          failed := true;
        } else if grants[0].Ready? {
          k := if grants[0].n < n then grants[0].n else n;
          k := if k < |rest| then k else |rest|;
        }
        grants := grants[1..];
      }
      got := rest[..k];
      rest := rest[k..];
      shorts := shorts + if k < n && !failed then 1 else 0;
      if old(Coverage()) > 0 { FewerAreCovered(grants, |old(rest)|, |rest|); }
    }
  }

  type FixedHeader = s: seq<byte> | |s| == 5 witness [0, 0, 0, 0, 0]

  /** `socket_queue`: the saved state of one interrupted read; `buflen` is |buf|. */
  datatype Queue = Queue(socket: int, index: nat, headerlen: nat, fixed_header: FixedHeader, datalen: nat,
      buf: seq<byte>)

  datatype Completion = Done | Interrupted | Error

  predicate Sized(q: Queue) {
    q.index <= q.headerlen <= 5 && q.datalen <= |q.buf|
  }

  function HeaderOf(q: Queue): seq<byte>
    requires Sized(q)
  {
    q.fixed_header[..q.headerlen]
  }

  /** The bytes of the unfinished packet. */
  function Taken(q: Queue): seq<byte>
    requires Sized(q)
  {
    HeaderOf(q) + q.buf[..q.datalen]
  }

  /** A read that stopped inside the header, or inside the body. */
  predicate Stored(q: Queue) {
    Sized(q) && q.headerlen > 0 &&
    if HeaderOpen(HeaderOf(q)) then q.datalen == 0
    else HeaderComplete(HeaderOf(q)) && q.datalen < BodyLength(HeaderOf(q))
  }

  /** `ListFindItem` by socket: the position, or |qs|. */
  function Position(qs: seq<Queue>, socket: int): (i: nat)
    ensures i <= |qs| && (i < |qs| ==> qs[i].socket == socket) && forall j :: 0 <= j < i ==> qs[j].socket != socket
  {
    if qs == [] || qs[0].socket == socket then 0 else 1 + Position(qs[1..], socket)
  }

  lemma {:induction false} PositionIs(qs: seq<Queue>, socket: int, i: nat)
    requires i <= |qs| && (i < |qs| ==> qs[i].socket == socket) && forall j :: 0 <= j < i ==> qs[j].socket != socket
    ensures Position(qs, socket) == i
  {
  }

  class SocketBuffer {
    var def_queue: Queue
    var queues: seq<Queue>

    /** Every other socket's saved read is sound, none of them is being replayed, and each has one queue. */
    ghost predicate Others(socket: int)
      reads this
    {
      OthersIn(queues, socket)
    }

    /** Between calls. */
    ghost predicate Resting()
      reads this
    {
      Others(0) && def_queue.socket == 0
    }

    /** Inside a call for this socket, the bytes h of the header having been returned. */
    ghost predicate Reading(socket: int, h: seq<byte>)
      reads this
    {
      && socket > 0 && Others(socket)
      && var i := Position(queues, socket);
         if i < |queues| then
           var q := queues[i];
           && Sized(q) && q.headerlen > 0 && h == q.fixed_header[..q.index] && def_queue.socket == 0
           && (Stored(q) || (q.index == q.headerlen && q.datalen == 0))
         else if h == [] then def_queue.socket == 0
         else
           && def_queue.socket == socket && Sized(def_queue) && def_queue.datalen == 0
           && def_queue.index == def_queue.headerlen && HeaderOf(def_queue) == h
    }

    /** All saved header bytes of this socket, if any, have been returned. */
    ghost predicate Replayed(socket: int)
      reads this
    {
      Position(queues, socket) < |queues| ==>
        var q := queues[Position(queues, socket)]; q.index == q.headerlen
    }

    /** A call for this socket has ended with an error. */
    ghost predicate Broken(socket: int)
      reads this
    {
      socket > 0 && Others(socket) && (def_queue.socket == 0 || def_queue.socket == socket)
    }

    /** The bytes received for this socket that no packet has been made of yet. */
    ghost function Held(socket: int): seq<byte>
      reads this
    {
      HeldIn(queues, def_queue, socket)
    }

    constructor ()
      ensures Resting() && forall s :: s > 0 ==> Held(s) == []
    {
      queues := [];
      def_queue := Queue(0, 0, 0, [0, 0, 0, 0, 0], 0, []);
    }

    lemma RestingReads(socket: int)
      requires Resting() && socket > 0
      ensures Reading(socket, [])
    {
      var i := Position(queues, socket);
      if i < |queues| { assert queues[i].fixed_header[..0] == []; }
    }

    /** `SocketBuffer_newDefQ`; the header length is left unset. */
    method NewDefQ()
      modifies this`def_queue
      ensures def_queue.socket == 0
    {
      var headerlen: nat := *;
      def_queue := Queue(0, 0, headerlen, [0, 0, 0, 0, 0], 0, []);
    }

    /** `SocketBuffer_getQueuedChar` */
    method GetQueuedChar(socket: int, ghost h: seq<byte>) returns (rc: Completion, c: byte)
      requires Reading(socket, h) && |h| <= 4
      modifies this`queues
      ensures rc == Done ==> Reading(socket, h + [c])
      ensures rc != Done ==> rc == Interrupted && queues == old(queues)
      ensures rc == Interrupted <==> old(Replayed(socket))
      ensures forall t :: t > 0 ==> Held(t) == old(Held(t))
    {
      rc, c := Interrupted, 0;
      var i := Position(queues, socket);
      if i < |queues| {
        var q := queues[i];
        if q.index < q.headerlen {
          c := q.fixed_header[q.index];
          rc := Done;
          assert q.fixed_header[..q.index + 1] == h + [c];
          Replace(i, q.(index := q.index + 1));
        } else if q.index > 4 {
          rc := Error;
        }
      }
    }

    /** One queue is overwritten in place. */
    method Replace(i: nat, q: Queue)
      requires i < |queues| && q.socket == queues[i].socket
      modifies this`queues
      ensures queues == old(queues)[i := q]
      ensures forall t :: Position(queues, t) == Position(old(queues), t)
      ensures forall t :: t != q.socket ==> Held(t) == old(Held(t))
      ensures Position(queues, q.socket) == i && Sized(q) ==> Held(q.socket) == Taken(q)
      ensures old(Others(q.socket)) ==> Others(q.socket)
    {
      ghost var before := queues;
      queues := queues[i := q];
      forall t ensures Position(queues, t) == Position(before, t) {
        PositionIs(queues, t, Position(before, t));
      }
      if old(Others(q.socket)) { OthersUpdate(before, i, q); }
      hide Position, Stored, HeldIn, HeaderOf, Taken, OthersIn, Sized;
      forall t ensures t != q.socket ==> Held(t) == old(Held(t)) {
        if t != q.socket { HeldUpdate(before, def_queue, i, q, t); }
      }
      if Position(queues, q.socket) == i && Sized(q) { HeldAt(queues, def_queue, i); }
    }

    /** `SocketBuffer_queueChar` */
    method QueueChar(socket: int, c: byte, ghost h: seq<byte>)
      requires Reading(socket, h) && HeaderOpen(h) && |h| <= 4 && Replayed(socket)
      modifies this
      ensures Reading(socket, h + [c])
      ensures Held(socket) == old(Held(socket)) + [c] && forall t :: t > 0 && t != socket ==> Held(t) == old(Held(t))
    {
      OpenHeader(socket, h);
      var i := Position(queues, socket);
      if i < |queues| {
        var q := queues[i];
        if q.index <= 4 {
          var q' := q.(fixed_header := q.fixed_header[q.index := c], index := q.index + 1, headerlen := q.index + 1);
          assert q'.fixed_header[..q.index + 1] == h + [c];
          assert Taken(q') == Taken(q) + [c];
          Replace(i, q');
        }
      } else {
        if def_queue.socket == 0 {
          def_queue := def_queue.(socket := socket, index := 0, datalen := 0);
        }
        if def_queue.socket == socket && def_queue.index <= 4 {
          def_queue := def_queue.(fixed_header := def_queue.fixed_header[def_queue.index := c],
                                  index := def_queue.index + 1, headerlen := def_queue.index + 1);
          assert HeaderOf(def_queue) == h + [c];
        }
      }
    }

    /** `SocketBuffer_interrupted`: the next call starts over, replaying the header. */
    method Interrupt(socket: int, actual_len: nat, ghost h: seq<byte>)
      requires Reading(socket, h)
      requires var i := Position(queues, socket);
        if i < |queues| then Stored(queues[i].(index := 0, datalen := actual_len))
        else if h == [] then actual_len == 0
        else Stored(def_queue.(index := 0, datalen := actual_len))
      modifies this
      ensures Resting()
      ensures forall t :: t > 0 && t != socket ==> Held(t) == old(Held(t))
      ensures var i := Position(old(queues), socket);
        if i < |old(queues)| then Held(socket) == Taken(old(queues)[i].(index := 0, datalen := actual_len))
        else if h == [] then Held(socket) == []
        else Held(socket) == Taken(old(def_queue).(index := 0, datalen := actual_len))
    {
      InterruptFacts(socket, h);
      hide Reading, OthersIn, HeldIn, Position, Stored, Taken, Sized;
      var i := Position(queues, socket);
      if i < |queues| {
        var queue := queues[i].(index := 0, datalen := actual_len);
        StoredIsSized(queue);
        Replace(i, queue);
        AllOthers(queues, i);
      } else {
        var queue := def_queue.(index := 0, datalen := actual_len);
        ghost var before, was := queues, def_queue;
        queues := queues + [queue];
        NewDefQ();
        AppendedOthers(before, queue, socket);
        forall t | t > 0 ensures Held(t) == if t == queue.socket then Taken(queue) else HeldIn(before, was, t) {
          AppendedHeld(before, was, queue, def_queue, t);
        }
        if h == [] { HeldNone(before, was, socket); }
      }
    }

    lemma InterruptFacts(socket: int, h: seq<byte>)
      requires Reading(socket, h)
      ensures socket > 0 && OthersIn(queues, socket) && (def_queue.socket != 0 ==> Sized(def_queue))
      ensures def_queue.socket == if Position(queues, socket) == |queues| && h != [] then socket else 0
    {
    }

    /** `SocketBuffer_complete` */
    method Complete(socket: int)
      requires socket > 0 && Others(socket) && (def_queue.socket == 0 || def_queue.socket == socket)
      modifies this
      ensures Resting() && Held(socket) == [] && forall t :: t > 0 && t != socket ==> Held(t) == old(Held(t))
    {
      ghost var before := queues;
      var i := Position(queues, socket);
      if i < |queues| {
        def_queue := queues[i];
        RemoveQueue(i);
      }
      def_queue := def_queue.(socket := 0, index := 0, headerlen := 0, datalen := 0);
      hide OthersIn, Position, HeldIn;
      forall t | t > 0 && t != socket ensures Held(t) == old(Held(t)) {
        HeldSame(before, old(def_queue), queues, def_queue, t);
      }
    }

    /** `SocketBuffer_cleanup` */
    method Cleanup(socket: int)
      requires Broken(socket)
      modifies this
      ensures Resting() && Held(socket) == [] && forall t :: t > 0 && t != socket ==> Held(t) == old(Held(t))
    {
      ghost var before := queues;
      var i := Position(queues, socket);
      if i < |queues| {
        RemoveQueue(i);
      }
      if def_queue.socket == socket {
        def_queue := def_queue.(socket := 0, index := 0, headerlen := 0, datalen := 0);
      }
      hide OthersIn, Position, HeldIn;
      forall t | t > 0 && t != socket ensures Held(t) == old(Held(t)) {
        HeldSame(before, old(def_queue), queues, def_queue, t);
      }
    }

    method RemoveQueue(i: nat)
      requires i < |queues| && queues[i].socket > 0 && Others(queues[i].socket)
      requires i == Position(queues, queues[i].socket)
      modifies this`queues
      ensures Others(0) && queues == old(queues[..i] + queues[i + 1..])
      ensures Position(queues, old(queues)[i].socket) == |queues|
      ensures forall t :: t > 0 && t != old(queues)[i].socket ==> SameQueue(old(queues), queues, t)
    {
      ghost var before := queues;
      queues := queues[..i] + queues[i + 1..];
      RemoveOthers(before, i);
      hide OthersIn, Position;
      forall t | t > 0 && t != before[i].socket ensures SameQueue(before, queues, t) { RemovePosition(before, i, t); }
    }

    // ---------------------------------------------------------------- Socket.c

    lemma HeldHasHeader(socket: int, h: seq<byte>)
      requires Reading(socket, h)
      ensures |h| <= |Held(socket)| && Held(socket)[..|h|] == h
    {
    }

    /** With an unfinished header everything saved has been replayed before the socket is asked again. */
    lemma OpenHeader(socket: int, h: seq<byte>)
      requires Reading(socket, h) && HeaderOpen(h)
      ensures var i := Position(queues, socket);
        i < |queues| && queues[i].index == queues[i].headerlen ==>
          && queues[i].datalen == 0 && Stored(queues[i].(index := 0, datalen := 0)) && Held(socket) == h
          && Taken(queues[i].(index := 0, datalen := 0)) == h
      ensures Position(queues, socket) == |queues| ==> Held(socket) == h
      ensures Position(queues, socket) == |queues| && h != [] ==>
        Stored(def_queue.(index := 0, datalen := 0)) && Taken(def_queue.(index := 0, datalen := 0)) == h
    {
    }

    /** `Socket_getch` */
    method Getch(socket: int, feed: Feed, ghost h: seq<byte>) returns (rc: Completion, c: byte)
      requires Reading(socket, h) && HeaderOpen(h) && |h| <= 4 && !feed.failed
      modifies this, feed
      ensures rc == Done ==> Reading(socket, h + [c]) && !feed.failed
      ensures rc == Interrupted ==> Resting() && !feed.failed && Held(socket) == h
      ensures rc == Error ==> Broken(socket) && feed.failed
      ensures rc != Error ==> Held(socket) + feed.rest == old(Held(socket) + feed.rest)
      ensures feed.shorts == old(feed.shorts) + if rc == Interrupted then 1 else 0
      ensures feed.Coverage() + 1 >= old(feed.Coverage())
      ensures old(feed.Coverage()) > 0 ==> rc != Error && (rc == Interrupted ==> feed.rest == [])
      ensures forall t :: t > 0 && t != socket ==> Held(t) == old(Held(t))
    {
      rc, c := GetQueuedChar(socket, h);
      if rc == Interrupted {
        hide Position, Stored, OthersIn, HeldIn, HeaderOpen, Replayed;
        rc, c := ReceiveChar(socket, feed, h);
      }
    }

    /** The part of `Socket_getch` that asks the socket. */
    method ReceiveChar(socket: int, feed: Feed, ghost h: seq<byte>) returns (rc: Completion, c: byte)
      requires Reading(socket, h) && HeaderOpen(h) && |h| <= 4 && !feed.failed
      requires Replayed(socket)
      modifies this, feed
      ensures rc == Done ==> Reading(socket, h + [c]) && !feed.failed
      ensures rc == Interrupted ==> Resting() && !feed.failed && Held(socket) == h
      ensures rc == Error ==> Broken(socket) && feed.failed
      ensures rc != Error ==> Held(socket) + feed.rest == old(Held(socket) + feed.rest)
      ensures feed.shorts == old(feed.shorts) + if rc == Interrupted then 1 else 0
      ensures feed.Coverage() + 1 >= old(feed.Coverage())
      ensures old(feed.Coverage()) > 0 ==> rc != Error && (rc == Interrupted ==> feed.rest == [])
      ensures forall t :: t > 0 && t != socket ==> Held(t) == old(Held(t))
    {
      ReadingBreaks(socket, h);
      rc, c := Interrupted, 0;
      ghost var held := Held(socket);
      hide Position, Stored, OthersIn, HeldIn, HeaderOpen, HeaderOf, Taken, Reading, Resting, Broken, Others, Held,
          Replayed;
      var got := feed.Recv(1);
      if feed.failed {
        rc := Error;
      } else if got == [] {
        InterruptHeader(socket, h);
      } else {
        c := got[0];
        QueueChar(socket, c, h);
        rc := Done;
        Joins(held, got, c, feed.rest);
      }
    }

    /** The socket has nothing to say in the middle of a header. */
    method InterruptHeader(socket: int, ghost h: seq<byte>)
      requires Reading(socket, h) && HeaderOpen(h)
      requires Replayed(socket)
      modifies this
      ensures Resting() && Held(socket) == old(Held(socket)) == h
      ensures forall t :: t > 0 && t != socket ==> Held(t) == old(Held(t))
    {
      OpenHeader(socket, h);
      hide Position, Stored, OthersIn, HeldIn, HeaderOpen, HeaderOf, Taken, Reading, Resting, Others, Held;
      Interrupt(socket, 0, h);
    }

    lemma ReadingBreaks(socket: int, h: seq<byte>)
      requires Reading(socket, h)
      ensures Broken(socket)
    {
    }

    /** `MQTTPacket_decode`; the bytes read so far, the header byte first, are h. */
    method DecodeRemaining(socket: int, feed: Feed, header: byte)
      returns (rc: Completion, value: nat, ghost h: seq<byte>)
      requires Reading(socket, [header]) && !feed.failed
      modifies this, feed
      ensures rc == Done ==>
          Reading(socket, h) && !feed.failed && HeaderComplete(h) && value == BodyLength(h) && h[0] == header
      ensures rc == Interrupted ==> Resting() && !feed.failed && HeaderOpen(Held(socket))
      ensures rc == Error && !feed.failed ==> NextFrame(old(Held(socket) + feed.rest)).Malformed?
      ensures rc == Error ==> Broken(socket)
      ensures rc != Error ==> Held(socket) + feed.rest == old(Held(socket) + feed.rest)
      ensures feed.shorts == old(feed.shorts) + if rc == Interrupted then 1 else 0
      ensures feed.Coverage() + 4 >= old(feed.Coverage())
      ensures old(feed.Coverage()) >= 4 ==> (rc == Error ==> !feed.failed) && (rc == Interrupted ==> feed.rest == [])
      ensures forall t :: t > 0 && t != socket ==> Held(t) == old(Held(t))
    {
      var multiplier: int := 1;
      var len, more := 0, true;
      value, h := 0, [header];
      DecodingStarts(header);
      ghost var stream := Held(socket) + feed.rest;
      hide Position, Stored, OthersIn, HeldIn, Decoding, HeaderOpen, HeaderComplete, BodyLength, DecodeLength,
          NextFrame, Reading, Resting, Broken;
      while more
        invariant len <= 4 && h != [] && h[0] == header && !feed.failed && Reading(socket, h)
        invariant Decoding(h, len, value, multiplier, more)
        invariant Held(socket) + feed.rest == stream
        invariant feed.shorts == old(feed.shorts) && feed.Coverage() + len >= old(feed.Coverage())
        invariant forall t :: t > 0 && t != socket ==> Held(t) == old(Held(t))
        decreases 5 - len, more
      {
        DecodingFacts(h, len, value, multiplier, more);
        if len + 1 > 4 {
          BadStream(socket, h, feed.rest);
          return Error, value, h;
        }
        var c;
        rc, c := Getch(socket, feed, h);
        if rc != Done { return; }
        DecodingStep(h, len, value, multiplier, c);
        value := value + c as int % 128 * multiplier;
        multiplier := multiplier * 128;
        len := len + 1;
        h := h + [c];
        more := c >= 128;
      }
      DecodingFacts(h, len, value, multiplier, more);
      rc := Done;
    }

    lemma BadStream(socket: int, h: seq<byte>, rest: seq<byte>)
      requires Reading(socket, h) && h != [] && DecodeLength(h[1..], 0).Bad?
      ensures NextFrame(Held(socket) + rest).Malformed? && Broken(socket)
    {
      var held := Held(socket);
      ReadingBreaks(socket, h);
      HeldHasHeader(socket, h);
      hide Reading, Broken, Held, DecodeLength, NextFrame;
      HeaderBad(h, held[|h|..] + rest);
      assert held == h + held[|h|..];
      Assoc(h, held[|h|..], rest);
    }

    /** With a complete header in hand, what is known about the body. */
    lemma CompleteHeader(socket: int, h: seq<byte>)
      requires Reading(socket, h) && HeaderComplete(h)
      ensures var i := Position(queues, socket);
        var q := if i < |queues| then queues[i] else def_queue;
        && q.socket == socket && Sized(q) && HeaderOf(q) == h && q.index == q.headerlen
        && (q.datalen == 0 || q.datalen < BodyLength(h))
        && (i == |queues| ==> q.datalen == 0) && Held(socket) == h + q.buf[..q.datalen]
    {
      var i := Position(queues, socket);
      if i < |queues| {
        var q := queues[i];
        if Stored(q) { NoLongerHeader(h, HeaderOf(q)); }
      } else {
        assert def_queue.buf[..0] == [];
      }
    }

    /** `Socket_getdata`, for the body whose length the header h gives. */
    method Getdata(socket: int, feed: Feed, bytes: nat, ghost h: seq<byte>) returns (rc: Completion, data: seq<byte>)
      requires Reading(socket, h) && HeaderComplete(h) && bytes == BodyLength(h) && !feed.failed
      modifies this, feed
      ensures rc == Done ==> Resting() && !feed.failed && Held(socket) == [] && |data| == bytes
                             && old(Held(socket) + feed.rest) == h + data + feed.rest
      ensures rc == Interrupted ==> Resting() && !feed.failed && NextFrame(Held(socket)).Incomplete?
                                    && Held(socket) + feed.rest == old(Held(socket) + feed.rest)
      ensures rc == Error ==> Broken(socket) && feed.failed
      ensures feed.shorts == old(feed.shorts) + if rc == Interrupted then 1 else 0
      ensures feed.Coverage() + 1 >= old(feed.Coverage())
      ensures old(feed.Coverage()) > 0 ==> rc != Error && (rc == Interrupted ==> feed.rest == [])
      ensures forall t :: t > 0 && t != socket ==> Held(t) == old(Held(t))
    {
      CompleteHeader(socket, h);
      ReadingBreaks(socket, h);
      hide Feed.Coverage, Granted, Covered, NextFrame, HeaderComplete, BodyLength, Broken;
      if bytes == 0 {
        Complete(socket);
        return Done, [];
      }
      var i := Position(queues, socket);
      var queue := if i < |queues| then queues[i] else def_queue;
      var actual_len := if i < |queues| then queue.datalen else 0;
      var buf := Enlarged(queue.buf, actual_len, bytes);
      var got := feed.Recv(bytes - actual_len);
      if feed.failed { return Error, []; }
      buf := buf[..actual_len] + got + buf[actual_len + |got|..];
      ghost var before := queue.buf[..actual_len];
      actual_len := actual_len + |got|;
      BodySoFar(h, before, got, buf, feed.rest);
      if actual_len == bytes {
        data := buf[..bytes];
        Complete(socket);
        rc := Done;
      } else {
        Refill(socket, i, queue.(buf := buf), h);
        Interrupt(socket, actual_len, h);
        HeaderAndPart(h, buf[..actual_len]);
        rc, data := Interrupted, [];
      }
    }

    /** The queue in use gets another buffer that holds the same data. */
    method Refill(socket: int, i: nat, q: Queue, ghost h: seq<byte>)
      requires Reading(socket, h) && i == Position(queues, socket) && Sized(q)
      requires var was := if i < |queues| then queues[i] else def_queue;
        was.socket == socket && Sized(was) && q == was.(buf := q.buf) && q.buf[..q.datalen] == was.buf[..q.datalen]
      modifies this
      ensures Reading(socket, h) && Position(queues, socket) == i && |queues| == |old(queues)|
      ensures (if i < |queues| then queues[i] else def_queue) == q
      ensures forall t :: t > 0 ==> Held(t) == old(Held(t))
    {
      if i < |queues| {
        Replace(i, q);
      } else {
        def_queue := q;
      }
    }

    /** `MQTTPacket_Factory`: one attempt to read a packet.  Of the bytes of the stream that no packet has
        been made of yet, it takes exactly the first packet, or none; none without an error only when
        some `recv` got less than it asked for.  When the coming calls get all they ask for, the outcome is what
        the bytes say. */
    method Factory(socket: int, feed: Feed) returns (rc: Completion, packet: Frame)
      requires Resting() && socket > 0 && !feed.failed
      modifies this, feed
      ensures rc == Done ==> Resting() && !feed.failed && Held(socket) == []
                             && NextFrame(old(Held(socket) + feed.rest)) == MqttWire.Complete(packet, feed.rest)
      ensures rc == Interrupted ==> Resting() && !feed.failed && NextFrame(Held(socket)).Incomplete?
                                    && Held(socket) + feed.rest == old(Held(socket) + feed.rest)
      ensures rc == Error ==> Broken(socket) && (feed.failed || NextFrame(old(Held(socket) + feed.rest)).Malformed?)
      ensures feed.shorts == old(feed.shorts) + if rc == Interrupted then 1 else 0
      ensures feed.Coverage() + 6 >= old(feed.Coverage())
      ensures old(feed.Coverage()) >= 6 ==>
        !feed.failed && (rc == Interrupted ==> feed.rest == [])
        && (rc == Done <==> NextFrame(old(Held(socket) + feed.rest)).Complete?)
        && (rc == Interrupted <==> NextFrame(old(Held(socket) + feed.rest)).Incomplete?)
      ensures forall t :: t > 0 && t != socket ==> Held(t) == old(Held(t))
    {
      ghost var total := Held(socket) + feed.rest;
      hide Resting, Broken, Held, NextFrame, Feed.Coverage;
      rc, packet := ReadPacket(socket, feed);
      if !feed.failed && (rc == Interrupted ==> feed.rest == []) {
        Verdict(total, rc, packet, Held(socket), feed.rest);
      }
    }

    /** The header byte, the remaining length and the body. */
    method ReadPacket(socket: int, feed: Feed) returns (rc: Completion, packet: Frame)
      requires Resting() && socket > 0 && !feed.failed
      modifies this, feed
      ensures rc == Done ==> Resting() && !feed.failed && Held(socket) == []
                             && NextFrame(old(Held(socket) + feed.rest)) == MqttWire.Complete(packet, feed.rest)
      ensures rc == Interrupted ==> Resting() && !feed.failed && NextFrame(Held(socket)).Incomplete?
                                    && Held(socket) + feed.rest == old(Held(socket) + feed.rest)
      ensures rc == Error ==> Broken(socket) && (feed.failed || NextFrame(old(Held(socket) + feed.rest)).Malformed?)
      ensures feed.shorts == old(feed.shorts) + if rc == Interrupted then 1 else 0
      ensures feed.Coverage() + 6 >= old(feed.Coverage())
      ensures old(feed.Coverage()) >= 6 ==> !feed.failed && (rc == Interrupted ==> feed.rest == [])
      ensures forall t :: t > 0 && t != socket ==> Held(t) == old(Held(t))
    {
      packet := Frame(0, []);
      var header, remaining_length, data;
      ghost var h;
      RestingReads(socket);
      hide Reading, Resting, Broken, Held, HeaderOpen, HeaderComplete, NextFrame, Feed.Coverage;
      OpenHeaders(0);
      rc, header := Getch(socket, feed, []);
      if rc != Done { return; }
      OpenHeaders(header);
      rc, remaining_length, h := DecodeRemaining(socket, feed, header);
      if rc != Done {
        if rc == Interrupted { OpenIsIncomplete(Held(socket)); }
        return;
      }
      rc, data := Getdata(socket, feed, remaining_length, h);
      if rc == Done {
        HeaderAndBody(h, data, feed.rest);
        packet := Frame(header, data);
      }
    }
  }

  lemma Verdict(total: seq<byte>, rc: Completion, packet: Frame, held: seq<byte>, rest: seq<byte>)
    requires rc == Done ==> NextFrame(total) == Complete(packet, rest)
    requires rc == Interrupted ==> rest == [] && held + rest == total && NextFrame(held).Incomplete?
    requires rc == Error ==> NextFrame(total).Malformed?
    ensures rc == Done <==> NextFrame(total).Complete?
    ensures rc == Interrupted <==> NextFrame(total).Incomplete?
  {
    hide NextFrame;
    Assoc(held, [], []);
  }

  ghost function HeldIn(qs: seq<Queue>, def: Queue, socket: int): seq<byte> {
    var i := Position(qs, socket);
    if i < |qs| then if Sized(qs[i]) then Taken(qs[i]) else []
    else if def.socket == socket && Sized(def) then HeaderOf(def) else []
  }

  /** The buffer with room for n bytes; the first `used` bytes are kept. */
  function Enlarged(buf: seq<byte>, used: nat, n: nat): (r: seq<byte>)
    requires used <= |buf| && used <= n
    ensures |r| >= n && r[..used] == buf[..used]
  {
    if n <= |buf| then buf else buf[..used] + seq(n - used, _ => 0)
  }

  lemma BodySoFar(h: seq<byte>, before: seq<byte>, got: seq<byte>, buf: seq<byte>, rest: seq<byte>)
    requires |buf| >= |before| + |got| && buf == before + got + buf[|before| + |got|..]
    ensures buf[..|before| + |got|] == before + got && buf[..|before|] == before
    ensures (h + before) + (got + rest) == h + (before + got) + rest
  {
  }

  lemma Joins(a: seq<byte>, got: seq<byte>, c: byte, b: seq<byte>)
    requires |got| == 1 && got[0] == c
    ensures (a + [c]) + b == a + (got + b)
  {
  }

  lemma OthersUpdate(qs: seq<Queue>, i: nat, q: Queue)
    requires i < |qs| && q.socket == qs[i].socket && OthersIn(qs, q.socket)
    ensures OthersIn(qs[i := q], q.socket)
  {
    hide Stored;
    var qs' := qs[i := q];
    forall k | 0 <= k < |qs'| ensures qs'[k].socket == qs[k].socket && (k != i ==> qs'[k] == qs[k]) { }
  }

  lemma HeldUpdate(qs: seq<Queue>, def: Queue, i: nat, q: Queue, t: int)
    requires i < |qs| && q.socket == qs[i].socket && t != q.socket && Position(qs[i := q], t) == Position(qs, t)
    ensures HeldIn(qs[i := q], def, t) == HeldIn(qs, def, t)
  {
  }

  lemma HeldAt(qs: seq<Queue>, def: Queue, i: nat)
    requires i < |qs| && Position(qs, qs[i].socket) == i && Sized(qs[i])
    ensures HeldIn(qs, def, qs[i].socket) == Taken(qs[i])
  {
  }

  lemma HeldSame(qs: seq<Queue>, def: Queue, qs': seq<Queue>, def': Queue, t: int)
    requires (Position(qs, t) < |qs| || (def.socket != t && def'.socket != t)) && SameQueue(qs, qs', t)
    ensures HeldIn(qs, def, t) == HeldIn(qs', def', t)
  {
  }

  lemma StoredIsSized(q: Queue)
    requires Stored(q)
    ensures Sized(q)
  {
  }

  lemma AllOthers(qs: seq<Queue>, i: nat)
    requires i < |qs| && OthersIn(qs, qs[i].socket) && Stored(qs[i]) && qs[i].index == 0
    ensures OthersIn(qs, 0)
  {
    hide Stored;
    assert forall k :: 0 <= k < |qs| && k != i && qs[k].socket == qs[i].socket ==> qs[k].socket == 0;
  }

  lemma AppendedOthers(qs: seq<Queue>, q: Queue, socket: int)
    requires OthersIn(qs, socket) && Position(qs, socket) == |qs| && q.index == 0
    requires q.socket == 0 || (q.socket == socket && Stored(q))
    ensures OthersIn(qs + [q], 0)
  {
    hide Stored, Position;
  }

  lemma AppendedHeld(qs: seq<Queue>, def: Queue, q: Queue, def': Queue, t: int)
    requires t > 0 && def'.socket == 0 && (def.socket == 0 || def.socket == q.socket)
    requires t == q.socket ==> Position(qs, t) == |qs| && Sized(q)
    ensures HeldIn(qs + [q], def', t) == if t == q.socket then Taken(q) else HeldIn(qs, def, t)
  {
    hide Position, Taken, HeaderOf, Sized;
    AppendPosition(qs, q, t);
  }

  lemma HeldNone(qs: seq<Queue>, def: Queue, t: int)
    requires Position(qs, t) == |qs| && def.socket != t
    ensures HeldIn(qs, def, t) == []
  {
  }

  ghost predicate OthersIn(qs: seq<Queue>, socket: int) {
    && (forall k :: 0 <= k < |qs| && qs[k].socket != 0 && qs[k].socket != socket ==> Stored(qs[k]) && qs[k].index == 0)
    && (forall j, k :: 0 <= j < k < |qs| && qs[j].socket == qs[k].socket ==> qs[k].socket == 0)
  }

  /** Socket t's queue, or its absence, is the same in both lists. */
  ghost predicate SameQueue(qs: seq<Queue>, qs': seq<Queue>, t: int) {
    if Position(qs, t) < |qs| then Position(qs', t) < |qs'| && qs'[Position(qs', t)] == qs[Position(qs, t)]
    else Position(qs', t) == |qs'|
  }

  lemma RemoveOthers(qs: seq<Queue>, i: nat)
    requires i < |qs| && qs[i].socket > 0 && OthersIn(qs, qs[i].socket)
    ensures var qs' := qs[..i] + qs[i + 1..]; OthersIn(qs', 0) && Position(qs', qs[i].socket) == |qs'|
  {
    var qs' := qs[..i] + qs[i + 1..];
    forall k | 0 <= k < |qs'| ensures
      var m := if k < i then k else k + 1; qs'[k] == qs[m] && qs'[k].socket != qs[i].socket
    {
      assert qs'[k] == if k < i then qs[k] else qs[k + 1];
    }
    PositionIs(qs', qs[i].socket, |qs'|);
  }

  lemma RemovePosition(qs: seq<Queue>, i: nat, t: int)
    requires i < |qs| && t != qs[i].socket
    ensures SameQueue(qs, qs[..i] + qs[i + 1..], t)
  {
    var qs', p := qs[..i] + qs[i + 1..], Position(qs, t);
    var p' := if p > i then p - 1 else p;
    forall k | 0 <= k < |qs'| ensures qs'[k] == if k < i then qs[k] else qs[k + 1] { }
    PositionIs(qs', t, p');
  }

  lemma AppendPosition(qs: seq<Queue>, q: Queue, t: int)
    ensures Position(qs + [q], t) ==
      if Position(qs, t) < |qs| then Position(qs, t) else if t == q.socket then |qs| else |qs| + 1
  {
    var i := Position(qs, t);
    PositionIs(qs + [q], t, if i < |qs| then i else if t == q.socket then |qs| else |qs| + 1);
  }
}
