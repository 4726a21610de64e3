/** Writing packets to non-blocking sockets: the writing half of Socket.c and of SocketBuffer.c, without
    socket errors.  A short write is remembered as a byte offset and continued later. */
module SocketWrites {
  import opened Sequences
  import opened Bytes
  import opened MqttWire

  /** What one `writev` takes of the bytes it is offered. */
  function Granted(grants: seq<nat>, offered: nat): (n: nat)
    ensures n <= offered
  {
    if grants == [] then 0 else if grants[0] < offered then grants[0] else offered
  }

  function Later(grants: seq<nat>): seq<nat> {
    if grants == [] then [] else grants[1..]
  }

  /** One socket's output: the bytes it has accepted, and how many it takes in each coming `writev`; none when
      it would block. */
  class Sink {
    var accepted: seq<byte>
    var grants: seq<nat>

    method Writev(iovecs: seq<seq<byte>>) returns (bytes: nat)
      modifies this
      ensures bytes == Granted(old(grants), |Joined(iovecs)|) && accepted == old(accepted) + Joined(iovecs)[..bytes]
      ensures grants == Later(old(grants))
    {
      var data := Joined(iovecs);
      bytes := 0;
      if grants != [] {
        bytes := if grants[0] < |data| then grants[0] else |data|;
        grants := grants[1..];
      }
      accepted := accepted + data[..bytes];
    }
  }

  /** `pending_writes` */
  datatype Pending = Pending(socket: int, total: nat, bytes: nat, iovecs: seq<seq<byte>>)

  datatype Result = Written | Partial | Refused

  function Position(ws: seq<Pending>, socket: int): (i: nat)
    ensures i <= |ws| && (i < |ws| ==> ws[i].socket == socket) && forall j :: 0 <= j < i ==> ws[j].socket != socket
  {
    if ws == [] || ws[0].socket == socket then 0 else 1 + Position(ws[1..], socket)
  }

  lemma {:induction false} PositionIs(ws: seq<Pending>, socket: int, i: nat)
    requires i <= |ws| && (i < |ws| ==> ws[i].socket == socket) && forall j :: 0 <= j < i ==> ws[j].socket != socket
    ensures Position(ws, socket) == i
  {
  }

  predicate Sound(w: Pending) {
    w.total == |Joined(w.iovecs)| && w.bytes < w.total
  }

  ghost predicate SoundList(ws: seq<Pending>) {
    && (forall i :: 0 <= i < |ws| ==> Sound(ws[i]))
    && (forall i, j :: 0 <= i < j < |ws| ==> ws[i].socket != ws[j].socket)
  }

  /** What is still to be written of the unfinished packet. */
  function OwedIn(ws: seq<Pending>, socket: int): seq<byte>
    requires SoundList(ws)
  {
    var i := Position(ws, socket);
    if i < |ws| then Joined(ws[i].iovecs)[ws[i].bytes..] else []
  }

  /** How many of them the next `writev` is offered. */
  ghost function OfferIn(ws: seq<Pending>, socket: int): int
    requires SoundList(ws)
  {
    var i := Position(ws, socket);
    if i < |ws| then OfferEnd(ws[i]) - ws[i].bytes else 0
  }

  lemma OfferIs(ws: seq<Pending>, i: nat)
    requires SoundList(ws) && i < |ws|
    ensures OfferIn(ws, ws[i].socket) == OfferEnd(ws[i]) - ws[i].bytes
    ensures 0 < OfferIn(ws, ws[i].socket) <= |OwedIn(ws, ws[i].socket)|
    ensures OnEdge(ws[i].iovecs, ws[i].bytes) ==> OfferIn(ws, ws[i].socket) == |OwedIn(ws, ws[i].socket)|
  {
    OfferEndsOnEdge(ws[i]);
    hide OfferEnd;
    PositionIs(ws, ws[i].socket, i);
  }

  lemma SoundAppend(ws: seq<Pending>, w: Pending)
    requires SoundList(ws) && Sound(w) && Position(ws, w.socket) == |ws|
    ensures SoundList(ws + [w])
  {
    hide Position, Sound;
    forall i, j | 0 <= i < j < |ws + [w]| ensures (ws + [w])[i].socket != (ws + [w])[j].socket { }
  }

  lemma OwedAppend(ws: seq<Pending>, w: Pending, t: int)
    requires SoundList(ws) && Sound(w) && Position(ws, w.socket) == |ws|
    ensures SoundList(ws + [w])
    ensures OwedIn(ws + [w], t) == if t == w.socket then Joined(w.iovecs)[w.bytes..] else OwedIn(ws, t)
  {
    SoundAppend(ws, w);
    var p := if Position(ws, t) < |ws| then Position(ws, t) else if t == w.socket then |ws| else |ws| + 1;
    PositionIs(ws + [w], t, p);
    hide Position, Joined;
  }

  lemma OwedUpdate(ws: seq<Pending>, i: nat, w: Pending, t: int)
    requires SoundList(ws) && i < |ws| && Sound(w) && w.socket == ws[i].socket
    ensures SoundList(ws[i := w])
    ensures OwedIn(ws[i := w], t) == if t == w.socket then Joined(w.iovecs)[w.bytes..] else OwedIn(ws, t)
  {
    PositionIs(ws[i := w], t, if t == w.socket then i else Position(ws, t));
  }

  lemma SoundRemove(ws: seq<Pending>, i: nat)
    requires SoundList(ws) && i < |ws|
    ensures SoundList(ws[..i] + ws[i + 1..])
  {
    hide Sound;
  }

  lemma OwedRemove(ws: seq<Pending>, i: nat, t: int)
    requires SoundList(ws) && i < |ws|
    ensures SoundList(ws[..i] + ws[i + 1..])
    ensures OwedIn(ws[..i] + ws[i + 1..], t) == if t == ws[i].socket then [] else OwedIn(ws, t)
  {
    SoundRemove(ws, i);
    var p, ws' := Position(ws, t), ws[..i] + ws[i + 1..];
    hide Position, Joined, Sound;
    PositionIs(ws', t, if t == ws[i].socket then |ws'| else if p > i then p - 1 else p);
  }

  lemma OwedNothing(ws: seq<Pending>, socket: int)
    requires SoundList(ws)
    ensures OwedIn(ws, socket) == [] <==> Position(ws, socket) == |ws|
  {
  }

  lemma OwedPart(ws: seq<Pending>, i: nat)
    requires SoundList(ws) && i < |ws|
    ensures var w := ws[i];
      && Sound(w) && w.total == |Joined(w.iovecs)| && w.bytes < w.total
      && OwedIn(ws, w.socket) == Joined(w.iovecs)[w.bytes..]
  {
    PositionIs(ws, ws[i].socket, i);
  }

  // ---------------------------------------------------------------- the buffers to continue with

  lemma {:induction false} JoinedTake(bufs: seq<seq<byte>>, i: nat)
    requires i <= |bufs|
    ensures |Joined(bufs[..i])| <= |Joined(bufs)| && Joined(bufs)[..|Joined(bufs[..i])|] == Joined(bufs[..i])
    decreases |bufs|
  {
    if i == |bufs| {
      assert bufs[..i] == bufs;
    } else {
      var front := bufs[..|bufs| - 1];
      JoinedTake(front, i);
      assert front[..i] == bufs[..i];
    }
  }

  lemma JoinedNext(bufs: seq<seq<byte>>, i: nat)
    requires i < |bufs|
    ensures Joined(bufs[..i + 1]) == Joined(bufs[..i]) + bufs[i]
  {
    assert bufs[..i + 1][..i] == bufs[..i];
  }

  function From(s: seq<byte>, k: nat): seq<byte> {
    if k <= |s| then s[k..] else []
  }

  lemma FromNext(s: seq<byte>, b: seq<byte>, k: nat)
    ensures k <= |s| ==> From(s + b, k) == From(s, k) + b
    ensures |s| < k < |s| + |b| ==> From(s + b, k) == From(s, k) + b[k - |s|..]
    ensures k > |s| && k >= |s| + |b| ==> From(s + b, k) == From(s, k)
  {
  }

  /** The rebuilt buffers hold what has not been written, up to the end of the packet if a buffer starts there,
      and otherwise only to the end of the buffer that was half written. */
  method Remaining(w: Pending) returns (iovecs1: seq<seq<byte>>)
    requires Sound(w)
    ensures IsRest(w, iovecs1)
  {
    var curbuflen: nat, i := 0, 0;
    iovecs1 := [];
    RebuiltFirst(w);
    hide Joined, Rebuilt, IsRest, Sound, From, OnEdge, OfferEnd, NextEdge;
    while i < |w.iovecs|
      invariant 0 <= i <= |w.iovecs| && Rebuilt(w, i, curbuflen, iovecs1)
    {
      ghost var was := iovecs1;
      if w.bytes <= curbuflen {
        iovecs1 := iovecs1 + [w.iovecs[i]];
      } else if w.bytes < curbuflen + |w.iovecs[i]| {
        var offset := w.bytes - curbuflen;
        iovecs1 := iovecs1 + [w.iovecs[i][offset..]];
        RebuiltPart(w, i, curbuflen, was, iovecs1);
        return;
      }
      RebuiltNext(w, i, curbuflen, was, iovecs1);
      curbuflen := curbuflen + |w.iovecs[i]|;
      i := i + 1;
    }
    RebuiltAll(w, curbuflen, iovecs1);
  }

  /** The first i buffers, of `curbuflen` bytes, have been gone over. */
  ghost predicate Rebuilt(w: Pending, i: nat, curbuflen: nat, iovecs1: seq<seq<byte>>) {
    && i <= |w.iovecs| && curbuflen == |Joined(w.iovecs[..i])|
    && (w.bytes <= curbuflen ==> OnEdge(w.iovecs, w.bytes))
    && Joined(iovecs1) == From(Joined(w.iovecs[..i]), w.bytes)
  }

  /** A buffer ends, or the first one starts, at the k-th byte. */
  ghost predicate OnEdge(bufs: seq<seq<byte>>, k: nat) {
    exists i: nat :: i <= |bufs| && |Joined(bufs[..i])| == k
  }

  /** The end of the buffer with the k-th byte. */
  function NextEdge(bufs: seq<seq<byte>>, k: nat): nat {
    if bufs == [] then 0
    else if k < |Joined(bufs[..|bufs| - 1])| then NextEdge(bufs[..|bufs| - 1], k)
    else |Joined(bufs)|
  }

  /** How far the next `writev` reaches. */
  ghost function OfferEnd(w: Pending): nat {
    if OnEdge(w.iovecs, w.bytes) then |Joined(w.iovecs)| else NextEdge(w.iovecs, w.bytes)
  }

  /** The buffers hold the bytes from where writing stopped to where the next `writev` reaches, at least one. */
  ghost predicate IsRest(w: Pending, iovecs1: seq<seq<byte>>) {
    var e := w.bytes + |Joined(iovecs1)|;
    w.bytes < e == OfferEnd(w) <= w.total == |Joined(w.iovecs)| && Joined(iovecs1) == Joined(w.iovecs)[w.bytes..e]
  }

  lemma {:induction false} NextEdgeIs(bufs: seq<seq<byte>>, k: nat, i: nat)
    requires i < |bufs| && |Joined(bufs[..i])| <= k < |Joined(bufs[..i + 1])|
    ensures NextEdge(bufs, k) == |Joined(bufs[..i + 1])|
    decreases |bufs|
  {
    var front := bufs[..|bufs| - 1];
    JoinedTake(bufs, i + 1);
    if i + 1 == |bufs| {
      Whole(bufs);
    } else {
      assert bufs[..i] == front[..i] && bufs[..i + 1] == front[..i + 1];
      JoinedTake(front, i + 1);
      hide Joined;
      NextEdgeIs(front, k, i);
    }
  }

  lemma NotOnEdge(bufs: seq<seq<byte>>, k: nat, i: nat)
    requires i < |bufs| && |Joined(bufs[..i])| < k < |Joined(bufs[..i + 1])|
    ensures !OnEdge(bufs, k)
  {
    forall j: nat | j <= |bufs| ensures |Joined(bufs[..j])| != k {
      if j <= i {
        assert bufs[..i][..j] == bufs[..j];
        JoinedTake(bufs[..i], j);
      } else {
        assert bufs[..j][..i + 1] == bufs[..i + 1];
        JoinedTake(bufs[..j], i + 1);
      }
    }
  }

  /** Where a `writev` reaches at most, a buffer ends. */
  lemma OfferEndsOnEdge(w: Pending)
    requires Sound(w)
    ensures w.bytes < OfferEnd(w) <= |Joined(w.iovecs)| && OnEdge(w.iovecs, OfferEnd(w))
  {
    NextEdgeOnEdge(w.iovecs, w.bytes);
    Whole(w.iovecs);
    hide Joined, NextEdge;
    if OnEdge(w.iovecs, w.bytes) {
      assert |Joined(w.iovecs[..|w.iovecs|])| == |Joined(w.iovecs)|;
    }
  }

  lemma {:induction false} NextEdgeOnEdge(bufs: seq<seq<byte>>, k: nat)
    requires k < |Joined(bufs)|
    ensures k < NextEdge(bufs, k) <= |Joined(bufs)| && OnEdge(bufs, NextEdge(bufs, k))
  {
    var front := bufs[..|bufs| - 1];
    Whole(bufs);
    if k < |Joined(front)| {
      NextEdgeOnEdge(front, k);
      var i: nat :| i <= |front| && |Joined(front[..i])| == NextEdge(front, k);
      assert front[..i] == bufs[..i];
    } else {
      assert |Joined(bufs[..|bufs|])| == |Joined(bufs)|;
    }
  }

  lemma RebuiltFirst(w: Pending)
    ensures Rebuilt(w, 0, 0, [])
  {
    assert w.iovecs[..0] == [] && Joined<byte>([]) == [];
  }

  /** One more buffer: added if it starts behind what has been written, passed over if all of it has. */
  lemma RebuiltNext(w: Pending, i: nat, curbuflen: nat, was: seq<seq<byte>>, iovecs1: seq<seq<byte>>)
    requires i < |w.iovecs| && Rebuilt(w, i, curbuflen, was)
    requires w.bytes <= curbuflen || w.bytes >= curbuflen + |w.iovecs[i]|
    requires iovecs1 == if w.bytes <= curbuflen then was + [w.iovecs[i]] else was
    ensures Rebuilt(w, i + 1, curbuflen + |w.iovecs[i]|, iovecs1)
  {
    var b, before := w.iovecs[i], Joined(w.iovecs[..i]);
    JoinedNext(w.iovecs, i);
    hide Joined, From;
    FromNext(before, b, w.bytes);
    JoinedAppend(was, b);
  }

  /** The buffer that was half written. */
  lemma RebuiltPart(w: Pending, i: nat, curbuflen: nat, was: seq<seq<byte>>, iovecs1: seq<seq<byte>>)
    requires i < |w.iovecs| && Rebuilt(w, i, curbuflen, was) && Sound(w)
    requires curbuflen < w.bytes < curbuflen + |w.iovecs[i]|
    requires iovecs1 == was + [w.iovecs[i][w.bytes - curbuflen..]]
    ensures IsRest(w, iovecs1)
  {
    var b, before := w.iovecs[i], Joined(w.iovecs[..i]);
    JoinedNext(w.iovecs, i);
    JoinedTake(w.iovecs, i + 1);
    hide Joined, From;
    FromNext(before, b, w.bytes);
    NextEdgeIs(w.iovecs, w.bytes, i);
    NotOnEdge(w.iovecs, w.bytes, i);
    JoinedAppend(was, b[w.bytes - curbuflen..]);
    FromIsSlice(Joined(w.iovecs), Joined(w.iovecs[..i + 1]), w.bytes, Joined(iovecs1));
  }

  lemma RebuiltAll(w: Pending, curbuflen: nat, iovecs1: seq<seq<byte>>)
    requires Rebuilt(w, |w.iovecs|, curbuflen, iovecs1) && Sound(w)
    ensures IsRest(w, iovecs1)
  {
    Whole(w.iovecs);
    Whole(Joined(w.iovecs));
    hide Joined;
    FromIsSlice(Joined(w.iovecs), Joined(w.iovecs), w.bytes, Joined(iovecs1));
  }

  lemma FromIsSlice(all: seq<byte>, front: seq<byte>, k: nat, part: seq<byte>)
    requires |front| <= |all| && all[..|front|] == front && part == From(front, k) && k < |front|
    ensures k + |part| == |front| && part == all[k..k + |part|]
  {
  }

  method TotalLength(buf0: seq<byte>, buffers: seq<seq<byte>>) returns (total: nat)
    ensures total == |buf0 + Joined(buffers)|
  {
    var i := 0;
    total := |buf0|;
    while i < |buffers|
      invariant 0 <= i <= |buffers| && total == |buf0| + |Joined(buffers[..i])|
    {
      JoinedLength(buffers, i);
      total := total + |buffers[i]|;
      i := i + 1;
    }
    assert buffers[..i] == buffers;
  }

  // ---------------------------------------------------------------- the writer

  class Writer {
    var writes: seq<Pending>

    ghost predicate Valid()
      reads this
    {
      SoundList(writes)
    }

    ghost function Owed(socket: int): seq<byte>
      requires Valid()
      reads this
    {
      OwedIn(writes, socket)
    }

    ghost function Offer(socket: int): int
      requires Valid()
      reads this
    {
      OfferIn(writes, socket)
    }

    constructor ()
      ensures Valid() && forall t :: Owed(t) == []
    {
      writes := [];
    }

    /** The negation of `Socket_noPendingWrites`. */
    predicate Unfinished(socket: int)
      requires Valid()
      reads this
      ensures Unfinished(socket) <==> Owed(socket) != []
    {
      OwedNothing(writes, socket);
      Position(writes, socket) < |writes|
    }

    /** `Socket_putdatas`: refused while an earlier packet is unfinished; otherwise what the socket has taken
        and what is owed make up the packet. */
    method Putdatas(socket: int, sink: Sink, buf0: seq<byte>, buffers: seq<seq<byte>>) returns (rc: Result)
      requires Valid()
      modifies this, sink
      ensures Valid() && forall t :: t != socket ==> Owed(t) == old(Owed(t))
      ensures rc == Refused <==> old(Owed(socket)) != []
      ensures rc == Refused ==> Owed(socket) == old(Owed(socket)) && sink.accepted == old(sink.accepted)
      ensures rc != Refused ==> sink.accepted + Owed(socket) == old(sink.accepted) + (buf0 + Joined(buffers))
      ensures rc == Written <==> rc != Refused && Owed(socket) == []
      ensures rc == Refused ==> sink.grants == old(sink.grants)
      ensures rc != Refused ==>
        && |sink.accepted| == |old(sink.accepted)| + Granted(old(sink.grants), |buf0 + Joined(buffers)|)
        && sink.grants == Later(old(sink.grants))
    {
      ghost var was := writes;
      if Unfinished(socket) {
        return Refused;
      }
      assert Position(was, socket) == |was|;
      var total := TotalLength(buf0, buffers);
      var iovecs := [buf0] + buffers;
      JoinedFirst(buf0, buffers);
      var bytes := sink.Writev(iovecs);
      Split(old(sink.accepted), Joined(iovecs), bytes);
      if bytes == total {
        rc := Written;
      } else {
        PendingWrite(Pending(socket, total, bytes, iovecs));
        rc := Partial;
      }
    }

    /** `SocketBuffer_pendingWrite` */
    method PendingWrite(pw: Pending)
      requires Valid() && Sound(pw) && !Unfinished(pw.socket)
      modifies this
      ensures Valid() && Owed(pw.socket) == Joined(pw.iovecs)[pw.bytes..]
      ensures forall t :: t != pw.socket ==> Owed(t) == old(Owed(t))
    {
      ghost var was := writes;
      OwedAppend(was, pw, pw.socket);
      writes := writes + [pw];
      hide SoundList, OwedIn;
      forall t | t != pw.socket ensures OwedIn(writes, t) == OwedIn(was, t) { OwedAppend(was, pw, t); }
    }

    /** `Socket_continueWrite`, and the removal of a finished write. */
    method ContinueWrite(socket: int, sink: Sink) returns (done: bool)
      requires Valid() && Owed(socket) != []
      modifies this, sink
      ensures Valid() && forall t :: t != socket ==> Owed(t) == old(Owed(t))
      ensures sink.accepted + Owed(socket) == old(sink.accepted + Owed(socket))
      ensures done <==> Owed(socket) == []
      ensures 0 < old(Offer(socket)) <= |old(Owed(socket))| && sink.grants == Later(old(sink.grants))
      ensures |sink.accepted| == |old(sink.accepted)| + Granted(old(sink.grants), old(Offer(socket)))
      ensures !done && |sink.accepted| == |old(sink.accepted)| + old(Offer(socket)) ==>
        Offer(socket) == |Owed(socket)|
    {
      OwedNothing(writes, socket);
      OwedPart(writes, Position(writes, socket));
      OfferIs(writes, Position(writes, socket));
      hide Joined, OwedIn, Position, Sound, SoundList, OfferEnd, OfferIn;
      var i := Position(writes, socket);
      var pw := writes[i];
      var iovecs1 := Remaining(pw);
      var bytes := sink.Writev(iovecs1);
      done := Advance(i, bytes);
      Continued(old(sink.accepted), Joined(pw.iovecs), pw.bytes, Joined(iovecs1), bytes, sink.accepted, Owed(socket));
    }

    /** The bytes that the socket has taken are counted; a finished write is removed. */
    method Advance(i: nat, bytes: nat) returns (done: bool)
      requires Valid() && i < |writes| && writes[i].bytes + bytes <= |Joined(writes[i].iovecs)|
      modifies this
      ensures Valid() && forall t :: t != old(writes)[i].socket ==> Owed(t) == old(Owed(t))
      ensures var w := old(writes)[i];
        && Owed(w.socket) == Joined(w.iovecs)[w.bytes + bytes..] && (done <==> Owed(w.socket) == [])
        && (!done && w.bytes + bytes == OfferEnd(w) ==> Offer(w.socket) == |Owed(w.socket)|)
    {
      ghost var was := writes;
      OwedPart(writes, i);
      OfferEndsOnEdge(writes[i]);
      hide Joined, OwedIn, Position, SoundList, OfferEnd, OnEdge, OfferIn;
      var pw := writes[i].(bytes := writes[i].bytes + bytes);
      done := pw.bytes == pw.total;
      if done {
        writes := writes[..i] + writes[i + 1..];
        forall t ensures SoundList(writes) && OwedIn(writes, t) == if t == pw.socket then [] else OwedIn(was, t) {
          OwedRemove(was, i, t);
        }
      } else {
        writes := writes[i := pw];
        forall t ensures SoundList(writes)
          && OwedIn(writes, t) == if t == pw.socket then Joined(pw.iovecs)[pw.bytes..] else OwedIn(was, t)
        {
          OwedUpdate(was, i, pw, t);
        }
        OfferIs(writes, i);
      }
    }
  }

  lemma Split(a: seq<byte>, s: seq<byte>, k: nat)
    requires k <= |s|
    ensures (a + s[..k]) + s[k..] == a + s && (k == |s| ==> (a + s[..k]) + [] == a + s)
  {
  }

  lemma Continued(a: seq<byte>, s: seq<byte>, from: nat, part: seq<byte>, k: nat, accepted: seq<byte>, owed: seq<byte>)
    requires from + |part| <= |s| && k <= |part| && part == s[from..from + |part|]
    requires accepted == a + part[..k] && owed == s[from + k..]
    ensures accepted + owed == a + s[from..] && |accepted| == |a| + k
  {
    assert part[..k] == s[from..from + k];
    assert s[from..] == s[from..from + k] + s[from + k..];
  }

  // ---------------------------------------------------------------- every sequence of writes

  /** A packet handed to the socket, or the socket having become writable. */
  datatype Event = Send(buf0: seq<byte>, buffers: seq<seq<byte>>) | Writable

  function PacketOf(e: Event): seq<byte> {
    match e
    case Send(buf0, buffers) => buf0 + Joined(buffers)
    case Writable => []
  }

  function PacketsOf(events: seq<Event>): seq<seq<byte>> {
    if events == [] then []
    else
      var front, e := events[..|events| - 1], events[|events| - 1];
      if e.Send? then PacketsOf(front) + [PacketOf(e)] else PacketsOf(front)
  }

  /** The socket takes at least one byte each time, and is found writable as often as a packet has bytes before
      the next one is sent. */
  ghost predicate Patient(events: seq<Event>, grants: seq<nat>) {
    && |events| <= |grants| && (forall k :: 0 <= k < |grants| ==> grants[k] > 0)
    && forall i, j :: 0 <= i < j < |events| && events[i].Send? && j <= i + |PacketOf(events[i])| ==> events[j].Writable?
  }

  /** Behind i events, the last packet was handed over at `last`, and at most so many of its bytes are owed as it
      has more than there have been events since. */
  ghost predicate InTime(events: seq<Event>, i: nat, last: int, owed: nat) {
    owed == 0 || (0 <= last < i <= |events| && events[last].Send? && owed + i - last - 1 < |PacketOf(events[last])|)
  }

  /** Whatever the socket takes each time, the bytes it has accepted and those owed are the packets that were
      not refused, one after the other: packets never interleave, and none is left unfinished while a later
      one is on the wire.  Given time, no packet is refused. */
  method WriteMany(writer: Writer, socket: int, sink: Sink, events: seq<Event>) returns (taken: seq<seq<byte>>)
    requires writer.Valid() && writer.Owed(socket) == [] && sink.accepted == []
    modifies writer, sink
    ensures writer.Valid() && OnTheWire(taken, sink.accepted, writer.Owed(socket))
    ensures Patient(events, old(sink.grants)) ==> taken == PacketsOf(events)
  {
    taken := [];
    var i := 0;
    ghost var last, used, patient := -1, 0, Patient(events, sink.grants);
    while i < |events|
      invariant 0 <= i <= |events| && writer.Valid()
      invariant OnTheWire(taken, sink.accepted, writer.Owed(socket))
      invariant patient ==> used <= i && sink.grants == old(sink.grants)[used..]
      invariant patient ==> taken == PacketsOf(events[..i]) && InTime(events, i, last, |writer.Owed(socket)|)
    {
      ghost var before, owed := sink.accepted, writer.Owed(socket);
      assert events[..i + 1][..i] == events[..i];
      hide OnTheWire;
      match events[i] {
        case Send(buf0, buffers) =>
          var rc := writer.Putdatas(socket, sink, buf0, buffers);
          if rc != Refused {
            OneMorePacket(taken, before, buf0 + Joined(buffers), sink.accepted, writer.Owed(socket));
            taken := taken + [buf0 + Joined(buffers)];
            last, used := i, used + 1;
          }
        case Writable =>
          if writer.Unfinished(socket) {
            var done := writer.ContinueWrite(socket, sink);
            MoreOfIt(taken, before, owed, sink.accepted, writer.Owed(socket));
            used := used + 1;
          }
      }
      i := i + 1;
    }
    assert events[..i] == events;
  }

  /** The accepted bytes and those owed are the packets taken; all packets but the last are complete. */
  ghost predicate OnTheWire(taken: seq<seq<byte>>, accepted: seq<byte>, owed: seq<byte>) {
    && accepted + owed == Joined(taken)
    && if taken == [] then owed == [] else |owed| <= |taken[|taken| - 1]|
  }

  lemma OneMorePacket(taken: seq<seq<byte>>, accepted: seq<byte>, packet: seq<byte>, accepted': seq<byte>,
      owed': seq<byte>)
    requires OnTheWire(taken, accepted, []) && accepted' + owed' == accepted + packet && |accepted| <= |accepted'|
    ensures OnTheWire(taken + [packet], accepted', owed')
  {
    JoinedAppend(taken, packet);
    assert accepted + [] == accepted;
    assert |accepted'| + |owed'| == |accepted| + |packet|;
  }

  lemma MoreOfIt(taken: seq<seq<byte>>, accepted: seq<byte>, owed: seq<byte>, accepted': seq<byte>, owed': seq<byte>)
    requires OnTheWire(taken, accepted, owed) && owed != [] && accepted' + owed' == accepted + owed
        && |accepted| <= |accepted'|
    ensures OnTheWire(taken, accepted', owed')
  {
    assert |accepted'| + |owed'| == |accepted| + |owed|;
  }

  /** So what the socket has accepted are complete packets, followed by a beginning of the last one. */
  lemma NeverInterleaved(taken: seq<seq<byte>>, accepted: seq<byte>, owed: seq<byte>)
    requires OnTheWire(taken, accepted, owed) && taken != []
    ensures var last, done := taken[|taken| - 1], Joined(taken[..|taken| - 1]);
      |owed| <= |last| && accepted == done + last[..|last| - |owed|] && owed == last[|last| - |owed|..]
  {
    var last, done := taken[|taken| - 1], Joined(taken[..|taken| - 1]);
    assert accepted + owed == done + last;
    var n := |last| - |owed|;
    assert |accepted| == |done| + n;
    assert (done + last)[..|accepted|] == done + last[..n];
    assert (done + last)[|accepted|..] == last[n..];
    assert (accepted + owed)[..|accepted|] == accepted && (accepted + owed)[|accepted|..] == owed;
  }
}
