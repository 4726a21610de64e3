/** Many sockets read in turn through one SocketBuffer. */
module SocketSchedule {
  import opened Sequences
  import opened Bytes
  import opened MqttWire
  import opened SocketReads

  /** The packets returned so far and those still in `unparsed` are the packets of the whole stream. */
  ghost predicate Accounted(stream: seq<byte>, log: seq<Frame>, unparsed: seq<byte>) {
    AllFrames(stream) == (log + AllFrames(unparsed).0, AllFrames(unparsed).1)
  }

  lemma TakeOne(stream: seq<byte>, log: seq<Frame>, unparsed: seq<byte>)
    requires Accounted(stream, log, unparsed) && NextFrame(unparsed).Complete?
    ensures Accounted(stream, log + [NextFrame(unparsed).frame], NextFrame(unparsed).rest)
  {
    hide AllFrames, NextFrame;
    FramesUnfold(unparsed);
    Assoc(log, [NextFrame(unparsed).frame], AllFrames(NextFrame(unparsed).rest).0);
  }

  lemma FramesUnfold(w: seq<byte>)
    requires NextFrame(w).Complete?
    ensures var rest := NextFrame(w).rest; AllFrames(w) == ([NextFrame(w).frame] + AllFrames(rest).0, AllFrames(rest).1)
  {
  }

  ghost predicate Prefix(log: seq<Frame>, all: seq<Frame>) {
    |log| <= |all| && all[..|log|] == log
  }

  lemma AccountedIsPrefix(stream: seq<byte>, log: seq<Frame>, unparsed: seq<byte>)
    requires Accounted(stream, log, unparsed)
    ensures Prefix(log, AllFrames(stream).0)
    ensures NextFrame(unparsed).Incomplete? ==> AllFrames(stream) == (log, unparsed)
  {
    if NextFrame(unparsed).Incomplete? {
      assert AllFrames(unparsed) == ([], unparsed);
      assert log + [] == log;
    }
  }

  ghost predicate Distinct(feeds: seq<Feed>) {
    forall j, k :: 0 <= j < k < |feeds| ==> feeds[j] != feeds[k]
  }

  /** How often the schedule names the socket. */
  function Visits(schedule: seq<nat>, k: nat): nat {
    if schedule == [] then 0
    else Visits(schedule[..|schedule| - 1], k) + if schedule[|schedule| - 1] == k then 1 else 0
  }

  lemma VisitsNext(schedule: seq<nat>, i: nat, k: nat)
    requires i < |schedule|
    ensures Visits(schedule[..i + 1], k) == Visits(schedule[..i], k) + if schedule[i] == k then 1 else 0
  {
    assert schedule[..i + 1][..i] == schedule[..i];
  }

  /** The schedule says which socket is read next; socket k + 1 reads from feeds[k].  Whatever the order, and
      however its input is split into short and blocked reads, each socket ends as `Kept` says: the packets
      returned for it are a prefix of the packets of its whole stream, and all of them once its input is used
      up.  A socket is given up on the first error.  And it ends as `Served` says: each call for an open socket has
      returned a packet or met a `recv` that got less than it asked for; and when its coming `recv`s get all they
      ask for, a schedule that names the socket as often as it has packets gets all of them. */
  method ReadMany(buffer: SocketBuffer, feeds: seq<Feed>, schedule: seq<nat>)
    returns (logs: seq<seq<Frame>>, open: seq<bool>)
    requires buffer.Resting() && Distinct(feeds) && forall i :: 0 <= i < |schedule| ==> schedule[i] < |feeds|
    requires forall k :: 0 <= k < |feeds| ==> !feeds[k].failed && buffer.Held(k + 1) == []
    modifies buffer, set k | 0 <= k < |feeds| :: feeds[k]
    ensures buffer.Resting() && |logs| == |open| == |feeds|
    ensures forall k :: 0 <= k < |feeds| ==>
      Kept(old(feeds[k].rest), logs[k], open[k], feeds[k].failed, buffer.Held(k + 1), feeds[k].rest)
    ensures forall k :: 0 <= k < |feeds| ==>
      Served(old(feeds[k].rest), logs[k], open[k], old(feeds[k].shorts), feeds[k].shorts, old(feeds[k].Coverage()),
             feeds[k].Coverage(), feeds[k].failed, Visits(schedule, k))
    ensures forall k :: 0 <= k < |feeds| && old(feeds[k].Coverage()) >= 6 * Visits(schedule, k)
                        && Visits(schedule, k) >= |AllFrames(old(feeds[k].rest)).0| ==>
      logs[k] == AllFrames(old(feeds[k].rest)).0
  {
    ghost var streams := seq(|feeds|, k requires 0 <= k < |feeds| => old(feeds[k].rest));
    ghost var starts := seq(|feeds|, k requires 0 <= k < |feeds| => old(feeds[k].shorts));
    ghost var covers := seq(|feeds|, k requires 0 <= k < |feeds| => old(feeds[k].Coverage()));
    logs := seq(|feeds|, _ => []);
    open := seq(|feeds|, _ => true);
    forall k | 0 <= k < |feeds| ensures Kept(streams[k], [], true, false, [], streams[k]) { KeptFirst(streams[k]); }
    hide Kept, Feed.Coverage, AllFrames;
    assert AllKept(buffer, feeds, streams, logs, open);
    var i := 0;
    assert AllServed(feeds, streams, logs, open, starts, covers, schedule[..i]);
    hide Visits, Served;
    while i < |schedule|
      invariant 0 <= i <= |schedule| && buffer.Resting() && AllKept(buffer, feeds, streams, logs, open)
      invariant AllServed(feeds, streams, logs, open, starts, covers, schedule[..i])
    {
      logs, open := ReadNext(buffer, feeds, schedule, i, logs, open, streams, starts, covers);
      i := i + 1;
    }
    assert schedule[..i] == schedule;
    CoveredGetAll(buffer, feeds, streams, logs, open, starts, covers, schedule);
  }

  lemma CoveredGetAll(buffer: SocketBuffer, feeds: seq<Feed>, streams: seq<seq<byte>>, logs: seq<seq<Frame>>,
      open: seq<bool>, starts: seq<nat>, covers: seq<nat>, done: seq<nat>)
    requires AllKept(buffer, feeds, streams, logs, open)
    requires AllServed(feeds, streams, logs, open, starts, covers, done)
    ensures forall k ::
      0 <= k < |feeds| && covers[k] >= 6 * Visits(done, k) && Visits(done, k) >= |AllFrames(streams[k]).0| ==>
        logs[k] == AllFrames(streams[k]).0
  {
    hide Kept, Served, Visits, AllFrames, Feed.Coverage, SocketBuffer.Held;
    forall k | 0 <= k < |feeds| && covers[k] >= 6 * Visits(done, k) && Visits(done, k) >= |AllFrames(streams[k]).0|
      ensures logs[k] == AllFrames(streams[k]).0
    {
      KeptFacts(streams[k], logs[k], open[k], feeds[k].failed, buffer.Held(k + 1), feeds[k].rest);
      ServedAll(streams[k], logs[k], open[k], starts[k], feeds[k].shorts, covers[k], feeds[k].Coverage(),
                feeds[k].failed, Visits(done, k));
    }
  }

  /** Every socket is as `Kept` says. */
  ghost predicate AllKept(buffer: SocketBuffer, feeds: seq<Feed>, streams: seq<seq<byte>>, logs: seq<seq<Frame>>,
      open: seq<bool>)
    reads buffer, set k | 0 <= k < |feeds| :: feeds[k]
  {
    && |streams| == |logs| == |open| == |feeds|
    && forall k :: 0 <= k < |feeds| ==>
         Kept(streams[k], logs[k], open[k], feeds[k].failed, buffer.Held(k + 1), feeds[k].rest)
  }

  /** Every socket has been served as often as the schedule so far names it. */
  ghost predicate AllServed(feeds: seq<Feed>, streams: seq<seq<byte>>, logs: seq<seq<Frame>>, open: seq<bool>,
      starts: seq<nat>, covers: seq<nat>, done: seq<nat>)
    reads set k | 0 <= k < |feeds| :: feeds[k]
  {
    && |streams| == |logs| == |open| == |starts| == |covers| == |feeds|
    && forall k :: 0 <= k < |feeds| ==>
         Served(streams[k], logs[k], open[k], starts[k], feeds[k].shorts, covers[k], feeds[k].Coverage(),
                feeds[k].failed, Visits(done, k))
  }

  /** While the socket is open each visit has returned a packet or met a short `recv`.  As long as there are six
      covered `recv`s a visit, each visit returns the next packet until there is none left. */
  ghost predicate Served(stream: seq<byte>, log: seq<Frame>, open: bool, start: nat, shorts: nat, cover: nat,
      coverage: nat, failed: bool, visits: nat)
  {
    && (open ==> |log| + shorts == start + visits)
    && (cover >= 6 * visits ==>
          !failed && coverage + 6 * visits >= cover
          && (log == AllFrames(stream).0 || (open && |log| >= visits)))
  }

  /** A socket visited at least as often as it has packets, all visits covered, has got all of them. */
  lemma ServedAll(stream: seq<byte>, log: seq<Frame>, open: bool, start: nat, shorts: nat, cover: nat, coverage: nat,
                  failed: bool, visits: nat)
    requires Served(stream, log, open, start, shorts, cover, coverage, failed, visits)
        && Prefix(log, AllFrames(stream).0)
    requires cover >= 6 * visits && visits >= |AllFrames(stream).0|
    ensures log == AllFrames(stream).0
  {
    hide AllFrames;
    Whole(AllFrames(stream).0);
  }

  /** One turn of the schedule: the other sockets stay as they are. */
  method ReadNext(buffer: SocketBuffer, feeds: seq<Feed>, schedule: seq<nat>, i: nat, logs: seq<seq<Frame>>,
      open: seq<bool>, ghost streams: seq<seq<byte>>, ghost starts: seq<nat>, ghost covers: seq<nat>)
    returns (logs': seq<seq<Frame>>, open': seq<bool>)
    requires buffer.Resting() && Distinct(feeds) && AllKept(buffer, feeds, streams, logs, open)
    requires i < |schedule| && schedule[i] < |feeds|
        && AllServed(feeds, streams, logs, open, starts, covers, schedule[..i])
    modifies buffer, feeds[schedule[i]]
    ensures buffer.Resting() && AllKept(buffer, feeds, streams, logs', open')
    ensures AllServed(feeds, streams, logs', open', starts, covers, schedule[..i + 1])
  {
    hide Kept, Served, Visits, SocketBuffer.Held, SocketBuffer.Resting, Feed.Coverage;
    var k := schedule[i];
    logs', open' := logs, open;
    ghost var shorts, coverage := feeds[k].shorts, feeds[k].Coverage();
    if open[k] {
      var log, still := ReadOne(buffer, feeds[k], k + 1, logs[k], streams[k]);
      logs', open' := logs[k := log], open[k := still];
    }
    forall j | 0 <= j < |feeds|
      ensures Kept(streams[j], logs'[j], open'[j], feeds[j].failed, buffer.Held(j + 1), feeds[j].rest)
    {
      if j != k { assert feeds[j] != feeds[k]; }
    }
    KeptFacts(streams[k], logs'[k], open'[k], feeds[k].failed, buffer.Held(k + 1), feeds[k].rest);
    ServedNext(streams[k], logs[k], open[k], starts[k], shorts, covers[k], coverage, old(feeds[k].failed),
               Visits(schedule[..i], k), logs'[k], open'[k], feeds[k].shorts, feeds[k].Coverage(), feeds[k].failed);
    forall j | 0 <= j < |feeds|
      ensures Served(streams[j], logs'[j], open'[j], starts[j], feeds[j].shorts, covers[j], feeds[j].Coverage(),
                     feeds[j].failed, Visits(schedule[..i + 1], j))
    {
      VisitsNext(schedule, i, j);
      if j != k { assert feeds[j] != feeds[k]; }
    }
  }

  /** What one call for an open socket achieves. */
  ghost predicate Achieves(stream: seq<byte>, log: seq<Frame>, shorts: nat, coverage: nat, log': seq<Frame>,
      open': bool,
                           shorts': nat, coverage': nat, failed': bool)
  {
    && (open' ==> |log'| + shorts' == |log| + shorts + 1)
    && coverage' + 6 >= coverage
    && (coverage >= 6 ==> !failed' && (log' == AllFrames(stream).0 || (open' && |log'| == |log| + 1)))
  }

  lemma ServedNext(stream: seq<byte>, log: seq<Frame>, open: bool, start: nat, shorts: nat, cover: nat, coverage: nat,
      failed: bool, visits: nat, log': seq<Frame>, open': bool, shorts': nat, coverage': nat, failed': bool)
    requires Served(stream, log, open, start, shorts, cover, coverage, failed, visits)
        && Prefix(log', AllFrames(stream).0)
    requires if open then Achieves(stream, log, shorts, coverage, log', open', shorts', coverage', failed')
             else log' == log && !open' && shorts' == shorts && coverage' == coverage && failed' == failed
    ensures Served(stream, log', open', start, shorts', cover, coverage', failed', visits + 1)
  {
    hide AllFrames;
  }

  /** One call for a socket that is still open. */
  method ReadOne(buffer: SocketBuffer, feed: Feed, socket: int, log: seq<Frame>, ghost stream: seq<byte>)
    returns (log': seq<Frame>, open: bool)
    requires buffer.Resting() && socket > 0 && Kept(stream, log, true, feed.failed, buffer.Held(socket), feed.rest)
    modifies buffer, feed
    ensures buffer.Resting() && Kept(stream, log', open, feed.failed, buffer.Held(socket), feed.rest)
    ensures Achieves(stream, log, old(feed.shorts), old(feed.Coverage()), log', open, feed.shorts, feed.Coverage(),
        feed.failed)
    ensures forall t :: t > 0 && t != socket ==> buffer.Held(t) == old(buffer.Held(t))
  {
    ghost var held, rest := buffer.Held(socket), feed.rest;
    log', open := log, true;
    KeptFacts(stream, log, true, feed.failed, held, rest);
    hide Kept, NextFrame, AllFrames, Prefix, Accounted, Broke, Feed.Coverage;
    var rc, packet := buffer.Factory(socket, feed);
    KeptNext(stream, log, held, rest, rc, packet, feed.failed, buffer.Held(socket), feed.rest);
    if rc == Done {
      log' := log + [packet];
    } else if rc == Error {
      buffer.Cleanup(socket);
      open := false;
    }
    KeptFacts(stream, log', open, feed.failed, buffer.Held(socket), feed.rest);
    BrokeIsAll(stream, log');
  }

  lemma BrokeIsAll(stream: seq<byte>, log: seq<Frame>)
    ensures Broke(stream, log) ==> log == AllFrames(stream).0
  {
  }

  /** The state of one socket between calls: its packets so far are a prefix of the packets of its stream;
      while it is open the held and unread bytes hold exactly the remaining ones, the held bytes none. */
  ghost predicate Kept(stream: seq<byte>, log: seq<Frame>, open: bool, failed: bool, held: seq<byte>, rest: seq<byte>) {
    && Prefix(log, AllFrames(stream).0)
    && if open then !failed && NextFrame(held).Incomplete? && Accounted(stream, log, held + rest)
       else failed || Broke(stream, log)
  }

  lemma KeptFirst(stream: seq<byte>)
    ensures Kept(stream, [], true, false, [], stream)
  {
    assert [] + stream == stream;
    assert [] + AllFrames(stream).0 == AllFrames(stream).0;
  }

  /** An open socket whose input is used up has returned all packets of its stream. */
  lemma KeptFacts(stream: seq<byte>, log: seq<Frame>, open: bool, failed: bool, held: seq<byte>, rest: seq<byte>)
    requires Kept(stream, log, open, failed, held, rest)
    ensures Prefix(log, AllFrames(stream).0)
    ensures open ==> !failed && Accounted(stream, log, held + rest)
    ensures open && rest == [] ==> AllFrames(stream) == (log, held)
    ensures !open ==> failed || Broke(stream, log)
  {
    if open && rest == [] {
      assert held + rest == held;
      AccountedIsPrefix(stream, log, held);
    }
  }

  /** One call for an open socket. */
  lemma KeptNext(stream: seq<byte>, log: seq<Frame>, held: seq<byte>, rest: seq<byte>, rc: Completion, packet: Frame,
                 failed: bool, held': seq<byte>, rest': seq<byte>)
    requires Kept(stream, log, true, false, held, rest)
    requires rc == Done ==> !failed && held' == [] && NextFrame(held + rest) == Complete(packet, rest')
    requires rc == Interrupted ==> !failed && NextFrame(held').Incomplete? && held' + rest' == held + rest
    requires rc == Error ==> failed || NextFrame(held + rest).Malformed?
    ensures rc == Done ==> Kept(stream, log + [packet], true, failed, held', rest')
    ensures rc == Interrupted ==> Kept(stream, log, true, failed, held', rest')
    ensures rc == Error ==> forall h :: Kept(stream, log, false, failed, h, rest')
  {
    if rc == Done {
      TakeOne(stream, log, held + rest);
      AccountedIsPrefix(stream, log + [packet], rest');
      assert [] + rest' == rest';
      assert NextFrame([]).Incomplete?;
    } else if rc == Error && !failed {
      assert AllFrames(held + rest) == ([], held + rest);
      assert log + [] == log;
    }
  }

  /** The stream goes wrong right behind these packets: the next remaining length is malformed. */
  ghost predicate Broke(stream: seq<byte>, log: seq<Frame>) {
    AllFrames(stream).0 == log && NextFrame(AllFrames(stream).1).Malformed?
  }
}
