/** One option in one direction: an endpoint that may perform it, with its state `us`, a peer with its state
    `him`, and the negotiations about it that are under way. */
module TelnetHalves {
  import opened Bytes
  import opened TelnetOptions

  /** `said` are the WILLs and WONTs of the performer, `orders` the DOs and DONTs of the peer, oldest first. */
  datatype Half = Half(us: Q, him: Q, said: seq<Command>, orders: seq<Command>)

  predicate Agrees(h: Half) {
    h.us == h.him && (h.us == No || h.us == Yes)
  }

  predicate Wants(q: Q) {
    q == WantYes || q == WantYesOp
  }

  predicate WantsNot(q: Q) {
    q == WantNo || q == WantNoOp
  }

  /** Two more messages when the opposite is queued. */
  function Queued(q: Q): int {
    if q == WantYesOp || q == WantNoOp then 2 else 0
  }

  predicate One(w: seq<Command>, c: Command) {
    |w| == 1 && w[0] == c
  }

  predicate Two(w: seq<Command>, c: Command, d: Command) {
    |w| == 2 && w[0] == c && w[1] == d
  }

  /** How many messages will be delivered, at most, until nothing is under way; -1 marks a combination that
      two negotiators never reach. */
  function Left(h: Half): (n: int)
    ensures n >= 0 && |h.said| == 0 && |h.orders| == 0 ==> Agrees(h)
    ensures n >= 0 ==> (n == 0 <==> |h.said| == 0 && |h.orders| == 0)
  {
    var us, him := h.us, h.him;
    if |h.said| == 0 && |h.orders| == 0 then if Agrees(h) then 0 else -1
    else if |h.said| == 0 && One(h.orders, Do) then
      if us == No && Wants(him) then 2 + Queued(him) else if Wants(us) && him == Yes then 1 + Queued(us) else -1
    else if |h.said| == 0 && One(h.orders, Dont) then
      if WantsNot(us) && him == No then 1 + Queued(us)
      else if Wants(us) && him == No then 1
      else if us == Yes && him == WantNo then 2 else -1
    else if |h.said| == 0 && Two(h.orders, Do, Dont) then if Wants(us) && him == WantNo then 3 else -1
    else if |h.said| == 0 && Two(h.orders, Dont, Do) then
      if (Wants(us) || WantsNot(us)) && Wants(him) then 3 + Queued(him) else -1
    else if One(h.said, Will) && |h.orders| == 0 then
      if Wants(us) && him == No then 2 + Queued(us) else if us == Yes && Wants(him) then 1 + Queued(him) else -1
    else if One(h.said, Wont) && |h.orders| == 0 then
      if us == No && (him == WantNo || Wants(him)) then 1
      else if WantsNot(us) && him == Yes then 2 + Queued(us) else -1
    else if One(h.said, Will) && One(h.orders, Do) then
      if Wants(us) && Wants(him) then 2 + if Queued(us) > 0 then 2 else Queued(him) else -1
    else if One(h.said, Wont) && One(h.orders, Dont) then if WantsNot(us) && him == WantNo then 2 + Queued(us) else -1
    else if Two(h.said, Will, Wont) && |h.orders| == 0 then if WantsNot(us) && Wants(him) then 3 + Queued(us) else -1
    else if Two(h.said, Wont, Will) && |h.orders| == 0 then
      if Wants(us) && (him == WantNo || Wants(him)) then 3 + Queued(us) else -1
    else -1
  }

  // ---------------------------------------------------------------- what can happen to it

  function PeerHears(h: Half, accepted: bool, opt: byte): Half
    requires |h.said| > 0
  {
    var r := HearPeer(h.him, h.said[0] == Will, accepted, opt);
    Half(h.us, r.q, h.said[1..], h.orders + r.sent)
  }

  function PerformerHears(h: Half, accepted: bool, opt: byte): Half
    requires |h.orders| > 0
  {
    var r := HearOrder(h.us, h.orders[0] == Do, accepted, opt);
    Half(r.q, h.him, h.said + r.sent, h.orders[1..])
  }

  function PerformerAsks(h: Half, enable: bool): Half {
    var (us, sent) := Ask(h.us, enable, Will, Wont);
    Half(us, h.him, h.said + sent, h.orders)
  }

  function PeerAsks(h: Half, enable: bool): Half {
    var (him, sent) := Ask(h.him, enable, Do, Dont);
    Half(h.us, him, h.said, h.orders + sent)
  }

  lemma PeerHearsSettles(h: Half, accepted: bool, opt: byte)
    requires Left(h) >= 0 && |h.said| > 0
    ensures 0 <= Left(PeerHears(h, accepted, opt)) < Left(h)
  {
  }

  lemma PerformerHearsSettles(h: Half, accepted: bool, opt: byte)
    requires Left(h) >= 0 && |h.orders| > 0
    ensures 0 <= Left(PerformerHears(h, accepted, opt)) < Left(h)
  {
  }

  lemma PerformerAsksKeeps(h: Half, enable: bool)
    requires Left(h) >= 0
    ensures 0 <= Left(PerformerAsks(h, enable)) <= Left(h) + 2
  {
    assert h.said + [] == h.said;
    var (us, sent) := Ask(h.us, enable, Will, Wont);
    if sent == [] { assert PerformerAsks(h, enable) == h.(us := us); }
  }

  /** The one request that leads out of the reachable combinations is a DO queued behind a pending DONT. */
  lemma PeerAsksKeeps(h: Half, enable: bool)
    requires Left(h) >= 0
    ensures Left(PeerAsks(h, enable)) >= 0 <==> !(enable && h.him == WantNo)
    ensures !(enable && h.him == WantNo) ==> Left(PeerAsks(h, enable)) <= Left(h) + 2
    ensures enable && h.him == WantNo ==> PeerAsks(h, enable) == h.(him := WantNoOp)
  {
    if enable && h.him == WantNo { QueuesBehind(h); } else { PeerAsksElse(h, enable); }
  }

  lemma QueuesBehind(h: Half)
    requires Left(h) >= 0 && h.him == WantNo
    ensures Left(PeerAsks(h, true)) < 0 && PeerAsks(h, true) == h.(him := WantNoOp)
  {
    assert h.orders + [] == h.orders;
    assert PeerAsks(h, true) == h.(him := WantNoOp);
  }

  lemma PeerAsksElse(h: Half, enable: bool)
    requires Left(h) >= 0 && !(enable && h.him == WantNo)
    ensures 0 <= Left(PeerAsks(h, enable)) <= Left(h) + 2
  {
    assert h.orders + [] == h.orders;
    var (him, sent) := Ask(h.him, enable, Do, Dont);
    if sent == [] { assert PeerAsks(h, enable) == h.(him := him); }
  }
}
