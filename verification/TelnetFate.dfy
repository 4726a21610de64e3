/** What becomes of one option in one direction once a table has forgotten it, or a DO has been queued behind a
    pending DONT: whether the two sides will agree when nothing is under way any more, and after how many
    deliveries that is. */
module TelnetFate {
  import opened Bytes
  import opened TelnetOptions
  import opened TelnetHalves

  predicate Opposed(q: Q) {
    q == WantYesOp || q == WantNoOp
  }

  function OneMore(q: Q): int {
    if Opposed(q) then 1 else 0
  }

  predicate Waits(q: Q) {
    Wants(q) || WantsNot(q)
  }

  /** Deliveries left in the further combinations that end in agreement, -1 for all others. */
  function Astray(h: Half): int {
    var us, him := h.us, h.him;
    if |h.said| == 0 && One(h.orders, Do) then
      if us == No && him == No then 4
      else if us == No && him == Yes then 3
      else if us == Yes && him == Yes then 1 else -1
    else if |h.said| == 0 && One(h.orders, Dont) then
      if us == No && him == No then 1 else if us == Yes && him == No then 2 else -1
    else if One(h.said, Will) && |h.orders| == 0 then
      if us == No && him == No then 4
      else if us == Yes && him == No then 3
      else if us == Yes && him == Yes then 1 else -1
    else if One(h.said, Wont) && |h.orders| == 0 then
      if us == No && him == No then 1
      else if us == No && him == Yes then 2
      else if us == Yes && him == Yes then 3 else -1
    else if |h.said| == 0 && Two(h.orders, Do, Do) then if Wants(us) && him == Yes then 2 + Queued(us) else -1
    else if |h.said| == 0 && Two(h.orders, Do, Dont) then
      if us == No && him == WantNo then 4 else if Waits(us) && him == No then (if us == WantNo then 2 else 3) else -1
    else if |h.said| == 0 && Two(h.orders, Dont, Do) then
      if us == No && Wants(him) then 3 + Queued(him) else if Waits(us) && him == No then 5 else -1
    else if One(h.said, Will) && One(h.orders, Do) then
      if (us == No && Wants(him)) || (Wants(us) && him == No) then 4 + OneMore(us) + OneMore(him) else -1
    else if One(h.said, Will) && One(h.orders, Dont) then if us == Yes && him == WantNo then 3 else -1
    else if Two(h.said, Will, Will) && |h.orders| == 0 then if us == Yes && Wants(him) then 2 + Queued(him) else -1
    else if Two(h.said, Will, Wont) && |h.orders| == 0 then
      if us == No && him == WantNo then 2
      else if us == No && Wants(him) then 3
      else if WantsNot(us) && him == No then 4 + OneMore(us) else -1
    else if One(h.said, Wont) && One(h.orders, Do) then if WantsNot(us) && him == Yes then 3 + OneMore(us) else -1
    else if One(h.said, Wont) && One(h.orders, Dont) then
      if us == No && him == WantNo then 2 else if WantsNot(us) && him == No then 2 + Queued(us) else -1
    else if Two(h.said, Wont, Will) && |h.orders| == 0 then
      if us == No && (him == WantNo || Wants(him)) then 5 else if Wants(us) && him == No then 3 + Queued(us) else -1
    else -1
  }

  /** Deliveries left in the combinations that end in disagreement, -1 for all others. */
  function Apart(h: Half): int {
    var us, him := h.us, h.him;
    if |h.said| == 0 && |h.orders| == 0 then
      if (Wants(us) && him == Yes) || (us == No && (him == WantYes || him == WantNo || him == Yes))
         || (him == No && (us == Yes || WantsNot(us))) then 0 else -1
    else if |h.said| == 0 && One(h.orders, Do) then if Wants(us) && him == No then 1 + Queued(us) else -1
    else if |h.said| == 0 && One(h.orders, Dont) then
      if us == No && him == WantNo then 1
      else if WantsNot(us) && him == WantYes then 1 + OneMore(us)
      else if us == Yes && him == WantNoOp then 2 else -1
    else if One(h.said, Will) && |h.orders| == 0 then
      if ((us == No || Wants(us)) && him == WantYes) || (us == No && him == WantYesOp) then 1 + Queued(him) else -1
    else if One(h.said, Wont) && |h.orders| == 0 then
      if (us == No && him == WantNoOp) || (WantsNot(us) && him == No) then 1 else -1
    else if |h.said| == 0 && Two(h.orders, Do, Dont) then if Wants(us) && him == WantNoOp then 3 else -1
    else if One(h.said, Wont) && One(h.orders, Dont) then
      if WantsNot(us) && him == WantNoOp then 2 + OneMore(us) else -1
    else if Two(h.said, Wont, Will) && |h.orders| == 0 then if Wants(us) && him == WantNoOp then 2 else -1
    else -1
  }

  predicate WillAgree(h: Half) {
    Left(h) >= 0 || Astray(h) >= 0
  }

  predicate WillDiffer(h: Half) {
    Apart(h) >= 0
  }

  /** Deliveries left, at most, in any combination that can be reached. */
  function Pending(h: Half): int {
    if Left(h) >= 0 then Left(h) else if Astray(h) >= 0 then Astray(h) else Apart(h)
  }

  lemma NeverBoth(h: Half)
    ensures !(WillAgree(h) && WillDiffer(h)) && (Pending(h) >= 0 <==> WillAgree(h) || WillDiffer(h))
  {
  }

  /** With nothing under way the fate has come true. */
  lemma AtTheEnd(h: Half)
    requires |h.said| == 0 && |h.orders| == 0
    ensures WillAgree(h) ==> Agrees(h) && Pending(h) == 0
    ensures WillDiffer(h) ==> !Agrees(h) && Pending(h) == 0
  {
  }

  lemma SomethingPending(h: Half)
    requires Pending(h) >= 0 && (|h.said| > 0 || |h.orders| > 0)
    ensures Pending(h) > 0
  {
  }

  // ---------------------------------------------------------------- deliveries

  lemma PeerHearsAstray(h: Half, accepted: bool, opt: byte)
    requires Astray(h) >= 0 && |h.said| > 0
    ensures var g := PeerHears(h, accepted, opt); WillAgree(g) && 0 <= Pending(g) < Astray(h)
  {
    var g := PeerHears(h, accepted, opt);
    hide Left, Astray, Apart, PeerHears;
    if h.said[0] == Will { PeerHearsWillAstray(h, accepted, opt); } else { PeerHearsWontAstray(h, accepted, opt); }
  }

  lemma PeerHearsWillAstray(h: Half, accepted: bool, opt: byte)
    requires Astray(h) >= 0 && |h.said| > 0 && h.said[0] == Will
    ensures var g := PeerHears(h, accepted, opt);
      if Left(g) >= 0 then Left(g) < Astray(h) else 0 <= Astray(g) < Astray(h)
  {
  }

  lemma PeerHearsWontAstray(h: Half, accepted: bool, opt: byte)
    requires Astray(h) >= 0 && |h.said| > 0 && h.said[0] != Will
    ensures var g := PeerHears(h, accepted, opt);
      if Left(g) >= 0 then Left(g) < Astray(h) else 0 <= Astray(g) < Astray(h)
  {
  }

  lemma PerformerHearsAstray(h: Half, accepted: bool, opt: byte)
    requires Astray(h) >= 0 && |h.orders| > 0
    ensures var g := PerformerHears(h, accepted, opt); WillAgree(g) && 0 <= Pending(g) < Astray(h)
  {
    var g := PerformerHears(h, accepted, opt);
    hide Left, Astray, Apart, PerformerHears;
    if h.orders[0] == Do {
      PerformerHearsDoAstray(h, accepted, opt);
    } else {
      PerformerHearsDontAstray(h, accepted, opt);
    }
  }

  lemma PerformerHearsDoAstray(h: Half, accepted: bool, opt: byte)
    requires Astray(h) >= 0 && |h.orders| > 0 && h.orders[0] == Do
    ensures var g := PerformerHears(h, accepted, opt);
      if Left(g) >= 0 then Left(g) < Astray(h) else 0 <= Astray(g) < Astray(h)
  {
  }

  lemma PerformerHearsDontAstray(h: Half, accepted: bool, opt: byte)
    requires Astray(h) >= 0 && |h.orders| > 0 && h.orders[0] != Do
    ensures var g := PerformerHears(h, accepted, opt);
      if Left(g) >= 0 then Left(g) < Astray(h) else 0 <= Astray(g) < Astray(h)
  {
  }

  lemma PeerHearsApart(h: Half, accepted: bool, opt: byte)
    requires Apart(h) >= 0 && |h.said| > 0
    ensures 0 <= Apart(PeerHears(h, accepted, opt)) < Apart(h)
  {
  }

  lemma PerformerHearsApart(h: Half, accepted: bool, opt: byte)
    requires Apart(h) >= 0 && |h.orders| > 0
    ensures 0 <= Apart(PerformerHears(h, accepted, opt)) < Apart(h)
  {
  }

  /** A delivery changes no fate and brings the end nearer. */
  lemma PeerHearsKeepsFate(h: Half, accepted: bool, opt: byte)
    requires Pending(h) >= 0 && |h.said| > 0
    ensures var g := PeerHears(h, accepted, opt);
      0 <= Pending(g) < Pending(h) && (WillAgree(h) <==> WillAgree(g)) && (WillDiffer(h) <==> WillDiffer(g))
  {
    var g := PeerHears(h, accepted, opt);
    NeverBoth(h);
    NeverBoth(g);
    hide Left, Astray, Apart, PeerHears;
    if Left(h) >= 0 {
      PeerHearsSettles(h, accepted, opt);
    } else if Astray(h) >= 0 {
      PeerHearsAstray(h, accepted, opt);
    } else {
      PeerHearsApart(h, accepted, opt);
    }
  }

  lemma PerformerHearsKeepsFate(h: Half, accepted: bool, opt: byte)
    requires Pending(h) >= 0 && |h.orders| > 0
    ensures var g := PerformerHears(h, accepted, opt);
      0 <= Pending(g) < Pending(h) && (WillAgree(h) <==> WillAgree(g)) && (WillDiffer(h) <==> WillDiffer(g))
  {
    var g := PerformerHears(h, accepted, opt);
    NeverBoth(h);
    NeverBoth(g);
    hide Left, Astray, Apart, PerformerHears;
    if Left(h) >= 0 {
      PerformerHearsSettles(h, accepted, opt);
    } else if Astray(h) >= 0 {
      PerformerHearsAstray(h, accepted, opt);
    } else {
      PerformerHearsApart(h, accepted, opt);
    }
  }

  // ---------------------------------------------------------------- what leads there

  /** A DO queued behind a pending DONT ends in disagreement: the DO that the WONT in WANTNO_OP should have
      triggered is never sent. */
  lemma QueuedDoDiffers(h: Half)
    requires Left(h) >= 0 && h.him == WantNo
    ensures WillDiffer(h.(him := WantNoOp))
  {
  }

  /** Forgetting the performer's state, or the peer's, ends in disagreement exactly when it was on. */
  lemma ForgetUs(h: Half)
    requires Left(h) >= 0
    ensures if h.us == Yes then WillDiffer(h.(us := No)) else WillAgree(h.(us := No))
  {
  }

  lemma ForgetHim(h: Half)
    requires Left(h) >= 0
    ensures if h.him == Yes then WillDiffer(h.(him := No)) else WillAgree(h.(him := No))
  {
  }

  /** An offer or a request is sent and forgotten at once: the answer is taken as the peer's own wish. */
  lemma ForgetOffer(h: Half)
    requires Left(h) >= 0 && h.us == No
    ensures WillAgree(h.(said := h.said + [Will]))
  {
  }

  lemma ForgetOrder(h: Half)
    requires Left(h) >= 0 && h.him == No
    ensures WillAgree(h.(orders := h.orders + [Do]))
  {
  }

  /** An acceptance is sent and forgotten at once: the peer takes the option for on. */
  lemma ForgetAcceptedOrder(h: Half)
    requires Left(h) >= 0 && h.us == No && |h.orders| > 0 && h.orders[0] == Do
    ensures WillDiffer(h.(said := h.said + [Will], orders := h.orders[1..]))
  {
  }

  lemma ForgetAcceptedOffer(h: Half)
    requires Left(h) >= 0 && h.him == No && |h.said| > 0 && h.said[0] == Will
    ensures WillDiffer(h.(said := h.said[1..], orders := h.orders + [Do]))
  {
  }

  /** The shortest case of a queued DO: an option in use is turned off and on again before the answer arrives;
      the performer ends up off, the peer waits for a WILL that nobody was asked to send. */
  lemma OffAndOnAgain(accepted: bool, opt: byte)
    ensures var h := PeerAsks(PeerAsks(Half(Yes, Yes, [], []), false), true);
      && Left(Half(Yes, Yes, [], [])) == 0 && h == Half(Yes, WantNoOp, [], [Dont])
      && PeerHears(PerformerHears(h, accepted, opt), accepted, opt) == Half(No, WantYes, [], [])
  {
    var h := PeerAsks(PeerAsks(Half(Yes, Yes, [], []), false), true);
    var g := PerformerHears(h, accepted, opt);
    assert g == Half(No, WantNoOp, [Wont], []);
    assert PeerHears(g, accepted, opt) == Half(No, WantYes, [], []);
  }
}
