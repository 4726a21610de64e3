/** The bytes of a packet's fixed header as they come in one at a time. */
module ReadHeader {
  import opened Sequences
  import opened Bytes
  import opened MqttWire

  /** More bytes of the fixed header are needed. */
  predicate HeaderOpen(h: seq<byte>) {
    h == [] || DecodeLength(h[1..], 0).More?
  }

  predicate HeaderComplete(h: seq<byte>) {
    h != [] && DecodeLength(h[1..], 0).Length? && DecodeLength(h[1..], 0).size == |h| - 1
  }

  function BodyLength(h: seq<byte>): nat
    requires HeaderComplete(h)
  {
    DecodeLength(h[1..], 0).value
  }

  /** The sum that the decoding loop builds up. */
  function PartialValue(s: seq<byte>): nat {
    if s == [] then 0 else PartialValue(s[..|s| - 1]) + s[|s| - 1] % 128 * Power128(|s| - 1)
  }

  /** The same sum, read from the other end. */
  lemma {:induction false} PartialValueHead(b: byte, s: seq<byte>)
    ensures PartialValue([b] + s) == b % 128 + 128 * PartialValue(s)
    decreases |s|
  {
    var t := [b] + s;
    if s == [] {
      assert t[..0] == [] && Power128(0) == 1;
    } else {
      var s', c := s[..|s| - 1], s[|s| - 1];
      PartialValueHead(b, s');
      assert t[..|t| - 1] == [b] + s';
      Scale(c % 128, Power128(|s| - 1));
    }
  }

  lemma Scale(c: nat, m: nat)
    ensures c * (128 * m) == 128 * (c * m)
  {
  }

  /** What one more digit makes of an unfinished length. */
  function WithDigit(s: seq<byte>, c: byte, k: nat): Length {
    if c < 128 then Length(PartialValue(s + [c]), |s| + 1) else if k + |s| + 1 == 4 then Bad else More
  }

  lemma {:induction false} NextDigit(s: seq<byte>, c: byte, k: nat)
    requires k <= 4 && DecodeLength(s, k).More?
    ensures k + |s| < 4 && DecodeLength(s + [c], k) == WithDigit(s, c, k)
    decreases 4 - k
  {
    MoreTail(s, k);
    if s == [] {
      FirstDigit(c, k);
    } else {
      hide DecodeLength, WithDigit;
      NextDigit(s[1..], c, k + 1);
      DigitInFront(s[0], s[1..], c, k);
      HeadTail(s);
    }
  }

  lemma DigitInFront(b: byte, s: seq<byte>, c: byte, k: nat)
    requires k < 4 && b >= 128 && DecodeLength(s + [c], k + 1) == WithDigit(s, c, k + 1)
    ensures DecodeLength([b] + s + [c], k) == WithDigit([b] + s, c, k)
  {
    hide DecodeLength, PartialValue;
    DigitBefore(b, s + [c], k);
    Assoc([b], s, [c]);
  }

  lemma FirstDigit(c: byte, k: nat)
    requires k < 4
    ensures DecodeLength([] + [c], k) == WithDigit([], c, k)
  {
    assert [] + [c] == [c] && [c][1..] == [] && [c] == [c] + [];
    PartialValueHead(c, []);
  }

  /** A digit in front adds its seven bits below those of the rest. */
  lemma DigitBefore(b: byte, t: seq<byte>, k: nat)
    requires k < 4 && b >= 128
    ensures match DecodeLength(t, k + 1)
      case Length(v, n) => v == PartialValue(t) ==> DecodeLength([b] + t, k) == Length(PartialValue([b] + t), n + 1)
      case other => DecodeLength([b] + t, k) == other
  {
    DecodeDigit(b, t, k);
    PartialValueHead(b, t);
    hide DecodeLength, PartialValue;
  }

  lemma MoreTail(s: seq<byte>, k: nat)
    requires k <= 4 && DecodeLength(s, k).More?
    ensures k < 4 && (s != [] ==> s[0] >= 128 && DecodeLength(s[1..], k + 1).More?)
  {
  }

  /** The state of the header after one more byte. */
  lemma NextHeaderByte(h: seq<byte>, c: byte)
    requires HeaderOpen(h)
    ensures |h| <= 4
    ensures h == [] ==> HeaderOpen(h + [c])
    ensures h != [] ==> var d := DecodeLength((h + [c])[1..], 0);
      if c < 128 then d == Length(PartialValue((h + [c])[1..]), |h|) && HeaderComplete(h + [c])
      else if |h| == 4 then d.Bad? else HeaderOpen(h + [c])
  {
    if h != [] {
      assert (h + [c])[1..] == h[1..] + [c];
      NextDigit(h[1..], c, 0);
    } else {
      assert (h + [c])[1..] == [];
    }
  }

  /** One round of the decoding loop. */
  lemma OneMore(h: seq<byte>, c: byte)
    requires HeaderOpen(h) && h != []
    ensures PartialValue((h + [c])[1..]) == PartialValue(h[1..]) + c % 128 * Power128(|h| - 1)
    ensures |h| <= 4 && Power128(|h|) == 128 * Power128(|h| - 1)
    ensures c < 128 ==> HeaderComplete(h + [c]) && BodyLength(h + [c]) == PartialValue((h + [c])[1..])
    ensures c >= 128 ==> if |h| < 4 then HeaderOpen(h + [c]) else DecodeLength((h + [c])[1..], 0).Bad?
  {
    hide PartialValue, DecodeLength, Power128;
    NextHeaderByte(h, c);
    PartialValueNext(h, c);
    PowerNext(|h|);
  }

  lemma PowerNext(n: nat)
    requires n > 0
    ensures Power128(n) == 128 * Power128(n - 1)
  {
  }

  lemma PartialValueNext(h: seq<byte>, c: byte)
    requires h != []
    ensures PartialValue((h + [c])[1..]) == PartialValue(h[1..]) + c % 128 * Power128(|h| - 1)
  {
    var s := (h + [c])[1..];
    assert s[..|s| - 1] == h[1..] && s[|s| - 1] == c;
  }

  /** A complete header and that many bytes are exactly one packet. */
  lemma HeaderAndBody(h: seq<byte>, data: seq<byte>, rest: seq<byte>)
    requires HeaderComplete(h) && |data| == BodyLength(h)
    ensures NextFrame(h + data + rest) == Complete(Frame(h[0], data), rest)
  {
    var s := h + data + rest;
    assert s[1..] == h[1..] + (data + rest);
    LengthStable(h[1..], data + rest, 0);
    assert s[|h|..|h| + |data|] == data && s[|h| + |data|..] == rest;
  }

  lemma OpenHeaders(b: byte)
    ensures HeaderOpen([]) && [] + [b] == [b] && NextFrame([]).Incomplete?
  {
  }

  lemma OpenIsIncomplete(h: seq<byte>)
    requires HeaderOpen(h)
    ensures NextFrame(h).Incomplete?
  {
  }

  /** A complete header is not the beginning of a longer one. */
  lemma NoLongerHeader(h: seq<byte>, header: seq<byte>)
    requires HeaderComplete(h) && |h| <= |header| && header[..|h|] == h
    requires HeaderOpen(header) || HeaderComplete(header)
    ensures header == h
  {
    assert header[1..] == h[1..] + header[|h|..];
    LengthStable(h[1..], header[|h|..], 0);
  }

  lemma HeaderAndPart(h: seq<byte>, data: seq<byte>)
    requires HeaderComplete(h) && |data| < BodyLength(h)
    ensures NextFrame(h + data).Incomplete?
  {
    assert (h + data)[1..] == h[1..] + data;
    LengthStable(h[1..], data, 0);
  }

  lemma HeaderBad(h: seq<byte>, rest: seq<byte>)
    requires h != [] && DecodeLength(h[1..], 0).Bad?
    ensures NextFrame(h + rest).Malformed?
  {
    assert (h + rest)[1..] == h[1..] + rest;
    LengthStable(h[1..], rest, 0);
  }

  // ---------------------------------------------------------------- the decoding loop

  /** After `len` digits. */
  ghost predicate Decoding(h: seq<byte>, len: nat, value: int, multiplier: int, more: bool) {
    && len <= 4 && |h| == len + 1 && value == PartialValue(h[1..]) && multiplier == Power128(len)
    && if !more then HeaderComplete(h) && value == BodyLength(h)
       else if len < 4 then HeaderOpen(h)
       else DecodeLength(h[1..], 0).Bad?
  }

  lemma DecodingStarts(header: byte)
    ensures Decoding([header], 0, 0, 1, true)
  {
    assert [header][1..] == [];
  }

  lemma DecodingFacts(h: seq<byte>, len: nat, value: int, multiplier: int, more: bool)
    requires Decoding(h, len, value, multiplier, more)
    ensures |h| == len + 1 && value >= 0
    ensures !more ==> HeaderComplete(h) && value == BodyLength(h)
    ensures more && len < 4 ==> HeaderOpen(h)
    ensures more && len == 4 ==> DecodeLength(h[1..], 0).Bad?
  {
  }

  lemma DecodingStep(h: seq<byte>, len: nat, value: int, multiplier: int, c: byte)
    requires Decoding(h, len, value, multiplier, true) && len < 4
    ensures Decoding(h + [c], len + 1, value + c as int % 128 * multiplier, multiplier * 128, c >= 128)
    ensures value + c as int % 128 * multiplier >= 0
  {
    OneMore(h, c);
  }
}
