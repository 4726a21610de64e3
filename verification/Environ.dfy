/** ENVIRON subnegotiations (RFC 1572): a decoder on values, its inverse, and the decoder of telnet.c that
    writes the unescaped strings back into the buffer it is reading from. */
module Environ {
  import opened Sequences
  import opened Bytes

  const IS: byte := 0
  const SEND: byte := 1
  const INFO: byte := 2

  const VAR: byte := 0
  const VALUE: byte := 1
  const ESC: byte := 2
  const USERVAR: byte := 3

  datatype Entry = Entry(kind: byte, name: seq<byte>, value: seq<byte>)

  datatype Decoded = Refused | Decoded(cmd: byte, entries: seq<Entry>)

  predicate StartsEntry(b: byte) {
    b == VAR || b == USERVAR
  }

  /** Whether an unescaped byte ends the name, or the value. */
  predicate Ends(b: byte, inValue: bool) {
    StartsEntry(b) || (b == VALUE && !inValue)
  }

  /** The unescaped string that starts at position i, and the position where it ends. */
  function Scan(s: seq<byte>, i: nat, inValue: bool): (r: (seq<byte>, nat))
    requires i <= |s|
    ensures i + |r.0| <= r.1 <= |s|
    decreases |s| - i
  {
    if i == |s| || Ends(s[i], inValue) then ([], i)
    else
      var k := if s[i] == ESC then i + 1 else i;
      if k == |s| then ([], |s|)
      else var (w, j) := Scan(s, k + 1, inValue); ([s[k]] + w, j)
  }

  /** The entry that starts at position i, and the position where it ends. */
  function EntryAt(s: seq<byte>, i: nat): (r: (Entry, nat))
    requires i < |s|
    ensures i < r.1 <= |s|
  {
    var (name, j) := Scan(s, i + 1, false);
    if j < |s| && s[j] == VALUE then
      var (value, k) := Scan(s, j + 1, true);
      (Entry(s[i], name, value), k)
    else
      (Entry(s[i], name, []), j)
  }

  function Entries(s: seq<byte>, i: nat): seq<Entry>
    requires i <= |s|
    decreases |s| - i
  {
    if i == |s| then [] else [EntryAt(s, i).0] + Entries(s, EntryAt(s, i).1)
  }

  predicate Accepted(s: seq<byte>) {
    |s| > 0 && s[0] <= INFO && (|s| > 1 ==> StartsEntry(s[1]) && s[|s| - 1] != ESC)
  }

  function Decode(s: seq<byte>): Decoded {
    if Accepted(s) then Decoded(s[0], Entries(s, 1)) else Refused
  }

  // ---------------------------------------------------------------- the inverse

  function Escaped(b: byte): seq<byte> {
    if b <= USERVAR then [ESC, b] else [b]
  }

  function Escape(w: seq<byte>): seq<byte> {
    if w == [] then [] else Escaped(w[0]) + Escape(w[1..])
  }

  function EncodeEntry(e: Entry): seq<byte> {
    [e.kind] + Escape(e.name) + ValuePart(e.value)
  }

  function EncodeAll(es: seq<Entry>): seq<byte> {
    if es == [] then [] else EncodeEntry(es[0]) + EncodeAll(es[1..])
  }

  /** The string w stands in s from position i on. */
  ghost predicate Here(s: seq<byte>, i: nat, w: seq<byte>) {
    i + |w| <= |s| && forall k :: 0 <= k < |w| ==> s[i + k] == w[k]
  }

  lemma HereSplits(s: seq<byte>, i: nat, a: seq<byte>, b: seq<byte>)
    requires Here(s, i, a + b)
    ensures Here(s, i, a) && Here(s, i + |a|, b)
  {
    forall k | 0 <= k < |a| ensures s[i + k] == a[k] { assert (a + b)[k] == a[k]; }
    forall k | 0 <= k < |b| ensures s[i + |a| + k] == b[k] { assert (a + b)[|a| + k] == b[k]; }
  }

  lemma EscapedHere(s: seq<byte>, i: nat, b: byte)
    requires Here(s, i, Escaped(b))
    ensures if b <= USERVAR then i + 1 < |s| && s[i] == ESC && s[i + 1] == b else i < |s| && s[i] == b
  {
    assert s[i + 0] == Escaped(b)[0];
    if b <= USERVAR { assert s[i + 1] == Escaped(b)[1]; }
  }

  lemma {:induction false} ScanEscape(s: seq<byte>, i: nat, w: seq<byte>, inValue: bool)
    requires Here(s, i, Escape(w))
    requires i + |Escape(w)| == |s| || Ends(s[i + |Escape(w)|], inValue)
    ensures Scan(s, i, inValue) == (w, i + |Escape(w)|)
    decreases |w|
  {
    if w != [] {
      FirstHere(s, i, w);
      hide Here, Escape, Scan, Ends;
      var n := |Escaped(w[0])|;
      ScanEscape(s, i + n, w[1..], inValue);
      ScanUnfolds(s, i, inValue, i + n - 1);
      HeadTail(w);
    }
  }

  lemma FirstHere(s: seq<byte>, i: nat, w: seq<byte>)
    requires w != [] && Here(s, i, Escape(w))
    ensures var n := |Escaped(w[0])|;
      && Here(s, i + n, Escape(w[1..])) && |Escape(w)| == n + |Escape(w[1..])| && i + n <= |s|
      && s[i + n - 1] == w[0] && (n == 2 <==> s[i] == ESC) && (n == 1 ==> s[i] > USERVAR)
  {
    hide Here, Escape, Escaped;
    EscapeUnfolds(w);
    HereSplits(s, i, Escaped(w[0]), Escape(w[1..]));
    EscapedHere(s, i, w[0]);
  }

  lemma EscapeUnfolds(w: seq<byte>)
    requires w != []
    ensures Escape(w) == Escaped(w[0]) + Escape(w[1..]) && |Escaped(w[0])| == if w[0] <= USERVAR then 2 else 1
  {
  }

  lemma ScanUnfolds(s: seq<byte>, i: nat, inValue: bool, k: nat)
    requires i < |s| && !Ends(s[i], inValue) && k == (if s[i] == ESC then i + 1 else i) && k < |s|
    ensures Scan(s, i, inValue) == ([s[k]] + Scan(s, k + 1, inValue).0, Scan(s, k + 1, inValue).1)
  {
  }

  ghost predicate GoodKinds(es: seq<Entry>) {
    forall e :: e in es ==> StartsEntry(e.kind)
  }

  lemma OneHere(s: seq<byte>, i: nat, b: byte)
    requires Here(s, i, [b])
    ensures i < |s| && s[i] == b
  {
    assert s[i + 0] == [b][0];
  }

  function ValuePart(value: seq<byte>): seq<byte> {
    if value == [] then [] else [VALUE] + Escape(value)
  }

  lemma EntryEncoded(s: seq<byte>, i: nat, e: Entry)
    requires Here(s, i, EncodeEntry(e))
    requires i + |EncodeEntry(e)| == |s| || StartsEntry(s[i + |EncodeEntry(e)|])
    ensures i < |s| && EntryAt(s, i) == (e, i + |EncodeEntry(e)|)
  {
    var j := i + 1 + |Escape(e.name)|;
    hide Here, Escape, Scan, EncodeEntry;
    PartsHere(s, i, e);
    if e.value != [] {
      ScanEscape(s, j + 1, e.value, true);
    }
    ScanEscape(s, i + 1, e.name, false);
  }

  /** The parts of an encoded entry: its kind, its name, and the mark and the value if there is one. */
  lemma PartsHere(s: seq<byte>, i: nat, e: Entry)
    requires Here(s, i, EncodeEntry(e))
    ensures i < |s| && s[i] == e.kind && Here(s, i + 1, Escape(e.name))
    ensures var j := i + 1 + |Escape(e.name)|;
      && |EncodeEntry(e)| == 1 + |Escape(e.name)| + (if e.value == [] then 0 else 1 + |Escape(e.value)|)
      && (e.value != [] ==>
          j < |s| && s[j] == VALUE && !Ends(VALUE, true) && Ends(VALUE, false) && Here(s, j + 1, Escape(e.value)))
  {
    var name, rest := Escape(e.name), ValuePart(e.value);
    assert EncodeEntry(e) == [e.kind] + name + rest;
    hide Here, Escape, EncodeEntry;
    HereSplits(s, i, [e.kind] + name, rest);
    HereSplits(s, i, [e.kind], name);
    OneHere(s, i, e.kind);
    if e.value != [] {
      var j := i + 1 + |name|;
      HereSplits(s, j, [VALUE], Escape(e.value));
      OneHere(s, j, VALUE);
    }
  }

  lemma {:induction false} EntriesEncoded(s: seq<byte>, i: nat, es: seq<Entry>)
    requires Here(s, i, EncodeAll(es)) && i + |EncodeAll(es)| == |s| && GoodKinds(es)
    ensures Entries(s, i) == es
    decreases |es|
  {
    hide Here, EncodeEntry, EntryAt, EncodeAll, Entries, GoodKinds, StartsEntry;
    NothingLeft(s);
    if es != [] {
      AllHere(s, i, es);
      NextHere(s, i, es);
      var e, rest := es[0], es[1..];
      EntryEncoded(s, i, e);
      EntriesEncoded(s, i + |EncodeEntry(e)|, rest);
      EntriesUnfold(s, i);
      HeadTail(es);
    }
  }

  lemma NothingLeft(s: seq<byte>)
    ensures EncodeAll([]) == [] && Entries(s, |s|) == []
  {
  }

  lemma EntriesUnfold(s: seq<byte>, i: nat)
    requires i < |s|
    ensures Entries(s, i) == [EntryAt(s, i).0] + Entries(s, EntryAt(s, i).1)
  {
  }

  lemma NextHere(s: seq<byte>, i: nat, es: seq<Entry>)
    requires Here(s, i, EncodeAll(es)) && i + |EncodeAll(es)| == |s| && es != [] && GoodKinds(es)
    ensures GoodKinds(es[1..])
    ensures var j := i + |EncodeEntry(es[0])|;
      j + |EncodeAll(es[1..])| == |s| && (j == |s| || StartsEntry(s[j]))
  {
    hide Here, EncodeEntry, EncodeAll, StartsEntry;
    var rest := es[1..];
    AllHere(s, i, es);
    AllUnfolds(es);
    AllUnfolds([]);
    assert forall e :: e in rest ==> e in es;
    if rest != [] {
      AllHere(s, i + |EncodeEntry(es[0])|, rest);
      assert rest[0] in rest;
    }
  }

  lemma AllHere(s: seq<byte>, i: nat, es: seq<Entry>)
    requires Here(s, i, EncodeAll(es)) && es != []
    ensures Here(s, i, EncodeEntry(es[0])) && Here(s, i + |EncodeEntry(es[0])|, EncodeAll(es[1..]))
    ensures i < |s| && s[i] == es[0].kind
  {
    hide Here, EncodeEntry, EncodeAll;
    AllUnfolds(es);
    HereSplits(s, i, EncodeEntry(es[0]), EncodeAll(es[1..]));
    PartsHere(s, i, es[0]);
  }

  lemma AllUnfolds(es: seq<Entry>)
    ensures EncodeAll(es) == if es == [] then [] else EncodeEntry(es[0]) + EncodeAll(es[1..])
  {
  }

  /** The decoder inverts the escaping, except that it refuses a list whose last byte is an escaped ESC. */
  lemma DecodeEncoded(cmd: byte, es: seq<Entry>)
    requires cmd <= INFO && GoodKinds(es)
    ensures var s := [cmd] + EncodeAll(es);
      Decode(s) == (if es != [] && s[|s| - 1] == ESC then Refused else Decoded(cmd, es))
  {
    var s := [cmd] + EncodeAll(es);
    hide Here, EncodeAll, Entries, EncodeEntry, StartsEntry;
    AfterFirst(cmd, EncodeAll(es));
    AllUnfolds(es);
    if es != [] {
      AllHere(s, 1, es);
      assert es[0] in es;
    }
    EntriesEncoded(s, 1, es);
  }

  lemma AfterFirst(cmd: byte, w: seq<byte>)
    ensures var s := [cmd] + w; Here(s, 1, w) && s[0] == cmd && |s| == 1 + |w|
  {
  }

  // ---------------------------------------------------------------- the grammar

  /** The bytes from i to j spell w: 2 stands in front of a byte that is meant literally, 0 and 3 do not occur
      otherwise, and 1 only in a value. */
  ghost predicate Spells(s: seq<byte>, i: nat, j: nat, w: seq<byte>, inValue: bool)
    requires i <= j <= |s|
    decreases j - i
  {
    if i == j then w == []
    else if w == [] then false
    else if s[i] == 2 then i + 1 < j && w[0] == s[i + 1] && Spells(s, i + 2, j, w[1..], inValue)
    else (s[i] > 3 || (s[i] == 1 && inValue)) && w[0] == s[i] && Spells(s, i + 1, j, w[1..], inValue)
  }

  /** The bytes from i to j are one entry: 0 or 3, the name, and either nothing else, or 1 and the value. */
  ghost predicate SpellsEntry(s: seq<byte>, i: nat, j: nat, e: Entry) {
    && i < j <= |s| && s[i] == e.kind && (e.kind == 0 || e.kind == 3)
    && exists k: nat :: i < k <= j && NameAndValue(s, i, k, j, e)
  }

  ghost predicate NameAndValue(s: seq<byte>, i: nat, k: nat, j: nat, e: Entry)
    requires i < k <= j <= |s|
  {
    && Spells(s, i + 1, k, e.name, false)
    && if k == j then e.value == [] else s[k] == 1 && Spells(s, k + 1, j, e.value, true)
  }

  /** The bytes from i on are these entries, one after the other. */
  ghost predicate SpellsAll(s: seq<byte>, i: nat, es: seq<Entry>)
    requires i <= |s|
    decreases es
  {
    if es == [] then i == |s|
    else exists j: nat :: i < j <= |s| && SpellsEntry(s, i, j, es[0]) && SpellsAll(s, j, es[1..])
  }

  lemma {:induction false} ScanIsSpelled(s: seq<byte>, i: nat, inValue: bool)
    requires i <= |s| && (s == [] || s[|s| - 1] != ESC)
    ensures var (w, j) := Scan(s, i, inValue); Spells(s, i, j, w, inValue)
    decreases |s| - i
  {
    if i < |s| && !Ends(s[i], inValue) {
      var k := if s[i] == ESC then i + 1 else i;
      ScanIsSpelled(s, k + 1, inValue);
      ScanUnfolds(s, i, inValue, k);
      hide Scan;
      var (w, j) := Scan(s, k + 1, inValue);
      assert ([s[k]] + w)[1..] == w;
    }
  }

  lemma {:induction false} SpelledIsScan(s: seq<byte>, i: nat, j: nat, w: seq<byte>, inValue: bool)
    requires i <= j <= |s| && Spells(s, i, j, w, inValue) && (j == |s| || Ends(s[j], inValue))
    ensures Scan(s, i, inValue) == (w, j)
    decreases j - i
  {
    if i < j {
      var k := if s[i] == ESC then i + 1 else i;
      SpelledIsScan(s, k + 1, j, w[1..], inValue);
      ScanUnfolds(s, i, inValue, k);
      HeadTail(w);
    }
  }

  lemma EntryIsSpelled(s: seq<byte>, i: nat)
    requires i < |s| && s[|s| - 1] != ESC && StartsEntry(s[i])
    ensures var (e, j) := EntryAt(s, i); SpellsEntry(s, i, j, e) && (j == |s| || StartsEntry(s[j]))
  {
    var (name, k) := Scan(s, i + 1, false);
    hide Scan, Spells;
    ScanIsSpelled(s, i + 1, false);
    ScanStops(s, i + 1, false);
    var (e, j) := EntryAt(s, i);
    if k < |s| && s[k] == VALUE {
      ScanIsSpelled(s, k + 1, true);
      ScanStops(s, k + 1, true);
    }
    assert NameAndValue(s, i, k, j, e);
  }

  lemma SpelledIsEntry(s: seq<byte>, i: nat, j: nat, e: Entry)
    requires SpellsEntry(s, i, j, e) && (j == |s| || StartsEntry(s[j]))
    ensures i < |s| && EntryAt(s, i) == (e, j)
  {
    var k: nat :| i < k <= j && NameAndValue(s, i, k, j, e);
    hide Scan, Spells;
    SpelledIsScan(s, i + 1, k, e.name, false);
    if k < j { SpelledIsScan(s, k + 1, j, e.value, true); }
  }

  lemma {:induction false} EntriesAreSpelled(s: seq<byte>, i: nat)
    requires i <= |s| && (s == [] || s[|s| - 1] != ESC) && (i < |s| ==> StartsEntry(s[i]))
    ensures SpellsAll(s, i, Entries(s, i))
    decreases |s| - i
  {
    if i < |s| {
      var (e, j) := EntryAt(s, i);
      EntriesUnfold(s, i);
      EntryIsSpelled(s, i);
      hide EntryAt, SpellsEntry, Entries;
      EntriesAreSpelled(s, j);
      assert ([e] + Entries(s, j))[1..] == Entries(s, j);
    } else {
      NothingLeft(s);
    }
  }

  lemma {:induction false} SpelledIsEntries(s: seq<byte>, i: nat, es: seq<Entry>)
    requires i <= |s| && SpellsAll(s, i, es)
    ensures Entries(s, i) == es && (i < |s| ==> StartsEntry(s[i]))
    decreases es
  {
    if es != [] {
      var j: nat :| i < j <= |s| && SpellsEntry(s, i, j, es[0]) && SpellsAll(s, j, es[1..]);
      SpelledIsEntries(s, j, es[1..]);
      SpelledIsEntry(s, i, j, es[0]);
      EntriesUnfold(s, i);
      HeadTail(es);
    } else {
      NothingLeft(s);
    }
  }

  /** The decoder accepts exactly the lists that the grammar allows and gives the entries they spell, except that
      a list is refused whose last byte is an escaped ESC. */
  lemma DecodesTheGrammar(s: seq<byte>, cmd: byte, es: seq<Entry>)
    ensures Decode(s) == Decoded(cmd, es) <==>
      s != [] && s[0] == cmd && cmd <= 2 && SpellsAll(s, 1, es) && (|s| > 1 ==> s[|s| - 1] != 2)
  {
    hide Entries, SpellsAll;
    if s != [] && SpellsAll(s, 1, es) {
      SpelledIsEntries(s, 1, es);
    }
    if Accepted(s) {
      if |s| > 1 { EntriesAreSpelled(s, 1); } else { OnlyCommand(s); }
    }
  }

  lemma OnlyCommand(s: seq<byte>)
    requires |s| == 1
    ensures Entries(s, 1) == [] && SpellsAll(s, 1, [])
  {
  }

  // ---------------------------------------------------------------- counting first

  /** The first pass: entries that start at or after position i. */
  function Count(s: seq<byte>, i: nat): nat
    requires i <= |s|
    decreases |s| - i
  {
    if i == |s| then 0
    else if StartsEntry(s[i]) then 1 + Count(s, i + 1)
    else if s[i] == ESC && i + 1 < |s| then Count(s, i + 2)
    else Count(s, i + 1)
  }

  lemma {:induction false} CountAfterScan(s: seq<byte>, i: nat, inValue: bool)
    requires i <= |s|
    ensures Count(s, i) == Count(s, Scan(s, i, inValue).1)
    decreases |s| - i
  {
    if i < |s| && !Ends(s[i], inValue) {
      var k := if s[i] == ESC then i + 1 else i;
      if k < |s| { CountAfterScan(s, k + 1, inValue); }
    }
  }

  /** The number counted is the number of entries. */
  lemma {:induction false} CountIsLength(s: seq<byte>, i: nat)
    requires i <= |s| && (i < |s| ==> StartsEntry(s[i]))
    ensures Count(s, i) == |Entries(s, i)|
    ensures i < |s| ==> (EntryAt(s, i).1 < |s| ==> StartsEntry(s[EntryAt(s, i).1]))
    decreases |s| - i
  {
    if i < |s| {
      EntryCounts(s, i);
      EntriesUnfold(s, i);
      hide Count, Entries, EntryAt;
      CountIsLength(s, EntryAt(s, i).1);
    } else {
      NothingLeft(s);
    }
  }

  /** One entry is counted once, and the next one starts where it ends. */
  lemma EntryCounts(s: seq<byte>, i: nat)
    requires i < |s| && StartsEntry(s[i])
    ensures var k := EntryAt(s, i).1; Count(s, i) == 1 + Count(s, k) && (k < |s| ==> StartsEntry(s[k]))
  {
    var j := Scan(s, i + 1, false).1;
    assert Count(s, i) == 1 + Count(s, i + 1);
    ValueCounts(s, j);
    hide Count, Scan;
    CountAfterScan(s, i + 1, false);
    ScanStops(s, i + 1, false);
    if j < |s| && s[j] == VALUE {
      CountAfterScan(s, j + 1, true);
      ScanStops(s, j + 1, true);
    }
  }

  lemma ValueCounts(s: seq<byte>, j: nat)
    requires j <= |s|
    ensures j < |s| && s[j] == VALUE ==> Count(s, j) == Count(s, j + 1)
  {
  }

  lemma {:induction false} ScanStops(s: seq<byte>, i: nat, inValue: bool)
    requires i <= |s|
    ensures var j := Scan(s, i, inValue).1; j < |s| ==> Ends(s[j], inValue)
    decreases |s| - i
  {
    if i < |s| && !Ends(s[i], inValue) {
      var k := if s[i] == ESC then i + 1 else i;
      if k < |s| { ScanStops(s, k + 1, inValue); }
    }
  }
}
