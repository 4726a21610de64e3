/** The ENVIRON decoder of telnet.c, which builds its NUL-terminated strings inside the buffer it reads. */
module EnvironBuffer {
  import opened Sequences
  import opened Bytes
  import opened Environ

  const NO_VALUE := -1

  /** One element of the `values` array: the strings are offsets into the buffer; a variable without a value
      points to a constant empty string. */
  datatype Record = Record(kind: byte, name: nat, value: int)

  /** The record describes the entry, all its bytes being in b. */
  ghost predicate Describes(b: seq<byte>, r: Record, e: Entry) {
    && r.kind == e.kind && Here(b, r.name, e.name + [0])
    && if r.value == NO_VALUE then e.value == [] else r.value >= 0 && Here(b, r.value, e.value + [0])
  }

  lemma DescribesMore(b: seq<byte>, b': seq<byte>, r: Record, e: Entry)
    requires |b| <= |b'| && b'[..|b|] == b && Describes(b, r, e)
    ensures Describes(b', r, e)
  {
    forall i | 0 <= i < |b| ensures b'[i] == b[i] { assert b'[i] == b'[..|b|][i]; }
  }

  /** The first pass over the buffer. */
  method CountEntries(a: array<byte>, size: nat) returns (count: nat)
    requires 1 <= size <= a.Length
    ensures count == Count(a[..size], 1)
  {
    ghost var s := a[..size];
    count := 0;
    var c := 1;
    while c < size
      invariant 1 <= c && Count(s, 1) == count + if c < size then Count(s, c) else 0
      decreases size - c
    {
      if StartsEntry(a[c]) {
        count := count + 1;
      } else if a[c] == ESC {
        c := c + 1;
      }
      c := c + 1;
    }
  }

  /** Copies one string back, unescaped, with a NUL behind it: the write cursor stays behind the read cursor
      and nothing below the start of the string, or not yet read, changes. */
  method CopyBack(a: array<byte>, size: nat, c0: nat, out0: nat, inValue: bool, ghost s: seq<byte>)
      returns (c: nat, out: nat)
    requires out0 + 2 <= c0 <= size <= a.Length && |s| == size && s[size - 1] != ESC
    requires forall i :: c0 <= i < size ==> a[i] == s[i]
    modifies a
    ensures c == Scan(s, c0, inValue).1 && out == out0 + |Scan(s, c0, inValue).0| + 1 && out < c
    ensures Here(a[..], out0, Scan(s, c0, inValue).0 + [0])
    ensures forall i :: 0 <= i < a.Length && (i < out0 || i >= c) ==> a[i] == old(a[i])
  {
    ghost var was, done := a[..], [];
    MidStarts(was, s, c0, inValue, out0);
    hide Mid, Scan, Here, Ends;
    c, out, done := Unescape(a, size, c0, out0, inValue, was, s);
    MidEnds(a[..], was, s, c0, c, inValue, out0, done);
    Write(a, out, 0);
    out := out + 1;
  }

  /** The loop of the copying. */
  method Unescape(a: array<byte>, size: nat, c0: nat, out0: nat, inValue: bool, ghost was: seq<byte>,
      ghost s: seq<byte>)
    returns (c: nat, out: nat, ghost done: seq<byte>)
    requires size <= a.Length && |s| == size > 0 && s[size - 1] != ESC && Mid(a[..], was, s, c0, c0, inValue, out0, [])
    modifies a
    ensures Mid(a[..], was, s, c0, c, inValue, out0, done) && out == out0 + |done|
    ensures c <= size && (c == size || Ends(a[c], inValue))
  {
    c, out, done := c0, out0, [];
    MidFacts(a[..], was, s, c0, c, inValue, out0, done);
    hide Mid, Scan, Here, Ends;
    while c < size && !Ends(a[c], inValue)
      invariant c0 <= c <= size && out == out0 + |done| && out + 2 <= c
      invariant Mid(a[..], was, s, c0, c, inValue, out0, done)
      decreases size - c
    {
      MidStep(a[..], was, s, c0, c, inValue, out0, done);
      if a[c] == ESC {
        c := c + 1;
      }
      done := done + [s[c]];
      Write(a, out, a[c]);
      out := out + 1;
      c := c + 1;
    }
  }

  method Write(a: array<byte>, i: nat, b: byte)
    requires i < a.Length
    modifies a
    ensures a[..] == old(a[..])[i := b]
  {
    a[i] := b;
  }

  /** The buffer b, which was `was`, when the read cursor is at c. */
  ghost predicate Mid(b: seq<byte>, was: seq<byte>, s: seq<byte>, c0: nat, c: nat, inValue: bool, out0: nat,
      done: seq<byte>) {
    && c0 <= c <= |s| <= |b| == |was| && out0 + |done| + 2 <= c && Copied(s, c0, c, inValue, done)
    && (forall i :: c <= i < |s| ==> b[i] == s[i])
    && (forall i :: 0 <= i < |b| && (i < out0 || i >= c) ==> b[i] == was[i])
    && (forall i :: 0 <= i < |done| ==> b[out0 + i] == done[i])
  }

  lemma MidStarts(was: seq<byte>, s: seq<byte>, c0: nat, inValue: bool, out0: nat)
    requires out0 + 2 <= c0 <= |s| <= |was| && forall i :: c0 <= i < |s| ==> was[i] == s[i]
    ensures Mid(was, was, s, c0, c0, inValue, out0, [])
  {
    hide Scan;
    Assoc([], Scan(s, c0, inValue).0, []);
  }

  lemma MidFacts(b: seq<byte>, was: seq<byte>, s: seq<byte>, c0: nat, c: nat, inValue: bool, out0: nat, done: seq<byte>)
    requires Mid(b, was, s, c0, c, inValue, out0, done)
    ensures c0 <= c <= |s| && out0 + |done| + 2 <= c
  {
  }

  lemma MidStep(b: seq<byte>, was: seq<byte>, s: seq<byte>, c0: nat, c: nat, inValue: bool, out0: nat, done: seq<byte>)
    requires c < |s| <= |b| && s[|s| - 1] != ESC && !Ends(b[c], inValue) && Mid(b, was, s, c0, c, inValue, out0, done)
    ensures var k := if b[c] == ESC then c + 1 else c;
      k < |s| && b[k] == s[k] && out0 + |done| < |b|
          && Mid(b[out0 + |done| := s[k]], was, s, c0, k + 1, inValue, out0, done + [s[k]])
  {
    hide Scan, Ends, Copied;
    CopyStep(s, c0, c, inValue, done);
  }

  lemma MidEnds(b: seq<byte>, was: seq<byte>, s: seq<byte>, c0: nat, c: nat, inValue: bool, out0: nat, done: seq<byte>)
    requires Mid(b, was, s, c0, c, inValue, out0, done) && (c == |s| || Ends(b[c], inValue))
    ensures Scan(s, c0, inValue) == (done, c) && out0 + |done| + 2 <= c <= |b| == |was|
    ensures var b' := b[out0 + |done| := 0];
      && Here(b', out0, done + [0]) && forall i :: 0 <= i < |b| && (i < out0 || i >= c) ==> b'[i] == was[i]
  {
    hide Scan, Ends, Copied;
    CopyEnds(s, c0, c, inValue, done);
  }

  /** `done` is what has been unescaped between c0 and c. */
  ghost predicate Copied(s: seq<byte>, c0: nat, c: nat, inValue: bool, done: seq<byte>)
    requires c0 <= |s| && c <= |s|
  {
    Scan(s, c0, inValue).0 == done + Scan(s, c, inValue).0 && Scan(s, c0, inValue).1 == Scan(s, c, inValue).1
  }

  lemma CopyStep(s: seq<byte>, c0: nat, c: nat, inValue: bool, done: seq<byte>)
    requires c0 <= c < |s| && s[|s| - 1] != ESC && !Ends(s[c], inValue) && Copied(s, c0, c, inValue, done)
    ensures var k := if s[c] == ESC then c + 1 else c; k < |s| && Copied(s, c0, k + 1, inValue, done + [s[k]])
  {
    var k := if s[c] == ESC then c + 1 else c;
    ScanUnfolds(s, c, inValue, k);
    hide Scan;
    Assoc(done, [s[k]], Scan(s, k + 1, inValue).0);
  }

  lemma CopyEnds(s: seq<byte>, c0: nat, c: nat, inValue: bool, done: seq<byte>)
    requires c0 <= c <= |s| && (c == |s| || Ends(s[c], inValue)) && Copied(s, c0, c, inValue, done)
    ensures Scan(s, c0, inValue) == (done, c)
  {
    assert Scan(s, c, inValue) == ([], c);
    assert done + [] == done;
  }

  /** One round of the parsing loop. */
  method NextEntry(a: array<byte>, size: nat, c0: nat, out0: nat, ghost s: seq<byte>)
      returns (r: Record, c: nat, out: nat)
    requires out0 < c0 < size <= a.Length && |s| == size && s[size - 1] != ESC
    requires forall i :: c0 <= i < size ==> a[i] == s[i]
    modifies a
    ensures c == EntryAt(s, c0).1 && out0 <= out < c <= size
    ensures Describes(a[..out], r, EntryAt(s, c0).0)
    ensures forall i :: 0 <= i < a.Length && (i < out0 || i >= c) ==> a[i] == old(a[i])
  {
    hide Here, Scan, Ends;
    var kind := a[c0];
    c := c0 + 1;
    c, out := CopyBack(a, size, c, out0, false, s);
    r := Record(kind, out0, NO_VALUE);
    ghost var name := Scan(s, c0 + 1, false).0;
    HerePrefix(a[..], a[..out], out0, name + [0]);
    if c < size && a[c] == VALUE {
      c := c + 1;
      ghost var before := a[..out];
      r := r.(value := out);
      c, out := CopyBack(a, size, c, out, true, s);
      ghost var value := Scan(s, c0 + 1 + |name|, true);
      assert a[..|before|] == before;
      HereMore(before, a[..], out0, name + [0]);
      HerePrefix(a[..], a[..out], out0, name + [0]);
      HerePrefix(a[..], a[..out], r.value, Scan(s, Scan(s, c0 + 1, false).1 + 1, true).0 + [0]);
    }
  }

  lemma HerePrefix(s: seq<byte>, b: seq<byte>, i: nat, w: seq<byte>)
    requires Here(s, i, w) && i + |w| <= |b| <= |s| && b == s[..|b|]
    ensures Here(b, i, w)
  {
  }

  lemma HereMore(b: seq<byte>, s: seq<byte>, i: nat, w: seq<byte>)
    requires Here(b, i, w) && |b| <= |s| && b == s[..|b|]
    ensures Here(s, i, w)
  {
  }

  /** `_environ_telnet`: accepts exactly what the decoder on values accepts, and its records describe exactly
      the decoder's entries in the overwritten buffer. */
  method DecodeInPlace(a: array<byte>, size: nat) returns (ok: bool, cmd: byte, values: seq<Record>)
    requires size <= a.Length
    modifies a
    ensures ok <==> Decode(old(a[..size])).Decoded?
    ensures !ok ==> a[..] == old(a[..])
    ensures ok ==> var d := Decode(old(a[..size]));
      && cmd == d.cmd && |values| == |d.entries|
      && forall k :: 0 <= k < |values| ==> Describes(a[..size], values[k], d.entries[k])
  {
    ghost var s := a[..size];
    ok, cmd, values := false, 0, [];
    if size == 0 { return; }
    if a[0] != SEND && a[0] != IS && a[0] != INFO { return; }
    cmd := a[0];
    if size == 1 {
      ok := true;
      return;
    }
    if a[1] != VAR && a[1] != USERVAR { return; }
    if a[size - 1] == ESC { return; }
    var count := CountEntries(a, size);
    CountIsLength(s, 1);
    values := ParseEntries(a, size, count, s);
    ok := true;
  }

  /** The entries from number `index` on are those that start at c. */
  ghost predicate Rest(entries: seq<Entry>, index: nat, s: seq<byte>, c: nat) {
    index <= |entries| && c <= |s| && entries[index..] == Entries(s, c) && (c < |s| ==> StartsEntry(s[c]))
  }

  lemma RestStep(entries: seq<Entry>, index: nat, s: seq<byte>, c: nat)
    requires Rest(entries, index, s, c) && index < |entries|
    ensures c < |s| && entries[index] == EntryAt(s, c).0 && Rest(entries, index + 1, s, EntryAt(s, c).1)
  {
    NothingLeft(s);
    CountIsLength(s, c);
    EntriesUnfold(s, c);
    hide EntryAt, Entries, Count;
    assert entries[index] == entries[index..][0];
    assert entries[index + 1..] == entries[index..][1..];
  }

  /** The parsing loop. */
  method ParseEntries(a: array<byte>, size: nat, count: nat, ghost s: seq<byte>) returns (values: seq<Record>)
    requires 1 < size <= a.Length && s == a[..size] && s[size - 1] != ESC && StartsEntry(s[1])
    requires count == |Entries(s, 1)|
    modifies a
    ensures |values| == count && forall k :: 0 <= k < count ==> Describes(a[..size], values[k], Entries(s, 1)[k])
  {
    values := [];
    ghost var entries := Entries(s, 1);
    var out, c, index := 0, 1, 0;
    assert Rest(entries, 0, s, 1);
    assert AllDescribed(a[..out], values, entries);
    hide Describes, EntryAt, Entries, Count, Rest, AllDescribed;
    while index != count
      invariant index <= count == |entries| && |values| == index && out < c <= size
      invariant Rest(entries, index, s, c)
      invariant forall i :: c <= i < size ==> a[i] == s[i]
      invariant AllDescribed(a[..out], values, entries)
      decreases count - index
    {
      ghost var before := a[..out];
      RestStep(entries, index, s, c);
      var r;
      r, c, out := NextEntry(a, size, c, out, s);
      assert a[..out][..|before|] == before;
      NextDescribed(before, a[..out], values, entries, r);
      values := values + [r];
      index := index + 1;
    }
    assert a[..size][..out] == a[..out];
    StillDescribed(a[..out], a[..size], values, entries);
  }

  /** The records describe the first entries. */
  ghost predicate AllDescribed(b: seq<byte>, values: seq<Record>, entries: seq<Entry>) {
    |values| <= |entries| && forall k :: 0 <= k < |values| ==> Describes(b, values[k], entries[k])
  }

  lemma StillDescribed(b: seq<byte>, b': seq<byte>, values: seq<Record>, entries: seq<Entry>)
    requires |b| <= |b'| && b'[..|b|] == b && AllDescribed(b, values, entries)
    ensures AllDescribed(b', values, entries) && forall k :: 0 <= k < |values| ==> Describes(b', values[k], entries[k])
  {
    hide Describes;
    forall k | 0 <= k < |values| ensures Describes(b', values[k], entries[k]) {
      DescribesMore(b, b', values[k], entries[k]);
    }
  }

  lemma NextDescribed(b: seq<byte>, b': seq<byte>, values: seq<Record>, entries: seq<Entry>, r: Record)
    requires |b| <= |b'| && b'[..|b|] == b && AllDescribed(b, values, entries)
    requires |values| < |entries| && Describes(b', r, entries[|values|])
    ensures AllDescribed(b', values + [r], entries)
  {
    hide Describes;
    StillDescribed(b, b', values, entries);
  }
}
