/** Sequence operations and facts used by several modules. */
module Sequences {

  function RemoveAt<T>(s: seq<T>, k: nat): seq<T>
    requires k < |s|
  {
    s[..k] + s[k + 1..]
  }

  lemma RemoveIndex<T>(s: seq<T>, k: nat)
    requires k < |s|
    ensures |RemoveAt(s, k)| == |s| - 1
    ensures forall i :: 0 <= i < k ==> RemoveAt(s, k)[i] == s[i]
    ensures forall i :: k <= i < |s| - 1 ==> RemoveAt(s, k)[i] == s[i + 1]
  {
  }

  /** The sequence with an element put in at position k. */
  function InsertAt<T>(s: seq<T>, k: nat, x: T): seq<T>
    requires k <= |s|
  {
    s[..k] + [x] + s[k..]
  }

  lemma InsertIndex<T>(s: seq<T>, k: nat, x: T)
    requires k <= |s|
    ensures |InsertAt(s, k, x)| == |s| + 1 && InsertAt(s, k, x)[k] == x && RemoveAt(InsertAt(s, k, x), k) == s
    ensures forall i :: 0 <= i < k ==> InsertAt(s, k, x)[i] == s[i]
    ensures forall i :: k < i <= |s| ==> InsertAt(s, k, x)[i] == s[i - 1]
  {
  }

  lemma InsertMembers<T>(s: seq<T>, k: nat, x: T)
    requires k <= |s|
    ensures forall y :: y in InsertAt(s, k, x) <==> y in s || y == x
  {
    assert s == s[..k] + s[k..];
  }

  /** The sequence turned round so that position k comes first. */
  function RotateAt<T>(s: seq<T>, k: nat): seq<T>
    requires k <= |s|
  {
    s[k..] + s[..k]
  }

  lemma RotatedIndex<T>(s: seq<T>, k: nat)
    requires k <= |s|
    ensures |RotateAt(s, k)| == |s|
    ensures forall i :: 0 <= i < |s| - k ==> RotateAt(s, k)[i] == s[i + k]
    ensures forall i :: |s| - k <= i < |s| ==> RotateAt(s, k)[i] == s[i - (|s| - k)]
  {
  }

  // ---------------------------------------------------------------- a sequence of sequences end to end

  function Joined<T>(ss: seq<seq<T>>): seq<T> {
    if ss == [] then [] else Joined(ss[..|ss| - 1]) + ss[|ss| - 1]
  }

  lemma JoinedAppend<T>(ss: seq<seq<T>>, s: seq<T>)
    ensures Joined(ss + [s]) == Joined(ss) + s
  {
    assert (ss + [s])[..|ss|] == ss;
  }

  lemma JoinedOne<T>(s: seq<T>)
    ensures Joined([s]) == s
  {
    JoinedAppend([], s);
    assert [] + [s] == [s];
  }

  lemma {:induction false} JoinedConcat<T>(a: seq<seq<T>>, b: seq<seq<T>>)
    ensures Joined(a + b) == Joined(a) + Joined(b)
    decreases |b|
  {
    if b == [] {
      assert a + b == a;
      Whole(Joined(a));
    } else {
      var b', s := b[..|b| - 1], b[|b| - 1];
      JoinedConcat(a, b');
      JoinedAppend(a + b', s);
      JoinedAppend(b', s);
      assert (a + b') + [s] == a + b && b' + [s] == b;
      hide Joined;
      Assoc(Joined(a), Joined(b'), s);
    }
  }

  lemma JoinedFirst<T>(s: seq<T>, ss: seq<seq<T>>)
    ensures Joined([s] + ss) == s + Joined(ss)
  {
    JoinedConcat([s], ss);
    JoinedOne(s);
  }

  // ---------------------------------------------------------------- taking apart and putting together

  lemma Assoc<T>(a: seq<T>, b: seq<T>, c: seq<T>)
    ensures (a + b) + c == a + (b + c) && a + [] == a && [] + b == b
  {
  }

  lemma Assoc5<T>(a: seq<T>, b: seq<T>, c: seq<T>, d: seq<T>, e: seq<T>)
    ensures a + (b + c + d) + e == (a + b + c) + d + e
    ensures a + (b + c + d) + e == a + b + (c + d + e)
  {
  }

  lemma Whole<T>(s: seq<T>)
    ensures s + [] == s && s[0..] == s && s[..|s|] == s
  {
  }

  lemma HeadTail<T>(s: seq<T>)
    requires s != []
    ensures s == [s[0]] + s[1..]
  {
  }

  lemma TailIs<T>(s: seq<T>, i: nat)
    requires i < |s|
    ensures s[i..] == [s[i]] + s[i + 1..]
  {
  }

  lemma SliceOneMore<T>(s: seq<T>, i: nat)
    requires i < |s|
    ensures s[..i + 1] == s[..i] + [s[i]]
  {
  }
}
