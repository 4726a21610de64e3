/** The tree of Tree.c over whole sequences of additions and removals: it behaves as a map from keys to entries,
    listed in key order. */
module TreeRuns {
  import opened TreeShape
  import opened TreeNodes
  import opened TreeOrder
  import opened Tree

  datatype Op = Add(item: Item, size: int) | Remove(key: int)

  /** The map after one operation; an addition of a key that is present is not made. */
  function Step(m: map<int, Entry>, op: Op): map<int, Entry> {
    match op
    case Add(item, size) => if item.key in m then m else m[item.key := Entry(item, size)]
    case Remove(key) => m - {key}
  }

  function Steps(ops: seq<Op>): map<int, Entry> {
    if ops == [] then map[] else Step(Steps(ops[..|ops| - 1]), ops[|ops| - 1])
  }

  /** The entries of the map, in key order. */
  ghost predicate Lists(s: seq<Entry>, m: map<int, Entry>) {
    && Ordered(s)
    && (forall i :: 0 <= i < |s| ==> s[i].item.key in m && m[s[i].item.key] == s[i])
    && (forall k :: k in m ==> HasKey(s, k))
  }

  /** The list has as many entries as the map. */
  lemma {:induction false} ListsCount(s: seq<Entry>, m: map<int, Entry>)
    requires Lists(s, m)
    ensures |s| == |m|
    decreases |s|
  {
    if s == [] {
      forall k ensures k !in m { assert !HasKey(s, k); }
      assert m.Keys == {};
      assert |m.Keys| == 0;
      assert m == map[];
    } else {
      var front, e := s[..|s| - 1], s[|s| - 1];
      var m' := m - {e.item.key};
      RemoveLists(s, m, |s| - 1);
      assert s[..|s| - 1] + s[|s|..] == front;
      ListsCount(front, m');
      assert m'.Keys == m.Keys - {e.item.key};
      assert |m'.Keys| == |m.Keys| - 1;
    }
  }

  lemma AddLists(a: seq<Entry>, b: seq<Entry>, e: Entry, m: map<int, Entry>)
    requires Lists(a + b, m) && AllBelow(a, e.item.key) && AllAbove(b, e.item.key)
    ensures Lists(a + [e] + b, m[e.item.key := e])
  {
    var s, s', m' := a + b, a + [e] + b, m[e.item.key := e];
    OrderedHalves(a, b);
    OrderedParts(a, e, b);
    forall i | 0 <= i < |s'| ensures s'[i].item.key in m' && m'[s'[i].item.key] == s'[i] {
      if i < |a| { assert s'[i] == s[i]; } else if i > |a| { assert s'[i] == s[i - 1] == b[i - 1 - |a|]; }
    }
    forall k | k in m' ensures HasKey(s', k) { KeyStays(a, b, e, k); }
  }

  lemma KeyStays(a: seq<Entry>, b: seq<Entry>, e: Entry, k: int)
    requires k == e.item.key || HasKey(a + b, k)
    ensures HasKey(a + [e] + b, k)
  {
    var s, s' := a + b, a + [e] + b;
    if k == e.item.key {
      assert s'[|a|] == e;
    } else {
      var i :| 0 <= i < |s| && s[i].item.key == k;
      assert s'[if i < |a| then i else i + 1] == s[i];
    }
  }

  lemma RemoveLists(s: seq<Entry>, m: map<int, Entry>, pos: nat)
    requires Lists(s, m) && pos < |s|
    ensures Lists(s[..pos] + s[pos + 1..], m - {s[pos].item.key})
  {
    var s', m' := s[..pos] + s[pos + 1..], m - {s[pos].item.key};
    forall i | 0 <= i < |s'| ensures s'[i] == s[if i < pos then i else i + 1] { }
    forall k | k in m' ensures HasKey(s', k) {
      assert HasKey(s, k);
      var i :| 0 <= i < |s| && s[i].item.key == k;
      assert s'[if i < pos then i else i - 1] == s[i];
    }
  }

  lemma KeyListed(s: seq<Entry>, m: map<int, Entry>, key: int)
    requires Lists(s, m)
    ensures HasKey(s, key) <==> key in m
  {
  }

  /** From the empty tree, with additions only of absent keys (as the callers in Heap.c make them): after every
      sequence of operations the tree is balanced and correctly linked, and holds exactly the map's entries. */
  method Replay(ops: seq<Op>) returns (tree: Tree)
    ensures fresh(tree) && tree.Valid() && Lists(tree.Contents(), Steps(ops)) && tree.count == |Steps(ops)|
  {
    tree := new Tree();
    var i := 0;
    assert ops[..0] == [];
    while i < |ops|
      invariant 0 <= i <= |ops| && fresh(tree) && fresh(tree.repr) && tree.Valid()
      invariant Lists(tree.Contents(), Steps(ops[..i]))
    {
      ghost var m, s := Steps(ops[..i]), tree.Contents();
      assert ops[..i + 1][..i] == ops[..i];
      One(tree, ops[i], m);
      i := i + 1;
    }
    assert ops[..i] == ops;
    ListsCount(tree.Contents(), Steps(ops));
  }

  method One(tree: Tree, op: Op, ghost m: map<int, Entry>)
    requires tree.Valid() && Lists(tree.Contents(), m)
    modifies tree, tree.repr
    ensures tree.Valid() && fresh(tree.repr - old(tree.repr)) && Lists(tree.Contents(), Step(m, op))
  {
    ghost var s := tree.Contents();
    hide Lists, HasKey, AllBelow, AllAbove;
    match op {
      case Add(item, size) =>
        KeyListed(s, m, item.key);
        var node;
        ghost var pos, visited;
        node, pos, visited := tree.Find(item.key);
        if node == null {
          var replaced;
          ghost var a, b;
          replaced, a, b := tree.Add(item, size);
          AddLists(a, b, Entry(item, size), m);
        }
      case Remove(key) =>
        KeyListed(s, m, key);
        var content;
        ghost var pos;
        content, pos := tree.RemoveKey(key);
        if content != Null {
          RemoveLists(s, m, pos);
        } else {
          assert m - {key} == m;
        }
    }
  }
}
