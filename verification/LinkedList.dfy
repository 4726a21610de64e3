/** The doubly linked list with a cached cursor of LinkedList.c.  `elems` is the abstract sequence every
    operation keeps the pointers consistent with. */
module LinkedList {
  import opened Sequences

  datatype Option<T> = None | Some(value: T)

  class ListElement<T> {
    var prev: ListElement?<T>
    var next: ListElement?<T>
    var content: T

    constructor (content: T)
      ensures this.content == content && prev == null && next == null
    {
      this.content, prev, next := content, null, null;
    }
  }

  ghost predicate Distinct<T>(s: seq<ListElement<T>>) {
    forall i, j :: 0 <= i < j < |s| ==> s[i] != s[j]
  }

  /** prev and next agree with the neighbours in the sequence; the ends point nowhere. */
  ghost predicate Linked<T>(s: seq<ListElement<T>>)
    reads s
  {
    && (forall i {:trigger s[i].prev} :: 0 <= i < |s| ==> s[i].prev == if i == 0 then null else s[i - 1])
    && (forall i {:trigger s[i].next} :: 0 <= i < |s| ==> s[i].next == if i == |s| - 1 then null else s[i + 1])
  }

  lemma DistinctAfterRemove<T>(s: seq<ListElement<T>>, k: nat)
    requires k < |s| && Distinct(s)
    ensures Distinct(RemoveAt(s, k)) && s[k] !in RemoveAt(s, k)
    ensures forall e :: e in RemoveAt(s, k) <==> e in s && e != s[k]
  {
    var r := RemoveAt(s, k);
    RemoveIndex(s, k);
    hide RemoveAt;
    forall e | e in s && e != s[k] ensures e in r {
      var i :| 0 <= i < |s| && s[i] == e;
      assert r[if i < k then i else i - 1] == e;
    }
  }

  ghost function ContentsOf<T>(s: seq<ListElement<T>>): (c: seq<T>)
    reads s
    ensures |c| == |s| && forall i :: 0 <= i < |s| ==> c[i] == s[i].content
  {
    seq(|s|, i requires 0 <= i < |s| reads s => s[i].content)
  }

  /** The pointers of `s` once the element at k has been unlinked from its neighbours. */
  lemma LinkedAfterRemove<T>(s: seq<ListElement<T>>, k: nat)
    requires k < |s| && Distinct(s)
    requires forall i {:trigger s[i].prev} :: 0 <= i < |s| && i != k ==>
      s[i].prev == if i == k + 1 then (if k == 0 then null else s[k - 1]) else if i == 0 then null else s[i - 1]
    requires forall i {:trigger s[i].next} :: 0 <= i < |s| && i != k ==>
      s[i].next == if i == k - 1 then (if k + 1 == |s| then null else s[k + 1])
                   else if i + 1 == |s| then null else s[i + 1]
    ensures Linked(RemoveAt(s, k))
  {
    var r := RemoveAt(s, k);
    RemoveIndex(s, k);
    hide RemoveAt;
    forall i | 0 <= i < |r|
      ensures r[i].prev == (if i == 0 then null else r[i - 1])
      ensures r[i].next == (if i == |r| - 1 then null else r[i + 1])
    {
      var i' := if i < k then i else i + 1;
      assert r[i] == s[i'];
    }
  }

  /** The pointers once `x` has been linked in in front of the element at k. */
  lemma LinkedAfterInsert<T>(s: seq<ListElement<T>>, k: nat, x: ListElement<T>)
    requires k < |s| && Distinct(s) && x !in s
    requires x.next == s[k] && x.prev == if k == 0 then null else s[k - 1]
    requires forall i {:trigger s[i].prev} :: 0 <= i < |s| ==>
      s[i].prev == if i == k then x else if i == 0 then null else s[i - 1]
    requires forall i {:trigger s[i].next} :: 0 <= i < |s| ==>
      s[i].next == if i == k - 1 then x else if i + 1 == |s| then null else s[i + 1]
    ensures Linked(InsertAt(s, k, x))
  {
    var r := InsertAt(s, k, x);
    InsertIndex(s, k, x);
    hide InsertAt;
    forall i | 0 <= i < |r|
      ensures r[i].prev == (if i == 0 then null else r[i - 1])
      ensures r[i].next == (if i == |r| - 1 then null else r[i + 1])
    {
      assert i != k ==> r[i] == s[if i < k then i else i - 1];
    }
  }

  /** The pointers once `x` has been linked in behind the last element. */
  lemma LinkedAfterAppend<T>(s: seq<ListElement<T>>, x: ListElement<T>)
    requires Distinct(s) && x !in s && x.next == null && x.prev == if s == [] then null else s[|s| - 1]
    requires forall i {:trigger s[i].prev} :: 0 <= i < |s| ==> s[i].prev == if i == 0 then null else s[i - 1]
    requires forall i {:trigger s[i].next} :: 0 <= i < |s| ==> s[i].next == if i == |s| - 1 then x else s[i + 1]
    ensures Linked(s + [x]) && Distinct(s + [x])
  {
    var r := s + [x];
    forall i | 0 <= i < |s| ensures r[i] == s[i] {}
  }

  lemma ContentsAfterAppend<T>(s: seq<ListElement<T>>, x: ListElement<T>)
    ensures ContentsOf(s + [x]) == ContentsOf(s) + [x.content]
  {
  }

  lemma EndsAfterInsert<T>(s: seq<T>, k: nat, x: T)
    requires k < |s|
    ensures var r := InsertAt(s, k, x); |r| == |s| + 1 && r[0] == (if k == 0 then x else s[0]) && r[|s|] == s[|s| - 1]
  {
  }

  lemma DistinctAfterInsert<T>(s: seq<ListElement<T>>, k: nat, x: ListElement<T>)
    requires k <= |s| && Distinct(s) && x !in s
    ensures Distinct(InsertAt(s, k, x))
  {
    var r := InsertAt(s, k, x);
    InsertIndex(s, k, x);
    hide InsertAt;
    forall i, j | 0 <= i < j < |r| ensures r[i] != r[j] {
      assert i != k ==> r[i] == s[if i < k then i else i - 1];
      assert j != k ==> r[j] == s[if j < k then j else j - 1];
    }
  }

  lemma InsertAtEnd<T>(s: seq<T>, r: seq<T>)
    requires |r| == |s| + 1 && r[..|s|] == s
    ensures r == InsertAt(s, |s|, r[|s|])
  {
  }

  /** The pointers once the ends have been joined and the ring cut in front of the element at k. */
  lemma LinkedAfterRotate<T>(s: seq<ListElement<T>>, k: nat)
    requires 0 < k < |s| && Distinct(s)
    requires forall i {:trigger s[i].prev} :: 0 <= i < |s| ==>
      s[i].prev == if i == k then null else if i == 0 then s[|s| - 1] else s[i - 1]
    requires forall i {:trigger s[i].next} :: 0 <= i < |s| ==>
      s[i].next == if i == k - 1 then null else if i + 1 == |s| then s[0] else s[i + 1]
    ensures Linked(RotateAt(s, k)) && Distinct(RotateAt(s, k))
  {
    var r := RotateAt(s, k);
    RotatedIndex(s, k);
    hide RotateAt;
    forall i | 0 <= i < |r|
      ensures r[i].prev == (if i == 0 then null else r[i - 1])
      ensures r[i].next == (if i == |r| - 1 then null else r[i + 1])
    {
      var i' := if i < |s| - k then i + k else i - (|s| - k);
      assert r[i] == s[i'];
    }
    forall i, j | 0 <= i < j < |r| ensures r[i] != r[j] {
      assert r[i] == s[if i < |s| - k then i + k else i - (|s| - k)];
      assert r[j] == s[if j < |s| - k then j + k else j - (|s| - k)];
    }
  }

  lemma ContentsAfterRemove<T>(s: seq<ListElement<T>>, k: nat)
    requires k < |s|
    ensures ContentsOf(RemoveAt(s, k)) == RemoveAt(ContentsOf(s), k)
  {
    RemoveIndex(s, k);
    RemoveIndex(ContentsOf(s), k);
    hide RemoveAt;
  }

  lemma ContentsAfterInsert<T>(s: seq<ListElement<T>>, k: nat, x: ListElement<T>)
    requires k <= |s|
    ensures ContentsOf(InsertAt(s, k, x)) == InsertAt(ContentsOf(s), k, x.content)
  {
    InsertIndex(s, k, x);
    InsertIndex(ContentsOf(s), k, x.content);
    hide InsertAt;
  }

  lemma ContentsAfterRotate<T>(s: seq<ListElement<T>>, k: nat)
    requires k <= |s|
    ensures ContentsOf(RotateAt(s, k)) == RotateAt(ContentsOf(s), k)
  {
    RotatedIndex(s, k);
    RotatedIndex(ContentsOf(s), k);
    hide RotateAt;
  }

  class List<T> {
    var first: ListElement?<T>
    var last: ListElement?<T>
    var current: ListElement?<T>
    var count: nat
    ghost var elems: seq<ListElement<T>>

    ghost predicate Valid()
      reads this, elems
    {
      && Distinct(elems) && Linked(elems)
      && first == (if elems == [] then null else elems[0])
      && last == (if elems == [] then null else elems[|elems| - 1])
      && count == |elems|
      && (current == null || current in elems)
    }

    ghost function Contents(): seq<T>
      reads this, elems
    {
      ContentsOf(elems)
    }

    ghost predicate AtMostOne(match_: T -> bool)
      reads this, elems
    {
      forall i, j :: 0 <= i < j < |elems| ==> !(match_(elems[i].content) && match_(elems[j].content))
    }

    constructor ()
      ensures Valid() && elems == [] && current == null
    {
      first, last, current, count, elems := null, null, null, 0, [];
    }

    method Append(content: T)
      requires Valid()
      modifies this, elems
      ensures Valid() && current == old(current)
      ensures |elems| == |old(elems)| + 1 && elems[..|old(elems)|] == old(elems) && fresh(elems[|old(elems)|])
      ensures Contents() == old(Contents()) + [content]
    {
      var newel := new ListElement(content);
      ghost var was, contents := elems, Contents();
      hide ContentsOf;
      newel.prev := last;
      if first == null {
        first := newel;
      } else {
        last.next := newel;
      }
      last := newel;
      count := count + 1;
      elems := was + [newel];
      assert ContentsOf(was) == contents;
      LinkedAfterAppend(was, newel);
      ContentsAfterAppend(was, newel);
    }

    /** Inserts in front of the element at position `at`; a null `index` appends. */
    method Insert(content: T, index: ListElement?<T>, ghost at: nat)
      requires Valid()
      requires at <= |elems| && index == if at == |elems| then null else elems[at]
      modifies this, elems
      ensures Valid() && current == old(current)
      ensures |elems| == |old(elems)| + 1 && fresh(elems[at]) && elems == InsertAt(old(elems), at, elems[at])
      ensures Contents() == InsertAt(old(Contents()), at, content)
    {
      hide ContentsOf, InsertAt, Distinct, Linked;
      if index == null {
        ghost var was, contents := elems, Contents();
        Append(content);
        InsertAtEnd(was, elems);
        InsertAtEnd(contents, Contents());
      } else {
        var newel := new ListElement(content);
        InsertIndex(elems, at, newel);
        Splice(newel, index, at);
      }
    }

    /** Links a fresh element in in front of an existing one. */
    method Splice(newel: ListElement<T>, index: ListElement<T>, ghost at: nat)
      requires Valid() && at < |elems| && index == elems[at] && newel !in elems
      modifies this, elems, newel
      ensures Valid() && current == old(current)
      ensures elems == InsertAt(old(elems), at, newel)
      ensures Contents() == InsertAt(old(Contents()), at, old(newel.content))
    {
      ghost var was, contents := elems, Contents();
      hide ContentsOf, InsertAt;
      newel.next := index;
      newel.prev := index.prev;
      index.prev := newel;
      if newel.prev != null {
        newel.prev.next := newel;
      } else {
        first := newel;
      }
      count := count + 1;
      elems := InsertAt(was, at, newel);
      assert ContentsOf(was) == contents;
      EndsAfterInsert(was, at, newel);
      InsertMembers(was, at, newel);
      LinkedAfterInsert(was, at, newel);
      DistinctAfterInsert(was, at, newel);
      ContentsAfterInsert(was, at, newel);
    }

    /** The element after `pos`, or the first one; null at the end. */
    method NextElement(pos: ListElement?<T>, ghost at: nat) returns (e: ListElement?<T>)
      requires Valid()
      requires pos == null || (at < |elems| && pos == elems[at])
      ensures e == (if pos == null then (if elems == [] then null else elems[0])
                    else if at == |elems| - 1 then null else elems[at + 1])
    {
      e := if pos == null then first else pos.next;
    }

    /** Cursor-first lookup.  It succeeds exactly when a search from the front would, and when at most one
        element matches the cursor makes no difference to the answer. */
    method FindItem(match_: T -> bool) returns (rc: ListElement?<T>)
      requires Valid()
      modifies this`current
      ensures Valid()
      ensures rc == null <==> forall k :: 0 <= k < |elems| ==> !match_(elems[k].content)
      ensures rc != null ==> rc in elems && match_(rc.content)
      ensures current == if rc == null then old(current) else rc
      ensures rc != null && old(current) != null && match_(old(current).content) ==> rc == old(current)
      ensures rc != null && !(old(current) != null && match_(old(current).content)) ==>
        exists k :: 0 <= k < |elems| && elems[k] == rc && forall j :: 0 <= j < k ==> !match_(elems[j].content)
      ensures rc != null && AtMostOne(match_) ==>
        forall k :: 0 <= k < |elems| && match_(elems[k].content) ==> elems[k] == rc
    {
      rc := null;
      if current != null && match_(current.content) {
        rc := current;
      } else {
        var cur := first;
        ghost var k := 0;
        while cur != null && !match_(cur.content)
          invariant 0 <= k <= |elems| && cur == if k == |elems| then null else elems[k]
          invariant forall j :: 0 <= j < k ==> !match_(elems[j].content)
          invariant unchanged(this)
          decreases |elems| - k
        {
          cur := cur.next;
          k := k + 1;
        }
        if cur != null {
          rc := cur;
          current := rc;
        }
      }
    }

    /** Removes the element the lookup finds.  A cursor on the removed element moves to its successor,
        any other cursor stays. */
    method Unlink(match_: T -> bool) returns (removed: bool, ghost k: nat)
      requires Valid()
      modifies this, elems
      ensures Valid()
      ensures removed <==> exists i :: 0 <= i < |old(Contents())| && match_(old(Contents())[i])
      ensures !removed ==> elems == old(elems) && Contents() == old(Contents()) && current == old(current)
      ensures removed ==>
        && k < |old(elems)| && match_(old(Contents())[k])
        && elems == RemoveAt(old(elems), k) && Contents() == RemoveAt(old(Contents()), k)
        && current == (if old(current) == old(elems)[k] then (if k + 1 == |old(elems)| then null else old(elems)[k + 1])
                       else old(current))
    {
      hide ContentsOf, RemoveAt;
      var saved := current;
      var found: ListElement?<T>;
      found, k := Search(match_);
      removed := found != null;
      if removed {
        ghost var was := elems;
        var next := found.next;
        DistinctAfterRemove(was, k);
        RemoveIndex(was, k);
        Detach(found, k);
        current := if saved == found then next else saved;
      }
    }

    /** The lookup together with the position of what it found. */
    method Search(match_: T -> bool) returns (found: ListElement?<T>, ghost k: nat)
      requires Valid()
      modifies this`current
      ensures Valid() && Contents() == old(Contents())
      ensures found == null ==> current == old(current) && forall i :: 0 <= i < |elems| ==> !match_(Contents()[i])
      ensures found != null ==> current == found && k < |elems| && elems[k] == found && match_(Contents()[k])
    {
      ghost var contents := Contents();
      found := FindItem(match_);
      assert Contents() == contents;
      k := 0;
      if found != null {
        k :| 0 <= k < |elems| && elems[k] == found;
      }
    }

    /** Takes one element out of the chain; the cursor is left to the caller. */
    method Detach(el: ListElement<T>, ghost k: nat)
      requires Valid() && k < |elems| && el == elems[k] && current == el
      modifies this, elems
      ensures elems == RemoveAt(old(elems), k) && Contents() == RemoveAt(old(Contents()), k)
      ensures Distinct(elems) && Linked(elems) && count == |elems|
      ensures first == (if elems == [] then null else elems[0])
      ensures last == (if elems == [] then null else elems[|elems| - 1])
    {
      ghost var was, contents := elems, Contents();
      hide ContentsOf, RemoveAt;
      if el.prev == null {
        first := el.next;
      } else {
        el.prev.next := el.next;
      }
      if el.next == null {
        last := el.prev;
      } else {
        el.next.prev := el.prev;
      }
      count := count - 1;
      elems := RemoveAt(was, k);
      assert ContentsOf(was) == contents;
      RemoveIndex(was, k);
      DistinctAfterRemove(was, k);
      LinkedAfterRemove(was, k);
      ContentsAfterRemove(was, k);
    }

    /** Takes the first element off; nothing when the list is empty. */
    method DetachHead() returns (content: Option<T>)
      requires Valid()
      modifies this, elems
      ensures Valid() && (content == None <==> old(elems) == [])
      ensures content == None ==> elems == old(elems) && current == old(current) && Contents() == old(Contents())
      ensures content != None ==>
        elems == RemoveAt(old(elems), 0) && content.value == old(Contents())[0]
            && Contents() == RemoveAt(old(Contents()), 0)
      ensures content != None ==>
        current == if old(current) == old(elems)[0] then (if |old(elems)| == 1 then null else old(elems)[1])
            else old(current)
    {
      content := None;
      if count > 0 {
        var head := TakeHead();
        content := Some(head);
      }
    }

    method TakeHead() returns (content: T)
      requires Valid() && elems != []
      modifies this, elems
      ensures Valid() && content == old(Contents())[0]
      ensures elems == RemoveAt(old(elems), 0) && Contents() == RemoveAt(old(Contents()), 0)
      ensures current == if old(current) == old(elems)[0] then (if |old(elems)| == 1 then null else old(elems)[1])
          else old(current)
    {
      ghost var was, contents := elems, Contents();
      hide ContentsOf, RemoveAt;
      var head := first;
      if current == head {
        current := head.next;
      }
      if last == head {
        last := null;
      }
      content := head.content;
      first := first.next;
      if first != null {
        first.prev := null;
      }
      count := count - 1;
      elems := RemoveAt(was, 0);
      assert ContentsOf(was) == contents;
      RemoveIndex(was, 0);
      DistinctAfterRemove(was, 0);
      LinkedAfterRemove(was, 0);
      ContentsAfterRemove(was, 0);
    }

    /** Takes the last element off; nothing when the list is empty. */
    method PopTail() returns (content: Option<T>)
      requires Valid()
      modifies this, elems
      ensures Valid() && (content == None <==> old(elems) == [])
      ensures content == None ==> elems == old(elems) && current == old(current) && Contents() == old(Contents())
      ensures content != None ==>
        var k := |old(elems)| - 1;
        elems == RemoveAt(old(elems), k) && content.value == old(Contents())[k]
            && Contents() == RemoveAt(old(Contents()), k)
      ensures content != None ==>
        var k := |old(elems)| - 1;
        current == if old(current) == old(elems)[k] then (if k == 0 then null else old(elems)[k - 1]) else old(current)
    {
      content := None;
      if count > 0 {
        var tail := TakeTail();
        content := Some(tail);
      }
    }

    method TakeTail() returns (content: T)
      requires Valid() && elems != []
      modifies this, elems
      ensures var k := |old(elems)| - 1;
        && Valid() && content == old(Contents())[k]
        && elems == RemoveAt(old(elems), k) && Contents() == RemoveAt(old(Contents()), k)
        && current == if old(current) == old(elems)[k] then (if k == 0 then null else old(elems)[k - 1])
            else old(current)
    {
      ghost var was, contents, k := elems, Contents(), |elems| - 1;
      hide ContentsOf, RemoveAt;
      var tail := last;
      if current == tail {
        current := tail.prev;
      }
      if first == tail {
        first := null;
      }
      content := tail.content;
      last := last.prev;
      if last != null {
        last.next := null;
      }
      count := count - 1;
      elems := RemoveAt(was, k);
      assert ContentsOf(was) == contents;
      RemoveIndex(was, k);
      DistinctAfterRemove(was, k);
      LinkedAfterRemove(was, k);
      ContentsAfterRemove(was, k);
    }

    /** Turns the list round so that the element at position k comes first. */
    method RotateTo(wrapel: ListElement<T>, ghost k: nat)
      requires Valid() && 0 < k < |elems| && wrapel == elems[k]
      modifies this, elems
      ensures Valid() && current == old(current)
      ensures elems == RotateAt(old(elems), k)
      ensures Contents() == RotateAt(old(Contents()), k)
    {
      ghost var was, contents := elems, Contents();
      hide ContentsOf, RotateAt;
      first.prev := last;
      last.next := first;
      first := wrapel;
      last := wrapel.prev;
      first.prev := null;
      last.next := null;
      elems := RotateAt(was, k);
      assert ContentsOf(was) == contents;
      RotatedIndex(was, k);
      RotatedMembers(was, k);
      LinkedAfterRotate(was, k);
      ContentsAfterRotate(was, k);
    }
  }

  lemma RotatedMembers<T>(s: seq<T>, k: nat)
    requires k <= |s|
    ensures forall x :: x in s ==> x in RotateAt(s, k)
  {
    assert s == s[..k] + s[k..];
  }
}
