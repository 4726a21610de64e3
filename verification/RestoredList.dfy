/** The two pointer operations of the restore code on the outbound list: insertion in id order and the
    rotation to the largest gap. */
module RestoredList {
  import opened Sequences
  import opened MqttTypes
  import Spec = ClientHandlers
  import opened LinkedList

  method InsertInOrder(list: List<Message>, msg: Message)
    requires list.Valid()
    modifies list, list.elems
    ensures list.Valid() && list.current == old(list.current)
    ensures list.Contents() == Spec.InsertInOrder(old(list.Contents()), msg)
  {
    ghost var contents := list.Contents();
    hide Spec.InsertInOrder, LinkedList.ContentsOf, InsertAt;
    var index, current := null, list.first;
    ghost var at := 0;
    SkipNone(contents, msg);
    while current != null && index == null
      invariant 0 <= at <= |list.elems| == |contents| && list.Valid() && list.Contents() == contents
      invariant index != null ==> at < |contents| && index == list.elems[at] && msg.msgid < contents[at].msgid
      invariant index == null ==> current == if at == |contents| then null else list.elems[at]
      invariant Spec.InsertInOrder(contents, msg) == contents[..at] + Spec.InsertInOrder(contents[at..], msg)
      invariant list.current == old(list.current) && list.elems == old(list.elems)
      decreases |contents| - at, index == null
    {
      if msg.msgid < current.content.msgid {
        index := current;
      } else {
        Spec.InsertSkips(contents, at, msg);
        current := current.next;
        at := at + 1;
      }
    }
    Spec.InsertStops(contents[at..], msg);
    list.Insert(msg, index, at);
    InsertAtIs(contents, at, msg);
  }

  lemma SkipNone(l: seq<Message>, m: Message)
    ensures Spec.InsertInOrder(l, m) == l[..0] + Spec.InsertInOrder(l[0..], m)
  {
    assert l[0..] == l;
  }

  lemma InsertAtIs(l: seq<Message>, i: nat, m: Message)
    requires i <= |l|
    ensures InsertAt(l, i, m) == l[..i] + ([m] + l[i..])
  {
  }

  /** The walk that looks for the largest gap between neighbours, and the rotation that puts the element
      behind it first. */
  method WrapMsgId(list: List<Message>)
    requires list.Valid()
    modifies list, list.elems
    ensures list.Valid() && list.current == old(list.current)
    ensures list.Contents() == Spec.WrapMsgId(old(list.Contents()))
  {
    ghost var contents := list.Contents();
    ghost var ids := Spec.IdSeq(contents);
    hide LinkedList.ContentsOf;
    var wrapel: ListElement?<Message> := null;
    ghost var best := 0;
    if list.count > 0 {
      var gap := MAX_MSG_ID - list.last.content.msgid + list.first.content.msgid;
      assert gap == MAX_MSG_ID - ids[|ids| - 1] + ids[0];
      var current := list.first.next;
      ghost var at := 1;
      while current != null
        invariant 1 <= at <= |list.elems| == |contents| && best < at
        invariant current == if at == |contents| then null else list.elems[at]
        invariant wrapel == if best == 0 then null else list.elems[best]
        invariant Spec.WrapPoint(ids) == Spec.LargestGap(ids, at, gap, best)
        invariant list.Valid() && list.Contents() == contents
        invariant list.current == old(list.current) && list.elems == old(list.elems)
        decreases |contents| - at
      {
        var curgap := current.content.msgid - current.prev.content.msgid;
        assert curgap == ids[at] - ids[at - 1];
        if curgap > gap {
          gap := curgap;
          wrapel := current;
          best := at;
        }
        current := current.next;
        at := at + 1;
      }
    }
    assert best == Spec.WrapPoint(ids);
    if wrapel != null {
      list.RotateTo(wrapel, best);
      assert list.Contents() == RotateAt(contents, best);
    } else {
      assert RotateAt(contents, 0) == contents;
    }
  }
}
