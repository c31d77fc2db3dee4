/** STAILQ: the singly linked tail queue. A head's `next` is stqh_first and its
    `back` is stqh_last; an element uses `next` only. */
module SinglyLinkedTailQueue {
  import opened Links

  ghost predicate Stailq(cs: seq<Link>)
    reads cs
  {
    Forward(cs) && TailKnown(cs)
  }

  /** STAILQ_LAST. */
  function Last(head: Link, ghost cs: seq<Link>): (r: Link?)
    requires Stailq(cs) && cs[0] == head
    reads cs
    ensures r == if |cs| == 1 then null else cs[|cs| - 1]
  {
    assert head.next == if |cs| == 1 then null else cs[1];
    if head.next == null then null else head.back
  }

  method Init(head: Link)
    modifies head
    ensures Stailq([head])
  {
    head.next := null;
    head.back := head;
  }

  method InsertHead(head: Link, elm: Link, ghost cs: seq<Link>)
    requires Stailq(cs) && cs[0] == head && elm !in cs
    modifies head, elm`next
    ensures Stailq(InsertAt(cs, 1, elm))
  {
    elm.next := head.next;
    if elm.next == null {
      head.back := elm;
    }
    head.next := elm;
  }

  method InsertTail(head: Link, elm: Link, ghost cs: seq<Link>)
    requires Stailq(cs) && cs[0] == head && elm !in cs
    modifies head, elm`next, head.back`next
    ensures Stailq(cs + [elm])
  {
    elm.next := null;
    head.back.next := elm;
    head.back := elm;
  }

  method InsertAfter(head: Link, tqelm: Link, elm: Link, ghost cs: seq<Link>, ghost i: nat)
    requires Stailq(cs) && cs[0] == head && elm !in cs
    requires 0 < i < |cs| && cs[i] == tqelm
    modifies head`back, tqelm`next, elm`next
    ensures Stailq(InsertAt(cs, i + 1, elm))
  {
    elm.next := tqelm.next;
    if elm.next == null {
      head.back := elm;
    }
    tqelm.next := elm;
  }

  method RemoveHead(head: Link, ghost cs: seq<Link>)
    requires Stailq(cs) && |cs| > 1 && cs[0] == head
    modifies head
    ensures Stailq(RemoveAt(cs, 1))
  {
    assert cs[1].next == if 2 < |cs| then cs[2] else null;
    head.next := head.next.next;
    if head.next == null {
      head.back := head;
    }
  }

  method RemoveAfter(head: Link, elm: Link, ghost cs: seq<Link>, ghost i: nat)
    requires Stailq(cs) && cs[0] == head
    requires 0 < i < |cs| - 1 && cs[i] == elm
    modifies head`back, elm`next
    ensures Stailq(RemoveAt(cs, i + 1))
  {
    assert cs[i + 1].next == if i + 2 < |cs| then cs[i + 2] else null;
    elm.next := elm.next.next;
    if elm.next == null {
      head.back := elm;
    }
  }

  /** STAILQ_REMOVE: a walk from the front to the cell before `elm`. */
  method Remove(head: Link, elm: Link, ghost cs: seq<Link>, ghost i: nat)
    requires Stailq(cs) && cs[0] == head
    requires 0 < i < |cs| && cs[i] == elm
    modifies head, cs[i - 1]
    ensures Stailq(RemoveAt(cs, i))
  {
    if head.next == elm {
      RemoveHead(head, cs);
    } else {
      var curelm := head.next;
      ghost var k := 1;
      while curelm.next != elm
        invariant 0 < k < i && cs[k] == curelm
        decreases i - k
      {
        curelm := curelm.next;
        k := k + 1;
      }
      RemoveAfter(head, curelm, cs, k);
    }
  }

  method Concat(head1: Link, head2: Link, ghost cs1: seq<Link>, ghost cs2: seq<Link>)
    requires Stailq(cs1) && cs1[0] == head1
    requires Stailq(cs2) && cs2[0] == head2
    requires Disjoint(cs1, cs2)
    modifies head1, head2, head1.back`next
    ensures Stailq(cs1 + cs2[1..]) && Stailq([head2])
  {
    if head2.next != null {
      head1.back.next := head2.next;
      head1.back := head2.back;
      Init(head2);
    }
  }

  method Swap(head1: Link, head2: Link, ghost cs1: seq<Link>, ghost cs2: seq<Link>)
    requires Stailq(cs1) && cs1[0] == head1
    requires Stailq(cs2) && cs2[0] == head2
    requires Disjoint(cs1, cs2)
    modifies head1, head2
    ensures Stailq(cs2[0 := head1]) && Stailq(cs1[0 := head2])
  {
    var swapFirst := head1.next;
    var swapLast := head1.back;
    head1.next := head2.next;
    head1.back := head2.back;
    head2.next := swapFirst;
    head2.back := swapLast;
    if head1.next == null {
      head1.back := head1;
    }
    if head2.next == null {
      head2.back := head2;
    }
  }
}
