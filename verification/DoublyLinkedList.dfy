/** LIST: the doubly linked list. A head's `next` is lh_first; an element's
    `next` and `back` are le_next and le_prev. */
module DoublyLinkedList {
  import opened Links

  ghost predicate List(cs: seq<Link>)
    reads cs
  {
    |cs| > 0 && Forward(cs) && Backward(cs)
  }

  /** LIST_PREV. */
  function Prev(elm: Link, head: Link, ghost cs: seq<Link>, ghost i: nat): (r: Link?)
    requires List(cs) && cs[0] == head && 0 < i < |cs| && cs[i] == elm
    reads cs
    ensures r == if i == 1 then null else cs[i - 1]
  {
    if elm.back == head then null else elm.back
  }

  /** LIST_PREV and LIST_NEXT undo each other, wherever both are defined. */
  lemma PrevNextInverse(head: Link, cs: seq<Link>, i: nat)
    requires List(cs) && cs[0] == head && 0 < i < |cs|
    ensures cs[i].next != null ==> i + 1 < |cs| && cs[i].next == cs[i + 1] && Prev(cs[i + 1], head, cs, i + 1) == cs[i]
    ensures var p := Prev(cs[i], head, cs, i); p != null ==> p.next == cs[i]
  {
  }

  method Init(head: Link)
    modifies head`next
    ensures List([head])
  {
    head.next := null;
  }

  method InsertHead(head: Link, elm: Link, ghost cs: seq<Link>)
    requires List(cs) && cs[0] == head && elm !in cs
    modifies head`next, elm, head.next
    ensures List(InsertAt(cs, 1, elm))
  {
    elm.next := head.next;
    if elm.next != null {
      head.next.back := elm;
    }
    head.next := elm;
    elm.back := head;
  }

  method InsertAfter(listelm: Link, elm: Link, ghost cs: seq<Link>, ghost i: nat)
    requires List(cs) && elm !in cs
    requires 0 < i < |cs| && cs[i] == listelm
    modifies listelm`next, elm, listelm.next
    ensures List(InsertAt(cs, i + 1, elm))
  {
    elm.next := listelm.next;
    if elm.next != null {
      listelm.next.back := elm;
    }
    listelm.next := elm;
    elm.back := listelm;
  }

  method InsertBefore(listelm: Link, elm: Link, ghost cs: seq<Link>, ghost i: nat)
    requires List(cs) && elm !in cs
    requires 0 < i < |cs| && cs[i] == listelm
    modifies listelm`back, elm, listelm.back`next
    ensures List(InsertAt(cs, i, elm))
  {
    elm.back := listelm.back;
    elm.next := listelm;
    listelm.back.next := elm;
    listelm.back := elm;
  }

  method Remove(elm: Link, ghost cs: seq<Link>, ghost i: nat)
    requires List(cs) && 0 < i < |cs| && cs[i] == elm
    modifies elm.next, elm.back`next
    ensures List(RemoveAt(cs, i))
  {
    if elm.next != null {
      elm.next.back := elm.back;
    }
    elm.back.next := elm.next;
  }

  method Swap(head1: Link, head2: Link, ghost cs1: seq<Link>, ghost cs2: seq<Link>)
    requires List(cs1) && cs1[0] == head1
    requires List(cs2) && cs2[0] == head2
    requires Disjoint(cs1, cs2)
    modifies head1`next, head2`next, head1.next, head2.next
    ensures List(cs2[0 := head1]) && List(cs1[0 := head2])
  {
    var swapTmp := head1.next;
    head1.next := head2.next;
    head2.next := swapTmp;
    swapTmp := head1.next;
    if swapTmp != null {
      swapTmp.back := head1;
    }
    swapTmp := head2.next;
    if swapTmp != null {
      swapTmp.back := head2;
    }
  }
}
