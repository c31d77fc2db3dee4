/** TAILQ: the doubly linked tail queue. A head's `next` is tqh_first and its
    `back` is tqh_last; an element's are tqe_next and tqe_prev. */
module TailQueue {
  import opened Links

  ghost predicate Tailq(cs: seq<Link>)
    reads cs
  {
    Forward(cs) && Backward(cs) && TailKnown(cs)
  }

  /** TAILQ_LAST: two `back` steps and one `next`. */
  function Last(head: Link, ghost cs: seq<Link>): (r: Link?)
    requires Tailq(cs) && cs[0] == head
    reads cs
    ensures r == if |cs| == 1 then null else cs[|cs| - 1]
  {
    assert cs[|cs| - 1].next == null;
    assert |cs| > 1 ==> cs[|cs| - 1].back == cs[|cs| - 2] && cs[|cs| - 2].next == cs[|cs| - 1];
    head.back.back.next
  }

  /** TAILQ_PREV: the same walk, started from an element. */
  function Prev(elm: Link, ghost cs: seq<Link>, ghost i: nat): (r: Link?)
    requires Tailq(cs) && 0 < i < |cs| && cs[i] == elm
    reads cs
    ensures r == if i == 1 then null else cs[i - 1]
  {
    assert cs[i - 1].next == elm && cs[|cs| - 1].next == null;
    assert i > 1 ==> cs[i - 1].back == cs[i - 2] && cs[i - 2].next == cs[i - 1];
    elm.back.back.next
  }

  method Init(head: Link)
    modifies head
    ensures Tailq([head])
  {
    head.next := null;
    head.back := head;
  }

  method InsertHead(head: Link, elm: Link, ghost cs: seq<Link>)
    requires Tailq(cs) && cs[0] == head && elm !in cs
    modifies head, elm, head.next
    ensures Tailq(InsertAt(cs, 1, elm))
  {
    elm.next := head.next;
    if elm.next != null {
      head.next.back := elm;
    } else {
      head.back := elm;
    }
    head.next := elm;
    elm.back := head;
  }

  method InsertTail(head: Link, elm: Link, ghost cs: seq<Link>)
    requires Tailq(cs) && cs[0] == head && elm !in cs
    modifies head, elm, head.back
    ensures Tailq(cs + [elm])
  {
    elm.next := null;
    elm.back := head.back;
    head.back.next := elm;
    head.back := elm;
  }

  method InsertAfter(head: Link, listelm: Link, elm: Link, ghost cs: seq<Link>, ghost i: nat)
    requires Tailq(cs) && cs[0] == head && elm !in cs
    requires 0 < i < |cs| && cs[i] == listelm
    modifies head, elm, listelm, listelm.next
    ensures Tailq(InsertAt(cs, i + 1, elm))
  {
    elm.next := listelm.next;
    if elm.next != null {
      elm.next.back := elm;
    } else {
      head.back := elm;
    }
    listelm.next := elm;
    elm.back := listelm;
  }

  method InsertBefore(listelm: Link, elm: Link, ghost cs: seq<Link>, ghost i: nat)
    requires Tailq(cs) && elm !in cs
    requires 0 < i < |cs| && cs[i] == listelm
    modifies elm, listelm, listelm.back
    ensures Tailq(InsertAt(cs, i, elm))
  {
    elm.back := listelm.back;
    elm.next := listelm;
    listelm.back.next := elm;
    listelm.back := elm;
  }

  method Remove(head: Link, elm: Link, ghost cs: seq<Link>, ghost i: nat)
    requires Tailq(cs) && cs[0] == head
    requires 0 < i < |cs| && cs[i] == elm
    modifies head, elm.next, elm.back
    ensures Tailq(RemoveAt(cs, i))
  {
    if elm.next != null {
      elm.next.back := elm.back;
    } else {
      head.back := elm.back;
    }
    elm.back.next := elm.next;
  }

  method Concat(head1: Link, head2: Link, ghost cs1: seq<Link>, ghost cs2: seq<Link>)
    requires Tailq(cs1) && cs1[0] == head1
    requires Tailq(cs2) && cs2[0] == head2
    requires Disjoint(cs1, cs2)
    modifies head1, head2, head1.back, head2.next
    ensures Tailq(cs1 + cs2[1..]) && Tailq([head2])
  {
    if head2.next != null {
      head1.back.next := head2.next;
      head2.next.back := head1.back;
      head1.back := head2.back;
      Init(head2);
    }
  }

  method Swap(head1: Link, head2: Link, ghost cs1: seq<Link>, ghost cs2: seq<Link>)
    requires Tailq(cs1) && cs1[0] == head1
    requires Tailq(cs2) && cs2[0] == head2
    requires Disjoint(cs1, cs2)
    modifies head1, head2, head1.next, head2.next
    ensures Tailq(cs2[0 := head1]) && Tailq(cs1[0 := head2])
  {
    var swapFirst := head1.next;
    var swapLast := head1.back;
    head1.next := head2.next;
    head1.back := head2.back;
    head2.next := swapFirst;
    head2.back := swapLast;
    swapFirst := head1.next;
    if swapFirst != null {
      swapFirst.back := head1;
    } else {
      head1.back := head1;
    }
    swapFirst := head2.next;
    if swapFirst != null {
      swapFirst.back := head2;
    } else {
      head2.back := head2;
    }
  }

  /** TAILQ_FOREACH. */
  method Foreach(head: Link, ghost cs: seq<Link>) returns (visited: seq<Link>)
    requires Tailq(cs) && cs[0] == head
    ensures visited == cs[1..]
  {
    visited := [];
    var v := head.next;
    while v != null
      invariant |visited| < |cs| && visited == cs[1..|visited| + 1]
      invariant v == if |visited| + 1 < |cs| then cs[|visited| + 1] else null
      decreases |cs| - |visited|
    {
      visited := visited + [v];
      v := v.next;
    }
  }

  /** TAILQ_FOREACH_REVERSE. */
  method ForeachReverse(head: Link, ghost cs: seq<Link>) returns (visited: seq<Link>)
    requires Tailq(cs) && cs[0] == head
    ensures visited == Reversed(cs[1..])
  {
    visited := [];
    var v := Last(head, cs);
    while v != null
      invariant |visited| < |cs|
      invariant visited == Reversed(cs[1..])[..|visited|]
      invariant v == if |visited| + 1 < |cs| then cs[|cs| - 1 - |visited|] else null
      decreases |cs| - |visited|
    {
      visited := visited + [v];
      v := Prev(v, cs, |cs| - |visited|);
    }
  }
}
