/** SLIST: the singly linked list. Only `next` is used. */
module SinglyLinkedList {
  import opened Links

  method Init(head: Link)
    modifies head`next
    ensures Forward([head])
  {
    head.next := null;
  }

  method InsertHead(head: Link, elm: Link, ghost cs: seq<Link>, ghost dead: set<Link>)
    requires Forward(cs) && |cs| > 0 && cs[0] == head && elm !in cs && Live(cs + [elm], dead)
    modifies head`next, elm`next
    ensures Forward(InsertAt(cs, 1, elm))
  {
    assert (cs + [elm])[0] == head && (cs + [elm])[|cs|] == elm;
    var first := Load(head, dead);
    Store(elm, first, dead);
    Store(head, elm, dead);
  }

  method InsertAfter(slistelm: Link, elm: Link, ghost cs: seq<Link>, ghost i: nat)
    requires Forward(cs) && elm !in cs
    requires 0 < i < |cs| && cs[i] == slistelm
    modifies slistelm`next, elm`next
    ensures Forward(InsertAt(cs, i + 1, elm))
  {
    elm.next := slistelm.next;
    slistelm.next := elm;
  }

  method RemoveHead(head: Link, ghost cs: seq<Link>, ghost dead: set<Link>)
    requires Forward(cs) && |cs| > 1 && cs[0] == head && Live(cs, dead)
    modifies head`next
    ensures Forward(RemoveAt(cs, 1))
  {
    assert cs[1].next == if 2 < |cs| then cs[2] else null;
    var first := Load(head, dead);
    var second := Load(first, dead);
    Store(head, second, dead);
  }

  method RemoveAfter(elm: Link, ghost cs: seq<Link>, ghost i: nat, ghost dead: set<Link>)
    requires Forward(cs) && 0 < i < |cs| - 1 && cs[i] == elm && Live(cs, dead)
    modifies elm`next
    ensures Forward(RemoveAt(cs, i + 1))
  {
    assert cs[i + 1].next == if i + 2 < |cs| then cs[i + 2] else null;
    var removed := Load(elm, dead);
    var following := Load(removed, dead);
    Store(elm, following, dead);
  }

  /** SLIST_REMOVE: a walk from the front to the cell before `elm`; one cell changes. The
      walk reads only cells of the list, none of them freed. */
  method Remove(head: Link, elm: Link, ghost cs: seq<Link>, ghost i: nat, ghost dead: set<Link>)
    requires Forward(cs) && 0 < i < |cs| && cs[0] == head && cs[i] == elm && Live(cs, dead)
    modifies cs[i - 1]
    ensures Forward(RemoveAt(cs, i))
  {
    var curelm := Load(head, dead);
    if curelm == elm {
      RemoveHead(head, cs, dead);
    } else {
      ghost var k := 1;
      assert cs[1].next == cs[2];
      var following := Load(curelm, dead);
      while following != elm
        invariant Forward(cs) && 0 < k < i && cs[k] == curelm && following == cs[k + 1]
        decreases i - k
      {
        assert cs[k + 1].next == cs[k + 2];
        curelm := following;
        following := Load(curelm, dead);
        k := k + 1;
      }
      RemoveAfter(curelm, cs, k, dead);
    }
  }

  method Swap(head1: Link, head2: Link, ghost cs1: seq<Link>, ghost cs2: seq<Link>)
    requires Forward(cs1) && |cs1| > 0 && cs1[0] == head1
    requires Forward(cs2) && |cs2| > 0 && cs2[0] == head2
    requires Disjoint(cs1, cs2)
    modifies head1`next, head2`next
    ensures Forward(cs2[0 := head1]) && Forward(cs1[0 := head2])
  {
    var swapFirst := head1.next;
    head1.next := head2.next;
    head2.next := swapFirst;
  }
}
