/** The registry of connection threads kept by `main`, on the singly linked list. A node
    stands for the list node, its thread and its socket. */
module Registry {
  import opened Links
  import Bytes
  import Slist = SinglyLinkedList

  /** One walk over `q` with thread flags `complete`; `seen[i]` are the threads that set
      their flag before node i is looked at. The nodes that stay, in their order. */
  ghost function Stay(q: seq<Link>, complete: set<Link>, seen: seq<set<Link>>): seq<Link>
    requires |seen| == |q|
  {
    if q == [] then []
    else
      var c := complete + seen[0];
      (if q[0] in c then [] else [q[0]]) + Stay(q[1..], c, seen[1..])
  }

  ghost function Union(seen: seq<set<Link>>): set<Link> {
    if seen == [] then {} else seen[0] + Union(seen[1..])
  }

  /** Node i stays exactly when its thread had not set its flag by the time it was looked
      at, whatever flags are set later in the walk. */
  lemma {:induction false} StayExactly(q: seq<Link>, complete: set<Link>, seen: seq<set<Link>>, i: nat)
    requires |seen| == |q| && Distinct(q) && i < |q|
    ensures q[i] in Stay(q, complete, seen) <==> q[i] !in complete + Union(seen[..i + 1])
    ensures forall x :: x in Stay(q, complete, seen) ==> x in q
  {
    StayWithin(q[1..], complete + seen[0], seen[1..]);
    if i == 0 {
      assert Union(seen[..1]) == seen[0] + Union([]) by { assert seen[..1][1..] == []; }
    } else {
      StayExactly(q[1..], complete + seen[0], seen[1..], i - 1);
      assert seen[..i + 1][1..] == seen[1..][..i];
      assert complete + Union(seen[..i + 1]) == complete + seen[0] + Union(seen[1..][..i]);
    }
  }

  lemma {:induction false} StayWithin(q: seq<Link>, complete: set<Link>, seen: seq<set<Link>>)
    requires |seen| == |q|
    ensures forall x :: x in Stay(q, complete, seen) ==> x in q
  {
    if q != [] {
      StayWithin(q[1..], complete + seen[0], seen[1..]);
    }
  }

  lemma {:induction false} UnionAppend(seen: seq<set<Link>>, more: set<Link>)
    ensures Union(seen + [more]) == Union(seen) + more
  {
    if seen == [] {
      assert Union([more]) == more + Union([]);
    } else {
      assert (seen + [more])[1..] == seen[1..] + [more];
      UnionAppend(seen[1..], more);
    }
  }

  /** A walk that looks at one more node. */
  lemma {:induction false} StayAppend(q: seq<Link>, complete: set<Link>, seen: seq<set<Link>>, x: Link, more: set<Link>)
    requires |seen| == |q|
    ensures Stay(q + [x], complete, seen + [more]) ==
            Stay(q, complete, seen) + (if x in complete || x in Union(seen) || x in more then [] else [x])
  {
    if q == [] {
      assert q + [x] == [x] && seen + [more] == [more];
    } else {
      assert (q + [x])[1..] == q[1..] + [x] && (seen + [more])[1..] == seen[1..] + [more];
      var c := complete + seen[0];
      StayAppend(q[1..], c, seen[1..], x, more);
      var head: seq<Link> := if q[0] in c then [] else [q[0]];
      var last: seq<Link> := if x in complete || x in Union(seen) || x in more then [] else [x];
      assert head + (Stay(q[1..], c, seen[1..]) + last) == head + Stay(q[1..], c, seen[1..]) + last;
    }
  }

  /** The list around the node that a walk looks at. */
  lemma AroundNode(head: Link, kept: seq<Link>, node: Link, rest: seq<Link>)
    ensures var cs, i := [head] + kept + ([node] + rest), 1 + |kept|;
            && cs[i] == node && |cs| == i + 1 + |rest| && (rest != [] ==> cs[i + 1] == rest[0])
            && RemoveAt(cs, i) == [head] + (kept + []) + rest
            && cs == [head] + (kept + [node]) + rest
  {
  }

  class Connections {
    const head: Link
    /** Threads that have set `complete`, and threads told to exit. */
    var complete: set<Link>
    var exit: set<Link>
    /** Threads joined, sockets closed and nodes freed. */
    var joined: set<Link>
    var closed: set<Link>
    var freed: set<Link>
    /** The list's cells, and every connection ever accepted. */
    ghost var cs: seq<Link>
    ghost var accepted: set<Link>

    /** Between the steps of `main`, every accepted connection is in the list, once, with
        none of the three done to it, or has been disposed of altogether. */
    ghost predicate Valid()
      reads this, head, accepted
    {
      && |cs| > 0 && cs[0] == head && head !in accepted
      && (forall i :: 1 <= i < |cs| ==> cs[i] in accepted && cs[i] !in freed)
      && (forall x :: x in accepted ==> x in freed || x in cs)
      && freed <= accepted && freed <= complete
      && joined == freed && closed == freed
      && Forward(cs)
    }

    constructor ()
      ensures Valid() && fresh(head) && cs == [head] && accepted == {} && exit == {} && complete == {}
    {
      head := new Link();
      complete, exit, joined, closed, freed := {}, {}, {}, {}, {};
      new;
      cs, accepted := [head], {};
    }

    /** A connection is accepted and its thread started. */
    method Accept() returns (node: Link)
      requires Valid()
      modifies this`cs, this`accepted, head
      ensures Valid() && fresh(node)
      ensures cs == InsertAt(old(cs), 1, node) && accepted == old(accepted) + {node}
    {
      node := new Link();
      Slist.InsertHead(head, node, cs, freed);
      ghost var before := cs;
      cs := InsertAt(cs, 1, node);
      accepted := accepted + {node};
      assert forall x :: x in before ==> x in cs;
    }

    /** pthread_join: the thread has finished, and is joined once. */
    method Join(node: Link)
      requires node !in freed && node in complete && node !in joined
      modifies this`joined
      ensures joined == old(joined) + {node}
    {
      joined := joined + {node};
    }

    /** close of the socket: after the join, once. */
    method Close(node: Link)
      requires node !in freed && node in joined && node !in closed
      modifies this`closed
      ensures closed == old(closed) + {node}
    {
      closed := closed + {node};
    }

    /** free of the node: closed, out of the list, once. What it held is gone. */
    method Free(node: Link)
      requires node !in freed && node in closed && node !in cs
      modifies this`freed, node
      ensures freed == old(freed) + {node}
    {
      freed := freed + {node};
      node.next := *;
      node.back := *;
    }

    /** SLIST_REMOVE of the node at position i. */
    method Unlink(node: Link, ghost i: nat)
      requires 0 < i < |cs| && cs[0] == head && cs[i] == node && Forward(cs) && Live(cs, freed)
      requires forall j :: 1 <= j < |cs| ==> cs[j] in accepted
      modifies this`cs, head, accepted
      ensures cs == RemoveAt(old(cs), i) && Forward(cs) && cs[0] == head && node !in cs
      ensures forall x :: x in old(cs) <==> x in cs || x == node
    {
      Slist.Remove(head, node, cs, i, freed);
      ghost var before := cs;
      cs := RemoveAt(cs, i);
      assert before == before[..i] + [node] + before[i + 1..];
    }

    /** Disposing of the node at position i, whose thread has finished: join, close, unlink
        and free, in that order. */
    method Dispose(node: Link, ghost i: nat)
      requires Valid() && 0 < i < |cs| && cs[i] == node && node in complete
      modifies this`joined, this`closed, this`freed, this`cs, head, accepted
      ensures Valid() && cs == RemoveAt(old(cs), i) && freed == old(freed) + {node}
    {
      Join(node);
      Close(node);
      assert head !in freed;
      Unlink(node, i);
      Free(node);
    }

    /** Any threads may set their flag at any time. */
    method SetFlags(more: set<Link>)
      requires Valid()
      modifies this`complete
      ensures Valid() && complete == old(complete) + more
    {
      complete := complete + more;
    }

    /** Looking at a node's flag. */
    method IsComplete(node: Link) returns (b: bool)
      requires node !in freed
      ensures b == (node in complete)
    {
      b := node in complete;
    }

    method Tell(node: Link)
      requires node !in freed
      modifies this`exit
      ensures exit == old(exit) + {node}
    {
      exit := exit + {node};
    }

    /** The state of a walk over `q` that is about to look at `node`; `seen` records which
        threads set their flag before each node so far was looked at. */
    ghost predicate Walking(q: seq<Link>, c0: set<Link>, seen: seq<set<Link>>, node: Link?)
      reads this, head, accepted
    {
      && Valid()
      && |seen| <= |q| && complete == c0 + Union(seen)
      && cs == [head] + Stay(q[..|seen|], c0, seen) + q[|seen|..]
      && node == if |seen| < |q| then q[|seen|] else null
    }

    /** One turn of SLIST_FOREACH_SAFE: the successor is taken first; then any threads may
        set their flag (`more`); then the node goes if its own flag is set. */
    method Visit(node: Link, more: set<Link>, ghost kept: seq<Link>, ghost rest: seq<Link>) returns (tempNode: Link?)
      requires Valid() && cs == [head] + kept + ([node] + rest)
      modifies this`complete, this`joined, this`closed, this`freed, this`cs, head, accepted
      ensures Valid() && complete == old(complete) + more
      ensures cs == [head] + (kept + if node in complete then [] else [node]) + rest
      ensures tempNode == if rest == [] then null else rest[0]
    {
      ghost var i := 1 + |kept|;
      AroundNode(head, kept, node, rest);
      tempNode := Load(node, freed);
      SetFlags(more);
      var done := IsComplete(node);
      if done {
        Dispose(node, i);
      }
    }

    method Turn(node: Link, more: set<Link>, ghost q: seq<Link>, ghost c0: set<Link>, ghost seen: seq<set<Link>>)
        returns (tempNode: Link?)
      requires Walking(q, c0, seen, node)
      modifies this`complete, this`joined, this`closed, this`freed, this`cs, head, accepted
      ensures |seen| < |q| && Walking(q, c0, seen + [more], tempNode)
    {
      StayAppend(q[..|seen|], c0, seen, node, more);
      UnionAppend(seen, more);
      assert q[..|seen| + 1] == q[..|seen|] + [node];
      assert q[|seen|..] == [node] + q[|seen| + 1..];
      tempNode := Visit(node, more, Stay(q[..|seen|], c0, seen), q[|seen| + 1..]);
    }

    /** The walk of SLIST_FOREACH_SAFE after each accept. */
    method Reap() returns (ghost seen: seq<set<Link>>)
      requires Valid()
      modifies this`complete, this`joined, this`closed, this`freed, this`cs, head, accepted
      ensures Valid()
      ensures |seen| == |old(cs)| - 1 && complete == old(complete) + Union(seen)
      ensures cs == [head] + Stay(old(cs[1..]), old(complete), seen)
    {
      ghost var q, c0 := cs[1..], complete;
      seen := [];
      var node := Load(head, freed);
      assert cs == [head] + [] + q;
      while node != null
        invariant Walking(q, c0, seen, node)
        decreases |q| - |seen|
      {
        var more: set<Link> := *;
        node := Turn(node, more, q, c0, seen);
        seen := seen + [more];
      }
      assert q[..|q|] == q && q[|q|..] == [];
    }

    /** A turn of the accept loop that finds a connection: the new node comes first, and then
        the walk drops the nodes that it sees complete. */
    method AcceptAndReap() returns (ghost node: Link, ghost seen: seq<set<Link>>)
      requires Valid()
      modifies this`complete, this`joined, this`closed, this`freed, this`cs, this`accepted, head, accepted
      ensures Valid() && fresh(node) && accepted == old(accepted) + {node}
      ensures |seen| == |old(cs)| && complete == old(complete) + Union(seen)
      ensures cs == [head] + Stay([node] + old(cs[1..]), old(complete), seen)
    {
      var newNode := Accept();
      node := newNode;
      assert cs[1..] == [node] + old(cs[1..]);
      seen := Reap();
    }

    /** The first loop of the shutdown: exactly the listed threads are told to exit. */
    method TellAll()
      requires Valid()
      modifies this`exit
      ensures exit == old(exit) + Listed()
    {
      var node := Load(head, freed);
      ghost var i := 1;
      while node != null
        invariant 1 <= i <= |cs| && node == if i < |cs| then cs[i] else null
        invariant exit == old(exit) + set j | 1 <= j < i :: cs[j]
        decreases |cs| - i
      {
        Tell(node);
        node := Load(node, freed);
        i := i + 1;
      }
    }

    /** The threads in the list. */
    ghost function Listed(): set<Link>
      reads this
    {
      set j | 1 <= j < |cs| :: cs[j]
    }

    /** Waiting for a thread: it sets its flag on every way out, and one that has been told to
        exit, or has its flag set, is on its way. */
    method Wait(node: Link)
      requires Valid() && node !in freed && (node in exit || node in complete)
      modifies this`complete
      ensures Valid() && complete == old(complete) + {node}
    {
      complete := complete + {node};
    }

    /** A turn of the second loop: the successor is taken, the thread waited for, and its
        node goes. */
    method WaitAndDispose(node: Link, ghost rest: seq<Link>) returns (tempNode: Link?)
      requires Valid() && cs == [head] + [] + ([node] + rest) && (node in exit || node in complete)
      modifies this`complete, this`joined, this`closed, this`freed, this`cs, head, accepted
      ensures Valid() && complete == old(complete) + {node}
      ensures cs == [head] + [] + rest
      ensures tempNode == if rest == [] then null else rest[0]
    {
      AroundNode(head, [], node, rest);
      tempNode := Load(node, freed);
      Wait(node);
      Dispose(node, 1);
    }

    /** The second loop: each listed thread, having been told, is waited for, and its node
        goes. */
    method JoinAll()
      requires Valid() && Listed() <= exit + complete
      modifies this`complete, this`joined, this`closed, this`freed, this`cs, head, accepted
      ensures Valid() && cs == [head] && freed == accepted
    {
      ghost var rest := cs[1..];
      var node := Load(head, freed);
      assert cs == [head] + [] + rest;
      assert forall j :: 0 <= j < |rest| ==> rest[j] == cs[j + 1];
      while node != null
        invariant Valid() && cs == [head] + [] + rest
        invariant forall j :: 0 <= j < |rest| ==> rest[j] in exit + complete
        invariant node == if rest == [] then null else rest[0]
        decreases |rest|
      {
        assert rest == [node] + rest[1..];
        node := WaitAndDispose(node, rest[1..]);
        rest := rest[1..];
      }
    }
  }

  function Count(arrivals: seq<bool>): nat {
    if arrivals == [] then 0
    else Count(arrivals[..|arrivals| - 1]) + if arrivals[|arrivals| - 1] then 1 else 0
  }

  lemma {:induction false} CountTrue(arrivals: seq<bool>)
    ensures Count(arrivals) == multiset(arrivals)[true]
  {
    if arrivals != [] {
      var k := |arrivals| - 1;
      CountTrue(arrivals[..k]);
      assert arrivals == arrivals[..k] + [arrivals[k]];
    }
  }

  /** The list after the connections `nodes` came in that order, each followed by a walk, of
      which `walks` tells what flags it saw set. */
  ghost function ListAfter(nodes: seq<Link>, walks: seq<seq<set<Link>>>): seq<Link>
    requires |walks| == |nodes|
  {
    if nodes == [] then []
    else
      var k := |nodes| - 1;
      var q := [nodes[k]] + ListAfter(nodes[..k], walks[..k]);
      if |walks[k]| == |q| then Stay(q, Flags(walks[..k]), walks[k]) else q
  }

  /** The flags set by the end of the walks. */
  ghost function Flags(walks: seq<seq<set<Link>>>): set<Link> {
    if walks == [] then {} else Flags(walks[..|walks| - 1]) + Union(walks[|walks| - 1])
  }

  /** Each walk looked at every node of the list, which was a list of different nodes. */
  ghost predicate Walked(nodes: seq<Link>, walks: seq<seq<set<Link>>>) {
    && |walks| == |nodes| && Distinct(nodes)
    && forall k :: 0 <= k < |nodes| ==> |walks[k]| == 1 + |ListAfter(nodes[..k], walks[..k])|
  }

  lemma {:induction false} UnionPrefix(seen: seq<set<Link>>, i: nat)
    requires i <= |seen|
    ensures Union(seen[..i]) <= Union(seen)
  {
    if i > 0 {
      UnionPrefix(seen[1..], i - 1);
      assert seen[..i][1..] == seen[1..][..i - 1];
    }
  }

  lemma {:induction false} StayDistinct(q: seq<Link>, complete: set<Link>, seen: seq<set<Link>>)
    requires |seen| == |q| && Distinct(q)
    ensures Distinct(Stay(q, complete, seen))
  {
    if q != [] {
      assert forall j :: 0 <= j < |q[1..]| ==> q[1..][j] == q[j + 1];
      StayDistinct(q[1..], complete + seen[0], seen[1..]);
      StayWithin(q[1..], complete + seen[0], seen[1..]);
      var rest := Stay(q[1..], complete + seen[0], seen[1..]);
      assert q[0] !in rest;
      assert Stay(q, complete, seen) == rest || Stay(q, complete, seen) == [q[0]] + rest;
    }
  }

  /** In one walk: a node whose flag was set before it is gone, and one whose flag is not set
      by its end stays. */
  lemma StayBounds(q: seq<Link>, complete: set<Link>, seen: seq<set<Link>>)
    requires |seen| == |q| && Distinct(q)
    ensures forall x :: x in q && x !in complete + Union(seen) ==> x in Stay(q, complete, seen)
    ensures forall x :: x in Stay(q, complete, seen) ==> x in q && x !in complete
  {
    StayWithin(q, complete, seen);
    forall i | 0 <= i < |q|
      ensures q[i] !in complete + Union(seen) ==> q[i] in Stay(q, complete, seen)
      ensures q[i] in Stay(q, complete, seen) ==> q[i] !in complete
    {
      StayExactly(q, complete, seen, i);
      UnionPrefix(seen, i + 1);
    }
  }

  /** The nodes of a walk are different: those listed came before the new one. */
  lemma {:induction false} ListAfterWithin(nodes: seq<Link>, walks: seq<seq<set<Link>>>)
    requires Walked(nodes, walks)
    ensures Distinct(ListAfter(nodes, walks)) && forall x :: x in ListAfter(nodes, walks) ==> x in nodes
  {
    if nodes != [] {
      var k := |nodes| - 1;
      WalkedFront(nodes, walks);
      ListAfterWithin(nodes[..k], walks[..k]);
      var q := [nodes[k]] + ListAfter(nodes[..k], walks[..k]);
      StayDistinct(q, Flags(walks[..k]), walks[k]);
      StayWithin(q, Flags(walks[..k]), walks[k]);
    }
  }

  lemma WalkedFront(nodes: seq<Link>, walks: seq<seq<set<Link>>>)
    requires Walked(nodes, walks) && nodes != []
    ensures var k := |nodes| - 1; Walked(nodes[..k], walks[..k]) && nodes[k] !in nodes[..k]
  {
    var k := |nodes| - 1;
    forall i | 0 <= i < k
      ensures |walks[..k][i]| == 1 + |ListAfter(nodes[..k][..i], walks[..k][..i])|
    {
      assert nodes[..k][..i] == nodes[..i] && walks[..k][..i] == walks[..i];
    }
  }

  /** Over the accept loop: a connection whose thread has not set its flag by the last walk is
      still listed, and one whose thread had set it before the last walk is not. */
  lemma {:induction false} ListedWhile(nodes: seq<Link>, walks: seq<seq<set<Link>>>)
    requires Walked(nodes, walks)
    ensures forall x :: x in nodes && x !in Flags(walks) ==> x in ListAfter(nodes, walks)
    ensures nodes != [] ==> forall x :: x in ListAfter(nodes, walks) ==> x !in Flags(walks[..|walks| - 1])
  {
    if nodes != [] {
      var k := |nodes| - 1;
      WalkedFront(nodes, walks);
      ListAfterWithin(nodes[..k], walks[..k]);
      ListedWhile(nodes[..k], walks[..k]);
      StayBounds([nodes[k]] + ListAfter(nodes[..k], walks[..k]), Flags(walks[..k]), walks[k]);
    }
  }

  function Members(nodes: seq<Link>): set<Link> {
    set x | x in nodes
  }

  /** The nodes that came, and the list that is left of them. */
  ghost predicate Serving(c: Connections, nodes: seq<Link>, walks: seq<seq<set<Link>>>)
    reads c, c.head, c.accepted
  {
    && c.Valid() && Walked(nodes, walks) && c.exit == {}
    && c.accepted == Members(nodes)
    && c.cs == [c.head] + ListAfter(nodes, walks) && c.complete == Flags(walks)
  }

  lemma ListAfterMore(nodes: seq<Link>, walks: seq<seq<set<Link>>>, node: Link, seen: seq<set<Link>>)
    requires |walks| == |nodes| && |seen| == 1 + |ListAfter(nodes, walks)|
    ensures ListAfter(nodes + [node], walks + [seen]) == Stay([node] + ListAfter(nodes, walks), Flags(walks), seen)
    ensures Flags(walks + [seen]) == Flags(walks) + Union(seen)
  {
    Bytes.PrefixAppend(nodes, node, |nodes|);
    Bytes.Whole(nodes);
    Bytes.PrefixAppend(walks, seen, |walks|);
    Bytes.Whole(walks);
  }

  /** Each walk so far looked at as many nodes as before one more came. */
  lemma WalkedAt(nodes: seq<Link>, walks: seq<seq<set<Link>>>, node: Link, seen: seq<set<Link>>, i: nat)
    requires Walked(nodes, walks) && |seen| == 1 + |ListAfter(nodes, walks)| && i <= |nodes|
    ensures |(walks + [seen])[i]| == 1 + |ListAfter((nodes + [node])[..i], (walks + [seen])[..i])|
  {
    Bytes.PrefixAppend(nodes, node, i);
    Bytes.PrefixAppend(walks, seen, i);
    if i == |nodes| {
      Bytes.Whole(nodes);
      Bytes.Whole(walks);
    }
  }

  lemma WalkedMore(nodes: seq<Link>, walks: seq<seq<set<Link>>>, node: Link, seen: seq<set<Link>>)
    requires Walked(nodes, walks) && node !in nodes && |seen| == 1 + |ListAfter(nodes, walks)|
    ensures Walked(nodes + [node], walks + [seen])
  {
    forall i | 0 <= i <= |nodes|
      ensures |(walks + [seen])[i]| == 1 + |ListAfter((nodes + [node])[..i], (walks + [seen])[..i])|
    {
      WalkedAt(nodes, walks, node, seen, i);
    }
  }

  method ServeOne(c: Connections, ghost nodes: seq<Link>, ghost walks: seq<seq<set<Link>>>)
      returns (ghost nodes': seq<Link>, ghost walks': seq<seq<set<Link>>>)
    requires Serving(c, nodes, walks)
    modifies c, c.head, c.accepted
    ensures Serving(c, nodes', walks') && |nodes'| == |nodes| + 1 && nodes == nodes'[..|nodes|] && fresh(nodes'[|nodes|])
    ensures c.accepted == old(c.accepted) + {nodes'[|nodes|]}
  {
    ghost var node, seen := c.AcceptAndReap();
    assert c.head !in nodes && node !in nodes;
    WalkedMore(nodes, walks, node, seen);
    ListAfterMore(nodes, walks, node, seen);
    nodes', walks' := nodes + [node], walks + [seen];
  }

  /** The two loops of the shutdown. */
  method ShutDown(c: Connections, ghost left: seq<Link>)
    requires c.Valid() && c.cs == [c.head] + left && c.exit == {}
    modifies c, c.head, c.accepted
    ensures c.Valid() && c.cs == [c.head] && c.freed == c.accepted == old(c.accepted) && c.exit == Members(left)
  {
    ListedMembers(c, left);
    c.TellAll();
    c.JoinAll();
  }

  lemma ListedMembers(c: Connections, left: seq<Link>)
    requires c.cs == [c.head] + left
    ensures c.Listed() == Members(left)
  {
    forall x | x in left
      ensures x in c.Listed()
    {
      var j :| 0 <= j < |left| && left[j] == x;
      assert c.cs[j + 1] == x;
    }
    assert forall j :: 1 <= j < |c.cs| ==> c.cs[j] == left[j - 1];
  }

  /** A whole run of `main`: one turn of the accept loop per item of `arrivals`, which says
      whether a connection was there, and then the shutdown. `nodes` are the connections as
      they came, `walks` what each walk saw. Those still listed then, and no others, have been
      told to exit; every connection has been joined, closed and freed, none twice, and the
      list is empty. */
  method Serve(arrivals: seq<bool>)
      returns (c: Connections, ghost nodes: seq<Link>, ghost walks: seq<seq<set<Link>>>)
    ensures c.Valid() && c.cs == [c.head] && c.head.next == null
    ensures |nodes| == multiset(arrivals)[true] && Walked(nodes, walks) && c.accepted == Members(nodes)
    ensures c.exit == Members(ListAfter(nodes, walks))
    ensures c.joined == c.closed == c.freed == c.accepted && c.accepted <= c.complete
  {
    c := new Connections();
    nodes, walks := [], [];
    for i := 0 to |arrivals|
      invariant fresh(c) && fresh(c.head) && fresh(c.accepted)
      invariant Serving(c, nodes, walks) && |nodes| == Count(arrivals[..i])
    {
      assert arrivals[..i + 1][..i] == arrivals[..i];
      if arrivals[i] {
        nodes, walks := ServeOne(c, nodes, walks);
      }
    }
    assert arrivals[..|arrivals|] == arrivals;
    CountTrue(arrivals);
    ShutDown(c, ListAfter(nodes, walks));
  }
}
