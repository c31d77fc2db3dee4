/** The cells that the intrusive queues are made of, and what it means for a
    sequence of cells to be linked.

    Every queue macro works on addresses of "next" fields. A head and an element
    both start with such a field, followed (for the doubly linked forms) by the
    address of some other "next" field, so both are a `Link`: the address of a
    "next" field is the `Link` that holds it. Reinterpreting an element's entry as
    a head, as the reverse macros of the tail queue do, is then the identity.

    A queue is described by its cells: the head, followed by the elements in order. */
module Links {

  class Link {
    var next: Link?
    var back: Link?

    constructor ()
      ensures next == null && back == null
    {
      next, back := null, null;
    }
  }

  /** Reading and writing a "next" field, where the cells in `dead` have been freed. */
  method Load(c: Link, ghost dead: set<Link>) returns (n: Link?)
    requires c !in dead
    ensures n == c.next
  {
    n := c.next;
  }

  method Store(c: Link, n: Link?, ghost dead: set<Link>)
    requires c !in dead
    modifies c`next
    ensures c.next == n
  {
    c.next := n;
  }

  ghost predicate Live(cs: seq<Link>, dead: set<Link>) {
    forall i :: 0 <= i < |cs| ==> cs[i] !in dead
  }

  ghost predicate Distinct(cs: seq<Link>) {
    forall i, j :: 0 <= i < j < |cs| ==> cs[i] != cs[j]
  }

  ghost predicate Disjoint(cs: seq<Link>, ds: seq<Link>) {
    forall i, j :: 0 <= i < |cs| && 0 <= j < |ds| ==> cs[i] != ds[j]
  }

  /** Each cell's `next` is the following cell; the last cell's `next` is null. */
  ghost predicate Forward(cs: seq<Link>)
    reads cs
  {
    && Distinct(cs)
    && (forall i {:trigger cs[i].next} :: 0 <= i < |cs| ==>
          cs[i].next == if i + 1 < |cs| then cs[i + 1] else null)
  }

  /** Each element's `back` is the cell whose `next` points at it. */
  ghost predicate Backward(cs: seq<Link>)
    reads cs
  {
    forall i {:trigger cs[i].back} :: 0 < i < |cs| ==> cs[i].back == cs[i - 1]
  }

  /** The head's `back` is the cell whose `next` is null. */
  ghost predicate TailKnown(cs: seq<Link>)
    reads cs
  {
    |cs| > 0 && cs[0].back == cs[|cs| - 1]
  }

  function InsertAt<T>(s: seq<T>, i: nat, x: T): (r: seq<T>)
    requires i <= |s|
  {
    s[..i] + [x] + s[i..]
  }

  function RemoveAt<T>(s: seq<T>, i: nat): (r: seq<T>)
    requires i < |s|
  {
    s[..i] + s[i + 1..]
  }

  function Reversed<T>(s: seq<T>): (r: seq<T>)
    ensures |r| == |s|
    ensures forall i :: 0 <= i < |s| ==> r[i] == s[|s| - 1 - i]
  {
    if s == [] then [] else Reversed(s[1..]) + [s[0]]
  }
}
