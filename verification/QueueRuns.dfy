/** Whole runs of tail queue operations on two queues: whatever the order of insertions,
    removals, concatenations and swaps, the pointers stay those of two separate queues,
    and the queues are what the same operations make of two sequences. */
module QueueRuns {
  import opened Links
  import Stq = SinglyLinkedTailQueue
  import Tq = TailQueue

  /** An operation on one queue, or on that queue and the other. */
  datatype Op =
    | InsertHead(elm: Link)
    | InsertTail(elm: Link)
    | InsertAfter(at: Link, elm: Link)
    | InsertBefore(at: Link, elm: Link)
    | RemoveHead
    | RemoveAfter(at: Link)
    | Remove(elm: Link)
    | Concat
    | Swap
  {
    predicate Inserts() {
      InsertHead? || InsertTail? || InsertAfter? || InsertBefore?
    }

    predicate Removes() {
      RemoveHead? || RemoveAfter? || Remove?
    }
  }

  /** The cells of the queue operated on and of the other queue, heads first. */
  datatype Pair = Pair(x: seq<Link>, y: seq<Link>)

  ghost function IndexOf(s: seq<Link>, e: Link): (i: nat)
    requires e in s
    ensures i < |s| && s[i] == e
  {
    if s[0] == e then 0 else 1 + IndexOf(s[1..], e)
  }

  /** The operation as a program is entitled to use it: an inserted element is in neither
      queue, a named element is in the queue. */
  ghost predicate Legal(p: Pair, op: Op) {
    && |p.x| > 0 && |p.y| > 0
    && (op.Inserts() ==> op.elm !in p.x && op.elm !in p.y)
    && (op.InsertAfter? || op.InsertBefore? ==> op.at in p.x && op.at != p.x[0])
    && (op.RemoveHead? ==> |p.x| > 1)
    && (op.RemoveAfter? ==> op.at in p.x && op.at != p.x[0] && IndexOf(p.x, op.at) + 1 < |p.x|)
    && (op.Remove? ==> op.elm in p.x && op.elm != p.x[0])
  }

  /** The position at which an insertion puts its element, or from which a removal takes. */
  ghost function Place(p: Pair, op: Op): (k: nat)
    requires Legal(p, op) && (op.Inserts() || op.Removes())
    ensures 0 < k <= |p.x| && (op.Removes() ==> k < |p.x|)
  {
    match op
    case InsertHead(_) => 1
    case InsertTail(_) => |p.x|
    case InsertAfter(at, _) => IndexOf(p.x, at) + 1
    case InsertBefore(at, _) => IndexOf(p.x, at)
    case RemoveHead => 1
    case RemoveAfter(at) => IndexOf(p.x, at) + 1
    case Remove(elm) => IndexOf(p.x, elm)
  }

  /** What the operation does to the sequences. */
  ghost function Effect(p: Pair, op: Op): (r: Pair)
    requires Legal(p, op)
    ensures |r.x| > 0 && |r.y| > 0 && r.x[0] == p.x[0] && r.y[0] == p.y[0]
  {
    if op.Inserts() then p.(x := InsertAt(p.x, Place(p, op), op.elm))
    else if op.Removes() then p.(x := RemoveAt(p.x, Place(p, op)))
    else if op.Concat? then Pair(p.x + p.y[1..], [p.y[0]])
    else Pair(p.y[0 := p.x[0]], p.x[0 := p.y[0]])
  }

  /** `r` is `s` with the `width` cells from `at` on replaced by `mid`. */
  ghost predicate Replaced(s: seq<Link>, at: Link, width: nat, mid: seq<Link>, r: seq<Link>) {
    exists i :: 0 <= i < |s| && i + width <= |s| && s[i] == at && r == s[..i] + mid + s[i + width..]
  }

  lemma ReplacedOne(s: seq<Link>, at: Link, width: nat, mid: seq<Link>, r: seq<Link>, r': seq<Link>)
    requires Distinct(s) && Replaced(s, at, width, mid, r) && Replaced(s, at, width, mid, r')
    ensures r == r'
  {
    var i :| 0 <= i < |s| && i + width <= |s| && s[i] == at && r == s[..i] + mid + s[i + width..];
    var j :| 0 <= j < |s| && j + width <= |s| && s[j] == at && r' == s[..j] + mid + s[j + width..];
    assert i == j;
  }

  /** What each macro is for, told by what stands before and behind the elements concerned
      and not by positions. A queue's first cell is its head. */
  ghost predicate Does(p: Pair, op: Op, r: Pair)
    requires |p.x| > 0 && |p.y| > 0
  {
    match op
    case InsertHead(e) => r == Pair([p.x[0], e] + p.x[1..], p.y)
    case InsertTail(e) => r == Pair(p.x + [e], p.y)
    case InsertAfter(at, e) => Replaced(p.x, at, 1, [at, e], r.x) && r.y == p.y
    case InsertBefore(at, e) => Replaced(p.x, at, 1, [e, at], r.x) && r.y == p.y
    case RemoveHead => |p.x| > 1 && r == Pair([p.x[0]] + p.x[2..], p.y)
    case RemoveAfter(at) => Replaced(p.x, at, 2, [at], r.x) && r.y == p.y
    case Remove(e) => Replaced(p.x, e, 1, [], r.x) && r.y == p.y
    case Concat => r == Pair(p.x + p.y[1..], [p.y[0]])
    case Swap => r == Pair([p.x[0]] + p.y[1..], [p.y[0]] + p.x[1..])
  }

  lemma InsertEnds(s: seq<Link>, e: Link)
    requires |s| > 0
    ensures InsertAt(s, 1, e) == [s[0], e] + s[1..] && InsertAt(s, |s|, e) == s + [e]
  {
  }

  lemma InsertBehind(s: seq<Link>, at: Link, e: Link)
    requires at in s
    ensures Replaced(s, at, 1, [at, e], InsertAt(s, IndexOf(s, at) + 1, e))
  {
    var i := IndexOf(s, at);
    assert InsertAt(s, i + 1, e) == s[..i] + [at, e] + s[i + 1..];
  }

  lemma InsertInFront(s: seq<Link>, at: Link, e: Link)
    requires at in s
    ensures Replaced(s, at, 1, [e, at], InsertAt(s, IndexOf(s, at), e))
  {
    var i := IndexOf(s, at);
    assert InsertAt(s, i, e) == s[..i] + [e, at] + s[i + 1..];
  }

  lemma InsertEndDoes(p: Pair, op: Op)
    requires Legal(p, op) && (op.InsertHead? || op.InsertTail?)
    ensures Does(p, op, Effect(p, op))
  {
    InsertEnds(p.x, op.elm);
  }

  lemma InsertAfterDoes(p: Pair, op: Op)
    requires Legal(p, op) && op.InsertAfter?
    ensures Does(p, op, Effect(p, op))
  {
    InsertBehind(p.x, op.at, op.elm);
  }

  lemma InsertBeforeDoes(p: Pair, op: Op)
    requires Legal(p, op) && op.InsertBefore?
    ensures Does(p, op, Effect(p, op))
  {
    InsertInFront(p.x, op.at, op.elm);
  }

  lemma RemoveWhere(s: seq<Link>, i: nat)
    requires i < |s|
    ensures |s| > 1 ==> RemoveAt(s, 1) == [s[0]] + s[2..]
    ensures Replaced(s, s[i], 1, [], RemoveAt(s, i))
    ensures i + 1 < |s| ==> Replaced(s, s[i], 2, [s[i]], RemoveAt(s, i + 1))
  {
    assert RemoveAt(s, i) == s[..i] + [] + s[i + 1..];
    if i + 1 < |s| {
      assert RemoveAt(s, i + 1) == s[..i] + [s[i]] + s[i + 2..];
    }
  }

  lemma RemoveDoes(p: Pair, op: Op)
    requires Legal(p, op) && op.Removes()
    ensures Does(p, op, Effect(p, op))
  {
    match op {
      case RemoveHead => RemoveWhere(p.x, 0);
      case RemoveAfter(at) => RemoveWhere(p.x, IndexOf(p.x, at));
      case Remove(e) => RemoveWhere(p.x, IndexOf(p.x, e));
    }
  }

  /** Each operation does what it is for. */
  lemma EffectDoes(p: Pair, op: Op)
    requires Legal(p, op)
    ensures Does(p, op, Effect(p, op))
  {
    if op.InsertHead? || op.InsertTail? {
      InsertEndDoes(p, op);
    } else if op.InsertAfter? {
      InsertAfterDoes(p, op);
    } else if op.InsertBefore? {
      InsertBeforeDoes(p, op);
    } else if op.Removes() {
      RemoveDoes(p, op);
    }
  }

  /** And that leaves no choice. */
  lemma DoesOne(p: Pair, op: Op, r: Pair, r': Pair)
    requires |p.x| > 0 && |p.y| > 0 && Distinct(p.x) && Does(p, op, r) && Does(p, op, r')
    ensures r == r'
  {
    match op {
      case InsertAfter(at, e) => ReplacedOne(p.x, at, 1, [at, e], r.x, r'.x);
      case InsertBefore(at, e) => ReplacedOne(p.x, at, 1, [e, at], r.x, r'.x);
      case RemoveAfter(at) => ReplacedOne(p.x, at, 2, [at], r.x, r'.x);
      case Remove(e) => ReplacedOne(p.x, e, 1, [], r.x, r'.x);
      case _ =>
    }
  }

  ghost predicate Separate(p: Pair) {
    Distinct(p.x) && Distinct(p.y) && Disjoint(p.x, p.y)
  }

  lemma InsertSeparate(p: Pair, k: nat, e: Link)
    requires Separate(p) && 0 < k <= |p.x| && e !in p.x && e !in p.y
    ensures Disjoint(InsertAt(p.x, k, e), p.y)
  {
  }

  lemma RemoveSeparate(p: Pair, k: nat)
    requires Separate(p) && 0 < k < |p.x|
    ensures Disjoint(RemoveAt(p.x, k), p.y)
  {
  }

  lemma JoinSeparate(p: Pair)
    requires Separate(p) && |p.x| > 0 && |p.y| > 0
    ensures Disjoint(p.x + p.y[1..], [p.y[0]])
    ensures Disjoint(p.y[0 := p.x[0]], p.x[0 := p.y[0]])
  {
  }

  /** Separate queues stay separate. */
  lemma EffectSeparate(p: Pair, op: Op)
    requires Legal(p, op) && Separate(p)
    ensures Disjoint(Effect(p, op).x, Effect(p, op).y)
  {
    if op.Inserts() {
      InsertSeparate(p, Place(p, op), op.elm);
    } else if op.Removes() {
      RemoveSeparate(p, Place(p, op));
    } else {
      JoinSeparate(p);
    }
  }

  // ------------------------------------------------------------------ runs

  /** One step of a run: an operation on the first queue, or, with `other`, the second. */
  datatype Step = Step(other: bool, op: Op)

  ghost function Side(p: Pair, other: bool): Pair {
    if other then Pair(p.y, p.x) else p
  }

  ghost predicate LegalRun(p: Pair, steps: seq<Step>)
    decreases |steps|
  {
    steps != [] ==>
      && Legal(Side(p, steps[0].other), steps[0].op)
      && LegalRun(Apply(p, steps[0]), steps[1..])
  }

  ghost function Apply(p: Pair, step: Step): Pair
    requires Legal(Side(p, step.other), step.op)
  {
    Side(Effect(Side(p, step.other), step.op), step.other)
  }

  ghost function ApplyAll(p: Pair, steps: seq<Step>): Pair
    requires LegalRun(p, steps)
    decreases |steps|
  {
    if steps == [] then p else ApplyAll(Apply(p, steps[0]), steps[1..])
  }

  /** From one pair of queues to the next by a step, which with `other` is on the second. */
  ghost predicate Turns(p: Pair, step: Step, r: Pair)
    requires |p.x| > 0 && |p.y| > 0
  {
    if step.other then Does(Pair(p.y, p.x), step.op, Pair(r.y, r.x)) else Does(p, step.op, r)
  }

  /** The queues before, between and after the steps. */
  ghost predicate Chain(p: Pair, steps: seq<Step>, states: seq<Pair>) {
    && |states| == |steps| + 1 && states[0] == p
    && forall i :: 0 <= i < |steps| ==> |states[i].x| > 0 && |states[i].y| > 0 && Turns(states[i], steps[i], states[i + 1])
  }

  lemma ApplyTurns(p: Pair, step: Step)
    requires Legal(Side(p, step.other), step.op)
    ensures Turns(p, step, Apply(p, step)) && |p.x| > 0 && |p.y| > 0
  {
    EffectDoes(Side(p, step.other), step.op);
  }

  lemma ChainMore(p: Pair, steps: seq<Step>, rest: seq<Pair>)
    requires steps != [] && |p.x| > 0 && |p.y| > 0
    requires rest != [] && Turns(p, steps[0], rest[0]) && Chain(rest[0], steps[1..], rest)
    ensures Chain(p, steps, [p] + rest)
  {
    var states := [p] + rest;
    forall i | 0 <= i < |steps|
      ensures |states[i].x| > 0 && |states[i].y| > 0 && Turns(states[i], steps[i], states[i + 1])
    {
      if i > 0 {
        assert states[i] == rest[i - 1] && steps[1..][i - 1] == steps[i];
      }
    }
  }

  /** A run is a chain of operations that each do what they are for. */
  lemma {:induction false} Chained(p: Pair, steps: seq<Step>) returns (states: seq<Pair>)
    requires LegalRun(p, steps)
    ensures Chain(p, steps, states) && states[|steps|] == ApplyAll(p, steps)
    decreases |steps|
  {
    if steps == [] {
      states := [p];
    } else {
      ApplyTurns(p, steps[0]);
      var rest := Chained(Apply(p, steps[0]), steps[1..]);
      ChainMore(p, steps, rest);
      states := [p] + rest;
    }
  }

  lemma TurnsOne(p: Pair, step: Step, r: Pair, r': Pair)
    requires |p.x| > 0 && |p.y| > 0 && Distinct(p.x) && Distinct(p.y) && Turns(p, step, r) && Turns(p, step, r')
    ensures r == r'
  {
    if step.other {
      DoesOne(Pair(p.y, p.x), step.op, Pair(r.y, r.x), Pair(r'.y, r'.x));
    } else {
      DoesOne(p, step.op, r, r');
    }
  }

  /** The heads and everything a run inserts. */
  ghost function Touched(h1: Link, h2: Link, steps: seq<Step>): set<Link> {
    {h1, h2} + set s | s in steps && s.op.Inserts() :: s.op.elm
  }

  ghost predicate AllIn(s: seq<Link>, nodes: set<Link>) {
    forall i :: 0 <= i < |s| ==> s[i] in nodes
  }

  ghost predicate Within(p: Pair, nodes: set<Link>) {
    AllIn(p.x, nodes) && AllIn(p.y, nodes)
  }

  lemma InsertWithin(s: seq<Link>, k: nat, e: Link, nodes: set<Link>)
    requires k <= |s| && e in nodes && AllIn(s, nodes)
    ensures AllIn(InsertAt(s, k, e), nodes)
  {
  }

  lemma RemoveWithin(s: seq<Link>, k: nat, nodes: set<Link>)
    requires k < |s| && AllIn(s, nodes)
    ensures AllIn(RemoveAt(s, k), nodes)
  {
  }

  lemma JoinWithin(p: Pair, nodes: set<Link>)
    requires Within(p, nodes) && |p.x| > 0 && |p.y| > 0
    ensures AllIn(p.x + p.y[1..], nodes) && AllIn([p.y[0]], nodes)
    ensures AllIn(p.y[0 := p.x[0]], nodes) && AllIn(p.x[0 := p.y[0]], nodes)
  {
  }

  lemma EffectWithin(p: Pair, op: Op, nodes: set<Link>)
    requires Legal(p, op) && Within(p, nodes) && (op.Inserts() ==> op.elm in nodes)
    ensures Within(Effect(p, op), nodes)
  {
    if op.Inserts() {
      InsertWithin(p.x, Place(p, op), op.elm, nodes);
    } else if op.Removes() {
      RemoveWithin(p.x, Place(p, op), nodes);
    } else {
      JoinWithin(p, nodes);
    }
  }

  // ---------------------------------------------------------------- STAILQ

  ghost predicate Stailqs(p: Pair, h1: Link, h2: Link)
    reads p.x, p.y
  {
    Stq.Stailq(p.x) && p.x[0] == h1 && Stq.Stailq(p.y) && p.y[0] == h2 && Disjoint(p.x, p.y)
  }

  method StailqInsert(h1: Link, op: Op, ghost p: Pair)
    requires Stq.Stailq(p.x) && p.x[0] == h1 && Legal(p, op) && op.Inserts() && !op.InsertBefore?
    modifies p.x, op.elm
    ensures Stq.Stailq(InsertAt(p.x, Place(p, op), op.elm))
  {
    match op {
      case InsertHead(elm) => Stq.InsertHead(h1, elm, p.x);
      case InsertTail(elm) =>
        Stq.InsertTail(h1, elm, p.x);
        assert InsertAt(p.x, |p.x|, elm) == p.x + [elm];
      case InsertAfter(at, elm) => Stq.InsertAfter(h1, at, elm, p.x, IndexOf(p.x, at));
    }
  }

  method StailqRemove(h1: Link, op: Op, ghost p: Pair)
    requires Stq.Stailq(p.x) && p.x[0] == h1 && Legal(p, op) && op.Removes()
    modifies p.x
    ensures Stq.Stailq(RemoveAt(p.x, Place(p, op)))
  {
    match op {
      case RemoveHead => Stq.RemoveHead(h1, p.x);
      case RemoveAfter(at) => Stq.RemoveAfter(h1, at, p.x, IndexOf(p.x, at));
      case Remove(elm) => Stq.Remove(h1, elm, p.x, IndexOf(p.x, elm));
    }
  }

  method StailqDo(h1: Link, h2: Link, op: Op, ghost p: Pair)
    requires Stailqs(p, h1, h2) && Legal(p, op) && !op.InsertBefore?
    modifies p.x, p.y, if op.Inserts() then {op.elm} else {}
    ensures Stailqs(Effect(p, op), h1, h2)
  {
    EffectSeparate(p, op);
    if op.Inserts() {
      StailqInsert(h1, op, p);
    } else if op.Removes() {
      StailqRemove(h1, op, p);
    } else if op.Concat? {
      Stq.Concat(h1, h2, p.x, p.y);
    } else {
      Stq.Swap(h1, h2, p.x, p.y);
    }
  }

  method StailqTurn(h1: Link, h2: Link, step: Step, ghost p: Pair, ghost nodes: set<Link>)
    requires Stailqs(p, h1, h2) && Within(p, nodes) && Legal(Side(p, step.other), step.op)
    requires !step.op.InsertBefore? && (step.op.Inserts() ==> step.op.elm in nodes)
    modifies nodes
    ensures Stailqs(Apply(p, step), h1, h2) && Within(Apply(p, step), nodes)
  {
    EffectWithin(Side(p, step.other), step.op, nodes);
    if step.other {
      StailqDo(h2, h1, step.op, Side(p, true));
    } else {
      StailqDo(h1, h2, step.op, p);
    }
  }

  /** Every legal run of STAILQ operations on two new queues. Nothing but their heads and the
      elements inserted is touched, so any other queue is as it was. */
  method StailqRun(h1: Link, h2: Link, steps: seq<Step>) returns (ghost states: seq<Pair>)
    requires h1 != h2 && LegalRun(Pair([h1], [h2]), steps)
    requires forall i :: 0 <= i < |steps| ==> !steps[i].op.InsertBefore?
    modifies Touched(h1, h2, steps)
    ensures Stailqs(ApplyAll(Pair([h1], [h2]), steps), h1, h2)
    ensures Chain(Pair([h1], [h2]), steps, states) && states[|steps|] == ApplyAll(Pair([h1], [h2]), steps)
  {
    Stq.Init(h1);
    Stq.Init(h2);
    ghost var p, nodes := Pair([h1], [h2]), Touched(h1, h2, steps);
    for i := 0 to |steps|
      invariant Stailqs(p, h1, h2) && Within(p, nodes)
      invariant LegalRun(p, steps[i..]) && ApplyAll(p, steps[i..]) == ApplyAll(Pair([h1], [h2]), steps)
    {
      var step := steps[i];
      assert steps[i..][0] == step && steps[i..][1..] == steps[i + 1..];
      StailqTurn(h1, h2, step, p, nodes);
      p := Apply(p, step);
    }
    states := Chained(Pair([h1], [h2]), steps);
  }

  // ----------------------------------------------------------------- TAILQ

  ghost predicate Tailqs(p: Pair, h1: Link, h2: Link)
    reads p.x, p.y
  {
    Tq.Tailq(p.x) && p.x[0] == h1 && Tq.Tailq(p.y) && p.y[0] == h2 && Disjoint(p.x, p.y)
  }

  method TailqInsert(h1: Link, op: Op, ghost p: Pair)
    requires Tq.Tailq(p.x) && p.x[0] == h1 && Legal(p, op) && op.Inserts()
    modifies p.x, op.elm
    ensures Tq.Tailq(InsertAt(p.x, Place(p, op), op.elm))
  {
    match op {
      case InsertHead(elm) => Tq.InsertHead(h1, elm, p.x);
      case InsertTail(elm) =>
        Tq.InsertTail(h1, elm, p.x);
        assert InsertAt(p.x, |p.x|, elm) == p.x + [elm];
      case InsertAfter(at, elm) => Tq.InsertAfter(h1, at, elm, p.x, IndexOf(p.x, at));
      case InsertBefore(at, elm) => Tq.InsertBefore(at, elm, p.x, IndexOf(p.x, at));
    }
  }

  method TailqDo(h1: Link, h2: Link, op: Op, ghost p: Pair)
    requires Tailqs(p, h1, h2) && Legal(p, op) && !op.RemoveHead? && !op.RemoveAfter?
    modifies p.x, p.y, if op.Inserts() then {op.elm} else {}
    ensures Tailqs(Effect(p, op), h1, h2)
  {
    EffectSeparate(p, op);
    if op.Inserts() {
      TailqInsert(h1, op, p);
    } else if op.Remove? {
      Tq.Remove(h1, op.elm, p.x, IndexOf(p.x, op.elm));
    } else if op.Concat? {
      Tq.Concat(h1, h2, p.x, p.y);
    } else {
      Tq.Swap(h1, h2, p.x, p.y);
    }
  }

  method TailqTurn(h1: Link, h2: Link, step: Step, ghost p: Pair, ghost nodes: set<Link>)
    requires Tailqs(p, h1, h2) && Within(p, nodes) && Legal(Side(p, step.other), step.op)
    requires !step.op.RemoveHead? && !step.op.RemoveAfter? && (step.op.Inserts() ==> step.op.elm in nodes)
    modifies nodes
    ensures Tailqs(Apply(p, step), h1, h2) && Within(Apply(p, step), nodes)
  {
    EffectWithin(Side(p, step.other), step.op, nodes);
    if step.other {
      TailqDo(h2, h1, step.op, Side(p, true));
    } else {
      TailqDo(h1, h2, step.op, p);
    }
  }

  /** Every legal run of TAILQ operations on two new queues. Nothing but their heads and the
      elements inserted is touched, so any other queue is as it was. */
  method TailqRun(h1: Link, h2: Link, steps: seq<Step>) returns (ghost states: seq<Pair>)
    requires h1 != h2 && LegalRun(Pair([h1], [h2]), steps)
    requires forall i :: 0 <= i < |steps| ==> !steps[i].op.RemoveHead? && !steps[i].op.RemoveAfter?
    modifies Touched(h1, h2, steps)
    ensures Tailqs(ApplyAll(Pair([h1], [h2]), steps), h1, h2)
    ensures Chain(Pair([h1], [h2]), steps, states) && states[|steps|] == ApplyAll(Pair([h1], [h2]), steps)
  {
    Tq.Init(h1);
    Tq.Init(h2);
    ghost var p, nodes := Pair([h1], [h2]), Touched(h1, h2, steps);
    for i := 0 to |steps|
      invariant Tailqs(p, h1, h2) && Within(p, nodes)
      invariant LegalRun(p, steps[i..]) && ApplyAll(p, steps[i..]) == ApplyAll(Pair([h1], [h2]), steps)
    {
      var step := steps[i];
      assert steps[i..][0] == step && steps[i..][1..] == steps[i + 1..];
      TailqTurn(h1, h2, step, p, nodes);
      p := Apply(p, step);
    }
    states := Chained(Pair([h1], [h2]), steps);
  }
}
