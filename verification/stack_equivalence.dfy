/**
 The two stacks are interchangeable: reading the linked chain from its head
 gives the array's items from the top down, and under that correspondence
 every operation of the linked stack answers what the array stack answers.
 */
module StackEquivalence {
  import opened Wrappers
  import A = ArrayStack
  import L = LinkedListStack

  /* ---------------------------------------------------------------------- */
  /* The abstraction                                                         */
  /* ---------------------------------------------------------------------- */

  /** The items of s in the opposite order. */
  function Reverse<T>(s: seq<T>): (r: seq<T>)
    ensures |r| == |s|
    ensures forall i :: 0 <= i < |s| ==> r[i] == s[|s| - 1 - i]
  {
    if |s| == 0 then [] else Reverse(s[1..]) + [s[0]]
  }

  /** Reversing twice gives back the original order. */
  lemma ReverseReverse<T>(s: seq<T>)
    ensures Reverse(Reverse(s)) == s
  {
  }

  /** The array stack a linked stack stands for: its chain read from the end back to the head. */
  function Abs<T>(s: L.Stack<T>): (a: A.Stack<T>)
    ensures Reverse(a.items) == L.Values(s.head)
    ensures |a.items| == |L.Values(s.head)|
  {
    ReverseReverse(L.Values(s.head));
    A.Stack(Reverse(L.Values(s.head)))
  }

  /* ---------------------------------------------------------------------- */
  /* One operation at a time                                                 */
  /* ---------------------------------------------------------------------- */

  /** Pushing onto the chain is appending to the array; the counter stays in step. */
  lemma PushRefines<T>(s: L.Stack<T>, item: T)
    requires L.Valid(s)
    ensures L.Valid(L.Push(s, item))
    ensures Abs(L.Push(s, item)) == A.Push(Abs(s), item)
  {
  }

  /** Popping the chain's head is popping the array's last item: same answer, same remaining stack. */
  lemma PopRefines<T>(s: L.Stack<T>)
    requires L.Valid(s)
    ensures L.Valid(L.Pop(s).0)
    ensures L.Pop(s).1 == A.Pop(Abs(s)).1
    ensures Abs(L.Pop(s).0) == A.Pop(Abs(s)).0
  {
  }

  /** Peek, size and emptiness agree. */
  lemma QueriesRefine<T>(s: L.Stack<T>)
    requires L.Valid(s)
    ensures L.Peek(s) == A.Peek(Abs(s))
    ensures L.Size(s) == A.Size(Abs(s))
    ensures L.IsEmpty(s) == A.IsEmpty(Abs(s))
  {
  }

  /* ---------------------------------------------------------------------- */
  /* Whole runs of operations                                                */
  /* ---------------------------------------------------------------------- */

  /** The operations both stacks offer. */
  datatype Op<T> = PushOp(item: T) | PopOp | PeekOp | IsEmptyOp | SizeOp

  /** What a caller sees from one operation; a push shows nothing. */
  datatype Observation<T> = Done | Item(item: Option<T>) | Flag(flag: bool) | Count(count: int)

  function StepArray<T>(s: A.Stack<T>, op: Op<T>): (A.Stack<T>, Observation<T>)
  {
    match op
    case PushOp(x) => (A.Push(s, x), Done)
    case PopOp => (A.Pop(s).0, Item(A.Pop(s).1))
    case PeekOp => (s, Item(A.Peek(s)))
    case IsEmptyOp => (s, Flag(A.IsEmpty(s)))
    case SizeOp => (s, Count(A.Size(s)))
  }

  function StepLinked<T>(s: L.Stack<T>, op: Op<T>): (L.Stack<T>, Observation<T>)
  {
    match op
    case PushOp(x) => (L.Push(s, x), Done)
    case PopOp => (L.Pop(s).0, Item(L.Pop(s).1))
    case PeekOp => (s, Item(L.Peek(s)))
    case IsEmptyOp => (s, Flag(L.IsEmpty(s)))
    case SizeOp => (s, Count(L.Size(s)))
  }

  /** Applies the operations in order to the array stack, collecting one observation each. */
  function RunArray<T>(s: A.Stack<T>, ops: seq<Op<T>>): (r: (A.Stack<T>, seq<Observation<T>>))
    ensures |r.1| == |ops|
    decreases |ops|
  {
    if |ops| == 0 then
      (s, [])
    else
      var (s1, o) := StepArray(s, ops[0]);
      var (s2, os) := RunArray(s1, ops[1..]);
      (s2, [o] + os)
  }

  /** Applies the operations in order to the linked stack, collecting one observation each. */
  function RunLinked<T>(s: L.Stack<T>, ops: seq<Op<T>>): (r: (L.Stack<T>, seq<Observation<T>>))
    ensures |r.1| == |ops|
    decreases |ops|
  {
    if |ops| == 0 then
      (s, [])
    else
      var (s1, o) := StepLinked(s, ops[0]);
      var (s2, os) := RunLinked(s1, ops[1..]);
      (s2, [o] + os)
  }

  /** One step of either stack, from corresponding states, observes the same and reaches corresponding states. */
  lemma StepRefines<T>(s: L.Stack<T>, op: Op<T>)
    requires L.Valid(s)
    ensures L.Valid(StepLinked(s, op).0)
    ensures StepLinked(s, op).1 == StepArray(Abs(s), op).1
    ensures Abs(StepLinked(s, op).0) == StepArray(Abs(s), op).0
  {
    match op
    case PushOp(x) => PushRefines(s, x);
    case PopOp => PopRefines(s);
    case PeekOp => QueriesRefine(s);
    case IsEmptyOp => QueriesRefine(s);
    case SizeOp => QueriesRefine(s);
  }

  /**
   For any sequence of operations, the linked stack and the array stack it
   stands for observe exactly the same things at every step, end in
   corresponding states, and the counter never drifts from the chain.
   */
  lemma {:induction false} RunsAgree<T>(s: L.Stack<T>, ops: seq<Op<T>>)
    requires L.Valid(s)
    ensures L.Valid(RunLinked(s, ops).0)
    ensures RunLinked(s, ops).1 == RunArray(Abs(s), ops).1
    ensures Abs(RunLinked(s, ops).0) == RunArray(Abs(s), ops).0
    decreases |ops|
  {
    if |ops| > 0 {
      StepRefines(s, ops[0]);
      RunsAgree(StepLinked(s, ops[0]).0, ops[1..]);
    }
  }

  /** From a fresh start the two stacks can never be told apart, and the counter always matches the chain. */
  lemma FreshStacksAgree<T>(ops: seq<Op<T>>)
    ensures L.Valid(RunLinked(L.Empty<T>(), ops).0)
    ensures RunLinked(L.Empty<T>(), ops).1 == RunArray(A.Empty<T>(), ops).1
  {
    assert Abs(L.Empty<T>()) == A.Empty<T>();
    RunsAgree(L.Empty<T>(), ops);
  }

  /* ---------------------------------------------------------------------- */
  /* Last in, first out                                                      */
  /* ---------------------------------------------------------------------- */

  function PushOps<T>(ps: seq<T>): (ops: seq<Op<T>>)
  {
    seq(|ps|, i requires 0 <= i < |ps| => PushOp(ps[i]))
  }

  function PopOps<T>(n: nat): (ops: seq<Op<T>>)
  {
    seq(n, _ => PopOp)
  }

  /** The observations of popping the items ps off, last pushed first. */
  function PoppedInReverse<T>(ps: seq<T>): seq<Observation<T>>
  {
    seq(|ps|, i requires 0 <= i < |ps| => Item(Some(ps[|ps| - 1 - i])))
  }

  /** Pushing ps puts its items on top of the existing ones, first pushed lowest. */
  lemma {:induction false} PushesAppend<T>(s: A.Stack<T>, ps: seq<T>)
    ensures RunArray(s, PushOps(ps)).0 == A.Stack(s.items + ps)
    ensures RunArray(s, PushOps(ps)).1 == seq(|ps|, _ => Done)
    decreases |ps|
  {
    if |ps| == 0 {
      assert s.items + ps == s.items;
    } else {
      assert PushOps(ps)[1..] == PushOps(ps[1..]);
      PushesAppend(A.Push(s, ps[0]), ps[1..]);
      assert s.items + [ps[0]] + ps[1..] == s.items + ps;
    }
  }

  /** Popping |ps| times from items ending in ps returns ps backwards and leaves what was below. */
  lemma {:induction false} PopsReverse<T>(base: seq<T>, ps: seq<T>)
    ensures RunArray(A.Stack(base + ps), PopOps(|ps|)) == (A.Stack(base), PoppedInReverse(ps))
    decreases |ps|
  {
    if |ps| == 0 {
      assert base + ps == base;
    } else {
      var n := |ps|;
      var init := ps[..n - 1];
      assert (base + ps)[..|base + ps| - 1] == base + init;
      assert A.Pop(A.Stack(base + ps)) == (A.Stack(base + init), Some(ps[n - 1]));
      assert PopOps<T>(n)[1..] == PopOps<T>(n - 1);
      PopsReverse(base, init);
      assert [Item(Some(ps[n - 1]))] + PoppedInReverse(init) == PoppedInReverse(ps);
    }
  }

  /**
   With no pops in between, pushing p1..pn and then popping n times returns
   pn, ..., p1 and restores the stack as it was.
   */
  lemma ArrayLastInFirstOut<T>(s: A.Stack<T>, ps: seq<T>)
    ensures RunArray(RunArray(s, PushOps(ps)).0, PopOps(|ps|)) == (s, PoppedInReverse(ps))
  {
    PushesAppend(s, ps);
    PopsReverse(s.items, ps);
  }

  /** The same law for the linked stack, carried over through the equivalence. */
  lemma LinkedLastInFirstOut<T>(s: L.Stack<T>, ps: seq<T>)
    requires L.Valid(s)
    ensures var t := RunLinked(RunLinked(s, PushOps(ps)).0, PopOps(|ps|));
            && t.1 == PoppedInReverse(ps)
            && L.Values(t.0.head) == L.Values(s.head)
            && t.0.length == s.length
            && L.Valid(t.0)
  {
    var s1 := RunLinked(s, PushOps(ps)).0;
    RunsAgree(s, PushOps(ps));
    RunsAgree(s1, PopOps(|ps|));
    ArrayLastInFirstOut(Abs(s), ps);
    var t := RunLinked(s1, PopOps(|ps|));
    assert Abs(t.0) == Abs(s);
    assert L.Values(t.0.head) == Reverse(Abs(t.0).items);
  }
}
