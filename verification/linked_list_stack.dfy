/**
 The linked-list stack: a singly linked chain of nodes whose head is the top,
 plus a separately maintained `length` counter. The chain is an inductive
 list (`Null` is the end of the chain); the counter is an unconstrained
 integer, and `Valid` states that it agrees with the chain.
 */
module LinkedListStack {
  import opened Wrappers

  /** A chain of stack nodes; `Null` is the absent node. */
  datatype Node<T> = Null | StackNode(data: T, next: Node<T>)

  datatype Stack<T> = Stack(head: Node<T>, length: int)

  /** The items of a chain, read from the head to the end. */
  function Values<T>(n: Node<T>): seq<T>
  {
    match n
    case Null => []
    case StackNode(d, next) => [d] + Values(next)
  }

  /** The number of nodes reachable from n; it is the number of items the chain holds. */
  function Count<T>(n: Node<T>): (c: nat)
    ensures c == |Values(n)|
    ensures c == 0 <==> n.Null?
  {
    match n
    case Null => 0
    case StackNode(_, next) => 1 + Count(next)
  }

  /** The counter agrees with the chain. */
  ghost predicate Valid<T>(s: Stack<T>)
  {
    s.length == Count(s.head)
  }

  /** A freshly constructed stack: no head and a zero counter. */
  function Empty<T>(): (s: Stack<T>)
    ensures Valid(s) && Values(s.head) == []
  {
    Stack(Null, 0)
  }

  /** The counter, read without walking the chain. */
  function Size<T>(s: Stack<T>): (n: int)
    ensures Valid(s) ==> n == |Values(s.head)|
  {
    s.length
  }

  /** True exactly when there is no head node; for a valid stack, when the size is zero. */
  function IsEmpty<T>(s: Stack<T>): (b: bool)
    ensures b <==> Values(s.head) == []
    ensures Valid(s) ==> (b <==> Size(s) == 0)
  {
    if s.head.Null? then true else false
  }

  /** The data of the head node, or `None` when there is none. */
  function Peek<T>(s: Stack<T>): (r: Option<T>)
    ensures r.None? <==> IsEmpty(s)
    ensures r.Some? ==> r.value == Values(s.head)[0]
  {
    if s.head.Null? then None else Some(s.head.data)
  }

  /**
   Links a new node in front of the head and counts it. The new item is
   first in the chain, the old chain follows unchanged, and a valid stack
   stays valid.
   */
  function Push<T>(s: Stack<T>, item: T): (r: Stack<T>)
    ensures Values(r.head) == [item] + Values(s.head)
    ensures r.length == s.length + 1
    ensures Valid(s) ==> Valid(r)
  {
    var newNode := StackNode(item, if s.head.StackNode? then s.head else Null);
    Stack(newNode, s.length + 1)
  }

  /**
   Detaches the head node and returns its data. With no head it returns
   `None` and changes nothing, the counter included; otherwise the chain
   loses exactly its first item, the counter drops by one, and a valid
   stack stays valid.
   */
  function Pop<T>(s: Stack<T>): (r: (Stack<T>, Option<T>))
    ensures IsEmpty(s) ==> r == (s, None)
    ensures r.1 == Peek(s)
    ensures !IsEmpty(s) ==> Values(r.0.head) == Values(s.head)[1..] && r.0.length == s.length - 1
    ensures Valid(s) ==> Valid(r.0)
  {
    if s.head.Null? then
      (s, None)
    else
      var removed := s.head;
      (Stack(removed.next, s.length - 1), Some(removed.data))
  }

  /**
   A fresh stack is empty with size 0 and stops being empty after pushing 1.
   Pushing 1, 2 and 3 shows 3 on top with size 3; popping returns 3 and leaves
   size 2, then 2 and 1 come off and the stack is empty.
   */
  lemma PushThreeExample()
    ensures IsEmpty(Empty<int>()) && Size(Empty<int>()) == 0 && !IsEmpty(Push(Empty(), 1))
    ensures var s := Push(Push(Push(Empty(), 1), 2), 3);
            && Peek(s) == Some(3) && Size(s) == 3
            && Pop(s).1 == Some(3) && Size(Pop(s).0) == 2
            && Pop(Pop(s).0).1 == Some(2)
            && Pop(Pop(Pop(s).0).0).1 == Some(1)
            && IsEmpty(Pop(Pop(Pop(s).0).0).0)
  {
  }
}
