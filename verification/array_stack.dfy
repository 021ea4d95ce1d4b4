/**
 The array-backed stack: a sequence of items whose last element is the top.
 Push appends, pop removes the last item, and an empty stack answers `None`
 where JavaScript's array answers `undefined`.
 */
module ArrayStack {
  import opened Wrappers

  datatype Stack<T> = Stack(items: seq<T>)

  /** A freshly constructed stack holds no items. */
  function Empty<T>(): (s: Stack<T>)
    ensures IsEmpty(s) && Peek(s) == None
  {
    Stack([])
  }

  /** The number of items. */
  function Size<T>(s: Stack<T>): (n: nat)
    ensures n == 0 <==> s == Stack([])
  {
    |s.items|
  }

  /** True exactly when there are no items. */
  function IsEmpty<T>(s: Stack<T>): (b: bool)
    ensures b <==> Size(s) == 0
    ensures b <==> s == Stack([])
  {
    |s.items| == 0
  }

  /** The top item without removing it, or `None` when empty. */
  function Peek<T>(s: Stack<T>): (r: Option<T>)
    ensures r.None? <==> IsEmpty(s)
    ensures r.Some? ==> r.value == s.items[Size(s) - 1]
  {
    if |s.items| == 0 then None else Some(s.items[|s.items| - 1])
  }

  /**
   Removes the top item and returns it. On an empty stack it returns `None`
   and leaves the stack as it was; otherwise it returns what `Peek` shows,
   and pushing that item back restores the stack.
   */
  function Pop<T>(s: Stack<T>): (r: (Stack<T>, Option<T>))
    ensures IsEmpty(s) ==> r == (s, None)
    ensures r.1 == Peek(s)
    ensures !IsEmpty(s) ==> Size(r.0) == Size(s) - 1 && r.0.items + [r.1.value] == s.items
  {
    if |s.items| == 0 then
      (s, None)
    else
      (Stack(s.items[..|s.items| - 1]), Some(s.items[|s.items| - 1]))
  }

  /**
   Adds an item on top. The stack grows by exactly one, the items below are
   untouched, and popping right away gives back the item and the old stack.
   */
  function Push<T>(s: Stack<T>, item: T): (r: Stack<T>)
    ensures Size(r) == Size(s) + 1
    ensures r.items[..Size(s)] == s.items
    ensures Peek(r) == Some(item)
    ensures Pop(r) == (s, Some(item))
  {
    assert (s.items + [item])[..|s.items|] == s.items;
    Stack(s.items + [item])
  }
}
