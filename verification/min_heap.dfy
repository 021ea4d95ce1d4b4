/**
 A binary min-heap stored as an implicit tree in a flat sequence.

 Slot 0 is a dead placeholder (`null` in the JavaScript class), so the stored
 numbers occupy slots 1..n and the tree arithmetic needs no offset: the parent
 of slot i is i / 2, its children are 2i and 2i + 1. The model keeps the
 placeholder as an ordinary integer that no operation reads and, as proved
 below, no operation writes.
 */
module MinHeap {
  import opened Wrappers

  /* ---------------------------------------------------------------------- */
  /* Index arithmetic                                                        */
  /* ---------------------------------------------------------------------- */

  /** Slot of the parent of slot i: the floor of i / 2. */
  function Parent(i: nat): (p: nat)
    ensures 2 * p <= i <= 2 * p + 1
    ensures i >= 2 ==> 1 <= p < i
  {
    i / 2
  }

  /** Slot of the left child of slot i. */
  function LeftChild(i: nat): (c: nat)
    ensures Parent(c) == i
    ensures i >= 1 ==> i < c
  {
    i * 2
  }

  /** Slot of the right child of slot i; it sits just after the left child. */
  function RightChild(i: nat): (c: nat)
    ensures Parent(c) == i
    ensures c == LeftChild(i) + 1
  {
    i * 2 + 1
  }

  /* ---------------------------------------------------------------------- */
  /* State and invariants                                                    */
  /* ---------------------------------------------------------------------- */

  /** The value kept in the dead slot 0; nothing ever reads it. */
  const Placeholder: int := 0

  /** The stored numbers: everything after the placeholder. */
  function Elements(h: seq<int>): multiset<int>
    requires |h| >= 1
  {
    multiset(h[1..])
  }

  /** The min-heap order: no slot holds less than its parent. */
  ghost predicate IsHeap(h: seq<int>)
  {
    && |h| >= 1
    && forall k :: 2 <= k < |h| ==> h[Parent(k)] <= h[k]
  }

  /**
   The order that holds while slot c is being sifted up: every slot except c
   is in order with its parent, and the parent of c is no larger than the
   children of c (so that moving c's parent down into c keeps the order).
   */
  ghost predicate HeapExceptAt(h: seq<int>, c: nat)
  {
    && |h| >= 1
    && (forall k :: 2 <= k < |h| && k != c ==> h[Parent(k)] <= h[k])
    && (c >= 2 ==> forall k :: 2 <= k < |h| && Parent(k) == c ==> h[Parent(c)] <= h[k])
  }

  /** A freshly constructed heap: only the placeholder. */
  function Empty(): (h: seq<int>)
    ensures |h| == 1 && Elements(h) == multiset{}
    ensures IsHeap(h)
  {
    [Placeholder]
  }

  function Min(x: int, y: int): int
  {
    if x <= y then x else y
  }

  /* ---------------------------------------------------------------------- */
  /* The minimum sits at the root                                            */
  /* ---------------------------------------------------------------------- */

  /** In a heap, the root is no larger than any occupied slot. */
  lemma {:induction false} RootIsMinimum(h: seq<int>, k: nat)
    requires IsHeap(h)
    requires 1 <= k < |h|
    ensures h[1] <= h[k]
    decreases k
  {
    if k >= 2 {
      RootIsMinimum(h, Parent(k));
    }
  }

  /** In a non-empty heap, the root is no larger than any stored number. */
  lemma RootBoundsElements(h: seq<int>)
    requires |h| >= 2
    ensures h[1] in Elements(h)
    ensures IsHeap(h) ==> forall x :: x in Elements(h) ==> h[1] <= x
  {
    assert h[1..][0] == h[1];
    if IsHeap(h) {
      forall x | x in Elements(h)
        ensures h[1] <= x
      {
        var j :| 0 <= j < |h[1..]| && h[1..][j] == x;
        RootIsMinimum(h, j + 1);
      }
    }
  }

  /**
   The number at the top of the heap, or `None` when only the placeholder is
   present. Reading it changes nothing (the model is a pure function). On a
   heap, it is the least stored number.
   */
  function Top(h: seq<int>): (r: Option<int>)
    requires |h| >= 1
    ensures r.None? <==> Elements(h) == multiset{}
    ensures r.Some? ==> r.value in Elements(h)
    ensures r.Some? && IsHeap(h) ==> forall x :: x in Elements(h) ==> r.value <= x
  {
    if |h| == 1 then
      None
    else
      RootBoundsElements(h);
      Some(h[1])
  }

  /* ---------------------------------------------------------------------- */
  /* Sift-up                                                                 */
  /* ---------------------------------------------------------------------- */

  /** Exchanges the contents of slots i and j, as the destructuring swap does. */
  function Swap(h: seq<int>, i: nat, j: nat): (r: seq<int>)
    requires i < |h| && j < |h|
    ensures |r| == |h|
    ensures r[i] == h[j] && r[j] == h[i]
    ensures forall k :: 0 <= k < |h| && k != i && k != j ==> r[k] == h[k]
  {
    h[i := h[j]][j := h[i]]
  }

  /** A swap only permutes the contents. */
  lemma SwapPermutes(h: seq<int>, i: nat, j: nat)
    requires i < |h| && j < |h|
    ensures multiset(Swap(h, i, j)) == multiset(h)
  {
  }

  /** One exchange of the sift-up keeps the "in order except at the moving slot" invariant. */
  lemma SwapUpKeepsOrder(h: seq<int>, c: nat)
    requires 2 <= c < |h|
    requires h[c] < h[Parent(c)]
    ensures HeapExceptAt(h, c) ==> HeapExceptAt(Swap(h, c, Parent(c)), Parent(c))
  {
  }

  /** When the sift-up stops, the whole sequence is in heap order. */
  lemma StopKeepsOrder(h: seq<int>, c: nat)
    requires 1 <= c < |h|
    requires Parent(c) == 0 || h[Parent(c)] <= h[c]
    ensures HeapExceptAt(h, c) ==> IsHeap(h)
  {
  }

  /**
   Moves the number at slot c toward the root: while it has a parent (slot at
   least 1) and is strictly smaller than it, the two are exchanged. Each
   recursive call is one iteration of the `while` loop of `insert`.
   */
  function SiftUp(h: seq<int>, c: nat): (r: seq<int>)
    requires 1 <= c < |h|
    ensures |r| == |h| && r[0] == h[0]
    ensures HeapExceptAt(h, c) ==> IsHeap(r)
    decreases c
  {
    var p := Parent(c);
    if p >= 1 && h[c] < h[p] then
      SwapUpKeepsOrder(h, c);
      SwapPermutes(h, c, p);
      SiftUp(Swap(h, c, p), p)
    else
      StopKeepsOrder(h, c);
      h
  }

  /** Sift-up only exchanges slots, so the contents are a permutation of what they were. */
  lemma {:induction false} SiftUpPermutes(h: seq<int>, c: nat)
    requires 1 <= c < |h|
    ensures multiset(SiftUp(h, c)) == multiset(h)
    decreases c
  {
    var p := Parent(c);
    if p >= 1 && h[c] < h[p] {
      SwapPermutes(h, c, p);
      SiftUpPermutes(Swap(h, c, p), p);
    }
  }

  /** Equal whole multisets and equal placeholders give equal stored multisets. */
  lemma ElementsOfPermutation(h: seq<int>, r: seq<int>)
    requires |h| >= 1 && |r| >= 1
    requires r[0] == h[0]
    requires multiset(r) == multiset(h)
    ensures Elements(r) == Elements(h)
  {
    assert h == [h[0]] + h[1..];
    assert r == [r[0]] + r[1..];
    assert multiset(h) == multiset{h[0]} + Elements(h);
    assert multiset(r) == multiset{r[0]} + Elements(r);
    assert Elements(h) == multiset(h) - multiset{h[0]};
    assert Elements(r) == multiset(r) - multiset{r[0]};
  }

  /**
   Inserts `num`: an empty heap simply gains it in slot 1; otherwise it is
   appended at the next free slot and sifted up. Exactly one number is added,
   the placeholder is untouched, and a heap stays a heap.
   */
  function Insert(h: seq<int>, num: int): (r: seq<int>)
    requires |h| >= 1
    ensures |r| == |h| + 1 && r[0] == h[0]
    ensures Elements(r) == Elements(h) + multiset{num}
    ensures |h| == 1 ==> r == [h[0], num]
    ensures IsHeap(h) ==> IsHeap(r)
  {
    var a := h + [num];
    assert a[1..] == h[1..] + [num];
    if |h| == 1 then
      a
    else
      var r := SiftUp(a, |h|);
      SiftUpPermutes(a, |h|);
      ElementsOfPermutation(a, r);
      assert IsHeap(h) ==> HeapExceptAt(a, |h|);
      r
  }

  /** After inserting into a heap, the top is the smaller of the old top and the new number. */
  lemma TopAfterInsert(h: seq<int>, num: int)
    requires IsHeap(h)
    ensures Top(Insert(h, num)) == Some(if |h| == 1 then num else Min(h[1], num))
  {
    var r := Insert(h, num);
    RootBoundsElements(r);
    if |h| >= 2 {
      RootBoundsElements(h);
      assert h[1] in Elements(r);
      assert num in Elements(r);
      assert r[1] == num || r[1] in Elements(h);
    }
  }

  /* ---------------------------------------------------------------------- */
  /* The imperative loop                                                     */
  /* ---------------------------------------------------------------------- */

  /** Floor of the base-2 logarithm (0 for 0 and 1). */
  function Log2(n: nat): nat
  {
    if n <= 1 then 0 else 1 + Log2(n / 2)
  }

  /**
   The insertion as the JavaScript class performs it: append, then a while loop that
   exchanges the new number with its parent. The loop is tested with the
   parent bound first; the JavaScript guard compares first, but the comparison with
   the placeholder only happens when the bound is false, so the outcome is the
   same. The ghost count of exchanges is at most the floor of log2 of the new
   number's slot, and the loop ends because the current slot halves each time.
   */
  method InsertLoop(h: seq<int>, num: int) returns (r: seq<int>, ghost swaps: nat)
    requires |h| >= 1
    ensures r == Insert(h, num)
    ensures swaps <= Log2(|h|)
  {
    swaps := 0;
    if |h| == 1 {
      r := h + [num];
      return;
    }
    var current := |h|;
    var parent := Parent(current);
    r := h + [num];
    while parent >= 1 && r[current] < r[parent]
      invariant |r| == |h| + 1
      invariant 1 <= current < |r| && parent == Parent(current)
      invariant SiftUp(r, current) == SiftUp(h + [num], |h|)
      invariant swaps + Log2(current) == Log2(|h|)
      decreases current
    {
      r := Swap(r, current, parent);
      current := parent;
      parent := Parent(current);
      swaps := swaps + 1;
    }
  }

  /* ---------------------------------------------------------------------- */
  /* Sequences of insertions                                                 */
  /* ---------------------------------------------------------------------- */

  /** Inserts the numbers one after another, first to last. */
  function InsertAll(h: seq<int>, nums: seq<int>): (r: seq<int>)
    requires |h| >= 1
    ensures |r| == |h| + |nums| && r[0] == h[0]
    ensures Elements(r) == Elements(h) + multiset(nums)
    ensures IsHeap(h) ==> IsHeap(r)
    decreases |nums|
  {
    if |nums| == 0 then
      h
    else
      assert nums == [nums[0]] + nums[1..];
      InsertAll(Insert(h, nums[0]), nums[1..])
  }

  /**
   Starting from a fresh heap, any sequence of insertions leaves a heap whose
   stored numbers are exactly the inserted ones, with no gaps, and whose top is
   the least of them (or `None` if nothing was inserted).
   */
  lemma BuildFromEmpty(nums: seq<int>)
    ensures IsHeap(InsertAll(Empty(), nums))
    ensures |InsertAll(Empty(), nums)| == |nums| + 1
    ensures Elements(InsertAll(Empty(), nums)) == multiset(nums)
    ensures |nums| == 0 <==> Top(InsertAll(Empty(), nums)) == None
    ensures Top(InsertAll(Empty(), nums)).Some? ==>
              var m := Top(InsertAll(Empty(), nums)).value;
              m in nums && forall x :: x in nums ==> m <= x
  {
    var h := InsertAll(Empty(), nums);
    assert Elements(h) == multiset(nums);
    var top := Top(h);
    if top.Some? {
      assert top.value in multiset(nums);
      forall x | x in nums
        ensures top.value <= x
      {
        assert x in Elements(h);
      }
    }
  }

  /* ---------------------------------------------------------------------- */
  /* Worked examples                                                         */
  /* ---------------------------------------------------------------------- */

  /**
   Sifting up the 1 appended to the seeded heap 2, 5, 8, 10, 12, 15, 20: it
   starts in slot 8 and rises through slots 4, 2 and 1, pushing 10, 5 and 2
   down one level each.
   */
  lemma SeededSiftUpExample()
    ensures SiftUp([Placeholder, 2, 5, 8, 10, 12, 15, 20, 1], 8)
         == [Placeholder, 1, 2, 8, 5, 12, 15, 20, 10]
  {
    var a := [Placeholder, 2, 5, 8, 10, 12, 15, 20, 1];
    var b := a[8 := 10][4 := 1];
    var c := b[4 := 5][2 := 1];
    var d := c[2 := 2][1 := 1];
    assert SiftUp(a, 8) == SiftUp(b, 4);
    assert SiftUp(b, 4) == SiftUp(c, 2);
    assert SiftUp(c, 2) == SiftUp(d, 1);
    assert SiftUp(d, 1) == d;
  }

  /** The seeded heap has top 2; inserting 1 gives the sequence computed above, with top 1. */
  lemma SeededInsertExample()
    ensures Top([Placeholder, 2, 5, 8, 10, 12, 15, 20]) == Some(2)
    ensures Insert([Placeholder, 2, 5, 8, 10, 12, 15, 20], 1)
         == [Placeholder, 1, 2, 8, 5, 12, 15, 20, 10]
  {
    SeededSiftUpExample();
    assert [Placeholder, 2, 5, 8, 10, 12, 15, 20] + [1] == [Placeholder, 2, 5, 8, 10, 12, 15, 20, 1];
  }

  /** Inserting 5 then 3 into a fresh heap puts 3 at the root and 5 below it; adding 8 and 1 makes 1 the top. */
  lemma FreshInsertExample()
    ensures InsertAll(Empty(), [5, 3]) == [Placeholder, 3, 5]
    ensures Top(InsertAll(Empty(), [5, 3, 8, 1])) == Some(1)
  {
    assert Insert(Empty(), 5) == [Placeholder, 5];
    assert Swap([Placeholder, 5, 3], 2, 1) == [Placeholder, 3, 5];
    assert Insert([Placeholder, 5], 3) == [Placeholder, 3, 5];
    assert InsertAll(Empty(), [5, 3]) == [Placeholder, 3, 5] by {
      assert [5, 3][1..] == [3];
      assert [3][1..] == [];
    }
    BuildFromEmpty([5, 3, 8, 1]);
  }
}
