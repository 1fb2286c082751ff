/** The values that a LocHeap goes through: a binary tree whose nodes carry the
    ranked datum and the cached subtree size, with the three operations of
    LocHeapNode written as functions. What the heap promises is proved here;
    module LocHeap shows that the linked nodes compute these functions. */
module RankedTree {
  import opened Numbers
  import opened Options
  import opened Sequences

  datatype Tree<R> = Leaf | Node(data: R, size: int, left: Tree<R>, right: Tree<R>)

  /** ranks(a, b) is positive when a ranks higher than b, zero when they rank
      equally and negative when a ranks lower. Distinct data may rank equally. */
  ghost predicate TotalPreorder<R(!new)>(ranks: (R, R) -> int) {
    && (forall a, b :: Opposite(ranks, a, b))
    && (forall a, b, c :: Chained(ranks, a, b, c))
  }

  ghost predicate Opposite<R>(ranks: (R, R) -> int, a: R, b: R) {
    ranks(a, b) > 0 <==> ranks(b, a) < 0
  }

  ghost predicate Chained<R>(ranks: (R, R) -> int, a: R, b: R, c: R) {
    !OutRanks(ranks, a, b) && !OutRanks(ranks, b, c) ==> !OutRanks(ranks, a, c)
  }

  predicate OutRanks<R>(ranks: (R, R) -> int, a: R, b: R) {
    ranks(a, b) > 0
  }

  // ---------- What makes a tree a heap ----------

  ghost function Elements<R>(t: Tree<R>): multiset<R> {
    match t
    case Leaf => multiset{}
    case Node(d, _, l, r) => multiset{d} + Elements(l) + Elements(r)
  }

  ghost function Count<R>(t: Tree<R>): nat {
    match t
    case Leaf => 0
    case Node(_, _, l, r) => 1 + Count(l) + Count(r)
  }

  /** Every cached size is the number of nodes below and including its node. */
  ghost predicate SizesOk<R>(t: Tree<R>) {
    t.Node? ==> t.size == Count(t) && SizesOk(t.left) && SizesOk(t.right)
  }

  /** No child outranks its parent. */
  ghost predicate Ordered<R>(ranks: (R, R) -> int, t: Tree<R>) {
    t.Node? ==>
      && Below(ranks, t.left, t.data) && Ordered(ranks, t.left)
      && Below(ranks, t.right, t.data) && Ordered(ranks, t.right)
  }

  ghost predicate Below<R>(ranks: (R, R) -> int, t: Tree<R>, d: R) {
    t.Node? ==> !OutRanks(ranks, t.data, d)
  }

  ghost predicate IsHeap<R>(ranks: (R, R) -> int, t: Tree<R>) {
    Ordered(ranks, t) && SizesOk(t)
  }

  // ---------- The operations ----------

  /** The subtree a new datum goes to: an empty one first, else the one with the
      smaller cached size, the left one on a tie. */
  predicate GoesLeft<R>(l: Tree<R>, r: Tree<R>) {
    l.Leaf? || (r.Node? && l.size <= r.size)
  }

  function Push<R>(ranks: (R, R) -> int, t: Tree<R>, x: R): Tree<R> {
    match t
    case Leaf => Node(x, 1, Leaf, Leaf)
    case Node(d, s, l, r) =>
      var (top, lower) := if OutRanks(ranks, x, d) then (x, d) else (d, x);
      if GoesLeft(l, r) then Node(top, s + 1, Push(ranks, l, lower), r)
      else Node(top, s + 1, l, Push(ranks, r, lower))
  }

  /** The child whose datum replaces a popped top. */
  predicate PromotesLeft<R>(ranks: (R, R) -> int, l: Tree<R>, r: Tree<R>) {
    r.Leaf? || (l.Node? && OutRanks(ranks, l.data, r.data))
  }

  /** The tree left after its top datum has been swapped down to a leaf and that
      leaf cut off. */
  function Pop<R>(ranks: (R, R) -> int, t: Tree<R>): (rest: Tree<R>)
    requires t.Node?
    ensures Count(rest) == Count(t) - 1
  {
    var Node(_, s, l, r) := t;
    if l.Leaf? && r.Leaf? then Leaf
    else if PromotesLeft(ranks, l, r) then Node(l.data, s - 1, Pop(ranks, l), r)
    else Node(r.data, s - 1, l, Pop(ranks, r))
  }

  /** The tree without one occurrence of x, or None when the pruned search does
      not meet x. */
  function Remove<R(==)>(ranks: (R, R) -> int, t: Tree<R>, x: R): Option<Tree<R>>
    requires t.Node?
  {
    var Node(d, s, l, r) := t;
    if x == d then Some(Pop(ranks, t))
    else if OutRanks(ranks, x, d) then None
    else
      var inLeft := if l.Node? then Remove(ranks, l, x) else None;
      if inLeft.Some? then Some(Node(d, s - 1, inLeft.value, r))
      else
        var inRight := if r.Node? then Remove(ranks, r, x) else None;
        if inRight.Some? then Some(Node(d, s - 1, l, inRight.value)) else None
  }

  /** The self-check compiled into unit-test builds; an absent tree passes. */
  predicate CheckNodes<R>(ranks: (R, R) -> int, t: Tree<R>) {
    t.Node? ==>
      && (t.left.Node? ==> !OutRanks(ranks, t.left.data, t.data) && CheckNodes(ranks, t.left))
      && (t.right.Node? ==> !OutRanks(ranks, t.right.data, t.data) && CheckNodes(ranks, t.right))
      && t.size - (if t.left.Node? then t.left.size else 0)
                - (if t.right.Node? then t.right.size else 0) == 1
  }

  // ---------- Order, sizes and contents ----------

  lemma {:induction false} TopIsMaximum<R(!new)>(ranks: (R, R) -> int, t: Tree<R>, y: R)
    requires TotalPreorder(ranks) && Ordered(ranks, t) && y in Elements(t)
    ensures !OutRanks(ranks, y, t.data)
  {
    if y in Elements(t.left) {
      TopIsMaximum(ranks, t.left, y);
      assert Chained(ranks, y, t.left.data, t.data);
    } else if y in Elements(t.right) {
      TopIsMaximum(ranks, t.right, y);
      assert Chained(ranks, y, t.right.data, t.data);
    } else {
      assert Opposite(ranks, y, y);
    }
  }

  lemma {:induction false} PushAddsOne<R>(ranks: (R, R) -> int, t: Tree<R>, x: R)
    ensures Elements(Push(ranks, t, x)) == Elements(t) + multiset{x}
    ensures Count(Push(ranks, t, x)) == Count(t) + 1
  {
    if t.Node? {
      var lower := if OutRanks(ranks, x, t.data) then t.data else x;
      if GoesLeft(t.left, t.right) {
        PushAddsOne(ranks, t.left, lower);
      } else {
        PushAddsOne(ranks, t.right, lower);
      }
    }
  }

  lemma {:induction false} PushKeepsHeap<R(!new)>(ranks: (R, R) -> int, t: Tree<R>, x: R)
    requires TotalPreorder(ranks) && IsHeap(ranks, t)
    ensures IsHeap(ranks, Push(ranks, t, x))
    ensures Push(ranks, t, x).data == if t.Leaf? || OutRanks(ranks, x, t.data) then x else t.data
  {
    PushAddsOne(ranks, t, x);
    if t.Node? {
      assert Opposite(ranks, x, t.data);
      assert t.left.Node? ==> Chained(ranks, t.left.data, t.data, x);
      assert t.right.Node? ==> Chained(ranks, t.right.data, t.data, x);
      var lower := if OutRanks(ranks, x, t.data) then t.data else x;
      if GoesLeft(t.left, t.right) {
        PushKeepsHeap(ranks, t.left, lower);
      } else {
        PushKeepsHeap(ranks, t.right, lower);
      }
    }
  }

  lemma {:induction false} PopTakesTop<R>(ranks: (R, R) -> int, t: Tree<R>)
    requires t.Node?
    ensures Elements(Pop(ranks, t)) + multiset{t.data} == Elements(t)
  {
    if t.left.Leaf? && t.right.Leaf? {
    } else if PromotesLeft(ranks, t.left, t.right) {
      PopTakesTop(ranks, t.left);
    } else {
      PopTakesTop(ranks, t.right);
    }
  }

  /** What comes to the top: the left child's datum if it outranks the right one's, or is
      the only one; of two that rank equally the right one's. */
  lemma PopPromotes<R>(ranks: (R, R) -> int, t: Tree<R>)
    requires t.Node? && (t.left.Node? || t.right.Node?)
    ensures Pop(ranks, t).Node?
    ensures Pop(ranks, t).data ==
      if t.right.Leaf? then t.left.data
      else if t.left.Leaf? || ranks(t.left.data, t.right.data) <= 0 then t.right.data
      else t.left.data
  {
  }

  lemma {:induction false} PopKeepsHeap<R(!new)>(ranks: (R, R) -> int, t: Tree<R>)
    requires TotalPreorder(ranks) && IsHeap(ranks, t) && t.Node?
    ensures IsHeap(ranks, Pop(ranks, t))
    ensures Below(ranks, Pop(ranks, t), t.data)
  {
    if t.left.Leaf? && t.right.Leaf? {
    } else if PromotesLeft(ranks, t.left, t.right) {
      assert t.right.Node? ==> Opposite(ranks, t.left.data, t.right.data);
      PopKeepsHeap(ranks, t.left);
    } else {
      PopKeepsHeap(ranks, t.right);
    }
  }

  /** The search that skips subtrees whose top ranks below x never misses x. */
  lemma {:induction false} RemoveIsComplete<R(!new)>(ranks: (R, R) -> int, t: Tree<R>, x: R)
    requires TotalPreorder(ranks) && Ordered(ranks, t) && t.Node?
    ensures Remove(ranks, t, x).Some? <==> x in Elements(t)
  {
    if x != t.data {
      if OutRanks(ranks, x, t.data) {
        if x in Elements(t) {
          TopIsMaximum(ranks, t, x);
        }
      } else {
        if t.left.Node? {
          RemoveIsComplete(ranks, t.left, x);
        }
        if t.right.Node? {
          RemoveIsComplete(ranks, t.right, x);
        }
      }
    }
  }

  lemma {:induction false} RemoveTakesOne<R>(ranks: (R, R) -> int, t: Tree<R>, x: R)
    requires t.Node? && Remove(ranks, t, x).Some?
    ensures var rest := Remove(ranks, t, x).value;
      Elements(rest) + multiset{x} == Elements(t) && Count(rest) == Count(t) - 1
  {
    if x == t.data {
      PopTakesTop(ranks, t);
    } else if t.left.Node? && Remove(ranks, t.left, x).Some? {
      RemoveTakesOne(ranks, t.left, x);
    } else {
      RemoveTakesOne(ranks, t.right, x);
    }
  }

  lemma BelowChains<R(!new)>(ranks: (R, R) -> int, t: Tree<R>, d: R, e: R)
    requires TotalPreorder(ranks) && Below(ranks, t, d) && !OutRanks(ranks, d, e)
    ensures Below(ranks, t, e) && !OutRanks(ranks, e, e)
  {
    assert t.Node? ==> Chained(ranks, t.data, d, e);
    assert Opposite(ranks, e, e);
  }

  lemma {:induction false} RemoveKeepsHeap<R(!new)>(ranks: (R, R) -> int, t: Tree<R>, x: R)
    requires TotalPreorder(ranks) && IsHeap(ranks, t) && t.Node? && Remove(ranks, t, x).Some?
    ensures var rest := Remove(ranks, t, x).value;
      IsHeap(ranks, rest) && Below(ranks, rest, t.data)
  {
    RemoveTakesOne(ranks, t, x);
    if x == t.data {
      PopKeepsHeap(ranks, t);
    } else if t.left.Node? && Remove(ranks, t.left, x).Some? {
      RemoveKeepsHeap(ranks, t.left, x);
      BelowChains(ranks, Remove(ranks, t.left, x).value, t.left.data, t.data);
    } else {
      RemoveKeepsHeap(ranks, t.right, x);
      BelowChains(ranks, Remove(ranks, t.right, x).value, t.right.data, t.data);
    }
  }

  lemma {:induction false} CheckNodesIsExact<R>(ranks: (R, R) -> int, t: Tree<R>)
    ensures CheckNodes(ranks, t) <==> IsHeap(ranks, t)
  {
    if t.Node? {
      CheckNodesIsExact(ranks, t.left);
      CheckNodesIsExact(ranks, t.right);
      assert CheckNodes(ranks, t) ==> Ordered(ranks, t) && SizesOk(t);
      assert IsHeap(ranks, t) ==> CheckNodes(ranks, t.left) && CheckNodes(ranks, t.right);
    }
  }

  // ---------- Balance ----------

  /** From any heap, a push changes one subtree only, and that one has no more
      nodes than the other. */
  lemma PushTakesSmallestSubtree<R>(ranks: (R, R) -> int, t: Tree<R>, x: R)
    requires SizesOk(t) && t.Node?
    ensures var after := Push(ranks, t, x);
      if GoesLeft(t.left, t.right)
      then Count(t.left) <= Count(t.right) && after.right == t.right && after.left != t.left
      else Count(t.right) < Count(t.left) && after.left == t.left && after.right != t.right
  {
    var lower := if OutRanks(ranks, x, t.data) then t.data else x;
    PushGrows(ranks, t.left, lower);
    PushGrows(ranks, t.right, lower);
  }

  lemma {:induction false} PushGrows<R>(ranks: (R, R) -> int, t: Tree<R>, x: R)
    ensures Count(Push(ranks, t, x)) == Count(t) + 1
  {
    if t.Node? {
      var lower := if OutRanks(ranks, x, t.data) then t.data else x;
      PushGrows(ranks, t.left, lower);
      PushGrows(ranks, t.right, lower);
    }
  }

  ghost predicate Balanced<R>(t: Tree<R>) {
    t.Node? ==> 0 <= Count(t.left) - Count(t.right) <= 1 && Balanced(t.left) && Balanced(t.right)
  }

  ghost function PushAll<R>(ranks: (R, R) -> int, xs: seq<R>): Tree<R> {
    if xs == [] then Leaf else Push(ranks, PushAll(ranks, xs[..|xs|-1]), xs[|xs|-1])
  }

  ghost function Height<R>(t: Tree<R>): nat {
    if t.Leaf? then 0
    else 1 + if Height(t.left) >= Height(t.right) then Height(t.left) else Height(t.right)
  }

  lemma {:induction false} PushKeepsBalance<R>(ranks: (R, R) -> int, t: Tree<R>, x: R)
    requires SizesOk(t) && Balanced(t)
    ensures Balanced(Push(ranks, t, x))
  {
    PushGrows(ranks, t, x);
    if t.Node? {
      var lower := if OutRanks(ranks, x, t.data) then t.data else x;
      PushGrows(ranks, t.left, lower);
      PushGrows(ranks, t.right, lower);
      if GoesLeft(t.left, t.right) {
        PushKeepsBalance(ranks, t.left, lower);
      } else {
        PushKeepsBalance(ranks, t.right, lower);
      }
    }
  }

  lemma {:induction false} BalancedIsLow<R>(t: Tree<R>)
    requires Balanced(t) && t.Node?
    ensures Pow2(Height(t) - 1) <= Count(t)
  {
    if t.left.Node? {
      BalancedIsLow(t.left);
    }
    if t.right.Node? {
      BalancedIsLow(t.right);
    }
  }

  lemma PushAllGoesOn<R>(ranks: (R, R) -> int, xs: seq<R>, x: R)
    ensures PushAll(ranks, xs + [x]) == Push(ranks, PushAll(ranks, xs), x)
    ensures multiset(xs + [x]) == multiset(xs) + multiset{x}
  {
    Snoc(xs, x);
  }

  lemma {:induction false} PushAllIsHeap<R(!new)>(ranks: (R, R) -> int, xs: seq<R>)
    requires TotalPreorder(ranks)
    ensures IsHeap(ranks, PushAll(ranks, xs))
    ensures Elements(PushAll(ranks, xs)) == multiset(xs) && Count(PushAll(ranks, xs)) == |xs|
  {
    if xs != [] {
      var front, last := xs[..|xs|-1], xs[|xs|-1];
      NextTake(xs, |xs| - 1);
      assert xs == front + [last];
      PushAllIsHeap(ranks, front);
      PushAllGoesOn(ranks, front, last);
      PushAddsOne(ranks, PushAll(ranks, front), last);
      PushKeepsHeap(ranks, PushAll(ranks, front), last);
    }
  }

  lemma {:induction false} PushOnlyIsBalanced<R(!new)>(ranks: (R, R) -> int, xs: seq<R>)
    requires TotalPreorder(ranks)
    ensures Balanced(PushAll(ranks, xs))
  {
    if xs != [] {
      var front, last := xs[..|xs|-1], xs[|xs|-1];
      NextTake(xs, |xs| - 1);
      PushOnlyIsBalanced(ranks, front);
      PushAllIsHeap(ranks, front);
      PushKeepsBalance(ranks, PushAll(ranks, front), last);
      PushAllGoesOn(ranks, front, last);
      assert xs == front + [last];
    }
  }

  /** Heaps built by pushes alone have at most one node more on the left, at every
      node, so that their height is at most one more than log2 of their size. */
  lemma PushOnlyHeaps<R(!new)>(ranks: (R, R) -> int, xs: seq<R>)
    requires TotalPreorder(ranks)
    ensures Balanced(PushAll(ranks, xs))
    ensures xs != [] ==> Pow2(Height(PushAll(ranks, xs)) - 1) <= |xs|
  {
    PushOnlyIsBalanced(ranks, xs);
    PushAllIsHeap(ranks, xs);
    if xs != [] {
      BalancedIsLow(PushAll(ranks, xs));
    }
  }

  // ---------- Whole runs ----------

  datatype Op<R> = OpPush(x: R) | OpPop | OpRemove(x: R)

  function Step<R(==)>(ranks: (R, R) -> int, t: Tree<R>, op: Op<R>): (Tree<R>, Option<R>) {
    match op
    case OpPush(x) => (Push(ranks, t, x), None)
    case OpPop => if t.Leaf? then (Leaf, None) else (Pop(ranks, t), Some(t.data))
    case OpRemove(x) =>
      if t.Leaf? then (t, None)
      else match Remove(ranks, t, x)
           case Some(rest) => (rest, Some(x))
           case None => (t, None)
  }

  function Run<R(==)>(ranks: (R, R) -> int, ops: seq<Op<R>>): Tree<R> {
    if ops == [] then Leaf else Step(ranks, Run(ranks, ops[..|ops|-1]), ops[|ops|-1]).0
  }

  /** What may be seen at the top of a priority multiset. */
  ghost predicate BagTop<R>(ranks: (R, R) -> int, bag: multiset<R>, top: Option<R>) {
    if bag == multiset{} then top == None
    else top.Some? && top.value in bag && forall y :: y in bag ==> !OutRanks(ranks, y, top.value)
  }

  /** One operation of a priority multiset, with no tree in sight. */
  ghost predicate BagStep<R>(ranks: (R, R) -> int, before: multiset<R>, op: Op<R>,
                             after: multiset<R>, result: Option<R>)
  {
    match op
    case OpPush(x) => after == before + multiset{x} && result == None
    case OpPop => BagTop(ranks, before, result) &&
      after == if result.Some? then before - multiset{result.value} else before
    case OpRemove(x) =>
      if x in before then after == before - multiset{x} && result == Some(x)
      else after == before && result == None
  }

  lemma PopRefinesBag<R(!new)>(ranks: (R, R) -> int, t: Tree<R>)
    requires TotalPreorder(ranks) && IsHeap(ranks, t) && t.Node?
    ensures IsHeap(ranks, Pop(ranks, t))
    ensures BagStep(ranks, Elements(t), OpPop, Elements(Pop(ranks, t)), Some(t.data))
  {
    PopTakesTop(ranks, t);
    PopKeepsHeap(ranks, t);
    forall y | y in Elements(t) ensures !OutRanks(ranks, y, t.data) {
      TopIsMaximum(ranks, t, y);
    }
  }

  lemma RemoveRefinesBag<R(!new)>(ranks: (R, R) -> int, t: Tree<R>, x: R)
    requires TotalPreorder(ranks) && IsHeap(ranks, t) && t.Node?
    ensures match Remove(ranks, t, x)
            case Some(rest) =>
              && IsHeap(ranks, rest)
              && BagStep(ranks, Elements(t), OpRemove(x), Elements(rest), Some(x))
            case None => BagStep(ranks, Elements(t), OpRemove(x), Elements(t), None)
  {
    RemoveIsComplete(ranks, t, x);
    if x in Elements(t) {
      RemoveTakesOne(ranks, t, x);
      RemoveKeepsHeap(ranks, t, x);
    }
  }

  lemma StepRefinesBag<R(!new)>(ranks: (R, R) -> int, t: Tree<R>, op: Op<R>)
    requires TotalPreorder(ranks) && IsHeap(ranks, t)
    ensures var (t', result) := Step(ranks, t, op);
      IsHeap(ranks, t') && BagStep(ranks, Elements(t), op, Elements(t'), result)
  {
    match op
    case OpPush(x) =>
      PushAddsOne(ranks, t, x);
      PushKeepsHeap(ranks, t, x);
    case OpPop =>
      if t.Node? {
        PopRefinesBag(ranks, t);
      }
    case OpRemove(x) =>
      if t.Node? {
        RemoveRefinesBag(ranks, t, x);
      }
  }

  lemma {:induction false} RunIsHeap<R(!new)>(ranks: (R, R) -> int, ops: seq<Op<R>>)
    requires TotalPreorder(ranks)
    ensures IsHeap(ranks, Run(ranks, ops))
  {
    if ops != [] {
      RunIsHeap(ranks, ops[..|ops|-1]);
      StepRefinesBag(ranks, Run(ranks, ops[..|ops|-1]), ops[|ops|-1]);
    }
  }

  /** After any run from the empty heap, the next operation, whichever it is, acts
      as that of the priority multiset. */
  lemma RunRefinesBag<R(!new)>(ranks: (R, R) -> int, ops: seq<Op<R>>, op: Op<R>)
    requires TotalPreorder(ranks)
    ensures var t := Run(ranks, ops);
      && Run(ranks, ops + [op]) == Step(ranks, t, op).0
      && IsHeap(ranks, t)
      && BagStep(ranks, Elements(t), op, Elements(Run(ranks, ops + [op])), Step(ranks, t, op).1)
  {
    RunIsHeap(ranks, ops);
    StepRefinesBag(ranks, Run(ranks, ops), op);
    assert (ops + [op])[..|ops|] == ops;
  }

  ghost function Drain<R>(ranks: (R, R) -> int, t: Tree<R>): seq<R>
    decreases Count(t)
  {
    if t.Leaf? then [] else [t.data] + Drain(ranks, Pop(ranks, t))
  }

  lemma {:induction false} DrainIsPermutation<R>(ranks: (R, R) -> int, t: Tree<R>)
    ensures multiset(Drain(ranks, t)) == Elements(t)
    decreases Count(t)
  {
    if t.Node? {
      PopTakesTop(ranks, t);
      DrainIsPermutation(ranks, Pop(ranks, t));
    }
  }

  /** Popping until empty lists the contents by rank, highest first. */
  lemma {:induction false} DrainSorts<R(!new)>(ranks: (R, R) -> int, t: Tree<R>)
    requires TotalPreorder(ranks) && IsHeap(ranks, t)
    ensures var s := Drain(ranks, t);
      && multiset(s) == Elements(t)
      && forall i, j :: 0 <= i < j < |s| ==> !OutRanks(ranks, s[j], s[i])
    decreases Count(t)
  {
    DrainIsPermutation(ranks, t);
    if t.Node? {
      PopKeepsHeap(ranks, t);
      DrainSorts(ranks, Pop(ranks, t));
      var s := Drain(ranks, t);
      forall j | 0 < j < |s| ensures !OutRanks(ranks, s[j], s[0]) {
        assert s[j] in multiset(s);
        TopIsMaximum(ranks, t, s[j]);
      }
    }
  }
}
