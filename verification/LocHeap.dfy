/** The linked heap: nodes whose data are swapped and whose links and sizes are
    changed in place. A datum is the address of a client object, so equality is
    identity; the client's ranking function is given to the heap once. */
module LocHeap {
  import opened Options
  import opened RankedTree

  class LocHeapNode<R(==)> {
    var mSize: int
    var mLeft: LocHeapNode?<R>
    var mRight: LocHeapNode?<R>
    var mData: R

    // The nodes of the tree rooted here, and the value that this tree represents.
    ghost var Repr: set<object>
    ghost var Tree: Tree<R>

    /** This node is the root of a finite tree of nodes in Repr. */
    ghost predicate Valid()
      reads this, Repr
      ensures Valid() ==> this in Repr && Tree.Node? && Tree.data == mData && Tree.size == mSize
    {
      && this in Repr
      && (mLeft != null ==> mLeft in Repr && mLeft.Repr <= Repr && this !in mLeft.Repr && mLeft.Valid())
      && (mRight != null ==> mRight in Repr && mRight.Repr <= Repr && this !in mRight.Repr && mRight.Valid())
      && (mLeft != null && mRight != null ==> mLeft.Repr !! mRight.Repr)
      && Tree == Node(mData, mSize, TreeOf(mLeft), TreeOf(mRight))
    }

    constructor (data: R)
      ensures Valid() && fresh(Repr) && IsSingle() && mData == data
    {
      mSize, mLeft, mRight, mData := 1, null, null, data;
      Repr, Tree := {this}, Node(data, 1, Leaf, Leaf);
    }

    ghost predicate IsSingle()
      reads this
    {
      mLeft == null && mRight == null && mSize == 1 && Repr == {this}
    }

    /** One half of swapping the data of two nodes; links are not touched. */
    method Exchange(data: R) returns (was: R)
      requires Valid()
      modifies this
      ensures Valid() && Repr == old(Repr) && mLeft == old(mLeft) && mRight == old(mRight) && mSize == old(mSize)
      ensures was == old(mData) && Tree == old(Tree).(data := data)
    {
      was, mData := mData, data;
      Tree := Tree.(data := data);
    }

    /** Hangs a single node into this tree; no existing link changes. */
    method Push(ranks: (R, R) -> int, node: LocHeapNode<R>)
      requires Valid() && node.Valid() && node.IsSingle() && node !in Repr
      modifies Repr, node
      ensures Valid() && Repr == old(Repr) + {node}
      ensures Tree == RankedTree.Push(ranks, old(Tree), old(node.mData))
      decreases Repr, 1
    {
      if OutRanks(ranks, node.mData, mData) {
        mData := node.Exchange(mData);
        Tree := Tree.(data := mData);
      }
      if mLeft == null || (mRight != null && mLeft.mSize <= mRight.mSize) {
        PushLeft(ranks, node);
      } else {
        PushRight(ranks, node);
      }
      mSize := mSize + 1;
      Tree := Tree.(size := mSize);
    }

    method PushLeft(ranks: (R, R) -> int, node: LocHeapNode<R>)
      requires Valid() && node.Valid() && node.IsSingle() && node !in Repr
      modifies Repr, node
      ensures Valid() && Repr == old(Repr) + {node} && mSize == old(mSize)
      ensures Tree == old(Node(mData, mSize, RankedTree.Push(ranks, TreeOf(mLeft), node.mData), TreeOf(mRight)))
      decreases Repr, 0
    {
      if mLeft == null {
        mLeft := node;
      } else {
        mLeft.Push(ranks, node);
      }
      Repr, Tree := Repr + {node}, Node(mData, mSize, TreeOf(mLeft), TreeOf(mRight));
    }

    method PushRight(ranks: (R, R) -> int, node: LocHeapNode<R>)
      requires Valid() && node.Valid() && node.IsSingle() && node !in Repr
      modifies Repr, node
      ensures Valid() && Repr == old(Repr) + {node} && mSize == old(mSize)
      ensures Tree == old(Node(mData, mSize, TreeOf(mLeft), RankedTree.Push(ranks, TreeOf(mRight), node.mData)))
      decreases Repr, 0
    {
      if mRight == null {
        mRight := node;
      } else {
        mRight.Push(ranks, node);
      }
      Repr, Tree := Repr + {node}, Node(mData, mSize, TreeOf(mLeft), TreeOf(mRight));
    }

    /** Swaps the top datum down to a leaf and cuts that leaf off. The second result
        is what the caller's link to top becomes. */
    static method Pop(ranks: (R, R) -> int, top: LocHeapNode<R>)
      returns (popped: LocHeapNode<R>, link: LocHeapNode?<R>)
      requires top.Valid()
      modifies top.Repr
      ensures Detached(popped, link, top, old(top.Repr))
      ensures popped.mData == old(top.mData)
      ensures TreeOf(link) == RankedTree.Pop(ranks, old(top.Tree))
      decreases top.Repr, 1
    {
      popped, link := top, top;
      top.mSize := top.mSize - 1;
      top.Tree := top.Tree.(size := top.mSize);
      if top.mLeft != null || top.mRight != null {
        if top.mRight == null || (top.mLeft != null && OutRanks(ranks, top.mLeft.mData, top.mRight.mData)) {
          popped := top.PopThroughLeft(ranks);
        } else {
          popped := top.PopThroughRight(ranks);
        }
      } else {
        link := null;
      }
    }

    method ExchangeWithLeft()
      requires Valid() && mLeft != null
      modifies this, mLeft
      ensures Valid() && Repr == old(Repr) && mLeft == old(mLeft) && mRight == old(mRight) && mSize == old(mSize)
      ensures mLeft.mData == old(mData)
      ensures Tree == old(Node(mLeft.mData, mSize, mLeft.Tree.(data := mData), TreeOf(mRight)))
    {
      mData := mLeft.Exchange(mData);
      Tree := Node(mData, mSize, TreeOf(mLeft), TreeOf(mRight));
    }

    /** The step of Pop that promotes the left child. */
    method PopThroughLeft(ranks: (R, R) -> int) returns (popped: LocHeapNode<R>)
      requires Valid() && mLeft != null
      modifies Repr
      ensures Detached(popped, this, this, old(Repr)) && popped != this
      ensures popped.mData == old(mData)
      ensures Tree == old(Node(mLeft.mData, mSize, RankedTree.Pop(ranks, mLeft.Tree), TreeOf(mRight)))
      decreases Repr, 0
    {
      ExchangeWithLeft();
      popped, mLeft := Pop(ranks, mLeft);
      Repr, Tree := Repr - {popped}, Node(mData, mSize, TreeOf(mLeft), TreeOf(mRight));
    }

    method ExchangeWithRight()
      requires Valid() && mRight != null
      modifies this, mRight
      ensures Valid() && Repr == old(Repr) && mLeft == old(mLeft) && mRight == old(mRight) && mSize == old(mSize)
      ensures mRight.mData == old(mData)
      ensures Tree == old(Node(mRight.mData, mSize, TreeOf(mLeft), mRight.Tree.(data := mData)))
    {
      mData := mRight.Exchange(mData);
      Tree := Node(mData, mSize, TreeOf(mLeft), TreeOf(mRight));
    }

    /** The step of Pop that promotes the right child. */
    method PopThroughRight(ranks: (R, R) -> int) returns (popped: LocHeapNode<R>)
      requires Valid() && mRight != null
      modifies Repr
      ensures Detached(popped, this, this, old(Repr)) && popped != this
      ensures popped.mData == old(mData)
      ensures Tree == old(Node(mRight.mData, mSize, TreeOf(mLeft), RankedTree.Pop(ranks, mRight.Tree)))
      decreases Repr, 0
    {
      ExchangeWithRight();
      popped, mRight := Pop(ranks, mRight);
      Repr, Tree := Repr - {popped}, Node(mData, mSize, TreeOf(mLeft), TreeOf(mRight));
    }

    /** Searches for data by address, skipping subtrees it would outrank. */
    static method Remove(ranks: (R, R) -> int, top: LocHeapNode<R>, data: R)
      returns (removed: LocHeapNode?<R>, link: LocHeapNode?<R>)
      requires top.Valid()
      modifies top.Repr
      ensures removed == null ==> link == top && top.Valid() && top.Repr == old(top.Repr) && top.Tree == old(top.Tree)
      ensures removed == null ==> RankedTree.Remove(ranks, old(top.Tree), data) == None
      ensures removed != null ==> Detached(removed, link, top, old(top.Repr)) && removed.mData == data
      ensures removed != null ==> RankedTree.Remove(ranks, old(top.Tree), data) == Some(TreeOf(link))
      decreases top.Repr, 1
    {
      removed, link := null, top;
      if data == top.mData {
        removed, link := Pop(ranks, top);
      } else if !OutRanks(ranks, data, top.mData) {
        if top.mLeft != null {
          removed := top.RemoveFromLeft(ranks, data);
        }
        if removed == null && top.mRight != null {
          removed := top.RemoveFromRight(ranks, data);
        }
        if removed != null {
          top.mSize := top.mSize - 1;
          top.Tree := top.Tree.(size := top.mSize);
        }
      }
    }

    method RemoveFromLeft(ranks: (R, R) -> int, data: R) returns (removed: LocHeapNode?<R>)
      requires Valid() && mLeft != null
      modifies Repr
      ensures removed == null ==> Valid() && Repr == old(Repr) && Tree == old(Tree)
      ensures removed == null ==> RankedTree.Remove(ranks, old(mLeft.Tree), data) == None
      ensures removed != null ==> Detached(removed, this, this, old(Repr)) && removed != this && removed.mData == data
      ensures removed != null ==> Tree == Node(old(mData), old(mSize), TreeOf(mLeft), old(TreeOf(mRight)))
      ensures removed != null ==> RankedTree.Remove(ranks, old(mLeft.Tree), data) == Some(TreeOf(mLeft))
      decreases Repr, 0
    {
      removed, mLeft := Remove(ranks, mLeft, data);
      if removed != null {
        Repr, Tree := Repr - {removed}, Node(mData, mSize, TreeOf(mLeft), TreeOf(mRight));
      }
    }

    method RemoveFromRight(ranks: (R, R) -> int, data: R) returns (removed: LocHeapNode?<R>)
      requires Valid() && mRight != null
      modifies Repr
      ensures removed == null ==> Valid() && Repr == old(Repr) && Tree == old(Tree)
      ensures removed == null ==> RankedTree.Remove(ranks, old(mRight.Tree), data) == None
      ensures removed != null ==> Detached(removed, this, this, old(Repr)) && removed != this && removed.mData == data
      ensures removed != null ==> Tree == Node(old(mData), old(mSize), old(TreeOf(mLeft)), TreeOf(mRight))
      ensures removed != null ==> RankedTree.Remove(ranks, old(mRight.Tree), data) == Some(TreeOf(mRight))
      decreases Repr, 0
    {
      removed, mRight := Remove(ranks, mRight, data);
      if removed != null {
        Repr, Tree := Repr - {removed}, Node(mData, mSize, TreeOf(mLeft), TreeOf(mRight));
      }
    }

    method CheckNodes(ranks: (R, R) -> int) returns (ok: bool)
      requires Valid()
      ensures ok <==> IsHeap(ranks, Tree)
      decreases Repr
    {
      CheckNodesIsExact(ranks, Tree);
      var totalSize := mSize;
      if mLeft != null {
        CheckNodesIsExact(ranks, mLeft.Tree);
        if OutRanks(ranks, mLeft.mData, mData) {
          return false;
        }
        var leftOk := mLeft.CheckNodes(ranks);
        if !leftOk {
          return false;
        }
        totalSize := totalSize - mLeft.mSize;
      }
      if mRight != null {
        CheckNodesIsExact(ranks, mRight.Tree);
        if OutRanks(ranks, mRight.mData, mData) {
          return false;
        }
        var rightOk := mRight.CheckNodes(ranks);
        if !rightOk {
          return false;
        }
        totalSize := totalSize - mRight.mSize;
      }
      return totalSize == 1;
    }
  }

  ghost function ReprOf<R>(link: LocHeapNode?<R>): set<object>
    reads link
  {
    if link == null then {} else link.Repr
  }

  ghost function TreeOf<R>(link: LocHeapNode?<R>): Tree<R>
    reads link
  {
    if link == null then Leaf else link.Tree
  }

  /** node was cut from the tree of nodes was, whose root was top and is now link:
      node is a childless leaf that no remaining node refers to, so that freeing it
      touches no live node. */
  ghost predicate Detached<R>(node: LocHeapNode<R>, link: LocHeapNode?<R>, top: LocHeapNode<R>, was: set<object>)
    reads node, link, ReprOf(link)
  {
    && node in was && node.mLeft == null && node.mRight == null
    && (if link == null then node == top else link == top && link.Valid())
    && ReprOf(link) <= was - {node}
  }

  class LocHeap<R(==,!new)> {
    const ranks: (R, R) -> int
    var mTree: LocHeapNode?<R>

    ghost function Repr(): set<object>
      reads this, mTree
    {
      {this} + ReprOf(mTree)
    }

    ghost predicate Valid()
      reads this, mTree, ReprOf(mTree)
    {
      && TotalPreorder(ranks)
      && (mTree != null ==> mTree.Valid() && this !in mTree.Repr)
      && IsHeap(ranks, TreeOf(mTree))
    }

    ghost function Contents(): multiset<R>
      reads this, mTree
    {
      Elements(TreeOf(mTree))
    }

    constructor (ranks: (R, R) -> int)
      requires TotalPreorder(ranks)
      ensures Valid() && fresh(Repr()) && this.ranks == ranks && Contents() == multiset{}
    {
      this.ranks := ranks;
      mTree := null;
    }

    method Push(x: R)
      requires Valid()
      modifies Repr()
      ensures Valid() && fresh(Repr() - old(Repr()))
      ensures Contents() == old(Contents()) + multiset{x}
    {
      PushAddsOne(ranks, TreeOf(mTree), x);
      PushKeepsHeap(ranks, TreeOf(mTree), x);
      var heapNode := new LocHeapNode(x);
      if mTree == null {
        mTree := heapNode;
      } else {
        mTree.Push(ranks, heapNode);
      }
    }

    method Peek() returns (top: Option<R>)
      requires Valid()
      ensures BagTop(ranks, Contents(), top)
    {
      if mTree == null {
        return None;
      }
      forall y | y in Contents() ensures !OutRanks(ranks, y, mTree.mData) {
        TopIsMaximum(ranks, mTree.Tree, y);
      }
      return Some(mTree.mData);
    }

    method Pop() returns (top: Option<R>)
      requires Valid()
      modifies Repr()
      ensures Valid() && Repr() <= old(Repr())
      ensures BagStep(ranks, old(Contents()), OpPop, Contents(), top)
    {
      if mTree == null {
        return None;
      }
      PopRefinesBag(ranks, mTree.Tree);
      var heapNode;
      heapNode, mTree := LocHeapNode.Pop(ranks, mTree);
      assert TreeOf(mTree) == RankedTree.Pop(ranks, old(mTree.Tree));
      return Some(heapNode.mData);
    }

    method Remove(x: R) returns (removed: Option<R>)
      requires Valid()
      modifies Repr()
      ensures Valid() && Repr() <= old(Repr())
      ensures BagStep(ranks, old(Contents()), OpRemove(x), Contents(), removed)
    {
      if mTree == null {
        return None;
      }
      RemoveRefinesBag(ranks, mTree.Tree, x);
      var heapNode;
      heapNode, mTree := LocHeapNode.Remove(ranks, mTree, x);
      if heapNode == null {
        return None;
      }
      return Some(heapNode.mData);
    }

    method CheckTree() returns (ok: bool)
      requires mTree != null ==> mTree.Valid()
      ensures ok <==> IsHeap(ranks, TreeOf(mTree))
    {
      if mTree == null {
        return true;
      }
      ok := mTree.CheckNodes(ranks);
    }
  }
}
