/** The Merkle tree nodes that accompany a Galileo OSNMA public key: the sibling path from
    the key's leaf towards the root, and the nodes listed for it. */
module OsnmaPath {
  import opened Numbers
  import opened Sequences

  const LAYERS: nat := 4

  /** Node i of level j, counted from 0 at the leaves and from the left, and its hash. */
  datatype TreeNode<H> = TreeNode(uj: nat, ui: nat, hash: H)

  // ---------- Paths ----------

  function Sibling(i: int): int {
    if i % 2 == 0 then i + 1 else i - 1
  }

  /** The siblings met on the way from node (j, i) up to level rootJ. */
  function Path(j: int, i: int, rootJ: int): seq<int>
    requires j < 0 || i < 0 || j <= rootJ
    decreases rootJ - j
  {
    if j < 0 || i < 0 || j == rootJ then []
    else [Sibling(i)] + Path(j + 1, i / 2, rootJ)
  }

  /** get_node_path appends to the vector. Above rootJ its recursion has no end. */
  method GetNodePath(j: int, i: int, rootJ: int, vec: seq<int>) returns (path: seq<int>)
    requires j < 0 || i < 0 || j <= rootJ
    ensures path == vec + Path(j, i, rootJ)
    decreases rootJ - j
  {
    path := vec;
    Unit(vec);
    if j < 0 || i < 0 {
      return;
    }
    if j == rootJ {
      return;
    }
    Assoc(vec, [Sibling(i)], Path(j + 1, i / 2, rootJ));
    if i % 2 == 0 {
      path := path + [i + 1];
    } else {
      path := path + [i - 1];
    }
    path := GetNodePath(j + 1, i / 2, rootJ, path);
  }

  lemma {:induction false} HalvingFirst(i: nat, k: nat)
    ensures i / 2 / Pow2(k) == i / Pow2(k + 1)
  {
    var p := Pow2(k);
    var q, r := i / 2 / p, i / 2 % p;
    DivMod(i / 2, p);
    TwiceProduct(q, p);
    QuotientIs(i, 2 * p, q, 2 * r + i % 2);
  }

  lemma DivMod(a: nat, d: nat)
    requires d > 0
    ensures a == a / d * d + a % d && a % d < d
  {
  }

  lemma TwiceProduct(q: nat, p: nat)
    ensures q * (2 * p) == 2 * (q * p)
  {
  }

  lemma QuotientIs(a: nat, d: nat, q: nat, r: nat)
    requires d > 0 && r < d && a == q * d + r
    ensures a / d == q
  {
    DivMod(a, d);
    NoMultipleBetween(d, a / d, a % d, q, r);
  }

  lemma {:induction false} NoMultipleBetween(d: nat, x: nat, s: nat, y: nat, r: nat)
    requires s < d && r < d && x * d + s == y * d + r
    ensures x == y
  {
    if x == 0 || y == 0 {
      Multiple(x, d);
      Multiple(y, d);
    } else {
      assert x * d == (x - 1) * d + d && y * d == (y - 1) * d + d;
      NoMultipleBetween(d, x - 1, s, y - 1, r);
    }
  }

  lemma Multiple(x: nat, d: nat)
    ensures if x == 0 then x * d == 0 else x * d >= d
  {
    assert x > 0 ==> x * d == (x - 1) * d + d;
  }

  /** The ancestor k levels up. */
  function Up(i: nat, k: nat): nat {
    if k == 0 then i else Up(i / 2, k - 1)
  }

  lemma {:induction false} UpIs(i: nat, k: nat)
    ensures Up(i, k) == i / Pow2(k)
  {
    if k == 0 {
      assert i / 1 == i;
    } else {
      UpIs(i / 2, k - 1);
      HalvingFirst(i, k - 1);
    }
  }

  lemma {:induction false} PathLength(j: nat, i: nat, rootJ: nat)
    requires j <= rootJ
    ensures |Path(j, i, rootJ)| == rootJ - j
    decreases rootJ - j
  {
    if j < rootJ {
      PathLength(j + 1, i / 2, rootJ);
    }
  }

  /** One sibling for each level, and entry k is the other child of the parent of the
      leaf's ancestor on level k. */
  lemma {:induction false} PathIsSiblings(j: nat, i: nat, rootJ: nat)
    requires j <= rootJ
    ensures |Path(j, i, rootJ)| == rootJ - j
    ensures forall k: nat | k < rootJ - j :: var up := i / Pow2(k); var other := Path(j, i, rootJ)[k];
      other >= 0 && other != up && other / 2 == up / 2
    decreases rootJ - j
  {
    if j < rootJ {
      PathIsSiblings(j + 1, i / 2, rootJ);
      forall k: nat | k < rootJ - j
        ensures var up := i / Pow2(k); var other := Path(j, i, rootJ)[k];
          other >= 0 && other != up && other / 2 == up / 2
      {
        UpIs(i, k);
        if k > 0 {
          UpIs(i / 2, k - 1);
          assert Path(j, i, rootJ)[k] == Path(j + 1, i / 2, rootJ)[k - 1];
        }
      }
    }
  }

  // ---------- Looking nodes up ----------

  ghost predicate At<H>(node: TreeNode<H>, j: int, i: int) {
    node.uj == j && node.ui == i
  }

  /** find_node: the first node of that place, or the all-zero node. */
  function Found<H>(j: int, i: int, nodes: seq<TreeNode<H>>, zero: H): TreeNode<H> {
    if nodes == [] then TreeNode(0, 0, zero)
    else if j == nodes[0].uj && i == nodes[0].ui then nodes[0]
    else Found(j, i, nodes[1..], zero)
  }

  method FindNode<H>(j: int, i: int, nodes: seq<TreeNode<H>>, zero: H) returns (node: TreeNode<H>)
    ensures node == Found(j, i, nodes, zero)
  {
    var n := 0;
    while n < |nodes|
      invariant 0 <= n <= |nodes|
      invariant Found(j, i, nodes, zero) == Found(j, i, nodes[n..], zero)
    {
      if j == nodes[n].uj && i == nodes[n].ui {
        return nodes[n];
      }
      n := n + 1;
    }
    return TreeNode(0, 0, zero);
  }

  /** The first listed node of the place, ... */
  lemma {:induction false} FoundIsFirst<H>(j: int, i: int, nodes: seq<TreeNode<H>>, zero: H, k: nat)
    requires k < |nodes| && At(nodes[k], j, i) && forall l | 0 <= l < k :: !At(nodes[l], j, i)
    ensures Found(j, i, nodes, zero) == nodes[k]
  {
    if k > 0 {
      assert !At(nodes[0], j, i);
      assert forall l | 0 <= l < k :: nodes[1..][l] == nodes[l + 1];
      FoundIsFirst(j, i, nodes[1..], zero, k - 1);
    }
  }

  /** ... and the zero node when there is none. */
  lemma {:induction false} NoneIsFound<H>(j: int, i: int, nodes: seq<TreeNode<H>>, zero: H)
    requires forall k | 0 <= k < |nodes| :: !At(nodes[k], j, i)
    ensures Found(j, i, nodes, zero) == TreeNode(0, 0, zero)
  {
    if nodes != [] {
      assert !At(nodes[0], j, i);
      assert forall k | 0 <= k < |nodes| - 1 :: nodes[1..][k] == nodes[k + 1];
      NoneIsFound(j, i, nodes[1..], zero);
    }
  }

  lemma {:induction false} FoundIsThere<H>(j: int, i: int, nodes: seq<TreeNode<H>>, zero: H)
    requires exists node :: node in nodes && At(node, j, i)
    ensures Found(j, i, nodes, zero) in nodes && At(Found(j, i, nodes, zero), j, i)
  {
    if !At(nodes[0], j, i) {
      assert forall node | node in nodes :: node == nodes[0] || node in nodes[1..];
      FoundIsThere(j, i, nodes[1..], zero);
    }
  }

  // ---------- Hashing ----------

  /** The hash of node (j, i) of the complete tree over the given leaves. */
  function HashAt<H>(h: (H, H) -> H, leaves: nat -> H, j: nat, i: nat): H {
    if j == 0 then leaves(i)
    else h(HashAt(h, leaves, j - 1, 2 * i), HashAt(h, leaves, j - 1, 2 * i + 1))
  }

  /** What the verification of a public key computes: the hash of node i is combined with
      its sibling's, level by level; left and right come from i. */
  function Fold<H>(h: (H, H) -> H, i: nat, hash: H, siblings: seq<H>): H
    decreases |siblings|
  {
    if siblings == [] then hash
    else
      var parent := if i % 2 == 0 then h(hash, siblings[0]) else h(siblings[0], hash);
      Fold(h, i / 2, parent, siblings[1..])
  }

  /** The hashes of the nodes that are found for levels j to rootJ - 1 of a path. */
  function FoundHashes<H>(j: int, i: int, rootJ: int, nodes: seq<TreeNode<H>>, zero: H): seq<H>
    requires j < 0 || i < 0 || j <= rootJ
    decreases rootJ - j
  {
    if j < 0 || i < 0 || j == rootJ then []
    else [Found(j, Sibling(i), nodes, zero).hash] + FoundHashes(j + 1, i / 2, rootJ, nodes, zero)
  }

  lemma {:induction false} FoundHashesFollowPath<H>(j: nat, i: nat, rootJ: nat, nodes: seq<TreeNode<H>>, zero: H)
    requires j <= rootJ
    ensures var (path, hashes) := (Path(j, i, rootJ), FoundHashes(j, i, rootJ, nodes, zero));
      |hashes| == |path| == rootJ - j &&
      forall k: nat | k < |path| :: hashes[k] == Found(j + k, path[k], nodes, zero).hash
    decreases rootJ - j
  {
    if j < rootJ {
      FoundHashesFollowPath(j + 1, i / 2, rootJ, nodes, zero);
      var path, hashes := Path(j, i, rootJ), FoundHashes(j, i, rootJ, nodes, zero);
      forall k: nat | k < |path|
        ensures hashes[k] == Found(j + k, path[k], nodes, zero).hash
      {
        if k > 0 {
          assert path[k] == Path(j + 1, i / 2, rootJ)[k - 1];
          assert hashes[k] == FoundHashes(j + 1, i / 2, rootJ, nodes, zero)[k - 1];
        }
      }
    }
  }

  /** The hashes that belong at the siblings. */
  function TrueHashes<H>(h: (H, H) -> H, leaves: nat -> H, j: nat, i: nat, rootJ: nat): seq<H>
    requires j <= rootJ
    decreases rootJ - j
  {
    if j == rootJ then []
    else [HashAt(h, leaves, j, Sibling(i))] + TrueHashes(h, leaves, j + 1, i / 2, rootJ)
  }

  lemma ParentHash<H>(h: (H, H) -> H, leaves: nat -> H, j: nat, i: nat)
    ensures HashAt(h, leaves, j + 1, i / 2)
         == if i % 2 == 0 then h(HashAt(h, leaves, j, i), HashAt(h, leaves, j, Sibling(i)))
            else h(HashAt(h, leaves, j, Sibling(i)), HashAt(h, leaves, j, i))
  {
    assert i % 2 == 0 ==> 2 * (i / 2) == i;
    assert i % 2 != 0 ==> 2 * (i / 2) + 1 == i;
  }

  lemma FoldStep<H>(h: (H, H) -> H, i: nat, own: H, other: H, siblings: seq<H>)
    ensures Fold(h, i, own, [other] + siblings)
         == Fold(h, i / 2, if i % 2 == 0 then h(own, other) else h(other, own), siblings)
  {
    ConsJoin(other, siblings, []);
  }

  /** Folding the right hashes over a node's own climbs to its ancestor. */
  lemma {:induction false} FoldClimbs<H>(h: (H, H) -> H, leaves: nat -> H, j: nat, i: nat, rootJ: nat)
    requires j <= rootJ
    ensures Fold(h, i, HashAt(h, leaves, j, i), TrueHashes(h, leaves, j, i, rootJ))
         == HashAt(h, leaves, rootJ, Up(i, rootJ - j))
    decreases rootJ - j
  {
    if j < rootJ {
      var own, other := HashAt(h, leaves, j, i), HashAt(h, leaves, j, Sibling(i));
      var later := TrueHashes(h, leaves, j + 1, i / 2, rootJ);
      FoldStep(h, i, own, other, later);
      ParentHash(h, leaves, j, i);
      FoldClimbs(h, leaves, j + 1, i / 2, rootJ);
    }
  }

  ghost predicate CollisionFree<H(!new)>(h: (H, H) -> H) {
    forall a, b, c, d :: h(a, b) == h(c, d) ==> a == c && b == d
  }

  /** Without collisions a fold gives away everything that went into it. */
  lemma {:induction false} FoldIsInjective<H(!new)>(h: (H, H) -> H, i: nat, p: H, s: seq<H>, q: H, t: seq<H>)
    requires CollisionFree(h) && |s| == |t|
    ensures Fold(h, i, p, s) == Fold(h, i, q, t) <==> p == q && s == t
    decreases |s|
  {
    if s != [] {
      var left := if i % 2 == 0 then h(p, s[0]) else h(s[0], p);
      var right := if i % 2 == 0 then h(q, t[0]) else h(t[0], q);
      FoldIsInjective(h, i / 2, left, s[1..], right, t[1..]);
      assert s == [s[0]] + s[1..] && t == [t[0]] + t[1..];
    }
  }

  /** The nodes that the path asks for are listed, and what is listed carries the hash of
      its place. */
  ghost predicate Suffices<H>(h: (H, H) -> H, leaves: nat -> H, j: nat, i: nat, rootJ: nat,
                              nodes: seq<TreeNode<H>>)
    requires j <= rootJ
    decreases rootJ - j
  {
    j == rootJ ||
    ((exists node :: node in nodes && At(node, j, Sibling(i))) &&
     (forall node | node in nodes && At(node, j, Sibling(i)) ::
       node.hash == HashAt(h, leaves, j, Sibling(i))) &&
     Suffices(h, leaves, j + 1, i / 2, rootJ, nodes))
  }

  lemma {:induction false} SufficientAreFound<H>(h: (H, H) -> H, leaves: nat -> H, j: nat, i: nat, rootJ: nat,
                                                 nodes: seq<TreeNode<H>>, zero: H)
    requires j <= rootJ && Suffices(h, leaves, j, i, rootJ, nodes)
    ensures FoundHashes(j, i, rootJ, nodes, zero) == TrueHashes(h, leaves, j, i, rootJ)
    decreases rootJ - j
  {
    if j < rootJ {
      FoundIsThere(j, Sibling(i), nodes, zero);
      SufficientAreFound(h, leaves, j + 1, i / 2, rootJ, nodes, zero);
    }
  }

  lemma {:induction false} SmallOverPow2(i: nat, n: nat)
    requires i < Pow2(n)
    ensures i / Pow2(n) == 0
  {
    QuotientIs(i, Pow2(n), 0, i);
  }

  /** When the nodes on the path up to a level are listed, folding what find_node returns
      over the leaf gives the leaf's ancestor on that level. */
  lemma FoundHashesClimb<H>(h: (H, H) -> H, leaves: nat -> H, leaf: nat, level: nat,
                            nodes: seq<TreeNode<H>>, zero: H)
    requires Suffices(h, leaves, 0, leaf, level, nodes)
    ensures Fold(h, leaf, leaves(leaf), FoundHashes(0, leaf, level, nodes, zero))
         == HashAt(h, leaves, level, leaf / Pow2(level))
  {
    SufficientAreFound(h, leaves, 0, leaf, level, nodes, zero);
    FoldClimbs(h, leaves, 0, leaf, level);
    UpIs(leaf, level);
  }

  /** For every height and every leaf of the complete tree of that height it rebuilds the
      root. */
  lemma PathRebuildsRoot<H>(h: (H, H) -> H, leaves: nat -> H, leaf: nat, height: nat,
                            nodes: seq<TreeNode<H>>, zero: H)
    requires leaf < Pow2(height) && Suffices(h, leaves, 0, leaf, height, nodes)
    ensures Fold(h, leaf, leaves(leaf), FoundHashes(0, leaf, height, nodes, zero))
         == HashAt(h, leaves, height, 0)
  {
    FoundHashesClimb(h, leaves, leaf, height, nodes, zero);
    SmallOverPow2(leaf, height);
  }

  lemma {:induction false} TrueHashesLength<H>(h: (H, H) -> H, leaves: nat -> H, j: nat, i: nat, rootJ: nat)
    requires j <= rootJ
    ensures |TrueHashes(h, leaves, j, i, rootJ)| == rootJ - j
    decreases rootJ - j
  {
    if j < rootJ {
      TrueHashesLength(h, leaves, j + 1, i / 2, rootJ);
    }
  }

  /** And without collisions the root comes out for nothing else: only for the leaf's own
      hash and the right hash on every level. */
  lemma RootProvesLeaf<H(!new)>(h: (H, H) -> H, leaves: nat -> H, leaf: nat, height: nat, hash: H, siblings: seq<H>)
    requires CollisionFree(h) && leaf < Pow2(height) && |siblings| == height
    ensures Fold(h, leaf, hash, siblings) == HashAt(h, leaves, height, 0)
       <==> hash == leaves(leaf) && siblings == TrueHashes(h, leaves, 0, leaf, height)
  {
    TrueHashesLength(h, leaves, 0, leaf, height);
    FoldClimbs(h, leaves, 0, leaf, height);
    UpIs(leaf, height);
    SmallOverPow2(leaf, height);
    FoldIsInjective(h, leaf, hash, siblings, leaves(leaf), TrueHashes(h, leaves, 0, leaf, height));
  }

  // ---------- Filling the key structures ----------

  /** A public key with its tree: mgpOsnmaPublicKeyAndMerkleTreeStruct. */
  class KeyAndTree<H> {
    var uNpkId: nat
    var uFlag: nat
    var zNodes: seq<TreeNode<H>>
    var zRootNode: TreeNode<H>

    constructor (uNpkId: nat, uFlag: nat, zNodes: seq<TreeNode<H>>, zRootNode: TreeNode<H>)
      ensures this.uNpkId == uNpkId && this.uFlag == uFlag
      ensures this.zNodes == zNodes && this.zRootNode == zRootNode
    {
      this.uNpkId, this.uFlag := uNpkId, uFlag;
      this.zNodes, this.zRootNode := zNodes, zRootNode;
    }

    /** The siblings on the way up from leaf uNpkId - 1; key 0 has none. */
    function OwnPath(rootJ: nat): seq<int>
      reads this
    {
      Path(0, uNpkId - 1, rootJ)
    }

    /** The nodes of the four lowest levels of that way are in place. */
    ghost predicate HasPath(rootJ: nat, nodes: seq<TreeNode<H>>, zero: H)
      reads this
    {
      |zNodes| == LAYERS && |OwnPath(rootJ)| >= LAYERS &&
      forall layer | 0 <= layer < LAYERS :: zNodes[layer] == Found(layer, OwnPath(rootJ)[layer], nodes, zero)
    }
  }

  /** One key's turn of the filling loop. The result is false when the code would read a
      path past its end, which is undefined. */
  method FillKey<H>(key: KeyAndTree<H>, path: seq<int>, nodes: seq<TreeNode<H>>, zero: H) returns (inBounds: bool)
    requires |key.zNodes| == LAYERS
    modifies key`zNodes
    ensures inBounds <==> |path| >= LAYERS
    ensures |key.zNodes| == LAYERS
    ensures inBounds ==> forall l | 0 <= l < LAYERS :: key.zNodes[l] == Found(l, path[l], nodes, zero)
  {
    for layer := 0 to LAYERS
      invariant |key.zNodes| == LAYERS && layer <= |path|
      invariant forall l | 0 <= l < layer :: key.zNodes[l] == Found(l, path[l], nodes, zero)
    {
      if layer >= |path| {
        return false;
      }
      var node := FindNode(layer, path[layer], nodes, zero);
      key.zNodes := key.zNodes[layer := node];
    }
    return true;
  }

  /** The end of the tree's parsing: an alert message (key 0) leaves the keys alone; a
      second key takes over the first one's tree. All paths are long enough if and only if
      the root is on level four or higher and a second key is not key 0. */
  method FillPaths<H>(first: KeyAndTree<H>, second: KeyAndTree<H>, nodes: seq<TreeNode<H>>, zero: H)
    returns (inBounds: bool)
    requires first != second && |first.zNodes| == |second.zNodes| == LAYERS
    modifies first`zNodes, second`zNodes, second`zRootNode
    ensures first.uNpkId == 0 ==> inBounds && first.zNodes == old(first.zNodes)
    ensures first.uNpkId == 0 || second.uFlag != 1 ==>
      second.zNodes == old(second.zNodes) && second.zRootNode == old(second.zRootNode)
    ensures first.uNpkId > 0 ==>
      (inBounds <==> first.zRootNode.uj >= LAYERS && (second.uFlag == 1 ==> second.uNpkId > 0))
    ensures first.uNpkId > 0 && inBounds ==> first.HasPath(first.zRootNode.uj, nodes, zero)
    ensures first.uNpkId > 0 && inBounds && second.uFlag == 1 ==>
      second.zRootNode == first.zRootNode && second.HasPath(first.zRootNode.uj, nodes, zero)
  {
    if first.uNpkId == 0 {
      return true;
    }
    var rootJ := first.zRootNode.uj;
    PathLength(0, first.uNpkId - 1, rootJ);
    var path0 := GetNodePath(0, first.uNpkId - 1, rootJ, []);
    var path1 := [];
    var keyCnt := if second.uFlag == 1 then 2 else 1;
    if keyCnt == 2 {
      second.zRootNode := first.zRootNode;
      path1 := GetNodePath(0, second.uNpkId - 1, second.zRootNode.uj, []);
      if second.uNpkId > 0 {
        PathLength(0, second.uNpkId - 1, rootJ);
      }
    }
    inBounds := FillKey(first, path0, nodes, zero);
    if inBounds && keyCnt == 2 {
      inBounds := FillKey(second, path1, nodes, zero);
    }
  }

  function Hashes<H>(nodes: seq<TreeNode<H>>): seq<H> {
    seq(|nodes|, k requires 0 <= k < |nodes| => nodes[k].hash)
  }

  lemma {:induction false} PathIsPrefix(j: nat, i: nat, mid: nat, rootJ: nat)
    requires j <= mid <= rootJ
    ensures Path(j, i, mid) <= Path(j, i, rootJ)
    decreases mid - j
  {
    if j < mid {
      PathIsPrefix(j + 1, i / 2, mid, rootJ);
    }
  }

  lemma SixteenLeaves()
    ensures Pow2(LAYERS) == 16
  {
    assert Pow2(2) == 4;
  }

  lemma StoredHashes<H>(key: KeyAndTree<H>, rootJ: nat, nodes: seq<TreeNode<H>>, zero: H)
    requires key.uNpkId > 0 && rootJ >= LAYERS && key.HasPath(rootJ, nodes, zero)
    ensures Hashes(key.zNodes) == FoundHashes(0, key.uNpkId - 1, LAYERS, nodes, zero)
  {
    var leaf := key.uNpkId - 1;
    var path := Path(0, leaf, LAYERS);
    PathIsPrefix(0, leaf, LAYERS, rootJ);
    FoundHashesFollowPath(0, leaf, LAYERS, nodes, zero);
    assert forall k | 0 <= k < LAYERS :: Hashes(key.zNodes)[k] == Found(0 + k, path[k], nodes, zero).hash;
  }

  /** Whatever the height of the root, what was stored for a key leads from its leaf to its
      ancestor on level four: to the root of a tree of height four, whose sixteen leaves
      are the keys, and no further than that level in a higher tree. */
  lemma StoredNodesClimbFourLevels<H>(key: KeyAndTree<H>, rootJ: nat, h: (H, H) -> H, leaves: nat -> H,
                                      nodes: seq<TreeNode<H>>, zero: H)
    requires key.uNpkId > 0 && rootJ >= LAYERS && key.HasPath(rootJ, nodes, zero)
    requires Suffices(h, leaves, 0, key.uNpkId - 1, |key.zNodes|, nodes)
    ensures var (leaf, level) := (key.uNpkId - 1, |key.zNodes|);
      var folded := Fold(h, leaf, leaves(leaf), Hashes(key.zNodes));
      folded == HashAt(h, leaves, level, leaf / 16)
  {
    StoredHashes(key, rootJ, nodes, zero);
    FoundHashesClimb(h, leaves, key.uNpkId - 1, |key.zNodes|, nodes, zero);
    assert Pow2(|key.zNodes|) == 16 by {
      SixteenLeaves();
    }
  }
}
