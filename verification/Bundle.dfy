// The bundle layout: the path between two nodes of a tree through their least
// common ancestor.
module Bundle {
  import opened Basics

  class TreeNode {
    var parent: TreeNode?

    constructor (parent: TreeNode?)
      ensures this.parent == parent
    {
      this.parent := parent;
    }
  }

  // The nodes from one up to the root of its tree.
  ghost predicate Chain(chain: seq<TreeNode>)
    reads chain
  {
    && chain != [] && chain[|chain| - 1].parent == null
    && forall i {:trigger Climbs(chain, i)} | 0 <= i < |chain| - 1 :: Climbs(chain, i)
  }

  ghost predicate Climbs(chain: seq<TreeNode>, i: nat)
    requires i + 1 < |chain|
    reads chain[i]
  {
    chain[i].parent == chain[i + 1]
  }

  // From a shared node upwards two chains are the same.
  lemma {:induction false} SharedSuffix(a: seq<TreeNode>, b: seq<TreeNode>, i: nat, j: nat)
    requires Chain(a) && Chain(b) && i < |a| && j < |b| && a[i] == b[j]
    ensures a[i..] == b[j..] && |a| - i == |b| - j
    decreases |a| - i
  {
    assert i + 1 < |a| ==> Climbs(a, i);
    assert j + 1 < |b| ==> Climbs(b, j);
    if i + 1 < |a| {
      SharedSuffix(a, b, i + 1, j + 1);
      assert a[i..] == [a[i]] + a[i + 1..] && b[j..] == [b[j]] + b[j + 1..];
    }
  }

  lemma ChainInjective(chain: seq<TreeNode>, i: nat, j: nat)
    requires Chain(chain) && i < |chain| && j < |chain| && chain[i] == chain[j]
    ensures i == j
  {
    SharedSuffix(chain, chain, i, j);
  }

  // d3_layout_bundleAncestors: the loop ends at the root.
  method Ancestors(node: TreeNode, ghost chain: seq<TreeNode>) returns (ancestors: seq<TreeNode>)
    requires Chain(chain) && chain[0] == node
    ensures ancestors == chain
  {
    ancestors := [];
    var last, parent := node, node.parent;
    ghost var i := 0;
    while parent != null
      invariant i < |chain| && ancestors == chain[..i] && last == chain[i] && parent == last.parent
      decreases |chain| - i
    {
      assert i + 1 < |chain| && Climbs(chain, i);
      ancestors := ancestors + [last];
      last := parent;
      parent := parent.parent;
      i := i + 1;
    }
    assert i + 1 < |chain| ==> Climbs(chain, i);
    ancestors := ancestors + [last];
  }

  // The first node of one chain that is also on the other: nothing below it is shared.
  ghost predicate IsLeastCommon(a: seq<TreeNode>, b: seq<TreeNode>, i: nat, j: nat) {
    && i < |a| && j < |b| && a[i] == b[j]
    && (forall k | 0 <= k < i :: a[k] !in b)
    && (forall k | 0 <= k < j :: b[k] !in a)
  }

  // pop, which yields nothing on an empty array.
  method Pop(nodes: seq<TreeNode>) returns (node: TreeNode?, rest: seq<TreeNode>)
    ensures nodes == [] ==> node == null && rest == []
    ensures nodes != [] ==> node == nodes[|nodes| - 1] && rest == nodes[..|nodes| - 1]
  {
    if nodes == [] { return null, []; }
    return nodes[|nodes| - 1], nodes[..|nodes| - 1];
  }

  lemma SharedBelow(a: seq<TreeNode>, b: seq<TreeNode>, i: nat, j: nat, k: nat, l: nat)
    requires Chain(a) && Chain(b) && i < |a| && j < |b| && |a| - i == |b| - j
    requires k < |a| && l < |b| && a[k] == b[l] && k < i
    ensures |a| - k == |b| - l && l < j && a[i - 1] == b[j - 1]
  {
    SharedSuffix(a, b, k, l);
    assert a[k..][i - 1 - k] == a[i - 1] && b[l..][i - 1 - k] == b[j - 1];
  }

  lemma BelowIsUnshared(a: seq<TreeNode>, b: seq<TreeNode>, i: nat, j: nat)
    requires Chain(a) && Chain(b) && i < |a| && j < |b| && |a| - i == |b| - j && a[i] == b[j]
    requires i == 0 || j == 0 || a[i - 1] != b[j - 1]
    ensures IsLeastCommon(a, b, i, j)
  {
    forall k, l | 0 <= k < |a| && 0 <= l < |b| && a[k] == b[l] ensures k >= i && l >= j {
      SharedSuffix(a, b, k, l);
      if k < i { SharedBelow(a, b, i, j, k, l); }
    }
  }

  // d3_layout_bundleLeastCommonAncestor: nothing when the nodes are in different trees.
  method LeastCommonAncestor(a: TreeNode, b: TreeNode, ghost aChain: seq<TreeNode>, ghost bChain: seq<TreeNode>)
    returns (shared: TreeNode?, ghost i: nat, ghost j: nat)
    requires Chain(aChain) && aChain[0] == a && Chain(bChain) && bChain[0] == b
    ensures shared == null <==> aChain[|aChain| - 1] != bChain[|bChain| - 1]
    ensures shared != null ==> IsLeastCommon(aChain, bChain, i, j) && aChain[i] == shared
  {
    if a == b {
      SharedSuffix(aChain, bChain, 0, 0);
      assert aChain[|aChain| - 1] == aChain[0..][|aChain| - 1] && bChain[|bChain| - 1] == bChain[0..][|bChain| - 1];
      return a, 0, 0;
    }
    var aNodes := Ancestors(a, aChain);
    var bNodes := Ancestors(b, bChain);
    shared, i, j := HighestUnshared(aNodes, bNodes);
    if i < |aChain| {
      BelowIsUnshared(aChain, bChain, i, j);
    }
  }

  // The loop over both lists of ancestors from the root downwards.
  method HighestUnshared(aAll: seq<TreeNode>, bAll: seq<TreeNode>)
    returns (shared: TreeNode?, ghost i: nat, ghost j: nat)
    requires aAll != [] && bAll != [] && aAll[0] != bAll[0]
    ensures i <= |aAll| && j <= |bAll| && |aAll| - i == |bAll| - j
    ensures forall k | i <= k < |aAll| :: aAll[k] == bAll[k - i + j]
    ensures i == 0 || j == 0 || aAll[i - 1] != bAll[j - 1]
    ensures shared == if i < |aAll| then aAll[i] else null
  {
    var aNode: TreeNode?, bNode: TreeNode?, aNodes, bNodes;
    aNode, aNodes := Pop(aAll);
    bNode, bNodes := Pop(bAll);
    shared := null;
    i, j := |aAll|, |bAll|;
    while aNode == bNode
      invariant i <= |aAll| && j <= |bAll| && |aAll| - i == |bAll| - j
      invariant forall k | i <= k < |aAll| :: aAll[k] == bAll[k - i + j]
      invariant Popped(aNode, aNodes, aAll, i) && Popped(bNode, bNodes, bAll, j)
      invariant shared == if i < |aAll| then aAll[i] else null
      decreases i
    {
      assert i > 0 && j > 0;
      shared := aNode;
      aNode, aNodes := Pop(aNodes);
      bNode, bNodes := Pop(bNodes);
      i, j := i - 1, j - 1;
    }
  }

  ghost predicate Popped(node: TreeNode?, rest: seq<TreeNode>, all: seq<TreeNode>, i: nat) {
    && i <= |all|
    && if i > 0 then node == all[i - 1] && rest == all[..i - 1] else node == null && rest == []
  }

  // A path that climbs to its turning point and descends from there, without visiting
  // a node twice.
  ghost predicate Path(points: seq<TreeNode>, turn: nat)
    reads points
  {
    && turn < |points|
    && (forall k | 0 <= k < turn :: points[k].parent == points[k + 1])
    && (forall k | turn <= k < |points| - 1 :: points[k + 1].parent == points[k])
    && (forall k, l | 0 <= k < |points| && 0 <= l < |points| && points[k] == points[l] :: k == l)
  }

  lemma UpAndDownIsPath(a: seq<TreeNode>, b: seq<TreeNode>, i: nat, j: nat)
    requires Chain(a) && Chain(b) && IsLeastCommon(a, b, i, j)
    ensures Path(a[..i + 1] + Reversed(b[..j]), i)
    ensures (a[..i + 1] + Reversed(b[..j]))[i + j] == b[0]
  {
    var points := a[..i + 1] + Reversed(b[..j]);
    assert forall k | 0 <= k <= i :: points[k] == a[k];
    assert forall k | i <= k <= i + j :: points[k] == b[i + j - k];
    forall k | 0 <= k < i ensures points[k].parent == points[k + 1] {
      assert Climbs(a, k);
    }
    forall k | i <= k < |points| - 1 ensures points[k + 1].parent == points[k] {
      assert Climbs(b, i + j - k - 1);
    }
    forall k, l | 0 <= k < |points| && 0 <= l < |points| && points[k] == points[l] ensures k == l {
      if k <= i && l <= i {
        ChainInjective(a, k, l);
      } else if k >= i && l >= i {
        ChainInjective(b, i + j - k, i + j - l);
      }
    }
  }

  // d3_layout_bundlePath, for two nodes of one tree.
  method BundlePath(source: TreeNode, target: TreeNode, ghost up: seq<TreeNode>, ghost down: seq<TreeNode>)
    returns (points: seq<TreeNode>, ghost turn: nat)
    requires Chain(up) && up[0] == source && Chain(down) && down[0] == target
    requires up[|up| - 1] == down[|down| - 1]
    ensures points != [] && points[0] == source && points[|points| - 1] == target
    ensures Path(points, turn)
    ensures exists j :: IsLeastCommon(up, down, turn, j) && up[turn] == points[turn]
  {
    var start, end := source, target;
    var lca: TreeNode?;
    ghost var j;
    lca, turn, j := LeastCommonAncestor(start, end, up, down);
    points := [start];
    ghost var i := 0;
    while start != lca
      invariant i <= turn && start == up[i] && points == up[..i + 1]
      decreases turn - i
    {
      assert i < turn && Climbs(up, i);
      start := start.parent;
      points := points + [start];
      i := i + 1;
    }
    ChainInjective(up, i, turn);
    var k := |points|;
    i := 0;
    while end != lca
      invariant i <= j && end == down[i] && points == up[..turn + 1] + Reversed(down[..i])
      decreases j - i
    {
      assert i < j && Climbs(down, i);
      ReversedNext(down, i);
      points := points[..k] + [end] + points[k..];
      end := end.parent;
      i := i + 1;
    }
    ChainInjective(down, i, j);
    UpAndDownIsPath(up, down, turn, j);
  }

  lemma {:induction false} ReversedNext<T>(s: seq<T>, i: nat)
    requires i < |s|
    ensures Reversed(s[..i + 1]) == [s[i]] + Reversed(s[..i])
  {
    assert |Reversed(s[..i + 1])| == i + 1;
  }
}
