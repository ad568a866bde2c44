// The quadtree as the layout keeps it: nodes that are updated in place, refining the
// trees of Quadtree.
module QuadtreeNodes {
  import opened Basics
  import opened Quadtree

  // The sparse array of children is a map from quadrants.
  class QuadNode {
    var leaf: bool
    var nodes: map<Quadrant, QuadNode>
    var item: Option<Item>
    var charge: real
    ghost var tree: Tree
    ghost var repr: set<QuadNode>

    ghost predicate Valid()
      reads this, repr
      decreases repr
    {
      && this in repr
      && tree.Quad? && tree.leaf == leaf && tree.item == item && (leaf ==> nodes == map[])
      && (forall q | q in nodes :: nodes[q] in repr && nodes[q].repr <= repr && this !in nodes[q].repr)
      && (forall q | q in nodes :: nodes[q].Valid() && nodes[q].tree == Child(tree, q))
      && (forall q {:trigger Child(tree, q)} | q !in nodes :: Child(tree, q) == Absent)
      && (forall q, k | q in nodes && k in nodes && q != k :: nodes[q].repr !! nodes[k].repr)
    }

    constructor ()
      ensures Valid() && fresh(repr) && tree == EMPTY && repr == {this}
    {
      leaf, nodes, item, charge := true, map[], None, 0.0;
      tree, repr := EMPTY, {this};
    }

    // The depth is there for the proof that the recursion ends.
    method Insert(p: Item, s: Square, ghost depth: nat)
      requires Valid() && InsertUpTo(depth, tree, p, s).Some?
      modifies repr
      ensures Valid() && fresh(repr - old(repr))
      ensures tree == InsertUpTo(depth, old(tree), p, s).value
      decreases depth, 4
    {
      if leaf && item.Some? && !Coincident(p, item.value) {
        Split(item.value, p, s, depth);
      } else if leaf && item.None? {
        SetItem(Some(p));
      } else {
        InsertChild(p, s, depth);
      }
    }

    // A leaf with a point of its own passes both points on.
    method Split(q: Item, p: Item, s: Square, ghost depth: nat)
      requires Valid() && leaf && item == Some(q) && !Coincident(p, q) && InsertUpTo(depth, tree, p, s).Some?
      modifies repr
      ensures Valid() && fresh(repr - old(repr))
      ensures tree == InsertUpTo(depth, old(tree), p, s).value
      decreases depth, 3
    {
      SetItem(None);
      ghost var before := repr;
      InsertChild(q, s, depth);
      ghost var between := repr;
      InsertChild(p, s, depth);
      assert repr - before <= (repr - between) + (between - before);
    }

    method SetItem(value: Option<Item>)
      requires Valid()
      modifies this
      ensures Valid() && repr == old(repr) && tree == old(tree).(item := value)
    {
      item := value;
      ghost var t := tree;
      tree := t.(item := value);
      assert forall q {:trigger Child(tree, q)} :: Child(tree, q) == Child(t, q);
    }

    method InsertChild(p: Item, s: Square, ghost depth: nat)
      requires Valid() && InsertChildUpTo(depth, tree, p, s).Some?
      modifies repr
      ensures Valid() && fresh(repr - old(repr))
      ensures tree == InsertChildUpTo(depth, old(tree), p, s).value
      decreases depth, 2
    {
      var q := QuadrantOf(p, s);
      ghost var t, before := tree, repr;
      Open(q);
      ghost var between := repr;
      assert Child(tree, q) == if Child(t, q).Absent? then EMPTY else Child(t, q);
      Pass(q, p, Sub(s, q), depth - 1);
      assert repr - before <= (repr - between) + (between - before);
    }

    method Pass(q: Quadrant, p: Item, s: Square, ghost depth: nat)
      requires Valid() && !leaf && q in nodes && InsertUpTo(depth, Child(tree, q), p, s).Some?
      modifies repr
      ensures Valid() && fresh(repr - old(repr))
      ensures tree == WithChild(old(tree), q, InsertUpTo(depth, Child(old(tree), q), p, s).value)
      decreases depth, 5
    {
      nodes[q].Insert(p, s, depth);
      Close(q);
    }

    // The node is no longer a leaf and has a child in quadrant q.
    method Open(q: Quadrant)
      requires Valid()
      modifies this
      ensures Valid() && fresh(repr - old(repr)) && !leaf && q in nodes
      ensures tree == WithChild(old(tree).(leaf := false), q,
        if Child(old(tree), q).Absent? then EMPTY else Child(old(tree), q))
    {
      SetInner();
      if q !in nodes {
        var child := new QuadNode();
        Adopt(q, child);
      } else {
        assert tree == WithChild(tree, q, Child(tree, q));
      }
    }

    method SetInner()
      requires Valid()
      modifies this`leaf, this`tree
      ensures Valid() && !leaf && tree == old(tree).(leaf := false)
    {
      leaf := false;
      ghost var t := tree;
      tree := t.(leaf := false);
      assert forall q {:trigger Child(tree, q)} :: Child(tree, q) == Child(t, q);
    }

    method Adopt(q: Quadrant, child: QuadNode)
      requires Valid() && !leaf && q !in nodes && child.Valid() && child.repr !! repr
      modifies this`nodes, this`tree, this`repr
      ensures Valid() && q in nodes && repr == old(repr) + child.repr && tree == WithChild(old(tree), q, child.tree)
    {
      nodes := nodes[q := child];
      ghost var t := tree;
      tree := WithChild(t, q, child.tree);
      repr := repr + child.repr;
      assert forall k {:trigger Child(tree, k)} :: Child(tree, k) == if k == q then child.tree else Child(t, k);
    }

    // The node takes over what has become of its child in quadrant q.
    ghost method Close(q: Quadrant)
      requires this in repr && tree.Quad? && tree.leaf == leaf && tree.item == item && q in nodes && !leaf
      requires forall k | k in nodes :: this !in nodes[k].repr && nodes[k].Valid()
      requires forall k | k in nodes && k != q ::
                 nodes[k] in repr && nodes[k].repr <= repr && nodes[k].tree == Child(tree, k)
      requires forall k {:trigger Child(tree, k)} | k !in nodes :: Child(tree, k) == Absent
      requires forall k, l | k in nodes && l in nodes && k != l :: nodes[k].repr !! nodes[l].repr
      modifies this`tree, this`repr
      ensures Valid() && repr == old(repr) + nodes[q].repr && tree == WithChild(old(tree), q, nodes[q].tree)
    {
      ghost var t := tree;
      tree := WithChild(t, q, nodes[q].tree);
      repr := repr + nodes[q].repr;
      assert forall k {:trigger Child(tree, k)} :: Child(tree, k) == if k == q then nodes[q].tree else Child(t, k);
    }

    // d3_layout_forceAccumulate without the centre of charge.
    method Accumulate(share: Item -> real)
      requires Valid()
      modifies repr`charge
      ensures Valid() && charge == Charge(tree, share)
      decreases repr, 2
    {
      charge := 0.0;
      AllChildCharges(tree, share);
      if !leaf {
        AddChildren(share);
      } else {
        NoChildCharges(tree, share);
      }
      if item.Some? {
        AddCharge(share(item.value));
      }
    }

    method AddCharge(c: real)
      requires Valid()
      modifies this`charge
      ensures Valid() && charge == old(charge) + c
    {
      charge := charge + c;
    }

    method AddChildren(share: Item -> real)
      requires Valid() && charge == 0.0
      modifies repr`charge
      ensures Valid() && charge == ChildCharges(tree, share, 4)
      decreases repr, 1
    {
      for i := 0 to 4
        invariant Valid() && charge == ChildCharges(tree, share, i)
      {
        AddChild(QUADRANTS[i], share);
      }
    }

    method AddChild(q: Quadrant, share: Item -> real)
      requires Valid()
      modifies repr`charge
      ensures Valid() && charge == old(charge) + Charge(Child(tree, q), share)
      decreases repr, 0
    {
      if q in nodes {
        nodes[q].Accumulate(share);
        AddCharge(nodes[q].charge);
      }
    }
  }

  const QUADRANTS: seq<Quadrant> :=
    [Quadrant(false, false), Quadrant(true, false), Quadrant(false, true), Quadrant(true, true)]

  function ChildCharges(t: Tree, share: Item -> real, n: nat): real
    requires t.Quad? && n <= 4
  {
    if n == 0 then 0.0 else ChildCharges(t, share, n - 1) + Charge(Child(t, QUADRANTS[n - 1]), share)
  }

  lemma AllChildCharges(t: Tree, share: Item -> real)
    requires t.Quad?
    ensures ChildCharges(t, share, 4) + PointCharge(t.item, share) == Charge(t, share)
  {
    var sum := (n: nat) requires n <= 4 => ChildCharges(t, share, n);
    assert sum(0) == 0.0;
    assert sum(1) == Charge(t.c0, share);
    assert sum(2) == sum(1) + Charge(t.c1, share);
    assert sum(3) == sum(2) + Charge(t.c2, share);
    assert sum(4) == sum(3) + Charge(t.c3, share);
  }

  lemma NoChildCharges(t: Tree, share: Item -> real)
    requires t.Quad? && forall q {:trigger Child(t, q)} :: Child(t, q) == Absent
    ensures ChildCharges(t, share, 4) == 0.0
  {
    AllChildCharges(t, share);
    assert t.c0 == Child(t, QUADRANTS[0]) && t.c1 == Child(t, QUADRANTS[1]);
    assert t.c2 == Child(t, QUADRANTS[2]) && t.c3 == Child(t, QUADRANTS[3]);
  }

  // No smaller square with this corner holds the three points.
  ghost predicate Touches(s: Square, left: Item, top: Item, far: Item) {
    left.x == s.x1 && top.y == s.y1 && (s.side == far.x - left.x || s.side == far.y - top.y)
  }

  // The root square: the bounding box of the data, made square. Without data there is
  // none.
  method RootSquare(data: seq<Item>) returns (s: Option<Square>)
    ensures s.None? <==> data == []
    ensures s.Some? ==> forall p | p in data :: Inside(p, s.value)
    ensures s.Some? ==> exists p, q, r :: p in data && q in data && r in data && Touches(s.value, p, q, r)
    ensures s.Some? ==>
              && (exists p :: p in data && p.x == s.value.x1) && (exists p :: p in data && p.y == s.value.y1)
              && (exists p :: p in data && (p.x == s.value.x1 + s.value.side || p.y == s.value.y1 + s.value.side))
  {
    if data == [] { return None; }
    var left, top, right, bottom := data[0], data[0], data[0], data[0];
    for i := 1 to |data|
      invariant left in data && top in data && right in data && bottom in data
      invariant forall k | 0 <= k < i :: left.x <= data[k].x <= right.x && top.y <= data[k].y <= bottom.y
    {
      var d := data[i];
      if d.x < left.x { left := d; }
      if d.y < top.y { top := d; }
      if d.x > right.x { right := d; }
      if d.y > bottom.y { bottom := d; }
    }
    var dx, dy := right.x - left.x, bottom.y - top.y;
    s := Some(Square(left.x, top.y, if dx > dy then dx else dy));
    assert Touches(s.value, left, top, if dx > dy then right else bottom);
  }

  // d3.geom.quadtree over data whose root square is found first.
  method BuildTree(data: seq<Item>) returns (root: QuadNode, ghost s: Square)
    ensures root.Valid() && fresh(root.repr)
    ensures (forall p | p in data :: Inside(p, s)) && Builds(data, s) && root.tree == Build(data, s)
  {
    var found := RootSquare(data);
    var square := if found.Some? then found.value else Square(0.0, 0.0, 0.0);
    s := square;
    root := new QuadNode();
    for i := 0 to |data|
      invariant root.Valid() && fresh(root.repr)
      invariant Builds(data[..i], s) && root.tree == Build(data[..i], s)
    {
      InsideBuilds(data[..i + 1], s);
      assert data[..i + 1][..i] == data[..i];
      root.Insert(data[i], square, Depth(root.tree, data[i], s));
    }
    assert data[..|data|] == data;
  }

  // The force layout's tree: its root holds alpha times the sum of the charges.
  method ChargedTree(data: seq<Item>, alpha: real, charges: nat -> real) returns (root: QuadNode)
    ensures root.charge == alpha * SumOf(ChargesOf(data, charges))
  {
    ghost var s;
    root, s := BuildTree(data);
    root.Accumulate(Share(alpha, charges));
    RootCharge(data, s, alpha, charges);
  }
}
