// The quadtree: what inserting a point does to the tree of squares, and what the
// force layout accumulates over it.
module Quadtree {
  import opened Basics

  // A datum by its index, with the coordinates it was inserted at.
  datatype Item = Item(x: real, y: real, index: nat)

  datatype Square = Square(x1: real, y1: real, side: real)

  predicate Inside(p: Item, s: Square) {
    s.x1 <= p.x <= s.x1 + s.side && s.y1 <= p.y <= s.y1 + s.side
  }

  function Abs(r: real): real { if r < 0.0 then -r else r }

  predicate Coincident(p: Item, q: Item) {
    Abs(q.x - p.x) + Abs(q.y - p.y) < 0.01
  }

  // ---- Quadrants ----

  datatype Quadrant = Quadrant(right: bool, bottom: bool)

  function QuadrantOf(p: Item, s: Square): Quadrant {
    Quadrant(p.x >= s.x1 + s.side / 2.0, p.y >= s.y1 + s.side / 2.0)
  }

  function Sub(s: Square, q: Quadrant): Square {
    var half := s.side / 2.0;
    Square(if q.right then s.x1 + half else s.x1, if q.bottom then s.y1 + half else s.y1, half)
  }

  lemma InsideSub(p: Item, s: Square)
    requires Inside(p, s)
    ensures Inside(p, Sub(s, QuadrantOf(p, s)))
  {
  }

  // ---- The tree ----

  datatype Tree = Absent | Quad(leaf: bool, item: Option<Item>, c0: Tree, c1: Tree, c2: Tree, c3: Tree)

  function Child(t: Tree, q: Quadrant): (c: Tree)
    requires t.Quad?
  {
    match q
    case Quadrant(false, false) => t.c0
    case Quadrant(true, false) => t.c1
    case Quadrant(false, true) => t.c2
    case Quadrant(true, true) => t.c3
  }

  function WithChild(t: Tree, q: Quadrant, c: Tree): Tree
    requires t.Quad?
  {
    match q
    case Quadrant(false, false) => t.(c0 := c)
    case Quadrant(true, false) => t.(c1 := c)
    case Quadrant(false, true) => t.(c2 := c)
    case Quadrant(true, true) => t.(c3 := c)
  }

  const EMPTY := Quad(true, None, Absent, Absent, Absent, Absent)

  function Own(item: Option<Item>): multiset<Item> {
    if item.Some? then multiset{item.value} else multiset{}
  }

  function Items(t: Tree): multiset<Item> {
    if t.Absent? then multiset{}
    else Own(t.item) + Items(t.c0) + Items(t.c1) + Items(t.c2) + Items(t.c3)
  }

  // A leaf has no children.
  ghost predicate Shaped(t: Tree) {
    t.Quad? ==> forall q {:trigger Child(t, q)} :: (t.leaf ==> Child(t, q).Absent?) && Shaped(Child(t, q))
  }

  // Every item is inside the square of its node.
  ghost predicate Within(t: Tree, s: Square) {
    t.Quad? ==>
      && (t.item.Some? ==> Inside(t.item.value, s))
      && forall q {:trigger Child(t, q)} :: Within(Child(t, q), Sub(s, q))
  }

  // Every item is where its quadrants lead to.
  ghost predicate Leads(t: Tree, s: Square) {
    t.Quad? ==> forall q {:trigger Child(t, q)} :: LeadTo(Child(t, q), s, q) && Leads(Child(t, q), Sub(s, q))
  }

  ghost predicate LeadTo(t: Tree, s: Square, q: Quadrant) {
    forall p | p in Items(t) :: QuadrantOf(p, s) == q
  }

  lemma EmptyTree(s: Square)
    ensures Shaped(EMPTY) && Within(EMPTY, s) && Leads(EMPTY, s) && Twinned(EMPTY) && Items(EMPTY) == multiset{}
  {
    forall q {:trigger Child(EMPTY, q)} ensures Child(EMPTY, q) == Absent {
    }
    assert Items(Absent) == multiset{};
  }

  lemma SameChildren(t: Tree, item: Option<Item>)
    requires t.Quad?
    ensures forall q {:trigger Child(t.(item := item), q)} :: Child(t.(item := item), q) == Child(t, q)
  {
  }

  // ---- insert and insertChild ----

  // The recursion of the two need not end, so what they return is defined for
  // recursions no deeper than a given depth.
  function InsertUpTo(depth: nat, t: Tree, p: Item, s: Square): (r: Option<Tree>)
    ensures r.Some? ==> r.value.Quad?
    decreases depth, 1
  {
    if t.Absent? then Some(EMPTY.(item := Some(p)))
    else if t.leaf && t.item.None? then Some(t.(item := Some(p)))
    else if t.leaf && !Coincident(p, t.item.value) then
      var split := InsertChildUpTo(depth, t.(item := None), t.item.value, s);
      if split.None? then None else InsertChildUpTo(depth, split.value, p, s)
    else InsertChildUpTo(depth, t, p, s)
  }

  function InsertChildUpTo(depth: nat, t: Tree, p: Item, s: Square): (r: Option<Tree>)
    requires t.Quad?
    ensures r.Some? ==> r.value.Quad?
    decreases depth, 0
  {
    if depth == 0 then None
    else
      var q := QuadrantOf(p, s);
      var c := InsertUpTo(depth - 1, Child(t, q), p, Sub(s, q));
      if c.None? then None else Some(WithChild(t.(leaf := false), q, c.value))
  }

  ghost predicate Ends(t: Tree, p: Item, s: Square) {
    exists depth: nat :: InsertUpTo(depth, t, p, s).Some?
  }

  ghost function Depth(t: Tree, p: Item, s: Square): (depth: nat)
    requires Ends(t, p, s)
    ensures InsertUpTo(depth, t, p, s).Some?
  {
    var depth: nat :| InsertUpTo(depth, t, p, s).Some?;
    depth
  }

  ghost function Insert(t: Tree, p: Item, s: Square): Tree
    requires Ends(t, p, s)
  {
    InsertUpTo(Depth(t, p, s), t, p, s).value
  }

  // However deep the recursion may go, the result is the same.
  lemma {:induction false} InsertUnique(depth: nat, more: nat, t: Tree, p: Item, s: Square)
    requires depth <= more && InsertUpTo(depth, t, p, s).Some?
    ensures InsertUpTo(more, t, p, s) == InsertUpTo(depth, t, p, s)
    decreases depth, 1
  {
    if t.Quad? && !(t.leaf && t.item.None?) {
      if t.leaf && !Coincident(p, t.item.value) {
        var cleared := t.(item := None);
        InsertChildUnique(depth, more, cleared, t.item.value, s);
        InsertChildUnique(depth, more, InsertChildUpTo(depth, cleared, t.item.value, s).value, p, s);
      } else {
        InsertChildUnique(depth, more, t, p, s);
      }
    }
  }

  lemma {:induction false} InsertChildUnique(depth: nat, more: nat, t: Tree, p: Item, s: Square)
    requires depth <= more && t.Quad? && InsertChildUpTo(depth, t, p, s).Some?
    ensures InsertChildUpTo(more, t, p, s) == InsertChildUpTo(depth, t, p, s)
    decreases depth, 0
  {
    var q := QuadrantOf(p, s);
    InsertUnique(depth - 1, more - 1, Child(t, q), p, Sub(s, q));
  }

  lemma InsertIs(depth: nat, t: Tree, p: Item, s: Square)
    requires InsertUpTo(depth, t, p, s).Some?
    ensures Ends(t, p, s) && Insert(t, p, s) == InsertUpTo(depth, t, p, s).value
  {
    var d := Depth(t, p, s);
    if d <= depth {
      InsertUnique(d, depth, t, p, s);
    } else {
      InsertUnique(depth, d, t, p, s);
    }
  }

  // ---- When insertion ends ----

  function Bound(v: real, low: real, side: real): real {
    if v < low then low else if v > low + side then low + side else v
  }

  // The point of the square that is nearest.
  function Clamp(p: Item, s: Square): (real, real) {
    (Bound(p.x, s.x1, s.side), Bound(p.y, s.y1, s.side))
  }

  // Two points come to lie in different quadrants sooner or later.
  predicate Parts(p: Item, q: Item, s: Square) {
    if s.side > 0.0 then Clamp(p, s) != Clamp(q, s) else QuadrantOf(p, s) != QuadrantOf(q, s)
  }

  // The leaf the point is led to is empty, or holds a point that is coincident or
  // that it parts from.
  predicate Free(t: Tree, p: Item, s: Square) {
    if t.Absent? || (t.leaf && t.item.None?) then true
    else if t.leaf then Coincident(p, t.item.value) || Parts(p, t.item.value, s)
    else Free(Child(t, QuadrantOf(p, s)), p, Sub(s, QuadrantOf(p, s)))
  }

  lemma PartsStep(p: Item, q: Item, s: Square)
    ensures Parts(p, q, s) <==>
            QuadrantOf(p, s) != QuadrantOf(q, s) || Parts(p, q, Sub(s, QuadrantOf(p, s)))
  {
  }

  function Leaf(q: Item): Tree { Quad(true, Some(q), Absent, Absent, Absent, Absent) }

  lemma LeafOnly(t: Tree)
    requires Shaped(t) && t.Quad? && t.leaf && t.item.Some?
    ensures t == Leaf(t.item.value)
  {
    assert Child(t, Quadrant(false, false)).Absent? && Child(t, Quadrant(true, false)).Absent?;
    assert Child(t, Quadrant(false, true)).Absent? && Child(t, Quadrant(true, true)).Absent?;
  }

  // A leaf that is split: its point is passed on to a new leaf, and the other point is
  // inserted there only if it is led there, too.
  lemma SplitLeaf(depth: nat, q: Item, p: Item, s: Square)
    requires depth > 0 && !Coincident(p, q)
    ensures InsertUpTo(depth, Leaf(q), p, s).Some? <==>
            QuadrantOf(p, s) != QuadrantOf(q, s)
            || InsertUpTo(depth - 1, Leaf(q), p, Sub(s, QuadrantOf(p, s))).Some?
  {
    var leaf, cleared, k := Leaf(q), EMPTY, QuadrantOf(q, s);
    assert leaf.Quad? && cleared == leaf.(item := None) && Child(cleared, k).Absent?;
    var split := WithChild(cleared.(leaf := false), k, Leaf(q));
    assert InsertChildUpTo(depth, cleared, q, s) == Some(split);
    var next := Child(split, QuadrantOf(p, s));
    assert next == if QuadrantOf(p, s) == k then leaf else Absent;
    assert InsertUpTo(depth, leaf, p, s) == InsertChildUpTo(depth, split, p, s);
    assert InsertChildUpTo(depth, split, p, s).Some? <==>
           InsertUpTo(depth - 1, next, p, Sub(s, QuadrantOf(p, s))).Some?;
  }

  lemma {:induction false} EndsFree(depth: nat, t: Tree, p: Item, s: Square)
    requires Shaped(t) && InsertUpTo(depth, t, p, s).Some?
    ensures Free(t, p, s)
    decreases depth
  {
    if t.Absent? || (t.leaf && t.item.None?) {
    } else if !t.leaf {
      EndsFree(depth - 1, Child(t, QuadrantOf(p, s)), p, Sub(s, QuadrantOf(p, s)));
    } else if !Coincident(p, t.item.value) {
      var q := t.item.value;
      LeafOnly(t);
      SplitLeaf(depth, q, p, s);
      PartsStep(p, q, s);
      if QuadrantOf(p, s) == QuadrantOf(q, s) {
        LeafOnly(Leaf(q));
        EndsFree(depth - 1, Leaf(q), p, Sub(s, QuadrantOf(p, s)));
      }
    }
  }

  lemma {:induction false} FreeEnds(t: Tree, p: Item, s: Square) returns (depth: nat)
    requires Shaped(t) && Free(t, p, s)
    ensures InsertUpTo(depth, t, p, s).Some?
  {
    if t.Absent? || (t.leaf && t.item.None?) {
      depth := 0;
    } else if !t.leaf {
      var above := FreeEnds(Child(t, QuadrantOf(p, s)), p, Sub(s, QuadrantOf(p, s)));
      depth := above + 1;
    } else {
      LeafOnly(t);
      depth := LeafEnds(t.item.value, p, s);
    }
  }

  function Gap(p: Item, q: Item, s: Square): real {
    var a, b := Abs(Clamp(p, s).0 - Clamp(q, s).0), Abs(Clamp(p, s).1 - Clamp(q, s).1);
    if a < b then b else a
  }

  // Points in one quadrant of a square stay as far apart while the square is halved.
  lemma GapStays(p: Item, q: Item, s: Square)
    requires s.side > 0.0 && QuadrantOf(p, s) == QuadrantOf(q, s)
    ensures Gap(p, q, Sub(s, QuadrantOf(p, s))) == Gap(p, q, s) <= s.side / 2.0
  {
  }

  lemma PartsGap(p: Item, q: Item, s: Square)
    requires s.side > 0.0
    ensures Parts(p, q, s) <==> Gap(p, q, s) > 0.0
  {
  }

  lemma LeafEnds(q: Item, p: Item, s: Square) returns (depth: nat)
    requires Coincident(p, q) || Parts(p, q, s)
    ensures InsertUpTo(depth, Leaf(q), p, s).Some?
  {
    if Coincident(p, q) || s.side <= 0.0 {
      depth := 1;
      assert Child(Leaf(q), QuadrantOf(p, s)).Absent?;
      if !Coincident(p, q) { SplitLeaf(depth, q, p, s); }
    } else {
      PartsGap(p, q, s);
      var n := Enough(s.side, Gap(p, q, s));
      depth := ApartEnds(q, p, s, n);
    }
  }

  function Times(n: nat, gap: real): real { if n == 0 then 0.0 else Times(n - 1, gap) + gap }

  lemma {:induction false} TimesIs(n: nat, gap: real)
    ensures Times(n, gap) == n as real * gap
  {
    if n > 0 {
      TimesIs(n - 1, gap);
      var less := (n - 1) as real;
      assert n as real == less + 1.0;
      assert (less + 1.0) * gap == less * gap + gap;
    }
  }

  lemma Enough(side: real, gap: real) returns (n: nat)
    requires side > 0.0 && gap > 0.0
    ensures side <= Times(n, gap)
  {
    var ratio := side / gap;
    assert ratio > 0.0 && side == ratio * gap;
    n := ratio.Floor + 1;
    TimesIs(n, gap);
    var surplus := n as real - ratio;
    assert surplus * gap >= 0.0;
    assert n as real * gap == ratio * gap + surplus * gap;
  }

  // The square can be halved fewer than n times before the points part.
  lemma {:induction false} ApartEnds(q: Item, p: Item, s: Square, n: nat) returns (depth: nat)
    requires s.side > 0.0 && Gap(p, q, s) > 0.0 && !Coincident(p, q) && s.side <= Times(n, Gap(p, q, s))
    ensures depth > 0 && InsertUpTo(depth, Leaf(q), p, s).Some?
    decreases n
  {
    if QuadrantOf(p, s) != QuadrantOf(q, s) {
      depth := 1;
    } else {
      GapStays(p, q, s);
      Halved(s.side, n, Gap(p, q, s));
      var above := ApartEnds(q, p, Sub(s, QuadrantOf(p, s)), n - 1);
      depth := above + 1;
    }
    SplitLeaf(depth, q, p, s);
  }

  lemma Halved(side: real, n: nat, gap: real)
    requires 0.0 < gap <= side / 2.0 && side <= Times(n, gap)
    ensures n > 0 && side / 2.0 <= Times(n - 1, gap)
  {
  }

  // Insertion ends exactly for points that are free to go where they are led.
  lemma EndsExactly(t: Tree, p: Item, s: Square)
    requires Shaped(t)
    ensures Ends(t, p, s) <==> Free(t, p, s)
  {
    if Ends(t, p, s) {
      EndsFree(Depth(t, p, s), t, p, s);
    }
    if Free(t, p, s) {
      var _ := FreeEnds(t, p, s);
    }
  }

  // Inside a square all points that are not coincident part.
  lemma {:induction false} InsideFree(t: Tree, p: Item, s: Square)
    requires Within(t, s) && Inside(p, s)
    ensures Free(t, p, s)
  {
    if t.Quad? && !t.leaf {
      var q := QuadrantOf(p, s);
      InsideSub(p, s);
      assert Within(Child(t, q), Sub(s, q));
      InsideFree(Child(t, q), p, Sub(s, q));
    }
  }

  lemma InsideEnds(t: Tree, p: Item, s: Square)
    requires Shaped(t) && Within(t, s) && Inside(p, s)
    ensures Ends(t, p, s)
  {
    InsideFree(t, p, s);
    EndsExactly(t, p, s);
  }

  // A point beyond a corner of the unit square, and one to the left of it, that are
  // led the same way for ever as a point of the tree.
  lemma NeverEnds()
    ensures !Ends(Leaf(Item(5.0, 5.0, 0)), Item(6.0, 6.0, 1), Square(0.0, 0.0, 1.0))
    ensures !Ends(Leaf(Item(-1.0, 0.5, 0)), Item(-2.0, 0.5, 1), Square(0.0, 0.0, 1.0))
  {
    LeafOnly(Leaf(Item(5.0, 5.0, 0)));
    LeafOnly(Leaf(Item(-1.0, 0.5, 0)));
    EndsExactly(Leaf(Item(5.0, 5.0, 0)), Item(6.0, 6.0, 1), Square(0.0, 0.0, 1.0));
    EndsExactly(Leaf(Item(-1.0, 0.5, 0)), Item(-2.0, 0.5, 1), Square(0.0, 0.0, 1.0));
  }

  // ---- What insertion keeps ----

  lemma {:induction false} InsertShaped(depth: nat, t: Tree, p: Item, s: Square)
    requires Shaped(t) && InsertUpTo(depth, t, p, s).Some?
    ensures Shaped(InsertUpTo(depth, t, p, s).value)
    decreases depth, 1
  {
    EmptyTree(s);
    if t.Absent? || (t.leaf && t.item.None?) {
      SameChildren(if t.Absent? then EMPTY else t, Some(p));
    } else if t.leaf && !Coincident(p, t.item.value) {
      SameChildren(t, None);
      var cleared := t.(item := None);
      InsertChildShaped(depth, cleared, t.item.value, s);
      InsertChildShaped(depth, InsertChildUpTo(depth, cleared, t.item.value, s).value, p, s);
    } else {
      InsertChildShaped(depth, t, p, s);
    }
  }

  lemma {:induction false} InsertChildShaped(depth: nat, t: Tree, p: Item, s: Square)
    requires t.Quad? && Shaped(t) && InsertChildUpTo(depth, t, p, s).Some?
    ensures Shaped(InsertChildUpTo(depth, t, p, s).value)
    decreases depth, 0
  {
    var q, r := QuadrantOf(p, s), InsertChildUpTo(depth, t, p, s).value;
    InsertShaped(depth - 1, Child(t, q), p, Sub(s, q));
    forall k {:trigger Child(r, k)} ensures Shaped(Child(r, k)) {
      if k != q { assert Child(r, k) == Child(t, k); }
    }
  }

  lemma {:induction false} InsertWithin(depth: nat, t: Tree, p: Item, s: Square)
    requires Within(t, s) && Inside(p, s) && InsertUpTo(depth, t, p, s).Some?
    ensures Within(InsertUpTo(depth, t, p, s).value, s)
    decreases depth, 1
  {
    EmptyTree(s);
    if t.Absent? || (t.leaf && t.item.None?) {
      SameChildren(if t.Absent? then EMPTY else t, Some(p));
    } else if t.leaf && !Coincident(p, t.item.value) {
      SameChildren(t, None);
      var cleared := t.(item := None);
      InsertChildWithin(depth, cleared, t.item.value, s);
      InsertChildWithin(depth, InsertChildUpTo(depth, cleared, t.item.value, s).value, p, s);
    } else {
      InsertChildWithin(depth, t, p, s);
    }
  }

  lemma {:induction false} InsertChildWithin(depth: nat, t: Tree, p: Item, s: Square)
    requires t.Quad? && Within(t, s) && Inside(p, s) && InsertChildUpTo(depth, t, p, s).Some?
    ensures Within(InsertChildUpTo(depth, t, p, s).value, s)
    decreases depth, 0
  {
    var q, r := QuadrantOf(p, s), InsertChildUpTo(depth, t, p, s).value;
    InsideSub(p, s);
    assert Within(Child(t, q), Sub(s, q));
    InsertWithin(depth - 1, Child(t, q), p, Sub(s, q));
    forall k {:trigger Child(r, k)} ensures Within(Child(r, k), Sub(s, k)) {
      if k != q { assert Child(r, k) == Child(t, k); }
    }
  }

  // Nothing is lost or duplicated.
  lemma {:induction false} InsertItems(depth: nat, t: Tree, p: Item, s: Square)
    requires InsertUpTo(depth, t, p, s).Some?
    ensures Items(InsertUpTo(depth, t, p, s).value) == Items(t) + multiset{p}
    decreases depth, 1
  {
    if t.Absent? || (t.leaf && t.item.None?) {
    } else if t.leaf && !Coincident(p, t.item.value) {
      var cleared := t.(item := None);
      ClearedItems(t);
      InsertChildItems(depth, cleared, t.item.value, s);
      InsertChildItems(depth, InsertChildUpTo(depth, cleared, t.item.value, s).value, p, s);
    } else {
      InsertChildItems(depth, t, p, s);
    }
  }

  lemma ClearedItems(t: Tree)
    requires t.Quad? && t.item.Some?
    ensures Items(t) == Items(t.(item := None)) + multiset{t.item.value}
  {
  }

  lemma {:induction false} InsertChildItems(depth: nat, t: Tree, p: Item, s: Square)
    requires t.Quad? && InsertChildUpTo(depth, t, p, s).Some?
    ensures Items(InsertChildUpTo(depth, t, p, s).value) == Items(t) + multiset{p}
    decreases depth, 0
  {
    var q := QuadrantOf(p, s);
    InsertItems(depth - 1, Child(t, q), p, Sub(s, q));
    GrownItems(t, q, InsertUpTo(depth - 1, Child(t, q), p, Sub(s, q)).value, p);
  }

  lemma GrownItems(t: Tree, q: Quadrant, c: Tree, p: Item)
    requires t.Quad? && Items(c) == Items(Child(t, q)) + multiset{p}
    ensures Items(WithChild(t.(leaf := false), q, c)) == Items(t) + multiset{p}
  {
  }

  // Items stay where their quadrants lead to.
  lemma {:induction false} InsertLeads(depth: nat, t: Tree, p: Item, s: Square)
    requires Leads(t, s) && InsertUpTo(depth, t, p, s).Some?
    ensures Leads(InsertUpTo(depth, t, p, s).value, s)
    decreases depth, 1
  {
    EmptyTree(s);
    if t.Absent? || (t.leaf && t.item.None?) {
      SameChildren(if t.Absent? then EMPTY else t, Some(p));
    } else if t.leaf && !Coincident(p, t.item.value) {
      SameChildren(t, None);
      var cleared := t.(item := None);
      InsertChildLeads(depth, cleared, t.item.value, s);
      InsertChildLeads(depth, InsertChildUpTo(depth, cleared, t.item.value, s).value, p, s);
    } else {
      InsertChildLeads(depth, t, p, s);
    }
  }

  lemma {:induction false} InsertChildLeads(depth: nat, t: Tree, p: Item, s: Square)
    requires t.Quad? && Leads(t, s) && InsertChildUpTo(depth, t, p, s).Some?
    ensures Leads(InsertChildUpTo(depth, t, p, s).value, s)
    decreases depth, 0
  {
    var q := QuadrantOf(p, s);
    ChildLeads(t, q, s);
    var c := LeadsBelow(depth - 1, Child(t, q), p, Sub(s, q));
    GrownLeads(t, q, c, p, s);
  }

  lemma {:induction false} LeadsBelow(depth: nat, t: Tree, p: Item, s: Square) returns (r: Tree)
    requires Leads(t, s) && InsertUpTo(depth, t, p, s).Some?
    ensures InsertUpTo(depth, t, p, s) == Some(r) && Leads(r, s) && Items(r) == Items(t) + multiset{p}
    decreases depth, 2
  {
    r := InsertUpTo(depth, t, p, s).value;
    InsertItems(depth, t, p, s);
    InsertLeads(depth, t, p, s);
  }

  lemma ChildLeads(t: Tree, q: Quadrant, s: Square)
    requires t.Quad? && Leads(t, s)
    ensures Leads(Child(t, q), Sub(s, q))
  {
  }

  lemma GrownLeads(t: Tree, q: Quadrant, c: Tree, p: Item, s: Square)
    requires t.Quad? && Leads(t, s) && q == QuadrantOf(p, s)
    requires Leads(c, Sub(s, q)) && Items(c) == Items(Child(t, q)) + multiset{p}
    ensures Leads(WithChild(t.(leaf := false), q, c), s)
  {
    var r := WithChild(t.(leaf := false), q, c);
    assert LeadTo(Child(t, q), s, q);
    forall k {:trigger Child(r, k)} ensures LeadTo(Child(r, k), s, k) && Leads(Child(r, k), Sub(s, k)) {
      assert Child(r, k) == if k == q then c else Child(t, k);
    }
  }

  // A node that is not a leaf keeps an item of its own only because one below it is
  // too close to be told apart.
  ghost predicate Twinned(t: Tree) {
    t.Quad? ==>
      && (forall q {:trigger Child(t, q)} :: Twinned(Child(t, q)))
      && (!t.leaf && t.item.Some? ==> HasTwin(t, t.item.value))
  }

  ghost predicate HasTwin(t: Tree, p: Item)
    requires t.Quad?
  {
    exists q, i {:trigger TwinAt(t, p, q, i)} :: TwinAt(t, p, q, i)
  }

  ghost predicate TwinAt(t: Tree, p: Item, q: Quadrant, i: Item)
    requires t.Quad?
  {
    i in Items(Child(t, q)) && Coincident(i, p)
  }

  lemma {:induction false} InsertTwinned(depth: nat, t: Tree, p: Item, s: Square)
    requires Twinned(t) && InsertUpTo(depth, t, p, s).Some?
    ensures Twinned(InsertUpTo(depth, t, p, s).value)
    decreases depth, 1
  {
    EmptyTree(s);
    if t.Absent? || (t.leaf && t.item.None?) {
      SameChildren(if t.Absent? then EMPTY else t, Some(p));
    } else if t.leaf && !Coincident(p, t.item.value) {
      SameChildren(t, None);
      var cleared := t.(item := None);
      InsertChildTwinned(depth, cleared, t.item.value, s);
      InsertChildTwinned(depth, InsertChildUpTo(depth, cleared, t.item.value, s).value, p, s);
    } else {
      InsertChildTwinned(depth, t, p, s);
    }
  }

  lemma {:induction false} InsertChildTwinned(depth: nat, t: Tree, p: Item, s: Square)
    requires t.Quad? && Twinned(t) && InsertChildUpTo(depth, t, p, s).Some?
    requires t.leaf && t.item.Some? ==> Coincident(p, t.item.value)
    ensures Twinned(InsertChildUpTo(depth, t, p, s).value)
    decreases depth, 0
  {
    var q := QuadrantOf(p, s);
    var child, sub := Child(t, q), Sub(s, q);
    var c := InsertUpTo(depth - 1, child, p, sub).value;
    assert Twinned(c) && Items(c) == Items(child) + multiset{p} by {
      InsertItems(depth - 1, child, p, sub);
      InsertTwinned(depth - 1, child, p, sub);
    }
    GrownTwinned(t, q, c, p);
  }

  lemma GrownTwinned(t: Tree, q: Quadrant, c: Tree, p: Item)
    requires t.Quad? && Twinned(t) && (t.leaf && t.item.Some? ==> Coincident(p, t.item.value))
    requires Twinned(c) && Items(c) == Items(Child(t, q)) + multiset{p}
    ensures Twinned(WithChild(t.(leaf := false), q, c))
  {
    var r := WithChild(t.(leaf := false), q, c);
    forall k {:trigger Child(r, k)} ensures Twinned(Child(r, k)) {
      assert Child(r, k) == if k == q then c else Child(t, k);
    }
    if t.item.Some? { TwinStays(t, r, q, c, p, t.item.value); }
  }

  lemma TwinStays(t: Tree, r: Tree, q: Quadrant, c: Tree, p: Item, own: Item)
    requires t.Quad? && (if t.leaf then Coincident(p, own) else HasTwin(t, own))
    requires r == WithChild(t.(leaf := false), q, c) && Items(c) == Items(Child(t, q)) + multiset{p}
    ensures HasTwin(r, own)
  {
    if t.leaf {
      GrownHas(t, r, q, c, p, q, p);
      assert TwinAt(r, own, q, p);
    } else {
      var k, i :| TwinAt(t, own, k, i);
      GrownHas(t, r, q, c, p, k, i);
      assert TwinAt(r, own, k, i);
    }
  }

  lemma GrownHas(t: Tree, r: Tree, q: Quadrant, c: Tree, p: Item, k: Quadrant, i: Item)
    requires t.Quad? && r == WithChild(t.(leaf := false), q, c) && Items(c) == Items(Child(t, q)) + multiset{p}
    requires i in Items(Child(t, k)) || (k == q && i == p)
    ensures i in Items(Child(r, k))
  {
    var grown, was := Child(r, k), Child(t, k);
    if k == q {
      assert grown == c && Items(grown) == Items(was) + multiset{p};
    } else {
      assert grown == was;
    }
  }

  // All items in turn, from an empty root, each insertion ending.
  ghost predicate Builds(items: seq<Item>, s: Square)
    decreases |items|, 0
  {
    items == [] || (Builds(items[..|items| - 1], s) && Ends(Build(items[..|items| - 1], s), items[|items| - 1], s))
  }

  ghost function Build(items: seq<Item>, s: Square): Tree
    requires Builds(items, s)
    decreases |items|, 1
  {
    if items == [] then EMPTY else Insert(Build(items[..|items| - 1], s), items[|items| - 1], s)
  }

  // Data inside the square can all be inserted.
  lemma {:induction false} InsideBuilds(items: seq<Item>, s: Square)
    requires forall p | p in items :: Inside(p, s)
    ensures Builds(items, s) && Shaped(Build(items, s)) && Within(Build(items, s), s)
  {
    if items == [] {
      EmptyTree(s);
    } else {
      var rest, p := items[..|items| - 1], items[|items| - 1];
      InsideBuilds(rest, s);
      InsideEnds(Build(rest, s), p, s);
      InsertShaped(Depth(Build(rest, s), p, s), Build(rest, s), p, s);
      InsertWithin(Depth(Build(rest, s), p, s), Build(rest, s), p, s);
    }
  }

  lemma {:induction false} BuildItems(items: seq<Item>, s: Square)
    requires Builds(items, s)
    ensures Items(Build(items, s)) == multiset(items)
  {
    if items == [] {
      EmptyTree(s);
    } else {
      var rest, p := items[..|items| - 1], items[|items| - 1];
      BuildItems(rest, s);
      InsertItems(Depth(Build(rest, s), p, s), Build(rest, s), p, s);
      assert multiset(items) == multiset(rest) + multiset{p} by { assert items == rest + [p]; }
    }
  }

  lemma {:induction false} BuildLeads(items: seq<Item>, s: Square)
    requires Builds(items, s)
    ensures Leads(Build(items, s), s)
  {
    if items == [] {
      EmptyTree(s);
    } else {
      var rest, p := items[..|items| - 1], items[|items| - 1];
      BuildLeads(rest, s);
      InsertLeads(Depth(Build(rest, s), p, s), Build(rest, s), p, s);
    }
  }

  lemma {:induction false} BuildTwinned(items: seq<Item>, s: Square)
    requires Builds(items, s)
    ensures Twinned(Build(items, s))
  {
    if items == [] {
      EmptyTree(s);
    } else {
      var rest, p := items[..|items| - 1], items[|items| - 1];
      BuildTwinned(rest, s);
      InsertTwinned(Depth(Build(rest, s), p, s), Build(rest, s), p, s);
    }
  }

  // ---- visit ----

  // The nodes a visitor is given, with the squares they are given with; below a node
  // it prunes nothing is visited.
  function Visited(t: Tree, s: Square, prune: (Tree, Square) -> bool): seq<(Tree, Square)> {
    if t.Absent? then []
    else if prune(t, s) then [(t, s)]
    else
      [(t, s)]
      + Visited(t.c0, Sub(s, Quadrant(false, false)), prune) + Visited(t.c1, Sub(s, Quadrant(true, false)), prune)
      + Visited(t.c2, Sub(s, Quadrant(false, true)), prune) + Visited(t.c3, Sub(s, Quadrant(true, true)), prune)
  }

  lemma {:induction false} ItemsInside(t: Tree, s: Square, p: Item)
    requires Within(t, s) && p in Items(t)
    ensures Inside(p, s)
  {
    if t.item != Some(p) {
      var q := Holder(t, p);
      ItemsInside(Child(t, q), Sub(s, q), p);
    }
  }

  lemma Holder(t: Tree, p: Item) returns (q: Quadrant)
    requires p in Items(t) && t.item != Some(p)
    ensures p in Items(Child(t, q))
  {
    q := if p in Items(t.c0) then Quadrant(false, false) else if p in Items(t.c1) then Quadrant(true, false)
    else if p in Items(t.c2) then Quadrant(false, true) else Quadrant(true, true);
  }

  ghost predicate Finds(visited: seq<(Tree, Square)>, p: Item) {
    exists v :: v in visited && v.0.Quad? && v.0.item == Some(p) && Inside(p, v.1)
  }

  lemma VisitedChild(t: Tree, s: Square, prune: (Tree, Square) -> bool, q: Quadrant, p: Item)
    requires t.Quad? && !prune(t, s) && Finds(Visited(Child(t, q), Sub(s, q), prune), p)
    ensures Finds(Visited(t, s, prune), p)
  {
    var v :| v in Visited(Child(t, q), Sub(s, q), prune) && v.0.Quad? && v.0.item == Some(p) && Inside(p, v.1);
    assert v in Visited(t, s, prune);
  }

  // A search that prunes only squares the point is not in finds the node of the point.
  lemma {:induction false} VisitFinds(t: Tree, s: Square, prune: (Tree, Square) -> bool, p: Item)
    requires Within(t, s) && p in Items(t)
    requires forall n, r :: prune(n, r) && n.Quad? && n.item != Some(p) ==> !Inside(p, r)
    ensures Finds(Visited(t, s, prune), p)
  {
    ItemsInside(t, s, p);
    if t.item == Some(p) {
      assert (t, s) in Visited(t, s, prune);
    } else {
      var q := Holder(t, p);
      VisitFinds(Child(t, q), Sub(s, q), prune, p);
      VisitedChild(t, s, prune, q, p);
    }
  }

  // In coordinates: the children are the quarters of the square, and the points below
  // each are on its side of the middle, those on the middle right of it or below it.
  lemma QuartersHold(t: Tree, s: Square)
    requires t.Quad? && Leads(t, s)
    ensures var mx, my, half := s.x1 + s.side / 2.0, s.y1 + s.side / 2.0, s.side / 2.0;
            && (forall p | p in Items(t.c0) :: p.x < mx && p.y < my) && Leads(t.c0, Square(s.x1, s.y1, half))
            && (forall p | p in Items(t.c1) :: p.x >= mx && p.y < my) && Leads(t.c1, Square(mx, s.y1, half))
            && (forall p | p in Items(t.c2) :: p.x < mx && p.y >= my) && Leads(t.c2, Square(s.x1, my, half))
            && (forall p | p in Items(t.c3) :: p.x >= mx && p.y >= my) && Leads(t.c3, Square(mx, my, half))
  {
    assert Child(t, Quadrant(false, false)) == t.c0 && Child(t, Quadrant(true, false)) == t.c1;
    assert Child(t, Quadrant(false, true)) == t.c2 && Child(t, Quadrant(true, true)) == t.c3;
  }

  // A leaf's point stays where it is when the new one is less than a hundredth away from
  // it, both axes added, and moves into a child otherwise.
  lemma LeafKeeps(depth: nat, t: Tree, p: Item, s: Square)
    requires t.Quad? && t.leaf && t.item.Some? && InsertUpTo(depth, t, p, s).Some?
    ensures var q, r := t.item.value, InsertUpTo(depth, t, p, s).value;
            var dx := if p.x < q.x then q.x - p.x else p.x - q.x;
            var dy := if p.y < q.y then q.y - p.y else p.y - q.y;
            r.Quad? && !r.leaf && r.item == if dx + dy < 0.01 then Some(q) else None
  {
  }

  // ---- d3_layout_forceAccumulate ----

  // A node's charge, from what each point contributes.
  function Charge(t: Tree, share: Item -> real): real {
    if t.Absent? then 0.0
    else
      Charge(t.c0, share) + Charge(t.c1, share) + Charge(t.c2, share) + Charge(t.c3, share)
      + PointCharge(t.item, share)
  }

  function PointCharge(item: Option<Item>, share: Item -> real): real {
    if item.Some? then share(item.value) else 0.0
  }

  function Total(items: seq<Item>, share: Item -> real): real {
    if items == [] then 0.0 else Total(items[..|items| - 1], share) + share(items[|items| - 1])
  }

  lemma {:induction false} InsertCharge(depth: nat, t: Tree, p: Item, s: Square, share: Item -> real)
    requires InsertUpTo(depth, t, p, s).Some?
    ensures Charge(InsertUpTo(depth, t, p, s).value, share) == Charge(t, share) + share(p)
    decreases depth, 1
  {
    if t.Absent? || (t.leaf && t.item.None?) {
    } else if t.leaf && !Coincident(p, t.item.value) {
      var cleared := t.(item := None);
      InsertChildCharge(depth, cleared, t.item.value, s, share);
      InsertChildCharge(depth, InsertChildUpTo(depth, cleared, t.item.value, s).value, p, s, share);
      assert Charge(cleared, share) == Charge(t, share) - share(t.item.value);
    } else {
      InsertChildCharge(depth, t, p, s, share);
    }
  }

  lemma {:induction false} InsertChildCharge(depth: nat, t: Tree, p: Item, s: Square, share: Item -> real)
    requires t.Quad? && InsertChildUpTo(depth, t, p, s).Some?
    ensures Charge(InsertChildUpTo(depth, t, p, s).value, share) == Charge(t, share) + share(p)
    decreases depth, 0
  {
    var q := QuadrantOf(p, s);
    InsertCharge(depth - 1, Child(t, q), p, Sub(s, q), share);
  }

  lemma {:induction false} BuildCharge(items: seq<Item>, s: Square, share: Item -> real)
    requires Builds(items, s)
    ensures Charge(Build(items, s), share) == Total(items, share)
  {
    if items != [] {
      var rest, p := items[..|items| - 1], items[|items| - 1];
      BuildCharge(rest, s, share);
      InsertCharge(Depth(Build(rest, s), p, s), Build(rest, s), p, s, share);
    }
  }

  function Share(alpha: real, charges: nat -> real): Item -> real {
    (p: Item) => alpha * charges(p.index)
  }

  // Plain sums of numbers.
  function SumOf(numbers: seq<real>): real {
    if numbers == [] then 0.0 else SumOf(numbers[..|numbers| - 1]) + numbers[|numbers| - 1]
  }

  function ChargesOf(items: seq<Item>, charges: nat -> real): (numbers: seq<real>)
    ensures |numbers| == |items| && forall i | 0 <= i < |items| :: numbers[i] == charges(items[i].index)
  {
    seq(|items|, i requires 0 <= i < |items| => charges(items[i].index))
  }

  // The root ends up with alpha times the sum of the charges of the items' indexes,
  // whatever the shape of the tree.
  lemma RootCharge(items: seq<Item>, s: Square, alpha: real, charges: nat -> real)
    requires Builds(items, s)
    ensures Charge(Build(items, s), Share(alpha, charges)) == alpha * SumOf(ChargesOf(items, charges))
  {
    TotalScales(items, alpha, charges, ChargesOf(items, charges));
    BuildCharge(items, s, Share(alpha, charges));
  }

  lemma {:induction false} TotalScales(items: seq<Item>, alpha: real, charges: nat -> real, numbers: seq<real>)
    requires |numbers| == |items| && forall i | 0 <= i < |items| :: numbers[i] == charges(items[i].index)
    ensures Total(items, Share(alpha, charges)) == alpha * SumOf(numbers)
  {
    if items != [] {
      var last := |items| - 1;
      TotalScales(items[..last], alpha, charges, numbers[..last]);
      Distribute(alpha, SumOf(numbers[..last]), numbers[last]);
    }
  }

  lemma Distribute(a: real, b: real, c: real)
    ensures a * (b + c) == a * b + a * c
  {
  }
}
