// The treemap of a whole hierarchy: squarify on every node, and what the layout means.
module TreemapHierarchy {
  import opened Basics
  import opened Tiling
  import opened Treemap
  import opened TreemapLayout

  ghost function Cells(nodes: seq<Node>): (cells: seq<Rect>)
    reads nodes
    ensures HasCells(nodes, cells)
  {
    seq(|nodes|, i requires 0 <= i < |nodes| reads nodes => nodes[i].Cell())
  }

  ghost function Whole(n: Node, padding: Node -> Option<Padding>): Rect
    reads n
  {
    Pad(n.Cell(), padding(n))
  }

  // Everywhere below a node, the children fill the padded rectangle of their parent, in
  // rows.
  ghost predicate Laid(n: Node, padding: Node -> Option<Padding>, mode: Mode, ratio: real, round: real -> real)
    requires Tree(n)
    reads n.repr
    decreases n.repr
  {
    TreeShape(n);
    n.children != [] ==>
      && LaidHere(n, padding, mode, ratio, round)
      && forall c | c in n.children :: Laid(c, padding, mode, ratio, round)
  }

  ghost predicate LaidHere(n: Node, padding: Node -> Option<Padding>, mode: Mode, ratio: real, round: real -> real)
    reads n, n.children
  {
    Shared(n, Whole(n, padding), round) && InRows(n, Whole(n, padding), mode, ratio, round)
  }

  // The children tile the rectangle, each with its share of it.
  ghost predicate Shared(n: Node, whole: Rect, round: real -> real)
    reads n, n.children
  {
    Fills(n.children, Cells(n.children), whole, Areas(n.children, n.value, Size(whole)), round)
  }

  // The children lie in the rows that squarify chooses, filled from the last child to
  // the first.
  ghost predicate InRows(n: Node, whole: Rect, mode: Mode, ratio: real, round: real -> real)
    reads n.children
  {
    && ratio > 0.0
    && exists rows :: RowsChosen(rows, Reversed(Cells(n.children)),
                                 Areas(Reversed(n.children), n.value, Size(whole)), whole, mode, n.depth, ratio, round)
  }

  lemma TreeShape(n: Node)
    requires Tree(n)
    ensures Distinct(n.children)
    ensures forall c | c in n.children :: c in c.repr && c in n.repr && c != n
  {
    forall i, j | 0 <= i < j < |n.children| ensures n.children[i] != n.children[j] {
      assert Disjoint(n.children, i, j) && Tree(n.children[i]) && Tree(n.children[j]);
    }
  }

  // What is below one child is neither a child nor below another one.
  lemma BelowChild(n: Node, i: nat)
    requires Tree(n) && i < |n.children|
    ensures var below := n.children[i].repr - {n.children[i]};
            && below <= n.repr - {n} && below < n.repr
            && (forall k | 0 <= k < |n.children| :: n.children[k] !in below)
            && (forall k | 0 <= k < |n.children| && k != i :: n.children[k].repr !! below)
  {
    TreeShape(n);
    forall k | 0 <= k < |n.children| && k != i ensures n.children[k].repr !! n.children[i].repr {
      assert if k < i then Disjoint(n.children, k, i) else Disjoint(n.children, i, k);
    }
  }

  // squarify on a node and then on each of its children.
  method SquarifyTree(node: Node, padding: Node -> Option<Padding>, mode: Mode, ratio: real, round: real -> real)
    requires Tree(node) && Proper(node.Cell()) && ratio > 0.0 && NonNegative(round)
    modifies node.repr - {node}
    ensures Laid(node, padding, mode, ratio, round)
    decreases node.repr
  {
    if node.children == [] { return; }
    TreeShape(node);
    var whole := Pad(node.Cell(), padding(node));
    ghost var cells, rows;
    cells, rows := LayChildren(node, whole, mode, ratio, round);
    for i := 0 to |node.children|
      invariant HasCells(node.children, cells)
      invariant forall k | 0 <= k < i :: Laid(node.children[k], padding, mode, ratio, round)
    {
      assert Within(cells[i], whole);
      BelowChild(node, i);
      SquarifyTree(node.children[i], padding, mode, ratio, round);
    }
    LaidWhenBelow(node, padding, mode, ratio, round, cells, rows);
  }

  lemma LaidWhenBelow(n: Node, padding: Node -> Option<Padding>, mode: Mode, ratio: real, round: real -> real,
                      cells: seq<Rect>, rows: seq<Row>)
    requires Tree(n) && n.children != [] && HasCells(n.children, cells) && ratio > 0.0
    requires var whole := Whole(n, padding);
             && Tiles(cells, whole)
             && FilledShares(cells, Areas(n.children, n.value, Size(whole)), whole, round)
             && RowsChosen(rows, Reversed(cells), Areas(Reversed(n.children), n.value, Size(whole)), whole, mode,
                           n.depth, ratio, round)
    requires forall i | 0 <= i < |n.children| :: Laid(n.children[i], padding, mode, ratio, round)
    ensures Laid(n, padding, mode, ratio, round)
  {
    assert cells == Cells(n.children);
  }

  ghost predicate FilledShares(cells: seq<Rect>, areas: seq<real>, whole: Rect, round: real -> real) {
    Exact(round) && Sum(areas) == Size(whole) ==> AreaOf(cells, areas)
  }

  // treemap, after the hierarchy has been built: the root takes the whole size.
  method Layout(root: Node, width: real, height: real, padding: Node -> Option<Padding>, mode: Mode, ratio: real,
                round: real -> real)
    requires Tree(root) && width >= 0.0 && height >= 0.0 && ratio > 0.0 && NonNegative(round)
    modifies root.repr
    ensures root.Cell() == Rect(0.0, 0.0, width, height)
    ensures root.area == Share(root.value, root.value, width * height)
    ensures Laid(root, padding, mode, ratio, round)
  {
    root.x, root.y, root.dx, root.dy := 0.0, 0.0, width, height;
    root.area := Share(root.value, root.value, root.dx * root.dy);
    SquarifyTree(root, padding, mode, ratio, round);
  }

  // ---- What a layout means ----

  ghost function Leaves(n: Node): seq<Node>
    requires Tree(n)
    decreases n.repr, 1
  {
    if n.children == [] then [n] else LeavesOf(n, |n.children|)
  }

  // The leaves below the first k children.
  ghost function LeavesOf(n: Node, k: nat): seq<Node>
    requires Tree(n) && k <= |n.children|
    decreases n.repr, 0, k
  {
    if k == 0 then [] else
    assert n.children[k - 1] in n.children;
    LeavesOf(n, k - 1) + Leaves(n.children[k - 1])
  }

  // Nodes whose rectangles stand side by side from x to x1, the last one first, each as
  // high as the rectangle at y of height dy;
  ghost predicate SideBySide(nodes: seq<Node>, x: real, x1: real, y: real, dy: real)
    reads nodes
  {
    && nodes != [] && nodes[|nodes| - 1].x == x && nodes[0].x + nodes[0].dx == x1
    && (forall i | 0 <= i < |nodes| :: nodes[i].y == y && nodes[i].dy == dy)
    && (forall i | 0 <= i < |nodes| - 1 :: nodes[i].x == nodes[i + 1].x + nodes[i + 1].dx)
  }

  // or one below the other from y to y1, each as wide as the rectangle at x of width dx.
  ghost predicate OneBelowAnother(nodes: seq<Node>, y: real, y1: real, x: real, dx: real)
    reads nodes
  {
    && nodes != [] && nodes[|nodes| - 1].y == y && nodes[0].y + nodes[0].dy == y1
    && (forall i | 0 <= i < |nodes| :: nodes[i].x == x && nodes[i].dx == dx)
    && (forall i | 0 <= i < |nodes| - 1 :: nodes[i].y == nodes[i + 1].y + nodes[i + 1].dy)
  }

  // Where the modes put the children of a node: sliced side by side through its padded
  // rectangle; diced one below the other, but side by side where that is a square;
  // slice-diced like the one at even depths and like the other at odd ones. The row
  // squarified first, of the children from k on, is laid along the shorter side.
  lemma ModesLay(n: Node, padding: Node -> Option<Padding>, mode: Mode, ratio: real, round: real -> real)
    returns (k: nat, v: real)
    requires Tree(n) && Laid(n, padding, mode, ratio, round) && n.children != []
    ensures k < |n.children|
    ensures var r := Whole(n, padding);
            match mode
            case Slice => SideBySide(n.children, r.x, r.x + r.dx, r.y, r.dy)
            case Dice =>
              if r.dx == r.dy then SideBySide(n.children, r.x, r.x + r.dx, r.y, r.dy)
              else OneBelowAnother(n.children, r.y, r.y + r.dy, r.x, r.dx)
            case SliceDice =>
              if n.depth % 2 == 0 || r.dx == r.dy then SideBySide(n.children, r.x, r.x + r.dx, r.y, r.dy)
              else OneBelowAnother(n.children, r.y, r.y + r.dy, r.x, r.dx)
            case Squarify =>
              if r.dx <= r.dy then SideBySide(n.children[k..], r.x, r.x + r.dx, r.y, v)
              else OneBelowAnother(n.children[k..], r.y, r.y + r.dy, r.x, v)
  {
    var rows, areas := RowsOf(n, padding, mode, ratio, round);
    k, v := 0, 0.0;
    if mode == Squarify {
      k, v := FirstRowLaid(n.children, rows, areas, Whole(n, padding), n.depth, ratio, round);
    } else {
      AllInOneRow(n.children, rows, areas, Whole(n, padding), mode, n.depth, ratio, round);
    }
  }

  lemma RowsOf(n: Node, padding: Node -> Option<Padding>, mode: Mode, ratio: real, round: real -> real)
    returns (rows: seq<Row>, areas: seq<real>)
    requires Tree(n) && Laid(n, padding, mode, ratio, round) && n.children != []
    ensures ratio > 0.0
    ensures RowsChosen(rows, Reversed(Cells(n.children)), areas, Whole(n, padding), mode, n.depth, ratio, round)
  {
    assert LaidHere(n, padding, mode, ratio, round);
    areas := Areas(Reversed(n.children), n.value, Size(Whole(n, padding)));
    rows :| RowsChosen(rows, Reversed(Cells(n.children)), areas, Whole(n, padding), mode, n.depth, ratio, round);
  }

  lemma AllInOneRow(nodes: seq<Node>, rows: seq<Row>, areas: seq<real>, r: Rect, mode: Mode, depth: nat, ratio: real,
                    round: real -> real)
    requires nodes != [] && ratio > 0.0 && mode != Squarify
    requires RowsChosen(rows, Reversed(Cells(nodes)), areas, r, mode, depth, ratio, round)
    ensures if FirstSide(r, mode, depth) == r.dx then SideBySide(nodes, r.x, r.x + r.dx, r.y, r.dy)
            else OneBelowAnother(nodes, r.y, r.y + r.dy, r.x, r.dx)
  {
    var cells := Reversed(Cells(nodes));
    OneRow(rows, cells, areas, r, mode, depth, ratio, round);
    assert cells[..|cells|] == cells && nodes[0..] == nodes;
    LinedUp(nodes, 0, r, FirstSide(r, mode, depth) == r.dx);
  }

  lemma FirstRowLaid(nodes: seq<Node>, rows: seq<Row>, areas: seq<real>, r: Rect, depth: nat, ratio: real,
                     round: real -> real)
    returns (k: nat, v: real)
    requires nodes != [] && ratio > 0.0
    requires RowsChosen(rows, Reversed(Cells(nodes)), areas, r, Squarify, depth, ratio, round)
    ensures k < |nodes|
    ensures if r.dx <= r.dy then SideBySide(nodes[k..], r.x, r.x + r.dx, r.y, v)
            else OneBelowAnother(nodes[k..], r.y, r.y + r.dy, r.x, v)
  {
    FirstRow(rows, Reversed(Cells(nodes)), areas, r, Squarify, depth, ratio, round);
    var row := rows[0];
    k, v := |nodes| - row.to, row.thickness;
    LinedUp(nodes, k, Strip(row), Across(row));
  }

  lemma FirstRow(rows: seq<Row>, cells: seq<Rect>, areas: seq<real>, whole: Rect, mode: Mode, depth: nat, ratio: real,
                 round: real -> real)
    requires ratio > 0.0 && RowsChosen(rows, cells, areas, whole, mode, depth, ratio, round) && cells != []
    ensures rows != [] && 0 < rows[0].to <= |cells| && rows[0].rect == whole
    ensures Across(rows[0]) == (FirstSide(whole, mode, depth) == whole.dx)
    ensures InLine(cells[..rows[0].to], Strip(rows[0]), Across(rows[0]))
  {
    var side, judge := FirstSide(whole, mode, depth), WorstJudge(ratio);
    RowAt(rows, cells, areas, whole, side, round, mode, judge, 0);
    RowInLine(rows, cells, areas, whole, side, round, mode, judge, 0);
    assert cells[0..rows[0].to] == cells[..rows[0].to];
  }

  // The nodes from k on, whose cells are laid first.
  lemma LinedUp(nodes: seq<Node>, k: nat, strip: Rect, across: bool)
    requires k < |nodes| && InLine(Reversed(Cells(nodes))[..|nodes| - k], strip, across)
    ensures if across then SideBySide(nodes[k..], strip.x, strip.x + strip.dx, strip.y, strip.dy)
            else OneBelowAnother(nodes[k..], strip.y, strip.y + strip.dy, strip.x, strip.dx)
  {
    var own, cells := nodes[k..], Reversed(Cells(nodes))[..|nodes| - k];
    forall i | 0 <= i < |own| ensures cells[|own| - 1 - i] == own[i].Cell() {
      assert Cells(nodes)[k + i] == nodes[k + i].Cell();
    }
    forall i | 0 <= i < |own|
      ensures Thickness(own[i].Cell(), across) == Thickness(strip, across)
      ensures Start(own[i].Cell(), !across) == Start(strip, !across)
    {
      assert Spans(cells[|own| - 1 - i], strip, across);
    }
    forall i | 0 <= i < |own| - 1 ensures Start(own[i].Cell(), across) == End(own[i + 1].Cell(), across) {
      assert Touch(cells, |own| - 2 - i, across);
    }
  }

  ghost predicate Unpadded(padding: Node -> Option<Padding>, nodes: set<Node>) {
    forall n | n in nodes :: padding(n) == None
  }

  // Without padding the leaves of the hierarchy tile the rectangle of its root.
  lemma {:induction false} LeavesTile(n: Node, padding: Node -> Option<Padding>, mode: Mode, ratio: real,
                                      round: real -> real)
    requires Tree(n) && Laid(n, padding, mode, ratio, round) && Unpadded(padding, n.repr) && Proper(n.Cell())
    ensures Tiles(Cells(Leaves(n)), n.Cell())
    decreases n.repr
  {
    if n.children == [] {
      WholeTiles(n.Cell());
      assert Cells([n]) == [n.Cell()];
    } else {
      forall i | 0 <= i < |n.children| ensures ChildTiles(n, i) {
        ChildLaid(n, padding, mode, ratio, round, i);
        LeavesTile(n.children[i], padding, mode, ratio, round);
      }
      ChildrenTile(n, padding, mode, ratio, round);
      LeavesOfTile(n, |n.children|);
      assert Cells(LeavesOf(n, |n.children|)) + Cells(n.children)[|n.children|..] == Cells(Leaves(n));
    }
  }

  // The leaves below one child tile its rectangle.
  ghost predicate ChildTiles(n: Node, i: nat)
    requires Tree(n) && i < |n.children|
    reads n.children[i], Leaves(n.children[i])
  {
    Tiles(Cells(Leaves(n.children[i])), n.children[i].Cell())
  }

  lemma RefineAt(before: seq<Rect>, cells: seq<Rect>, i: nat, parts: seq<Rect>, r: Rect)
    requires i < |cells| && Tiles(before + cells[i..], r) && Tiles(parts, cells[i])
    ensures Tiles(before + parts + cells[i + 1..], r)
  {
    assert before + cells[i..] == before + [cells[i]] + cells[i + 1..];
    Refine(before, cells[i], cells[i + 1..], parts, r);
  }

  lemma CellsConcat(a: seq<Node>, b: seq<Node>)
    ensures Cells(a + b) == Cells(a) + Cells(b)
  {
  }

  lemma ChildrenTile(n: Node, padding: Node -> Option<Padding>, mode: Mode, ratio: real, round: real -> real)
    requires Tree(n) && Laid(n, padding, mode, ratio, round) && Unpadded(padding, n.repr) && n.children != []
    ensures Tiles(Cells(LeavesOf(n, 0)) + Cells(n.children)[0..], n.Cell())
  {
    assert Cells([]) + Cells(n.children)[0..] == Cells(n.children);
  }

  lemma ChildLaid(n: Node, padding: Node -> Option<Padding>, mode: Mode, ratio: real, round: real -> real, i: nat)
    requires Tree(n) && Laid(n, padding, mode, ratio, round) && Unpadded(padding, n.repr) && i < |n.children|
    ensures var c := n.children[i];
            Tree(c) && c.repr < n.repr && Laid(c, padding, mode, ratio, round) && Unpadded(padding, c.repr)
              && Proper(c.Cell())
  {
    assert n.children[i] in n.children && Within(Cells(n.children)[i], n.Cell());
  }

  lemma {:induction false} LeavesOfTile(n: Node, k: nat)
    requires Tree(n) && k <= |n.children| && Tiles(Cells(LeavesOf(n, 0)) + Cells(n.children)[0..], n.Cell())
    requires forall i | 0 <= i < |n.children| :: ChildTiles(n, i)
    ensures Tiles(Cells(LeavesOf(n, k)) + Cells(n.children)[k..], n.Cell())
  {
    if k > 0 {
      LeavesOfTile(n, k - 1);
      assert ChildTiles(n, k - 1);
      NextLeaves(n, k - 1);
    }
  }

  lemma NextLeaves(n: Node, k: nat)
    requires Tree(n) && k < |n.children|
    requires Tiles(Cells(LeavesOf(n, k)) + Cells(n.children)[k..], n.Cell())
    requires ChildTiles(n, k)
    ensures Tiles(Cells(LeavesOf(n, k + 1)) + Cells(n.children)[k + 1..], n.Cell())
  {
    CellsConcat(LeavesOf(n, k), Leaves(n.children[k]));
    RefineAt(Cells(LeavesOf(n, k)), Cells(n.children), k, Cells(Leaves(n.children[k])), n.Cell());
  }

  // With exact numbers every child's area is to its parent's as its value is, provided
  // the parent's value is the sum of theirs.
  lemma Proportional(n: Node, whole: Rect, round: real -> real, i: nat)
    requires Shared(n, whole, round) && Exact(round) && Proper(whole)
    requires i < |n.children| && (forall c | c in n.children :: c.value >= 0.0)
    requires n.value > 0.0 && Sum(Values(n.children)) == n.value
    ensures Size(n.children[i].Cell()) == n.children[i].value * (Size(whole) / n.value)
  {
    var space := Size(whole);
    assert AreaOf(Cells(n.children), Areas(n.children, n.value, space)) by {
      SizeOf(whole);
      SharesAddUp(n.children, n.value, space);
    }
    AreaAt(n.children, n.value, space, i);
    SizeOf(whole);
    ShareIs(n.children[i].value, n.value, space, space / n.value);
  }

  lemma AreaAt(nodes: seq<Node>, total: real, space: real, i: nat)
    requires i < |nodes| && AreaOf(Cells(nodes), Areas(nodes, total, space))
    ensures Size(nodes[i].Cell()) == Share(nodes[i].value, total, space)
  {
    assert Size(Cells(nodes)[i]) == Areas(nodes, total, space)[i];
  }

  lemma SizeOf(r: Rect)
    requires Proper(r)
    ensures Size(r) >= 0.0
  {
  }
}
