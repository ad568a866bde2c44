// The treemap's squarify: the children of every node fill its padded rectangle, each
// in proportion to its value.
module TreemapLayout {
  import opened Basics
  import opened Tiling
  import opened Treemap

  datatype Mode = Slice | Dice | SliceDice | Squarify

  datatype Padding = Padding(top: real, right: real, bottom: real, left: real)

  // d3_layout_treemapPad; without padding the rectangle itself.
  function Pad(r: Rect, padding: Option<Padding>): (padded: Rect)
  {
    match padding
    case None => r
    case Some(p) =>
      var dx, dy := r.dx - p.right - p.left, r.dy - p.top - p.bottom;
      Rect(r.x + p.left + (if dx < 0.0 then dx / 2.0 else 0.0),
           r.y + p.top + (if dy < 0.0 then dy / 2.0 else 0.0),
           if dx < 0.0 then 0.0 else dx,
           if dy < 0.0 then 0.0 else dy)
  }

  // The paddings of two opposite sides leave room that is inside the node, or leave a
  // middle between them that is.
  predicate PadsWithin(before: real, after: real, length: real) {
    if before + after <= length then before >= 0.0 && after >= 0.0 else -length <= before - after <= length
  }

  // Each edge moves in by its padding, as long as that leaves room.
  lemma PadEdges(r: Rect, p: Padding)
    ensures Pad(r, None) == r
    ensures var q := Pad(r, Some(p));
            && (p.left + p.right <= r.dx ==> q.x == r.x + p.left && q.x + q.dx == r.x + r.dx - p.right)
            && (p.left + p.right > r.dx ==>
                  q.dx == 0.0 && q.x == ((r.x + p.left) + (r.x + r.dx - p.right)) / 2.0)
            && (p.top + p.bottom <= r.dy ==> q.y == r.y + p.top && q.y + q.dy == r.y + r.dy - p.bottom)
            && (p.top + p.bottom > r.dy ==>
                  q.dy == 0.0 && q.y == ((r.y + p.top) + (r.y + r.dy - p.bottom)) / 2.0)
  {
  }

  // The padded rectangle stays inside the node unless a padding is negative, or one
  // side is padded that much more than the other that the middle between them is
  // outside.
  lemma PadWithin(r: Rect, p: Padding)
    requires Proper(r)
    ensures Within(Pad(r, Some(p)), r) <==> PadsWithin(p.left, p.right, r.dx) && PadsWithin(p.top, p.bottom, r.dy)
  {
  }

  // ---- scale ----

  // The area for a value, when the given total has the given space. Negative areas are
  // cut off, and nothing has an area when there is no total.
  function Share(value: real, total: real, space: real): (area: real)
    ensures area >= 0.0
  {
    if total == 0.0 then 0.0
    else
      var k := space / total;
      var area := value * (if k < 0.0 then 0.0 else k);
      if area <= 0.0 then 0.0 else area
  }

  method Scale(nodes: seq<Node>, total: real, space: real)
    requires Distinct(nodes)
    modifies nodes`area
    ensures forall i | 0 <= i < |nodes| :: nodes[i].area == Share(nodes[i].value, total, space)
  {
    for i := 0 to |nodes|
      invariant forall k | 0 <= k < i :: nodes[k].area == Share(nodes[k].value, total, space)
    {
      nodes[i].area := Share(nodes[i].value, total, space);
    }
  }

  ghost function Areas(nodes: seq<Node>, total: real, space: real): (areas: seq<real>)
    ensures |areas| == |nodes| && forall i | 0 <= i < |nodes| :: areas[i] == Share(nodes[i].value, total, space)
  {
    seq(|nodes|, i requires 0 <= i < |nodes| => Share(nodes[i].value, total, space))
  }

  ghost function Values(nodes: seq<Node>): (values: seq<real>)
    ensures |values| == |nodes| && forall i | 0 <= i < |nodes| :: values[i] == nodes[i].value
  {
    seq(|nodes|, i requires 0 <= i < |nodes| => nodes[i].value)
  }

  // A share is proportional to the value.
  lemma ShareIs(value: real, total: real, space: real, k: real)
    requires value >= 0.0 && total > 0.0 && space >= 0.0 && k == space / total
    ensures k >= 0.0 && Share(value, total, space) == value * k
  {
    assert k >= 0.0;
    assert value * k >= 0.0;
  }

  // And nothing for values that are not positive, or when the total is negative.
  lemma NoShare(value: real, total: real, space: real)
    requires space >= 0.0 && (value <= 0.0 || total < 0.0)
    ensures Share(value, total, space) == 0.0
  {
    if total > 0.0 {
      assert space / total >= 0.0;
      Signs(value, space / total);
    } else if total < 0.0 {
      var k := space / total;
      assert k * total == space;
      assert k <= 0.0;
    }
  }

  lemma Signs(a: real, b: real)
    requires a <= 0.0 && b >= 0.0
    ensures a * b <= 0.0
  {
  }

  lemma {:induction false} SumScaled(areas: seq<real>, values: seq<real>, k: real)
    requires |areas| == |values| && forall i | 0 <= i < |areas| :: areas[i] == values[i] * k
    ensures Sum(areas) == Sum(values) * k
  {
    if areas != [] {
      var last := |areas| - 1;
      SumScaled(areas[..last], values[..last], k);
      Distributes(Sum(values[..last]), values[last], k);
    }
  }

  // Values that add up to the total share all of the space.
  lemma SharesAddUp(nodes: seq<Node>, total: real, space: real)
    requires total > 0.0 && space >= 0.0 && forall n | n in nodes :: n.value >= 0.0
    requires Sum(Values(nodes)) == total
    ensures Sum(Areas(nodes, total, space)) == space
  {
    var k := space / total;
    SharesScale(nodes, total, space, k);
    assert total * k == space;
  }

  lemma SharesScale(nodes: seq<Node>, total: real, space: real, k: real)
    requires total > 0.0 && space >= 0.0 && k == space / total && forall n | n in nodes :: n.value >= 0.0
    ensures Sum(Areas(nodes, total, space)) == Sum(Values(nodes)) * k
  {
    var areas, values := Areas(nodes, total, space), Values(nodes);
    forall i | 0 <= i < |nodes| ensures areas[i] == values[i] * k {
      ShareIs(nodes[i].value, total, space, k);
    }
    SumScaled(areas, values, k);
  }

  lemma Distributes(a: real, b: real, c: real)
    ensures (a + b) * c == a * c + b * c
  {
  }

  // ---- squarify ----

  lemma {:induction false} SumConcat(a: seq<real>, b: seq<real>)
    ensures Sum(a + b) == Sum(a) + Sum(b)
  {
    if b == [] {
      assert a + b == a;
    } else {
      SumConcat(a, b[..|b| - 1]);
      assert (a + b)[..|a + b| - 1] == a + b[..|b| - 1];
    }
  }

  // The cells laid so far and the rectangle that is left. With exact numbers every
  // cell has its share and the rest is left for the others.
  ghost predicate Laying(cells: seq<Rect>, rect: Rect, whole: Rect, areas: seq<real>, round: real -> real) {
    && Proper(rect) && Tiles(cells + [rect], whole) && |cells| <= |areas|
    && (Exact(round) && Sum(areas) == Size(whole) ==>
          AreaOf(cells, areas[..|cells|]) && Size(rect) == Sum(areas[|cells|..]))
  }

  lemma LayNext(cells: seq<Rect>, rect: Rect, whole: Rect, areas: seq<real>, round: real -> real, part: seq<Rect>,
                rest: Rect)
    requires Laying(cells, rect, whole, areas, round) && |cells| + |part| <= |areas|
    requires Proper(rest) && Tiles(part + [rest], rect)
    requires Exact(round) && Sum(areas) == Size(whole) ==>
               var own := areas[|cells|..|cells| + |part|]; AreaOf(part, own) && Size(rest) == Size(rect) - Sum(own)
    ensures Laying(cells + part, rest, whole, areas, round)
  {
    RefineLast(cells, rect, part + [rest], whole);
    assert cells + (part + [rest]) == cells + part + [rest];
    var c, d := |cells|, |cells| + |part|;
    SumConcat(areas[c..d], areas[d..]);
    assert areas[c..] == areas[c..d] + areas[d..] && areas[..d] == areas[..c] + areas[c..d];
  }

  lemma LayPart(cells: seq<Rect>, rect: Rect, whole: Rect, areas: seq<real>, round: real -> real, part: seq<Rect>,
                rest: Rect,
                c: nat, d: nat)
    requires Laying(cells, rect, whole, areas, round) && |cells| == c && c + |part| == d <= |areas|
    requires Proper(rest) && Tiles(part + [rest], rect) && Sum(areas[c..d]) <= Sum(areas[c..])
    requires d == |areas| ==> areas[c..d] == areas[c..]
    requires Exact(round) && Sum(areas[c..d]) <= Size(rect) && (d == |areas| ==> Sum(areas[c..d]) == Size(rect)) ==>
               AreaOf(part, areas[c..d]) && Size(rest) == Size(rect) - Sum(areas[c..d])
    ensures Laying(cells + part, rest, whole, areas, round)
  {
    LayNext(cells, rect, whole, areas, round, part, rest);
  }

  lemma RowHasRoom(areas: seq<real>, c: nat, d: nat)
    requires c <= d <= |areas| && forall i | 0 <= i < |areas| :: areas[i] >= 0.0
    ensures Sum(areas[c..d]) <= Sum(areas[c..])
    ensures d == |areas| ==> areas[c..d] == areas[c..]
  {
    SumGrows(areas[c..], d - c);
    assert areas[c..][..d - c] == areas[c..d];
  }

  // A row of the children from..to, in the order in which they are laid: along a side of
  // the rectangle that the rows before it left.
  datatype Row = Row(from: nat, to: nat, side: real, rect: Rect, thickness: real)

  // The strip a row takes, and what it leaves.
  function Strip(row: Row): Rect { Piece(row.rect, row.thickness, row.side != row.rect.dx) }

  function After(row: Row): Rect { Rest(row.rect, row.thickness, row.side != row.rect.dx) }

  predicate Across(row: Row) { row.side == row.rect.dx }

  // As thick as the areas need along the side, or all that is left for the last row.
  ghost function ThicknessOf(row: Row, areas: seq<real>, round: real -> real): real
    requires row.from <= row.to <= |areas|
  {
    RowThickness(Sum(areas[row.from..row.to]), row.side, Thickness(row.rect, Across(row)), row.to == |areas|, round)
  }

  // The row's cells lie side by side in its strip, each as long as its area needs, and tile
  // it.
  ghost predicate InStrip(row: Row, cells: seq<Rect>, areas: seq<real>, round: real -> real) {
    match row
    case Row(from, to, _, _, thickness) =>
      && from < to <= |cells| <= |areas|
      && Tiles(cells[from..to], Strip(row))
      && cells[from..to] == RowCells(Strip(row), areas[from..to], Across(row), round)
      && thickness == ThicknessOf(row, areas, round)
  }

  // One call of position, for the nodes c..d of the order in which they are laid.
  method LayRow(ghost order: seq<Node>, row: seq<Node>, rowArea: real, u: real, rect: Rect, flush: bool,
                round: real -> real,
                ghost cells: seq<Rect>, ghost whole: Rect, ghost areas: seq<real>)
    returns (rest: Rect, ghost more: seq<Rect>, ghost laid: Row)
    requires Distinct(order) && HasAreas(order, areas) && NonNegative(round) && u >= 0.0
    requires row != [] && |cells| + |row| <= |order| && row == order[|cells|..|cells| + |row|]
    requires rowArea == Sum(areas[|cells|..|cells| + |row|])
    requires flush <==> |cells| + |row| == |order|
    requires u == rect.dx || u == rect.dy
    requires HasCells(order[..|cells|], cells) && Laying(cells, rect, whole, areas, round)
    modifies row`x, row`y, row`dx, row`dy, row`z
    ensures |more| == |cells| + |row| && HasCells(order[..|more|], more) && Laying(more, rest, whole, areas, round)
    ensures AddsRow(laid, cells, more, u, rect, rest, areas, round)
    ensures flush ==> rest.dx == 0.0 || rest.dy == 0.0
  {
    ghost var c, d := |cells|, |cells| + |row|;
    ghost var part, v;
    RowHasRoom(areas, c, d);
    NotInRow(order, c, row);
    rest, part, v := Position(row, rowArea, u, rect, flush, round, areas[c..d]);
    LayPart(cells, rect, whole, areas, round, part, rest, c, d);
    MoreCells(order, cells, row, part);
    more, laid := cells + part, Row(c, d, u, rect, v);
    PartInStrip(cells, part, laid, areas, round);
  }

  lemma PartInStrip(cells: seq<Rect>, part: seq<Rect>, row: Row, areas: seq<real>, round: real -> real)
    requires row.from == |cells| < row.to == |cells + part| <= |areas| && Tiles(part, Strip(row))
    requires row.thickness == ThicknessOf(row, areas, round)
    requires part == RowCells(Strip(row), areas[row.from..row.to], Across(row), round)
    ensures cells <= cells + part && InStrip(row, cells + part, areas, round)
  {
    assert (cells + part)[row.from..row.to] == part;
  }

  // The row adds its cells to those laid so far, along a side of the rectangle, and
  // leaves the rest of it.
  ghost predicate AddsRow(row: Row, cells: seq<Rect>, more: seq<Rect>, u: real, rect: Rect, rest: Rect,
                          areas: seq<real>, round: real -> real)
  {
    match row
    case Row(from, to, side, before, _) =>
      && cells <= more && from == |cells| && to == |more| && side == u && before == rect
      && rest == After(row) && InStrip(row, more, areas, round)
  }

  lemma NotInRow(order: seq<Node>, c: nat, row: seq<Node>)
    requires Distinct(order) && c + |row| <= |order| && row == order[c..c + |row|]
    ensures Distinct(row) && forall i | 0 <= i < c :: order[..c][i] !in row
  {
  }

  lemma MoreCells(order: seq<Node>, cells: seq<Rect>, row: seq<Node>, part: seq<Rect>)
    requires |cells| + |row| <= |order| && row == order[|cells|..|cells| + |row|]
    requires HasCells(order[..|cells|], cells) && HasCells(row, part)
    ensures HasCells(order[..|cells + part|], cells + part)
  {
    var c, d := |cells|, |cells| + |row|;
    assert order[..d] == order[..c] + order[c..d];
  }

  // The side the first row is laid along.
  function FirstSide(rect: Rect, mode: Mode, depth: nat): real {
    match mode
    case Slice => rect.dx
    case Dice => rect.dy
    case SliceDice => if depth % 2 == 1 then rect.dy else rect.dx
    case Squarify => Min(rect.dx, rect.dy)
  }

  // The state of squarify's loop: cells, then the row, then what remains, in the order
  // in which they are laid.
  ghost predicate InOrder(order: seq<Node>, laid: nat, row: seq<Node>, remaining: seq<Node>) {
    && laid + |row| + |remaining| == |order|
    && row == order[laid..laid + |row|]
    && Backwards(remaining, order[laid + |row|..])
  }

  ghost predicate Backwards(a: seq<Node>, b: seq<Node>) {
    |a| == |b| && forall i | 0 <= i < |a| :: a[i] == b[|a| - 1 - i]
  }

  lemma NextInOrder(order: seq<Node>, laid: nat, row: seq<Node>, remaining: seq<Node>)
    requires InOrder(order, laid, row, remaining) && remaining != []
    ensures var child := remaining[|remaining| - 1];
            child == order[laid + |row|] && InOrder(order, laid, row + [child], remaining[..|remaining| - 1])
  {
  }

  lemma {:induction false} SumReversed(areas: seq<real>)
    ensures Sum(Reversed(areas)) == Sum(areas)
  {
    if areas != [] {
      SumReversed(areas[1..]);
      assert Reversed(areas) == Reversed(areas[1..]) + [areas[0]];
      SumConcat([areas[0]], areas[1..]);
      assert [areas[0]] + areas[1..] == areas && Sum([areas[0]]) == Sum([]) + areas[0];
    }
  }

  // The cells of the nodes tile the rectangle. With exact numbers, areas that add up to
  // the rectangle are met.
  ghost predicate Fills(nodes: seq<Node>, cells: seq<Rect>, whole: Rect, areas: seq<real>, round: real -> real)
    reads nodes
  {
    && HasCells(nodes, cells) && Tiles(cells, whole)
    && (Exact(round) && Sum(areas) == Size(whole) ==> AreaOf(cells, areas))
  }

  // Children are laid from the last to the first.
  lemma InOriginalOrder(children: seq<Node>, cells: seq<Rect>, whole: Rect, total: real, round: real -> real)
    requires Fills(Reversed(children), cells, whole, Areas(Reversed(children), total, Size(whole)), round)
    ensures Fills(children, Reversed(cells), whole, Areas(children, total, Size(whole)), round)
  {
    ReversedTiles(cells, whole);
    var areas, back := Areas(children, total, Size(whole)), Areas(Reversed(children), total, Size(whole));
    assert back == Reversed(areas);
    SumReversed(areas);
    var last := |children| - 1;
    forall i | 0 <= i < |children| ensures Reversed(cells)[i] == children[i].Cell() {
      assert Reversed(children)[last - i] == children[i];
    }
    if AreaOf(cells, back) {
      forall i | 0 <= i < |children| ensures Size(Reversed(cells)[i]) == areas[i] {
        assert Size(cells[last - i]) == back[last - i];
      }
    }
  }

  method ScaleAndLay(node: Node, whole: Rect, mode: Mode, ratio: real, round: real -> real, ghost order: seq<Node>)
    returns (ghost cells: seq<Rect>, ghost rows: seq<Row>)
    requires node.children != [] && Distinct(node.children) && Proper(whole) && ratio > 0.0 && NonNegative(round)
    requires Backwards(node.children, order)
    modifies node.children
    ensures Fills(order, cells, whole, Areas(order, node.value, Size(whole)), round)
    ensures RowsChosen(rows, cells, Areas(order, node.value, Size(whole)), whole, mode, node.depth, ratio, round)
  {
    Scale(node.children, node.value, whole.dx * whole.dy);
    ScaledBackwards(node.children, order, node.value, Size(whole));
    var side := FirstSide(whole, mode, node.depth);
    WorstJudges(ratio);
    cells, rows := LayRows(node.children, whole, side, mode, ratio, round, order, Areas(order, node.value, Size(whole)),
                           WorstJudge(ratio));
  }

  // All children are in rows. The first row is laid along the side of the mode, every
  // other one along the shorter side of the rectangle that the rows before it left.
  ghost predicate RowsChosen(rows: seq<Row>, cells: seq<Rect>, areas: seq<real>, whole: Rect, mode: Mode, depth: nat,
                             ratio: real, round: real -> real)
    requires ratio > 0.0
  {
    |cells| == |areas| && Rows(rows, cells, areas, whole, FirstSide(whole, mode, depth), round, mode, WorstJudge(ratio))
  }

  // The children of one node, each with its share of the rectangle. Rows are filled
  // from the last child to the first.
  method LayChildren(node: Node, whole: Rect, mode: Mode, ratio: real, round: real -> real)
    returns (ghost cells: seq<Rect>, ghost rows: seq<Row>)
    requires node.children != [] && Distinct(node.children) && Proper(whole) && ratio > 0.0 && NonNegative(round)
    modifies node.children
    ensures Fills(node.children, cells, whole, Areas(node.children, node.value, Size(whole)), round)
    ensures RowsChosen(rows, Reversed(cells), Areas(Reversed(node.children), node.value, Size(whole)), whole, mode,
      node.depth,
                       ratio, round)
  {
    BackAndForth(node.children);
    cells, rows := ScaleAndLay(node, whole, mode, ratio, round, Reversed(node.children));
    InOriginalOrder(node.children, cells, whole, node.value, round);
    ghost var backwards := cells;
    cells := Reversed(backwards);
    assert Reversed(cells) == backwards;
  }

  lemma ScaledBackwards(nodes: seq<Node>, order: seq<Node>, total: real, space: real)
    requires forall i | 0 <= i < |nodes| :: nodes[i].area == Share(nodes[i].value, total, space)
    requires Backwards(nodes, order) && Distinct(nodes)
    ensures HasAreas(order, Areas(order, total, space)) && Distinct(order)
    ensures forall i | 0 <= i < |order| :: order[i] in nodes
  {
    forall i | 0 <= i < |order| ensures order[i].area == Share(order[i].value, total, space) && order[i] in nodes {
      assert order[i] == nodes[|nodes| - 1 - i];
    }
    forall i, j | 0 <= i < j < |order| ensures order[i] != order[j] {
      assert order[i] == nodes[|nodes| - 1 - i] && order[j] == nodes[|nodes| - 1 - j];
    }
  }

  lemma BackAndForth(nodes: seq<Node>)
    ensures Backwards(nodes, Reversed(nodes))
  {
  }

  // Between two steps of squarify's loop.
  ghost predicate Between(order: seq<Node>, areas: seq<real>, cells: seq<Rect>, row: seq<Node>, remaining: seq<Node>,
                          rowArea: real, rect: Rect, whole: Rect, u: real, round: real -> real)
    reads order
  {
    && InOrder(order, |cells|, row, remaining) && HasAreas(order, areas)
    && HasCells(order[..|cells|], cells) && Laying(cells, rect, whole, areas, round)
    && rowArea == Sum(areas[|cells|..|cells| + |row|])
    && u >= 0.0 && (u == rect.dx || u == rect.dy)
  }

  lemma BetweenFirst(order: seq<Node>, areas: seq<real>, nodes: seq<Node>, whole: Rect, u: real, round: real -> real)
    requires Backwards(nodes, order) && HasAreas(order, areas) && Proper(whole) && (u == whole.dx || u == whole.dy)
    ensures Between(order, areas, [], [], nodes, 0.0, whole, whole, u, round)
  {
    WholeTiles(whole);
    assert [] + [whole] == [whole] && areas[0..] == areas && order[0..] == order;
  }

  lemma BetweenNext(order: seq<Node>, areas: seq<real>, cells: seq<Rect>, row: seq<Node>, remaining: seq<Node>,
                    rowArea: real, rect: Rect, whole: Rect, u: real, round: real -> real)
    requires Between(order, areas, cells, row, remaining, rowArea, rect, whole, u, round) && remaining != []
    ensures var child := remaining[|remaining| - 1];
            && Between(order, areas, cells, row + [child], remaining[..|remaining| - 1], rowArea + child.area,
              rect, whole, u, round)
            && HasAreas(row + [child], areas[|cells|..|cells| + |row| + 1])
  {
    NextInOrder(order, |cells|, row, remaining);
    SumNextIn(areas, |cells|, |cells| + |row|);
  }

  // A row is closed and another one started.
  method CloseRow(ghost order: seq<Node>, ghost areas: seq<real>, ghost cells: seq<Rect>, row: seq<Node>,
                  ghost remaining: seq<Node>, rowArea: real, rect: Rect, ghost whole: Rect, u: real, flush: bool,
                  round: real -> real)
    returns (rest: Rect, ghost more: seq<Rect>, ghost laid: Row)
    requires Between(order, areas, cells, row, remaining, rowArea, rect, whole, u, round)
    requires row != [] && Distinct(order) && NonNegative(round) && (flush <==> remaining == [])
    modifies order`x, order`y, order`dx, order`dy, order`z
    ensures |more| == |cells| + |row| && AddsRow(laid, cells, more, u, rect, rest, areas, round)
    ensures Between(order, areas, more, [], remaining, 0.0, rest, whole, Min(rest.dx, rest.dy), round)
    ensures flush ==> rest.dx == 0.0 || rest.dy == 0.0
  {
    rest, more, laid := LayRow(order, row, rowArea, u, rect, flush, round, cells, whole, areas);
  }

  // ---- Which children share a row ----

  // Whether a score is the score of a row of areas along a side.
  type Judge = (seq<real>, real, Score) -> bool

  // Rows are judged by their worst cell, and have one score.
  ghost predicate JudgesWorst(judge: Judge, ratio: real)
    requires ratio > 0.0
  {
    && (forall areas, u, s {:trigger WorstOf(s, areas, u, ratio)} ::
      WorstOf(s, areas, u, ratio) <==> judge(areas, u, s))
    && OneScore(judge)
  }

  ghost predicate OneScore(judge: Judge) {
    forall areas, u, s, t {:trigger SameScore(judge, areas, u, s, t)} :: SameScore(judge, areas, u, s, t)
  }

  ghost predicate SameScore(judge: Judge, areas: seq<real>, u: real, s: Score, t: Score) {
    judge(areas, u, s) && judge(areas, u, t) ==> s == t
  }

  ghost function WorstJudge(ratio: real): Judge
    requires ratio > 0.0
  {
    (areas, u, s) => WorstOf(s, areas, u, ratio)
  }

  lemma WorstJudges(ratio: real)
    requires ratio > 0.0
    ensures JudgesWorst(WorstJudge(ratio), ratio)
  {
    var judge := WorstJudge(ratio);
    forall areas, u, s, t {:trigger SameScore(judge, areas, u, s, t)} ensures SameScore(judge, areas, u, s, t) {
      if WorstOf(s, areas, u, ratio) && WorstOf(t, areas, u, ratio) {
        WorstUnique(areas, Square(u), Square(Sum(areas)), ratio, s, t);
      }
    }
  }

  lemma WorstUnique(areas: seq<real>, u: real, s: real, ratio: real, a: Score, b: Score)
    requires ratio > 0.0 && IsWorst(a, areas, u, s, ratio) && IsWorst(b, areas, u, s, ratio)
    ensures a == b
  {
  }

  // One more child does not make the worst cell of the row worse.
  ghost predicate StaysGood(areas: seq<real>, c: nat, d: nat, u: real, judge: Judge)
    requires c <= d < |areas|
  {
    exists s, t :: judge(areas[c..d], u, s) && judge(areas[c..d + 1], u, t) && AtMost(t, s)
  }

  ghost predicate Grown(areas: seq<real>, c: nat, d: nat, u: real, judge: Judge)
    requires c <= d <= |areas|
  {
    forall k | c < k < d :: StaysGood(areas, c, k, u, judge)
  }

  // Squarified rows grow as long as the worst cell does not get worse, and no further;
  // the other modes have one row.
  ghost predicate Chosen(row: Row, areas: seq<real>, mode: Mode, judge: Judge) {
    match mode
    case Squarify =>
      && row.from < row.to <= |areas| && Grown(areas, row.from, row.to, row.side, judge)
      && (row.to < |areas| ==> !StaysGood(areas, row.from, row.to, row.side, judge))
    case _ => 0 == row.from < row.to == |areas|
  }

  // What the rows leave of the whole, and the side the next row is laid along: the
  // given one for the first row, and then the shorter side of what is left.
  ghost function Left(rows: seq<Row>, whole: Rect): Rect {
    if rows == [] then whole else After(rows[|rows| - 1])
  }

  ghost function NextSide(rows: seq<Row>, side: real): real {
    if rows == [] then side else Min(After(rows[|rows| - 1]).dx, After(rows[|rows| - 1]).dy)
  }

  // The cells are those of the rows, one row after the other, each in the rectangle that
  // the rows before it left.
  ghost predicate Rows(rows: seq<Row>, cells: seq<Rect>, areas: seq<real>, whole: Rect, side: real, round: real -> real,
                       mode: Mode, judge: Judge)
    decreases |rows|, 1
  {
    if rows == [] then cells == [] else EndsWithRow(rows, cells, areas, whole, side, round, mode, judge)
  }

  ghost predicate EndsWithRow(rows: seq<Row>, cells: seq<Rect>, areas: seq<real>, whole: Rect, side: real,
                              round: real -> real, mode: Mode, judge: Judge)
    requires rows != []
    decreases |rows|, 0
  {
    var before, last := rows[..|rows| - 1], rows[|rows| - 1];
    && last.rect == Left(before, whole) && last.side == NextSide(before, side)
    && last.to == |cells| && Chosen(last, areas, mode, judge) && InStrip(last, cells, areas, round)
    && Rows(before, cells[..last.from], areas, whole, side, round, mode, judge)
  }

  lemma LastRow(rows: seq<Row>, cells: seq<Rect>, areas: seq<real>, whole: Rect, side: real, round: real -> real,
                mode: Mode, judge: Judge)
    requires Rows(rows, cells, areas, whole, side, round, mode, judge) && rows != []
    ensures EndsWithRow(rows, cells, areas, whole, side, round, mode, judge)
    ensures var before, last := rows[..|rows| - 1], rows[|rows| - 1];
            before == [] ==> last.from == 0 && last.rect == whole && last.side == side
  {
    var before, last := rows[..|rows| - 1], rows[|rows| - 1];
    if before == [] { NoRows(cells[..last.from], areas, whole, side, round, mode, judge); }
  }

  lemma NoRows(cells: seq<Rect>, areas: seq<real>, whole: Rect, side: real, round: real -> real, mode: Mode,
               judge: Judge)
    requires Rows([], cells, areas, whole, side, round, mode, judge)
    ensures cells == []
  {
  }

  // So every row, the first or a later one, starts where the one before it ends, in the
  // rectangle that the rows before it left, and its cells tile its strip of it.
  lemma {:induction false} RowAt(rows: seq<Row>, cells: seq<Rect>, areas: seq<real>, whole: Rect, side: real,
                                 round: real -> real, mode: Mode, judge: Judge, i: nat)
    requires Rows(rows, cells, areas, whole, side, round, mode, judge) && i < |rows|
    ensures rows[i].from == (if i == 0 then 0 else rows[i - 1].to) < rows[i].to <= |cells|
    ensures rows[i].rect == (if i == 0 then whole else After(rows[i - 1]))
    ensures rows[i].side == if i == 0 then side else Min(rows[i].rect.dx, rows[i].rect.dy)
    ensures Chosen(rows[i], areas, mode, judge) && InStrip(rows[i], cells, areas, round)
    decreases |rows|
  {
    var before, last := rows[..|rows| - 1], rows[|rows| - 1];
    LastRow(rows, cells, areas, whole, side, round, mode, judge);
    if before != [] { LastRow(before, cells[..last.from], areas, whole, side, round, mode, judge); }
    if i < |before| {
      RowAt(before, cells[..last.from], areas, whole, side, round, mode, judge, i);
      assert cells[..last.from][rows[i].from..rows[i].to] == cells[rows[i].from..rows[i].to];
    }
  }

  lemma RowInLine(rows: seq<Row>, cells: seq<Rect>, areas: seq<real>, whole: Rect, side: real, round: real -> real,
                  mode: Mode, judge: Judge, i: nat)
    requires Rows(rows, cells, areas, whole, side, round, mode, judge) && i < |rows|
    ensures rows[i].from <= rows[i].to <= |cells|
    ensures InLine(cells[rows[i].from..rows[i].to], Strip(rows[i]), Across(rows[i]))
  {
    RowAt(rows, cells, areas, whole, side, round, mode, judge, i);
    RowCellsInLine(Strip(rows[i]), areas[rows[i].from..rows[i].to], Across(rows[i]), round);
  }

  // In terms of the scores: a squarified row takes another child exactly as long as the
  // worst cell of the row with it is no worse than that of the row without it.
  lemma RowGrowth(rows: seq<Row>, cells: seq<Rect>, areas: seq<real>, whole: Rect, side: real, round: real -> real,
                  ratio: real, i: nat, k: nat, s: Score, t: Score)
    requires ratio > 0.0 && Rows(rows, cells, areas, whole, side, round, Squarify, WorstJudge(ratio))
    requires i < |rows| && rows[i].from < k <= rows[i].to && k < |areas|
    requires WorstOf(s, areas[rows[i].from..k], rows[i].side, ratio)
    requires WorstOf(t, areas[rows[i].from..k + 1], rows[i].side, ratio)
    ensures k < rows[i].to <==> s.Infinity? || (t.Finite? && t.value <= s.value)
  {
    RowAt(rows, cells, areas, whole, side, round, Squarify, WorstJudge(ratio), i);
    ChosenGrowth(rows[i], areas, ratio, k, s, t);
  }

  lemma ChosenGrowth(row: Row, areas: seq<real>, ratio: real, k: nat, s: Score, t: Score)
    requires ratio > 0.0 && Chosen(row, areas, Squarify, WorstJudge(ratio))
    requires row.from < k <= row.to && k < |areas|
    requires WorstOf(s, areas[row.from..k], row.side, ratio) && WorstOf(t, areas[row.from..k + 1], row.side, ratio)
    ensures k < row.to <==> AtMost(t, s)
  {
    var judge := WorstJudge(ratio);
    WorstJudges(ratio);
    if k < row.to {
      assert StaysGood(areas, row.from, k, row.side, judge);
      var s', t' :| judge(areas[row.from..k], row.side, s') && judge(areas[row.from..k + 1], row.side, t')
        && AtMost(t', s');
      assert SameScore(judge, areas[row.from..k], row.side, s, s');
      assert SameScore(judge, areas[row.from..k + 1], row.side, t, t');
    } else {
      assert !StaysGood(areas, row.from, k, row.side, judge);
    }
  }

  // What squarify is given, when numbers are exact: areas that add up to the rectangle,
  // and one of its sides.
  ghost predicate ExactTask(areas: seq<real>, whole: Rect, side: real, round: real -> real) {
    && Exact(round) && Proper(whole) && Sum(areas) == Size(whole)
    && (forall k | 0 <= k < |areas| :: areas[k] >= 0.0)
    && (side == whole.dx || side == whole.dy)
  }

  // Then the rows leave as much as the other areas need.
  lemma {:induction false} RowsLeave(rows: seq<Row>, cells: seq<Rect>, areas: seq<real>, whole: Rect, side: real,
                                     round: real -> real, mode: Mode, judge: Judge)
    requires Rows(rows, cells, areas, whole, side, round, mode, judge) && ExactTask(areas, whole, side, round)
    ensures |cells| <= |areas|
    ensures Proper(Left(rows, whole)) && Size(Left(rows, whole)) == Sum(areas[|cells|..])
    decreases |rows|
  {
    if rows == [] {
      assert areas[0..] == areas;
    } else {
      var before, last := rows[..|rows| - 1], rows[|rows| - 1];
      RowsLeave(before, cells[..last.from], areas, whole, side, round, mode, judge);
      RowLeaves(last, areas, round);
    }
  }

  // A row that fits is as large as its areas.
  lemma RowLeaves(row: Row, areas: seq<real>, round: real -> real)
    requires Exact(round) && row.from <= row.to <= |areas| && row.thickness == ThicknessOf(row, areas, round)
    requires Proper(row.rect) && Size(row.rect) == Sum(areas[row.from..])
    requires row.side == row.rect.dx || row.side == row.rect.dy
    requires forall k | 0 <= k < |areas| :: areas[k] >= 0.0
    ensures Size(Strip(row)) == Sum(areas[row.from..row.to])
    ensures Proper(After(row)) && Size(After(row)) == Sum(areas[row.to..])
  {
    var rowArea, flush := Sum(areas[row.from..row.to]), row.to == |areas|;
    RowHasRoom(areas, row.from, row.to);
    SumGrows(areas[row.from..row.to], 0);
    RowFits(rowArea, row.side, Thickness(row.rect, Across(row)), flush, round);
    ExactStrip(rowArea, row.side, row.rect, Across(row), flush, round);
    SumConcat(areas[row.from..row.to], areas[row.to..]);
    assert areas[row.from..] == areas[row.from..row.to] + areas[row.to..];
  }

  lemma {:induction false} StripSize(rows: seq<Row>, cells: seq<Rect>, areas: seq<real>, whole: Rect, side: real,
                                     round: real -> real, mode: Mode, judge: Judge, i: nat)
    requires Rows(rows, cells, areas, whole, side, round, mode, judge) && ExactTask(areas, whole, side, round)
    requires i < |rows|
    ensures rows[i].from <= rows[i].to <= |areas| && Proper(rows[i].rect)
    ensures rows[i].side == rows[i].rect.dx || rows[i].side == rows[i].rect.dy
    ensures Size(Strip(rows[i])) == Sum(areas[rows[i].from..rows[i].to])
    decreases |rows|
  {
    var before, last := rows[..|rows| - 1], rows[|rows| - 1];
    if i < |before| {
      StripSize(before, cells[..last.from], areas, whole, side, round, mode, judge, i);
    } else {
      RowsLeave(before, cells[..last.from], areas, whole, side, round, mode, judge);
      RowLeaves(last, areas, round);
    }
  }

  // How far a rectangle of length w and thickness v is from the wanted shape.
  function Shape(w: real, v: real, ratio: real): real
    requires w > 0.0 && v > 0.0 && ratio > 0.0
  {
    Max(w / v * ratio, v / w / ratio)
  }

  lemma ShapeIs(w: real, v: real, ratio: real)
    requires w > 0.0 && v > 0.0 && ratio > 0.0
    ensures Shape(w, v, ratio) == if w / v * ratio < v / w / ratio then v / w / ratio else w / v * ratio
  {
  }

  // So with exact numbers the score of a row is about the cells that are laid: what
  // worst computes from an area, and from the row's area and side, is the shape of the
  // cell of that area.
  lemma CellShape(rows: seq<Row>, cells: seq<Rect>, areas: seq<real>, whole: Rect, side: real, round: real -> real,
                  mode: Mode, judge: Judge, ratio: real, i: nat, k: nat)
    requires Rows(rows, cells, areas, whole, side, round, mode, judge) && ExactTask(areas, whole, side, round)
    requires |cells| == |areas| && AreaOf(cells, areas) && ratio > 0.0
    requires i < |rows| && rows[i].from <= k < rows[i].to <= |areas| && areas[k] > 0.0
    ensures var row := rows[i];
            var w, v, s := Along(cells[k], Across(row)), Thickness(cells[k], Across(row)), Sum(areas[row.from..row.to]);
            && w > 0.0 && v > 0.0 && Square(row.side) > 0.0 && Square(s) > 0.0
            && Elongation(areas[k], Square(row.side), Square(s), ratio) == Shape(w, v, ratio)
  {
    CellSpans(rows, cells, areas, whole, side, round, mode, judge, i, k);
    StripSize(rows, cells, areas, whole, side, round, mode, judge, i);
    CellInRow(rows[i], cells[k], areas, k, ratio);
  }

  // A cell is as thick as the strip of its row.
  lemma CellSpans(rows: seq<Row>, cells: seq<Rect>, areas: seq<real>, whole: Rect, side: real, round: real -> real,
                  mode: Mode, judge: Judge, i: nat, k: nat)
    requires Rows(rows, cells, areas, whole, side, round, mode, judge)
    requires i < |rows| && rows[i].from <= k < rows[i].to && k < |cells|
    ensures Spans(cells[k], Strip(rows[i]), Across(rows[i]))
  {
    RowInLine(rows, cells, areas, whole, side, round, mode, judge, i);
    assert cells[rows[i].from..rows[i].to][k - rows[i].from] == cells[k];
  }

  lemma CellInRow(row: Row, cell: Rect, areas: seq<real>, k: nat, ratio: real)
    requires row.from <= k < row.to <= |areas| && (forall i | 0 <= i < |areas| :: areas[i] >= 0.0)
    requires Proper(row.rect) && (row.side == row.rect.dx || row.side == row.rect.dy) && ratio > 0.0
    requires Spans(cell, Strip(row), Across(row)) && Size(cell) == areas[k] > 0.0
    requires Size(Strip(row)) == Sum(areas[row.from..row.to])
    ensures var w, v, s := Along(cell, Across(row)), Thickness(cell, Across(row)), Sum(areas[row.from..row.to]);
            && w > 0.0 && v > 0.0 && Square(row.side) > 0.0 && Square(s) > 0.0
            && Elongation(areas[k], Square(row.side), Square(s), ratio) == Shape(w, v, ratio)
  {
    var own := areas[row.from..row.to];
    AtMostSum(own, k - row.from);
    Commutes(cell.dx, cell.dy);
    Commutes(Strip(row).dx, Strip(row).dy);
    ElongationIsShape(Along(cell, Across(row)), Thickness(cell, Across(row)), areas[k], row.side, Sum(own), ratio);
  }

  lemma {:induction false} AtMostSum(areas: seq<real>, k: nat)
    requires k < |areas| && forall i | 0 <= i < |areas| :: areas[i] >= 0.0
    ensures areas[k] <= Sum(areas)
  {
    SumNext(areas, k);
    SumGrows(areas, k);
    SumGrows(areas, k + 1);
  }

  lemma ElongationIsShape(w: real, v: real, area: real, u: real, s: real, ratio: real)
    requires w * v == area > 0.0 && u * v == s > 0.0 && u >= 0.0 && ratio > 0.0
    ensures w > 0.0 && v > 0.0 && Square(u) > 0.0 && Square(s) > 0.0
    ensures Elongation(area, Square(u), Square(s), ratio) == Shape(w, v, ratio)
  {
    assert u > 0.0 && v > 0.0 && w > 0.0;
    Positive(u, u);
    Positive(s, s);
    Positive(u * v, u * v);
    LongIs(w, v, u, ratio);
    ThickIs(w, v, u, ratio);
  }

  lemma LongIs(w: real, v: real, u: real, ratio: real)
    requires w > 0.0 && v > 0.0 && u > 0.0 && ratio > 0.0 && Square(u * v) > 0.0
    ensures TooLong(w * v, Square(u), Square(u * v), ratio) == w / v * ratio
  {
    var q := w / v;
    assert q * v == w;
    Scaled(Square(u) * (w * v) * ratio, q * ratio, Square(u * v)) by {
      calc {
        Square(u) * (w * v) * ratio;
        u * u * (q * v * v) * ratio;
        q * ratio * ((u * v) * (u * v));
      }
    }
  }

  lemma Scaled(a: real, b: real, c: real)
    requires c > 0.0 && a == b * c
    ensures a / c == b
  {
  }

  lemma ThickIs(w: real, v: real, u: real, ratio: real)
    requires w > 0.0 && v > 0.0 && u > 0.0 && ratio > 0.0 && w * v > 0.0 && Square(u) > 0.0
    ensures TooThick(w * v, Square(u), Square(u * v), ratio) == v / w / ratio
  {
    var q := v / w / ratio;
    assert q * ratio == v / w;
    assert q * ratio * w == v;
    Positive(Square(u), w * v);
    Positive(Square(u) * (w * v), ratio);
    Scaled(Square(u * v), q, Square(u) * (w * v) * ratio) by {
      calc {
        (u * v) * (u * v);
        u * u * (q * ratio * w) * v;
        q * (u * u * (w * v) * ratio);
      }
    }
  }

  // Sliced and diced children are one row: side by side through the whole rectangle,
  // across it or down it. Where the rectangle is a square, dicing goes across too.
  lemma OneRow(rows: seq<Row>, cells: seq<Rect>, areas: seq<real>, whole: Rect, mode: Mode, depth: nat, ratio: real,
               round: real -> real)
    requires ratio > 0.0 && RowsChosen(rows, cells, areas, whole, mode, depth, ratio, round)
    requires cells != [] && mode != Squarify
    ensures InLine(cells, whole, FirstSide(whole, mode, depth) == whole.dx)
  {
    var side, judge := FirstSide(whole, mode, depth), WorstJudge(ratio);
    var last := rows[|rows| - 1];
    LastRow(rows, cells, areas, whole, side, round, mode, judge);
    assert rows[..|rows| - 1] == [] by {
      if |rows| > 1 {
        RowAt(rows, cells, areas, whole, side, round, mode, judge, |rows| - 1);
        RowAt(rows, cells, areas, whole, side, round, mode, judge, |rows| - 2);
      }
    }
    RowInLine(rows, cells, areas, whole, side, round, mode, judge, 0);
    assert cells[0..|cells|] == cells;
  }

  // The row c..d that is being filled.
  ghost predicate Choosing(areas: seq<real>, c: nat, d: nat, u: real, best: Score, mode: Mode, judge: Judge) {
    match mode
    case Squarify =>
      && c <= d <= |areas| && (c == d ==> best == Infinity)
      && (c < d ==> judge(areas[c..d], u, best) && Grown(areas, c, d, u, judge))
    case _ => c <= d <= |areas| && (c == d ==> best == Infinity)
  }

  lemma ChooseNext(areas: seq<real>, c: nat, d: nat, u: real, best: Score, score: Score, mode: Mode, judge: Judge)
    requires Choosing(areas, c, d, u, best, mode, judge) && d < |areas|
    requires mode == Squarify ==> judge(areas[c..d + 1], u, score) && AtMost(score, best)
    ensures Choosing(areas, c, d + 1, u, score, mode, judge)
  {
    if mode == Squarify && c < d {
      assert StaysGood(areas, c, d, u, judge);
    }
  }

  // The rows closed so far and the row being filled, n children after the cells.
  ghost predicate Closing(rows: seq<Row>, cells: seq<Rect>, n: nat, areas: seq<real>, rect: Rect, whole: Rect,
                          u: real, side: real,
                          round: real -> real, best: Score, mode: Mode, judge: Judge)
  {
    && Rows(rows, cells, areas, whole, side, round, mode, judge) && (mode != Squarify ==> rows == [])
    && rect == Left(rows, whole) && u == NextSide(rows, side)
    && Choosing(areas, |cells|, |cells| + n, u, best, mode, judge)
  }

  lemma RowClosed(rows: seq<Row>, cells: seq<Rect>, n: nat, more: seq<Rect>, areas: seq<real>, rect: Rect,
                  rest: Rect, whole: Rect,
                  u: real, side: real, round: real -> real, best: Score, score: Score, judge: Judge, laid: Row)
    requires Closing(rows, cells, n, areas, rect, whole, u, side, round, best, Squarify, judge)
    requires n > 0 && |cells| + n < |areas| && judge(areas[|cells|..|cells| + n + 1], u, score) && !AtMost(score, best)
    requires OneScore(judge) && |more| == |cells| + n && AddsRow(laid, cells, more, u, rect, rest, areas, round)
    ensures Closing(rows + [laid], more, 0, areas, rest, whole, Min(rest.dx, rest.dy), side, round, Infinity,
      Squarify, judge)
  {
    var c, d := |cells|, |cells| + n;
    forall s, t | judge(areas[c..d], u, s) && judge(areas[c..d + 1], u, t) ensures !AtMost(t, s) {
      assert SameScore(judge, areas[c..d], u, s, best) && SameScore(judge, areas[c..d + 1], u, t, score);
    }
    RowsAppend(rows, cells, more, areas, whole, side, round, Squarify, judge, laid);
  }

  lemma LastRowClosed(rows: seq<Row>, cells: seq<Rect>, n: nat, all: seq<Rect>, areas: seq<real>, rect: Rect,
                      rest: Rect, whole: Rect,
                      u: real, side: real, round: real -> real, best: Score, mode: Mode, judge: Judge, laid: Row)
    requires Closing(rows, cells, n, areas, rect, whole, u, side, round, best, mode, judge)
    requires n > 0 && |cells| + n == |areas| == |all|
    requires AddsRow(laid, cells, all, u, rect, rest, areas, round)
    ensures Rows(rows + [laid], all, areas, whole, side, round, mode, judge)
  {
    RowsAppend(rows, cells, all, areas, whole, side, round, mode, judge, laid);
  }

  lemma RowsAppend(rows: seq<Row>, cells: seq<Rect>, more: seq<Rect>, areas: seq<real>, whole: Rect, side: real,
                   round: real -> real, mode: Mode, judge: Judge, laid: Row)
    requires Rows(rows, cells, areas, whole, side, round, mode, judge) && cells <= more
    requires laid.from == |cells| && laid.to == |more| && laid.rect == Left(rows, whole)
    requires laid.side == NextSide(rows, side)
    requires Chosen(laid, areas, mode, judge) && InStrip(laid, more, areas, round)
    ensures Rows(rows + [laid], more, areas, whole, side, round, mode, judge)
  {
    assert (rows + [laid])[..|rows|] == rows && more[..|cells|] == cells;
  }

  method ScoreOf(row: seq<Node>, rowArea: real, u: real, ratio: real, ghost areas: seq<real>, ghost judge: Judge)
    returns (score: Score)
    requires HasAreas(row, areas) && rowArea == Sum(areas) && u >= 0.0 && ratio > 0.0 && JudgesWorst(judge, ratio)
    ensures judge(areas, u, score)
  {
    score := Worst(row, rowArea, u, ratio, areas);
  }

  // The next child would make the row worse: the row is closed.
  method CloseWorse(ghost order: seq<Node>, ghost areas: seq<real>, ghost cells: seq<Rect>, row: seq<Node>,
                    ghost remaining: seq<Node>, rowArea: real, rect: Rect, ghost whole: Rect, u: real,
                    round: real -> real,
                    ghost rows: seq<Row>, ghost side: real, ghost best: Score, ghost score: Score, ghost judge: Judge)
    returns (rest: Rect, ghost more: seq<Rect>, ghost rows1: seq<Row>)
    requires Between(order, areas, cells, row, remaining, rowArea, rect, whole, u, round)
    requires row != [] && remaining != [] && Distinct(order) && NonNegative(round)
    requires Closing(rows, cells, |row|, areas, rect, whole, u, side, round, best, Squarify, judge)
    requires judge(areas[|cells|..|cells| + |row| + 1], u, score) && !AtMost(score, best) && OneScore(judge)
    modifies order`x, order`y, order`dx, order`dy, order`z
    ensures |more| == |cells| + |row|
    ensures Between(order, areas, more, [], remaining, 0.0, rest, whole, Min(rest.dx, rest.dy), round)
    ensures rows1 != []
    ensures Closing(rows1, more, 0, areas, rest, whole, Min(rest.dx, rest.dy), side, round, Infinity, Squarify, judge)
  {
    ghost var laid;
    rest, more, laid := CloseRow(order, areas, cells, row, remaining, rowArea, rect, whole, u, false, round);
    RowClosed(rows, cells, |row|, more, areas, rect, rest, whole, u, side, round, best, score, judge, laid);
    rows1 := rows + [laid];
  }

  // Nothing remains: the last row is closed.
  method CloseLast(ghost order: seq<Node>, ghost areas: seq<real>, ghost cells: seq<Rect>, row: seq<Node>,
                   rowArea: real, rect: Rect, ghost whole: Rect, u: real, round: real -> real,
                   ghost rows: seq<Row>, ghost side: real, ghost best: Score, ghost mode: Mode, ghost judge: Judge)
    returns (ghost all: seq<Rect>, ghost rows1: seq<Row>)
    requires Between(order, areas, cells, row, [], rowArea, rect, whole, u, round)
    requires row != [] && Distinct(order) && NonNegative(round)
    requires Closing(rows, cells, |row|, areas, rect, whole, u, side, round, best, mode, judge)
    modifies order`x, order`y, order`dx, order`dy, order`z
    ensures Fills(order, all, whole, areas, round)
    ensures |all| == |areas| && Rows(rows1, all, areas, whole, side, round, mode, judge)
  {
    var rest;
    ghost var laid;
    rest, all, laid := CloseRow(order, areas, cells, row, [], rowArea, rect, whole, u, true, round);
    LastRowClosed(rows, cells, |row|, all, areas, rect, rest, whole, u, side, round, best, mode, judge, laid);
    rows1 := rows + [laid];
    LaidOut(order, areas, all, rest, whole, round);
  }

  // Whether the next child joins the row.
  method Joins(ghost order: seq<Node>, ghost areas: seq<real>, ghost cells: seq<Rect>, row: seq<Node>,
               remaining: seq<Node>,
               rowArea: real, ghost rect: Rect, ghost whole: Rect, u: real, ghost round: real -> real,
               best: Score, mode: Mode, ratio: real, ghost judge: Judge)
    returns (joins: bool, score: Score)
    requires Between(order, areas, cells, row, remaining, rowArea, rect, whole, u, round) && remaining != []
    requires ratio > 0.0 && JudgesWorst(judge, ratio)
    ensures mode != Squarify ==> joins && score == Infinity
    ensures mode == Squarify ==> judge(areas[|cells|..|cells| + |row| + 1], u, score) && joins == AtMost(score, best)
  {
    BetweenNext(order, areas, cells, row, remaining, rowArea, rect, whole, u, round);
    var child := remaining[|remaining| - 1];
    score := Infinity;
    if mode == Squarify {
      score := ScoreOf(row + [child], rowArea + child.area, u, ratio, areas[|cells|..|cells| + |row| + 1], judge);
    }
    joins := mode != Squarify || AtMost(score, best);
  }

  // The invariant of squarify's loop: what is laid and what is left, the row being
  // filled, and the rows that were closed.
  ghost predicate Filled(order: seq<Node>, areas: seq<real>, cells: seq<Rect>, row: seq<Node>, remaining: seq<Node>,
                         rowArea: real,
                         rect: Rect, whole: Rect, u: real, side: real, round: real -> real, rows: seq<Row>,
                         best: Score, mode: Mode,
                         judge: Judge)
    reads order
  {
    && Between(order, areas, cells, row, remaining, rowArea, rect, whole, u, round)
    && Closing(rows, cells, |row|, areas, rect, whole, u, side, round, best, mode, judge)
    && (row == [] ==> remaining != [])
  }

  // The body of the loop.
  method FillOrClose(
    ghost order: seq<Node>, ghost areas: seq<real>, ghost cells: seq<Rect>, row: seq<Node>, remaining: seq<Node>,
    rowArea: real,
    rect: Rect, ghost whole: Rect, u: real, ghost side: real, round: real -> real, ghost rows: seq<Row>, best: Score,
    mode: Mode,
    ratio: real, ghost judge: Judge)
    returns (row1: seq<Node>, remaining1: seq<Node>, rowArea1: real, rect1: Rect, u1: real, best1: Score,
             ghost cells1: seq<Rect>, ghost rows1: seq<Row>)
    requires Filled(order, areas, cells, row, remaining, rowArea, rect, whole, u, side, round, rows, best, mode, judge)
    requires remaining != [] && Distinct(order) && NonNegative(round) && ratio > 0.0 && JudgesWorst(judge, ratio)
    modifies order`x, order`y, order`dx, order`dy, order`z
    ensures Filled(order, areas, cells1, row1, remaining1, rowArea1, rect1, whole, u1, side, round, rows1, best1,
      mode, judge)
    ensures |remaining1| < |remaining| || (remaining1 == remaining && |row1| < |row|)
  {
    var joins, score :=
      Joins(order, areas, cells, row, remaining, rowArea, rect, whole, u, round, best, mode, ratio, judge);
    cells1, rows1 := cells, rows;
    if joins {
      BetweenNext(order, areas, cells, row, remaining, rowArea, rect, whole, u, round);
      ChooseNext(areas, |cells|, |cells| + |row|, u, best, score, mode, judge);
      var child := remaining[|remaining| - 1];
      row1, remaining1, rowArea1 := row + [child], remaining[..|remaining| - 1], rowArea + child.area;
      rect1, u1, best1 := rect, u, score;
    } else {
      rect1, cells1, rows1 :=
        CloseWorse(order, areas, cells, row, remaining, rowArea, rect, whole, u, round, rows, side, best, score, judge);
      row1, remaining1, rowArea1, u1, best1 := [], remaining, 0.0, Min(rect1.dx, rect1.dy), Infinity;
    }
  }

  // The loop of squarify: rows are filled as long as the worst cell does not get worse,
  // and the last row takes what is left.
  method LayRows(nodes: seq<Node>, whole: Rect, side: real, mode: Mode, ratio: real, round: real -> real,
                 ghost order: seq<Node>, ghost areas: seq<real>, ghost judge: Judge)
    returns (ghost cells: seq<Rect>, ghost rows: seq<Row>)
    requires nodes != [] && Backwards(nodes, order) && Distinct(order) && HasAreas(order, areas)
    requires Proper(whole) && (side == whole.dx || side == whole.dy) && NonNegative(round)
    requires ratio > 0.0 && JudgesWorst(judge, ratio)
    modifies order`x, order`y, order`dx, order`dy, order`z
    ensures Fills(order, cells, whole, areas, round)
    ensures |cells| == |areas| && Rows(rows, cells, areas, whole, side, round, mode, judge)
  {
    var rect, u := whole, side;
    var remaining, row, rowArea, best := nodes, [], 0.0, Infinity;
    cells, rows := [], [];
    BetweenFirst(order, areas, nodes, whole, side, round);
    while remaining != []
      invariant Filled(order, areas, cells, row, remaining, rowArea, rect, whole, u, side, round, rows, best, mode,
        judge)
      decreases |remaining|, |row|
    {
      row, remaining, rowArea, rect, u, best, cells, rows := FillOrClose(
        order, areas, cells, row, remaining, rowArea, rect, whole, u, side, round, rows, best, mode, ratio, judge);
    }
    cells, rows := CloseLast(order, areas, cells, row, rowArea, rect, whole, u, round, rows, side, best, mode, judge);
  }

  lemma LaidOut(order: seq<Node>, areas: seq<real>, cells: seq<Rect>, rect: Rect, whole: Rect, round: real -> real)
    requires |order| == |areas| == |cells| && HasCells(order[..|cells|], cells)
    requires Laying(cells, rect, whole, areas, round) && (rect.dx == 0.0 || rect.dy == 0.0)
    ensures Fills(order, cells, whole, areas, round)
  {
    DropEmpty(cells, rect, whole);
    assert areas[..|areas|] == areas && order[..|order|] == order;
  }

  lemma SumNextIn(areas: seq<real>, c: nat, d: nat)
    requires c <= d < |areas|
    ensures Sum(areas[c..d + 1]) == Sum(areas[c..d]) + areas[d]
  {
    assert areas[c..d + 1][..d - c] == areas[c..d];
  }
}
