// The treemap layout: rows of cells that fill the padded rectangle of their node.
module Treemap {
  import opened Basics
  import opened Tiling

  class Node {
    const children: seq<Node>
    const value: real
    const depth: nat
    var x: real
    var y: real
    var dx: real
    var dy: real
    var area: real
    // Whether the cell ends a row laid across the rectangle.
    var z: bool

    // The node and everything below it.
    ghost const repr: set<Node>

    constructor (children: seq<Node>, value: real, depth: nat)
      requires Separate(children)
      ensures this.children == children && this.value == value && this.depth == depth && Tree(this)
    {
      this.children, this.value, this.depth := children, value, depth;
      repr := {this} + Below(children);
    }

    function Cell(): Rect
      reads this
    {
      Rect(x, y, dx, dy)
    }
  }

  // ---- The shape of the hierarchy, which the layout does not change ----

  ghost function Below(nodes: seq<Node>): set<Node> {
    set n, m | n in nodes && m in n.repr :: m
  }

  ghost predicate Tree(n: Node)
    decreases n.repr
  {
    && n in n.repr
    && (forall c | c in n.children :: c.repr <= n.repr && n !in c.repr && Tree(c))
    && Apart(n.children)
  }

  ghost predicate Apart(nodes: seq<Node>) {
    forall i, j {:trigger Disjoint(nodes, i, j)} | 0 <= i < j < |nodes| :: Disjoint(nodes, i, j)
  }

  ghost predicate Disjoint(nodes: seq<Node>, i: nat, j: nat)
    requires i < |nodes| && j < |nodes|
  {
    nodes[i].repr !! nodes[j].repr
  }

  ghost predicate Separate(nodes: seq<Node>) {
    (forall c | c in nodes :: Tree(c)) && Apart(nodes)
  }

  // ---- position ----

  ghost predicate HasCells(nodes: seq<Node>, cells: seq<Rect>)
    reads nodes
  {
    |nodes| == |cells| && forall i | 0 <= i < |nodes| :: nodes[i].Cell() == cells[i]
  }

  ghost predicate Distinct(nodes: seq<Node>) {
    forall i, j | 0 <= i < j < |nodes| :: nodes[i] != nodes[j]
  }

  ghost predicate HasAreas(nodes: seq<Node>, areas: seq<real>)
    reads nodes
  {
    |nodes| == |areas| && forall i | 0 <= i < |nodes| :: nodes[i].area == areas[i] && areas[i] >= 0.0
  }

  function Sum(areas: seq<real>): real {
    if areas == [] then 0.0 else Sum(areas[..|areas| - 1]) + areas[|areas| - 1]
  }

  ghost predicate NonNegative(round: real -> real) {
    forall r :: r >= 0.0 ==> round(r) >= 0.0
  }

  ghost predicate Exact(round: real -> real) {
    forall r :: round(r) == r
  }

  function Size(r: Rect): real { r.dx * r.dy }

  // Every cell is as large as its share.
  ghost predicate AreaOf(cells: seq<Rect>, areas: seq<real>) {
    |cells| == |areas| && forall i | 0 <= i < |cells| :: Size(cells[i]) == areas[i]
  }

  function Min(a: real, b: real): real { if a < b then a else b }

  lemma {:induction false} SumGrows(areas: seq<real>, i: nat)
    requires i <= |areas| && forall k | 0 <= k < |areas| :: areas[k] >= 0.0
    ensures 0.0 <= Sum(areas[..i]) <= Sum(areas)
  {
    if areas == [] {
    } else {
      var last := |areas| - 1;
      SumGrows(areas[..last], if i < last then i else last);
      assert i <= last ==> areas[..last][..i] == areas[..i];
      assert i > last ==> areas[..i] == areas && areas[..last][..last] == areas[..last];
    }
  }

  lemma SumNext(areas: seq<real>, i: nat)
    requires i < |areas|
    ensures Sum(areas[..i + 1]) == Sum(areas[..i]) + areas[i]
  {
    assert areas[..i + 1][..i] == areas[..i];
  }

  // The width of a cell in a row of height v, before it is cut off at the edge.
  function Extent(area: real, v: real, round: real -> real): real {
    if v != 0.0 then round(area / v) else 0.0
  }

  // With exact numbers a cell gets its share and the cells before it theirs.
  lemma ExactExtent(area: real, v: real, room: real, used: real, total: real, round: real -> real)
    requires Exact(round) && v >= 0.0 && area >= 0.0 && room >= 0.0
    requires room * v == total - used && used + area <= total
    ensures var w := Min(room, Extent(area, v, round)); w * v == area && (room - w) * v == total - (used + area)
  {
    if v == 0.0 {
    } else {
      var w := area / v;
      assert w * v == area;
      if w > room { assert w * v > room * v; }
      assert (room - w) * v == room * v - w * v;
    }
  }

  // ---- Rows, laid across or down ----

  function Along(r: Rect, across: bool): real { if across then r.dx else r.dy }

  function Thickness(r: Rect, across: bool): real { if across then r.dy else r.dx }

  // The first part of a rectangle, of length w, and what is left of it.
  function Piece(r: Rect, w: real, across: bool): Rect {
    if across then r.(dx := w) else r.(dy := w)
  }

  function Rest(r: Rect, w: real, across: bool): Rect {
    if across then Rect(r.x + w, r.y, r.dx - w, r.dy) else Rect(r.x, r.y + w, r.dx, r.dy - w)
  }

  lemma Cut(r: Rect, w: real, across: bool)
    requires Proper(r) && 0.0 <= w <= Along(r, across)
    ensures Tiles([Piece(r, w, across), Rest(r, w, across)], r)
  {
    if across { CutAcross(r, w); } else { CutDown(r, w); }
  }

  function CellIn(left: Rect, area: real, across: bool, round: real -> real): Rect {
    Piece(left, Min(Along(left, across), Extent(area, Thickness(left, across), round)), across)
  }

  lemma CellFits(left: Rect, area: real, across: bool, round: real -> real)
    requires Proper(left) && area >= 0.0 && NonNegative(round)
    ensures 0.0 <= Along(CellIn(left, area, across, round), across) <= Along(left, across)
  {
    if Thickness(left, across) != 0.0 {
      assert area / Thickness(left, across) >= 0.0;
    }
  }

  // A cell taken off what is left of a tiling.
  lemma NextTiles(cells: seq<Rect>, left: Rect, strip: Rect, w: real, across: bool)
    requires Tiles(cells + [left], strip) && Proper(left) && 0.0 <= w <= Along(left, across)
    ensures Tiles(cells + [Piece(left, w, across)] + [Rest(left, w, across)], strip)
  {
    var piece, rest := Piece(left, w, across), Rest(left, w, across);
    Cut(left, w, across);
    RefineLast(cells, left, [piece, rest], strip);
    assert cells + [piece, rest] == cells + [piece] + [rest];
  }

  ghost predicate Follows(last: Rect, left: Rect, across: bool) {
    if across then left.x == last.x + last.dx && left.y == last.y && left.dy == last.dy
    else left.y == last.y + last.dy && left.x == last.x && left.dx == last.dx
  }

  // The last cell is extended to the edge.
  lemma LastTiles(cells: seq<Rect>, last: Rect, left: Rect, strip: Rect, across: bool)
    requires Tiles(cells + [last] + [left], strip) && Follows(last, left, across)
    ensures Tiles(cells + [Piece(last, Along(last, across) + Along(left, across), across)], strip)
  {
    assert cells + [last] + [left] == cells + [last, left];
    if across { AbsorbAcross(cells, last, left, strip); } else { AbsorbDown(cells, last, left, strip); }
  }

  // Every cell so far is as large as its share, and room is left for the other shares.
  ghost predicate Shares(cells: seq<Rect>, left: Rect, areas: seq<real>) {
    && |cells| <= |areas| && AreaOf(cells, areas[..|cells|])
    && Size(left) == Sum(areas) - Sum(areas[..|cells|])
  }

  lemma NextShares(cells: seq<Rect>, left: Rect, areas: seq<real>, cell: Rect, rest: Rect)
    requires Shares(cells, left, areas) && |cells| < |areas| && Size(cell) == areas[|cells|]
    requires Size(rest) == Sum(areas) - Sum(areas[..|cells| + 1])
    ensures Shares(cells + [cell], rest, areas)
  {
    forall k | 0 <= k <= |cells| ensures Size((cells + [cell])[k]) == areas[..|cells| + 1][k] {
      assert k < |cells| ==> Size(cells[k]) == areas[..|cells|][k];
    }
  }

  lemma CellShare(cells: seq<Rect>, left: Rect, areas: seq<real>, across: bool, round: real -> real)
    requires Exact(round) && Proper(left) && Shares(cells, left, areas) && |cells| < |areas|
    requires forall k | 0 <= k < |areas| :: areas[k] >= 0.0
    ensures var cell := CellIn(left, areas[|cells|], across, round);
            && Size(cell) == areas[|cells|]
            && Size(Rest(left, Along(cell, across), across)) == Sum(areas) - Sum(areas[..|cells| + 1])
  {
    SumNext(areas, |cells|);
    SumGrows(areas, |cells| + 1);
    ExactCell(left, areas[|cells|], Sum(areas[..|cells|]), Sum(areas), across, round);
  }

  lemma ExactCell(left: Rect, area: real, used: real, total: real, across: bool, round: real -> real)
    requires Exact(round) && Proper(left) && area >= 0.0
    requires Size(left) == total - used && used + area <= total
    ensures var cell := CellIn(left, area, across, round);
            Size(cell) == area && Size(Rest(left, Along(cell, across), across)) == total - (used + area)
  {
    Commutes(left.dx, left.dy);
    ExactExtent(area, Thickness(left, across), Along(left, across), used, total, round);
  }

  lemma Commutes(a: real, b: real)
    ensures a * b == b * a
  {
  }

  lemma LastShares(cells: seq<Rect>, last: Rect, left: Rect, areas: seq<real>, across: bool)
    requires |cells| + 1 == |areas| && Shares(cells + [last], left, areas) && Follows(last, left, across)
    ensures AreaOf(cells + [Piece(last, Along(last, across) + Along(left, across), across)], areas)
  {
    var full := cells + [Piece(last, Along(last, across) + Along(left, across), across)];
    assert areas[..|areas|] == areas;
    ExtendedArea(last, left, across);
    forall i | 0 <= i < |full| ensures Size(full[i]) == areas[i] {
      assert Size((cells + [last])[i]) == areas[i];
    }
  }

  lemma ExtendedArea(last: Rect, left: Rect, across: bool)
    requires Follows(last, left, across) && Size(left) == 0.0
    ensures var full := Piece(last, Along(last, across) + Along(left, across), across);
            Size(full) == Size(last)
  {
    var a, b, t := Along(last, across), Along(left, across), Thickness(last, across);
    assert (a + b) * t == a * t + b * t;
  }

  method SetCell(o: Node, cell: Rect)
    modifies o`x, o`y, o`dx, o`dy
    ensures o.Cell() == cell
  {
    o.x, o.y, o.dx, o.dy := cell.x, cell.y, cell.dx, cell.dy;
  }

  // The cells so far and what is left of the strip.
  ghost predicate Filling(cells: seq<Rect>, left: Rect, strip: Rect, areas: seq<real>, across: bool,
                          round: real -> real)
  {
    && Proper(left) && Tiles(cells + [left], strip)
    && (cells != [] ==> Follows(cells[|cells| - 1], left, across))
    && (Exact(round) && Sum(areas) == Size(strip) ==> Shares(cells, left, areas))
  }

  lemma FillFirst(strip: Rect, areas: seq<real>, across: bool, round: real -> real)
    requires Proper(strip)
    ensures Filling([], strip, strip, areas, across, round)
  {
    WholeTiles(strip);
    assert [] + [strip] == [strip];
  }

  lemma FillNext(cells: seq<Rect>, left: Rect, strip: Rect, areas: seq<real>, across: bool, round: real -> real)
    requires Filling(cells, left, strip, areas, across, round) && |cells| < |areas| && NonNegative(round)
    requires forall k | 0 <= k < |areas| :: areas[k] >= 0.0
    ensures var cell := CellIn(left, areas[|cells|], across, round);
            Filling(cells + [cell], Rest(left, Along(cell, across), across), strip, areas, across, round)
  {
    var cell := CellIn(left, areas[|cells|], across, round);
    CellFits(left, areas[|cells|], across, round);
    NextTiles(cells, left, strip, Along(cell, across), across);
    if Exact(round) && Sum(areas) == Size(strip) {
      CellShare(cells, left, areas, across, round);
      NextShares(cells, left, areas, cell, Rest(left, Along(cell, across), across));
    }
  }

  function Extended(last: Rect, left: Rect, across: bool): Rect {
    Piece(last, Along(last, across) + Along(left, across), across)
  }

  lemma FillLast(cells: seq<Rect>, left: Rect, strip: Rect, areas: seq<real>, across: bool, round: real -> real)
    requires Filling(cells, left, strip, areas, across, round) && |cells| == |areas| && cells != []
    ensures var full := cells[..|cells| - 1] + [Extended(cells[|cells| - 1], left, across)];
            Tiles(full, strip) && (Exact(round) && Sum(areas) == Size(strip) ==> AreaOf(full, areas))
  {
    var but, last := cells[..|cells| - 1], cells[|cells| - 1];
    assert cells == but + [last];
    LastTiles(but, last, left, strip, across);
    if Exact(round) && Sum(areas) == Size(strip) {
      LastShares(but, last, left, areas, across);
    }
  }

  // The cells of a row: each as long as its area needs, as far as there is room, and the
  // last one takes all that is left.
  function RowCells(left: Rect, areas: seq<real>, across: bool, round: real -> real): seq<Rect>
    decreases |areas|
  {
    if areas == [] then []
    else if |areas| == 1 then [left]
    else
      var cell := CellIn(left, areas[0], across, round);
      [cell] + RowCells(Rest(left, Along(cell, across), across), areas[1..], across, round)
  }

  function Start(r: Rect, across: bool): real { if across then r.x else r.y }

  function End(r: Rect, across: bool): real { Start(r, across) + Along(r, across) }

  // As thick as the strip, and nowhere beside it.
  predicate Spans(cell: Rect, strip: Rect, across: bool) {
    Thickness(cell, across) == Thickness(strip, across) && Start(cell, !across) == Start(strip, !across)
  }

  ghost predicate Touch(cells: seq<Rect>, i: nat, across: bool)
    requires i + 1 < |cells|
  {
    End(cells[i], across) == Start(cells[i + 1], across)
  }

  // Cells side by side from one end of the strip to the other.
  ghost predicate InLine(cells: seq<Rect>, strip: Rect, across: bool) {
    && cells != [] && Start(cells[0], across) == Start(strip, across)
    && End(cells[|cells| - 1], across) == End(strip, across)
    && (forall i | 0 <= i < |cells| :: Spans(cells[i], strip, across))
    && (forall i {:trigger Touch(cells, i, across)} | 0 <= i < |cells| - 1 :: Touch(cells, i, across))
  }

  lemma {:induction false} RowCellsInLine(left: Rect, areas: seq<real>, across: bool, round: real -> real)
    requires areas != []
    ensures |RowCells(left, areas, across, round)| == |areas|
    ensures InLine(RowCells(left, areas, across, round), left, across)
    decreases |areas|
  {
    if |areas| > 1 {
      var cell := CellIn(left, areas[0], across, round);
      var rest := Rest(left, Along(cell, across), across);
      RowCellsInLine(rest, areas[1..], across, round);
      LineGrows(cell, RowCells(rest, areas[1..], across, round), left, rest, across);
    }
  }

  // Every cell but the last is as long as its area needs in the strip, rounded, unless the
  // strip ends before.
  lemma {:induction false} RowCellLengths(left: Rect, areas: seq<real>, across: bool, round: real -> real, k: nat)
    requires k + 1 < |areas|
    ensures |RowCells(left, areas, across, round)| == |areas|
    ensures var cell := RowCells(left, areas, across, round)[k];
            if across then
              var room := left.x + left.dx - cell.x;
              var need := if left.dy != 0.0 then round(areas[k] / left.dy) else 0.0;
              cell.dx == if room < need then room else need
            else
              var room := left.y + left.dy - cell.y;
              var need := if left.dx != 0.0 then round(areas[k] / left.dx) else 0.0;
              cell.dy == if room < need then room else need
    decreases |areas|
  {
    RowCellsInLine(left, areas, across, round);
    if k > 0 {
      var cell := CellIn(left, areas[0], across, round);
      RowCellLengths(Rest(left, Along(cell, across), across), areas[1..], across, round, k - 1);
    }
  }

  lemma LineGrows(cell: Rect, cells: seq<Rect>, strip: Rect, rest: Rect, across: bool)
    requires InLine(cells, rest, across) && Spans(cell, strip, across) && Start(cell, across) == Start(strip, across)
    requires rest == Rest(strip, Along(cell, across), across)
    ensures InLine([cell] + cells, strip, across)
  {
    var more := [cell] + cells;
    forall i {:trigger Touch(more, i, across)} | 0 <= i < |more| - 1 ensures Touch(more, i, across) {
      if i > 0 { assert Touch(cells, i - 1, across); }
    }
  }

  // What the loop has still to do: the cells so far begin the row's cells, and the last
  // one will be extended.
  ghost predicate Placing(cells: seq<Rect>, left: Rect, strip: Rect, areas: seq<real>, across: bool,
                          round: real -> real)
  {
    var all := RowCells(strip, areas, across, round);
    if |cells| < |areas| then all == cells + RowCells(left, areas[|cells|..], across, round)
    else cells != [] && all == cells[..|cells| - 1] + [Extended(cells[|cells| - 1], left, across)]
  }

  lemma PlaceNext(cells: seq<Rect>, left: Rect, strip: Rect, areas: seq<real>, across: bool, round: real -> real)
    requires Placing(cells, left, strip, areas, across, round) && |cells| < |areas|
    ensures var cell := CellIn(left, areas[|cells|], across, round);
            Placing(cells + [cell], Rest(left, Along(cell, across), across), strip, areas, across, round)
  {
    var n, cell := |cells|, CellIn(left, areas[|cells|], across, round);
    var rest := Rest(left, Along(cell, across), across);
    assert areas[n..][0] == areas[n] && areas[n..][1..] == areas[n + 1..];
    if n + 1 < |areas| {
      var others := RowCells(rest, areas[n + 1..], across, round);
      assert cells + ([cell] + others) == cells + [cell] + others;
    } else {
      assert Extended(cell, rest, across) == left;
      assert (cells + [cell])[..n] == cells;
    }
  }

  // The loops of position: the cells of a row from the start of a strip.
  method PlaceRow(row: seq<Node>, strip: Rect, across: bool, round: real -> real, ghost areas: seq<real>)
    returns (ghost cells: seq<Rect>)
    requires row != [] && Distinct(row) && HasAreas(row, areas) && Proper(strip) && NonNegative(round)
    modifies row`x, row`y, row`dx, row`dy, row`z
    ensures HasCells(row, cells) && Tiles(cells, strip) && row[|row| - 1].z == across
    ensures cells == RowCells(strip, areas, across, round)
    ensures Exact(round) && Sum(areas) == Size(strip) ==> AreaOf(cells, areas)
  {
    var left := strip;
    cells := [];
    FillFirst(strip, areas, across, round);
    assert [] + RowCells(strip, areas, across, round) == RowCells(strip, areas, across, round) && areas[0..] == areas;
    for i := 0 to |row|
      invariant HasCells(row[..i], cells) && Filling(cells, left, strip, areas, across, round)
      invariant Placing(cells, left, strip, areas, across, round)
    {
      var cell := CellIn(left, row[i].area, across, round);
      FillNext(cells, left, strip, areas, across, round);
      PlaceNext(cells, left, strip, areas, across, round);
      SetCell(row[i], cell);
      left := Rest(left, Along(cell, across), across);
      cells := cells + [cell];
    }
    assert row[..|row|] == row;
    FillLast(cells, left, strip, areas, across, round);
    cells := ExtendLast(row, left, across, cells);
  }

  method ExtendLast(row: seq<Node>, left: Rect, across: bool, ghost cells: seq<Rect>) returns (ghost full: seq<Rect>)
    requires row != [] && Distinct(row) && HasCells(row, cells)
    modifies row`x, row`y, row`dx, row`dy, row`z
    ensures full == cells[..|cells| - 1] + [Extended(cells[|cells| - 1], left, across)]
    ensures HasCells(row, full) && row[|row| - 1].z == across
  {
    var o := row[|row| - 1];
    o.z := across;
    SetCell(o, Extended(o.Cell(), left, across));
    full := cells[..|cells| - 1] + [Extended(cells[|cells| - 1], left, across)];
  }

  // How thick a row is: its area over its length, but no thicker than the rectangle,
  // and the last row takes all there is.
  function RowThickness(rowArea: real, u: real, edge: real, flush: bool, round: real -> real): real {
    var v := if u != 0.0 then round(rowArea / u) else 0.0;
    if flush || v > edge then edge else v
  }

  lemma RowFits(rowArea: real, u: real, edge: real, flush: bool, round: real -> real)
    requires rowArea >= 0.0 && u >= 0.0 && edge >= 0.0 && NonNegative(round)
    ensures 0.0 <= RowThickness(rowArea, u, edge, flush, round) <= edge
  {
    if u != 0.0 {
      assert rowArea / u >= 0.0;
    }
  }

  lemma ExactRow(rowArea: real, u: real, edge: real, flush: bool, round: real -> real)
    requires Exact(round) && u >= 0.0 && edge >= 0.0
    requires 0.0 <= rowArea <= u * edge && (flush ==> rowArea == u * edge)
    ensures var v := RowThickness(rowArea, u, edge, flush, round);
            u * v == rowArea && u * (edge - v) == u * edge - rowArea
  {
    if u != 0.0 {
      var v := rowArea / u;
      assert u * v == rowArea;
      if v > edge { assert u * v > u * edge; }
      assert u * (edge - v) == u * edge - u * v;
    }
  }

  // position: a row of cells along the side of length u, and what is left of the
  // rectangle.
  method Position(row: seq<Node>, rowArea: real, u: real, rect: Rect, flush: bool, round: real -> real,
                  ghost areas: seq<real>)
    returns (rest: Rect, ghost cells: seq<Rect>, ghost v: real)
    requires row != [] && Distinct(row) && HasAreas(row, areas) && rowArea == Sum(areas)
    requires Proper(rect) && u >= 0.0 && NonNegative(round)
    modifies row`x, row`y, row`dx, row`dy, row`z
    ensures HasCells(row, cells) && Proper(rest) && Tiles(cells + [rest], rect)
    ensures row[|row| - 1].z == (u == rect.dx)
    ensures v == RowThickness(rowArea, u, Thickness(rect, u == rect.dx), flush, round)
    ensures var need := if u != 0.0 then round(rowArea / u) else 0.0;
            var edge := if u == rect.dx then rect.dy else rect.dx;
            v == if flush || need > edge then edge else need
    ensures Tiles(cells, Piece(rect, v, u != rect.dx)) && rest == Rest(rect, v, u != rect.dx)
    ensures cells == RowCells(Piece(rect, v, u != rect.dx), areas, u == rect.dx, round)
    ensures flush ==> rest.dx == 0.0 || rest.dy == 0.0
    ensures Exact(round) && (u == rect.dx || u == rect.dy)
            && Sum(areas) <= Size(rect) && (flush ==> Sum(areas) == Size(rect)) ==>
              AreaOf(cells, areas) && Size(rest) == Size(rect) - Sum(areas)
  {
    var across := u == rect.dx;
    var thickness := RowThickness(rowArea, u, Thickness(rect, across), flush, round);
    v := thickness;
    SumGrows(areas, 0);
    RowFits(rowArea, u, Thickness(rect, across), flush, round);
    var strip := Piece(rect, thickness, !across);
    rest := Rest(rect, thickness, !across);
    if Exact(round) && (u == rect.dx || u == rect.dy)
       && Sum(areas) <= Size(rect) && (flush ==> Sum(areas) == Size(rect)) {
      ExactStrip(rowArea, u, rect, across, flush, round);
    }
    cells := PlaceRow(row, strip, across, round, areas);
    RowTiles(cells, rect, v, across);
  }

  lemma ExactStrip(rowArea: real, u: real, rect: Rect, across: bool, flush: bool, round: real -> real)
    requires Exact(round) && Proper(rect) && u == Along(rect, across)
    requires 0.0 <= rowArea <= Size(rect) && (flush ==> rowArea == Size(rect))
    ensures var v := RowThickness(rowArea, u, Thickness(rect, across), flush, round);
            Size(Piece(rect, v, !across)) == rowArea && Size(Rest(rect, v, !across)) == Size(rect) - rowArea
  {
    Commutes(rect.dx, rect.dy);
    var v := RowThickness(rowArea, u, Thickness(rect, across), flush, round);
    ExactRow(rowArea, u, Thickness(rect, across), flush, round);
    Commutes(u, v);
    Commutes(u, Thickness(rect, across) - v);
  }

  lemma RowTiles(cells: seq<Rect>, rect: Rect, v: real, across: bool)
    requires Proper(rect) && 0.0 <= v <= Thickness(rect, across) && Tiles(cells, Piece(rect, v, !across))
    ensures Tiles(cells + [Rest(rect, v, !across)], rect)
  {
    var strip, rest := Piece(rect, v, !across), Rest(rect, v, !across);
    Cut(rect, v, !across);
    assert [strip, rest] == [] + [strip] + [rest] && cells + [rest] == [] + cells + [rest];
    Refine([], strip, [rest], cells, rect);
  }

  // ---- worst ----

  type Score = Extended

  function Max(a: real, b: real): real { if a < b then b else a }

  // How far a cell of the given area is from the wanted shape, too long or too thick,
  // in a row whose area squared is s along a side whose length squared is u.
  function Elongation(area: real, u: real, s: real, ratio: real): real
    requires area > 0.0 && u > 0.0 && s > 0.0 && ratio > 0.0
  {
    Max(TooLong(area, u, s, ratio), TooThick(area, u, s, ratio))
  }

  function TooLong(area: real, u: real, s: real, ratio: real): real
    requires s > 0.0
  {
    u * area * ratio / s
  }

  function TooThick(area: real, u: real, s: real, ratio: real): real
    requires area > 0.0 && u > 0.0 && ratio > 0.0
  {
    Positive(u, area);
    Positive(u * area, ratio);
    s / (u * area * ratio)
  }

  lemma Positive(a: real, b: real)
    requires a > 0.0 && b > 0.0
    ensures a * b > 0.0
  {
  }

  lemma ElongationGrows(a: real, b: real, u: real, s: real, ratio: real)
    requires 0.0 < a <= b && u > 0.0 && s > 0.0 && ratio > 0.0
    ensures TooLong(a, u, s, ratio) <= TooLong(b, u, s, ratio)
    ensures TooThick(b, u, s, ratio) <= TooThick(a, u, s, ratio)
  {
    Positive(u, a);
    Positive(u * a, ratio);
    assert u * a <= u * b;
    assert u * a * ratio <= u * b * ratio;
    DivGrows(u * a * ratio, u * b * ratio, s);
    DivShrinks(s, u * a * ratio, u * b * ratio);
  }

  lemma DivGrows(a: real, b: real, c: real)
    requires a <= b && c > 0.0
    ensures a / c <= b / c
  {
  }

  lemma DivShrinks(a: real, b: real, c: real)
    requires a > 0.0 && 0.0 < b <= c
    ensures a / c <= a / b
  {
    assert (a / c) * b <= (a / c) * c == a == (a / b) * b;
  }

  // The worst cell of a row decides; a row without area, or along a side without
  // length, is as bad as can be.
  ghost predicate IsWorst(score: Score, areas: seq<real>, u: real, s: real, ratio: real)
    requires ratio > 0.0
  {
    if u <= 0.0 || s <= 0.0 then score == Infinity
    else
      && score.Finite?
      && (forall i | 0 <= i < |areas| && areas[i] > 0.0 :: Elongation(areas[i], u, s, ratio) <= score.value)
      && (exists i :: 0 <= i < |areas| && areas[i] > 0.0 && Elongation(areas[i], u, s, ratio) == score.value)
  }

  function Square(a: real): real { a * a }

  ghost predicate WorstOf(score: Score, areas: seq<real>, u: real, ratio: real)
    requires ratio > 0.0
  {
    IsWorst(score, areas, Square(u), Square(Sum(areas)), ratio)
  }

  method Worst(row: seq<Node>, rowArea: real, u: real, ratio: real, ghost areas: seq<real>) returns (score: Score)
    requires HasAreas(row, areas) && rowArea == Sum(areas) && u >= 0.0 && ratio > 0.0
    ensures WorstOf(score, areas, u, ratio)
  {
    var rmin, rmax := Range(row, areas);
    var s2, u2 := Square(rowArea), Square(u);
    score := Infinity;
    if s2 > 0.0 && u2 > 0.0 {
      SomeArea(areas);
      score := Finite(Max(TooLong(rmax, u2, s2, ratio), TooThick(rmin.value, u2, s2, ratio)));
      WorstOfRange(areas, rmin.value, rmax, u2, s2, ratio);
    }
  }

  // The loop of worst.
  method Range(row: seq<Node>, ghost areas: seq<real>) returns (rmin: Option<real>, rmax: real)
    requires HasAreas(row, areas)
    ensures IsRange(areas, |areas|, rmin, rmax)
  {
    rmin, rmax := None, 0.0;
    for i := 0 to |row|
      invariant IsRange(areas, i, rmin, rmax)
    {
      var r := row[i].area;
      assert r == areas[i];
      if r != 0.0 {
        if rmin.None? || r < rmin.value { rmin := Some(r); }
        if r > rmax { rmax := r; }
      }
    }
  }

  // The least and the greatest of the first n areas, not counting zeroes.
  ghost predicate IsRange(areas: seq<real>, n: nat, rmin: Option<real>, rmax: real) {
    && n <= |areas| && rmax >= 0.0
    && (forall i | 0 <= i < n && areas[i] > 0.0 :: areas[i] <= rmax && rmin.Some? && rmin.value <= areas[i])
    && (rmin.Some? ==> rmax > 0.0 && (exists i :: 0 <= i < n && areas[i] == rmin.value) && rmin.value > 0.0)
    && (rmax > 0.0 ==> rmin.Some? && exists i :: 0 <= i < n && areas[i] == rmax)
  }

  lemma {:induction false} SomeArea(areas: seq<real>)
    requires Sum(areas) != 0.0
    ensures exists i :: 0 <= i < |areas| && areas[i] != 0.0
  {
    var last := |areas| - 1;
    if areas[last] == 0.0 {
      SomeArea(areas[..last]);
      var i :| 0 <= i < last && areas[..last][i] != 0.0;
      assert areas[i] != 0.0;
    }
  }

  lemma WorstOfRange(areas: seq<real>, rmin: real, rmax: real, u: real, s: real, ratio: real)
    requires IsRange(areas, |areas|, Some(rmin), rmax) && u > 0.0 && s > 0.0 && ratio > 0.0
    ensures IsWorst(Finite(Max(TooLong(rmax, u, s, ratio), TooThick(rmin, u, s, ratio))), areas, u, s, ratio)
  {
    forall i | 0 <= i < |areas| && areas[i] > 0.0
      ensures TooLong(areas[i], u, s, ratio) <= TooLong(rmax, u, s, ratio)
      ensures TooThick(areas[i], u, s, ratio) <= TooThick(rmin, u, s, ratio)
    {
      ElongationGrows(areas[i], rmax, u, s, ratio);
      ElongationGrows(rmin, areas[i], u, s, ratio);
    }
    var i :| 0 <= i < |areas|
      && areas[i] == (if TooLong(rmax, u, s, ratio) >= TooThick(rmin, u, s, ratio) then rmax else rmin);
    assert areas[i] > 0.0;
  }
}
