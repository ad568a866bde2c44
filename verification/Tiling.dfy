// Rectangles that tile a rectangle: each inside it, no point in two of them, and no
// point of it in none.
module Tiling {
  import opened Basics

  datatype Rect = Rect(x: real, y: real, dx: real, dy: real)

  // Half open, so that rectangles side by side share no point.
  predicate Has(r: Rect, px: real, py: real) {
    r.x <= px < r.x + r.dx && r.y <= py < r.y + r.dy
  }

  predicate Proper(r: Rect) {
    r.dx >= 0.0 && r.dy >= 0.0
  }

  predicate Within(a: Rect, r: Rect) {
    Proper(a) && r.x <= a.x && r.y <= a.y && a.x + a.dx <= r.x + r.dx && a.y + a.dy <= r.y + r.dy
  }

  ghost predicate SomeHas(tiles: seq<Rect>, px: real, py: real) {
    exists i :: 0 <= i < |tiles| && Has(tiles[i], px, py)
  }

  ghost predicate Tiles(tiles: seq<Rect>, r: Rect) {
    && (forall i | 0 <= i < |tiles| :: Within(tiles[i], r))
    && (forall px, py {:trigger Has(r, px, py)} | Has(r, px, py) :: SomeHas(tiles, px, py))
    && (forall i, j, px, py {:trigger Has(tiles[i], px, py), Has(tiles[j], px, py)} |
          0 <= i < |tiles| && 0 <= j < |tiles| && Has(tiles[i], px, py) && Has(tiles[j], px, py) :: i == j)
  }

  lemma WholeTiles(r: Rect)
    requires Proper(r)
    ensures Tiles([r], r)
  {
    forall px, py {:trigger Has(r, px, py)} | Has(r, px, py) ensures SomeHas([r], px, py) {
      assert Has([r][0], px, py);
    }
  }

  lemma CutAcross(r: Rect, w: real)
    requires Proper(r) && 0.0 <= w <= r.dx
    ensures Tiles([Rect(r.x, r.y, w, r.dy), Rect(r.x + w, r.y, r.dx - w, r.dy)], r)
  {
    var tiles := [Rect(r.x, r.y, w, r.dy), Rect(r.x + w, r.y, r.dx - w, r.dy)];
    forall px, py {:trigger Has(r, px, py)} | Has(r, px, py) ensures SomeHas(tiles, px, py) {
      assert Has(tiles[if px < r.x + w then 0 else 1], px, py);
    }
  }

  lemma CutDown(r: Rect, h: real)
    requires Proper(r) && 0.0 <= h <= r.dy
    ensures Tiles([Rect(r.x, r.y, r.dx, h), Rect(r.x, r.y + h, r.dx, r.dy - h)], r)
  {
    var tiles := [Rect(r.x, r.y, r.dx, h), Rect(r.x, r.y + h, r.dx, r.dy - h)];
    forall px, py {:trigger Has(r, px, py)} | Has(r, px, py) ensures SomeHas(tiles, px, py) {
      assert Has(tiles[if py < r.y + h then 0 else 1], px, py);
    }
  }

  // A tile may be tiled again.
  lemma Refine(before: seq<Rect>, tile: Rect, after: seq<Rect>, parts: seq<Rect>, r: Rect)
    requires Tiles(before + [tile] + after, r) && Tiles(parts, tile)
    ensures Tiles(before + parts + after, r)
  {
    var coarse, fine := before + [tile] + after, before + parts + after;
    assert coarse[|before|] == tile;
    forall i | 0 <= i < |fine| ensures Within(fine[i], r) {
      var k := FromTile(before, tile, after, parts, i);
      assert Within(coarse[k], r) && Within(tile, r);
    }
    forall px, py {:trigger Has(r, px, py)} | Has(r, px, py) ensures SomeHas(fine, px, py) {
      var k :| 0 <= k < |coarse| && Has(coarse[k], px, py);
      if k < |before| {
        assert fine[k] == coarse[k];
      } else if k > |before| {
        assert fine[k - 1 + |parts|] == coarse[k];
      } else {
        assert SomeHas(parts, px, py);
        var j :| 0 <= j < |parts| && Has(parts[j], px, py);
        assert fine[|before| + j] == parts[j];
      }
    }
    forall i, j, px, py {:trigger Has(fine[i], px, py), Has(fine[j], px, py)} |
      0 <= i < |fine| && 0 <= j < |fine| && Has(fine[i], px, py) && Has(fine[j], px, py)
      ensures i == j
    {
      var k := FromTile(before, tile, after, parts, i);
      var l := FromTile(before, tile, after, parts, j);
      assert Has(coarse[k], px, py) && Has(coarse[l], px, py);
      if k == |before| {
        assert Has(parts[i - |before|], px, py) && Has(parts[j - |before|], px, py);
      }
    }
  }

  // The tile that a tile of the finer tiling lies in.
  lemma FromTile(before: seq<Rect>, tile: Rect, after: seq<Rect>, parts: seq<Rect>, i: nat) returns (k: nat)
    requires Tiles(parts, tile) && i < |before + parts + after|
    ensures k == if i < |before| then i else if i < |before| + |parts| then |before| else i - |parts| + 1
    ensures var tiles, part := before + [tile] + after, (before + parts + after)[i];
            && k < |tiles|
            && if k == |before| then part == parts[i - |before|] && Within(part, tile) else part == tiles[k]
  {
    k := if i < |before| then i else if i < |before| + |parts| then |before| else i - |parts| + 1;
  }

  lemma RefineLast(tiles: seq<Rect>, last: Rect, parts: seq<Rect>, r: Rect)
    requires Tiles(tiles + [last], r) && Tiles(parts, last)
    ensures Tiles(tiles + parts, r)
  {
    assert tiles + [last] + [] == tiles + [last] && tiles + parts + [] == tiles + parts;
    Refine(tiles, last, [], parts, r);
  }

  // A tile without points is not needed.
  lemma DropEmpty(tiles: seq<Rect>, empty: Rect, r: Rect)
    requires Tiles(tiles + [empty], r) && (empty.dx == 0.0 || empty.dy == 0.0)
    ensures Tiles(tiles, r)
  {
    RefineLast(tiles, empty, [], r);
    assert tiles + [] == tiles;
  }

  // The last tile takes in the one beside it that is left over.
  lemma AbsorbAcross(tiles: seq<Rect>, last: Rect, left: Rect, r: Rect)
    requires Tiles(tiles + [last, left], r)
    requires left.y == last.y && left.dy == last.dy && left.x == last.x + last.dx
    ensures Tiles(tiles + [last.(dx := last.dx + left.dx)], r)
  {
    assert (tiles + [last, left])[|tiles|] == last && (tiles + [last, left])[|tiles| + 1] == left;
    Absorb(tiles, last, left, last.(dx := last.dx + left.dx), r);
  }

  lemma AbsorbDown(tiles: seq<Rect>, last: Rect, left: Rect, r: Rect)
    requires Tiles(tiles + [last, left], r)
    requires left.x == last.x && left.dx == last.dx && left.y == last.y + last.dy
    ensures Tiles(tiles + [last.(dy := last.dy + left.dy)], r)
  {
    assert (tiles + [last, left])[|tiles|] == last && (tiles + [last, left])[|tiles| + 1] == left;
    Absorb(tiles, last, left, last.(dy := last.dy + left.dy), r);
  }

  lemma Absorb(tiles: seq<Rect>, last: Rect, left: Rect, both: Rect, r: Rect)
    requires Tiles(tiles + [last, left], r) && (Within(last, r) && Within(left, r) ==> Within(both, r))
    requires forall px, py :: Has(both, px, py) <==> Has(left, px, py) || Has(last, px, py)
    ensures Tiles(tiles + [both], r)
  {
    var all, after, n := tiles + [last, left], tiles + [both], |tiles|;
    assert all[n] == last && all[n + 1] == left;
    forall i | 0 <= i < |after| ensures Within(after[i], r) {
      if i < n { assert Within(all[i], r); }
    }
    forall px, py {:trigger Has(r, px, py)} | Has(r, px, py) ensures SomeHas(after, px, py) {
      var i :| 0 <= i < |all| && Has(all[i], px, py);
      assert Has(after[if i < n then i else n], px, py);
    }
    forall i, j, px, py {:trigger Has(after[i], px, py), Has(after[j], px, py)} |
      0 <= i < |after| && 0 <= j < |after| && Has(after[i], px, py) && Has(after[j], px, py)
      ensures i == j
    {
      var k := if i < n || Has(last, px, py) then i else n + 1;
      var l := if j < n || Has(last, px, py) then j else n + 1;
      assert Has(all[k], px, py) && Has(all[l], px, py);
    }
  }

  lemma ReversedTiles(tiles: seq<Rect>, r: Rect)
    requires Tiles(tiles, r)
    ensures Tiles(Reversed(tiles), r)
  {
    var back, last := Reversed(tiles), |tiles| - 1;
    forall px, py {:trigger Has(r, px, py)} | Has(r, px, py) ensures SomeHas(back, px, py) {
      var i :| 0 <= i < |tiles| && Has(tiles[i], px, py);
      assert Has(back[last - i], px, py);
    }
    forall i, j, px, py {:trigger Has(back[i], px, py), Has(back[j], px, py)} |
      0 <= i < |back| && 0 <= j < |back| && Has(back[i], px, py) && Has(back[j], px, py)
      ensures i == j
    {
      assert Has(tiles[last - i], px, py) && Has(tiles[last - j], px, py);
    }
  }
}
