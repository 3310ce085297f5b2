// Cutting an image into tiles and putting it together again from tile images.
module Tiles {
  import opened Wrappers

  datatype Tile = Tile(x: int, y: int, width: int, height: int)

  // A place in the grid of tiles.
  datatype Cell = Cell(a: int, b: int)

  predicate Inside(t: Tile, x: int, y: int) {
    t.x <= x < t.x + t.width && t.y <= y < t.y + t.height
  }

  // Non-empty, no larger than the tile size and within the image.
  predicate Proper(t: Tile, imageWidth: nat, imageHeight: nat, tileWidth: nat, tileHeight: nat) {
    && 0 <= t.x && 0 < t.width <= tileWidth && t.x + t.width <= imageWidth
    && 0 <= t.y && 0 < t.height <= tileHeight && t.y + t.height <= imageHeight
  }

  // Every pixel lies in exactly one tile.
  ghost predicate ExactCover(tiles: seq<Tile>, imageWidth: nat, imageHeight: nat) {
    forall x, y :: 0 <= x < imageWidth && 0 <= y < imageHeight ==> InOneTile(tiles, x, y)
  }

  ghost predicate InOneTile(tiles: seq<Tile>, x: int, y: int) {
    exists i :: 0 <= i < |tiles| && Inside(tiles[i], x, y) && OnlyTile(tiles, i, x, y)
  }

  ghost predicate OnlyTile(tiles: seq<Tile>, i: int, x: int, y: int) {
    forall j :: 0 <= j < |tiles| && j != i ==> !Inside(tiles[j], x, y)
  }

  // Number of tiles along one side.
  function Steps(extent: nat, size: nat): nat
    requires size > 0
  {
    if extent % size == 0 then extent / size else extent / size + 1
  }

  // Length of the k-th tile along one side; the last one takes what is left.
  function Span(extent: nat, size: nat, k: int): int
    requires size > 0
  {
    if k < Steps(extent, size) - 1 then size else extent - size * k
  }

  function TileAt(c: Cell, imageWidth: nat, imageHeight: nat, tileWidth: nat, tileHeight: nat): Tile
    requires tileWidth > 0 && tileHeight > 0
  {
    Tile(tileWidth * c.a, tileHeight * c.b, Span(imageWidth, tileWidth, c.a), Span(imageHeight, tileHeight, c.b))
  }

  lemma Multiples(size: nat, a: int, b: int)
    requires a <= b
    ensures size * a <= size * b
    ensures size * (a + 1) == size * a + size
  {
  }

  lemma Quotient(p: nat, size: nat)
    requires size > 0
    ensures size * (p / size) <= p < size * (p / size) + size
  {
  }

  // Along one side the spans are non-empty, stay within the extent and hold exactly
  // the positions with their quotient.
  lemma SpanHolds(extent: nat, size: nat, k: nat, p: nat)
    requires size > 0 && k < Steps(extent, size) && p < extent
    ensures 0 < Span(extent, size, k) <= size && size * k + Span(extent, size, k) <= extent
    ensures size * k <= p < size * k + Span(extent, size, k) <==> k == p / size
    ensures p / size < Steps(extent, size)
  {
    hide Steps;
    LastSpan(extent, size, k);
    QuotientIs(p, size, k);
    StepOf(extent, size, p);
  }

  lemma QuotientIs(p: nat, size: nat, k: nat)
    requires size > 0
    ensures size * k <= p < size * k + size <==> k == p / size
  {
    var q := p / size;
    Quotient(p, size);
    if q < k { Multiples(size, q + 1, k); Multiples(size, q, q); }
    if k < q { Multiples(size, k + 1, q); Multiples(size, k, k); }
  }

  lemma StepOf(extent: nat, size: nat, p: nat)
    requires size > 0 && p < extent
    ensures p / size < Steps(extent, size)
  {
    var q, e := p / size, extent / size;
    Quotient(p, size);
    Quotient(extent, size);
    assert extent == size * e + extent % size;
    if e < q { Multiples(size, e + 1, q); Multiples(size, e, e); }
  }

  lemma LastSpan(extent: nat, size: nat, k: nat)
    requires size > 0 && k < Steps(extent, size)
    ensures size * k < extent && (k == Steps(extent, size) - 1 ==> extent <= size * k + size)
    ensures k < Steps(extent, size) - 1 ==> size * k + size <= extent
  {
    var e := extent / size;
    assert extent == size * e + extent % size;
    if k < e { Multiples(size, k + 1, e); Multiples(size, k, k); }
  }

  // The grid: all cells, each once. `lastA` and `lastB` are the last column and row.
  ghost predicate IsGrid(cells: seq<Cell>, lastA: int, lastB: int) {
    && NoDup(cells)
    && forall c :: c in cells <==> (0 <= c.a < lastA || c.a == lastA) && (0 <= c.b < lastB || c.b == lastB)
  }

  ghost predicate AreTiles(tiles: seq<Tile>, cells: seq<Cell>, imageWidth: nat, imageHeight: nat, tileWidth: nat,
                           tileHeight: nat)
    requires tileWidth > 0 && tileHeight > 0
  {
    && |tiles| == |cells|
    && forall i :: 0 <= i < |tiles| ==> tiles[i] == TileAt(cells[i], imageWidth, imageHeight, tileWidth, tileHeight)
  }

  // The tiles are those of the grid that is laid over the image.
  ghost predicate Grid(tiles: seq<Tile>, imageWidth: nat, imageHeight: nat, tileWidth: nat, tileHeight: nat)
    requires tileWidth > 0 && tileHeight > 0
  {
    exists cells ::
      IsGrid(cells, Steps(imageWidth, tileWidth) - 1, Steps(imageHeight, tileHeight) - 1) &&
      AreTiles(tiles, cells, imageWidth, imageHeight, tileWidth, tileHeight)
  }

  // quantize_image
  method QuantizeImage(imageWidth: nat, imageHeight: nat, tileWidth: nat, tileHeight: nat) returns (tiles: seq<Tile>)
    requires tileWidth > 0 && tileHeight > 0
    ensures Grid(tiles, imageWidth, imageHeight, tileWidth, tileHeight)
    ensures (forall i :: 0 <= i < |tiles| ==> Proper(tiles[i], imageWidth, imageHeight, tileWidth, tileHeight))
            <==> imageWidth > 0 && imageHeight > 0
    ensures imageWidth > 0 && imageHeight > 0 ==> ExactCover(tiles, imageWidth, imageHeight)
  {
    hide Span, Steps, NoDup, Proper, ExactCover, TileAt;
    var lastX: int := Steps(imageWidth, tileWidth) - 1;
    var lastY: int := Steps(imageHeight, tileHeight) - 1;
    tiles := [];
    ghost var cells: seq<Cell> := [];
    assert NoDup(cells) by { EmptyNoDup(); }
    var x := 0;
    while x < lastX
      invariant 0 <= x && (x <= lastX || x == 0)
      invariant NoDup(cells) && AreTiles(tiles, cells, imageWidth, imageHeight, tileWidth, tileHeight)
      invariant forall c :: c in cells <==> 0 <= c.a < x && 0 <= c.b < lastY
    {
      var y := 0;
      while y < lastY
        invariant 0 <= y && (y <= lastY || y == 0)
        invariant NoDup(cells) && AreTiles(tiles, cells, imageWidth, imageHeight, tileWidth, tileHeight)
        invariant forall c :: c in cells <==> (0 <= c.a < x && 0 <= c.b < lastY) || (c.a == x && 0 <= c.b < y)
      {
        RegularTile(x, y, imageWidth, imageHeight, tileWidth, tileHeight);
        tiles := tiles + [Tile(tileWidth * x, tileHeight * y, tileWidth, tileHeight)];
        NoDupAdd(cells, Cell(x, y));
        cells := cells + [Cell(x, y)];
        y := y + 1;
      }
      x := x + 1;
    }
    x := 0;
    while x < lastX
      invariant 0 <= x && (x <= lastX || x == 0)
      invariant NoDup(cells) && AreTiles(tiles, cells, imageWidth, imageHeight, tileWidth, tileHeight)
      invariant forall c :: c in cells <==> (0 <= c.a < lastX && 0 <= c.b < lastY) || (0 <= c.a < x && c.b == lastY)
    {
      var y := lastY;
      RegularTile(x, y, imageWidth, imageHeight, tileWidth, tileHeight);
      tiles := tiles + [Tile(tileWidth * x, tileHeight * y, tileWidth, imageHeight - tileHeight * y)];
      NoDupAdd(cells, Cell(x, y));
      cells := cells + [Cell(x, y)];
      x := x + 1;
    }
    var y := 0;
    while y < lastY
      invariant 0 <= y && (y <= lastY || y == 0)
      invariant NoDup(cells) && AreTiles(tiles, cells, imageWidth, imageHeight, tileWidth, tileHeight)
      invariant forall c :: c in cells <==>
                  (0 <= c.a < lastX && (0 <= c.b < lastY || c.b == lastY)) || (c.a == lastX && 0 <= c.b < y)
    {
      x := lastX;
      RegularTile(x, y, imageWidth, imageHeight, tileWidth, tileHeight);
      tiles := tiles + [Tile(tileWidth * x, tileHeight * y, imageWidth - tileWidth * x, tileHeight)];
      NoDupAdd(cells, Cell(x, y));
      cells := cells + [Cell(x, y)];
      y := y + 1;
    }
    x, y := lastX, lastY;
    RegularTile(x, y, imageWidth, imageHeight, tileWidth, tileHeight);
    tiles := tiles + [Tile(tileWidth * x, tileHeight * y, imageWidth - tileWidth * x, imageHeight - tileHeight * y)];
    NoDupAdd(cells, Cell(x, y));
    cells := cells + [Cell(x, y)];
    assert IsGrid(cells, lastX, lastY);
    GridCovers(tiles, cells, imageWidth, imageHeight, tileWidth, tileHeight);
  }

  lemma EmptyNoDup()
    ensures NoDup<Cell>([])
  {
  }

  lemma RegularTile(x: int, y: int, imageWidth: nat, imageHeight: nat, tileWidth: nat, tileHeight: nat)
    requires tileWidth > 0 && tileHeight > 0
    ensures TileAt(Cell(x, y), imageWidth, imageHeight, tileWidth, tileHeight) ==
            Tile(tileWidth * x, tileHeight * y,
                 if x < Steps(imageWidth, tileWidth) - 1 then tileWidth else imageWidth - tileWidth * x,
                 if y < Steps(imageHeight, tileHeight) - 1 then tileHeight else imageHeight - tileHeight * y)
  {
  }

  // The tiles of the whole grid cover the image exactly. An image without pixels still
  // gets a tile, and that one lies outside of it.
  lemma GridCovers(tiles: seq<Tile>, cells: seq<Cell>, imageWidth: nat, imageHeight: nat, tileWidth: nat,
                   tileHeight: nat)
    requires tileWidth > 0 && tileHeight > 0
    requires IsGrid(cells, Steps(imageWidth, tileWidth) - 1, Steps(imageHeight, tileHeight) - 1)
    requires AreTiles(tiles, cells, imageWidth, imageHeight, tileWidth, tileHeight)
    ensures (forall i :: 0 <= i < |tiles| ==> Proper(tiles[i], imageWidth, imageHeight, tileWidth, tileHeight))
            <==> imageWidth > 0 && imageHeight > 0
    ensures imageWidth > 0 && imageHeight > 0 ==> ExactCover(tiles, imageWidth, imageHeight)
  {
    hide Span, Steps;
    StepsPositive(imageWidth, tileWidth);
    StepsPositive(imageHeight, tileHeight);
    if imageWidth > 0 && imageHeight > 0 {
      forall i | 0 <= i < |tiles| ensures Proper(tiles[i], imageWidth, imageHeight, tileWidth, tileHeight) {
        var c := cells[i];
        assert c in cells;
        SpanHolds(imageWidth, tileWidth, c.a, 0);
        SpanHolds(imageHeight, tileHeight, c.b, 0);
        NotNegative(tileWidth, c.a);
        NotNegative(tileHeight, c.b);
      }
      forall x, y | 0 <= x < imageWidth && 0 <= y < imageHeight
        ensures InOneTile(tiles, x, y)
      {
        PixelCovered(tiles, cells, imageWidth, imageHeight, tileWidth, tileHeight, x, y);
      }
    } else {
      var c := Cell(Steps(imageWidth, tileWidth) - 1, Steps(imageHeight, tileHeight) - 1);
      var i :| 0 <= i < |cells| && cells[i] == c;
      assert !Proper(tiles[i], imageWidth, imageHeight, tileWidth, tileHeight);
    }
  }

  lemma NotNegative(size: nat, k: nat)
    ensures size * k >= 0
  {
  }

  lemma StepsPositive(extent: nat, size: nat)
    requires size > 0
    ensures Steps(extent, size) > 0 <==> extent > 0
    ensures extent == 0 ==> size as int * (Steps(extent, size) as int - 1) < 0
  {
    if extent > 0 && extent / size == 0 { assert extent % size == extent; }
  }

  lemma InsideCell(c: Cell, imageWidth: nat, imageHeight: nat, tileWidth: nat, tileHeight: nat, x: nat, y: nat)
    requires tileWidth > 0 && tileHeight > 0 && x < imageWidth && y < imageHeight
    requires 0 <= c.a < Steps(imageWidth, tileWidth) && 0 <= c.b < Steps(imageHeight, tileHeight)
    ensures Inside(TileAt(c, imageWidth, imageHeight, tileWidth, tileHeight), x, y) <==>
            c == Cell(x / tileWidth, y / tileHeight)
  {
    hide Span, Steps;
    SpanHolds(imageWidth, tileWidth, c.a, x);
    SpanHolds(imageHeight, tileHeight, c.b, y);
  }

  lemma PixelCovered(tiles: seq<Tile>, cells: seq<Cell>, imageWidth: nat, imageHeight: nat, tileWidth: nat,
                     tileHeight: nat, x: nat, y: nat)
    requires tileWidth > 0 && tileHeight > 0 && x < imageWidth && y < imageHeight
    requires IsGrid(cells, Steps(imageWidth, tileWidth) - 1, Steps(imageHeight, tileHeight) - 1)
    requires AreTiles(tiles, cells, imageWidth, imageHeight, tileWidth, tileHeight)
    ensures InOneTile(tiles, x, y)
  {
    hide Span, Steps, TileAt, Inside;
    StepsPositive(imageWidth, tileWidth);
    StepsPositive(imageHeight, tileHeight);
    StepOf(imageWidth, tileWidth, x);
    StepOf(imageHeight, tileHeight, y);
    var c := Cell(x / tileWidth, y / tileHeight);
    forall j | 0 <= j < |tiles|
      ensures Inside(tiles[j], x, y) <==> cells[j] == c
    {
      assert cells[j] in cells;
      InsideCell(cells[j], imageWidth, imageHeight, tileWidth, tileHeight, x, y);
    }
    assert c in cells;
    var i :| 0 <= i < |cells| && cells[i] == c;
    assert Inside(tiles[i], x, y) && OnlyTile(tiles, i, x, y);
  }
}
