/** Painting a module grid into a w x h two-colour image
    (WiFiQRCodeImageProvider.createImage). The image is an array2 indexed
    [row, column], that is img[py, px], with Length0 == h and Length1 == w. */
module Raster {
  import opened Layout

  datatype Color = Black | White

  /** The brush colour of a module: black when dark, white when light. */
  function ColorOf(dark: bool): (c: Color)
    ensures (c == Black) == dark
  {
    if dark then Black else White
  }

  /** A module grid as the encoder returns it. */
  type ModuleGrid = g: seq<seq<bool>> | IsModuleGrid(g) witness [[false]]

  /** The colour createImage leaves at pixel (px, py): the colour of the
      module whose block holds the pixel, black where no block does. */
  function PixelColor(g: seq<seq<bool>>, w: nat, h: nat, px: int, py: int): (c: Color)
    requires IsModuleGrid(g)
  {
    var L := LayoutOf(|g|, w, h);
    if L.side > 0 && InSquare(L, px, py) then
      CellRange(L, px, py);
      ColorOf(g[CellY(L, py)][CellX(L, px)])
    else
      Black
  }

  // ---------------------------------------------------------------------
  // Properties of the painted image

  /** A pixel in the block of module (x, y) is black iff that module is dark. */
  lemma PixelInBlock(g: seq<seq<bool>>, w: nat, h: nat, x: int, y: int, px: int, py: int)
    requires IsModuleGrid(g) && 0 <= x < |g| && 0 <= y < |g|
    requires InBlock(LayoutOf(|g|, w, h), x, y, px, py)
    ensures (PixelColor(g, w, h, px, py) == Black) == g[y][x]
  {
    var L := LayoutOf(|g|, w, h);
    if L.side == 0 {
      assert false;
    }
    BlockCell(L, x, y, px, py);
  }

  /** A pixel outside every block keeps the black fill. */
  lemma PixelOutsideBlocks(g: seq<seq<bool>>, w: nat, h: nat, px: int, py: int)
    requires IsModuleGrid(g)
    requires forall x, y :: 0 <= x < |g| && 0 <= y < |g| ==> !InBlock(LayoutOf(|g|, w, h), x, y, px, py)
    ensures PixelColor(g, w, h, px, py) == Black
  {
    BlocksTile(LayoutOf(|g|, w, h), px, py);
  }

  /** A canvas narrower or lower than the grid comes out all black. */
  lemma SmallCanvasBlack(g: seq<seq<bool>>, w: nat, h: nat, px: int, py: int)
    requires IsModuleGrid(g) && Min(w, h) < |g|
    ensures PixelColor(g, w, h, px, py) == Black
  {
    SquareSizeZero(|g|, w, h);
  }

  /** On an N x N canvas pixel (px, py) shows module (px, py) itself. */
  lemma UnitCanvas(g: seq<seq<bool>>, px: int, py: int)
    requires IsModuleGrid(g) && 0 <= px < |g| && 0 <= py < |g|
    ensures (PixelColor(g, |g|, |g|, px, py) == Black) == g[py][px]
  {
    UnitLayout(|g|);
  }

  // ---------------------------------------------------------------------
  // Painting

  /** painter.drawRect with pen and brush of colour c, idealised as a fill of
      exactly the rw x rh pixels at (x0, y0); the rest of the image stays. */
  method DrawRect(img: array2<Color>, x0: nat, y0: nat, rw: nat, rh: nat, c: Color)
    requires x0 + rw <= img.Length1 && y0 + rh <= img.Length0
    modifies img
    ensures forall py, px :: 0 <= py < img.Length0 && 0 <= px < img.Length1 ==>
      img[py, px] == if InRect(x0, y0, rw, rh, px, py) then c else old(img[py, px])
  {
    var i := 0;
    while i < rh
      invariant 0 <= i <= rh
      invariant forall py, px :: 0 <= py < img.Length0 && 0 <= px < img.Length1 ==>
        img[py, px] == if InRect(x0, y0, rw, i, px, py) then c else old(img[py, px])
    {
      var j := 0;
      while j < rw
        invariant 0 <= j <= rw
        invariant forall py, px :: 0 <= py < img.Length0 && 0 <= px < img.Length1 ==>
          img[py, px] == if InRect(x0, y0, rw, i, px, py) || InRect(x0, y0 + i, j, 1, px, py)
                         then c else old(img[py, px])
      {
        img[y0 + i, x0 + j] := c;
        j := j + 1;
      }
      i := i + 1;
    }
  }

  /** img.fill(colour): every pixel gets colour c. */
  method Fill(img: array2<Color>, c: Color)
    modifies img
    ensures forall py, px :: 0 <= py < img.Length0 && 0 <= px < img.Length1 ==> img[py, px] == c
  {
    DrawRect(img, 0, 0, img.Length1, img.Length0, c);
  }

  /** Cell (cx, cy) comes before position (x, y) in row-major order. */
  predicate Painted(cx: int, cy: int, x: int, y: int) {
    cy < y || (cy == y && cx < x)
  }

  /** The image after the cells before (x, y) in row-major order are painted. */
  ghost function PartialColor(g: seq<seq<bool>>, L: Geometry, x: int, y: int, px: int, py: int): (c: Color)
    requires IsModuleGrid(g) && L.n == |g|
  {
    if L.side > 0 && InSquare(L, px, py) && Painted(CellX(L, px), CellY(L, py), x, y) then
      CellRange(L, px, py);
      ColorOf(g[CellY(L, py)][CellX(L, px)])
    else
      Black
  }

  /** Before any cell is painted the image is the black fill. */
  lemma PaintStart(img: array2<Color>, g: seq<seq<bool>>, L: Geometry, w: nat, h: nat)
    requires IsModuleGrid(g) && L.n == |g|
    requires img.Length0 == h && img.Length1 == w
    requires forall py, px :: 0 <= py < h && 0 <= px < w ==> img[py, px] == Black
    ensures forall py, px :: 0 <= py < h && 0 <= px < w ==> img[py, px] == PartialColor(g, L, 0, 0, px, py)
  {
    forall py, px | 0 <= py < h && 0 <= px < w
      ensures PartialColor(g, L, 0, 0, px, py) == Black
    {
      if L.side > 0 && InSquare(L, px, py) {
        CellRange(L, px, py);
      }
    }
  }

  /** Painting cell (x, y) changes exactly the pixels of its block. */
  lemma PaintStep(g: seq<seq<bool>>, L: Geometry, x: int, y: int, px: int, py: int)
    requires IsModuleGrid(g) && L.n == |g| && 0 <= x < L.n && 0 <= y < L.n
    ensures PartialColor(g, L, x + 1, y, px, py) ==
      if InBlock(L, x, y, px, py) then ColorOf(g[y][x]) else PartialColor(g, L, x, y, px, py)
  {
    if L.side > 0 {
      BlockCell(L, x, y, px, py);
    }
  }

  /** Finishing a row is the same as starting the next one. */
  lemma PaintRowDone(g: seq<seq<bool>>, L: Geometry, y: int, px: int, py: int)
    requires IsModuleGrid(g) && L.n == |g|
    ensures PartialColor(g, L, L.n, y, px, py) == PartialColor(g, L, 0, y + 1, px, py)
  {
    if L.side > 0 && InSquare(L, px, py) {
      CellRange(L, px, py);
    }
  }

  /** Once every row is painted the image is PixelColor. */
  lemma PaintDonePixel(g: seq<seq<bool>>, L: Geometry, w: nat, h: nat, px: int, py: int)
    requires IsModuleGrid(g) && L == LayoutOf(|g|, w, h)
    ensures PartialColor(g, L, 0, L.n, px, py) == PixelColor(g, w, h, px, py)
  {
    if L.side > 0 && InSquare(L, px, py) {
      CellRange(L, px, py);
    }
  }

  lemma PaintDone(img: array2<Color>, g: seq<seq<bool>>, L: Geometry, w: nat, h: nat)
    requires IsModuleGrid(g) && L == LayoutOf(|g|, w, h)
    requires img.Length0 == h && img.Length1 == w
    requires forall py, px :: 0 <= py < h && 0 <= px < w ==> img[py, px] == PartialColor(g, L, 0, L.n, px, py)
    ensures forall py, px :: 0 <= py < h && 0 <= px < w ==> img[py, px] == PixelColor(g, w, h, px, py)
  {
    forall py, px | 0 <= py < h && 0 <= px < w
      ensures img[py, px] == PixelColor(g, w, h, px, py)
    {
      PaintDonePixel(g, L, w, h, px, py);
    }
  }

  /** The body of the nested loop: paint the block of module (x, y) at
      (offsetX + x*S, offsetY + y*S) in the module's colour. */
  method PaintBlock(img: array2<Color>, g: seq<seq<bool>>, L: Geometry, w: nat, h: nat, x: nat, y: nat)
    requires IsModuleGrid(g) && L == LayoutOf(|g|, w, h) && x < |g| && y < |g|
    requires img.Length0 == h && img.Length1 == w
    modifies img
    ensures forall py, px :: 0 <= py < h && 0 <= px < w ==>
      img[py, px] == if InBlock(L, x, y, px, py) then ColorOf(g[y][x]) else old(img[py, px])
  {
    BlockInCanvas(|g|, w, h, x, y);
    var squareX := L.offX + x * L.side;
    var squareY := L.offY + y * L.side;
    var c := ColorOf(g[y][x]);
    DrawRect(img, squareX, squareY, L.side, L.side, c);
  }

  /** Lines 37-42 of createImage: square_size is the largest block side of
      which N blocks fit into the shorter side, and the offsets centre the
      N*S x N*S square on the canvas, any odd pixel going right (bottom). */
  method ComputeLayout(g: seq<seq<bool>>, w: nat, h: nat) returns (L: Geometry)
    requires IsModuleGrid(g)
    ensures L.n == |g|
    ensures |g| * L.side <= Min(w, h) < |g| * (L.side + 1)
    ensures L.offX + |g| * L.side <= w && L.offY + |g| * L.side <= h
    ensures w - |g| * L.side - L.offX == L.offX || w - |g| * L.side - L.offX == L.offX + 1
    ensures h - |g| * L.side - L.offY == L.offY || h - |g| * L.side - L.offY == L.offY + 1
    ensures L == LayoutOf(|g|, w, h)
  {
    var n := |g|;
    var squareSize := Min(w, h) / n;
    var offsetX := (w - n * squareSize) / 2;
    var offsetY := (h - n * squareSize) / 2;
    SquareSizeBounds(n, w, h);
    L := Geometry(n, squareSize, offsetX, offsetY);
    LayoutFits(n, w, h);
  }

  /** The inner loop of createImage: paint the blocks of row y, left to right. */
  method PaintRow(img: array2<Color>, g: seq<seq<bool>>, L: Geometry, w: nat, h: nat, y: nat)
    requires IsModuleGrid(g) && L == LayoutOf(|g|, w, h) && y < |g|
    requires img.Length0 == h && img.Length1 == w
    requires forall py, px :: 0 <= py < h && 0 <= px < w ==> img[py, px] == PartialColor(g, L, 0, y, px, py)
    modifies img
    ensures forall py, px :: 0 <= py < h && 0 <= px < w ==> img[py, px] == PartialColor(g, L, 0, y + 1, px, py)
  {
    var x := 0;
    while x < L.n
      invariant 0 <= x <= L.n
      invariant forall py, px :: 0 <= py < h && 0 <= px < w ==> img[py, px] == PartialColor(g, L, x, y, px, py)
    {
      PaintBlock(img, g, L, w, h, x, y);
      forall py, px | 0 <= py < h && 0 <= px < w
        ensures img[py, px] == PartialColor(g, L, x + 1, y, px, py)
      {
        PaintStep(g, L, x, y, px, py);
      }
      x := x + 1;
    }
    forall py, px | 0 <= py < h && 0 <= px < w
      ensures img[py, px] == PartialColor(g, L, 0, y + 1, px, py)
    {
      PaintRowDone(g, L, y, px, py);
    }
  }

  /** createImage: fill the w x h image black, then paint the S x S block of
      every module at (offsetX + x*S, offsetY + y*S) in its colour. */
  method CreateImage(g: seq<seq<bool>>, w: nat, h: nat) returns (img: array2<Color>)
    requires IsModuleGrid(g)
    ensures fresh(img) && img.Length0 == h && img.Length1 == w
    ensures forall py, px :: 0 <= py < h && 0 <= px < w ==> img[py, px] == PixelColor(g, w, h, px, py)
  {
    var L := ComputeLayout(g, w, h);
    img := new Color[h, w];
    Fill(img, Black);
    PaintStart(img, g, L, w, h);
    var y := 0;
    while y < L.n
      invariant 0 <= y <= L.n
      invariant forall py, px :: 0 <= py < h && 0 <= px < w ==> img[py, px] == PartialColor(g, L, 0, y, px, py)
    {
      PaintRow(img, g, L, w, h, y);
      y := y + 1;
    }
    PaintDone(img, g, L, w, h);
  }
}
