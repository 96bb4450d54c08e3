/** Integer layout of the QR raster: one square block of side S per module,
    the N*S x N*S block square centred on a w x h canvas
    (WiFiQRCodeImageProvider.createImage, lines 36-42 and 51-59). */
module Layout {

  /** The smaller of two integers. */
  function Min(a: int, b: int): (r: int)
    ensures r <= a && r <= b && (r == a || r == b)
  {
    if a <= b then a else b
  }

  /** A module grid as the encoder hands it over: non-empty and square. */
  predicate IsModuleGrid(g: seq<seq<bool>>) {
    |g| > 0 && forall i :: 0 <= i < |g| ==> |g[i]| == |g|
  }

  // ---------------------------------------------------------------------
  // Arithmetic helpers (Python's // on non-negative operands is Dafny's /)

  lemma MulMono(a: int, b: int, s: int)
    ensures a <= b && 0 <= s ==> a * s <= b * s
  {
    assert b * s - a * s == (b - a) * s;
  }

  lemma DivBounds(m: int, s: int)
    requires s > 0
    ensures s * (m / s) <= m < s * (m / s) + s
  {
  }

  /** d lies in the s-wide slot that starts at a*s exactly when d / s == a. */
  lemma DivSlot(d: int, a: int, s: int)
    requires s > 0
    ensures (a * s <= d < a * s + s) <==> d / s == a
  {
    var q := d / s;
    DivBounds(d, s);
    MulMono(q + 1, a, s);
    MulMono(a + 1, q, s);
  }

  // ---------------------------------------------------------------------
  // The three quantities createImage computes

  /** square_size = min(w, h) // N. */
  function SquareSize(n: nat, w: nat, h: nat): (s: nat)
    requires n > 0
  {
    Min(w, h) / n
  }

  /** N blocks of side square_size fit into the shorter side, N blocks of
      side square_size + 1 do not. */
  lemma SquareSizeBounds(n: nat, w: nat, h: nat)
    requires n > 0
    ensures n * SquareSize(n, w, h) <= Min(w, h) < n * (SquareSize(n, w, h) + 1)
  {
    DivBounds(Min(w, h), n);
  }

  /** offset = (extent - used) // 2: the left (top) margin of a run of
      `used` pixels centred in `extent`; an odd remainder leaves the extra
      pixel in the right (bottom) margin. */
  function Offset(extent: nat, used: nat): (o: nat)
    requires used <= extent
    ensures o + used <= extent
    ensures extent - used - o == o || extent - used - o == o + 1
  {
    (extent - used) / 2
  }

  /** Geometry of one raster: N modules per side, block side S, and the
      pixel origin of the block square. */
  datatype Geometry = Geometry(n: nat, side: nat, offX: nat, offY: nat)

  function LayoutOf(n: nat, w: nat, h: nat): (L: Geometry)
    requires n > 0
    ensures L.n == n && L.side == SquareSize(n, w, h)
  {
    var s := SquareSize(n, w, h);
    SquareSizeBounds(n, w, h);
    Geometry(n, s, Offset(w, n * s), Offset(h, n * s))
  }

  /** The block square lies inside the canvas, centred: each margin before it
      equals the one after it or is one pixel smaller. */
  lemma LayoutFits(n: nat, w: nat, h: nat)
    requires n > 0
    ensures var L := LayoutOf(n, w, h);
      L.offX + n * L.side <= w && L.offY + n * L.side <= h &&
      (w - n * L.side - L.offX == L.offX || w - n * L.side - L.offX == L.offX + 1) &&
      (h - n * L.side - L.offY == L.offY || h - n * L.side - L.offY == L.offY + 1)
  {
    SquareSizeBounds(n, w, h);
  }

  /** Pixel (px, py) lies in the rw x rh rectangle with top-left (x0, y0). */
  predicate InRect(x0: int, y0: int, rw: int, rh: int, px: int, py: int) {
    x0 <= px < x0 + rw && y0 <= py < y0 + rh
  }

  /** Pixel (px, py) lies in the block of module column x, row y. */
  predicate InBlock(L: Geometry, x: int, y: int, px: int, py: int) {
    InRect(L.offX + x * L.side, L.offY + y * L.side, L.side, L.side, px, py)
  }

  /** Pixel (px, py) lies in the N*S x N*S square that the blocks cover. */
  predicate InSquare(L: Geometry, px: int, py: int) {
    InRect(L.offX, L.offY, L.n * L.side, L.n * L.side, px, py)
  }

  /** Module column and row of a pixel of the block square. */
  function CellX(L: Geometry, px: int): (x: int)
    requires L.side > 0
  {
    (px - L.offX) / L.side
  }

  function CellY(L: Geometry, py: int): (y: int)
    requires L.side > 0
  {
    (py - L.offY) / L.side
  }

  // ---------------------------------------------------------------------
  // Properties of the layout

  /** S is maximal: no larger block side fits N times into min(w, h). */
  lemma SquareSizeLargest(n: nat, w: nat, h: nat, t: nat)
    requires n > 0 && n * t <= Min(w, h)
    ensures t <= SquareSize(n, w, h)
  {
    var s := SquareSize(n, w, h);
    SquareSizeBounds(n, w, h);
    MulMono(s + 1, t, n);
  }

  /** A canvas smaller than the grid gives zero-sized blocks. */
  lemma SquareSizeZero(n: nat, w: nat, h: nat)
    requires n > 0 && Min(w, h) < n
    ensures SquareSize(n, w, h) == 0
  {
    var s := SquareSize(n, w, h);
    SquareSizeBounds(n, w, h);
    MulMono(1, s, n);
  }

  /** A canvas of exactly N x N pixels: one pixel per module, no margin. */
  lemma UnitLayout(n: nat)
    requires n > 0
    ensures LayoutOf(n, n, n) == Geometry(n, 1, 0, 0)
  {
    var s := SquareSize(n, n, n);
    SquareSizeBounds(n, n, n);
    MulMono(2, s, n);
    assert s == 1;
  }

  /** Every block of a cell of the grid lies inside the w x h canvas. */
  lemma BlockInCanvas(n: nat, w: nat, h: nat, x: int, y: int)
    requires n > 0 && 0 <= x < n && 0 <= y < n
    ensures var L := LayoutOf(n, w, h);
      0 <= L.offX + x * L.side && L.offX + x * L.side + L.side <= w &&
      0 <= L.offY + y * L.side && L.offY + y * L.side + L.side <= h
  {
    var L := LayoutOf(n, w, h);
    LayoutFits(n, w, h);
    SlotInRange(L.offX, x, L.side, n, w);
    SlotInRange(L.offY, y, L.side, n, h);
  }

  /** Slot x of n slots of width s starting at o lies within [0, extent). */
  lemma SlotInRange(o: int, x: int, s: nat, n: int, extent: int)
    requires 0 <= x < n && 0 <= o && o + n * s <= extent
    ensures 0 <= o + x * s && o + x * s + s <= extent
  {
    MulMono(0, x, s);
    MulMono(x + 1, n, s);
  }

  /** One axis of BlockCell: coordinate p is in slot x of the n slots of
      width s starting at o iff it is in the run of n*s pixels at o and
      (p - o) / s == x. */
  lemma SlotCell(o: int, p: int, x: int, s: int, n: int)
    requires s > 0 && 0 <= x < n
    ensures (o + x * s <= p < o + x * s + s) <==> (o <= p < o + n * s && (p - o) / s == x)
  {
    DivSlot(p - o, x, s);
    MulMono(0, x, s);
    MulMono(x + 1, n, s);
  }

  /** One axis of CellRange. */
  lemma SlotRange(o: int, p: int, s: int, n: int)
    requires s > 0 && o <= p < o + n * s
    ensures 0 <= (p - o) / s < n
  {
    var c := (p - o) / s;
    DivBounds(p - o, s);
    MulMono(c + 1, 0, s);
    MulMono(n, c, s);
  }

  /** A pixel is in the block of cell (x, y) exactly when it is in the
      block square and its cell coordinates are (x, y). */
  lemma BlockCell(L: Geometry, x: int, y: int, px: int, py: int)
    requires L.side > 0 && 0 <= x < L.n && 0 <= y < L.n
    ensures InBlock(L, x, y, px, py) <==>
      InSquare(L, px, py) && CellX(L, px) == x && CellY(L, py) == y
  {
    SlotCell(L.offX, px, x, L.side, L.n);
    SlotCell(L.offY, py, y, L.side, L.n);
  }

  /** The cell coordinates of a pixel of the block square are in the grid. */
  lemma CellRange(L: Geometry, px: int, py: int)
    requires L.side > 0 && InSquare(L, px, py)
    ensures 0 <= CellX(L, px) < L.n && 0 <= CellY(L, py) < L.n
  {
    SlotRange(L.offX, px, L.side, L.n);
    SlotRange(L.offY, py, L.side, L.n);
  }

  /** Blocks of distinct cells never share a pixel. */
  lemma BlocksDisjoint(L: Geometry, x1: int, y1: int, x2: int, y2: int, px: int, py: int)
    requires InBlock(L, x1, y1, px, py) && InBlock(L, x2, y2, px, py)
    ensures x1 == x2 && y1 == y2
  {
    var s := L.side;
    if s == 0 {
      assert false;
    }
    DivSlot(px - L.offX, x1, s);
    DivSlot(px - L.offX, x2, s);
    DivSlot(py - L.offY, y1, s);
    DivSlot(py - L.offY, y2, s);
  }

  /** The blocks of the N x N cells tile the block square exactly. */
  lemma BlocksTile(L: Geometry, px: int, py: int)
    ensures InSquare(L, px, py) <==>
      exists x, y :: 0 <= x < L.n && 0 <= y < L.n && InBlock(L, x, y, px, py)
  {
    if InSquare(L, px, py) {
      if L.side == 0 {
        assert false;
      }
      CellRange(L, px, py);
      BlockCell(L, CellX(L, px), CellY(L, py), px, py);
    }
    if exists x, y :: 0 <= x < L.n && 0 <= y < L.n && InBlock(L, x, y, px, py) {
      var x, y :| 0 <= x < L.n && 0 <= y < L.n && InBlock(L, x, y, px, py);
      BlockCell(L, x, y, px, py);
    }
  }
}
