# Wi-Fi QR code image provider, modelled in Dafny

The two scripts `qr-metadata.py` and `qr-stats.py` show a Wi-Fi login as a QR
code in a QML window. The core shared by both scripts has three parts. This
project models each of them and proves what they compute.

1. **Module statistics** (`ModuleStats`, `stats.dfy`): `get_module_counts`
   returns the number of dark ("on") and light ("off") modules of the QR grid.
   `get_row_module_counts` returns the same pair for each row. Both are
   modelled as the source writes them: the `reduce` folds become left folds,
   and the per-row loop becomes a method with a `while` loop. They are proved
   against the multiset of the grid's cells.
2. **Raster layout and painting** (`Layout`, `layout.dfy`; `Raster`,
   `raster.dfy`): `createImage` computes the block side
   `S = min(w, h) // N` and the margins `(w - N*S) // 2` and
   `(h - N*S) // 2`. It fills a `w x h` image black, then paints an `S x S`
   block for every module at `(offsetX + x*S, offsetY + y*S)`: black for a
   dark module, white for a light one. The image is an `array2<Color>` indexed
   `[row, column]`. `CreateImage` is proved against `PixelColor`, the colour
   each pixel ends up with. The lemmas prove that:
   - every block lies on the canvas;
   - blocks do not overlap;
   - the blocks tile the `N*S x N*S` square exactly;
   - a pixel is black iff its module is dark;
   - pixels outside every block stay black.
3. **Request decoding** (`Payload`, `payload.dfy`; `Request`, `request.dfy`):
   `requestImage` picks 29 x 29 unless the requested size is valid. It splits
   the id at its first `/` into SSID and password. It builds the text
   `WIFI:T:WPA;S:<ssid>;P:<password>;;`. `qr-metadata.py` builds it with
   `QR_DATA_FORMAT_STR.format(*ssid_pw)` and `qr-stats.py` with an f-string.
   Both are modelled: `Format` is a small model of `str.format` and
   `FStringPayload` models the f-string. They are proved to agree, including
   the `IndexError` raised for an id without `/`. The QR encoder is a
   parameter of `RequestImage`. It may fail, and its error is passed on. The
   model assumes a grid it returns is square and non-empty (`ModuleGrid`).

`qr-stats.py` repeats the code of `qr-metadata.py`: lines 15-28 match 17-30,
lines 34-59 match 36-61, and lines 62-79 match 64-81. `qr-stats.py` names the
count variables `true_modules` and `false_modules` and has no
`QR_DATA_FORMAT_STR`. The only difference in behaviour is how the payload is
built, at qr-stats.py:76 versus qr-metadata.py:78. So each
row below cites one of the two copies.

Two facts about the layout are worth stating plainly:
- Floor division puts the extra pixel of an odd margin on the right (bottom)
  side. The block square therefore sits one pixel towards the top-left.
- In the model, which fills each block as exactly `S x S` pixels, the margins
  are not white. The canvas is filled black first, and no block covers the
  margins, so they stay black. In Qt this holds only up to the pen strip
  described under `Raster.DrawRect` in "## Left out".

## Model

| member | source | states |
|---|---|---|
| `Layout.Min` | qr-metadata.py:40 | `min(w, h)`: at most both arguments and equal to one of them |
| `Layout.SquareSize` | qr-metadata.py:40 | `min(w, h) // N`; `SquareSizeBounds` and `SquareSizeLargest` prove it is the largest side of which N blocks fit |
| `Layout.SquareSizeBounds` | qr-metadata.py:40 | `N*S <= min(w,h) < N*(S+1)`: N blocks of side S fit into the shorter side, N blocks of side S+1 do not |
| `Layout.SquareSizeLargest` | qr-stats.py:38 | no block side larger than `square_size` fits N times into `min(w,h)` |
| `Layout.SquareSizeZero` | qr-metadata.py:40 | a canvas whose shorter side is below N gives `square_size == 0` |
| `Layout.Offset` | qr-metadata.py:41-42 | the offset is non-negative; offset plus `N*S` stays within the extent; the far margin equals the offset or exceeds it by one |
| `Layout.LayoutOf` | qr-metadata.py:39-42 | the geometry `createImage` computes, with N modules and side `SquareSize`; `LayoutFits` proves the square fits and is centred |
| `Layout.LayoutFits` | qr-stats.py:37-40 | the `N*S` square at the offsets lies inside `w x h`; each margin before it equals the margin after it or is one pixel smaller |
| `Layout.UnitLayout` | qr-metadata.py:39-42 | for `w == h == N`: block side 1 and both offsets 0 |
| `Layout.BlockInCanvas` | qr-metadata.py:53-54 | every block origin is non-negative, and origin plus `square_size` stays within `w` and `h` |
| `Layout.BlockCell` | qr-metadata.py:51-59 | a pixel is in the block of cell (x, y) iff it lies in the block square and its cell coordinates are (x, y) |
| `Layout.BlocksDisjoint` | qr-stats.py:49-57 | a pixel in the blocks of two cells means the two cells are the same |
| `Layout.BlocksTile` | qr-metadata.py:51-54 | a pixel lies in the `N*S` square at the offsets iff it lies in the block of some cell of the grid |
| `Raster.ColorOf` | qr-metadata.py:55-57 | the brush colour is black iff the module is dark |
| `Raster.PixelColor` | qr-metadata.py:48-59 | the closed-form colour of each pixel, the module colour inside the block square and black elsewhere; `PixelInBlock`, `PixelOutsideBlocks` and `CreateImage` tie it to the painting |
| `Raster.PixelInBlock` | qr-metadata.py:55-59 | a painted pixel in the block of module (x, y) is black iff `modules[y][x]` is true |
| `Raster.PixelOutsideBlocks` | qr-metadata.py:48 | a pixel outside every block keeps the black fill |
| `Raster.SmallCanvasBlack` | qr-stats.py:38-46 | when `min(w,h) < N` the whole image stays black |
| `Raster.UnitCanvas` | qr-stats.py:37-57 | on an `N x N` canvas pixel (x, y) is black iff module (x, y) is dark |
| `Raster.DrawRect` | qr-metadata.py:59 | the pixels of the rectangle get the colour; every other pixel is unchanged |
| `Raster.Fill` | qr-metadata.py:48 | every pixel of the image becomes the fill colour |
| `Raster.ComputeLayout` | qr-metadata.py:37-42 | `N*S <= min(w,h) < N*(S+1)`; the `N*S` square at the offsets lies inside `w x h`; each left (top) margin equals the right (bottom) one or is one pixel smaller; the result is `LayoutOf(N, w, h)` |
| `Raster.PaintBlock` | qr-metadata.py:53-59 | the pixels of the block of module (x, y) take the module's colour; every other pixel is unchanged |
| `Raster.PaintRow` | qr-metadata.py:52-59 | painting row y's blocks left to right turns "rows before y painted" into "rows before y+1 painted" |
| `Raster.CreateImage` | qr-metadata.py:36-61 | a fresh image of height h and width w whose every pixel is `PixelColor`: the module colour inside a block, black elsewhere |
| `ModuleStats.SumBools` | qr-metadata.py:27 | the left fold `reduce(lambda x,y: x+y, row, acc)`; `SumBoolsCount` proves it adds the row's `True` cells to `acc` |
| `ModuleStats.OnFold` | qr-metadata.py:19 | the left fold `reduce(lambda x,y: x + sum(y), rows, acc)`; `OnFoldCount` proves it adds the grid's `True` cells to `acc` |
| `ModuleStats.LenFold` | qr-metadata.py:20 | the left fold `reduce(lambda x,y: x + len(y), rows, acc)`; `LenFoldCount` proves it adds the number of cells to `acc` |
| `ModuleStats.ModuleCounts` | qr-metadata.py:17-21 | `get_module_counts` as the two folds; `ModuleCountsCorrect` proves the pair is the dark and light cell counts |
| `ModuleStats.SumBoolsCount` | qr-metadata.py:27 | `reduce(lambda x,y: x+y, row, 0)` (and `sum(row)`) is the number of `True` cells of the row |
| `ModuleStats.OnFoldCount` | qr-metadata.py:19 | the fold of `x + sum(y)` over the rows is the number of `True` cells of the grid |
| `ModuleStats.LenFoldCount` | qr-metadata.py:20 | the fold of `x + len(y)` over the rows is the number of cells of the grid |
| `ModuleStats.ModuleCountsCorrect` | qr-metadata.py:17-21 | on = number of dark cells, off = number of light cells; both are non-negative and sum to the number of cells |
| `ModuleStats.ModuleCountsSquare` | qr-stats.py:15-19 | for an N x N grid, on + off = N*N |
| `ModuleStats.RowModuleCounts` | qr-metadata.py:23-30 | one pair per row, in row order; pair i holds the dark and light counts of row i, both non-negative, summing to `len(row i)`; the pairs' sums equal `get_module_counts` |
| `Payload.WifiPayload` | qr-metadata.py:15 | the text `QR_DATA_FORMAT_STR` describes, `WIFI:T:WPA;S:<ssid>;P:<pw>;;`; it is `18 + len(ssid) + len(pw)` long and the SSID and password can be read back at fixed positions |
| `Payload.Format` | qr-metadata.py:78 | `str.format` for automatically numbered `{}` fields and `{{`/`}}` escapes; `FormatLiteral`, `FormatField` and `FormatPayload` prove what it gives |
| `Payload.FormatLiteral` | qr-metadata.py:78 | `str.format` copies brace-free text through unchanged |
| `Payload.FormatField` | qr-metadata.py:78 | a `{}` field takes the next argument, and raises `IndexError` when none is left |
| `Payload.FormatPayload` | qr-metadata.py:15 | `QR_DATA_FORMAT_STR.format(*parts)` is `WIFI:T:WPA;S:<parts[0]>;P:<parts[1]>;;` with nothing escaped, and `IndexError` when there are fewer than two parts |
| `Payload.FStringPayload` | qr-stats.py:76 | the f-string succeeds iff both `ssid_pw[0]` and `ssid_pw[1]` exist |
| `Payload.PayloadStylesAgree` | qr-stats.py:74-76 | the f-string and `QR_DATA_FORMAT_STR.format` give equal results for every split, errors included |
| `Payload.PayloadAmbiguous` | qr-stats.py:76 | without escaping, SSID `a;P:b` with password `c` gives the same payload as SSID `a` with password `b;P:c` |
| `Payload.SplitOnce` | qr-metadata.py:76 | `split("/", maxsplit=1)` gives two parts iff the id has a `/`; then the first part has no `/` and `first + "/" + second == id`; otherwise one part, the id itself |
| `Payload.SplitOnceUnique` | qr-stats.py:74 | when `a` has no `/`, splitting `a + "/" + b` gives exactly `[a, b]` |
| `Request.Size.IsValid` | qr-metadata.py:72 | `QSize.isValid()`: both width and height are at least 0 |
| `Request.ImageDimensions` | qr-metadata.py:65-74 | 29 x 29 unless the requested size is valid; `DecodeRequestOutcome` proves the size each request gets |
| `Request.BuildPayload` | qr-stats.py:76 | the payload of each script: `str.format` in `qr-metadata.py:78`, the f-string here; `VariantsAgree` proves the two agree |
| `Request.DecodeRequest` | qr-metadata.py:65-78 | size, split and payload of a request before encoding; `DecodeRequestOutcome` and `DecodeRequestPayload` prove its result |
| `Request.DecodeRequestOutcome` | qr-metadata.py:64-78 | a request fails iff the id has no `/`, and then with `IndexError`; the size is the requested one when it is valid and 29 x 29 otherwise |
| `Request.DecodeRequestPayload` | qr-metadata.py:76-78 | whenever `id == ssid + "/" + pw` with no `/` in the SSID, the request succeeds with payload `WIFI:T:WPA;S:<ssid>;P:<pw>;;` |
| `Request.VariantsAgree` | qr-stats.py:62-76 | both scripts decode every id and size to the same result |
| `Request.RequestImage` | qr-metadata.py:64-81 | a malformed id yields its error; a payload the encoder rejects yields the encoder's error; otherwise a fresh image of the chosen size whose every pixel is `PixelColor` of the encoder's grid |

## Left out

- QR encoding (`qrcode.QRCode`, `add_data`, `get_matrix`, version, error correction): it is done by a foreign library. `RequestImage` takes the encoder as a function parameter that returns either a grid or an error. The model passes the encoder's error through; `DataOverflowError`, raised by `get_matrix` when the payload does not fit the largest QR version, is one such error. A grid is only assumed square and non-empty; no particular size is assumed.
- The `qr.get_matrix()` calls in both count functions: they only make the library build its matrix. The count functions take the grid itself.
- Qt image details: the `Format_Mono` colour table, and the `isNull()` early return for an image that cannot be allocated. A zero width or height gives an empty array here.
- Raster.DrawRect: it does not model Qt's pen. A width-1 pen outlines one pixel past the rectangle, so a Qt block can overwrite one row and one column of its neighbours. The blocks of the last module column and the last module row also paint a one-pixel strip of the right and bottom margins, in the module's colour, which can be white. The model fills exactly `S x S` pixels and treats the painting order as irrelevant. So `PixelOutsideBlocks`, `SmallCanvasBlack` and `CreateImage` describe this exact fill: in Qt, the first margin column to the right of the square and the first margin row below it need not stay black.
- `createImage` on an empty grid (it raises `ZeroDivisionError`) and on negative sizes: the grid comes from the encoder and is never empty, and `requestImage` never passes a negative size. The model requires both away.
- Payload.Format: it models only `{}` fields and the escapes `{{` and `}}`. Numbered or named fields and format specifications are treated as a `ValueError`. The template used here contains none of them.
- The assignment `size = QSize(width, height)` in `requestImage`: it rebinds a local name and has no effect the caller can see.
- The `QRCodeInfo` class (properties, signals, `updateQR` notifications): this is GUI binding plumbing.
- Application start-up (`QQmlApplicationEngine`, provider registration, QML loading, the `__main__` blocks): this is I/O and UI glue.
