# Collage layout, modelled in Dafny

This project models the layout core of `collage.py`, the grid-collage builder
of an image-scripting repository. It has two parts:

- `crop_to_square` chooses a square crop box for an image. The box is a
  square of side `min(width, height)`. A "gravity" in [0, 1] places it along
  the longer axis, and it always spans the shorter axis in full.
- `create_collage` builds the collage. It computes the cell size from the
  canvas, the frame and the spacing, and centres the grid on the canvas.
  It then walks the cells row by row, taking the image sources in order.
  Each source that loads is optionally cropped to a square, shrunk to the
  thumbnail box, centred in its cell and pasted. A source that `open_image`
  reports missing or unfetchable leaves its cell empty, and the sources
  after it keep their own cells.
  With cropping on, the grid extent and the centring of each image still
  use the full cell width and height, not the square thumbnail box. The
  model does the same.

Files:

- `crop.dfy`, module `Crop`: images as dimensions, gravity clamping, the
  crop offset, the crop box and `CropToSquare`, with lemmas about them.
- `layout.dfy`, module `Layout`: the build parameters (`Config`), the derived
  geometry (`ComputeGeometry`), cell rectangles, and lemmas. The lemmas cover
  floor division, centring, the grid staying inside the frame, cells lying
  inside the grid and distinct cells never overlapping.
- `collage.dfy`, module `Collage`: the placement loop as the method
  `CreateCollage`. It is proved against the reference function `Pastes`, and
  the lemmas about `Pastes` cover order, coverage, counting and layout.

How the collaborators are modelled:

- **Loading.** `open_image` is an input sequence: `loaded[i]` is what opening
  the i-th path yields, and `None` means the local file was not found or the
  HTTP request failed, the two errors `open_image` catches. The modelled
  loader never raises.
- **Thumbnail.** The imaging library's `thumbnail` is a function parameter of
  type `Thumbnailer`. The predicate `ThumbnailFits`, used only by the layout
  lemmas, assumes one thing: for a box of at least one pixel each way, the
  result fits in the box.
- **Canvas.** The canvas is the record of what happened to it. `attempts`
  lists the source indices that were opened, in order. `pastes` lists the
  pastes made, each with its source, cell, position and size.
- **Arithmetic.** Python's `//` rounds down. Every division in the core has a
  positive divisor, and there Dafny's Euclidean `/` gives the same result.
  Python's integers are unbounded, so `int` needs no wrap-around. Gravity is
  a `real`. After clamping, the product `max_offset * gravity` is never
  negative, so Python's `int(...)` truncation equals `.Floor`.

Where the system's design notes and the code disagree, the model follows
the code:

- The design notes call an empty source list a configuration error. The code
  prints a message and returns without building or saving anything. The
  model returns `NoImages`.
- The design notes skip a source that cannot be decoded. The code skips only
  a missing local file or a failed download. Any other error while opening
  or decoding a source propagates out of `create_collage` and nothing is
  saved; see "## Left out".
- The design notes reject a non-positive usable area. The code never checks
  it. The model restricts a build to the precondition `WellFormed`: a grid
  with at least one row and one column, a canvas of non-negative size, and
  cells of at least one pixel. These are stricter than what the code runs
  with; "## Left out" lists the cases excluded.
  `CreateCollage` requires `WellFormed` only when the source list is
  non-empty, because the emptiness test runs before any of the arithmetic.

## Model

| member | source | states |
|---|---|---|
| Crop.ClampGravity | collage.py:51 | The gravity used is in [0, 1]: equal to the input inside the range, 0 below it, 1 above it |
| Crop.Offset | collage.py:57-66 | The crop offset is the floor of `max_offset * clamped gravity`, lies in [0, max_offset], is 0 for gravity 0 and max_offset for gravity 1 |
| Crop.CropBox | collage.py:47-71 | For a non-square image the box lies inside the image and is a square of side min(width, height). Landscape: top 0, bottom = height, left = the gravity offset. Portrait: left 0, right = width, top = the gravity offset |
| Crop.Cropped | collage.py:72 | Cropping to a box inside the image yields an image no larger than the original, of the box's extent |
| Crop.CropToSquare | collage.py:26-72 | The result is square with side min(width, height), and a square input comes back unchanged |
| Crop.CropToSquareIdempotent | collage.py:44-45 | Cropping an already-cropped image changes nothing, whatever the gravity |
| Crop.OffsetMonotone | collage.py:51-66 | A larger gravity never gives a smaller offset, so the crop moves towards the bottom or right |
| Crop.PortraitExamples | collage.py:62-68 | A 600 x 800 image crops to (0,0)-(600,600) at gravity 0, to (0,200)-(600,800) at gravity 1 and to (0,100)-(600,700) at gravity 0.5 |
| Layout.DefaultConfig | collage.py:80-85 | The default build uses spacing 10 for frame, columns and rows, no cropping and gravity 0.5 |
| Layout.AvailableWidth | collage.py:99-102 | The canvas width less the frame on both sides and the gaps between columns; `GeometryBounds`, `CellsPositive` and `GridInsideFrame` state what the cells and the grid built from it satisfy |
| Layout.AvailableHeight | collage.py:99-102 | The canvas height less the frame above and below and the gaps between rows; `GeometryBounds`, `CellsPositive` and `GridInsideFrame` state what the cells and the grid built from it satisfy |
| Layout.ComputeGeometry | collage.py:99-117 | The thumbnail box is the cell, or with cropping the square of side min(cell width, cell height); `GeometryBounds` states what the cell size, the grid extent and the origin are |
| Layout.CellX | collage.py:123 | The left edge of column col: the grid origin plus one cell width and one column spacing per preceding column; `CellInsideGrid` and `CellsDisjoint` state what these edges mean |
| Layout.CellY | collage.py:124 | The top edge of row row: the grid origin plus one cell height and one row spacing per preceding row; `CellInsideGrid` and `CellsDisjoint` state what these edges mean |
| Layout.GeometryBounds | collage.py:99-117 | The cell size is the available size divided by the column or row count, rounded down. The grid extent is the cells plus the spacing between them. The origin centres that extent on the canvas to within one pixel. |
| Layout.CellsPositive | collage.py:101-111 | In a well-formed build every cell and the thumbnail box are at least one pixel each way |
| Layout.BoxWithinCell | collage.py:107-111 | The thumbnail box is never larger than the cell in either direction |
| Layout.GridCentred | collage.py:113-117 | The margins on the two sides of the grid differ by zero or one pixel, the extra pixel on the right or bottom |
| Layout.GridInsideFrame | collage.py:99-117 | The grid lies inside the canvas with at least the frame spacing on every side, for any frame spacing |
| Layout.CellInsideGrid | collage.py:114-124 | With non-negative spacing every cell (row, col) of the grid lies inside the centred grid block |
| Layout.CellsDisjoint | collage.py:123-124 | With non-negative spacing two distinct cells never overlap |
| Layout.CenterOffset | collage.py:136-137 | The centring offset splits the slack `cell - size` in two halves, rounding down |
| Layout.CenteredWithin | collage.py:136-137 | An image no larger than its cell, centred by that offset, lies entirely inside the cell |
| Collage.Attempted | collage.py:119-122 | The number of attempted cells is min(rows * cols, number of sources) |
| Collage.PasteFor | collage.py:123-139 | The paste for source k goes into the cell (row, col) with row * cols + col = k and col < cols |
| Collage.Pastes | collage.py:119-140 | The pastes the loop makes for the first k sources, at most one per source; `PastesFromLoaded`, `PastesIncreasing`, `PastesComplete`, `PastesCount` and `PastesLaidOut` state their sources, order, number and placement |
| Collage.Indices | collage.py:119-140 | The running index visits 0, 1, ..., n - 1 in order |
| Collage.CreateCollage | collage.py:75-146 | No sources gives no canvas, and otherwise a canvas of the output size. The opened indices are 0 .. min(rows * cols, n) - 1 in order, and the pastes are exactly those of the reference `Pastes` for the attempted sources |
| Collage.PlaceImage | collage.py:123-139 | One cell's work (optional square crop, thumbnail, centring in the cell) yields exactly the reference paste for that source |
| Collage.CellOfIndex | collage.py:119-124 | The running index row * cols + col names cell (row, col): its quotient is the row and its remainder the column |
| Collage.RowMajor | collage.py:120-121 | Row-major numbering orders cells by row, then by column within a row, in both directions |
| Collage.RowMajorOrder | collage.py:119-124 | Among pastes, a lower source index comes exactly when the cell comes earlier in row-major order |
| Collage.CellInGrid | collage.py:119-124 | Every attempted source lands in a row of the grid |
| Collage.PastesStep | collage.py:126-140 | One more attempted source adds its paste if it loaded and nothing if it did not |
| Collage.PastesFromLoaded | collage.py:126-140 | Every paste comes from an attempted source that loaded, and is that source's reference paste |
| Collage.PastesIncreasing | collage.py:119-140 | Pastes are made in strictly increasing source order |
| Collage.PastesComplete | collage.py:126-140 | Every attempted source that loaded has its paste |
| Collage.FailedCellEmpty | collage.py:126-140 | A source that fails to load leaves its own cell unpainted, so later sources are not shifted into it |
| Collage.PastesCount | collage.py:126-140 | There is one paste per attempted source that loaded |
| Collage.CountLoaded | collage.py:126-127 | The number of loaded sources is at most the number of sources, and equal exactly when all of them loaded |
| Collage.OneFailureOneBlank | collage.py:126-140 | When exactly one attempted source fails to load, the pastes number one less than the attempted cells, so exactly one attempted cell is blank |
| Collage.PasteInsideCell | collage.py:134-139 | When the thumbnail fits its box, each pasted image lies inside its own cell |
| Collage.PasteLaidOut | collage.py:119-139 | The paste of an attempted source lies in a cell of the grid (row < rows, col < cols), and that cell lies inside the grid block |
| Collage.PastesApart | collage.py:119-139 | The pastes of two different sources never overlap |
| Collage.PastesLaidOut | collage.py:99-139 | With non-negative spacing, the grid leaves the frame free, every paste lies in its cell inside the grid, and no two pastes of a build overlap |

## Left out

- `open_image` (collage.py:6-23) fetches over HTTP or opens a file. That is I/O, and the model replaces it with the `loaded` input, one optional image per path.
- Load errors other than the two `open_image` catches (collage.py:14, 20) are not modelled: an existing file or a downloaded body that is not an image, a path that cannot be read, or a decode error raised later by the crop or the thumbnail (collage.py:130, 134). In the source these propagate out of `create_collage` and nothing is saved (collage.py:142). The model's loader never raises, so every non-empty source list yields `Built`.
- The thumbnail's LANCZOS resampling and aspect-ratio rounding (collage.py:134) are imaging-library internals. The model keeps only the size of the result, through the `thumb` parameter. The results are assumed to fit the box (`ThumbnailFits`), and only where a layout lemma needs that.
- The pixel copying of `paste` (collage.py:139) is not modelled; a paste is a record of source, cell, position and size. So is clipping at the canvas edge when spacing or frame are negative.
- The background colour and RGB mode of the canvas (collage.py:96) describe only pixel content, which the model does not carry.
- The JPEG save with quality 95, and the success and failure messages (collage.py:142-146), are codec I/O and console output. The model's result is the canvas that would be saved.
- The example invocations and dummy-file creation under the main guard (collage.py:149-212) are demonstration code.
- The `isinstance` guard of `crop_to_square` (collage.py:40-41) and the `continue` after a failed crop (collage.py:131) are not modelled. A model image is always an image, so the crop never fails and that branch is unreachable. In the source it is unreachable for the same reason: `open_image` returns either an image or `None`.
- Floating point: gravity is an exact `real`, so rounding in the float product `max_offset * gravity` is not modelled, and neither are NaN or infinite gravity.
- CreateCollage: when the source list is non-empty, it requires `WellFormed`. So it does not model a zero grid dimension (the cell-size division at collage.py:103-104 raises ZeroDivisionError), a negative grid dimension (the loops at collage.py:120-121 then run no iteration and nothing is placed), cells smaller than one pixel (passed unchecked to `thumbnail` at collage.py:134) or a negative canvas size (passed unchecked to `Image.new` at collage.py:96).
- An automatic grid-size solver and a swap of rows and columns for the canvas orientation are not part of `collage.py`, so they are not modelled.
- `img_pdf2jpg.py`, `img_jpg2pdf.py`, `img_brightness_blur.py` and `img_transparence.py` are thin wrappers around imaging and PDF library calls and float filters, and are not part of this model.
