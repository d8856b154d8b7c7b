/** The placement loop of `create_collage` in collage.py: cells are visited
    row by row, the sources are taken in order, each one that loads is
    optionally cropped to a square, shrunk to the thumbnail box, centred in
    its cell and pasted onto the canvas.

    Loading is an input: `loaded[i]` is what opening the i-th path yields
    (None when the file is missing or the download fails). The imaging
    library's thumbnail is a parameter `thumb`; the canvas is the record of
    the pastes made onto it, in order. */
module Collage {
  import opened Crop
  import opened Layout

  datatype Option<T> = None | Some(value: T)

  /** Shrinks an image to fit a box of the given width and height. */
  type Thumbnailer = (Image, int, int) -> Image

  /** The one property of the imaging library's thumbnail that the layout
      relies on: for a box of at least one pixel each way, the result fits
      in the box. */
  ghost predicate ThumbnailFits(thumb: Thumbnailer)
  {
    forall img: Image, w: int, h: int :: 1 <= w && 1 <= h ==>
      thumb(img, w, h).width <= w && thumb(img, w, h).height <= h
  }

  /** One paste onto the canvas: which source, into which cell, where its
      top-left corner went and how large the pasted image was. */
  datatype Paste = Paste(source: nat, row: nat, col: nat, x: int, y: int, width: nat, height: nat)

  /** The canvas handed to the encoder: its size, the sources opened (by
      index, in order) and the pastes made onto the background. */
  datatype Canvas = Canvas(width: int, height: int, attempts: seq<nat>, pastes: seq<Paste>)

  /** No sources means no canvas and nothing saved; otherwise the canvas
      that is saved. */
  datatype Outcome = NoImages | Built(canvas: Canvas)

  function PasteRect(p: Paste): Rect
  {
    Rect(p.x, p.y, p.width, p.height)
  }

  /** The number of cells that are attempted: one per source, up to the
      number of cells in the grid. */
  function Attempted(c: Config, n: nat): (r: nat)
    requires c.cols >= 1 && c.rows >= 1
    ensures r <= n && r <= c.rows * c.cols
    ensures r == n || r == c.rows * c.cols
  {
    Min(c.rows * c.cols, n)
  }

  /** The paste for source k, which the row-major walk puts into cell
      (k / cols, k % cols). */
  function PasteFor(c: Config, thumb: Thumbnailer, k: nat, img: Image): (p: Paste)
    requires c.cols >= 1 && c.rows >= 1
    ensures p.source == k && p.row * c.cols + p.col == k && p.col < c.cols
  {
    var g := ComputeGeometry(c);
    var row, col := k / c.cols, k % c.cols;
    var square := if c.cropToSquare then CropToSquare(img, c.gravity) else img;
    var t := thumb(square, g.boxWidth, g.boxHeight);
    Paste(k, row, col,
          CellX(c, g, col) + CenterOffset(g.cellWidth, t.width),
          CellY(c, g, row) + CenterOffset(g.cellHeight, t.height),
          t.width, t.height)
  }

  /** The pastes made for the first k sources: one per source that loaded,
      none for one that failed. */
  function Pastes(c: Config, thumb: Thumbnailer, loaded: seq<Option<Image>>, k: nat): (r: seq<Paste>)
    requires c.cols >= 1 && c.rows >= 1
    requires k <= |loaded|
    ensures |r| <= k
  {
    if k == 0 then []
    else
      Pastes(c, thumb, loaded, k - 1) +
      if loaded[k - 1].Some? then [PasteFor(c, thumb, k - 1, loaded[k - 1].value)] else []
  }

  /** The source indices 0, 1, ..., n - 1 in increasing order. */
  function Indices(n: nat): (r: seq<nat>)
    ensures |r| == n && forall i :: 0 <= i < n ==> r[i] == i
  {
    if n == 0 then [] else Indices(n - 1) + [n - 1]
  }

  /** The number of sources that loaded. */
  function CountLoaded(s: seq<Option<Image>>): (r: nat)
    ensures r <= |s|
    ensures r == |s| <==> forall i :: 0 <= i < |s| ==> s[i].Some?
  {
    if s == [] then 0
    else CountLoaded(s[..|s| - 1]) + if s[|s| - 1].Some? then 1 else 0
  }

  /** `create_collage`. An empty source list returns at once; otherwise the
      cells are walked row by row with a running source index, and every
      attempted cell advances that index whether or not its source loaded. */
  method CreateCollage(loaded: seq<Option<Image>>, c: Config, thumb: Thumbnailer) returns (r: Outcome)
    requires |loaded| > 0 ==> WellFormed(c)
    ensures r == NoImages <==> |loaded| == 0
    ensures r.Built? ==> r.canvas.width == c.outputWidth && r.canvas.height == c.outputHeight
    ensures r.Built? ==> r.canvas.attempts == Indices(Attempted(c, |loaded|))
    ensures r.Built? ==> r.canvas.pastes == Pastes(c, thumb, loaded, Attempted(c, |loaded|))
  {
    if |loaded| == 0 {
      return NoImages;
    }
    var g := ComputeGeometry(c);
    var attempts: seq<nat> := [];
    var pastes: seq<Paste> := [];
    var index: nat := 0;
    ghost var rowStart := 0;
    for row := 0 to c.rows
      invariant rowStart == row * c.cols
      invariant index == Min(rowStart, |loaded|)
      invariant attempts == Indices(index)
      invariant pastes == Pastes(c, thumb, loaded, index)
    {
      for col := 0 to c.cols
        invariant index == Min(rowStart + col, |loaded|)
        invariant attempts == Indices(index)
        invariant pastes == Pastes(c, thumb, loaded, index)
      {
        if index < |loaded| {
          attempts := attempts + [index];
          PastesStep(c, thumb, loaded, index + 1);
          if loaded[index].Some? {
            var p := PlaceImage(c, g, thumb, index, row, col, loaded[index].value);
            pastes := pastes + [p];
          }
          index := index + 1;
        }
      }
      assert (row + 1) * c.cols == rowStart + c.cols;
      rowStart := rowStart + c.cols;
    }
    return Built(Canvas(c.outputWidth, c.outputHeight, attempts, pastes));
  }

  /** The body of the loop for one cell whose source loaded: crop to a
      square if asked, shrink to the thumbnail box, centre in the cell. */
  method PlaceImage(c: Config, g: Geometry, thumb: Thumbnailer, index: nat, row: nat, col: nat, img: Image)
    returns (p: Paste)
    requires c.cols >= 1 && c.rows >= 1 && g == ComputeGeometry(c)
    requires col < c.cols && index == row * c.cols + col
    ensures p == PasteFor(c, thumb, index, img)
  {
    CellOfIndex(index, c.cols, row, col);
    var cellX := CellX(c, g, col);
    var cellY := CellY(c, g, row);
    var im := img;
    if c.cropToSquare {
      im := CropToSquare(im, c.gravity);
    }
    im := thumb(im, g.boxWidth, g.boxHeight);
    var pasteX := cellX + CenterOffset(g.cellWidth, im.width);
    var pasteY := cellY + CenterOffset(g.cellHeight, im.height);
    p := Paste(index, row, col, pasteX, pasteY, im.width, im.height);
  }

  /** Row-major numbering: index row * cols + col names cell (row, col). */
  lemma CellOfIndex(k: int, cols: int, row: int, col: int)
    requires cols >= 1 && row >= 0 && 0 <= col < cols
    requires k == row * cols + col
    ensures k / cols == row && k % cols == col
  {
    var q, m := k / cols, k % cols;
    assert k == q * cols + m;
    assert (q - row) * cols == col - m;
    SmallMultipleIsZero(q - row, cols);
  }

  /** The only multiple of n strictly between -n and n is zero. */
  lemma SmallMultipleIsZero(d: int, n: int)
    requires n >= 1 && -n < d * n < n
    ensures d == 0
  {
  }

  /** Row-major numbering orders cells row by row, and left to right within
      a row. */
  lemma RowMajor(cols: int, r1: int, c1: int, r2: int, c2: int)
    requires cols >= 1 && 0 <= c1 < cols && 0 <= c2 < cols
    ensures r1 * cols + c1 < r2 * cols + c2 <==> r1 < r2 || (r1 == r2 && c1 < c2)
  {
    var d := r2 - r1;
    assert r2 * cols == r1 * cols + d * cols;
    if d >= 1 {
      assert d * cols >= cols;
    } else if d <= -1 {
      assert d * cols <= -cols;
    }
  }

  /** Ordering sources by index is ordering their cells row by row. */
  lemma RowMajorOrder(c: Config, thumb: Thumbnailer, i: nat, j: nat, a: Image, b: Image)
    requires c.cols >= 1 && c.rows >= 1
    ensures var p, q := PasteFor(c, thumb, i, a), PasteFor(c, thumb, j, b);
            i < j <==> p.row < q.row || (p.row == q.row && p.col < q.col)
  {
    var p, q := PasteFor(c, thumb, i, a), PasteFor(c, thumb, j, b);
    RowMajor(c.cols, p.row, p.col, q.row, q.col);
  }

  /** Every attempted source lands in a cell of the grid. */
  lemma CellInGrid(c: Config, k: nat, thumb: Thumbnailer, img: Image)
    requires c.cols >= 1 && c.rows >= 1
    requires k < c.rows * c.cols
    ensures PasteFor(c, thumb, k, img).row < c.rows
  {
    var p := PasteFor(c, thumb, k, img);
    RowMajor(c.cols, p.row, p.col, c.rows, 0);
  }

  /** Appending the paste, if any, of the k-th source. */
  lemma PastesStep(c: Config, thumb: Thumbnailer, loaded: seq<Option<Image>>, k: nat)
    requires c.cols >= 1 && c.rows >= 1
    requires 0 < k <= |loaded|
    ensures loaded[k - 1].None? ==> Pastes(c, thumb, loaded, k) == Pastes(c, thumb, loaded, k - 1)
    ensures loaded[k - 1].Some? ==>
              Pastes(c, thumb, loaded, k) ==
              Pastes(c, thumb, loaded, k - 1) + [PasteFor(c, thumb, k - 1, loaded[k - 1].value)]
  {
  }

  /** Each paste for the first k sources is the paste PasteFor gives a
      source below k that loaded. */
  lemma {:induction false} PastesFromLoaded(c: Config, thumb: Thumbnailer, loaded: seq<Option<Image>>, k: nat)
    requires c.cols >= 1 && c.rows >= 1
    requires k <= |loaded|
    ensures var ps := Pastes(c, thumb, loaded, k);
            forall j :: 0 <= j < |ps| ==>
              ps[j].source < k && loaded[ps[j].source].Some? &&
              ps[j] == PasteFor(c, thumb, ps[j].source, loaded[ps[j].source].value)
  {
    if k > 0 {
      PastesFromLoaded(c, thumb, loaded, k - 1);
      PastesStep(c, thumb, loaded, k);
    }
  }

  /** PastesFromLoaded, for the j-th paste. */
  lemma PasteAt(c: Config, thumb: Thumbnailer, loaded: seq<Option<Image>>, k: nat, j: nat)
    requires c.cols >= 1 && c.rows >= 1
    requires k <= |loaded| && j < |Pastes(c, thumb, loaded, k)|
    ensures var p := Pastes(c, thumb, loaded, k)[j];
            p.source < k && loaded[p.source].Some? &&
            p == PasteFor(c, thumb, p.source, loaded[p.source].value)
  {
    PastesFromLoaded(c, thumb, loaded, k);
  }

  /** The pastes come in strictly increasing source order. */
  lemma {:induction false} PastesIncreasing(c: Config, thumb: Thumbnailer, loaded: seq<Option<Image>>, k: nat)
    requires c.cols >= 1 && c.rows >= 1
    requires k <= |loaded|
    ensures var ps := Pastes(c, thumb, loaded, k);
            forall i, j :: 0 <= i < j < |ps| ==> ps[i].source < ps[j].source
  {
    if k > 0 {
      PastesIncreasing(c, thumb, loaded, k - 1);
      PastesFromLoaded(c, thumb, loaded, k - 1);
      PastesStep(c, thumb, loaded, k);
    }
  }

  /** Every source below k that loaded has its paste: a source that fails
      leaves its own cell empty and moves no other. */
  lemma {:induction false} PastesComplete(c: Config, thumb: Thumbnailer, loaded: seq<Option<Image>>, k: nat)
    requires c.cols >= 1 && c.rows >= 1
    requires k <= |loaded|
    ensures var ps := Pastes(c, thumb, loaded, k);
            forall s :: 0 <= s < k && loaded[s].Some? ==>
              exists j :: 0 <= j < |ps| && ps[j].source == s
  {
    if k > 0 {
      PastesComplete(c, thumb, loaded, k - 1);
      PastesStep(c, thumb, loaded, k);
      var prev := Pastes(c, thumb, loaded, k - 1);
      var ps := Pastes(c, thumb, loaded, k);
      forall s | 0 <= s < k && loaded[s].Some?
        ensures exists j :: 0 <= j < |ps| && ps[j].source == s
      {
        if s < k - 1 {
          var j :| 0 <= j < |prev| && prev[j].source == s;
          assert ps[j] == prev[j];
        } else {
          assert ps[|ps| - 1].source == s;
        }
      }
    }
  }

  /** A source that fails to load leaves its own cell empty: no paste of
      the build lands in the cell that row-major numbering gives it. */
  lemma FailedCellEmpty(c: Config, thumb: Thumbnailer, loaded: seq<Option<Image>>, k: nat, m: nat)
    requires c.cols >= 1 && c.rows >= 1
    requires k <= |loaded| && m < |loaded| && loaded[m].None?
    ensures var ps := Pastes(c, thumb, loaded, k);
            forall j :: 0 <= j < |ps| ==> ps[j].row * c.cols + ps[j].col != m
  {
    var ps := Pastes(c, thumb, loaded, k);
    forall j | 0 <= j < |ps|
      ensures ps[j].row * c.cols + ps[j].col != m
    {
      PasteAt(c, thumb, loaded, k, j);
    }
  }

  /** There is one paste per source that loaded. */
  lemma {:induction false} PastesCount(c: Config, thumb: Thumbnailer, loaded: seq<Option<Image>>, k: nat)
    requires c.cols >= 1 && c.rows >= 1
    requires k <= |loaded|
    ensures |Pastes(c, thumb, loaded, k)| == CountLoaded(loaded[..k])
  {
    if k > 0 {
      PastesCount(c, thumb, loaded, k - 1);
      PastesStep(c, thumb, loaded, k);
      assert loaded[..k][..k - 1] == loaded[..k - 1];
    }
  }

  /** A paste lies inside its own cell when the thumbnail fits its box. */
  lemma PasteInsideCell(c: Config, thumb: Thumbnailer, k: nat, img: Image)
    requires WellFormed(c) && ThumbnailFits(thumb)
    ensures var p := PasteFor(c, thumb, k, img);
            Within(PasteRect(p), CellRect(c, ComputeGeometry(c), p.row, p.col))
  {
    var g := ComputeGeometry(c);
    CellsPositive(c);
    BoxWithinCell(c);
    var p := PasteFor(c, thumb, k, img);
    var square := if c.cropToSquare then CropToSquare(img, c.gravity) else img;
    assert p.width == thumb(square, g.boxWidth, g.boxHeight).width;
    assert p.height == thumb(square, g.boxWidth, g.boxHeight).height;
    CenteredWithin(g.cellWidth, p.width);
    CenteredWithin(g.cellHeight, p.height);
  }

  /** Rectangles inside two disjoint rectangles are disjoint. */
  lemma DisjointInside(a: Rect, outerA: Rect, b: Rect, outerB: Rect)
    requires Within(a, outerA) && Within(b, outerB) && Disjoint(outerA, outerB)
    ensures Disjoint(a, b)
  {
  }

  /** The paste of an attempted source lies in its own cell, which lies in
      the grid. */
  lemma PasteLaidOut(c: Config, thumb: Thumbnailer, k: nat, img: Image)
    requires WellFormed(c) && ThumbnailFits(thumb)
    requires c.colSpacing >= 0 && c.rowSpacing >= 0
    requires k < c.rows * c.cols
    ensures var g, p := ComputeGeometry(c), PasteFor(c, thumb, k, img);
            p.row < c.rows && p.col < c.cols &&
            Within(PasteRect(p), CellRect(c, g, p.row, p.col)) &&
            Within(CellRect(c, g, p.row, p.col), GridRect(g))
  {
    var p := PasteFor(c, thumb, k, img);
    CellInGrid(c, k, thumb, img);
    PasteInsideCell(c, thumb, k, img);
    CellInsideGrid(c, p.row, p.col);
  }

  /** The pastes of two different sources do not overlap. */
  lemma PastesApart(c: Config, thumb: Thumbnailer, k1: nat, a: Image, k2: nat, b: Image)
    requires WellFormed(c) && ThumbnailFits(thumb)
    requires c.colSpacing >= 0 && c.rowSpacing >= 0
    requires k1 != k2
    ensures Disjoint(PasteRect(PasteFor(c, thumb, k1, a)), PasteRect(PasteFor(c, thumb, k2, b)))
  {
    var g := ComputeGeometry(c);
    var p, q := PasteFor(c, thumb, k1, a), PasteFor(c, thumb, k2, b);
    assert (p.row, p.col) != (q.row, q.col);
    PasteInsideCell(c, thumb, k1, a);
    PasteInsideCell(c, thumb, k2, b);
    CellsDisjoint(c, p.row, p.col, q.row, q.col);
    DisjointInside(PasteRect(p), CellRect(c, g, p.row, p.col),
                   PasteRect(q), CellRect(c, g, q.row, q.col));
  }

  /** The layout theorem: with non-negative spacing and a
      thumbnail that fits its box, every image that a build pastes lies in
      its own cell, every cell used lies in the centred grid, the grid leaves
      the frame free on every side, and no two pastes overlap. */
  lemma PastesLaidOut(c: Config, thumb: Thumbnailer, loaded: seq<Option<Image>>)
    requires WellFormed(c) && ThumbnailFits(thumb)
    requires c.colSpacing >= 0 && c.rowSpacing >= 0
    ensures var g := ComputeGeometry(c);
            var ps := Pastes(c, thumb, loaded, Attempted(c, |loaded|));
            Within(GridRect(g), InsideFrame(c)) &&
            (forall j :: 0 <= j < |ps| ==>
               ps[j].row < c.rows && ps[j].col < c.cols &&
               Within(PasteRect(ps[j]), CellRect(c, g, ps[j].row, ps[j].col)) &&
               Within(CellRect(c, g, ps[j].row, ps[j].col), GridRect(g))) &&
            (forall i, j :: 0 <= i < j < |ps| ==> Disjoint(PasteRect(ps[i]), PasteRect(ps[j])))
  {
    var g := ComputeGeometry(c);
    var n := Attempted(c, |loaded|);
    var ps := Pastes(c, thumb, loaded, n);
    GridInsideFrame(c);
    PastesIncreasing(c, thumb, loaded, n);
    forall j | 0 <= j < |ps|
      ensures ps[j].row < c.rows && ps[j].col < c.cols
      ensures Within(PasteRect(ps[j]), CellRect(c, g, ps[j].row, ps[j].col))
      ensures Within(CellRect(c, g, ps[j].row, ps[j].col), GridRect(g))
    {
      PasteAt(c, thumb, loaded, n, j);
      var s := ps[j].source;
      PasteLaidOut(c, thumb, s, loaded[s].value);
    }
    forall i, j | 0 <= i < j < |ps|
      ensures Disjoint(PasteRect(ps[i]), PasteRect(ps[j]))
    {
      PasteAt(c, thumb, loaded, n, i);
      PasteAt(c, thumb, loaded, n, j);
      var s, t := ps[i].source, ps[j].source;
      PastesApart(c, thumb, s, loaded[s].value, t, loaded[t].value);
    }
  }

  /** One attempted source that fails to load, among attempted sources that
      all load, leaves exactly one attempted cell empty. */
  lemma {:induction false} OneFailureOneBlank(c: Config, thumb: Thumbnailer, loaded: seq<Option<Image>>, m: nat)
    requires c.cols >= 1 && c.rows >= 1
    requires m < Attempted(c, |loaded|)
    requires loaded[m].None?
    requires forall i :: 0 <= i < Attempted(c, |loaded|) && i != m ==> loaded[i].Some?
    ensures |Pastes(c, thumb, loaded, Attempted(c, |loaded|))| == Attempted(c, |loaded|) - 1
  {
    var n := Attempted(c, |loaded|);
    PastesCount(c, thumb, loaded, n);
    CountWithOneMissing(loaded[..n], m);
  }

  lemma {:induction false} CountWithOneMissing(s: seq<Option<Image>>, m: nat)
    requires m < |s| && s[m].None?
    requires forall i :: 0 <= i < |s| && i != m ==> s[i].Some?
    ensures CountLoaded(s) == |s| - 1
  {
    var init := s[..|s| - 1];
    if m == |s| - 1 {
      assert CountLoaded(init) == |init|;
    } else {
      CountWithOneMissing(init, m);
    }
  }
}
