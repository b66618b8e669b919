/** Pixel buffers shared by the compositing functions and the per-frame
    controller: 8-bit RGBA pixels, rectangles, row-major grids of values, the
    two-dimensional arrays that stand for OpenCV matrices, and the neighbourhood
    average that stands for OpenCV's Gaussian blur. */
module Imaging {

  /** One 8-bit channel value, as stored in a CV_8U matrix. */
  type byte = x: int | 0 <= x < 256

  /** One CV_8UC4 pixel: red, green, blue and alpha channels. */
  datatype Pixel = Pixel(r: byte, g: byte, b: byte, a: byte)

  /** A cv.Rect: top-left corner (x is the column, y the row), then size. */
  datatype Rect = Rect(x: int, y: int, width: int, height: int)

  datatype Option<T> = None | Some(value: T)

  /** Why an OpenCV step would throw. */
  datatype Fault =
    | RoiOutOfBounds   // a region of interest outside its matrix, or a zero-area one whose empty matrix a later step rejects
    | EmptyInput       // resize or blur of an empty matrix
    | NoSourceFace     // the detector found nothing in the reference image
    | ArgumentType     // a binding handed an argument of the wrong kind

  datatype Result<T> = Ok(value: T) | Err(fault: Fault)

  /** A matrix as rows of values. */
  type Grid<T> = seq<seq<T>>

  predicate IsGrid<T>(g: Grid<T>, rows: int, cols: int) {
    |g| == rows && forall i :: 0 <= i < |g| ==> |g[i]| == cols
  }

  function Rows<T>(g: Grid<T>): nat { |g| }

  function Cols<T>(g: Grid<T>): nat { if |g| == 0 then 0 else |g[0]| }

  /** Every row has the same length: what every cv.Mat is. */
  predicate Rectangular<T>(g: Grid<T>) { IsGrid(g, Rows(g), Cols(g)) }

  /** A matrix with at least one element, the input OpenCV's resize and blur demand. */
  predicate NonEmpty<T>(g: Grid<T>) { Rectangular(g) && Rows(g) > 0 && Cols(g) > 0 }

  /** The rectangle is a region of interest of a rows x cols matrix with a non-zero area. */
  predicate Fits(rect: Rect, rows: int, cols: int) {
    && 0 <= rect.x && 0 <= rect.y
    && 0 < rect.width && 0 < rect.height
    && rect.x + rect.width <= cols && rect.y + rect.height <= rows
  }

  /** Pixel (i, j) (row i, column j) lies inside the rectangle. */
  predicate InRect(rect: Rect, i: int, j: int) {
    rect.y <= i < rect.y + rect.height && rect.x <= j < rect.x + rect.width
  }

  /** The sub-matrix a region of interest selects (cv.Mat(m, rect) followed by copyTo). */
  function Crop<T>(g: Grid<T>, rect: Rect): (c: Grid<T>)
    requires Rectangular(g) && Fits(rect, Rows(g), Cols(g))
    ensures IsGrid(c, rect.height, rect.width)
    ensures forall i, j :: 0 <= i < rect.height && 0 <= j < rect.width ==> c[i][j] == g[rect.y + i][rect.x + j]
  {
    seq(rect.height, i requires 0 <= i < rect.height => g[rect.y + i][rect.x .. rect.x + rect.width])
  }

  lemma GridsEqual<T>(g: Grid<T>, h: Grid<T>, rows: nat, cols: nat)
    requires IsGrid(g, rows, cols) && IsGrid(h, rows, cols)
    requires forall i, j :: 0 <= i < rows && 0 <= j < cols ==> g[i][j] == h[i][j]
    ensures g == h
  {
    forall i | 0 <= i < rows
      ensures g[i] == h[i]
    {
      assert forall j :: 0 <= j < cols ==> g[i][j] == h[i][j];
    }
  }

  // ---------------------------------------------------------------------------
  // Frame buffers (cv.Mat of type CV_8UC4) as two-dimensional arrays

  /** The contents of a frame buffer, row by row. */
  function ToGrid(a: array2<Pixel>): (g: Grid<Pixel>)
    reads a
    ensures IsGrid(g, a.Length0, a.Length1)
    ensures forall i, j :: 0 <= i < a.Length0 && 0 <= j < a.Length1 ==> g[i][j] == a[i, j]
  {
    seq(a.Length0, i requires 0 <= i < a.Length0 reads a =>
      seq(a.Length1, j requires 0 <= j < a.Length1 reads a => a[i, j]))
  }

  /** Overwrites a buffer with a frame of the same size (Mat.data.set, Mat.copyTo). */
  method CopyInto(a: array2<Pixel>, g: Grid<Pixel>)
    requires IsGrid(g, a.Length0, a.Length1)
    modifies a
    ensures ToGrid(a) == g
  {
    var i := 0;
    while i < a.Length0
      invariant 0 <= i <= a.Length0
      invariant forall p, q :: 0 <= p < i && 0 <= q < a.Length1 ==> a[p, q] == g[p][q]
    {
      var j := 0;
      while j < a.Length1
        invariant 0 <= j <= a.Length1
        invariant forall p, q :: 0 <= p < i && 0 <= q < a.Length1 ==> a[p, q] == g[p][q]
        invariant forall q :: 0 <= q < j ==> a[i, q] == g[i][q]
      {
        a[i, j] := g[i][j];
        j := j + 1;
      }
      i := i + 1;
    }
    GridsEqual(ToGrid(a), g, a.Length0, a.Length1);
  }

  /** A newly allocated buffer holding the given frame. */
  method NewFrame(g: Grid<Pixel>, rows: nat, cols: nat) returns (a: array2<Pixel>)
    requires IsGrid(g, rows, cols)
    ensures fresh(a) && a.Length0 == rows && a.Length1 == cols
    ensures ToGrid(a) == g
  {
    a := new Pixel[rows, cols];
    CopyInto(a, g);
  }

  /** Mat.clone(): a new buffer with the same size and contents. */
  method Clone(a: array2<Pixel>) returns (b: array2<Pixel>)
    ensures fresh(b) && b.Length0 == a.Length0 && b.Length1 == a.Length1
    ensures ToGrid(b) == ToGrid(a)
  {
    b := NewFrame(ToGrid(a), a.Length0, a.Length1);
  }

  // ---------------------------------------------------------------------------
  // Neighbourhood averaging, the stand-in for cv.GaussianBlur.
  // Each output value is the average of the k x k window centred on it (k odd,
  // radius r = k / 2); coordinates outside the matrix are clamped to its border.

  function Clamp(v: int, n: int): (c: int)
    requires n > 0
    ensures 0 <= c < n
  {
    if v < 0 then 0 else if v >= n then n - 1 else v
  }

  /** Window element (di, dj), 0 <= di, dj < 2r+1, of the window centred on (i, j). */
  function Tap(g: Grid<byte>, i: int, j: int, r: nat, di: int, dj: int): byte
    requires NonEmpty(g)
  {
    g[Clamp(i - r + di, Rows(g))][Clamp(j - r + dj, Cols(g))]
  }

  /** Sum of the first n elements of window row di. */
  function RowSum(g: Grid<byte>, i: int, j: int, r: nat, di: int, n: nat): int
    requires NonEmpty(g)
  {
    if n == 0 then 0 else RowSum(g, i, j, r, di, n - 1) + Tap(g, i, j, r, di, n - 1)
  }

  /** Sum of the first m rows of the window. */
  function WindowSum(g: Grid<byte>, i: int, j: int, r: nat, m: nat): int
    requires NonEmpty(g)
  {
    if m == 0 then 0 else WindowSum(g, i, j, r, m - 1) + RowSum(g, i, j, r, m - 1, 2 * r + 1)
  }

  /** Every element of the window centred on (i, j) lies in lo..hi. */
  predicate WindowWithin(g: Grid<byte>, i: int, j: int, r: nat, lo: int, hi: int)
    requires NonEmpty(g)
  {
    forall di, dj :: 0 <= di < 2 * r + 1 && 0 <= dj < 2 * r + 1 ==> lo <= Tap(g, i, j, r, di, dj) <= hi
  }

  lemma {:induction false} RowSumWithin(g: Grid<byte>, i: int, j: int, r: nat, di: int, n: nat, lo: int, hi: int)
    requires NonEmpty(g)
    requires forall dj :: 0 <= dj < n ==> lo <= Tap(g, i, j, r, di, dj) <= hi
    ensures n * lo <= RowSum(g, i, j, r, di, n) <= n * hi
  {
    if n > 0 {
      RowSumWithin(g, i, j, r, di, n - 1, lo, hi);
      assert n * lo == (n - 1) * lo + lo && n * hi == (n - 1) * hi + hi;
    }
  }

  lemma {:induction false} WindowSumWithin(g: Grid<byte>, i: int, j: int, r: nat, m: nat, lo: int, hi: int)
    requires NonEmpty(g) && m <= 2 * r + 1
    requires WindowWithin(g, i, j, r, lo, hi)
    ensures m * ((2 * r + 1) * lo) <= WindowSum(g, i, j, r, m) <= m * ((2 * r + 1) * hi)
  {
    if m > 0 {
      var k := 2 * r + 1;
      WindowSumWithin(g, i, j, r, m - 1, lo, hi);
      RowSumWithin(g, i, j, r, m - 1, k, lo, hi);
      assert m * (k * lo) == (m - 1) * (k * lo) + k * lo;
      assert m * (k * hi) == (m - 1) * (k * hi) + k * hi;
    }
  }

  lemma QuotientWithin(s: int, d: int, lo: int, hi: int)
    requires d > 0 && d * lo <= s <= d * hi
    ensures lo <= s / d <= hi
  {
    var q, rem := s / d, s % d;
    assert s == d * q + rem && 0 <= rem < d;
    MultiplyStrict(d, q, lo - 1);
    MultiplyStrict(d, hi + 1, q);
  }

  /** A positive factor can be cancelled from a strict inequality. */
  lemma MultiplyStrict(d: int, a: int, b: int)
    requires d > 0
    ensures d * a > d * b ==> a > b
  {
    if a <= b {
      assert d * (b - a) >= 0;
    }
  }

  /** The window average at (i, j), rounded down. */
  function Average(g: Grid<byte>, i: int, j: int, r: nat): (v: byte)
    requires NonEmpty(g)
  {
    var k := 2 * r + 1;
    WindowSumWithin(g, i, j, r, k, 0, 255);
    QuotientWithin(WindowSum(g, i, j, r, k), k * k, 0, 255);
    WindowSum(g, i, j, r, k) / (k * k)
  }

  /** An average never leaves the range of the values it averages; in particular a
      window of one constant value averages to that value. */
  lemma AverageWithin(g: Grid<byte>, i: int, j: int, r: nat, lo: int, hi: int)
    requires NonEmpty(g) && WindowWithin(g, i, j, r, lo, hi)
    ensures lo <= Average(g, i, j, r) <= hi
  {
    var k := 2 * r + 1;
    WindowSumWithin(g, i, j, r, k, lo, hi);
    Associate(k, k, lo);
    Associate(k, k, hi);
    QuotientWithin(WindowSum(g, i, j, r, k), k * k, lo, hi);
  }

  lemma Associate(a: int, b: int, c: int)
    ensures a * (b * c) == (a * b) * c
  {
  }

  /** Blur of a single-channel matrix with a k x k kernel (cv.GaussianBlur on CV_8UC1). */
  function BlurGray(g: Grid<byte>, k: nat): (b: Grid<byte>)
    requires NonEmpty(g)
    ensures IsGrid(b, Rows(g), Cols(g))
  {
    seq(Rows(g), i requires 0 <= i < Rows(g) =>
      seq(Cols(g), j requires 0 <= j < Cols(g) => Average(g, i, j, k / 2)))
  }

  /** Blurring keeps a value wherever the whole kernel window around it holds that value. */
  lemma BlurKeepsUniformWindows(g: Grid<byte>, k: nat, i: int, j: int, v: int)
    requires NonEmpty(g) && 0 <= i < Rows(g) && 0 <= j < Cols(g)
    requires WindowWithin(g, i, j, k / 2, v, v)
    ensures BlurGray(g, k)[i][j] == v
  {
    AverageWithin(g, i, j, k / 2, v, v);
  }

  /** One channel (0 red, 1 green, 2 blue, 3 alpha) of a four-channel matrix. */
  function Channel(g: Grid<Pixel>, c: int): (ch: Grid<byte>)
    ensures |ch| == |g| && forall i :: 0 <= i < |g| ==> |ch[i]| == |g[i]|
  {
    seq(|g|, i requires 0 <= i < |g| =>
      seq(|g[i]|, j requires 0 <= j < |g[i]| =>
        var p := g[i][j];
        if c == 0 then p.r else if c == 1 then p.g else if c == 2 then p.b else p.a))
  }

  /** Blur of a four-channel matrix: every channel, alpha included, is blurred on its own. */
  function BlurPixels(g: Grid<Pixel>, k: nat): (b: Grid<Pixel>)
    requires NonEmpty(g)
    ensures IsGrid(b, Rows(g), Cols(g))
  {
    var red, green, blue, alpha := Channel(g, 0), Channel(g, 1), Channel(g, 2), Channel(g, 3);
    seq(Rows(g), i requires 0 <= i < Rows(g) =>
      seq(Cols(g), j requires 0 <= j < Cols(g) =>
        Pixel(Average(red, i, j, k / 2), Average(green, i, j, k / 2),
              Average(blue, i, j, k / 2), Average(alpha, i, j, k / 2))))
  }
}
