/** The compositing functions of js/face-swap.js: cutting a soft-masked face out of
    the reference image, resizing it to a detected face, blending it into a frame,
    and the swap that chains them behind a one-time cache of the reference face. */
module FaceSwap {
  import opened Imaging

  /** A face and its blend mask (0 = keep the frame, 255 = show the face). */
  datatype FaceAsset = FaceAsset(face: Grid<Pixel>, mask: Grid<byte>)

  /** The face is a non-empty matrix and the mask has its size. */
  predicate Consistent(asset: FaceAsset) {
    NonEmpty(asset.face) && IsGrid(asset.mask, Rows(asset.face), Cols(asset.face))
  }

  /** Kernel size of the blur that feathers the mask edges. */
  const FeatherKernel := 15

  // ---------------------------------------------------------------------------
  // The elliptical mask

  /** Pixel (i, j) of a rows x cols mask lies in the filled ellipse centred on
      (cols/2, rows/2) with semi-axes 0.4*cols and 0.45*rows. Centre and axes are
      whole pixels (OpenCV's points and sizes carry integers), so each is rounded
      down; the ellipse equation dx^2/ax^2 + dy^2/ay^2 <= 1 is multiplied out, and the
      bounding box |dx| <= ax, |dy| <= ay keeps a semi-axis of 0 (masks of one or two
      rows or columns) a line or a point rather than a whole row or column. */
  predicate InEllipse(i: int, j: int, rows: nat, cols: nat) {
    var dx, dy := j - cols / 2, i - rows / 2;
    var ax, ay := cols * 2 / 5, rows * 9 / 20;
    && -ax <= dx <= ax && -ay <= dy <= ay
    && (dx * dx) * (ay * ay) + (dy * dy) * (ax * ax) <= (ax * ax) * (ay * ay)
  }

  /** The mask before feathering: cv.Mat.zeros followed by a filled cv.ellipse of value 255. */
  function EllipseMask(rows: nat, cols: nat): (m: Grid<byte>)
    ensures IsGrid(m, rows, cols)
    ensures forall i, j :: 0 <= i < rows && 0 <= j < cols ==>
      (m[i][j] == 255 <==> InEllipse(i, j, rows, cols)) && (m[i][j] == 0 <==> !InEllipse(i, j, rows, cols))
  {
    seq(rows, i requires 0 <= i < rows =>
      seq(cols, j requires 0 <= j < cols => if InEllipse(i, j, rows, cols) then 255 else 0))
  }

  /** The centre pixel of a non-empty mask is opaque. */
  lemma EllipseCoversCentre(rows: nat, cols: nat)
    requires rows > 0 && cols > 0
    ensures EllipseMask(rows, cols)[rows / 2][cols / 2] == 255
  {
    var ax, ay := cols * 2 / 5, rows * 9 / 20;
    assert (ax * ax) * (ay * ay) >= 0 by { NonNegativeProduct(ax * ax, ay * ay); }
  }

  /** Every opaque pixel of the mask lies within the central box of half-width
      0.4*cols and half-height 0.45*rows. On every size this is the bounding box of
      InEllipse; from 3 x 3 on the ellipse equation implies it (EllipseAxes). */
  lemma EllipseWithinAxes(rows: nat, cols: nat, i: int, j: int)
    requires 0 <= i < rows && 0 <= j < cols
    requires EllipseMask(rows, cols)[i][j] == 255
    ensures -(cols * 2 / 5) <= j - cols / 2 <= cols * 2 / 5
    ensures -(rows * 9 / 20) <= i - rows / 2 <= rows * 9 / 20
  {
  }

  /** From 3 x 3 on both semi-axes are positive and the ellipse equation alone decides
      membership: the bounding box adds nothing. */
  lemma EllipseEquationSuffices(rows: nat, cols: nat, i: int, j: int)
    requires rows >= 3 && cols >= 3
    ensures var dx, dy, ax, ay := j - cols / 2, i - rows / 2, cols * 2 / 5, rows * 9 / 20;
      InEllipse(i, j, rows, cols) <==> (dx * dx) * (ay * ay) + (dy * dy) * (ax * ax) <= (ax * ax) * (ay * ay)
  {
    var dx, dy, ax, ay := j - cols / 2, i - rows / 2, cols * 2 / 5, rows * 9 / 20;
    if (dx * dx) * (ay * ay) + (dy * dy) * (ax * ax) <= (ax * ax) * (ay * ay) {
      EllipseAxes(dx, dy, ax, ay);
    }
  }

  /** A point of the ellipse with semi-axes ax, ay lies within ax and ay of its centre. */
  lemma EllipseAxes(dx: int, dy: int, ax: int, ay: int)
    requires ax > 0 && ay > 0
    requires (dx * dx) * (ay * ay) + (dy * dy) * (ax * ax) <= (ax * ax) * (ay * ay)
    ensures -ax <= dx <= ax && -ay <= dy <= ay
  {
    SquareNonNegative(dx);
    SquareNonNegative(dy);
    SquarePositive(ax);
    SquarePositive(ay);
    TermsBelowProduct(dx * dx, dy * dy, ax * ax, ay * ay);
    SquareBound(dx, ax);
    SquareBound(dy, ay);
  }

  lemma SquareNonNegative(d: int)
    ensures d * d >= 0
  {
  }

  lemma SquarePositive(d: int)
    requires d > 0
    ensures d * d > 0
  {
  }

  /** X/P + Y/Q <= 1 with every term non-negative bounds X by P and Y by Q. */
  lemma TermsBelowProduct(x: int, y: int, p: int, q: int)
    requires x >= 0 && y >= 0 && p > 0 && q > 0
    requires x * q + y * p <= p * q
    ensures x <= p && y <= q
  {
    NonNegativeProduct(y, p);
    NonNegativeProduct(x, q);
    CancelPositive(q, x, p);
    CancelPositive(p, y, q);
  }

  lemma NonNegativeProduct(a: int, b: int)
    requires a >= 0 && b >= 0
    ensures a * b >= 0
  {
  }

  lemma CancelPositive(q: int, x: int, p: int)
    requires q > 0 && x * q <= p * q
    ensures x <= p
  {
  }

  lemma SquareBound(d: int, a: int)
    requires a >= 0 && d * d <= a * a
    ensures -a <= d <= a
  {
  }

  /** The mask with its edges softened by a 15 x 15 blur. */
  function Feather(mask: Grid<byte>): (f: Grid<byte>)
    requires NonEmpty(mask)
    ensures IsGrid(f, Rows(mask), Cols(mask))
  {
    BlurGray(mask, FeatherKernel)
  }

  /** Feathering leaves the mask fully opaque where the whole blur window lies in the
      ellipse and fully transparent where it lies wholly outside. */
  lemma FeatherKeepsCoreAndOutside(rows: nat, cols: nat, i: int, j: int, v: int)
    requires rows > 0 && cols > 0 && 0 <= i < rows && 0 <= j < cols
    requires v == 0 || v == 255
    requires WindowWithin(EllipseMask(rows, cols), i, j, FeatherKernel / 2, v, v)
    ensures Feather(EllipseMask(rows, cols))[i][j] == v
  {
    BlurKeepsUniformWindows(EllipseMask(rows, cols), FeatherKernel, i, j, v);
  }

  // ---------------------------------------------------------------------------
  // extractFaceFromUploadedImage

  /** Cuts the rectangle out of the reference image and pairs it with a feathered
      elliptical mask of the same size. A rectangle that is not a non-empty region of
      the image makes OpenCV throw. */
  function ExtractFace(image: Grid<Pixel>, rect: Rect): (r: Result<FaceAsset>)
    requires Rectangular(image)
    ensures r.Ok? <==> Fits(rect, Rows(image), Cols(image))
    ensures r.Ok? ==> Consistent(r.value)
    ensures r.Ok? ==> IsGrid(r.value.face, rect.height, rect.width) && IsGrid(r.value.mask, rect.height, rect.width)
    ensures r.Ok? ==> forall i, j :: 0 <= i < rect.height && 0 <= j < rect.width ==>
      r.value.face[i][j] == image[rect.y + i][rect.x + j]
    ensures r.Ok? ==> r.value.mask == Feather(EllipseMask(rect.height, rect.width))
  {
    if !Fits(rect, Rows(image), Cols(image)) then Err(RoiOutOfBounds)
    else
      var face := Crop(image, rect);
      var mask := EllipseMask(rect.height, rect.width);
      Ok(FaceAsset(face, Feather(mask)))
  }

  // ---------------------------------------------------------------------------
  // alignFace

  lemma ScaleBelow(i: int, n: int, m: int)
    requires 0 <= i < n && m > 0
    ensures 0 <= i * m / n < m
  {
    NonNegativeProduct(i, m);
    assert i * m < n * m by { assert n * m - i * m == (n - i) * m; NonNegativeProduct(n - i - 1, m); }
    var q, rem := i * m / n, i * m % n;
    assert i * m == n * q + rem && 0 <= rem < n;
    MultiplyStrict(n, m, q);
  }

  lemma DivideOwnFactor(i: int, n: int)
    requires n > 0
    ensures i * n / n == i
  {
    var q, r := i * n / n, i * n % n;
    assert n * q + r == n * i && 0 <= r < n;
    assert n * (i - 1) == n * i - n && n * (i + 1) == n * i + n;
    MultiplyStrict(n, q, i - 1);
    MultiplyStrict(n, i + 1, q);
  }

  /** Row (or column) of the source that output row i of n samples, for a source of m rows. */
  function SourceIndex(i: int, n: int, m: int): (k: int)
    requires 0 <= i < n && m > 0
    ensures 0 <= k < m
    ensures n == m ==> k == i
  {
    ScaleBelow(i, n, m);
    if n == m then DivideOwnFactor(i, n); i * m / n else i * m / n
  }

  /** cv.resize to rows x cols. The model samples the nearest source pixel. */
  function Resize<T>(g: Grid<T>, rows: int, cols: int): (out: Grid<T>)
    requires NonEmpty(g) && rows > 0 && cols > 0
    ensures IsGrid(out, rows, cols)
  {
    seq(rows, i requires 0 <= i < rows =>
      seq(cols, j requires 0 <= j < cols =>
        g[SourceIndex(i, rows, Rows(g))][SourceIndex(j, cols, Cols(g))]))
  }

  /** Resizing to the size a matrix already has returns it unchanged. */
  lemma ResizeToOwnSize<T>(g: Grid<T>)
    requires NonEmpty(g)
    ensures Resize(g, Rows(g), Cols(g)) == g
  {
    var out := Resize(g, Rows(g), Cols(g));
    forall i, j | 0 <= i < Rows(g) && 0 <= j < Cols(g)
      ensures out[i][j] == g[i][j]
    {
      assert SourceIndex(i, Rows(g), Rows(g)) == i && SourceIndex(j, Cols(g), Cols(g)) == j;
    }
    GridsEqual(out, g, Rows(g), Cols(g));
  }

  /** Resizes the face and the mask to the target rectangle's width x height. OpenCV
      throws for an empty source or a target size without area. */
  function AlignFace(asset: FaceAsset, rect: Rect): (r: Result<FaceAsset>)
    ensures r.Ok? <==> rect.width > 0 && rect.height > 0 && NonEmpty(asset.face) && NonEmpty(asset.mask)
    ensures r.Ok? ==> Consistent(r.value)
    ensures r.Ok? ==> IsGrid(r.value.face, rect.height, rect.width) && IsGrid(r.value.mask, rect.height, rect.width)
  {
    if rect.width <= 0 || rect.height <= 0 || !NonEmpty(asset.face) || !NonEmpty(asset.mask) then Err(EmptyInput)
    else Ok(FaceAsset(Resize(asset.face, rect.height, rect.width), Resize(asset.mask, rect.height, rect.width)))
  }

  /** Aligning a consistent face to a rectangle of its own size changes nothing. */
  lemma AlignToOwnSize(asset: FaceAsset, rect: Rect)
    requires Consistent(asset)
    requires rect.height == Rows(asset.face) && rect.width == Cols(asset.face)
    ensures AlignFace(asset, rect) == Ok(asset)
  {
    ResizeToOwnSize(asset.face);
    ResizeToOwnSize(asset.mask);
  }

  // ---------------------------------------------------------------------------
  // blendFaces

  lemma MixBounds(fg: int, bg: int, m: int)
    requires 0 <= fg < 256 && 0 <= bg < 256 && 0 <= m < 256
    ensures var n := fg * m + bg * (255 - m);
      (fg <= bg ==> 255 * fg <= n <= 255 * bg) && (bg <= fg ==> 255 * bg <= n <= 255 * fg)
  {
    var n := fg * m + bg * (255 - m);
    assert n - 255 * fg == (bg - fg) * (255 - m);
    assert n - 255 * bg == (fg - bg) * m;
    if fg <= bg {
      NonNegativeProduct(bg - fg, 255 - m);
      NonNegativeProduct(bg - fg, m);
    } else {
      NonNegativeProduct(fg - bg, 255 - m);
      NonNegativeProduct(fg - bg, m);
    }
  }

  /** One channel of fg*w + bg*(1-w) with w = m/255, rounded to the nearest integer
      (no value lies half-way, as 255 is odd). */
  function Mix(fg: byte, bg: byte, m: byte): (v: byte)
    ensures m == 255 ==> v == fg
    ensures m == 0 ==> v == bg
    ensures fg <= bg ==> fg <= v <= bg
    ensures bg <= fg ==> bg <= v <= fg
    ensures -127 <= 255 * v - (fg * m + bg * (255 - m)) <= 127
  {
    MixBounds(fg, bg, m);
    (fg * m + bg * (255 - m) + 127) / 255
  }

  /** Blend of one face pixel over one frame pixel under mask value m. The mask is
      widened to four channels by a gray-to-RGBA conversion, which sets the alpha
      channel of the weights to 255, so the alpha channel takes the face's value. */
  function BlendPixel(fg: Pixel, m: byte, bg: Pixel): Pixel {
    Pixel(Mix(fg.r, bg.r, m), Mix(fg.g, bg.g, m), Mix(fg.b, bg.b, m), Mix(fg.a, bg.a, 255))
  }

  /** Face and mask have the rectangle's size, and the rectangle is a non-empty region
      of a rows x cols frame: otherwise blendFaces throws. */
  predicate BlendFits(rows: int, cols: int, face: Grid<Pixel>, mask: Grid<byte>, rect: Rect) {
    Fits(rect, rows, cols) && IsGrid(face, rect.height, rect.width) && IsGrid(mask, rect.height, rect.width)
  }

  /** The frame with the rectangle replaced by the masked blend of the face over it. */
  function Blend(frame: Grid<Pixel>, face: Grid<Pixel>, mask: Grid<byte>, rect: Rect): (out: Grid<Pixel>)
    requires Rectangular(frame) && BlendFits(Rows(frame), Cols(frame), face, mask, rect)
    ensures IsGrid(out, Rows(frame), Cols(frame))
  {
    seq(Rows(frame), i requires 0 <= i < Rows(frame) =>
      seq(Cols(frame), j requires 0 <= j < Cols(frame) =>
        if InRect(rect, i, j)
        then BlendPixel(face[i - rect.y][j - rect.x], mask[i - rect.y][j - rect.x], frame[i][j])
        else frame[i][j]))
  }

  /** Blending never changes a pixel outside the rectangle. */
  lemma BlendKeepsOutside(frame: Grid<Pixel>, face: Grid<Pixel>, mask: Grid<byte>, rect: Rect)
    requires Rectangular(frame) && BlendFits(Rows(frame), Cols(frame), face, mask, rect)
    ensures forall i, j :: 0 <= i < Rows(frame) && 0 <= j < Cols(frame) && !InRect(rect, i, j) ==>
      Blend(frame, face, mask, rect)[i][j] == frame[i][j]
  {
  }

  /** Inside the rectangle: mask 255 shows the face pixel; mask 0 shows the frame's
      colour (the alpha channel still comes from the face); and every colour channel
      lies between the face's and the frame's. */
  lemma BlendInside(frame: Grid<Pixel>, face: Grid<Pixel>, mask: Grid<byte>, rect: Rect, i: int, j: int)
    requires Rectangular(frame) && BlendFits(Rows(frame), Cols(frame), face, mask, rect)
    requires InRect(rect, i, j)
    ensures var out, fg, bg, m := Blend(frame, face, mask, rect)[i][j], face[i - rect.y][j - rect.x], frame[i][j], mask[i - rect.y][j - rect.x];
      && (m == 255 ==> out == fg)
      && (m == 0 ==> out == Pixel(bg.r, bg.g, bg.b, fg.a))
      && Between(out.r, fg.r, bg.r) && Between(out.g, fg.g, bg.g) && Between(out.b, fg.b, bg.b)
      && out.a == fg.a
  {
  }

  predicate Between(v: int, a: int, b: int) {
    (a <= v <= b) || (b <= v <= a)
  }

  /** blendFaces: clones the frame, then overwrites the rectangle with the blend. */
  method BlendFaces(target: array2<Pixel>, face: Grid<Pixel>, mask: Grid<byte>, rect: Rect)
    returns (result: Option<array2<Pixel>>)
    ensures result.Some? <==> BlendFits(target.Length0, target.Length1, face, mask, rect)
    ensures result.Some? ==> result.value.Length0 == target.Length0 && result.value.Length1 == target.Length1
    ensures result.Some? ==> fresh(result.value) && ToGrid(result.value) == Blend(ToGrid(target), face, mask, rect)
  {
    if !BlendFits(target.Length0, target.Length1, face, mask, rect) {
      return None;
    }
    var out := Clone(target);
    var i := 0;
    while i < rect.height
      invariant 0 <= i <= rect.height
      invariant forall p, q :: 0 <= p < out.Length0 && 0 <= q < out.Length1 ==>
        out[p, q] == if InRect(rect, p, q) && p < rect.y + i
                     then BlendPixel(face[p - rect.y][q - rect.x], mask[p - rect.y][q - rect.x], target[p, q])
                     else target[p, q]
    {
      var j := 0;
      while j < rect.width
        invariant 0 <= j <= rect.width
        invariant forall p, q :: 0 <= p < out.Length0 && 0 <= q < out.Length1 ==>
          out[p, q] == if InRect(rect, p, q) && (p < rect.y + i || (p == rect.y + i && q < rect.x + j))
                       then BlendPixel(face[p - rect.y][q - rect.x], mask[p - rect.y][q - rect.x], target[p, q])
                       else target[p, q]
      {
        out[rect.y + i, rect.x + j] := BlendPixel(face[i][j], mask[i][j], out[rect.y + i, rect.x + j]);
        j := j + 1;
      }
      i := i + 1;
    }
    GridsEqual(ToGrid(out), Blend(ToGrid(target), face, mask, rect), out.Length0, out.Length1);
    return Some(out);
  }

  // ---------------------------------------------------------------------------
  // swapFaces

  /** The frame swapFaces returns and the reference-face cache it leaves behind. */
  datatype SwapOutcome = SwapOutcome(frame: Grid<Pixel>, cache: Option<FaceAsset>)

  /** What swapFaces computes from the cache, the reference image, the detector's
      rectangles on the reference image, the frame and the rectangles detected in it.
      Every failure, thrown or returned, gives back the frame unchanged. */
  function Swap(cache: Option<FaceAsset>, sourceImage: Grid<Pixel>, sourceFaces: seq<Rect>,
                frame: Grid<Pixel>, targetFaces: seq<Rect>): (out: SwapOutcome)
    requires Rectangular(sourceImage) && Rectangular(frame)
    ensures IsGrid(out.frame, Rows(frame), Cols(frame))
  {
    if |targetFaces| == 0 then SwapOutcome(frame, cache)
    else
      var asset :=
        if cache.Some? then Ok(cache.value)
        else if |sourceFaces| == 0 then Err(NoSourceFace)
        else ExtractFace(sourceImage, sourceFaces[0]);
      if asset.Err? then SwapOutcome(frame, cache)
      else
        var rect := targetFaces[0];
        var aligned := AlignFace(asset.value, rect);
        if aligned.Err? || !BlendFits(Rows(frame), Cols(frame), aligned.value.face, aligned.value.mask, rect)
        then SwapOutcome(frame, Some(asset.value))
        else SwapOutcome(Blend(frame, aligned.value.face, aligned.value.mask, rect), Some(asset.value))
  }

  /** With no detected target face the frame comes back unchanged and the cache is untouched. */
  lemma SwapWithoutTargets(cache: Option<FaceAsset>, sourceImage: Grid<Pixel>, sourceFaces: seq<Rect>, frame: Grid<Pixel>)
    requires Rectangular(sourceImage) && Rectangular(frame)
    ensures Swap(cache, sourceImage, sourceFaces, frame, []) == SwapOutcome(frame, cache)
  {
  }

  /** Only the first target rectangle is ever composited: no pixel outside it changes. */
  lemma SwapTouchesOnlyFirstTarget(cache: Option<FaceAsset>, sourceImage: Grid<Pixel>, sourceFaces: seq<Rect>,
                                   frame: Grid<Pixel>, targetFaces: seq<Rect>)
    requires Rectangular(sourceImage) && Rectangular(frame)
    ensures var out := Swap(cache, sourceImage, sourceFaces, frame, targetFaces).frame;
      forall i, j :: 0 <= i < Rows(frame) && 0 <= j < Cols(frame) && (|targetFaces| == 0 || !InRect(targetFaces[0], i, j)) ==>
        out[i][j] == frame[i][j]
  {
    if |targetFaces| > 0 {
      var asset :=
        if cache.Some? then Ok(cache.value)
        else if |sourceFaces| == 0 then Err(NoSourceFace)
        else ExtractFace(sourceImage, sourceFaces[0]);
      if asset.Ok? {
        var aligned := AlignFace(asset.value, targetFaces[0]);
        if aligned.Ok? && BlendFits(Rows(frame), Cols(frame), aligned.value.face, aligned.value.mask, targetFaces[0]) {
          BlendKeepsOutside(frame, aligned.value.face, aligned.value.mask, targetFaces[0]);
        }
      }
    }
  }

  /** Rectangles after the first one make no difference. */
  lemma SwapUsesFirstTargetOnly(cache: Option<FaceAsset>, sourceImage: Grid<Pixel>, sourceFaces: seq<Rect>,
                                frame: Grid<Pixel>, targetFaces: seq<Rect>)
    requires Rectangular(sourceImage) && Rectangular(frame) && |targetFaces| > 0
    ensures Swap(cache, sourceImage, sourceFaces, frame, targetFaces) == Swap(cache, sourceImage, sourceFaces, frame, targetFaces[..1])
  {
  }

  /** Once the cache holds a face it is kept, and neither the reference image nor the
      rectangles found in it are looked at again. */
  lemma SwapReusesCache(asset: FaceAsset, sourceImage: Grid<Pixel>, sourceFaces: seq<Rect>,
                        otherImage: Grid<Pixel>, otherFaces: seq<Rect>, frame: Grid<Pixel>, targetFaces: seq<Rect>)
    requires Rectangular(sourceImage) && Rectangular(otherImage) && Rectangular(frame)
    ensures Swap(Some(asset), sourceImage, sourceFaces, frame, targetFaces).cache == Some(asset)
    ensures Swap(Some(asset), sourceImage, sourceFaces, frame, targetFaces) == Swap(Some(asset), otherImage, otherFaces, frame, targetFaces)
  {
  }

  /** With an empty cache: no face in the reference image, or a reference rectangle
      that cannot be cut out, gives back the frame and leaves the cache empty; otherwise
      the first reference face is extracted and cached. */
  lemma SwapFillsCacheOnce(sourceImage: Grid<Pixel>, sourceFaces: seq<Rect>, frame: Grid<Pixel>, targetFaces: seq<Rect>)
    requires Rectangular(sourceImage) && Rectangular(frame) && |targetFaces| > 0
    ensures var out := Swap(None, sourceImage, sourceFaces, frame, targetFaces);
      if |sourceFaces| == 0 || !Fits(sourceFaces[0], Rows(sourceImage), Cols(sourceImage))
      then out == SwapOutcome(frame, None)
      else out.cache == Some(ExtractFace(sourceImage, sourceFaces[0]).value) && Consistent(out.cache.value)
  {
  }

  /** A first target rectangle outside the frame, or without area, gives back the frame. */
  lemma SwapWithBadTarget(cache: Option<FaceAsset>, sourceImage: Grid<Pixel>, sourceFaces: seq<Rect>,
                          frame: Grid<Pixel>, targetFaces: seq<Rect>)
    requires Rectangular(sourceImage) && Rectangular(frame) && |targetFaces| > 0
    requires !Fits(targetFaces[0], Rows(frame), Cols(frame))
    ensures Swap(cache, sourceImage, sourceFaces, frame, targetFaces).frame == frame
  {
  }

  /** With a cached face and a first target rectangle inside the frame, the rectangle is
      blended with the cached face and mask resized to its size. */
  lemma SwapBlendsCachedFace(asset: FaceAsset, sourceImage: Grid<Pixel>, sourceFaces: seq<Rect>,
                             frame: Grid<Pixel>, targetFaces: seq<Rect>)
    requires Rectangular(sourceImage) && Rectangular(frame) && |targetFaces| > 0
    requires Consistent(asset) && Fits(targetFaces[0], Rows(frame), Cols(frame))
    ensures var rect := targetFaces[0];
      Swap(Some(asset), sourceImage, sourceFaces, frame, targetFaces).frame
        == Blend(frame, Resize(asset.face, rect.height, rect.width), Resize(asset.mask, rect.height, rect.width), rect)
  {
  }

  // ---------------------------------------------------------------------------
  // The swap as the source is written (see the Findings in README.md)

  /** extractFaceFromUploadedImage as written: the semi-axes are built as a point where
      the ellipse call takes a size, so the binding rejects the argument and every
      extraction that gets past the crop throws. */
  function ExtractFaceAsWritten(image: Grid<Pixel>, rect: Rect): (r: Result<FaceAsset>)
    requires Rectangular(image)
    ensures r.Err?
    ensures r.fault == RoiOutOfBounds <==> !Fits(rect, Rows(image), Cols(image))
  {
    if !Fits(rect, Rows(image), Cols(image)) then Err(RoiOutOfBounds) else Err(ArgumentType)
  }

  /** blendFaces as written: the constant (1, 1, 1, 1) is handed to the subtraction
      where the binding takes a matrix, so every blend that gets past the region of
      interest throws. */
  function BlendAsWritten(frame: Grid<Pixel>, face: Grid<Pixel>, mask: Grid<byte>, rect: Rect): (r: Result<Grid<Pixel>>)
    requires Rectangular(frame)
    ensures r.Err?
    ensures r.fault == RoiOutOfBounds <==> !Fits(rect, Rows(frame), Cols(frame))
  {
    if !Fits(rect, Rows(frame), Cols(frame)) then Err(RoiOutOfBounds) else Err(ArgumentType)
  }

  /** swapFaces over the two steps as written; every other step is as in Swap. */
  function SwapAsWritten(cache: Option<FaceAsset>, sourceImage: Grid<Pixel>, sourceFaces: seq<Rect>,
                         frame: Grid<Pixel>, targetFaces: seq<Rect>): (out: SwapOutcome)
    requires Rectangular(sourceImage) && Rectangular(frame)
    ensures IsGrid(out.frame, Rows(frame), Cols(frame))
    ensures cache.Some? ==> out.cache == cache
  {
    if |targetFaces| == 0 then SwapOutcome(frame, cache)
    else
      var asset :=
        if cache.Some? then Ok(cache.value)
        else if |sourceFaces| == 0 then Err(NoSourceFace)
        else ExtractFaceAsWritten(sourceImage, sourceFaces[0]);
      if asset.Err? then SwapOutcome(frame, cache)
      else
        var rect := targetFaces[0];
        var aligned := AlignFace(asset.value, rect);
        if aligned.Err? then SwapOutcome(frame, Some(asset.value))
        else
          var blended := BlendAsWritten(frame, aligned.value.face, aligned.value.mask, rect);
          SwapOutcome(if blended.Ok? then blended.value else frame, Some(asset.value))
  }

  /** As written, the reference face is never cached (so it is looked for again on
      every frame) and no frame is ever changed. */
  lemma SwapAsWrittenNeverSwaps(cache: Option<FaceAsset>, sourceImage: Grid<Pixel>, sourceFaces: seq<Rect>,
                                frame: Grid<Pixel>, targetFaces: seq<Rect>)
    requires Rectangular(sourceImage) && Rectangular(frame)
    ensures SwapAsWritten(cache, sourceImage, sourceFaces, frame, targetFaces).frame == frame
    ensures cache == None ==> SwapAsWritten(cache, sourceImage, sourceFaces, frame, targetFaces) == SwapOutcome(frame, None)
  {
  }

  /** Any reference rectangle inside the reference image shows the first discrepancy:
      Swap caches the extracted face, the code as written leaves the cache empty. */
  lemma ExtractionDiscrepancy(sourceImage: Grid<Pixel>, sourceFaces: seq<Rect>, frame: Grid<Pixel>, targetFaces: seq<Rect>)
    requires Rectangular(sourceImage) && Rectangular(frame) && |targetFaces| > 0
    requires |sourceFaces| > 0 && Fits(sourceFaces[0], Rows(sourceImage), Cols(sourceImage))
    ensures Swap(None, sourceImage, sourceFaces, frame, targetFaces).cache.Some?
    ensures SwapAsWritten(None, sourceImage, sourceFaces, frame, targetFaces).cache == None
  {
  }

  /** A cached opaque white 1 x 1 face over a black 1 x 1 frame shows the second
      discrepancy: Swap paints the pixel white, the code as written returns the frame. */
  lemma BlendDiscrepancy()
    ensures Swap(Some(WhiteDot()), BlackDot(), [], BlackDot(), [Rect(0, 0, 1, 1)]).frame == WhiteDot().face
    ensures SwapAsWritten(Some(WhiteDot()), BlackDot(), [], BlackDot(), [Rect(0, 0, 1, 1)]).frame == BlackDot()
  {
    var asset, frame, rect := WhiteDot(), BlackDot(), Rect(0, 0, 1, 1);
    SwapBlendsCachedFace(asset, frame, [], frame, [rect]);
    ResizeToOwnSize(asset.face);
    ResizeToOwnSize(asset.mask);
    BlendOnePixel(frame[0][0], asset.face[0][0], 255);
    SwapAsWrittenNeverSwaps(Some(asset), frame, [], frame, [rect]);
  }

  /** An opaque white 1 x 1 face under a fully opaque mask. */
  function WhiteDot(): (asset: FaceAsset)
    ensures Consistent(asset) && Rows(asset.face) == 1 && Cols(asset.face) == 1
  {
    FaceAsset([[Pixel(255, 255, 255, 255)]], [[255]])
  }

  /** An opaque black 1 x 1 frame. */
  function BlackDot(): (frame: Grid<Pixel>)
    ensures IsGrid(frame, 1, 1)
  {
    [[Pixel(0, 0, 0, 255)]]
  }

  lemma BlendOnePixel(bg: Pixel, fg: Pixel, m: byte)
    ensures Blend([[bg]], [[fg]], [[m]], Rect(0, 0, 1, 1)) == [[BlendPixel(fg, m, bg)]]
  {
    var out := Blend([[bg]], [[fg]], [[m]], Rect(0, 0, 1, 1));
    assert out[0][0] == BlendPixel(fg, m, bg);
    GridsEqual(out, [[BlendPixel(fg, m, bg)]], 1, 1);
  }

  /** Owner of the module-level cache sourceFace / sourceMask (always set together). */
  class FaceSwapper {
    var cache: Option<FaceAsset>

    constructor ()
      ensures cache == None
    {
      cache := None;
    }

    /** swapFaces: returns a new frame; fills the cache from the first face of the
        reference image when it is empty; composites only the first target face. */
    method SwapFaces(sourceImage: Grid<Pixel>, sourceFaces: seq<Rect>, target: array2<Pixel>, targetFaces: seq<Rect>)
      returns (result: array2<Pixel>)
      requires Rectangular(sourceImage)
      modifies this
      ensures fresh(result) && result.Length0 == target.Length0 && result.Length1 == target.Length1
      ensures var s := Swap(old(cache), sourceImage, sourceFaces, ToGrid(target), targetFaces);
        ToGrid(result) == s.frame && cache == s.cache
    {
      if |targetFaces| == 0 {
        result := Clone(target);
        return;
      }
      if cache.None? {
        if |sourceFaces| == 0 {
          result := Clone(target);
          return;
        }
        var extracted := ExtractFace(sourceImage, sourceFaces[0]);
        if extracted.Err? {
          result := Clone(target);
          return;
        }
        cache := Some(extracted.value);
      }
      var rect := targetFaces[0];
      var aligned := AlignFace(cache.value, rect);
      if aligned.Err? {
        result := Clone(target);
        return;
      }
      var blended := BlendFaces(target, aligned.value.face, aligned.value.mask, rect);
      if blended.None? {
        result := Clone(target);
        return;
      }
      result := blended.value;
    }
  }
}
