/**
 * The array semantics the recognizer is written against: 8-bit numpy images,
 * numpy's half-open slicing (which clamps and counts negative bounds from the
 * end), OpenCV's binary threshold, the `255 - x` inversion, and numpy's
 * `max` along an axis and `where` on a boolean vector.
 */
module Raster {

  /** One 8-bit value, as stored in an OpenCV image. */
  type Byte = x: int | 0 <= x < 256

  /** A multi-channel pixel (OpenCV's B, G, R order); never without a channel. */
  type Pixel = p: seq<Byte> | |p| > 0 witness [0]

  /**
   * A 2-D array: `rows` top to bottom, and the number of columns. The width
   * is kept apart from the rows so that an array with no rows still has the
   * width numpy records in its shape.
   */
  datatype Grid<T> = Grid(rows: seq<seq<T>>, width: nat) {
    predicate Rectangular() {
      forall i :: 0 <= i < |rows| ==> |rows[i]| == width
    }

    function Height(): nat {
      |rows|
    }

    /** No pixel at all: what OpenCV's `Mat::empty()` reports. */
    predicate IsEmpty() {
      |rows| == 0 || width == 0
    }
  }

  /** A well-formed image: every row as wide as the image. */
  type Image<T> = g: Grid<T> | g.Rectangular() witness Grid([], 0)

  type GrayImage = Image<Byte>
  type ColorImage = Image<Pixel>

  predicate SameShape<T, U>(a: Image<T>, b: Image<U>) {
    a.Height() == b.Height() && a.width == b.width
  }

  // ---------------------------------------------------------------------------
  // Slicing: a[y0:y1, x0:x1]
  // ---------------------------------------------------------------------------

  /**
   * Where a slice bound lands on an axis of length `n`: a negative bound
   * counts from the end, and the result is clamped to [0, n].
   */
  function SliceBound(i: int, n: nat): (b: nat)
    ensures b <= n
    ensures 0 <= i <= n ==> b == i
    ensures i > n ==> b == n
    ensures -(n as int) <= i < 0 ==> b == n + i
    ensures i < -(n as int) ==> b == 0
  {
    if i < 0 then (if i + n < 0 then 0 else i + n) else if i > n then n else i
  }

  /** The length of the slice `lo:hi` of an axis of length `n` (never negative). */
  function SliceLen(lo: int, hi: int, n: nat): (len: nat)
    ensures SliceBound(lo, n) + len <= n
    ensures 0 <= lo <= hi <= n ==> len == hi - lo
  {
    var a, b := SliceBound(lo, n), SliceBound(hi, n);
    if b > a then b - a else 0
  }

  /** A crop rectangle ((x_start, y_start), (x_end, y_end)), half-open at the end. */
  datatype Rect = Rect(xStart: int, yStart: int, xEnd: int, yEnd: int)

  /** The rectangle lies inside an image of the given size. */
  predicate Within(r: Rect, height: nat, width: nat) {
    0 <= r.xStart <= r.xEnd <= width && 0 <= r.yStart <= r.yEnd <= height
  }

  /**
   * `c` is `g[r.yStart:r.yEnd, r.xStart:r.xEnd]`: it has the slice's shape, and
   * each of its pixels is the pixel of `g` at the same offset from the
   * slice's top-left corner.
   */
  ghost predicate CroppedFrom<T>(c: Image<T>, g: Image<T>, r: Rect) {
    var y0, x0 := SliceBound(r.yStart, g.Height()), SliceBound(r.xStart, g.width);
    && c.Height() == SliceLen(r.yStart, r.yEnd, g.Height())
    && c.width == SliceLen(r.xStart, r.xEnd, g.width)
    && forall i, j :: 0 <= i < c.Height() && 0 <= j < c.width ==> c.rows[i][j] == g.rows[y0 + i][x0 + j]
  }

  /** numpy's `g[r.yStart:r.yEnd, r.xStart:r.xEnd]` on the first two axes. */
  function Crop<T>(g: Image<T>, r: Rect): (c: Image<T>)
    ensures CroppedFrom(c, g, r)
  {
    var y0, x0 := SliceBound(r.yStart, g.Height()), SliceBound(r.xStart, g.width);
    var h, w := SliceLen(r.yStart, r.yEnd, g.Height()), SliceLen(r.xStart, r.xEnd, g.width);
    Grid(seq(h, i requires 0 <= i < h => g.rows[y0 + i][x0..x0 + w]), w)
  }

  /** Only one image is the crop of `g` by `r`. */
  lemma CroppedFromUnique<T>(c: Image<T>, d: Image<T>, g: Image<T>, r: Rect)
    requires CroppedFrom(c, g, r) && CroppedFrom(d, g, r)
    ensures c == d
  {
    forall i | 0 <= i < c.Height() ensures c.rows[i] == d.rows[i] {
      assert forall j :: 0 <= j < c.width ==> c.rows[i][j] == d.rows[i][j];
    }
  }

  /** An in-bounds crop has exactly the rectangle's size and pixels. */
  lemma CropWithin<T>(g: Image<T>, r: Rect)
    requires Within(r, g.Height(), g.width)
    ensures Crop(g, r).Height() == r.yEnd - r.yStart && Crop(g, r).width == r.xEnd - r.xStart
    ensures forall i, j :: 0 <= i < r.yEnd - r.yStart && 0 <= j < r.xEnd - r.xStart ==>
              Crop(g, r).rows[i][j] == g.rows[r.yStart + i][r.xStart + j]
  {
  }

  /** One pixel of an in-bounds crop. */
  lemma CropAt<T>(g: Image<T>, r: Rect, i: nat, j: nat)
    requires Within(r, g.Height(), g.width)
    requires i < r.yEnd - r.yStart && j < r.xEnd - r.xStart
    ensures Crop(g, r).Height() == r.yEnd - r.yStart && Crop(g, r).width == r.xEnd - r.xStart
    ensures Crop(g, r).rows[i][j] == g.rows[r.yStart + i][r.xStart + j]
  {
  }

  /** Cropping to the whole image gives the image back. */
  lemma CropWhole<T>(g: Image<T>)
    ensures Crop(g, Rect(0, 0, g.width, g.Height())) == g
  {
    var c := Crop(g, Rect(0, 0, g.width, g.Height()));
    forall i | 0 <= i < g.Height() ensures c.rows[i] == g.rows[i] {
      assert forall j :: 0 <= j < g.width ==> c.rows[i][j] == g.rows[i][j];
    }
  }

  // ---------------------------------------------------------------------------
  // OpenCV THRESH_BINARY and inversion
  // ---------------------------------------------------------------------------

  /** Every pixel is 0 or 255. */
  predicate IsBinary(g: GrayImage) {
    forall i, j :: 0 <= i < g.Height() && 0 <= j < g.width ==> g.rows[i][j] == 0 || g.rows[i][j] == 255
  }

  /** `cv2.threshold(g, t, 255, cv2.THRESH_BINARY)[1]`. */
  function Threshold(g: GrayImage, t: int): (m: GrayImage)
    ensures SameShape(m, g)
    ensures forall i, j :: 0 <= i < m.Height() && 0 <= j < m.width ==>
              m.rows[i][j] == if g.rows[i][j] > t then 255 else 0
  {
    Grid(seq(g.Height(), i requires 0 <= i < g.Height() =>
           seq(g.width, j requires 0 <= j < g.width => if g.rows[i][j] > t then 255 else 0)),
         g.width)
  }

  /** `255 - g` on an 8-bit image (no wrap-around can happen). */
  function Invert(g: GrayImage): (m: GrayImage)
    ensures SameShape(m, g)
    ensures forall i, j :: 0 <= i < m.Height() && 0 <= j < m.width ==> m.rows[i][j] == 255 - g.rows[i][j]
  {
    Grid(seq(g.Height(), i requires 0 <= i < g.Height() =>
           seq(g.width, j requires 0 <= j < g.width => 255 - g.rows[i][j])),
         g.width)
  }

  /** A threshold mask holds only 0 and 255. */
  lemma ThresholdBinary(g: GrayImage, t: int)
    ensures IsBinary(Threshold(g, t))
  {
  }

  /** Inverting twice gives the image back. */
  lemma InvertInvolutive(g: GrayImage)
    ensures Invert(Invert(g)) == g
  {
    var m := Invert(Invert(g));
    forall i | 0 <= i < g.Height() ensures m.rows[i] == g.rows[i] {
      assert forall j :: 0 <= j < g.width ==> m.rows[i][j] == g.rows[i][j];
    }
  }

  /** The inverted mask: 0 where the source is above the cut, 255 elsewhere, nothing else. */
  lemma InvertedThreshold(g: GrayImage, t: int)
    ensures SameShape(Invert(Threshold(g, t)), g)
    ensures forall i, j :: 0 <= i < g.Height() && 0 <= j < g.width ==>
              Invert(Threshold(g, t)).rows[i][j] == if g.rows[i][j] > t then 0 else 255
    ensures IsBinary(Invert(Threshold(g, t)))
  {
  }

  /** Inversion commutes with cropping. */
  lemma InvertCrop(g: GrayImage, r: Rect)
    ensures Invert(Crop(g, r)) == Crop(Invert(g), r)
  {
    var a, b := Invert(Crop(g, r)), Crop(Invert(g), r);
    forall i | 0 <= i < a.Height() ensures a.rows[i] == b.rows[i] {
      assert forall j :: 0 <= j < a.width ==> a.rows[i][j] == b.rows[i][j];
    }
  }

  // ---------------------------------------------------------------------------
  // numpy max along an axis, where
  // ---------------------------------------------------------------------------

  /** `max(s)`: undefined (numpy raises) on an empty sequence. */
  function Max(s: seq<int>): (m: int)
    requires |s| > 0
    ensures exists k :: 0 <= k < |s| && s[k] == m
    ensures forall k :: 0 <= k < |s| ==> s[k] <= m
  {
    if |s| == 1 then s[0]
    else
      var m := Max(s[..|s| - 1]);
      if s[|s| - 1] > m then s[|s| - 1] else m
  }

  /** The maximum exceeds `t` exactly when some element does. */
  lemma MaxAbove(s: seq<int>, t: int)
    requires |s| > 0
    ensures Max(s) > t <==> exists k :: 0 <= k < |s| && s[k] > t
  {
  }

  /** The maximum of bytes is a byte. */
  lemma MaxByte(s: seq<Byte>)
    requires |s| > 0
    ensures 0 <= Max(s) < 256
  {
    var k :| 0 <= k < |s| && s[k] == Max(s);
  }

  function Column<T>(g: Image<T>, j: nat): (c: seq<T>)
    requires j < g.width
    ensures |c| == g.Height() && forall i :: 0 <= i < |c| ==> c[i] == g.rows[i][j]
  {
    seq(g.Height(), i requires 0 <= i < g.Height() => g.rows[i][j])
  }

  /** `np.max(g, 0)`: the largest value of each column; needs at least one row. */
  function ColumnMaxima(g: GrayImage): (ms: seq<int>)
    requires g.Height() > 0
    ensures |ms| == g.width
    ensures forall j :: 0 <= j < g.width ==> ms[j] == Max(Column(g, j))
  {
    seq(g.width, j requires 0 <= j < g.width => Max(Column(g, j)))
  }

  /** `np.max(g, 1)`: the largest value of each row; needs at least one column. */
  function RowMaxima(g: GrayImage): (ms: seq<int>)
    requires g.width > 0
    ensures |ms| == g.Height()
    ensures forall i :: 0 <= i < g.Height() ==> ms[i] == Max(g.rows[i])
  {
    seq(g.Height(), i requires 0 <= i < g.Height() => Max(g.rows[i]))
  }

  /** `np.max(c, 2)`: each pixel's brightest channel. */
  function ChannelMaxima(c: ColorImage): (g: GrayImage)
    ensures SameShape(g, c)
    ensures forall i, j :: 0 <= i < g.Height() && 0 <= j < g.width ==> g.rows[i][j] == Max(c.rows[i][j])
  {
    Grid(seq(c.Height(), i requires 0 <= i < c.Height() =>
           seq(c.width, j requires 0 <= j < c.width => MaxByte(c.rows[i][j]); Max(c.rows[i][j]))),
         c.width)
  }

  /** Taking channel maxima commutes with cropping. */
  lemma ChannelMaximaCrop(c: ColorImage, r: Rect)
    ensures ChannelMaxima(Crop(c, r)) == Crop(ChannelMaxima(c), r)
  {
    var a, b := ChannelMaxima(Crop(c, r)), Crop(ChannelMaxima(c), r);
    forall i | 0 <= i < a.Height() ensures a.rows[i] == b.rows[i] {
      assert forall j :: 0 <= j < a.width ==> a.rows[i][j] == b.rows[i][j];
    }
  }

  /**
   * `np.where(bits)[0]`: the indices holding `true`, in increasing order, and
   * all of them.
   */
  function Where(bits: seq<bool>): (ix: seq<nat>)
    ensures |ix| <= |bits|
    ensures forall k :: 0 <= k < |ix| ==> ix[k] < |bits| && bits[ix[k]]
  {
    if bits == [] then []
    else
      var prefix := Where(bits[..|bits| - 1]);
      if bits[|bits| - 1] then prefix + [|bits| - 1] else prefix
  }

  /** The indices come in strictly increasing order. */
  lemma {:induction false} WhereIncreasing(bits: seq<bool>)
    ensures forall k, l :: 0 <= k < l < |Where(bits)| ==> Where(bits)[k] < Where(bits)[l]
  {
    if bits != [] {
      WhereIncreasing(bits[..|bits| - 1]);
    }
  }

  /** Every `true` index is reported. */
  lemma {:induction false} WhereComplete(bits: seq<bool>)
    ensures forall i :: 0 <= i < |bits| && bits[i] ==> i in Where(bits)
  {
    if bits != [] {
      var n := |bits| - 1;
      WhereComplete(bits[..n]);
      assert forall i :: 0 <= i < n ==> bits[..n][i] == bits[i];
    }
  }

  /** The first index `where` reports is the least `true` index, the last the greatest. */
  lemma WhereEnds(bits: seq<bool>, i: nat)
    requires i < |bits| && bits[i]
    ensures |Where(bits)| > 0
    ensures Where(bits)[0] <= i <= Where(bits)[|Where(bits)| - 1]
  {
    WhereIncreasing(bits);
    WhereComplete(bits);
    var ix := Where(bits);
    var k :| 0 <= k < |ix| && ix[k] == i;
    assert k == 0 || ix[0] < ix[k];
    assert k == |ix| - 1 || ix[k] < ix[|ix| - 1];
  }
}
