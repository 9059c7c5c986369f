/**
 * The recognizer of gtraid/image_reco.py: resolution-profile lookup, the
 * hits-window crop, hit-box filtering, the four zone crops, the name and
 * damage masks and their text clean-up, the auto-crop primitive, and the
 * per-screenshot loop that assembles hit records.
 *
 * What OpenCV and Tesseract compute is taken as given (`Library`): the gray
 * value of a pixel, the bounding boxes `findContours` finds in a mask, and the
 * text the OCR engine reads from an image.
 */
module ImageReco {
  import opened Wrappers
  import opened Strings
  import opened Raster

  /** The exceptions the recognizer can raise. */
  datatype Error =
    | MissingResolution(key: string)  // KeyError from DimensionsFile.get_crop_rects
    | EmptySource                     // OpenCV's `!_src.empty()` assertion in cvtColor
    | EmptyReduction                  // numpy's ValueError for a max over a zero-length axis
    | EmptyWrite                      // OpenCV's `!img.empty()` assertion in imwrite
    | ChannelCount(channels: nat)     // OpenCV's channel check in cvtColor (BGR2RGB wants 3 or 4)

  /** The library calls left abstract. */
  datatype Library = Library(
    luma: Pixel -> Byte,                // cvtColor(BGR2GRAY), pixel by pixel
    contours: GrayImage -> seq<Box>,    // boundingRect of each external contour of a mask
    readName: GrayImage -> string,      // image_to_string(img, lang="kor+eng")
    readDigits: GrayImage -> string)    // image_to_string(img)

  // ---------------------------------------------------------------------------
  // Resolution profiles (DimensionsFile)
  // ---------------------------------------------------------------------------

  /** The `hit_image` entry of a profile: the hit-box minimums and the four zones. */
  datatype HitImageGeometry = HitImageGeometry(
    minWidth: int, minHeight: int,
    nameRect: Rect, partyRect: Rect, damageRect: Rect, bossRect: Rect)

  /** One resolution's entry in dimensions.yaml. */
  datatype Profile = Profile(hitsWindow: Rect, hitImage: HitImageGeometry)

  /** The key a resolution is stored under: `f"w{width}h{height}"`. */
  function ResolutionKey(width: nat, height: nat): string {
    "w" + NatToString(width) + "h" + NatToString(height)
  }

  /** In a key, the width's digits run from position 1 up to the 'h'. */
  lemma ResolutionKeyDigits(width: nat, height: nat)
    ensures var k, a := ResolutionKey(width, height), NatToString(width);
      && |k| > 1 + |a| && k[1 + |a|] == 'h' && !IsDigit(k[1 + |a|])
      && (forall i :: 1 <= i < 1 + |a| ==> IsDigit(k[i]))
      && k[1..1 + |a|] == a && k[2 + |a|..] == NatToString(height)
  {
  }

  /** Distinct resolutions have distinct keys. */
  lemma ResolutionKeyInjective(w1: nat, h1: nat, w2: nat, h2: nat)
    requires ResolutionKey(w1, h1) == ResolutionKey(w2, h2)
    ensures w1 == w2 && h1 == h2
  {
    ResolutionKeyDigits(w1, h1);
    ResolutionKeyDigits(w2, h2);
    var a1, a2 := NatToString(w1), NatToString(w2);
    assert |a1| == |a2|;
    NatToStringInjective(w1, w2);
    NatToStringInjective(h1, h2);
  }

  /** The loaded dimensions file: `resolutions` is set once and only read afterwards. */
  class DimensionsFile {
    const resolutions: map<string, Profile>

    /** `DimensionsFile(config_file)` once the YAML `resolutions` mapping has been read. */
    constructor (resolutions: map<string, Profile>)
      ensures this.resolutions == resolutions
    {
      this.resolutions := resolutions;
    }

    /**
     * `get_crop_rects(img)`: the profile stored under the image's exact
     * resolution, or KeyError naming the missing key. There is no fallback.
     */
    method GetCropRects(img: ColorImage) returns (r: Result<Profile, Error>)
      ensures var key := ResolutionKey(img.width, img.Height());
        && (r.Success? <==> key in resolutions)
        && (r.Success? ==> r.value == resolutions[key])
        && (r.Failure? ==> r.error == MissingResolution(key))
    {
      var key := "w" + NatToString(img.width) + "h" + NatToString(img.Height());
      if key !in resolutions {
        return Failure(MissingResolution(key));
      }
      return Success(resolutions[key]);
    }
  }

  // ---------------------------------------------------------------------------
  // Grayscale conversion (cvtColor), as far as it matters here
  // ---------------------------------------------------------------------------

  /**
   * `cv2.cvtColor(img, cv2.COLOR_BGR2GRAY)`: each pixel mapped by `luma`;
   * OpenCV refuses an image with no pixels. Images are imread's 3-channel
   * BGR, so OpenCV's channel-count check never fires and is not modelled.
   */
  function ToGray(img: ColorImage, luma: Pixel -> Byte): (r: Result<GrayImage, Error>)
    ensures r.Failure? <==> img.IsEmpty()
    ensures r.Failure? ==> r.error == EmptySource
    ensures r.Success? ==> SameShape(r.value, img)
    ensures r.Success? ==> forall i, j :: 0 <= i < img.Height() && 0 <= j < img.width ==>
                             r.value.rows[i][j] == luma(img.rows[i][j])
  {
    if img.IsEmpty() then Failure(EmptySource)
    else
      Success(Grid(seq(img.Height(), i requires 0 <= i < img.Height() =>
                     seq(img.width, j requires 0 <= j < img.width => luma(img.rows[i][j]))),
                   img.width))
  }

  // ---------------------------------------------------------------------------
  // Step 1: the hits window
  // ---------------------------------------------------------------------------

  /** `crop_hits_window(img, crop_rect)`: `img[y_start:y_end, x_start:x_end]`. */
  function CropHitsWindow(img: ColorImage, cropRect: Rect): (crop: ColorImage)
    ensures CroppedFrom(crop, img, cropRect)
    ensures Within(cropRect, img.Height(), img.width) ==>
              crop.Height() == cropRect.yEnd - cropRect.yStart && crop.width == cropRect.xEnd - cropRect.xStart
  {
    Crop(img, cropRect)
  }

  // ---------------------------------------------------------------------------
  // Step 2: hit boxes
  // ---------------------------------------------------------------------------

  /** `cv2.boundingRect(contour)`: x, y, width, height. */
  datatype Box = Box(x: int, y: int, width: int, height: int)

  /** The filter of find_hits: both sides strictly larger than the minimums. */
  predicate Kept(b: Box, minWidth: int, minHeight: int) {
    b.height > minHeight && b.width > minWidth
  }

  /** The slice `img[y:y+height, x:x+width]` as a rectangle. */
  function BoxRect(b: Box): Rect {
    Rect(b.x, b.y, b.x + b.width, b.y + b.height)
  }

  /** The boxes find_hits keeps, in the order the contours came. */
  function KeptBoxes(boxes: seq<Box>, minWidth: int, minHeight: int): (kept: seq<Box>)
    ensures |kept| <= |boxes|
    ensures forall b :: b in kept <==> b in boxes && Kept(b, minWidth, minHeight)
  {
    if boxes == [] then []
    else
      var prefix := KeptBoxes(boxes[..|boxes| - 1], minWidth, minHeight);
      var b := boxes[|boxes| - 1];
      if Kept(b, minWidth, minHeight) then prefix + [b] else prefix
  }

  function KeepFlags(boxes: seq<Box>, minWidth: int, minHeight: int): (flags: seq<bool>)
    ensures |flags| == |boxes|
    ensures forall i :: 0 <= i < |boxes| ==> flags[i] == Kept(boxes[i], minWidth, minHeight)
  {
    seq(|boxes|, i requires 0 <= i < |boxes| => Kept(boxes[i], minWidth, minHeight))
  }

  /**
   * The kept boxes are exactly the boxes at the indices that pass the filter,
   * taken in increasing index order: the filter is stable.
   */
  lemma {:induction false} KeptBoxesInOrder(boxes: seq<Box>, minWidth: int, minHeight: int)
    ensures var ix := Where(KeepFlags(boxes, minWidth, minHeight));
      && |KeptBoxes(boxes, minWidth, minHeight)| == |ix|
      && forall k :: 0 <= k < |ix| ==> KeptBoxes(boxes, minWidth, minHeight)[k] == boxes[ix[k]]
  {
    if boxes != [] {
      var n := |boxes| - 1;
      var prefix := boxes[..n];
      KeptBoxesInOrder(prefix, minWidth, minHeight);
      assert KeepFlags(boxes, minWidth, minHeight)[..n] == KeepFlags(prefix, minWidth, minHeight);
    }
  }

  /** Each kept box cropped out of the window, in order. */
  function HitCrops(img: ColorImage, kept: seq<Box>): (hits: seq<ColorImage>)
    ensures |hits| == |kept|
  {
    seq(|kept|, k requires 0 <= k < |kept| => Crop(img, BoxRect(kept[k])))
  }

  /** Hit `k` is the crop of the window by kept box `k`. */
  lemma HitCropsCropped(img: ColorImage, kept: seq<Box>)
    ensures forall k :: 0 <= k < |kept| ==> CroppedFrom(HitCrops(img, kept)[k], img, BoxRect(kept[k]))
  {
  }

  /** One more contour adds its box to the kept ones exactly when it passes the filter. */
  lemma KeptBoxesStep(boxes: seq<Box>, i: nat, minWidth: int, minHeight: int)
    requires i < |boxes|
    ensures KeptBoxes(boxes[..i + 1], minWidth, minHeight) ==
      if Kept(boxes[i], minWidth, minHeight) then KeptBoxes(boxes[..i], minWidth, minHeight) + [boxes[i]]
      else KeptBoxes(boxes[..i], minWidth, minHeight)
  {
    assert boxes[..i + 1][..i] == boxes[..i];
  }

  /** Cropping one more box appends its crop. */
  lemma HitCropsPush(img: ColorImage, kept: seq<Box>, b: Box)
    ensures HitCrops(img, kept + [b]) == HitCrops(img, kept) + [Crop(img, BoxRect(b))]
  {
    assert forall k :: 0 <= k < |kept| ==> (kept + [b])[k] == kept[k];
  }

  /** An in-bounds kept box gives a crop of exactly its height and width. */
  lemma HitCropSize(img: ColorImage, b: Box)
    requires 0 <= b.x && 0 <= b.y && 0 <= b.width && 0 <= b.height
    requires b.x + b.width <= img.width && b.y + b.height <= img.Height()
    ensures Crop(img, BoxRect(b)).Height() == b.height && Crop(img, BoxRect(b)).width == b.width
  {
    CropWithin(img, BoxRect(b));
  }

  /**
   * What find_hits returns: the window is converted to gray (which fails on an
   * empty window), thresholded at 15, its contours' boxes filtered and cropped.
   */
  function HitImages(img: ColorImage, minWidth: int, minHeight: int, lib: Library): Result<seq<ColorImage>, Error> {
    match ToGray(img, lib.luma)
    case Failure(e) => Failure(e)
    case Success(gray) =>
      var boxes := lib.contours(Threshold(gray, 15));
      Success(HitCrops(img, KeptBoxes(boxes, minWidth, minHeight)))
  }

  /** `find_hits(img, hitbox_min_w, hitbox_min_h)`. */
  method FindHits(img: ColorImage, minWidth: int, minHeight: int, lib: Library)
    returns (r: Result<seq<ColorImage>, Error>)
    ensures r == HitImages(img, minWidth, minHeight, lib)
  {
    var gray := ToGray(img, lib.luma);
    if gray.Failure? {
      return Failure(gray.error);
    }
    var mask := Threshold(gray.value, 15);
    var contours := lib.contours(mask);
    var hitImages: seq<ColorImage> := [];
    var i := 0;
    while i < |contours|
      invariant 0 <= i <= |contours|
      invariant hitImages == HitCrops(img, KeptBoxes(contours[..i], minWidth, minHeight))
    {
      var b := contours[i];
      ghost var kept := KeptBoxes(contours[..i], minWidth, minHeight);
      KeptBoxesStep(contours, i, minWidth, minHeight);
      if b.height > minHeight && b.width > minWidth {
        var crop := Crop(img, Rect(b.x, b.y, b.x + b.width, b.y + b.height));
        assert Rect(b.x, b.y, b.x + b.width, b.y + b.height) == BoxRect(b);
        HitCropsPush(img, kept, b);
        hitImages := hitImages + [crop];
      }
      i := i + 1;
    }
    assert contours[..|contours|] == contours;
    return Success(hitImages);
  }

  // ---------------------------------------------------------------------------
  // Step 3: zones of a hit
  // ---------------------------------------------------------------------------

  /**
   * `crop_hit_image(img, idx, name_rect, party_rect, damage_rect, boss_rect)`:
   * the four crops, returned as (name, party, boss, damage) although the
   * rectangles come in as (name, party, damage, boss).
   */
  function CropHitImage(img: ColorImage, nameRect: Rect, partyRect: Rect, damageRect: Rect, bossRect: Rect)
    : (zones: (ColorImage, ColorImage, ColorImage, ColorImage))
    ensures CroppedFrom(zones.0, img, nameRect)
    ensures CroppedFrom(zones.1, img, partyRect)
    ensures CroppedFrom(zones.2, img, bossRect)
    ensures CroppedFrom(zones.3, img, damageRect)
  {
    var nameImg := Crop(img, nameRect);
    var partyImg := Crop(img, partyRect);
    var bossImg := Crop(img, bossRect);
    var damageImg := Crop(img, damageRect);
    (nameImg, partyImg, bossImg, damageImg)
  }

  // ---------------------------------------------------------------------------
  // Step 4: recognition
  // ---------------------------------------------------------------------------

  /** An image prepared for OCR and the text read from it. */
  datatype Recognition = Recognition(image: GrayImage, text: string)

  /** The separator Tesseract leaves in a damage reading: "\n\f,". */
  const Artifact: string := "\n\U{C},"

  /** recognize_damage's clean-up: strip, then delete each `Artifact` in one pass. */
  function DamageText(ocr: string): string {
    if ocr != "" then Replace(Strip(ocr), Artifact, "") else ocr
  }

  /** recognize_name's clean-up: strip. */
  function NameText(ocr: string): (name: string)
    ensures name == [] || (!IsSpace(name[0]) && !IsSpace(name[|name| - 1]))
    ensures |name| <= |ocr|
  {
    if ocr != "" then Strip(ocr) else ocr
  }

  /** The empty reading stays empty. */
  lemma CleanupKeepsEmpty()
    ensures DamageText("") == "" && NameText("") == ""
  {
  }

  /** Clean-up never lengthens the text, and text free of the artifact is only stripped. */
  lemma DamageTextShape(ocr: string)
    ensures |DamageText(ocr)| <= |ocr|
    ensures (forall k :: !OccursAt(Artifact, Strip(ocr), k)) ==> DamageText(ocr) == Strip(ocr)
  {
    ReplaceShortens(Strip(ocr), Artifact);
    if forall k :: !OccursAt(Artifact, Strip(ocr), k) {
      ReplaceAbsent(Strip(ocr), Artifact, "");
    }
  }

  /** An artifact between two runs of digits is removed: "12\n\f,345" reads as "12345". */
  lemma DamageTextJoinsDigits(x: string, y: string)
    requires x != [] && y != [] && AllDigits(x) && AllDigits(y)
    ensures DamageText(x + Artifact + y) == x + y
  {
    var s := x + Artifact + y;
    assert s[0] == x[0] && s[|s| - 1] == y[|y| - 1];
    StripKeeps(s);
    ReplaceJoins(x, y, Artifact);
  }

  /**
   * One pass can leave the artifact behind: deleting the artifact inside
   * "\n\f" + artifact + "," joins its neighbours into a new one, so
   * "1\n\f\n\f,,2" reads as "1\n\f,2".
   */
  lemma DamageTextCanLeaveArtifact(x: string, y: string)
    requires x != [] && y != [] && AllDigits(x) && AllDigits(y)
    ensures var t := DamageText(x + ("\n\U{C}" + (Artifact + ("," + y))));
      t == x + (Artifact + y) && OccursAt(Artifact, t, |x|)
  {
    var s := x + ("\n\U{C}" + (Artifact + ("," + y)));
    assert DamageText(s) == Replace(s, Artifact, "") by {
      assert s[0] == x[0] && s[|s| - 1] == y[|y| - 1];
      StripKeeps(s);
    }
    assert Replace(s, Artifact, "") == x + (Artifact + y) by {
      assert forall k :: 0 <= k < |x| ==> x[k] != '\n';
      assert forall k :: 0 <= k < |y| ==> y[k] != '\n';
      ReplaceRejoins(x, y, '\n', '\U{C}', ',');
    }
    var t := x + (Artifact + y);
    assert t[|x|..|x| + 3] == Artifact;
  }

  /**
   * `recognize_damage(img)` as intended: the mask `255 - threshold(gray, 160)`
   * and the cleaned-up text OCR reads from it. The mask goes to OCR as it
   * is; the code's `cvtColor(mask, COLOR_BGR2RGB)` step is
   * `RecognizeDamageAsWritten` below.
   */
  function RecognizeDamage(img: ColorImage, lib: Library): (r: Result<Recognition, Error>)
    ensures r.Failure? <==> img.IsEmpty()
    ensures r.Failure? ==> r.error == EmptySource
    ensures r.Success? ==> SameShape(r.value.image, img) && IsBinary(r.value.image)
    ensures r.Success? ==> forall i, j :: 0 <= i < img.Height() && 0 <= j < img.width ==>
              r.value.image.rows[i][j] == if lib.luma(img.rows[i][j]) > 160 then 0 else 255
    ensures r.Success? ==> r.value.text == DamageText(lib.readDigits(r.value.image))
  {
    match ToGray(img, lib.luma)
    case Failure(e) => Failure(e)
    case Success(gray) =>
      InvertedThreshold(gray, 160);
      var mask := Invert(Threshold(gray, 160));
      Success(Recognition(mask, DamageText(lib.readDigits(mask))))
  }

  /**
   * `cv2.cvtColor(x, cv2.COLOR_BGR2RGB)` for a 2-D array `x`: after the
   * empty-source check OpenCV counts one channel, and its BGR/RGB converter
   * accepts only 3 or 4, so the call raises.
   */
  function PlaneToRgb(x: GrayImage): Result<ColorImage, Error> {
    if x.IsEmpty() then Failure(EmptySource) else Failure(ChannelCount(1))
  }

  /**
   * `recognize_damage(img)` as written: the one-channel mask is converted
   * with BGR2RGB before OCR.
   */
  function RecognizeDamageAsWritten(img: ColorImage, lib: Library): Result<Recognition, Error> {
    match ToGray(img, lib.luma)
    case Failure(e) => Failure(e)
    case Success(gray) =>
      var mask := Invert(Threshold(gray, 160));
      match PlaneToRgb(mask)
      case Failure(e) => Failure(e)
      case Success(_) => Success(Recognition(mask, DamageText(lib.readDigits(mask))))
  }

  /**
   * As written, recognize_damage raises on every zone: in the gray
   * conversion on an empty one, in the channel check on any other, where
   * the intended version reads a damage.
   */
  lemma RecognizeDamageAsWrittenFails(img: ColorImage, lib: Library)
    ensures RecognizeDamageAsWritten(img, lib).Failure?
    ensures RecognizeDamageAsWritten(img, lib).error == if img.IsEmpty() then EmptySource else ChannelCount(1)
    ensures !img.IsEmpty() ==> RecognizeDamage(img, lib).Success?
  {
  }

  // ---------------------------------------------------------------------------
  // The auto-crop primitive
  // ---------------------------------------------------------------------------

  /** A numpy image by its number of axes: 2 (one channel) or 3 (channels last). */
  datatype Ndarray = Plane(plane: GrayImage) | Channels(channels: ColorImage) {
    function Height(): nat {
      match this
      case Plane(g) => g.Height()
      case Channels(c) => c.Height()
    }

    function Width(): nat {
      match this
      case Plane(g) => g.width
      case Channels(c) => c.width
    }
  }

  /** `flat_image` of auto_crop_dimensions: a 3-axis image reduced by its brightest channel. */
  function Flat(a: Ndarray): (g: GrayImage)
    ensures g.Height() == a.Height() && g.width == a.Width()
  {
    match a
    case Plane(g) => g
    case Channels(c) => ChannelMaxima(c)
  }

  /** `a[r.yStart:r.yEnd, r.xStart:r.xEnd]`, keeping the channels. */
  function CropNd(a: Ndarray, r: Rect): Ndarray {
    match a
    case Plane(g) => Plane(Crop(g, r))
    case Channels(c) => Channels(Crop(c, r))
  }

  lemma FlatCrop(a: Ndarray, r: Rect)
    ensures Flat(CropNd(a, r)) == Crop(Flat(a), r)
  {
    if a.Channels? {
      ChannelMaximaCrop(a.channels, r);
    }
  }

  /** The box returned by auto_crop_dimensions, in the order the code returns it. */
  datatype CropBox = CropBox(rowFrom: nat, rowTo: nat, colFrom: nat, colTo: nat)

  /** Every pixel is at most the threshold (equal counts as background). */
  predicate Blank(g: GrayImage, t: int) {
    forall i, j :: 0 <= i < g.Height() && 0 <= j < g.width ==> g.rows[i][j] <= t
  }

  predicate RowHasBright(g: GrayImage, i: nat, t: int)
    requires i < g.Height()
  {
    exists j :: 0 <= j < g.width && g.rows[i][j] > t
  }

  predicate ColumnHasBright(g: GrayImage, j: nat, t: int)
    requires j < g.width
  {
    exists i :: 0 <= i < g.Height() && g.rows[i][j] > t
  }

  /**
   * `b` is the tight bounding box of the pixels above `t`: non-empty and
   * inside the image, containing every such pixel, and each of its four
   * border lines holding one.
   */
  ghost predicate TightBox(b: CropBox, g: GrayImage, t: int) {
    && b.rowFrom < b.rowTo <= g.Height() && b.colFrom < b.colTo <= g.width
    && (forall i, j :: 0 <= i < g.Height() && 0 <= j < g.width && g.rows[i][j] > t ==>
          b.rowFrom <= i < b.rowTo && b.colFrom <= j < b.colTo)
    && RowHasBright(g, b.rowFrom, t) && RowHasBright(g, b.rowTo - 1, t)
    && ColumnHasBright(g, b.colFrom, t) && ColumnHasBright(g, b.colTo - 1, t)
  }

  /** `np.max(...) > threshold` for each entry. */
  function Above(ms: seq<int>, t: int): (flags: seq<bool>)
    ensures |flags| == |ms| && forall k :: 0 <= k < |ms| ==> flags[k] == (ms[k] > t)
  {
    seq(|ms|, k requires 0 <= k < |ms| => ms[k] > t)
  }

  /** The indices of the columns holding a pixel above `t`, in increasing order. */
  function BrightColumns(g: GrayImage, t: int): seq<nat>
    requires g.Height() > 0
  {
    Where(Above(ColumnMaxima(g), t))
  }

  /** The indices of the rows holding a pixel above `t`, in increasing order. */
  function BrightRows(g: GrayImage, t: int): seq<nat>
    requires g.width > 0
  {
    Where(Above(RowMaxima(g), t))
  }

  /** The first and last true index of `bits` bound every true index. */
  lemma WhereSpan(bits: seq<bool>)
    ensures var ix := Where(bits);
      && (|ix| > 0 <==> exists i :: 0 <= i < |bits| && bits[i])
      && (|ix| > 0 ==>
            && ix[0] <= ix[|ix| - 1] < |bits| && bits[ix[0]] && bits[ix[|ix| - 1]]
            && forall i :: 0 <= i < |bits| && bits[i] ==> ix[0] <= i <= ix[|ix| - 1])
  {
    forall i | 0 <= i < |bits| && bits[i] ensures |Where(bits)| > 0 && Where(bits)[0] <= i <= Where(bits)[|Where(bits)| - 1] {
      WhereEnds(bits, i);
    }
  }

  lemma ColumnFlags(g: GrayImage, t: int)
    requires g.Height() > 0
    ensures forall j :: 0 <= j < g.width ==> (Above(ColumnMaxima(g), t)[j] <==> ColumnHasBright(g, j, t))
  {
    forall j | 0 <= j < g.width ensures Above(ColumnMaxima(g), t)[j] <==> ColumnHasBright(g, j, t) {
      MaxAbove(Column(g, j), t);
    }
  }

  lemma RowFlags(g: GrayImage, t: int)
    requires g.width > 0
    ensures forall i :: 0 <= i < g.Height() ==> (Above(RowMaxima(g), t)[i] <==> RowHasBright(g, i, t))
  {
    forall i | 0 <= i < g.Height() ensures Above(RowMaxima(g), t)[i] <==> RowHasBright(g, i, t) {
      MaxAbove(g.rows[i], t);
    }
  }

  /** The bright columns are non-empty iff some column is bright, and they span all bright columns. */
  lemma BrightColumnsSpan(g: GrayImage, t: int)
    requires g.Height() > 0
    ensures var cs := BrightColumns(g, t);
      && (|cs| > 0 <==> exists j :: 0 <= j < g.width && ColumnHasBright(g, j, t))
      && (|cs| > 0 ==>
            && cs[0] <= cs[|cs| - 1] < g.width
            && ColumnHasBright(g, cs[0], t) && ColumnHasBright(g, cs[|cs| - 1], t)
            && forall j :: 0 <= j < g.width && ColumnHasBright(g, j, t) ==> cs[0] <= j <= cs[|cs| - 1])
  {
    ColumnFlags(g, t);
    WhereSpan(Above(ColumnMaxima(g), t));
  }

  /** The same for rows. */
  lemma BrightRowsSpan(g: GrayImage, t: int)
    requires g.width > 0
    ensures var rs := BrightRows(g, t);
      && (|rs| > 0 <==> exists i :: 0 <= i < g.Height() && RowHasBright(g, i, t))
      && (|rs| > 0 ==>
            && rs[0] <= rs[|rs| - 1] < g.Height()
            && RowHasBright(g, rs[0], t) && RowHasBright(g, rs[|rs| - 1], t)
            && forall i :: 0 <= i < g.Height() && RowHasBright(g, i, t) ==> rs[0] <= i <= rs[|rs| - 1])
  {
    RowFlags(g, t);
    WhereSpan(Above(RowMaxima(g), t));
  }

  /** A bright column means a bright row. */
  lemma BrightRowExists(g: GrayImage, t: int)
    requires g.Height() > 0 && g.width > 0
    requires |BrightColumns(g, t)| > 0
    ensures |BrightRows(g, t)| > 0
  {
    BrightColumnsSpan(g, t);
    var cs := BrightColumns(g, t);
    var i :| 0 <= i < g.Height() && g.rows[i][cs[0]] > t;
    assert RowHasBright(g, i, t);
    BrightRowsSpan(g, t);
  }

  /**
   * The body of auto_crop_dimensions on the flattened image. The code's
   * `rows` holds column indices and its `cols` row indices, so the box comes
   * out as (row from, row to, column from, column to). numpy refuses a
   * maximum over an axis of length zero, even when that gives no value at
   * all, so an image without rows fails whatever its width.
   */
  function BrightBox(g: GrayImage, threshold: int): Result<CropBox, Error> {
    if g.Height() == 0 then Failure(EmptyReduction)
    else
      var columnHits := if g.width == 0 then [] else BrightColumns(g, threshold);
      if |columnHits| > 0 then
        BrightRowExists(g, threshold);
        var rowHits := BrightRows(g, threshold);
        Success(CropBox(rowHits[0], rowHits[|rowHits| - 1] + 1, columnHits[0], columnHits[|columnHits| - 1] + 1))
      else
        Success(CropBox(0, 1, 0, 1))
  }

  /** `auto_crop_dimensions(image, threshold)`. */
  function AutoCropDimensions(a: Ndarray, threshold: int): Result<CropBox, Error> {
    BrightBox(Flat(a), threshold)
  }

  /** auto_crop_dimensions fails exactly on an image with no rows. */
  lemma AutoCropDimensionsFails(a: Ndarray, threshold: int)
    ensures AutoCropDimensions(a, threshold).Failure? <==> a.Height() == 0
    ensures AutoCropDimensions(a, threshold).Failure? ==> AutoCropDimensions(a, threshold).error == EmptyReduction
  {
  }

  /** An image with nothing above the threshold gives the 1x1 box at the origin. */
  lemma AutoCropDimensionsBlank(a: Ndarray, threshold: int)
    requires a.Height() > 0
    requires Blank(Flat(a), threshold)
    ensures AutoCropDimensions(a, threshold).Success? && AutoCropDimensions(a, threshold).value == CropBox(0, 1, 0, 1)
  {
    var g := Flat(a);
    if g.width > 0 {
      BrightColumnsSpan(g, threshold);
      assert forall j :: 0 <= j < g.width ==> !ColumnHasBright(g, j, threshold);
      assert |BrightColumns(g, threshold)| == 0;
    }
  }

  /** Otherwise the box is the tight bounding box of the pixels above the threshold. */
  lemma AutoCropDimensionsTight(a: Ndarray, threshold: int)
    requires !Blank(Flat(a), threshold)
    ensures AutoCropDimensions(a, threshold).Success?
    ensures TightBox(AutoCropDimensions(a, threshold).value, Flat(a), threshold)
  {
    BrightBoxTight(Flat(a), threshold);
  }

  /** A pixel above the threshold lies within the first and last bright row and column. */
  lemma BrightInside(g: GrayImage, t: int, i: nat, j: nat)
    requires i < g.Height() && j < g.width && g.rows[i][j] > t
    ensures |BrightColumns(g, t)| > 0 && |BrightRows(g, t)| > 0
    ensures BrightRows(g, t)[0] <= i <= BrightRows(g, t)[|BrightRows(g, t)| - 1]
    ensures BrightColumns(g, t)[0] <= j <= BrightColumns(g, t)[|BrightColumns(g, t)| - 1]
  {
    assert ColumnHasBright(g, j, t);
    assert RowHasBright(g, i, t);
    BrightColumnsSpan(g, t);
    BrightRowsSpan(g, t);
  }

  lemma BrightBoxValue(g: GrayImage, t: int)
    requires g.Height() > 0 && g.width > 0 && |BrightColumns(g, t)| > 0 && |BrightRows(g, t)| > 0
    ensures BrightBox(g, t).Success?
    ensures BrightBox(g, t).value.rowFrom == BrightRows(g, t)[0]
    ensures BrightBox(g, t).value.rowTo == BrightRows(g, t)[|BrightRows(g, t)| - 1] + 1
    ensures BrightBox(g, t).value.colFrom == BrightColumns(g, t)[0]
    ensures BrightBox(g, t).value.colTo == BrightColumns(g, t)[|BrightColumns(g, t)| - 1] + 1
  {
  }

  /** The box holds every pixel above the threshold. */
  lemma BrightBoxContains(g: GrayImage, t: int)
    requires g.Height() > 0 && g.width > 0 && |BrightColumns(g, t)| > 0 && |BrightRows(g, t)| > 0
    ensures BrightBox(g, t).Success?
    ensures var b := BrightBox(g, t).value;
      forall i, j :: 0 <= i < g.Height() && 0 <= j < g.width && g.rows[i][j] > t ==>
        b.rowFrom <= i < b.rowTo && b.colFrom <= j < b.colTo
  {
    BrightBoxValue(g, t);
    forall i, j | 0 <= i < g.Height() && 0 <= j < g.width && g.rows[i][j] > t
      ensures BrightRows(g, t)[0] <= i <= BrightRows(g, t)[|BrightRows(g, t)| - 1]
      ensures BrightColumns(g, t)[0] <= j <= BrightColumns(g, t)[|BrightColumns(g, t)| - 1]
    {
      BrightInside(g, t, i, j);
    }
  }

  /** The box lies inside the image and each of its border lines holds a bright pixel. */
  lemma BrightBoxBorders(g: GrayImage, t: int)
    requires g.Height() > 0 && g.width > 0 && |BrightColumns(g, t)| > 0 && |BrightRows(g, t)| > 0
    ensures BrightBox(g, t).Success?
    ensures var b := BrightBox(g, t).value;
      && b.rowFrom < b.rowTo <= g.Height() && b.colFrom < b.colTo <= g.width
      && RowHasBright(g, b.rowFrom, t) && RowHasBright(g, b.rowTo - 1, t)
      && ColumnHasBright(g, b.colFrom, t) && ColumnHasBright(g, b.colTo - 1, t)
  {
    BrightBoxValue(g, t);
    BrightColumnsSpan(g, t);
    BrightRowsSpan(g, t);
  }

  lemma BrightBoxTight(g: GrayImage, t: int)
    requires !Blank(g, t)
    ensures BrightBox(g, t).Success? && TightBox(BrightBox(g, t).value, g, t)
  {
    var i0, j0 :| 0 <= i0 < g.Height() && 0 <= j0 < g.width && g.rows[i0][j0] > t;
    BrightInside(g, t, i0, j0);
    BrightBoxContains(g, t);
    BrightBoxBorders(g, t);
  }

  /** Two tight boxes of the same image are the same box. */
  lemma TightBoxUnique(b1: CropBox, b2: CropBox, g: GrayImage, t: int)
    requires TightBox(b1, g, t) && TightBox(b2, g, t)
    ensures b1 == b2
  {
    TightInside(b1, b2, g, t);
    TightInside(b2, b1, g, t);
  }

  /** A tight box lies inside every box that holds all the bright pixels. */
  lemma TightInside(b1: CropBox, b2: CropBox, g: GrayImage, t: int)
    requires TightBox(b1, g, t) && TightBox(b2, g, t)
    ensures b1.rowFrom <= b2.rowFrom && b2.rowTo <= b1.rowTo && b1.colFrom <= b2.colFrom && b2.colTo <= b1.colTo
  {
    var j1 :| 0 <= j1 < g.width && g.rows[b2.rowFrom][j1] > t;
    var j2 :| 0 <= j2 < g.width && g.rows[b2.rowTo - 1][j2] > t;
    var i1 :| 0 <= i1 < g.Height() && g.rows[i1][b2.colFrom] > t;
    var i2 :| 0 <= i2 < g.Height() && g.rows[i2][b2.colTo - 1] > t;
  }

  /** The slice auto_crop applies: rows rowFrom:rowTo, columns colFrom:colTo. */
  function BoxRect2(b: CropBox): Rect {
    Rect(b.colFrom, b.rowFrom, b.colTo, b.rowTo)
  }

  /** `auto_crop(image, threshold)`: `image[r0:r1, c0:c1]` with the box above. */
  function AutoCrop(a: Ndarray, threshold: int): Result<Ndarray, Error> {
    match AutoCropDimensions(a, threshold)
    case Failure(e) => Failure(e)
    case Success(b) => Success(CropNd(a, BoxRect2(b)))
  }

  /** What auto_crop returns, given the box. */
  lemma AutoCropValue(a: Ndarray, threshold: int)
    ensures AutoCrop(a, threshold).Success? <==> AutoCropDimensions(a, threshold).Success?
    ensures AutoCrop(a, threshold).Success? ==>
              AutoCrop(a, threshold).value == CropNd(a, BoxRect2(AutoCropDimensions(a, threshold).value))
  {
  }

  /** On a non-empty image the crop succeeds and keeps at least one pixel. */
  lemma AutoCropNonEmpty(a: Ndarray, threshold: int)
    requires a.Height() > 0 && a.Width() > 0
    ensures AutoCrop(a, threshold).Success?
    ensures AutoCrop(a, threshold).value.Height() >= 1 && AutoCrop(a, threshold).value.Width() >= 1
  {
    if Blank(Flat(a), threshold) {
      AutoCropDimensionsBlank(a, threshold);
    } else {
      AutoCropDimensionsTight(a, threshold);
    }
    var b := AutoCropDimensions(a, threshold).value;
    AutoCropValue(a, threshold);
    FlatCrop(a, BoxRect2(b));
    assert Flat(AutoCrop(a, threshold).value) == Crop(Flat(a), BoxRect2(b));
  }

  /**
   * Every pixel above the threshold survives the crop, at its position
   * shifted by the box's corner.
   */
  lemma AutoCropKeepsBright(a: Ndarray, threshold: int, i: nat, j: nat)
    requires i < a.Height() && j < a.Width() && Flat(a).rows[i][j] > threshold
    ensures AutoCrop(a, threshold).Success? && AutoCropDimensions(a, threshold).Success?
    ensures ShiftedBy(Flat(AutoCrop(a, threshold).value), Flat(a), AutoCropDimensions(a, threshold).value, i, j)
  {
    AutoCropAround(a, threshold, i, j);
    BoxCropKeeps(Flat(AutoCrop(a, threshold).value), Flat(a), AutoCropDimensions(a, threshold).value, i, j);
  }

  /** Pixel (i, j) of `g` sits in `c` at its position shifted by the corner of `b`. */
  predicate ShiftedBy(c: GrayImage, g: GrayImage, b: CropBox, i: nat, j: nat)
    requires i < g.Height() && j < g.width
  {
    && b.rowFrom <= i && b.colFrom <= j
    && i - b.rowFrom < c.Height() && j - b.colFrom < c.width
    && c.rows[i - b.rowFrom][j - b.colFrom] == g.rows[i][j]
  }

  /** Cropping to a box that holds (i, j) keeps that pixel at its position shifted by the box's corner. */
  lemma BoxCropKeeps(c: GrayImage, g: GrayImage, b: CropBox, i: nat, j: nat)
    requires b.rowFrom <= i < b.rowTo <= g.Height() && b.colFrom <= j < b.colTo <= g.width
    requires c == Crop(g, BoxRect2(b))
    ensures ShiftedBy(c, g, b, i, j)
  {
    CropAt(g, BoxRect2(b), i - b.rowFrom, j - b.colFrom);
  }

  /**
   * With a bright pixel at (i, j), auto_crop's result is the crop of the
   * reduced image by a box that lies in the image and contains (i, j).
   */
  lemma AutoCropAround(a: Ndarray, threshold: int, i: nat, j: nat)
    requires i < a.Height() && j < a.Width() && Flat(a).rows[i][j] > threshold
    ensures AutoCrop(a, threshold).Success?
    ensures var b := AutoCropDimensions(a, threshold).value;
      && b.rowFrom <= i < b.rowTo <= a.Height() && b.colFrom <= j < b.colTo <= a.Width()
      && Flat(AutoCrop(a, threshold).value) == Crop(Flat(a), BoxRect2(b))
  {
    assert !Blank(Flat(a), threshold);
    AutoCropDimensionsTight(a, threshold);
    FlatCrop(a, BoxRect2(AutoCropDimensions(a, threshold).value));
  }

  /** A bright pixel inside an in-bounds crop makes its row and column of the crop bright. */
  lemma CropKeepsBrightLines(g: GrayImage, r: Rect, t: int, i: nat, j: nat)
    requires Within(r, g.Height(), g.width)
    requires r.yStart <= i < r.yEnd && r.xStart <= j < r.xEnd && g.rows[i][j] > t
    ensures Crop(g, r).Height() == r.yEnd - r.yStart && Crop(g, r).width == r.xEnd - r.xStart
    ensures RowHasBright(Crop(g, r), i - r.yStart, t) && ColumnHasBright(Crop(g, r), j - r.xStart, t)
  {
    var di, dj := i - r.yStart, j - r.xStart;
    CropAt(g, r, di, dj);
    assert r.yStart + di == i && r.xStart + dj == j;
    assert Crop(g, r).rows[di][dj] > t;
  }

  /** A crop whose four border lines each hold a bright pixel of `g` is bright on its four borders. */
  lemma CropBorders(g: GrayImage, b: CropBox, t: int, j1: nat, j2: nat, i1: nat, i2: nat)
    requires b.rowFrom < b.rowTo <= g.Height() && b.colFrom < b.colTo <= g.width
    requires b.colFrom <= j1 < b.colTo && g.rows[b.rowFrom][j1] > t
    requires b.colFrom <= j2 < b.colTo && g.rows[b.rowTo - 1][j2] > t
    requires b.rowFrom <= i1 < b.rowTo && g.rows[i1][b.colFrom] > t
    requires b.rowFrom <= i2 < b.rowTo && g.rows[i2][b.colTo - 1] > t
    ensures var f := Crop(g, BoxRect2(b));
      && f.Height() == b.rowTo - b.rowFrom && f.width == b.colTo - b.colFrom
      && RowHasBright(f, 0, t) && RowHasBright(f, b.rowTo - 1 - b.rowFrom, t)
      && ColumnHasBright(f, 0, t) && ColumnHasBright(f, b.colTo - 1 - b.colFrom, t)
  {
    var r := BoxRect2(b);
    var f := Crop(g, r);
    var bottom, right := b.rowTo - 1 - b.rowFrom, b.colTo - 1 - b.colFrom;
    CropAt(g, r, 0, j1 - b.colFrom);
    assert f.rows[0][j1 - b.colFrom] > t;
    CropAt(g, r, bottom, j2 - b.colFrom);
    assert f.rows[bottom][j2 - b.colFrom] > t;
    CropAt(g, r, i1 - b.rowFrom, 0);
    assert f.rows[i1 - b.rowFrom][0] > t;
    CropAt(g, r, i2 - b.rowFrom, right);
    assert f.rows[i2 - b.rowFrom][right] > t;
  }

  /** The crop of a gray image to its tight box is tight in itself. */
  lemma TightCropGray(g: GrayImage, b: CropBox, t: int)
    requires TightBox(b, g, t)
    ensures var f := Crop(g, BoxRect2(b));
      && f.Height() == b.rowTo - b.rowFrom && f.width == b.colTo - b.colFrom
      && RowHasBright(f, 0, t) && RowHasBright(f, b.rowTo - 1 - b.rowFrom, t)
      && ColumnHasBright(f, 0, t) && ColumnHasBright(f, b.colTo - 1 - b.colFrom, t)
  {
    var j1 :| 0 <= j1 < g.width && g.rows[b.rowFrom][j1] > t;
    var j2 :| 0 <= j2 < g.width && g.rows[b.rowTo - 1][j2] > t;
    var i1 :| 0 <= i1 < g.Height() && g.rows[i1][b.colFrom] > t;
    var i2 :| 0 <= i2 < g.Height() && g.rows[i2][b.colTo - 1] > t;
    CropBorders(g, b, t, j1, j2, i1, i2);
  }

  /** The crop of a tight box is itself tight: its own box is the whole of it. */
  lemma TightCropIsWhole(a: Ndarray, b: CropBox, t: int)
    requires TightBox(b, Flat(a), t)
    ensures var c := CropNd(a, BoxRect2(b));
      && !Blank(Flat(c), t)
      && TightBox(CropBox(0, c.Height(), 0, c.Width()), Flat(c), t)
  {
    FlatCrop(a, BoxRect2(b));
    TightCropGray(Flat(a), b, t);
    WholeTight(Crop(Flat(a), BoxRect2(b)), b, t);
  }

  /** An image the size of a box and bright on each of its four borders is its own tight box. */
  lemma WholeTight(f: GrayImage, b: CropBox, t: int)
    requires b.rowFrom < b.rowTo && b.colFrom < b.colTo
    requires f.Height() == b.rowTo - b.rowFrom && f.width == b.colTo - b.colFrom
    requires RowHasBright(f, 0, t) && RowHasBright(f, b.rowTo - 1 - b.rowFrom, t)
    requires ColumnHasBright(f, 0, t) && ColumnHasBright(f, b.colTo - 1 - b.colFrom, t)
    ensures !Blank(f, t) && TightBox(CropBox(0, f.Height(), 0, f.width), f, t)
  {
  }

  lemma CropNdWhole(a: Ndarray)
    ensures CropNd(a, Rect(0, 0, a.Width(), a.Height())) == a
  {
    match a
    case Plane(g) => CropWhole(g);
    case Channels(c) => CropWhole(c);
  }

  /**
   * Auto-cropping an auto-cropped image changes nothing: no edge of the
   * result is at or below the threshold any more (or the result is the
   * at most 1x1 crop of a blank image).
   */
  lemma AutoCropIdempotent(a: Ndarray, threshold: int)
    requires AutoCrop(a, threshold).Success?
    ensures AutoCrop(AutoCrop(a, threshold).value, threshold) == AutoCrop(a, threshold)
  {
    var t := threshold;
    var b := AutoCropDimensions(a, t).value;
    var c := AutoCrop(a, t).value;
    assert c == CropNd(a, BoxRect2(b));
    FlatCrop(a, BoxRect2(b));
    if Blank(Flat(a), t) {
      AutoCropDimensionsBlank(a, t);
      assert Blank(Flat(c), t);
      assert c.Height() == 1 && c.Width() <= 1;
      AutoCropDimensionsBlank(c, t);
      assert BoxRect2(CropBox(0, 1, 0, 1)) == Rect(0, 0, 1, 1);
      CropNdSmall(c);
    } else {
      AutoCropDimensionsTight(a, t);
      TightCropIsWhole(a, b, t);
      AutoCropDimensionsTight(c, t);
      TightBoxUnique(AutoCropDimensions(c, t).value, CropBox(0, c.Height(), 0, c.Width()), Flat(c), t);
      CropNdWhole(c);
    }
  }

  /** The 1x1 slice of an image no larger than 1x1 is the image. */
  lemma CropNdSmall(a: Ndarray)
    requires a.Height() <= 1 && a.Width() <= 1
    ensures CropNd(a, Rect(0, 0, 1, 1)) == a
  {
    assert CropNd(a, Rect(0, 0, 1, 1)) == CropNd(a, Rect(0, 0, a.Width(), a.Height()));
    CropNdWhole(a);
  }

  // ---------------------------------------------------------------------------
  // Name recognition
  // ---------------------------------------------------------------------------

  /**
   * The image recognize_name hands to OCR: threshold the gray zone at 200,
   * find where the bright text ends, keep `gray[:, :col_to + 10]`, threshold
   * that at 130 and invert it.
   */
  function NameImage(gray: GrayImage): Result<GrayImage, Error> {
    var onlyNameMask := Threshold(gray, 200);
    match AutoCropDimensions(Plane(onlyNameMask), 0)
    case Failure(e) => Failure(e)
    case Success(b) => Success(NameCrop(gray, b))
  }

  /** The name image once the box of the name is known: the first col_to + 10 columns, thresholded at 130 and inverted. */
  function NameCrop(gray: GrayImage, b: CropBox): GrayImage {
    var cropNameImg := Crop(gray, Rect(0, 0, b.colTo + 10, gray.Height()));
    var mask2 := Threshold(cropNameImg, 130);
    Invert(mask2)
  }

  /** The column end auto-crop finds in the threshold-200 mask. */
  function NameEnd(gray: GrayImage): nat
    requires gray.Height() > 0
  {
    AutoCropDimensionsFails(Plane(Threshold(gray, 200)), 0);
    AutoCropDimensions(Plane(Threshold(gray, 200)), 0).value.colTo
  }

  /**
   * The name image keeps every row of the gray zone and its first
   * min(width, col_to + 10) columns, and it is the inverted threshold-130
   * mask of those columns.
   */
  lemma NameImageShape(gray: GrayImage)
    ensures NameImage(gray).Failure? <==> gray.Height() == 0
    ensures NameImage(gray).Success? ==> NameMask(NameImage(gray).value, gray, NameEnd(gray))
  {
    NameImageFails(gray);
    if NameImage(gray).Success? {
      ClippedMask(gray, AutoCropDimensions(Plane(Threshold(gray, 200)), 0).value);
    }
  }

  /** Like auto-crop, the name image fails exactly on a zone with no rows. */
  lemma NameImageFails(gray: GrayImage)
    ensures NameImage(gray).Failure? <==> gray.Height() == 0
  {
    AutoCropDimensionsFails(Plane(Threshold(gray, 200)), 0);
  }

  /**
   * `m` is the inverted threshold-130 mask of the first min(width, e + 10)
   * columns of `gray`, with all of its rows.
   */
  predicate NameMask(m: GrayImage, gray: GrayImage, e: nat) {
    && m.Height() == gray.Height() && m.width == (if gray.width < e + 10 then gray.width else e + 10) && IsBinary(m)
    && forall i, j :: 0 <= i < m.Height() && 0 <= j < m.width ==>
         m.rows[i][j] == if gray.rows[i][j] > 130 then 0 else 255
  }

  lemma ClippedMask(gray: GrayImage, b: CropBox)
    ensures NameMask(NameCrop(gray, b), gray, b.colTo)
  {
    var c := Crop(gray, Rect(0, 0, b.colTo + 10, gray.Height()));
    InvertedThreshold(c, 130);
  }

  /** Every column holding a pixel brighter than 200 stays in the name image. */
  lemma NameImageKeepsName(gray: GrayImage, i: nat, j: nat)
    requires i < gray.Height() && j < gray.width && gray.rows[i][j] > 200
    ensures NameImage(gray).Success? && j < NameImage(gray).value.width
  {
    var mask := Threshold(gray, 200);
    assert mask.rows[i][j] > 0;
    AutoCropDimensionsTight(Plane(mask), 0);
    NameImageShape(gray);
  }

  /** With nothing brighter than 200 the box ends at column 1, so 11 columns are kept. */
  lemma NameImageBlank(gray: GrayImage)
    requires gray.Height() > 0
    requires forall i, j :: 0 <= i < gray.Height() && 0 <= j < gray.width ==> gray.rows[i][j] <= 200
    ensures NameImage(gray).Success?
    ensures NameImage(gray).value.width == if gray.width < 11 then gray.width else 11
  {
    var mask := Threshold(gray, 200);
    assert Blank(mask, 0);
    AutoCropDimensionsBlank(Plane(mask), 0);
    NameImageShape(gray);
  }

  /** `recognize_name(img)`: the name image and the stripped text read from it. */
  function RecognizeName(img: ColorImage, lib: Library): Result<Recognition, Error> {
    match ToGray(img, lib.luma)
    case Failure(e) => Failure(e)
    case Success(gray) =>
      match NameImage(gray)
      case Failure(e) => Failure(e)
      case Success(recoImage) => Success(Recognition(recoImage, NameText(lib.readName(recoImage))))
  }

  /** recognize_name fails exactly when the zone is empty, and then in cvtColor. */
  lemma RecognizeNameFails(img: ColorImage, lib: Library)
    ensures RecognizeName(img, lib).Failure? <==> img.IsEmpty()
    ensures RecognizeName(img, lib).Failure? ==> RecognizeName(img, lib).error == EmptySource
  {
    if !img.IsEmpty() {
      NameImageShape(ToGray(img, lib.luma).value);
    }
  }

  // ---------------------------------------------------------------------------
  // Step 5: the hit records of a screenshot
  // ---------------------------------------------------------------------------

  /** RecognizedHitRecord. */
  datatype HitRecord = HitRecord(
    name: string,
    damage: string,
    originalImg: ColorImage,
    nameRecImg: GrayImage,
    damageRecImg: GrayImage,
    partyImg: ColorImage,
    bossImg: ColorImage)

  /** RecognizedImage: the records of one screenshot and a label. */
  datatype RecognizedImage = RecognizedImage(hitRecords: seq<HitRecord>, name: string)

  /**
   * The five `cv2.imwrite` calls of crop_hit_image when a report path is
   * given (the hit, then its name, party, boss and damage crops): imwrite
   * refuses an empty image. Where the files go is not modelled.
   */
  function SaveHitImages(reportPath: string, hit: ColorImage, zones: (ColorImage, ColorImage, ColorImage, ColorImage))
    : Outcome<Error>
  {
    if reportPath != "" && (hit.IsEmpty() || zones.0.IsEmpty() || zones.1.IsEmpty() || zones.2.IsEmpty() || zones.3.IsEmpty())
    then Fail(EmptyWrite)
    else Pass
  }

  /**
   * One iteration of recognize_screenshot's loop: crop the zones (saving
   * them when there is a report path), read the name, then the damage.
   */
  function RecognizeHit(hit: ColorImage, geometry: HitImageGeometry, lib: Library, reportPath: string)
    : Result<HitRecord, Error>
  {
    ReadZones(hit, CropHitImage(hit, geometry.nameRect, geometry.partyRect, geometry.damageRect, geometry.bossRect), lib, reportPath)
  }

  /** The same once the zones (name, party, boss, damage) are cropped. */
  function ReadZones(hit: ColorImage, zones: (ColorImage, ColorImage, ColorImage, ColorImage), lib: Library, reportPath: string)
    : Result<HitRecord, Error>
  {
    if SaveHitImages(reportPath, hit, zones).Fail? then Failure(EmptyWrite)
    else
    match RecognizeName(zones.0, lib)
    case Failure(e) => Failure(e)
    case Success(n) =>
      match RecognizeDamage(zones.3, lib)
      case Failure(e) => Failure(e)
      case Success(d) => Success(HitRecord(n.text, d.text, hit, n.image, d.image, zones.1, zones.2))
  }

  /**
   * Without a report path a hit fails exactly when its name zone or its
   * damage zone is empty, in cvtColor. With one, it also fails when the hit
   * or its party or boss zone is empty, and then already in imwrite.
   */
  lemma RecognizeHitFails(hit: ColorImage, geometry: HitImageGeometry, lib: Library, reportPath: string)
    ensures var zones := CropHitImage(hit, geometry.nameRect, geometry.partyRect, geometry.damageRect, geometry.bossRect);
      var saved := reportPath != "" && (hit.IsEmpty() || zones.0.IsEmpty() || zones.1.IsEmpty() || zones.2.IsEmpty() || zones.3.IsEmpty());
      var r := RecognizeHit(hit, geometry, lib, reportPath);
      && (r.Failure? <==> saved || zones.0.IsEmpty() || zones.3.IsEmpty())
      && (r.Failure? ==> r.error == if saved then EmptyWrite else EmptySource)
  {
    ReadZonesFails(hit, CropHitImage(hit, geometry.nameRect, geometry.partyRect, geometry.damageRect, geometry.bossRect), lib, reportPath);
  }

  /** The failure cases of reading cropped zones. */
  lemma ReadZonesFails(hit: ColorImage, zones: (ColorImage, ColorImage, ColorImage, ColorImage), lib: Library, reportPath: string)
    ensures var saved := reportPath != "" && (hit.IsEmpty() || zones.0.IsEmpty() || zones.1.IsEmpty() || zones.2.IsEmpty() || zones.3.IsEmpty());
      var r := ReadZones(hit, zones, lib, reportPath);
      && (r.Failure? <==> saved || zones.0.IsEmpty() || zones.3.IsEmpty())
      && (r.Failure? ==> r.error == if saved then EmptyWrite else EmptySource)
  {
    var saved := reportPath != "" && (hit.IsEmpty() || zones.0.IsEmpty() || zones.1.IsEmpty() || zones.2.IsEmpty() || zones.3.IsEmpty());
    if saved {
      assert SaveHitImages(reportPath, hit, zones) == Fail(EmptyWrite);
    } else {
      assert SaveHitImages(reportPath, hit, zones) == Pass;
      RecognizeNameFails(zones.0, lib);
      if zones.0.IsEmpty() {
        assert RecognizeName(zones.0, lib) == Failure(EmptySource);
      } else if zones.3.IsEmpty() {
        assert RecognizeDamage(zones.3, lib) == Failure(EmptySource);
      } else {
        assert RecognizeName(zones.0, lib).Success? && RecognizeDamage(zones.3, lib).Success?;
      }
    }
  }

  /** The record-reading step of recognize_screenshot's loop for one profile. */
  function HitReader(geometry: HitImageGeometry, lib: Library, reportPath: string): ColorImage -> Result<HitRecord, Error> {
    (hit: ColorImage) => RecognizeHit(hit, geometry, lib, reportPath)
  }

  /** The records of a list of hits, stopping at the first hit that raises. */
  function RecognizeHits(hits: seq<ColorImage>, read: ColorImage -> Result<HitRecord, Error>): Result<seq<HitRecord>, Error> {
    if hits == [] then Success([])
    else
      match RecognizeHits(hits[..|hits| - 1], read)
      case Failure(e) => Failure(e)
      case Success(prefix) =>
        match read(hits[|hits| - 1])
        case Failure(e) => Failure(e)
        case Success(h) => Success(prefix + [h])
  }

  /** All hits are recognized, one record per hit in hit order, unless some hit raises. */
  lemma {:induction false} RecognizeHitsAll(hits: seq<ColorImage>, read: ColorImage -> Result<HitRecord, Error>)
    ensures RecognizeHits(hits, read).Success? <==> forall i :: 0 <= i < |hits| ==> read(hits[i]).Success?
    ensures RecognizeHits(hits, read).Success? ==>
              var rs := RecognizeHits(hits, read).value;
              |rs| == |hits| && forall i :: 0 <= i < |hits| ==> rs[i] == read(hits[i]).value
  {
    if hits != [] {
      var n := |hits| - 1;
      RecognizeHitsAll(hits[..n], read);
      assert forall i :: 0 <= i < n ==> hits[..n][i] == hits[i];
    }
  }

  /** One more recognized hit extends the records by its record. */
  lemma RecognizeHitsStep(hits: seq<ColorImage>, i: nat, read: ColorImage -> Result<HitRecord, Error>)
    requires i < |hits|
    requires RecognizeHits(hits[..i], read).Success? && read(hits[i]).Success?
    ensures RecognizeHits(hits[..i + 1], read).Success?
    ensures RecognizeHits(hits[..i + 1], read).value == RecognizeHits(hits[..i], read).value + [read(hits[i]).value]
  {
    assert hits[..i + 1][..i] == hits[..i];
  }

  /** When hit `i` is the first to raise, its error is the one reported. */
  lemma {:induction false} RecognizeHitsFirstFailure(hits: seq<ColorImage>, i: nat, read: ColorImage -> Result<HitRecord, Error>)
    requires i < |hits|
    requires RecognizeHits(hits[..i], read).Success?
    requires read(hits[i]).Failure?
    ensures RecognizeHits(hits, read).Failure? && RecognizeHits(hits, read).error == read(hits[i]).error
    decreases |hits|
  {
    var n := |hits| - 1;
    if n == i {
      assert hits[..n] == hits[..i];
    } else {
      assert hits[..n][..i] == hits[..i];
      assert hits[..n][i] == hits[i];
      RecognizeHitsFirstFailure(hits[..n], i, read);
    }
  }

  /**
   * The records and the label recognize_screenshot assembles from its hits.
   * The label is the `name` argument only when there are no hits: the loop
   * reuses `name` for each recognized name, so otherwise it is the last
   * hit's name.
   */
  function Collected(hits: seq<ColorImage>, read: ColorImage -> Result<HitRecord, Error>, name: string): Result<RecognizedImage, Error> {
    match RecognizeHits(hits, read)
    case Failure(e) => Failure(e)
    case Success(records) =>
      Success(RecognizedImage(records, if records == [] then name else records[|records| - 1].name))
  }

  /**
   * What recognize_screenshot returns. With a report path, crop_hits_window
   * first saves a copy of the screenshot, which imwrite refuses when it is
   * empty; find_hits' two saved images come from a window that already
   * passed cvtColor, so they never fail.
   */
  function Recognized(img: ColorImage, cropRects: Profile, lib: Library, name: string, reportPath: string)
    : Result<RecognizedImage, Error>
  {
    if reportPath != "" && img.IsEmpty() then Failure(EmptyWrite)
    else
    var window := CropHitsWindow(img, cropRects.hitsWindow);
    match HitImages(window, cropRects.hitImage.minWidth, cropRects.hitImage.minHeight, lib)
    case Failure(e) => Failure(e)
    case Success(hits) => Collected(hits, HitReader(cropRects.hitImage, lib, reportPath), name)
  }

  /** The label is the last record's name, or `name` when there is no record. */
  lemma CollectedLabel(hits: seq<ColorImage>, read: ColorImage -> Result<HitRecord, Error>, name: string)
    requires Collected(hits, read, name).Success?
    ensures var c := Collected(hits, read, name).value;
      && (hits == [] ==> c.name == name)
      && (hits != [] ==> c.name == read(hits[|hits| - 1]).value.name)
  {
    RecognizeHitsAll(hits, read);
  }

  /**
   * A recognized screenshot has one record per box that passed the size
   * filter, in contour order, each holding the crop of its box.
   */
  lemma RecognizedRecords(img: ColorImage, cropRects: Profile, lib: Library, name: string, reportPath: string)
    requires Recognized(img, cropRects, lib, name, reportPath).Success?
    ensures var window := CropHitsWindow(img, cropRects.hitsWindow);
      var gray := ToGray(window, lib.luma).value;
      var kept := KeptBoxes(lib.contours(Threshold(gray, 15)), cropRects.hitImage.minWidth, cropRects.hitImage.minHeight);
      var records := Recognized(img, cropRects, lib, name, reportPath).value.hitRecords;
      && |records| == |kept|
      && forall k :: 0 <= k < |kept| ==> CroppedFrom(records[k].originalImg, window, BoxRect(kept[k]))
  {
    var window := CropHitsWindow(img, cropRects.hitsWindow);
    var gray := ToGray(window, lib.luma).value;
    var kept := KeptBoxes(lib.contours(Threshold(gray, 15)), cropRects.hitImage.minWidth, cropRects.hitImage.minHeight);
    var hits := HitCrops(window, kept);
    assert Recognized(img, cropRects, lib, name, reportPath) == Collected(hits, HitReader(cropRects.hitImage, lib, reportPath), name);
    RecordsKeepHits(hits, cropRects.hitImage, lib, reportPath);
    HitCropsCropped(window, kept);
  }

  /** Each record holds the hit it was read from. */
  lemma RecordsKeepHits(hits: seq<ColorImage>, geometry: HitImageGeometry, lib: Library, reportPath: string)
    requires RecognizeHits(hits, HitReader(geometry, lib, reportPath)).Success?
    ensures var records := RecognizeHits(hits, HitReader(geometry, lib, reportPath)).value;
      && |records| == |hits|
      && forall k :: 0 <= k < |hits| ==> records[k].originalImg == hits[k]
  {
    var read := HitReader(geometry, lib, reportPath);
    RecognizeHitsAll(hits, read);
    var records := RecognizeHits(hits, read).value;
    forall k | 0 <= k < |hits| ensures records[k].originalImg == hits[k] {
      assert records[k] == RecognizeHit(hits[k], geometry, lib, reportPath).value;
    }
  }

  /** The loop of recognize_screenshot over the hit images, given how one hit is read. */
  method CollectHits(hitImages: seq<ColorImage>, read: ColorImage -> Result<HitRecord, Error>, name: string)
    returns (r: Result<RecognizedImage, Error>)
    ensures r == Collected(hitImages, read, name)
  {
    var hitRecords: seq<HitRecord> := [];
    var lastName := name;
    var index := 0;
    while index < |hitImages|
      invariant 0 <= index <= |hitImages|
      invariant RecognizeHits(hitImages[..index], read).Success?
      invariant RecognizeHits(hitImages[..index], read).value == hitRecords
      invariant lastName == if hitRecords == [] then name else hitRecords[|hitRecords| - 1].name
    {
      var hit := read(hitImages[index]);
      if hit.Failure? {
        RecognizeHitsFirstFailure(hitImages, index, read);
        return Failure(hit.error);
      }
      lastName := hit.value.name;
      RecognizeHitsStep(hitImages, index, read);
      hitRecords := hitRecords + [hit.value];
      index := index + 1;
    }
    assert hitImages[..|hitImages|] == hitImages;
    return Success(RecognizedImage(hitRecords, lastName));
  }

  /** `recognize_screenshot(img, crop_rects, name, report_path)`. */
  method RecognizeScreenshot(img: ColorImage, cropRects: Profile, lib: Library, name: string, reportPath: string)
    returns (r: Result<RecognizedImage, Error>)
    ensures r == Recognized(img, cropRects, lib, name, reportPath)
  {
    var raidHitsImg := CropHitsWindow(img, cropRects.hitsWindow);
    if reportPath != "" && img.IsEmpty() {
      return Failure(EmptyWrite);
    }
    var found := FindHits(raidHitsImg, cropRects.hitImage.minWidth, cropRects.hitImage.minHeight, lib);
    if found.Failure? {
      return Failure(found.error);
    }
    r := CollectHits(found.value, HitReader(cropRects.hitImage, lib, reportPath), name);
  }
}
