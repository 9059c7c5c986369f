# Guardian Tales raid-hit reader, modelled in Dafny

The program reads screenshots of the raid "hits" list of the game Guardian
Tales and writes one spreadsheet row per hit. Each row holds the player's
name, the damage, thumbnails of the name, damage, party, boss and whole hit,
the file name and the hit's position. This project models the program's
deterministic part and proves properties of that model:

- `gtraid/image_reco.py` becomes `image_reco.dfy` (module `ImageReco`):
  - the lookup of the crop profile for a screen resolution (class `DimensionsFile`);
  - cropping the hits window, the hit boxes and the four zones of a hit;
  - filtering the hit boxes by their minimum size;
  - thresholding and inverting the damage and name masks;
  - `auto_crop_dimensions` / `auto_crop`;
  - cutting the name image at the end of the name;
  - cleaning up the OCR text;
  - assembling the records of a screenshot.
- `gt.py` becomes `report.dfy` (module `Report`). Its main loop is the class
  `RaidReport`, with one method per hit record, one per file and a `Run` over
  all files. The class tracks:
  - `damage_name_map`, the duplicate map;
  - `cur_row`;
  - the five `max_*_width` running widths;
  - the worksheet contents: column widths, row heights and cells.

  The class's invariant ties all of this to the rows written so far. The
  file-name and report-prefix string functions live in the same module.
- Shared pieces:
  - `raster.dfy` (module `Raster`): images as grids of bytes, numpy slicing,
    OpenCV's `THRESH_BINARY`, inversion, maxima and `np.where`;
  - `strings.dfy` (module `Strings`): the Python string operations the
    program uses (`strip`, `replace`, `str(n)`, `int(s)`, `basename`, `splitext`);
  - `wrappers.dfy`: `Option`, `Result` and `Outcome`, which stand in for
    `None` and for exceptions.

The library calls are parameters of the model: a `Library` value (`luma`,
`contours`, `readName`, `readDigits`) for OpenCV's grayscale conversion,
its contour bounding boxes and Tesseract, and a `Resizer` for `cv2.resize`.

Where the program's comments or a plain reading of it suggest something
other than what the code does, the model follows the code:

- Slices clamp. A crop rectangle that runs past the image gives a smaller
  crop; nothing raises. A negative bound counts from the end.
- Contours come from the threshold-15 `mask`. The morphological closing
  (`close`) is computed but never used.
- `auto_crop_dimensions` returns (row_from, row_to, col_from, col_to),
  whatever its docstring says. Both callers use that order consistently:
  `auto_crop` slices rows first, and `recognize_name` takes index 3 as the
  column end.
- Errors:
  - A missing resolution profile raises `KeyError` and stops the whole run.
  - So does any exception inside recognition or thumbnail making, for
    example `cvtColor` on an empty zone or `cv2.resize` to nothing.
  - With a report folder (the default is `report`), `crop_hit_image` saves
    the hit and its four zones with `cv2.imwrite`, which raises on an empty
    image. An empty party or boss zone then stops the run during
    recognition, before any row of that file is written. Without a report
    folder the same zone stops it later, in `cv2.resize`.
  - `np.max` over an axis of length zero raises even when the result would
    have no elements, so `auto_crop_dimensions` raises on any array
    without rows, the (0, 0) array included.
  - Only an unreadable file (`imread` gives `None`) is skipped.
  - An unparsable damage leaves column C empty and the run goes on.
- The label of `RecognizedImage` is the name of the last hit, because the
  `name` parameter is overwritten inside the loop (the given name only
  survives when there are no hits).
- `replace("\n\f,", "")` is a single pass. Its output can still contain
  `"\n\f,"` (`ImageReco.DamageTextCanLeaveArtifact`).
- The duplicate key is `damage + name` with no separator. Different pairs
  can share a key (`Report.KeyJoinCollides`).
- As written, `recognize_damage` converts its one-channel mask with
  `COLOR_BGR2RGB`, which OpenCV rejects. The model records this under
  "## Findings" and otherwise uses the evidently intended version, which
  hands the mask to OCR as it is.

## Model

| member | source | states |
|---|---|---|
| Strings.Strip | gtraid/image_reco.py:256 | `str.strip()`: the result is no longer than the input, is empty or begins and ends with a non-whitespace character, and is the input minus a whitespace prefix and a whitespace suffix |
| Strings.StripIdempotent | gtraid/image_reco.py:321-322 | stripping a stripped string changes nothing |
| Strings.StripKeeps | gtraid/image_reco.py:321-322 | a string without surrounding whitespace is returned unchanged by strip |
| Strings.Replace | gtraid/image_reco.py:256 | definition of `s.replace(pat, rep)` for a non-empty pattern: one left-to-right scan that replaces each non-overlapping occurrence; what it does is stated by the lemmas below |
| Strings.ReplaceAbsent | gtraid/image_reco.py:256 | `replace` leaves a string unchanged when the pattern occurs nowhere in it |
| Strings.ReplaceSkips | gtraid/image_reco.py:256 | a prefix that never holds the pattern's first character passes through `replace` untouched |
| Strings.ReplaceHead | gtraid/image_reco.py:256 | an occurrence at the front is replaced and the scan resumes right after it |
| Strings.ReplaceJoins | gtraid/image_reco.py:256 | removing the single occurrence between two pattern-free strings joins the two |
| Strings.ReplaceRejoins | gtraid/image_reco.py:256 | the scan does not look back: removing an occurrence can join the characters around it into a new occurrence, which survives |
| Strings.RejoinTail | gtraid/image_reco.py:256 | the tail step of that: after a partial match the next occurrence is removed and the rest kept |
| Strings.ReplaceUntouched | gtraid/image_reco.py:256 | a string that never holds the pattern's first character is unchanged |
| Strings.ReplaceShortens | gt.py:109 | removing a pattern never lengthens a string |
| Strings.ReplaceCharDeletes | gt.py:109 | removing a one-character pattern deletes every copy of that character and keeps every other character, as a multiset |
| Strings.ReplaceCharGone | gt.py:109 | after `replace(',', '')` no comma is left |
| Strings.ReplaceCharFrom | gt.py:109 | every character of `replace(',', '')`'s result was in its input and is not a comma |
| Strings.IntToString | gt.py:109 | reference printing of an integer (a '-' for a negative one, then its digits), against which `int()` is checked in `Strings.IntRoundTrip` |
| Strings.NatToString | gtraid/image_reco.py:56 | `str(n)` is non-empty, all decimal digits, and starts with '0' only for 0 |
| Strings.DigitsRoundTrip | gtraid/image_reco.py:56 | the digits `str(n)` prints have the value n |
| Strings.NatToStringInjective | gtraid/image_reco.py:56 | different numbers print differently |
| Strings.UnderscoresGone | gt.py:109 | digits and underscores with the underscores removed are all digits |
| Strings.DigitGroupsValue | gt.py:109 | `int()` gives the body of a number a value exactly when it is digit groups joined by single underscores |
| Strings.DigitGroupsRoundTrip | gt.py:109 | `int()` reads the digits `str(n)` prints as n |
| Strings.ParseInt | gt.py:109 | definition of `int(s)` on ASCII digits: the whitespace around the number must be whitespace `int()` skips (`isspace` without U+001C to U+001F), then one optional sign and digit groups; `None` where Python raises ValueError |
| Strings.ParseIntSeparator | gt.py:109 | a leading U+001C, which `strip()` drops, makes `int()` raise, while ordinary surrounding whitespace is skipped |
| Strings.IntRoundTrip | gt.py:109 | `int(str(i)) == i` for every integer, negative ones included |
| Strings.ParseIntEmpty | gt.py:109 | `int('')` raises |
| Strings.RFind | gt.py:90 | `rfind`: -1 or an index holding the character with none of it after |
| Strings.RFindAt | gt.py:90 | the last position of a character is what `rfind` returns |
| Strings.RFindNone | gt.py:90 | `rfind` of an absent character is -1 |
| Strings.BaseName | gt.py:90 | `os.path.basename`: a suffix of the path with no '/', preceded by a '/' unless it is the whole path |
| Strings.SplitExtRoot | gt.py:90 | `os.path.splitext(p)[0]`: a prefix of p; it is shorter exactly when the last '.' comes after the last '/' with a non-dot character between them, and it then ends just before that '.'; nothing after the cut is a '.' or a '/' |
| Strings.SplitExtRootRemoves | gt.py:90 | splitext removes exactly an extension: the root is shorter than p exactly when the last '.' follows the last '/' and some non-dot character of that last component stands before it, and the root is then p up to that '.' |
| Strings.SplitExtRootNonEmpty | gt.py:90 | `splitext` never strips a name down to nothing, so a leading dot is not an extension |
| Raster.SliceBound | gtraid/image_reco.py:82 | numpy slice bound: a bound inside the axis is kept, a negative bound counts from the end, and the result is clamped to the axis |
| Raster.SliceLen | gtraid/image_reco.py:82 | a slice's length fits the axis after its start, and an in-bounds slice `lo:hi` has hi - lo elements |
| Raster.Crop | gtraid/image_reco.py:82 | `img[y0:y1, x0:x1]` has the clamped slice's shape, and each pixel is the source pixel at the same offset from the slice's corner |
| Raster.CroppedFromUnique | gtraid/image_reco.py:82 | a crop is determined by the image and the rectangle |
| Raster.CropWithin | gtraid/image_reco.py:203-216 | an in-bounds crop has (y_end - y_start) rows and (x_end - x_start) columns, and crop[i][j] = img[y_start + i][x_start + j] |
| Raster.CropAt | gtraid/image_reco.py:203-216 | the same fact for one pixel |
| Raster.CropWhole | gtraid/image_reco.py:289 | cropping to the whole image returns the image |
| Raster.Threshold | gtraid/image_reco.py:120 | `THRESH_BINARY`: same shape; a pixel is 255 when strictly above the threshold, else 0 |
| Raster.Invert | gtraid/image_reco.py:242 | `255 - img`: same shape, every pixel complemented |
| Raster.ThresholdBinary | gtraid/image_reco.py:304 | a thresholded image holds only 0 and 255 |
| Raster.InvertInvolutive | gtraid/image_reco.py:317 | inverting twice gives the image back |
| Raster.InvertedThreshold | gtraid/image_reco.py:242 | the inverted mask is 0 where the pixel is above the threshold and 255 elsewhere, and is binary |
| Raster.InvertCrop | gt.py:127 | inverting and cropping commute, which makes `255 - auto_crop(255 - img)` a crop of `img` itself |
| Raster.Max | gtraid/image_reco.py:276 | `np.max` of a non-empty sequence is one of its elements and no element exceeds it |
| Raster.MaxAbove | gtraid/image_reco.py:276 | the maximum is above t exactly when some element is |
| Raster.MaxByte | gtraid/image_reco.py:271 | the maximum of bytes is a byte |
| Raster.Column | gtraid/image_reco.py:276 | a column of an image, top to bottom |
| Raster.ColumnMaxima | gtraid/image_reco.py:276 | `np.max(img, 0)`: one maximum per column |
| Raster.RowMaxima | gtraid/image_reco.py:278 | `np.max(img, 1)`: one maximum per row |
| Raster.ChannelMaxima | gtraid/image_reco.py:270-271 | `np.max(img, 2)`: same shape, each pixel the maximum of its channels |
| Raster.ChannelMaximaCrop | gtraid/image_reco.py:270-271 | flattening the channels commutes with cropping |
| Raster.Where | gtraid/image_reco.py:276 | `np.where(bits)[0]`: indices of true entries, no more of them than entries |
| Raster.WhereIncreasing | gtraid/image_reco.py:276 | those indices are strictly increasing |
| Raster.WhereComplete | gtraid/image_reco.py:276 | every true entry's index is among them |
| Raster.WhereEnds | gtraid/image_reco.py:280 | any true entry lies between the first and last index found |
| ImageReco.ResolutionKey | gtraid/image_reco.py:56 | definition of the key `f"w{width}h{height}"`; its shape and injectivity are the two lemmas below |
| ImageReco.ResolutionKeyDigits | gtraid/image_reco.py:56 | the key `"w{width}h{height}"` is 'w', the width's digits, 'h', the height's digits |
| ImageReco.ResolutionKeyInjective | gtraid/image_reco.py:56 | different resolutions give different keys |
| ImageReco.DimensionsFile.constructor | gtraid/image_reco.py:30-44 | the profiles are held as given |
| ImageReco.DimensionsFile.GetCropRects | gtraid/image_reco.py:46-61 | succeeds exactly when the key for the image's width and height is present, returns that entry, and otherwise raises KeyError naming the key |
| ImageReco.ToGray | gtraid/image_reco.py:117 | on the 3-channel images `imread` gives, `cvtColor` raises exactly on an empty image; otherwise same shape, pixel by pixel |
| ImageReco.CropHitsWindow | gtraid/image_reco.py:64-99 | the hits window is the clamped crop of the screenshot, of exactly the rectangle's size when it is in bounds |
| ImageReco.KeptBoxes | gtraid/image_reco.py:143-157 | no more boxes than given, and a box is kept exactly when its height and width strictly exceed the minimums |
| ImageReco.KeepFlags | gtraid/image_reco.py:146 | each box's keep decision, in order |
| ImageReco.KeptBoxesInOrder | gtraid/image_reco.py:143-157 | the kept boxes are the boxes at the kept positions, in input order |
| ImageReco.KeptBoxesStep | gtraid/image_reco.py:146-150 | one more box is appended when it passes the filter and dropped otherwise |
| ImageReco.HitCrops | gtraid/image_reco.py:149-150 | one crop per kept box |
| ImageReco.HitCropsCropped | gtraid/image_reco.py:149 | crop k is `img[y:y+height, x:x+width]` of box k |
| ImageReco.HitCropsPush | gtraid/image_reco.py:150 | a new kept box appends its crop |
| ImageReco.HitCropSize | gtraid/image_reco.py:149 | an in-bounds box's crop is height by width |
| ImageReco.HitImages | gtraid/image_reco.py:102-171 | definition of what `find_hits` returns: gray conversion (raising on an empty window), the threshold-15 mask, its contours' boxes filtered and cropped in order |
| ImageReco.FindHits | gtraid/image_reco.py:102-171 | the loop returns the crops of the kept boxes of the threshold-15 mask's contours, in order, and raises as `cvtColor` does |
| ImageReco.CropHitImage | gtraid/image_reco.py:174-227 | the four crops are returned as (name, party, boss, damage), each the crop of its own rectangle |
| ImageReco.SaveHitImages | gtraid/image_reco.py:219-225 | definition of the five `imwrite` calls: with a report path, raises when the hit or any of its four zones is empty; without one, nothing happens |
| ImageReco.DamageText | gtraid/image_reco.py:255-256 | definition of the damage clean-up: an empty reading stays empty, any other is stripped and then has `"\n\f,"` removed in one pass |
| ImageReco.NameText | gtraid/image_reco.py:321-322 | the name text is no longer than the OCR text and has no surrounding whitespace |
| ImageReco.CleanupKeepsEmpty | gtraid/image_reco.py:255 | an empty OCR string is returned as it is |
| ImageReco.DamageTextShape | gtraid/image_reco.py:255-256 | the damage text is no longer than the OCR text, and is just the stripped text when that has no `"\n\f,"` |
| ImageReco.DamageTextJoinsDigits | gtraid/image_reco.py:256 | an OCR artefact between two digit runs is removed and the digits joined |
| ImageReco.DamageTextCanLeaveArtifact | gtraid/image_reco.py:256 | for some inputs the cleaned text still contains `"\n\f,"` |
| ImageReco.RecognizeDamage | gtraid/image_reco.py:230-259 | the evidently intended `recognize_damage`, with the mask handed to OCR: raises exactly on an empty zone, with cvtColor's empty-source error; the mask is binary, of the zone's shape, 0 where gray > 160 and 255 elsewhere; the text is OCR's reading of that mask, cleaned up |
| ImageReco.PlaneToRgb | gtraid/image_reco.py:252 | definition of `cvtColor(x, COLOR_BGR2RGB)` on a 2-D array: the empty-source error for an empty one, the channel-count error (one channel, where 3 or 4 are accepted) for any other |
| ImageReco.RecognizeDamageAsWritten | gtraid/image_reco.py:230-259 | definition of `recognize_damage` as written, with the BGR2RGB conversion of the mask before OCR |
| ImageReco.RecognizeDamageAsWrittenFails | gtraid/image_reco.py:252 | as written, `recognize_damage` raises on every zone: the empty-source error on an empty one, the channel-count error on any other, where the intended version succeeds |
| ImageReco.Flat | gtraid/image_reco.py:270-273 | the flattened image has the array's height and width |
| ImageReco.FlatCrop | gtraid/image_reco.py:270-289 | flattening commutes with cropping |
| ImageReco.Above | gtraid/image_reco.py:276 | `maxima > threshold`, element by element |
| ImageReco.WhereSpan | gtraid/image_reco.py:276-280 | the first and last true index bound every true entry and exist exactly when one does |
| ImageReco.ColumnFlags | gtraid/image_reco.py:276 | a column's flag is set exactly when the column has a pixel above the threshold |
| ImageReco.RowFlags | gtraid/image_reco.py:278 | a row's flag is set exactly when the row has a pixel above the threshold |
| ImageReco.BrightColumnsSpan | gtraid/image_reco.py:276-280 | the first and last bright columns exist exactly when a bright column does, and span every one |
| ImageReco.BrightRowsSpan | gtraid/image_reco.py:278-280 | the same for rows |
| ImageReco.BrightRowExists | gtraid/image_reco.py:277-278 | a bright column implies a bright row |
| ImageReco.BrightBox | gtraid/image_reco.py:276-283 | definition of the body of `auto_crop_dimensions` on the flattened image: raises on an image without rows; otherwise (first bright row, last + 1, first bright column, last + 1), or (0, 1, 0, 1) with no bright column |
| ImageReco.AutoCropDimensions | gtraid/image_reco.py:262-283 | definition of `auto_crop_dimensions`: the box of the image reduced over its channels; its properties are the lemmas below |
| ImageReco.AutoCropDimensionsFails | gtraid/image_reco.py:276 | `np.max(flat_image, 0)` raises exactly for an array with no rows, whatever its width, the (0, 0) array included |
| ImageReco.AutoCropDimensionsBlank | gtraid/image_reco.py:281-283 | an image with at least one row and nothing above the threshold gives (0, 1, 0, 1) |
| ImageReco.AutoCropDimensionsTight | gtraid/image_reco.py:276-280 | otherwise the result is the tight box |
| ImageReco.BrightInside | gtraid/image_reco.py:276-280 | a bright pixel's row and column are between the first and last bright ones |
| ImageReco.BrightBoxValue | gtraid/image_reco.py:280 | the box is (first bright row, last + 1, first bright column, last + 1) |
| ImageReco.BrightBoxContains | gtraid/image_reco.py:280 | every pixel above the threshold lies in [r0, r1) x [c0, c1) |
| ImageReco.BrightBoxBorders | gtraid/image_reco.py:280 | rows r0 and r1 - 1 and columns c0 and c1 - 1 each hold such a pixel, and the box is non-empty and inside the image |
| ImageReco.BrightBoxTight | gtraid/image_reco.py:276-280 | the box is tight |
| ImageReco.TightBoxUnique | gtraid/image_reco.py:263 | there is only one tight box |
| ImageReco.TightInside | gtraid/image_reco.py:263 | a tight box lies inside any other |
| ImageReco.AutoCrop | gtraid/image_reco.py:286-289 | definition of `auto_crop`: the array sliced by its auto-crop box, or auto_crop_dimensions' exception |
| ImageReco.AutoCropValue | gtraid/image_reco.py:286-289 | `auto_crop` slices rows r0:r1 and columns c0:c1 of the box, and raises exactly when the box computation does |
| ImageReco.AutoCropNonEmpty | gtraid/image_reco.py:286-289 | auto-cropping a non-empty image gives at least 1x1 |
| ImageReco.AutoCropKeepsBright | gtraid/image_reco.py:286-289 | every pixel above the threshold survives, shifted by the cropped margins |
| ImageReco.BoxCropKeeps | gtraid/image_reco.py:289 | a pixel inside the box is kept at its shifted place |
| ImageReco.AutoCropAround | gtraid/image_reco.py:286-289 | an above-threshold pixel lies inside the box, and the flattened result is the crop of the flattened image |
| ImageReco.CropKeepsBrightLines | gtraid/image_reco.py:289 | a bright pixel's row and column are bright in the crop |
| ImageReco.CropBorders | gtraid/image_reco.py:289 | bright pixels on the box's border lines leave the crop bright on its four borders |
| ImageReco.TightCropGray | gtraid/image_reco.py:289 | the crop to a tight box is bright on its four borders |
| ImageReco.TightCropIsWhole | gtraid/image_reco.py:289 | the crop to a tight box is not blank, and its own tight box is all of it |
| ImageReco.WholeTight | gtraid/image_reco.py:276-280 | an image bright on all four borders is its own tight box |
| ImageReco.CropNdWhole | gtraid/image_reco.py:289 | the whole slice of an array is the array |
| ImageReco.AutoCropIdempotent | gtraid/image_reco.py:263-289 | auto-cropping an auto-cropped image changes nothing |
| ImageReco.CropNdSmall | gtraid/image_reco.py:282-283 | the `[:1, :1]` slice of an image of at most 1x1 is the image |
| ImageReco.NameImage | gtraid/image_reco.py:304-317 | definition of the image `recognize_name` hands to OCR: threshold at 200, auto-crop box, `gray[:, :c1 + 10]`, threshold at 130, inverted |
| ImageReco.NameImageShape | gtraid/image_reco.py:304-317 | the name image raises exactly on a zone with no rows; otherwise it has all the rows of gray and its first min(width, c1 + 10) columns, it holds `255 - threshold(gray, 130)` there, and it is binary |
| ImageReco.NameImageFails | gtraid/image_reco.py:308 | the name image raises exactly as auto-crop does |
| ImageReco.ClippedMask | gtraid/image_reco.py:311-317 | once the box is known, the name image is the inverted threshold-130 mask of the clamped column slice |
| ImageReco.NameImageKeepsName | gtraid/image_reco.py:304-311 | every column with a pixel brighter than 200 stays in the name image |
| ImageReco.NameImageBlank | gtraid/image_reco.py:308-311 | with nothing brighter than 200, c1 is 1, so min(width, 11) columns are kept |
| ImageReco.RecognizeName | gtraid/image_reco.py:292-333 | definition of `recognize_name`: gray conversion, the name image, and the stripped OCR text |
| ImageReco.RecognizeNameFails | gtraid/image_reco.py:292-333 | `recognize_name` raises exactly on an empty zone, in `cvtColor` |
| ImageReco.RecognizeHit | gtraid/image_reco.py:364-397 | definition of one pass of the hit loop: crop the zones, save them when there is a report path, read the name, then the damage |
| ImageReco.RecognizeHitFails | gtraid/image_reco.py:382-388 | without a report path a hit raises exactly when its name or damage zone is empty, in `cvtColor`; with one it also raises when the hit or its party or boss zone is empty, and then in `imwrite` |
| ImageReco.RecognizeHits | gtraid/image_reco.py:364-397 | definition of the records of a list of hits, stopping at the first hit that raises |
| ImageReco.RecognizeHitsAll | gtraid/image_reco.py:364-397 | the records exist exactly when every hit is recognized, one record per hit image, in order |
| ImageReco.RecognizeHitsStep | gtraid/image_reco.py:397 | one more recognized hit appends its record |
| ImageReco.RecognizeHitsFirstFailure | gtraid/image_reco.py:364-397 | the first hit that raises is the screenshot's exception |
| ImageReco.Collected | gtraid/image_reco.py:361-401 | definition of the records and the label `recognize_screenshot` assembles from its hits |
| ImageReco.Recognized | gtraid/image_reco.py:336-401 | definition of what `recognize_screenshot` returns: with a report path, raises on an empty screenshot (its saved copy); then the window, its hits and the records of the hits |
| ImageReco.CollectedLabel | gtraid/image_reco.py:387-400 | the result's name is the last hit's name, or the given name when there are no hits |
| ImageReco.RecognizedRecords | gtraid/image_reco.py:336-401 | a recognized screenshot has one record per kept box, and each record's original image is that box's crop of the hits window |
| ImageReco.CollectHits | gtraid/image_reco.py:361-400 | the loop computes exactly what the record-assembly definition gives, the first exception included |
| ImageReco.RecognizeScreenshot | gtraid/image_reco.py:336-401 | the method computes `recognize_screenshot`'s result or its exception |
| Report.ImageBaseName | gt.py:90 | the base name has no '/', is a prefix of the last path component, is shorter than it exactly when that component has an extension, and then ends just before its last '.' |
| Report.ImageBaseNameIsPrefixOfBaseName | gt.py:90 | the same with the cut spelled out: the base name is the component up to its last '.' when it has an extension, the whole component otherwise, never empty when cut, and no '.' follows the cut |
| Report.ImageBaseNameDropsDirAndExt | gt.py:90 | "shots/raid_01.png" gives "raid_01" |
| Report.ImageBaseNameDotInDir | gt.py:90 | "a.b/c" gives "c": a dot in a directory is no extension |
| Report.ImageBaseNameHidden | gt.py:90 | "x/.hidden" gives ".hidden" |
| Report.ReportPrefix | gt.py:93 | "" without a report folder; otherwise the folder, '/', the base name and '_' |
| Report.ReportPrefixInjective | gt.py:93 | within one folder, different base names give different prefixes |
| Report.ParseDamage | gt.py:109 | definition of `int(damage.replace(',', ''))`, `None` where `int()` raises ValueError |
| Report.ParseDamageIgnoresCommas | gt.py:109 | removing commas first changes nothing |
| Report.ParseDamageRoundTrip | gt.py:109 | every printed integer is read back |
| Report.ParseDamageOnlyCommas | gt.py:109 | ",," reads as no damage |
| Report.DamageWithSeparator | gt.py:107-117 | "12,345" is written as 12345 |
| Report.DamageOf | gt.py:107-124 | definition of the damage a record's text gives: none for an empty text, otherwise what `int()` reads after the commas go |
| Report.DamageAfterSeparatorChar | gt.py:107-122 | the OCR reading ",\x1c5" keeps its U+001C through `strip()`, so after the comma goes `int()` raises and no damage is read |
| Report.DamageMap | gt.py:111-120 | definition of `damage_name_map` after a list of rows: each new pair of a read damage mapped to that damage |
| Report.DamageMapPush | gt.py:109-120 | a row whose damage was not read leaves the map alone; a read damage is added under its pair only if the pair is new; an existing entry is never overwritten |
| Report.DamageMapKeys | gt.py:113-116 | a pair is in the map exactly when some row read a damage under it |
| Report.DamageMapFirst | gt.py:113-117 | the map holds the first damage read under each pair |
| Report.Widest | gt.py:59-63 | the running width never drops below 100 |
| Report.WidestBounds | gt.py:131-132 | the running width is at least every width seen, and is 100 or one of them |
| Report.WidestPush | gt.py:131-132 | a new width replaces the running one only when strictly wider |
| Report.ColumnFits | gt.py:131-133 | every thumbnail fits its column; a column that grew is its widest thumbnail plus 10; a column no thumbnail outgrew stays 100 |
| Report.Widths | gt.py:129 | one width per row |
| Report.WidthsAt | gt.py:129 | width k is row k's thumbnail width |
| Report.WidthsPush | gt.py:129 | one more row appends its width |
| Report.WidestAfter | gt.py:131-132 | one more row moves the running width only when its thumbnail is wider |
| Report.RowHeight | gt.py:177 | the row height is one of the five thumbnail heights and at least each of them |
| Report.Resized | gt.py:128 | `cv2.resize` raises exactly for an empty source or an empty result; otherwise it gives the resized width and height |
| Report.Trimmed | gt.py:127 | definition of `255 - auto_crop(255 - img)` |
| Report.TrimmedFails | gt.py:127 | trimming a name or damage image raises exactly for an image with no rows |
| Report.TrimmedIsCrop | gt.py:127 | the trimmed picture is the picture itself cropped to the box auto_crop finds in its inverse |
| Report.TrimmedKeepsInk | gt.py:127 | every non-white pixel survives the trim, shifted by the trimmed margins |
| Report.TrimmedNonEmpty | gt.py:127 | a non-empty image trims to a non-empty one |
| Report.Thumbnails | gt.py:126-174 | definition of a record's five thumbnails in the code's order; the first trim or resize that raises stops the record |
| Report.Pictures | gt.py:146-174 | definition of the party, boss and hit thumbnails, the hit one shown at 0.3 of its 70 % copy |
| Report.ThumbnailsNeedZones | gt.py:147-165 | an empty party, boss or hit image makes the record raise |
| Report.PicturesNeedZones | gt.py:147-165 | the same for the last three thumbnails |
| Report.ThumbnailsDefined | gt.py:126-174 | with non-empty images and a resize that keeps positive sizes, the thumbnails exist: party at 50 % and hit at 70 % scaled again by 0.3 |
| Report.ResizedOk | gt.py:128 | a non-empty image resized by a positive factor keeps positive sizes |
| Report.TrimmedResizes | gt.py:127-128 | a trimmed non-empty image can be resized |
| Report.ThumbnailsWhen | gt.py:126-174 | when every step succeeds, the thumbnails exist |
| Report.ThumbnailsParts | gt.py:147-169 | the party thumbnail is the 50 % resize and the hit thumbnail is the 70 % resize scaled by 0.3 |
| Report.PicturesParts | gt.py:147-169 | the same after the name and damage thumbnails |
| Report.FitPane | gt.py:131-133 | one picture block: a wider thumbnail becomes the running width and its column is set to it plus 10; otherwise both stay |
| Report.DamageCell | gt.py:107-120 | definition of column C: the damage read, if any, marked as a repeat when the map of the earlier rows holds its pair |
| Report.Cells | gt.py:104-182 | column C is set exactly when a damage was read, with that damage; A, B and D to I all receive a value: name and file as text, the hit number, four pictures |
| Report.RowCells | gt.py:104-182 | definition of the cells of one row given the rows before it |
| Report.HeightsOf | gt.py:178 | one height per row |
| Report.CellsOf | gt.py:104-182 | one set of cells per row |
| Report.SheetOf | gt.py:43-184 | definition of the worksheet after a list of rows: column settings from the running widths, the row heights and the cells |
| Report.SheetHeights | gt.py:177-178 | worksheet row k + 1 is as tall as row k's tallest thumbnail |
| Report.SheetCells | gt.py:104-182 | worksheet row k + 1 holds row k's cells, marked as a repeat according to the rows before it |
| Report.SheetPush | gt.py:177-184 | one more row appends its height and cells and leaves the earlier ones |
| Report.SheetStep | gt.py:126-184 | refitted columns plus an appended height and cells give the worksheet of one more row |
| Report.RepeatedIff | gt.py:107-120 | column C of row k holds exactly the damage read, highlighted exactly when an earlier row read a damage under the same pair |
| Report.KeyJoinCollides | gt.py:111 | ("1", "5x") and ("15", "x") share the key "15x", so the second, a different name and damage, is highlighted as a repeat |
| Report.RepeatAfter | gt.py:114-120 | a second row with the same pair is highlighted |
| Report.FileRows | gt.py:100-184 | definition of the rows of one screenshot's records, numbered from 0, stopping at the first record that raises |
| Report.FileRowsShape | gt.py:100-184 | a file's rows are one per record, row k from record k with hit index k |
| Report.FileRowsStep | gt.py:100-184 | one more record appends its row, or its exception stops the file |
| Report.FileRowsFailure | gt.py:100-184 | an exception in a prefix of the records is the file's exception |
| Report.ScreenshotRows | gt.py:84-96 | definition of what one file adds: nothing when unreadable, KeyError without a profile, otherwise the rows of the records recognized with the report path built from the folder and the base name |
| Report.ScreenshotNeedsProfile | gt.py:89 | a readable screenshot without a profile for its resolution raises KeyError naming the key |
| Report.RunRows | gt.py:79-184 | definition of the rows of a whole run, file after file, stopping at the first exception |
| Report.RunRowsStep | gt.py:79-184 | one more file appends its rows, or its exception stops the run |
| Report.RunRowsFailure | gt.py:79-184 | an exception in a prefix of the files is the run's exception |
| Report.RunSkipsUnreadable | gt.py:84-87 | files that cannot be read add no rows |
| Report.WriteDamage | gt.py:106-124 | returns the duplicate map after the row, and the cell: none, or the damage with the plain or the highlighted style |
| Report.FitColumns | gt.py:126-174 | the five width checks give the running widths and the column settings of the rows so far plus this row |
| Report.RaidReport.Valid | gt.py:53-70 | the loop's state is what writing the rows so far produces: `cur_row` is one past their number, and the map, the running widths and the worksheet are those of the rows |
| Report.RaidReport.constructor | gt.py:43-70 | empty map, row 1, widths 100, columns A and C 15 characters, G 400 pixels, the picture columns 100 pixels, nothing written |
| Report.RaidReport.AddHit | gt.py:100-184 | a record whose thumbnails raise changes nothing (the model makes the thumbnails first); otherwise exactly its row is appended, `cur_row` moves on by one, and map, widths and worksheet are those of the rows written |
| Report.RaidReport.AddHits | gt.py:100-184 | the hit loop of a file appends that file's rows, or stops with the first record's exception |
| Report.RaidReport.ProcessFile | gt.py:79-184 | a file adds nothing when unreadable, raises KeyError without a profile, and otherwise adds the rows of the hits recognized with its report path |
| Report.Run | gt.py:53-184 | the whole run writes exactly the rows of all readable files in order, or stops with the first exception |

## Left out

- `cv2.cvtColor`'s weighted grayscale, `morphologyEx`, `findContours`/`boundingRect` and Tesseract OCR are parameters (`Library`). Their numerics are not modelled.
- `cv2.resize`'s rounding is a parameter (`Resizer`). It is also what raises on an empty image or an empty result.
- ImageReco.ToGray: images are taken to be what `cv2.imread` gives with its default flags, 3-channel BGR, and crops keep that. OpenCV's refusal of a `COLOR_BGR2GRAY` source without 3 or 4 channels is not modelled, and a pixel of any length is converted by `luma`.
- Report.Pictures: the hit picture's display scale 0.3 (`hit_width*hit_image_scale`) is exact real arithmetic in the model, where Python multiplies doubles and 0.3 is not exactly 3/10. The running hit width, its column setting and the row height derived from it differ from Python's in their last bits only; for integer picture sizes every `>` comparison comes out the same, because multiplying by a positive double is monotone and no integer times 3/10 is 100.
- `cv2.imencode` and the encoded bytes are not modelled. Each cell records the picture's displayed size.
- YAML loading in `DimensionsFile.__init__`: the profile map is given to the constructor. A YAML error is not modelled.
- xlsxwriter is modelled as a worksheet value: column settings, row heights and cells. Formats, `insert_image` options and `workbook.close()` are not, and neither is a file left unclosed after an exception.
- Report.Cells: a text cell holds the string given to `write()`; that xlsxwriter stores an empty string as a blank cell and one starting with '=' as a formula is not modelled.
- The debug output is not modelled: `print`, `imshow`/`waitKey`, the names and contents of the report images, and `cv2.rectangle`/`drawContours` on debug copies. Of the report images, only `imwrite`'s refusal of an empty image is modelled (`ImageReco.SaveHitImages`, `ImageReco.Recognized`); a write that fails for any other reason is not.
- argparse, glob expansion, the tesseract path and the report folder's creation are not modelled. `Run` takes the list of files, each already read or not.
- Report.RaidReport.AddHit: the code writes a row block by block: cell A, then cell C and `damage_name_map`, then for each of the name, damage, party, boss and hit pictures in turn its running width, its column setting and the picture itself. A trim or resize that raises therefore leaves every cell, picture, running width and column setting of the blocks before it already written (an empty party zone without a report folder, for example, leaves A, C, the map and the B and D blocks changed). The model makes all thumbnails first and, on that exception, writes none of them.
- Report.RaidReport.AddHits: on an exception the contract names the exception and keeps the invariant, but does not say which of the file's rows were already written. The script stops at that point without calling `workbook.close()`; whether xlsxwriter's destructor still writes those rows out is not modelled.
- Report.RaidReport.ProcessFile: the same as AddHits for an exception in the middle of a file.
- Report.Run: on an exception the contract names the first exception; the rows written before it are left unspecified, for the same reason.
- Strings.ParseInt: only ASCII digits are read. Python's `int()` also accepts any other Unicode decimal digit (Arabic-Indic and fullwidth digits, for example), where the model gives `None`; its limit of 4300 digits (CPython 3.11 and later) is not modelled either.
- Strings.DigitGroupsValue: the same restriction to '0' to '9', and no digit limit.
- Report.ParseDamage: inherits both: a damage OCR reads in non-ASCII digits leaves column C empty in the model, where Python writes the number.
- Strings.BaseName: POSIX `os.path` only. On Windows, `ntpath` also splits at `\` and after a drive letter, so `shots\raid_01.png` gives `raid_01` there and `shots\raid_01` here.
- Report.ImageBaseName: inherits the POSIX-only `basename`, so column G and the report path follow POSIX separators.
- gtraid/interactive_boxes.py, gtraid/get_damage.py and test.py are not part of this model.
- The `__main__` block of gtraid/image_reco.py is not modelled.
- The worksheet is one value field of `RaidReport`, so xlsxwriter's own objects and any aliasing between them are not captured.

## Findings

| source | as written | input that shows it | evidently intended | confidence | as-written member | corrected member |
|---|---|---|---|---|---|---|
| gtraid/image_reco.py:252 | `cv2.cvtColor(mask, cv2.COLOR_BGR2RGB)` on the one-channel damage mask, which OpenCV's channel check rejects (BGR2RGB accepts 3 or 4 channels) | any non-empty damage zone, for example a 1 x 1 zone | the mask handed to OCR as it is | high, from OpenCV's channel check; not executed | ImageReco.RecognizeDamageAsWritten (shown by ImageReco.RecognizeDamageAsWrittenFails) | ImageReco.RecognizeDamage |
