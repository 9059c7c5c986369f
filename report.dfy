/**
 * The spreadsheet writer of gt.py: for every screenshot it looks up the
 * crop profile, recognizes the hits, and writes one worksheet row per hit
 * (name, damage, thumbnails, file name, hit number). Damage already seen
 * for the same name is marked as a probable duplicate, and the picture
 * columns and rows grow to fit the widest and tallest thumbnail.
 */
module Report {
  import opened Wrappers
  import opened Strings
  import opened Raster
  import opened ImageReco

  /** What makes the script stop: an exception out of recognition, or out of `cv2.resize`. */
  datatype Fault = Raised(error: Error) | EmptyResize

  // ---------------------------------------------------------------------------
  // File names
  // ---------------------------------------------------------------------------

  /**
   * `os.path.splitext(os.path.basename(file_name))[0]`: the last path
   * component, without its extension when it has one.
   */
  function ImageBaseName(path: string): (b: string)
    ensures |b| <= |path|
    ensures forall k :: 0 <= k < |b| ==> b[k] != '/'
    ensures var n := BaseName(path);
      && |b| <= |n| && b == n[..|b|]
      && (|b| < |n| <==> HasExtension(n))
      && (HasExtension(n) ==> |b| == RFind(n, '.'))
  {
    SplitExtRootRemoves(BaseName(path));
    SplitExtRoot(BaseName(path))
  }

  /**
   * `report_path`: `f"{report}/{image_base_name}_"` when a report folder is
   * given, and "" otherwise; the debug images of the file are named after it.
   */
  function ReportPrefix(report: string, base: string): (p: string)
    ensures report == "" ==> p == ""
    ensures report != "" ==>
      && |p| == |report| + |base| + 2
      && p[..|report|] == report && p[|report|] == '/'
      && p[|report| + 1..|p| - 1] == base && p[|p| - 1] == '_'
  {
    if report == "" then "" else report + "/" + base + "_"
  }

  /** Within one report folder, files with different base names get different prefixes. */
  lemma ReportPrefixInjective(report: string, b1: string, b2: string)
    requires report != "" && ReportPrefix(report, b1) == ReportPrefix(report, b2)
    ensures b1 == b2
  {
    var p := ReportPrefix(report, b1);
    assert b1 == p[|report| + 1..|p| - 1];
  }

  /** The directory and the last extension go. */
  lemma ImageBaseNameDropsDirAndExt()
    ensures ImageBaseName("shots/raid_01.png") == "raid_01"
  {
    var p := "shots/raid_01.png";
    RFindAt(p, '/', 5);
    var n := p[6..];
    assert n == "raid_01.png";
    RFindNone(n, '/');
    RFindAt(n, '.', 7);
    assert n[0] != '.';
    assert n[..7] == "raid_01";
  }

  /** A dot in a directory name is not an extension. */
  lemma ImageBaseNameDotInDir()
    ensures ImageBaseName("a.b/c") == "c"
  {
    var p := "a.b/c";
    RFindAt(p, '/', 3);
    assert p[4..] == "c";
    RFindNone("c", '/');
    RFindNone("c", '.');
  }

  /** A leading dot is not an extension: a hidden file keeps its whole name. */
  lemma ImageBaseNameHidden()
    ensures ImageBaseName("x/.hidden") == ".hidden"
  {
    var p := "x/.hidden";
    RFindAt(p, '/', 1);
    var h := p[2..];
    assert h == ".hidden";
    RFindNone(h, '/');
    RFindAt(h, '.', 0);
  }

  /**
   * The base name is the tail of the path after its last '/', cut just
   * before its last '.' exactly when that tail has an extension, and kept
   * whole otherwise.
   */
  lemma ImageBaseNameIsPrefixOfBaseName(path: string)
    ensures var n := BaseName(path); var b := ImageBaseName(path);
      && b == n[..|b|]
      && (|b| < |n| <==> HasExtension(n))
      && (HasExtension(n) ==> b == n[..RFind(n, '.')] && n[|b|] == '.' && |b| > 0)
      && (!HasExtension(n) ==> b == n)
      && (forall k :: |b| < k < |n| ==> n[k] != '.')
  {
    var n := BaseName(path);
    SplitExtRootRemoves(n);
    if |SplitExtRoot(n)| < |n| {
      SplitExtRootNonEmpty(n);
    }
  }

  // ---------------------------------------------------------------------------
  // Damage values and the duplicate map
  // ---------------------------------------------------------------------------

  /** `int(damage.replace(',', ''))` on ASCII digits: `None` where Python raises ValueError. */
  function ParseDamage(raw: string): Option<int> {
    ParseInt(Replace(raw, ",", ""))
  }

  /** Thousands separators are ignored: removing them first changes nothing. */
  lemma ParseDamageIgnoresCommas(raw: string)
    ensures ParseDamage(Replace(raw, ",", "")) == ParseDamage(raw)
  {
    var t := Replace(raw, ",", "");
    ReplaceCharGone(raw, ',');
    forall k ensures !OccursAt(",", t, k) {
      if 0 <= k < |t| {
        assert t[k..k + 1][0] == t[k] && t[k] in t;
      }
    }
    ReplaceAbsent(t, ",", "");
  }

  /** What `str(n)` prints is read back, so is any integer printed without separators. */
  lemma ParseDamageRoundTrip(n: int)
    ensures ParseDamage(IntToString(n)) == Some(n)
  {
    var s := IntToString(n);
    var d := NatToString(if n < 0 then -n else n);
    assert forall k :: 0 <= k < |s| ==> s[k] == '-' || IsDigit(s[k]) by {
      if n < 0 {
        forall k | 1 <= k < |s| ensures s[k] == d[k - 1] { }
      }
    }
    forall k ensures !OccursAt(",", s, k) {
      if 0 <= k < |s| {
        assert s[k..k + 1][0] == s[k];
      }
    }
    ReplaceAbsent(s, ",", "");
    IntRoundTrip(n);
  }

  /** A string with nothing but commas reads as no number (`int('')` raises). */
  lemma ParseDamageOnlyCommas()
    ensures ParseDamage(",,") == None
  {
    assert Replace(",,", ",", "") == "" by {
      assert ",,"[..1] == ",";
      assert ",,"[1..][..1] == ",";
      assert ",,"[1..][1..] == "";
    }
  }

  /** The one separator of "12,345" goes. */
  lemma SeparatorDropped()
    ensures Replace("12,345", ",", "") == "12345"
  {
    assert "12" + "," + "345" == "12,345";
    ReplaceJoins("12", "345", ",");
  }

  /** `str(12345)` is "12345". */
  lemma PrintedDamage()
    ensures IntToString(12345) == "12345"
  {
    assert DigitChar(1) == '1' && DigitChar(2) == '2' && DigitChar(3) == '3';
    assert DigitChar(4) == '4' && DigitChar(5) == '5';
    assert NatToString(12) == NatToString(1) + [DigitChar(2)];
    assert NatToString(123) == NatToString(12) + [DigitChar(3)];
    assert NatToString(1234) == NatToString(123) + [DigitChar(4)];
    assert NatToString(12345) == NatToString(1234) + [DigitChar(5)];
  }

  /**
   * A reading such as ",\x1c5" keeps its U+001C through `strip()` (the
   * comma shields it) and loses the comma only afterwards; `int()` then
   * raises, so no damage is read.
   */
  lemma DamageAfterSeparatorChar()
    ensures DamageOf(",\U{1C}5") == None
  {
    assert ",\U{1C}5" == "," + "\U{1C}5";
    ReplaceHead(",", "\U{1C}5", "");
    ReplaceUntouched("\U{1C}5", ",", "");
    assert Replace(",\U{1C}5", ",", "") == "\U{1C}5";
    ParseIntSeparator();
  }

  /** A damage with a thousands separator is read as its number: "12,345" gives 12345. */
  lemma DamageWithSeparator()
    ensures DamageOf("12,345") == Some(12345)
  {
    SeparatorDropped();
    PrintedDamage();
    ParseDamageIgnoresCommas("12,345");
    ParseDamageRoundTrip(12345);
  }

  /** A picture's displayed size in pixels. */
  datatype Size = Size(width: real, height: real)

  /** The five thumbnails of a hit, in the order gt.py makes them. */
  datatype Thumbs = Thumbs(name: Size, damage: Size, party: Size, boss: Size, hit: Size)

  /**
   * `if hit_record.damage: int(...)`: no damage for an empty text (a
   * warning) or for one `int()` rejects (a caught ValueError).
   */
  function DamageOf(raw: string): Option<int> {
    if raw == "" then None else ParseDamage(raw)
  }

  /**
   * One worksheet row as written: the record's name and damage text, the
   * damage read from it, the file, the hit's number and its thumbnails.
   */
  datatype Row = Row(name: string, rawDamage: string, damage: Option<int>, file: string, hitIndex: nat, thumbs: Thumbs)

  /** The row a record gives. */
  function RowOf(file: string, hitIndex: nat, hit: HitRecord, t: Thumbs): Row {
    Row(hit.name, hit.damage, DamageOf(hit.damage), file, hitIndex, t)
  }

  /** `damage_name_pair`: the raw damage text joined to the name, with no separator. */
  function Key(r: Row): string {
    r.rawDamage + r.name
  }

  /** A row whose damage was read and whose pair is `key`. */
  predicate Counted(r: Row, key: string) {
    r.damage.Some? && Key(r) == key
  }

  /** `damage_name_map` after the given rows: each counted pair mapped to its first damage. */
  function DamageMap(rows: seq<Row>): map<string, int>
    decreases |rows|
  {
    if rows == [] then map[]
    else
      var m := DamageMap(rows[..|rows| - 1]);
      var r := rows[|rows| - 1];
      match r.damage
      case None => m
      case Some(d) => if Key(r) in m then m else m[Key(r) := d]
  }

  lemma DamageMapPush(rows: seq<Row>, r: Row)
    ensures DamageMap(rows + [r]) ==
      match r.damage
      case None => DamageMap(rows)
      case Some(d) => if Key(r) in DamageMap(rows) then DamageMap(rows) else DamageMap(rows)[Key(r) := d]
  {
    assert (rows + [r])[..|rows|] == rows;
  }

  /** A pair is in the map exactly when some row so far counted it. */
  lemma {:induction false} DamageMapKeys(rows: seq<Row>, key: string)
    ensures key in DamageMap(rows) <==> exists k :: 0 <= k < |rows| && Counted(rows[k], key)
    decreases |rows|
  {
    if rows != [] {
      var p := rows[..|rows| - 1];
      DamageMapKeys(p, key);
      if exists k :: 0 <= k < |p| && Counted(p[k], key) {
        var k :| 0 <= k < |p| && Counted(p[k], key);
        assert rows[k] == p[k];
      }
      if exists k :: 0 <= k < |rows| && Counted(rows[k], key) {
        var k :| 0 <= k < |rows| && Counted(rows[k], key);
        if k < |p| {
          assert p[k] == rows[k];
        }
      }
    }
  }

  /** The map keeps the damage of the first row that counted a pair. */
  lemma {:induction false} DamageMapFirst(rows: seq<Row>, k: nat)
    requires k < |rows| && rows[k].damage.Some?
    requires forall j :: 0 <= j < k ==> !Counted(rows[j], Key(rows[k]))
    ensures Key(rows[k]) in DamageMap(rows)
    ensures DamageMap(rows)[Key(rows[k])] == rows[k].damage.value
    decreases |rows|
  {
    var p := rows[..|rows| - 1];
    var key := Key(rows[k]);
    if k == |rows| - 1 {
      forall j | 0 <= j < |p| ensures !Counted(p[j], key) {
        assert p[j] == rows[j];
      }
      DamageMapKeys(p, key);
    } else {
      assert p[k] == rows[k];
      forall j | 0 <= j < k ensures !Counted(p[j], key) {
        assert p[j] == rows[j];
      }
      DamageMapFirst(p, k);
    }
  }

  // ---------------------------------------------------------------------------
  // Picture column widths
  // ---------------------------------------------------------------------------

  /** The width every picture column starts at, in pixels. */
  const InitialWidth: real := 100.0

  /** `max_*_width` after the given widths: a running maximum that starts at 100. */
  function Widest(ws: seq<real>): (m: real)
    ensures m >= InitialWidth
    decreases |ws|
  {
    if ws == [] then InitialWidth
    else
      var m := Widest(ws[..|ws| - 1]);
      var w := ws[|ws| - 1];
      if w > m then w else m
  }

  /** The running width is at least every width seen, and is either 100 or one of them. */
  lemma {:induction false} WidestBounds(ws: seq<real>)
    ensures forall k :: 0 <= k < |ws| ==> ws[k] <= Widest(ws)
    ensures Widest(ws) == InitialWidth || exists k :: 0 <= k < |ws| && ws[k] == Widest(ws)
    decreases |ws|
  {
    if ws != [] {
      var init := ws[..|ws| - 1];
      WidestBounds(init);
      assert forall k :: 0 <= k < |ws| - 1 ==> ws[k] == init[k];
      if Widest(init) != InitialWidth && ws[|ws| - 1] <= Widest(init) {
        var k :| 0 <= k < |init| && init[k] == Widest(init);
        assert ws[k] == Widest(ws);
      }
    }
  }

  lemma WidestPush(ws: seq<real>, w: real)
    ensures Widest(ws + [w]) == if w > Widest(ws) then w else Widest(ws)
  {
    assert (ws + [w])[..|ws|] == ws;
  }

  /**
   * The column's pixel width: left at 100 until a thumbnail is wider, then
   * the widest thumbnail plus a 10-pixel margin.
   */
  function ColumnPixels(widest: real): real {
    if widest > InitialWidth then widest + 10.0 else InitialWidth
  }

  /** Every thumbnail fits its column, and a column that grew has a 10-pixel margin over the widest. */
  lemma ColumnFits(ws: seq<real>)
    ensures forall k :: 0 <= k < |ws| ==> ws[k] <= ColumnPixels(Widest(ws))
    ensures (exists k :: 0 <= k < |ws| && ws[k] > InitialWidth) ==>
      exists k :: 0 <= k < |ws| && ColumnPixels(Widest(ws)) == ws[k] + 10.0
    ensures (forall k :: 0 <= k < |ws| ==> ws[k] <= InitialWidth) ==> ColumnPixels(Widest(ws)) == InitialWidth
  {
    WidestBounds(ws);
  }

  /** The five picture columns. */
  datatype Pane = NamePane | DamagePane | PartyPane | BossPane | HitPane

  function PaneSize(t: Thumbs, p: Pane): Size {
    match p
    case NamePane => t.name
    case DamagePane => t.damage
    case PartyPane => t.party
    case BossPane => t.boss
    case HitPane => t.hit
  }

  /** The widths of one picture column, row by row. */
  function Widths(rows: seq<Row>, p: Pane): (ws: seq<real>)
    ensures |ws| == |rows|
  {
    if rows == [] then [] else Widths(rows[..|rows| - 1], p) + [PaneSize(rows[|rows| - 1].thumbs, p).width]
  }

  lemma {:induction false} WidthsAt(rows: seq<Row>, p: Pane)
    ensures forall k :: 0 <= k < |rows| ==> Widths(rows, p)[k] == PaneSize(rows[k].thumbs, p).width
  {
    if rows != [] {
      var init := rows[..|rows| - 1];
      WidthsAt(init, p);
      assert forall k :: 0 <= k < |rows| - 1 ==> rows[k] == init[k];
    }
  }

  lemma WidthsPush(rows: seq<Row>, r: Row, p: Pane)
    ensures Widths(rows + [r], p) == Widths(rows, p) + [PaneSize(r.thumbs, p).width]
  {
    assert (rows + [r])[..|rows|] == rows;
  }

  /** One more row moves a column's running width only when its thumbnail is wider. */
  lemma WidestAfter(rows: seq<Row>, r: Row, p: Pane)
    ensures Widest(Widths(rows + [r], p)) ==
      if PaneSize(r.thumbs, p).width > Widest(Widths(rows, p)) then PaneSize(r.thumbs, p).width else Widest(Widths(rows, p))
  {
    WidthsPush(rows, r, p);
    WidestPush(Widths(rows, p), PaneSize(r.thumbs, p).width);
  }

  /** Python's `max` of the five thumbnail heights. */
  function RowHeight(t: Thumbs): (h: real)
    ensures h >= t.name.height && h >= t.damage.height && h >= t.party.height
    ensures h >= t.boss.height && h >= t.hit.height
    ensures h in {t.name.height, t.damage.height, t.party.height, t.boss.height, t.hit.height}
  {
    var a := if t.name.height >= t.damage.height then t.name.height else t.damage.height;
    var b := if a >= t.party.height then a else t.party.height;
    var c := if b >= t.boss.height then b else t.boss.height;
    if c >= t.hit.height then c else t.hit.height
  }

  // ---------------------------------------------------------------------------
  // Thumbnails
  // ---------------------------------------------------------------------------

  /**
   * The side length `cv2.resize(img, (0, 0), fx=f, fy=f)` gives an axis of
   * length n (OpenCV rounds n * f to an integer).
   */
  type Resizer = (nat, real) -> nat

  /** `cv2.resize` with a scale factor: it refuses an empty source and an empty result. */
  function Resized(height: nat, width: nat, factor: real, resize: Resizer): (r: Result<Size, Fault>)
    ensures r.Failure? <==> height == 0 || width == 0 || resize(height, factor) == 0 || resize(width, factor) == 0
    ensures r.Failure? ==> r.error == EmptyResize
    ensures r.Success? ==> r.value.width == resize(width, factor) as real && r.value.height == resize(height, factor) as real
  {
    if height == 0 || width == 0 then Failure(EmptyResize)
    else
      var h, w := resize(height, factor), resize(width, factor);
      if h == 0 || w == 0 then Failure(EmptyResize) else Success(Size(w as real, h as real))
  }

  /** `255 - auto_crop(255 - img)`: the white margins trimmed off a dark-on-white image. */
  function Trimmed(g: GrayImage): Result<GrayImage, Error> {
    match AutoCrop(Plane(Invert(g)), 0)
    case Failure(e) => Failure(e)
    case Success(a) => Success(Invert(Flat(a)))
  }

  /** Trimming raises only where auto_crop does: on an array with no rows. */
  lemma TrimmedFails(g: GrayImage)
    ensures Trimmed(g).Failure? <==> g.Height() == 0
  {
    AutoCropDimensionsFails(Plane(Invert(g)), 0);
    AutoCropValue(Plane(Invert(g)), 0);
  }

  /**
   * `255 - auto_crop(255 - img)` is a crop of `img` itself: the box auto_crop
   * finds in the inverted picture, applied to the picture.
   */
  lemma TrimmedIsCrop(g: GrayImage)
    requires Trimmed(g).Success?
    ensures AutoCropDimensions(Plane(Invert(g)), 0).Success?
    ensures Trimmed(g).value == Crop(g, BoxRect2(AutoCropDimensions(Plane(Invert(g)), 0).value))
  {
    var r := BoxRect2(AutoCropDimensions(Plane(Invert(g)), 0).value);
    AutoCropValue(Plane(Invert(g)), 0);
    InvertCrop(g, r);
    InvertInvolutive(Crop(g, r));
  }

  /** Every non-white pixel survives the trim, shifted by the trimmed margin. */
  lemma TrimmedKeepsInk(g: GrayImage, i: nat, j: nat)
    requires i < g.Height() && j < g.width && g.rows[i][j] < 255
    ensures Trimmed(g).Success?
    ensures var b := AutoCropDimensions(Plane(Invert(g)), 0).value;
      var c := Trimmed(g).value;
      && b.rowFrom <= i && b.colFrom <= j
      && i - b.rowFrom < c.Height() && j - b.colFrom < c.width
      && c.rows[i - b.rowFrom][j - b.colFrom] == g.rows[i][j]
  {
    var a := Plane(Invert(g));
    assert Flat(a).rows[i][j] == 255 - g.rows[i][j];
    AutoCropKeepsBright(a, 0, i, j);
  }

  /** A record's thumbnails, in gt.py's order; the first resize or trim that raises stops the hit. */
  function Thumbnails(hit: HitRecord, resize: Resizer): Result<Thumbs, Fault> {
    match Trimmed(hit.nameRecImg)
    case Failure(e) => Failure(Raised(e))
    case Success(nameImg) =>
      match Resized(nameImg.Height(), nameImg.width, 0.4, resize)
      case Failure(e) => Failure(e)
      case Success(name) =>
        match Trimmed(hit.damageRecImg)
        case Failure(e) => Failure(Raised(e))
        case Success(damageImg) =>
          match Resized(damageImg.Height(), damageImg.width, 0.5, resize)
          case Failure(e) => Failure(e)
          case Success(damage) => Pictures(name, damage, hit, resize)
  }

  /** The last three resizes, once the name and damage pictures are made. */
  function Pictures(name: Size, damage: Size, hit: HitRecord, resize: Resizer): Result<Thumbs, Fault> {
    match Resized(hit.partyImg.Height(), hit.partyImg.width, 0.5, resize)
    case Failure(e) => Failure(e)
    case Success(party) =>
      match Resized(hit.bossImg.Height(), hit.bossImg.width, 0.5, resize)
      case Failure(e) => Failure(e)
      case Success(boss) =>
        match Resized(hit.originalImg.Height(), hit.originalImg.width, 0.7, resize)
        case Failure(e) => Failure(e)
        case Success(shot) => Success(Thumbs(name, damage, party, boss, Size(shot.width * 0.3, shot.height * 0.3)))
  }

  /** OpenCV refuses to resize an empty party or boss crop, so such a hit stops the script. */
  lemma ThumbnailsNeedZones(hit: HitRecord, resize: Resizer)
    requires hit.partyImg.IsEmpty() || hit.bossImg.IsEmpty() || hit.originalImg.IsEmpty()
    ensures Thumbnails(hit, resize).Failure?
  {
    var nameImg := Trimmed(hit.nameRecImg);
    var damageImg := Trimmed(hit.damageRecImg);
    if nameImg.Success? && damageImg.Success? {
      var name := Resized(nameImg.value.Height(), nameImg.value.width, 0.4, resize);
      var damage := Resized(damageImg.value.Height(), damageImg.value.width, 0.5, resize);
      if name.Success? && damage.Success? {
        assert Thumbnails(hit, resize) == Pictures(name.value, damage.value, hit, resize);
        PicturesNeedZones(name.value, damage.value, hit, resize);
      }
    }
  }

  lemma PicturesNeedZones(name: Size, damage: Size, hit: HitRecord, resize: Resizer)
    requires hit.partyImg.IsEmpty() || hit.bossImg.IsEmpty() || hit.originalImg.IsEmpty()
    ensures Pictures(name, damage, hit, resize).Failure?
  {
  }

  /** Trimming a non-empty image leaves a non-empty image. */
  lemma TrimmedNonEmpty(g: GrayImage)
    requires !g.IsEmpty()
    ensures Trimmed(g).Success? && !Trimmed(g).value.IsEmpty()
  {
    var a := Plane(Invert(g));
    AutoCropNonEmpty(a, 0);
  }

  /**
   * With non-empty images and a resize that never rounds a side to zero,
   * every thumbnail is made; the hit picture is shown at 0.3 of its
   * 70% copy.
   */
  lemma ThumbnailsDefined(hit: HitRecord, resize: Resizer)
    requires !hit.nameRecImg.IsEmpty() && !hit.damageRecImg.IsEmpty()
    requires !hit.partyImg.IsEmpty() && !hit.bossImg.IsEmpty() && !hit.originalImg.IsEmpty()
    requires forall n: nat, f: real :: n > 0 && f > 0.0 ==> resize(n, f) > 0
    ensures Thumbnails(hit, resize).Success?
    ensures var t := Thumbnails(hit, resize).value;
      && t.party == Size(resize(hit.partyImg.width, 0.5) as real, resize(hit.partyImg.Height(), 0.5) as real)
      && t.hit == Size(resize(hit.originalImg.width, 0.7) as real * 0.3, resize(hit.originalImg.Height(), 0.7) as real * 0.3)
  {
    TrimmedResizes(hit.nameRecImg, 0.4, resize);
    TrimmedResizes(hit.damageRecImg, 0.5, resize);
    ResizedOk(hit.partyImg.Height(), hit.partyImg.width, 0.5, resize);
    ResizedOk(hit.bossImg.Height(), hit.bossImg.width, 0.5, resize);
    ResizedOk(hit.originalImg.Height(), hit.originalImg.width, 0.7, resize);
    ThumbnailsWhen(hit, resize);
    ThumbnailsParts(hit, resize);
  }

  /** A resize of a non-empty picture by a positive factor succeeds when no side rounds to zero. */
  lemma ResizedOk(height: nat, width: nat, factor: real, resize: Resizer)
    requires height > 0 && width > 0 && factor > 0.0
    requires forall n: nat, f: real :: n > 0 && f > 0.0 ==> resize(n, f) > 0
    ensures Resized(height, width, factor, resize).Success?
    ensures Resized(height, width, factor, resize).value == Size(resize(width, factor) as real, resize(height, factor) as real)
  {
    assert resize(height, factor) > 0 && resize(width, factor) > 0;
  }

  /** A non-empty crop is trimmed to a non-empty picture, and that one resizes. */
  lemma TrimmedResizes(g: GrayImage, factor: real, resize: Resizer)
    requires !g.IsEmpty() && factor > 0.0
    requires forall n: nat, f: real :: n > 0 && f > 0.0 ==> resize(n, f) > 0
    ensures Trimmed(g).Success?
    ensures Resized(Trimmed(g).value.Height(), Trimmed(g).value.width, factor, resize).Success?
  {
    TrimmedNonEmpty(g);
    ResizedOk(Trimmed(g).value.Height(), Trimmed(g).value.width, factor, resize);
  }

  /** The thumbnails are made when both trims and all five resizes succeed. */
  lemma ThumbnailsWhen(hit: HitRecord, resize: Resizer)
    requires Trimmed(hit.nameRecImg).Success? && Trimmed(hit.damageRecImg).Success?
    requires var n, d := Trimmed(hit.nameRecImg).value, Trimmed(hit.damageRecImg).value;
      && Resized(n.Height(), n.width, 0.4, resize).Success?
      && Resized(d.Height(), d.width, 0.5, resize).Success?
    requires Resized(hit.partyImg.Height(), hit.partyImg.width, 0.5, resize).Success?
    requires Resized(hit.bossImg.Height(), hit.bossImg.width, 0.5, resize).Success?
    requires Resized(hit.originalImg.Height(), hit.originalImg.width, 0.7, resize).Success?
    ensures Thumbnails(hit, resize).Success?
  {
  }

  /** The party picture and the hit picture of a made set of thumbnails. */
  lemma ThumbnailsParts(hit: HitRecord, resize: Resizer)
    requires Thumbnails(hit, resize).Success?
    ensures var t := Thumbnails(hit, resize).value;
      var party := Resized(hit.partyImg.Height(), hit.partyImg.width, 0.5, resize);
      var shot := Resized(hit.originalImg.Height(), hit.originalImg.width, 0.7, resize);
      && party.Success? && shot.Success?
      && t.party == party.value
      && t.hit == Size(shot.value.width * 0.3, shot.value.height * 0.3)
  {
    var nameImg := Trimmed(hit.nameRecImg).value;
    var damageImg := Trimmed(hit.damageRecImg).value;
    var name := Resized(nameImg.Height(), nameImg.width, 0.4, resize).value;
    var damage := Resized(damageImg.Height(), damageImg.width, 0.5, resize).value;
    assert Thumbnails(hit, resize) == Pictures(name, damage, hit, resize);
    PicturesParts(name, damage, hit, resize);
  }

  lemma PicturesParts(name: Size, damage: Size, hit: HitRecord, resize: Resizer)
    requires Pictures(name, damage, hit, resize).Success?
    ensures var t := Pictures(name, damage, hit, resize).value;
      var party := Resized(hit.partyImg.Height(), hit.partyImg.width, 0.5, resize);
      var shot := Resized(hit.originalImg.Height(), hit.originalImg.width, 0.7, resize);
      && party.Success? && shot.Success?
      && t.party == party.value
      && t.hit == Size(shot.value.width * 0.3, shot.value.height * 0.3)
  {
  }

  // ---------------------------------------------------------------------------
  // Worksheet cells
  // ---------------------------------------------------------------------------

  /**
   * A column's width setting: none, `set_column` in characters, or
   * `set_column_pixels`.
   */
  datatype ColumnWidth = Unset | Chars(chars: nat) | Pixels(pixels: real)

  /** The settings of worksheet columns A to I. */
  datatype Columns = Columns(a: ColumnWidth, b: ColumnWidth, c: ColumnWidth, d: ColumnWidth, e: ColumnWidth,
                             f: ColumnWidth, g: ColumnWidth, h: ColumnWidth, i: ColumnWidth)

  /** A picture column's running width and its setting agree with the given rows. */
  predicate PaneFits(rows: seq<Row>, p: Pane, running: real, setting: ColumnWidth) {
    running == Widest(Widths(rows, p)) && setting == Pixels(ColumnPixels(running))
  }

  /**
   * One picture block's width check: a thumbnail wider than the running
   * width becomes it, and its column is set to it plus 10 pixels; otherwise
   * the width and the column stay as they are.
   */
  method FitPane(ghost rows: seq<Row>, ghost r: Row, t: Thumbs, p: Pane, running: real, setting: ColumnWidth)
    returns (widest: real, column: ColumnWidth)
    requires r.thumbs == t
    requires PaneFits(rows, p, running, setting)
    ensures PaneFits(rows + [r], p, widest, column)
  {
    widest, column := running, setting;
    var width := PaneSize(t, p).width;
    WidestAfter(rows, r, p);
    if width > running {
      widest := width;
      column := Pixels(widest + 10.0);
    }
  }

  /** The five running widths of the picture columns, `max_name_width` to `max_hit_width`. */
  datatype Running = Running(name: real, damage: real, party: real, boss: real, hit: real)

  /** The running widths after writing `rows`. */
  function RunningOf(rows: seq<Row>): Running {
    Running(Widest(Widths(rows, NamePane)), Widest(Widths(rows, DamagePane)), Widest(Widths(rows, PartyPane)),
            Widest(Widths(rows, BossPane)), Widest(Widths(rows, HitPane)))
  }

  /**
   * The column settings for the given running widths: A and C 15
   * characters, G 400 pixels, H untouched, and each picture column its
   * running width's pixel size.
   */
  function ColumnsOf(running: Running): Columns {
    Columns(Chars(15), Pixels(ColumnPixels(running.name)), Chars(15), Pixels(ColumnPixels(running.damage)),
            Pixels(ColumnPixels(running.party)), Pixels(ColumnPixels(running.boss)), Pixels(400.0), Unset,
            Pixels(ColumnPixels(running.hit)))
  }

  /** The two number formats of column C: the plain one, and the light-red one for a repeat. */
  datatype Style = Plain | Repeated

  /** What a cell holds: a string, a damage number with its format, a plain number, or an anchored picture. */
  datatype Value = Text(text: string) | Amount(amount: int, style: Style) | Number(number: int) | Picture(size: Size)

  /** Column C of row `r`: its damage, marked as a repeat when the map already holds its pair. */
  function DamageCell(earlier: seq<Row>, r: Row): Option<Value> {
    match r.damage
    case None => None
    case Some(d) => Some(Amount(d, if Key(r) in DamageMap(earlier) then Repeated else Plain))
  }

  /** The cells of one row: name, pictures, file and hit number, and column C only when a damage was read. */
  function Cells(damage: Option<Value>, name: string, t: Thumbs, file: string, hitIndex: nat): (cells: map<char, Value>)
    ensures 'C' in cells <==> damage.Some?
    ensures damage.Some? ==> cells['C'] == damage.value
    ensures cells.Keys - {'C'} == {'A', 'B', 'D', 'E', 'F', 'G', 'H', 'I'}
  {
    var cells := map['A' := Text(name),
                     'B' := Picture(t.name),
                     'D' := Picture(t.damage),
                     'E' := Picture(t.party),
                     'F' := Picture(t.boss),
                     'G' := Text(file),
                     'H' := Number(hitIndex),
                     'I' := Picture(t.hit)];
    if damage.Some? then cells['C' := damage.value] else cells
  }

  /** The cells gt.py writes for row `r`, given the rows written before it. */
  function RowCells(earlier: seq<Row>, r: Row): map<char, Value> {
    Cells(DamageCell(earlier, r), r.name, r.thumbs, r.file, r.hitIndex)
  }

  /**
   * What gt.py has set on the xlsxwriter worksheet: the column widths, the
   * row heights in pixels and the cells (`cells[k]` is worksheet row k + 1).
   */
  datatype Worksheet = Worksheet(columns: Columns, rowPixels: seq<real>, cells: seq<map<char, Value>>)

  /** The row heights set for `rows`, one per row. */
  function HeightsOf(rows: seq<Row>): (heights: seq<real>)
    ensures |heights| == |rows|
  {
    if rows == [] then [] else HeightsOf(rows[..|rows| - 1]) + [RowHeight(rows[|rows| - 1].thumbs)]
  }

  /** The cells written for `rows`, each row's given the rows before it. */
  function CellsOf(rows: seq<Row>): (cells: seq<map<char, Value>>)
    ensures |cells| == |rows|
  {
    if rows == [] then []
    else
      var earlier := rows[..|rows| - 1];
      CellsOf(earlier) + [RowCells(earlier, rows[|rows| - 1])]
  }

  /** What the worksheet holds after writing `rows`. */
  function SheetOf(rows: seq<Row>): Worksheet {
    Worksheet(ColumnsOf(RunningOf(rows)), HeightsOf(rows), CellsOf(rows))
  }

  /** Worksheet row k + 1 is as tall as row k's tallest thumbnail. */
  lemma {:induction false} SheetHeights(rows: seq<Row>)
    ensures forall k :: 0 <= k < |rows| ==> HeightsOf(rows)[k] == RowHeight(rows[k].thumbs)
    decreases |rows|
  {
    if rows != [] {
      var earlier := rows[..|rows| - 1];
      SheetHeights(earlier);
      assert forall k :: 0 <= k < |earlier| ==> rows[k] == earlier[k];
    }
  }

  /** Worksheet row k + 1 holds row k's cells, given the rows before it. */
  lemma {:induction false} SheetCells(rows: seq<Row>)
    ensures forall k :: 0 <= k < |rows| ==> CellsOf(rows)[k] == RowCells(rows[..k], rows[k])
    decreases |rows|
  {
    if rows != [] {
      var n := |rows| - 1;
      var earlier := rows[..n];
      SheetCells(earlier);
      forall k | 0 <= k < n
        ensures rows[..k] == earlier[..k] && rows[k] == earlier[k]
      {
      }
    }
  }

  /** Writing one more row appends its height and cells and leaves the earlier ones. */
  lemma SheetPush(rows: seq<Row>, r: Row)
    ensures HeightsOf(rows + [r]) == HeightsOf(rows) + [RowHeight(r.thumbs)]
    ensures CellsOf(rows + [r]) == CellsOf(rows) + [RowCells(rows, r)]
  {
    assert (rows + [r])[..|rows|] == rows;
  }

  /** The worksheet after one more row: its columns refitted, its height and its cells appended. */
  lemma SheetStep(rows: seq<Row>, r: Row, sheet: Worksheet, widths: Columns, cells: map<char, Value>)
    requires sheet == SheetOf(rows)
    requires widths == ColumnsOf(RunningOf(rows + [r])) && cells == RowCells(rows, r)
    ensures Worksheet(widths, sheet.rowPixels + [RowHeight(r.thumbs)], sheet.cells + [cells]) == SheetOf(rows + [r])
  {
    SheetPush(rows, r);
  }

  /**
   * Column C holds exactly the damages that were read, and one is marked
   * as a repeat exactly when an earlier row counted the same damage text
   * and name.
   */
  lemma RepeatedIff(rows: seq<Row>, k: nat)
    requires k < |rows|
    ensures var c := DamageCell(rows[..k], rows[k]);
      && (c.Some? <==> rows[k].damage.Some?)
      && (c.Some? ==> c.value.Amount? && c.value.amount == rows[k].damage.value)
      && (c.Some? ==> (c.value.style == Repeated <==> exists j :: 0 <= j < k && Counted(rows[j], Key(rows[k]))))
  {
    var p := rows[..k];
    var key := Key(rows[k]);
    DamageMapKeys(p, key);
    assert (exists j :: 0 <= j < k && Counted(rows[j], key)) <==> (exists j :: 0 <= j < |p| && Counted(p[j], key)) by {
      forall j | 0 <= j < k ensures p[j] == rows[j] { }
    }
  }

  /** The damage texts "1" and "15" read as 1 and 15. */
  lemma SmallDamages()
    ensures DamageOf("1") == Some(1) && DamageOf("15") == Some(15)
  {
    assert NatToString(1) == "1";
    assert NatToString(15) == "15" by {
      assert NatToString(15) == NatToString(1) + [DigitChar(5)];
    }
    ParseDamageRoundTrip(1);
    ParseDamageRoundTrip(15);
  }

  /**
   * Because the pair joins damage text and name with no separator, a row is
   * marked as a repeat when an earlier row had a different damage and a
   * different name: "1" for "5x", then "15" for "x".
   */
  lemma KeyJoinCollides(t: Thumbs)
    ensures var first := Row("5x", "1", DamageOf("1"), "s", 0, t);
      var second := Row("x", "15", DamageOf("15"), "s", 1, t);
      && first.name != second.name && first.damage != second.damage
      && DamageCell([first], second) == Some(Amount(15, Repeated))
  {
    SmallDamages();
    var first := Row("5x", "1", DamageOf("1"), "s", 0, t);
    var second := Row("x", "15", DamageOf("15"), "s", 1, t);
    JoinedPair();
    RepeatAfter(first, second);
  }

  /** "1" joined to "5x" is "15" joined to "x". */
  lemma JoinedPair()
    ensures "1" + "5x" == "15" + "x"
  {
    assert ("1" + "5x")[0] == '1' && ("1" + "5x")[1] == '5' && ("1" + "5x")[2] == 'x';
  }

  /** A row right after one that counted the same pair is marked as a repeat. */
  lemma RepeatAfter(first: Row, second: Row)
    requires first.damage.Some? && second.damage.Some? && Key(first) == Key(second)
    ensures DamageCell([first], second) == Some(Amount(second.damage.value, Repeated))
  {
    assert [first][..0] == [];
  }

  // ---------------------------------------------------------------------------
  // The report of one screenshot and of a whole run
  // ---------------------------------------------------------------------------

  /** An input file: its path and what `cv2.imread` made of it (`None` when it could not be read). */
  datatype Screenshot = Screenshot(path: string, pixels: Option<ColorImage>)

  /** How a record's thumbnails are made; `ThumbMaker` is gt.py's way. */
  type Shrinker = HitRecord -> Result<Thumbs, Fault>

  function ThumbMaker(resize: Resizer): Shrinker {
    (hit: HitRecord) => Thumbnails(hit, resize)
  }

  /**
   * How a screenshot is recognized under a profile and a report path;
   * `Recognizer` is recognize_screenshot's way.
   */
  type Reader = (ColorImage, Profile, string) -> Result<RecognizedImage, Error>

  function Recognizer(lib: Library): Reader {
    (img: ColorImage, cropRects: Profile, reportPath: string) => Recognized(img, cropRects, lib, "", reportPath)
  }

  /** The rows of one screenshot's records, numbered from 0; the first record that raises stops it. */
  function FileRows(file: string, records: seq<HitRecord>, shrink: Shrinker): Result<seq<Row>, Fault>
    decreases |records|
  {
    if records == [] then Success([])
    else
      var n := |records| - 1;
      match FileRows(file, records[..n], shrink)
      case Failure(e) => Failure(e)
      case Success(prev) =>
        match shrink(records[n])
        case Failure(e) => Failure(e)
        case Success(t) => Success(prev + [RowOf(file, n, records[n], t)])
  }

  /** A screenshot's rows carry its records' texts, its base name and the records' positions. */
  lemma {:induction false} FileRowsShape(file: string, records: seq<HitRecord>, shrink: Shrinker)
    requires FileRows(file, records, shrink).Success?
    ensures var rows := FileRows(file, records, shrink).value;
      && |rows| == |records|
      && forall k :: 0 <= k < |rows| ==>
           && shrink(records[k]).Success?
           && rows[k] == RowOf(file, k, records[k], shrink(records[k]).value)
    decreases |records|
  {
    if records != [] {
      var n := |records| - 1;
      FileRowsShape(file, records[..n], shrink);
      var prev := FileRows(file, records[..n], shrink).value;
      var rows := FileRows(file, records, shrink).value;
      assert rows == prev + [RowOf(file, n, records[n], shrink(records[n]).value)];
      forall k | 0 <= k < |rows|
        ensures shrink(records[k]).Success? && rows[k] == RowOf(file, k, records[k], shrink(records[k]).value)
      {
        if k < n {
          assert rows[k] == prev[k];
          assert records[..n][k] == records[k];
          assert prev[k] == RowOf(file, k, records[..n][k], shrink(records[..n][k]).value);
        } else {
          assert k == n;
        }
      }
    }
  }

  /** One more record: its row is appended, or its fault stops the screenshot. */
  lemma FileRowsStep(file: string, records: seq<HitRecord>, i: nat, shrink: Shrinker)
    requires i < |records| && FileRows(file, records[..i], shrink).Success?
    ensures var next := FileRows(file, records[..i + 1], shrink);
      var t := shrink(records[i]);
      && (next.Success? <==> t.Success?)
      && (next.Success? ==> next.value == FileRows(file, records[..i], shrink).value + [RowOf(file, i, records[i], t.value)])
      && (next.Failure? ==> next.error == t.error)
  {
    assert records[..i + 1][..i] == records[..i];
  }

  /** A fault in a prefix of the records is the screenshot's fault. */
  lemma {:induction false} FileRowsFailure(file: string, records: seq<HitRecord>, i: nat, shrink: Shrinker)
    requires i <= |records| && FileRows(file, records[..i], shrink).Failure?
    ensures FileRows(file, records, shrink).Failure?
    ensures FileRows(file, records, shrink).error == FileRows(file, records[..i], shrink).error
    decreases |records| - i
  {
    if i < |records| {
      assert records[..i + 1][..i] == records[..i];
      FileRowsFailure(file, records, i + 1, shrink);
    } else {
      assert records[..i] == records;
    }
  }

  /**
   * What one screenshot adds: nothing when it could not be read; otherwise
   * the profile for its resolution (a KeyError when there is none) and the
   * rows of its recognized hits.
   */
  function ScreenshotRows(resolutions: map<string, Profile>, report: string, s: Screenshot, recognize: Reader, shrink: Shrinker)
    : Result<seq<Row>, Fault>
  {
    match s.pixels
    case None => Success([])
    case Some(img) =>
      var key := ResolutionKey(img.width, img.Height());
      if key !in resolutions then Failure(Raised(MissingResolution(key)))
      else
        var base := ImageBaseName(s.path);
        match recognize(img, resolutions[key], ReportPrefix(report, base))
        case Failure(e) => Failure(Raised(e))
        case Success(result) => FileRows(base, result.hitRecords, shrink)
  }

  /** A screenshot with no profile for its resolution stops the run with a KeyError naming it. */
  lemma ScreenshotNeedsProfile(resolutions: map<string, Profile>, report: string, s: Screenshot, recognize: Reader, shrink: Shrinker)
    requires s.pixels.Some?
    requires ResolutionKey(s.pixels.value.width, s.pixels.value.Height()) !in resolutions
    ensures ScreenshotRows(resolutions, report, s, recognize, shrink).Failure?
    ensures ScreenshotRows(resolutions, report, s, recognize, shrink).error ==
      Raised(MissingResolution(ResolutionKey(s.pixels.value.width, s.pixels.value.Height())))
  {
  }

  /** The rows of a whole run, file after file; the first fault stops the run. */
  function RunRows(resolutions: map<string, Profile>, report: string, files: seq<Screenshot>, recognize: Reader, shrink: Shrinker)
    : Result<seq<Row>, Fault>
    decreases |files|
  {
    if files == [] then Success([])
    else
      var n := |files| - 1;
      match RunRows(resolutions, report, files[..n], recognize, shrink)
      case Failure(e) => Failure(e)
      case Success(prev) =>
        match ScreenshotRows(resolutions, report, files[n], recognize, shrink)
        case Failure(e) => Failure(e)
        case Success(more) => Success(prev + more)
  }

  lemma RunRowsStep(resolutions: map<string, Profile>, report: string, files: seq<Screenshot>, i: nat, recognize: Reader, shrink: Shrinker)
    requires i < |files| && RunRows(resolutions, report, files[..i], recognize, shrink).Success?
    ensures var next := RunRows(resolutions, report, files[..i + 1], recognize, shrink);
      var more := ScreenshotRows(resolutions, report, files[i], recognize, shrink);
      && (next.Success? <==> more.Success?)
      && (next.Success? ==> next.value == RunRows(resolutions, report, files[..i], recognize, shrink).value + more.value)
      && (next.Failure? ==> next.error == more.error)
  {
    assert files[..i + 1][..i] == files[..i];
  }

  lemma {:induction false} RunRowsFailure(resolutions: map<string, Profile>, report: string, files: seq<Screenshot>, i: nat,
                                          recognize: Reader, shrink: Shrinker)
    requires i <= |files| && RunRows(resolutions, report, files[..i], recognize, shrink).Failure?
    ensures RunRows(resolutions, report, files, recognize, shrink).Failure?
    ensures RunRows(resolutions, report, files, recognize, shrink).error == RunRows(resolutions, report, files[..i], recognize, shrink).error
    decreases |files| - i
  {
    if i < |files| {
      assert files[..i + 1][..i] == files[..i];
      RunRowsFailure(resolutions, report, files, i + 1, recognize, shrink);
    } else {
      assert files[..i] == files;
    }
  }

  /** Unreadable files are skipped: they add no row. */
  lemma {:induction false} RunSkipsUnreadable(resolutions: map<string, Profile>, report: string, files: seq<Screenshot>,
                                              recognize: Reader, shrink: Shrinker)
    requires forall k :: 0 <= k < |files| ==> files[k].pixels.None?
    ensures RunRows(resolutions, report, files, recognize, shrink).Success?
    ensures RunRows(resolutions, report, files, recognize, shrink).value == []
    decreases |files|
  {
    if files != [] {
      var n := |files| - 1;
      forall k | 0 <= k < n ensures files[..n][k].pixels.None? {
        assert files[..n][k] == files[k];
      }
      RunSkipsUnreadable(resolutions, report, files[..n], recognize, shrink);
    }
  }

  // ---------------------------------------------------------------------------
  // The worksheet being filled
  // ---------------------------------------------------------------------------

  /** Column widths set before the main loop: A and C 15 characters, G 400 pixels, the pictures' 100 pixels. */
  const InitialColumns: Columns :=
    Columns(Chars(15), Pixels(100.0), Chars(15), Pixels(100.0), Pixels(100.0), Pixels(100.0), Pixels(400.0),
            Unset, Pixels(100.0))

  /**
   * The damage step of the hit loop: read the damage, and remember the
   * first damage of each pair; the cell is marked when the pair was seen.
   * Returns the cell and `damage_name_map` afterwards.
   */
  method WriteDamage(damageNameMap: map<string, int>, ghost rows: seq<Row>, hit: HitRecord, ghost r: Row)
    returns (cell: Option<Value>, pairs: map<string, int>)
    requires damageNameMap == DamageMap(rows)
    requires r.name == hit.name && r.rawDamage == hit.damage && r.damage == DamageOf(hit.damage)
    ensures pairs == DamageMap(rows + [r])
    ensures cell == DamageCell(rows, r)
  {
    cell, pairs := None, damageNameMap;
    if hit.damage != "" {
      var damage := ParseDamage(hit.damage);
      if damage.Some? {
        var pair := hit.damage + hit.name;
        if pair !in pairs {
          pairs := pairs[pair := damage.value];
          cell := Some(Amount(damage.value, Plain));
        } else {
          cell := Some(Amount(damage.value, Repeated));
        }
      }
    }
    DamageMapPush(rows, r);
  }

  /**
   * The width checks of the five picture blocks: a thumbnail wider than
   * its column's running width becomes that width, and the column is set
   * to it plus 10 pixels.
   */
  method FitColumns(ghost rows: seq<Row>, ghost r: Row, t: Thumbs, running: Running, columns: Columns)
    returns (fitted: Running, widths: Columns)
    requires r.thumbs == t
    requires running == RunningOf(rows) && columns == ColumnsOf(running)
    ensures fitted == RunningOf(rows + [r]) && widths == ColumnsOf(fitted)
  {
    var name, damage, party, boss, hit;
    var nameColumn, damageColumn, partyColumn, bossColumn, hitColumn;
    name, nameColumn := FitPane(rows, r, t, NamePane, running.name, columns.b);
    damage, damageColumn := FitPane(rows, r, t, DamagePane, running.damage, columns.d);
    party, partyColumn := FitPane(rows, r, t, PartyPane, running.party, columns.e);
    boss, bossColumn := FitPane(rows, r, t, BossPane, running.boss, columns.f);
    hit, hitColumn := FitPane(rows, r, t, HitPane, running.hit, columns.i);
    fitted := Running(name, damage, party, boss, hit);
    widths := columns.(b := nameColumn, d := damageColumn, e := partyColumn, f := bossColumn, i := hitColumn);
  }

  /**
   * The state of gt.py's main loop: `damage_name_map`, `cur_row`, the five
   * running widths and the worksheet. `rows` is the rows written so far,
   * which all the rest is a function of.
   */
  class RaidReport {
    var damageNameMap: map<string, int>
    var curRow: int
    var running: Running
    var worksheet: Worksheet
    ghost var rows: seq<Row>

    /** The state is exactly what writing `rows`, in order, produces. */
    ghost predicate Valid()
      reads this
    {
      && curRow == |rows| + 1
      && damageNameMap == DamageMap(rows)
      && running == RunningOf(rows)
      && worksheet == SheetOf(rows)
    }

    /** The set-up before any file is read: row 1, running widths of 100 and the fixed columns. */
    constructor ()
      ensures Valid() && rows == []
      ensures damageNameMap == map[] && curRow == 1 && running == Running(100.0, 100.0, 100.0, 100.0, 100.0)
      ensures worksheet == Worksheet(InitialColumns, [], [])
    {
      damageNameMap, curRow := map[], 1;
      running := Running(100.0, 100.0, 100.0, 100.0, 100.0);
      worksheet := Worksheet(InitialColumns, [], []);
      rows := [];
    }

    /**
     * One pass of the hit loop: write the name, the damage (marking a
     * repeat), the five thumbnails widening their columns, the row height,
     * the file name and the hit number, then move to the next row. The
     * thumbnails are made first, so a hit whose thumbnail raises changes
     * nothing.
     */
    method AddHit(file: string, hitIndex: nat, hit: HitRecord, shrink: Shrinker) returns (o: Outcome<Fault>)
      modifies this
      requires Valid()
      ensures Valid()
      ensures var t := shrink(hit);
        && (o.Pass? <==> t.Success?)
        && (o.Pass? ==> rows == old(rows) + [RowOf(file, hitIndex, hit, t.value)])
        && (o.Fail? ==> o.error == t.error && unchanged(this))
    {
      var made := shrink(hit);
      if made.Failure? {
        return Fail(made.error);
      }
      var t := made.value;
      ghost var r := RowOf(file, hitIndex, hit, t);
      var damageCell, pairs := WriteDamage(damageNameMap, rows, hit, r);
      var fitted, widths := FitColumns(rows, r, t, running, worksheet.columns);
      var cells := Cells(damageCell, hit.name, t, file, hitIndex);
      SheetStep(rows, r, worksheet, widths, cells);
      damageNameMap, curRow, running := pairs, curRow + 1, fitted;
      worksheet := Worksheet(widths, worksheet.rowPixels + [RowHeight(t)], worksheet.cells + [cells]);
      rows := rows + [r];
      return Pass;
    }

    /** The hit loop of one file: a row per record, stopping at the first that raises. */
    method AddHits(file: string, records: seq<HitRecord>, shrink: Shrinker) returns (o: Outcome<Fault>)
      modifies this
      requires Valid()
      ensures Valid()
      ensures var added := FileRows(file, records, shrink);
        && (o.Pass? <==> added.Success?)
        && (o.Pass? ==> rows == old(rows) + added.value)
        && (o.Fail? ==> o.error == added.error)
    {
      var hitIndex := 0;
      assert records[..0] == [] && rows + [] == rows;
      while hitIndex < |records|
        invariant 0 <= hitIndex <= |records|
        invariant Valid()
        invariant FileRows(file, records[..hitIndex], shrink).Success?
        invariant rows == old(rows) + FileRows(file, records[..hitIndex], shrink).value
      {
        ghost var done := rows;
        o := AddHit(file, hitIndex, records[hitIndex], shrink);
        if o.Fail? {
          FileRowsStep(file, records, hitIndex, shrink);
          FileRowsFailure(file, records, hitIndex + 1, shrink);
          return;
        }
        FileRowsExtend(file, records, hitIndex, shrink, old(rows), done);
        hitIndex := hitIndex + 1;
      }
      assert records[..hitIndex] == records;
      return Pass;
    }

    /**
     * One file of the main loop: skipped when unreadable; otherwise its
     * profile, its recognized hits and one row per hit.
     */
    method ProcessFile(dims: DimensionsFile, report: string, s: Screenshot, lib: Library, resize: Resizer)
      returns (o: Outcome<Fault>)
      modifies this
      requires Valid()
      ensures Valid()
      ensures var added := ScreenshotRows(dims.resolutions, report, s, Recognizer(lib), ThumbMaker(resize));
        && (o.Pass? <==> added.Success?)
        && (o.Pass? ==> rows == old(rows) + added.value)
        && (o.Fail? ==> o.error == added.error)
    {
      if s.pixels.None? {
        assert rows + [] == rows;
        return Pass;
      }
      var img := s.pixels.value;
      var cropRects := dims.GetCropRects(img);
      if cropRects.Failure? {
        return Fail(Raised(cropRects.error));
      }
      var imageBaseName := ImageBaseName(s.path);
      var reportPath := if report != "" then report + "/" + imageBaseName + "_" else "";
      var result := RecognizeScreenshot(img, cropRects.value, lib, "", reportPath);
      if result.Failure? {
        return Fail(Raised(result.error));
      }
      o := AddHits(imageBaseName, result.value.hitRecords, ThumbMaker(resize));
    }
  }

  /** The loop's rows so far, after one more record that does not raise. */
  lemma FileRowsExtend(file: string, records: seq<HitRecord>, i: nat, shrink: Shrinker,
                       rows: seq<Row>, done: seq<Row>)
    requires i < |records| && FileRows(file, records[..i], shrink).Success?
    requires done == rows + FileRows(file, records[..i], shrink).value
    requires shrink(records[i]).Success?
    ensures FileRows(file, records[..i + 1], shrink).Success?
    ensures done + [RowOf(file, i, records[i], shrink(records[i]).value)]
         == rows + FileRows(file, records[..i + 1], shrink).value
  {
    FileRowsStep(file, records, i, shrink);
    AppendAssociates(rows, FileRows(file, records[..i], shrink).value,
                     [RowOf(file, i, records[i], shrink(records[i]).value)]);
  }

  lemma WholePrefix<T>(s: seq<T>, i: nat)
    requires i == |s|
    ensures s[..i] == s
  {
  }

  lemma AppendAssociates<T>(a: seq<T>, b: seq<T>, c: seq<T>)
    ensures (a + b) + c == a + (b + c)
  {
  }

  /**
   * The whole run: the workbook's set-up, then the main loop over every
   * input file; the first fault ends the run. On success the report holds
   * one row per hit of every readable file, in order.
   */
  method Run(dims: DimensionsFile, reportFolder: string, files: seq<Screenshot>, lib: Library, resize: Resizer)
    returns (o: Outcome<Fault>, report: RaidReport)
    ensures fresh(report) && report.Valid()
    ensures var all := RunRows(dims.resolutions, reportFolder, files, Recognizer(lib), ThumbMaker(resize));
      && (o.Pass? <==> all.Success?)
      && (o.Pass? ==> report.rows == all.value)
      && (o.Fail? ==> o.error == all.error)
  {
    report := new RaidReport();
    var i := 0;
    ghost var recognize, shrink := Recognizer(lib), ThumbMaker(resize);
    while i < |files|
      invariant 0 <= i <= |files|
      invariant fresh(report) && report.Valid()
      invariant RunRows(dims.resolutions, reportFolder, files[..i], recognize, shrink).Success?
      invariant report.rows == RunRows(dims.resolutions, reportFolder, files[..i], recognize, shrink).value
    {
      o := report.ProcessFile(dims, reportFolder, files[i], lib, resize);
      RunRowsStep(dims.resolutions, reportFolder, files, i, recognize, shrink);
      if o.Fail? {
        RunRowsFailure(dims.resolutions, reportFolder, files, i + 1, recognize, shrink);
        return;
      }
      i := i + 1;
    }
    WholePrefix(files, i);
    return Pass, report;
  }
}
