/** paligemma_keras_test.py: the older command-line pipeline.  One image is
    converted to RGB, segmented at a fixed seed on a 512 x 512 copy, its
    background zeroed in place, captioned, and turned into a flat point cloud
    of its foreground pixels by two nested loops. */
module PaligemmaCli {
  import opened Outcomes
  import opened Imaging
  import opened PyPath
  import ImageUtils

  /** Side of the square copy SAM is run on. */
  const SamSide: int := 512

  /** The fixed seed `[[256, 256]]`. */
  const FixedSeed: ImageUtils.Seed := ImageUtils.Seed(256, 256)

  /** The fixed seed is the exact centre of the 512 x 512 copy and lies in it. */
  lemma FixedSeedIsCentre()
    ensures 2 * FixedSeed.x == SamSide && 2 * FixedSeed.y == SamSide
    ensures 0 <= FixedSeed.x < SamSide && 0 <= FixedSeed.y < SamSide
  {
  }

  // ---------------------------------------------------------------------
  // Lines 64-65: background removal by boolean-index assignment

  /** `background_removed = np.zeros_like(image)` followed by
      `background_removed[mask == 1] = image[mask == 1]`. */
  method RemoveBackground(image: Image, mask: Plane) returns (removed: Image)
    requires HasShape(mask, |image|, Cols(image))
    ensures HasShape(removed, |image|, Cols(image))
    ensures forall y, x :: 0 <= y < |image| && 0 <= x < Cols(image) && mask[y][x] == 1 ==>
              removed[y][x] == image[y][x]
    ensures forall y, x :: 0 <= y < |image| && 0 <= x < Cols(image) && mask[y][x] != 1 ==>
              removed[y][x] == Black
  {
    var h, w := |image|, Cols(image);
    var buf := new Pixel[h, w]((y, x) => Black);
    var y := 0;
    while y < h
      invariant 0 <= y <= h
      invariant forall i, j :: 0 <= i < h && 0 <= j < w ==>
                  buf[i, j] == if i < y && mask[i][j] == 1 then image[i][j] else Black
    {
      var x := 0;
      while x < w
        invariant 0 <= x <= w
        invariant forall i, j :: 0 <= i < h && 0 <= j < w ==>
                    buf[i, j] == if (i < y || (i == y && j < x)) && mask[i][j] == 1 then image[i][j] else Black
      {
        if mask[y][x] == 1 {
          buf[y, x] := image[y][x];
        }
        x := x + 1;
      }
      y := y + 1;
    }
    removed := seq(h, (i: int) requires 0 <= i < h reads buf =>
                 seq(w, (j: int) requires 0 <= j < w reads buf => buf[i, j]));
  }

  // ---------------------------------------------------------------------
  // generate_3d_from_image: the foreground pixels in raster order

  /** A pixel position `(x, y)`: column, then row. */
  datatype Cell = Cell(x: int, y: int)

  /** `c` is a pixel of the grid whose mask value is 1. */
  predicate IsForeground(mask: Plane, c: Cell)
  {
    0 <= c.y < |mask| && 0 <= c.x < Cols(mask) && mask[c.y][c.x] == 1
  }

  /** `a` comes before `b` when rows are scanned top to bottom and each row
      left to right. */
  predicate RasterBefore(a: Cell, b: Cell)
  {
    a.y < b.y || (a.y == b.y && a.x < b.x)
  }

  /** The foreground cells of row `y` with column below `n`, left to right. */
  function RowCells(mask: Plane, y: int, n: int): (cs: seq<Cell>)
    requires 0 <= y < |mask| && 0 <= n <= Cols(mask)
    ensures forall k :: 0 <= k < |cs| ==> IsForeground(mask, cs[k]) && cs[k].y == y && cs[k].x < n
    decreases n
  {
    if n == 0 then []
    else RowCells(mask, y, n - 1) + (if mask[y][n - 1] == 1 then [Cell(n - 1, y)] else [])
  }

  /** The foreground cells of the rows above `m`, in raster order: what the
      loops `for y in range(height): for x in range(width)` have visited. */
  function ForegroundCells(mask: Plane, m: int): (cs: seq<Cell>)
    requires 0 <= m <= |mask|
    ensures forall k :: 0 <= k < |cs| ==> IsForeground(mask, cs[k]) && cs[k].y < m
    decreases m
  {
    if m == 0 then []
    else ForegroundCells(mask, m - 1) + RowCells(mask, m - 1, Cols(mask))
  }

  /** Every cell of `cs` lies in the image. */
  predicate InImage(image: Image, cs: seq<Cell>)
  {
    forall k :: 0 <= k < |cs| ==> 0 <= cs[k].y < |image| && 0 <= cs[k].x < Cols(image)
  }

  /** `points.append([x, y, 0])` for each cell. */
  function PointsOf(cs: seq<Cell>): (ps: seq<Point3>)
  {
    seq(|cs|, k requires 0 <= k < |cs| => Point3(cs[k].x as real, cs[k].y as real, 0.0))
  }

  /** `colors.append(image[y, x] / 255.0)` for each cell. */
  function ColorsOf(image: Image, cs: seq<Cell>): (colors: seq<Color>)
    requires InImage(image, cs)
  {
    seq(|cs|, k requires 0 <= k < |cs| => Normalize(image[cs[k].y][cs[k].x]))
  }

  /** Appending cells appends their points and their colours. */
  lemma CloudConcat(image: Image, a: seq<Cell>, b: seq<Cell>)
    requires InImage(image, a) && InImage(image, b)
    ensures InImage(image, a + b)
    ensures PointsOf(a + b) == PointsOf(a) + PointsOf(b)
    ensures ColorsOf(image, a + b) == ColorsOf(image, a) + ColorsOf(image, b)
  {
  }

  /** One turn of the inner loop: column `x` adds the point and the colour of
      pixel `(x, y)` exactly when it is a foreground pixel. */
  lemma RowStep(image: Image, mask: Plane, y: int, x: int)
    requires HasShape(mask, |image|, Cols(image)) && 0 <= y < |image| && 0 <= x < Cols(image)
    requires InImage(image, RowCells(mask, y, x))
    ensures InImage(image, RowCells(mask, y, x + 1))
    ensures PointsOf(RowCells(mask, y, x + 1)) == PointsOf(RowCells(mask, y, x)) +
              (if mask[y][x] == 1 then [Point3(x as real, y as real, 0.0)] else [])
    ensures ColorsOf(image, RowCells(mask, y, x + 1)) == ColorsOf(image, RowCells(mask, y, x)) +
              (if mask[y][x] == 1 then [Normalize(image[y][x])] else [])
  {
    assert |mask[0]| == Cols(image);
    if mask[y][x] == 1 {
      var c := Cell(x, y);
      assert RowCells(mask, y, x + 1) == RowCells(mask, y, x) + [c];
      CloudConcat(image, RowCells(mask, y, x), [c]);
    } else {
      assert RowCells(mask, y, x + 1) == RowCells(mask, y, x);
    }
  }

  /** The inner loop `for x in range(width)` of row `y`: appends the point and
      the colour of each foreground pixel of the row, left to right. */
  method ScanRow(image: Image, mask: Plane, y: int, points: seq<Point3>, colors: seq<Color>)
    returns (points': seq<Point3>, colors': seq<Color>)
    requires HasShape(mask, |image|, Cols(image)) && 0 <= y < |image|
    ensures Cols(mask) == Cols(image) && InImage(image, RowCells(mask, y, Cols(image)))
    ensures points' == points + PointsOf(RowCells(mask, y, Cols(image)))
    ensures colors' == colors + ColorsOf(image, RowCells(mask, y, Cols(image)))
  {
    var w := Cols(image);
    assert |mask[0]| == w;
    points', colors' := points, colors;
    var x := 0;
    while x < w
      invariant 0 <= x <= w
      invariant InImage(image, RowCells(mask, y, x))
      invariant points' == points + PointsOf(RowCells(mask, y, x))
      invariant colors' == colors + ColorsOf(image, RowCells(mask, y, x))
    {
      RowStep(image, mask, y, x);
      if mask[y][x] == 1 {
        points' := points' + [Point3(x as real, y as real, 0.0)];
        colors' := colors' + [Normalize(image[y][x])];
      }
      x := x + 1;
    }
  }

  /** The nested loop of lines 134-138: the points and colours of every
      foreground pixel, in raster order. */
  method ForegroundCloud(image: Image, mask: Plane) returns (points: seq<Point3>, colors: seq<Color>)
    requires HasShape(mask, |image|, Cols(image))
    ensures InImage(image, ForegroundCells(mask, |mask|))
    ensures points == PointsOf(ForegroundCells(mask, |mask|))
    ensures colors == ColorsOf(image, ForegroundCells(mask, |mask|))
  {
    var h := |image|;
    points, colors := [], [];
    var y := 0;
    while y < h
      invariant 0 <= y <= h
      invariant InImage(image, ForegroundCells(mask, y))
      invariant points == PointsOf(ForegroundCells(mask, y))
      invariant colors == ColorsOf(image, ForegroundCells(mask, y))
    {
      points, colors := ScanRow(image, mask, y, points, colors);
      CloudConcat(image, ForegroundCells(mask, y), RowCells(mask, y, Cols(mask)));
      y := y + 1;
    }
  }

  /** Every foreground cell of row `y` left of `n` is in `RowCells`. */
  lemma {:induction false} RowCellsComplete(mask: Plane, y: int, n: int, c: Cell)
    requires 0 <= y < |mask| && 0 <= n <= Cols(mask)
    requires IsForeground(mask, c) && c.y == y && c.x < n
    ensures c in RowCells(mask, y, n)
    decreases n
  {
    if c.x < n - 1 {
      RowCellsComplete(mask, y, n - 1, c);
    } else {
      assert RowCells(mask, y, n) == RowCells(mask, y, n - 1) + [c];
    }
  }

  /** Every foreground pixel is emitted: nothing with `mask == 1` is skipped. */
  lemma {:induction false} ForegroundComplete(mask: Plane, m: int, c: Cell)
    requires 0 <= m <= |mask| && IsForeground(mask, c) && c.y < m
    ensures c in ForegroundCells(mask, m)
    decreases m
  {
    if c.y < m - 1 {
      ForegroundComplete(mask, m - 1, c);
    } else {
      RowCellsComplete(mask, m - 1, Cols(mask), c);
    }
  }

  /** The cells are in strict raster order. */
  predicate RasterOrdered(cs: seq<Cell>)
  {
    forall i, j :: 0 <= i < j < |cs| ==> RasterBefore(cs[i], cs[j])
  }

  /** Cells of one row come out strictly left to right. */
  lemma {:induction false} RowCellsOrdered(mask: Plane, y: int, n: int)
    requires 0 <= y < |mask| && 0 <= n <= Cols(mask)
    ensures RasterOrdered(RowCells(mask, y, n))
    decreases n
  {
    if n > 0 {
      var prev := RowCells(mask, y, n - 1);
      RowCellsOrdered(mask, y, n - 1);
      if mask[y][n - 1] == 1 {
        var cs := prev + [Cell(n - 1, y)];
        assert RowCells(mask, y, n) == cs;
        forall i, j | 0 <= i < j < |cs| ensures RasterBefore(cs[i], cs[j]) {
          if j < |prev| {
            assert cs[i] == prev[i] && cs[j] == prev[j];
          } else {
            assert cs[i] == prev[i] && prev[i].y == y && prev[i].x < n - 1;
          }
        }
      } else {
        assert RowCells(mask, y, n) == prev;
      }
    }
  }

  /** Raster-ordered cells of earlier rows followed by raster-ordered cells
      of row `y` are raster-ordered. */
  lemma OrderedConcat(a: seq<Cell>, b: seq<Cell>, y: int)
    requires RasterOrdered(a) && RasterOrdered(b)
    requires forall k :: 0 <= k < |a| ==> a[k].y < y
    requires forall k :: 0 <= k < |b| ==> b[k].y == y
    ensures RasterOrdered(a + b)
  {
    forall i, j | 0 <= i < j < |a + b|
      ensures RasterBefore((a + b)[i], (a + b)[j])
    {
      if j < |a| {
        assert (a + b)[i] == a[i] && (a + b)[j] == a[j];
      } else if i < |a| {
        assert (a + b)[i] == a[i] && (a + b)[j] == b[j - |a|];
      } else {
        assert (a + b)[i] == b[i - |a|] && (a + b)[j] == b[j - |a|];
      }
    }
  }

  /** The emitted cells are in strict raster order (row-major, y outer, x
      inner), so no pixel is emitted twice. */
  lemma {:induction false} ForegroundOrdered(mask: Plane, m: int)
    requires 0 <= m <= |mask|
    ensures RasterOrdered(ForegroundCells(mask, m))
    decreases m
  {
    if m > 0 {
      var above, row := ForegroundCells(mask, m - 1), RowCells(mask, m - 1, Cols(mask));
      forall k | 0 <= k < |above| ensures above[k].y < m - 1 {
        assert IsForeground(mask, above[k]) && above[k].y < m - 1;
      }
      forall k | 0 <= k < |row| ensures row[k].y == m - 1 {
        assert IsForeground(mask, row[k]) && row[k].y == m - 1;
      }
      ForegroundOrdered(mask, m - 1);
      RowCellsOrdered(mask, m - 1, Cols(mask));
      OrderedConcat(above, row, m - 1);
      assert ForegroundCells(mask, m) == above + row;
    }
  }

  /** The set of foreground pixels of the mask. */
  function ForegroundSet(mask: Plane): set<Cell>
  {
    set y, x | 0 <= y < |mask| && 0 <= x < Cols(mask) && mask[y][x] == 1 :: Cell(x, y)
  }

  /** A sequence without repetitions has as many elements as its set. */
  lemma {:induction false} DistinctCardinality(cs: seq<Cell>)
    requires forall i, j :: 0 <= i < j < |cs| ==> cs[i] != cs[j]
    ensures |set k | 0 <= k < |cs| :: cs[k]| == |cs|
  {
    if |cs| > 0 {
      var init := cs[..|cs| - 1];
      DistinctCardinality(init);
      var s := set k | 0 <= k < |init| :: init[k];
      assert (set k | 0 <= k < |cs| :: cs[k]) == s + {cs[|cs| - 1]};
      assert cs[|cs| - 1] !in s;
    }
  }

  /** The number of emitted points is the number of pixels with `mask == 1`. */
  lemma ForegroundCount(mask: Plane)
    ensures |ForegroundCells(mask, |mask|)| == |ForegroundSet(mask)|
  {
    var cs := ForegroundCells(mask, |mask|);
    ForegroundOrdered(mask, |mask|);
    DistinctCardinality(cs);
    var s := set k | 0 <= k < |cs| :: cs[k];
    forall c | c in ForegroundSet(mask) ensures c in s {
      ForegroundComplete(mask, |mask|, c);
    }
    assert s == ForegroundSet(mask);
  }

  /** Point `k` is `[x, y, 0]` of foreground pixel `(x, y)` — y not inverted,
      z always 0 — and colour `k` is that same pixel over 255. */
  lemma CloudPairing(image: Image, cs: seq<Cell>, k: int)
    requires InImage(image, cs) && 0 <= k < |cs|
    ensures |PointsOf(cs)| == |ColorsOf(image, cs)| == |cs|
    ensures PointsOf(cs)[k] == Point3(cs[k].x as real, cs[k].y as real, 0.0)
    ensures PointsOf(cs)[k].z == 0.0
    ensures ColorsOf(image, cs)[k] == Normalize(image[PointsOf(cs)[k].y.Floor][PointsOf(cs)[k].x.Floor])
  {
  }

  // ---------------------------------------------------------------------
  // process_image

  /** The three files the run writes, all named from `splitext(path)[0]`. */
  function MaskedImagePath(path: string): string { Splitext(path).0 + "_background_removed.jpg" }
  function DescriptionPath(path: string): string { Splitext(path).0 + "_object_description.json" }
  function PointCloudPath(path: string): string { Splitext(path).0 + "_point_cloud.ply" }

  /** The three output names differ from one another and from the input, so
      this variant never overwrites the image it reads. */
  lemma OutputNamesDistinct(path: string)
    ensures MaskedImagePath(path) != path && DescriptionPath(path) != path && PointCloudPath(path) != path
    ensures MaskedImagePath(path) != DescriptionPath(path)
    ensures MaskedImagePath(path) != PointCloudPath(path)
    ensures DescriptionPath(path) != PointCloudPath(path)
  {
    var (root, ext) := Splitext(path);
    var n := |root|;
    SuffixAfterRoot(path, "_background_removed.jpg");
    SuffixAfterRoot(path, "_object_description.json");
    SuffixAfterRoot(path, "_point_cloud.ply");
    assert MaskedImagePath(path)[n + 1] == 'b';
    assert DescriptionPath(path)[n + 1] == 'o';
    assert PointCloudPath(path)[n + 1] == 'p';
  }

  /** `root + suffix` with a suffix starting with '_' cannot be the path
      itself, whose character after the root is '.' or absent. */
  lemma SuffixAfterRoot(path: string, suffix: string)
    requires |suffix| > 1 && suffix[0] == '_'
    ensures Splitext(path).0 + suffix != path
    ensures |Splitext(path).0 + suffix| > |Splitext(path).0| + 1
    ensures (Splitext(path).0 + suffix)[|Splitext(path).0| + 1] == suffix[1]
  {
  }

  /** How a run of `process_image` ends. */
  datatype CliRun =
    | NotLoaded            // imread failed: an error is printed, nothing is written
    | Crashed(exc: Exc)    // an exception escapes (no try block in this script)
    | Done(cloud: Cloud)   // all three files written; the cloud is also displayed

  /** The files a run on `path` may write. */
  function Outputs(path: string): set<string>
  {
    {MaskedImagePath(path), DescriptionPath(path), PointCloudPath(path)}
  }

  /** Lines 41-61: the mask of the RGB image, predicted at the fixed seed on
      the 512 x 512 copy and resized back to the image's size as uint8. */
  function PredictedMask(rgb: Image, predict: ImageUtils.Predictor,
                         sampleImage: (Image, int, int, int, int) -> Pixel,
                         sampleMask: (Plane, int, int, int, int) -> Byte): (r: Outcome<Plane>)
    ensures r.Ok? ==> HasShape(r.value, |rgb|, Cols(rgb))
  {
    var small := Resize(rgb, SamSide, SamSide, sampleImage);
    match predict(small, FixedSeed)
    case Raised(e) => Raised(e)
    case Ok(masks) =>
      if |masks| == 0 then Raised(Exc(IndexError, EmptyIndexMsg))
      else Ok(Resize(MapGrid<bool, Byte>(masks[0], (b: bool) => if b then 1 else 0), |rgb|, Cols(rgb), sampleMask))
  }

  /** What lines 73-103 and 128-150 leave behind, starting from the files
      `fs`: a captioning failure writes nothing; otherwise the JSON is
      written, and then either Open3D rejects the `(0,)` array of an empty
      foreground before the point cloud is written, or the cloud of the
      foreground cells is written too.  No other file changes. */
  ghost predicate Described(fs: Store, path: string, rgb: Image, mask: Plane,
                            describe: Image -> Outcome<string>, fs': Store, run: CliRun)
    requires HasShape(mask, |rgb|, Cols(rgb))
  {
    match describe(rgb)
    case Raised(e) => run == Crashed(e) && fs' == fs
    case Ok(text) =>
      var cs := ForegroundCells(mask, |rgb|);
      var json := fs[DescriptionPath(path) := JsonFile(path, text)];
      && InImage(rgb, cs)
      && (cs == [] ==> run == Crashed(Exc(Open3dError, EmptyCloudMsg)) && fs' == json)
      && (cs != [] ==> run == Done(Cloud(PointsOf(cs), ColorsOf(rgb, cs))) &&
                       fs' == json[PointCloudPath(path) := CloudFile(run.cloud)])
  }

  /** Lines 72-103 and 128-150, after the masked image is saved: caption the
      whole RGB image, write the JSON, then build and write the foreground
      cloud. */
  method DescribeAndReconstruct(fs: Store, path: string, rgb: Image, mask: Plane,
                                describe: Image -> Outcome<string>)
    returns (fs': Store, run: CliRun)
    requires HasShape(mask, |rgb|, Cols(rgb))
    ensures fs'.Keys <= fs.Keys + {DescriptionPath(path), PointCloudPath(path)}
    ensures forall q :: q in fs && q != DescriptionPath(path) && q != PointCloudPath(path) ==>
              q in fs' && fs'[q] == fs[q]
    ensures run != NotLoaded
    ensures Described(fs, path, rgb, mask, describe, fs', run)
  {
    var description := describe(rgb);
    if description.Raised? {
      return fs, Crashed(description.exc);
    }
    fs' := fs[DescriptionPath(path) := JsonFile(path, description.value)];
    var points, colors := ForegroundCloud(rgb, mask);
    if |points| == 0 {
      return fs', Crashed(Exc(Open3dError, EmptyCloudMsg));
    }
    var cloud := Cloud(points, colors);
    fs' := fs'[PointCloudPath(path) := CloudFile(cloud)];
    run := Done(cloud);
  }

  /** What lines 55-103 leave behind once SAM has produced `mask` for the
      image loaded from `path`: the masked image is saved, and then the
      files and the run are as `Described` says, starting from the files
      `fs` plus that image. */
  ghost predicate Saved(fs: Store, path: string, image: Image, mask: Plane,
                        describe: Image -> Outcome<string>, fs': Store, run: CliRun)
    requires HasShape(mask, |image|, Cols(image))
  {
    var rgb := MapGrid(image, SwapRB);
    var masked := MaskedImagePath(path);
    // the saved image is the RGB foreground, which imwrite stores as if it
    // were BGR: read back, red and blue of the input are swapped
    && masked in fs' && fs'[masked].ImageFile?
    && HasShape(fs'[masked].pixels, |image|, Cols(image))
    && (forall y, x :: 0 <= y < |image| && 0 <= x < Cols(image) ==>
          fs'[masked].pixels[y][x] == if mask[y][x] == 1 then SwapRB(image[y][x]) else Black)
    // the caption is of the whole image, not of the masked one
    && HasShape(mask, |rgb|, Cols(rgb))
    && Described(fs[masked := fs'[masked]], path, rgb, mask, describe, fs', run)
  }

  /** The files and the run `Saved` describes are fixed by its inputs: two
      runs of `process_image` on the same files and the same answers from
      the models leave the same files. */
  lemma SavedUnique(fs: Store, path: string, image: Image, mask: Plane,
                    describe: Image -> Outcome<string>,
                    fs1: Store, run1: CliRun, fs2: Store, run2: CliRun)
    requires HasShape(mask, |image|, Cols(image))
    requires Saved(fs, path, image, mask, describe, fs1, run1)
    requires Saved(fs, path, image, mask, describe, fs2, run2)
    ensures fs1 == fs2 && run1 == run2
  {
    var masked := MaskedImagePath(path);
    var p1, p2 := fs1[masked].pixels, fs2[masked].pixels;
    forall y | 0 <= y < |image| ensures p1[y] == p2[y] {
      forall x | 0 <= x < Cols(image) ensures p1[y][x] == p2[y][x] {
      }
    }
    assert p1 == p2;
    assert fs1[masked] == fs2[masked];
  }

  /** Lines 55-103, once SAM has produced `mask`: save the masked image, then
      caption and reconstruct. */
  method SaveAndDescribe(fs: Store, path: string, image: Image, mask: Plane,
                         describe: Image -> Outcome<string>)
    returns (fs': Store, run: CliRun)
    requires HasShape(mask, |image|, Cols(image))
    ensures fs'.Keys <= fs.Keys + Outputs(path)
    ensures forall q :: q in fs && q !in Outputs(path) ==> q in fs' && fs'[q] == fs[q]
    ensures run != NotLoaded
    ensures Saved(fs, path, image, mask, describe, fs', run)
  {
    var rgb := MapGrid(image, SwapRB);
    assert Cols(rgb) == Cols(image) by {
      if |rgb| > 0 { assert |rgb[0]| == Cols(image); }
    }
    var removed := RemoveBackground(rgb, mask);
    forall y, x | 0 <= y < |image| && 0 <= x < Cols(image)
      ensures removed[y][x] == if mask[y][x] == 1 then SwapRB(image[y][x]) else Black
    {
      assert rgb[y][x] == SwapRB(image[y][x]);
    }
    var masked := MaskedImagePath(path);
    OutputNamesDistinct(path);
    var saved := fs[masked := ImageFile(removed)];
    fs', run := DescribeAndReconstruct(saved, path, rgb, mask, describe);
    assert masked in fs' && fs'[masked] == ImageFile(removed);
  }

  /** `process_image(image_path)`: the files afterwards and how the run ended.
      `describe` stands for `read_image` plus PaLI-Gemma's `generate(...)[0]`. */
  method ProcessImage(fs: Store, path: string,
                      predict: ImageUtils.Predictor,
                      sampleImage: (Image, int, int, int, int) -> Pixel,
                      sampleMask: (Plane, int, int, int, int) -> Byte,
                      describe: Image -> Outcome<string>)
    returns (fs': Store, run: CliRun)
    // only the three output files can be added or replaced
    ensures fs'.Keys <= fs.Keys + Outputs(path)
    ensures forall q :: q in fs && q !in Outputs(path) ==> q in fs' && fs'[q] == fs[q]
    // an unreadable image: no file is written
    ensures ImRead(fs, path).None? <==> run == NotLoaded
    ensures run == NotLoaded ==> fs' == fs
    // segmentation failing: nothing is written; succeeding: see `Saved`
    ensures ImRead(fs, path).Some? ==>
              var image := ImRead(fs, path).value;
              var m := PredictedMask(MapGrid(image, SwapRB), predict, sampleImage, sampleMask);
              && (m.Raised? ==> run == Crashed(m.exc) && fs' == fs)
              && (m.Ok? ==> HasShape(m.value, |image|, Cols(image)) &&
                            Saved(fs, path, image, m.value, describe, fs', run))
  {
    var loaded := ImRead(fs, path);
    if loaded.None? {
      return fs, NotLoaded;
    }
    var rgb := MapGrid(loaded.value, SwapRB);
    var m := PredictedMask(rgb, predict, sampleImage, sampleMask);
    if m.Raised? {
      return fs, Crashed(m.exc);
    }
    assert |rgb| == |loaded.value| && Cols(rgb) == Cols(loaded.value) by {
      if |rgb| > 0 { assert |rgb[0]| == Cols(loaded.value); }
    }
    fs', run := SaveAndDescribe(fs, path, loaded.value, m.value, describe);
  }

  /** A file that is no output of `paths[..i]` and kept its contents through
      them, and is no output of `paths[i]` either, keeps them through one more
      `process_image`. */
  lemma KeptAfterStep(fs: Store, before: Store, after: Store, paths: seq<string>, i: nat)
    requires i < |paths|
    requires forall q :: q in fs && (forall k :: 0 <= k < i ==> q !in Outputs(paths[k])) ==>
               q in before && before[q] == fs[q]
    requires forall q :: q in before && q !in Outputs(paths[i]) ==> q in after && after[q] == before[q]
    ensures forall q :: q in fs && (forall k :: 0 <= k < i + 1 ==> q !in Outputs(paths[k])) ==>
              q in after && after[q] == fs[q]
  {
    forall q | q in fs && (forall k :: 0 <= k < i + 1 ==> q !in Outputs(paths[k]))
      ensures q in after && after[q] == fs[q]
    {
      assert q !in Outputs(paths[i]);
    }
  }

  /** Lines 158-160: `process_image` on each path of the command line, in
      order.  Nothing catches an exception, so the first crash ends the
      script; an unreadable image only skips that path. */
  method ProcessAll(fs: Store, paths: seq<string>,
                    predict: ImageUtils.Predictor,
                    sampleImage: (Image, int, int, int, int) -> Pixel,
                    sampleMask: (Plane, int, int, int, int) -> Byte,
                    describe: Image -> Outcome<string>)
    returns (fs': Store, runs: seq<CliRun>)
    ensures |runs| <= |paths|
    ensures forall k :: 0 <= k < |runs| - 1 ==> !runs[k].Crashed?
    ensures |runs| < |paths| ==> 0 < |runs| && runs[|runs| - 1].Crashed?
    ensures |paths| > 0 ==> 0 < |runs| && (runs[0] == NotLoaded <==> ImRead(fs, paths[0]).None?)
    // a file that is no output of any processed path keeps its contents
    ensures forall q :: q in fs && (forall k :: 0 <= k < |runs| ==> q !in Outputs(paths[k])) ==>
              q in fs' && fs'[q] == fs[q]
  {
    fs', runs := fs, [];
    var i := 0;
    while i < |paths|
      invariant 0 <= i <= |paths| && |runs| == i
      invariant forall k :: 0 <= k < |runs| ==> !runs[k].Crashed?
      invariant i == 0 ==> fs' == fs
      invariant i > 0 ==> (runs[0] == NotLoaded <==> ImRead(fs, paths[0]).None?)
      invariant forall q :: q in fs && (forall k :: 0 <= k < i ==> q !in Outputs(paths[k])) ==>
                  q in fs' && fs'[q] == fs[q]
    {
      var before, run := fs', NotLoaded;
      fs', run := ProcessImage(before, paths[i], predict, sampleImage, sampleMask, describe);
      KeptAfterStep(fs, before, fs', paths, i);
      runs := runs + [run];
      if run.Crashed? {
        return;
      }
      i := i + 1;
    }
  }
}
