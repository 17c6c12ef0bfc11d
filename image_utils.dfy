/** backend/utils/image_utils.py: background removal around a centre seed and
    the single-image height-field reconstruction with its two artifacts. */
module ImageUtils {
  import opened Outcomes
  import opened Imaging
  import opened PyPath

  /** A pixel coordinate given to SAM as `[x, y]` (column, row). */
  datatype Seed = Seed(x: int, y: int)

  /** SAM after `set_image(image)`: for one positive seed point, the predicted
      masks (the pipeline uses the first), or an exception from inference. */
  type Predictor = (Image, Seed) -> Outcome<seq<Mask>>

  /** Directory every artifact of the reconstruction is written to. */
  const UploadDir: string := "static/uploads"

  /** Edge of the voxel grid passed to `voxel_down_sample`. */
  const VoxelSize: real := 0.08

  /** Default of `downsample_factor`. */
  const DefaultFactor: int := 4

  const NotFoundMsg: string := "Image not found!"

  // ---------------------------------------------------------------------
  // remove_background

  /** `[shape[1] // 2, shape[0] // 2]`: the centre of the image, rounded down. */
  function CenterSeed(image: Image): (s: Seed)
    ensures 2 * s.x <= Cols(image) <= 2 * s.x + 1
    ensures 2 * s.y <= |image| <= 2 * s.y + 1
  {
    Seed(Cols(image) / 2, |image| / 2)
  }

  /** The seed is a pixel of the image whenever the image has a pixel. */
  lemma CenterSeedInside(image: Image)
    requires |image| >= 1 && Cols(image) >= 1
    ensures 0 <= CenterSeed(image).x < Cols(image)
    ensures 0 <= CenterSeed(image).y < |image|
  {
    var s := CenterSeed(image);
    assert 2 * s.x <= Cols(image) <= 2 * s.x + 1;
  }

  /** `masks[0].astype(np.uint8) * 255`. */
  function MaskTo255(m: Mask): (r: Plane)
    ensures HasShape(r, |m|, Cols(m))
    ensures forall i, j :: 0 <= i < |m| && 0 <= j < Cols(m) ==> (r[i][j] != 0 <==> m[i][j])
  {
    MapGrid(m, (b: bool) => if b then 255 as Byte else 0 as Byte)
  }

  /** `cv2.bitwise_and(img, img, mask=m)`: `p & p == p` where the mask is
      non-zero, all channels 0 where it is zero. */
  function BitwiseAndSelf(img: Image, m: Plane): (r: Image)
    requires HasShape(m, |img|, Cols(img))
    ensures HasShape(r, |img|, Cols(img))
    ensures forall i, j :: 0 <= i < |img| && 0 <= j < Cols(img) && m[i][j] != 0 ==> r[i][j] == img[i][j]
    ensures forall i, j :: 0 <= i < |img| && 0 <= j < Cols(img) && m[i][j] == 0 ==> r[i][j] == Black
  {
    seq(|img|, i requires 0 <= i < |img| =>
      seq(Cols(img), j requires 0 <= j < Cols(img) => if m[i][j] != 0 then img[i][j] else Black))
  }

  /** The image with every pixel outside the mask set to black. */
  ghost predicate MaskedFrom(r: Image, image: Image, mask: Mask)
    requires HasShape(mask, |image|, Cols(image))
  {
    && HasShape(r, |image|, Cols(image))
    && forall i, j :: 0 <= i < |image| && 0 <= j < Cols(image) ==>
         r[i][j] == (if mask[i][j] then image[i][j] else Black)
  }

  /** Converting to RGB, masking and converting back to BGR for `imwrite`
      masks the loaded pixels with their channels in the original order. */
  lemma MaskedRoundTrip(image: Image, mask: Mask)
    requires HasShape(mask, |image|, Cols(image))
    ensures var rgb := MapGrid(image, SwapRB);
            HasShape(MaskTo255(mask), |rgb|, Cols(rgb)) &&
            MaskedFrom(MapGrid(BitwiseAndSelf(rgb, MaskTo255(mask)), SwapRB), image, mask)
  {
    var rgb := MapGrid(image, SwapRB);
    var m := MaskTo255(mask);
    assert Cols(rgb) == Cols(image) by {
      if |image| > 0 { assert |rgb[0]| == Cols(image); }
    }
    var res := BitwiseAndSelf(rgb, m);
    var back := MapGrid(res, SwapRB);
    assert Cols(res) == Cols(image) by {
      if |image| > 0 { assert |res[0]| == Cols(image); }
    }
    forall i, j | 0 <= i < |image| && 0 <= j < Cols(image)
      ensures back[i][j] == (if mask[i][j] then image[i][j] else Black)
    {
      if mask[i][j] {
        assert res[i][j] == rgb[i][j] == SwapRB(image[i][j]);
      } else {
        assert res[i][j] == Black;
      }
    }
  }

  /** `image_path.replace(".jpg", "_segmented.jpg").replace(".png", "_segmented.png")`. */
  function SegmentedPath(path: string): string
  {
    Replace(Replace(path, ".jpg", "_segmented.jpg"), ".png", "_segmented.png")
  }

  /** A path holding neither ".jpg" nor ".png" (a ".jpeg" upload, say) is its
      own segmented path: the segmented image overwrites the input. */
  lemma SegmentedPathUnchanged(path: string)
    requires !Contains(path, ".jpg") && !Contains(path, ".png")
    ensures SegmentedPath(path) == path
  {
    ReplaceAbsent(path, ".jpg", "_segmented.jpg");
    ReplaceAbsent(path, ".png", "_segmented.png");
  }

  /** For `p + ".jpg"` with no other ".jpg" or ".png" in it, "_segmented" is
      inserted before the extension. */
  lemma SegmentedPathJpg(p: string)
    requires !Contains(p, ".jpg") && !Contains(p, ".png")
    ensures SegmentedPath(p + ".jpg") == p + "_segmented.jpg"
  {
    ReplaceAfterClean(p, ".jpg", ".jpg", "_segmented.jpg");
    assert OccursAt(".jpg", ".jpg", 0);
    ReplaceLeading(".jpg", ".jpg", "_segmented.jpg");
    assert Replace(p + ".jpg", ".jpg", "_segmented.jpg") == p + "_segmented.jpg";
    ReplaceAfterClean(p, "_segmented.jpg", ".png", "_segmented.png");
    SegmentedSuffixHasNoPng();
    ReplaceAbsent("_segmented.jpg", ".png", "_segmented.png");
  }

  /** For `p + ".png"` with no other ".jpg" or ".png" in it, "_segmented" is
      inserted before the extension. */
  lemma SegmentedPathPng(p: string)
    requires !Contains(p, ".jpg") && !Contains(p, ".png")
    ensures SegmentedPath(p + ".png") == p + "_segmented.png"
  {
    ReplaceAfterClean(p, ".png", ".jpg", "_segmented.jpg");
    PngHasNoJpg();
    ReplaceAbsent(".png", ".jpg", "_segmented.jpg");
    assert Replace(p + ".png", ".jpg", "_segmented.jpg") == p + ".png";
    ReplaceAfterClean(p, ".png", ".png", "_segmented.png");
    assert OccursAt(".png", ".png", 0);
    ReplaceLeading(".png", ".png", "_segmented.png");
  }

  /** Replacing in `p + q` where `p` holds no `pat` and `q` does not start
      with one of `pat`'s later characters touches only `q`. */
  lemma ReplaceAfterClean(p: string, q: string, pat: string, rep: string)
    requires |pat| > 0 && |q| > 0 && q[0] !in pat[1..] && !Contains(p, pat)
    ensures Replace(p + q, pat, rep) == p + Replace(q, pat, rep)
  {
    NoStraddleAtSeam(p, q, pat);
    ReplaceConcat(p, q, pat, rep);
    ReplaceAbsent(p, pat, rep);
  }

  lemma SegmentedSuffixHasNoPng()
    ensures !Contains("_segmented.jpg", ".png")
  {
    var s := "_segmented.jpg";
    forall i | 0 <= i <= |s| ensures !OccursAt(s, ".png", i) {
      if i + 4 <= |s| {
        assert s[i..i + 4][0] == s[i];
        assert s[i..i + 4][1] == s[i + 1];
      }
    }
  }

  lemma PngHasNoJpg()
    ensures !Contains(".png", ".jpg")
  {
    var s := ".png";
    forall i | 0 <= i <= |s| ensures !OccursAt(s, ".jpg", i) {
      if i == 0 {
        assert s[0..4][1] == 'p';
      }
    }
  }

  /** `remove_background(image_path, predictor)`: the new state of the files
      and the returned path, or the exception raised. */
  function RemoveBackground(fs: Store, path: string, predict: Predictor): (Store, Outcome<string>)
  {
    match ImRead(fs, path)
    case None => (fs, Raised(Exc(ValueError, NotFoundMsg)))
    case Some(image) =>
      var rgb := MapGrid(image, SwapRB);
      match predict(rgb, CenterSeed(image))
      case Raised(e) => (fs, Raised(e))
      case Ok(masks) =>
        if |masks| == 0 then (fs, Raised(Exc(IndexError, EmptyIndexMsg)))
        else
          var m := MaskTo255(masks[0]);
          if !HasShape(m, |rgb|, Cols(rgb)) then (fs, Raised(Exc(CvError, MaskSizeMsg)))
          else
            var out := SegmentedPath(path);
            (fs[out := ImageFile(MapGrid(BitwiseAndSelf(rgb, m), SwapRB))], Ok(out))
  }

  /** What `remove_background` does, case by case: an unreadable image raises
      ValueError and writes nothing; a failed prediction, an empty mask list or
      a mask of another size raises and writes nothing; otherwise the
      segmented path is returned and holds the loaded image masked by the
      first mask (channels as loaded), and no other file changes. */
  lemma RemoveBackgroundSpec(fs: Store, path: string, predict: Predictor)
    ensures var (fs', r) := RemoveBackground(fs, path, predict);
      && (ImRead(fs, path).None? ==> fs' == fs && r == Raised(Exc(ValueError, NotFoundMsg)))
      && (r.Raised? ==> fs' == fs)
      && (r.Ok? <==>
            ImRead(fs, path).Some? &&
            var image := ImRead(fs, path).value;
            var p := predict(MapGrid(image, SwapRB), CenterSeed(image));
            p.Ok? && |p.value| > 0 && HasShape(p.value[0], |image|, Cols(image)))
      && (r.Ok? ==>
            var image := ImRead(fs, path).value;
            var mask := predict(MapGrid(image, SwapRB), CenterSeed(image)).value[0];
            && r.value == SegmentedPath(path)
            && fs'.Keys == fs.Keys + {r.value}
            && (forall q :: q in fs && q != r.value ==> fs'[q] == fs[q])
            && fs'[r.value].ImageFile?
            && HasShape(mask, |image|, Cols(image))
            && MaskedFrom(fs'[r.value].pixels, image, mask))
  {
    var (fs', r) := RemoveBackground(fs, path, predict);
    if ImRead(fs, path).Some? {
      var image := ImRead(fs, path).value;
      var rgb := MapGrid(image, SwapRB);
      assert Cols(rgb) == Cols(image) by {
        if |image| > 0 { assert |rgb[0]| == Cols(image); }
      }
      var p := predict(rgb, CenterSeed(image));
      if p.Ok? && |p.value| > 0 {
        var mask := p.value[0];
        var m := MaskTo255(mask);
        assert Cols(m) == Cols(mask) by {
          if |mask| > 0 { assert |m[0]| == Cols(mask); }
        }
        assert HasShape(m, |rgb|, Cols(rgb)) <==> HasShape(mask, |image|, Cols(image));
        if HasShape(mask, |image|, Cols(image)) {
          MaskedRoundTrip(image, mask);
        }
      }
    }
  }

  // ---------------------------------------------------------------------
  // generate_3d_from_image

  /** Python's `a // b`: the quotient rounded toward minus infinity. */
  function FloorDiv(a: int, b: int): (q: int)
    requires b != 0
    ensures b > 0 ==> q * b <= a < q * b + b
    ensures b < 0 ==> q * b + b < a <= q * b
    ensures b > 0 && a >= 0 ==> q >= 0
  {
    if b > 0 then a / b else (-a) / (-b)
  }

  /** `(width // f, height // f)`, the size of the resized image. */
  function GridSize(image: Image, factor: int): (d: (int, int))
    requires factor != 0
    ensures factor > 0 ==> d.0 >= 0 && d.1 >= 0
    ensures factor > 0 ==> d.0 * factor <= Cols(image) < d.0 * factor + factor
    ensures factor > 0 ==> d.1 * factor <= |image| < d.1 * factor + factor
  {
    (FloorDiv(Cols(image), factor), FloorDiv(|image|, factor))
  }

  /** Lines 43-45: at row `r`, column `c` of the resized grid the point is
      `(c, h - r, gray[r][c] / 255)` (meshgrid, row inversion, stack). */
  function PointGrid(small: Image, gray: Plane): (g: seq<seq<Point3>>)
    requires HasShape(gray, |small|, Cols(small))
    ensures HasShape(g, |small|, Cols(small))
  {
    var h, w := |small|, Cols(small);
    seq(h, (r: int) requires 0 <= r < h =>
      seq(w, (c: int) requires 0 <= c < w =>
        Point3(c as real, (h - r) as real, gray[r][c] as real / 255.0)))
  }

  /** Line 48 before the reshape: each resized pixel over 255, channels as
      loaded. */
  function ColorGrid(small: Image): (g: seq<seq<Color>>)
    ensures HasShape(g, |small|, Cols(small))
  {
    var h, w := |small|, Cols(small);
    seq(h, (r: int) requires 0 <= r < h =>
      seq(w, (c: int) requires 0 <= c < w => Normalize(small[r][c])))
  }

  /** Lines 47-48: both grids reshaped to `(-1, 3)` in row-major order. */
  function HeightField(small: Image, gray: Plane): (cloud: Cloud)
    requires HasShape(gray, |small|, Cols(small))
  {
    Cloud(Flatten(PointGrid(small, gray)), Flatten(ColorGrid(small)))
  }

  /** The height field has one point and one colour per resized pixel. */
  lemma HeightFieldSize(small: Image, gray: Plane)
    requires HasShape(gray, |small|, Cols(small))
    ensures |HeightField(small, gray).points| == |small| * Cols(small)
    ensures |HeightField(small, gray).colors| == |small| * Cols(small)
  {
    FlattenLength(PointGrid(small, gray), Cols(small));
    FlattenLength(ColorGrid(small), Cols(small));
  }

  /** Index `i` of both the points and the colours refers to pixel
      `(i / w, i % w)`: the point is `(column, h - row, gray / 255)`, the colour
      the pixel over 255 in the channel order it was loaded in. */
  lemma HeightFieldAt(small: Image, gray: Plane, i: int)
    requires HasShape(gray, |small|, Cols(small))
    requires 0 <= i < |small| * Cols(small)
    ensures var cloud := HeightField(small, gray);
      var w := Cols(small);
      && |cloud.points| == |cloud.colors| == |small| * w
      && 0 <= i / w < |small| && 0 <= i % w < w
      && cloud.points[i] == Point3((i % w) as real, (|small| - i / w) as real, gray[i / w][i % w] as real / 255.0)
      && cloud.colors[i] == Normalize(small[i / w][i % w])
  {
    var h, w := |small|, Cols(small);
    var r, c := i / w, i % w;
    RasterIndex(i, w, h);
    FlattenAt(PointGrid(small, gray), w, r, c);
    FlattenAt(ColorGrid(small), w, r, c);
  }

  /** Every point lies on the resized grid, with y in 1..h (never 0, since
      rows are inverted as `h - row`) and z in [0, 1]; every colour channel is
      in [0, 1]. */
  lemma HeightFieldBounds(small: Image, gray: Plane)
    requires HasShape(gray, |small|, Cols(small))
    ensures var cloud := HeightField(small, gray);
      && |cloud.points| == |cloud.colors|
      && forall i :: 0 <= i < |cloud.points| ==>
           && 0.0 <= cloud.points[i].x < Cols(small) as real
           && 1.0 <= cloud.points[i].y <= |small| as real
           && 0.0 <= cloud.points[i].z <= 1.0
           && 0.0 <= cloud.colors[i].c0 <= 1.0
           && 0.0 <= cloud.colors[i].c1 <= 1.0
           && 0.0 <= cloud.colors[i].c2 <= 1.0
  {
    var cloud := HeightField(small, gray);
    HeightFieldSize(small, gray);
    forall i | 0 <= i < |cloud.points|
      ensures 0.0 <= cloud.points[i].x < Cols(small) as real
      ensures 1.0 <= cloud.points[i].y <= |small| as real
      ensures 0.0 <= cloud.points[i].z <= 1.0
      ensures 0.0 <= cloud.colors[i].c0 <= 1.0
      ensures 0.0 <= cloud.colors[i].c1 <= 1.0
      ensures 0.0 <= cloud.colors[i].c2 <= 1.0
    {
      HeightFieldAt(small, gray, i);
    }
  }

  /** The `.ply` artifact's path: `join("static/uploads", stem + "_3d.ply")`. */
  function PlyPath(path: string): string
  {
    Join(UploadDir, Stem(path) + "_3d.ply")
  }

  /** The `.glb` artifact's path: `join("static/uploads", stem + "_3d.glb")`. */
  function GlbPath(path: string): string
  {
    Join(UploadDir, Stem(path) + "_3d.glb")
  }

  /** Joining the upload directory with a plain file name puts one '/'
      between them, and the basename gives the name back. */
  lemma JoinUpload(name: string)
    requires |name| > 0 && '/' !in name
    ensures Join(UploadDir, name) == "static/uploads/" + name
    ensures Basename(Join(UploadDir, name)) == name
  {
    assert name[0] != '/';
    BasenameAfterSlash(UploadDir, name);
  }

  /** Both artifacts sit in the upload directory and are named by the stem of
      the input's basename; their basenames are `stem + "_3d.ply"` and
      `stem + "_3d.glb"`, so they never coincide. */
  lemma ArtifactNames(path: string)
    ensures PlyPath(path) == "static/uploads/" + Stem(path) + "_3d.ply"
    ensures GlbPath(path) == "static/uploads/" + Stem(path) + "_3d.glb"
    ensures Basename(PlyPath(path)) == Stem(path) + "_3d.ply"
    ensures Basename(GlbPath(path)) == Stem(path) + "_3d.glb"
    ensures PlyPath(path) != GlbPath(path)
  {
    ArtifactNamesOf(Stem(path));
  }

  lemma ArtifactNamesOf(stem: string)
    requires '/' !in stem
    ensures Join(UploadDir, stem + "_3d.ply") == "static/uploads/" + stem + "_3d.ply"
    ensures Join(UploadDir, stem + "_3d.glb") == "static/uploads/" + stem + "_3d.glb"
    ensures Basename(Join(UploadDir, stem + "_3d.ply")) == stem + "_3d.ply"
    ensures Basename(Join(UploadDir, stem + "_3d.glb")) == stem + "_3d.glb"
    ensures Join(UploadDir, stem + "_3d.ply") != Join(UploadDir, stem + "_3d.glb")
  {
    SuffixedNameIsPlain(stem, "_3d.ply");
    SuffixedNameIsPlain(stem, "_3d.glb");
    JoinUpload(stem + "_3d.ply");
    JoinUpload(stem + "_3d.glb");
    var ply, glb := stem + "_3d.ply", stem + "_3d.glb";
    assert ply[|ply| - 3] == 'p' && glb[|glb| - 3] == 'g';
  }

  /** A name without '/' followed by a suffix without '/' has no '/'. */
  lemma SuffixedNameIsPlain(stem: string, suffix: string)
    requires '/' !in stem && '/' !in suffix && |suffix| > 0
    ensures |stem + suffix| > 0 && '/' !in stem + suffix
  {
    forall k | 0 <= k < |stem + suffix| ensures (stem + suffix)[k] != '/' {
      if k < |stem| { assert (stem + suffix)[k] == stem[k]; }
      else { assert (stem + suffix)[k] == suffix[k - |stem|]; }
    }
  }

  /** Lines 36-39: the image resized to `(w // f) x (h // f)`, or the
      exception raised while computing or using that size. */
  function Downsample(image: Image, factor: int, sample: (Image, int, int, int, int) -> Pixel): (r: Outcome<Image>)
    ensures r.Ok? ==> factor != 0 && GridSize(image, factor).0 > 0 && GridSize(image, factor).1 > 0
    ensures r.Ok? ==> HasShape(r.value, GridSize(image, factor).1, GridSize(image, factor).0)
  {
    if factor == 0 then Raised(Exc(ZeroDivisionError, ZeroDivMsg))
    else
      var (nw, nh) := GridSize(image, factor);
      if nw <= 0 || nh <= 0 then Raised(Exc(CvError, ResizeSizeMsg))
      else Ok(Resize(image, nh, nw, sample))
  }

  /** `generate_3d_from_image(image_path, factor)`: the files afterwards and the
      returned `.glb` path, or the exception raised.  `sample` is cv2.resize's
      interpolation, `luma` the BGR-to-gray weights, `voxel` Open3D's
      `voxel_down_sample`. */
  function Generate3D(fs: Store, path: string, factor: int,
                      sample: (Image, int, int, int, int) -> Pixel,
                      luma: Pixel -> Byte,
                      voxel: (Cloud, real) -> Cloud): (Store, Outcome<string>)
  {
    match ImRead(fs, path)
    case None => (fs, Raised(Exc(ValueError, NotFoundMsg)))
    case Some(image) =>
      match Downsample(image, factor, sample)
      case Raised(e) => (fs, Raised(e))
      case Ok(small) =>
        var gray := MapGrid(small, luma);
        var down := voxel(HeightField(small, gray), VoxelSize);
        (fs[PlyPath(path) := CloudFile(down)][GlbPath(path) := SceneFile(down.points)], Ok(GlbPath(path)))
  }

  /** What `generate_3d_from_image` does, case by case: an unreadable image
      raises ValueError and writes nothing; a zero factor raises
      ZeroDivisionError and a grid with an empty side makes resize raise, both
      writing nothing; otherwise the `.ply` holds the voxel-reduced height
      field, the `.glb` its points, nothing else changes, and the returned path
      is `"static/uploads/" + stem + "_3d.glb"`. */
  lemma Generate3DSpec(fs: Store, path: string, factor: int,
                       sample: (Image, int, int, int, int) -> Pixel,
                       luma: Pixel -> Byte,
                       voxel: (Cloud, real) -> Cloud)
    ensures var (fs', r) := Generate3D(fs, path, factor, sample, luma, voxel);
      && (ImRead(fs, path).None? ==> fs' == fs && r == Raised(Exc(ValueError, NotFoundMsg)))
      && (ImRead(fs, path).Some? && factor == 0 ==> fs' == fs && r == Raised(Exc(ZeroDivisionError, ZeroDivMsg)))
      && (ImRead(fs, path).Some? && factor != 0 &&
          (GridSize(ImRead(fs, path).value, factor).0 <= 0 || GridSize(ImRead(fs, path).value, factor).1 <= 0) ==>
            fs' == fs && r == Raised(Exc(CvError, ResizeSizeMsg)))
      && (r.Raised? ==> fs' == fs)
      && (r.Ok? <==> ImRead(fs, path).Some? && factor != 0 &&
                     GridSize(ImRead(fs, path).value, factor).0 > 0 &&
                     GridSize(ImRead(fs, path).value, factor).1 > 0)
      && (r.Ok? ==>
            var image := ImRead(fs, path).value;
            var (nw, nh) := GridSize(image, factor);
            var small := Resize(image, nh, nw, sample);
            var down := voxel(HeightField(small, MapGrid(small, luma)), VoxelSize);
            && r.value == "static/uploads/" + Stem(path) + "_3d.glb"
            && fs' == fs[PlyPath(path) := CloudFile(down)][GlbPath(path) := SceneFile(down.points)]
            && fs'.Keys == fs.Keys + {PlyPath(path), GlbPath(path)})
  {
    ArtifactNames(path);
  }

  /** The cloud handed to `voxel_down_sample` has `(w // f) * (h // f)` points
      and as many colours, all within the bounds of the height field. */
  lemma ReconstructedCloudSize(image: Image, factor: int,
                               sample: (Image, int, int, int, int) -> Pixel,
                               luma: Pixel -> Byte)
    requires Downsample(image, factor, sample).Ok?
    ensures var small := Downsample(image, factor, sample).value;
      var cloud := HeightField(small, MapGrid(small, luma));
      |cloud.points| == |cloud.colors| == GridSize(image, factor).0 * GridSize(image, factor).1
  {
    var small := Downsample(image, factor, sample).value;
    var (nw, nh) := GridSize(image, factor);
    assert Cols(small) == nw by { assert |small[0]| == nw; }
    HeightFieldSize(small, MapGrid(small, luma));
  }
}
