/** Images, masks, point clouds and the upload directory, as the pipeline's
    numpy arrays and files hold them.  OpenCV's interpolation and colour
    weights are not modelled: they enter as parameters whose results have the
    right shape and range by construction. */
module Imaging {
  import opened Outcomes

  /** An 8-bit channel value (`np.uint8`). */
  type Byte = x: int | 0 <= x < 256

  /** One pixel as three channels in storage order: B, G, R for an image as
      `cv2.imread` returns it, R, G, B after `cvtColor(..., BGR2RGB)`. */
  datatype Pixel = Pixel(c0: Byte, c1: Byte, c2: Byte)

  const Black: Pixel := Pixel(0, 0, 0)

  /** `cvtColor` with BGR2RGB or RGB2BGR: the first and third channels trade
      places. */
  function SwapRB(p: Pixel): Pixel
  {
    Pixel(p.c2, p.c1, p.c0)
  }

  /** Number of columns of a row-major grid (0 for a grid without rows). */
  function Cols<T>(g: seq<seq<T>>): nat
  {
    if |g| == 0 then 0 else |g[0]|
  }

  /** Every row has the same length. */
  predicate IsRect<T>(g: seq<seq<T>>)
  {
    forall r :: 0 <= r < |g| ==> |g[r]| == Cols(g)
  }

  /** `g.shape[:2] == (h, w)`. */
  predicate HasShape<T>(g: seq<seq<T>>, h: int, w: int)
  {
    |g| == h && forall r :: 0 <= r < |g| ==> |g[r]| == w
  }

  /** A 2-D numpy array: rows of equal length, indexed `g[row][column]`. */
  type Grid<T> = g: seq<seq<T>> | IsRect(g) witness []

  /** A colour image (`h x w x 3`, uint8). */
  type Image = Grid<Pixel>

  /** A boolean mask as SAM predicts it. */
  type Mask = Grid<bool>

  /** A single-channel uint8 array (a grayscale image, a resized mask). */
  type Plane = Grid<Byte>

  /** An elementwise numpy operation: `f` applied at every cell. */
  function MapGrid<A, B>(g: Grid<A>, f: A -> B): (r: Grid<B>)
    ensures HasShape(r, |g|, Cols(g))
    ensures forall i, j :: 0 <= i < |g| && 0 <= j < Cols(g) ==> r[i][j] == f(g[i][j])
  {
    seq(|g|, i requires 0 <= i < |g| => seq(|g[i]|, j requires 0 <= j < |g[i]| => f(g[i][j])))
  }

  /** `cv2.resize(src, (w, h))`.  The interpolation is the parameter `sample`:
      `sample(src, h, w, i, j)` is the value the library computes for output
      cell `(i, j)`; whatever it is, the result has shape `h x w`. */
  function Resize<T>(src: Grid<T>, h: nat, w: nat, sample: (Grid<T>, int, int, int, int) -> T): (r: Grid<T>)
    ensures HasShape(r, h, w)
    ensures forall i, j :: 0 <= i < h && 0 <= j < w ==> r[i][j] == sample(src, h, w, i, j)
  {
    seq(h, i => seq(w, j => sample(src, h, w, i, j)))
  }

  /** `a.reshape(-1, ...)` of a C-contiguous array: the rows laid end to end. */
  function Flatten<T>(g: seq<seq<T>>): seq<T>
  {
    if |g| == 0 then [] else g[0] + Flatten(g[1..])
  }

  /** Row-major flattening puts cell `(r, c)` of an `h x w` grid at index
      `r * w + c`, and has exactly `h * w` entries. */
  lemma {:induction false} FlattenAt<T>(g: seq<seq<T>>, w: nat, r: nat, c: nat)
    requires HasShape(g, |g|, w) && r < |g| && c < w
    ensures |Flatten(g)| == |g| * w
    ensures r * w + c < |Flatten(g)| && Flatten(g)[r * w + c] == g[r][c]
    decreases |g|
  {
    FlattenLength(g, w);
    if r > 0 {
      FlattenAt(g[1..], w, r - 1, c);
      assert (r - 1) * w + c + w == r * w + c;
    }
  }

  /** Row-major flattening of an `h x w` grid has `h * w` entries. */
  lemma {:induction false} FlattenLength<T>(g: seq<seq<T>>, w: nat)
    requires HasShape(g, |g|, w)
    ensures |Flatten(g)| == |g| * w
    decreases |g|
  {
    if |g| > 0 {
      FlattenLength(g[1..], w);
      assert |g| * w == w + (|g| - 1) * w;
    }
  }

  /** Every flat index `i` below `h * w` is the raster index of row `i / w`,
      column `i % w`. */
  lemma RasterIndex(i: int, w: int, h: int)
    requires w > 0 && 0 <= i < h * w
    ensures 0 <= i / w < h && 0 <= i % w < w && i == (i / w) * w + i % w
  {
    var r := i / w;
    assert r * w <= i;
    assert (h - r) * w == h * w - r * w;
  }

  /** A 3-D point of a cloud. */
  datatype Point3 = Point3(x: real, y: real, z: real)

  /** A colour with channels scaled to [0, 1], in the channel order of the
      pixel it came from. */
  datatype Color = Color(c0: real, c1: real, c2: real)

  /** An Open3D point cloud: `points[i]` carries `colors[i]`. */
  datatype Cloud = Cloud(points: seq<Point3>, colors: seq<Color>)

  /** `pixel / 255.0`, channel by channel. */
  function Normalize(p: Pixel): (c: Color)
    ensures 0.0 <= c.c0 <= 1.0 && 0.0 <= c.c1 <= 1.0 && 0.0 <= c.c2 <= 1.0
    ensures c.c0 * 255.0 == p.c0 as real && c.c1 * 255.0 == p.c1 as real && c.c2 * 255.0 == p.c2 as real
  {
    Color(p.c0 as real / 255.0, p.c1 as real / 255.0, p.c2 as real / 255.0)
  }

  /** What a file in the upload directory holds, as the next reader sees it. */
  datatype File =
    | ImageFile(pixels: Image)                          // written by cv2.imwrite
    | CloudFile(cloud: Cloud)                           // written by o3d.io.write_point_cloud (.ply)
    | SceneFile(points: seq<Point3>)                    // written by trimesh export (.glb)
    | JsonFile(imagePath: string, description: string)  // written by json.dump

  /** The file system, by path. */
  type Store = map<string, File>

  /** `cv2.imread(path)`: the decoded image, or None when the file is missing
      or is not an image. */
  function ImRead(fs: Store, path: string): (r: Option<Image>)
    ensures r.Some? <==> path in fs && fs[path].ImageFile?
    ensures r.Some? ==> r.value == fs[path].pixels
  {
    if path in fs && fs[path].ImageFile? then Some(fs[path].pixels) else None
  }
}
