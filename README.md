# Image-to-3D pipeline: a verified Dafny model

This project models the logic of the 2-D-to-3-D image service around its
machine-learning calls. It covers three parts.

- **Reconstruction utilities** (`backend/utils/image_utils.py`):
  - `remove_background` takes the centre seed, applies the first SAM mask and
    writes the `_segmented` copy.
  - `generate_3d_from_image` downsamples the image, builds a height field in
    row-major raster order and writes the `_3d.ply` and `_3d.glb` artifacts.
- **Service orchestrator** (`backend/models/processing.py`): `process_image`
  runs segmentation, then captioning, then reconstruction. It wraps every
  failure in one generic exception.
- **Command-line variant** (`paligemma_keras_test.py`): the older script.
  - It removes the background by boolean-index assignment into a zeroed image.
  - It writes a JSON description.
  - It emits a flat point cloud of the foreground pixels with two nested loops.

The model is built as follows.

- The file system is a map from path to file contents (`Imaging.Store`).
  Reading an image looks it up; each write is a map update.
- A Python exception is a value: `Outcomes.Outcome` is `Ok` or `Raised`, and
  `Outcomes.Exc` holds the exception's class and message.
- Library and model calls are parameters of the operations that use them. This
  covers SAM prediction, `cv2.resize` interpolation, grayscale weights, Open3D
  voxel reduction and PaLI-Gemma captioning. Resize results have the requested
  shape by construction. The shape of SAM's mask is not assumed: background
  removal checks it and raises when it differs from the image. Nothing else is
  assumed about these calls.
- `str.replace`, `os.path.basename`, `os.path.splitext` and `os.path.join` are
  modelled as CPython's `posixpath` defines them (`PyPath`).
- The vectorised utilities and the orchestrator are functions.
- The command-line script is imperative: `PaligemmaCli` has methods with loops
  and invariants. Its background removal fills an `array2`, and its point loop
  appends to growing sequences.

Four behaviours of the code are worth knowing before reading the contracts.

- **Colour order.** The height-field colours are the resized pixels in the BGR
  order `cv2.imread` returns; they are not converted to RGB.
- **Empty mask set.** An empty SAM mask set surfaces as an `IndexError` from
  `masks[0]`, not as an inference error.
- **Segmented path.** The path keeps the source's extension only for `.jpg` and
  `.png`. Any other name, such as `.jpeg`, is left unchanged, so the segmented
  image overwrites its input (`ImageUtils.SegmentedPathUnchanged`).
- **Empty clouds.** The service's height field is never empty, since both sides
  of the resized grid are positive. The command-line script builds its cloud
  from a list of foreground points. With no foreground pixel that list gives a
  `(0,)` array, which Open3D's `Vector3dVector` rejects, so the script stops
  before writing the `.ply`.

## Model

| member | source | states |
|---|---|---|
| PyPath.Replace | backend/utils/image_utils.py:23 | `str.replace` for a non-empty pattern, scanning left to right; its contract is carried by `PyPath.ReplaceAbsent` and `PyPath.ReplaceConcat` |
| PyPath.ReplaceAbsent | backend/utils/image_utils.py:23 | `s.replace(pat, rep)` returns `s` unchanged when `pat` does not occur in `s` |
| PyPath.ReplaceConcat | backend/utils/image_utils.py:23 | Replacement in `a + b` is replacement in `a` followed by replacement in `b` when no occurrence straddles the seam (left-to-right, non-overlapping matching) |
| PyPath.Basename | backend/utils/image_utils.py:60 | `basename` has no '/' and is a suffix of the path; a path without '/' is its own basename |
| PyPath.BasenameAfterSlash | backend/models/processing.py:39 | The basename of `dir + "/" + name` is `name` when `name` has no '/' |
| PyPath.Splitext | backend/utils/image_utils.py:60 | `root + ext` is the path; `ext` is empty or is a '.' followed by text with no '.' and no '/' |
| PyPath.Stem | backend/utils/image_utils.py:60 | `splitext(basename(p))[0]` has no '/'; its value is pinned by `PyPath.StemSimple` |
| PyPath.SplitextSimple | backend/utils/image_utils.py:60 | `splitext(name + "." + ext)` is `(name, "." + ext)` for a plain name and extension without '.' or '/' |
| PyPath.StemSimple | backend/utils/image_utils.py:60 | The stem of `dir/name.ext` and of `name.ext` is `name` |
| PyPath.Join | backend/utils/image_utils.py:62 | An absolute second part replaces the first; a non-empty directory without a trailing '/' is joined to a relative name with exactly one '/' |
| Imaging.SwapRB | backend/utils/image_utils.py:11 | `cvtColor` BGR2RGB (and back, line 24) swaps the first and third channels; its effect is stated by `ImageUtils.MaskedRoundTrip` |
| Imaging.Flatten | backend/utils/image_utils.py:47-48 | Row-major `reshape(-1, 3)`; its contract is carried by `Imaging.FlattenAt` and `Imaging.FlattenLength` |
| Imaging.Resize | backend/utils/image_utils.py:39 | `cv2.resize(src, (w, h))` has shape `h x w`, and each cell is the interpolation's value for that cell |
| Imaging.FlattenAt | backend/utils/image_utils.py:47-48 | Row-major `reshape(-1, 3)` of an `h x w` grid has `h * w` entries, and cell `(r, c)` sits at index `r * w + c` |
| Imaging.FlattenLength | backend/utils/image_utils.py:47-48 | The flattened grid has `h * w` entries |
| Imaging.Normalize | backend/utils/image_utils.py:48 | `pixel / 255.0` puts every channel in [0, 1], and multiplying by 255 gives the byte back |
| Imaging.ImRead | backend/utils/image_utils.py:7-8 | `cv2.imread` is `None` exactly when the path does not hold an image, and otherwise returns that image's pixels |
| ImageUtils.CenterSeed | backend/utils/image_utils.py:15 | The seed is `(w // 2, h // 2)`: twice each coordinate is the side or one less |
| ImageUtils.CenterSeedInside | backend/utils/image_utils.py:15 | The seed is a pixel of any image with at least one row and one column |
| ImageUtils.MaskTo255 | backend/utils/image_utils.py:19 | `mask.astype(uint8) * 255` has the mask's shape and is non-zero exactly where the mask is true |
| ImageUtils.BitwiseAndSelf | backend/utils/image_utils.py:22 | `bitwise_and(img, img, mask=m)` keeps the pixel where `m` is non-zero and is black elsewhere, at the image's shape |
| ImageUtils.MaskedRoundTrip | backend/utils/image_utils.py:11-24 | Converting to RGB, masking and converting back for `imwrite` gives the loaded pixel where the mask is true and black elsewhere |
| ImageUtils.SegmentedPath | backend/utils/image_utils.py:23 | The chained replace; its contract is carried by `ImageUtils.SegmentedPathUnchanged`, `ImageUtils.SegmentedPathJpg` and `ImageUtils.SegmentedPathPng` |
| ImageUtils.SegmentedPathUnchanged | backend/utils/image_utils.py:23-24 | A path with neither ".jpg" nor ".png" (e.g. ".jpeg") is its own output path, so the input file is overwritten |
| ImageUtils.SegmentedPathJpg | backend/utils/image_utils.py:23 | `p + ".jpg"` becomes `p + "_segmented.jpg"` when `p` has no other ".jpg" or ".png" |
| ImageUtils.SegmentedPathPng | backend/utils/image_utils.py:23 | `p + ".png"` becomes `p + "_segmented.png"` when `p` has no other ".jpg" or ".png" |
| ImageUtils.RemoveBackground | backend/utils/image_utils.py:6-26 | `remove_background` on the file store; its contract is carried by `ImageUtils.RemoveBackgroundSpec` |
| ImageUtils.RemoveBackgroundSpec | backend/utils/image_utils.py:6-26 | Unreadable image: `ValueError("Image not found!")` and nothing written. A failed prediction, no mask or a mask of another size: an exception and nothing written. Otherwise only the segmented path is added or replaced; it holds the loaded image masked by the first mask and is returned |
| ImageUtils.FloorDiv | backend/utils/image_utils.py:37-38 | Python `//` rounds toward minus infinity (both signs of the divisor), and is non-negative for non-negative operands over a positive divisor |
| ImageUtils.GridSize | backend/utils/image_utils.py:36-38 | For a positive factor `f`, the new sizes are the largest `nw`, `nh` with `nw * f <= width` and `nh * f <= height` |
| ImageUtils.PointGrid | backend/utils/image_utils.py:43-45 | The meshgrid of points at the resized image's shape; the value at each index is stated by `ImageUtils.HeightFieldAt` |
| ImageUtils.ColorGrid | backend/utils/image_utils.py:48 | The colour grid at the resized image's shape; the value at each index is stated by `ImageUtils.HeightFieldAt` |
| ImageUtils.HeightField | backend/utils/image_utils.py:43-48 | The flattened points and colours; stated by `ImageUtils.HeightFieldSize`, `ImageUtils.HeightFieldAt` and `ImageUtils.HeightFieldBounds` |
| ImageUtils.HeightFieldSize | backend/utils/image_utils.py:47-48 | The point list and the colour list both have `new_h * new_w` entries |
| ImageUtils.HeightFieldAt | backend/utils/image_utils.py:43-48 | Index `i` of both lists is pixel `(i / w, i % w)`. The point is `(column, new_h - row, gray / 255)`. The colour is that same pixel over 255, in the channel order as loaded |
| ImageUtils.HeightFieldBounds | backend/utils/image_utils.py:43-48 | Every point has `0 <= x < new_w`, `1 <= y <= new_h` (y is never 0) and `0 <= z <= 1`; every colour channel is in [0, 1] |
| ImageUtils.PlyPath | backend/utils/image_utils.py:60-62 | `join("static/uploads", stem + "_3d.ply")`; its value is stated by `ImageUtils.ArtifactNames` |
| ImageUtils.GlbPath | backend/utils/image_utils.py:70-71 | `join("static/uploads", stem + "_3d.glb")`; its value is stated by `ImageUtils.ArtifactNames` |
| ImageUtils.JoinUpload | backend/utils/image_utils.py:62 | Joining "static/uploads" with a plain name gives "static/uploads/" + name, whose basename is the name |
| ImageUtils.ArtifactNames | backend/utils/image_utils.py:60-71 | The artifacts are "static/uploads/" + stem + "_3d.ply" and + "_3d.glb", their basenames are stem + suffix, and the two paths differ |
| ImageUtils.Downsample | backend/utils/image_utils.py:36-39 | Success only for a non-zero factor giving two positive sides, and the result then has shape `(h // f) x (w // f)` |
| ImageUtils.Generate3D | backend/utils/image_utils.py:30-74 | `generate_3d_from_image` on the file store; its contract is carried by `ImageUtils.Generate3DSpec` |
| ImageUtils.Generate3DSpec | backend/utils/image_utils.py:30-74 | Unreadable image: `ValueError("Image not found!")`. Zero factor: `ZeroDivisionError`. A side of 0 after the division: the resize error. None of these writes a file. Otherwise exactly the `.ply` (reduced height field) and the `.glb` (its points) are written, and "static/uploads/" + stem + "_3d.glb" is returned |
| ImageUtils.ReconstructedCloudSize | backend/utils/image_utils.py:36-53 | The cloud handed to voxel reduction has `(w // f) * (h // f)` points and as many colours |
| Processing.Wrap | backend/models/processing.py:50-51 | The re-raised exception is a plain `Exception` whose message is the prefix followed by exactly `str(e)` |
| Processing.WrapForgetsKind | backend/models/processing.py:50-51 | Two causes give the same wrapped exception exactly when their messages agree, whatever their classes |
| Processing.ProcessImage | backend/models/processing.py:22-51 | Background removal runs first; captioning and generation both get the segmented path. A failed stage stops the run. Every failure surfaces as one prefixed `Exception`. Success holds exactly when generation returns a non-empty path, giving `{description: first caption, segmented_image: basename(segmented), model_file: basename(glb)}` |
| Processing.ProcessImageMessage | backend/models/processing.py:32-51 | The message names the first failing stage's cause: the stage's own text, "list index out of range" for an empty caption list, or "3D model generation failed" for an empty path |
| Processing.Pipeline | backend/models/processing.py:25-35 | `process_image` with the stages of backend/utils/image_utils.py and the default factor; its contract is carried by `Processing.PipelineNaming` |
| Processing.PipelineNaming | backend/models/processing.py:22-51 | With the real stages, success holds exactly when each stage succeeds. Then `segmented_image` is the basename of the `_segmented` path, `model_file` is that file's stem + "_3d.glb", and both artifacts exist. A failure after segmentation cleans nothing up: the segmented image stays and the files are those segmentation left |
| PaligemmaCli.FixedSeedIsCentre | paligemma_keras_test.py:47-51 | The fixed seed `(256, 256)` is the exact centre of the 512 x 512 copy and lies inside it |
| PaligemmaCli.RemoveBackground | paligemma_keras_test.py:64-65 | The result has the input's shape; it equals the input where `mask == 1` and is zero in every channel elsewhere |
| PaligemmaCli.RowCells | paligemma_keras_test.py:135-137 | Every cell visited in a row is a foreground pixel of that row, left of the loop bound |
| PaligemmaCli.ForegroundCells | paligemma_keras_test.py:134-137 | Every cell the loops have visited is a pixel `(x, y)` of the image with `mask[y][x] == 1`, in a row already scanned |
| PaligemmaCli.PointsOf | paligemma_keras_test.py:137 | `points.append([x, y, 0])` per cell; stated by `PaligemmaCli.CloudPairing` |
| PaligemmaCli.ColorsOf | paligemma_keras_test.py:138 | `colors.append(image[y, x] / 255.0)` per cell; stated by `PaligemmaCli.CloudPairing` |
| PaligemmaCli.ScanRow | paligemma_keras_test.py:135-138 | The inner loop appends exactly the points and colours of the row's foreground pixels, left to right |
| PaligemmaCli.ForegroundCloud | paligemma_keras_test.py:134-141 | The loops produce the points `[x, y, 0]` and colours `image[y][x] / 255` of the foreground cells, in raster order |
| PaligemmaCli.ForegroundComplete | paligemma_keras_test.py:134-137 | Every pixel with `mask == 1` is emitted |
| PaligemmaCli.ForegroundOrdered | paligemma_keras_test.py:134-135 | Points come out in strict row-major order (y outer, x inner), so none is repeated |
| PaligemmaCli.ForegroundCount | paligemma_keras_test.py:134-141 | The number of points is the number of pixels with `mask == 1` |
| PaligemmaCli.CloudPairing | paligemma_keras_test.py:137-141 | `len(points) == len(colors)`. Point `k` is `[x, y, 0]` with y not inverted. Colour `k` is the pixel at that same `(x, y)` over 255 |
| PaligemmaCli.MaskedImagePath | paligemma_keras_test.py:68 | `splitext(path)[0] + "_background_removed.jpg"`; see `PaligemmaCli.OutputNamesDistinct` |
| PaligemmaCli.DescriptionPath | paligemma_keras_test.py:95 | `splitext(path)[0] + "_object_description.json"`; see `PaligemmaCli.OutputNamesDistinct` |
| PaligemmaCli.PointCloudPath | paligemma_keras_test.py:149 | `splitext(image_path)[0] + "_point_cloud.ply"`; see `PaligemmaCli.OutputNamesDistinct` |
| PaligemmaCli.OutputNamesDistinct | paligemma_keras_test.py:68-149 | The three output names differ from one another and from the input path |
| PaligemmaCli.PredictedMask | paligemma_keras_test.py:44-61 | The mask, predicted at the fixed seed on the 512 x 512 copy and resized back, has the image's shape |
| PaligemmaCli.SaveAndDescribe | paligemma_keras_test.py:55-103 | Once SAM has produced a mask, the masked image is saved. Each of its pixels is black or the input pixel with red and blue swapped. The captioning and reconstruction steps then follow, as the predicate `Saved` states through `Described`. The new store is the old one with exactly the files written on that path; an existing `.json` or `.ply` that is not rewritten keeps its contents |
| PaligemmaCli.DescribeAndReconstruct | paligemma_keras_test.py:73-103 | Through the predicate `Described`, the new store is given exactly. A captioning failure leaves the store as it was. Otherwise the store gains the JSON `{image_path, description}`. An empty foreground then crashes with the store otherwise unchanged, so an existing `.ply` keeps its contents. A non-empty foreground also writes a `.ply` holding the points and colours of the foreground cells |
| PaligemmaCli.ProcessImage | paligemma_keras_test.py:34-103 | Only the three output files can be added or replaced; every other file keeps its contents. An unreadable image returns with nothing written. A segmentation failure writes nothing. Otherwise the result image is saved, with red and blue swapped relative to the input because RGB data goes to `imwrite`. The rest is as `Saved` says: a captioning failure writes nothing more, so an existing `.json` and `.ply` keep their contents. Otherwise the JSON `{image_path, description}` is written. An empty foreground then crashes before the `.ply`, which keeps its old contents if it exists; otherwise the foreground cloud is written as well |
| PaligemmaCli.SavedUnique | paligemma_keras_test.py:55-103 | The files and the run after segmentation are determined by the input files and the models' answers: two runs that both satisfy `Saved` leave identical stores and identical results |
| PaligemmaCli.ProcessAll | paligemma_keras_test.py:159-160 | Paths are processed in order. The first crash ends the run, so only the last run can have crashed and every path runs when none crashes. An unreadable first image is reported as such. A file that is no output of any processed path keeps its contents |

## Left out

- OpenCV internals are parameters or are not modelled. This covers the resize interpolation, the grayscale weights, image decoding and encoding, and JPEG lossiness: a written image reads back exactly. The text of OpenCV's assertion messages is a stand-in.
- OpenCV rejects an image with no pixels, in `cvtColor` (backend/utils/image_utils.py:11, paligemma_keras_test.py:41) and in `cv2.resize`. The model's conversions and resize are total, so such an image passes through. `cv2.imread` returns `None` rather than an empty image, so a real run never reaches this case.
- `voxel_down_sample` is a parameter. Nothing is stated about its output, so the `.ply` and `.glb` contents are stated as "whatever the reduction returns".
- The 8-bit re-quantisation of colours for the `.glb` (backend/utils/image_utils.py:67) is floating-point truncation after library averaging. The scene file keeps only the points.
- PLY, GLB and JSON serialisation are not modelled: a written file is its in-memory value. Write failures are not modelled.
- `read_image` tensor preparation and the PaLI-Gemma prompt (paligemma_keras_test.py:72-84, 106-122) are not modelled. Captioning is a parameter from the RGB image to a description or an exception.
- The captioning in backend/models/processing.py (opening the segmented file, the processor, `generate`, `batch_decode`) is a stage parameter.
- Model loading at import time, `draw_geometries`, `print` and argparse are left out because they are I/O.
- PaligemmaCli.ProcessAll: relates the runs to the initial store only for the first path, because each later run sees the files the earlier ones wrote.
- PaligemmaCli.ProcessImage: the exception for an empty foreground is a stand-in (`Open3dError` with a made-up message), because the class and text Open3D raises are not modelled.
- Concurrent requests racing on `static/uploads` are left out: the code has no concurrency logic.
- backend/main.py, backend/routes/image_processing.py, dashboard.py and Keras_to_tflite.py are not part of this model: they are HTTP routing, UI and a conversion script.
