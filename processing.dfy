/** backend/models/processing.py: `process_image` runs background removal,
    captioning of the segmented image and 3-D generation from the segmented
    path inside one try block, and re-raises every failure as one generic
    exception.  The stages are parameters threading the state of the world
    `W` (the upload directory, for the real stages), and the run records which
    stage was called with which path. */
module Processing {
  import opened Outcomes
  import opened PyPath
  import opened Imaging
  import ImageUtils

  const ErrorPrefix: string := "Erreur dans le traitement de l'image: "
  const GenerationFailedMsg: string := "3D model generation failed"

  /** A stage invocation and the path it was given. */
  datatype Call =
    | RemoveBackgroundCall(path: string)
    | CaptionCall(path: string)
    | Generate3DCall(path: string)

  /** The dictionary returned on success. */
  datatype Response = Response(description: string, segmentedImage: string, modelFile: string)

  /** The world after the run, the stages called in order, and the result. */
  datatype Run<W> = Run(world: W, calls: seq<Call>, outcome: Outcome<Response>)

  /** `raise Exception(f"Erreur dans le traitement de l'image: {str(e)}")`. */
  function Wrap(e: Exc): (r: Exc)
    ensures r.kind == Exception
    ensures |r.msg| == |ErrorPrefix| + |e.msg|
    ensures r.msg[..|ErrorPrefix|] == ErrorPrefix && r.msg[|ErrorPrefix|..] == e.msg
  {
    Exc(Exception, ErrorPrefix + Str(e))
  }

  /** The wrapped message keeps only the text of the cause: two causes with
      the same text and different classes cannot be told apart afterwards,
      and different texts stay different. */
  lemma WrapForgetsKind(e1: Exc, e2: Exc)
    ensures Wrap(e1) == Wrap(e2) <==> e1.msg == e2.msg
  {
    if Wrap(e1) == Wrap(e2) {
      assert e1.msg == Wrap(e1).msg[|ErrorPrefix|..];
    }
  }

  /** `process_image(image_path)` with the three stages as parameters:
      `segment` is `remove_background(path, predictor)`, `caption` opens the
      segmented image, runs PaLI-Gemma and returns `batch_decode(...)`, and
      `generate` is `generate_3d_from_image(path)`. */
  function ProcessImage<W>(w: W, path: string,
                           segment: (W, string) -> (W, Outcome<string>),
                           caption: (W, string) -> Outcome<seq<string>>,
                           generate: (W, string) -> (W, Outcome<string>)): (run: Run<W>)
    // stages run in order; captioning and generation both get the segmented path
    ensures 1 <= |run.calls| <= 3 && run.calls[0] == RemoveBackgroundCall(path)
    ensures |run.calls| >= 2 ==>
              segment(w, path).1.Ok? &&
              run.calls[1] == CaptionCall(segment(w, path).1.value)
    ensures |run.calls| == 3 ==>
              run.calls[2] == Generate3DCall(segment(w, path).1.value)
    // a failed stage stops the run
    ensures segment(w, path).1.Raised? ==>
              run.calls == [RemoveBackgroundCall(path)] &&
              run.world == segment(w, path).0 &&
              run.outcome == Raised(Wrap(segment(w, path).1.exc))
    ensures |run.calls| == 3 <==>
              segment(w, path).1.Ok? &&
              var d := caption(segment(w, path).0, segment(w, path).1.value);
              d.Ok? && |d.value| > 0
    // every failure reaches the caller as one generic Exception
    ensures run.outcome.Raised? ==>
              run.outcome.exc.kind == Exception &&
              |run.outcome.exc.msg| >= |ErrorPrefix| &&
              run.outcome.exc.msg[..|ErrorPrefix|] == ErrorPrefix
    // the result record
    ensures run.outcome.Ok? <==>
              |run.calls| == 3 &&
              var g := generate(segment(w, path).0, segment(w, path).1.value).1;
              g.Ok? && g.value != ""
    ensures run.outcome.Ok? ==>
              var (w1, seg) := segment(w, path);
              var (w2, glb) := generate(w1, seg.value);
              run.world == w2 &&
              run.outcome.value == Response(caption(w1, seg.value).value[0],
                                            Basename(seg.value), Basename(glb.value))
  {
    var (w1, seg) := segment(w, path);
    if seg.Raised? then
      Run(w1, [RemoveBackgroundCall(path)], Raised(Wrap(seg.exc)))
    else
      var s := seg.value;
      var decoded := caption(w1, s);
      if decoded.Raised? then
        Run(w1, [RemoveBackgroundCall(path), CaptionCall(s)], Raised(Wrap(decoded.exc)))
      else if |decoded.value| == 0 then
        Run(w1, [RemoveBackgroundCall(path), CaptionCall(s)], Raised(Wrap(Exc(IndexError, ListIndexMsg))))
      else
        var description := decoded.value[0];
        var (w2, glb) := generate(w1, s);
        var calls := [RemoveBackgroundCall(path), CaptionCall(s), Generate3DCall(s)];
        if glb.Raised? then
          Run(w2, calls, Raised(Wrap(glb.exc)))
        else if glb.value == "" then
          Run(w2, calls, Raised(Wrap(Exc(Exception, GenerationFailedMsg))))
        else
          Run(w2, calls, Ok(Response(description, Basename(s), Basename(glb.value))))
  }

  /** The message the caller sees names the cause of the first failing stage
      and nothing else: the stage's own exception text, list index out of
      range for an empty caption, or "3D model generation failed" for an
      empty `.glb` path. */
  lemma ProcessImageMessage<W>(w: W, path: string,
                               segment: (W, string) -> (W, Outcome<string>),
                               caption: (W, string) -> Outcome<seq<string>>,
                               generate: (W, string) -> (W, Outcome<string>))
    ensures var run := ProcessImage(w, path, segment, caption, generate);
      var (w1, seg) := segment(w, path);
      && (seg.Ok? && caption(w1, seg.value).Raised? ==>
            run.outcome == Raised(Wrap(caption(w1, seg.value).exc)))
      && (seg.Ok? && caption(w1, seg.value) == Ok([]) ==>
            run.outcome.exc.msg == ErrorPrefix + ListIndexMsg)
      && (|run.calls| == 3 && generate(w1, seg.value).1.Raised? ==>
            run.outcome == Raised(Wrap(generate(w1, seg.value).1.exc)))
      && (|run.calls| == 3 && generate(w1, seg.value).1 == Ok("") ==>
            run.outcome.exc.msg == ErrorPrefix + GenerationFailedMsg)
  {
  }

  /** The service's pipeline: the stages of backend/utils/image_utils.py over
      the upload directory, with the default downsample factor. */
  function Pipeline(fs: Store, path: string,
                    predict: ImageUtils.Predictor,
                    caption: (Store, string) -> Outcome<seq<string>>,
                    sample: (Image, int, int, int, int) -> Pixel,
                    luma: Pixel -> Byte,
                    voxel: (Cloud, real) -> Cloud): Run<Store>
  {
    ProcessImage(fs, path,
                 (w: Store, p: string) => ImageUtils.RemoveBackground(w, p, predict),
                 caption,
                 (w: Store, p: string) => ImageUtils.Generate3D(w, p, ImageUtils.DefaultFactor, sample, luma, voxel))
  }

  /** With the real stages, the `.glb` path is never empty, so the run fails
      only when a stage raises; on success the record names the segmented
      file by its basename and the model file by the segmented file's stem
      plus "_3d.glb", and both artifacts exist.  A failure after segmentation
      removes nothing. */
  lemma PipelineNaming(fs: Store, path: string,
                       predict: ImageUtils.Predictor,
                       caption: (Store, string) -> Outcome<seq<string>>,
                       sample: (Image, int, int, int, int) -> Pixel,
                       luma: Pixel -> Byte,
                       voxel: (Cloud, real) -> Cloud)
    ensures var run := Pipeline(fs, path, predict, caption, sample, luma, voxel);
      var (fs1, seg) := ImageUtils.RemoveBackground(fs, path, predict);
      && (run.outcome.Ok? <==>
            seg.Ok? && caption(fs1, seg.value).Ok? && |caption(fs1, seg.value).value| > 0 &&
            ImageUtils.Generate3D(fs1, seg.value, ImageUtils.DefaultFactor, sample, luma, voxel).1.Ok?)
      && (run.outcome.Ok? ==>
            var s := ImageUtils.SegmentedPath(path);
            && seg.value == s
            && run.calls == [RemoveBackgroundCall(path), CaptionCall(s), Generate3DCall(s)]
            && run.outcome.value.segmentedImage == Basename(s)
            && run.outcome.value.modelFile == Stem(s) + "_3d.glb"
            && ImageUtils.PlyPath(s) in run.world
            && ImageUtils.GlbPath(s) in run.world)
      // no clean-up: after a later failure the segmented image stays, and
      // the files are those segmentation left
      && (seg.Ok? && run.outcome.Raised? ==> run.world == fs1 && seg.value in run.world)
  {
    var run := Pipeline(fs, path, predict, caption, sample, luma, voxel);
    var (fs1, seg) := ImageUtils.RemoveBackground(fs, path, predict);
    ImageUtils.RemoveBackgroundSpec(fs, path, predict);
    if seg.Ok? {
      ImageUtils.Generate3DSpec(fs1, seg.value, ImageUtils.DefaultFactor, sample, luma, voxel);
      ImageUtils.ArtifactNames(seg.value);
    }
  }
}
