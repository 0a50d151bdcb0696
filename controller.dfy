/**
 * The `Segmentation` controller class of src/lib/segmentation.svelte.ts,
 * with the model and processor, the encoder and the decoder as opaque
 * collaborators: their results are parameters of the finish steps.
 */
module Controller {
  import opened Wrappers
  import opened Pixels
  import opened PromptPoint
  import Session
  import MaskOverlay
  import CutOut

  /** The loaded input image (`RawImage.fromURL`): RGB bytes, three per pixel. */
  datatype RawImage = RawImage(data: seq<byte>)

  /** Why `createCutOut` produces no image. */
  datatype CutOutError =
    | MissingInput   // no mask canvas or no image yet: logged, nothing returned (lines 156-159)
    | NoSelection    // no masked pixel: the sizes are not finite and setting them throws (lines 173-176, 207)
    | EmptyCutOut    // a zero-width or zero-height canvas cannot be encoded to a blob (line 215)

  class Segmentation {
    const samModelId: string
    var hasProcessor: bool
    var hasModel: bool
    var imageProcessed: bool
    var hasEmbeddings: bool
    var imageInput: Option<RawImage>
    var isDecoding: bool
    var isEncoding: bool
    var isMultiMaskMode: bool
    var decodePending: bool
    var lastPoints: seq<Point>
    /** The mask canvas and its 2D context: whether bound, its size and its RGBA pixels. */
    var hasCanvas: bool
    var canvasWidth: nat
    var canvasHeight: nat
    var canvas: array<byte>

    ghost predicate Valid()
      reads this
    {
      canvas.Length == 4 * (canvasWidth * canvasHeight)
    }

    /** The session part of the fields. */
    function State(): Session.State
      reads this
    {
      Session.State(hasProcessor, hasModel, imageProcessed, hasEmbeddings,
                    isEncoding, isDecoding, decodePending, isMultiMaskMode, lastPoints)
    }

    /** Lines 42-44. */
    constructor (samModelId: string)
      ensures Valid() && State() == Session.Initial()
      ensures this.samModelId == samModelId && imageInput == None && !hasCanvas
    {
      this.samModelId := samModelId;
      hasProcessor, hasModel, imageProcessed, hasEmbeddings := false, false, false, false;
      imageInput := None;
      isDecoding, isEncoding, isMultiMaskMode, decodePending := false, false, false, false;
      lastPoints := [];
      hasCanvas, canvasWidth, canvasHeight := false, 0, 0;
      canvas := new byte[0];
    }

    /** The view binds a cleared `width` x `height` canvas to `maskCanvas` (line 38). */
    method BindCanvas(width: nat, height: nat)
      modifies this`hasCanvas, this`canvasWidth, this`canvasHeight, this`canvas
      ensures Valid() && hasCanvas && canvasWidth == width && canvasHeight == height
      ensures fresh(canvas) && forall k :: 0 <= k < canvas.Length ==> canvas[k] == 0
    {
      hasCanvas, canvasWidth, canvasHeight := true, width, height;
      canvas := new byte[4 * (width * height)](_ => 0);
    }

    /** `setup_sam_model` (lines 51-58), once both loads have resolved. */
    method SetupSamModel()
      modifies this`hasProcessor, this`hasModel
      ensures State() == Session.SetupSamModel(old(State()))
    {
      hasProcessor := true;
      hasModel := true;
    }

    /** `encode` up to its first `await` (lines 60-62); `started` says whether it went on. */
    method EncodeStart() returns (started: bool)
      modifies this`isEncoding
      ensures State() == Session.EncodeStart(old(State()))
      ensures started <==> Session.CanEncode(old(State()))
    {
      if !hasProcessor || !hasModel || isEncoding {
        return false;
      }
      isEncoding := true;
      started := true;
    }

    /**
     * The rest of `encode` (lines 63-67) with the loaded image and whether
     * preprocessing produced a result; the embeddings themselves are opaque.
     */
    method EncodeFinish(image: RawImage, processed: bool)
      requires isEncoding
      modifies this`imageInput, this`imageProcessed, this`hasEmbeddings, this`isEncoding
      ensures State() == Session.EncodeFinish(old(State()), processed)
      ensures imageInput == Some(image)
    {
      imageInput := Some(image);
      imageProcessed := processed;
      if imageProcessed {
        hasEmbeddings := true;
      }
      isEncoding := false;
    }

    /** `decode` up to the inference call (lines 72-90); `request` is the point list it sends. */
    method DecodeStart() returns (request: Option<Session.Request>)
      modifies this`isDecoding, this`decodePending
      ensures Session.Step(State(), request) == Session.DecodeStart(old(State()))
    {
      if !hasProcessor || !hasModel || !imageProcessed || !hasEmbeddings || isEncoding {
        return None;
      }
      if isDecoding {
        decodePending := true;
        return None;
      }
      isDecoding := true;
      request := Some(lastPoints);
    }

    /**
     * `updateMaskOverlay` (lines 116-153): without a canvas nothing happens;
     * otherwise the canvas takes the mask's size and shows the overlay of the
     * best-scoring channel, repainted from a fresh buffer.
     */
    method UpdateMaskOverlay(mask: MaskOverlay.MaskImage, scores: seq<real>)
      requires Valid()
      modifies this`canvasWidth, this`canvasHeight, this`canvas, canvas
      ensures Valid()
      ensures !hasCanvas ==>
        canvas == old(canvas) && canvas[..] == old(canvas[..])
        && canvasWidth == old(canvasWidth) && canvasHeight == old(canvasHeight)
      ensures hasCanvas ==>
        canvasWidth == mask.width && canvasHeight == mask.height
        && canvas[..] == MaskOverlay.Overlay(mask.data, |scores|, MaskOverlay.FirstMaxIndex(scores),
                                             4 * (mask.width * mask.height))
    {
      if !hasCanvas {
        return;
      }
      if canvasWidth != mask.width || canvasHeight != mask.height {
        canvasWidth, canvasHeight := mask.width, mask.height;
        canvas := new byte[4 * (canvasWidth * canvasHeight)](_ => 0);
      }
      var bestIndex := MaskOverlay.BestIndex(scores);
      var pixelData := MaskOverlay.PaintOverlay(mask.data, |scores|, bestIndex, canvas.Length);
      // putImageData: the canvas takes every pixel of the buffer
      forall k | 0 <= k < canvas.Length {
        canvas[k] := pixelData[k];
      }
    }

    /**
     * `decode` after the inference result arrives (lines 105-113): it leaves
     * flight, composites the result and starts the pending refresh, if any.
     */
    method DecodeFinish(mask: MaskOverlay.MaskImage, scores: seq<real>) returns (request: Option<Session.Request>)
      requires Valid() && isDecoding
      modifies this`isDecoding, this`decodePending, this`canvasWidth, this`canvasHeight, this`canvas, canvas
      ensures Valid()
      ensures Session.Step(State(), request) == Session.DecodeFinish(old(State()))
      ensures !hasCanvas ==>
        canvas == old(canvas) && canvas[..] == old(canvas[..])
        && canvasWidth == old(canvasWidth) && canvasHeight == old(canvasHeight)
      ensures hasCanvas ==>
        canvasWidth == mask.width && canvasHeight == mask.height
        && canvas[..] == MaskOverlay.Overlay(mask.data, |scores|, MaskOverlay.FirstMaxIndex(scores),
                                             4 * (mask.width * mask.height))
    {
      isDecoding := false;
      UpdateMaskOverlay(mask, scores);
      if decodePending {
        decodePending := false;
        request := DecodeStart();
      } else {
        request := None;
      }
    }

    /** `handleContainerMouseMove` (lines 248-260), with `bb` the target's bounding rectangle. */
    method HandleContainerMouseMove(e: MouseEvent, bb: Rect) returns (request: Option<Session.Request>)
      modifies this`lastPoints, this`isDecoding, this`decodePending
      ensures Session.Step(State(), request) == Session.MouseMove(old(State()), GetPoint(e, bb))
    {
      if !hasEmbeddings || isMultiMaskMode {
        return None;
      }
      var p := GetPoint(e, bb);
      lastPoints := [p];
      request := DecodeStart();
    }

    /** `handleContainerMouseDown` (lines 262-293); the icon it adds is not modelled. */
    method HandleContainerMouseDown(e: MouseEvent, bb: Rect) returns (request: Option<Session.Request>)
      modifies this`lastPoints, this`isMultiMaskMode, this`isDecoding, this`decodePending
      ensures Session.Step(State(), request) == Session.MouseDown(old(State()), e.button, GetPoint(e, bb))
    {
      if e.button != 0 && e.button != 2 {
        return None;
      }
      if !hasEmbeddings || isEncoding {
        return None;
      }
      if !isMultiMaskMode {
        lastPoints := [];
        isMultiMaskMode := true;
      }
      var point := GetPoint(e, bb);
      lastPoints := lastPoints + [point];
      request := DecodeStart();
    }

    /** `reset_mask` (lines 46-49). */
    method ResetMask()
      modifies this`lastPoints, this`isMultiMaskMode
      ensures State() == Session.ClearPoints(old(State()))
    {
      lastPoints := [];
      isMultiMaskMode := false;
    }

    /** `clearPointsAndMask` (lines 218-229): no points, hover mode, and a transparent canvas. */
    method ClearPointsAndMask()
      requires Valid()
      modifies this`lastPoints, this`isMultiMaskMode, canvas
      ensures Valid()
      ensures State() == Session.ClearPoints(old(State()))
      ensures hasCanvas ==> forall k :: 0 <= k < canvas.Length ==> canvas[k] == 0
      ensures !hasCanvas ==> canvas[..] == old(canvas[..])
    {
      isMultiMaskMode := false;
      lastPoints := [];
      if hasCanvas {
        // clearRect over the whole canvas
        forall k | 0 <= k < canvas.Length {
          canvas[k] := 0;
        }
      }
    }

    /**
     * `createCutOut` (lines 155-216): colour the masked pixels from the input
     * image, shift the buffer to the bounding box's top-left corner, and
     * return the `maxX - minX` by `maxY - minY` region. The points and the
     * mask are cleared before the blob is encoded, so a selection one column
     * wide or one row high is lost and yields `EmptyCutOut`.
     */
    method CreateCutOut() returns (r: Result<CutOut.CutOutImage, CutOutError>, ghost box: Option<CutOut.Box>)
      requires Valid()
      modifies this`lastPoints, this`isMultiMaskMode, canvas
      ensures Valid()
      ensures r == Err(MissingInput) <==> !hasCanvas || imageInput.None?
      ensures r == Err(NoSelection) <==>
        hasCanvas && imageInput.Some?
        && forall i :: 0 <= i < canvasWidth * canvasHeight ==> !CutOut.Masked(old(canvas[..]), i)
      ensures r == Err(MissingInput) || r == Err(NoSelection) ==>
        State() == old(State()) && canvas[..] == old(canvas[..])
      ensures r.Ok? || r == Err(EmptyCutOut) ==>
        State() == Session.ClearPoints(old(State()))
        && (forall k :: 0 <= k < canvas.Length ==> canvas[k] == 0)
        && box.Some?
        && CutOut.IsBoundingBox(old(canvas[..]), canvasWidth, canvasWidth * canvasHeight, box.value)
        && box.value.maxX < canvasWidth && box.value.maxY < canvasHeight
        && (r == Err(EmptyCutOut) <==> CutOut.CutOutSize(box.value).0 == 0 || CutOut.CutOutSize(box.value).1 == 0)
        && (r.Ok? ==> r.value == CutOut.CutOutImage(
              CutOut.Shifted(CutOut.Scanned(old(canvas[..]), imageInput.value.data), CutOut.Offset(box.value, canvasWidth)),
              canvasWidth, CutOut.CutOutSize(box.value).0, CutOut.CutOutSize(box.value).1))
    {
      box := None;
      if !hasCanvas || imageInput.None? {
        return Err(MissingInput), box;
      }
      var w, h := canvasWidth, canvasHeight;
      // getImageData: a copy of the canvas pixels, used as the working buffer
      var pixels := canvas;
      var maskPixelData := new byte[pixels.Length](k requires 0 <= k < pixels.Length reads pixels => pixels[k]);
      assert maskPixelData[..] == canvas[..];
      var found := CutOut.ExtractCutOut(maskPixelData, imageInput.value.data, w, h);
      box := found;
      if found.None? {
        return Err(NoSelection), box;
      }
      var size := CutOut.CutOutSize(found.value);
      ClearPointsAndMask();
      if size.0 == 0 || size.1 == 0 {
        r := Err(EmptyCutOut);
      } else {
        r := Ok(CutOut.CutOutImage(maskPixelData[..], w, size.0, size.1));
      }
    }
  }

  /**
   * A selection of a single pixel, as written: `createCutOut` clears the
   * points and the mask canvas and then fails on the empty cut-out, so the
   * user's selection is gone and no image is produced.
   */
  method SinglePixelSelectionIsLost() returns (r: Result<CutOut.CutOutImage, CutOutError>, points: seq<Point>, multiMask: bool)
    ensures r == Err(EmptyCutOut) && points == [] && !multiMask
  {
    var s := new Segmentation("Xenova/slimsam-77-uniform");
    s.BindCanvas(10, 10);
    s.canvas[4 * 55 + 3] := 100;
    assert s.canvas[..] == CutOut.SinglePixelCanvas();
    s.imageInput := Some(RawImage(seq(300, _ => 0)));
    s.lastPoints := [Point(Finite(0.55), Finite(0.55), 1)];
    s.isMultiMaskMode := true;
    ghost var canvas := s.canvas[..];
    assert CutOut.Masked(canvas, 55);
    ghost var box;
    r, box := s.CreateCutOut();
    assert r != Err(NoSelection) by {
      assert 0 <= 55 < s.canvasWidth * s.canvasHeight && CutOut.Masked(canvas, 55);
    }
    if r.Err? {
      // MissingInput and NoSelection are excluded, so only EmptyCutOut is left
      assert r == Err(r.error) && r.error != MissingInput && r.error != NoSelection;
      assert r.error == EmptyCutOut;
    }
    CutOut.SinglePixelCutOutIsEmpty(box.value);
    points, multiMask := s.lastPoints, s.isMultiMaskMode;
  }
}
