# Segmentation controller: a Dafny model

This project models the `Segmentation` class of `src/lib/segmentation.svelte.ts`.
The class is the browser-side controller of a segment-anything image cutter.
It loads a SAM processor and model, encodes one image into embeddings, and
decodes point prompts into masks. Decoding is single-flight: a request that
arrives while a decode is running only sets a pending flag, and one refresh
runs afterwards. The best of the returned masks is composited as a red
overlay on a mask canvas. Finally the masked region is cut out of the
source image as an opaque RGBA image, cropped to the mask's bounding box.

Modules, one per concern of the class:

- `Wrappers`: `Option` and `Result`.
- `Pixels`: the `byte` type of clamped pixel arrays.
- `PromptPoint`: `clamp` and `getPoint`. A JavaScript number is modelled
  with its infinities and NaN, because a zero-sized bounding box makes the
  division produce them.
- `MaskOverlay`: best-mask selection (`bestIndex` loop) and the pixel fill of
  `updateMaskOverlay`, specified by the pure functions `FirstMaxIndex` and
  `Overlay`.
- `CutOut`: the two loops of `createCutOut` on an `array<byte>`. The scan
  colours masked pixels and tracks the bounding box; the shift moves the
  buffer down by `minOffset`. Both are specified by the pure functions
  `Scanned` and `Shifted`, with the pixel-level theorems.
- `Session`: the controller's flags and point list as a pure state machine.
  Each `await` in `encode` and `decode` is a step boundary. The lemmas state
  the coalescing guarantee of `decode`.
- `Controller`: `class Segmentation` with the source's fields. Each method
  ties its new `State()` to the `Session` step function, and the canvas to
  `Overlay` or `Shifted(Scanned(..))`.

## Model

| member | source | states |
|---|---|---|
| PromptPoint.Clamp | src/lib/segmentation.svelte.ts:303-306 | NaN stays NaN and only NaN does; any other value, infinities included, lands in [lo, hi]; values inside are unchanged; values above (below) saturate to hi (lo) |
| PromptPoint.GetPoint | src/lib/segmentation.svelte.ts:231-246 | label is 0 exactly for the right button and 1 otherwise; for a non-empty box each coordinate is finite in [0, 1] and equals the exact ratio when the click is inside; for a zero-width box the coordinate is NaN exactly when the click is on the edge |
| MaskOverlay.FirstMaxIndex | src/lib/segmentation.svelte.ts:131-137 | the selected index is the first index of a greatest score (0 for no scores): no score exceeds it and every earlier score is strictly smaller |
| MaskOverlay.BestIndex | src/lib/segmentation.svelte.ts:130-137 | the selection loop ends on `FirstMaxIndex(scores)`, hence on the first maximal score |
| MaskOverlay.OverlayPixel | src/lib/segmentation.svelte.ts:139-149 | pixel i of the composited buffer is (100, 0, 0, 100) when its bit in the chosen mask channel is 1 and (0, 0, 0, 0) otherwise |
| MaskOverlay.PaintOverlay | src/lib/segmentation.svelte.ts:124-149 | the freshly allocated buffer, after the fill loop over every byte index with out-of-range writes ignored, equals `Overlay` |
| CutOut.Extend | src/lib/segmentation.svelte.ts:184-187 | the updated box contains the new pixel's column and row and the old box; each edge is either the old edge or the new coordinate, and the first masked pixel gives the one-pixel box |
| CutOut.BoxUpToIsBoundingBox | src/lib/segmentation.svelte.ts:173-187 | after the first n pixels the running minima and maxima are None (still infinite) exactly when none of them is masked, and otherwise the exact bounding box of the masked ones |
| CutOut.ScanPixel | src/lib/segmentation.svelte.ts:178-196 | one iteration on pixel i: the box is extended by column i % w and row i / w, and the pixel made opaque from the source, exactly when its alpha is non-zero; otherwise neither changes |
| CutOut.MakeOpaque | src/lib/segmentation.svelte.ts:189-195 | pixel i takes the three source RGB bytes and alpha 255; no other byte changes |
| CutOut.ScanMask | src/lib/segmentation.svelte.ts:173-197 | the buffer becomes `Scanned` of the old buffer; the result is None exactly when no pixel has non-zero alpha, and otherwise the exact bounding box (encloses every masked pixel, each edge reached by one) |
| CutOut.ShiftDown | src/lib/segmentation.svelte.ts:199-206 | the ascending in-place copy moves the buffer down by d bytes without reading an overwritten byte: byte k becomes old byte k + d, the top d bytes stay |
| CutOut.Offset | src/lib/segmentation.svelte.ts:202 | `minOffset` is a multiple of 4 whose pixel, in a w-wide image, is the box's top-left corner: column minX and row minY |
| CutOut.CutOutSize | src/lib/segmentation.svelte.ts:207-208 | the as-written size is zero wide exactly when minX == maxX and zero high exactly when minY == maxY, each side one less than the inclusive size |
| CutOut.ExtractCutOut | src/lib/segmentation.svelte.ts:173-206 | None exactly when nothing is masked; otherwise the bounding box lies inside the image and the buffer is the scanned buffer shifted to the box's top-left corner |
| CutOut.BoundingBoxInImage | src/lib/segmentation.svelte.ts:177-187 | the tracked minima and maxima satisfy min <= max and lie inside the w × h image |
| CutOut.CutOutPixel | src/lib/segmentation.svelte.ts:177-210 | pixel (x, y) of the cut-out, read with the canvas stride, is image pixel (minX + x, minY + y): the source RGB with alpha 255 where masked, the canvas bytes elsewhere, over the whole inclusive box |
| CutOut.CropPixel | src/lib/segmentation.svelte.ts:199-206 | for any box corner inside the image, the shifted buffer read at (x, y) is the scanned pixel at the corner plus (x, y) |
| CutOut.OverlayMaskedExactly | src/lib/segmentation.svelte.ts:139-149 | on a composited overlay a pixel passes the cut-out's alpha test exactly when its mask bit is 1, and every channel of the other pixels is 0 |
| CutOut.CutOutOfOverlay | src/lib/segmentation.svelte.ts:139-206 | cutting out a composited overlay gives the opaque source pixel wherever the chosen mask bit is 1 and transparent black elsewhere |
| CutOut.ExclusiveSizeDropsMaxColumn | src/lib/segmentation.svelte.ts:207-208 | with the as-written size, the masked pixels on the maximum column and on the maximum row fall outside the cut-out |
| CutOut.SinglePixelCutOutIsEmpty | src/lib/segmentation.svelte.ts:207-208 | a single masked pixel at (5, 5) of a 10 × 10 canvas has bounding box (5, 5, 5, 5) and an as-written cut-out of 0 × 0, where the inclusive size is 1 × 1 |
| CutOut.SinglePixelBoundingBox | src/lib/segmentation.svelte.ts:173-187 | on the 10 × 10 canvas whose only masked pixel is (5, 5), the scan's minima and maxima are all 5: (5, 5, 5, 5) is its exact bounding box |
| CutOut.InclusiveSizeCoversMask | src/lib/segmentation.svelte.ts:207-208 | with the inclusive size the cut-out is at least 1 × 1 and every masked pixel lands inside it |
| Session.Initial | src/lib/segmentation.svelte.ts:27-44 | a new controller is idle: not encoding, not decoding, no embeddings, no points, and the invariant holds |
| Session.SetupSamModel | src/lib/segmentation.svelte.ts:51-58 | processor and model become present, nothing else changes, and encoding becomes possible unless one is running |
| Session.EncodeStart | src/lib/segmentation.svelte.ts:60-62 | without processor or model, or while encoding, nothing changes; otherwise only `isEncoding` becomes true |
| Session.EncodeFinish | src/lib/segmentation.svelte.ts:63-67 | encoding ends; `imageProcessed` records the preprocessing result; embeddings are present if they were or if preprocessing succeeded; nothing else changes; the invariant is kept |
| Session.DecodeStart | src/lib/segmentation.svelte.ts:70-90 | an inference call is made exactly when the guard holds and no decode is in flight, with the current points; while one is in flight only the pending flag is set; with the guard false nothing changes |
| Session.DecodeFinish | src/lib/segmentation.svelte.ts:105-113 | the decode leaves flight and the pending flag is cleared; exactly one new call is made, with the current points, when a refresh was pending and the guard still holds |
| Session.MouseMove | src/lib/segmentation.svelte.ts:248-260 | ignored without embeddings or in multi-mask mode; otherwise the hover point replaces the point list and `decode` is called |
| Session.MouseDown | src/lib/segmentation.svelte.ts:262-293 | ignored unless button 0 or 2 with embeddings and no encode running; the first accepted click empties the list and enters multi-mask mode; every accepted click appends its point, keeping the earlier ones, and calls `decode` |
| Session.ClearPoints | src/lib/segmentation.svelte.ts:46-49 | the point list is empty and multi-mask mode is off; every other field, the decode flags included, is unchanged |
| Session.Run | src/lib/segmentation.svelte.ts:46-113 | any sequence of user events keeps the invariant (pending only while in flight, at most one point outside multi-mask mode) and leaves the encoder state alone |
| Session.InFlightCoalesces | src/lib/segmentation.svelte.ts:72-77 | while a decode is in flight, no event starts an inference call, the decode stays in flight, and a refresh is pending exactly when one was before or some event called `decode` |
| Session.CoalescedRerun | src/lib/segmentation.svelte.ts:70-113 | after a decode starts from idle, the events before it finishes make no inference call; when it finishes, exactly one more call is made if any of them called `decode`, none otherwise, and it uses the points current at that moment |
| Controller.Segmentation.constructor | src/lib/segmentation.svelte.ts:42-44 | the model id is stored and the session is in `Session.Initial` with no image and no canvas |
| Controller.Segmentation.BindCanvas | src/lib/segmentation.svelte.ts:38-39 | a cleared canvas of the given size is bound |
| Controller.Segmentation.SetupSamModel | src/lib/segmentation.svelte.ts:51-58 | the new state is `Session.SetupSamModel` of the old one |
| Controller.Segmentation.EncodeStart | src/lib/segmentation.svelte.ts:60-62 | the new state is `Session.EncodeStart` of the old one; `started` is true exactly when the guard passed |
| Controller.Segmentation.EncodeFinish | src/lib/segmentation.svelte.ts:63-67 | the image is stored and the new state is `Session.EncodeFinish` of the old one |
| Controller.Segmentation.DecodeStart | src/lib/segmentation.svelte.ts:70-90 | the new state and the request sent are `Session.DecodeStart` of the old state |
| Controller.Segmentation.UpdateMaskOverlay | src/lib/segmentation.svelte.ts:116-153 | without a canvas nothing changes; otherwise the canvas takes the mask's size and its pixels become `Overlay` of the mask's best channel, the one `FirstMaxIndex` selects |
| Controller.Segmentation.DecodeFinish | src/lib/segmentation.svelte.ts:105-113 | the new state and the refresh request are `Session.DecodeFinish` of the old state, and the canvas shows the new overlay |
| Controller.Segmentation.HandleContainerMouseMove | src/lib/segmentation.svelte.ts:248-260 | the new state and request are `Session.MouseMove` of the old state and `GetPoint` of the event |
| Controller.Segmentation.HandleContainerMouseDown | src/lib/segmentation.svelte.ts:262-293 | the new state and request are `Session.MouseDown` of the old state, the button and `GetPoint` of the event |
| Controller.Segmentation.ResetMask | src/lib/segmentation.svelte.ts:46-49 | the new state is `Session.ClearPoints` of the old one |
| Controller.Segmentation.ClearPointsAndMask | src/lib/segmentation.svelte.ts:218-229 | the new state is `Session.ClearPoints` of the old one and every canvas byte is 0 |
| Controller.Segmentation.CreateCutOut | src/lib/segmentation.svelte.ts:155-216 | MissingInput exactly without canvas or image, NoSelection exactly when no pixel is masked, both with nothing changed; otherwise points and canvas are cleared, and the result is EmptyCutOut exactly when the as-written `maxX - minX` by `maxY - minY` size has a zero side, and else the scanned, shifted buffer with stride w and that size, for the exact bounding box |
| Controller.SinglePixelSelectionIsLost | src/lib/segmentation.svelte.ts:207-215 | cutting out a selection of one pixel clears the points and leaves multi-mask mode, and then fails with EmptyCutOut: the selection is lost and no image is produced |

## Left out

- Model and processor loading, preprocessing, the image encoder and the mask decoder are opaque. Their results arrive as parameters of `EncodeFinish` and `DecodeFinish`: the mask and its scores. Converting points to tensors (lines 80-88) and post-processing masks (lines 98-102) are not modelled.
- `encode` is two steps, before its first `await` and after its last. A `decode` called in between is a no-op, because `isEncoding` fails the guard of line 72, and the model has the same outcome. Not modelled: a `createCutOut` during an encode reads the new `imageInput`, stored at line 63, against the overlay of the old image.
- Rejected promises are not modelled. A rejection at lines 63-66 leaves `isEncoding` true for good, which blocks every later encode, inference call and mouse-down. A rejection at lines 91-102 leaves `isDecoding` true for good, so every later `decode` only sets the pending flag. The model captures both only in that the finish step is never taken. The fields already written when a later `await` rejects (`imageInput` without `imageProcessed`, say) are not modelled.
- Asynchrony is modelled only at the `await` boundaries. `Session.Run` interleaves user events with a decode in flight; a mask result is not tied to the image it was computed for.
- Scores are reals, so a NaN score is not modelled.
- `getPoint` never returns null, so the `if (p)` and `if (!point)` guards always pass and are not modelled separately.
- The DOM side is not modelled: the `currentTarget` lookup, the star and cross icon spans, `querySelectorAll(".segment-icon")`, and the `console` output.
- At the canvas level, `maskContext` is modelled as present exactly when `maskCanvas` is bound (`hasCanvas`). `putImageData` and `clearRect` are modelled as whole-canvas writes; blob encoding and `URL.createObjectURL` are not modelled. The cut-out result is the buffer with its row stride, width and height.
- Svelte reactivity (`$state`, `$derived`) and the exported singleton `segmentation` (line 296) are not modelled.
- `src/lib/segmentation.ts` is not part of this model.
- `convertToBlob` rejecting an empty canvas (line 215) is modelled as `Err(EmptyCutOut)`, returned after the points and the mask are already cleared.
- Controller.Segmentation.constructor: takes the model id as an argument, so the default `'Xenova/slimsam-77-uniform'` of line 42 is not modelled. Callers pass it.
- `createImageData` (line 125) and `getImageData` (line 163) throw an `IndexSizeError` when a side is 0. The model treats both as ordinary empty buffers, so with a mask or canvas of zero size it paints an empty overlay or reports `NoSelection` instead of throwing.

Behaviour of the code a reader may not expect:

- `updateMaskOverlay` paints a freshly allocated buffer, so each result replaces the previous overlay rather than adding to it.
- The ascending shift loop is safe: every write lands `minOffset` bytes below the byte just read, so nothing is read after being overwritten (`CutOut.ShiftDown`).
- `reset_mask` and `clearPointsAndMask` leave `isDecoding` and `decodePending` alone.
- With no masked pixel, the bounds stay infinite and setting the canvas width throws before anything is cleared. This is modelled as `Err(NoSelection)` with the state unchanged.

## Findings

| source | as written | input that shows it | evidently intended | confidence | as-written member | corrected member |
|---|---|---|---|---|---|---|
| src/lib/segmentation.svelte.ts:207-208 | the cut-out is `maxX - minX` by `maxY - minY`, so the last masked column and row are dropped | a 10 × 10 mask canvas whose only masked pixel is (5, 5): bounding box (5, 5, 5, 5), as-written size 0 × 0, and `convertToBlob` rejects the empty canvas | `maxX - minX + 1` by `maxY - minY + 1`, which covers every masked pixel and is never empty | not executed | CutOut.SinglePixelCutOutIsEmpty | CutOut.InclusiveSizeCoversMask |

The controller follows the code as written, so `Controller.Segmentation.CreateCutOut` uses `CutOut.CutOutSize`. `Controller.SinglePixelSelectionIsLost` plays the finding through `createCutOut`. The corrected `CutOut.InclusiveCutOutSize` is the intended size, and `CutOut.InclusiveSizeCoversMask` and `CutOut.CutOutPixel` state it over the same scanned, shifted buffer.
