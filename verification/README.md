# Face-swap pipeline: a Dafny model

This project models the core of a browser face-swap application built on OpenCV.js. The model has two parts.

- **The per-frame controller** (`js/app-canvas.js`). This part is the module-level state: the streaming flag, the video-initialised flag, the source and output frame buffers, the list of detected faces, the time of the last detection and the canvas sizes. It also covers the operations on that state: buffer (re)allocation (`initializeVideoProcessing`), `startFaceSwap` / `stopFaceSwap`, and one `processVideo` tick.
- **The compositing functions** (`js/face-swap.js`):
  - cutting the reference face out of the uploaded image with a feathered elliptical mask (`extractFaceFromUploadedImage`);
  - resizing face and mask to a detected face (`alignFace`);
  - blending them into a copy of the frame (`blendFaces`);
  - the swap that chains these behind a one-time cache of the reference face (`swapFaces`).

Files:

- `imaging.dfy` (module `Imaging`) holds the shared types.
  - Pixels are RGBA bytes. Rectangles are OpenCV `Rect`s. Images are row-major grids.
  - Frame buffers are `array2<Pixel>`, read back as grids with `ToGrid`.
  - It also has the blur used for feathering and smoothing, `Option`/`Result`, and the fault kinds that stand in for OpenCV exceptions.
- `face_swap.dfy` (module `FaceSwap`) is the compositing code.
  - `ExtractFace` and `AlignFace` are functions.
  - `BlendFaces` is a method. It clones the frame buffer and overwrites the rectangle in place. It is proved against the function `Blend`.
  - `FaceSwapper` is a class whose field `cache` is the module-level `sourceFace`/`sourceMask` pair. Its method `SwapFaces` is proved against the function `Swap`, and the properties of the swap are lemmas about `Swap`.
- `app_canvas.dfy` (module `AppCanvas`) is the controller.
  - Class `FaceSwapApp` holds the module-level variables and carries one method per entry point.
  - `Tick` is `processVideo`. The clock, the video element's size, the captured canvas image, the settings panel and the detector's answers are its parameters.
  - A capture or detector exception is an absent (`None`) parameter.
  - Each `setTimeout` reinitialisation is a due time in `pendingReinit`. The host runs it with `FireReinit`.
  - The `requestAnimationFrame` reschedule is the `rescheduled` result.

Where the model follows the code rather than the application's description:

- Detection runs only when strictly more than 100 ms have passed (`>`), not 100 ms or more.
- Face rectangles are not clamped to the image. A rectangle reaching outside its image makes the region-of-interest constructor throw. A zero-area rectangle gives an empty matrix, which a later step (blur, colour conversion or resize) rejects. The model gives the error path for both: `Err` in `ExtractFace`, and the unchanged frame in `Swap`.
- The reference-face cache is never cleared, not even when a new image is uploaded. `UploadFace` leaves it as it is.
- The blending-strength setting is read but never used.
- The blended alpha channel is the face's alpha. The gray-to-RGBA conversion of the mask sets the alpha weight to 255, so the alpha channel is not mixed.

Two steps of the code, read against the OpenCV.js bindings, reject their arguments; see "## Findings". The model's `ExtractFace`, `Blend` and `Swap` are the evidently intended behaviour. `ExtractFaceAsWritten`, `BlendAsWritten` and `SwapAsWritten` model the code as written.

## Model

| member | source | states |
|---|---|---|
| `FaceSwap.EllipseMask` | js/face-swap.js:26-30 | the unfeathered mask has the face's rows × cols; a pixel is 255 exactly when it lies in the ellipse centred on (cols/2, rows/2) with semi-axes 0.4·cols and 0.45·rows (a semi-axis of 0 making the ellipse a line or a point), and 0 exactly when it lies outside |
| `FaceSwap.EllipseCoversCentre` | js/face-swap.js:27-30 | the centre pixel of every non-empty mask is 255 |
| `FaceSwap.EllipseWithinAxes` | js/face-swap.js:27-30 | on masks of every size, every 255 pixel lies within 0.4·cols horizontally and 0.45·rows vertically of the centre; below 3 × 3 this is the bounding box in the ellipse test itself, from 3 × 3 on it follows from the equation (`EllipseAxes`) |
| `FaceSwap.EllipseAxes` | js/face-swap.js:27-30 | a point satisfying the multiplied-out ellipse equation with positive semi-axes lies within the semi-axes of the centre |
| `FaceSwap.EllipseEquationSuffices` | js/face-swap.js:27-30 | from 3 × 3 on, membership is decided by the ellipse equation alone |
| `FaceSwap.Feather` | js/face-swap.js:33-34 | feathering keeps the mask's size |
| `FaceSwap.FeatherKeepsCoreAndOutside` | js/face-swap.js:30-34 | after feathering, a pixel whose whole 15×15 window is inside the ellipse stays 255, and one whose window is wholly outside stays 0 |
| `FaceSwap.ExtractFace` | js/face-swap.js:11-44 | succeeds exactly when the rectangle is a non-empty region of the image (otherwise the region-of-interest constructor throws or, for zero area, a later step on the empty matrix does); the face is the pixel-for-pixel crop of the rectangle; face and mask both have the rectangle's height × width; the mask is the feathered ellipse mask |
| `FaceSwap.AlignFace` | js/face-swap.js:47-76 | succeeds exactly when the target has area and face and mask are non-empty; the face and the mask both come out at the target rectangle's height × width |
| `FaceSwap.AlignToOwnSize` | js/face-swap.js:53-70 | resizing a face and mask to the size they already have returns them unchanged |
| `FaceSwap.Mix` | js/face-swap.js:104-125 | one channel of face·m + frame·(1−m) with m = mask/255, rounded to the nearest integer (255·v is within 127 of face·m + frame·(255−m)); mask 255 gives the face value, mask 0 the frame value, and the result always lies between the two |
| `FaceSwap.Blend` | js/face-swap.js:81-128 | the blended frame has the frame's dimensions |
| `FaceSwap.BlendKeepsOutside` | js/face-swap.js:81-128 | every pixel outside the target rectangle equals the input frame's pixel |
| `FaceSwap.BlendInside` | js/face-swap.js:101-128 | inside the rectangle, mask 255 gives the face pixel; mask 0 gives the frame's colour with the face's alpha; every colour channel lies between face and frame; alpha is the face's |
| `FaceSwap.BlendFaces` | js/face-swap.js:79-141 | returns a fresh buffer (the input frame is not modified) with the target's dimensions whose contents are `Blend` of the input frame; it fails exactly when the rectangle is not a non-empty region of the frame or face/mask do not have its size |
| `FaceSwap.Swap` | js/face-swap.js:144-201 | the swapped frame always has the input frame's dimensions |
| `FaceSwap.SwapWithoutTargets` | js/face-swap.js:147-149 | with no target faces the frame comes back unchanged and the cache is untouched |
| `FaceSwap.SwapTouchesOnlyFirstTarget` | js/face-swap.js:183-189 | no pixel outside the first target rectangle changes, whatever the outcome |
| `FaceSwap.SwapUsesFirstTargetOnly` | js/face-swap.js:182-189 | target rectangles after the first make no difference |
| `FaceSwap.SwapReusesCache` | js/face-swap.js:152-180 | once the cache is set it stays set, and the reference image and its detected faces no longer matter |
| `FaceSwap.SwapFillsCacheOnce` | js/face-swap.js:152-180 | with an empty cache: no reference face, or a reference rectangle that cannot be cut out, returns the frame and leaves the cache empty; otherwise the first reference face is extracted and cached |
| `FaceSwap.SwapWithBadTarget` | js/face-swap.js:183-200 | a first target rectangle outside the frame or without area yields the unchanged frame |
| `FaceSwap.SwapBlendsCachedFace` | js/face-swap.js:183-189 | with a cached face and a valid first target, the result is the blend of the cached face and mask resized to that target |
| `FaceSwap.SwapAsWritten` | js/face-swap.js:144-201 | `swapFaces` with extraction and blend as written: the frame keeps its dimensions and a filled cache is kept |
| `FaceSwap.ExtractFaceAsWritten` | js/face-swap.js:26-30 | as written, every extraction fails: outside the image at the crop, otherwise at the ellipse call that is given a point for its axes |
| `FaceSwap.BlendAsWritten` | js/face-swap.js:111 | as written, every blend fails: outside the frame at the region of interest, otherwise at the subtraction that is given a scalar for a matrix |
| `FaceSwap.SwapAsWrittenNeverSwaps` | js/face-swap.js:144-201 | as written, the swap never changes the frame, and from an empty cache it leaves the cache empty |
| `FaceSwap.ExtractionDiscrepancy` | js/face-swap.js:152-180 | for any reference rectangle inside the reference image, the intended swap caches a face and the swap as written does not |
| `FaceSwap.BlendDiscrepancy` | js/face-swap.js:101-128 | with a cached opaque white 1 × 1 face over a black 1 × 1 frame, the intended swap paints the pixel white and the swap as written returns the black frame |
| `FaceSwap.FaceSwapper.constructor` | js/face-swap.js:5-6 | the reference-face cache (`sourceFace`/`sourceMask`) starts empty |
| `FaceSwap.FaceSwapper.SwapFaces` | js/face-swap.js:144-201 | returns a fresh buffer of the target's size whose contents, and the new cache, are exactly those of `Swap` on the old cache; every failure path returns a copy of the target |
| `AppCanvas.EffectiveSettings` | js/app-canvas.js:539-548 | the settings panel's values when there is a panel; otherwise blending strength 80, smoothing 50 and outlines on |
| `AppCanvas.DetectionTimes` | js/app-canvas.js:505-533 | the times of the detector runs that return over a run of ticks: at most one per tick |
| `AppCanvas.DetectorCalls` | js/app-canvas.js:505-533 | the times of all detector calls, returning or throwing, over a run of ticks: at most one per tick, and at least as many as the returning runs |
| `AppCanvas.DetectionAppend` | js/app-canvas.js:505-533 | one more tick adds a detector call exactly when the throttle is open at the last detection time so far, and a returning run exactly when, besides, the detector returns; only then does the last detection time move |
| `AppCanvas.DetectionsSpaced` | js/app-canvas.js:505-537 | over any sequence of ticks, each with a returning or throwing detector, every detector run that returns is more than 100 ms after the previous detection time and after every earlier returning run |
| `AppCanvas.DetectionsAtTicks` | js/app-canvas.js:505-533 | detection happens only at tick times |
| `AppCanvas.ThrowingDetectorRetried` | js/app-canvas.js:508-533 | a throwing call does not move the last detection time, so a detector that keeps throwing is called on every tick once the throttle is open, and no run returns |
| `AppCanvas.SpacedSpan` | js/app-canvas.js:17 | n detections that are pairwise more than 100 ms apart span at least (n−1)·101 ms |
| `AppCanvas.DetectionCountBound` | js/app-canvas.js:17 | over ascending ticks spanning T ms, the detector returns at most T/101 + 1 times |
| `AppCanvas.OneDetectionPerWindow` | js/app-canvas.js:508 | no window of 100 ms holds two returning detector runs, whatever the tick spacing |
| `AppCanvas.KernelSize` | js/app-canvas.js:562 | the smoothing kernel size is odd and at least 3, at most 21 for settings up to 100, and 3 below 20 |
| `AppCanvas.BlurKernel` | js/app-canvas.js:560-572 | a positive smoothing setting gives an odd kernel of at least 3; a setting of 0 or less gives no blur |
| `AppCanvas.FaceSwapApp.constructor` | js/app-canvas.js:5-18 | the initial module state: not streaming, not initialised, no buffers, no faces, last detection at 0, canvases 640 × 480, empty cache |
| `AppCanvas.FaceSwapApp.LoadCascade` | js/app-canvas.js:59 | the classifier becomes present; nothing else changes |
| `AppCanvas.FaceSwapApp.UploadFace` | js/app-canvas.js:337 | the uploaded image is replaced; nothing else changes, the reference-face cache included |
| `AppCanvas.FaceSwapApp.InitializeVideoProcessing` | js/app-canvas.js:180-207 | fresh source and output buffers of videoHeight × videoWidth, both canvases sized to the video, video marked initialised, face list emptied |
| `AppCanvas.FaceSwapApp.StartFaceSwap` | js/app-canvas.js:391-423 | streaming starts exactly when both the classifier and an uploaded image are present; otherwise nothing changes |
| `AppCanvas.FaceSwapApp.StopFaceSwap` | js/app-canvas.js:426-428 | streaming is cleared and nothing else changes |
| `AppCanvas.FaceSwapApp.FireReinit` | js/app-canvas.js:674-677 | the oldest scheduled reinitialisation runs exactly when it is due and then reallocates both buffers, fresh, to the video size; when nothing is due the buffers, the face list and the canvas sizes stay as they were |
| `AppCanvas.FaceSwapApp.Tick` | js/app-canvas.js:445-684 | see the list below the table |
| `AppCanvas.FaceSwapApp.RunLoop` | js/app-canvas.js:445-684 | over `Tick`s that all reach the detection step, the detector calls are exactly `DetectorCalls`, the returning runs exactly `DetectionTimes`, the last detection time is `LastDetection`, and each throwing call schedules one reinitialisation |
| `AppCanvas.FaceSwapApp.Capture` | js/app-canvas.js:471-502 | the source buffer holds the captured image and the output buffer is a copy of it |
| `AppCanvas.FaceSwapApp.Detect` | js/app-canvas.js:505-537 | detection runs iff `now − lastDetectionTime > 100`; if it runs the face list is replaced and the time becomes `now`; if the detector throws the list is left empty, the time kept and a reinitialisation scheduled; otherwise the old list is reused |
| `AppCanvas.FaceSwapApp.Render` | js/app-canvas.js:539-637 | the swap path runs iff an image was uploaded and at least one face is known; it outputs the `Swap` result, blurred with `KernelSize` when smoothing is positive, and updates the cache as `Swap` says; otherwise the output buffer is the captured frame, with the faces outlined only when outlines are on |

What the `Tick` contract states:

- Not streaming: the tick does nothing and does not reschedule.
- Not initialised, no buffers, or a zero video dimension: it only reschedules and touches no buffer and no canvas size.
- The buffers are reallocated, to fresh arrays of the video's size, if and only if their size differs from the video's.
- Each buffer is either the old array or a new one. Off the swap path the output buffer is the old array exactly when no reallocation happened. After a capture failure without reallocation neither buffer's contents change.
- A capture or detector exception schedules a reinitialisation 1000 ms later, and the loop still reschedules.
- It reschedules exactly when streaming is on.
- Detection runs, and the last detection time becomes `now`, only when more than 100 ms have passed.
- Otherwise the face list is reused. It is empty if the buffers were just reallocated.
- The source buffer holds the captured frame.
- The displayed frame is either the swapped (and possibly blurred) frame or the captured frame with outlines, as described for `Render`.

## Left out

- `colorCorrectFace` is never called by the pipeline and is floating-point LAB statistics.
- The user interface (`js/ui.js`) is not modelled. It is only consulted for slider values, which are the `Settings` parameter of a tick.
- `js/video-fix.js` is not part of this model.
- Webcam access and its retry (`startWebcam`), the XHR file loader (`Utils`), cascade file loading and the upload handler's file reading are browser I/O. They are reduced to `LoadCascade` and `UploadFace`.
- `UploadFace`: the upload handler's detector check on the uploaded image and the green rectangle it draws onto the stored image are not modelled. The stored image is whatever the host passes.
- `requestAnimationFrame` and `setTimeout` are not modelled as timers. Rescheduling is the `rescheduled` result and reinitialisations are due times run by `FireReinit`.
- `startFaceSwap`'s immediate call to `processVideo` is the host's first `Tick`.
- The clock (`Date.now`), the captured canvas image and the detector results (`detectMultiScale`, with its grayscale conversion and histogram equalisation) are parameters.
- `Detect`: the only detection-step exception modelled is the detector call itself, which happens after the face list is cleared. A throw from the grayscale or equalisation step, before the list is cleared, is not modelled.
- Text and shape rendering (`putText`, `rectangle`, `imshow`) is left out. The model reports which rectangles would be outlined, and the output buffer holds the frame before any text or outline is drawn.
- The grayscale buffer `gray` and object deletion (`delete()`) are left out: memory management with no effect on the results.
- `FaceSwap.Resize`: OpenCV's bilinear resize is modelled by nearest-neighbour sampling. Only the output size and the same-size identity are claimed, not the interpolated values.
- `Imaging.BlurGray` / `Imaging.BlurPixels`: OpenCV's Gaussian blur with reflected borders is modelled by a box average with replicated borders. Only the output size, the value range and uniform windows are claimed, not the Gaussian weights.
- `FaceSwap.EllipseMask`: the mask is the exact ellipse on the pixel grid. OpenCV fills a polygon approximating the ellipse (`ellipse2Poly`), so a few boundary pixels can differ.
- `FaceSwap.Mix`: the float32 arithmetic of the blend is modelled as exact rational arithmetic rounded to the nearest integer. IEEE rounding error is not modelled.
- The throttle lemmas take the ticks that reach the detection step, each with whether the detector would return. Ticks that stop earlier (not ready, capture failure) do not change the last detection time, so they drop out. The spacing and count bounds are about returning runs only: a throwing detector is retried on the next tick (`ThrowingDetectorRetried`), and each throw schedules a reinitialisation (`Tick`). `RunLoop` ties these functions to `Tick` for runs whose ticks all reach the detection step.

## Findings

Both rows read the calls against the OpenCV.js bindings: a `cv.Size` argument is converted by reading its `width` and `height` fields, and a matrix argument must be a `cv.Mat`.

| source | as written | input that shows it | evidently intended | confidence | as-written member | corrected member |
|---|---|---|---|---|---|---|
| js/face-swap.js:28-30 | the semi-axes are built as a `cv.Point` (fields `x`, `y`) and passed where `cv.ellipse` takes a `cv.Size`, so extraction throws, `swapFaces` returns the frame and the cache stays empty | any reference rectangle inside the reference image, e.g. `Rect(0, 0, 100, 100)` in a 100 × 100 image | a filled ellipse with semi-axes 0.4·cols and 0.45·rows, and the face cached after the first extraction | medium, not executed; a binding built without argument checks would read both axes as 0 instead, which still gives no such ellipse | `FaceSwap.ExtractionDiscrepancy` | `FaceSwap.SwapFillsCacheOnce` |
| js/face-swap.js:111 | `cv.subtract` receives `new cv.Scalar(1, 1, 1, 1)`, an array, as its first matrix, so every blend throws and `swapFaces` returns the frame | a cached opaque white 1 × 1 face and mask 255 over a black 1 × 1 frame, target `Rect(0, 0, 1, 1)` | per-pixel weights 1 − m, so that mask 255 shows the face | medium, not executed | `FaceSwap.BlendDiscrepancy` | `FaceSwap.BlendInside` |
