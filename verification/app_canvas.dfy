/** The per-frame controller of js/app-canvas.js: the module-level pipeline state,
    buffer (re)allocation, start/stop, and one processVideo tick. The host drives it:
    it calls Tick once per animation frame, passing the clock, the video element's
    size, the captured canvas image, the settings panel and the detector's answers,
    and calls FireReinit when a scheduled reinitialisation is due. */
module AppCanvas {
  import opened Imaging
  import opened FaceSwap

  /** Minimum time between two detector runs, in milliseconds. */
  const DetectionThrottleMs := 100

  /** Delay before the buffers are reallocated after an error, in milliseconds. */
  const ReinitDelayMs := 1000

  /** Canvas size set before the video reports its own. */
  const InitialCanvasWidth := 640
  const InitialCanvasHeight := 480

  /** The settings panel's values: blending strength and smoothing in 0..100, and
      whether detected faces are outlined. */
  datatype Settings = Settings(blendingStrength: int, smoothingAmount: int, showFaceBoxes: bool)

  /** The settings a tick uses when there is no settings panel. */
  const DefaultSettings := Settings(80, 50, true)

  function EffectiveSettings(panel: Option<Settings>): (s: Settings)
    ensures panel.Some? ==> s == panel.value
    ensures panel.None? ==> s.blendingStrength == 80 && s.smoothingAmount == 50 && s.showFaceBoxes
  {
    if panel.Some? then panel.value else DefaultSettings
  }

  // ---------------------------------------------------------------------------
  // Detection throttle

  /** Detection runs on a tick only when strictly more than the throttle interval has
      passed since the last run. */
  predicate ThrottleOpen(now: int, lastDetectionTime: int) {
    now - lastDetectionTime > DetectionThrottleMs
  }

  /** A tick that reaches the detection step: its time, and whether the detector
      returns if it is called on that tick (false: it throws). */
  datatype DetectorTick = DetectorTick(time: int, succeeds: bool)

  function Times(ticks: seq<DetectorTick>): (s: seq<int>)
    ensures |s| == |ticks| && forall k :: 0 <= k < |ticks| ==> s[k] == ticks[k].time
  {
    if ticks == [] then [] else [ticks[0].time] + Times(ticks[1..])
  }

  /** The times of the detector calls that return, given the last detection time before
      the first tick. Only a returning call moves the last detection time. */
  function DetectionTimes(last: int, ticks: seq<DetectorTick>): (d: seq<int>)
    ensures |d| <= |ticks|
    decreases |ticks|
  {
    if ticks == [] then []
    else if ThrottleOpen(ticks[0].time, last) && ticks[0].succeeds
    then [ticks[0].time] + DetectionTimes(ticks[0].time, ticks[1..])
    else DetectionTimes(last, ticks[1..])
  }

  /** The times of all detector calls, returning or throwing. Every returning run is
      one of them. */
  function DetectorCalls(last: int, ticks: seq<DetectorTick>): (c: seq<int>)
    ensures |DetectionTimes(last, ticks)| <= |c| <= |ticks|
    decreases |ticks|
  {
    if ticks == [] then []
    else if ThrottleOpen(ticks[0].time, last)
    then [ticks[0].time] + DetectorCalls(if ticks[0].succeeds then ticks[0].time else last, ticks[1..])
    else DetectorCalls(last, ticks[1..])
  }

  /** The last detection time after the ticks. */
  function LastDetection(last: int, ticks: seq<DetectorTick>): int
    decreases |ticks|
  {
    if ticks == [] then last
    else LastDetection(if ThrottleOpen(ticks[0].time, last) && ticks[0].succeeds then ticks[0].time else last, ticks[1..])
  }

  /** One more tick adds a detector call exactly when the throttle is open at the last
      detection time so far, and a returning run when besides the detector returns. */
  lemma {:induction false} DetectionAppend(last: int, ticks: seq<DetectorTick>, t: DetectorTick)
    ensures var runs := ThrottleOpen(t.time, LastDetection(last, ticks)) && t.succeeds;
      && DetectionTimes(last, ticks + [t]) == DetectionTimes(last, ticks) + (if runs then [t.time] else [])
      && DetectorCalls(last, ticks + [t])
           == DetectorCalls(last, ticks) + (if ThrottleOpen(t.time, LastDetection(last, ticks)) then [t.time] else [])
      && LastDetection(last, ticks + [t]) == if runs then t.time else LastDetection(last, ticks)
    decreases |ticks|
  {
    if ticks == [] {
      assert ticks + [t] == [t];
    } else {
      assert (ticks + [t])[1..] == ticks[1..] + [t];
      var next := if ThrottleOpen(ticks[0].time, last) && ticks[0].succeeds then ticks[0].time else last;
      DetectionAppend(next, ticks[1..], t);
    }
  }

  /** Every run is more than the throttle interval after the previous detection time
      and after every earlier run. */
  predicate Spaced(last: int, d: seq<int>) {
    && (forall a :: 0 <= a < |d| ==> d[a] - last > DetectionThrottleMs)
    && (forall a, b :: 0 <= a < b < |d| ==> d[b] - d[a] > DetectionThrottleMs)
  }

  /** Returning detector runs are spaced by more than the throttle interval. */
  lemma {:induction false} DetectionsSpaced(last: int, ticks: seq<DetectorTick>)
    ensures Spaced(last, DetectionTimes(last, ticks))
    decreases |ticks|
  {
    if ticks != [] {
      if ThrottleOpen(ticks[0].time, last) && ticks[0].succeeds {
        DetectionsSpaced(ticks[0].time, ticks[1..]);
      } else {
        DetectionsSpaced(last, ticks[1..]);
      }
    }
  }

  /** Detection runs only at tick times. */
  lemma {:induction false} DetectionsAtTicks(last: int, ticks: seq<DetectorTick>)
    ensures forall t :: t in DetectionTimes(last, ticks) ==> t in Times(ticks)
    decreases |ticks|
  {
    if ticks != [] {
      if ThrottleOpen(ticks[0].time, last) && ticks[0].succeeds {
        DetectionsAtTicks(ticks[0].time, ticks[1..]);
      } else {
        DetectionsAtTicks(last, ticks[1..]);
      }
    }
  }

  lemma {:induction false} SpacedSpan(last: int, d: seq<int>)
    requires Spaced(last, d) && |d| > 0
    ensures d[|d| - 1] - d[0] >= (|d| - 1) * (DetectionThrottleMs + 1)
  {
    if |d| > 1 {
      var prefix := d[..|d| - 1];
      assert Spaced(last, prefix);
      SpacedSpan(last, prefix);
      assert d[|d| - 1] - d[|d| - 2] > DetectionThrottleMs;
    }
  }

  predicate Ascending(times: seq<int>) {
    forall a, b :: 0 <= a < b < |times| ==> times[a] <= times[b]
  }

  /** Over ticks spanning T milliseconds the detector returns at most T/101 + 1 times
      (so at most ceil(T/100) + 1 times), whatever the tick rate. */
  lemma DetectionCountBound(last: int, ticks: seq<DetectorTick>)
    requires |ticks| > 0 && Ascending(Times(ticks))
    ensures var d := DetectionTimes(last, ticks);
      |d| == 0 || (|d| - 1) * (DetectionThrottleMs + 1) <= ticks[|ticks| - 1].time - ticks[0].time
  {
    var d := DetectionTimes(last, ticks);
    if |d| > 0 {
      DetectionsSpaced(last, ticks);
      DetectionsAtTicks(last, ticks);
      SpacedSpan(last, d);
      assert d[0] in Times(ticks) && d[|d| - 1] in Times(ticks);
    }
  }

  /** A window of at most the throttle interval never holds two returning detector runs. */
  lemma OneDetectionPerWindow(last: int, ticks: seq<DetectorTick>, start: int)
    ensures var d := DetectionTimes(last, ticks);
      forall a, b :: 0 <= a < b < |d| && start <= d[a] && d[b] <= start + DetectionThrottleMs ==> false
  {
    DetectionsSpaced(last, ticks);
  }

  /** A throwing call leaves the last detection time where it was, so once the throttle
      is open a detector that keeps throwing is called again on every following tick. */
  lemma {:induction false} ThrowingDetectorRetried(last: int, ticks: seq<DetectorTick>)
    requires |ticks| > 0 && Ascending(Times(ticks)) && ThrottleOpen(ticks[0].time, last)
    requires forall k :: 0 <= k < |ticks| ==> !ticks[k].succeeds
    ensures DetectorCalls(last, ticks) == Times(ticks)
    ensures DetectionTimes(last, ticks) == []
    decreases |ticks|
  {
    if |ticks| > 1 {
      var rest := ticks[1..];
      assert Times(rest)[0] == ticks[1].time && Times(ticks)[1] == ticks[1].time;
      assert Ascending(Times(rest)) by {
        forall a, b | 0 <= a < b < |rest| ensures Times(rest)[a] <= Times(rest)[b] {
          assert Times(ticks)[a + 1] <= Times(ticks)[b + 1];
        }
      }
      ThrowingDetectorRetried(last, rest);
    }
  }

  // ---------------------------------------------------------------------------
  // Smoothing kernel

  /** The blur kernel size derived from the smoothing setting: max(1, floor(s/10))*2+1. */
  function KernelSize(smoothingAmount: int): (k: int)
    ensures k >= 3 && k % 2 == 1
    ensures smoothingAmount <= 100 ==> k <= 21
    ensures smoothingAmount < 20 ==> k == 3
  {
    var tenths := smoothingAmount / 10;
    (if tenths > 1 then tenths else 1) * 2 + 1
  }

  /** The kernel a tick blurs the swapped frame with; 0 when smoothing is off. */
  function BlurKernel(settings: Settings): (k: int)
    ensures settings.smoothingAmount > 0 ==> k >= 3 && k % 2 == 1
    ensures settings.smoothingAmount <= 0 <==> k == 0
  {
    if settings.smoothingAmount > 0 then KernelSize(settings.smoothingAmount) else 0
  }

  // ---------------------------------------------------------------------------
  // One tick

  /** What happened on a tick. */
  datatype TickResult =
    | Stopped          // not streaming: returns at once and does not reschedule
    | NotReady         // no buffers yet or a zero video dimension: only reschedules
    | CaptureFailed    // reading the frame threw: a reinitialisation is scheduled
    | DetectorFailed   // the detector threw: a reinitialisation is scheduled
    | Shown(detected: bool, output: Output)

  /** What the displayed frame is built from. */
  datatype Output =
    | SwapOutput(blurKernel: int)          // the swapped frame, blurred with this kernel (0: not blurred)
    | OutlineOutput(outlines: seq<Rect>)   // the captured frame with these rectangles outlined

  /** The module-level state of the application. */
  class FaceSwapApp {
    var streaming: bool
    var videoInitialized: bool
    var cascadeLoaded: bool
    var uploadedFace: Option<Grid<Pixel>>
    var src: array2?<Pixel>
    var dst: array2?<Pixel>
    var faces: seq<Rect>
    var lastDetectionTime: int
    var inputWidth: int
    var inputHeight: int
    var outputWidth: int
    var outputHeight: int
    /** Due times of the reinitialisations scheduled after errors, oldest first. */
    var pendingReinit: seq<int>
    /** The compositing functions' own state (the reference-face cache). */
    const swapper: FaceSwapper

    ghost predicate Valid()
      reads this
    {
      && (src == null <==> dst == null)
      && (videoInitialized ==> src != null)
      && (src != null ==>
            && src != dst
            && dst.Length0 == src.Length0 && dst.Length1 == src.Length1
            && inputWidth == src.Length1 && outputWidth == src.Length1
            && inputHeight == src.Length0 && outputHeight == src.Length0)
      && (uploadedFace.Some? ==> Rectangular(uploadedFace.value))
    }

    /** The module-level initial values, with the canvases sized by initializeElements. */
    constructor ()
      ensures Valid()
      ensures !streaming && !videoInitialized && !cascadeLoaded && uploadedFace == None
      ensures src == null && dst == null && faces == [] && lastDetectionTime == 0 && pendingReinit == []
      ensures inputWidth == InitialCanvasWidth && outputWidth == InitialCanvasWidth
      ensures inputHeight == InitialCanvasHeight && outputHeight == InitialCanvasHeight
      ensures fresh(swapper) && swapper.cache == None
    {
      streaming, videoInitialized, cascadeLoaded, uploadedFace := false, false, false, None;
      src, dst, faces, lastDetectionTime, pendingReinit := null, null, [], 0, [];
      inputWidth, outputWidth := InitialCanvasWidth, InitialCanvasWidth;
      inputHeight, outputHeight := InitialCanvasHeight, InitialCanvasHeight;
      swapper := new FaceSwapper();
    }

    /** The face classifier object has been created. */
    method LoadCascade()
      requires Valid()
      modifies this
      ensures Valid() && cascadeLoaded
      ensures streaming == old(streaming) && videoInitialized == old(videoInitialized)
      ensures uploadedFace == old(uploadedFace) && src == old(src) && dst == old(dst) && faces == old(faces)
      ensures lastDetectionTime == old(lastDetectionTime) && pendingReinit == old(pendingReinit)
      ensures inputWidth == old(inputWidth) && inputHeight == old(inputHeight)
      ensures outputWidth == old(outputWidth) && outputHeight == old(outputHeight)
    {
      cascadeLoaded := true;
    }

    /** A reference image has been read from an upload. The reference-face cache is
        left as it is. */
    method UploadFace(image: Grid<Pixel>)
      requires Valid() && Rectangular(image)
      modifies this
      ensures Valid() && uploadedFace == Some(image)
      ensures streaming == old(streaming) && videoInitialized == old(videoInitialized) && cascadeLoaded == old(cascadeLoaded)
      ensures src == old(src) && dst == old(dst) && faces == old(faces)
      ensures lastDetectionTime == old(lastDetectionTime) && pendingReinit == old(pendingReinit)
      ensures inputWidth == old(inputWidth) && inputHeight == old(inputHeight)
      ensures outputWidth == old(outputWidth) && outputHeight == old(outputHeight)
    {
      uploadedFace := Some(image);
    }

    /** initializeVideoProcessing: frees the old buffers, sizes both canvases to the
        video, allocates new source and output buffers of the video's size and an
        empty face list. */
    method InitializeVideoProcessing(videoWidth: nat, videoHeight: nat)
      requires Valid()
      modifies this
      ensures Valid() && videoInitialized
      ensures src != null && fresh(src) && fresh(dst)
      ensures src.Length0 == videoHeight && src.Length1 == videoWidth
      ensures dst.Length0 == videoHeight && dst.Length1 == videoWidth
      ensures inputWidth == videoWidth && outputWidth == videoWidth
      ensures inputHeight == videoHeight && outputHeight == videoHeight
      ensures faces == []
      ensures streaming == old(streaming) && cascadeLoaded == old(cascadeLoaded) && uploadedFace == old(uploadedFace)
      ensures lastDetectionTime == old(lastDetectionTime) && pendingReinit == old(pendingReinit)
    {
      videoInitialized := true;
      inputWidth, inputHeight := videoWidth, videoHeight;
      outputWidth, outputHeight := videoWidth, videoHeight;
      src := new Pixel[videoHeight, videoWidth];
      dst := new Pixel[videoHeight, videoWidth];
      faces := [];
    }

    /** startFaceSwap: streaming starts only when both the classifier and a reference
        image are present; otherwise nothing changes. */
    method StartFaceSwap() returns (started: bool)
      requires Valid()
      modifies this
      ensures Valid()
      ensures started <==> cascadeLoaded && uploadedFace.Some?
      ensures streaming == (started || old(streaming))
      ensures videoInitialized == old(videoInitialized) && cascadeLoaded == old(cascadeLoaded) && uploadedFace == old(uploadedFace)
      ensures src == old(src) && dst == old(dst) && faces == old(faces)
      ensures lastDetectionTime == old(lastDetectionTime) && pendingReinit == old(pendingReinit)
      ensures inputWidth == old(inputWidth) && inputHeight == old(inputHeight)
      ensures outputWidth == old(outputWidth) && outputHeight == old(outputHeight)
    {
      started := cascadeLoaded && uploadedFace.Some?;
      if started {
        streaming := true;
      }
    }

    /** stopFaceSwap: clears the streaming flag; the next tick then stops the loop. */
    method StopFaceSwap()
      requires Valid()
      modifies this
      ensures Valid() && !streaming
      ensures videoInitialized == old(videoInitialized) && cascadeLoaded == old(cascadeLoaded) && uploadedFace == old(uploadedFace)
      ensures src == old(src) && dst == old(dst) && faces == old(faces)
      ensures lastDetectionTime == old(lastDetectionTime) && pendingReinit == old(pendingReinit)
      ensures inputWidth == old(inputWidth) && inputHeight == old(inputHeight)
      ensures outputWidth == old(outputWidth) && outputHeight == old(outputHeight)
    {
      streaming := false;
    }

    /** Runs the oldest scheduled reinitialisation if it is due. */
    method FireReinit(now: int, videoWidth: nat, videoHeight: nat) returns (fired: bool)
      requires Valid()
      modifies this
      ensures Valid()
      ensures fired <==> |old(pendingReinit)| > 0 && old(pendingReinit)[0] <= now
      ensures fired ==> pendingReinit == old(pendingReinit)[1..] && videoInitialized && faces == []
      ensures fired ==> src != null && fresh(src) && src.Length0 == videoHeight && src.Length1 == videoWidth
      ensures fired ==> fresh(dst) && dst.Length0 == videoHeight && dst.Length1 == videoWidth
      ensures !fired ==> pendingReinit == old(pendingReinit) && src == old(src) && dst == old(dst) && faces == old(faces)
      ensures !fired ==> videoInitialized == old(videoInitialized)
      ensures !fired ==> inputWidth == old(inputWidth) && inputHeight == old(inputHeight)
      ensures !fired ==> outputWidth == old(outputWidth) && outputHeight == old(outputHeight)
      ensures streaming == old(streaming) && cascadeLoaded == old(cascadeLoaded) && uploadedFace == old(uploadedFace)
      ensures lastDetectionTime == old(lastDetectionTime)
    {
      fired := |pendingReinit| > 0 && pendingReinit[0] <= now;
      if fired {
        var rest := pendingReinit[1..];
        InitializeVideoProcessing(videoWidth, videoHeight);
        pendingReinit := rest;
      }
    }

    /** Buffers exist, the video has been initialised and both video dimensions are non-zero. */
    ghost predicate Ready(videoWidth: nat, videoHeight: nat)
      reads this
    {
      videoInitialized && src != null && dst != null && videoWidth != 0 && videoHeight != 0
    }

    /** The buffers already have the video's size. */
    ghost predicate SameSize(videoWidth: nat, videoHeight: nat)
      reads this
    {
      src != null && src.Length0 == videoHeight && src.Length1 == videoWidth
    }

    /** processVideo. `frame` is the canvas image the capture produces (None: capturing
        threw); `detections` is what the detector returns if it is run on this tick
        (None: it threw); `referenceFaces` is what it returns on the reference image.
        `rescheduled` tells whether the next animation frame is requested. */
    method Tick(now: int, videoWidth: nat, videoHeight: nat, frame: Option<Grid<Pixel>>,
                panel: Option<Settings>, detections: Option<seq<Rect>>, referenceFaces: seq<Rect>)
      returns (result: TickResult, rescheduled: bool)
      requires Valid()
      requires frame.Some? ==> IsGrid(frame.value, videoHeight, videoWidth)
      modifies this, swapper, src, dst
      ensures Valid()
      ensures rescheduled == old(streaming)
      ensures streaming == old(streaming) && videoInitialized == old(videoInitialized)
      ensures cascadeLoaded == old(cascadeLoaded) && uploadedFace == old(uploadedFace)
      // guards
      ensures result.Stopped? <==> !old(streaming)
      ensures result.NotReady? <==> old(streaming) && !old(Ready(videoWidth, videoHeight))
      ensures (result.Stopped? || result.NotReady?) ==>
        && src == old(src) && dst == old(dst) && faces == old(faces)
        && lastDetectionTime == old(lastDetectionTime) && pendingReinit == old(pendingReinit)
        && inputWidth == old(inputWidth) && inputHeight == old(inputHeight)
        && outputWidth == old(outputWidth) && outputHeight == old(outputHeight)
        && (src != null ==> unchanged(src) && unchanged(dst))
        && swapper.cache == old(swapper.cache)
      // buffers: reallocated exactly when the video size differs from theirs
      ensures !(result.Stopped? || result.NotReady?) ==>
        && src != null && src.Length0 == videoHeight && src.Length1 == videoWidth
        && (src == old(src) <==> old(SameSize(videoWidth, videoHeight)))
        && (!old(SameSize(videoWidth, videoHeight)) ==> fresh(src))
      // buffers: each is the old array or a new one; the output buffer is replaced only
      // by a reallocation or by the swap path
      ensures src == old(src) || fresh(src)
      ensures dst == old(dst) || fresh(dst)
      ensures !(result.Stopped? || result.NotReady? || (result.Shown? && result.output.SwapOutput?)) ==>
        && (dst == old(dst) <==> old(SameSize(videoWidth, videoHeight)))
        && (!old(SameSize(videoWidth, videoHeight)) ==> fresh(dst))
      ensures result.CaptureFailed? && old(SameSize(videoWidth, videoHeight)) ==> unchanged(src) && unchanged(dst)
      // errors schedule a reinitialisation
      ensures result.CaptureFailed? <==> old(streaming) && old(Ready(videoWidth, videoHeight)) && frame.None?
      ensures result.DetectorFailed? <==>
        old(streaming) && old(Ready(videoWidth, videoHeight)) && frame.Some?
        && ThrottleOpen(now, old(lastDetectionTime)) && detections.None?
      ensures pendingReinit == old(pendingReinit) + (if result.CaptureFailed? || result.DetectorFailed? then [now + ReinitDelayMs] else [])
      // throttle
      ensures result.Shown? ==> (result.detected <==> ThrottleOpen(now, old(lastDetectionTime)))
      ensures lastDetectionTime == if result.Shown? && result.detected then now else old(lastDetectionTime)
      ensures faces ==
        if result.Shown? && result.detected then detections.value
        else if result.DetectorFailed? then []
        else if result.CaptureFailed? || result.Shown? then (if old(SameSize(videoWidth, videoHeight)) then old(faces) else [])
        else old(faces)
      // captured frame
      ensures (result.Shown? || result.DetectorFailed?) ==> ToGrid(src) == frame.value
      ensures result.DetectorFailed? ==> ToGrid(dst) == frame.value
      // output
      ensures result.Shown? ==> (result.output.SwapOutput? <==> uploadedFace.Some? && |faces| > 0)
      ensures result.Shown? && result.output.OutlineOutput? ==>
        && ToGrid(dst) == frame.value
        && result.output.outlines == (if EffectiveSettings(panel).showFaceBoxes then faces else [])
      ensures result.Shown? && result.output.SwapOutput? ==>
        var s := Swap(old(swapper.cache), uploadedFace.value, referenceFaces, frame.value, faces);
        var kernel := BlurKernel(EffectiveSettings(panel));
        && fresh(dst) && swapper.cache == s.cache && result.output.blurKernel == kernel
        && ToGrid(dst) == (if kernel > 0 then BlurPixels(s.frame, kernel) else s.frame)
      ensures !(result.Shown? && result.output.SwapOutput?) ==> swapper.cache == old(swapper.cache)
    {
      rescheduled := streaming;
      if !streaming {
        return Stopped, rescheduled;
      }
      if !videoInitialized || src == null || dst == null {
        return NotReady, rescheduled;
      }
      if videoWidth == 0 || videoHeight == 0 {
        return NotReady, rescheduled;
      }
      if src.Length0 != videoHeight || src.Length1 != videoWidth {
        InitializeVideoProcessing(videoWidth, videoHeight);
      }
      if frame.None? {
        pendingReinit := pendingReinit + [now + ReinitDelayMs];
        return CaptureFailed, rescheduled;
      }
      Capture(frame.value);
      var failed, detected := Detect(now, detections);
      if failed {
        return DetectorFailed, rescheduled;
      }
      var output := Render(frame.value, panel, referenceFaces);
      result := Shown(detected, output);
    }

    /** The requestAnimationFrame loop over ticks that all reach the detection step: the
        video keeps the buffers' size and every capture succeeds; on each tick the
        detector returns `detections` or throws, as the tick says. The detector calls
        are exactly DetectorCalls and the runs that return exactly DetectionTimes, so the
        throttle lemmas hold of Tick; each throwing call schedules one reinitialisation. */
    method RunLoop(ticks: seq<DetectorTick>, videoWidth: nat, videoHeight: nat, frame: Grid<Pixel>,
                   panel: Option<Settings>, detections: seq<Rect>, referenceFaces: seq<Rect>)
      returns (calls: seq<int>, runs: seq<int>)
      requires Valid() && streaming && Ready(videoWidth, videoHeight) && SameSize(videoWidth, videoHeight)
      requires IsGrid(frame, videoHeight, videoWidth)
      modifies this, swapper, src, dst
      ensures Valid() && streaming && src == old(src)
      ensures calls == DetectorCalls(old(lastDetectionTime), ticks)
      ensures runs == DetectionTimes(old(lastDetectionTime), ticks)
      ensures |pendingReinit| == |old(pendingReinit)| + |calls| - |runs|
      ensures lastDetectionTime == LastDetection(old(lastDetectionTime), ticks)
    {
      calls, runs := [], [];
      var k := 0;
      while k < |ticks|
        invariant 0 <= k <= |ticks|
        invariant Valid() && streaming && Ready(videoWidth, videoHeight) && SameSize(videoWidth, videoHeight)
        invariant src == old(src) && (dst == old(dst) || fresh(dst))
        invariant calls == DetectorCalls(old(lastDetectionTime), ticks[..k])
        invariant runs == DetectionTimes(old(lastDetectionTime), ticks[..k])
        invariant |pendingReinit| == |old(pendingReinit)| + |calls| - |runs|
        invariant lastDetectionTime == LastDetection(old(lastDetectionTime), ticks[..k])
      {
        var t := ticks[k];
        var result, rescheduled := Tick(t.time, videoWidth, videoHeight, Some(frame), panel,
                                        if t.succeeds then Some(detections) else None, referenceFaces);
        DetectionAppend(old(lastDetectionTime), ticks[..k], t);
        if result.DetectorFailed? || (result.Shown? && result.detected) {
          calls := calls + [t.time];
        }
        if result.Shown? && result.detected {
          runs := runs + [t.time];
        }
        assert ticks[..k + 1] == ticks[..k] + [t];
        k := k + 1;
      }
      assert ticks[..k] == ticks;
    }

    /** Draws the captured image into the source buffer and copies it to the output buffer. */
    method Capture(image: Grid<Pixel>)
      requires Valid() && src != null && IsGrid(image, src.Length0, src.Length1)
      modifies src, dst
      ensures ToGrid(src) == image && ToGrid(dst) == image
    {
      CopyInto(src, image);
      CopyInto(dst, ToGrid(src));
    }

    /** The detection step: when the throttle is open the face list is cleared and then
        refilled from the detector, or a reinitialisation is scheduled if the detector throws. */
    method Detect(now: int, detections: Option<seq<Rect>>) returns (failed: bool, detected: bool)
      requires Valid()
      modifies this
      ensures Valid()
      ensures detected <==> ThrottleOpen(now, old(lastDetectionTime)) && detections.Some?
      ensures failed <==> ThrottleOpen(now, old(lastDetectionTime)) && detections.None?
      ensures faces == if detected then detections.value else if failed then [] else old(faces)
      ensures lastDetectionTime == if detected then now else old(lastDetectionTime)
      ensures pendingReinit == old(pendingReinit) + (if failed then [now + ReinitDelayMs] else [])
      ensures streaming == old(streaming) && videoInitialized == old(videoInitialized)
      ensures cascadeLoaded == old(cascadeLoaded) && uploadedFace == old(uploadedFace)
      ensures src == old(src) && dst == old(dst)
      ensures inputWidth == old(inputWidth) && inputHeight == old(inputHeight)
      ensures outputWidth == old(outputWidth) && outputHeight == old(outputHeight)
    {
      failed, detected := false, false;
      if ThrottleOpen(now, lastDetectionTime) {
        faces := [];
        if detections.None? {
          pendingReinit := pendingReinit + [now + ReinitDelayMs];
          failed := true;
          return;
        }
        faces := detections.value;
        lastDetectionTime := now;
        detected := true;
      }
    }

    /** The output step: with a reference image and at least one detected face the
        output buffer becomes the swapped frame, blurred when smoothing is on; otherwise
        the output buffer keeps the captured frame and the faces are outlined if asked. */
    method Render(image: Grid<Pixel>, panel: Option<Settings>, referenceFaces: seq<Rect>) returns (output: Output)
      requires Valid() && src != null && ToGrid(src) == image && ToGrid(dst) == image && NonEmpty(image)
      modifies this, swapper
      ensures Valid() && src != null && ToGrid(src) == image
      ensures streaming == old(streaming) && videoInitialized == old(videoInitialized)
      ensures cascadeLoaded == old(cascadeLoaded) && uploadedFace == old(uploadedFace)
      ensures src == old(src) && faces == old(faces)
      ensures lastDetectionTime == old(lastDetectionTime) && pendingReinit == old(pendingReinit)
      ensures inputWidth == old(inputWidth) && inputHeight == old(inputHeight)
      ensures output.SwapOutput? <==> uploadedFace.Some? && |faces| > 0
      ensures output.OutlineOutput? ==>
        && dst == old(dst) && ToGrid(dst) == image && swapper.cache == old(swapper.cache)
        && output.outlines == (if EffectiveSettings(panel).showFaceBoxes then faces else [])
      ensures output.SwapOutput? ==>
        var s := Swap(old(swapper.cache), uploadedFace.value, referenceFaces, image, faces);
        var kernel := BlurKernel(EffectiveSettings(panel));
        && fresh(dst) && swapper.cache == s.cache && output.blurKernel == kernel
        && ToGrid(dst) == (if kernel > 0 then BlurPixels(s.frame, kernel) else s.frame)
    {
      var settings := EffectiveSettings(panel);
      if uploadedFace.Some? && |faces| > 0 {
        var swapped := swapper.SwapFaces(uploadedFace.value, referenceFaces, src, faces);
        var kernel := BlurKernel(settings);
        if kernel > 0 {
          swapped := NewFrame(BlurPixels(ToGrid(swapped), kernel), src.Length0, src.Length1);
        }
        dst := swapped;
        output := SwapOutput(kernel);
      } else {
        output := OutlineOutput(if settings.showFaceBoxes then faces else []);
      }
    }
  }
}
