/** The state ChildViewController keeps for auto-capture and the methods that update
    it in place. Camera, detector, drawing and photo output are not modelled: the
    detector's bounding box arrives as a parameter, and a photo request is reported
    through the `requested` out-parameter. */
module ChildView {
  import opened Geometry
  import opened AutoCapture

  class ChildViewController {
    var isAutoCaptureEnabled: bool
    var frameCount: int
    var autoCaptureFrameCount: int
    var autoCaptureContainerRect: Option<Rect>

    /** The tracker fields as one value, the state Step is defined on. */
    function TrackerState(): Tracker
      reads this
    {
      Tracker(autoCaptureContainerRect, autoCaptureFrameCount)
    }

    /** Between callbacks the frame count lies in [0, FrameCountResetAt] and the
        tracker is valid. */
    ghost predicate Valid()
      reads this
    {
      0 <= frameCount <= FrameCountResetAt && AutoCapture.Valid(TrackerState())
    }

    constructor ()
      ensures Valid()
      ensures !isAutoCaptureEnabled && frameCount == 0
      ensures TrackerState() == Initial
    {
      isAutoCaptureEnabled := false;
      frameCount := 0;
      autoCaptureFrameCount := 0;
      autoCaptureContainerRect := None;
    }

    /** Replaces the container with the tolerance region around `rect` and changes nothing else. */
    method MakeContainerRect(rect: Rect)
      requires rect.IsStandard()
      modifies this`autoCaptureContainerRect
      ensures autoCaptureContainerRect == Some(ContainerFor(rect))
    {
      var x := rect.x - 50.0;
      var y := rect.y - 50.0;
      var width := rect.width + 100.0;
      var height := rect.height + 100.0;
      autoCaptureContainerRect := Some(Rect(x, y, width, height));
    }

    /** One detected bounding box through the stability tracker; `requested` tells
        whether the call asks the photo output for a capture. */
    method AutoCaptureAssist(rect: Rect) returns (requested: bool)
      requires Valid() && rect.IsStandard()
      modifies this`autoCaptureContainerRect, this`autoCaptureFrameCount
      ensures Valid()
      ensures (TrackerState(), requested) == Step(old(TrackerState()), rect)
    {
      if autoCaptureContainerRect.None? {
        MakeContainerRect(rect);
      }
      requested := false;
      if autoCaptureFrameCount >= Threshold {
        autoCaptureFrameCount := 0;
        requested := true;
      } else {
        if Contains(autoCaptureContainerRect.value, rect) {
          autoCaptureFrameCount := autoCaptureFrameCount + 1;
        } else {
          MakeContainerRect(rect);
          autoCaptureFrameCount := 0;
        }
      }
      StepPreservesValid(old(TrackerState()), rect);
    }

    /** One camera frame delivered to the sample-buffer delegate. `hasImageBuffer`
        says whether the frame carries an image buffer; `detection` is the bounding
        box of the first rectangle the detector finds in it, already in view
        coordinates, or None when it finds none. `sampled` tells whether the frame
        went to the detector and `requested` whether a photo was requested. */
    method CaptureOutput(hasImageBuffer: bool, detection: Option<Rect>)
      returns (sampled: bool, requested: bool)
      requires Valid()
      requires detection.Some? ==> detection.value.IsStandard()
      modifies this`frameCount, this`autoCaptureContainerRect, this`autoCaptureFrameCount
      ensures Valid()
      ensures !hasImageBuffer ==> frameCount == old(frameCount) && !sampled
      ensures hasImageBuffer ==> (frameCount, sampled) == Throttle(old(frameCount))
      ensures if sampled && detection.Some? && isAutoCaptureEnabled
              then (TrackerState(), requested) == Step(old(TrackerState()), detection.value)
              else TrackerState() == old(TrackerState()) && !requested
    {
      sampled, requested := false, false;
      if !hasImageBuffer {
        return;
      }
      frameCount := frameCount + 1;
      if frameCount % DetectionFrequency != 0 {
        return;
      }
      if frameCount >= FrameCountResetAt {
        frameCount := 0;
      }
      sampled := true;
      if detection.None? {
        return;
      }
      if isAutoCaptureEnabled {
        requested := AutoCaptureAssist(detection.value);
      }
    }

    /** Turns auto-capture on or off. The tracker state is left as it is, so a
        container and count from before a disable are used again after re-enabling. */
    method EnableAutoCapture(enabled: bool)
      modifies this`isAutoCaptureEnabled
      ensures isAutoCaptureEnabled == enabled
    {
      isAutoCaptureEnabled := enabled;
    }
  }
}
