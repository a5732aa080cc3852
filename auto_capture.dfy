/** The auto-capture logic of ChildViewController as values and functions:
    the tolerance region built around a detection, one decision of the
    stability tracker, a run of decisions over a stream of detections, and the
    frame-sampling throttle that decides which camera frames reach the detector. */
module AutoCapture {
  import opened Geometry

  datatype Option<T> = None | Some(value: T)

  /** Distance by which the tolerance region extends past the detection on every side. */
  const Margin: real := 50.0
  /** autoCaptureFrameCountThreshold: the count at which the next detection requests a photo. */
  const Threshold: nat := 25
  /** With one detection at a time, a photo is requested once every Cycle detections of a steady rectangle. */
  const Cycle: nat := Threshold + 1
  /** rectangleDetectionFrequency: only every DetectionFrequency-th camera frame is sent to the detector. */
  const DetectionFrequency: nat := 5
  /** A sampled frame whose count is at least this value sets frameCount back to 0. */
  const FrameCountResetAt: nat := 99

  // ---------------------------------------------------------------------------
  // Stability tracker
  // ---------------------------------------------------------------------------

  /** The tolerance region makeContainerRect builds around a detected rectangle. */
  function ContainerFor(r: Rect): (c: Rect)
    ensures c.MinX() == r.MinX() - Margin && c.MaxX() == r.MaxX() + Margin
    ensures c.MinY() == r.MinY() - Margin && c.MaxY() == r.MaxY() + Margin
    ensures Contains(c, r)
    ensures r.IsStandard() ==> c.IsStandard()
  {
    Rect(r.x - Margin, r.y - Margin, r.width + 2.0 * Margin, r.height + 2.0 * Margin)
  }

  /** The tracker's state: autoCaptureContainerRect (nil until the first detection)
      and autoCaptureFrameCount. */
  datatype Tracker = Tracker(container: Option<Rect>, count: int)

  /** The state of a freshly created view controller. */
  const Initial: Tracker := Tracker(None, 0)

  /** What holds of the tracker between calls: the count lies in [0, Threshold],
      it is 0 while there is no container yet, and the container is standardized. */
  predicate Valid(t: Tracker) {
    0 <= t.count <= Threshold &&
    (t.container.None? ==> t.count == 0) &&
    (t.container.Some? ==> t.container.value.IsStandard())
  }

  /** One call of autoCaptureAssist with the detected bounding box `r`: the new
      state and whether a photo is requested. A missing container is seeded from
      `r` first, and the call then goes on to the threshold test and the
      containment test like any other. */
  function Step(t: Tracker, r: Rect): (res: (Tracker, bool))
    ensures res.0.container.Some?
    ensures res.0.count == 0 || res.0.count == t.count + 1
    ensures res.1 ==> res.0.count == 0 && t.count >= Threshold
  {
    var region := if t.container.None? then ContainerFor(r) else t.container.value;
    if t.count >= Threshold then
      (Tracker(Some(region), 0), true)
    else if Contains(region, r) then
      (Tracker(Some(region), t.count + 1), false)
    else
      (Tracker(Some(ContainerFor(r)), 0), false)
  }

  lemma StepPreservesValid(t: Tracker, r: Rect)
    requires Valid(t) && r.IsStandard()
    ensures Valid(Step(t, r).0)
  {
  }

  /** A photo is requested exactly when the count has reached the threshold; the
      count then goes back to 0 and the container stays, whether or not `r` lies in it. */
  lemma StepTriggers(t: Tracker, r: Rect)
    requires Valid(t)
    ensures Step(t, r).1 <==> t.count == Threshold
    ensures t.count == Threshold ==> Step(t, r).0 == Tracker(t.container, 0)
  {
  }

  /** Below the threshold, a detection inside the container counts once more and
      leaves the container as it is. */
  lemma StepCounts(t: Tracker, r: Rect, c: Rect)
    requires t.container == Some(c) && t.count < Threshold && Contains(c, r)
    ensures Step(t, r) == (Tracker(Some(c), t.count + 1), false)
  {
  }

  /** Below the threshold, a detection that leaves the container re-seeds it from
      the detection and restarts the count, whatever the count was. */
  lemma StepEscapes(t: Tracker, r: Rect, c: Rect)
    requires t.container == Some(c) && t.count < Threshold && !Contains(c, r)
    ensures Step(t, r) == (Tracker(Some(ContainerFor(r)), 0), false)
  {
  }

  /** The first detection seeds the container and is then counted, since every
      rectangle lies inside its own tolerance region. */
  lemma FirstCall(r: Rect)
    ensures Step(Initial, r) == (Tracker(Some(ContainerFor(r)), 1), false)
  {
  }

  /** The detections `rs` fed to the tracker in order, starting from `t`: the final
      state and, for each call, whether it requested a photo. */
  function Run(t: Tracker, rs: seq<Rect>): (res: (Tracker, seq<bool>))
    ensures |res.1| == |rs|
    ensures rs != [] ==> res.0.container.Some?
    decreases |rs|
  {
    if rs == [] then (t, [])
    else
      var before := Run(t, rs[..|rs| - 1]);
      var after := Step(before.0, rs[|rs| - 1]);
      (after.0, before.1 + [after.1])
  }

  /** Whatever standardized detections arrive, the tracker stays valid (so the count
      stays in [0, Threshold]), and after the first one the container is never nil again. */
  lemma {:induction false} RunValid(t: Tracker, rs: seq<Rect>)
    requires Valid(t)
    requires forall i :: 0 <= i < |rs| ==> rs[i].IsStandard()
    ensures Valid(Run(t, rs).0)
    ensures rs != [] ==> Run(t, rs).0.container.Some?
  {
    if rs != [] {
      var prefix := rs[..|rs| - 1];
      RunValid(t, prefix);
      StepPreservesValid(Run(t, prefix).0, rs[|rs| - 1]);
    }
  }

  /** The same rectangle detected k times from the initial state: the
      count is k mod 26, the container is the rectangle's tolerance region, and call
      i (counting from 1) requests a photo exactly when i is a multiple of 26. So
      calls 1 to 25 request nothing, call 26 requests a photo, and the cycle repeats. */
  lemma {:induction false} RepeatedRect(r: Rect, k: nat)
    ensures Run(Initial, seq(k, _ => r)).0.container ==
            (if k == 0 then None else Some(ContainerFor(r)))
    ensures Run(Initial, seq(k, _ => r)).0.count == k % Cycle
    ensures var calls := Run(Initial, seq(k, _ => r)).1;
            forall i :: 0 <= i < k ==> (calls[i] <==> (i + 1) % Cycle == 0)
  {
    if k > 0 {
      var rs := seq(k, _ => r);
      var prefix := seq(k - 1, _ => r);
      assert rs[..k - 1] == prefix;
      RepeatedRect(r, k - 1);
      var before := Run(Initial, prefix);
      if k == 1 {
        FirstCall(r);
      } else if (k - 1) % Cycle == Threshold {
        assert Step(before.0, r) == (Tracker(before.0.container, 0), true);
      } else {
        StepCounts(before.0, r, ContainerFor(r));
      }
    }
  }

  /** Jitter is tolerated: from a tracker whose container is `c` and whose count is
      n, detections that all lie in `c` (different rectangles or not) keep `c`, add
      one to the count each and request nothing, as long as the count stays at most
      the threshold; the call after them then requests a photo exactly when the
      count has reached the threshold. */
  lemma {:induction false} StableRunCounts(c: Rect, n: nat, rs: seq<Rect>, next: Rect)
    requires n + |rs| <= Threshold
    requires forall j :: 0 <= j < |rs| ==> Contains(c, rs[j])
    ensures Run(Tracker(Some(c), n), rs).0 == Tracker(Some(c), n + |rs|)
    ensures var calls := Run(Tracker(Some(c), n), rs).1;
            forall j :: 0 <= j < |rs| ==> !calls[j]
    ensures Run(Tracker(Some(c), n), rs + [next]).1[|rs|] <==> n + |rs| == Threshold
  {
    var start := Tracker(Some(c), n);
    if rs != [] {
      var prefix := rs[..|rs| - 1];
      StableRunCounts(c, n, prefix, rs[|rs| - 1]);
      var before := Run(start, prefix);
      forall j | 0 <= j < |prefix| ensures Run(start, rs).1[j] == before.1[j] {
      }
    }
    assert (rs + [next])[..|rs|] == rs;
  }

  /** Running a prefix of the detections gives the same decisions as the whole run
      makes on that prefix: a call's decision depends only on the calls before it. */
  lemma {:induction false} RunPrefix(t: Tracker, rs: seq<Rect>, n: nat)
    requires n <= |rs|
    ensures Run(t, rs[..n]).1 == Run(t, rs).1[..n]
    decreases |rs|
  {
    if n < |rs| {
      var prefix := rs[..|rs| - 1];
      assert prefix[..n] == rs[..n];
      RunPrefix(t, prefix, n);
    } else {
      assert rs[..n] == rs;
    }
  }

  /** What the counter means over any stream from the initial state: with k the
      final count, there were at least k detections, the last k of them all lie in
      the final container, and none of those k calls requested a photo. */
  lemma {:induction false} CountMeansStable(rs: seq<Rect>)
    ensures Run(Initial, rs).0.count <= |rs|
    ensures rs != [] ==>
              var final := Run(Initial, rs).0;
              forall j :: |rs| - final.count <= j < |rs| ==> Contains(final.container.value, rs[j])
    ensures var final := Run(Initial, rs);
            forall j :: |rs| - final.0.count <= j < |rs| ==> !final.1[j]
  {
    if rs != [] {
      var prefix := rs[..|rs| - 1];
      var x := rs[|rs| - 1];
      CountMeansStable(prefix);
      var before := Run(Initial, prefix);
      var after := Step(before.0, x);
      assert Run(Initial, rs) == (after.0, before.1 + [after.1]);
      forall j | 0 <= j < |prefix| ensures rs[j] == prefix[j] && Run(Initial, rs).1[j] == before.1[j] {
      }
    }
  }

  /** A photo request from the initial state means stability: call i (counting from
      0) requests a photo only if at least Threshold calls came before it, the
      Threshold detections just before it all lie in the container in force at
      call i, and none of those calls requested a photo. */
  lemma {:induction false} PhotoMeansStable(rs: seq<Rect>, i: nat)
    requires i < |rs|
    ensures Run(Initial, rs).1[i] ==>
              i >= Threshold &&
              (forall j :: i - Threshold <= j < i ==> !Run(Initial, rs).1[j]) &&
              (forall j :: i - Threshold <= j < i ==>
                 Contains(Run(Initial, rs[..i]).0.container.value, rs[j]))
  {
    var prefix := rs[..i];
    var upto := rs[..i + 1];
    assert upto[..i] == prefix;
    RunPrefix(Initial, rs, i + 1);
    RunPrefix(Initial, rs, i);
    CountMeansStable(prefix);
    var before := Run(Initial, prefix);
    assert Run(Initial, rs).1[i] == Step(before.0, rs[i]).1;
    forall j | 0 <= j < i ensures rs[j] == prefix[j] && Run(Initial, rs).1[j] == before.1[j] {
    }
  }

  // ---------------------------------------------------------------------------
  // Frame-sampling throttle
  // ---------------------------------------------------------------------------

  /** One camera frame through the throttle of captureOutput: the stored frameCount
      afterwards and whether this frame is sent to the detector. The count is
      incremented; a frame whose new count is not a multiple of DetectionFrequency
      is dropped; a sampled frame whose count reached FrameCountResetAt sets the
      count back to 0 and is still sent to the detector. */
  function Throttle(frameCount: int): (res: (int, bool))
    ensures res.1 <==> (frameCount + 1) % DetectionFrequency == 0
    ensures !res.1 ==> res.0 == frameCount + 1
    ensures 0 <= frameCount <= FrameCountResetAt ==>
              0 <= res.0 <= FrameCountResetAt && (res.0 == 0 <==> frameCount == FrameCountResetAt)
  {
    var next := frameCount + 1;
    if next % DetectionFrequency != 0 then (next, false)
    else if next >= FrameCountResetAt then (0, true)
    else (next, true)
  }

  /** The stored frameCount after k camera frames, starting from 0. */
  function FramesAfter(k: nat): (n: int)
    ensures 0 <= n <= FrameCountResetAt
  {
    if k == 0 then 0 else Throttle(FramesAfter(k - 1)).0
  }

  /** The throttle is periodic: after k frames the stored count is k mod 100, and
      frame k (counting from 1) goes to the detector exactly when k is a multiple
      of DetectionFrequency; the wrap-around does not disturb the sampling. */
  lemma {:induction false} ThrottlePeriod(k: nat)
    ensures FramesAfter(k) == k % (FrameCountResetAt + 1)
    ensures k > 0 ==> (Throttle(FramesAfter(k - 1)).1 <==> k % DetectionFrequency == 0)
  {
    if k > 0 {
      ThrottlePeriod(k - 1);
      NextFrameIndex(k - 1);
    }
  }

  /** How the frame index modulo the wrap-around period and modulo the sampling
      frequency move when the index grows by one. */
  lemma NextFrameIndex(m: nat)
    ensures (m + 1) % (FrameCountResetAt + 1) ==
            if m % (FrameCountResetAt + 1) == FrameCountResetAt then 0
            else m % (FrameCountResetAt + 1) + 1
    ensures (m + 1) % DetectionFrequency == (m % (FrameCountResetAt + 1) + 1) % DetectionFrequency
  {
  }
}
