# Auto-capture stability tracker of CIRectangleDetection

`ChildViewController` previews the camera, sends every fifth frame to a rectangle
detector, and, when auto-capture is on, feeds the bounding box of the first
rectangle the detector reports in that frame to a small stability tracker. The tracker keeps an optional tolerance
region (`autoCaptureContainerRect`, the last seeding detection grown by 50 on every
side) and a counter (`autoCaptureFrameCount`). Each detection seeds a missing region.
The call then requests a photo and zeroes the counter if the counter has reached 25.
Otherwise it counts the detection if it lies inside the region (edges included), or
re-seeds the region from the detection and zeroes the counter.

This project models that logic in Dafny:

- `geometry.dfy`, module `Geometry`: rectangles with real coordinates and inclusive containment, the part of `CGRect` the tracker uses.
- `auto_capture.dfy`, module `AutoCapture`: the tracker and the frame throttle as pure functions (`ContainerFor`, `Step`, `Run`, `Throttle`, `FramesAfter`), with lemmas for their properties.
- `child_view.dfy`, module `ChildView`: class `ChildViewController`, whose fields are the controller's own and whose methods update them in place. `MakeContainerRect`, `AutoCaptureAssist` and `CaptureOutput` are proved against `ContainerFor`, `Step` and `Throttle`; the constructor and `EnableAutoCapture` state the fields they set directly.

Three behaviours of the code are easy to miss:

- The first detection seeds the region and is then counted, so the counter is 1 after it, not 0 (`FirstCall`).
- A photo is requested on the call after the counter reaches 25, without a containment test. With a steady rectangle this is call 26, then every 26 calls (`RepeatedRect`).
- `enableAutoCapture` only sets the flag; it does not clear the region or the counter (`EnableAutoCapture`).

The stored `frameCount` stays in [0, 99]. The value 100 exists only inside one
callback, which resets it to 0 and still sends that frame to the detector.

## Model

| member | source | states |
|---|---|---|
| AutoCapture.ContainerFor | CIdetectLib/Child/ChildViewController.swift:152-160 | the region's edges lie 50 outside the detection's edges; every detection lies in its own region, and a standardized detection gives a standardized region |
| AutoCapture.Step | CIdetectLib/Child/ChildViewController.swift:130-150 | after any call the container is set; the counter either restarts at 0 or grows by exactly 1; a photo request zeroes a counter that had reached the threshold |
| AutoCapture.StepPreservesValid | CIdetectLib/Child/ChildViewController.swift:130-150 | one call keeps the counter in [0, 25], keeps it 0 while there is no container, and keeps the container standardized |
| AutoCapture.StepTriggers | CIdetectLib/Child/ChildViewController.swift:135-141 | a photo is requested if and only if the counter equals 25; the counter then becomes 0 and the container stays, whether or not the detection lies inside it |
| AutoCapture.StepCounts | CIdetectLib/Child/ChildViewController.swift:143-144 | below the threshold, a contained detection raises the counter by exactly 1, leaves the container unchanged, and requests no photo |
| AutoCapture.StepEscapes | CIdetectLib/Child/ChildViewController.swift:145-147 | below the threshold, a detection outside the container replaces it with the detection's region and sets the counter to 0, whatever its prior value |
| AutoCapture.FirstCall | CIdetectLib/Child/ChildViewController.swift:131-144 | from the initial state the container is seeded from the detection, the detection is counted (counter 1), and no photo is requested |
| Geometry.Contains | CIdetectLib/Child/ChildViewController.swift:143 | inclusive containment of standardized rectangles: every rectangle contains itself, and a rectangle that contains a standardized one is standardized |
| AutoCapture.Run | CIdetectLib/Child/ChildViewController.swift:130-150 | a stream of detections yields one capture decision per call, and after a non-empty stream the container is set |
| AutoCapture.StableRunCounts | CIdetectLib/Child/ChildViewController.swift:135-147 | from container c and count n, any detections (not necessarily equal) that all lie in c keep c, add one each to the count and request nothing while the count stays at most 25; the next call then requests a photo exactly when the count has reached 25 |
| AutoCapture.RunPrefix | CIdetectLib/Child/ChildViewController.swift:130-150 | a call's decision depends only on the detections up to that call |
| AutoCapture.CountMeansStable | CIdetectLib/Child/ChildViewController.swift:130-150 | over any stream from the start, with k the final counter, the last k detections all lie in the final container and none of those k calls requested a photo |
| AutoCapture.PhotoMeansStable | CIdetectLib/Child/ChildViewController.swift:130-150 | over any stream from the start, a call requests a photo only after at least 25 calls, with the 25 detections before it all inside the container in force and none of them requesting a photo |
| AutoCapture.RunValid | CIdetectLib/Child/ChildViewController.swift:130-150 | for every sequence of standardized detections the counter stays in [0, 25], and after the first call the container is never nil again |
| AutoCapture.RepeatedRect | CIdetectLib/Child/ChildViewController.swift:130-150 | the same rectangle k times from the start: counter k mod 26, container its region, and call i requests a photo exactly when i is a multiple of 26 |
| AutoCapture.Throttle | CIdetectLib/Child/ChildViewController.swift:168-174 | a frame goes to detection if and only if its incremented count is a multiple of 5; dropped frames keep the incremented count; the stored count stays in [0, 99] and becomes 0 only on the frame after count 99 |
| AutoCapture.FramesAfter | CIdetectLib/Child/ChildViewController.swift:168-174 | the stored frame count after any number of frames lies in [0, 99] |
| AutoCapture.ThrottlePeriod | CIdetectLib/Child/ChildViewController.swift:168-174 | after k frames the stored count is k mod 100, and frame k is sampled exactly when k is a multiple of 5, across the wrap-around |
| ChildView.ChildViewController.constructor | CIdetectLib/Child/ChildViewController.swift:14-28 | auto-capture off, frame count 0, no container, counter 0 |
| ChildView.ChildViewController.MakeContainerRect | CIdetectLib/Child/ChildViewController.swift:152-160 | the container becomes the detection grown by 50 on every side, and no other field changes |
| ChildView.ChildViewController.AutoCaptureAssist | CIdetectLib/Child/ChildViewController.swift:130-150 | the new container, counter and photo request are exactly those of `Step`, and the tracker stays valid |
| ChildView.ChildViewController.CaptureOutput | CIdetectLib/Child/ChildViewController.swift:164-212 | a frame without an image buffer changes nothing; otherwise the frame count moves as `Throttle` says; the tracker takes one `Step` only for a sampled frame with a detection while auto-capture is on, and is untouched in every other case |
| ChildView.ChildViewController.EnableAutoCapture | CIdetectLib/Child/ChildViewController.swift:224-227 | sets the flag and changes no other field; the tracker state survives a disable and re-enable |

## Left out

- Camera session setup, device discovery, authorization and the preview layer (ChildViewController.swift:52-128): platform I/O.
- The photo settings, the photo output call and the photo delegate (lines 78-85, 137-141, 215-221): a photo request is the `requested` out-parameter of `AutoCaptureAssist` and `CaptureOutput`.
- The rectangle detector (lines 36-40, 176-182) and the image buffer (line 166): the detector's result is the `detection` parameter of `CaptureOutput`, and the presence of an image buffer is its `hasImageBuffer` parameter.
- The projection of the detected corners into view coordinates, the `imageScale` computation, the `UIBezierPath` and `CAShapeLayer` drawing and the path's `boundingBox` (lines 42-50, 183-210): floating-point view layout and rendering. `CaptureOutput` takes the bounding box as already computed.
- The hops between the sample-buffer queue and the main queue (lines 19, 64, 178, 186): calls are assumed to be serialized.
- Coordinates are exact reals, not `CGFloat`; rounding is not modelled.
- `CGRect` null and infinite rectangles and non-standardized (negative-size) rectangles: every detection is required to have a non-negative width and height.
- AutoCapture.ContainerFor and ChildView.ChildViewController.MakeContainerRect: add 100 to the stored width and height, while `CGRect.width`/`height` are absolute values; the two agree on standardized rectangles, the only ones the tracker receives (`MakeContainerRect` requires one), and `ContainerFor` is not a model of the source for negative sizes.
- The unused `ChildViewControllerDelegate` protocol (lines 230-232).
