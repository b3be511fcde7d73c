# Carousel transition state machine

A Dafny model of the slide carousel in `main.js`. The carousel shows one of
three 3D models. The "prev" and "next" buttons each start an animated
transition to the neighbouring model, and each is ignored while a transition
is in flight. While a transition is in flight, every animation frame advances
a frame counter and moves the outgoing and incoming models along a circle;
while idle, a frame does nothing. After 90 frames
(`TRANSITION_DURATION`) the frame commits the new current slide, clears the
transition flag and the counter, puts every model back at rest, and shows
only the new current model.

Modules:

- `JsArith` models JavaScript's truncating `%` and relates it to Dafny's Euclidean `%`.
- `Carousel` holds the state record: the `isTransitioning` flag, the
  `transitionProgress` counter, `currentSlide`, `transitionDirection`,
  `maxSlides`, and the `models` as a sequence of slots. It also defines the
  two entry points, `Request(dir)` (the click handlers) and `Frame()`
  (`performTransition`).
- `CarouselRun` covers runs of frames, arbitrary interleavings of clicks and
  frames, the reachable-state invariant, and whole transitions.
- `AsWritten` holds the source's literal behaviour where it departs from the
  evident intent (see "## Findings").

Each model slot is a record holding its visibility flag, its position and its
rotation. A position or rotation is either `Rest` or `Orbit(role, frame)`.
`Rest` is the identity. A loaded model starts there: the loader writes its
position (0, 0, 0) at `main.js:50`, and its rotation is the rendering
library's default of zero. The commit writes both back to the identity at
`main.js:99-100`. `Orbit(role, frame)` stands for the trigonometric value the
animation wrote on that frame for the outgoing or incoming model.

Two behaviours of the code worth knowing:

- `main.js:90` writes only the current model's visibility, so the incoming
  model stays hidden until the commit. `CarouselRun.Inv` states that exactly
  the current model is visible in every state reachable from the corrected
  start-up (`CarouselRun.InitialInv`, `CarouselRun.ReplayKeepsInv`). From
  the source's start-up it can fail until the first commit
  (`AsWritten.LateFirstPathHidesCurrent`).
- A frame with no model loaded still counts: `main.js:63` increments the
  counter before `main.js:66` checks for emptiness. Such a frame never
  commits (`CarouselRun.RunWithoutModels`).

`Carousel.Frame` takes the next index modulo the number of LOADED models.
The source takes it modulo `maxSlides`, the number of configured paths. The two
agree whenever every load succeeded (`AsWritten.AsWrittenAgreesWhenLoaded`).
When some loads failed, they still agree on every frame the source finishes,
so they differ only where the source throws
(`AsWritten.AsWrittenAgreesUnlessThrows`). The source's version is
`AsWritten.FrameAsWritten`.

## Model

| member | source | states |
|---|---|---|
| JsArith.JsRem | main.js:69 | JavaScript's remainder is smaller in magnitude than the divisor, takes the dividend's sign, and differs from the dividend by a multiple of the divisor, which together fix it as the truncating remainder |
| JsArith.JsRemAgreesOnNonNegative | main.js:69 | adding `maxSlides` first makes the dividend non-negative, and there JavaScript's `%` equals the mathematical modulus |
| Carousel.NextIndex | main.js:69 | `(currentSlide + dir + n) % n` stays in `[0, n)`, equals `(currentSlide + dir) mod n`, and is the ring neighbour: wraps from the last slide to 0 going next and from 0 to the last going prev |
| Carousel.Request | main.js:105-117 | a click while transitioning changes nothing; a click while idle starts a transition at counter 0 in the clicked direction and leaves slide and models alone |
| Carousel.PoseSlots | main.js:78-90 | the frame's pose writes touch only the current and next model; the current model's visibility becomes `progress < 1`; the incoming model's visibility is not written; on a one-slide ring the incoming writes win |
| Carousel.Settle | main.js:97-101 | the commit puts every model at rest and leaves exactly the new current model visible |
| Carousel.Frame | main.js:60-103 | idle: the whole state is unchanged; no models: only the counter moves; before the duration: counter +1, same slide and direction, only current and next touched, current shown, incoming visibility unchanged; at the duration: idle, counter 0, slide = neighbour, all at rest, only it shown; the slide stays in range |
| Carousel.Load | main.js:44-58 | the CORRECTED load of the `main.js:53` finding: slots in completion order, all at rest, and only the first model to arrive (slot 0, the current slide) visible; the source instead shows the model whose path index is 0 (`AsWritten.LoadAsWritten`) |
| Carousel.Initial | main.js:29-42 | start-up is idle, with counter 0, slide 0, direction +1 and `maxSlides` equal to the number of paths, over the corrected load (`Carousel.Load`) |
| CarouselRun.Run | main.js:119-122 | any number of frames keeps the current slide within the loaded models |
| CarouselRun.Replay | main.js:105-122 | any interleaving of clicks and frames keeps the current slide within the loaded models |
| CarouselRun.InitialInv | main.js:29-42 | the start-up state over the corrected load satisfies the reachable-state invariant; over the source's load it can fail (`AsWritten.LateFirstPathHidesCurrent`) |
| CarouselRun.RequestKeepsInv | main.js:105-117 | a click preserves the invariant: counter 0 when idle and below 90 when transitioning, exactly the current model visible, only current and next off rest |
| CarouselRun.FrameKeepsInv | main.js:60-103 | a frame preserves the same invariant |
| CarouselRun.ReplayKeepsInv | main.js:105-122 | every state reachable by clicks and frames satisfies the invariant, so `0 <= transitionProgress <= 90` always holds with models loaded |
| CarouselRun.RequestIgnoredInFlight | main.js:106 | a second click, in either direction, never changes what the first click started |
| CarouselRun.RunIdle | main.js:61 | frames while idle leave the whole state, every model's visibility and pose included, unchanged |
| CarouselRun.RunWithoutModels | main.js:63-66 | with no model loaded, k frames raise the counter by k and never change the slide or clear the flag |
| CarouselRun.RunAnimating | main.js:63-92 | while the counter stays below 90, k frames leave the transition in flight with the counter k higher, on the same slide and direction |
| CarouselRun.RunCommits | main.js:92-101 | the frame on which the counter reaches 90 commits the neighbour, resets the counter, rests every model and shows only the new slide |
| CarouselRun.TransitionTiming | main.js:63-95 | after a click from idle, j < 90 frames give a transition in flight with counter j; exactly 90 give idle at `(currentSlide + dir + n) % n` with counter 0 |
| CarouselRun.CompleteMovesOne | main.js:92-101 | a click and 90 frames from idle move exactly one slide in the clicked direction, with every model at rest and only the new one shown |
| CarouselRun.CompleteThenBackRestores | main.js:69 | a completed transition followed by a completed transition in the opposite direction (prev then next, or next then prev) restores the starting state, apart from the remembered direction |
| AsWritten.FrameAsWritten | main.js:60-103 | the source's frame: a frame that throws keeps the flag set, the slide and direction unchanged and the counter one higher; any frame that leaves the flag set counted exactly one more frame |
| AsWritten.RunAsWritten | main.js:119-122 | the render loop runs frame after frame, a thrown one included: k frames from idle change nothing, and a transition still in flight after k frames has its counter exactly k higher, none of them having committed |
| AsWritten.AsWrittenAgreesUnlessThrows | main.js:60-103 | with at most `maxSlides` models loaded, every frame the source finishes without throwing equals `Carousel.Frame`, so the correction changes only frames where the source throws |
| AsWritten.AsWrittenAgreesWhenLoaded | main.js:60-103 | when every configured model loaded, or none yet, the source's frame is exactly `Carousel.Frame` |
| AsWritten.RunAsWrittenAgreesWhenLoaded | main.js:119-122 | the same agreement holds for any number of frames |
| AsWritten.FailedLoadFreezesTransition | main.js:66-84 | one model short, a prev transition from slide 0 throws on every frame, and its counter grows without bound while it never commits |
| AsWritten.ThreePathsOneFailed | main.js:34-56 | three paths, one failing, prev clicked at the source's start-up: every source frame throws and the transition stays in flight for good; from the corrected start-up the corrected frame lands on slide 1 after 90 frames |
| AsWritten.FailedLoadStillCycles | main.js:69 | with the corrected frame, a prev transition from slide 0 lands on the last loaded model and keeps the invariant |
| AsWritten.LoadAsWritten | main.js:51-53 | as written, slot i is the i-th model to arrive and is visible exactly when its path index is 0 |
| AsWritten.InitialAsWritten | main.js:29-53 | the source's start-up: idle, counter 0, slide 0, direction +1, `maxSlides` equal to the number of paths, over the literal load (`AsWritten.LoadAsWritten`) |
| AsWritten.LateFirstPathHidesCurrent | main.js:51-53 | when path 0 is not the first model to arrive, the current slide is hidden at start-up and the invariant fails |
| AsWritten.LoadShowsCurrent | main.js:51-53 | with the corrected load the current slide is visible at start-up whatever the completion order, and only it |

## Findings

| source | as written | input that shows it | evidently intended | confidence | as-written member | corrected member |
|---|---|---|---|---|---|---|
| main.js:69 | the next index wraps over `maxSlides` (3 configured paths), but `models` holds only the models that loaded; `models[nextModelIndex]` is then `undefined`, the position write at line 83 throws a TypeError on every frame, and the transition never commits | one of the three loads fails and "prev" is clicked on slide 0: next index 2, only two models | a failed model drops out of the rotation, so the carousel cycles over the models that did load | medium, not executed | AsWritten.FailedLoadFreezesTransition | AsWritten.FailedLoadStillCycles |
| main.js:53 | a model is pushed in completion order (line 51) but made visible by its path index, so slot 0, the current slide, is hidden whenever path 0 is not the first model to arrive | loads complete in the order path 1, path 0, path 2: slot 0 is hidden and slot 1 is shown while `currentSlide` is 0 | the first model to arrive, which becomes the current slide, is the one shown | medium, not executed | AsWritten.LateFirstPathHidesCurrent | AsWritten.LoadShowsCurrent |

## Left out

- Scene, camera, renderer, lights and OrbitControls setup (`main.js:1-27`), and the render call in the animation loop (`main.js:124-125`): these are rendering-library wiring with no behaviour of their own.
- The asynchronous GLTF loading (`main.js:44-58`) is a foreign call. Only its outcome is modelled: the slot list built from the completion order (`Carousel.Load`, `AsWritten.LoadAsWritten`). The 0.5 scale it sets is not modelled. Loads that finish after frames have started are not modelled either; the slot list is fixed for every run.
- The floating-point pose curves (`main.js:64`, `main.js:72-88`) are cosmetic. They appear as `Orbit(role, frame)` labels and not as numbers.
- Carousel.Frame: records which role and frame last wrote a pose, not the numbers. An `Orbit` rotation can numerically equal the identity: the incoming model's rotation `(1 - Math.sin(progress * Math.PI)) * 2 * Math.PI` (`main.js:88`) is exactly 0 at frame 45, where `Math.sin(0.5 * Math.PI)` is 1. An `Orbit` position cannot, because it lies on a circle of radius 5.
- Carousel.Frame: models `progress < 1.0`, with `progress = transitionProgress / 90` in floating point, as the integer comparison `transitionProgress < 90`. The two agree for every integer counter.
- Carousel.Frame and AsWritten.FrameAsWritten: the counter is an unbounded integer. JavaScript numbers lose integer precision above 2^53, which only the never-committing paths could reach.
- `maxSlides` is a state field of any value, not the constant 3. `AsWritten.FrameAsWritten` requires it to be positive, which the source's three paths guarantee.
- DOM event registration (`addEventListener`, `getElementById`): the two handlers are the function `Carousel.Request`, called with `Prev` or `Next`.
