/**
  The slide-transition state machine of the model carousel (main.js).

  The carousel shows one loaded model at a time. A "prev" or "next" click
  starts a transition unless one is already in flight; every animation frame
  then advances a frame counter, moves the outgoing and the incoming model
  along a circular path, and after `TransitionDuration` frames commits the
  new current slide and puts every model back at rest.

  The floating-point pose curves are cosmetic: a model's position and
  rotation are recorded only as "at rest" (the identity pose the loader and
  the commit write) or as "written by the animation on frame f in role r".
 */
module Carousel {
  import opened JsArith

  /** Frames a transition lasts (main.js:31). */
  const TransitionDuration: nat := 90

  /** The two buttons: -1 ("prev") and +1 ("next"). */
  datatype Direction = Prev | Next

  function Delta(d: Direction): int {
    match d
    case Prev => -1
    case Next => 1
  }

  /** The other button. */
  function Opposite(d: Direction): Direction {
    match d
    case Prev => Next
    case Next => Prev
  }

  /** Which of the two animated models a pose write belongs to. */
  datatype Role = Outgoing | Incoming

  /** The last value written to a position or a rotation. */
  datatype Placement =
    | Rest                          // the identity, set(0, 0, 0)
    | Orbit(role: Role, frame: nat) // the animation's curve value at `frame`

  /** One loaded model: its visibility flag and its pose. */
  datatype Slot = Slot(visible: bool, position: Placement, rotation: Placement)

  predicate AtRest(slot: Slot) {
    slot.position == Rest && slot.rotation == Rest
  }

  /**
    The carousel's module-level variables: `isTransitioning`,
    `transitionProgress`, `currentSlide`, `transitionDirection`, `maxSlides`
    (the number of configured model paths) and `models`.
   */
  datatype State = State(
    transitioning: bool,
    progress: nat,
    slide: nat,
    direction: Direction,
    maxSlides: nat,
    slots: seq<Slot>)

  /** Once any model is loaded, the current slide names one of them. */
  predicate Wf(s: State) {
    |s.slots| == 0 || s.slide < |s.slots|
  }

  /**
    The neighbour of `slide` in direction `d` on a ring of `n` slides,
    computed as the source does, `(slide + d + n) % n` with JavaScript's `%`.
   */
  function NextIndex(slide: nat, d: Direction, n: nat): (k: nat)
    requires slide < n
    ensures k < n
    ensures k == (slide + Delta(d)) % n
    ensures d == Next ==> k == (if slide + 1 == n then 0 else slide + 1)
    ensures d == Prev ==> k == (if slide == 0 then n - 1 else slide - 1)
  {
    JsRemAgreesOnNonNegative(slide + Delta(d) + n, n);
    RingMod(slide + Delta(d) + n, n);
    RingMod(slide + Delta(d), n);
    JsRem(slide + Delta(d) + n, n)
  }

  /** The slide the transition in flight moves to. */
  function Upcoming(s: State): nat
    requires Wf(s) && |s.slots| > 0
  {
    NextIndex(s.slide, s.direction, |s.slots|)
  }

  /** The next frame of `s` moves the two models without committing. */
  predicate Animating(s: State) {
    s.transitioning && |s.slots| > 0 && s.progress + 1 < TransitionDuration
  }

  /** The next frame of `s` commits the transition. */
  predicate Committing(s: State) {
    s.transitioning && |s.slots| > 0 && s.progress + 1 >= TransitionDuration
  }

  /**
    A click on "prev" (`d == Prev`) or "next" (`d == Next`): ignored while a
    transition is in flight, otherwise starts one from frame 0.
   */
  function Request(s: State, d: Direction): (r: State)
    ensures s.transitioning ==> r == s
    ensures !s.transitioning ==> r.transitioning && r.progress == 0 && r.direction == d
    ensures r.slide == s.slide && r.slots == s.slots && r.maxSlides == s.maxSlides
    ensures Wf(s) ==> Wf(r)
  {
    if s.transitioning then s
    else s.(transitioning := true, progress := 0, direction := d)
  }

  /**
    The pose writes of one animation frame, in the order the source performs
    them: position of the current and of the next model, rotation of the
    current and of the next model, then the current model's visibility. When
    the ring has one slide, `cur == nx` and the incoming writes win.
   */
  function PoseSlots(slots: seq<Slot>, cur: nat, nx: nat, frame: nat): (r: seq<Slot>)
    requires cur < |slots| && nx < |slots|
    ensures |r| == |slots|
    ensures forall i :: 0 <= i < |slots| && i != cur && i != nx ==> r[i] == slots[i]
    ensures r[cur].visible == (frame < TransitionDuration)
    ensures nx != cur ==> r[nx].visible == slots[nx].visible
    ensures r[nx].position == Orbit(Incoming, frame) && r[nx].rotation == Orbit(Incoming, frame)
    ensures nx != cur ==> r[cur].position == Orbit(Outgoing, frame) && r[cur].rotation == Orbit(Outgoing, frame)
  {
    var a := slots[cur := slots[cur].(position := Orbit(Outgoing, frame))];
    var b := a[nx := a[nx].(position := Orbit(Incoming, frame))];
    var c := b[cur := b[cur].(rotation := Orbit(Outgoing, frame))];
    var e := c[nx := c[nx].(rotation := Orbit(Incoming, frame))];
    e[cur := e[cur].(visible := frame < TransitionDuration)]
  }

  /** The commit's reset of all `n` models: at rest, only `shown` visible. */
  function Settle(n: nat, shown: nat): (r: seq<Slot>)
    ensures |r| == n
    ensures forall i :: 0 <= i < n ==> AtRest(r[i]) && (r[i].visible <==> i == shown)
  {
    seq(n, i => Slot(i == shown, Rest, Rest))
  }

  /**
    One animation frame (performTransition), with the next index taken on
    the ring of LOADED models. When every configured model loaded this is
    the source's frame exactly; see AsWritten.FrameAsWritten for the frame
    that wraps over the configured count instead.
   */
  function Frame(s: State): (r: State)
    requires Wf(s)
    ensures Wf(r)
    ensures r.maxSlides == s.maxSlides && |r.slots| == |s.slots|
    // not transitioning: nothing at all changes
    ensures !s.transitioning ==> r == s
    // nothing loaded yet: the counter still advances, nothing else does
    ensures s.transitioning && |s.slots| == 0 ==> r == s.(progress := s.progress + 1)
    // an ordinary frame: one more frame counted, only two models touched
    ensures Animating(s) ==>
      && r.transitioning && r.progress == s.progress + 1
      && r.slide == s.slide && r.direction == s.direction
    ensures Animating(s) ==>
      forall i :: 0 <= i < |s.slots| && i != s.slide && i != Upcoming(s) ==> r.slots[i] == s.slots[i]
    ensures Animating(s) ==> r.slots[s.slide].visible
    ensures Animating(s) && Upcoming(s) != s.slide ==>
      && r.slots[Upcoming(s)].visible == s.slots[Upcoming(s)].visible
      && r.slots[s.slide].position == Orbit(Outgoing, r.progress)
    ensures Animating(s) ==> r.slots[Upcoming(s)].position == Orbit(Incoming, r.progress)
    // the committing frame: idle again at the neighbour, all models at rest, only it shown
    ensures Committing(s) ==>
      && !r.transitioning && r.progress == 0
      && r.slide == Upcoming(s) && r.direction == s.direction
    ensures Committing(s) ==>
      forall i :: 0 <= i < |r.slots| ==> AtRest(r.slots[i]) && (r.slots[i].visible <==> i == r.slide)
  {
    if !s.transitioning then s
    else
      var frame := s.progress + 1;
      if |s.slots| == 0 then s.(progress := frame)
      else
        var nx := NextIndex(s.slide, s.direction, |s.slots|);
        var posed := PoseSlots(s.slots, s.slide, nx, frame);
        if frame >= TransitionDuration then
          s.(transitioning := false, progress := 0, slide := nx, slots := Settle(|posed|, nx))
        else
          s.(progress := frame, slots := posed)
  }

  /**
    The models once the loads listed in `order` (path indices, in
    completion order) have finished, CORRECTED: all at rest, and only the
    first model to arrive, which is slot 0 and so the current slide,
    visible. main.js:53 instead shows the model whose path index is 0,
    wherever it landed; that literal load is AsWritten.LoadAsWritten.
   */
  function Load(order: seq<nat>): (slots: seq<Slot>)
    ensures |slots| == |order|
    ensures forall i :: 0 <= i < |slots| ==> AtRest(slots[i]) && (slots[i].visible <==> i == 0)
  {
    Settle(|order|, 0)
  }

  /**
    The carousel at start-up with `pathCount` model paths configured: idle,
    counter 0, on slide 0, direction +1, over the corrected load above.
   */
  function Initial(pathCount: nat, order: seq<nat>): (r: State)
    ensures !r.transitioning && r.progress == 0 && r.slide == 0
    ensures r.direction == Next && r.maxSlides == pathCount
    ensures |r.slots| == |order| && r.slots == Load(order)
  {
    State(false, 0, 0, Next, pathCount, Load(order))
  }
}
