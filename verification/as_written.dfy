/**
  The two places where main.js, read literally, departs from what the
  carousel evidently means to do, each next to the corrected definition the
  rest of the model uses.

  1. performTransition wraps the next index over `maxSlides`, the number of
     configured model paths, but `models` holds only the models that loaded.
     After a failed load `models[nextModelIndex]` can be `undefined`; the
     first property write on it throws a TypeError, every later frame throws
     again, and the transition never commits. Carousel.Frame wraps over the
     loaded models instead.
  2. A loaded model is pushed in completion order but made visible by its
     path index, so when path 0 is not the first to arrive, the current
     slide (slot 0) is hidden. Carousel.Load shows the first model to
     arrive.
 */
module AsWritten {
  import opened JsArith
  import opened Carousel
  import opened CarouselRun

  /** How a frame ends: normally, or with a TypeError thrown part way. */
  datatype FrameOutcome = Finished(state: State) | Threw(state: State)

  /**
    performTransition as written. An index at or past the number of loaded
    models reads `undefined`; writing the current model's position then
    throws at once, and writing the next model's position throws after the
    current model's position has been written.
   */
  function FrameAsWritten(s: State): (r: FrameOutcome)
    requires s.maxSlides > 0
    ensures !s.transitioning ==> r == Finished(s)
    ensures s.transitioning && |s.slots| == 0 ==> r == Finished(s.(progress := s.progress + 1))
    ensures r.Threw? ==>
      && s.transitioning && |s.slots| > 0
      && r.state.transitioning && r.state.progress == s.progress + 1
      && r.state.slide == s.slide && r.state.direction == s.direction
      && r.state.maxSlides == s.maxSlides && |r.state.slots| == |s.slots|
    ensures r.state.maxSlides == s.maxSlides
    // a frame that leaves the flag set counted one more frame, thrown or not
    ensures r.state.transitioning ==> s.transitioning && r.state.progress == s.progress + 1
  {
    if !s.transitioning then Finished(s)
    else
      var frame := s.progress + 1;
      if |s.slots| == 0 then Finished(s.(progress := frame))
      else
        var cur := s.slide;
        var nx := JsRem(cur + Delta(s.direction) + s.maxSlides, s.maxSlides);
        if cur >= |s.slots| then
          Threw(s.(progress := frame))
        else if nx >= |s.slots| then
          Threw(s.(progress := frame, slots := s.slots[cur := s.slots[cur].(position := Orbit(Outgoing, frame))]))
        else
          var posed := PoseSlots(s.slots, cur, nx, frame);
          if frame >= TransitionDuration then
            Finished(s.(transitioning := false, progress := 0, slide := nx, slots := Settle(|posed|, nx)))
          else
            Finished(s.(progress := frame, slots := posed))
  }

  /**
    Frames as the render loop runs them: `animate` schedules the next frame
    before calling performTransition, so a thrown frame is followed by the
    next one, from the state the throw left behind.
   */
  function RunAsWritten(s: State, k: nat): (r: State)
    requires s.maxSlides > 0
    ensures r.maxSlides == s.maxSlides
    ensures !s.transitioning ==> r == s
    // still in flight after k frames: every one of them counted, none committed
    ensures r.transitioning ==> s.transitioning && r.progress == s.progress + k
    decreases k
  {
    if k == 0 then s else RunAsWritten(FrameAsWritten(s).state, k - 1)
  }

  /** When no load failed (or none finished yet), the source's frame is Carousel.Frame. */
  lemma AsWrittenAgreesWhenLoaded(s: State)
    requires Wf(s) && s.maxSlides > 0
    requires |s.slots| == 0 || |s.slots| == s.maxSlides
    ensures FrameAsWritten(s) == Finished(Frame(s))
  {
  }

  /**
    With some loads failed, the two frames still agree on every frame the
    source finishes: they differ only where the source throws.
   */
  lemma AsWrittenAgreesUnlessThrows(s: State)
    requires Wf(s) && s.maxSlides > 0 && |s.slots| <= s.maxSlides
    ensures FrameAsWritten(s).Finished? ==> FrameAsWritten(s) == Finished(Frame(s))
  {
    if |s.slots| > 0 {
      JsRemAgreesOnNonNegative(s.slide + Delta(s.direction) + s.maxSlides, s.maxSlides);
      RingMod(s.slide + Delta(s.direction) + s.maxSlides, s.maxSlides);
    }
  }

  /** When no load failed, whole runs of frames agree too. */
  lemma {:induction false} RunAsWrittenAgreesWhenLoaded(s: State, k: nat)
    requires Wf(s) && s.maxSlides > 0
    requires |s.slots| == 0 || |s.slots| == s.maxSlides
    ensures RunAsWritten(s, k) == Run(s, k)
    decreases k
  {
    if k > 0 {
      AsWrittenAgreesWhenLoaded(s);
      RunAsWrittenAgreesWhenLoaded(Frame(s), k - 1);
    }
  }

  /**
    The carousel stuck after one failed load: one model short, at slide 0,
    a "prev" transition in flight. Every frame throws, the counter grows
    without bound, and the transition never commits.
   */
  predicate StuckAfterFailedLoad(s: State) {
    && s.maxSlides == |s.slots| + 1
    && |s.slots| > 0
    && s.transitioning && s.slide == 0 && s.direction == Prev
  }

  lemma {:induction false} FailedLoadFreezesTransition(s: State, k: nat)
    requires StuckAfterFailedLoad(s)
    ensures FrameAsWritten(s).Threw?
    ensures StuckAfterFailedLoad(RunAsWritten(s, k))
    ensures RunAsWritten(s, k).progress == s.progress + k
    decreases k
  {
    JsRemAgreesOnNonNegative(s.maxSlides - 1, s.maxSlides);
    RingMod(s.maxSlides - 1, s.maxSlides);
    if k > 0 {
      FailedLoadFreezesTransition(FrameAsWritten(s).state, k - 1);
    }
  }

  /**
    The concrete input: three paths, one of them failing (`order` lists the
    two that loaded), "prev" clicked at start-up. The source's frames leave
    the transition stuck for good; the corrected frame lands on slide 1.
   */
  lemma ThreePathsOneFailed(order: seq<nat>, k: nat)
    requires |order| == 2
    ensures FrameAsWritten(Request(InitialAsWritten(3, order), Prev)).Threw?
    ensures RunAsWritten(Request(InitialAsWritten(3, order), Prev), k).transitioning
    ensures RunAsWritten(Request(InitialAsWritten(3, order), Prev), k).progress == k
    ensures !Complete(Initial(3, order), Prev).transitioning
    ensures Complete(Initial(3, order), Prev).slide == 1
  {
    FailedLoadFreezesTransition(Request(InitialAsWritten(3, order), Prev), k);
    CompleteMovesOne(Initial(3, order), Prev);
  }

  /**
    The corrected frame on the same state commits: with one model short,
    a whole "prev" transition from slide 0 lands on the last LOADED model.
   */
  lemma FailedLoadStillCycles(s: State)
    requires Inv(s) && !s.transitioning && |s.slots| > 0 && s.slide == 0
    ensures !Complete(s, Prev).transitioning
    ensures Complete(s, Prev).slide == |s.slots| - 1
    ensures Inv(Complete(s, Prev))
  {
    CompleteMovesOne(s, Prev);
  }

  /**
    The models after loading as written: slot i is the i-th model to
    arrive, made visible when its PATH index (`order[i]`) is 0.
   */
  function LoadAsWritten(order: seq<nat>): (slots: seq<Slot>)
    ensures |slots| == |order|
    ensures forall i :: 0 <= i < |slots| ==> AtRest(slots[i]) && (slots[i].visible <==> order[i] == 0)
  {
    seq(|order|, i requires 0 <= i < |order| => Slot(order[i] == 0, Rest, Rest))
  }

  /**
    The carousel at start-up as written: idle, counter 0, on slide 0,
    direction +1, `pathCount` paths configured, over the literal load.
   */
  function InitialAsWritten(pathCount: nat, order: seq<nat>): (r: State)
    ensures !r.transitioning && r.progress == 0 && r.slide == 0
    ensures r.direction == Next && r.maxSlides == pathCount
    ensures |r.slots| == |order| && r.slots == LoadAsWritten(order)
  {
    State(false, 0, 0, Next, pathCount, LoadAsWritten(order))
  }

  /**
    Whenever path 0 is not the first model to arrive, the current slide is
    hidden at start-up and the invariant fails; if path 0 arrives later, a
    slide other than the current one is shown.
   */
  lemma LateFirstPathHidesCurrent(pathCount: nat, order: seq<nat>)
    requires |order| > 0 && order[0] != 0
    ensures !InitialAsWritten(pathCount, order).slots[0].visible
    ensures !Inv(InitialAsWritten(pathCount, order))
    ensures forall i :: 0 < i < |order| && order[i] == 0 ==>
      InitialAsWritten(pathCount, order).slots[i].visible
  {
  }

  /** The corrected load shows the current slide whatever the completion order. */
  lemma LoadShowsCurrent(pathCount: nat, order: seq<nat>)
    requires |order| > 0
    ensures Initial(pathCount, order).slots[0].visible
    ensures Inv(Initial(pathCount, order))
    ensures forall i :: 0 < i < |order| ==> !Initial(pathCount, order).slots[i].visible
  {
    InitialInv(pathCount, order);
  }
}
