/**
  The carousel over time: frames run back to back, clicks interleaved with
  frames, the invariant every reachable state keeps, and what a whole
  transition does.
 */
module CarouselRun {
  import opened Carousel

  /** `k` consecutive animation frames. */
  function Run(s: State, k: nat): (r: State)
    requires Wf(s)
    ensures Wf(r)
    ensures r.maxSlides == s.maxSlides && |r.slots| == |s.slots|
    decreases k
  {
    if k == 0 then s else Run(Frame(s), k - 1)
  }

  /** A click on one of the two buttons, or one animation frame. */
  datatype Event = Click(d: Direction) | Tick

  function Step(s: State, e: Event): (r: State)
    requires Wf(s)
    ensures Wf(r)
  {
    match e
    case Click(d) => Request(s, d)
    case Tick => Frame(s)
  }

  /** Any interleaving of clicks and frames, in order. */
  function Replay(s: State, events: seq<Event>): (r: State)
    requires Wf(s)
    ensures Wf(r)
    ensures |r.slots| == |s.slots|
    ensures |r.slots| > 0 ==> r.slide < |r.slots|
    decreases |events|
  {
    if |events| == 0 then s else Replay(Step(s, events[0]), events[1..])
  }

  /** A click followed by a whole transition's worth of frames. */
  function Complete(s: State, d: Direction): State
    requires Wf(s)
  {
    Run(Request(s, d), TransitionDuration)
  }

  /**
    What every reachable state satisfies: the counter is 0 while idle and
    below the duration while animating; exactly the current model is
    visible; no model other than the current and the next one is off rest,
    and none is while idle.
   */
  predicate Inv(s: State) {
    && Wf(s)
    && (!s.transitioning ==> s.progress == 0)
    && (|s.slots| > 0 ==>
          && (s.transitioning ==> s.progress < TransitionDuration)
          && (forall i :: 0 <= i < |s.slots| ==> (s.slots[i].visible <==> i == s.slide))
          && (forall i :: 0 <= i < |s.slots| && i != s.slide && i != Upcoming(s) ==> AtRest(s.slots[i]))
          && (!s.transitioning ==> forall i :: 0 <= i < |s.slots| ==> AtRest(s.slots[i])))
  }

  lemma InitialInv(pathCount: nat, order: seq<nat>)
    ensures Inv(Initial(pathCount, order))
  {
  }

  lemma RequestKeepsInv(s: State, d: Direction)
    requires Inv(s)
    ensures Inv(Request(s, d))
  {
  }

  lemma FrameKeepsInv(s: State)
    requires Inv(s)
    ensures Inv(Frame(s))
  {
  }

  lemma {:induction false} ReplayKeepsInv(s: State, events: seq<Event>)
    requires Inv(s)
    ensures Inv(Replay(s, events))
    decreases |events|
  {
    if |events| > 0 {
      match events[0] {
        case Click(d) => RequestKeepsInv(s, d);
        case Tick => FrameKeepsInv(s);
      }
      ReplayKeepsInv(Step(s, events[0]), events[1..]);
    }
  }

  /** A second click while a transition is in flight changes nothing. */
  lemma RequestIgnoredInFlight(s: State, first: Direction, second: Direction)
    ensures Request(Request(s, first), second) == Request(s, first)
  {
  }

  /** Frames while idle change nothing. */
  lemma {:induction false} RunIdle(s: State, k: nat)
    requires Wf(s) && !s.transitioning
    ensures Run(s, k) == s
    decreases k
  {
    if k > 0 {
      RunIdle(Frame(s), k - 1);
    }
  }

  /** With no model loaded, frames only count: the transition never commits. */
  lemma {:induction false} RunWithoutModels(s: State, k: nat)
    requires s.transitioning && |s.slots| == 0
    ensures Run(s, k) == s.(progress := s.progress + k)
    decreases k
  {
    if k > 0 {
      RunWithoutModels(Frame(s), k - 1);
    }
  }

  /** Before the duration is reached the transition is still in flight, `k` frames further on. */
  lemma {:induction false} RunAnimating(s: State, k: nat)
    requires Wf(s) && s.transitioning && |s.slots| > 0
    requires s.progress + k < TransitionDuration
    ensures Run(s, k).transitioning
    ensures Run(s, k).progress == s.progress + k
    ensures Run(s, k).slide == s.slide && Run(s, k).direction == s.direction
    decreases k
  {
    if k > 0 {
      RunAnimating(Frame(s), k - 1);
    }
  }

  /** The frame that brings the counter to the duration commits the neighbour. */
  lemma {:induction false} RunCommits(s: State, k: nat)
    requires Wf(s) && s.transitioning && |s.slots| > 0
    requires k > 0 && s.progress + k == TransitionDuration
    ensures !Run(s, k).transitioning && Run(s, k).progress == 0
    ensures Run(s, k).slide == Upcoming(s) && Run(s, k).direction == s.direction
    ensures forall i :: 0 <= i < |s.slots| ==>
      AtRest(Run(s, k).slots[i]) && (Run(s, k).slots[i].visible <==> i == Upcoming(s))
    decreases k
  {
    if k > 1 {
      RunCommits(Frame(s), k - 1);
    }
  }

  /**
    A click while idle, then frames: after `k < 90` frames the carousel is
    still transitioning with the counter at `k`; after exactly 90 it is idle
    at the neighbour with the counter back at 0.
   */
  lemma TransitionTiming(s: State, d: Direction, k: nat)
    requires Wf(s) && !s.transitioning && |s.slots| > 0
    ensures k < TransitionDuration ==>
      Run(Request(s, d), k).transitioning && Run(Request(s, d), k).progress == k
      && Run(Request(s, d), k).slide == s.slide
    ensures k == TransitionDuration ==>
      !Run(Request(s, d), k).transitioning && Run(Request(s, d), k).progress == 0
      && Run(Request(s, d), k).slide == NextIndex(s.slide, d, |s.slots|)
  {
    if k < TransitionDuration {
      RunAnimating(Request(s, d), k);
    } else if k == TransitionDuration {
      RunCommits(Request(s, d), k);
    }
  }

  /**
    A whole transition from an idle state: idle again at the neighbour in
    direction `d`, every model at rest and only the new current one shown.
   */
  lemma CompleteMovesOne(s: State, d: Direction)
    requires Wf(s) && !s.transitioning && |s.slots| > 0
    ensures !Complete(s, d).transitioning && Complete(s, d).progress == 0
    ensures Complete(s, d).slide == NextIndex(s.slide, d, |s.slots|)
    ensures Complete(s, d).direction == d && Complete(s, d).maxSlides == s.maxSlides
    ensures |Complete(s, d).slots| == |s.slots|
    ensures forall i :: 0 <= i < |s.slots| ==>
      AtRest(Complete(s, d).slots[i]) && (Complete(s, d).slots[i].visible <==> i == Complete(s, d).slide)
  {
    RunCommits(Request(s, d), TransitionDuration);
  }

  /** Two idle invariant states on the same slide with the same models count are equal up to their remembered direction. */
  lemma IdleDeterminedBySlide(a: State, b: State)
    requires Inv(a) && Inv(b) && !a.transitioning && !b.transitioning
    requires a.slide == b.slide && |a.slots| == |b.slots| > 0 && a.maxSlides == b.maxSlides
    ensures a.(direction := b.direction) == b
  {
    assert a.slots == b.slots by {
      forall i | 0 <= i < |a.slots|
        ensures a.slots[i] == b.slots[i]
      {
      }
    }
  }

  /**
    A transition run to completion and then one in the opposite direction
    run to completion give back the starting carousel ("prev" then "next",
    or "next" then "prev"), except that the last direction pressed is
    remembered.
   */
  lemma CompleteThenBackRestores(s: State, d: Direction)
    requires Inv(s) && !s.transitioning && |s.slots| > 0
    ensures Complete(Complete(s, d), Opposite(d)) == s.(direction := Opposite(d))
  {
    var there := Complete(s, d);
    CompleteMovesOne(s, d);
    var back := Complete(there, Opposite(d));
    CompleteMovesOne(there, Opposite(d));
    IdleDeterminedBySlide(back, s.(direction := Opposite(d)));
  }
}
