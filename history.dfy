/** The frame loop's bounded history of input states: seeded with one zero
    state, each frame folds that frame's events over a copy of the newest
    entry, pushes the result and drops the oldest entry once the length
    reaches the capacity; a disconnect clears the history mid-frame. */
module FrameLoop {
  import opened Events
  import opened Normalize

  /** `max_history`. */
  const MaxHistory: nat := 24

  /** The length the history keeps between frames: never empty, below capacity. */
  predicate Bounded(h: seq<FSState>) { 1 <= |h| < MaxHistory }

  /** The push followed by the eviction check. */
  function PushEvict(h: seq<FSState>, s: FSState): (r: seq<FSState>)
    ensures |r| >= 1 && r[|r| - 1] == s
    ensures |h| + 1 < MaxHistory ==> r == h + [s]
    ensures |h| + 1 >= MaxHistory ==> r == h[1..] + [s]
    ensures |h| < MaxHistory ==> |r| < MaxHistory
  {
    var pushed := h + [s];
    if |pushed| >= MaxHistory then pushed[1..] else pushed
  }

  /** The history after one frame whose drained events are `events`. */
  function FrameResult(h: seq<FSState>, events: seq<Event>): (r: seq<FSState>)
    requires |h| >= 1
    ensures |r| >= 1 && r[|r| - 1] == Fold(h[|h| - 1], events)
    ensures Bounded(h) ==> Bounded(r)
  {
    PushEvict(if Disconnected in events then [] else h, Fold(h[|h| - 1], events))
  }

  /** The history after a sequence of frames. */
  function Run(h: seq<FSState>, frames: seq<seq<Event>>): (r: seq<FSState>)
    requires |h| >= 1
    ensures |r| >= 1
    decreases |frames|
  {
    if frames == [] then h else Run(FrameResult(h, frames[0]), frames[1..])
  }

  /** A frame without a disconnect appends its folded state, evicting
      exactly the oldest entry when the push reaches the capacity. */
  lemma FrameWithoutDisconnect(h: seq<FSState>, events: seq<Event>)
    requires |h| >= 1
    requires Disconnected !in events
    ensures var s := Fold(h[|h| - 1], events);
      FrameResult(h, events) == if |h| + 1 >= MaxHistory then h[1..] + [s] else h + [s]
  {
  }

  /** After a frame with a disconnect the history holds exactly the working
      state, which is the events after the disconnect folded over zero. */
  lemma FrameWithDisconnect(h: seq<FSState>, a: seq<Event>, b: seq<Event>)
    requires |h| >= 1
    ensures FrameResult(h, a + [Disconnected] + b) == [Fold(Zero, b)]
  {
    var events := a + [Disconnected] + b;
    assert events[|a|] == Disconnected;
    FoldAfterDisconnect(h[|h| - 1], a, b);
  }

  /** The history stays within bounds across any sequence of frames. */
  lemma {:induction false} RunBounded(h: seq<FSState>, frames: seq<seq<Event>>)
    requires Bounded(h)
    ensures Bounded(Run(h, frames))
    decreases |frames|
  {
    if frames != [] {
      RunBounded(FrameResult(h, frames[0]), frames[1..]);
    }
  }

  /** Running frames one after another is running their concatenation. */
  lemma {:induction false} RunAppend(h: seq<FSState>, f: seq<seq<Event>>, g: seq<seq<Event>>)
    requires |h| >= 1
    ensures Run(h, f + g) == Run(Run(h, f), g)
    decreases |f|
  {
    if f == [] {
      assert f + g == g;
    } else {
      assert (f + g)[0] == f[0];
      assert (f + g)[1..] == f[1..] + g;
      RunAppend(FrameResult(h, f[0]), f[1..], g);
    }
  }

  /** From the seeded history, every sequence of frames leaves between 1 and
      23 entries, so reading the newest entry never fails. */
  lemma SessionBounded(frames: seq<seq<Event>>)
    ensures Bounded(Run([Zero], frames))
  {
    RunBounded([Zero], frames);
  }

  /** A press, a stick deflection and its release, then a disconnect, all in
      one frame: the history ends as the single zero state. */
  lemma DisconnectScenario(h: seq<FSState>)
    requires |h| >= 1
    ensures FrameResult(h, [ButtonChanged(South, 1.0), AxisChanged(LeftStickX, 1.0),
                            AxisChanged(LeftStickX, 0.0), Disconnected]) == [Zero]
  {
  }

  /** The history owned by the frame loop, `fs_state_history`. */
  class History {
    var states: seq<FSState>

    ghost predicate Valid()
      reads this
    {
      Bounded(states)
    }

    /** The history seeded with one zero state. */
    constructor ()
      ensures Valid()
      ensures states == [Zero]
    {
      states := [Zero];
    }

    /** `fs_state_history.last()`, which the renderer reads. */
    function Latest(): (r: FSState)
      reads this
      requires Valid()
      ensures r in states && states[|states| - 1] == r
    {
      states[|states| - 1]
    }

    /** One frame: fold the drained events over a copy of the newest state,
        clearing the history on a disconnect, then push and evict. */
    method Frame(events: seq<Event>)
      requires Valid()
      modifies this
      ensures Valid()
      ensures states == FrameResult(old(states), events)
      ensures Latest() == Fold(old(Latest()), events)
    {
      var fs := states[|states| - 1];
      ghost var start := fs;
      var i := 0;
      while i < |events|
        invariant 0 <= i <= |events|
        invariant fs == Fold(start, events[..i])
        invariant states == if Disconnected in events[..i] then [] else old(states)
      {
        FoldPrefixStep(start, events, i);
        match events[i] {
        case ButtonChanged(button, val) =>
          fs := ApplyButtonChanged(fs, button, val);
        case AxisChanged(ax, val) =>
          fs := ApplyAxisChanged(fs, ax, val);
        case Disconnected =>
          states := [];
          fs := Zero;
        case _ =>
        }
        i := i + 1;
      }
      assert events[..|events|] == events;
      states := states + [fs];
      if |states| >= MaxHistory {
        states := states[1..];
      }
    }

    /** Frames run one after another, as the window loop does until closed. */
    method Session(frames: seq<seq<Event>>)
      requires Valid()
      modifies this
      ensures Valid()
      ensures states == Run(old(states), frames)
    {
      var k := 0;
      while k < |frames|
        invariant 0 <= k <= |frames|
        invariant Valid()
        invariant Run(old(states), frames) == Run(states, frames[k..])
      {
        assert frames[k..][0] == frames[k] && frames[k..][1..] == frames[k + 1..];
        Frame(frames[k]);
        k := k + 1;
      }
    }
  }
}
