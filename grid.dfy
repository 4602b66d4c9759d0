/** The renderer's eight-slot button grid: which slots are drawn lit for the
    newest input state. Circle positions and colours are drawing details and
    are not modelled. */
module ButtonGrid {
  import opened Events
  import opened Normalize
  import opened FrameLoop

  /** The button shown in each slot, slot 0 first. */
  const SlotOrder: seq<Button> :=
    [North, South, West, East, RightTrigger, RightTrigger2, LeftTrigger, LeftTrigger2]

  /** The slot condition of the grid loop, written as the source's disjunction. */
  function SlotLit(btns: seq<Button>, i: int): (lit: bool)
    ensures lit <==> 0 <= i < |SlotOrder| && SlotOrder[i] in btns
  {
    (North in btns && i == 0)
    || (South in btns && i == 1)
    || (West in btns && i == 2)
    || (East in btns && i == 3)
    || (RightTrigger in btns && i == 4)
    || (RightTrigger2 in btns && i == 5)
    || (LeftTrigger in btns && i == 6)
    || (LeftTrigger2 in btns && i == 7)
  }

  /** Lighting depends only on which buttons are held, not on their order
      or on how often an entry is repeated. */
  lemma LitDependsOnMembership(a: seq<Button>, b: seq<Button>, i: int)
    requires forall c :: c in a <==> c in b
    ensures SlotLit(a, i) == SlotLit(b, i)
  {
  }

  /** A held button lights at most one slot, and no slot belongs to a d-pad button. */
  lemma SlotsAreDistinct(i: int, j: int)
    requires 0 <= i < |SlotOrder| && 0 <= j < |SlotOrder|
    ensures SlotOrder[i] == SlotOrder[j] ==> i == j
    ensures !SlotOrder[i].IsDPad()
  {
  }

  /** Slot `i` of the grid drawn after a frame: lit exactly when the state
      that frame pushed holds the slot's button. */
  lemma LitAfterFrame(h: seq<FSState>, events: seq<Event>, i: int)
    requires |h| >= 1
    ensures var r := FrameResult(h, events);
      SlotLit(r[|r| - 1].buttons, i) <==>
      0 <= i < |SlotOrder| && SlotOrder[i] in Fold(h[|h| - 1], events).buttons
  {
  }
}
