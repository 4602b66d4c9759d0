# fightstick-view-rs: input normalisation and bounded history

The viewer reads gamepad events from gilrs and draws a fight-stick overlay.
Its logic sits in `main` of `src/main.rs`. Each frame clones the newest input
state from the history. It folds every pending event into that copy, pushes
the result and evicts the oldest entry once the history holds 24 states.
The renderer then lights an eight-slot button grid from the newest state.

This model covers that logic:

- `events.dfy` (module `Events`): gilrs `Button`, `Axis` and `EventType`.
  Analog values are `real`. Timestamps, gamepad ids and the per-event `Code`
  are dropped.
- `normalize.dfy` (module `Normalize`): `FSAxis` and `FSState`, and the
  per-event policy. The policy is given as specification functions
  (`OnButtonChanged`, `OnAxisChanged`, `Step`, `Fold`). The imperative arms of
  the event `match` (`ApplyButtonChanged`, `ApplyAxisChanged`) are proved
  equal to them. The module also holds lemmas on toggling, trigger duplicates,
  trigger release and disconnects.
- `history.dfy` (module `FrameLoop`): the `History` class over a
  `seq<FSState>` field. `Frame` runs one frame's `while` loop over the
  already-drained events, clears on `Disconnected`, pushes and evicts.
  `Session` runs frames one after another. Both are proved against
  `FrameResult` and `Run`, with lemmas for the length bound, eviction and
  disconnect behaviour.
- `grid.dfy` (module `ButtonGrid`): the slot-lighting condition.

Where the code departs from an idempotent, duplicate-free button set, the
model follows the code:

- A repeated above-threshold press of a held button removes it. It is not an
  idempotent no-op (`RepeatedPressToggles`).
- Trigger axes append `LeftTrigger2`/`RightTrigger2` without a presence check,
  so the button list can hold duplicates (`TriggerPressDuplicates`). A
  duplicate-free list is guaranteed only for batches without a trigger press
  (`NoDupUnlessTriggerPress`).
- A plain button that is present is removed by any event, not only by one at
  or below 0.25.
- `Disconnected` clears the history, but the frame still pushes its folded
  state. Events later in the same batch therefore apply to the zero state
  (`FrameWithDisconnect`). The history is `[Zero]` when the disconnect is the
  batch's last event. In general it is `[Fold(Zero, b)]`, where b is the
  events after the last disconnect.

## Model

| member | source | states |
|---|---|---|
| `Normalize.Quantize` | src/main.rs:76-79 | result is -1, 0 or 1; 0 exactly when -0.25 <= val <= 0.25, 1 exactly above 0.25, -1 exactly below -0.25 |
| `Normalize.Without` | src/main.rs:68 | every copy of the button is removed and every other entry's count is kept (multiset); list unchanged if the button is absent; a duplicate-free list stays duplicate-free |
| `Normalize.WithoutAppend` | src/main.rs:68 | removal distributes over concatenation, so the order of the kept entries is preserved |
| `Normalize.OnButtonChanged` | src/main.rs:49-69 | d-pad Left/Right: x is -1/+1 exactly for that button above 0.25, 0 exactly at or below 0.25, and y and the list are unchanged; Down/Up do the same for y; a plain button is held afterwards exactly when val > 0.25 and it was absent, it is appended at the end or all its copies are removed, other buttons and the axis are unchanged; no duplicates created; axis stays in range |
| `Normalize.OnAxisChanged` | src/main.rs:73-92 | DPadX/LeftStickX set x to Quantize(val), DPadY/LeftStickY set y, the rest unchanged; LeftZ/RightZ above 0.25 append LeftTrigger2/RightTrigger2 unconditionally; at or below 0.25 either axis removes LeftTrigger2 if present, else RightTrigger2; axis values kept; the other axes change nothing |
| `Normalize.ApplyButtonChanged` | src/main.rs:53-69 | the imperative ButtonChanged arm yields exactly OnButtonChanged |
| `Normalize.ApplyAxisChanged` | src/main.rs:76-92 | the imperative AxisChanged arm yields exactly OnAxisChanged |
| `Normalize.Step` | src/main.rs:47-105 | Disconnected yields the zero state; ButtonPressed/Repeated/Released, Connected and Dropped change nothing; the axis stays in {-1,0,1} |
| `Normalize.Fold` | src/main.rs:43-106 | folding a batch keeps the axis in {-1,0,1}; a batch ending in Disconnected yields the zero state |
| `Normalize.FoldAppend` | src/main.rs:43-106 | folding a concatenated batch folds the second part over the result of the first |
| `Normalize.FoldAfterDisconnect` | src/main.rs:94-103 | events after a Disconnected are applied to the zero state, whatever came before |
| `Normalize.NoDupUnlessTriggerPress` | src/main.rs:65-91 | with no trigger press (LeftZ/RightZ above 0.25) in the batch, a duplicate-free list stays duplicate-free |
| `Normalize.DeadZoneBoundary` | src/main.rs:77 | 0.25 and -0.25 give 0, 0.2501 gives 1, -0.26 gives -1 |
| `Normalize.RepeatedPressToggles` | src/main.rs:65-68 | the first press appends the button; a second press above 0.25 removes it, restoring the state |
| `Normalize.TriggerPressDuplicates` | src/main.rs:80-83 | two LeftZ presses give [LeftTrigger2, LeftTrigger2], a list with a duplicate |
| `Normalize.TriggerReleaseFirstMatch` | src/main.rs:87-91 | a RightZ release with both virtual trigger buttons held clears LeftTrigger2 and keeps RightTrigger2 |
| `Normalize.DPadReleaseOfEitherZeroes` | src/main.rs:54-59 | DPadLeft at 0.5 sets x to -1; a release of either DPadLeft or DPadRight then sets x to 0 |
| `FrameLoop.PushEvict` | src/main.rs:108-112 | the pushed state is last; below capacity the result is h + [s]; when the push reaches 24 exactly index 0 goes (h[1..] + [s]); a history below 24 stays below 24 |
| `FrameLoop.FrameResult` | src/main.rs:40-112 | a history of 1..23 entries stays at 1..23 after a frame; its newest entry is the batch folded over the previous newest entry |
| `FrameLoop.FrameWithoutDisconnect` | src/main.rs:108-112 | without a disconnect the frame appends the folded state and evicts only the oldest entry, only when the push reaches 24 |
| `FrameLoop.FrameWithDisconnect` | src/main.rs:94-108 | a frame containing a Disconnected leaves exactly [the events after it folded over the zero state] |
| `FrameLoop.DisconnectScenario` | src/main.rs:94-108 | South press, stick x to 1.0 and back, then Disconnected in one frame leaves the history [Zero] |
| `FrameLoop.Run` | src/main.rs:39-112 | the history after any sequence of frames is non-empty |
| `FrameLoop.RunBounded` | src/main.rs:39-112 | a history of 1..23 entries stays at 1..23 over any sequence of frames |
| `FrameLoop.RunAppend` | src/main.rs:39-112 | running two frame sequences one after the other equals running their concatenation |
| `FrameLoop.SessionBounded` | src/main.rs:27-30 | from the seeded history [Zero], every sequence of frames leaves 1..23 entries, so the `last().unwrap()` calls never fail |
| `FrameLoop.History.Latest` | src/main.rs:129 | the newest entry, which is a member of the history; defined whenever Valid() holds, so the unwrap never fails |
| `FrameLoop.History.constructor` | src/main.rs:27-30 | the history starts as exactly one zero state |
| `FrameLoop.History.Frame` | src/main.rs:40-112 | the event loop, clear, push and evict leave the history equal to FrameResult of the old history, still 1..23 long; the newest entry is the batch folded over the old newest |
| `FrameLoop.History.Session` | src/main.rs:39-112 | consecutive frames leave the history equal to Run of the old history and keep it 1..23 long |
| `ButtonGrid.SlotLit` | src/main.rs:129-137 | slot i is lit exactly when 0 <= i < 8 and the list holds the slot's button, in the order North, South, West, East, RightTrigger, RightTrigger2, LeftTrigger, LeftTrigger2 |
| `ButtonGrid.LitDependsOnMembership` | src/main.rs:129-137 | two lists with the same members light the same slots, whatever their order or duplicates |
| `ButtonGrid.SlotsAreDistinct` | src/main.rs:124-137 | distinct slots show distinct buttons, and no slot shows a d-pad button |
| `ButtonGrid.LitAfterFrame` | src/main.rs:129-137 | after a frame, slot i is lit exactly when the state folded in that frame holds slot i's button |

## Left out

- Window setup, the frame-rate target, drawing calls, circle positions and
  the debug text dump (src/main.rs:20-25, 115-153). These are rendering
  through foreign calls.
- gilrs initialisation and the start-up listing of gamepads
  (src/main.rs:18, 33-35). These are device I/O.
- Polling with `next_event`. A frame receives its drained events as a `seq`.
- The `window_should_close` loop. `Session` runs a given finite sequence of
  frames instead.
- Floating point. Analog values are `real`, so NaN, `signum(-0.0)` and
  rounding are not modelled. The axis fields are `int`, not `i8`. The
  saturating `as i8` cast never matters, because the product it converts is
  always -1, 0 or 1.
- Event timestamps, gamepad ids and the per-event `Code`, which no pattern reads.
- gilrs event kinds other than those listed in `Events.Event` behave like
  them under the `_` arm, and are not modelled separately.
