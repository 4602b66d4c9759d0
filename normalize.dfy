/** The working input state (`FSState`, `FSAxis`) and the policy by which one
    gamepad event changes it: d-pad buttons and stick axes drive the quantised
    axis pair, other buttons toggle entries of the held-button list, analog
    trigger axes add or drop the virtual second-trigger buttons, and a
    disconnect resets everything. */
module Normalize {
  import opened Events

  /** Dead-zone threshold on the analog scale. */
  const DeadZone: real := 0.25

  /** `FSAxis`: the source stores `i8`; every value the code writes is -1, 0 or 1. */
  datatype FSAxis = FSAxis(x: int, y: int)

  /** `FSState`: the axis pair and the held buttons in insertion order. */
  datatype FSState = FSState(axis: FSAxis, buttons: seq<Button>)

  /** The state the history is seeded with and a disconnect resets to. */
  const Zero: FSState := FSState(FSAxis(0, 0), [])

  predicate Level(v: int) { -1 <= v <= 1 }

  predicate AxisInRange(s: FSState) { Level(s.axis.x) && Level(s.axis.y) }

  /** No button identifier occurs twice. */
  predicate NoDup(bs: seq<Button>) { forall c :: multiset(bs)[c] <= 1 }

  /** `f32::signum` on the values modelled here: zero counts as positive. */
  function Signum(v: real): int { if v < 0.0 then -1 else 1 }

  function Abs(v: real): real { if v < 0.0 then -v else v }

  /** The axis quantisation `signum(val) * (|val| > 0.25 ? 1 : 0)`. */
  function Quantize(val: real): (q: int)
    ensures Level(q)
    ensures q == 0 <==> -DeadZone <= val <= DeadZone
    ensures q == 1 <==> val > DeadZone
    ensures q == -1 <==> val < -DeadZone
  {
    Signum(val) * (if Abs(val) > DeadZone then 1 else 0)
  }

  /** `Vec::retain(|c| *c != b)`: every copy of `b` removed, the rest kept in order. */
  function Without(bs: seq<Button>, b: Button): (r: seq<Button>)
    ensures multiset(r) == multiset(bs)[b := 0]
    ensures b !in bs ==> r == bs
    ensures NoDup(bs) ==> NoDup(r)
  {
    if bs == [] then []
    else
      assert bs == [bs[0]] + bs[1..];
      (if bs[0] == b then [] else [bs[0]]) + Without(bs[1..], b)
  }

  /** After `retain` exactly the other buttons of the list are held. */
  lemma WithoutMembers(bs: seq<Button>, b: Button)
    ensures forall c :: c in Without(bs, b) <==> c in bs && c != b
  {
    forall c
      ensures c in Without(bs, b) <==> c in bs && c != b
    {
      assert c in Without(bs, b) <==> multiset(Without(bs, b))[c] > 0;
      assert c in bs <==> multiset(bs)[c] > 0;
    }
  }

  /** `ButtonChanged(b, val)`: the d-pad sets an axis component, any other
      button is appended when pressed and absent, and removed whenever present. */
  function OnButtonChanged(s: FSState, b: Button, val: real): (r: FSState)
    ensures b.IsDPad() ==> r.buttons == s.buttons
    ensures b == DPadLeft || b == DPadRight ==>
      r.axis.y == s.axis.y &&
      (r.axis.x == -1 <==> b == DPadLeft && val > DeadZone) &&
      (r.axis.x == 1 <==> b == DPadRight && val > DeadZone) &&
      (r.axis.x == 0 <==> val <= DeadZone)
    ensures b == DPadDown || b == DPadUp ==>
      r.axis.x == s.axis.x &&
      (r.axis.y == -1 <==> b == DPadDown && val > DeadZone) &&
      (r.axis.y == 1 <==> b == DPadUp && val > DeadZone) &&
      (r.axis.y == 0 <==> val <= DeadZone)
    ensures !b.IsDPad() ==> r.axis == s.axis
    ensures !b.IsDPad() ==> (b in r.buttons <==> val > DeadZone && b !in s.buttons)
    ensures !b.IsDPad() ==> forall c :: c != b ==> (c in r.buttons <==> c in s.buttons)
    ensures !b.IsDPad() && b !in s.buttons && val > DeadZone ==> r.buttons == s.buttons + [b]
    ensures !b.IsDPad() && b in s.buttons ==> r.buttons == Without(s.buttons, b)
    ensures !b.IsDPad() && b !in s.buttons && val <= DeadZone ==> r.buttons == s.buttons
    ensures NoDup(s.buttons) ==> NoDup(r.buttons)
    ensures AxisInRange(s) ==> AxisInRange(r)
  {
    if b.IsDPad() then
      if b in [DPadLeft, DPadRight] then
        s.(axis := s.axis.(x := if val > DeadZone then (if b == DPadLeft then -1 else 1) else 0))
      else
        s.(axis := s.axis.(y := if val > DeadZone then (if b == DPadDown then -1 else 1) else 0))
    else if val > DeadZone && b !in s.buttons then
      s.(buttons := s.buttons + [b])
    else if b in s.buttons then
      WithoutMembers(s.buttons, b);
      s.(buttons := Without(s.buttons, b))
    else
      s
  }

  /** `AxisChanged(ax, val)`: stick and d-pad axes set a quantised component;
      the analog triggers append a virtual trigger button when pressed and,
      when released, clear the first of LeftTrigger2, RightTrigger2 present. */
  function OnAxisChanged(s: FSState, ax: Axis, val: real): (r: FSState)
    ensures ax == DPadX || ax == LeftStickX ==>
      r.axis.x == Quantize(val) && r.axis.y == s.axis.y && r.buttons == s.buttons
    ensures ax == DPadY || ax == LeftStickY ==>
      r.axis.y == Quantize(val) && r.axis.x == s.axis.x && r.buttons == s.buttons
    ensures ax == LeftZ || ax == RightZ ==> r.axis == s.axis
    ensures ax == LeftZ && val > DeadZone ==> r.buttons == s.buttons + [LeftTrigger2]
    ensures ax == RightZ && val > DeadZone ==> r.buttons == s.buttons + [RightTrigger2]
    ensures (ax == LeftZ || ax == RightZ) && val <= DeadZone ==>
      r.buttons == if LeftTrigger2 in s.buttons then Without(s.buttons, LeftTrigger2)
                   else Without(s.buttons, RightTrigger2)
    ensures (ax == LeftZ || ax == RightZ) && val <= DeadZone && NoDup(s.buttons) ==> NoDup(r.buttons)
    ensures ax in {RightStickX, RightStickY, Axis.Unknown} ==> r == s
    ensures AxisInRange(s) ==> AxisInRange(r)
  {
    if ax in [DPadX, LeftStickX] then
      s.(axis := s.axis.(x := Quantize(val)))
    else if ax in [DPadY, LeftStickY] then
      s.(axis := s.axis.(y := Quantize(val)))
    else if ax in [LeftZ, RightZ] then
      if val > DeadZone then
        if ax == LeftZ then s.(buttons := s.buttons + [LeftTrigger2])
        else if ax == RightZ then s.(buttons := s.buttons + [RightTrigger2])
        else s
      else if LeftTrigger2 in s.buttons then
        s.(buttons := Without(s.buttons, LeftTrigger2))
      else if RightTrigger2 in s.buttons then
        s.(buttons := Without(s.buttons, RightTrigger2))
      else
        s
    else
      s
  }

  /** The `ButtonChanged` arm of the frame loop's event match, updating the
      working state field by field. The arms are separate methods so that
      each is proved against its function on its own; inline in the loop the
      proof exceeds the verifier's resource limit. */
  method ApplyButtonChanged(fs: FSState, button: Button, val: real) returns (r: FSState)
    ensures r == OnButtonChanged(fs, button, val)
  {
    r := fs;
    if button.IsDPad() {
      if button in [DPadLeft, DPadRight] {
        if val > DeadZone {
          r := r.(axis := r.axis.(x := if button == DPadLeft then -1 else 1));
        } else {
          r := r.(axis := r.axis.(x := 0));
        }
      } else if val > DeadZone {
        r := r.(axis := r.axis.(y := if button == DPadDown then -1 else 1));
      } else {
        r := r.(axis := r.axis.(y := 0));
      }
    } else if val > DeadZone && button !in r.buttons {
      r := r.(buttons := r.buttons + [button]);
    } else if button in r.buttons {
      r := r.(buttons := Without(r.buttons, button));
    }
  }

  /** The `AxisChanged` arm of the frame loop's event match. */
  method ApplyAxisChanged(fs: FSState, ax: Axis, val: real) returns (r: FSState)
    ensures r == OnAxisChanged(fs, ax, val)
  {
    r := fs;
    if ax in [DPadX, LeftStickX] {
      r := r.(axis := r.axis.(x := Quantize(val)));
    } else if ax in [DPadY, LeftStickY] {
      r := r.(axis := r.axis.(y := Quantize(val)));
    } else if ax in [LeftZ, RightZ] {
      if val > DeadZone {
        if ax == LeftZ {
          r := r.(buttons := r.buttons + [LeftTrigger2]);
        } else if ax == RightZ {
          r := r.(buttons := r.buttons + [RightTrigger2]);
        }
      } else if LeftTrigger2 in r.buttons {
        r := r.(buttons := Without(r.buttons, LeftTrigger2));
      } else if RightTrigger2 in r.buttons {
        r := r.(buttons := Without(r.buttons, RightTrigger2));
      }
    }
  }

  /** One event applied to the working state; a disconnect yields the zero state. */
  function Step(s: FSState, e: Event): (r: FSState)
    ensures e.Disconnected? ==> r == Zero
    ensures e.ButtonPressed? || e.ButtonRepeated? || e.ButtonReleased? || e.Connected? || e.Dropped? ==> r == s
    ensures AxisInRange(s) ==> AxisInRange(r)
  {
    match e
    case ButtonChanged(b, val) => OnButtonChanged(s, b, val)
    case AxisChanged(ax, val) => OnAxisChanged(s, ax, val)
    case Disconnected => Zero
    case _ => s
  }

  /** A batch of events applied in order, starting from `s`. */
  function Fold(s: FSState, es: seq<Event>): (r: FSState)
    ensures AxisInRange(s) ==> AxisInRange(r)
    ensures es != [] && es[|es| - 1].Disconnected? ==> r == Zero
  {
    if es == [] then s else Step(Fold(s, es[..|es| - 1]), es[|es| - 1])
  }

  /** Extending the folded prefix of a batch by one event is one more step. */
  lemma FoldPrefixStep(s: FSState, es: seq<Event>, i: int)
    requires 0 <= i < |es|
    ensures Fold(s, es[..i + 1]) == Step(Fold(s, es[..i]), es[i])
    ensures Disconnected in es[..i + 1] <==> Disconnected in es[..i] || es[i] == Disconnected
  {
    assert es[..i + 1] == es[..i] + [es[i]];
  }

  /** Folding a concatenation folds the second part over the result of the first. */
  lemma {:induction false} FoldAppend(s: FSState, a: seq<Event>, b: seq<Event>)
    ensures Fold(s, a + b) == Fold(Fold(s, a), b)
  {
    if b == [] {
      assert a + b == a;
    } else {
      var b' := b[..|b| - 1];
      assert (a + b)[..|a + b| - 1] == a + b';
      assert (a + b)[|a + b| - 1] == b[|b| - 1];
      FoldAppend(s, a, b');
    }
  }

  /** Whatever came before a disconnect is forgotten: the events after it
      are applied to the zero state. */
  lemma FoldAfterDisconnect(s: FSState, a: seq<Event>, b: seq<Event>)
    ensures Fold(s, a + [Disconnected] + b) == Fold(Zero, b)
  {
    FoldAppend(s, a + [Disconnected], b);
    FoldAppend(s, a, [Disconnected]);
    assert Fold(Fold(s, a), [Disconnected]) == Zero;
  }

  /** An analog trigger crossing the dead zone upwards. */
  predicate IsTriggerPress(e: Event) {
    e.AxisChanged? && (e.axis == LeftZ || e.axis == RightZ) && e.value > DeadZone
  }

  /** Only a trigger press can create a duplicate entry: every other event
      keeps a duplicate-free button list duplicate-free. */
  lemma {:induction false} NoDupUnlessTriggerPress(s: FSState, es: seq<Event>)
    requires NoDup(s.buttons)
    requires forall k :: 0 <= k < |es| ==> !IsTriggerPress(es[k])
    ensures NoDup(Fold(s, es).buttons)
  {
    if es != [] {
      NoDupUnlessTriggerPress(s, es[..|es| - 1]);
    }
  }

  /** Regrouping a concatenation of three lists. */
  lemma ConcatAssoc(p: seq<Button>, q: seq<Button>, r: seq<Button>)
    ensures p + (q + r) == (p + q) + r
  {
  }

  /** `retain` distributes over concatenation. */
  lemma {:induction false} WithoutAppend(a: seq<Button>, c: seq<Button>, b: Button)
    ensures Without(a + c, b) == Without(a, b) + Without(c, b)
    decreases |a|
  {
    if a == [] {
      assert a + c == c;
    } else {
      var x, t := a[0], a[1..];
      var head := if x == b then [] else [x];
      assert (a + c)[0] == x && (a + c)[1..] == t + c;
      WithoutAppend(t, c, b);
      assert Without(a + c, b) == head + Without(t + c, b);
      assert Without(a, b) == head + Without(t, b);
      ConcatAssoc(head, Without(t, b), Without(c, b));
    }
  }

  /** Dead-zone boundary: 0.25 is still inside the dead zone. */
  lemma DeadZoneBoundary()
    ensures Quantize(0.25) == 0 && Quantize(-0.25) == 0
    ensures Quantize(0.2501) == 1 && Quantize(-0.26) == -1
  {
  }

  /** A second above-threshold press of a plain button releases it again:
      the list is back to what it was before the first press. */
  lemma RepeatedPressToggles(s: FSState, b: Button, v1: real, v2: real)
    requires !b.IsDPad() && b !in s.buttons
    requires v1 > DeadZone && v2 > DeadZone
    ensures Fold(s, [ButtonChanged(b, v1)]).buttons == s.buttons + [b]
    ensures Fold(s, [ButtonChanged(b, v1), ButtonChanged(b, v2)]) == s
  {
    var es := [ButtonChanged(b, v1), ButtonChanged(b, v2)];
    assert es[..1] == [ButtonChanged(b, v1)];
    WithoutAppend(s.buttons, [b], b);
  }

  /** Holding an analog trigger past the dead zone appends its virtual
      button once per event, so the list can hold duplicates. */
  lemma TriggerPressDuplicates(v1: real, v2: real)
    requires v1 > DeadZone && v2 > DeadZone
    ensures Fold(Zero, [AxisChanged(LeftZ, v1), AxisChanged(LeftZ, v2)]).buttons == [LeftTrigger2, LeftTrigger2]
    ensures !NoDup(Fold(Zero, [AxisChanged(LeftZ, v1), AxisChanged(LeftZ, v2)]).buttons)
  {
    var es := [AxisChanged(LeftZ, v1), AxisChanged(LeftZ, v2)];
    assert es[..1] == [AxisChanged(LeftZ, v1)];
    assert Fold(Zero, es[..1]).buttons == [] + [LeftTrigger2] == [LeftTrigger2];
    assert multiset([LeftTrigger2, LeftTrigger2])[LeftTrigger2] == 2;
  }

  /** Releasing the right trigger while both virtual trigger buttons are held
      clears LeftTrigger2 and leaves RightTrigger2 held. */
  lemma TriggerReleaseFirstMatch(a: FSAxis, v: real)
    requires v <= DeadZone
    ensures OnAxisChanged(FSState(a, [LeftTrigger2, RightTrigger2]), RightZ, v).buttons == [RightTrigger2]
  {
  }

  /** The d-pad pair shares one axis component: a released DPadRight zeroes
      the x that a held DPadLeft set. */
  lemma DPadReleaseOfEitherZeroes(s: FSState)
    ensures Fold(s, [ButtonChanged(DPadLeft, 0.5)]).axis.x == -1
    ensures Fold(s, [ButtonChanged(DPadLeft, 0.5), ButtonChanged(DPadLeft, 0.1)]).axis.x == 0
    ensures Fold(s, [ButtonChanged(DPadLeft, 0.5), ButtonChanged(DPadRight, 0.1)]).axis.x == 0
  {
  }
}
