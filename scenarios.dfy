/** Concrete traces of one button under the default configuration of a controller:
    a fresh pull-up button registered one second before the first sample. With the
    pull-up polarity of `readState`, a high level reads as pressed. */
module ButtonScenarios {
  import opened ButtonState
  import opened ButtonController

  const Defaults: Timing := Timing(DefaultConfig.debounceDur, DefaultConfig.longPressDur)

  function Fresh(): (b: Button)
    ensures b.pullup && !b.isPressed && !b.longPressed && Inv(b)
  {
    NewButton(15, PinInputPullup, -1 * Second)
  }

  /** Pressed at 0 ms and held until 1200 ms: LongPress at the 1000 ms sample and
      no click on release. */
  lemma HoldPastThreshold()
    ensures Gestures(Fresh(), [Sample(0, true), Sample(1000 * Millisecond, true),
                               Sample(1200 * Millisecond, false)], Defaults) == [LongPress]
  {
    var late := [Sample(1000 * Millisecond, true)];
    LongHoldLongPresses(Fresh(), Defaults, 0, 1200 * Millisecond, [], late, []);
    assert [Sample(0, true)] + [] + late + [Sample(0 + 1200 * Millisecond, false)] + [] == FirstHold;
  }

  /** Pressed at 0 ms, released at 10 ms, polled at 0, 10 and 60 ms: the press is
      committed by the very first sample and its release after the debounce window,
      so the glitch completes a single click rather than nothing. */
  lemma GlitchIsNotFiltered()
    ensures Run(Fresh(), [Sample(0, true)], Defaults).isPressed
    ensures Gestures(Fresh(), [Sample(0, true), Sample(10 * Millisecond, false),
                               Sample(60 * Millisecond, false)], Defaults) == [SingleClick]
  {
    var samples := [Sample(0, true), Sample(10 * Millisecond, false), Sample(60 * Millisecond, false)];
    var s0 := Step(Fresh(), true, 0, Defaults);
    var s1 := Step(s0.btn, false, 10 * Millisecond, Defaults);
    var s2 := Step(s1.btn, false, 60 * Millisecond, Defaults);
    assert s0.btn.isPressed && s0.gestures == [];
    assert s1.btn == s0.btn && s1.gestures == [];
    assert s2.gestures == [SingleClick];
    assert samples[1..][1..] == [Sample(60 * Millisecond, false)];
    assert Gestures(s1.btn, samples[1..][1..], Defaults) == s2.gestures + Gestures(s2.btn, [], Defaults);
    assert Gestures(s0.btn, samples[1..], Defaults) == s1.gestures + Gestures(s1.btn, samples[1..][1..], Defaults);
    assert Gestures(Fresh(), samples, Defaults) == s0.gestures + Gestures(s0.btn, samples[1..], Defaults);
  }

  /** A hold from 0 ms to 1200 ms, and a second one from 2000 ms to 3600 ms. */
  const FirstHold: seq<Sample> :=
    [Sample(0, true), Sample(1000 * Millisecond, true), Sample(1200 * Millisecond, false)]
  const SecondHold: seq<Sample> :=
    [Sample(2000 * Millisecond, true), Sample(3500 * Millisecond, true), Sample(3600 * Millisecond, false)]

  /** After the first hold the button is released, stamped at 1200 ms, and keeps
      its long-press flag set. */
  lemma AfterFirstHold()
    ensures Run(Fresh(), FirstHold, Defaults) == Fresh().(longPressed := true, recordedAt := 1200 * Millisecond, pressedAt := 0)
  {
    var s0 := Step(Fresh(), true, 0, Defaults);
    var s1 := Step(s0.btn, true, 1000 * Millisecond, Defaults);
    var s2 := Step(s1.btn, false, 1200 * Millisecond, Defaults);
    assert FirstHold[1..][1..] == [Sample(1200 * Millisecond, false)];
    assert Run(s1.btn, FirstHold[1..][1..], Defaults) == Run(s2.btn, [], Defaults);
    assert Run(s0.btn, FirstHold[1..], Defaults) == Run(s1.btn, FirstHold[1..][1..], Defaults);
  }

  /** Two long holds of the same button: only the first completes a LongPress,
      because the flag is never cleared. */
  lemma SecondLongHoldIsSilent()
    ensures Gestures(Fresh(), FirstHold + SecondHold, Defaults) == [LongPress]
  {
    GesturesAppend(Fresh(), FirstHold, SecondHold, Defaults);
    HoldPastThreshold();
    AfterFirstHold();
    var mid := Run(Fresh(), FirstHold, Defaults);
    var late := [Sample(3500 * Millisecond, true)];
    LongHoldLongPresses(mid, Defaults, 2000 * Millisecond, 1600 * Millisecond, [], late, []);
    assert [Sample(2000 * Millisecond, true)] + [] + late + [Sample(2000 * Millisecond + 1600 * Millisecond, false)] + []
        == SecondHold;
  }
}
