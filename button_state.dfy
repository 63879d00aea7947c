/** The per-button state of the controller in controller.go: the `button` record,
    its polarity (`readState`) and the body of the polling loop in `Update`, written
    as a pure step function so that whole traces of samples can be reasoned about.
    Time is an `int` number of nanoseconds since the Unix epoch; durations are
    `int` nanoseconds. */
module ButtonState {

  /** One millisecond and one second, in nanoseconds (time.Millisecond, time.Second). */
  const Millisecond: int := 1_000_000
  const Second: int := 1_000_000_000

  /** Go's zero `time.Time` (January 1, year 1, UTC), which `pressedAt` holds until
      the first committed press. */
  const ZeroTime: int := -62_135_596_800 * Second

  /** A GPIO pin number (`machine.Pin` is a `uint8`). */
  newtype Pin = p: int | 0 <= p < 256

  /** The two kinds of actions a callback can be registered for. */
  datatype ActionType = SingleClick | LongPress

  /** The `button` record: its pin, its polarity, the debounced state, whether the
      long press has fired, the time of the last committed transition and the time
      of the last committed press. */
  datatype Button = Button(
    pin: Pin,
    pullup: bool,
    isPressed: bool,
    longPressed: bool,
    recordedAt: int,
    pressedAt: int)

  /** The controller's two durations, shared by every button. */
  datatype Timing = Timing(debounceDur: int, longPressDur: int)

  /** `readState`: the logical "pressed" value for a raw pin level. A pull-up button
      reads pressed when the level is high, any other button when it is low. */
  function ReadState(b: Button, level: bool): (pressed: bool)
    ensures b.pullup ==> (pressed <==> level)
    ensures !b.pullup ==> (pressed <==> !level)
  {
    b.pullup == level
  }

  /** While a button is pressed, its last committed transition is the press, so
      `pressedAt` is never read while it still holds the zero time. */
  ghost predicate Inv(b: Button) {
    b.isPressed ==> b.pressedAt == b.recordedAt
  }

  /** The debounce gate: the reading differs from the committed state and strictly
      more than the debounce duration has passed since the last commit. */
  predicate Commits(b: Button, level: bool, now: int, t: Timing) {
    ReadState(b, level) != b.isPressed && now - b.recordedAt > t.debounceDur
  }

  /** The new record of one button and the gestures it completed in one step. */
  datatype StepResult = StepResult(btn: Button, gestures: seq<ActionType>)

  /** One iteration of the loop in `Update` for one button: a debounced edge, a
      single click on release of a short press, a long press once the hold reaches
      the threshold. The gestures are those the loop would dispatch if a callback
      were registered for them; the record does not depend on the registry. */
  function Step(b: Button, level: bool, now: int, t: Timing): (r: StepResult)
    ensures r.btn.pin == b.pin && r.btn.pullup == b.pullup
    // Debounce: the committed state and its time change exactly when the gate opens.
    ensures r.btn.isPressed != b.isPressed <==> Commits(b, level, now, t)
    ensures Commits(b, level, now, t) ==> r.btn.recordedAt == now
    ensures !Commits(b, level, now, t) ==> r.btn.recordedAt == b.recordedAt
    ensures r.btn.pressedAt == (if Commits(b, level, now, t) && !b.isPressed then now else b.pressedAt)
    // At most one gesture per step.
    ensures |r.gestures| <= 1
    ensures SingleClick in r.gestures <==>
              Commits(b, level, now, t) && b.isPressed && now - b.pressedAt < t.longPressDur
    ensures LongPress in r.gestures <==>
              r.btn.isPressed && now - r.btn.pressedAt >= t.longPressDur && !b.longPressed
    // The long-press flag is set when LongPress fires and is never cleared.
    ensures r.btn.longPressed <==> b.longPressed || LongPress in r.gestures
    ensures Inv(b) ==> Inv(r.btn)
    // A click is a press held longer than the debounce and shorter than the long press.
    ensures Inv(b) && SingleClick in r.gestures ==>
              t.debounceDur < now - b.pressedAt < t.longPressDur
  {
    var isPressed := ReadState(b, level);
    var edge := isPressed != b.isPressed && now - b.recordedAt > t.debounceDur;
    var b1 :=
      if !edge then b
      else if isPressed then b.(isPressed := true, recordedAt := now, pressedAt := now)
      else b.(isPressed := false, recordedAt := now);
    var click: seq<ActionType> :=
      if edge && !isPressed && now - b1.pressedAt < t.longPressDur then [SingleClick] else [];
    if b1.isPressed && now - b1.pressedAt >= t.longPressDur then
      if !b1.longPressed then StepResult(b1.(longPressed := true), click + [LongPress])
      else StepResult(b1, click)
    else if !b1.longPressed then StepResult(b1.(longPressed := false), click)
    else StepResult(b1, click)
  }

  /** A poll of one button: the time and the raw level read from its pin. */
  datatype Sample = Sample(at: int, level: bool)

  /** The record after polling a button with each sample in turn. */
  function Run(b: Button, samples: seq<Sample>, t: Timing): (r: Button)
    ensures r.pin == b.pin && r.pullup == b.pullup
    ensures Inv(b) ==> Inv(r)
    ensures b.longPressed ==> r.longPressed
    decreases |samples|
  {
    if samples == [] then b
    else Run(Step(b, samples[0].level, samples[0].at, t).btn, samples[1..], t)
  }

  /** The gestures completed while polling a button with each sample in turn. */
  function Gestures(b: Button, samples: seq<Sample>, t: Timing): seq<ActionType>
    decreases |samples|
  {
    if samples == [] then []
    else
      var s := Step(b, samples[0].level, samples[0].at, t);
      s.gestures + Gestures(s.btn, samples[1..], t)
  }

  /** The times at which a debounced transition was committed along a trace. */
  function CommitTimes(b: Button, samples: seq<Sample>, t: Timing): seq<int>
    decreases |samples|
  {
    if samples == [] then []
    else
      var s := Step(b, samples[0].level, samples[0].at, t);
      (if Commits(b, samples[0].level, samples[0].at, t) then [samples[0].at] else [])
      + CommitTimes(s.btn, samples[1..], t)
  }

  /** Polling with one trace and then another is polling with their concatenation. */
  lemma {:induction false} GesturesAppend(b: Button, first: seq<Sample>, second: seq<Sample>, t: Timing)
    ensures Gestures(b, first + second, t) == Gestures(b, first, t) + Gestures(Run(b, first, t), second, t)
    ensures Run(b, first + second, t) == Run(Run(b, first, t), second, t)
    decreases |first|
  {
    if first == [] {
      assert first + second == second;
    } else {
      var s := Step(b, first[0].level, first[0].at, t);
      assert (first + second)[0] == first[0];
      assert (first + second)[1..] == first[1..] + second;
      GesturesAppend(s.btn, first[1..], second, t);
    }
  }

  /** The record ends up stamped with the last committed transition, and its
      committed state is unchanged when nothing was committed. */
  lemma {:induction false} RunStampsLastCommit(b: Button, samples: seq<Sample>, t: Timing)
    ensures Run(b, samples, t).recordedAt ==
      (if CommitTimes(b, samples, t) == [] then b.recordedAt else Last(CommitTimes(b, samples, t)))
    ensures CommitTimes(b, samples, t) == [] ==> Run(b, samples, t).isPressed == b.isPressed
    decreases |samples|
  {
    if samples != [] {
      var s := Step(b, samples[0].level, samples[0].at, t);
      RunStampsLastCommit(s.btn, samples[1..], t);
      var rest := CommitTimes(s.btn, samples[1..], t);
      if Commits(b, samples[0].level, samples[0].at, t) {
        assert CommitTimes(b, samples, t) == [samples[0].at] + rest;
      } else {
        assert CommitTimes(b, samples, t) == rest;
      }
    }
  }

  /** Any two consecutive committed transitions of a button are strictly more than
      the debounce duration apart, and the first one is too from the time the record was stamped
      (its registration, for a fresh button). */
  lemma {:induction false} CommitsSpacedByDebounce(b: Button, samples: seq<Sample>, t: Timing)
    ensures CommitTimes(b, samples, t) != [] ==> CommitTimes(b, samples, t)[0] - b.recordedAt > t.debounceDur
    ensures forall k :: 0 < k < |CommitTimes(b, samples, t)| ==>
              CommitTimes(b, samples, t)[k] - CommitTimes(b, samples, t)[k - 1] > t.debounceDur
    decreases |samples|
  {
    if samples != [] {
      var s := Step(b, samples[0].level, samples[0].at, t);
      CommitsSpacedByDebounce(s.btn, samples[1..], t);
      var rest := CommitTimes(s.btn, samples[1..], t);
      if Commits(b, samples[0].level, samples[0].at, t) {
        var cs := [samples[0].at] + rest;
        assert CommitTimes(b, samples, t) == cs;
        assert s.btn.recordedAt == samples[0].at;
        forall k | 0 < k < |cs| ensures cs[k] - cs[k - 1] > t.debounceDur {
          if k > 1 { assert cs[k] == rest[k - 1] && cs[k - 1] == rest[k - 2]; }
        }
      } else {
        assert CommitTimes(b, samples, t) == rest;
        assert s.btn.recordedAt == b.recordedAt;
      }
    }
  }

  function Last(s: seq<int>): int
    requires s != []
  {
    s[|s| - 1]
  }

  /** Samples taken no later than the debounce duration after the last commit change
      neither the committed state nor its time, and so complete no click. */
  lemma {:induction false} QuietWithinDebounce(b: Button, samples: seq<Sample>, t: Timing)
    requires forall i :: 0 <= i < |samples| ==> samples[i].at - b.recordedAt <= t.debounceDur
    ensures CommitTimes(b, samples, t) == []
    ensures Run(b, samples, t).isPressed == b.isPressed
    ensures Run(b, samples, t).recordedAt == b.recordedAt
    ensures SingleClick !in Gestures(b, samples, t)
    decreases |samples|
  {
    if samples != [] {
      var s := Step(b, samples[0].level, samples[0].at, t);
      assert samples[0].at - b.recordedAt <= t.debounceDur;
      assert s.btn.recordedAt == b.recordedAt;
      forall i | 0 <= i < |samples[1..]| ensures samples[1..][i].at - s.btn.recordedAt <= t.debounceDur {
        assert samples[1..][i] == samples[i + 1];
      }
      QuietWithinDebounce(s.btn, samples[1..], t);
    }
  }

  /** The long-press flag is never cleared, so LongPress fires at most once in the
      whole life of a button, and never again once the flag is set. */
  lemma {:induction false} LongPressAtMostOnce(b: Button, samples: seq<Sample>, t: Timing)
    ensures multiset(Gestures(b, samples, t))[LongPress] <= (if b.longPressed then 0 else 1)
    ensures Run(b, samples, t).longPressed <==> b.longPressed || LongPress in Gestures(b, samples, t)
    decreases |samples|
  {
    if samples != [] {
      var s := Step(b, samples[0].level, samples[0].at, t);
      LongPressAtMostOnce(s.btn, samples[1..], t);
      assert Gestures(b, samples, t) == s.gestures + Gestures(s.btn, samples[1..], t);
      if LongPress in s.gestures {
        assert s.gestures == [LongPress];
      } else {
        assert multiset(s.gestures)[LongPress] == 0;
      }
    }
  }

  /** Polling with a single sample is one step. */
  lemma OneSample(b: Button, x: Sample, t: Timing)
    ensures Gestures(b, [x], t) == Step(b, x.level, x.at, t).gestures
    ensures Run(b, [x], t) == Step(b, x.level, x.at, t).btn
  {
    assert [x][1..] == [];
  }

  /** A pressed button polled at the pressed level before the hold reaches the
      long-press duration neither changes nor completes a gesture. */
  lemma {:induction false} HeldQuiet(b: Button, held: seq<Sample>, t: Timing)
    requires b.isPressed && Inv(b)
    requires forall i :: 0 <= i < |held| ==>
               held[i].level == b.pullup && held[i].at - b.pressedAt < t.longPressDur
    ensures Gestures(b, held, t) == [] && Run(b, held, t) == b
    decreases |held|
  {
    if held != [] {
      var s := Step(b, held[0].level, held[0].at, t);
      assert s.btn == b && s.gestures == [];
      forall i | 0 <= i < |held[1..]|
        ensures held[1..][i].level == b.pullup && held[1..][i].at - b.pressedAt < t.longPressDur
      {
        assert held[1..][i] == held[i + 1];
      }
      HeldQuiet(b, held[1..], t);
    }
  }

  /** A pressed button whose long-press flag is set, polled at the pressed level,
      neither changes nor completes a gesture, however long it is held. */
  lemma {:induction false} HeldLatched(b: Button, held: seq<Sample>, t: Timing)
    requires b.isPressed && b.longPressed
    requires forall i :: 0 <= i < |held| ==> held[i].level == b.pullup
    ensures Gestures(b, held, t) == [] && Run(b, held, t) == b
    decreases |held|
  {
    if held != [] {
      var s := Step(b, held[0].level, held[0].at, t);
      assert s.btn == b && s.gestures == [];
      forall i | 0 <= i < |held[1..]| ensures held[1..][i].level == b.pullup {
        assert held[1..][i] == held[i + 1];
      }
      HeldLatched(b, held[1..], t);
    }
  }

  /** A released button polled at the released level neither changes nor completes
      a gesture. */
  lemma {:induction false} ReleasedQuiet(b: Button, rest: seq<Sample>, t: Timing)
    requires !b.isPressed
    requires forall i :: 0 <= i < |rest| ==> rest[i].level == !b.pullup
    ensures Gestures(b, rest, t) == [] && Run(b, rest, t) == b
    decreases |rest|
  {
    if rest != [] {
      var s := Step(b, rest[0].level, rest[0].at, t);
      assert s.btn == b && s.gestures == [];
      forall i | 0 <= i < |rest[1..]| ensures rest[1..][i].level == !b.pullup {
        assert rest[1..][i] == rest[i + 1];
      }
      ReleasedQuiet(b, rest[1..], t);
    }
  }

  /** A released button whose debounce window has passed commits a press on the
      first sample at the pressed level, and completes no gesture before the hold
      reaches the long-press duration. */
  lemma PressCommits(b: Button, start: int, t: Timing)
    requires !b.isPressed && 0 < t.longPressDur
    requires start - b.recordedAt > t.debounceDur
    ensures Gestures(b, [Sample(start, b.pullup)], t) == []
    ensures Run(b, [Sample(start, b.pullup)], t) == b.(isPressed := true, recordedAt := start, pressedAt := start)
  {
    OneSample(b, Sample(start, b.pullup), t);
  }

  /** A pressed button released after more than the debounce duration commits the
      release, and completes a single click iff the hold was shorter than the
      long-press duration. */
  lemma ReleaseCommits(b: Button, at: int, t: Timing)
    requires b.isPressed && Inv(b)
    requires at - b.pressedAt > t.debounceDur
    ensures Gestures(b, [Sample(at, !b.pullup)], t) ==
              (if at - b.pressedAt < t.longPressDur then [SingleClick] else [])
    ensures Run(b, [Sample(at, !b.pullup)], t) == b.(isPressed := false, recordedAt := at)
  {
    OneSample(b, Sample(at, !b.pullup), t);
  }

  /** A trace that completes nothing and leaves the record at `mid`, followed by a
      trace that completes `g` from `mid`, completes `g`. */
  lemma {:induction false} QuietThen(b: Button, mid: Button, first: seq<Sample>, second: seq<Sample>,
                                     g: seq<ActionType>, t: Timing)
    requires Gestures(b, first, t) == [] && Run(b, first, t) == mid
    requires Gestures(mid, second, t) == g
    ensures Gestures(b, first + second, t) == g
  {
    GesturesAppend(b, first, second, t);
  }

  /** Concatenation regrouped to the right. */
  lemma Regroup<T>(p: seq<T>, q: seq<T>, r: seq<T>)
    ensures p + q + r == p + (q + r)
  {
  }

  /** A press committed on its first sample and then held, polled any number of times
      before the hold reaches the long-press duration, completes nothing. */
  lemma {:induction false} PressThenHeld(b: Button, start: int, held: seq<Sample>, t: Timing)
    requires !b.isPressed && 0 < t.longPressDur
    requires start - b.recordedAt > t.debounceDur
    requires forall i :: 0 <= i < |held| ==> held[i].level == b.pullup && held[i].at - start < t.longPressDur
    ensures Gestures(b, [Sample(start, b.pullup)] + held, t) == []
    ensures Run(b, [Sample(start, b.pullup)] + held, t)
            == b.(isPressed := true, recordedAt := start, pressedAt := start)
  {
    PressCommits(b, start, t);
    HeldQuiet(b.(isPressed := true, recordedAt := start, pressedAt := start), held, t);
    GesturesAppend(b, [Sample(start, b.pullup)], held, t);
  }

  /** A pressed button released after the debounce window and then polled released
      any number of times completes a single click iff the hold was shorter than the
      long-press duration, and nothing else. */
  lemma {:induction false} ReleaseThenQuiet(b: Button, at: int, rest: seq<Sample>, t: Timing)
    requires b.isPressed && Inv(b)
    requires at - b.pressedAt > t.debounceDur
    requires forall i :: 0 <= i < |rest| ==> rest[i].level == !b.pullup
    ensures Gestures(b, [Sample(at, !b.pullup)] + rest, t)
            == (if at - b.pressedAt < t.longPressDur then [SingleClick] else [])
  {
    ReleaseCommits(b, at, t);
    ReleasedQuiet(b.(isPressed := false, recordedAt := at), rest, t);
    GesturesAppend(b, [Sample(at, !b.pullup)], rest, t);
  }

  /** A press held longer than the debounce and shorter than the long-press duration,
      polled any number of times while held, then released and polled any number of
      times more, completes exactly one single click and no long press. */
  lemma {:induction false} ShortPressClicks(b: Button, t: Timing, start: int, hold: int, held: seq<Sample>, rest: seq<Sample>)
    requires !b.isPressed && 0 <= t.debounceDur
    requires start - b.recordedAt > t.debounceDur
    requires t.debounceDur < hold < t.longPressDur
    requires forall i :: 0 <= i < |held| ==> held[i].level == b.pullup && held[i].at - start < t.longPressDur
    requires forall i :: 0 <= i < |rest| ==> rest[i].level == !b.pullup
    ensures Gestures(b, [Sample(start, b.pullup)] + held + [Sample(start + hold, !b.pullup)] + rest, t)
            == [SingleClick]
  {
    var pressed := [Sample(start, b.pullup)] + held;
    var released := [Sample(start + hold, !b.pullup)] + rest;
    var b0 := b.(isPressed := true, recordedAt := start, pressedAt := start);
    PressThenHeld(b, start, held, t);
    ReleaseThenQuiet(b0, start + hold, rest, t);
    QuietThen(b, b0, pressed, released, [SingleClick], t);
    Regroup(pressed, [Sample(start + hold, !b.pullup)], rest);
  }

  /** A press held at least the long-press duration, polled any number of times
      before the threshold and at least once after it, then released after the
      debounce window and polled any number of times more, completes one long press
      (none if the flag is already set) and no single click. */
  lemma {:induction false} LongHoldLongPresses(b: Button, t: Timing, start: int, release: int,
                                              early: seq<Sample>, late: seq<Sample>, rest: seq<Sample>)
    requires !b.isPressed && 0 < t.longPressDur
    requires start - b.recordedAt > t.debounceDur
    requires t.longPressDur <= release && t.debounceDur < release
    requires forall i :: 0 <= i < |early| ==> early[i].level == b.pullup && early[i].at - start < t.longPressDur
    requires late != [] && late[0].at - start >= t.longPressDur
    requires forall i :: 0 <= i < |late| ==> late[i].level == b.pullup
    requires forall i :: 0 <= i < |rest| ==> rest[i].level == !b.pullup
    ensures Gestures(b, [Sample(start, b.pullup)] + early + late + [Sample(start + release, !b.pullup)] + rest, t)
            == (if b.longPressed then [] else [LongPress])
  {
    var b0 := b.(isPressed := true, recordedAt := start, pressedAt := start);
    assert b0.pullup == b.pullup && b0.longPressed == b.longPressed;
    var pressed := [Sample(start, b.pullup)] + early;
    var after := late + ([Sample(start + release, !b0.pullup)] + rest);
    PressThenHeld(b, start, early, t);
    LateThenRelease(b0, late, start + release, rest, t);
    QuietThen(b, b0, pressed, after, if b0.longPressed then [] else [LongPress], t);
    Regroup(pressed + late, [Sample(start + release, !b.pullup)], rest);
    Regroup(pressed, late, [Sample(start + release, !b.pullup)] + rest);
  }

  /** A pressed button held past the threshold, polled at least once there, then
      released and polled released any number of times, completes one long press
      (none if the flag is already set) and no single click. */
  lemma {:induction false} LateThenRelease(b: Button, late: seq<Sample>, at: int, rest: seq<Sample>, t: Timing)
    requires b.isPressed && Inv(b)
    requires late != [] && late[0].at - b.pressedAt >= t.longPressDur
    requires forall i :: 0 <= i < |late| ==> late[i].level == b.pullup
    requires at - b.pressedAt >= t.longPressDur && at - b.pressedAt > t.debounceDur
    requires forall i :: 0 <= i < |rest| ==> rest[i].level == !b.pullup
    ensures Gestures(b, late + ([Sample(at, !b.pullup)] + rest), t)
            == (if b.longPressed then [] else [LongPress])
  {
    LatePhase(b, late, t);
    ReleaseThenQuiet(b.(longPressed := true), at, rest, t);
    GesturesAppend(b, late, [Sample(at, !b.pullup)] + rest, t);
  }

  /** Held samples from the threshold on: the first completes the long press (if
      the flag is clear), the others nothing. */
  lemma {:induction false} LatePhase(b: Button, late: seq<Sample>, t: Timing)
    requires b.isPressed && Inv(b)
    requires late != [] && late[0].at - b.pressedAt >= t.longPressDur
    requires forall i :: 0 <= i < |late| ==> late[i].level == b.pullup
    ensures Run(b, late, t) == b.(longPressed := true)
    ensures Gestures(b, late, t) == (if b.longPressed then [] else [LongPress])
  {
    assert late == [late[0]] + late[1..];
    OneSample(b, late[0], t);
    var b1 := b.(longPressed := true);
    forall i | 0 <= i < |late[1..]| ensures late[1..][i].level == b1.pullup {
      assert late[1..][i] == late[i + 1];
    }
    HeldLatched(b1, late[1..], t);
    GesturesAppend(b, [late[0]], late[1..], t);
  }
}
