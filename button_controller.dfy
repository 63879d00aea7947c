/** The `Controller` of controller.go: its configuration options, its registry of
    callbacks keyed by (action type, button id), and the object that owns the
    buttons. `Register` appends a button and binds a callback; `Update` polls every
    button once. Hardware reads and the clock are parameters; a fired callback is
    recorded as an `Event` instead of being started on a goroutine. */
module ButtonController {
  import opened ButtonState

  /** The pin modes of the `machine` package that the controller can be given. */
  datatype PinMode = PinInput | PinInputPullup | PinInputPulldown | PinOutput

  /** The options `WithDebounceDuration`, `WithLongPressDuration` and `WithPinMode`. */
  datatype ControllerOption =
    | SetDebounce(debounce: int)
    | SetLongPress(longPress: int)
    | SetPinMode(mode: PinMode)

  datatype Option<T> = None | Some(value: T)

  /** The configurable fields of a controller. */
  datatype Config = Config(debounceDur: int, longPressDur: int, pinMode: PinMode)

  /** The configuration `NewController` starts from: 50 ms, 1 s, pull-up. */
  const DefaultConfig: Config := Config(50 * Millisecond, 1 * Second, PinInputPullup)

  /** The value an option sets for each field, if it sets that field. */
  function DebounceOf(opt: ControllerOption): Option<int> {
    if opt.SetDebounce? then Some(opt.debounce) else None
  }
  function LongPressOf(opt: ControllerOption): Option<int> {
    if opt.SetLongPress? then Some(opt.longPress) else None
  }
  function PinModeOf(opt: ControllerOption): Option<PinMode> {
    if opt.SetPinMode? then Some(opt.mode) else None
  }

  /** No option in the sequence sets the field `pick` selects. */
  predicate Unset<T>(opts: seq<ControllerOption>, pick: ControllerOption -> Option<T>)
    decreases |opts|
  {
    opts == [] || (pick(opts[0]).None? && Unset(opts[1..], pick))
  }

  /** The effect of one option on the configuration: the field the option names
      takes its value, and the other two are unchanged. */
  function Apply(c: Config, opt: ControllerOption): (r: Config)
    ensures DebounceOf(opt).Some? ==> r.debounceDur == DebounceOf(opt).value
    ensures DebounceOf(opt).None? ==> r.debounceDur == c.debounceDur
    ensures LongPressOf(opt).Some? ==> r.longPressDur == LongPressOf(opt).value
    ensures LongPressOf(opt).None? ==> r.longPressDur == c.longPressDur
    ensures PinModeOf(opt).Some? ==> r.pinMode == PinModeOf(opt).value
    ensures PinModeOf(opt).None? ==> r.pinMode == c.pinMode
  {
    match opt
    case SetDebounce(d) => c.(debounceDur := d)
    case SetLongPress(d) => c.(longPressDur := d)
    case SetPinMode(m) => c.(pinMode := m)
  }

  /** The options applied left to right, as `NewController` does. */
  function ApplyAll(c: Config, opts: seq<ControllerOption>): (r: Config)
    // A field that no option sets keeps its initial value.
    ensures Unset(opts, DebounceOf) ==> r.debounceDur == c.debounceDur
    ensures Unset(opts, LongPressOf) ==> r.longPressDur == c.longPressDur
    ensures Unset(opts, PinModeOf) ==> r.pinMode == c.pinMode
    decreases |opts|
  {
    if opts == [] then c else ApplyAll(Apply(c, opts[0]), opts[1..])
  }

  /** Applying one more option after a sequence of them. */
  lemma {:induction false} ApplyAllSnoc(c: Config, opts: seq<ControllerOption>, opt: ControllerOption)
    ensures ApplyAll(c, opts + [opt]) == Apply(ApplyAll(c, opts), opt)
    decreases |opts|
  {
    if opts == [] {
      assert [opt][1..] == [];
    } else {
      assert (opts + [opt])[1..] == opts[1..] + [opt];
      ApplyAllSnoc(Apply(c, opts[0]), opts[1..], opt);
    }
  }

  /** Reference definition of "the last option of a kind wins": the value of the
      rightmost option that sets the field, or the initial value if none does. */
  function LastSet<T>(opts: seq<ControllerOption>, pick: ControllerOption -> Option<T>, initial: T): T
    decreases |opts|
  {
    if opts == [] then initial
    else match pick(opts[|opts| - 1])
      case Some(v) => v
      case None => LastSet(opts[..|opts| - 1], pick, initial)
  }

  /** Options apply in order, so for each field the last option setting it wins and
      a field no option sets keeps its initial value. */
  lemma {:induction false} LastOptionWins(c: Config, opts: seq<ControllerOption>)
    ensures ApplyAll(c, opts).debounceDur == LastSet(opts, DebounceOf, c.debounceDur)
    ensures ApplyAll(c, opts).longPressDur == LastSet(opts, LongPressOf, c.longPressDur)
    ensures ApplyAll(c, opts).pinMode == LastSet(opts, PinModeOf, c.pinMode)
    decreases |opts|
  {
    if opts != [] {
      var init, last := opts[..|opts| - 1], opts[|opts| - 1];
      assert opts == init + [last];
      ApplyAllSnoc(c, init, last);
      LastOptionWins(c, init);
    }
  }

  /** The registry of callbacks: `actions[actionType][id]`. */
  type Registry<C> = map<ActionType, map<nat, C>>

  /** The callback registered for an action type and a button id, if any (the
      `action, ok := c.actions[t][id]` lookup, which also tolerates a missing inner map). */
  function Lookup<C>(reg: Registry<C>, t: ActionType, id: nat): (r: Option<C>)
    ensures r.Some? <==> t in reg && id in reg[t]
    ensures r.Some? ==> r.value == reg[t][id]
  {
    if t in reg && id in reg[t] then Some(reg[t][id]) else None
  }

  /** The registry after `Register` binds `cb` to (t, id): the inner map for `t` is
      created if missing, and the binding replaces any earlier one. */
  function Bind<C>(reg: Registry<C>, t: ActionType, id: nat, cb: C): (r: Registry<C>)
    ensures Lookup(r, t, id) == Some(cb)
    ensures forall k, j: nat :: (k != t || j != id) ==> Lookup(r, k, j) == Lookup(reg, k, j)
  {
    var inner := if t in reg then reg[t] else map[];
    reg[t := inner[id := cb]]
  }

  /** A callback started by `Update`: which kind of action, for which button. */
  datatype Event<C> = Event(kind: ActionType, id: nat, callback: C)

  /** The events one button's gestures start: each gesture that has a callback
      registered for it, in order. */
  function Dispatch<C>(reg: Registry<C>, id: nat, gestures: seq<ActionType>): (r: seq<Event<C>>)
    ensures |r| <= |gestures|
    decreases |gestures|
  {
    if gestures == [] then []
    else
      var first := match Lookup(reg, gestures[0], id)
        case Some(cb) => [Event(gestures[0], id, cb)]
        case None => [];
      first + Dispatch(reg, id, gestures[1..])
  }

  /** Exactly the gestures that have a callback registered for the button start an
      event, and each event carries that callback. */
  lemma {:induction false} DispatchExact<C>(reg: Registry<C>, id: nat, gestures: seq<ActionType>)
    ensures forall e :: e in Dispatch(reg, id, gestures) ==>
              e.id == id && e.kind in gestures && Lookup(reg, e.kind, id) == Some(e.callback)
    ensures forall k :: k in gestures && Lookup(reg, k, id).Some? ==>
              Event(k, id, Lookup(reg, k, id).value) in Dispatch(reg, id, gestures)
    decreases |gestures|
  {
    if gestures != [] {
      DispatchExact(reg, id, gestures[1..]);
      assert forall k :: k in gestures ==> k == gestures[0] || k in gestures[1..];
    }
  }

  /** The gestures each button completes in one poll at time `now`, button `id`
      reading the raw level `levels[id]`. */
  function PollGestures(bs: seq<Button>, levels: seq<bool>, now: int, t: Timing): (gs: seq<seq<ActionType>>)
    requires |levels| == |bs|
    ensures |gs| == |bs|
    ensures forall id :: 0 <= id < |bs| ==> gs[id] == Step(bs[id], levels[id], now, t).gestures
  {
    seq(|bs|, id requires 0 <= id < |bs| => Step(bs[id], levels[id], now, t).gestures)
  }

  /** The events `Update` starts for buttons `0 .. n-1`, in id order, where button
      `id` completed the gestures `gs[id]`. */
  function Fired<C>(reg: Registry<C>, gs: seq<seq<ActionType>>, n: nat): (r: seq<Event<C>>)
    requires n <= |gs|
    // Each button starts at most one callback per gesture it completed.
    ensures (forall id :: 0 <= id < n ==> |gs[id]| <= 1) ==> |r| <= n
    decreases n
  {
    if n == 0 then [] else Fired(reg, gs, n - 1) + Dispatch(reg, n - 1, gs[n - 1])
  }

  /** Every event is for one of the buttons `0 .. n-1`, is one of the gestures that
      button completed, and carries the callback registered for it. */
  lemma {:induction false} FiredSound<C>(reg: Registry<C>, gs: seq<seq<ActionType>>, n: nat)
    requires n <= |gs|
    ensures forall e :: e in Fired(reg, gs, n) ==>
      e.id < n && e.kind in gs[e.id] && Lookup(reg, e.kind, e.id) == Some(e.callback)
    decreases n
  {
    if n > 0 {
      FiredSound(reg, gs, n - 1);
      DispatchExact(reg, n - 1, gs[n - 1]);
    }
  }

  /** The events for buttons `0 .. n-1` are for those buttons. */
  lemma {:induction false} FiredIdsBelow<C>(reg: Registry<C>, gs: seq<seq<ActionType>>, n: nat)
    requires n <= |gs|
    ensures forall e :: e in Fired(reg, gs, n) ==> e.id < n
    decreases n
  {
    if n > 0 {
      FiredIdsBelow(reg, gs, n - 1);
      DispatchExact(reg, n - 1, gs[n - 1]);
    }
  }

  ghost predicate IdsIncreasing<C>(r: seq<Event<C>>) {
    forall i, j :: 0 <= i < j < |r| ==> r[i].id < r[j].id
  }

  /** When each button completes at most one gesture, the events come in strictly
      increasing id order, so each button starts at most one callback. */
  lemma {:induction false} FiredOrdered<C>(reg: Registry<C>, gs: seq<seq<ActionType>>, n: nat)
    requires n <= |gs|
    requires forall id :: 0 <= id < n ==> |gs[id]| <= 1
    ensures IdsIncreasing(Fired(reg, gs, n))
    decreases n
  {
    if n > 0 {
      FiredOrdered(reg, gs, n - 1);
      FiredIdsBelow(reg, gs, n - 1);
      DispatchExact(reg, n - 1, gs[n - 1]);
      AppendOneKeepsIncreasing(Fired(reg, gs, n - 1), Dispatch(reg, n - 1, gs[n - 1]), n - 1);
    }
  }

  /** Appending at most one event for a button after events for smaller ids keeps
      the ids strictly increasing. */
  lemma AppendOneKeepsIncreasing<C>(prev: seq<Event<C>>, last: seq<Event<C>>, id: nat)
    requires IdsIncreasing(prev) && (forall e :: e in prev ==> e.id < id)
    requires |last| <= 1 && (forall e :: e in last ==> e.id == id)
    ensures IdsIncreasing(prev + last)
  {
  }

  /** Every gesture of a button among `0 .. n-1` that has a callback registered
      starts that callback. */
  lemma {:induction false} FiredComplete<C>(reg: Registry<C>, gs: seq<seq<ActionType>>, n: nat)
    requires n <= |gs|
    ensures forall id: nat, k :: id < n && k in gs[id] && Lookup(reg, k, id).Some? ==>
      Event(k, id, Lookup(reg, k, id).value) in Fired(reg, gs, n)
    decreases n
  {
    if n > 0 {
      FiredComplete(reg, gs, n - 1);
      DispatchExact(reg, n - 1, gs[n - 1]);
    }
  }

  /** In one poll each button completes at most one gesture, so `Update` starts its
      callbacks in strictly increasing id order, at most one per button. */
  lemma PollOrdered<C>(bs: seq<Button>, levels: seq<bool>, now: int, t: Timing, reg: Registry<C>)
    requires |levels| == |bs|
    ensures IdsIncreasing(Fired(reg, PollGestures(bs, levels, now, t), |bs|))
    ensures |Fired(reg, PollGestures(bs, levels, now, t), |bs|)| <= |bs|
  {
    FiredOrdered(reg, PollGestures(bs, levels, now, t), |bs|);
  }

  /** `cur` is `bs` with buttons `0..n-1` polled once at `now` and the rest untouched:
      the state of the buttons part-way through `Update`. */
  ghost predicate PolledUpTo(cur: seq<Button>, bs: seq<Button>, levels: seq<bool>, now: int, t: Timing, n: nat)
  {
    && |cur| == |bs| == |levels| && n <= |bs|
    && (forall j :: 0 <= j < n ==> cur[j] == Step(bs[j], levels[j], now, t).btn)
    && (forall j :: n <= j < |bs| ==> cur[j] == bs[j])
  }

  /** Polling button `n` next reads its untouched record and extends the prefix by one. */
  lemma {:induction false} PolledNext(cur: seq<Button>, bs: seq<Button>, levels: seq<bool>, now: int, t: Timing, n: nat)
    requires PolledUpTo(cur, bs, levels, now, t, n) && n < |bs|
    ensures cur[n] == bs[n]
    ensures PolledUpTo(cur[n := Step(bs[n], levels[n], now, t).btn], bs, levels, now, t, n + 1)
  {
  }

  /** Once every button is polled, each record is `Step` of its old one, and `Inv`
      still holds of every button. */
  lemma {:induction false} PolledKeepsInv(cur: seq<Button>, bs: seq<Button>, levels: seq<bool>, now: int, t: Timing)
    requires PolledUpTo(cur, bs, levels, now, t, |bs|)
    requires forall j :: 0 <= j < |bs| ==> Inv(bs[j])
    ensures forall j :: 0 <= j < |cur| ==> Inv(cur[j]) && cur[j] == Step(bs[j], levels[j], now, t).btn
  {
  }

  /** The record `Register` appends for a pin, at time `now`, under a pin mode. */
  function NewButton(pin: Pin, mode: PinMode, now: int): (b: Button)
    ensures b.pin == pin && !b.isPressed && !b.longPressed
    ensures b.pullup <==> mode == PinInputPullup
    ensures b.recordedAt == now && b.pressedAt == ZeroTime
    ensures Inv(b)
  {
    Button(pin, mode == PinInputPullup, false, false, now, ZeroTime)
  }

  /** The button controller. `C` is the type of the callbacks. */
  class Controller<C> {
    var buttons: seq<Button>
    var actions: Registry<C>
    var debounceDur: int
    var longPressDur: int
    var pinMode: PinMode

    /** Every button keeps its invariant and every registered id names a button. */
    ghost predicate Valid()
      reads this
    {
      && (forall id :: 0 <= id < |buttons| ==> Inv(buttons[id]))
      && (forall k, id: nat :: Lookup(actions, k, id).Some? ==> id < |buttons|)
    }

    function CurrentConfig(): Config
      reads this
    {
      Config(debounceDur, longPressDur, pinMode)
    }

    function Durations(): Timing
      reads this
    {
      Timing(debounceDur, longPressDur)
    }

    /** `NewController`: the defaults, then each option in turn. */
    constructor (opts: seq<ControllerOption>)
      ensures Valid()
      ensures buttons == [] && actions == map[]
      ensures CurrentConfig() == ApplyAll(DefaultConfig, opts)
    {
      buttons := [];
      actions := map[];
      debounceDur := 50 * Millisecond;
      longPressDur := 1 * Second;
      pinMode := PinInputPullup;
      new;
      for i := 0 to |opts|
        invariant buttons == [] && actions == map[]
        invariant CurrentConfig() == ApplyAll(DefaultConfig, opts[..i])
      {
        ApplyAllSnoc(DefaultConfig, opts[..i], opts[i]);
        assert opts[..i + 1] == opts[..i] + [opts[i]];
        match opts[i]
        case SetDebounce(d) => debounceDur := d;
        case SetLongPress(d) => longPressDur := d;
        case SetPinMode(m) => pinMode := m;
      }
      assert opts[..|opts|] == opts;
    }

    /** `Register`: append a fresh button for `pin`, stamped with the registration
        time, and bind `action` to (actionType, its id), replacing any earlier binding. */
    method Register(pin: Pin, actionType: ActionType, action: C, now: int)
      requires Valid()
      modifies this
      ensures Valid()
      ensures |buttons| == |old(buttons)| + 1
      ensures buttons[..|old(buttons)|] == old(buttons)
      ensures buttons[|old(buttons)|] == NewButton(pin, pinMode, now)
      ensures actions == Bind(old(actions), actionType, |old(buttons)|, action)
      ensures Lookup(actions, actionType, |old(buttons)|) == Some(action)
      ensures forall k, id: nat :: (k != actionType || id != |old(buttons)|) ==>
                Lookup(actions, k, id) == Lookup(old(actions), k, id)
      ensures CurrentConfig() == old(CurrentConfig())
    {
      var id := |buttons|;
      buttons := buttons + [Button(pin, pinMode == PinInputPullup, false, false, now, ZeroTime)];
      if actionType !in actions {
        actions := actions[actionType := map[]];
      }
      actions := actions[actionType := actions[actionType][id := action]];
      assert forall k, i: nat :: Lookup(actions, k, i).Some? ==>
        (k == actionType && i == id) || Lookup(old(actions), k, i).Some?;
    }

    /** The body of the loop in `Update` for button `id`: the copy `btn` of its
        record, updated from the raw level of its pin, and the callbacks started. */
    method Poll(id: nat, btn: Button, level: bool, now: int) returns (next: Button, started: seq<Event<C>>)
      ensures next == Step(btn, level, now, Durations()).btn
      ensures started == Dispatch(actions, id, Step(btn, level, now, Durations()).gestures)
    {
      next := btn;
      started := [];
      var isPressed := ReadState(next, level);

      if isPressed != next.isPressed && now - next.recordedAt > debounceDur {
        next := next.(isPressed := isPressed, recordedAt := now);
        if isPressed {
          next := next.(pressedAt := now);
        } else {
          var action := Lookup(actions, SingleClick, id);
          if action.Some? && now - next.pressedAt < longPressDur {
            started := started + [Event(SingleClick, id, action.value)];
          }
        }
      }

      if next.isPressed && now - next.pressedAt >= longPressDur {
        if !next.longPressed {
          next := next.(longPressed := true);
          var action := Lookup(actions, LongPress, id);
          if action.Some? {
            started := started + [Event(LongPress, id, action.value)];
          }
        }
      } else if !next.longPressed {
        next := next.(longPressed := false);
      }
    }

    /** `Update`: poll every button once, in id order, at time `now`, with
        `levels[id]` the raw level read from button `id`'s pin. Returns the callbacks
        started, in the order they are started. */
    method Update(now: int, levels: seq<bool>) returns (fired: seq<Event<C>>)
      requires Valid()
      requires |levels| == |buttons|
      modifies this
      ensures Valid()
      ensures |buttons| == |old(buttons)|
      ensures forall id :: 0 <= id < |buttons| ==>
                buttons[id] == Step(old(buttons)[id], levels[id], now, Durations()).btn
      ensures fired == Fired(actions, PollGestures(old(buttons), levels, now, Durations()), |buttons|)
      ensures actions == old(actions) && CurrentConfig() == old(CurrentConfig())
    {
      fired := [];
      ghost var bs, t := buttons, Durations();
      ghost var gs := PollGestures(bs, levels, now, t);
      var id := 0;
      while id < |buttons|
        invariant 0 <= id <= |buttons|
        invariant actions == old(actions) && CurrentConfig() == old(CurrentConfig()) && t == Durations()
        invariant PolledUpTo(buttons, bs, levels, now, t, id)
        invariant fired == Fired(actions, gs, id)
      {
        PolledNext(buttons, bs, levels, now, t, id);
        var btn, started := Poll(id, buttons[id], levels[id], now);
        assert Fired(actions, gs, id + 1) == Fired(actions, gs, id) + Dispatch(actions, id, gs[id]);
        fired := fired + started;
        buttons := buttons[id := btn];
        id := id + 1;
      }
      PolledKeepsInv(buttons, bs, levels, now, t);
    }
  }
}
