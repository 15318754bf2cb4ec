/** The button driver of components/button/button.c: a registry of buttons
    sampled every 10 ms by one toggle timer, each with a debounce counter and
    a press classifier driven by a repeat-press timer and a long-press
    timer. GPIO levels, the lock and the timers' expiry are inputs; the
    callback is a log of the events it receives. */
module Button {
  import opened Debounce
  import opened ButtonList

  /** button_config_t: the active level and the two timer lengths in ms. */
  datatype Config = Config(activeHigh: bool, repeatPressTimeout: nat, longPressTime: nat)

  /** button_event_t, and the press count the repeat timeout delivers in
      its place. */
  datatype Event = Down | Up | DownHold | UpHold | LongPress | Presses(count: nat)

  /** The value the callback receives (components/button/button.h). */
  function Code(e: Event): nat
  {
    match e
    case Down => 100
    case Up => 101
    case DownHold => 102
    case UpHold => 103
    case LongPress => 104
    case Presses(n) => n
  }

  /** The five named events have distinct codes, but a run of 100 to 104
      presses arrives as the code of a named event. */
  lemma CodesOverlap()
    ensures forall e: Event, f: Event :: !e.Presses? && !f.Presses? && e != f ==> Code(e) != Code(f)
    ensures Code(Presses(100)) == Code(Down) && Code(Presses(104)) == Code(LongPress)
  {
    forall e: Event, f: Event | !e.Presses? && !f.Presses? && e != f ensures Code(e) != Code(f) {
      match e
      case Down =>
      case Up =>
      case DownHold =>
      case UpHold =>
      case LongPress =>
    }
  }

  /** One node of the list: the fields button_toggle_callback and the timer
      callbacks update, and whether each of the two timers is running. */
  datatype Btn = Btn(gpio: nat, config: Config, value: int, lastHigh: bool, pressCount: nat,
                     repeatActive: bool, longActive: bool)

  /** The debounced level is the active level. */
  predicate Pressed(b: Btn)
  {
    b.lastHigh == b.config.activeHigh
  }

  /** A button in a state the driver can reach. */
  predicate BtnOk(b: Btn)
  {
    && 0 <= b.value <= MaxToggle
    && b.pressCount < 256
    && (b.config.longPressTime == 0 ==> !b.longActive)
  }

  /** A button and the events it sent to the callback. */
  datatype Handled = Handled(btn: Btn, events: seq<Event>)

  /** button_toggle_callback: on a press edge report DOWN, count the press
      (an 8-bit counter) and (re)start the repeat timer, and start the
      long-press timer on the first press; on a release edge report UP, stop
      the long-press timer, and report UP_HOLD when the repeat timer has run
      out. */
  function Toggle(b: Btn): (r: Handled)
    ensures r.btn.gpio == b.gpio && r.btn.config == b.config
    ensures r.btn.value == b.value && r.btn.lastHigh == b.lastHigh
    ensures Pressed(b) ==>
      && r.events == [Down]
      && r.btn.pressCount == (b.pressCount + 1) % 256
      && r.btn.repeatActive
      && (r.btn.longActive <==> b.longActive || (b.config.longPressTime != 0 && r.btn.pressCount == 1))
    ensures !Pressed(b) ==>
      && r.events == (if b.repeatActive then [Up] else [Up, UpHold])
      && r.btn.pressCount == b.pressCount && r.btn.repeatActive == b.repeatActive
      && !r.btn.longActive
    ensures BtnOk(b) ==> BtnOk(r.btn)
  {
    if Pressed(b) then
      var count := (b.pressCount + 1) % 256;
      var long := if b.config.longPressTime != 0 && count == 1 then true else b.longActive;
      Handled(b.(pressCount := count, repeatActive := true, longActive := long), [Down])
    else
      var b' := if b.longActive then b.(longActive := false) else b;
      if !b.repeatActive then Handled(b', [Up, UpHold]) else Handled(b', [Up])
  }

  /** One button's turn in toggle_timer_callback: sample its GPIO (`high`
      when it reads 1) and run the toggle handler when the level flips. */
  function Visit(b: Btn, high: bool): (r: Handled)
    ensures r.btn.gpio == b.gpio
  {
    var s := Sample(b.value, b.lastHigh, high);
    var b' := b.(value := s.value, lastHigh := s.lastHigh);
    if s.flipped then Toggle(b') else Handled(b', [])
  }

  /** A visit samples the button; it sends events iff the debounced level
      flipped, and then exactly those of the toggle handler. */
  lemma VisitSpec(b: Btn, high: bool)
    ensures var r := Visit(b, high);
      && r.btn.value == Sample(b.value, b.lastHigh, high).value
      && r.btn.lastHigh == Sample(b.value, b.lastHigh, high).lastHigh
      && (r.events != [] <==> r.btn.lastHigh != b.lastHigh)
      && (r.btn.lastHigh != b.lastHigh ==> r == Toggle(b.(value := r.btn.value, lastHigh := r.btn.lastHigh)))
      && (r.btn.lastHigh == b.lastHigh ==> r == Handled(b.(value := r.btn.value), []))
      && (BtnOk(b) ==> BtnOk(r.btn))
  {
  }

  /** A callback invocation: the button it was for and the event. */
  datatype Emit = Emit(gpio: nat, event: Event)

  /** The events `es` as the callback of button `g` receives them. */
  function Tag(g: nat, es: seq<Event>): (r: seq<Emit>)
    ensures |r| == |es|
    ensures forall k :: 0 <= k < |es| ==> r[k] == Emit(g, es[k])
  {
    seq(|es|, k requires 0 <= k < |es| => Emit(g, es[k]))
  }

  /** The events of one pass of toggle_timer_callback over `bs`, head
      first, with the GPIOs in `high` reading 1. */
  function Scan(bs: seq<Btn>, high: set<nat>): seq<Emit>
    decreases |bs|
  {
    if |bs| == 0 then []
    else
      var b := bs[|bs| - 1];
      Scan(bs[..|bs| - 1], high) + Tag(b.gpio, Visit(b, b.gpio in high).events)
  }

  /** Only buttons whose level flipped send events in a pass. */
  lemma {:induction false} ScanQuiet(bs: seq<Btn>, high: set<nat>)
    requires forall k :: 0 <= k < |bs| ==> Visit(bs[k], bs[k].gpio in high).btn.lastHigh == bs[k].lastHigh
    ensures Scan(bs, high) == []
    decreases |bs|
  {
    if |bs| > 0 {
      ScanQuiet(bs[..|bs| - 1], high);
    }
  }

  /** The GPIOs of the list, head first. */
  function Gpios(bs: seq<Btn>): (gs: seq<nat>)
    ensures |gs| == |bs|
    ensures forall k :: 0 <= k < |bs| ==> gs[k] == bs[k].gpio
  {
    seq(|bs|, k requires 0 <= k < |bs| => bs[k].gpio)
  }

  /** The node button_create links in: zeroed, with the level read. */
  function Fresh(gpio: nat, config: Config, level: bool): Btn
  {
    Btn(gpio, config, 0, level, 0, false, false)
  }

  /** A pass keeps the registered GPIOs and every button reachable. */
  lemma VisitKeeps(bs: seq<Btn>, cs: seq<Btn>, high: set<nat>)
    requires |cs| == |bs|
    requires forall k :: 0 <= k < |bs| ==> cs[k] == Visit(bs[k], bs[k].gpio in high).btn
    requires forall k :: 0 <= k < |bs| ==> BtnOk(bs[k])
    ensures Gpios(cs) == Gpios(bs)
    ensures forall k :: 0 <= k < |cs| ==> BtnOk(cs[k])
  {
    assert forall k :: 0 <= k < |bs| ==> cs[k].gpio == bs[k].gpio;
  }

  /** The buttons after one pass of toggle_timer_callback over `bs`. */
  function Visited(bs: seq<Btn>, high: set<nat>): (cs: seq<Btn>)
    ensures |cs| == |bs|
    decreases |bs|
  {
    if |bs| == 0 then []
    else
      var b := bs[|bs| - 1];
      Visited(bs[..|bs| - 1], high) + [Visit(b, b.gpio in high).btn]
  }

  /** Each button of a pass is visited on its own. */
  lemma {:induction false} VisitedAt(bs: seq<Btn>, high: set<nat>)
    ensures forall k :: 0 <= k < |bs| ==> Visited(bs, high)[k] == Visit(bs[k], bs[k].gpio in high).btn
    decreases |bs|
  {
    if |bs| > 0 {
      var init := bs[..|bs| - 1];
      VisitedAt(init, high);
      forall k | 0 <= k < |bs| - 1
        ensures Visited(bs, high)[k] == Visit(bs[k], bs[k].gpio in high).btn
      {
        assert init[k] == bs[k];
      }
    }
  }

  /** One turn of the toggle_timer_callback loop: visiting the button at
      position `i` extends the visited prefix and the pass's events by one
      button. */
  lemma TickStep(bs: seq<Btn>, i: nat, high: set<nat>)
    requires i < |bs|
    ensures var cs := Visited(bs[..i], high) + bs[i..];
      var h := Visit(bs[i], bs[i].gpio in high);
      && cs[i] == bs[i]
      && Visited(bs[..i + 1], high) + bs[i + 1..] == cs[i := h.btn]
      && Scan(bs[..i + 1], high) == Scan(bs[..i], high) + Tag(bs[i].gpio, h.events)
  {
    VisitedAt(bs[..i], high);
    assert bs[..i + 1][..i] == bs[..i];
    var cs := Visited(bs[..i], high) + bs[i..];
    var h := Visit(bs[i], bs[i].gpio in high);
    assert Visited(bs[..i + 1], high) == Visited(bs[..i], high) + [h.btn];
    assert Visited(bs[..i + 1], high) + bs[i + 1..] == cs[i := h.btn];
  }

  /** The loop of toggle_timer_callback over the list `bs`: the buttons
      after the pass and the events it sent, in order. */
  method Pass(bs: seq<Btn>, high: set<nat>) returns (cs: seq<Btn>, log: seq<Emit>)
    ensures cs == Visited(bs, high) && log == Scan(bs, high)
  {
    cs := bs;
    log := [];
    var i := 0;
    while i < |cs|
      invariant i <= |bs|
      invariant cs == Visited(bs[..i], high) + bs[i..]
      invariant log == Scan(bs[..i], high)
    {
      TickStep(bs, i, high);
      var g := cs[i].gpio;
      var h := Visit(cs[i], g in high);
      cs := cs[i := h.btn];
      log := log + Tag(g, h.events);
      i := i + 1;
    }
    assert bs[..i] == bs && bs[i..] == [];
  }

  /** A pass visits every button once, keeps the GPIOs and keeps every
      button reachable. */
  lemma PassKeeps(bs: seq<Btn>, high: set<nat>)
    requires forall k :: 0 <= k < |bs| ==> BtnOk(bs[k])
    ensures var cs := Visited(bs, high);
      && (forall k :: 0 <= k < |cs| ==> cs[k] == Visit(bs[k], bs[k].gpio in high).btn)
      && Gpios(cs) == Gpios(bs)
      && (forall k :: 0 <= k < |cs| ==> BtnOk(cs[k]))
  {
    VisitedAt(bs, high);
    VisitKeeps(bs, Visited(bs, high), high);
  }

  /** Linking in a button for a new GPIO keeps the registry valid. */
  lemma PrependKeeps(bs: seq<Btn>, b: Btn)
    requires Distinct(Gpios(bs)) && b.gpio !in Gpios(bs) && BtnOk(b)
    requires forall k :: 0 <= k < |bs| ==> BtnOk(bs[k])
    ensures Distinct(Gpios([b] + bs))
    ensures forall k :: 0 <= k < |bs| + 1 ==> BtnOk(([b] + bs)[k])
  {
    assert Gpios([b] + bs) == [b.gpio] + Gpios(bs);
  }

  /** The driver's global state: the list `buttons`, the lock and the toggle
      timer, and the callback's log. */
  class Registry {
    var buttons: seq<Btn>
    var lockCreated: bool
    var toggleTimer: bool
    var toggleActive: bool
    var events: seq<Emit>

    /** No GPIO is registered twice and every button is in a reachable state. */
    ghost predicate Valid()
      reads this
    {
      && Distinct(Gpios(buttons))
      && (forall k :: 0 <= k < |buttons| ==> BtnOk(buttons[k]))
      && (toggleActive ==> toggleTimer)
    }

    /** The statically zeroed globals. */
    constructor ()
      ensures Valid()
      ensures buttons == [] && events == []
      ensures !lockCreated && !toggleTimer && !toggleActive
    {
      buttons := [];
      lockCreated := false;
      toggleTimer := false;
      toggleActive := false;
      events := [];
    }

    /** toggle_timer_callback: when the lock is free (`lockFree`), visit
        every button of the list once, head first. */
    method Tick(lockFree: bool, high: set<nat>)
      requires Valid()
      modifies this`buttons, this`events
      ensures Valid()
      ensures !lockFree ==> buttons == old(buttons) && events == old(events)
      ensures lockFree ==>
        && |buttons| == |old(buttons)|
        && (forall k :: 0 <= k < |buttons| ==> buttons[k] == Visit(old(buttons)[k], old(buttons)[k].gpio in high).btn)
        && events == old(events) + Scan(old(buttons), high)
    {
      if !lockFree {
        return;
      }
      var cs, log := Pass(buttons, high);
      PassKeeps(buttons, high);
      buttons := cs;
      events := events + log;
    }

    /** button_repeat_press_timeout_timer_callback for the button at
        position `i`, whose repeat timer has run out: report DOWN_HOLD when
        it is still held, the press count otherwise, and clear the count. */
    method RepeatExpired(i: nat)
      requires Valid() && i < |buttons| && buttons[i].repeatActive
      modifies this`buttons, this`events
      ensures Valid()
      ensures var b := old(buttons[i]);
        && buttons == old(buttons)[i := b.(pressCount := 0, repeatActive := false)]
        && events == old(events) + [Emit(b.gpio, if Pressed(b) then DownHold else Presses(b.pressCount))]
    {
      var b := buttons[i];
      var e := if b.lastHigh == b.config.activeHigh then DownHold else Presses(b.pressCount);
      buttons := buttons[i := b.(pressCount := 0, repeatActive := false)];
      events := events + [Emit(b.gpio, e)];
      assert Gpios(buttons) == Gpios(old(buttons));
    }

    /** button_long_press_timer_callback for the button at position `i`,
        whose long-press timer has run out: report LONG_PRESS and clear the
        press count. */
    method LongPressExpired(i: nat)
      requires Valid() && i < |buttons| && buttons[i].longActive
      modifies this`buttons, this`events
      ensures Valid()
      ensures var b := old(buttons[i]);
        && buttons == old(buttons)[i := b.(pressCount := 0, longActive := false)]
        && events == old(events) + [Emit(b.gpio, LongPress)]
    {
      var b := buttons[i];
      buttons := buttons[i := b.(pressCount := 0, longActive := false)];
      events := events + [Emit(b.gpio, LongPress)];
      assert Gpios(buttons) == Gpios(old(buttons));
    }

    /** The search of button_create: the first button for `gpio`. */
    method Find(gpio: nat) returns (k: nat)
      ensures k == FirstIndex(Gpios(buttons), gpio)
    {
      k := 0;
      while k < |buttons| && buttons[k].gpio != gpio
        invariant k <= |buttons|
        invariant forall j :: 0 <= j < k ==> buttons[j].gpio != gpio
      {
        k := k + 1;
      }
    }

    /** button_create for `gpio` reading `level`, with the toggle timer
        missing until it is made. `timerOk`, `repeatOk`, `longOk` and
        `gpioOk` say whether creating the toggle timer, the repeat-press
        timer and the long-press timer and configuring the GPIO succeed. */
    method Create(gpio: nat, config: Config, level: bool, timerOk: bool, repeatOk: bool, longOk: bool, gpioOk: bool)
      returns (r: int)
      requires Valid()
      modifies this
      ensures Valid()
      ensures events == old(events)
      ensures Boot(lockCreated, toggleTimer) == CreateBoot(Boot(old(lockCreated), old(toggleTimer)), timerOk)
      ensures r == -1 <==> !old(toggleTimer) && !timerOk
      ensures r == -2 <==> (old(toggleTimer) || timerOk) && gpio in Gpios(old(buttons))
      ensures r == 0 <==>
        && (old(toggleTimer) || timerOk) && gpio !in Gpios(old(buttons))
        && repeatOk && (config.longPressTime == 0 || longOk) && gpioOk
      ensures r == -3 <==> (old(toggleTimer) || timerOk) && gpio !in Gpios(old(buttons)) && !repeatOk
      ensures r == -4 <==>
        && (old(toggleTimer) || timerOk) && gpio !in Gpios(old(buttons))
        && repeatOk && config.longPressTime != 0 && !longOk
      ensures r == -5 <==>
        && (old(toggleTimer) || timerOk) && gpio !in Gpios(old(buttons))
        && repeatOk && (config.longPressTime == 0 || longOk) && !gpioOk
      ensures r in {0, -1, -2, -3, -4, -5}
      ensures r == 0 ==> buttons == [Fresh(gpio, config, level)] + old(buttons) && toggleActive
      ensures r != 0 ==> buttons == old(buttons) && toggleActive == old(toggleActive)
    {
      lockCreated := true;
      if !toggleTimer {
        if !timerOk {
          return -1;
        }
        toggleTimer := true;
      }
      var k := Find(gpio);
      if k < |buttons| {
        return -2;
      }
      if !repeatOk {
        return -3;
      }
      if config.longPressTime != 0 && !longOk {
        return -4;
      }
      if !gpioOk {
        return -5;
      }
      PrependKeeps(buttons, Fresh(gpio, config, level));
      buttons := [Fresh(gpio, config, level)] + buttons;
      if !toggleActive {
        toggleActive := true;
      }
      return 0;
    }

    /** button_delete with the walk advancing as intended: unlink the
        button for `gpio`, if any. */
    method Delete(gpio: nat)
      requires Valid()
      modifies this`buttons, this`lockCreated
      ensures Valid() && lockCreated
      ensures gpio !in Gpios(old(buttons)) ==> buttons == old(buttons)
      ensures gpio in Gpios(old(buttons)) ==>
        buttons == RemoveAt(old(buttons), FirstIndex(Gpios(old(buttons)), gpio))
      ensures gpio !in Gpios(buttons)
      ensures forall g :: g in Gpios(old(buttons)) && g != gpio ==> g in Gpios(buttons)
    {
      lockCreated := true;
      if |buttons| == 0 {
        return;
      }
      var k := Find(gpio);
      if k < |buttons| {
        ghost var gs := Gpios(buttons);
        RemoveDistinct(gs, k);
        buttons := RemoveAt(buttons, k);
        assert Gpios(buttons) == RemoveAt(gs, k);
      }
    }
  }
}
