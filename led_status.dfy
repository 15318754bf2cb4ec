/** The status LED player of components/led-status/led_status.c: a one-shot
    timer steps a cursor through a pattern of signed delays (positive: LED
    on for that many ms, negative: off), repeating the pattern set with
    led_status_set, or playing a pattern given to led_status_signal once
    before falling back to it. The GPIO and the timer are modelled as the
    level last written and the timer's state. */
module LedStatus {

  datatype Option<T> = None | Some(value: T)

  /** A pattern the player can step through: none, or a non-empty one (the
      cursor is taken modulo its length). */
  predicate PatternOk(p: Option<seq<int>>)
  {
    p.None? || |p.value| > 0
  }

  /** The cursor and the two patterns of led_status_t. */
  datatype State = State(n: int, pattern: Option<seq<int>>, signal: Option<seq<int>>)

  /** What a tick does to the hardware: whether it drives the LED on, and
      the period the timer is restarted with, or None when it is stopped. */
  datatype Out = Out(on: bool, period: Option<nat>)

  function Abs(x: int): (r: nat)
    ensures r == x || r == -x
  {
    if x < 0 then -x else x
  }

  /** The pattern a tick plays: the signal while there is one. */
  function Active(s: State): Option<seq<int>>
  {
    if s.signal.Some? then s.signal else s.pattern
  }

  /** Both patterns are playable and the cursor is inside the one playing. */
  predicate Ready(s: State)
  {
    && PatternOk(s.pattern) && PatternOk(s.signal)
    && (Active(s).Some? ==> 0 <= s.n < |Active(s).value|)
  }

  /** The state after some calls and what they did to the hardware, oldest
      first. */
  datatype Played = Played(state: State, outs: seq<Out>)

  /** What a tick shows for delay `d`. */
  function Show(d: int): (o: Out)
    ensures o.on <==> d > 0
    ensures o.period == Some(Abs(d))
  {
    Out(d > 0, Some(Abs(d)))
  }

  /** led_status_tick: with no pattern, stop the timer and drive the LED
      off; otherwise show the delay under the cursor and advance it,
      dropping the signal pattern when the cursor wraps. */
  function Step(s: State): (r: Played)
    requires Ready(s)
    ensures Ready(r.state) && |r.outs| == 1
    ensures Active(s).None? ==> r.state == s && r.outs == [Out(false, None)]
    ensures Active(s).Some? ==>
      var p := Active(s).value;
      && r.outs == [Show(p[s.n])]
      && r.state.n == (if s.n + 1 < |p| then s.n + 1 else 0)
      && r.state.pattern == s.pattern
      && (s.signal.Some? ==> (r.state.signal.None? <==> r.state.n == 0))
      && (r.state.signal.Some? ==> r.state.signal == s.signal)
      && (s.signal.None? ==> r.state.signal.None?)
  {
    var p := Active(s);
    if p.None? then Played(s, [Out(false, None)])
    else
      var n := (s.n + 1) % |p.value|;
      var signal := if s.signal.Some? && n == 0 then None else s.signal;
      Played(State(n, s.pattern, signal), [Show(p.value[s.n])])
  }

  /** `k` ticks in a row. */
  function Run(s: State, k: nat): (r: Played)
    requires Ready(s)
    ensures Ready(r.state) && |r.outs| == k
    decreases k
  {
    if k == 0 then Played(s, [])
    else
      var t := Step(s);
      var rest := Run(t.state, k - 1);
      Played(rest.state, t.outs + rest.outs)
  }

  /** What playing the delays `q` in order shows. */
  function Shows(q: seq<int>): (r: seq<Out>)
    ensures |r| == |q|
    decreases |q|
  {
    if |q| == 0 then [] else [Show(q[0])] + Shows(q[1..])
  }

  /** A signal with its cursor at `j` shows the rest of its delays, then is
      dropped, leaving the cursor at the start of the repeating pattern. */
  lemma {:induction false} SignalPlays(s: State, q: seq<int>, j: nat)
    requires Ready(s) && s.signal == Some(q) && s.n == j
    ensures Run(s, |q| - j) == Played(State(0, s.pattern, None), Shows(q[j..]))
    decreases |q| - j
  {
    var t := Step(s);
    var rest := Run(t.state, |q| - j - 1);
    assert Run(s, |q| - j) == Played(rest.state, t.outs + rest.outs);
    assert t.outs == [Show(q[j])];
    if j + 1 == |q| {
      assert t.state == State(0, s.pattern, None);
      assert q[j..] == [q[j]];
    } else {
      assert t.state == State(j + 1, s.pattern, Some(q));
      SignalPlays(t.state, q, j + 1);
      assert q[j..][1..] == q[j + 1..];
    }
  }

  /** Without a signal, the repeating pattern with its cursor at `j` shows
      the rest of its delays and comes back to the start. */
  lemma {:induction false} PatternPlays(s: State, q: seq<int>, j: nat)
    requires Ready(s) && s.signal.None? && s.pattern == Some(q) && s.n == j
    ensures Run(s, |q| - j) == Played(State(0, s.pattern, None), Shows(q[j..]))
    decreases |q| - j
  {
    var t := Step(s);
    var rest := Run(t.state, |q| - j - 1);
    assert Run(s, |q| - j) == Played(rest.state, t.outs + rest.outs);
    assert t.outs == [Show(q[j])];
    if j + 1 == |q| {
      assert t.state == State(0, s.pattern, None);
      assert q[j..] == [q[j]];
    } else {
      assert t.state == State(j + 1, s.pattern, None);
      PatternPlays(t.state, q, j + 1);
      assert q[j..][1..] == q[j + 1..];
    }
  }

  /** led_status_set on the state: store the pattern, and when no signal is
      playing restart it from its first delay. */
  function SetPattern(s: State, p: Option<seq<int>>): (r: Played)
    requires Ready(s) && PatternOk(p)
    ensures Ready(r.state)
    ensures r.state.pattern == p && r.state.signal == s.signal
    ensures s.signal.Some? ==> r == Played(s.(pattern := p), [])
    ensures s.signal.None? ==> r == Step(State(0, p, None))
  {
    if s.signal.None? then Step(State(0, p, None)) else Played(s.(pattern := p), [])
  }

  /** led_status_signal on the state: nothing when there is neither an old
      nor a new signal, otherwise play the new one (or none) from the
      start. */
  function SetSignal(s: State, p: Option<seq<int>>): (r: Played)
    requires Ready(s) && PatternOk(p)
    ensures Ready(r.state) && r.state.pattern == s.pattern
    ensures s.signal.None? && p.None? ==> r == Played(s, [])
    ensures s.signal.Some? || p.Some? ==> r == Step(State(0, s.pattern, p))
  {
    if s.signal.None? && p.None? then Played(s, []) else Step(State(0, s.pattern, p))
  }

  /** A signal shows each of its delays once, in order, and then the
      repeating pattern resumes from its first delay. */
  lemma SignalOnce(s: State, q: seq<int>)
    requires Ready(s) && |q| > 0
    ensures var r := SetSignal(s, Some(q));
      Run(r.state, |q| - 1) == Played(State(0, s.pattern, None), Shows(q[1..]))
      && r.outs == [Show(q[0])]
  {
    var r := SetSignal(s, Some(q));
    assert r == Step(State(0, s.pattern, Some(q)));
    if |q| == 1 {
      assert r.state == State(0, s.pattern, None);
      assert q[1..] == [];
    } else {
      assert r.state == State(1, s.pattern, Some(q));
      SignalPlays(r.state, q, 1);
    }
  }

  /** A pattern set while a signal plays waits for the signal to finish. */
  lemma SetDuringSignal(s: State, p: Option<seq<int>>, q: seq<int>)
    requires Ready(s) && PatternOk(p) && s.signal == Some(q)
    ensures var r := SetPattern(s, p);
      r.outs == [] && Run(r.state, |q| - s.n) == Played(State(0, p, None), Shows(q[s.n..]))
  {
    var t := State(s.n, p, Some(q));
    assert SetPattern(s, p) == Played(t, []);
    assert Run(t, |q| - s.n) == Played(State(0, p, None), Shows(q[s.n..])) by {
      SignalPlays(t, q, s.n);
    }
  }

  /** pdMS_TO_TICKS: `ms` milliseconds as whole ticks of a kernel running
      at `rate` ticks per second, rounded down. */
  function MsToTicks(ms: nat, rate: nat): (t: nat)
    ensures t * 1000 <= ms * rate < t * 1000 + 1000
    ensures rate == 1000 ==> t == ms
  {
    ms * rate / 1000
  }

  /** One led_status_t: the GPIO, the level driven when on (`active`), the
      cursor and the patterns, and what the hardware was last told: the
      level on the GPIO and the timer's period in ticks and whether it runs.
      `tickRate` is the kernel's tick rate in ticks per second. */
  class LedStatus {
    const gpio: nat
    const active: nat
    const tickRate: nat
    var n: int
    var pattern: Option<seq<int>>
    var signal: Option<seq<int>>
    var level: nat
    var timerRunning: bool
    var timerPeriod: nat

    /** The cursor and the patterns. */
    function Snapshot(): State
      reads this
    {
      State(n, pattern, signal)
    }

    ghost predicate Valid()
      reads this
    {
      Ready(Snapshot())
    }

    /** The level led_status_write drives: `active` when on, its logical
        negation when off. */
    function Level(on: bool): (l: nat)
      ensures (l == 0) <==> (on == (active == 0))
    {
      if on then active else if active == 0 then 1 else 0
    }

    /** led_status_init: no patterns, the timer made with a period of 100
        ticks but not started, and the LED driven off. `n0` is whatever the
        allocated memory held: the cursor is not initialised. */
    constructor (gpio: nat, active: nat, tickRate: nat, n0: int)
      ensures Valid()
      ensures this.gpio == gpio && this.active == active && this.tickRate == tickRate
      ensures pattern.None? && signal.None? && n == n0
      ensures level == Level(false) && !timerRunning && timerPeriod == 100
    {
      this.gpio := gpio;
      this.active := active;
      this.tickRate := tickRate;
      n := n0;
      pattern := None;
      signal := None;
      timerRunning := false;
      timerPeriod := 100;
      level := if active == 0 then 1 else 0;
    }

    /** On and off are always different levels. */
    lemma LevelsDiffer()
      ensures Level(true) != Level(false)
    {
    }

    /** led_status_write. */
    method Write(on: bool)
      modifies this`level
      ensures level == Level(on)
    {
      level := if on then active else if active == 0 then 1 else 0;
    }

    /** What the hardware shows after output `o`, whose period is in
        milliseconds. */
    ghost predicate Shown(o: Out)
      reads this
    {
      && level == Level(o.on)
      && timerRunning == o.period.Some?
      && (o.period.Some? ==> timerPeriod == MsToTicks(o.period.value, tickRate))
    }

    /** led_status_tick. */
    method Tick()
      requires Valid()
      modifies this`n, this`signal, this`level, this`timerRunning, this`timerPeriod
      ensures Valid()
      ensures Snapshot() == Step(old(Snapshot())).state
      ensures Shown(Step(old(Snapshot())).outs[0])
      ensures !timerRunning ==> timerPeriod == old(timerPeriod)
    {
      var p := if signal.Some? then signal else pattern;
      if p.None? {
        timerRunning := false;
        Write(false);
        return;
      }
      var d := p.value[n];
      Write(d > 0);
      timerPeriod := MsToTicks(if d < 0 then -d else d, tickRate);
      timerRunning := true;
      n := (n + 1) % |p.value|;
      if signal.Some? && n == 0 {
        signal := None;
      }
    }
  }

  /** led_status_set; a null status is left alone. */
  method SetStatus(status: LedStatus?, p: Option<seq<int>>)
    requires status != null ==> status.Valid()
    requires PatternOk(p)
    modifies status
    ensures status != null ==> status.Valid()
    ensures status != null ==>
      var r := SetPattern(old(status.Snapshot()), p);
      && status.Snapshot() == r.state
      && (r.outs == [] ==>
          && status.level == old(status.level) && status.timerRunning == old(status.timerRunning)
          && status.timerPeriod == old(status.timerPeriod))
      && (r.outs != [] ==> status.Shown(r.outs[0]))
  {
    if status == null {
      return;
    }
    status.pattern := p;
    if status.signal.None? {
      status.n := 0;
      status.Tick();
    }
  }

  /** led_status_signal; a null status is left alone. */
  method SignalStatus(status: LedStatus?, p: Option<seq<int>>)
    requires status != null ==> status.Valid()
    requires PatternOk(p)
    modifies status
    ensures status != null ==> status.Valid()
    ensures status != null ==>
      var r := SetSignal(old(status.Snapshot()), p);
      && status.Snapshot() == r.state
      && (r.outs == [] ==>
          && status.level == old(status.level) && status.timerRunning == old(status.timerRunning)
          && status.timerPeriod == old(status.timerPeriod))
      && (r.outs != [] ==> status.Shown(r.outs[0]))
  {
    if status == null {
      return;
    }
    if status.signal.None? && p.None? {
      return;
    }
    status.signal := p;
    status.n := 0;
    status.Tick();
  }
}
