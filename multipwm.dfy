/** The multi-channel PWM engine of components/multipwm1/multipwm.c: a fixed
    arena of schedule slots linked into a circular, tick-ordered list that one
    hardware countdown timer replays, and the in-place duty-update algorithm. */
module MultiPwm {
  import opened Schedule
  import opened Arena
  import opened Update
  import opened Output

  /** One channel: the output pin it drives and the duty last recorded for it. */
  datatype PwmPin = PwmPin(pin: nat, duty: nat)

  /** The channels `ps` with the first `n` given the duty `duty`. */
  function WithDuty(ps: seq<PwmPin>, n: nat, duty: nat): (r: seq<PwmPin>)
    ensures |r| == |ps|
    ensures forall j :: 0 <= j < |ps| ==> r[j].pin == ps[j].pin
    ensures forall j :: 0 <= j < |ps| ==> r[j].duty == (if j < n then duty else ps[j].duty)
  {
    seq(|ps|, j requires 0 <= j < |ps| => if j < n then ps[j].(duty := duty) else ps[j])
  }

  lemma WithDutyStep(ps: seq<PwmPin>, n: nat, duty: nat)
    requires n < |ps|
    ensures WithDuty(ps, n, duty)[n := ps[n].(duty := duty)] == WithDuty(ps, n + 1, duty)
  {
  }

  class PwmInfo {
    /** MULTIPWM_MAX_CHANNELS: the arena has one slot more than this. */
    const maxChannels: nat
    /** Number of channels in use (filled in by the caller before init). */
    const channels: nat
    /** Active-low wiring: the interrupt swaps the two masks. */
    const reverse: bool
    /** Length of one PWM period in timer ticks (MULTIPWM_MAX_PERIOD). */
    const period: nat
    const pins: array<PwmPin>
    const sched: array<Entry>

    var configuredPins: set<nat>
    /** Tick of the entry the interrupt fired last. */
    var tick: nat
    /** The slot the next interrupt fires. */
    var current: nat
    /** Whether the hardware timer is enabled. */
    var running: bool
    /** Last value handed to the timer's load register. */
    var load: int

    /** Slot indices in traversal order from the home slot 0. */
    ghost var order: seq<nat>

    /** The arena is a well-formed circular list with whole masks. */
    ghost predicate Valid()
      reads this`order, sched
    {
      && sched.Length == maxChannels + 1
      && pins.Length == maxChannels
      && channels <= maxChannels
      && Chain(sched[..], order, period)
      && MasksOk(sched[..])
    }

    /** The interrupt's cursor is a slot in the list. */
    ghost predicate CursorOk()
      reads this`current, sched
    {
      current < sched.Length && (current == 0 || sched[current].ticks > 0)
    }

    /** The schedule in the order the interrupt replays it. */
    ghost function View(): (v: seq<Entry>)
      reads this`order, sched
      ensures |v| == |order|
    {
      ViewOf(sched[..], order)
    }

    /** multipwm_init, on the statically zeroed engine the caller provides
        with `channels` and `reverse` filled in. */
    constructor Init(maxChannels: nat, period: nat, channels: nat, reverse: bool)
      requires channels <= maxChannels
      requires period > 0
      ensures Valid() && CursorOk()
      ensures this.maxChannels == maxChannels && this.period == period
      ensures this.channels == channels && this.reverse == reverse
      ensures order == [0] && sched[0] == Entry(0, {}, {}, 0)
      ensures current == 0 && tick == 0 && configuredPins == {} && !running
      ensures forall k :: 0 <= k < pins.Length ==> pins[k] == PwmPin(0, 0)
      ensures fresh(sched) && fresh(pins)
    {
      this.maxChannels := maxChannels;
      this.channels := channels;
      this.reverse := reverse;
      this.period := period;
      pins := new PwmPin[maxChannels](_ => PwmPin(0, 0));
      sched := new Entry[maxChannels + 1](_ => Entry(0, {}, {}, 0));
      configuredPins := {};
      tick := 0;
      current := 0;
      running := false;
      load := 0;
      order := [0];
      new;
      assert forall i :: 0 <= i < sched.Length ==> sched[i] == Entry(0, {}, {}, 0);
    }

    /** multipwm_start: load a one-tick countdown and enable the timer. */
    method Start()
      modifies this`running, this`load
      ensures running && load == 1
    {
      load := 1;
      running := true;
    }

    /** multipwm_stop: disable the timer. */
    method Stop()
      modifies this`running
      ensures !running
    {
      running := false;
    }

    /** multipwm_set_pin: bind `channel` to `pin` with duty 0. */
    method SetPin(channel: nat, pin: nat)
      requires Valid()
      modifies this`configuredPins, pins
      ensures Valid()
      ensures channel >= channels ==> configuredPins == old(configuredPins) && pins[..] == old(pins[..])
      ensures channel < channels ==>
        && configuredPins == old(configuredPins) + {pin}
        && pins[..] == old(pins[..])[channel := PwmPin(pin, 0)]
    {
      if channel >= channels {
        return;
      }
      pins[channel] := PwmPin(pin, 0);
      configuredPins := configuredPins + {pin};
    }

    /** The timer interrupt: write the current slot's masks, load the
        countdown to the next slot and advance the cursor. */
    method Interrupt() returns (raise: set<nat>, lower: set<nat>)
      requires Valid() && CursorOk()
      modifies this`current, this`tick, this`load
      ensures CursorOk()
      ensures Firing(raise, lower, load)
              == Fire(sched[old(current)], sched[sched[old(current)].next].ticks, period, reverse)
      ensures load > 0
      ensures tick == sched[old(current)].ticks && current == sched[old(current)].next
    {
      var curr := current;
      var currNext := sched[curr].next;
      Successor(sched[..], order, period, curr);
      var tickNext := sched[currNext].ticks;
      if reverse {
        raise, lower := sched[curr].pinsC, sched[curr].pinsS;
      } else {
        raise, lower := sched[curr].pinsS, sched[curr].pinsC;
      }
      if tickNext == 0 {
        tickNext := period;
      }
      tick := sched[curr].ticks;
      current := currNext;
      load := tickNext - tick;
      ghost var f := Fire(sched[curr], sched[currNext].ticks, period, reverse);
      assert f.raise == raise && f.lower == lower && f.load == load;
    }
 
    /** One pass of the do-while loop of multipwm_set_duty at the cursor:
        visit the entry, test for the insertion gap, advance, and report
        whether the cursor is back at the home entry. */
    method Step(b: nat, duty: nat, prv0: nat, cur0: nat, insert0: bool, prev0: nat, nxt0: nat,
                ghost s0: seq<Entry>, ghost m: nat, ghost w: Walk)
      returns (prv: nat, cur: nat, insert: bool, prev: nat, nxt: nat, done: bool)
      requires sched[..] == Partial(s0, b, duty, m)
      requires w.prv == prv0 && w.cur == cur0 && w.insert == insert0 && w.prev == prev0 && w.nxt == nxt0
      requires prv0 < |s0| && cur0 < |s0| && s0[cur0].next < |s0|
      modifies sched
      ensures sched[..] == old(sched[..])[cur0 := Strip(old(sched[..])[cur0], b, duty)]
      ensures var w' := Advance(s0, duty, w);
        prv == w'.prv && cur == w'.cur && insert == w'.insert && prev == w'.prev && nxt == w'.nxt
      ensures cur < |s0| && (done <==> s0[cur].ticks == 0)
    {
      prv, cur, insert, prev, nxt := prv0, cur0, insert0, prev0, nxt0;
      var e := sched[cur];
      if duty == e.ticks {
        sched[cur] := e.(pinsS := e.pinsS - {b}, pinsC := e.pinsC + {b});
      } else if e.ticks > 0 {
        sched[cur] := e.(pinsS := e.pinsS - {b}, pinsC := e.pinsC - {b});
      }
      if duty > sched[prv].ticks && duty < sched[cur].ticks {
        insert, nxt, prev := true, cur, prv;
      } else if sched[sched[cur].next].ticks == 0 && duty > sched[cur].ticks {
        insert, nxt, prev := true, sched[cur].next, cur;
      }
      prv := cur;
      cur := sched[cur].next;
      done := sched[cur].ticks == 0;
    }

    /** The walk of multipwm_set_duty over the entries in use: every entry
        other than 0 forgets pin `b` except the one at tick `duty`, which
        clears it, and the gap where a new entry at `duty` belongs is found
        when no entry has that tick. */
    method Merge(b: nat, duty: nat) returns (insert: bool, prev: nat, nxt: nat, ghost q: nat)
      requires sched.Length >= 1 && Chain(sched[..], order, period)
      requires duty < period
      requires duty == 0 ==> b !in sched[0].pinsS && b in sched[0].pinsC
      modifies sched
      ensures sched[..] == Stripped(old(sched[..]), b, duty)
      ensures insert <==> duty > 0 && !HasTick(old(sched[..]), duty)
      ensures insert ==> GapAt(old(sched[..]), order, period, duty, q, prev, nxt)
    {
      ghost var s0 := sched[..];
      ghost var ord := order;
      WalkStart(s0, ord, period, duty);
      PartialStart(s0, ord, period, b, duty);
      var prv := 0;
      var cur := sched[0].next;
      insert, prev, nxt, q := false, 0, 0, 0;
      ghost var w := Walk(prv, cur, insert, prev, nxt, 1, q, duty == 0, 0);
      while true
        invariant WalkOk(s0, ord, period, duty, w)
        invariant w.prv == prv && w.cur == cur && w.insert == insert && w.prev == prev && w.nxt == nxt && w.q == q
        invariant cur < |s0| && sched[..] == Partial(s0, b, duty, Mark(s0, period, cur))
        decreases |ord| - w.p
      {
        WalkStep(s0, ord, period, duty, w);
        ghost var w0 := w;
        var done;
        prv, cur, insert, prev, nxt, done := Step(b, duty, prv, cur, insert, prev, nxt, s0, Mark(s0, period, cur), w);
        WalkVisit(s0, ord, period, b, duty, w0, sched[..]);
        w := Advance(s0, duty, w0);
        q := w.q;
        if done {
          break;
        }
      }
    }

    /** The allocation loop of multipwm_set_duty: the first free slot (tick
        0) becomes an entry at `duty` that clears pin `b`, linked between
        `prev` and `nxt`; when every slot is in use nothing changes. */
    method Allocate(b: nat, duty: nat, prev: nat, nxt: nat, ghost q: nat) returns (ghost f: nat)
      requires Chain(sched[..], order, period)
      requires GapAt(sched[..], order, period, duty, q, prev, nxt)
      modifies sched, this`order
      ensures f == 0 ==>
        && sched[..] == old(sched[..]) && order == old(order)
        && !HasFree(old(sched[..]))
      ensures f != 0 ==>
        && 1 <= f < sched.Length && old(sched[..])[f].ticks == 0
        && (forall i :: 1 <= i < f ==> old(sched[..])[i].ticks != 0)
        && sched[..] == Spliced(old(sched[..]), old(order), q, f, Entry(duty, {}, old(sched[..])[f].pinsC + {b}, nxt))
        && order == InsertAt(old(order), q, f)
    {
      ghost var s := sched[..];
      ghost var o := order;
      var ii := 1;
      while ii < sched.Length && sched[ii].ticks != 0
        invariant 1 <= ii <= sched.Length
        invariant forall i :: 1 <= i < ii ==> s[i].ticks != 0
        invariant sched[..] == s && order == o
      {
        ii := ii + 1;
      }
      f := 0;
      if ii < sched.Length {
        sched[ii] := Entry(duty, {}, sched[ii].pinsC + {b}, nxt);
        sched[prev] := sched[prev].(next := ii);
        order := InsertAt(order, q, ii);
        f := ii;
        assert sched[..] == Spliced(s, o, q, ii, Entry(duty, {}, s[ii].pinsC + {b}, nxt));
      }
    }

    /** The cleanup walk of multipwm_set_duty: the first entry in use whose
        masks are both empty is unlinked and freed, and the interrupt's
        cursor and tick restart from the home entry. On a list holding only
        the home entry the walk looks at the home entry itself. A running
        timer is stopped for the walk and restarted after it. */
    method Cleanup() returns (ghost found: bool, ghost p: nat)
      requires Chain(sched[..], order, period)
      modifies sched, this`order, this`current, this`tick, this`running, this`load
      ensures running == old(running) && load == (if old(running) then 1 else old(load))
      ensures found ==> current == 0 && tick == 0
      ensures Swept(old(sched[..]), old(order), sched[..], order, found, p)
      ensures !found ==> current == old(current) && tick == old(tick)
    {
      var wasRunning := running;
      if wasRunning {
        Stop();
      }
      found, p := Sweep();
      if wasRunning {
        Start();
      }
    }

    /** The search of the cleanup walk: the first entry in use with no pins,
        found at position `k` of the traversal behind `prv`, or none. */
    method FindEmpty() returns (hit: bool, prv: nat, cur: nat, ghost k: nat)
      requires Chain(sched[..], order, period)
      ensures 1 <= k <= |order| && prv == order[k - 1] && cur < sched.Length
      ensures forall j :: 1 <= j < k ==> !Empty(sched[..][order[j]])
      ensures hit ==> Empty(sched[..][cur]) && ((k < |order| && cur == order[k]) || (|order| == 1 && cur == 0))
      ensures !hit ==> k == |order| && (|order| == 1 ==> !Empty(sched[..][0]))
    {
      ghost var s := sched[..];
      ghost var o := order;
      NextOf(s, o, period, 0);
      prv := 0;
      cur := sched[0].next;
      k := 1;
      hit := false;
      var stop := false;
      while !stop
        invariant 1 <= k <= |o| && prv == o[k - 1]
        invariant cur < |s|
        invariant !stop || hit ==> (k < |o| && cur == o[k]) || (|o| == 1 && cur == 0)
        invariant forall j :: 1 <= j < k ==> !Empty(s[o[j]])
        invariant hit ==> stop && Empty(s[cur])
        invariant stop && !hit ==> k == |o| && (|o| == 1 ==> !Empty(s[0]))
        decreases |o| - k, if stop then 0 else 1
      {
        if sched[cur].pinsS == {} && sched[cur].pinsC == {} {
          hit, stop := true, true;
        } else {
          NextOf(s, o, period, if cur == 0 then 0 else k);
          prv := cur;
          k := if cur == 0 then k else k + 1;
          cur := sched[cur].next;
          stop := sched[cur].ticks == 0;
        }
      }
    }

    /** The walk of the cleanup, with the timer stopped. */
    method Sweep() returns (ghost found: bool, ghost p: nat)
      requires Chain(sched[..], order, period)
      modifies sched, this`order, this`current, this`tick
      ensures found ==> current == 0 && tick == 0
      ensures Swept(old(sched[..]), old(order), sched[..], order, found, p)
      ensures !found ==> current == old(current) && tick == old(tick)
    {
      ghost var s := sched[..];
      ghost var o := order;
      var hit, prv, cur, k := FindEmpty();
      assert InRange(s, o);
      found, p := hit, 0;
      if hit {
        current := 0;
        tick := 0;
        sched[prv] := sched[prv].(next := sched[cur].next);
        sched[cur] := sched[cur].(ticks := 0);
        if cur != 0 {
          p := k;
          order := RemoveAt(order, k);
          assert sched[..] == Unlinked(s, o, k);
        } else {
          assert sched[..] == s;
        }
      }
    }

    /** The first half of multipwm_set_duty for pin `b`: fix the home
        entry, walk the list, and allocate the entry for `duty` when one is
        due. */
    method Reschedule(b: nat, duty: nat)
      requires Chain(sched[..], order, period) && MasksOk(sched[..])
      requires duty < period
      modifies sched, this`order
      ensures Rescheduled(old(sched[..]), sched[..], order, b, duty, period)
    {
      ghost var s0 := sched[..];
      ghost var o := order;
      var home := sched[0];
      if duty == 0 {
        sched[0] := home.(pinsS := home.pinsS - {b}, pinsC := home.pinsC + {b});
      } else {
        sched[0] := home.(pinsC := home.pinsC - {b}, pinsS := home.pinsS + {b});
      }
      assert sched[..] == s0[0 := Home(s0[0], b, duty)];
      ghost var s1 := sched[..];
      assert Chain(s1, o, period) by {
        HomeStep(s0, o, period, b, duty);
      }
      var insert, prev, nxt, q := Merge(b, duty);
      ghost var s2 := sched[..];
      assert Chain(s2, o, period) && (insert ==> GapAt(s2, o, period, duty, q, prev, nxt)) by {
        HomeStep(s0, o, period, b, duty);
        MergeStep(s1, o, period, b, duty, insert, q, prev, nxt);
      }
      ghost var f := 0;
      if insert {
        f := Allocate(b, duty, prev, nxt, q);
      }
      RescheduleStep(s0, o, period, b, duty, insert, q, prev, nxt, f, sched[..], order);
    }

    /** Everything multipwm_set_duty does to the schedule for pin `b`. */
    method Place(b: nat, duty: nat) returns (ghost found: bool)
      requires Valid()
      requires duty < period
      modifies sched, this`order, this`current, this`tick, this`running, this`load
      ensures Valid()
      ensures DutySet(old(sched[..]), sched[..], order, b, duty, period)
      ensures running == old(running) && load == (if old(running) then 1 else old(load))
      ensures found ==> current == 0 && tick == 0 && Freed(old(sched[..]), sched[..])
      ensures !found ==>
        && current == old(current) && tick == old(tick)
        && forall i :: 0 <= i < sched.Length && old(sched[..])[i].ticks > 0 ==> sched[..][i].ticks > 0
    {
      ghost var s0 := sched[..];
      ghost var c0, t0, r0, l0 := current, tick, running, load;
      Reschedule(b, duty);
      assert current == c0 && tick == t0 && running == r0 && load == l0;
      ghost var s3 := sched[..];
      ghost var o3 := order;
      ghost var p;
      found, p := Cleanup();
      ghost var u := sched[..];
      FinishStep(s0, s3, o3, b, duty, period, found, p, u, order);
    }

    /** multipwm_set_duty: record the duty of `channel` and rebuild the
        schedule so that the channel's pin is placed at `duty`; the timer is
        stopped around the cleanup when it was running. */
    method SetDuty(channel: nat, duty: nat)
      requires Valid() && CursorOk()
      requires duty < period
      modifies pins, sched, this`order, this`current, this`tick, this`running, this`load
      ensures Valid() && CursorOk()
      ensures running == old(running)
      ensures load == (if channel < channels && old(running) then 1 else old(load))
      ensures channel >= channels ==>
        && pins[..] == old(pins[..]) && sched[..] == old(sched[..]) && order == old(order)
        && current == old(current) && tick == old(tick)
      ensures channel < channels ==>
        && pins[..] == old(pins[..])[channel := old(pins[channel]).(duty := duty)]
        && DutySet(old(sched[..]), sched[..], order, old(pins[channel]).pin, duty, period)
      ensures Freed(old(sched[..]), sched[..]) ==> current == 0 && tick == 0
      ensures !Freed(old(sched[..]), sched[..]) ==> current == old(current) && tick == old(tick)
    {
      if channel >= channels {
        return;
      }
      pins[channel] := pins[channel].(duty := duty);
      var b := pins[channel].pin;
      ghost var s0 := sched[..];
      ghost var found := Place(b, duty);
      assert !found ==> current == 0 || s0[current].ticks > 0;
      assert !found ==> !Freed(s0, sched[..]);
    }

    /** One round of multipwm_set_duty_all with the timer stopped: set the
        duty of `channel`, keeping the channels before it at `duty`. */
    method SetDutyOf(channel: nat, duty: nat)
      requires Valid() && CursorOk() && !running
      requires duty < period && channel < channels
      requires forall j :: 0 <= j < channel ==> Confined(sched[..], pins[j].pin, duty)
      modifies pins, sched, this`order, this`current, this`tick, this`running, this`load
      ensures Valid() && CursorOk() && !running
      ensures pins[..] == old(pins[..])[channel := old(pins[channel]).(duty := duty)]
      ensures forall j :: 0 <= j <= channel ==> Confined(sched[..], pins[j].pin, duty)
    {
      ghost var s := sched[..];
      ghost var ps := pins[..];
      ghost var done := set j | 0 <= j < channel :: ps[j].pin;
      ghost var b := pins[channel].pin;
      SetDuty(channel, duty);
      ghost var t := sched[..];
      ConfinedAdd(s, t, order, b, duty, period, done);
      forall j | 0 <= j <= channel ensures Confined(t, pins[j].pin, duty) {
        assert pins[j].pin == ps[j].pin;
        assert ps[j].pin in done + {b};
      }
    }

    /** multipwm_set_duty_all: stop the timer, give every channel `duty`,
        start the timer. */
    method SetDutyAll(duty: nat)
      requires Valid() && CursorOk()
      requires duty < period
      modifies pins, sched, this`order, this`current, this`tick, this`running, this`load
      ensures Valid() && CursorOk()
      ensures running && load == 1
      ensures pins[..] == WithDuty(old(pins[..]), channels, duty)
      ensures forall j :: 0 <= j < channels ==> Confined(sched[..], pins[j].pin, duty)
    {
      ghost var c1, t1, l1 := current, tick, load;
      Stop();
      assert current == c1 && tick == t1 && load == l1;
      SetEach(duty);
      ghost var c0, t0 := current, tick;
      Start();
      assert current == c0 && tick == t0;
    }

    /** The loop of multipwm_set_duty_all, with the timer stopped. */
    method SetEach(duty: nat)
      requires Valid() && CursorOk() && !running
      requires duty < period
      modifies pins, sched, this`order, this`current, this`tick, this`running, this`load
      ensures Valid() && CursorOk() && !running
      ensures pins[..] == WithDuty(old(pins[..]), channels, duty)
      ensures forall j :: 0 <= j < channels ==> Confined(sched[..], pins[j].pin, duty)
    {
      ghost var ps := pins[..];
      var ii := 0;
      while ii < channels
        invariant ii <= channels && !running
        invariant Valid() && CursorOk()
        invariant pins[..] == WithDuty(ps, ii, duty)
        invariant forall j :: 0 <= j < ii ==> Confined(sched[..], pins[j].pin, duty)
      {
        SetDutyOf(ii, duty);
        assert pins[..] == WithDuty(ps, ii + 1, duty) by {
          WithDutyStep(ps, ii, duty);
        }
        ii := ii + 1;
      }
    }
  }
}
