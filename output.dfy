/** What a pin's duty means on the wire: how long the interrupt keeps the
    pin high over one period of the schedule that multipwm_set_duty leaves. */
module Output {
  import opened Schedule
  import opened Arena
  import opened Update

  /** Pin `b` as a duty of `duty` leaves it: the home entry raises it (clears
      it when `duty` is 0) and every other entry that clears it fires at
      `duty`. */
  ghost predicate Confined(s: seq<Entry>, b: nat, duty: nat)
    requires |s| >= 1
  {
    && (duty == 0 ==> b in s[0].pinsC && b !in s[0].pinsS)
    && (duty > 0 ==> b in s[0].pinsS && b !in s[0].pinsC)
    && (forall i :: 1 <= i < |s| && b in s[i].pinsC ==> s[i].ticks == duty)
  }

  /** Setting the duty of pin `b` confines `b` to that duty. */
  lemma DutyConfines(s: seq<Entry>, t: seq<Entry>, order: seq<nat>, b: nat, duty: nat, period: nat)
    requires DutySet(s, t, order, b, duty, period)
    ensures Confined(t, b, duty)
  {
  }

  /** Setting the duty of pin `b` leaves every other pin where it was:
      confined to its duty, and cleared by some entry exactly when it was
      before, so its on-time is unchanged. */
  lemma OtherConfined(s: seq<Entry>, t: seq<Entry>, order: seq<nat>, b: nat, duty: nat, period: nat,
                      c: nat, d: nat)
    requires DutySet(s, t, order, b, duty, period)
    requires c != b && Confined(s, c, d)
    ensures Confined(t, c, d)
    ensures Clears(t, c) <==> Clears(s, c)
    ensures OnTime(t, c, d, period) == OnTime(s, c, d, period)
  {
    if Clears(t, c) {
      var i :| 1 <= i < |t| && c in t[i].pinsC;
      assert c in s[i].pinsC - {b};
    }
    if Clears(s, c) {
      var i :| 1 <= i < |s| && c in s[i].pinsC;
      assert c in t[i].pinsC - {b};
    }
    assert c in t[0].pinsS <==> c in s[0].pinsS by {
      assert c in t[0].pinsS - {b} <==> c in s[0].pinsS - {b};
    }
    assert c in t[0].pinsC <==> c in s[0].pinsC by {
      assert c in t[0].pinsC - {b} <==> c in s[0].pinsC - {b};
    }
    forall i | 1 <= i < |t| && c in t[i].pinsC ensures t[i].ticks == d {
      assert c in t[i].pinsC - {b};
      assert c in s[i].pinsC - {b};
    }
  }

  /** With a positive duty and room for it, exactly one entry fires at
      `duty`, and that entry clears `b`: two channels with the same duty
      share one entry. */
  lemma OneEntryAtDuty(s: seq<Entry>, t: seq<Entry>, order: seq<nat>, b: nat, duty: nat, period: nat)
    requires DutySet(s, t, order, b, duty, period)
    requires duty > 0 && (HasTick(s, duty) || HasFree(s))
    ensures exists i :: 1 <= i < |t| && t[i].ticks == duty && b in t[i].pinsC
    ensures forall i, j :: 1 <= i < |t| && 1 <= j < |t| && t[i].ticks == duty && t[j].ticks == duty ==> i == j
  {
    var i :| 1 <= i < |t| && b in t[i].pinsC;
    assert t[i].ticks == duty;
    forall i, j | 1 <= i < |t| && 1 <= j < |t| && t[i].ticks == duty && t[j].ticks == duty
      ensures i == j
    {
      TicksDistinct(t, order, period, i, j);
    }
  }

  /** The time pin `b` is high in one period, by the entries of the
      schedule: none when cleared at home, `duty` when an entry clears it,
      the whole period when it is raised and never cleared. */
  ghost function OnTime(s: seq<Entry>, b: nat, duty: nat, period: nat): nat
  {
    if duty == 0 then 0 else if Clears(s, b) then duty else period
  }

  /** Replaying a whole schedule keeps a confined pin high for exactly its
      on-time, whatever level it had before the home entry fired. */
  lemma HighIsOnTime(s: seq<Entry>, order: seq<nat>, period: nat, b: nat, duty: nat, level: bool)
    requires Chain(s, order, period) && MasksOk(s) && Confined(s, b, duty)
    ensures HighTime(ViewOf(s, order), period, false, b, 0, level) == OnTime(s, b, duty, period)
  {
    var v := ViewOf(s, order);
    ViewWellFormed(s, order, period);
    if duty == 0 {
      OffAllPeriod(v, period, b, level);
    } else if Clears(s, b) {
      var i :| 1 <= i < |s| && b in s[i].pinsC;
      var k := PositionOf(s, order, period, i);
      OnTimeIsClearTick(v, period, b, k, level);
    } else {
      forall k | 1 <= k < |v| ensures b !in v[k].pinsC {
        assert v[k] == s[order[k]];
      }
      OnAllPeriod(v, period, b, level);
    }
  }

  /** With the reverse flag an output is high for the rest of the period. */
  lemma ReversedIsOffTime(s: seq<Entry>, order: seq<nat>, period: nat, b: nat, duty: nat, level: bool)
    requires Chain(s, order, period) && MasksOk(s) && Confined(s, b, duty)
    ensures HighTime(ViewOf(s, order), period, true, b, 0, !level) == period - OnTime(s, b, duty, period)
  {
    var v := ViewOf(s, order);
    ViewWellFormed(s, order, period);
    HighIsOnTime(s, order, period, b, duty, level);
    ReversedOnTime(v, period, b, level);
  }

  /** Setting the duty of `b` to `duty` keeps every pin already confined
      to `duty` confined, and confines `b`. */
  lemma ConfinedAdd(s: seq<Entry>, t: seq<Entry>, order: seq<nat>, b: nat, duty: nat, period: nat,
                    done: set<nat>)
    requires DutySet(s, t, order, b, duty, period)
    requires forall c :: c in done ==> Confined(s, c, duty)
    ensures forall c :: c in done + {b} ==> Confined(t, c, duty)
  {
    forall c | c in done + {b} ensures Confined(t, c, duty) {
      if c == b {
        DutyConfines(s, t, order, b, duty, period);
      } else {
        OtherConfined(s, t, order, b, duty, period, c, duty);
      }
    }
  }

  /** Two channels on pins 1 and 2 at duties 100 and 200 of a 1000-tick
      period, with every slot of a three-slot arena in use. */
  ghost function TwoChannels(): seq<Entry>
  {
    [Entry(0, {1, 2}, {}, 1), Entry(100, {}, {1}, 2), Entry(200, {}, {2}, 0)]
  }

  /** The arena above is a whole schedule reached by ordinary updates, yet
      it has no entry at tick 300 and no free slot: moving pin 1 to duty 300
      finds no slot for the new entry, because its old entry is freed only
      by the cleanup that comes after the allocation. */
  lemma TwoChannelsFull()
    ensures Chain(TwoChannels(), [0, 1, 2], 1000) && MasksOk(TwoChannels())
    ensures Confined(TwoChannels(), 1, 100) && Confined(TwoChannels(), 2, 200)
    ensures !HasTick(TwoChannels(), 300) && !HasFree(TwoChannels())
  {
    TwoChannelsChain();
    TwoChannelsMasks();
  }

  lemma TwoChannelsChain()
    ensures Chain(TwoChannels(), [0, 1, 2], 1000)
  {
    TwoChannelsLinks();
    TwoChannelsAscends();
    TwoChannelsMembers();
  }

  lemma TwoChannelsLinks()
    ensures InRange(TwoChannels(), [0, 1, 2]) && Links(TwoChannels(), [0, 1, 2])
  {
    var s := TwoChannels();
    assert s[0].next == 1 && s[1].next == 2 && s[2].next == 0;
  }

  lemma TwoChannelsAscends()
    ensures InRange(TwoChannels(), [0, 1, 2]) && Ascends(TwoChannels(), [0, 1, 2])
  {
    var s := TwoChannels();
    assert s[0].ticks == 0 && s[1].ticks == 100 && s[2].ticks == 200;
  }

  lemma TwoChannelsMembers()
    ensures Members(TwoChannels(), [0, 1, 2]) && Below(TwoChannels(), 1000)
  {
    var s := TwoChannels();
    var order: seq<nat> := [0, 1, 2];
    assert s[0].ticks == 0 && s[1].ticks == 100 && s[2].ticks == 200;
    assert 1 in order && 2 in order;
  }

  lemma TwoChannelsMasks()
    ensures MasksOk(TwoChannels())
  {
  }

  /** So after multipwm_set_duty(pin 1, 300) on that arena no entry clears
      pin 1, and it stays high for the whole period instead of 300 ticks. */
  lemma FullArenaStaysHigh(t: seq<Entry>, order: seq<nat>, level: bool)
    requires DutySet(TwoChannels(), t, order, 1, 300, 1000)
    ensures !Clears(t, 1)
    ensures HighTime(ViewOf(t, order), 1000, false, 1, 0, level) == 1000
  {
    TwoChannelsFull();
    DutyConfines(TwoChannels(), t, order, 1, 300, 1000);
    HighIsOnTime(t, order, 1000, 1, 300, level);
  }
}
