/** The PWM schedule as the timer interrupt sees it: slots of the arena visited
    from the home entry along `next`, and what one interrupt does with a slot. */
module Schedule {

  /** One slot of the schedule arena: the tick at which it fires, the pins it
      drives high (set mask), the pins it drives low (clear mask) and the index
      of the slot that fires after it. */
  datatype Entry = Entry(ticks: nat, pinsS: set<nat>, pinsC: set<nat>, next: nat)

  /** What one timer interrupt does: the mask written to the set register, the
      mask written to the clear register, and the countdown loaded into the timer. */
  datatype Firing = Firing(raise: set<nat>, lower: set<nat>, load: int)

  /** One interrupt at entry `curr` whose successor fires at `nextTicks`
      (0 marks the wrap back to the home entry, which stands for the period). */
  function Fire(curr: Entry, nextTicks: nat, period: nat, reverse: bool): (f: Firing)
    ensures curr.ticks < (if nextTicks == 0 then period else nextTicks) ==> f.load > 0
    ensures reverse ==> f.raise == curr.pinsC && f.lower == curr.pinsS
    ensures !reverse ==> f.raise == curr.pinsS && f.lower == curr.pinsC
  {
    var target := if nextTicks == 0 then period else nextTicks;
    if reverse then Firing(curr.pinsC, curr.pinsS, target - curr.ticks)
    else Firing(curr.pinsS, curr.pinsC, target - curr.ticks)
  }

  /** The level of pin `b` after the set register and then the clear register
      have been written, starting from `level`. */
  function Drive(f: Firing, b: nat, level: bool): (lv: bool)
    ensures lv <==> b !in f.lower && (b in f.raise || level)
  {
    if b in f.lower then false else if b in f.raise then true else level
  }

  /** Swapping the two masks is the whole effect of the reverse flag. */
  lemma FireReverse(curr: Entry, nextTicks: nat, period: nat)
    ensures Fire(curr, nextTicks, period, true).raise == Fire(curr, nextTicks, period, false).lower
    ensures Fire(curr, nextTicks, period, true).lower == Fire(curr, nextTicks, period, false).raise
    ensures Fire(curr, nextTicks, period, true).load == Fire(curr, nextTicks, period, false).load
  {
  }

  /** Ticks strictly increase along the traversal. */
  predicate Ascending(v: seq<Entry>)
  {
    forall i, j :: 0 <= i < j < |v| ==> v[i].ticks < v[j].ticks
  }

  /** A traversal `v` (v[0] is the home entry) that the interrupt can replay:
      home at tick 0, ascending ticks below the period, no set bits outside the
      home entry, no empty non-home entry, and each pin cleared by at most one
      non-home entry. */
  predicate WellFormed(v: seq<Entry>, period: nat)
  {
    && |v| >= 1
    && v[0].ticks == 0
    && Ascending(v)
    && v[|v| - 1].ticks < period
    && (forall k :: 1 <= k < |v| ==> v[k].pinsS == {} && v[k].pinsC != {})
    && (forall i, j :: 1 <= i < j < |v| ==> v[i].pinsC !! v[j].pinsC)
  }

  /** Position of the entry that fires after position `c`. */
  function NextPos(v: seq<Entry>, c: nat): (r: nat)
    requires c < |v|
    ensures r < |v|
    ensures r == 0 <==> c == |v| - 1
  {
    if c + 1 < |v| then c + 1 else 0
  }

  /** The interrupt fired at position `c` of the traversal. */
  function FireAt(v: seq<Entry>, c: nat, period: nat, reverse: bool): Firing
    requires c < |v|
  {
    Fire(v[c], v[NextPos(v, c)].ticks, period, reverse)
  }

  /** Every countdown loaded over a well-formed traversal is positive. */
  lemma LoadPositive(v: seq<Entry>, period: nat, c: nat, reverse: bool)
    requires WellFormed(v, period)
    requires c < |v|
    ensures FireAt(v, c, period, reverse).load > 0
  {
    if c + 1 < |v| {
      assert v[c].ticks < v[c + 1].ticks;
      assert v[c + 1].ticks > 0 by { assert v[0].ticks < v[c + 1].ticks; }
    } else {
      assert v[c].ticks < period;
    }
  }

  /** Time spent from firing `c` to the end of the traversal. */
  function CycleTime(v: seq<Entry>, period: nat, c: nat): int
    decreases |v| - c
  {
    if c >= |v| then 0 else FireAt(v, c, period, false).load + CycleTime(v, period, c + 1)
  }

  lemma {:induction false} CycleTimeFrom(v: seq<Entry>, period: nat, c: nat)
    requires WellFormed(v, period)
    requires c < |v|
    ensures CycleTime(v, period, c) == period - v[c].ticks
    decreases |v| - c
  {
    if c + 1 < |v| {
      CycleTimeFrom(v, period, c + 1);
      assert v[c + 1].ticks > 0 by { assert v[0].ticks < v[c + 1].ticks; }
    }
  }

  /** The countdowns loaded over one full traversal add up to the period. */
  lemma CycleIsPeriod(v: seq<Entry>, period: nat)
    requires WellFormed(v, period)
    ensures CycleTime(v, period, 0) == period
  {
    CycleTimeFrom(v, period, 0);
  }

  /** Time during which pin `b` is high from firing `c` to the end of the
      traversal, when it enters firing `c` at `level`. */
  function HighTime(v: seq<Entry>, period: nat, reverse: bool, b: nat, c: nat, level: bool): int
    decreases |v| - c
  {
    if c >= |v| then 0
    else
      var f := FireAt(v, c, period, reverse);
      var lv := Drive(f, b, level);
      (if lv then f.load else 0) + HighTime(v, period, reverse, b, c + 1, lv)
  }

  /** A pin that is low and never raised again stays low. */
  lemma {:induction false} StaysLow(v: seq<Entry>, period: nat, b: nat, c: nat)
    requires WellFormed(v, period)
    requires 1 <= c
    ensures HighTime(v, period, false, b, c, false) == 0
    decreases |v| - c
  {
    if c < |v| {
      StaysLow(v, period, b, c + 1);
    }
  }

  /** A pin that is high stays high until the first entry that clears it. */
  lemma {:induction false} HighUntil(v: seq<Entry>, period: nat, b: nat, c: nat, j: nat)
    requires WellFormed(v, period)
    requires 1 <= c <= j < |v|
    requires b in v[j].pinsC
    requires forall k :: c <= k < j ==> b !in v[k].pinsC
    ensures HighTime(v, period, false, b, c, true) == v[j].ticks - v[c].ticks
    decreases j - c
  {
    if c == j {
      StaysLow(v, period, b, c + 1);
    } else {
      HighUntil(v, period, b, c + 1, j);
    }
  }

  /** A pin that is high and never cleared again stays high to the end of the period. */
  lemma {:induction false} HighToEnd(v: seq<Entry>, period: nat, b: nat, c: nat)
    requires WellFormed(v, period)
    requires 1 <= c < |v|
    requires forall k :: c <= k < |v| ==> b !in v[k].pinsC
    ensures HighTime(v, period, false, b, c, true) == period - v[c].ticks
    decreases |v| - c
  {
    if c + 1 < |v| {
      HighToEnd(v, period, b, c + 1);
      assert v[c].ticks < v[c + 1].ticks;
    }
  }

  /** Duty proportionality: a pin raised by the home entry and cleared by the
      non-home entry at position `j` is high for exactly that entry's tick
      count in every period, whatever level it had before. */
  lemma OnTimeIsClearTick(v: seq<Entry>, period: nat, b: nat, j: nat, level: bool)
    requires WellFormed(v, period)
    requires b in v[0].pinsS && b !in v[0].pinsC
    requires 1 <= j < |v| && b in v[j].pinsC
    ensures HighTime(v, period, false, b, 0, level) == v[j].ticks
  {
    forall k | 1 <= k < j ensures b !in v[k].pinsC {
      assert v[k].pinsC !! v[j].pinsC;
    }
    HighUntil(v, period, b, 1, j);
  }

  /** A pin cleared by the home entry and by no other entry is never high. */
  lemma OffAllPeriod(v: seq<Entry>, period: nat, b: nat, level: bool)
    requires WellFormed(v, period)
    requires b in v[0].pinsC
    ensures HighTime(v, period, false, b, 0, level) == 0
  {
    StaysLow(v, period, b, 1);
  }

  /** A pin raised by the home entry and cleared by none is high for the whole period. */
  lemma OnAllPeriod(v: seq<Entry>, period: nat, b: nat, level: bool)
    requires WellFormed(v, period)
    requires b in v[0].pinsS && b !in v[0].pinsC
    requires forall k :: 1 <= k < |v| ==> b !in v[k].pinsC
    ensures HighTime(v, period, false, b, 0, level) == period
  {
    if |v| == 1 {
      assert HighTime(v, period, false, b, 1, true) == 0;
    } else {
      HighToEnd(v, period, b, 1);
    }
  }

  /** With the reverse flag set, a pin is high exactly when it would be low
      without it, from any firing on, provided no entry both sets and clears it. */
  lemma {:induction false} ReverseComplements(v: seq<Entry>, period: nat, b: nat, c: nat, level: bool)
    requires forall k :: 0 <= k < |v| ==> !(b in v[k].pinsS && b in v[k].pinsC)
    ensures HighTime(v, period, true, b, c, !level) + HighTime(v, period, false, b, c, level)
            == CycleTime(v, period, c)
    decreases |v| - c
  {
    if c < |v| {
      var lv := Drive(FireAt(v, c, period, false), b, level);
      assert Drive(FireAt(v, c, period, true), b, !level) == !lv;
      ReverseComplements(v, period, b, c + 1, lv);
    }
  }

  /** Over one period a reversed output is high for the period minus the time
      the same schedule would keep it high unreversed. */
  lemma ReversedOnTime(v: seq<Entry>, period: nat, b: nat, level: bool)
    requires WellFormed(v, period)
    requires !(b in v[0].pinsS && b in v[0].pinsC)
    ensures HighTime(v, period, true, b, 0, !level) == period - HighTime(v, period, false, b, 0, level)
  {
    ReverseComplements(v, period, b, 0, level);
    CycleIsPeriod(v, period);
  }
}
