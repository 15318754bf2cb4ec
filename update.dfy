/** The phases of multipwm_set_duty composed on arena snapshots: fix the
    home entry, strip the pin from the entries in use, allocate an entry for
    the new duty, free the entry left empty. */
module Update {
  import opened Schedule
  import opened Arena

  /** The home entry's update for pin `b`: it raises `b`, or clears it when
      the duty is 0, and keeps every other pin as it was. */
  function Home(e: Entry, b: nat, duty: nat): (r: Entry)
    ensures r.ticks == e.ticks && r.next == e.next
    ensures duty == 0 ==> b in r.pinsC && b !in r.pinsS
    ensures duty > 0 ==> b in r.pinsS && b !in r.pinsC
    ensures r.pinsS - {b} == e.pinsS - {b} && r.pinsC - {b} == e.pinsC - {b}
  {
    if duty == 0 then e.(pinsS := e.pinsS - {b}, pinsC := e.pinsC + {b})
    else e.(pinsC := e.pinsC - {b}, pinsS := e.pinsS + {b})
  }

  /** Fixing the home entry touches nothing the list or the non-home masks
      depend on. */
  lemma HomeStep(s: seq<Entry>, order: seq<nat>, period: nat, b: nat, duty: nat)
    requires Chain(s, order, period) && MasksOk(s)
    ensures var t := s[0 := Home(s[0], b, duty)];
      && Chain(t, order, period) && MasksOk(t) && Isolated(s, t, b)
      && (forall i :: 1 <= i < |s| ==> t[i] == s[i])
  {
    var t := s[0 := Home(s[0], b, duty)];
    ChainFrame(s, t, order, period);
  }

  /** Changing only the home entry changes no tick some other entry holds. */
  lemma HomeTicks(s: seq<Entry>, e: Entry, d: nat)
    requires |s| >= 1
    ensures HasTick(s[0 := e], d) <==> HasTick(s, d)
  {
    var t := s[0 := e];
    if HasTick(s, d) {
      var i :| 1 <= i < |s| && s[i].ticks == d;
      assert t[i].ticks == d;
    }
    if HasTick(t, d) {
      var i :| 1 <= i < |t| && t[i].ticks == d;
      assert s[i].ticks == d;
    }
  }

  /** After the walk: the list is intact, every entry in use holds pin `b`
      only if it is the entry at `duty`, and an insertion, when one is due,
      finds no entry at `duty` and no entry clearing `b`. */
  lemma MergeStep(s: seq<Entry>, order: seq<nat>, period: nat, b: nat, duty: nat,
                  insert: bool, q: nat, prev: nat, nxt: nat)
    requires Chain(s, order, period) && MasksOk(s) && duty < period
    requires insert <==> duty > 0 && !HasTick(s, duty)
    requires insert ==> GapAt(s, order, period, duty, q, prev, nxt)
    ensures var t := Stripped(s, b, duty);
      && Chain(t, order, period) && Loose(t) && PinAt(t, b, duty) && Isolated(s, t, b)
      && t[0] == s[0] && (forall i :: 0 <= i < |s| ==> t[i].ticks == s[i].ticks)
      && (HasFree(t) <==> HasFree(s))
      && (insert ==>
           && GapAt(t, order, period, duty, q, prev, nxt)
           && (forall i :: 1 <= i < |t| ==> t[i].ticks != duty)
           && (forall i :: 1 <= i < |t| ==> b !in t[i].pinsC))
  {
    var t := Stripped(s, b, duty);
    StripStep(s, order, period, b, duty);
    ChainFrame(s, t, order, period);
    if HasFree(t) {
      var i :| 1 <= i < |t| && t[i].ticks == 0;
      assert s[i].ticks == 0;
    }
    if HasFree(s) {
      var i :| 1 <= i < |s| && s[i].ticks == 0;
      assert t[i].ticks == 0;
    }
    if insert {
      forall i | 1 <= i < |t| ensures t[i].ticks != duty {
        assert s[i].ticks != duty;
      }
    }
  }

  /** The outcome of the cleanup walk from `s` to `t`. When `found`, the
      walk met an entry with both masks empty: the home entry itself on a list
      holding only the home entry (`p` is 0, nothing moves), or the entry in
      use at position `p`, the first such, which is unlinked and freed.
      Otherwise no entry it looked at is empty and nothing changes. */
  ghost predicate Swept(s: seq<Entry>, order: seq<nat>, t: seq<Entry>, order': seq<nat>, found: bool, p: nat)
    requires InRange(s, order)
  {
    && (found && p == 0 ==> |order| == 1 && Empty(s[0]) && t == s && order' == order)
    && (found && p != 0 ==>
         && 1 <= p < |order| && Empty(s[order[p]])
         && (forall k :: 1 <= k < p ==> !Empty(s[order[k]]))
         && t == Unlinked(s, order, p) && order' == RemoveAt(order, p))
    && (!found ==>
         && (forall k :: 1 <= k < |order| ==> !Empty(s[order[k]]))
         && (|order| == 1 ==> !Empty(s[0]))
         && t == s && order' == order)
  }

  /** After the cleanup walk: the entry it freed, if any, was the only
      entry in use with no pins, so the masks are whole again. */
  lemma CleanupStep(s: seq<Entry>, order: seq<nat>, period: nat, b: nat, duty: nat,
                    found: bool, p: nat, t: seq<Entry>, order': seq<nat>)
    requires Chain(s, order, period) && Loose(s)
    requires Swept(s, order, t, order', found, p)
    ensures Chain(t, order', period) && MasksOk(t) && Isolated(s, t, b)
    ensures PinAt(s, b, duty) ==> PinAt(t, b, duty)
    ensures |t| == |s| && forall i :: 0 <= i < |s| ==> t[i].pinsS == s[i].pinsS && t[i].pinsC == s[i].pinsC
  {
    if found && p != 0 {
      ChainRemove(s, order, period, p);
      RemoveStep(s, order, period, p, b, duty);
      forall i | 0 <= i < |s| ensures t[i].pinsS == s[i].pinsS && t[i].pinsC == s[i].pinsC {
        if i == order[p] {
          assert t[i] == s[i].(ticks := 0);
        } else if i == order[p - 1] {
          assert t[i] == s[i].(next := s[order[p]].next);
        } else {
          assert t[i] == s[i];
        }
      }
    } else {
      LooseWhole(s, order, period);
    }
  }


  /** Where pin `b` stands after its duty was set to `duty`, starting from
      `s`: the home entry raises it (clears it when `duty` is 0) and keeps
      every other pin, no other pin's clearing entry moved, and `b` is cleared
      by the entry at `duty` and by no other, unless a new entry was due and
      every slot was in use, in which case no entry clears it. */
  ghost predicate Placed(s: seq<Entry>, t: seq<Entry>, b: nat, duty: nat)
    requires |s| >= 1 && |t| == |s|
  {
    && Settled(s, t, b, duty)
    && (duty > 0 && (HasTick(s, duty) || HasFree(s)) ==> Clears(t, b))
  }

  /** `Placed` but for the existence of the entry clearing `b`. */
  ghost predicate Settled(s: seq<Entry>, t: seq<Entry>, b: nat, duty: nat)
    requires |s| >= 1 && |t| == |s|
  {
    && (duty == 0 ==> b in t[0].pinsC && b !in t[0].pinsS)
    && (duty > 0 ==> b in t[0].pinsS && b !in t[0].pinsC)
    && t[0].pinsS - {b} == s[0].pinsS - {b} && t[0].pinsC - {b} == s[0].pinsC - {b}
    && Isolated(s, t, b)
    && (duty == 0 || HasTick(s, duty) || HasFree(s) ==> PinAt(t, b, duty))
    && (duty > 0 && !HasTick(s, duty) && !HasFree(s) ==> forall i :: 1 <= i < |t| ==> b !in t[i].pinsC)
  }

  /** What the first half of multipwm_set_duty leaves: the list well formed,
      the masks whole but for at most one entry in use left empty, pin `b`
      placed, no slot in use freed, and a slot newly taken into use clears
      `b`. */
  ghost predicate Rescheduled(s: seq<Entry>, t: seq<Entry>, order: seq<nat>, b: nat, duty: nat, period: nat)
  {
    && |s| >= 1 && |t| == |s| && Chain(t, order, period) && Loose(t) && Placed(s, t, b, duty)
    && (forall i :: 0 <= i < |s| && s[i].ticks > 0 ==> t[i].ticks > 0)
    && (forall i :: 1 <= i < |s| && s[i].ticks == 0 && t[i].ticks > 0 ==> b in t[i].pinsC)
  }

  /** From `s` to `t` some slot other than 0 that was in use was freed. */
  ghost predicate Freed(s: seq<Entry>, t: seq<Entry>)
  {
    exists i :: 1 <= i < |s| && i < |t| && s[i].ticks > 0 && t[i].ticks == 0
  }

  /** What multipwm_set_duty leaves: the list well formed, the masks whole,
      and pin `b` placed. */
  ghost predicate DutySet(s: seq<Entry>, t: seq<Entry>, order: seq<nat>, b: nat, duty: nat, period: nat)
  {
    |s| >= 1 && |t| == |s| && Chain(t, order, period) && MasksOk(t) && Placed(s, t, b, duty)
  }

  /** The first half of multipwm_set_duty on arena snapshots: `s` before,
      the walk's outcome (`insert`, the gap `q`, `prev`, `nxt`), the slot `f`
      the allocation took (0 when none), and `t` after. */
  lemma RescheduleStep(s: seq<Entry>, order: seq<nat>, period: nat, b: nat, duty: nat,
                       insert: bool, q: nat, prev: nat, nxt: nat, f: nat, t: seq<Entry>, order': seq<nat>)
    requires Chain(s, order, period) && MasksOk(s) && duty < period
    requires insert <==> duty > 0 && !HasTick(s[0 := Home(s[0], b, duty)], duty)
    requires insert ==> GapAt(s[0 := Home(s[0], b, duty)], order, period, duty, q, prev, nxt)
    requires var s2 := Stripped(s[0 := Home(s[0], b, duty)], b, duty);
      && (!insert || f == 0 ==> t == s2 && order' == order)
      && (insert && f == 0 ==> !HasFree(s2))
      && (insert && f != 0 ==>
           && 1 <= f < |s2| && s2[f].ticks == 0
           && t == Spliced(s2, order, q, f, Entry(duty, {}, s2[f].pinsC + {b}, nxt))
           && order' == InsertAt(order, q, f))
    ensures Rescheduled(s, t, order', b, duty, period)
  {
    assert Chain(t, order', period) && Loose(t) && Settled(s, t, b, duty)
        && (forall i :: 0 <= i < |s| && s[i].ticks > 0 ==> t[i].ticks > 0) by {
      RescheduleShape(s, order, period, b, duty, insert, q, prev, nxt, f, t, order');
    }
    assert forall i :: 1 <= i < |s| && s[i].ticks == 0 && t[i].ticks > 0 ==> b in t[i].pinsC by {
      RescheduleFresh(s, order, period, b, duty, insert, q, prev, nxt, f, t, order');
    }
    assert duty > 0 && (HasTick(s, duty) || HasFree(s)) ==> Clears(t, b) by {
      RescheduleClears(s, order, period, b, duty, insert, q, prev, nxt, f, t, order');
    }
  }

  /** The list and the masks after the first half. */
  lemma RescheduleShape(s: seq<Entry>, order: seq<nat>, period: nat, b: nat, duty: nat,
                       insert: bool, q: nat, prev: nat, nxt: nat, f: nat, t: seq<Entry>, order': seq<nat>)
    requires Chain(s, order, period) && MasksOk(s) && duty < period
    requires insert <==> duty > 0 && !HasTick(s[0 := Home(s[0], b, duty)], duty)
    requires insert ==> GapAt(s[0 := Home(s[0], b, duty)], order, period, duty, q, prev, nxt)
    requires var s2 := Stripped(s[0 := Home(s[0], b, duty)], b, duty);
      && (!insert || f == 0 ==> t == s2 && order' == order)
      && (insert && f == 0 ==> !HasFree(s2))
      && (insert && f != 0 ==>
           && 1 <= f < |s2| && s2[f].ticks == 0
           && t == Spliced(s2, order, q, f, Entry(duty, {}, s2[f].pinsC + {b}, nxt))
           && order' == InsertAt(order, q, f))
    ensures Chain(t, order', period) && Loose(t) && |t| == |s| && Settled(s, t, b, duty)
    ensures forall i :: 0 <= i < |s| && s[i].ticks > 0 ==> t[i].ticks > 0
  {
    var s1 := s[0 := Home(s[0], b, duty)];
    var s2 := Stripped(s1, b, duty);
    HomeStep(s, order, period, b, duty);
    HomeTicks(s, Home(s[0], b, duty), duty);
    HomeTicks(s, Home(s[0], b, duty), 0);
    MergeStep(s1, order, period, b, duty, insert, q, prev, nxt);
    IsolatedTrans(s, s1, s2, b);
    if insert && f != 0 {
      AllocateStep(s2, order, period, q, f, b, duty, prev, nxt);
      SplicedKeeps(s2, order, q, f, Entry(duty, {}, s2[f].pinsC + {b}, nxt));
      IsolatedTrans(s, s2, t, b);
    }
  }

  /** After the first half some entry clears `b` when `duty` is positive and
      an entry at `duty` or a free slot was there to take it. */
  lemma RescheduleClears(s: seq<Entry>, order: seq<nat>, period: nat, b: nat, duty: nat,
                       insert: bool, q: nat, prev: nat, nxt: nat, f: nat, t: seq<Entry>, order': seq<nat>)
    requires Chain(s, order, period) && MasksOk(s) && duty < period
    requires insert <==> duty > 0 && !HasTick(s[0 := Home(s[0], b, duty)], duty)
    requires insert ==> GapAt(s[0 := Home(s[0], b, duty)], order, period, duty, q, prev, nxt)
    requires var s2 := Stripped(s[0 := Home(s[0], b, duty)], b, duty);
      && (!insert || f == 0 ==> t == s2 && order' == order)
      && (insert && f == 0 ==> !HasFree(s2))
      && (insert && f != 0 ==>
           && 1 <= f < |s2| && s2[f].ticks == 0
           && t == Spliced(s2, order, q, f, Entry(duty, {}, s2[f].pinsC + {b}, nxt))
           && order' == InsertAt(order, q, f))
    ensures duty > 0 && (HasTick(s, duty) || HasFree(s)) ==> Clears(t, b)
  {
    var s1 := s[0 := Home(s[0], b, duty)];
    var s2 := Stripped(s1, b, duty);
    if duty > 0 && (HasTick(s, duty) || HasFree(s)) {
      HomeTicks(s, Home(s[0], b, duty), duty);
      HomeTicks(s, Home(s[0], b, duty), 0);
      if insert {
        assert HasFree(s2) by {
          var i :| 1 <= i < |s1| && s1[i].ticks == 0;
          assert s2[i].ticks == 0;
        }
        assert b in t[f].pinsC;
      } else {
        MergeClears(s1, b, duty);
      }
    }
  }

  /** The only slot the first half takes into use is the new entry for
      `duty`, and it clears `b`. */
  lemma RescheduleFresh(s: seq<Entry>, order: seq<nat>, period: nat, b: nat, duty: nat,
                       insert: bool, q: nat, prev: nat, nxt: nat, f: nat, t: seq<Entry>, order': seq<nat>)
    requires Chain(s, order, period) && MasksOk(s) && duty < period
    requires insert <==> duty > 0 && !HasTick(s[0 := Home(s[0], b, duty)], duty)
    requires insert ==> GapAt(s[0 := Home(s[0], b, duty)], order, period, duty, q, prev, nxt)
    requires var s2 := Stripped(s[0 := Home(s[0], b, duty)], b, duty);
      && (!insert || f == 0 ==> t == s2 && order' == order)
      && (insert && f == 0 ==> !HasFree(s2))
      && (insert && f != 0 ==>
           && 1 <= f < |s2| && s2[f].ticks == 0
           && t == Spliced(s2, order, q, f, Entry(duty, {}, s2[f].pinsC + {b}, nxt))
           && order' == InsertAt(order, q, f))
    ensures forall i :: 1 <= i < |s| && s[i].ticks == 0 && t[i].ticks > 0 ==> b in t[i].pinsC
  {
    var s1 := s[0 := Home(s[0], b, duty)];
    var s2 := Stripped(s1, b, duty);
    assert forall i :: 1 <= i < |s| ==> s2[i].ticks == s[i].ticks;
    if insert && f != 0 {
      var e := Entry(duty, {}, s2[f].pinsC + {b}, nxt);
      SplicedKeeps(s2, order, q, f, e);
      assert order[q - 1] != f by {
        assert Chain(s2, order, period) by {
          HomeStep(s, order, period, b, duty);
          MergeStep(s1, order, period, b, duty, insert, q, prev, nxt);
        }
      }
      assert t[f] == e;
    }
  }

  /** The walk puts pin `b` into the entry already at `duty`. */
  lemma MergeClears(s: seq<Entry>, b: nat, duty: nat)
    requires duty > 0 && HasTick(s, duty)
    ensures Clears(Stripped(s, b, duty), b)
  {
    var i :| 1 <= i < |s| && s[i].ticks == duty;
    assert b in Stripped(s, b, duty)[i].pinsC;
  }

  /** The second half of multipwm_set_duty on arena snapshots: the cleanup
      walk turns what the first half left into a whole schedule. */
  lemma FinishStep(s: seq<Entry>, t: seq<Entry>, order: seq<nat>, b: nat, duty: nat, period: nat,
                   found: bool, p: nat, u: seq<Entry>, order': seq<nat>)
    requires Rescheduled(s, t, order, b, duty, period)
    requires Swept(t, order, u, order', found, p)
    ensures DutySet(s, u, order', b, duty, period)
    ensures !found ==> forall i :: 0 <= i < |s| && s[i].ticks > 0 ==> u[i].ticks > 0
    ensures found ==> Freed(s, u)
  {
    CleanupStep(t, order, period, b, duty, found, p, u, order');
    PlacedFrame(s, t, u, b, duty);
    if found {
      assert p != 0;
      var x := order[p];
      assert t[order[0]].ticks < t[x].ticks;
      assert u[x].ticks == 0;
    }
  }

  /** Moving no mask keeps a pin placed. */
  lemma PlacedFrame(s: seq<Entry>, t: seq<Entry>, u: seq<Entry>, b: nat, duty: nat)
    requires |s| >= 1 && |t| == |s| && Placed(s, t, b, duty)
    requires Isolated(t, u, b) && (PinAt(t, b, duty) ==> PinAt(u, b, duty))
    requires |u| == |t| && forall i :: 0 <= i < |t| ==> u[i].pinsS == t[i].pinsS && u[i].pinsC == t[i].pinsC
    ensures Placed(s, u, b, duty)
  {
    IsolatedTrans(s, t, u, b);
  }
}
