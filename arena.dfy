/** The schedule arena of components/multipwm1/multipwm.c as a value: the slot
    contents `s` and the traversal `order` (slot indices visited from the home
    slot 0 along `next`), with what the duty-update algorithm does to them. */
module Arena {
  import opened Schedule

  /** A slot whose two masks are both empty. */
  predicate Empty(e: Entry)
  {
    e.pinsS == {} && e.pinsC == {}
  }

  /** What one visit of the duty-update walk does to an entry for pin `b`:
      the entry at tick `duty` clears `b`, an entry in use at another tick
      forgets it, and a free entry is left alone. */
  function Strip(e: Entry, b: nat, duty: nat): (r: Entry)
    ensures r.ticks == e.ticks && r.next == e.next
    ensures e.ticks > 0 ==> b !in r.pinsS && r.pinsS - {b} == e.pinsS - {b} && r.pinsC - {b} == e.pinsC - {b}
    ensures e.ticks > 0 ==> (b in r.pinsC <==> e.ticks == duty)
  {
    if duty == e.ticks then e.(pinsS := e.pinsS - {b}, pinsC := e.pinsC + {b})
    else if e.ticks > 0 then e.(pinsS := e.pinsS - {b}, pinsC := e.pinsC - {b})
    else e
  }

  /** The arena after the walk has visited every entry in use. */
  function Stripped(s: seq<Entry>, b: nat, duty: nat): (r: seq<Entry>)
    ensures |r| == |s|
    ensures forall i :: 0 <= i < |s| ==> r[i] == (if 1 <= i && s[i].ticks > 0 then Strip(s[i], b, duty) else s[i])
  {
    seq(|s|, i requires 0 <= i < |s| => if 1 <= i && s[i].ticks > 0 then Strip(s[i], b, duty) else s[i])
  }

  /** Every index in the traversal and every link names a slot, and the
      traversal starts at the home slot 0. */
  ghost predicate InRange(s: seq<Entry>, order: seq<nat>)
  {
    && |s| >= 1
    && |order| >= 1 && order[0] == 0
    && (forall k :: 0 <= k < |order| ==> order[k] < |s|)
    && (forall i :: 0 <= i < |s| ==> s[i].next < |s|)
  }

  /** The links follow the traversal and the last one returns to slot 0. */
  ghost predicate Links(s: seq<Entry>, order: seq<nat>)
    requires InRange(s, order)
  {
    && (forall k :: 0 <= k < |order| - 1 ==> s[order[k]].next == order[k + 1])
    && s[order[|order| - 1]].next == 0
  }

  /** Ticks strictly ascend along the traversal. */
  ghost predicate Ascends(s: seq<Entry>, order: seq<nat>)
    requires InRange(s, order)
  {
    forall i, j :: 0 <= i < j < |order| ==> s[order[i]].ticks < s[order[j]].ticks
  }

  /** Slot 0 is at tick 0, and a slot other than 0 is in the traversal
      exactly when its tick is positive (tick 0 marks a free slot). */
  ghost predicate Members(s: seq<Entry>, order: seq<nat>)
    requires |s| >= 1
  {
    && s[0].ticks == 0
    && (forall i :: 1 <= i < |s| ==> (s[i].ticks > 0 <==> i in order))
  }

  /** Every tick lies within the period. */
  ghost predicate Below(s: seq<Entry>, period: nat)
  {
    forall i :: 0 <= i < |s| ==> s[i].ticks < period
  }

  /** The shape of the circular list the interrupt replays. */
  ghost predicate Chain(s: seq<Entry>, order: seq<nat>, period: nat)
  {
    && InRange(s, order)
    && Links(s, order)
    && Ascends(s, order)
    && Members(s, order)
    && Below(s, period)
  }

  /** What the masks of the slots other than 0 keep: no set bits, a clear
      mask that is empty exactly for a free slot, and no pin in two slots. */
  ghost predicate MasksOk(s: seq<Entry>)
  {
    && (forall i :: 1 <= i < |s| ==> s[i].pinsS == {})
    && (forall i :: 1 <= i < |s| ==> (s[i].pinsC == {} <==> s[i].ticks == 0))
    && (forall i, j :: 1 <= i < j < |s| ==> s[i].pinsC !! s[j].pinsC)
  }

  /** The masks while an update is under way: as in `MasksOk`, except that
      at most one slot in use may have lost its last pin. */
  ghost predicate Loose(s: seq<Entry>)
  {
    && (forall i :: 1 <= i < |s| ==> s[i].pinsS == {})
    && (forall i :: 1 <= i < |s| && s[i].ticks == 0 ==> s[i].pinsC == {})
    && (forall i, j :: 1 <= i < j < |s| ==> s[i].pinsC !! s[j].pinsC)
    && (forall i, j :: 1 <= i < |s| && 1 <= j < |s| && i != j && s[i].ticks > 0 && s[j].ticks > 0 ==>
          s[i].pinsC != {} || s[j].pinsC != {})
  }

  /** Pin `b` is switched off by a slot other than 0 exactly when that slot
      fires at tick `duty`, and by none when `duty` is 0. */
  ghost predicate PinAt(s: seq<Entry>, b: nat, duty: nat)
  {
    forall i :: 1 <= i < |s| ==> (b in s[i].pinsC <==> duty > 0 && s[i].ticks == duty)
  }

  /** Some slot other than 0 clears pin `b`. */
  ghost predicate Clears(s: seq<Entry>, b: nat)
  {
    exists i :: 1 <= i < |s| && b in s[i].pinsC
  }

  /** From `s` to `t` nothing changed for the pins other than `b`: every slot
      other than 0 clears the same other pins, and a slot that clears some
      other pin still fires at the same tick. */
  ghost predicate Isolated(s: seq<Entry>, t: seq<Entry>, b: nat)
  {
    && |t| == |s|
    && (forall i :: 1 <= i < |s| ==> t[i].pinsC - {b} == s[i].pinsC - {b})
    && (forall i :: 1 <= i < |s| && t[i].pinsC - {b} != {} ==> t[i].ticks == s[i].ticks)
  }

  /** Some slot other than 0 fires at tick `d`. */
  ghost predicate HasTick(s: seq<Entry>, d: nat)
  {
    exists i :: 1 <= i < |s| && s[i].ticks == d
  }

  /** Some slot other than 0 is free. */
  ghost predicate HasFree(s: seq<Entry>)
  {
    HasTick(s, 0)
  }

  /** The schedule in the order the interrupt replays it. */
  ghost function ViewOf(s: seq<Entry>, order: seq<nat>): (v: seq<Entry>)
    ensures |v| == |order|
    ensures forall k :: 0 <= k < |order| && order[k] < |s| ==> v[k] == s[order[k]]
  {
    seq(|order|, k requires 0 <= k < |order| =>
      if order[k] < |s| then s[order[k]] else Entry(0, {}, {}, 0))
  }

  /** Positions of the traversal are ordered as their ticks are. */
  lemma TickOrder(s: seq<Entry>, order: seq<nat>, period: nat, i: nat, j: nat)
    requires Chain(s, order, period)
    requires i < |order| && j < |order|
    ensures i < j <==> s[order[i]].ticks < s[order[j]].ticks
  {
    if i < j {
      assert s[order[i]].ticks < s[order[j]].ticks;
    } else if j < i {
      assert s[order[j]].ticks < s[order[i]].ticks;
    }
  }

  /** Positions of the traversal hold distinct slots. */
  lemma Injective(s: seq<Entry>, order: seq<nat>, period: nat, i: nat, j: nat)
    requires Chain(s, order, period)
    requires i < |order| && j < |order| && i != j
    ensures order[i] != order[j]
  {
    if i < j {
      assert s[order[i]].ticks < s[order[j]].ticks;
    } else {
      assert s[order[j]].ticks < s[order[i]].ticks;
    }
  }

  /** The position of an in-use slot in the traversal. */
  lemma PositionOf(s: seq<Entry>, order: seq<nat>, period: nat, i: nat) returns (k: nat)
    requires Chain(s, order, period)
    requires 1 <= i < |s| && s[i].ticks > 0
    ensures 1 <= k < |order| && order[k] == i
  {
    assert i in order;
    k :| 0 <= k < |order| && order[k] == i;
  }

  /** The slot after an in-use slot `c` is in use, and it fires later within
      the period unless it is the home slot. */
  lemma Successor(s: seq<Entry>, order: seq<nat>, period: nat, c: nat)
    requires Chain(s, order, period)
    requires c < |s| && (c == 0 || s[c].ticks > 0)
    ensures s[c].next < |s| && (s[c].next == 0 || s[s[c].next].ticks > 0)
    ensures s[c].ticks < (if s[c].next == 0 then period else s[s[c].next].ticks)
  {
    var k := 0;
    if c != 0 {
      k := PositionOf(s, order, period, c);
    }
    if k + 1 < |order| {
      assert s[order[k]].ticks < s[order[k + 1]].ticks;
      assert s[order[0]].ticks < s[order[k + 1]].ticks;
    }
  }

  /** A well-formed arena replays as a well-formed traversal. */
  lemma ViewWellFormed(s: seq<Entry>, order: seq<nat>, period: nat)
    requires Chain(s, order, period) && MasksOk(s)
    ensures WellFormed(ViewOf(s, order), period)
  {
    var v := ViewOf(s, order);
    forall k | 1 <= k < |v| ensures v[k].pinsS == {} && v[k].pinsC != {} {
      assert s[order[0]].ticks < s[order[k]].ticks;
    }
    forall i, j | 1 <= i < j < |v| ensures v[i].pinsC !! v[j].pinsC {
      Injective(s, order, period, i, j);
      if order[i] < order[j] {
        assert s[order[i]].pinsC !! s[order[j]].pinsC;
      } else {
        assert s[order[j]].pinsC !! s[order[i]].pinsC;
      }
    }
  }

  /** Changing only masks keeps the list's shape. */
  lemma ChainFrame(s: seq<Entry>, t: seq<Entry>, order: seq<nat>, period: nat)
    requires Chain(s, order, period)
    requires |t| == |s|
    requires forall i :: 0 <= i < |s| ==> t[i].ticks == s[i].ticks && t[i].next == s[i].next
    ensures Chain(t, order, period)
  {
  }

  /** `o` with `x` placed at position `q`. */
  function InsertAt(o: seq<nat>, q: nat, x: nat): (r: seq<nat>)
    requires q <= |o|
    ensures |r| == |o| + 1
    ensures forall k :: 0 <= k < q ==> r[k] == o[k]
    ensures r[q] == x
    ensures forall k :: q < k < |r| ==> r[k] == o[k - 1]
    ensures forall y :: y in r <==> y in o || y == x
  {
    assert o == o[..q] + o[q..];
    o[..q] + [x] + o[q..]
  }

  /** `o` without the element at position `q`. */
  function RemoveAt(o: seq<nat>, q: nat): (r: seq<nat>)
    requires q < |o|
    ensures |r| == |o| - 1
    ensures forall k :: 0 <= k < q ==> r[k] == o[k]
    ensures forall k :: q <= k < |r| ==> r[k] == o[k + 1]
    ensures forall y :: y in o && y != o[q] ==> y in r
    ensures forall y :: y in r ==> y in o
  {
    assert o == o[..q] + [o[q]] + o[q + 1..];
    o[..q] + o[q + 1..]
  }

  /** The arena after the free slot `f` is filled with `e` and linked in
      behind the slot at position `q - 1`. */
  function Spliced(s: seq<Entry>, order: seq<nat>, q: nat, f: nat, e: Entry): seq<Entry>
    requires 1 <= q <= |order| && order[q - 1] < |s| && f < |s|
  {
    s[f := e][order[q - 1] := s[order[q - 1]].(next := f)]
  }

  /** The arena after the slot at position `q` is unlinked and freed. */
  function Unlinked(s: seq<Entry>, order: seq<nat>, q: nat): seq<Entry>
    requires 1 <= q < |order| && order[q - 1] < |s| && order[q] < |s|
  {
    var prev, x := order[q - 1], order[q];
    s[prev := s[prev].(next := s[x].next)][x := s[x].(ticks := 0)]
  }

  /** No other position of the traversal holds the slot at position `p`. */
  lemma InjectiveAt(s: seq<Entry>, order: seq<nat>, period: nat, p: nat)
    requires Chain(s, order, period)
    requires p < |order|
    ensures forall k :: 0 <= k < |order| && k != p ==> order[k] != order[p]
  {
    forall k | 0 <= k < |order| && k != p ensures order[k] != order[p] {
      Injective(s, order, period, k, p);
    }
  }

  /** A free slot is not in the traversal. */
  lemma FreeOutside(s: seq<Entry>, order: seq<nat>, period: nat, f: nat)
    requires Chain(s, order, period)
    requires 1 <= f < |s| && s[f].ticks == 0
    ensures f !in order
  {
  }

  lemma InsertRange(s: seq<Entry>, order: seq<nat>, q: nat, f: nat, e: Entry)
    requires InRange(s, order)
    requires 1 <= q <= |order| && f < |s| && e.next < |s|
    ensures InRange(Spliced(s, order, q, f, e), InsertAt(order, q, f))
  {
  }

  lemma InsertLinks(s: seq<Entry>, order: seq<nat>, q: nat, f: nat, e: Entry)
    requires InRange(s, order) && Links(s, order)
    requires 1 <= q <= |order| && f < |s| && f !in order
    requires forall k :: 0 <= k < |order| && k != q - 1 ==> order[k] != order[q - 1]
    requires e.next == (if q < |order| then order[q] else 0)
    requires InRange(Spliced(s, order, q, f, e), InsertAt(order, q, f))
    ensures Links(Spliced(s, order, q, f, e), InsertAt(order, q, f))
  {
    var t, o := Spliced(s, order, q, f, e), InsertAt(order, q, f);
    forall k | 0 <= k < |o| - 1 ensures t[o[k]].next == o[k + 1] {
      if k < q - 1 {
        assert o[k] == order[k] != f;
      } else if k > q {
        assert o[k] == order[k - 1] != f;
      }
    }
  }

  lemma InsertAscends(s: seq<Entry>, order: seq<nat>, q: nat, f: nat, e: Entry)
    requires InRange(s, order) && Ascends(s, order)
    requires 1 <= q <= |order| && f < |s| && f !in order
    requires s[order[q - 1]].ticks < e.ticks
    requires q < |order| ==> e.ticks < s[order[q]].ticks
    requires InRange(Spliced(s, order, q, f, e), InsertAt(order, q, f))
    ensures Ascends(Spliced(s, order, q, f, e), InsertAt(order, q, f))
  {
    var t, o := Spliced(s, order, q, f, e), InsertAt(order, q, f);
    assert forall k :: 0 <= k < |o| ==> t[o[k]].ticks == (if k == q then e.ticks else s[o[k]].ticks);
    forall i, j | 0 <= i < j < |o| ensures t[o[i]].ticks < t[o[j]].ticks {
      if j < q {
      } else if j == q {
        if i < q - 1 {
          assert s[order[i]].ticks < s[order[q - 1]].ticks;
        }
      } else if i == q {
        if j - 1 > q {
          assert s[order[q]].ticks < s[order[j - 1]].ticks;
        }
      } else if i < q {
        assert s[order[i]].ticks < s[order[j - 1]].ticks;
      } else {
        assert s[order[i - 1]].ticks < s[order[j - 1]].ticks;
      }
    }
  }

  lemma InsertMembers(s: seq<Entry>, order: seq<nat>, q: nat, f: nat, e: Entry)
    requires |s| >= 1 && Members(s, order)
    requires 1 <= q <= |order| && order[q - 1] < |s| && 1 <= f < |s| && e.ticks > 0
    ensures Members(Spliced(s, order, q, f, e), InsertAt(order, q, f))
  {
    var t, o := Spliced(s, order, q, f, e), InsertAt(order, q, f);
    forall i | 1 <= i < |t| ensures t[i].ticks > 0 <==> i in o {
      if i != f {
        assert t[i].ticks == s[i].ticks;
      }
    }
  }

  /** Linking a free slot `f` holding `e` into the gap after position
      `q - 1` keeps the list's shape, provided the new tick lies strictly
      between the ticks around the gap. */
  lemma ChainInsert(s: seq<Entry>, order: seq<nat>, period: nat, q: nat, f: nat, e: Entry)
    requires Chain(s, order, period)
    requires 1 <= f < |s| && s[f].ticks == 0
    requires 1 <= q <= |order|
    requires e.next == (if q < |order| then order[q] else 0)
    requires s[order[q - 1]].ticks < e.ticks < period
    requires q < |order| ==> e.ticks < s[order[q]].ticks
    ensures Chain(Spliced(s, order, q, f, e), InsertAt(order, q, f), period)
  {
    var t, o := Spliced(s, order, q, f, e), InsertAt(order, q, f);
    assert f !in order by {
      FreeOutside(s, order, period, f);
    }
    assert forall k :: 0 <= k < |order| && k != q - 1 ==> order[k] != order[q - 1] by {
      InjectiveAt(s, order, period, q - 1);
    }
    assert InRange(t, o) by {
      InsertRange(s, order, q, f, e);
    }
    assert Links(t, o) by {
      InsertLinks(s, order, q, f, e);
    }
    assert Ascends(t, o) by {
      InsertAscends(s, order, q, f, e);
    }
    assert Members(t, o) by {
      InsertMembers(s, order, q, f, e);
    }
    assert Below(t, period) by {
      forall i | 0 <= i < |t| ensures t[i].ticks < period {
        assert t[i].ticks == (if i == f then e.ticks else s[i].ticks);
      }
    }
  }

  lemma RemoveRange(s: seq<Entry>, order: seq<nat>, q: nat)
    requires InRange(s, order) && 1 <= q < |order|
    ensures InRange(Unlinked(s, order, q), RemoveAt(order, q))
  {
  }

  lemma RemoveLinks(s: seq<Entry>, order: seq<nat>, q: nat)
    requires InRange(s, order) && Links(s, order) && 1 <= q < |order|
    requires forall k :: 0 <= k < |order| && k != q ==> order[k] != order[q]
    requires forall k :: 0 <= k < |order| && k != q - 1 ==> order[k] != order[q - 1]
    requires InRange(Unlinked(s, order, q), RemoveAt(order, q))
    ensures Links(Unlinked(s, order, q), RemoveAt(order, q))
  {
    var t, o := Unlinked(s, order, q), RemoveAt(order, q);
    forall k | 0 <= k < |o| - 1 ensures t[o[k]].next == o[k + 1] {
      if k < q - 1 {
        assert o[k] == order[k];
      } else if k >= q {
        assert o[k] == order[k + 1];
      }
    }
  }

  lemma RemoveAscends(s: seq<Entry>, order: seq<nat>, q: nat)
    requires InRange(s, order) && Ascends(s, order) && 1 <= q < |order|
    requires forall k :: 0 <= k < |order| && k != q ==> order[k] != order[q]
    requires InRange(Unlinked(s, order, q), RemoveAt(order, q))
    ensures Ascends(Unlinked(s, order, q), RemoveAt(order, q))
  {
    var t, o := Unlinked(s, order, q), RemoveAt(order, q);
    assert forall k :: 0 <= k < |o| ==> t[o[k]].ticks == s[o[k]].ticks;
    forall i, j | 0 <= i < j < |o| ensures t[o[i]].ticks < t[o[j]].ticks {
      if j < q {
      } else if i < q {
        assert s[order[i]].ticks < s[order[j + 1]].ticks;
      } else {
        assert s[order[i + 1]].ticks < s[order[j + 1]].ticks;
      }
    }
  }

  lemma RemoveMembers(s: seq<Entry>, order: seq<nat>, q: nat)
    requires InRange(s, order) && Members(s, order) && 1 <= q < |order|
    requires forall k :: 0 <= k < |order| && k != q ==> order[k] != order[q]
    ensures Members(Unlinked(s, order, q), RemoveAt(order, q))
  {
    var t, o := Unlinked(s, order, q), RemoveAt(order, q);
    assert order[q] != order[0];
    forall i | 1 <= i < |t| ensures t[i].ticks > 0 <==> i in o {
      if i == order[q] {
        forall k | 0 <= k < |o| ensures o[k] != i {
          if k < q {
            assert o[k] == order[k];
          } else {
            assert o[k] == order[k + 1];
          }
        }
      } else {
        assert t[i].ticks == s[i].ticks;
      }
    }
  }

  /** Unlinking the slot at position `q` and freeing it keeps the list's shape. */
  lemma ChainRemove(s: seq<Entry>, order: seq<nat>, period: nat, q: nat)
    requires Chain(s, order, period)
    requires 1 <= q < |order|
    ensures Chain(Unlinked(s, order, q), RemoveAt(order, q), period)
  {
    forall k | 0 <= k < |order| && k != q ensures order[k] != order[q] {
      Injective(s, order, period, k, q);
    }
    forall k | 0 <= k < |order| && k != q - 1 ensures order[k] != order[q - 1] {
      Injective(s, order, period, k, q - 1);
    }
    RemoveRange(s, order, q);
    RemoveLinks(s, order, q);
    RemoveAscends(s, order, q);
    RemoveMembers(s, order, q);
  }

  /** The tick that follows position `p` of the traversal; the period
      stands for the wrap back to the home slot. */
  ghost function TickAfter(s: seq<Entry>, order: seq<nat>, period: nat, p: nat): nat
    requires InRange(s, order) && p < |order|
  {
    if p + 1 < |order| then s[order[p + 1]].ticks else period
  }

  /** The link out of position `p`, and the slot it reaches. */
  lemma NextOf(s: seq<Entry>, order: seq<nat>, period: nat, p: nat)
    requires Chain(s, order, period) && p < |order|
    ensures s[order[p]].next == (if p + 1 < |order| then order[p + 1] else 0)
    ensures s[order[p]].ticks < TickAfter(s, order, period, p)
    ensures p + 1 < |order| ==> s[order[p + 1]].ticks > 0
  {
    if p + 1 < |order| {
      assert s[order[0]].ticks < s[order[p + 1]].ticks;
    }
  }

  /** Between the tick of position `p` and the next one there is no slot
      in use other than the one at position `p`. */
  lemma Gap(s: seq<Entry>, order: seq<nat>, period: nat, p: nat)
    requires Chain(s, order, period) && p < |order|
    ensures forall i :: 1 <= i < |s| && 0 < s[i].ticks && s[order[p]].ticks <= s[i].ticks < TickAfter(s, order, period, p)
              ==> i == order[p]
  {
    forall i | 1 <= i < |s| && 0 < s[i].ticks && s[order[p]].ticks <= s[i].ticks < TickAfter(s, order, period, p)
      ensures i == order[p]
    {
      var k := PositionOf(s, order, period, i);
      TickOrder(s, order, period, k, p);
      if p + 1 < |order| {
        TickOrder(s, order, period, p + 1, k);
      }
    }
  }

  lemma IsolatedTrans(s: seq<Entry>, t: seq<Entry>, u: seq<Entry>, b: nat)
    requires Isolated(s, t, b) && Isolated(t, u, b)
    ensures Isolated(s, u, b)
  {
  }

  lemma StripLoose(s: seq<Entry>, order: seq<nat>, period: nat, b: nat, duty: nat)
    requires Chain(s, order, period) && MasksOk(s)
    ensures Loose(Stripped(s, b, duty))
  {
    var r := Stripped(s, b, duty);
    assert forall i, j :: 1 <= i < |s| && 1 <= j < |s| && i != j && r[i].ticks > 0 && r[j].ticks > 0 ==>
             r[i].pinsC != {} || r[j].pinsC != {} by {
      StripApart(s, b, duty);
    }
    assert forall i, j :: 1 <= i < j < |s| ==> r[i].pinsC !! r[j].pinsC by {
      StripDisjoint(s, order, period, b, duty);
    }
    assert (forall i :: 1 <= i < |s| ==> r[i].pinsS == {})
        && (forall i :: 1 <= i < |s| && r[i].ticks == 0 ==> r[i].pinsC == {}) by {
      StripFree(s, b, duty);
    }
  }

  /** Stripping one pin sets no pin outside the home slot and leaves the
      free slots empty. */
  lemma StripFree(s: seq<Entry>, b: nat, duty: nat)
    requires MasksOk(s)
    ensures var r := Stripped(s, b, duty);
      && (forall i :: 1 <= i < |s| ==> r[i].pinsS == {})
      && (forall i :: 1 <= i < |s| && r[i].ticks == 0 ==> r[i].pinsC == {})
  {
    var r := Stripped(s, b, duty);
    forall i | 1 <= i < |s| ensures r[i].pinsS == {} {
      assert s[i].pinsS == {};
    }
    forall i | 1 <= i < |s| && r[i].ticks == 0 ensures r[i].pinsC == {} {
      assert r[i] == s[i];
    }
  }

  /** Stripping one pin empties at most one slot in use. */
  lemma StripApart(s: seq<Entry>, b: nat, duty: nat)
    requires MasksOk(s)
    ensures var r := Stripped(s, b, duty);
      forall i, j :: 1 <= i < |s| && 1 <= j < |s| && i != j && r[i].ticks > 0 && r[j].ticks > 0 ==>
        r[i].pinsC != {} || r[j].pinsC != {}
  {
    var r := Stripped(s, b, duty);
    forall i, j | 1 <= i < |s| && 1 <= j < |s| && i != j && r[i].ticks > 0 && r[j].ticks > 0
      ensures r[i].pinsC != {} || r[j].pinsC != {}
    {
      assert r[i].pinsC == {} ==> b in s[i].pinsC by {
        assert s[i].pinsC != {} && r[i].pinsC - {b} == s[i].pinsC - {b};
      }
      assert r[j].pinsC == {} ==> b in s[j].pinsC by {
        assert s[j].pinsC != {} && r[j].pinsC - {b} == s[j].pinsC - {b};
      }
      assert i < j ==> s[i].pinsC !! s[j].pinsC;
      assert j < i ==> s[j].pinsC !! s[i].pinsC;
    }
  }

  /** Stripping one pin keeps the clear masks pairwise disjoint. */
  lemma StripDisjoint(s: seq<Entry>, order: seq<nat>, period: nat, b: nat, duty: nat)
    requires Chain(s, order, period) && MasksOk(s)
    ensures var r := Stripped(s, b, duty);
      forall i, j :: 1 <= i < j < |s| ==> r[i].pinsC !! r[j].pinsC
  {
    var r := Stripped(s, b, duty);
    forall i, j | 1 <= i < j < |s| ensures r[i].pinsC !! r[j].pinsC {
      assert s[i].pinsC !! s[j].pinsC;
      if b in r[i].pinsC && b in r[j].pinsC {
        TicksDistinct(s, order, period, i, j);
      }
    }
  }

  /** The walk leaves at most one slot in use empty, puts `b` exactly in the
      slot at tick `duty`, and changes nothing for the other pins. */
  lemma StripStep(s: seq<Entry>, order: seq<nat>, period: nat, b: nat, duty: nat)
    requires Chain(s, order, period) && MasksOk(s)
    ensures Loose(Stripped(s, b, duty))
    ensures PinAt(Stripped(s, b, duty), b, duty)
    ensures Isolated(s, Stripped(s, b, duty), b)
    ensures forall i :: 1 <= i < |s| ==> Stripped(s, b, duty)[i].ticks == s[i].ticks
  {
    StripLoose(s, order, period, b, duty);
  }

  /** Filling a free slot for `b`, which no slot clears yet, keeps the loose
      masks and puts `b` exactly in the new slot. */
  lemma InsertStep(s: seq<Entry>, order: seq<nat>, q: nat, f: nat, b: nat, e: Entry)
    requires Loose(s)
    requires 1 <= q <= |order| && order[q - 1] < |s| && 1 <= f < |s| && f != order[q - 1] && s[f].ticks == 0
    requires forall i :: 1 <= i < |s| ==> b !in s[i].pinsC
    requires e.ticks > 0 && e.pinsS == {} && e.pinsC == s[f].pinsC + {b}
    ensures Loose(Spliced(s, order, q, f, e))
    ensures PinAt(Spliced(s, order, q, f, e), b, e.ticks) <== forall i :: 1 <= i < |s| ==> s[i].ticks != e.ticks
    ensures Isolated(s, Spliced(s, order, q, f, e), b)
  {
    var t := Spliced(s, order, q, f, e);
    assert t[f].pinsC == {b};
    forall i | 1 <= i < |s| && i != f ensures t[i].pinsC == s[i].pinsC && t[i].ticks == s[i].ticks {
    }
  }

  /** Freeing the empty slot at position `q` makes the masks whole again. */
  lemma RemoveStep(s: seq<Entry>, order: seq<nat>, period: nat, q: nat, b: nat, duty: nat)
    requires Chain(s, order, period) && Loose(s)
    requires 1 <= q < |order| && Empty(s[order[q]])
    ensures MasksOk(Unlinked(s, order, q))
    ensures PinAt(s, b, duty) ==> PinAt(Unlinked(s, order, q), b, duty)
    ensures Isolated(s, Unlinked(s, order, q), b)
    ensures forall i :: 1 <= i < |s| && s[i].pinsC != {} ==>
              Unlinked(s, order, q)[i].ticks == s[i].ticks && Unlinked(s, order, q)[i].pinsC == s[i].pinsC
  {
    var t, x := Unlinked(s, order, q), order[q];
    assert x != order[q - 1] by {
      Injective(s, order, period, q, q - 1);
    }
    assert s[x].ticks > 0 by {
      assert s[order[0]].ticks < s[order[q]].ticks;
    }
    forall i | 1 <= i < |s| && i != x ensures t[i].pinsC == s[i].pinsC && t[i].ticks == s[i].ticks {
    }
    forall i | 1 <= i < |s| && t[i].ticks > 0 ensures t[i].pinsC != {} {
      assert i != x && s[i].ticks > 0;
    }
  }

  /** Once every slot in use clears some pin, the loose masks are whole. */
  lemma LooseWhole(s: seq<Entry>, order: seq<nat>, period: nat)
    requires Chain(s, order, period) && Loose(s)
    requires forall k :: 1 <= k < |order| ==> !Empty(s[order[k]])
    ensures MasksOk(s)
  {
    forall i | 1 <= i < |s| && s[i].ticks > 0 ensures s[i].pinsC != {} {
      var k := PositionOf(s, order, period, i);
    }
  }

  /** Two slots in use never share a tick. */
  lemma TicksDistinct(s: seq<Entry>, order: seq<nat>, period: nat, i: nat, j: nat)
    requires Chain(s, order, period)
    requires 1 <= i < |s| && 1 <= j < |s| && s[i].ticks > 0
    ensures s[i].ticks == s[j].ticks ==> i == j
  {
    if s[j].ticks == 0 {
      return;
    }
    var ki := PositionOf(s, order, period, i);
    var kj := PositionOf(s, order, period, j);
    TickOrder(s, order, period, ki, kj);
    TickOrder(s, order, period, kj, ki);
  }

  /** The walk part-way: entries in use below tick `bound` have been visited. */
  function Partial(s: seq<Entry>, b: nat, duty: nat, bound: nat): (r: seq<Entry>)
    ensures |r| == |s|
    ensures forall i :: 0 <= i < |s| ==> r[i].ticks == s[i].ticks && r[i].next == s[i].next
  {
    seq(|s|, i requires 0 <= i < |s| => if 1 <= i && 0 < s[i].ticks < bound then Strip(s[i], b, duty) else s[i])
  }

  /** The tick up to which a walk standing at slot `c` has visited; the
      home slot stands for the whole period. */
  function Mark(s: seq<Entry>, period: nat, c: nat): nat
    requires c < |s|
  {
    if c == 0 then period else s[c].ticks
  }

  /** Before the walk starts nothing has been visited. */
  lemma PartialStart(s: seq<Entry>, order: seq<nat>, period: nat, b: nat, duty: nat)
    requires Chain(s, order, period)
    ensures Partial(s, b, duty, Mark(s, period, s[0].next)) == s
  {
    NextOf(s, order, period, 0);
    Gap(s, order, period, 0);
    var r := Partial(s, b, duty, Mark(s, period, s[0].next));
    forall i | 0 <= i < |s| ensures r[i] == s[i] {
      if 1 <= i && 0 < s[i].ticks {
        var k := PositionOf(s, order, period, i);
      }
    }
  }

  /** Visiting the entry at position `p` moves the mark to the next entry. */
  lemma PartialStep(s: seq<Entry>, order: seq<nat>, period: nat, b: nat, duty: nat, p: nat)
    requires Chain(s, order, period)
    requires 1 <= p < |order|
    ensures var r := Partial(s, b, duty, s[order[p]].ticks);
      r[order[p] := Strip(r[order[p]], b, duty)] == Partial(s, b, duty, Mark(s, period, s[order[p]].next))
  {
    NextOf(s, order, period, p);
    Gap(s, order, period, p);
    var c := order[p];
    var r0 := Partial(s, b, duty, s[c].ticks);
    assert r0[c] == s[c];
    var r := r0[c := Strip(s[c], b, duty)];
    var r' := Partial(s, b, duty, Mark(s, period, s[c].next));
    assert s[c].ticks > 0 by {
      TickOrder(s, order, period, 0, p);
    }
    forall i | 0 <= i < |s| ensures r[i] == r'[i] {
      if i != c && 1 <= i && 0 < s[i].ticks {
        TicksDistinct(s, order, period, i, c);
      }
    }
  }

  /** The walk once every entry in use has been visited. */
  lemma PartialEnd(s: seq<Entry>, order: seq<nat>, period: nat, b: nat, duty: nat)
    requires Chain(s, order, period)
    ensures Partial(s, b, duty, period) == Stripped(s, b, duty)
  {
  }

  /** Where a new entry at tick `duty` belongs: behind position `q - 1`,
      in front of slot `nxt`, strictly between their ticks. */
  ghost predicate GapAt(s: seq<Entry>, order: seq<nat>, period: nat, duty: nat, q: nat, prev: nat, nxt: nat)
    requires InRange(s, order)
  {
    && 1 <= q <= |order| && prev == order[q - 1]
    && nxt == (if q < |order| then order[q] else 0)
    && s[prev].ticks < duty
    && (q < |order| ==> duty < s[order[q]].ticks)
  }

  /** The variables of the duty-update walk: the entry before and the entry
      at the cursor, the candidate gap, and, as proof bookkeeping, the
      cursor's position `p` and whether (and where) an entry at the duty's
      tick has been met. */
  datatype Walk = Walk(prv: nat, cur: nat, insert: bool, prev: nat, nxt: nat,
                       p: nat, q: nat, hit: bool, hitSlot: nat)

  /** What holds each time the walk comes back to its loop test. */
  ghost predicate WalkOk(s: seq<Entry>, order: seq<nat>, period: nat, duty: nat, w: Walk)
    requires InRange(s, order)
  {
    && 1 <= w.p <= |order| && w.prv == order[w.p - 1]
    && ((w.p < |order| && w.cur == order[w.p]) || (|order| == 1 && w.p == 1 && w.cur == 0))
    && (w.hit ==> duty == 0 || (1 <= w.hitSlot < |s| && s[w.hitSlot].ticks == duty))
    && (!w.insert ==> w.hit || s[w.prv].ticks < duty)
    && (w.insert ==> GapAt(s, order, period, duty, w.q, w.prev, w.nxt) && duty < s[w.prv].ticks)
  }

  /** One visit of the walk, as far as the ticks and links decide it. */
  ghost function Advance(s: seq<Entry>, duty: nat, w: Walk): Walk
    requires w.prv < |s| && w.cur < |s| && s[w.cur].next < |s|
  {
    var t := s[w.cur];
    var w1 := if duty == t.ticks then w.(hit := true, hitSlot := w.cur) else w;
    var w2 :=
      if duty > s[w.prv].ticks && duty < t.ticks then
        w1.(insert := true, nxt := w.cur, prev := w.prv, q := w.p)
      else if s[t.next].ticks == 0 && duty > t.ticks then
        w1.(insert := true, nxt := t.next, prev := w.cur, q := if w.cur == 0 then 1 else w.p + 1)
      else w1;
    w2.(prv := w.cur, cur := t.next, p := w.p + 1)
  }

  /** The walk starts at the home slot's successor. */
  lemma WalkStart(s: seq<Entry>, order: seq<nat>, period: nat, duty: nat)
    requires Chain(s, order, period)
    ensures WalkOk(s, order, period, duty, Walk(0, s[0].next, false, 0, 0, 1, 0, duty == 0, 0))
  {
    NextOf(s, order, period, 0);
  }

  /** A visit keeps the walk's invariant while the cursor stays on an entry
      in use. */
  lemma WalkStep(s: seq<Entry>, order: seq<nat>, period: nat, duty: nat, w: Walk)
    requires Chain(s, order, period) && duty < period
    requires WalkOk(s, order, period, duty, w)
    ensures w.prv < |s| && w.cur < |s| && s[w.cur].next < |s|
    ensures var w' := Advance(s, duty, w);
      && w'.prv < |s| && w'.cur < |s| && w'.p <= |order| + 1
      && (s[w'.cur].ticks > 0 ==> WalkOk(s, order, period, duty, w') && w'.p < |order|)
  {
    var pos := if w.cur == 0 then 0 else w.p;
    NextOf(s, order, period, pos);
    assert w.cur == order[pos];
    if w.p - 1 < pos {
      TickOrder(s, order, period, w.p - 1, pos);
    }
  }

  /** Once the cursor wraps, the gap has been decided: there is one exactly
      when no entry has the duty's tick, and it lies strictly between the
      ticks around it. */
  lemma WalkEnd(s: seq<Entry>, order: seq<nat>, period: nat, duty: nat, w: Walk)
    requires Chain(s, order, period) && duty < period
    requires WalkOk(s, order, period, duty, w)
    requires w.prv < |s| && w.cur < |s| && s[w.cur].next < |s|
    requires s[Advance(s, duty, w).cur].ticks == 0
    ensures var w' := Advance(s, duty, w);
      && w'.cur == 0
      && (w'.insert <==> duty > 0 && !HasTick(s, duty))
      && (w'.insert ==> GapAt(s, order, period, duty, w'.q, w'.prev, w'.nxt))
  {
    var pos := if w.cur == 0 then 0 else w.p;
    NextOf(s, order, period, pos);
    var w' := Advance(s, duty, w);
    assert w.cur == order[pos];
    assert pos + 1 == |order|;
    if w.p - 1 < pos {
      TickOrder(s, order, period, w.p - 1, pos);
    }
    if w'.insert {
      assert GapAt(s, order, period, duty, w'.q, w'.prev, w'.nxt);
      assert !HasTick(s, duty) by {
        GapFree(s, order, period, duty, w'.q, w'.prev, w'.nxt);
      }
    }
  }

  /** No entry has a tick strictly inside a gap. */
  lemma GapFree(s: seq<Entry>, order: seq<nat>, period: nat, duty: nat, q: nat, prev: nat, nxt: nat)
    requires Chain(s, order, period) && duty < period
    requires GapAt(s, order, period, duty, q, prev, nxt)
    ensures forall i :: 1 <= i < |s| ==> s[i].ticks != duty
  {
    Gap(s, order, period, q - 1);
  }
  /** Splicing an entry in use into slot `f` frees no slot and leaves the
      home entry's masks alone. */
  lemma SplicedKeeps(s: seq<Entry>, order: seq<nat>, q: nat, f: nat, e: Entry)
    requires 1 <= q <= |order| && order[q - 1] < |s| && 1 <= f < |s|
    requires e.ticks > 0
    ensures var t := Spliced(s, order, q, f, e);
      && t[0].pinsS == s[0].pinsS && t[0].pinsC == s[0].pinsC
      && (forall i :: 0 <= i < |s| && s[i].ticks > 0 ==> t[i].ticks > 0)
      && (forall i :: 0 <= i < |s| && i != f ==> t[i].ticks == s[i].ticks)
  {
  }

  /** A new entry at `duty` for pin `b` in the free slot `f`, spliced into
      the gap the walk found, keeps the list and the masks in order and puts
      `b` at the entry for `duty`. */
  lemma AllocateStep(s: seq<Entry>, order: seq<nat>, period: nat, q: nat, f: nat, b: nat, duty: nat, prev: nat, nxt: nat)
    requires Chain(s, order, period) && Loose(s)
    requires 0 < duty < period
    requires GapAt(s, order, period, duty, q, prev, nxt)
    requires forall i :: 1 <= i < |s| ==> s[i].ticks != duty
    requires forall i :: 1 <= i < |s| ==> b !in s[i].pinsC
    requires 1 <= f < |s| && s[f].ticks == 0
    ensures var t := Spliced(s, order, q, f, Entry(duty, {}, s[f].pinsC + {b}, nxt));
      && Chain(t, InsertAt(order, q, f), period) && Loose(t)
      && Isolated(s, t, b) && PinAt(t, b, duty)
  {
    var e := Entry(duty, {}, s[f].pinsC + {b}, nxt);
    assert order[q - 1] != f by {
      assert order[q - 1] in order;
    }
    ChainInsert(s, order, period, q, f, e);
    InsertStep(s, order, q, f, b, e);
  }

  /** One pass of the walk's loop body, stated on the arena `t` after the
      visit at the cursor: either the walk goes on with its invariant and the
      entries visited so far stripped, or it is back at the home entry with
      every entry stripped and the insertion decision made. */
  lemma WalkVisit(s: seq<Entry>, order: seq<nat>, period: nat, b: nat, duty: nat, w: Walk, t: seq<Entry>)
    requires Chain(s, order, period) && duty < period
    requires duty == 0 ==> b !in s[0].pinsS && b in s[0].pinsC
    requires WalkOk(s, order, period, duty, w)
    requires w.cur < |s|
    requires var r := Partial(s, b, duty, Mark(s, period, w.cur)); t == r[w.cur := Strip(r[w.cur], b, duty)]
    ensures w.prv < |s| && s[w.cur].next < |s|
    ensures var w' := Advance(s, duty, w);
      && w'.cur < |s| && w'.p <= |order| + 1
      && (s[w'.cur].ticks > 0 ==>
           WalkOk(s, order, period, duty, w') && w'.p < |order| && t == Partial(s, b, duty, Mark(s, period, w'.cur)))
      && (s[w'.cur].ticks == 0 ==>
           && t == Stripped(s, b, duty)
           && (w'.insert <==> duty > 0 && !HasTick(s, duty))
           && (w'.insert ==> GapAt(s, order, period, duty, w'.q, w'.prev, w'.nxt)))
  {
    WalkStep(s, order, period, duty, w);
    var w' := Advance(s, duty, w);
    if w.cur != 0 {
      PartialStep(s, order, period, b, duty, w.p);
    } else {
      var r := Partial(s, b, duty, period);
      assert r[0] == s[0];
      assert Strip(s[0], b, duty) == s[0];
      assert t == r;
    }
    if s[w'.cur].ticks == 0 {
      WalkEnd(s, order, period, duty, w);
      PartialEnd(s, order, period, b, duty);
    }
  }

}
