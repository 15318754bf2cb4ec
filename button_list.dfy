/** The list logic the two button drivers (components/button/button.c and
    components/esp-idf-button/button.c) have in common, on the sequence of
    registered GPIO numbers, head first. */
module ButtonList {

  /** No GPIO is registered twice. */
  predicate Distinct(gs: seq<nat>)
  {
    forall i, j :: 0 <= i < j < |gs| ==> gs[i] != gs[j]
  }

  /** The position the search of button_create stops at: the first node for
      `g`, or the end of the list. */
  function FirstIndex(gs: seq<nat>, g: nat): (k: nat)
    ensures k <= |gs|
    ensures k < |gs| ==> gs[k] == g
    ensures forall j :: 0 <= j < k ==> gs[j] != g
    ensures k == |gs| <==> g !in gs
    decreases |gs|
  {
    if |gs| == 0 then 0
    else if gs[0] == g then 0
    else 1 + FirstIndex(gs[1..], g)
  }

  /** Removing the node at position `k` keeps the others in order. */
  function RemoveAt<T>(s: seq<T>, k: nat): (r: seq<T>)
    requires k < |s|
    ensures |r| == |s| - 1
    ensures forall j :: 0 <= j < k ==> r[j] == s[j]
    ensures forall j :: k <= j < |r| ==> r[j] == s[j + 1]
  {
    s[..k] + s[k + 1..]
  }

  /** With distinct GPIOs, removing the node for `g` leaves no node for `g`
      and keeps the rest distinct. */
  lemma RemoveDistinct(gs: seq<nat>, k: nat)
    requires Distinct(gs) && k < |gs|
    ensures Distinct(RemoveAt(gs, k))
    ensures gs[k] !in RemoveAt(gs, k)
    ensures forall g :: g in gs && g != gs[k] ==> g in RemoveAt(gs, k)
  {
    var r := RemoveAt(gs, k);
    forall g | g in gs && g != gs[k] ensures g in r {
      var j :| 0 <= j < |gs| && gs[j] == g;
      if j < k {
        assert r[j] == g;
      } else {
        assert r[j - 1] == g;
      }
    }
  }

  /** What the walk of button_delete does as written. */
  datatype Unlink = Unlinks(k: nat) | Keeps | Hangs

  /** button_delete as written: a matching head is unlinked; otherwise the
      loop only ever looks at the node after the head and never moves on, so
      it unlinks that node when it matches, does nothing when there is no
      such node, and spins forever otherwise. */
  function DeleteAsWritten(gs: seq<nat>, g: nat): (r: Unlink)
    ensures r.Hangs? <==> |gs| >= 2 && gs[0] != g && gs[1] != g
    ensures r.Unlinks? ==> r.k < |gs| && gs[r.k] == g
  {
    if |gs| == 0 then Keeps
    else if gs[0] == g then Unlinks(0)
    else if |gs| == 1 then Keeps
    else if gs[1] == g then Unlinks(1)
    else Hangs
  }

  /** Deleting the third of three registered buttons never returns. */
  lemma DeleteHangs()
    ensures DeleteAsWritten([1, 2, 3], 3) == Hangs
    ensures 3 in [1, 2, 3]
  {
  }

  /** Where the written walk does return, it agrees with removing the first
      node for `g`. */
  lemma DeleteAgrees(gs: seq<nat>, g: nat)
    ensures DeleteAsWritten(gs, g).Unlinks? ==> DeleteAsWritten(gs, g).k == FirstIndex(gs, g)
    ensures DeleteAsWritten(gs, g).Keeps? ==> FirstIndex(gs, g) == |gs|
  {
  }

  /** Whether the lock and the toggle timer exist (buttons_lock,
      toggle_timer). */
  datatype Boot = Boot(lock: bool, timer: bool)

  /** The start of button_create as written: the toggle timer is created
      only together with the lock. */
  function CreateBootAsWritten(s: Boot, timerOk: bool): (r: Boot)
    ensures r.lock
    ensures s.lock ==> r == s
  {
    if s.lock then s else Boot(true, timerOk)
  }

  /** The start of button_delete: buttons_init creates the lock alone. */
  function DeleteBoot(s: Boot): (r: Boot)
    ensures r.lock && r.timer == s.timer
  {
    s.(lock := true)
  }

  /** A delete before the first create, or a first create whose toggle
      timer could not be made, leaves the toggle timer uncreated for good:
      the next create finds the lock and skips it even though the timer
      could now be made, so no button is ever sampled. */
  lemma DeleteFirstNeverPolls()
    ensures !CreateBootAsWritten(DeleteBoot(Boot(false, false)), true).timer
    ensures !CreateBootAsWritten(CreateBootAsWritten(Boot(false, false), false), true).timer
  {
  }

  /** The corrected start of button_create: the toggle timer is created
      whenever it is missing. */
  function CreateBoot(s: Boot, timerOk: bool): (r: Boot)
    ensures r.lock
    ensures r.timer <==> s.timer || timerOk
  {
    Boot(true, s.timer || timerOk)
  }

  /** After the corrected start, a create whose timer could be made has a
      toggle timer, whatever calls came before. */
  lemma CreateBootPolls(s: Boot)
    ensures CreateBoot(DeleteBoot(s), true).timer
    ensures CreateBoot(s, true).timer
  {
  }
}
