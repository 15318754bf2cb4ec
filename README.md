# esp-idf-homekit lighting core in Dafny

A HomeKit lightbulb firmware for the ESP8266. This project models and
proves five parts of it:

- **The multi-channel PWM engine** (`components/multipwm1/multipwm.c`).
  - A fixed arena of `MAX_CHANNELS + 1` schedule slots forms a circular list whose ticks ascend along `next`. Slot 0 is the home entry, at tick 0.
  - Each slot holds a set mask and a clear mask.
  - A timer interrupt replays the list, writing the masks and loading the countdown to the next slot.
  - `multipwm_set_duty` rewrites the list in place:
    - it fixes the home entry;
    - it walks the list, stripping the channel's pin from every entry except the one at the new duty;
    - it takes the first free slot when no entry has that tick, and links it into the gap;
    - it unlinks the first entry left with no pins. The timer is stopped only around this cleanup.
- **The two button drivers** (`components/button/button.c`, `components/esp-idf-button/button.c`).
  - A 10 ms toggle timer samples every registered GPIO into a saturating debounce counter.
  - When the debounced level flips, a press classifier runs. It is driven by a repeat-press timer and, in the first driver, a long-press timer.
  - The buttons are kept in a registry list.
- **The status-LED pattern player** (`components/led-status/led_status.c`). A cursor steps through signed delays. A one-shot signal pattern plays in place of the repeating pattern until its cursor wraps.
- **The brightness-to-duty conversion** of the lightbulb callbacks in `main/main.c`.

Layout:

| file | module | contents |
|---|---|---|
| `schedule.dfy` | `Schedule` | The entry datatype, one interrupt firing as a function, and what replaying a well-formed traversal does to a pin over a period. |
| `arena.dfy` | `Arena` | Predicates on arena snapshots: the list shape (`Chain`) and the masks (`MasksOk`). Lemmas for each phase of the update: strip, insert, remove, and the walk. |
| `update.dfy` | `Update` | The phases of `multipwm_set_duty` composed: `Rescheduled`, `Swept`, `DutySet`. |
| `output.dfy` | `Output` | What a duty means on the wire: `Confined`, the on-time of a pin, and isolation between pins. |
| `multipwm.dfy` | `MultiPwm` | The class `PwmInfo` over `array<Entry>`, with the imperative init, set_pin, interrupt, set_duty, set_duty_all, start and stop. |
| `debounce.dfy` | `Debounce` | The shared debounce counter. |
| `button_list.dfy` | `ButtonList` | The list logic both drivers share, including the as-written and corrected create/delete. |
| `button.dfy` | `Button` | The first button driver: press classifier and the class `Registry`. |
| `idf_button.dfy` | `IdfButton` | The esp-idf button driver: press classifier and the class `Registry`. |
| `led_status.dfy` | `LedStatus` | The pattern player as a state machine, plus the class `LedStatus`. |
| `lightbulb.dfy` | `Lightbulb` | The duty arithmetic and the on/off gating of `main/main.c`. |

Modelling choices:

- **Pin masks** are `set<nat>`.
- **GPIO levels, lock and timer state**: the GPIO levels read, whether the lock can be taken, and whether a timer could be created all become parameters.
- **Timers expiring** are calls to the expiry methods.
- **Callbacks** append to an event log.
- **Hardware writes** of the PWM interrupt are its out-parameters: `raise` is the mask written to W1TS and `lower` the mask written to W1TC. The countdown loaded is the field `load`.
- **The timer enable bit** is the field `running`.
- **`PwmInfo.order`** is a ghost sequence: the slot indices in traversal order.

Behaviour of the code that the model keeps as written:

- `multipwm_set_duty` does not clamp the duty and has no case for a duty equal to the period. The model requires `duty < period`.
- When every slot is in use, the allocation loop of `multipwm_set_duty` (multipwm.c:176-187) finds no slot and silently does nothing. The entry it vacated is freed only by the cleanup that runs afterwards (multipwm.c:199-211). So with `MULTIPWM_MAX_CHANNELS` channels at distinct positive duties, moving one of them to a new distinct duty leaves that pin raised by the home entry and cleared by no entry: it stays high for the whole period. `Output.TwoChannelsFull` shows such an arena for two channels at duties 100 and 200. `Output.FullArenaStaysHigh` shows that moving the first channel to 300 keeps its pin high for all 1000 ticks. `Update.Settled` covers this case in general.
- Only the cleanup walk runs with the timer stopped. The interrupt cursor and tick are reset only when the cleanup frees a slot that was in use.
- The interrupt records the tick of the entry it fires, not that of the next entry. It loads the difference between the two (multipwm.c:53-58).

## Model

| member | source | states |
|---|---|---|
| Schedule.Fire | components/multipwm1/multipwm.c:41-58 | The set mask goes to W1TS and the clear mask to W1TC, swapped when `reverse` is set. The countdown runs to the next entry's tick, or to the period on the wrap to entry 0. It is positive whenever the current tick is below that target. |
| Schedule.Drive | components/multipwm1/multipwm.c:42-46 | After W1TS then W1TC is written, a pin is high iff it is not in the cleared mask and was either raised or already high. |
| Schedule.FireReverse | components/multipwm1/multipwm.c:41-47 | The reverse flag swaps the two masks and leaves the countdown unchanged. |
| Schedule.LoadPositive | components/multipwm1/multipwm.c:49-58 | Every countdown loaded while replaying a well-formed traversal is positive. |
| Schedule.CycleTimeFrom | components/multipwm1/multipwm.c:49-58 | The countdowns from position `c` to the wrap add up to the period minus that entry's tick. |
| Schedule.CycleIsPeriod | components/multipwm1/multipwm.c:49-58 | The countdowns over one full traversal add up to exactly the period. |
| Schedule.StaysLow | components/multipwm1/multipwm.c:41-58 | A pin that is low after the home entry, which no later entry raises, stays low for the rest of the period. |
| Schedule.HighUntil | components/multipwm1/multipwm.c:41-58 | A high pin stays high until the first entry that clears it. It is high for that entry's tick minus the current tick. |
| Schedule.HighToEnd | components/multipwm1/multipwm.c:41-58 | A high pin that no later entry clears stays high to the end of the period. |
| Schedule.OnTimeIsClearTick | components/multipwm1/multipwm.c:35-59 | A pin raised by the home entry and cleared by the entry at position `j` is high for exactly that entry's tick in each period, from any starting level. This is duty proportionality. |
| Schedule.OffAllPeriod | components/multipwm1/multipwm.c:35-59 | A pin cleared by the home entry is never high. |
| Schedule.OnAllPeriod | components/multipwm1/multipwm.c:35-59 | A pin raised by the home entry and cleared by none is high for the whole period. |
| Schedule.ReverseComplements | components/multipwm1/multipwm.c:41-47 | With the reverse flag and the complementary start level, a pin is high exactly when it would be low without the flag. This holds from any position to the wrap. |
| Schedule.ReversedOnTime | components/multipwm1/multipwm.c:41-58 | Over one period, a reversed output is high for the period minus its unreversed on-time. |
| Arena.Strip | components/multipwm1/multipwm.c:154-161 | One visit of the set_duty walk to an entry in use. The pin leaves the set mask. It is in the clear mask iff the entry's tick is the duty. Every other pin, the tick and the link are kept. |
| Arena.Stripped | components/multipwm1/multipwm.c:153-174 | The whole walk: every slot other than 0 that is in use is stripped. Free slots and the home entry are untouched. |
| Arena.ViewOf | components/multipwm1/multipwm.c:37-38 | The traversal the interrupt replays: position `k` holds slot `order[k]`. |
| Arena.TickOrder | components/multipwm1/multipwm.c:163-174 | Along a well-formed list, an earlier position means a strictly smaller tick, and the converse holds. |
| Arena.Injective | components/multipwm1/multipwm.c:172-174 | No slot appears twice in the traversal. |
| Arena.PositionOf | components/multipwm1/multipwm.c:176-187 | Every slot other than 0 whose tick is positive is in the list. |
| Arena.Successor | components/multipwm1/multipwm.c:37-39 | The interrupt cursor's successor is a slot in the list, and its target tick lies beyond the current one. |
| Arena.ViewWellFormed | components/multipwm1/multipwm.c:35-59 | A well-formed arena with whole masks replays as a `WellFormed` traversal. That means: home at tick 0, ascending ticks below the period, no non-home set bits, no empty non-home entry, and no pin cleared twice. |
| Arena.ChainInsert | components/multipwm1/multipwm.c:176-187 | Linking a free slot with a tick strictly inside the gap between `prev` and `nxt` keeps the list circular and ascending. Its slots are then exactly the ones in use. |
| Arena.ChainRemove | components/multipwm1/multipwm.c:205-206 | Unlinking a non-home entry and zeroing its tick keeps a well-formed list. |
| Arena.NextOf | components/multipwm1/multipwm.c:172-174 | The link of position `p` names position `p+1`, or slot 0 after the last position. |
| Arena.Gap | components/multipwm1/multipwm.c:163-171 | No slot in use has a tick between position `p` and the next position. |
| Arena.TicksDistinct | components/multipwm1/multipwm.c:154-156 | Two slots in use with the same tick are the same slot. |
| Arena.StripLoose | components/multipwm1/multipwm.c:153-174 | After the strip walk, the masks are whole, except that at most one slot in use may be left with no pin. |
| Arena.StripStep | components/multipwm1/multipwm.c:153-174 | The strip walk leaves the pin cleared exactly by the entry at the duty. No other pin changes. Ticks are kept. |
| Arena.InsertStep | components/multipwm1/multipwm.c:178-184 | The new entry clears the pin and no other slot's pins change. If no slot had that tick, the pin is then cleared exactly at the duty. |
| Arena.RemoveStep | components/multipwm1/multipwm.c:202-207 | Unlinking the one empty entry restores whole masks. It keeps every slot that clears some pin, with its tick. |
| Arena.LooseWhole | components/multipwm1/multipwm.c:201-211 | When the cleanup walk finds no empty entry, the masks were already whole. |
| Arena.PartialStart | components/multipwm1/multipwm.c:138-139 | Before the first visit, the walk's partial result is the arena itself. |
| Arena.PartialStep | components/multipwm1/multipwm.c:153-173 | Visiting the entry at position `p` extends the partial strip by that entry. |
| Arena.PartialEnd | components/multipwm1/multipwm.c:174 | After the last entry, the partial strip is the whole strip. |
| Arena.WalkStart | components/multipwm1/multipwm.c:138-151 | The walk's invariant holds on entry. |
| Arena.WalkStep | components/multipwm1/multipwm.c:163-174 | The invariant of the two insertion tests is preserved by each pass. |
| Arena.WalkEnd | components/multipwm1/multipwm.c:163-174 | When the walk returns to entry 0, an insertion is due iff the duty is positive and no entry has that tick. The recorded `prev`→`nxt` is then the gap the duty falls in. |
| Arena.GapFree | components/multipwm1/multipwm.c:163-171 | A gap found by the walk means that no slot holds the duty's tick. |
| Arena.AllocateStep | components/multipwm1/multipwm.c:176-187 | Allocating into the gap keeps the list well formed and the masks loose. It touches no other pin, and afterwards the pin is cleared exactly at the duty. |
| Arena.WalkVisit | components/multipwm1/multipwm.c:153-174 | One pass of the walk, combining the strip and the insertion tests. |
| Arena.SplicedKeeps | components/multipwm1/multipwm.c:179-184 | Allocation keeps the home masks and frees no slot in use. |
| Update.Home | components/multipwm1/multipwm.c:141-147 | The home entry raises the pin, or clears it when the duty is 0, never both, and keeps every other pin. |
| Update.HomeStep | components/multipwm1/multipwm.c:141-147 | Fixing the home entry keeps the list and the non-home masks. |
| Update.MergeStep | components/multipwm1/multipwm.c:153-174 | After the walk, the list is intact and the pin is cleared exactly at the duty. When an insertion is due, no slot holds the duty or clears the pin. |
| Update.CleanupStep | components/multipwm1/multipwm.c:199-211 | The cleanup removes at most one non-home entry, the first empty one, and never entry 0. The masks end up whole and the pin's placement is kept. |
| Update.RescheduleStep | components/multipwm1/multipwm.c:141-188 | The first half of set_duty leaves a well-formed list with the pin placed (see `Update.Settled`). The pin is cleared by some entry whenever it has a positive duty and there was an entry at that tick or a free slot. |
| Update.RescheduleShape | components/multipwm1/multipwm.c:141-188 | The shape part of RescheduleStep. |
| Update.RescheduleFresh | components/multipwm1/multipwm.c:176-187 | A slot that was free before the first half of set_duty and is in use after it clears the pin. It is the newly allocated slot. |
| Update.RescheduleClears | components/multipwm1/multipwm.c:154-187 | The part of RescheduleStep that says some entry clears the pin. |
| Update.MergeClears | components/multipwm1/multipwm.c:154-156 | Merging into an existing entry at the duty leaves that entry clearing the pin. |
| Update.FinishStep | components/multipwm1/multipwm.c:132-217 | set_duty as a whole: the list is well formed, the masks are whole, and the pin is placed (`DutySet`). It finds an empty entry only when a slot that was in use is freed, never the home entry. |
| Output.DutyConfines | components/multipwm1/multipwm.c:141-188 | After set_duty, entry 0 holds the pin in `pins_c` iff the duty is 0, and otherwise in `pins_s`. Any non-home entry that clears it fires at the duty. |
| Output.OtherConfined | components/multipwm1/multipwm.c:153-211 | Setting one pin's duty leaves every other pin's placement as it was (update isolation). Whether some entry clears that pin, and its on-time over a period, are both unchanged. |
| Output.OneEntryAtDuty | components/multipwm1/multipwm.c:154-171 | With a positive duty and room for it, exactly one non-home entry fires at the duty, and that entry clears the pin. Equal duties share one entry. |
| Output.HighIsOnTime | components/multipwm1/multipwm.c:35-59 | Replaying the schedule keeps a placed pin high for 0 ticks at duty 0 and for `duty` ticks when an entry clears it. With no entry clearing it, it is high for the whole period. |
| Output.TwoChannelsFull | components/multipwm1/multipwm.c:176-187 | A three-slot arena with pins 1 and 2 at duties 100 and 200 is well formed and placed. It has no entry at tick 300 and no free slot. |
| Output.FullArenaStaysHigh | components/multipwm1/multipwm.c:132-217 | Setting pin 1 of that arena to duty 300 leaves no entry clearing it, so it is high for the whole period of 1000 ticks. |
| Output.ReversedIsOffTime | components/multipwm1/multipwm.c:41-47 | With the reverse flag, the pin is high for the period minus that on-time. |
| Output.ConfinedAdd | components/multipwm1/multipwm.c:221-223 | Each round of set_duty_all keeps the earlier channels placed at the duty and places one more. |
| MultiPwm.WithDuty | components/multipwm1/multipwm.c:219-225 | The channel table with the first `n` channels at `duty`, pins unchanged. |
| MultiPwm.PwmInfo.Init | components/multipwm1/multipwm.c:61-79 | After init the schedule is exactly the home entry: tick 0, empty masks, linked to itself. The cursor is at 0, the tick is 0 and no pin is configured. |
| MultiPwm.PwmInfo.Start | components/multipwm1/multipwm.c:227-243 | Loads a one-tick countdown and enables the timer. |
| MultiPwm.PwmInfo.Stop | components/multipwm1/multipwm.c:245-255 | Disables the timer. |
| MultiPwm.PwmInfo.SetPin | components/multipwm1/multipwm.c:92-102 | Out of range, nothing changes. Otherwise the channel records the pin with duty 0, and the pin joins the configured pins. |
| MultiPwm.PwmInfo.Interrupt | components/multipwm1/multipwm.c:35-59 | Writes the current slot's masks (swapped under reverse) and loads a positive countdown. It records the current slot's tick and advances the cursor to its link, which stays a slot in the list. |
| MultiPwm.PwmInfo.Step | components/multipwm1/multipwm.c:153-173 | One pass of the do-while walk, in place. |
| MultiPwm.PwmInfo.Merge | components/multipwm1/multipwm.c:153-174 | The walk leaves the arena stripped. It reports an insertion iff the duty is positive and no entry has that tick. The reported gap is where the duty belongs. |
| MultiPwm.PwmInfo.Allocate | components/multipwm1/multipwm.c:176-188 | Takes the first slot with tick 0, spliced into the gap. When no slot is free, nothing changes. |
| MultiPwm.PwmInfo.FindEmpty | components/multipwm1/multipwm.c:199-211 | The cleanup search finds the first entry in use with both masks empty, or reaches the end. |
| MultiPwm.PwmInfo.Sweep | components/multipwm1/multipwm.c:199-211 | Unlinks and frees the first empty entry and resets the cursor and tick. When there is none, nothing changes. |
| MultiPwm.PwmInfo.Cleanup | components/multipwm1/multipwm.c:190-215 | The sweep, with a running timer stopped around it and restarted. The timer is enabled afterwards iff it was before. |
| MultiPwm.PwmInfo.Reschedule | components/multipwm1/multipwm.c:138-188 | The home fix, the walk and the allocation together establish `Update.Rescheduled`. |
| MultiPwm.PwmInfo.Place | components/multipwm1/multipwm.c:138-215 | The whole schedule update establishes `Update.DutySet` and keeps the arena valid. It reports a reset cursor and tick only when the cleanup freed a slot that was in use (`Update.Freed`). |
| MultiPwm.PwmInfo.SetDuty | components/multipwm1/multipwm.c:132-217 | Out of range, nothing changes. Otherwise it records the duty and places the channel's pin (`DutySet`). The timer state is kept. Out of range, the pins, the schedule, the cursor and the tick are all unchanged. In range, the cursor and tick are reset to the home entry at tick 0 when a slot in use was freed, and are kept otherwise. |
| MultiPwm.PwmInfo.SetDutyOf | components/multipwm1/multipwm.c:222 | One round of set_duty_all keeps the earlier channels confined to `duty` and confines this one. |
| MultiPwm.PwmInfo.SetEach | components/multipwm1/multipwm.c:221-223 | The loop gives every channel `duty` and confines every channel's pin to it. |
| MultiPwm.PwmInfo.SetDutyAll | components/multipwm1/multipwm.c:219-225 | Every channel's recorded duty is `duty`, and every channel's pin is confined to it. The timer ends up running with a one-tick countdown. |
| Debounce.Sample | components/button/button.c:88-100 | A saturating step of the counter toward the level read. The level flips to high only when the counter reaches 4 while low, and to low only when it reaches 0 while high. The handler runs exactly on a flip. |
| Debounce.RunInRange | components/button/button.c:87-102 | The counter stays within [0, 4] over any run of samples. |
| Debounce.ShortRiseIgnored | components/button/button.c:88-93 | A run of samples too short to carry the counter to 4 never raises the level. |
| Debounce.ShortDropIgnored | components/button/button.c:94-99 | A run too short to carry the counter to 0 never lowers the level. |
| Debounce.SettlesHigh | components/button/button.c:88-93 | Enough high samples in a row settle the level high with the counter at 4. |
| Debounce.SettlesLow | components/button/button.c:94-99 | Enough low samples in a row settle the level low with the counter at 0. |
| ButtonList.FirstIndex | components/button/button.c:145-149 | The search stops at the first node for the GPIO, or at the end iff there is none. |
| ButtonList.RemoveAt | components/button/button.c:220-228 | Unlinking keeps the other nodes in order. |
| ButtonList.RemoveDistinct | components/button/button.c:220-228 | Unlinking the node for a GPIO from a duplicate-free list leaves no node for it, keeps every other GPIO, and stays duplicate-free. |
| ButtonList.DeleteAsWritten | components/button/button.c:214-231 | The delete as written hangs iff there are at least two nodes and neither of the first two matches. Otherwise it unlinks a matching node or keeps the list. |
| ButtonList.DeleteHangs | components/button/button.c:224-231 | Deleting the third of three buttons never returns. |
| ButtonList.DeleteAgrees | components/button/button.c:214-231 | Where the written delete returns, it unlinks the first match, or keeps the list when there is none. |
| ButtonList.CreateBootAsWritten | components/button/button.c:133-142 | As written, the toggle timer is created only together with the lock. |
| ButtonList.DeleteBoot | components/button/button.c:207-210 | A delete creates the lock alone. |
| ButtonList.DeleteFirstNeverPolls | components/button/button.c:133-142 | After a delete, or a failed first create, a later create never makes the toggle timer. |
| ButtonList.CreateBoot | components/button/button.c:133-142 | Corrected: the toggle timer exists after the start of a create iff it existed or could be made. |
| ButtonList.CreateBootPolls | components/button/button.c:133-142 | With the correction, a create that can make the timer leaves one, whatever came before. |
| Button.CodesOverlap | components/button/button.h:19-25 | The five named events have distinct codes, 100 to 104. A press count of 100 or 104 arrives as the code of DOWN or LONG_PRESS. |
| Button.Toggle | components/button/button.c:35-57 | Press edge: DOWN, the count incremented as a uint8, the repeat timer started, and the long-press timer started iff `long_press_time != 0` and the count is 1. Release edge: UP, the long-press timer stopped, and UP_HOLD iff the repeat timer is not active. |
| Button.VisitSpec | components/button/button.c:88-100 | One button's sample: the counter and level follow `Debounce.Sample`. It sends events iff the level flipped, and then exactly those of the toggle handler. |
| Button.Pass | components/button/button.c:85-102 | The loop over the list yields the buttons after one visit each, and the events of the pass in order. |
| Button.PassKeeps | components/button/button.c:85-102 | After a pass, position `k` holds the visit of the button at `k`. The GPIOs are kept and every button stays reachable. |
| Button.ScanQuiet | components/button/button.c:81-105 | A pass in which no level flips sends no event. |
| Button.VisitKeeps | components/button/button.c:87-102 | A pass keeps the registered GPIOs and every counter in range. |
| Button.PrependKeeps | components/button/button.c:195-196 | Prepending a button for a new GPIO keeps the registry duplicate-free. |
| Button.Registry.constructor | components/button/button.c:30-33 | The globals start with an empty list, no lock and no toggle timer. |
| Button.Registry.Tick | components/button/button.c:81-105 | If the lock cannot be taken, nothing changes. Otherwise every listed button is sampled exactly once, head first. The log grows by exactly that pass's events. |
| Button.Registry.RepeatExpired | components/button/button.c:67-78 | DOWN_HOLD if still pressed, else the press count. The count is reset to 0 either way. |
| Button.Registry.LongPressExpired | components/button/button.c:60-65 | LONG_PRESS, and the press count is reset to 0. |
| Button.Registry.Find | components/button/button.c:145-147 | The search loop stops at `FirstIndex`. |
| Button.Registry.Create | components/button/button.c:127-205 | The codes are: -1 timer not made; -2 GPIO already registered, list unchanged; -3 repeat timer not made; -4 long-press timer not made, when a long-press time is set; -5 GPIO not configured. Each holds exactly when its own step is the first to fail; 0 on success, which prepends a zeroed node with the level read and starts the toggle timer. Uses the corrected start. |
| Button.Registry.Delete | components/button/button.c:207-239 | Corrected walk: unlinks the first node for the GPIO, if any. An empty list is a no-op and a matching head is unlinked. The lock is created. |
| IdfButton.Toggle | components/esp-idf-button/button.c:34-47 | Press edge: count incremented as a uint8 and the repeat timer started, with no event sent. Release edge: UP iff the repeat timer is not active. |
| IdfButton.VisitSpec | components/esp-idf-button/button.c:70-82 | One sample: the counter and level follow `Debounce.Sample`. The toggle handler runs exactly on a flip. |
| IdfButton.Pass | components/esp-idf-button/button.c:67-84 | The loop over the list yields the buttons after one visit each, and the events of the pass in order. |
| IdfButton.PassKeeps | components/esp-idf-button/button.c:67-84 | After a pass, position `k` holds the visit of the button at `k`. The GPIOs are kept and every button stays reachable. |
| IdfButton.QuickPressSilent | components/esp-idf-button/button.c:34-47 | A press released while its repeat timer runs sends nothing. |
| IdfButton.ScanOnlyUp | components/esp-idf-button/button.c:63-87 | Every event a pass sends is UP. |
| IdfButton.VisitKeeps | components/esp-idf-button/button.c:69-84 | A pass keeps the GPIOs and every counter in range. |
| IdfButton.PrependKeeps | components/esp-idf-button/button.c:161-162 | Prepending a new GPIO keeps the registry duplicate-free. |
| IdfButton.Registry.constructor | components/esp-idf-button/button.c:29-32 | Empty list, no lock, no toggle timer. |
| IdfButton.Registry.Tick | components/esp-idf-button/button.c:63-87 | If the lock cannot be taken, this is a no-op. Otherwise each button is sampled exactly once, and the pass's events are logged in order. |
| IdfButton.Registry.RepeatExpired | components/esp-idf-button/button.c:49-60 | DOWN if still pressed, else the press count. The count is reset to 0. |
| IdfButton.Registry.Find | components/esp-idf-button/button.c:124-126 | The search loop stops at `FirstIndex`. |
| IdfButton.Registry.Create | components/esp-idf-button/button.c:106-171 | The codes are: -1 timer not made; -2 duplicate GPIO, list unchanged; -3 repeat timer not made; 0 prepends a zeroed node and starts the toggle timer. Uses the corrected start. |
| IdfButton.Registry.Delete | components/esp-idf-button/button.c:173-205 | Corrected walk: unlinks the first node for the GPIO, if any. |
| LedStatus.Show | components/led-status/led_status.c:41-44 | A delay drives the LED on iff it is positive, and restarts the timer with its absolute value. |
| LedStatus.Step | components/led-status/led_status.c:30-51 | The signal plays if present, else the pattern. With neither, the timer stops, the LED is driven off and nothing else changes. Otherwise the delay at the cursor is shown and the cursor advances modulo the length. The signal is dropped exactly when the cursor wraps to 0. The cursor stays within the playing pattern. |
| LedStatus.Run | components/led-status/led_status.c:53-57 | The timer callback, `k` times: the cursor stays in range. |
| LedStatus.SignalPlays | components/led-status/led_status.c:30-51 | From cursor `j`, a signal shows its remaining delays in order and is then dropped, with the cursor at 0. |
| LedStatus.PatternPlays | components/led-status/led_status.c:30-51 | With no signal, the pattern shows its remaining delays and comes back to cursor 0, so it repeats. |
| LedStatus.SetPattern | components/led-status/led_status.c:93-104 | The pattern is always stored. The cursor is reset and a tick happens only when no signal plays. |
| LedStatus.SetSignal | components/led-status/led_status.c:106-116 | A no-op when both the current and the new signal are null. Otherwise the signal is replaced, the cursor reset, and a tick happens. |
| LedStatus.SignalOnce | components/led-status/led_status.c:106-116 | A signal shows each of its delays once, in order, and then the repeating pattern resumes from its first delay. |
| LedStatus.SetDuringSignal | components/led-status/led_status.c:93-104 | A pattern set while a signal plays shows nothing until the signal finishes, and then starts from its first delay. |
| LedStatus.MsToTicks | components/led-status/led_status.c:44 | `pdMS_TO_TICKS`: the ticks are the floor of milliseconds times the tick rate over 1000. At a rate of 1000 Hz they equal the milliseconds. |
| LedStatus.LedStatus.Level | components/led-status/led_status.c:24-26 | The level written is `active` when on and `!active` when off. It is 0 exactly when on matches `active == 0`. |
| LedStatus.LedStatus.LevelsDiffer | components/led-status/led_status.c:24-26 | On and off are always different levels, whatever `active` is. |
| LedStatus.LedStatus.constructor | components/led-status/led_status.c:59-81 | No patterns, the timer made with a period of 100 ticks (not milliseconds) but not running, and the LED driven off. |
| LedStatus.LedStatus.Write | components/led-status/led_status.c:24-26 | Drives the GPIO to `Level(on)`. |
| LedStatus.LedStatus.Tick | components/led-status/led_status.c:30-51 | The fields step as `Step` says. The GPIO shows its output, and the timer runs iff it shows a delay, with that delay converted to ticks by `MsToTicks`. A stopped timer keeps its period. |
| LedStatus.SetStatus | components/led-status/led_status.c:93-104 | A null status is left alone. Otherwise the state and hardware follow `SetPattern`. Without a tick, the level and the timer, its period included, are unchanged. |
| LedStatus.SignalStatus | components/led-status/led_status.c:106-116 | A null status is left alone. Otherwise the state and hardware follow `SetSignal`. Without a tick, the level and the timer, its period included, are unchanged. |
| Lightbulb.CDiv | main/main.c:89 | C's int division truncates toward zero: the quotient is the floor for non-negative operands and the ceiling for negative ones. |
| Lightbulb.ToU16 | components/multipwm1/multipwm.c:132 | The conversion to `uint16_t` is modulo 65536 and keeps values already in range. |
| Lightbulb.Duty | main/main.c:89 | For a non-negative brightness, `b * 65535 / 100` is the floor of the exact quotient. |
| Lightbulb.DutyEnds | main/main.c:15 | Brightness 0 gives duty 0, and 100 gives 65535. |
| Lightbulb.DutyMonotone | main/main.c:89 | For brightness 0 to 100, the duty is monotone and at most 65535. |
| Lightbulb.BrightnessDuty | main/main.c:72-91 | A value that is not an int is ignored and no duty is set. |
| Lightbulb.BrightnessInRange | main/main.c:89 | A brightness in range reaches set_duty unchanged by the 16-bit conversion. |
| Lightbulb.OnDuty | main/main.c:40-65 | A value that is not a bool is ignored. Off sets duty 0, and on sets the brightness duty. |
| Lightbulb.OnOff | main/main.c:62 | On at full brightness gives 65535, and off gives 0. |

## Left out

- **Pin masks** are sets of pin numbers. The 32-bit `1 << pin` with its truncation for pins of 32 or more is not modelled.
- **uint8 channel numbers** are not modelled. Neither is the `uint8_t` loop counter of the allocation loop.
- **Hardware side effects** of the PWM code are not modelled: the GPIO register writes' effect on pins other than through `raise` and `lower`, direction setup, the hardware timer's clock divider and reload mode, and interrupt registration.
- **multipwm_init's memset** covers only `MAX_CHANNELS` of the `MAX_CHANNELS + 1` slots. The constructor starts from a zeroed arena, as a statically allocated engine is.
- **`multipwm_dump_schedule`** (components/multipwm1/multipwm.c:104-130) only logs. Logging is left out everywhere.
- **Concurrency** is left out: between set_duty and the interrupt, which the code lets run during the walk and the allocation, and between callers. Updates are modelled sequentially.
- **MultiPwm.PwmInfo.SetDuty** requires `duty < period`. The code has no clamping and no full-on case, and the period (`MULTIPWM_MAX_PERIOD`) and `MULTIPWM_MAX_CHANNELS` are parameters because their header is not part of this model.
- **MultiPwm.PwmInfo.SetDuty** still places the pin when every slot is in use and a new entry would be needed. In that case the pin is raised by the home entry and cleared by none, so the model proves it stays high for the whole period rather than `duty` ticks. This is what the code does; `Output.FullArenaStaysHigh` gives an arena where it happens.
- **FreeRTOS timers, semaphores and GPIO reads** are inputs: the level read, whether the lock is free, and whether each creation succeeds. The button drivers' timer periods are not modelled: only whether each of their timers runs is tracked (`repeatActive`, `longActive`, `toggleTimer`, `toggleActive`). The LED timer's period is modelled in ticks (`timerPeriod`), with the kernel tick rate as the parameter `tickRate`.
- **LedStatus.LedStatus.Tick** shows a delay of 0 ms, or one shorter than a tick, as the timer running with period 0. FreeRTOS's `xTimerChangePeriod` asserts that the new period is positive (components/led-status/led_status.c:44); that assertion is not modelled.
- **LedStatus.MsToTicks** uses unbounded integers. The 32-bit overflow of `pdMS_TO_TICKS` for delays of several million milliseconds is not modelled.
- **The callbacks'** `context` argument and `malloc`/`free` are not modelled.
- **`button_free`** (components/button/button.c:107-117) stops and deletes the repeat timer twice and never the long-press timer. Timer deletion is not modelled, so this leak is not represented.
- **Button.Btn.gpio** is a natural number. The `uint8_t` truncation of the GPIO number is not modelled.
- **IdfButton.Event** names `button_event_up` and `button_event_down` symbolically. Their values come from a header of the esp-idf driver that is not part of this model.
- **The toggle-timer and LED timer callbacks** are modelled as calls to `Tick`. When and how often the timers fire is not modelled.
- **LedStatus.LedStatus.Tick** requires the playing pattern to be non-empty and the cursor inside it. The code divides by the length and indexes with the cursor without checking; the model proves the other operations keep this.
- **LedStatus**: `led_status_done` and the GPIO configuration in `led_status_init` are resource management only.
- **Lightbulb.Duty** uses unbounded integers. `b * 65535` overflows a 32-bit int only for brightness beyond ±32767, far outside HomeKit's 0 to 100 range.
- **main/main.c**: the HomeKit accessory tables, `create_accessory_name`, `app_main`, Wi-Fi and HTTP are wiring and network I/O.
- **The call from the callbacks into `multipwm_set_duty`** is represented only by the duty they compute. The engine's period is a parameter there, and brightness 100 gives duty 65535, which equals a period of 65535 and so is outside what `SetDuty` accepts.

## Findings

| source | as written | input that shows it | evidently intended | confidence | as-written member | corrected member |
|---|---|---|---|---|---|---|
| components/button/button.c:224-231 (also components/esp-idf-button/button.c:190-197) | The non-head branch of `button_delete` never advances `b`. It only ever compares the node after the head. | Buttons on GPIOs 1, 2 and 3 in the list, then `button_delete(3)`: the loop spins forever holding the lock. | Walk the list and unlink the first node for the GPIO. | not executed | ButtonList.DeleteHangs | Button.Registry.Delete |
| components/button/button.c:133-142 with 207-210 (also components/esp-idf-button/button.c:112-121 with 173-176) | `button_create` creates the toggle timer only when it also creates the lock, and `button_delete` may create the lock first. A failed first timer creation also leaves the lock behind. | `button_delete(0)` before any create, then `button_create(5, …)`: the toggle timer is never made and the timer start is handed a null handle, so no button is ever sampled. | Create the toggle timer whenever it is missing. | not executed | ButtonList.DeleteFirstNeverPolls | ButtonList.CreateBootPolls |
