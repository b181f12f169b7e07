# Verified models of the DeviceIO core

Dafny models of the parts of the repository that hold real data structures, schedulers and state
machines, with proofs of what they keep over every input and every run.
`dafny verify dfyconfig.toml` checks all of it.

| file | what it models |
|---|---|
| `Queue.dfy` | the reference-counted linked queue of the Bluetooth code, with iteration under mutation and destruction |
| `Timer.dfy` | the timer manager: two lists, timeval arithmetic, and the thread that fires expired timers |
| `Breathing.dfy` | the breathing-colour arithmetic of both LED drivers |
| `LedLayers.dfy` | the LED layer stack: command table, commands, ticks, and its meaning over a whole history |
| `LedProtocol.dfy` | the LED driver itself, and its callers and thread interleaved |
| `LedEffects.dfy` | the LED effect manager: a list by priority and name under two override layers |
| `KeyTransaction.dfy` | key sequences recognised on delimited decimal text |
| `Playlist.dfy` | the doubly linked playlist with its cursor and modes |
| `BleServer.dfy` | the connection state of the Bluetooth Low Energy server and client |
| `LogRotation.dfy` | numbered log files, shifted when the first is full |
| `Advertising.dfy` | UUID text, and the advertising and scan-response payloads |
| `Common.dfy` | sequences: filters, removal, insertion |

The source changes its structures in place, and so do the classes here. Each has a method for each
operation, with the source's branches and loops, and every method says what it makes of the whole
state in terms of functions on sequences and records. The lemmas are about those functions: what every
operation keeps, and what every run comes to. Clock readings, random numbers, hardware writes,
directory listings and what a callback does are parameters; the statements hold for all of them.

In the queue, the LED effect manager and the playlist memory is modelled too: a release clears a ghost flag
`live` that it demands, so nothing is released twice. The accessors of a queue cell demand the flag as well,
so no method of the queue reads a released cell; in the other two every listed cell has it.

## What the code does not promise

Some properties one would expect hold only under a condition, which is stated with the lemma that shows
the failure.

- A callback of the queue iteration may remove anything but the entry saved as the next one, unless it leaves
  the queue empty or destroyed; after any other call a released entry is read (`Queues.Queue.VisitCell`).
- When the clock goes back between calls, a timer of a negative duration can be hidden from the expiry scan.
  That needs a duration whose microseconds come out at -2 or less (`Timers.BackwardRunsScanExactly`); with a
  clock that does not go back no duration does harm (`Timers.ForwardRunsScanExactly`).
- A spurious wakeup of the LED thread while no layer is on the stack makes it tick an empty stack
  (`LedProtocol.SpuriousTicksNothing`), and no other step can.
- A key transaction can be missed when its first key is taken by another transaction in progress, or by an
  earlier attempt at itself, that waits for it, and always when a newer one starts with the same key. Which
  registrations cannot miss it says `KeyTransaction.TextNeverMissesExactly`. The gap before the last key is
  not checked.
- Loop mode does not undo the first next or prev of a stopped player (`Playlists.LoopUndoes`).
- Opening the server is not atomic: a bus event leaves it inconsistent exactly when it connects a device before
  the idle state is announced (`BleServer.GapIsSafeExactly`, and `BleServer.GapRunIsSafeExactly` for several).
  The removal of a device is noticed only by an open server (`BleServer.RemovalIsNoticed`).
- With 10000 log files the greatest name is not that of the greatest number, and each rotation overwrites
  the oldest file (`LogRotation.LogStore.LogSave`): a greater limit is in effect a limit of 10000.
- A breathing effect with a negative period goes past its colour (`Breathing.BreathPastTarget`), and colours
  overflow an `int` for half periods beyond 8421504 ticks (`Breathing.BreathFitsInt`).

## Model

| member | source | states |
|---|---|---|
| Queues.Queue.Foreach | DeviceIO/bluetooth/bluez/a2dp_source/queue.c:198-219 | with a callback that pushes and removes anything, as long as the entry saved as the next one, or no entry at all, is queued when a call returns: the entries queued at the start are visited exactly once each and in order, but for those that calls before their turn removed; no released entry is read; when a call destroys the queue the loop stops there, every entry has been released, and the header goes with the last reference, behind the loop; when no call pushes anything, the visits are exactly those entries |
| Queues.VisitedOnlyWalks | DeviceIO/bluetooth/bluez/a2dp_source/queue.c:198-219 | calls that remove no more than the entry they visit, and push what they like, are safe, and every entry queued at the start is visited |
| Queues.SpareIsSafe | DeviceIO/bluetooth/bluez/a2dp_source/queue.c:198-219 | calls that remove no entry still to come are safe |
| Queues.Queue.Walk | DeviceIO/bluetooth/bluez/a2dp_source/queue.c:211-217 | the loop, run under the second reference, of a walk whose calls are safe: no released entry is read, and it ends after finitely many visits |
| Queues.Queue.Turn | DeviceIO/bluetooth/bluez/a2dp_source/queue.c:211-217 | one turn of such a walk leaves one that is safe from there on; what it removes of the entries to come is never visited |
| Queues.Queue.VisitCell | DeviceIO/bluetooth/bluez/a2dp_source/queue.c:212-216 | one turn reads the link before the callback runs; whatever the callback does, the saved entry is readable, or the loop stops without reading it, if and only if it is still queued, nothing is queued, or the queue was destroyed |
| Queues.Queue.RunCallback | DeviceIO/bluetooth/bluez/a2dp_source/queue.c:215-215 | after any operations the saved entry is lost exactly when one of them removed it; otherwise the entries to come are those still queued, in order |
| Queues.Queue.VisitPushHead | DeviceIO/bluetooth/bluez/a2dp_source/queue.c:105-124 | a push at the head moves the cursor up by one and adds no original cell |
| Queues.Queue.VisitPushTail | DeviceIO/bluetooth/bluez/a2dp_source/queue.c:83-104 | a push at the tail leaves the cursor where it is |
| Queues.Queue.VisitPushAfter | DeviceIO/bluetooth/bluez/a2dp_source/queue.c:126-156 | a push in the middle moves the cursor up exactly when it lands in front of it |
| Queues.Queue.VisitRemove | DeviceIO/bluetooth/bluez/a2dp_source/queue.c:244-271 | a removal in a callback: the link that the walk has saved can be read afterwards if and only if the saved entry is not the one removed, and then the same original entries are still to come, without the removed one |
| Queues.Queue.AheadAfterInsert | DeviceIO/bluetooth/bluez/a2dp_source/queue.c:126-156 | inserting at any position keeps the original cells still to be visited, in order |
| Queues.Queue.AheadAfterRemove | DeviceIO/bluetooth/bluez/a2dp_source/queue.c:244-271 | removing any entry but the saved one leaves the other original entries to come, in order |
| Queues.Queue.RemoveAllIf | DeviceIO/bluetooth/bluez/a2dp_source/queue.c:313-337 | with a matcher the loop ends, hands exactly the matching elements to the destroy callback in queue order, returns their number, and leaves the others in their order: repeated removal is a one-pass filter |
| Queues.RemoveFirstSplitsFilter | DeviceIO/bluetooth/bluez/a2dp_source/queue.c:273-311 | one removal takes the head off the matching elements and changes nothing about the others; when nothing matches there is nothing to take |
| Queues.FilterWithout | DeviceIO/bluetooth/bluez/a2dp_source/queue.c:273-311 | taking out one element takes exactly that element out of the filtered sequence it belongs to |
| Queues.Queue.RemoveNext | DeviceIO/bluetooth/bluez/a2dp_source/queue.c:325-336 | an unchanged count of entries means that nothing matched, otherwise the queue is shorter and the removed element is the next one of the filter |
| Queues.Queue.RemoveAll | DeviceIO/bluetooth/bluez/a2dp_source/queue.c:338-354 | without a matcher every element is handed over in order and every cell is released once |
| Queues.Queue.Destroy | DeviceIO/bluetooth/bluez/a2dp_source/queue.c:63-71 | hands over all elements, releases all cells, and releases the header exactly with the last reference |
| Queues.Queue.Ref | DeviceIO/bluetooth/bluez/a2dp_source/queue.c:33-41 | one more reference |
| Queues.Queue.Unref | DeviceIO/bluetooth/bluez/a2dp_source/queue.c:43-49 | the header is released exactly when the last reference goes |
| Queues.Queue.constructor | DeviceIO/bluetooth/bluez/a2dp_source/queue.c:51-61 | an empty queue with one reference |
| Queues.Queue.PushTail | DeviceIO/bluetooth/bluez/a2dp_source/queue.c:83-104 | appends; the chain from `head` ends in the new `tail` and has `entries` cells |
| Queues.Queue.PushHead | DeviceIO/bluetooth/bluez/a2dp_source/queue.c:105-124 | prepends, and the new cell is `head` |
| Queues.Queue.PushAfter | DeviceIO/bluetooth/bluez/a2dp_source/queue.c:126-156 | places the data behind the first occurrence of the entry; refuses and changes nothing when there is none |
| Queues.Queue.LinkBehind | DeviceIO/bluetooth/bluez/a2dp_source/queue.c:147-153 | linking behind a cell keeps the chain acyclic, counted and ended by `tail` |
| Queues.Queue.PopHead | DeviceIO/bluetooth/bluez/a2dp_source/queue.c:158-180 | takes the first element and releases its cell; NULL from an empty queue |
| Queues.Queue.PeekHead | DeviceIO/bluetooth/bluez/a2dp_source/queue.c:182-188 | the first element or NULL |
| Queues.Queue.PeekTail | DeviceIO/bluetooth/bluez/a2dp_source/queue.c:190-196 | the last element or NULL |
| Queues.Queue.Find | DeviceIO/bluetooth/bluez/a2dp_source/queue.c:226-242 | the first element that matches, or NULL |
| Queues.Queue.Seek | DeviceIO/bluetooth/bluez/a2dp_source/queue.c:251-254 | the cell of the first match and the one in front of it |
| Queues.Queue.Unlink | DeviceIO/bluetooth/bluez/a2dp_source/queue.c:256-265 | bypassing any cell, first and last included, leaves the chain of the others, counted and ended by `tail`, and releases the cell |
| Queues.Queue.Remove | DeviceIO/bluetooth/bluez/a2dp_source/queue.c:244-271 | removes the first occurrence and releases its cell; false and no change when there is none |
| Queues.Queue.RemoveIf | DeviceIO/bluetooth/bluez/a2dp_source/queue.c:273-311 | removes and returns the first match and releases its cell; NULL and no change when there is none |
| Timers.TimevalIsMicros | DeviceIO/src/linux/Timer.cpp:78-85 | field-wise addition and subtraction of timevals are arithmetic on microseconds; on normal values comparison is their order |
| Timers.SplitSecondsNormal | DeviceIO/src/linux/Timer.cpp:178-179 | a non-negative duration becomes a normal delay of its whole microseconds, rounded down |
| Timers.SplitSecondsShaped | DeviceIO/src/linux/Timer.cpp:178-179 | every duration, negative ones included, is split into microseconds below a second in size that are negative only along with the seconds |
| Timers.SplitSecondsMirrors | DeviceIO/src/linux/Timer.cpp:178-179 | a negative duration is split like the positive one with both signs turned |
| Timers.SlotKeepsOrder | DeviceIO/src/linux/Timer.cpp:82-88 | inserting in front of the first later deadline keeps the list sorted, and equal deadlines first in, first out |
| Timers.InsertOk | DeviceIO/src/linux/Timer.cpp:75-89 | insertion keeps both lists in order and without duplicates, and adds one timer |
| Timers.RemoveOk | DeviceIO/src/linux/Timer.cpp:96-114 | removal keeps both lists in order and without duplicates, takes out exactly that timer, and reports a timer in neither list |
| Timers.ApplyOk | DeviceIO/src/linux/Timer.cpp:199-260 | start, stop and modify conserve the set of timers; delete takes out exactly one |
| Timers.CreateOk | DeviceIO/src/linux/Timer.cpp:168-197 | creation adds exactly the new timer |
| Timers.CreateOwn | DeviceIO/src/linux/Timer.cpp:168-197 | a created timer has the delay split from its duration and the kind asked for; it is active with deadline now plus delay when started on creation, else the last of the inactive ones |
| Timers.CreateOthers | DeviceIO/src/linux/Timer.cpp:168-197 | creation leaves the list, delay, kind and deadline of every other timer as they are |
| Timers.RunOk | DeviceIO/src/linux/Timer.cpp:168-260 | over every run of create, start, stop, modify and delete the active list is sorted by deadline with ties in insertion order, no timer is in two places, and the timers are those created and not deleted since |
| Timers.ApplyOwn | DeviceIO/src/linux/Timer.cpp:199-260 | where one operation puts the timer it is called on, with which delay and deadline |
| Timers.OperationsTell | DeviceIO/src/linux/Timer.cpp:199-260 | spelled out: start makes a timer active with deadline now plus its delay, stop makes it inactive, modify gives it the new delay in the list it is in and a new deadline when active, delete takes it out; delay and kind stay otherwise; what becomes or stays inactive comes last; an unknown timer changes nothing |
| Timers.ApplyOthers | DeviceIO/src/linux/Timer.cpp:199-260 | an operation leaves the list, delay and deadline of every other timer as they are |
| Timers.RoundFind | DeviceIO/src/linux/Timer.cpp:153-162 | a round moves every fired timer through its own firing and leaves every other record as it was |
| Timers.FiringFate | DeviceIO/src/linux/Timer.cpp:153-162 | restart in front of the callback and deletion behind it: a one-shot timer ends in neither list but exists while its callback runs, a periodic one that stopped itself ends inactive |
| Timers.RoundFired | DeviceIO/src/linux/Timer.cpp:153-162 | what a round leaves of each fired timer, by its kind and its callback |
| Timers.RoundResult | DeviceIO/src/linux/Timer.cpp:116-165 | after a full round with callbacks that touch only their own timer: one-shot timers are gone, untouched periodic ones are active with deadline now plus delay, those that stopped themselves are inactive, and all others are unchanged |
| Timers.ForwardRunsScanExactly | DeviceIO/src/linux/Timer.cpp:133-143 | for all durations: after every run of calls whose clock readings do not go back, a scan at later readings that do not go back collects exactly the active timers whose deadline is at most 500 microseconds after its last reading |
| Timers.BackwardRunsScanExactly | DeviceIO/src/linux/Timer.cpp:133-143 | when the readings of earlier calls may go back: for every set of durations that has zero in it, the scan is exact after every run of calls with such durations if and only if the microseconds of each of them are at least -1 |
| Timers.HidingRunIsNotExact | DeviceIO/src/linux/Timer.cpp:133-143 | for every other duration two timers created while the clock goes back, of which the one in front hides the expired one behind it |
| Timers.ScanIsExact | DeviceIO/src/linux/Timer.cpp:133-143 | stopping at the first unexpired timer misses no other, on a sorted list whose deadlines the first reading of the scan compares right |
| Timers.RoundIsRun | DeviceIO/src/linux/Timer.cpp:153-162 | a round of the thread with its callbacks is a run of calls, so what holds over every run holds with rounds in it |
| Timers.TimelyFits | DeviceIO/src/linux/Timer.cpp:168-260 | over every run whose readings do not go back, each deadline is one that the current time compares right |
| Timers.ShallowFits | DeviceIO/src/linux/Timer.cpp:168-260 | over every run of calls whose durations all have -1 microseconds or more, at readings in any order, so have all delays and deadlines |
| Timers.TimerManager.TimerInsert | DeviceIO/src/linux/Timer.cpp:75-89 | the loop finds the first later deadline and places the timer there with deadline now plus delay |
| Timers.TimerManager.TimerRemove | DeviceIO/src/linux/Timer.cpp:96-114 | the two searches take the timer out of the list it is in and say which |
| Timers.TimerManager.TimerCreate | DeviceIO/src/linux/Timer.cpp:168-197 | a new timer with the delay and kind asked for, in one of the lists, active if asked for, and nothing else changed |
| Timers.TimerManager.TimerDelete | DeviceIO/src/linux/Timer.cpp:199-212 | takes the timer out; NULL and unknown timers change nothing |
| Timers.TimerManager.TimerStart | DeviceIO/src/linux/Timer.cpp:214-223 | moves a known timer to its place in the active list; an unknown one changes nothing |
| Timers.TimerManager.TimerStop | DeviceIO/src/linux/Timer.cpp:225-234 | moves a known timer to the end of the inactive list |
| Timers.TimerManager.TimerModify | DeviceIO/src/linux/Timer.cpp:236-260 | a new delay; an active timer is re-sorted by its new deadline, an inactive one stays inactive |
| Timers.TimerManager.Rearm | DeviceIO/src/linux/Timer.cpp:247-257 | the deadline set first is overwritten by the insertion |
| Timers.TimerManager.ScanExpired | DeviceIO/src/linux/Timer.cpp:123-149 | the collected timers are the prefix up to the first that is not due, which is exact under the conditions above; the sleep is the time left to that one, at most 50 milliseconds, or when all were due what is left of the last, with 50 milliseconds in place of more microseconds than that |
| Timers.TimerManager.FireTimer | DeviceIO/src/linux/Timer.cpp:154-161 | a periodic timer is restarted before its callback and a one-shot timer deleted after it; the callback is called once |
| Timers.TimerManager.FireExpired | DeviceIO/src/linux/Timer.cpp:153-162 | the callbacks of the expired timers are called one after the other, each once, in the order of the list |
| Timers.TimerManager.TimerRound | DeviceIO/src/linux/Timer.cpp:122-165 | one full round: the scan, the callback of every collected timer called once and in order, and the time to sleep |
| Breathing.BreathChannels | DeviceIO/src/linux/Rk_led.cpp:47-64 | for every colour, count and period of two ticks or more: each channel is its target scaled to the folded position and never above it, channels do not run into each other, the colour is dark at the start of a period and full at its middle |
| Breathing.BreathMirrors | DeviceIO/src/linux/Rk_led.cpp:55-57 | the second half of a period mirrors the first, for odd and even numbers of ticks |
| Breathing.BreathIsLinear | DeviceIO/src/linux/Rk_led.cpp:49-61 | with h half the ticks, k the count modulo the ticks, t a target and c its channel: h * c <= t * k < h * (c + 1) up to the middle of a period, and the same with the ticks left behind it |
| Breathing.ChannelsAreBytes | DeviceIO/src/linux/Rk_led.cpp:59-61 | the three channels are the bytes of the low 24 bits of a colour |
| Breathing.BreathRises | DeviceIO/src/linux/Rk_led.cpp:49-61 | within the first half of a period no channel of the colour gets darker from one count to the next |
| Breathing.BreathPastTarget | DeviceIO/src/linux/Rk_led.cpp:49-61 | with a negative period every channel comes out at twice its target or more |
| Breathing.BreathOfNegative | DeviceIO/src/linux/Rk_led.cpp:49-61 | which colour a negative period gives |
| Breathing.BreathPeriodic | DeviceIO/src/linux/led_pwm.cpp:206-221 | the colour repeats with the period, so reducing the count or not shows the same |
| Breathing.CountStaysInStep | DeviceIO/src/linux/Rk_led.cpp:50-54 | counting on from a reduced count stays in step with counting without reduction, so a bounded count suffices for ever |
| Breathing.BreathFitsInt | DeviceIO/src/linux/Rk_led.cpp:59-61 | no product overflows a 32-bit `int`, for any colour, if and only if half a period has at most 8421504 ticks |
| Breathing.Packed | DeviceIO/src/linux/Rk_led.cpp:59-61 | three bytes joined by shifts and `|` do not carry into each other and can be read back |
| Breathing.OrIsSum | DeviceIO/src/linux/Rk_led.cpp:59-61 | `|` of numbers without a common bit is their sum |
| LedLayers.RunInClosedForm | DeviceIO/src/linux/led_pwm.cpp:531-562 | after every run of commands and ticks each layer of the stack, the displayed one included, has the time, count and colour that the command table gives it for the number of ticks it has been on top since its latest add |
| LedLayers.RunMatches | DeviceIO/src/linux/led_pwm.cpp:486-515 | after every run the stack is what the whole history says: one layer for each name whose latest add has not been closed, switched off or timed out since, with the effect of that add ticked as often as since, in the order of those adds |
| LedLayers.TicksInClosedForm | DeviceIO/src/linux/led_pwm.cpp:531-557 | any number of ticks in closed form: a blinking layer has changed its colour once a period until its stop time, a breathing one shows the colour of that count, and the next tick ends the layer exactly when its time reaches the timeout |
| LedLayers.ShowIsNewest | DeviceIO/src/linux/led_pwm.cpp:440-449 | after every run the display belongs to the layer added last of those that live, with the colour of the table for its ticks, and is dark when none lives |
| LedLayers.SteadyCommands | DeviceIO/src/linux/led_pwm.cpp:234-388 | the commands that light the LED for good, and in which colours |
| LedLayers.BreathingCommands | DeviceIO/src/linux/led_pwm.cpp:241-376 | those that let it breathe, with colours and periods |
| LedLayers.BlinkingCommands | DeviceIO/src/linux/led_pwm.cpp:257-341 | those that let it blink: dark and lit by turns of one period until the stop time, and ended by the timeout |
| LedLayers.VolumeAndOthers | DeviceIO/src/linux/led_pwm.cpp:343-358 | the volume shows white for a second on one LED for every 25 begun, and no other command shows anything |
| LedLayers.LayerGroups | DeviceIO/src/linux/led_pwm.cpp:398-438 | which commands share a layer |
| LedLayers.ChangesNext | DeviceIO/src/linux/led_pwm.cpp:545-557 | a blinking colour changes at the multiples of the period before the stop time and only there |
| LedLayers.MatchesDetermines | DeviceIO/src/linux/led_pwm.cpp:460-484 | the history determines the stack: two stacks that agree with it are equal |
| LedLayers.LiveAddMeaning | DeviceIO/src/linux/led_pwm.cpp:486-515 | a layer is live from its latest add unless a later event ended it |
| LedLayers.HandleMatches | DeviceIO/src/linux/led_pwm.cpp:486-515 | handling any command keeps the stack in agreement with the history |
| LedLayers.HandleTells | DeviceIO/src/linux/led_pwm.cpp:486-515 | spelled out: 28 empties the stack, 27 closes the layer of the command it names, a command with an effect puts it on top in place of an older layer of its name, and nothing else changes anything |
| LedLayers.TickMatches | DeviceIO/src/linux/led_pwm.cpp:531-562 | a tick, with or without a timeout, keeps the stack in agreement with the history |
| LedLayers.AddMatches | DeviceIO/src/linux/led_pwm.cpp:460-472 | adding a layer again moves it to the back, and no name is twice |
| LedLayers.DeleteMatches | DeviceIO/src/linux/led_pwm.cpp:474-484 | deleting a layer removes that layer only |
| LedLayers.HandleTickable | DeviceIO/src/linux/led_pwm.cpp:500-512 | every effect of the command table can be ticked: no division by zero |
| LedLayers.TickTickable | DeviceIO/src/linux/led_pwm.cpp:531-562 | ticking keeps it so |
| LedLayers.QuietTickShows | DeviceIO/src/linux/led_pwm.cpp:531-562 | a tick that does not redraw does not change the colour that belongs on the display |
| LedProtocol.ReachableKeeps | DeviceIO/src/linux/led_pwm.cpp:564-636 | in every state of every interleaving: the accepted commands are the handled ones followed by the queue, in order; a queued command has the flag set or the thread about to drain; the thread waits without a timeout only when no layer has a period, with one only when some layer has, and never ticks an empty stack; the stack is that of the whole history; what the display was last given is the colour of the stack, unless a command wrote to it since the latest redraw or nothing has been processed yet |
| LedProtocol.StepKeeps | DeviceIO/src/linux/led_pwm.cpp:564-636 | every single step keeps all of that, as long as no spurious wakeup comes to an empty stack |
| LedProtocol.CallTells | DeviceIO/src/linux/led_pwm.cpp:687-735 | what a call comes to, by its code and whether a layer is the sleep mode: nothing, a direct write, or the command queued, the flag set and a waiting thread woken |
| LedProtocol.DrainKeeps | DeviceIO/src/linux/led_pwm.cpp:517-529 | draining handles the queued commands in the order of their acceptance |
| LedProtocol.TaskKeeps | DeviceIO/src/linux/led_pwm.cpp:531-562 | a tick keeps queue, history and display in agreement |
| LedProtocol.InitHolds | DeviceIO/src/linux/led_pwm.cpp:624-636 | the start is such a state |
| LedProtocol.QueuedIsHandled | DeviceIO/src/linux/led_pwm.cpp:624-636 | while a command is queued the thread is not blocked, and each of its steps brings the drain nearer, which handles everything accepted |
| LedProtocol.SpuriousTicksNothing | DeviceIO/src/linux/led_pwm.cpp:581-611 | the assumption is needed: a spurious wakeup without layers leads to a tick of an empty stack |
| LedProtocol.SpuriousIsPossibleAtOnce | DeviceIO/src/linux/led_pwm.cpp:581-611 | such a state is reached by the first wait |
| LedProtocol.RunCommands | DeviceIO/src/linux/led_pwm.cpp:517-529 | handling a list of commands extends the run and the handled commands by exactly that list |
| LedProtocol.LedManager.FinalWrite | DeviceIO/src/linux/led_pwm.cpp:440-449 | the display shows the back layer, or is dark |
| LedProtocol.LedManager.DeleteALayer | DeviceIO/src/linux/led_pwm.cpp:474-484 | removes the layer of a name |
| LedProtocol.LedManager.AddALayer | DeviceIO/src/linux/led_pwm.cpp:460-472 | replaces by name and appends |
| LedProtocol.LedManager.HandleACommand | DeviceIO/src/linux/led_pwm.cpp:486-515 | the three kinds of command, and the display written after each |
| LedProtocol.LedManager.HandleCommandQueue | DeviceIO/src/linux/led_pwm.cpp:517-529 | handles the whole queue, first in first out |
| LedProtocol.LedManager.EffectTask | DeviceIO/src/linux/led_pwm.cpp:531-562 | ticks the back layer, drops it on timeout, and writes the display where the code does |
| LedProtocol.LedManager.IsSleepMode | DeviceIO/src/linux/led_pwm.cpp:613-622 | whether any layer is the sleep mode |
| LedProtocol.LedManager.NeedWait | DeviceIO/src/linux/led_pwm.cpp:564-579 | whether no layer has a period |
| LedProtocol.LedManager.Control | DeviceIO/src/linux/led_pwm.cpp:687-735 | which commands are refused, ignored while sleeping, written directly, or queued with the flag set and the condition signalled |
| LedProtocol.LedManager.BeginWait | DeviceIO/src/linux/led_pwm.cpp:586-602 | blocks exactly when the flag is clear, without a timeout exactly when no layer has a period |
| LedProtocol.LedManager.EndWait | DeviceIO/src/linux/led_pwm.cpp:604-610 | takes the flag and reports it |
| LedProtocol.LedManager.Perform | DeviceIO/src/linux/led_pwm.cpp:624-636 | the methods carry out the steps of the state machine that the safety proof is about, one for one |
| LedEffects.RunArranged | DeviceIO/src/linux/Rk_led.cpp:382-545 | over every run of set, off, all off and timeouts the stable list holds what a table by name would hold, by non-increasing priority, newest first among equals, each name once |
| LedEffects.SetStableFacts | DeviceIO/src/linux/Rk_led.cpp:402-439 | setting replaces the effect of the same name, keeps every other one, and keeps the order |
| LedEffects.OffFacts | DeviceIO/src/linux/Rk_led.cpp:471-490 | switching off removes the effect of that name only, and keeps the order |
| LedEffects.Ins.Advance | DeviceIO/src/linux/Rk_led.cpp:199-209 | what a display does to time, colour and count by the kind of the effect; time and colour are then those of the number of displays, and the count stays within one period |
| LedEffects.Manager.SetEffect | DeviceIO/src/linux/Rk_led.cpp:382-465 | the stable list becomes the replacement by name inserted by priority, or the override layer is replaced, by a cell that starts anew; the other layers and all other cells stay, with their times and colours |
| LedEffects.Manager.InsertStable | DeviceIO/src/linux/Rk_led.cpp:402-439 | the two walks of the list do that replacement and insertion on the cells |
| LedEffects.Manager.RemoveByName | DeviceIO/src/linux/Rk_led.cpp:402-420 | the cell of that name is unlinked and released |
| LedEffects.Manager.LinkAt | DeviceIO/src/linux/Rk_led.cpp:433-439 | linking in at the head or behind a cell keeps the chain |
| LedEffects.Manager.Unlink | DeviceIO/src/linux/Rk_led.cpp:408-414 | bypassing a cell keeps the chain of the others and releases it |
| LedEffects.Manager.SetEffectOff | DeviceIO/src/linux/Rk_led.cpp:467-513 | removes on the level asked for, and turns the light off when nothing is left |
| LedEffects.Manager.AllEffectsOff | DeviceIO/src/linux/Rk_led.cpp:515-545 | releases every effect of every level, and does not write the light |
| LedEffects.Manager.EffectTask | DeviceIO/src/linux/Rk_led.cpp:189-275 | drops timed-out effects from the top and displays the first that is left: temporary, real-time, stable; only the first stable effect is asked for its timeout; time and colour of the one displayed go on by its kind, those of every other effect stay |
| LedEffects.Manager.LowerTask | DeviceIO/src/linux/Rk_led.cpp:216-275 | the part under a temporary effect |
| LedEffects.Manager.StableTask | DeviceIO/src/linux/Rk_led.cpp:242-272 | the stable part: at most the first effect is dropped, the next one is displayed without being asked, and no other effect changes |
| LedEffects.Manager.AdvanceOverride | DeviceIO/src/linux/Rk_led.cpp:199-211 | displays an override layer by its kind, and changes no other effect |
| LedEffects.Manager.AdvanceFirst | DeviceIO/src/linux/Rk_led.cpp:256-268 | displays the first stable effect by its kind, and changes no other |
| LedEffects.Manager.Tick | DeviceIO/src/linux/Rk_led.cpp:189-275 | one turn loses the effect on top exactly when its displays have used up its timeout, and otherwise shows it with the time and colour of one more display |
| LedEffects.Manager.Turns | DeviceIO/src/linux/Rk_led.cpp:310-321 | over every number of turns between two commands: the effect on top is there, on top and displayed each time, until the first turn at which its displays so far times its step reach its timeout, which drops it |
| KeyTransaction.FiredIsEarned | DeviceIO/src/linux/Rk_key.cpp:371-441 | whenever a callback fires it is that of a registered transaction of at least two keys, the last presses are exactly its keys in order, and every gap before a key that is not the last was within its limit |
| KeyTransaction.RunsAgree | DeviceIO/src/linux/Rk_key.cpp:371-441 | over every run the matcher on delimited text does what a matcher on key codes does, and the remaining text is the text of the keys still expected |
| KeyTransaction.TextStepIsCodeStep | DeviceIO/src/linux/Rk_key.cpp:371-441 | so does every single press |
| KeyTransaction.PrefixDecides | DeviceIO/src/linux/Rk_key.cpp:380-404 | comparing the front of the text with the delimited code decides whether it is the first key, equal lengths say that it is the last, and cutting it off leaves the text of the others |
| KeyTransaction.DelimitedPrefix | DeviceIO/src/linux/Rk_key.cpp:380-380 | delimited words are decided by prefix comparison |
| KeyTransaction.RenderedInjective | DeviceIO/src/linux/Rk_key.cpp:377-377 | decimal text determines the code, with its sign |
| KeyTransaction.DecInjective | DeviceIO/src/linux/Rk_key.cpp:377-377 | decimal digits determine the number |
| KeyTransaction.KeyCodesAreShort | DeviceIO/src/linux/Rk_key.cpp:1259-1274 | every 16-bit key code fits the buffer with its delimiter |
| KeyTransaction.RunExplained | DeviceIO/src/linux/Rk_key.cpp:371-441 | in every run the transaction in progress is explained by the latest presses, and so is one that fires |
| KeyTransaction.StepExplained | DeviceIO/src/linux/Rk_key.cpp:379-416 | one press keeps that |
| KeyTransaction.TextNeverMissesExactly | DeviceIO/src/linux/Rk_key.cpp:371-441 | for all registrations: the matcher calls the callback of a transaction of two keys or more after all presses that earn it, if and only if it is the newest with its first key and no transaction that is the newest with its own first key has that key at a later place |
| KeyTransaction.NeverMissedExactly | DeviceIO/src/linux/Rk_key.cpp:371-441 | the same for the matcher on key codes |
| KeyTransaction.TextFiresAsCodes | DeviceIO/src/linux/Rk_key.cpp:371-441 | after the same registrations and presses the text matcher fires a transaction exactly when the matcher on key codes does |
| KeyTransaction.KeysInTimeFire | DeviceIO/src/linux/Rk_key.cpp:379-441 | conversely, from the idle state the keys of the transaction that its first key starts, pressed in time, fire it with the last one |
| KeyTransaction.OverlapIsMissed | DeviceIO/src/linux/Rk_key.cpp:407-441 | the last presses alone do not decide: keys 1 1 2 after presses 1 1 1 2 do not fire |
| KeyTransaction.OneKeyNeverFires | DeviceIO/src/linux/Rk_key.cpp:379-441 | a transaction of one key never fires |
| KeyTransaction.TooLateMeaning | DeviceIO/src/linux/Rk_key.cpp:390-390 | the unsigned comparison calls a gap too long when it exceeds the limit or the clock went back |
| KeyTransaction.StartingIsFirstWith | DeviceIO/src/linux/Rk_key.cpp:419-424 | the search finds the newest registered transaction that begins with the key |
| KeyTransaction.FirstWithIsNewest | DeviceIO/src/linux/Rk_key.cpp:419-424 | no newer transaction than the one found begins with the key |
| KeyTransaction.StartsExactly | DeviceIO/src/linux/Rk_key.cpp:390-441 | after every history a press starts a transaction if and only if that is the newest with its key and no transaction in progress takes the press, by waiting for that key as its last one or within the limit: a wrong key and one that comes too late start over |
| KeyTransaction.Matcher.Register | DeviceIO/src/linux/Rk_key.cpp:1255-1290 | the text of the keys, in front of the earlier registrations |
| KeyTransaction.Matcher.Recheck | DeviceIO/src/linux/Rk_key.cpp:418-441 | starts the first transaction that begins with the key, with the rest of its text and the time |
| KeyTransaction.Matcher.Check | DeviceIO/src/linux/Rk_key.cpp:371-441 | one press on the text, in all its branches |
| Playlists.LoopUndoes | librkmediaplayer/source/src/RK_mediaplayer.c:657-661 | in loop mode prev undoes next, and next prev, if and only if there is a current track or no track at all |
| Playlists.LoopTour | librkmediaplayer/source/src/RK_mediaplayer.c:657-661 | in loop mode as many nexts as there are tracks come back to the start and visit every track exactly once |
| Playlists.LoopPosition | librkmediaplayer/source/src/RK_mediaplayer.c:657-661 | where any number of nexts up to a full tour leads |
| Playlists.RandomMoves | librkmediaplayer/source/src/RK_mediaplayer.c:639-653 | a random step lands at position plus step modulo the count, forwards for prev too, and never on the track just played |
| Playlists.RandomReaches | librkmediaplayer/source/src/RK_mediaplayer.c:639-653 | every other track can be reached by one random step |
| Playlists.SequentialPosition | librkmediaplayer/source/src/RK_mediaplayer.c:636-638 | in sequential mode the nexts from the stopped player play every track in order and stop |
| Playlists.SequentialBack | librkmediaplayer/source/src/RK_mediaplayer.c:695-698 | in sequential mode the prevs go back track by track and stay at the first |
| Playlists.SequentialUndoes | librkmediaplayer/source/src/RK_mediaplayer.c:636-638 | in sequential mode prev undoes every next, also that behind the last track, and next every prev but on the first |
| Playlists.SingleStays | librkmediaplayer/source/src/RK_mediaplayer.c:654-656 | in single mode any number of nexts or prevs plays the same track, as in random mode when there is one |
| Playlists.StoppedStarts | librkmediaplayer/source/src/RK_mediaplayer.c:631-633 | in every mode a stopped player starts with the first track on next and the last on prev |
| Playlists.Player.AddMusic | librkmediaplayer/source/src/RK_mediaplayer.c:505-549 | appends a track at the end of the doubly linked list and leaves the cursor; an empty address is refused |
| Playlists.Player.LinkedAppend | librkmediaplayer/source/src/RK_mediaplayer.c:536-545 | `next` and `prev` stay inverse |
| Playlists.Player.Clear | librkmediaplayer/source/src/RK_mediaplayer.c:581-617 | releases every track once and leaves an empty list without a cursor |
| Playlists.Player.Walk | librkmediaplayer/source/src/RK_mediaplayer.c:647-652 | the stepping loop ends at position plus step modulo the count |
| Playlists.Player.Next | librkmediaplayer/source/src/RK_mediaplayer.c:619-678 | moves the cursor as its mode says and plays that track, or stops; the list is not changed |
| Playlists.Player.Prev | librkmediaplayer/source/src/RK_mediaplayer.c:680-733 | likewise; sequential prev stays on the first track |
| Playlists.Player.SetMode | librkmediaplayer/source/src/RK_mediaplayer.c:735-746 | sets the mode and nothing else |
| Playlists.Player.StartPlaylist | librkmediaplayer/source/src/RK_mediaplayer.c:757-781 | without a current track the last one is played, otherwise nothing |
| BleServer.ServerIsConsistent | DeviceIO/bluetooth/bluez/a2dp_source/a2dp_masterctrl.cpp:902-937 | in every run of calls and bus events: while the server is open it is connected exactly when it has a device, server and client are never both open, connections and disconnections alternate, and each disconnection names the device of the connection before it |
| BleServer.RunKeeps | DeviceIO/bluetooth/bluez/a2dp_source/a2dp_masterctrl.cpp:902-937 | the invariant behind it, over every run |
| BleServer.StepKeeps | DeviceIO/bluetooth/bluez/a2dp_source/a2dp_masterctrl.cpp:902-1406 | every event and every call keeps it |
| BleServer.CallbackSeesAlternation | DeviceIO/bluetooth/bluez/a2dp_source/a2dp_masterctrl.cpp:212-233 | over every run: a callback that stays registered receives every notification sent meanwhile, and what it receives alternates, each disconnection naming the device of the connection before it |
| BleServer.RunSends | DeviceIO/bluetooth/bluez/a2dp_source/a2dp_masterctrl.cpp:212-233 | while a callback is registered every notification is delivered, and while none is registered none is |
| BleServer.StepSends | DeviceIO/bluetooth/bluez/a2dp_source/a2dp_masterctrl.cpp:212-233 | every event and call sends one notification at most to the server, and one to the client, delivered exactly when the callback is registered |
| BleServer.ConnectKeeps | DeviceIO/bluetooth/bluez/a2dp_source/a2dp_masterctrl.cpp:902-917 | a connection is announced only after an idle or disconnect notification |
| BleServer.DisconnectKeeps | DeviceIO/bluetooth/bluez/a2dp_source/a2dp_masterctrl.cpp:919-937 | a disconnection names the device of the connection before it |
| BleServer.ClientConnectKeeps | DeviceIO/bluetooth/bluez/a2dp_source/a2dp_masterctrl.cpp:1331-1360 | the same for the client |
| BleServer.ServiceAddedKeeps | DeviceIO/bluetooth/bluez/a2dp_source/a2dp_masterctrl.cpp:1046-1071 | a service counts as a connection only when there is no device |
| BleServer.ServiceRemovedKeeps | DeviceIO/bluetooth/bluez/a2dp_source/a2dp_masterctrl.cpp:1198-1223 | the last service disconnects only once |
| BleServer.GapIsSafeExactly | DeviceIO/bluetooth/bluez/bt_hal.cpp:80-103 | `rk_ble_start` is not atomic: from every consistent state, one bus event between opening the server and announcing the idle state leaves it consistent if and only if the event connects no device |
| BleServer.GapRunIsSafeExactly | DeviceIO/bluetooth/bluez/bt_hal.cpp:80-103 | for every list of bus events in that gap: the server is left consistent if and only if they leave it no device and, if they connected one for a while, a connection could be announced before the start |
| BleServer.QuietGapIsSafe | DeviceIO/bluetooth/bluez/bt_hal.cpp:80-103 | any list of bus events in that gap is safe when none of them connects a device |
| BleServer.StartInOneStep | DeviceIO/bluetooth/bluez/bt_hal.cpp:80-103 | without an event in the gap it is the one step of the other proofs |
| BleServer.StartRaceBreaksConsistency | DeviceIO/bluetooth/bluez/bt_hal.cpp:80-103 | an instance: the device that connects while the server of a fresh program is opened leaves it idle with a device |
| BleServer.RemovalIsNoticed | DeviceIO/bluetooth/bluez/a2dp_source/a2dp_masterctrl.cpp:1167-1170 | the removal of the current device is noticed if and only if the server is open and the device is not the audio device as well; the client keeps a device that is gone |
| BleServer.DownDaemonMissesRemoval | DeviceIO/bluetooth/bluez/a2dp_source/a2dp_masterctrl.cpp:919-924 | a removal while bluetoothd is down is missed |
| BleServer.ServicesComeAndGo | DeviceIO/bluetooth/bluez/a2dp_source/a2dp_masterctrl.cpp:1046-1071 | at any time in any run: a service that connects its device to the open server is announced, and the removal with which as many services have gone as have come since announces the disconnection and leaves no device and no service |
| BleServer.LastServiceDisconnects | DeviceIO/bluetooth/bluez/a2dp_source/a2dp_masterctrl.cpp:1198-1223 | for every list of bus events around a connected device: when a removal makes the number of its services zero, the server forgets the device, is disconnected, and has sent exactly that notification |
| BleServer.ServesOn | DeviceIO/bluetooth/bluez/a2dp_source/a2dp_masterctrl.cpp:1046-1223 | and before that nothing but the number of services changes, by the additions less the removals under the device |
| BleServer.NoStrayServices | DeviceIO/bluetooth/bluez/a2dp_source/a2dp_masterctrl.cpp:902-1223 | over every run an open server without a device counts no services |
| BleServer.ConnectionIsAnnounced | DeviceIO/bluetooth/bluez/a2dp_source/a2dp_masterctrl.cpp:902-1071 | what the events that report a device, or a service of one, make of an open server without a device |
| BleServer.NoConnection | DeviceIO/bluetooth/bluez/a2dp_source/a2dp_masterctrl.cpp:902-1406 | what is no connection, nor the end of one: devices that are not connected, other classes, and all of it while the server is closed or has no device |
| BleServer.OneDeviceAtATime | DeviceIO/bluetooth/bluez/a2dp_source/a2dp_masterctrl.cpp:902-1071 | an open server that has a device takes no other |
| BleServer.DisconnectionIsAnnounced | DeviceIO/bluetooth/bluez/a2dp_source/a2dp_masterctrl.cpp:1141-1223 | the last service to go, or the device itself, clears device and services, sets the state and sends exactly one notification; a service that is not the last is only counted |
| BleServer.ClientConnection | DeviceIO/bluetooth/bluez/a2dp_source/a2dp_masterctrl.cpp:1331-1360 | what connecting and disconnecting makes of an open client, and the notification |
| BleServer.ClosedIgnoresBus | DeviceIO/bluetooth/bluez/a2dp_source/a2dp_masterctrl.cpp:902-1406 | with neither side up, bus events change the audio device at most |
| BleServer.AudioDevice | DeviceIO/bluetooth/bluez/a2dp_source/a2dp_masterctrl.cpp:939-1406 | the audio device is the first to be connected, until it is disconnected or removed |
| BleServer.ServerOpens | DeviceIO/bluetooth/bluez/bt_hal.cpp:80-103 | the whole state after opening the server, with and without success |
| BleServer.ClientOpens | DeviceIO/bluetooth/bluez/bt_hal.cpp:220-241 | the whole state after opening the client |
| BleServer.ClosesQuietly | DeviceIO/bluetooth/bluez/bt_hal.cpp:243-257 | closing either side announces nothing, and what is refused changes nothing |
| BleServer.OneThingEach | DeviceIO/bluetooth/bluez/a2dp_source/a2dp_masterctrl.cpp:243-251 | the registrations, the daemon and the initialization change one thing each |
| BleServer.BleControl.BleStateSend | DeviceIO/bluetooth/bluez/a2dp_source/a2dp_masterctrl.cpp:212-233 | the state is set in any case; the callback gets device and state exactly when it is registered and the server is open |
| BleServer.BleControl.GattClientStateSend | DeviceIO/bluetooth/bluez/gatt_client.c:37-53 | the client state is set and sent with the device |
| BleServer.BleControl.BleClean | DeviceIO/bluetooth/bluez/a2dp_source/a2dp_masterctrl.cpp:3651-3655 | forgets device and services |
| BleServer.BleControl.BleConnectedHandler | DeviceIO/bluetooth/bluez/a2dp_source/a2dp_masterctrl.cpp:902-917 | takes the first device only, and announces it |
| BleServer.BleControl.BleDisconnectHandler | DeviceIO/bluetooth/bluez/a2dp_source/a2dp_masterctrl.cpp:919-937 | announces the disconnection before forgetting the device |
| BleServer.BleControl.BleClientConnectedHandler | DeviceIO/bluetooth/bluez/a2dp_source/a2dp_masterctrl.cpp:1331-1360 | the client side of both |
| BleServer.BleControl.AddDevice | DeviceIO/bluetooth/bluez/a2dp_source/a2dp_masterctrl.cpp:939-982 | a connected device becomes the audio or the server device by its class |
| BleServer.BleControl.RemoveDevice | DeviceIO/bluetooth/bluez/a2dp_source/a2dp_masterctrl.cpp:1141-1171 | the audio device is asked first |
| BleServer.BleControl.DeviceConnectedHandler | DeviceIO/bluetooth/bluez/a2dp_source/a2dp_masterctrl.cpp:1362-1406 | by class, and by which side is open |
| BleServer.BleControl.LeProxyAdded | DeviceIO/bluetooth/bluez/a2dp_source/a2dp_masterctrl.cpp:1046-1071 | counts services, and the first one may connect |
| BleServer.BleControl.LeProxyRemoved | DeviceIO/bluetooth/bluez/a2dp_source/a2dp_masterctrl.cpp:1198-1223 | counts down only under the current device, and disconnects at zero, as `DisconnectionIsAnnounced` spells out |
| BleServer.BleControl.BtHalBleStop | DeviceIO/bluetooth/bluez/bluez_ctrl.cpp:448-466 | closes the server and drops its callback, if it is open |
| BleServer.BleControl.BtHalBleClientClose | DeviceIO/bluetooth/bluez/bt_hal.cpp:243-257 | closes the client and drops its callback, if it is open |
| BleServer.BleControl.RkBleStart | DeviceIO/bluetooth/bluez/bt_hal.cpp:80-103 | refused without Bluetooth or when open; closes the client first; announces the idle state only after success |
| BleServer.BleControl.RkBleClientOpen | DeviceIO/bluetooth/bluez/bt_hal.cpp:220-241 | refused without Bluetooth or when open; closes the server first |
| BleServer.BleControl.RkBtDeinit | DeviceIO/bluetooth/bluez/bt_hal.cpp:1195-1235 | closes both |
| LogRotation.RunKeepsSuffix | DeviceIO/src/linux/RK_log.cpp:134-186 | over every run with fixed parameters the files, from the highest number down to 1, hold a suffix of everything ever saved, and their number stays within the limit |
| LogRotation.SavedStream | DeviceIO/src/linux/RK_log.cpp:134-186 | a save appends to that stream and loses exactly the oldest file, and only when the files are at their limit |
| LogRotation.LoggedFilesAreFull | DeviceIO/src/linux/RK_log.cpp:134-186 | over every run from no files: a file that is no longer the first has reached its size, and where the limit allows any file none had reached it before its last text came |
| LogRotation.SavedFiles | DeviceIO/src/linux/RK_log.cpp:134-172 | what a save does to each file by its number: without files a first one; a first file that is not full, or a limit of no files, grows by the text; a full one becomes a new file with the text, and every file goes up by one number, but for the one beyond the limit |
| LogRotation.AsInt | DeviceIO/src/linux/RK_log.cpp:97-103 | the size in an `int`: the number in its range that differs by a multiple of 2^32 |
| LogRotation.SaveKeepsSuffix | DeviceIO/src/linux/RK_log.cpp:134-186 | so one save keeps the suffix |
| LogRotation.StreamDropsOldest | DeviceIO/src/linux/RK_log.cpp:149-158 | the oldest file is the front of the stream |
| LogRotation.NamesInOrder | DeviceIO/src/linux/RK_log.cpp:120-122 | four-digit names are in the order of their numbers |
| LogRotation.RankIsOrder | DeviceIO/src/linux/RK_log.cpp:120-122 | the order of all names up to 10000: the five-digit one stands between 1000 and 1001 |
| LogRotation.AtoiReadsNumber | DeviceIO/src/linux/RK_log.cpp:131-131 | the number is read back from the name |
| LogRotation.LogStore.Move | DeviceIO/src/linux/RK_log.cpp:166-169 | moving a file; an open file keeps its contents under the new name |
| LogRotation.LogStore.GetLogFileNum | DeviceIO/src/linux/RK_log.cpp:105-132 | in any order of the listing the greatest name is found, which is that of the greatest number up to 9999 files |
| LogRotation.LogStore.Shift | DeviceIO/src/linux/RK_log.cpp:160-171 | the descending loop moves every file up by one and overwrites none, unless there is one file more than the number found |
| LogRotation.LogStore.Rotate | DeviceIO/src/linux/RK_log.cpp:147-172 | drops the last file at the limit, moves the others up, and overwrites a file if and only if there are 10000 |
| LogRotation.LogStore.LogSave | DeviceIO/src/linux/RK_log.cpp:134-186 | the file to write to is closed before it is moved and open afterwards; each file is as `SavedFiles` says, read off the directory; one is overwritten if and only if the first is full and there are 10000 |
| Advertising.ParseUndoesPrint | DeviceIO/bluetooth/bluez/gatt_config.c:1029-1069 | parsing undoes printing, for every UUID |
| Advertising.PrintUndoesParseOfText | DeviceIO/bluetooth/bluez/gatt_config.c:1029-1069 | printing undoes parsing for every canonical text, up to the case of its letters |
| Advertising.ParseHyphenated | DeviceIO/bluetooth/bluez/gatt_config.c:1037-1054 | every canonical text, in either case, is read as its bytes in order |
| Advertising.ParseNumbers | DeviceIO/bluetooth/bluez/gatt_config.c:1037-1040 | six groups of digits are read as six numbers, whatever follows them, though the last group is read by two conversions |
| Advertising.ParseNeedsHyphen | DeviceIO/bluetooth/bluez/gatt_config.c:1037-1040 | without a hyphen behind the first group the text is refused |
| Advertising.ParseNeedsLast | DeviceIO/bluetooth/bluez/gatt_config.c:1037-1040 | and so is one whose digits end with the fifth conversion |
| Advertising.ParseGroups | DeviceIO/bluetooth/bluez/gatt_config.c:1037-1054 | and become the bytes that they write |
| Advertising.BigEndianOfHex | DeviceIO/bluetooth/bluez/gatt_config.c:1042-1054 | the number read from a group, in network byte order, is the bytes its digits write |
| Advertising.ScanGroup | DeviceIO/bluetooth/bluez/gatt_config.c:1037-1040 | a conversion takes exactly its group |
| Advertising.ScanTakes | DeviceIO/bluetooth/bluez/gatt_config.c:1037-1040 | a conversion takes the digits up to its width or the first other character, and a sign as one of its width |
| Advertising.ScanTakesPrefixed | DeviceIO/bluetooth/bluez/gatt_config.c:1037-1040 | a prefix `0x` is taken and counts against the width |
| Advertising.ScanSkipsSpace | DeviceIO/bluetooth/bluez/gatt_config.c:1037-1040 | any white space in front does not matter |
| Advertising.ScanFails | DeviceIO/bluetooth/bluez/gatt_config.c:1037-1040 | no digit, behind a sign or not, is a failed conversion |
| Advertising.HexValueIsPlace | DeviceIO/bluetooth/bluez/gatt_config.c:1037-1040 | each digit is worth its place in the alphabet, in either case |
| Advertising.Negated | DeviceIO/bluetooth/bluez/gatt_config.c:1037-1040 | a minus sign gives the negative in the unsigned integer that is scanned into |
| Advertising.PayloadsTellUuidAndName | DeviceIO/bluetooth/bluez/gatt_config.c:1092-1128 | from the UUID and the name to what a scanner parses: the flags, the reversed UUID, and the name cut to 29 bytes |
| Advertising.AdvParses | DeviceIO/bluetooth/bluez/gatt_config.c:1093-1106 | the advertising payload parses back to the flags and the UUID, and its length byte is right |
| Advertising.RespParses | DeviceIO/bluetooth/bluez/gatt_config.c:1109-1127 | the scan response parses back to the name cut to 29 bytes, its length byte is right, and it has at most 32 bytes |
| Advertising.ParseOne | DeviceIO/bluetooth/bluez/gatt_config.c:1092-1128 | a structure is read back whatever follows it |
| Advertising.ReverseInPlace | DeviceIO/bluetooth/bluez/gatt_config.c:1056-1064 | the reversing loop |
| Advertising.StringToUuid128 | DeviceIO/bluetooth/bluez/gatt_config.c:1029-1069 | the bytes of any text that `sscanf` accepts, white space, signs and `0x` included, reversed if asked for; otherwise EINVAL and an untouched target |
| Advertising.Copy | DeviceIO/bluetooth/bluez/gatt_config.c:1066-1067 | copies to the front and leaves the rest of the buffer |
| Advertising.BleContent.FillAdvertising | DeviceIO/bluetooth/bluez/gatt_config.c:1093-1106 | fills 22 bytes of the buffer with that payload and sets the length |
| Advertising.BleContent.FillResponse | DeviceIO/bluetooth/bluez/gatt_config.c:1109-1127 | fills the buffer with the scan response for the name and sets the length |
| Advertising.BleContent.AdvSet | DeviceIO/bluetooth/bluez/gatt_config.c:1071-1128 | the caller's payloads unchanged, or the system's for the UUID and the name, or the host name without one; the rest of both buffers stays; failure changes nothing |

## Left out

- Queues.Queue.PushTail: `entries` is not wrapped at 2^32, since a queue of that many cells does not fit the address space of the boards; NULL queues, whose operations do nothing, are left out everywhere.
- Queues.Queue.Find: matchers and destroy callbacks do not touch the queue; a NULL matcher is `Is` of the pointer.
- Queues.Queue.Foreach: requires that every call is safe, `Walks`, as the source reads a released entry after any other (`Queues.Queue.VisitCell`). A call destroys the queue last, if at all; nested iteration and taking references inside a callback are not modelled. Callbacks past a finite list do nothing, because a callback that pushes for ever never ends.
- Timers.SplitSecondsNormal: a duration is a real number; rounding of `double` and overflow of `time_t` are not modelled.
- Timers.ForwardRunsScanExactly: the readings within one scan do not go back; without that a timer can be due at an early reading and not at the last. The release of a deleted timer is not modelled, as no operation reads a timer that it does not find.
- Timers.RoundResult: callbacks operate on their own timer only, and other threads do not run between scan and firing; names, ids and the counter of timers are left out.
- LedProtocol.LedManager.EffectTask: demands a stack that is not empty, because the source takes the back element unchecked; `LedProtocol.ReachableKeeps` shows when this holds.
- LedProtocol.LedManager.Control: the value written directly to a brightness file and NULL data are left out.
- LedProtocol.ReachableKeeps: sections under the mutex and the tick outside it are atomic; the data race of the tick with the sleep-mode test of a caller is not modelled. Deadlines of timed waits are not computed.
- LedLayers.RunMatches: `time` and `count` of a layer grow without bound, as no 32-bit wrap-around is modelled; this driver never reduces them.
- LedEffects.Manager.EffectTask: demands that a breathing effect has two ticks or more in its period, of either sign, as the source divides by zero on others; the cache of the last colour in front of the hardware, the waits between ticks and the wrap-around of `time` are left out.
- LedEffects.Manager.SetEffect: names are strings of any length, where the source has 64 bytes; the mutex and the opening of the device files are left out.
- KeyTransaction.FiredIsEarned: for keys whose text has at most six characters, which all 16-bit codes have; longer ones are cut by the buffers, as `StrCode` and `Token` model, and can then be confused.
- KeyTransaction.Matcher.Register: requires that the text fits the buffer of 64, beyond which the source writes past it; a NULL callback is called in the model.
- Playlists.Player.Next: the GStreamer calls and the stop event are reduced to the address to play; a NULL handle and allocation failure are left out.
- BleServer.ServerIsConsistent: each handler and each call is atomic; callbacks do not call back into the interface.
- BleServer.BleControl.BtHalBleStop: the request to disconnect and the sleep behind it are left out, their effect being a later removal event; the same for `remove_device` in `device_connected_handler`.
- BleServer.BleControl.RkBleStart: the success of the advertising is a parameter; starting through `rk_bt_control` directly is left out.
- LogRotation.LogStore.LogSave: the directory is set, `fopen` and `system` do not fail, the directory holds no other file named `logcat.` something, and the parameters do not change during a run.
- LogRotation.LogStore.constructor: starts from a contiguous set of files within the limit, as the property is stated for.
- Advertising.StringToUuid128: `0x` without a digit behind it is a failed conversion, as the C standard says; some C libraries take it as zero.
- Advertising.BleContent.AdvSet: the copies of the service and characteristic UUIDs behind the payloads, and `gethostname`, whose result is a parameter, are left out.
- Compose keys, long presses, multiple clicks, the other timer library, audio, Wi-Fi, power and the remaining Bluetooth profiles are left out: plumbing over foreign libraries, or without a clean property.
