# ArduinoFermenter schedule engine and menu renderer, in Dafny

This project models two pieces of a fermentation temperature controller
written for Arduino.

**The temperature-schedule engine** (`TempSchedule.cpp`, `TempSchedule.h`).
A `TempSchedule` entry holds three things: a byte set-point, a duration of
`days * 86400000` milliseconds in 32-bit `unsigned long` arithmetic, and a
start time read from the millisecond clock. An entry is done once
`now - start >= duration` holds in unsigned (wrapping) subtraction.
`Schedules` keeps these entries in a fixed ring of three slots, with a
current index and a count:

- `addTempSchedule` writes a new entry into slot `(current + count) % 3`, or
  refuses when the count is 3.
- `next()` polls the clock. When the current entry is done, it moves
  `current` one slot on and restarts the entry found there.

**The menu renderer** (`MenuRenderer.cpp`). It clears the display and then
visits each menu component in order, on display row `2 * i`. It shows the
current component in inverse font. On a numeric item being edited, it shows
the name plain and the value inverted. After each component it turns
inverse font off again.

## Files

- `unsigned.dfy`, module `Unsigned`: the `byte` and `unsigned long` widths,
  with wrap-around written out (`Wrap8`, `Wrap32`, `Sub32`).
- `temp_schedule.dfy`, module `TempSchedules`: the entry as a value
  (`TempSchedule`), its constructor `NewTempSchedule`, `IsDone`,
  `GetStart`, `SetStartTime`, and the expiry-window lemma.
- `schedules.dfy`, module `ScheduleRing`: the `Schedules` class, which
  works in place on a three-element array. Its value view is `Ring`. The
  pure functions `Initial`, `AfterAdd` and `AfterNext` state what the
  constructor, `AddTempSchedule` and `Next` do, and the ring's properties
  are lemmas about those functions.
- `menu_renderer.dfy`, module `MenuRendering`: a `Display` stands for the
  display driver. It keeps a log of the operations issued to it (`Clear`,
  `Draw(col, row, text)`, `SetInverse(on)`) and the inverse-font flag.
  `MenuRenderer` holds the row cursor, the `render_*` methods and `Render`.
  `RenderOps` is the log one `render` call appends. `Screen` describes
  independently what the user sees: each string's position and text, and
  whether it is inverted. The lemmas connect the two.

The clock `millis()` is a parameter `now: u32` of every operation that
reads it. The constructor of an entry added by `addTempSchedule` reads the
clock too, so `AddTempSchedule` takes `now` as well. `next()` reads the
clock twice: once inside `isDone` (`TempSchedule.cpp:28`, via line 14) and
again for `setStartTime` (line 30). `Next` and `AfterNext` therefore take
two readings, `now` for the expiry test and `restamp` for the restart; no
relation between them is assumed.

## Model

| member | source | states |
|---|---|---|
| `Unsigned.Wrap32` | TempSchedule.h:16-17 | conversion to `unsigned long`: identity on 0..2^32-1, and otherwise congruent to the input mod 2^32 |
| `Unsigned.Wrap8` | MenuRenderer.cpp:17-22 | conversion of the `int` passed to `setRow` into the byte `_currentRow`: identity on 0..255, and otherwise congruent mod 256 |
| `Unsigned.Sub32` | TempSchedule.cpp:14 | unsigned `now - start`: adding it back to `start` mod 2^32 gives `now`; it is the plain difference when `start <= now` and the difference plus 2^32 after a clock wrap |
| `TempSchedules.NewTempSchedule` | TempSchedule.cpp:3-7 | the constructor keeps the temperature and starts the timer at `now`. The duration is congruent to `days * 86400000` mod 2^32, and equals it exactly for `days <= 49` |
| `TempSchedules.TempSchedule.GetStart` | TempSchedule.cpp:9-11 | returns the start reading: restamping an entry with it changes nothing. `NewTempSchedule` and `SetStartTime` fix its value |
| `TempSchedules.TempSchedule.IsDone` | TempSchedule.cpp:13-15 | unsigned `now - start` compared with the duration: the plain difference when `start <= now`, the difference plus 2^32 after a clock wrap. `IsDoneAfter` characterises it for every elapsed time |
| `TempSchedules.TempSchedule.SetStartTime` | TempSchedule.cpp:17-19 | after `setStartTime(t)`, `getStart()` (lines 9-11) returns `t`; temperature and duration are unchanged |
| `TempSchedules.FiftyDaysWrap` | TempSchedule.cpp:5 | 50 days overflow the 32-bit product: the stored duration is `50 * 86400000 - 2^32`, which is less than one day |
| `TempSchedules.ZeroDurationDays` | TempSchedule.cpp:5 | the wrapped product is 0 for `days == 2^22`, and one day for `2^22 + 1` days: a zero duration does not need `days == 0` |
| `TempSchedules.IsDoneAfter` | TempSchedule.cpp:13-15 | `elapsed` ms after the start (reduced mod 2^32, so also across a clock wrap), the entry is done iff `elapsed >= duration`. It is not done anywhere in `[start, start + duration)` and is done from `start + duration` until the clock comes round again |
| `TempSchedules.FreshEntryDone` | TempSchedule.cpp:3-15 | a new entry is done at its own construction time iff its duration is 0 |
| `ScheduleRing.Initial` | TempSchedule.cpp:21-24 | the constructed state has `current == 0`, `count == 0` and no slot written, and satisfies the ring invariant |
| `ScheduleRing.AfterAdd` | TempSchedule.cpp:37-47 | keeps the ring invariant (so `count <= 3` always holds). Returns true iff `count < 3`, and then the count goes up by one. `current` is unchanged. A ring with every slot filled stays filled |
| `ScheduleRing.AfterNext` | TempSchedule.cpp:26-35 | keeps the ring invariant (so `current < 3` always holds). Returns true iff the current entry exists and is done at the first clock reading. Never changes the count. A ring with every slot filled stays filled |
| `ScheduleRing.AddWithRoom` | TempSchedule.cpp:38-44 | with `count < 3`: returns true and increments the count. The new entry, timed from `now`, lands in slot `(current + oldCount) % 3`. `current` and every other slot are unchanged |
| `ScheduleRing.AddWhenFull` | TempSchedule.cpp:38-46 | with `count == 3`: returns false, and the count, `current` and every slot are unchanged |
| `ScheduleRing.NextIdle` | TempSchedule.cpp:26-35 | with nothing added, or a current entry that is not done: cannot fault, returns false and changes nothing, whatever the second clock reading. A second call at the same clock reading gives the same result (idempotence) |
| `ScheduleRing.NextWhenDone` | TempSchedule.cpp:28-31 | when the current entry is done: `current` becomes `(current + 1) % 3`, and that slot's entry restarts at the second clock reading `restamp` with its set-point and duration kept. The count, the expired entry and the other slots are unchanged, and the result is true |
| `ScheduleRing.RestartedDoneOnlyIfZero` | TempSchedule.cpp:28-30 | after an advance, the newly current entry is already done at the reading it was restarted at iff its duration is 0 (`days == 0`, or any multiple of 2^22 = 4194304, because `days * 86400000` wraps mod 2^32) |
| `ScheduleRing.AllFilledStaysFilled` | TempSchedule.cpp:28-30 | once all three slots hold entries, `next()` can never dereference an unwritten slot, and adds and advances keep all slots filled |
| `ScheduleRing.ThreeAddsFillInOrder` | TempSchedule.cpp:37-44 | three adds to a new ring put the entries into slots 0, 1 and 2 in the order added, with `current == 0` and `count == 3`. A fourth add is refused and changes nothing |
| `ScheduleRing.LapOrder` | TempSchedule.cpp:26-35 | on a filled ring, successive expiries make slots `current+1`, `current+2` and then `current` current again, each restarted at the second clock reading of the call that reached it. Entries are never retired: after a full lap the first entry runs again, and the count is unchanged |
| `ScheduleRing.SingleEntryFaults` | TempSchedule.cpp:29-30 | with one entry added, `next()` faults exactly when that entry's own (wrapped) duration has elapsed, for every elapsed time below 2^32: it moves onto slot 1, which was never written, and dereferences it |
| `ScheduleRing.AddAfterNextOverwrites` | TempSchedule.cpp:41 | add two entries, let the first expire, advance, then add a third. The third overwrites the slot of the entry that already ran. The ring then reports a count of 3 while it holds 2 entries, and one slot was never written |
| `ScheduleRing.Schedules.constructor` | TempSchedule.h:21-33 | a `Schedules` object has an array of exactly `SCHEDULES_MAX_COUNT` (3) slots, and its state is `Initial()` |
| `ScheduleRing.Schedules.Next` | TempSchedule.cpp:26-35 | updates the object in place to `AfterNext(old state, now, restamp)` and returns its flag: `now` is the reading `isDone` takes and `restamp` the one `setStartTime` gets. The precondition excludes the fault of an unwritten slot (undefined behaviour in the source) |
| `ScheduleRing.Schedules.AddTempSchedule` | TempSchedule.cpp:37-47 | updates the object in place to `AfterAdd(old state, ...)`, writing the computed slot of the same array, and returns its flag |
| `MenuRendering.ComponentInverse` | MenuRenderer.cpp:46-76 | a numeric item always leaves inverse font off (line 69); the label items leave the flag as they found it |
| `MenuRendering.FocusedNumericStrokes` | MenuRenderer.cpp:63-68 | a numeric item with focus draws its name at column 0 with inverse off and its value at column 13 with inverse on, whatever flag it was entered with |
| `MenuRendering.UnfocusedNumericStrokes` | MenuRenderer.cpp:63-68 | a numeric item without focus draws its name at column 0 and its value at column 13, both with the flag it was entered with |
| `MenuRendering.ComponentStrokes` | MenuRenderer.cpp:46-76 | each kind puts on screen what `ComponentScreen` describes. Plain items, back items and submenus draw one string, their name, at column 0 |
| `MenuRendering.SegmentShape` | MenuRenderer.cpp:35-42 | a component's segment starts with `SetInverse(true)` iff the component is current, ends with `SetInverse(false)`, and leaves inverse font off |
| `MenuRendering.SegmentNoClear` | MenuRenderer.cpp:33-42 | a component's segment never clears the display |
| `MenuRendering.RowOf` | MenuRenderer.cpp:49 | the row a component is drawn on is `_currentRow*2` with the byte cursor, so it is even and below 512 |
| `MenuRendering.RowOfSmall` | MenuRenderer.cpp:49 | component `i` is drawn on row `2 * i` for every index the byte cursor can hold (`i < 256`) |
| `MenuRendering.SegmentStrokes` | MenuRenderer.cpp:33-42 | one loop iteration shows its component on row `RowOf(i)`, entered inverted when the component is current and otherwise with the flag left over |
| `MenuRendering.SegmentsShape` | MenuRenderer.cpp:32-43 | the first `n` iterations never clear the display. Once at least one has run, inverse font is off |
| `MenuRendering.SegmentsScreen` | MenuRenderer.cpp:32-43 | what the first `n` iterations show is `Screen(menu, n)`: component by component in index order, component `i` on row `RowOf(i)` (`2 * i` for `i < 256`, `RowOfSmall`). A current component is entered inverted. Any other component is entered with the display's prior flag if it is the first, and plain otherwise. A focused numeric item still shows its name plain and its value inverted |
| `MenuRendering.RenderShape` | MenuRenderer.cpp:29-44 | `render` issues `clear()` first and never again. With no components, `clear()` is all it issues. Afterwards inverse font is off if any component was drawn, and otherwise as before |
| `MenuRendering.RenderScreen` | MenuRenderer.cpp:29-44 | what `render` shows is the reference description `Screen` of the whole menu |
| `MenuRendering.MenuRenderer.constructor` | MenuRenderer.cpp:25-27 | the renderer keeps the display it is given |
| `MenuRendering.MenuRenderer.SetRow` | MenuRenderer.cpp:20-22 | stores the `int` argument into the byte cursor, reduced mod 256 |
| `MenuRendering.MenuRenderer.RenderMenuItem` | MenuRenderer.cpp:46-50 | appends one draw of the name at column 0, row `2 * _currentRow`, and leaves the inverse flag alone |
| `MenuRendering.MenuRenderer.RenderBackMenuItem` | MenuRenderer.cpp:52-56 | as `RenderMenuItem`, for a back item |
| `MenuRendering.MenuRenderer.RenderNumericMenuItem` | MenuRenderer.cpp:58-70 | appends `NumericOps` (the inverse toggles around name and value when focused) and leaves inverse font off |
| `MenuRendering.MenuRenderer.RenderMenu` | MenuRenderer.cpp:72-76 | as `RenderMenuItem`, for a submenu label |
| `MenuRendering.MenuRenderer.RenderDispatch` | MenuRenderer.cpp:37 | the component's `render(*this)` call reaches the render method for its kind. Inverse font is off afterwards for a numeric item and unchanged otherwise |
| `MenuRendering.MenuRenderer.RenderComponent` | MenuRenderer.cpp:33-42 | one iteration appends exactly `SegmentOps(c, i)`, leaves inverse font off and the cursor at `i mod 256` |
| `MenuRendering.MenuRenderer.Render` | MenuRenderer.cpp:29-44 | the display's log grows by exactly `RenderOps(menu)`. Inverse font ends off unless the menu is empty. The row cursor is left on the last component |

## Behaviour of the code as written

A schedule queue could be expected to behave as a linear queue: shift
entries forward, decrement the count, reject an add when full, skip
several expired entries in one call, and select the first entry on the
first call. Of these the code does only one, rejecting an add when the
count is 3 (`AddWhenFull`). Otherwise it is the three-slot ring described
above, and the model follows the code:

- `next()` never decrements `_schedulesCount`, so expired entries are
  never retired. After a full lap the ring restarts old entries
  (`LapOrder`), and the count can overstate how many entries are held
  (`AddAfterNextOverwrites`).
- `next()` advances at most one slot per call (`NextWhenDone`), even when
  the newly current entry has duration 0 (`days == 0`, or any multiple of
  2^22 = 4194304, because `days * 86400000` wraps mod 2^32;
  `ZeroDurationDays`) and is therefore already done at its restart
  (`RestartedDoneOnlyIfZero`).
- An entry's timer starts when the entry is constructed, inside
  `addTempSchedule`. It restarts only when `next()` moves onto its slot. The
  first entry is therefore timed from the moment it was added.
- With fewer than three entries, `next()` can move onto a slot that was
  never written and dereference it (`SingleEntryFaults`). Slots are
  `Option` values, and `Schedules.Next` requires that this does not happen.

The header and the definitions disagree in three places. The model follows
the definitions:

- `TempSchedule.h:26` declares `addTempSchedule` as `void`, but
  `TempSchedule.cpp:37` defines it as returning `bool`.
- The header declares no `_currentSchedule` field, yet the constructor
  initialises one (`TempSchedule.cpp:22`). The model gives it type `nat`,
  kept below 3.
- The header declares no `getStart`, yet `TempSchedule.cpp:9` defines it.

In `MenuRenderer.cpp`, the `const` method `render` calls the non-`const`
`setRow` (lines 20 and 33). The model treats the row cursor as ordinary
state that `Render` modifies.

## Left out

- Debug output: the `D`/`D2` macros and every `Serial.print`/`println`.
  They produce serial output only.
- The display driver (U8x8 for an SSD1306 over I2C). It is replaced by the
  `Display` log. The driver's own conversion of the coordinates to
  `uint8_t` is not modelled, so the row is the `int` value
  `2 * _currentRow`. `clear()` is modelled as leaving the inverse-font flag
  alone.
- The MenuSystem library: menus, navigation, and how `is_current` and
  `has_focus` are decided. A menu is a sequence of `Component` values that
  already carry those flags, and the double dispatch is a `match` on the
  component's kind (`RenderDispatch`).
- The hardware clock `millis()`. Each reading is a parameter (`now`, and
  `restamp` for the second reading in `next()`).
- Heap allocation and pointer identity of the entries that
  `addTempSchedule` creates with `new`, which are never freed. Entries are
  values stored in the slots, and `setStartTime` yields the restarted
  value, which `Next` writes back into its slot. Aliasing through pointers
  handed out by `getTempSchedule` is therefore not captured.
- The uninitialised contents of `_schedules` before a slot is first
  written. They are modelled as `None`, and the model never reads them.
- The uninitialised `_currentRow` of a new renderer. The model starts it at
  0, and `render` overwrites it before any use.
- `getTemp`, `setTemp`, `getDuration`, `setDuration`, `getSchedulesCount`
  and `getTempSchedule` are declared in `TempSchedule.h` without bodies in
  these files. They are not part of this model.
- Backup of elapsed time across power loss. It exists in the source only
  as a TODO comment.
