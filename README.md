# Presentation-slot signup bot — verified model of its workflow

This project models the core of a Telegram bot (`main.py`). Employees use it to reserve
10-minute presentation slots at a weekly company event. Each signup is written to a
Google Sheet. On Tuesday evenings a digest of the next day's signups goes to a channel.

What is modelled:

- **Catalogue** (`catalog.dfy`): the six fixed slot labels, `SLOTS`.
- **Selection store** (`selections.dfy`): the process-wide table `user_selections`, from
  user id to the set of slot labels toggled on. It is a class with a
  `map<int, set<string>>` field. `Toggle` flips one label and creates a missing entry.
  `Delete` removes an entry after a successful confirm. `ListOf` is Python's `list(set)`:
  it lists every label once, in an unspecified order.
- **Keyboard** (`keyboard.dfy`): the inline keyboard is a value made of rows of
  `Button(text, data)`. The slot buttons come in catalogue order, two per row, marked ✅
  or ⏰, followed by one confirm row. The two loops in the source (`/start` and the
  rebuild after a toggle) are methods proved equal to one layout function. `Route` is the
  dispatcher's filter: data starting with `slot_` goes to the toggle handler, and
  exactly `confirm_slots` goes to confirm.
- **Occurrence offset** (`occurrence.dfy`): `days_ahead = 3 - weekday`, plus 7 when it is
  not positive. Weekdays are Python's indices, 0 = Monday.
- **Sheet rows** (`sheets.dfy`): the six-cell row that `add_signup` writes, and the
  header-skipping, order-preserving filter and parse in `get_upcoming_signups`. A class
  whose `rows` field stands for the remote sheet holds both. `str.join` and `str.split`
  are modelled with Python's semantics in `text.dfy`.
- **Digest** (`digest.dfy`): the channel message. A header comes first, then one entry
  per signup, with its slots joined by `" | "`.
- **Handlers** (`handlers.dfy`): `select_slot`, `confirm_slots` and `send_daily_reminders`
  over the shared store and sheet. The clock, the user identity and the outcome of each
  remote call are parameters.

Points where the code's behaviour is easy to misread, and which the model states as
the code has them:

- **Event weekday.** main.py:213 computes `3 - weekday`, so every signup is dated to
  the next **Thursday** (index 3). The comments at main.py:37 and main.py:213 and the
  `/start` text at main.py:153 say Wednesday (index 2). The reminder runs on Tuesdays
  (main.py:273) and asks for "tomorrow" (main.py:249), a Wednesday.
  `Occurrence.ReminderDayMissesBookedDay` shows that the weekday it asks for is never the
  weekday of a booked date. The scenario `Handlers.TuesdaySignup` shows the Tuesday run
  sending nothing after a booking. The model keeps the Thursday offset.
- **Slot order.** The row receives `list(slots)` (main.py:224) in the set's iteration
  order, unsorted, so the model promises only a duplicate-free listing of the selection.
  Only the confirmation text (main.py:235) and the unused `selected` string
  (main.py:177) sort the slots, and both are left out.
- **Label validation.** The label after `slot_` is never checked against the catalogue
  (main.py:164), and the model accepts any label as well.
- **Query order.** Query results keep sheet order (main.py:84-93), and the model states
  this.

## Model

| member | source | states |
|---|---|---|
| Catalog.CatalogLabelsAreSeparatorFree | main.py:38 | no catalogue label contains ", ", so the sheet encoding of any selection of catalogue slots reads back exactly |
| Occurrence.DaysAhead | main.py:212-215 | the offset lies in 1..7, lands on weekday 3, and is the smallest positive offset that does (next occurrence, strictly in the future) |
| Occurrence.OnEventDayBooksNextWeek | main.py:213-215 | signing up on the event weekday itself books 7 days ahead, never today |
| Occurrence.ReminderDayMissesBookedDay | main.py:213-215 | the weekday a booked date falls on never equals the day after the Tuesday reminder run (weekday 2) |
| Text.Split | main.py:90 | `str.split(sep)` always returns at least one piece, and exactly one when the separator does not occur |
| Text.SplitJoin | main.py:90 | splitting on ", " a non-empty list joined with ", " gives the list back when no element contains the separator |
| Text.AfterFirstSkipsPrefix | main.py:164 | `split("_", 1)[1]` of a prefix without `_`, then `_`, then a rest, is that whole rest (even when the rest contains `_`) |
| Text.JoinContainsParts | main.py:257 | every part of a joined string occurs in it as a substring |
| Keyboard.Route | main.py:161-201 | data reaches the toggle handler iff it starts with `slot_`, and then with everything after the prefix as the label; only `confirm_slots` reaches the confirm handler |
| Keyboard.PairsRows | main.py:181-193 | packing n buttons gives ⌈n/2⌉ rows, each of width 2 except possibly the last, of width 1 |
| Keyboard.PairsFlatten | main.py:181-193 | flattening the rows gives the buttons back, in order |
| Keyboard.PairsCell | main.py:181-193 | the cell in row r, column c exists in the button list at index 2r + c and holds that button |
| Keyboard.PairsAt | main.py:181-193 | every row r ends within the button list (2r plus its width is at most n), and its column c holds button 2r + c |
| Keyboard.LayoutCell | main.py:181-197 | slot cell (r, c) of the keyboard is the button for catalogue slot 2r + c, marked by that slot's membership in the selection |
| Keyboard.PairsAppend | main.py:181-193 | closing a row after every second button: packing an even-length prefix and then the rest is packing the whole |
| Keyboard.SlotButtonMeaning | main.py:183-188 | a slot button shows the ✅ mark iff its slot is selected, and its callback data routes back to that slot |
| Keyboard.LayoutShape | main.py:181-197 | the keyboard has ⌈n/2⌉ slot rows plus one; slot rows flatten to the catalogue's buttons in order; row r column c is slot 2r + c, marked iff selected and toggling that slot; the last row is the single confirm button |
| Keyboard.StartKeyboard | main.py:133-149 | the `/start` loop builds exactly the layout with nothing selected |
| Keyboard.SelectionKeyboard | main.py:181-197 | the rebuild loop after a toggle builds exactly the layout for the current selection |
| Selections.Flip | main.py:170-175 | the toggled label's membership is inverted and every other label's membership is unchanged |
| Selections.Toggled | main.py:167-175 | after a toggle the user has an entry (created if missing, kept even when emptied) holding the flipped selection; every other user's entry is unchanged |
| Selections.FlipTwice | main.py:170-175 | flipping the same label twice restores the set |
| Selections.ToggleTwiceRestores | main.py:167-175 | toggling the same label twice restores the user's selection and leaves others' entries alone; the user's entry then exists |
| Selections.ListOf | main.py:224 | `list(slots)` lists every selected label exactly once (order unspecified) |
| Selections.SelectionStore.constructor | main.py:128 | the table starts empty |
| Selections.SelectionStore.Toggle | main.py:167-175 | the new table is the toggled table; `added` is true iff the label was not selected before |
| Selections.SelectionStore.Delete | main.py:229 | removes exactly the user's entry |
| Sheets.MatchingAppend | main.py:84-93 | the row filter works row by row in sheet order: results for concatenated runs of rows are the concatenated results |
| Sheets.MatchingOne | main.py:86-92 | one row yields its parsed signup iff it has at least 4 cells and cell 0 is the date |
| Sheets.UpcomingCharacterised | main.py:80-93 | an empty or header-only sheet yields nothing; after the header the result is order-preserving and row-by-row; one row is kept iff it has ≥ 4 cells and the date |
| Sheets.UpcomingIgnoresHeader | main.py:85 | the first row never influences the result, whatever it holds |
| Sheets.MatchingSound | main.py:84-93 | every returned signup is the parse of some kept row |
| Sheets.MatchingComplete | main.py:84-93 | every kept row's signup is returned |
| Sheets.UpcomingSoundAndComplete | main.py:80-93 | a signup is returned iff it is the parse of a kept row below the header |
| Sheets.RowRoundTrip | main.py:58-93 | the written row has six cells with the date, name and handle in cells 0-2, "" in cell 4 and "Запланировано" in cell 5; it is kept for its own date and parses back to the name, handle and slot list (non-empty, labels free of ", ") |
| Sheets.AppendThenQuery | main.py:58-93 | after appending a signup to a sheet with a header, the query for its date returns the previous result followed by that signup |
| Sheets.FirstRowOnBlankSheetIsHidden | main.py:85 | a row appended to a blank sheet becomes the skipped header and is never reported |
| Sheets.SignupSheet.constructor | main.py:75-80 | the sheet holds the given rows |
| Sheets.SignupSheet.AddSignup | main.py:58-69 | exactly one encoded row is appended when the service accepts it, and the sheet is unchanged otherwise |
| Sheets.SignupSheet.GetUpcomingSignups | main.py:71-93 | the loop returns exactly the header-skipping, order-preserving filter of the sheet's rows |
| Digest.EntryMentions | main.py:256-258 | a signup's entry mentions its name, its handle and every slot |
| Digest.DigestMentionsEverySignup | main.py:251-258 | no signups means no message; otherwise one message that mentions every signup's name, handle and slots |
| Digest.EntryTextsStep | main.py:255-258 | one more signup appends exactly its entry to the concatenated entries |
| Digest.ComposeDigest | main.py:255-258 | the `+=` loop builds the header followed by one entry per signup, in order |
| Handlers.Username | main.py:220 | the handle when present and non-empty, else "без ника"; never empty |
| Handlers.SelectSlot | main.py:161-199 | the label after `slot_` is toggled in the caller's entry, `added` tells which way, and the returned keyboard is the layout for the user's new selection |
| Handlers.ConfirmSlots | main.py:201-244 | empty or missing selection: refused, no append, nothing changes. Append succeeds: one row dated `dateIn(DaysAhead(today))` with name, handle fallback and a listing of the selection, and the entry is deleted. Append fails: nothing changes, so a retry needs no re-selection |
| Handlers.SendDailyReminders | main.py:246-265 | when the sheet is readable, exactly the digest of the query for tomorrow (nothing for no signups); when it is not, nothing is sent |
| Handlers.BookingReadBack | main.py:58-93 | one booking of catalogue slots on a sheet holding only its header is read back by the query for its date, and the query for any other date finds nothing |

## Left out

- Telegram transport: the bot, the dispatcher, callback answers, message edits, the
  channel post and Markdown rendering (main.py:40-41, 151-159, 178, 199, 231-240, 260).
  `sent` in `Handlers.SendDailyReminders` is the text handed to `send_message`. With
  `parse_mode="Markdown"`, a handle with an unpaired `_` can make that post fail. The job
  then only logs the error (main.py:264-265) and nothing reaches the channel. The toggle notice is returned as
  `added` and the confirm notice as a `Confirmation` value. The confirmation text with
  sorted slots and the unused `selected` summary string (main.py:177) are not modelled.
- Keyboard.StartKeyboard: this also applies to Keyboard.SelectionKeyboard and
  Handlers.SelectSlot. Each button call passes the caption as a positional argument (main.py:137, 148, 185).
  The model gives that argument its intended `text=` meaning. The aiogram 3 API imported
  at main.py:9-14 accepts only keyword arguments for `InlineKeyboardButton`, so the
  program as written raises TypeError there. `/start` therefore never sends a keyboard.
  `select_slot` applies the toggle and shows its alert, but never rebuilds the keyboard.
  This was found by reading the code; nothing was run.
- Handlers.ConfirmSlots: if editing the confirmation message fails after the row was
  appended and the entry deleted (main.py:231-240), the user still sees the error
  notice. Transport failures are outside the model.
- Google API clients, credentials and `.execute()` (main.py:47-56, 62-69, 75-78, 96-104).
  The sheet is its list of rows. An append is a boolean outcome. A failed read is the
  `sheetReadable` flag.
- `GoogleCalendar.create_event` (main.py:106-122): it is never called, because its only
  call site is commented out.
- Clock, time zone and date formatting (main.py:73, 212, 217): today's weekday is a
  parameter, and `dateIn(k)` stands for `strftime(today + k days)`. Calendar arithmetic
  is not modelled.
- The APScheduler job and the asyncio start-up (main.py:267-282); only the Tuesday
  trigger day is used, in `ReminderWeekday`.
- The FSM state `SignupStates` (main.py:43-44, 159): it is set but never read.
- Sheets.SignupSheet.GetUpcomingSignups: the `user_id` field of each result is always
  `None` and is dropped from `Signup`.
- Concurrency: each handler is modelled as one atomic step. The polling loop
  (main.py:279) runs each update as its own task, so handlers can interleave at their
  `await`s, and that interleaving is not captured.
- Handlers.SelectSlot: `select_slot` awaits `callback.answer` (main.py:178) between the
  toggle and the keyboard rebuild. A `confirm_slots` for the same user can run in that
  gap and delete the entry (main.py:229). The rebuild then raises KeyError at
  main.py:184 and produces no keyboard. The model's atomic step always returns one.
