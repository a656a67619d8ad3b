/**
 * The bot's handlers over the shared state: `select_slot`, `confirm_slots` and
 * `send_daily_reminders`. The clock, the chat transport and the remote services are
 * parameters: today's weekday, `dateIn(k)` for the date k days from today, the user's
 * identity, and whether each remote call succeeds.
 */
module Handlers {
  import opened Wrappers
  import opened Text
  import opened Catalog
  import opened Occurrence
  import opened Keyboard
  import opened Selections
  import opened Sheets
  import opened Digest

  const NoHandle := "без ника"

  /** `callback.from_user.username or "без ника"`: an absent or empty handle falls back. */
  function Username(handle: Option<string>): (u: string)
    ensures u != ""
    ensures handle.Some? && handle.value != "" ==> u == handle.value
    ensures handle == None || handle == Some("") ==> u == NoHandle
  {
    if handle.Some? && handle.value != "" then handle.value else NoHandle
  }

  /** What `confirm_slots` ends in, as the user is told. */
  datatype Confirmation =
    | NothingSelected
    | Saved(date: string, name: string, username: string, slots: seq<string>)
    | SaveFailed(slots: seq<string>)

  /**
   * `select_slot`: the label is what follows `slot_` in the callback data (any label, not
   * checked against the catalogue); the user's selection is toggled and the keyboard
   * rebuilt from the new selection.
   */
  method SelectSlot(store: SelectionStore, user: int, data: string) returns (added: bool, kb: Markup)
    requires SlotPrefix <= data
    modifies store
    ensures var slot := data[|SlotPrefix|..];
      && store.selections == Toggled(old(store.selections), user, slot)
      && (added <==> slot !in SelectionOf(old(store.selections), user))
      && kb == Layout(SLOTS, SelectionOf(store.selections, user))
  {
    AfterFirstSkipsPrefix("slot", '_', data[|SlotPrefix|..]);
    assert data == "slot" + ['_'] + data[|SlotPrefix|..];
    var slot := AfterFirst(data, '_');
    added := store.Toggle(user, slot);
    kb := SelectionKeyboard(SLOTS, store.Selected(user));
  }

  /**
   * `confirm_slots`: an empty or missing selection is refused with no append and no state
   * change; otherwise one row for the next event day is appended, and the user's entry is
   * deleted only when the append succeeded, so a failed attempt can be retried as is.
   */
  method ConfirmSlots(store: SelectionStore, sheet: SignupSheet, user: int, today: Weekday,
                      dateIn: int -> string, fullName: string, handle: Option<string>,
                      appendSucceeds: bool)
    returns (outcome: Confirmation)
    modifies store, sheet
    ensures var before := SelectionOf(old(store.selections), user);
      before == {} ==>
        && outcome == NothingSelected
        && store.selections == old(store.selections)
        && sheet.rows == old(sheet.rows)
    ensures var before := SelectionOf(old(store.selections), user);
      before != {} && appendSucceeds ==>
        && outcome.Saved?
        && outcome.date == dateIn(DaysAhead(today))
        && outcome.name == fullName
        && outcome.username == Username(handle)
        && Lists(outcome.slots, before)
        && sheet.rows == old(sheet.rows) + [SignupRow(outcome.date, fullName, outcome.username, outcome.slots)]
        && user !in store.selections
        && store.selections == old(store.selections) - {user}
    ensures var before := SelectionOf(old(store.selections), user);
      before != {} && !appendSucceeds ==>
        && outcome.SaveFailed?
        && Lists(outcome.slots, before)
        && store.selections == old(store.selections)
        && sheet.rows == old(sheet.rows)
  {
    var slots := store.Selected(user);
    if slots == {} {
      return NothingSelected;
    }
    var daysAhead := 3 - today;
    if daysAhead <= 0 {
      daysAhead := daysAhead + 7;
    }
    var presentationDate := dateIn(daysAhead);
    var name := fullName;
    var username := Username(handle);
    var listed := ListOf(slots);
    sheet.AddSignup(presentationDate, name, username, listed, appendSucceeds);
    if appendSucceeds {
      store.Delete(user);
      outcome := Saved(presentationDate, name, username, listed);
    } else {
      outcome := SaveFailed(listed);
    }
  }

  /**
   * `send_daily_reminders`: when the sheet can be read, the digest of tomorrow's signups
   * (none when there are none); when reading fails the error is logged and nothing is sent.
   */
  method SendDailyReminders(sheet: SignupSheet, tomorrow: string, sheetReadable: bool)
    returns (sent: Option<string>)
    ensures sent == if sheetReadable then DigestOf(Upcoming(sheet.rows, tomorrow)) else None
  {
    if !sheetReadable {
      return None;
    }
    var signups := sheet.GetUpcomingSignups(tomorrow);
    if signups == [] {
      return None;
    }
    var message := ComposeDigest(signups);
    sent := Some(message);
  }

  /**
   * A user toggles two catalogue slots on a Tuesday and confirms; the append succeeds.
   * The entry is gone, and one row was written for the day two days ahead (a Thursday),
   * which the query for that date reads back. The Tuesday reminder run asks for the day
   * one day ahead and so sends nothing.
   */
  method TuesdaySignup(dateIn: int -> string)
    requires dateIn(1) != dateIn(2)
  {
    var header := ["Дата", "Имя", "Ник", "Слоты", "", "Статус"];
    var store := new SelectionStore();
    var sheet := new SignupSheet([header]);
    var first, kb1 := SelectSlot(store, 42, "slot_15:00-15:10");
    var second, kb2 := SelectSlot(store, 42, "slot_15:10-15:20");
    assert first && second;
    assert store.Selected(42) == {"15:00-15:10", "15:10-15:20"};
    var outcome := ConfirmSlots(store, sheet, 42, 1, dateIn, "Анна", None, true);
    assert outcome.Saved? && outcome.date == dateIn(2) && outcome.username == NoHandle;
    assert store.selections == map[];
    assert forall s :: s in outcome.slots ==> s in SLOTS;
    BookingReadBack(header, dateIn(2), dateIn(1), "Анна", NoHandle, outcome.slots);
    assert Upcoming(sheet.rows, dateIn(2)) == [Signup("Анна", NoHandle, outcome.slots)];
    var reminder := SendDailyReminders(sheet, dateIn(1), true);
    assert reminder == None;
  }

  /**
   * One booking of catalogue slots on a sheet holding only its header: the query for the
   * booked date reads it back, and the query for any other date finds nothing.
   */
  lemma BookingReadBack(header: Row, booked: string, other: string, name: string,
                        username: string, slots: seq<string>)
    requires booked != other
    requires |slots| > 0 && forall s :: s in slots ==> s in SLOTS
    ensures Upcoming([header, SignupRow(booked, name, username, slots)], booked)
         == [Signup(name, username, slots)]
    ensures Upcoming([header, SignupRow(booked, name, username, slots)], other) == []
  {
    var row := SignupRow(booked, name, username, slots);
    CatalogLabelsAreSeparatorFree();
    AppendThenQuery([header], booked, name, username, slots);
    assert [header] + [row] == [header, row];
    UpcomingCharacterised(header, [], [], row, other);
    assert !IsFor(row, other);
  }
}
