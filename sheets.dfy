/**
 * The signup sheet: `add_signup` appends one six-cell row, `get_upcoming_signups` reads
 * back the rows for one date. The remote Sheets service is replaced by the list of rows
 * it holds; whether an append reaches it is a parameter.
 */
module Sheets {
  import opened Text

  type Row = seq<string>

  const SlotSeparator := ", "
  const Scheduled := "Запланировано"

  /** One signup as `get_upcoming_signups` reports it (its always-`None` user id is dropped). */
  datatype Signup = Signup(name: string, username: string, slots: seq<string>)

  /** The row `add_signup` writes: date, name, handle, joined slots, an empty cell, the status. */
  function SignupRow(date: string, name: string, username: string, slots: seq<string>): Row {
    [date, name, username, Join(slots, SlotSeparator), "", Scheduled]
  }

  /** A row is kept for `date` when it has at least four cells and its first is the date. */
  predicate IsFor(row: Row, date: string) {
    |row| >= 4 && row[0] == date
  }

  function ParseSignup(row: Row): Signup
    requires |row| >= 4
  {
    Signup(row[1], row[2], Split(row[3], SlotSeparator))
  }

  /** The kept rows of `rows`, parsed, in sheet order. */
  function Matching(rows: seq<Row>, date: string): seq<Signup> {
    if rows == [] then []
    else
      var last := rows[|rows| - 1];
      var init := Matching(rows[..|rows| - 1], date);
      if IsFor(last, date) then init + [ParseSignup(last)] else init
  }

  /** `get_upcoming_signups` on a sheet: its first row is a header and is skipped. */
  function Upcoming(sheet: seq<Row>, date: string): seq<Signup> {
    if sheet == [] then [] else Matching(sheet[1..], date)
  }

  /** Filtering distributes over concatenation: each row contributes on its own, in order. */
  lemma {:induction false} MatchingAppend(a: seq<Row>, b: seq<Row>, date: string)
    ensures Matching(a + b, date) == Matching(a, date) + Matching(b, date)
  {
    if b == [] {
      assert a + b == a;
    } else {
      var b' := b[..|b| - 1];
      assert (a + b)[..|a + b| - 1] == a + b';
      assert (a + b)[|a + b| - 1] == b[|b| - 1];
      MatchingAppend(a, b', date);
    }
  }

  /** A single row yields its signup exactly when it is kept. */
  lemma MatchingOne(row: Row, date: string)
    ensures Matching([row], date) == if IsFor(row, date) then [ParseSignup(row)] else []
  {
    assert [row][..0] == [];
  }

  /**
   * What the query returns is exactly the kept rows after the header: concatenating two
   * runs of rows concatenates their results, a single row yields its parsed signup iff it
   * has at least four cells and the date, and an empty or header-only sheet yields nothing.
   */
  lemma UpcomingCharacterised(header: Row, a: seq<Row>, b: seq<Row>, row: Row, date: string)
    ensures Upcoming([], date) == []
    ensures Upcoming([header], date) == []
    ensures Upcoming([header] + a + b, date) == Upcoming([header] + a, date) + Upcoming([header] + b, date)
    ensures Upcoming([header, row], date) == if IsFor(row, date) then [ParseSignup(row)] else []
  {
    assert ([header] + a + b)[1..] == a + b;
    assert ([header] + a)[1..] == a;
    assert ([header] + b)[1..] == b;
    assert [header, row][1..] == [row];
    assert [header][1..] == [];
    MatchingAppend(a, b, date);
    MatchingOne(row, date);
  }

  /** The header row never contributes, whatever it holds. */
  lemma UpcomingIgnoresHeader(h1: Row, h2: Row, rows: seq<Row>, date: string)
    ensures Upcoming([h1] + rows, date) == Upcoming([h2] + rows, date)
  {
    assert ([h1] + rows)[1..] == rows;
    assert ([h2] + rows)[1..] == rows;
  }

  /** Every returned signup is the parse of some kept, non-header row. */
  lemma {:induction false} MatchingSound(rows: seq<Row>, date: string, k: nat)
    requires k < |Matching(rows, date)|
    ensures exists j :: 0 <= j < |rows| && IsFor(rows[j], date) && Matching(rows, date)[k] == ParseSignup(rows[j])
  {
    var init := rows[..|rows| - 1];
    var last := rows[|rows| - 1];
    if k < |Matching(init, date)| {
      MatchingSound(init, date, k);
      var j :| 0 <= j < |init| && IsFor(init[j], date) && Matching(init, date)[k] == ParseSignup(init[j]);
      assert rows[j] == init[j];
    } else {
      assert IsFor(last, date) && Matching(rows, date)[k] == ParseSignup(last);
    }
  }

  /** Every kept row is returned. */
  lemma {:induction false} MatchingComplete(rows: seq<Row>, date: string, j: nat)
    requires j < |rows| && IsFor(rows[j], date)
    ensures ParseSignup(rows[j]) in Matching(rows, date)
  {
    var init := rows[..|rows| - 1];
    if j < |rows| - 1 {
      assert rows[j] == init[j];
      MatchingComplete(init, date, j);
    }
  }

  /** Signup `s` is the parse of row `j` of `sheet`, a kept row below the header. */
  ghost predicate ReadFrom(sheet: seq<Row>, date: string, j: int, s: Signup) {
    1 <= j < |sheet| && IsFor(sheet[j], date) && s == ParseSignup(sheet[j])
  }

  /** The query keeps a signup iff it is the parse of a kept row below the header. */
  lemma UpcomingSoundAndComplete(sheet: seq<Row>, date: string)
    ensures forall s :: s in Upcoming(sheet, date) ==> exists j :: ReadFrom(sheet, date, j, s)
    ensures forall j :: 1 <= j < |sheet| && IsFor(sheet[j], date) ==> ParseSignup(sheet[j]) in Upcoming(sheet, date)
  {
    if sheet != [] {
      var rows := sheet[1..];
      assert Upcoming(sheet, date) == Matching(rows, date);
      forall s | s in Upcoming(sheet, date)
        ensures exists j :: ReadFrom(sheet, date, j, s)
      {
        var k :| 0 <= k < |Matching(rows, date)| && Matching(rows, date)[k] == s;
        MatchingSound(rows, date, k);
        var j :| 0 <= j < |rows| && IsFor(rows[j], date) && Matching(rows, date)[k] == ParseSignup(rows[j]);
        assert sheet[j + 1] == rows[j];
        assert ReadFrom(sheet, date, j + 1, s);
      }
      forall j | 1 <= j < |sheet| && IsFor(sheet[j], date)
        ensures ParseSignup(sheet[j]) in Upcoming(sheet, date)
      {
        assert sheet[j] == rows[j - 1];
        MatchingComplete(rows, date, j - 1);
      }
    }
  }

  /**
   * A written row reads back: it is kept for its own date and parses to the name, the
   * handle and the slot list, provided the list is non-empty and no label contains ", ".
   */
  lemma RowRoundTrip(date: string, name: string, username: string, slots: seq<string>)
    requires |slots| > 0
    requires forall s :: s in slots ==> Free(s, SlotSeparator)
    ensures var row := SignupRow(date, name, username, slots);
      && |row| == 6 && row[4] == "" && row[5] == Scheduled
      && IsFor(row, date)
      && ParseSignup(row) == Signup(name, username, slots)
  {
    SplitJoin(slots, SlotSeparator);
  }

  /**
   * Appending a signup to a sheet that has its header makes the query for that date
   * return what it returned before followed by the new signup.
   */
  lemma AppendThenQuery(sheet: seq<Row>, date: string, name: string, username: string, slots: seq<string>)
    requires |sheet| >= 1
    requires |slots| > 0
    requires forall s :: s in slots ==> Free(s, SlotSeparator)
    ensures Upcoming(sheet + [SignupRow(date, name, username, slots)], date)
         == Upcoming(sheet, date) + [Signup(name, username, slots)]
  {
    var row := SignupRow(date, name, username, slots);
    RowRoundTrip(date, name, username, slots);
    assert (sheet + [row])[1..] == sheet[1..] + [row];
    MatchingAppend(sheet[1..], [row], date);
    MatchingOne(row, date);
  }

  /** On a blank sheet the first appended row takes the header's place and is never reported. */
  lemma FirstRowOnBlankSheetIsHidden(date: string, name: string, username: string, slots: seq<string>)
    ensures Upcoming([] + [SignupRow(date, name, username, slots)], date) == []
  {
    assert ([] + [SignupRow(date, name, username, slots)])[1..] == [];
  }

  /** The remote sheet, as the list of rows it holds. */
  class SignupSheet {
    var rows: seq<Row>

    constructor (rows: seq<Row>)
      ensures this.rows == rows
    {
      this.rows := rows;
    }

    /** `add_signup`: one row appended when the service accepts it, nothing otherwise. */
    method AddSignup(date: string, name: string, username: string, slots: seq<string>, accepted: bool)
      modifies this
      ensures rows == if accepted then old(rows) + [SignupRow(date, name, username, slots)] else old(rows)
    {
      if accepted {
        rows := rows + [[date, name, username, Join(slots, SlotSeparator), "", Scheduled]];
      }
    }

    /** `get_upcoming_signups`: the loop over `rows[1:]` that collects the kept rows. */
    method GetUpcomingSignups(date: string) returns (signups: seq<Signup>)
      ensures signups == Upcoming(rows, date)
    {
      if rows == [] {
        return [];
      }
      signups := [];
      for i := 1 to |rows|
        invariant signups == Matching(rows[1..i], date)
      {
        var row := rows[i];
        assert rows[1..i + 1][..i - 1] == rows[1..i];
        if |row| >= 4 && row[0] == date {
          signups := signups + [Signup(row[1], row[2], Split(row[3], ", "))];
        }
      }
      assert rows[1..|rows|] == rows[1..];
    }
  }
}
