/**
 * The inline keyboard shown by `/start` and after every slot toggle: one button per
 * catalogue slot, in catalogue order, two to a row, then a single confirm row. Buttons
 * are modelled by their caption and their callback data; the transport is left out.
 */
module Keyboard {
  import opened Text

  const SlotPrefix := "slot_"
  const ConfirmData := "confirm_slots"
  const SelectedMark := "✅"
  const UnselectedMark := "⏰"
  const ConfirmText := "✅ Подтвердить выбор"

  datatype Button = Button(text: string, data: string)

  /** Rows of buttons, top to bottom. */
  type Markup = seq<seq<Button>>

  /** What a callback's data asks for, as the dispatcher's filters route it. */
  datatype Callback = ToggleSlot(slot: string) | ConfirmSelection | Unhandled

  function SlotButton(slot: string, selected: bool): Button {
    Button((if selected then SelectedMark else UnselectedMark) + " " + slot, SlotPrefix + slot)
  }

  const ConfirmButton := Button(ConfirmText, ConfirmData)

  /** A button shows the selected mark. */
  predicate ShowsSelected(b: Button) {
    SelectedMark <= b.text
  }

  /**
   * The dispatcher: data starting with `slot_` goes to the toggle handler, which takes the
   * slot label as `data.split("_", 1)[1]`; exactly `confirm_slots` goes to the confirm handler.
   */
  function Route(data: string): (r: Callback)
    ensures SlotPrefix <= data ==> r == ToggleSlot(data[|SlotPrefix|..])
    ensures r.ToggleSlot? <==> SlotPrefix <= data
    ensures r == ConfirmSelection <==> data == ConfirmData
  {
    if SlotPrefix <= data then
      AfterFirstSkipsPrefix("slot", '_', data[|SlotPrefix|..]);
      assert data == "slot" + ['_'] + data[|SlotPrefix|..];
      ToggleSlot(AfterFirst(data, '_'))
    else if data == ConfirmData then ConfirmSelection
    else Unhandled
  }

  /** One button per catalogue entry, marked by membership in `selected`. */
  function SlotButtons(catalog: seq<string>, selected: set<string>): seq<Button> {
    seq(|catalog|, i requires 0 <= i < |catalog| => SlotButton(catalog[i], catalog[i] in selected))
  }

  /** Packs buttons two to a row, front to back. */
  function Pairs(bs: seq<Button>): seq<seq<Button>>
    decreases |bs|
  {
    if |bs| == 0 then []
    else if |bs| <= 2 then [bs]
    else [bs[..2]] + Pairs(bs[2..])
  }

  function Flatten(rows: seq<seq<Button>>): seq<Button> {
    if rows == [] then [] else rows[0] + Flatten(rows[1..])
  }

  /** The keyboard for a user whose current selection is `selected`. */
  function Layout(catalog: seq<string>, selected: set<string>): Markup {
    Pairs(SlotButtons(catalog, selected)) + [[ConfirmButton]]
  }

  /** Packing an even-length prefix first does not change how the rest is packed. */
  lemma {:induction false} PairsAppend(a: seq<Button>, b: seq<Button>)
    requires |a| % 2 == 0
    ensures Pairs(a + b) == Pairs(a) + Pairs(b)
  {
    if |a| == 0 {
      assert a + b == b;
    } else if |a + b| <= 2 {
      assert b == [];
      assert a + b == a;
    } else {
      assert (a + b)[..2] == a[..2];
      assert (a + b)[2..] == a[2..] + b;
      PairsAppend(a[2..], b);
      if |a| == 2 {
        assert a[2..] == [];
        assert a[..2] == a;
        assert Pairs(a) == [a];
      } else {
        assert Pairs(a) == [a[..2]] + Pairs(a[2..]);
      }
    }
  }

  /** Closing a full row after an even number of buttons already packed. */
  lemma PairsSnocRow(a: seq<Button>, x: Button, y: Button)
    requires |a| % 2 == 0
    ensures Pairs(a + [x, y]) == Pairs(a) + [[x, y]]
  {
    PairsAppend(a, [x, y]);
  }

  /** Closing the last, half-full row. */
  lemma PairsSnocHalfRow(a: seq<Button>, x: Button)
    requires |a| % 2 == 0
    ensures Pairs(a + [x]) == Pairs(a) + [[x]]
  {
    PairsAppend(a, [x]);
  }

  /** Closing the row of buttons i - 1 and i, when i - 1 buttons are already packed in pairs. */
  lemma PairsClosePair(bs: seq<Button>, i: nat)
    requires 1 <= i < |bs| && (i - 1) % 2 == 0
    ensures Pairs(bs[..i + 1]) == Pairs(bs[..i - 1]) + [[bs[i - 1], bs[i]]]
  {
    assert bs[..i + 1] == bs[..i - 1] + [bs[i - 1], bs[i]];
    PairsSnocRow(bs[..i - 1], bs[i - 1], bs[i]);
  }

  /** Closing a last row that holds the one button i, after i buttons packed in pairs. */
  lemma PairsCloseHalf(bs: seq<Button>, i: nat)
    requires i < |bs| && i % 2 == 0
    ensures Pairs(bs[..i + 1]) == Pairs(bs[..i]) + [[bs[i]]]
  {
    assert bs[..i + 1] == bs[..i] + [bs[i]];
    PairsSnocHalfRow(bs[..i], bs[i]);
  }

  /** ⌈n/2⌉ rows, each of width two except possibly the last, of width one. */
  lemma {:induction false} PairsRows(bs: seq<Button>)
    ensures |Pairs(bs)| == (|bs| + 1) / 2
    ensures forall r :: 0 <= r < |Pairs(bs)| ==>
      |Pairs(bs)[r]| == 2 || (r == |Pairs(bs)| - 1 && |Pairs(bs)[r]| == 1)
  {
    if |bs| > 2 {
      PairsRows(bs[2..]);
      assert Pairs(bs)[1..] == Pairs(bs[2..]);
    }
  }

  /** The rows read back the buttons in order. */
  lemma {:induction false} PairsFlatten(bs: seq<Button>)
    ensures Flatten(Pairs(bs)) == bs
  {
    if 0 < |bs| <= 2 {
      assert Flatten(Pairs(bs)) == bs + Flatten([]);
    } else if |bs| > 2 {
      PairsFlatten(bs[2..]);
      assert Pairs(bs)[1..] == Pairs(bs[2..]);
      assert bs[..2] + bs[2..] == bs;
    }
  }

  /** Row r, column c holds button 2r + c: one cell at a time, by induction on the row. */
  lemma {:induction false} PairsCell(bs: seq<Button>, r: nat, c: nat)
    requires r < |Pairs(bs)| && c < |Pairs(bs)[r]|
    ensures 2 * r + c < |bs| && Pairs(bs)[r][c] == bs[2 * r + c]
    decreases r
  {
    if |bs| <= 2 {
      assert Pairs(bs) == [bs];
    } else if r == 0 {
      assert Pairs(bs)[0] == bs[..2];
    } else {
      PairsCell(bs[2..], r - 1, c);
      assert Pairs(bs)[r] == Pairs(bs[2..])[r - 1];
    }
  }

  /** Row r, column c holds button 2r + c. */
  lemma {:induction false} PairsAt(bs: seq<Button>)
    ensures forall r :: 0 <= r < |Pairs(bs)| ==> 2 * r + |Pairs(bs)[r]| <= |bs|
    ensures forall r, c :: 0 <= r < |Pairs(bs)| && 0 <= c < |Pairs(bs)[r]| ==>
      Pairs(bs)[r][c] == bs[2 * r + c]
  {
    PairsRows(bs);
    forall r | 0 <= r < |Pairs(bs)|
      ensures 2 * r + |Pairs(bs)[r]| <= |bs|
    {
      PairsCell(bs, r, |Pairs(bs)[r]| - 1);
    }
    forall r, c | 0 <= r < |Pairs(bs)| && 0 <= c < |Pairs(bs)[r]|
      ensures Pairs(bs)[r][c] == bs[2 * r + c]
    {
      PairsCell(bs, r, c);
    }
  }

  /** A slot button shows the selected mark exactly when its slot is selected, and routes to its slot. */
  lemma SlotButtonMeaning(slot: string, selected: bool)
    ensures ShowsSelected(SlotButton(slot, selected)) <==> selected
    ensures Route(SlotButton(slot, selected).data) == ToggleSlot(slot)
  {
    var b := SlotButton(slot, selected);
    if !selected {
      assert b.text[0] == UnselectedMark[0];
    }
    assert b.data[|SlotPrefix|..] == slot;
  }

  /**
   * The keyboard has ⌈n/2⌉ slot rows of width two (the last possibly one), its slot rows
   * read back the catalogue in order, the button in row r, column c is catalogue slot
   * 2r + c, showing the selected mark exactly when that slot is selected and toggling it,
   * and a single confirm button closes it.
   */
  lemma {:induction false} LayoutShape(catalog: seq<string>, selected: set<string>)
    ensures var kb := Layout(catalog, selected);
      && |kb| == (|catalog| + 1) / 2 + 1
      && kb[|kb| - 1] == [ConfirmButton]
      && (forall r :: 0 <= r < |kb| - 1 ==> |kb[r]| == 2 || (r == |kb| - 2 && |kb[r]| == 1))
      && Flatten(kb[..|kb| - 1]) == SlotButtons(catalog, selected)
      && (forall r, c :: 0 <= r < |kb| - 1 && 0 <= c < |kb[r]| ==>
            var i := 2 * r + c;
            && i < |catalog|
            && kb[r][c] == SlotButton(catalog[i], catalog[i] in selected)
            && (ShowsSelected(kb[r][c]) <==> catalog[i] in selected)
            && Route(kb[r][c].data) == ToggleSlot(catalog[i]))
  {
    var bs := SlotButtons(catalog, selected);
    var kb := Layout(catalog, selected);
    PairsRows(bs);
    PairsFlatten(bs);
    assert kb[..|kb| - 1] == Pairs(bs);
    forall r, c | 0 <= r < |kb| - 1 && 0 <= c < |kb[r]|
      ensures 2 * r + c < |catalog|
      ensures kb[r][c] == SlotButton(catalog[2 * r + c], catalog[2 * r + c] in selected)
      ensures ShowsSelected(kb[r][c]) <==> catalog[2 * r + c] in selected
      ensures Route(kb[r][c].data) == ToggleSlot(catalog[2 * r + c])
    {
      LayoutCell(catalog, selected, r, c);
      SlotButtonMeaning(catalog[2 * r + c], catalog[2 * r + c] in selected);
    }
  }

  /** One slot cell of the keyboard: row r, column c is catalogue slot 2r + c. */
  lemma LayoutCell(catalog: seq<string>, selected: set<string>, r: nat, c: nat)
    requires r < |Layout(catalog, selected)| - 1 && c < |Layout(catalog, selected)[r]|
    ensures 2 * r + c < |catalog|
    ensures Layout(catalog, selected)[r][c] == SlotButton(catalog[2 * r + c], catalog[2 * r + c] in selected)
  {
    var bs := SlotButtons(catalog, selected);
    assert Layout(catalog, selected)[r] == Pairs(bs)[r];
    PairsCell(bs, r, c);
  }

  /** `cmd_start`: every slot unselected, a row closed whenever `(i + 1) % 2 == 0`. */
  method StartKeyboard(catalog: seq<string>) returns (kb: Markup)
    ensures kb == Layout(catalog, {})
  {
    ghost var bs := SlotButtons(catalog, {});
    var rows: Markup := [];
    var row: seq<Button> := [];
    for i := 0 to |catalog|
      invariant |row| == i % 2
      invariant |row| == 1 ==> row == [bs[i - 1]]
      invariant rows == Pairs(bs[..i - |row|])
    {
      var button := Button(UnselectedMark + " " + catalog[i], SlotPrefix + catalog[i]);
      assert button == bs[i];
      row := row + [button];
      if (i + 1) % 2 == 0 {
        assert row == [bs[i - 1], bs[i]];
        PairsClosePair(bs, i);
        rows := rows + [row];
        row := [];
      }
    }
    if row != [] {
      PairsCloseHalf(bs, |bs| - 1);
      rows := rows + [row];
    }
    assert bs[..|bs|] == bs;
    kb := rows + [[ConfirmButton]];
  }

  /** The keyboard rebuilt by `select_slot`: marks by membership, a row closed when it holds two. */
  method SelectionKeyboard(catalog: seq<string>, selected: set<string>) returns (kb: Markup)
    ensures kb == Layout(catalog, selected)
  {
    ghost var bs := SlotButtons(catalog, selected);
    var rows: Markup := [];
    var row: seq<Button> := [];
    for i := 0 to |catalog|
      invariant |row| == i % 2
      invariant |row| == 1 ==> row == [bs[i - 1]]
      invariant rows == Pairs(bs[..i - |row|])
    {
      var s := catalog[i];
      var status := if s in selected then SelectedMark else UnselectedMark;
      var button := Button(status + " " + s, SlotPrefix + s);
      assert button == bs[i] by {
        if s in selected {
          assert button == SlotButton(s, true);
        } else {
          assert button == SlotButton(s, false);
        }
      }
      row := row + [button];
      if |row| == 2 {
        assert row == [bs[i - 1], bs[i]];
        PairsClosePair(bs, i);
        rows := rows + [row];
        row := [];
      }
    }
    if row != [] {
      PairsCloseHalf(bs, |bs| - 1);
      rows := rows + [row];
    }
    assert bs[..|bs|] == bs;
    kb := rows + [[ConfirmButton]];
  }
}
