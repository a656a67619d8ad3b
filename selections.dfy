/**
 * The process-wide `user_selections` table: user id to the set of slot labels the user has
 * toggled on and not yet confirmed.
 */
module Selections {

  type Store = map<int, set<string>>

  /** `user_selections.get(user, set())`. */
  function SelectionOf(store: Store, user: int): set<string> {
    if user in store then store[user] else {}
  }

  /** Flips one label's membership and leaves every other label as it was. */
  function Flip(selection: set<string>, slot: string): (r: set<string>)
    ensures slot in r <==> slot !in selection
    ensures forall other :: other != slot ==> (other in r <==> other in selection)
  {
    if slot in selection then selection - {slot} else selection + {slot}
  }

  /**
   * The table after one toggle: the user's entry exists (created empty if missing, and
   * kept even when the toggle empties it), holds the flipped selection, and every other
   * user's entry is unchanged.
   */
  function Toggled(store: Store, user: int, slot: string): (r: Store)
    ensures r.Keys == store.Keys + {user}
    ensures SelectionOf(r, user) == Flip(SelectionOf(store, user), slot)
    ensures forall u :: u in store && u != user ==> r[u] == store[u]
  {
    store[user := Flip(SelectionOf(store, user), slot)]
  }

  /** Flipping the same label twice is the identity. */
  lemma FlipTwice(selection: set<string>, slot: string)
    ensures Flip(Flip(selection, slot), slot) == selection
  {
    var once := Flip(selection, slot);
    var twice := Flip(once, slot);
    forall x
      ensures x in twice <==> x in selection
    {
      if x == slot {
        assert x in twice <==> x !in once;
      }
    }
  }

  /**
   * Toggling a label twice restores the user's selection and leaves everyone else's
   * entry alone; the only lasting trace is that the user now has an entry.
   */
  lemma ToggleTwiceRestores(store: Store, user: int, slot: string)
    ensures var again := Toggled(Toggled(store, user, slot), user, slot);
      && SelectionOf(again, user) == SelectionOf(store, user)
      && again.Keys == store.Keys + {user}
      && forall u :: u in store && u != user ==> again[u] == store[u]
  {
    FlipTwice(SelectionOf(store, user), slot);
  }

  /** `list(selection)`: every label once, in the set's (unspecified) iteration order. */
  ghost predicate Lists(xs: seq<string>, selection: set<string>) {
    && |xs| == |selection|
    && (forall x :: x in xs <==> x in selection)
    && (forall i, j :: 0 <= i < j < |xs| ==> xs[i] != xs[j])
  }

  /** Python's `list(s)` for a set: some duplicate-free enumeration of it. */
  method ListOf(selection: set<string>) returns (xs: seq<string>)
    ensures Lists(xs, selection)
  {
    xs := [];
    var rest := selection;
    while rest != {}
      invariant rest <= selection
      invariant forall x :: x in xs <==> x in selection - rest
      invariant |xs| + |rest| == |selection|
      invariant forall i, j :: 0 <= i < j < |xs| ==> xs[i] != xs[j]
      decreases |rest|
    {
      var x :| x in rest;
      assert x !in xs;
      xs := xs + [x];
      rest := rest - {x};
    }
  }

  /** The `user_selections` table, updated in place by the handlers. */
  class SelectionStore {
    var selections: Store

    constructor ()
      ensures selections == map[]
    {
      selections := map[];
    }

    function Selected(user: int): set<string>
      reads this
    {
      SelectionOf(selections, user)
    }

    /** The toggle step of `select_slot`; `added` tells which notice the user gets. */
    method Toggle(user: int, slot: string) returns (added: bool)
      modifies this
      ensures selections == Toggled(old(selections), user, slot)
      ensures added <==> slot !in SelectionOf(old(selections), user)
    {
      if user !in selections {
        selections := selections[user := {}];
      }
      if slot in selections[user] {
        selections := selections[user := selections[user] - {slot}];
        added := false;
      } else {
        selections := selections[user := selections[user] + {slot}];
        added := true;
      }
    }

    /** `del user_selections[user]`; the entry must exist (Python raises KeyError otherwise). */
    method Delete(user: int)
      requires user in selections
      modifies this
      ensures selections == old(selections) - {user}
    {
      selections := selections - {user};
    }
  }
}
