/** The fixed, ordered catalogue of bookable presentation slots (15:00-16:00 in 10-minute steps). */
module Catalog {
  import opened Text

  const SLOTS: seq<string> :=
    ["15:00-15:10", "15:10-15:20", "15:20-15:30", "15:30-15:40", "15:40-15:50", "15:50-16:00"]

  /** No label contains a comma, so none contains the sheet's `", "` separator. */
  lemma {:induction false} CommaFreeLabel(s: string)
    requires forall i :: 0 <= i < |s| ==> s[i] != ','
    ensures Free(s, ", ")
  {
    forall j
      ensures !OccursAt(s, ", ", j)
    {
      if 0 <= j && j + 2 <= |s| {
        assert s[j..j + 2][0] == s[j];
      }
    }
  }

  /** Every catalogue label survives being written to and read back from a sheet cell. */
  lemma CatalogLabelsAreSeparatorFree()
    ensures forall s :: s in SLOTS ==> Free(s, ", ")
  {
    forall s | s in SLOTS
      ensures Free(s, ", ")
    {
      CommaFreeLabel(s);
    }
  }
}
