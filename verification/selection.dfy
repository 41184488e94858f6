/**
 The selection of rows for bulk deletion: a list of ids, toggled one row at
 a time or replaced wholesale by the select-all checkbox. The "all selected"
 test compares the number of selected ids with the number of rows on the
 page; it does not look at which ids are selected.
 */
module Selection {
  import opened Seqs

  /** `handleRowSelect`: a selected id is removed (every occurrence), an unselected one is appended. */
  function ToggleRow(selected: seq<int>, id: int): (r: seq<int>)
    ensures id in r <==> id !in selected
    ensures forall x :: x != id ==> (x in r <==> x in selected)
    ensures NoDup(selected) ==> NoDup(r)
  {
    if id in selected then
      FilterNoDup(x => x != id, selected);
      Filter(x => x != id, selected)
    else
      selected + [id]
  }

  /** Toggling the same row twice restores the same set of selected ids; when the id was not
      selected, it restores the very same list. */
  lemma ToggleRowTwice(selected: seq<int>, id: int)
    ensures Elems(ToggleRow(ToggleRow(selected, id), id)) == Elems(selected)
    ensures id !in selected ==> ToggleRow(ToggleRow(selected, id), id) == selected
  {
    if id !in selected {
      FilterAppend(x => x != id, selected, [id]);
      FilterKeepsAll(x => x != id, selected);
    }
  }

  /** The "every row on the page is selected" test, shared by the header checkbox and
      `handleSelectAll`: as many selected ids as rows on the page, and at least one row. */
  function AllSelected(selected: seq<int>, pageIds: seq<int>): (b: bool)
    ensures pageIds == [] ==> !b
    ensures b ==> |selected| == |pageIds| > 0
    ensures |selected| == |pageIds| > 0 ==> b
  {
    |selected| == |pageIds| && |pageIds| > 0
  }

  /** `handleSelectAll`: clears the selection when it counts as complete, otherwise replaces
      it by exactly the ids of the rows on the page (selections on other pages are dropped). */
  function SelectAll(selected: seq<int>, pageIds: seq<int>): (r: seq<int>)
    ensures r == [] || r == pageIds
    ensures |pageIds| > 0 ==> (r == [] <==> AllSelected(selected, pageIds))
    ensures NoDup(pageIds) ==> NoDup(r)
  {
    if AllSelected(selected, pageIds) then [] else pageIds
  }

  /** On a non-empty page, select-all always flips the header checkbox. */
  lemma SelectAllFlipsHeader(selected: seq<int>, pageIds: seq<int>)
    requires |pageIds| > 0
    ensures AllSelected(SelectAll(selected, pageIds), pageIds) <==> !AllSelected(selected, pageIds)
  {
  }

  /** Select-all twice on a non-empty page ends with the page fully selected when the first
      click cleared the selection, and with nothing selected otherwise: the original selection
      is restored only when it was one of those two. */
  lemma SelectAllTwice(selected: seq<int>, pageIds: seq<int>)
    requires |pageIds| > 0
    ensures SelectAll(SelectAll(selected, pageIds), pageIds)
         == if AllSelected(selected, pageIds) then pageIds else []
  {
  }

  /** A selection counts as complete with a page's ids none of which is selected: the test is
      on lengths, not membership. */
  lemma LengthIsNotMembership()
    ensures AllSelected([1, 2], [11, 12]) && 11 !in [1, 2] && 12 !in [1, 2]
  {
  }

  /** When the selection holds only ids of the page and neither list repeats an id, the length
      test agrees with "every row on the page is selected". */
  lemma LengthMatchesMembership(selected: seq<int>, pageIds: seq<int>)
    requires NoDup(selected) && NoDup(pageIds)
    requires forall x :: x in selected ==> x in pageIds
    ensures AllSelected(selected, pageIds) <==> |pageIds| > 0 && forall x :: x in pageIds ==> x in selected
  {
    NoDupCard(selected);
    NoDupCard(pageIds);
    assert Elems(selected) <= Elems(pageIds);
    if AllSelected(selected, pageIds) {
      SubsetSameCard(Elems(selected), Elems(pageIds));
      forall x | x in pageIds
        ensures x in selected
      {
        assert x in Elems(pageIds);
      }
    }
    if |pageIds| > 0 && forall x :: x in pageIds ==> x in selected {
      assert Elems(selected) == Elems(pageIds);
    }
  }
}
