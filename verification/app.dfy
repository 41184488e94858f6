/**
 The dashboard's table state (`App`): the canonical user list, the search
 term, the current page and the selected ids. The filtered list, the page
 slice and the page count are derived from these on every read, which is
 the state the page-reset effect settles into: whenever the user list or
 the search term changes, the filtered list is recomputed and the page goes
 back to 1.
 */
module AdminTable {
  import opened Seqs
  import opened Text
  import opened Users
  import opened Pagination
  import opened Selection

  datatype Table = Table(users: seq<User>, searchTerm: string, currentPage: int, selectedRows: seq<int>)

  /** The users matching the search term, in list order. */
  function Filtered(t: Table): (r: seq<User>)
    ensures forall u :: u in r <==> u in t.users && Matches(u, t.searchTerm)
    ensures IsSubseq(r, t.users)
  {
    FilterUsers(t.users, t.searchTerm)
  }

  /** The rows on the current page: at most a page of matching users, the current page's
      stretch of the filtered list. */
  function CurrentUsers(t: Table): (r: seq<User>)
    ensures |r| <= PageSize
    ensures t.currentPage >= 1 ==>
      r == Filtered(t)[Min((t.currentPage - 1) * PageSize, |Filtered(t)|)..Min(t.currentPage * PageSize, |Filtered(t)|)]
    ensures forall u :: u in r ==> u in t.users && Matches(u, t.searchTerm)
  {
    PageSlice(Filtered(t), t.currentPage)
  }

  /** The number of pages: the fewest pages of PageSize rows that hold the filtered list. */
  function PageCount(t: Table): (r: nat)
    ensures |Filtered(t)| <= r * PageSize < |Filtered(t)| + PageSize
  {
    TotalPages(|Filtered(t)|)
  }

  /** The page is one the controls can reach: page 1, or a page that holds rows. */
  predicate PageInRange(t: Table) {
    1 <= t.currentPage && (t.currentPage == 1 || t.currentPage <= PageCount(t))
  }

  /** The state once the initial fetch has delivered `users`: nothing filtered out, page 1,
      nothing selected. */
  function Loaded(users: seq<User>): (t: Table)
    ensures t.users == users && t.searchTerm == ""
    ensures Filtered(t) == users
    ensures t.currentPage == 1 && t.selectedRows == []
    ensures PageInRange(t)
  {
    FilterEmptyTerm(users);
    Table(users, "", 1, [])
  }

  /** Typing in the search box. A different term re-runs the filter effect, which resets the
      page; the same term leaves the state as it is. The selection is kept either way. */
  function OnSearch(t: Table, term: string): (r: Table)
    ensures r.searchTerm == term
    ensures r.users == t.users && r.selectedRows == t.selectedRows
    ensures term != t.searchTerm ==> r.currentPage == 1
    ensures term == t.searchTerm ==> r == t
  {
    if term == t.searchTerm then t else t.(searchTerm := term, currentPage := 1)
  }

  /** `handlePageChange`: moves to the given page without checking it. */
  function OnPageChange(t: Table, page: int): (r: Table)
    ensures r.currentPage == page
    ensures r.users == t.users && r.searchTerm == t.searchTerm && r.selectedRows == t.selectedRows
    ensures Filtered(r) == Filtered(t)
  {
    t.(currentPage := page)
  }

  /** A click on a row's checkbox. */
  function OnRowSelect(t: Table, id: int): (r: Table)
    ensures r.users == t.users && r.searchTerm == t.searchTerm && r.currentPage == t.currentPage
    ensures id in r.selectedRows <==> id !in t.selectedRows
    ensures forall x :: x != id ==> (x in r.selectedRows <==> x in t.selectedRows)
  {
    t.(selectedRows := ToggleRow(t.selectedRows, id))
  }

  /** A click on the header checkbox: the selection becomes empty or exactly the current page's ids,
      and on a non-empty page the header checkbox flips. */
  function OnSelectAll(t: Table): (r: Table)
    ensures r.users == t.users && r.searchTerm == t.searchTerm && r.currentPage == t.currentPage
    ensures CurrentUsers(r) == CurrentUsers(t)
    ensures r.selectedRows == [] || r.selectedRows == Ids(CurrentUsers(t))
    ensures |CurrentUsers(t)| > 0 ==>
      (AllSelected(r.selectedRows, Ids(CurrentUsers(r))) <==> !AllSelected(t.selectedRows, Ids(CurrentUsers(t))))
  {
    var pageIds := Ids(CurrentUsers(t));
    t.(selectedRows := SelectAll(t.selectedRows, pageIds))
  }

  /** `handleBulkDelete`: every selected user goes, the rest keep their order, the selection
      is emptied and the page returns to 1. */
  function OnBulkDelete(t: Table): (r: Table)
    ensures forall id :: id in t.selectedRows ==> id !in Ids(r.users)
    ensures forall u :: u in r.users <==> u in t.users && u.id !in t.selectedRows
    ensures IsSubseq(r.users, t.users)
    ensures forall u :: multiset(r.users)[u] == if u.id !in t.selectedRows then multiset(t.users)[u] else 0
    ensures r.selectedRows == [] && r.currentPage == 1 && r.searchTerm == t.searchTerm
  {
    Table(RemoveSelected(t.users, t.selectedRows), t.searchTerm, 1, [])
  }

  /** `handleEditRow`: merges the patch into the users with the id and returns to page 1,
      even when no user has that id. */
  function OnEditRow(t: Table, id: int, patch: map<string, string>): (r: Table)
    ensures |r.users| == |t.users| && Ids(r.users) == Ids(t.users)
    ensures forall i :: 0 <= i < |t.users| && t.users[i].id != id ==> r.users[i] == t.users[i]
    ensures forall i :: 0 <= i < |t.users| && t.users[i].id == id ==> r.users[i] == Merge(t.users[i], patch)
    ensures r.currentPage == 1
    ensures r.searchTerm == t.searchTerm && r.selectedRows == t.selectedRows
  {
    t.(users := EditRow(t.users, id, patch), currentPage := 1)
  }

  /** `handleDeleteRow`: removes the users with the id and returns to page 1. The id stays in
      the selection if it was there. */
  function OnDeleteRow(t: Table, id: int): (r: Table)
    ensures id !in Ids(r.users)
    ensures forall u :: u in r.users <==> u in t.users && u.id != id
    ensures IsSubseq(r.users, t.users)
    ensures forall u :: multiset(r.users)[u] == if u.id != id then multiset(t.users)[u] else 0
    ensures r.currentPage == 1
    ensures r.searchTerm == t.searchTerm && r.selectedRows == t.selectedRows
  {
    t.(users := DeleteRow(t.users, id), currentPage := 1)
  }

  /** The pagination controls. */
  datatype NavButton = FirstButton | PrevButton | PageButton(page: int) | NextButton | LastButton

  /** A click on a pagination control. A disabled button does nothing, and numbered buttons
      exist only for pages 1 to PageCount. */
  function Navigate(t: Table, b: NavButton): (r: Table)
    ensures r.users == t.users && r.searchTerm == t.searchTerm && r.selectedRows == t.selectedRows
    ensures b == FirstButton ==> r.currentPage == 1
    ensures b == PrevButton ==> r.currentPage == if t.currentPage == 1 then 1 else t.currentPage - 1
    ensures b.PageButton? && 1 <= b.page <= PageCount(t) ==> r.currentPage == b.page
    ensures b.PageButton? && !(1 <= b.page <= PageCount(t)) ==> r == t
    ensures b == NextButton ==>
      r.currentPage == if t.currentPage * PageSize < |Filtered(t)| then t.currentPage + 1 else t.currentPage
    ensures b == LastButton && t.currentPage * PageSize < |Filtered(t)| ==> r.currentPage == PageCount(t)
    ensures (b == FirstButton || b == PrevButton) && t.currentPage == 1 ==> r == t
    ensures (b == NextButton || b == LastButton) && t.currentPage * PageSize >= |Filtered(t)| ==> r == t
  {
    var page := t.currentPage;
    var total := |Filtered(t)|;
    match b
    case FirstButton => if FirstPrevDisabled(page) then t else OnPageChange(t, 1)
    case PrevButton => if FirstPrevDisabled(page) then t else OnPageChange(t, page - 1)
    case PageButton(n) => if 1 <= n <= PageCount(t) then OnPageChange(t, n) else t
    case NextButton => if NextLastDisabled(page, total) then t else OnPageChange(t, page + 1)
    case LastButton => if NextLastDisabled(page, total) then t else OnPageChange(t, PageCount(t))
  }

  /** The pagination controls never lead off the reachable pages. */
  lemma NavigateKeepsPageInRange(t: Table, b: NavButton)
    requires PageInRange(t)
    ensures PageInRange(Navigate(t, b))
  {
  }

  /** Everything the user can do to the table. */
  datatype Event =
    | Search(term: string)
    | Nav(button: NavButton)
    | SelectRow(id: int)
    | SelectAllRows
    | DeleteSelected
    | EditUser(id: int, patch: map<string, string>)
    | DeleteUser(id: int)

  /** One event's effect on the table. Paging and selecting never touch the user list or the
      term; the search never touches the user list or the selection; the three list-changing
      events keep the term and return to page 1. */
  function Apply(t: Table, e: Event): (r: Table)
    ensures e.Search? ==> r.searchTerm == e.term && r.users == t.users && r.selectedRows == t.selectedRows
    ensures e.Nav? ==> r.users == t.users && r.searchTerm == t.searchTerm && r.selectedRows == t.selectedRows
    ensures e.SelectRow? || e.SelectAllRows? ==>
      r.users == t.users && r.searchTerm == t.searchTerm && r.currentPage == t.currentPage
    ensures e.DeleteSelected? || e.EditUser? || e.DeleteUser? ==> r.searchTerm == t.searchTerm && r.currentPage == 1
    ensures e.DeleteSelected? ==> r.selectedRows == []
    ensures e.EditUser? || e.DeleteUser? ==> r.selectedRows == t.selectedRows
  {
    match e
    case Search(term) => OnSearch(t, term)
    case Nav(b) => Navigate(t, b)
    case SelectRow(id) => OnRowSelect(t, id)
    case SelectAllRows => OnSelectAll(t)
    case DeleteSelected => OnBulkDelete(t)
    case EditUser(id, patch) => OnEditRow(t, id, patch)
    case DeleteUser(id) => OnDeleteRow(t, id)
  }

  /** Whenever an event changes the user list or the search term, the page is back at 1. */
  lemma ApplyResetsPage(t: Table, e: Event)
    ensures var r := Apply(t, e);
      r.users != t.users || r.searchTerm != t.searchTerm ==> r.currentPage == 1
  {
  }

  /** No event takes the page out of the reachable range. */
  lemma ApplyKeepsPageInRange(t: Table, e: Event)
    requires PageInRange(t)
    ensures PageInRange(Apply(t, e))
  {
  }

  /** No event makes two users share an id. */
  lemma {:induction false} ApplyKeepsUniqueIds(t: Table, e: Event)
    requires UniqueIds(t.users)
    ensures UniqueIds(Apply(t, e).users)
  {
    var r := Apply(t, e);
    if e.DeleteSelected? || e.DeleteUser? {
      SubseqUniqueIds(r.users, t.users);
    }
  }

  /** With unique user ids, the rows on the current page have unique ids. */
  lemma PageIdsUnique(t: Table)
    requires UniqueIds(t.users)
    ensures NoDup(Ids(CurrentUsers(t)))
  {
    var f := Filtered(t);
    SubseqUniqueIds(f, t.users);
    var start, end := (t.currentPage - 1) * PageSize, t.currentPage * PageSize;
    var lo, hi := ClampIndex(start, |f|), ClampIndex(end, |f|);
    var page := CurrentUsers(t);
    if lo < hi {
      assert page == f[lo..hi];
      forall i, j | 0 <= i < j < |page|
        ensures Ids(page)[i] != Ids(page)[j]
      {
        assert Ids(page)[i] == Ids(f)[lo + i] && Ids(page)[j] == Ids(f)[lo + j];
      }
    }
  }

  /** With unique user ids, no event makes the selection hold an id twice. */
  lemma ApplyKeepsSelectionNoDup(t: Table, e: Event)
    requires UniqueIds(t.users) && NoDup(t.selectedRows)
    ensures NoDup(Apply(t, e).selectedRows)
  {
    if e.SelectAllRows? {
      PageIdsUnique(t);
    }
  }

  /** While rows match the search, a page in range always shows at least one of them. */
  lemma CurrentPageShowsRows(t: Table)
    requires PageInRange(t) && |Filtered(t)| > 0
    ensures |CurrentUsers(t)| > 0
  {
  }

  /** Twelve users with ids 1 to 12: page 1 shows ids 1 to 10; next moves to page 2, which
      shows ids 11 and 12 and on which next is disabled. */
  lemma TwelveUsersScenario()
    ensures var t1 := Loaded(seq(12, i requires 0 <= i < 12 => User(i + 1, map[])));
      var t2 := Navigate(t1, NextButton);
      && Ids(CurrentUsers(t1)) == [1, 2, 3, 4, 5, 6, 7, 8, 9, 10]
      && t2.currentPage == 2
      && Ids(CurrentUsers(t2)) == [11, 12]
      && NextLastDisabled(t2.currentPage, |Filtered(t2)|)
      && PageCount(t2) == 2
  {
  }
  /** Searching "admin" keeps a user whose role is "Admin" and drops one with no field
      containing it in any case. */
  lemma AdminSearchScenario()
    ensures var a := User(1, map["name" := "Aaron", "role" := "Admin"]);
      var b := User(2, map["name" := "Bea", "role" := "member"]);
      Filtered(OnSearch(Loaded([a, b]), "admin")) == [a]
  {
    var a := User(1, map["name" := "Aaron", "role" := "Admin"]);
    var b := User(2, map["name" := "Bea", "role" := "member"]);
    assert Lower("admin") == "admin";
    assert Lower("Admin") == "admin";
    assert a.fields["role"] == "Admin";
    assert "Admin" in SearchableValues(a);
    assert Contains("admin", "admin");
    assert Matches(a, "admin");
    assert IntToDecimal(2) == "2";
    forall v | v in SearchableValues(b)
      ensures !Contains(Lower(v), "admin")
    {
      if v in b.fields.Values {
        var k :| k in b.fields && b.fields[k] == v;
        assert k == "name" || k == "role";
      }
      assert v == "2" || v == "Bea" || v == "member";
      if v == "member" {
        assert Lower(v) == "member";
        assert "member"[..5] != "admin" by { assert "member"[0] != "admin"[0]; }
        assert "member"[1..] == "ember";
        assert "ember"[..5] != "admin" by { assert "ember"[0] != "admin"[0]; }
        assert "ember"[1..] == "mber";
        assert !Contains("mber", "admin");
      } else {
        assert |Lower(v)| < 5;
      }
    }
    assert !Matches(b, "admin");
    assert [a, b] == [a] + [b];
    FilterUsersAppend([a], [b], "admin");
  }
}
