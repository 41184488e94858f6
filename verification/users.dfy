/**
 User records and the list operations the dashboard applies to the
 canonical user list: the search filter, the field-merging edit, the
 single-row delete and the bulk delete of selected ids.
 */
module Users {
  import opened Seqs
  import opened Text

  /** One row of the table. Every field other than the id (name, email, role and
      anything else the record carries) is a string under its field name. The id is kept
      apart from the other fields, so `fields` is taken never to hold the key "id": a record
      whose id also appears there as a string field has no counterpart in this model. */
  datatype User = User(id: int, fields: map<string, string>)

  /** The texts the search box is matched against: the id and every field value. */
  function SearchableValues(u: User): (r: set<string>)
    ensures IntToDecimal(u.id) in r
    ensures forall k :: k in u.fields ==> u.fields[k] in r
    ensures forall v :: v in r ==> v == IntToDecimal(u.id) || exists k :: k in u.fields && u.fields[k] == v
  {
    {IntToDecimal(u.id)} + u.fields.Values
  }

  /** Some searchable value of `u` contains `term`, ignoring case: the id's decimal text, or
      the value of some field, has the lowercased term at some position. */
  function Matches(u: User, term: string): (b: bool)
    ensures b <==>
      (exists i :: OccursAt(Lower(IntToDecimal(u.id)), Lower(term), i)) ||
      (exists k, i :: k in u.fields && OccursAt(Lower(u.fields[k]), Lower(term), i))
  {
    MatchesByPosition(u, term);
    exists v :: v in SearchableValues(u) && Contains(Lower(v), Lower(term))
  }

  /** Matching a value by the scanning `Contains` is the same as matching it at a position:
      the id's text and the field values are exactly the searchable values. */
  lemma MatchesByPosition(u: User, term: string)
    ensures (exists v :: v in SearchableValues(u) && Contains(Lower(v), Lower(term))) <==>
      (exists i :: OccursAt(Lower(IntToDecimal(u.id)), Lower(term), i)) ||
      (exists k, i :: k in u.fields && OccursAt(Lower(u.fields[k]), Lower(term), i))
  {
    var t := Lower(term);
    var idText := IntToDecimal(u.id);
    ContainsIffOccurs(Lower(idText), t);
    forall k | k in u.fields {
      ContainsIffOccurs(Lower(u.fields[k]), t);
    }
    if exists v :: v in SearchableValues(u) && Contains(Lower(v), t) {
      var v :| v in SearchableValues(u) && Contains(Lower(v), t);
      ContainsIffOccurs(Lower(v), t);
      if v != idText {
        var k :| k in u.fields && u.fields[k] == v;
      }
    }
    if exists k, i :: k in u.fields && OccursAt(Lower(u.fields[k]), t, i) {
      var k, i :| k in u.fields && OccursAt(Lower(u.fields[k]), t, i);
      assert u.fields[k] in SearchableValues(u);
    }
  }

  /** The filtered list: the users matching the search term, in their original order. */
  function FilterUsers(users: seq<User>, term: string): (r: seq<User>)
    ensures forall u :: u in r <==> u in users && Matches(u, term)
    ensures IsSubseq(r, users)
  {
    Filter(u => Matches(u, term), users)
  }

  /** Every user matches the empty term, because every user has an id. */
  lemma EveryoneMatchesEmpty(u: User)
    ensures Matches(u, "")
  {
    ContainsEmpty(Lower(IntToDecimal(u.id)));
    assert IntToDecimal(u.id) in SearchableValues(u);
  }

  /** An empty search term leaves the list exactly as it is. */
  lemma FilterEmptyTerm(users: seq<User>)
    ensures FilterUsers(users, "") == users
  {
    forall u | u in users
      ensures Matches(u, "")
    {
      EveryoneMatchesEmpty(u);
    }
    FilterKeepsAll(u => Matches(u, ""), users);
  }

  /** A user occurs in the filtered list exactly as often as in the full list when it
      matches, and not at all otherwise. */
  lemma FilterUsersCount(users: seq<User>, term: string, u: User)
    ensures multiset(FilterUsers(users, term))[u] == if Matches(u, term) then multiset(users)[u] else 0
  {
    FilterCount(v => Matches(v, term), users, u);
  }

  /** Filtering a concatenation filters each part: the kept users stay in their original order. */
  lemma FilterUsersAppend(a: seq<User>, b: seq<User>, term: string)
    ensures FilterUsers(a + b, term) == FilterUsers(a, term) + FilterUsers(b, term)
  {
    FilterAppend(u => Matches(u, term), a, b);
  }

  /** The search is case-insensitive: a term and its lowercase form select the same users. */
  lemma FilterCaseInsensitive(users: seq<User>, term: string)
    ensures FilterUsers(users, Lower(term)) == FilterUsers(users, term)
  {
    LowerIdempotent(term);
    FilterSameTest(u => Matches(u, Lower(term)), u => Matches(u, term), users);
  }

  /** The ids of a list of users, position by position. */
  function Ids(us: seq<User>): (r: seq<int>)
    ensures |r| == |us|
    ensures forall i :: 0 <= i < |us| ==> r[i] == us[i].id
  {
    Map((u: User) => u.id, us)
  }

  /** No two users share an id. */
  predicate UniqueIds(us: seq<User>) {
    NoDup(Ids(us))
  }

  /** The ids of a sublist of a list with unique ids are unique. */
  lemma SubseqUniqueIds(a: seq<User>, b: seq<User>)
    requires IsSubseq(a, b) && UniqueIds(b)
    ensures UniqueIds(a)
  {
    SubseqMap((u: User) => u.id, a, b);
    SubseqNoDup(Ids(a), Ids(b));
  }

  /** `{ ...user, ...patch }`: the patch's fields win, the user's other fields stay. */
  function Merge(u: User, patch: map<string, string>): (v: User)
    ensures v.id == u.id
    ensures v.fields.Keys == u.fields.Keys + patch.Keys
    ensures forall k :: k in patch ==> v.fields[k] == patch[k]
    ensures forall k :: k in u.fields && k !in patch ==> v.fields[k] == u.fields[k]
  {
    u.(fields := u.fields + patch)
  }

  /** Merging a user's own fields back into it changes nothing. */
  lemma MergeOwnFields(u: User)
    ensures Merge(u, u.fields) == u
  {
  }

  /** The edit of `handleEditRow`: the patch is merged into every user with the given id;
      the list keeps its length, its ids and every other user. */
  function EditRow(users: seq<User>, id: int, patch: map<string, string>): (r: seq<User>)
    ensures |r| == |users|
    ensures Ids(r) == Ids(users)
    ensures forall i :: 0 <= i < |users| && users[i].id != id ==> r[i] == users[i]
    ensures forall i :: 0 <= i < |users| && users[i].id == id ==> r[i] == Merge(users[i], patch)
  {
    Map((u: User) => if u.id == id then Merge(u, patch) else u, users)
  }

  /** Editing an id that is not in the list leaves the list unchanged. */
  lemma EditAbsentIsNoop(users: seq<User>, id: int, patch: map<string, string>)
    requires id !in Ids(users)
    ensures EditRow(users, id, patch) == users
  {
  }

  /** A one-field patch changes exactly that field of the edited user and nothing else anywhere. */
  lemma EditSingleField(users: seq<User>, id: int, field: string, value: string, i: int)
    requires 0 <= i < |users| && users[i].id == id
    ensures EditRow(users, id, map[field := value])[i].fields == users[i].fields[field := value]
  {
  }

  /** On a list with unique ids, saving a user's own data back is a no-op. */
  lemma EditWithOwnFieldsIsNoop(users: seq<User>, u: User)
    requires UniqueIds(users) && u in users
    ensures EditRow(users, u.id, u.fields) == users
  {
    var r := EditRow(users, u.id, u.fields);
    var k :| 0 <= k < |users| && users[k] == u;
    forall i | 0 <= i < |users| && users[i].id == u.id
      ensures users[i] == u
    {
      assert Ids(users)[i] == Ids(users)[k];
    }
    forall i | 0 <= i < |users|
      ensures r[i] == users[i]
    {
      if users[i].id == u.id {
        MergeOwnFields(u);
      }
    }
  }

  /** The delete of `handleDeleteRow`: every user with the id goes, everyone else stays in order. */
  function DeleteRow(users: seq<User>, id: int): (r: seq<User>)
    ensures forall u :: u in r <==> u in users && u.id != id
    ensures IsSubseq(r, users)
    ensures id !in Ids(r)
    ensures forall u :: multiset(r)[u] == if u.id != id then multiset(users)[u] else 0
  {
    FilterCounts((u: User) => u.id != id, users);
    Filter((u: User) => u.id != id, users)
  }

  /** Deleting an id that is not in the list leaves the list unchanged. */
  lemma DeleteAbsentIsNoop(users: seq<User>, id: int)
    requires id !in Ids(users)
    ensures DeleteRow(users, id) == users
  {
    forall u | u in users
      ensures u.id != id
    {
      var i :| 0 <= i < |users| && users[i] == u;
      assert Ids(users)[i] == u.id;
    }
    FilterKeepsAll((u: User) => u.id != id, users);
  }

  /** The bulk delete of `handleBulkDelete`: every user whose id is selected goes, everyone
      else stays in order. */
  function RemoveSelected(users: seq<User>, selected: seq<int>): (r: seq<User>)
    ensures forall u :: u in r <==> u in users && u.id !in selected
    ensures IsSubseq(r, users)
    ensures forall id :: id in selected ==> id !in Ids(r)
    ensures forall u :: multiset(r)[u] == if u.id !in selected then multiset(users)[u] else 0
  {
    FilterCounts((u: User) => u.id !in selected, users);
    Filter((u: User) => u.id !in selected, users)
  }
}
