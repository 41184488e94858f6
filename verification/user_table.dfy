/**
 The table component (`UserTable`): the row-edit state machine, the values
 shown in a row's inputs while it is edited, the row checkbox and
 highlight, and the header "all selected" checkbox.
 */
module UserTable {
  import opened Seqs
  import opened Users
  import opened Selection

  datatype Option<T> = None | Some(value: T)

  /** Either no row is being edited, or exactly one row is, with the draft of its fields. */
  datatype EditState = Viewing | Editing(row: int, draft: map<string, string>)

  /** The `onEdit(id, data)` call a save hands up to the table state. */
  datatype EditIntent = EditIntent(id: int, patch: map<string, string>)

  /** The editable columns, in display order. */
  const Columns: seq<string> := ["name", "email", "role"]

  /** A field as rendered: an absent field shows as empty text. */
  function FieldText(fields: map<string, string>, name: string): string {
    if name in fields then fields[name] else ""
  }

  /** `handleEditClick`: the clicked row becomes the one being edited, its full data the draft.
      A draft for another row is abandoned. */
  function EditClick(s: EditState, u: User): (r: EditState)
    ensures r.Editing? && r.row == u.id && r.draft == u.fields
  {
    Editing(u.id, u.fields)
  }

  /** `handleEditInputChange`: one field of the draft takes the typed value; the row and every
      other draft field stay. Inputs exist only while a row is being edited. */
  function FieldChange(s: EditState, field: string, value: string): (r: EditState)
    ensures s.Viewing? ==> r == s
    ensures s.Editing? ==> r.Editing? && r.row == s.row && field in r.draft && r.draft[field] == value
    ensures s.Editing? ==> forall k :: k != field ==> (k in r.draft <==> k in s.draft)
    ensures s.Editing? ==> forall k :: k != field && k in s.draft ==> r.draft[k] == s.draft[k]
  {
    match s
    case Viewing => s
    case Editing(row, draft) => Editing(row, draft[field := value])
  }

  /** `handleSaveClick`: hands the draft up exactly as held, empty fields included, and leaves
      editing. The save button exists only on the row being edited. */
  function Save(s: EditState): (r: (EditState, Option<EditIntent>))
    ensures r.0 == Viewing
    ensures s.Editing? ==> r.1 == Some(EditIntent(s.row, s.draft))
    ensures s.Viewing? ==> r.1 == None
  {
    match s
    case Viewing => (Viewing, None)
    case Editing(row, draft) => (Viewing, Some(EditIntent(row, draft)))
  }

  /** `handleCancelClick`: leaves editing and discards the draft, handing nothing up. */
  function Cancel(s: EditState): (r: EditState)
    ensures r == Viewing
  {
    Viewing
  }

  /** The value shown in an input of the row being edited: `draft[field] || row[field]`.
      A draft field that is absent or empty shows the row's own value instead. */
  function InputValue(draft: map<string, string>, u: User, field: string): (v: string)
    ensures field in draft && draft[field] != "" ==> v == draft[field]
    ensures (field !in draft || draft[field] == "") ==> v == FieldText(u.fields, field)
  {
    var d := FieldText(draft, field);
    if d != "" then d else FieldText(u.fields, field)
  }

  /** What one row shows. */
  datatype RowView = RowView(checked: bool, highlighted: bool, editing: bool, cells: seq<string>)

  /** The rendering of one row: checked and grey exactly when its id is selected, in edit mode
      exactly when it is the row being edited, cells taken from the draft (with the fallback of
      `InputValue`) in edit mode and from the row otherwise. */
  function RenderRow(u: User, selectedRows: seq<int>, s: EditState): (v: RowView)
    ensures v.checked <==> u.id in selectedRows
    ensures v.highlighted <==> u.id in selectedRows
    ensures v.editing <==> s.Editing? && s.row == u.id
    ensures |v.cells| == |Columns|
    ensures forall c :: 0 <= c < |Columns| && !v.editing ==> v.cells[c] == FieldText(u.fields, Columns[c])
    ensures forall c :: 0 <= c < |Columns| && v.editing ==> v.cells[c] == InputValue(s.draft, u, Columns[c])
  {
    var selected := u.id in selectedRows;
    var editing := s.Editing? && s.row == u.id;
    var cells := Map((name: string) => if editing then InputValue(s.draft, u, name) else FieldText(u.fields, name), Columns);
    RowView(selected, selected, editing, cells)
  }

  /** The header checkbox: as many selected ids as rows on the page, and at least one row. */
  function HeaderChecked(selectedRows: seq<int>, rows: seq<User>): (b: bool)
    ensures b <==> |selectedRows| == |rows| && |rows| > 0
  {
    AllSelected(selectedRows, Ids(rows))
  }

  /** When the selection holds only ids of the page's rows and nothing is repeated, the header
      is checked exactly when every row on the page is checked. */
  lemma HeaderMatchesRowChecks(selectedRows: seq<int>, rows: seq<User>, s: EditState)
    requires NoDup(selectedRows) && UniqueIds(rows)
    requires forall x :: x in selectedRows ==> x in Ids(rows)
    ensures HeaderChecked(selectedRows, rows)
        <==> |rows| > 0 && forall i :: 0 <= i < |rows| ==> RenderRow(rows[i], selectedRows, s).checked
  {
    var ids := Ids(rows);
    LengthMatchesMembership(selectedRows, ids);
    if forall i :: 0 <= i < |rows| ==> RenderRow(rows[i], selectedRows, s).checked {
      forall x | x in ids
        ensures x in selectedRows
      {
        var i :| 0 <= i < |ids| && ids[i] == x;
        assert RenderRow(rows[i], selectedRows, s).checked;
      }
    }
    if forall x :: x in ids ==> x in selectedRows {
      forall i | 0 <= i < |rows|
        ensures RenderRow(rows[i], selectedRows, s).checked
      {
        assert ids[i] == rows[i].id;
      }
    }
  }

  /** Among rows with distinct ids, at most one is in edit mode. */
  lemma AtMostOneRowEditing(rows: seq<User>, selectedRows: seq<int>, s: EditState, i: int, j: int)
    requires UniqueIds(rows)
    requires 0 <= i < |rows| && 0 <= j < |rows|
    requires RenderRow(rows[i], selectedRows, s).editing && RenderRow(rows[j], selectedRows, s).editing
    ensures i == j
  {
    assert Ids(rows)[i] == Ids(rows)[j];
  }

  /** Opening a row for editing and saving without changes hands up the row's own data. */
  lemma EditClickThenSave(s: EditState, u: User)
    ensures Save(EditClick(s, u)) == (Viewing, Some(EditIntent(u.id, u.fields)))
  {
  }

  /** Opening a row for editing and cancelling hands up nothing, whatever was typed. */
  lemma EditThenCancel(s: EditState, u: User, field: string, value: string)
    ensures Cancel(FieldChange(EditClick(s, u), field, value)) == Viewing
  {
  }

  /** Clearing a field: the input goes on showing the row's old value, but the draft that save
      hands up holds the empty string for that field. */
  lemma ClearedFieldShowsOldValueButSavesEmpty(s: EditState, u: User, field: string)
    requires field in u.fields && u.fields[field] != ""
    ensures var e := FieldChange(EditClick(s, u), field, "");
      && InputValue(e.draft, u, field) == u.fields[field]
      && Save(e).1.Some?
      && Save(e).1.value.id == u.id
      && Save(e).1.value.patch == u.fields[field := ""]
  {
  }
}
