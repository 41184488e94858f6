/**
 The table state and the table component together: what an edit made in a
 row does to the user list once the component hands it up.
 */
module Dashboard {
  import opened Users
  import opened AdminTable
  import opened UserTable

  /** The table state together with the component's edit state. */
  datatype Ui = Ui(table: Table, edit: EditState)

  /** Save in the row being edited: the emitted intent, if any, is applied as `handleEditRow`. */
  function SaveRow(ui: Ui): (r: Ui)
    ensures r.edit == Viewing
    ensures ui.edit.Viewing? ==> r.table == ui.table
    ensures ui.edit.Editing? ==> r.table == OnEditRow(ui.table, ui.edit.row, ui.edit.draft)
  {
    var (edit, intent) := Save(ui.edit);
    match intent
    case None => Ui(ui.table, edit)
    case Some(EditIntent(id, patch)) => Ui(OnEditRow(ui.table, id, patch), edit)
  }

  /** Cancel in the row being edited: the table state is untouched. */
  function CancelRow(ui: Ui): (r: Ui)
    ensures r == Ui(ui.table, Viewing)
  {
    Ui(ui.table, Cancel(ui.edit))
  }

  /** Opening a row and saving it unchanged leaves the user list as it was (the page still
      returns to 1). */
  lemma SaveUnchangedKeepsUsers(t: Table, s: EditState, u: User)
    requires UniqueIds(t.users) && u in t.users
    ensures SaveRow(Ui(t, EditClick(s, u))).table.users == t.users
  {
    EditWithOwnFieldsIsNoop(t.users, u);
  }

  /** A field cleared in the editor is stored as the empty string, while every other field of
      the row and every other row keep their values. */
  lemma ClearedFieldIsStoredEmpty(t: Table, s: EditState, k: int, field: string)
    requires UniqueIds(t.users) && 0 <= k < |t.users|
    ensures var u := t.users[k];
      var r := SaveRow(Ui(t, FieldChange(EditClick(s, u), field, ""))).table;
      && r.users[k].fields == u.fields[field := ""]
      && forall i :: 0 <= i < |t.users| && i != k ==> r.users[i] == t.users[i]
  {
  }

  /** Whatever was typed, cancelling leaves the table state untouched. */
  lemma CancelKeepsTable(t: Table, s: EditState, u: User, field: string, value: string)
    ensures CancelRow(Ui(t, FieldChange(EditClick(s, u), field, value))) == Ui(t, Viewing)
  {
  }
}
