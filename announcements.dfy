/** The admin form for announcements shown to customers: a start date, an end date and
    a description, either creating a new announcement or editing a loaded one. Dates
    are instants (minutes); the `announcements` table is a field, as is the next id
    the database would assign. */
module Announcements {
  import opened Text
  import opened Sequences

  datatype Announcement = Announcement(id: int, start: int, end: int, description: string)

  /** How `handleSave` ends, by the notice it shows. */
  datatype SaveOutcome = FillAllFields | EndBeforeStart | SaveFailed | Created | Updated

  function StartOfAnnouncement(a: Announcement): int { a.start }

  /** `.update(...).eq('id', id)`: the rows with that id get the new dates and text. */
  function UpdateRows(table: seq<Announcement>, id: int, start: int, end: int, text: string): (r: seq<Announcement>)
    ensures |r| == |table|
    ensures forall i :: 0 <= i < |table| ==>
      r[i] == if table[i].id == id then Announcement(id, start, end, text) else table[i]
  {
    seq(|table|, i requires 0 <= i < |table| =>
      if table[i].id == id then Announcement(id, start, end, text) else table[i])
  }

  /** `.delete().eq('id', id)`. */
  function DeleteRows(table: seq<Announcement>, id: int): (r: seq<Announcement>)
    ensures forall a :: a in r <==> a in table && a.id != id
    ensures Subsequence(r, table)
    ensures forall a :: multiset(r)[a] == if a.id != id then multiset(table)[a] else 0
  {
    if table == [] then []
    else
      assert table == [table[0]] + table[1..];
      var rest := DeleteRows(table[1..], id);
      if table[0].id == id then rest else [table[0]] + rest
  }

  class Form {
    var startDate: Option<int>
    var endDate: Option<int>
    var description: string
    var isEditing: bool
    var currentId: Option<int>
    /** The list shown, as last fetched. */
    var announcements: seq<Announcement>
    /** The `announcements` table. */
    var table: seq<Announcement>
    var nextId: int

    constructor(table: seq<Announcement>, nextId: int)
      ensures this.table == table && this.nextId == nextId && announcements == []
      ensures Empty()
    {
      this.table := table;
      this.nextId := nextId;
      announcements := [];
      startDate := None;
      endDate := None;
      description := "";
      isEditing := false;
      currentId := None;
    }

    /** The state `resetForm` leaves. */
    predicate Empty()
      reads this
    {
      startDate.None? && endDate.None? && description == "" && !isEditing && currentId.None?
    }

    /** `isEditing && currentAnnouncementId`: id 0 is falsy like `null`. */
    predicate Updating()
      reads this
    {
      isEditing && currentId.Some? && currentId.value != 0
    }

    method ResetForm()
      modifies this
      ensures Empty()
      ensures announcements == old(announcements) && table == old(table) && nextId == old(nextId)
    {
      startDate := None;
      endDate := None;
      description := "";
      isEditing := false;
      currentId := None;
    }

    /** `fetchAnnouncements`: the table ordered by start date; a failed read keeps the
        list as it was. */
    method FetchAnnouncements(fetchError: bool)
      modifies this
      ensures announcements == if fetchError then old(announcements) else SortBy(table, StartOfAnnouncement)
      ensures startDate == old(startDate) && endDate == old(endDate) && description == old(description)
      ensures isEditing == old(isEditing) && currentId == old(currentId)
      ensures table == old(table) && nextId == old(nextId)
    {
      if !fetchError {
        announcements := SortBy(table, StartOfAnnouncement);
      }
    }

    /** `handleSave`. Missing dates or a blank description, then a start after the end,
        are rejected with nothing changed; equal dates are accepted. Then the loaded
        announcement is updated when editing one with a (truthy) id, and a new one is
        inserted otherwise, both with the trimmed description. A failed write changes
        nothing; a successful one refreshes the list and empties the form. */
    method HandleSave(writeError: bool, fetchError: bool) returns (outcome: SaveOutcome)
      modifies this
      ensures old(startDate).None? || old(endDate).None? || Trim(old(description)) == [] <==> outcome == FillAllFields
      ensures outcome == EndBeforeStart <==>
        && old(startDate).Some? && old(endDate).Some? && Trim(old(description)) != []
        && old(startDate).value > old(endDate).value
      ensures outcome in {FillAllFields, EndBeforeStart, SaveFailed} ==>
        && table == old(table) && nextId == old(nextId) && announcements == old(announcements)
        && startDate == old(startDate) && endDate == old(endDate) && description == old(description)
        && isEditing == old(isEditing) && currentId == old(currentId)
      ensures outcome == Updated ==>
        && old(Updating()) && !writeError
        && table == UpdateRows(old(table), old(currentId).value, old(startDate).value, old(endDate).value,
                               Trim(old(description)))
        && nextId == old(nextId)
      ensures outcome == Created ==>
        && !old(Updating()) && !writeError
        && table == old(table) + [Announcement(old(nextId), old(startDate).value, old(endDate).value,
                                               Trim(old(description)))]
        && nextId == old(nextId) + 1
      ensures outcome in {Created, Updated} ==>
        && Empty()
        && announcements == (if fetchError then old(announcements) else SortBy(table, StartOfAnnouncement))
      ensures outcome == SaveFailed <==>
        && old(startDate).Some? && old(endDate).Some? && Trim(old(description)) != []
        && old(startDate).value <= old(endDate).value && writeError
    {
      if startDate.None? || endDate.None? || Trim(description) == [] {
        return FillAllFields;
      }
      var start, end := startDate.value, endDate.value;
      if start > end {
        return EndBeforeStart;
      }
      var text := Trim(description);
      if writeError {
        return SaveFailed;
      }
      if Updating() {
        table := UpdateRows(table, currentId.value, start, end, text);
        outcome := Updated;
      } else {
        table := table + [Announcement(nextId, start, end, text)];
        nextId := nextId + 1;
        outcome := Created;
      }
      FetchAnnouncements(fetchError);
      ResetForm();
    }

    /** `handleEdit`: the form takes the announcement's fields and edits its id. */
    method HandleEdit(a: Announcement)
      modifies this
      ensures startDate == Some(a.start) && endDate == Some(a.end) && description == a.description
      ensures isEditing && currentId == Some(a.id)
      ensures announcements == old(announcements) && table == old(table) && nextId == old(nextId)
    {
      startDate := Some(a.start);
      endDate := Some(a.end);
      description := a.description;
      isEditing := true;
      currentId := Some(a.id);
    }

    /** `handleDelete`: a failed delete changes nothing; otherwise the row goes, the
        list is refreshed, and the form is reset when it was editing that id. */
    method HandleDelete(id: int, deleteError: bool, fetchError: bool)
      modifies this
      ensures deleteError ==>
        && table == old(table) && announcements == old(announcements)
        && startDate == old(startDate) && endDate == old(endDate) && description == old(description)
        && isEditing == old(isEditing) && currentId == old(currentId)
      ensures !deleteError ==>
        && table == DeleteRows(old(table), id)
        && announcements == (if fetchError then old(announcements) else SortBy(table, StartOfAnnouncement))
      ensures !deleteError && old(currentId) == Some(id) ==> Empty()
      ensures !deleteError && old(currentId) != Some(id) ==>
        && startDate == old(startDate) && endDate == old(endDate) && description == old(description)
        && isEditing == old(isEditing) && currentId == old(currentId)
      ensures nextId == old(nextId)
    {
      if deleteError {
        return;
      }
      table := DeleteRows(table, id);
      FetchAnnouncements(fetchError);
      if currentId == Some(id) {
        ResetForm();
      }
    }
  }

  /** An update keeps the table's length and every row with another id; the rows with
      the id hold exactly the new fields. */
  lemma UpdateRowsSpec(table: seq<Announcement>, id: int, start: int, end: int, text: string)
    ensures forall a :: a in UpdateRows(table, id, start, end, text) ==>
              a == Announcement(id, start, end, text) || (a in table && a.id != id)
    ensures forall a :: a in table && a.id != id ==> a in UpdateRows(table, id, start, end, text)
    ensures (exists a :: a in table && a.id == id) ==>
              Announcement(id, start, end, text) in UpdateRows(table, id, start, end, text)
    ensures (forall a :: a in table ==> a.id != id) ==> UpdateRows(table, id, start, end, text) == table
  {
  }
}
