/** The announcements page: a drawer that adds an announcement or edits the
    selected one, and a delete button on every row with an id. The drawer's
    `content` state is a parameter (what the text editor last reported). */
module AnnouncementPage {
  import opened Wrappers
  import opened Json
  import opened Store
  import RowWrites

  const CONTENT := "content"
  const NO_ID_ERROR := "Selected announcement has no id"
  const EMPTY_ERROR := "Announcement cannot be empty"

  /** `handleSubmit()`: with a selected announcement, a patch of its content at
      its id (refused when it has none); otherwise the creation of a new one
      (refused when the content is empty). An edit may empty the content. */
  function Submit(selected: Option<Doc>, content: string): (res: Result<seq<Write>, string>)
    ensures res.Err? <==>
      (selected.Some? && !Truthy(Get(selected.value, ID))) || (selected.None? && content == "")
    ensures res.Err? ==> res.error == (if selected.Some? then NO_ID_ERROR else EMPTY_ERROR)
    ensures res.Ok? && selected.Some? ==>
      res.value == [PatchDoc(Announcements, RowWrites.RowId(selected.value), map[CONTENT := Str(content)])]
    ensures res.Ok? && selected.None? ==> res.value == [CreateDoc(Announcements, map[CONTENT := Str(content)])]
  {
    match selected
    case Some(row) =>
      if !Truthy(Get(row, ID)) then Err(NO_ID_ERROR)
      else Ok([PatchDoc(Announcements, RowWrites.RowId(row), map[CONTENT := Str(content)])])
    case None =>
      if content == "" then Err(EMPTY_ERROR)
      else Ok([CreateDoc(Announcements, map[CONTENT := Str(content)])])
  }

  /** Adding an announcement: the list gains one row at its end carrying the
      content, with a key the row's delete button can address; the other rows
      stay as they were. */
  lemma AddAppendsRow(db: Db, db': Db, content: string, now: string)
    requires WellFormed(db)
    requires Submit(None, content).Ok?
    requires db' == ApplyAll(db, Submit(None, content).value, now)
    ensures content != ""
    ensures WellFormed(db') && OthersUnchanged(db, db', Announcements)
    ensures RowWrites.ShowsCreated(db, db', Announcements, map[CONTENT := Str(content)])
    ensures Get(FetchAll(db', Announcements)[|FetchAll(db, Announcements)|], CONTENT) == Str(content)
  {
    RowWrites.CreateListedRow(db, db', Announcements, map[CONTENT := Str(content)], now);
  }

  /** Editing a listed announcement: its content becomes the drawer's content,
      even an empty one, and its other fields but the update stamp stay. */
  lemma EditReplacesContent(db: Db, db': Db, i: nat, content: string, now: string)
    requires WellFormed(db)
    requires i < |Coll(db, Announcements)| && ID !in Coll(db, Announcements)[i].doc
    requires db' == ApplyAll(db, Submit(Some(FetchAll(db, Announcements)[i]), content).value, now)
    ensures RowWrites.ShowsPatched(db, db', Announcements, i, map[CONTENT := Str(content)])
    ensures Get(RowWrites.Refetched(db', Announcements, Coll(db, Announcements)[i].key), CONTENT) == Str(content)
  {
    var patch := map[CONTENT := Str(content)];
    RowWrites.RowIdIsKey(db, Announcements, i);
    RowWrites.PatchListedRow(db, db', Announcements, i, patch, now);
    RowWrites.PatchedField(db, db', Announcements, i, patch, CONTENT);
  }

  /** Deleting a listed announcement drops exactly that row. */
  lemma DeleteDropsRow(db: Db, db': Db, i: nat, now: string)
    requires WellFormed(db)
    requires i < |Coll(db, Announcements)| && ID !in Coll(db, Announcements)[i].doc
    requires db' == ApplyAll(db, RowWrites.DeleteRow(Announcements, FetchAll(db, Announcements)[i]), now)
    ensures FetchAll(db', Announcements) == FetchAll(db, Announcements)[..i] + FetchAll(db, Announcements)[i + 1..]
  {
    RowWrites.RowIdIsKey(db, Announcements, i);
    RowWrites.DeleteListedRow(db, db', Announcements, i, now);
  }
}
