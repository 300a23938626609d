/** The certificate request forms of the baptism, wedding and funeral pages.
    Each page carries its own copy of `updateRequestFormStatus(id, status,
    otherData)` and hands the ready button two callbacks: "set as ready" writes
    the ready status, "collected" writes the released status together with the
    release form's values. The model writes this once, over the form's
    collection. A form goes pending (or no status) -> ready -> released. */
module RequestForms {
  import opened Wrappers
  import opened Json
  import opened Store
  import opened Session
  import TableActions
  import Notifications
  import RowWrites

  datatype Form = Baptism | Wedding | Funeral

  function PathOf(f: Form): (p: Path)
    ensures p != Notification
  {
    match f
    case Baptism => BaptismRequestForm
    case Wedding => WeddingRequestForm
    case Funeral => FuneralRequestForm
  }

  /** The notification type the form's ready button sends. */
  function TypeOf(f: Form): Notifications.NotificationType {
    match f
    case Baptism => Notifications.BaptismRequestForm
    case Wedding => Notifications.WeddingRequestForm
    case Funeral => Notifications.FuneralRequestForm
  }

  const STATUS := "status"

  /** `{ status, ...otherData }`: the status, and the release form's values when
      there are any. */
  function StatusPatch(status: string, otherData: Option<TableActions.Release>): (d: Doc)
    ensures STATUS in d && d[STATUS] == Str(status)
    ensures otherData.None? ==> d.Keys == {STATUS}
    ensures otherData.Some? ==>
      && d.Keys == {STATUS, "releasedTo", "releasedDate"}
      && d["releasedTo"] == Str(otherData.value.releasedTo)
      && d["releasedDate"] == Str(otherData.value.releasedDate)
    ensures !HasUndefined(d)
  {
    map[STATUS := Str(status)] + (if otherData.Some? then TableActions.ReleaseDoc(otherData.value) else map[])
  }

  /** `updateRequestFormStatus(id, status, otherData)`: nothing for an empty
      id; otherwise one patch with the status and the release data together. */
  function UpdateStatus(f: Form, id: string, status: string, otherData: Option<TableActions.Release>): (ws: seq<Write>)
    ensures ws == [] <==> id == ""
    ensures ws != [] ==> ws == [PatchDoc(PathOf(f), id, StatusPatch(status, otherData))]
  {
    if id == "" then [] else [PatchDoc(PathOf(f), id, StatusPatch(status, otherData))]
  }

  /** The `onSetAsReady` callback of a row. */
  function OnSetAsReady(f: Form, row: Doc): seq<Write> {
    UpdateStatus(f, RowWrites.RowId(row), TableActions.READY, None)
  }

  /** The `onSetAsCollected` callback of a row. */
  function OnSetAsCollected(f: Form, row: Doc, r: TableActions.Release): seq<Write> {
    UpdateStatus(f, RowWrites.RowId(row), TableActions.RELEASED, Some(r))
  }

  /** Clicking "Set as ready" on a row: the notification, then the callback. */
  function SetAsReady(f: Form, row: Doc, today: string): (ws: seq<Write>)
    ensures |ws| >= 1 && ws[0].CreateDoc? && ws[0].path == Notification
    ensures ws[1..] == OnSetAsReady(f, row)
  {
    TableActions.SetReady(TypeOf(f), Get(row, "userId"), today, OnSetAsReady(f, row))
  }

  /** Submitting the release form on a row. */
  function SetAsCollected(f: Form, row: Doc, today: string, r: TableActions.Release): (res: Result<seq<Write>, string>)
    ensures res.Err? <==> |r.releasedTo| < 2
    ensures res.Ok? ==> |res.value| >= 1 && res.value[1..] == OnSetAsCollected(f, row, r)
    ensures res.Ok? ==> res.value[0] == CreateDoc(Notification, TableActions.NotificationFor(
      TypeOf(f), TableActions.RELEASE_PREFIX + r.releasedTo, Get(row, "userId"), today))
  {
    TableActions.SubmitRelease(TypeOf(f), Get(row, "userId"), today, r, OnSetAsCollected(f, row, r))
  }

  lemma SetAsReadyWrites(f: Form, row: Doc, today: string)
    requires RowWrites.RowId(row) != ""
    ensures SetAsReady(f, row, today) == [
      CreateDoc(Notification, TableActions.NotificationFor(TypeOf(f), TableActions.READY_MESSAGE, Get(row, "userId"), today)),
      PatchDoc(PathOf(f), RowWrites.RowId(row), StatusPatch(TableActions.READY, None))]
  {
  }

  lemma SetAsCollectedWrites(f: Form, row: Doc, today: string, r: TableActions.Release)
    requires RowWrites.RowId(row) != "" && |r.releasedTo| >= 2
    ensures SetAsCollected(f, row, today, r) == Ok([
      CreateDoc(Notification, TableActions.NotificationFor(TypeOf(f), TableActions.RELEASE_PREFIX + r.releasedTo, Get(row, "userId"), today)),
      PatchDoc(PathOf(f), RowWrites.RowId(row), StatusPatch(TableActions.RELEASED, Some(r)))])
  {
    var res := SetAsCollected(f, row, today, r);
    var note := CreateDoc(Notification, TableActions.NotificationFor(TypeOf(f), TableActions.RELEASE_PREFIX + r.releasedTo, Get(row, "userId"), today));
    var patch := PatchDoc(PathOf(f), RowWrites.RowId(row), StatusPatch(TableActions.RELEASED, Some(r)));
    assert res.Ok?;
    assert res.value[0] == note;
    assert res.value[1..] == [patch];
    assert res.value == [note, patch];
  }

  /** Setting a listed form as ready: the stored status becomes "ready" and
      nothing else in the row but the update stamp changes, and the ready button
      now offers the release form to an administrator. */
  lemma ReadyStep(db: Db, db': Db, f: Form, i: nat, today: string, now: string, s: State)
    requires WellFormed(db)
    requires i < |Coll(db, PathOf(f))| && ID !in Coll(db, PathOf(f))[i].doc
    requires db' == ApplyAll(db, SetAsReady(f, FetchAll(db, PathOf(f))[i], today), now)
    ensures RowWrites.ShowsPatched(db, db', PathOf(f), i, StatusPatch(TableActions.READY, None))
    ensures var row' := RowWrites.Refetched(db', PathOf(f), Coll(db, PathOf(f))[i].key);
      TableActions.ReadyButtonView(Get(row', STATUS), s) == (if IsSuperAdmin(s) then TableActions.SetAsReleased else TableActions.Hidden)
  {
    var p := PathOf(f);
    var row := FetchAll(db, p)[i];
    RowWrites.RowIdIsKey(db, p, i);
    SetAsReadyWrites(f, row, today);
    var data := TableActions.NotificationFor(TypeOf(f), TableActions.READY_MESSAGE, Get(row, "userId"), today);
    RowWrites.NotifyThenPatchListedRow(db, db', data, p, i, StatusPatch(TableActions.READY, None), now);
  }

  /** Releasing a listed form: the stored status becomes "released" and the
      recipient and date are stored with it in the same write; nothing else in
      the row but the update stamp changes, and the ready button now shows the
      inert "Released" label to an administrator. */
  lemma ReleaseStep(db: Db, db': Db, f: Form, i: nat, today: string, now: string, r: TableActions.Release, s: State)
    requires WellFormed(db) && |r.releasedTo| >= 2
    requires i < |Coll(db, PathOf(f))| && ID !in Coll(db, PathOf(f))[i].doc
    requires SetAsCollected(f, FetchAll(db, PathOf(f))[i], today, r).Ok?
    requires db' == ApplyAll(db, SetAsCollected(f, FetchAll(db, PathOf(f))[i], today, r).value, now)
    ensures RowWrites.ShowsPatched(db, db', PathOf(f), i, StatusPatch(TableActions.RELEASED, Some(r)))
    ensures var row' := RowWrites.Refetched(db', PathOf(f), Coll(db, PathOf(f))[i].key);
      && Get(row', "releasedTo") == Str(r.releasedTo)
      && Get(row', "releasedDate") == Str(r.releasedDate)
      && TableActions.ReadyButtonView(Get(row', STATUS), s) == (if IsSuperAdmin(s) then TableActions.ReleasedLabel else TableActions.Hidden)
  {
    var p := PathOf(f);
    var row := FetchAll(db, p)[i];
    RowWrites.RowIdIsKey(db, p, i);
    SetAsCollectedWrites(f, row, today, r);
    var data := TableActions.NotificationFor(TypeOf(f), TableActions.RELEASE_PREFIX + r.releasedTo, Get(row, "userId"), today);
    RowWrites.NotifyThenPatchListedRow(db, db', data, p, i, StatusPatch(TableActions.RELEASED, Some(r)), now);
  }

  /** A release whose recipient name is too short writes nothing at all. */
  lemma ShortNameWritesNothing(db: Db, f: Form, row: Doc, today: string, r: TableActions.Release)
    requires |r.releasedTo| < 2
    ensures SetAsCollected(f, row, today, r) == Err(TableActions.NAME_ERROR)
  {
  }
}
