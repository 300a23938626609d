/** The liturgy appointment sections: eucharistic liturgy (mass) appointments on
    the mass page, and church and house liturgy appointments on the funeral
    page. All three carry the same `handleApprove`, `handleReject` and
    `assignPriest` handlers and the same `Priest` cell; the model writes them
    once, over the section's collection. Only the mass page hands the cell the
    row's `priestConfirmationStatus` (`CellStatus`).

    A super administrator decides the appointment (`status`), with a
    notification to the requester, and assigns a priest; a priest confirms or
    rejects the assignment (`priestConfirmationStatus`). */
module Liturgy {
  import opened Wrappers
  import opened Json
  import opened Store
  import opened Session
  import Fetcher
  import TableActions
  import Notifications
  import StatusBadge
  import UserFilterList
  import RowWrites

  datatype Section = Mass | ChurchLiturgy | HouseLiturgy

  function PathOf(sec: Section): (p: Path)
    ensures p != Notification
  {
    match sec
    case Mass => MassAppointments
    case ChurchLiturgy => ChurchLiturgyAppointment
    case HouseLiturgy => HouseLiturgyAppointment
  }

  /** The notification type a decision on the section sends. */
  function TypeOf(sec: Section): Notifications.NotificationType {
    match sec
    case Mass => Notifications.MassAppointment
    case ChurchLiturgy => Notifications.ChurchLiturgyAppointment
    case HouseLiturgy => Notifications.HouseLiturgyAppointment
  }

  const STATUS := "status"
  const PRIEST_ID := "priestId"
  const PRIEST_CONFIRMATION_STATUS := "priestConfirmationStatus"

  type Decision = TableActions.Decision

  /** The field a decision is about: the priest's confirmation for a priest,
      the appointment's status for the administrator. */
  function DecisionField(isConfirmation: bool): string {
    if isConfirmation then PRIEST_CONFIRMATION_STATUS else STATUS
  }

  /** `handleApprove(massId, isConfirmation)` and `handleReject(...)`: nothing
      for an empty id; otherwise a patch of that one field. */
  function Decide(sec: Section, massId: string, d: Decision, isConfirmation: bool): (ws: seq<Write>)
    ensures ws == [] <==> massId == ""
    ensures ws != [] ==>
      && |ws| == 1 && ws[0].PatchDoc? && ws[0].path == PathOf(sec) && ws[0].id == massId
      && ws[0].data.Keys == {DecisionField(isConfirmation)}
      && ws[0].data[DecisionField(isConfirmation)] == Str(TableActions.Outcome(d))
  {
    if massId == "" then []
    else [PatchDoc(PathOf(sec), massId, map[DecisionField(isConfirmation) := Str(TableActions.Outcome(d))])]
  }

  /** `assignPriest(massId, priestId, sendRequest)`: one patch setting the
      priest, whose confirmation is pending when a request is sent and approved
      otherwise. There is no empty-id guard here. */
  function AssignPriest(sec: Section, massId: string, priestId: string, sendRequest: bool): (ws: seq<Write>)
    ensures |ws| == 1 && ws[0].PatchDoc? && ws[0].path == PathOf(sec) && ws[0].id == massId
    ensures ws[0].data.Keys == {PRIEST_ID, PRIEST_CONFIRMATION_STATUS}
    ensures ws[0].data[PRIEST_ID] == Str(priestId)
    ensures ws[0].data[PRIEST_CONFIRMATION_STATUS] == Str(if sendRequest then TableActions.PENDING else TableActions.APPROVED)
  {
    [PatchDoc(PathOf(sec), massId, map[PRIEST_ID := Str(priestId),
      PRIEST_CONFIRMATION_STATUS := Str(if sendRequest then TableActions.PENDING else TableActions.APPROVED)])]
  }

  datatype Assignment = Assignment(priestId: string, sendConfirmationRequest: bool)

  /** `PriestModal.handleConfirm`: nothing while no priest is selected. */
  function ModalConfirm(selected: Option<string>, sendConfirmationRequest: bool): (r: Option<Assignment>)
    ensures r.None? <==> selected.None? || selected.value == ""
    ensures r.Some? ==> r.value == Assignment(selected.value, sendConfirmationRequest)
  {
    if selected.None? || selected.value == "" then None
    else Some(Assignment(selected.value, sendConfirmationRequest))
  }

  /** Confirming the modal on a row's priest cell: with a priest selected,
      `assignPriest(String(id), priestId, sendConfirmationRequest)`. */
  function AssignFromModal(sec: Section, row: Doc, selected: Option<string>, sendConfirmationRequest: bool): (ws: seq<Write>)
    ensures ws == [] <==> selected.None? || selected.value == ""
    ensures ws != [] ==> ws == AssignPriest(sec, RowWrites.RowId(row), selected.value, sendConfirmationRequest)
  {
    match ModalConfirm(selected, sendConfirmationRequest)
    case None => []
    case Some(a) => AssignPriest(sec, RowWrites.RowId(row), a.priestId, a.sendConfirmationRequest)
  }

  // ---------------------------------------------------------------------------
  // The priest cell (`Priest`)
  // ---------------------------------------------------------------------------

  /** `useFetchById("priests", priestId)`: the priest record, or nothing when
      the read finds none or fails. */
  function PriestOf(db: Db, priestId: Value): (r: Option<Doc>)
    ensures r.Some? ==> Fetcher.FetchById(db, Priests, priestId) == Ok(Some(r.value))
    ensures r.None? <==> !Fetcher.FetchById(db, Priests, priestId).Ok? || Fetcher.FetchById(db, Priests, priestId).value.None?
  {
    match Fetcher.FetchById(db, Priests, priestId)
    case Ok(Some(d)) => Some(d)
    case _ => None
  }

  /** The cell offers "Assign priest" to a super administrator while the row has
      no priest id or the id names no priest record. */
  predicate AssignShown(priest: Option<Doc>, priestId: Value, s: State) {
    (priest.None? || !Truthy(priestId)) && IsSuperAdmin(s)
  }

  /** `priest?.name`. */
  function PriestName(priest: Option<Doc>): Value {
    if priest.Some? then Get(priest.value, "name") else Undefined
  }

  /** `getPriestLabel()`: the name while nothing is pending, and a sentence
      naming the priest while the confirmation is pending or was rejected. An
      unknown confirmation status gives no label. */
  function PriestLabel(priest: Option<Doc>, status: Value): (r: Value)
    ensures !Truthy(status) ==> r == PriestName(priest)
    ensures status == Str(TableActions.APPROVED) ==> r == (if Truthy(PriestName(priest)) then PriestName(priest) else Str(""))
    ensures status == Str(TableActions.PENDING) ==> r == Str("Waiting for " + ToJsString(PriestName(priest)) + " to confirm")
    ensures status == Str(TableActions.REJECTED) ==> r == Str("Rejected by " + ToJsString(PriestName(priest)))
    ensures Truthy(status) && status !in {Str(TableActions.APPROVED), Str(TableActions.PENDING), Str(TableActions.REJECTED)} ==> r == Undefined
  {
    var name := PriestName(priest);
    if !Truthy(status) then name
    else if StrictEquals(status, SStr(TableActions.APPROVED)) then (if Truthy(name) then name else Str(""))
    else if StrictEquals(status, SStr(TableActions.PENDING)) then Str("Waiting for " + ToJsString(name) + " to confirm")
    else if StrictEquals(status, SStr(TableActions.REJECTED)) then Str("Rejected by " + ToJsString(name))
    else Undefined
  }

  /** `getColor()`: orange while pending, red once rejected, plain otherwise. */
  function PriestColor(status: Value): (r: Option<string>)
    ensures r == Some("orange") <==> status == Str(TableActions.PENDING)
    ensures r == Some("red") <==> status == Str(TableActions.REJECTED)
    ensures r.Some? ==> r == Some("orange") || r == Some("red")
  {
    if !Truthy(status) then None
    else if StrictEquals(status, SStr(TableActions.APPROVED)) then None
    else if StrictEquals(status, SStr(TableActions.PENDING)) then Some("orange")
    else if StrictEquals(status, SStr(TableActions.REJECTED)) then Some("red")
    else None
  }

  /** The confirmation status the row's priest cell is given: the row's own on
      the mass page, none (`undefined`) in the funeral page's sections. */
  function CellStatus(sec: Section, row: Doc): Value {
    if sec == Mass then Get(row, PRIEST_CONFIRMATION_STATUS) else Undefined
  }

  /** What a row's priest cell shows: its label and its colour. In the funeral
      sections the cell shows the bare name in the plain colour whatever the
      row's confirmation status. */
  function Cell(sec: Section, priest: Option<Doc>, row: Doc): (r: (Value, Option<string>))
    ensures sec == Mass ==> r == (PriestLabel(priest, Get(row, PRIEST_CONFIRMATION_STATUS)),
                                  PriestColor(Get(row, PRIEST_CONFIRMATION_STATUS)))
    ensures sec != Mass ==> r == (PriestName(priest), None)
  {
    (PriestLabel(priest, CellStatus(sec, row)), PriestColor(CellStatus(sec, row)))
  }

  /** The label names the priest in every state: it is the name itself, or a
      sentence holding the name's text right after its fixed opening words. */
  lemma PriestLabelNamesPriest(priest: Doc, status: Value, name: string)
    requires Get(priest, "name") == Str(name) && name != ""
    ensures status == Str(TableActions.PENDING) ==>
      PriestLabel(Some(priest), status).s[12..12 + |name|] == name
    ensures status == Str(TableActions.REJECTED) ==>
      PriestLabel(Some(priest), status).s[12..] == name
    ensures !Truthy(status) || status == Str(TableActions.APPROVED) ==> PriestLabel(Some(priest), status) == Str(name)
    ensures status == Str(TableActions.PENDING) || status == Str(TableActions.REJECTED) ==>
      PriestLabel(Some(priest), status) != PriestLabel(Some(priest), if status == Str(TableActions.PENDING) then Str(TableActions.REJECTED) else Str(TableActions.PENDING))
  {
    var w := "Waiting for " + name + " to confirm";
    var r := "Rejected by " + name;
    assert w[0] == 'W' && r[0] == 'R';
    assert w[12..12 + |name|] == name;
    assert r[12..] == name;
  }

  // ---------------------------------------------------------------------------
  // Actions offered on a row, and what they write
  // ---------------------------------------------------------------------------

  /** The action column of the section. */
  datatype Offer = NoAction | ApproveReject | ConfirmReject

  /** A super administrator gets approve/reject on the appointment's status;
      anyone else confirm/reject on the priest's confirmation. */
  function Offered(s: State, row: Doc): (o: Offer)
    ensures o == ApproveReject <==> TableActions.ApproveRejectShown(Get(row, STATUS), s)
    ensures o == ConfirmReject <==> !IsSuperAdmin(s) && TableActions.ConfirmRejectShown(Get(row, PRIEST_CONFIRMATION_STATUS))
  {
    if IsSuperAdmin(s) then
      (if TableActions.ApproveRejectShown(Get(row, STATUS), s) then ApproveReject else NoAction)
    else
      (if TableActions.ConfirmRejectShown(Get(row, PRIEST_CONFIRMATION_STATUS)) then ConfirmReject else NoAction)
  }

  /** The administrator's confirmed decision: notify the requester, then
      `handleApprove(String(row.id))` or `handleReject(...)`. The notification
      goes out even for a row whose id reads empty, which then gets no patch. */
  function AdminDecision(sec: Section, row: Doc, d: Decision, today: string): (ws: seq<Write>)
    ensures RowWrites.RowId(row) == "" ==> ws == [CreateDoc(Notification, AdminNote(sec, row, d, today))]
    ensures RowWrites.RowId(row) != "" ==> ws == [
      CreateDoc(Notification, AdminNote(sec, row, d, today)),
      PatchDoc(PathOf(sec), RowWrites.RowId(row), map[STATUS := Str(TableActions.Outcome(d))])]
  {
    TableActions.ConfirmDecision(TypeOf(sec), d, Get(row, "userId"), today,
                                 Decide(sec, RowWrites.RowId(row), d, false))
  }

  /** The priest's confirm or reject: `handleApprove(String(row.id), true)`. */
  function PriestDecision(sec: Section, row: Doc, d: Decision): (ws: seq<Write>)
    ensures ws == Decide(sec, RowWrites.RowId(row), d, true)
  {
    TableActions.ConfirmRequest(d, Decide(sec, RowWrites.RowId(row), TableActions.Approve, true),
                                Decide(sec, RowWrites.RowId(row), TableActions.Reject, true))
  }

  /** Deciding a listed appointment: the row is patched with the decision alone
      (every other field but the update stamp keeps its value), so its status
      is the decision, the badge shows the decision's colour, and the row offers
      the administrator no further approve or reject. */
  lemma AdminDecisionSettlesRow(db: Db, db': Db, sec: Section, i: nat, d: Decision, today: string, now: string, s: State)
    requires WellFormed(db)
    requires i < |Coll(db, PathOf(sec))| && ID !in Coll(db, PathOf(sec))[i].doc
    requires db' == ApplyAll(db, AdminDecision(sec, FetchAll(db, PathOf(sec))[i], d, today), now)
    ensures RowWrites.ShowsPatched(db, db', PathOf(sec), i, map[STATUS := Str(TableActions.Outcome(d))])
    ensures var row' := RowWrites.Refetched(db', PathOf(sec), Coll(db, PathOf(sec))[i].key);
      && Get(row', STATUS) == Str(TableActions.Outcome(d))
      && StatusBadge.Render(Get(row', STATUS)) == Some(StatusBadge.Badge(
           Some(if d == TableActions.Approve then "green" else "red"), TableActions.Outcome(d)))
      && Offered(s, row') != ApproveReject
  {
    var p := PathOf(sec);
    var row := FetchAll(db, p)[i];
    RowWrites.RowIdIsKey(db, p, i);
    NoteThenDecisionSettlesRow(db, db', AdminNote(sec, row, d, today), p, i, d, now, s);
  }

  /** The administrator's writes with the notification left abstract. */
  lemma NoteThenDecisionSettlesRow(db: Db, db': Db, note: Doc, p: Path, i: nat, d: Decision, now: string, s: State)
    requires WellFormed(db) && i < |Coll(db, p)| && p != Notification && !HasUndefined(note)
    requires db' == ApplyAll(db, [CreateDoc(Notification, note),
                                  PatchDoc(p, Coll(db, p)[i].key, map[STATUS := Str(TableActions.Outcome(d))])], now)
    ensures RowWrites.ShowsPatched(db, db', p, i, map[STATUS := Str(TableActions.Outcome(d))])
    ensures var row' := RowWrites.Refetched(db', p, Coll(db, p)[i].key);
      && Get(row', STATUS) == Str(TableActions.Outcome(d))
      && StatusBadge.Render(Get(row', STATUS)) == Some(StatusBadge.Badge(
           Some(if d == TableActions.Approve then "green" else "red"), TableActions.Outcome(d)))
      && Offered(s, row') != ApproveReject
  {
    var patch := map[STATUS := Str(TableActions.Outcome(d))];
    RowWrites.NotifyThenPatchListedRow(db, db', note, p, i, patch, now);
    RowWrites.PatchedField(db, db', p, i, patch, STATUS);
    DecidedStatus(d, s);
  }

  /** The notification an administrator's decision sends to the requester. */
  function AdminNote(sec: Section, row: Doc, d: Decision, today: string): Doc {
    TableActions.NotificationFor(TypeOf(sec), TableActions.DecisionMessage(TypeOf(sec), d), Get(row, "userId"), today)
  }

  lemma PriestDecisionWrites(sec: Section, row: Doc, d: Decision)
    requires RowWrites.RowId(row) != ""
    ensures PriestDecision(sec, row, d) == [PatchDoc(PathOf(sec), RowWrites.RowId(row), map[PRIEST_CONFIRMATION_STATUS := Str(TableActions.Outcome(d))])]
  {
  }

  /** A decided status: its badge colour, and no approve or reject on it. */
  lemma DecidedStatus(d: Decision, s: State)
    ensures StatusBadge.Render(Str(TableActions.Outcome(d))) == Some(StatusBadge.Badge(
      Some(if d == TableActions.Approve then "green" else "red"), TableActions.Outcome(d)))
    ensures !TableActions.ApproveRejectShown(Str(TableActions.Outcome(d)), s)
  {
  }

  /** A priest's answer to an assignment: the row is patched with the answer
      alone, the row offers the priest no further confirm or reject, and the
      priest keeps the row in their list after confirming and loses it after
      rejecting. */
  lemma PriestDecisionSettlesRow(db: Db, db': Db, sec: Section, i: nat, d: Decision, now: string, s: State, priestId: string)
    requires WellFormed(db)
    requires i < |Coll(db, PathOf(sec))| && ID !in Coll(db, PathOf(sec))[i].doc
    requires db' == ApplyAll(db, PriestDecision(sec, FetchAll(db, PathOf(sec))[i], d), now)
    ensures RowWrites.ShowsPatched(db, db', PathOf(sec), i, map[PRIEST_CONFIRMATION_STATUS := Str(TableActions.Outcome(d))])
    ensures var row' := RowWrites.Refetched(db', PathOf(sec), Coll(db, PathOf(sec))[i].key);
      && Offered(s, row') != ConfirmReject
      && (UserFilterList.AssignedTo(Obj(row'), priestId) <==>
            d == TableActions.Approve && Get(Coll(db, PathOf(sec))[i].doc, PRIEST_ID) == Str(priestId))
  {
    var p := PathOf(sec);
    var row := FetchAll(db, p)[i];
    RowWrites.RowIdIsKey(db, p, i);
    PriestDecisionWrites(sec, row, d);
    AnswerSettlesRow(db, db', p, i, d, now, s, priestId);
  }

  /** The priest's write with the collection left abstract. */
  lemma AnswerSettlesRow(db: Db, db': Db, p: Path, i: nat, d: Decision, now: string, s: State, priestId: string)
    requires WellFormed(db) && i < |Coll(db, p)|
    requires db' == ApplyAll(db, [PatchDoc(p, Coll(db, p)[i].key, map[PRIEST_CONFIRMATION_STATUS := Str(TableActions.Outcome(d))])], now)
    ensures RowWrites.ShowsPatched(db, db', p, i, map[PRIEST_CONFIRMATION_STATUS := Str(TableActions.Outcome(d))])
    ensures var row' := RowWrites.Refetched(db', p, Coll(db, p)[i].key);
      && Offered(s, row') != ConfirmReject
      && (UserFilterList.AssignedTo(Obj(row'), priestId) <==>
            d == TableActions.Approve && Get(Coll(db, p)[i].doc, PRIEST_ID) == Str(priestId))
  {
    var patch := map[PRIEST_CONFIRMATION_STATUS := Str(TableActions.Outcome(d))];
    RowWrites.PatchListedRow(db, db', p, i, patch, now);
    AnsweredRow(RowWrites.Refetched(db', p, Coll(db, p)[i].key), Coll(db, p)[i].doc, d, s, priestId);
  }

  lemma AnsweredRow(row': Doc, prev: Doc, d: Decision, s: State, priestId: string)
    requires Get(row', PRIEST_CONFIRMATION_STATUS) == Str(TableActions.Outcome(d))
    requires Get(row', PRIEST_ID) == Get(prev, PRIEST_ID)
    ensures Offered(s, row') != ConfirmReject
    ensures UserFilterList.AssignedTo(Obj(row'), priestId) <==>
      d == TableActions.Approve && Get(prev, PRIEST_ID) == Str(priestId)
  {
  }

  /** Assigning a priest to a listed appointment: the row is patched with the
      priest and the confirmation state alone, it appears in that priest's list,
      and the priest is asked to confirm exactly when a request was sent. Only
      on the mass page does the cell then turn orange. */
  lemma AssignmentReachesPriest(db: Db, db': Db, sec: Section, i: nat, priestId: string, sendRequest: bool, now: string, s: State)
    requires WellFormed(db) && !IsSuperAdmin(s)
    requires i < |Coll(db, PathOf(sec))| && ID !in Coll(db, PathOf(sec))[i].doc
    requires db' == ApplyAll(db, AssignPriest(sec, RowWrites.RowId(FetchAll(db, PathOf(sec))[i]), priestId, sendRequest), now)
    ensures RowWrites.ShowsPatched(db, db', PathOf(sec), i, map[PRIEST_ID := Str(priestId),
      PRIEST_CONFIRMATION_STATUS := Str(if sendRequest then TableActions.PENDING else TableActions.APPROVED)])
    ensures var row' := RowWrites.Refetched(db', PathOf(sec), Coll(db, PathOf(sec))[i].key);
      && UserFilterList.AssignedTo(Obj(row'), priestId)
      && (Offered(s, row') == ConfirmReject <==> sendRequest)
      && Cell(sec, PriestOf(db', Get(row', PRIEST_ID)), row').1 == (if sendRequest && sec == Mass then Some("orange") else None)
  {
    var p := PathOf(sec);
    var k := Coll(db, p)[i].key;
    RowWrites.RowIdIsKey(db, p, i);
    var patch := map[PRIEST_ID := Str(priestId),
                     PRIEST_CONFIRMATION_STATUS := Str(if sendRequest then TableActions.PENDING else TableActions.APPROVED)];
    assert AssignPriest(sec, k, priestId, sendRequest) == [PatchDoc(p, k, patch)];
    RowWrites.PatchListedRow(db, db', p, i, patch, now);
    var row' := RowWrites.Refetched(db', p, k);
    AssignedRow(sec, PriestOf(db', Get(row', PRIEST_ID)), row', priestId, sendRequest, s);
  }

  lemma AssignedRow(sec: Section, priest: Option<Doc>, row': Doc, priestId: string, sendRequest: bool, s: State)
    requires !IsSuperAdmin(s)
    requires Get(row', PRIEST_ID) == Str(priestId)
    requires Get(row', PRIEST_CONFIRMATION_STATUS) == Str(if sendRequest then TableActions.PENDING else TableActions.APPROVED)
    ensures UserFilterList.AssignedTo(Obj(row'), priestId)
    ensures Offered(s, row') == ConfirmReject <==> sendRequest
    ensures Cell(sec, priest, row').1 == (if sendRequest && sec == Mass then Some("orange") else None)
  {
  }
}
