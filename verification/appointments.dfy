/** The approve and reject buttons of the baptism, confirmation and wedding
    appointment tables. Each page has its own copy with its own gate: the
    baptism buttons show on a pending or status-less row for anyone, the
    confirmation buttons only on a row whose status is exactly "pending", and
    the wedding page uses the shared `TableApproveRejectButtons` (a super
    administrator, a pending or status-less row, and a notification to the
    requester). All three write the decision as a patch of `status` alone, and
    write nothing when the row has no id. */
module Appointments {
  import opened Wrappers
  import opened Json
  import opened Store
  import opened Session
  import TableActions
  import Notifications
  import StatusBadge
  import RowWrites

  datatype Kind = Baptism | Confirmation | Wedding

  function PathOf(k: Kind): (p: Path)
    ensures p != Notification
  {
    match k
    case Baptism => BaptismAppointment
    case Confirmation => ConfirmationAppointment
    case Wedding => WeddingAppointment
  }

  const STATUS := "status"

  type Decision = TableActions.Decision

  /** `handleApprove()` / `handleReject()`: nothing when `row.id` is falsy;
      otherwise a patch of the status alone at `row.id`. */
  function Decide(k: Kind, id: Value, d: Decision): (ws: seq<Write>)
    ensures ws == [] <==> !Truthy(id)
    ensures ws != [] ==>
      && |ws| == 1 && ws[0].PatchDoc? && ws[0].path == PathOf(k) && ws[0].id == ToJsString(id)
      && ws[0].data == map[STATUS := Str(TableActions.Outcome(d))]
  {
    if !Truthy(id) then [] else [PatchDoc(PathOf(k), ToJsString(id), map[STATUS := Str(TableActions.Outcome(d))])]
  }

  /** Whether the row's buttons are rendered. */
  predicate Shown(k: Kind, status: Value, s: State) {
    match k
    case Baptism => !(!StrictEquals(status, SStr(TableActions.PENDING)) && Truthy(status))
    case Confirmation => StrictEquals(status, SStr(TableActions.PENDING))
    case Wedding => TableActions.ApproveRejectShown(status, s)
  }

  /** The three gates side by side: the baptism gate lets a status-less row
      through and the confirmation gate does not; the wedding gate is the
      baptism gate restricted to super administrators. */
  lemma GatesCompared(status: Value, s: State)
    ensures Shown(Baptism, status, s) <==> status == Str(TableActions.PENDING) || !Truthy(status)
    ensures Shown(Confirmation, status, s) <==> status == Str(TableActions.PENDING)
    ensures Shown(Wedding, status, s) <==> IsSuperAdmin(s) && Shown(Baptism, status, s)
    ensures Shown(Confirmation, status, s) ==> Shown(Baptism, status, s)
    ensures !Truthy(status) ==> Shown(Baptism, status, s) && !Shown(Confirmation, status, s)
  {
  }

  /** A confirmed click: the decision alone on the baptism and confirmation
      pages; on the wedding page the notification to the requester first, sent
      even when the row has no id and so gets no patch. */
  function Act(k: Kind, row: Doc, d: Decision, today: string): (ws: seq<Write>)
    ensures !Truthy(Get(row, ID)) ==>
      ws == (if k == Wedding then [CreateDoc(Notification, WeddingNote(row, d, today))] else [])
    ensures Truthy(Get(row, ID)) ==>
      var patch := PatchDoc(PathOf(k), RowWrites.RowId(row), map[STATUS := Str(TableActions.Outcome(d))]);
      ws == (if k == Wedding then [CreateDoc(Notification, WeddingNote(row, d, today)), patch] else [patch])
  {
    if k == Wedding then
      TableActions.ConfirmDecision(Notifications.WeddingAppointment, d, Get(row, "userId"), today, Decide(k, Get(row, ID), d))
    else Decide(k, Get(row, ID), d)
  }

  /** A row without an id gets no status write; at most the wedding page's
      notification goes out. */
  lemma NoIdNoStatusWrite(k: Kind, row: Doc, d: Decision, today: string)
    requires !Truthy(Get(row, ID))
    ensures forall j :: 0 <= j < |Act(k, row, d, today)| ==> Act(k, row, d, today)[j].path == Notification
  {
  }

  /** Deciding a listed appointment: the row is patched with the decision alone
      (every other field but the update stamp keeps its value), the badge shows
      the decision's colour, and the row's buttons are gone. */
  lemma DecisionSettlesRow(db: Db, db': Db, k: Kind, i: nat, d: Decision, today: string, now: string, s: State)
    requires WellFormed(db)
    requires i < |Coll(db, PathOf(k))| && ID !in Coll(db, PathOf(k))[i].doc
    requires db' == ApplyAll(db, Act(k, FetchAll(db, PathOf(k))[i], d, today), now)
    ensures RowWrites.ShowsPatched(db, db', PathOf(k), i, map[STATUS := Str(TableActions.Outcome(d))])
    ensures var row' := RowWrites.Refetched(db', PathOf(k), Coll(db, PathOf(k))[i].key);
      && Get(row', STATUS) == Str(TableActions.Outcome(d))
      && StatusBadge.Render(Get(row', STATUS)).Some?
      && StatusBadge.Render(Get(row', STATUS)).value.color == Some(if d == TableActions.Approve then "green" else "red")
      && !Shown(k, Get(row', STATUS), s)
  {
    var p := PathOf(k);
    var row := FetchAll(db, p)[i];
    RowWrites.RowIdIsKey(db, p, i);
    var patch := map[STATUS := Str(TableActions.Outcome(d))];
    if k == Wedding {
      RowWrites.NotifyThenPatchListedRow(db, db', WeddingNote(row, d, today), p, i, patch, now);
    } else {
      RowWrites.PatchListedRow(db, db', p, i, patch, now);
    }
    RowWrites.PatchedField(db, db', p, i, patch, STATUS);
    DecidedStatus(k, d, s);
  }

  /** The notification the wedding page sends with a decision. */
  function WeddingNote(row: Doc, d: Decision, today: string): Doc {
    TableActions.NotificationFor(Notifications.WeddingAppointment,
      TableActions.DecisionMessage(Notifications.WeddingAppointment, d), Get(row, "userId"), today)
  }

  lemma DecidedStatus(k: Kind, d: Decision, s: State)
    ensures StatusBadge.Render(Str(TableActions.Outcome(d))).Some?
    ensures StatusBadge.Render(Str(TableActions.Outcome(d))).value.color == Some(if d == TableActions.Approve then "green" else "red")
    ensures !Shown(k, Str(TableActions.Outcome(d)), s)
  {
  }
}
