/** The row action buttons shared by the pages (`TableApproveRejectButtons`,
    `TableConfirmRejectRequestButtons`, `TableReadyButton`): when each is
    offered, and the writes a confirmed action issues. An action that notifies
    the requester creates the notification first and then runs the page's own
    writes (`callback`). The date text of `new Date().toDateString()` is the
    parameter `today`. */
module TableActions {
  import opened Wrappers
  import opened Json
  import opened Store
  import opened Session
  import Utils
  import Seqs
  import Notifications

  type NotificationType = Notifications.NotificationType

  const PENDING := "pending"
  const APPROVED := "approved"
  const REJECTED := "rejected"
  const READY := "ready"
  const RELEASED := "released"

  /** The notification title: the type name split into words. */
  function Title(t: NotificationType): string {
    Utils.SeparatePascalCase(Notifications.TypeName(t))
  }

  const NOTIFICATION_FIELDS: set<string> := {"message", "timestamp", "title", "type", "userId", "fromAdmin"}

  /** The object handed to `createNotification`: addressed to `userId || null`
      and marked as coming from the dashboard. */
  function NotificationFor(t: NotificationType, message: string, userId: Value, today: string): (d: Doc)
    ensures d.Keys == NOTIFICATION_FIELDS
    ensures d["message"] == Str(message) && d["timestamp"] == Str(today)
    ensures d["title"] == Str(Title(t)) && d["type"] == Str(Notifications.TypeName(t))
    ensures d["userId"] == (if Truthy(userId) then userId else Null)
    ensures d["fromAdmin"] == Bool(true)
    ensures !HasUndefined(d)
  {
    map["message" := Str(message), "timestamp" := Str(today), "title" := Str(Title(t)),
        "type" := Str(Notifications.TypeName(t)), "userId" := (if Truthy(userId) then userId else Null),
        "fromAdmin" := Bool(true)]
  }

  datatype Decision = Approve | Reject

  /** The status text a decision writes (`StatusEnum` and
      `PriestConfirmationStatusEnum` share the texts). */
  function Outcome(d: Decision): (s: string)
    ensures d == Approve ==> s == APPROVED
    ensures d == Reject ==> s == REJECTED
  {
    if d == Approve then APPROVED else REJECTED
  }

  /** "<Title> has been approved" or "<Title> has been rejected". */
  function DecisionMessage(t: NotificationType, d: Decision): string {
    Title(t) + (if d == Approve then " has been approved" else " has been rejected")
  }

  /** The message names the type and the decision, so approving and rejecting
      never send the same text. */
  lemma DecisionMessagesDiffer(t: NotificationType)
    ensures DecisionMessage(t, Approve) != DecisionMessage(t, Reject)
    ensures Utils.StartsWith(DecisionMessage(t, Approve), Title(t))
    ensures Utils.StartsWith(DecisionMessage(t, Reject), Title(t))
  {
    EndingsDiffer(Title(t));
  }

  lemma EndingsDiffer(title: string)
    ensures title + " has been approved" != title + " has been rejected"
    ensures Utils.StartsWith(title + " has been approved", title)
    ensures Utils.StartsWith(title + " has been rejected", title)
  {
    var k := |title| + 10;
    assert (title + " has been approved")[k] == 'a';
    assert (title + " has been rejected")[k] == 'r';
    assert (title + " has been approved")[..|title|] == title;
    assert (title + " has been rejected")[..|title|] == title;
  }

  /** `status !== "pending" && !!status`: the row was already decided. */
  predicate Decided(status: Value) {
    !StrictEquals(status, SStr(PENDING)) && Truthy(status)
  }

  /** `TableApproveRejectButtons` render only for a super administrator, on a
      row that is pending or has no status yet. */
  predicate ApproveRejectShown(status: Value, s: State) {
    !(Decided(status) || !IsSuperAdmin(s))
  }

  lemma ApproveRejectShownIff(status: Value, s: State)
    ensures ApproveRejectShown(status, s) <==> IsSuperAdmin(s) && (status == Str(PENDING) || !Truthy(status))
  {
  }

  /** Confirming approve or reject: the notification, then the page's writes. */
  function ConfirmDecision(t: NotificationType, d: Decision, userId: Value, today: string,
                           callback: seq<Write>): (ws: seq<Write>)
    ensures |ws| == |callback| + 1 && ws[1..] == callback
    ensures ws[0] == CreateDoc(Notification, NotificationFor(t, DecisionMessage(t, d), userId, today))
  {
    [CreateDoc(Notification, NotificationFor(t, DecisionMessage(t, d), userId, today))] + callback
  }

  /** A notification the dashboard creates is stored with its text and
      `fromAdmin`, and keeps `userId` only when one was given. */
  lemma NotificationStoredAsSent(db: Db, t: NotificationType, message: string, userId: Value,
                                 today: string, now: string)
    ensures var w := CreateDoc(Notification, NotificationFor(t, message, userId, today));
      var db' := ApplyAll(db, [w], now);
      var c, c' := Coll(db, Notification), Coll(db', Notification);
      && |c'| == |c| + 1
      && Get(c'[|c|].doc, "message") == Str(message)
      && Get(c'[|c|].doc, "title") == Str(Title(t))
      && Get(c'[|c|].doc, "fromAdmin") == Bool(true)
      && ("userId" in c'[|c|].doc <==> Truthy(userId))
  {
    var data := NotificationFor(t, message, userId, today);
    CreateNotificationEffect(db, data, now);
    assert data["userId"] != Null <==> Truthy(userId);
  }

  /** Such a notification never appears on the dashboard's own bell: the bell's
      count is unchanged. */
  lemma NotifyingLeavesBellAlone(db: Db, t: NotificationType, message: string, userId: Value,
                                 today: string, now: string)
    ensures var w := CreateDoc(Notification, NotificationFor(t, message, userId, today));
      var db' := ApplyAll(db, [w], now);
      Notifications.UnreadCount(FetchAll(db', Notification)) == Notifications.UnreadCount(FetchAll(db, Notification))
  {
    var data := NotificationFor(t, message, userId, today);
    CreateNotificationEffect(db, data, now);
    var db' := ApplyAll(db, [CreateDoc(Notification, data)], now);
    var e := Coll(db', Notification)[|Coll(db, Notification)|];
    FromAdminNotListed(e, data, now);
    Notifications.AppendUnlistedKeepsCount(FetchAll(db, Notification), InjectId(e));
  }

  lemma FromAdminNotListed(e: Entry, data: Doc, now: string)
    requires Get(data, "fromAdmin") == Bool(true)
    requires StampedCopy(e.doc, data, DATE_TIME_STAMP, now)
    ensures !Notifications.Listed(InjectId(e))
  {
    assert InjectId(e)["fromAdmin"] == Bool(true);
  }

  /** Creating a notification that holds no `undefined` appends one stored
      entry to the notification collection. */
  lemma CreateNotificationEffect(db: Db, data: Doc, now: string)
    requires !HasUndefined(data)
    ensures var db' := ApplyAll(db, [CreateDoc(Notification, data)], now);
      var c, c' := Coll(db, Notification), Coll(db', Notification);
      && |c'| == |c| + 1
      && StampedCopy(c'[|c|].doc, data, DATE_TIME_STAMP, now)
      && FetchAll(db', Notification) == FetchAll(db, Notification) + [InjectId(c'[|c|])]
  {
    var w := CreateDoc(Notification, data);
    assert Create(db, Notification, data, now).Ok?;
    var db' := Create(db, Notification, data, now).value.db;
    assert ApplyAll(db, [w], now) == ApplyAll(db', [], now);
    var c, c' := Coll(db, Notification), Coll(db', Notification);
    assert c' == c + [c'[|c|]];
  }

  /** `TableConfirmRejectRequestButtons` render on a pending or status-less row,
      whatever the role; confirming only runs the page's writes. */
  predicate ConfirmRejectShown(status: Value) {
    !Decided(status)
  }

  function ConfirmRequest(d: Decision, onApprove: seq<Write>, onReject: seq<Write>): (ws: seq<Write>)
    ensures d == Approve ==> ws == onApprove
    ensures d == Reject ==> ws == onReject
  {
    if d == Approve then onApprove else onReject
  }

  /** What `TableReadyButton` renders. */
  datatype ReadyView =
    | Hidden           // not a super administrator
    | ReleasedLabel    // the certificate was handed over
    | SetAsReleased    // ready: opens the release form
    | SetAsReady       // anything else

  function ReadyButtonView(status: Value, s: State): (v: ReadyView)
    ensures v == Hidden <==> !IsSuperAdmin(s)
    ensures v == ReleasedLabel <==> IsSuperAdmin(s) && status == Str(RELEASED)
    ensures v == SetAsReleased <==> IsSuperAdmin(s) && status == Str(READY)
    ensures v == SetAsReady <==> IsSuperAdmin(s) && status != Str(RELEASED) && status != Str(READY)
  {
    if !IsSuperAdmin(s) then Hidden
    else if StrictEquals(status, SStr(RELEASED)) then ReleasedLabel
    else if StrictEquals(status, SStr(READY)) then SetAsReleased
    else SetAsReady
  }

  const READY_MESSAGE := "Certificate is ready to be released"
  const RELEASE_PREFIX := "Certificate has been released to "
  const NAME_ERROR := "Name must have at least 2 letters"

  /** "Set as ready": the notification, then the page's writes. */
  function SetReady(t: NotificationType, userId: Value, today: string, onReady: seq<Write>): (ws: seq<Write>)
    ensures |ws| == |onReady| + 1 && ws[1..] == onReady
    ensures ws[0] == CreateDoc(Notification, NotificationFor(t, READY_MESSAGE, userId, today))
  {
    [CreateDoc(Notification, NotificationFor(t, READY_MESSAGE, userId, today))] + onReady
  }

  /** The release form's values (`IRequestFormRelease`). */
  datatype Release = Release(releasedTo: string, releasedDate: string)

  function ReleaseDoc(r: Release): (d: Doc)
    ensures d.Keys == {"releasedTo", "releasedDate"}
    ensures d["releasedTo"] == Str(r.releasedTo) && d["releasedDate"] == Str(r.releasedDate)
  {
    map["releasedTo" := Str(r.releasedTo), "releasedDate" := Str(r.releasedDate)]
  }

  /** The form's rule for the recipient's name. */
  function ValidateReleasedTo(name: string): (err: Option<string>)
    ensures err.Some? <==> |name| < 2
    ensures err.Some? ==> err.value == NAME_ERROR
  {
    if |name| < 2 then Some(NAME_ERROR) else None
  }

  /** Submitting the release form: refused with the form's message when the
      name is too short; otherwise the notification naming the recipient, then
      `collected`, the page's writes for `onSetAsCollected(r)`. */
  function SubmitRelease(t: NotificationType, userId: Value, today: string, r: Release,
                         collected: seq<Write>): (res: Result<seq<Write>, string>)
    ensures res.Err? <==> |r.releasedTo| < 2
    ensures res.Err? ==> res.error == NAME_ERROR
    ensures res.Ok? ==>
      && |res.value| == |collected| + 1 && res.value[1..] == collected
      && res.value[0] == CreateDoc(Notification, NotificationFor(t, RELEASE_PREFIX + r.releasedTo, userId, today))
  {
    match ValidateReleasedTo(r.releasedTo)
    case Some(e) => Err(e)
    case None =>
      Ok([CreateDoc(Notification, NotificationFor(t, RELEASE_PREFIX + r.releasedTo, userId, today))] + collected)
  }

  /** The release notification names the recipient: the name can be read back
      from the message. */
  lemma ReleaseMessageNamesRecipient(name: string)
    ensures Utils.StartsWith(RELEASE_PREFIX + name, RELEASE_PREFIX)
    ensures (RELEASE_PREFIX + name)[|RELEASE_PREFIX|..] == name
  {
  }
}
