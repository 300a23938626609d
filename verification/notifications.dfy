/** The notification bell (`Notifications`): which notifications it lists, the
    unread count on its badge, and what viewing one does (mark it read, then
    open the section it concerns). */
module Notifications {
  import opened Wrappers
  import opened Json
  import opened Store
  import Seqs
  import SideNavigation
  import RowWrites

  /** `INotification["type"]`. */
  datatype NotificationType =
    | BaptismAppointment
    | ConfirmationAppointment
    | ConfirmationRequestForm
    | BaptismRequestForm
    | MassAppointment
    | ChurchLiturgyAppointment
    | FuneralAppointment
    | FuneralRequestForm
    | HouseLiturgyAppointment
    | WeddingAnnouncement
    | WeddingAppointment
    | WeddingRequestForm

  function TypeName(t: NotificationType): string {
    match t
    case BaptismAppointment => "BaptismAppointment"
    case ConfirmationAppointment => "ConfirmationAppointment"
    case ConfirmationRequestForm => "ConfirmationRequestForm"
    case BaptismRequestForm => "BaptismRequestForm"
    case MassAppointment => "MassAppointment"
    case ChurchLiturgyAppointment => "ChurchLiturgyAppointment"
    case FuneralAppointment => "FuneralAppointment"
    case FuneralRequestForm => "FuneralRequestForm"
    case HouseLiturgyAppointment => "HouseLiturgyAppointment"
    case WeddingAnnouncement => "WeddingAnnouncement"
    case WeddingAppointment => "WeddingAppointment"
    case WeddingRequestForm => "WeddingRequestForm"
  }

  /** The type a stored `type` text names, if any. */
  function ParseType(s: string): (r: Option<NotificationType>)
    ensures r.Some? ==> TypeName(r.value) == s
  {
    if s == "BaptismAppointment" then Some(NotificationType.BaptismAppointment)
    else if s == "ConfirmationAppointment" then Some(NotificationType.ConfirmationAppointment)
    else if s == "ConfirmationRequestForm" then Some(NotificationType.ConfirmationRequestForm)
    else if s == "BaptismRequestForm" then Some(NotificationType.BaptismRequestForm)
    else if s == "MassAppointment" then Some(NotificationType.MassAppointment)
    else if s == "ChurchLiturgyAppointment" then Some(NotificationType.ChurchLiturgyAppointment)
    else if s == "FuneralAppointment" then Some(NotificationType.FuneralAppointment)
    else if s == "FuneralRequestForm" then Some(NotificationType.FuneralRequestForm)
    else if s == "HouseLiturgyAppointment" then Some(NotificationType.HouseLiturgyAppointment)
    else if s == "WeddingAnnouncement" then Some(NotificationType.WeddingAnnouncement)
    else if s == "WeddingAppointment" then Some(NotificationType.WeddingAppointment)
    else if s == "WeddingRequestForm" then Some(NotificationType.WeddingRequestForm)
    else None
  }

  /** Every type's name reads back as that type, so names are distinct. */
  lemma TypeNameRoundTrip(t: NotificationType)
    ensures ParseType(TypeName(t)) == Some(t)
  {
    if t.BaptismAppointment? || t.ConfirmationAppointment? || t.ConfirmationRequestForm? || t.BaptismRequestForm? {
      SacramentNamesRoundTrip(t);
    } else if t.MassAppointment? || t.ChurchLiturgyAppointment? || t.FuneralAppointment? || t.FuneralRequestForm? {
      LiturgyNamesRoundTrip(t);
    } else if t.HouseLiturgyAppointment? || t.WeddingAnnouncement? {
      OtherNamesRoundTrip(t);
    } else if t.WeddingAppointment? {
      WeddingAppointmentRoundTrip();
    } else {
      WeddingRequestFormRoundTrip();
    }
  }

  lemma SacramentNamesRoundTrip(t: NotificationType)
    requires t.BaptismAppointment? || t.ConfirmationAppointment? || t.ConfirmationRequestForm? || t.BaptismRequestForm?
    ensures ParseType(TypeName(t)) == Some(t)
  {
  }

  lemma LiturgyNamesRoundTrip(t: NotificationType)
    requires t.MassAppointment? || t.ChurchLiturgyAppointment? || t.FuneralAppointment? || t.FuneralRequestForm?
    ensures ParseType(TypeName(t)) == Some(t)
  {
  }

  lemma OtherNamesRoundTrip(t: NotificationType)
    requires t.HouseLiturgyAppointment? || t.WeddingAnnouncement?
    ensures ParseType(TypeName(t)) == Some(t)
  {
  }

  lemma WeddingAppointmentRoundTrip()
    ensures ParseType("WeddingAppointment") == Some(NotificationType.WeddingAppointment)
  {
  }

  lemma WeddingRequestFormRoundTrip()
    ensures ParseType("WeddingRequestForm") == Some(NotificationType.WeddingRequestForm)
  {
  }

  /** `notificationRouteMapper[type]`: the section a notification type opens.
      Both liturgies and both funeral kinds open the funeral section. */
  function RouteOf(t: NotificationType): (route: string)
    ensures SideNavigation.IsNavLink(route)
  {
    match t
    case BaptismAppointment => assert SideNavigation.Links[3].link == SideNavigation.BAPTISM; SideNavigation.BAPTISM
    case BaptismRequestForm => assert SideNavigation.Links[3].link == SideNavigation.BAPTISM; SideNavigation.BAPTISM
    case ConfirmationAppointment => assert SideNavigation.Links[4].link == SideNavigation.CONFIRMATION; SideNavigation.CONFIRMATION
    case ConfirmationRequestForm => assert SideNavigation.Links[4].link == SideNavigation.CONFIRMATION; SideNavigation.CONFIRMATION
    case MassAppointment => assert SideNavigation.Links[2].link == SideNavigation.MASS; SideNavigation.MASS
    case ChurchLiturgyAppointment => assert SideNavigation.Links[6].link == SideNavigation.FUNERAL; SideNavigation.FUNERAL
    case FuneralAppointment => assert SideNavigation.Links[6].link == SideNavigation.FUNERAL; SideNavigation.FUNERAL
    case FuneralRequestForm => assert SideNavigation.Links[6].link == SideNavigation.FUNERAL; SideNavigation.FUNERAL
    case HouseLiturgyAppointment => assert SideNavigation.Links[6].link == SideNavigation.FUNERAL; SideNavigation.FUNERAL
    case WeddingAnnouncement => assert SideNavigation.Links[5].link == SideNavigation.WEDDING; SideNavigation.WEDDING
    case WeddingAppointment => assert SideNavigation.Links[5].link == SideNavigation.WEDDING; SideNavigation.WEDDING
    case WeddingRequestForm => assert SideNavigation.Links[5].link == SideNavigation.WEDDING; SideNavigation.WEDDING
  }

  /** The notification is addressed to a user and did not come from the
      dashboard itself. */
  predicate Listed(n: Doc) {
    Truthy(Get(n, "userId")) && !Truthy(Get(n, "fromAdmin"))
  }

  predicate Unread(n: Doc) {
    !Truthy(Get(n, "read"))
  }

  predicate ListedUnread(n: Doc) {
    Listed(n) && Unread(n)
  }

  /** `filteredNotifications`: the listed notifications in fetch order. */
  function ListedNotifications(all: seq<Doc>): (r: seq<Doc>)
    ensures forall i :: 0 <= i < |r| ==> r[i] in all && Listed(r[i])
    ensures forall i :: 0 <= i < |all| && Listed(all[i]) ==> all[i] in r
    ensures Seqs.SubSeq(r, all)
    ensures |r| == Seqs.CountWhere(all, Listed)
  {
    Seqs.FilterIsSubSeq(all, Listed);
    Seqs.FilterLength(all, Listed);
    Seqs.Filter(all, Listed)
  }

  /** The number on the bell: `unreadNotifications.length`, which counts the
      listed notifications not yet read. */
  function UnreadCount(all: seq<Doc>): (n: nat)
    ensures n == Seqs.CountWhere(all, ListedUnread)
    ensures n <= |ListedNotifications(all)|
  {
    var unread := Seqs.Filter(ListedNotifications(all), Unread);
    Seqs.FilterFilter(all, Listed, Unread, ListedUnread);
    Seqs.FilterLength(all, ListedUnread);
    |unread|
  }

  /** A notification that is not listed does not change the count. */
  lemma AppendUnlistedKeepsCount(all: seq<Doc>, x: Doc)
    requires !Listed(x)
    ensures UnreadCount(all + [x]) == UnreadCount(all)
  {
    Seqs.CountAppend(all, x, ListedUnread);
  }

  datatype Viewed = Viewed(writes: seq<Write>, route: Option<string>)

  /** `handleViewNotification`: an unread notification is patched to
      `{read: true}` under `String(id)`; then the section of its type is opened,
      when the type has one. */
  function View(n: Doc): (r: Viewed)
    ensures Unread(n) ==> r.writes == [PatchDoc(Notification, ToJsString(Get(n, ID)), READ_PATCH)]
    ensures !Unread(n) ==> r.writes == []
    ensures r.route.Some? <==> ParseType(ToJsString(Get(n, "type"))).Some?
    ensures r.route.Some? ==> SideNavigation.IsNavLink(r.route.value) && SideNavigation.IsActive(r.route.value, r.route.value)
  {
    var writes := if Unread(n) then [PatchDoc(Notification, ToJsString(Get(n, ID)), READ_PATCH)] else [];
    var t := ParseType(ToJsString(Get(n, "type")));
    if t.Some? then
      SideNavigation.ActiveOnOwnPage(RouteOf(t.value), "");
      Viewed(writes, Some(RouteOf(t.value)))
    else Viewed(writes, None)
  }

  const READ_PATCH: Doc := map["read" := Bool(true)]

  /** Viewing an unread listed notification lowers the bell's count by exactly
      one, and viewing it again writes nothing. */
  lemma ViewingMarksRead(db: Db, i: nat, now: string)
    requires WellFormed(db)
    requires i < |Coll(db, Notification)|
    requires ID !in Coll(db, Notification)[i].doc
    requires ListedUnread(FetchAll(db, Notification)[i])
    ensures var db' := ApplyAll(db, View(FetchAll(db, Notification)[i]).writes, now);
      && UnreadCount(FetchAll(db', Notification)) + 1 == UnreadCount(FetchAll(db, Notification))
      && i < |FetchAll(db', Notification)|
      && View(FetchAll(db', Notification)[i]).writes == []
  {
    var all := FetchAll(db, Notification);
    var db' := ApplyAll(db, View(all[i]).writes, now);
    ViewWritesReadPatch(db, i, now);
    assert db' == Patch(db, Notification, Coll(db, Notification)[i].key, READ_PATCH, now).value;
    ReadPatchEffect(db, i, now);
    CountAfterRead(all, FetchAll(db', Notification), i);
  }

  /** Marking one unread listed notification read, and nothing else, lowers the
      count by one. */
  lemma CountAfterRead(all: seq<Doc>, all': seq<Doc>, i: nat)
    requires |all'| == |all| && i < |all|
    requires forall j :: 0 <= j < |all| && j != i ==> all'[j] == all[j]
    requires ListedUnread(all[i]) && Listed(all'[i]) && !Unread(all'[i])
    ensures UnreadCount(all') + 1 == UnreadCount(all)
    ensures View(all'[i]).writes == []
  {
    Seqs.CountDropsOne(all, all', ListedUnread, i);
  }

  /** Viewing the `i`-th fetched notification issues the `{read: true}` patch of
      its key, which succeeds. */
  lemma ViewWritesReadPatch(db: Db, i: nat, now: string)
    requires WellFormed(db)
    requires i < |Coll(db, Notification)|
    requires ID !in Coll(db, Notification)[i].doc
    requires Unread(FetchAll(db, Notification)[i])
    ensures var key := Coll(db, Notification)[i].key;
      && Patch(db, Notification, key, READ_PATCH, now).Ok?
      && ApplyAll(db, View(FetchAll(db, Notification)[i]).writes, now)
         == Patch(db, Notification, key, READ_PATCH, now).value
  {
    var key := Coll(db, Notification)[i].key;
    RowWrites.RowIdIsKey(db, Notification, i);
    var w := PatchDoc(Notification, key, READ_PATCH);
    assert View(FetchAll(db, Notification)[i]).writes == [w];
    assert Patch(db, Notification, key, READ_PATCH, now).Ok?;
    ApplyOne(db, w, now);
  }

  /** After the `{read: true}` patch of the `i`-th notification, the fetched list
      is unchanged except that this notification is now read. */
  lemma ReadPatchEffect(db: Db, i: nat, now: string)
    requires WellFormed(db)
    requires i < |Coll(db, Notification)|
    requires ID !in Coll(db, Notification)[i].doc
    requires Patch(db, Notification, Coll(db, Notification)[i].key, READ_PATCH, now).Ok?
    ensures var db' := Patch(db, Notification, Coll(db, Notification)[i].key, READ_PATCH, now).value;
      var all, all' := FetchAll(db, Notification), FetchAll(db', Notification);
      && |all'| == |all|
      && (forall j :: 0 <= j < |all| && j != i ==> all'[j] == all[j])
      && Listed(all'[i]) == Listed(all[i])
      && !Unread(all'[i])
  {
    var c := Coll(db, Notification);
    var db' := Patch(db, Notification, c[i].key, READ_PATCH, now).value;
    ReadPatchEntries(db, i, now);
    var c' := Coll(db', Notification);
    SameEntriesSameRecords(db, db', Notification, i);
    ReadEntry(c[i], c'[i], now);
  }

  /** Two collections that agree on every entry but the `i`-th list the same
      records but the `i`-th. */
  lemma SameEntriesSameRecords(db: Db, db': Db, p: Path, i: nat)
    requires |Coll(db', p)| == |Coll(db, p)| && i < |Coll(db, p)|
    requires forall j :: 0 <= j < |Coll(db, p)| && j != i ==> Coll(db', p)[j] == Coll(db, p)[j]
    ensures |FetchAll(db', p)| == |FetchAll(db, p)|
    ensures forall j :: 0 <= j < |FetchAll(db, p)| && j != i ==> FetchAll(db', p)[j] == FetchAll(db, p)[j]
    ensures FetchAll(db', p)[i] == InjectId(Coll(db', p)[i]) && FetchAll(db, p)[i] == InjectId(Coll(db, p)[i])
  {
  }

  /** The listed record of a notification entry after the `{read: true}` patch. */
  lemma ReadEntry(e: Entry, e': Entry, now: string)
    requires ID !in e.doc
    requires PatchedCopy(e'.doc, e.doc, READ_PATCH, UPDATED, now)
    ensures Listed(InjectId(e')) == Listed(InjectId(e))
    ensures !Unread(InjectId(e'))
  {
    PatchedNotification(e.doc, e'.doc, now);
    assert Get(InjectId(e'), "userId") == Get(InjectId(e), "userId");
    assert Get(InjectId(e'), "fromAdmin") == Get(InjectId(e), "fromAdmin");
    assert Get(InjectId(e'), "read") == Bool(true);
  }

  /** The patch rewrites the `i`-th entry only. */
  lemma ReadPatchEntries(db: Db, i: nat, now: string)
    requires WellFormed(db)
    requires i < |Coll(db, Notification)|
    requires Patch(db, Notification, Coll(db, Notification)[i].key, READ_PATCH, now).Ok?
    ensures var c := Coll(db, Notification);
      var c' := Coll(Patch(db, Notification, c[i].key, READ_PATCH, now).value, Notification);
      && |c'| == |c|
      && (forall j :: 0 <= j < |c| && j != i ==> c'[j] == c[j])
      && PatchedCopy(c'[i].doc, c[i].doc, READ_PATCH, UPDATED, now)
  {
    var c := Coll(db, Notification);
    var e := c[i];
    var db' := Patch(db, Notification, e.key, READ_PATCH, now).value;
    PatchPreservesWellFormed(db, Notification, e.key, READ_PATCH, now);
    CollWellFormed(db, Notification);
    CollWellFormed(db', Notification);
    var c' := Coll(db', Notification);
    assert HasKey(c, e.key);
    PatchedEntries(c, c', i, e.key);
  }

  /** A patched collection: same keys in the same places, and only the entry
      under the patched key changed. */
  lemma PatchedEntries(c: Collection, c': Collection, i: nat, id: string)
    requires DistinctKeys(c) && DistinctKeys(c')
    requires i < |c| && c[i].key == id
    requires |c'| == |c| && forall j :: 0 <= j < |c| ==> c'[j].key == c[j].key
    requires forall k :: k != id ==> Lookup(c', k) == Lookup(c, k)
    ensures forall j :: 0 <= j < |c| && j != i ==> c'[j] == c[j]
    ensures Lookup(c', id) == Some(c'[i].doc) && Lookup(c, id) == Some(c[i].doc)
  {
    forall j | 0 <= j < |c| && j != i ensures c'[j] == c[j] {
      LookupDistinct(c, j);
      LookupDistinct(c', j);
    }
    LookupDistinct(c, i);
    LookupDistinct(c', i);
  }

  /** The `{read: true}` patch touches no field the bell reads except `read`. */
  lemma PatchedNotification(prev: Doc, doc: Doc, now: string)
    requires ID !in prev
    requires PatchedCopy(doc, prev, READ_PATCH, UPDATED, now)
    ensures Get(doc, "read") == Bool(true)
    ensures Get(doc, "userId") == Get(prev, "userId")
    ensures Get(doc, "fromAdmin") == Get(prev, "fromAdmin")
    ensures ID !in doc
  {
  }
}
