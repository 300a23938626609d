/** The wedding announcements tab: the list shows only the announcements that
    have not expired, a drawer adds one or edits the selected one, and every
    row with an id has a delete button. The clock is the parameter `now`, the
    ISO text of `new Date().toISOString()`; the drawer's `content` state and
    the picked date's ISO text are parameters as well. */
module WeddingPage {
  import opened Wrappers
  import opened Json
  import opened Store
  import Seqs
  import RowWrites

  const CONTENT := "content"
  const EXPIRATION := "expiration"
  const NO_ID_ERROR := "Selected announcement has no id"
  const EMPTY_ERROR := "WeddingAnnouncement cannot be empty"

  // ---------------------------------------------------------------------------
  // Expiry
  // ---------------------------------------------------------------------------

  /** `a < b` on two strings: character by character, a proper prefix first. */
  predicate LexLess(a: string, b: string)
    decreases |a|
  {
    if |a| == 0 then |b| > 0
    else if |b| == 0 then false
    else if a[0] == b[0] then LexLess(a[1..], b[1..])
    else a[0] < b[0]
  }

  lemma {:induction false} LexLessIrreflexive(a: string)
    ensures !LexLess(a, a)
    decreases |a|
  {
    if |a| > 0 {
      LexLessIrreflexive(a[1..]);
    }
  }

  lemma {:induction false} LexLessTransitive(a: string, b: string, c: string)
    requires LexLess(a, b) && LexLess(b, c)
    ensures LexLess(a, c)
    decreases |a|
  {
    if |a| > 0 && |b| > 0 && |c| > 0 && a[0] == b[0] && b[0] == c[0] {
      LexLessTransitive(a[1..], b[1..], c[1..]);
    }
  }

  /** Any two different strings are ordered one way or the other. */
  lemma {:induction false} LexLessTotal(a: string, b: string)
    requires a != b
    ensures LexLess(a, b) || LexLess(b, a)
    decreases |a|
  {
    if |a| > 0 && |b| > 0 && a[0] == b[0] {
      assert a == [a[0]] + a[1..] && b == [b[0]] + b[1..];
      LexLessTotal(a[1..], b[1..]);
    }
  }

  /** `isNotExpired(expiration)`: `expiration > now`. A stored text is compared
      with the clock's text character by character; an object compares as the
      text "[object Object]"; anything else is converted to a number and,
      against the clock's text (never a number), compares false. */
  predicate IsNotExpired(expiration: Value, now: string) {
    match expiration
    case Str(e) => LexLess(now, e)
    case Obj(_) => LexLess(now, ToJsString(expiration))
    case _ => false
  }

  /** An announcement still shown at a later time was shown at every earlier
      time: expiry never reverses. */
  lemma ExpiryIsMonotone(expiration: Value, earlier: string, later: string)
    requires LexLess(earlier, later)
    requires IsNotExpired(expiration, later)
    ensures IsNotExpired(expiration, earlier)
  {
    match expiration
    case Str(e) => LexLessTransitive(earlier, later, e);
    case Obj(_) => LexLessTransitive(earlier, later, ToJsString(expiration));
  }

  /** An announcement expiring exactly now is no longer shown. */
  lemma ExpiresAtItsOwnTime(e: string)
    ensures !IsNotExpired(Str(e), e)
  {
    LexLessIrreflexive(e);
  }

  /** `announcements.filter((a) => isNotExpired(a.expiration))`. */
  function Shown(rows: seq<Doc>, now: string): (r: seq<Doc>)
    ensures forall row :: row in r <==> row in rows && IsNotExpired(Get(row, EXPIRATION), now)
  {
    Seqs.Filter(rows, (row: Doc) => IsNotExpired(Get(row, EXPIRATION), now))
  }

  /** The list keeps the stored order. */
  lemma ShownKeepsOrder(rows: seq<Doc>, now: string)
    ensures Seqs.SubSeq(Shown(rows, now), rows)
  {
    Seqs.FilterIsSubSeq(rows, (row: Doc) => IsNotExpired(Get(row, EXPIRATION), now));
  }

  /** As time passes the list only loses rows: the list at a later time is the
      list at an earlier time with the newly expired rows taken out. */
  lemma LaterShowsFewer(rows: seq<Doc>, earlier: string, later: string)
    requires LexLess(earlier, later)
    ensures Shown(rows, later) == Seqs.Filter(Shown(rows, earlier), (row: Doc) => IsNotExpired(Get(row, EXPIRATION), later))
    ensures Seqs.SubSeq(Shown(rows, later), Shown(rows, earlier))
  {
    var pe := (row: Doc) => IsNotExpired(Get(row, EXPIRATION), earlier);
    var pl := (row: Doc) => IsNotExpired(Get(row, EXPIRATION), later);
    forall row: Doc ensures pl(row) == (pe(row) && pl(row)) {
      if pl(row) {
        ExpiryIsMonotone(Get(row, EXPIRATION), earlier, later);
      }
    }
    Seqs.FilterFilter(rows, pe, pl, pl);
    Seqs.FilterIsSubSeq(Shown(rows, earlier), pl);
  }

  // ---------------------------------------------------------------------------
  // The drawer
  // ---------------------------------------------------------------------------

  /** `expirationDate?.toISOString()`: `undefined` when no date is picked. */
  function ExpirationValue(expiration: Option<string>): Value {
    if expiration.Some? then Str(expiration.value) else Undefined
  }

  /** `handleSubmit()`: with a selected announcement, a patch of its content and
      expiration at its id (refused when it has none); otherwise the creation of
      a new one (refused when the content is empty or no date is picked). */
  function Submit(selected: Option<Doc>, content: string, expiration: Option<string>): (res: Result<seq<Write>, string>)
    ensures res.Err? <==>
      (selected.Some? && !Truthy(Get(selected.value, ID))) || (selected.None? && (content == "" || expiration.None?))
    ensures res.Err? ==> res.error == (if selected.Some? then NO_ID_ERROR else EMPTY_ERROR)
    ensures res.Ok? && selected.Some? ==>
      res.value == [PatchDoc(WeddingAnnouncements, RowWrites.RowId(selected.value),
                             map[CONTENT := Str(content), EXPIRATION := ExpirationValue(expiration)])]
    ensures res.Ok? && selected.None? ==>
      res.value == [CreateDoc(WeddingAnnouncements, map[CONTENT := Str(content), EXPIRATION := Str(expiration.value)])]
  {
    match selected
    case Some(row) =>
      if !Truthy(Get(row, ID)) then Err(NO_ID_ERROR)
      else Ok([PatchDoc(WeddingAnnouncements, RowWrites.RowId(row),
                        map[CONTENT := Str(content), EXPIRATION := ExpirationValue(expiration)])])
    case None =>
      if content == "" || expiration.None? then Err(EMPTY_ERROR)
      else Ok([CreateDoc(WeddingAnnouncements, map[CONTENT := Str(content), EXPIRATION := Str(expiration.value)])])
  }

  /** Saving an edit with the date cleared writes `expiration: undefined`, which
      the database refuses: nothing changes. */
  lemma EditWithoutDateChangesNothing(db: Db, row: Doc, content: string, now: string)
    requires Submit(Some(row), content, None).Ok?
    ensures ApplyAll(db, Submit(Some(row), content, None).value, now) == db
  {
    var w := Submit(Some(row), content, None).value[0];
    assert Patch(db, WeddingAnnouncements, w.id, w.data, now).Err? by {
      assert w.data[EXPIRATION] == Undefined;
    }
    ApplyOne(db, w, now);
  }

  /** Adding an announcement: one row is appended with the content and the
      expiration, and the list shows it exactly while the clock's text is
      before the expiration. */
  lemma AddedShownUntilExpiry(db: Db, db': Db, content: string, expiration: string, now: string, clock: string)
    requires WellFormed(db)
    requires content != ""
    requires db' == ApplyAll(db, Submit(None, content, Some(expiration)).value, now)
    ensures RowWrites.ShowsCreated(db, db', WeddingAnnouncements, map[CONTENT := Str(content), EXPIRATION := Str(expiration)])
    ensures var row := FetchAll(db', WeddingAnnouncements)[|FetchAll(db, WeddingAnnouncements)|];
      && Get(row, CONTENT) == Str(content)
      && (row in Shown(FetchAll(db', WeddingAnnouncements), clock) <==> LexLess(clock, expiration))
  {
    var data := map[CONTENT := Str(content), EXPIRATION := Str(expiration)];
    RowWrites.CreateListedRow(db, db', WeddingAnnouncements, data, now);
    CreatedRowShown(db, db', data, clock);
  }

  lemma CreatedRowShown(db: Db, db': Db, data: Doc, clock: string)
    requires RowWrites.ShowsCreated(db, db', WeddingAnnouncements, data)
    requires CONTENT in data && EXPIRATION in data && data[CONTENT].Str? && data[EXPIRATION].Str?
    ensures var row := FetchAll(db', WeddingAnnouncements)[|FetchAll(db, WeddingAnnouncements)|];
      && Get(row, CONTENT) == data[CONTENT]
      && (row in Shown(FetchAll(db', WeddingAnnouncements), clock) <==> LexLess(clock, data[EXPIRATION].s))
  {
    var row := FetchAll(db', WeddingAnnouncements)[|FetchAll(db, WeddingAnnouncements)|];
    assert Get(row, EXPIRATION) == data[EXPIRATION];
    assert Get(row, CONTENT) == data[CONTENT];
  }

  /** Editing a listed announcement with a date: content and expiration are
      replaced, the other fields but the update stamp stay, and the row is
      listed exactly while the clock's text is before the new expiration. */
  lemma EditMovesExpiry(db: Db, db': Db, i: nat, content: string, expiration: string, now: string, clock: string)
    requires WellFormed(db)
    requires i < |Coll(db, WeddingAnnouncements)| && ID !in Coll(db, WeddingAnnouncements)[i].doc
    requires db' == ApplyAll(db, Submit(Some(FetchAll(db, WeddingAnnouncements)[i]), content, Some(expiration)).value, now)
    ensures RowWrites.ShowsPatched(db, db', WeddingAnnouncements, i, map[CONTENT := Str(content), EXPIRATION := Str(expiration)])
    ensures var row' := RowWrites.Refetched(db', WeddingAnnouncements, Coll(db, WeddingAnnouncements)[i].key);
      && Get(row', CONTENT) == Str(content)
      && (IsNotExpired(Get(row', EXPIRATION), clock) <==> LexLess(clock, expiration))
  {
    var p := WeddingAnnouncements;
    var patch := map[CONTENT := Str(content), EXPIRATION := Str(expiration)];
    RowWrites.RowIdIsKey(db, p, i);
    assert Submit(Some(FetchAll(db, p)[i]), content, Some(expiration)).value == [PatchDoc(p, Coll(db, p)[i].key, patch)];
    PatchMovesExpiry(db, db', i, patch, now, clock);
  }

  /** The edit's write with the patch left abstract. */
  lemma PatchMovesExpiry(db: Db, db': Db, i: nat, patch: Doc, now: string, clock: string)
    requires WellFormed(db) && i < |Coll(db, WeddingAnnouncements)|
    requires CONTENT in patch && EXPIRATION in patch && patch[CONTENT].Str? && patch[EXPIRATION].Str?
    requires !HasUndefined(patch)
    requires db' == ApplyAll(db, [PatchDoc(WeddingAnnouncements, Coll(db, WeddingAnnouncements)[i].key, patch)], now)
    ensures RowWrites.ShowsPatched(db, db', WeddingAnnouncements, i, patch)
    ensures var row' := RowWrites.Refetched(db', WeddingAnnouncements, Coll(db, WeddingAnnouncements)[i].key);
      && Get(row', CONTENT) == patch[CONTENT]
      && (IsNotExpired(Get(row', EXPIRATION), clock) <==> LexLess(clock, patch[EXPIRATION].s))
  {
    var p := WeddingAnnouncements;
    RowWrites.PatchListedRow(db, db', p, i, patch, now);
    RowWrites.PatchedField(db, db', p, i, patch, CONTENT);
    RowWrites.PatchedField(db, db', p, i, patch, EXPIRATION);
  }

  /** Deleting a listed announcement drops exactly that row. */
  lemma DeleteDropsRow(db: Db, db': Db, i: nat, now: string)
    requires WellFormed(db)
    requires i < |Coll(db, WeddingAnnouncements)| && ID !in Coll(db, WeddingAnnouncements)[i].doc
    requires db' == ApplyAll(db, RowWrites.DeleteRow(WeddingAnnouncements, FetchAll(db, WeddingAnnouncements)[i]), now)
    ensures FetchAll(db', WeddingAnnouncements) == FetchAll(db, WeddingAnnouncements)[..i] + FetchAll(db, WeddingAnnouncements)[i + 1..]
  {
    RowWrites.RowIdIsKey(db, WeddingAnnouncements, i);
    RowWrites.DeleteListedRow(db, db', WeddingAnnouncements, i, now);
  }
}
