/** The priests page: a drawer that adds a priest or edits the selected one,
    and a delete button on every row with an id. A new phone number is
    confirmed by a one-time code first; the account id that confirmation
    yields (`uid`) is stored as the priest's `authId`, the link by which a
    signed-in priest finds their own appointments. Sending and checking the
    code are outside the model: the confirmed `uid` is a parameter. */
module PriestPage {
  import opened Wrappers
  import opened Json
  import opened Store
  import opened Session
  import RowWrites
  import Fetcher
  import UserFilterList

  const PHONE_NUMBER_MASK := "+63 000-0000-000"
  const NAME_MESSAGE := "Name should have at least 2 letters"
  const PHONE_MESSAGE := "Phone number should have 13 characters"
  const NO_ID_ERROR := "Selected priest has no id"

  const NAME := "name"
  const PHONE_NUMBER := "phoneNumber"
  const AUTH_ID := "authId"

  /** The drawer's form values. */
  datatype PriestForm = PriestForm(name: string, phoneNumber: string)

  /** The form's schema: a name of at least two characters, and a phone number
      exactly as long as the mask (whatever the message says). One message per
      failing field, the name's first. */
  function Validate(f: PriestForm): (errors: seq<string>)
    ensures NAME_MESSAGE in errors <==> |f.name| < 2
    ensures PHONE_MESSAGE in errors <==> |f.phoneNumber| != |PHONE_NUMBER_MASK|
    ensures forall e :: e in errors ==> e == NAME_MESSAGE || e == PHONE_MESSAGE
  {
    (if |f.name| < 2 then [NAME_MESSAGE] else []) +
    (if |f.phoneNumber| != |PHONE_NUMBER_MASK| then [PHONE_MESSAGE] else [])
  }

  /** The mask is sixteen characters long, so a number typed in full passes and
      a thirteen-character one does not. */
  lemma PhoneRuleCountsTheMask()
    ensures |PHONE_NUMBER_MASK| == 16
    ensures Validate(PriestForm("Fr. Cruz", "+63 917-1234-567")) == []
    ensures PHONE_MESSAGE in Validate(PriestForm("Fr. Cruz", "+639171234567"))
  {
  }

  /** Where a valid submission goes. */
  datatype Route =
    | SendCode   // confirm the phone number with a one-time code, then save
    | SaveNow    // save at once

  /** `form.onSubmit(handleSubmit)`: the schema first; then a code is sent
      unless a priest is selected whose stored number is exactly the form's. */
  function Submit(selected: Option<Doc>, f: PriestForm): (r: Result<Route, seq<string>>)
    ensures r.Err? <==> Validate(f) != []
    ensures r.Err? ==> r.error == Validate(f)
    ensures r == Ok(SaveNow) <==>
      Validate(f) == [] && selected.Some? && Get(selected.value, PHONE_NUMBER) == Str(f.phoneNumber)
  {
    if Validate(f) != [] then Err(Validate(f))
    else if selected.None? then Ok(SendCode)
    else
      var phone := Get(selected.value, PHONE_NUMBER);
      if !Truthy(phone) || !StrictEquals(phone, SStr(f.phoneNumber)) then Ok(SendCode) else Ok(SaveNow)
  }

  /** `userAuthId || null`. */
  function AuthIdOf(uid: Option<string>): (v: Value)
    ensures v.Str? <==> uid.Some? && uid.value != ""
    ensures v.Str? ==> v.s == uid.value
    ensures !v.Str? ==> v == Null
  {
    if uid.Some? && uid.value != "" then Str(uid.value) else Null
  }

  /** `{ ...form.getValues(), authId }`. */
  function Payload(f: PriestForm, authId: Value): (d: Doc)
    ensures d.Keys == {NAME, PHONE_NUMBER, AUTH_ID}
    ensures d[NAME] == Str(f.name) && d[PHONE_NUMBER] == Str(f.phoneNumber) && d[AUTH_ID] == authId
  {
    map[NAME := Str(f.name), PHONE_NUMBER := Str(f.phoneNumber), AUTH_ID := authId]
  }

  /** The save step given the account id to store: a patch of the selected
      priest at its id (refused when it has none), or the creation of a new one. */
  function Save(selected: Option<Doc>, f: PriestForm, authId: Value): (res: Result<seq<Write>, string>)
    ensures res.Err? <==> selected.Some? && !Truthy(Get(selected.value, ID))
    ensures res.Err? ==> res.error == NO_ID_ERROR
    ensures res.Ok? && selected.Some? ==>
      res.value == [PatchDoc(Priests, RowWrites.RowId(selected.value), Payload(f, authId))]
    ensures res.Ok? && selected.None? ==> res.value == [CreateDoc(Priests, Payload(f, authId))]
  {
    match selected
    case Some(row) =>
      if !Truthy(Get(row, ID)) then Err(NO_ID_ERROR)
      else Ok([PatchDoc(Priests, RowWrites.RowId(row), Payload(f, authId))])
    case None => Ok([CreateDoc(Priests, Payload(f, authId))])
  }

  /** `upsertPriest(userAuthId)` as written: the account id is `userAuthId ||
      null`, so saving without a confirmed code writes `authId: null`. */
  function UpsertAsWritten(selected: Option<Doc>, f: PriestForm, uid: Option<string>): (res: Result<seq<Write>, string>)
    ensures res == Save(selected, f, AuthIdOf(uid))
    ensures res.Ok? && uid.None? ==> res.value[0].data[AUTH_ID] == Null
  {
    Save(selected, f, AuthIdOf(uid))
  }

  /** The account id a save should store: the newly confirmed one, else the
      one the selected priest already has, else none. */
  function KeptAuthId(selected: Option<Doc>, uid: Option<string>): (v: Value)
    ensures uid.Some? && uid.value != "" ==> v == Str(uid.value)
    ensures (uid.None? || uid.value == "") && selected.Some? && Truthy(Get(selected.value, AUTH_ID)) ==>
      v == Get(selected.value, AUTH_ID)
    ensures v != Undefined
  {
    if uid.Some? && uid.value != "" then Str(uid.value)
    else if selected.Some? && Truthy(Get(selected.value, AUTH_ID)) then Get(selected.value, AUTH_ID)
    else Null
  }

  /** `upsertPriest(userAuthId)` keeping an existing link. */
  function Upsert(selected: Option<Doc>, f: PriestForm, uid: Option<string>): (res: Result<seq<Write>, string>)
    ensures res == Save(selected, f, KeptAuthId(selected, uid))
    ensures res.Ok? && uid.Some? && uid.value != "" ==> res.value[0].data[AUTH_ID] == Str(uid.value)
  {
    Save(selected, f, KeptAuthId(selected, uid))
  }

  /** A new priest always confirms the phone number first, and the save as
      written then stores it with the confirmed account as its link; the
      corrected save writes the same. */
  lemma NewPriestIsLinked(db: Db, db': Db, f: PriestForm, uid: string, now: string)
    requires WellFormed(db) && Validate(f) == [] && uid != ""
    requires db' == ApplyAll(db, UpsertAsWritten(None, f, Some(uid)).value, now)
    ensures Submit(None, f) == Ok(SendCode)
    ensures UpsertAsWritten(None, f, Some(uid)) == Upsert(None, f, Some(uid))
    ensures RowWrites.ShowsCreated(db, db', Priests, Payload(f, Str(uid)))
    ensures Get(FetchAll(db', Priests)[|FetchAll(db, Priests)|], AUTH_ID) == Str(uid)
  {
    RowWrites.CreateListedRow(db, db', Priests, Payload(f, Str(uid)), now);
  }

  /** The priests collection after patching the lone priest under `k`. */
  lemma PatchLonePriest(db: Db, k: string, priest: Doc, data: Doc, now: string)
    requires Coll(db, Priests) == [Entry(k, priest)] && ValidKey(k) && !HasUndefined(data)
    ensures Coll(ApplyAll(db, [PatchDoc(Priests, k, data)], now), Priests)
      == [Entry(k, Merge(priest, data[UPDATED := Str(now)]))]
  {
    var formData := data[UPDATED := Str(now)];
    assert !HasUndefined(formData);
    assert Patch(db, Priests, k, data, now) == Ok(db[Priests := PatchEntries([Entry(k, priest)], k, formData)]);
    ApplyOne(db, PatchDoc(Priests, k, data), now);
  }

  /** A signed-in priest whose record is the only one is found through its
      `authId` exactly when that field holds the account's id. */
  lemma LonePriestFound(db: Db, s: State, k: string, priest: Doc)
    requires !IsSuperAdmin(s) && Coll(db, Priests) == [Entry(k, priest)] && ID !in priest
    ensures Get(priest, AUTH_ID) == Str(UserIdText(s)) ==> UserFilterList.SignedInPriestId(db, s) == k
    ensures Get(priest, AUTH_ID) == Undefined ==> UserFilterList.SignedInPriestId(db, s) == "undefined"
  {
    if Get(priest, AUTH_ID) == Str(UserIdText(s)) {
      UserFilterList.LinkedPriestSeesRowsOfItsKey(db, s, [], 0);
    } else if Get(priest, AUTH_ID) == Undefined {
      assert FetchAll(db, Priests) == [InjectId(Entry(k, priest))];
    }
  }

  /** Saving an edit of the lone, linked priest without changing the phone
      number, as written: the save goes straight through with `authId: null`,
      the database deletes the field, and the signed-in priest is no longer
      found: their appointment lists now match the id "undefined". */
  lemma AsWrittenEditUnlinks(db: Db, db': Db, k: string, priest: Doc, f: PriestForm, now: string, s: State)
    requires !IsSuperAdmin(s) && WellFormed(db)
    requires Coll(db, Priests) == [Entry(k, priest)] && ID !in priest
    requires Get(priest, AUTH_ID) == Str(UserIdText(s))
    requires Submit(Some(FetchAll(db, Priests)[0]), f) == Ok(SaveNow)
    requires db' == ApplyAll(db, UpsertAsWritten(Some(FetchAll(db, Priests)[0]), f, None).value, now)
    ensures UserFilterList.SignedInPriestId(db, s) == k
    ensures UserFilterList.SignedInPriestId(db', s) == "undefined"
  {
    var row := FetchAll(db, Priests)[0];
    RowWrites.RowIdIsKey(db, Priests, 0);
    var data := Payload(f, Null);
    assert UpsertAsWritten(Some(row), f, None).value == [PatchDoc(Priests, k, data)];
    LonePriestFound(db, s, k, priest);
    UnlinkingPatch(db, db', k, priest, data, now, s);
  }

  /** Patching the lone priest with `authId: null` leaves no priest found for
      the account. */
  lemma UnlinkingPatch(db: Db, db': Db, k: string, priest: Doc, data: Doc, now: string, s: State)
    requires !IsSuperAdmin(s) && WellFormed(db)
    requires Coll(db, Priests) == [Entry(k, priest)] && ID !in priest
    requires !HasUndefined(data) && ID !in data && AUTH_ID in data && data[AUTH_ID] == Null
    requires db' == ApplyAll(db, [PatchDoc(Priests, k, data)], now)
    ensures UserFilterList.SignedInPriestId(db', s) == "undefined"
  {
    assert Coll(db, Priests)[0].key == k;
    PatchLonePriest(db, k, priest, data, now);
    var priest' := Merge(priest, data[UPDATED := Str(now)]);
    assert AUTH_ID !in priest';
    LonePriestFound(db', s, k, priest');
  }

  /** The same edit with the link kept: the priest stays found under its key. */
  lemma EditKeepsLink(db: Db, db': Db, k: string, priest: Doc, f: PriestForm, now: string, s: State)
    requires !IsSuperAdmin(s) && WellFormed(db)
    requires Coll(db, Priests) == [Entry(k, priest)] && ID !in priest
    requires Get(priest, AUTH_ID) == Str(UserIdText(s)) && UserIdText(s) != ""
    requires Submit(Some(FetchAll(db, Priests)[0]), f) == Ok(SaveNow)
    requires db' == ApplyAll(db, Upsert(Some(FetchAll(db, Priests)[0]), f, None).value, now)
    ensures UserFilterList.SignedInPriestId(db', s) == k
  {
    var row := FetchAll(db, Priests)[0];
    RowWrites.RowIdIsKey(db, Priests, 0);
    assert Get(row, AUTH_ID) == Get(priest, AUTH_ID);
    KeptLinkWrites(row, f, UserIdText(s));
    LinkedPatchKeepsLink(db, db', k, priest, Payload(f, Str(UserIdText(s))), now, s);
  }

  /** The writes of an edit saved without a new code, for a linked priest. */
  lemma KeptLinkWrites(row: Doc, f: PriestForm, uid: string)
    requires Truthy(Get(row, ID)) && Get(row, AUTH_ID) == Str(uid) && uid != ""
    ensures Upsert(Some(row), f, None) == Ok([PatchDoc(Priests, RowWrites.RowId(row), Payload(f, Str(uid)))])
  {
  }

  /** Patching the lone priest with a payload that holds the account's id
      leaves the priest found under its key. */
  lemma LinkedPatchKeepsLink(db: Db, db': Db, k: string, priest: Doc, data: Doc, now: string, s: State)
    requires !IsSuperAdmin(s) && WellFormed(db)
    requires Coll(db, Priests) == [Entry(k, priest)] && ID !in priest
    requires !HasUndefined(data) && ID !in data && AUTH_ID in data && data[AUTH_ID] == Str(UserIdText(s))
    requires db' == ApplyAll(db, [PatchDoc(Priests, k, data)], now)
    ensures UserFilterList.SignedInPriestId(db', s) == k
  {
    assert Coll(db, Priests)[0].key == k;
    PatchLonePriest(db, k, priest, data, now);
    var priest' := Merge(priest, data[UPDATED := Str(now)]);
    assert Get(priest', AUTH_ID) == Str(UserIdText(s));
    LonePriestFound(db', s, k, priest');
  }

  /** Deleting a listed priest drops exactly that row. */
  lemma DeleteDropsRow(db: Db, db': Db, i: nat, now: string)
    requires WellFormed(db)
    requires i < |Coll(db, Priests)| && ID !in Coll(db, Priests)[i].doc
    requires db' == ApplyAll(db, RowWrites.DeleteRow(Priests, FetchAll(db, Priests)[i]), now)
    ensures FetchAll(db', Priests) == FetchAll(db, Priests)[..i] + FetchAll(db, Priests)[i + 1..]
  {
    RowWrites.RowIdIsKey(db, Priests, i);
    RowWrites.DeleteListedRow(db, db', Priests, i, now);
  }
}
