/** Restricting appointment lists to the signed-in priest
    (`filterListByPriestUserId` and `useFilterList`). */
module UserFilterList {
  import opened Wrappers
  import opened Json
  import opened Session
  import opened Store
  import Fetcher
  import Seqs

  const REJECTED := "rejected"

  /** The row is an object with a `priestId` property that is the string
      `priestId`, and its priest has not rejected it. */
  predicate AssignedTo(row: Value, priestId: string) {
    && row.Obj?
    && "priestId" in row.fields
    && StrictEquals(row.fields["priestId"], SStr(priestId))
    && !StrictEquals(Get(row.fields, "priestConfirmationStatus"), SStr(REJECTED))
  }

  /** `filterListByPriestUserId(data, user, priestId)`: the whole list for a
      super administrator; for anyone else (or nobody) only the rows assigned to
      `priestId` that the priest has not rejected, in their original order. */
  function FilterByPriest(data: seq<Value>, user: Option<User>, priestId: string): (r: seq<Value>)
    ensures user.Some? && user.value.isSuperAdmin ==> r == data
    ensures !(user.Some? && user.value.isSuperAdmin) ==>
      && (forall i :: 0 <= i < |r| ==> r[i] in data && AssignedTo(r[i], priestId))
      && (forall i :: 0 <= i < |data| && AssignedTo(data[i], priestId) ==> data[i] in r)
      && Seqs.SubSeq(r, data)
      && |r| == Seqs.CountWhere(data, row => AssignedTo(row, priestId))
  {
    if user.Some? && user.value.isSuperAdmin then data
    else
      Seqs.FilterIsSubSeq(data, row => AssignedTo(row, priestId));
      Seqs.FilterLength(data, row => AssignedTo(row, priestId));
      Seqs.Filter(data, row => AssignedTo(row, priestId))
  }

  /** What a priest sees is a subsequence of the full list, with no rejected row
      and no row of another priest. */
  lemma PriestSeesOwnRows(data: seq<Value>, user: Option<User>, priestId: string)
    requires !(user.Some? && user.value.isSuperAdmin)
    ensures Seqs.SubSeq(FilterByPriest(data, user, priestId), data)
    ensures forall i :: 0 <= i < |FilterByPriest(data, user, priestId)| ==>
      var row := FilterByPriest(data, user, priestId)[i];
      && row.fields["priestId"] == Str(priestId)
      && Get(row.fields, "priestConfirmationStatus") != Str(REJECTED)
  {
    Seqs.FilterIsSubSeq(data, row => AssignedTo(row, priestId));
  }

  /** The rows of two different priests never overlap. */
  lemma PriestsDisjoint(data: seq<Value>, user: Option<User>, a: string, b: string)
    requires !(user.Some? && user.value.isSuperAdmin)
    requires a != b
    ensures forall i, j :: 0 <= i < |FilterByPriest(data, user, a)| && 0 <= j < |FilterByPriest(data, user, b)| ==>
      FilterByPriest(data, user, a)[i] != FilterByPriest(data, user, b)[j]
  {
  }

  /** The priest listed at `j` is linked to the signed-in account. */
  predicate Linked(db: Db, s: State, j: nat)
    requires j < |FetchAll(db, Priests)|
  {
    Get(FetchAll(db, Priests)[j], "authId") == Str(UserIdText(s))
  }

  /** The priest record of the signed-in user: the priests whose `authId` is
      `String(user?.id)`, and of those the first one's `id`, as text. With no
      such priest the id is the text "undefined". */
  function SignedInPriestId(db: Db, s: State): (id: string)
    ensures |Fetcher.SearchByKey(db, Priests, "authId", SStr(UserIdText(s)))| == 0 ==> id == "undefined"
    ensures (forall j :: 0 <= j < |FetchAll(db, Priests)| ==> !Linked(db, s, j)) ==> id == "undefined"
    ensures forall j :: 0 <= j < |FetchAll(db, Priests)| && Linked(db, s, j) &&
                        (forall k :: 0 <= k < j ==> !Linked(db, s, k)) ==>
      id == ToJsString(Get(FetchAll(db, Priests)[j], "id"))
  {
    var priests := Fetcher.SearchByKey(db, Priests, "authId", SStr(UserIdText(s)));
    FirstLinkedFound(db, s);
    ToJsString(if |priests| > 0 then Get(priests[0], "id") else Undefined)
  }

  /** The search's first hit is the first linked priest in listing order. */
  lemma FirstLinkedFound(db: Db, s: State)
    ensures forall j :: 0 <= j < |FetchAll(db, Priests)| && Linked(db, s, j) &&
                        (forall k :: 0 <= k < j ==> !Linked(db, s, k)) ==>
      var priests := Fetcher.SearchByKey(db, Priests, "authId", SStr(UserIdText(s)));
      |priests| > 0 && priests[0] == FetchAll(db, Priests)[j]
  {
    var all := FetchAll(db, Priests);
    var m := d => Fetcher.Matches(d, "authId", SStr(UserIdText(s)));
    forall d ensures m(d) <==> Get(d, "authId") == Str(UserIdText(s)) {
      StrictEqualsNoCoercion(Get(d, "authId"), SStr(UserIdText(s)));
    }
    forall j | 0 <= j < |all| && Linked(db, s, j) && (forall k :: 0 <= k < j ==> !Linked(db, s, k))
      ensures |Seqs.Filter(all, m)| > 0 && Seqs.Filter(all, m)[0] == all[j]
    {
      forall k | 0 <= k < j ensures !m(all[k]) {
        assert !Linked(db, s, k);
      }
      Seqs.FilterFirst(all, m, j);
    }
  }

  /** `useFilterList(data)`, once the priest search has loaded: the whole list
      for a super administrator, otherwise exactly the rows assigned to the
      signed-in account's priest and not rejected, in their original order. */
  function FilterList(db: Db, s: State, data: seq<Value>): (r: seq<Value>)
    ensures IsSuperAdmin(s) ==> r == data
    ensures !IsSuperAdmin(s) ==>
      && (forall i :: 0 <= i < |r| ==> r[i] in data && AssignedTo(r[i], SignedInPriestId(db, s)))
      && (forall i :: 0 <= i < |data| && AssignedTo(data[i], SignedInPriestId(db, s)) ==> data[i] in r)
      && Seqs.SubSeq(r, data)
  {
    FilterByPriest(data, s.user, SignedInPriestId(db, s))
  }

  /** The first priest linked to the signed-in account, stored under key `k`
      without an `id` field of its own, is the one whose rows the account sees:
      exactly the rows assigned to `k` and not rejected, in their order. */
  lemma LinkedPriestSeesRowsOfItsKey(db: Db, s: State, data: seq<Value>, j: nat)
    requires !IsSuperAdmin(s)
    requires j < |Coll(db, Priests)| && ID !in Coll(db, Priests)[j].doc
    requires Get(Coll(db, Priests)[j].doc, "authId") == Str(UserIdText(s))
    requires forall k :: 0 <= k < j ==> Get(Coll(db, Priests)[k].doc, "authId") != Str(UserIdText(s))
    ensures SignedInPriestId(db, s) == Coll(db, Priests)[j].key
    ensures forall x :: x in FilterList(db, s, data) <==> x in data && AssignedTo(x, Coll(db, Priests)[j].key)
    ensures Seqs.SubSeq(FilterList(db, s, data), data)
  {
    var all := FetchAll(db, Priests);
    forall k | 0 <= k <= j ensures Get(all[k], "authId") == Get(Coll(db, Priests)[k].doc, "authId") {
      assert all[k] == InjectId(Coll(db, Priests)[k]);
    }
    assert Linked(db, s, j);
  }
}
