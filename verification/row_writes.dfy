/** What the pages' row handlers share: the id text of a listed row
    (`String(row.id)`), and what a patch of one stored row, alone or after a
    notification, leaves in the store. */
module RowWrites {
  import opened Json
  import opened Store

  /** `String(row.id)`. */
  function RowId(row: Doc): string {
    ToJsString(Get(row, ID))
  }

  /** A listed row that stores no `id` of its own carries its key as id, and in
      a well-formed store that key is a truthy, valid one. */
  lemma RowIdIsKey(db: Db, p: Path, i: nat)
    requires WellFormed(db)
    requires i < |Coll(db, p)| && ID !in Coll(db, p)[i].doc
    ensures Get(FetchAll(db, p)[i], ID) == Str(Coll(db, p)[i].key)
    ensures RowId(FetchAll(db, p)[i]) == Coll(db, p)[i].key
    ensures Truthy(Get(FetchAll(db, p)[i], ID))
    ensures ValidKey(Coll(db, p)[i].key) && HasKey(Coll(db, p), Coll(db, p)[i].key)
  {
    CollWellFormed(db, p);
  }

  /** The effect on the row under `k` of patching it with `patch`. */
  ghost predicate RowPatched(db: Db, db': Db, p: Path, k: string, patch: Doc, now: string) {
    var c, c' := Coll(db, p), Coll(db', p);
    && WellFormed(db')
    && Lookup(c, k).Some? && Lookup(c', k).Some?
    && PatchedCopy(Lookup(c', k).value, Lookup(c, k).value, patch, UPDATED, now)
    && (forall k' :: k' != k ==> Lookup(c', k') == Lookup(c, k'))
  }

  /** One patch of a stored row, with no `undefined` field, succeeds: the row is
      the old row merged with the patch, and no other row changes. */
  lemma PatchRow(db: Db, p: Path, k: string, patch: Doc, now: string)
    requires WellFormed(db) && HasKey(Coll(db, p), k)
    requires !HasUndefined(patch)
    ensures RowPatched(db, ApplyAll(db, [PatchDoc(p, k, patch)], now), p, k, patch, now)
    ensures OthersUnchanged(db, ApplyAll(db, [PatchDoc(p, k, patch)], now), p)
  {
    CollWellFormed(db, p);
    assert ValidKey(k);
    var r := Patch(db, p, k, patch, now);
    assert r.Ok?;
    ApplyOne(db, PatchDoc(p, k, patch), now);
    PatchPreservesWellFormed(db, p, k, patch, now);
  }

  /** A notification create followed by a patch of a row outside the
      notification collection: the row ends up exactly as after the patch alone. */
  lemma NotifyThenPatchRow(db: Db, data: Doc, p: Path, k: string, patch: Doc, now: string)
    requires WellFormed(db) && HasKey(Coll(db, p), k) && p != Notification
    requires !HasUndefined(data) && !HasUndefined(patch)
    ensures RowPatched(db, ApplyAll(db, [CreateDoc(Notification, data), PatchDoc(p, k, patch)], now), p, k, patch, now)
  {
    assert Create(db, Notification, data, now).Ok?;
    var db1 := Create(db, Notification, data, now).value.db;
    ApplyOne(db, CreateDoc(Notification, data), now);
    ApplyFirst(db, CreateDoc(Notification, data), [PatchDoc(p, k, patch)], now);
    CreatePreservesWellFormed(db, Notification, data, now);
    assert Coll(db1, p) == Coll(db, p);
    PatchRow(db1, p, k, patch, now);
  }

  /** The row the store holds under key `k`, as the list reads it again. */
  function Refetched(db: Db, p: Path, k: string): (row: Doc)
    requires Lookup(Coll(db, p), k).Some?
    ensures forall f :: f != ID ==> Get(row, f) == Get(Lookup(Coll(db, p), k).value, f)
  {
    map[ID := Str(k)] + Lookup(Coll(db, p), k).value
  }

  /** The listed row `i` after a patch, read again: the fields the patch sets
      (other than `id`) hold the patch's values, and the fields it does not name
      keep the old ones (a field absent before stays absent). */
  lemma ListedRowPatched(db: Db, db': Db, p: Path, i: nat, patch: Doc, now: string)
    requires WellFormed(db) && i < |Coll(db, p)|
    requires RowPatched(db, db', p, Coll(db, p)[i].key, patch, now)
    ensures var k, prev := Coll(db, p)[i].key, Coll(db, p)[i].doc;
      && (forall f :: f in patch && f != UPDATED && f != ID && patch[f] != Null ==>
            Get(Refetched(db', p, k), f) == patch[f])
      && (forall f :: f !in patch && f != UPDATED && f != ID ==>
            Get(Refetched(db', p, k), f) == Get(prev, f))
  {
    CollWellFormed(db, p);
    LookupDistinct(Coll(db, p), i);
  }

  /** What the list shows for the listed row `i` after its patch, alone or
      after a notification: still a row under its key, with the patch's fields
      set and the other fields (but the update stamp) as before. */
  ghost predicate ShowsPatched(db: Db, db': Db, p: Path, i: nat, patch: Doc)
    requires i < |Coll(db, p)|
  {
    var k, prev := Coll(db, p)[i].key, Coll(db, p)[i].doc;
    && Lookup(Coll(db', p), k).Some?
    && (forall f :: f in patch && f != UPDATED && f != ID && patch[f] != Null ==>
          Get(Refetched(db', p, k), f) == patch[f])
    && (forall f :: f !in patch && f != UPDATED && f != ID ==>
          Get(Refetched(db', p, k), f) == Get(prev, f))
  }

  /** One field the patch sets, read back from the row. */
  lemma PatchedField(db: Db, db': Db, p: Path, i: nat, patch: Doc, f: string)
    requires i < |Coll(db, p)| && ShowsPatched(db, db', p, i, patch)
    requires f in patch && f != UPDATED && f != ID && patch[f] != Null
    ensures Get(Refetched(db', p, Coll(db, p)[i].key), f) == patch[f]
  {
  }

  lemma PatchListedRow(db: Db, db': Db, p: Path, i: nat, patch: Doc, now: string)
    requires WellFormed(db) && i < |Coll(db, p)| && !HasUndefined(patch)
    requires db' == ApplyAll(db, [PatchDoc(p, Coll(db, p)[i].key, patch)], now)
    ensures ShowsPatched(db, db', p, i, patch)
  {
    CollWellFormed(db, p);
    assert HasKey(Coll(db, p), Coll(db, p)[i].key);
    PatchRow(db, p, Coll(db, p)[i].key, patch, now);
    ListedRowPatched(db, db', p, i, patch, now);
  }

  lemma NotifyThenPatchListedRow(db: Db, db': Db, data: Doc, p: Path, i: nat, patch: Doc, now: string)
    requires WellFormed(db) && i < |Coll(db, p)| && p != Notification
    requires !HasUndefined(data) && !HasUndefined(patch)
    requires db' == ApplyAll(db, [CreateDoc(Notification, data), PatchDoc(p, Coll(db, p)[i].key, patch)], now)
    ensures ShowsPatched(db, db', p, i, patch)
  {
    CollWellFormed(db, p);
    assert HasKey(Coll(db, p), Coll(db, p)[i].key);
    NotifyThenPatchRow(db, data, p, Coll(db, p)[i].key, patch, now);
    ListedRowPatched(db, db', p, i, patch, now);
  }

  /** The delete button of a row is rendered when the row has a truthy id, and
      deletes the document at `String(row.id)`. */
  predicate DeleteShown(row: Doc) {
    Truthy(Get(row, ID))
  }

  function DeleteRow(p: Path, row: Doc): (ws: seq<Write>)
    requires DeleteShown(row)
    ensures ws == [RemoveDoc(p, RowId(row))]
  {
    [RemoveDoc(p, RowId(row))]
  }

  /** Deleting listed row `i`: the list read again is the old list without that
      row, every other row in its old place and unchanged, and no other
      collection changes. */
  lemma DeleteListedRow(db: Db, db': Db, p: Path, i: nat, now: string)
    requires WellFormed(db)
    requires i < |Coll(db, p)| && ID !in Coll(db, p)[i].doc
    requires DeleteShown(FetchAll(db, p)[i])
    requires db' == ApplyAll(db, DeleteRow(p, FetchAll(db, p)[i]), now)
    ensures WellFormed(db')
    ensures FetchAll(db', p) == FetchAll(db, p)[..i] + FetchAll(db, p)[i + 1..]
    ensures OthersUnchanged(db, db', p)
  {
    var c := Coll(db, p);
    var k := c[i].key;
    RowIdIsKey(db, p, i);
    assert Remove(db, p, k).Ok?;
    ApplyOne(db, RemoveDoc(p, k), now);
    RemovePreservesWellFormed(db, p, k);
    CollWellFormed(db, p);
    RemoveListedEntry(c, i);
    assert Coll(db', p) == c[..i] + c[i + 1..];
    var all, all' := FetchAll(db, p), FetchAll(db', p);
    assert |all'| == |all| - 1;
    forall j | 0 <= j < |all'| ensures all'[j] == (all[..i] + all[i + 1..])[j] {
      if j < i {
        assert Coll(db', p)[j] == c[j];
      } else {
        assert Coll(db', p)[j] == c[j + 1];
      }
    }
  }

  /** What the list shows after `create(data)`: the old rows unchanged and in
      place, then one new row carrying the data's non-null fields under a fresh
      key, which the row's delete button can address. */
  ghost predicate ShowsCreated(db: Db, db': Db, p: Path, data: Doc) {
    var all, all' := FetchAll(db, p), FetchAll(db', p);
    && |all'| == |all| + 1
    && all'[..|all|] == all
    && DeleteShown(all'[|all|])
    && ValidKey(RowId(all'[|all|])) && !HasKey(Coll(db, p), RowId(all'[|all|]))
    && (forall f :: f in data && f != DATE_TIME_STAMP && f != ID && data[f] != Null ==>
          Get(all'[|all|], f) == data[f])
  }

  /** Creating a document without `undefined` fields and without an `id` of its
      own appends one listed row and touches no other collection. */
  lemma CreateListedRow(db: Db, db': Db, p: Path, data: Doc, now: string)
    requires WellFormed(db) && !HasUndefined(data) && ID !in data
    requires db' == ApplyAll(db, [CreateDoc(p, data)], now)
    ensures WellFormed(db') && OthersUnchanged(db, db', p)
    ensures ShowsCreated(db, db', p, data)
  {
    assert Create(db, p, data, now).Ok?;
    ApplyOne(db, CreateDoc(p, data), now);
    CreatePreservesWellFormed(db, p, data, now);
    var c, c' := Coll(db, p), Coll(db', p);
    assert c' == c + [c'[|c|]];
    AppendedShowsCreated(db, db', p, c'[|c|], data, now);
  }

  lemma AppendedShowsCreated(db: Db, db': Db, p: Path, e: Entry, data: Doc, now: string)
    requires Coll(db', p) == Coll(db, p) + [e]
    requires ValidKey(e.key) && !HasKey(Coll(db, p), e.key)
    requires StampedCopy(e.doc, data, DATE_TIME_STAMP, now) && ID !in data
    ensures ShowsCreated(db, db', p, data)
  {
    FetchAllAppend(db, db', p, e);
    var all, all' := FetchAll(db, p), FetchAll(db', p);
    assert all' == all + [InjectId(e)];
    assert all'[..|all|] == all;
    assert all'[|all|] == InjectId(e);
    InjectStamped(e, data, now);
    assert RowId(InjectId(e)) == e.key;
  }

  lemma FetchAllAppend(db: Db, db': Db, p: Path, e: Entry)
    requires Coll(db', p) == Coll(db, p) + [e]
    ensures FetchAll(db', p) == FetchAll(db, p) + [InjectId(e)]
  {
  }

  /** The listed row of a freshly created entry: its key as `id`, and the
      created data's non-null fields. */
  lemma InjectStamped(e: Entry, data: Doc, now: string)
    requires StampedCopy(e.doc, data, DATE_TIME_STAMP, now) && ID !in data
    ensures Get(InjectId(e), ID) == Str(e.key)
    ensures forall f :: f in data && f != DATE_TIME_STAMP && f != ID && data[f] != Null ==>
      Get(InjectId(e), f) == data[f]
  {
  }
}
