/** The realtime-database accessor `firebaseDatabase(basePath)`: create, patch,
    remove, fetch and fetchAll over one collection of the document store.

    The remote store is modelled as a map from collection to a sequence of
    (key, document) entries in the order the keys were first written. The
    database itself lists children by key; the two orders agree for the
    chronological keys `push()` generates, but a key first written by a patch
    is listed here last wherever it sorts. The database's own write rules are
    kept: a `null` field is not stored (and, in a patch, deletes the field), an
    `undefined` field makes the write throw, and a patch of a missing key
    creates the document. The current time and the generated key
    are explicit: `now` is the ISO timestamp the accessor stamps, and `FreshKey`
    stands for `push()`, which yields a key unused in the collection. */
module Store {
  import opened Wrappers
  import opened Json

  /** The collections of the dashboard (`TDBPaths`). */
  datatype Path =
    | Announcements
    | Priests
    | MassAppointments
    | HouseLiturgyAppointment
    | ChurchLiturgyAppointment
    | BaptismAppointment
    | BaptismRequestForm
    | ConfirmationAppointment
    | ConfirmationRequestForm
    | WeddingAnnouncements
    | WeddingAppointment
    | WeddingRequestForm
    | FuneralAppointment
    | FuneralRequestForm
    | Notification

  datatype Entry = Entry(key: string, doc: Doc)

  /** One collection, in listing order. */
  type Collection = seq<Entry>

  /** The whole database: a missing collection is an empty one. */
  type Db = map<Path, Collection>

  datatype StoreError =
    | InvalidKey      // the id is not a single path segment the database accepts
    | UndefinedValue  // the written object holds an `undefined` field

  const DATE_TIME_STAMP := "dateTimeStamp"
  const UPDATED := "updated"
  const ID := "id"

  function Coll(db: Db, p: Path): Collection {
    if p in db then db[p] else []
  }

  predicate HasKey(c: Collection, k: string) {
    exists i :: 0 <= i < |c| && c[i].key == k
  }

  /** The document stored under key `k`, if any. */
  function Lookup(c: Collection, k: string): (r: Option<Doc>)
    ensures r.None? <==> !HasKey(c, k)
    ensures r.Some? ==> Entry(k, r.value) in c
  {
    if |c| == 0 then None
    else if c[0].key == k then Some(c[0].doc)
    else
      assert forall i :: 1 <= i < |c| ==> c[i] == c[1..][i - 1];
      Lookup(c[1..], k)
  }

  predicate DistinctKeys(c: Collection) {
    forall i, j :: 0 <= i < j < |c| ==> c[i].key != c[j].key
  }

  /** With distinct keys, looking up an entry's key finds that entry. */
  lemma {:induction false} LookupDistinct(c: Collection, j: nat)
    requires DistinctKeys(c) && j < |c|
    ensures Lookup(c, c[j].key) == Some(c[j].doc)
    decreases j
  {
    if j > 0 {
      assert c[1..][j - 1] == c[j];
      LookupDistinct(c[1..], j - 1);
    }
  }

  predicate ValidKeys(c: Collection) {
    forall i :: 0 <= i < |c| ==> ValidKey(c[i].key)
  }

  /** Every collection lists each key once, and every key is a valid one. */
  predicate WellFormed(db: Db) {
    forall p :: p in db ==> DistinctKeys(db[p]) && ValidKeys(db[p])
  }

  /** A key the database accepts as one path segment: non-empty, and free of
      `/`, `.`, `#`, `$`, `[` and `]`. */
  predicate ValidKey(k: string) {
    |k| > 0 && forall i :: 0 <= i < |k| ==> k[i] !in "/.#$[]"
  }

  function MaxKeyLength(c: Collection): (n: nat)
    ensures forall i :: 0 <= i < |c| ==> |c[i].key| <= n
  {
    if |c| == 0 then 0
    else
      var m := MaxKeyLength(c[1..]);
      assert forall i :: 1 <= i < |c| ==> c[i] == c[1..][i - 1];
      if |c[0].key| > m then |c[0].key| else m
  }

  /** The key `push()` generates: valid, and unused in the collection. */
  function FreshKey(c: Collection): (k: string)
    ensures ValidKey(k)
    ensures !HasKey(c, k)
  {
    seq(MaxKeyLength(c) + 1, _ => '-')
  }

  predicate HasUndefined(d: Doc) {
    exists k :: k in d && d[k] == Undefined
  }

  /** What the database keeps of a written object: `null` fields are dropped. */
  /** Stamping a field never writes `undefined`: the stamped data holds one
      exactly when some other field of the data does. */
  lemma StampedUndefined(data: Doc, field: string, now: string)
    ensures HasUndefined(data[field := Str(now)]) <==> exists k :: k in data && k != field && data[k] == Undefined
  {
    var formData := data[field := Str(now)];
    if HasUndefined(formData) {
      var k :| k in formData && formData[k] == Undefined;
      assert k in data && k != field && data[k] == Undefined;
    }
    if exists k :: k in data && k != field && data[k] == Undefined {
      var k :| k in data && k != field && data[k] == Undefined;
      assert formData[k] == Undefined;
    }
  }

  function Stored(d: Doc): Doc {
    map k | k in d && d[k] != Null :: d[k]
  }

  /** A field-level `update`: written fields replace stored ones, `null` deletes. */
  function Merge(prev: Doc, d: Doc): Doc {
    map k | k in prev.Keys + d.Keys && !(k in d && d[k] == Null) :: if k in d then d[k] else prev[k]
  }

  /** `doc` is what the database holds after writing `data` with `field` stamped
      to `now`: the stamp, every non-null field of `data`, and nothing else. */
  ghost predicate StampedCopy(doc: Doc, data: Doc, field: string, now: string) {
    && field in doc && doc[field] == Str(now)
    && (forall k :: k in data && k != field && data[k] != Null ==> k in doc && doc[k] == data[k])
    && (forall k :: k in doc ==> k == field || (k in data && data[k] != Null))
  }

  /** `doc` is `prev` patched with `data` and `field` stamped to `now`: the stamp,
      the non-null fields of `data`, and every field of `prev` that `data` does not
      name; a field `data` sets to null is gone. */
  ghost predicate PatchedCopy(doc: Doc, prev: Doc, data: Doc, field: string, now: string) {
    && field in doc && doc[field] == Str(now)
    && (forall k :: k in data && k != field && data[k] != Null ==> k in doc && doc[k] == data[k])
    && (forall k :: k in data && k != field && data[k] == Null ==> k !in doc)
    && (forall k :: k in prev && k !in data && k != field ==> k in doc && doc[k] == prev[k])
    && (forall k :: k in doc ==> k == field || k in data || k in prev)
  }

  /** Only collection `p` may differ. */
  ghost predicate OthersUnchanged(db: Db, db': Db, p: Path) {
    forall q :: q != p ==> Coll(db', q) == Coll(db, q)
  }

  datatype Created = Created(db: Db, key: string)

  /** `create(data)`: stores `{...data, dateTimeStamp: now}` under a fresh key
      appended to the collection and returns the key. */
  function Create(db: Db, p: Path, data: Doc, now: string): (r: Result<Created, StoreError>)
    ensures r.Err? <==> exists k :: k in data && k != DATE_TIME_STAMP && data[k] == Undefined
    ensures r.Err? ==> r.error == UndefinedValue
    ensures r.Ok? ==>
      var c, c' := Coll(db, p), Coll(r.value.db, p);
      && ValidKey(r.value.key) && !HasKey(c, r.value.key)
      && |c'| == |c| + 1 && c'[..|c|] == c && c'[|c|].key == r.value.key
      && StampedCopy(c'[|c|].doc, data, DATE_TIME_STAMP, now)
      && OthersUnchanged(db, r.value.db, p)
  {
    var formData := data[DATE_TIME_STAMP := Str(now)];
    StampedUndefined(data, DATE_TIME_STAMP, now);
    if HasUndefined(formData) then
      Err(UndefinedValue)
    else
      AppendFacts(Coll(db, p), data, now);
      Ok(Created(db[p := Coll(db, p) + [Entry(FreshKey(Coll(db, p)), Stored(formData))]], FreshKey(Coll(db, p))))
  }

  /** What appending the stamped data under a fresh key does to a collection. */
  lemma AppendFacts(c: Collection, data: Doc, now: string)
    ensures var c' := c + [Entry(FreshKey(c), Stored(data[DATE_TIME_STAMP := Str(now)]))];
      && |c'| == |c| + 1 && c'[..|c|] == c && c'[|c|].key == FreshKey(c)
      && StampedCopy(c'[|c|].doc, data, DATE_TIME_STAMP, now)
  {
    var formData := data[DATE_TIME_STAMP := Str(now)];
    assert forall k :: k in data && k != DATE_TIME_STAMP ==> formData[k] == data[k];
    var c' := c + [Entry(FreshKey(c), Stored(formData))];
    assert c'[..|c|] == c;
  }

  function PatchEntry(e: Entry, id: string, formData: Doc): Entry {
    if e.key == id then Entry(id, Merge(e.doc, formData)) else e
  }

  /** Patches every entry with key `id`. */
  function PatchEntries(c: Collection, id: string, formData: Doc): (r: Collection)
    ensures |r| == |c|
    ensures forall i :: 0 <= i < |c| ==> r[i].key == c[i].key
    ensures forall i :: 0 <= i < |c| && c[i].key != id ==> r[i] == c[i]
    ensures forall i :: 0 <= i < |c| && c[i].key == id ==> r[i].doc == Merge(c[i].doc, formData)
  {
    seq(|c|, i requires 0 <= i < |c| => PatchEntry(c[i], id, formData))
  }

  /** `patch(id, data)`: a field-level update of `{...data, updated: now}` at
      `id`, which creates the document when the key is absent. */
  function Patch(db: Db, p: Path, id: string, data: Doc, now: string): (r: Result<Db, StoreError>)
    ensures r.Ok? <==> ValidKey(id) && !(exists k :: k in data && k != UPDATED && data[k] == Undefined)
    ensures !ValidKey(id) ==> r == Err(InvalidKey)
    ensures r.Ok? ==>
      var c, c' := Coll(db, p), Coll(r.value, p);
      && Lookup(c', id).Some?
      && PatchedCopy(Lookup(c', id).value, Lookup(c, id).GetOr(map[]), data, UPDATED, now)
      && (forall k :: k != id ==> Lookup(c', k) == Lookup(c, k))
      && (HasKey(c, id) ==> |c'| == |c| && forall i :: 0 <= i < |c| ==> c'[i].key == c[i].key)
      && (!HasKey(c, id) ==> |c'| == |c| + 1 && c'[..|c|] == c)
      && OthersUnchanged(db, r.value, p)
  {
    if !ValidKey(id) then Err(InvalidKey)
    else
      var formData := data[UPDATED := Str(now)];
      StampedUndefined(data, UPDATED, now);
      if HasUndefined(formData) then Err(UndefinedValue)
      else
        PatchCollFacts(Coll(db, p), id, data, now);
        Ok(db[p := PatchColl(Coll(db, p), id, formData)])
  }

  /** The collection after a patch at `id`: the entry merged in place, or a
      new entry at the end. */
  function PatchColl(c: Collection, id: string, formData: Doc): Collection {
    if HasKey(c, id) then PatchEntries(c, id, formData) else c + [Entry(id, Stored(formData))]
  }

  lemma PatchCollFacts(c: Collection, id: string, data: Doc, now: string)
    requires !HasUndefined(data[UPDATED := Str(now)])
    ensures var c' := PatchColl(c, id, data[UPDATED := Str(now)]);
      && Lookup(c', id).Some?
      && PatchedCopy(Lookup(c', id).value, Lookup(c, id).GetOr(map[]), data, UPDATED, now)
      && (forall k :: k != id ==> Lookup(c', k) == Lookup(c, k))
      && (HasKey(c, id) ==> |c'| == |c| && forall i :: 0 <= i < |c| ==> c'[i].key == c[i].key)
      && (!HasKey(c, id) ==> |c'| == |c| + 1 && c'[..|c|] == c)
  {
    var formData := data[UPDATED := Str(now)];
    assert forall k :: k in data && k != UPDATED ==> formData[k] == data[k];
    PatchLookup(c, id, formData);
    if !HasKey(c, id) {
      assert PatchColl(c, id, formData)[..|c|] == c;
    }
  }

  /** What `Patch` leaves under each key. */
  lemma PatchLookup(c: Collection, id: string, formData: Doc)
    ensures HasKey(c, id) ==>
      && Lookup(PatchEntries(c, id, formData), id) == Some(Merge(Lookup(c, id).value, formData))
      && forall k :: k != id ==> Lookup(PatchEntries(c, id, formData), k) == Lookup(c, k)
    ensures !HasKey(c, id) ==>
      && Lookup(c + [Entry(id, Stored(formData))], id) == Some(Stored(formData))
      && forall k :: k != id ==> Lookup(c + [Entry(id, Stored(formData))], k) == Lookup(c, k)
  {
    if HasKey(c, id) {
      PatchEntriesLookup(c, id, formData);
    } else {
      AppendLookup(c, Entry(id, Stored(formData)));
    }
  }

  lemma {:induction false} PatchEntriesLookup(c: Collection, id: string, formData: Doc)
    ensures forall k :: (Lookup(PatchEntries(c, id, formData), k) ==
                         if k == id && HasKey(c, id) then Some(Merge(Lookup(c, id).value, formData))
                         else Lookup(c, k))
  {
    if |c| > 0 {
      var r := PatchEntries(c, id, formData);
      PatchEntriesLookup(c[1..], id, formData);
      assert r[1..] == PatchEntries(c[1..], id, formData);
      assert forall k :: HasKey(c, k) && c[0].key != k ==> HasKey(c[1..], k) by {
        forall k | HasKey(c, k) && c[0].key != k ensures HasKey(c[1..], k) {
          var i :| 0 <= i < |c| && c[i].key == k;
          assert c[1..][i - 1].key == k;
        }
      }
    }
  }

  /** Appending a new key leaves the other lookups alone. */
  lemma {:induction false} AppendLookup(c: Collection, e: Entry)
    requires !HasKey(c, e.key)
    ensures Lookup(c + [e], e.key) == Some(e.doc)
    ensures forall k :: k != e.key ==> Lookup(c + [e], k) == Lookup(c, k)
  {
    if |c| > 0 {
      assert (c + [e])[1..] == c[1..] + [e];
      forall i | 0 <= i < |c[1..]| ensures c[1..][i].key != e.key {
        assert c[1..][i] == c[i + 1];
      }
      AppendLookup(c[1..], e);
    }
  }

  /** Drops every entry with key `id`. */
  function RemoveEntries(c: Collection, id: string): (r: Collection)
    ensures !HasKey(r, id)
    ensures forall k :: k != id ==> Lookup(r, k) == Lookup(c, k)
    ensures forall i :: 0 <= i < |r| ==> r[i] in c
    ensures DistinctKeys(c) ==> DistinctKeys(r)
  {
    if |c| == 0 then []
    else
      var rest := RemoveEntries(c[1..], id);
      assert forall i :: 1 <= i < |c| ==> c[i] == c[1..][i - 1];
      if c[0].key == id then rest
      else
        var r := [c[0]] + rest;
        assert forall i :: 1 <= i < |r| ==> r[i] == rest[i - 1];
        assert forall k :: k != id && k != c[0].key ==> Lookup(r, k) == Lookup(rest, k);
        assert DistinctKeys(c) ==> !HasKey(rest, c[0].key) by {
          if DistinctKeys(c) {
            forall i | 0 <= i < |rest| ensures rest[i].key != c[0].key {
              var j :| 0 <= j < |c[1..]| && c[1..][j] == rest[i];
              assert c[j + 1] == rest[i];
            }
          }
        }
        r
  }

  /** Removing a key the collection does not hold changes nothing. */
  lemma {:induction false} RemoveAbsentKey(c: Collection, id: string)
    requires !HasKey(c, id)
    ensures RemoveEntries(c, id) == c
    decreases |c|
  {
    if |c| > 0 {
      assert c[0].key != id;
      assert forall i :: 0 <= i < |c[1..]| ==> c[1..][i] == c[i + 1];
      RemoveAbsentKey(c[1..], id);
      HeadTail(c);
    }
  }

  lemma HeadTail(c: Collection)
    requires |c| > 0
    ensures [c[0]] + c[1..] == c
  {
  }

  /** In a collection without duplicate keys, removing the key of entry `i`
      drops exactly that entry and keeps the others in their order. */
  lemma {:induction false} RemoveListedEntry(c: Collection, i: nat)
    requires DistinctKeys(c) && i < |c|
    ensures RemoveEntries(c, c[i].key) == c[..i] + c[i + 1..]
    decreases i
  {
    var id := c[i].key;
    var tail := c[1..];
    assert forall j :: 0 <= j < |tail| ==> tail[j] == c[j + 1];
    if i == 0 {
      assert !HasKey(tail, id) by {
        forall j | 0 <= j < |tail| ensures tail[j].key != id {
          assert c[j + 1].key != c[0].key;
        }
      }
      RemoveAbsentKey(tail, id);
    } else {
      assert tail[i - 1] == c[i];
      RemoveListedEntry(tail, i - 1);
      assert c[0].key != id;
      assert c[..i] + c[i + 1..] == [c[0]] + (tail[..i - 1] + tail[i..]);
    }
  }

  /** `remove(id)`: deletes the document at `id`; other documents stay. */
  function Remove(db: Db, p: Path, id: string): (r: Result<Db, StoreError>)
    ensures r.Ok? <==> ValidKey(id)
    ensures !ValidKey(id) ==> r == Err(InvalidKey)
    ensures r.Ok? ==>
      && Lookup(Coll(r.value, p), id).None?
      && (forall k :: k != id ==> Lookup(Coll(r.value, p), k) == Lookup(Coll(db, p), k))
      && OthersUnchanged(db, r.value, p)
  {
    if !ValidKey(id) then Err(InvalidKey)
    else Ok(db[p := RemoveEntries(Coll(db, p), id)])
  }

  /** `fetch(id)`: the stored document as it is (no `id` is added), or null. */
  function Fetch(db: Db, p: Path, id: string): (r: Result<Option<Doc>, StoreError>)
    ensures r.Ok? <==> ValidKey(id)
    ensures r.Ok? ==> (r.value.None? <==> !HasKey(Coll(db, p), id))
    ensures r.Ok? && r.value.Some? ==> Entry(id, r.value.value) in Coll(db, p)
  {
    if !ValidKey(id) then Err(InvalidKey) else Ok(Lookup(Coll(db, p), id))
  }

  /** `{ id: key, ...value }`: the key as `id`, unless the document stores one. */
  function InjectId(e: Entry): (r: Doc)
    ensures r.Keys == e.doc.Keys + {ID}
    ensures forall k :: k in e.doc ==> r[k] == e.doc[k]
    ensures ID !in e.doc ==> r[ID] == Str(e.key)
  {
    map[ID := Str(e.key)] + e.doc
  }

  /** `fetchAll()`: one record per stored entry, in listing order, each the stored
      document with `id` taken from the key unless the document stores its own. */
  function FetchAll(db: Db, p: Path): (r: seq<Doc>)
    ensures |r| == |Coll(db, p)|
    ensures forall i :: 0 <= i < |r| ==> r[i] == InjectId(Coll(db, p)[i])
  {
    var c := Coll(db, p);
    seq(|c|, i requires 0 <= i < |c| => InjectId(c[i]))
  }

  /** A mutation issued by a page through the accessor. */
  datatype Write =
    | CreateDoc(path: Path, data: Doc)
    | PatchDoc(path: Path, id: string, data: Doc)
    | RemoveDoc(path: Path, id: string)

  function Apply(db: Db, w: Write, now: string): Result<Db, StoreError> {
    match w
    case CreateDoc(p, data) =>
      (match Create(db, p, data, now)
       case Ok(created) => Ok(created.db)
       case Err(e) => Err(e))
    case PatchDoc(p, id, data) => Patch(db, p, id, data, now)
    case RemoveDoc(p, id) => Remove(db, p, id)
  }

  /** Fire-and-forget mutations in order: one that throws leaves the database as
      it was and the next still runs. */
  function ApplyAll(db: Db, ws: seq<Write>, now: string): Db
    decreases |ws|
  {
    if |ws| == 0 then db
    else
      var db' := match Apply(db, ws[0], now) case Ok(d) => d case Err(_) => db;
      ApplyAll(db', ws[1..], now)
  }

  // ---------------------------------------------------------------------------
  // Properties relating several operations
  // ---------------------------------------------------------------------------

  /** Round trip: fetching the key `create` returned yields the written data
      plus the creation stamp, without an injected `id`. */
  lemma CreateThenFetch(db: Db, p: Path, data: Doc, now: string)
    requires WellFormed(db)
    requires Create(db, p, data, now).Ok?
    ensures var created := Create(db, p, data, now).value;
      && Fetch(created.db, p, created.key).Ok?
      && Fetch(created.db, p, created.key).value.Some?
      && StampedCopy(Fetch(created.db, p, created.key).value.value, data, DATE_TIME_STAMP, now)
  {
    var created := Create(db, p, data, now).value;
    var c, c' := Coll(db, p), Coll(created.db, p);
    assert c' == c + [c'[|c|]];
    AppendLookup(c, c'[|c|]);
  }

  /** Creation keeps every collection free of duplicate and invalid keys. */
  lemma CreatePreservesWellFormed(db: Db, p: Path, data: Doc, now: string)
    requires WellFormed(db)
    requires Create(db, p, data, now).Ok?
    ensures WellFormed(Create(db, p, data, now).value.db)
  {
    var c := Coll(db, p);
    var e := Entry(FreshKey(c), Stored(data[DATE_TIME_STAMP := Str(now)]));
    assert Create(db, p, data, now).value.db == db[p := c + [e]];
    CollWellFormed(db, p);
    AppendFresh(c, e);
    WellFormedUpdate(db, p, c + [e]);
  }

  lemma CollWellFormed(db: Db, p: Path)
    requires WellFormed(db)
    ensures DistinctKeys(Coll(db, p)) && ValidKeys(Coll(db, p))
  {
  }

  lemma WellFormedUpdate(db: Db, p: Path, c: Collection)
    requires WellFormed(db)
    requires DistinctKeys(c) && ValidKeys(c)
    ensures WellFormed(db[p := c])
  {
  }

  lemma AppendFresh(c: Collection, e: Entry)
    requires DistinctKeys(c) && ValidKeys(c)
    requires ValidKey(e.key) && !HasKey(c, e.key)
    ensures DistinctKeys(c + [e]) && ValidKeys(c + [e])
  {
    var c' := c + [e];
    forall i, j | 0 <= i < j < |c'| ensures c'[i].key != c'[j].key {
      assert c'[i] == c[i];
      if j < |c| {
        assert c'[j] == c[j];
      }
    }
  }

  /** Two creations in a row return different keys. */
  lemma CreateKeysDistinct(db: Db, p: Path, d1: Doc, d2: Doc, t1: string, t2: string)
    requires Create(db, p, d1, t1).Ok?
    requires Create(Create(db, p, d1, t1).value.db, p, d2, t2).Ok?
    ensures Create(db, p, d1, t1).value.key != Create(Create(db, p, d1, t1).value.db, p, d2, t2).value.key
  {
    var first := Create(db, p, d1, t1).value;
    var c' := Coll(first.db, p);
    assert c'[|Coll(db, p)|].key == first.key;
  }

  /** A patch keeps every collection free of duplicate and invalid keys. */
  lemma PatchPreservesWellFormed(db: Db, p: Path, id: string, data: Doc, now: string)
    requires WellFormed(db)
    requires Patch(db, p, id, data, now).Ok?
    ensures WellFormed(Patch(db, p, id, data, now).value)
  {
    var c := Coll(db, p);
    var formData := data[UPDATED := Str(now)];
    CollWellFormed(db, p);
    if HasKey(c, id) {
      var c' := PatchEntries(c, id, formData);
      assert Patch(db, p, id, data, now).value == db[p := c'];
      WellFormedUpdate(db, p, c');
    } else {
      var e := Entry(id, Stored(formData));
      assert Patch(db, p, id, data, now).value == db[p := c + [e]];
      AppendFresh(c, e);
      WellFormedUpdate(db, p, c + [e]);
    }
  }

  /** Removal keeps every collection free of duplicate and invalid keys. */
  lemma RemovePreservesWellFormed(db: Db, p: Path, id: string)
    requires WellFormed(db)
    requires Remove(db, p, id).Ok?
    ensures WellFormed(Remove(db, p, id).value)
  {
    var c := Coll(db, p);
    var c' := RemoveEntries(c, id);
    CollWellFormed(db, p);
    assert ValidKeys(c') by {
      forall i | 0 <= i < |c'| ensures ValidKey(c'[i].key) {
        var j :| 0 <= j < |c| && c[j] == c'[i];
      }
    }
    WellFormedUpdate(db, p, c');
  }

  /** A single write: its result when it succeeds, the database unchanged when
      it throws. */
  lemma ApplyOne(db: Db, w: Write, now: string)
    ensures ApplyAll(db, [w], now) == (if Apply(db, w, now).Ok? then Apply(db, w, now).value else db)
  {
    assert [w][1..] == [];
  }

  /** Writes run one after the other: the first, then the rest on its outcome. */
  lemma ApplyFirst(db: Db, w: Write, ws: seq<Write>, now: string)
    ensures ApplyAll(db, [w] + ws, now) == ApplyAll(ApplyAll(db, [w], now), ws, now)
  {
    assert ([w] + ws)[1..] == ws;
    ApplyOne(db, w, now);
  }

  /** Every write, and so every run of writes, keeps the database well formed. */
  lemma {:induction false} ApplyAllPreservesWellFormed(db: Db, ws: seq<Write>, now: string)
    requires WellFormed(db)
    ensures WellFormed(ApplyAll(db, ws, now))
    decreases |ws|
  {
    if |ws| > 0 {
      var r := Apply(db, ws[0], now);
      if r.Ok? {
        match ws[0] {
          case CreateDoc(p, data) => CreatePreservesWellFormed(db, p, data, now);
          case PatchDoc(p, id, data) => PatchPreservesWellFormed(db, p, id, data, now);
          case RemoveDoc(p, id) => RemovePreservesWellFormed(db, p, id);
        }
        ApplyAllPreservesWellFormed(r.value, ws[1..], now);
      } else {
        ApplyAllPreservesWellFormed(db, ws[1..], now);
      }
    }
  }

  /** A worked patch: `{a: 1, b: 2}` patched with `{b: null, c: 3}` keeps
      `a`, loses `b`, gains `c`, and is stamped: `{a: 1, c: 3, updated: now}`. */
  lemma PatchMergeExample(db: Db, p: Path, id: string, now: string)
    requires ValidKey(id)
    requires Coll(db, p) == [Entry(id, map["a" := Num(1), "b" := Num(2)])]
    ensures Patch(db, p, id, map["b" := Null, "c" := Num(3)], now).Ok?
    ensures Fetch(Patch(db, p, id, map["b" := Null, "c" := Num(3)], now).value, p, id)
      == Ok(Some(map["a" := Num(1), "c" := Num(3), UPDATED := Str(now)]))
  {
    var prev := map["a" := Num(1), "b" := Num(2)];
    var data := map["b" := Null, "c" := Num(3)];
    var db' := Patch(db, p, id, data, now).value;
    assert HasKey(Coll(db, p), id) by { assert Coll(db, p)[0].key == id; }
    var formData := data[UPDATED := Str(now)];
    PatchLookup(Coll(db, p), id, formData);
    assert Lookup(Coll(db', p), id) == Some(Merge(prev, formData));
    MergeExample(now);
  }

  lemma MergeExample(now: string)
    ensures Merge(map["a" := Num(1), "b" := Num(2)], map["b" := Null, "c" := Num(3), UPDATED := Str(now)])
         == map["a" := Num(1), "c" := Num(3), UPDATED := Str(now)]
  {
    var doc := Merge(map["a" := Num(1), "b" := Num(2)], map["b" := Null, "c" := Num(3), UPDATED := Str(now)]);
    assert doc.Keys == {"a", "c", UPDATED};
  }
}
