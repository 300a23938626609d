/** The query hooks over the store (`useFetchAll`, `useFetchById`,
    `useSearchByKey`, `searchByKey`) and the mutation hooks (`useCreate`,
    `useUpdate`, `useDelete`) with the client cache they invalidate.

    The client cache is a map from query key to the answer it last fetched. A
    query served from the cache is only correct while the cached answer still
    equals what the store would answer now; the mutation hooks keep that true by
    dropping every query of the collection they wrote. */
module Fetcher {
  import opened Wrappers
  import opened Json
  import opened Store
  import Seqs
  import Decimal

  /** `item[key] === value` on a fetched record. */
  predicate Matches(d: Doc, key: string, value: Scalar) {
    StrictEquals(Get(d, key), value)
  }

  /** `searchByKey(path, key, value)`: the fetched records whose field `key` is
      strictly equal to `value`, in listing order. */
  function SearchByKey(db: Db, p: Path, key: string, value: Scalar): (r: seq<Doc>)
    ensures |r| <= |Coll(db, p)|
    ensures forall i :: 0 <= i < |r| ==> r[i] in FetchAll(db, p) && Get(r[i], key) == ScalarValue(value)
    ensures forall i :: 0 <= i < |FetchAll(db, p)| && Get(FetchAll(db, p)[i], key) == ScalarValue(value) ==>
      FetchAll(db, p)[i] in r
  {
    var all := FetchAll(db, p);
    var r := Seqs.Filter(all, d => Matches(d, key, value));
    assert forall d :: Matches(d, key, value) <==> Get(d, key) == ScalarValue(value) by {
      forall d ensures Matches(d, key, value) <==> Get(d, key) == ScalarValue(value) {
        StrictEqualsNoCoercion(Get(d, key), value);
      }
    }
    r
  }

  /** The search keeps the listing order of the collection. */
  lemma SearchKeepsOrder(db: Db, p: Path, key: string, value: Scalar)
    ensures Seqs.SubSeq(SearchByKey(db, p, key, value), FetchAll(db, p))
  {
    Seqs.FilterIsSubSeq(FetchAll(db, p), d => Matches(d, key, value));
  }

  /** A search by a number never finds a record whose field holds the same
      number written as text, and the other way round. */
  lemma SearchNoCoercion(db: Db, p: Path, key: string, n: int)
    ensures forall i :: 0 <= i < |SearchByKey(db, p, key, SNum(n))| ==>
      Get(SearchByKey(db, p, key, SNum(n))[i], key) == Num(n)
    ensures forall i :: 0 <= i < |SearchByKey(db, p, key, SStr(Decimal.IntToString(n)))| ==>
      !Get(SearchByKey(db, p, key, SStr(Decimal.IntToString(n)))[i], key).Num?
  {
  }

  /** `useFetchById(path, id)`: the id is converted with `String(id)` before
      the read, so a missing id reads the key "undefined" and a null one "null". */
  function FetchById(db: Db, p: Path, id: Value): (r: Result<Option<Doc>, StoreError>)
    ensures id.Str? ==> r == Fetch(db, p, id.s)
    ensures id == Undefined ==> r == Fetch(db, p, "undefined")
    ensures id == Null ==> r == Fetch(db, p, "null")
  {
    Fetch(db, p, ToJsString(id))
  }

  /** The query keys of the hooks: `[path]`, `[path, id]` and
      `[path, "search", key, value]`. */
  datatype QueryKey =
    | AllQ(path: Path)
    | ByIdQ(path: Path, id: Value)
    | SearchQ(path: Path, key: string, value: Scalar)

  datatype Answer =
    | Docs(docs: seq<Doc>)
    | One(one: Result<Option<Doc>, StoreError>)

  /** What the query function of a key returns against the store. */
  function Evaluate(db: Db, q: QueryKey): Answer {
    match q
    case AllQ(p) => Docs(FetchAll(db, p))
    case ByIdQ(p, id) => One(FetchById(db, p, id))
    case SearchQ(p, key, value) => Docs(SearchByKey(db, p, key, value))
  }

  /** A query only reads the collection named first in its key. */
  lemma EvaluateReadsItsPath(db: Db, db': Db, q: QueryKey)
    requires Coll(db, q.path) == Coll(db', q.path)
    ensures Evaluate(db, q) == Evaluate(db', q)
  {
  }

  datatype Client = Client(db: Db, cache: map<QueryKey, Answer>)

  /** Every cached answer is what the store would answer now. */
  ghost predicate Coherent(cl: Client) {
    forall q :: q in cl.cache ==> cl.cache[q] == Evaluate(cl.db, q)
  }

  datatype Served = Served(client: Client, answer: Answer)

  /** `useQuery`: the cached answer when present, otherwise a fetch that is then
      cached. On a coherent client the answer is always the store's. */
  function Query(cl: Client, q: QueryKey): (r: Served)
    ensures Coherent(cl) ==> r.answer == Evaluate(cl.db, q) && Coherent(r.client)
    ensures r.client.db == cl.db
    ensures q in r.client.cache
  {
    if q in cl.cache then Served(cl, cl.cache[q])
    else
      var a := Evaluate(cl.db, q);
      Served(Client(cl.db, cl.cache[q := a]), a)
  }

  /** `invalidateQueries({queryKey: [path]})`: drops every key starting with `path`. */
  function Invalidate(cache: map<QueryKey, Answer>, p: Path): (r: map<QueryKey, Answer>)
    ensures forall q :: q in r <==> q in cache && q.path != p
    ensures forall q :: q in r ==> r[q] == cache[q]
  {
    map q | q in cache && q.path != p :: cache[q]
  }

  function WritePath(w: Write): Path {
    match w
    case CreateDoc(p, _) => p
    case PatchDoc(p, _, _) => p
    case RemoveDoc(p, _) => p
  }

  /** A mutation hook: the write runs, and only on success are the queries of
      its collection invalidated; a write that throws changes nothing. */
  function Mutate(cl: Client, w: Write, now: string): (r: Client)
    ensures Apply(cl.db, w, now).Err? ==> r == cl
    ensures Apply(cl.db, w, now).Ok? ==>
      r.db == Apply(cl.db, w, now).value && r.cache == Invalidate(cl.cache, WritePath(w))
  {
    match Apply(cl.db, w, now)
    case Ok(db') => Client(db', Invalidate(cl.cache, WritePath(w)))
    case Err(_) => cl
  }

  /** A write only touches the collection it names. */
  lemma ApplyTouchesOnlyItsPath(db: Db, w: Write, now: string)
    requires Apply(db, w, now).Ok?
    ensures OthersUnchanged(db, Apply(db, w, now).value, WritePath(w))
  {
  }

  /** Invalidating `[path]` after each write is enough: a coherent client stays
      coherent after any mutation, so no query ever serves a stale answer. */
  lemma MutatePreservesCoherence(cl: Client, w: Write, now: string)
    requires Coherent(cl)
    ensures Coherent(Mutate(cl, w, now))
  {
    if Apply(cl.db, w, now).Ok? {
      var r := Mutate(cl, w, now);
      ApplyTouchesOnlyItsPath(cl.db, w, now);
      forall q | q in r.cache ensures r.cache[q] == Evaluate(r.db, q) {
        EvaluateReadsItsPath(cl.db, r.db, q);
      }
    }
  }

  /** The same holds for any run of mutations and queries. */
  datatype Step = Read(q: QueryKey) | Mutation(w: Write, now: string)

  function Run(cl: Client, steps: seq<Step>): (r: Client)
    decreases |steps|
  {
    if |steps| == 0 then cl
    else
      var next := match steps[0]
        case Read(q) => Query(cl, q).client
        case Mutation(w, now) => Mutate(cl, w, now);
      Run(next, steps[1..])
  }

  lemma {:induction false} RunPreservesCoherence(cl: Client, steps: seq<Step>)
    requires Coherent(cl)
    ensures Coherent(Run(cl, steps))
    decreases |steps|
  {
    if |steps| > 0 {
      match steps[0]
      case Read(q) =>
        RunPreservesCoherence(Query(cl, q).client, steps[1..]);
      case Mutation(w, now) =>
        MutatePreservesCoherence(cl, w, now);
        RunPreservesCoherence(Mutate(cl, w, now), steps[1..]);
    }
  }
}
