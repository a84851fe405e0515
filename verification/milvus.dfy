/** The offline ingestion script db_initialize/milvus.py: read rows with
    their embeddings from MySQL, clean them, and load them into one Milvus
    collection per garment type, creating the collection and its HNSW index
    when absent.

    MySQL, Milvus and the JSON/NumPy conversion are outside the model: every
    call that can fail is an oracle parameter saying how that call went. */
module Milvus {
  import opened Results
  import Filter

  // ---------------------------------------------------------------------------
  // Rows and the gender category mapping of the SQL query
  // ---------------------------------------------------------------------------

  /** A column value of a fetched or cleaned row. */
  datatype Field = Null | IntField(i: int) | TextField(s: string) | Embedding(v: seq<real>)

  /** One row: its primary key `item_id` and the other columns by name. */
  datatype Row = Row(itemId: int, cols: map<string, Field>)

  /** The `CASE` of every collection's query: MEN/BOYS → 1, WOMEN/GIRLS → 2,
      UNISEX → 3, anything else (NULL included) → 4. */
  function GenderCode(category: Option<string>): (code: int)
    ensures 1 <= code <= 4
    ensures code == 1 <==> category == Some("MEN") || category == Some("BOYS")
    ensures code == 2 <==> category == Some("WOMEN") || category == Some("GIRLS")
    ensures code == 3 <==> category == Some("UNISEX")
  {
    match category
    case Some(c) =>
      if c == "MEN" || c == "BOYS" then 1
      else if c == "WOMEN" || c == "GIRLS" then 2
      else if c == "UNISEX" then 3
      else 4
    case None => 4
  }

  /** The sentinel code 4 passes no gender clause the filter builder can emit,
      while unisex items (3) pass every one of them. */
  lemma SentinelExcludedUnisexIncluded(g: Option<Filter.Value>, category: Option<string>, m: Filter.Meta)
    requires Filter.GenderClauseOf(g).Some?
    ensures GenderCode(category) == 4 ==>
              !Filter.Holds(Filter.GenderClauseOf(g).value, m.(gender := GenderCode(category)))
    ensures GenderCode(category) == 3 ==>
              Filter.Holds(Filter.GenderClauseOf(g).value, m.(gender := GenderCode(category)))
  {
  }

  /** A category passes the gender clause of a request exactly when the
      inclusive gender policy accepts its code. */
  lemma CategoryAgreesWithPolicy(g: Option<Filter.Value>, category: Option<string>, m: Filter.Meta)
    ensures var code := GenderCode(category);
            Filter.Admits(Filter.GenderPart(g), m.(gender := code)) <==> Filter.GenderAccepts(g, code)
  {
    var code := GenderCode(category);
    Filter.FilterMeaning(Filter.FilterDict(g, None), m.(gender := code));
  }

  // ---------------------------------------------------------------------------
  // process_embeddings
  // ---------------------------------------------------------------------------

  /** What `json.loads` followed by the float16 conversion makes of one
      payload: a vector; an error the code catches (JSONDecodeError,
      TypeError); or one it does not catch (ValueError from the conversion). */
  datatype Decoded = Vector(v: seq<real>) | Caught | Uncaught

  /** How the loop body ends for one row: a missing column is a caught
      KeyError and a non-text payload a caught TypeError. */
  function Outcome(row: Row, field: string, decode: string -> Decoded): (r: Decoded)
    ensures field !in row.cols ==> r == Caught
    ensures field in row.cols && !row.cols[field].TextField? ==> r == Caught
    ensures r.Vector? || r.Uncaught? ==>
              field in row.cols && row.cols[field].TextField? && r == decode(row.cols[field].s)
  {
    if field !in row.cols then Caught
    else match row.cols[field]
      case TextField(s) => decode(s)
      case _ => Caught
  }

  predicate Good(row: Row, field: string, decode: string -> Decoded) {
    Outcome(row, field, decode).Vector?
  }

  /** The cleaned record: the payload column removed, `embedding` added, every
      other column and the primary key as they were. */
  function Clean(row: Row, field: string, v: seq<real>): (r: Row)
    ensures r.itemId == row.itemId
    ensures "embedding" in r.cols && r.cols["embedding"] == Embedding(v)
    ensures field != "embedding" ==> field !in r.cols
    ensures forall k :: k != field && k != "embedding" ==>
              (k in r.cols <==> k in row.cols) && (k in row.cols ==> r.cols[k] == row.cols[k])
  {
    Row(row.itemId, (row.cols - {field})["embedding" := Embedding(v)])
  }

  /** The record the loop appends for a row whose payload decodes. */
  function CleanRow(row: Row, field: string, decode: string -> Decoded): Row {
    match Outcome(row, field, decode)
    case Vector(v) => Clean(row, field, v)
    case _ => row
  }

  /** `xs` occurs in `ys` in order, possibly with gaps. */
  predicate IsSubsequence<T(==)>(xs: seq<T>, ys: seq<T>)
    decreases |ys|
  {
    if ys == [] then xs == []
    else (xs != [] && xs[|xs| - 1] == ys[|ys| - 1] && IsSubsequence(xs[..|xs| - 1], ys[..|ys| - 1]))
         || IsSubsequence(xs, ys[..|ys| - 1])
  }

  /** The rows whose payload decodes, in their original order. */
  function Kept(data: seq<Row>, field: string, decode: string -> Decoded): seq<Row>
    decreases |data|
  {
    if data == [] then []
    else
      Kept(data[..|data| - 1], field, decode) +
      (if Good(data[|data| - 1], field, decode) then [data[|data| - 1]] else [])
  }

  /** The kept rows appear in `data` in the same order. */
  lemma {:induction false} KeptIsSubsequence(data: seq<Row>, field: string, decode: string -> Decoded)
    ensures IsSubsequence(Kept(data, field, decode), data)
    decreases |data|
  {
    if data != [] {
      var front := data[..|data| - 1];
      var last := data[|data| - 1];
      KeptIsSubsequence(front, field, decode);
      var r := Kept(data, field, decode);
      assert data[..|data| - 1] == front;
      if Good(last, field, decode) {
        assert r == Kept(front, field, decode) + [last];
        assert r != [] && r[|r| - 1] == data[|data| - 1];
        assert r[..|r| - 1] == Kept(front, field, decode);
      } else {
        assert r == Kept(front, field, decode);
      }
    }
  }

  /** The kept rows are exactly the good rows of `data`, each as often as it occurs there. */
  lemma {:induction false} KeptCounts(data: seq<Row>, field: string, decode: string -> Decoded, x: Row)
    ensures multiset(Kept(data, field, decode))[x] == if Good(x, field, decode) then multiset(data)[x] else 0
    decreases |data|
  {
    if data != [] {
      var front := data[..|data| - 1];
      var last := data[|data| - 1];
      KeptCounts(front, field, decode, x);
      assert data == front + [last];
    }
  }

  /** `process_embeddings`: drops the rows whose payload cannot be parsed and
      cleans the others; a conversion error the code does not catch aborts. */
  method ProcessEmbeddings(data: seq<Row>, field: string, decode: string -> Decoded)
    returns (r: Result<seq<Row>>)
    ensures r.Success? <==> forall i :: 0 <= i < |data| ==> !Outcome(data[i], field, decode).Uncaught?
    ensures r.Failure? ==> r.error == ValueError
    ensures r.Success? ==>
              var kept := Kept(data, field, decode);
              |r.value| == |kept| &&
              forall j :: 0 <= j < |kept| ==> r.value[j] == CleanRow(kept[j], field, decode)
  {
    var cleaned: seq<Row> := [];
    var i := 0;
    while i < |data|
      invariant 0 <= i <= |data|
      invariant forall j :: 0 <= j < i ==> !Outcome(data[j], field, decode).Uncaught?
      invariant |cleaned| == |Kept(data[..i], field, decode)|
      invariant forall j :: 0 <= j < |cleaned| ==>
                  cleaned[j] == CleanRow(Kept(data[..i], field, decode)[j], field, decode)
    {
      assert data[..i + 1][..i] == data[..i];
      match Outcome(data[i], field, decode) {
        case Vector(v) =>
          cleaned := cleaned + [Clean(data[i], field, v)];
        case Caught =>
        case Uncaught =>
          return Failure(ValueError);
      }
      i := i + 1;
    }
    assert data[..i] == data;
    return Success(cleaned);
  }

  /** With every payload parseable, nothing is dropped. */
  lemma {:induction false} AllGoodKeepsAll(data: seq<Row>, field: string, decode: string -> Decoded)
    requires forall i :: 0 <= i < |data| ==> Good(data[i], field, decode)
    ensures Kept(data, field, decode) == data
    decreases |data|
  {
    if data != [] {
      AllGoodKeepsAll(data[..|data| - 1], field, decode);
      assert data == data[..|data| - 1] + [data[|data| - 1]];
    }
  }

  /** Kept distributes over concatenation. */
  lemma {:induction false} KeptAppend(a: seq<Row>, b: seq<Row>, field: string, decode: string -> Decoded)
    ensures Kept(a + b, field, decode) == Kept(a, field, decode) + Kept(b, field, decode)
    decreases |b|
  {
    if b == [] {
      assert a + b == a;
    } else {
      var b' := b[..|b| - 1];
      assert (a + b)[..|a + b| - 1] == a + b';
      assert (a + b)[|a + b| - 1] == b[|b| - 1];
      KeptAppend(a, b', field, decode);
    }
  }

  /** One unparseable row among parseable ones costs exactly that row. */
  lemma OneBadRowDropped(data: seq<Row>, k: nat, field: string, decode: string -> Decoded)
    requires k < |data|
    requires Outcome(data[k], field, decode).Caught?
    requires forall i :: 0 <= i < |data| && i != k ==> Good(data[i], field, decode)
    ensures Kept(data, field, decode) == data[..k] + data[k + 1..]
    ensures |Kept(data, field, decode)| == |data| - 1
  {
    var pre, post := data[..k], data[k + 1..];
    assert data == pre + ([data[k]] + post);
    forall i | 0 <= i < |pre| ensures Good(pre[i], field, decode) {
      assert pre[i] == data[i];
    }
    forall i | 0 <= i < |post| ensures Good(post[i], field, decode) {
      assert post[i] == data[k + 1 + i];
    }
    AllGoodKeepsAll(pre, field, decode);
    AllGoodKeepsAll(post, field, decode);
    assert Kept([data[k]], field, decode) == [] by {
      assert [data[k]][..0] == [];
    }
    KeptAppend([data[k]], post, field, decode);
    assert Kept([data[k]] + post, field, decode) == post;
    KeptAppend(pre, [data[k]] + post, field, decode);
  }

  // ---------------------------------------------------------------------------
  // Collections and indexes
  // ---------------------------------------------------------------------------

  datatype DataType = Int64 | Int32 | Float16Vector

  datatype FieldSchema = FieldSchema(name: string, dtype: DataType, isPrimary: bool, dim: nat)

  /** The common schema: primary key, 768-dimensional float16 embedding,
      gender code and the four season flags. */
  const GarmentSchema: seq<FieldSchema> := [
    FieldSchema("item_id", Int64, true, 0),
    FieldSchema("embedding", Float16Vector, false, 768),
    FieldSchema("gender", Int32, false, 0),
    FieldSchema("spring", Int32, false, 0),
    FieldSchema("summer", Int32, false, 0),
    FieldSchema("autumn", Int32, false, 0),
    FieldSchema("winter", Int32, false, 0)
  ]

  datatype IndexParams = IndexParams(metric: string, indexType: string, m: nat, efConstruction: nat)

  datatype Collection = Collection(name: string, schema: seq<FieldSchema>, rows: seq<Row>,
                                   indexes: map<string, IndexParams>)

  /** The Milvus server: collections by name. */
  type Store = map<string, Collection>

  /** `create_collection`: create with `schema` when the name is unknown,
      otherwise reuse the existing collection without looking at its schema.
      `ok` says whether the Milvus calls (`list_collections`, `Collection`)
      went through; an exception there is not caught and ends the script. */
  function CreateCollection(store: Store, name: string, schema: seq<FieldSchema>, ok: bool)
    : (r: Result<(Store, Collection)>)
    ensures !ok ==> r == Failure(ServiceError)
    ensures ok ==> r.Success?
    ensures r.Success? ==> r.value.0.Keys == store.Keys + {name} && r.value.0[name] == r.value.1
    ensures r.Success? && name in store ==> r.value == (store, store[name])
    ensures r.Success? && name !in store ==>
              r.value.1 == Collection(name, schema, [], map[]) &&
              r.value.0 == store[name := r.value.1]
  {
    if !ok then Failure(ServiceError)
    else if name !in store then
      var c := Collection(name, schema, [], map[]);
      Success((store[name := c], c))
    else Success((store, store[name]))
  }

  /** Creating a collection twice is creating it once, whatever schema the
      second call carries: a second call that goes through changes nothing. */
  lemma CreateCollectionIdempotent(store: Store, name: string, s1: seq<FieldSchema>, s2: seq<FieldSchema>, ok: bool)
    ensures var (st, c) := CreateCollection(store, name, s1, true).value;
            CreateCollection(st, name, s2, ok).Success? ==> CreateCollection(st, name, s2, ok) == Success((st, c))
  {
  }

  /** `create_index`: build the index when the field has none; `ok` says
      whether Milvus accepted the call (an exception is logged and swallowed). */
  function CreateIndex(c: Collection, field: string, params: IndexParams, ok: bool): (r: Collection)
    ensures r.name == c.name && r.schema == c.schema && r.rows == c.rows
    ensures field in c.indexes ==> r == c
    ensures field !in c.indexes && ok ==> r.indexes == c.indexes[field := params]
    ensures !ok ==> r == c
    ensures field in r.indexes <==> field in c.indexes || ok
  {
    if field in c.indexes || !ok then c
    else c.(indexes := c.indexes[field := params])
  }

  /** An index, once built, is never rebuilt with other parameters. */
  lemma CreateIndexIdempotent(c: Collection, field: string, p: IndexParams, q: IndexParams, ok: bool)
    ensures CreateIndex(CreateIndex(c, field, p, true), field, q, ok) == CreateIndex(c, field, p, true)
    ensures field in CreateIndex(c, field, p, true).indexes
  {
  }

  // ---------------------------------------------------------------------------
  // insert_data
  // ---------------------------------------------------------------------------

  function Ids(rows: seq<Row>): set<int> {
    set r | r in rows :: r.itemId
  }

  /** The ids the query `item_id >= 0` returns, or none when the query raised. */
  function ExistingIds(c: Collection, queryOk: bool): (r: set<int>)
    ensures forall id :: id in r <==> queryOk && id >= 0 && id in Ids(c.rows)
  {
    if queryOk then set r | r in c.rows && r.itemId >= 0 :: r.itemId else {}
  }

  /** `new_data`: the records whose id is not among the existing ones, in order. */
  function NewRecords(data: seq<Row>, existing: set<int>): (r: seq<Row>)
    ensures |r| <= |data|
    ensures forall i :: 0 <= i < |r| ==> r[i].itemId !in existing
    decreases |data|
  {
    if data == [] then []
    else
      NewRecords(data[..|data| - 1], existing) +
      (if data[|data| - 1].itemId in existing then [] else [data[|data| - 1]])
  }

  /** The records to insert keep their input order. */
  lemma {:induction false} NewRecordsIsSubsequence(data: seq<Row>, existing: set<int>)
    ensures IsSubsequence(NewRecords(data, existing), data)
    decreases |data|
  {
    if data != [] {
      var front := data[..|data| - 1];
      var last := data[|data| - 1];
      NewRecordsIsSubsequence(front, existing);
      var r := NewRecords(data, existing);
      assert data[..|data| - 1] == front;
      if last.itemId !in existing {
        assert r == NewRecords(front, existing) + [last];
        assert r != [] && r[|r| - 1] == data[|data| - 1];
        assert r[..|r| - 1] == NewRecords(front, existing);
      } else {
        assert r == NewRecords(front, existing);
      }
    }
  }

  /** The records to insert are the input records with a new id, each as
      often as it occurs in the input. */
  lemma {:induction false} NewRecordsCounts(data: seq<Row>, existing: set<int>, x: Row)
    ensures multiset(NewRecords(data, existing))[x] == if x.itemId in existing then 0 else multiset(data)[x]
    decreases |data|
  {
    if data != [] {
      var front := data[..|data| - 1];
      var last := data[|data| - 1];
      NewRecordsCounts(front, existing, x);
      assert data == front + [last];
    }
  }

  /** Membership form of the counts: exactly the input records with a new id. */
  lemma NewRecordsMembers(data: seq<Row>, existing: set<int>)
    ensures forall x :: x in NewRecords(data, existing) <==> x in data && x.itemId !in existing
  {
    forall x ensures x in NewRecords(data, existing) <==> x in data && x.itemId !in existing {
      NewRecordsCounts(data, existing, x);
    }
  }

  /** `new_data[i:i+batch_size]` for `i` in `range(0, total, batch_size)`:
      consecutive slices taken from the front. */
  function Batches(xs: seq<Row>, size: nat): (r: seq<seq<Row>>)
    requires size > 0
    ensures r == [] <==> xs == []
    ensures |xs| <= size ==> |r| <= 1
    decreases |xs|
  {
    if xs == [] then []
    else if |xs| <= size then [xs]
    else [xs[..size]] + Batches(xs[size..], size)
  }

  function Concat(bs: seq<seq<Row>>): seq<Row> {
    if bs == [] then [] else Concat(bs[..|bs| - 1]) + bs[|bs| - 1]
  }

  lemma {:induction false} ConcatCons(b: seq<Row>, bs: seq<seq<Row>>)
    ensures Concat([b] + bs) == b + Concat(bs)
    decreases |bs|
  {
    if bs == [] {
      assert ([b] + bs)[..0] == [];
    } else {
      var front := bs[..|bs| - 1];
      assert ([b] + bs)[..|[b] + bs| - 1] == [b] + front;
      ConcatCons(b, front);
    }
  }

  /** The batches are non-empty, hold at most `size` records each (all but
      the last exactly `size`), and concatenate back to exactly `xs`. */
  lemma {:induction false} BatchesPartition(xs: seq<Row>, size: nat)
    requires size > 0
    ensures forall j :: 0 <= j < |Batches(xs, size)| ==> 0 < |Batches(xs, size)[j]| <= size
    ensures forall j :: 0 <= j < |Batches(xs, size)| - 1 ==> |Batches(xs, size)[j]| == size
    ensures Concat(Batches(xs, size)) == xs
    decreases |xs|
  {
    if xs == [] {
    } else if |xs| <= size {
      ConcatCons(xs, []);
    } else {
      var rest := Batches(xs[size..], size);
      var bs := Batches(xs, size);
      BatchesPartition(xs[size..], size);
      assert bs == [xs[..size]] + rest;
      forall j | 1 <= j < |bs| ensures bs[j] == rest[j - 1] {
      }
      ConcatCons(xs[..size], rest);
      assert xs == xs[..size] + xs[size..];
    }
  }

  /** How one batch fared: the attempts made and whether one of them succeeded. */
  datatype BatchReport = BatchReport(attempts: nat, inserted: bool)

  /** The records that reached the collection: the batches whose report says inserted, in order. */
  function Landed(bs: seq<seq<Row>>, reports: seq<BatchReport>): seq<Row>
    requires |bs| == |reports|
  {
    if bs == [] then []
    else Landed(bs[..|bs| - 1], reports[..|reports| - 1]) +
         (if reports[|reports| - 1].inserted then bs[|bs| - 1] else [])
  }

  lemma LandedSnoc(bs: seq<seq<Row>>, reports: seq<BatchReport>, b: seq<Row>, r: BatchReport)
    requires |bs| == |reports|
    ensures Landed(bs + [b], reports + [r]) == Landed(bs, reports) + (if r.inserted then b else [])
  {
    assert (bs + [b])[..|bs|] == bs;
    assert (reports + [r])[..|reports|] == reports;
  }

  /** The retry rule for batch `j`: attempts stop at the first success and
      never exceed `retries`; with no success all `retries` attempts are made. */
  predicate RetriedAsSpecified(r: BatchReport, j: nat, retries: nat, attemptOk: (nat, nat) -> bool) {
    && r.attempts <= retries
    && (r.inserted <==> exists a :: 0 <= a < retries && attemptOk(j, a))
    && (r.inserted ==> r.attempts > 0 && attemptOk(j, r.attempts - 1) &&
                       forall a :: 0 <= a < r.attempts - 1 ==> !attemptOk(j, a))
    && (!r.inserted ==> r.attempts == retries)
  }

  /** The inner `for attempt in range(retries)` loop for batch `j`. */
  method InsertBatch(j: nat, retries: nat, attemptOk: (nat, nat) -> bool) returns (r: BatchReport)
    ensures RetriedAsSpecified(r, j, retries, attemptOk)
  {
    var attempt := 0;
    while attempt < retries
      invariant attempt <= retries
      invariant forall a :: 0 <= a < attempt ==> !attemptOk(j, a)
    {
      if attemptOk(j, attempt) {
        return BatchReport(attempt + 1, true);
      }
      attempt := attempt + 1;
    }
    return BatchReport(retries, false);
  }

  /** The outer `for i in range(0, total_new, batch_size)` loop over the
      batches: each batch is tried in turn and a failed one does not stop the
      loop. */
  method InsertBatches(c: Collection, batches: seq<seq<Row>>, retries: nat, attemptOk: (nat, nat) -> bool)
    returns (c': Collection, reports: seq<BatchReport>)
    ensures c'.name == c.name && c'.schema == c.schema && c'.indexes == c.indexes
    ensures |reports| == |batches|
    ensures forall j :: 0 <= j < |reports| ==> RetriedAsSpecified(reports[j], j, retries, attemptOk)
    ensures c'.rows == c.rows + Landed(batches, reports)
  {
    c' := c;
    reports := [];
    var j := 0;
    while j < |batches|
      invariant 0 <= j <= |batches|
      invariant |reports| == j
      invariant c'.name == c.name && c'.schema == c.schema && c'.indexes == c.indexes
      invariant forall k :: 0 <= k < j ==> RetriedAsSpecified(reports[k], k, retries, attemptOk)
      invariant c'.rows == c.rows + Landed(batches[..j], reports)
    {
      var report := InsertBatch(j, retries, attemptOk);
      var added := if report.inserted then batches[j] else [];
      ghost var landed := Landed(batches[..j], reports);
      assert (c.rows + landed) + added == c.rows + (landed + added);
      c' := c'.(rows := c'.rows + added);
      assert batches[..j + 1] == batches[..j] + [batches[j]];
      LandedSnoc(batches[..j], reports, batches[j], report);
      reports := reports + [report];
      j := j + 1;
    }
    assert batches[..j] == batches;
  }

  /** `insert_data`: skip the records whose id the collection already holds,
      insert the rest in consecutive batches, retrying each batch; a batch
      that fails every attempt is reported and the next batch is tried.
      `queryOk` says whether the existing-id query succeeded and
      `attemptOk(j, a)` whether attempt `a` at batch `j` succeeded. */
  method InsertData(c: Collection, data: seq<Row>, batchSize: nat, retries: nat,
                    queryOk: bool, attemptOk: (nat, nat) -> bool)
    returns (c': Collection, reports: seq<BatchReport>)
    requires batchSize > 0
    ensures var incoming := NewRecords(data, ExistingIds(c, queryOk));
            && c'.name == c.name && c'.schema == c.schema && c'.indexes == c.indexes
            && (incoming == [] ==> c' == c && reports == [])
            && |reports| == |Batches(incoming, batchSize)|
            && (forall j :: 0 <= j < |reports| ==> RetriedAsSpecified(reports[j], j, retries, attemptOk))
            && c'.rows == c.rows + Landed(Batches(incoming, batchSize), reports)
  {
    var incoming := NewRecords(data, ExistingIds(c, queryOk));
    if incoming == [] {
      return c, [];
    }
    c', reports := InsertBatches(c, Batches(incoming, batchSize), retries, attemptOk);
  }

  /** Everything that lands comes from one of the batches. */
  lemma {:induction false} LandedComeFromBatches(bs: seq<seq<Row>>, reports: seq<BatchReport>)
    requires |bs| == |reports|
    ensures forall x :: x in Landed(bs, reports) ==> x in Concat(bs)
  {
    if bs != [] {
      LandedComeFromBatches(bs[..|bs| - 1], reports[..|reports| - 1]);
    }
  }

  /** Deduplication: every record `insert_data` inserts is one of its input
      records, and none has an id the existing-id query returned. */
  lemma InsertedRecordsAreNew(c: Collection, data: seq<Row>, batchSize: nat, queryOk: bool,
                              reports: seq<BatchReport>)
    requires batchSize > 0
    requires |reports| == |Batches(NewRecords(data, ExistingIds(c, queryOk)), batchSize)|
    ensures forall x :: x in Landed(Batches(NewRecords(data, ExistingIds(c, queryOk)), batchSize), reports) ==>
              x in data && x.itemId !in ExistingIds(c, queryOk)
  {
    var incoming := NewRecords(data, ExistingIds(c, queryOk));
    LandedComeFromBatches(Batches(incoming, batchSize), reports);
    BatchesPartition(incoming, batchSize);
    NewRecordsMembers(data, ExistingIds(c, queryOk));
  }

  /** When every batch succeeds, exactly the new records land. */
  lemma {:induction false} AllInsertedLandsEverything(bs: seq<seq<Row>>, reports: seq<BatchReport>)
    requires |bs| == |reports|
    requires forall j :: 0 <= j < |reports| ==> reports[j].inserted
    ensures Landed(bs, reports) == Concat(bs)
  {
    if bs != [] {
      AllInsertedLandsEverything(bs[..|bs| - 1], reports[..|reports| - 1]);
    }
  }

  /** Idempotent ingestion: after a run whose batches all succeeded, a second
      run over the same data finds nothing new (all ids are non-negative and
      the existing-id query succeeds). */
  lemma SecondRunFindsNothingNew(c: Collection, data: seq<Row>, batchSize: nat, c': Collection)
    requires batchSize > 0
    requires forall i :: 0 <= i < |data| ==> data[i].itemId >= 0
    requires c'.rows == c.rows + Concat(Batches(NewRecords(data, ExistingIds(c, true)), batchSize))
    ensures NewRecords(data, ExistingIds(c', true)) == []
  {
    var incoming := NewRecords(data, ExistingIds(c, true));
    BatchesPartition(incoming, batchSize);
    NewRecordsMembers(data, ExistingIds(c, true));
    assert c'.rows == c.rows + incoming;
    forall x | x in data ensures x.itemId in ExistingIds(c', true) {
      var i :| 0 <= i < |data| && data[i] == x;
      if x.itemId in ExistingIds(c, true) {
        var y :| y in c.rows && y.itemId == x.itemId;
        assert y in c'.rows;
        assert x.itemId in Ids(c'.rows);
      } else {
        assert x in incoming;
        assert x in c'.rows;
        assert x.itemId in Ids(c'.rows);
      }
    }
    NothingNewWhenAllKnown(data, ExistingIds(c', true));
  }

  /** A run over records whose ids are all already present selects nothing. */
  lemma {:induction false} NothingNewWhenAllKnown(data: seq<Row>, existing: set<int>)
    requires forall x :: x in data ==> x.itemId in existing
    ensures NewRecords(data, existing) == []
    decreases |data|
  {
    if data != [] {
      assert data[|data| - 1] in data;
      NothingNewWhenAllKnown(data[..|data| - 1], existing);
    }
  }

  /** The existing-id query asks only for `item_id >= 0`, so a stored record
      with a negative id is not recognised and would be inserted again. */
  lemma NegativeIdsNotDeduplicated(c: Collection, row: Row)
    requires row in c.rows && row.itemId < 0
    ensures NewRecords([row], ExistingIds(c, true)) == [row]
  {
    assert [row][..0] == [];
  }

  /** When the existing-id query fails, no record is skipped. */
  lemma {:induction false} FailedQuerySkipsNothing(c: Collection, data: seq<Row>)
    ensures NewRecords(data, ExistingIds(c, false)) == data
    decreases |data|
  {
    if data != [] {
      FailedQuerySkipsNothing(c, data[..|data| - 1]);
      assert data == data[..|data| - 1] + [data[|data| - 1]];
    }
  }

  // ---------------------------------------------------------------------------
  // fetch_data
  // ---------------------------------------------------------------------------

  /** How one attempt of `fetch_data` went. */
  datatype FetchAttempt =
    | NoConnection        // connect_to_db logged the error and returned None
    | QueryFailed         // a MySQLError, logged
    | OtherError          // any other exception, which propagates
    | Fetched(rows: seq<Row>)

  predicate Transient(f: FetchAttempt) {
    f.NoConnection? || f.QueryFailed?
  }

  /** `fetch_data`: at most `retries` attempts; the first attempt that fetches
      returns its rows; when every attempt fails transiently the result is []. */
  method FetchData(retries: nat, attempt: nat -> FetchAttempt) returns (r: Result<seq<Row>>, tries: nat)
    ensures tries <= retries
    ensures (forall a :: 0 <= a < retries ==> Transient(attempt(a))) ==> tries == retries && r == Success([])
    ensures (exists a :: 0 <= a < retries && !Transient(attempt(a))) ==>
              && 0 < tries
              && !Transient(attempt(tries - 1))
              && (forall a :: 0 <= a < tries - 1 ==> Transient(attempt(a)))
              && (attempt(tries - 1).Fetched? ==> r == Success(attempt(tries - 1).rows))
              && (attempt(tries - 1).OtherError? ==> r == Failure(ServiceError))
  {
    tries := 0;
    while tries < retries
      invariant tries <= retries
      invariant forall a :: 0 <= a < tries ==> Transient(attempt(a))
    {
      var outcome := attempt(tries);
      tries := tries + 1;
      match outcome {
        case Fetched(rows) =>
          return Success(rows), tries;
        case OtherError =>
          return Failure(ServiceError), tries;
        case _ =>
      }
    }
    return Success([]), tries;
  }

  // ---------------------------------------------------------------------------
  // The per-collection pipeline of the script
  // ---------------------------------------------------------------------------

  /** One entry of `collections_info`: collection name, the `mastertype` its
      query selects, and its index parameters. */
  datatype CollectionSpec = CollectionSpec(name: string, mastertype: string, index: IndexParams)

  const CollectionsInfo: seq<CollectionSpec> := [
    CollectionSpec("tops", "Tops", IndexParams("COSINE", "HNSW", 32, 256)),
    CollectionSpec("pants", "Pants", IndexParams("COSINE", "HNSW", 16, 128)),
    CollectionSpec("outerwear", "Outerwear", IndexParams("COSINE", "HNSW", 16, 128)),
    CollectionSpec("dress_skirt", "Dresses & Skirts", IndexParams("COSINE", "HNSW", 16, 128))
  ]

  /** The oracles for one collection's run. */
  datatype Environment = Environment(
    createOk: bool,
    indexOk: bool,
    fetch: nat -> FetchAttempt,
    decode: string -> Decoded,
    queryOk: bool,
    attemptOk: (nat, nat) -> bool)

  /** The first two steps for one collection: create it, or reuse the one
      already there, then make sure it carries its vector index. */
  function PrepareCollection(store: Store, spec: CollectionSpec, env: Environment)
    : (r: Result<(Store, Collection)>)
    ensures r.Failure? <==> !env.createOk
    ensures r.Failure? ==> r.error == ServiceError
    ensures r.Success? ==>
              var base := CreateCollection(store, spec.name, GarmentSchema, true).value.1;
              && r.value.0.Keys == store.Keys + {spec.name}
              && r.value.0[spec.name] == r.value.1
              && (forall k :: k in store && k != spec.name ==> r.value.0[k] == store[k])
              && r.value.1.rows == base.rows && r.value.1.schema == base.schema
              && ("embedding" in r.value.1.indexes <==> "embedding" in base.indexes || env.indexOk)
  {
    var created :- CreateCollection(store, spec.name, GarmentSchema, env.createOk);
    var c := CreateIndex(created.1, "embedding", spec.index, env.indexOk);
    Success((created.0[spec.name := c], c))
  }

  /** One iteration of the script's loop: ensure the collection, ensure its
      index, fetch, clean and insert with the defaults (3 fetch attempts,
      batches of 1000, 3 insert attempts). An empty fetch skips insertion. */
  method IngestCollection(store: Store, spec: CollectionSpec, env: Environment) returns (r: Result<Store>)
    ensures !env.createOk ==> r == Failure(ServiceError)
    ensures r.Success? ==> r.value.Keys == store.Keys + {spec.name}
    ensures r.Success? ==>
              ("embedding" in r.value[spec.name].indexes <==>
               "embedding" in CreateCollection(store, spec.name, GarmentSchema, true).value.1.indexes || env.indexOk)
    ensures r.Success? && spec.name in store ==>
              store[spec.name].rows <= r.value[spec.name].rows &&
              r.value[spec.name].schema == store[spec.name].schema
    ensures r.Success? && spec.name !in store ==> r.value[spec.name].schema == GarmentSchema
    ensures r.Success? ==> forall k :: k in store && k != spec.name ==> r.value[k] == store[k]
    ensures env.createOk && (forall a :: 0 <= a < 3 ==> Transient(env.fetch(a))) ==>
              r.Success? && r.value[spec.name].rows == CreateCollection(store, spec.name, GarmentSchema, true).value.1.rows
  {
    var prepared := PrepareCollection(store, spec, env);
    if prepared.Failure? {
      return Failure(prepared.error);
    }
    var (s2, c) := prepared.value;
    var fetched, _ := FetchData(3, env.fetch);
    if fetched.Failure? {
      return Failure(fetched.error);
    }
    if fetched.value == [] {
      return Success(s2);
    }
    var processed := ProcessEmbeddings(fetched.value, "embeddings", env.decode);
    if processed.Failure? {
      return Failure(processed.error);
    }
    var c', _ := InsertData(c, processed.value, 1000, 3, env.queryOk, env.attemptOk);
    return Success(s2[spec.name := c']);
  }

  /** The names of the first `n` collections of `specs`. */
  function VisitedNames(specs: seq<CollectionSpec>, n: nat): (r: set<string>)
    requires n <= |specs|
    ensures forall k :: 0 <= k < n ==> specs[k].name in r
  {
    set k | 0 <= k < n :: specs[k].name
  }

  lemma VisitedNamesNext(specs: seq<CollectionSpec>, i: nat)
    requires i < |specs|
    ensures VisitedNames(specs, i + 1) == VisitedNames(specs, i) + {specs[i].name}
  {
  }

  /** One more collection visited: the store gains its name and nothing else changes. */
  lemma VisitedStep(store: Store, st: Store, next: Store, specs: seq<CollectionSpec>, i: nat)
    requires i < |specs|
    requires st.Keys == store.Keys + VisitedNames(specs, i)
    requires forall k :: k in store && k !in VisitedNames(specs, i) ==> st[k] == store[k]
    requires next.Keys == st.Keys + {specs[i].name}
    requires forall k :: k in st && k != specs[i].name ==> next[k] == st[k]
    ensures next.Keys == store.Keys + VisitedNames(specs, i + 1)
    ensures forall k :: k in store && k !in VisitedNames(specs, i + 1) ==> next[k] == store[k]
  {
    VisitedNamesNext(specs, i);
  }

  /** The script's loop over `collections_info` (run with `specs` = `CollectionsInfo`):
      each collection in turn; an exception in any step ends the script, and
      the collections handled before it keep what was done to them. */
  method IngestAll(store: Store, specs: seq<CollectionSpec>, env: string -> Environment) returns (r: Result<Store>)
    ensures r.Success? ==> r.value.Keys == store.Keys + VisitedNames(specs, |specs|)
    ensures r.Success? ==> forall k :: k in store && k !in VisitedNames(specs, |specs|) ==> r.value[k] == store[k]
    ensures (exists k :: 0 <= k < |specs| && !env(specs[k].name).createOk) ==> r.Failure?
  {
    var st := store;
    var i := 0;
    while i < |specs|
      invariant 0 <= i <= |specs|
      invariant st.Keys == store.Keys + VisitedNames(specs, i)
      invariant forall k :: k in store && k !in VisitedNames(specs, i) ==> st[k] == store[k]
      invariant forall k :: 0 <= k < i ==> env(specs[k].name).createOk
    {
      var spec := specs[i];
      var next := IngestCollection(st, spec, env(spec.name));
      if next.Failure? {
        return Failure(next.error);
      }
      assert env(specs[i].name).createOk;
      VisitedStep(store, st, next.value, specs, i);
      st := next.value;
      i := i + 1;
    }
    return Success(st);
  }
}
