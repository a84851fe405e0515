# Fashion-Consulting: retrieval filter and ingestion pipeline in Dafny

The system recommends garments. An LLM turns a customer's request into an
analysis: one summary per clothing part (tops, pants, outerwear, dress_skirt).
Each summary is embedded and searched in the Milvus collection named after its
part. The search is narrowed by a metadata filter built from the customer's
gender and seasons. Offline, a script copies garment rows and their embeddings
from MySQL into those collections.

This project models the sequential logic between those external services:

- `results.dfy`, module `Results`: `Option`, `Result` and the exception kinds
  (`TypeError`, `KeyError`, `ValueError`, service errors). Python exceptions
  that the code lets propagate become `Failure` values.
- `filter.dfy`, module `Filter`: `build_filter_expr`. The request values are
  typed as the Python values that reach the builder (`None`, strings, integers,
  lists). This keeps two behaviours visible: an integer gender never equals the
  string `'1'`, and a `None` season raises `TypeError`. The module also gives
  the filter a meaning over stored records (`Admits`) and proves what it keeps.
- `consulting.dfy`, module `Consulting`: the default greeting of
  `consulting_main`, `addition_info_append`, and the `retriever` loop. The LLM,
  the embedding service and the vector search are function parameters.
- `milvus.dfy`, module `Milvus`: the ingestion script `db_initialize/milvus.py`.
  It covers the gender `CASE` of the SQL queries, `process_embeddings`,
  `create_collection`, `create_index`, `insert_data` (deduplication, batching,
  retries), `fetch_data`, and the loop over the four collections. Every
  database or Milvus call that can fail is an oracle parameter saying how that
  call went. This includes the `list_collections`/`Collection` calls of
  `create_collection` (`Environment.createOk`), whose exceptions nothing
  catches, so a failure there ends the script.

Behaviours a reader might not expect, all modelled as the code has them:

- Season clauses follow the input order of the season list. They are not put
  into a canonical spring/summer/autumn/winter order, so the same set of
  seasons can give different strings (`Filter.SeasonTextFollowsInputOrder`).
  Which records pass does not depend on the order (`Filter.SeasonOrderIrrelevant`).
- Gender `'3'` restricts the search to unisex items. It does not mean "no
  gender restriction".
- The retriever has no per-part failure isolation. The first failing
  embedding, filter or search call aborts the whole request with its error
  (`Consulting.RetrieveFromFirstError`).
- `process_embeddings` catches only `JSONDecodeError`, `KeyError` and
  `TypeError`. A `ValueError` from the float16 conversion aborts the script
  instead of dropping the row (`Decoded.Uncaught`).
- When the existing-id query of `insert_data` raises, the set of existing ids
  stays empty and no record is skipped (`Milvus.FailedQuerySkipsNothing`).
  The query is `item_id >= 0`, so records with negative ids are never
  recognised as present (`Milvus.NegativeIdsNotDeduplicated`).
- `insert_data` does not deduplicate records that repeat inside one input list.

## Model

| member | source | states |
|---|---|---|
| Filter.GenderClauseOf | app/src/services/consulting_service.py:154-162 | exactly the strings "1", "2", "3" give the man-or-unisex, woman-or-unisex and unisex-only clauses; every other value, an absent key included, gives none |
| Filter.SeasonOf | app/src/services/consulting_service.py:172-180 | an item names a season exactly when it is that season's lower-case name |
| Filter.SeasonItems | app/src/services/consulting_service.py:170-172 | iterating the season value fails with TypeError exactly for None and integers; a list yields its items and a string yields one item per character |
| Filter.SeasonClauses | app/src/services/consulting_service.py:172-180 | the season loop adds at most one clause per item and only season clauses |
| Filter.GenderPart | app/src/services/consulting_service.py:154-162 | the gender block appends nothing exactly when there is no gender clause, and otherwise appends exactly that one clause |
| Filter.Render | app/src/services/consulting_service.py:157-180 | every clause text is non-empty, and a season clause reads "<season> == 1" with the season's lower-case name |
| Filter.Join | app/src/services/consulting_service.py:183-184 | the joined text starts with the first part, followed by the separator when a second part exists |
| Filter.JoinEndsWithLast | app/src/services/consulting_service.py:183-184 | the joined text ends with the last part |
| Filter.JoinEmptyIff | app/src/services/consulting_service.py:183-187 | with no empty part, the joined text is empty exactly when there are no parts |
| Filter.SeasonClausesEmpty | app/src/services/consulting_service.py:172-180 | the loop adds no clause exactly when no item is a season name |
| Filter.SeasonClausesCount | app/src/services/consulting_service.py:172-180 | each season gets exactly as many clauses as its name occurs among the items |
| Filter.SeasonClausesAppend | app/src/services/consulting_service.py:172-180 | the clauses follow input order: the loop over a concatenation gives the concatenated clauses |
| Filter.Clauses | app/src/services/consulting_service.py:144-180 | the clause list fails only when the season value is not iterable; the gender clause, when present, comes first and every later clause is a season clause |
| Filter.ClausesEmptyIff | app/src/services/consulting_service.py:183-187 | the clause list is empty exactly when there is no gender clause and no requested season |
| Filter.BuildFilterExpr | app/src/services/consulting_service.py:134-187 | TypeError exactly when the season entry is None or an integer; otherwise the rendered clauses joined by " and ", the empty string exactly when nothing is requested, and the gender clause text first |
| Filter.SeasonClausesAdmit | app/src/services/consulting_service.py:164-180 | the season clauses admit a record exactly when every named season is flagged 1 on it |
| Filter.FilterMeaning | app/src/services/consulting_service.py:146-180 | a record passes the built filter exactly when the inclusive gender policy accepts its code and every requested season is flagged on it |
| Filter.SeasonOrderIrrelevant | app/src/services/consulting_service.py:170-180 | two season lists naming the same seasons admit the same records, whatever their order or repetitions |
| Filter.StringSeasonAddsNothing | app/src/services/consulting_service.py:170-180 | a bare string as the season value raises nothing and requests no season, because it is iterated character by character |
| Filter.DocstringScenario | app/src/services/consulting_service.py:138-142 | the documented example, gender "3" with spring and summer, gives exactly "gender in [3] and spring == 1 and summer == 1" |
| Filter.ManSpringSummerScenario | app/src/services/consulting_service.py:154-184 | gender "1" with spring and summer gives exactly "gender in [1,3] and spring == 1 and summer == 1" |
| Filter.SeasonTextFollowsInputOrder | app/src/services/consulting_service.py:172-184 | the same two seasons in the other order give a different expression string |
| Filter.IntGenderAddsNoClause | app/src/services/consulting_service.py:156-161 | an integer gender produces no gender clause, so the filter ignores the record's gender and tests only the season flags |
| Filter.NormalizeGender | app/app.py:26-32 | the form's integer codes 1, 2 and 3 become the strings "1", "2" and "3"; other values are unchanged |
| Filter.BuildFilterExprLenient | app/src/services/consulting_service.py:154-162 | agrees with the builder on string genders and fails exactly when it does; an integer code 1..3 gives a non-empty expression starting with its gender clause |
| Filter.FormGenderFiltered | app/app.py:24-36 | with the corrected builder, form gender n in 1..3 keeps exactly the records of gender n or unisex (unisex only for 3) that are flagged for every requested season |
| Consulting.FillGreeting | app/src/services/consulting_service.py:235-237 | a missing polite_reply becomes the fixed default greeting and nothing else changes; a present one is kept unchanged |
| Consulting.AdditionInfoAppend | app/src/services/consulting_service.py:205-218 | both gender and season are copied from complete additional info, or both take the defaults "3" and None; they are never mixed, and the other fields of the reply are kept |
| Consulting.ReadInfo | app/src/services/consulting_service.py:207-208 | the two reads succeed exactly when both keys are present; a missing gender raises KeyError("gender") before season is read, and a missing season raises KeyError("season") |
| Consulting.Complete | app/src/services/consulting_service.py:205-215 | the copy branch completes exactly when the info is truthy and both reads succeed; no info and an empty map never do |
| Consulting.PartStep | app/src/services/consulting_service.py:122-129 | a failed embedding propagates its error; after it, a failed filter build gives TypeError; success means both succeeded and the ids are the search result for the part, the vector, limit 5 and the built expression |
| Consulting.RetrieveFrom | app/src/services/consulting_service.py:120-130 | the loop succeeds exactly when every part's embed-filter-search step succeeds |
| Consulting.RetrieveFromFirstError | app/src/services/consulting_service.py:121-126 | a failed loop carries the error of the first part whose step failed, and every earlier part succeeded |
| Consulting.RetrieveFromContents | app/src/services/consulting_service.py:120-130 | the map's keys are the names visited plus the earlier ones; a name holds the ids of its last part; untouched names keep their ids |
| Consulting.Retriever | app/src/services/consulting_service.py:106-132 | a missing gender, season or analysis key raises KeyError, in that order; with at least one part, success implies the filter was built successfully |
| Consulting.RetrieverContents | app/src/services/consulting_service.py:121-130 | the result's keys are exactly the part names of the analysis, and a repeated name keeps its last part's ids |
| Consulting.RetrieverSharesFilter | app/src/services/consulting_service.py:114-126 | every part is searched with the one expression built from the request's gender and season, and its ids are the search result in the order the search returned them |
| Consulting.RetrieverRespectsLimit | app/src/services/consulting_service.py:101 | every id list has at most 5 entries when the search honours its limit |
| Consulting.ConsultingMain | app/src/services/consulting_service.py:221-241 | an LLM failure propagates; on success the greeting is the reply's polite_reply or the default one, and the reply had an analysis |
| Consulting.NoPartsNoFilter | app/src/services/consulting_service.py:120-132 | with an empty analysis no filter is built, so even a None season gives the empty map |
| Consulting.DefaultRequestFails | app/src/services/consulting_service.py:209-211 | without complete additional info, a request whose first part embeds fails with TypeError |
| Consulting.AdditionInfoAppendNoneSafe | app/src/services/consulting_service.py:205-216 | with the default season an empty list, the default filter is exactly "gender in [3]"; complete info behaves as before |
| Consulting.NoneSafeDefaultRetrieves | app/src/services/consulting_service.py:114-130 | with the corrected default, retrieval fails only when an embedding or search fails, and the filter admits exactly the unisex records |
| Milvus.GenderCode | db_initialize/milvus.py:143-148 | MEN/BOYS map to 1, WOMEN/GIRLS to 2, UNISEX to 3, and every other category, NULL included, to 4 |
| Milvus.SentinelExcludedUnisexIncluded | db_initialize/milvus.py:143-148 | code 4 passes none of the gender clauses the builder emits, and code 3 passes all of them |
| Milvus.CategoryAgreesWithPolicy | db_initialize/milvus.py:143-148 | a category passes a request's gender clause exactly when the inclusive gender policy accepts its code |
| Milvus.Outcome | db_initialize/milvus.py:59-67 | a row without the payload column, or whose payload is not text, is caught and dropped; a decoded vector or an uncaught error comes only from decoding a text payload |
| Milvus.Clean | db_initialize/milvus.py:63-64 | the cleaned record has no payload column, has an `embedding` column holding the vector, and keeps its id and every other column |
| Milvus.KeptIsSubsequence | db_initialize/milvus.py:58-68 | the rows kept by process_embeddings appear in the input in the same order |
| Milvus.KeptCounts | db_initialize/milvus.py:58-68 | the kept rows are exactly the parseable rows, each as often as in the input |
| Milvus.ProcessEmbeddings | db_initialize/milvus.py:55-68 | fails with ValueError exactly when some row raises an uncaught conversion error; otherwise returns the cleaned form of exactly the parseable rows, in order |
| Milvus.AllGoodKeepsAll | db_initialize/milvus.py:58-65 | when every payload parses, no row is dropped |
| Milvus.KeptAppend | db_initialize/milvus.py:58-68 | rows are kept or dropped independently of each other |
| Milvus.OneBadRowDropped | db_initialize/milvus.py:59-67 | one unparseable row among parseable ones costs exactly that row |
| Milvus.CreateCollection | db_initialize/milvus.py:71-78 | a failed Milvus call raises a service error and nothing else happens; otherwise a new name gets an empty collection with the given schema, an existing collection is returned unchanged, and afterwards the name exists |
| Milvus.CreateCollectionIdempotent | db_initialize/milvus.py:72-77 | after a create, a second create with any schema that goes through changes nothing |
| Milvus.CreateIndex | db_initialize/milvus.py:81-89 | an index is added only when the field has none and the call succeeds; a failed call changes nothing; rows and schema never change |
| Milvus.CreateIndexIdempotent | db_initialize/milvus.py:83-87 | once built, an index is never rebuilt with other parameters |
| Milvus.ExistingIds | db_initialize/milvus.py:94-99 | the existing ids are the non-negative ids in the collection when the query succeeds, and none otherwise |
| Milvus.NewRecords | db_initialize/milvus.py:102 | the new records are at most as many as the input, and none has an existing id |
| Milvus.NewRecordsIsSubsequence | db_initialize/milvus.py:102 | the new records keep their input order |
| Milvus.NewRecordsCounts | db_initialize/milvus.py:102 | the new records are exactly the input records whose id is not existing, with their multiplicities |
| Milvus.NewRecordsMembers | db_initialize/milvus.py:102 | a record is new exactly when it is an input record whose id is not existing |
| Milvus.Batches | db_initialize/milvus.py:107-109 | there are no batches exactly when there are no new records, and at most one when they fit in one batch |
| Milvus.BatchesPartition | db_initialize/milvus.py:107-109 | the batches are non-empty, hold at most batch_size records (all but the last exactly that many), and concatenate to the new records |
| Milvus.InsertBatch | db_initialize/milvus.py:110-119 | at most `retries` attempts; they stop at the first success; with no success all `retries` are made |
| Milvus.InsertBatches | db_initialize/milvus.py:107-119 | every batch is tried whatever happened to earlier ones; the collection gains exactly the batches that succeeded, in order |
| Milvus.InsertData | db_initialize/milvus.py:92-119 | nothing new means no insert; otherwise one report per batch following the retry rule, and the rows grow by exactly the inserted batches |
| Milvus.LandedComeFromBatches | db_initialize/milvus.py:107-114 | every inserted record comes from one of the batches |
| Milvus.InsertedRecordsAreNew | db_initialize/milvus.py:94-112 | every inserted record is an input record whose id was not already present |
| Milvus.AllInsertedLandsEverything | db_initialize/milvus.py:107-114 | when every batch succeeds, exactly the new records are inserted |
| Milvus.SecondRunFindsNothingNew | db_initialize/milvus.py:94-105 | after a fully successful run over records with non-negative ids, a second run finds nothing new |
| Milvus.NothingNewWhenAllKnown | db_initialize/milvus.py:102-105 | records whose ids are all existing produce no new record |
| Milvus.NegativeIdsNotDeduplicated | db_initialize/milvus.py:96 | a stored record with a negative id is selected for insertion again |
| Milvus.FailedQuerySkipsNothing | db_initialize/milvus.py:94-102 | when the existing-id query fails, every input record is selected |
| Milvus.FetchData | db_initialize/milvus.py:34-52 | at most `retries` attempts; the first non-transient attempt decides the result; when every attempt fails transiently the result is the empty list |
| Milvus.PrepareCollection | db_initialize/milvus.py:217-222 | fails with a service error exactly when creating the collection fails; otherwise the collection is stored under its name with the created collection's rows and schema, its embedding index exists exactly when it existed or index creation succeeded, and other collections are untouched |
| Milvus.IngestCollection | db_initialize/milvus.py:217-233 | a failed create fails the run; on success the collection exists, its embedding index exists exactly when it existed or index creation succeeded, existing rows and schema are kept, and other collections are untouched; when creation succeeds and every fetch attempt fails transiently, nothing is inserted |
| Milvus.IngestAll | db_initialize/milvus.py:217-233 | a successful run leaves every configured collection present and every other collection untouched; a failed create for any configured collection makes the run fail |

## Left out

- The OpenAI reply (`openai_consulting_response`), the Gemini embedding (`embedding_gemini`) and the Milvus search are function parameters. The search promises at most `limit` ids only through the `HonoursLimit` assumption, and its ranking is not modelled.
- HNSW, the cosine metric, `efSearch` and float16 vectors are left out, because they are floating point inside a foreign library. Vectors are sequences of reals whose values never matter.
- MySQL, the JSON decoder and the NumPy conversion are oracles: `FetchAttempt`, `Decoded` and the `queryOk`/`attemptOk` flags. The text of the SQL queries is not modelled beyond the gender `CASE` and each collection's `mastertype` and index parameters (`CollectionsInfo`). `GenderCode` compares exactly and is case-sensitive; MySQL's collation is left out.
- `sleep`, logging, `connection.close()` and the connection helpers have no effect on the results and are left out.
- `milvus_retrieve`, `display_image`, the Flask routes of app/app.py (apart from the gender map) and the LLM schemas of app/src/services/handlers.py are left out, because they hold no logic on the modelled path.
- Consulting.Retriever: each analysis part is assumed to carry its `part` and `summary` keys. A part missing one would raise KeyError, and that is not modelled.
- Milvus.InsertData: requires `batch_size > 0`, because `range` with step 0 raises before anything is inserted.
- Milvus.IngestAll: takes the collection list as a parameter; the script runs it with `CollectionsInfo`.
- Consulting.RetrieverRespectsLimit: states the bound of 5 ids, not the ranking order.
- Consulting.ConsultingMain: the part map is described by the retriever lemmas rather than by its own contract.

## Findings

| source | as written | input that shows it | evidently intended | confidence | as-written member | corrected member |
|---|---|---|---|---|---|---|
| app/src/services/consulting_service.py:209-211 | without usable additional info, the season default is `None`, and the season loop at lines 170-172 iterates it and raises TypeError | `consulting_main(prompt)` with no additional info (as app/perfomance_evaluate/api_evaluator.py:19 calls it) and an LLM reply with at least one part | the default means "no season filter", for example an empty list, giving the filter "gender in [3]" | not executed; follows from the code | Consulting.DefaultRequestFails | Consulting.AdditionInfoAppendNoneSafe |
| app/src/services/consulting_service.py:156-161 | the builder compares the gender with the strings '1', '2' and '3', but the web form sends the integers 0-3 (app/app.py:26-35) | form gender "man", which gives `{'gender': 1, ...}`: no gender clause is built and women-only items are returned | integer codes select the same clause as their string spelling | not executed; follows from the code | Filter.IntGenderAddsNoClause | Filter.BuildFilterExprLenient |
