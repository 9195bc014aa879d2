# AlienVault OTX → MongoDB connector, modelled in Dafny

`etl_connector.py` pulls the threat-intelligence "pulses" a user subscribes to
from the AlienVault OTX API and loads them into a MongoDB collection. A run
goes through these steps:

- It picks a resume point (`modified_since`): the command line value first, then the persisted watermark file, then the configured default.
- It checks the API key against `/api/v1/users/me`.
- It follows the `next` links of `/api/v1/pulses/subscribed` page by page. The query parameters go with the first request only.
- It rewrites every record into a storage-safe document. Dots in keys become underscores, leading `$` signs are removed, and this holds at every depth.
- It adds a metadata envelope to each document: `_source`, `ingested_at`, `run_id` and `page_no`.
- It upserts each document by its natural key: `(id, revision)`, or a fingerprint of the document when it has no `id`.
- It tracks the greatest `modified` (or `created`) string it has seen. A run that reads the whole listing persists that value as the next watermark.

The model has one module per concern:

- `JsonValue` (`json.dfy`) covers decoded JSON values and the Python `dict` behaviour the connector relies on: `get`, item assignment, building a dict from pairs, and MongoDB's `$set` of a whole document. An object is a sequence of fields in insertion order.
- `Sanitizer` (`sanitize.dfy`) models `safe_key` and `make_mongo_safe` as functions. It proves that the result is always storage-safe, that the rewrite is idempotent, and how colliding keys are resolved.
- `Watermark` (`watermark.dfy`) covers the resolution of the resume point with Python's `or`, Python string order, the per-record stamp, and the running maximum. It proves that the final watermark is the maximum of the seed and every stamp, and that it never goes down.
- `Pagination` (`pagination.dfy`) models `fetch_pulses` as a method with a loop. The remote API is a pure function from requests to responses. The method is proved to return exactly the chain of linked pages, together with the requests it sent and the error status that stopped it, if there was one.
- `Store` (`store.dfy`) models MongoDB's `update_one(filter, {"$set": doc}, upsert=True)` on a sequence of documents, and `upsert_pulse`. A class `Collection` holds the documents and updates them in place. The module proves that an upsert stores the document under its key, keeps the collection free of duplicate `(id, revision)` pairs and duplicate fingerprints, and is idempotent.
- `Ingest` (`ingest.dfy`) models the loops of `run` as methods and the whole of `run` as `Ingest.Run`, with an outcome per way the run can end. They are proved against functions that describe the documents of a run and the collection after upserting them.

Two points of the code are easy to misread, and the model follows the code on both:

- `update_one` with `$set` merges the document's fields into the matched document. It does not replace that document, so fields the new version no longer has are kept.
- Watermark stamps are compared as Python strings, code point by code point, not as parsed timestamps.

## Model

| member | source | states |
|---|---|---|
| JsonValue.Get | etl_connector.py:139 | `d.get(k)` finds a value exactly when `k` is one of the dict's keys |
| JsonValue.Insert | etl_connector.py:193-196 | after `d[k] = v`, `get(k)` is `v` and every other key reads as before |
| JsonValue.InsertKeys | etl_connector.py:193-196 | assignment keeps the place of an existing key, appends a new key at the end, and keeps keys distinct |
| JsonValue.InsertAbsent | etl_connector.py:193-196 | assigning a missing key appends exactly that one field |
| JsonValue.InsertPresent | etl_connector.py:142 | assigning a value the dict already holds changes nothing |
| JsonValue.GetAt | etl_connector.py:139 | on a dict, `get` returns the value stored beside each key |
| JsonValue.DictOfIsDict | etl_connector.py:55 | a dict comprehension yields distinct keys |
| JsonValue.DictOfCoversKeys | etl_connector.py:55 | every key of the pairs is a key of the resulting dict |
| JsonValue.DictOfKeysFromPairs | etl_connector.py:55 | every key of the dict comes from some pair |
| JsonValue.DictOfLastWins | etl_connector.py:55 | under each key the dict holds the value of the last pair with that key |
| JsonValue.DictOfKeepsFirstOrder | etl_connector.py:55 | keys appear in the order of their first pair |
| JsonValue.DictOfFields | etl_connector.py:55 | every field of the dict is one of the pairs |
| JsonValue.DictOfDict | etl_connector.py:55 | pairs that already have distinct keys come back as they are |
| JsonValue.Truthy | etl_connector.py:200-201 | Python truthiness of a decoded value: null, false, 0, empty strings, lists and objects are falsy |
| JsonValue.DictOf | etl_connector.py:55 | a dict built by assigning pairs in order; its meaning is stated by the `DictOf` lemmas |
| JsonValue.SetAll | etl_connector.py:142 | `$set` keeps a dict a dict; a key of the update reads the update's value, any other key its old value |
| JsonValue.SetAllIdempotent | etl_connector.py:142 | setting the same fields twice is the same as once |
| JsonValue.SetAllOverAgreeing | etl_connector.py:142 | setting fields a document already holds leaves it unchanged |
| Sanitizer.ReplaceDots | etl_connector.py:51 | same length, no `.` left, every dot becomes `_` and every other character is kept |
| Sanitizer.StripDollars | etl_connector.py:51 | the result is a suffix of the key, everything removed was `$`, and it does not start with `$` |
| Sanitizer.SafeKey | etl_connector.py:49-51 | the rewritten key has no `.` and no leading `$`; a key that is already safe is unchanged |
| Sanitizer.SafeKeyIdempotent | etl_connector.py:49-51 | rewriting a key twice equals rewriting it once |
| Sanitizer.Sanitize | etl_connector.py:53-59 | scalars are returned unchanged, lists stay lists, objects stay objects |
| Sanitizer.SanitizeList | etl_connector.py:56-57 | a list is mapped element by element, keeping its length |
| Sanitizer.SanitizePairs | etl_connector.py:55 | the comprehension's pairs are the rewritten key and sanitised value of each field, in order |
| Sanitizer.SanitizeFields | etl_connector.py:54-55 | a sanitised object has distinct keys |
| Sanitizer.SanitizeFieldsCoversKeys | etl_connector.py:55 | every input key, rewritten, is a key of the output |
| Sanitizer.SanitizeFieldsKeysFromInput | etl_connector.py:55 | every output key is the rewriting of some input key |
| Sanitizer.SanitizeFieldsLastWins | etl_connector.py:55 | when input keys collide after rewriting, the value kept is the last one's, sanitised |
| Sanitizer.SanitizeFieldsKeepsFirstOrder | etl_connector.py:55 | the keys from a prefix of the input come first in the output, in order |
| Sanitizer.SanitizePairsPrefix | etl_connector.py:55 | the pairs of a prefix of the fields are the prefix of the pairs |
| Sanitizer.SanitizeIsSanitized | etl_connector.py:53-59 | at every depth, the output has only safe keys and distinct keys |
| Sanitizer.SanitizeFieldsAreSanitized | etl_connector.py:54-55 | each field of a sanitised object has a safe key and a storage-safe value |
| Sanitizer.SanitizedIsFixed | etl_connector.py:53-59 | a value that is already storage-safe is returned unchanged |
| Sanitizer.SanitizedFieldsAreFixed | etl_connector.py:54-55 | an object with distinct safe keys and storage-safe values is returned unchanged |
| Sanitizer.SanitizeIdempotent | etl_connector.py:53-59 | `make_mongo_safe` applied twice equals applying it once |
| Watermark.Or | etl_connector.py:172 | Python `a or b` on optional strings: `a` when it is non-empty, else `b` |
| Watermark.ResolveResume | etl_connector.py:169-172 | returns the CLI value if it is non-empty, else the file value (unless `--no-watermark`), else the non-empty default, else none; the result is never an empty string |
| Watermark.StrLess | etl_connector.py:202 | Python `<` on `str`: the first differing code point decides, and a proper prefix is smaller; its order properties are the `StrLess` lemmas |
| Watermark.StrLessIrreflexive | etl_connector.py:202 | no string is below itself in Python string order |
| Watermark.StrLessTransitive | etl_connector.py:202 | Python string order is transitive |
| Watermark.StrLessTotal | etl_connector.py:202 | any two different strings are ordered one way or the other |
| Watermark.StrLessEqTransitive | etl_connector.py:202 | `<=` on strings is transitive |
| Watermark.StrLessCommonPrefix | etl_connector.py:202 | strings sharing a prefix compare as their remainders do |
| Watermark.OrJson | etl_connector.py:200 | `p.get("modified") or p.get("created")`: the first value when it is present and truthy, else the second |
| Watermark.RecordStamp | etl_connector.py:200-201 | a non-empty string `modified` is the stamp; when `modified` is missing or falsy, a non-empty string `created` is the stamp; any stamp is a non-empty string from one of the two; there is no stamp when both are missing |
| Watermark.Advance | etl_connector.py:201-203 | the new watermark is the old one or the stamp, is unchanged without a stamp, and is at least both |
| Watermark.TrackAll | etl_connector.py:183-205 | the watermark seeded with the resume point and advanced by each record's stamp in order; stated by `TrackAllIsMaximum` and `TrackAllMonotone` |
| Watermark.TrackAllIsMaximum | etl_connector.py:183-205 | the watermark after a run covers the seed and every record's stamp and is one of them; it is unset exactly when there was no seed and no stamp |
| Watermark.TrackAllMonotone | etl_connector.py:199-205 | the watermark never decreases as more records are seen |
| Watermark.WatermarkToSave | etl_connector.py:222-223 | a value is persisted exactly when the final watermark is a non-empty string, and that value is the watermark |
| Watermark.CreatedAdvancesWatermark | etl_connector.py:200-203 | a record with only `created` 2025-02-01 after the seed 2025-01-01 moves the watermark to 2025-02-01 |
| Pagination.FirstParams | etl_connector.py:110-113 | the first request has `limit`, plus `modified_since` only when the resume point is a non-empty string |
| Pagination.HasNext | etl_connector.py:116 | `while url`: the page's `next` is a non-empty string |
| Pagination.RequestAt | etl_connector.py:115-124 | the request for a page: the listing URL with the parameters first, then each page's `next` without them |
| Pagination.Linked | etl_connector.py:116-124 | each page is the 200 answer to the request built from the page before it, and each page but the last has a `next` |
| Pagination.LinkedTruncate | etl_connector.py:116-124 | every prefix of a chain of linked pages is linked |
| Pagination.LinkedSameLength | etl_connector.py:116-124 | two linked chains of the same length are equal |
| Pagination.LinkedPrefix | etl_connector.py:116-124 | two linked chains agree as far as both go |
| Pagination.LinkedNext | etl_connector.py:116-124 | extending a chain by one page means the last page had a link, and the new page is the answer to the next request |
| Pagination.StopsMaximal | etl_connector.py:116-124 | no linked chain goes past a complete extraction |
| Pagination.StopsUnique | etl_connector.py:116-124 | there is only one complete extraction |
| Pagination.LinkedSnoc | etl_connector.py:120-123 | a page answering the next request extends the chain |
| Pagination.ChainStep | etl_connector.py:120-123 | each page received is the next page of the stopping chain |
| Pagination.RequestLogStep | etl_connector.py:117 | the record of sent requests stays in step with the pages |
| Pagination.FirstUrlHasNoQuery | etl_connector.py:115-117 | the listing URL has no `?`, so the first request carries the parameters |
| Pagination.FetchPulses | etl_connector.py:109-124 | returns linked pages that end at a page without `next` or at an error; the error status is the answer to the next request; request `i` is the first URL with the parameters or the previous page's link without them |
| Pagination.FetchYieldsChain | etl_connector.py:116-124 | a finite chain of linked pages is fetched exactly, in order, without error |
| Pagination.FetchStopsAtError | etl_connector.py:118-119 | a non-200 answer ends the extraction with that status, yielding only the earlier pages |
| Store.Lookup | etl_connector.py:139-140 | a missing key reads as null; a present key reads as its value |
| Store.Matches | etl_connector.py:142 | a document matches a filter when every condition equals its field, a missing field reading as null |
| Store.FirstMatch | etl_connector.py:142 | the first document, in collection order, that the filter matches; none exactly when no document matches |
| Store.Upserted | etl_connector.py:142 | changes only the first match, with the update set on it; with no match it appends the filter's fields with the update set on top |
| Store.KeyFor | etl_connector.py:139-141 | the key is `(id, revision)` exactly when `id` is not null, otherwise it is the document's fingerprint |
| Store.KeyFilter | etl_connector.py:139-141 | a filter document has distinct keys |
| Store.KeyFilterMatches | etl_connector.py:142 | a key's filter matches exactly the documents that carry the key |
| Store.LookupSetAll | etl_connector.py:142 | after `$set`, a field of the update reads as the update's value, any other field as before |
| Store.KeyStaysMatched | etl_connector.py:142 | setting the document on its match keeps the natural key, its `(id, revision)`, a null `id` and `_hash` |
| Store.FilterCarriesKey | etl_connector.py:139-141 | the filter document carries its key; an id filter has no `_hash`, a fingerprint filter no `id` |
| Store.InsertedCarriesKey | etl_connector.py:142 | the inserted document is a dict that carries its natural key; if it has a `_hash`, its `id` is null |
| Store.FirstMatchAt | etl_connector.py:142 | a match with none before it is the first match |
| Store.UpsertStoresDoc | etl_connector.py:137-142 | an upsert adds at most one document, and afterwards some document carries the key and every field of `doc` |
| Store.ReplaceKeepsDistinct | etl_connector.py:142 | replacing a document by one with the same identity keeps identities distinct |
| Store.AppendKeepsDistinct | etl_connector.py:142 | appending a document with a new identity keeps identities distinct |
| Store.ReplaceKeepsHashes | etl_connector.py:142 | replacing a document by one with the same `_hash` keeps fingerprints distinct |
| Store.AppendKeepsHashes | etl_connector.py:141-142 | appending a document with a new fingerprint, or none, keeps fingerprints distinct |
| Store.UpsertKeepsDeduplicated | etl_connector.py:137-142 | an upsert keeps every non-null `(id, revision)` unique and every `_hash` unique, and keeps fingerprinted documents without an `id` |
| Store.UpsertIdempotent | etl_connector.py:137-142 | upserting the same document twice leaves the collection as upserting it once |
| Store.AppendedIsFirstMatch | etl_connector.py:142 | a freshly inserted document is the first match for its filter |
| Store.SecondUpdateSame | etl_connector.py:137-142 | a second upsert after an update finds the same document and needs no change |
| Store.SecondInsertUpdatesSame | etl_connector.py:137-142 | a second upsert after an insert finds the inserted document and needs no change |
| Store.Collection.constructor | etl_connector.py:126-128 | the connected collection holds what earlier runs stored |
| Store.Collection.UpdateOneUpsert | etl_connector.py:142 | the collection becomes the upsert of its old contents |
| Store.Collection.UpsertPulse | etl_connector.py:137-142 | the collection becomes the upsert of the document under its natural key, and stays deduplicated |
| Ingest.Envelope | etl_connector.py:193-196 | the four metadata fields in the order `run` assigns them; stated by `EnvelopeFields` |
| Ingest.EnvelopeFields | etl_connector.py:193-196 | the envelope is a dict with exactly the four metadata keys and their values |
| Ingest.StoredDoc | etl_connector.py:192-196 | the stored document is a dict |
| Ingest.StoredDocFields | etl_connector.py:192-196 | the document holds the source tag, clock reading, run id and page number, and every other field is the record's own, sanitised |
| Ingest.SetAllFields | etl_connector.py:193-196 | each field after the assignments was already there or was assigned |
| Ingest.StoredDocIsSanitized | etl_connector.py:192-196 | the stored document is storage-safe at every depth |
| Ingest.PageDocs | etl_connector.py:190-196 | a page gives one document per record |
| Ingest.AllRecords | etl_connector.py:187-190 | the records of every page in the order the run sees them |
| Ingest.RunDocs | etl_connector.py:187-196 | a run gives one document per record of every page |
| Ingest.UpsertAll | etl_connector.py:207-208 | the collection after upserting a batch of documents one after another; stated by `UpsertAllSize` and `UpsertAllKeepsDeduplicated` |
| Ingest.PageDocsAt | etl_connector.py:190-196 | document `j` of a page is built from record `j` at its position in the run |
| Ingest.RunDocsAt | etl_connector.py:187-196 | record `j` of page `i` sits at its run position and is built with page number `i + 1` |
| Ingest.DocBuilderApply | etl_connector.py:192-196 | the run's transformation reads the clock at the record's position |
| Ingest.RunDocsEnvelope | etl_connector.py:187-196 | the document of record `j` of page `i` is that record stored with page number `i + 1` and its clock reading |
| Ingest.PageDocsShareRun | etl_connector.py:193-196 | every document of a page carries the run id, the source tag and the page's number |
| Ingest.RunDocsShareRun | etl_connector.py:180-196 | every document of a run carries the same run id and source tag |
| Ingest.PageNumbersExample | etl_connector.py:187-196 | two pages of two and one records give 3 documents with page numbers 1, 1, 2 |
| Ingest.DocBuilderEligible | etl_connector.py:192-196 | a record without a `_hash` field gives a dict document without one |
| Ingest.PageDocEligible | etl_connector.py:190-196 | each document of a page built from such a record is such a dict |
| Ingest.RunDocsEligible | etl_connector.py:187-196 | every document of such a run is such a dict |
| Ingest.UpsertAllKeepsDeduplicated | etl_connector.py:207-208 | upserting a batch keeps every `(id, revision)` and every fingerprint unique |
| Ingest.UpsertAllSize | etl_connector.py:207-208 | a batch of upserts adds at most one document per document upserted |
| Ingest.RunKeepsDeduplicated | etl_connector.py:187-209 | a run never duplicates a stored `(id, revision)` or fingerprint |
| Ingest.TrackAllSnoc | etl_connector.py:199-205 | one more record moves the watermark by its stamp |
| Ingest.UpsertAllSnoc | etl_connector.py:207-208 | one more document adds one more upsert |
| Ingest.WatermarkStep | etl_connector.py:199-205 | the inner loop's watermark step |
| Ingest.StoreStep | etl_connector.py:207-208 | the inner loop's upsert step |
| Ingest.PageStep | etl_connector.py:187-189 | one more page appends its records and documents |
| Ingest.IngestPage | etl_connector.py:190-209 | after one page, the watermark tracks every record so far and the store holds the upserts of every document so far |
| Ingest.IngestPages | etl_connector.py:183-209 | returns the number of records, the `max` watermark from the seed, and the store after upserting every run document in order |
| Ingest.Run | etl_connector.py:144-223 | a missing key or a non-200 key check ends the run before any store change, whatever the listing; otherwise the fetched pages are the unique chain and are all loaded; a fetch error reports its status and persists nothing; a finished run reports the count and persists the final watermark when set |

## Left out

- The HTTP session is not modelled: retries on 429/500/502/503/504, backoff, timeouts and headers (lines 80-99). The API is a pure function from a request to a response, and the API key is not part of a request.
- `validate_api_key` (lines 101-107) is reduced to the status of one request to the `users/me` URL. The response body, `r.json()` and the message text are not modelled.
- Decoding a response body that is not JSON is not modelled. Every 200 answer carries a decoded page.
- Pagination.Page: every record in `results` is a JSON object and `results` is a list. In the source, a record that is a list, string, number, bool or null makes the assignment of `_source` (line 193) raise `TypeError`, and so does a `results` that is an object or a string, since iterating it gives strings. The run then aborts with exit status 1 after the earlier records were loaded. The model cannot express those inputs.
- A page whose `results` is an explicit null is not modelled. `page.get("results", [])` would then give `None` and the loop would fail; in the model a page always has a list.
- Pagination.Page: `next` is an optional string. A non-string `next` value is not modelled.
- The generator runs lazily in the source. The model fetches all pages first and then ingests them. The documents stored and the outcome are the same, because the API is a pure function and a fetch error aborts the run after the earlier pages were loaded either way.
- Index creation (lines 129-134) changes nothing that is stored. `Store.Collection.constructor` takes the documents the collection already holds, and `Ingest.Run` works on a store of any contents. Connection and write errors are not modelled.
- Store.Matches: a filter on the top-level fields compares whole values. MongoDB's matching of a scalar against array elements, and `_id` generation, are not modelled.
- JsonValue.SetAll: `$set` with the dotted or `$`-prefixed field names is not modelled. Documents set by the connector are already sanitised, so it does not arise.
- The fingerprint `hash(json.dumps(doc, sort_keys=True))` is the parameter `fingerprint`. Python salts `str` hashes per process, so a pulse without an `id` is not deduplicated across runs; the model makes no claim across runs with different fingerprint functions.
- Store.UpsertKeepsDeduplicated, Store.UpsertIdempotent, Store.UpsertStoresDoc and Ingest.RunKeepsDeduplicated require that the document has no field `_hash`. A record carrying its own `_hash` would overwrite the stored fingerprint and break these properties.
- Store.UpsertIdempotent also requires that the stored documents are dicts, which documents read back from MongoDB are.
- Watermark.RecordStamp: only string stamps are modelled. In the source, a truthy non-string `modified` or `created` either raises in the comparison and is skipped by the `try`/`except`, or is adopted when no watermark was set yet; the model ignores all non-string stamps.
- Floating-point JSON numbers are not modelled. Numbers are integers.
- The watermark file (`load_watermark`, `save_watermark`, lines 61-78) is not modelled. The file's value is the parameter `fromFile`, and a write failure only prints a warning. `Ingest.Run` returns the watermark to save.
- Environment variables, `.env` loading, argument parsing and exit codes (lines 145-167, 226-234) are not modelled. Their values are parameters of `Ingest.Run`.
- An unset `OTX_API_KEY` and an empty one are the same input, `""`.
- `iso_now` is the parameter `clock`, read at the position of each record in the run.
- `uuid.uuid4()` is the parameter `runId`.
- `to_iso` is not used by the run and is not modelled.
- `time.sleep` and every `print` are not modelled.
- A keyboard interrupt is not modelled.
- Ingest.Run and Pagination.FetchPulses require that the chain of `next` links ends, at a page without a link or at an error. `Ingest.Run` requires it only when the key is set and accepted. On an endless chain the source loops forever.
