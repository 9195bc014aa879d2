/**
 * The extract-transform-load run (`run`): every record of every page becomes
 * a storage-safe document with a metadata envelope, is upserted unless the run
 * is a dry run, and moves the watermark; the watermark is persisted only when
 * the whole listing was read.
 */
module Ingest {
  import opened JsonValue
  import opened Sanitizer
  import opened Watermark
  import opened Pagination
  import opened Store

  const SourceTag: string := "otx_pulses_subscribed"

  /** `urljoin(OTX_BASE, OTX_USER_ME)`, the key validation endpoint. */
  const UserMeUrl: string := OtxBase + "/api/v1/users/me"

  /** The metadata fields added to every stored document. */
  predicate IsEnvelopeKey(k: string)
  {
    k == "_source" || k == "ingested_at" || k == "run_id" || k == "page_no"
  }

  /** The metadata envelope, in the order `run` assigns it. */
  function Envelope(runId: string, ingestedAt: string, pageNo: int): seq<Field>
  {
    [Field("_source", JStr(SourceTag)), Field("ingested_at", JStr(ingestedAt)),
     Field("run_id", JStr(runId)), Field("page_no", JNum(pageNo))]
  }

  /** The envelope is a dict of the four metadata fields. */
  lemma EnvelopeFields(runId: string, ingestedAt: string, pageNo: int)
    ensures var e := Envelope(runId, ingestedAt, pageNo);
      UniqueKeys(e) && (forall k :: k in KeysOf(e) <==> IsEnvelopeKey(k))
      && Get(e, "_source") == Some(JStr(SourceTag)) && Get(e, "ingested_at") == Some(JStr(ingestedAt))
      && Get(e, "run_id") == Some(JStr(runId)) && Get(e, "page_no") == Some(JNum(pageNo))
  {
    var e := Envelope(runId, ingestedAt, pageNo);
    var e1, e2, e3 := e[1..], e[2..], e[3..];
    assert e3[1..] == [] && e2[1..] == e3 && e1[1..] == e2;
    assert KeysOf(e3) == ["page_no"];
    assert KeysOf(e2) == ["run_id", "page_no"];
    assert KeysOf(e1) == ["ingested_at", "run_id", "page_no"];
    assert KeysOf(e) == ["_source", "ingested_at", "run_id", "page_no"];
    assert "_source"[0] == '_' && "ingested_at"[0] == 'i' && "run_id"[0] == 'r' && "page_no"[0] == 'p';
    assert UniqueKeys(e3);
    assert UniqueKeys(e2);
    assert UniqueKeys(e1);
    assert UniqueKeys(e);
    GetAt(e, 0);
    GetAt(e, 1);
    GetAt(e, 2);
    GetAt(e, 3);
  }

  /**
   * The document stored for record `rec`: the record made storage-safe, with
   * `_source`, `ingested_at`, `run_id` and `page_no` assigned on top, one after
   * another.
   */
  function StoredDoc(rec: seq<Field>, runId: string, ingestedAt: string, pageNo: int): (d: Doc)
    ensures UniqueKeys(d)
  {
    SetAll(SanitizeFields(rec), Envelope(runId, ingestedAt, pageNo))
  }

  /**
   * `d` is the document for `rec`: the envelope fields hold the source tag,
   * the clock reading, the run identifier and the page number, and every other
   * field is the record's own, made storage-safe.
   */
  ghost predicate Enveloped(d: Doc, rec: seq<Field>, runId: string, ingestedAt: string, pageNo: int)
  {
    Get(d, "_source") == Some(JStr(SourceTag))
    && Get(d, "ingested_at") == Some(JStr(ingestedAt))
    && Get(d, "run_id") == Some(JStr(runId))
    && Get(d, "page_no") == Some(JNum(pageNo))
    && forall k :: !IsEnvelopeKey(k) ==> Get(d, k) == Get(SanitizeFields(rec), k)
  }

  lemma StoredDocFields(rec: seq<Field>, runId: string, ingestedAt: string, pageNo: int)
    ensures Enveloped(StoredDoc(rec, runId, ingestedAt, pageNo), rec, runId, ingestedAt, pageNo)
  {
    EnvelopeFields(runId, ingestedAt, pageNo);
  }

  /** Every field `$set` leaves in place was already there or is one of the fields set. */
  lemma {:induction false} SetAllFields(d: seq<Field>, upd: seq<Field>)
    ensures forall x :: x in SetAll(d, upd) ==> x in d || x in upd
    decreases |upd|
  {
    if upd != [] {
      var d1 := Insert(d, upd[0].key, upd[0].value);
      InsertFields(d, upd[0].key, upd[0].value);
      SetAllFields(d1, upd[1..]);
      assert forall x :: x in upd[1..] ==> x in upd;
    }
  }

  /** The stored document is in storage-safe form at every depth. */
  lemma StoredDocIsSanitized(rec: seq<Field>, runId: string, ingestedAt: string, pageNo: int)
    ensures IsSanitized(JObj(StoredDoc(rec, runId, ingestedAt, pageNo)))
  {
    var e := Envelope(runId, ingestedAt, pageNo);
    var d := StoredDoc(rec, runId, ingestedAt, pageNo);
    SanitizeFieldsAreSanitized(rec);
    SetAllFields(SanitizeFields(rec), e);
    assert IsSafeKey("_source") && IsSafeKey("ingested_at") && IsSafeKey("run_id") && IsSafeKey("page_no");
    assert forall x :: x in e ==> IsSafeKey(x.key) && IsSanitized(x.value);
    forall i | 0 <= i < |d| ensures IsSafeKey(d[i].key) && IsSanitized(d[i].value) {
      assert d[i] in d;
    }
  }

  /** The records of all pages, in the order the run sees them. */
  function AllRecords(pages: seq<Page>): seq<seq<Field>>
    decreases |pages|
  {
    if pages == [] then []
    else AllRecords(pages[..|pages| - 1]) + pages[|pages| - 1].results
  }

  /** How a record becomes a document, given its position in the run and its page number. */
  type Builder = (seq<Field>, nat, int) -> Doc

  /** `run`'s transformation: the clock is read once per record, at the record's position in the run. */
  function DocBuilder(runId: string, clock: nat -> string): Builder
  {
    (rec: seq<Field>, pos: nat, pageNo: int) => StoredDoc(rec, runId, clock(pos), pageNo)
  }

  /** The documents built from one page's records, `before` records having come earlier in the run. */
  function PageDocs(results: seq<seq<Field>>, build: Builder, pageNo: int, before: nat): (ds: seq<Doc>)
    ensures |ds| == |results|
    decreases |results|
  {
    if results == [] then []
    else
      var n := |results| - 1;
      PageDocs(results[..n], build, pageNo, before) + [build(results[n], before + n, pageNo)]
  }

  /** The documents built over the whole run, page after page; pages are numbered from 1. */
  function RunDocs(pages: seq<Page>, build: Builder): (ds: seq<Doc>)
    ensures |ds| == |AllRecords(pages)|
    decreases |pages|
  {
    if pages == [] then []
    else
      var n := |pages| - 1;
      RunDocs(pages[..n], build) + PageDocs(pages[n].results, build, n + 1, |AllRecords(pages[..n])|)
  }

  /** The collection after upserting a batch of documents one after another. */
  function UpsertAll(docs: seq<Doc>, batch: seq<Doc>, fingerprint: Doc -> int): seq<Doc>
    decreases |batch|
  {
    if batch == [] then docs
    else
      var n := |batch| - 1;
      var before := UpsertAll(docs, batch[..n], fingerprint);
      Upserted(before, PulseFilter(batch[n], fingerprint), batch[n])
  }

  lemma {:induction false} PageDocsAt(results: seq<seq<Field>>, build: Builder, pageNo: int, before: nat, j: nat)
    requires j < |results|
    ensures PageDocs(results, build, pageNo, before)[j] == build(results[j], before + j, pageNo)
    decreases |results|
  {
    var n := |results| - 1;
    if j < n {
      PageDocsAt(results[..n], build, pageNo, before, j);
    }
  }

  /**
   * Record `j` of page `i` is the record at position `|AllRecords(pages[..i])| + j`
   * of the run, and its document is built there with page number `i + 1`.
   */
  lemma {:induction false} RunDocsAt(pages: seq<Page>, build: Builder, i: nat, j: nat)
    requires i < |pages| && j < |pages[i].results|
    ensures |AllRecords(pages[..i])| + j < |AllRecords(pages)|
    ensures AllRecords(pages)[|AllRecords(pages[..i])| + j] == pages[i].results[j]
    ensures RunDocs(pages, build)[|AllRecords(pages[..i])| + j]
            == build(pages[i].results[j], |AllRecords(pages[..i])| + j, i + 1)
    decreases |pages|
  {
    var n := |pages| - 1;
    var prefix := pages[..n];
    if i == n {
      assert pages[..i] == prefix;
      PageDocsAt(pages[n].results, build, n + 1, |AllRecords(prefix)|, j);
    } else {
      RunDocsAt(prefix, build, i, j);
      assert prefix[..i] == pages[..i] && prefix[i] == pages[i];
    }
  }

  lemma DocBuilderApply(runId: string, clock: nat -> string, rec: seq<Field>, pos: nat, pageNo: int)
    ensures DocBuilder(runId, clock)(rec, pos, pageNo) == StoredDoc(rec, runId, clock(pos), pageNo)
  {
  }

  /**
   * The document of record `j` of page `i` is that record stored under the
   * envelope with the page number `i + 1` and the clock reading at the
   * record's position in the run.
   */
  lemma RunDocsEnvelope(pages: seq<Page>, runId: string, clock: nat -> string, i: nat, j: nat)
    requires i < |pages| && j < |pages[i].results|
    ensures |AllRecords(pages[..i])| + j < |RunDocs(pages, DocBuilder(runId, clock))|
    ensures RunDocs(pages, DocBuilder(runId, clock))[|AllRecords(pages[..i])| + j]
            == StoredDoc(pages[i].results[j], runId, clock(|AllRecords(pages[..i])| + j), i + 1)
  {
    var pos := |AllRecords(pages[..i])| + j;
    RunDocsAt(pages, DocBuilder(runId, clock), i, j);
    DocBuilderApply(runId, clock, pages[i].results[j], pos, i + 1);
  }

  /** Every document of one page carries the run's identifier and the source tag. */
  lemma PageDocsShareRun(results: seq<seq<Field>>, runId: string, clock: nat -> string, pageNo: int, before: nat)
    ensures forall k :: 0 <= k < |PageDocs(results, DocBuilder(runId, clock), pageNo, before)| ==>
              Get(PageDocs(results, DocBuilder(runId, clock), pageNo, before)[k], "run_id") == Some(JStr(runId))
              && Get(PageDocs(results, DocBuilder(runId, clock), pageNo, before)[k], "_source") == Some(JStr(SourceTag))
              && Get(PageDocs(results, DocBuilder(runId, clock), pageNo, before)[k], "page_no") == Some(JNum(pageNo))
  {
    var build := DocBuilder(runId, clock);
    var ds := PageDocs(results, build, pageNo, before);
    forall k | 0 <= k < |ds|
      ensures Get(ds[k], "run_id") == Some(JStr(runId)) && Get(ds[k], "_source") == Some(JStr(SourceTag))
              && Get(ds[k], "page_no") == Some(JNum(pageNo))
    {
      PageDocsAt(results, build, pageNo, before, k);
      DocBuilderApply(runId, clock, results[k], before + k, pageNo);
      StoredDocFields(results[k], runId, clock(before + k), pageNo);
    }
  }

  /** All documents of a run share its identifier and the source tag. */
  lemma {:induction false} RunDocsShareRun(pages: seq<Page>, runId: string, clock: nat -> string)
    ensures forall k :: 0 <= k < |RunDocs(pages, DocBuilder(runId, clock))| ==>
              Get(RunDocs(pages, DocBuilder(runId, clock))[k], "run_id") == Some(JStr(runId))
              && Get(RunDocs(pages, DocBuilder(runId, clock))[k], "_source") == Some(JStr(SourceTag))
    decreases |pages|
  {
    if pages != [] {
      var build := DocBuilder(runId, clock);
      var n := |pages| - 1;
      var prefix := pages[..n];
      var early := RunDocs(prefix, build);
      var page := PageDocs(pages[n].results, build, n + 1, |AllRecords(prefix)|);
      var ds := RunDocs(pages, build);
      assert ds == early + page;
      RunDocsShareRun(prefix, runId, clock);
      PageDocsShareRun(pages[n].results, runId, clock, n + 1, |AllRecords(prefix)|);
      forall k | 0 <= k < |ds|
        ensures Get(ds[k], "run_id") == Some(JStr(runId)) && Get(ds[k], "_source") == Some(JStr(SourceTag))
      {
        if k < |early| {
          assert ds[k] == early[k];
        } else {
          assert ds[k] == page[k - |early|];
        }
      }
    }
  }

  /**
   * Two pages of two and one records give three documents, built with page
   * numbers 1, 1 and 2 at run positions 0, 1 and 2.
   */
  lemma PageNumbersExample(pages: seq<Page>, build: Builder)
    requires |pages| == 2 && |pages[0].results| == 2 && |pages[1].results| == 1
    ensures |RunDocs(pages, build)| == 3
    ensures RunDocs(pages, build)[0] == build(pages[0].results[0], 0, 1)
    ensures RunDocs(pages, build)[1] == build(pages[0].results[1], 1, 1)
    ensures RunDocs(pages, build)[2] == build(pages[1].results[0], 2, 2)
  {
    assert pages[..0] == [] && pages[..1][..0] == [] && pages[..1][0] == pages[0] && pages[..2] == pages;
    assert |AllRecords(pages[..1])| == 2;
    RunDocsAt(pages, build, 0, 0);
    RunDocsAt(pages, build, 0, 1);
    RunDocsAt(pages, build, 1, 0);
  }

  /** A record none of whose keys is rewritten to `_hash`. */
  predicate NoHashField(rec: seq<Field>)
  {
    Get(SanitizeFields(rec), "_hash") == None
  }

  /** The documents `run` builds are dicts, and a record without a `_hash` field gives a document without one. */
  lemma DocBuilderEligible(runId: string, clock: nat -> string, rec: seq<Field>, pos: nat, pageNo: int)
    requires NoHashField(rec)
    ensures Storable(DocBuilder(runId, clock)(rec, pos, pageNo))
  {
    StoredDocFields(rec, runId, clock(pos), pageNo);
  }

  lemma PageDocEligible(results: seq<seq<Field>>, runId: string, clock: nat -> string, pageNo: int, before: nat, j: nat)
    requires j < |results| && NoHashField(results[j])
    ensures Storable(PageDocs(results, DocBuilder(runId, clock), pageNo, before)[j])
  {
    PageDocsAt(results, DocBuilder(runId, clock), pageNo, before, j);
    DocBuilderEligible(runId, clock, results[j], before + j, pageNo);
  }

  /** Documents built from records without a `_hash` field are dicts without one. */
  lemma {:induction false} RunDocsEligible(pages: seq<Page>, runId: string, clock: nat -> string)
    requires forall k :: 0 <= k < |AllRecords(pages)| ==> NoHashField(AllRecords(pages)[k])
    ensures forall k :: 0 <= k < |RunDocs(pages, DocBuilder(runId, clock))| ==> Storable(RunDocs(pages, DocBuilder(runId, clock))[k])
    decreases |pages|
  {
    if pages != [] {
      var build := DocBuilder(runId, clock);
      var n := |pages| - 1;
      var prefix := pages[..n];
      var recs := AllRecords(pages);
      var base := |AllRecords(prefix)|;
      assert recs == AllRecords(prefix) + pages[n].results;
      assert forall k :: 0 <= k < base ==> AllRecords(prefix)[k] == recs[k];
      RunDocsEligible(prefix, runId, clock);
      var page := PageDocs(pages[n].results, build, n + 1, base);
      var early := RunDocs(prefix, build);
      var ds := RunDocs(pages, build);
      assert ds == early + page;
      forall k | 0 <= k < |ds| ensures Storable(ds[k]) {
        if k < |early| {
          assert ds[k] == early[k];
          assert Storable(early[k]);
        } else {
          var j := k - |early|;
          assert ds[k] == page[j];
          assert recs[base + j] == pages[n].results[j];
          PageDocEligible(pages[n].results, runId, clock, n + 1, base, j);
        }
      }
    }
  }

  /** Upserting a batch of dicts without `_hash` fields keeps the collection deduplicated. */
  lemma {:induction false} UpsertAllKeepsDeduplicated(docs: seq<Doc>, batch: seq<Doc>, fingerprint: Doc -> int)
    requires Deduplicated(docs)
    requires forall k :: 0 <= k < |batch| ==> Storable(batch[k])
    ensures Deduplicated(UpsertAll(docs, batch, fingerprint))
    decreases |batch|
  {
    if batch != [] {
      var n := |batch| - 1;
      UpsertAllKeepsDeduplicated(docs, batch[..n], fingerprint);
      UpsertKeepsDeduplicated(UpsertAll(docs, batch[..n], fingerprint), batch[n], fingerprint);
    }
  }

  /** Each upsert adds at most one document, so a batch adds at most its size. */
  lemma {:induction false} UpsertAllSize(docs: seq<Doc>, batch: seq<Doc>, fingerprint: Doc -> int)
    ensures |docs| <= |UpsertAll(docs, batch, fingerprint)| <= |docs| + |batch|
    decreases |batch|
  {
    if batch != [] {
      UpsertAllSize(docs, batch[..|batch| - 1], fingerprint);
    }
  }

  /**
   * A run over records without `_hash` fields, into a deduplicated collection,
   * leaves it deduplicated: re-ingesting a pulse with the same `id` and
   * `revision` updates the stored document instead of adding one.
   */
  lemma RunKeepsDeduplicated(docs: seq<Doc>, pages: seq<Page>, runId: string, clock: nat -> string, fingerprint: Doc -> int)
    requires Deduplicated(docs)
    requires forall k :: 0 <= k < |AllRecords(pages)| ==> NoHashField(AllRecords(pages)[k])
    ensures Deduplicated(UpsertAll(docs, RunDocs(pages, DocBuilder(runId, clock)), fingerprint))
  {
    RunDocsEligible(pages, runId, clock);
    UpsertAllKeepsDeduplicated(docs, RunDocs(pages, DocBuilder(runId, clock)), fingerprint);
  }

  lemma TrackAllSnoc(seed: Option<string>, recs: seq<seq<Field>>, r: seq<Field>)
    ensures TrackAll(seed, recs + [r]) == Advance(TrackAll(seed, recs), RecordStamp(r))
  {
    assert (recs + [r])[..|recs|] == recs;
  }

  lemma UpsertAllSnoc(docs: seq<Doc>, batch: seq<Doc>, x: Doc, fingerprint: Doc -> int)
    ensures UpsertAll(docs, batch + [x], fingerprint)
            == Upserted(UpsertAll(docs, batch, fingerprint), PulseFilter(x, fingerprint), x)
  {
    assert (batch + [x])[..|batch|] == batch;
  }

  /** The inner loop of `run`: one more record moves the watermark by its stamp. */
  lemma WatermarkStep(seed: Option<string>, prior: seq<seq<Field>>, results: seq<seq<Field>>, j: nat)
    requires j < |results|
    ensures TrackAll(seed, prior + results[..j + 1]) == Advance(TrackAll(seed, prior + results[..j]), RecordStamp(results[j]))
  {
    assert prior + results[..j + 1] == (prior + results[..j]) + [results[j]];
    TrackAllSnoc(seed, prior + results[..j], results[j]);
  }

  /** The inner loop of `run`: one more record upserts its document. */
  lemma StoreStep(start: seq<Doc>, done: seq<Doc>, results: seq<seq<Field>>, j: nat, build: Builder,
                  pageNo: int, before: nat, fingerprint: Doc -> int)
    requires j < |results|
    ensures var x := build(results[j], before + j, pageNo);
      UpsertAll(start, done + PageDocs(results[..j + 1], build, pageNo, before), fingerprint)
      == Upserted(UpsertAll(start, done + PageDocs(results[..j], build, pageNo, before), fingerprint), PulseFilter(x, fingerprint), x)
  {
    var x := build(results[j], before + j, pageNo);
    assert results[..j + 1][..j] == results[..j];
    var sofar := done + PageDocs(results[..j], build, pageNo, before);
    assert done + PageDocs(results[..j + 1], build, pageNo, before) == sofar + [x];
    UpsertAllSnoc(start, sofar, x, fingerprint);
  }

  /** The outer loop of `run`: one more page appends its records and documents. */
  lemma PageStep(pages: seq<Page>, i: nat, build: Builder)
    requires i < |pages|
    ensures AllRecords(pages[..i + 1]) == AllRecords(pages[..i]) + pages[i].results
    ensures RunDocs(pages[..i + 1], build)
            == RunDocs(pages[..i], build) + PageDocs(pages[i].results, build, i + 1, |AllRecords(pages[..i])|)
  {
    assert pages[..i + 1][..i] == pages[..i];
    assert pages[..i + 1][i] == pages[i];
  }

  /**
   * The inner loop of `run` over one page's `results`: each record is turned
   * into its document, moves the watermark and, unless `store` is null (a dry
   * run), is upserted. `before` records came earlier in the run, `prior` are
   * their records and `done` their documents.
   */
  method IngestPage(results: seq<seq<Field>>, build: Builder, pageNo: int, before: nat, fingerprint: Doc -> int,
                    latest0: Option<string>, store: Collection?,
                    ghost seed: Option<string>, ghost prior: seq<seq<Field>>, ghost start: seq<Doc>, ghost done: seq<Doc>)
    returns (latest: Option<string>)
    requires latest0 == TrackAll(seed, prior)
    requires store != null ==> store.docs == UpsertAll(start, done, fingerprint)
    modifies store
    ensures latest == TrackAll(seed, prior + results)
    ensures store != null ==> store.docs == UpsertAll(start, done + PageDocs(results, build, pageNo, before), fingerprint)
  {
    latest := latest0;
    var j := 0;
    assert prior + results[..j] == prior && done + PageDocs(results[..j], build, pageNo, before) == done;
    while j < |results|
      invariant 0 <= j <= |results|
      invariant latest == TrackAll(seed, prior + results[..j])
      invariant store != null ==>
        store.docs == UpsertAll(start, done + PageDocs(results[..j], build, pageNo, before), fingerprint)
    {
      var p := results[j];
      var doc := build(p, before + j, pageNo);
      WatermarkStep(seed, prior, results, j);
      latest := Advance(latest, RecordStamp(p));
      if store != null {
        StoreStep(start, done, results, j, build, pageNo, before, fingerprint);
        store.UpsertPulse(doc, fingerprint);
      }
      j := j + 1;
    }
    assert results[..j] == results;
  }

  /**
   * The loop of `run` over the fetched pages, numbering them from 1. Returns
   * the number of records handled and the final watermark; the store, unless
   * null, holds every document upserted in order.
   */
  method IngestPages(pages: seq<Page>, runId: string, clock: nat -> string, fingerprint: Doc -> int,
                     seed: Option<string>, store: Collection?)
    returns (ingested: nat, latest: Option<string>)
    modifies store
    ensures ingested == |AllRecords(pages)|
    ensures latest == TrackAll(seed, AllRecords(pages))
    ensures store != null ==> store.docs == UpsertAll(old(store.docs), RunDocs(pages, DocBuilder(runId, clock)), fingerprint)
  {
    var build := DocBuilder(runId, clock);
    ghost var start := if store != null then store.docs else [];
    ingested, latest := 0, seed;
    var pageNo := 0;
    var i := 0;
    while i < |pages|
      invariant 0 <= i <= |pages| && pageNo == i
      invariant ingested == |AllRecords(pages[..i])|
      invariant latest == TrackAll(seed, AllRecords(pages[..i]))
      invariant store != null ==> store.docs == UpsertAll(start, RunDocs(pages[..i], build), fingerprint)
    {
      pageNo := pageNo + 1;
      var results := pages[i].results;
      latest := IngestPage(results, build, pageNo, ingested, fingerprint, latest, store,
                           seed, AllRecords(pages[..i]), start, RunDocs(pages[..i], build));
      ingested := ingested + |results|;
      PageStep(pages, i, build);
      i := i + 1;
    }
    assert pages[..i] == pages;
  }

  /** How a run ends. */
  datatype RunOutcome =
    | MissingApiKey
    | AuthFailed(status: int)
    | FetchFailed(status: int, ingested: nat)
    | Completed(ingested: nat, saved: Option<string>)

  /**
   * `run`: resolve the resume point, validate the API key, then read the whole
   * listing, loading each record. A fetch error ends the run after the pages
   * before it were loaded, and without persisting a watermark; a completed run
   * persists the final watermark when there is one. `server` answers every
   * request; `clock` is read once per record; `store` is null on a dry run and
   * otherwise holds what earlier runs stored. The chain of `next` links need
   * only end when the listing is read at all.
   */
  method Run(server: Request -> Response, apiKey: string, since: Option<string>, noWatermark: bool,
             fromFile: Option<string>, defaultSince: string, pageLimit: int, runId: string,
             clock: nat -> string, fingerprint: Doc -> int, store: Collection?)
    returns (outcome: RunOutcome, ghost pages: seq<Page>)
    requires apiKey != "" && server(Request(UserMeUrl, None)).status == StatusOk ==>
               exists chain :: Stops(server, FirstParams(pageLimit, ResolveResume(since, noWatermark, fromFile, defaultSince)), chain)
    modifies store
    ensures apiKey == "" <==> outcome == MissingApiKey
    ensures apiKey != "" && server(Request(UserMeUrl, None)).status != StatusOk
            <==> outcome == AuthFailed(server(Request(UserMeUrl, None)).status)
    ensures (outcome.MissingApiKey? || outcome.AuthFailed?) && store != null ==> store.docs == old(store.docs)
    ensures outcome.FetchFailed? || outcome.Completed? ==>
              Stops(server, FirstParams(pageLimit, ResolveResume(since, noWatermark, fromFile, defaultSince)), pages)
              && outcome.ingested == |AllRecords(pages)|
              && (store != null ==> store.docs == UpsertAll(old(store.docs), RunDocs(pages, DocBuilder(runId, clock)), fingerprint))
    ensures outcome.FetchFailed? ==>
              !Finished(pages) && outcome.status != StatusOk
              && outcome.status == server(RequestAt(FirstParams(pageLimit, ResolveResume(since, noWatermark, fromFile, defaultSince)), pages, |pages|)).status
    ensures outcome.Completed? ==>
              Finished(pages)
              && outcome.saved == WatermarkToSave(TrackAll(ResolveResume(since, noWatermark, fromFile, defaultSince), AllRecords(pages)))
  {
    pages := [];
    if apiKey == "" {
      return MissingApiKey, pages;
    }
    var modifiedSince := ResolveResume(since, noWatermark, fromFile, defaultSince);
    var me := server(Request(UserMeUrl, None));
    if me.status != StatusOk {
      return AuthFailed(me.status), pages;
    }
    var fetched, requests, failure := FetchPulses(server, pageLimit, modifiedSince);
    pages := fetched;
    var ingested, latest := IngestPages(fetched, runId, clock, fingerprint, modifiedSince, store);
    if failure.Some? {
      outcome := FetchFailed(failure.value, ingested);
    } else {
      outcome := Completed(ingested, WatermarkToSave(latest));
    }
  }
}
