/**
 * The document collection the connector loads into, and `upsert_pulse`. A
 * filter is a list of equality conditions; `update_one(filter, {"$set": doc},
 * upsert=True)` sets the fields of `doc` on the first matching document, or
 * inserts the filter's fields with `doc` set on top when nothing matches.
 */
module Store {
  import opened JsonValue

  type Doc = seq<Field>

  /** `d.get(k)` in a context where a missing key and an explicit null look the same. */
  function Lookup(d: Doc, k: string): (r: Json)
    ensures r != JNull ==> Get(d, k) == Some(r)
    ensures Get(d, k).Some? ==> r == Get(d, k).value
  {
    match Get(d, k)
    case Some(v) => v
    case None => JNull
  }

  /** Equality conditions on top-level fields: a null condition also matches a document without the field. */
  predicate Matches(d: Doc, filter: seq<Field>)
  {
    forall i :: 0 <= i < |filter| ==> Lookup(d, filter[i].key) == filter[i].value
  }

  /** The position of the first document, in collection order, that the filter matches. */
  function FirstMatch(docs: seq<Doc>, filter: seq<Field>): (r: Option<nat>)
    ensures r.Some? ==> r.value < |docs| && Matches(docs[r.value], filter)
    ensures r.Some? ==> forall j :: 0 <= j < r.value ==> !Matches(docs[j], filter)
    ensures r.None? <==> forall j :: 0 <= j < |docs| ==> !Matches(docs[j], filter)
  {
    if docs == [] then None
    else if Matches(docs[0], filter) then Some(0)
    else
      match FirstMatch(docs[1..], filter)
      case None => None
      case Some(i) => Some(i + 1)
  }

  /**
   * The collection after `update_one(filter, {"$set": upd}, upsert=True)`: only
   * the first matching document changes; with no match exactly one document is
   * appended, built from the filter's conditions with `upd` applied on top.
   */
  function Upserted(docs: seq<Doc>, filter: seq<Field>, upd: Doc): (r: seq<Doc>)
    ensures |r| == |docs| + (if FirstMatch(docs, filter).None? then 1 else 0)
    ensures forall i :: 0 <= i < |docs| && FirstMatch(docs, filter) != Some(i) ==> r[i] == docs[i]
    ensures FirstMatch(docs, filter).Some? ==>
              r[FirstMatch(docs, filter).value] == SetAll(docs[FirstMatch(docs, filter).value], upd)
    ensures FirstMatch(docs, filter).None? ==> r[|docs|] == SetAll(filter, upd)
  {
    match FirstMatch(docs, filter)
    case Some(i) => docs[i := SetAll(docs[i], upd)]
    case None => docs + [SetAll(filter, upd)]
  }

  /** The natural key `upsert_pulse` deduplicates by. */
  datatype NaturalKey = ById(id: Json, revision: Json) | ByHash(hash: int)

  /**
   * The pair `(id, revision)` when the document has a non-null `id`, and
   * otherwise the fingerprint of the whole document, computed by `fingerprint`
   * (the hash of its sorted-key JSON text).
   */
  function KeyFor(doc: Doc, fingerprint: Doc -> int): (k: NaturalKey)
    ensures k.ById? <==> Lookup(doc, "id") != JNull
    ensures k.ById? ==> k == ById(Lookup(doc, "id"), Lookup(doc, "revision"))
    ensures k.ByHash? ==> k.hash == fingerprint(doc)
  {
    if Lookup(doc, "id") != JNull then ById(Lookup(doc, "id"), Lookup(doc, "revision"))
    else ByHash(fingerprint(doc))
  }

  function IdOf(d: Doc): Json
  {
    Lookup(d, "id")
  }

  /** The `(id, revision)` pair of a stored document. */
  function Identity(d: Doc): (Json, Json)
  {
    (IdOf(d), Lookup(d, "revision"))
  }

  /** The filter document of a natural key. */
  function KeyFilter(k: NaturalKey): (f: seq<Field>)
    ensures UniqueKeys(f)
  {
    match k
    case ById(id, revision) =>
      var f := [Field("id", id), Field("revision", revision)];
      assert f[1..] == [Field("revision", revision)] && f[1..][1..] == [];
      assert KeysOf(f[1..]) == ["revision"] && UniqueKeys(f[1..]);
      assert f[0].key !in KeysOf(f[1..]);
      f
    case ByHash(h) => [Field("_hash", JNum(h))]
  }

  /** What it takes for a document to carry a natural key. */
  predicate KeyMatches(d: Doc, k: NaturalKey)
  {
    match k
    case ById(id, revision) => Identity(d) == (id, revision)
    case ByHash(h) => Lookup(d, "_hash") == JNum(h)
  }

  /** The filter of a key matches exactly the documents that carry the key. */
  lemma KeyFilterMatches(d: Doc, k: NaturalKey)
    ensures Matches(d, KeyFilter(k)) <==> KeyMatches(d, k)
  {
    var f := KeyFilter(k);
    match k
    case ById(id, revision) =>
      assert f[0] == Field("id", id) && f[1] == Field("revision", revision) && |f| == 2;
    case ByHash(h) =>
      assert f[0] == Field("_hash", JNum(h)) && |f| == 1;
  }

  /** The filter `upsert_pulse` sends for `doc`. */
  function PulseFilter(doc: Doc, fingerprint: Doc -> int): seq<Field>
  {
    KeyFilter(KeyFor(doc, fingerprint))
  }

  /** A lookup after `$set` sees the set value for the fields set, and the old one elsewhere. */
  lemma LookupSetAll(d: Doc, upd: Doc, k: string)
    requires UniqueKeys(upd)
    ensures Lookup(SetAll(d, upd), k) == if k in KeysOf(upd) then Lookup(upd, k) else Lookup(d, k)
  {
  }

  /**
   * A document carrying `doc`'s natural key still carries it once `doc` is set
   * on it, as long as `doc` has no field `_hash` to overwrite the fingerprint.
   * The `(id, revision)` pair is kept, and a document keyed by fingerprint keeps
   * a null `id`.
   */
  lemma KeyStaysMatched(d: Doc, doc: Doc, fingerprint: Doc -> int)
    requires Storable(doc)
    requires KeyMatches(d, KeyFor(doc, fingerprint))
    ensures KeyMatches(SetAll(d, doc), KeyFor(doc, fingerprint))
    ensures KeyFor(doc, fingerprint).ById? ==> Identity(SetAll(d, doc)) == Identity(d)
    ensures IdOf(d) == JNull ==> IdOf(SetAll(d, doc)) == JNull
    ensures Lookup(SetAll(d, doc), "_hash") == Lookup(d, "_hash")
  {
    LookupSetAll(d, doc, "id");
    LookupSetAll(d, doc, "revision");
    LookupSetAll(d, doc, "_hash");
  }

  /** A filter, as a document, carries its own key. */
  lemma FilterCarriesKey(k: NaturalKey)
    ensures KeyMatches(KeyFilter(k), k)
    ensures k.ById? ==> Lookup(KeyFilter(k), "_hash") == JNull
    ensures k.ByHash? ==> IdOf(KeyFilter(k)) == JNull
  {
    var f := KeyFilter(k);
    match k
    case ById(id, revision) =>
      assert Get(f, "id") == Some(id);
      assert Get(f, "revision") == Some(revision);
      assert Get(f, "_hash") == None;
    case ByHash(h) =>
      assert Get(f, "_hash") == Some(JNum(h));
      assert Get(f, "id") == None;
  }

  /** The document an upsert inserts is a dict carrying the key it was inserted under. */
  lemma InsertedCarriesKey(doc: Doc, fingerprint: Doc -> int)
    requires Storable(doc)
    ensures var n := SetAll(PulseFilter(doc, fingerprint), doc);
      UniqueKeys(n) && KeyMatches(n, KeyFor(doc, fingerprint))
      && (Lookup(n, "_hash") != JNull ==> IdOf(n) == JNull)
  {
    var k := KeyFor(doc, fingerprint);
    FilterCarriesKey(k);
    KeyStaysMatched(KeyFilter(k), doc, fingerprint);
  }

  /** A match at `i` with none before it is the first match. */
  lemma FirstMatchAt(docs: seq<Doc>, filter: seq<Field>, i: nat)
    requires i < |docs| && Matches(docs[i], filter)
    requires forall j :: 0 <= j < i ==> !Matches(docs[j], filter)
    ensures FirstMatch(docs, filter) == Some(i)
  {
  }

  /**
   * After `upsert_pulse(doc)`, exactly one document more or the same number is
   * stored, and some stored document carries `doc`'s natural key and holds
   * every field of `doc` with its value.
   */
  lemma UpsertStoresDoc(docs: seq<Doc>, doc: Doc, fingerprint: Doc -> int)
    requires Storable(doc)
    ensures var r := Upserted(docs, PulseFilter(doc, fingerprint), doc);
      |docs| <= |r| <= |docs| + 1 &&
      exists i :: 0 <= i < |r| && KeyMatches(r[i], KeyFor(doc, fingerprint))
        && forall k :: k in KeysOf(doc) ==> Get(r[i], k) == Get(doc, k)
  {
    var key := KeyFor(doc, fingerprint);
    var f := KeyFilter(key);
    var r := Upserted(docs, f, doc);
    match FirstMatch(docs, f)
    case Some(m) =>
      KeyFilterMatches(docs[m], key);
      KeyStaysMatched(docs[m], doc, fingerprint);
      assert KeyMatches(r[m], key);
    case None =>
      InsertedCarriesKey(doc, fingerprint);
      assert KeyMatches(r[|docs|], key);
  }

  /** A dict without a field `_hash` that could overwrite a stored fingerprint. */
  predicate Storable(doc: Doc)
  {
    UniqueKeys(doc) && Get(doc, "_hash") == None
  }

  /** Every stored document is a dict. */
  predicate Dicts(docs: seq<Doc>)
  {
    forall i :: 0 <= i < |docs| ==> UniqueKeys(docs[i])
  }

  /** A document that carries a fingerprint has a null `id`. */
  predicate FingerprintRule(d: Doc)
  {
    Lookup(d, "_hash") != JNull ==> IdOf(d) == JNull
  }

  /** No two stored documents share an `(id, revision)` pair with a non-null `id`. */
  predicate IdentitiesDistinct(docs: seq<Doc>)
  {
    forall i, j :: 0 <= i < j < |docs| && IdOf(docs[i]) != JNull ==> Identity(docs[i]) != Identity(docs[j])
  }

  /** No two stored documents carry the same non-null `_hash`. */
  predicate HashesDistinct(docs: seq<Doc>)
  {
    forall i, j :: 0 <= i < j < |docs| && Lookup(docs[i], "_hash") != JNull ==>
      Lookup(docs[i], "_hash") != Lookup(docs[j], "_hash")
  }

  /**
   * The collection holds each `(id, revision)` with a non-null `id` at most
   * once and each fingerprint at most once, and a document that carries a
   * fingerprint has no `id`.
   */
  predicate Deduplicated(docs: seq<Doc>)
  {
    Dicts(docs) && (forall i :: 0 <= i < |docs| ==> FingerprintRule(docs[i]))
    && IdentitiesDistinct(docs) && HashesDistinct(docs)
  }

  /** Replacing one document by one with the same `(id, revision)`, or with a null `id`, keeps the pairs distinct. */
  lemma ReplaceKeepsDistinct(docs: seq<Doc>, m: nat, u: Doc)
    requires IdentitiesDistinct(docs) && m < |docs|
    requires Identity(u) == Identity(docs[m]) || (IdOf(u) == JNull && IdOf(docs[m]) == JNull)
    ensures IdentitiesDistinct(docs[m := u])
  {
    var r := docs[m := u];
    forall i, j | 0 <= i < j < |r| && IdOf(r[i]) != JNull
      ensures Identity(r[i]) != Identity(r[j])
    {
      if i != m && j != m {
        assert r[i] == docs[i] && r[j] == docs[j];
      } else if i == m {
        assert r[j] == docs[j];
      } else {
        assert r[i] == docs[i];
      }
    }
  }

  /** Appending a document whose `(id, revision)` no stored document has, or with a null `id`, keeps the pairs distinct. */
  lemma AppendKeepsDistinct(docs: seq<Doc>, n: Doc)
    requires IdentitiesDistinct(docs)
    requires IdOf(n) == JNull || forall i :: 0 <= i < |docs| ==> Identity(docs[i]) != Identity(n)
    ensures IdentitiesDistinct(docs + [n])
  {
    var r := docs + [n];
    forall i, j | 0 <= i < j < |r| && IdOf(r[i]) != JNull
      ensures Identity(r[i]) != Identity(r[j])
    {
      assert r[i] == docs[i];
      if j < |docs| {
        assert r[j] == docs[j];
      }
    }
  }

  /** Replacing one document by one with the same `_hash` keeps the fingerprints distinct. */
  lemma ReplaceKeepsHashes(docs: seq<Doc>, m: nat, u: Doc)
    requires HashesDistinct(docs) && m < |docs|
    requires Lookup(u, "_hash") == Lookup(docs[m], "_hash")
    ensures HashesDistinct(docs[m := u])
  {
    var r := docs[m := u];
    forall i, j | 0 <= i < j < |r| && Lookup(r[i], "_hash") != JNull
      ensures Lookup(r[i], "_hash") != Lookup(r[j], "_hash")
    {
      assert Lookup(r[i], "_hash") == Lookup(docs[i], "_hash");
      assert Lookup(r[j], "_hash") == Lookup(docs[j], "_hash");
    }
  }

  /** Appending a document with a fingerprint no stored document has, or with none, keeps the fingerprints distinct. */
  lemma AppendKeepsHashes(docs: seq<Doc>, n: Doc)
    requires HashesDistinct(docs)
    requires Lookup(n, "_hash") == JNull || forall i :: 0 <= i < |docs| ==> Lookup(docs[i], "_hash") != Lookup(n, "_hash")
    ensures HashesDistinct(docs + [n])
  {
    var r := docs + [n];
    forall i, j | 0 <= i < j < |r| && Lookup(r[i], "_hash") != JNull
      ensures Lookup(r[i], "_hash") != Lookup(r[j], "_hash")
    {
      assert r[i] == docs[i];
      if j < |docs| {
        assert r[j] == docs[j];
      }
    }
  }

  /** `upsert_pulse` keeps the collection deduplicated. */
  lemma UpsertKeepsDeduplicated(docs: seq<Doc>, doc: Doc, fingerprint: Doc -> int)
    requires Deduplicated(docs)
    requires Storable(doc)
    ensures Deduplicated(Upserted(docs, PulseFilter(doc, fingerprint), doc))
  {
    var key := KeyFor(doc, fingerprint);
    var f := KeyFilter(key);
    var r := Upserted(docs, f, doc);
    match FirstMatch(docs, f)
    case Some(m) =>
      KeyFilterMatches(docs[m], key);
      KeyStaysMatched(docs[m], doc, fingerprint);
      assert FingerprintRule(docs[m]);
      ReplaceKeepsDistinct(docs, m, r[m]);
      ReplaceKeepsHashes(docs, m, r[m]);
      assert r == docs[m := r[m]];
    case None =>
      InsertedCarriesKey(doc, fingerprint);
      var n := SetAll(f, doc);
      assert r == docs + [n];
      forall i | 0 <= i < |docs| && IdOf(n) != JNull
        ensures Identity(docs[i]) != Identity(n)
      {
        KeyFilterMatches(docs[i], key);
      }
      AppendKeepsDistinct(docs, n);
      FilterCarriesKey(key);
      KeyStaysMatched(f, doc, fingerprint);
      forall i | 0 <= i < |docs| && Lookup(n, "_hash") != JNull
        ensures Lookup(docs[i], "_hash") != Lookup(n, "_hash")
      {
        KeyFilterMatches(docs[i], key);
      }
      AppendKeepsHashes(docs, n);
  }

  /** Upserting the same document twice leaves the collection as upserting it once. */
  lemma UpsertIdempotent(docs: seq<Doc>, doc: Doc, fingerprint: Doc -> int)
    requires Dicts(docs)
    requires Storable(doc)
    ensures var once := Upserted(docs, PulseFilter(doc, fingerprint), doc);
      Upserted(once, PulseFilter(doc, fingerprint), doc) == once
  {
    var f := PulseFilter(doc, fingerprint);
    var once := Upserted(docs, f, doc);
    match FirstMatch(docs, f)
    case Some(m) =>
      SecondUpdateSame(docs, doc, fingerprint, m);
    case None =>
      SecondInsertUpdatesSame(docs, doc, fingerprint);
  }

  /** With no match among `docs`, an appended matching document is the first match. */
  lemma AppendedIsFirstMatch(docs: seq<Doc>, filter: seq<Field>, n: Doc)
    requires FirstMatch(docs, filter) == None && Matches(n, filter)
    ensures FirstMatch(docs + [n], filter) == Some(|docs|)
  {
    FirstMatchAt(docs + [n], filter, |docs|);
  }

  /** The document updated by the first upsert is the one the second finds, and it needs no change. */
  lemma SecondUpdateSame(docs: seq<Doc>, doc: Doc, fingerprint: Doc -> int, m: nat)
    requires Dicts(docs)
    requires Storable(doc)
    requires FirstMatch(docs, PulseFilter(doc, fingerprint)) == Some(m)
    ensures var once := Upserted(docs, PulseFilter(doc, fingerprint), doc);
      Upserted(once, PulseFilter(doc, fingerprint), doc) == once
  {
    var key := KeyFor(doc, fingerprint);
    var f := KeyFilter(key);
    var once := Upserted(docs, f, doc);
    KeyFilterMatches(docs[m], key);
    KeyStaysMatched(docs[m], doc, fingerprint);
    KeyFilterMatches(once[m], key);
    FirstMatchAt(once, f, m);
    SetAllIdempotent(docs[m], doc);
    assert once[m := once[m]] == once;
  }

  /** The document inserted by the first upsert is the one the second finds, and it needs no change. */
  lemma SecondInsertUpdatesSame(docs: seq<Doc>, doc: Doc, fingerprint: Doc -> int)
    requires Storable(doc)
    requires FirstMatch(docs, PulseFilter(doc, fingerprint)) == None
    ensures var once := Upserted(docs, PulseFilter(doc, fingerprint), doc);
      Upserted(once, PulseFilter(doc, fingerprint), doc) == once
  {
    var key := KeyFor(doc, fingerprint);
    var f := KeyFilter(key);
    var n := SetAll(f, doc);
    InsertedCarriesKey(doc, fingerprint);
    KeyFilterMatches(n, key);
    AppendedIsFirstMatch(docs, f, n);
    SetAllIdempotent(f, doc);
    assert Upserted(docs, f, doc) == docs + [n];
    assert (docs + [n])[|docs| := n] == docs + [n];
  }

  /** The target collection. Index creation does not change what is stored. */
  class Collection {
    var docs: seq<Doc>

    /** `client[db][coll]`: the collection as earlier runs left it. */
    constructor (existing: seq<Doc>)
      ensures docs == existing
    {
      docs := existing;
    }

    /** `update_one(filter, {"$set": upd}, upsert=True)`. */
    method UpdateOneUpsert(filter: seq<Field>, upd: Doc)
      modifies this
      ensures docs == Upserted(old(docs), filter, upd)
    {
      docs := Upserted(docs, filter, upd);
    }

    /** `upsert_pulse`: upsert `doc` by its natural key. */
    method UpsertPulse(doc: Doc, fingerprint: Doc -> int)
      modifies this
      ensures docs == Upserted(old(docs), PulseFilter(doc, fingerprint), doc)
      ensures old(Deduplicated(docs)) && Storable(doc) ==> Deduplicated(docs)
    {
      var key := KeyFor(doc, fingerprint);
      if old(Deduplicated(docs)) && Storable(doc) {
        UpsertKeepsDeduplicated(docs, doc, fingerprint);
      }
      UpdateOneUpsert(KeyFilter(key), doc);
    }
  }
}
