/**
 * The storage-safe rewrite of decoded records: `safe_key` and
 * `make_mongo_safe`. The document store reads `.` in a field name as a path
 * separator and a leading `$` as an operator, so every object key at every
 * depth has its dots turned into underscores and its leading dollars removed.
 */
module Sanitizer {
  import opened JsonValue

  /** `key.replace('.', '_')`. */
  function ReplaceDots(k: string): (r: string)
    ensures |r| == |k| && '.' !in r
    ensures forall i :: 0 <= i < |k| && k[i] != '.' ==> r[i] == k[i]
    ensures forall i :: 0 <= i < |k| && k[i] == '.' ==> r[i] == '_'
  {
    if k == [] then [] else [if k[0] == '.' then '_' else k[0]] + ReplaceDots(k[1..])
  }

  /** `key.lstrip('$')`: what is left once every leading `$` is removed. */
  function StripDollars(k: string): (r: string)
    ensures |r| <= |k| && r == k[|k| - |r|..]
    ensures forall i :: 0 <= i < |k| - |r| ==> k[i] == '$'
    ensures r == [] || r[0] != '$'
  {
    if k != [] && k[0] == '$' then StripDollars(k[1..]) else k
  }

  /** A key the store accepts as a plain top-level field name. */
  predicate IsSafeKey(k: string)
  {
    '.' !in k && (k == [] || k[0] != '$')
  }

  /** `safe_key`: the result is always safe, and a key that is already safe is left alone. */
  function SafeKey(k: string): (r: string)
    ensures IsSafeKey(r)
    ensures IsSafeKey(k) ==> r == k
  {
    var d := ReplaceDots(k);
    assert '.' !in k ==> d == k;
    var r := StripDollars(d);
    assert '.' !in r by {
      forall i | 0 <= i < |r| ensures r[i] != '.' {
        assert r[i] == d[|d| - |r| + i];
      }
    }
    r
  }

  /** Rewriting a key twice is the same as rewriting it once. */
  lemma SafeKeyIdempotent(k: string)
    ensures SafeKey(SafeKey(k)) == SafeKey(k)
  {
  }

  /** `make_mongo_safe`: objects get their keys rewritten, lists are mapped, scalars are kept. */
  function Sanitize(j: Json): (r: Json)
    ensures !j.JArr? && !j.JObj? ==> r == j
    ensures j.JArr? ==> r.JArr?
    ensures j.JObj? ==> r.JObj?
    decreases j, 0
  {
    match j
    case JArr(items) => JArr(SanitizeList(items))
    case JObj(fields) => JObj(SanitizeFields(fields))
    case _ => j
  }

  /** `[make_mongo_safe(i) for i in obj]`: same length, element by element. */
  function SanitizeList(items: seq<Json>): (r: seq<Json>)
    ensures |r| == |items|
    ensures forall i :: 0 <= i < |items| ==> r[i] == Sanitize(items[i])
    decreases items, 1
  {
    if items == [] then [] else [Sanitize(items[0])] + SanitizeList(items[1..])
  }

  /** The pairs `(safe_key(k), make_mongo_safe(v))` of `obj.items()`, in order. */
  function SanitizePairs(fs: seq<Field>): (r: seq<Field>)
    ensures |r| == |fs|
    ensures forall i :: 0 <= i < |fs| ==> r[i] == Field(SafeKey(fs[i].key), Sanitize(fs[i].value))
    decreases fs, 1
  {
    if fs == [] then [] else [Field(SafeKey(fs[0].key), Sanitize(fs[0].value))] + SanitizePairs(fs[1..])
  }

  /**
   * `{safe_key(k): make_mongo_safe(v) for k, v in obj.items()}`: the pairs are
   * assigned in order into a fresh dict, so the result is a dict again.
   */
  function SanitizeFields(fs: seq<Field>): (r: seq<Field>)
    ensures UniqueKeys(r)
    decreases fs, 2
  {
    DictOfIsDict(SanitizePairs(fs));
    DictOf(SanitizePairs(fs))
  }

  /** No later field of `fs` rewrites to the same key as field `i`. */
  predicate LastWith(fs: seq<Field>, i: nat)
    requires i < |fs|
  {
    forall j :: i < j < |fs| ==> SafeKey(fs[j].key) != SafeKey(fs[i].key)
  }

  /** Every input key, rewritten, is a key of the output. */
  lemma SanitizeFieldsCoversKeys(fs: seq<Field>)
    ensures forall i :: 0 <= i < |fs| ==> SafeKey(fs[i].key) in KeysOf(SanitizeFields(fs))
  {
    var ps := SanitizePairs(fs);
    DictOfCoversKeys(ps);
    forall i | 0 <= i < |fs| ensures SafeKey(fs[i].key) in KeysOf(SanitizeFields(fs)) {
      assert ps[i].key == SafeKey(fs[i].key);
    }
  }

  /** Every output key is the rewriting of some input key. */
  lemma SanitizeFieldsKeysFromInput(fs: seq<Field>)
    ensures forall k :: k in KeysOf(SanitizeFields(fs)) ==> exists i :: 0 <= i < |fs| && SafeKey(fs[i].key) == k
  {
    var ps := SanitizePairs(fs);
    DictOfKeysFromPairs(ps);
    forall k | k in KeysOf(SanitizeFields(fs)) ensures exists i :: 0 <= i < |fs| && SafeKey(fs[i].key) == k {
      var i :| 0 <= i < |ps| && ps[i].key == k;
      assert SafeKey(fs[i].key) == k;
    }
  }

  /**
   * When several input keys rewrite to the same key, the output holds the
   * rewritten value of the last of them: the later assignment wins.
   */
  lemma SanitizeFieldsLastWins(fs: seq<Field>)
    ensures forall i :: 0 <= i < |fs| && LastWith(fs, i) ==>
              Get(SanitizeFields(fs), SafeKey(fs[i].key)) == Some(Sanitize(fs[i].value))
  {
    var ps := SanitizePairs(fs);
    DictOfLastWins(ps);
    forall i | 0 <= i < |fs| && LastWith(fs, i)
      ensures Get(SanitizeFields(fs), SafeKey(fs[i].key)) == Some(Sanitize(fs[i].value))
    {
      assert LastKey(ps, i) by {
        forall j | i < j < |ps| ensures ps[j].key != ps[i].key {
          assert ps[j].key == SafeKey(fs[j].key);
        }
      }
    }
  }

  /** The keys of a prefix of the input come first in the output, in the same order. */
  lemma SanitizeFieldsKeepsFirstOrder(fs: seq<Field>, m: nat)
    requires m <= |fs|
    ensures KeysOf(SanitizeFields(fs[..m])) <= KeysOf(SanitizeFields(fs))
  {
    SanitizePairsPrefix(fs, m);
    DictOfKeepsFirstOrder(SanitizePairs(fs), m);
  }

  lemma SanitizePairsPrefix(fs: seq<Field>, m: nat)
    requires m <= |fs|
    ensures SanitizePairs(fs[..m]) == SanitizePairs(fs)[..m]
  {
    var ps := SanitizePairs(fs);
    var qs := SanitizePairs(fs[..m]);
    forall i | 0 <= i < m ensures qs[i] == ps[..m][i] {
      assert fs[..m][i] == fs[i];
    }
  }

  /** A value in storage-safe form: at every depth, object keys are safe and distinct. */
  predicate IsSanitized(j: Json)
    decreases j
  {
    match j
    case JArr(xs) => forall i :: 0 <= i < |xs| ==> IsSanitized(xs[i])
    case JObj(fs) => UniqueKeys(fs) && forall i :: 0 <= i < |fs| ==> IsSafeKey(fs[i].key) && IsSanitized(fs[i].value)
    case _ => true
  }

  /** Whatever it is given, `make_mongo_safe` returns a value in storage-safe form. */
  lemma {:induction false} SanitizeIsSanitized(j: Json)
    ensures IsSanitized(Sanitize(j))
    decreases j, 2
  {
    match j
    case JArr(xs) =>
      forall i | 0 <= i < |xs| ensures IsSanitized(SanitizeList(xs)[i]) {
        SanitizeIsSanitized(xs[i]);
      }
    case JObj(fs) =>
      SanitizeFieldsAreSanitized(fs);
    case _ =>
  }

  lemma {:induction false} SanitizeFieldsAreSanitized(fs: seq<Field>)
    ensures forall x :: x in SanitizeFields(fs) ==> IsSafeKey(x.key) && IsSanitized(x.value)
    decreases fs, 1
  {
    var ps := SanitizePairs(fs);
    DictOfFields(ps);
    forall x | x in SanitizeFields(fs) ensures IsSafeKey(x.key) && IsSanitized(x.value) {
      var i :| 0 <= i < |ps| && ps[i] == x;
      SanitizeIsSanitized(fs[i].value);
    }
  }

  /** A value already in storage-safe form is returned unchanged. */
  lemma {:induction false} SanitizedIsFixed(j: Json)
    requires IsSanitized(j)
    ensures Sanitize(j) == j
    decreases j, 2
  {
    match j
    case JArr(xs) =>
      forall i | 0 <= i < |xs| ensures SanitizeList(xs)[i] == xs[i] {
        SanitizedIsFixed(xs[i]);
      }
    case JObj(fs) =>
      SanitizedFieldsAreFixed(fs);
    case _ =>
  }

  lemma {:induction false} SanitizedFieldsAreFixed(fs: seq<Field>)
    requires UniqueKeys(fs)
    requires forall i :: 0 <= i < |fs| ==> IsSafeKey(fs[i].key) && IsSanitized(fs[i].value)
    ensures SanitizeFields(fs) == fs
    decreases fs, 1
  {
    var ps := SanitizePairs(fs);
    forall i | 0 <= i < |fs| ensures ps[i] == fs[i] {
      SanitizedIsFixed(fs[i].value);
    }
    assert ps == fs;
    DictOfDict(fs);
  }

  /** `make_mongo_safe` is idempotent. */
  lemma SanitizeIdempotent(j: Json)
    ensures Sanitize(Sanitize(j)) == Sanitize(j)
  {
    SanitizeIsSanitized(j);
    SanitizedIsFixed(Sanitize(j));
  }
}
