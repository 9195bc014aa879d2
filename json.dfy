/**
 * Decoded JSON values and the handful of Python `dict` operations the
 * connector relies on. An object is a sequence of fields in insertion order,
 * as a Python dict iterates them.
 */
module JsonValue {

  datatype Option<T> = None | Some(value: T)

  datatype Json =
    | JNull
    | JBool(b: bool)
    | JNum(n: int)
    | JStr(s: string)
    | JArr(items: seq<Json>)
    | JObj(fields: seq<Field>)

  datatype Field = Field(key: string, value: Json)

  /** Python truthiness of a decoded JSON value (`None`, `False`, `0`, `""`, `[]`, `{}` are falsy). */
  predicate Truthy(j: Json)
  {
    match j
    case JNull => false
    case JBool(b) => b
    case JNum(n) => n != 0
    case JStr(s) => s != ""
    case JArr(xs) => xs != []
    case JObj(fs) => fs != []
  }

  /** The keys of an object, in iteration order. */
  function KeysOf(fs: seq<Field>): (ks: seq<string>)
    ensures |ks| == |fs|
  {
    if fs == [] then [] else [fs[0].key] + KeysOf(fs[1..])
  }

  lemma {:induction false} KeysOfAt(fs: seq<Field>, i: nat)
    requires i < |fs|
    ensures KeysOf(fs)[i] == fs[i].key
  {
    if i > 0 {
      KeysOfAt(fs[1..], i - 1);
    }
  }

  /** A Python dict never holds a key twice. */
  predicate UniqueKeys(fs: seq<Field>)
  {
    fs == [] || (fs[0].key !in KeysOf(fs[1..]) && UniqueKeys(fs[1..]))
  }

  /** `d.get(k)`: the value stored under `k`, or None. */
  function Get(fs: seq<Field>, k: string): (r: Option<Json>)
    ensures r.Some? <==> k in KeysOf(fs)
  {
    if fs == [] then None
    else if fs[0].key == k then Some(fs[0].value)
    else Get(fs[1..], k)
  }

  /** `d[k] = v`: overwrite the value in place when `k` is present, append otherwise. */
  function Insert(fs: seq<Field>, k: string, v: Json): (r: seq<Field>)
    ensures Get(r, k) == Some(v)
    ensures forall k' :: k' != k ==> Get(r, k') == Get(fs, k')
  {
    if fs == [] then [Field(k, v)]
    else if fs[0].key == k then [Field(k, v)] + fs[1..]
    else [fs[0]] + Insert(fs[1..], k, v)
  }

  /** Assignment keeps the position of an existing key and appends a new one; a dict stays a dict. */
  lemma {:induction false} InsertKeys(fs: seq<Field>, k: string, v: Json)
    ensures KeysOf(Insert(fs, k, v)) == if k in KeysOf(fs) then KeysOf(fs) else KeysOf(fs) + [k]
    ensures UniqueKeys(fs) ==> UniqueKeys(Insert(fs, k, v))
  {
    if fs != [] {
      var r := Insert(fs, k, v);
      if fs[0].key == k {
        assert r[1..] == fs[1..];
        assert KeysOf(r) == [k] + KeysOf(fs[1..]);
      } else {
        var rest := Insert(fs[1..], k, v);
        InsertKeys(fs[1..], k, v);
        assert r[0] == fs[0] && r[1..] == rest;
        assert KeysOf(r) == [fs[0].key] + KeysOf(rest);
        assert (k in KeysOf(fs)) == (k in KeysOf(fs[1..]));
      }
    }
  }

  /** Assigning a key the dict does not hold appends exactly one field. */
  lemma {:induction false} InsertAbsent(fs: seq<Field>, k: string, v: Json)
    requires k !in KeysOf(fs)
    ensures Insert(fs, k, v) == fs + [Field(k, v)]
  {
    if fs != [] {
      assert KeysOf(fs) == [fs[0].key] + KeysOf(fs[1..]);
      assert fs[0].key != k && k !in KeysOf(fs[1..]);
      InsertAbsent(fs[1..], k, v);
      assert Insert(fs, k, v) == [fs[0]] + Insert(fs[1..], k, v);
      assert [fs[0]] + (fs[1..] + [Field(k, v)]) == fs + [Field(k, v)];
    }
  }

  /** Every field after an assignment was already there, or is the assigned one. */
  lemma {:induction false} InsertFields(fs: seq<Field>, k: string, v: Json)
    ensures forall x :: x in Insert(fs, k, v) ==> x in fs || x == Field(k, v)
  {
    if fs != [] && fs[0].key != k {
      InsertFields(fs[1..], k, v);
    }
  }

  lemma {:induction false} KeysOfAppend(a: seq<Field>, b: seq<Field>)
    ensures KeysOf(a + b) == KeysOf(a) + KeysOf(b)
  {
    if a != [] {
      assert (a + b)[1..] == a[1..] + b;
      KeysOfAppend(a[1..], b);
      assert KeysOf(a + b) == [a[0].key] + KeysOf(a[1..] + b);
    } else {
      assert a + b == b;
    }
  }

  /** A dict extended by one field is a dict exactly when the new key is fresh. */
  lemma {:induction false} UniqueSnoc(a: seq<Field>, x: Field)
    ensures UniqueKeys(a + [x]) <==> UniqueKeys(a) && x.key !in KeysOf(a)
  {
    if a != [] {
      assert (a + [x])[1..] == a[1..] + [x];
      KeysOfAppend(a[1..], [x]);
      UniqueSnoc(a[1..], x);
    }
  }

  /** Assigning the value a dict already holds leaves it as it was. */
  lemma {:induction false} InsertPresent(fs: seq<Field>, k: string, v: Json)
    requires UniqueKeys(fs)
    requires Get(fs, k) == Some(v)
    ensures Insert(fs, k, v) == fs
  {
    if fs != [] && fs[0].key != k {
      InsertPresent(fs[1..], k, v);
    }
  }

  /** On a dict, `get` finds exactly the value stored beside each key. */
  lemma {:induction false} GetAt(fs: seq<Field>, i: nat)
    requires UniqueKeys(fs) && i < |fs|
    ensures Get(fs, fs[i].key) == Some(fs[i].value)
  {
    if i > 0 {
      KeysOfAt(fs[1..], i - 1);
      GetAt(fs[1..], i - 1);
    }
  }

  /**
   * `dict(pairs)`: the pairs assigned in order into an empty dict, so a later
   * pair overwrites an earlier one with the same key in that key's first place.
   */
  function DictOf(xs: seq<Field>): seq<Field>
    decreases |xs|
  {
    if xs == [] then []
    else
      var n := |xs| - 1;
      Insert(DictOf(xs[..n]), xs[n].key, xs[n].value)
  }

  lemma {:induction false} DictOfIsDict(xs: seq<Field>)
    ensures UniqueKeys(DictOf(xs))
    decreases |xs|
  {
    if xs != [] {
      var n := |xs| - 1;
      DictOfIsDict(xs[..n]);
      InsertKeys(DictOf(xs[..n]), xs[n].key, xs[n].value);
    }
  }

  /** Every key of the pairs is a key of the dict. */
  lemma {:induction false} DictOfCoversKeys(xs: seq<Field>)
    ensures forall i :: 0 <= i < |xs| ==> xs[i].key in KeysOf(DictOf(xs))
    decreases |xs|
  {
    if xs != [] {
      var n := |xs| - 1;
      var prefix := xs[..n];
      DictOfCoversKeys(prefix);
      forall i | 0 <= i < n ensures xs[i].key in KeysOf(DictOf(xs)) {
        assert prefix[i] == xs[i];
        assert Get(DictOf(prefix), xs[i].key).Some?;
      }
    }
  }

  /** Every key of the dict is the key of some pair. */
  lemma {:induction false} DictOfKeysFromPairs(xs: seq<Field>)
    ensures forall k :: k in KeysOf(DictOf(xs)) ==> exists i :: 0 <= i < |xs| && xs[i].key == k
    decreases |xs|
  {
    if xs != [] {
      var n := |xs| - 1;
      var prefix := xs[..n];
      DictOfKeysFromPairs(prefix);
      forall k | k in KeysOf(DictOf(xs)) ensures exists i :: 0 <= i < |xs| && xs[i].key == k {
        if k == xs[n].key {
          assert xs[n].key == k;
        } else {
          assert Get(DictOf(xs), k) == Get(DictOf(prefix), k);
          var i :| 0 <= i < n && prefix[i].key == k;
          assert xs[i] == prefix[i];
        }
      }
    }
  }

  /** No later pair has the key of pair `i`. */
  predicate LastKey(xs: seq<Field>, i: nat)
    requires i < |xs|
  {
    forall j :: i < j < |xs| ==> xs[j].key != xs[i].key
  }

  /** The dict holds, under each key, the value of the last pair with that key. */
  lemma {:induction false} DictOfLastWins(xs: seq<Field>)
    ensures forall i :: 0 <= i < |xs| && LastKey(xs, i) ==> Get(DictOf(xs), xs[i].key) == Some(xs[i].value)
    decreases |xs|
  {
    if xs != [] {
      var n := |xs| - 1;
      var prefix := xs[..n];
      DictOfLastWins(prefix);
      forall i | 0 <= i < n && LastKey(xs, i) ensures Get(DictOf(xs), xs[i].key) == Some(xs[i].value) {
        assert prefix[i] == xs[i];
        assert xs[n].key != xs[i].key;
        assert LastKey(prefix, i) by {
          forall j | i < j < n ensures prefix[j].key != prefix[i].key {
            assert prefix[j] == xs[j];
          }
        }
      }
    }
  }

  /** The keys before an assignment are a prefix of the keys after it. */
  lemma InsertGrowsKeys(fs: seq<Field>, k: string, v: Json)
    ensures KeysOf(fs) <= KeysOf(Insert(fs, k, v))
  {
    InsertKeys(fs, k, v);
    if k !in KeysOf(fs) {
      assert KeysOf(fs) <= KeysOf(fs) + [k];
    }
  }

  lemma PrefixTransitive(a: seq<string>, b: seq<string>, c: seq<string>)
    requires a <= b && b <= c
    ensures a <= c
  {
  }

  /** The keys of the first `m` pairs come first in the dict, in the same order. */
  lemma {:induction false} DictOfKeepsFirstOrder(xs: seq<Field>, m: nat)
    requires m <= |xs|
    ensures KeysOf(DictOf(xs[..m])) <= KeysOf(DictOf(xs))
    decreases |xs|
  {
    if m < |xs| {
      var n := |xs| - 1;
      var p := xs[..n];
      assert p[..m] == xs[..m];
      DictOfKeepsFirstOrder(p, m);
      assert DictOf(xs) == Insert(DictOf(p), xs[n].key, xs[n].value);
      InsertGrowsKeys(DictOf(p), xs[n].key, xs[n].value);
      PrefixTransitive(KeysOf(DictOf(p[..m])), KeysOf(DictOf(p)), KeysOf(DictOf(xs)));
    } else {
      assert xs[..m] == xs;
    }
  }

  /** Every field of the dict is one of the pairs. */
  lemma {:induction false} DictOfFields(xs: seq<Field>)
    ensures forall x :: x in DictOf(xs) ==> x in xs
    decreases |xs|
  {
    if xs != [] {
      var n := |xs| - 1;
      DictOfFields(xs[..n]);
      InsertFields(DictOf(xs[..n]), xs[n].key, xs[n].value);
    }
  }

  /** Pairs that already form a dict are returned as they are. */
  lemma {:induction false} DictOfDict(xs: seq<Field>)
    requires UniqueKeys(xs)
    ensures DictOf(xs) == xs
    decreases |xs|
  {
    if xs != [] {
      var n := |xs| - 1;
      var prefix := xs[..n];
      assert xs == prefix + [xs[n]];
      UniqueSnoc(prefix, xs[n]);
      DictOfDict(prefix);
      InsertAbsent(prefix, xs[n].key, xs[n].value);
    }
  }

  /**
   * `$set` of a whole document: the fields of `upd` are assigned one after
   * another, in order, onto `d`.
   */
  function SetAll(d: seq<Field>, upd: seq<Field>): (r: seq<Field>)
    ensures UniqueKeys(d) ==> UniqueKeys(r)
    ensures UniqueKeys(upd) ==> forall k :: Get(r, k) == if k in KeysOf(upd) then Get(upd, k) else Get(d, k)
    decreases |upd|
  {
    if upd == [] then d
    else
      InsertKeys(d, upd[0].key, upd[0].value);
      SetAll(Insert(d, upd[0].key, upd[0].value), upd[1..])
  }

  /** Setting the same fields a second time changes nothing: `$set` is idempotent. */
  lemma {:induction false} SetAllIdempotent(d: seq<Field>, upd: seq<Field>)
    requires UniqueKeys(d) && UniqueKeys(upd)
    ensures SetAll(SetAll(d, upd), upd) == SetAll(d, upd)
  {
    var once := SetAll(d, upd);
    forall i | 0 <= i < |upd|
      ensures Get(once, upd[i].key) == Some(upd[i].value)
    {
      KeysOfAt(upd, i);
      GetAt(upd, i);
    }
    SetAllOverAgreeing(once, upd);
  }

  /** If `d` already agrees with every field of `upd`, setting them is a no-op. */
  lemma {:induction false} SetAllOverAgreeing(d: seq<Field>, upd: seq<Field>)
    requires UniqueKeys(d) && UniqueKeys(upd)
    requires forall i :: 0 <= i < |upd| ==> Get(d, upd[i].key) == Some(upd[i].value)
    ensures SetAll(d, upd) == d
    decreases |upd|
  {
    if upd != [] {
      InsertPresent(d, upd[0].key, upd[0].value);
      assert forall i :: 0 <= i < |upd[1..]| ==> upd[1..][i] == upd[i + 1];
      SetAllOverAgreeing(d, upd[1..]);
    }
  }
}
