/**
 * Where an incremental run starts and how far it got: the resume point is
 * chosen with Python's `or` between the command line, the persisted
 * watermark file and the configured default; the watermark then follows the
 * running maximum, in Python string order, of each record's `modified` (or
 * `created`) timestamp.
 */
module Watermark {
  import opened JsonValue

  /** Python truthiness of an optional string: present and non-empty. */
  predicate Present(s: Option<string>)
  {
    s.Some? && s.value != ""
  }

  /** Python `a or b` on two optional strings. */
  function Or(a: Option<string>, b: Option<string>): Option<string>
  {
    if Present(a) then a else b
  }

  /**
   * The resume point of a run: `since_cli or since_file or since_env`, where
   * the file value is ignored under `--no-watermark` and an empty configured
   * default counts as none.
   */
  function ResolveResume(since: Option<string>, noWatermark: bool, fromFile: Option<string>, defaultSince: string): (r: Option<string>)
    ensures Present(since) ==> r == since
    ensures !Present(since) && !noWatermark && Present(fromFile) ==> r == fromFile
    ensures !Present(since) && (noWatermark || !Present(fromFile)) && defaultSince != "" ==> r == Some(defaultSince)
    ensures !Present(since) && (noWatermark || !Present(fromFile)) && defaultSince == "" ==> r == None
    ensures r == None || Present(r)
  {
    var sinceEnv := if defaultSince != "" then Some(defaultSince) else None;
    var sinceFile := if noWatermark then None else fromFile;
    Or(Or(since, sinceFile), sinceEnv)
  }

  /** Python `a < b` on `str`: the first differing code point decides, and a proper prefix is smaller. */
  predicate StrLess(a: string, b: string)
  {
    if a == [] then b != []
    else if b == [] then false
    else if a[0] != b[0] then a[0] < b[0]
    else StrLess(a[1..], b[1..])
  }

  lemma {:induction false} StrLessIrreflexive(a: string)
    ensures !StrLess(a, a)
  {
    if a != [] {
      StrLessIrreflexive(a[1..]);
    }
  }

  lemma {:induction false} StrLessTransitive(a: string, b: string, c: string)
    requires StrLess(a, b) && StrLess(b, c)
    ensures StrLess(a, c)
  {
    if a != [] && b != [] && c != [] && a[0] == b[0] && b[0] == c[0] {
      StrLessTransitive(a[1..], b[1..], c[1..]);
    }
  }

  /** Any two different strings are ordered one way or the other. */
  lemma {:induction false} StrLessTotal(a: string, b: string)
    requires a != b
    ensures StrLess(a, b) || StrLess(b, a)
  {
    if a != [] && b != [] && a[0] == b[0] {
      assert a[1..] != b[1..] by {
        assert a == [a[0]] + a[1..] && b == [b[0]] + b[1..];
      }
      StrLessTotal(a[1..], b[1..]);
    }
  }

  /** `a <= b` in string order. */
  predicate StrLessEq(a: string, b: string)
  {
    a == b || StrLess(a, b)
  }

  lemma StrLessEqTransitive(a: string, b: string, c: string)
    requires StrLessEq(a, b) && StrLessEq(b, c)
    ensures StrLessEq(a, c)
  {
    if a != b && b != c {
      StrLessTransitive(a, b, c);
    }
  }

  /** The optional watermark `w` is set and not below `s`. */
  predicate Covers(w: Option<string>, s: string)
  {
    w.Some? && StrLessEq(s, w.value)
  }

  /** Python `a or b` on two optional JSON values, `None` standing for an absent key. */
  function OrJson(a: Option<Json>, b: Option<Json>): Option<Json>
  {
    if a.Some? && Truthy(a.value) then a else b
  }

  /**
   * `p.get("modified") or p.get("created")` taken as a timestamp: a non-empty
   * string, or none when both fields are missing or falsy.
   */
  function RecordStamp(rec: seq<Field>): (r: Option<string>)
    ensures r.Some? ==> r.value != ""
    ensures Present(StrOf(Get(rec, "modified"))) ==> r == StrOf(Get(rec, "modified"))
    ensures Falsy(Get(rec, "modified")) && Present(StrOf(Get(rec, "created"))) ==> r == StrOf(Get(rec, "created"))
    ensures Get(rec, "modified") == None && Get(rec, "created") == None ==> r == None
    ensures r.Some? ==> Get(rec, "modified") == Some(JStr(r.value))
                        || (Get(rec, "created") == Some(JStr(r.value)) && Falsy(Get(rec, "modified")))
  {
    match OrJson(Get(rec, "modified"), Get(rec, "created"))
    case Some(JStr(s)) => if s != "" then Some(s) else None
    case _ => None
  }

  /** A field that is missing, or holds a falsy value. */
  predicate Falsy(v: Option<Json>)
  {
    v.None? || !Truthy(v.value)
  }

  /** The string a field holds, if it holds one. */
  function StrOf(v: Option<Json>): Option<string>
  {
    match v
    case Some(JStr(s)) => Some(s)
    case _ => None
  }

  /**
   * One step of the watermark: the stamp replaces the running value when there
   * is none yet or the stamp is greater in string order. The watermark never
   * goes down, a record without a stamp leaves it alone, and afterwards it is
   * at least the stamp.
   */
  function Advance(latest: Option<string>, stamp: Option<string>): (r: Option<string>)
    ensures r == latest || r == stamp
    ensures stamp.None? ==> r == latest
    ensures latest.Some? ==> Covers(r, latest.value)
    ensures stamp.Some? ==> Covers(r, stamp.value)
  {
    if stamp.Some? && (latest.None? || StrLess(latest.value, stamp.value)) then stamp
    else
      assert stamp.Some? ==> Covers(latest, stamp.value) by {
        if stamp.Some? && stamp.value != latest.value {
          StrLessTotal(stamp.value, latest.value);
        }
      }
      latest
  }

  /** The watermark after seeing `recs` in order, starting from `seed`. */
  function TrackAll(seed: Option<string>, recs: seq<seq<Field>>): Option<string>
    decreases |recs|
  {
    if recs == [] then seed
    else Advance(TrackAll(seed, recs[..|recs| - 1]), RecordStamp(recs[|recs| - 1]))
  }

  /**
   * The final watermark is the maximum, in string order, of the seed and every
   * record's stamp: it covers each of them and is one of them. It is unset
   * exactly when there was no seed and no record had a stamp.
   */
  lemma {:induction false} TrackAllIsMaximum(seed: Option<string>, recs: seq<seq<Field>>)
    ensures seed.Some? ==> Covers(TrackAll(seed, recs), seed.value)
    ensures forall i :: 0 <= i < |recs| && RecordStamp(recs[i]).Some? ==>
              Covers(TrackAll(seed, recs), RecordStamp(recs[i]).value)
    ensures TrackAll(seed, recs) == seed || exists i :: 0 <= i < |recs| && TrackAll(seed, recs) == RecordStamp(recs[i])
    ensures TrackAll(seed, recs).None? <==> seed.None? && forall i :: 0 <= i < |recs| ==> RecordStamp(recs[i]).None?
    decreases |recs|
  {
    if recs != [] {
      var n := |recs| - 1;
      var prefix := recs[..n];
      var before := TrackAll(seed, prefix);
      var after := TrackAll(seed, recs);
      TrackAllIsMaximum(seed, prefix);
      assert after == Advance(before, RecordStamp(recs[n]));
      assert forall i :: 0 <= i < n ==> prefix[i] == recs[i];
      if seed.Some? {
        StrLessEqTransitive(seed.value, before.value, after.value);
      }
      forall i | 0 <= i < |recs| && RecordStamp(recs[i]).Some?
        ensures Covers(after, RecordStamp(recs[i]).value)
      {
        if i < n {
          StrLessEqTransitive(RecordStamp(recs[i]).value, before.value, after.value);
        }
      }
      if after != seed && after != RecordStamp(recs[n]) {
        var i :| 0 <= i < n && before == RecordStamp(prefix[i]);
        assert after == RecordStamp(recs[i]);
      }
    }
  }

  /** The watermark never goes down as more records are seen. */
  lemma {:induction false} TrackAllMonotone(seed: Option<string>, recs: seq<seq<Field>>, m: nat)
    requires m <= |recs|
    requires TrackAll(seed, recs[..m]).Some?
    ensures Covers(TrackAll(seed, recs), TrackAll(seed, recs[..m]).value)
    decreases |recs| - m
  {
    if m < |recs| {
      assert recs[..m + 1][..m] == recs[..m];
      var mid := TrackAll(seed, recs[..m + 1]);
      TrackAllMonotone(seed, recs, m + 1);
      StrLessEqTransitive(TrackAll(seed, recs[..m]).value, mid.value, TrackAll(seed, recs).value);
    } else {
      assert recs[..m] == recs;
    }
  }

  /** `if latest_modified_seen: save_watermark(...)`: what is persisted at the end of a run. */
  function WatermarkToSave(latest: Option<string>): (r: Option<string>)
    ensures r.Some? <==> Present(latest)
    ensures r.Some? ==> r == latest
  {
    if Present(latest) then latest else None
  }

  /**
   * A record with only `created = "2025-02-01T00:00:00+00:00"`, seen after the
   * seed `"2025-01-01T00:00:00+00:00"`, moves the watermark to its `created` value.
   */
  lemma CreatedAdvancesWatermark()
    ensures TrackAll(Some("2025-01-01T00:00:00+00:00"),
                     [[Field("created", JStr("2025-02-01T00:00:00+00:00"))]])
            == Some("2025-02-01T00:00:00+00:00")
  {
    var seed, stamp := "2025-01-01T00:00:00+00:00", "2025-02-01T00:00:00+00:00";
    var recs := [[Field("created", JStr(stamp))]];
    assert recs[..0] == [];
    assert RecordStamp(recs[0]) == Some(stamp);
    assert StrLess(seed, stamp) by {
      assert seed[..6] == stamp[..6];
      assert StrLess(seed[6..], stamp[6..]);
      StrLessCommonPrefix(seed, stamp, 6);
    }
  }

  /** Strings that agree on their first `n` characters compare as their remainders do. */
  lemma {:induction false} StrLessCommonPrefix(a: string, b: string, n: nat)
    requires n <= |a| && n <= |b| && a[..n] == b[..n]
    ensures StrLess(a, b) == StrLess(a[n..], b[n..])
  {
    if n > 0 {
      assert a[0] == a[..n][0] && b[0] == b[..n][0];
      assert a[1..][..n - 1] == a[..n][1..] && b[1..][..n - 1] == b[..n][1..];
      StrLessCommonPrefix(a[1..], b[1..], n - 1);
      assert a[1..][n - 1..] == a[n..] && b[1..][n - 1..] == b[n..];
    }
  }
}
