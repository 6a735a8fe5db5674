/**
 * The windowed counter store: per-key bucket maps (TTLValues), a key
 * table per shard (KeyMap), and the sharded cache of one collection
 * (Local). The system clock becomes a `now` parameter, the xxh3 hash
 * a function supplied at construction, and lock poisoning a boolean
 * parameter.
 */
module LocalCache {
  import opened Results

  const DEFAULT_PARTITIONS: nat := 1024
  const DEFAULT_TTL: int := 300
  const DEFAULT_WINDOW: nat := 60

  /** `u64::abs_diff`. */
  function AbsDiff(a: nat, b: nat): (d: nat)
    ensures a + d == b || b + d == a
  {
    if a >= b then a - b else b - a
  }

  /** `k` is the largest key of `vals`: the last one a BTreeMap yields. */
  ghost predicate IsNewest(vals: map<nat, nat>, k: nat)
  {
    k in vals && forall j :: j in vals ==> j <= k
  }

  lemma {:induction false} NewestExists(keys: set<nat>)
    requires keys != {}
    ensures exists k :: k in keys && forall j :: j in keys ==> j <= k
    decreases keys
  {
    var x :| x in keys;
    if keys != {x} {
      NewestExists(keys - {x});
      var m :| m in keys - {x} && forall j :: j in keys - {x} ==> j <= m;
      var top := if x > m then x else m;
      forall j | j in keys
        ensures j <= top
      {
        if j != x {
          assert j in keys - {x};
        }
      }
    }
  }

  /** `vals.iter().next_back()`: the newest bucket start. */
  function Newest(vals: map<nat, nat>): (k: nat)
    requires |vals| > 0
    ensures IsNewest(vals, k)
  {
    assert vals.Keys != {} by {
      assert |vals.Keys| == |vals|;
    }
    NewestExists(vals.Keys);
    var k :| k in vals && forall j :: j in vals ==> j <= k;
    k
  }

  /** Inserting a key moves the newest bucket to the larger of the two. */
  lemma NewestInsert(vals: map<nat, nat>, k: nat, v: nat)
    ensures Newest(vals[k := v]) == if |vals| == 0 || k > Newest(vals) then k else Newest(vals)
  {
    var m := vals[k := v];
    var n := Newest(m);
    if |vals| > 0 {
      var o := Newest(vals);
      var top := if k > o then k else o;
      assert top in m;
      forall j | j in m
        ensures j <= top
      {
        if j != k {
          assert j in vals;
        }
      }
      assert n <= top && top <= n;
    } else {
      assert m.Keys == {k};
      assert n in m;
    }
  }

  /**
   * The abstract value of a TTLValues: the window width and the map from
   * bucket start timestamp to count.
   */
  datatype Buckets = Buckets(window: nat, vals: map<nat, nat>) {

    /**
     * `find_bucket`: the newest bucket when `ts` lies strictly within
     * `window` of it, otherwise `ts` itself.
     */
    function FindBucket(ts: nat): (b: nat)
      ensures b == ts || (IsNewest(vals, b) && AbsDiff(ts, b) < window)
      ensures forall k :: IsNewest(vals, k) && AbsDiff(ts, k) < window ==> b == k
    {
      if |vals| == 0 then ts
      else
        var n := Newest(vals);
        if AbsDiff(ts, n) < window then n else ts
    }

    /** The count stored under a bucket key, 0 when there is none. */
    function Stored(b: nat): nat
    {
      if b in vals then vals[b] else 0
    }

    /** `get`: the count of the bucket `ts` falls into. */
    function Get(ts: nat): nat
    {
      Stored(FindBucket(ts))
    }

    /** The value after `inc(ts)`. */
    function AfterInc(ts: nat): (r: Buckets)
      ensures r.window == window
      ensures r.vals.Keys == vals.Keys + {FindBucket(ts)}
      ensures r.vals[FindBucket(ts)] == Stored(FindBucket(ts)) + 1
      ensures forall k :: k in vals && k != FindBucket(ts) ==> r.vals[k] == vals[k]
    {
      var b := FindBucket(ts);
      FindBucketIdempotent(ts);
      Buckets(window, vals[b := Get(b) + 1])
    }

    /** Looking a chosen bucket up again chooses the same bucket. */
    lemma FindBucketIdempotent(ts: nat)
      ensures FindBucket(FindBucket(ts)) == FindBucket(ts)
    {
    }

    /** After `inc(ts)` the returned bucket is found again for itself. */
    lemma {:induction false} AfterIncFindsBucket(ts: nat)
      ensures AfterInc(ts).FindBucket(FindBucket(ts)) == FindBucket(ts)
    {
      var b := FindBucket(ts);
      var r := AfterInc(ts);
      assert r.vals == vals[b := Stored(b) + 1];
      NewestInsert(vals, b, Stored(b) + 1);
      if |vals| > 0 {
        var n := Newest(vals);
        if b != n {
          assert b == ts && AbsDiff(ts, n) >= window;
        }
      }
    }

    /** `inc_and_get` answers the previous count of the bucket plus one. */
    lemma AfterIncGet(ts: nat)
      ensures AfterInc(ts).Get(FindBucket(ts)) == Stored(FindBucket(ts)) + 1
    {
      AfterIncFindsBucket(ts);
    }

    /**
     * The value and answer of `inc_and_get(ts)`: the incremented buckets
     * and the count read back from the bucket the increment chose.
     */
    function IncAndGet(ts: nat): (r: (Buckets, nat))
      ensures r.0 == AfterInc(ts)
      ensures r.1 == Stored(FindBucket(ts)) + 1 && r.1 == r.0.Get(FindBucket(ts))
    {
      AfterIncGet(ts);
      var after := AfterInc(ts);
      (after, after.Get(FindBucket(ts)))
    }
  }

  /** The first increment of empty buckets opens a bucket at count 1. */
  lemma FreshBucketInc(window: nat, ts: nat)
    ensures Buckets(window, map[]).AfterInc(ts) == Buckets(window, map[ts := 1])
  {
    assert Buckets(window, map[]).AfterInc(ts).vals == map[ts := 1];
  }

  /** A timestamp within the window of the newest bucket accumulates into it. */
  lemma AccumulatesIntoNewest(b: Buckets, ts: nat)
    requires |b.vals| > 0 && AbsDiff(ts, Newest(b.vals)) < b.window
    ensures b.AfterInc(ts).vals == b.vals[Newest(b.vals) := b.vals[Newest(b.vals)] + 1]
  {
  }

  /**
   * A timestamp outside the newest bucket's window counts in the bucket
   * keyed by itself: an older bucket with that key goes up by one, and a
   * missing one opens at 1.
   */
  lemma CountsInOwnBucket(b: Buckets, ts: nat)
    requires |b.vals| > 0 && AbsDiff(ts, Newest(b.vals)) >= b.window
    ensures b.AfterInc(ts).vals == b.vals[ts := b.Stored(ts) + 1]
  {
  }

  /**
   * A timestamp `window` or more past the newest bucket opens a fresh
   * bucket at count 1; the older buckets keep their counts.
   */
  lemma OpensFreshBucket(b: Buckets, ts: nat)
    requires |b.vals| > 0 && b.window > 0 && ts >= Newest(b.vals) + b.window
    ensures b.AfterInc(ts).vals == b.vals[ts := 1]
  {
    assert ts !in b.vals;
  }

  /** The buckets after `inc` at each timestamp in turn. */
  function IncAll(b: Buckets, tss: seq<nat>): Buckets
    decreases |tss|
  {
    if tss == [] then b else IncAll(b.AfterInc(tss[0]), tss[1..])
  }

  /**
   * Starting empty, timestamps all within `window` of the first one land
   * in one bucket, opened at the first timestamp, holding their number.
   */
  lemma {:induction false} BurstCounts(window: nat, tss: seq<nat>)
    requires |tss| >= 1
    requires forall i :: 0 <= i < |tss| ==> AbsDiff(tss[i], tss[0]) < window
    ensures IncAll(Buckets(window, map[]), tss) == Buckets(window, map[tss[0] := |tss|])
  {
    FreshBucketInc(window, tss[0]);
    BurstFrom(window, tss[0], 1, tss[1..]);
  }

  /** One increment in a single-bucket map within its window adds to it. */
  lemma SingleBucketInc(window: nat, start: nat, count: nat, ts: nat)
    requires AbsDiff(ts, start) < window
    ensures Buckets(window, map[start := count]).AfterInc(ts) == Buckets(window, map[start := count + 1])
  {
    var b := Buckets(window, map[start := count]);
    assert Newest(b.vals) == start;
    assert b.FindBucket(ts) == start;
    assert b.vals[start := count + 1] == map[start := count + 1];
  }

  lemma {:induction false} BurstFrom(window: nat, start: nat, count: nat, tss: seq<nat>)
    requires forall i :: 0 <= i < |tss| ==> AbsDiff(tss[i], start) < window
    ensures IncAll(Buckets(window, map[start := count]), tss) == Buckets(window, map[start := count + |tss|])
    decreases |tss|
  {
    if tss != [] {
      var rest := tss[1..];
      forall i | 0 <= i < |rest|
        ensures AbsDiff(rest[i], start) < window
      {
        assert rest[i] == tss[i + 1];
      }
      SingleBucketInc(window, start, count, tss[0]);
      BurstFrom(window, start, count + 1, rest);
      assert count + 1 + |rest| == count + |tss|;
    }
  }

  /** One increment, given the current newest bucket `n`. */
  lemma IncStep(b: Buckets, ts: nat, n: nat)
    requires |b.vals| > 0 && Newest(b.vals) == n
    ensures var bucket := if AbsDiff(ts, n) < b.window then n else ts;
      && b.FindBucket(ts) == bucket
      && b.AfterInc(ts) == Buckets(b.window, b.vals[bucket := b.Stored(bucket) + 1])
      && Newest(b.AfterInc(ts).vals) == if bucket > n then bucket else n
  {
    var bucket := b.FindBucket(ts);
    b.FindBucketIdempotent(ts);
    NewestInsert(b.vals, bucket, b.Stored(bucket) + 1);
  }

  /** The `test_get` scenario: one increment at 1000, read at 1000 and 2000. */
  lemma GetAfterOneInc()
    ensures Buckets(DEFAULT_WINDOW, map[]).AfterInc(1000).Get(1000) == 1
    ensures Buckets(DEFAULT_WINDOW, map[]).AfterInc(1000).Get(2000) == 0
  {
    var b := Buckets(DEFAULT_WINDOW, map[]).AfterInc(1000);
    assert b.vals == map[1000 := 1];
    assert Newest(b.vals) == 1000;
  }

  /**
   * The `test_inc_and_get` scenario: after one increment at 1000 with the
   * default window, `inc_and_get(1000)` answers 2 and then
   * `inc_and_get(2000)`, outside the window, opens a bucket and answers 1.
   */
  lemma IncAndGetAfterOneInc()
    ensures Buckets(DEFAULT_WINDOW, map[]).AfterInc(1000).IncAndGet(1000).1 == 2
    ensures Buckets(DEFAULT_WINDOW, map[]).AfterInc(1000).IncAndGet(1000).0.IncAndGet(2000).1 == 1
  {
    FreshBucketInc(DEFAULT_WINDOW, 1000);
    SingleBucketInc(DEFAULT_WINDOW, 1000, 1, 1000);
    var b := Buckets(DEFAULT_WINDOW, map[1000 := 2]);
    assert Newest(b.vals) == 1000;
    assert b.FindBucket(2000) == 2000;
  }

  /** The five increments of the `test_inc` scenario, window 1000. */
  function IncTraceInput(): seq<nat>
  {
    [1000, 1200, 2000, 2999, 5005]
  }

  lemma IncTraceUnfolds()
    ensures var b0 := Buckets(1000, map[]);
      IncAll(b0, IncTraceInput())
      == b0.AfterInc(1000).AfterInc(1200).AfterInc(2000).AfterInc(2999).AfterInc(5005)
  {
    var tss := IncTraceInput();
    assert tss[1..] == [1200, 2000, 2999, 5005];
    assert tss[1..][1..] == [2000, 2999, 5005];
    assert tss[1..][1..][1..] == [2999, 5005];
    assert tss[1..][1..][1..][1..] == [5005];
    assert tss[1..][1..][1..][1..][1..] == [];
  }

  lemma IncTraceBuckets()
    ensures var b := Buckets(1000, map[]).AfterInc(1000).AfterInc(1200).AfterInc(2000).AfterInc(2999).AfterInc(5005);
      b == Buckets(1000, map[1000 := 2, 2000 := 2, 5005 := 1])
  {
    IncTraceEarly();
    IncTraceLate();
  }

  /** The first three increments of `test_inc`: 1000 and 1200 share a bucket, 2000 opens one. */
  lemma IncTraceEarly()
    ensures Buckets(1000, map[]).AfterInc(1000).AfterInc(1200).AfterInc(2000) == Buckets(1000, map[1000 := 2, 2000 := 1])
  {
    FreshBucketInc(1000, 1000);
    SingleBucketInc(1000, 1000, 1, 1200);
    IncTraceThird();
  }

  lemma IncTraceThird()
    ensures Buckets(1000, map[1000 := 2]).AfterInc(2000) == Buckets(1000, map[1000 := 2, 2000 := 1])
  {
    var b2 := Buckets(1000, map[1000 := 2]);
    assert IsNewest(b2.vals, 1000);
    IncStep(b2, 2000, 1000);
    assert b2.vals[2000 := 1] == map[1000 := 2, 2000 := 1];
  }

  /** The last two increments of `test_inc`: 2999 joins 2000's bucket, 5005 opens one. */
  lemma IncTraceLate()
    ensures Buckets(1000, map[1000 := 2, 2000 := 1]).AfterInc(2999).AfterInc(5005) == Buckets(1000, map[1000 := 2, 2000 := 2, 5005 := 1])
  {
    IncTraceFourth();
    IncTraceFifth();
  }

  lemma IncTraceFourth()
    ensures Buckets(1000, map[1000 := 2, 2000 := 1]).AfterInc(2999) == Buckets(1000, map[1000 := 2, 2000 := 2])
  {
    var b3 := Buckets(1000, map[1000 := 2, 2000 := 1]);
    assert IsNewest(b3.vals, 2000);
    IncStep(b3, 2999, 2000);
    assert b3.vals[2000 := 2] == map[1000 := 2, 2000 := 2];
  }

  lemma IncTraceFifth()
    ensures Buckets(1000, map[1000 := 2, 2000 := 2]).AfterInc(5005) == Buckets(1000, map[1000 := 2, 2000 := 2, 5005 := 1])
  {
    var b4 := Buckets(1000, map[1000 := 2, 2000 := 2]);
    assert IsNewest(b4.vals, 2000);
    IncStep(b4, 5005, 2000);
    assert b4.vals[5005 := 1] == map[1000 := 2, 2000 := 2, 5005 := 1];
  }

  /** The `test_inc` scenario: counts 2, 2 and 1 in three buckets. */
  lemma IncTrace()
    ensures var b := IncAll(Buckets(1000, map[]), IncTraceInput());
      b.Get(1000) == 2 && b.Get(2000) == 2 && b.Get(5005) == 1
  {
    IncTraceUnfolds();
    IncTraceBuckets();
    IncTraceReads();
  }

  /** Reading the three buckets of the `test_inc` result. */
  lemma IncTraceReads()
    ensures var b := Buckets(1000, map[1000 := 2, 2000 := 2, 5005 := 1]);
      b.Get(1000) == 2 && b.Get(2000) == 2 && b.Get(5005) == 1
  {
    var b := Buckets(1000, map[1000 := 2, 2000 := 2, 5005 := 1]);
    assert IsNewest(b.vals, 5005);
    assert Newest(b.vals) == 5005;
    assert b.FindBucket(1000) == 1000 && b.FindBucket(2000) == 2000 && b.FindBucket(5005) == 5005;
  }

  /** TTLValues: one key's buckets, updated in place. */
  class TtlValues {
    var window: nat
    var vals: map<nat, nat>

    function State(): Buckets
      reads this
    {
      Buckets(window, vals)
    }

    /** `TTLValues::new(window)`. */
    constructor (window: nat)
      ensures State() == Buckets(window, map[])
    {
      this.window := window;
      vals := map[];
    }

    /** `TTLValues::default()`. */
    constructor Default()
      ensures State() == Buckets(DEFAULT_WINDOW, map[])
    {
      window := DEFAULT_WINDOW;
      vals := map[];
    }

    /** `inc`: adds one to the chosen bucket and returns its key. */
    method Inc(ts: nat) returns (bucket: nat)
      modifies this
      ensures bucket == old(State()).FindBucket(ts)
      ensures State() == old(State()).AfterInc(ts)
    {
      bucket := State().FindBucket(ts);
      var updated := State().Get(bucket) + 1;
      vals := vals[bucket := updated];
    }

    /** `inc_and_get`: increments, then reads the returned bucket back. */
    method IncAndGet(ts: nat) returns (count: nat)
      modifies this
      ensures (State(), count) == old(State()).IncAndGet(ts)
    {
      ghost var before := State();
      var newKey := Inc(ts);
      before.AfterIncFindsBucket(ts);
      count := State().Get(newKey);
    }
  }

  /**
   * `KeyMap::get_or_create` on the value of a key table: the new table
   * and the count answered. A read (create false) of a known key is
   * `get`, of an unknown key 0; a create is `inc_and_get`, on a fresh
   * default TTLValues when the key is new.
   */
  function KeyStep(m: map<string, Buckets>, key: string, ts: nat, create: bool): (r: (map<string, Buckets>, nat))
    ensures key in m && create ==> r == (m[key := m[key].AfterInc(ts)], m[key].Get(ts) + 1)
    ensures key in m && !create ==> r == (m, m[key].Get(ts))
    ensures key !in m && create ==> r == (m[key := Buckets(DEFAULT_WINDOW, map[ts := 1])], 1)
    ensures key !in m && !create ==> r == (m, 0)
    ensures create ==> r.1 == r.0[key].Get(ts)
  {
    if key in m then
      if create then
        var (t, count) := m[key].IncAndGet(ts);
        (m[key := t], count)
      else
        (m, m[key].Get(ts))
    else if create then
      FreshBucketInc(DEFAULT_WINDOW, ts);
      var (t, count) := Buckets(DEFAULT_WINDOW, map[]).IncAndGet(ts);
      (m[key := t], count)
    else
      (m, 0)
  }

  /**
   * Creating calls on one key, all within the default window of the
   * first, answer 1, 2, ... in turn: the n-th call answers n.
   */
  lemma {:induction false} KeyBurst(m: map<string, Buckets>, key: string, tss: seq<nat>)
    requires key !in m && |tss| >= 1
    requires forall i :: 0 <= i < |tss| ==> AbsDiff(tss[i], tss[0]) < DEFAULT_WINDOW
    ensures KeyRun(m, key, tss) == (m[key := Buckets(DEFAULT_WINDOW, map[tss[0] := |tss|])], |tss|)
    decreases |tss|
  {
    if |tss| > 1 {
      var init := tss[..|tss| - 1];
      assert init[0] == tss[0];
      var last := tss[|tss| - 1];
      assert AbsDiff(last, tss[0]) < DEFAULT_WINDOW;
      KeyBurst(m, key, init);
      var prev := m[key := Buckets(DEFAULT_WINDOW, map[tss[0] := |init|])];
      assert KeyRun(m, key, tss) == KeyStep(prev, key, last, true);
      KeyIncSingle(prev, key, tss[0], |init|, last);
      assert |init| + 1 == |tss|;
      UpdateTwice(m, key, Buckets(DEFAULT_WINDOW, map[tss[0] := |init|]), Buckets(DEFAULT_WINDOW, map[tss[0] := |tss|]));
    }
  }

  lemma UpdateTwice<K, V>(m: map<K, V>, k: K, v: V, w: V)
    ensures m[k := v][k := w] == m[k := w]
  {
  }

  /** A create on a key with one bucket, within its window, adds one to it. */
  lemma KeyIncSingle(m: map<string, Buckets>, key: string, start: nat, count: nat, ts: nat)
    requires key in m && m[key] == Buckets(DEFAULT_WINDOW, map[start := count])
    requires AbsDiff(ts, start) < DEFAULT_WINDOW
    ensures KeyStep(m, key, ts, true) == (m[key := Buckets(DEFAULT_WINDOW, map[start := count + 1])], count + 1)
  {
    SingleBucketInc(DEFAULT_WINDOW, start, count, ts);
    assert Newest(m[key].vals) == start;
  }

  /** Creating calls on one key at the given timestamps, in turn: the final table and last answer. */
  function KeyRun(m: map<string, Buckets>, key: string, tss: seq<nat>): (map<string, Buckets>, nat)
    decreases |tss|
  {
    if tss == [] then (m, 0)
    else
      var prev := KeyRun(m, key, tss[..|tss| - 1]).0;
      KeyStep(prev, key, tss[|tss| - 1], true)
  }

  /** A one-bucket value of a default TTLValues. */
  function Single(start: nat, count: nat): Buckets
  {
    Buckets(DEFAULT_WINDOW, map[start := count])
  }

  // The tables the `keymap_tests::test_get_or_create` calls go through.
  function Table1(): map<string, Buckets> { map["foo" := Single(10000, 1)] }
  function Table2(): map<string, Buckets> { map["foo" := Single(10000, 2)] }
  function Table3(): map<string, Buckets> { map["foo" := Single(10000, 2), "bar" := Single(10100, 1)] }
  function Table4(): map<string, Buckets> { map["foo" := Single(10000, 2), "bar" := Single(10100, 2)] }
  function Table5(): map<string, Buckets> { map["foo" := Single(10000, 3), "bar" := Single(10100, 2)] }

  lemma TraceFirst()
    ensures KeyStep(map[], "foo", 10000, true) == (Table1(), 1)
  {
    assert map[]["foo" := Single(10000, 1)] == Table1();
  }

  lemma TraceSecond()
    ensures KeyStep(Table1(), "foo", 10005, true) == (Table2(), 2)
  {
    KeyIncSingle(Table1(), "foo", 10000, 1, 10005);
    assert Table1()["foo" := Single(10000, 2)] == Table2();
  }

  lemma TraceThird()
    ensures KeyStep(Table2(), "bar", 10100, true) == (Table3(), 1)
  {
    assert Table2()["bar" := Single(10100, 1)] == Table3();
  }

  lemma TraceFourth()
    ensures KeyStep(Table3(), "bar", 10101, true) == (Table4(), 2)
  {
    KeyIncSingle(Table3(), "bar", 10100, 1, 10101);
    assert Table3()["bar" := Single(10100, 2)] == Table4();
  }

  lemma TraceFifth()
    ensures KeyStep(Table4(), "foo", 10050, true) == (Table5(), 3)
  {
    KeyIncSingle(Table4(), "foo", 10000, 2, 10050);
    assert Table4()["foo" := Single(10000, 3)] == Table5();
  }

  lemma TraceReads()
    ensures KeyStep(Table5(), "bar", 10101, false) == (Table5(), 2)
    ensures KeyStep(Table5(), "foo", 10050, false) == (Table5(), 3)
    ensures KeyStep(Table5(), "foobarfoo", 10050, false) == (Table5(), 0)
  {
    assert Newest(Single(10000, 3).vals) == 10000;
    assert Newest(Single(10100, 2).vals) == 10100;
  }

  function Table6(): map<string, Buckets>
  {
    map["foo" := Buckets(DEFAULT_WINDOW, map[10000 := 3, 10150 := 1]), "bar" := Single(10100, 2)]
  }

  lemma TraceLate()
    ensures KeyStep(Table5(), "foo", 10150, true) == (Table6(), 1)
  {
    var foo := Single(10000, 3);
    assert Newest(foo.vals) == 10000;
    OpensFreshBucket(foo, 10150);
    assert Table5()["foo" := Buckets(DEFAULT_WINDOW, foo.vals[10150 := 1])] == Table6();
  }

  lemma TraceNewKey()
    ensures KeyStep(Table6(), "foobar", 10150, true).1 == 1
  {
    assert "foobar" !in Table6();
  }

  /** KeyMap: the key table of one partition; it owns its TTLValues. */
  class KeyMap {
    var ttls: map<string, Buckets>

    /** `KeyMap::new()`: no keys. */
    constructor ()
      ensures ttls == map[]
    {
      ttls := map[];
    }

    /** `KeyMap::get_or_create(key, create)` with `key.ts == ts`. */
    method GetOrCreate(key: string, ts: nat, create: bool) returns (v: nat)
      modifies this
      ensures (ttls, v) == KeyStep(old(ttls), key, ts, create)
    {
      if key in ttls {
        if create {
          var (t, count) := ttls[key].IncAndGet(ts);
          ttls := ttls[key := t];
          v := count;
        } else {
          v := ttls[key].Get(ts);
        }
      } else {
        if create {
          var (t, count) := Buckets(DEFAULT_WINDOW, map[]).IncAndGet(ts);
          ttls := ttls[key := t];
          v := count;
        } else {
          v := 0;
        }
      }
    }
  }

  /**
   * The `keymap_tests::test_get_or_create` sequence of calls on a fresh
   * KeyMap: creates within the window add one, reads answer the counts,
   * an unknown key reads 0, and a late create or a new key answers 1.
   */
  method KeyMapScenario() returns (answers: seq<nat>)
    ensures answers == [1, 2, 1, 2, 3, 2, 3, 0, 1, 1]
  {
    var km := new KeyMap();
    TraceFirst();
    var v0 := km.GetOrCreate("foo", 10000, true);
    TraceSecond();
    var fooVal := km.GetOrCreate("foo", 10005, true);
    TraceThird();
    var barVal := km.GetOrCreate("bar", 10100, true);
    TraceFourth();
    var v3 := km.GetOrCreate("bar", 10101, true);
    TraceFifth();
    var v4 := km.GetOrCreate("foo", 10050, true);
    TraceReads();
    var v5 := km.GetOrCreate("bar", 10101, false);
    var v6 := km.GetOrCreate("foo", 10050, false);
    var v7 := km.GetOrCreate("foobarfoo", 10050, false);
    TraceLate();
    var v8 := km.GetOrCreate("foo", 10150, true);
    TraceNewKey();
    var v9 := km.GetOrCreate("foobar", 10150, true);
    answers := [v0, fooVal, barVal, v3, v4, v5, v6, v7, v8, v9];
  }

  /** `hash as u32 % partition_count`: the partition a 64-bit key hash selects. */
  function PartitionOf(h: nat, n: nat): (p: nat)
    requires n > 0
    ensures p < n
  {
    (h % 0x1_0000_0000) % n
  }

  /** Only the low 32 bits of the hash choose the partition. */
  lemma PartitionLow32(h: nat, k: nat, n: nat)
    requires n > 0
    ensures PartitionOf(h + k * 0x1_0000_0000, n) == PartitionOf(h, n)
  {
    assert (h + k * 0x1_0000_0000) % 0x1_0000_0000 == h % 0x1_0000_0000;
  }

  /** `CacheError`, rendered by its `Display`. */
  datatype CacheError = CacheError(msg: string) {
    function Display(): string
    {
      "error internal to local cache: " + msg
    }
  }

  /** The text of a std `PoisonError`. */
  const POISONED: string := "poisoned lock: another task failed inside"

  /** `partition_count` fresh, empty, distinct key tables. */
  method NewPartitions(n: nat) returns (ps: seq<KeyMap>)
    ensures |ps| == n
    ensures forall i :: 0 <= i < n ==> fresh(ps[i]) && ps[i].ttls == map[]
    ensures forall i, j :: 0 <= i < j < n ==> ps[i] != ps[j]
  {
    ps := [];
    while |ps| < n
      invariant |ps| <= n
      invariant forall i :: 0 <= i < |ps| ==> fresh(ps[i]) && ps[i].ttls == map[]
      invariant forall i, j :: 0 <= i < j < |ps| ==> ps[i] != ps[j]
    {
      var km := new KeyMap();
      ps := ps + [km];
    }
  }

  /** The partition of a key among `n`. */
  function ShardOf(hash: string -> nat, n: nat, k: string): (p: nat)
    requires n > 0
    ensures p < n
  {
    PartitionOf(hash(k), n)
  }

  /**
   * The partition tables `parts` hold exactly the keys of `c`, each
   * in the partition its hash selects, with the same buckets.
   */
  ghost predicate Sharded(c: map<string, Buckets>, parts: seq<map<string, Buckets>>, hash: string -> nat)
  {
    && |parts| > 0
    && (forall i, k :: 0 <= i < |parts| && k in parts[i] ==> ShardOf(hash, |parts|, k) == i)
    && (forall k :: k in c <==> k in parts[ShardOf(hash, |parts|, k)])
    && (forall k :: k in c ==> c[k] == parts[ShardOf(hash, |parts|, k)][k])
  }

  /**
   * Sharding is invisible: a step on the key's own partition answers as
   * the same step on the whole table would, and keeps the tables sharded.
   */
  lemma ShardStep(c: map<string, Buckets>, parts: seq<map<string, Buckets>>, hash: string -> nat,
                  key: string, ts: nat, create: bool)
    requires Sharded(c, parts, hash)
    ensures var p := ShardOf(hash, |parts|, key);
      && KeyStep(parts[p], key, ts, create).1 == KeyStep(c, key, ts, create).1
      && Sharded(KeyStep(c, key, ts, create).0, parts[p := KeyStep(parts[p], key, ts, create).0], hash)
  {
    var p := ShardOf(hash, |parts|, key);
    assert key in c <==> key in parts[p];
    if key in c {
      assert c[key] == parts[p][key];
    }
    if create {
      var v := KeyStep(c, key, ts, create).0[key];
      assert KeyStep(c, key, ts, create).0 == c[key := v];
      assert KeyStep(parts[p], key, ts, create).0 == parts[p][key := v];
      ShardUpdate(c, parts, hash, key, v);
    } else {
      assert parts[p := parts[p]] == parts;
    }
  }

  /** Storing a key's buckets in its own partition keeps the tables sharded. */
  lemma ShardUpdate(c: map<string, Buckets>, parts: seq<map<string, Buckets>>, hash: string -> nat,
                    key: string, v: Buckets)
    requires Sharded(c, parts, hash)
    ensures var p := ShardOf(hash, |parts|, key);
      Sharded(c[key := v], parts[p := parts[p][key := v]], hash)
  {
    var p := ShardOf(hash, |parts|, key);
    var parts' := parts[p := parts[p][key := v]];
    forall i, k | 0 <= i < |parts'| && k in parts'[i]
      ensures ShardOf(hash, |parts|, k) == i
    {
      if i != p || k != key {
        assert k in parts[i];
      }
    }
  }

  /**
   * Local: the cache of one collection, its keys sharded over
   * `partition_count` key tables by the low 32 bits of their hash.
   */
  class Local {
    const partitionCount: nat
    const ttl: int
    const partitions: seq<KeyMap>
    /** The 64-bit key hash (xxh3 in the system). */
    const hash: string -> nat
    ghost const Repr: set<KeyMap>
    /** The abstract cache: every key's buckets, whatever its partition. */
    ghost var Contents: map<string, Buckets>

    /** The fixed shape: one distinct key table per partition, all in `Repr`. */
    ghost predicate Shaped()
    {
      && |partitions| == partitionCount
      && (forall i :: 0 <= i < |partitions| ==> partitions[i] in Repr)
      && (forall i, j :: 0 <= i < j < |partitions| ==> partitions[i] != partitions[j])
    }

    ghost predicate Valid()
      reads this, Repr
    {
      && Shaped()
      && (partitionCount == 0 ==> Contents == map[])
      && (partitionCount > 0 ==> Sharded(Contents, Tables(), hash))
    }

    /** The partitions' key tables, in order. */
    ghost function Tables(): (ts: seq<map<string, Buckets>>)
      reads partitions
      ensures |ts| == |partitions|
      ensures forall i :: 0 <= i < |partitions| ==> ts[i] == partitions[i].ttls
    {
      seq(|partitions|, i requires 0 <= i < |partitions| reads partitions => partitions[i].ttls)
    }

    /** A new cache: the fixed shape, and nothing stored in any partition. */
    ghost predicate Empty()
      reads this, Repr
    {
      && Shaped()
      && Contents == map[]
      && forall i :: 0 <= i < |partitions| ==> partitions[i].ttls == map[]
    }

    /** An empty cache is a valid one. */
    lemma EmptyValid()
      requires Empty()
      ensures Valid() && Contents == map[]
    {
    }

    /** `Local::new(partition_count, ttl)`. */
    constructor (partitionCount: nat, ttl: int, hash: string -> nat)
      ensures Valid() && Empty() && fresh(Repr)
      ensures this.partitionCount == partitionCount && this.ttl == ttl && this.hash == hash
    {
      var ps := NewPartitions(partitionCount);
      this.partitionCount := partitionCount;
      this.ttl := ttl;
      this.hash := hash;
      partitions := ps;
      Repr := set i | 0 <= i < |ps| :: ps[i];
      Contents := map[];
    }

    /** `Local::default()`: 1024 partitions, a ttl of 300. */
    constructor Default(hash: string -> nat)
      ensures Valid() && Empty() && fresh(Repr)
      ensures partitionCount == DEFAULT_PARTITIONS && ttl == DEFAULT_TTL && this.hash == hash
    {
      var ps := NewPartitions(DEFAULT_PARTITIONS);
      partitionCount := DEFAULT_PARTITIONS;
      ttl := DEFAULT_TTL;
      this.hash := hash;
      partitions := ps;
      Repr := set i | 0 <= i < |ps| :: ps[i];
      Contents := map[];
    }

    /**
     * `Local::get_or_create(key, create)` with the clock reading `now`
     * and `poisoned` telling whether the partition's lock is poisoned.
     * The sharded cache answers as the single table `Contents` would,
     * and only the key's own partition changes.
     */
    method GetOrCreate(key: string, create: bool, now: nat, poisoned: bool) returns (r: Result<nat, CacheError>)
      requires Valid() && partitionCount > 0
      modifies this, Repr
      ensures Valid()
      ensures poisoned ==> r == Err(CacheError("failed to get partition lock: " + POISONED))
      ensures poisoned ==> Contents == old(Contents)
      ensures !poisoned ==> r == Ok(KeyStep(old(Contents), key, now, create).1)
      ensures !poisoned ==> Contents == KeyStep(old(Contents), key, now, create).0
      ensures forall i :: 0 <= i < |partitions| && i != ShardOf(hash, partitionCount, key) ==> partitions[i].ttls == old(partitions[i].ttls)
    {
      var p := PartitionOf(hash(key), partitionCount);
      var inner := partitions[p];
      if poisoned {
        return Err(CacheError("failed to get partition lock: " + POISONED));
      }
      ghost var before := Tables();
      ghost var contents := KeyStep(Contents, key, now, create);
      ghost var after := KeyStep(before[p], key, now, create);
      ShardStep(Contents, before, hash, key, now, create);
      var val := inner.GetOrCreate(key, now, create);
      assert inner.ttls == after.0;
      Contents := contents.0;
      assert Tables() == before[p := after.0];
      r := Ok(val);
    }
  }

  /** A cache whose objects are untouched keeps its validity and contents. */
  twostate lemma LocalUntouched(local: Local)
    requires old(local.Valid())
    requires unchanged(local) && unchanged(local.Repr)
    ensures local.Valid() && local.Contents == old(local.Contents)
  {
  }

  /** A cache whose objects are untouched stays empty. */
  twostate lemma EmptyUntouched(local: Local)
    requires old(local.Empty())
    requires unchanged(local) && unchanged(local.Repr)
    ensures local.Empty()
  {
  }

  /**
   * The `local_tests::test_get_or_create` calls on `Local::new(10, 30)`,
   * all at one clock reading and whatever the hash: 1, 2, 1, then 0 for
   * a read of an unknown key.
   */
  method LocalScenario(hash: string -> nat, now: nat) returns (answers: seq<Result<nat, CacheError>>)
    ensures answers == [Ok(1), Ok(2), Ok(1), Ok(0)]
  {
    var local := new Local(10, 30, hash);
    var a := local.GetOrCreate("foo", true, now, false);
    SingleBucketInc(DEFAULT_WINDOW, now, 1, now);
    var b := local.GetOrCreate("foo", true, now, false);
    var c := local.GetOrCreate("bar", true, now, false);
    assert "foobar" !in local.Contents;
    var d := local.GetOrCreate("foobar", false, now, false);
    answers := [a, b, c, d];
  }

  /**
   * `local_tests::test_get_or_create_concurrent`: nine creating calls on
   * "foo" (in the order their threads take the partition lock, each
   * reading the clock under it) and one more; if every reading lies
   * within the window of the first, the last call answers 10.
   */
  method ConcurrentScenario(hash: string -> nat, clock: seq<nat>) returns (last: Result<nat, CacheError>)
    requires |clock| == 10
    requires forall i :: 0 <= i < |clock| ==> AbsDiff(clock[i], clock[0]) < DEFAULT_WINDOW
    ensures last == Ok(10)
  {
    var local := new Local(10, 30, hash);
    last := local.GetOrCreate("foo", true, clock[0], false);
    var i := 1;
    while i < 10
      invariant 1 <= i <= 10
      invariant local.Valid() && local.partitionCount == 10
      invariant local.Contents == map["foo" := Single(clock[0], i)]
      invariant last == Ok(i)
      invariant fresh(local.Repr)
    {
      KeyIncSingle(local.Contents, "foo", clock[0], i, clock[i]);
      last := local.GetOrCreate("foo", true, clock[i], false);
      UpdateTwice(map[], "foo", Single(clock[0], i), Single(clock[0], i + 1));
      i := i + 1;
    }
  }
}
