/**
 * The HTTP entry point: a request naming a collection and a key, its two
 * path parameters, is answered with whether it is within the
 * collection's rate. Routing, JSON bodies and
 * tracing are not modelled; a request is its two path parameters and a
 * response is either the `allowed` flag or an error with its status.
 */
module Rest {
  import opened Results
  import opened LocalCache
  import opened Config

  /** The two error statuses the handler uses. */
  datatype StatusCode = BadRequest | InternalServerError
  {
    function Code(): (n: nat)
      ensures 400 <= n < 600
      ensures n < 500 <==> this == BadRequest
    {
      match this
      case BadRequest => 400
      case InternalServerError => 500
    }
  }

  /** The path parameters `collection` and `key`, each possibly missing. */
  datatype Request = Request(collection: Option<string>, key: Option<string>)

  /** `200 OK` with `{"allowed": ...}`, or an `HTTPError` with its status. */
  datatype Response = Allowed(allowed: bool) | HttpError(code: StatusCode, msg: string)

  /** Every collection's cache, as the single table each `Local` behaves as. */
  type Tables = map<string, map<string, Buckets>>

  const MISSING_COLLECTION := "missing collection parameter"
  const MISSING_KEY := "missing key parameter"
  const NO_CACHE := "cannot find cache for collection parameter "
  const NO_GET := "failed to get_or_create val: "
  const NO_CONFIG := "cannot find config for collection parameter "

  /** The cache error a poisoned partition lock produces. */
  function LockError(): CacheError
  {
    CacheError("failed to get partition lock: " + POISONED)
  }

  /**
   * `Handler::handle` on the caches' contents: the checks in order, the
   * key's counter bumped once the cache is found and locked, and the
   * request allowed when the bumped count does not exceed the rate.
   */
  function Decide(req: Request, tables: Tables, rates: map<string, RateConfig>, now: nat, poisoned: bool): (r: (Tables, Response))
    ensures req.collection.None? ==> r == (tables, HttpError(BadRequest, MISSING_COLLECTION))
    ensures req.collection.Some? && req.key.None? ==> r == (tables, HttpError(BadRequest, MISSING_KEY))
    ensures req.collection.Some? && req.key.Some? && req.collection.value !in tables
        ==> r == (tables, HttpError(BadRequest, NO_CACHE + req.collection.value))
    ensures req.collection.Some? && req.key.Some? && req.collection.value in tables && poisoned
        ==> r == (tables, HttpError(InternalServerError, NO_GET + LockError().Display()))
    ensures r.1.HttpError? && r.1.code == BadRequest ==> r.0 == tables
    ensures r.1.Allowed? ==> req.collection.Some? && req.key.Some? && !poisoned
    ensures r.1.Allowed? ==>
      var (c, k) := (req.collection.value, req.key.value);
      && c in tables && c in rates
      && r.0 == tables[c := KeyStep(tables[c], k, now, true).0]
      && (r.1.allowed <==> r.0[c][k].Get(now) <= rates[c].count)
    ensures req.collection.Some? && req.key.Some? && req.collection.value in tables && !poisoned ==>
      var (c, k) := (req.collection.value, req.key.value);
      && r.0 == tables[c := KeyStep(tables[c], k, now, true).0]
      && (r.1.Allowed? <==> c in rates)
      && (c !in rates ==> r.1 == HttpError(InternalServerError, NO_CONFIG + c))
  {
    match req.collection
    case None => (tables, HttpError(BadRequest, MISSING_COLLECTION))
    case Some(c) =>
      match req.key
      case None => (tables, HttpError(BadRequest, MISSING_KEY))
      case Some(k) =>
        if c !in tables then (tables, HttpError(BadRequest, NO_CACHE + c))
        else if poisoned then (tables, HttpError(InternalServerError, NO_GET + LockError().Display()))
        else
          var (table, val) := KeyStep(tables[c], k, now, true);
          var after := tables[c := table];
          if c !in rates then (after, HttpError(InternalServerError, NO_CONFIG + c))
          else (after, Allowed(!(val > rates[c].count)))
  }

  /**
   * A cache found but no rate for it: the counter is still bumped before
   * the missing rate is reported.
   */
  lemma ConsumedWithoutRate(tables: Tables, rates: map<string, RateConfig>, c: string, k: string, now: nat)
    requires c in tables && c !in rates
    ensures Decide(Request(Some(c), Some(k)), tables, rates, now, false)
         == (tables[c := KeyStep(tables[c], k, now, true).0], HttpError(InternalServerError, NO_CONFIG + c))
  {
  }

  /**
   * The request after `n` others on the same key, all in one bucket of
   * the window: it is counted as the `n + 1`-th and allowed exactly when
   * that is within the rate.
   */
  lemma NextRequest(tables: Tables, rates: map<string, RateConfig>, c: string, k: string, start: nat, n: nat, now: nat)
    requires c in tables && c in rates
    requires n == 0 ==> k !in tables[c]
    requires n > 0 ==> k in tables[c] && tables[c][k] == Single(start, n)
    requires n > 0 ==> AbsDiff(now, start) < DEFAULT_WINDOW
    ensures var r := Decide(Request(Some(c), Some(k)), tables, rates, now, false);
      && r.1 == Allowed(n + 1 <= rates[c].count)
      && r.0 == tables[c := tables[c][k := Single(if n == 0 then now else start, n + 1)]]
  {
    if n > 0 {
      KeyIncSingle(tables[c], k, start, n, now);
    }
  }

  /** Once denied, the same key at the same instant stays denied. */
  lemma StaysDenied(tables: Tables, rates: map<string, RateConfig>, req: Request, now: nat)
    requires Decide(req, tables, rates, now, false).1 == Allowed(false)
    ensures var after := Decide(req, tables, rates, now, false).0;
      Decide(req, after, rates, now, false).1 == Allowed(false)
  {
    var (c, k) := (req.collection.value, req.key.value);
    var after := Decide(req, tables, rates, now, false).0;
    var again := Decide(req, after, rates, now, false);
    assert k in after[c];
    assert again.0[c][k].Get(now) == after[c][k].Get(now) + 1;
  }

  /**
   * `handle_rate_tests` with the rate of two on "foo": the first and
   * second requests for "foobar" are allowed, the third is not, when the
   * three clock readings lie in one window.
   */
  lemma RateOfTwo(tables: Tables, t0: nat, t1: nat, t2: nat)
    requires "foo" in tables && "foobar" !in tables["foo"]
    requires AbsDiff(t1, t0) < DEFAULT_WINDOW && AbsDiff(t2, t0) < DEFAULT_WINDOW
    ensures var rates := map["foo" := RateConfig("foo", 2, Duration(60, 0))];
      var req := Request(Some("foo"), Some("foobar"));
      var r0 := Decide(req, tables, rates, t0, false);
      var r1 := Decide(req, r0.0, rates, t1, false);
      var r2 := Decide(req, r1.0, rates, t2, false);
      r0.1 == Allowed(true) && r1.1 == Allowed(true) && r2.1 == Allowed(false)
  {
    var rates := map["foo" := RateConfig("foo", 2, Duration(60, 0))];
    var req := Request(Some("foo"), Some("foobar"));
    NextRequest(tables, rates, "foo", "foobar", t0, 0, t0);
    var r0 := Decide(req, tables, rates, t0, false);
    NextRequest(r0.0, rates, "foo", "foobar", t0, 1, t1);
    var r1 := Decide(req, r0.0, rates, t1, false);
    NextRequest(r1.0, rates, "foo", "foobar", t0, 2, t2);
  }

  /** The outcome once both parameters are given and the cache is found. */
  lemma Found(req: Request, tables: Tables, rates: map<string, RateConfig>, now: nat, poisoned: bool)
    requires req.collection.Some? && req.key.Some? && req.collection.value in tables
    ensures var (c, k) := (req.collection.value, req.key.value);
      var step := KeyStep(tables[c], k, now, true);
      Decide(req, tables, rates, now, poisoned)
        == if poisoned then (tables, HttpError(InternalServerError, NO_GET + LockError().Display()))
           else if c !in rates then (tables[c := step.0], HttpError(InternalServerError, NO_CONFIG + c))
           else (tables[c := step.0], Allowed(!(step.1 > rates[c].count)))
  {
  }

  /** Maps that agree at every key are equal. */
  lemma MapSame<K, V>(before: map<K, V>, after: map<K, V>)
    requires after.Keys == before.Keys
    requires forall j :: j in before ==> after[j] == before[j]
    ensures after == before
  {
  }

  /** A map changed at one key only is the old map updated at that key. */
  lemma MapAfter<K, V>(before: map<K, V>, after: map<K, V>, k: K)
    requires k in before && after.Keys == before.Keys
    requires forall j :: j in before && j != k ==> after[j] == before[j]
    ensures after == before[k := after[k]]
  {
  }

  /**
   * Distinct caches of at least one partition, with disjoint footprints,
   * all inside `repr`.
   */
  ghost predicate Apart(caches: map<string, Local>, repr: set<object>)
  {
    && (forall c :: c in caches ==> caches[c] in repr && caches[c].Repr <= repr && caches[c].partitionCount > 0)
    && (forall c, d :: c in caches && d in caches && c != d ==> caches[c] != caches[d] && caches[c].Repr !! caches[d].Repr)
  }

  /** A cache outside the footprint keeps the caches apart when it joins them. */
  lemma ApartExtend(caches: map<string, Local>, repr: set<object>, key: string, local: Local)
    requires Apart(caches, repr) && key !in caches
    requires local !in repr && local.Repr !! repr && local.partitionCount > 0
    ensures Apart(caches[key := local], repr + {local} + local.Repr)
  {
    var next := caches[key := local];
    forall c, d | c in next && d in next && c != d
      ensures next[c] != next[d] && next[c].Repr !! next[d].Repr
    {
      if c == key {
        assert next[d] == caches[d];
      } else if d == key {
        assert next[c] == caches[c];
      } else {
        assert next[c] == caches[c] && next[d] == caches[d];
      }
    }
  }

  /**
   * The loop of `Handler::new`, over the keys one at a time: a fresh, empty cache of 1024 partitions
   * and the given TTL for every key.
   */
  method NewCaches(keys: set<string>, ttl: nat, hash: string -> nat) returns (built: map<string, Local>, ghost repr: set<object>)
    ensures built.Keys == keys && Apart(built, repr) && fresh(repr)
    ensures forall c :: c in built ==> built[c].Empty()
    ensures forall c :: c in built ==> built[c].partitionCount == DEFAULT_PARTITIONS && built[c].ttl == ttl
    decreases |keys|
  {
    if keys == {} {
      return map[], {};
    }
    var key :| key in keys;
    var rest := keys - {key};
    assert keys == rest + {key};
    built, repr := NewCaches(rest, ttl, hash);
    built, repr := AddCache(built, repr, key, ttl, hash);
  }

  /** One step: a new cache for `key`, the others untouched. */
  method AddCache(built: map<string, Local>, ghost repr: set<object>, key: string, ttl: nat, hash: string -> nat)
    returns (next: map<string, Local>, ghost nextRepr: set<object>)
    requires key !in built && Apart(built, repr)
    requires forall c :: c in built ==> built[c].Empty()
    requires forall c :: c in built ==> built[c].partitionCount == DEFAULT_PARTITIONS && built[c].ttl == ttl
    ensures next.Keys == built.Keys + {key} && Apart(next, nextRepr) && fresh(nextRepr - repr)
    ensures nextRepr >= repr
    ensures forall c :: c in next ==> next[c].Empty()
    ensures forall c :: c in next ==> next[c].partitionCount == DEFAULT_PARTITIONS && next[c].ttl == ttl
  {
    var local := new Local(DEFAULT_PARTITIONS, ttl, hash);
    assert local !in repr && local.Repr !! repr;
    forall c | c in built
      ensures built[c].Empty()
    {
      EmptyUntouched(built[c]);
    }
    ApartExtend(built, repr, key, local);
    next := built[key := local];
    nextRepr := repr + {local} + local.Repr;
  }

  /** Tables that agree with every cache's table are the handler's tables. */
  lemma TablesSame(h: Handler, before: Tables)
    requires before.Keys == h.caches.Keys
    requires forall d :: d in h.caches ==> h.caches[d].Contents == before[d]
    ensures h.Tables() == before
  {
    MapSame(before, h.Tables());
  }

  /** Tables that agree with every cache's table but that of `c`. */
  lemma TablesStep(h: Handler, before: Tables, c: string)
    requires c in h.caches && before.Keys == h.caches.Keys
    requires forall d :: d in h.caches && d != c ==> h.caches[d].Contents == before[d]
    ensures h.Tables() == before[c := h.caches[c].Contents]
  {
    MapAfter(before, h.Tables(), c);
  }

  /**
   * `Handler`: each configured collection's cache and its rate. The
   * caches are distinct objects with disjoint footprints.
   */
  class Handler {
    const caches: map<string, Local>
    const rates: map<string, RateConfig>
    ghost const Repr: set<object>

    /** The fixed shape: distinct caches with disjoint footprints, all in `Repr`. */
    ghost predicate Separate()
    {
      Apart(caches, Repr)
    }

    ghost predicate Valid()
      reads this, Repr
    {
      Separate() && forall c :: c in caches ==> caches[c].Valid()
    }

    /** Every collection's cache, as the single table it behaves as. */
    ghost function Tables(): (t: Tables)
      reads caches.Values
      ensures t.Keys == caches.Keys
      ensures forall c :: c in caches ==> t[c] == caches[c].Contents
    {
      map c | c in caches :: caches[c].Contents
    }

    /**
     * `Handler::new`: one fresh cache of 1024 partitions per configured
     * collection, each with the configuration's TTL, and the configured
     * rates.
     */
    constructor (linker: Config, hash: string -> nat)
      ensures Valid() && fresh(Repr)
      ensures caches.Keys == linker.configs.Keys && rates == linker.configs
      ensures forall c :: c in caches ==> caches[c].ttl == linker.ttlSeconds && caches[c].partitionCount == DEFAULT_PARTITIONS
      ensures forall c :: c in caches ==> caches[c].Contents == map[]
    {
      var built;
      ghost var repr;
      built, repr := NewCaches(linker.configs.Keys, linker.ttlSeconds, hash);
      forall c | c in built
        ensures built[c].Valid() && built[c].Contents == map[]
      {
        built[c].EmptyValid();
      }
      caches := built;
      rates := linker.configs;
      Repr := repr;
    }

    /**
     * `cache.get_or_create(key, true)` on the collection's cache: its
     * table changes as `KeyStep` says unless the partition lock is
     * poisoned, and no other collection's table changes.
     */
    method GetOrCreate(c: string, k: string, now: nat, poisoned: bool) returns (val: Result<nat, CacheError>)
      requires Valid() && c in caches
      modifies Repr
      ensures Valid()
      ensures poisoned ==> val == Err(LockError()) && caches[c].Contents == old(caches[c].Contents)
      ensures !poisoned ==> val == Ok(KeyStep(old(caches[c].Contents), k, now, true).1)
      ensures !poisoned ==> caches[c].Contents == KeyStep(old(caches[c].Contents), k, now, true).0
      ensures forall d :: d in caches && d != c ==> caches[d].Contents == old(caches[d].Contents)
    {
      var cache := caches[c];
      val := cache.GetOrCreate(k, true, now, poisoned);
      forall d | d in caches && d != c
        ensures caches[d].Valid() && caches[d].Contents == old(caches[d].Contents)
      {
        LocalUntouched(caches[d]);
      }
    }

    /**
     * `Handler::handle` with the clock reading `now` and `poisoned`
     * telling whether the key's partition lock is poisoned: the caches
     * change and the response is given as `Decide` says.
     */
    method Handle(req: Request, now: nat, poisoned: bool) returns (resp: Response)
      requires Valid()
      modifies Repr
      ensures Valid()
      ensures (Tables(), resp) == Decide(req, old(Tables()), rates, now, poisoned)
    {
      if req.collection.None? {
        return HttpError(BadRequest, MISSING_COLLECTION);
      }
      var c := req.collection.value;
      if req.key.None? {
        return HttpError(BadRequest, MISSING_KEY);
      }
      var k := req.key.value;
      if c !in caches {
        return HttpError(BadRequest, NO_CACHE + c);
      }
      resp := Count(c, k, now, poisoned);
    }

    /**
     * The rest of `Handler::handle` once both parameters are present and
     * the collection has a cache: count the request, then compare with
     * the collection's rate.
     */
    method Count(c: string, k: string, now: nat, poisoned: bool) returns (resp: Response)
      requires Valid() && c in caches
      modifies Repr
      ensures Valid()
      ensures (Tables(), resp) == Decide(Request(Some(c), Some(k)), old(Tables()), rates, now, poisoned)
    {
      ghost var req := Request(Some(c), Some(k));
      ghost var before := Tables();
      var val := GetOrCreate(c, k, now, poisoned);
      if poisoned {
        TablesSame(this, before);
      } else {
        TablesStep(this, before, c);
      }
      Found(req, before, rates, now, poisoned);
      if val.Err? {
        return HttpError(InternalServerError, NO_GET + val.error.Display());
      }
      if c !in rates {
        return HttpError(InternalServerError, NO_CONFIG + c);
      }
      var cfg := rates[c];
      resp := Allowed(!(val.value > cfg.count));
    }
  }

  /**
   * The `handle_rate_tests` flow on a handler built from the rate of two
   * on "foo": three requests for "foobar" within one window answer
   * allowed, allowed, denied.
   */
  method HandlerRateOfTwo(hash: string -> nat, t0: nat, t1: nat, t2: nat) returns (answers: seq<Response>)
    requires AbsDiff(t1, t0) < DEFAULT_WINDOW && AbsDiff(t2, t0) < DEFAULT_WINDOW
    ensures answers == [Allowed(true), Allowed(true), Allowed(false)]
  {
    var rate := RateConfig("foo", 2, Duration(60, 0));
    var handler := new Handler(Config(map["foo" := rate], HARDCODED_TTL), hash);
    var req := Request(Some("foo"), Some("foobar"));
    ghost var tables := handler.Tables();
    RateOfTwo(tables, t0, t1, t2);
    var a := handler.Handle(req, t0, false);
    var b := handler.Handle(req, t1, false);
    var c := handler.Handle(req, t2, false);
    answers := [a, b, c];
  }

  /**
   * `handle_errors_tests`: a missing collection, a missing key and an
   * unknown collection are each a bad request naming the problem.
   */
  method HandlerErrors(hash: string -> nat, now: nat) returns (answers: seq<Response>)
    ensures answers == [HttpError(BadRequest, MISSING_COLLECTION), HttpError(BadRequest, MISSING_KEY),
                        HttpError(BadRequest, NO_CACHE + "foobar")]
  {
    var foo := RateConfig("foo", 100, Duration(60, 0));
    var bar := RateConfig("bar", 1000, Duration(30, 0));
    var configs := map["foo" := foo, "bar" := bar];
    assert "foobar" !in configs by {
      assert forall c :: c in configs ==> |c| == 3;
    }
    var handler := new Handler(Config(configs, HARDCODED_TTL), hash);
    var a := handler.Handle(Request(None, Some("foo")), now, false);
    var b := handler.Handle(Request(Some("foo"), None), now, false);
    var c := handler.Handle(Request(Some("foobar"), Some("bar")), now, false);
    answers := [a, b, c];
  }
}
