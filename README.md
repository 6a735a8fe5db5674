# pyre: a model of the rate limiter's core

pyre is an HTTP rate limiter. A request names a collection and a key, its
two path parameters (src/rest.rs:77-94); the route that carries them is not
part of this model. The request counts one hit for `key` in the named
collection's cache. The answer is
`{"allowed": true}` while the key's count in its current time bucket has not
gone above the collection's configured rate.

Each collection has its own cache (`Local`). A `Local` shards its keys over
`partition_count` key tables (`KeyMap`) by the low 32 bits of a 64-bit hash of
the key. For each key, a `KeyMap` holds a `TTLValues`: a map from bucket start
time to count. A timestamp goes into the newest bucket when it lies within
`window` of that bucket's start. Otherwise it counts in the bucket keyed by
its own time, opening that bucket at 1 if it does not exist.

The rate configuration is a string of comma-separated entries
`name=count:window`. Separately, a context linker is decoded from
YAML/JSON. It names linked contexts, and keeps only the references that point
to declared names.

The model has six modules:

- `Results`: `Option` and `Result`.
- `Text`: Rust's `str::split` on one character, and `u64::from_str`, with its
  overflow and error texts. It also renders naturals as decimal text.
- `LocalCache` (`src/cache/local.rs`):
  - the `Buckets` value and `TtlValues` class for `TTLValues`;
  - the `KeyStep` function and `KeyMap` class for `KeyMap::get_or_create`;
  - the `Local` class, whose ghost `Contents` is the single key table that the
    sharded partitions together behave as.
- `Config` (`src/config.rs`): parsing of the rate string into a `Config`.
- `Rest` (`src/rest.rs`): `Handler::new` and `Handler::handle`. Their
  specification is `Decide`, a function on the contents of every collection's
  cache.
- `Matcher` (`src/matcher.rs`): `ContextLinker::new`, as a loop proved against
  the fold `Build`, plus `get_context` and `get_ttls`.

Paths below are relative to the repository root.

## Model

| member | source | states |
|---|---|---|
| LocalCache.AbsDiff | src/cache/local.rs:50 | `u64::abs_diff`: adding the result to the smaller argument gives the larger |
| LocalCache.NewestExists | src/cache/local.rs:48 | a non-empty set of bucket keys has a largest key |
| LocalCache.Newest | src/cache/local.rs:48 | the key a BTreeMap's `next_back` yields is the largest key of a non-empty map |
| LocalCache.NewestInsert | src/cache/local.rs:47-72 | updating one bucket makes it the newest exactly when its key is at least the old newest (or the map was empty); otherwise the old newest stays |
| LocalCache.Buckets.FindBucket | src/cache/local.rs:47-60 | the bucket is the newest one when the timestamp is within `window` of it, and otherwise the timestamp itself; it is the only newest key that qualifies |
| LocalCache.Buckets.AfterInc | src/cache/local.rs:66-72 | `inc` adds the chosen bucket (if new), raises its stored count (0 when absent) by one, and keeps every other bucket and the window |
| LocalCache.Buckets.FindBucketIdempotent | src/cache/local.rs:47-60 | the bucket chosen for a bucket key is that key again |
| LocalCache.Buckets.AfterIncFindsBucket | src/cache/local.rs:66-77 | after `inc`, the returned bucket key finds its own bucket |
| LocalCache.Buckets.AfterIncGet | src/cache/local.rs:61-77 | after `inc`, the returned bucket reads back its old count plus one |
| LocalCache.Buckets.IncAndGet | src/cache/local.rs:74-77 | `inc_and_get` leaves the `inc` state and answers the old count of the chosen bucket plus one |
| LocalCache.FreshBucketInc | src/cache/local.rs:58-72 | the first increment of empty buckets opens one bucket at count 1 |
| LocalCache.AccumulatesIntoNewest | src/cache/local.rs:50-72 | a timestamp within the window of the newest bucket adds one to that bucket only |
| LocalCache.CountsInOwnBucket | src/cache/local.rs:50-72 | a timestamp outside the newest bucket's window counts in the bucket keyed by itself: an older bucket of that key goes up by one, and a missing one opens at 1 |
| LocalCache.OpensFreshBucket | src/cache/local.rs:50-72 | a timestamp a whole window past the newest bucket opens a new bucket at 1; older buckets keep their counts |
| LocalCache.BurstCounts | src/cache/local.rs:47-77 | starting empty, timestamps all within the window of the first land in one bucket that counts them all |
| LocalCache.SingleBucketInc | src/cache/local.rs:47-72 | an increment within the window of a single bucket adds one to it |
| LocalCache.BurstFrom | src/cache/local.rs:47-72 | n increments within the window of a single bucket add n to it |
| LocalCache.IncStep | src/cache/local.rs:47-72 | one increment given the newest bucket: the chosen bucket, the new map, and the new newest bucket |
| LocalCache.GetAfterOneInc | src/cache/local.rs:110-116 | `test_get`: after `inc(1000)`, `get(1000)` is 1 and `get(2000)` is 0 |
| LocalCache.IncAndGetAfterOneInc | src/cache/local.rs:118-124 | `test_inc_and_get`: after `inc(1000)`, `inc_and_get(1000)` is 2 and then `inc_and_get(2000)` is 1 |
| LocalCache.IncTraceUnfolds | src/cache/local.rs:126-133 | the five `test_inc` increments are five `inc` steps in order |
| LocalCache.IncTraceEarly | src/cache/local.rs:128-131 | `test_inc`'s first three increments leave buckets 1000→2 and 2000→1 |
| LocalCache.IncTraceThird | src/cache/local.rs:131 | `inc(2000)` is a full window past bucket 1000 and opens bucket 2000 |
| LocalCache.IncTraceFourth | src/cache/local.rs:132 | `inc(2999)` lies within bucket 2000's window and raises it to 2 |
| LocalCache.IncTraceFifth | src/cache/local.rs:133 | `inc(5005)` opens bucket 5005 at 1 |
| LocalCache.IncTraceLate | src/cache/local.rs:132-133 | the last two `test_inc` increments give buckets 1000→2, 2000→2, 5005→1 |
| LocalCache.IncTraceBuckets | src/cache/local.rs:126-133 | the whole `test_inc` sequence gives buckets 1000→2, 2000→2, 5005→1 |
| LocalCache.IncTraceReads | src/cache/local.rs:135-137 | those buckets read 2, 2 and 1 at 1000, 2000 and 5005 |
| LocalCache.IncTrace | src/cache/local.rs:126-138 | `test_inc`: the five increments with window 1000 read back 2, 2 and 1 |
| LocalCache.TtlValues.constructor | src/cache/local.rs:79-84 | `TTLValues::new(window)` has that window and no buckets |
| LocalCache.TtlValues.Default | src/cache/local.rs:87-94 | `TTLValues::default()` has the 60-second window and no buckets |
| LocalCache.TtlValues.Inc | src/cache/local.rs:66-72 | the in-place `inc` returns the chosen bucket and leaves the state `AfterInc` describes |
| LocalCache.TtlValues.IncAndGet | src/cache/local.rs:74-77 | the in-place `inc_and_get` leaves the `inc` state and answers the chosen bucket's new count |
| LocalCache.KeyStep | src/cache/local.rs:146-163 | the four cases of `KeyMap::get_or_create`: increment-and-read a known key, read it, create a default `TTLValues` at count 1, or answer 0 and change nothing; a create answers what the new table reads |
| LocalCache.KeyBurst | src/cache/local.rs:146-163 | creates of a new key, all within the default window of the first, leave it one bucket whose count is their number, which is also the last answer |
| LocalCache.KeyIncSingle | src/cache/local.rs:148-149 | a create within the window of a key's single bucket adds one to it and answers the new count |
| LocalCache.TraceFirst | src/cache/local.rs:175-181 | keymap test: the first "foo" create at 10000 answers 1 |
| LocalCache.TraceSecond | src/cache/local.rs:183-189 | "foo" at 10005 shares the bucket and answers 2 |
| LocalCache.TraceThird | src/cache/local.rs:191-197 | the first "bar" create answers 1 |
| LocalCache.TraceFourth | src/cache/local.rs:199-208 | "bar" at 10101 answers its previous value plus one |
| LocalCache.TraceFifth | src/cache/local.rs:210-219 | "foo" at 10050 answers its previous value plus one |
| LocalCache.TraceReads | src/cache/local.rs:221-252 | reads change nothing and answer "bar" 2, "foo" 3 and an unknown key 0 |
| LocalCache.TraceLate | src/cache/local.rs:254-263 | "foo" at 10150 is a window past its bucket and answers 1 |
| LocalCache.TraceNewKey | src/cache/local.rs:265-274 | a new key "foobar" answers 1 |
| LocalCache.KeyMap.constructor | src/cache/local.rs:142-144 | `KeyMap::new()` has no keys |
| LocalCache.KeyMap.GetOrCreate | src/cache/local.rs:146-163 | the in-place `get_or_create` leaves the table and answers the count that `KeyStep` gives |
| LocalCache.KeyMapScenario | src/cache/local.rs:171-275 | the whole keymap test answers 1, 2, 1, 2, 3, 2, 3, 0, 1, 1 |
| LocalCache.PartitionOf | src/cache/local.rs:306 | `hash as u32 % partition_count` is a valid partition index |
| LocalCache.PartitionLow32 | src/cache/local.rs:306 | only the low 32 bits of the hash choose the partition |
| LocalCache.NewPartitions | src/cache/local.rs:289-294 | `partition_count` fresh, distinct, empty key tables |
| LocalCache.ShardOf | src/cache/local.rs:306 | a key's partition under the hash is a valid index |
| LocalCache.ShardStep | src/cache/local.rs:304-329 | `get_or_create` on the key's partition answers as on the whole table and keeps the partitions a sharding of the new table |
| LocalCache.ShardUpdate | src/cache/local.rs:306-307 | updating a key in its own partition keeps the sharding |
| LocalCache.Local.EmptyValid | src/cache/local.rs:286-298 | a new cache of empty partitions is a valid, empty sharding |
| LocalCache.Local.constructor | src/cache/local.rs:286-298 | `Local::new(partition_count, ttl)` is an empty, valid cache with those settings and fresh partitions |
| LocalCache.Local.Default | src/cache/local.rs:332-346 | `Local::default()` is an empty, valid cache with 1024 partitions and ttl 300 |
| LocalCache.Local.GetOrCreate | src/cache/local.rs:304-329 | a poisoned lock gives the cache error and changes nothing; otherwise the cache answers and changes as `KeyStep` on its whole table; every other partition is unchanged |
| LocalCache.LocalUntouched | src/cache/local.rs:12-18 | a cache whose objects did not change keeps its validity and contents |
| LocalCache.EmptyUntouched | src/cache/local.rs:12-18 | a cache whose objects did not change stays empty |
| LocalCache.LocalScenario | src/cache/local.rs:369-387 | `test_get_or_create` on `Local::new(10, 30)` answers 1, 2, 1, then 0, for any hash |
| LocalCache.ConcurrentScenario | src/cache/local.rs:389-416 | ten creates of "foo" within one window, in the order the lock is taken, end with 10 |
| Text.Split | src/config.rs:53 | `str::split` on one character: at least one piece, no piece holds the separator, and exactly one piece when the text has no separator |
| Text.JoinSplit | src/config.rs:53 | joining the pieces with the separator gives back the text |
| Text.SplitJoin | src/config.rs:53 | splitting separator-free pieces joined by the separator gives back the pieces |
| Text.SplitAround | src/config.rs:53-62 | text before the first separator is split off as its own pieces |
| Text.SplitSep | src/config.rs:53-62 | a leading separator yields an empty first piece |
| Text.SplitCons | src/config.rs:53-62 | a leading non-separator character joins the first piece |
| Text.SplitFree | src/config.rs:53-62 | separator-free text splits into itself |
| Text.DigitValue | src/config.rs:72 | a digit's value is below 10 |
| Text.DigitChar | src/config.rs:72 | the digit for a value below 10 has that value |
| Text.ParseDigits | src/config.rs:72 | the digit loop of `u64::from_str` never yields a value above `u64::MAX` |
| Text.ParseU64 | src/config.rs:72 | `str::parse::<u64>` only yields values up to `u64::MAX` |
| Text.FoldGrows | src/config.rs:72 | adding digits never lowers the value |
| Text.FoldSnoc | src/config.rs:72 | appending a digit multiplies by ten and adds its value |
| Text.ParseDigitsFits | src/config.rs:72 | digits whose value fits in 64 bits parse to that value |
| Text.ParseDigitsOverflows | src/config.rs:72 | digits whose value does not fit give the overflow error |
| Text.NonDigitRejected | src/config.rs:72 | a non-digit gives an error |
| Text.ParseU64Accepts | src/config.rs:72 | `parse::<u64>` succeeds exactly on an optional `+` followed by at least one digit whose value fits in 64 bits, and then yields that value |
| Text.Decimal | src/config.rs:72 | decimal rendering is a non-empty digit string |
| Text.FoldDecimal | src/config.rs:72 | the digits of a natural's decimal text have the value of that natural |
| Text.ParseDecimal | src/config.rs:72 | `parse::<u64>` inverts decimal rendering up to `u64::MAX` |
| Config.ParseRate | src/config.rs:49-81 | `RateConfig::try_from`: "no rate config found" and "no window in rate" never happen; "no name in rate" exactly when there is no `=`; a parsed name has no `=` and its count fits in 64 bits |
| Config.FromNamePieces | src/config.rs:53-60 | popping the rate and then the name off the `=` pieces: no pieces gives "no rate config found", one piece gives "no name in rate" |
| Config.FromRatePieces | src/config.rs:62-79 | popping the window and then the count off the `:` pieces: no pieces gives "no window in rate"; a success carries the given name |
| Config.ParseShaped | src/config.rs:49-81 | for `name=count:window` with separator-free parts, the window is parsed first and then the count; each error carries its prefix |
| Config.EntryFree | src/config.rs:49-81 | an entry built from parts without a character holds none of that character besides the separators |
| Config.DecimalHasNoSeparator | src/config.rs:4-6 | decimal text holds none of the three separators |
| Config.ParseFormatted | src/config.rs:49-81 | parsing `name=count:window` printed from a rate gives back that rate (round trip) |
| Config.IgnoresEarlierNames | src/config.rs:53-60 | only the last two `=` pieces matter: a leading `prefix=` is ignored |
| Config.IgnoresEarlierCounts | src/config.rs:62-73 | only the last two `:` pieces matter: a leading `prefix:` is ignored |
| Config.SameLastPieces | src/config.rs:62-73 | rate pieces agreeing on their last two pieces parse the same |
| Config.NoCountSeparator | src/config.rs:62-71 | a rate without `:` fails on the window when that does not parse, and otherwise with "no count in rate" |
| Config.BadCount | src/config.rs:69-73 | an unparsable count gives "parse rate count: " and the integer error |
| Config.Collect | src/config.rs:33-37 | collecting results succeeds exactly when every item succeeds, keeping the values in order; otherwise it gives the first error |
| Config.CollectOne | src/config.rs:33-37 | collecting one result |
| Config.CollectTwo | src/config.rs:33-37 | collecting two results: the first error wins |
| Config.ToMapKeys | src/config.rs:38-40 | the map's keys are the names of the rates |
| Config.ToMapLast | src/config.rs:38-40 | a name's last rate is the one stored under it |
| Config.ToMapOne | src/config.rs:38-40 | the map of one rate |
| Config.ToMapTwo | src/config.rs:38-40 | the map of two rates, the second overriding the first on a clash |
| Config.ParseConfig | src/config.rs:27-47 | `Config::try_from`: every success has the hard-coded ttl of 30 |
| Config.ParseJoined | src/config.rs:27-47 | parsing comma-joined entries is the first entry error, or the map of the parsed rates with ttl 30 |
| Config.EmptyConfig | src/config.rs:121-124 | the empty string gives "no name in rate" |
| Config.OneEntry | src/config.rs:27-47 | a single entry gives its error or a one-rate map |
| Config.TwoEntries | src/config.rs:27-47 | two entries give the first error, or the map of both |
| Config.TwoConfigs | src/config.rs:101-120 | `valid_two_configs`: "foo" with 100 per 60 s and "bar" with 1000 per 30 s, and ttl 30 |
| Config.FooEntry | src/config.rs:102 | the "foo" entry parses to 100 per 60 s |
| Config.BarEntry | src/config.rs:102 | the "bar" entry parses to 1000 per 30 s |
| Config.ShapedLiteral | src/config.rs:49-81 | a well-formed entry with a digit count parses to its name, count and window |
| Config.NoNameSeparatorCase | src/config.rs:125-128 | `"100:1m"` gives "no name in rate" |
| Config.NoValSeparatorCase | src/config.rs:129-132 | `"foo=100"` gives "no count in rate" when "100" parses as a duration |
| Config.BadDurationCase | src/config.rs:133-136 | `"foo=100:50 minuten"` gives "parse window: " followed by the duration parser's message |
| Rest.StatusCode.Code | src/rest.rs:77-128 | bad requests are 4xx and internal errors 5xx |
| Rest.Decide | src/rest.rs:68-137 | `handle`'s checks in order: missing collection, missing key, unknown collection (all 400, nothing changes), a poisoned lock (500, nothing changes). Otherwise the hit is always counted in the collection's cache; the answer is `Allowed` exactly when the collection has a rate (else 500 "cannot find config"), and it allows exactly when the new count does not exceed the rate |
| Rest.ConsumedWithoutRate | src/rest.rs:108-128 | a collection with a cache and no rate still counts the hit before answering 500 |
| Rest.NextRequest | src/rest.rs:108-136 | a key's next request in its window, or its first request, raises its count to n+1 and is allowed exactly when n+1 ≤ the rate |
| Rest.StaysDenied | src/rest.rs:108-136 | once denied, a repeat of the request at the same time is denied again |
| Rest.RateOfTwo | src/rest.rs:237-241 | with rate 2, three requests within one window are allowed, allowed, denied |
| Rest.ApartExtend | src/rest.rs:49-62 | adding a fresh cache keeps the caches distinct and their footprints disjoint |
| Rest.NewCaches | src/rest.rs:49-62 | one fresh, empty cache with 1024 partitions and the config's ttl per configured collection |
| Rest.AddCache | src/rest.rs:53-61 | one loop step of `Handler::new`: the new cache joins the others, and every cache stays empty |
| Rest.TablesSame | src/rest.rs:15 | caches whose contents did not change give the same tables |
| Rest.TablesStep | src/rest.rs:15 | a change to one cache's contents is an update of the tables at that collection |
| Rest.Handler.constructor | src/rest.rs:49-65 | `Handler::new`: a cache for exactly the configured collections, each empty with 1024 partitions and the config's ttl; the rates are the configured ones |
| Rest.Handler.GetOrCreate | src/rest.rs:108-115 | counting one hit in a collection's cache: a poisoned lock gives the lock error; otherwise the hit is counted as `KeyStep` says; no other collection changes |
| Rest.Handler.Handle | src/rest.rs:68-137 | the handler's response and new cache contents are those `Decide` gives |
| Rest.Handler.Count | src/rest.rs:108-136 | from the cache lookup on, the response and new contents are those `Decide` gives |
| Rest.HandlerRateOfTwo | src/rest.rs:187-241 | `handle_rate_tests` on a real handler: rate 2 gives allowed, allowed, denied |
| Rest.HandlerErrors | src/rest.rs:244-319 | `handle_errors_tests`: a missing collection, a missing key, and the unknown collection "foobar" give their 400 errors |
| Matcher.Keep | src/matcher.rs:51-56 | the filter keeps only references to declared names, and all of them |
| Matcher.KeepAppend | src/matcher.rs:51-56 | the filter distributes over concatenation, keeping the order |
| Matcher.KeepOne | src/matcher.rs:51-56 | one reference is kept exactly when its name is declared |
| Matcher.KeepDeclared | src/matcher.rs:51-56 | references that are all declared are kept unchanged |
| Matcher.KeepUndeclared | src/matcher.rs:51-56 | references that are none of them declared all go |
| Matcher.New | src/matcher.rs:38-65 | `ContextLinker::new`: a decode error is returned as is; otherwise the loop's result is `Build` of the config |
| Matcher.BuiltKeys | src/matcher.rs:44-61 | after n iterations, both maps hold exactly the first n names, and the sweep is the config's |
| Matcher.BuiltLatest | src/matcher.rs:47-61 | a name's last declaration wins in both maps: its filtered references, its count and its ttl |
| Matcher.BuiltTargetsDeclared | src/matcher.rs:47-61 | every stored reference names a declared linker |
| Matcher.BuildKeys | src/matcher.rs:38-65 | a name is stored exactly when declared, the ttls have the same names, and the sweep is the config's |
| Matcher.BuildClosed | src/matcher.rs:38-65 | every stored reference points to a stored name |
| Matcher.GetContextBuilt | src/matcher.rs:47-74 | `get_context` on a declared name gives its last declaration's filtered link, and `get_ttls` gives its ttl |
| Matcher.GetContextUndeclared | src/matcher.rs:68-74 | an undeclared name has no link and no ttl |
| Matcher.OneLinkerNoContextMatch | src/matcher.rs:105-135 | one linker whose only reference names nothing keeps no references |
| Matcher.TwoLinkersOneContextRef | src/matcher.rs:136-181 | "foo"→["bar"] holds, and "bar"→["foobar"] is dropped |
| Matcher.ThreeLinkersWithReferences | src/matcher.rs:182-240 | three linkers that reference one another keep every reference |

## Left out

- The HTTP server is not modelled: actix routing, JSON bodies, tracing spans and events, and `src/main.rs` wiring. A request is its two optional path parameters; a response is the `allowed` flag or an error with its status and message.
- Decoding YAML/JSON with `serde_yaml` is not modelled. `Matcher.New` takes the decoder's result, so an invalid document (test `context_linker_invalid_json`, src/matcher.rs:100-104) is its `Err` case.
- `parse_duration::parse` is a function parameter to the config parser. Its grammar ("1 minute", "30 seconds") is not modelled: `Config.BadDurationCase` takes the parser's own message, and `Config.TwoConfigs` requires the parser to give the two durations.
- `Config.NoValSeparatorCase`: the code tries the duration before the count, so `"foo=100"` fails with "no count in rate" only when "100" parses as a duration. The lemma requires that it does, as `parse_duration` does for a bare number.
- The clock becomes a `now` parameter to each call.
- The xxh3 hash becomes a function `hash` given to `Local` at construction. Every scenario holds for any hash.
- Threads and mutexes are not modelled. A poisoned partition lock is a boolean parameter, and its `PoisonError` text is a constant. `ConcurrentScenario` is a sequence of calls, in the order the lock is taken.
- `Local::get_or_create` has `partition_count > 0` as a precondition: with 0 partitions the Rust `%` panics.
- `KeyMap` holds each key's `TTLValues` as a `Buckets` value rather than as a separate object. The source owns them by value in its map, so there is no aliasing to lose.
- Timestamps and counts are unbounded naturals: u64 wrap-around of `get(bucket) + 1` and of timestamps is not modelled. Count parsing does check the u64 bound.
- `Local::ttl` is kept as a field, but nothing in this core reads it.
- `Handler::new` (src/rest.rs:53-60) calls a four-argument `Local::new` and `start_lru`/`start_clock`, none of which exist in src/cache/local.rs. Their sweeping and background clock are not part of this model. The handler's caches are built with the two-argument `Local::new` (1024 partitions, the config's ttl). The rate's window is not passed on, so every key uses the default 60-second `TTLValues` window, as `KeyMap::get_or_create` does.
- A `HashMap`'s iteration order is not modelled. `Handler::new` builds its caches over the set of configured names in any order; the result does not depend on it.
- `LocalCache.Buckets.Get`, `LocalCache.Buckets.Stored`, `LocalCache.CacheError.Display`, `Config.ToMap`, `Matcher.Declares`, `Matcher.Insert`, `Matcher.Built` and `Matcher.Build` are definitions without contracts of their own, so they have no rows. Their meaning is stated by other lemmas:
  - `get` (src/cache/local.rs:61-64) and its `unwrap_or(&0)`: `LocalCache.Buckets.AfterIncGet`, `LocalCache.KeyStep` and `LocalCache.IncTraceReads`;
  - the `CacheError` text (src/cache/local.rs:40-44): `LocalCache.Local.GetOrCreate` and `Rest.Decide`;
  - the `HashMap` collect (src/config.rs:38-40): `Config.ToMapKeys` and `Config.ToMapLast`;
  - the loop of `ContextLinker::new` (src/matcher.rs:41-61) and its `any` test (src/matcher.rs:54): `Matcher.New`, `Matcher.BuiltKeys`, `Matcher.BuiltLatest`, `Matcher.BuildKeys` and `Matcher.Keep`.
- `Matcher.ContextLinker.GetContext` and `Matcher.ContextLinker.GetTtls` are plain map lookups and have no rows of their own. What they return for a built linker is stated by `Matcher.GetContextBuilt` and `Matcher.GetContextUndeclared`.
- The code has no ring of sub-interval counters, no weighted links between contexts that add into a request's decision, and no background sweeper that evicts idle keys, so the model has none either. `TTLValues` keeps a growing map of buckets. `ContextLinker` only stores links, and `handle` never reads them. No sweeper exists, so `sweep_seconds` is only stored.
- A link to an undeclared context does not fail construction: `ContextLinker::new` drops such references silently (`Matcher.Keep`), and the model does the same.
- The benchmarks (`bench_get_or_create_concurrent`, the Go load generator) measure time and are not modelled.
