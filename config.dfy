/**
 * The textual rate configuration: entries `name=count:window` separated
 * by commas. The duration parser (`parse_duration::parse`) is a parameter.
 */
module Config {
  import opened Results
  import opened Text

  const NAME_SEPARATOR: char := '='
  const VAL_DURATION_SEPARATOR: char := ':'
  const RATE_SEPARATOR: char := ','
  const HARDCODED_TTL: nat := 30

  /** `std::time::Duration`: whole seconds and the nanosecond remainder. */
  datatype Duration = Duration(secs: nat, nanos: nat)

  datatype ConfigError = ConfigError(msg: string)

  datatype RateConfig = RateConfig(name: string, count: nat, window: Duration)

  datatype Config = Config(configs: map<string, RateConfig>, ttlSeconds: nat)

  /** A duration parser: the text to a duration or the displayed error. */
  type DurationParser = string -> Result<Duration, string>

  /** The last element of a non-empty sequence: what `pop` removes. */
  function Last<T>(s: seq<T>): T
    requires |s| > 0
  {
    s[|s| - 1]
  }

  /** What is left after `pop`. */
  function Init<T>(s: seq<T>): seq<T>
    requires |s| > 0
  {
    s[..|s| - 1]
  }

  /**
   * `RateConfig::try_from(&str)`: the rate is the last `=`-piece and the
   * name the one before it; in the rate, the window is the last `:`-piece
   * and the count the one before it. The window is parsed first.
   */
  function ParseRate(value: string, parseDuration: DurationParser): (r: Result<RateConfig, ConfigError>)
    ensures r != Err(ConfigError("no rate config found"))
    ensures r != Err(ConfigError("no window in rate"))
    ensures r == Err(ConfigError("no name in rate")) <==> NAME_SEPARATOR !in value
    ensures r.Ok? ==> NAME_SEPARATOR !in r.value.name && r.value.count <= U64_MAX
  {
    FromNamePieces(Split(value, NAME_SEPARATOR), parseDuration)
  }

  /** The steps after splitting on `=`: pop the rate, then the name. */
  function FromNamePieces(nameSplit: seq<string>, parseDuration: DurationParser): (r: Result<RateConfig, ConfigError>)
    requires forall i :: 0 <= i < |nameSplit| ==> NAME_SEPARATOR !in nameSplit[i]
    ensures r != Err(ConfigError("no window in rate"))
    ensures r == Err(ConfigError("no rate config found")) <==> |nameSplit| == 0
    ensures r == Err(ConfigError("no name in rate")) <==> |nameSplit| == 1
    ensures r.Ok? ==> NAME_SEPARATOR !in r.value.name && r.value.count <= U64_MAX
  {
    if |nameSplit| == 0 then Err(ConfigError("no rate config found"))
    else
      var rate := Last(nameSplit);
      var names := Init(nameSplit);
      if |names| == 0 then Err(ConfigError("no name in rate"))
      else
        var name := Last(names);
        FromRatePieces(name, Split(rate, VAL_DURATION_SEPARATOR), parseDuration)
  }

  /** The steps after splitting the rate on `:`: pop and parse the window, then the count. */
  function FromRatePieces(name: string, rateSplit: seq<string>, parseDuration: DurationParser): (r: Result<RateConfig, ConfigError>)
    ensures r == Err(ConfigError("no window in rate")) <==> |rateSplit| == 0
    ensures r != Err(ConfigError("no rate config found")) && r != Err(ConfigError("no name in rate"))
    ensures r.Ok? ==> r.value.name == name && r.value.count <= U64_MAX
  {
    if |rateSplit| == 0 then Err(ConfigError("no window in rate"))
    else
      var counts := Init(rateSplit);
      match parseDuration(Last(rateSplit))
      case Err(e) =>
        var msg := "parse window: " + e;
        assert msg[0] == 'p';
        Err(ConfigError(msg))
      case Ok(window) =>
        if |counts| == 0 then Err(ConfigError("no count in rate"))
        else
          match ParseU64(Last(counts))
          case Err(e) =>
            var msg := "parse rate count: " + e;
            assert msg[0] == 'p';
            Err(ConfigError(msg))
          case Ok(count) => Ok(RateConfig(name, count, window))
  }

  /**
   * An entry `name=count:window` whose pieces hold no separator: the
   * window is parsed first, then the count.
   */
  lemma ParseShaped(name: string, count: string, window: string, parseDuration: DurationParser)
    requires NAME_SEPARATOR !in name && NAME_SEPARATOR !in count && NAME_SEPARATOR !in window
    requires VAL_DURATION_SEPARATOR !in count && VAL_DURATION_SEPARATOR !in window
    ensures ParseRate(Entry(name, count, window), parseDuration)
         == match parseDuration(window)
            case Err(e) => Err(ConfigError("parse window: " + e))
            case Ok(d) =>
              match ParseU64(count)
              case Err(e) => Err(ConfigError("parse rate count: " + e))
              case Ok(n) => Ok(RateConfig(name, n, d))
  {
    var rate := count + [VAL_DURATION_SEPARATOR] + window;
    assert name + [NAME_SEPARATOR] + count + [VAL_DURATION_SEPARATOR] + window == name + [NAME_SEPARATOR] + rate;
    assert NAME_SEPARATOR !in rate;
    SplitAround(name, rate, NAME_SEPARATOR);
    SplitFree(name, NAME_SEPARATOR);
    SplitFree(rate, NAME_SEPARATOR);
    assert Split(name + [NAME_SEPARATOR] + rate, NAME_SEPARATOR) == [name, rate];
    SplitAround(count, window, VAL_DURATION_SEPARATOR);
    SplitFree(count, VAL_DURATION_SEPARATOR);
    SplitFree(window, VAL_DURATION_SEPARATOR);
    assert Split(rate, VAL_DURATION_SEPARATOR) == [count, window];
  }

  /** The entry text `name=count:window`. */
  function Entry(name: string, count: string, window: string): string
  {
    name + [NAME_SEPARATOR] + count + [VAL_DURATION_SEPARATOR] + window
  }

  /** A character in none of the pieces and neither separator is not in the entry. */
  lemma EntryFree(name: string, count: string, window: string, c: char)
    requires c != NAME_SEPARATOR && c != VAL_DURATION_SEPARATOR
    requires c !in name && c !in count && c !in window
    ensures c !in Entry(name, count, window)
  {
  }

  /** `name=count:window` with the count in decimal. */
  function FormatRate(name: string, count: nat, window: string): string
  {
    Entry(name, Decimal(count), window)
  }

  /** A digit is neither separator. */
  lemma DecimalHasNoSeparator(n: nat)
    ensures NAME_SEPARATOR !in Decimal(n) && VAL_DURATION_SEPARATOR !in Decimal(n)
    ensures RATE_SEPARATOR !in Decimal(n)
  {
    var d := Decimal(n);
    assert forall i :: 0 <= i < |d| ==> IsDigit(d[i]);
  }

  /** Parsing a formatted entry gives back its name, count and window. */
  lemma ParseFormatted(name: string, count: nat, window: string, d: Duration, parseDuration: DurationParser)
    requires NAME_SEPARATOR !in name
    requires NAME_SEPARATOR !in window && VAL_DURATION_SEPARATOR !in window
    requires count <= U64_MAX && parseDuration(window) == Ok(d)
    ensures ParseRate(FormatRate(name, count, window), parseDuration) == Ok(RateConfig(name, count, d))
  {
    DecimalHasNoSeparator(count);
    ParseShaped(name, Decimal(count), window, parseDuration);
    ParseDecimal(count);
  }

  /** Pieces before the last two `=`-pieces are ignored. */
  lemma IgnoresEarlierNames(prefix: string, value: string, parseDuration: DurationParser)
    requires NAME_SEPARATOR !in prefix && NAME_SEPARATOR in value
    ensures ParseRate(prefix + [NAME_SEPARATOR] + value, parseDuration) == ParseRate(value, parseDuration)
  {
    SplitAround(prefix, value, NAME_SEPARATOR);
    SplitFree(prefix, NAME_SEPARATOR);
    var parts := Split(value, NAME_SEPARATOR);
    var all := [prefix] + parts;
    assert Last(all) == Last(parts);
    assert Last(Init(all)) == Last(Init(parts));
  }

  /** In the rate, pieces before the last two `:`-pieces are ignored. */
  lemma IgnoresEarlierCounts(name: string, prefix: string, rate: string, parseDuration: DurationParser)
    requires VAL_DURATION_SEPARATOR !in prefix && VAL_DURATION_SEPARATOR in rate
    ensures FromRatePieces(name, Split(prefix + [VAL_DURATION_SEPARATOR] + rate, VAL_DURATION_SEPARATOR), parseDuration)
         == FromRatePieces(name, Split(rate, VAL_DURATION_SEPARATOR), parseDuration)
  {
    SplitAround(prefix, rate, VAL_DURATION_SEPARATOR);
    SplitFree(prefix, VAL_DURATION_SEPARATOR);
    var parts := Split(rate, VAL_DURATION_SEPARATOR);
    var all := [prefix] + parts;
    assert |parts| >= 2;
    assert Last(all) == Last(parts);
    assert Init(all) == [prefix] + Init(parts);
    assert Last(Init(all)) == Last(Init(parts));
    SameLastPieces(name, all, parts, parseDuration);
  }

  /** Only the last two pieces of a rate are read. */
  lemma SameLastPieces(name: string, a: seq<string>, b: seq<string>, parseDuration: DurationParser)
    requires |a| >= 2 && |b| >= 2
    requires Last(a) == Last(b) && Last(Init(a)) == Last(Init(b))
    ensures FromRatePieces(name, a, parseDuration) == FromRatePieces(name, b, parseDuration)
  {
  }

  /**
   * With a name but no `:`, the whole rate is taken for the window: a
   * window error is reported as such, otherwise the count is missing.
   */
  lemma NoCountSeparator(name: string, rate: string, parseDuration: DurationParser)
    requires NAME_SEPARATOR !in name && NAME_SEPARATOR !in rate && VAL_DURATION_SEPARATOR !in rate
    ensures ParseRate(name + [NAME_SEPARATOR] + rate, parseDuration)
         == match parseDuration(rate)
            case Err(e) => Err(ConfigError("parse window: " + e))
            case Ok(_) => Err(ConfigError("no count in rate"))
  {
    SplitAround(name, rate, NAME_SEPARATOR);
    SplitFree(name, NAME_SEPARATOR);
    SplitFree(rate, NAME_SEPARATOR);
    assert Split(name + [NAME_SEPARATOR] + rate, NAME_SEPARATOR) == [name, rate];
    SplitFree(rate, VAL_DURATION_SEPARATOR);
  }

  /** A count that is not a u64 is reported with the integer parser's error. */
  lemma BadCount(name: string, count: string, window: string, d: Duration, parseDuration: DurationParser)
    requires NAME_SEPARATOR !in name && NAME_SEPARATOR !in count && NAME_SEPARATOR !in window
    requires VAL_DURATION_SEPARATOR !in count && VAL_DURATION_SEPARATOR !in window
    requires parseDuration(window) == Ok(d) && ParseU64(count).Err?
    ensures ParseRate(Entry(name, count, window), parseDuration)
         == Err(ConfigError("parse rate count: " + ParseU64(count).error))
  {
    ParseShaped(name, count, window, parseDuration);
  }

  /**
   * `collect::<Result<Vec<_>, _>>()`: all the values, in order, or the
   * first error.
   */
  function Collect<T, E>(rs: seq<Result<T, E>>): (r: Result<seq<T>, E>)
    ensures r.Ok? <==> forall i :: 0 <= i < |rs| ==> rs[i].Ok?
    ensures r.Ok? ==> |r.value| == |rs| && forall i :: 0 <= i < |rs| ==> rs[i] == Ok(r.value[i])
    ensures r.Err? ==>
      exists i :: 0 <= i < |rs| && rs[i] == Err(r.error) && forall j :: 0 <= j < i ==> rs[j].Ok?
    decreases |rs|
  {
    if rs == [] then Ok([])
    else
      match rs[0]
      case Err(e) => Err(e)
      case Ok(v) =>
        var rest := Collect(rs[1..]);
        assert forall i :: 1 <= i < |rs| ==> rs[i] == rs[1..][i - 1];
        match rest
        case Err(e) =>
          ghost var i :| 0 <= i < |rs[1..]| && rs[1..][i] == Err(e)
            && forall j :: 0 <= j < i ==> rs[1..][j].Ok?;
          assert rs[i + 1] == Err(e);
          Err(e)
        case Ok(vs) => Ok([v] + vs)
  }

  /** Collecting one result. */
  lemma CollectOne<T, E>(x: Result<T, E>)
    ensures Collect([x]) == match x case Err(e) => Err(e) case Ok(v) => Ok([v])
  {
    assert [x][1..] == [];
    assert Collect<T, E>([]) == Ok([]);
    match x {
      case Err(e) =>
      case Ok(v) => assert [v] + [] == [v];
    }
  }

  /** Collecting two results: the first error, or both values. */
  lemma CollectTwo<T, E>(x: Result<T, E>, y: Result<T, E>)
    ensures Collect([x, y])
         == match (x, y)
            case (Err(e), _) => Err(e)
            case (Ok(_), Err(e)) => Err(e)
            case (Ok(a), Ok(b)) => Ok([a, b])
  {
    assert [x, y][1..] == [y];
    CollectOne(y);
    match (x, y) {
      case (Err(e), _) =>
      case (Ok(_), Err(e)) =>
      case (Ok(a), Ok(b)) => assert [a] + [b] == [a, b];
    }
  }

  /** The name-keyed map `collect` builds: each later config replaces an earlier one. */
  function ToMap(rcs: seq<RateConfig>): map<string, RateConfig>
    decreases |rcs|
  {
    if rcs == [] then map[] else ToMap(Init(rcs))[Last(rcs).name := Last(rcs)]
  }

  /** Every name is a key, and every key is a name. */
  lemma {:induction false} ToMapKeys(rcs: seq<RateConfig>)
    ensures ToMap(rcs).Keys == set i | 0 <= i < |rcs| :: rcs[i].name
    decreases |rcs|
  {
    if rcs != [] {
      var init := Init(rcs);
      ToMapKeys(init);
      var names := set i | 0 <= i < |rcs| :: rcs[i].name;
      var initNames := set i | 0 <= i < |init| :: init[i].name;
      assert names == initNames + {Last(rcs).name} by {
        forall k | k in names
          ensures k in initNames + {Last(rcs).name}
        {
          var i :| 0 <= i < |rcs| && rcs[i].name == k;
          if i < |init| {
            assert init[i] == rcs[i];
          }
        }
        forall k | k in initNames
          ensures k in names
        {
          var i :| 0 <= i < |init| && init[i].name == k;
          assert rcs[i] == init[i];
        }
      }
    }
  }

  /** A name is bound to the config of its last occurrence. */
  lemma {:induction false} ToMapLast(rcs: seq<RateConfig>, i: nat)
    requires i < |rcs|
    requires forall j :: i < j < |rcs| ==> rcs[j].name != rcs[i].name
    ensures rcs[i].name in ToMap(rcs) && ToMap(rcs)[rcs[i].name] == rcs[i]
    decreases |rcs|
  {
    if i < |rcs| - 1 {
      var init := Init(rcs);
      assert init[i] == rcs[i];
      assert forall j :: i < j < |init| ==> init[j].name != init[i].name by {
        forall j | i < j < |init|
          ensures init[j].name != init[i].name
        {
          assert init[j] == rcs[j];
        }
      }
      ToMapLast(init, i);
    }
  }

  /** One config maps its name to itself. */
  lemma ToMapOne(a: RateConfig)
    ensures ToMap([a]) == map[a.name := a]
  {
    assert Init([a]) == [];
  }

  /** Of two configs, the second's name is bound last. */
  lemma ToMapTwo(a: RateConfig, b: RateConfig)
    ensures ToMap([a, b]) == map[a.name := a][b.name := b]
  {
    assert Init([a, b]) == [a];
    ToMapOne(a);
  }

  /** The parse of every comma-separated entry, in order. */
  function ParseEntries(entries: seq<string>, parseDuration: DurationParser): (rs: seq<Result<RateConfig, ConfigError>>)
    ensures |rs| == |entries| && forall i :: 0 <= i < |entries| ==> rs[i] == ParseRate(entries[i], parseDuration)
  {
    seq(|entries|, i requires 0 <= i < |entries| => ParseRate(entries[i], parseDuration))
  }

  /** `Config::try_from(String)`: every entry parsed, names mapped, TTL 30. */
  function ParseConfig(value: string, parseDuration: DurationParser): (r: Result<Config, ConfigError>)
    ensures r.Ok? ==> r.value.ttlSeconds == HARDCODED_TTL
  {
    match Collect(ParseEntries(Split(value, RATE_SEPARATOR), parseDuration))
    case Err(e) => Err(e)
    case Ok(rcs) => Ok(Config(ToMap(rcs), HARDCODED_TTL))
  }

  /** A comma-joined configuration is parsed entry by entry. */
  lemma ParseJoined(entries: seq<string>, parseDuration: DurationParser)
    requires |entries| >= 1
    requires forall i :: 0 <= i < |entries| ==> RATE_SEPARATOR !in entries[i]
    ensures ParseConfig(Join(entries, RATE_SEPARATOR), parseDuration)
         == match Collect(ParseEntries(entries, parseDuration))
            case Err(e) => Err(e)
            case Ok(rcs) => Ok(Config(ToMap(rcs), HARDCODED_TTL))
  {
    SplitJoin(entries, RATE_SEPARATOR);
  }

  /** The empty configuration has one empty entry, which has no name. */
  lemma EmptyConfig(parseDuration: DurationParser)
    ensures ParseConfig("", parseDuration) == Err(ConfigError("no name in rate"))
  {
    assert Split("", RATE_SEPARATOR) == [""];
  }

  /** A configuration of one entry maps that entry's name to it. */
  lemma OneEntry(entry: string, parseDuration: DurationParser)
    requires RATE_SEPARATOR !in entry
    ensures ParseConfig(entry, parseDuration)
         == match ParseRate(entry, parseDuration)
            case Err(e) => Err(e)
            case Ok(rc) => Ok(Config(map[rc.name := rc], HARDCODED_TTL))
  {
    SplitFree(entry, RATE_SEPARATOR);
    var rs := ParseEntries([entry], parseDuration);
    assert rs == [ParseRate(entry, parseDuration)];
    CollectOne(rs[0]);
    if rs[0].Ok? {
      ToMapOne(rs[0].value);
    }
  }

  /** Two comma-separated entries, the second's name winning a tie. */
  lemma TwoEntries(first: string, second: string, parseDuration: DurationParser)
    requires RATE_SEPARATOR !in first && RATE_SEPARATOR !in second
    ensures ParseConfig(first + [RATE_SEPARATOR] + second, parseDuration)
         == match (ParseRate(first, parseDuration), ParseRate(second, parseDuration))
            case (Err(e), _) => Err(e)
            case (Ok(_), Err(e)) => Err(e)
            case (Ok(a), Ok(b)) => Ok(Config(map[a.name := a][b.name := b], HARDCODED_TTL))
  {
    SplitAround(first, second, RATE_SEPARATOR);
    SplitFree(first, RATE_SEPARATOR);
    SplitFree(second, RATE_SEPARATOR);
    var entries := [first, second];
    assert Split(first + [RATE_SEPARATOR] + second, RATE_SEPARATOR) == entries;
    var rs := ParseEntries(entries, parseDuration);
    assert rs == [ParseRate(first, parseDuration), ParseRate(second, parseDuration)];
    CollectTwo(rs[0], rs[1]);
    if rs[0].Ok? && rs[1].Ok? {
      ToMapTwo(rs[0].value, rs[1].value);
    }
  }

  /** The `valid_two_configs` case, "foo=100:1 minute,bar=1000:30 seconds". */
  lemma TwoConfigs(parseDuration: DurationParser)
    requires parseDuration("1 minute") == Ok(Duration(60, 0))
    requires parseDuration("30 seconds") == Ok(Duration(30, 0))
    ensures ParseConfig(Entry("foo", "100", "1 minute") + [RATE_SEPARATOR] + Entry("bar", "1000", "30 seconds"), parseDuration)
         == Ok(Config(map["foo" := RateConfig("foo", 100, Duration(60, 0)),
                          "bar" := RateConfig("bar", 1000, Duration(30, 0))], HARDCODED_TTL))
  {
    FooEntry(parseDuration);
    BarEntry(parseDuration);
    TwoEntries(Entry("foo", "100", "1 minute"), Entry("bar", "1000", "30 seconds"), parseDuration);
  }

  /** The first entry of `valid_two_configs`. */
  lemma FooEntry(parseDuration: DurationParser)
    requires parseDuration("1 minute") == Ok(Duration(60, 0))
    ensures RATE_SEPARATOR !in Entry("foo", "100", "1 minute")
    ensures ParseRate(Entry("foo", "100", "1 minute"), parseDuration) == Ok(RateConfig("foo", 100, Duration(60, 0)))
  {
    ShapedLiteral("foo", "100", "1 minute", 100, parseDuration);
    EntryFree("foo", "100", "1 minute", RATE_SEPARATOR);
  }

  /** The second entry of `valid_two_configs`. */
  lemma BarEntry(parseDuration: DurationParser)
    requires parseDuration("30 seconds") == Ok(Duration(30, 0))
    ensures RATE_SEPARATOR !in Entry("bar", "1000", "30 seconds")
    ensures ParseRate(Entry("bar", "1000", "30 seconds"), parseDuration) == Ok(RateConfig("bar", 1000, Duration(30, 0)))
  {
    ShapedLiteral("bar", "1000", "30 seconds", 1000, parseDuration);
    EntryFree("bar", "1000", "30 seconds", RATE_SEPARATOR);
  }

  /** A well-formed entry given as the pieces of its text. */
  lemma ShapedLiteral(name: string, count: string, window: string, n: nat, parseDuration: DurationParser)
    requires forall i :: 0 <= i < |name| ==> name[i] != NAME_SEPARATOR
    requires forall i :: 0 <= i < |count| ==> IsDigit(count[i])
    requires forall i :: 0 <= i < |window| ==> window[i] != NAME_SEPARATOR && window[i] != VAL_DURATION_SEPARATOR
    requires ParseU64(count) == Ok(n) && parseDuration(window).Ok?
    ensures ParseRate(Entry(name, count, window), parseDuration)
         == Ok(RateConfig(name, n, parseDuration(window).value))
  {
    ParseShaped(name, count, window, parseDuration);
  }

  /** The `no_name_separator` case. */
  lemma NoNameSeparatorCase(parseDuration: DurationParser)
    ensures ParseConfig("100:1m", parseDuration) == Err(ConfigError("no name in rate"))
  {
    var s := "100:1m";
    assert RATE_SEPARATOR !in s && NAME_SEPARATOR !in s;
    SplitFree(s, RATE_SEPARATOR);
  }

  /** The `no_val_separator` case: "100" is a valid duration, the count is missing. */
  lemma NoValSeparatorCase(parseDuration: DurationParser)
    requires parseDuration("100").Ok?
    ensures ParseConfig("foo" + [NAME_SEPARATOR] + "100", parseDuration) == Err(ConfigError("no count in rate"))
  {
    var s := "foo" + [NAME_SEPARATOR] + "100";
    assert RATE_SEPARATOR !in "foo" && RATE_SEPARATOR !in "100";
    SplitFree(s, RATE_SEPARATOR);
    NoCountSeparator("foo", "100", parseDuration);
  }

  /**
   * The `bad_duration` case: the duration parser's own message, after
   * "parse window: ".
   */
  lemma BadDurationCase(parseDuration: DurationParser, e: string)
    requires parseDuration("50 minuten") == Err(e)
    ensures ParseConfig(Entry("foo", "100", "50 minuten"), parseDuration)
         == Err(ConfigError("parse window: " + e))
  {
    ParseShaped("foo", "100", "50 minuten", parseDuration);
    EntryFree("foo", "100", "50 minuten", RATE_SEPARATOR);
    OneEntry(Entry("foo", "100", "50 minuten"), parseDuration);
  }
}
