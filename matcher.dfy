/**
 * The context linker: named linkers, each with a rate and a list of
 * other linkers it refers to. YAML decoding is outside the model: the
 * construction takes the decoded configuration, or the decoder's error.
 */
module Matcher {
  import opened Results

  /** A linker's rate: a count and a ttl in seconds. */
  datatype RateConfig = RateConfig(count: nat, ttlSeconds: nat)

  /** One declared linker, as decoded. */
  datatype ContextLinkerSub = ContextLinkerSub(name: string, contexts: seq<string>, rate: RateConfig)

  /** The decoded configuration: the linkers in order and the sweep period. */
  datatype ContextLinkerConfig = ContextLinkerConfig(linkers: seq<ContextLinkerSub>, sweepSeconds: nat)

  /** A linker's entry: the linkers it refers to, and its count. */
  datatype Link = Link(contexts: seq<string>, rate: nat)

  datatype ContextLinker = ContextLinker(contexts: map<string, Link>, ttls: map<string, nat>, sweep: nat) {

    /** `get_context`: the entry stored for `key`, if any. */
    function GetContext(key: string): (r: Option<Link>)
      ensures r.Some? <==> key in contexts
      ensures r.Some? ==> r.value == contexts[key]
    {
      if key in contexts then Some(contexts[key]) else None
    }

    /** `get_ttls`. */
    function GetTtls(): map<string, nat>
    {
      ttls
    }
  }

  /** `cfg.linkers.iter().any(|lnk| lnk.name == ctx)`. */
  predicate Declares(linkers: seq<ContextLinkerSub>, ctx: string)
  {
    exists j :: 0 <= j < |linkers| && linkers[j].name == ctx
  }

  /** The names declared by the first `n` linkers. */
  ghost function NamesOf(linkers: seq<ContextLinkerSub>, n: nat): set<string>
    requires n <= |linkers|
  {
    set j | 0 <= j < n :: linkers[j].name
  }

  /**
   * The filter on a linker's targets: the targets, in order, that some
   * linker of the whole configuration declares.
   */
  function Keep(ctxs: seq<string>, linkers: seq<ContextLinkerSub>): (kept: seq<string>)
    ensures |kept| <= |ctxs|
    ensures forall x :: x in kept <==> x in ctxs && Declares(linkers, x)
  {
    if ctxs == [] then []
    else (if Declares(linkers, ctxs[0]) then [ctxs[0]] else []) + Keep(ctxs[1..], linkers)
  }

  /** The filter keeps order: it distributes over concatenation. */
  lemma {:induction false} KeepAppend(a: seq<string>, b: seq<string>, linkers: seq<ContextLinkerSub>)
    ensures Keep(a + b, linkers) == Keep(a, linkers) + Keep(b, linkers)
  {
    if a != [] {
      assert (a + b)[0] == a[0];
      assert (a + b)[1..] == a[1..] + b;
      KeepAppend(a[1..], b, linkers);
    } else {
      assert a + b == b;
    }
  }

  /** On one target, the filter keeps it exactly when it is declared. */
  lemma KeepOne(x: string, linkers: seq<ContextLinkerSub>)
    ensures Keep([x], linkers) == if Declares(linkers, x) then [x] else []
  {
    assert [x][1..] == [];
  }

  /** Targets that all name declared linkers are kept unchanged. */
  lemma {:induction false} KeepDeclared(ctxs: seq<string>, linkers: seq<ContextLinkerSub>)
    requires forall i :: 0 <= i < |ctxs| ==> Declares(linkers, ctxs[i])
    ensures Keep(ctxs, linkers) == ctxs
  {
    if ctxs != [] {
      KeepDeclared(ctxs[1..], linkers);
      assert [ctxs[0]] + ctxs[1..] == ctxs;
    }
  }

  /** No declared target: nothing is kept. */
  lemma {:induction false} KeepUndeclared(ctxs: seq<string>, linkers: seq<ContextLinkerSub>)
    requires forall i :: 0 <= i < |ctxs| ==> !Declares(linkers, ctxs[i])
    ensures Keep(ctxs, linkers) == []
  {
    if ctxs != [] {
      KeepUndeclared(ctxs[1..], linkers);
    }
  }

  /** The loop body on one linker: its entry and ttl overwrite any earlier ones. */
  function Insert(linker: ContextLinker, linkers: seq<ContextLinkerSub>, link: ContextLinkerSub): ContextLinker
  {
    linker.(contexts := linker.contexts[link.name := Link(Keep(link.contexts, linkers), link.rate.count)],
            ttls := linker.ttls[link.name := link.rate.ttlSeconds])
  }

  /** The linker after the loop has taken the first `n` linkers. */
  function Built(linkers: seq<ContextLinkerSub>, n: nat, sweep: nat): ContextLinker
    requires n <= |linkers|
    decreases n
  {
    if n == 0 then ContextLinker(map[], map[], sweep)
    else Insert(Built(linkers, n - 1, sweep), linkers, linkers[n - 1])
  }

  /** The linker `ContextLinker::new` builds from a decoded configuration. */
  function Build(cfg: ContextLinkerConfig): ContextLinker
  {
    Built(cfg.linkers, |cfg.linkers|, cfg.sweepSeconds)
  }

  /**
   * `ContextLinker::new` after decoding: a decoder error is passed on;
   * otherwise the sweep is set and each linker in turn is inserted.
   */
  method New(decoded: Result<ContextLinkerConfig, string>) returns (r: Result<ContextLinker, string>)
    ensures decoded.Err? ==> r == Err(decoded.error)
    ensures decoded.Ok? ==> r == Ok(Build(decoded.value))
  {
    if decoded.Err? {
      return Err(decoded.error);
    }
    var cfg := decoded.value;
    var linker := ContextLinker(map[], map[], cfg.sweepSeconds);
    var i := 0;
    while i < |cfg.linkers|
      invariant i <= |cfg.linkers|
      invariant linker == Built(cfg.linkers, i, cfg.sweepSeconds)
    {
      var link := cfg.linkers[i];
      linker := linker.(contexts := linker.contexts[link.name := Link(Keep(link.contexts, cfg.linkers), link.rate.count)]);
      linker := linker.(ttls := linker.ttls[link.name := link.rate.ttlSeconds]);
      i := i + 1;
    }
    return Ok(linker);
  }

  /** Both maps hold exactly the declared names, and the sweep is as configured. */
  lemma {:induction false} BuiltKeys(linkers: seq<ContextLinkerSub>, n: nat, sweep: nat)
    requires n <= |linkers|
    ensures Built(linkers, n, sweep).contexts.Keys == NamesOf(linkers, n)
    ensures Built(linkers, n, sweep).ttls.Keys == NamesOf(linkers, n)
    ensures Built(linkers, n, sweep).sweep == sweep
    decreases n
  {
    if n > 0 {
      BuiltKeys(linkers, n - 1, sweep);
      assert NamesOf(linkers, n) == NamesOf(linkers, n - 1) + {linkers[n - 1].name};
    } else {
      assert NamesOf(linkers, 0) == {};
    }
  }

  /**
   * A name's entry and ttl come from its last declaration: the filtered
   * targets and the count of that linker, and its ttl.
   */
  lemma {:induction false} BuiltLatest(linkers: seq<ContextLinkerSub>, n: nat, sweep: nat, j: nat)
    requires j < n <= |linkers|
    requires forall i :: j < i < n ==> linkers[i].name != linkers[j].name
    ensures var b := Built(linkers, n, sweep);
      && linkers[j].name in b.contexts && linkers[j].name in b.ttls
      && b.contexts[linkers[j].name] == Link(Keep(linkers[j].contexts, linkers), linkers[j].rate.count)
      && b.ttls[linkers[j].name] == linkers[j].rate.ttlSeconds
    decreases n
  {
    if j < n - 1 {
      BuiltLatest(linkers, n - 1, sweep, j);
    }
  }

  /** Every target stored in `b` names one of `linkers`. */
  ghost predicate TargetsDeclared(b: ContextLinker, linkers: seq<ContextLinkerSub>)
  {
    forall k, x :: k in b.contexts && x in b.contexts[k].contexts ==> Declares(linkers, x)
  }

  /** Every stored target names a linker the configuration declares. */
  lemma {:induction false} BuiltTargetsDeclared(linkers: seq<ContextLinkerSub>, n: nat, sweep: nat)
    requires n <= |linkers|
    ensures TargetsDeclared(Built(linkers, n, sweep), linkers)
    decreases n
  {
    if n > 0 {
      BuiltTargetsDeclared(linkers, n - 1, sweep);
      var prev := Built(linkers, n - 1, sweep);
      var link := linkers[n - 1];
      var b := Built(linkers, n, sweep);
      forall k, x | k in b.contexts && x in b.contexts[k].contexts
        ensures Declares(linkers, x)
      {
        if k != link.name {
          assert b.contexts[k] == prev.contexts[k];
          assert k in prev.contexts && x in prev.contexts[k].contexts;
        } else {
          assert b.contexts[k].contexts == Keep(link.contexts, linkers);
        }
      }
    }
  }

  /** The names `Build` stores, in both maps, are the declared names. */
  lemma BuildKeys(cfg: ContextLinkerConfig)
    ensures forall k :: k in Build(cfg).contexts <==> Declares(cfg.linkers, k)
    ensures Build(cfg).ttls.Keys == Build(cfg).contexts.Keys
    ensures Build(cfg).sweep == cfg.sweepSeconds
  {
    BuiltKeys(cfg.linkers, |cfg.linkers|, cfg.sweepSeconds);
  }

  /**
   * The links are closed: every target of every stored entry is itself
   * a stored name, so a target naming no linker never survives.
   */
  lemma BuildClosed(cfg: ContextLinkerConfig)
    ensures var b := Build(cfg);
      forall k, x :: k in b.contexts && x in b.contexts[k].contexts ==> x in b.contexts
  {
    BuiltTargetsDeclared(cfg.linkers, |cfg.linkers|, cfg.sweepSeconds);
    BuildKeys(cfg);
    var b := Build(cfg);
    assert b == Built(cfg.linkers, |cfg.linkers|, cfg.sweepSeconds);
    forall k, x | k in b.contexts && x in b.contexts[k].contexts
      ensures x in b.contexts
    {
      assert Declares(cfg.linkers, x);
    }
  }

  /**
   * `get_context` on the built linker: the last declaration's entry for
   * a declared name, nothing for any other name.
   */
  lemma GetContextBuilt(cfg: ContextLinkerConfig, j: nat)
    requires j < |cfg.linkers|
    requires forall i :: j < i < |cfg.linkers| ==> cfg.linkers[i].name != cfg.linkers[j].name
    ensures Build(cfg).GetContext(cfg.linkers[j].name)
         == Some(Link(Keep(cfg.linkers[j].contexts, cfg.linkers), cfg.linkers[j].rate.count))
    ensures cfg.linkers[j].name in Build(cfg).GetTtls()
         && Build(cfg).GetTtls()[cfg.linkers[j].name] == cfg.linkers[j].rate.ttlSeconds
  {
    BuiltLatest(cfg.linkers, |cfg.linkers|, cfg.sweepSeconds, j);
  }

  /** `get_context` finds nothing for a name no linker declares. */
  lemma GetContextUndeclared(cfg: ContextLinkerConfig, key: string)
    requires !Declares(cfg.linkers, key)
    ensures Build(cfg).GetContext(key) == None
    ensures key !in Build(cfg).GetTtls()
  {
    BuildKeys(cfg);
  }

  /** The `context_linker_one_linker_no_context_match` case. */
  lemma OneLinkerNoContextMatch()
    ensures Build(ContextLinkerConfig([ContextLinkerSub("foo", ["bar"], RateConfig(10, 60))], 30))
         == ContextLinker(map["foo" := Link([], 10)], map["foo" := 60], 30)
  {
    var linkers := [ContextLinkerSub("foo", ["bar"], RateConfig(10, 60))];
    assert !Declares(linkers, "bar") by {
      assert linkers[0].name != "bar";
    }
    KeepUndeclared(["bar"], linkers);
  }

  /** The `context_linker_two_linkers_one_context_ref` case. */
  lemma TwoLinkersOneContextRef()
    ensures Build(ContextLinkerConfig([ContextLinkerSub("foo", ["bar"], RateConfig(10, 60)),
                                       ContextLinkerSub("bar", ["foobar"], RateConfig(10, 60))], 30))
         == ContextLinker(map["foo" := Link(["bar"], 10), "bar" := Link([], 10)],
                          map["foo" := 60, "bar" := 60], 30)
  {
    var linkers := [ContextLinkerSub("foo", ["bar"], RateConfig(10, 60)),
                    ContextLinkerSub("bar", ["foobar"], RateConfig(10, 60))];
    assert Declares(linkers, "bar") by {
      assert linkers[1].name == "bar";
    }
    assert !Declares(linkers, "foobar") by {
      assert |"foobar"| != |linkers[0].name| && |"foobar"| != |linkers[1].name|;
    }
    KeepDeclared(["bar"], linkers);
    KeepUndeclared(["foobar"], linkers);
    assert Built(linkers, 1, 30) == ContextLinker(map["foo" := Link(["bar"], 10)], map["foo" := 60], 30);
  }

  /** The `context_linker_three_linkers_with_references` case: self and mutual references are kept. */
  lemma ThreeLinkersWithReferences()
    ensures Build(ContextLinkerConfig([ContextLinkerSub("foo", ["bar"], RateConfig(10, 60)),
                                       ContextLinkerSub("bar", ["foo"], RateConfig(10, 60)),
                                       ContextLinkerSub("foobar", ["foo", "bar"], RateConfig(10, 60))], 30))
         == ContextLinker(map["foo" := Link(["bar"], 10), "bar" := Link(["foo"], 10),
                              "foobar" := Link(["foo", "bar"], 10)],
                          map["foo" := 60, "bar" := 60, "foobar" := 60], 30)
  {
    var linkers := [ContextLinkerSub("foo", ["bar"], RateConfig(10, 60)),
                    ContextLinkerSub("bar", ["foo"], RateConfig(10, 60)),
                    ContextLinkerSub("foobar", ["foo", "bar"], RateConfig(10, 60))];
    assert Declares(linkers, "foo") by {
      assert linkers[0].name == "foo";
    }
    assert Declares(linkers, "bar") by {
      assert linkers[1].name == "bar";
    }
    KeepDeclared(["bar"], linkers);
    KeepDeclared(["foo"], linkers);
    KeepDeclared(["foo", "bar"], linkers);
    assert Built(linkers, 1, 30) == ContextLinker(map["foo" := Link(["bar"], 10)], map["foo" := 60], 30);
    assert Built(linkers, 2, 30) == ContextLinker(map["foo" := Link(["bar"], 10), "bar" := Link(["foo"], 10)],
                                                  map["foo" := 60, "bar" := 60], 30);
  }
}
