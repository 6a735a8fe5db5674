/**
 * The pieces of Rust's standard library that the configuration parser
 * relies on: `str::split` with a one-character pattern, and
 * `u64::from_str` (decimal, optional leading `+`, overflow rejected).
 */
module Text {
  import opened Results

  const U64_MAX: nat := 0xFFFF_FFFF_FFFF_FFFF

  /** Concatenates the pieces with `sep` between neighbours. */
  function Join(parts: seq<string>, sep: char): string
    decreases |parts|
  {
    if |parts| == 0 then ""
    else if |parts| == 1 then parts[0]
    else parts[0] + [sep] + Join(parts[1..], sep)
  }

  /**
   * `s.split(sep)`: the maximal `sep`-free pieces between separators,
   * empty pieces kept; the empty string yields one empty piece.
   */
  function Split(s: string, sep: char): (parts: seq<string>)
    ensures |parts| >= 1
    ensures forall i :: 0 <= i < |parts| ==> sep !in parts[i]
    ensures |parts| == 1 <==> sep !in s
    decreases |s|
  {
    if s == [] then [""]
    else
      var rest := Split(s[1..], sep);
      assert s == [s[0]] + s[1..];
      if s[0] == sep then
        [""] + rest
      else
        var parts := [[s[0]] + rest[0]] + rest[1..];
        assert parts[1..] == rest[1..];
        assert sep in s ==> sep in s[1..];
        parts
  }

  /** Joining the pieces back with the separator restores the text. */
  lemma {:induction false} JoinSplit(s: string, sep: char)
    ensures Join(Split(s, sep), sep) == s
    decreases |s|
  {
    if s != [] {
      JoinSplit(s[1..], sep);
      var rest := Split(s[1..], sep);
      assert s == [s[0]] + s[1..];
      if s[0] == sep {
        assert Join([""] + rest, sep) == [sep] + Join(rest, sep);
      } else {
        var parts := [[s[0]] + rest[0]] + rest[1..];
        assert parts[1..] == rest[1..];
        assert Join(parts, sep) == [s[0]] + Join(rest, sep);
      }
    }
  }

  /** Splitting at a separator splits each side independently. */
  lemma {:induction false} SplitAround(a: string, b: string, sep: char)
    requires sep !in a
    ensures Split(a + [sep] + b, sep) == Split(a, sep) + Split(b, sep)
    decreases |a|
  {
    if a == [] {
      SplitSep(b, sep);
      assert [] + [sep] + b == [sep] + b;
    } else {
      var t := a[1..] + [sep] + b;
      assert a + [sep] + b == [a[0]] + t;
      assert a == [a[0]] + a[1..];
      SplitAround(a[1..], b, sep);
      SplitCons(a[0], t, sep);
      SplitCons(a[0], a[1..], sep);
    }
  }

  /** A leading separator opens an empty piece. */
  lemma SplitSep(t: string, sep: char)
    ensures Split([sep] + t, sep) == [""] + Split(t, sep)
  {
    assert ([sep] + t)[1..] == t;
  }

  /** A leading non-separator joins the first piece. */
  lemma SplitCons(c: char, t: string, sep: char)
    requires c != sep
    ensures Split([c] + t, sep) == [[c] + Split(t, sep)[0]] + Split(t, sep)[1..]
  {
    assert ([c] + t)[1..] == t;
  }

  /** A piece without the separator is returned whole. */
  lemma SplitFree(s: string, sep: char)
    requires sep !in s
    ensures Split(s, sep) == [s]
  {
    JoinSplit(s, sep);
  }

  /** Split undoes Join on separator-free pieces: the two are inverse. */
  lemma {:induction false} SplitJoin(parts: seq<string>, sep: char)
    requires |parts| >= 1
    requires forall i :: 0 <= i < |parts| ==> sep !in parts[i]
    ensures Split(Join(parts, sep), sep) == parts
    decreases |parts|
  {
    if |parts| == 1 {
      SplitFree(parts[0], sep);
    } else {
      SplitJoin(parts[1..], sep);
      SplitAround(parts[0], Join(parts[1..], sep), sep);
      SplitFree(parts[0], sep);
      assert [parts[0]] + parts[1..] == parts;
    }
  }

  // ---------------------------------------------------------------
  // u64::from_str

  /** The failure kinds of Rust's `ParseIntError` that `u64` can raise. */
  datatype IntErrorKind = Empty | InvalidDigit | PosOverflow

  /** The text Rust displays for each failure kind. */
  function IntErrorText(k: IntErrorKind): string
  {
    match k
    case Empty => "cannot parse integer from empty string"
    case InvalidDigit => "invalid digit found in string"
    case PosOverflow => "number too large to fit in target type"
  }

  predicate IsDigit(c: char)
  {
    '0' <= c <= '9'
  }

  function DigitValue(c: char): (d: nat)
    requires IsDigit(c)
    ensures d < 10
  {
    (c as int) - ('0' as int)
  }

  function DigitChar(d: nat): (c: char)
    requires d < 10
    ensures IsDigit(c) && DigitValue(c) == d
  {
    (('0' as int) + d) as char
  }

  predicate AllDigits(s: string)
  {
    forall i :: 0 <= i < |s| ==> IsDigit(s[i])
  }

  /** The mathematical value of `acc` followed by the digits `ds`. */
  function Fold(acc: nat, ds: string): nat
    requires AllDigits(ds)
    decreases |ds|
  {
    if ds == [] then acc else Fold(acc * 10 + DigitValue(ds[0]), ds[1..])
  }

  /**
   * The digit loop of `from_str_radix`: left to right, a non-digit is an
   * invalid digit, and an accumulator leaving the u64 range overflows;
   * the first offending position decides the error.
   */
  function ParseDigits(ds: string, acc: nat): (r: Result<nat, IntErrorKind>)
    requires acc <= U64_MAX
    ensures r.Ok? ==> r.value <= U64_MAX
    decreases |ds|
  {
    if ds == [] then Ok(acc)
    else if !IsDigit(ds[0]) then Err(InvalidDigit)
    else if acc * 10 + DigitValue(ds[0]) > U64_MAX then Err(PosOverflow)
    else ParseDigits(ds[1..], acc * 10 + DigitValue(ds[0]))
  }

  /** `s.parse::<u64>()`; the error is the displayed `ParseIntError`. */
  function ParseU64(s: string): (r: Result<nat, string>)
    ensures r.Ok? ==> r.value <= U64_MAX
  {
    if s == [] then Err(IntErrorText(Empty))
    else if s[0] == '+' && |s| == 1 then Err(IntErrorText(InvalidDigit))
    else if s[0] == '-' && |s| == 1 then Err(IntErrorText(InvalidDigit))
    else
      var digits := if s[0] == '+' then s[1..] else s;
      match ParseDigits(digits, 0)
      case Ok(n) => Ok(n)
      case Err(k) => Err(IntErrorText(k))
  }

  lemma {:induction false} FoldGrows(acc: nat, ds: string)
    requires AllDigits(ds)
    ensures Fold(acc, ds) >= acc
    decreases |ds|
  {
    if ds != [] {
      FoldGrows(acc * 10 + DigitValue(ds[0]), ds[1..]);
    }
  }

  lemma {:induction false} FoldSnoc(acc: nat, ds: string, c: char)
    requires AllDigits(ds) && IsDigit(c)
    ensures AllDigits(ds + [c])
    ensures Fold(acc, ds + [c]) == Fold(acc, ds) * 10 + DigitValue(c)
    decreases |ds|
  {
    if ds == [] {
      assert ([] + [c])[1..] == [];
    } else {
      assert (ds + [c])[0] == ds[0] && (ds + [c])[1..] == ds[1..] + [c];
      FoldSnoc(acc * 10 + DigitValue(ds[0]), ds[1..], c);
    }
  }

  /** Digit strings whose value fits parse to that value. */
  lemma {:induction false} ParseDigitsFits(ds: string, acc: nat)
    requires acc <= U64_MAX && AllDigits(ds)
    requires Fold(acc, ds) <= U64_MAX
    ensures ParseDigits(ds, acc) == Ok(Fold(acc, ds))
    decreases |ds|
  {
    if ds != [] {
      var next := acc * 10 + DigitValue(ds[0]);
      FoldGrows(next, ds[1..]);
      ParseDigitsFits(ds[1..], next);
    }
  }

  /** Digit strings whose value does not fit overflow. */
  lemma {:induction false} ParseDigitsOverflows(ds: string, acc: nat)
    requires acc <= U64_MAX && AllDigits(ds)
    requires Fold(acc, ds) > U64_MAX
    ensures ParseDigits(ds, acc) == Err(PosOverflow)
    decreases |ds|
  {
    if ds != [] {
      var next := acc * 10 + DigitValue(ds[0]);
      if next <= U64_MAX {
        ParseDigitsOverflows(ds[1..], next);
      }
    }
  }

  /** Decimal text of `n`, most significant digit first, no leading zeros. */
  function Decimal(n: nat): (s: string)
    ensures |s| >= 1 && AllDigits(s)
  {
    if n < 10 then [DigitChar(n)] else Decimal(n / 10) + [DigitChar(n % 10)]
  }

  lemma {:induction false} FoldDecimal(n: nat)
    ensures Fold(0, Decimal(n)) == n
  {
    if n >= 10 {
      FoldDecimal(n / 10);
      FoldSnoc(0, Decimal(n / 10), DigitChar(n % 10));
    }
  }

  /** u64 parsing inverts decimal rendering on the whole u64 range. */
  lemma ParseDecimal(n: nat)
    requires n <= U64_MAX
    ensures ParseU64(Decimal(n)) == Ok(n)
  {
    FoldDecimal(n);
    ParseDigitsFits(Decimal(n), 0);
  }

  /**
   * Exactly the strings made of an optional `+` and one or more digits
   * whose value fits in a u64 parse.
   */
  lemma ParseU64Accepts(s: string)
    ensures ParseU64(s).Ok? <==>
      var ds := if |s| > 0 && s[0] == '+' then s[1..] else s;
      ds != [] && AllDigits(ds) && Fold(0, ds) <= U64_MAX
    ensures ParseU64(s).Ok? ==>
      var ds := if |s| > 0 && s[0] == '+' then s[1..] else s;
      ParseU64(s).value == Fold(0, ds)
  {
    if |s| > 0 && !(|s| == 1 && (s[0] == '+' || s[0] == '-')) {
      var ds := if s[0] == '+' then s[1..] else s;
      if AllDigits(ds) {
        if Fold(0, ds) <= U64_MAX {
          ParseDigitsFits(ds, 0);
        } else {
          ParseDigitsOverflows(ds, 0);
        }
      } else {
        NonDigitRejected(ds, 0);
      }
    }
  }

  lemma {:induction false} NonDigitRejected(ds: string, acc: nat)
    requires acc <= U64_MAX && !AllDigits(ds)
    ensures ParseDigits(ds, acc).Err?
    decreases |ds|
  {
    if IsDigit(ds[0]) && acc * 10 + DigitValue(ds[0]) <= U64_MAX {
      assert !AllDigits(ds[1..]) by {
        var i :| 0 <= i < |ds| && !IsDigit(ds[i]);
        assert ds[1..][i - 1] == ds[i];
      }
      NonDigitRejected(ds[1..], acc * 10 + DigitValue(ds[0]));
    }
  }
}
