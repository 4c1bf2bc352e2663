/** Decimal integers as Rust's `str::parse` reads them: an optional sign
    (`+` for unsigned types, `+` or `-` for signed ones), then one or more ASCII
    digits, rejected when the value does not fit the target type. */
module Decimal {
  import opened Wrappers
  import opened Seqs

  const U32_LIMIT: nat := 0x1_0000_0000
  /** `i32` holds `[-I32_LIMIT, I32_LIMIT)`. */
  const I32_LIMIT: nat := 0x8000_0000
  const U64_LIMIT: nat := 0x1_0000_0000_0000_0000
  /** `i64` and `isize` (64-bit targets) hold `[-I64_LIMIT, I64_LIMIT)`. */
  const I64_LIMIT: nat := 0x8000_0000_0000_0000

  predicate IsDigit(c: char)
  {
    '0' <= c <= '9'
  }

  predicate AllDigits(s: string)
  {
    forall k :: 0 <= k < |s| ==> IsDigit(s[k])
  }

  function DigitValue(c: char): nat
    requires IsDigit(c)
  {
    (c as int - '0' as int) as nat
  }

  function DigitChar(d: nat): (c: char)
    requires d < 10
    ensures IsDigit(c) && DigitValue(c) == d
  {
    ('0' as int + d) as char
  }

  /** Value of a digit string, most significant digit first. */
  function DigitsValue(s: string): nat
    requires AllDigits(s)
  {
    if s == [] then 0 else DigitsValue(s[..|s| - 1]) * 10 + DigitValue(s[|s| - 1])
  }

  /** `s.parse::<uN>()` where the type holds `[0, limit)`. */
  function ParseUnsigned(s: string, limit: nat): (r: Option<nat>)
    ensures r.Some? ==> r.value < limit
  {
    var body := if |s| > 0 && s[0] == '+' then s[1..] else s;
    if body != [] && AllDigits(body) && DigitsValue(body) < limit then Some(DigitsValue(body))
    else None
  }

  /** `s.parse::<iN>()` where the type holds `[-limit, limit)`. */
  function ParseSigned(s: string, limit: nat): (r: Option<int>)
    requires limit > 0
    ensures r.Some? ==> -(limit as int) <= r.value < limit
  {
    if |s| > 0 && s[0] == '-' then
      var body := s[1..];
      if body != [] && AllDigits(body) && DigitsValue(body) <= limit then Some(0 - DigitsValue(body))
      else None
    else
      ParseUnsigned(s, limit)
  }

  /** Decimal rendering without sign or leading zeros. */
  function ShowNat(n: nat): (s: string)
    ensures s != [] && AllDigits(s)
    ensures |s| > 1 ==> s[0] != '0'
  {
    if n < 10 then [DigitChar(n)] else ShowNat(n / 10) + [DigitChar(n % 10)]
  }

  function ShowInt(i: int): string
  {
    if i < 0 then "-" + ShowNat(-i) else ShowNat(i)
  }

  lemma {:induction false} DigitsValueShowNat(n: nat)
    ensures DigitsValue(ShowNat(n)) == n
  {
    if n >= 10 {
      var s := ShowNat(n);
      assert s[..|s| - 1] == ShowNat(n / 10);
      DigitsValueShowNat(n / 10);
    }
  }

  /** Reading back a rendered number gives the number. */
  lemma ParseShowNat(n: nat, limit: nat)
    requires n < limit
    ensures ParseUnsigned(ShowNat(n), limit) == Some(n)
  {
    DigitsValueShowNat(n);
  }

  lemma ParseShowInt(i: int, limit: nat)
    requires limit > 0
    requires -(limit as int) <= i < limit
    ensures ParseSigned(ShowInt(i), limit) == Some(i)
  {
    if i < 0 {
      DigitsValueShowNat(-i);
      assert ShowInt(i)[1..] == ShowNat(-i);
    } else {
      DigitsValueShowNat(i);
    }
  }

  /** Rendering the value of a digit string without leading zeros gives the string back. */
  lemma {:induction false} ShowNatDigitsValue(s: string)
    requires s != [] && AllDigits(s)
    requires |s| > 1 ==> s[0] != '0'
    ensures ShowNat(DigitsValue(s)) == s
  {
    var init := s[..|s| - 1];
    if init == [] {
      assert s == [s[0]];
    } else {
      assert init[0] == s[0];
      DigitsValuePositive(init);
      ShowNatDigitsValue(init);
      assert s == init + [s[|s| - 1]];
    }
  }

  lemma DigitsValuePositive(s: string)
    requires s != [] && AllDigits(s) && s[0] != '0'
    ensures DigitsValue(s) >= 1
    decreases |s|
  {
    if |s| > 1 {
      var init := s[..|s| - 1];
      assert init[0] == s[0];
      DigitsValuePositive(init);
    }
  }

  /** `filter_map(|v| v.parse::<uN>().ok())` where the type holds `[0, limit)`:
      the parts that read as numbers, in order; the others are dropped. */
  function ParseEach(parts: seq<string>, limit: nat): (r: seq<nat>)
    ensures |r| <= |parts|
    ensures forall k :: 0 <= k < |r| ==> r[k] < limit
  {
    if parts == [] then []
    else
      match ParseUnsigned(parts[0], limit)
      case Some(v) => [v] + ParseEach(parts[1..], limit)
      case None => ParseEach(parts[1..], limit)
  }

  /** The numbers written out as decimal numerals. */
  function ShowEach(ns: seq<nat>): (parts: seq<string>)
    ensures |parts| == |ns|
    ensures forall k :: 0 <= k < |ns| ==> parts[k] == ShowNat(ns[k])
  {
    if ns == [] then [] else [ShowNat(ns[0])] + ShowEach(ns[1..])
  }

  lemma {:induction false} ParseEachShowEach(ns: seq<nat>, limit: nat)
    requires forall k :: 0 <= k < |ns| ==> ns[k] < limit
    ensures ParseEach(ShowEach(ns), limit) == ns
  {
    if ns != [] {
      ParseShowNat(ns[0], limit);
      assert ShowEach(ns)[1..] == ShowEach(ns[1..]);
      ParseEachShowEach(ns[1..], limit);
    }
  }

  /** A non-empty comma-separated list of numerals in range reads back as
      the numbers it shows. */
  lemma CommaListRoundTrip(ns: seq<nat>, limit: nat)
    requires ns != [] && forall k :: 0 <= k < |ns| ==> ns[k] < limit
    ensures ParseEach(Split(Join(ShowEach(ns), ','), ','), limit) == ns
  {
    forall k | 0 <= k < |ShowEach(ns)|
      ensures ',' !in ShowEach(ns)[k]
    {
      assert AllDigits(ShowEach(ns)[k]);
    }
    SplitJoin(ShowEach(ns), ',');
    ParseEachShowEach(ns, limit);
  }
}
