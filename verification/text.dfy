/**
 * String helpers shared by the server and the client: the order strings are
 * sorted by, Go's `strings.TrimPrefix`/`TrimSuffix`, the first field of
 * `strings.Split`, and decimal rendering and parsing of integers.
 */
module Text {
  import opened Wrappers

  /**
   * Strict lexicographic order on strings, comparing characters by code point.
   * This is SQLite's BINARY collation (a byte comparison of UTF-8, which orders
   * like code points) and is used for both `ORDER BY name` and the client's sort.
   */
  predicate Less(a: string, b: string)
  {
    if a == [] then b != []
    else if b == [] then false
    else a[0] < b[0] || (a[0] == b[0] && Less(a[1..], b[1..]))
  }

  lemma {:induction false} LessIrreflexive(a: string)
    ensures !Less(a, a)
  {
    if a != [] {
      LessIrreflexive(a[1..]);
    }
  }

  lemma {:induction false} LessTransitive(a: string, b: string, c: string)
    requires Less(a, b) && Less(b, c)
    ensures Less(a, c)
  {
    if a != [] && b != [] && c != [] && a[0] == b[0] == c[0] {
      LessTransitive(a[1..], b[1..], c[1..]);
    }
  }

  lemma {:induction false} LessTotal(a: string, b: string)
    ensures a == b || Less(a, b) || Less(b, a)
  {
    if a != [] && b != [] && a[0] == b[0] {
      LessTotal(a[1..], b[1..]);
      if a[1..] == b[1..] {
        assert a == [a[0]] + a[1..] && b == [b[0]] + b[1..];
      }
    }
  }

  lemma LessAsymmetric(a: string, b: string)
    requires Less(a, b)
    ensures !Less(b, a)
  {
  }

  predicate HasPrefix(s: string, prefix: string)
  {
    |prefix| <= |s| && s[..|prefix|] == prefix
  }

  predicate HasSuffix(s: string, suffix: string)
  {
    |suffix| <= |s| && s[|s| - |suffix|..] == suffix
  }

  /** Go's `strings.TrimPrefix`: drops the prefix once if present, otherwise returns `s`. */
  function TrimPrefix(s: string, prefix: string): (r: string)
    ensures HasPrefix(s, prefix) ==> s == prefix + r
    ensures !HasPrefix(s, prefix) ==> r == s
  {
    if HasPrefix(s, prefix) then s[|prefix|..] else s
  }

  /** Go's `strings.TrimSuffix`: drops the suffix once if present, otherwise returns `s`. */
  function TrimSuffix(s: string, suffix: string): (r: string)
    ensures HasSuffix(s, suffix) ==> s == r + suffix
    ensures !HasSuffix(s, suffix) ==> r == s
  {
    if HasSuffix(s, suffix) then s[..|s| - |suffix|] else s
  }

  /**
   * The first element of Go's `strings.Split(s, string(sep))`: the longest
   * prefix of `s` without `sep`, which is all of `s` or stops right before
   * the first `sep`.
   */
  function FirstField(s: string, sep: char): (r: string)
    ensures HasPrefix(s, r)
    ensures sep !in r
    ensures |r| == |s| || s[|r|] == sep
  {
    if s == [] || s[0] == sep then [] else [s[0]] + FirstField(s[1..], sep)
  }

  predicate IsDigit(c: char)
  {
    '0' <= c <= '9'
  }

  predicate AllDigits(s: string)
  {
    forall i :: 0 <= i < |s| ==> IsDigit(s[i])
  }

  function DigitChar(d: nat): (c: char)
    requires d < 10
    ensures IsDigit(c)
  {
    ('0' as int + d) as char
  }

  function DigitValue(c: char): nat
    requires IsDigit(c)
  {
    c as int - '0' as int
  }

  /** Decimal rendering of a natural number, without leading zeros (Go `%d`, JavaScript `${n}`). */
  function ShowNat(n: nat): (r: string)
    ensures r != [] && AllDigits(r)
    ensures |r| > 1 ==> r[0] != '0'
  {
    if n < 10 then [DigitChar(n)] else ShowNat(n / 10) + [DigitChar(n % 10)]
  }

  /** Decimal rendering of an integer, with a leading '-' for negative numbers. */
  function ShowInt(i: int): (r: string)
    ensures r != [] && IsDigit(r[|r| - 1])
    ensures i >= 0 <==> AllDigits(r)
  {
    if i < 0 then
      var r := "-" + ShowNat(-i);
      assert !IsDigit(r[0]);
      r
    else ShowNat(i)
  }

  function DigitsValue(s: string): nat
    requires AllDigits(s)
  {
    if s == [] then 0 else DigitsValue(s[..|s| - 1]) * 10 + DigitValue(s[|s| - 1])
  }

  /** A non-empty string of decimal digits denotes its value; any other text denotes no number. */
  function ParseDecimal(s: string): (r: Option<nat>)
    ensures r.Some? <==> s != [] && AllDigits(s)
  {
    if s != [] && AllDigits(s) then Some(DigitsValue(s)) else None
  }

  /**
   * The integer a textual id denotes when it is compared with an INTEGER
   * column: decimal digits, optionally after one '-'; any other text denotes
   * no integer.
   */
  function ParseInteger(s: string): (r: Option<int>)
    ensures r.Some? <==> ParseDecimal(s).Some? || (s != [] && s[0] == '-' && ParseDecimal(s[1..]).Some?)
    ensures ParseDecimal(s).Some? ==> r.Some? && r.value == ParseDecimal(s).value
    ensures s != [] && s[0] == '-' && ParseDecimal(s[1..]).Some? ==> r.Some? && r.value == -(ParseDecimal(s[1..]).value as int)
  {
    if s != [] && s[0] == '-' then
      assert !IsDigit(s[0]);
      match ParseDecimal(s[1..])
      case Some(n) => Some(-(n as int))
      case None => None
    else
      match ParseDecimal(s)
      case Some(n) => Some(n)
      case None => None
  }

  lemma {:induction false} DigitsValueOfShowNat(n: nat)
    ensures DigitsValue(ShowNat(n)) == n
  {
    var r := ShowNat(n);
    if n >= 10 {
      DigitsValueOfShowNat(n / 10);
      assert r[..|r| - 1] == ShowNat(n / 10);
    }
  }

  /** Parsing inverts rendering: the text the client puts in a path denotes the id it came from. */
  lemma ParseShowInt(i: int)
    ensures ParseInteger(ShowInt(i)) == Some(i)
  {
    if i >= 0 {
      DigitsValueOfShowNat(i);
    } else {
      DigitsValueOfShowNat(-i);
      assert ShowInt(i)[1..] == ShowNat(-i);
    }
  }
}
