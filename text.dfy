/**
 * Text helpers shared by the model: decimal rendering (`format!("{}", n)`),
 * Rust's unsigned integer parsing (`str::parse::<u32>()`, `::<u64>()`),
 * substring search and the SQL `LIKE` shapes the queries use.
 */
module Text {
  import opened Wrappers

  const U32_LIMIT: nat := 0x1_0000_0000
  const U64_LIMIT: nat := 0x1_0000_0000_0000_0000

  predicate IsDigit(c: char) {
    '0' <= c <= '9'
  }

  predicate AllDigits(s: string) {
    forall i | 0 <= i < |s| :: IsDigit(s[i])
  }

  /** Value of a run of ASCII digits, most significant digit first. */
  function DigitsValue(s: string): nat
    requires AllDigits(s)
  {
    if s == [] then 0 else 10 * DigitsValue(s[..|s| - 1]) + (s[|s| - 1] as int - '0' as int)
  }

  function DigitChar(d: nat): (c: char)
    requires d < 10
    ensures IsDigit(c) && c as int - '0' as int == d
  {
    ('0' as int + d) as char
  }

  /** `format!("{}", n)` for an unsigned integer: no sign, no leading zero. */
  function DecimalString(n: nat): (r: string)
    ensures r != [] && AllDigits(r)
    ensures |r| > 1 ==> r[0] != '0'
  {
    if n < 10 then [DigitChar(n)] else DecimalString(n / 10) + [DigitChar(n % 10)]
  }

  /** Reading back the digits of `DecimalString(n)` gives `n`. */
  lemma {:induction false} DecimalStringValue(n: nat)
    ensures DigitsValue(DecimalString(n)) == n
  {
    if n >= 10 {
      var s := DecimalString(n);
      assert s[..|s| - 1] == DecimalString(n / 10);
      DecimalStringValue(n / 10);
    }
  }

  /**
   * Rust's `str::parse` for an unsigned integer type that holds the values
   * below `limit`: an optional single leading '+', then one or more ASCII
   * digits (leading zeros allowed) whose value is below `limit`.
   */
  function ParseUnsigned(s: string, limit: nat): Option<nat> {
    var digits := if |s| > 0 && s[0] == '+' then s[1..] else s;
    if digits != [] && AllDigits(digits) && DigitsValue(digits) < limit
    then Some(DigitsValue(digits))
    else None
  }

  function ParseU32(s: string): Option<nat> {
    ParseUnsigned(s, U32_LIMIT)
  }

  function ParseU64(s: string): Option<nat> {
    ParseUnsigned(s, U64_LIMIT)
  }

  /** Rendering then parsing is the identity on the type's range, and fails above it. */
  lemma ParseDecimalString(n: nat, limit: nat)
    ensures ParseUnsigned(DecimalString(n), limit) == if n < limit then Some(n) else None
  {
    DecimalStringValue(n);
  }

  /** Different numbers render differently. */
  lemma DecimalStringInjective(a: nat, b: nat)
    requires DecimalString(a) == DecimalString(b)
    ensures a == b
  {
    DecimalStringValue(a);
    DecimalStringValue(b);
  }

  /** A numeral exactly as `format!("{}", n)` renders some u64 `n`. */
  predicate IsCanonicalU64(s: string) {
    ParseU64(s).Some? && DecimalString(ParseU64(s).value) == s
  }

  lemma DecimalStringIsCanonical(n: nat)
    requires n < U64_LIMIT
    ensures IsCanonicalU64(DecimalString(n))
  {
    ParseDecimalString(n, U64_LIMIT);
  }

  predicate StartsWith(s: string, prefix: string) {
    |prefix| <= |s| && s[..|prefix|] == prefix
  }

  /** SQL `s LIKE '%' || suffix` when `suffix` holds no wildcard. */
  predicate EndsWith(s: string, suffix: string) {
    |suffix| <= |s| && s[|s| - |suffix|..] == suffix
  }

  predicate OccursAt(s: string, pat: string, i: nat) {
    i + |pat| <= |s| && s[i..i + |pat|] == pat
  }

  /** SQL `s LIKE '%' || pat || '%'` when `pat` holds no wildcard. */
  predicate Contains(s: string, pat: string) {
    exists i: nat | i <= |s| :: OccursAt(s, pat, i)
  }

  /** The first position at or after `from` where `pat` occurs in `s`. */
  function IndexOf(s: string, pat: string, from: nat): (r: Option<nat>)
    decreases |s| - from
    ensures r.Some? ==> from <= r.value && OccursAt(s, pat, r.value)
    ensures r.Some? ==> forall j: nat | from <= j < r.value :: !OccursAt(s, pat, j)
    ensures r.None? ==> forall j: nat | from <= j :: !OccursAt(s, pat, j)
  {
    if from + |pat| > |s| then None
    else if OccursAt(s, pat, from) then Some(from)
    else IndexOf(s, pat, from + 1)
  }

  /** `Vec<String>::join(sep)`. */
  function Join(parts: seq<string>, sep: string): string {
    if parts == [] then ""
    else if |parts| == 1 then parts[0]
    else parts[0] + sep + Join(parts[1..], sep)
  }
}
