/** String helpers that stand for the parts of Rust's `str`, `char` and
    integer formatting/parsing that the core relies on.  Strings are
    `seq<char>`; whitespace and case are the ASCII subset of Rust's
    Unicode-aware definitions. */
module Text {

  import opened Wrappers

  /** `char::is_whitespace` and the regex class `\s`, restricted to ASCII:
      space, tab, line feed, vertical tab, form feed, carriage return. */
  predicate IsSpace(c: char) {
    c == ' ' || ('\t' <= c <= '\r')
  }

  predicate AllSpaces(s: string) {
    forall i :: 0 <= i < |s| ==> IsSpace(s[i])
  }

  /** Every character of `s` in `[lo, hi)` is whitespace. */
  predicate SpacesIn(s: string, lo: int, hi: int)
    requires 0 <= lo && hi <= |s|
  {
    forall k :: lo <= k < hi ==> IsSpace(s[k])
  }

  /** Length of the run of whitespace in `s` that starts at `from`. */
  function SpaceRun(s: string, from: nat): (n: nat)
    requires from <= |s|
    ensures from + n <= |s|
    ensures SpacesIn(s, from, from + n)
    ensures from + n < |s| ==> !IsSpace(s[from + n])
    decreases |s| - from
  {
    if from == |s| || !IsSpace(s[from]) then 0 else 1 + SpaceRun(s, from + 1)
  }

  /** `p` occurs in `s` at position `at`, compared character by character. */
  predicate HasAt(s: string, at: nat, p: string) {
    at + |p| <= |s| && forall k :: 0 <= k < |p| ==> s[at + k] == p[k]
  }

  /** Number of whitespace characters at the front of `s`. */
  function LeadingSpaces(s: string): (n: nat)
    ensures n <= |s|
    ensures AllSpaces(s[..n])
    ensures n < |s| ==> !IsSpace(s[n])
  {
    if s == [] || !IsSpace(s[0]) then 0
    else
      var k := LeadingSpaces(s[1..]);
      assert s[1..][..k] == s[1..k + 1];
      1 + k
  }

  /** Number of whitespace characters at the back of `s`. */
  function TrailingSpaces(s: string): (n: nat)
    ensures n <= |s|
    ensures AllSpaces(s[|s| - n..])
    ensures n < |s| ==> !IsSpace(s[|s| - n - 1])
  {
    if s == [] || !IsSpace(s[|s| - 1]) then 0
    else
      var k := TrailingSpaces(s[..|s| - 1]);
      1 + k
  }

  /** `str::trim`: drop leading and trailing whitespace. */
  function Trim(s: string): (t: string)
    ensures |t| <= |s|
    ensures t == [] || (!IsSpace(t[0]) && !IsSpace(t[|t| - 1]))
  {
    var a := LeadingSpaces(s);
    var rest := s[a..];
    rest[..|rest| - TrailingSpaces(rest)]
  }

  /** ASCII lower-casing of one character. */
  function LowerChar(c: char): char {
    if 'A' <= c <= 'Z' then (c as int + 32) as char else c
  }

  /** `str::to_lowercase`, ASCII only. */
  function Lower(s: string): (t: string)
    ensures |t| == |s|
    ensures forall i :: 0 <= i < |s| ==> t[i] == LowerChar(s[i])
  {
    if s == [] then [] else [LowerChar(s[0])] + Lower(s[1..])
  }

  /** `str::starts_with`. */
  predicate StartsWith(s: string, prefix: string) {
    |prefix| <= |s| && s[..|prefix|] == prefix
  }

  /** `needle` occurs in `hay` starting at position `i`. */
  predicate OccursAt(hay: string, needle: string, i: int) {
    0 <= i && i + |needle| <= |hay| && hay[i..i + |needle|] == needle
  }

  /** `str::contains` with a string pattern, computed by trying each start
      position in turn. */
  predicate Contains(hay: string, needle: string)
    decreases |hay|
  {
    StartsWith(hay, needle) || (hay != [] && Contains(hay[1..], needle))
  }

  lemma {:induction false} ContainsIff(hay: string, needle: string)
    ensures Contains(hay, needle) <==> exists i :: OccursAt(hay, needle, i)
    decreases |hay|
  {
    if StartsWith(hay, needle) {
      assert OccursAt(hay, needle, 0);
    } else if hay == [] {
    } else {
      ContainsIff(hay[1..], needle);
      if exists i :: OccursAt(hay[1..], needle, i) {
        var i :| OccursAt(hay[1..], needle, i);
        assert hay[i + 1..i + 1 + |needle|] == hay[1..][i..i + |needle|];
        assert OccursAt(hay, needle, i + 1);
      }
      if exists i :: OccursAt(hay, needle, i) {
        var i :| OccursAt(hay, needle, i);
        if i != 0 {
          assert hay[1..][i - 1..i - 1 + |needle|] == hay[i..i + |needle|];
          assert OccursAt(hay[1..], needle, i - 1);
        }
      }
    }
  }

  // ---------------------------------------------------------------------
  // Decimal numbers

  predicate IsDigit(c: char) {
    '0' <= c <= '9'
  }

  predicate AllDigits(s: string) {
    forall i :: 0 <= i < |s| ==> IsDigit(s[i])
  }

  function DigitChar(d: nat): char
    requires d < 10
  {
    ('0' as int + d) as char
  }

  function DigitValue(c: char): nat
    requires IsDigit(c)
  {
    c as int - '0' as int
  }

  /** The number an all-digit string denotes (most significant digit first). */
  function DecimalValue(s: string): nat
    requires AllDigits(s)
  {
    if s == [] then 0 else DecimalValue(s[..|s| - 1]) * 10 + DigitValue(s[|s| - 1])
  }

  /** `Display` of an unsigned integer: the shortest decimal digit string. */
  function NatToString(n: nat): (s: string)
    ensures s != [] && AllDigits(s)
  {
    if n < 10 then [DigitChar(n)] else NatToString(n / 10) + [DigitChar(n % 10)]
  }

  /** `Display` of a signed integer: a minus sign before the magnitude. */
  function IntToString(n: int): (s: string)
    ensures n >= 0 ==> s == NatToString(n)
    ensures n < 0 ==> s == "-" + NatToString(-n)
  {
    if n >= 0 then NatToString(n) else "-" + NatToString(-n)
  }

  lemma {:induction false} DecimalRoundTrip(n: nat)
    ensures DecimalValue(NatToString(n)) == n
  {
    if n >= 10 {
      DecimalRoundTrip(n / 10);
      var s := NatToString(n);
      assert s[..|s| - 1] == NatToString(n / 10);
    }
  }

  const U64_MAX: nat := 0xFFFF_FFFF_FFFF_FFFF

  datatype ParseIntError = EmptyDigits | InvalidDigit | PosOverflow

  /** The digit part of an unsigned-integer literal: an optional leading `+`
      is not part of it. */
  function UnsignedDigits(s: string): string {
    if s != [] && s[0] == '+' then s[1..] else s
  }

  /** The length of the run of digits at the front of `d`. */
  function DigitRun(d: string): (n: nat)
    ensures n <= |d| && AllDigits(d[..n])
    ensures n < |d| ==> !IsDigit(d[n])
  {
    if d == [] || !IsDigit(d[0]) then 0
    else
      var n := 1 + DigitRun(d[1..]);
      assert forall i :: 1 <= i < n ==> d[..n][i] == d[1..][..n - 1][i - 1];
      n
  }

  /** A digit prefix is no longer than the leading run of digits. */
  lemma {:induction false} DigitRunCovers(d: string, k: nat)
    requires k <= |d| && AllDigits(d[..k])
    ensures k <= DigitRun(d)
  {
  }

  /** Reading more digits never makes the number smaller. */
  lemma {:induction false} DecimalValueGrows(d: string, j: nat, k: nat)
    requires j <= k <= |d| && AllDigits(d[..k])
    ensures AllDigits(d[..j]) && DecimalValue(d[..j]) <= DecimalValue(d[..k])
    decreases k - j
  {
    assert forall i :: 0 <= i < j ==> d[..j][i] == d[..k][i];
    if j < k {
      assert forall i :: 0 <= i < k - 1 ==> d[..k - 1][i] == d[..k][i];
      DecimalValueGrows(d, j, k - 1);
      assert d[..k][..k - 1] == d[..k - 1];
    }
  }

  /** The checked loop of the standard library's integer parser, from
      position `k` with the value `acc` of the digits read so far: a
      non-digit is `InvalidDigit`, a digit that takes the value past
      `u64::MAX` is `PosOverflow`, whichever is reached first. */
  function ReadDigits(d: string, k: nat, acc: nat): (r: Result<nat, ParseIntError>)
    requires k <= DigitRun(d) && AllDigits(d[..k]) && acc == DecimalValue(d[..k]) && acc <= U64_MAX
    ensures var n := DigitRun(d);
      && (r.Ok? <==> n == |d| && DecimalValue(d[..n]) <= U64_MAX)
      && (r == Err(PosOverflow) <==> DecimalValue(d[..n]) > U64_MAX)
      && (r == Err(InvalidDigit) <==> n < |d| && DecimalValue(d[..n]) <= U64_MAX)
      && (r.Ok? ==> r.value == DecimalValue(d[..n]))
    decreases |d| - k
  {
    var n := DigitRun(d);
    if k == |d| || !IsDigit(d[k]) then
      assert k == n;
      if k == |d| then Ok(acc) else Err(InvalidDigit)
    else
      assert AllDigits(d[..k + 1]) by {
        assert forall i :: 0 <= i < k ==> d[..k + 1][i] == d[..k][i];
      }
      DigitRunCovers(d, k + 1);
      assert d[..k + 1][..k] == d[..k];
      var next := acc * 10 + DigitValue(d[k]);
      if next > U64_MAX then
        DecimalValueGrows(d, k + 1, n);
        Err(PosOverflow)
      else
        ReadDigits(d, k + 1, next)
  }

  /** `<u64 as FromStr>::from_str`: an optional leading `+`, then ASCII
      digits read left to right.  A bare `+` is an invalid digit; otherwise
      the first non-digit or the first digit past `u64::MAX` decides the
      error, whichever comes first. */
  function ParseU64(s: string): (r: Result<nat, ParseIntError>)
    ensures r.Ok? ==> r.value <= U64_MAX
    ensures r.Ok? <==> var d := UnsignedDigits(s); d != [] && AllDigits(d) && DecimalValue(d) <= U64_MAX
    ensures r.Ok? ==> r.value == DecimalValue(UnsignedDigits(s))
    ensures s == [] ==> r == Err(EmptyDigits)
    ensures s != [] ==> var d := UnsignedDigits(s); var n := DigitRun(d);
      && (r == Err(PosOverflow) <==> DecimalValue(d[..n]) > U64_MAX)
      && (r == Err(InvalidDigit) <==> (d == [] || n < |d|) && DecimalValue(d[..n]) <= U64_MAX)
  {
    if s == [] then Err(EmptyDigits)
    else
      var d := UnsignedDigits(s);
      if d == [] then Err(InvalidDigit)
      else
        assert d[..0] == [];
        var r := ReadDigits(d, 0, 0);
        assert AllDigits(d) <==> DigitRun(d) == |d| by {
          if AllDigits(d) { DigitRunCovers(d, |d|); }
        }
        assert d[..|d|] == d;
        r
  }

  /** A run of digits that already exceeds `u64::MAX` is an overflow,
      whatever follows it. */
  lemma OverflowBeforeJunk(digits: string, rest: string)
    requires digits != [] && AllDigits(digits) && DecimalValue(digits) > U64_MAX
    ensures ParseU64(digits + rest) == Err(PosOverflow)
  {
    var s := digits + rest;
    assert s[0] == digits[0] && IsDigit(digits[0]);
    var d := UnsignedDigits(s);
    assert d == s;
    assert d[..|digits|] == digits;
    DigitRunCovers(d, |digits|);
    DecimalValueGrows(d, |digits|, DigitRun(d));
  }

  lemma NatToStringParses(n: nat)
    requires n <= U64_MAX
    ensures ParseU64(NatToString(n)) == Ok(n)
  {
    DecimalRoundTrip(n);
  }
}
