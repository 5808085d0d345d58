/**
 * Text handling that the header parser relies on: splitting a line into
 * whitespace-separated tokens as stream extraction (`ss >> token`) does,
 * reading an integer token as `ss >> vertexCount` does, and writing a
 * natural number in decimal as `std::to_string` does.
 */
module Text {

  /** Whitespace as `isspace` classifies it in the C locale. */
  predicate IsSpace(c: char) {
    c == ' ' || c == '\t' || c == '\n' || c == '\U{B}' || c == '\U{C}' || c == '\r'
  }

  predicate NoSpace(s: string) {
    forall k :: 0 <= k < |s| ==> !IsSpace(s[k])
  }

  /** What one extraction of a `std::string` can yield: non-empty, no whitespace. */
  predicate IsToken(s: string) {
    |s| > 0 && NoSpace(s)
  }

  /** Length of the longest whitespace-free prefix of `s`. */
  function WordLength(s: string): (n: nat)
    ensures n <= |s|
    ensures NoSpace(s[..n])
    ensures n < |s| ==> IsSpace(s[n])
  {
    if s == [] || IsSpace(s[0]) then 0 else 1 + WordLength(s[1..])
  }

  /**
   * The tokens successive `>>` extractions take from a line: leading
   * whitespace is skipped, then the longest run of non-whitespace is taken.
   */
  function Tokens(s: string): (ts: seq<string>)
    ensures forall k :: 0 <= k < |ts| ==> IsToken(ts[k])
    decreases |s|
  {
    if s == [] then []
    else if IsSpace(s[0]) then Tokens(s[1..])
    else
      var n := WordLength(s);
      [s[..n]] + Tokens(s[n..])
  }

  /**
   * The `k`th token, or the empty string when the line has fewer tokens:
   * an extraction into a freshly declared string that finds nothing leaves
   * it empty.
   */
  function TokenAt(ts: seq<string>, k: nat): string {
    if k < |ts| then ts[k] else ""
  }

  /** Tokens written on one line, separated by single spaces. */
  function JoinSpace(ts: seq<string>): string
    decreases |ts|
  {
    if ts == [] then ""
    else if |ts| == 1 then ts[0]
    else ts[0] + " " + JoinSpace(ts[1..])
  }

  /** A token followed by whitespace (or nothing) is taken whole. */
  lemma {:induction false} WordLengthOfToken(t: string, u: string)
    requires NoSpace(t)
    requires u == [] || IsSpace(u[0])
    ensures WordLength(t + u) == |t|
  {
    if t != [] {
      assert (t + u)[1..] == t[1..] + u;
      WordLengthOfToken(t[1..], u);
    }
  }

  lemma TokensAfterToken(t: string, u: string)
    requires IsToken(t)
    requires u == [] || IsSpace(u[0])
    ensures Tokens(t + u) == [t] + Tokens(u)
  {
    WordLengthOfToken(t, u);
    assert (t + u)[..|t|] == t;
    assert (t + u)[|t|..] == u;
  }

  /** Tokenising a line written by `JoinSpace` gives the tokens back. */
  lemma {:induction false} TokensOfJoin(ts: seq<string>)
    requires forall k :: 0 <= k < |ts| ==> IsToken(ts[k])
    ensures Tokens(JoinSpace(ts)) == ts
    decreases |ts|
  {
    if ts == [] {
    } else if |ts| == 1 {
      TokensAfterToken(ts[0], "");
      assert ts[0] + "" == ts[0];
    } else {
      var rest := JoinSpace(ts[1..]);
      TokensOfJoin(ts[1..]);
      assert ts[0] + " " + rest == ts[0] + (" " + rest);
      TokensAfterToken(ts[0], " " + rest);
      assert (" " + rest)[1..] == rest;
    }
  }

  // ---- decimal numbers ----

  predicate IsDigit(c: char) {
    '0' <= c <= '9'
  }

  predicate AllDigits(s: string) {
    forall k :: 0 <= k < |s| ==> IsDigit(s[k])
  }

  function DigitValue(c: char): nat
    requires IsDigit(c)
  {
    c as int - '0' as int
  }

  function DigitChar(d: nat): (c: char)
    requires d < 10
    ensures IsDigit(c) && DigitValue(c) == d
  {
    ('0' as int + d) as char
  }

  /** The value of a string of decimal digits, most significant first. */
  function DigitsValue(s: string): nat
    requires AllDigits(s)
    decreases |s|
  {
    if s == [] then 0 else DigitsValue(s[..|s| - 1]) * 10 + DigitValue(s[|s| - 1])
  }

  /** `std::to_string` of a non-negative number: its decimal digits, no leading zeros. */
  function Decimal(n: nat): (s: string)
    ensures |s| > 0 && AllDigits(s)
    ensures |s| > 1 ==> s[0] != '0'
  {
    if n < 10 then [DigitChar(n)] else Decimal(n / 10) + [DigitChar(n % 10)]
  }

  lemma {:induction false} DecimalRoundTrip(n: nat)
    ensures DigitsValue(Decimal(n)) == n
  {
    if n >= 10 {
      var s := Decimal(n);
      assert s[..|s| - 1] == Decimal(n / 10);
      DecimalRoundTrip(n / 10);
    }
  }

  /** Distinct numbers have distinct decimal spellings. */
  lemma DecimalInjective(a: nat, b: nat)
    requires Decimal(a) == Decimal(b)
    ensures a == b
  {
    DecimalRoundTrip(a);
    DecimalRoundTrip(b);
  }

  /** Number of leading decimal digits of `s`. */
  function LeadingDigits(s: string): (n: nat)
    ensures n <= |s|
    ensures AllDigits(s[..n])
    ensures n < |s| ==> !IsDigit(s[n])
  {
    if s == [] || !IsDigit(s[0]) then 0 else 1 + LeadingDigits(s[1..])
  }

  const IntMax: nat := 2147483647

  /**
   * What `ss >> n` stores in an `int` for a non-empty token: an optional
   * leading `+`, then the longest run of digits; a token with no digits
   * there stores 0, and a value too large for `int` stores INT_MAX.
   */
  function CountValue(tok: string): (v: nat)
    ensures v <= IntMax
  {
    var d := if |tok| > 0 && tok[0] == '+' then tok[1..] else tok;
    var m := DigitsValue(d[..LeadingDigits(d)]);
    if m > IntMax then IntMax else m
  }

  /** A count written with `Decimal` is read back as the same count. */
  lemma CountOfDecimal(n: nat)
    requires n <= IntMax
    ensures CountValue(Decimal(n)) == n
  {
    var s := Decimal(n);
    assert LeadingDigits(s) == |s|;
    assert s[..|s|] == s;
    DecimalRoundTrip(n);
  }
}
