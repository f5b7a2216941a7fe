// The decimal integer conversions the loaders and the command line use:
// std::stoi and atoi, both of which skip leading white space, accept one
// sign and then as many decimal digits as follow, ignoring the rest.
// stoi throws when no digit follows or the value leaves the 32-bit int
// range; atoi gives 0 when no digit follows and is undefined out of range.

module NumberParsing {
  import opened Options

  const IntMin: int := -0x8000_0000
  const IntMax: int := 0x7fff_ffff

  predicate IsDigit(c: char) { '0' <= c <= '9' }

  /** isspace in the C locale. */
  predicate IsSpace(c: char) {
    c == ' ' || c == '\t' || c == '\n' || c == '\U{b}' || c == '\U{c}' || c == '\r'
  }

  predicate AllDigits(s: string) {
    forall k :: 0 <= k < |s| ==> IsDigit(s[k])
  }

  function DigitValue(c: char): (d: nat)
    requires IsDigit(c)
    ensures d < 10
  {
    c as int - '0' as int
  }

  function DigitChar(d: nat): (c: char)
    requires d < 10
    ensures IsDigit(c) && DigitValue(c) == d
  {
    ('0' as int + d) as char
  }

  /** The number of white-space characters s starts with. */
  function LeadingSpaces(s: string): (n: nat)
    ensures n <= |s|
    ensures forall k :: 0 <= k < n ==> IsSpace(s[k])
    ensures n < |s| ==> !IsSpace(s[n])
  {
    if |s| == 0 || !IsSpace(s[0]) then 0 else 1 + LeadingSpaces(s[1..])
  }

  /** The number of digits s starts with. */
  function LeadingDigits(s: string): (n: nat)
    ensures n <= |s| && AllDigits(s[..n])
    ensures n < |s| ==> !IsDigit(s[n])
  {
    if |s| == 0 || !IsDigit(s[0]) then 0
    else
      var n := 1 + LeadingDigits(s[1..]);
      assert forall k :: 1 <= k < n ==> s[..n][k] == s[1..][..n - 1][k - 1];
      n
  }

  /** The value of a string of decimal digits, most significant first. */
  function Value(ds: string): nat
    requires AllDigits(ds)
  {
    if |ds| == 0 then 0 else Value(ds[..|ds| - 1]) * 10 + DigitValue(ds[|ds| - 1])
  }

  /** The decimal digits of n, without leading zeros. */
  function Decimal(n: nat): (s: string)
    ensures 0 < |s| && AllDigits(s)
  {
    if n < 10 then [DigitChar(n)] else Decimal(n / 10) + [DigitChar(n % 10)]
  }

  /** The decimal form of an integer, with a '-' when it is negative. */
  function ToString(n: int): (s: string)
    ensures 0 < |s| && (IsDigit(s[0]) || s[0] == '-')
    ensures forall k :: 0 <= k < |s| ==> s[k] != '/' && !IsSpace(s[k])
  {
    if n < 0 then "-" + Decimal(-n) else Decimal(n)
  }

  /** The scan both conversions share: the signed value of the digits after
      the white space and the sign, or None when no digit follows. */
  function Scan(s: string): (r: Option<int>)
  {
    var t := s[LeadingSpaces(s)..];
    var negative := 0 < |t| && t[0] == '-';
    var u := if 0 < |t| && (t[0] == '+' || t[0] == '-') then t[1..] else t;
    var d := LeadingDigits(u);
    if d == 0 then None
    else
      var v: int := Value(u[..d]);
      Some(if negative then -v else v)
  }

  /** std::stoi: None where it throws (no digits, or out of range). */
  function StoI(s: string): (r: Option<int>)
    ensures r.Some? ==> IntMin <= r.value <= IntMax
    ensures r.Some? <==> Scan(s).Some? && IntMin <= Scan(s).value <= IntMax
  {
    match Scan(s)
    case None => None
    case Some(n) => if IntMin <= n <= IntMax then Some(n) else None
  }

  /** atoi: 0 when no digit follows; None where the value is out of range
      and the result is undefined. */
  function Atoi(s: string): (r: Option<int>)
    ensures r.Some? ==> IntMin <= r.value <= IntMax
    ensures Scan(s).None? ==> r == Some(0)
    ensures Scan(s).Some? ==> (r.Some? <==> IntMin <= Scan(s).value <= IntMax)
  {
    match Scan(s)
    case None => Some(0)
    case Some(n) => if IntMin <= n <= IntMax then Some(n) else None
  }

  lemma {:induction false} ValueDecimal(n: nat)
    ensures Value(Decimal(n)) == n
    decreases n
  {
    if n >= 10 {
      var s := Decimal(n);
      assert s[..|s| - 1] == Decimal(n / 10);
      ValueDecimal(n / 10);
    }
  }

  /** The scan reads back a decimal form followed by anything that does
      not start with a digit. */
  lemma ScanToString(n: int, rest: string)
    requires rest == [] || !IsDigit(rest[0])
    ensures Scan(ToString(n) + rest) == Some(n)
  {
    if n < 0 {
      NegativeForm(n, rest);
      ScanDigits(-n, rest);
      ScanSigned(Decimal(-n) + rest);
    } else {
      ScanDigits(n, rest);
    }
  }

  lemma NegativeForm(n: int, rest: string)
    requires n < 0
    ensures ToString(n) + rest == "-" + (Decimal(-n) + rest)
  {
    var digits := Decimal(-n);
    assert ToString(n) == "-" + digits;
  }

  /** A leading '-' negates what the scan of the rest reads. */
  lemma ScanSigned(u: string)
    requires 0 < |u| && IsDigit(u[0])
    ensures Scan("-" + u) == if Scan(u).Some? then Some(-Scan(u).value) else None
  {
    var s := "-" + u;
    assert LeadingSpaces(s) == 0;
    assert s[0..] == s;
    assert s[1..] == u;
    assert LeadingSpaces(u) == 0;
    assert u[0..] == u;
  }

  lemma ScanDigits(n: nat, rest: string)
    requires rest == [] || !IsDigit(rest[0])
    ensures var u := Decimal(n) + rest;
            0 < |u| && IsDigit(u[0]) && Scan(u) == Some(n)
  {
    var digits := Decimal(n);
    var u := digits + rest;
    assert LeadingSpaces(u) == 0;
    assert u[0..] == u;
    LeadingDigitsOf(digits, rest);
    assert u[..|digits|] == digits;
    ValueDecimal(n);
  }

  lemma LeadingDigitsOf(digits: string, rest: string)
    requires AllDigits(digits)
    requires rest == [] || !IsDigit(rest[0])
    ensures LeadingDigits(digits + rest) == |digits|
    decreases |digits|
  {
    if |digits| > 0 {
      assert (digits + rest)[1..] == digits[1..] + rest;
      LeadingDigitsOf(digits[1..], rest);
    } else {
      assert digits + rest == rest;
    }
  }

  /** stoi reads back every 32-bit int written in decimal, whatever
      non-digit text follows it, and throws for every value out of range. */
  lemma StoIToString(n: int, rest: string)
    requires rest == [] || !IsDigit(rest[0])
    ensures IntMin <= n <= IntMax ==> StoI(ToString(n) + rest) == Some(n)
    ensures !(IntMin <= n <= IntMax) ==> StoI(ToString(n) + rest).None?
  {
    ScanToString(n, rest);
  }

  /** The same for atoi, which reads text without digits as 0. */
  lemma AtoiToString(n: int, rest: string)
    requires rest == [] || !IsDigit(rest[0])
    ensures IntMin <= n <= IntMax ==> Atoi(ToString(n) + rest) == Some(n)
    ensures Atoi("") == Some(0)
  {
    ScanToString(n, rest);
  }
}
