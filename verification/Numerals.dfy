/** Positional numerals: "%x" of String.format, string concatenation of a long, and Long.parseLong. */
module Numerals {
  import opened Octets

  const LONG_MIN := -0x8000_0000_0000_0000
  const LONG_MAX := 0x7fff_ffff_ffff_ffff

  predicate IsBase(base: nat) {
    base == 10 || base == 16
  }

  /** A number without its last digit, and that digit. */
  function Split(n: nat, base: nat): (r: (nat, nat))
    requires IsBase(base)
    ensures r.1 < base && n == Scale(r.0, base) + r.1
    ensures r.0 == 0 || r.0 < n
  {
    if base == 10 then (n / 10, n % 10) else (n / 16, n % 16)
  }

  function Scale(n: nat, base: nat): nat
    requires IsBase(base)
  {
    if base == 10 then n * 10 else n * 16
  }

  /** The digit that stands for d, and back; letters are read in either case. */
  function DigitChar(d: nat): byte
    requires d < 16
  {
    (if d < 10 then d + 48 else d + 87) as char
  }

  function DigitValue(c: byte, base: nat): (r: Option<nat>)
    requires IsBase(base)
    ensures r.Some? ==> r.value < base && c > ' '
  {
    var code := c as int;
    var d := if 48 <= code <= 57 then code - 48
             else if 97 <= code <= 102 then code - 87
             else if 65 <= code <= 70 then code - 55
             else 16;
    if d < base then Some(d) else None
  }

  lemma DigitRoundTrip(d: nat, base: nat)
    requires IsBase(base) && d < base
    ensures DigitValue(DigitChar(d), base) == Some(d)
  {
  }

  /** The shortest numeral of n, most significant digit first. */
  function Print(n: nat, base: nat): (s: bytes)
    requires IsBase(base)
    ensures s != []
    decreases n
  {
    var (rest, last) := Split(n, base);
    if rest == 0 then [DigitChar(last)] else Print(rest, base) + [DigitChar(last)]
  }

  function Parse(s: bytes, base: nat): Option<nat>
    requires IsBase(base)
  {
    if s == [] then None
    else
      match DigitValue(s[|s| - 1], base)
      case None => None
      case Some(d) =>
        if |s| == 1 then Some(d)
        else
          match Parse(s[..|s| - 1], base)
          case None => None
          case Some(n) => Some(Scale(n, base) + d)
  }

  lemma {:induction false} PrintedDigits(n: nat, base: nat)
    requires IsBase(base)
    ensures forall i :: 0 <= i < |Print(n, base)| ==> DigitValue(Print(n, base)[i], base).Some?
    decreases n
  {
    var (rest, last) := Split(n, base);
    DigitRoundTrip(last, base);
    if rest > 0 {
      PrintedDigits(rest, base);
    }
  }

  /** Reading back a printed number gives the number. */
  lemma {:induction false} PrintParse(n: nat, base: nat)
    requires IsBase(base)
    ensures Parse(Print(n, base), base) == Some(n)
    decreases n
  {
    var (rest, last) := Split(n, base);
    DigitRoundTrip(last, base);
    if rest > 0 {
      PrintParse(rest, base);
      var s := Print(n, base);
      assert s[..|s| - 1] == Print(rest, base);
    }
  }

  /** Long.parseLong; None is its NumberFormatException. */
  function ParseLong(s: bytes): Option<int> {
    var negative := s != [] && s[0] == '-';
    var digits := if s != [] && (s[0] == '-' || s[0] == '+') then s[1..] else s;
    match Parse(digits, 10)
    case None => None
    case Some(n) =>
      var v: int := if negative then -(n as int) else n;
      if LONG_MIN <= v <= LONG_MAX then Some(v) else None
  }

  lemma PrintParseLong(n: nat)
    requires n <= LONG_MAX
    ensures ParseLong(Print(n, 10)) == Some(n)
    ensures Trimmed(Print(n, 10))
  {
    PrintParse(n, 10);
    PrintedDigits(n, 10);
    var s := Print(n, 10);
    assert DigitValue(s[0], 10).Some? && DigitValue('-', 10) == None && DigitValue('+', 10) == None;
  }
}
