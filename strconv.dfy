/** strconv.ParseInt(s, 10, 64), the parse WriteData and the decode path
    apply to the offset option. On an error Go still returns a value: 0 for
    a syntax error, the nearest int64 bound for a range error. */
module Strconv {

  const MaxUint64: int := 0xFFFF_FFFF_FFFF_FFFF
  const Cutoff: int := 0x8000_0000_0000_0000   // 1 << 63

  /** The (value, err == nil) pair ParseInt returns. */
  datatype Parsed = Parsed(value: int, ok: bool)

  /** What ParseUint's digit loop ends with. */
  datatype Digits = Syntax | Range | Value(n: nat)

  predicate IsDigit(c: char) {
    '0' <= c <= '9'
  }

  function DigitValue(c: char): (v: nat)
    requires IsDigit(c)
  {
    c as int - '0' as int
  }

  /** ParseUint's loop: digits left to right; the first non-digit is a
      syntax error, unless the value passed 2^64 - 1 before it. */
  function Accumulate(s: string, acc: nat): (d: Digits)
    decreases |s|
  {
    if s == [] then Value(acc)
    else if !IsDigit(s[0]) then Syntax
    else if acc * 10 + DigitValue(s[0]) > MaxUint64 then Range
    else Accumulate(s[1..], acc * 10 + DigitValue(s[0]))
  }

  function ParseUint(s: string): (d: Digits) {
    if s == [] then Syntax else Accumulate(s, 0)
  }

  function ParseInt(s: string): (p: Parsed)
    ensures p.ok ==> s != [] && -Cutoff <= p.value < Cutoff
    ensures !p.ok ==> p.value in {0, Cutoff - 1, -Cutoff}
  {
    if s == [] then Parsed(0, false)
    else
      var neg := s[0] == '-';
      var digits := if s[0] == '+' || s[0] == '-' then s[1..] else s;
      match ParseUint(digits)
      case Syntax => Parsed(0, false)
      case Range => if neg then Parsed(-Cutoff, false) else Parsed(Cutoff - 1, false)
      case Value(un) =>
        if !neg && un >= Cutoff then Parsed(Cutoff - 1, false)
        else if neg && un > Cutoff then Parsed(-Cutoff, false)
        else Parsed(if neg then -(un as int) else un, true)
  }

  /** Decimal digits of n without leading zeros (strconv.Itoa for n >= 0). */
  function Decimal(n: nat): (d: string)
    ensures d != [] && forall i :: 0 <= i < |d| ==> IsDigit(d[i])
    decreases n
  {
    var last := ('0' as int + n % 10) as char;
    if n < 10 then [last] else Decimal(n / 10) + [last]
  }

  /** Appending one character to the digits either adds that digit or keeps
      the error the loop already stopped at. */
  lemma {:induction false} AccumulateSnoc(s: string, c: char, acc: nat)
    ensures Accumulate(s + [c], acc) ==
      match Accumulate(s, acc)
      case Value(m) => Accumulate([c], m)
      case other => other
    decreases |s|
  {
    if s == [] {
      assert s + [c] == [c];
    } else {
      assert (s + [c])[0] == s[0];
      assert (s + [c])[1..] == s[1..] + [c];
      if IsDigit(s[0]) && acc * 10 + DigitValue(s[0]) <= MaxUint64 {
        AccumulateSnoc(s[1..], c, acc * 10 + DigitValue(s[0]));
      }
    }
  }

  lemma {:induction false} AccumulateDecimal(n: nat)
    requires n <= MaxUint64
    ensures Accumulate(Decimal(n), 0) == Value(n)
    decreases n
  {
    var last := ('0' as int + n % 10) as char;
    if n >= 10 {
      AccumulateDecimal(n / 10);
      AccumulateSnoc(Decimal(n / 10), last, 0);
      assert Accumulate([last], n / 10) == Accumulate([], n);
    }
  }

  /** Every offset printed in decimal (as a walk report gives it) parses back
      to itself. */
  lemma ParseIntDecimal(n: nat)
    requires n < Cutoff
    ensures ParseInt(Decimal(n)) == Parsed(n, true)
  {
    AccumulateDecimal(n);
  }

  /** A leading '-' followed by decimal digits gives the negative value. */
  lemma ParseIntNegative(n: nat)
    requires 0 < n <= Cutoff
    ensures ParseInt(['-'] + Decimal(n)) == Parsed(-(n as int), true)
  {
    AccumulateDecimal(n);
    assert (['-'] + Decimal(n))[1..] == Decimal(n);
  }

  /** A string with a character that is neither a digit nor a leading sign
      is a syntax error: offset 0 and an error. */
  lemma {:induction false} ParseIntRejectsNonDigit(s: string, i: nat)
    requires i < |s| && !IsDigit(s[i])
    requires i > 0 || (s[0] != '+' && s[0] != '-')
    ensures !ParseInt(s).ok
  {
    var digits := if s[0] == '+' || s[0] == '-' then s[1..] else s;
    var j := if s[0] == '+' || s[0] == '-' then i - 1 else i;
    assert !IsDigit(digits[j]);
    AccumulateNotValue(digits, j, 0);
  }

  lemma {:induction false} AccumulateNotValue(s: string, j: nat, acc: nat)
    requires j < |s| && !IsDigit(s[j])
    ensures !Accumulate(s, acc).Value?
    decreases |s|
  {
    if IsDigit(s[0]) && acc * 10 + DigitValue(s[0]) <= MaxUint64 {
      AccumulateNotValue(s[1..], j - 1, acc * 10 + DigitValue(s[0]));
    }
  }
}
