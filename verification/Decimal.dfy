/**
 * Decimal numbers in text: strconv.FormatUint, strconv.ParseUint,
 * strconv.ParseInt / strconv.Atoi (base 10, 64-bit), and the reading of
 * a text query parameter as an integer id by the database.
 */
module Decimal {
  import opened Text
  import opened Results

  const MaxUint64: nat := 0xffff_ffff_ffff_ffff
  const MaxInt64: int := 0x7fff_ffff_ffff_ffff
  const MinInt64: int := -0x8000_0000_0000_0000

  predicate IsDigit(b: Byte) {
    '0' <= b <= '9'
  }

  predicate AllDigits(s: Text) {
    forall i :: 0 <= i < |s| ==> IsDigit(s[i])
  }

  function DigitValue(b: Byte): (d: nat)
    requires IsDigit(b)
    ensures d < 10
  {
    b as int - '0' as int
  }

  function DigitOf(d: nat): (b: Byte)
    requires d < 10
    ensures IsDigit(b) && DigitValue(b) == d
  {
    ('0' as int + d) as char
  }

  /**
   * The number denoted by the digits of `s` read left to right after the
   * digits already read, whose value is `acc`.
   */
  function ValueFrom(acc: nat, s: Text): (v: nat)
    requires AllDigits(s)
    ensures v >= acc
    decreases |s|
  {
    if s == [] then acc else ValueFrom(acc * 10 + DigitValue(s[0]), s[1..])
  }

  /** The number an all-digit text denotes (leading zeros allowed). */
  function Value(s: Text): nat
    requires AllDigits(s)
  {
    ValueFrom(0, s)
  }

  /** One more digit at the end multiplies the value by ten and adds the digit. */
  lemma {:induction false} ValueFromSnoc(acc: nat, s: Text, b: Byte)
    requires AllDigits(s) && IsDigit(b)
    ensures AllDigits(s + [b])
    ensures ValueFrom(acc, s + [b]) == ValueFrom(acc, s) * 10 + DigitValue(b)
    decreases |s|
  {
    if s == [] {
      assert ([] + [b])[1..] == [];
    } else {
      assert (s + [b])[0] == s[0];
      assert (s + [b])[1..] == s[1..] + [b];
      ValueFromSnoc(acc * 10 + DigitValue(s[0]), s[1..], b);
    }
  }

  /** strconv.FormatUint(n, 10): the shortest decimal text of `n`. */
  function Format(n: nat): (r: Text)
    ensures r != [] && AllDigits(r)
    ensures Value(r) == n
    ensures ',' !in r
    ensures r[0] == '0' ==> n == 0
    ensures |r| == 1 || r[0] != '0'
  {
    if n < 10 then
      ValueFromSnoc(0, [], DigitOf(n));
      assert [] + [DigitOf(n)] == [DigitOf(n)];
      [DigitOf(n)]
    else
      ValueFromSnoc(0, Format(n / 10), DigitOf(n % 10));
      Format(n / 10) + [DigitOf(n % 10)]
  }

  /** Distinct numbers have distinct decimal texts. */
  lemma FormatInjective(m: nat, n: nat)
    requires Format(m) == Format(n)
    ensures m == n
  {
    assert Value(Format(m)) == m;
  }

  /** The three outcomes of strconv.ParseUint / strconv.ParseInt. */
  datatype ParseResult = Parsed(value: int) | SyntaxError | RangeError

  /**
   * The digit loop of strconv.ParseUint(s, 10, 64), carrying the value `acc`
   * of the digits read so far.  It stops at the first byte that is not a
   * digit (syntax error) or as soon as the value read so far exceeds
   * MaxUint64 (range error), whichever comes first.
   */
  function ScanUint(s: Text, acc: nat): (r: ParseResult)
    requires acc <= MaxUint64
    ensures r.Parsed? <==> AllDigits(s) && ValueFrom(acc, s) <= MaxUint64
    ensures r.Parsed? ==> r.value == ValueFrom(acc, s)
    decreases |s|
  {
    if s == [] then Parsed(acc)
    else if !IsDigit(s[0]) then SyntaxError
    else
      var next := acc * 10 + DigitValue(s[0]);
      AllDigitsTail(s);
      if next > MaxUint64 then RangeError
      else ScanUint(s[1..], next)
  }

  lemma AllDigitsTail(s: Text)
    requires s != [] && IsDigit(s[0])
    ensures AllDigits(s) <==> AllDigits(s[1..])
  {
    if AllDigits(s[1..]) {
      forall i | 0 <= i < |s| ensures IsDigit(s[i]) {
        if i > 0 { assert s[i] == s[1..][i - 1]; }
      }
    }
  }

  /** strconv.ParseUint(s, 10, 64). */
  function ParseUint(s: Text): (r: ParseResult)
    ensures r.Parsed? <==> s != [] && AllDigits(s) && Value(s) <= MaxUint64
    ensures r.Parsed? ==> r.value == Value(s)
  {
    if s == [] then SyntaxError else ScanUint(s, 0)
  }

  /** The id a decimal text denotes, when strconv.ParseUint(s, 10, 64) accepts it. */
  function ParseId(s: Text): (r: Option<nat>)
    ensures r.Some? <==> s != [] && AllDigits(s) && Value(s) <= MaxUint64
    ensures r.Some? ==> r.value == Value(s)
  {
    match ParseUint(s)
    case Parsed(v) => Some(v)
    case _ => None
  }

  /** FormatUint and ParseUint are inverse on 64-bit values. */
  lemma ParseFormat(n: nat)
    requires n <= MaxUint64
    ensures ParseId(Format(n)) == Some(n)
  {
  }

  /**
   * strconv.ParseInt(s, 10, 64), which strconv.Atoi delegates to on a
   * 64-bit platform: an optional sign, then ParseUint's digit loop; a value
   * out of the int64 range is clamped and reported as a range error, and a
   * syntax error yields 0.
   */
  function ParseInt(s: Text): (r: (int, ParseResult))
    ensures r.1.Parsed? ==> r.0 == r.1.value && MinInt64 <= r.0 <= MaxInt64
    ensures r.1.SyntaxError? ==> r.0 == 0
    ensures r.1.RangeError? ==> r.0 == MaxInt64 || r.0 == MinInt64
  {
    if s == [] then (0, SyntaxError)
    else
      var neg := s[0] == '-';
      var body := if s[0] == '+' || s[0] == '-' then s[1..] else s;
      match ParseUint(body)
      case SyntaxError => (0, SyntaxError)
      case RangeError =>
        if neg then (MinInt64, RangeError) else (MaxInt64, RangeError)
      case Parsed(u) =>
        if !neg && u > MaxInt64 then (MaxInt64, RangeError)
        else if neg && u > -MinInt64 then (MinInt64, RangeError)
        else if neg then (-u, Parsed(-u))
        else (u, Parsed(u))
  }

  /** strconv.Atoi: the value, and whether there was no error. */
  function Atoi(s: Text): (r: (int, bool))
    ensures r.1 <==> ParseInt(s).1.Parsed?
    ensures r.0 == ParseInt(s).0
  {
    var p := ParseInt(s);
    (p.0, p.1.Parsed?)
  }

  /** Atoi accepts exactly the decimal texts of int64 values, with an optional sign. */
  lemma AtoiAccepts(s: Text)
    ensures Atoi(s).1 <==>
      var body := if s != [] && (s[0] == '+' || s[0] == '-') then s[1..] else s;
      && body != [] && AllDigits(body)
      && (if s[0] == '-' then Value(body) <= -MinInt64 else Value(body) <= MaxInt64)
  {
  }

  /** Atoi reads back the decimal text of every int64 value. */
  lemma AtoiFormat(n: nat)
    requires n <= MaxInt64
    ensures Atoi(Format(n)) == (n, true)
  {
    ParseFormat(n);
  }

  /** A non-numeric text reads as 0 when Atoi's error is ignored. */
  lemma AtoiNonNumeric(s: Text)
    requires forall i :: 0 <= i < |s| ==> !IsDigit(s[i])
    ensures Atoi(s) == (0, false)
  {
    if s != [] {
      var body := if s[0] == '+' || s[0] == '-' then s[1..] else s;
      assert body == [] || !IsDigit(body[0]);
    }
  }

  /**
   * A text query parameter compared with an integer column: the database
   * reads it as an integer, and the statement fails on anything else.
   */
  function SqlId(s: Text): (r: Option<nat>)
    ensures r.Some? <==> s != [] && AllDigits(s) && Value(s) <= MaxInt64
    ensures r.Some? ==> r.value == Value(s)
  {
    if s != [] && AllDigits(s) && Value(s) <= MaxInt64 then Some(Value(s)) else None
  }
}
