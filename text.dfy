/**
 * Text handling that the pipeline relies on implicitly: Python's ordering of
 * strings (used by pandas when it sorts a column of text), and the
 * conversions `int(...)` and `float(...)` applied to the text of a cell.
 */
module Text {
  import opened Wrappers

  /** Python's `a <= b` on strings: lexicographic by code point. */
  predicate LexLe(a: string, b: string)
    decreases |a|
  {
    if a == [] then true
    else if b == [] then false
    else if a[0] != b[0] then a[0] < b[0]
    else LexLe(a[1..], b[1..])
  }

  /** The ordering of Python strings, as a comparison. */
  function TextOrder(): (string, string) -> bool
  {
    (a: string, b: string) => LexLe(a, b)
  }

  lemma {:induction false} LexLeTotal(a: string, b: string)
    ensures LexLe(a, b) || LexLe(b, a)
    decreases |a|
  {
    if a != [] && b != [] && a[0] == b[0] {
      LexLeTotal(a[1..], b[1..]);
    }
  }

  lemma {:induction false} LexLeTransitive(a: string, b: string, c: string)
    requires LexLe(a, b) && LexLe(b, c)
    ensures LexLe(a, c)
    decreases |a|
  {
    if a != [] && b != [] && c != [] && a[0] == b[0] && b[0] == c[0] {
      LexLeTransitive(a[1..], b[1..], c[1..]);
    }
  }

  lemma {:induction false} LexLeAntisymmetric(a: string, b: string)
    requires LexLe(a, b) && LexLe(b, a)
    ensures a == b
    decreases |a|
  {
    if a != [] && b != [] {
      LexLeAntisymmetric(a[1..], b[1..]);
      assert a == [a[0]] + a[1..] && b == [b[0]] + b[1..];
    }
  }

  predicate IsDigit(c: char) { '0' <= c <= '9' }

  predicate AllDigits(s: string) { forall i :: 0 <= i < |s| ==> IsDigit(s[i]) }

  /** The value of a string of decimal digits (0 for the empty string). */
  function DigitsValue(s: string): nat
    requires AllDigits(s)
    decreases |s|
  {
    if s == [] then 0 else 10 * DigitsValue(s[..|s| - 1]) + (s[|s| - 1] as int - '0' as int)
  }

  /** The decimal text of a natural number, without leading zeros. */
  function NatText(n: nat): (s: string)
    ensures |s| > 0 && AllDigits(s)
    ensures DigitsValue(s) == n
    ensures |s| > 1 ==> s[0] != '0'
    decreases n
  {
    if n < 10 then [('0' as int + n) as char]
    else
      var s := NatText(n / 10) + [('0' as int + n % 10) as char];
      assert s[..|s| - 1] == NatText(n / 10);
      s
  }

  /** Python's `int(s)` on the text of a cell: an optional sign and at least one digit. */
  function IntValue(s: string): (r: Option<int>)
    ensures r.Some? ==> |s| > 0
  {
    if |s| > 0 && (s[0] == '-' || s[0] == '+') then
      var d := s[1..];
      if |d| > 0 && AllDigits(d) then Some(if s[0] == '-' then 0 - DigitsValue(d) as int else DigitsValue(d) as int) else None
    else if |s| > 0 && AllDigits(s) then Some(DigitsValue(s))
    else None
  }

  lemma IntValueOfNatText(n: nat)
    ensures IntValue(NatText(n)) == Some(n)
  {
  }

  function Pow10(k: nat): (p: nat)
    ensures p >= 1
  {
    if k == 0 then 1 else 10 * Pow10(k - 1)
  }

  function IndexOfDot(s: string): (k: nat)
    ensures k <= |s|
    ensures k < |s| ==> s[k] == '.'
    ensures forall i :: 0 <= i < k ==> s[i] != '.'
  {
    if s == [] then 0 else if s[0] == '.' then 0 else 1 + IndexOfDot(s[1..])
  }

  /** An unsigned decimal `ddd`, `ddd.ddd`, `ddd.` or `.ddd`, with at least one digit. */
  function UnsignedDecimal(s: string): (r: Option<real>)
    ensures r.Some? ==> r.value >= 0.0
  {
    var k := IndexOfDot(s);
    var whole := s[..k];
    var frac := if k < |s| then s[k + 1..] else [];
    if |whole| + |frac| > 0 && AllDigits(whole) && AllDigits(frac) then
      Some(DigitsValue(whole) as real + DigitsValue(frac) as real / Pow10(|frac|) as real)
    else None
  }

  /** The number a cell's text denotes, as Python's `float(s)` reads it; None when it is no number. */
  function DecimalValue(s: string): Option<real>
  {
    if |s| > 0 && (s[0] == '-' || s[0] == '+') then
      match UnsignedDecimal(s[1..])
      case Some(v) => Some(if s[0] == '-' then -v else v)
      case None => None
    else UnsignedDecimal(s)
  }

  /** The spelling `nan`, in any letter case, with an optional sign. */
  predicate IsNanText(s: string)
  {
    var t := if |s| > 0 && (s[0] == '-' || s[0] == '+') then s[1..] else s;
    |t| == 3 && (t[0] == 'n' || t[0] == 'N') && (t[1] == 'a' || t[1] == 'A') && (t[2] == 'n' || t[2] == 'N')
  }

  /** What `float(x)` makes of a cell: a number, not-a-number, or a ValueError. */
  datatype FloatReading = Number(value: real) | NotANumber | Invalid

  /** `float(x)` where x is a cell of a merged table: None is pandas' NaN for a missing cell. */
  function ReadFloat(cell: Option<string>): (r: FloatReading)
    ensures cell.None? ==> r == NotANumber
    ensures r.Number? ==> cell.Some? && DecimalValue(cell.value) == Some(r.value)
    ensures cell.Some? && !IsNanText(cell.value) && DecimalValue(cell.value).Some? ==>
      r == Number(DecimalValue(cell.value).value)
    ensures r == Invalid <==> cell.Some? && !IsNanText(cell.value) && DecimalValue(cell.value).None?
  {
    match cell
    case None => NotANumber
    case Some(s) =>
      if IsNanText(s) then NotANumber
      else match DecimalValue(s)
        case Some(v) => Number(v)
        case None => Invalid
  }
}
