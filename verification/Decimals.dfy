/** Reading a decimal number out of business text: symbol stripping, the decimal mark, and `float`. */
module Decimals {
  import opened Ascii
  import opened PythonText
  import opened Wrappers

  // ---- float(s), over the reals -------------------------------------------

  predicate AllDigits(s: string) { forall i :: 0 <= i < |s| ==> IsDigit(s[i]) }

  function DigitValue(c: char): int {
    if IsDigit(c) then c as int - '0' as int else 0
  }

  function WholeValue(s: string): int {
    if s == [] then 0 else 10 * WholeValue(s[..|s| - 1]) + DigitValue(s[|s| - 1])
  }

  function FractionValue(s: string): (x: real)
    ensures 0.0 <= x < 1.0
  {
    if s == [] then 0.0 else (DigitValue(s[0]) as real + FractionValue(s[1..])) / 10.0
  }

  /** The length of the leading run of digits. */
  function DigitRun(s: string): (n: nat)
    ensures n <= |s|
  {
    if s == [] || !IsDigit(s[0]) then 0 else 1 + DigitRun(s[1..])
  }

  /** `x` times ten to the power `e`. */
  function Scale(x: real, e: int): real
    decreases if e < 0 then -e else e
  {
    if e == 0 then x else if e > 0 then Scale(x * 10.0, e - 1) else Scale(x / 10.0, e + 1)
  }

  /** `[eE][+-]?digits`, or nothing. */
  function ParseExponent(s: string): Option<int> {
    if s == [] then Some(0)
    else if s[0] != 'e' && s[0] != 'E' then None
    else
      var signed := |s| > 1 && (s[1] == '+' || s[1] == '-');
      var digits := if signed then s[2..] else s[1..];
      if digits == [] || DigitRun(digits) < |digits| then None
      else Some(if signed && s[1] == '-' then 0 - WholeValue(digits) else WholeValue(digits))
  }

  /** Digits before the point, digits after it, and what is left for the exponent. */
  datatype Scanned = Scanned(whole: string, fraction: string, tail: string)

  function Scan(s: string): Scanned {
    var n := DigitRun(s);
    var whole, rest := s[..n], s[n..];
    if rest != [] && rest[0] == '.' then
      var m := DigitRun(rest[1..]);
      Scanned(whole, rest[1..][..m], rest[1..][m..])
    else Scanned(whole, [], rest)
  }

  /** `digits[.digits]` or `.digits`, then an exponent. */
  function Interpret(p: Scanned): Option<real> {
    if p.whole == [] && p.fraction == [] then None
    else match ParseExponent(p.tail)
      case None => None
      case Some(e) => Some(Scale(WholeValue(p.whole) as real + FractionValue(p.fraction), e))
  }

  function ParseUnsigned(s: string): Option<real> { Interpret(Scan(s)) }

  function ParseFloat(s: string): Option<real> {
    if s != [] && s[0] == '-' then
      match ParseUnsigned(s[1..]) case None => None case Some(x) => Some(-x)
    else if s != [] && s[0] == '+' then ParseUnsigned(s[1..])
    else ParseUnsigned(s)
  }

  // ---- the operation's own steps ------------------------------------------

  /** The characters `_NON_NUMERIC_RE` leaves. */
  predicate Numeric(c: char) {
    IsDigit(c) || c == 'e' || c == 'E' || c == '+' || c == '-' || c == '.' || c == ','
  }

  function StripSymbols(s: string): string {
    if s == [] then [] else (if Numeric(s[0]) then [s[0]] else []) + StripSymbols(s[1..])
  }

  function Replace(c: char, d: char, s: string): string {
    seq(|s|, i requires 0 <= i < |s| => if s[i] == c then d else s[i])
  }

  function CountChar(c: char, s: string): nat {
    if s == [] then 0 else (if s[0] == c then 1 else 0) + CountChar(c, s[1..])
  }

  function Total(c: char, values: seq<string>): nat {
    if values == [] then 0 else CountChar(c, values[0]) + Total(c, values[1..])
  }

  function DetectDecimal(values: seq<string>): char {
    var commas, dots := Total(',', values), Total('.', values);
    if commas == 0 then '.' else if dots == 0 then ',' else if dots <= commas then '.' else ','
  }

  function Coerce(value: string, decimal: char): Option<real> {
    var s := StripSymbols(value);
    if s == [] then None
    else ParseFloat(if decimal == ',' then Replace(',', '.', Remove(s, '.')) else Remove(s, ','))
  }

  // ---- printing -----------------------------------------------------------

  function Digits(n: nat): (s: string)
    ensures s != [] && AllDigits(s)
  {
    var last := [(n % 10 + '0' as int) as char];
    if n < 10 then last else Digits(n / 10) + last
  }

  /** A separator before every group of three digits, counted from the right. */
  function Grouped(digits: string, separator: char): string {
    var n := |digits|;
    if n <= 3 then digits else Grouped(digits[..n - 3], separator) + [separator] + digits[n - 3..]
  }

  /** The decimal mark and the digits after it, or nothing for an integer. */
  function FractionPart(mark: char, fraction: string): string {
    if fraction == [] then [] else [mark] + fraction
  }

  datatype Locale = US | EU {
    function Mark(): char { if US? then '.' else ',' }
    function Separator(): char { if US? then ',' else '.' }
  }

  datatype Sign = Unsigned | Plus | Minus {
    function Print(): string { match this case Unsigned => "" case Plus => "+" case Minus => "-" }
  }

  predicate IsExponentLetter(c: char) { c == 'e' || c == 'E' }

  /** No digit and no sign: what may stand around a number without becoming part of its digits. */
  predicate Decoration(s: string) {
    forall i :: 0 <= i < |s| ==> !IsDigit(s[i]) && s[i] != '+' && s[i] != '-'
  }

  predicate Unmarked(s: string) { ',' !in s && '.' !in s }

  predicate HasExponentLetter(s: string) { 'e' in s || 'E' in s }

  /** A decimal as a person writes it, with symbols and letters around the sign and the digits. */
  datatype Written = Written(sign: Sign, whole: nat, fraction: string, grouped: bool,
                             front: string, middle: string, back: string) {
    ghost predicate Decorated() {
      AllDigits(fraction) && Decoration(front) && Decoration(middle) && Decoration(back)
    }

    /** No mark or separator outside the number. */
    ghost predicate Valid() {
      Decorated() && Unmarked(front) && Unmarked(middle) && Unmarked(back)
    }

    /** No exponent letter outside the number. */
    predicate Plain() {
      !HasExponentLetter(front) && !HasExponentLetter(middle) && !HasExponentLetter(back)
    }

    function Value(): real {
      var x := whole as real + FractionValue(fraction);
      if sign.Minus? then -x else x
    }

    function Whole(separator: char): string {
      if grouped then Grouped(Digits(whole), separator) else Digits(whole)
    }

    function Body(locale: Locale): string {
      Whole(locale.Separator()) + FractionPart(locale.Mark(), fraction)
    }

    function Print(locale: Locale): string {
      front + (sign.Print() + (middle + (Body(locale) + back)))
    }

    /** Marks among the symbols are harmless behind an integer, one at most, and in front of a bare zero. */
    predicate MarksHarmless(mark: char) {
      var inFront, inMiddle, behind := CountChar(mark, front), CountChar(mark, middle), CountChar(mark, back);
      if inFront + inMiddle == 0 then behind == 0 || (behind == 1 && fraction == [])
      else inFront + inMiddle == 1 && behind == 0 && whole == 0 && fraction == [] && (sign.Unsigned? || inFront == 0)
    }

    predicate HasSeparator() { grouped && |Digits(whole)| > 3 }

    /** With the group separator taken for the mark: the number has none, at most one stands among the symbols and not
        before a sign, and what is read is an integer with none in front, or zero. */
    predicate SeparatorsHarmless(separator: char) {
      var inFront, inMiddle, behind := CountChar(separator, front), CountChar(separator, middle),
          CountChar(separator, back);
      && !HasSeparator()
      && inFront + inMiddle + behind <= 1 && (sign.Unsigned? || inFront == 0)
      && (Value() == 0.0 || (fraction == [] && inFront + inMiddle == 0))
    }

    /** Whether this mark reads the number, exponent letters aside. */
    predicate ReadsWith(locale: Locale, decimal: char) {
      if decimal == locale.Mark() then MarksHarmless(decimal) else SeparatorsHarmless(decimal)
    }
  }
}
