/** Which texts `float` reads, and as what: a grammar, and the value of each of its words. */
module Floats {
  import opened Wrappers
  import opened Ascii
  import opened PythonText
  import opened Decimals
  import P = DecimalsProperties

  // ---- the grammar --------------------------------------------------------

  /** Digits, a point, and digits, not both runs empty; perhaps a sign before and an exponent behind. */
  datatype Literal = Literal(sign: Sign, whole: string, point: bool, fraction: string, exponent: Exponent)

  datatype Exponent = NoExponent | Exponent(letter: char, sign: Sign, digits: string)

  predicate ValidExponent(e: Exponent) {
    e.Exponent? ==> (e.letter == 'e' || e.letter == 'E') && e.digits != "" && AllDigits(e.digits)
  }

  predicate ValidLiteral(l: Literal) {
    && AllDigits(l.whole) && AllDigits(l.fraction) && (l.whole != "" || l.fraction != "")
    && (l.fraction != "" ==> l.point) && ValidExponent(l.exponent)
  }

  function PrintExponent(e: Exponent): string {
    match e
    case NoExponent => ""
    case Exponent(letter, sign, digits) => [letter] + (sign.Print() + digits)
  }

  function PrintFraction(l: Literal): string { if l.point then ['.'] + l.fraction else "" }

  function Body(l: Literal): string { l.whole + (PrintFraction(l) + PrintExponent(l.exponent)) }

  function PrintLiteral(l: Literal): string { l.sign.Print() + Body(l) }

  // ---- the value ----------------------------------------------------------

  /** Ten times itself, `n` times over. */
  function Shift(x: real, n: nat): real
    decreases n
  {
    if n == 0 then x else Shift(x * 10.0, n - 1)
  }

  function PowerOf(e: Exponent): int {
    match e
    case NoExponent => 0
    case Exponent(_, sign, digits) => if sign.Minus? then 0 - WholeValue(digits) else WholeValue(digits)
  }

  /** `x` is the digits as one integer, times ten to the exponent less the digits behind the point. */
  predicate IsMagnitude(l: Literal, x: real) {
    var digits, power := WholeValue(l.whole + l.fraction) as real, PowerOf(l.exponent) - |l.fraction|;
    if power >= 0 then x == Shift(digits, power) else Shift(x, 0 - power) == digits
  }

  predicate IsValue(l: Literal, x: real) { IsMagnitude(l, if l.sign.Minus? then -x else x) }

  // ---- shifting -----------------------------------------------------------

  lemma {:induction false} ShiftSum(x: real, y: real, n: nat)
    ensures Shift(x + y, n) == Shift(x, n) + Shift(y, n)
    decreases n
  {
    if n > 0 { ShiftSum(x * 10.0, y * 10.0, n - 1); }
  }

  lemma {:induction false} ShiftTwice(x: real, m: nat, n: nat)
    ensures Shift(Shift(x, m), n) == Shift(x, m + n)
    decreases m
  {
    if m > 0 { ShiftTwice(x * 10.0, m - 1, n); }
  }

  lemma {:induction false} ShiftApart(x: real, y: real, n: nat)
    requires Shift(x, n) == Shift(y, n)
    ensures x == y
    decreases n
  {
    if n > 0 { ShiftApart(x * 10.0, y * 10.0, n - 1); }
  }

  /** Scaling up shifts; scaling down is undone by shifting. */
  lemma {:induction false} ScaleShifts(x: real, e: int)
    ensures if e >= 0 then Scale(x, e) == Shift(x, e) else Shift(Scale(x, e), 0 - e) == x
    decreases if e < 0 then -e else e
  {
    if e > 0 {
      ScaleShifts(x * 10.0, e - 1);
    } else if e < 0 {
      ScaleShifts(x / 10.0, e + 1);
      ShiftOnce(Scale(x, e), 0 - (e + 1));
      if e + 1 == 0 { assert Shift(Scale(x, e), 0) == x / 10.0; }
    }
  }

  lemma {:induction false} ShiftOnce(x: real, n: nat)
    ensures Shift(x, n + 1) == Shift(x, n) * 10.0
    decreases n
  {
    if n > 0 { ShiftOnce(x * 10.0, n - 1); }
  }

  // ---- digits -------------------------------------------------------------

  /** A number is read place by place. */
  lemma {:induction false} WholeJoin(a: string, b: string)
    ensures WholeValue("") == 0
    ensures WholeValue(a + b) as real == Shift(WholeValue(a) as real, |b|) + WholeValue(b) as real
  {
    if b == [] {
      assert a + b == a;
    } else {
      var n := |b| - 1;
      assert (a + b)[..|a + b| - 1] == a + b[..n];
      WholeJoin(a, b[..n]);
      ShiftOnce(WholeValue(a) as real, n);
    }
  }

  lemma OneDigit(c: char)
    requires IsDigit(c)
    ensures WholeValue([c]) == c as int - '0' as int
  {
    assert [c][..0] == [];
  }

  /** The digits behind a point, moved in front of it, are the integer they spell. */
  lemma {:induction false} FractionShifts(s: string)
    ensures Shift(FractionValue(s), |s|) == WholeValue(s) as real
  {
    if s != [] {
      var d, n := DigitValue(s[0]) as real, |s| - 1;
      FractionShifts(s[1..]);
      ShiftSum(d, FractionValue(s[1..]), n);
      WholeJoin([s[0]], s[1..]);
      assert [s[0]] + s[1..] == s && [s[0]][..0] == [];
      assert FractionValue(s) * 10.0 == d + FractionValue(s[1..]);
    }
  }

  lemma DigitsShift(whole: string, fraction: string)
    ensures Shift(WholeValue(whole) as real + FractionValue(fraction), |fraction|)
         == WholeValue(whole + fraction) as real
  {
    ShiftSum(WholeValue(whole) as real, FractionValue(fraction), |fraction|);
    FractionShifts(fraction);
    WholeJoin(whole, fraction);
  }

  /** What the parser computes. */
  function Computed(l: Literal): real {
    Scale(WholeValue(l.whole) as real + FractionValue(l.fraction), PowerOf(l.exponent))
  }

  /** The value that is computed is the value that is meant. */
  lemma ScaledIsMagnitude(l: Literal)
    ensures IsMagnitude(l, Computed(l))
  {
    var y, k, e := WholeValue(l.whole) as real + FractionValue(l.fraction), |l.fraction|, PowerOf(l.exponent);
    var x := Scale(y, e);
    DigitsShift(l.whole, l.fraction);
    ScaleShifts(y, e);
    if e >= k {
      ShiftTwice(y, k, e - k);
    } else if e >= 0 {
      ShiftTwice(y, e, k - e);
    } else {
      ShiftTwice(x, 0 - e, k);
    }
  }

  lemma MagnitudeIsUnique(l: Literal, x: real, y: real)
    requires IsMagnitude(l, x) && IsMagnitude(l, y)
    ensures x == y
  {
    var power := PowerOf(l.exponent) - |l.fraction|;
    if power < 0 { ShiftApart(x, y, 0 - power); }
  }

  // ---- every word is read -------------------------------------------------

  lemma AllDigitsRun(s: string)
    requires AllDigits(s)
    ensures DigitRun(s) == |s|
  {
    P.DigitRunStops(s, []);
    assert s + [] == s;
  }

  lemma PlainExponent(letter: char, digits: string)
    requires (letter == 'e' || letter == 'E') && digits != "" && AllDigits(digits)
    ensures ParseExponent([letter] + digits) == Some(WholeValue(digits))
  {
    AllDigitsRun(digits);
    assert ([letter] + digits)[1..] == digits && IsDigit(digits[0]);
  }

  lemma SignedExponent(letter: char, c: char, digits: string)
    requires (letter == 'e' || letter == 'E') && (c == '+' || c == '-') && digits != "" && AllDigits(digits)
    ensures ParseExponent([letter] + ([c] + digits))
         == Some(if c == '-' then 0 - WholeValue(digits) else WholeValue(digits))
  {
    AllDigitsRun(digits);
    assert ([letter] + ([c] + digits))[2..] == digits;
  }

  lemma ExponentReads(e: Exponent)
    requires ValidExponent(e)
    ensures ParseExponent(PrintExponent(e)) == Some(PowerOf(e))
  {
    match e
    case NoExponent =>
    case Exponent(letter, sign, digits) =>
      match sign
      case Unsigned =>
        assert "" + digits == digits;
        PlainExponent(letter, digits);
      case Plus => SignedExponent(letter, '+', digits);
      case Minus => SignedExponent(letter, '-', digits);
  }

  ghost predicate EndsDigits(s: string) { s == [] || !IsDigit(s[0]) }

  lemma ExponentEndsDigits(e: Exponent)
    requires ValidExponent(e)
    ensures EndsDigits(PrintExponent(e)) && (PrintExponent(e) != [] ==> PrintExponent(e)[0] != '.')
  {
  }

  lemma UnsignedReads(l: Literal)
    requires ValidLiteral(l)
    ensures Scan(Body(l)) == Scanned(l.whole, l.fraction, PrintExponent(l.exponent))
  {
    var tail := PrintExponent(l.exponent);
    var rest := PrintFraction(l) + tail;
    ExponentEndsDigits(l.exponent);
    if l.point {
      assert rest == ['.'] + (l.fraction + tail);
      P.DigitRunStops(l.fraction, tail);
      P.DigitRunStops(l.whole, rest);
      assert rest[1..] == l.fraction + tail;
      assert (l.fraction + tail)[..|l.fraction|] == l.fraction && (l.fraction + tail)[|l.fraction|..] == tail;
    } else {
      assert rest == tail;
      P.DigitRunStops(l.whole, rest);
    }
    assert (l.whole + rest)[..|l.whole|] == l.whole && (l.whole + rest)[|l.whole|..] == rest;
  }

  lemma StartsUnsigned(l: Literal)
    requires ValidLiteral(l)
    ensures Body(l) != [] && Body(l)[0] != '-' && Body(l)[0] != '+'
  {
    if l.whole != [] { assert IsDigit(l.whole[0]); }
  }

  lemma ScannedReads(p: Scanned, e: int)
    requires p.whole != [] || p.fraction != []
    requires ParseExponent(p.tail) == Some(e)
    ensures Interpret(p) == Some(Scale(WholeValue(p.whole) as real + FractionValue(p.fraction), e))
  {
  }

  lemma ParsesAs(s: string, l: Literal)
    requires Scan(s) == Scanned(l.whole, l.fraction, PrintExponent(l.exponent))
    requires l.whole != "" || l.fraction != ""
    requires ParseExponent(PrintExponent(l.exponent)) == Some(PowerOf(l.exponent))
    ensures ParseUnsigned(s) == Some(Computed(l))
  {
    ScannedReads(Scan(s), PowerOf(l.exponent));
  }

  lemma BodyReads(l: Literal)
    requires ValidLiteral(l)
    ensures ParseUnsigned(Body(l)) == Some(Computed(l))
  {
    UnsignedReads(l);
    ExponentReads(l.exponent);
    ParsesAs(Body(l), l);
  }

  function Signed(sign: Sign, x: Option<real>): Option<real> {
    if sign.Minus? && x.Some? then Some(-x.value) else x
  }

  lemma SignReads(sign: Sign, body: string)
    requires body != [] && body[0] != '-' && body[0] != '+'
    ensures ParseFloat(sign.Print() + body) == Signed(sign, ParseUnsigned(body))
  {
    var s := sign.Print() + body;
    if sign.Unsigned? { assert s == body; } else { assert s[1..] == body; }
  }

  lemma LiteralParses(l: Literal)
    requires ValidLiteral(l)
    ensures ParseFloat(PrintLiteral(l)) == Signed(l.sign, Some(Computed(l)))
  {
    StartsUnsigned(l);
    BodyReads(l);
    SignReads(l.sign, Body(l));
  }

  lemma SignedIsValue(l: Literal, x: real)
    requires IsMagnitude(l, x)
    ensures IsValue(l, Signed(l.sign, Some(x)).value)
  {
    assert 0.0 - (0.0 - x) == x;
  }

  /** Every word of the grammar is read, as its value. */
  lemma LiteralReads(l: Literal)
    requires ValidLiteral(l)
    ensures ParseFloat(PrintLiteral(l)).Some? && IsValue(l, ParseFloat(PrintLiteral(l)).value)
  {
    LiteralParses(l);
    ScaledIsMagnitude(l);
    SignedIsValue(l, Computed(l));
  }

  // ---- nothing else is read -----------------------------------------------

  lemma ExponentSpelled(s: string) returns (e: Exponent)
    requires ParseExponent(s).Some?
    ensures ValidExponent(e) && PrintExponent(e) == s
  {
    if s == [] {
      e := NoExponent;
    } else {
      var signed := |s| > 1 && (s[1] == '+' || s[1] == '-');
      var digits := if signed then s[2..] else s[1..];
      P.DigitRunIsDigits(digits);
      e := Exponent(s[0], if !signed then Unsigned else if s[1] == '-' then Minus else Plus, digits);
      assert s == [s[0]] + s[1..];
      if signed { assert s[1..] == [s[1]] + s[2..]; }
    }
  }

  /** A text cut behind its digits, at a point, and behind the digits after it. */
  lemma PointCut(s: string, n: nat, m: nat)
    requires n < |s| && s[n] == '.' && m <= |s| - n - 1
    ensures s == s[..n] + ((['.'] + s[n + 1..n + 1 + m]) + s[n + 1 + m..])
  {
  }

  lemma ScanCuts(s: string) returns (n: nat, m: nat)
    ensures n <= |s| && AllDigits(s[..n])
    ensures var p := Scan(s);
            if n < |s| && s[n] == '.' then
              && m <= |s| - n - 1 && AllDigits(s[n + 1..n + 1 + m])
              && p == Scanned(s[..n], s[n + 1..n + 1 + m], s[n + 1 + m..])
            else p == Scanned(s[..n], [], s[n..])
  {
    n, m := DigitRun(s), 0;
    P.DigitRunIsDigits(s);
    var rest := s[n..];
    if rest != [] && rest[0] == '.' {
      m := DigitRun(rest[1..]);
      P.DigitRunIsDigits(rest[1..]);
      assert rest[1..] == s[n + 1..];
      assert s[n + 1..][..m] == s[n + 1..n + 1 + m] && s[n + 1..][m..] == s[n + 1 + m..];
    }
  }

  lemma PointSpelled(s: string, n: nat, m: nat, sign: Sign, e: Exponent) returns (l: Literal)
    requires n < |s| && s[n] == '.' && m <= |s| - n - 1 && (n > 0 || m > 0)
    requires AllDigits(s[..n]) && AllDigits(s[n + 1..n + 1 + m])
    requires ValidExponent(e) && PrintExponent(e) == s[n + 1 + m..]
    ensures ValidLiteral(l) && l.sign == sign && s == Body(l)
  {
    l := Literal(sign, s[..n], true, s[n + 1..n + 1 + m], e);
    PointCut(s, n, m);
  }

  lemma WholeSpelled(s: string, n: nat, sign: Sign, e: Exponent) returns (l: Literal)
    requires 0 < n <= |s| && AllDigits(s[..n])
    requires ValidExponent(e) && PrintExponent(e) == s[n..]
    ensures ValidLiteral(l) && l.sign == sign && s == Body(l)
  {
    l := Literal(sign, s[..n], false, "", e);
    assert s == s[..n] + ("" + s[n..]);
  }

  lemma UnsignedSpelled(s: string, sign: Sign) returns (l: Literal)
    requires ParseUnsigned(s).Some?
    ensures ValidLiteral(l) && l.sign == sign && s == Body(l)
  {
    var n, m := ScanCuts(s);
    var e := ExponentSpelled(Scan(s).tail);
    if n < |s| && s[n] == '.' {
      l := PointSpelled(s, n, m, sign, e);
    } else {
      l := WholeSpelled(s, n, sign, e);
    }
  }

  lemma SignCut(s: string) returns (sign: Sign, body: string)
    ensures s == sign.Print() + body && ParseFloat(s).Some? == ParseUnsigned(body).Some?
  {
    if s != [] && (s[0] == '-' || s[0] == '+') {
      sign, body := if s[0] == '-' then Minus else Plus, s[1..];
    } else {
      sign, body := Unsigned, s;
    }
  }

  /** Every text that is read is a word of the grammar. */
  lemma FloatSpelled(s: string) returns (l: Literal)
    requires ParseFloat(s).Some?
    ensures ValidLiteral(l) && PrintLiteral(l) == s
  {
    var sign, body := SignCut(s);
    l := UnsignedSpelled(body, sign);
  }

  ghost predicate Spells(s: string, x: real) {
    exists l :: ValidLiteral(l) && PrintLiteral(l) == s && IsValue(l, x)
  }

  lemma ValueIsUnique(l: Literal, x: real, y: real)
    requires IsValue(l, x) && IsValue(l, y)
    ensures x == y
  {
    MagnitudeIsUnique(l, if l.sign.Minus? then -x else x, if l.sign.Minus? then -y else y);
  }

  lemma SpelledReads(s: string, x: real)
    requires Spells(s, x)
    ensures ParseFloat(s) == Some(x)
  {
    var l :| ValidLiteral(l) && PrintLiteral(l) == s && IsValue(l, x);
    LiteralReads(l);
    ValueIsUnique(l, x, ParseFloat(s).value);
  }

  /** `float` gives a number exactly for the words of the grammar, and then their value. */
  lemma FloatIff(s: string, x: real)
    ensures ParseFloat(s) == Some(x) <==> Spells(s, x)
  {
    if ParseFloat(s).Some? {
      var l := FloatSpelled(s);
      LiteralReads(l);
    }
    if Spells(s, x) { SpelledReads(s, x); }
  }

  // ---- what is read of a business text ------------------------------------

  /** Digits, signs and exponent letters stay, the mark becomes a point, and everything else goes. */
  function Cleaned(s: string, mark: char): string {
    if s == [] then [] else CleanedChar(s[0], mark) + Cleaned(s[1..], mark)
  }

  function CleanedChar(c: char, mark: char): string {
    if '0' <= c <= '9' || c == 'e' || c == 'E' || c == '+' || c == '-' then [c] else if c == mark then "." else ""
  }

  function Unified(s: string, mark: char): string {
    if mark == ',' then Replace(',', '.', Remove(s, '.')) else Remove(s, ',')
  }

  lemma UnifiedStep(c: char, s: string, mark: char)
    requires (mark == ',' || mark == '.') && Numeric(c)
    ensures Unified([c] + s, mark) == CleanedChar(c, mark) + Unified(s, mark)
  {
    assert ([c] + s)[1..] == s;
    if mark == ',' {
      var rest := Remove(s, '.');
      assert Replace(',', '.', [c] + rest) == [if c == ',' then '.' else c] + Replace(',', '.', rest);
    }
  }

  lemma {:induction false} StripUnifies(s: string, mark: char)
    requires mark == ',' || mark == '.'
    ensures Unified(StripSymbols(s), mark) == Cleaned(s, mark)
  {
    if s != [] {
      var rest := StripSymbols(s[1..]);
      StripUnifies(s[1..], mark);
      if Numeric(s[0]) {
        UnifiedStep(s[0], rest, mark);
      } else {
        assert [] + rest == rest && "" + Cleaned(s[1..], mark) == Cleaned(s[1..], mark);
      }
    }
  }

  /** For every text and either mark: it reads as a number exactly when what is left of it is a word of the grammar, and
      then as its value. */
  lemma CoerceIff(value: string, mark: char, x: real)
    requires mark == ',' || mark == '.'
    ensures Coerce(value, mark) == Some(x) <==> Spells(Cleaned(value, mark), x)
  {
    StripUnifies(value, mark);
    FloatIff(Cleaned(value, mark), x);
    assert ParseFloat("") == None;
  }
}
