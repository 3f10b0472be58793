/** Printing a decimal and coercing it back: exact with the right mark, and exactly when `auto` finds it. */
module DecimalsProperties {
  import opened Ascii
  import opened PythonText
  import opened Wrappers
  import opened Decimals

  // ---- the steps over concatenations --------------------------------------

  lemma Assoc(a: string, b: string, c: string)
    ensures (a + b) + c == a + (b + c)
  {
  }

  lemma NoTail(a: string)
    ensures a + [] == a && [] + a == a
  {
  }

  lemma {:induction false} StripJoin(a: string, b: string)
    ensures StripSymbols(a + b) == StripSymbols(a) + StripSymbols(b)
  {
    if a == [] {
      NoTail(b);
      NoTail(StripSymbols(b));
    } else {
      assert (a + b)[1..] == a[1..] + b;
      StripJoin(a[1..], b);
      Assoc(if Numeric(a[0]) then [a[0]] else [], StripSymbols(a[1..]), StripSymbols(b));
    }
  }

  lemma {:induction false} StripNothing(s: string)
    requires forall i :: 0 <= i < |s| ==> Numeric(s[i])
    ensures StripSymbols(s) == s
  {
    if s != [] { StripNothing(s[1..]); }
  }

  lemma {:induction false} RemoveJoin(c: char, a: string, b: string)
    ensures Remove(a + b, c) == Remove(a, c) + Remove(b, c)
  {
    if a == [] {
      assert a + b == b;
    } else {
      assert (a + b)[1..] == a[1..] + b;
      RemoveJoin(c, a[1..], b);
    }
  }

  lemma {:induction false} RemoveNothing(c: char, s: string)
    requires c !in s
    ensures Remove(s, c) == s
  {
    if s != [] { RemoveNothing(c, s[1..]); }
  }

  lemma {:induction false} CountJoin(c: char, a: string, b: string)
    ensures CountChar(c, a + b) == CountChar(c, a) + CountChar(c, b)
  {
    if a == [] {
      assert a + b == b;
    } else {
      assert (a + b)[1..] == a[1..] + b;
      CountJoin(c, a[1..], b);
    }
  }

  lemma {:induction false} CountNothing(c: char, s: string)
    requires c !in s
    ensures CountChar(c, s) == 0
  {
    if s != [] { CountNothing(c, s[1..]); }
  }

  lemma StepsOnChar(c: char, d: char)
    ensures StripSymbols([c]) == if Numeric(c) then [c] else []
    ensures Remove([c], d) == if c == d then [] else [c]
    ensures CountChar(d, [c]) == if c == d then 1 else 0
  {
    assert [c][1..] == [];
  }

  lemma {:induction false} DigitRunStops(digits: string, rest: string)
    requires AllDigits(digits) && (rest == [] || !IsDigit(rest[0]))
    ensures DigitRun(digits + rest) == |digits|
  {
    if digits == [] {
      assert digits + rest == rest;
    } else {
      assert (digits + rest)[1..] == digits[1..] + rest;
      DigitRunStops(digits[1..], rest);
    }
  }

  // ---- digits -------------------------------------------------------------

  /** Decimal notation denotes the number it was made from. */
  lemma {:induction false} DigitsDenote(n: nat)
    ensures WholeValue(Digits(n)) == n
  {
    if n >= 10 {
      DigitsDenote(n / 10);
      assert Digits(n)[..|Digits(n)| - 1] == Digits(n / 10);
    }
  }

  lemma DigitsLength(n: nat)
    ensures |Digits(n)| > 3 <==> n >= 1000
  {
    assert n >= 10 ==> |Digits(n)| == 1 + |Digits(n / 10)|;
    assert n >= 100 ==> |Digits(n / 10)| == 1 + |Digits(n / 10 / 10)|;
    assert n >= 1000 ==> |Digits(n / 10 / 10)| == 1 + |Digits(n / 10 / 10 / 10)|;
  }

  lemma ShortIsSmall(s: string)
    requires |s| <= 3
    ensures 0 <= WholeValue(s) <= 999
  {
    if |s| > 0 {
      var a := s[..|s| - 1];
      if |a| > 0 {
        var b := a[..|a| - 1];
        if |b| > 0 { assert b[..|b| - 1] == []; }
      }
    }
  }

  // ---- grouping -----------------------------------------------------------

  lemma {:induction false} GroupedChars(digits: string, c: char)
    requires AllDigits(digits)
    ensures forall i :: 0 <= i < |Grouped(digits, c)| ==> IsDigit(Grouped(digits, c)[i]) || Grouped(digits, c)[i] == c
    decreases |digits|
  {
    if |digits| > 3 { GroupedChars(digits[..|digits| - 3], c); }
  }

  lemma RemoveBetween(c: char, a: string, b: string)
    requires c !in b
    ensures Remove(a + [c] + b, c) == Remove(a, c) + b
  {
    RemoveJoin(c, a + [c], b);
    RemoveJoin(c, a, [c]);
    StepsOnChar(c, c);
    NoTail(Remove(a, c));
    RemoveNothing(c, b);
  }

  lemma CountBetween(c: char, a: string, b: string)
    ensures CountChar(c, a + [c] + b) > 0
  {
    CountJoin(c, a + [c], b);
    CountJoin(c, a, [c]);
    StepsOnChar(c, c);
  }

  lemma {:induction false} GroupedUngroups(digits: string, c: char)
    requires AllDigits(digits) && !IsDigit(c)
    ensures Remove(Grouped(digits, c), c) == digits
    ensures CountChar(c, Grouped(digits, c)) > 0 <==> |digits| > 3
    decreases |digits|
  {
    var n := |digits|;
    if n <= 3 {
      RemoveNothing(c, digits);
      CountNothing(c, digits);
    } else {
      var front, last := digits[..n - 3], digits[n - 3..];
      GroupedUngroups(front, c);
      RemoveBetween(c, Grouped(front, c), last);
      CountBetween(c, Grouped(front, c), last);
      assert front + last == digits;
    }
  }

  lemma GroupedShape(digits: string, c: char)
    requires AllDigits(digits) && !IsDigit(c)
    ensures forall i :: 0 <= i < |Grouped(digits, c)| ==> IsDigit(Grouped(digits, c)[i]) || Grouped(digits, c)[i] == c
    ensures Remove(Grouped(digits, c), c) == digits
    ensures CountChar(c, Grouped(digits, c)) > 0 <==> |digits| > 3
  {
    GroupedChars(digits, c);
    GroupedUngroups(digits, c);
  }

  lemma {:induction false} GroupedReplaced(digits: string, c: char, d: char)
    requires AllDigits(digits) && !IsDigit(c)
    ensures Replace(c, d, Grouped(digits, c)) == Grouped(digits, d)
    decreases |digits|
  {
    if |digits| > 3 { GroupedReplaced(digits[..|digits| - 3], c, d); }
  }

  /** Read from the left, a grouped number is one to three digits, a separator, three digits, and the rest. */
  lemma {:induction false} GroupedFromLeft(digits: string, c: char) returns (head: string, next: string, tail: string)
    requires AllDigits(digits) && |digits| > 3
    ensures Grouped(digits, c) == head + ([c] + (next + tail))
    ensures 1 <= |head| <= 3 && |next| == 3 && AllDigits(head) && AllDigits(next) && (tail == [] || tail[0] == c)
    decreases |digits|
  {
    var n := |digits|;
    if n <= 6 {
      head, next, tail := digits[..n - 3], digits[n - 3..], [];
    } else {
      head, next, tail := GroupedFromLeft(digits[..n - 3], c);
      tail := tail + [c] + digits[n - 3..];
      assert head + ([c] + (next + tail)) == Grouped(digits[..n - 3], c) + [c] + digits[n - 3..];
    }
  }

  // ---- float on the strings the operation hands it ------------------------

  lemma ScanPoint(whole: string, fraction: string, tail: string)
    requires AllDigits(whole) && AllDigits(fraction) && (tail == [] || !IsDigit(tail[0]))
    ensures Scan(whole + (['.'] + (fraction + tail))) == Scanned(whole, fraction, tail)
  {
    var rest := ['.'] + (fraction + tail);
    DigitRunStops(whole, rest);
    assert (whole + rest)[..|whole|] == whole && (whole + rest)[|whole|..] == rest;
    assert rest[1..] == fraction + tail;
    DigitRunStops(fraction, tail);
    assert (fraction + tail)[..|fraction|] == fraction && (fraction + tail)[|fraction|..] == tail;
  }

  lemma ScanWhole(whole: string)
    requires AllDigits(whole)
    ensures Scan(whole) == Scanned(whole, [], [])
  {
    DigitRunStops(whole, []);
    assert whole + [] == whole;
    assert whole[..|whole|] == whole && whole[|whole|..] == [];
  }

  lemma InterpretPlain(whole: string, fraction: string)
    requires whole != []
    ensures Interpret(Scanned(whole, fraction, [])) == Some(WholeValue(whole) as real + FractionValue(fraction))
  {
  }

  /** A plain decimal reads as its value. */
  lemma ParsePlain(whole: string, fraction: string)
    requires AllDigits(whole) && AllDigits(fraction) && whole != []
    ensures ParseUnsigned(whole + FractionPart('.', fraction))
         == Some(WholeValue(whole) as real + FractionValue(fraction))
  {
    ScanPlain(whole, fraction);
    InterpretPlain(whole, fraction);
  }

  lemma ScanPlain(whole: string, fraction: string)
    requires AllDigits(whole) && AllDigits(fraction)
    ensures Scan(whole + FractionPart('.', fraction)) == Scanned(whole, fraction, [])
  {
    if fraction == [] {
      NoTail(whole);
      ScanWhole(whole);
    } else {
      NoTail(fraction);
      ScanPoint(whole, fraction, []);
    }
  }

  lemma InterpretDotted(p: Scanned)
    requires p.tail != [] && p.tail[0] == '.'
    ensures Interpret(p) == None
  {
  }

  // ---- what coerce hands to float -----------------------------------------

  function Cleared(s: string, decimal: char): string {
    if decimal == ',' then Replace(',', '.', Remove(s, '.')) else Remove(s, ',')
  }

  lemma ReplaceJoin(c: char, d: char, a: string, b: string)
    ensures Replace(c, d, a + b) == Replace(c, d, a) + Replace(c, d, b)
  {
  }

  lemma ClearedJoin(a: string, b: string, decimal: char)
    ensures Cleared(a + b, decimal) == Cleared(a, decimal) + Cleared(b, decimal)
  {
    if decimal == ',' {
      RemoveJoin('.', a, b);
      ReplaceJoin(',', '.', Remove(a, '.'), Remove(b, '.'));
    } else {
      RemoveJoin(',', a, b);
    }
  }

  lemma ClearedPlain(s: string, decimal: char)
    requires ',' !in s && '.' !in s
    ensures Cleared(s, decimal) == s
  {
    RemoveNothing(',', s);
    RemoveNothing('.', s);
  }

  lemma BodyIsNumeric(w: Written, locale: Locale)
    requires AllDigits(w.fraction)
    ensures StripSymbols(w.Body(locale)) == w.Body(locale)
  {
    var whole, rest := w.Whole(locale.Separator()), FractionPart(locale.Mark(), w.fraction);
    GroupedShape(Digits(w.whole), locale.Separator());
    StripJoin(whole, rest);
    StripNothing(whole);
    StripNothing(rest);
  }

  /** What is left of the symbols around a number when `float` is called. */
  function Residue(s: string, decimal: char): string { Cleared(StripSymbols(s), decimal) }

  function Dots(n: nat): string { seq(n, _ => '.') }

  predicate IsMark(c: char) { c == '.' || c == ',' }

  lemma ResidueOfChar(c: char, decimal: char)
    requires Decoration([c]) && IsMark(decimal)
    ensures Residue([c], decimal) == if IsExponentLetter(c) then [c] else if c == decimal then "." else []
  {
    assert [c][0] == c;
    StepsOnChar(c, '.');
    StepsOnChar(c, ',');
  }

  /** Exponent letters and marks are left of a decoration, and nothing else. */
  lemma {:induction false} ResidueOf(s: string, decimal: char)
    requires Decoration(s) && IsMark(decimal)
    ensures Decoration(Residue(s, decimal))
    ensures HasExponentLetter(Residue(s, decimal)) <==> HasExponentLetter(s)
    ensures !HasExponentLetter(s) ==> Residue(s, decimal) == Dots(CountChar(decimal, s))
  {
    if s != [] {
      var c, rest := s[0], s[1..];
      ResidueOf(rest, decimal);
      ResidueOfChar(c, decimal);
      ResidueCons(c, rest, decimal);
    }
  }

  lemma ResidueCons(c: char, rest: string, decimal: char)
    ensures Residue([c] + rest, decimal) == Residue([c], decimal) + Residue(rest, decimal)
  {
    StripJoin([c], rest);
    ClearedJoin(StripSymbols([c]), StripSymbols(rest), decimal);
  }

  /** What `float` is called with. */
  lemma ClearedPrint(w: Written, locale: Locale, decimal: char)
    requires w.Decorated() && IsMark(decimal)
    ensures StripSymbols(w.Print(locale)) != []
    ensures Cleared(StripSymbols(w.Print(locale)), decimal)
         == Residue(w.front, decimal)
          + (w.sign.Print()
            + (Residue(w.middle, decimal) + (Cleared(w.Body(locale), decimal) + Residue(w.back, decimal))))
  {
    var sign, body := w.sign.Print(), w.Body(locale);
    var back, middle := StripSymbols(w.back), StripSymbols(w.middle);
    StripJoin(w.front, sign + (w.middle + (body + w.back)));
    StripJoin(sign, w.middle + (body + w.back));
    StripJoin(w.middle, body + w.back);
    StripJoin(body, w.back);
    StripNothing(sign);
    BodyIsNumeric(w, locale);
    BodyIsDigitLed(w, locale);
    ClearedJoin(StripSymbols(w.front), sign + (middle + (body + back)), decimal);
    ClearedJoin(sign, middle + (body + back), decimal);
    ClearedJoin(middle, body + back, decimal);
    ClearedJoin(body, back, decimal);
    ClearedPlain(sign, decimal);
  }

  lemma BodyIsDigitLed(w: Written, locale: Locale)
    ensures w.Body(locale) != [] && IsDigit(w.Body(locale)[0])
  {
    GroupedStart(Digits(w.whole), locale.Separator());
  }

  lemma {:induction false} GroupedStart(digits: string, c: char)
    requires digits != []
    ensures Grouped(digits, c) != [] && Grouped(digits, c)[0] == digits[0]
    decreases |digits|
  {
    if |digits| > 3 { GroupedStart(digits[..|digits| - 3], c); }
  }

  function Signed(sign: Sign, x: Option<real>): Option<real> {
    match x case None => None case Some(v) => Some(if sign.Minus? then -v else v)
  }

  lemma DropFirst(c: char, body: string)
    ensures ([c] + body)[0] == c && ([c] + body)[1..] == body
  {
  }

  predicate DigitFree(s: string) { forall i :: 0 <= i < |s| ==> !IsDigit(s[i]) }

  // ---- exponent letters ---------------------------------------------------

  lemma {:induction false} DigitRunIsDigits(s: string)
    ensures forall i :: 0 <= i < DigitRun(s) ==> IsDigit(s[i])
  {
    if s != [] && IsDigit(s[0]) {
      DigitRunIsDigits(s[1..]);
      assert forall i :: 0 < i < DigitRun(s) ==> s[i] == s[1..][i - 1];
    }
  }

  /** `float` scans `n` digits and points, `d` the place of a digit among them if there is one. */
  lemma ScanHead(s: string) returns (n: nat, d: nat)
    ensures n <= |s| && Scan(s).tail == s[n..]
    ensures forall i :: 0 <= i < n ==> IsDigit(s[i]) || s[i] == '.'
    ensures Scan(s).whole != [] || Scan(s).fraction != [] ==> d < n && IsDigit(s[d])
  {
    var m := DigitRun(s);
    DigitRunIsDigits(s);
    if m < |s| && s[m] == '.' {
      var rest := s[m + 1..];
      assert s[m..][1..] == rest;
      DigitRunIsDigits(rest);
      n, d := m + 1 + DigitRun(rest), if m > 0 then 0 else 1;
      assert rest[DigitRun(rest)..] == s[n..];
      assert forall i :: m < i < n ==> s[i] == rest[i - m - 1];
    } else {
      n, d := m, 0;
    }
  }

  lemma ExponentEndsInDigit(tail: string)
    requires tail != [] && ParseExponent(tail).Some?
    ensures IsDigit(tail[|tail| - 1])
  {
    var signed := |tail| > 1 && (tail[1] == '+' || tail[1] == '-');
    var digits := if signed then tail[2..] else tail[1..];
    DigitRunIsDigits(digits);
    assert digits[|digits| - 1] == tail[|tail| - 1];
  }

  /** An exponent letter is read only with a digit somewhere before it and a digit at the very end. */
  lemma ExponentNeedsDigits(s: string, k: nat) returns (d: nat)
    requires k < |s| && IsExponentLetter(s[k]) && ParseUnsigned(s).Some?
    ensures d < k && IsDigit(s[d]) && IsDigit(s[|s| - 1])
  {
    var n;
    n, d := ScanHead(s);
    assert k >= n;
    ExponentEndsInDigit(s[n..]);
  }

  lemma LetterAt(s: string) returns (k: nat)
    requires HasExponentLetter(s)
    ensures k < |s| && IsExponentLetter(s[k])
  {
    if 'e' in s { k :| 0 <= k < |s| && s[k] == 'e'; } else { k :| 0 <= k < |s| && s[k] == 'E'; }
  }

  /** A letter before every digit is never read. */
  lemma LetterInFront(front: string, rest: string)
    requires DigitFree(front) && HasExponentLetter(front)
    ensures ParseUnsigned(front + rest) == None
  {
    var k := LetterAt(front);
    if ParseUnsigned(front + rest).Some? { var d := ExponentNeedsDigits(front + rest, k); }
  }

  /** A letter with no digit after it is never read. */
  lemma LetterBehind(rest: string, back: string)
    requires DigitFree(back) && HasExponentLetter(back)
    ensures ParseUnsigned(rest + back) == None
  {
    var k := LetterAt(back);
    assert (rest + back)[|rest + back| - 1] == back[|back| - 1];
    if ParseUnsigned(rest + back).Some? { var d := ExponentNeedsDigits(rest + back, |rest| + k); }
  }

  lemma FloatOfUnsigned(s: string)
    requires s == [] || (s[0] != '+' && s[0] != '-')
    ensures ParseFloat(s) == ParseUnsigned(s)
  {
  }

  lemma FloatSkipsSign(sign: Sign, s: string)
    requires s == [] || (s[0] != '+' && s[0] != '-')
    ensures ParseFloat(sign.Print() + s) == Signed(sign, ParseUnsigned(s))
  {
    match sign
    case Unsigned => NoTail(s);
    case Plus => DropFirst('+', s);
    case Minus => DropFirst('-', s);
  }

  /** Symbols with a letter among them make `float` refuse, whatever the digits between them are. */
  lemma LettersRefused(front: string, sign: Sign, middle: string, body: string, back: string)
    requires Decoration(front) && Decoration(middle) && Decoration(back)
    requires body != [] && body[0] != '+' && body[0] != '-'
    requires HasExponentLetter(front) || HasExponentLetter(middle) || HasExponentLetter(back)
    ensures ParseFloat(front + (sign.Print() + (middle + (body + back)))) == None
  {
    if front == [] {
      NoTail(sign.Print() + (middle + (body + back)));
      assert (middle + (body + back))[0] == if middle == [] then body[0] else middle[0];
      FloatSkipsSign(sign, middle + (body + back));
      LettersUnread(middle, body, back);
    } else {
      var before := front + (sign.Print() + middle);
      assert before + (body + back) == front + (sign.Print() + (middle + (body + back)));
      FloatOfUnsigned(before + (body + back));
      BeforeHasLetter(front, sign, middle);
      LettersUnread(before, body, back);
    }
  }

  lemma BeforeHasLetter(front: string, sign: Sign, middle: string)
    requires Decoration(front) && Decoration(middle)
    ensures DigitFree(front + (sign.Print() + middle))
    ensures HasExponentLetter(front) || HasExponentLetter(middle) ==> HasExponentLetter(front + (sign.Print() + middle))
  {
  }

  lemma LettersUnread(before: string, body: string, back: string)
    requires DigitFree(before) && DigitFree(back) && (HasExponentLetter(before) || HasExponentLetter(back))
    ensures ParseUnsigned(before + (body + back)) == None
  {
    if HasExponentLetter(before) {
      LetterInFront(before, body + back);
    } else {
      Assoc(before, body, back);
      LetterBehind(before + body, back);
    }
  }

  /** With an exponent letter anywhere around it a number is not read, whichever mark is taken. */
  lemma LettersNeverConvert(w: Written, locale: Locale, decimal: char)
    requires w.Decorated() && !w.Plain() && IsMark(decimal)
    ensures Coerce(w.Print(locale), decimal) == None
  {
    ResidueOf(w.front, decimal);
    ResidueOf(w.middle, decimal);
    ResidueOf(w.back, decimal);
    ClearedPrint(w, locale, decimal);
    ClearedBodyStart(w, locale, decimal);
    LettersRefused(Residue(w.front, decimal), w.sign, Residue(w.middle, decimal), Cleared(w.Body(locale), decimal),
                   Residue(w.back, decimal));
  }

  lemma ClearedBodyStart(w: Written, locale: Locale, decimal: char)
    requires IsMark(decimal)
    ensures var body := Cleared(w.Body(locale), decimal); body != [] && IsDigit(body[0])
  {
    BodyIsDigitLed(w, locale);
    var body := w.Body(locale);
    assert body == [body[0]] + body[1..];
    ClearedJoin([body[0]], body[1..], decimal);
    ClearedPlain([body[0]], decimal);
  }

  function PlainBody(w: Written): string {
    Digits(w.whole) + FractionPart('.', w.fraction)
  }

  lemma ClearedFraction(fraction: string, locale: Locale)
    requires AllDigits(fraction)
    ensures Cleared(FractionPart(locale.Mark(), fraction), locale.Mark()) == FractionPart('.', fraction)
  {
    RemoveNothing(locale.Separator(), FractionPart(locale.Mark(), fraction));
  }

  lemma ClearedWhole(w: Written, locale: Locale)
    ensures Cleared(w.Whole(locale.Separator()), locale.Mark()) == Digits(w.whole)
  {
    GroupedShape(Digits(w.whole), locale.Separator());
    RemoveNothing(locale.Separator(), Digits(w.whole));
  }

  lemma ClearedBody(w: Written, locale: Locale)
    requires AllDigits(w.fraction)
    ensures Cleared(w.Body(locale), locale.Mark()) == PlainBody(w)
  {
    ClearedWhole(w, locale);
    ClearedFraction(w.fraction, locale);
    ClearedJoin(w.Whole(locale.Separator()), FractionPart(locale.Mark(), w.fraction), locale.Mark());
  }

  // ---- marks among the symbols --------------------------------------------

  lemma ScanPointsBehind(whole: string, fraction: string, behind: nat)
    requires AllDigits(whole) && AllDigits(fraction) && behind > 0
    ensures Scan(whole + (FractionPart('.', fraction) + Dots(behind)))
         == Scanned(whole, fraction, Dots(if fraction == [] then behind - 1 else behind))
  {
    if fraction == [] {
      assert FractionPart('.', fraction) + Dots(behind) == ['.'] + ([] + Dots(behind - 1));
      ScanPoint(whole, [], Dots(behind - 1));
    } else {
      Assoc(['.'], fraction, Dots(behind));
      ScanPoint(whole, fraction, Dots(behind));
    }
  }

  /** Points behind a number: one is the point of an integer, any other is refused. */
  lemma PointsBehind(whole: string, fraction: string, behind: nat)
    requires AllDigits(whole) && AllDigits(fraction) && whole != []
    ensures ParseUnsigned(whole + (FractionPart('.', fraction) + Dots(behind)))
         == if behind == 0 || (behind == 1 && fraction == [])
            then Some(WholeValue(whole) as real + FractionValue(fraction)) else None
  {
    if behind == 0 {
      NoTail(FractionPart('.', fraction));
      ParsePlain(whole, fraction);
    } else {
      ScanPointsBehind(whole, fraction, behind);
      InterpretPoints(whole, fraction, if fraction == [] then behind - 1 else behind);
    }
  }

  lemma InterpretPoints(whole: string, fraction: string, points: nat)
    requires whole != []
    ensures Interpret(Scanned(whole, fraction, Dots(points)))
         == if points == 0 then Some(WholeValue(whole) as real + FractionValue(fraction)) else None
  {
    if points == 0 { assert Dots(0) == []; } else { assert Dots(points)[0] == '.'; }
  }

  lemma ScanPointInFront(digits: string, rest: string)
    requires AllDigits(digits) && (rest == [] || rest[0] == '.')
    ensures Scan("." + (digits + rest)) == Scanned([], digits, rest)
  {
    NoTail("." + (digits + rest));
    ScanPoint([], digits, rest);
  }

  lemma WholeOfNothing()
    ensures WholeValue([]) == 0
  {
  }

  /** A point before the digits makes them the fraction. */
  lemma PointInFront(digits: string, rest: string)
    requires AllDigits(digits) && digits != [] && (rest == [] || rest[0] == '.')
    ensures ParseUnsigned("." + (digits + rest)) == if rest == [] then Some(FractionValue(digits)) else None
  {
    ScanPointInFront(digits, rest);
    if rest == [] { InterpretFraction(digits); } else { InterpretDotted(Scanned([], digits, rest)); }
  }

  lemma InterpretFraction(digits: string)
    requires digits != []
    ensures Interpret(Scanned([], digits, [])) == Some(FractionValue(digits))
  {
    WholeOfNothing();
  }

  lemma PointAlone(s: string)
    requires |s| > 1 && s[0] == '.' && !IsDigit(s[1])
    ensures ParseUnsigned(s) == None
  {
    DigitRunStops([], s);
    NoTail(s);
  }

  /** A fraction made of the digits of a number equals it only for zero. */
  lemma ZeroIsItsFraction(n: nat)
    ensures FractionValue(Digits(n)) == n as real <==> n == 0
  {
    if n == 0 { assert Digits(0)[1..] == []; }
  }

  /** What digits with an optional point read as, by the points before and behind them. */
  function Pointed(whole: string, fraction: string, before: nat, behind: nat): Option<real> {
    if before == 0 then
      (if behind == 0 || (behind == 1 && fraction == [])
       then Some(WholeValue(whole) as real + FractionValue(fraction)) else None)
    else if before == 1 && fraction == [] && behind == 0 then Some(FractionValue(whole))
    else None
  }

  /** Reading a number with points before and behind it. */
  lemma ReadWithPoints(whole: string, fraction: string, before: nat, behind: nat)
    requires AllDigits(whole) && AllDigits(fraction) && whole != []
    ensures ParseUnsigned(Dots(before) + ((whole + FractionPart('.', fraction)) + Dots(behind)))
         == Pointed(whole, fraction, before, behind)
  {
    Assoc(whole, FractionPart('.', fraction), Dots(behind));
    if before == 0 {
      NoTail(whole + (FractionPart('.', fraction) + Dots(behind)));
      assert Dots(0) == [];
      PointsBehind(whole, fraction, behind);
    } else if before == 1 {
      assert Dots(1) == ".";
      PointInFront(whole, FractionPart('.', fraction) + Dots(behind));
    } else {
      PointAlone(Dots(before) + (whole + (FractionPart('.', fraction) + Dots(behind))));
    }
  }

  /** A point before a sign is never read. */
  lemma PointBeforeSign(sign: Sign, before: nat, rest: string)
    requires before > 0 && !sign.Unsigned?
    ensures ParseFloat(Dots(before) + (sign.Print() + rest)) == None
  {
    var s := Dots(before) + (sign.Print() + rest);
    assert sign.Print() == (if sign.Plus? then "+" else "-");
    assert s[0] == '.' && s[1] == if before == 1 then sign.Print()[0] else '.';
    PointAlone(s);
  }

  lemma JoinDots(a: nat, b: nat, rest: string)
    ensures Dots(a) + (Dots(b) + rest) == Dots(a + b) + rest
  {
  }

  /** The sign is read off unless a point stands before it. */
  lemma FloatWithPoints(sign: Sign, inFront: nat, inMiddle: nat, rest: string)
    requires rest != [] && IsDigit(rest[0])
    ensures ParseFloat(Dots(inFront) + (sign.Print() + (Dots(inMiddle) + rest)))
         == if inFront > 0
           && !sign.Unsigned? then None else Signed(sign, ParseUnsigned(Dots(inFront + inMiddle) + rest))
  {
    if inFront > 0 && !sign.Unsigned? {
      PointBeforeSign(sign, inFront, Dots(inMiddle) + rest);
    } else {
      var read := Dots(inFront + inMiddle) + rest;
      JoinDots(inFront, inMiddle, rest);
      NoTail(sign.Print() + read);
      NoTail(read);
      assert read[0] == if inFront + inMiddle > 0 then '.' else rest[0];
      FloatSkipsSign(sign, read);
    }
  }

  /** The marks that are taken for decimal points, before and behind the number. */
  function Before(w: Written, decimal: char): nat { CountChar(decimal, w.front) + CountChar(decimal, w.middle) }

  function Behind(w: Written, decimal: char): nat { CountChar(decimal, w.back) }

  predicate PointBeforeItsSign(w: Written, decimal: char) { CountChar(decimal, w.front) > 0 && !w.sign.Unsigned? }

  /** What `float` is called with when no exponent letter stands around the number. */
  function PlainText(w: Written, locale: Locale, decimal: char): string {
    var rest := Cleared(w.Body(locale), decimal) + Dots(Behind(w, decimal));
    Dots(CountChar(decimal, w.front)) + (w.sign.Print() + (Dots(CountChar(decimal, w.middle)) + rest))
  }

  lemma CoerceIsFloat(w: Written, locale: Locale, decimal: char)
    requires w.Decorated() && w.Plain() && IsMark(decimal)
    ensures Coerce(w.Print(locale), decimal) == ParseFloat(PlainText(w, locale, decimal))
  {
    ResidueOf(w.front, decimal);
    ResidueOf(w.middle, decimal);
    ResidueOf(w.back, decimal);
    ClearedPrint(w, locale, decimal);
  }

  /** Coercing a plainly written number comes down to reading its body between points. */
  lemma PlainCoerces(w: Written, locale: Locale, decimal: char)
    requires w.Decorated() && w.Plain() && IsMark(decimal)
    ensures var body := Cleared(w.Body(locale), decimal);
            Coerce(w.Print(locale), decimal) ==
              if PointBeforeItsSign(w, decimal) then None
              else Signed(w.sign, ParseUnsigned(Dots(Before(w, decimal)) + (body + Dots(Behind(w, decimal)))))
  {
    CoerceIsFloat(w, locale, decimal);
    ClearedBodyStart(w, locale, decimal);
    var rest := Cleared(w.Body(locale), decimal) + Dots(Behind(w, decimal));
    assert rest[0] == Cleared(w.Body(locale), decimal)[0];
    FloatWithPoints(w.sign, CountChar(decimal, w.front), CountChar(decimal, w.middle), rest);
  }

  lemma SignedIsValueIff(w: Written, x: Option<real>)
    ensures Signed(w.sign, x) == Some(w.Value()) <==> x == Some(w.whole as real + FractionValue(w.fraction))
  {
  }

  lemma HarmlessIff(w: Written, mark: char)
    ensures w.MarksHarmless(mark) <==>
              && !PointBeforeItsSign(w, mark)
              && Pointed(Digits(w.whole), w.fraction, Before(w, mark), Behind(w, mark))
                 == Some(w.whole as real + FractionValue(w.fraction))
  {
    ZeroIsItsFraction(w.whole);
    DigitsDenote(w.whole);
  }

  /** Printing and coercing with the matching mark returns the value exactly when no exponent letter stands
      around the number and the marks among the symbols, if any, are harmless. */
  lemma CoerceUndoesPrintIff(w: Written, locale: Locale)
    requires w.Decorated()
    ensures Coerce(w.Print(locale), locale.Mark()) == Some(w.Value()) <==> w.Plain() && w.MarksHarmless(locale.Mark())
  {
    var mark := locale.Mark();
    if w.Plain() {
      PlainCoerces(w, locale, mark);
      ClearedBody(w, locale);
      ReadWithPoints(Digits(w.whole), w.fraction, Before(w, mark), Behind(w, mark));
      SignedIsValueIff(w, Pointed(Digits(w.whole), w.fraction, Before(w, mark), Behind(w, mark)));
      HarmlessIff(w, mark);
    } else {
      LettersNeverConvert(w, locale, mark);
    }
  }

  /** Without marks among the symbols: the value, or nothing at all, exactly as no exponent letter stands there. */
  lemma CoerceUndoesPrint(w: Written, locale: Locale)
    requires w.Valid()
    ensures Coerce(w.Print(locale), locale.Mark()) == if w.Plain() then Some(w.Value()) else None
  {
    CoerceUndoesPrintIff(w, locale);
    UnmarkedCounts(w, locale.Mark());
    if !w.Plain() { LettersNeverConvert(w, locale, locale.Mark()); }
  }

  lemma UnmarkedCounts(w: Written, decimal: char)
    requires w.Valid() && IsMark(decimal)
    ensures CountChar(decimal, w.front) == CountChar(decimal, w.middle) == CountChar(decimal, w.back) == 0
  {
    CountNothing(decimal, w.front);
    CountNothing(decimal, w.middle);
    CountNothing(decimal, w.back);
  }

  // ---- the mark taken for the other one -----------------------------------

  lemma MisclearedWhole(w: Written, locale: Locale)
    ensures Cleared(w.Whole(locale.Separator()), locale.Separator())
         == if w.HasSeparator() then Grouped(Digits(w.whole), '.') else Digits(w.whole)
  {
    var digits, sep := Digits(w.whole), locale.Separator();
    GroupedShape(digits, sep);
    RemoveNothing(locale.Mark(), Grouped(digits, sep));
    GroupedReplaced(digits, sep, '.');
    ClearedPlain(digits, sep);
  }

  lemma MisclearedFraction(fraction: string, locale: Locale)
    requires AllDigits(fraction)
    ensures Cleared(FractionPart(locale.Mark(), fraction), locale.Separator()) == fraction
  {
    var mark := locale.Mark();
    if fraction != [] {
      RemoveJoin(mark, [mark], fraction);
      RemoveNothing(mark, fraction);
      StepsOnChar(mark, mark);
      NoTail(fraction);
    }
  }

  lemma MisclearedBody(w: Written, locale: Locale)
    requires AllDigits(w.fraction)
    ensures Cleared(w.Body(locale), locale.Separator())
         == (if w.HasSeparator() then Grouped(Digits(w.whole), '.') else Digits(w.whole)) + w.fraction
  {
    MisclearedWhole(w, locale);
    MisclearedFraction(w.fraction, locale);
    ClearedJoin(w.Whole(locale.Separator()), FractionPart(locale.Mark(), w.fraction), locale.Separator());
  }

  /** Without an exponent, three digits before the point or the end read as less than 1000, or not at all. */
  lemma ShortRunIsSmall(s: string)
    requires !HasExponentLetter(s) && DigitRun(s) <= 3
    ensures var r := ParseUnsigned(s); r.Some? ==> 0.0 <= r.value < 1000.0
  {
    var n, d := ScanHead(s);
    ShortIsSmall(Scan(s).whole);
    if n < |s| { assert s[n..][0] == s[n] && s[n] in s; }
  }

  predicate DigitsAndPoints(s: string) { forall i :: 0 <= i < |s| ==> IsDigit(s[i]) || s[i] == '.' }

  lemma DigitsAndPointsJoin(a: string, b: string)
    requires DigitsAndPoints(a) && DigitsAndPoints(b)
    ensures DigitsAndPoints(a + b)
  {
  }

  lemma SeparatorsHaveNoLetter(digits: string, fraction: string, before: nat, behind: nat)
    requires AllDigits(digits) && AllDigits(fraction)
    ensures !HasExponentLetter(Dots(before) + ((Grouped(digits, '.') + fraction) + Dots(behind)))
  {
    GroupedChars(digits, '.');
    DigitsAndPointsJoin(Grouped(digits, '.'), fraction);
    DigitsAndPointsJoin(Grouped(digits, '.') + fraction, Dots(behind));
    DigitsAndPointsJoin(Dots(before), (Grouped(digits, '.') + fraction) + Dots(behind));
  }

  lemma SeparatorsRunIsShort(digits: string, fraction: string, before: nat, behind: nat)
    requires AllDigits(digits) && |digits| > 3
    ensures DigitRun(Dots(before) + ((Grouped(digits, '.') + fraction) + Dots(behind))) <= 3
  {
    if before == 0 {
      var head, next, tail := GroupedFromLeft(digits, '.');
      var point := ['.'] + (next + tail);
      Assoc(head, point, fraction);
      Assoc(head, point + fraction, Dots(behind));
      NoTail(head + ((point + fraction) + Dots(behind)));
      DigitRunStops(head, (point + fraction) + Dots(behind));
    } else {
      assert (Dots(before) + ((Grouped(digits, '.') + fraction) + Dots(behind)))[0] == '.';
    }
  }

  predicate AllZeros(s: string) { forall i :: 0 <= i < |s| ==> s[i] == '0' }

  lemma {:induction false} ZeroWhole(s: string)
    requires AllDigits(s)
    ensures WholeValue(s) >= 0 && (WholeValue(s) == 0 <==> AllZeros(s))
  {
    if s != [] { ZeroWhole(s[..|s| - 1]); }
  }

  lemma {:induction false} ZeroFraction(s: string)
    requires AllDigits(s)
    ensures FractionValue(s) == 0.0 <==> AllZeros(s)
  {
    if s != [] {
      ZeroFraction(s[1..]);
      assert AllZeros(s) <==> s[0] == '0' && AllZeros(s[1..]) by {
        assert forall i :: 0 < i < |s| ==> s[i] == s[1..][i - 1];
      }
    }
  }

  lemma {:induction false} WholeGrows(a: string, b: string)
    requires AllDigits(a) && AllDigits(b) && b != []
    ensures WholeValue(a + b) >= 10 * WholeValue(a)
  {
    var n := |b| - 1;
    ZeroWhole(a);
    assert (a + b)[..|a + b| - 1] == a + b[..n];
    if n == 0 { NoTail(a); assert b[..0] == []; } else { WholeGrows(a, b[..n]); }
  }

  /** Without its mark a number with a fraction reads right only when it is zero. */
  lemma RunTogether(n: nat, fraction: string)
    requires AllDigits(fraction) && fraction != []
    ensures var s, x := Digits(n) + fraction, n as real + FractionValue(fraction);
            (WholeValue(s) as real == x <==> x == 0.0) && (FractionValue(s) == x <==> x == 0.0)
  {
    var s := Digits(n) + fraction;
    DigitsDenote(n);
    if n == 0 {
      assert Digits(0) == "0" && s[1..] == fraction;
      ZeroWhole(s);
      ZeroFraction(fraction);
      assert AllZeros(s) <==> AllZeros(fraction) by { assert forall i :: 0 < i < |s| ==> s[i] == fraction[i - 1]; }
    } else {
      WholeGrows(Digits(n), fraction);
    }
  }

  lemma PointedTogether(n: nat, fraction: string, before: nat, behind: nat)
    requires AllDigits(fraction) && fraction != []
    ensures var x := n as real + FractionValue(fraction);
            Pointed(Digits(n) + fraction, [], before, behind) == Some(x) <==> x == 0.0 && before + behind <= 1
  {
    RunTogether(n, fraction);
  }

  lemma IntegerHarmlessIff(w: Written, separator: char)
    requires w.fraction == [] && !w.HasSeparator()
    ensures w.SeparatorsHarmless(separator) <==> w.MarksHarmless(separator)
  {
  }

  lemma FractionHarmlessIff(w: Written, separator: char)
    requires AllDigits(w.fraction) && w.fraction != [] && !w.HasSeparator()
    ensures w.SeparatorsHarmless(separator) <==>
              && !PointBeforeItsSign(w, separator) && w.whole as real + FractionValue(w.fraction) == 0.0
              && Before(w, separator) + Behind(w, separator) <= 1
  {
  }

  lemma OtherHarmlessIff(w: Written, separator: char)
    requires AllDigits(w.fraction) && !w.HasSeparator()
    ensures w.SeparatorsHarmless(separator) <==>
              && !PointBeforeItsSign(w, separator)
              && Pointed(Digits(w.whole) + w.fraction, [], Before(w, separator), Behind(w, separator))
                 == Some(w.whole as real + FractionValue(w.fraction))
  {
    if w.fraction == [] {
      NoTail(Digits(w.whole));
      IntegerHarmlessIff(w, separator);
      HarmlessIff(w, separator);
    } else {
      FractionHarmlessIff(w, separator);
      PointedTogether(w.whole, w.fraction, Before(w, separator), Behind(w, separator));
    }
  }

  /** Printing and coercing with the other mark, exactly. */
  lemma OtherMarkIff(w: Written, locale: Locale)
    requires w.Decorated() && w.Plain()
    ensures Coerce(w.Print(locale), locale.Separator()) == Some(w.Value()) <==> w.SeparatorsHarmless(locale.Separator())
  {
    var sep := locale.Separator();
    PlainCoerces(w, locale, sep);
    MisclearedBody(w, locale);
    if w.HasSeparator() {
      SeparatorsRunIsShort(Digits(w.whole), w.fraction, Before(w, sep), Behind(w, sep));
      SeparatorsHaveNoLetter(Digits(w.whole), w.fraction, Before(w, sep), Behind(w, sep));
      ShortRunIsSmall(Dots(Before(w, sep)) + ((Grouped(Digits(w.whole), '.') + w.fraction) + Dots(Behind(w, sep))));
      DigitsLength(w.whole);
    } else {
      var digits := Digits(w.whole) + w.fraction;
      NoTail(digits);
      ReadWithPoints(digits, [], Before(w, sep), Behind(w, sep));
      SignedIsValueIff(w, Pointed(digits, [], Before(w, sep), Behind(w, sep)));
      OtherHarmlessIff(w, sep);
    }
  }

  /** With either mark, a printed number reads as its value exactly when no exponent letter stands around it and the
      marks in it and around it are harmless to this reading. */
  lemma CoerceReadsIff(w: Written, locale: Locale, decimal: char)
    requires w.Decorated() && IsMark(decimal)
    ensures Coerce(w.Print(locale), decimal) == Some(w.Value()) <==> w.Plain() && w.ReadsWith(locale, decimal)
  {
    if !w.Plain() {
      LettersNeverConvert(w, locale, decimal);
    } else if decimal == locale.Mark() {
      CoerceUndoesPrintIff(w, locale);
    } else {
      OtherMarkIff(w, locale);
    }
  }

  /** Without mark or separator, either reading is right. */
  lemma UnmarkedReadsEitherWay(w: Written, locale: Locale)
    requires w.Valid() && w.Plain() && w.fraction == [] && !w.HasSeparator()
    ensures Coerce(w.Print(locale), locale.Separator()) == Some(w.Value())
  {
    OtherMarkIff(w, locale);
    UnmarkedCounts(w, locale.Separator());
  }

  /** With a group separator, the other reading is wrong. */
  lemma GroupedMisreads(w: Written, locale: Locale)
    requires w.Decorated() && w.HasSeparator()
    ensures Coerce(w.Print(locale), locale.Separator()) != Some(w.Value())
  {
    CoerceReadsIff(w, locale, locale.Separator());
  }

  // ---- auto-detection over a column ---------------------------------------

  function Texts(column: seq<Written>, locale: Locale): seq<string> {
    seq(|column|, i requires 0 <= i < |column| => column[i].Print(locale))
  }

  ghost predicate Recovered(column: seq<Written>, locale: Locale) {
    forall i :: 0 <= i < |column| ==>
      Coerce(column[i].Print(locale), DetectDecimal(Texts(column, locale))) == Some(column[i].Value())
  }

  lemma CountPrinted(w: Written, locale: Locale, c: char)
    requires w.Valid() && (c == ',' || c == '.')
    ensures CountChar(c, w.Print(locale))
         == CountChar(c, w.Whole(locale.Separator())) + CountChar(c, FractionPart(locale.Mark(), w.fraction))
  {
    var sign := w.sign.Print();
    CountJoin(c, w.front, sign + (w.middle + (w.Body(locale) + w.back)));
    CountJoin(c, sign, w.middle + (w.Body(locale) + w.back));
    CountJoin(c, w.middle, w.Body(locale) + w.back);
    CountJoin(c, w.Body(locale), w.back);
    CountJoin(c, w.Whole(locale.Separator()), FractionPart(locale.Mark(), w.fraction));
    CountNothing(c, w.front);
    CountNothing(c, w.middle);
    CountNothing(c, w.back);
    CountNothing(c, sign);
  }

  lemma WrittenCounts(w: Written, locale: Locale)
    requires w.Valid()
    ensures CountChar(locale.Separator(), w.Print(locale)) > 0 <==> w.HasSeparator()
    ensures CountChar(locale.Mark(), w.Print(locale)) > 0 <==> w.fraction != []
  {
    var sep, mark := locale.Separator(), locale.Mark();
    var whole, rest := w.Whole(sep), FractionPart(mark, w.fraction);
    GroupedShape(Digits(w.whole), sep);
    assert mark !in whole;
    CountPrinted(w, locale, sep);
    CountPrinted(w, locale, mark);
    CountNothing(sep, Digits(w.whole));
    CountNothing(sep, rest);
    CountNothing(mark, whole);
  }

  lemma {:induction false} TotalPositive(c: char, values: seq<string>)
    ensures Total(c, values) > 0 <==> exists i :: 0 <= i < |values| && CountChar(c, values[i]) > 0
  {
    if values != [] {
      TotalPositive(c, values[1..]);
      assert forall i :: 0 < i < |values| ==> values[i] == values[1..][i - 1];
    }
  }

  /** `auto` recovers a printed column exactly when no exponent letter stands around a number and the mark it detects,
      whichever that is, finds only harmless marks in each of them. */
  lemma AutoReadsIff(column: seq<Written>, locale: Locale)
    requires forall i :: 0 <= i < |column| ==> column[i].Decorated()
    ensures Recovered(column, locale) <==>
              forall i :: 0 <= i < |column| ==>
                column[i].Plain() && column[i].ReadsWith(locale, DetectDecimal(Texts(column, locale)))
  {
    var decimal := DetectDecimal(Texts(column, locale));
    forall i | 0 <= i < |column|
      ensures Coerce(column[i].Print(locale), decimal) == Some(column[i].Value())
              <==> column[i].Plain() && column[i].ReadsWith(locale, decimal)
    {
      CoerceReadsIff(column[i], locale, decimal);
    }
  }

  /** The detected mark is the right one, or nothing in the column depends on it. */
  predicate MarkFound(locale: Locale, marks: nat, separators: nat) {
    || separators == 0
    || (if locale.US? then 0 < marks <= separators else 0 < marks < separators)
  }

  lemma SeparatorsSeen(column: seq<Written>, locale: Locale)
    requires forall i :: 0 <= i < |column| ==> column[i].Valid()
    ensures Total(locale.Separator(), Texts(column, locale)) > 0
       <==> exists i :: 0 <= i < |column| && column[i].HasSeparator()
    ensures Total(locale.Mark(), Texts(column, locale)) > 0
       <==> exists i :: 0 <= i < |column| && column[i].fraction != []
  {
    var texts := Texts(column, locale);
    TotalPositive(locale.Separator(), texts);
    TotalPositive(locale.Mark(), texts);
    forall i | 0 <= i < |column|
      ensures CountChar(locale.Separator(), texts[i]) > 0 <==> column[i].HasSeparator()
      ensures CountChar(locale.Mark(), texts[i]) > 0 <==> column[i].fraction != []
    {
      WrittenCounts(column[i], locale);
    }
  }

  /** `auto` recovers a column printed in one locale exactly when no exponent letter stands around a number, and
      there are no group separators or the separators outnumber the marks (in the US style, or equal them). */
  lemma AutoRecoversIff(column: seq<Written>, locale: Locale)
    requires forall i :: 0 <= i < |column| ==> column[i].Valid()
    ensures var texts := Texts(column, locale);
            Recovered(column, locale) <==>
              && (forall i :: 0 <= i < |column| ==> column[i].Plain())
              && MarkFound(locale, Total(locale.Mark(), texts), Total(locale.Separator(), texts))
  {
    var texts := Texts(column, locale);
    var marks, separators := Total(locale.Mark(), texts), Total(locale.Separator(), texts);
    SeparatorsSeen(column, locale);
    if i :| 0 <= i < |column| && !column[i].Plain() {
      LettersNeverConvert(column[i], locale, DetectDecimal(texts));
    } else if MarkFound(locale, marks, separators) {
      forall i | 0 <= i < |column|
        ensures Coerce(column[i].Print(locale), DetectDecimal(texts)) == Some(column[i].Value())
      {
        if DetectDecimal(texts) == locale.Mark() {
          CoerceUndoesPrint(column[i], locale);
        } else {
          UnmarkedReadsEitherWay(column[i], locale);
        }
      }
    } else {
      var i :| 0 <= i < |column| && column[i].HasSeparator();
      GroupedMisreads(column[i], locale);
    }
  }

  lemma SingleColumn(w: Written, locale: Locale)
    ensures Texts([w], locale) == [w.Print(locale)]
    ensures forall c :: Total(c, Texts([w], locale)) == CountChar(c, w.Print(locale))
  {
    var texts := Texts([w], locale);
    assert texts == [w.Print(locale)];
    assert texts[1..] == [];
  }

  /** "1.234,56" */
  const EUROPEAN: Written := Written(Unsigned, 1234, "56", true, "", "", "")

  /** "$ 1,200" */
  const DOLLARS: Written := Written(Unsigned, 1200, "", true, "$ ", "", "")

  lemma EuropeanPrints()
    ensures EUROPEAN.Valid() && EUROPEAN.Print(EU) == "1.234,56"
  {
    assert Digits(1234) == "1234";
    assert Grouped("1234", '.') == "1.234";
    assert EUROPEAN.Body(EU) == "1.234,56";
    NoTail("1.234,56");
  }

  lemma TwelveHundred(w: Written)
    requires w.whole == 1200 && w.grouped && w.fraction == []
    ensures w.Body(US) == "1,200"
  {
    assert Digits(1200) == "1200";
    assert Grouped("1200", ',') == "1,200";
    NoTail("1,200");
  }

  lemma PrintsBare(w: Written, locale: Locale)
    requires w.sign.Unsigned? && w.middle == [] && w.back == []
    ensures w.Print(locale) == w.front + w.Body(locale)
  {
    NoTail(w.Body(locale));
    NoTail(w.Body(locale) + []);
  }

  lemma DollarsPrints()
    ensures DOLLARS.Valid() && DOLLARS.Print(US) == "$ 1,200"
  {
    TwelveHundred(DOLLARS);
    PrintsBare(DOLLARS, US);
  }

  /** Two documented values that `auto` does not read as documented when each is a column of its own. */
  lemma DocumentedExamplesAlone()
    ensures EUROPEAN.Valid() && EUROPEAN.Print(EU) == "1.234,56" && !Recovered([EUROPEAN], EU)
    ensures DOLLARS.Valid() && DOLLARS.Print(US) == "$ 1,200" && !Recovered([DOLLARS], US)
  {
    EuropeanPrints();
    DollarsPrints();
    EuropeanMarkMissed();
    DollarsMarkMissed();
    AutoRecoversIff([EUROPEAN], EU);
    AutoRecoversIff([DOLLARS], US);
  }

  /** One mark and one separator: in the European style a tie goes to the wrong one. */
  lemma EuropeanMarkMissed()
    ensures var texts := Texts([EUROPEAN], EU); !MarkFound(EU, Total(',', texts), Total('.', texts))
  {
    EuropeanPrints();
    SingleColumn(EUROPEAN, EU);
    assert CountChar(',', "1.234,56") == 1;
    assert CountChar('.', "1.234,56") == 1;
  }

  /** A separator and no mark: the separator is taken for the mark. */
  lemma DollarsMarkMissed()
    ensures var texts := Texts([DOLLARS], US); !MarkFound(US, Total('.', texts), Total(',', texts))
  {
    DollarsPrints();
    SingleColumn(DOLLARS, US);
    assert CountChar(',', "$ 1,200") == 1;
    assert CountChar('.', "$ 1,200") == 0;
  }

  /** Only symbols without `e` or `E` are stripped: nothing that starts with "EUR" converts. */
  lemma CurrencyCodeWithExponentLetter(rest: string, decimal: char)
    requires IsMark(decimal)
    ensures Coerce("EUR" + rest, decimal) == None
  {
    EuroSign();
    StripJoin("EUR", rest);
    ClearedJoin("E", StripSymbols(rest), decimal);
    ClearedPlain("E", decimal);
    LetterInFront("E", Cleared(StripSymbols(rest), decimal));
    FloatOfUnsigned("E" + Cleared(StripSymbols(rest), decimal));
  }

  lemma EuroSign()
    ensures StripSymbols("EUR") == "E" && HasExponentLetter("E") && DigitFree("E")
  {
    assert "EUR"[1..][1..][1..] == [];
    assert 'E' in "E";
  }

  /** "S/. 1,200" */
  const SOLES: Written := Written(Unsigned, 1200, "", true, "S/. ", "", "")

  /** A currency sign with a point in it: the value is read, and it is the wrong one. */
  lemma PointInCurrencySign()
    ensures SOLES.Decorated() && SOLES.Plain() && !SOLES.MarksHarmless('.')
    ensures SOLES.Print(US) == "S/. 1,200" && Coerce("S/. 1,200", '.') == Some(0.12)
  {
    SolesPrints();
    SolesPoints();
    SolesMisread();
  }

  lemma SolesMisread()
    ensures Coerce(SOLES.Print(US), US.Mark()) == Some(0.12)
  {
    SolesPoints();
    PlainCoerces(SOLES, US, '.');
    ClearedBody(SOLES, US);
    ReadWithPoints(Digits(1200), [], 1, 0);
    TwelveHundredths();
  }

  lemma SolesPoints()
    ensures SOLES.Decorated() && SOLES.Plain() && SOLES.fraction == []
    ensures CountChar('.', SOLES.front) == 1 && CountChar('.', SOLES.middle) == CountChar('.', SOLES.back) == 0
  {
    OnePoint("S/", " ");
    assert "S/" + ['.'] + " " == "S/. ";
  }

  lemma OnePoint(a: string, b: string)
    requires '.' !in a && '.' !in b
    ensures CountChar('.', a + ['.'] + b) == 1
  {
    CountJoin('.', a + ['.'], b);
    CountJoin('.', a, ['.']);
    CountNothing('.', a);
    CountNothing('.', b);
    StepsOnChar('.', '.');
  }

  lemma TwelveHundredths()
    ensures FractionValue(Digits(1200)) == 0.12
  {
    assert Digits(1200) == "1200";
    assert FractionValue("00") == 0.0;
    assert "1200"[1..][1..] == "00";
  }

  lemma SolesPrints()
    ensures SOLES.Print(US) == "S/. 1,200"
  {
    TwelveHundred(SOLES);
    PrintsBare(SOLES, US);
  }
}
